/**
 * The indoor-unit emulator: one indoor unit on the bus that answers the main WRC's tracking
 * rounds and the WRCs' read and write commands.
 *
 * The unit holds an address, temporary until the main WRC assigns one, and the settings record
 * `IndoorUnitState`. For each received frame `Step` says how the unit reacts: it ignores the
 * frame, replies (possibly after a delay, with a new address and settings), or stops. The
 * random bytes the unit draws for temporary addresses are a parameter: `draw` is the byte
 * drawn if the frame calls for one.
 */
module IndoorUnitEmulator {
  import opened Bytes
  import opened Wrappers
  import opened Addresses
  import opened IndoorUnit
  import opened Commands
  import opened Codec

  datatype Address = Temporary(value: Byte) | Assigned(value: Byte)

  /** `is_iu_rxframe`: only an assigned unit is addressed by commands, at 0x20 + its address
      + 10 with `u8` wrap-around. */
  predicate IsIuRxFrame(a: Address, dst: Byte)
    ensures IsIuRxFrame(a, dst) ==> a.Assigned? && dst - INDOOR_UNIT_FIRST - 10 == a.value
    ensures IsIuRxFrame(a, dst) && a.value < 22 ==> IsIndoorUnit(dst)
  {
    match a
    case Temporary(_) => false
    case Assigned(v) => dst == INDOOR_UNIT_FIRST + v + 10
  }

  /** The settings the unit starts with. */
  function InitialState(): (s: IndoorUnitState)
    ensures s.power && s.mode == Heat && s.fanSpeed == FanAuto && s.setpointTemp == 23
    ensures s.defrost && !s.sPlasmaIon && s.cleanFilter && !s.humidifier
    ensures !s.oaIntake && !s.awayMds
  {
    IndoorUnitState(true, Heat, FanAuto, 23, true, false, true, false, false, false)
  }

  /** How the emulator ends: at the end of the stream, by returning an error, or by a panic
      (a failed `check`, or a frame of the wrong size class handed to `unpack_as`). */
  datatype Exit = Finished | Failed | Panicked

  datatype Reaction =
    | Ignore
    | Reply(address: Address, state: IndoorUnitState, delayMs: nat, frame: TxFrame)
    | Stop(exit: Exit)

  function ShortReply(src: Byte, dst: Byte, cmd: Byte, b: Byte): (f: TxFrame)
    ensures f.TxShort? && f.Inner() == FrameInner(FrameId(src, dst, cmd), [b])
  {
    TxShort(FrameInner(FrameId(src, dst, cmd), PackShort(b)))
  }

  function LongReply(src: Byte, dst: Byte, cmd: Byte, data: seq<Byte>): (f: TxFrame)
    requires |data| == 8
    ensures f.TxLong? && f.Inner() == FrameInner(FrameId(src, dst, cmd), data)
  {
    TxLong(FrameInner(FrameId(src, dst, cmd), data))
  }

  /** The tracking hello a unit answers a tracking broadcast with, from its address. */
  function HelloFrame(a: Address): TxFrame {
    ShortReply(a.value, MAIN_WRC, TRACKING_HELLO, 0)
  }

  /** A tracking broadcast (0xfb to 0xeb from the main WRC). */
  function OnTracking(address: Address, state: IndoorUnitState, rx: RxFrame, draw: Byte): (r: Reaction)
    ensures r.Reply? ==> r.state == state && r.frame.Inner().id.dst == MAIN_WRC
  {
    match UnpackData(rx, Long)
    case WrongClass => Stop(Exit.Panicked)
    case Payload(d) =>
      match UnpackFB(d)
      case Err(_) => Stop(Failed)
      case Ok(cmd) =>
        if cmd.state == DiscoverUnassigned && address.Assigned? then Ignore
        else if cmd.state == DiscoverAssigned && address.Temporary? then Ignore
        else
          var next := if cmd.state == DiscoverAssigned then address else Temporary(draw);
          Reply(next, state, next.value as nat * 100, HelloFrame(next))
  }

  /** An address assignment (0xfd from the main WRC to the unit's current address). */
  function OnAssign(state: IndoorUnitState, rx: RxFrame, dst: Byte): (r: Reaction)
    ensures r.Reply? ==> r.state == state && r.frame.Inner().id.dst == MAIN_WRC
  {
    match UnpackData(rx, Short)
    case WrongClass => Stop(Exit.Panicked)
    case Payload(d) =>
      var a := UnpackShort(d);
      Reply(Assigned(a), state, 0, ShortReply(dst, MAIN_WRC, TRACKING_ADDRESS_ASSIGNED, a))
  }

  /** The settings after an 0xa0 command: the command's fan speed is not applied, and the
      unit's own fan speed, defrost, outdoor-air and away flags stay as they were. */
  function ApplyA0(s: IndoorUnitState, c: CommandA0): (r: IndoorUnitState)
    ensures ModeA0Of(r.mode) == c.mode
    ensures r.cleanFilter == (s.cleanFilter != c.resetCleanFilter)
    ensures r.setpointTemp == c.setpointTemp && r.power == c.power
    ensures r.fanSpeed == s.fanSpeed && r.defrost == s.defrost
    ensures r.oaIntake == s.oaIntake && r.awayMds == s.awayMds
  {
    ModeA0ConversionsInverse(s.mode, c.mode);
    s.(setpointTemp := c.setpointTemp, sPlasmaIon := c.sPlasmaIon,
       cleanFilter := s.cleanFilter != c.resetCleanFilter, humidifier := c.humidifier,
       mode := IndoorUnitModeOfA0(c.mode), power := c.power)
  }

  /** The 0x52 response the unit builds from its settings, before the patch of bytes 5 and 6. */
  function Response52Of(s: IndoorUnitState): Command52Response {
    Command52Response(NewTemperature(s.setpointTemp, Celsius), NewTemperature(20, Celsius),
      NewTemperature(40, Celsius), 0, s.power, true, true, s.defrost, Mode52Of(s.mode),
      s.cleanFilter, NewTemperature(18, Celsius))
  }

  /** The 0x52 payload as sent: byte 5 overwritten with 0xc1 and byte 6 with 0xff. */
  function Reply52(s: IndoorUnitState): (d: seq<Byte>)
    ensures |d| == 8
  {
    Pack52(Response52Of(s))[5 := 0xc1][6 := 0xff]
  }

  function Response54Of(s: IndoorUnitState): Command54Response {
    Command54Response(s.oaIntake, s.awayMds, false, s.sPlasmaIon, false, false, false)
  }

  /** The 0x54 payload as sent: byte 0 overwritten with 0xff. */
  function Reply54(s: IndoorUnitState): (d: seq<Byte>)
    ensures |d| == 8
  {
    Pack54(Response54Of(s))[0 := 0xff]
  }

  function Reply55(): (d: seq<Byte>)
    ensures |d| == 8
  {
    Pack55(Command55Response(1, 1, Zeros(7)))
  }

  /** A read request (0x52..0x55): an empty long command, answered with `reply` under the same
      command number. */
  function OnQuery(address: Address, state: IndoorUnitState, rx: RxFrame, id: FrameId,
                   reply: seq<Byte>): (r: Reaction)
    requires |reply| == 8
    ensures r.Reply? ==>
      r.address == address && r.state == state
      && r.frame.Inner() == FrameInner(FrameId(id.dst, id.src, id.cmd), reply)
  {
    match UnpackData(rx, Long)
    case WrongClass => Stop(Exit.Panicked)
    case Payload(d) =>
      if !EmptyLongCheck(d) then Stop(Exit.Panicked)
      else Reply(address, state, 0, LongReply(id.dst, id.src, id.cmd, reply))
  }

  /** A command from a WRC to this unit. */
  function OnCommand(address: Address, state: IndoorUnitState, rx: RxFrame, id: FrameId): (r: Reaction)
    ensures r.Reply? ==> r.address == address && r.frame.Inner().id.dst == id.src
    ensures r.Reply? && id.cmd == COMMAND_52 ==> r.state == state && r.frame.Inner().data == Reply52(state)
    ensures r.Reply? && id.cmd != COMMAND_A0 ==> r.state == state
    ensures r.Reply? && id.cmd == COMMAND_A0 ==> r.state.setpointTemp < 32 && r.frame.Inner().id.cmd == 0x50
  {
    if id.cmd == COMMAND_A0 then
      match UnpackData(rx, Long)
      case WrongClass => Stop(Exit.Panicked)
      case Payload(d) =>
        match UnpackA0(d)
        case Err(_) => Stop(Failed)
        case Ok(c) =>
          if !CheckA0(c) then Stop(Exit.Panicked)
          else Reply(address, ApplyA0(state, c), 0, LongReply(id.dst, id.src, 0x50, PackA0(c)))
    else if id.cmd == COMMAND_52 then OnQuery(address, state, rx, id, Reply52(state))
    else if id.cmd == COMMAND_53 then OnQuery(address, state, rx, id, Pack53(state.humidifier))
    else if id.cmd == COMMAND_54 then OnQuery(address, state, rx, id, Reply54(state))
    else if id.cmd == COMMAND_55 then OnQuery(address, state, rx, id, Reply55())
    else Ignore
  }

  /** The reaction of the unit to one received frame. */
  function Step(address: Address, state: IndoorUnitState, rx: RxFrame, draw: Byte): (r: Reaction)
    ensures rx.Corrupted? ==> r.Ignore?
    ensures r.Reply? ==> r.frame.Inner().id.dst in {MAIN_WRC, SUB_WRC}
    ensures r.Reply? && Id(rx).value.cmd != COMMAND_A0 ==> r.state == state
  {
    match Id(rx)
    case None => Ignore
    case Some(id) =>
      if id.src == MAIN_WRC && id.dst == TRACKING_BROADCAST && id.cmd == TRACKING_FB then
        OnTracking(address, state, rx, draw)
      else if id.src == MAIN_WRC && id.cmd == TRACKING_ASSIGN_ADDRESS && id.dst == address.value then
        OnAssign(state, rx, id.dst)
      else if (id.src == MAIN_WRC || id.src == SUB_WRC) && IsIuRxFrame(address, id.dst) then
        OnCommand(address, state, rx, id)
      else Ignore
  }

  /** A frame sent, after waiting `delayMs` milliseconds. */
  datatype Sent = Sent(delayMs: nat, frame: TxFrame)

  /** The frames the unit sends for a stream of received frames, and how it ends. */
  function Run(address: Address, state: IndoorUnitState, frames: seq<RxFrame>, draws: seq<Byte>)
    : (r: (seq<Sent>, Exit))
    requires |draws| == |frames|
    ensures |r.0| <= |frames|
    decreases |frames|
  {
    if frames == [] then ([], Finished)
    else
      match Step(address, state, frames[0], draws[0])
      case Ignore => Run(address, state, frames[1..], draws[1..])
      case Stop(e) => ([], e)
      case Reply(a, s, delay, f) =>
        var (rest, e) := Run(a, s, frames[1..], draws[1..]);
        ([Sent(delay, f)] + rest, e)
  }

  /** `indoor_unit_emulator`: the receive loop, starting from the temporary address `initial`. */
  method Emulate(initial: Byte, frames: seq<RxFrame>, draws: seq<Byte>)
    returns (sent: seq<Sent>, exit: Exit)
    requires |draws| == |frames|
    ensures (sent, exit) == Run(Temporary(initial), InitialState(), frames, draws)
  {
    var address := Temporary(initial);
    var state := InitialState();
    sent := [];
    var i := 0;
    assert frames[0..] == frames && draws[0..] == draws;
    while i < |frames|
      invariant 0 <= i <= |frames|
      invariant Run(Temporary(initial), InitialState(), frames, draws).0
        == sent + Run(address, state, frames[i..], draws[i..]).0
      invariant Run(Temporary(initial), InitialState(), frames, draws).1
        == Run(address, state, frames[i..], draws[i..]).1
      decreases |frames| - i
    {
      assert frames[i..][0] == frames[i] && draws[i..][0] == draws[i];
      assert frames[i..][1..] == frames[i + 1..] && draws[i..][1..] == draws[i + 1..];
      var r := Step(address, state, frames[i], draws[i]);
      match r {
        case Ignore =>
        case Stop(e) =>
          assert sent + [] == sent;
          return sent, e;
        case Reply(a, s, delay, f) =>
          address := a;
          state := s;
          sent := sent + [Sent(delay, f)];
      }
      i := i + 1;
    }
    assert frames[i..] == [] && sent + [] == sent;
    return sent, Finished;
  }

  // ---------------------------------------------------------------------------------------
  // Tracking

  function TrackingFrame(d: seq<Byte>): RxFrame
    requires |d| == 8
  {
    RxLong(FrameInner(FrameId(MAIN_WRC, TRACKING_BROADCAST, TRACKING_FB), d))
  }

  /** A tracking broadcast is answered exactly when it starts tracking, or it asks for the
      unassigned units and the unit is unassigned, or for the assigned ones and it is assigned.
      The answer is a hello from the new address after 100 ms per unit of that address: a newly drawn
      temporary address unless the unit was asked as an assigned unit, when it keeps its own. */
  lemma TrackingRule(address: Address, state: IndoorUnitState, d: seq<Byte>, draw: Byte)
    requires |d| == 8 && UnpackFB(d).Ok?
    ensures var r := Step(address, state, TrackingFrame(d), draw);
      var st := UnpackFB(d).value.state;
      && (r.Reply? <==> st == TrackingStart || (st == DiscoverUnassigned && address.Temporary?)
                        || (st == DiscoverAssigned && address.Assigned?))
      && (!r.Reply? ==> r.Ignore?)
      && (r.Reply? ==>
           && r.address == (if st == DiscoverAssigned then address else Temporary(draw))
           && r.state == state
           && r.delayMs == r.address.value as nat * 100
           && r.frame.TxShort?
           && r.frame.Inner() == FrameInner(FrameId(r.address.value, MAIN_WRC, TRACKING_HELLO), [0]))
  {
  }

  /** A tracking broadcast whose state bits hold 3 ends the emulator with an error; one that
      arrives as a short frame makes it panic. */
  lemma TrackingErrors(address: Address, state: IndoorUnitState, d: seq<Byte>, b: Byte, draw: Byte)
    requires |d| == 8
    ensures d[0] & 0x03 == 3 ==> Step(address, state, TrackingFrame(d), draw) == Stop(Failed)
    ensures var short := RxShort(FrameInner(FrameId(MAIN_WRC, TRACKING_BROADCAST, TRACKING_FB), [b]));
      Step(address, state, short, draw) == Stop(Exit.Panicked)
  {
  }

  /** An assignment sent to the unit's current address, temporary or assigned, makes the
      payload its assigned address and is confirmed from the address it was sent to. */
  lemma AssignRule(address: Address, state: IndoorUnitState, a: Byte, draw: Byte)
    ensures var rx := RxShort(FrameInner(FrameId(MAIN_WRC, address.value, TRACKING_ASSIGN_ADDRESS), [a]));
      Step(address, state, rx, draw)
        == Reply(Assigned(a), state, 0,
                 ShortReply(address.value, MAIN_WRC, TRACKING_ADDRESS_ASSIGNED, a))
  {
    var rx := RxShort(FrameInner(FrameId(MAIN_WRC, address.value, TRACKING_ASSIGN_ADDRESS), [a]));
    assert address.value != TRACKING_BROADCAST || TRACKING_ASSIGN_ADDRESS != TRACKING_FB;
    assert UnpackData(rx, Short) == Payload([a]);
  }

  // ---------------------------------------------------------------------------------------
  // Addressing

  /** A unit with a temporary address reacts to nothing but tracking broadcasts and
      assignments to that address; an assigned unit reacts to other frames only from a WRC to
      0x20 + its address + 10. Corrupted frames are always ignored. */
  lemma OnlyAddressedFramesHandled(address: Address, state: IndoorUnitState, rx: RxFrame, draw: Byte)
    ensures rx.Corrupted? ==> Step(address, state, rx, draw).Ignore?
    ensures !Step(address, state, rx, draw).Ignore? ==> var id := Id(rx).value;
      || (id.src == MAIN_WRC && id.dst == TRACKING_BROADCAST && id.cmd == TRACKING_FB)
      || (id.src == MAIN_WRC && id.cmd == TRACKING_ASSIGN_ADDRESS && id.dst == address.value)
      || (address.Assigned? && (id.src == MAIN_WRC || id.src == SUB_WRC)
          && id.dst == INDOOR_UNIT_FIRST + address.value + 10)
  {
  }

  /** Commands other than 0xa0 and 0x52..0x55 are ignored, even when addressed to the unit. */
  lemma UnknownCommandsIgnored(address: Address, state: IndoorUnitState, rx: RxFrame, draw: Byte)
    requires Id(rx).Some? && IsIuRxFrame(address, Id(rx).value.dst)
    requires Id(rx).value.cmd !in {COMMAND_A0, COMMAND_52, COMMAND_53, COMMAND_54, COMMAND_55}
    requires Id(rx).value.cmd != TRACKING_ASSIGN_ADDRESS && Id(rx).value.cmd != TRACKING_FB
    ensures Step(address, state, rx, draw) == Ignore
  {
  }

  // ---------------------------------------------------------------------------------------
  // Commands

  function CommandFrame(src: Byte, dst: Byte, cmd: Byte, d: seq<Byte>): RxFrame
    requires |d| == 8
  {
    RxLong(FrameInner(FrameId(src, dst, cmd), d))
  }

  predicate Addressed(address: Address, src: Byte, dst: Byte) {
    (src == MAIN_WRC || src == SUB_WRC) && IsIuRxFrame(address, dst)
  }

  /** An 0xa0 command sets the setpoint, s-plasma ion, humidifier, mode and power, toggles the
      clean-filter flag when asked to reset it, and leaves the fan speed, defrost, outdoor air
      and away flags alone. The reply is command 0x50 back to the sender with the payload
      repacked, i.e. with its undeclared bits cleared. */
  lemma A0Rule(address: Address, state: IndoorUnitState, src: Byte, dst: Byte, d: seq<Byte>, draw: Byte)
    requires |d| == 8 && Addressed(address, src, dst)
    requires UnpackA0(d).Ok? && CheckA0(UnpackA0(d).value)
    ensures var r := Step(address, state, CommandFrame(src, dst, COMMAND_A0, d), draw);
      var s := r.state;
      && r.Reply? && r.address == address && r.delayMs == 0
      && r.frame == LongReply(dst, src, 0x50, A0DeclaredBits(d))
      && s.setpointTemp == d[2] & 0x1f
      && s.power == HasFlag(d[4], 0x20)
      && s.sPlasmaIon == HasFlag(d[3], 0x40)
      && s.humidifier == HasFlag(d[3], 0x10)
      && s.cleanFilter == (state.cleanFilter != HasFlag(d[3], 0x20))
      && ModeA0Of(s.mode) == UnpackA0(d).value.mode
      && s.fanSpeed == state.fanSpeed && s.defrost == state.defrost
      && s.oaIntake == state.oaIntake && s.awayMds == state.awayMds
  {
    A0Repack(d);
    var m := UnpackA0(d).value.mode;
    ModeA0ConversionsInverse(IndoorUnitModeOfA0(m), m);
    assert dst != TRACKING_BROADCAST || src != MAIN_WRC || COMMAND_A0 != TRACKING_FB;
  }

  /** An 0xa0 command whose mode bits hold 5..7 ends the emulator with an error, and one whose
      bit 35 differs from its power bit makes it panic. */
  lemma A0Errors(address: Address, state: IndoorUnitState, src: Byte, dst: Byte, d: seq<Byte>, draw: Byte)
    requires |d| == 8 && Addressed(address, src, dst)
    ensures var r := Step(address, state, CommandFrame(src, dst, COMMAND_A0, d), draw);
      && (d[3] & 0x07 > 4 ==> r == Stop(Failed))
      && (d[3] & 0x07 <= 4 && HasFlag(d[4], 0x20) != HasFlag(d[4], 0x10) ==> r == Stop(Exit.Panicked))
  {
  }

  /** A read request must carry eight zero bytes: anything else makes the emulator panic. */
  lemma QueryNeedsEmptyPayload(address: Address, state: IndoorUnitState, src: Byte, dst: Byte,
                               cmd: Byte, d: seq<Byte>, draw: Byte)
    requires |d| == 8 && Addressed(address, src, dst)
    requires cmd in {COMMAND_52, COMMAND_53, COMMAND_54, COMMAND_55}
    ensures var r := Step(address, state, CommandFrame(src, dst, cmd, d), draw);
      && (d != Zeros(8) <==> r == Stop(Exit.Panicked))
      && (d == Zeros(8) ==>
            r.Reply? && r.address == address && r.state == state
            && r.frame.TxLong? && r.frame.Inner().id == FrameId(dst, src, cmd))
  {
    AllZeroIsZeros(d);
  }

  /** The 0x52 reply decodes to the response built from the settings, except that the patch
      of byte 5 always clears the clean-filter bit; the setpoint reads back as the unit's own
      while it is at most 72. */
  lemma Reply52Decodes(s: IndoorUnitState)
    requires s.setpointTemp <= 72
    ensures Unpack52(Reply52(s)) == Ok(Response52Of(s).(cleanFilter := false))
    ensures TemperatureCelsius(Unpack52(Reply52(s)).value.setpointTemp) == s.setpointTemp
    ensures Reply52(s)[5] == 0xc1 && Reply52(s)[6] == 0xff
  {
    var r := Response52Of(s);
    TemperatureWireRoundTrip(s.setpointTemp);
    Response52PackedTemperatures(r);
    Response52PackedByte3(r);
    Response52PackedByte4(r);
  }

  /** The 0x53 reply carries the humidifier flag in bit 59, and no other bit is set. */
  lemma Reply53Decodes(s: IndoorUnitState)
    ensures BitAt(Pack53(s.humidifier), 59) == s.humidifier
    ensures forall k :: 0 <= k < 64 && k != 59 ==> !BitAt(Pack53(s.humidifier), k)
    ensures s.humidifier ==> Pack53(s.humidifier) == Zeros(7) + [0x10]
    ensures !s.humidifier ==> Pack53(s.humidifier) == Zeros(8)
  {
    var d := Pack53(s.humidifier);
    assert d == d[..7] + [d[7]];
  }

  /** The 0x54 reply starts with 0xff and decodes to the outdoor air, away and s-plasma ion
      flags with every other flag clear. */
  lemma Reply54Decodes(s: IndoorUnitState)
    ensures Reply54(s)[0] == 0xff
    ensures Unpack54(Reply54(s)) == Response54Of(s)
    ensures Reply54(s)[1..] == Pack54(Response54Of(s))[1..]
  {
    Response54RoundTrip(Response54Of(s));
  }

  /** The 0x55 reply reports a humidity of 1 and a CO2 level of 1. */
  lemma Reply55Decodes()
    ensures Unpack55(Reply55()) == Command55Response(1, 1, Zeros(7))
  {
    Response55RoundTrip(Command55Response(1, 1, Zeros(7)));
  }

  // ---------------------------------------------------------------------------------------
  // Properties of a whole run

  /** Every frame the unit sends goes to a WRC: the hello and the assignment confirmation to
      the main WRC, a command reply to the WRC that sent the command. */
  lemma {:induction false} RunRepliesToWrcs(address: Address, state: IndoorUnitState,
                                            frames: seq<RxFrame>, draws: seq<Byte>)
    requires |draws| == |frames|
    ensures forall k :: 0 <= k < |Run(address, state, frames, draws).0| ==>
      Run(address, state, frames, draws).0[k].frame.Inner().id.dst in {MAIN_WRC, SUB_WRC}
    decreases |frames|
  {
    if frames != [] {
      RunRepliesToWrcs(address, state, frames[1..], draws[1..]);
      var r := Step(address, state, frames[0], draws[0]);
      if r.Reply? {
        StepRepliesToWrc(address, state, frames[0], draws[0]);
        RunRepliesToWrcs(r.address, r.state, frames[1..], draws[1..]);
      }
    }
  }

  lemma StepRepliesToWrc(address: Address, state: IndoorUnitState, rx: RxFrame, draw: Byte)
    requires Step(address, state, rx, draw).Reply?
    ensures Step(address, state, rx, draw).frame.Inner().id.dst in {MAIN_WRC, SUB_WRC}
  {
  }

  /** The setpoint the unit keeps is below 32: it starts at 23 and an 0xa0 command writes
      five bits. */
  lemma StepKeepsSetpointBelow32(address: Address, state: IndoorUnitState, rx: RxFrame, draw: Byte)
    requires state.setpointTemp < 32
    ensures Step(address, state, rx, draw).Reply? ==> Step(address, state, rx, draw).state.setpointTemp < 32
  {
    var r := Step(address, state, rx, draw);
    if r.Reply? && r.state.setpointTemp != state.setpointTemp {
      var d := rx.long.data;
      assert r.state.setpointTemp == d[2] & 0x1f;
    }
  }

  predicate Reports52Faithfully(f: TxFrame) {
    f.Inner().id.cmd == COMMAND_52 && |f.Inner().data| == 8 ==>
      Unpack52(f.Inner().data).Ok?
      && TemperatureCelsius(Unpack52(f.Inner().data).value.setpointTemp) < 32
      && !Unpack52(f.Inner().data).value.cleanFilter
  }

  /** Along a whole run, every 0x52 reply decodes, reports a setpoint below 32 and reports
      the clean-filter flag clear, whatever the unit's own flag says. */
  lemma {:induction false} Run52Replies(address: Address, state: IndoorUnitState,
                                        frames: seq<RxFrame>, draws: seq<Byte>)
    requires |draws| == |frames| && state.setpointTemp < 32
    ensures forall k :: 0 <= k < |Run(address, state, frames, draws).0| ==>
      Reports52Faithfully(Run(address, state, frames, draws).0[k].frame)
    decreases |frames|
  {
    if frames != [] {
      var r := Step(address, state, frames[0], draws[0]);
      if r.Ignore? {
        Run52Replies(address, state, frames[1..], draws[1..]);
      } else if r.Reply? {
        StepKeepsSetpointBelow32(address, state, frames[0], draws[0]);
        Run52Replies(r.address, r.state, frames[1..], draws[1..]);
        Step52Reply(address, state, frames[0], draws[0]);
      }
    }
  }

  lemma Step52Reply(address: Address, state: IndoorUnitState, rx: RxFrame, draw: Byte)
    requires state.setpointTemp < 32 && Step(address, state, rx, draw).Reply?
    ensures Reports52Faithfully(Step(address, state, rx, draw).frame)
  {
    var r := Step(address, state, rx, draw);
    if r.frame.Inner().id.cmd == COMMAND_52 {
      Reply52Decodes(state);
    }
  }
}
