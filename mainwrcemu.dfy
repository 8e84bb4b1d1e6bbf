/**
 * The main-WRC emulator: the schedule of frames an emulated main wall controller puts on the
 * bus, each followed by a fixed pause.
 *
 * It runs three phases in turn. Tracking asks the assigned units to report and assigns
 * addresses 0, 1 and 2. Enumeration makes two passes, polling every indoor-unit and ERV address
 * with 0x52 and then 0x54, each pass followed by the sub-WRC and bus-status handshake.
 * NormalOperation then cycles forever over four polls of the configured units, each followed
 * by two sub-WRC pings and an end-of-phase broadcast. The emulator never listens: its output
 * depends on nothing it receives.
 */
module MainWrcEmulator {
  import opened Bytes
  import opened Wrappers
  import opened Addresses
  import opened Commands
  import opened Codec

  datatype Phase = Tracking | Enumeration | NormalOperation

  /** A frame sent, then the pause before the next one. */
  datatype Emitted = Emitted(frame: TxFrame, pauseMs: nat)

  const POLL_PAUSE_MS: nat := 180
  const DISCOVER_PAUSE_MS: nat := 8000
  const TRACKING_END_PAUSE_MS: nat := 600
  const SUB_PING_PAUSE_MS: nat := 900
  const END_OF_PHASE_PAUSE_MS: nat := 300

  /** Command 0xf9, sent as a short frame with no layout of its own. */
  const TRACKING_END: Byte := 0xf9

  /** The number of addresses in each unit range. */
  const RANGE_SIZE: nat := 32

  /** `iu_addresses`: the units polled in normal operation. */
  const IU_ADDRESSES: seq<Byte> := [0x20]

  function Long(dst: Byte, cmd: Byte, data: seq<Byte>, pauseMs: nat): (e: Emitted)
    requires |data| == 8
    ensures e.frame.TxLong? && e.frame.Inner() == FrameInner(FrameId(MAIN_WRC, dst, cmd), data)
  {
    Emitted(TxLong(FrameInner(FrameId(MAIN_WRC, dst, cmd), data)), pauseMs)
  }

  function Short(dst: Byte, cmd: Byte, b: Byte, pauseMs: nat): (e: Emitted)
    ensures e.frame.TxShort? && e.frame.Inner() == FrameInner(FrameId(MAIN_WRC, dst, cmd), [b])
  {
    Emitted(TxShort(FrameInner(FrameId(MAIN_WRC, dst, cmd), PackShort(b))), pauseMs)
  }

  /** The `count` addresses from `first` upwards, with `u8` wrap-around. */
  function Span(first: Byte, count: nat): (s: seq<Byte>)
    ensures |s| == count
    ensures count > 0 ==> s[0] == first
    decreases count
  {
    if count == 0 then [] else [first] + Span(first + 1, count - 1)
  }

  /** A poll: an empty long request `cmd` (0x52, 0x54 or 0x55) to `dst`. */
  function Poll(cmd: Byte, dst: Byte): Emitted {
    Long(dst, cmd, [0, 0, 0, 0, 0, 0, 0, 0], POLL_PAUSE_MS)
  }

  function Polls(cmd: Byte, dsts: seq<Byte>): (s: seq<Emitted>)
    ensures |s| == |dsts|
    decreases |dsts|
  {
    if dsts == [] then [] else [Poll(cmd, dsts[0])] + Polls(cmd, dsts[1..])
  }

  // ---------------------------------------------------------------------------------------
  // The frames of each phase

  function DiscoverAssignedFrame(): Emitted {
    Long(TRACKING_BROADCAST, TRACKING_FB, [0, 0, 0, 0, 0, 0, 0, 0], DISCOVER_PAUSE_MS)
  }

  function AssignFrame(i: Byte): Emitted {
    Short(i, TRACKING_ASSIGN_ADDRESS, i, POLL_PAUSE_MS)
  }

  function TrackingEndFrame(): Emitted {
    Short(TRACKING_BROADCAST, TRACKING_END, 0x00, TRACKING_END_PAUSE_MS)
  }

  function TrackingFrames(): seq<Emitted> {
    [DiscoverAssignedFrame(), AssignFrame(0), AssignFrame(1), AssignFrame(2), TrackingEndFrame()]
  }

  /** The 0xc4 ping as the emulator evidently means it: byte 0, the number of units, five
      bytes written as one array, and byte 7. */
  function C4Payload(b0: Byte, units: Byte, middle: seq<Byte>, b7: Byte): (d: seq<Byte>)
    requires |middle| == 5
    ensures |d| == 8
  {
    [b0, units] + middle + [b7]
  }

  /** The 0xc5 ping: 0x22, then `b1`, then six zero bytes. */
  function C5Payload(b1: Byte): (d: seq<Byte>)
    ensures |d| == 8
  {
    [0x22, b1, 0, 0, 0, 0, 0, 0]
  }

  /** The 0xc6 bus-status broadcast: 0x22, one indoor unit, then 0x20 and 0xb0. */
  function C6Payload(): (d: seq<Byte>)
    ensures |d| == 8
  {
    [0x22, 1, 0x20, 0xb0, 0, 0, 0, 0]
  }

  /** The handshake after each enumeration pass: 0xc5 and 0xc4 to the sub WRC, then 0xc6 and
      0xc4 as the enumeration broadcast. */
  function Handshake(): seq<Emitted> {
    [Long(SUB_WRC, COMMAND_C5, C5Payload(0x00), POLL_PAUSE_MS),
     Long(SUB_WRC, COMMAND_C4, C4Payload(0x00, 1, [0, 0, 0, 0, 0], 0x44), POLL_PAUSE_MS),
     Long(ENUMERATION_BROADCAST, COMMAND_C6, C6Payload(),
       POLL_PAUSE_MS),
     Long(ENUMERATION_BROADCAST, COMMAND_C4, C4Payload(0x00, 1, [0, 0, 0, 0, 0], 0x44), POLL_PAUSE_MS)]
  }

  function IndoorUnitAddresses(): seq<Byte> {
    Span(INDOOR_UNIT_FIRST, RANGE_SIZE)
  }

  function ErvAddresses(): seq<Byte> {
    Span(ERV_FIRST, RANGE_SIZE)
  }

  function EnumerationPass(cmd: Byte): seq<Emitted> {
    Polls(cmd, IndoorUnitAddresses()) + Polls(cmd, ErvAddresses()) + Handshake()
  }

  function EnumerationFrames(): seq<Emitted> {
    EnumerationPass(COMMAND_52) + EnumerationPass(COMMAND_54)
  }

  /** `Commands::iter()`: Info1 to Info4 poll with 0x52, 0x52, 0x54 and 0x55. */
  const INFO_COMMANDS: seq<Byte> := [COMMAND_52, COMMAND_52, COMMAND_54, COMMAND_55]

  function EndOfPhaseFrame(): Emitted {
    Long(BROADCAST, COMMAND_D1, [0x01, 0, 0, 0, 0, 0, 0, 0], END_OF_PHASE_PAUSE_MS)
  }

  /** The frames after polling one kind: the two sub-WRC pings and the end-of-phase broadcast. */
  function AfterKind(): seq<Emitted> {
    [Long(SUB_WRC, COMMAND_C4, C4Payload(0x01, 1, [0x10, 0xb6, 0x20, 0, 0], 0x44), SUB_PING_PAUSE_MS),
     Long(SUB_WRC, COMMAND_C5, C5Payload(0x80), SUB_PING_PAUSE_MS),
     EndOfPhaseFrame()]
  }

  function KindFrames(cmd: Byte): seq<Emitted> {
    Polls(cmd, IU_ADDRESSES) + AfterKind()
  }

  /** The first `n` kinds of a normal-operation cycle. */
  function CycleFrames(n: nat): seq<Emitted>
    requires n <= 4
  {
    if n == 0 then [] else CycleFrames(n - 1) + KindFrames(INFO_COMMANDS[n - 1])
  }

  function NormalCycles(n: nat): seq<Emitted> {
    if n == 0 then [] else NormalCycles(n - 1) + CycleFrames(4)
  }

  /** Everything sent up to `cycles` complete rounds of normal operation. */
  function Schedule(cycles: nat): (s: seq<Emitted>)
    ensures |s| == 5 + 136 + 16 * cycles
    ensures s[141..] == NormalCycles(cycles)
  {
    EnumerationShape();
    NormalCyclesLength(cycles);
    TrackingFrames() + EnumerationFrames() + NormalCycles(cycles)
  }

  // ---------------------------------------------------------------------------------------
  // The emulator

  /** `main_wrc_emulator`, run until `cycles` rounds of normal operation are complete (the
      source's loop never ends). `sent` is what goes to the port, in order. Tracking and
      Enumeration each run once and hand over to the next phase; NormalOperation repeats. */
  method Emulate(cycles: nat) returns (sent: seq<Emitted>)
    ensures sent == Schedule(cycles)
  {
    var state := Tracking;
    sent := [];
    var done := 0;
    while state != NormalOperation || done < cycles
      invariant done <= cycles && (state != NormalOperation ==> done == 0)
      invariant sent == SentBefore(state, done)
      decreases PhaseRank(state), cycles - done
    {
      match state {
        case Tracking =>
          sent := SendTracking();
          state := Enumeration;
        case Enumeration =>
          var enumeration := SendEnumeration();
          EnterNormalOperation();
          sent := sent + enumeration;
          state := NormalOperation;
        case NormalOperation =>
          var frames := SendCycle();
          OneMoreCycle(done);
          sent := sent + frames;
          done := done + 1;
      }
    }
    SentBeforeIsSchedule(cycles);
  }

  lemma EnterNormalOperation()
    ensures SentBefore(Enumeration, 0) + EnumerationFrames() == SentBefore(NormalOperation, 0)
  {
  }

  lemma OneMoreCycle(done: nat)
    ensures SentBefore(NormalOperation, done) + CycleFrames(4) == SentBefore(NormalOperation, done + 1)
  {
  }

  lemma SentBeforeIsSchedule(cycles: nat)
    ensures SentBefore(NormalOperation, cycles) == Schedule(cycles)
  {
  }

  /** What the emulator has sent when it enters `state`, or, in normal operation, after
      `done` complete cycles. */
  function SentBefore(state: Phase, done: nat): seq<Emitted> {
    match state
    case Tracking => []
    case Enumeration => TrackingFrames()
    case NormalOperation => TrackingFrames() + EnumerationFrames() + NormalCycles(done)
  }

  /** How many phases are still to be entered. */
  function PhaseRank(state: Phase): nat {
    match state
    case Tracking => 2
    case Enumeration => 1
    case NormalOperation => 0
  }

  /** The tracking phase. */
  method SendTracking() returns (sent: seq<Emitted>)
    ensures sent == TrackingFrames()
  {
    sent := [DiscoverAssignedFrame()];
    var i: Byte := 0;
    while i < 3
      invariant i <= 3
      invariant sent == [DiscoverAssignedFrame()] + AssignFrames(i)
    {
      sent := sent + [AssignFrame(i)];
      i := i + 1;
    }
    sent := sent + [TrackingEndFrame()];
  }

  function AssignFrames(n: Byte): seq<Emitted>
    requires n <= 3
    decreases n as int
  {
    if n == 0 then [] else AssignFrames(n - 1) + [AssignFrame(n - 1)]
  }

  /** One poll of `cmd` to each of the `count` addresses from `first` upwards. */
  method SendPolls(cmd: Byte, first: Byte, count: nat) returns (sent: seq<Emitted>)
    ensures sent == Polls(cmd, Span(first, count))
  {
    sent := [];
    var addr := first;
    for n := 0 to count
      invariant sent + Polls(cmd, Span(addr, count - n)) == Polls(cmd, Span(first, count))
    {
      PollsStep(cmd, addr, count - n);
      ghost var rest := Polls(cmd, Span(addr + 1, count - n - 1));
      assert sent + ([Poll(cmd, addr)] + rest) == (sent + [Poll(cmd, addr)]) + rest;
      sent := sent + [Poll(cmd, addr)];
      addr := addr + 1;
    }
    assert sent + [] == sent;
  }

  lemma PollsStep(cmd: Byte, addr: Byte, count: nat)
    requires count > 0
    ensures Polls(cmd, Span(addr, count)) == [Poll(cmd, addr)] + Polls(cmd, Span(addr + 1, count - 1))
  {
    assert Span(addr, count)[1..] == Span(addr + 1, count - 1);
  }

  /** The enumeration phase: a pass with 0x52, then a pass with 0x54. */
  method SendEnumeration() returns (sent: seq<Emitted>)
    ensures sent == EnumerationFrames()
  {
    sent := [];
    var cmds := [COMMAND_52, COMMAND_54];
    for c := 0 to 2
      invariant sent == PassesUpTo(c)
    {
      var pass := SendPass(cmds[c]);
      sent := sent + pass;
    }
    BothPasses();
  }

  /** One enumeration pass: every indoor-unit address, every ERV address, the handshake. */
  method SendPass(cmd: Byte) returns (sent: seq<Emitted>)
    ensures sent == EnumerationPass(cmd)
  {
    sent := SendPolls(cmd, INDOOR_UNIT_FIRST, RANGE_SIZE);
    var ervs := SendPolls(cmd, ERV_FIRST, RANGE_SIZE);
    sent := sent + ervs + Handshake();
  }

  lemma BothPasses()
    ensures PassesUpTo(2) == EnumerationFrames()
  {
    assert PassesUpTo(1) == EnumerationPass(COMMAND_52) by {
      assert [] + EnumerationPass(COMMAND_52) == EnumerationPass(COMMAND_52);
    }
  }

  function PassesUpTo(n: nat): seq<Emitted>
    requires n <= 2
  {
    if n == 0 then [] else PassesUpTo(n - 1) + EnumerationPass([COMMAND_52, COMMAND_54][n - 1])
  }

  /** One round of normal operation. */
  method SendCycle() returns (sent: seq<Emitted>)
    ensures sent == CycleFrames(4)
  {
    sent := [];
    for k := 0 to 4
      invariant sent == CycleFrames(k)
    {
      var cmd := INFO_COMMANDS[k];
      var kindStart := sent;
      for j := 0 to |IU_ADDRESSES|
        invariant sent == kindStart + Polls(cmd, IU_ADDRESSES[..j])
      {
        assert IU_ADDRESSES[..j + 1] == IU_ADDRESSES[..j] + [IU_ADDRESSES[j]];
        sent := sent + [Poll(cmd, IU_ADDRESSES[j])];
      }
      assert IU_ADDRESSES[..|IU_ADDRESSES|] == IU_ADDRESSES;
      sent := sent + AfterKind();
    }
  }

  // ---------------------------------------------------------------------------------------
  // Properties of the schedule

  /** The emulator starts with the tracking phase, then enumeration, then normal operation. */
  lemma SchedulePhases(cycles: nat)
    ensures |Schedule(cycles)| == 5 + 136 + 16 * cycles
    ensures Schedule(cycles)[..5] == TrackingFrames()
    ensures Schedule(cycles)[5..141] == EnumerationFrames()
    ensures Schedule(cycles)[141..] == NormalCycles(cycles)
  {
    NormalCyclesLength(cycles);
    var t, en, nc := TrackingFrames(), EnumerationFrames(), NormalCycles(cycles);
    assert |en| == 136 by { PassLength(COMMAND_52); PassLength(COMMAND_54); }
    assert (t + en + nc)[..5] == t;
    assert (t + en + nc)[5..141] == en;
    assert (t + en + nc)[141..] == nc;
  }

  /** The first frame is the long tracking broadcast 0xfb asking the assigned units to
      report; its payload is the packed `TrackingCommandFB` with state DiscoverAssigned. */
  lemma DiscoverAssignedShape()
    ensures var e := DiscoverAssignedFrame();
      && e.frame.TxLong?
      && e.frame.Inner().id == FrameId(MAIN_WRC, TRACKING_BROADCAST, TRACKING_FB)
      && e.frame.Inner().data == PackFB(TrackingCommandFB(DiscoverAssigned, Zeros(7)))
      && UnpackFB(e.frame.Inner().data) == Ok(TrackingCommandFB(DiscoverAssigned, Zeros(7)))
      && e.pauseMs == 8000
  {
    var d: seq<Byte> := [0, 0, 0, 0, 0, 0, 0, 0];
    assert d == [0] + Zeros(7);
    assert d[1..] == Zeros(7);
  }

  /** Tracking sends the DiscoverAssigned broadcast, assigns address i to destination i for
      i = 0, 1, 2, then sends the short 0xf9 [0x00] to the tracking broadcast address. */
  lemma TrackingShape()
    ensures |TrackingFrames()| == 5
    ensures TrackingFrames()[0] == DiscoverAssignedFrame()
    ensures forall i: Byte :: i < 3 ==> TrackingFrames()[i as int + 1] == AssignFrame(i)
    ensures forall i: Byte :: i < 3 ==>
      AssignFrame(i).frame.TxShort? && AssignFrame(i).pauseMs == 180
      && AssignFrame(i).frame.Inner() == FrameInner(FrameId(MAIN_WRC, i, TRACKING_ASSIGN_ADDRESS), [i])
    ensures TrackingFrames()[4].frame.Inner() == FrameInner(FrameId(MAIN_WRC, TRACKING_BROADCAST, 0xf9), [0])
    ensures TrackingFrames()[4].pauseMs == 600
  {
    forall i: Byte | i < 3
      ensures TrackingFrames()[i as int + 1] == AssignFrame(i)
    {
      if i == 0 { } else if i == 1 { } else { }
    }
  }

  /** `Span` lists consecutive addresses, and an address is among the `count` from `first`
      exactly when its distance from `first`, with wrap-around, is below `count`. */
  lemma {:induction false} SpanMembers(first: Byte, count: nat, a: Byte)
    requires count <= 256
    ensures a in Span(first, count) <==> (a - first) as int < count
    decreases count
  {
    if count > 0 {
      SpanMembers(first + 1, count - 1, a);
      assert Span(first, count) == [first] + Span(first + 1, count - 1);
      if a != first {
        DistanceStep(first, a);
      }
    }
  }

  lemma DistanceStep(first: Byte, a: Byte)
    requires a != first
    ensures (a - first) as int == (a - (first + 1)) as int + 1
  {
  }

  lemma {:induction false} SpanAscending(first: Byte, count: nat)
    ensures forall k :: 0 < k < count ==> Span(first, count)[k] == Span(first, count)[k - 1] + 1
    decreases count
  {
    if count > 1 {
      SpanAscending(first + 1, count - 1);
      var s := Span(first, count);
      assert s == [first] + Span(first + 1, count - 1);
      forall k | 0 < k < count
        ensures s[k] == s[k - 1] + 1
      {
        if k > 1 {
          assert s[k] == Span(first + 1, count - 1)[k - 1];
          assert s[k - 1] == Span(first + 1, count - 1)[k - 2];
        }
      }
    }
  }

  /** Each enumeration pass polls exactly the indoor-unit addresses, ascending from 0x20, and
      then exactly the ERV addresses, ascending from 0x50. */
  lemma PassAddresses(a: Byte)
    ensures a in IndoorUnitAddresses() <==> IsIndoorUnit(a)
    ensures a in ErvAddresses() <==> IsErv(a)
    ensures IndoorUnitAddresses()[0] == INDOOR_UNIT_FIRST && ErvAddresses()[0] == ERV_FIRST
    ensures forall k :: 0 < k < 32 ==> IndoorUnitAddresses()[k] == IndoorUnitAddresses()[k - 1] + 1
    ensures forall k :: 0 < k < 32 ==> ErvAddresses()[k] == ErvAddresses()[k - 1] + 1
  {
    SpanMembers(INDOOR_UNIT_FIRST, RANGE_SIZE, a);
    SpanMembers(ERV_FIRST, RANGE_SIZE, a);
    RangesSpan32(a);
    SpanAscending(INDOOR_UNIT_FIRST, RANGE_SIZE);
    SpanAscending(ERV_FIRST, RANGE_SIZE);
  }

  lemma {:induction false} PollsAt(cmd: Byte, dsts: seq<Byte>, k: nat)
    requires k < |dsts|
    ensures Polls(cmd, dsts)[k] == Poll(cmd, dsts[k])
    decreases k
  {
    if k > 0 {
      PollsAt(cmd, dsts[1..], k - 1);
    }
  }

  lemma PassLength(cmd: Byte)
    ensures |EnumerationPass(cmd)| == 68
  {
  }

  /** A pass is 32 indoor-unit polls, 32 ERV polls and the four-frame handshake. */
  lemma PassShape(cmd: Byte, k: nat)
    ensures |EnumerationPass(cmd)| == 68
    ensures k < 32 ==> EnumerationPass(cmd)[k] == Poll(cmd, IndoorUnitAddresses()[k])
    ensures 32 <= k < 64 ==> EnumerationPass(cmd)[k] == Poll(cmd, ErvAddresses()[k - 32])
    ensures EnumerationPass(cmd)[64..] == Handshake()
  {
    var iu, erv := Polls(cmd, IndoorUnitAddresses()), Polls(cmd, ErvAddresses());
    assert EnumerationPass(cmd) == iu + erv + Handshake();
    if k < 32 {
      PollsAt(cmd, IndoorUnitAddresses(), k);
      assert (iu + erv + Handshake())[k] == iu[k];
    } else if k < 64 {
      PollsAt(cmd, ErvAddresses(), k - 32);
      assert (iu + erv + Handshake())[k] == erv[k - 32];
    }
    assert (iu + erv + Handshake())[64..] == Handshake();
  }

  /** The enumeration is the pass with 0x52 and then the pass with 0x54, so the handshake is
      sent twice, at frames 64..68 and 132..136. */
  lemma EnumerationShape()
    ensures |EnumerationFrames()| == 136
    ensures EnumerationFrames()[..68] == EnumerationPass(COMMAND_52)
    ensures EnumerationFrames()[68..] == EnumerationPass(COMMAND_54)
    ensures EnumerationFrames()[64..68] == Handshake() && EnumerationFrames()[132..] == Handshake()
  {
    PassShape(COMMAND_52, 0);
    PassShape(COMMAND_54, 0);
    var a, b := EnumerationPass(COMMAND_52), EnumerationPass(COMMAND_54);
    assert (a + b)[..68] == a;
    assert (a + b)[68..] == b;
    assert (a + b)[64..68] == a[64..];
    assert (a + b)[132..] == b[64..];
  }

  /** A poll carries the default payload of an empty long request, i.e. eight zero bytes. */
  lemma PollPayload(cmd: Byte, dst: Byte)
    ensures Poll(cmd, dst).frame.Inner() == FrameInner(FrameId(MAIN_WRC, dst, cmd), EmptyLongDefault())
    ensures Poll(cmd, dst).pauseMs == 180
  {
    assert EmptyLongDefault() == [0, 0, 0, 0, 0, 0, 0, 0];
  }

  /** The handshake's payloads decode under the command layouts: 0xc5 with bytes 0x22 and
      0x00 (passing its check), 0xc4 with no unit address and byte 7 0x44, and 0xc6 with one
      indoor unit (passing its check). */
  lemma HandshakePayloads()
    ensures UnpackC5Request(C5Payload(0x00)) == CommandC5Request(0x22, 0x00, Zeros(6))
    ensures CheckC5Request(UnpackC5Request(C5Payload(0x00)))
    ensures UnpackC4Request(C4Payload(0x00, 1, [0, 0, 0, 0, 0], 0x44)) == CommandC4Request(0, 1, 0, 0x44)
    ensures UnpackC6(C6Payload()) == CommandC6(0x22, 1, [0x20, 0xb0, 0, 0, 0, 0])
    ensures CheckC6(UnpackC6(C6Payload()))
  {
    assert C5Payload(0x00)[2..] == Zeros(6);
  }

  /** After each kind of poll in normal operation: the 0xc4 ping decodes with byte 0 = 0x01,
      one unit and unit address 0x20 (its bytes 2 and 3, 0x10 and 0xb6, are not part of the
      layout); the 0xc5 ping carries 0x22 and 0x80; the end-of-phase broadcast is 0xd1 to
      0xad with payload 0x01 and seven zeros. */
  lemma AfterKindShape()
    ensures |AfterKind()| == 3
    ensures AfterKind()[0].frame.Inner().id == FrameId(MAIN_WRC, SUB_WRC, COMMAND_C4)
    ensures UnpackC4Request(AfterKind()[0].frame.Inner().data) == CommandC4Request(0x01, 1, 0x20, 0x44)
    ensures AfterKind()[1].frame.Inner().id == FrameId(MAIN_WRC, SUB_WRC, COMMAND_C5)
    ensures UnpackC5Request(AfterKind()[1].frame.Inner().data) == CommandC5Request(0x22, 0x80, Zeros(6))
    ensures AfterKind()[2].frame.Inner() == FrameInner(FrameId(MAIN_WRC, BROADCAST, COMMAND_D1), [0x01] + Zeros(7))
    ensures AfterKind()[0].pauseMs == 900 && AfterKind()[1].pauseMs == 900 && AfterKind()[2].pauseMs == 300
  {
    assert C5Payload(0x80)[2..] == Zeros(6);
    assert [0x01] + Zeros(7) == [0x01, 0, 0, 0, 0, 0, 0, 0];
  }

  lemma CycleUnfolds()
    ensures CycleFrames(4) == KindFrames(INFO_COMMANDS[0]) + KindFrames(INFO_COMMANDS[1])
      + KindFrames(INFO_COMMANDS[2]) + KindFrames(INFO_COMMANDS[3])
  {
  }

  /** A normal-operation cycle is sixteen frames: for Info1..Info4 (0x52, 0x52, 0x54, 0x55)
      a poll of 0x20 followed by the two sub-WRC pings and the end-of-phase broadcast. */
  lemma CycleShape(j: nat)
    requires j < 4
    ensures |CycleFrames(4)| == 16
    ensures CycleFrames(4)[4 * j] == Poll(INFO_COMMANDS[j], 0x20)
    ensures CycleFrames(4)[4 * j + 1..4 * j + 4] == AfterKind()
  {
    CycleUnfolds();
    var k := KindFrames(INFO_COMMANDS[j]);
    assert k == [Poll(INFO_COMMANDS[j], 0x20)] + AfterKind();
    assert CycleFrames(4)[4 * j..4 * j + 4] == k;
  }

  lemma {:induction false} NormalCyclesLength(n: nat)
    ensures |NormalCycles(n)| == 16 * n
    decreases n
  {
    if n > 0 {
      NormalCyclesLength(n - 1);
      CycleShape(0);
    }
  }

  /** The normal phase only ever repeats the same cycle. */
  lemma {:induction false} NormalCyclesRepeat(n: nat, i: nat, j: nat)
    requires i < n && j < 16
    ensures |NormalCycles(n)| == 16 * n
    ensures NormalCycles(n)[16 * i + j] == CycleFrames(4)[j]
    decreases n
  {
    NormalCyclesLength(n);
    NormalCyclesLength(n - 1);
    CycleShape(0);
    if i < n - 1 {
      NormalCyclesRepeat(n - 1, i, j);
    }
  }

  predicate FromMainWrc(e: Emitted) {
    e.frame.Inner().id.src == MAIN_WRC
  }

  /** The pause after each frame: 8000 ms after 0xfb, 600 ms after 0xf9, 300 ms after 0xd1,
      900 ms after the normal-operation sub-WRC pings 0xc4 and 0xc5 and 180 ms after
      everything else. */
  predicate PauseRule(e: Emitted, normal: bool) {
    var cmd := e.frame.Inner().id.cmd;
    e.pauseMs == (if cmd == TRACKING_FB then 8000
                  else if cmd == TRACKING_END then 600
                  else if cmd == COMMAND_D1 then 300
                  else if normal && (cmd == COMMAND_C4 || cmd == COMMAND_C5) then 900
                  else 180)
  }

  predicate IsInfoCommand(cmd: Byte) {
    cmd == COMMAND_52 || cmd == COMMAND_54 || cmd == COMMAND_55
  }

  lemma {:induction false} PollsFromMain(cmd: Byte, dsts: seq<Byte>, e: Emitted)
    requires IsInfoCommand(cmd)
    ensures e in Polls(cmd, dsts) ==>
      FromMainWrc(e) && PauseRule(e, false) && PauseRule(e, true)
    decreases |dsts|
  {
    if dsts != [] {
      PollsFromMain(cmd, dsts[1..], e);
    }
  }

  lemma TrackingRules(e: Emitted)
    requires e in TrackingFrames()
    ensures FromMainWrc(e) && PauseRule(e, false)
  {
  }

  lemma EnumerationRules(e: Emitted)
    requires e in EnumerationFrames()
    ensures FromMainWrc(e) && PauseRule(e, false)
  {
    assert e in EnumerationPass(COMMAND_52) || e in EnumerationPass(COMMAND_54);
    PollsFromMain(COMMAND_52, IndoorUnitAddresses(), e);
    PollsFromMain(COMMAND_52, ErvAddresses(), e);
    PollsFromMain(COMMAND_54, IndoorUnitAddresses(), e);
    PollsFromMain(COMMAND_54, ErvAddresses(), e);
  }

  /** Every frame of `s` comes from the main WRC and is followed by its normal-operation pause. */
  predicate NormalOk(s: seq<Emitted>) {
    forall e :: e in s ==> FromMainWrc(e) && PauseRule(e, true)
  }

  lemma {:induction false} NormalRules(n: nat)
    ensures NormalOk(NormalCycles(n))
    decreases n
  {
    if n > 0 {
      NormalRules(n - 1);
      CycleOk();
      ConcatOk(NormalCycles(n - 1), CycleFrames(4));
    }
  }

  lemma ConcatOk(a: seq<Emitted>, b: seq<Emitted>)
    requires NormalOk(a) && NormalOk(b)
    ensures NormalOk(a + b)
  {
  }

  lemma CycleOk()
    ensures NormalOk(CycleFrames(4))
  {
    forall e | e in CycleFrames(4)
      ensures FromMainWrc(e) && PauseRule(e, true)
    {
      CycleRules(e);
    }
  }

  lemma CycleRules(e: Emitted)
    requires e in CycleFrames(4)
    ensures FromMainWrc(e) && PauseRule(e, true)
  {
    CycleUnfolds();
    if e in KindFrames(COMMAND_52) {
      KindRules(COMMAND_52, e);
    } else if e in KindFrames(COMMAND_54) {
      KindRules(COMMAND_54, e);
    } else {
      KindRules(COMMAND_55, e);
    }
  }

  lemma KindRules(cmd: Byte, e: Emitted)
    requires IsInfoCommand(cmd) && e in KindFrames(cmd)
    ensures FromMainWrc(e) && PauseRule(e, true)
  {
    if e in Polls(cmd, IU_ADDRESSES) {
      PollsFromMain(cmd, IU_ADDRESSES, e);
    }
  }

  /** Every frame comes from the main WRC and is followed by the pause its kind calls for. */
  lemma ScheduleSourceAndPauses(cycles: nat, e: Emitted)
    requires e in Schedule(cycles)
    ensures FromMainWrc(e)
    ensures e in TrackingFrames() + EnumerationFrames() ==> PauseRule(e, false)
    ensures e in NormalCycles(cycles) ==> PauseRule(e, true)
  {
    if e in TrackingFrames() {
      TrackingRules(e);
    }
    if e in EnumerationFrames() {
      EnumerationRules(e);
    }
    if e in NormalCycles(cycles) {
      NormalRules(cycles);
    }
  }
}
