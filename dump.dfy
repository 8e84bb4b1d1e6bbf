/**
 * The bus dump tool's classifiers: a label for each address and for each frame's identity, and
 * the loop that labels every well-formed frame it reads.
 *
 * Labels are modelled as values rather than text; `AddressText` and `CommandText` give the
 * words the tool prints for them (the numbers and the layout of the line are not modelled).
 */
module Dump {
  import opened Bytes
  import opened Addresses
  import opened Commands
  import opened Codec
  import Main = MainWrcEmulator
  import Reset

  datatype AddressLabel =
    | MainWrcLabel
    | SubWrcLabel
    | TrackingBroadcastLabel
    | EnumBroadcastLabel
    | BroadcastLabel
    | IndoorUnitLabel(unit: Byte)
    | ErvLabel(unit: Byte)
    | UnknownAddress

  /** `addr_desc`: the named roles first, then the two unit ranges with the offset of the
      address in its range. */
  function AddressDesc(addr: Byte): (l: AddressLabel)
    ensures l.IndoorUnitLabel? <==> IsIndoorUnit(addr)
    ensures l.ErvLabel? <==> IsErv(addr)
    ensures l.IndoorUnitLabel? ==> l.unit < 32 && addr == INDOOR_UNIT_FIRST + l.unit
    ensures l.ErvLabel? ==> l.unit < 32 && addr == ERV_FIRST + l.unit
  {
    if addr == MAIN_WRC then MainWrcLabel
    else if addr == SUB_WRC then SubWrcLabel
    else if addr == TRACKING_BROADCAST then TrackingBroadcastLabel
    else if addr == ENUMERATION_BROADCAST then EnumBroadcastLabel
    else if addr == BROADCAST then BroadcastLabel
    else if INDOOR_UNIT_FIRST <= addr <= INDOOR_UNIT_LAST then IndoorUnitLabel(addr - INDOOR_UNIT_FIRST)
    else if ERV_FIRST <= addr <= ERV_LAST then ErvLabel(addr - ERV_FIRST)
    else UnknownAddress
  }

  function AddressText(l: AddressLabel): string {
    match l
    case MainWrcLabel => "Main WRC"
    case SubWrcLabel => "Sub WRC"
    case TrackingBroadcastLabel => "Tracking Broadcast"
    case EnumBroadcastLabel => "Enum Broadcast"
    case BroadcastLabel => "Broadcast"
    case IndoorUnitLabel(_) => "Indoor Unit"
    case ErvLabel(_) => "ERV"
    case UnknownAddress => "Unknown"
  }

  /** Frame labels: Info k Request and IU Info k Response for k = 1..4, the two handover
      pings, the end-of-phase broadcast and the bus reset. */
  datatype CommandLabel =
    | InfoRequest(k: int)
    | IuInfoResponse(k: int)
    | SubHandover1
    | SubHandover2
    | EndOfPhase
    | BusReset
    | UnknownCommand

  function CommandText(l: CommandLabel): string {
    match l
    case InfoRequest(k) =>
      if k == 1 then "Info 1 Request" else if k == 2 then "Info 2 Request"
      else if k == 3 then "Info 3 Request" else "Info 4 Request"
    case IuInfoResponse(k) =>
      if k == 1 then "IU Info 1 Response" else if k == 2 then "IU Info 2 Response"
      else if k == 3 then "IU Info 3 Response" else "IU Info 4 Response"
    case SubHandover1 => "Sub Handover 1"
    case SubHandover2 => "Sub Handover 2"
    case EndOfPhase => "End of Phase"
    case BusReset => "Bus Reset"
    case UnknownCommand => "Unknown"
  }

  predicate IsWrc(a: Byte) {
    a == MAIN_WRC || a == SUB_WRC
  }

  /** `cmd_desc` as written: its Info 2 arm matches 0x52, like the Info 1 arm before it. */
  function CommandDescAsWritten(id: FrameId): (l: CommandLabel)
    ensures l != InfoRequest(2)
    ensures l == CommandDesc(id) || (IsWrc(id.src) && id.cmd == COMMAND_53)
  {
    if IsWrc(id.src) && id.cmd == COMMAND_52 then InfoRequest(1)
    else if IsIndoorUnit(id.src) && IsWrc(id.dst) && id.cmd == COMMAND_52 then IuInfoResponse(1)
    else if IsWrc(id.src) && id.cmd == COMMAND_52 then InfoRequest(2)
    else if IsIndoorUnit(id.src) && IsWrc(id.dst) && id.cmd == COMMAND_53 then IuInfoResponse(2)
    else CommonArms(id)
  }

  /** `cmd_desc` with the Info 2 arm matching the 0x53 request. */
  function CommandDesc(id: FrameId): (l: CommandLabel)
    ensures l.InfoRequest? ==> 1 <= l.k <= 4 && IsWrc(id.src) && id.cmd == InfoCommand(l.k)
    ensures l.IuInfoResponse? ==>
      1 <= l.k <= 4 && IsIndoorUnit(id.src) && IsWrc(id.dst) && id.cmd == InfoCommand(l.k)
  {
    if IsWrc(id.src) && id.cmd == COMMAND_52 then InfoRequest(1)
    else if IsIndoorUnit(id.src) && IsWrc(id.dst) && id.cmd == COMMAND_52 then IuInfoResponse(1)
    else if IsWrc(id.src) && id.cmd == COMMAND_53 then InfoRequest(2)
    else if IsIndoorUnit(id.src) && IsWrc(id.dst) && id.cmd == COMMAND_53 then IuInfoResponse(2)
    else CommonArms(id)
  }

  /** The arms of `cmd_desc` after the Info 2 pair, in order. */
  function CommonArms(id: FrameId): CommandLabel {
    if IsWrc(id.src) && id.cmd == COMMAND_54 then InfoRequest(3)
    else if IsIndoorUnit(id.src) && IsWrc(id.dst) && id.cmd == COMMAND_54 then IuInfoResponse(3)
    else if IsWrc(id.src) && id.cmd == COMMAND_55 then InfoRequest(4)
    else if IsIndoorUnit(id.src) && IsWrc(id.dst) && id.cmd == COMMAND_55 then IuInfoResponse(4)
    else if id == FrameId(MAIN_WRC, SUB_WRC, COMMAND_C4) then SubHandover1
    else if id == FrameId(MAIN_WRC, SUB_WRC, COMMAND_C5) then SubHandover2
    else if id == FrameId(MAIN_WRC, BROADCAST, COMMAND_D1) then EndOfPhase
    else if id == FrameId(SUB_WRC, MAIN_WRC, COMMAND_D1) then BusReset
    else UnknownCommand
  }

  /** The information command numbered k (1..4). */
  function InfoCommand(k: nat): Byte
    requires 1 <= k <= 4
  {
    [COMMAND_52, COMMAND_53, COMMAND_54, COMMAND_55][k - 1]
  }

  /** One line of the dump, without its timing: the labels of source, destination and frame
      (by the classifier as written), and the payload. */
  datatype Line = Line(src: AddressLabel, dst: AddressLabel, cmd: CommandLabel, data: seq<Byte>)

  function Describe(f: FrameInner): Line {
    Line(AddressDesc(f.id.src), AddressDesc(f.id.dst), CommandDescAsWritten(f.id), f.data)
  }

  /** The lines for a stream of received frames: corrupted frames get no line. */
  function Lines(frames: seq<RxFrame>): seq<Line>
    decreases |frames|
  {
    if frames == [] then []
    else
      match frames[0]
      case Corrupted(_) => Lines(frames[1..])
      case RxLong(f) => [Describe(f)] + Lines(frames[1..])
      case RxShort(f) => [Describe(f)] + Lines(frames[1..])
  }

  /** The dump loop: one line per well-formed frame, in order. */
  method DumpFrames(frames: seq<RxFrame>) returns (lines: seq<Line>)
    ensures lines == Lines(frames)
  {
    lines := [];
    var i := 0;
    while i < |frames|
      invariant 0 <= i <= |frames|
      invariant lines == Lines(frames[..i])
    {
      LinesAppend(frames[..i], frames[i]);
      assert frames[..i + 1] == frames[..i] + [frames[i]];
      match frames[i] {
        case Corrupted(_) =>
        case RxLong(f) => lines := lines + [Describe(f)];
        case RxShort(f) => lines := lines + [Describe(f)];
      }
      i := i + 1;
    }
    assert frames[..i] == frames;
  }

  /** One more frame adds its own line, if any, after the lines already written. */
  lemma {:induction false} LinesAppend(frames: seq<RxFrame>, frame: RxFrame)
    ensures Lines(frames + [frame]) == Lines(frames) + Lines([frame])
    decreases |frames|
  {
    if frames != [] {
      assert (frames + [frame])[1..] == frames[1..] + [frame];
      LinesAppend(frames[1..], frame);
    }
  }

  // ---------------------------------------------------------------------------------------
  // Properties

  /** The five special addresses get their roles; distinct addresses of a known kind get
      distinct labels. */
  lemma AddressLabelsDistinguish(a: Byte, b: Byte)
    ensures AddressDesc(MAIN_WRC) == MainWrcLabel && AddressDesc(SUB_WRC) == SubWrcLabel
    ensures AddressDesc(TRACKING_BROADCAST) == TrackingBroadcastLabel
    ensures AddressDesc(ENUMERATION_BROADCAST) == EnumBroadcastLabel
    ensures AddressDesc(BROADCAST) == BroadcastLabel
    ensures AddressDesc(a) == UnknownAddress <==>
      a !in Specials() && !IsIndoorUnit(a) && !IsErv(a)
    ensures AddressDesc(a) == AddressDesc(b) && AddressDesc(a) != UnknownAddress ==> a == b
  {
  }

  /** As written, no frame is labelled Info 2 Request, and a 0x53 request from a WRC is
      labelled Unknown. */
  lemma Info2RequestUnreachableAsWritten(id: FrameId)
    ensures CommandDescAsWritten(id) != InfoRequest(2)
    ensures IsWrc(id.src) && id.cmd == COMMAND_53 ==> CommandDescAsWritten(id) == UnknownCommand
  {
  }

  /** The corrected classifier differs from the written one only on 0x53 requests from a WRC. */
  lemma CorrectionOnlyTouches53(id: FrameId)
    ensures CommandDesc(id) != CommandDescAsWritten(id) <==> IsWrc(id.src) && id.cmd == COMMAND_53
  {
  }

  /** Each information command k is labelled Info k Request when a WRC sends it and IU Info k
      Response when an indoor unit sends it to a WRC; these labels are given to no other
      frame. */
  lemma InfoLabels(id: FrameId, k: nat)
    requires 1 <= k <= 4
    ensures CommandDesc(id) == InfoRequest(k) <==> IsWrc(id.src) && id.cmd == InfoCommand(k)
    ensures CommandDesc(id) == IuInfoResponse(k) <==>
      IsIndoorUnit(id.src) && IsWrc(id.dst) && id.cmd == InfoCommand(k)
  {
  }

  /** The handover pings, the end-of-phase broadcast and the bus reset are labelled by their
      exact identity. */
  lemma PhaseLabels(id: FrameId)
    ensures CommandDescAsWritten(id) == SubHandover1 <==> id == FrameId(MAIN_WRC, SUB_WRC, COMMAND_C4)
    ensures CommandDescAsWritten(id) == SubHandover2 <==> id == FrameId(MAIN_WRC, SUB_WRC, COMMAND_C5)
    ensures CommandDescAsWritten(id) == EndOfPhase <==> id == FrameId(MAIN_WRC, BROADCAST, COMMAND_D1)
    ensures CommandDescAsWritten(id) == BusReset <==> id == FrameId(SUB_WRC, MAIN_WRC, COMMAND_D1)
  {
  }

  /** Every line is for a well-formed frame, and every well-formed frame gets its line. */
  lemma {:induction false} LinesSkipCorrupted(frames: seq<RxFrame>)
    ensures |Lines(frames)| == |frames| - CorruptedCount(frames)
    decreases |frames|
  {
    if frames != [] {
      LinesSkipCorrupted(frames[1..]);
    }
  }

  function CorruptedCount(frames: seq<RxFrame>): (n: nat)
    ensures n <= |frames|
    decreases |frames|
  {
    if frames == [] then 0 else (if frames[0].Corrupted? then 1 else 0) + CorruptedCount(frames[1..])
  }

  /** Against the emulators: a normal-operation cycle of the main WRC reads as Info 1, 1, 3
      and 4 requests to indoor unit 0, each followed by both handovers and an end of phase,
      and the reset tool's frame reads as a bus reset. */
  lemma LabelsOfTheEmulators(j: nat)
    requires j < 4
    ensures var e := Main.CycleFrames(4)[4 * j].frame.Inner();
      CommandDescAsWritten(e.id) == InfoRequest([1, 1, 3, 4][j]) && AddressDesc(e.id.dst) == IndoorUnitLabel(0)
    ensures CommandDescAsWritten(Main.AfterKind()[0].frame.Inner().id) == SubHandover1
    ensures CommandDescAsWritten(Main.AfterKind()[1].frame.Inner().id) == SubHandover2
    ensures CommandDescAsWritten(Main.AfterKind()[2].frame.Inner().id) == EndOfPhase
    ensures CommandDescAsWritten(Reset.ResetFrame().Inner().id) == BusReset
  {
    Main.CycleShape(j);
    Main.AfterKindShape();
  }
}
