/**
 * The reset tool: it waits for the main WRC's end-of-phase broadcast, answers it once with the
 * sub WRC's 0xd1 reply, which makes the main WRC reboot, and exits.
 */
module Reset {
  import opened Bytes
  import opened Wrappers
  import opened Addresses
  import opened Commands
  import opened Codec
  import Main = MainWrcEmulator

  /** How the tool ends: it exits right after sending the reset, or returns `Ok(())` when the
      stream ends first. */
  datatype Outcome = ResetSent | StreamEnded

  /** The end-of-phase broadcast the tool waits for; any payload and either size class. */
  predicate IsEndOfPhase(rx: RxFrame) {
    Id(rx) == Some(FrameId(MAIN_WRC, BROADCAST, COMMAND_D1))
  }

  /** The reset: the default `CommandD1Response`, eight zero bytes, from the sub WRC to the
      main WRC. */
  function ResetFrame(): (tx: TxFrame)
    ensures tx.TxLong? && tx.Inner().id == FrameId(SUB_WRC, MAIN_WRC, COMMAND_D1)
    ensures tx.Inner().data == Zeros(8) && EmptyLongCheck(tx.Inner().data)
  {
    TxLong(FrameInner(FrameId(SUB_WRC, MAIN_WRC, COMMAND_D1), EmptyLongDefault()))
  }

  /** The index of the first end-of-phase broadcast in `frames`, if any. */
  function FirstEndOfPhase(frames: seq<RxFrame>): (r: Option<nat>)
    ensures r.Some? ==> r.value < |frames| && IsEndOfPhase(frames[r.value])
    ensures r.Some? ==> forall i :: 0 <= i < r.value ==> !IsEndOfPhase(frames[i])
    ensures r.None? ==> forall i :: 0 <= i < |frames| ==> !IsEndOfPhase(frames[i])
    decreases |frames|
  {
    if frames == [] then None
    else if IsEndOfPhase(frames[0]) then Some(0)
    else
      match FirstEndOfPhase(frames[1..])
      case None => None
      case Some(k) => Some(k + 1)
  }

  /** The tool's `main` loop over the received frames: what it sends, how it ends, and how many
      frames it has read when it stops. */
  method ResetTool(frames: seq<RxFrame>) returns (sent: seq<TxFrame>, outcome: Outcome, read: nat)
    ensures FirstEndOfPhase(frames).Some? ==>
      sent == [ResetFrame()] && outcome == ResetSent && read == FirstEndOfPhase(frames).value + 1
    ensures FirstEndOfPhase(frames).None? ==>
      sent == [] && outcome == StreamEnded && read == |frames|
  {
    var i := 0;
    while i < |frames|
      invariant 0 <= i <= |frames|
      invariant forall k :: 0 <= k < i ==> !IsEndOfPhase(frames[k])
      decreases |frames| - i
    {
      if Id(frames[i]).Some? {
        var id := Id(frames[i]).value;
        if id == FrameId(MAIN_WRC, BROADCAST, COMMAND_D1) {
          FirstIsEarliest(frames, i);
          return [ResetFrame()], ResetSent, i + 1;
        }
      }
      i := i + 1;
    }
    return [], StreamEnded, |frames|;
  }

  /** The first end-of-phase broadcast is the one at `i` when none comes before it. */
  lemma FirstIsEarliest(frames: seq<RxFrame>, i: nat)
    requires i < |frames| && IsEndOfPhase(frames[i])
    requires forall k :: 0 <= k < i ==> !IsEndOfPhase(frames[k])
    ensures FirstEndOfPhase(frames) == Some(i)
  {
  }

  /** The tool sends a reset exactly when an end-of-phase broadcast arrives. */
  lemma {:induction false} ResetIffEndOfPhase(frames: seq<RxFrame>)
    ensures FirstEndOfPhase(frames).Some? <==> exists i :: 0 <= i < |frames| && IsEndOfPhase(frames[i])
  {
    if FirstEndOfPhase(frames).Some? {
      var k := FirstEndOfPhase(frames).value;
      assert IsEndOfPhase(frames[k]);
    }
  }

  /** Corrupted frames, and 0xd1 frames between any other pair of addresses, are passed over. */
  lemma OnlyTheBroadcastTriggers(rx: RxFrame)
    ensures rx.Corrupted? ==> !IsEndOfPhase(rx)
    ensures IsEndOfPhase(rx) <==>
      !rx.Corrupted? && Id(rx).value.src == MAIN_WRC && Id(rx).value.dst == BROADCAST
      && Id(rx).value.cmd == COMMAND_D1
  {
  }

  /** Against the main-WRC emulator: the first end-of-phase broadcast it sends is frame 144,
      the last frame of the first normal-operation kind, so listening to one full cycle is
      enough for the tool to send its reset. */
  lemma ResetsTheMainWrc(cycles: nat)
    requires cycles >= 1
    ensures var frames := RxSchedule(Main.Schedule(cycles));
      FirstEndOfPhase(frames) == Some(144)
  {
    var s := Main.Schedule(cycles);
    var frames := RxSchedule(s);
    Main.SchedulePhases(cycles);
    Main.NormalCyclesRepeat(cycles, 0, 3);
    Main.CycleShape(0);
    Main.AfterKindShape();
    assert s[144] == Main.NormalCycles(cycles)[3];
    forall k | 0 <= k < 144
      ensures !IsEndOfPhase(frames[k])
    {
      NoEndOfPhaseBefore(cycles, k);
    }
    FirstIsEarliest(frames, 144);
  }

  /** The frames the main WRC sends, as received. */
  function RxSchedule(s: seq<Main.Emitted>): (frames: seq<RxFrame>)
    ensures |frames| == |s|
    ensures forall k :: 0 <= k < |s| ==> frames[k] == ToRx(s[k].frame)
  {
    seq(|s|, k requires 0 <= k < |s| => ToRx(s[k].frame))
  }

  lemma NoEndOfPhaseBefore(cycles: nat, k: nat)
    requires cycles >= 1 && k < 144
    ensures Main.Schedule(cycles)[k].frame.Inner().id.cmd != COMMAND_D1
  {
    var s := Main.Schedule(cycles);
    Main.SchedulePhases(cycles);
    if k < 5 {
      Main.TrackingShape();
      assert s[k] == Main.TrackingFrames()[k];
    } else if k < 141 {
      Main.EnumerationShape();
      assert s[k] == Main.EnumerationFrames()[k - 5];
      if k - 5 < 68 {
        EnumerationCommands(COMMAND_52, k - 5);
        assert s[k] == Main.EnumerationPass(COMMAND_52)[k - 5];
      } else {
        EnumerationCommands(COMMAND_54, k - 73);
        assert s[k] == Main.EnumerationPass(COMMAND_54)[k - 73];
      }
    } else {
      Main.NormalCyclesRepeat(cycles, 0, k - 141);
      Main.CycleShape(0);
      assert s[k] == Main.NormalCycles(cycles)[k - 141];
    }
  }

  lemma EnumerationCommands(cmd: Byte, k: nat)
    requires k < 68 && cmd != COMMAND_D1
    ensures Main.EnumerationPass(cmd)[k].frame.Inner().id.cmd != COMMAND_D1
  {
    Main.PassShape(cmd, k);
    if k >= 64 {
      assert Main.EnumerationPass(cmd)[k] == Main.Handshake()[k - 64];
    }
  }
}
