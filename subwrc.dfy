/**
 * The sub-WRC task: an emulated sub wall controller that acknowledges the main WRC's two
 * handover pings, 0xc4 and 0xc5, and stays silent otherwise.
 *
 * `React` is the reply rule for one received frame; `Run` is the receive loop over a stream of
 * frames, ending when the stream ends or when unpacking a ping panics.
 */
module SubWrc {
  import opened Bytes
  import opened Wrappers
  import opened Addresses
  import opened Commands
  import opened Codec
  import Main = MainWrcEmulator

  /** How the sub-WRC task ends: `Ok(())` at the end of the stream, or a panic inside `unpack_as`
      (a ping of the wrong size class, or a 0xc5 whose `check` fails). */
  datatype Exit = Finished | Panicked

  datatype Reaction = Skip | Respond(frame: TxFrame) | Stop(exit: Exit)

  /** The 0xc4 acknowledgement: the default `CommandC4Reply`, eight zero bytes, to the main WRC. */
  function C4Ack(): (tx: TxFrame)
    ensures tx.TxLong? && tx.Inner().id == FrameId(SUB_WRC, MAIN_WRC, COMMAND_C4)
    ensures EmptyLongCheck(tx.Inner().data)
  {
    TxLong(FrameInner(FrameId(SUB_WRC, MAIN_WRC, COMMAND_C4), EmptyLongDefault()))
  }

  /** The 0xc5 acknowledgement: the default `CommandC5Response` to the main WRC. */
  function C5Ack(): (tx: TxFrame)
    ensures tx.TxLong? && tx.Inner().id == FrameId(SUB_WRC, MAIN_WRC, COMMAND_C5)
  {
    var c := DefaultC5Response();
    TxLong(FrameInner(FrameId(SUB_WRC, MAIN_WRC, COMMAND_C5), PackC5Response(c)))
  }

  /** The reply rule of `sub_wrc_task`, matched on the frame's identity alone. */
  function React(rx: RxFrame): (r: Reaction)
    ensures rx.Corrupted? ==> r == Skip
    ensures r.Respond? ==> r.frame == C4Ack() || r.frame == C5Ack()
  {
    match Id(rx)
    case None => Skip
    case Some(id) =>
      if id == FrameId(MAIN_WRC, SUB_WRC, COMMAND_C4) then
        match UnpackData(rx, Long)
        case WrongClass => Stop(Exit.Panicked)
        case Payload(_) => Respond(C4Ack())
      else if id == FrameId(MAIN_WRC, SUB_WRC, COMMAND_C5) then
        match UnpackData(rx, Long)
        case WrongClass => Stop(Exit.Panicked)
        case Payload(d) =>
          if CheckC5Request(UnpackC5Request(d)) then Respond(C5Ack()) else Stop(Exit.Panicked)
      else Skip
  }

  /** The replies sent for a stream of received frames, and how the sub-WRC task ends. */
  function Run(frames: seq<RxFrame>): (r: (seq<TxFrame>, Exit))
    ensures |r.0| <= |frames|
    ensures forall k :: 0 <= k < |r.0| ==> r.0[k] == C4Ack() || r.0[k] == C5Ack()
    decreases |frames|
  {
    if frames == [] then ([], Finished)
    else
      match React(frames[0])
      case Skip => Run(frames[1..])
      case Stop(e) => ([], e)
      case Respond(f) =>
        var (rest, e) := Run(frames[1..]);
        ([f] + rest, e)
  }

  /** `sub_wrc_task`: the receive loop. */
  method SubWrcTask(frames: seq<RxFrame>) returns (sent: seq<TxFrame>, exit: Exit)
    ensures (sent, exit) == Run(frames)
  {
    sent := [];
    var i := 0;
    assert frames[0..] == frames;
    while i < |frames|
      invariant 0 <= i <= |frames|
      invariant Run(frames).0 == sent + Run(frames[i..]).0
      invariant Run(frames).1 == Run(frames[i..]).1
      decreases |frames| - i
    {
      assert frames[i..][0] == frames[i];
      assert frames[i..][1..] == frames[i + 1..];
      var r := React(frames[i]);
      match r {
        case Skip =>
        case Stop(e) =>
          assert sent + [] == sent;
          return sent, e;
        case Respond(f) =>
          sent := sent + [f];
      }
      i := i + 1;
    }
    assert frames[i..] == [] && sent + [] == sent;
    return sent, Finished;
  }

  // ---------------------------------------------------------------------------------------
  // Properties

  predicate IsAnsweredPing(rx: RxFrame) {
    || (rx.RxLong? && rx.long.id == FrameId(MAIN_WRC, SUB_WRC, COMMAND_C4))
    || (rx.RxLong? && rx.long.id == FrameId(MAIN_WRC, SUB_WRC, COMMAND_C5) && rx.long.data[0] == 0x22)
  }

  /** A frame is answered exactly when it is a long 0xc4 from the main WRC to the sub WRC, or
      such a long 0xc5 whose byte 0 is 0x22. The answer goes back from the sub WRC to the main
      WRC with the same command: eight zeros for 0xc4, 0x22 and seven zeros for 0xc5. */
  lemma ReplyRule(rx: RxFrame)
    ensures var r := React(rx);
      && (r.Respond? <==> IsAnsweredPing(rx))
      && (r.Respond? ==> r.frame.Inner().id == FrameId(SUB_WRC, MAIN_WRC, rx.long.id.cmd))
      && (r.Respond? && rx.long.id.cmd == COMMAND_C4 ==> r.frame.Inner().data == Zeros(8))
      && (r.Respond? && rx.long.id.cmd == COMMAND_C5 ==> r.frame.Inner().data == [0x22, 0, 0, 0, 0, 0, 0, 0])
  {
  }

  /** A handover ping that cannot be unpacked stops the sub-WRC task: a short frame with either
      identity, or a long 0xc5 whose byte 0 is not 0x22. Any long 0xc4 payload is accepted. */
  lemma PanicRule(rx: RxFrame)
    ensures React(rx) == Stop(Exit.Panicked) <==>
      ((Id(rx) == Some(FrameId(MAIN_WRC, SUB_WRC, COMMAND_C4)) && rx.RxShort?)
       || (Id(rx) == Some(FrameId(MAIN_WRC, SUB_WRC, COMMAND_C5)) && (rx.RxShort? || rx.long.data[0] != 0x22)))
  {
  }

  /** Every other identity, the end-of-phase broadcast among them, is skipped. */
  lemma OtherFramesSkipped(rx: RxFrame)
    requires Id(rx).Some?
    requires Id(rx).value != FrameId(MAIN_WRC, SUB_WRC, COMMAND_C4)
    requires Id(rx).value != FrameId(MAIN_WRC, SUB_WRC, COMMAND_C5)
    ensures React(rx) == Skip
  {
  }

  /** The sub-WRC task returns `Ok(())` exactly when no frame of the stream makes it panic, and then it
      has answered at most one reply per frame, every reply going to the main WRC. */
  lemma {:induction false} RunOutcome(frames: seq<RxFrame>)
    ensures Run(frames).1 == Finished <==> forall i :: 0 <= i < |frames| ==> !React(frames[i]).Stop?
    ensures |Run(frames).0| <= |frames|
    ensures forall k :: 0 <= k < |Run(frames).0| ==> Run(frames).0[k].Inner().id.dst == MAIN_WRC
    decreases |frames|
  {
    if frames != [] {
      RunOutcome(frames[1..]);
      forall i | 1 <= i < |frames|
        ensures frames[i] == frames[1..][i - 1]
      {
      }
    }
  }

  /** Replies come in the order of the frames they answer: with no panic, the replies are
      exactly the answered frames' reactions, in stream order. */
  function Answers(frames: seq<RxFrame>): seq<TxFrame>
    decreases |frames|
  {
    if frames == [] then []
    else (if React(frames[0]).Respond? then [React(frames[0]).frame] else []) + Answers(frames[1..])
  }

  lemma {:induction false} RunAnswersInOrder(frames: seq<RxFrame>)
    requires forall i :: 0 <= i < |frames| ==> !React(frames[i]).Stop?
    ensures Run(frames).0 == Answers(frames)
    decreases |frames|
  {
    if frames != [] {
      assert forall i :: 0 <= i < |frames[1..]| ==> frames[1..][i] == frames[i + 1];
      RunAnswersInOrder(frames[1..]);
    }
  }

  /** Against the main-WRC emulator: both handover pings of the enumeration handshake and of
      every normal-operation kind are acknowledged, while the 0xc6 and 0xc4 enumeration
      broadcasts and the end-of-phase broadcast get no reply. */
  lemma AcknowledgesMainWrcPings()
    ensures React(ToRx(Main.Handshake()[0].frame)) == Respond(C5Ack())
    ensures React(ToRx(Main.Handshake()[1].frame)) == Respond(C4Ack())
    ensures React(ToRx(Main.Handshake()[2].frame)) == Skip
    ensures React(ToRx(Main.Handshake()[3].frame)) == Skip
    ensures React(ToRx(Main.AfterKind()[0].frame)) == Respond(C4Ack())
    ensures React(ToRx(Main.AfterKind()[1].frame)) == Respond(C5Ack())
    ensures React(ToRx(Main.AfterKind()[2].frame)) == Skip
  {
  }
}
