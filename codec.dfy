/**
 * The frame codec of the bus.
 *
 * On the wire a frame is `0x32, src, dst, cmd, data[S], checksum, 0x34` with S = 1 (short) or
 * S = 8 (long); the checksum is the XOR of src, dst, cmd and the data bytes. The length of a
 * frame is not transmitted, so the decoder tries a short frame first and a long frame only when
 * the short candidate's end marker is missing, and drops one byte at a time to resynchronise.
 */
module Codec {
  import opened Bytes
  import opened Wrappers

  const FRAME_START: Byte := 0x32
  const FRAME_END: Byte := 0x34

  datatype FrameId = FrameId(src: Byte, dst: Byte, cmd: Byte)

  /** The two size classes of a frame. */
  datatype FrameClass = Short | Long

  function DataSize(c: FrameClass): nat {
    match c
    case Short => 1
    case Long => 8
  }

  /** `FrameInner::SIZE`: start, src, dst, cmd, data[S], checksum, end. */
  function FrameSize(c: FrameClass): nat {
    6 + DataSize(c)
  }

  datatype FrameInner = FrameInner(id: FrameId, data: seq<Byte>)

  type LongFrame = f: FrameInner | |f.data| == 8
    witness FrameInner(FrameId(0, 0, 0), [0, 0, 0, 0, 0, 0, 0, 0])

  type ShortFrame = f: FrameInner | |f.data| == 1
    witness FrameInner(FrameId(0, 0, 0), [0])

  /** `FrameInner::new` */
  function NewFrame(src: Byte, dst: Byte, cmd: Byte, data: seq<Byte>): (f: FrameInner)
    ensures f.id.src == src && f.id.dst == dst && f.id.cmd == cmd && f.data == data
  {
    FrameInner(FrameId(src, dst, cmd), data)
  }

  /** A frame received from a port. */
  datatype RxFrame = RxLong(long: LongFrame) | RxShort(short: ShortFrame) | Corrupted(bytes: seq<Byte>)

  /** A frame to send to a port. */
  datatype TxFrame = TxLong(long: LongFrame) | TxShort(short: ShortFrame) {
    function Inner(): FrameInner {
      match this
      case TxLong(f) => f
      case TxShort(f) => f
    }

    function Class(): FrameClass {
      if TxLong? then Long else Short
    }
  }

  /** `RxFrame::id`: the identity of a well-formed frame; a corrupted frame has none. */
  function Id(rx: RxFrame): (r: Option<FrameId>)
    ensures r.None? <==> rx.Corrupted?
    ensures rx.RxLong? ==> r == Some(rx.long.id)
    ensures rx.RxShort? ==> r == Some(rx.short.id)
  {
    match rx
    case RxLong(f) => Some(f.id)
    case RxShort(f) => Some(f.id)
    case Corrupted(_) => None
  }

  /** `From<TxFrame> for RxFrame`: the received form of a transmitted frame keeps its class,
      identity and data, and is never corrupted. */
  function ToRx(tx: TxFrame): (rx: RxFrame)
    ensures !rx.Corrupted?
    ensures rx.RxLong? <==> tx.TxLong?
    ensures Id(rx) == Some(tx.Inner().id)
    ensures rx.RxLong? ==> rx.long.data == tx.Inner().data
    ensures rx.RxShort? ==> rx.short.data == tx.Inner().data
  {
    match tx
    case TxLong(f) => RxLong(f)
    case TxShort(f) => RxShort(f)
  }

  /** What `RxFrame::unpack_as` hands to a payload layout of size class `c`: the data when the
      frame has that class, otherwise the call panics ("tried to unpack"). */
  datatype Unpacked = Payload(data: seq<Byte>) | WrongClass

  function UnpackData(rx: RxFrame, c: FrameClass): (u: Unpacked)
    ensures u.Payload? <==> (c == Long && rx.RxLong?) || (c == Short && rx.RxShort?)
    ensures u.Payload? ==> |u.data| == DataSize(c)
  {
    match rx
    case RxLong(f) => if c == Long then Payload(f.data) else WrongClass
    case RxShort(f) => if c == Short then Payload(f.data) else WrongClass
    case Corrupted(_) => WrongClass
  }

  // ---------------------------------------------------------------------------------------
  // Checksum

  /** `Checksum`: the XOR of all the bytes, starting from 0 (XOR is associative and
      commutative, so the order of the fold does not matter). */
  function Checksum(s: seq<Byte>): Byte {
    if s == [] then 0 else s[0] ^ Checksum(s[1..])
  }

  // XOR rearrangements, kept apart from sequence reasoning so each proof stays small.
  lemma XorMoveOut(a: Byte, b: Byte, m: Byte)
    ensures (a ^ m) ^ b == (a ^ b) ^ m
  {
  }

  lemma XorRegroup(a: Byte, b: Byte, m: Byte)
    ensures a ^ (b ^ m) == (a ^ b) ^ m
  {
  }

  /** The checksum of a non-empty sequence is its first byte XOR the checksum of the rest. */
  lemma ChecksumCons(s: seq<Byte>)
    requires s != []
    ensures Checksum(s) == s[0] ^ Checksum(s[1..])
  {
  }

  lemma ChecksumSingle(x: Byte)
    ensures Checksum([x]) == x
  {
    assert [x][1..] == [];
  }

  lemma {:induction false} ChecksumAppend(a: seq<Byte>, b: seq<Byte>)
    ensures Checksum(a + b) == Checksum(a) ^ Checksum(b)
    decreases |a|
  {
    if a == [] {
      assert a + b == b;
    } else {
      assert (a + b)[1..] == a[1..] + b;
      ChecksumAppend(a[1..], b);
      ChecksumCons(a + b);
      ChecksumCons(a);
      XorRegroup(a[0], Checksum(a[1..]), Checksum(b));
    }
  }

  /** Flipping the bits `m` of any one byte flips the same bits of the checksum. */
  /** The checksum exactly as the source computes it: a fold from the left, starting from 0,
      one byte at a time. It is the same byte as `Checksum`. */
  function ChecksumFold(s: seq<Byte>): (c: Byte)
    ensures c == Checksum(s)
    decreases |s|
  {
    if s == [] then 0
    else
      var init := s[..|s| - 1];
      ChecksumAppend(init, [s[|s| - 1]]);
      ChecksumSingle(s[|s| - 1]);
      assert init + [s[|s| - 1]] == s;
      ChecksumFold(init) ^ s[|s| - 1]
  }

  lemma {:induction false} ChecksumFlip(s: seq<Byte>, i: nat, m: Byte)
    requires i < |s|
    ensures Checksum(s[i := s[i] ^ m]) == Checksum(s) ^ m
    decreases i, 1
  {
    if i > 0 {
      ChecksumFlipBeyondHead(s, i, m);
    } else {
      var t := s[0 := s[0] ^ m];
      assert t[1..] == s[1..];
      SameTailXor(s, t, m);
    }
  }

  /** In particular any change to one byte of src, dst, cmd or data changes the checksum. */
  lemma ChecksumDetectsByteChange(s: seq<Byte>, i: nat, m: Byte)
    requires i < |s| && m != 0
    ensures Checksum(s[i := s[i] ^ m]) != Checksum(s)
  {
    ChecksumFlip(s, i, m);
    XorFlipDiffers(Checksum(s), m);
  }

  lemma {:induction false} ChecksumFlipBeyondHead(s: seq<Byte>, i: nat, m: Byte)
    requires 0 < i < |s|
    ensures Checksum(s[i := s[i] ^ m]) == Checksum(s) ^ m
    decreases i, 0
  {
    ChecksumFlip(s[1..], i - 1, m);
    FlippedTail(s, i, m);
  }

  lemma FlippedTail(s: seq<Byte>, i: nat, m: Byte)
    requires 0 < i < |s|
    requires Checksum(s[1..][i - 1 := s[1..][i - 1] ^ m]) == Checksum(s[1..]) ^ m
    ensures Checksum(s[i := s[i] ^ m]) == Checksum(s) ^ m
  {
    var t := s[i := s[i] ^ m];
    assert t[1..] == s[1..][i - 1 := s[1..][i - 1] ^ m];
    SameHeadXor(s, t, m);
  }

  lemma SameHeadXor(s: seq<Byte>, t: seq<Byte>, m: Byte)
    requires s != [] && t != [] && t[0] == s[0]
    requires Checksum(t[1..]) == Checksum(s[1..]) ^ m
    ensures Checksum(t) == Checksum(s) ^ m
  {
    ChecksumCons(t);
    ChecksumCons(s);
    XorRegroup(s[0], Checksum(s[1..]), m);
  }

  lemma SameTailXor(s: seq<Byte>, t: seq<Byte>, m: Byte)
    requires s != [] && t != [] && t[0] == s[0] ^ m && t[1..] == s[1..]
    ensures Checksum(t) == Checksum(s) ^ m
  {
    ChecksumCons(t);
    ChecksumCons(s);
    XorMoveOut(s[0], Checksum(s[1..]), m);
  }

  lemma XorFlipDiffers(x: Byte, m: Byte)
    ensures m != 0 ==> x ^ m != x
  {
  }

  // ---------------------------------------------------------------------------------------
  // Encoding

  /** The bytes the checksum covers: src, dst, cmd and the data. */
  function Body(f: FrameInner): seq<Byte> {
    [f.id.src, f.id.dst, f.id.cmd] + f.data
  }

  /** The wire image of one frame: `0x32, src, dst, cmd, data..., checksum, 0x34`. */
  function WireBytes(f: FrameInner): seq<Byte> {
    [FRAME_START] + Body(f) + [Checksum(Body(f)), FRAME_END]
  }

  function FrameBytes(tx: TxFrame): seq<Byte> {
    WireBytes(tx.Inner())
  }

  /** The wire image is 6 + S bytes long, with the markers at both ends, the identity at
      bytes 1..3, the data at bytes 4..4+S and the XOR of all of those just before the end. */
  lemma WireLayout(tx: TxFrame)
    ensures var w := FrameBytes(tx); var f := tx.Inner();
      && |w| == FrameSize(tx.Class())
      && w[0] == FRAME_START && w[|w| - 1] == FRAME_END
      && w[1] == f.id.src && w[2] == f.id.dst && w[3] == f.id.cmd
      && w[4..|w| - 2] == f.data
      && w[|w| - 2] == Checksum([f.id.src, f.id.dst, f.id.cmd] + f.data)
  {
    var w := FrameBytes(tx);
    assert w[4..|w| - 2] == tx.Inner().data;
  }

  /** `Encoder::encode` as written: the frame is appended to `dst`, but the checksum is taken
      over `dst[1..]`, i.e. over everything already in the buffer after its first byte. */
  function EncodeAsWritten(dst: seq<Byte>, tx: TxFrame): (out: seq<Byte>)
    ensures |out| == |dst| + |FrameBytes(tx)| && out[..|dst|] == dst
    ensures out[|dst|..|out| - 2] == FrameBytes(tx)[..|FrameBytes(tx)| - 2]
    ensures out[|out| - 1] == FRAME_END
  {
    var f := tx.Inner();
    var head := dst + [FRAME_START, f.id.src, f.id.dst, f.id.cmd] + f.data;
    head + [Checksum(head[1..]), FRAME_END]
  }

  /** The bytes the code as written emits: the buffer, the start marker, the body, the XOR of
      everything after the buffer's first byte, and the end marker. */
  lemma EncodeAsWrittenLayout(dst: seq<Byte>, tx: TxFrame)
    ensures var b := Body(tx.Inner());
      EncodeAsWritten(dst, tx) == dst + [FRAME_START] + b + [Checksum((dst + [FRAME_START] + b)[1..]), FRAME_END]
  {
    var f := tx.Inner();
    assert dst + [FRAME_START, f.id.src, f.id.dst, f.id.cmd] + f.data == dst + [FRAME_START] + Body(f);
  }

  /** Into an empty buffer the code as written emits exactly the wire image. */
  lemma EncodeAsWrittenIntoEmpty(tx: TxFrame)
    ensures EncodeAsWritten([], tx) == FrameBytes(tx)
  {
    var b := Body(tx.Inner());
    EncodeAsWrittenLayout([], tx);
    assert [] + [FRAME_START] + b == [FRAME_START] + b;
    assert ([FRAME_START] + b)[1..] == b;
  }

  /** The checksum the code as written computes behind a non-empty buffer. */
  lemma PendingChecksum(dst: seq<Byte>, b: seq<Byte>)
    requires dst != []
    ensures Checksum((dst + [FRAME_START] + b)[1..]) == (Checksum(dst[1..]) ^ FRAME_START) ^ Checksum(b)
  {
    assert (dst + [FRAME_START] + b)[1..] == dst[1..] + [FRAME_START] + b;
    ChecksumAppend(dst[1..] + [FRAME_START], b);
    ChecksumAppend(dst[1..], [FRAME_START]);
    ChecksumSingle(FRAME_START);
  }

  lemma XorCancels(x: Byte, y: Byte, c: Byte)
    ensures (x ^ y) ^ c == c <==> x == y
  {
  }

  /** Two frames' worth of bytes that differ only in the checksum position are equal exactly
      when the checksums are. */
  lemma SameButChecksum(p: seq<Byte>, c1: Byte, c2: Byte)
    ensures p + [c1, FRAME_END] == p + [c2, FRAME_END] <==> c1 == c2
  {
    if p + [c1, FRAME_END] == p + [c2, FRAME_END] {
      assert (p + [c1, FRAME_END])[|p|] == c1;
      assert (p + [c2, FRAME_END])[|p|] == c2;
    }
  }

  /** Into a non-empty buffer the code as written emits the wire image exactly when the bytes
      already there after the first one XOR to the start marker. */
  lemma EncodeAsWrittenFoldsPendingBytes(dst: seq<Byte>, tx: TxFrame)
    requires dst != []
    ensures EncodeAsWritten(dst, tx) == dst + FrameBytes(tx) <==> Checksum(dst[1..]) == FRAME_START
  {
    var b := Body(tx.Inner());
    var p := dst + [FRAME_START] + b;
    EncodeAsWrittenLayout(dst, tx);
    PendingChecksum(dst, b);
    assert dst + FrameBytes(tx) == p + [Checksum(b), FRAME_END];
    SameButChecksum(p, Checksum(p[1..]), Checksum(b));
    XorCancels(Checksum(dst[1..]), FRAME_START, Checksum(b));
  }

  /** A complete frame's bytes after its start marker XOR to the end marker. */
  lemma WireTailChecksum(f: FrameInner)
    ensures Checksum(WireBytes(f)[1..]) == FRAME_END
  {
    var b := Body(f);
    assert WireBytes(f)[1..] == b + [Checksum(b)] + [FRAME_END];
    ChecksumAppend(b + [Checksum(b)], [FRAME_END]);
    ChecksumAppend(b, [Checksum(b)]);
    ChecksumSingle(Checksum(b));
    ChecksumSingle(FRAME_END);
    XorSelfThen(Checksum(b), FRAME_END);
  }

  lemma XorSelfThen(x: Byte, y: Byte)
    ensures (x ^ x) ^ y == y
  {
  }

  /** A frame encoded as written behind a frame still pending in the buffer carries a checksum
      off by `0x32 ^ 0x34 == 0x06`, so it is not the wire image of the frame. */
  lemma PendingFrameSkewsChecksum(pending: TxFrame, tx: TxFrame)
    ensures var out := EncodeAsWritten(FrameBytes(pending), tx);
      && |out| == |FrameBytes(pending)| + |FrameBytes(tx)|
      && out[|out| - 2] == Checksum(Body(tx.Inner())) ^ 0x06
      && out != FrameBytes(pending) + FrameBytes(tx)
  {
    var d := FrameBytes(pending);
    var b := Body(tx.Inner());
    WireTailChecksum(pending.Inner());
    EncodeAsWrittenFoldsPendingBytes(d, tx);
    EncodeAsWrittenLayout(d, tx);
    PendingChecksum(d, b);
    SkewByEndMarker(Checksum(b));
  }

  lemma SkewByEndMarker(c: Byte)
    ensures (FRAME_END ^ FRAME_START) ^ c == c ^ 0x06
  {
  }

  // ---------------------------------------------------------------------------------------
  // Decoding

  /** The outcomes of `try_read_frame`. */
  datatype Framing =
    | BufferTooSmall
    | FrameStartNotFound
    | FrameEndNotFound
    | InvalidChecksum(expected: Byte, actual: Byte)
    | Framed(inner: FrameInner)
  {
    /** Whether `try_read_frame` split the candidate window off the buffer. */
    predicate Consumes() { InvalidChecksum? || Framed? }
  }

  /** `try_read_frame::<S>` on the buffer `buf`. */
  function TryReadFrame(buf: seq<Byte>, c: FrameClass): (r: Framing)
    ensures r.BufferTooSmall? <==> |buf| < FrameSize(c)
    ensures r.Consumes() ==> |buf| >= FrameSize(c) && buf[0] == FRAME_START && buf[FrameSize(c) - 1] == FRAME_END
    ensures r.Framed? ==> |r.inner.data| == DataSize(c) && buf[..FrameSize(c)] == WireBytes(r.inner)
  {
    var size := FrameSize(c);
    if |buf| < size then BufferTooSmall
    else if buf[0] != FRAME_START then FrameStartNotFound
    else if buf[size - 1] != FRAME_END then FrameEndNotFound
    else
      var body := buf[1..size - 2];
      var expected := Checksum(body);
      if expected != buf[size - 2] then InvalidChecksum(expected, buf[size - 2])
      else
        var f := FrameInner(FrameId(body[0], body[1], body[2]), body[3..]);
        assert Body(f) == body;
        assert buf[..size] == [FRAME_START] + body + [buf[size - 2], FRAME_END];
        Framed(f)
  }

  /** Fewer than 7 bytes, or a start marker whose short end position misses the end marker
      with fewer than 14 bytes: the decoder must wait for more input. */
  predicate NeedsMore(buf: seq<Byte>) {
    |buf| < 7 || (buf[0] == FRAME_START && buf[6] != FRAME_END && |buf| < 14)
  }

  /** The decoder drops the first byte: it is not a start marker, or both the short and the
      long end positions miss the end marker. */
  predicate Skips(buf: seq<Byte>) {
    !NeedsMore(buf) && (buf[0] != FRAME_START || (buf[6] != FRAME_END && buf[13] != FRAME_END))
  }

  /** One pass of the decode loop before any byte is dropped: the short candidate, and the
      long candidate only when the short one lacks its end marker. */
  function FirstMatch(buf: seq<Byte>): (r: (Framing, FrameClass))
    ensures r.0.Framed? ==> |r.0.inner.data| == DataSize(r.1)
    ensures r.0.Consumes() ==> |buf| >= FrameSize(r.1)
    ensures r.0.BufferTooSmall? <==> NeedsMore(buf)
    ensures (r.0.FrameStartNotFound? || r.0.FrameEndNotFound?) <==> Skips(buf)
  {
    var short := TryReadFrame(buf, Short);
    if short.FrameEndNotFound? then (TryReadFrame(buf, Long), Long) else (short, Short)
  }

  /** What one call of `decode` returns (`None` is "need more input") and what it leaves in
      the buffer. */
  datatype Decoded = Decoded(frame: Option<RxFrame>, rest: seq<Byte>)

  predicate IsSuffix(s: seq<Byte>, t: seq<Byte>) {
    |s| <= |t| && s == t[|t| - |s|..]
  }

  /** `Decoder::decode`, with a checksum mismatch reported as a corrupted frame whose window
      has been consumed (the code as written panics there: see `DecodeAsWritten`).
      The result leaves a suffix of the buffer; "need more input" is reported exactly when
      that suffix is too short for the candidate its first byte announces; any frame
      consumes a whole window of at least 7 bytes. */
  function DecodeFrame(buf: seq<Byte>): (r: Decoded)
    ensures IsSuffix(r.rest, buf)
    ensures r.frame.None? ==> NeedsMore(r.rest)
    ensures NeedsMore(buf) ==> r == Decoded(None, buf)
    ensures r.frame.Some? ==> |r.rest| + 7 <= |buf|
    ensures r.frame.Some? && r.frame.value.Corrupted? ==> r.frame.value == Corrupted([])
    decreases |buf|
  {
    var (res, c) := FirstMatch(buf);
    var size := FrameSize(c);
    match res
    case Framed(f) => Decoded(Some(if c == Long then RxLong(f) else RxShort(f)), buf[size..])
    case BufferTooSmall => Decoded(None, buf)
    case InvalidChecksum(_, _) => Decoded(Some(Corrupted([])), buf[size..])
    case _ => DecodeFrame(buf[1..])
  }

  /** Once the first byte is one the decoder drops, decoding the buffer is decoding its tail. */
  lemma SkipOneByte(buf: seq<Byte>)
    requires Skips(buf)
    ensures DecodeFrame(buf) == DecodeFrame(buf[1..])
  {
  }

  /** At offset `k` of `buf` starts a window with a checksum mismatch, and `rest` is what
      follows that window. */
  predicate BadChecksumAt(buf: seq<Byte>, k: nat, rest: seq<Byte>) {
    k < |buf| && FirstMatch(buf[k..]).0.InvalidChecksum?
    && rest == buf[k + FrameSize(FirstMatch(buf[k..]).1)..]
  }

  /** A corrupted result only comes from a checksum mismatch, and the window it reports has
      been split off: the buffer keeps what follows that window. */
  lemma {:induction false} CorruptedMeansBadChecksum(buf: seq<Byte>)
    requires DecodeFrame(buf).frame == Some(Corrupted([]))
    ensures exists k :: BadChecksumAt(buf, k, DecodeFrame(buf).rest)
    decreases |buf|
  {
    if FirstMatch(buf).0.InvalidChecksum? {
      assert buf[0..] == buf;
      assert BadChecksumAt(buf, 0, DecodeFrame(buf).rest);
    } else {
      SkipOneByte(buf);
      CorruptedMeansBadChecksum(buf[1..]);
      var k :| BadChecksumAt(buf[1..], k, DecodeFrame(buf[1..]).rest);
      BadChecksumBehindDroppedByte(buf, k, DecodeFrame(buf).rest);
    }
  }

  lemma BadChecksumBehindDroppedByte(buf: seq<Byte>, k: nat, rest: seq<Byte>)
    requires |buf| > 0 && BadChecksumAt(buf[1..], k, rest)
    ensures BadChecksumAt(buf, k + 1, rest)
  {
    assert buf[1..][k..] == buf[k + 1..];
  }

  /** The frame a well-formed received frame carries. */
  function Carried(rx: RxFrame): FrameInner
    requires !rx.Corrupted?
  {
    if rx.RxLong? then rx.long else rx.short
  }

  /** `buf` is some dropped bytes, then the wire image of `f`, then `rest`. */
  ghost predicate IsWindow(buf: seq<Byte>, f: FrameInner, rest: seq<Byte>) {
    exists skipped :: buf == skipped + WireBytes(f) + rest
  }

  /** A well-formed frame is read from a window of the buffer that is exactly its wire image:
      the buffer is the dropped bytes, the 6 + S bytes of the frame, and what is left. */
  lemma {:induction false} DecodedFrameIsWindow(buf: seq<Byte>)
    requires DecodeFrame(buf).frame.Some? && !DecodeFrame(buf).frame.value.Corrupted?
    ensures IsWindow(buf, Carried(DecodeFrame(buf).frame.value), DecodeFrame(buf).rest)
    decreases |buf|
  {
    if FirstMatch(buf).0.Framed? {
      FramedAtFront(buf);
    } else {
      DecodedFrameIsWindow(buf[1..]);
      WindowBehindDroppedByte(buf, Carried(DecodeFrame(buf).frame.value), DecodeFrame(buf).rest);
    }
  }

  lemma FramedAtFront(buf: seq<Byte>)
    requires FirstMatch(buf).0.Framed?
    ensures DecodeFrame(buf).frame.Some? && !DecodeFrame(buf).frame.value.Corrupted?
    ensures IsWindow(buf, Carried(DecodeFrame(buf).frame.value), DecodeFrame(buf).rest)
  {
    var size := FrameSize(FirstMatch(buf).1);
    assert buf == [] + buf[..size] + buf[size..];
  }

  lemma WindowBehindDroppedByte(buf: seq<Byte>, f: FrameInner, rest: seq<Byte>)
    requires buf != [] && IsWindow(buf[1..], f, rest)
    ensures IsWindow(buf, f, rest)
  {
    var skipped :| buf[1..] == skipped + WireBytes(f) + rest;
    assert buf == [buf[0]] + skipped + WireBytes(f) + rest;
  }

  /** Bytes that are not a start marker are dropped one by one, as long as a whole short
      window remains behind them. */
  lemma {:induction false} JunkIsSkipped(junk: seq<Byte>, tail: seq<Byte>)
    requires forall i :: 0 <= i < |junk| ==> junk[i] != FRAME_START
    requires |tail| >= 7
    ensures DecodeFrame(junk + tail) == DecodeFrame(tail)
    decreases |junk|
  {
    if junk != [] {
      var buf := junk + tail;
      assert buf[0] == junk[0];
      assert Skips(buf);
      SkipOneByte(buf);
      assert buf[1..] == junk[1..] + tail;
      JunkIsSkipped(junk[1..], tail);
    } else {
      assert junk + tail == tail;
    }
  }

  /** Round trip: the wire image of a short frame, or of a long frame whose `data[2]` (byte 6
      of the image) is not the end marker, decodes to that frame and leaves whatever follows. */
  lemma RoundTrip(tx: TxFrame, tail: seq<Byte>)
    requires tx.TxShort? || tx.long.data[2] != FRAME_END
    ensures DecodeFrame(FrameBytes(tx) + tail) == Decoded(Some(ToRx(tx)), tail)
  {
    var buf := FrameBytes(tx) + tail;
    FirstMatchOfWireImage(tx, tail);
    assert buf[FrameSize(tx.Class())..] == tail;
  }

  /** The wire image of a round-tripping frame is framed on the first pass, in its own class. */
  lemma FirstMatchOfWireImage(tx: TxFrame, tail: seq<Byte>)
    requires tx.TxShort? || tx.long.data[2] != FRAME_END
    ensures FirstMatch(FrameBytes(tx) + tail) == (Framed(tx.Inner()), tx.Class())
  {
    var f := tx.Inner();
    var w := FrameBytes(tx);
    var buf := w + tail;
    WireLayout(tx);
    var size := FrameSize(tx.Class());
    assert buf[..size] == w;
    assert buf[1..size - 2] == Body(f);
    assert TryReadFrame(buf, tx.Class()) == Framed(f);
    if tx.TxLong? {
      assert buf[6] == f.data[2];
      assert TryReadFrame(buf, Short) == FrameEndNotFound;
    }
  }

  /** A long frame followed by a short one (or any two round-tripping frames) decodes to the
      two frames in order, neither mistaken for the other size class. */
  lemma TwoFramesInOrder(a: TxFrame, b: TxFrame)
    requires a.TxShort? || a.long.data[2] != FRAME_END
    requires b.TxShort? || b.long.data[2] != FRAME_END
    ensures DecodeFrame(FrameBytes(a) + FrameBytes(b)) == Decoded(Some(ToRx(a)), FrameBytes(b))
    ensures DecodeFrame(FrameBytes(b)) == Decoded(Some(ToRx(b)), [])
  {
    RoundTrip(a, FrameBytes(b));
    RoundTrip(b, []);
    assert FrameBytes(b) + [] == FrameBytes(b);
  }

  /** Any number of junk bytes without a start marker in front of a round-tripping frame
      decode to exactly that frame. */
  lemma JunkThenFrame(junk: seq<Byte>, tx: TxFrame)
    requires forall i :: 0 <= i < |junk| ==> junk[i] != FRAME_START
    requires tx.TxShort? || tx.long.data[2] != FRAME_END
    ensures DecodeFrame(junk + FrameBytes(tx)) == Decoded(Some(ToRx(tx)), [])
  {
    WireLayout(tx);
    JunkIsSkipped(junk, FrameBytes(tx));
    RoundTrip(tx, []);
    assert FrameBytes(tx) + [] == FrameBytes(tx);
  }

  /** A long frame whose `data[2]` is the end marker does not round-trip: its first seven bytes
      are taken as a short candidate, which yields a short frame or a corrupted one. */
  lemma LongFrameWithEndMarkerAtByte6(tx: TxFrame)
    requires tx.TxLong? && tx.long.data[2] == FRAME_END
    ensures var r := DecodeFrame(FrameBytes(tx)).frame;
      r.Some? && (r.value.RxShort? || r.value.Corrupted?) && r != Some(ToRx(tx))
  {
    var w := FrameBytes(tx);
    WireLayout(tx);
    assert w[6] == tx.long.data[2];
    var short := TryReadFrame(w, Short);
    assert short.Consumes();
  }

  /** A frame whose checksum byte was damaged is reported as corrupted, and decoding resumes
      right behind its window. */
  lemma DamagedChecksumIsSkipped(tx: TxFrame, m: Byte, tail: seq<Byte>)
    requires tx.TxShort? || tx.long.data[2] != FRAME_END
    requires m != 0
    ensures var w := FrameBytes(tx); var bad := w[|w| - 2 := w[|w| - 2] ^ m];
      DecodeFrame(bad + tail) == Decoded(Some(Corrupted([])), tail)
  {
    var w := FrameBytes(tx);
    var c := Checksum(Body(tx.Inner()));
    ChecksumPosition(tx);
    XorFlipDiffers(c, m);
    WrongChecksumIsSkipped(tx, c ^ m, tail);
  }

  lemma ChecksumPosition(tx: TxFrame)
    ensures |FrameBytes(tx)| >= 2 && FrameBytes(tx)[|FrameBytes(tx)| - 2] == Checksum(Body(tx.Inner()))
  {
  }

  /** The same with any byte other than the checksum in the checksum position. */
  lemma WrongChecksumIsSkipped(tx: TxFrame, x: Byte, tail: seq<Byte>)
    requires tx.TxShort? || tx.long.data[2] != FRAME_END
    requires x != Checksum(Body(tx.Inner()))
    ensures var w := FrameBytes(tx);
      DecodeFrame(w[|w| - 2 := x] + tail) == Decoded(Some(Corrupted([])), tail)
  {
    var w := FrameBytes(tx);
    var f := tx.Inner();
    var buf := w[|w| - 2 := x] + tail;
    DamagedLayout(tx, x, tail);
    assert TryReadFrame(buf, tx.Class()).InvalidChecksum?;
    if tx.TxLong? {
      assert TryReadFrame(buf, Short) == FrameEndNotFound;
    }
  }

  /** The bytes of a frame whose checksum byte is replaced by `x`. */
  lemma DamagedLayout(tx: TxFrame, x: Byte, tail: seq<Byte>)
    ensures var w := FrameBytes(tx); var buf := w[|w| - 2 := x] + tail;
      var size := FrameSize(tx.Class()); var f := tx.Inner();
      && |buf| >= size && buf[0] == FRAME_START && buf[size - 1] == FRAME_END
      && buf[1..size - 2] == Body(f) && buf[size - 2] == x
      && buf[size..] == tail
      && (tx.TxLong? ==> buf[6] == f.data[2])
  {
    var w := FrameBytes(tx);
    var f := tx.Inner();
    WireLayout(tx);
    var buf := w[|w| - 2 := x] + tail;
    var size := FrameSize(tx.Class());
    assert buf[1..size - 2] == w[1..size - 2];
    assert w[1..size - 2] == Body(f);
  }

  /** What the decoder as written does: the same as `DecodeFrame`, except that a checksum
      mismatch reaches `todo!()` and panics. */
  datatype AsWritten = Panicked | Returned(d: Decoded)

  function DecodeAsWritten(buf: seq<Byte>): (r: AsWritten)
    ensures r.Returned? ==> r.d == DecodeFrame(buf)
    ensures r.Returned? && r.d.frame.Some? ==> !r.d.frame.value.Corrupted?
    ensures r.Panicked? ==> exists k :: BadChecksumAt(buf, k, DecodeFrame(buf).rest)
  {
    var d := DecodeFrame(buf);
    if d.frame.Some? && d.frame.value.Corrupted? then
      CorruptedMeansBadChecksum(buf);
      Panicked
    else Returned(d)
  }

  /** A short frame with a wrong checksum makes the decoder as written panic, where the
      corrected decoder reports it as corrupted and keeps the stream. */
  lemma BadChecksumPanicsAsWritten()
    ensures DecodeAsWritten([0x32, 0x84, 0xeb, 0xf9, 0x00, 0x97, 0x34]) == Panicked
    ensures DecodeFrame([0x32, 0x84, 0xeb, 0xf9, 0x00, 0x97, 0x34]) == Decoded(Some(Corrupted([])), [])
  {
    var good: TxFrame := TxShort(FrameInner(FrameId(0x84, 0xeb, 0xf9), [0x00]));
    ValidShortVectorIsWireImage();
    DamagedChecksumIsSkipped(good, 0x01, []);
    assert FrameBytes(good)[5 := FrameBytes(good)[5] ^ 0x01] + [] == [0x32, 0x84, 0xeb, 0xf9, 0x00, 0x97, 0x34];
  }

  // ---------------------------------------------------------------------------------------
  // The byte sequences of the codec's own tests

  lemma ValidShortVectorIsWireImage()
    ensures FrameBytes(TxShort(FrameInner(FrameId(0x84, 0xeb, 0xf9), [0x00])))
         == [0x32, 0x84, 0xeb, 0xf9, 0x00, 0x96, 0x34]
  {
    ChecksumOfFour(0x84, 0xeb, 0xf9, 0x00);
    var f := FrameInner(FrameId(0x84, 0xeb, 0xf9), [0x00]);
    assert Body(f) == [0x84, 0xeb, 0xf9, 0x00];
    WireWithChecksum(f, 0x96);
  }

  function LongVectorFrame(): TxFrame {
    TxLong(FrameInner(FrameId(0x20, 0x84, 0x52), [0x4b, 0x4c, 0x63, 0xf8, 0x81, 0x10, 0x00, 0x6f]))
  }

  lemma ValidLongVectorIsWireImage()
    ensures FrameBytes(LongVectorFrame()) == LongVectorBytes()
  {
    var f := LongVectorFrame().Inner();
    LongVectorBody();
    LongVectorChecksum();
    WireWithChecksum(f, 0x94);
    LongVectorConcat();
  }

  lemma LongVectorBody()
    ensures Body(LongVectorFrame().Inner()) == [0x20, 0x84, 0x52, 0x4b, 0x4c, 0x63, 0xf8, 0x81, 0x10, 0x00, 0x6f]
  {
  }

  lemma LongVectorConcat()
    ensures [FRAME_START] + [0x20, 0x84, 0x52, 0x4b, 0x4c, 0x63, 0xf8, 0x81, 0x10, 0x00, 0x6f] + [0x94, FRAME_END]
         == LongVectorBytes()
  {
  }

  lemma WireWithChecksum(f: FrameInner, c: Byte)
    requires Checksum(Body(f)) == c
    ensures WireBytes(f) == [FRAME_START] + Body(f) + [c, FRAME_END]
  {
  }

  lemma LongVectorChecksum()
    ensures Checksum([0x20, 0x84, 0x52, 0x4b, 0x4c, 0x63, 0xf8, 0x81, 0x10, 0x00, 0x6f]) == 0x94
  {
    var p: seq<Byte> := [0x20, 0x84, 0x52, 0x4b];
    var q: seq<Byte> := [0x4c, 0x63, 0xf8, 0x81];
    var r: seq<Byte> := [0x10, 0x00, 0x6f, 0x00];
    var b: seq<Byte> := [0x20, 0x84, 0x52, 0x4b, 0x4c, 0x63, 0xf8, 0x81, 0x10, 0x00, 0x6f];
    ChecksumOfFour(0x20, 0x84, 0x52, 0x4b);
    ChecksumOfFour(0x4c, 0x63, 0xf8, 0x81);
    ChecksumOfFour(0x10, 0x00, 0x6f, 0x00);
    assert Checksum(p) == 0xbd && Checksum(q) == 0x56 && Checksum(r) == 0x7f;
    ChecksumOfTwelve(p, q, r);
    assert p + q + r == b + [0x00];
    ChecksumPadded(b);
  }

  lemma ChecksumPadded(b: seq<Byte>)
    ensures Checksum(b + [0]) == Checksum(b)
  {
    ChecksumAppend(b, [0]);
    ChecksumSingle(0);
  }

  lemma ChecksumOfTwelve(p: seq<Byte>, q: seq<Byte>, r: seq<Byte>)
    ensures Checksum(p + q + r) == Checksum(p) ^ Checksum(q) ^ Checksum(r)
  {
    ChecksumAppend(p + q, r);
    ChecksumAppend(p, q);
  }

  lemma ChecksumOfFour(a: Byte, b: Byte, c: Byte, d: Byte)
    ensures Checksum([a, b, c, d]) == a ^ b ^ c ^ d
  {
    ChecksumNested(a, b, c, d);
    XorFour(a, b, c, d);
  }

  lemma ChecksumNested(a: Byte, b: Byte, c: Byte, d: Byte)
    ensures Checksum([a, b, c, d]) == a ^ (b ^ (c ^ d))
  {
    assert [a, b, c, d][1..] == [b, c, d];
    assert [b, c, d][1..] == [c, d];
    assert [c, d][1..] == [d];
    ChecksumCons([a, b, c, d]);
    ChecksumCons([b, c, d]);
    ChecksumCons([c, d]);
    ChecksumSingle(d);
  }

  lemma XorFour(a: Byte, b: Byte, c: Byte, d: Byte)
    ensures a ^ (b ^ (c ^ d)) == a ^ b ^ c ^ d
  {
  }

  /** The codec's decode test of the valid short vector. */
  lemma ShortVectorDecodes()
    ensures DecodeFrame([0x32, 0x84, 0xeb, 0xf9, 0x00, 0x96, 0x34])
         == Decoded(Some(RxShort(FrameInner(FrameId(0x84, 0xeb, 0xf9), [0x00]))), [])
  {
    var short: TxFrame := TxShort(FrameInner(FrameId(0x84, 0xeb, 0xf9), [0x00]));
    ValidShortVectorIsWireImage();
    RoundTrip(short, []);
    assert FrameBytes(short) + [] == FrameBytes(short);
  }

  /** The codec's decode test of two short vectors back to back: the first is read and the
      second is left in the buffer. */
  lemma TwoShortVectorsDecodeInOrder()
    ensures var s := [0x32, 0x84, 0xeb, 0xf9, 0x00, 0x96, 0x34];
      DecodeFrame(s + s) == Decoded(Some(RxShort(FrameInner(FrameId(0x84, 0xeb, 0xf9), [0x00]))), s)
  {
    var short: TxFrame := TxShort(FrameInner(FrameId(0x84, 0xeb, 0xf9), [0x00]));
    ValidShortVectorIsWireImage();
    RoundTrip(short, FrameBytes(short));
  }

  /** The codec's decode test of the valid long vector. */
  lemma LongVectorDecodes()
    ensures DecodeFrame(LongVectorBytes()) == Decoded(Some(ToRx(LongVectorFrame())), [])
  {
    var l := LongVectorFrame();
    ValidLongVectorIsWireImage();
    RoundTrip(l, []);
    assert FrameBytes(l) + [] == FrameBytes(l);
  }

  /** The codec's decode test with junk in front of the long vector: 0x01 and 0x02 are
      dropped, and so is each 0x32, since neither its short nor its long end position holds
      the end marker. */
  lemma JunkBeforeLongVectorIsSkipped()
    ensures DecodeFrame([0x01, 0x02, 0x32, 0x01, 0x02, 0x32] + LongVectorBytes())
         == Decoded(Some(ToRx(LongVectorFrame())), [])
  {
    JunkStep1();
    JunkStep2();
    JunkStep3();
    LongVectorDecodes();
  }

  lemma JunkStep1()
    ensures DecodeFrame([0x01, 0x02, 0x32, 0x01, 0x02, 0x32] + LongVectorBytes())
         == DecodeFrame([0x32, 0x01, 0x02, 0x32] + LongVectorBytes())
  {
    var w := LongVectorBytes();
    SkipJunkPair(0x01, 0x02, [0x32, 0x01, 0x02, 0x32] + w);
    assert [0x01, 0x02] + ([0x32, 0x01, 0x02, 0x32] + w) == [0x01, 0x02, 0x32, 0x01, 0x02, 0x32] + w;
  }

  lemma JunkStep2()
    ensures DecodeFrame([0x32, 0x01, 0x02, 0x32] + LongVectorBytes()) == DecodeFrame([0x02, 0x32] + LongVectorBytes())
  {
    var w := LongVectorBytes();
    var b := [0x32, 0x01] + ([0x02, 0x32] + w);
    assert b == [0x32, 0x01, 0x02, 0x32] + w;
    assert |b| == 18 && b[6] == w[2] == 0x84 && b[13] == w[9] == 0x10;
    assert [0x01] + ([0x02, 0x32] + w) == [0x01, 0x02, 0x32] + w;
    SkipJunkPair(0x32, 0x01, [0x02, 0x32] + w);
  }

  lemma JunkStep3()
    ensures DecodeFrame([0x02, 0x32] + LongVectorBytes()) == DecodeFrame(LongVectorBytes())
  {
    SkipJunkPair(0x02, 0x32, LongVectorBytes());
  }

  function LongVectorBytes(): seq<Byte> {
    [0x32, 0x20, 0x84, 0x52, 0x4b, 0x4c, 0x63, 0xf8, 0x81, 0x10, 0x00, 0x6f, 0x94, 0x34]
  }

  lemma SkipJunkPair(x: Byte, y: Byte, rest: seq<Byte>)
    requires Skips([x, y] + rest) && Skips([y] + rest)
    ensures DecodeFrame([x, y] + rest) == DecodeFrame(rest)
  {
    SkipJunkByte(x, [y] + rest);
    assert [x] + ([y] + rest) == [x, y] + rest;
    SkipJunkByte(y, rest);
  }

  lemma SkipJunkByte(x: Byte, rest: seq<Byte>)
    requires Skips([x] + rest)
    ensures DecodeFrame([x] + rest) == DecodeFrame(rest)
  {
    SkipOneByte([x] + rest);
    assert ([x] + rest)[1..] == rest;
  }

  // ---------------------------------------------------------------------------------------
  // The codec object

  /** A growable byte buffer (`BytesMut`) that the decoder consumes from the front and the
      encoder appends to. */
  class ByteBuffer {
    var bytes: seq<Byte>

    constructor (init: seq<Byte>)
      ensures bytes == init
    {
      bytes := init;
    }

    /** `try_read_frame::<S>`: on a frame or a checksum mismatch the candidate window has
        already been split off the buffer. */
    method TryRead(c: FrameClass) returns (r: Framing)
      modifies this
      ensures r == TryReadFrame(old(bytes), c)
      ensures bytes == if r.Consumes() then old(bytes)[FrameSize(c)..] else old(bytes)
    {
      r := TryReadFrame(bytes, c);
      if r.Consumes() {
        bytes := bytes[FrameSize(c)..];
      }
    }
  }

  /** `WrcBusProtocolCodec`: the decoder and encoder, with the times of the last frame received
      and sent (the clock is a parameter, in milliseconds). */
  class FrameCodec {
    const startTime: nat
    var lastRxTime: Option<nat>
    var lastTxTime: Option<nat>
    var lastTxRxTime: Option<nat>

    constructor (now: nat)
      ensures startTime == now
      ensures lastRxTime == None && lastTxTime == None && lastTxRxTime == None
    {
      startTime := now;
      lastRxTime, lastTxTime, lastTxRxTime := None, None, None;
    }

    /** `Decoder::decode`: loops until a frame is read or more input is needed, dropping one
        byte per pass that finds no candidate. A well-formed frame stamps the receive times. */
    method Decode(src: ByteBuffer, now: nat) returns (frame: Option<RxFrame>)
      modifies this, src
      ensures Decoded(frame, src.bytes) == DecodeFrame(old(src.bytes))
      ensures frame.Some? && !frame.value.Corrupted? ==> lastRxTime == Some(now) && lastTxRxTime == Some(now)
      ensures !(frame.Some? && !frame.value.Corrupted?) ==>
        lastRxTime == old(lastRxTime) && lastTxRxTime == old(lastTxRxTime)
      ensures lastTxTime == old(lastTxTime)
    {
      while true
        invariant DecodeFrame(src.bytes) == DecodeFrame(old(src.bytes))
        invariant lastRxTime == old(lastRxTime) && lastTxRxTime == old(lastTxRxTime)
        invariant lastTxTime == old(lastTxTime)
        decreases |src.bytes|
      {
        ghost var before := src.bytes;
        var c := Short;
        var r := src.TryRead(Short);
        if r.FrameEndNotFound? {
          c := Long;
          r := src.TryRead(Long);
        }
        assert (r, c) == FirstMatch(before);
        match r {
          case Framed(f) =>
            lastRxTime := Some(now);
            lastTxRxTime := Some(now);
            return Some(if c == Long then RxLong(f) else RxShort(f));
          case BufferTooSmall =>
            return None;
          case InvalidChecksum(_, _) =>
            return Some(Corrupted([]));
          case _ =>
            src.bytes := src.bytes[1..];
        }
      }
    }

    /** `Encoder::encode` as written: the checksum is taken over `dst[1..]`, so the frame's
        wire image is appended only when `dst` starts empty (or its pending bytes happen to
        cancel out: see `EncodeAsWrittenFoldsPendingBytes`). Stamps the send times. */
    method Encode(tx: TxFrame, dst: ByteBuffer, now: nat)
      modifies this, dst
      ensures dst.bytes == EncodeAsWritten(old(dst.bytes), tx)
      ensures old(dst.bytes) == [] ==> dst.bytes == FrameBytes(tx)
      ensures lastTxTime == Some(now) && lastTxRxTime == Some(now)
      ensures lastRxTime == old(lastRxTime)
    {
      var f := tx.Inner();
      dst.bytes := dst.bytes + [FRAME_START, f.id.src, f.id.dst, f.id.cmd] + f.data;
      var checksum := Checksum(dst.bytes[1..]);
      dst.bytes := dst.bytes + [checksum, FRAME_END];
      if old(dst.bytes) == [] {
        EncodeAsWrittenIntoEmpty(tx);
      }
      lastTxTime := Some(now);
      lastTxRxTime := Some(now);
    }
  }
}
