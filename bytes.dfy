/** Bytes as they travel on the bus: eight-bit words with the XOR and masking of Rust's `u8`. */
module Bytes {
  type Byte = bv8

  /** `[0x00; n]` */
  function Zeros(n: nat): (z: seq<Byte>)
    ensures |z| == n
    ensures forall i :: 0 <= i < n ==> z[i] == 0
  {
    if n == 0 then [] else Zeros(n - 1) + [0]
  }

  predicate AllZero(s: seq<Byte>) {
    forall i :: 0 <= i < |s| ==> s[i] == 0
  }

  /** A sequence is all zeros exactly when it is `[0x00; n]`. */
  lemma AllZeroIsZeros(s: seq<Byte>)
    ensures AllZero(s) <==> s == Zeros(|s|)
  {
  }

  /** A `bool` field occupying the single bit `mask` of a byte. */
  function Flag(b: bool, mask: Byte): Byte {
    if b then mask else 0
  }

  predicate HasFlag(x: Byte, mask: Byte) {
    x & mask != 0
  }

  // The msb0 bit numbering of the payload layouts, as a reference: bit 0 is the most
  // significant bit of byte 0, bit 8 the most significant bit of byte 1, and so on.

  /** `x >> s`, written out for each shift so that no conversion to `bv8` is needed. */
  function Shift(x: Byte, s: nat): Byte
    requires s < 8
  {
    if s == 0 then x else if s == 1 then x >> 1 else if s == 2 then x >> 2
    else if s == 3 then x >> 3 else if s == 4 then x >> 4 else if s == 5 then x >> 5
    else if s == 6 then x >> 6 else x >> 7
  }

  /** Bit `k` of `d` in msb0 numbering, as 0 or 1: bit `7 - k % 8` of byte `k / 8`. */
  function BitValue(d: seq<Byte>, k: nat): Byte
    requires k < 8 * |d|
  {
    Shift(d[k / 8], 7 - k % 8) & 1
  }

  predicate BitAt(d: seq<Byte>, k: nat)
    requires k < 8 * |d|
  {
    BitValue(d, k) == 1
  }

  /** The unsigned value of the `len` bits starting at msb0 bit `first`, most significant
      bit first. */
  function FieldBits(d: seq<Byte>, first: nat, len: nat): Byte
    requires len <= 8 && first + len <= 8 * |d|
  {
    if len == 0 then 0 else (FieldBits(d, first, len - 1) << 1) | BitValue(d, first + len - 1)
  }
}
