/** The address plan of the bus: two unit ranges and five special addresses. */
module Addresses {
  import opened Bytes

  const INDOOR_UNIT_FIRST: Byte := 0x20
  const INDOOR_UNIT_LAST: Byte := 0x3f

  const ERV_FIRST: Byte := 0x50
  const ERV_LAST: Byte := 0x6f

  const MAIN_WRC: Byte := 0x84
  const SUB_WRC: Byte := 0x85

  const BROADCAST: Byte := 0xad
  const ENUMERATION_BROADCAST: Byte := 0xc9
  /** Address the main WRC uses for tracking broadcasts. */
  const TRACKING_BROADCAST: Byte := 0xeb

  predicate IsIndoorUnit(a: Byte) {
    INDOOR_UNIT_FIRST <= a <= INDOOR_UNIT_LAST
  }

  predicate IsErv(a: Byte) {
    ERV_FIRST <= a <= ERV_LAST
  }

  function Specials(): seq<Byte> {
    [MAIN_WRC, SUB_WRC, BROADCAST, ENUMERATION_BROADCAST, TRACKING_BROADCAST]
  }

  /** Each unit range holds 32 addresses: an address is in a range exactly when its offset
      from the range's first address, with `u8` wrap-around, is below 32. */
  lemma RangesSpan32(a: Byte)
    ensures IsIndoorUnit(a) <==> a - INDOOR_UNIT_FIRST < 32
    ensures IsErv(a) <==> a - ERV_FIRST < 32
  {
  }

  lemma RangesDisjoint(a: Byte)
    ensures !(IsIndoorUnit(a) && IsErv(a))
  {
  }

  /** The five special addresses are pairwise distinct and lie in neither unit range. */
  lemma SpecialsDistinctAndOutsideRanges()
    ensures forall i, j :: 0 <= i < j < |Specials()| ==> Specials()[i] != Specials()[j]
    ensures forall i :: 0 <= i < |Specials()| ==> !IsIndoorUnit(Specials()[i]) && !IsErv(Specials()[i])
  {
  }

  /** The frame markers 0x32 and 0x34 are themselves indoor-unit addresses, so a marker byte
      can occur inside a frame. */
  lemma MarkersAreIndoorUnitAddresses()
    ensures IsIndoorUnit(0x32) && IsIndoorUnit(0x34)
  {
  }
}
