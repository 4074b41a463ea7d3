/** `hqAdjustedLuminaPrice`: the reference vendor price of the hovered item,
    read from the item sheet and raised by a tenth for high-quality items.
    The sheet is a parameter: `priceLow` maps a row id to its `PriceLow`. */
module ReferencePrice {
  import opened Numerals

  /** High-quality items are reported with this offset added to their id. */
  const HqOffset: nat := 1_000_000

  predicate IsHqEncoded(id: nat) {
    HqOffset <= id < 1_500_000
  }

  /** The six id ranges of materia that the sheet prices as if high-quality
      (tiers I-V, VI, VII, VIII, IX-X and XI-XII). */
  predicate IsMateria(id: nat) {
    || 5604 <= id <= 5723
    || 18006 <= id <= 18029
    || 25186 <= id <= 25198
    || 26727 <= id <= 26739
    || 33917 <= id <= 33942
    || 41757 <= id <= 41782
  }

  /** `Math.Ceiling(p / 10)`: exact on integers, since `PriceLow` is one. */
  function TenthRoundedUp(p: nat): (c: nat)
    ensures 10 * c - 9 <= p <= 10 * c
  {
    (p + 9) / 10
  }

  /** The `(uint)` cast of the sheet key: the low 32 bits. */
  function RowKey(id: nat): (key: uint32) {
    id % UintLimit
  }

  /** Lines 114-134. */
  function HqAdjustedPrice(itemId: uint64, priceLow: uint32 -> uint32): (r: nat)
    ensures IsHqEncoded(itemId) ==>
              var base := priceLow(itemId - HqOffset);
              r >= base && 10 * (r - base) - 9 <= base <= 10 * (r - base)
    ensures !IsHqEncoded(itemId) && IsMateria(itemId) ==>
              var base := priceLow(itemId);
              r >= base && 10 * (r - base) - 9 <= base <= 10 * (r - base)
    ensures !IsHqEncoded(itemId) && !IsMateria(itemId) ==> r == priceLow(RowKey(itemId))
  {
    var hq := IsHqEncoded(itemId) || IsMateria(itemId);
    var key := if IsHqEncoded(itemId) then itemId - HqOffset else itemId;
    var base := priceLow(RowKey(key));
    if hq then base + TenthRoundedUp(base) else base
  }

  /** An id in the high-quality band is priced as its base id with the
      surcharge, whether or not the base id is itself a materia. */
  lemma HqBandMatchesBaseId(itemId: uint64, priceLow: uint32 -> uint32)
    requires IsHqEncoded(itemId)
    ensures var plain := HqAdjustedPrice(itemId - HqOffset, priceLow);
            var base := priceLow(itemId - HqOffset);
            && (!IsMateria(itemId - HqOffset) ==>
                  HqAdjustedPrice(itemId, priceLow) == plain + TenthRoundedUp(plain))
            && (IsMateria(itemId - HqOffset) ==> HqAdjustedPrice(itemId, priceLow) == plain)
            && HqAdjustedPrice(itemId, priceLow) == base + TenthRoundedUp(base)
  {
  }

  /** The adjustment never lowers the sheet price and adds at most a tenth,
      rounded up. */
  lemma AdjustmentBounds(itemId: uint64, priceLow: uint32 -> uint32)
    ensures var key := if IsHqEncoded(itemId) then itemId - HqOffset else itemId;
            var base := priceLow(RowKey(key));
            base <= HqAdjustedPrice(itemId, priceLow) <= base + (base + 9) / 10
  {
  }

  /** The materia ranges lie below the high-quality band, so the two rules
      never compete. */
  lemma MateriaBelowHqBand(id: nat)
    requires IsMateria(id)
    ensures !IsHqEncoded(id) && id < HqOffset
  {
  }

  /** Strength Materia id 5700, an example from tier I-V, is surcharged. */
  lemma MateriaExample(priceLow: uint32 -> uint32)
    ensures HqAdjustedPrice(5700, priceLow) == priceLow(5700) + (priceLow(5700) + 9) / 10
  {
  }

  /** A surcharge of a tenth rounded up: 33 becomes 37, 100 becomes 110. */
  lemma SurchargeExamples()
    ensures 33 + TenthRoundedUp(33) == 37
    ensures 100 + TenthRoundedUp(100) == 110
  {
  }
}
