/**
 * The size tiers of the analysis request: the instructions sent upstream
 * ask for a graph whose size bounds depend only on whether the (sanitised)
 * article is longer than 5000 code units.
 */
module Tiers {
  /** The bounds the instructions ask for: nodes, level-1 claims, level-2 claims and phases. */
  datatype Tier = Tier(
    nodeMin: nat, nodeMax: nat,
    mainMin: nat, mainMax: nat,
    subMin: nat,
    phaseMin: nat, phaseMax: nat)

  /** Articles longer than this many code units get the long tier. */
  const LongThreshold: nat := 5000

  const ShortTier: Tier := Tier(6, 15, 3, 5, 3, 2, 4)
  const LongTier: Tier := Tier(15, 25, 5, 8, 8, 3, 6)

  /** Every lower bound is at most the matching upper bound. */
  predicate Consistent(t: Tier)
  {
    t.nodeMin <= t.nodeMax && t.mainMin <= t.mainMax && t.phaseMin <= t.phaseMax
    && t.mainMin <= t.nodeMin
  }

  /** Every bound of `a` is at most the matching bound of `b`. */
  predicate NoLarger(a: Tier, b: Tier)
  {
    a.nodeMin <= b.nodeMin && a.nodeMax <= b.nodeMax && a.mainMin <= b.mainMin && a.mainMax <= b.mainMax
    && a.subMin <= b.subMin && a.phaseMin <= b.phaseMin && a.phaseMax <= b.phaseMax
  }

  /**
   * The tier for an article of `charCount` units: long exactly when the
   * count exceeds 5000 (so 5000 itself is short), and its bounds are
   * consistent.
   */
  function TierFor(charCount: nat): (t: Tier)
    ensures t == LongTier <==> charCount > LongThreshold
    ensures t == ShortTier <==> charCount <= LongThreshold
    ensures Consistent(t)
  {
    var isLong := charCount > LongThreshold;
    Tier(
      if isLong then 15 else 6, if isLong then 25 else 15,
      if isLong then 5 else 3, if isLong then 8 else 5,
      if isLong then 8 else 3,
      if isLong then 3 else 2, if isLong then 6 else 4)
  }

  /** A longer article never gets smaller bounds. */
  lemma TierMonotone(a: nat, b: nat)
    requires a <= b
    ensures NoLarger(TierFor(a), TierFor(b))
  {
  }
}
