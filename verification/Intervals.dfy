/** Addresses, their limits, and half-open intervals of them as finite sets, for counting bytes. */
module Intervals {

  const GLOBAL_MASK: nat := 0xFFFF_FFFF_FFFF
  const UINT64_MAX: nat := 0xFFFF_FFFF_FFFF_FFFF

  function Min(a: nat, b: nat): nat { if a < b then a else b }
  function Max(a: nat, b: nat): nat { if a < b then b else a }

  ghost function Interval(lo: nat, hi: nat): (s: set<nat>)
    ensures forall a :: a in s <==> lo <= a < hi
    ensures |s| == if lo <= hi then hi - lo else 0
    decreases hi
  {
    if lo < hi then Interval(lo, hi - 1) + {hi - 1} else {}
  }

  /** Adding a whole interval to a set of smaller addresses. */
  lemma AddRun(s: set<nat>, lo: nat, hi: nat)
    requires lo <= hi && forall a <- s :: a < lo
    ensures |s + Interval(lo, hi)| == |s| + (hi - lo)
  {
    assert s !! Interval(lo, hi);
  }
}
