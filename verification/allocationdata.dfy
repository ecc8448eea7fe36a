/**
 * AllocationData: the cost record the analyzer attaches to traces and
 * allocation sites, with its componentwise arithmetic and its comparison.
 */
module AllocationData {
  /** Five counters: allocations, temporary allocations, leaked bytes, peak bytes and leaked bytes in RAM. */
  datatype Cost = Cost(allocations: int, temporary: int, leaked: int, peak: int, inRam: int)

  /** clearCost(): every counter back to zero. */
  function Cleared(): (c: Cost)
    ensures c.allocations == 0 && c.temporary == 0 && c.leaked == 0 && c.peak == 0 && c.inRam == 0
  {
    Cost(0, 0, 0, 0, 0)
  }

  /** operator+= and operator+: counter by counter. */
  function Plus(a: Cost, b: Cost): (c: Cost)
    ensures Minus(c, b) == a && Minus(c, a) == b
  {
    Cost(a.allocations + b.allocations, a.temporary + b.temporary, a.leaked + b.leaked,
         a.peak + b.peak, a.inRam + b.inRam)
  }

  /** operator-= and operator-: counter by counter. */
  function Minus(a: Cost, b: Cost): (c: Cost)
    ensures c == Cleared() <==> a == b
    ensures c.(inRam := 0) == Cleared() <==> a.(inRam := 0) == b.(inRam := 0)
  {
    Cost(a.allocations - b.allocations, a.temporary - b.temporary, a.leaked - b.leaked,
         a.peak - b.peak, a.inRam - b.inRam)
  }

  /** operator==: compares four counters and ignores inRam. */
  predicate Same(a: Cost, b: Cost)
    ensures Same(a, b) <==> Minus(a, b).(inRam := 0) == Cleared()
  {
    a.allocations == b.allocations && a.temporary == b.temporary && a.leaked == b.leaked && a.peak == b.peak
  }

  /** The counters as a sequence, inRam last. */
  function Fields(c: Cost): (f: seq<int>)
    ensures |f| == 5 && f[4] == c.inRam
  {
    [c.allocations, c.temporary, c.leaked, c.peak, c.inRam]
  }

  /** + and - act on each of the five counters, inRam included. */
  lemma PlusMinusComponentwise(a: Cost, b: Cost)
    ensures forall k :: 0 <= k < 5 ==> Fields(Plus(a, b))[k] == Fields(a)[k] + Fields(b)[k]
    ensures forall k :: 0 <= k < 5 ==> Fields(Minus(a, b))[k] == Fields(a)[k] - Fields(b)[k]
  {
  }

  /** Subtracting what was added gives the original back: (a + b) - b == a. */
  lemma PlusThenMinus(a: Cost, b: Cost)
    ensures Minus(Plus(a, b), b) == a
    ensures Same(Minus(Plus(a, b), b), a)
  {
  }

  /** Adding costs does not depend on their order or grouping. */
  lemma PlusCommutesAndAssociates(a: Cost, b: Cost, c: Cost)
    ensures Plus(a, b) == Plus(b, a)
    ensures Plus(Plus(a, b), c) == Plus(a, Plus(b, c))
  {
  }

  /** The cleared cost is the neutral element of + and -. */
  lemma ClearedIsNeutral(a: Cost)
    ensures Plus(a, Cleared()) == a && Plus(Cleared(), a) == a && Minus(a, Cleared()) == a
  {
  }

  /** == ignores inRam exactly: it holds iff the costs agree once inRam is equalised. */
  lemma SameIgnoresInRam(a: Cost, b: Cost)
    ensures Same(a, b) <==> a.(inRam := 0) == b.(inRam := 0)
    ensures Same(a, a.(inRam := b.inRam))
  {
  }

  /** == is compatible with +: equal costs stay equal when the same cost is added. */
  lemma SameIsCongruence(a: Cost, a': Cost, b: Cost)
    requires Same(a, a')
    ensures Same(Plus(a, b), Plus(a', b)) && Same(Minus(a, b), Minus(a', b))
  {
  }
}
