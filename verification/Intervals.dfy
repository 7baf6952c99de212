/** Sets of consecutive page numbers. */
module Intervals {

  predicate Between(lo: nat, p: nat, hi: nat) {
    lo <= p < hi
  }

  /** The numbers from lo up to, not including, hi. */
  ghost function Interval(lo: nat, hi: nat): (r: set<nat>)
    ensures forall p :: p in r <==> lo <= p < hi
  {
    set p: nat | p < hi && Between(lo, p, hi)
  }

  lemma {:induction false} Collect(lo: nat, hi: nat) returns (s: set<nat>)
    ensures forall p :: p in s <==> lo <= p < hi
    ensures |s| == if lo <= hi then hi - lo else 0
    decreases hi
  {
    if hi <= lo {
      s := {};
    } else {
      s := Collect(lo, hi - 1);
      s := s + {hi - 1};
    }
  }

  lemma IntervalSize(lo: nat, hi: nat)
    ensures |Interval(lo, hi)| == if lo <= hi then hi - lo else 0
  {
    var s := Collect(lo, hi);
    assert s == Interval(lo, hi);
  }

  lemma AddNext(s: set<nat>, lo: nat, i: nat)
    ensures s + Interval(lo, lo + i) + {lo + i} == s + Interval(lo, lo + i + 1)
  {
  }

  lemma DropNext(s: set<nat>, lo: nat, i: nat)
    ensures s - Interval(lo, lo + i) - {lo + i} == s - Interval(lo, lo + i + 1)
  {
  }

  lemma SubsetSize<T>(a: set<T>, b: set<T>)
    requires a <= b
    ensures |a| <= |b|
    ensures |b - a| == |b| - |a|
  {
    assert b == a + (b - a);
  }

  lemma DisjointUnionSize<T>(a: set<T>, b: set<T>)
    ensures |a + b| == |a| + |b| - |a * b|
  {
    assert a + b == a + (b - a);
    assert b == (b - a) + a * b;
  }
}
