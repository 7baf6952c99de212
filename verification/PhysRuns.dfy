/** Runs of several pages (fckrnl/mm/phys.c).  _get_ffp_range probes bit i + j / 4096 of a candidate i, so that
    it looks at one page only; here is the search with probe i + j, which its loop is there for, and which
    keeps the run below the top. */
module FrameRuns {
  import opened Bits
  import opened Intervals
  import opened Frames

  /** The n pages from i on are free. */
  ghost predicate RunClear(used: set<nat>, i: nat, n: nat) {
    n > 0 && forall x :: i <= x < i + n ==> x !in used
  }

  ghost function FirstRun(used: set<nat>, top: nat, n: nat, i: nat): Option<nat>
    decreases top + 1 - i
  {
    if i + n > top || i > top then None
    else if RunClear(used, i, n) then Some(i)
    else FirstRun(used, top, n, i + 1)
  }

  /** The n pages from i on become used. */
  ghost function Marked(s: State, i: nat, n: nat): State {
    s.(used := s.used + Interval(i, i + n), count := Plus(s.count, n))
  }

  /** pmm_alloc over that search. */
  ghost function AllocRun(s: State, n: nat): (State, nat) {
    if s.count == 0 then (s, 0)
    else match FirstRun(s.used, s.top, n, 0)
      case None => (s, 0)
      case Some(i) =>
        if i == 0 then (s, 0)
        else (Marked(s, i, n), i * 4096)
  }

  lemma {:induction false} FirstRunIsLowest(used: set<nat>, top: nat, n: nat, i: nat)
    ensures match FirstRun(used, top, n, i)
            case None => forall k :: i <= k && k + n <= top ==> !RunClear(used, k, n)
            case Some(r) => i <= r && r + n <= top && RunClear(used, r, n)
                            && forall k :: i <= k < r ==> !RunClear(used, k, n)
    decreases top + 1 - i
  {
    if i + n <= top && i <= top && !RunClear(used, i, n) { FirstRunIsLowest(used, top, n, i + 1); }
  }

  /** A run of n free pages below the top. */
  ghost predicate FreeRun(s: State, i: nat, n: nat) {
    0 < n && Interval(i, i + n) <= Free(s)
  }

  lemma ClearIsFree(s: State, i: nat, n: nat)
    ensures RunClear(s.used, i, n) && i + n <= s.top <==> FreeRun(s, i, n)
  {
    var run := Interval(i, i + n);
    if FreeRun(s, i, n) {
      assert i + n - 1 in run;
      forall x | i <= x < i + n ensures x !in s.used { assert x in run; }
    }
  }

  ghost predicate LowestRun(s: State, r: nat, n: nat) {
    FreeRun(s, r, n) && forall i :: FreeRun(s, i, n) ==> r <= i
  }

  lemma FreeAfterMark(s: State, run: set<nat>, s1: State)
    requires run <= Free(s) && s1.top == s.top && s1.used == s.used + run
    ensures |Free(s1)| == |Free(s)| - |run| && |run| <= |Free(s)|
  {
    assert Free(s1) == Free(s) - run;
    assert Free(s) == Free(s1) + run;
    DisjointUnionSize(Free(s1), run);
  }

  lemma PlusExact(count: Word, n: nat)
    requires count + n < WORD
    ensures Plus(count, n) == count + n
  {
  }

  /** Marking a run of free pages keeps the allocator sound. */
  lemma MarkedRun(s: State, i: nat, n: nat)
    requires Sound(s) && FreeRun(s, i, n)
    ensures var s1 := Marked(s, i, n);
      Sound(s1) && |Free(s1)| == |Free(s)| - n && i > 0
  {
    var run := Interval(i, i + n);
    var s1 := Marked(s, i, n);
    assert i in run;
    IntervalSize(i, i + n);
    FreeAfterMark(s, run, s1);
    PlusExact(s.count, n);
  }

  /** What the search finds, said of the free pages. */
  lemma FirstFreeRun(s: State, n: nat)
    ensures match FirstRun(s.used, s.top, n, 0)
            case None => forall i :: !FreeRun(s, i, n)
            case Some(r) => LowestRun(s, r, n)
  {
    FirstRunIsLowest(s.used, s.top, n, 0);
    forall i: nat ensures RunClear(s.used, i, n) && i + n <= s.top <==> FreeRun(s, i, n) { ClearIsFree(s, i, n); }
  }

  lemma FoundRun(s: State, n: nat)
    requires Sound(s) && FirstRun(s.used, s.top, n, 0).Some?
    ensures var i := FirstRun(s.used, s.top, n, 0).value;
      0 < i && FreeRun(s, i, n) && i + n <= s.top
  {
    FirstRunIsLowest(s.used, s.top, n, 0);
    var i := FirstRun(s.used, s.top, n, 0).value;
    ClearIsFree(s, i, n);
    assert i in Interval(i, i + n);
  }

  /** pmm_alloc over that search fails only when the search does, and else takes what it finds. */
  lemma AllocRunMarks(s: State, n: nat)
    requires Sound(s)
    ensures FirstRun(s.used, s.top, n, 0).None? ==> AllocRun(s, n) == (s, 0)
    ensures FirstRun(s.used, s.top, n, 0).Some? ==>
      (var i := FirstRun(s.used, s.top, n, 0).value;
       0 < i && AllocRun(s, n) == (Marked(s, i, n), i * 4096))
  {
    SoundCount(s);
    if FirstRun(s.used, s.top, n, 0).Some? { FoundRun(s, n); }
  }

  /** NULL comes back only when no run of n pages is free. */
  lemma AllocRunFails(s: State, n: nat)
    requires Sound(s) && AllocRun(s, n).1 == 0
    ensures AllocRun(s, n).0 == s && forall i :: !FreeRun(s, i, n)
  {
    AllocRunMarks(s, n);
    FirstFreeRun(s, n);
    if FirstRun(s.used, s.top, n, 0).Some? { FoundRun(s, n); }
  }

  /** The lowest run of n free pages is handed out, it and nothing else is marked, and it does not pass the
      top. */
  lemma AllocRunTakesLowest(s: State, n: nat)
    requires Sound(s) && AllocRun(s, n).1 != 0
    ensures var (s1, a) := AllocRun(s, n);
      && a == a / 4096 * 4096 && LowestRun(s, a / 4096, n) && a / 4096 + n <= s.top
      && s1 == Marked(s, a / 4096, n) && Sound(s1) && |Free(s1)| == |Free(s)| - n
  {
    AllocRunMarks(s, n);
    FirstFreeRun(s, n);
    var i := FirstRun(s.used, s.top, n, 0).value;
    LowestRunMarked(s, i, n);
    assert i * 4096 / 4096 == i;
  }

  lemma LowestRunMarked(s: State, i: nat, n: nat)
    requires Sound(s) && LowestRun(s, i, n)
    ensures Sound(Marked(s, i, n)) && |Free(Marked(s, i, n))| == |Free(s)| - n && i + n <= s.top
  {
    MarkedRun(s, i, n);
    assert i + n - 1 in Interval(i, i + n);
  }

  lemma FreeAfterRelease(s: State, run: set<nat>, s1: State)
    requires run <= s.used && run <= Interval(0, s.top) && s1.top == s.top && s1.used == s.used - run
    ensures |Free(s1)| == |Free(s)| + |run|
  {
    assert Free(s1) == Free(s) + run;
    DisjointUnionSize(Free(s), run);
  }

  lemma FewFree(s: State)
    requires 0 in s.used && s.top > 0
    ensures |Free(s)| < s.top
  {
    assert Free(s) <= Interval(1, s.top);
    IntervalSize(1, s.top);
    SubsetSize(Free(s), Interval(1, s.top));
  }

  lemma MinusExact(count: Word, n: nat)
    requires n <= count
    ensures Minus(count, n) == count - n
  {
  }

  /** pmm_free of used pages, page 0 not among them, keeps the allocator sound. */
  lemma RunReleased(s: State, p: nat, n: nat)
    requires Sound(s) && 0 < p && Interval(p, p + n) <= s.used && p + n <= s.top
    ensures var s1 := Release(s, p * 4096, n);
      Sound(s1) && s1.top == s.top && s1.used == s.used - Interval(p, p + n)
  {
    var run, s1 := Interval(p, p + n), Release(s, p * 4096, n);
    assert p * 4096 / 4096 == p;
    IntervalSize(p, p + n);
    FreeAfterRelease(s, run, s1);
    FewFree(s1);
    MinusExact(s.count, n);
  }

  /** pmm_free of such a run restores the whole state. */
  lemma ReleaseRestores(s: State, n: nat)
    requires Sound(s) && AllocRun(s, n).1 != 0
    ensures var (s1, a) := AllocRun(s, n); Release(s1, a, n) == s
  {
    AllocRunTakesLowest(s, n);
    var (s1, a) := AllocRun(s, n);
    var run := Interval(a / 4096, a / 4096 + n);
    assert s.used + run - run == s.used;
    AllocCount(s.count, n);
  }

  /** The code agrees with the search it means to make exactly for requests of at most one page. */
  lemma AgreesExactly(n: nat)
    requires n < 0x10_0000_0000_0000
    ensures (forall s: State :: Sound(s) ==> AllocRun(s, n) == Alloc(s, n)) <==> n <= 1
  {
    if n == 0 {
      forall s: State | Sound(s) ensures AllocRun(s, n) == Alloc(s, n) { NothingAsked(s); }
    } else if n == 1 {
      forall s: State | Sound(s) ensures AllocRun(s, n) == Alloc(s, n) { OnePageAgrees(s); }
    } else {
      var s := LongRunState(n);
      LongRunSound(n);
      LongRunTaken(n);
      assert AllocRun(s, n) != Alloc(s, n);
    }
  }

  lemma NothingAsked(s: State)
    requires Sound(s)
    ensures AllocRun(s, 0) == (s, 0) == Alloc(s, 0)
  {
    FirstRunIsLowest(s.used, s.top, 0, 0);
    FirstFitIsLowest(s.used, s.top, 0, 0);
  }

  lemma OnePageAgrees(s: State)
    requires Sound(s)
    ensures AllocRun(s, 1) == Alloc(s, 1)
  {
    SoundCount(s);
    SameSearch(s.used, s.top, 0);
  }

  lemma {:induction false} SameSearch(used: set<nat>, top: nat, i: nat)
    ensures FirstRun(used, top, 1, i) == FirstFit(used, top, 1, i)
    decreases top + 1 - i
  {
    SingleProbe(used, i);
    assert RunClear(used, i, 1) <==> i !in used;
    if i < top && i in used { SameSearch(used, top, i + 1); }
  }

  /** Pages 0 and n are in use, and n + 1 is the top. */
  function LongRunState(n: nat): State {
    State({0, n}, n + 1, 2)
  }

  lemma LongRunSound(n: nat)
    requires 2 <= n < 0x10_0000_0000_0000
    ensures Sound(LongRunState(n)) && |Free(LongRunState(n))| == n - 1
  {
    assert Free(LongRunState(n)) == Interval(1, n);
    IntervalSize(1, n);
  }

  /** The code hands out the run from page 1 on, of which page n is in use. */
  lemma LongRunTaken(n: nat)
    requires n >= 2
    ensures var s := LongRunState(n); Alloc(s, n) == (s.(used := s.used + Interval(1, 1 + n), count := Plus(2, n)), 4096)
    ensures AllocRun(LongRunState(n), n) == (LongRunState(n), 0)
  {
    var s := LongRunState(n);
    var used := s.used;
    assert ProbesClear(used, 1, n);
    assert !ProbesClear(used, 0, n) by { assert 0 + 0 / 4096 in used; }
    assert FirstFit(used, n + 1, n, 0) == FirstFit(used, n + 1, n, 1) == Some(1);
    FirstRunIsLowest(used, n + 1, n, 0);
    assert !RunClear(used, 0, n) by { assert 0 in used; }
    assert !RunClear(used, 1, n) by { assert n in used; }
  }

  // ----- what the code's search answers

  /** The pages that _get_ffp_range looks at for a run from i on: one for every 4096 of the run. */
  ghost function LookedAt(i: nat, n: nat): set<nat> {
    Interval(i, i + (n + 4095) / 4096)
  }

  lemma ProbesLookAt(used: set<nat>, i: nat, n: nat)
    ensures ProbesClear(used, i, n) <==> n > 0 && LookedAt(i, n) !! used
  {
    if ProbesClear(used, i, n) {
      forall x | x in LookedAt(i, n) ensures x !in used { assert i + (x - i) * 4096 / 4096 !in used; }
    }
    if n > 0 && LookedAt(i, n) !! used {
      forall j | 0 <= j < n ensures i + j / 4096 !in used { assert i + j / 4096 in LookedAt(i, n); }
    }
  }

  /** A run that the code takes for free. */
  ghost predicate LooksFree(s: State, i: nat, n: nat) {
    n > 0 && i < s.top && LookedAt(i, n) !! s.used
  }

  /** For every n and in every state, pmm_alloc hands out the lowest run whose pages looked at are free, and marks
      the whole run; it fails, and changes nothing, when there is none, when that is at page 0, or when
      used_page_cnt is 0. */
  lemma AllocExactly(s: State, n: nat)
    ensures var (s1, a) := Alloc(s, n);
      if s.count > 0 && !LooksFree(s, 0, n) && exists i :: LooksFree(s, i, n) then
        && a == a / 4096 * 4096 && LooksFree(s, a / 4096, n) && (forall i :: LooksFree(s, i, n) ==> a / 4096 <= i)
        && s1.used == s.used + Interval(a / 4096, a / 4096 + n) && s1.top == s.top
        && s1.count == (s.count + n) % 0x1_0000_0000_0000_0000
      else s1 == s && a == 0
  {
    FirstFitIsLowest(s.used, s.top, n, 0);
    forall i: nat ensures LooksFree(s, i, n) <==> i < s.top && ProbesClear(s.used, i, n) { ProbesLookAt(s.used, i, n); }
    FitTaken(s, n, FirstFit(s.used, s.top, n, 0));
  }

  lemma FitTaken(s: State, n: nat, fit: Option<nat>)
    requires fit == FirstFit(s.used, s.top, n, 0)
    ensures s.count == 0 || fit == None || fit == Some(0) ==> Alloc(s, n) == (s, 0)
    ensures s.count > 0 && fit.Some? && fit.value > 0 ==> Alloc(s, n) == (Marked(s, fit.value, n), fit.value * 4096)
  {
  }

  /** pmm_free clears the bits of n pages from the page of the address on, and no others, whatever they are. */
  lemma ReleaseExactly(s: State, addr: nat, n: nat)
    ensures var s1 := Release(s, addr, n);
      && (forall p: nat :: p in s1.used <==> p in s.used && !(addr - addr % 4096 <= p * 4096 < addr - addr % 4096 + n * 4096))
      && s1.top == s.top && (s1.count + n) % 0x1_0000_0000_0000_0000 == s.count
  {
    MinusThenPlus(s.count, n);
  }

  lemma MinusThenPlus(count: Word, n: nat)
    ensures (Minus(count, n) + n) % 0x1_0000_0000_0000_0000 == count
  {
    var q := (count - n) / 0x1_0000_0000_0000_0000;
    assert Minus(count, n) + n == count - q * 0x1_0000_0000_0000_0000;
  }

  // ----- the end of the bitmap

  /** pmm_alloc(n) marks no bit past a bitmap of so many bits. */
  ghost predicate StaysInside(s: State, n: nat, bits: nat) {
    var a := Alloc(s, n).1;
    a != 0 ==> a / 4096 + n <= bits
  }

  /** The code never looks at the end of the bitmap: it stays inside in every state with that top exactly when
      there is room for the run behind the last page searched. */
  lemma StaysInsideExactly(top: nat, bits: nat, n: nat)
    requires 2 <= top <= bits && top < 0x10_0000_0000_0000 && n > 0
    ensures (forall s: State :: Sound(s) && s.top == top ==> StaysInside(s, n, bits)) <==> top - 1 + n <= bits
  {
    if top - 1 + n <= bits {
      forall s: State | Sound(s) && s.top == top ensures StaysInside(s, n, bits) {
        FirstFitIsLowest(s.used, top, n, 0);
      }
    } else {
      LastPageTaken(top, n);
      assert !StaysInside(LastPageState(top), n, bits);
    }
  }

  /** Only the last page is free. */
  ghost function LastPageState(top: nat): State
    requires 1 < top < 0x10_0000_0000_0000
  {
    State(Interval(0, top - 1), top, top - 1)
  }

  lemma LastPageTaken(top: nat, n: nat)
    requires 2 <= top < 0x10_0000_0000_0000 && n > 0
    ensures Sound(LastPageState(top)) && Alloc(LastPageState(top), n).1 == (top - 1) * 4096
  {
    var s, last := LastPageState(top), top - 1;
    assert Free(s) == {last};
    assert ProbesClear(s.used, last, n);
    forall k: nat | k < last ensures !ProbesClear(s.used, k, n) { assert k + 0 / 4096 in s.used; }
    FirstFitIsLowest(s.used, top, n, 0);
  }
}
