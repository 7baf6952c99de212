/** The physical frame allocator (fckrnl/mm/phys.c): its specification as functions on the set of used
    page numbers, the theorems about that specification, and the class that implements it. */
module Frames {
  import opened Bits
  import opened Intervals

  const PAGE_MASK: Word := 0xFFFF_FFFF_FFFF_F000

  datatype Option<+T> = None | Some(value: T)

  /** ALIGN_DOWN(a, PAGE_SIZE): the page boundary at or below a. */
  function AlignDown(a: Word): Word {
    a - a % 4096
  }

  /** The macro masks: `a & ~(PAGE_SIZE - 1)`. */
  lemma AlignDownIsMask(a: Word)
    ensures And(a, PAGE_MASK) == AlignDown(a)
  {
    Pow2Values();
    ShlIsProduct(Pow2(52) - 1, 12);
    AndClearsLow(a, 12, 52);
    ShiftsAreDivision(a, 12);
  }

  /** ALIGN_UP(a, PAGE_SIZE), with the addition wrapping at 64 bits as in C. */
  function AlignUp(a: Word): (r: Word)
    ensures a + 4096 <= WORD ==> r % 4096 == 0 && a <= r < a + 4096
    ensures a + 4096 > WORD ==> r == 0
  {
    AlignDown((a + 4096 - 1) % 0x1_0000_0000_0000_0000)
  }

  /** What the allocator knows: the set bits of its bitmap, the number of pages it searches
      (PAGE_TO_BIT(hi_page_top)), and used_page_cnt. */
  datatype State = State(used: set<nat>, top: nat, count: Word)

  ghost function Free(s: State): set<nat> {
    Interval(0, s.top) - s.used
  }

  /** The inner loop of _get_ffp_range finds all of its probes clear.  For probe j the code adds
      PAGE_TO_BIT(j), that is j / 4096, to the candidate, not j. */
  ghost predicate ProbesClear(used: set<nat>, i: nat, n: nat) {
    n > 0 && forall j :: 0 <= j < n ==> i + j / 4096 !in used
  }

  /** _get_ffp_range, from candidate i on. */
  ghost function FirstFit(used: set<nat>, top: nat, n: nat, i: nat): Option<nat>
    decreases top - i
  {
    if i >= top then None
    else if ProbesClear(used, i, n) then Some(i)
    else FirstFit(used, top, n, i + 1)
  }

  /** used_page_cnt wraps like any size_t. */
  function Plus(count: Word, n: nat): Word { (count + n) % 0x1_0000_0000_0000_0000 }

  function Minus(count: Word, n: nat): Word { (count - n) % 0x1_0000_0000_0000_0000 }

  /** pmm_alloc: the new state and the address returned, 0 being NULL. */
  ghost function Alloc(s: State, n: nat): (State, nat) {
    if s.count == 0 then (s, 0)
    else match FirstFit(s.used, s.top, n, 0)
      case None => (s, 0)
      case Some(i) =>
        if i == 0 then (s, 0)
        else (s.(used := s.used + Interval(i, i + n), count := Plus(s.count, n)), i * 4096)
  }

  /** pmm_free. */
  ghost function Release(s: State, addr: nat, n: nat): State {
    var i := addr / 4096;
    s.(used := s.used - Interval(i, i + n), count := Minus(s.count, n))
  }

  // ----- the search

  lemma {:induction false} FirstFitIsLowest(used: set<nat>, top: nat, n: nat, i: nat)
    ensures match FirstFit(used, top, n, i)
            case None => forall k :: i <= k < top ==> !ProbesClear(used, k, n)
            case Some(r) => i <= r < top && ProbesClear(used, r, n)
                            && forall k :: i <= k < r ==> !ProbesClear(used, k, n)
    decreases top - i
  {
    if i < top && !ProbesClear(used, i, n) { FirstFitIsLowest(used, top, n, i + 1); }
  }

  lemma SingleProbe(used: set<nat>, i: nat)
    ensures ProbesClear(used, i, 1) <==> i !in used
  {
    if i !in used { assert forall j :: 0 <= j < 1 ==> i + j / 4096 == i; }
    if ProbesClear(used, i, 1) { assert i + 0 / 4096 !in used; }
  }

  /** In the states the kernel reaches, page 0 is marked and used_page_cnt covers the marked pages,
      so the NULL guard on used_page_cnt stays closed. */
  ghost predicate Sound(s: State) {
    && s.top > 0
    && 0 in s.used
    && s.top <= s.count + |Free(s)| < WORD
  }

  lemma SoundCount(s: State)
    requires Sound(s)
    ensures s.count > 0
  {
    IntervalSize(1, s.top);
    SubsetSize(Free(s), Interval(1, s.top));
  }

  lemma LowestFreePage(s: State)
    ensures match FirstFit(s.used, s.top, 1, 0)
            case None => Free(s) == {}
            case Some(i) => i in Free(s) && forall p :: p in Free(s) ==> i <= p
  {
    FirstFitIsLowest(s.used, s.top, 1, 0);
    forall k: nat ensures ProbesClear(s.used, k, 1) <==> k !in s.used { SingleProbe(s.used, k); }
    forall p | p in Free(s) ensures ProbesClear(s.used, p, 1) {}
  }

  lemma MarkFreePage(s: State, i: nat)
    requires i in Free(s)
    ensures var s' := s.(used := s.used + {i}); Free(s') == Free(s) - {i} && |Free(s')| == |Free(s)| - 1
  {
    var s' := s.(used := s.used + {i});
    assert Free(s') == Free(s) - {i};
    SubsetSize({i}, Free(s));
  }

  /** One page: the lowest free page is handed out, and NULL only when there is none. */
  lemma AllocOnePage(s: State)
    requires Sound(s)
    ensures var (s', a) := Alloc(s, 1);
      if Free(s) == {} then s' == s && a == 0
      else
        && a % 4096 == 0 && a / 4096 in Free(s)
        && (forall p :: p in Free(s) ==> a / 4096 <= p)
        && s'.used == s.used + {a / 4096} && s'.top == s.top
        && Free(s') == Free(s) - {a / 4096}
        && s'.count == s.count + 1 && |Free(s')| == |Free(s)| - 1
        && Sound(s')
  {
    SoundCount(s);
    LowestFreePage(s);
    var fit := FirstFit(s.used, s.top, 1, 0);
    if fit.Some? {
      var i := fit.value;
      MarkFreePage(s, i);
      assert Interval(i, i + 1) == {i};
      assert Plus(s.count, 1) == s.count + 1;
    }
  }

  /** Returning a page that is marked and is not page 0 frees exactly that page. */
  lemma ReleaseOnePage(s: State, addr: nat)
    requires Sound(s)
    requires addr / 4096 in s.used && 0 < addr / 4096 < s.top
    ensures var s' := Release(s, addr, 1);
      && s'.used == s.used - {addr / 4096} && s'.top == s.top
      && Free(s') == Free(s) + {addr / 4096}
      && s'.count == s.count - 1 && |Free(s')| == |Free(s)| + 1
      && Sound(s')
  {
    SoundCount(s);
    var i := addr / 4096;
    assert Interval(i, i + 1) == {i};
    assert Free(Release(s, addr, 1)) == Free(s) + {i};
  }

  // ----- runs of several pages

  /** The run that pmm_alloc(n) marks consists of pages that were free. */
  ghost predicate HandsOutFreePages(s: State, n: nat) {
    var a := Alloc(s, n).1;
    a != 0 ==> Interval(a / 4096, a / 4096 + n) !! s.used
  }

  /** The search really checks a run only when the run is a single page: every longer request hands
      out a page in use in some state, because the probes stand still for 4096 pages. */
  lemma HandsOutFreePagesExactly(n: nat)
    ensures (forall s: State :: HandsOutFreePages(s, n)) <==> n <= 1
  {
    if n <= 1 {
      forall s: State ensures HandsOutFreePages(s, n) { ShortRunIsFree(s, n); }
    } else {
      LongRunOverlaps(n);
    }
  }

  lemma ShortRunIsFree(s: State, n: nat)
    requires n <= 1
    ensures HandsOutFreePages(s, n)
  {
    FirstFitIsLowest(s.used, s.top, n, 0);
    LowestFreePage(s);
    var a := Alloc(s, n).1;
    if a != 0 {
      assert n == 1;
      assert a / 4096 in Free(s);
      assert Interval(a / 4096, a / 4096 + n) == {a / 4096};
    }
  }

  lemma LongRunOverlaps(n: nat)
    requires n >= 2
    ensures !HandsOutFreePages(State({0, n}, n + 1, 2), n)
  {
    var used := {0, n};
    assert ProbesClear(used, 1, n);
    assert !ProbesClear(used, 0, n) by { assert 0 + 0 / 4096 in used; }
    assert FirstFit(used, n + 1, n, 0) == FirstFit(used, n + 1, n, 1) == Some(1);
    assert n in Interval(1, 1 + n);
  }

  /** The pages a successful pmm_alloc(n) marks. */
  ghost function RunOf(s: State, n: nat): set<nat> {
    var i := Alloc(s, n).1 / 4096;
    Interval(i, i + n)
  }

  /** The number of set bits grows by n, as used_page_cnt does, and pmm_free restores the set, exactly
      when the run was free. */
  lemma AllocThenRelease(s: State, n: nat)
    requires Alloc(s, n).1 != 0
    ensures |Alloc(s, n).0.used| == |s.used| + n <==> HandsOutFreePages(s, n)
    ensures Release(Alloc(s, n).0, Alloc(s, n).1, n).used == s.used <==> HandsOutFreePages(s, n)
    ensures Release(Alloc(s, n).0, Alloc(s, n).1, n).count == s.count
  {
    var (s', a) := Alloc(s, n);
    AllocMarks(s, n);
    MarkThenRelease(s, s', a, n);
  }

  lemma MarkThenRelease(s: State, s': State, a: nat, n: nat)
    requires s' == s.(used := s.used + Interval(a / 4096, a / 4096 + n), count := Plus(s.count, n))
    ensures |s'.used| == |s.used| + n <==> Interval(a / 4096, a / 4096 + n) !! s.used
    ensures Release(s', a, n).used == s.used <==> Interval(a / 4096, a / 4096 + n) !! s.used
    ensures Release(s', a, n).count == s.count
  {
    AllocCount(s.count, n);
    IntervalSize(a / 4096, a / 4096 + n);
    MarkingARun(s.used, Interval(a / 4096, a / 4096 + n));
  }

  /** A successful pmm_alloc marks the n pages at the address it returns. */
  lemma AllocMarks(s: State, n: nat)
    requires Alloc(s, n).1 != 0
    ensures Alloc(s, n).0 == s.(used := s.used + RunOf(s, n), count := Plus(s.count, n))
  {
    var i := FirstFit(s.used, s.top, n, 0).value;
    assert i * 4096 / 4096 == i;
  }

  lemma MarkingARun(used: set<nat>, run: set<nat>)
    ensures |used + run| == |used| + |run| <==> run !! used
    ensures used + run - run == used <==> run !! used
  {
    DisjointUnionSize(used, run);
    if run !! used {
      assert used * run == {};
    } else {
      var p :| p in run && p in used;
      assert p in used * run;
      assert p !in used + run - run;
    }
  }

  lemma AllocCount(count: Word, n: nat)
    ensures Minus(Plus(count, n), n) == count
  {
    var q := (count + n) / 0x1_0000_0000_0000_0000;
    assert (count + n) % 0x1_0000_0000_0000_0000 == count + n - q * 0x1_0000_0000_0000_0000;
    assert ((count + n) % 0x1_0000_0000_0000_0000 - n) % 0x1_0000_0000_0000_0000 == (count - q * 0x1_0000_0000_0000_0000) % 0x1_0000_0000_0000_0000;
  }

  // ----- every run of one-page allocations and returns

  datatype FrameOp = Take | GiveBack(page: nat)

  datatype FrameTrace = FrameTrace(s: State, held: set<nat>)

  /** One step: a successful Take adds the page to those held; only held pages are given back. */
  ghost function FrameStep(t: FrameTrace, op: FrameOp): FrameTrace {
    match op
    case Take =>
      var (s', a) := Alloc(t.s, 1);
      if a == 0 then t.(s := s') else FrameTrace(s', t.held + {a / 4096})
    case GiveBack(page) =>
      if page in t.held then FrameTrace(Release(t.s, page * 4096, 1), t.held - {page}) else t
  }

  ghost function FrameRun(t: FrameTrace, ops: seq<FrameOp>): FrameTrace
    decreases |ops|
  {
    if ops == [] then t else FrameRun(FrameStep(t, ops[0]), ops[1..])
  }

  ghost predicate Owned(start: State, t: FrameTrace) {
    && Sound(t.s)
    && t.s.top == start.top
    && t.s.used == start.used + t.held
    && t.held <= Free(start)
    && t.s.count + |Free(t.s)| == start.count + |Free(start)|
    && t.s.count - |t.s.used| == start.count - |start.used|
  }

  lemma TakeKeepsOwnership(start: State, t: FrameTrace)
    requires Sound(start) && Owned(start, t)
    ensures Owned(start, FrameStep(t, Take))
  {
    AllocOnePage(t.s);
    var (s', a) := Alloc(t.s, 1);
    if a != 0 {
      var p := a / 4096;
      assert p !in t.s.used;
      assert s'.used == start.used + (t.held + {p});
      assert |s'.used| == |t.s.used| + 1;
    }
  }

  lemma GiveBackKeepsOwnership(start: State, t: FrameTrace, page: nat)
    requires Sound(start) && Owned(start, t) && page in t.held
    ensures Owned(start, FrameStep(t, GiveBack(page)))
  {
    assert page * 4096 / 4096 == page;
    assert page in Free(start) && page in t.s.used;
    ReleaseOnePage(t.s, page * 4096);
    assert t.s.used - {page} == start.used + (t.held - {page});
    SubsetSize({page}, t.s.used);
  }

  lemma StepKeepsOwnership(start: State, t: FrameTrace, op: FrameOp)
    requires Sound(start) && Owned(start, t)
    ensures Owned(start, FrameStep(t, op))
  {
    match op
    case Take => TakeKeepsOwnership(start, t);
    case GiveBack(page) => if page in t.held { GiveBackKeepsOwnership(start, t, page); }
  }

  /** In every run, the pages held are pairwise distinct pages that were free at the start, never page
      0, the bitmap is the starting bitmap plus exactly them, and both used_page_cnt minus the set bits
      and used_page_cnt plus the free pages never change. */
  lemma {:induction false} RunKeepsOwnership(start: State, t: FrameTrace, ops: seq<FrameOp>)
    requires Sound(start) && Owned(start, t)
    ensures Owned(start, FrameRun(t, ops)) && 0 !in FrameRun(t, ops).held
    decreases |ops|
  {
    if ops == [] {
      assert 0 !in Free(start);
    } else {
      StepKeepsOwnership(start, t, ops[0]);
      RunKeepsOwnership(start, FrameStep(t, ops[0]), ops[1..]);
    }
  }
}
