/** The bitmap of the frame allocator lies in the memory that the allocator hands out and clears
    (fckrnl/mm/phys.c): when pmm_allocz clears the bitmap, and when it does not. */
module BitmapStorage {
  import opened Bits
  import opened Intervals
  import opened Frames
  import opened MemoryMap

  /** Byte k of the bitmap is at address base + k. */
  datatype Storage = Storage(base: nat, size: nat)

  /** The pages that hold a byte of it. */
  ghost function Pages(st: Storage): set<nat> {
    if st.size == 0 then {} else Interval(st.base / 4096, (st.base + st.size - 1) / 4096 + 1)
  }

  /** The first byte of the bitmap at or behind an address. */
  function ByteAt(st: Storage, address: nat): (k: nat)
    ensures k <= st.size
  {
    if address <= st.base then 0 else if address < st.base + st.size then address - st.base else st.size
  }

  /** The bits that a memset of n pages to zero clears. */
  ghost function Wiped(st: Storage, page: nat, n: nat): set<nat> {
    Interval(8 * ByteAt(st, page * 4096), 8 * ByteAt(st, (page + n) * 4096))
  }

  /** Those of the bytes whose address lies in the pages. */
  lemma WipedMeaning(st: Storage, page: nat, n: nat, bit: nat)
    ensures bit in Wiped(st, page, n) <==>
      bit / 8 < st.size && page * 4096 <= st.base + bit / 8 < (page + n) * 4096
  {
    var lo, hi := ByteAt(st, page * 4096), ByteAt(st, (page + n) * 4096);
    assert 8 * lo <= bit < 8 * hi <==> lo <= bit / 8 < hi;
  }

  /** What pmm_allocz does to the allocator's state: pmm_alloc, and the memset, which starts at page 0 when
      pmm_alloc returns NULL. */
  ghost function AllocCleared(s: State, n: nat, st: Storage): (State, nat) {
    var (s1, a) := Alloc(s, n);
    (s1.(used := s1.used - Wiped(st, a / 4096, n)), a)
  }

  /** The memset changes no bit. */
  ghost predicate SparesBitmap(s: State, n: nat, st: Storage) {
    AllocCleared(s, n, st) == Alloc(s, n)
  }

  /** The pages that the memset clears. */
  ghost function ClearedRun(s: State, n: nat): set<nat> {
    var page := Alloc(s, n).1 / 4096;
    Interval(page, page + n)
  }

  // ----- one call

  lemma WipesNothing(st: Storage, page: nat, n: nat)
    requires Interval(page, page + n) !! Pages(st)
    ensures Wiped(st, page, n) == {}
  {
    if n > 0 && st.size > 0 { MissedRun(st, page, n); }
  }

  lemma MissedRun(st: Storage, page: nat, n: nat)
    requires 0 < st.size && 0 < n && Interval(page, page + n) !! Pages(st)
    ensures ByteAt(st, page * 4096) == ByteAt(st, (page + n) * 4096)
  {
    var first, last, end := st.base / 4096, (st.base + st.size - 1) / 4096, page + n;
    assert first in Pages(st) && first !in Interval(page, end);
    assert page in Interval(page, end) && page !in Pages(st);
    if end <= first {
      assert end * 4096 <= first * 4096 <= st.base;
    } else {
      assert st.base + st.size <= (last + 1) * 4096 <= page * 4096;
    }
  }

  lemma WipesBitZero(st: Storage, page: nat, n: nat)
    requires 0 < st.size && st.base / 4096 in Interval(page, page + n)
    ensures 0 in Wiped(st, page, n)
  {
    var first, end := st.base / 4096, page + n;
    assert page * 4096 <= first * 4096 <= st.base < (first + 1) * 4096 <= end * 4096;
    WipedMeaning(st, page, n, 0);
  }

  /** The run starts at a free page, or at page 0 when there is none. */
  lemma RunStarts(s: State, n: nat)
    ensures var a := Alloc(s, n).1; a == 0 || a / 4096 !in s.used
  {
    FirstFitIsLowest(s.used, s.top, n, 0);
    match FirstFit(s.used, s.top, n, 0)
    case None =>
    case Some(i) => assert i + 0 / 4096 !in s.used;
  }

  lemma StillMarked(s: State, n: nat)
    ensures s.used <= Alloc(s, n).0.used
  {
  }

  /** While its pages are marked, pmm_allocz leaves the bitmap as pmm_alloc has left it exactly when the pages
      it clears are none of them. */
  lemma SparedExactly(s: State, n: nat, st: Storage)
    requires Sound(s) && 0 < st.size && Pages(st) <= s.used
    ensures SparesBitmap(s, n, st) <==> ClearedRun(s, n) !! Pages(st)
  {
    var (s1, a) := Alloc(s, n);
    var page := a / 4096;
    if ClearedRun(s, n) !! Pages(st) {
      WipesNothing(st, page, n);
      assert s1.used - {} == s1.used;
    } else {
      MeetsFirstPage(s, n, st);
      WipesBitZero(st, page, n);
      StillMarked(s, n);
      assert 0 in s1.used && 0 !in AllocCleared(s, n, st).0.used;
    }
  }

  /** A run that meets the storage has its first page, which holds bit 0. */
  lemma MeetsFirstPage(s: State, n: nat, st: Storage)
    requires Sound(s) && 0 < st.size && Pages(st) <= s.used && !(ClearedRun(s, n) !! Pages(st))
    ensures st.base / 4096 in ClearedRun(s, n)
  {
    RunStarts(s, n);
    var page := Alloc(s, n).1 / 4096;
    var x :| x in ClearedRun(s, n) && x in Pages(st);
    assert page == 0 || page !in Pages(st);
  }

  // ----- all states

  /** The pages of the storage are marked, and page 0 is none of them.  GuardsMeans opens the definition where
      it is needed. */
  ghost predicate Guards(s: State, st: Storage) {
    forall k: nat {:trigger GuardsAt(s, st, k)} :: GuardsAt(s, st, k)
  }

  ghost predicate GuardsAt(s: State, st: Storage, k: nat) {
    Pages(st) <= s.used && Pages(st) <= Interval(1, s.top)
  }

  lemma GuardsMeans(s: State, st: Storage)
    ensures Guards(s, st) <==> Pages(st) <= s.used && Pages(st) <= Interval(1, s.top)
  {
    if Guards(s, st) { assert GuardsAt(s, st, 0); }
  }

  /** None of the pages holds a byte of the bitmap.  AvoidsMeans opens the definition. */
  ghost predicate Avoids(pages: set<nat>, st: Storage) {
    forall k: nat {:trigger AvoidsAt(pages, st, k)} :: AvoidsAt(pages, st, k)
  }

  ghost predicate AvoidsAt(pages: set<nat>, st: Storage, k: nat) {
    pages !! Pages(st)
  }

  lemma AvoidsMeans(pages: set<nat>, st: Storage)
    ensures Avoids(pages, st) <==> pages !! Pages(st)
  {
    if Avoids(pages, st) { assert AvoidsAt(pages, st, 0); }
  }

  lemma AvoidsFewer(pages: set<nat>, fewer: set<nat>, st: Storage)
    requires Avoids(pages, st) && fewer <= pages
    ensures Avoids(fewer, st)
  {
    AvoidsMeans(pages, st);
    AvoidsMeans(fewer, st);
  }

  /** Pages that were not in use join. */
  lemma AvoidsMore(pages: set<nat>, more: set<nat>, s: State, st: Storage)
    requires Guards(s, st) && Avoids(pages, st) && more - pages !! s.used
    ensures Avoids(more, st)
  {
    GuardsMeans(s, st);
    AvoidsMeans(pages, st);
    AvoidsMeans(more, st);
  }

  /** Pages that are none of the bitmap are given back. */
  lemma GuardsAfter(s: State, s': State, pages: set<nat>, st: Storage)
    requires Guards(s, st) && Avoids(pages, st) && s.used - s'.used <= pages && s'.top == s.top
    ensures Guards(s', st)
  {
    GuardsMeans(s, st);
    GuardsMeans(s', st);
    AvoidsMeans(pages, st);
    forall p | p in Pages(st) ensures p in s'.used { assert p in s.used && p !in pages; }
  }

  lemma OnePageSpares(s: State, n: nat, st: Storage)
    requires Guards(s, st) && n <= 1
    ensures SparesBitmap(s, n, st) && Guards(Alloc(s, n).0, st)
  {
    GuardsMeans(s, st);
    OnePageMisses(s, n, st);
    StillMarked(s, n);
    GuardsMeans(Alloc(s, n).0, st);
  }

  lemma OnePageMisses(s: State, n: nat, st: Storage)
    requires Pages(st) <= s.used && 0 !in Pages(st) && n <= 1
    ensures SparesBitmap(s, n, st)
  {
    RunStarts(s, n);
    var page := Alloc(s, n).1 / 4096;
    assert Interval(page, page + n) <= {page};
    WipesNothing(st, page, n);
    assert Alloc(s, n).0.used - {} == Alloc(s, n).0.used;
  }

  /** pmm_allocz(n) never clears a bit in any sound state in which the storage is marked exactly when it asks
      for nothing, or for one page and the storage starts behind page 0. */
  lemma SparesBitmapExactly(n: nat, st: Storage, top: nat)
    requires 0 < st.size && st.base / 4096 < top < WORD
    ensures (forall s: State :: Sound(s) && s.top == top && Pages(st) <= s.used ==> SparesBitmap(s, n, st))
      <==> n == 0 || (n == 1 && st.base >= 4096)
  {
    if n == 0 || (n == 1 && st.base >= 4096) {
      forall s: State | Sound(s) && s.top == top && Pages(st) <= s.used ensures SparesBitmap(s, n, st) {
        SmallRunSpares(s, n, st);
      }
    } else {
      var s := WipingState(n, st, top);
    }
  }

  lemma SmallRunSpares(s: State, n: nat, st: Storage)
    requires Sound(s) && 0 < st.size && Pages(st) <= s.used && (n == 0 || (n == 1 && st.base >= 4096))
    ensures SparesBitmap(s, n, st)
  {
    SparedExactly(s, n, st);
    if n == 1 {
      OnePageMisses(s, n, st);
    } else {
      assert ClearedRun(s, n) == {};
    }
  }

  /** The pages below end are marked but for those from lo up to hi, and the counter says so. */
  ghost function FullBut(top: nat, end: nat, lo: nat, hi: nat): State
    requires lo <= hi && hi - lo <= top < WORD
  {
    State(Interval(0, end) - Interval(lo, hi), top, top - (hi - lo))
  }

  lemma FullIsSound(top: nat, end: nat, lo: nat, hi: nat)
    requires 0 < top <= end && lo <= hi <= top < WORD && (0 < lo || lo == hi)
    ensures Sound(FullBut(top, end, lo, hi)) && Free(FullBut(top, end, lo, hi)) == Interval(lo, hi)
  {
    IntervalSize(lo, hi);
    assert Free(FullBut(top, end, lo, hi)) == Interval(lo, hi);
  }

  /** The pages a request of n pages probes. */
  function Probed(n: nat): nat {
    if n == 0 then 0 else (n - 1) / 4096 + 1
  }

  lemma ProbeWithin(n: nat, j: nat)
    requires j < n
    ensures j / 4096 < Probed(n) && (n >= 2 ==> Probed(n) < n)
  {
  }

  /** A sound state in which the memset meets the storage: with no page free, or with just enough of them
      free before the storage to let the search succeed. */
  lemma WipingState(n: nat, st: Storage, top: nat) returns (s: State)
    requires 0 < st.size && st.base / 4096 < top < WORD && (n >= 2 || (n == 1 && st.base < 4096))
    ensures Sound(s) && s.top == top && Pages(st) <= s.used && !SparesBitmap(s, n, st)
  {
    var first, last := st.base / 4096, (st.base + st.size - 1) / 4096;
    var end := if last < top then top else last + 1;
    ProbeWithin(n, n - 1);
    var lo, hi := if first < n then 0 else first - Probed(n), if first < n then 0 else first;
    s := FullBut(top, end, lo, hi);
    FullWipes(n, st, top, end, lo, hi);
  }

  lemma FullWipes(n: nat, st: Storage, top: nat, end: nat, lo: nat, hi: nat)
    requires 0 < top <= end && lo <= hi < top < WORD && 0 < n && (lo == hi == 0 || (0 < lo && hi == lo + Probed(n)))
    requires 0 < st.size && hi <= st.base / 4096 < lo + n && (st.base + st.size - 1) / 4096 < end
    ensures var s := FullBut(top, end, lo, hi); Sound(s) && Pages(st) <= s.used && !SparesBitmap(s, n, st)
  {
    var s := FullBut(top, end, lo, hi);
    FullIsSound(top, end, lo, hi);
    FullRun(top, end, lo, hi, n);
    FirstPageHeld(st);
    assert st.base / 4096 in ClearedRun(s, n);
    SparedExactly(s, n, st);
  }

  lemma FirstPageHeld(st: Storage)
    requires 0 < st.size
    ensures st.base / 4096 in Pages(st)
  {
  }

  /** Where the search stops in such a state. */
  lemma FullRun(top: nat, end: nat, lo: nat, hi: nat, n: nat)
    requires 0 < top <= end && lo <= hi < top < WORD && 0 < n && (lo == hi == 0 || (0 < lo && hi == lo + Probed(n)))
    ensures Alloc(FullBut(top, end, lo, hi), n).1 == lo * 4096
  {
    var s := FullBut(top, end, lo, hi);
    FirstFitIsLowest(s.used, top, n, 0);
    forall k: nat | k < top && k != lo ensures k < lo || hi <= k ==> !ProbesClear(s.used, k, n) {
      if k < lo || hi <= k { assert k + 0 / 4096 in s.used; }
    }
    if lo < hi {
      forall j | 0 <= j < n ensures lo + j / 4096 !in s.used { ProbeWithin(n, j); }
      assert ProbesClear(s.used, lo, n);
    } else {
      assert 0 + 0 / 4096 in s.used;
    }
  }

  // ----- where pmm_init puts it

  ghost function StorageOf(es: seq<MapEntry>): Storage
    requires TopOf(es) < WORD && Room(es, BitmapBytes(TopOf(es))) < |es|
  {
    Storage(es[Room(es, BitmapBytes(TopOf(es)))].base, BitmapBytes(TopOf(es)))
  }

  lemma StoragePages(st: Storage, p: nat)
    requires st.base % 4096 == 0 && st.size % 4096 == 0
    ensures p in Pages(st) <==> st.base <= p * 4096 < st.base + st.size
    ensures p in Pages(st) ==> (p + 1) * 4096 <= st.base + st.size
  {
    var first, n := st.base / 4096, st.size / 4096;
    assert st.base == first * 4096 && st.size == n * 4096;
    if n > 0 { LastPage(first, n); }
  }

  lemma LastPage(first: nat, n: nat)
    requires 0 < n
    ensures (first * 4096 + n * 4096 - 1) / 4096 == first + n - 1
  {
    QuotientUnique(first * 4096 + n * 4096 - 1, 4096, first + n - 1, 4095);
  }

  /** After pmm_init the pages of the bitmap are marked; page 0 is one of them exactly when the entry that has
      room for it starts at address 0. */
  lemma InitialStateGuards(es: seq<MapEntry>)
    requires TopOf(es) + 4096 <= WORD && Room(es, BitmapBytes(TopOf(es))) < |es|
    requires Aligned(es) && Disjoint(es) && 0 < TopOf(es) / 4096 <= 8 * BitmapBytes(TopOf(es))
    ensures Pages(StorageOf(es)) <= InitialState(es).used
    ensures Guards(InitialState(es), StorageOf(es)) <==> StorageOf(es).base >= 4096
  {
    var st, size := StorageOf(es), BitmapBytes(TopOf(es));
    GuardsMeans(InitialState(es), st);
    forall p | p in Pages(st) ensures p in InitialState(es).used && p < TopOf(es) / 4096 {
      StoragePages(st, p);
      TopBounds(es, Room(es, size));
      InitialStateMeaning(es, p);
    }
    StoragePages(st, 0);
  }

  // ----- a memory map

  /** Half a megabyte of low memory, and a gigabyte from the second on. */
  function LowMap(): seq<MapEntry> {
    [MapEntry(0x1000, 0x9_E000, USABLE), MapEntry(0x10_0000, 0x3FE0_0000, USABLE)]
  }

  /** pmm_init puts the bitmap at page 1. */
  lemma LowMapPlaces()
    ensures TopOf(LowMap()) == 0x3FF0_0000 && BitmapBytes(0x3FF0_0000) == 0x8000 && Room(LowMap(), 0x8000) == 0
    ensures Aligned(LowMap()) && Disjoint(LowMap())
  {
    LowMapTop();
    LowMapBytes();
    LowMapShape();
  }

  lemma LowMapShape()
    ensures Room(LowMap(), 0x8000) == 0 && Aligned(LowMap()) && Disjoint(LowMap())
  {
  }

  lemma LowMapTop()
    ensures TopOf(LowMap()) == 0x3FF0_0000
  {
    var es := LowMap();
    assert es[..1][..0] == [];
    assert TopOf(es[..1]) == 0x9_F000;
  }

  lemma LowMapBytes()
    ensures BitmapBytes(0x3FF0_0000) == 0x8000
  {
    assert AlignDown(0x3FF0_0000) / 4096 / 8 == 0x7FE0;
  }

  /** Takes until no page is left. */
  lemma {:induction false} TakeAll(start: State, t: FrameTrace) returns (ops: seq<FrameOp>)
    requires Sound(start) && Owned(start, t)
    ensures Owned(start, FrameRun(t, ops)) && Free(FrameRun(t, ops).s) == {}
    decreases |Free(t.s)|
  {
    ops := [];
    if Free(t.s) != {} {
      AllocOnePage(t.s);
      TakeKeepsOwnership(start, t);
      var rest := TakeAll(start, FrameStep(t, Take));
      ops := [Take] + rest;
      assert ops[1..] == rest;
    }
  }

  /** The storage of that map. */
  const LOW_STORAGE := Storage(0x1000, 0x8000)

  /** With that map, once all pages are handed out, pmm_allocz(2) clears the bits of the first 32768 pages.
      From then on page 0, which is NULL, looks free, and pmm_alloc(1) returns it. */
  lemma WipedReachable() returns (ops: seq<FrameOp>)
    ensures TopOf(LowMap()) < WORD && Room(LowMap(), BitmapBytes(TopOf(LowMap()))) < |LowMap()|
    ensures var s := FrameRun(FrameTrace(InitialState(LowMap()), {}), ops).s;
      var s' := AllocCleared(s, 2, LOW_STORAGE).0;
      && Sound(s) && Pages(LOW_STORAGE) <= s.used && Interval(0, 32768) <= s.used
      && AllocCleared(s, 2, LOW_STORAGE) == (s.(used := s.used - Interval(0, 32768)), 0)
      && Alloc(s', 1) == (s', 0)
  {
    LowMapPlaces();
    var start := InitialState(LowMap());
    InitialStateSound(LowMap());
    var t := FrameTrace(start, {});
    ops := TakeAll(start, t);
    var s := FrameRun(t, ops).s;
    AllMarked(s);
    assert Pages(LOW_STORAGE) <= Interval(0, s.top);
    LowWipes(s);
  }

  lemma LowWipes(s: State)
    requires Free(s) == {} && s.top > 0
    ensures AllocCleared(s, 2, LOW_STORAGE) == (s.(used := s.used - Interval(0, 32768)), 0)
    ensures var s' := AllocCleared(s, 2, LOW_STORAGE).0; Alloc(s', 1) == (s', 0)
  {
    NoPageFor(s, 2);
    assert Wiped(LOW_STORAGE, 0, 2) == Interval(0, 32768);
    NullIsFree(AllocCleared(s, 2, LOW_STORAGE).0);
  }

  lemma AllMarked(s: State)
    requires Free(s) == {}
    ensures Interval(0, s.top) <= s.used
  {
    forall p | p in Interval(0, s.top) ensures p in s.used { assert p !in Free(s); }
  }

  lemma NoPageFor(s: State, n: nat)
    requires Free(s) == {}
    ensures Alloc(s, n) == (s, 0)
  {
    FirstFitIsLowest(s.used, s.top, n, 0);
    AllMarked(s);
    forall k: nat | k < s.top ensures !ProbesClear(s.used, k, n) { assert k + 0 / 4096 in s.used; }
  }

  lemma NullIsFree(s: State)
    requires 0 !in s.used && s.top > 0
    ensures Alloc(s, 1) == (s, 0)
  {
    SingleProbe(s.used, 0);
    assert FirstFit(s.used, s.top, 1, 0) == Some(0);
  }
}
