/** malloc and free (fckrnl/libk/malloc.c): small blocks from slab caches, large ones from the frame
    allocator, with a two-byte header that says which. */
module Malloc {
  import opened Bits
  import opened Intervals
  import opened Frames
  import opened FrameRuns
  import opened SlabCells
  import opened Slabs
  import opened SlabSteps
  import opened SlabRuns

  // ----- the choice of a cache

  /** slab_size of cache i. */
  function CacheSize(i: nat): (size: nat)
    requires i < 8
    ensures size > 0
  {
    if i == 0 then 4 else if i == 1 then 8 else if i == 2 then 16 else if i == 3 then 32
    else if i == 4 then 64 else if i == 5 then 128 else if i == 6 then 256 else 512
  }

  /** get_slab_cache_index. */
  function CacheIndex(size: nat): (i: nat)
    ensures i < 8
  {
    if size <= 32 then
      if size <= 8 then (if size <= 4 then 0 else 1) else (if size <= 16 then 2 else 3)
    else
      if size <= 128 then (if size <= 64 then 4 else 5) else (if size <= 256 then 6 else 7)
  }

  /** The index is that of the smallest cache whose objects are large enough, exactly for what the largest
      can hold. */
  lemma SmallestCache(size: nat)
    ensures size <= CacheSize(CacheIndex(size)) <==> size <= 512
    ensures forall i :: 0 <= i < CacheIndex(size) ==> CacheSize(i) < size
  {
  }

  /** malloc(511) and malloc(512) ask the caches for more than they have: exactly these overflow. */
  lemma SmallBlocksFit(size: nat)
    requires size <= 512
    ensures size + 2 <= CacheSize(CacheIndex(size + 2)) <==> size <= 510
  {
  }

  // ----- the heap

  /** The caches of index 2 to 7, the frame allocator, and the runs of pages handed out with their lengths. */
  datatype Heap = Heap(caches: seq<Cache>, s: State, runs: map<nat, nat>)

  /** Block Small(i, a) is the object at a of cache i; Large(p) is the run of pages from p on. */
  datatype Block = Small(index: nat, addr: nat) | Large(page: nat)

  predicate Live(h: Heap, b: Block) {
    match b
    case Small(i, a) => 2 <= i < 8 && |h.caches| == 6 && a in h.caches[i - 2].live
    case Large(p) => p in h.runs
  }

  function Start(b: Block): nat {
    match b
    case Small(_, a) => a
    case Large(p) => p * 4096
  }

  /** The end of what a block may use. */
  function End(h: Heap, b: Block): nat
    requires Live(h, b)
  {
    match b
    case Small(i, a) => a + CacheSize(i)
    case Large(p) => (p + h.runs[p]) * 4096
  }

  /** Six caches, whose objects have a size. */
  predicate Sized(h: Heap) {
    |h.caches| == 6 && forall i :: 0 <= i < 6 ==> h.caches[i].size > 0
  }

  datatype MallocResult = MallocResult(h: Heap, block: Option<Block>, outcome: Outcome)

  /** new_size / PAGE_SIZE; PagesFit and PagesWrap say how many that is. */
  function PagesAsked(size: Word): nat {
    AlignUp((size + 2) % 0x1_0000_0000_0000_0000) / 4096
  }

  /** The sizes above 512 that come to one page, or wrap to one or none. */
  predicate OnePage(size: Word) {
    size <= 4094 || size >= 0xFFFF_FFFF_FFFF_EFFF
  }

  /** The search of pmm_alloc: the code's, which probes one page only, or the one it is meant to be. */
  datatype Search = AsCoded | AsIntended

  ghost function PageAlloc(s: State, n: nat, search: Search): (State, nat) {
    match search
    case AsCoded => Alloc(s, n)
    case AsIntended => AllocRun(s, n)
  }

  /** malloc, for sizes from 7 on: smaller ones go to the caches of 4 and 8 bytes.  The small blocks come
      without SLAB_AUTO_GROW.  No block: the kernel panics, or pmm_alloc has failed and the header is
      written to address 0. */
  ghost function Allocate(h: Heap, size: Word, search: Search): MallocResult
    requires Sized(h) && size >= 7
  {
    if size <= 512 then
      var i := CacheIndex(size + 2);
      var r := CacheAlloc(h.caches[i - 2], h.s, true, false);
      MallocResult(h.(caches := h.caches[i - 2 := r.c], s := r.s),
                   if r.outcome == Done then Some(Small(i, r.ptr)) else None, r.outcome)
    else
      var n := PagesAsked(size);
      var (s1, a) := PageAlloc(h.s, n, search);
      if a == 0 then MallocResult(h.(s := s1), None, Null)
      else MallocResult(h.(s := s1, runs := h.runs[a / 4096 := n]), Some(Large(a / 4096)), Done)
  }

  /** What the header of a block says: 16 bits. */
  function Tag(h: Heap, b: Block): nat
    requires Live(h, b)
  {
    match b
    case Small(i, _) => i
    case Large(p) => h.runs[p] % 0x1_0000
  }

  /** free: a block that starts a page is taken for pages, any other for an object. */
  ghost function Deallocate(h: Heap, b: Block): (r: (Heap, Outcome))
    requires Live(h, b) && Sized(h)
  {
    if Start(b) % 4096 != 0 then
      var i := Tag(h, b) - 2;
      var (c, o) := CacheFree(h.caches[i], Start(b), true);
      (h.(caches := h.caches[i := c]), o)
    else
      (h.(s := Release(h.s, Start(b), Tag(h, b)),
          runs := if b.Large? then h.runs - {b.page} else h.runs), Done)
  }

  // ----- who owns which page

  datatype Owner = InCache(i: nat) | InRun(page: nat)

  predicate OwnedBy(owner: map<nat, Owner>, page: nat, o: Owner) {
    page in owner && owner[page] == o
  }

  ghost predicate CacheOk(h: Heap, owner: map<nat, Owner>, i: nat)
    requires i < |h.caches|
  {
    var c := h.caches[i];
    && i + 2 < 8 && c.size == CacheSize(i + 2) && Inv(c, h.s)
    && forall k {:trigger All(c)[k]} :: 0 <= k < |All(c)| ==> OwnedBy(owner, All(c)[k].page, InCache(i))
  }

  ghost predicate RunOk(h: Heap, owner: map<nat, Owner>, p: nat)
    requires p in h.runs
  {
    && 0 < p && 0 < h.runs[p]
    && forall x {:trigger RunPage(owner, h.s, x, p)} :: p <= x < p + h.runs[p] ==> RunPage(owner, h.s, x, p)
  }

  predicate RunPage(owner: map<nat, Owner>, s: State, x: nat, p: nat) {
    OwnedBy(owner, x, InRun(p)) && x in s.used && x < s.top
  }

  /** Each cache is in order, each run is marked used, and every page has at most one owner. */
  ghost predicate HeapOk(h: Heap, owner: map<nat, Owner>) {
    && Sized(h) && SoundFrames(h.s)
    && (forall i {:trigger CacheOk(h, owner, i)} :: 0 <= i < 6 ==> CacheOk(h, owner, i))
    && (forall p {:trigger RunOk(h, owner, p)} :: p in h.runs ==> RunOk(h, owner, p))
  }

  // ----- blocks do not overlap

  /** A small block lies in one page, which its cache owns. */
  lemma SmallPlace(h: Heap, owner: map<nat, Owner>, i: nat, a: nat)
    requires HeapOk(h, owner) && Live(h, Small(i, a))
    ensures OwnedBy(owner, a / 4096, InCache(i - 2)) && a / 4096 * 4096 <= a
    ensures a + CacheSize(i) <= (a / 4096 + 1) * 4096 && a / 4096 > 0
  {
    var c := h.caches[i - 2];
    assert CacheOk(h, owner, i - 2);
    ObjectsAreSomewhereOnce(c, h.s, a);
    var k :| 0 <= k < |All(c)| && IsCell(a, All(c)[k].page, c.size);
    CellFacts(a, All(c)[k].page, c.size);
  }

  /** Two live blocks do not overlap, be they small or large. */
  lemma BlocksApart(h: Heap, owner: map<nat, Owner>, a: Block, b: Block)
    requires HeapOk(h, owner) && Live(h, a) && Live(h, b) && a != b
    ensures End(h, a) <= Start(b) || End(h, b) <= Start(a)
  {
    match a
    case Small(i, x) =>
      SmallPlace(h, owner, i, x);
      match b {
        case Small(j, y) =>
          SmallPlace(h, owner, j, y);
          if i == j {
            assert CacheOk(h, owner, i - 2);
            LiveObjectsApart(h.caches[i - 2], h.s, x, y);
          }
        case Large(q) => RunApart(h, owner, x / 4096, InCache(i - 2), q);
      }
    case Large(p) =>
      match b {
        case Small(j, y) =>
          SmallPlace(h, owner, j, y);
          RunApart(h, owner, y / 4096, InCache(j - 2), p);
        case Large(q) =>
          assert RunOk(h, owner, p) && RunOk(h, owner, q);
          assert RunPage(owner, h.s, p, p) && RunPage(owner, h.s, q, q);
          RunApart(h, owner, p, InRun(p), q);
          RunApart(h, owner, q, InRun(q), p);
      }
  }

  /** A page of another owner is outside the run. */
  lemma RunApart(h: Heap, owner: map<nat, Owner>, x: nat, o: Owner, q: nat)
    requires HeapOk(h, owner) && q in h.runs && OwnedBy(owner, x, o) && o != InRun(q)
    ensures x < q || q + h.runs[q] <= x
  {
    assert RunOk(h, owner, q);
    assert q <= x < q + h.runs[q] ==> RunPage(owner, h.s, x, q);
  }

  // ----- the frames below

  /** For one page at most the code's search is the intended one. */
  lemma SearchAgrees(s: State, n: nat, search: Search)
    requires Sound(s) && (search.AsCoded? ==> n <= 1)
    ensures PageAlloc(s, n, search) == AllocRun(s, n)
  {
    if search.AsCoded? {
      if n == 0 { NothingAsked(s); } else { OnePageAgrees(s); }
    }
  }

  lemma RunTaken(s: State, n: nat, search: Search)
    requires SoundFrames(s) && (search.AsCoded? ==> n <= 1) && PageAlloc(s, n, search).1 != 0
    ensures var (s1, a) := PageAlloc(s, n, search);
      && SoundFrames(s1) && s1.top == s.top && s1.used == s.used + Interval(a / 4096, a / 4096 + n)
      && 0 < a / 4096 && a == a / 4096 * 4096 && 0 < n && Interval(a / 4096, a / 4096 + n) <= Free(s)
  {
    SoundMeans(s);
    SearchAgrees(s, n, search);
    AllocRunTakesLowest(s, n);
    SoundMeans(AllocRun(s, n).0);
  }

  lemma NoneTaken(s: State, n: nat, search: Search)
    requires SoundFrames(s) && (search.AsCoded? ==> n <= 1) && PageAlloc(s, n, search).1 == 0
    ensures PageAlloc(s, n, search).0 == s
  {
    SoundMeans(s);
    SearchAgrees(s, n, search);
    AllocRunFails(s, n);
  }

  /** A cache does not notice what the frame allocator does with other pages. */
  lemma InvFrames(c: Cache, s: State, s1: State)
    requires Inv(c, s) && SoundFrames(s1) && s1.top == s.top
    requires forall k :: 0 <= k < |All(c)| ==> All(c)[k].page in s1.used
    ensures Inv(c, s1)
  {
  }

  // ----- what malloc answers

  /** The eight sizes of malloc_heap_init. */
  lemma CacheSizes(i: nat)
    requires i < 8
    ensures CacheSize(i) == 4 * Pow2(i)
  {
    var p2, p4 := Pow2(2), Pow2(4);
    assert p2 == 4 && p4 == 16 && Pow2(3) == 8 && Pow2(5) == 32 && Pow2(6) == 64 && Pow2(7) == 128;
  }

  /** Cache i is the one of the least size that holds the block and its header, or the largest. */
  predicate FitsFirst(size: nat, i: nat) {
    && 7 <= size <= 512 && 2 <= i < 8 && (i == 7 || size + 2 <= CacheSize(i))
    && forall j :: 2 <= j < i ==> CacheSize(j) < size + 2
  }

  /** malloc of 7 to 512 bytes: a block of the cache of the least size that holds the header too, or of 512
      bytes, exactly when that cache has a free object; otherwise a panic, and the heap stays as it is. */
  lemma SmallMallocAnswers(h: Heap, owner: map<nat, Owner>, size: Word, search: Search, i: nat, c: Cache)
    requires HeapOk(h, owner) && FitsFirst(size, i) && c == h.caches[i - 2]
    ensures var r := Allocate(h, size, search);
      if FreeCount(c.slabs) > 0 then
        r.outcome == Done && exists a :: r.block == Some(Small(i, a)) && OnList(c.slabs, a) && a !in c.live
      else r == MallocResult(h, None, Panic)
  {
    IndexIs(size, i);
    assert CacheOk(h, owner, i - 2);
    AllocAnswers(c, h.s, true);
    SmallAllocated(h, size, search, i, c);
  }

  lemma IndexIs(size: Word, i: nat)
    requires FitsFirst(size, i)
    ensures CacheIndex(size + 2) == i
  {
    var k := CacheIndex(size + 2);
    SmallestCache(size + 2);
    assert 2 <= k;
    var atK, atI := CacheSize(k), CacheSize(i);
    assert atI < size + 2 || k <= i;
    assert atK < size + 2 || i <= k;
  }

  lemma SmallAllocated(h: Heap, size: Word, search: Search, i: nat, c: Cache)
    requires Sized(h) && 7 <= size <= 512 && CacheIndex(size + 2) == i && 2 <= i && c == h.caches[i - 2]
    ensures var r, r' := Allocate(h, size, search), CacheAlloc(c, h.s, true, false);
      && r.outcome == r'.outcome && r.block == (if r'.outcome == Done then Some(Small(i, r'.ptr)) else None)
      && (r'.c == c && r'.s == h.s ==> r.h == h)
  {
    assert h.caches[i - 2 := c] == h.caches;
  }

  /** malloc of one page: that page, exactly when one is free. */
  lemma PageMallocAnswers(h: Heap, owner: map<nat, Owner>, size: Word, search: Search)
    requires HeapOk(h, owner) && 512 < size <= 4094
    ensures var r := Allocate(h, size, search);
      if Free(h.s) == {} then r == MallocResult(h, None, Null)
      else
        && r.outcome == Done && r.block.Some? && r.block.value.Large? && r.block.value.page in Free(h.s)
        && (forall p :: p in Free(h.s) ==> r.block.value.page <= p)
        && r.h.s.used == h.s.used + {r.block.value.page} && r.h.caches == h.caches
        && r.h.runs == h.runs[r.block.value.page := 1]
  {
    PagesFit(size);
    assert PagesAsked(size) == 1;
    SoundMeans(h.s);
    OnePageAgrees(h.s);
    AllocOnePage(h.s);
  }

  /** malloc of several pages, with the intended search: the lowest run of as many pages as the size and the
      header need, exactly when there is one. */
  lemma RunMallocAnswers(h: Heap, owner: map<nat, Owner>, size: Word, n: nat)
    requires HeapOk(h, owner) && 512 < size && size + 2 + 4095 < WORD && (n - 1) * 4096 < size + 2 <= n * 4096
    ensures var r := Allocate(h, size, AsIntended);
      if forall p :: !FreeRun(h.s, p, n) then r == MallocResult(h, None, Null)
      else
        && r.outcome == Done && r.block.Some? && r.block.value.Large? && LowestRun(h.s, r.block.value.page, n)
        && r.h.s.used == h.s.used + Interval(r.block.value.page, r.block.value.page + n) && r.h.caches == h.caches
        && r.h.runs == h.runs[r.block.value.page := n]
  {
    PagesFit(size);
    assert PagesAsked(size) == n;
    SoundMeans(h.s);
    if AllocRun(h.s, n).1 == 0 { AllocRunFails(h.s, n); } else { AllocRunTakesLowest(h.s, n); }
  }

  /** ... and with the code's search the lowest run that looks free, for any number of pages and in any heap. */
  lemma CodedMallocAnswers(h: Heap, size: Word, n: nat)
    requires Sized(h) && 512 < size && size + 2 + 4095 < WORD && (n - 1) * 4096 < size + 2 <= n * 4096
    ensures var r := Allocate(h, size, AsCoded);
      if h.s.count > 0 && !LooksFree(h.s, 0, n) && exists i :: LooksFree(h.s, i, n) then
        && r.outcome == Done && r.block.Some? && r.block.value.Large? && LooksFree(h.s, r.block.value.page, n)
        && (forall i :: LooksFree(h.s, i, n) ==> r.block.value.page <= i)
        && r.h.s.used == h.s.used + Interval(r.block.value.page, r.block.value.page + n) && r.h.caches == h.caches
        && r.h.runs == h.runs[r.block.value.page := n]
      else r == MallocResult(h, None, Null)
  {
    PagesFit(size);
    assert PagesAsked(size) == n;
    AllocExactly(h.s, n);
  }

  /** When a block of up to one page comes out. */
  ghost predicate Answered(h: Heap, size: Word, block: Option<Block>)
    requires Sized(h)
  {
    && (forall i {:trigger FitsFirst(size, i)} :: FitsFirst(size, i) ==>
          (block.Some? <==> FreeCount(h.caches[i - 2].slabs) > 0))
    && (512 < size <= 4094 ==> (block.Some? <==> Free(h.s) != {}))
  }

  lemma MallocAnswers(h: Heap, owner: map<nat, Owner>, size: Word)
    requires HeapOk(h, owner) && size >= 7
    ensures Answered(h, size, Allocate(h, size, AsCoded).block)
  {
    forall i | FitsFirst(size, i)
      ensures Allocate(h, size, AsCoded).block.Some? <==> FreeCount(h.caches[i - 2].slabs) > 0
    {
      SmallMallocAnswers(h, owner, size, AsCoded, i, h.caches[i - 2]);
    }
    if 512 < size <= 4094 { PageMallocAnswers(h, owner, size, AsCoded); }
  }

  // ----- what free answers

  /** free of a small block that does not start a page: the cache takes the object back, and nothing else changes,
      unless the cache has no slab with room, which is when it has lost as many objects with dropped slabs as are
      live; then the kernel panics. */
  lemma SmallFreeAnswers(h: Heap, owner: map<nat, Owner>, i: nat, a: nat)
    requires HeapOk(h, owner) && Live(h, Small(i, a)) && a % 4096 != 0
    ensures var (h', o) := Deallocate(h, Small(i, a)); var c := h.caches[i - 2];
      if |c.live| == Lost(c) then h' == h && o == Panic
      else
        && o == Done && h'.s == h.s && h'.runs == h.runs && |h'.caches| == 6
        && (forall j :: 0 <= j < 6 && j != i - 2 ==> h'.caches[j] == h.caches[j])
        && h'.caches[i - 2].live == c.live - {a} && OnList(h'.caches[i - 2].slabs, a)
        && FreeCount(h'.caches[i - 2].slabs) == FreeCount(c.slabs) + 1
  {
    assert CacheOk(h, owner, i - 2);
    FreeAnswers(h.caches[i - 2], h.s, a, true);
    SmallFreed(h, i, a, h.caches[i - 2]);
  }

  lemma SmallFreed(h: Heap, i: nat, a: nat, c: Cache)
    requires Sized(h) && Live(h, Small(i, a)) && a % 4096 != 0 && c == h.caches[i - 2]
    ensures var (h', o) := Deallocate(h, Small(i, a)); var (c', o') := CacheFree(c, a, true);
      && o == o' && h'.s == h.s && h'.runs == h.runs && h'.caches == h.caches[i - 2 := c']
      && (c' == c ==> h' == h)
  {
    assert h.caches[i - 2 := c] == h.caches;
  }

  // ----- malloc keeps the heap in order

  /** A size that malloc serves from a cache of at least 16 bytes, or from pages that it really checks. */
  predicate Served(size: Word, search: Search) {
    7 <= size && (size > 512 && search.AsCoded? ==> OnePage(size))
  }

  /** One cache changes, and stays on its pages. */
  lemma CacheReplaced(h: Heap, owner: map<nat, Owner>, i: nat, c: Cache)
    requires HeapOk(h, owner) && i < 6 && Inv(c, h.s) && c.size == h.caches[i].size
    requires |All(c)| == |All(h.caches[i])|
    requires forall k :: 0 <= k < |All(c)| ==> All(c)[k].page == All(h.caches[i])[k].page
    ensures HeapOk(h.(caches := h.caches[i := c]), owner)
  {
    var h' := h.(caches := h.caches[i := c]);
    forall j | 0 <= j < 6 ensures CacheOk(h', owner, j) { assert CacheOk(h, owner, j); }
    forall p | p in h'.runs ensures RunOk(h', owner, p) { assert RunOk(h, owner, p); }
  }

  lemma SamePages(c: Cache, s: State)
    requires c.size > 0
    ensures var r := CacheAlloc(c, s, true, false);
      r.s == s && |All(r.c)| == |All(c)| && forall k :: 0 <= k < |All(c)| ==> All(r.c)[k].page == All(c)[k].page
  {
  }

  /** From h to h' exactly the given block has come to life. */
  ghost predicate Gained(h: Heap, h': Heap, block: Option<Block>) {
    && (block.Some? ==> Live(h', block.value) && !Live(h, block.value))
    && (forall b :: Live(h', b) <==> Live(h, b) || block == Some(b))
  }

  lemma SmallAllocKeeps(h: Heap, owner: map<nat, Owner>, size: Word, search: Search)
    requires HeapOk(h, owner) && 7 <= size <= 512
    ensures var r := Allocate(h, size, search);
      && HeapOk(r.h, owner) && Gained(h, r.h, r.block)
      && (r.block.Some? ==> r.block.value == Small(CacheIndex(size + 2), Start(r.block.value)))
  {
    var i := CacheIndex(size + 2);
    var c := h.caches[i - 2];
    assert CacheOk(h, owner, i - 2);
    var a := CacheAlloc(c, h.s, true, false);
    AllocKeeps(c, h.s, true, false);
    SamePages(c, h.s);
    CacheReplaced(h, owner, i - 2, a.c);
    ObjectGained(h, i, a);
  }

  lemma ObjectGained(h: Heap, i: nat, a: Result)
    requires |h.caches| == 6 && 2 <= i < 8
    requires a.outcome == Done ==> a.ptr !in h.caches[i - 2].live && a.c.live == h.caches[i - 2].live + {a.ptr}
    requires a.outcome != Done ==> a.c.live == h.caches[i - 2].live
    ensures Gained(h, h.(caches := h.caches[i - 2 := a.c]), if a.outcome == Done then Some(Small(i, a.ptr)) else None)
  {
  }

  /** A run of free pages gets an owner. */
  function WithRun(owner: map<nat, Owner>, p: nat, run: set<nat>): map<nat, Owner> {
    map x | x in owner.Keys + run :: if x in run then InRun(p) else owner[x]
  }

  lemma RunAdded(h: Heap, owner: map<nat, Owner>, p: nat, n: nat, s1: State)
    requires HeapOk(h, owner) && SoundFrames(s1) && s1.top == h.s.top && s1.used == h.s.used + Interval(p, p + n)
    requires 0 < p && 0 < n && Interval(p, p + n) <= Free(h.s)
    ensures p !in h.runs
    ensures HeapOk(h.(s := s1, runs := h.runs[p := n]), WithRun(owner, p, Interval(p, p + n)))
  {
    var run := Interval(p, p + n);
    var h', owner' := h.(s := s1, runs := h.runs[p := n]), WithRun(owner, p, run);
    assert p in run;
    assert p in h.runs ==> RunOk(h, owner, p) && RunPage(owner, h.s, p, p);
    forall i | 0 <= i < 6 ensures CacheOk(h', owner', i) { CacheBesideRun(h, owner, p, n, s1, i); }
    forall q | q in h'.runs ensures RunOk(h', owner', q) {
      if q != p { RunBesideRun(h, owner, p, n, s1, q); }
    }
  }

  lemma CacheBesideRun(h: Heap, owner: map<nat, Owner>, p: nat, n: nat, s1: State, i: nat)
    requires HeapOk(h, owner) && SoundFrames(s1) && s1.top == h.s.top && i < 6
    requires s1.used == h.s.used + Interval(p, p + n) && Interval(p, p + n) <= Free(h.s)
    ensures CacheOk(h.(s := s1, runs := h.runs[p := n]), WithRun(owner, p, Interval(p, p + n)), i)
  {
    assert CacheOk(h, owner, i);
    var c, run := h.caches[i], Interval(p, p + n);
    forall k | 0 <= k < |All(c)|
      ensures All(c)[k].page in s1.used && OwnedBy(WithRun(owner, p, run), All(c)[k].page, InCache(i))
    {
      assert OwnedBy(owner, All(c)[k].page, InCache(i));
    }
    InvFrames(c, h.s, s1);
  }

  lemma RunBesideRun(h: Heap, owner: map<nat, Owner>, p: nat, n: nat, s1: State, q: nat)
    requires HeapOk(h, owner) && s1.top == h.s.top && q in h.runs && q != p
    requires s1.used == h.s.used + Interval(p, p + n) && Interval(p, p + n) <= Free(h.s)
    ensures RunOk(h.(s := s1, runs := h.runs[p := n]), WithRun(owner, p, Interval(p, p + n)), q)
  {
    assert RunOk(h, owner, q);
    var owner' := WithRun(owner, p, Interval(p, p + n));
    forall x | q <= x < q + h.runs[q] ensures RunPage(owner', s1, x, q) {
      assert RunPage(owner, h.s, x, q);
    }
  }

  lemma LargeAllocKeeps(h: Heap, owner: map<nat, Owner>, size: Word, search: Search) returns (owner': map<nat, Owner>)
    requires HeapOk(h, owner) && 512 < size && Served(size, search)
    ensures var r := Allocate(h, size, search);
      && HeapOk(r.h, owner') && Gained(h, r.h, r.block)
      && (r.block.Some? ==> r.block.value.Large? && r.h.runs[r.block.value.page] == PagesAsked(size))
  {
    var n := PagesAsked(size);
    var (s1, a) := PageAlloc(h.s, n, search);
    OnePageExactly(size);
    owner' := owner;
    if a == 0 {
      NoneTaken(h.s, n, search);
    } else {
      RunTaken(h.s, n, search);
      var p := a / 4096;
      RunAdded(h, owner, p, n, s1);
      RunGained(h, p, n, s1);
      owner' := WithRun(owner, p, Interval(p, p + n));
    }
  }

  lemma RunGained(h: Heap, p: nat, n: nat, s1: State)
    requires p !in h.runs
    ensures Gained(h, h.(s := s1, runs := h.runs[p := n]), Some(Large(p)))
  {
  }

  // ----- free

  /** The blocks other than b are as before, and b is gone. */
  ghost predicate LostOnly(h: Heap, h': Heap, b: Block) {
    forall x :: Live(h', x) <==> Live(h, x) && x != b
  }

  /** The object of a small block that does not start a page goes back to its cache. */
  lemma SmallFreeKeeps(h: Heap, owner: map<nat, Owner>, i: nat, a: nat)
    requires HeapOk(h, owner) && Live(h, Small(i, a)) && a % 4096 != 0
    ensures var (h', o) := Deallocate(h, Small(i, a));
      && HeapOk(h', owner)
      && (o == Done ==> LostOnly(h, h', Small(i, a)))
  {
    var (c, o) := CacheFree(h.caches[i - 2], a, true);
    ObjectGiven(h, owner, i, a);
    CacheReplaced(h, owner, i - 2, c);
    ObjectLost(h, i, a, c, o);
  }

  lemma ObjectGiven(h: Heap, owner: map<nat, Owner>, i: nat, a: nat)
    requires HeapOk(h, owner) && Live(h, Small(i, a))
    ensures var c := h.caches[i - 2]; var (c', o) := CacheFree(c, a, true);
      && Inv(c', h.s) && c'.size == c.size && |All(c')| == |All(c)|
      && (forall k :: 0 <= k < |All(c')| ==> All(c')[k].page == All(c)[k].page)
      && (o == Done ==> c'.live == c.live - {a})
  {
    assert CacheOk(h, owner, i - 2);
    FreeKeeps(h.caches[i - 2], h.s, a, true);
    FreeSamePages(h.caches[i - 2], a);
  }

  lemma FreeSamePages(c: Cache, a: nat)
    requires c.size > 0
    ensures var c' := CacheFree(c, a, true).0;
      |All(c')| == |All(c)| && forall k :: 0 <= k < |All(c)| ==> All(c')[k].page == All(c)[k].page
  {
  }

  lemma ObjectLost(h: Heap, i: nat, a: nat, c: Cache, o: Outcome)
    requires |h.caches| == 6 && 2 <= i < 8 && (o == Done ==> c.live == h.caches[i - 2].live - {a})
    ensures o == Done ==> LostOnly(h, h.(caches := h.caches[i - 2 := c]), Small(i, a))
  {
  }

  /** The run is forgotten, and some of its pages have been freed. */
  ghost predicate RunGone(h: Heap, p: nat, s1: State)
    requires p in h.runs
  {
    && SoundFrames(s1) && s1.top == h.s.top && s1.used <= h.s.used
    && forall x :: x in h.s.used && (x < p || p + h.runs[p] <= x) ==> x in s1.used
  }

  lemma RunRemoved(h: Heap, owner: map<nat, Owner>, p: nat, s1: State)
    requires HeapOk(h, owner) && p in h.runs && RunGone(h, p, s1)
    ensures HeapOk(h.(s := s1, runs := h.runs - {p}), owner)
  {
    var h' := h.(s := s1, runs := h.runs - {p});
    forall i | 0 <= i < 6 ensures CacheOk(h', owner, i) { CacheAfterRun(h, owner, p, s1, i); }
    forall q | q in h'.runs ensures RunOk(h', owner, q) { RunAfterRun(h, owner, p, s1, q); }
  }

  lemma CacheAfterRun(h: Heap, owner: map<nat, Owner>, p: nat, s1: State, i: nat)
    requires HeapOk(h, owner) && p in h.runs && RunGone(h, p, s1) && i < 6
    ensures CacheOk(h.(s := s1, runs := h.runs - {p}), owner, i)
  {
    assert CacheOk(h, owner, i);
    var c := h.caches[i];
    forall k | 0 <= k < |All(c)| ensures All(c)[k].page in s1.used {
      RunApart(h, owner, All(c)[k].page, InCache(i), p);
    }
    InvFrames(c, h.s, s1);
  }

  lemma RunAfterRun(h: Heap, owner: map<nat, Owner>, p: nat, s1: State, q: nat)
    requires HeapOk(h, owner) && p in h.runs && RunGone(h, p, s1) && q in h.runs && q != p
    ensures RunOk(h.(s := s1, runs := h.runs - {p}), owner, q)
  {
    assert RunOk(h, owner, q);
    forall x | q <= x < q + h.runs[q] ensures RunPage(owner, s1, x, q) {
      assert RunPage(owner, h.s, x, q);
      RunApart(h, owner, x, InRun(q), p);
    }
  }

  /** free of a large block forgets it and frees as many of its pages as its header says: their number
      modulo 65536. */
  lemma LargeFreeKeeps(h: Heap, owner: map<nat, Owner>, p: nat)
    requires HeapOk(h, owner) && p in h.runs
    ensures var (h', o) := Deallocate(h, Large(p));
      && o == Done && HeapOk(h', owner) && LostOnly(h, h', Large(p))
      && h'.s.used == h.s.used - Interval(p, p + h.runs[p] % 0x1_0000)
  {
    var n := h.runs[p] % 0x1_0000;
    var s1 := Release(h.s, p * 4096, n);
    RunInside(h, owner, p);
    RunFreed(h, p);
    assert Interval(p, p + n) <= Interval(p, p + h.runs[p]);
    ReleasedRun(h.s, p, n);
    RunRemoved(h, owner, p, s1);
    RunLost(h, p, s1);
  }

  /** All the pages go back exactly when their number fits the 16 bits of the header. */
  lemma LargeFreeExactly(h: Heap, owner: map<nat, Owner>, p: nat)
    requires HeapOk(h, owner) && p in h.runs
    ensures Deallocate(h, Large(p)).0.s.used == h.s.used - Interval(p, p + h.runs[p]) <==> h.runs[p] < 0x1_0000
  {
    var n := h.runs[p];
    RunInside(h, owner, p);
    LargeFreeKeeps(h, owner, p);
    if n >= 0x1_0000 {
      var last := p + n - 1;
      assert last in Interval(p, p + n);
      assert last !in Interval(p, p + n % 0x1_0000);
    }
  }

  /** A heap with 65536 free pages and nothing handed out. */
  function WideHeap(): Heap {
    Heap([Empty(0), Empty(1), Empty(2), Empty(3), Empty(4), Empty(5)], State({0}, 65537, 1), map[])
  }

  /** All of them in one block: free gives none of them back. */
  lemma WideBlockLost()
    ensures var size: Word := 0x1000_0000 - 2; var h := Allocate(WideHeap(), size, AsIntended).h;
      && PagesAsked(size) == 65536 && h.runs == map[1 := 65536]
      && Deallocate(h, Large(1)).0.s.used == h.s.used == Interval(0, 65537)
  {
    var size: Word := 0x1000_0000 - 2;
    var s := State({0}, 65537, 1);
    assert PagesAsked(size) == 65536 by { assert AlignUp(0x1000_0000) == 0x1000_0000; }
    WideRun(s);
    var h := Allocate(WideHeap(), size, AsIntended).h;
    assert h.s.used == Interval(0, 65537);
    RunFreed(h, 1);
    assert h.s.used - Interval(1, 1) == h.s.used;
  }

  lemma WideRun(s: State)
    requires s == State({0}, 65537, 1)
    ensures var (s1, a) := AllocRun(s, 65536); a == 4096 && s1.used == Interval(0, 65537)
  {
    FirstRunIsLowest(s.used, s.top, 65536, 0);
    assert !RunClear(s.used, 0, 65536) by { assert 0 in s.used; }
    assert RunClear(s.used, 1, 65536);
    assert FirstRun(s.used, s.top, 65536, 0) == Some(1);
    assert s.used + Interval(1, 65537) == Interval(0, 65537);
  }

  lemma ReleasedRun(s: State, p: nat, n: nat)
    requires SoundFrames(s) && 0 < p && Interval(p, p + n) <= s.used && p + n <= s.top
    ensures var s1 := Release(s, p * 4096, n);
      SoundFrames(s1) && s1.top == s.top && s1.used == s.used - Interval(p, p + n)
  {
    SoundMeans(s);
    RunReleased(s, p, n);
    SoundMeans(Release(s, p * 4096, n));
  }

  lemma RunFreed(h: Heap, p: nat)
    requires p in h.runs && Sized(h)
    ensures Deallocate(h, Large(p)) ==
      (h.(s := Release(h.s, p * 4096, h.runs[p] % 0x1_0000), runs := h.runs - {p}), Done)
  {
    assert p * 4096 % 4096 == 0;
  }

  lemma RunLost(h: Heap, p: nat, s1: State)
    ensures LostOnly(h, h.(s := s1, runs := h.runs - {p}), Large(p))
  {
  }

  lemma RunInside(h: Heap, owner: map<nat, Owner>, p: nat)
    requires HeapOk(h, owner) && p in h.runs
    ensures 0 < p && 0 < h.runs[p] && p + h.runs[p] <= h.s.top
    ensures Interval(p, p + h.runs[p]) <= h.s.used
  {
    assert RunOk(h, owner, p);
    var last := p + h.runs[p] - 1;
    assert RunPage(owner, h.s, last, p);
    forall x | x in Interval(p, p + h.runs[p]) ensures x in h.s.used { assert RunPage(owner, h.s, x, p); }
  }

  /** A small block goes back properly exactly when it does not start a page: otherwise free takes its cache
      index for a number of pages, and frees the page under the slab. */
  lemma SmallFreeExactly(h: Heap, owner: map<nat, Owner>, i: nat, a: nat)
    requires HeapOk(h, owner) && Live(h, Small(i, a))
    ensures (exists owner' :: HeapOk(Deallocate(h, Small(i, a)).0, owner')) <==> a % 4096 != 0
  {
    if a % 4096 != 0 {
      SmallFreeKeeps(h, owner, i, a);
    } else {
      var h' := Deallocate(h, Small(i, a)).0;
      forall owner' ensures !HeapOk(h', owner') { PageLost(h, owner, i, a, owner'); }
    }
  }

  lemma PageLost(h: Heap, owner: map<nat, Owner>, i: nat, a: nat, owner': map<nat, Owner>)
    requires HeapOk(h, owner) && Live(h, Small(i, a)) && a % 4096 == 0
    ensures Live(Deallocate(h, Small(i, a)).0, Small(i, a))
    ensures a / 4096 !in Deallocate(h, Small(i, a)).0.s.used
    ensures !HeapOk(Deallocate(h, Small(i, a)).0, owner')
  {
    var h' := Deallocate(h, Small(i, a)).0;
    assert h'.s.used == h.s.used - Interval(a / 4096, a / 4096 + i);
    assert h'.caches == h.caches;
    if HeapOk(h', owner') {
      assert CacheOk(h', owner', i - 2);
      LiveObjectsUsed(h'.caches[i - 2], h'.s, a);
    }
  }

  lemma LiveObjectsUsed(c: Cache, s: State, a: nat)
    requires Inv(c, s) && a in c.live
    ensures a / 4096 in s.used
  {
    ObjectsAreSomewhereOnce(c, s, a);
    var k :| 0 <= k < |All(c)| && IsCell(a, All(c)[k].page, c.size);
    CellFacts(a, All(c)[k].page, c.size);
  }

  /** The first object a new cache hands out starts its page, so that is the block free cannot take back. */
  lemma FirstBlockStartsPage(c: Cache, page: nat, s: State)
    requires SizeOk(c.size) && c.slabs == [Fresh(page, c.size)]
    ensures var r := CacheAlloc(c, s, true, false); r.outcome == Done && r.ptr == page * 4096
  {
    CellsExist(c.size);
    assert Cells(page, c.size)[0] == page * 4096 + Offset(c.size, 0);
  }

  // ----- runs of malloc and free

  datatype Call = MallocCall(size: Word) | FreeCall(block: Block)

  /** What a caller must keep to: sizes from 7 on, of one page at most for the code's search, and blocks given
      back that are live and do not confuse free. */
  predicate CallOk(h: Heap, call: Call, search: Search) {
    match call
    case MallocCall(size) => Served(size, search)
    case FreeCall(b) => Live(h, b) && (b.Small? ==> b.addr % 4096 != 0)
  }

  ghost function Perform(h: Heap, call: Call, search: Search): Heap
    requires Sized(h) && CallOk(h, call, search)
  {
    match call
    case MallocCall(size) => Allocate(h, size, search).h
    case FreeCall(b) => Deallocate(h, b).0
  }

  lemma CallKeeps(h: Heap, owner: map<nat, Owner>, call: Call, search: Search) returns (owner': map<nat, Owner>)
    requires HeapOk(h, owner) && CallOk(h, call, search)
    ensures HeapOk(Perform(h, call, search), owner')
  {
    owner' := owner;
    match call
    case MallocCall(size) =>
      if size <= 512 {
        SmallAllocKeeps(h, owner, size, search);
      } else {
        owner' := LargeAllocKeeps(h, owner, size, search);
      }
    case FreeCall(b) =>
      match b {
        case Small(i, a) => SmallFreeKeeps(h, owner, i, a);
        case Large(p) => LargeFreeKeeps(h, owner, p);
      }
  }

  /** The heaps a run of calls passes through. */
  ghost predicate Passes(hs: seq<Heap>, calls: seq<Call>, search: Search) {
    && |hs| == |calls| + 1
    && forall k {:trigger Follows(hs, calls, k, search)} :: 0 <= k < |calls| ==> Follows(hs, calls, k, search)
  }

  ghost predicate Follows(hs: seq<Heap>, calls: seq<Call>, k: nat, search: Search)
    requires k < |calls| && k + 1 < |hs|
  {
    && Sized(hs[k])
    && CallOk(hs[k], calls[k], search) && hs[k + 1] == Perform(hs[k], calls[k], search)
  }

  /** Any two live blocks are apart: what they may use does not overlap, headers included. */
  ghost predicate AllApart(h: Heap) {
    forall a, b :: Live(h, a) && Live(h, b) && a != b ==> End(h, a) <= Start(b) || End(h, b) <= Start(a)
  }

  lemma AllBlocksApart(h: Heap, owner: map<nat, Owner>)
    requires HeapOk(h, owner)
    ensures AllApart(h)
  {
    forall a, b | Live(h, a) && Live(h, b) && a != b ensures End(h, a) <= Start(b) || End(h, b) <= Start(a) {
      BlocksApart(h, owner, a, b);
    }
  }

  /** After every run of calls all live blocks are apart: with the intended search for blocks of any number of
      pages, with the code's for one page at most. */
  lemma {:induction false} RunKeepsBlocksApart(hs: seq<Heap>, calls: seq<Call>, search: Search, owner: map<nat, Owner>,
                                               k: nat)
      returns (owner': map<nat, Owner>)
    requires Passes(hs, calls, search) && HeapOk(hs[0], owner) && k < |hs|
    ensures HeapOk(hs[k], owner') && AllApart(hs[k])
  {
    owner' := owner;
    if k > 0 {
      var k1 := k - 1;
      owner' := RunKeepsBlocksApart(hs, calls, search, owner, k1);
      assert Follows(hs, calls, k1, search);
      owner' := CallKeeps(hs[k1], owner', calls[k1], search);
    }
    AllBlocksApart(hs[k], owner');
  }

  // ----- the limit of the code's search

  /** A malloc of pages leaves the blocks apart in every heap that is in order exactly when it asks for at most
      one page. */
  lemma MallocApartExactly(size: Word)
    requires size > 512
    ensures (forall h, owner :: HeapOk(h, owner) ==> AllApart(Allocate(h, size, AsCoded).h)) <==> OnePage(size)
  {
    OnePageExactly(size);
    if OnePage(size) {
      forall h, owner | HeapOk(h, owner) ensures AllApart(Allocate(h, size, AsCoded).h) {
        OnePageApart(h, owner, size);
      }
    } else {
      var n := PagesAsked(size);
      OneRunHeapOk(n);
      OneRunOverlaps(size);
      assert HeapOk(OneRunHeap(n), map[n := InRun(n)]);
    }
  }

  lemma OnePageApart(h: Heap, owner: map<nat, Owner>, size: Word)
    requires size > 512 && OnePage(size) && HeapOk(h, owner)
    ensures AllApart(Allocate(h, size, AsCoded).h)
  {
    var owner' := LargeAllocKeeps(h, owner, size, AsCoded);
    AllBlocksApart(Allocate(h, size, AsCoded).h, owner');
  }

  function Empty(i: nat): Cache
    requires i < 6
  {
    Cache(CacheSize(i + 2), [], [], {})
  }

  /** Only page n is handed out, as a block of its own; pages 1 to n - 1 are free, and n + 1 is the top. */
  function OneRunHeap(n: nat): Heap {
    Heap([Empty(0), Empty(1), Empty(2), Empty(3), Empty(4), Empty(5)], LongRunState(n), map[n := 1])
  }

  lemma OneRunHeapOk(n: nat)
    requires 2 <= n < 0x10_0000_0000_0000
    ensures HeapOk(OneRunHeap(n), map[n := InRun(n)])
  {
    var h, owner := OneRunHeap(n), map[n := InRun(n)];
    LongRunSound(n);
    SoundMeans(h.s);
    forall i | 0 <= i < 6 ensures CacheOk(h, owner, i) {
      assert h.caches[i] == Empty(i);
      EmptyOk(h, owner, i);
    }
    assert RunOk(h, owner, n) by { assert n in h.s.used && n < h.s.top; }
  }

  lemma EmptyOk(h: Heap, owner: map<nat, Owner>, i: nat)
    requires i < 6 && |h.caches| == 6 && h.caches[i] == Empty(i) && SoundFrames(h.s)
    ensures CacheOk(h, owner, i)
  {
    var c := h.caches[i];
    assert All(c) == [];
    assert Bag(All(c)) + multiset(c.live) == CellBag(All(c), c.size);
  }

  lemma OneRunOverlaps(size: Word)
    requires size > 512 && PagesAsked(size) >= 2
    ensures PagesAsked(size) < 0x10_0000_0000_0000
    ensures !AllApart(Allocate(OneRunHeap(PagesAsked(size)), size, AsCoded).h)
  {
    var n := PagesAsked(size);
    var h := OneRunHeap(n);
    LongRunTaken(n);
    var h' := Allocate(h, size, AsCoded).h;
    assert h'.runs == map[n := 1, 1 := n];
    assert Live(h', Large(1)) && Live(h', Large(n));
    assert End(h', Large(1)) == (n + 1) * 4096 && Start(Large(n)) == n * 4096;
  }

  /** A block has room for its header and for what was asked exactly when that is not 511 or 512 bytes, nor
      2^64 - 1, which wraps to a request of one byte. */
  lemma BlockIsLargeEnough(h: Heap, owner: map<nat, Owner>, size: Word, search: Search)
    requires HeapOk(h, owner) && Served(size, search)
    ensures var r := Allocate(h, size, search);
      r.block.Some? ==>
        (Live(r.h, r.block.value)
         && (Start(r.block.value) + 2 + size <= End(r.h, r.block.value) <==> size !in {511, 512, WORD - 1}))
  {
    if size <= 512 {
      SmallAllocKeeps(h, owner, size, search);
      SmallBlocksFit(size);
    } else {
      var owner' := LargeAllocKeeps(h, owner, size, search);
      if size + 2 + 4095 < WORD {
        PagesFit(size);
      } else {
        PagesWrap(size);
        if size < WORD - 1 { NoPagesAsked(h, owner, size, search); }
      }
    }
  }

  /** As many pages as the size and the header need, and no more. */
  lemma PagesFit(size: Word)
    requires size + 2 + 4095 < WORD
    ensures (PagesAsked(size) - 1) * 4096 < size + 2 <= PagesAsked(size) * 4096
  {
    SumKept(size);
    assert AlignUp(size + 2) % 4096 == 0;
  }

  lemma OnePageExactly(size: Word)
    ensures OnePage(size) <==> PagesAsked(size) <= 1
  {
    if size + 2 + 4095 < WORD { PagesFit(size); } else { PagesWrap(size); }
  }

  /** The sizes for which the computation of the page count wraps. */
  lemma PagesWrap(size: Word)
    requires size + 2 + 4095 >= WORD
    ensures PagesAsked(size) == if size == WORD - 1 then 1 else 0
  {
    if size + 2 < WORD { NoPageLeft(size); } else { TwoLastSizes(); }
  }

  lemma TwoLastSizes()
    ensures PagesAsked(0xFFFF_FFFF_FFFF_FFFE) == 0 && PagesAsked(0xFFFF_FFFF_FFFF_FFFF) == 1
  {
  }

  lemma NoPageLeft(size: Word)
    requires size + 2 < WORD <= size + 2 + 4095
    ensures PagesAsked(size) == 0
  {
    SumKept(size);
    assert AlignUp(size + 2) == 0;
  }

  lemma SumKept(size: Word)
    requires size + 2 < WORD
    ensures (size + 2) % 0x1_0000_0000_0000_0000 == size + 2
  {
  }

  lemma NoPagesAsked(h: Heap, owner: map<nat, Owner>, size: Word, search: Search)
    requires HeapOk(h, owner) && 512 < size && PagesAsked(size) == 0
    ensures Allocate(h, size, search).block == None
  {
    SoundMeans(h.s);
    NothingAsked(h.s);
  }
}
