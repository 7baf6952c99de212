/** What the slab allocator leaves alone in memory (fckrnl/mm/slab.c): it writes to the pages of the cache at
    hand only, and never to an object that a caller holds. */
module SlabFrames {
  import opened Bits
  import opened Frames
  import opened Memory
  import opened SlabCells
  import opened Slabs
  import opened SlabSteps
  import opened SlabReap
  import opened SlabLinks

  function FrameOf(w: nat): nat {
    w / 512
  }

  predicate InObject(w: nat, a: nat, size: nat) {
    a / 8 <= w < (a + size) / 8
  }

  ghost predicate InSome(w: nat, live: set<nat>, size: nat) {
    exists a :: a in live && InObject(w, a, size)
  }

  predicate SameWord(ram: seq<Word>, ram': seq<Word>, w: nat) {
    w < |ram| && w < |ram'| ==> ram'[w] == ram[w]
  }

  /** From ram to ram' words outside the given pages are as before, and so are the given objects. */
  ghost predicate Spared(ram: seq<Word>, ram': seq<Word>, pages: set<nat>, live: set<nat>, size: nat) {
    && |ram'| == |ram|
    && forall w: nat {:trigger SameWord(ram, ram', w)} ::
         FrameOf(w) !in pages || InSome(w, live, size) ==> SameWord(ram, ram', w)
  }

  lemma SparedSame(ram: seq<Word>, pages: set<nat>, live: set<nat>, size: nat)
    ensures Spared(ram, ram, pages, live, size)
  {
  }

  /** Spared twice: the pages add up, and the objects spared are those of both. */
  lemma SparedTwice(ram0: seq<Word>, ram1: seq<Word>, ram2: seq<Word>, pages: set<nat>, pages1: set<nat>,
                    pages2: set<nat>, live: set<nat>, live1: set<nat>, live2: set<nat>, size: nat)
    requires Spared(ram0, ram1, pages1, live1, size) && Spared(ram1, ram2, pages2, live2, size)
    requires pages1 <= pages && pages2 <= pages && live <= live1 && live <= live2
    ensures Spared(ram0, ram2, pages, live, size)
  {
    forall w: nat | FrameOf(w) !in pages || InSome(w, live, size) ensures SameWord(ram0, ram2, w) {
      if InSome(w, live, size) {
        var a :| a in live && InObject(w, a, size);
        assert a in live1 && a in live2;
      }
      assert SameWord(ram0, ram1, w) && SameWord(ram1, ram2, w);
    }
  }

  lemma SparedMore(ram: seq<Word>, ram': seq<Word>, pages: set<nat>, pages': set<nat>, live: set<nat>, size: nat)
    requires Spared(ram, ram', pages, live, size) && pages <= pages'
    ensures Spared(ram, ram', pages', live, size)
  {
  }

  lemma SparedNone(ram: seq<Word>, ram': seq<Word>, pages: set<nat>, size: nat, size': nat)
    requires Spared(ram, ram', pages, {}, size)
    ensures Spared(ram, ram', pages, {}, size')
  {
    forall w: nat | FrameOf(w) !in pages || InSome(w, {}, size') ensures SameWord(ram, ram', w) {}
  }

  /** pmm_allocz of a page. */
  lemma PageSpared(ram: seq<Word>, page: nat, pages: set<nat>)
    requires page in pages
    ensures Spared(ram, Zeroed(ram, page, 1), pages, {}, 0)
  {
    forall w: nat | FrameOf(w) !in pages || InSome(w, {}, 0) ensures SameWord(ram, Zeroed(ram, page, 1), w) {
      assert w / 512 != page;
    }
  }

  // ----- the pages of a cache

  lemma PageIn(slabs: seq<Slab>, i: nat)
    requires i < |slabs|
    ensures slabs[i].page in PageSet(slabs)
  {
    PagesHas(slabs, slabs[i].page);
  }

  lemma SamePageSet(slabs: seq<Slab>, slabs': seq<Slab>)
    requires |slabs'| == |slabs| && forall i :: 0 <= i < |slabs| ==> slabs'[i].page == slabs[i].page
    ensures PageSet(slabs') == PageSet(slabs)
  {
    forall x ensures x in PageSet(slabs') <==> x in PageSet(slabs) {
      PagesHas(slabs, x);
      PagesHas(slabs', x);
    }
  }

  lemma {:induction false} PagesSum(s: seq<Slab>, t: seq<Slab>)
    ensures PageSet(s + t) == PageSet(s) + PageSet(t)
  {
    if s == [] {
      assert s + t == t;
    } else {
      assert (s + t)[1..] == s[1..] + t;
      PagesSum(s[1..], t);
    }
  }

  /** A linked slab adds its page to the cache. */
  lemma LinkedPageSet(c: Cache, k: nat, page: nat)
    requires c.size > 0 && (c.slabs == [] || k < |c.slabs|)
    ensures PageSet(All(Linked(c, k, page))) == PageSet(All(c)) + {page}
  {
    var f := Fresh(page, c.size);
    assert PageSet([f]) == {page} by { assert [f][1..] == []; }
    if c.slabs == [] {
      PagesSum([f], c.dropped);
      assert All(c) == c.dropped;
    } else {
      var head, tail := c.slabs[..k + 1], c.slabs[k + 1..];
      assert c.slabs == head + tail;
      PagesSum(head + [f], c.dropped + tail);
      PagesSum(head, [f]);
      PagesSum(c.dropped, tail);
      PagesSum(head + tail, c.dropped);
      PagesSum(head, tail);
    }
  }

  /** Every page of a cache is used, and none is page 0. */
  lemma PagesAreUsed(c: Cache, s: State)
    requires Inv(c, s)
    ensures PageSet(All(c)) <= s.used && 0 !in PageSet(All(c))
  {
    forall x | x in PageSet(All(c)) ensures x in s.used && x != 0 { PagesHas(All(c), x); }
  }

  /** The frame allocator has moved on, but still has these pages in use. */
  ghost predicate StillUsed(s: State, s': State, pages: set<nat>) {
    SoundFrames(s') && s'.top == s.top && pages <= s'.used
  }

  /** What is taken from the frame allocator is what the cache gains. */
  ghost predicate Took(c: Cache, s: State, c': Cache, s': State) {
    StillUsed(s, s', s.used) && PageSet(All(c')) == PageSet(All(c)) + (s'.used - s.used)
  }

  lemma TookNothing(c: Cache, s: State)
    requires SoundFrames(s)
    ensures Took(c, s, c, s)
  {
    assert s.used - s.used == {};
    assert PageSet(All(c)) + {} == PageSet(All(c));
  }

  lemma TookTwice(c0: Cache, s0: State, c1: Cache, s1: State, c2: Cache, s2: State)
    requires Took(c0, s0, c1, s1) && Took(c1, s1, c2, s2)
    ensures Took(c0, s0, c2, s2)
  {
    assert PageSet(All(c0)) + (s1.used - s0.used) + (s2.used - s1.used) == PageSet(All(c0)) + (s2.used - s0.used);
  }

  lemma LinkTakes(c: Cache, s: State, k: nat)
    requires Inv(c, s) && (c.slabs == [] || k < |c.slabs|) && Alloc(s, 1).1 != 0
    ensures Took(c, s, Linked(c, k, Alloc(s, 1).1 / 4096), Alloc(s, 1).0)
  {
    var (s1, a) := Alloc(s, 1);
    SoundMeans(s);
    AllocOnePage(s);
    SoundMeans(s1);
    LinkedPageSet(c, k, a / 4096);
    assert s1.used - s.used == {a / 4096};
  }

  predicate HasPage(c: Cache, x: nat) {
    exists i :: 0 <= i < |All(c)| && All(c)[i].page == x
  }

  /** The same, page by page. */
  ghost predicate TookEach(c: Cache, s: State, r: (Cache, State, bool)) {
    && StillUsed(s, r.1, s.used)
    && forall x {:trigger HasPage(r.0, x)} :: HasPage(r.0, x) <==> HasPage(c, x) || x in r.1.used - s.used
  }

  lemma TookEachMeans(c: Cache, s: State, r: (Cache, State, bool))
    ensures TookEach(c, s, r) <==> Took(c, s, r.0, r.1)
  {
    forall x ensures HasPage(c, x) <==> x in PageSet(All(c)) { PagesHas(All(c), x); }
    forall x ensures HasPage(r.0, x) <==> x in PageSet(All(r.0)) { PagesHas(All(r.0), x); }
  }

  lemma {:induction false} GrowTakesEach(c: Cache, s: State, k: nat, n: nat)
    requires Inv(c, s) && (c.slabs == [] || k < |c.slabs|)
    ensures TookEach(c, s, GrowFrom(c, s, k, n))
    decreases n
  {
    if n == 0 || Alloc(s, 1).1 == 0 {
      NoPage(s);
      TookNothing(c, s);
      TookEachMeans(c, s, (c, s, n == 0));
    } else {
      var s1 := Alloc(s, 1).0;
      var k1, n1, c1 := if c.slabs == [] then 0 else k + 1, n - 1, Linked(c, k, Alloc(s, 1).1 / 4096);
      LinkKeeps(c, s, k);
      assert k1 < |c1.slabs|;
      GrowTakesEach(c1, s1, k1, n1);
      GrowTakesStep(c, s, k, c1, s1, GrowFrom(c1, s1, k1, n1));
    }
  }

  lemma GrowTakesStep(c: Cache, s: State, k: nat, c1: Cache, s1: State, r: (Cache, State, bool))
    requires Inv(c, s) && (c.slabs == [] || k < |c.slabs|) && Alloc(s, 1).1 != 0 && s1 == Alloc(s, 1).0
    requires c1 == Linked(c, k, Alloc(s, 1).1 / 4096) && TookEach(c1, s1, r)
    ensures TookEach(c, s, r)
  {
    LinkTakes(c, s, k);
    TookEachMeans(c1, s1, r);
    TookTwice(c, s, c1, s1, r.0, r.1);
    TookEachMeans(c, s, r);
  }

  lemma GrowTakes(c: Cache, s: State, k: nat, n: nat)
    requires Inv(c, s) && (c.slabs == [] || k < |c.slabs|)
    ensures var (c', s', _) := GrowFrom(c, s, k, n); Took(c, s, c', s')
  {
    GrowTakesEach(c, s, k, n);
    TookEachMeans(c, s, GrowFrom(c, s, k, n));
  }

  lemma PopPageSet(c: Cache, k: nat)
    requires k < |c.slabs| && c.slabs[k].free != []
    ensures PageSet(All(Popped(c, k))) == PageSet(All(c))
  {
    SamePageSet(All(c), All(Popped(c, k)));
  }

  lemma PushPageSet(c: Cache, k: nat, ptr: nat)
    requires k < |c.slabs|
    ensures PageSet(All(Pushed(c, k, ptr))) == PageSet(All(c))
  {
    SamePageSet(All(c), All(Pushed(c, k, ptr)));
  }

  lemma AllocTakes(c: Cache, s: State, panic: bool, autoGrow: bool)
    requires Inv(c, s)
    ensures var r := CacheAlloc(c, s, panic, autoGrow);
      Took(c, s, r.c, r.s)
  {
    var k := FirstFree(c.slabs);
    TookNothing(c, s);
    if k < |c.slabs| {
      PopPageSet(c, k);
    } else if autoGrow {
      GrowTakes(c, s, 0, 1);
      var (c1, s1, ok) := Grow(c, s, 1);
      var j := FirstFree(c1.slabs);
      if ok && j < |c1.slabs| { PopPageSet(c1, j); }
    }
  }

  lemma FreeTakesNothing(c: Cache, ptr: nat, panic: bool)
    requires c.size > 0
    ensures PageSet(All(CacheFree(c, ptr, panic).0)) == PageSet(All(c))
  {
    var k := FirstRoom(c.slabs, CountMax(c.size));
    if k < |c.slabs| { PushPageSet(c, k, ptr); }
  }

  // ----- what the operations write

  /** No live object reaches into a slab_t. */
  lemma HeaderOffObjects(c: Cache, s: State, w: nat, page: nat)
    requires Inv(c, s) && page * 512 + 508 <= w <= page * 512 + 511
    ensures !InSome(w, c.live, c.size)
  {
    forall a | a in c.live ensures !InObject(w, a, c.size) {
      if InObject(w, a, c.size) { WordInObject(c, s, a, w, page); }
    }
  }

  /** A word of a live object lies in a page of the cache. */
  lemma ObjectOnPages(c: Cache, s: State, w: nat)
    requires Inv(c, s) && InSome(w, c.live, c.size)
    ensures FrameOf(w) in PageSet(All(c)) && FrameOf(w) in s.used && FrameOf(w) != 0
  {
    var a :| a in c.live && InObject(w, a, c.size);
    ObjectsAreSomewhereOnce(c, s, a);
    var i :| 0 <= i < |All(c)| && IsCell(a, All(c)[i].page, c.size);
    CellFacts(a, All(c)[i].page, c.size);
    PageIn(All(c), i);
    assert FrameOf(w) == All(c)[i].page;
  }

  /** Stores to one slab_t of the cache. */
  lemma HeaderSpared(ram: seq<Word>, ram': seq<Word>, c: Cache, s: State, page: nat, w: nat)
    requires Inv(c, s) && page in PageSet(All(c)) && OnlyTwo(ram, ram', w) && page * 512 + 508 <= w <= page * 512 + 510
    ensures Spared(ram, ram', PageSet(All(c)), c.live, c.size)
  {
    HeaderOffObjects(c, s, w, page);
    HeaderOffObjects(c, s, w + 1, page);
    assert FrameOf(w) == page && FrameOf(w + 1) == page;
  }

  /** ... and to an object that is no longer live. */
  lemma PushSpared(ram: seq<Word>, c: Cache, s: State, k: nat, ptr: Word, head: Word, count: Word)
    requires Inv(c, s) && k < |c.slabs| && ptr in c.live
    requires c.slabs[k].page * 512 + 512 <= |ram| && ptr / 8 + 1 < |ram|
    ensures Spared(ram, PushWords(ram, c.slabs[k].page, ptr, head, count), PageSet(All(c)), c.live - {ptr}, c.size)
  {
    var page := c.slabs[k].page;
    var ram1 := ram[ptr / 8 := head][ptr / 8 + 1 := ptr];
    assert All(c)[k] == c.slabs[k];
    PageIn(All(c), k);
    ObjectSpared(ram, ram1, c, s, ptr);
    HeaderSpared(ram1, PopWords(ram1, page, ptr, count), c, s, page, page * 512 + 509);
    SparedTwice(ram, ram1, PopWords(ram1, page, ptr, count), PageSet(All(c)), PageSet(All(c)), PageSet(All(c)),
                c.live - {ptr}, c.live - {ptr}, c.live, c.size);
  }

  lemma ObjectSpared(ram: seq<Word>, ram': seq<Word>, c: Cache, s: State, ptr: nat)
    requires Inv(c, s) && ptr in c.live && OnlyTwo(ram, ram', ptr / 8)
    ensures Spared(ram, ram', PageSet(All(c)), c.live - {ptr}, c.size)
  {
    forall w: nat | FrameOf(w) !in PageSet(All(c)) || InSome(w, c.live - {ptr}, c.size) ensures SameWord(ram, ram', w) {
      if w == ptr / 8 || w == ptr / 8 + 1 { OneObjectOnly(c, s, ptr, w); }
    }
  }

  lemma OneObjectOnly(c: Cache, s: State, ptr: nat, w: nat)
    requires Inv(c, s) && ptr in c.live && (w == ptr / 8 || w == ptr / 8 + 1)
    ensures FrameOf(w) in PageSet(All(c)) && !InSome(w, c.live - {ptr}, c.size)
  {
    LiveIsObject(c, s, ptr);
    assert InObject(w, ptr, c.size);
    ObjectOnPages(c, s, w);
    forall a | a in c.live - {ptr} ensures !InObject(w, a, c.size) {
      ObjectsAreSomewhereOnce(c, s, a);
      ObjectsAreSomewhereOnce(c, s, ptr);
      TwoCells(c, a, ptr);
    }
  }

  /** The stores of slab_create_slab and slab_init_bufctls for a new page. */
  lemma GrowthSpared(ram0: seq<Word>, ram3: seq<Word>, c: Cache, s: State, k: nat, page: nat)
    requires Inv(c, s) && (c.slabs == [] || k < |c.slabs|) && page !in s.used && LinkedIn(ram0, ram3, c, k, page)
    ensures Spared(ram0, ram3, PageSet(All(c)) + {page}, c.live, c.size)
  {
    var pages := PageSet(All(c)) + {page};
    forall w: nat | FrameOf(w) !in pages || InSome(w, c.live, c.size) ensures SameWord(ram0, ram3, w) {
      if InSome(w, c.live, c.size) { ObjectOnPages(c, s, w); }
      assert w / 512 != page;
      if c.slabs != [] { HeaderOnPages(c, s, k); }
    }
  }

  lemma HeaderOnPages(c: Cache, s: State, k: nat)
    requires Inv(c, s) && k < |c.slabs|
    ensures var w := c.slabs[k].page * 512 + 508; FrameOf(w) in PageSet(All(c)) && !InSome(w, c.live, c.size)
  {
    assert All(c)[k] == c.slabs[k];
    PageIn(All(c), k);
    HeaderOffObjects(c, s, c.slabs[k].page * 512 + 508, c.slabs[k].page);
  }

  /** A failed pmm_allocz. */
  lemma ClearSpared(ram: seq<Word>, c: Cache, s: State, pages: set<nat>)
    requires Inv(c, s) && 0 in pages
    ensures Spared(ram, Zeroed(ram, 0, 1), pages, c.live, c.size)
  {
    forall w: nat | FrameOf(w) !in pages || InSome(w, c.live, c.size) ensures SameWord(ram, Zeroed(ram, 0, 1), w) {
      if InSome(w, c.live, c.size) { ObjectOnPages(c, s, w); }
      assert w / 512 != 0;
    }
  }

  // ----- what another holder of pages may do

  lemma InvBeside(c: Cache, s: State, s': State)
    requires Inv(c, s) && StillUsed(s, s', PageSet(All(c)))
    ensures Inv(c, s')
  {
    forall i | 0 <= i < |All(c)| ensures All(c)[i].page in s'.used { PageIn(All(c), i); }
  }

  /** A cache depends on its own pages only. */
  lemma RepresentsBeside(ram: seq<Word>, ram': seq<Word>, c: Cache, s: State, pages: set<nat>, live: set<nat>, size: nat)
    requires Inv(c, s) && Represents(ram, c.slabs) && Spared(ram, ram', pages, live, size) && pages !! PageSet(All(c))
    ensures Represents(ram', c.slabs)
  {
    forall i | 0 <= i < |c.slabs| ensures ListedAt(ram', c.slabs, i) {
      assert ListedAt(ram, c.slabs, i);
      SlabBeside(ram, ram', c, s, pages, live, size, i);
    }
  }

  lemma SlabBeside(ram: seq<Word>, ram': seq<Word>, c: Cache, s: State, pages: set<nat>, live: set<nat>, size: nat, i: nat)
    requires Inv(c, s) && Spared(ram, ram', pages, live, size) && pages !! PageSet(All(c)) && i < |c.slabs|
    requires SlabAt(ram, c.slabs[i], NextOf(c.slabs, i))
    ensures SlabAt(ram', c.slabs[i], NextOf(c.slabs, i))
  {
    var t := c.slabs[i];
    assert All(c)[i] == t;
    PageIn(All(c), i);
    var w := t.page * 512 + 508;
    assert FrameOf(w) == t.page && FrameOf(w + 1) == t.page && FrameOf(w + 2) == t.page;
    assert SameWord(ram, ram', w) && SameWord(ram, ram', w + 1) && SameWord(ram, ram', w + 2);
    forall j | 0 <= j < |t.free| && t.free[j] / 8 < |ram| ensures ram'[t.free[j] / 8] == ram[t.free[j] / 8] {
      FreeOnPages(c, s, i, j);
      assert SameWord(ram, ram', t.free[j] / 8);
    }
    ChainKept(ram, ram', t.free);
  }

  lemma FreeOnPages(c: Cache, s: State, i: nat, j: nat)
    requires Inv(c, s) && i < |c.slabs| && j < |c.slabs[i].free|
    ensures FrameOf(c.slabs[i].free[j] / 8) in PageSet(All(c))
  {
    var a := c.slabs[i].free[j];
    assert All(c)[i] == c.slabs[i];
    FreeInBag(All(c), i, a);
    ObjectsAreSomewhereOnce(c, s, a);
    var x :| 0 <= x < |All(c)| && IsCell(a, All(c)[x].page, c.size);
    CellFacts(a, All(c)[x].page, c.size);
    WordPage(a);
    PageIn(All(c), x);
  }
}
