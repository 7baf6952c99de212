/** The slab allocator's code (fckrnl/mm/slab.c) over physical memory. */
module SlabCaches {
  import opened Bits
  import opened Frames
  import opened Memory
  import opened BitmapStorage
  import opened SlabCells
  import opened Slabs
  import opened SlabSteps
  import opened SlabLinks
  import opened SlabRuns
  import opened SlabReap
  import opened SlabFrames

  lemma {:induction false} FirstFreeAt(slabs: seq<Slab>, k: nat)
    requires k <= |slabs| && (forall i :: 0 <= i < k ==> slabs[i].free == [])
    requires k < |slabs| ==> slabs[k].free != []
    ensures FirstFree(slabs) == k
  {
    if k > 0 {
      forall i | 0 <= i < k - 1 ensures slabs[1..][i].free == [] { assert slabs[1..][i] == slabs[i + 1]; }
      FirstFreeAt(slabs[1..], k - 1);
    }
  }

  lemma {:induction false} FirstRoomAt(slabs: seq<Slab>, max: nat, k: nat)
    requires k <= |slabs| && (forall i :: 0 <= i < k ==> |slabs[i].free| >= max)
    requires k < |slabs| ==> |slabs[k].free| < max
    ensures FirstRoom(slabs, max) == k
  {
    if k > 0 {
      forall i | 0 <= i < k - 1 ensures |slabs[1..][i].free| >= max { assert slabs[1..][i] == slabs[i + 1]; }
      FirstRoomAt(slabs[1..], max, k - 1);
    }
  }

  /** There is memory behind every page the frame allocator searches, in reach of a 64-bit address. */
  ghost predicate InRange(m: Mem) {
    m.frames.top * 512 <= |m.ram| && m.frames.top * 4096 <= WORD
  }

  /** Memory holds the cache, and the cache obeys the invariant; StoredMeans opens the definition where it is
      needed. */
  ghost predicate Stored(m: Mem, c: Cache) {
    forall k: nat {:trigger StoredAt(m, c, k)} :: StoredAt(m, c, k)
  }

  ghost predicate StoredAt(m: Mem, c: Cache, k: nat) {
    InRange(m) && Inv(c, m.frames) && Represents(m.ram, c.slabs)
  }

  lemma StoredMeans(m: Mem, c: Cache)
    ensures Stored(m, c) <==> InRange(m) && Inv(c, m.frames) && Represents(m.ram, c.slabs)
  {
    if Stored(m, c) { assert StoredAt(m, c, 0); }
  }

  /** What a slab_t says, and where its first free object lies. */
  lemma StoredSlab(m: Mem, c: Cache, k: nat)
    requires Stored(m, c) && c.size > 0 && k < |c.slabs|
    ensures var t := c.slabs[k]; var w := t.page * 512 + 508;
      && w == Header(t.page) / 8 && Header(t.page) > 0 && w + 3 < |m.ram|
      && m.ram[w] == NextOf(c.slabs, k) && m.ram[w + 1] == |t.free| && m.ram[w + 2] == Head(t.free)
      && |t.free| <= CountMax(c.size) && (t.free == [] <==> Head(t.free) == 0)
  {
    StoredMeans(m, c);
    assert ListedAt(m.ram, c.slabs, k);
    HeaderWords(c.slabs[k].page);
    assert All(c)[k] == c.slabs[k];
    if c.slabs[k].free != [] { FreeIsObject(c, m.frames, k, 0); }
  }

  lemma StoredLink(m: Mem, c: Cache, k: nat)
    requires Stored(m, c) && k < |c.slabs| && c.slabs[k].free != []
    ensures var free := c.slabs[k].free; free[0] / 8 < |m.ram| && m.ram[free[0] / 8] == Head(free[1..])
  {
    StoredMeans(m, c);
    assert ListedAt(m.ram, c.slabs, k);
    assert LinkAt(m.ram, c.slabs[k].free, 0);
  }

  lemma StoredObject(m: Mem, c: Cache, a: nat)
    requires Stored(m, c) && a in c.live
    ensures a / 8 + 1 < |m.ram| && a % 16 == 0 && a > 0
  {
    StoredMeans(m, c);
    LiveIsObject(c, m.frames, a);
    WordPage(a);
  }

  /** From before to m pmm_allocz has taken a page, of zeros. */
  ghost predicate Taken(c: Cache, before: Mem, m: Mem, page: nat) {
    && Stored(before, c) && NewPage(c, before.frames, m.frames, page)
    && m.ram == Zeroed(before.ram, page, 1) && InRange(m)
    && page !in before.frames.used && page * 4096 + 4096 <= WORD && page * 512 + 512 <= |m.ram|
  }

  lemma PageTaken(c: Cache, before: Mem, m: Mem)
    requires Stored(before, c)
    requires (m, Alloc(before.frames, 1).1) == AllocZeroed(before, 1) && Alloc(before.frames, 1).1 != 0
    ensures var a := Alloc(before.frames, 1).1; Taken(c, before, m, a / 4096) && a == a / 4096 * 4096
  {
    var s := before.frames;
    StoredMeans(before, c);
    SoundMeans(s);
    AllocOnePage(s);
    FreshPage(c, s);
  }

  /** The new page is none of the cache's, and holds zeros. */
  lemma TakenPage(c: Cache, before: Mem, m: Mem, page: nat, k: nat)
    requires Taken(c, before, m, page) && c.size > 0 && (c.slabs == [] || k < |c.slabs|)
    ensures page > 0 && forall w :: page * 512 <= w < page * 512 + 512 ==> m.ram[w] == 0
    ensures c.slabs != [] ==> c.slabs[k].page != page && c.slabs[k].page * 512 + 512 <= |m.ram|
  {
    if c.slabs != [] {
      assert All(c)[k] == c.slabs[k];
      StoredSlab(before, c, k);
    }
  }

  lemma NoneLeft(c: Cache, before: Mem)
    requires Stored(before, c)
    ensures before.frames.top > 0
    ensures Alloc(before.frames, 1).1 == 0 ==> Alloc(before.frames, 1) == (before.frames, 0)
  {
    StoredMeans(before, c);
    TopPositive(before.frames);
    NoPage(before.frames);
  }

  lemma AfterGrowth(before: Mem, ram1: seq<Word>, ram2: seq<Word>, m: Mem, c: Cache, k: nat, page: nat)
    requires Taken(c, before, Mem(ram1, m.frames), page) && c.size > 0 && (c.slabs == [] || k < |c.slabs|)
    requires LinkedIn(ram1, ram2, c, k, page)
    requires SameOutside(ram2, m.ram, page) && Filling(m.ram, page, c.size, CountMax(c.size))
    ensures Stored(m, Linked(c, k, page))
    ensures Spared(before.ram, m.ram, PageSet(All(Linked(c, k, page))), c.live, c.size)
    ensures PageSet(All(Linked(c, k, page))) == PageSet(All(c)) + {page}
  {
    StoredMeans(before, c);
    assert forall i :: 0 <= i < |c.slabs| ==> c.slabs[i] == All(c)[i];
    GrowthLinks(before.ram, ram1, ram2, m.ram, c, before.frames, k, page);
    LinkKeepsAt(c, before.frames, m.frames, k, page);
    StoredMeans(m, Linked(c, k, page));
    ZeroedOutside(before.ram, page);
    LinkedThrough(before.ram, ram1, ram2, m.ram, c, k, page);
    GrowthSpared(before.ram, m.ram, c, before.frames, k, page);
    LinkedPageSet(c, k, page);
  }

  /** The new page is none of the bitmap's. */
  lemma GrowthAvoids(before: Mem, c: Cache, k: nat, page: nat, st: Storage)
    requires page !in before.frames.used && c.size > 0 && (c.slabs == [] || k < |c.slabs|)
    requires Guards(before.frames, st) && Avoids(PageSet(All(c)), st)
    ensures Avoids(PageSet(All(Linked(c, k, page))), st)
  {
    LinkedPageSet(c, k, page);
    AvoidsMore(PageSet(All(c)), PageSet(All(c)) + {page}, before.frames, st);
  }

  /** Both ends of the list with the new slab. */
  lemma LinkedEnds(c: Cache, k: nat, page: nat)
    requires c.size > 0 && (c.slabs == [] || k < |c.slabs|)
    ensures var c' := Linked(c, k, page);
      && c'.slabs != [] && c'.slabs[|c'.slabs| - 1].page == page && c'.size == c.size && c'.live == c.live
      && HeadOf(c'.slabs) == if c.slabs == [] then Header(page) else HeadOf(c.slabs)
  {
  }

  lemma GrowthLinks(ram0: seq<Word>, ram1: seq<Word>, ram2: seq<Word>, ram3: seq<Word>, c: Cache, s: State, k: nat, page: nat)
    requires Inv(c, s) && Represents(ram0, c.slabs) && (c.slabs == [] || k < |c.slabs|)
    requires page !in s.used && ram1 == Zeroed(ram0, page, 1) && LinkedIn(ram1, ram2, c, k, page)
    requires forall i :: 0 <= i < |c.slabs| ==> c.slabs[i].page != page
    requires SameOutside(ram2, ram3, page) && Filling(ram3, page, c.size, CountMax(c.size))
    ensures Represents(ram3, Linked(c, k, page).slabs)
  {
    ZeroedOutside(ram0, page);
    LinkedThrough(ram0, ram1, ram2, ram3, c, k, page);
    FilledUp(ram3, page, c.size);
    LinkNew(ram0, ram3, c, s, k, page);
  }

  lemma StoredPop(m: Mem, c: Cache, k: nat, next: Word, count: Word)
    requires Stored(m, c) && k < |c.slabs| && c.slabs[k].free != [] && c.slabs[k].page * 512 + 512 <= |m.ram|
    requires next == Head(c.slabs[k].free[1..]) && count == |c.slabs[k].free| - 1
    ensures Stored(m.(ram := PopWords(m.ram, c.slabs[k].page, next, count)), Popped(c, k))
    ensures Spared(m.ram, PopWords(m.ram, c.slabs[k].page, next, count), PageSet(All(Popped(c, k))), c.live, c.size)
    ensures PageSet(All(Popped(c, k))) == PageSet(All(c))
  {
    var page, m' := c.slabs[k].page, m.(ram := PopWords(m.ram, c.slabs[k].page, next, count));
    StoredMeans(m, c);
    PopLinks(m.ram, c, m.frames, k, next, count);
    PopKeeps(c, m.frames, k);
    StoredMeans(m', Popped(c, k));
    HeaderOnPages(c, m.frames, k);
    assert page in PageSet(All(c)) by { assert All(c)[k] == c.slabs[k]; PageIn(All(c), k); }
    HeaderSpared(m.ram, m'.ram, c, m.frames, page, page * 512 + 509);
    PopPageSet(c, k);
  }

  lemma StoredPush(m: Mem, c: Cache, k: nat, ptr: Word, head: Word, count: Word)
    requires Stored(m, c) && c.size > 0 && k < |c.slabs| && ptr in c.live && |c.slabs[k].free| < CountMax(c.size)
    requires c.slabs[k].page * 512 + 512 <= |m.ram| && ptr / 8 + 1 < |m.ram|
    requires head == Head(c.slabs[k].free) && count == |c.slabs[k].free| + 1
    ensures var c', ram' := Pushed(c, k, ptr), PushWords(m.ram, c.slabs[k].page, ptr, head, count);
      && Stored(m.(ram := ram'), c') && Spared(m.ram, ram', PageSet(All(c')), c'.live, c.size)
      && PageSet(All(c')) == PageSet(All(c))
  {
    var c', ram' := Pushed(c, k, ptr), PushWords(m.ram, c.slabs[k].page, ptr, head, count);
    StoredMeans(m, c);
    PushLinks(m.ram, c, m.frames, k, ptr, head, count);
    PushKeeps(c, m.frames, k, ptr);
    StoredMeans(m.(ram := ram'), c');
    PushSpared(m.ram, c, m.frames, k, ptr, head, count);
    PushPageSet(c, k, ptr);
  }

  lemma StoredClear(m: Mem, c: Cache)
    requires Stored(m, c)
    ensures Stored(m.(ram := Zeroed(m.ram, 0, 1)), c)
    ensures Spared(m.ram, Zeroed(m.ram, 0, 1), PageSet(All(c)) + {0}, c.live, c.size)
  {
    StoredMeans(m, c);
    PageZeroCleared(m.ram, c, m.frames);
    StoredMeans(m.(ram := Zeroed(m.ram, 0, 1)), c);
    ClearSpared(m.ram, c, m.frames, PageSet(All(c)) + {0});
  }

  /** Another holder of pages may do what it likes with them, and with the frame allocator as long as it keeps
      the pages of the cache in use: the cache is as before. */
  lemma StoredBeside(m: Mem, m': Mem, c: Cache, pages: set<nat>, live: set<nat>, size: nat)
    requires Stored(m, c) && Spared(m.ram, m'.ram, pages, live, size) && pages !! PageSet(All(c))
    requires StillUsed(m.frames, m'.frames, PageSet(All(c)))
    ensures Stored(m', c)
  {
    StoredMeans(m, c);
    StoredMeans(m', c);
    InvBeside(c, m.frames, m'.frames);
    RepresentsBeside(m.ram, m'.ram, c, m.frames, pages, live, size);
  }

  lemma StoredStartsOver(m: Mem, c: Cache, panic: bool)
    requires Stored(m, c) && FirstFree(c.slabs) == |c.slabs|
    ensures c.size > 0
    ensures var (c1, s1, ok) := Slabs.Grow(c, m.frames, 1);
      if ok then c1.size == c.size && FirstFree(c1.slabs) < |c1.slabs|
                 && CacheAlloc(c, m.frames, panic, true) == CacheAlloc(c1, s1, panic, true)
      else CacheAlloc(c, m.frames, panic, true) == Result(c1, s1, 0, if panic then Panic else Endless)
  {
    StoredMeans(m, c);
    AllocStartsOver(c, m.frames, panic);
  }

  lemma StoredTakes(m: Mem, c: Cache, panic: bool)
    requires Stored(m, c)
    ensures c.size > 0 && PageSet(All(c)) <= PageSet(All(CacheAlloc(c, m.frames, panic, true).c))
  {
    StoredMeans(m, c);
    AllocTakes(c, m.frames, panic, true);
  }

  // ----- the states a growing cache passes through

  datatype Point = Point(c: Cache, s: State, k: nat)

  ghost predicate GrewNext(trace: seq<Point>, j: nat)
    requires j + 1 < |trace|
  {
    var p := trace[j];
    var (s1, a) := Alloc(p.s, 1);
    && a != 0 && p.c.size > 0 && (p.c.slabs == [] || p.k < |p.c.slabs|)
    && trace[j + 1] == Point(Linked(p.c, p.k, a / 4096), s1, if p.c.slabs == [] then 0 else p.k + 1)
  }

  ghost predicate GrewAll(trace: seq<Point>) {
    forall j {:trigger GrewNext(trace, j)} :: 0 <= j < |trace| - 1 ==> GrewNext(trace, j)
  }

  lemma GrewOneMore(trace: seq<Point>, p: Point)
    requires 0 < |trace| && GrewAll(trace) && GrewNext([trace[|trace| - 1], p], 0)
    ensures GrewAll(trace + [p])
  {
    forall j | 0 <= j < |trace| ensures GrewNext(trace + [p], j) {
      if j < |trace| - 1 { assert GrewNext(trace, j); } else { assert GrewNext([trace[|trace| - 1], p], 0); }
    }
  }

  /** Where slab_cache_grow is after the trace, with n slabs still to come. */
  lemma {:induction false} TraceGrows(trace: seq<Point>, n: nat)
    requires 0 < |trace| && GrewAll(trace)
    requires trace[|trace| - 1].c.size > 0
    requires var p := trace[|trace| - 1]; p.c.slabs == [] || p.k < |p.c.slabs|
    ensures var p, q := trace[0], trace[|trace| - 1];
      && p.c.size > 0 && (p.c.slabs == [] || p.k < |p.c.slabs|)
      && GrowFrom(p.c, p.s, p.k, |trace| - 1 + n) == GrowFrom(q.c, q.s, q.k, n)
    decreases |trace|
  {
    if |trace| > 1 {
      var rest := trace[1..];
      assert GrewNext(trace, 0);
      forall j | 0 <= j < |rest| - 1 ensures GrewNext(rest, j) {
        var j1 := j + 1;
        assert GrewNext(trace, j1);
      }
      TraceGrows(rest, n);
    }
  }

  /** ... with none to come ... */
  lemma TraceEnds(trace: seq<Point>, count: nat)
    requires |trace| == count + 1 && GrewAll(trace) && trace[0].k == 0 && trace[0].c.size > 0
    requires var p := trace[count]; p.c.size > 0 && (p.c.slabs == [] || p.k < |p.c.slabs|)
    ensures Slabs.Grow(trace[0].c, trace[0].s, count) == (trace[count].c, trace[count].s, true)
  {
    TraceGrows(trace, 0);
  }

  /** ... and where it stops when no page is left. */
  lemma TraceStops(trace: seq<Point>, n: nat, s1: State)
    requires 0 < |trace| && GrewAll(trace) && 0 < n
    requires trace[|trace| - 1].c.size > 0
    requires var p := trace[|trace| - 1]; (p.c.slabs == [] || p.k < |p.c.slabs|) && Alloc(p.s, 1) == (s1, 0)
    ensures var p, q := trace[0], trace[|trace| - 1];
      && p.c.size > 0 && (p.c.slabs == [] || p.k < |p.c.slabs|)
      && GrowFrom(p.c, p.s, p.k, |trace| - 1 + n) == (q.c, s1, false)
  {
    TraceGrows(trace, n);
  }

  // ----- the states of a reap

  /** The slabs kept so far, those to come, and the frame allocator, on the way from the list c to Reap(c, s). */
  ghost predicate Reaping(c: Cache, s: State, kept: seq<Slab>, rest: seq<Slab>, now: State)
    requires c.size > 0
  {
    && Kept(c.slabs, CountMax(c.size)) == kept + Kept(rest, CountMax(c.size))
    && ReleaseAll(s, Removed(c.slabs, CountMax(c.size))) == ReleaseAll(now, Removed(rest, CountMax(c.size)))
    && now.top == s.top
  }

  lemma ReapKeeps(c: Cache, s: State, kept: seq<Slab>, rest: seq<Slab>, now: State)
    requires c.size > 0 && Reaping(c, s, kept, rest, now) && rest != [] && |rest[0].free| != CountMax(c.size)
    ensures Reaping(c, s, kept + [rest[0]], rest[1..], now)
  {
    var max := CountMax(c.size);
    assert Kept(rest, max) == [rest[0]] + Kept(rest[1..], max);
    assert Removed(rest, max) == Removed(rest[1..], max);
    assert kept + Kept(rest, max) == kept + [rest[0]] + Kept(rest[1..], max);
  }

  lemma ReapRemoves(c: Cache, s: State, kept: seq<Slab>, rest: seq<Slab>, now: State)
    requires c.size > 0 && Reaping(c, s, kept, rest, now) && rest != [] && |rest[0].free| == CountMax(c.size)
    ensures Reaping(c, s, kept, rest[1..], Release(now, Header(rest[0].page), 1))
  {
    var max := CountMax(c.size);
    assert Kept(rest, max) == Kept(rest[1..], max);
    var removed := Removed(rest, max);
    assert removed == [rest[0]] + Removed(rest[1..], max);
    assert removed[1..] == Removed(rest[1..], max);
  }

  /** The cursor is at slabs_head exactly while no slab has been kept. */
  lemma HeadChanges(kept: seq<Slab>, rest: seq<Slab>, s: State, ram: seq<Word>)
    requires Sorting(ram, kept, rest, s) && rest != []
    ensures HeadOf(rest) == HeadOf(kept + rest) <==> kept == []
    ensures HeadOf(kept + rest[1..]) == if kept == [] then NextOf(rest, 0) else HeadOf(kept + rest)
    ensures HeadOf(rest[1..]) == NextOf(rest, 0)
  {
    SortingMeans(ram, kept, rest, s);
    if kept != [] {
      assert (kept + rest)[0] == kept[0] && (kept + rest)[|kept|] == rest[0];
    } else {
      assert kept + rest == rest && kept + rest[1..] == rest[1..];
    }
  }

  /** The words of the slab_t at hand. */
  lemma ReadRest(ram: seq<Word>, kept: seq<Slab>, rest: seq<Slab>, s: State)
    requires Sorting(ram, kept, rest, s) && rest != []
    ensures var w := Header(rest[0].page) / 8;
      && w == rest[0].page * 512 + 508 && w + 1 < |ram| && 0 < Header(rest[0].page)
      && ram[w] == NextOf(rest, 0) && ram[w + 1] == |rest[0].free|
      && rest[0].page < s.top && Header(rest[0].page) / 4096 == rest[0].page
  {
    SortingMeans(ram, kept, rest, s);
    var n := |kept|;
    assert ListedAt(ram, kept + rest, n);
    assert (kept + rest)[n] == rest[0];
    assert NextOf(kept + rest, n) == NextOf(rest, 0);
    HeaderWords(rest[0].page);
  }

  /** Where slab_cache_reap is: the slabs it has kept, those still to come, and the page of the slab_t that
      prev points to.  It has written to pages of the cache only.  UnderwayMeans opens the definition. */
  ghost predicate Underway(c: Cache, before: Mem, now: Mem, kept: seq<Slab>, rest: seq<Slab>, page: nat) {
    forall k: nat {:trigger UnderwayAt(c, before, now, kept, rest, page, k)} ::
      UnderwayAt(c, before, now, kept, rest, page, k)
  }

  ghost predicate UnderwayAt(c: Cache, before: Mem, now: Mem, kept: seq<Slab>, rest: seq<Slab>, page: nat, k: nat) {
    && c.size > 0 && Stored(before, c)
    && Reaping(c, before.frames, kept, rest, now.frames) && Sorting(now.ram, kept, rest, before.frames)
    && |rest| <= |c.slabs| && rest == c.slabs[|c.slabs| - |rest|..]
    && Spared(before.ram, now.ram, PageSet(All(c)), c.live, c.size)
    && (c.slabs != [] ==> page in PageSet(All(c)) && page < before.frames.top && PrevAt(page, kept, rest))
  }

  lemma UnderwayMeans(c: Cache, before: Mem, now: Mem, kept: seq<Slab>, rest: seq<Slab>, page: nat)
    ensures Underway(c, before, now, kept, rest, page) <==> UnderwayAt(c, before, now, kept, rest, page, 0)
  {
    if UnderwayAt(c, before, now, kept, rest, page, 0) {
      forall k: nat ensures UnderwayAt(c, before, now, kept, rest, page, k) {
        assert UnderwayAt(c, before, now, kept, rest, page, 0);
      }
    }
  }

  lemma UnderwayStart(c: Cache, m: Mem)
    requires Stored(m, c)
    ensures Underway(c, m, m, [], c.slabs, if c.slabs == [] then 0 else c.slabs[0].page)
    ensures [] + c.slabs == c.slabs
  {
    var page := if c.slabs == [] then 0 else c.slabs[0].page;
    StoredMeans(m, c);
    StartLists(c, m);
    SparedSame(m.ram, PageSet(All(c)), c.live, c.size);
    if c.slabs != [] { RestPage(c, m, c.slabs); }
    UnderwayFrom(c, m, m, [], c.slabs, page);
  }

  lemma StartLists(c: Cache, m: Mem)
    requires Stored(m, c) && c.size > 0
    ensures Reaping(c, m.frames, [], c.slabs, m.frames) && Sorting(m.ram, [], c.slabs, m.frames)
    ensures [] + c.slabs == c.slabs
    ensures c.slabs != [] ==> PrevAt(c.slabs[0].page, [], c.slabs)
  {
    StoredMeans(m, c);
    assert [] + Kept(c.slabs, CountMax(c.size)) == Kept(c.slabs, CountMax(c.size));
    assert [] + c.slabs == c.slabs;
    AllPlaced(c, m.frames);
    ListedPages(c, m.frames);
    SortingMeans(m.ram, [], c.slabs, m.frames);
  }

  /** What a reap in progress has to do with the list and the frame allocator ... */
  lemma UnderwayLists(c: Cache, before: Mem, now: Mem, kept: seq<Slab>, rest: seq<Slab>, page: nat)
    requires Underway(c, before, now, kept, rest, page) && c.size > 0
    ensures Reaping(c, before.frames, kept, rest, now.frames) && Sorting(now.ram, kept, rest, before.frames)
  {
    UnderwayMeans(c, before, now, kept, rest, page);
  }

  /** ... and with the pages of the cache. */
  lemma UnderwayPages(c: Cache, before: Mem, now: Mem, kept: seq<Slab>, rest: seq<Slab>, page: nat)
    requires Underway(c, before, now, kept, rest, page) && rest != []
    ensures Stored(before, c) && Spared(before.ram, now.ram, PageSet(All(c)), c.live, c.size)
    ensures |rest[1..]| <= |c.slabs| && rest[1..] == c.slabs[|c.slabs| - |rest[1..]|..]
    ensures rest[0].page in PageSet(All(c)) && rest[0].page < before.frames.top
    ensures page in PageSet(All(c)) && page < before.frames.top && PrevAt(page, kept, rest)
  {
    UnderwayMeans(c, before, now, kept, rest, page);
    RestPage(c, before, rest);
  }

  /** The slab at hand stays on the list. */
  lemma UnderwayKeep(c: Cache, before: Mem, now: Mem, kept: seq<Slab>, rest: seq<Slab>, page: nat)
    requires Underway(c, before, now, kept, rest, page) && rest != [] && c.size > 0
    requires |rest[0].free| != CountMax(c.size)
    ensures Underway(c, before, now, kept + [rest[0]], rest[1..], rest[0].page)
  {
    UnderwayPages(c, before, now, kept, rest, page);
    KeepParts(c, before, now, kept, rest, page);
    UnderwayFrom(c, before, now, kept + [rest[0]], rest[1..], rest[0].page);
  }

  lemma KeepParts(c: Cache, before: Mem, now: Mem, kept: seq<Slab>, rest: seq<Slab>, page: nat)
    requires Underway(c, before, now, kept, rest, page) && rest != [] && c.size > 0
    requires |rest[0].free| != CountMax(c.size)
    ensures Reaping(c, before.frames, kept + [rest[0]], rest[1..], now.frames)
    ensures Sorting(now.ram, kept + [rest[0]], rest[1..], before.frames)
  {
    UnderwayLists(c, before, now, kept, rest, page);
    ReapKeeps(c, before.frames, kept, rest, now.frames);
    KeptOneMore(now.ram, kept, rest, before.frames);
  }

  lemma KeptWhole(kept: seq<Slab>, rest: seq<Slab>)
    requires rest != []
    ensures kept + [rest[0]] + rest[1..] == kept + rest && HeadOf(rest[1..]) == NextOf(rest, 0)
  {
  }

  lemma UnderwayFrom(c: Cache, before: Mem, now: Mem, kept: seq<Slab>, rest: seq<Slab>, page: nat)
    requires c.size > 0 && Stored(before, c)
    requires Reaping(c, before.frames, kept, rest, now.frames) && Sorting(now.ram, kept, rest, before.frames)
    requires |rest| <= |c.slabs| && rest == c.slabs[|c.slabs| - |rest|..]
    requires Spared(before.ram, now.ram, PageSet(All(c)), c.live, c.size)
    requires c.slabs != [] ==> page in PageSet(All(c)) && page < before.frames.top && PrevAt(page, kept, rest)
    ensures Underway(c, before, now, kept, rest, page)
  {
    UnderwayMeans(c, before, now, kept, rest, page);
  }

  lemma RestPage(c: Cache, m: Mem, rest: seq<Slab>)
    requires Stored(m, c) && rest != [] && |rest| <= |c.slabs| && rest == c.slabs[|c.slabs| - |rest|..]
    ensures rest[0].page in PageSet(All(c)) && rest[0].page < m.frames.top
    ensures rest[1..] == c.slabs[|c.slabs| - |rest[1..]|..]
  {
    StoredMeans(m, c);
    var i := |c.slabs| - |rest|;
    assert All(c)[i] == rest[0];
    PageIn(All(c), i);
  }

  /** The slab at hand goes: prev->next, and pmm_free. */
  lemma UnderwayRemove(c: Cache, before: Mem, now: Mem, kept: seq<Slab>, rest: seq<Slab>, page: nat, next: Word)
    requires Underway(c, before, now, kept, rest, page) && rest != [] && c.size > 0
    requires |rest[0].free| == CountMax(c.size) && next == NextOf(rest, 0) && page * 512 + 512 <= |now.ram|
    ensures Underway(c, before, Mem(now.ram[page * 512 + 508 := next], Release(now.frames, Header(rest[0].page), 1)),
                     kept, rest[1..], page)
  {
    var ram', s' := now.ram[page * 512 + 508 := next], Release(now.frames, Header(rest[0].page), 1);
    UnderwayPages(c, before, now, kept, rest, page);
    RemoveParts(c, before, now, kept, rest, page, next);
    NextSpared(c, before, now.ram, page, next);
    PrevStays(page, kept, rest);
    UnderwayFrom(c, before, Mem(ram', s'), kept, rest[1..], page);
  }

  lemma RemoveParts(c: Cache, before: Mem, now: Mem, kept: seq<Slab>, rest: seq<Slab>, page: nat, next: Word)
    requires Underway(c, before, now, kept, rest, page) && rest != [] && c.size > 0
    requires |rest[0].free| == CountMax(c.size) && next == NextOf(rest, 0) && page * 512 + 512 <= |now.ram|
    requires PrevAt(page, kept, rest)
    ensures Reaping(c, before.frames, kept, rest[1..], Release(now.frames, Header(rest[0].page), 1))
    ensures Sorting(now.ram[page * 512 + 508 := next], kept, rest[1..], before.frames)
  {
    UnderwayLists(c, before, now, kept, rest, page);
    Unlinked(now.ram, kept, rest, before.frames, page, next);
    ReapRemoves(c, before.frames, kept, rest, now.frames);
  }

  /** ... which is none of the bitmap's pages. */
  lemma RemoveGuards(c: Cache, before: Mem, now: Mem, kept: seq<Slab>, rest: seq<Slab>, page: nat, st: Storage)
    requires Underway(c, before, now, kept, rest, page) && rest != []
    requires Guards(now.frames, st) && Avoids(PageSet(All(c)), st)
    ensures Guards(Release(now.frames, Header(rest[0].page), 1), st)
  {
    var p := rest[0].page;
    UnderwayPages(c, before, now, kept, rest, page);
    HeaderPage(p);
    GuardsAfter(now.frames, Release(now.frames, Header(p), 1), PageSet(All(c)), st);
  }

  lemma NextSpared(c: Cache, before: Mem, ram: seq<Word>, page: nat, next: Word)
    requires Stored(before, c) && Spared(before.ram, ram, PageSet(All(c)), c.live, c.size)
    requires page in PageSet(All(c)) && page * 512 + 512 <= |ram|
    ensures Spared(before.ram, ram[page * 512 + 508 := next], PageSet(All(c)), c.live, c.size)
  {
    var ram', pages := ram[page * 512 + 508 := next], PageSet(All(c));
    StoredMeans(before, c);
    HeaderSpared(ram, ram', c, before.frames, page, page * 512 + 508);
    SparedTwice(before.ram, ram, ram', pages, pages, pages, c.live, c.live, c.live, c.size);
  }

  lemma PrevStays(page: nat, kept: seq<Slab>, rest: seq<Slab>)
    requires PrevAt(page, kept, rest) && rest != []
    ensures PrevAt(page, kept, rest[1..])
  {
    assert forall i :: 0 <= i < |rest[1..]| ==> rest[1..][i] == rest[i + 1];
  }

  lemma UnderwayEnd(c: Cache, before: Mem, now: Mem, kept: seq<Slab>, page: nat)
    requires Underway(c, before, now, kept, [], page)
    ensures c.size > 0 && (c.(slabs := kept), now.frames) == Reap(c, before.frames) && Represents(now.ram, kept)
    ensures Spared(before.ram, now.ram, PageSet(All(c)), c.live, c.size) && now.frames.top == before.frames.top
    ensures kept + [] == kept
  {
    UnderwayMeans(c, before, now, kept, [], page);
    assert kept + [] == kept;
    SortingMeans(now.ram, kept, [], before.frames);
  }

  /** The words of the slab_t at hand, of the one prev points to, and the head of the list. */
  lemma UnderwayReads(c: Cache, before: Mem, now: Mem, kept: seq<Slab>, rest: seq<Slab>, page: nat)
    requires Underway(c, before, now, kept, rest, page) && rest != []
    ensures var w := Header(rest[0].page) / 8;
      && w + 1 < |now.ram| && 0 < Header(rest[0].page)
      && now.ram[w] == NextOf(rest, 0) && now.ram[w + 1] == |rest[0].free|
      && Header(rest[0].page) / 4096 < now.frames.top
    ensures Header(page) / 8 == page * 512 + 508 && page * 512 + 512 <= |now.ram|
    ensures HeadOf(rest) == HeadOf(kept + rest) <==> kept == []
    ensures HeadOf(kept + rest[1..]) == if kept == [] then NextOf(rest, 0) else HeadOf(kept + rest)
    ensures HeadOf(rest[1..]) == NextOf(rest, 0)
  {
    UnderwayMeans(c, before, now, kept, rest, page);
    StoredMeans(before, c);
    ReadRest(now.ram, kept, rest, before.frames);
    HeaderWords(page);
    HeadChanges(kept, rest, before.frames, now.ram);
  }

  lemma ReapedPages(c: Cache, s: State)
    requires c.size > 0
    ensures PageSet(All(Reap(c, s).0)) <= PageSet(All(c))
  {
    var kept := Kept(c.slabs, CountMax(c.size));
    PagesSum(kept, c.dropped);
    PagesSum(c.slabs, c.dropped);
    forall x | x in PageSet(kept) ensures x in PageSet(c.slabs) {
      PagesHas(kept, x);
      PagesHas(c.slabs, x);
      var i :| 0 <= i < |kept| && kept[i].page == x;
      assert kept[i] in c.slabs;
    }
  }

  /** A reaped cache is stored as before exactly when its invariant holds. */
  lemma ReapedStored(before: Mem, m: Mem, c: Cache, c': Cache, st: Storage)
    requires Avoids(PageSet(All(c)), st)
    requires Stored(before, c) && c.size > 0 && (c', m.frames) == Reap(c, before.frames)
    requires Represents(m.ram, c'.slabs) && |m.ram| == |before.ram| && m.frames.top == before.frames.top
    ensures Stored(m, c') <==> OwnObjects(Removed(c.slabs, CountMax(c.size)))
    ensures Avoids(PageSet(All(c')), st)
  {
    ReapedPages(c, before.frames);
    AvoidsFewer(PageSet(All(c)), PageSet(All(c')), st);
    StoredMeans(before, c);
    StoredMeans(m, c');
    ReapKeepsExactly(c, before.frames);
  }

  /** The page of slab_cache_create for the cache itself. */
  lemma PageForCache(m: Mem, size: nat)
    requires MemoryOk(m) && SizeOk(size)
    ensures m.frames.top > 0
    ensures var (m1, a) := AllocZeroed(m, 1);
      && StillUsed(m.frames, m1.frames, m.frames.used) && Stored(m1, Cache(size, [], [], {}))
      && (a == 0 ==> SlabRuns.Create(size, m.frames) == (None, m1.frames))
      && (a != 0 ==> a / 4096 in m1.frames.used - m.frames.used)
  {
    var s := m.frames;
    var (m1, a) := AllocZeroed(m, 1);
    var c := Cache(size, [], [], {});
    SoundMeans(s);
    NoPage(s);
    AllocOnePage(s);
    SoundMeans(m1.frames);
    assert Inv(c, m1.frames);
    StoredMeans(m1, c);
  }

  /** ... and the slab behind it. */
  lemma CacheCreated(before: Mem, middle: Mem, after: Mem, size: nat, a: nat, c: Cache)
    requires MemoryOk(before) && SizeOk(size) && (middle, a) == AllocZeroed(before, 1) && a != 0
    requires (c, after.frames) == (Slabs.Grow(Cache(size, [], [], {}), middle.frames, 1).0,
                                   Slabs.Grow(Cache(size, [], [], {}), middle.frames, 1).1)
    requires Spared(middle.ram, after.ram, PageSet(All(c)) + {0}, {}, size)
    ensures (Some(c), after.frames) == SlabRuns.Create(size, before.frames)
    ensures c.live == {} && PageSet(All(c)) <= after.frames.used - before.frames.used
    ensures Slabs.Grow(Cache(size, [], [], {}), middle.frames, 1).2 <==> c.slabs != []
    ensures StillUsed(before.frames, after.frames, before.frames.used)
    ensures Spared(before.ram, after.ram, after.frames.used - before.frames.used + {0}, {}, 0)
  {
    var c0 := Cache(size, [], [], {});
    var taken := after.frames.used - before.frames.used + {0};
    PageForCache(before, size);
    StoredMeans(middle, c0);
    GrowTakes(c0, middle.frames, 0, 1);
    GrowOne(c0, middle.frames);
    GrowKeeps(c0, middle.frames, 0, 1);
    assert PageSet(All(c0)) == {};
    PageSpared(before.ram, a / 4096, taken);
    SparedNone(middle.ram, after.ram, PageSet(All(c)) + {0}, size, 0);
    SparedTwice(before.ram, middle.ram, after.ram, taken, taken, PageSet(All(c)) + {0}, {}, {}, {}, 0);
  }

  class SlabCache {
    const pmm: Pmm
    const slabSize: nat
    const bufctlCountMax: nat
    var slabsHead: nat
    var slabs: nat
    ghost var cache: Cache

    /** The fields as slab_cache_create sets them. */
    constructor (allocator: Pmm, size: nat)
      requires size > 0
      ensures pmm == allocator && slabSize == size && bufctlCountMax == CountMax(size)
      ensures slabsHead == 0 && cache == Cache(size, [], [], {})
    {
      var bytes := 4056;
      CountIsQuotient(size, bytes);
      pmm, slabSize, bufctlCountMax := allocator, size, bytes / size;
      slabsHead, slabs := 0, 0;
      cache := Cache(size, [], [], {});
    }

    /** The cache is described by its ghost value, and that value obeys the invariant. */
    ghost predicate Valid()
      reads this`slabsHead, this`cache, pmm, pmm.bitmap, pmm.bitmap.bytes, pmm.ram
    {
      && pmm.Ready()
      && cache.size == slabSize && SizeOk(slabSize) && bufctlCountMax == CountMax(slabSize)
      && Stored(pmm.Snapshot(), cache) && slabsHead == HeadOf(cache.slabs)
      && Avoids(Footprint(), pmm.Place())
    }

    /** The pages the cache has taken. */
    ghost function Footprint(): set<nat>
      reads this`cache
    {
      PageSet(All(cache))
    }

    /** The address of the slab_t of slab k, or NULL behind the last. */
    ghost function Cursor(k: nat): nat
      reads this`cache
      requires k <= |cache.slabs|
    {
      if k < |cache.slabs| then Header(cache.slabs[k].page) else 0
    }

    /** The words of a slab_t. */
    lemma ReadSlab(k: nat)
      requires Valid() && k < |cache.slabs|
      ensures var w := Cursor(k) / 8; var t := cache.slabs[k];
        && w + 3 < pmm.ram.Length && Cursor(k) > 0
        && pmm.ram[w] == Cursor(k + 1) && pmm.ram[w + 1] == |t.free| && pmm.ram[w + 2] == Head(t.free)
        && w == t.page * 512 + 508
        && |t.free| <= bufctlCountMax && (t.free == [] <==> Head(t.free) == 0)
    {
      StoredSlab(pmm.Snapshot(), cache, k);
    }

    /** The scan of slab_cache_alloc. */
    method FindFree() returns (ghost k: nat)
      requires Valid()
      modifies this`slabs
      ensures Valid()
      ensures k == FirstFree(cache.slabs) && slabs == Cursor(k)
    {
      slabs := slabsHead;
      k := 0;
      while slabs != 0
        invariant k <= |cache.slabs| && slabs == Cursor(k)
        invariant forall i :: 0 <= i < k ==> cache.slabs[i].free == []
        decreases |cache.slabs| - k
      {
        ReadSlab(k);
        if pmm.ram[slabs / 8 + 2] != 0 {
          break;
        }
        slabs := pmm.ram[slabs / 8];
        k := k + 1;
      }
      if k < |cache.slabs| { ReadSlab(k); }
      FirstFreeAt(cache.slabs, k);
    }

    /** The end of slab_cache_alloc: the first free object of the cursor's slab. */
    method Pop(ghost k: nat) returns (ptr: nat)
      requires Valid() && k < |cache.slabs| && cache.slabs[k].free != [] && slabs == Cursor(k)
      modifies this`cache, pmm.ram
      ensures Valid() && cache == Popped(old(cache), k) && ptr == old(cache).slabs[k].free[0]
      ensures Spared(old(pmm.ram[..]), pmm.ram[..], Footprint(), old(cache).live, slabSize)
      ensures Footprint() == old(Footprint())
    {
      ReadSlab(k);
      ghost var t, m := cache.slabs[k], pmm.Snapshot();
      StoredLink(m, cache, k);
      var w := slabs / 8;
      ptr := pmm.ram[w + 2];
      var next, count := pmm.ram[ptr / 8], pmm.ram[w + 1] - 1;
      pmm.ram[w + 2] := next;
      pmm.ram[w + 1] := count;
      StoredPop(m, cache, k, next, count);
      cache := Popped(cache, k);
      assert pmm.Snapshot() == m.(ram := PopWords(m.ram, t.page, next, count));
    }

    /** The scan of slab_cache_free. */
    method FindRoom() returns (ghost k: nat)
      requires Valid()
      modifies this`slabs
      ensures Valid()
      ensures k == FirstRoom(cache.slabs, bufctlCountMax) && slabs == Cursor(k)
    {
      slabs := slabsHead;
      k := 0;
      while slabs != 0
        invariant k <= |cache.slabs| && slabs == Cursor(k)
        invariant forall i :: 0 <= i < k ==> |cache.slabs[i].free| >= bufctlCountMax
        decreases |cache.slabs| - k
      {
        ReadSlab(k);
        if pmm.ram[slabs / 8 + 1] < bufctlCountMax {
          break;
        }
        slabs := pmm.ram[slabs / 8];
        k := k + 1;
      }
      if k < |cache.slabs| { ReadSlab(k); }
      FirstRoomAt(cache.slabs, bufctlCountMax, k);
    }

    /** The end of slab_cache_free: the cursor's slab takes the object. */
    method Push(ptr: Word, ghost k: nat)
      requires Valid() && k < |cache.slabs| && |cache.slabs[k].free| < bufctlCountMax && slabs == Cursor(k)
      requires ptr in cache.live
      modifies this`cache, pmm.ram
      ensures Valid() && cache == Pushed(old(cache), k, ptr)
      ensures Spared(old(pmm.ram[..]), pmm.ram[..], Footprint(), cache.live, slabSize)
      ensures Footprint() == old(Footprint())
    {
      ReadSlab(k);
      ghost var t, m := cache.slabs[k], pmm.Snapshot();
      StoredObject(m, cache, ptr);
      var w := slabs / 8;
      var head := pmm.ram[w + 2];
      var count := pmm.ram[w + 1] + 1;
      pmm.ram[ptr / 8] := head;
      pmm.ram[ptr / 8 + 1] := ptr;
      pmm.ram[w + 2] := ptr;
      pmm.ram[w + 1] := count;
      StoredPush(m, cache, k, ptr, head, count);
      cache := Pushed(cache, k, ptr);
      assert pmm.Snapshot() == m.(ram := PushWords(m.ram, t.page, ptr, head, count));
    }

    /** slab_cache_free of an object that is live.  It writes to pages of the cache only, and to no object that
        stays live. */
    method Free(ptr: Word, panic: bool) returns (outcome: Outcome)
      requires Valid() && ptr in cache.live
      modifies this`slabs, this`cache, pmm.ram
      ensures Valid() && (cache, outcome) == CacheFree(old(cache), ptr, panic)
      ensures pmm.Frames() == old(pmm.Frames())
      ensures Spared(old(pmm.ram[..]), pmm.ram[..], Footprint(), cache.live, slabSize)
      ensures Footprint() == old(Footprint())
    {
      ghost var k := FindRoom();
      if k < |cache.slabs| { ReadSlab(k); }
      if slabs == 0 {
        return if panic then Panic else Null;
      }
      Push(ptr, k);
      outcome := Done;
    }

    /** slab_init_bufctls for every object of a page. */
    method InitBufctls(bufctl: nat, ghost page: nat)
      requires pmm.Ready() && SizeOk(slabSize) && bufctlCountMax == CountMax(slabSize)
      requires bufctl == page * 4096 && page > 0 && slabs == Header(page) && page * 4096 + 4096 <= WORD
      requires Filling(pmm.ram[..], page, slabSize, 0)
      modifies pmm.ram
      ensures Filling(pmm.ram[..], page, slabSize, CountMax(slabSize))
      ensures SameOutside(old(pmm.ram[..]), pmm.ram[..], page)
    {
      HeaderWords(page);
      for j := 0 to bufctlCountMax
        invariant Filling(pmm.ram[..], page, slabSize, j)
        invariant SameOutside(old(pmm.ram[..]), pmm.ram[..], page)
      {
        InitBufctl(bufctl, j, page);
      }
    }

    /** slab_init_bufctls. */
    method InitBufctl(bufctl: nat, index: nat, ghost page: nat)
      requires pmm.Ready() && SizeOk(slabSize) && bufctlCountMax == CountMax(slabSize) && index < bufctlCountMax
      requires bufctl == page * 4096 && page > 0 && slabs == Header(page) && page * 4096 + 4096 <= WORD
      requires Filling(pmm.ram[..], page, slabSize, index)
      modifies pmm.ram
      ensures Filling(pmm.ram[..], page, slabSize, index + 1)
      ensures SameOutside(old(pmm.ram[..]), pmm.ram[..], page)
    {
      ghost var before := pmm.ram[..];
      OffsetIsProduct(slabSize, index);
      var a := bufctl + slabSize * index;
      assert a == Cells(page, slabSize)[index];
      CellPlace(page, slabSize, index);
      HeaderWords(page);
      FillStep(before, page, slabSize, index);
      var w := slabs / 8;
      pmm.ram[a / 8 + 1] := a;
      if pmm.ram[w + 3] == 0 {
        pmm.ram[w + 2] := a;
        pmm.ram[w + 3] := a;
      } else {
        pmm.ram[pmm.ram[w + 3] / 8] := a;
        pmm.ram[w + 3] := a;
      }
      assert pmm.ram[..] == FillWords(before, page, a);
    }

    /** slab_create_slab, with the cursor at slab k. */
    method CreateSlab(bufctl: nat, ghost k: nat, ghost page: nat)
      requires pmm.Ready() && SizeOk(slabSize) && bufctlCountMax == CountMax(slabSize)
      requires bufctl == page * 4096 && page > 0 && page * 4096 + 4096 <= WORD && page * 512 + 512 <= pmm.ram.Length
      requires if cache.slabs == [] then slabs == 0
               else k < |cache.slabs| && slabs == Cursor(k) && cache.slabs[k].page != page
                    && cache.slabs[k].page * 512 + 512 <= pmm.ram.Length
      requires forall w :: page * 512 <= w < page * 512 + 512 ==> pmm.ram[w] == 0
      modifies this`slabsHead, this`slabs, pmm.ram
      ensures Filling(pmm.ram[..], page, slabSize, 0) && LinkedIn(old(pmm.ram[..]), pmm.ram[..], cache, k, page)
      ensures slabs == Header(page) && slabsHead == (if cache.slabs == [] then Header(page) else old(slabsHead))
    {
      ghost var before := pmm.ram[..];
      HeaderWords(page);
      HeaderStoredFills(before, page, slabSize);
      var slab := bufctl + 4096 - 32;
      var w := slab / 8;
      pmm.ram[w] := 0;
      pmm.ram[w + 1] := bufctlCountMax;
      pmm.ram[w + 2] := 0;
      pmm.ram[w + 3] := 0;
      assert pmm.ram[..] == HeaderStored(before, page, CountMax(slabSize));
      ghost var stored := pmm.ram[..];
      if cache.slabs != [] { HeaderWords(cache.slabs[k].page); }
      if slabs == 0 {
        slabsHead := slab;
        slabs := slab;
      } else {
        pmm.ram[slabs / 8] := slab;
        slabs := slab;
        FillingElsewhere(stored, pmm.ram[..], page, slabSize, 0);
      }
    }

    /** The trace ends in the present state, and the cursor is at slab k, or at NULL in an empty list. */
    ghost predicate TraceHere(trace: seq<Point>)
      reads this`cache, this`slabs, pmm, pmm.bitmap
    {
      && 0 < |trace| && GrewAll(trace)
      && trace[|trace| - 1].c == cache && trace[|trace| - 1].s == pmm.Frames()
      && CursorAt(trace[|trace| - 1].k)
    }

    /** The cursor is at slab k, or at NULL in an empty list. */
    ghost predicate CursorAt(k: nat)
      reads this`cache, this`slabs
    {
      if cache.slabs == [] then slabs == 0 else k < |cache.slabs| && slabs == Cursor(k)
    }

    /** slab_create_bufctl after its allocation, slab_create_slab, and the loop of slab_init_bufctls. */
    method Extend(bufctl: nat, ghost k: nat, ghost before: Mem)
      requires pmm.Ready() && cache.size == slabSize && SizeOk(slabSize) && bufctlCountMax == CountMax(slabSize)
      requires bufctl == bufctl / 4096 * 4096 && Taken(cache, before, pmm.Snapshot(), bufctl / 4096)
      requires slabsHead == HeadOf(cache.slabs) && CursorAt(k)
      requires Guards(before.frames, pmm.Place()) && Avoids(Footprint(), pmm.Place())
      modifies this`slabsHead, this`slabs, this`cache, pmm.ram
      ensures Valid() && cache == Linked(old(cache), k, bufctl / 4096) && slabs == Cursor(|cache.slabs| - 1)
      ensures Spared(before.ram, pmm.ram[..], Footprint(), old(cache).live, slabSize)
      ensures old(Footprint()) <= Footprint()
    {
      ghost var page := bufctl / 4096;
      TakenPage(cache, before, pmm.Snapshot(), page, k);
      pmm.ram[bufctl / 8] := 0;
      ghost var ram1 := pmm.ram[..];
      assert ram1 == Zeroed(before.ram, page, 1);
      CreateSlab(bufctl, k, page);
      ghost var ram2 := pmm.ram[..];
      InitBufctls(bufctl, page);
      AfterGrowth(before, ram1, ram2, pmm.Snapshot(), cache, k, page);
      LinkedEnds(cache, k, page);
      GrowthAvoids(before, cache, k, page, pmm.Place());
      cache := Linked(cache, k, page);
    }

    /** One round of slab_cache_grow, with the cursor at slab k and n slabs to come. */
    method GrowStep(ghost trace: seq<Point>, ghost n: nat) returns (ok: bool, ghost trace': seq<Point>)
      requires Valid() && TraceHere(trace) && 0 < n
      modifies this`slabsHead, this`slabs, this`cache, pmm`usedPageCnt, pmm.bitmap, pmm.bitmap.bytes, pmm.ram
      ensures Valid()
      ensures ok ==> TraceHere(trace') && |trace'| == |trace| + 1 && trace'[0] == trace[0]
      ensures !ok ==> trace[0].c.size > 0 && (trace[0].c.slabs == [] || trace[0].k < |trace[0].c.slabs|)
      ensures !ok ==> (cache, pmm.Frames(), false) == GrowFrom(trace[0].c, trace[0].s, trace[0].k, |trace| - 1 + n)
      ensures Spared(old(pmm.ram[..]), pmm.ram[..], Footprint() + {0}, cache.live, slabSize)
      ensures cache.live == old(cache).live && old(Footprint()) <= Footprint()
    {
      ghost var before, k, c := pmm.Snapshot(), trace[|trace| - 1].k, cache;
      NoneLeft(cache, before);
      var bufctl := pmm.AllocPagesZeroed(1);
      if bufctl == 0 {
        StoredClear(before, cache);
        TraceStops(trace, n, before.frames);
        return false, trace;
      }
      PageTaken(cache, before, pmm.Snapshot());
      Extend(bufctl, k, before);
      SparedMore(before.ram, pmm.ram[..], Footprint(), Footprint() + {0}, cache.live, slabSize);
      ghost var p := Point(cache, pmm.Frames(), if c.slabs == [] then 0 else k + 1);
      GrewOneMore(trace, p);
      ok, trace' := true, trace + [p];
    }

    /** slab_cache_grow.  It writes to pages of the cache, new ones among them, and when a page is missing to
        page 0, and to no live object. */
    method Grow(count: nat, panic: bool) returns (outcome: Outcome)
      requires Valid()
      modifies this`slabsHead, this`slabs, this`cache, pmm`usedPageCnt, pmm.bitmap, pmm.bitmap.bytes, pmm.ram
      ensures Valid()
      ensures (cache, pmm.Frames(), outcome == Done) == Slabs.Grow(old(cache), old(pmm.Frames()), count)
      ensures outcome != Done ==> outcome == if panic then Panic else Null
      ensures Spared(old(pmm.ram[..]), pmm.ram[..], Footprint() + {0}, cache.live, slabSize)
      ensures cache.live == old(cache).live && old(Footprint()) <= Footprint()
    {
      slabs := slabsHead;
      ghost var trace, ram0 := [Point(cache, pmm.Frames(), 0)], pmm.ram[..];
      var i := 0;
      SparedSame(ram0, Footprint() + {0}, cache.live, slabSize);
      while i < count
        invariant i <= count && Valid() && TraceHere(trace) && |trace| == i + 1
        invariant trace[0] == Point(old(cache), old(pmm.Frames()), 0)
        invariant Spared(ram0, pmm.ram[..], Footprint() + {0}, cache.live, slabSize)
        invariant cache.live == old(cache).live && old(Footprint()) <= Footprint()
      {
        ghost var ram1, pages := pmm.ram[..], Footprint() + {0};
        var ok;
        ok, trace := GrowStep(trace, count - i);
        SparedTwice(ram0, ram1, pmm.ram[..], Footprint() + {0}, pages, Footprint() + {0},
                    cache.live, cache.live, cache.live, slabSize);
        if !ok {
          return if panic then Panic else Null;
        }
        i := i + 1;
      }
      TraceEnds(trace, count);
      outcome := Done;
    }

    /** slab_cache_alloc.  Where the code calls itself again and again, the outcome is Endless.  It writes to
        pages of the cache, new ones among them, and when a page is missing to page 0, and to no live object. */
    method Alloc(panic: bool, autoGrow: bool) returns (ptr: nat, outcome: Outcome)
      requires Valid()
      modifies this`slabsHead, this`slabs, this`cache, pmm`usedPageCnt, pmm.bitmap, pmm.bitmap.bytes, pmm.ram
      ensures Valid()
      ensures Result(cache, pmm.Frames(), ptr, outcome) == CacheAlloc(old(cache), old(pmm.Frames()), panic, autoGrow)
      ensures Spared(old(pmm.ram[..]), pmm.ram[..], Footprint() + {0}, old(cache).live, slabSize)
      ensures !autoGrow ==> outcome == if FreeCount(old(cache).slabs) > 0 then Done else if panic then Panic else Null
      decreases if FirstFree(cache.slabs) < |cache.slabs| then 0 else 1
    {
      Emptied(cache.slabs);
      ghost var ram0, pages := pmm.ram[..], Footprint();
      SparedSame(ram0, Footprint() + {0}, cache.live, slabSize);
      ghost var k := FindFree();
      if k < |cache.slabs| { ReadSlab(k); }
      if slabs == 0 {
        if autoGrow {
          ptr, outcome := AllocAgain(panic);
          return;
        }
        return 0, if panic then Panic else Null;
      }
      ptr := Pop(k);
      SparedMore(ram0, pmm.ram[..], Footprint(), Footprint() + {0}, old(cache).live, slabSize);
      outcome := Done;
    }

    /** The branch of slab_cache_alloc that grows the cache and starts over. */
    method AllocAgain(panic: bool) returns (ptr: nat, outcome: Outcome)
      requires Valid() && FirstFree(cache.slabs) == |cache.slabs|
      modifies this`slabsHead, this`slabs, this`cache, pmm`usedPageCnt, pmm.bitmap, pmm.bitmap.bytes, pmm.ram
      ensures Valid()
      ensures Result(cache, pmm.Frames(), ptr, outcome) == CacheAlloc(old(cache), old(pmm.Frames()), panic, true)
      ensures Spared(old(pmm.ram[..]), pmm.ram[..], Footprint() + {0}, old(cache).live, slabSize)
      decreases 1, 0
    {
      ghost var before := pmm.Snapshot();
      StoredStartsOver(before, cache, panic);
      var grown := Grow(1, panic);
      if grown != Done {
        return 0, if panic then Panic else Endless;
      }
      ghost var middle, pages, live := pmm.ram[..], Footprint() + {0}, cache.live;
      StoredTakes(pmm.Snapshot(), cache, panic);
      ptr, outcome := Alloc(panic, true);
      SparedTwice(before.ram, middle, pmm.ram[..], Footprint() + {0}, pages, Footprint() + {0}, live, live, live, slabSize);
    }

    /** slab_cache_create, for a size that a slab_bufctl_t fits; NULL when there is no page for the cache.  It
        writes to the pages it takes, and when one is missing to page 0. */
    static method Create(allocator: Pmm, size: nat, panic: bool) returns (r: SlabCache?, outcome: Outcome)
      requires allocator.Ready() && MemoryOk(allocator.Snapshot()) && SizeOk(size)
      modifies allocator`usedPageCnt, allocator.bitmap, allocator.bitmap.bytes, allocator.ram
      ensures allocator.Ready()
      ensures r == null ==> (None, allocator.Frames()) == SlabRuns.Create(size, old(allocator.Frames()))
      ensures r != null ==> fresh(r) && r.pmm == allocator && r.slabSize == size && r.Valid()
      ensures r != null ==> (Some(r.cache), allocator.Frames()) == SlabRuns.Create(size, old(allocator.Frames()))
      ensures r != null ==> r.cache.live == {} && r.Footprint() <= allocator.Frames().used - old(allocator.Frames()).used
      ensures r != null ==> (outcome == Done <==> r.cache.slabs != [])
      ensures StillUsed(old(allocator.Frames()), allocator.Frames(), old(allocator.Frames()).used)
      ensures Spared(old(allocator.ram[..]), allocator.ram[..],
                     allocator.Frames().used - old(allocator.Frames()).used + {0}, {}, 0)
    {
      ghost var before := allocator.Snapshot();
      PageForCache(before, size);
      var page := allocator.AllocPagesZeroed(1);
      PageSpared(before.ram, page / 4096, allocator.Frames().used - before.frames.used + {0});
      if page == 0 {
        return null, if panic then Panic else Null;
      }
      r, outcome := FirstSlab(allocator, size, panic, before, page);
    }

    /** The cache in its page, and the first slab. */
    static method FirstSlab(allocator: Pmm, size: nat, panic: bool, ghost before: Mem, ghost page: nat)
        returns (r: SlabCache, outcome: Outcome)
      requires allocator.Ready() && MemoryOk(before) && SizeOk(size) && 0 < before.frames.top
      requires (allocator.Snapshot(), page) == AllocZeroed(before, 1) && page != 0
      modifies allocator`usedPageCnt, allocator.bitmap, allocator.bitmap.bytes, allocator.ram
      ensures allocator.Ready() && fresh(r) && r.pmm == allocator && r.slabSize == size && r.Valid()
      ensures (Some(r.cache), allocator.Frames()) == SlabRuns.Create(size, before.frames)
      ensures r.cache.live == {} && r.Footprint() <= allocator.Frames().used - before.frames.used
      ensures outcome == Done <==> r.cache.slabs != []
      ensures StillUsed(before.frames, allocator.Frames(), before.frames.used)
      ensures Spared(before.ram, allocator.ram[..], allocator.Frames().used - before.frames.used + {0}, {}, 0)
    {
      PageForCache(before, size);
      ghost var middle := allocator.Snapshot();
      r := new SlabCache(allocator, size);
      outcome := r.Grow(1, panic);
      CacheCreated(before, middle, allocator.Snapshot(), size, page, r.cache);
    }

    /** slab_cache_reap.  The cache is in order afterwards exactly when every object on the lists of the slabs
        that went lies in one of their pages.  It writes to pages of the cache only, and to no live object. */
    method Reap()
      requires Valid()
      modifies this`slabsHead, this`slabs, this`cache, pmm`usedPageCnt, pmm.bitmap, pmm.bitmap.bytes, pmm.ram
      ensures pmm.Ready() && (cache, pmm.Frames()) == SlabReap.Reap(old(cache), old(pmm.Frames()))
      ensures Represents(pmm.ram[..], cache.slabs) && slabsHead == HeadOf(cache.slabs) && slabs == slabsHead
      ensures Valid() <==> OwnObjects(Removed(old(cache).slabs, CountMax(slabSize)))
      ensures Spared(old(pmm.ram[..]), pmm.ram[..], old(Footprint()), cache.live, slabSize)
    {
      ghost var before, c := pmm.Snapshot(), cache;
      UnderwayStart(c, before);
      ghost var kept, page := SortOut(before);
      UnderwayEnd(c, before, pmm.Snapshot(), kept, page);
      cache := cache.(slabs := kept);
      slabs := slabsHead;
      ReapedStored(before, pmm.Snapshot(), c, cache, pmm.Place());
    }

    /** The loop of slab_cache_reap. */
    method SortOut(ghost before: Mem) returns (ghost kept: seq<Slab>, ghost page: nat)
      requires pmm.Ready() && cache.size == slabSize > 0 && bufctlCountMax == CountMax(slabSize)
      requires pmm.Snapshot() == before && slabsHead == HeadOf(cache.slabs) && Avoids(Footprint(), pmm.Place())
      requires Underway(cache, before, before, [], cache.slabs, if cache.slabs == [] then 0 else cache.slabs[0].page)
      modifies this`slabsHead, this`slabs, pmm`usedPageCnt, pmm.bitmap, pmm.bitmap.bytes, pmm.ram
      ensures pmm.Ready() && Underway(cache, before, pmm.Snapshot(), kept, [], page) && slabsHead == HeadOf(kept)
    {
      ghost var rest := cache.slabs;
      kept, page := [], if cache.slabs == [] then 0 else cache.slabs[0].page;
      slabs := slabsHead;
      var prev: nat := slabsHead;
      assert kept + rest == rest;
      while slabs != 0
        invariant pmm.Ready() && Underway(cache, before, pmm.Snapshot(), kept, rest, page)
        invariant slabs == HeadOf(rest) && slabsHead == HeadOf(kept + rest)
        invariant cache.slabs != [] ==> prev == Header(page)
        invariant |rest| <= |cache.slabs|
        decreases |rest|
      {
        UnderwayReads(cache, before, pmm.Snapshot(), kept, rest, page);
        if pmm.ram[slabs / 8 + 1] == bufctlCountMax {
          RemoveOne(prev, page, kept, rest, before);
          rest := rest[1..];
        } else {
          UnderwayKeep(cache, before, pmm.Snapshot(), kept, rest, page);
          KeptWhole(kept, rest);
          prev := slabs;
          slabs := pmm.ram[slabs / 8];
          page, kept, rest := rest[0].page, kept + [rest[0]], rest[1..];
        }
      }
      if rest != [] { UnderwayReads(cache, before, pmm.Snapshot(), kept, rest, page); }
      UnderwayEnd(cache, before, pmm.Snapshot(), kept, page);
    }

    /** The slab at the cursor goes. */
    method RemoveOne(prev: nat, ghost page: nat, ghost kept: seq<Slab>, ghost rest: seq<Slab>, ghost before: Mem)
      requires pmm.Ready() && cache.size > 0 && Underway(cache, before, pmm.Snapshot(), kept, rest, page)
      requires rest != [] && |rest[0].free| == CountMax(cache.size) && prev == Header(page)
      requires slabs == HeadOf(rest) && slabsHead == HeadOf(kept + rest) && Avoids(Footprint(), pmm.Place())
      modifies this`slabsHead, this`slabs, pmm`usedPageCnt, pmm.bitmap, pmm.bitmap.bytes, pmm.ram
      ensures pmm.Ready() && Underway(cache, before, pmm.Snapshot(), kept, rest[1..], page)
      ensures slabs == HeadOf(rest[1..]) && slabsHead == HeadOf(kept + rest[1..])
    {
      ghost var now := pmm.Snapshot();
      UnderwayReads(cache, before, now, kept, rest, page);
      var next := pmm.ram[slabs / 8];
      UnderwayRemove(cache, before, now, kept, rest, page, next);
      RemoveGuards(cache, before, now, kept, rest, page, pmm.Place());
      if slabs == slabsHead {
        slabsHead := next;
      }
      pmm.ram[prev / 8] := next;
      assert pmm.ram[..] == now.ram[page * 512 + 508 := next];
      pmm.FreePages(slabs, 1);
      slabs := pmm.ram[prev / 8];
    }
  }
}
