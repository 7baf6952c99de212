/** slab_cache_reap (fckrnl/mm/slab.c): which slabs go, which pages are freed, and when that is safe. */
module SlabReap {
  import opened Frames
  import opened SlabCells
  import opened Slabs
  import opened SlabSteps
  import opened SlabRuns
  import opened SlabReturns

  /** The slabs of the list whose count is the maximum, or those whose count is not. */
  function Chosen(slabs: seq<Slab>, max: nat, full: bool): (r: seq<Slab>)
    ensures |r| <= |slabs|
    ensures forall i :: 0 <= i < |r| ==> r[i] in slabs && (|r[i].free| == max <==> full)
  {
    if slabs == [] then []
    else (if (|slabs[0].free| == max) == full then [slabs[0]] else []) + Chosen(slabs[1..], max, full)
  }

  function Kept(slabs: seq<Slab>, max: nat): seq<Slab> {
    Chosen(slabs, max, false)
  }

  function Removed(slabs: seq<Slab>, max: nat): seq<Slab> {
    Chosen(slabs, max, true)
  }

  /** pmm_free of the page of each slab. */
  ghost function ReleaseAll(s: State, slabs: seq<Slab>): State
    decreases |slabs|
  {
    if slabs == [] then s else ReleaseAll(Release(s, slabs[0].page * 4096 + 4064, 1), slabs[1..])
  }

  ghost function Reap(c: Cache, s: State): (Cache, State)
    requires c.size > 0
  {
    (c.(slabs := Kept(c.slabs, CountMax(c.size))), ReleaseAll(s, Removed(c.slabs, CountMax(c.size))))
  }

  // ----- the pages

  function PageSet(slabs: seq<Slab>): set<nat> {
    if slabs == [] then {} else {slabs[0].page} + PageSet(slabs[1..])
  }

  lemma {:induction false} PagesHas(slabs: seq<Slab>, x: nat)
    ensures x in PageSet(slabs) <==> exists i :: 0 <= i < |slabs| && slabs[i].page == x
  {
    if slabs != [] {
      PagesHas(slabs[1..], x);
      if x in PageSet(slabs[1..]) {
        var i :| 0 <= i < |slabs[1..]| && slabs[1..][i].page == x;
        assert slabs[i + 1].page == x;
      }
      if i :| 0 <= i < |slabs| && slabs[i].page == x && x != slabs[0].page {
        assert slabs[1..][i - 1].page == x;
      }
    }
  }

  lemma TailPages(slabs: seq<Slab>, s: State, s1: State)
    requires slabs != [] && PagesDistinct(slabs) && PagesUsed(slabs, s)
    requires s1.top == s.top && s1.used == s.used - {slabs[0].page}
    ensures PagesDistinct(slabs[1..]) && PagesUsed(slabs[1..], s1)
  {
    var rest := slabs[1..];
    assert forall i :: 0 <= i < |rest| ==> rest[i] == slabs[i + 1];
  }

  ghost predicate Released(s: State, s': State, pages: set<nat>, n: nat) {
    && Sound(s') && s'.top == s.top && s'.used == s.used - pages
    && |Free(s')| == |Free(s)| + n && s'.count + n == s.count
  }

  lemma ReleaseOneMore(s: State, page: nat, s1: State, s': State, pages: set<nat>, n: nat)
    requires Sound(s) && page in s.used && 0 < page < s.top && s1 == Release(s, page * 4096 + 4064, 1)
    requires Released(s1, s', pages, n)
    ensures Released(s, s', {page} + pages, n + 1)
  {
    HeaderPage(page);
    ReleaseOnePage(s, page * 4096 + 4064);
  }

  lemma {:induction false} ReleaseAllFrees(s: State, slabs: seq<Slab>)
    requires Sound(s) && PagesDistinct(slabs) && PagesUsed(slabs, s)
    ensures Released(s, ReleaseAll(s, slabs), PageSet(slabs), |slabs|)
    decreases |slabs|
  {
    if slabs == [] {
      assert s.used - PageSet(slabs) == s.used;
    } else {
      var page, rest := slabs[0].page, slabs[1..];
      var s1 := FirstReleased(s, slabs);
      ReleaseAllFrees(s1, rest);
      ReleaseOneMore(s, page, s1, ReleaseAll(s1, rest), PageSet(rest), |rest|);
    }
  }

  lemma FirstReleased(s: State, slabs: seq<Slab>) returns (s1: State)
    requires slabs != [] && Sound(s) && PagesDistinct(slabs) && PagesUsed(slabs, s)
    ensures s1 == Release(s, slabs[0].page * 4096 + 4064, 1) && Sound(s1)
    ensures PagesDistinct(slabs[1..]) && PagesUsed(slabs[1..], s1)
  {
    s1 := Release(s, slabs[0].page * 4096 + 4064, 1);
    HeaderPage(slabs[0].page);
    ReleaseOnePage(s, slabs[0].page * 4096 + 4064);
    TailPages(slabs, s, s1);
  }

  lemma HeaderPage(page: nat)
    ensures (page * 4096 + 4064) / 4096 == page
  {
  }

  // ----- the objects

  lemma {:induction false} BagsSplit(slabs: seq<Slab>, max: nat, size: nat)
    requires size > 0
    ensures Bag(slabs) == Bag(Kept(slabs, max)) + Bag(Removed(slabs, max))
    ensures CellBag(slabs, size) == CellBag(Kept(slabs, max), size) + CellBag(Removed(slabs, max), size)
    ensures |Kept(slabs, max)| + |Removed(slabs, max)| == |slabs|
  {
    if slabs != [] {
      var first, rest := slabs[0], slabs[1..];
      BagsSplit(rest, max, size);
      OneSlab(first, size);
      if |first.free| == max {
        assert Kept(slabs, max) == Kept(rest, max);
        BagSum([first], Removed(rest, max), size);
        InsertRight(multiset(first.free), Bag(Kept(rest, max)), Bag(Removed(rest, max)));
        InsertRight(multiset(Cells(first.page, size)), CellBag(Kept(rest, max), size), CellBag(Removed(rest, max), size));
      } else {
        assert Removed(slabs, max) == Removed(rest, max);
        BagSum([first], Kept(rest, max), size);
        InsertLeft(multiset(first.free), Bag(Kept(rest, max)), Bag(Removed(rest, max)));
        InsertLeft(multiset(Cells(first.page, size)), CellBag(Kept(rest, max), size), CellBag(Removed(rest, max), size));
      }
    }
  }

  lemma InsertRight(f: multiset<nat>, k: multiset<nat>, r: multiset<nat>)
    ensures f + (k + r) == k + (f + r)
  {
  }

  lemma InsertLeft(f: multiset<nat>, k: multiset<nat>, r: multiset<nat>)
    ensures f + (k + r) == f + k + r
  {
  }

  /** The list is taken apart without anything changing place: each part is in the order of the list. */
  ghost predicate Picks(part: seq<Slab>, whole: seq<Slab>, at: seq<nat>) {
    && |at| == |part|
    && (forall i :: 0 <= i < |part| ==> at[i] < |whole| && whole[at[i]] == part[i])
    && (forall i, j :: 0 <= i < j < |at| ==> at[i] < at[j])
  }

  function Shifted(at: seq<nat>): (r: seq<nat>)
    ensures |r| == |at| && forall i :: 0 <= i < |at| ==> r[i] == at[i] + 1
  {
    seq(|at|, i requires 0 <= i < |at| => at[i] + 1)
  }

  lemma ShiftedHas(at: seq<nat>, i: nat)
    ensures i in Shifted(at) <==> i > 0 && i - 1 in at
  {
    if i > 0 && i - 1 in at {
      var j :| 0 <= j < |at| && at[j] == i - 1;
      assert Shifted(at)[j] == i;
    }
  }

  lemma ShiftedPicks(part: seq<Slab>, whole: seq<Slab>, at: seq<nat>, first: Slab)
    requires Picks(part, whole, at)
    ensures Picks(part, [first] + whole, Shifted(at))
    ensures Picks([first] + part, [first] + whole, [0] + Shifted(at))
  {
  }

  lemma AtHas(slabs: seq<Slab>, max: nat, full: bool, later: seq<nat>, at: seq<nat>)
    requires slabs != [] && at == (if (|slabs[0].free| == max) == full then [0] else []) + Shifted(later)
    requires forall i :: 0 <= i < |slabs[1..]| ==> (i in later <==> (|slabs[1..][i].free| == max <==> full))
    ensures forall i :: 0 <= i < |slabs| ==> (i in at <==> (|slabs[i].free| == max <==> full))
  {
    forall i: nat | i < |slabs| ensures i in at <==> (|slabs[i].free| == max <==> full) {
      ShiftedHas(later, i);
      if i > 0 { assert slabs[1..][i - 1] == slabs[i]; }
    }
  }

  /** Exactly the slabs whose count differs from the maximum stay, in their order, and the others go. */
  lemma {:induction false} ChosenInOrder(slabs: seq<Slab>, max: nat, full: bool) returns (at: seq<nat>)
    ensures Picks(Chosen(slabs, max, full), slabs, at)
    ensures forall i :: 0 <= i < |slabs| ==> (i in at <==> (|slabs[i].free| == max <==> full))
  {
    at := [];
    if slabs != [] {
      var later := ChosenInOrder(slabs[1..], max, full);
      at := (if (|slabs[0].free| == max) == full then [0] else []) + Shifted(later);
      ChosenPicks(slabs, max, full, later, at);
      AtHas(slabs, max, full, later, at);
    }
  }

  lemma ChosenPicks(slabs: seq<Slab>, max: nat, full: bool, later: seq<nat>, at: seq<nat>)
    requires slabs != [] && at == (if (|slabs[0].free| == max) == full then [0] else []) + Shifted(later)
    requires Picks(Chosen(slabs[1..], max, full), slabs[1..], later)
    ensures Picks(Chosen(slabs, max, full), slabs, at)
  {
    var part, whole, first := Chosen(slabs[1..], max, full), slabs[1..], slabs[0];
    assert slabs == [first] + whole;
    ShiftedPicks(part, whole, later, first);
    if (|first.free| == max) == full {
      assert Chosen(slabs, max, full) == [first] + part;
    } else {
      assert Chosen(slabs, max, full) == [] + part == part;
      assert at == Shifted(later);
    }
  }

  lemma KeptPages(c: Cache, s: State)
    requires Inv(c, s)
    ensures var (c', s') := Reap(c, s);
      PagesDistinct(All(c')) && PagesUsed(All(c'), s') && CountsOk(All(c'), CountMax(c.size))
    ensures PagesDistinct(Removed(c.slabs, CountMax(c.size))) && PagesUsed(Removed(c.slabs, CountMax(c.size)), s)
    ensures Sound(Reap(c, s).1) && Reap(c, s).1.used == s.used - PageSet(Removed(c.slabs, CountMax(c.size)))
    ensures |Free(Reap(c, s).1)| == |Free(s)| + |Removed(c.slabs, CountMax(c.size))|
  {
    var max := CountMax(c.size);
    var kept, removed := Kept(c.slabs, max), Removed(c.slabs, max);
    var at := ChosenInOrder(c.slabs, max, false);
    var out := ChosenInOrder(c.slabs, max, true);
    RemovedPages(c, s, removed, out);
    SoundMeans(s);
    ReleaseAllFrees(s, removed);
    StayingPages(c, s, kept, at, removed, out);
  }

  lemma RemovedPages(c: Cache, s: State, removed: seq<Slab>, out: seq<nat>)
    requires Inv(c, s) && Picks(removed, c.slabs, out)
    ensures PagesDistinct(removed) && PagesUsed(removed, s)
  {
    forall i | 0 <= i < |removed| ensures removed[i] == All(c)[out[i]] && 0 < removed[i].page < s.top && removed[i].page in s.used {}
    forall i, j | 0 <= i < j < |removed| ensures removed[i].page != removed[j].page {
      assert removed[i] == All(c)[out[i]] && removed[j] == All(c)[out[j]];
    }
  }

  lemma StayingPages(c: Cache, s: State, kept: seq<Slab>, at: seq<nat>, removed: seq<Slab>, out: seq<nat>)
    requires Inv(c, s) && Picks(kept, c.slabs, at) && Picks(removed, c.slabs, out)
    requires forall i :: 0 <= i < |c.slabs| ==> (i in at <==> !(i in out))
    ensures PagesDistinct(kept + c.dropped) && CountsOk(kept + c.dropped, CountMax(c.size))
    ensures forall i :: 0 <= i < |kept + c.dropped| ==>
      var p := (kept + c.dropped)[i].page; p in s.used - PageSet(removed) && 0 < p < s.top
  {
    var all, stay, n := All(c), kept + c.dropped, |c.slabs|;
    var place := at + seq(|c.dropped|, i => n + i);
    assert forall i :: 0 <= i < |stay| ==> place[i] < |all| && stay[i] == all[place[i]];
    forall i | 0 <= i < |stay| ensures stay[i].page !in PageSet(removed) {
      if i < |at| { assert place[i] in at; }
      OtherThanRemoved(c, s, removed, out, place[i]);
    }
  }

  lemma OtherThanRemoved(c: Cache, s: State, removed: seq<Slab>, out: seq<nat>, x: nat)
    requires Inv(c, s) && Picks(removed, c.slabs, out) && x < |All(c)| && x !in out
    ensures All(c)[x].page !in PageSet(removed)
  {
    PagesHas(removed, All(c)[x].page);
    forall j | 0 <= j < |removed| ensures removed[j].page != All(c)[x].page {
      assert removed[j] == All(c)[out[j]] && out[j] in out;
    }
  }

  /** A slab of the list is completely free, and p is its page. */
  predicate FullAt(c: Cache, p: nat)
    requires c.size > 0
  {
    exists i :: 0 <= i < |c.slabs| && |c.slabs[i].free| == CountMax(c.size) && c.slabs[i].page == p
  }

  /** slab_cache_reap: exactly the slabs whose count is the maximum leave the list and give their pages back; the
      others stay as they are, in their order. */
  lemma ReapTakesFull(c: Cache, s: State) returns (at: seq<nat>)
    requires Inv(c, s)
    ensures var (c', s') := Reap(c, s);
      && Picks(c'.slabs, c.slabs, at)
      && (forall i :: 0 <= i < |c.slabs| ==> (i in at <==> |c.slabs[i].free| != CountMax(c.size)))
      && c'.size == c.size && c'.dropped == c.dropped && c'.live == c.live
      && (forall p: nat :: p in s'.used <==> p in s.used && !FullAt(c, p)) && s'.top == s.top
      && |Free(s')| + |c'.slabs| == |Free(s)| + |c.slabs| && s'.count + |c.slabs| == s.count + |c'.slabs|
  {
    var max := CountMax(c.size);
    at := ChosenInOrder(c.slabs, max, false);
    var out := ChosenInOrder(c.slabs, max, true);
    KeptPages(c, s);
    BagsSplit(c.slabs, max, c.size);
    SoundMeans(s);
    ReleaseAllFrees(s, Removed(c.slabs, max));
    forall p: nat ensures p in PageSet(Removed(c.slabs, max)) <==> FullAt(c, p) { RemovedAre(c, out, p); }
  }

  lemma RemovedAre(c: Cache, out: seq<nat>, p: nat)
    requires c.size > 0 && Picks(Removed(c.slabs, CountMax(c.size)), c.slabs, out)
    requires forall i :: 0 <= i < |c.slabs| ==> (i in out <==> |c.slabs[i].free| == CountMax(c.size))
    ensures p in PageSet(Removed(c.slabs, CountMax(c.size))) <==> FullAt(c, p)
  {
    var removed := Removed(c.slabs, CountMax(c.size));
    PagesHas(removed, p);
    if i :| 0 <= i < |removed| && removed[i].page == p {
      assert out[i] in out && c.slabs[out[i]].page == p;
    }
    if FullAt(c, p) {
      var i :| 0 <= i < |c.slabs| && |c.slabs[i].free| == CountMax(c.size) && c.slabs[i].page == p;
      var j :| 0 <= j < |out| && out[j] == i;
      assert removed[j].page == p;
    }
  }

  /** Every object on the lists of these slabs lies in the page of one of them. */
  predicate OwnObjects(slabs: seq<Slab>) {
    forall i, j {:trigger slabs[i].free[j]} :: 0 <= i < |slabs| && 0 <= j < |slabs[i].free| ==>
      slabs[i].free[j] / 4096 in PageSet(slabs)
  }

  /** Reaping keeps the invariant exactly when every object on the lists of the slabs that go lies in one of
      their pages. */
  lemma ReapKeepsExactly(c: Cache, s: State)
    requires Inv(c, s)
    ensures var (c', s') := Reap(c, s);
      Inv(c', s') <==> OwnObjects(Removed(c.slabs, CountMax(c.size)))
  {
    ReapBalances(c, s);
    OwnExactly(c, s);
  }

  lemma ReapBalances(c: Cache, s: State)
    requires Inv(c, s)
    ensures var (c', s') := Reap(c, s); var removed := Removed(c.slabs, CountMax(c.size));
      Inv(c', s') <==> Bag(removed) == CellBag(removed, c.size)
  {
    var max := CountMax(c.size);
    var kept, removed := Kept(c.slabs, max), Removed(c.slabs, max);
    KeptPages(c, s);
    SoundMeans(Reap(c, s).1);
    BagsSplit(c.slabs, max, c.size);
    BagSum(c.slabs, c.dropped, c.size);
    BagSum(kept, c.dropped, c.size);
    Cancelled(Bag(kept), Bag(removed), Bag(c.dropped), multiset(c.live),
              CellBag(kept, c.size), CellBag(removed, c.size), CellBag(c.dropped, c.size));
  }

  lemma OwnExactly(c: Cache, s: State)
    requires Inv(c, s)
    ensures var removed := Removed(c.slabs, CountMax(c.size));
      Bag(removed) == CellBag(removed, c.size) <==> OwnObjects(removed)
  {
    var max := CountMax(c.size);
    var removed := Removed(c.slabs, max);
    KeptPages(c, s);
    if Bag(removed) == CellBag(removed, c.size) {
      forall i, j | 0 <= i < |removed| && 0 <= j < |removed[i].free| ensures removed[i].free[j] / 4096 in PageSet(removed) {
        FreeInBag(removed, i, removed[i].free[j]);
        OfPage(removed, c.size, removed[i].free[j]);
      }
    }
    if OwnObjects(removed) {
      forall a ensures Bag(removed)[a] <= CellBag(removed, c.size)[a] { OwnCounts(c, s, removed, a); }
      FullCount(removed, max);
      BagSize(removed, c.size);
      SameSize(Bag(removed), CellBag(removed, c.size));
    }
  }

  /** An object of these slabs' pages. */
  lemma OfPage(slabs: seq<Slab>, size: nat, a: nat)
    requires size > 0 && PagesDistinct(slabs) && CellBag(slabs, size)[a] > 0
    ensures a / 4096 in PageSet(slabs)
  {
    CellBagCounts(slabs, size, a);
    var i :| 0 <= i < |slabs| && IsCell(a, slabs[i].page, size);
    CellFacts(a, slabs[i].page, size);
    PagesHas(slabs, a / 4096);
  }

  lemma {:induction false} InSomeList(slabs: seq<Slab>, a: nat) returns (i: nat, j: nat)
    requires Bag(slabs)[a] > 0
    ensures i < |slabs| && j < |slabs[i].free| && slabs[i].free[j] == a
  {
    if a in slabs[0].free {
      i := 0;
      j :| 0 <= j < |slabs[0].free| && slabs[0].free[j] == a;
    } else {
      i, j := InSomeList(slabs[1..], a);
      i := i + 1;
    }
  }

  lemma OwnCounts(c: Cache, s: State, removed: seq<Slab>, a: nat)
    requires Inv(c, s) && removed == Removed(c.slabs, CountMax(c.size)) && PagesDistinct(removed) && OwnObjects(removed)
    ensures Bag(removed)[a] <= CellBag(removed, c.size)[a]
  {
    if Bag(removed)[a] > 0 {
      var i, j := InSomeList(removed, a);
      PagesHas(removed, a / 4096);
      var k :| 0 <= k < |removed| && removed[k].page == a / 4096;
      BagsSplit(c.slabs, CountMax(c.size), c.size);
      BagSum(c.slabs, c.dropped, c.size);
      ObjectsAreSomewhereOnce(c, s, a);
      var n :| 0 <= n < |All(c)| && IsCell(a, All(c)[n].page, c.size);
      CellFacts(a, All(c)[n].page, c.size);
      CellBagCounts(removed, c.size, a);
    }
  }

  lemma Cancelled(k: multiset<nat>, r: multiset<nat>, d: multiset<nat>, live: multiset<nat>,
                  k': multiset<nat>, r': multiset<nat>, d': multiset<nat>)
    requires k + r + d + live == k' + r' + d'
    ensures k + d + live == k' + d' <==> r == r'
  {
    if r == r' {
      forall x ensures (k + d + live)[x] == (k' + d')[x] { assert (k + r + d + live)[x] == (k' + r' + d')[x]; }
    }
    if k + d + live == k' + d' {
      forall x ensures r[x] == r'[x] {
        assert (k + r + d + live)[x] == (k' + r' + d')[x];
        assert (k + d + live)[x] == (k' + d')[x];
      }
    }
  }

  /** When it does not, some object of a freed page is still live, or on the list of a slab that stays. */
  lemma ReapLeavesObjects(c: Cache, s: State) returns (a: nat)
    requires Inv(c, s) && !OwnObjects(Removed(c.slabs, CountMax(c.size)))
    ensures a / 4096 !in Reap(c, s).1.used
    ensures a in c.live || Bag(Kept(c.slabs, CountMax(c.size)) + c.dropped)[a] > 0
  {
    var max := CountMax(c.size);
    var kept, removed := Kept(c.slabs, max), Removed(c.slabs, max);
    OwnExactly(c, s);
    KeptPages(c, s);
    BagsSplit(c.slabs, max, c.size);
    BagSum(c.slabs, c.dropped, c.size);
    BagSum(kept, c.dropped, c.size);
    if forall x :: CellBag(removed, c.size)[x] <= Bag(removed)[x] {
      FullCount(removed, max);
      BagSize(removed, c.size);
      SameSize(CellBag(removed, c.size), Bag(removed));
    }
    a :| CellBag(removed, c.size)[a] > Bag(removed)[a];
    OfPage(removed, c.size, a);
    RemovedCount(c, s, kept, removed, a);
  }

  /** Where an object of a removed page can be. */
  ghost predicate RemovedCounts(c: Cache, kept: seq<Slab>, removed: seq<Slab>, a: nat)
    requires c.size > 0
  {
    && Bag(removed)[a] + Bag(kept + c.dropped)[a] + (if a in c.live then 1 else 0) <= 1
    && CellBag(removed, c.size)[a] == (if CellOfSome(removed, c.size, a) then 1 else 0)
    && (CellOfSome(removed, c.size, a) ==>
        Bag(removed)[a] + Bag(kept + c.dropped)[a] + (if a in c.live then 1 else 0) == 1)
  }

  lemma RemovedCount(c: Cache, s: State, kept: seq<Slab>, removed: seq<Slab>, a: nat)
    requires Inv(c, s) && PagesDistinct(removed) && Bag(All(c)) == Bag(kept + c.dropped) + Bag(removed)
    requires forall i :: 0 <= i < |removed| ==> removed[i] in c.slabs
    ensures RemovedCounts(c, kept, removed, a)
  {
    ObjectsAreSomewhereOnce(c, s, a);
    CellBagCounts(removed, c.size, a);
    if CellOfSome(removed, c.size, a) {
      var i :| 0 <= i < |removed| && IsCell(a, removed[i].page, c.size);
      var j :| 0 <= j < |c.slabs| && c.slabs[j] == removed[i];
      assert All(c)[j] == removed[i];
    }
  }

  lemma {:induction false} FullCount(slabs: seq<Slab>, max: nat)
    requires forall i :: 0 <= i < |slabs| ==> |slabs[i].free| == max
    ensures FreeCount(slabs) == Offset(max, |slabs|)
  {
    if slabs != [] { FullCount(slabs[1..], max); }
  }

  lemma SameSize(x: multiset<nat>, y: multiset<nat>)
    requires x <= y && |x| == |y|
    ensures x == y
  {
    assert y == x + (y - x);
    assert |y| == |x| + |y - x|;
  }

  // ----- an unsafe reap

  /** The first slab takes whatever is given back until it is full. */
  ghost predicate TookAll(c: Cache, c': Cache, objs: seq<nat>) {
    && |c'.slabs| == |c.slabs| && c.slabs != [] && c'.size == c.size
    && |c'.slabs[0].free| == |c.slabs[0].free| + |objs| && c'.slabs[0].page == c.slabs[0].page
    && c'.live == c.live - set x | x in objs
  }

  lemma {:induction false} GivenToFirst(c: Cache, s: State, objs: seq<nat>)
    requires Inv(c, s) && c.slabs != [] && |c.slabs[0].free| + |objs| <= CountMax(c.size)
    requires (forall i :: 0 <= i < |objs| ==> objs[i] in c.live)
    requires (forall i, j :: 0 <= i < j < |objs| ==> objs[i] != objs[j])
    ensures Legal(c, s, Giving(objs))
    ensures var (c', s') := ServeAll(c, s, Giving(objs)); s' == s && Inv(c', s) && TookAll(c, c', objs)
    decreases |objs|
  {
    if objs != [] {
      var ptr, rest := objs[0], objs[1..];
      var c1 := Pushed(c, 0, ptr);
      GivenOne(c, s, ptr);
      assert Giving(objs)[0] == PutBack(ptr, true) && Giving(objs)[1..] == Giving(rest);
      GivenToFirst(c1, s, rest);
      assert objs == [ptr] + rest;
      TookBoth(c, c1, ServeAll(c1, s, Giving(rest)).0, ptr, rest);
    }
  }

  lemma GivenOne(c: Cache, s: State, ptr: nat)
    requires Inv(c, s) && c.slabs != [] && |c.slabs[0].free| < CountMax(c.size) && ptr in c.live
    ensures Serve(c, s, PutBack(ptr, true)) == Result(Pushed(c, 0, ptr), s, 0, Done)
    ensures Inv(Pushed(c, 0, ptr), s) && TookAll(c, Pushed(c, 0, ptr), [ptr])
  {
    FreeKeeps(c, s, ptr, true);
  }

  lemma TookBoth(c: Cache, c1: Cache, c': Cache, ptr: nat, rest: seq<nat>)
    requires TookAll(c, c1, [ptr]) && TookAll(c1, c', rest)
    ensures TookAll(c, c', [ptr] + rest)
  {
  }

  lemma AllLive(c: Cache, s: State, i: nat, a: nat)
    requires Inv(c, s) && FreeCount(All(c)) == 0 && i < |All(c)| && IsCell(a, All(c)[i].page, c.size)
    ensures a in c.live
  {
    ObjectsAreSomewhereOnce(c, s, a);
    BagSize(All(c), c.size);
    assert CellOfSome(All(c), c.size, a);
    assert Bag(All(c)) == multiset{};
  }

  lemma CellsDiffer(page: nat, size: nat)
    requires size > 0
    ensures forall i, j :: 0 <= i < j < CountMax(size) ==> Cells(page, size)[i] != Cells(page, size)[j]
  {
    forall i, j | 0 <= i < j < CountMax(size) ensures Cells(page, size)[i] != Cells(page, size)[j] {
      CellsApart(page, page, size, i, j);
    }
  }

  /** A cache with two slabs, all of whose objects are live.  Its callers give back the objects of the second
      slab; the first takes them and looks empty; slab_cache_reap frees its page under its live objects. */
  lemma ReapFreesLiveObjects(c: Cache, s: State)
    requires Inv(c, s) && |c.slabs| == 2 && c.dropped == [] && FreeCount(c.slabs) == 0
    ensures var objs := Cells(c.slabs[1].page, c.size);
      && Legal(c, s, Giving(objs))
      && var (c1, s1) := ServeAll(c, s, Giving(objs));
         c1.size > 0 && var (c2, s2) := Reap(c1, s1);
         && c.slabs[0].page !in s2.used
         && forall a :: IsCell(a, c.slabs[0].page, c.size) ==> a in c2.live
  {
    var p, objs, max := c.slabs[0].page, Cells(c.slabs[1].page, c.size), CountMax(c.size);
    assert All(c) == c.slabs;
    forall i | 0 <= i < |objs| ensures objs[i] in c.live { AllLive(c, s, 1, objs[i]); }
    CellsDiffer(c.slabs[1].page, c.size);
    GivenToFirst(c, s, objs);
    var c1 := ServeAll(c, s, Giving(objs)).0;
    KeptPages(c1, s);
    assert Removed(c1.slabs, max)[0] == c1.slabs[0];
    assert p in PageSet(Removed(c1.slabs, max));
    forall a | IsCell(a, p, c.size) ensures a in c1.live {
      AllLive(c, s, 0, a);
      CellFacts(a, p, c.size);
      if a in objs { CellFacts(a, c.slabs[1].page, c.size); }
    }
  }

  /** Such a state is within reach of a new cache, with three free frames: some allocs, some frees, and the
      reap gives away the page of objects that are live. */
  lemma UnsafeReapReachable(size: nat, s: State) returns (c: Cache, s': State, qs: seq<Request>, c1: Cache, s1: State, a: nat)
    requires SizeOk(size) && Sound(s) && |Free(s)| >= 3
    ensures Create(size, s) == (Some(c), s') && c.size == size && c1.size == size
    ensures Legal(c, s', qs) && NoMore(qs) && ServeAll(c, s', qs) == (c1, s1)
    ensures var (c2, s2) := Reap(c1, s1); a in c2.live && a / 4096 !in s2.used
  {
    var cf, sf;
    c, s', cf, sf := TwoFullSlabs(size, s);
    var objs := Cells(cf.slabs[1].page, size);
    ReapFreesLiveObjects(cf, sf);
    RunsFollow(c, s', Gets(2 * CountMax(size)), Giving(objs));
    RunKeeps(cf, sf, Giving(objs));
    qs := Gets(2 * CountMax(size)) + Giving(objs);
    c1, s1 := ServeAll(cf, sf, Giving(objs)).0, ServeAll(cf, sf, Giving(objs)).1;
    CellsExist(size);
    a := Cells(cf.slabs[0].page, size)[0];
    CellPlace(cf.slabs[0].page, size, 0);
  }
}
