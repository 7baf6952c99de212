/** What every operation of the slab allocator keeps. */
module SlabSteps {
  import opened Frames
  import opened SlabCells
  import opened Slabs

  // ----- what the invariant says about one object

  predicate CellOfSome(slabs: seq<Slab>, size: nat, a: nat)
    requires size > 0
  {
    exists i :: 0 <= i < |slabs| && IsCell(a, slabs[i].page, size)
  }

  lemma {:induction false} CellBagCounts(slabs: seq<Slab>, size: nat, a: nat)
    requires size > 0 && PagesDistinct(slabs)
    ensures CellBag(slabs, size)[a] == (if CellOfSome(slabs, size, a) then 1 else 0)
  {
    if slabs != [] {
      var rest := slabs[1..];
      CellBagCounts(rest, size, a);
      OnceInCells(slabs[0].page, size, a);
      if IsCell(a, slabs[0].page, size) {
        CellFacts(a, slabs[0].page, size);
        forall i | 0 <= i < |rest| ensures !IsCell(a, rest[i].page, size) {
          if IsCell(a, rest[i].page, size) { CellFacts(a, rest[i].page, size); }
          assert rest[i] == slabs[i + 1];
        }
        assert CellOfSome(slabs, size, a);
      } else {
        if CellOfSome(slabs, size, a) {
          var i :| 0 <= i < |slabs| && IsCell(a, slabs[i].page, size);
          assert slabs[i] == rest[i - 1];
        }
        if CellOfSome(rest, size, a) {
          var i :| 0 <= i < |rest| && IsCell(a, rest[i].page, size);
          assert rest[i] == slabs[i + 1];
        }
      }
    }
  }

  /** Every object of the cache's pages is free once or live, and not both; nothing else is. */
  lemma ObjectsAreSomewhereOnce(c: Cache, s: State, a: nat)
    requires Inv(c, s)
    ensures Bag(All(c))[a] + (if a in c.live then 1 else 0) == (if CellOfSome(All(c), c.size, a) then 1 else 0)
  {
    CellBagCounts(All(c), c.size, a);
    assert (Bag(All(c)) + multiset(c.live))[a] == CellBag(All(c), c.size)[a];
  }

  /** Two live objects do not overlap, and neither overlaps the slab_t of its page. */
  lemma LiveObjectsApart(c: Cache, s: State, a: nat, b: nat)
    requires Inv(c, s) && a in c.live && b in c.live && a != b
    ensures a + c.size <= b || b + c.size <= a
    ensures a / 4096 in s.used && a % 4096 + c.size <= 4056
  {
    ObjectsAreSomewhereOnce(c, s, a);
    ObjectsAreSomewhereOnce(c, s, b);
    var all := All(c);
    var i :| 0 <= i < |all| && IsCell(a, all[i].page, c.size);
    var j :| 0 <= j < |all| && IsCell(b, all[j].page, c.size);
    CellFacts(a, all[i].page, c.size);
    var x :| 0 <= x < CountMax(c.size) && Cells(all[i].page, c.size)[x] == a;
    var y :| 0 <= y < CountMax(c.size) && Cells(all[j].page, c.size)[y] == b;
    CellsApart(all[i].page, all[j].page, c.size, x, y);
  }

  lemma {:induction false} FreeInBag(slabs: seq<Slab>, k: nat, a: nat)
    requires k < |slabs| && a in slabs[k].free
    ensures Bag(slabs)[a] > 0
  {
    if k > 0 { FreeInBag(slabs[1..], k - 1, a); }
  }

  // ----- every operation keeps the invariant

  lemma PopKeeps(c: Cache, s: State, k: nat)
    requires Inv(c, s) && k < |c.slabs| && c.slabs[k].free != []
    ensures Inv(Popped(c, k), s)
    ensures c.slabs[k].free[0] !in c.live
  {
    var all, free, c' := All(c), c.slabs[k].free, Popped(c, k);
    var a := free[0];
    FreeInBag(all, k, a);
    ObjectsAreSomewhereOnce(c, s, a);
    assert All(c') == all[k := all[k].(free := free[1..])];
    BagChange(all, k, free[1..]);
    CellBagChange(all, k, free[1..], c.size);
    assert free == [a] + free[1..];
    assert multiset(free) == multiset{a} + multiset(free[1..]);
    Moved(Bag(All(c')), Bag(all), multiset(free[1..]), multiset{a}, multiset(c.live));
    assert multiset(c'.live) == multiset(c.live) + multiset{a};
  }

  lemma Moved(b': multiset<nat>, b: multiset<nat>, rest: multiset<nat>, a: multiset<nat>, live: multiset<nat>)
    requires b' + (a + rest) == b + rest
    ensures b' + (live + a) == b + live
  {
    forall x ensures (b' + (live + a))[x] == (b + live)[x] {
      assert (b' + (a + rest))[x] == (b + rest)[x];
    }
  }

  lemma PushKeeps(c: Cache, s: State, k: nat, ptr: nat)
    requires Inv(c, s) && k < |c.slabs| && |c.slabs[k].free| < CountMax(c.size) && ptr in c.live
    ensures Inv(Pushed(c, k, ptr), s)
  {
    var all, free, c' := All(c), c.slabs[k].free, Pushed(c, k, ptr);
    assert All(c') == all[k := all[k].(free := [ptr] + free)];
    BagChange(all, k, [ptr] + free);
    CellBagChange(all, k, [ptr] + free, c.size);
    assert multiset([ptr] + free) == multiset{ptr} + multiset(free);
    assert multiset(c.live) == multiset(c'.live) + multiset{ptr};
    Moved(Bag(all), Bag(All(c')), multiset(free), multiset{ptr}, multiset(c'.live));
  }

  lemma NoPage(s: State)
    requires SoundFrames(s)
    ensures Alloc(s, 1).1 == 0 <==> Free(s) == {}
    ensures Alloc(s, 1).1 == 0 ==> Alloc(s, 1).0 == s
  {
    SoundMeans(s);
    AllocOnePage(s);
  }

  /** From s to s1 the frame allocator has handed out a page the cache does not have. */
  ghost predicate NewPage(c: Cache, s: State, s1: State, page: nat) {
    && SoundFrames(s1) && s1.top == s.top && s1.used == s.used + {page} && 0 < page < s.top
    && forall i :: 0 <= i < |All(c)| ==> All(c)[i].page != page
  }

  lemma FreshPage(c: Cache, s: State)
    requires Inv(c, s) && Alloc(s, 1).1 != 0
    ensures var (s1, a) := Alloc(s, 1); NewPage(c, s, s1, a / 4096) && a == a / 4096 * 4096
  {
    SoundMeans(s);
    AllocOnePage(s);
    SoundMeans(Alloc(s, 1).0);
  }

  lemma LinkKeepsAt(c: Cache, s: State, s1: State, k: nat, page: nat)
    requires Inv(c, s) && (c.slabs == [] || k < |c.slabs|) && NewPage(c, s, s1, page)
    ensures Inv(Linked(c, k, page), s1)
  {
    var f, c' := Fresh(page, c.size), Linked(c, k, page);
    var kept, tail := if c.slabs == [] then [] else c.slabs[..k + 1], if c.slabs == [] then [] else c.slabs[k + 1..];
    assert c.slabs == kept + tail;
    assert All(c') == (kept + [f]) + (c.dropped + tail);
    assert All(c) == (kept + tail) + c.dropped;
    LinkedBags(kept, tail, c.dropped, f, c.size);
    assert Bag(All(c')) == Bag(All(c)) + multiset(f.free);
    assert CellBag(All(c'), c.size) == CellBag(All(c), c.size) + multiset(f.free);
    LinkedPages(All(c), All(c'), kept, tail, c.dropped, f, s, s1, CountMax(c.size));
    BothGrow(Bag(All(c)), multiset(c.live), CellBag(All(c), c.size), multiset(f.free));
  }

  lemma LinkKeeps(c: Cache, s: State, k: nat)
    requires Inv(c, s) && (c.slabs == [] || k < |c.slabs|) && Alloc(s, 1).1 != 0
    ensures Inv(Linked(c, k, Alloc(s, 1).1 / 4096), Alloc(s, 1).0)
  {
    FreshPage(c, s);
    LinkKeepsAt(c, s, Alloc(s, 1).0, k, Alloc(s, 1).1 / 4096);
  }

  lemma BothGrow(b: multiset<nat>, live: multiset<nat>, cells: multiset<nat>, f: multiset<nat>)
    requires b + live == cells
    ensures b + f + live == cells + f
  {
    assert b + f + live == b + live + f;
  }

  lemma Rearranged(k: multiset<nat>, f: multiset<nat>, d: multiset<nat>, t: multiset<nat>)
    ensures (k + f) + (d + t) == ((k + t) + d) + f
  {
    assert (k + f) + (d + t) == (k + f) + d + t;
  }

  lemma LinkedBags(kept: seq<Slab>, tail: seq<Slab>, dropped: seq<Slab>, f: Slab, size: nat)
    requires size > 0 && f.free == Cells(f.page, size)
    ensures Bag((kept + [f]) + (dropped + tail)) == Bag((kept + tail) + dropped) + multiset(f.free)
    ensures CellBag((kept + [f]) + (dropped + tail), size) == CellBag((kept + tail) + dropped, size) + multiset(f.free)
  {
    BagSum(kept + [f], dropped + tail, size);
    BagSum(kept, [f], size);
    BagSum(dropped, tail, size);
    BagSum(kept + tail, dropped, size);
    BagSum(kept, tail, size);
    OneSlab(f, size);
    Rearranged(Bag(kept), multiset(f.free), Bag(dropped), Bag(tail));
    Rearranged(CellBag(kept, size), multiset(f.free), CellBag(dropped, size), CellBag(tail, size));
  }

  lemma OneSlab(f: Slab, size: nat)
    requires size > 0
    ensures Bag([f]) == multiset(f.free) && CellBag([f], size) == multiset(Cells(f.page, size))
  {
    assert [f][1..] == [];
    assert Bag([f]) == multiset(f.free) + Bag([]);
  }

  lemma LinkedPages(all: seq<Slab>, all': seq<Slab>, kept: seq<Slab>, tail: seq<Slab>, dropped: seq<Slab>, f: Slab,
                    s: State, s1: State, max: nat)
    requires all == (kept + tail) + dropped && all' == (kept + [f]) + (dropped + tail)
    requires PagesDistinct(all) && PagesUsed(all, s) && CountsOk(all, max)
    requires forall i :: 0 <= i < |all| ==> all[i].page != f.page
    requires s1.top == s.top && s1.used == s.used + {f.page} && 0 < f.page < s.top && |f.free| <= max
    ensures PagesDistinct(all') && PagesUsed(all', s1) && CountsOk(all', max)
  {
    var n, d, t := |kept|, |dropped|, |tail|;
    forall j | 0 <= j < |all'| ensures all'[j] == f || all'[j] in all {
      if j < n { assert all'[j] == all[j]; }
      else if j == n { }
      else if j < n + 1 + d { assert all'[j] == all[j - 1 + t]; }
      else { assert all'[j] == all[j - 1 - d]; }
    }
    forall i, j | 0 <= i < j < |all'| ensures all'[i].page != all'[j].page {
      var x := if i < n then i else if i == n then 0 else if i < n + 1 + d then i - 1 + t else i - 1 - d;
      var y := if j < n then j else if j == n then 0 else if j < n + 1 + d then j - 1 + t else j - 1 - d;
      if i != n { assert all'[i] == all[x]; }
      if j != n { assert all'[j] == all[y]; }
    }
  }

  lemma {:induction false} GrowKeeps(c: Cache, s: State, k: nat, n: nat)
    requires Inv(c, s) && (c.slabs == [] || k < |c.slabs|)
    ensures var (c', s', ok) := GrowFrom(c, s, k, n); Inv(c', s') && c'.size == c.size && c'.live == c.live
    decreases n
  {
    if n > 0 {
      var (s1, a) := Alloc(s, 1);
      if a == 0 {
        NoPage(s);
      } else {
        LinkKeeps(c, s, k);
        var k1, n1, c1 := if c.slabs == [] then 0 else k + 1, n - 1, Linked(c, k, a / 4096);
        assert k1 < |c1.slabs| && c1.size == c.size && c1.live == c.live;
        GrowKeeps(c1, s1, k1, n1);
      }
    }
  }

  /** slab_cache_alloc keeps the invariant, and hands out an object nobody holds. */
  lemma AllocKeeps(c: Cache, s: State, panic: bool, autoGrow: bool)
    requires Inv(c, s)
    ensures var r := CacheAlloc(c, s, panic, autoGrow);
      && Inv(r.c, r.s) && r.c.size == c.size
      && (r.outcome == Done ==> r.ptr !in c.live && r.c.live == c.live + {r.ptr})
      && (r.outcome != Done ==> r.c.live == c.live && r.ptr == 0)
  {
    var k := FirstFree(c.slabs);
    if k < |c.slabs| {
      PopKeeps(c, s, k);
    } else if autoGrow {
      AllocGrown(c, s, panic);
    }
  }

  lemma AllocGrown(c: Cache, s: State, panic: bool)
    requires Inv(c, s) && FirstFree(c.slabs) == |c.slabs|
    ensures var r := CacheAlloc(c, s, panic, true);
      && Inv(r.c, r.s) && r.c.size == c.size
      && (r.outcome == Done ==> r.ptr !in c.live && r.c.live == c.live + {r.ptr})
      && (r.outcome != Done ==> r.c.live == c.live && r.ptr == 0)
  {
    GrowThenPop(c, s);
    assert Grow(c, s, 1).2 ==> Grow(c, s, 1).0.size > 0;
  }

  lemma GrowThenPop(c: Cache, s: State)
    requires Inv(c, s)
    ensures var (c1, s1, ok) := Grow(c, s, 1); var j := FirstFree(c1.slabs);
      && Inv(c1, s1) && c1.size == c.size && c1.live == c.live
      && (j < |c1.slabs| ==> Inv(Popped(c1, j), s1) && c1.slabs[j].free[0] !in c1.live)
  {
    GrowKeeps(c, s, 0, 1);
    var (c1, s1, ok) := Grow(c, s, 1);
    var j := FirstFree(c1.slabs);
    if j < |c1.slabs| { PopKeeps(c1, s1, j); }
  }

  /** slab_cache_free of an object the caller holds keeps the invariant. */
  lemma FreeKeeps(c: Cache, s: State, ptr: nat, panic: bool)
    requires Inv(c, s) && ptr in c.live
    ensures var (c', o) := CacheFree(c, ptr, panic);
      && Inv(c', s) && c'.size == c.size && c'.dropped == c.dropped && |c'.slabs| == |c.slabs|
      && c'.live == (if o == Done then c.live - {ptr} else c.live)
  {
    var k := FirstRoom(c.slabs, CountMax(c.size));
    if k < |c.slabs| { PushKeeps(c, s, k, ptr); }
  }
}
