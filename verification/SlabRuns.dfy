/** Conservation of the objects of a cache, and what whole runs of alloc and free come to. */
module SlabRuns {
  import opened Frames
  import opened SlabCells
  import opened Slabs
  import opened SlabSteps

  // ----- conservation

  function FreeCount(slabs: seq<Slab>): nat {
    if slabs == [] then 0 else |slabs[0].free| + FreeCount(slabs[1..])
  }

  lemma {:induction false} BagSize(slabs: seq<Slab>, size: nat)
    requires size > 0
    ensures |Bag(slabs)| == FreeCount(slabs)
    ensures |CellBag(slabs, size)| == Offset(CountMax(size), |slabs|)
  {
    if slabs != [] { BagSize(slabs[1..], size); }
  }

  lemma {:induction false} FreeCountSum(s: seq<Slab>, t: seq<Slab>)
    ensures FreeCount(s + t) == FreeCount(s) + FreeCount(t)
  {
    if s == [] {
      assert s + t == t;
    } else {
      assert (s + t)[1..] == s[1..] + t;
      FreeCountSum(s[1..], t);
    }
  }

  lemma {:induction false} OffsetSum(size: nat, i: nat, j: nat)
    ensures Offset(size, i + j) == Offset(size, i) + Offset(size, j)
    decreases j
  {
    if j > 0 {
      OffsetSum(size, i, j - 1);
      assert Offset(size, i + j) == Offset(size, i + j - 1) + size;
    }
  }

  /** The free objects and the live ones are bufctl_count_max for each slab, listed or dropped. */
  lemma Conservation(c: Cache, s: State)
    requires Inv(c, s)
    ensures FreeCount(c.slabs) + FreeCount(c.dropped) + |c.live| ==
      Offset(CountMax(c.size), |c.slabs|) + Offset(CountMax(c.size), |c.dropped|)
  {
    BagSize(All(c), c.size);
    FreeCountSum(c.slabs, c.dropped);
    OffsetSum(CountMax(c.size), |c.slabs|, |c.dropped|);
    assert |Bag(All(c)) + multiset(c.live)| == |Bag(All(c))| + |c.live|;
  }

  /** The room the cache has lost with the slabs it dropped. */
  function Lost(c: Cache): int
    requires c.size > 0
  {
    Offset(CountMax(c.size), |c.dropped|) - FreeCount(c.dropped)
  }

  lemma {:induction false} Filled(slabs: seq<Slab>, max: nat)
    requires CountsOk(slabs, max)
    ensures FreeCount(slabs) <= Offset(max, |slabs|)
    ensures FirstRoom(slabs, max) == |slabs| <==> FreeCount(slabs) == Offset(max, |slabs|)
  {
    if slabs != [] {
      forall i | 0 <= i < |slabs[1..]| ensures |slabs[1..][i].free| <= max { assert slabs[1..][i] == slabs[i + 1]; }
      Filled(slabs[1..], max);
    }
  }

  lemma ListedCounts(c: Cache, s: State)
    requires Inv(c, s)
    ensures CountsOk(c.slabs, CountMax(c.size)) && CountsOk(c.dropped, CountMax(c.size))
  {
    forall i | 0 <= i < |c.slabs| ensures |c.slabs[i].free| <= CountMax(c.size) { assert All(c)[i] == c.slabs[i]; }
    forall i | 0 <= i < |c.dropped| ensures |c.dropped[i].free| <= CountMax(c.size) {
      assert All(c)[|c.slabs| + i] == c.dropped[i];
    }
  }

  /** slab_cache_free finds no slab with room exactly when the live objects are as many as the lost ones. */
  lemma FreeFailsExactly(c: Cache, s: State, ptr: nat, panic: bool)
    requires Inv(c, s) && ptr in c.live
    ensures CacheFree(c, ptr, panic).1 != Done <==> |c.live| == Lost(c)
  {
    Conservation(c, s);
    ListedCounts(c, s);
    Filled(c.slabs, CountMax(c.size));
  }

  /** While no slab has been dropped, the free of a live object never fails. */
  lemma FreeNeverFails(c: Cache, s: State, ptr: nat, panic: bool)
    requires Inv(c, s) && ptr in c.live && c.dropped == []
    ensures CacheFree(c, ptr, panic).1 == Done
  {
    FreeFailsExactly(c, s, ptr, panic);
    assert Offset(CountMax(c.size), |c.dropped|) == 0;
    assert c.live != {};
  }

  lemma {:induction false} Emptied(slabs: seq<Slab>)
    ensures FreeCount(slabs) == 0 <==> FirstFree(slabs) == |slabs|
  {
    if slabs != [] { Emptied(slabs[1..]); }
  }

  // ----- growing

  /** slab_cache_grow keeps the whole list exactly when there is at most one slab on it, or nothing grows. */
  lemma GrowDropsExactly(c: Cache, s: State, n: nat)
    requires Inv(c, s)
    ensures var (c', s', ok) := Grow(c, s, n);
      c'.dropped == c.dropped <==> |c.slabs| <= 1 || n == 0 || Free(s) == {}
  {
    if n > 0 {
      var (s1, a) := Alloc(s, 1);
      NoPage(s);
      if a != 0 {
        LinkKeeps(c, s, 0);
        var c1 := Linked(c, 0, a / 4096);
        GrowDropsNoMore(c1, s1, if c.slabs == [] then 0 else 1, n - 1);
        if |c.slabs| > 1 { assert |c1.dropped| > |c.dropped|; }
        if |c.slabs| == 1 { assert c.dropped + c.slabs[1..] == c.dropped; }
      }
    }
  }

  lemma {:induction false} GrowDropsNoMore(c: Cache, s: State, k: nat, n: nat)
    requires c.size > 0 && k + 1 == |c.slabs|
    ensures GrowFrom(c, s, k, n).0.dropped == c.dropped
    decreases n
  {
    if n > 0 {
      var (s1, a) := Alloc(s, 1);
      if a != 0 {
        var n1, k1, c1 := n - 1, k + 1, Linked(c, k, a / 4096);
        assert c.dropped + c.slabs[k + 1..] == c.dropped;
        GrowDropsNoMore(c1, s1, k1, n1);
      }
    }
  }

  /** A slab in a page that was free, with all its objects on the list, in the order of their addresses. */
  ghost predicate NewSlab(f: Slab, s: State, size: nat)
    requires size > 0
  {
    && f.page in Free(s) && |f.free| == CountMax(size)
    && forall j :: 0 <= j < |f.free| ==> f.free[j] == f.page * 4096 + size * j
  }

  predicate TakenFor(slabs: seq<Slab>, h: nat, p: nat) {
    exists i :: h <= i < |slabs| && slabs[i].page == p
  }

  /** The first h slabs stay, n new ones follow, and their pages are what the frame allocator has given. */
  ghost predicate Appended(c: Cache, s: State, c': Cache, s': State, h: nat, n: nat)
    requires c.size > 0 && h <= |c.slabs|
  {
    && c'.size == c.size && c'.live == c.live
    && |c'.slabs| == h + n && c'.slabs[..h] == c.slabs[..h]
    && (forall i :: h <= i < h + n ==> NewSlab(c'.slabs[i], s, c.size))
    && (forall p: nat :: p in s'.used <==> p in s.used || TakenFor(c'.slabs, h, p))
    && s'.top == s.top && |Free(s')| + n == |Free(s)| && s'.count == s.count + n
  }

  /** The smaller number. */
  function Least(n: nat, m: nat): nat {
    if n <= m then n else m
  }

  /** slab_cache_grow for n slabs: it takes as many pages as there are, up to n, and says whether there were n.
      The first slab stays, the new ones follow it, and any others leave the list. */
  lemma GrowExactly(c: Cache, s: State, n: nat)
    requires Inv(c, s)
    ensures var (c', s', ok) := Grow(c, s, n);
      var h, m := if c.slabs == [] then 0 else 1, Least(n, |Free(s)|);
      && (ok <==> n <= |Free(s)|)
      && (if m == 0 then c' == c && s' == s
          else Appended(c, s, c', s', h, m) && c'.dropped == c.dropped + c.slabs[h..])
  {
    NoPage(s);
    EmptyOrNot(Free(s));
    if n > 0 && Free(s) != {} {
      var h, n1, c1, s1 := if c.slabs == [] then 0 else 1, n - 1, Linked(c, 0, Alloc(s, 1).1 / 4096), Alloc(s, 1).0;
      LinkKeeps(c, s, 0);
      LinkedAppends(c, s, 0);
      LinkedDrops(c, 0, Alloc(s, 1).1 / 4096);
      GrowGoesOn(c, s, c1, s1, h, n1);
      assert Grow(c, s, n) == GrowFrom(c1, s1, h, n1);
    }
  }

  /** The rounds after the first. */
  lemma {:induction false} GrowGoesOn(c: Cache, s: State, c1: Cache, s1: State, h: nat, n: nat)
    requires c.size > 0 && h <= |c.slabs| && Appended(c, s, c1, s1, h, 1) && Inv(c1, s1)
    ensures |c1.slabs| == h + 1
    ensures var (c', s', ok) := GrowFrom(c1, s1, h, n);
      (ok <==> n + 1 <= |Free(s)|) && Appended(c, s, c', s', h, Least(n + 1, |Free(s)|)) && Least(n + 1, |Free(s)|) > 0
      && c'.dropped == c1.dropped
    decreases n, 1
  {
    GrowAppends(c1, s1, h, n);
    var (c', s', ok) := GrowFrom(c1, s1, h, n);
    AppendedAll(c, s, c1, s1, c', s', h, n);
  }

  lemma LinkedAppends(c: Cache, s: State, k: nat)
    requires Inv(c, s) && Free(s) != {} && (c.slabs == [] || k < |c.slabs|)
    ensures var (s1, a) := Alloc(s, 1); var h := if c.slabs == [] then 0 else k + 1;
      a != 0 && Appended(c, s, Linked(c, k, a / 4096), s1, h, 1)
  {
    SoundMeans(s);
    AllocOnePage(s);
    FreshAppends(c, s, Alloc(s, 1).0, k, Alloc(s, 1).1 / 4096);
  }

  lemma FreshAppends(c: Cache, s: State, s1: State, k: nat, page: nat)
    requires c.size > 0 && page in Free(s) && (c.slabs == [] || k < |c.slabs|)
    requires s1.used == s.used + {page} && s1.top == s.top && |Free(s1)| + 1 == |Free(s)| && s1.count == s.count + 1
    ensures Appended(c, s, Linked(c, k, page), s1, if c.slabs == [] then 0 else k + 1, 1)
  {
    var h, c1 := if c.slabs == [] then 0 else k + 1, Linked(c, k, page);
    forall j | 0 <= j < CountMax(c.size) ensures Fresh(page, c.size).free[j] == page * 4096 + c.size * j {
      CellAt(page, c.size, j);
    }
    assert c1.slabs[h] == Fresh(page, c.size);
    assert forall p: nat :: TakenFor(c1.slabs, h, p) <==> p == page;
  }

  lemma AppendedTwice(c: Cache, s: State, c1: Cache, s1: State, c2: Cache, s2: State, h: nat, m: nat)
    requires c.size > 0 && h <= |c.slabs| && Appended(c, s, c1, s1, h, 1) && Appended(c1, s1, c2, s2, h + 1, m)
    ensures Appended(c, s, c2, s2, h, m + 1)
  {
    assert c2.slabs[h] == c2.slabs[..h + 1][h] == c1.slabs[h];
    assert c2.slabs[..h] == c2.slabs[..h + 1][..h] == c1.slabs[..h];
    forall p: nat ensures p in s2.used <==> p in s.used || TakenFor(c2.slabs, h, p) { TakenAfter(c1.slabs, c2.slabs, h, p); }
    forall i | h <= i < h + 1 + m ensures NewSlab(c2.slabs[i], s, c.size) {
      if i > h { assert NewSlab(c2.slabs[i], s1, c1.size); }
    }
  }

  lemma LinkedDrops(c: Cache, k: nat, page: nat)
    requires c.size > 0 && (c.slabs == [] || k < |c.slabs|)
    ensures Linked(c, k, page).dropped == c.dropped + c.slabs[if c.slabs == [] then 0 else k + 1..]
    ensures |Linked(c, k, page).slabs| == (if c.slabs == [] then 0 else k + 1) + 1
  {
    if c.slabs == [] { assert c.dropped + [] == c.dropped; }
  }

  lemma AppendedAll(c: Cache, s: State, c1: Cache, s1: State, c2: Cache, s2: State, h: nat, n: nat)
    requires c.size > 0 && h <= |c.slabs| && Appended(c, s, c1, s1, h, 1)
    requires Appended(c1, s1, c2, s2, h + 1, Least(n, |Free(s1)|))
    ensures Appended(c, s, c2, s2, h, Least(n + 1, |Free(s)|)) && Least(n + 1, |Free(s)|) > 0
  {
    AppendedTwice(c, s, c1, s1, c2, s2, h, Least(n, |Free(s1)|));
  }

  lemma TakenAfter(slabs1: seq<Slab>, slabs2: seq<Slab>, h: nat, p: nat)
    requires |slabs1| == h + 1 <= |slabs2| && slabs2[h] == slabs1[h]
    ensures TakenFor(slabs2, h, p) <==> TakenFor(slabs1, h, p) || TakenFor(slabs2, h + 1, p)
  {
    if TakenFor(slabs1, h, p) { assert slabs2[h].page == p; }
    if TakenFor(slabs2, h, p) && !TakenFor(slabs2, h + 1, p) { assert slabs1[h].page == p; }
  }

  /** With the cursor at the end of the list. */
  lemma {:induction false} GrowAppends(c: Cache, s: State, k: nat, n: nat)
    requires Inv(c, s) && k + 1 == |c.slabs|
    ensures var (c', s', ok) := GrowFrom(c, s, k, n); var m := Least(n, |Free(s)|);
      (ok <==> n <= |Free(s)|) && Appended(c, s, c', s', |c.slabs|, m) && c'.dropped == c.dropped
    decreases n, 0
  {
    NoPage(s);
    EmptyOrNot(Free(s));
    if n > 0 && Free(s) != {} {
      var k1, n1, c1, s1 := k + 1, n - 1, Linked(c, k, Alloc(s, 1).1 / 4096), Alloc(s, 1).0;
      LinkKeeps(c, s, k);
      LinkedAppends(c, s, k);
      LinkedDrops(c, k, Alloc(s, 1).1 / 4096);
      assert c.dropped + c.slabs[k + 1..] == c.dropped;
      GrowGoesOn(c, s, c1, s1, k1, n1);
      assert GrowFrom(c, s, k, n) == GrowFrom(c1, s1, k1, n1);
    } else {
      NothingAppended(c, s);
    }
  }

  lemma NothingAppended(c: Cache, s: State)
    requires c.size > 0
    ensures Appended(c, s, c, s, |c.slabs|, 0)
  {
    assert c.slabs[..|c.slabs|] == c.slabs;
  }

  /** One page more: the list is at most the first slab and the new one. */
  lemma GrowOne(c: Cache, s: State)
    requires Inv(c, s)
    ensures var (c', s', ok) := Grow(c, s, 1);
      if Free(s) == {} then !ok && c' == c && s' == s
      else ok && c' == Linked(c, 0, Alloc(s, 1).1 / 4096) && s' == Alloc(s, 1).0
  {
    NoPage(s);
    var (s1, a) := Alloc(s, 1);
    if a != 0 {
      var c1 := Linked(c, 0, a / 4096);
      var k := if c.slabs == [] then 0 else 1;
      assert GrowFrom(c1, s1, k, 0) == (c1, s1, true);
    }
  }

  lemma CellsExist(size: nat)
    requires SizeOk(size)
    ensures CountMax(size) > 0
  {
  }

  /** slab_cache_alloc with SLAB_AUTO_GROW hands out an object, after growing once at most, unless every
      object is taken and no page is free; then it panics, or without SLAB_PANIC never comes back. */
  lemma AllocDelivers(c: Cache, s: State, panic: bool)
    requires Inv(c, s)
    ensures CacheAlloc(c, s, panic, true).outcome ==
      if FreeCount(c.slabs) > 0 || Free(s) != {} then Done else if panic then Panic else Endless
  {
    Emptied(c.slabs);
    GrowOne(c, s);
    if FirstFree(c.slabs) == |c.slabs| && Free(s) != {} {
      CellsExist(c.size);
      var c1 := Linked(c, 0, Alloc(s, 1).1 / 4096);
      assert c1.slabs[|c1.slabs| - 1].free != [];
    }
  }

  /** The first slab with a free object gives its first one, and nothing else changes. */
  lemma AllocTakesFirst(c: Cache, s: State, panic: bool, autoGrow: bool, k: nat)
    requires c.size > 0 && k < |c.slabs| && c.slabs[k].free != [] && forall i :: 0 <= i < k ==> c.slabs[i].free == []
    ensures var a, rest := c.slabs[k].free[0], c.slabs[k].free[1..];
      CacheAlloc(c, s, panic, autoGrow) ==
        Result(Cache(c.size, c.slabs[k := Slab(c.slabs[k].page, rest)], c.dropped, c.live + {a}), s, a, Done)
  {
    assert FirstFree(c.slabs) == k;
  }

  /** An object is on the free list of one of the slabs. */
  predicate OnList(slabs: seq<Slab>, a: nat) {
    exists i :: 0 <= i < |slabs| && a in slabs[i].free
  }

  /** Without SLAB_AUTO_GROW an object comes out exactly when one is free on the list, one that nobody holds;
      otherwise the kernel panics, or NULL comes out, and nothing changes. */
  lemma AllocAnswers(c: Cache, s: State, panic: bool)
    requires Inv(c, s)
    ensures var r := CacheAlloc(c, s, panic, false);
      if FreeCount(c.slabs) > 0 then
        && r.outcome == Done && r.s == s && r.ptr !in c.live && r.c.live == c.live + {r.ptr}
        && FreeCount(r.c.slabs) + 1 == FreeCount(c.slabs)
        && OnList(c.slabs, r.ptr)
      else r == Result(c, s, 0, if panic then Panic else Null)
  {
    Emptied(c.slabs);
    var k := FirstFree(c.slabs);
    if k < |c.slabs| {
      AllocTakesFirst(c, s, panic, false, k);
      AllocKeeps(c, s, panic, false);
      OneLess(c.slabs, k);
      assert c.slabs[k].free[0] in c.slabs[k].free;
    }
  }

  lemma {:induction false} OneLess(slabs: seq<Slab>, k: nat)
    requires k < |slabs| && slabs[k].free != []
    ensures FreeCount(slabs[k := Slab(slabs[k].page, slabs[k].free[1..])]) + 1 == FreeCount(slabs)
  {
    var slabs' := slabs[k := Slab(slabs[k].page, slabs[k].free[1..])];
    if k == 0 {
      assert slabs'[1..] == slabs[1..];
    } else {
      assert slabs'[1..] == slabs[1..][k - 1 := Slab(slabs[k].page, slabs[k].free[1..])];
      OneLess(slabs[1..], k - 1);
    }
  }

  /** slab_cache_free puts an object at the head of the first slab with room, and changes nothing else. */
  lemma FreePutsFirst(c: Cache, ptr: nat, panic: bool, k: nat)
    requires c.size > 0 && k < |c.slabs| && |c.slabs[k].free| < CountMax(c.size)
    requires forall i :: 0 <= i < k ==> |c.slabs[i].free| >= CountMax(c.size)
    ensures CacheFree(c, ptr, panic) ==
      (Cache(c.size, c.slabs[k := Slab(c.slabs[k].page, [ptr] + c.slabs[k].free)], c.dropped, c.live - {ptr}), Done)
  {
    assert FirstRoom(c.slabs, CountMax(c.size)) == k;
  }

  /** ... and without room refuses, and changes nothing. */
  lemma FreeRefuses(c: Cache, ptr: nat, panic: bool)
    requires c.size > 0 && forall i :: 0 <= i < |c.slabs| ==> |c.slabs[i].free| >= CountMax(c.size)
    ensures CacheFree(c, ptr, panic) == (c, if panic then Panic else Null)
  {
    var k := FirstRoom(c.slabs, CountMax(c.size));
    assert k == |c.slabs|;
  }

  /** slab_cache_free of a live object puts it on the list again, unless as many objects are live as were lost. */
  lemma FreeAnswers(c: Cache, s: State, ptr: nat, panic: bool)
    requires Inv(c, s) && ptr in c.live
    ensures var (c', o) := CacheFree(c, ptr, panic);
      if |c.live| == Lost(c) then c' == c && o == (if panic then Panic else Null)
      else
        && o == Done && c'.live == c.live - {ptr} && OnList(c'.slabs, ptr)
        && FreeCount(c'.slabs) == FreeCount(c.slabs) + 1
  {
    FreeFailsExactly(c, s, ptr, panic);
    var k := FirstRoom(c.slabs, CountMax(c.size));
    if k < |c.slabs| {
      FreePutsFirst(c, ptr, panic, k);
      OneObjectMore(c.slabs, k, ptr);
    } else {
      FreeRefuses(c, ptr, panic);
    }
  }

  lemma {:induction false} OneObjectMore(slabs: seq<Slab>, k: nat, a: nat)
    requires k < |slabs|
    ensures var slabs' := slabs[k := Slab(slabs[k].page, [a] + slabs[k].free)];
      FreeCount(slabs') == FreeCount(slabs) + 1 && OnList(slabs', a)
  {
    var slabs' := slabs[k := Slab(slabs[k].page, [a] + slabs[k].free)];
    assert a in slabs'[k].free;
    if k == 0 {
      assert slabs'[1..] == slabs[1..];
    } else {
      assert slabs'[1..] == slabs[1..][k - 1 := Slab(slabs[k].page, [a] + slabs[k].free)];
      OneObjectMore(slabs[1..], k - 1, a);
    }
  }

  /** The recursion of slab_cache_alloc: after growing by one slab it starts over, and finds an object. */
  lemma AllocStartsOver(c: Cache, s: State, panic: bool)
    requires Inv(c, s) && FirstFree(c.slabs) == |c.slabs|
    ensures var (c1, s1, ok) := Grow(c, s, 1);
      if ok then c1.size == c.size && FirstFree(c1.slabs) < |c1.slabs|
                 && CacheAlloc(c, s, panic, true) == CacheAlloc(c1, s1, panic, true)
      else CacheAlloc(c, s, panic, true) == Result(c1, s1, 0, if panic then Panic else Endless)
  {
    GrowOne(c, s);
    var (c1, s1, ok) := Grow(c, s, 1);
    if ok {
      CellsExist(c.size);
      assert c1.slabs[|c1.slabs| - 1].free != [];
    }
  }

  // ----- runs of slab_cache_alloc, slab_cache_free and slab_cache_grow

  datatype Request = Get(panic: bool, autoGrow: bool) | PutBack(ptr: nat, panic: bool) | More(count: nat, panic: bool)

  ghost function Serve(c: Cache, s: State, q: Request): Result
    requires c.size > 0
  {
    match q
    case Get(panic, autoGrow) => CacheAlloc(c, s, panic, autoGrow)
    case PutBack(ptr, panic) =>
      var (c', o) := CacheFree(c, ptr, panic);
      Result(c', s, 0, o)
    case More(count, panic) =>
      var (c', s', ok) := Grow(c, s, count);
      Result(c', s', 0, if ok then Done else Refusal(panic))
  }

  /** Requests that only alloc and free. */
  predicate NoMore(qs: seq<Request>) {
    forall i :: 0 <= i < |qs| ==> !qs[i].More?
  }

  /** Callers give back only what they hold, and nothing runs after a panic or in an endless recursion. */
  ghost predicate Legal(c: Cache, s: State, qs: seq<Request>)
    requires c.size > 0
    decreases |qs|
  {
    qs == [] ||
    (&& (qs[0].PutBack? ==> qs[0].ptr in c.live)
     && var r := Serve(c, s, qs[0]);
        (r.outcome == Done || r.outcome == Null) && r.c.size > 0 && Legal(r.c, r.s, qs[1..]))
  }

  ghost function ServeAll(c: Cache, s: State, qs: seq<Request>): (Cache, State)
    requires c.size > 0 && Legal(c, s, qs)
    decreases |qs|
  {
    if qs == [] then (c, s) else var r := Serve(c, s, qs[0]); ServeAll(r.c, r.s, qs[1..])
  }

  /** The most objects that are live at a time. */
  ghost function Peak(c: Cache, s: State, qs: seq<Request>): nat
    requires c.size > 0 && Legal(c, s, qs)
    decreases |qs|
  {
    if qs == [] then |c.live|
    else
      var r := Serve(c, s, qs[0]);
      var later := Peak(r.c, r.s, qs[1..]);
      if |c.live| > later then |c.live| else later
  }

  lemma ServeKeeps(c: Cache, s: State, q: Request)
    requires Inv(c, s) && (q.PutBack? ==> q.ptr in c.live)
    ensures var r := Serve(c, s, q); Inv(r.c, r.s) && r.c.size == c.size
  {
    match q
    case Get(panic, autoGrow) => AllocKeeps(c, s, panic, autoGrow);
    case PutBack(ptr, panic) => FreeKeeps(c, s, ptr, panic);
    case More(count, panic) => GrowKeeps(c, s, 0, count);
  }

  /** The invariant holds after every run. */
  lemma {:induction false} RunKeeps(c: Cache, s: State, qs: seq<Request>)
    requires Inv(c, s) && Legal(c, s, qs)
    ensures var (c', s') := ServeAll(c, s, qs); Inv(c', s') && c'.size == c.size
    decreases |qs|
  {
    if qs != [] {
      ServeKeeps(c, s, qs[0]);
      var r := Serve(c, s, qs[0]);
      RunKeeps(r.c, r.s, qs[1..]);
    }
  }

  /** slab_cache_alloc drops a slab only while two slabs are full of live objects. */
  lemma AllocDrops(c: Cache, s: State, panic: bool, autoGrow: bool)
    requires Inv(c, s) && c.dropped == [] && |c.slabs| <= 2
    ensures var r := CacheAlloc(c, s, panic, autoGrow);
      && |r.c.slabs| <= 2
      && (r.c.dropped != [] ==> |c.slabs| == 2 && FreeCount(c.slabs) == 0 && r.outcome == Done)
  {
    Emptied(c.slabs);
    if FirstFree(c.slabs) == |c.slabs| && autoGrow { GrownDrops(c, s, panic); }
  }

  lemma GrownDrops(c: Cache, s: State, panic: bool)
    requires Inv(c, s) && c.dropped == [] && |c.slabs| <= 2 && FirstFree(c.slabs) == |c.slabs|
    ensures var r := CacheAlloc(c, s, panic, true);
      |r.c.slabs| <= 2 && (r.c.dropped != [] ==> |c.slabs| == 2 && r.outcome == Done)
  {
    GrowOne(c, s);
    AllocDelivers(c, s, panic);
    var (c1, s1, ok) := Grow(c, s, 1);
    assert |c1.slabs| <= 2 && (c1.dropped != [] ==> |c.slabs| == 2);
  }

  /** One request drops a slab exactly when it leaves more objects live than two slabs hold. */
  lemma ServeDrops(c: Cache, s: State, q: Request)
    requires Inv(c, s) && (q.PutBack? ==> q.ptr in c.live) && !q.More? && c.dropped == [] && |c.slabs| <= 2
    ensures var r := Serve(c, s, q);
      && |r.c.slabs| <= 2
      && (r.c.dropped == [] <==> |r.c.live| <= 2 * CountMax(c.size))
  {
    ServeKeeps(c, s, q);
    var r := Serve(c, s, q);
    match q
    case PutBack(ptr, panic) =>
      FreeKeeps(c, s, ptr, panic);
      WithinTwo(r.c, r.s);
    case Get(panic, autoGrow) =>
      AllocDrops(c, s, panic, autoGrow);
      AllocKeeps(c, s, panic, autoGrow);
      if r.c.dropped == [] { WithinTwo(r.c, r.s); } else { DroppedAtTwo(c, s, r); }
  }

  lemma WithinTwo(c: Cache, s: State)
    requires Inv(c, s) && c.dropped == [] && |c.slabs| <= 2
    ensures |c.live| <= 2 * CountMax(c.size)
  {
    Conservation(c, s);
    OffsetsGrow(CountMax(c.size), |c.slabs|, 2);
    assert Offset(CountMax(c.size), 2) == Offset(CountMax(c.size), 1) + CountMax(c.size);
    assert Offset(CountMax(c.size), 1) == Offset(CountMax(c.size), 0) + CountMax(c.size);
  }

  lemma DroppedAtTwo(c: Cache, s: State, r: Result)
    requires Inv(c, s) && c.dropped == [] && |c.slabs| <= 2 && FreeCount(c.slabs) == 0
    requires |c.slabs| == 2 && r.outcome == Done && r.ptr !in c.live && r.c.live == c.live + {r.ptr}
    ensures |r.c.live| > 2 * CountMax(c.size)
  {
    Conservation(c, s);
    assert Offset(CountMax(c.size), 2) == Offset(CountMax(c.size), 1) + CountMax(c.size);
    assert Offset(CountMax(c.size), 1) == Offset(CountMax(c.size), 0) + CountMax(c.size);
  }

  lemma {:induction false} StaysDropped(c: Cache, s: State, qs: seq<Request>)
    requires Inv(c, s) && Legal(c, s, qs) && NoMore(qs) && c.dropped != []
    ensures ServeAll(c, s, qs).0.dropped != []
    decreases |qs|
  {
    if qs != [] {
      ServeKeeps(c, s, qs[0]);
      var r := Serve(c, s, qs[0]);
      StaysDroppedOnce(c, s, qs[0]);
      StaysDropped(r.c, r.s, qs[1..]);
    }
  }

  lemma StaysDroppedOnce(c: Cache, s: State, q: Request)
    requires Inv(c, s) && (q.PutBack? ==> q.ptr in c.live) && !q.More? && c.dropped != []
    ensures Serve(c, s, q).c.dropped != []
  {
    if q.Get? { GrowOne(c, s); }
  }

  /** The first count of a peak. */
  lemma PeakNow(c: Cache, s: State, qs: seq<Request>)
    requires c.size > 0 && Legal(c, s, qs)
    ensures Peak(c, s, qs) >= |c.live|
  {
  }

  /** A run loses no slab exactly when never more objects are live at a time than two slabs hold. */
  lemma {:induction false} RunStaysWhole(c: Cache, s: State, qs: seq<Request>)
    requires Inv(c, s) && Legal(c, s, qs) && NoMore(qs) && c.dropped == [] && |c.slabs| <= 2
    ensures ServeAll(c, s, qs).0.dropped == [] <==> Peak(c, s, qs) <= 2 * CountMax(c.size)
    decreases |qs|
  {
    WithinTwo(c, s);
    if qs != [] {
      ServeKeeps(c, s, qs[0]);
      ServeDrops(c, s, qs[0]);
      var r := Serve(c, s, qs[0]);
      if r.c.dropped == [] {
        RunStaysWhole(r.c, r.s, qs[1..]);
      } else {
        StaysDropped(r.c, r.s, qs[1..]);
        PeakNow(r.c, r.s, qs[1..]);
      }
    }
  }

  // ----- slab_cache_create

  /** slab_cache_create: a page for the cache itself, then one slab.  None when the first page is missing. */
  ghost function Create(size: nat, s: State): (Option<Cache>, State)
    requires size > 0
  {
    var (s1, a) := Alloc(s, 1);
    if a == 0 then (None, s1)
    else
      var (c, s2, ok) := Grow(Cache(size, [], [], {}), s1, 1);
      (Some(c), s2)
  }

  lemma CreateKeeps(size: nat, s: State)
    requires SizeOk(size) && Sound(s)
    ensures var (c, s') := Create(size, s);
      if Free(s) == {} then c == None
      else
        && c.Some? && Inv(c.value, s') && c.value.size == size && c.value.live == {} && c.value.dropped == []
        && |c.value.slabs| == (if |Free(s)| > 1 then 1 else 0)
  {
    SoundMeans(s);
    NoPage(s);
    AllocOnePage(s);
    var (s1, a) := Alloc(s, 1);
    SoundMeans(s1);
    if a != 0 {
      var c := Cache(size, [], [], {});
      assert Inv(c, s1);
      GrowKeeps(c, s1, 0, 1);
      GrowOne(c, s1);
      EmptyOrNot(Free(s1));
    }
  }

  /** It takes two pages, and comes with a slab exactly when there are two. */
  lemma CreateTakesTwo(size: nat, s: State)
    requires SizeOk(size) && Sound(s)
    ensures var (c, s') := Create(size, s);
      && (c.Some? && c.value.slabs != [] <==> |Free(s)| >= 2)
      && (|Free(s)| >= 2 ==> |Free(s')| + 2 == |Free(s)|)
  {
    CreateKeeps(size, s);
    SoundMeans(s);
    AllocOnePage(s);
    EmptyOrNot(Free(s));
    var s1 := Alloc(s, 1).0;
    if |Free(s)| >= 2 {
      var c := Cache(size, [], [], {});
      SoundMeans(s1);
      assert Inv(c, s1);
      EmptyOrNot(Free(s1));
      GrowOne(c, s1);
      AllocOnePage(s1);
    }
  }

  lemma EmptyOrNot(x: set<nat>)
    ensures x == {} <==> |x| == 0
  {
  }
}
