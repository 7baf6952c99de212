/** Giving objects back to a slab cache (slab_cache_free, fckrnl/mm/slab.c) until it panics, and filling one. */
module SlabReturns {
  import opened Frames
  import opened SlabCells
  import opened Slabs
  import opened SlabSteps
  import opened SlabRuns

  /** Frees with SLAB_PANIC, one after the other. */
  function Giving(objs: seq<nat>): (qs: seq<Request>)
    ensures |qs| == |objs|
  {
    seq(|objs|, i requires 0 <= i < |objs| => PutBack(objs[i], true))
  }

  predicate Distinct(objs: seq<nat>) {
    forall i, j :: 0 <= i < j < |objs| ==> objs[i] != objs[j]
  }

  /** Objects in the callers' hands, each once. */
  predicate Held(objs: seq<nat>, live: set<nat>) {
    Distinct(objs) && forall i :: 0 <= i < |objs| ==> objs[i] in live
  }

  lemma HeldRest(objs: seq<nat>, live: set<nat>)
    requires objs != [] && Held(objs, live)
    ensures Held(objs[1..], live - {objs[0]})
  {
    assert forall i :: 0 <= i < |objs[1..]| ==> objs[1..][i] == objs[i + 1];
  }

  lemma GivingRest(objs: seq<nat>)
    requires objs != []
    ensures Giving(objs)[0] == PutBack(objs[0], true) && Giving(objs)[1..] == Giving(objs[1..])
  {
  }

  /** With no slab dropped everything can be given back. */
  lemma {:induction false} GivingSucceeds(c: Cache, s: State, objs: seq<nat>)
    requires Inv(c, s) && c.dropped == [] && Held(objs, c.live)
    ensures Legal(c, s, Giving(objs))
    decreases |objs|
  {
    if objs != [] {
      var ptr := objs[0];
      FreeNeverFails(c, s, ptr, true);
      FreeKeeps(c, s, ptr, true);
      HeldRest(objs, c.live);
      GivingRest(objs);
      GivingSucceeds(CacheFree(c, ptr, true).0, s, objs[1..]);
    }
  }

  /** More than the cache has room for cannot. */
  lemma {:induction false} GivingFails(c: Cache, s: State, objs: seq<nat>)
    requires Inv(c, s) && Held(objs, c.live) && |objs| > |c.live| - Lost(c) >= 0
    ensures !Legal(c, s, Giving(objs))
    decreases |objs|
  {
    var ptr := objs[0];
    FreeFailsExactly(c, s, ptr, true);
    FreeKeeps(c, s, ptr, true);
    GivingRest(objs);
    var c1 := CacheFree(c, ptr, true).0;
    if |c.live| != Lost(c) {
      HeldRest(objs, c.live);
      GivingFails(c1, s, objs[1..]);
    }
  }

  lemma RoomForLive(c: Cache, s: State)
    requires Inv(c, s)
    ensures |c.live| >= Lost(c)
  {
    Conservation(c, s);
    ListedCounts(c, s);
    Filled(c.slabs, CountMax(c.size));
  }

  lemma {:induction false} Enumerated(live: set<nat>) returns (objs: seq<nat>)
    ensures Held(objs, live) && |objs| == |live|
    decreases |live|
  {
    if live == {} {
      objs := [];
    } else {
      var a :| a in live;
      var rest := Enumerated(live - {a});
      objs := [a] + rest;
    }
  }

  // ----- the slabs a run drops are full of live objects

  predicate AllTaken(slabs: seq<Slab>) {
    forall i :: 0 <= i < |slabs| ==> slabs[i].free == []
  }

  lemma ServeDropsTaken(c: Cache, s: State, q: Request)
    requires Inv(c, s) && (q.PutBack? ==> q.ptr in c.live) && !q.More? && AllTaken(c.dropped)
    ensures AllTaken(Serve(c, s, q).c.dropped)
  {
    match q
    case PutBack(_, _) =>
    case Get(_, autoGrow) => if FirstFree(c.slabs) == |c.slabs| && autoGrow { GrowDropsTaken(c, s); }
  }

  lemma GrowDropsTaken(c: Cache, s: State)
    requires Inv(c, s) && AllTaken(c.dropped) && FirstFree(c.slabs) == |c.slabs|
    ensures AllTaken(Grow(c, s, 1).0.dropped)
  {
    GrowOne(c, s);
    assert AllTaken(c.slabs);
  }

  lemma {:induction false} RunDropsTaken(c: Cache, s: State, qs: seq<Request>)
    requires Inv(c, s) && Legal(c, s, qs) && NoMore(qs) && AllTaken(c.dropped)
    ensures AllTaken(ServeAll(c, s, qs).0.dropped)
    decreases |qs|
  {
    if qs != [] {
      ServeKeeps(c, s, qs[0]);
      ServeDropsTaken(c, s, qs[0]);
      var r := Serve(c, s, qs[0]);
      RunDropsTaken(r.c, r.s, qs[1..]);
    }
  }

  lemma {:induction false} TakenCount(slabs: seq<Slab>)
    requires AllTaken(slabs)
    ensures FreeCount(slabs) == 0
  {
    if slabs != [] {
      assert AllTaken(slabs[1..]) by {
        forall i | 0 <= i < |slabs[1..]| ensures slabs[1..][i].free == [] { assert slabs[1..][i] == slabs[i + 1]; }
      }
      TakenCount(slabs[1..]);
    }
  }

  lemma DroppedIsLost(c: Cache)
    requires SizeOk(c.size) && AllTaken(c.dropped) && c.dropped != []
    ensures Lost(c) > 0
  {
    TakenCount(c.dropped);
    CellsExist(c.size);
    OffsetsGrow(CountMax(c.size), 1, |c.dropped|);
    assert Offset(CountMax(c.size), 1) == Offset(CountMax(c.size), 0) + CountMax(c.size);
  }

  /** Whatever a caller holds can be given back, in any order and without a panic. */
  ghost predicate Returnable(c: Cache, s: State)
    requires c.size > 0
  {
    forall objs :: Held(objs, c.live) ==> Legal(c, s, Giving(objs))
  }

  /** After a run of allocs and frees from the creation of a cache on, everything can be given back exactly
      when never more objects were live at a time than two slabs hold.  Otherwise giving them back one by one
      ends in the panic of slab_cache_free. */
  lemma ReturnsExactly(size: nat, s: State, c: Cache, s': State, qs: seq<Request>, c1: Cache, s1: State)
    requires SizeOk(size) && Sound(s) && Create(size, s) == (Some(c), s') && c.size == size && c1.size == size
    requires Legal(c, s', qs) && NoMore(qs) && ServeAll(c, s', qs) == (c1, s1)
    ensures Returnable(c1, s1) <==> Peak(c, s', qs) <= 2 * CountMax(size)
  {
    CreateKeeps(size, s);
    RunKeeps(c, s', qs);
    RunStaysWhole(c, s', qs);
    RunDropsTaken(c, s', qs);
    if c1.dropped == [] {
      forall objs | Held(objs, c1.live) ensures Legal(c1, s1, Giving(objs)) { GivingSucceeds(c1, s1, objs); }
    } else {
      DroppedIsLost(c1);
      RoomForLive(c1, s1);
      var objs := Enumerated(c1.live);
      GivingFails(c1, s1, objs);
    }
  }

  // ----- runs that reach those states

  function Gets(n: nat): (qs: seq<Request>)
    ensures |qs| == n
  {
    seq(n, _ => Get(true, true))
  }

  lemma GetsRest(n: nat)
    requires n > 0
    ensures Gets(n)[0] == Get(true, true) && Gets(n)[1..] == Gets(n - 1)
  {
  }

  /** Nothing dropped, one or two slabs, and frames for the second and for `more` after it. */
  ghost predicate WithFrames(c: Cache, s: State, more: nat) {
    && Inv(c, s) && c.dropped == [] && 1 <= |c.slabs| <= 2 && |Free(s)| + |c.slabs| >= 2 + more
  }

  lemma GetOne(c: Cache, s: State, more: nat)
    requires WithFrames(c, s, more) && |c.live| < 2 * CountMax(c.size)
    ensures var r := CacheAlloc(c, s, true, true);
      r.outcome == Done && WithFrames(r.c, r.s, more) && r.c.size == c.size && |r.c.live| == |c.live| + 1
  {
    AllocKeeps(c, s, true, true);
    RoomSomewhere(c, s);
    if FirstFree(c.slabs) == |c.slabs| { GetGrows(c, s); }
  }

  lemma RoomSomewhere(c: Cache, s: State)
    requires Inv(c, s) && c.dropped == [] && 1 <= |c.slabs| <= 2 && |c.live| < 2 * CountMax(c.size)
    ensures FirstFree(c.slabs) < |c.slabs| || |c.slabs| == 1
  {
    Conservation(c, s);
    TwoOffsets(CountMax(c.size));
    Emptied(c.slabs);
  }

  lemma GetGrows(c: Cache, s: State)
    requires Inv(c, s) && c.dropped == [] && |c.slabs| == 1 && Free(s) != {} && FirstFree(c.slabs) == 1
    ensures var r := CacheAlloc(c, s, true, true);
      r.outcome == Done && r.c.dropped == [] && |r.c.slabs| == 2 && |Free(r.s)| == |Free(s)| - 1
  {
    AllocDelivers(c, s, true);
    SoundMeans(s);
    AllocOnePage(s);
    GrowOne(c, s);
  }

  lemma TwoOffsets(max: nat)
    ensures Offset(max, 0) == 0 && Offset(max, 1) == max && Offset(max, 2) == 2 * max
  {
    assert Offset(max, 1) == Offset(max, 0) + max;
    assert Offset(max, 2) == Offset(max, 1) + max;
  }

  lemma {:induction false} GetsFill(c: Cache, s: State, n: nat, more: nat)
    requires WithFrames(c, s, more) && |c.live| + n <= 2 * CountMax(c.size)
    ensures Legal(c, s, Gets(n)) && NoMore(Gets(n))
    ensures var (c', s') := ServeAll(c, s, Gets(n));
      WithFrames(c', s', more) && c'.size == c.size && |c'.live| == |c.live| + n
    decreases n
  {
    if n > 0 {
      GetOne(c, s, more);
      GetsRest(n);
      var r := CacheAlloc(c, s, true, true);
      GetsFill(r.c, r.s, n - 1, more);
    }
  }

  /** With three free frames (for the cache and two slabs) a run of allocs fills two slabs. */
  lemma TwoFullSlabs(size: nat, s: State) returns (c: Cache, s': State, c1: Cache, s1: State)
    requires SizeOk(size) && Sound(s) && |Free(s)| >= 3
    ensures Create(size, s) == (Some(c), s') && c.size == size && c1.size == size
    ensures var qs := Gets(2 * CountMax(size)); Legal(c, s', qs) && NoMore(qs) && ServeAll(c, s', qs) == (c1, s1)
    ensures Inv(c1, s1) && |c1.slabs| == 2 && c1.dropped == [] && FreeCount(c1.slabs) == 0
    ensures |Free(s1)| + 3 >= |Free(s)|
  {
    CreateKeeps(size, s);
    CreateTakes(size, s);
    c, s' := Create(size, s).0.value, Create(size, s).1;
    var more := |Free(s)| - 3;
    GetsFill(c, s', 2 * CountMax(size), more);
    c1, s1 := ServeAll(c, s', Gets(2 * CountMax(size))).0, ServeAll(c, s', Gets(2 * CountMax(size))).1;
    Conservation(c1, s1);
    TwoOffsets(CountMax(size));
    CellsExist(size);
  }

  lemma CreateTakes(size: nat, s: State)
    requires SizeOk(size) && Sound(s) && |Free(s)| >= 2
    ensures |Free(Create(size, s).1)| == |Free(s)| - 2
  {
    AllocOnePage(s);
    var (s1, a) := Alloc(s, 1);
    AllocOnePage(s1);
    SoundMeans(s1);
    var c := Cache(size, [], [], {});
    GrowOne(c, s1);
  }

  /** With one frame more the panic is within reach: a run after which the callers hold an object that cannot
      be given back. */
  lemma PanicReachable(size: nat, s: State) returns (c: Cache, s': State, qs: seq<Request>, c1: Cache, s1: State)
    requires SizeOk(size) && Sound(s) && |Free(s)| >= 4
    ensures Create(size, s) == (Some(c), s') && c.size == size && c1.size == size
    ensures Legal(c, s', qs) && NoMore(qs) && ServeAll(c, s', qs) == (c1, s1)
    ensures !Returnable(c1, s1)
  {
    var c2, s2;
    c, s', c2, s2 := TwoFullSlabs(size, s);
    var first, last := Gets(2 * CountMax(size)), [Get(true, true)];
    c1, s1 := OneTooMany(c2, s2);
    RunsFollow(c, s', first, last);
    qs := first + last;
    assert NoMore(qs);
    CreateKeeps(size, s);
    RunStaysWhole(c, s', qs);
    ReturnsExactly(size, s, c, s', qs, c1, s1);
  }

  /** An alloc with two full slabs drops one. */
  lemma OneTooMany(c: Cache, s: State) returns (c': Cache, s': State)
    requires Inv(c, s) && |c.slabs| == 2 && c.dropped == [] && FreeCount(c.slabs) == 0 && Free(s) != {}
    ensures var last := [Get(true, true)];
      Legal(c, s, last) && ServeAll(c, s, last) == (c', s') && c'.dropped != [] && c'.size == c.size
  {
    var r := CacheAlloc(c, s, true, true);
    AllocDelivers(c, s, true);
    AllocKeeps(c, s, true, true);
    Conservation(c, s);
    TwoOffsets(CountMax(c.size));
    ServeDrops(c, s, Get(true, true));
    OneRequest(c, s, r);
    c', s' := r.c, r.s;
  }

  lemma OneRequest(c: Cache, s: State, r: Result)
    requires c.size > 0 && r == CacheAlloc(c, s, true, true) && r.outcome == Done && r.c.size > 0
    ensures var last := [Get(true, true)]; Legal(c, s, last) && ServeAll(c, s, last) == (r.c, r.s)
  {
    assert [Get(true, true)][1..] == [];
  }

  /** One run after another. */
  lemma {:induction false} RunsFollow(c: Cache, s: State, qs: seq<Request>, later: seq<Request>)
    requires c.size > 0 && Legal(c, s, qs)
    requires var (c1, s1) := ServeAll(c, s, qs); c1.size > 0 && Legal(c1, s1, later)
    ensures Legal(c, s, qs + later)
    ensures var (c1, s1) := ServeAll(c, s, qs); ServeAll(c, s, qs + later) == ServeAll(c1, s1, later)
    decreases |qs|
  {
    if qs == [] {
      assert qs + later == later;
    } else {
      assert (qs + later)[1..] == qs[1..] + later;
      var r := Serve(c, s, qs[0]);
      RunsFollow(r.c, r.s, qs[1..], later);
    }
  }
}
