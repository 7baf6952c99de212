/** The slab allocator (fckrnl/mm/slab.c) as a state machine: the slabs of a cache with their free lists,
    the objects handed out, and the frame allocator below. */
module Slabs {
  import opened Frames
  import opened SlabCells

  /** A slab: its page, and the objects on its free list, first to last. */
  datatype Slab = Slab(page: nat, free: seq<nat>)

  /** A cache.  The list starts at slabs_head; dropped are the slabs that slab_create_slab has unlinked, of
      which the code keeps nothing; live are the objects the callers hold. */
  datatype Cache = Cache(size: nat, slabs: seq<Slab>, dropped: seq<Slab>, live: set<nat>)

  function Fresh(page: nat, size: nat): Slab
    requires size > 0
  {
    Slab(page, Cells(page, size))
  }

  // ----- the scans

  /** The first slab whose free list is not empty. */
  function FirstFree(slabs: seq<Slab>): (k: nat)
    ensures k <= |slabs|
    ensures k < |slabs| ==> slabs[k].free != []
    ensures forall i :: 0 <= i < k ==> slabs[i].free == []
  {
    if slabs == [] || slabs[0].free != [] then 0 else 1 + FirstFree(slabs[1..])
  }

  /** The first slab whose count is below the maximum. */
  function FirstRoom(slabs: seq<Slab>, max: nat): (k: nat)
    ensures k <= |slabs|
    ensures k < |slabs| ==> |slabs[k].free| < max
    ensures forall i :: 0 <= i < k ==> |slabs[i].free| >= max
  {
    if slabs == [] || |slabs[0].free| < max then 0 else 1 + FirstRoom(slabs[1..], max)
  }

  // ----- the operations

  /** slab_create_slab behind slab k of the list: whatever followed slab k is dropped. */
  function Linked(c: Cache, k: nat, page: nat): Cache
    requires c.size > 0 && (c.slabs == [] || k < |c.slabs|)
  {
    if c.slabs == [] then c.(slabs := [Fresh(page, c.size)])
    else c.(slabs := c.slabs[..k + 1] + [Fresh(page, c.size)], dropped := c.dropped + c.slabs[k + 1..])
  }

  /** slab_cache_grow for n slabs, with the cursor at slab k: whether every page was there, and the state. */
  ghost function GrowFrom(c: Cache, s: State, k: nat, n: nat): (r: (Cache, State, bool))
    requires c.size > 0 && (c.slabs == [] || k < |c.slabs|)
    decreases n
  {
    if n == 0 then (c, s, true)
    else
      var (s1, a) := Alloc(s, 1);
      if a == 0 then (c, s1, false)
      else GrowFrom(Linked(c, k, a / 4096), s1, if c.slabs == [] then 0 else k + 1, n - 1)
  }

  ghost function Grow(c: Cache, s: State, n: nat): (Cache, State, bool)
    requires c.size > 0
  {
    GrowFrom(c, s, 0, n)
  }

  /** What an operation comes to.  A panic halts the kernel; Endless is the recursion of slab_cache_alloc
      that grows forever, with SLAB_AUTO_GROW, without SLAB_PANIC, and without a free page. */
  datatype Outcome = Done | Null | Panic | Endless

  function Popped(c: Cache, k: nat): Cache
    requires k < |c.slabs| && c.slabs[k].free != []
  {
    var s := c.slabs[k];
    c.(slabs := c.slabs[k := s.(free := s.free[1..])], live := c.live + {s.free[0]})
  }

  /** The end of slab_cache_alloc, when no slab has a free object. */
  function Refusal(panic: bool): Outcome {
    if panic then Panic else Null
  }

  datatype Result = Result(c: Cache, s: State, ptr: nat, outcome: Outcome)

  /** slab_cache_alloc. */
  ghost function CacheAlloc(c: Cache, s: State, panic: bool, autoGrow: bool): Result
    requires c.size > 0
  {
    var k := FirstFree(c.slabs);
    if k < |c.slabs| then Result(Popped(c, k), s, c.slabs[k].free[0], Done)
    else if !autoGrow then Result(c, s, 0, Refusal(panic))
    else
      var (c1, s1, ok) := Grow(c, s, 1);
      if !ok then Result(c1, s1, 0, if panic then Panic else Endless)
      else
        var j := FirstFree(c1.slabs);
        if j < |c1.slabs| then Result(Popped(c1, j), s1, c1.slabs[j].free[0], Done)
        else Result(c1, s1, 0, Endless)
  }

  function Pushed(c: Cache, k: nat, ptr: nat): Cache
    requires k < |c.slabs|
  {
    var s := c.slabs[k];
    c.(slabs := c.slabs[k := s.(free := [ptr] + s.free)], live := c.live - {ptr})
  }

  /** slab_cache_free of an object: the first slab with room takes it, whichever slab it came from. */
  function CacheFree(c: Cache, ptr: nat, panic: bool): (Cache, Outcome)
    requires c.size > 0
  {
    var k := FirstRoom(c.slabs, CountMax(c.size));
    if k < |c.slabs| then (Pushed(c, k, ptr), Done) else (c, Refusal(panic))
  }

  // ----- the objects, counted with their multiplicity

  function Bag(slabs: seq<Slab>): multiset<nat> {
    if slabs == [] then multiset{} else multiset(slabs[0].free) + Bag(slabs[1..])
  }

  function CellBag(slabs: seq<Slab>, size: nat): multiset<nat>
    requires size > 0
  {
    if slabs == [] then multiset{} else multiset(Cells(slabs[0].page, size)) + CellBag(slabs[1..], size)
  }

  lemma {:induction false} BagSum(s: seq<Slab>, t: seq<Slab>, size: nat)
    requires size > 0
    ensures Bag(s + t) == Bag(s) + Bag(t)
    ensures CellBag(s + t, size) == CellBag(s, size) + CellBag(t, size)
  {
    if s == [] {
      assert s + t == t;
    } else {
      assert (s + t)[1..] == s[1..] + t;
      BagSum(s[1..], t, size);
    }
  }

  lemma {:induction false} BagChange(slabs: seq<Slab>, k: nat, free: seq<nat>)
    requires k < |slabs|
    ensures Bag(slabs[k := slabs[k].(free := free)]) + multiset(slabs[k].free) == Bag(slabs) + multiset(free)
  {
    var slabs' := slabs[k := slabs[k].(free := free)];
    if k == 0 {
      assert slabs'[1..] == slabs[1..];
      Regroup(multiset(free), Bag(slabs[1..]), multiset(slabs[0].free));
    } else {
      assert slabs'[1..] == slabs[1..][k - 1 := slabs[k].(free := free)];
      BagChange(slabs[1..], k - 1, free);
      SameAround(multiset(slabs[0].free), Bag(slabs'[1..]), multiset(slabs[k].free), Bag(slabs[1..]), multiset(free));
    }
  }

  lemma Regroup(a: multiset<nat>, b: multiset<nat>, c: multiset<nat>)
    ensures a + b + c == c + b + a
  {
  }

  lemma SameAround(a: multiset<nat>, b: multiset<nat>, c: multiset<nat>, d: multiset<nat>, e: multiset<nat>)
    requires b + c == d + e
    ensures a + b + c == a + d + e
  {
    assert a + b + c == a + (b + c);
    assert a + d + e == a + (d + e);
  }

  lemma {:induction false} CellBagChange(slabs: seq<Slab>, k: nat, free: seq<nat>, size: nat)
    requires size > 0 && k < |slabs|
    ensures CellBag(slabs[k := slabs[k].(free := free)], size) == CellBag(slabs, size)
  {
    var slabs' := slabs[k := slabs[k].(free := free)];
    if k == 0 {
      assert slabs'[1..] == slabs[1..];
    } else {
      assert slabs'[1..] == slabs[1..][k - 1 := slabs[k].(free := free)];
      CellBagChange(slabs[1..], k - 1, free, size);
    }
  }

  // ----- the invariant

  predicate PagesDistinct(slabs: seq<Slab>) {
    forall i, j :: 0 <= i < j < |slabs| ==> slabs[i].page != slabs[j].page
  }

  ghost predicate PagesUsed(slabs: seq<Slab>, s: State) {
    forall i :: 0 <= i < |slabs| ==> 0 < slabs[i].page < s.top && slabs[i].page in s.used
  }

  predicate CountsOk(slabs: seq<Slab>, max: nat) {
    forall i :: 0 <= i < |slabs| ==> |slabs[i].free| <= max
  }

  function All(c: Cache): seq<Slab> {
    c.slabs + c.dropped
  }

  /** The frame allocator is sound; a lemma below opens the definition where it is needed. */
  ghost predicate SoundFrames(s: State) {
    forall k: nat {:trigger SoundAt(s, k)} :: SoundAt(s, k)
  }

  ghost predicate SoundAt(s: State, k: nat) {
    Sound(s)
  }

  lemma SoundMeans(s: State)
    ensures SoundFrames(s) <==> Sound(s)
  {
    if SoundFrames(s) { assert SoundAt(s, 0); }
  }

  lemma TopPositive(s: State)
    requires SoundFrames(s)
    ensures s.top > 0
  {
    SoundMeans(s);
  }

  /** Every object of every page the cache has taken is on exactly one free list or held by exactly one
      caller, and there is nothing else on the lists or in the callers' hands. */
  ghost predicate Inv(c: Cache, s: State) {
    && SizeOk(c.size) && SoundFrames(s)
    && PagesDistinct(All(c)) && PagesUsed(All(c), s)
    && CountsOk(All(c), CountMax(c.size))
    && Bag(All(c)) + multiset(c.live) == CellBag(All(c), c.size)
  }
}
