/** malloc and free (fckrnl/libk/malloc.c) over the slab caches and the frame allocator, with the header of
    every block in memory. */
module KernelHeaps {
  import opened Bits
  import opened Frames
  import opened Memory
  import opened BitmapStorage
  import opened SlabCells
  import opened Slabs
  import opened SlabRuns
  import opened SlabReap
  import opened SlabLinks
  import opened SlabFrames
  import opened SlabCaches
  import opened Malloc
  import opened HeapMemory

  /** ptr + sizeof(malloc_metadata_t) + HEAP_START_ADDR, in 64 bits. */
  function ToHeap(a: Word): Word {
    (a + 2 + 0xFFFF_9000_0000_0000) % 0x1_0000_0000_0000_0000
  }

  function FromHeap(ptr: Word): Word {
    (ptr - 0xFFFF_9000_0000_0000 - 2) % 0x1_0000_0000_0000_0000
  }

  /** free finds the block that malloc has handed out, and a pointer from malloc is never NULL. */
  lemma HeapPointerBack(a: Word)
    ensures FromHeap(ToHeap(a)) == a
    ensures a % 16 == 0 ==> ToHeap(a) != 0
  {
  }

  /** The first n caches of malloc_heap_init: empty of live objects, and on pages of their own. */
  ghost predicate Created(allocator: Pmm, created: seq<SlabCache>, n: nat)
    reads allocator, allocator.bitmap, allocator.bitmap.bytes, allocator.ram, created
  {
    && n <= 6 && |created| == n
    && (forall i {:trigger CreatedOne(allocator, created[i], i)} :: 0 <= i < n ==> CreatedOne(allocator, created[i], i))
    && (forall i, j :: 0 <= i < j < n ==> created[i] != created[j] && created[i].Footprint() !! created[j].Footprint())
  }

  ghost predicate CreatedOne(allocator: Pmm, c: SlabCache, i: nat)
    reads allocator, allocator.bitmap, allocator.bitmap.bytes, allocator.ram, c
  {
    && c.pmm == allocator && i < 6 && c.slabSize == CacheSize(i + 2) && c.Valid() && c.cache.live == {}
  }

  /** What malloc_heap_init does to the rest of the kernel: every page that was in use stays in use, and is as
      before, but for page 0. */
  ghost predicate Beside(m: Mem, m': Mem) {
    && StillUsed(m.frames, m'.frames, m.frames.used)
    && Spared(m.ram, m'.ram, m'.frames.used - m.frames.used + {0}, {}, 0)
  }

  lemma BesideStart(m: Mem)
    requires MemoryOk(m)
    ensures Beside(m, m)
  {
    SoundMeans(m.frames);
    SparedSame(m.ram, m.frames.used - m.frames.used + {0}, {}, 0);
  }

  lemma BesideTwice(m: Mem, m1: Mem, m2: Mem)
    requires Beside(m, m1) && Beside(m1, m2)
    ensures Beside(m, m2)
  {
    SparedTwice(m.ram, m1.ram, m2.ram, m2.frames.used - m.frames.used + {0}, m1.frames.used - m.frames.used + {0},
                m2.frames.used - m1.frames.used + {0}, {}, {}, {}, 0);
  }

  lemma CreatedMore(allocator: Pmm, created: seq<SlabCache>, one: SlabCache, i: nat, used: set<nat>)
    requires i < 6 && |created| == i && one !in created
    requires forall k {:trigger CreatedOne(allocator, created[k], k)} :: 0 <= k < i ==> CreatedOne(allocator, created[k], k)
    requires forall j, k :: 0 <= j < k < i ==> created[j] != created[k] && created[j].Footprint() !! created[k].Footprint()
    requires forall k :: 0 <= k < i ==> created[k].Footprint() <= used
    requires CreatedOne(allocator, one, i) && one.Footprint() !! used
    ensures Created(allocator, created + [one], i + 1)
  {
    var more := created + [one];
    forall k | 0 <= k < i + 1 ensures CreatedOne(allocator, more[k], k) {
      if k < i { assert CreatedOne(allocator, created[k], k); }
    }
  }

  lemma OneMore(before: seq<SlabCache>, created: seq<SlabCache>, used: set<nat>, used0: set<nat>, i: nat)
    requires |before| == i && |created| == i + 1 && created[..i] == before && used0 <= used
    requires forall k :: 0 <= k < i ==> before[k].Footprint() !! used0
    requires created[i].Footprint() !! used
    ensures forall k :: 0 <= k < i ==> created[k] == before[k]
    ensures forall k :: 0 <= k < i + 1 ==> created[k].Footprint() !! used0
  {
    assert forall k :: 0 <= k < i ==> created[k] == before[k];
  }

  /** The pages of a new heap are those of its caches. */
  lemma OffUsed(h: Heap, created: seq<SlabCache>, used: set<nat>)
    requires |h.caches| == |created| && h.runs == map[]
    requires forall i :: 0 <= i < |created| ==> h.caches[i] == created[i].cache && created[i].Footprint() !! used
    ensures HeapPages(h) !! used
  {
    forall x | x in HeapPages(h) ensures x !in used {
      var i :| 0 <= i < |h.caches| && x in PageSet(All(h.caches[i]));
      assert x in created[i].Footprint();
    }
  }

  class KernelHeap {
    const pmm: Pmm
    /** slab_caches[2] to slab_caches[7]. */
    const caches: seq<SlabCache>
    ghost var view: Heap
    ghost var owner: map<nat, Owner>

    ghost predicate CacheHere(i: nat)
      reads this`view, if i < |caches| then {caches[i]} else {}
    {
      && i < |caches| && i < |view.caches| && i < 6
      && caches[i].pmm == pmm && caches[i].slabSize == CacheSize(i + 2)
      && caches[i].bufctlCountMax == CountMax(caches[i].slabSize)
      && view.caches[i] == caches[i].cache && caches[i].slabsHead == HeadOf(caches[i].cache.slabs)
    }

    /** The view is that of the caches and of the frame allocator. */
    ghost predicate Wired()
      reads this, pmm, pmm.bitmap, caches
    {
      && |caches| == 6 && Sized(view) && view.s == pmm.Frames()
      && (forall i {:trigger CacheHere(i)} :: 0 <= i < 6 ==> CacheHere(i))
      && (forall i, j :: 0 <= i < j < 6 ==> caches[i] != caches[j])
    }

    /** ... and memory holds the heap, off the pages of the bitmap. */
    ghost predicate Valid()
      reads this, pmm, pmm.bitmap, pmm.bitmap.bytes, pmm.ram, caches
    {
      Pending(None)
    }

    /** The header of a pending block is still to be written. */
    ghost predicate Pending(block: Option<Block>)
      reads this, pmm, pmm.bitmap, pmm.bitmap.bytes, pmm.ram, caches
    {
      && Wired() && pmm.Ready() && HeapStored(pmm.ram[..], view, owner, block)
      && Avoids(HeapPages(view), pmm.Place())
    }

    /** The end of malloc_heap_init: the caches it has created, on pages of their own. */
    constructor (allocator: Pmm, created: seq<SlabCache>)
      requires allocator.Ready() && Created(allocator, created, 6)
      ensures Valid() && pmm == allocator && caches == created && forall b :: !Live(view, b)
      ensures view.runs == map[] && forall i :: 0 <= i < 6 ==> view.caches[i] == created[i].cache
    {
      pmm, caches := allocator, created;
      view := Heap([created[0].cache, created[1].cache, created[2].cache, created[3].cache, created[4].cache,
                    created[5].cache], allocator.Frames(), map[]);
      new;
      CreatedView();
      owner := NewHeapStored(pmm.ram[..], view);
      NothingLive(pmm.ram[..], view);
    }

    lemma CreatedView()
      requires Created(pmm, caches, 6) && view.s == pmm.Frames() && view.runs == map[]
      requires |view.caches| == 6 && forall i :: 0 <= i < 6 ==> view.caches[i] == caches[i].cache
      ensures NewHeap(pmm.ram[..], view) && Wired() && Avoids(HeapPages(view), pmm.Place())
    {
      CreatedAvoids();
      forall i | 0 <= i < 6 ensures NewCache(pmm.ram[..], view, i) && view.caches[i].size > 0 && CacheHere(i) {
        assert CreatedOne(pmm, caches[i], i);
      }
      forall i, j | 0 <= i < j < 6 ensures PageSet(All(view.caches[i])) !! PageSet(All(view.caches[j])) {
        assert caches[i].Footprint() !! caches[j].Footprint();
      }
    }

    lemma CreatedAvoids()
      requires Created(pmm, caches, 6) && view.runs == map[]
      requires |view.caches| == 6 && forall i :: 0 <= i < 6 ==> view.caches[i] == caches[i].cache
      ensures Avoids(HeapPages(view), pmm.Place())
    {
      AvoidsMeans(HeapPages(view), pmm.Place());
      forall x | x in HeapPages(view) ensures x !in Pages(pmm.Place()) {
        var i :| 0 <= i < 6 && x in PageSet(All(view.caches[i]));
        assert CreatedOne(pmm, caches[i], i);
        AvoidsMeans(caches[i].Footprint(), pmm.Place());
      }
    }

    /** malloc_heap_init, as far as the caches of 16 bytes and more go.  It succeeds exactly when there are two
        pages for each, and writes to the pages it takes, and when one is missing to page 0. */
    static method Init(allocator: Pmm) returns (heap: KernelHeap?, outcome: Outcome)
      requires allocator.Ready() && MemoryOk(allocator.Snapshot())
      modifies allocator`usedPageCnt, allocator.bitmap, allocator.bitmap.bytes, allocator.ram
      ensures outcome == if |Frames.Free(old(allocator.Frames()))| >= 12 then Done else Panic
      ensures Beside(old(allocator.Snapshot()), allocator.Snapshot())
      ensures outcome == Done ==> heap != null && fresh(heap) && heap.pmm == allocator && heap.Valid()
      ensures outcome == Done ==> (forall c :: c in heap.caches ==> fresh(c)) && (forall b :: !Live(heap.view, b))
      ensures outcome == Done ==> HeapPages(heap.view) !! old(allocator.Frames()).used
    {
      ghost var start := allocator.Snapshot();
      var created;
      created, outcome := CreateAll(allocator);
      if outcome != Done {
        return null, Panic;
      }
      heap := new KernelHeap(allocator, created);
      OffUsed(heap.view, created, start.frames.used);
    }

    static method CreateAll(allocator: Pmm) returns (created: seq<SlabCache>, outcome: Outcome)
      requires allocator.Ready() && MemoryOk(allocator.Snapshot())
      modifies allocator`usedPageCnt, allocator.bitmap, allocator.bitmap.bytes, allocator.ram
      ensures outcome == if |Frames.Free(old(allocator.Frames()))| >= 12 then Done else Panic
      ensures Beside(old(allocator.Snapshot()), allocator.Snapshot())
      ensures outcome == Done ==> allocator.Ready() && Created(allocator, created, 6)
      ensures outcome == Done ==>
        forall k :: 0 <= k < 6 ==> fresh(created[k]) && created[k].Footprint() !! old(allocator.Frames()).used
    {
      created := [];
      ghost var start := allocator.Snapshot();
      BesideStart(start);
      for i := 0 to 6
        invariant allocator.Ready() && MemoryOk(allocator.Snapshot()) && Created(allocator, created, i)
        invariant forall k :: 0 <= k < i ==> fresh(created[k]) && created[k].Footprint() !! start.frames.used
        invariant Beside(start, allocator.Snapshot())
        invariant |Frames.Free(allocator.Frames())| + 2 * i == |Frames.Free(start.frames)|
      {
        ghost var before, middle := created, allocator.Snapshot();
        created, outcome := CreateNext(allocator, created, i);
        BesideTwice(start, middle, allocator.Snapshot());
        if outcome != Done {
          return created, Panic;
        }
        OneMore(before, created, middle.frames.used, start.frames.used, i);
      }
      outcome := Done;
    }

    static method CreateNext(allocator: Pmm, created: seq<SlabCache>, i: nat) returns (more: seq<SlabCache>, outcome: Outcome)
      requires allocator.Ready() && MemoryOk(allocator.Snapshot()) && Created(allocator, created, i) && i < 6
      modifies allocator`usedPageCnt, allocator.bitmap, allocator.bitmap.bytes, allocator.ram
      ensures outcome == Done <==> |Frames.Free(old(allocator.Frames()))| >= 2
      ensures Beside(old(allocator.Snapshot()), allocator.Snapshot())
      ensures outcome == Done ==> allocator.Ready() && MemoryOk(allocator.Snapshot()) && Created(allocator, more, i + 1)
      ensures outcome == Done ==> |more| == i + 1 && more[..i] == created && fresh(more[i])
      ensures outcome == Done ==> more[i].Footprint() !! old(allocator.Frames()).used
      ensures outcome == Done ==> |Frames.Free(allocator.Frames())| + 2 == |Frames.Free(old(allocator.Frames()))|
    {
      ghost var before := allocator.Snapshot();
      var one;
      CreateTakesTwo(CacheSize(i + 2), before.frames);
      one, outcome := SlabCache.Create(allocator, CacheSize(i + 2), true);
      if one == null {
        return created, Panic;
      }
      more := created + [one];
      ghost var after := allocator.Snapshot();
      SoundMeans(after.frames);
      forall k | 0 <= k < i
        ensures CreatedOne(allocator, created[k], k) && created[k].Footprint() <= before.frames.used
      {
        assert old(CreatedOne(allocator, created[k], k));
        StoredMeans(before, created[k].cache);
        PagesAreUsed(created[k].cache, before.frames);
        StoredBeside(before, after, created[k].cache, after.frames.used - before.frames.used + {0}, {}, 0);
      }
      CreatedMore(allocator, created, one, i, before.frames.used);
    }

    lemma CacheValid(i: nat)
      requires Valid() && i < 6
      ensures caches[i].Valid() && view.caches[i] == caches[i].cache && caches[i].pmm == pmm
    {
      CachePages(pmm.ram[..], view, owner, i);
      AvoidsFewer(HeapPages(view), PageSet(All(view.caches[i])), pmm.Place());
      assert CacheHere(i);
      CacheStored(pmm.ram[..], view, owner, None, i);
    }

    /** The rest of the kernel has used the frame allocator and its own pages. */
    ghost method Resume()
      requires Sized(view) && |caches| == 6 && pmm.Ready()
      requires forall i {:trigger CacheHere(i)} :: 0 <= i < 6 ==> CacheHere(i)
      requires forall i, j :: 0 <= i < j < 6 ==> caches[i] != caches[j]
      requires HeapStored(pmm.ram[..], view.(s := pmm.Frames()), owner, None)
      requires Avoids(HeapPages(view.(s := pmm.Frames())), pmm.Place())
      modifies this`view
      ensures Valid() && view == old(view).(s := pmm.Frames())
    {
      view := view.(s := pmm.Frames());
      forall j | 0 <= j < 6 ensures CacheHere(j) { assert old(CacheHere(j)); }
    }

    /** malloc, for sizes from 7 on. */
    method Malloc(size: Word) returns (ptr: Word, outcome: Outcome, ghost block: Option<Block>)
      requires Valid() && size >= 7
      requires size > 512 ==> PagesAsked(size) <= 8 * pmm.bitmap.bytes.Length && 0 < pmm.ram.Length
                              && pmm.hiPageTop / 4096 + PagesAsked(size) <= 8 * pmm.bitmap.bytes.Length + 1
      modifies this, caches, pmm`usedPageCnt, pmm.bitmap, pmm.bitmap.bytes, pmm.ram
      ensures Wired() && MallocResult(view, block, outcome) == AllocateCleared(old(view), size, pmm.Place())
      ensures block.Some? ==> Start(block.value) < WORD && ptr == ToHeap(Start(block.value))
      ensures Served(size, AsCoded) ==> MallocResult(view, block, outcome) == Allocate(old(view), size, AsCoded)
      ensures Served(size, AsCoded) ==> Valid() && HeapStep(old(pmm.ram[..]), old(view), pmm.ram[..], view)
      ensures size > 512 ==> pmm.ram[..] == LargeWords(old(pmm.ram[..]), old(view), size)
      ensures size > 512 && block.Some? ==> ClearedBehind(pmm.ram[..], Start(block.value) / 4096, PagesAsked(size))
      ensures Answered(old(view), size, block)
    {
      StoredAnswers(pmm.ram[..], view, owner, size);
      if size <= 512 {
        ptr, outcome, block := MallocSmall(size);
      } else {
        ptr, outcome, block := MallocLarge(size);
      }
    }

    method MallocSmall(size: Word) returns (ptr: Word, outcome: Outcome, ghost block: Option<Block>)
      requires Valid() && 7 <= size <= 512
      modifies this, caches, pmm`usedPageCnt, pmm.bitmap, pmm.bitmap.bytes, pmm.ram
      ensures Valid() && MallocResult(view, block, outcome) == Allocate(old(view), size, AsCoded)
      ensures block.Some? ==> Start(block.value) < WORD && ptr == ToHeap(Start(block.value))
      ensures HeapStep(old(pmm.ram[..]), old(view), pmm.ram[..], view)
    {
      var index := CacheIndex(size + 2);
      var a;
      a, outcome, block := TakeObject(index, size);
      if outcome != Done {
        return 0, outcome, None;
      }
      ghost var ram1 := pmm.ram[..];
      StoreHeader(a, index, block.value);
      StepThenStore(old(pmm.ram[..]), old(view), ram1, pmm.ram[..], view);
      ptr := ToHeap(a);
    }

    /** slab_cache_alloc from the cache of that index. */
    method TakeObject(index: nat, ghost size: Word) returns (a: nat, outcome: Outcome, ghost block: Option<Block>)
      requires Valid() && 7 <= size <= 512 && index == CacheIndex(size + 2)
      modifies this, caches, pmm`usedPageCnt, pmm.bitmap, pmm.bitmap.bytes, pmm.ram
      ensures Pending(block)
      ensures MallocResult(view, block, outcome) == Allocate(old(view), size, AsCoded)
      ensures outcome == Done <==> block.Some?
      ensures block.Some? ==> block.value == Small(index, a)
      ensures HeapStep(old(pmm.ram[..]), old(view), pmm.ram[..], view)
    {
      ghost var h, ram0 := view, pmm.ram[..];
      var i := index - 2;
      CacheValid(i);
      a, outcome := caches[i].Alloc(true, false);
      block := if outcome == Done then Some(Small(index, a)) else None;
      view := h.(caches := h.caches[i := caches[i].cache]);
      SmallTaken(ram0, pmm.ram[..], h, owner, size);
      SmallTakenStep(ram0, pmm.ram[..], h, owner, size);
      StepOffBitmap(ram0, h, pmm.ram[..], view, pmm.Place());
      forall j | 0 <= j < 6 ensures CacheHere(j) { assert old(CacheHere(j)); }
    }

    /** metadata->size = size. */
    method StoreHeader(a: nat, size: nat, ghost b: Block)
      requires Pending(Some(b))
      requires Live(view, b) && a == Start(b) && size % 0x1_0000 == Tag(view, b)
      modifies pmm.ram
      ensures Valid() && a < WORD && HeapStep(old(pmm.ram[..]), view, pmm.ram[..], view)
    {
      ghost var ram0 := pmm.ram[..];
      HeaderWritten(ram0, view, owner, b, size);
      BlockInMemory(ram0, view, owner, Some(b), b);
      StoreStep(ram0, view, owner, Some(b), b, a / 8, WithHeader(ram0[a / 8], size));
      pmm.ram[a / 8] := WithHeader(pmm.ram[a / 8], size);
      assert pmm.ram[..] == ram0[a / 8 := WithHeader(ram0[a / 8], size)];
    }

    /** malloc of pages.  When pmm_alloc fails the header goes to address 0. */
    method MallocLarge(size: Word) returns (ptr: Word, outcome: Outcome, ghost block: Option<Block>)
      requires Valid() && size > 512
      requires PagesAsked(size) <= 8 * pmm.bitmap.bytes.Length && 0 < pmm.ram.Length
      requires pmm.hiPageTop / 4096 + PagesAsked(size) <= 8 * pmm.bitmap.bytes.Length + 1
      modifies this, pmm`usedPageCnt, pmm.bitmap, pmm.bitmap.bytes, pmm.ram
      ensures Wired() && MallocResult(view, block, outcome) == AllocateCleared(old(view), size, pmm.Place())
      ensures block.Some? ==> Start(block.value) < WORD && ptr == ToHeap(Start(block.value))
      ensures Served(size, AsCoded) ==> MallocResult(view, block, outcome) == Allocate(old(view), size, AsCoded)
      ensures Served(size, AsCoded) ==> Valid() && HeapStep(old(pmm.ram[..]), old(view), pmm.ram[..], view)
      ensures pmm.ram[..] == LargeWords(old(pmm.ram[..]), old(view), size)
      ensures block.Some? ==> ClearedBehind(pmm.ram[..], Start(block.value) / 4096, PagesAsked(size))
    {
      OnePageExactly(size);
      ghost var h, ram0 := view, pmm.ram[..];
      var pageCount := AlignUp((size + 2) % 0x1_0000_0000_0000_0000) / 4096;
      AllocInMemory(ram0, h, owner, pageCount);
      var a := TakePages(pageCount);
      LargeAllocated(h, size, pmm.Frames(), a, pmm.Place());
      StoredCleared(ram0, a, pageCount);
      view := AllocateCleared(h, size, pmm.Place()).h;
      forall j | 0 <= j < 6 ensures CacheHere(j) { assert old(CacheHere(j)); }
      if Served(size, AsCoded) {
        SparedHeap(h, size, pmm.Place());
        LargeTakenStep(ram0, h, owner, size);
        owner := LargeStored(ram0, h, owner, size);
        StepOffBitmap(ram0, h, pmm.ram[..], view, pmm.Place());
      }
      outcome, block := if a == 0 then Null else Done, if a == 0 then None else Some(Large(a / 4096));
      ptr := ToHeap(a);
    }

    /** pmm_allocz, and metadata->size = page_count. */
    method TakePages(pageCount: nat) returns (a: nat)
      requires pmm.Ready() && pageCount <= 8 * pmm.bitmap.bytes.Length
      requires pmm.hiPageTop / 4096 + pageCount <= 8 * pmm.bitmap.bytes.Length + 1
      requires Frames.Alloc(pmm.Frames(), pageCount).1 / 8 < pmm.ram.Length
      modifies pmm`usedPageCnt, pmm.bitmap, pmm.bitmap.bytes, pmm.ram
      ensures (pmm.Frames(), a) == AllocCleared(old(pmm.Frames()), pageCount, pmm.Place())
      ensures pageCount <= 1 ==> pmm.Ready()
      ensures a / 8 < pmm.ram.Length && pmm.ram[..] == PagesStored(old(pmm.ram[..]), a, pageCount)
    {
      a := pmm.AllocPagesZeroed(pageCount);
      ghost var ram1 := pmm.ram[..];
      pmm.ram[a / 8] := WithHeader(pmm.ram[a / 8], pageCount);
      assert pmm.ram[..] == ram1[a / 8 := WithHeader(ram1[a / 8], pageCount)];
    }

    /** A caller stores a byte into its block, behind the header. */
    method Store(ghost b: Block, x: nat, byte: nat)
      requires Valid() && Live(view, b) && Start(b) + 2 <= x < End(view, b) && byte < 256
      modifies pmm.ram
      ensures Valid() && HeapStep(old(pmm.ram[..]), view, pmm.ram[..], view)
    {
      ghost var ram0 := pmm.ram[..];
      CallerStores(ram0, view, owner, b, x, byte);
      pmm.ram[x / 8] := WithByte(pmm.ram[x / 8], x % 8, byte);
      assert pmm.ram[..] == ram0[x / 8 := WithByte(ram0[x / 8], x % 8, byte)];
    }

    /** free of a block that is live.  What it does depends on the header alone, and on the address. */
    method Free(ptr: Word, ghost b: Block) returns (outcome: Outcome)
      requires Valid()
      requires ptr != 0 ==> Live(view, b) && Start(b) < WORD && ptr == ToHeap(Start(b))
      requires ptr != 0 && b.Small? && b.addr % 4096 == 0 ==> b.addr / 4096 + b.index <= 8 * pmm.bitmap.bytes.Length
      modifies this, caches, pmm`usedPageCnt, pmm.bitmap, pmm.bitmap.bytes, pmm.ram
      ensures ptr == 0 ==> Valid() && view == old(view)
      ensures ptr != 0 ==> Wired() && (view, outcome) == Deallocate(old(view), b)
      ensures ptr != 0 && (b.Small? ==> b.addr % 4096 != 0) ==>
        Valid() && HeapStep(old(pmm.ram[..]), old(view), pmm.ram[..], view)
    {
      if ptr == 0 {
        return Done;
      }
      HeapPointerBack(Start(b));
      HeaderRead(pmm.ram[..], view, owner, b);
      var a := FromHeap(ptr);
      var size := pmm.ram[a / 8] % 0x1_0000;
      if a % 4096 != 0 {
        StartsPageOrNot(view, b);
        outcome := FreeSmall(a, size);
      } else {
        FreeLarge(a, size, b);
        outcome := Done;
      }
    }

    method FreeSmall(a: Word, index: nat) returns (outcome: Outcome)
      requires Valid() && Live(view, Small(index, a)) && a % 4096 != 0
      modifies this, caches, pmm.ram
      ensures Valid() && (view, outcome) == Deallocate(old(view), Small(index, a))
      ensures HeapStep(old(pmm.ram[..]), old(view), pmm.ram[..], view) && pmm.Frames() == old(pmm.Frames())
    {
      ghost var h, ram0 := view, pmm.ram[..];
      outcome := GiveObject(index - 2, a);
      SmallGiven(ram0, h, pmm.ram[..], view, owner, index, a, outcome);
      StepOffBitmap(ram0, h, pmm.ram[..], view, pmm.Place());
    }

    /** slab_cache_free to one of the caches. */
    method GiveObject(i: nat, a: Word) returns (outcome: Outcome)
      requires Valid() && i < 6 && a in view.caches[i].live
      modifies this`view, caches, pmm.ram
      ensures Wired() && pmm.Ready() && pmm.Frames() == old(pmm.Frames())
      ensures Gave(old(pmm.ram[..]), old(view), pmm.ram[..], view, i, a, outcome)
    {
      CacheValid(i);
      outcome := caches[i].Free(a, true);
      view := view.(caches := view.caches[i := caches[i].cache]);
      forall j | 0 <= j < 6 ensures CacheHere(j) { assert old(CacheHere(j)); }
    }

    method FreeLarge(a: Word, pageCount: nat, ghost b: Block)
      requires Valid() && Live(view, b) && a == Start(b) && a % 4096 == 0 && pageCount == Tag(view, b)
      requires b.Small? ==> b.addr / 4096 + b.index <= 8 * pmm.bitmap.bytes.Length
      modifies this, pmm`usedPageCnt, pmm.bitmap, pmm.bitmap.bytes
      ensures Wired() && (view, Done) == Deallocate(old(view), b)
      ensures b.Large? ==> Valid() && HeapStep(pmm.ram[..], old(view), pmm.ram[..], view)
    {
      ghost var h := view;
      PagesDeallocated(h, b);
      if b.Large? {
        LargeFreed(pmm.ram[..], h, owner, b.page);
        LargeFreedStep(pmm.ram[..], h, owner, b.page);
        RunInReach(pmm.ram[..], h, owner, b.page);
        StepOffBitmap(pmm.ram[..], h, pmm.ram[..], Deallocate(h, b).0, pmm.Place());
      }
      GivePages(a, pageCount);
      view := Deallocate(h, b).0;
      forall j | 0 <= j < 6 ensures CacheHere(j) { assert old(CacheHere(j)); }
    }

    /** pmm_free. */
    method GivePages(a: Word, pageCount: nat)
      requires pmm.Valid() && a / 4096 + pageCount <= 8 * pmm.bitmap.bytes.Length
      modifies pmm`usedPageCnt, pmm.bitmap, pmm.bitmap.bytes
      ensures pmm.Valid() && pmm.Frames() == Release(old(pmm.Frames()), a, pageCount)
    {
      pmm.FreePages(a, pageCount);
    }
  }
}
