/** The page tables (fckrnl/mm/virt.c) and the heap of malloc (fckrnl/libk/malloc.c) over one frame allocator
    (fckrnl/mm/phys.c). */
module KernelMemory {
  import opened Bits
  import opened Frames
  import opened Memory
  import opened BitmapStorage
  import opened PageTables
  import opened PageTableUpdates
  import opened PageTableRuns
  import opened PageTableSharing
  import opened PageTableCursor
  import opened PageTableRanges
  import opened PageTableRights
  import opened KernelWindows
  import opened VirtualMemory
  import opened Slabs
  import SlabReap
  import opened SlabFrames
  import opened Malloc
  import opened HeapMemory
  import opened KernelHeaps

  // ----- the heap leaves the page tables alone

  lemma SparedCell(ram: seq<Word>, ram': seq<Word>, pages: set<nat>, f: nat, i: nat)
    requires SlabFrames.Spared(ram, ram', pages, {}, 0) && f !in pages && i < 512
    ensures Cell(ram', f, i) == Cell(ram, f, i)
  {
    var w := f * 512 + i;
    assert FrameOf(w) == f;
    assert SameWord(ram, ram', w);
  }

  /** A step of the heap keeps the tree and every translation, and takes none of its tables. */
  lemma TablesBesideHeap(m: Mem, m': Mem, sh: Shape, root: nat, h: Heap, h': Heap)
    requires Tree(m, sh, root) && h.s == m.frames && h'.s == m'.frames && MemoryOk(m')
    requires HeapStep(m.ram, h, m'.ram, h') && sh.Values !! HeapPages(h)
    ensures Tree(m', sh, root) && (forall v :: Lookup(m'.ram, sh, v) == Lookup(m.ram, sh, v))
    ensures sh.Values !! HeapPages(h') && SameTables(m.ram, m'.ram, sh)
  {
    TablesUsed(m, sh, root);
    var pages := HeapPages(h) + HeapPages(h') + {0};
    forall f | f in sh.Values ensures f !in pages && f in m'.frames.used {
      assert f in m.frames.used;
    }
    forall n, i | n in sh && 0 <= i < 512 ensures Cell(m'.ram, sh[n], i) == Cell(m.ram, sh[n], i) {
      assert sh[n] in sh.Values;
      SparedCell(m.ram, m'.ram, pages, sh[n], i);
    }
    TreeBeside(m, m', sh, root);
  }

  /** malloc_heap_init, after vmm_init, does so too. */
  lemma TablesBesideInit(m: Mem, m': Mem, sh: Shape, root: nat, h: Heap)
    requires Tree(m, sh, root) && MemoryOk(m') && KernelHeaps.Beside(m, m') && HeapPages(h) !! m.frames.used
    ensures Tree(m', sh, root) && sh.Values !! HeapPages(h) && SameTables(m.ram, m'.ram, sh)
    ensures forall v :: Lookup(m'.ram, sh, v) == Lookup(m.ram, sh, v)
  {
    TablesUsed(m, sh, root);
    var pages := m'.frames.used - m.frames.used + {0};
    forall n, i | n in sh && 0 <= i < 512 ensures Cell(m'.ram, sh[n], i) == Cell(m.ram, sh[n], i) {
      assert sh[n] in sh.Values;
      SparedCell(m.ram, m'.ram, pages, sh[n], i);
    }
    TreeBeside(m, m', sh, root);
  }

  lemma HeapMemoryOk(ram: seq<Word>, h: Heap, owner: map<nat, Owner>)
    requires HeapStored(ram, h, owner, None)
    ensures MemoryOk(Mem(ram, h.s))
  {
    HeapMeans(ram, h, owner, None);
    SoundMeans(h.s);
  }

  // ----- the page tables leave the heap alone

  lemma UntouchedSpared(m: Mem, m': Mem, held: set<nat>, pages: set<nat>)
    requires Untouched(m, m', held) && forall w: nat :: w < |m.ram| ==> FrameOf(w) in held || FrameOf(w) in pages
    ensures SlabFrames.Spared(m.ram, m'.ram, pages, {}, 0)
  {
    forall w: nat | FrameOf(w) !in pages || InSome(w, {}, 0) ensures SameWord(m.ram, m'.ram, w) {
      if w < |m.ram| {
        var f, i := FrameOf(w), w % 512;
        assert w == f * 512 + i;
        assert Cell(m'.ram, f, i) == Cell(m.ram, f, i);
      }
    }
  }

  /** vmm_set_pt_value keeps the heap, and makes none of its pages a table. */
  lemma HeapBesideTables(m: Mem, m': Mem, sh': Shape, h: Heap, owner: map<nat, Owner>)
    requires HeapStored(m.ram, h, owner, None) && h.s == m.frames && MemoryOk(m')
    requires Untouched(m, m', HeapPages(h)) && Foreign(m', sh', HeapPages(h))
    ensures HeapStored(m'.ram, h.(s := m'.frames), owner, None)
    ensures sh'.Values !! HeapPages(h.(s := m'.frames)) && HeapPages(h.(s := m'.frames)) == HeapPages(h)
  {
    HeapMeans(m.ram, h, owner, None);
    var pages := set w: nat | w < |m.ram| && FrameOf(w) !in HeapPages(h) :: FrameOf(w);
    UntouchedSpared(m, m', HeapPages(h), pages);
    forall x | x in pages ensures !InHeap(h, x) { HeapPagesAre(h, owner, x); }
    HeapBeside(m.ram, m'.ram, h, owner, None, pages, {}, 0);
    SoundMeans(m'.frames);
    HeapFrames(m'.ram, h, owner, m'.frames);
    forall x | x in HeapPages(h) ensures x !in sh'.Values { assert ForeignPage(m', sh', x); }
  }

  lemma HeapIsForeign(m: Mem, sh: Shape, h: Heap, owner: map<nat, Owner>)
    requires HeapStored(m.ram, h, owner, None) && h.s == m.frames && sh.Values !! HeapPages(h)
    ensures Foreign(m, sh, HeapPages(h))
  {
    HeapMeans(m.ram, h, owner, None);
    forall x | x in HeapPages(h) ensures ForeignPage(m, sh, x) {
      HeapPagesUsed(h, owner, x);
      HeapPageTop(h, owner, x);
    }
  }

  lemma HeapPageTop(h: Heap, owner: map<nat, Owner>, x: nat)
    requires HeapOk(h, owner) && InHeap(h, x)
    ensures x < h.s.top
  {
    if i :| 0 <= i < |h.caches| && x in SlabReap.PageSet(All(h.caches[i])) {
      CacheTop(h, owner, i, x);
    } else {
      var p :| p in h.runs && p <= x < p + h.runs[p];
      assert RunOk(h, owner, p);
      assert RunPage(owner, h.s, x, p);
    }
  }

  /** What a call of the page table code does to the heap. */
  lemma HeapAfterSet(m: Mem, sh: Shape, m': Mem, sh': Shape, root: nat, virt: nat, flags: Word, value: Word,
                     h: Heap, owner: map<nat, Owner>)
    requires HeapStored(m.ram, h, owner, None) && h.s == m.frames && sh.Values !! HeapPages(h)
    requires Tree(m, sh, root) && Suits(flags, Missing(sh, PageOf(virt))) && |Free(m.frames)| >= Missing(sh, PageOf(virt))
    requires m' == SetPtValue(m, root * 4096, virt, flags, value) && Tree(m', sh', root)
    ensures HeapStored(m'.ram, h.(s := m'.frames), owner, None)
    ensures sh'.Values !! HeapPages(h.(s := m'.frames)) && HeapPages(h.(s := m'.frames)) == HeapPages(h)
  {
    HeapIsForeign(m, sh, h, owner);
    SetUntouched(m, sh, root, virt, flags, value, HeapPages(h), sh');
    HeapBesideTables(m, m', sh', h, owner);
  }

  // ----- the window of the heap

  /** Frame f is mapped in the window of the heap, by an entry of its own, and may be written there. */
  ghost predicate FrameOpen(ram: seq<Word>, root: nat, f: nat) {
    f < 0x10_0000 ==>
      && Translate(ram, root, HEAP_PAGE + f) == Leaf(f * 4096 + 3)
      && Granted(ram, root, TOP_LEVEL, HEAP_PAGE + f, 1)
  }

  ghost predicate WindowOpen(ram: seq<Word>, root: nat) {
    forall f: nat {:trigger FrameOpen(ram, root, f)} :: FrameOpen(ram, root, f)
  }

  predicate InWindow(v: nat) {
    HEAP_PAGE <= v < HEAP_PAGE + 0x10_0000
  }

  lemma WindowAfterInit(m: Mem, lengths: seq<Word>)
    requires MemoryOk(m) && |Frames.Free(m.frames)| >= InitBudget(lengths) && EntriesOk(lengths)
    ensures var (m', root) := InitTables(m, lengths); WindowOpen(m'.ram, root)
  {
    var (m', root) := InitTables(m, lengths);
    forall f: nat | f < 0x10_0000 ensures FrameOpen(m'.ram, root, f) { HeapPage(m, lengths, HEAP_PAGE + f, f); }
  }

  lemma MappedPage(m: Mem, sh: Shape, root: nat, u: nat, e: Word)
    requires Tree(m, sh, root) && u < PAGES && Translate(m.ram, root * 4096, u) == Leaf(e)
    ensures Lookup(m.ram, sh, u) != 0
  {
    TranslateIsLookup(m, sh, root, u);
  }

  /** Stores beside the tables leave the window open. */
  lemma WindowBeside(m: Mem, m': Mem, sh: Shape, root: nat)
    requires Tree(m, sh, root) && Tree(m', sh, root) && SameTables(m.ram, m'.ram, sh)
    requires forall v :: Lookup(m'.ram, sh, v) == Lookup(m.ram, sh, v)
    requires WindowOpen(m.ram, root * 4096)
    ensures WindowOpen(m'.ram, root * 4096)
  {
    SameKeeps(m.ram, m'.ram, sh);
    forall f: nat | f < 0x10_0000 ensures FrameOpen(m'.ram, root * 4096, f) {
      assert FrameOpen(m.ram, root * 4096, f);
      MappedPage(m, sh, root, HEAP_PAGE + f, f * 4096 + 3);
      PageSame(m, sh, root, m', sh, HEAP_PAGE + f, 1);
    }
  }

  lemma SameKeeps(ram: seq<Word>, ram': seq<Word>, sh: Shape)
    requires SameTables(ram, ram', sh)
    ensures KeepsPresent(ram, ram', Upper(sh))
  {
    forall f, i | f in Upper(sh) && 0 <= i < 512 && Present(Cell(ram, f, i)) ensures Cell(ram', f, i) == Cell(ram, f, i) {
      var n :| n in sh && n.level >= 2 && sh[n] == f;
      assert Cell(ram', sh[n], i) == Cell(ram, sh[n], i);
    }
  }

  /** So does vmm_set_pt_value for a page outside the window. */
  lemma WindowAfterSet(m: Mem, sh: Shape, m': Mem, sh': Shape, root: nat, virt: nat, flags: Word, value: Word)
    requires Tree(m, sh, root) && Suits(flags, Missing(sh, PageOf(virt))) && |Frames.Free(m.frames)| >= Missing(sh, PageOf(virt))
    requires m' == SetPtValue(m, root * 4096, virt, flags, value)
    requires EntrySet(m, sh, m', sh', root, PageOf(virt), flags, value)
    requires !InWindow(PageOf(virt)) && WindowOpen(m.ram, root * 4096)
    ensures WindowOpen(m'.ram, root * 4096)
  {
    forall f: nat | f < 0x10_0000 ensures FrameOpen(m'.ram, root * 4096, f) {
      assert FrameOpen(m.ram, root * 4096, f);
      MappedPage(m, sh, root, HEAP_PAGE + f, f * 4096 + 3);
      OthersKeepRights(m, sh, m', sh', root, virt, flags, value, HEAP_PAGE + f, 1);
    }
  }

  /** A heap pointer to physical address x translates to the frame of x, and may be written. */
  ghost predicate PointerOpen(ram: seq<Word>, root: nat, ptr: Word, x: nat) {
    x < FOUR_GIB ==>
      Translate(ram, root, PageOf(ptr)) == Leaf(HeapLeaf(x)) && Granted(ram, root, TOP_LEVEL, PageOf(ptr), 1)
  }

  /** Every byte of a block is reached in the window. */
  ghost predicate BlockOpen(ram: seq<Word>, root: nat, h: Heap, b: Block)
    requires Live(h, b)
  {
    forall x: nat {:trigger ByteOpen(ram, root, x)} :: Start(b) <= x < End(h, b) ==> ByteOpen(ram, root, x)
  }

  ghost predicate ByteOpen(ram: seq<Word>, root: nat, x: nat) {
    x < FOUR_GIB ==> PointerOpen(ram, root, x + HEAP_START, x)
  }

  lemma WindowBytes(ram: seq<Word>, root: nat, x: nat)
    requires WindowOpen(ram, root)
    ensures ByteOpen(ram, root, x)
  {
    if x < FOUR_GIB {
      HeapAddress(x);
      assert FrameOpen(ram, root, x / 4096);
    }
  }

  /** The pointer malloc returns for a block is that to its third byte. */
  lemma PointerOfBlock(ram: seq<Word>, root: nat, a: Word)
    requires WindowOpen(ram, root) && a % 16 == 0
    ensures PointerOpen(ram, root, ToHeap(a), a)
  {
    if a < FOUR_GIB {
      PointerIs(a);
      StaysOnPage(a);
      WindowBytes(ram, root, a + 2);
    }
  }

  lemma PointerIs(a: Word)
    requires a < FOUR_GIB
    ensures ToHeap(a) == a + 2 + HEAP_START < WORD
  {
  }

  lemma StaysOnPage(a: nat)
    requires a % 16 == 0
    ensures (a + 2) / 4096 == a / 4096 && (a + 2 < FOUR_GIB <==> a < FOUR_GIB)
  {
  }

  class Kernel {
    const pmm: Pmm
    const vmm: Vmm
    const heap: KernelHeap

    constructor (tables: Vmm, kernelHeap: KernelHeap)
      requires tables.pmm == kernelHeap.pmm && tables.Valid() && kernelHeap.Valid()
      requires tables.shape.Values !! HeapPages(kernelHeap.view)
      ensures Valid() && vmm == tables && heap == kernelHeap
    {
      pmm, vmm, heap := tables.pmm, tables, kernelHeap;
    }

    /** The tables are a tree, the heap is in order, and no page belongs to both. */
    ghost predicate Valid()
      reads vmm, heap, pmm, pmm.bitmap, pmm.bitmap.bytes, pmm.ram, heap.caches
    {
      && vmm.pmm == pmm && heap.pmm == pmm && vmm.Valid() && heap.Valid()
      && vmm.shape.Values !! HeapPages(heap.view)
    }

    /** Frames below 4 GiB are mapped in the window of the heap. */
    ghost predicate WindowHere()
      reads vmm
    {
      WindowOpen(vmm.mem.ram, vmm.rootPageTbl)
    }

    /** Every page translates as before. */
    twostate predicate SamePages()
      reads vmm
    {
      vmm.shape == old(vmm.shape) && forall v :: Lookup(vmm.mem.ram, vmm.shape, v) == Lookup(old(vmm.mem.ram), vmm.shape, v)
    }

    /** malloc, for sizes from 7 on and of one page at most.  While the window of the heap is in place, the
        pointer it returns, and every byte of the block, translates to the frame it stands for. */
    method Malloc(size: Word) returns (ptr: Word, outcome: Outcome, ghost block: Option<Block>)
      requires Valid() && Served(size, AsCoded)
      modifies heap, heap.caches, vmm`mem, pmm`usedPageCnt, pmm.bitmap, pmm.bitmap.bytes, pmm.ram
      ensures Valid() && SamePages()
      ensures MallocResult(heap.view, block, outcome) == Allocate(old(heap.view), size, AsCoded)
      ensures Answered(old(heap.view), size, block)
      ensures block.Some? ==> Start(block.value) < WORD && ptr == ToHeap(Start(block.value))
      ensures old(WindowHere()) ==> WindowHere()
      ensures old(WindowHere()) && block.Some? ==> Reached(ptr, block.value)
    {
      RoomForPage();
      OnePageExactly(size);
      ghost var m, h := pmm.Snapshot(), heap.view;
      AllocatedLive(pmm.ram[..], h, heap.owner, size);
      ptr, outcome, block := heap.Malloc(size);
      HeapStepped(m, h);
      if WindowHere() && block.Some? { InReach(ptr, block.value); }
    }

    /** The block is in the heap, and while it lies below 4 GiB all of it is reached in the window, the
        caller's pointer included. */
    ghost predicate Reached(ptr: Word, b: Block)
      reads vmm, heap
    {
      && Live(heap.view, b)
      && PointerOpen(vmm.mem.ram, vmm.rootPageTbl, ptr, Start(b))
      && BlockOpen(vmm.mem.ram, vmm.rootPageTbl, heap.view, b)
    }

    lemma InReach(ptr: Word, b: Block)
      requires Valid() && WindowHere()
      requires Start(b) < WORD && ptr == ToHeap(Start(b)) && Live(heap.view, b)
      ensures Reached(ptr, b)
    {
      BlockInMemory(pmm.ram[..], heap.view, heap.owner, None, b);
      PointerOfBlock(vmm.mem.ram, vmm.rootPageTbl, Start(b));
      forall x: nat | Start(b) <= x < End(heap.view, b) ensures ByteOpen(vmm.mem.ram, vmm.rootPageTbl, x) {
        WindowBytes(vmm.mem.ram, vmm.rootPageTbl, x);
      }
    }

    /** A caller stores a byte into its block, behind the header. */
    method Store(ghost b: Block, x: nat, byte: nat)
      requires Valid() && Live(heap.view, b) && Start(b) + 2 <= x < End(heap.view, b) && byte < 256
      modifies vmm`mem, pmm.ram
      ensures Valid() && SamePages() && heap.view == old(heap.view) && (old(WindowHere()) ==> WindowHere())
    {
      ghost var m, h := pmm.Snapshot(), heap.view;
      heap.Store(b, x, byte);
      HeapStepped(m, h);
    }

    lemma RoomForPage()
      requires Valid()
      ensures 0 < pmm.ram.Length && 0 < pmm.bitmap.bytes.Length
    {
    }

    /** free of a live block that does not start a page, or of pages. */
    method Free(ptr: Word, ghost b: Block) returns (outcome: Outcome)
      requires Valid()
      requires ptr != 0 ==> Live(heap.view, b) && Start(b) < WORD && ptr == ToHeap(Start(b))
      requires ptr != 0 && b.Small? ==> b.addr % 4096 != 0
      modifies heap, heap.caches, vmm`mem, pmm`usedPageCnt, pmm.bitmap, pmm.bitmap.bytes, pmm.ram
      ensures Valid() && SamePages()
      ensures if ptr == 0 then heap.view == old(heap.view) else (heap.view, outcome) == Deallocate(old(heap.view), b)
      ensures old(WindowHere()) ==> WindowHere()
    {
      ghost var m, h := pmm.Snapshot(), heap.view;
      if ptr == 0 {
        return Done;
      }
      outcome := heap.Free(ptr, b);
      HeapStepped(m, h);
    }

    /** The page table code takes note of what the heap has done. */
    ghost method HeapStepped(m: Mem, h: Heap)
      requires vmm.pmm == pmm && heap.pmm == pmm && heap.Valid() && vmm.rootPageTbl == vmm.rootFrame * 4096
      requires Avoids(vmm.shape.Values, pmm.Place())
      requires m == vmm.mem && h.s == m.frames && Tree(m, vmm.shape, vmm.rootFrame) && vmm.shape.Values !! HeapPages(h)
      requires HeapStep(m.ram, h, pmm.ram[..], heap.view)
      modifies vmm`mem
      ensures Valid() && vmm.mem == pmm.Snapshot()
      ensures forall v :: Lookup(vmm.mem.ram, vmm.shape, v) == Lookup(m.ram, vmm.shape, v)
      ensures WindowOpen(m.ram, vmm.rootPageTbl) ==> WindowHere()
    {
      HeapMemoryOk(pmm.ram[..], heap.view, heap.owner);
      TablesBesideHeap(m, pmm.Snapshot(), vmm.shape, vmm.rootFrame, h, heap.view);
      if WindowOpen(m.ram, vmm.rootPageTbl) { WindowBeside(m, pmm.Snapshot(), vmm.shape, vmm.rootFrame); }
      vmm.Resume();
    }

    /** vmm_map_page. */
    method MapPage(phys: Word, virt: Word, flags: Word)
      requires Valid() && Suits(flags, Missing(vmm.shape, PageOf(virt)))
      requires |Frames.Free(pmm.Frames())| >= Missing(vmm.shape, PageOf(virt))
      modifies heap`view, vmm`shape, vmm`mem, pmm`usedPageCnt, pmm.bitmap, pmm.bitmap.bytes, pmm.ram
      ensures Valid() && heap.view == old(heap.view).(s := pmm.Frames())
      ensures EntrySet(old(vmm.mem), old(vmm.shape), vmm.mem, vmm.shape, vmm.rootFrame, PageOf(virt), flags,
                       Entry(phys, flags))
      ensures old(WindowHere()) && !InWindow(PageOf(virt)) ==> WindowHere()
    {
      ghost var m, sh, h := vmm.mem, vmm.shape, heap.view;
      AlignedPage(virt);
      vmm.MapPage(phys, virt, flags);
      HeapAfterSet(m, sh, vmm.mem, vmm.shape, vmm.rootFrame, AlignDown(virt), flags, Entry(phys, flags), h, heap.owner);
      if WindowOpen(m.ram, vmm.rootPageTbl) && !InWindow(PageOf(virt)) {
        WindowAfterSet(m, sh, vmm.mem, vmm.shape, vmm.rootFrame, AlignDown(virt), flags, Entry(phys, flags));
      }
      heap.Resume();
    }

    /** vmm_unmap_page. */
    method UnmapPage(virt: Word)
      requires Valid() && |Frames.Free(pmm.Frames())| >= Missing(vmm.shape, PageOf(virt))
      modifies heap`view, vmm`shape, vmm`mem, pmm`usedPageCnt, pmm.bitmap, pmm.bitmap.bytes, pmm.ram
      ensures Valid() && heap.view == old(heap.view).(s := pmm.Frames())
      ensures EntrySet(old(vmm.mem), old(vmm.shape), vmm.mem, vmm.shape, vmm.rootFrame, PageOf(virt), 0, 0)
      ensures old(WindowHere()) && !InWindow(PageOf(virt)) ==> WindowHere()
    {
      ghost var m, sh, h := vmm.mem, vmm.shape, heap.view;
      AlignedPage(virt);
      vmm.UnmapPage(virt);
      HeapAfterSet(m, sh, vmm.mem, vmm.shape, vmm.rootFrame, AlignDown(virt), 0, 0, h, heap.owner);
      if WindowOpen(m.ram, vmm.rootPageTbl) && !InWindow(PageOf(virt)) {
        WindowAfterSet(m, sh, vmm.mem, vmm.shape, vmm.rootFrame, AlignDown(virt), 0, 0);
      }
      heap.Resume();
    }
  }
}
