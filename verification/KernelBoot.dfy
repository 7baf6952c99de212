/** The memory of the kernel from its start on (fckrnl/kernel/kernel.c): pmm_init, vmm_init, malloc_heap_init. */
module KernelBoot {
  import opened Bits
  import opened Frames
  import opened MemoryMap
  import opened BitmapStorage
  import opened Memory
  import opened PageTables
  import PageTableRanges
  import opened KernelWindows
  import opened VirtualMemory
  import opened Slabs
  import opened Malloc
  import opened KernelHeaps
  import opened KernelMemory

  /** The lengths of the entries, as vmm_init finds them. */
  function LengthsOf(es: seq<MapEntry>): (r: seq<Word>)
    requires forall i :: 0 <= i < |es| ==> es[i].length <= 0x1000_0000_0000
    ensures |r| == |es| && EntriesOk(r)
  {
    seq(|es|, i requires 0 <= i < |es| => es[i].length)
  }

  /** A memory map of the boot protocol, as the kernel can take it over: page aligned, free of overlaps, below
      8 TiB where it is counted, with room for the bitmap behind page 0. */
  ghost predicate Suitable(es: seq<MapEntry>, words: nat) {
    && Aligned(es) && Disjoint(es) && (forall i :: 0 <= i < |es| ==> es[i].length <= 0x1000_0000_0000)
    && 0 < TopOf(es) / 4096 && TopOf(es) < 0x800_0000_0000 && BitmapSuits(es, words)
    && StorageOf(es).base >= 4096
  }

  /** The map that pmm_init leaves behind. */
  ghost function After(es: seq<MapEntry>): seq<MapEntry>
    requires TopOf(es) < WORD && Room(es, BitmapBytes(TopOf(es))) < |es|
  {
    Carved(es, BitmapBytes(TopOf(es)))
  }

  lemma StillShort(es: seq<MapEntry>)
    requires TopOf(es) < WORD && Room(es, BitmapBytes(TopOf(es))) < |es|
    requires forall i :: 0 <= i < |es| ==> es[i].length <= 0x1000_0000_0000
    ensures forall i :: 0 <= i < |After(es)| ==> After(es)[i].length <= 0x1000_0000_0000
  {
  }

  /** Frames that vmm_init takes at most with that map. */
  ghost function BootBudget(es: seq<MapEntry>, words: nat): nat
    requires Suitable(es, words)
  {
    StillShort(es);
    InitBudget(LengthsOf(After(es)))
  }

  lemma InitialMemoryOk(ram: seq<Word>, es: seq<MapEntry>)
    requires Suitable(es, |ram|)
    ensures MemoryOk(Mem(ram, InitialState(es)))
  {
    InitialStateSound(es);
    TopInMemory(TopOf(es), BitmapBytes(TopOf(es)), |ram|);
  }

  lemma TopInMemory(hi: nat, size: nat, words: nat)
    requires hi < 0x800_0000_0000 && hi / 4096 <= 8 * size && 512 * 8 * size <= words
    ensures hi / 4096 * 512 <= words && hi / 4096 * 4096 <= WORD
  {
  }

  /** pmm_init. */
  method StartPages(memory: array<Word>, mmap: array<MapEntry>) returns (pmm: Pmm)
    requires Suitable(mmap[..], memory.Length)
    modifies mmap
    ensures fresh(pmm) && fresh(pmm.bitmap) && fresh(pmm.bitmap.bytes) && pmm.ram == memory
    ensures pmm.Ready() && MemoryOk(pmm.Snapshot()) && 0 < pmm.bitmap.bytes.Length
    ensures pmm.Frames() == InitialState(old(mmap[..])) && mmap[..] == After(old(mmap[..]))
  {
    InitialMemoryOk(memory[..], mmap[..]);
    pmm := new Pmm(memory);
    pmm.Init(mmap);
  }

  /** ... and vmm_init: the window of the heap is in place. */
  method StartTables(pmm: Pmm, lengths: seq<Word>) returns (vmm: Vmm)
    requires pmm.Ready() && MemoryOk(pmm.Snapshot()) && 0 < pmm.bitmap.bytes.Length && EntriesOk(lengths)
    requires |Free(pmm.Frames())| >= InitBudget(lengths)
    modifies pmm`usedPageCnt, pmm.bitmap, pmm.bitmap.bytes, pmm.ram
    ensures fresh(vmm) && vmm.pmm == pmm && vmm.Valid() && WindowOpen(vmm.mem.ram, vmm.rootPageTbl)
    ensures |Free(vmm.mem.frames)| + InitBudget(lengths) >= |Free(old(pmm.Frames()))|
  {
    WindowAfterInit(pmm.Snapshot(), lengths);
    PagesEnough(lengths);
    vmm := new Vmm(pmm);
    vmm.Init(lengths);
  }

  lemma PagesEnough(lengths: seq<Word>)
    requires EntriesOk(lengths)
    ensures forall i :: 0 <= i < |lengths| ==> PageTableRanges.PageCount(0, lengths[i]) <= PAGES
  {
    forall i | 0 <= i < |lengths| ensures PageTableRanges.PageCount(0, lengths[i]) <= PAGES {
      KernelWindows.EntryPages(lengths[i]);
    }
  }

  /** ... and malloc_heap_init, beside the page tables. */
  method StartHeap(vmm: Vmm) returns (kernel: Kernel?, outcome: Outcome)
    requires vmm.Valid() && WindowOpen(vmm.mem.ram, vmm.rootPageTbl)
    modifies vmm`mem, vmm.pmm`usedPageCnt, vmm.pmm.bitmap, vmm.pmm.bitmap.bytes, vmm.pmm.ram
    ensures outcome == if |Free(old(vmm.mem.frames))| >= 12 then Done else Panic
    ensures outcome == Done ==> kernel != null && fresh(kernel) && kernel.vmm == vmm && kernel.Valid()
    ensures outcome == Done ==> kernel.WindowHere() && forall b :: !Live(kernel.heap.view, b)
  {
    ghost var m := vmm.mem;
    var heap;
    heap, outcome := KernelHeap.Init(vmm.pmm);
    if outcome != Done {
      return null, outcome;
    }
    ghost var m' := vmm.pmm.Snapshot();
    HeapMemoryOk(m'.ram, heap.view, heap.owner);
    TablesBesideInit(m, m', vmm.shape, vmm.rootFrame, heap.view);
    WindowBeside(m, m', vmm.shape, vmm.rootFrame);
    vmm.Resume();
    kernel := new Kernel(vmm, heap);
  }

  /** The three in a row.  For every suitable memory map with frames enough for the page tables and for the
      caches there is a kernel: the tables are a tree, the heap is in order, neither has a page of the other's
      or of the bitmap's, and every frame below 4 GiB is mapped in the window of the heap. */
  method Boot(memory: array<Word>, mmap: array<MapEntry>) returns (kernel: Kernel?, outcome: Outcome)
    requires Suitable(mmap[..], memory.Length)
    requires |Free(InitialState(mmap[..]))| >= BootBudget(mmap[..], memory.Length)
    modifies memory, mmap
    ensures outcome == Done || outcome == Panic
    ensures |Free(InitialState(old(mmap[..])))| >= BootBudget(old(mmap[..]), memory.Length) + 12 ==> outcome == Done
    ensures outcome == Done ==> kernel != null && fresh(kernel) && kernel.Valid() && kernel.pmm.ram == memory
    ensures outcome == Done ==> kernel.WindowHere() && forall b :: !Live(kernel.heap.view, b)
  {
    StillShort(mmap[..]);
    var pmm := StartPages(memory, mmap);
    var lengths := LengthsOf(mmap[..]);
    var vmm := StartTables(pmm, lengths);
    kernel, outcome := StartHeap(vmm);
  }

  // ----- a memory map that starts

  lemma LowMapSuits(words: nat)
    requires words >= 512 * 8 * 0x8000
    ensures Suitable(LowMap(), words)
  {
    LowMapPlaces();
  }

  lemma LowMapFrees()
    ensures TopOf(LowMap()) < WORD && Room(LowMap(), BitmapBytes(TopOf(LowMap()))) < |LowMap()|
    ensures |Free(InitialState(LowMap()))| >= 261781
  {
    LowMapPlaces();
    var es := LowMap();
    InitialStateSound(es);
    CarvedKeepsShape(es, 0x8000);
    FreedPagesCounted(Carved(es, 0x8000));
    WithoutZero(FreedPages(Carved(es, 0x8000)));
    LowMapCount();
  }

  lemma LowMapCount()
    ensures FreedCount(After(LowMap())) == 261782
  {
    LowMapPlaces();
    var es := After(LowMap());
    assert es == [MapEntry(0x9000, 0x9_6000, USABLE), MapEntry(0x10_0000, 0x3FE0_0000, USABLE)];
    assert es[..1][..0] == [];
    assert FreedCount(es[..1]) == 150;
  }

  /** A gigabyte of memory is enough. */
  lemma LowMapStarts(words: nat)
    requires words >= 512 * 8 * 0x8000
    ensures Suitable(LowMap(), words) && |Free(InitialState(LowMap()))| >= BootBudget(LowMap(), words) + 12
  {
    LowMapSuits(words);
    LowMapFrees();
    StillShort(LowMap());
    LowLengths();
    LowBudget();
  }

  lemma LowLengths()
    ensures TopOf(LowMap()) < WORD && Room(LowMap(), BitmapBytes(TopOf(LowMap()))) < |LowMap()|
    ensures forall i :: 0 <= i < |After(LowMap())| ==> After(LowMap())[i].length <= 0x1000_0000_0000
    ensures LengthsOf(After(LowMap())) == [0x9_6000, 0x3FE0_0000]
  {
    LowMapPlaces();
    StillShort(LowMap());
  }

  lemma LowBudget()
    ensures InitBudget([0x9_6000, 0x3FE0_0000]) <= 20000
  {
    var lengths: seq<Word> := [0x9_6000, 0x3FE0_0000];
    assert lengths[1..] == [0x3FE0_0000];
    assert lengths[1..][1..] == [];
  }
}
