/** The page table code of the kernel (fckrnl/mm/virt.c), over physical memory and its frame allocator. */
module VirtualMemory {
  import opened Bits
  import opened Intervals
  import opened Frames
  import opened Memory
  import opened BitmapStorage
  import opened PageTables
  import opened PageTableUpdates
  import opened PageTableRuns
  import opened PageTableCursor
  import PageTableSharing
  import opened PageTableRanges
  import opened PageTableBudget
  import opened PageTableInit
  import opened KernelWindows

  lemma DescendSteps(m: Mem, m3: Mem, m2: Mem, m1: Mem, root: nat, pdpt: nat, pd: nat, pt: nat, v: nat, flags: Word)
    requires (m3, pdpt) == GetOrCreate(m, root, IndexAt(v, 4), flags)
    requires (m2, pd) == GetOrCreate(m3, pdpt, IndexAt(v, 3), flags)
    requires (m1, pt) == GetOrCreate(m2, pd, IndexAt(v, 2), flags)
    ensures DescendAll(m, root, v, flags) == (m1, pt)
  {
    assert DescendFrom(m1, pt, 1, v, flags) == (m1, pt);
    assert DescendFrom(m2, pd, 2, v, flags) == (m1, pt);
    assert DescendFrom(m3, pdpt, 3, v, flags) == (m1, pt);
  }

  /** No table is made of a page of the bitmap, and no word of the bitmap is written. */
  lemma TablesOffBitmap(m: Mem, sh: Shape, root: nat, virt: nat, flags: Word, value: Word, sh': Shape, st: Storage)
    requires Tree(m, sh, root) && Suits(flags, Missing(sh, PageOf(virt)))
    requires |Free(m.frames)| >= Missing(sh, PageOf(virt))
    requires Tree(PageTables.SetPtValue(m, root * 4096, virt, flags, value), sh', root)
    requires Guards(m.frames, st) && Avoids(sh.Values, st)
    ensures Avoids(sh'.Values, st)
    ensures PageTableSharing.Untouched(m, PageTables.SetPtValue(m, root * 4096, virt, flags, value), Pages(st))
  {
    GuardsMeans(m.frames, st);
    AvoidsMeans(sh.Values, st);
    AvoidsMeans(sh'.Values, st);
    var m', held := PageTables.SetPtValue(m, root * 4096, virt, flags, value), Pages(st);
    forall p | p in held ensures PageTableSharing.ForeignPage(m, sh, p) { assert p in Interval(1, m.frames.top); }
    PageTableSharing.SetUntouched(m, sh, root, virt, flags, value, held, sh');
    forall p | p in held ensures p !in sh'.Values { assert PageTableSharing.ForeignPage(m', sh', p); }
  }

  lemma RootMade(m: Mem, st: Storage) returns (sh: Shape)
    requires MemoryOk(m) && 0 < |Free(m.frames)| && Guards(m.frames, st)
    ensures var (m0, root) := AllocZeroed(m, 1);
      && root == root / 4096 * 4096 && Tree(m0, sh, root / 4096) && Avoids(sh.Values, st)
      && |Free(m0.frames)| == |Free(m.frames)| - 1
  {
    sh := RootTree(m);
    GuardsMeans(m.frames, st);
    AvoidsMeans(sh.Values, st);
  }

  /** The bounds of the range loops, as the macros compute them. */
  lemma RangeEnds(start: Word, end: Word)
    ensures And(start, PAGE_MASK) == AlignDown(start)
    ensures And((end + 4095) % 0x1_0000_0000_0000_0000, PAGE_MASK) == AlignUp(end)
  {
    AlignDownIsMask(start);
    AlignDownIsMask((end + 4095) % 0x1_0000_0000_0000_0000);
  }

  lemma RangePages(start: Word, end: Word)
    ensures AlignDown(start) == FirstPage(start) * 4096
    ensures if AlignDown(start) < AlignUp(end) then AlignUp(end) == (FirstPage(start) + PageCount(start, end)) * 4096
            else PageCount(start, end) == 0
  {
    assert AlignUp(end) % 4096 == 0;
  }

  /** Byte address i of a range loop over pages k to k + n is that of a page, with left pages to go. */
  predicate Progress(i: nat, last: Word, page: nat, left: nat, k: nat, n: nat) {
    k <= page && i == page * 4096 && page + left == k + n && (i < last <==> left > 0)
  }

  lemma ProgressNext(i: nat, last: Word, page: nat, left: nat, k: nat, n: nat)
    requires Progress(i, last, page, left, k, n) && 0 < left
    requires last == (k + n) * 4096
    ensures page * 4096 < WORD
    ensures Progress(i + 4096, last, page + 1, left - 1, k, n)
  {
  }

  /** Stock for a range is stock for its first page, and mapping that page leaves stock for the rest. */
  lemma StockForPage(m: Mem, sh: Shape, p: nat, left: nat)
    requires p < PAGES && 0 < left && Stock(m, sh) >= |WithPaths(sh.Keys, p, left)|
    ensures |Free(m.frames)| >= Missing(sh, p)
  {
    FirstPathGrows(sh.Keys, p, left);
    MissingIsGrowth(sh, sh.Keys, p, TOP_LEVEL);
  }

  lemma FirstPathGrows(keys: set<Node>, p: nat, left: nat)
    requires p < PAGES && 0 < left
    ensures |WithPath(keys, p, TOP_LEVEL)| <= |WithPaths(keys, p, left)|
  {
    var p1, left1 := NextPage(p), left - 1;
    PathsGrow(WithPath(keys, p, TOP_LEVEL), p1, left1);
  }

  lemma StockForRest(m: Mem, sh: Shape, m': Mem, sh': Shape, root: nat, p: nat, left: nat, flags: Word, value: Word)
    requires p < PAGES && 0 < left && Stock(m, sh) >= |WithPaths(sh.Keys, p, left)|
    requires Privilege(flags) && EntrySet(m, sh, m', sh', root, p, flags, value)
    ensures Stock(m', sh') >= |WithPaths(sh'.Keys, NextPage(p), left - 1)|
  {
    MissingIsGrowth(sh, sh.Keys, p, TOP_LEVEL);
  }

  // ----- the memories a range loop passes through

  ghost predicate MapsNext(trace: seq<Mem>, j: nat, root: nat, k: nat, offset: Word, flags: Word)
    requires j + 1 < |trace|
  {
    (k + j) * 4096 < WORD &&
    trace[j + 1] == PageTableRuns.MapPage(trace[j], root, (k + j) * 4096, VirtOf(k + j, offset), flags)
  }

  lemma MapsTail(trace: seq<Mem>, root: nat, k: nat, offset: Word, flags: Word)
    requires 1 < |trace| && MapsAll(trace, root, k, offset, flags)
    ensures MapsAll(trace[1..], root, k + 1, offset, flags) && MapsNext(trace, 0, root, k, offset, flags)
  {
    var rest, k1 := trace[1..], k + 1;
    forall j | 0 <= j < |rest| - 1 ensures MapsNext(rest, j, root, k1, offset, flags) {
      var j1 := j + 1;
      assert MapsNext(trace, j1, root, k, offset, flags);
    }
    assert MapsNext(trace, 0, root, k, offset, flags);
  }

  lemma {:induction false} TraceMaps(trace: seq<Mem>, root: nat, k: nat, n: nat, offset: Word, flags: Word)
    requires |trace| == n + 1 && (k + n) * 4096 <= WORD
    requires MapsAll(trace, root, k, offset, flags)
    ensures MapPages(trace[0], root, k, n, offset, flags) == trace[n]
    decreases n
  {
    if n > 0 {
      var rest, k1, n1 := trace[1..], k + 1, n - 1;
      MapsTail(trace, root, k, offset, flags);
      TraceMaps(rest, root, k1, n1, offset, flags);
    }
  }

  ghost predicate MapsAll(trace: seq<Mem>, root: nat, k: nat, offset: Word, flags: Word) {
    forall j :: 0 <= j < |trace| - 1 ==> MapsNext(trace, j, root, k, offset, flags)
  }

  /** The trace ends in the present state, at the given page, with stock for the pages left.  MapsMeans opens the
      definition. */
  ghost predicate MapsHere(m: Mem, sh: Shape, root: nat, offset: Word, flags: Word, k: nat, page: nat, left: nat,
                           trace: seq<Mem>) {
    forall j: nat {:trigger MapsAt(m, sh, root, offset, flags, k, page, left, trace, j)} ::
      MapsAt(m, sh, root, offset, flags, k, page, left, trace, j)
  }

  lemma MapsMeans(m: Mem, sh: Shape, root: nat, offset: Word, flags: Word, k: nat, page: nat, left: nat, trace: seq<Mem>)
    ensures MapsHere(m, sh, root, offset, flags, k, page, left, trace)
      <==> MapsAt(m, sh, root, offset, flags, k, page, left, trace, 0)
  {
    if MapsAt(m, sh, root, offset, flags, k, page, left, trace, 0) {
      forall j: nat ensures MapsAt(m, sh, root, offset, flags, k, page, left, trace, j) {
        assert MapsAt(m, sh, root, offset, flags, k, page, left, trace, 0);
      }
    }
  }

  ghost predicate MapsAt(m: Mem, sh: Shape, root: nat, offset: Word, flags: Word, k: nat, page: nat, left: nat,
                         trace: seq<Mem>, j: nat) {
    && 0 < |trace| && page == k + |trace| - 1 && trace[|trace| - 1] == m
    && MapsAll(trace, root, k, offset, flags)
    && Stock(m, sh) >= |WithPaths(sh.Keys, PageAt(page, offset), left)|
  }

  lemma MapsStart(m: Mem, sh: Shape, root: nat, offset: Word, flags: Word, k: nat, n: nat)
    requires Stock(m, sh) >= |WithPaths(sh.Keys, PageAt(k, offset), n)|
    ensures MapsHere(m, sh, root, offset, flags, k, k, n, [m])
  {
    MapsMeans(m, sh, root, offset, flags, k, k, n, [m]);
  }

  lemma MapsEnd(m: Mem, sh: Shape, root: nat, offset: Word, flags: Word, k: nat, n: nat, page: nat, left: nat,
                trace: seq<Mem>)
    requires MapsHere(m, sh, root, offset, flags, k, page, left, trace) && left == 0 && page == k + n
    requires 0 < |trace| && (k + n) * 4096 <= WORD
    ensures MapPages(trace[0], root, k, n, offset, flags) == m
  {
    MapsMeans(m, sh, root, offset, flags, k, page, left, trace);
    TraceMaps(trace, root, k, n, offset, flags);
  }

  lemma MapsOneMore(trace: seq<Mem>, m: Mem, root: nat, k: nat, page: nat, offset: Word, flags: Word)
    requires 0 < |trace| && MapsAll(trace, root, k, offset, flags) && page == k + |trace| - 1
    requires page * 4096 < WORD
    requires m == PageTableRuns.MapPage(trace[|trace| - 1], root, page * 4096, VirtOf(page, offset), flags)
    ensures MapsAll(trace + [m], root, k, offset, flags)
  {
    forall j | 0 <= j < |trace| ensures MapsNext(trace + [m], j, root, k, offset, flags) {
      if j < |trace| - 1 { assert MapsNext(trace, j, root, k, offset, flags); }
    }
  }

  ghost predicate UnmapsNext(trace: seq<Mem>, j: nat, root: nat, k: nat)
    requires j + 1 < |trace|
  {
    (k + j) * 4096 < WORD && trace[j + 1] == PageTableRuns.UnmapPage(trace[j], root, (k + j) * 4096)
  }

  lemma UnmapsTail(trace: seq<Mem>, root: nat, k: nat)
    requires 1 < |trace| && UnmapsAll(trace, root, k)
    ensures UnmapsAll(trace[1..], root, k + 1) && UnmapsNext(trace, 0, root, k)
  {
    var rest, k1 := trace[1..], k + 1;
    forall j | 0 <= j < |rest| - 1 ensures UnmapsNext(rest, j, root, k1) {
      var j1 := j + 1;
      assert UnmapsNext(trace, j1, root, k);
    }
    assert UnmapsNext(trace, 0, root, k);
  }

  lemma {:induction false} TraceUnmaps(trace: seq<Mem>, root: nat, k: nat, n: nat)
    requires |trace| == n + 1 && (k + n) * 4096 <= WORD
    requires UnmapsAll(trace, root, k)
    ensures UnmapPages(trace[0], root, k, n) == trace[n]
    decreases n
  {
    if n > 0 {
      var rest, k1, n1 := trace[1..], k + 1, n - 1;
      UnmapsTail(trace, root, k);
      TraceUnmaps(rest, root, k1, n1);
    }
  }

  ghost predicate UnmapsAll(trace: seq<Mem>, root: nat, k: nat) {
    forall j :: 0 <= j < |trace| - 1 ==> UnmapsNext(trace, j, root, k)
  }

  /** The trace ends in the present state, at the given page, with frames for the pages left.  UnmapsMeans opens
      the definition. */
  ghost predicate UnmapsHere(m: Mem, sh: Shape, root: nat, k: nat, page: nat, left: nat, trace: seq<Mem>) {
    forall j: nat {:trigger UnmapsAt(m, sh, root, k, page, left, trace, j)} :: UnmapsAt(m, sh, root, k, page, left, trace, j)
  }

  lemma UnmapsMeans(m: Mem, sh: Shape, root: nat, k: nat, page: nat, left: nat, trace: seq<Mem>)
    ensures UnmapsHere(m, sh, root, k, page, left, trace) <==> UnmapsAt(m, sh, root, k, page, left, trace, 0)
  {
    if UnmapsAt(m, sh, root, k, page, left, trace, 0) {
      forall j: nat ensures UnmapsAt(m, sh, root, k, page, left, trace, j) {
        assert UnmapsAt(m, sh, root, k, page, left, trace, 0);
      }
    }
  }

  ghost predicate UnmapsAt(m: Mem, sh: Shape, root: nat, k: nat, page: nat, left: nat, trace: seq<Mem>, j: nat) {
    && 0 < |trace| && page == k + |trace| - 1 && trace[|trace| - 1] == m
    && UnmapsAll(trace, root, k) && |Free(m.frames)| >= Lost(sh, PageAt(page, 0), left)
  }

  lemma UnmapsStart(m: Mem, sh: Shape, root: nat, k: nat, n: nat)
    requires |Free(m.frames)| >= Lost(sh, PageAt(k, 0), n)
    ensures UnmapsHere(m, sh, root, k, k, n, [m])
  {
    UnmapsMeans(m, sh, root, k, k, n, [m]);
  }

  lemma UnmapsEnd(m: Mem, sh: Shape, root: nat, k: nat, n: nat, page: nat, left: nat, trace: seq<Mem>)
    requires UnmapsHere(m, sh, root, k, page, left, trace) && left == 0 && page == k + n
    requires 0 < |trace| && (k + n) * 4096 <= WORD
    ensures UnmapPages(trace[0], root, k, n) == m
  {
    UnmapsMeans(m, sh, root, k, page, left, trace);
    TraceUnmaps(trace, root, k, n);
  }

  lemma UnmapsOneMore(trace: seq<Mem>, m: Mem, root: nat, k: nat, page: nat)
    requires 0 < |trace| && UnmapsAll(trace, root, k) && page == k + |trace| - 1 && page * 4096 < WORD
    requires m == PageTableRuns.UnmapPage(trace[|trace| - 1], root, page * 4096)
    ensures UnmapsAll(trace + [m], root, k)
  {
    forall j | 0 <= j < |trace| ensures UnmapsNext(trace + [m], j, root, k) {
      if j < |trace| - 1 { assert UnmapsNext(trace, j, root, k); }
    }
  }

  lemma WindowPages()
    ensures PageCount(0, FOUR_GIB) == 0x10_0000 && PageCount(0, TWO_GIB) == 0x8_0000
  {
  }

  /** An entry of the memory map in the higher-half window. */
  ghost function LengthMapped(m: Mem, root: nat, length: Word): Mem {
    PageTableRanges.MapRange(m, root, 0, length, HIGHER_HALF_DATA, KERNEL_READ_WRITE)
  }

  lemma EntryAt(m: Mem, root: nat, lengths: seq<Word>, i: nat)
    requires i < |lengths|
    ensures EntriesBudget(lengths[i..]) == Budget(PageCount(0, lengths[i])) + EntriesBudget(lengths[i + 1..])
    ensures MapEntries(m, root, lengths[i..]) == MapEntries(LengthMapped(m, root, lengths[i]), root, lengths[i + 1..])
  {
    assert lengths[i..][1..] == lengths[i + 1..];
  }

  class Vmm {
    const pmm: Pmm
    var rootPageTbl: nat
    ghost var rootFrame: nat
    ghost var shape: Shape
    ghost var mem: Mem

    constructor (allocator: Pmm)
      ensures pmm == allocator
    {
      pmm := allocator;
      rootPageTbl := 0;
    }

    ghost predicate Valid()
      reads this, pmm, pmm.bitmap, pmm.bitmap.bytes, pmm.ram
    {
      && pmm.Ready() && rootPageTbl == rootFrame * 4096
      && mem == pmm.Snapshot() && Tree(mem, shape, rootFrame)
      && Avoids(shape.Values, pmm.Place())
    }

    /** vmm_get_or_create_pml. */
    method GetOrCreatePml(pml: nat, pmlIndex: nat, flags: Word) returns (next: nat)
      requires pmm.Ready() && 0 < pmm.bitmap.bytes.Length && pml / 8 + pmlIndex < pmm.ram.Length
      modifies pmm`usedPageCnt, pmm.bitmap, pmm.bitmap.bytes, pmm.ram
      ensures pmm.Ready()
      ensures (pmm.Snapshot(), next) == GetOrCreate(old(pmm.Snapshot()), pml, pmlIndex, flags)
    {
      var w := pml / 8 + pmlIndex;
      MasksRead(pmm.ram[w]);
      if And(pmm.ram[w], 1) == 0 {
        var page := pmm.AllocPagesZeroed(1);
        ghost var cleared := pmm.ram[..];
        pmm.ram[w] := Or(page, flags) % 0x1_0000_0000_0000_0000;
        assert pmm.ram[..] == Write(cleared, w, Entry(page, flags));
        MasksRead(pmm.ram[w]);
      }
      return And(pmm.ram[w], ENTRY_MASK);
    }

    /** One level down from a table in hand. */
    method GoDown(table: nat, level: nat, virt: Word, pmlIndex: nat, flags: Word, ghost sh: Shape)
        returns (next: nat, ghost sh1: Shape)
      requires pmm.Ready() && 2 <= level <= 4 && Suits(flags, Need(sh, table, level, PageOf(virt)))
      requires Tree(pmm.Snapshot(), sh, rootFrame) && Cursor(pmm.Snapshot(), sh, table, level, PageOf(virt))
      requires |Free(pmm.Frames())| >= Need(sh, table, level, PageOf(virt))
      requires pmlIndex == IndexAt(PageOf(virt), level)
      modifies pmm`usedPageCnt, pmm.bitmap, pmm.bitmap.bytes, pmm.ram
      ensures pmm.Ready()
      ensures (pmm.Snapshot(), next) == GetOrCreate(old(pmm.Snapshot()), table, pmlIndex, flags)
      ensures Tree(pmm.Snapshot(), sh1, rootFrame) && Cursor(pmm.Snapshot(), sh1, next, level - 1, PageOf(virt))
      ensures |Free(pmm.Frames())| >= Need(sh1, next, level - 1, PageOf(virt))
      ensures Suits(flags, Need(sh1, next, level - 1, PageOf(virt)))
    {
      CursorInRange(pmm.Snapshot(), sh, rootFrame, table, level, PageOf(virt), pmlIndex);
      sh1 := CursorStep(pmm.Snapshot(), sh, rootFrame, table, level, PageOf(virt), flags);
      next := GetOrCreatePml(table, pmlIndex, flags);
    }

    /** vmm_set_pt_value; the TLB flush has no model.  The tables stay a tree, and no word of the bitmap is
        written. */
    method SetPtValue(virtPage: Word, flags: Word, value: Word)
      requires Valid() && Suits(flags, Missing(shape, PageOf(virtPage)))
      requires |Free(mem.frames)| >= Missing(shape, PageOf(virtPage))
      modifies this`shape, this`mem, pmm`usedPageCnt, pmm.bitmap, pmm.bitmap.bytes, pmm.ram
      ensures Valid()
      ensures mem == PageTables.SetPtValue(old(mem), rootPageTbl, virtPage, flags, value)
      ensures EntrySet(old(mem), old(shape), mem, shape, rootFrame, PageOf(virtPage), flags, value)
      ensures PageTableSharing.Untouched(old(mem), mem, Pages(pmm.Place()))
    {
      ghost var m, sh := mem, shape;
      var pt, ptIndex := Descend(virtPage, flags);
      Store(pt, ptIndex, value);
      mem := pmm.Snapshot();
      shape := AfterSet(m, sh, rootFrame, virtPage, flags, value);
      TablesOffBitmap(m, sh, rootFrame, virtPage, flags, value, shape, pmm.Place());
    }

    method Store(pt: nat, ptIndex: nat, value: Word)
      requires pmm.Ready() && pt / 8 + ptIndex < pmm.ram.Length
      modifies pmm.ram
      ensures pmm.Ready()
      ensures pmm.Snapshot() == Mem(Write(old(pmm.ram[..]), pt / 8 + ptIndex, value), old(pmm.Frames()))
    {
      pmm.ram[pt / 8 + ptIndex] := value;
    }

    /** The walk of vmm_set_pt_value down to the level-1 table. */
    method Descend(virtPage: Word, flags: Word) returns (pt: nat, ptIndex: nat)
      requires Valid() && Suits(flags, Missing(shape, PageOf(virtPage)))
      requires |Free(mem.frames)| >= Missing(shape, PageOf(virtPage))
      modifies pmm`usedPageCnt, pmm.bitmap, pmm.bitmap.bytes, pmm.ram
      ensures pmm.Ready()
      ensures (pmm.Snapshot(), pt) == DescendAll(mem, rootPageTbl, PageOf(virtPage), flags)
      ensures ptIndex == PageOf(virtPage) % 512 && pt / 8 + ptIndex < pmm.ram.Length
    {
      IndexMeaning(virtPage);
      var pml4Index := Index(virtPage, 39);
      var pdptIndex := Index(virtPage, 30);
      var pdIndex := Index(virtPage, 21);
      ptIndex := Index(virtPage, 12);
      ghost var m, v := mem, PageOf(virtPage);
      var pdpt, sh3 := GoDown(rootPageTbl, 4, virtPage, pml4Index, flags, shape);
      ghost var m3 := pmm.Snapshot();
      var pd, sh2 := GoDown(pdpt, 3, virtPage, pdptIndex, flags, sh3);
      ghost var m2 := pmm.Snapshot();
      ghost var sh1;
      pt, sh1 := GoDown(pd, 2, virtPage, pdIndex, flags, sh2);
      CursorInRange(pmm.Snapshot(), sh1, rootFrame, pt, 1, v, v % 512);
      DescendSteps(m, m3, m2, pmm.Snapshot(), rootPageTbl, pdpt, pd, pt, v, flags);
    }

    method MapPage(physPage: Word, virtPage: Word, flags: Word)
      requires Valid() && Suits(flags, Missing(shape, PageOf(virtPage)))
      requires |Free(mem.frames)| >= Missing(shape, PageOf(virtPage))
      modifies this`shape, this`mem, pmm`usedPageCnt, pmm.bitmap, pmm.bitmap.bytes, pmm.ram
      ensures Valid()
      ensures mem == PageTableRuns.MapPage(old(mem), rootPageTbl, physPage, virtPage, flags)
      ensures EntrySet(old(mem), old(shape), mem, shape, rootFrame, PageOf(virtPage), flags, Entry(physPage, flags))
    {
      AlignedPage(virtPage);
      AlignDownIsMask(virtPage);
      var ptValue := Or(physPage, flags) % 0x1_0000_0000_0000_0000;
      SetPtValue(And(virtPage, PAGE_MASK), flags, ptValue);
    }

    method UnmapPage(virtPage: Word)
      requires Valid()
      requires |Free(mem.frames)| >= Missing(shape, PageOf(virtPage))
      modifies this`shape, this`mem, pmm`usedPageCnt, pmm.bitmap, pmm.bitmap.bytes, pmm.ram
      ensures Valid() && shape == old(shape)
      ensures mem == PageTableRuns.UnmapPage(old(mem), rootPageTbl, virtPage)
      ensures EntrySet(old(mem), old(shape), mem, shape, rootFrame, PageOf(virtPage), 0, 0)
    {
      AlignedPage(virtPage);
      AlignDownIsMask(virtPage);
      SetPtValue(And(virtPage, PAGE_MASK), 0, 0);
    }

    /** One round of vmm_map_range, once the virtual address is known. */
    method MapAt(i: Word, virt: Word, flags: Word, ghost p: nat, ghost left: nat)
      requires Valid() && Privilege(flags) && p < PAGES && 0 < left && PageOf(virt) == p
      requires Stock(mem, shape) >= |WithPaths(shape.Keys, p, left)|
      modifies this`shape, this`mem, pmm`usedPageCnt, pmm.bitmap, pmm.bitmap.bytes, pmm.ram
      ensures Valid() && mem == PageTableRuns.MapPage(old(mem), rootPageTbl, i, virt, flags)
      ensures Stock(mem, shape) >= |WithPaths(shape.Keys, NextPage(p), left - 1)|
    {
      ghost var m, sh := mem, shape;
      StockForPage(mem, shape, p, left);
      MapPage(i, virt, flags);
      StockForRest(m, sh, mem, shape, rootFrame, p, left, flags, Entry(i, flags));
    }

    /** One round of vmm_map_range. */
    method MapRound(i: Word, offset: Word, flags: Word, ghost k: nat, ghost page: nat, ghost left: nat,
                    ghost trace: seq<Mem>)
        returns (ghost trace': seq<Mem>)
      requires Valid() && Privilege(flags) && i == page * 4096 && 0 < left <= PAGES
      requires 0 < |trace| && MapsHere(mem, shape, rootPageTbl, offset, flags, k, page, left, trace)
      modifies this`shape, this`mem, pmm`usedPageCnt, pmm.bitmap, pmm.bitmap.bytes, pmm.ram
      ensures Valid()
      ensures MapsHere(mem, shape, rootPageTbl, offset, flags, k, page + 1, left - 1, trace')
      ensures 0 < |trace'| && trace'[0] == trace[0]
    {
      MapsMeans(mem, shape, rootPageTbl, offset, flags, k, page, left, trace);
      var virt := (i + offset) % 0x1_0000_0000_0000_0000;
      PageOfVirt(page, offset);
      PageAfter(page, offset);
      assert virt == VirtOf(page, offset);
      MapAt(i, virt, flags, PageAt(page, offset), left);
      MapsOneMore(trace, mem, rootPageTbl, k, page, offset, flags);
      trace' := trace + [mem];
      MapsMeans(mem, shape, rootPageTbl, offset, flags, k, page + 1, left - 1, trace');
    }

    /** The loop of vmm_map_range, over n pages. */
    method MapLoop(first: Word, last: Word, offset: Word, flags: Word, ghost k: nat, ghost n: nat)
      requires Valid() && Privilege(flags) && first == k * 4096 && (k + n) * 4096 <= WORD && n <= PAGES
      requires if first < last then last == (k + n) * 4096 else n == 0
      requires Stock(mem, shape) >= |WithPaths(shape.Keys, PageAt(k, offset), n)|
      modifies this`shape, this`mem, pmm`usedPageCnt, pmm.bitmap, pmm.bitmap.bytes, pmm.ram
      ensures Valid()
      ensures mem == MapPages(old(mem), rootPageTbl, k, n, offset, flags)
    {
      ghost var trace := [mem];
      var i: nat := first;
      ghost var page: nat, left: nat := k, n;
      MapsStart(mem, shape, rootPageTbl, offset, flags, k, n);
      while i < last
        invariant Valid() && Progress(i, last, page, left, k, n)
        invariant MapsHere(mem, shape, rootPageTbl, offset, flags, k, page, left, trace)
        invariant 0 < |trace| && trace[0] == old(mem)
      {
        ProgressNext(i, last, page, left, k, n);
        trace := MapRound(i, offset, flags, k, page, left, trace);
        i := i + 4096;
        page, left := page + 1, left - 1;
      }
      MapsEnd(mem, shape, rootPageTbl, offset, flags, k, n, page, left, trace);
    }

    /** vmm_map_range, with a frame for every table that the pages of the range will need. */
    method MapRange(start: Word, end: Word, offset: Word, flags: Word)
      requires Valid() && Privilege(flags) && PageCount(start, end) <= PAGES
      requires Stock(mem, shape) >= |WithPaths(shape.Keys, PageAt(FirstPage(start), offset), PageCount(start, end))|
      modifies this`shape, this`mem, pmm`usedPageCnt, pmm.bitmap, pmm.bitmap.bytes, pmm.ram
      ensures Valid()
      ensures mem == PageTableRanges.MapRange(old(mem), rootPageTbl, start, end, offset, flags)
      ensures RangeDone(old(mem), old(shape), mem, shape, rootFrame, PageAt(FirstPage(start), offset),
                        PageCount(start, end), FirstPage(start) * 4096, flags, None)
    {
      ghost var m, sh := mem, shape;
      RangeEnds(start, end);
      RangePages(start, end);
      MapLoop(And(start, PAGE_MASK), And((end + 4095) % 0x1_0000_0000_0000_0000, PAGE_MASK), offset, flags,
              FirstPage(start), PageCount(start, end));
      ghost var made := shape;
      shape := MapPagesMeaning(m, sh, rootFrame, FirstPage(start), PageCount(start, end), offset, flags,
                               PageAt(FirstPage(start), offset), None);
      PageTableSharing.TreesAgree(mem, made, shape, rootFrame);
    }

    /** One round of vmm_unmap_range. */
    method UnmapRound(i: Word, ghost k: nat, ghost page: nat, ghost left: nat, ghost trace: seq<Mem>)
        returns (ghost trace': seq<Mem>)
      requires Valid() && i == page * 4096 && 0 < left <= PAGES
      requires 0 < |trace| && UnmapsHere(mem, shape, rootPageTbl, k, page, left, trace)
      modifies this`shape, this`mem, pmm`usedPageCnt, pmm.bitmap, pmm.bitmap.bytes, pmm.ram
      ensures Valid() && shape == old(shape)
      ensures UnmapsHere(mem, shape, rootPageTbl, k, page + 1, left - 1, trace')
      ensures 0 < |trace'| && trace'[0] == trace[0]
    {
      UnmapsMeans(mem, shape, rootPageTbl, k, page, left, trace);
      PageAfter(page, 0);
      UnmapPage(i);
      UnmapsOneMore(trace, mem, rootPageTbl, k, page);
      trace' := trace + [mem];
      UnmapsMeans(mem, shape, rootPageTbl, k, page + 1, left - 1, trace');
    }

    method UnmapLoop(first: Word, last: Word, ghost k: nat, ghost n: nat)
      requires Valid() && first == k * 4096 && (k + n) * 4096 <= WORD && n <= PAGES
      requires if first < last then last == (k + n) * 4096 else n == 0
      requires |Free(mem.frames)| >= Lost(shape, PageAt(k, 0), n)
      modifies this`shape, this`mem, pmm`usedPageCnt, pmm.bitmap, pmm.bitmap.bytes, pmm.ram
      ensures Valid() && shape == old(shape)
      ensures mem == UnmapPages(old(mem), rootPageTbl, k, n)
    {
      ghost var trace := [mem];
      var i: nat := first;
      ghost var page: nat, left: nat := k, n;
      UnmapsStart(mem, shape, rootPageTbl, k, n);
      while i < last
        invariant Valid() && shape == old(shape) && Progress(i, last, page, left, k, n)
        invariant UnmapsHere(mem, shape, rootPageTbl, k, page, left, trace)
        invariant 0 < |trace| && trace[0] == old(mem)
      {
        ProgressNext(i, last, page, left, k, n);
        trace := UnmapRound(i, k, page, left, trace);
        i := i + 4096;
        page, left := page + 1, left - 1;
      }
      UnmapsEnd(mem, shape, rootPageTbl, k, n, page, left, trace);
    }

    /** vmm_unmap_range: it loses a frame for every missing table, at each page. */
    method UnmapRange(start: Word, end: Word)
      requires Valid() && PageCount(start, end) <= PAGES
      requires |Free(mem.frames)| >= Lost(shape, PageAt(FirstPage(start), 0), PageCount(start, end))
      modifies this`shape, this`mem, pmm`usedPageCnt, pmm.bitmap, pmm.bitmap.bytes, pmm.ram
      ensures Valid() && shape == old(shape)
      ensures mem == PageTableRanges.UnmapRange(old(mem), rootPageTbl, start, end)
      ensures RangeUnmapped(old(mem.ram), mem.ram, shape, PageAt(FirstPage(start), 0), PageCount(start, end))
      ensures |Free(mem.frames)| + Lost(shape, PageAt(FirstPage(start), 0), PageCount(start, end)) ==
        |Free(old(mem.frames))|
    {
      ghost var m := mem;
      RangeEnds(start, end);
      RangePages(start, end);
      UnmapLoop(And(start, PAGE_MASK), And((end + 4095) % 0x1_0000_0000_0000_0000, PAGE_MASK),
                FirstPage(start), PageCount(start, end));
      UnmapPagesLoses(m, shape, rootFrame, FirstPage(start), PageCount(start, end), PageAt(FirstPage(start), 0));
    }

    /** vmm_init, given the lengths of the entries of the memory map. */
    method Init(lengths: seq<Word>)
      requires pmm.Ready() && 0 < pmm.bitmap.bytes.Length && MemoryOk(pmm.Snapshot())
      requires |Free(pmm.Frames())| >= InitBudget(lengths)
      requires forall i :: 0 <= i < |lengths| ==> PageCount(0, lengths[i]) <= PAGES
      modifies this, pmm`usedPageCnt, pmm.bitmap, pmm.bitmap.bytes, pmm.ram
      ensures Valid()
      ensures (mem, rootPageTbl) == InitTables(old(pmm.Snapshot()), lengths)
      ensures |Free(mem.frames)| + InitBudget(lengths) >= |Free(old(pmm.Frames()))|
    {
      InitRoot();
      MapKernelWindows();
      MapEntryLoop(lengths);
    }

    method InitRoot()
      requires pmm.Ready() && 0 < pmm.bitmap.bytes.Length && MemoryOk(pmm.Snapshot())
      requires 0 < |Free(pmm.Frames())|
      modifies this, pmm`usedPageCnt, pmm.bitmap, pmm.bitmap.bytes, pmm.ram
      ensures Valid()
      ensures (mem, rootPageTbl) == AllocZeroed(old(pmm.Snapshot()), 1)
      ensures |Free(mem.frames)| == |Free(old(pmm.Frames()))| - 1
    {
      ghost var sh := RootMade(pmm.Snapshot(), pmm.Place());
      rootPageTbl := pmm.AllocPagesZeroed(1);
      mem := pmm.Snapshot();
      rootFrame, shape := rootPageTbl / 4096, sh;
    }

    method MapKernelWindows()
      requires Valid() && |Free(mem.frames)| >= 3 * Budget(0x10_0000) + Budget(0x8_0000)
      modifies this`shape, this`mem, pmm`usedPageCnt, pmm.bitmap, pmm.bitmap.bytes, pmm.ram
      ensures Valid() && mem == MapWindows(old(mem), rootPageTbl)
      ensures |Free(mem.frames)| + 3 * Budget(0x10_0000) + Budget(0x8_0000) >= |Free(old(mem.frames))|
    {
      WindowPages();
      KernelFlags();
      MapWithin(0, FOUR_GIB, 0, KERNEL_READ_WRITE);
      MapWithin(0, FOUR_GIB, HIGHER_HALF_DATA, KERNEL_READ_WRITE);
      MapWithin(0, FOUR_GIB, HEAP_START, KERNEL_READ_WRITE);
      MapWithin(0, TWO_GIB, HIGHER_HALF_CODE, KERNEL_READ);
    }

    method MapEntryLoop(lengths: seq<Word>)
      requires Valid() && |Free(mem.frames)| >= EntriesBudget(lengths)
      requires forall i :: 0 <= i < |lengths| ==> PageCount(0, lengths[i]) <= PAGES
      modifies this`shape, this`mem, pmm`usedPageCnt, pmm.bitmap, pmm.bitmap.bytes, pmm.ram
      ensures Valid() && mem == MapEntries(old(mem), rootPageTbl, lengths)
      ensures |Free(mem.frames)| + EntriesBudget(lengths) >= |Free(old(mem.frames))|
    {
      var i := 0;
      while i < |lengths|
        invariant 0 <= i <= |lengths| && Valid()
        invariant |Free(mem.frames)| >= EntriesBudget(lengths[i..])
        invariant |Free(mem.frames)| + EntriesBudget(lengths) >= |Free(old(mem.frames))| + EntriesBudget(lengths[i..])
        invariant MapEntries(mem, rootPageTbl, lengths[i..]) == MapEntries(old(mem), rootPageTbl, lengths)
      {
        MapEntry(lengths, i);
        i := i + 1;
      }
    }

    method MapEntry(lengths: seq<Word>, i: nat)
      requires Valid() && i < |lengths| && PageCount(0, lengths[i]) <= PAGES
      requires |Free(mem.frames)| >= EntriesBudget(lengths[i..])
      modifies this`shape, this`mem, pmm`usedPageCnt, pmm.bitmap, pmm.bitmap.bytes, pmm.ram
      ensures Valid() && |Free(mem.frames)| >= EntriesBudget(lengths[i + 1..])
      ensures |Free(mem.frames)| + EntriesBudget(lengths[i..]) >= |Free(old(mem.frames))| + EntriesBudget(lengths[i + 1..])
      ensures MapEntries(mem, rootPageTbl, lengths[i + 1..]) == MapEntries(old(mem), rootPageTbl, lengths[i..])
    {
      EntryAt(mem, rootPageTbl, lengths, i);
      MapLength(lengths[i]);
    }

    method MapLength(length: Word)
      requires Valid() && PageCount(0, length) <= PAGES && |Free(mem.frames)| >= Budget(PageCount(0, length))
      modifies this`shape, this`mem, pmm`usedPageCnt, pmm.bitmap, pmm.bitmap.bytes, pmm.ram
      ensures Valid() && |Free(mem.frames)| + Budget(PageCount(0, length)) >= |Free(old(mem.frames))|
      ensures mem == LengthMapped(old(mem), rootPageTbl, length)
    {
      KernelFlags();
      MapWithin(0, length, HIGHER_HALF_DATA, KERNEL_READ_WRITE);
    }

    /** vmm_map_range, as vmm_init uses it. */
    method MapWithin(start: Word, end: Word, offset: Word, flags: Word)
      requires Valid() && Privilege(flags) && PageCount(start, end) <= PAGES
      requires |Free(mem.frames)| >= Budget(PageCount(start, end))
      modifies this`shape, this`mem, pmm`usedPageCnt, pmm.bitmap, pmm.bitmap.bytes, pmm.ram
      ensures Valid()
      ensures mem == PageTableRanges.MapRange(old(mem), rootPageTbl, start, end, offset, flags)
      ensures |Free(mem.frames)| + Budget(PageCount(start, end)) >= |Free(old(mem.frames))|
    {
      PathsWithinBudget(shape.Keys, PageAt(FirstPage(start), offset), PageCount(start, end));
      MapRange(start, end, offset, flags);
    }

    /** The rest of the kernel has used the frame allocator and its own pages: see PageTableSharing. */
    ghost method Resume()
      requires pmm.Ready() && rootPageTbl == rootFrame * 4096 && Tree(pmm.Snapshot(), shape, rootFrame)
      requires Avoids(shape.Values, pmm.Place())
      modifies this`mem
      ensures Valid() && mem == pmm.Snapshot()
    {
      mem := pmm.Snapshot();
    }
  }
}
