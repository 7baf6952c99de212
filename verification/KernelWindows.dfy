/** The address space vmm_init builds (fckrnl/mm/virt.c, fckrnl/mm/mm.h). */
module KernelWindows {
  import opened Bits
  import opened Frames
  import opened Memory
  import opened PageTables
  import opened PageTableUpdates
  import opened PageTableRuns
  import PageTableLimits
  import opened PageTableRanges
  import opened PageTableBudget
  import opened PageTableInit

  const HIGHER_HALF_DATA: Word := 0xFFFF_8000_0000_0000
  const HIGHER_HALF_CODE: Word := 0xFFFF_FFFF_8000_0000
  const HEAP_START: Word := 0xFFFF_9000_0000_0000
  const FOUR_GIB: Word := 0x1_0000_0000
  const TWO_GIB: Word := 0x8000_0000

  const KERNEL_READ: Word := 1
  const KERNEL_READ_WRITE: Word := 3

  /** The loop over the memory map: each entry's length is mapped from frame 0 on. */
  ghost function MapEntries(m: Mem, root: nat, lengths: seq<Word>): Mem
    decreases |lengths|
  {
    if lengths == [] then m
    else MapEntries(MapRange(m, root, 0, lengths[0], HIGHER_HALF_DATA, KERNEL_READ_WRITE), root, lengths[1..])
  }

  /** vmm_init: memory, and the physical address of the root table. */
  ghost function InitTables(m: Mem, lengths: seq<Word>): (Mem, nat) {
    var (m0, root) := AllocZeroed(m, 1);
    (MapEntries(MapWindows(m0, root), root, lengths), root)
  }

  ghost function MapWindows(m: Mem, root: nat): Mem {
    var m1 := MapRange(m, root, 0, FOUR_GIB, 0, KERNEL_READ_WRITE);
    var m2 := MapRange(m1, root, 0, FOUR_GIB, HIGHER_HALF_DATA, KERNEL_READ_WRITE);
    var m3 := MapRange(m2, root, 0, FOUR_GIB, HEAP_START, KERNEL_READ_WRITE);
    MapRange(m3, root, 0, TWO_GIB, HIGHER_HALF_CODE, KERNEL_READ)
  }

  // ----- the windows, in pages

  const DATA_PAGE: nat := 0x8_0000_0000
  const HEAP_PAGE: nat := 0x9_0000_0000
  const CODE_PAGE: nat := 0xF_FFF8_0000

  /** 16 TiB in pages: the distance from the data window to the heap. */
  const DATA_LIMIT: nat := 0x1_0000_0000

  /** The entry of page u when the data window has w pages. */
  function InitView(u: nat, w: nat): nat {
    if CODE_PAGE <= u < CODE_PAGE + 0x8_0000 then (u - CODE_PAGE) * 4096 + 1
    else if HEAP_PAGE <= u < HEAP_PAGE + 0x10_0000 then (u - HEAP_PAGE) * 4096 + 3
    else if DATA_PAGE <= u < DATA_PAGE + w then (u - DATA_PAGE) * 4096 + 3
    else if u < 0x10_0000 then u * 4096 + 3
    else 0
  }

  function InitRights(slot: nat): Word {
    if slot == 511 then KERNEL_READ else KERNEL_READ_WRITE
  }

  const RIGHTS: Rights := Some(InitRights)

  lemma WindowsView(u: nat)
    requires u < PAGES
    ensures InitView(u, 0x10_0000) ==
      RangeEntry(u, CODE_PAGE, 0x8_0000, 0, 1, RangeEntry(u, HEAP_PAGE, 0x10_0000, 0, 3,
        RangeEntry(u, DATA_PAGE, 0x10_0000, 0, 3, RangeEntry(u, 0, 0x10_0000, 0, 3, 0))))
  {
  }

  lemma DataWindowGrows(u: nat, w: nat, n: nat)
    requires u < PAGES && w <= DATA_LIMIT && n <= DATA_LIMIT
    ensures RangeEntry(u, DATA_PAGE, n, 0, 3, InitView(u, w)) == InitView(u, if n > w then n else w)
  {
  }

  lemma WindowRights(n: nat)
    requires n <= DATA_LIMIT
    ensures RangeRights(0, 0x10_0000, KERNEL_READ_WRITE, RIGHTS)
    ensures RangeRights(DATA_PAGE, n, KERNEL_READ_WRITE, RIGHTS)
    ensures RangeRights(HEAP_PAGE, 0x10_0000, KERNEL_READ_WRITE, RIGHTS)
    ensures RangeRights(CODE_PAGE, 0x8_0000, KERNEL_READ, RIGHTS)
  {
  }

  // ----- the root

  lemma RootTree(m: Mem) returns (sh: Shape)
    requires MemoryOk(m) && Free(m.frames) != {}
    ensures var (m0, root) := AllocZeroed(m, 1);
      && root == root / 4096 * 4096 && Tree(m0, sh, root / 4096)
      && Uniform(m0.ram, sh, RIGHTS) && (forall u: nat :: Lookup(m0.ram, sh, u) == 0)
      && |Free(m0.frames)| == |Free(m.frames)| - 1
      && sh == map[ROOT := root / 4096] && root / 4096 !in m.frames.used
  {
    AllocOnePage(m.frames);
    var (m0, a) := AllocZeroed(m, 1);
    var f := a / 4096;
    sh := map[ROOT := f];
    BlankTable(m.ram, f);
    forall n | n in sh ensures NodeOk(m0, sh, n) {}
    forall n, n' | n in sh && n' in sh ensures OwnFrame(sh, n, n') {}
    forall n, i | n in sh && n.level >= 2 && 0 <= i < 512 ensures LinkOk(m0.ram, sh, n, i) {
      assert Cell(m0.ram, f, i) == 0;
    }
  }

  /** Right after the root is made, a page mapped with bit 7 among its flags is not found: the entries of its
      upper tables carry that bit too. */
  lemma Bit7HidesPage(m: Mem, phys: Word, virt: Word, flags: Word)
    requires MemoryOk(m) && |Free(m.frames)| >= 4 && flags < 512 && Present(flags) && PageSize(flags)
    ensures var (m0, root) := AllocZeroed(m, 1);
      Translate(MapPage(m0, root, phys, virt, flags).ram, root, PageOf(virt)) != HitOf(Entry(phys, flags))
  {
    var sh := RootTree(m);
    var (m0, root) := AllocZeroed(m, 1);
    var v := PageOf(virt);
    assert PathNode(v, 4) == ROOT;
    MissingTablesAreMissing(m0, sh, root / 4096, TOP_LEVEL, v);
    AllMissing(sh, v);
    PageTableLimits.PlainFlagsExactly(m0, sh, root / 4096, phys, virt, flags);
  }

  lemma AllMissing(sh: Shape, v: nat)
    requires sh.Keys == {ROOT}
    ensures Missing(sh, v) == 3
  {
    assert PathNode(v, 3) !in sh && PathNode(v, 2) !in sh && PathNode(v, 1) !in sh;
    assert MissingBelow(sh, v, 2) == 1;
    assert MissingBelow(sh, v, 3) == 2;
  }

  lemma BlankTable(ram: seq<Word>, f: nat)
    ensures Blank(Zeroed(ram, f, 1), f)
  {
    forall i | 0 <= i < 512 ensures Cell(Zeroed(ram, f, 1), f, i) == 0 { CellOfZeroed(ram, f, f, i); }
  }

  // ----- the whole of vmm_init

  ghost predicate Shows(ram: seq<Word>, sh: Shape, w: nat) {
    forall u: nat {:trigger Lookup(ram, sh, u)} :: u < PAGES ==> Lookup(ram, sh, u) == InitView(u, w)
  }

  function Widest(w: nat, lengths: seq<Word>): nat
    decreases |lengths|
  {
    if lengths == [] then w
    else Widest(if PageCount(0, lengths[0]) > w then PageCount(0, lengths[0]) else w, lengths[1..])
  }

  function EntriesBudget(lengths: seq<Word>): nat
    decreases |lengths|
  {
    if lengths == [] then 0 else Budget(PageCount(0, lengths[0])) + EntriesBudget(lengths[1..])
  }

  /** Frames vmm_init takes at most: the root, four windows, the entries of the memory map. */
  function InitBudget(lengths: seq<Word>): nat {
    1 + 3 * Budget(0x10_0000) + Budget(0x8_0000) + EntriesBudget(lengths)
  }

  /** The tables are in order, with rights as in InitRights. */
  ghost predicate InOrder(m: Mem, sh: Shape, root: nat) {
    Tree(m, sh, root) && Uniform(m.ram, sh, RIGHTS)
  }

  /** One window: n pages from frame 0 on, at page p. */
  lemma MapWindow(m: Mem, sh: Shape, root: nat, start: Word, end: Word, offset: Word, flags: Word, p: nat, n: nat)
      returns (m': Mem, sh': Shape)
    requires InOrder(m, sh, root) && Privilege(flags) && start == 0
    requires p == offset / 4096 % 0x10_0000_0000 && RangeRights(p, n, flags, RIGHTS)
    requires n == (end + 4095) / 4096 <= PAGES && end + 4096 <= WORD
    requires |Free(m.frames)| >= Budget(n)
    ensures m' == MapRange(m, root * 4096, start, end, offset, flags)
    ensures InOrder(m', sh', root) && RangeMapped(m, sh, m', sh', p, n, 0, flags)
    ensures |Free(m'.frames)| + Budget(n) >= |Free(m.frames)|
  {
    assert FirstPage(start) == 0 && PageCount(start, end) == n && PageAt(FirstPage(start), offset) == p;
    m' := MapRange(m, root * 4096, start, end, offset, flags);
    sh' := MapRangeMeaning(m, sh, root, start, end, offset, flags, RIGHTS);
  }

  lemma IdentityWindow(m: Mem, sh: Shape, root: nat) returns (m': Mem, sh': Shape)
    requires InOrder(m, sh, root) && |Free(m.frames)| >= Budget(0x10_0000)
    ensures m' == MapRange(m, root * 4096, 0, FOUR_GIB, 0, KERNEL_READ_WRITE) && InOrder(m', sh', root)
    ensures RangeMapped(m, sh, m', sh', 0, 0x10_0000, 0, KERNEL_READ_WRITE)
    ensures |Free(m'.frames)| + Budget(0x10_0000) >= |Free(m.frames)|
  {
    WindowRights(0x10_0000);
    m', sh' := MapWindow(m, sh, root, 0, FOUR_GIB, 0, KERNEL_READ_WRITE, 0, 0x10_0000);
  }

  lemma DataWindow(m: Mem, sh: Shape, root: nat) returns (m': Mem, sh': Shape)
    requires InOrder(m, sh, root) && |Free(m.frames)| >= Budget(0x10_0000)
    ensures m' == MapRange(m, root * 4096, 0, FOUR_GIB, HIGHER_HALF_DATA, KERNEL_READ_WRITE) && InOrder(m', sh', root)
    ensures RangeMapped(m, sh, m', sh', DATA_PAGE, 0x10_0000, 0, KERNEL_READ_WRITE)
    ensures |Free(m'.frames)| + Budget(0x10_0000) >= |Free(m.frames)|
  {
    WindowRights(0x10_0000);
    m', sh' := MapWindow(m, sh, root, 0, FOUR_GIB, HIGHER_HALF_DATA, KERNEL_READ_WRITE, DATA_PAGE, 0x10_0000);
  }

  lemma HeapWindowMapped(m: Mem, sh: Shape, root: nat) returns (m': Mem, sh': Shape)
    requires InOrder(m, sh, root) && |Free(m.frames)| >= Budget(0x10_0000)
    ensures m' == MapRange(m, root * 4096, 0, FOUR_GIB, HEAP_START, KERNEL_READ_WRITE) && InOrder(m', sh', root)
    ensures RangeMapped(m, sh, m', sh', HEAP_PAGE, 0x10_0000, 0, KERNEL_READ_WRITE)
    ensures |Free(m'.frames)| + Budget(0x10_0000) >= |Free(m.frames)|
  {
    WindowRights(0x10_0000);
    m', sh' := MapWindow(m, sh, root, 0, FOUR_GIB, HEAP_START, KERNEL_READ_WRITE, HEAP_PAGE, 0x10_0000);
  }

  lemma CodeWindow(m: Mem, sh: Shape, root: nat) returns (m': Mem, sh': Shape)
    requires InOrder(m, sh, root) && |Free(m.frames)| >= Budget(0x8_0000)
    ensures m' == MapRange(m, root * 4096, 0, TWO_GIB, HIGHER_HALF_CODE, KERNEL_READ) && InOrder(m', sh', root)
    ensures RangeMapped(m, sh, m', sh', CODE_PAGE, 0x8_0000, 0, KERNEL_READ)
    ensures |Free(m'.frames)| + Budget(0x8_0000) >= |Free(m.frames)|
  {
    WindowRights(0x10_0000);
    m', sh' := MapWindow(m, sh, root, 0, TWO_GIB, HIGHER_HALF_CODE, KERNEL_READ, CODE_PAGE, 0x8_0000);
  }

  lemma WindowsMeaning(m: Mem, sh: Shape, root: nat) returns (m': Mem, sh': Shape)
    requires InOrder(m, sh, root) && forall u: nat :: Lookup(m.ram, sh, u) == 0
    requires |Free(m.frames)| >= 3 * Budget(0x10_0000) + Budget(0x8_0000)
    ensures m' == MapWindows(m, root * 4096)
    ensures InOrder(m', sh', root) && Shows(m'.ram, sh', 0x10_0000)
    ensures |Free(m'.frames)| + 3 * Budget(0x10_0000) + Budget(0x8_0000) >= |Free(m.frames)|
  {
    var m1, sh1 := IdentityWindow(m, sh, root);
    var m2, sh2 := DataWindow(m1, sh1, root);
    var m3, sh3 := HeapWindowMapped(m2, sh2, root);
    m', sh' := CodeWindow(m3, sh3, root);
    WindowsShow(m, sh, m1, sh1, m2, sh2, m3, sh3, m', sh');
  }

  lemma WindowsShow(m: Mem, sh: Shape, m1: Mem, sh1: Shape, m2: Mem, sh2: Shape, m3: Mem, sh3: Shape, m': Mem, sh': Shape)
    requires forall u: nat :: Lookup(m.ram, sh, u) == 0
    requires RangeMapped(m, sh, m1, sh1, 0, 0x10_0000, 0, KERNEL_READ_WRITE)
    requires RangeMapped(m1, sh1, m2, sh2, DATA_PAGE, 0x10_0000, 0, KERNEL_READ_WRITE)
    requires RangeMapped(m2, sh2, m3, sh3, HEAP_PAGE, 0x10_0000, 0, KERNEL_READ_WRITE)
    requires RangeMapped(m3, sh3, m', sh', CODE_PAGE, 0x8_0000, 0, KERNEL_READ)
    ensures Shows(m'.ram, sh', 0x10_0000)
  {
    forall u: nat | u < PAGES ensures Lookup(m'.ram, sh', u) == InitView(u, 0x10_0000) {
      WindowsView(u);
      assert Lookup(m'.ram, sh', u) == RangeEntry(u, CODE_PAGE, 0x8_0000, 0, 1, Lookup(m3.ram, sh3, u));
      assert Lookup(m3.ram, sh3, u) == RangeEntry(u, HEAP_PAGE, 0x10_0000, 0, 3, Lookup(m2.ram, sh2, u));
      assert Lookup(m2.ram, sh2, u) == RangeEntry(u, DATA_PAGE, 0x10_0000, 0, 3, Lookup(m1.ram, sh1, u));
      assert Lookup(m1.ram, sh1, u) == RangeEntry(u, 0, 0x10_0000, 0, 3, Lookup(m.ram, sh, u));
    }
  }

  lemma KernelFlags()
    ensures Privilege(KERNEL_READ_WRITE) && Privilege(KERNEL_READ)
  {
  }

  predicate EntriesOk(lengths: seq<Word>) {
    forall i :: 0 <= i < |lengths| ==> lengths[i] <= 0x1000_0000_0000
  }

  lemma {:induction false} EntriesMeaning(m: Mem, sh: Shape, root: nat, lengths: seq<Word>, w: nat)
      returns (m': Mem, sh': Shape)
    requires InOrder(m, sh, root) && Shows(m.ram, sh, w) && w <= DATA_LIMIT && EntriesOk(lengths)
    requires |Free(m.frames)| >= EntriesBudget(lengths)
    ensures m' == MapEntries(m, root * 4096, lengths)
    ensures InOrder(m', sh', root) && Shows(m'.ram, sh', Widest(w, lengths)) && Widest(w, lengths) <= DATA_LIMIT
    decreases |lengths|
  {
    m', sh' := m, sh;
    if lengths != [] {
      var m1, sh1, w1 := EntryMeaning(m, sh, root, lengths[0], w);
      m', sh' := EntriesMeaning(m1, sh1, root, lengths[1..], w1);
    }
  }

  lemma EntryMeaning(m: Mem, sh: Shape, root: nat, length: Word, w: nat) returns (m1: Mem, sh1: Shape, w1: nat)
    requires InOrder(m, sh, root) && Shows(m.ram, sh, w) && w <= DATA_LIMIT
    requires length <= 0x1000_0000_0000 && |Free(m.frames)| >= Budget(PageCount(0, length))
    ensures m1 == MapRange(m, root * 4096, 0, length, HIGHER_HALF_DATA, KERNEL_READ_WRITE)
    ensures w1 == (if PageCount(0, length) > w then PageCount(0, length) else w) && w1 <= DATA_LIMIT
    ensures InOrder(m1, sh1, root) && Shows(m1.ram, sh1, w1)
    ensures |Free(m1.frames)| + Budget(PageCount(0, length)) >= |Free(m.frames)|
  {
    var n := PageCount(0, length);
    EntryPages(length);
    WindowRights(n);
    KernelFlags();
    m1, sh1 := MapWindow(m, sh, root, 0, length, HIGHER_HALF_DATA, KERNEL_READ_WRITE, DATA_PAGE, n);
    w1 := if n > w then n else w;
    EntryShows(m, sh, m1, sh1, n, w);
  }

  lemma EntryShows(m: Mem, sh: Shape, m1: Mem, sh1: Shape, n: nat, w: nat)
    requires Shows(m.ram, sh, w) && w <= DATA_LIMIT && n <= DATA_LIMIT
    requires RangeMapped(m, sh, m1, sh1, DATA_PAGE, n, 0, KERNEL_READ_WRITE)
    ensures Shows(m1.ram, sh1, if n > w then n else w)
  {
    forall u: nat | u < PAGES ensures Lookup(m1.ram, sh1, u) == InitView(u, if n > w then n else w) {
      assert Lookup(m1.ram, sh1, u) == RangeEntry(u, DATA_PAGE, n, 0, 3, Lookup(m.ram, sh, u));
      DataWindowGrows(u, w, n);
    }
  }

  lemma EntryPages(length: Word)
    requires length <= 0x1000_0000_0000
    ensures PageCount(0, length) == (length + 4095) / 4096 <= DATA_LIMIT
  {
  }

  lemma InitTree(m: Mem, lengths: seq<Word>) returns (m': Mem, sh': Shape, f: nat)
    requires MemoryOk(m) && |Free(m.frames)| >= InitBudget(lengths) && EntriesOk(lengths)
    ensures InitTables(m, lengths) == (m', f * 4096)
    ensures InOrder(m', sh', f) && Shows(m'.ram, sh', Widest(0x10_0000, lengths))
    ensures Widest(0x10_0000, lengths) <= DATA_LIMIT
  {
    var m0, root := AllocZeroed(m, 1).0, AllocZeroed(m, 1).1;
    var sh0 := RootTree(m);
    f := root / 4096;
    var m1, sh1 := WindowsMeaning(m0, sh0, f);
    m', sh' := EntriesMeaning(m1, sh1, f, lengths, 0x10_0000);
  }

  /** After vmm_init, for every memory map with entries of at most 16 TiB, every address of the identity,
      data, heap and code windows translates to the physical page at its offset, and nothing else
      translates. */
  lemma InitTranslates(m: Mem, lengths: seq<Word>, u: nat)
    requires MemoryOk(m) && |Free(m.frames)| >= InitBudget(lengths) && EntriesOk(lengths) && u < PAGES
    ensures var (m', root) := InitTables(m, lengths);
      Translate(m'.ram, root, u) == HitOf(InitView(u, Widest(0x10_0000, lengths)))
  {
    var m', sh', f := InitTree(m, lengths);
    TranslateIsLookup(m', sh', f, u);
  }

  /** ... and the rights that all four levels grant together are those of the leaf entry. */
  lemma InitGrants(m: Mem, lengths: seq<Word>, u: nat, b: nat)
    requires MemoryOk(m) && |Free(m.frames)| >= InitBudget(lengths) && EntriesOk(lengths) && u < PAGES
    requires InitView(u, Widest(0x10_0000, lengths)) != 0
    ensures var (m', root) := InitTables(m, lengths);
      Granted(m'.ram, root, TOP_LEVEL, u, b) <==> Bit(InitView(u, Widest(0x10_0000, lengths)) % 512, b)
  {
    var m', sh', f := InitTree(m, lengths);
    LeafRights(u, Widest(0x10_0000, lengths));
    assert Lookup(m'.ram, sh', u) != 0;
    GrantedFromRoot(m', sh', f, u, b);
  }

  lemma GrantedFromRoot(m: Mem, sh: Shape, root: nat, u: nat, b: nat)
    requires InOrder(m, sh, root) && u < PAGES && Lookup(m.ram, sh, u) != 0
    requires Lookup(m.ram, sh, u) % 512 == InitRights(SlotOfPage(u))
    ensures Granted(m.ram, root * 4096, TOP_LEVEL, u, b) <==> Bit(InitRights(SlotOfPage(u)), b)
  {
    GrantedIsUniform(m, sh, root, TOP_LEVEL, u, RIGHTS, b);
  }

  lemma LeafRights(u: nat, w: nat)
    requires u < PAGES && w <= DATA_LIMIT && InitView(u, w) != 0
    ensures InitView(u, w) % 512 == InitRights(SlotOfPage(u))
  {
  }

  lemma HeapAddress(phys: Word)
    requires phys < FOUR_GIB
    ensures PageOf(phys + HEAP_START) == HEAP_PAGE + phys / 4096
    ensures HEAP_PAGE + phys / 4096 < PAGES && phys / 4096 < 0x10_0000
  {
    assert (phys + HEAP_START) / 4096 == 0xF_FFF9_0000_0000 + phys / 4096;
  }

  /** The entry of its own frame, with the rights of the heap. */
  function HeapLeaf(phys: Word): Word
    requires phys < FOUR_GIB
  {
    phys / 4096 * 4096 + KERNEL_READ_WRITE
  }

  /** A heap pointer of malloc (a physical address below 4 GiB plus HEAP_START_ADDR) translates to its own
      frame, and may be written. */
  lemma HeapWindow(m: Mem, lengths: seq<Word>, phys: Word)
    requires MemoryOk(m) && |Free(m.frames)| >= InitBudget(lengths) && EntriesOk(lengths)
    requires phys < FOUR_GIB
    ensures var (m', root) := InitTables(m, lengths);
      && Translate(m'.ram, root, PageOf(phys + HEAP_START)) == Leaf(HeapLeaf(phys))
      && Granted(m'.ram, root, TOP_LEVEL, PageOf(phys + HEAP_START), 1)
  {
    HeapAddress(phys);
    HeapPage(m, lengths, PageOf(phys + HEAP_START), phys / 4096);
  }

  lemma HeapPage(m: Mem, lengths: seq<Word>, u: nat, frame: nat)
    requires MemoryOk(m) && |Free(m.frames)| >= InitBudget(lengths) && EntriesOk(lengths)
    requires frame < 0x10_0000 && u == HEAP_PAGE + frame
    ensures var (m', root) := InitTables(m, lengths);
      Translate(m'.ram, root, u) == Leaf(frame * 4096 + 3) && Granted(m'.ram, root, TOP_LEVEL, u, 1)
  {
    HeapEntry(frame, Widest(0x10_0000, lengths));
    InitTranslates(m, lengths, u);
    InitGrants(m, lengths, u, 1);
  }

  lemma HeapEntry(frame: nat, w: nat)
    requires frame < 0x10_0000
    ensures InitView(HEAP_PAGE + frame, w) == frame * 4096 + 3
    ensures Present(frame * 4096 + 3) && Bit((frame * 4096 + 3) % 512, 1)
  {
    LeafOfFrame(frame);
    assert Bit(3, 1);
  }

  lemma LeafOfFrame(frame: nat)
    requires frame < 0x10_0000
    ensures (frame * 4096 + 3) % 512 == 3 && Present(frame * 4096 + 3)
  {
    QuotientUnique(frame * 4096 + 3, 512, 8 * frame, 3);
    QuotientUnique(frame * 4096 + 3, 2, 2048 * frame + 1, 1);
  }
}
