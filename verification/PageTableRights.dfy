/** What the page table code leaves of the entries that other pages go through (fckrnl/mm/virt.c): the rights
    they grant stay as they are. */
module PageTableRights {
  import opened Bits
  import opened Frames
  import opened Memory
  import opened PageTables
  import opened PageTableUpdates
  import opened PageTableCursor
  import opened PageTableRanges

  /** Entries of these frames that are present stay as they are. */
  ghost predicate KeepsPresent(ram: seq<Word>, ram': seq<Word>, held: set<nat>) {
    forall f, i {:trigger Cell(ram', f, i)} :: f in held && 0 <= i < 512 && Present(Cell(ram, f, i)) ==>
      Cell(ram', f, i) == Cell(ram, f, i)
  }

  lemma KeepsPresentTwice(ram: seq<Word>, ram1: seq<Word>, ram2: seq<Word>, held: set<nat>)
    requires KeepsPresent(ram, ram1, held) && KeepsPresent(ram1, ram2, held)
    ensures KeepsPresent(ram, ram2, held)
  {
    forall f, i | f in held && 0 <= i < 512 && Present(Cell(ram, f, i)) ensures Cell(ram2, f, i) == Cell(ram, f, i) {
      assert Cell(ram1, f, i) == Cell(ram, f, i);
    }
  }

  lemma StoreKeepsPresent(ram: seq<Word>, w: nat, value: Word, held: set<nat>)
    requires !Present(Read(ram, w)) || w / 512 !in held
    ensures KeepsPresent(ram, Write(ram, w, value), held)
  {
    forall f, i | f in held && 0 <= i < 512 && Present(Cell(ram, f, i))
      ensures Cell(Write(ram, w, value), f, i) == Cell(ram, f, i)
    {
      assert (f * 512 + i) / 512 == f;
    }
  }

  lemma ClearKeepsPresent(ram: seq<Word>, p: nat, held: set<nat>)
    requires p !in held
    ensures KeepsPresent(ram, Zeroed(ram, p, 1), held)
  {
    forall f, i | f in held && 0 <= i < 512 && Present(Cell(ram, f, i))
      ensures Cell(Zeroed(ram, p, 1), f, i) == Cell(ram, f, i)
    {
      CellOfZeroed(ram, p, f, i);
    }
  }

  /** The frames are in use, so that the allocator will not hand them out. */
  ghost predicate InUse(m: Mem, held: set<nat>) {
    Sound(m.frames) && held <= m.frames.used && 0 !in held
  }

  /** vmm_get_or_create_pml writes to an entry that is not present, and clears no frame in use. */
  lemma StepKeepsPresent(m: Mem, table: nat, i: nat, flags: Word, held: set<nat>)
    requires InUse(m, held)
    ensures var (m1, a) := GetOrCreate(m, table, i, flags); KeepsPresent(m.ram, m1.ram, held) && InUse(m1, held)
  {
    var w := table / 8 + i;
    if !Present(Read(m.ram, w)) {
      AllocOnePage(m.frames);
      var (m0, a) := AllocZeroed(m, 1);
      ClearKeepsPresent(m.ram, a / 4096, held);
      assert !Present(Read(m0.ram, w));
      StoreKeepsPresent(m0.ram, w, Entry(a, flags), held);
      KeepsPresentTwice(m.ram, m0.ram, Write(m0.ram, w, Entry(a, flags)), held);
    }
  }

  lemma {:induction false} DescendKeepsPresent(m: Mem, table: nat, level: nat, v: nat, flags: Word, held: set<nat>)
    requires InUse(m, held)
    ensures var m1 := DescendFrom(m, table, level, v, flags).0; KeepsPresent(m.ram, m1.ram, held) && InUse(m1, held)
    decreases level
  {
    if level > 1 {
      var (m1, a) := GetOrCreate(m, table, IndexAt(v, level), flags);
      StepKeepsPresent(m, table, IndexAt(v, level), flags, held);
      DescendKeepsPresent(m1, a, level - 1, v, flags, held);
      KeepsPresentTwice(m.ram, m1.ram, DescendFrom(m1, a, level - 1, v, flags).0.ram, held);
    }
  }

  /** The frames of the tables of levels 4 to 2. */
  ghost function Upper(sh: Shape): set<nat> {
    set n | n in sh && n.level >= 2 :: sh[n]
  }

  lemma LeafFrame(sh: Shape, f: nat, i: nat)
    requires i < 512
    ensures (f * 4096 / 8 + i) / 512 == f
  {
  }

  /** The last store of vmm_set_pt_value goes to none of them. */
  lemma LeafOffUpper(m: Mem, sh: Shape, root: nat, v: nat, flags: Word)
    requires Tree(m, sh, root) && v < PAGES && Suits(flags, Missing(sh, v)) && |Free(m.frames)| >= Missing(sh, v)
    ensures var (m1, pt) := DescendAll(m, root * 4096, v, flags); (pt / 8 + v % 512) / 512 !in Upper(sh)
  {
    var (m1, pt) := DescendAll(m, root * 4096, v, flags);
    assert PathNode(v, 4) == ROOT;
    if PathNode(v, 1) in sh {
      DescendFromKnown(m, sh, root, TOP_LEVEL, v, flags);
      LeafTable(m, sh, root, sh, v, pt);
    } else if Privilege(flags) {
      var sh' := DescendFromPresent(m, sh, root, TOP_LEVEL, v, flags);
      LeafTable(m1, sh', root, sh, v, pt);
    } else {
      if flags % 2 == 1 { NoneMissing(sh, v, TOP_LEVEL); }
      DescendFromAbsent(m, sh, root, TOP_LEVEL, v, flags);
      StrayOffUpper(m1, sh, pt, v % 512);
    }
  }

  lemma LeafTable(m1: Mem, sh1: Shape, root: nat, sh: Shape, v: nat, pt: nat)
    requires Tree(m1, sh1, root) && Grows(sh, sh1) && PathNode(v, 1) in sh1 && pt == sh1[PathNode(v, 1)] * 4096
    ensures (pt / 8 + v % 512) / 512 !in Upper(sh)
  {
    LeafFrame(sh1, sh1[PathNode(v, 1)], v % 512);
    forall n | n in sh && n.level >= 2 ensures sh[n] != sh1[PathNode(v, 1)] {
      assert OwnFrame(sh1, n, PathNode(v, 1));
    }
  }

  lemma StrayOffUpper(m: Mem, sh: Shape, pt: nat, i: nat)
    requires Stray(m, sh, pt) && i < 512
    ensures (pt / 8 + i) / 512 !in Upper(sh)
  {
    LeafFrame(sh, pt / 4096, i);
    forall n | n in sh && n.level >= 2 ensures sh[n] != pt / 4096 { assert sh[n] in sh.Values; }
  }

  lemma UpperInUse(m: Mem, sh: Shape, root: nat)
    requires Tree(m, sh, root)
    ensures InUse(m, Upper(sh))
  {
    forall f | f in Upper(sh) ensures f in m.frames.used && f != 0 {
      var n :| n in sh && n.level >= 2 && sh[n] == f;
      assert NodeOk(m, sh, n);
    }
  }

  /** vmm_set_pt_value changes no present entry of a table of levels 4 to 2. */
  lemma UpperKept(m: Mem, sh: Shape, root: nat, virt: nat, flags: Word, value: Word)
    requires Tree(m, sh, root) && Suits(flags, Missing(sh, PageOf(virt))) && |Free(m.frames)| >= Missing(sh, PageOf(virt))
    ensures KeepsPresent(m.ram, SetPtValue(m, root * 4096, virt, flags, value).ram, Upper(sh))
  {
    var v := PageOf(virt);
    var (m1, pt) := DescendAll(m, root * 4096, v, flags);
    UpperInUse(m, sh, root);
    DescendKeepsPresent(m, root * 4096, TOP_LEVEL, v, flags, Upper(sh));
    LeafOffUpper(m, sh, root, v, flags);
    StoreKeepsPresent(m1.ram, pt / 8 + v % 512, value, Upper(sh));
    KeepsPresentTwice(m.ram, m1.ram, Write(m1.ram, pt / 8 + v % 512, value), Upper(sh));
  }

  /** The rights granted for a page depend on those entries and on its own. */
  lemma {:induction false} GrantedSame(m: Mem, sh: Shape, root: nat, m': Mem, sh': Shape, level: nat, u: nat, b: nat)
    requires Tree(m, sh, root) && u < PAGES && 1 <= level <= 4 && PathNode(u, 1) in sh && PathNode(u, level) in sh
    requires Grows(sh, sh') && KeepsPresent(m.ram, m'.ram, Upper(sh)) && Lookup(m'.ram, sh', u) == Lookup(m.ram, sh, u)
    ensures Granted(m'.ram, sh[PathNode(u, level)] * 4096, level, u, b)
      <==> Granted(m.ram, sh[PathNode(u, level)] * 4096, level, u, b)
    decreases level
  {
    var f, i := sh[PathNode(u, level)], IndexAt(u, level);
    TableWord(f, i);
    if level > 1 {
      AncestorsThere(m, sh, root, level - 1, u);
      PathStep(u, level);
      assert LinkOk(m.ram, sh, PathNode(u, level), i);
      assert f in Upper(sh);
      assert Cell(m'.ram, f, i) == Cell(m.ram, f, i);
      GrantedSame(m, sh, root, m', sh', level - 1, u, b);
    }
  }

  /** A page whose entry is kept translates and grants as before. */
  lemma PageSame(m: Mem, sh: Shape, root: nat, m': Mem, sh': Shape, u: nat, b: nat)
    requires Tree(m, sh, root) && Tree(m', sh', root) && u < PAGES && Lookup(m.ram, sh, u) != 0
    requires Grows(sh, sh') && KeepsPresent(m.ram, m'.ram, Upper(sh)) && Lookup(m'.ram, sh', u) == Lookup(m.ram, sh, u)
    ensures Translate(m'.ram, root * 4096, u) == Translate(m.ram, root * 4096, u)
    ensures Granted(m'.ram, root * 4096, TOP_LEVEL, u, b) <==> Granted(m.ram, root * 4096, TOP_LEVEL, u, b)
  {
    TranslateIsLookup(m, sh, root, u);
    TranslateIsLookup(m', sh', root, u);
    assert PathNode(u, 4) == ROOT;
    GrantedSame(m, sh, root, m', sh', TOP_LEVEL, u, b);
  }

  /** vmm_set_pt_value leaves the translation of every other mapped page, and the rights that all four levels
      grant it together, as they were. */
  lemma OthersKeepRights(m: Mem, sh: Shape, m': Mem, sh': Shape, root: nat, virt: nat, flags: Word, value: Word,
                         u: nat, b: nat)
    requires Tree(m, sh, root) && Suits(flags, Missing(sh, PageOf(virt))) && |Free(m.frames)| >= Missing(sh, PageOf(virt))
    requires m' == SetPtValue(m, root * 4096, virt, flags, value)
    requires EntrySet(m, sh, m', sh', root, PageOf(virt), flags, value)
    requires u < PAGES && u != PageOf(virt) && Lookup(m.ram, sh, u) != 0
    ensures Translate(m'.ram, root * 4096, u) == Translate(m.ram, root * 4096, u)
    ensures Granted(m'.ram, root * 4096, TOP_LEVEL, u, b) <==> Granted(m.ram, root * 4096, TOP_LEVEL, u, b)
  {
    UpperKept(m, sh, root, virt, flags, value);
    PageSame(m, sh, root, m', sh', u, b);
  }
}
