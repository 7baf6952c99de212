/** What vmm_set_pt_value does when the frame allocator runs dry: pmm_allocz returns NULL unchecked, so
    frame 0 is cleared and linked as a table. */
module PageTableLimits {
  import opened Bits
  import opened Frames
  import opened Memory
  import opened PageTables
  import opened PageTableUpdates
  import opened PageTableRuns

  /** The walk of page v meets a present entry that points at frame 0. */
  predicate DeadEnd(ram: seq<Word>, table: nat, level: nat, v: nat)
    decreases level, v
  {
    level > 1 &&
    var e := Read(ram, table / 8 + IndexAt(v, level));
    Present(e) && (Target(e) == 0 || (Target(e) >= 4096 && DeadEnd(ram, Target(e), level - 1, v)))
  }

  lemma {:induction false} TreeHasNoDeadEnd(m: Mem, sh: Shape, root: nat, level: nat, v: nat)
    requires Tree(m, sh, root) && v < PAGES && 1 <= level <= 4 && PathNode(v, level) in sh
    ensures !DeadEnd(m.ram, sh[PathNode(v, level)] * 4096, level, v)
    decreases level
  {
    if level > 1 {
      var f, i := sh[PathNode(v, level)], IndexAt(v, level);
      PathStep(v, level);
      assert f * 4096 / 8 + i == f * 512 + i;
      assert LinkOk(m.ram, sh, PathNode(v, level), i);
      if PathNode(v, level - 1) in sh {
        assert NodeOk(m, sh, PathNode(v, level - 1));
        TreeHasNoDeadEnd(m, sh, root, level - 1, v);
      }
    }
  }

  /** Only frame 0 differs. */
  ghost predicate SameAbove(ram: seq<Word>, ram': seq<Word>) {
    |ram'| == |ram| && forall w :: 512 <= w < |ram| ==> ram'[w] == ram[w]
  }

  lemma {:induction false} DeadEndStays(ram: seq<Word>, ram': seq<Word>, table: nat, level: nat, v: nat)
    requires SameAbove(ram, ram') && table >= 4096 && DeadEnd(ram, table, level, v)
    ensures DeadEnd(ram', table, level, v)
    decreases level
  {
    var w := table / 8 + IndexAt(v, level);
    assert Read(ram', w) == Read(ram, w);
    if Target(Read(ram, w)) != 0 { DeadEndStays(ram, ram', Target(Read(ram, w)), level - 1, v); }
  }

  /** Frame 0 after it was cleared and used as a table: every entry is clear or points back at it. */
  ghost predicate NullFrame(ram: seq<Word>, flags: Word) {
    forall i :: 0 <= i < 512 ==> Cell(ram, 0, i) == 0 || Cell(ram, 0, i) == flags
  }

  lemma NullEntry(flags: Word)
    requires Privilege(flags)
    ensures Entry(0, flags) == flags && Present(flags) && Target(flags) == 0
  {
    EntryOfFrame(0, flags);
  }

  lemma AllocNull(m: Mem)
    requires Sound(m.frames) && Free(m.frames) == {}
    ensures AllocZeroed(m, 1) == (m.(ram := Zeroed(m.ram, 0, 1)), 0)
  {
    AllocOnePage(m.frames);
  }

  lemma NullStep(m: Mem, i: nat, flags: Word)
    requires Privilege(flags) && Sound(m.frames) && Free(m.frames) == {} && NullFrame(m.ram, flags) && i < 512
    ensures var (m', a) := GetOrCreate(m, 0, i, flags);
      a == 0 && m'.frames == m.frames && SameAbove(m.ram, m'.ram) && NullFrame(m'.ram, flags)
  {
    NullEntry(flags);
    AllocNull(m);
    assert Cell(m.ram, 0, i) == Read(m.ram, i);
    var zeroed := Zeroed(m.ram, 0, 1);
    var ram' := Write(zeroed, i, flags);
    forall j | 0 <= j < 512 ensures Cell(ram', 0, j) == 0 || Cell(ram', 0, j) == flags {}
  }

  lemma {:induction false} DescendFromNull(m: Mem, level: nat, v: nat, flags: Word)
    requires Privilege(flags) && Sound(m.frames) && Free(m.frames) == {} && NullFrame(m.ram, flags)
    ensures var (m', a) := DescendFrom(m, 0, level, v, flags);
      a == 0 && m'.frames == m.frames && SameAbove(m.ram, m'.ram)
    decreases level
  {
    if level > 1 {
      NullStep(m, IndexAt(v, level), flags);
      DescendFromNull(GetOrCreate(m, 0, IndexAt(v, level), flags).0, level - 1, v, flags);
    }
  }

  /** Present entries stay present and keep their targets. */
  ghost predicate KeepsLinks(ram: seq<Word>, ram': seq<Word>, sh: Shape) {
    forall n, i {:trigger Cell(ram', sh[n], i)} :: n in sh && n.level >= 2 && 0 <= i < 512 && Present(Cell(ram, sh[n], i)) ==>
      Present(Cell(ram', sh[n], i)) && Target(Cell(ram', sh[n], i)) == Target(Cell(ram, sh[n], i))
  }

  lemma JoinedKeepsLinks(m: Mem, sh: Shape, root: nat, m': Mem, sh': Shape)
    requires Tree(m, sh, root) && Tree(m', sh', root) && Grows(sh, sh')
    ensures KeepsLinks(m.ram, m'.ram, sh)
  {
    forall n, i | n in sh && n.level >= 2 && 0 <= i < 512 && Present(Cell(m.ram, sh[n], i))
      ensures Present(Cell(m'.ram, sh[n], i)) && Target(Cell(m'.ram, sh[n], i)) == Target(Cell(m.ram, sh[n], i))
    {
      assert LinkOk(m.ram, sh, n, i);
      assert LinkOk(m'.ram, sh', n, i);
    }
  }

  /** The last frame is gone: frame 0 becomes the table. */
  lemma StarvesHere(m: Mem, sh: Shape, root: nat, level: nat, v: nat, flags: Word)
    requires Tree(m, sh, root) && v < PAGES && 2 <= level <= 4 && Privilege(flags)
    requires PathNode(v, level) in sh && PathNode(v, level - 1) !in sh && Free(m.frames) == {}
    ensures var (m', a) := DescendFrom(m, sh[PathNode(v, level)] * 4096, level, v, flags);
      && a == 0 && DeadEnd(m'.ram, sh[PathNode(v, level)] * 4096, level, v)
      && KeepsLinks(m.ram, m'.ram, sh)
  {
    var n, i := PathNode(v, level), IndexAt(v, level);
    DescendStores(m, sh, root, v, level, flags);
    AllocNull(m);
    NullEntry(flags);
    assert NodeOk(m, sh, n);
    var zeroed := Zeroed(m.ram, 0, 1);
    var m1 := m.(ram := Write(zeroed, sh[n] * 512 + i, flags));
    assert Descend(m, sh, v, level, flags) == (m1, 0);
    NullLinked(m, sh, root, n, i, flags);
    DescendFromNull(m1, level - 1, v, flags);
    var m' := DescendFrom(m1, 0, level - 1, v, flags).0;
    NullLinkSeen(m, m1, m', sh, root, v, level, flags);
  }

  lemma NullLinked(m: Mem, sh: Shape, root: nat, n: Node, i: nat, flags: Word)
    requires Tree(m, sh, root) && n in sh && i < 512
    ensures var ram1 := Write(Zeroed(m.ram, 0, 1), sh[n] * 512 + i, flags);
      && NullFrame(ram1, flags)
      && forall n', j {:trigger Cell(ram1, sh[n'], j)} :: n' in sh && 0 <= j < 512 ==>
           Cell(ram1, sh[n'], j) == if n' == n && j == i then flags else Cell(m.ram, sh[n'], j)
  {
    var zeroed := Zeroed(m.ram, 0, 1);
    var ram1 := Write(zeroed, sh[n] * 512 + i, flags);
    assert NodeOk(m, sh, n);
    forall j | 0 <= j < 512 ensures Cell(ram1, 0, j) == 0 {
      CellOfWrite(zeroed, sh[n], i, flags, 0, j);
      CellOfZeroed(m.ram, 0, 0, j);
    }
    forall n', j | n' in sh && 0 <= j < 512
      ensures Cell(ram1, sh[n'], j) == if n' == n && j == i then flags else Cell(m.ram, sh[n'], j)
    {
      assert NodeOk(m, sh, n');
      assert OwnFrame(sh, n, n');
      CellOfWrite(zeroed, sh[n], i, flags, sh[n'], j);
      CellOfZeroed(m.ram, 0, sh[n'], j);
    }
  }

  lemma NullLinkSeen(m: Mem, m1: Mem, m': Mem, sh: Shape, root: nat, v: nat, level: nat, flags: Word)
    requires Tree(m, sh, root) && v < PAGES && 2 <= level <= 4 && Privilege(flags)
    requires PathNode(v, level) in sh && PathNode(v, level - 1) !in sh && SameAbove(m1.ram, m'.ram)
    requires forall n', j {:trigger Cell(m1.ram, sh[n'], j)} :: n' in sh && 0 <= j < 512 ==>
      Cell(m1.ram, sh[n'], j) ==
        if n' == PathNode(v, level) && j == IndexAt(v, level) then flags else Cell(m.ram, sh[n'], j)
    ensures DeadEnd(m'.ram, sh[PathNode(v, level)] * 4096, level, v)
    ensures KeepsLinks(m.ram, m'.ram, sh)
  {
    var n, i := PathNode(v, level), IndexAt(v, level);
    NullEntry(flags);
    PathStep(v, level);
    assert LinkOk(m.ram, sh, n, i);
    forall n', j | n' in sh && 0 <= j < 512 ensures Cell(m'.ram, sh[n'], j) == Cell(m1.ram, sh[n'], j) {
      assert NodeOk(m, sh, n');
    }
    assert sh[n] * 4096 / 8 + i == sh[n] * 512 + i;
    assert Cell(m'.ram, sh[n], i) == flags;
  }

  lemma {:induction false} DescendFromStarved(m: Mem, sh: Shape, root: nat, level: nat, v: nat, flags: Word)
    requires Tree(m, sh, root) && v < PAGES && 1 <= level <= 4 && Privilege(flags) && PathNode(v, level) in sh
    requires |Free(m.frames)| < MissingBelow(sh, v, level)
    ensures var (m', a) := DescendFrom(m, sh[PathNode(v, level)] * 4096, level, v, flags);
      && a == 0 && DeadEnd(m'.ram, sh[PathNode(v, level)] * 4096, level, v)
      && KeepsLinks(m.ram, m'.ram, sh)
    decreases level
  {
    var child := PathNode(v, level - 1);
    if child !in sh && Free(m.frames) == {} {
      StarvesHere(m, sh, root, level, v, flags);
    } else {
      var (m1, a1) := Descend(m, sh, v, level, flags);
      var sh1 := sh;
      if child in sh {
        DescendKnown(m, sh, root, v, level, flags);
      } else {
        sh1 := DescendCreates(m, sh, root, v, level, flags);
      }
      MissingElsewhere(sh, sh1, v, level - 1, level - 1);
      DescendFromStarved(m1, sh1, root, level - 1, v, flags);
      DeadEndAbove(m, sh, m1, sh1, DescendFrom(m1, a1, level - 1, v, flags).0, root, level, v);
    }
  }

  lemma DeadEndAbove(m: Mem, sh: Shape, m1: Mem, sh1: Shape, m': Mem, root: nat, level: nat, v: nat)
    requires Tree(m, sh, root) && Tree(m1, sh1, root) && Grows(sh, sh1) && v < PAGES && 2 <= level <= 4
    requires PathNode(v, level) in sh && PathNode(v, level - 1) in sh1
    requires DeadEnd(m'.ram, sh1[PathNode(v, level - 1)] * 4096, level - 1, v)
    requires KeepsLinks(m1.ram, m'.ram, sh1)
    ensures DeadEnd(m'.ram, sh[PathNode(v, level)] * 4096, level, v)
    ensures KeepsLinks(m.ram, m'.ram, sh)
  {
    var n, i := PathNode(v, level), IndexAt(v, level);
    PathStep(v, level);
    assert LinkOk(m1.ram, sh1, n, i);
    assert NodeOk(m1, sh1, PathNode(v, level - 1));
    assert sh[n] * 4096 / 8 + i == sh[n] * 512 + i;
    assert Present(Cell(m'.ram, sh1[n], i));
    JoinedKeepsLinks(m, sh, root, m1, sh1);
  }

  /** Mapping keeps the page tables a tree exactly when the allocator has a frame for every table that is
      missing on the walk of the page. */
  lemma MappingNeedsFramesExactly(m: Mem, sh: Shape, root: nat, virt: nat, flags: Word, value: Word)
    requires Tree(m, sh, root) && Privilege(flags)
    ensures (exists sh' :: Tree(SetPtValue(m, root * 4096, virt, flags, value), sh', root))
            <==> |Free(m.frames)| >= MissingTables(m.ram, root * 4096, TOP_LEVEL, PageOf(virt))
  {
    var v := PageOf(virt);
    var m' := SetPtValue(m, root * 4096, virt, flags, value);
    MissingTablesAreMissing(m, sh, root, TOP_LEVEL, v);
    if |Free(m.frames)| >= Missing(sh, v) {
      var sh' := SetPresent(m, sh, root, virt, flags, value);
    } else {
      DescendFromStarved(m, sh, root, TOP_LEVEL, v, flags);
      var m1 := DescendAll(m, root * 4096, v, flags).0;
      assert NodeOk(m, sh, ROOT);
      DeadEndStays(m1.ram, m'.ram, root * 4096, TOP_LEVEL, v);
      forall sh' | Tree(m', sh', root) ensures false {
        TreeHasNoDeadEnd(m', sh', root, TOP_LEVEL, v);
      }
    }
  }

  /** ... and when it has not, the value goes into frame 0, at the place of the page in its table. */
  lemma StarvedStores(m: Mem, sh: Shape, root: nat, virt: nat, flags: Word, value: Word)
    requires Tree(m, sh, root) && Privilege(flags)
    requires |Free(m.frames)| < MissingTables(m.ram, root * 4096, TOP_LEVEL, PageOf(virt))
    ensures Cell(SetPtValue(m, root * 4096, virt, flags, value).ram, 0, PageOf(virt) % 512) == value
  {
    var v := PageOf(virt);
    MissingTablesAreMissing(m, sh, root, TOP_LEVEL, v);
    DescendFromStarved(m, sh, root, TOP_LEVEL, v, flags);
    var (m1, pt) := DescendAll(m, root * 4096, v, flags);
    DescendKeepsSize(m, root * 4096, TOP_LEVEL, v, flags);
    assert pt == 0 && v % 512 < |m1.ram|;
  }

  lemma {:induction false} DescendKeepsSize(m: Mem, table: nat, level: nat, v: nat, flags: Word)
    ensures |DescendFrom(m, table, level, v, flags).0.ram| == |m.ram|
    decreases level
  {
    if level > 1 {
      var (m1, a) := GetOrCreate(m, table, IndexAt(v, level), flags);
      DescendKeepsSize(m1, a, level - 1, v, flags);
    }
  }

  // ----- flags with bit 7

  /** The tables of the shape have frames of their own, which the allocator will not hand out. */
  ghost predicate Holds(m: Mem, sh: Shape) {
    && MemoryOk(m)
    && forall n {:trigger n in sh} :: n in sh ==> 0 < sh[n] < m.frames.top && sh[n] in m.frames.used
  }

  lemma TreeHolds(m: Mem, sh: Shape, root: nat)
    requires Tree(m, sh, root)
    ensures Holds(m, sh)
  {
    forall n | n in sh ensures 0 < sh[n] < m.frames.top && sh[n] in m.frames.used { assert NodeOk(m, sh, n); }
  }

  /** From m to m' nothing happened to the tables of the shape. */
  ghost predicate TablesKept(m: Mem, m': Mem, sh: Shape) {
    Holds(m', sh) && SameTables(m.ram, m'.ram, sh) && m.frames.used <= m'.frames.used
  }

  lemma TablesKeptTwice(m: Mem, m1: Mem, m2: Mem, sh: Shape)
    requires TablesKept(m, m1, sh) && TablesKept(m1, m2, sh)
    ensures TablesKept(m, m2, sh)
  {
    forall n, i | n in sh && 0 <= i < 512 ensures Cell(m2.ram, sh[n], i) == Cell(m.ram, sh[n], i) {
      assert Cell(m2.ram, sh[n], i) == Cell(m1.ram, sh[n], i);
    }
  }

  lemma FreshSpares(m: Mem, sh: Shape)
    requires Holds(m, sh) && Free(m.frames) != {}
    ensures var (m', a) := AllocZeroed(m, 1);
      TablesKept(m, m', sh) && Stray(m', sh, a) && a < WORD && |Free(m'.frames)| == |Free(m.frames)| - 1
      && a / 4096 !in m.frames.used
  {
    AllocOnePage(m.frames);
    var (m', a) := AllocZeroed(m, 1);
    var f := a / 4096;
    forall n | n in sh ensures sh[n] != f {}
    forall n, i | n in sh && 0 <= i < 512 ensures Cell(m'.ram, sh[n], i) == Cell(m.ram, sh[n], i) {
      CellOfZeroed(m.ram, f, sh[n], i);
    }
    forall i | 0 <= i < 512 ensures Cell(m'.ram, f, i) == 0 { CellOfZeroed(m.ram, f, f, i); }
  }

  lemma WriteSpares(m: Mem, sh: Shape, g: nat, i: nat, e: Word, a: nat)
    requires Holds(m, sh) && Detached(m, sh, g) && i < 512 && Stray(m, sh, a) && a / 4096 != g
    ensures var m' := m.(ram := Write(m.ram, g * 512 + i, e)); TablesKept(m, m', sh) && Stray(m', sh, a)
  {
    var m' := m.(ram := Write(m.ram, g * 512 + i, e));
    forall n, j | n in sh && 0 <= j < 512 ensures Cell(m'.ram, sh[n], j) == Cell(m.ram, sh[n], j) {
      assert sh[n] in sh.Values;
      CellOfWrite(m.ram, g, i, e, sh[n], j);
    }
    BlankAfterWrite(m.ram, g, i, e, a / 4096);
  }

  /** From a blank frame outside the shape the descent goes on outside the shape. */
  lemma {:induction false} DescendOutside(m: Mem, sh: Shape, g: nat, level: nat, v: nat, flags: Word)
    requires Holds(m, sh) && Stray(m, sh, g) && flags < 512 && 1 <= level && |Free(m.frames)| >= level - 1
    ensures var (m', a) := DescendFrom(m, g, level, v, flags); TablesKept(m, m', sh) && Stray(m', sh, a)
    decreases level
  {
    if level > 1 {
      OutsideStep(m, sh, g, IndexAt(v, level), flags);
      var (m1, a1) := GetOrCreate(m, g, IndexAt(v, level), flags);
      DescendOutside(m1, sh, a1, level - 1, v, flags);
      TablesKeptTwice(m, m1, DescendFrom(m1, a1, level - 1, v, flags).0, sh);
    }
  }

  lemma OutsideStep(m: Mem, sh: Shape, g: nat, i: nat, flags: Word)
    requires Holds(m, sh) && Stray(m, sh, g) && flags < 512 && i < 512 && Free(m.frames) != {}
    ensures var (m', a) := GetOrCreate(m, g, i, flags);
      TablesKept(m, m', sh) && Stray(m', sh, a) && |Free(m'.frames)| == |Free(m.frames)| - 1
  {
    StrayCell(m, sh, g, i);
    FreshSpares(m, sh);
    var (m1, a) := AllocZeroed(m, 1);
    FrameFields(a, flags);
    WriteSpares(m1, sh, g / 4096, i, Entry(a, flags), a);
    TablesKeptTwice(m, m1, GetOrCreate(m, g, i, flags).0, sh);
  }

  /** The lowest table on the path of page v, from the given level on. */
  function Deepest(sh: Shape, v: nat, level: nat): (l: nat)
    requires 1 <= level
    ensures 1 <= l <= level
    decreases level, v
  {
    if level > 1 && PathNode(v, level - 1) in sh then Deepest(sh, v, level - 1) else level
  }

  /** Memory with an entry of that kind in the lowest table of page v, and the tables otherwise as in ram. */
  ghost predicate Stopped(ram: seq<Word>, ram': seq<Word>, sh: Shape, v: nat, l: nat) {
    && PathNode(v, l) in sh && 2 <= l
    && Present(Cell(ram', sh[PathNode(v, l)], IndexAt(v, l))) && PageSize(Cell(ram', sh[PathNode(v, l)], IndexAt(v, l)))
    && forall n, i {:trigger Cell(ram', sh[n], i)} :: n in sh && 0 <= i < 512 && !(n == PathNode(v, l) && i == IndexAt(v, l)) ==>
         Cell(ram', sh[n], i) == Cell(ram, sh[n], i)
  }

  lemma StoppedStays(ram: seq<Word>, m1: Mem, m2: Mem, sh: Shape, v: nat, l: nat)
    requires Stopped(ram, m1.ram, sh, v, l) && TablesKept(m1, m2, sh)
    ensures Stopped(ram, m2.ram, sh, v, l)
  {
    assert Cell(m2.ram, sh[PathNode(v, l)], IndexAt(v, l)) == Cell(m1.ram, sh[PathNode(v, l)], IndexAt(v, l));
    forall n, i | n in sh && 0 <= i < 512 && !(n == PathNode(v, l) && i == IndexAt(v, l))
      ensures Cell(m2.ram, sh[n], i) == Cell(ram, sh[n], i)
    {
      assert Cell(m2.ram, sh[n], i) == Cell(m1.ram, sh[n], i);
    }
  }

  /** The walk of page v does not get past that entry. */
  lemma {:induction false} WalkStops(m: Mem, sh: Shape, root: nat, ram': seq<Word>, v: nat, level: nat, l: nat)
    requires Tree(m, sh, root) && v < PAGES && 2 <= l <= level <= 4 && PathNode(v, level) in sh && l == Deepest(sh, v, level)
    requires Stopped(m.ram, ram', sh, v, l)
    ensures !Walk(ram', sh[PathNode(v, level)] * 4096, level, v).Leaf?
    decreases level
  {
    var f, i := sh[PathNode(v, level)], IndexAt(v, level);
    WalkStep(ram', f, level, v);
    if l < level {
      PathStep(v, level);
      assert LinkOk(m.ram, sh, PathNode(v, level), i);
      assert PathNode(v, level) != PathNode(v, l);
      assert Cell(ram', f, i) == Cell(m.ram, f, i);
      WalkStops(m, sh, root, ram', v, level - 1, l);
    }
  }

  /** Making a missing table with bit 7 in its entry: the walk will stop there. */
  lemma {:induction false} DescendWithBit7(m: Mem, sh: Shape, root: nat, level: nat, v: nat, flags: Word)
    requires Tree(m, sh, root) && v < PAGES && 1 <= level <= 4 && PathNode(v, level) in sh
    requires flags < 512 && Present(flags) && PageSize(flags)
    requires 0 < MissingBelow(sh, v, level) <= |Free(m.frames)|
    ensures var (m', a) := DescendFrom(m, sh[PathNode(v, level)] * 4096, level, v, flags);
      Holds(m', sh) && Stray(m', sh, a) && Stopped(m.ram, m'.ram, sh, v, Deepest(sh, v, level))
    decreases level
  {
    var (m1, a1) := Descend(m, sh, v, level, flags);
    if PathNode(v, level - 1) in sh {
      DescendKnown(m, sh, root, v, level, flags);
      DescendWithBit7(m, sh, root, level - 1, v, flags);
    } else {
      MissingAll(m, sh, root, v, level - 1);
      LinkWithBit7(m, sh, root, level, v, flags);
      DescendOutside(m1, sh, a1, level - 1, v, flags);
      StoppedStays(m.ram, m1, DescendFrom(m1, a1, level - 1, v, flags).0, sh, v, level);
    }
  }

  lemma LinkWithBit7(m: Mem, sh: Shape, root: nat, level: nat, v: nat, flags: Word)
    requires Tree(m, sh, root) && v < PAGES && 2 <= level <= 4
    requires PathNode(v, level) in sh && PathNode(v, level - 1) !in sh
    requires flags < 512 && Present(flags) && PageSize(flags) && Free(m.frames) != {}
    ensures var (m1, a) := Descend(m, sh, v, level, flags);
      Holds(m1, sh) && Stray(m1, sh, a) && Stopped(m.ram, m1.ram, sh, v, level)
      && |Free(m1.frames)| == |Free(m.frames)| - 1
  {
    DescendStores(m, sh, root, v, level, flags);
    TreeHolds(m, sh, root);
    FreshSpares(m, sh);
    var (m0, a) := AllocZeroed(m, 1);
    FrameFields(a, flags);
    EntryLinked(m, m0, sh, root, PathNode(v, level), IndexAt(v, level), a, Entry(a, flags));
  }

  lemma EntryLinked(m: Mem, m0: Mem, sh: Shape, root: nat, n: Node, i: nat, a: nat, e: Word)
    requires Tree(m, sh, root) && n in sh && i < 512 && TablesKept(m, m0, sh) && Stray(m0, sh, a)
    ensures var m1 := m0.(ram := Write(m0.ram, sh[n] * 512 + i, e));
      && Holds(m1, sh) && Stray(m1, sh, a) && Cell(m1.ram, sh[n], i) == e
      && forall n', j {:trigger Cell(m1.ram, sh[n'], j)} :: n' in sh && 0 <= j < 512 && !(n' == n && j == i) ==>
           Cell(m1.ram, sh[n'], j) == Cell(m.ram, sh[n'], j)
  {
    var m1 := m0.(ram := Write(m0.ram, sh[n] * 512 + i, e));
    assert sh[n] in sh.Values;
    BlankAfterWrite(m0.ram, sh[n], i, e, a / 4096);
    CellOfWrite(m0.ram, sh[n], i, e, sh[n], i);
    forall n', j | n' in sh && 0 <= j < 512 && !(n' == n && j == i)
      ensures Cell(m1.ram, sh[n'], j) == Cell(m.ram, sh[n'], j)
    {
      assert OwnFrame(sh, n, n');
      CellOfWrite(m0.ram, sh[n], i, e, sh[n'], j);
      assert Cell(m0.ram, sh[n'], j) == Cell(m.ram, sh[n'], j);
    }
  }

  lemma LeafSpares(m: Mem, sh: Shape, a: nat, i: nat, value: Word)
    requires Holds(m, sh) && Stray(m, sh, a) && i < 512
    ensures TablesKept(m, m.(ram := Write(m.ram, a / 8 + i, value)), sh)
  {
    StrayCell(m, sh, a, i);
    var ram' := Write(m.ram, a / 4096 * 512 + i, value);
    forall n, j | n in sh && 0 <= j < 512 ensures Cell(ram', sh[n], j) == Cell(m.ram, sh[n], j) {
      assert sh[n] in sh.Values;
      CellOfWrite(m.ram, a / 4096, i, value, sh[n], j);
    }
  }

  lemma EntryPresent(phys: Word, flags: Word)
    requires Present(flags)
    ensures Present(Entry(phys, flags))
  {
    var o := Or(phys, flags);
    assert o % 2 == 1;
    var q := o / 0x1_0000_0000_0000_0000;
    assert o == q * 0x1_0000_0000_0000_0000 + Entry(phys, flags);
  }

  lemma SetWithBit7(m: Mem, sh: Shape, root: nat, virt: nat, flags: Word, value: Word)
    requires Tree(m, sh, root) && flags < 512 && Present(flags) && PageSize(flags)
    requires 0 < Missing(sh, PageOf(virt)) <= |Free(m.frames)|
    ensures !Translate(SetPtValue(m, root * 4096, virt, flags, value).ram, root * 4096, PageOf(virt)).Leaf?
  {
    var v := PageOf(virt);
    DescendWithBit7(m, sh, root, TOP_LEVEL, v, flags);
    var (m1, pt) := DescendAll(m, root * 4096, v, flags);
    var m' := SetPtValue(m, root * 4096, virt, flags, value);
    LeafSpares(m1, sh, pt, v % 512, value);
    StoppedStays(m.ram, m1, m', sh, v, Deepest(sh, v, TOP_LEVEL));
    WalkStops(m, sh, root, m'.ram, v, TOP_LEVEL, Deepest(sh, v, TOP_LEVEL));
  }

  /** Mapping a page of which a table is missing: the processor then finds its entry exactly when the flags
      are without bit 7.  vmm_get_or_create_pml puts the flags of the page into the entries of levels 4 to 2,
      where bit 7 is not PTE_PAT. */
  lemma PlainFlagsExactly(m: Mem, sh: Shape, root: nat, phys: Word, virt: Word, flags: Word)
    requires Tree(m, sh, root) && flags < 512 && Present(flags)
    requires 0 < MissingTables(m.ram, root * 4096, TOP_LEVEL, PageOf(virt)) <= |Free(m.frames)|
    ensures Translate(MapPage(m, root * 4096, phys, virt, flags).ram, root * 4096, PageOf(virt)) == HitOf(Entry(phys, flags))
      <==> !PageSize(flags)
  {
    MissingTablesAreMissing(m, sh, root, TOP_LEVEL, PageOf(virt));
    AlignedPage(virt);
    EntryPresent(phys, flags);
    if PageSize(flags) {
      SetWithBit7(m, sh, root, AlignDown(virt), flags, Entry(phys, flags));
    } else {
      MappedLeaf(m, sh, root, AlignDown(virt), flags, Entry(phys, flags));
    }
  }

  lemma MappedLeaf(m: Mem, sh: Shape, root: nat, virt: nat, flags: Word, value: Word)
    requires Tree(m, sh, root) && Privilege(flags) && |Free(m.frames)| >= Missing(sh, PageOf(virt))
    ensures Translate(SetPtValue(m, root * 4096, virt, flags, value).ram, root * 4096, PageOf(virt)) == HitOf(value)
  {
    var sh' := SetPresent(m, sh, root, virt, flags, value);
    TranslateIsLookup(SetPtValue(m, root * 4096, virt, flags, value), sh', root, PageOf(virt));
  }
}
