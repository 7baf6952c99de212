/** What vmm_set_pt_value does to the tree of page tables and to the translation of every page. */
module PageTableUpdates {
  import opened Bits
  import opened Frames
  import opened Memory
  import opened PageTables

  // ----- one level down

  /** vmm_get_or_create_pml on the path of page v, at its table of the given level. */
  ghost function Descend(m: Mem, sh: Shape, v: nat, level: nat, flags: Word): (Mem, Word)
    requires PathNode(v, level) in sh
  {
    GetOrCreate(m, sh[PathNode(v, level)] * 4096, IndexAt(v, level), flags)
  }

  lemma DescendKnown(m: Mem, sh: Shape, root: nat, v: nat, level: nat, flags: Word)
    requires Tree(m, sh, root) && v < PAGES && 2 <= level <= 4
    requires PathNode(v, level) in sh && PathNode(v, level - 1) in sh
    ensures Descend(m, sh, v, level, flags) == (m, sh[PathNode(v, level - 1)] * 4096)
  {
    var f, i := sh[PathNode(v, level)], IndexAt(v, level);
    PathStep(v, level);
    assert LinkOk(m.ram, sh, PathNode(v, level), i);
    TableWord(f, i);
  }

  /** In a missing place vmm_get_or_create_pml stores the entry of a newly allocated frame. */
  lemma DescendStores(m: Mem, sh: Shape, root: nat, v: nat, level: nat, flags: Word)
    requires Tree(m, sh, root) && v < PAGES && 2 <= level <= 4
    requires PathNode(v, level) in sh && PathNode(v, level - 1) !in sh
    ensures var (m1, a) := AllocZeroed(m, 1); var e := Entry(a, flags);
      Descend(m, sh, v, level, flags) ==
        (m1.(ram := Write(m1.ram, sh[PathNode(v, level)] * 512 + IndexAt(v, level), e)), Target(e))
  {
    var n, i := PathNode(v, level), IndexAt(v, level);
    PathStep(v, level);
    assert LinkOk(m.ram, sh, n, i);
    TableWord(sh[n], i);
  }

  // ----- with the present flag

  ghost predicate Grows(sh: Shape, sh': Shape) {
    forall n :: n in sh ==> n in sh' && sh'[n] == sh[n]
  }

  /** Entry i of table n lies on the path of page v. */
  predicate OnPath(v: nat, n: Node, i: nat) {
    n == PathNode(v, n.level) && i == IndexAt(v, n.level)
  }

  /** Every present upper entry of the new tree is an entry of the old one, or lies on the path of page v
      and carries the given flags. */
  ghost predicate EntriesFrom(ram: seq<Word>, sh: Shape, ram': seq<Word>, sh': Shape, v: nat, flags: Word) {
    forall n, i {:trigger Cell(ram', sh'[n], i)} :: n in sh' && n.level >= 2 && 0 <= i < 512 && Present(Cell(ram', sh'[n], i)) ==>
      || (n in sh && Cell(ram', sh'[n], i) == Cell(ram, sh[n], i))
      || (OnPath(v, n, i) && Cell(ram', sh'[n], i) % 512 == flags)
  }

  /** From (m, sh) to (m', sh') tables joined the tree, which now has the given ones, at the cost of that
      many frames, and no translation changed; new entries are on the path of page v, with the given flags. */
  ghost predicate Joined(m: Mem, sh: Shape, m': Mem, sh': Shape, root: nat, keys: set<Node>, cost: nat,
                         v: nat, flags: Word) {
    && Tree(m', sh', root) && Grows(sh, sh') && sh'.Keys == keys
    && |Free(m'.frames)| + cost == |Free(m.frames)|
    && SameLookups(m.ram, sh, m'.ram, sh')
    && EntriesFrom(m.ram, sh, m'.ram, sh', v, flags)
  }

  lemma JoinedTwice(m: Mem, sh: Shape, m1: Mem, sh1: Shape, m2: Mem, sh2: Shape, root: nat,
                    c1: nat, c2: nat, v: nat, flags: Word)
    requires Joined(m, sh, m1, sh1, root, sh1.Keys, c1, v, flags)
    requires Joined(m1, sh1, m2, sh2, root, sh2.Keys, c2, v, flags)
    ensures Joined(m, sh, m2, sh2, root, sh2.Keys, c1 + c2, v, flags)
  {
    SameLookupsTwice(m.ram, sh, m1.ram, sh1, m2.ram, sh2);
    EntriesFromTwice(m.ram, sh, m1.ram, sh1, m2.ram, sh2, v, flags);
  }

  lemma SameLookupsTwice(r: seq<Word>, s: Shape, r1: seq<Word>, s1: Shape, r2: seq<Word>, s2: Shape)
    requires SameLookups(r, s, r1, s1) && SameLookups(r1, s1, r2, s2)
    ensures SameLookups(r, s, r2, s2)
  {
    forall v: nat ensures Lookup(r2, s2, v) == Lookup(r, s, v) { assert Lookup(r2, s2, v) == Lookup(r1, s1, v); }
  }

  lemma EntriesFromTwice(r: seq<Word>, s: Shape, r1: seq<Word>, s1: Shape, r2: seq<Word>, s2: Shape, v: nat, flags: Word)
    requires EntriesFrom(r, s, r1, s1, v, flags) && EntriesFrom(r1, s1, r2, s2, v, flags)
    ensures EntriesFrom(r, s, r2, s2, v, flags)
  {
    forall n, i | n in s2 && n.level >= 2 && 0 <= i < 512 && Present(Cell(r2, s2[n], i))
      ensures (n in s && Cell(r2, s2[n], i) == Cell(r, s[n], i)) || (OnPath(v, n, i) && Cell(r2, s2[n], i) % 512 == flags)
    {
      if n in s1 && Cell(r2, s2[n], i) == Cell(r1, s1[n], i) { assert Present(Cell(r1, s1[n], i)); }
    }
  }

  /** The tables missing on the path of page v below its table of the given level. */
  function MissingBelow(sh: Shape, v: nat, level: nat): nat
    decreases level, v
  {
    if level <= 1 then 0
    else (if PathNode(v, level - 1) in sh then 0 else 1) + MissingBelow(sh, v, level - 1)
  }

  function Missing(sh: Shape, v: nat): nat {
    MissingBelow(sh, v, TOP_LEVEL)
  }

  /** The given tables and those of the path of page v below the given level. */
  function WithPath(keys: set<Node>, v: nat, level: nat): set<Node>
    decreases level, v
  {
    if level <= 1 then keys else WithPath(keys + {PathNode(v, level - 1)}, v, level - 1)
  }

  lemma {:induction false} MissingElsewhere(sh: Shape, sh': Shape, v: nat, level: nat, top: nat)
    requires level <= top && sh'.Keys == sh.Keys + {PathNode(v, top)}
    ensures MissingBelow(sh', v, level) == MissingBelow(sh, v, level)
  {
    if level > 1 { MissingElsewhere(sh, sh', v, level - 1, top); }
  }

  /** The new frame, with its address in a present entry, joins the tree. */
  lemma StorePresent(m: Mem, sh: Shape, root: nat, v: nat, level: nat, a: nat, flags: Word)
    requires Tree(m, sh, root) && v < PAGES && 2 <= level <= 4
    requires PathNode(v, level) in sh && PathNode(v, level - 1) !in sh
    requires Privilege(flags) && Stray(m, sh, a) && a < WORD
    ensures Target(Entry(a, flags)) == a
    ensures var w := sh[PathNode(v, level)] * 512 + IndexAt(v, level);
      Joined(m, sh, m.(ram := Write(m.ram, w, Entry(a, flags))), sh[PathNode(v, level - 1) := a / 4096],
             root, sh.Keys + {PathNode(v, level - 1)}, 0, v, flags)
  {
    FrameFields(a, flags);
    StoreLink(m, sh, root, v, level, a / 4096, Entry(a, flags), flags);
  }

  lemma StoreLink(m: Mem, sh: Shape, root: nat, v: nat, level: nat, f: nat, e: Word, flags: Word)
    requires Tree(m, sh, root) && v < PAGES && 2 <= level <= 4
    requires PathNode(v, level) in sh && PathNode(v, level - 1) !in sh && Detached(m, sh, f) && Blank(m.ram, f)
    requires Present(e) && !PageSize(e) && Target(e) == f * 4096 && e % 512 == flags
    ensures var w := sh[PathNode(v, level)] * 512 + IndexAt(v, level);
      Joined(m, sh, m.(ram := Write(m.ram, w, e)), sh[PathNode(v, level - 1) := f],
             root, sh.Keys + {PathNode(v, level - 1)}, 0, v, flags)
  {
    PathStep(v, level);
    LinkChild(m, sh, root, PathNode(v, level), IndexAt(v, level), f, e);
    StoredEntries(m, sh, root, PathNode(v, level), IndexAt(v, level), PathNode(v, level - 1), f, e, v, flags);
  }

  lemma StoredEntries(m: Mem, sh: Shape, root: nat, n: Node, i: nat, c: Node, f: nat, e: Word, v: nat, flags: Word)
    requires Tree(m, sh, root) && n in sh && i < 512 && OnPath(v, n, i) && c !in sh
    requires Detached(m, sh, f) && Blank(m.ram, f) && e % 512 == flags
    ensures EntriesFrom(m.ram, sh, Write(m.ram, sh[n] * 512 + i, e), sh[c := f], v, flags)
  {
    var ram', sh' := Write(m.ram, sh[n] * 512 + i, e), sh[c := f];
    CellsAfterLink(m, sh, root, n, i, f, e);
    forall n', j | n' in sh' && n'.level >= 2 && 0 <= j < 512 && Present(Cell(ram', sh'[n'], j))
      ensures (n' in sh && Cell(ram', sh'[n'], j) == Cell(m.ram, sh[n'], j))
              || (OnPath(v, n', j) && Cell(ram', sh'[n'], j) % 512 == flags)
    {
    }
  }

  /** A missing table is made from a fresh frame; with a present flag it joins the tree. */
  lemma DescendCreates(m: Mem, sh: Shape, root: nat, v: nat, level: nat, flags: Word) returns (sh': Shape)
    requires Tree(m, sh, root) && v < PAGES && 2 <= level <= 4
    requires PathNode(v, level) in sh && PathNode(v, level - 1) !in sh
    requires Privilege(flags) && Free(m.frames) != {}
    ensures var (m', a) := Descend(m, sh, v, level, flags);
      && Joined(m, sh, m', sh', root, sh.Keys + {PathNode(v, level - 1)}, 1, v, flags)
      && a == sh'[PathNode(v, level - 1)] * 4096
  {
    DescendStores(m, sh, root, v, level, flags);
    FreshFrame(m, sh, root);
    var (m1, a) := AllocZeroed(m, 1);
    sh' := sh[PathNode(v, level - 1) := a / 4096];
    StorePresent(m1, sh, root, v, level, a, flags);
    JoinedTwice(m, sh, m1, sh, Descend(m, sh, v, level, flags).0, sh', root, 1, 0, v, flags);
  }

  lemma {:induction false} DescendFromPresent(m: Mem, sh: Shape, root: nat, level: nat, v: nat, flags: Word)
      returns (sh': Shape)
    requires Tree(m, sh, root) && v < PAGES && 1 <= level <= 4 && PathNode(v, level) in sh
    requires Privilege(flags) && |Free(m.frames)| >= MissingBelow(sh, v, level)
    ensures var (m', a) := DescendFrom(m, sh[PathNode(v, level)] * 4096, level, v, flags);
      && Joined(m, sh, m', sh', root, WithPath(sh.Keys, v, level), MissingBelow(sh, v, level), v, flags)
      && PathNode(v, 1) in sh' && a == sh'[PathNode(v, 1)] * 4096
    decreases level
  {
    sh' := sh;
    if level > 1 {
      var child := PathNode(v, level - 1);
      var (m1, a1) := Descend(m, sh, v, level, flags);
      var sh1 := sh;
      if child in sh {
        DescendKnown(m, sh, root, v, level, flags);
        assert sh.Keys + {child} == sh.Keys;
      } else {
        sh1 := DescendCreates(m, sh, root, v, level, flags);
      }
      MissingElsewhere(sh, sh1, v, level - 1, level - 1);
      sh' := DescendFromPresent(m1, sh1, root, level - 1, v, flags);
      JoinedTwice(m, sh, m1, sh1, DescendFrom(m1, a1, level - 1, v, flags).0, sh', root,
                  if child in sh then 0 else 1, MissingBelow(sh, v, level - 1), v, flags);
    }
  }

  /** From (m, sh) to (m', sh') tables joined the tree as in Joined, and exactly the entry of page v
      changed, to the given value. */
  ghost predicate Updated(m: Mem, sh: Shape, m': Mem, sh': Shape, root: nat, keys: set<Node>, cost: nat,
                          v: nat, flags: Word, value: Word) {
    && Tree(m', sh', root) && Grows(sh, sh') && sh'.Keys == keys
    && |Free(m'.frames)| + cost == |Free(m.frames)|
    && Lookup(m'.ram, sh', v) == value
    && (forall u: nat :: u != v ==> Lookup(m'.ram, sh', u) == Lookup(m.ram, sh, u))
    && EntriesFrom(m.ram, sh, m'.ram, sh', v, flags)
  }

  lemma LeafAfterJoin(m: Mem, sh: Shape, m1: Mem, sh1: Shape, root: nat, keys: set<Node>, cost: nat, v: nat, flags: Word,
                      pt: nat, value: Word)
    requires Joined(m, sh, m1, sh1, root, keys, cost, v, flags)
    requires PathNode(v, 1) in sh1 && pt == sh1[PathNode(v, 1)] * 4096
    ensures Updated(m, sh, m1.(ram := Write(m1.ram, pt / 8 + v % 512, value)), sh1, root, keys, cost, v, flags, value)
  {
    WriteLeaf(m1, sh1, root, v, value);
    assert pt / 8 + v % 512 == sh1[PathNode(v, 1)] * 512 + v % 512;
    UpperAfterLeaf(m1, sh1, root, v, value);
  }

  /** vmm_set_pt_value with the present flag: the missing tables of the path, and no others, join the
      tree, one frame each, and exactly the page of virt changes its translation. */
  lemma SetPresent(m: Mem, sh: Shape, root: nat, virt: nat, flags: Word, value: Word) returns (sh': Shape)
    requires Tree(m, sh, root) && Privilege(flags)
    requires |Free(m.frames)| >= Missing(sh, PageOf(virt))
    ensures Updated(m, sh, SetPtValue(m, root * 4096, virt, flags, value), sh', root,
                    WithPath(sh.Keys, PageOf(virt), TOP_LEVEL), Missing(sh, PageOf(virt)), PageOf(virt), flags, value)
  {
    var v := PageOf(virt);
    sh' := DescendFromPresent(m, sh, root, TOP_LEVEL, v, flags);
    var (m1, pt) := DescendAll(m, root * 4096, v, flags);
    LeafAfterJoin(m, sh, m1, sh', root, WithPath(sh.Keys, v, TOP_LEVEL), Missing(sh, v), v, flags, pt, value);
  }

  /** A leaf entry is no upper entry. */
  lemma UpperAfterLeaf(m: Mem, sh: Shape, root: nat, v: nat, value: Word)
    requires Tree(m, sh, root) && PathNode(v, 1) in sh
    ensures var ram' := Write(m.ram, sh[PathNode(v, 1)] * 512 + v % 512, value);
      forall n, i {:trigger Cell(ram', sh[n], i)} :: n in sh && n.level >= 2 && 0 <= i < 512 ==>
        Cell(ram', sh[n], i) == Cell(m.ram, sh[n], i)
  {
    var p := PathNode(v, 1);
    var ram' := Write(m.ram, sh[p] * 512 + v % 512, value);
    assert NodeOk(m, sh, p);
    forall n, i | n in sh && n.level >= 2 && 0 <= i < 512 ensures Cell(ram', sh[n], i) == Cell(m.ram, sh[n], i) {
      assert OwnFrame(sh, p, n);
      CellOfWrite(m.ram, sh[p], v % 512, value, sh[n], i);
    }
  }

  // ----- without the present flag

  /** Overwriting an entry that is not present by one that is not present. */
  lemma WriteAbsent(m: Mem, sh: Shape, root: nat, n: Node, i: nat, e: Word)
    requires Tree(m, sh, root) && n in sh && n.level >= 2 && i < 512 && Child(n, i) !in sh && !Present(e)
    ensures var m' := m.(ram := Write(m.ram, sh[n] * 512 + i, e));
      Tree(m', sh, root) && SameLookups(m.ram, sh, m'.ram, sh)
  {
    var m' := m.(ram := Write(m.ram, sh[n] * 512 + i, e));
    assert NodeOk(m, sh, n);
    forall n', j | n' in sh && 0 <= j < 512
      ensures Cell(m'.ram, sh[n'], j) == if n' == n && j == i then e else Cell(m.ram, sh[n'], j)
    {
      assert OwnFrame(sh, n, n');
      CellOfWrite(m.ram, sh[n], i, e, sh[n'], j);
    }
    forall n' | n' in sh ensures NodeOk(m', sh, n') { assert NodeOk(m, sh, n'); }
    forall n', j | n' in sh && n'.level >= 2 && 0 <= j < 512 ensures LinkOk(m'.ram, sh, n', j) {
      assert LinkOk(m.ram, sh, n', j);
    }
  }

  lemma BlankAfterWrite(ram: seq<Word>, f: nat, i: nat, e: Word, g: nat)
    requires i < 512 && f != g && Blank(ram, g) && f * 512 + i < |ram|
    ensures Blank(Write(ram, f * 512 + i, e), g)
  {
    var ram' := Write(ram, f * 512 + i, e);
    forall j | 0 <= j < 512 ensures Cell(ram', g, j) == 0 { CellOfWrite(ram, f, i, e, g, j); }
  }

  lemma LeakedTwice(m: Mem, m1: Mem, m2: Mem, sh: Shape, root: nat, c1: nat, c2: nat)
    requires Leaked(m, m1, sh, root, c1) && Leaked(m1, m2, sh, root, c2)
    ensures Leaked(m, m2, sh, root, c1 + c2)
  {
    forall v: nat ensures Lookup(m2.ram, sh, v) == Lookup(m.ram, sh, v) {
      assert Lookup(m2.ram, sh, v) == Lookup(m1.ram, sh, v);
    }
  }

  /** The new frame stays outside the tree when its entry is not present. */
  lemma StoreStray(m: Mem, sh: Shape, root: nat, v: nat, level: nat, a: nat, flags: Word)
    requires Tree(m, sh, root) && v < PAGES && 2 <= level <= 4
    requires PathNode(v, level) in sh && PathNode(v, level - 1) !in sh
    requires flags < 512 && flags % 2 == 0 && Stray(m, sh, a) && a < WORD
    ensures Target(Entry(a, flags)) == a
    ensures var w := sh[PathNode(v, level)] * 512 + IndexAt(v, level);
      var m' := m.(ram := Write(m.ram, w, Entry(a, flags)));
      Stray(m', sh, a) && Leaked(m, m', sh, root, 0)
  {
    var n := PathNode(v, level);
    PathStep(v, level);
    FrameFields(a, flags);
    WriteAbsent(m, sh, root, n, IndexAt(v, level), Entry(a, flags));
    assert NodeOk(m, sh, n);
    BlankAfterWrite(m.ram, sh[n], IndexAt(v, level), Entry(a, flags), a / 4096);
  }

  /** vmm_get_or_create_pml in a missing place, without the present flag: a frame is taken, its address
      is stored in an entry that stays absent, and the frame is returned as if it were the table. */
  lemma DescendStrays(m: Mem, sh: Shape, root: nat, v: nat, level: nat, flags: Word)
    requires Tree(m, sh, root) && v < PAGES && 2 <= level <= 4
    requires PathNode(v, level) in sh && PathNode(v, level - 1) !in sh
    requires flags < 512 && flags % 2 == 0 && Free(m.frames) != {}
    ensures var (m', a) := Descend(m, sh, v, level, flags);
      Stray(m', sh, a) && Leaked(m, m', sh, root, 1)
  {
    DescendStores(m, sh, root, v, level, flags);
    FreshFrame(m, sh, root);
    var (m1, a) := AllocZeroed(m, 1);
    StoreStray(m1, sh, root, v, level, a, flags);
    LeakedTwice(m, m1, Descend(m, sh, v, level, flags).0, sh, root, 1, 0);
  }

  lemma StrayCell(m: Mem, sh: Shape, g: nat, i: nat)
    requires Stray(m, sh, g) && i < 512
    ensures g / 8 + i == g / 4096 * 512 + i
    ensures !Present(Read(m.ram, g / 8 + i))
  {
    var f := g / 4096;
    assert g == f * 4096;
    assert Cell(m.ram, f, i) == 0;
  }

  lemma StoreInStray(m: Mem, sh: Shape, root: nat, g: nat, i: nat, a: nat, flags: Word)
    requires Tree(m, sh, root) && Detached(m, sh, g) && i < 512 && g != a / 4096
    requires flags < 512 && Stray(m, sh, a) && a < WORD
    ensures Target(Entry(a, flags)) == a
    ensures var m' := m.(ram := Write(m.ram, g * 512 + i, Entry(a, flags)));
      Stray(m', sh, a) && Leaked(m, m', sh, root, 0)
  {
    FrameFields(a, flags);
    WriteDetached(m, sh, root, g, i, Entry(a, flags));
    BlankAfterWrite(m.ram, g, i, Entry(a, flags), a / 4096);
  }

  /** From a stray frame the next level is missing too, and strays again. */
  lemma StrayAgain(m: Mem, sh: Shape, root: nat, g: nat, i: nat, flags: Word)
    requires Tree(m, sh, root) && Stray(m, sh, g) && i < 512
    requires flags < 512 && Free(m.frames) != {}
    ensures var (m', a) := GetOrCreate(m, g, i, flags);
      Stray(m', sh, a) && Leaked(m, m', sh, root, 1)
  {
    StrayCell(m, sh, g, i);
    FreshFrame(m, sh, root);
    var (m1, a) := AllocZeroed(m, 1);
    StoreInStray(m1, sh, root, g / 4096, i, a, flags);
    LeakedTwice(m, m1, GetOrCreate(m, g, i, flags).0, sh, root, 1, 0);
  }

  lemma {:induction false} DescendFromStray(m: Mem, sh: Shape, root: nat, g: nat, level: nat, v: nat, flags: Word)
    requires Tree(m, sh, root) && Stray(m, sh, g) && level >= 1
    requires flags < 512 && |Free(m.frames)| >= level - 1
    ensures var (m', a) := DescendFrom(m, g, level, v, flags);
      Stray(m', sh, a) && Leaked(m, m', sh, root, level - 1)
    decreases level
  {
    if level > 1 {
      StrayAgain(m, sh, root, g, IndexAt(v, level), flags);
      var (m1, a1) := GetOrCreate(m, g, IndexAt(v, level), flags);
      DescendFromStray(m1, sh, root, a1, level - 1, v, flags);
      LeakedTwice(m, m1, DescendFrom(m1, a1, level - 1, v, flags).0, sh, root, 1, level - 2);
    }
  }

  /** Everything below a missing table is missing. */
  lemma {:induction false} MissingAll(m: Mem, sh: Shape, root: nat, v: nat, level: nat)
    requires Tree(m, sh, root) && v < PAGES && 1 <= level <= 3 && PathNode(v, level) !in sh
    ensures MissingBelow(sh, v, level) == level - 1 && PathNode(v, 1) !in sh
  {
    if level > 1 {
      PathStep(v, level);
      if PathNode(v, level - 1) in sh { MissingChild(m, sh, root, v, level); }
      MissingAll(m, sh, root, v, level - 1);
    }
  }

  lemma MissingChild(m: Mem, sh: Shape, root: nat, v: nat, level: nat)
    requires Tree(m, sh, root) && v < PAGES && 2 <= level <= 3 && PathNode(v, level - 1) in sh
    ensures PathNode(v, level) in sh
  {
    assert NodeOk(m, sh, PathNode(v, level - 1));
    PathStep(v, level);
  }

  lemma {:induction false} DescendFromAbsent(m: Mem, sh: Shape, root: nat, level: nat, v: nat, flags: Word)
    requires Tree(m, sh, root) && v < PAGES && 1 <= level <= 4
    requires PathNode(v, level) in sh && PathNode(v, 1) !in sh
    requires flags < 512 && flags % 2 == 0 && |Free(m.frames)| >= MissingBelow(sh, v, level)
    ensures var (m', a) := DescendFrom(m, sh[PathNode(v, level)] * 4096, level, v, flags);
      Stray(m', sh, a) && Leaked(m, m', sh, root, MissingBelow(sh, v, level))
    decreases level
  {
    if level > 1 {
      var (m1, a1) := Descend(m, sh, v, level, flags);
      if PathNode(v, level - 1) in sh {
        DescendKnown(m, sh, root, v, level, flags);
        DescendFromAbsent(m, sh, root, level - 1, v, flags);
      } else {
        MissingAll(m, sh, root, v, level - 1);
        DescendStrays(m, sh, root, v, level, flags);
        DescendFromStray(m1, sh, root, a1, level - 1, v, flags);
        LeakedTwice(m, m1, DescendFrom(m1, a1, level - 1, v, flags).0, sh, root, 1, level - 2);
      }
    }
  }

  lemma {:induction false} DescendFromKnown(m: Mem, sh: Shape, root: nat, level: nat, v: nat, flags: Word)
    requires Tree(m, sh, root) && v < PAGES && 1 <= level <= 4 && PathNode(v, 1) in sh && PathNode(v, level) in sh
    ensures DescendFrom(m, sh[PathNode(v, level)] * 4096, level, v, flags)
            == (m, sh[PathNode(v, 1)] * 4096)
    ensures MissingBelow(sh, v, level) == 0
    decreases level
  {
    if level > 1 {
      AncestorsThere(m, sh, root, level - 1, v);
      DescendKnown(m, sh, root, v, level, flags);
      DescendFromKnown(m, sh, root, level - 1, v, flags);
    }
  }

  /** Where the last table exists the entry is overwritten, whatever the flags, and nothing is
      allocated. */
  lemma SetKnown(m: Mem, sh: Shape, root: nat, virt: nat, flags: Word, value: Word)
    requires Tree(m, sh, root) && PathNode(PageOf(virt), 1) in sh
    ensures var v := PageOf(virt); var m' := SetPtValue(m, root * 4096, virt, flags, value);
      && Tree(m', sh, root) && m'.frames == m.frames && Missing(sh, v) == 0
      && Lookup(m'.ram, sh, v) == value
      && forall u: nat :: u != v ==> Lookup(m'.ram, sh, u) == Lookup(m.ram, sh, u)
  {
    var v := PageOf(virt);
    DescendFromKnown(m, sh, root, TOP_LEVEL, v, flags);
    assert sh[PathNode(v, 1)] * 4096 / 8 == sh[PathNode(v, 1)] * 512;
    WriteLeaf(m, sh, root, v, value);
  }

  /** Elsewhere, without the present flag, frames for the missing tables are taken from the allocator and
      never reached again: the tree and every translation stay. */
  lemma SetStray(m: Mem, sh: Shape, root: nat, virt: nat, flags: Word, value: Word)
    requires Tree(m, sh, root) && flags < 512 && flags % 2 == 0
    requires PathNode(PageOf(virt), 1) !in sh && |Free(m.frames)| >= Missing(sh, PageOf(virt))
    ensures Leaked(m, SetPtValue(m, root * 4096, virt, flags, value), sh, root, Missing(sh, PageOf(virt)))
  {
    var v := PageOf(virt);
    DescendFromAbsent(m, sh, root, TOP_LEVEL, v, flags);
    var (m1, pt) := DescendAll(m, root * 4096, v, flags);
    StrayCell(m1, sh, pt, v % 512);
    WriteDetached(m1, sh, root, pt / 4096, v % 512, value);
    LeakedTwice(m, m1, SetPtValue(m, root * 4096, virt, flags, value), sh, root, Missing(sh, v), 0);
  }

  /** vmm_set_pt_value without the present flag. */
  lemma SetAbsent(m: Mem, sh: Shape, root: nat, virt: nat, flags: Word, value: Word)
    requires Tree(m, sh, root) && flags < 512 && flags % 2 == 0
    requires |Free(m.frames)| >= Missing(sh, PageOf(virt))
    ensures var v := PageOf(virt); var m' := SetPtValue(m, root * 4096, virt, flags, value);
      && Tree(m', sh, root)
      && |Free(m'.frames)| + Missing(sh, v) == |Free(m.frames)|
      && Lookup(m'.ram, sh, v) == (if PathNode(v, 1) in sh then value else 0)
      && forall u: nat :: u != v ==> Lookup(m'.ram, sh, u) == Lookup(m.ram, sh, u)
  {
    if PathNode(PageOf(virt), 1) in sh {
      SetKnown(m, sh, root, virt, flags, value);
    } else {
      SetStray(m, sh, root, virt, flags, value);
    }
  }
}
