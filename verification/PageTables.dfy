/** Four-level page tables (fckrnl/mm/virt.c): the table walk of the processor, the update the kernel
    performs, and the tree of table frames that the present entries form. */
module PageTables {
  import opened Bits
  import opened Frames
  import opened Memory

  const ENTRY_MASK: Word := 0xFFFF_FFFF_FFFF_FE00

  // ----- entries

  /** The address of the table an entry points to: the entry without its nine flag bits. */
  function Target(e: Word): Word {
    e - e % 512
  }

  predicate Present(e: Word) {
    e % 2 == 1
  }

  /** Bit 7.  In an entry of level 3 or 2 it is PS and makes the entry map a large page; in one of level 4
      it is reserved; in one of level 1 it is PAT. */
  predicate PageSize(e: Word) {
    e / 128 % 2 == 1
  }

  /** Flags for vmm_map_page: present, within the nine flag bits, and without bit 7, as all of vmm_map_priv_t. */
  predicate Privilege(flags: Word) {
    flags < 512 && Present(flags) && !PageSize(flags)
  }

  /** `e & ~511` is the target, and `e & 1` tests for presence. */
  lemma MasksRead(e: Word)
    ensures And(e, ENTRY_MASK) == Target(e)
    ensures And(e, 1) != 0 <==> Present(e)
  {
    Pow2Values();
    ShlIsProduct(Pow2(55) - 1, 9);
    AndClearsLow(e, 9, 55);
    ShiftsAreDivision(e, 9);
    assert Pow2(1) == 2;
    AndLow(e, 1);
  }

  /** `address | flags`, as a 64-bit word. */
  function Entry(a: nat, flags: Word): Word {
    Or(a, flags) % 0x1_0000_0000_0000_0000
  }

  lemma SumOfFields(a: nat, flags: nat)
    requires a % 512 == 0 && a < WORD && flags < 512
    ensures a + flags < WORD
    ensures (a + flags) % 512 == flags && (a + flags) % 2 == flags % 2
    ensures PageSize(a + flags) <==> PageSize(flags)
  {
    var q := a / 512;
    assert a == q * 512;
    SumFits(a, flags);
    QuotientUnique(a + flags, 512, q, flags);
    SumParity(q, flags);
    SumBit7(q, flags);
  }

  lemma SumParity(q: nat, flags: nat)
    ensures (q * 512 + flags) % 2 == flags % 2
  {
    QuotientUnique(q * 512 + flags, 2, 256 * q + flags / 2, flags % 2);
  }

  lemma SumBit7(q: nat, flags: nat)
    ensures (q * 512 + flags) / 128 % 2 == flags / 128 % 2
  {
    QuotientUnique(q * 512 + flags, 128, 4 * q + flags / 128, flags % 128);
    QuotientUnique(4 * q + flags / 128, 2, 2 * q + flags / 128 / 2, flags / 128 % 2);
  }

  lemma OrFlags(a: nat, flags: nat)
    requires a % 512 == 0 && flags < 512
    ensures Or(a, flags) == a + flags
  {
    Pow2Of9();
    OrDisjoint(a, flags, 9);
  }

  lemma Pow2Of9()
    ensures Pow2(9) == 512
  {
    Pow2Values();
  }

  lemma EntryOfFrame(a: nat, flags: Word)
    requires a % 512 == 0 && a < WORD && flags < 512
    ensures Entry(a, flags) == a + flags
    ensures Target(Entry(a, flags)) == a
    ensures Present(Entry(a, flags)) <==> flags % 2 == 1
  {
    EntryIsSum(a, flags);
    FieldsOfSum(Entry(a, flags), a, flags);
  }

  lemma EntryIsSum(a: nat, flags: Word)
    requires a % 512 == 0 && a < WORD && flags < 512
    ensures Entry(a, flags) == a + flags
  {
    OrFlags(a, flags);
    SumFits(a, flags);
    WordIsKept(a + flags);
  }

  lemma SumFits(a: nat, flags: nat)
    requires a % 512 == 0 && a < WORD && flags < 512
    ensures a + flags < WORD
  {
    assert a == a / 512 * 512;
  }

  lemma WordIsKept(x: nat)
    requires x < WORD
    ensures x % 0x1_0000_0000_0000_0000 == x
  {
  }

  lemma FieldsOfSum(e: Word, a: nat, flags: Word)
    requires a % 512 == 0 && a < WORD && flags < 512 && e == a + flags
    ensures Target(e) == a && e % 512 == flags && (Present(e) <==> flags % 2 == 1) && (PageSize(e) <==> PageSize(flags))
  {
    SumOfFields(a, flags);
  }

  /** The flag bits of an entry. */
  lemma EntryFlags(a: nat, flags: Word)
    requires a % 512 == 0 && a < WORD && flags < 512
    ensures Entry(a, flags) % 512 == flags
    ensures PageSize(Entry(a, flags)) <==> PageSize(flags)
  {
    EntryIsSum(a, flags);
    FieldsOfSum(Entry(a, flags), a, flags);
  }

  lemma MaskedEntry(a: Word, flags: Word)
    requires a % 4096 == 0 && flags < 512
    ensures And(Entry(a, flags), ENTRY_MASK) == a
  {
    FrameAligned(a);
    EntryOfFrame(a, flags);
    MaskedTarget(a, Entry(a, flags));
  }

  lemma FrameAligned(a: nat)
    requires a % 4096 == 0
    ensures a % 512 == 0
  {
    var q := a / 4096;
    assert a == q * 4096;
    QuotientUnique(a, 512, 8 * q, 0);
  }

  lemma MaskedTarget(a: Word, e: Word)
    requires Target(e) == a
    ensures And(e, ENTRY_MASK) == a
  {
    MasksRead(e);
  }

  /** The entry of a frame. */
  lemma FrameFields(a: nat, flags: Word)
    requires a == a / 4096 * 4096 && a < WORD && flags < 512
    ensures var e := Entry(a, flags);
      Target(e) == a && e % 512 == flags && (Present(e) <==> Present(flags)) && (PageSize(e) <==> PageSize(flags))
  {
    var f := a / 4096;
    assert a == f * 4096;
    FrameAligned(a);
    EntryOfFrame(a, flags);
    EntryFlags(a, flags);
  }

  lemma EntryOfZero(flags: Word)
    ensures Entry(0, flags) == flags
  {
  }

  lemma TargetOfWide(e: Word)
    requires e >= 512
    ensures Target(e) != 0
  {
  }

  lemma WideFlagsLeak(flags: Word)
    requires flags >= 512
    ensures And(Entry(0, flags), ENTRY_MASK) != 0
  {
    var e := Entry(0, flags);
    EntryOfZero(flags);
    TargetOfWide(e);
    MaskedTarget(Target(e), e);
  }

  /** Masking with `~511` recovers the exact frame address of every table, whatever its address, exactly
      when the flags stay within nine bits. */
  lemma MaskRecoversExactly(flags: Word)
    ensures (forall a: Word :: a % 4096 == 0 ==> And(Entry(a, flags), ENTRY_MASK) == a) <==> flags < 512
  {
    if flags < 512 {
      forall a: Word | a % 4096 == 0 ensures And(Entry(a, flags), ENTRY_MASK) == a { MaskedEntry(a, flags); }
    } else {
      WideFlagsLeak(flags);
    }
  }

  // ----- words of memory

  function Read(ram: seq<Word>, w: nat): Word {
    if w < |ram| then ram[w] else 0
  }

  function Write(ram: seq<Word>, w: nat, value: Word): (r: seq<Word>)
    ensures |r| == |ram|
  {
    if w < |ram| then ram[w := value] else ram
  }

  /** Entry i of the table in frame f. */
  function Cell(ram: seq<Word>, f: nat, i: nat): Word {
    Read(ram, f * 512 + i)
  }

  // ----- the kernel's update

  /** vmm_get_or_create_pml, for the table at address pml. */
  ghost function GetOrCreate(m: Mem, pml: nat, i: nat, flags: Word): (Mem, Word) {
    var e := Read(m.ram, pml / 8 + i);
    if Present(e) then (m, Target(e))
    else
      var (m', a) := AllocZeroed(m, 1);
      var created := Entry(a, flags);
      (m'.(ram := Write(m'.ram, pml / 8 + i, created)), Target(created))
  }

  // ----- the processor's walk (Intel SDM volume 3A, section 4.5)

  /** 48-bit virtual page numbers. */
  const PAGES: nat := 0x10_0000_0000

  function PageOf(virt: nat): (v: nat)
    ensures v < PAGES
  {
    virt / 4096 % 0x10_0000_0000
  }

  /** The index of page v in its table of the given level. */
  function IndexAt(v: nat, level: nat): (i: nat)
    ensures i < 512
  {
    if level == 2 then v / 0x200 % 512
    else if level == 3 then v / 0x4_0000 % 512
    else if level == 4 then v / 0x800_0000 % 512
    else v % 512
  }

  /** What the processor finds for a page.  Large is an entry of level 3 or 2 with PS set: it maps a page of
      1 GiB or 2 MiB, or faults when its address is not aligned to that. */
  datatype Hit = Miss | Leaf(entry: Word) | Large(level: nat, entry: Word)

  /** The walk for page v from a table of the given level on. */
  function Walk(ram: seq<Word>, table: nat, level: nat, v: nat): Hit
    decreases level, v
  {
    var e := Read(ram, table / 8 + IndexAt(v, level));
    if !Present(e) then Miss
    else if level <= 1 then Leaf(e)
    else if PageSize(e) then (if level == 4 then Miss else Large(level, e))
    else Walk(ram, Target(e), level - 1, v)
  }

  function Translate(ram: seq<Word>, root: nat, v: nat): Hit {
    Walk(ram, root, 4, v)
  }

  /** A level-1 entry as the processor sees it. */
  function HitOf(e: Word): Hit {
    if Present(e) then Leaf(e) else Miss
  }

  // ----- vmm_set_pt_value

  /** The level of the root table. */
  const TOP_LEVEL: nat := 4

  /** The calls of vmm_get_or_create_pml, from a table of the given level down: memory and the address
      of the level-1 table. */
  ghost function DescendFrom(m: Mem, table: nat, level: nat, v: nat, flags: Word): (Mem, nat)
    decreases level, v
  {
    if level <= 1 then (m, table)
    else
      var (m', a) := GetOrCreate(m, table, IndexAt(v, level), flags);
      DescendFrom(m', a, level - 1, v, flags)
  }

  ghost function DescendAll(m: Mem, root: nat, v: nat, flags: Word): (Mem, nat) {
    DescendFrom(m, root, TOP_LEVEL, v, flags)
  }

  /** vmm_set_pt_value without the TLB flush; root is the physical address of the level-4 table. */
  ghost function SetPtValue(m: Mem, root: nat, virt: nat, flags: Word, value: Word): Mem {
    var (m1, pt) := DescendAll(m, root, PageOf(virt), flags);
    m1.(ram := Write(m1.ram, pt / 8 + PageOf(virt) % 512, value))
  }

  // ----- the tree of tables

  /** A table: its level, and the number of the tables of that level before it. */
  datatype Node = Node(level: nat, prefix: nat)

  function Child(n: Node, i: nat): Node
    requires n.level > 0
  {
    Node(n.level - 1, n.prefix * 512 + i)
  }

  function Parent(n: Node): Node {
    Node(n.level + 1, n.prefix / 512)
  }

  function Prefix(v: nat, level: nat): nat {
    if level == 1 then v / 0x200
    else if level == 2 then v / 0x4_0000
    else if level == 3 then v / 0x800_0000
    else 0
  }

  /** The table of the given level on the path of page v. */
  function PathNode(v: nat, level: nat): Node {
    Node(level, Prefix(v, level))
  }

  const ROOT := Node(4, 0)

  /** Where the tables are: the frame of every node. */
  type Shape = map<Node, nat>

  ghost predicate NodeOk(m: Mem, sh: Shape, n: Node)
    requires n in sh
  {
    && 1 <= n.level <= 4 && (n.level == 4 ==> n == ROOT)
    && 0 < sh[n] < m.frames.top && sh[n] in m.frames.used
    && (n.level < 4 ==> Parent(n) in sh)
  }

  ghost predicate LinkOk(ram: seq<Word>, sh: Shape, n: Node, i: nat)
    requires n in sh && n.level >= 2
  {
    var e := Cell(ram, sh[n], i);
    if Present(e) then Child(n, i) in sh && Target(e) == sh[Child(n, i)] * 4096 && !PageSize(e)
    else Child(n, i) !in sh
  }

  ghost predicate OwnFrame(sh: Shape, n: Node, n': Node)
    requires n in sh && n' in sh
  {
    sh[n] == sh[n'] ==> n == n'
  }

  /** The present entries form a tree: every table has its own used frame, and an upper entry is present
      exactly when the table below it exists, at the frame the entry holds; it maps no large page. */
  ghost predicate Tree(m: Mem, sh: Shape, root: nat) {
    && MemoryOk(m)
    && ROOT in sh && sh[ROOT] == root
    && (forall n {:trigger NodeOk(m, sh, n)} :: n in sh ==> NodeOk(m, sh, n))
    && (forall n, n' {:trigger OwnFrame(sh, n, n')} :: n in sh && n' in sh ==> OwnFrame(sh, n, n'))
    && (forall n, i {:trigger LinkOk(m.ram, sh, n, i)} :: n in sh && n.level >= 2 && 0 <= i < 512 ==> LinkOk(m.ram, sh, n, i))
  }

  /** The entry for page v, read off the tree. */
  ghost function Lookup(ram: seq<Word>, sh: Shape, v: nat): Word {
    if PathNode(v, 1) in sh then Cell(ram, sh[PathNode(v, 1)], v % 512) else 0
  }

  lemma PathStep(v: nat, level: nat)
    requires v < PAGES && 2 <= level <= 4
    ensures PathNode(v, level - 1) == Child(PathNode(v, level), IndexAt(v, level))
    ensures Parent(PathNode(v, level - 1)) == PathNode(v, level)
  {
  }

  lemma {:induction false} WalkIsLookup(m: Mem, sh: Shape, root: nat, level: nat, v: nat)
    requires Tree(m, sh, root) && v < PAGES && 1 <= level <= 4 && PathNode(v, level) in sh
    ensures Walk(m.ram, sh[PathNode(v, level)] * 4096, level, v) == HitOf(Lookup(m.ram, sh, v))
  {
    var f, i := sh[PathNode(v, level)], IndexAt(v, level);
    WalkStep(m.ram, f, level, v);
    if level > 1 {
      PathStep(v, level);
      assert LinkOk(m.ram, sh, PathNode(v, level), i);
      if Present(Cell(m.ram, f, i)) {
        WalkIsLookup(m, sh, root, level - 1, v);
      } else if PathNode(v, 1) in sh {
        AncestorsThere(m, sh, root, level - 1, v);
      }
    }
  }

  lemma TableWord(f: nat, i: nat)
    ensures f * 4096 / 8 + i == f * 512 + i
  {
  }

  lemma WalkStep(ram: seq<Word>, f: nat, level: nat, v: nat)
    ensures var e := Cell(ram, f, IndexAt(v, level));
      Walk(ram, f * 4096, level, v) ==
        if !Present(e) then Miss else if level <= 1 then Leaf(e)
        else if PageSize(e) then (if level == 4 then Miss else Large(level, e))
        else Walk(ram, Target(e), level - 1, v)
  {
    TableWord(f, IndexAt(v, level));
  }

  /** A table exists only below its ancestors. */
  lemma {:induction false} AncestorsThere(m: Mem, sh: Shape, root: nat, level: nat, v: nat)
    requires Tree(m, sh, root) && v < PAGES && 1 <= level <= 4 && PathNode(v, 1) in sh
    ensures PathNode(v, level) in sh
  {
    if level > 1 {
      AncestorsThere(m, sh, root, level - 1, v);
      assert NodeOk(m, sh, PathNode(v, level - 1));
      PathStep(v, level);
    }
  }

  /** The processor's walk of memory reads the tree. */
  lemma TranslateIsLookup(m: Mem, sh: Shape, root: nat, v: nat)
    requires Tree(m, sh, root) && v < PAGES
    ensures Translate(m.ram, root * 4096, v) == HitOf(Lookup(m.ram, sh, v))
  {
    WalkIsLookup(m, sh, root, 4, v);
  }

  // ----- what changes of memory keep the tree

  /** The words of the tables are the same in ram and ram'. */
  ghost predicate SameTables(ram: seq<Word>, ram': seq<Word>, sh: Shape) {
    forall n, i {:trigger Cell(ram', sh[n], i)} :: n in sh && 0 <= i < 512 ==> Cell(ram', sh[n], i) == Cell(ram, sh[n], i)
  }

  lemma TreeFrame(m: Mem, m': Mem, sh: Shape, root: nat)
    requires Tree(m, sh, root) && MemoryOk(m')
    requires m.frames.used <= m'.frames.used && m'.frames.top == m.frames.top
    requires SameTables(m.ram, m'.ram, sh)
    ensures Tree(m', sh, root)
    ensures forall v :: Lookup(m'.ram, sh, v) == Lookup(m.ram, sh, v)
  {
    forall n | n in sh ensures NodeOk(m', sh, n) { assert NodeOk(m, sh, n); }
    forall n, i | n in sh && n.level >= 2 && 0 <= i < 512 ensures LinkOk(m'.ram, sh, n, i) {
      assert LinkOk(m.ram, sh, n, i);
    }
  }

  /** Writing entry i of frame f changes that entry and no other. */
  lemma CellOfWrite(ram: seq<Word>, f: nat, i: nat, value: Word, g: nat, j: nat)
    requires i < 512 && j < 512 && f * 512 + i < |ram|
    ensures Cell(Write(ram, f * 512 + i, value), g, j) == if g == f && i == j then value else Cell(ram, g, j)
  {
  }

  /** Clearing n frames clears every entry of theirs, and leaves every other frame alone. */
  lemma CellOfCleared(ram: seq<Word>, p: nat, n: nat, g: nat, j: nat)
    requires j < 512
    ensures Cell(Zeroed(ram, p, n), g, j) == if p <= g < p + n then 0 else Cell(ram, g, j)
  {
    var w := g * 512 + j;
    assert w / 512 == g;
    if w < |ram| { ZeroedWord(ram, p, n, w); }
  }

  /** One frame. */
  lemma CellOfZeroed(ram: seq<Word>, f: nat, g: nat, j: nat)
    requires j < 512
    ensures Cell(Zeroed(ram, f, 1), g, j) == if g == f then 0 else Cell(ram, g, j)
  {
  }

  ghost predicate Blank(ram: seq<Word>, f: nat) {
    forall i :: 0 <= i < 512 ==> Cell(ram, f, i) == 0
  }

  /** A used frame that is no table. */
  ghost predicate Detached(m: Mem, sh: Shape, f: nat) {
    0 < f < m.frames.top && f in m.frames.used && f !in sh.Values
  }

  /** Same translation of every page. */
  ghost predicate SameLookups(ram: seq<Word>, sh: Shape, ram': seq<Word>, sh': Shape) {
    forall v: nat :: Lookup(ram', sh', v) == Lookup(ram, sh, v)
  }

  /** The address of a blank frame that is no table. */
  ghost predicate Stray(m: Mem, sh: Shape, a: nat) {
    a == a / 4096 * 4096 && Detached(m, sh, a / 4096) && Blank(m.ram, a / 4096)
  }

  /** From m to m' the tree and every translation stayed, and that many frames left the allocator. */
  ghost predicate Leaked(m: Mem, m': Mem, sh: Shape, root: nat, cost: nat) {
    && Tree(m', sh, root)
    && |Free(m'.frames)| + cost == |Free(m.frames)|
    && SameLookups(m.ram, sh, m'.ram, sh)
  }

  /** A frame taken from the allocator is blank, is no table of the tree, and leaves the tree as it is. */
  lemma FreshFrame(m: Mem, sh: Shape, root: nat)
    requires Tree(m, sh, root) && Free(m.frames) != {}
    ensures var (m', a) := AllocZeroed(m, 1);
      && a < WORD && a / 4096 in Free(m.frames)
      && Stray(m', sh, a) && Leaked(m, m', sh, root, 1) && SameTables(m.ram, m'.ram, sh)
  {
    AllocOnePage(m.frames);
    var (m', a) := AllocZeroed(m, 1);
    var f := a / 4096;
    forall n | n in sh ensures sh[n] != f { assert NodeOk(m, sh, n); }
    forall n, i | n in sh && 0 <= i < 512 ensures Cell(m'.ram, sh[n], i) == Cell(m.ram, sh[n], i) {
      CellOfZeroed(m.ram, f, sh[n], i);
    }
    forall i | 0 <= i < 512 ensures Cell(m'.ram, f, i) == 0 { CellOfZeroed(m.ram, f, f, i); }
    TreeFrame(m, m', sh, root);
  }

  /** Writing into a frame that is no table changes no translation. */
  lemma WriteDetached(m: Mem, sh: Shape, root: nat, f: nat, i: nat, value: Word)
    requires Tree(m, sh, root) && Detached(m, sh, f) && i < 512
    ensures var m' := m.(ram := Write(m.ram, f * 512 + i, value));
      Tree(m', sh, root) && forall v :: Lookup(m'.ram, sh, v) == Lookup(m.ram, sh, v)
  {
    var m' := m.(ram := Write(m.ram, f * 512 + i, value));
    forall n, j | n in sh && 0 <= j < 512 ensures Cell(m'.ram, sh[n], j) == Cell(m.ram, sh[n], j) {
      CellOfWrite(m.ram, f, i, value, sh[n], j);
    }
    TreeFrame(m, m', sh, root);
  }

  /** Writing a leaf entry changes the translation of its page and of no other. */
  lemma WriteLeaf(m: Mem, sh: Shape, root: nat, v: nat, value: Word)
    requires Tree(m, sh, root) && PathNode(v, 1) in sh
    ensures var m' := m.(ram := Write(m.ram, sh[PathNode(v, 1)] * 512 + v % 512, value));
      && Tree(m', sh, root)
      && Lookup(m'.ram, sh, v) == value
      && forall u: nat :: u != v ==> Lookup(m'.ram, sh, u) == Lookup(m.ram, sh, u)
  {
    var p := PathNode(v, 1);
    var m' := m.(ram := Write(m.ram, sh[p] * 512 + v % 512, value));
    assert NodeOk(m, sh, p);
    forall n, j | n in sh && 0 <= j < 512
      ensures Cell(m'.ram, sh[n], j) == if n == p && j == v % 512 then value else Cell(m.ram, sh[n], j)
    {
      assert OwnFrame(sh, p, n);
      CellOfWrite(m.ram, sh[p], v % 512, value, sh[n], j);
    }
    forall n | n in sh ensures NodeOk(m', sh, n) { assert NodeOk(m, sh, n); }
    forall n, i | n in sh && n.level >= 2 && 0 <= i < 512 ensures LinkOk(m'.ram, sh, n, i) {
      assert LinkOk(m.ram, sh, n, i);
    }
    forall u: nat | u != v ensures Lookup(m'.ram, sh, u) == Lookup(m.ram, sh, u) {
      assert u / 512 != v / 512 || u % 512 != v % 512;
    }
  }

  lemma ChildrenDiffer(n: Node, i: nat, n': Node, i': nat)
    requires n.level > 0 && n'.level > 0 && i < 512 && i' < 512 && Child(n, i) == Child(n', i')
    ensures n == n' && i == i'
  {
  }

  lemma NoOrphan(m: Mem, sh: Shape, root: nat, c: Node, i: nat)
    requires Tree(m, sh, root) && 0 < c.level && i < 512 && Child(c, i) in sh
    ensures c in sh || c.level >= 4
  {
    assert NodeOk(m, sh, Child(c, i));
    assert Parent(Child(c, i)) == c;
  }

  /** Hanging a blank frame under a table by a present entry adds one node to the tree and changes no
      translation. */
  lemma LinkChild(m: Mem, sh: Shape, root: nat, n: Node, i: nat, f: nat, e: Word)
    requires Tree(m, sh, root) && n in sh && n.level >= 2 && i < 512 && Child(n, i) !in sh
    requires Detached(m, sh, f) && Blank(m.ram, f)
    requires Present(e) && Target(e) == f * 4096 && !PageSize(e)
    ensures var m' := m.(ram := Write(m.ram, sh[n] * 512 + i, e)); var sh' := sh[Child(n, i) := f];
      && Tree(m', sh', root)
      && forall v :: Lookup(m'.ram, sh', v) == Lookup(m.ram, sh, v)
  {
    var c := Child(n, i);
    var m' := m.(ram := Write(m.ram, sh[n] * 512 + i, e));
    var sh' := sh[c := f];
    assert NodeOk(m, sh, n);
    CellsAfterLink(m, sh, root, n, i, f, e);
    assert NodeOk(m', sh', c);
    forall n' | n' in sh' ensures NodeOk(m', sh', n') { if n' != c { assert NodeOk(m, sh, n'); } }
    forall n1, n2 | n1 in sh' && n2 in sh' ensures OwnFrame(sh', n1, n2) {
      if n1 in sh && n2 in sh { assert OwnFrame(sh, n1, n2); }
    }
    forall n', i' | n' in sh' && n'.level >= 2 && 0 <= i' < 512 ensures LinkOk(m'.ram, sh', n', i') {
      LinksAfterLink(m, sh, root, n, i, f, e, n', i');
    }
    forall v ensures Lookup(m'.ram, sh', v) == Lookup(m.ram, sh, v) {}
  }

  lemma CellsAfterLink(m: Mem, sh: Shape, root: nat, n: Node, i: nat, f: nat, e: Word)
    requires Tree(m, sh, root) && n in sh && i < 512
    requires Detached(m, sh, f) && Blank(m.ram, f)
    ensures var ram' := Write(m.ram, sh[n] * 512 + i, e);
      && Blank(ram', f)
      && forall n', j :: n' in sh && 0 <= j < 512 ==>
           Cell(ram', sh[n'], j) == if n' == n && j == i then e else Cell(m.ram, sh[n'], j)
  {
    var ram' := Write(m.ram, sh[n] * 512 + i, e);
    assert NodeOk(m, sh, n);
    forall n', j | n' in sh && 0 <= j < 512
      ensures Cell(ram', sh[n'], j) == if n' == n && j == i then e else Cell(m.ram, sh[n'], j)
    {
      assert OwnFrame(sh, n, n');
      CellOfWrite(m.ram, sh[n], i, e, sh[n'], j);
    }
    forall j | 0 <= j < 512 ensures Cell(ram', f, j) == 0 { CellOfWrite(m.ram, sh[n], i, e, f, j); }
  }

  lemma LinksAfterLink(m: Mem, sh: Shape, root: nat, n: Node, i: nat, f: nat, e: Word, n': Node, i': nat)
    requires Tree(m, sh, root) && n in sh && n.level >= 2 && i < 512 && Child(n, i) !in sh
    requires Detached(m, sh, f) && Blank(m.ram, f)
    requires Present(e) && Target(e) == f * 4096 && !PageSize(e)
    requires n' in sh[Child(n, i) := f] && n'.level >= 2 && i' < 512
    ensures LinkOk(Write(m.ram, sh[n] * 512 + i, e), sh[Child(n, i) := f], n', i')
  {
    var c := Child(n, i);
    CellsAfterLink(m, sh, root, n, i, f, e);
    var c' := Child(n', i');
    if n' == c {
      assert NodeOk(m, sh, n);
      if c' in sh { NoOrphan(m, sh, root, c, i'); }
    } else {
      assert LinkOk(m.ram, sh, n', i');
      if c' == c { ChildrenDiffer(n, i, n', i'); }
    }
  }

  // ----- the indices

  /** The index the kernel extracts at each level: `(virt & (0x1ff << shift)) >> shift`. */
  function Index(virt: Word, shift: nat): nat {
    Field(virt, 9, shift)
  }

  lemma IndexIsField(virt: Word, shift: nat)
    ensures Index(virt, shift) == virt / Pow2(shift) % 512
  {
    Pow2Values();
    FieldIsDivision(virt, 9, shift);
    ShiftsAreDivision(virt, shift);
    ShiftsAreDivision(Shr(virt, shift), 9);
  }

  lemma DropMultiple(k: nat, y: nat)
    ensures (512 * k + y) % 512 == y % 512
  {
  }

  lemma IndexLevel4(virt: Word)
    ensures Index(virt, 39) == IndexAt(PageOf(virt), 4)
  {
    Pow2Values();
    IndexIsField(virt, 39);
    var x := virt / 4096;
    var q, r := x / 0x10_0000_0000, x % 0x10_0000_0000;
    assert x == q * 0x10_0000_0000 + r;
    assert virt / 0x80_0000_0000 == x / 0x800_0000;
    assert x / 0x800_0000 == 512 * (q) + r / 0x800_0000;
    DropMultiple(q, r / 0x800_0000);
  }

  lemma IndexLevel3(virt: Word)
    ensures Index(virt, 30) == IndexAt(PageOf(virt), 3)
  {
    Pow2Values();
    IndexIsField(virt, 30);
    var x := virt / 4096;
    var q, r := x / 0x10_0000_0000, x % 0x10_0000_0000;
    assert x == q * 0x10_0000_0000 + r;
    assert virt / 0x4000_0000 == x / 0x4_0000;
    assert x / 0x4_0000 == 512 * (512 * q) + r / 0x4_0000;
    DropMultiple(512 * q, r / 0x4_0000);
  }

  lemma IndexLevel2(virt: Word)
    ensures Index(virt, 21) == IndexAt(PageOf(virt), 2)
  {
    Pow2Values();
    IndexIsField(virt, 21);
    var x := virt / 4096;
    var q, r := x / 0x10_0000_0000, x % 0x10_0000_0000;
    assert x == q * 0x10_0000_0000 + r;
    assert virt / 0x20_0000 == x / 0x200;
    assert x / 0x200 == 512 * (0x4_0000 * q) + r / 0x200;
    DropMultiple(0x4_0000 * q, r / 0x200);
  }

  lemma IndexLevel1(virt: Word)
    ensures Index(virt, 12) == IndexAt(PageOf(virt), 1)
  {
    Pow2Values();
    IndexIsField(virt, 12);
    var x := virt / 4096;
    var q, r := x / 0x10_0000_0000, x % 0x10_0000_0000;
    assert x == q * 0x10_0000_0000 + r;
    assert virt / 0x1000 == x / 1;
    assert x / 1 == 512 * (0x800_0000 * q) + r / 1;
    DropMultiple(0x800_0000 * q, r / 1);
  }

  /** The four fields of the address are the indices of the walk. */
  lemma IndexMeaning(virt: Word)
    ensures Index(virt, 39) == IndexAt(PageOf(virt), 4)
    ensures Index(virt, 30) == IndexAt(PageOf(virt), 3)
    ensures Index(virt, 21) == IndexAt(PageOf(virt), 2)
    ensures Index(virt, 12) == IndexAt(PageOf(virt), 1)
  {
    IndexLevel4(virt);
    IndexLevel3(virt);
    IndexLevel2(virt);
    IndexLevel1(virt);
  }
}
