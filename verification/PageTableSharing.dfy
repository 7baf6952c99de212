/** The page tables beside other holders of pages (fckrnl/mm/virt.c, fckrnl/mm/phys.c): runs in which map and
    unmap calls alternate with page allocations, page returns, and stores to the pages held. */
module PageTableSharing {
  import opened Bits
  import opened Frames
  import opened Memory
  import opened PageTables
  import opened PageTableUpdates
  import opened PageTableRuns
  import opened PageTableCursor

  // ----- a tree in memory is determined by its root

  /** Memory and the address of the root determine the tree. */
  lemma {:induction false} TreesAgreeAt(m: Mem, sh: Shape, sh': Shape, root: nat, n: Node)
    requires Tree(m, sh, root) && Tree(m, sh', root) && n in sh
    ensures n in sh' && sh'[n] == sh[n]
    decreases 4 - n.level
  {
    assert NodeOk(m, sh, n);
    if n.level < 4 {
      var p, i := Parent(n), n.prefix % 512;
      assert Child(p, i) == n;
      TreesAgreeAt(m, sh, sh', root, p);
      assert LinkOk(m.ram, sh, p, i) && LinkOk(m.ram, sh', p, i);
    }
  }

  lemma TreesAgree(m: Mem, sh: Shape, sh': Shape, root: nat)
    requires Tree(m, sh, root) && Tree(m, sh', root)
    ensures sh == sh'
  {
    forall n | n in sh ensures n in sh' && sh'[n] == sh[n] { TreesAgreeAt(m, sh, sh', root, n); }
    forall n | n in sh' ensures n in sh { TreesAgreeAt(m, sh', sh, root, n); }
  }

  // ----- pages of other holders

  /** The held pages are used, and no tables. */
  ghost predicate Foreign(m: Mem, sh: Shape, held: set<nat>) {
    forall p {:trigger ForeignPage(m, sh, p)} :: p in held ==> ForeignPage(m, sh, p)
  }

  ghost predicate ForeignPage(m: Mem, sh: Shape, p: nat) {
    0 < p < m.frames.top && p in m.frames.used && p !in sh.Values
  }

  /** From m to m' only frames were taken, and the held pages are as before. */
  ghost predicate Untouched(m: Mem, m': Mem, held: set<nat>) {
    && |m'.ram| == |m.ram| && m'.frames.top == m.frames.top && m.frames.used <= m'.frames.used
    && forall p, i {:trigger Cell(m'.ram, p, i)} :: p in held && 0 <= i < 512 ==> Cell(m'.ram, p, i) == Cell(m.ram, p, i)
  }

  lemma UntouchedTwice(m: Mem, m1: Mem, m2: Mem, held: set<nat>)
    requires Untouched(m, m1, held) && Untouched(m1, m2, held)
    ensures Untouched(m, m2, held)
  {
    forall p, i | p in held && 0 <= i < 512 ensures Cell(m2.ram, p, i) == Cell(m.ram, p, i) {
      assert Cell(m2.ram, p, i) == Cell(m1.ram, p, i);
    }
  }

  /** A store to a frame nobody else holds. */
  lemma StoreUntouched(m: Mem, f: nat, i: nat, value: Word, held: set<nat>)
    requires i < 512 && f !in held
    ensures Untouched(m, m.(ram := Write(m.ram, f * 512 + i, value)), held)
  {
    var m' := m.(ram := Write(m.ram, f * 512 + i, value));
    forall p, j | p in held && 0 <= j < 512 ensures Cell(m'.ram, p, j) == Cell(m.ram, p, j) {
      assert p * 512 + j != f * 512 + i;
    }
  }

  /** pmm_allocz of a page. */
  lemma AllocUntouched(m: Mem, held: set<nat>)
    requires MemoryOk(m) && Free(m.frames) != {} && held <= m.frames.used
    ensures var (m1, a) := AllocZeroed(m, 1);
      Untouched(m, m1, held) && a == a / 4096 * 4096 && a < WORD && a / 4096 in Free(m.frames)
  {
    AllocOnePage(m.frames);
    var (m1, a) := AllocZeroed(m, 1);
    forall p, j | p in held && 0 <= j < 512 ensures Cell(m1.ram, p, j) == Cell(m.ram, p, j) {
      CellOfZeroed(m.ram, a / 4096, p, j);
    }
  }

  /** vmm_get_or_create_pml in a missing place, at entry i of the table in frame f. */
  lemma CreateUntouched(m: Mem, f: nat, i: nat, flags: Word, held: set<nat>)
    requires MemoryOk(m) && Free(m.frames) != {} && held <= m.frames.used
    requires i < 512 && f !in held && flags < 512 && !Present(Read(m.ram, f * 4096 / 8 + i))
    ensures var (m1, a) := GetOrCreate(m, f * 4096, i, flags);
      Untouched(m, m1, held) && a / 4096 in Free(m.frames)
  {
    AllocUntouched(m, held);
    var (m1, a) := AllocZeroed(m, 1);
    FrameFields(a, flags);
    StoreUntouched(m1, f, i, Entry(a, flags), held);
    TableWord(f, i);
    UntouchedTwice(m, m1, GetOrCreate(m, f * 4096, i, flags).0, held);
  }

  /** The state of vmm_set_pt_value on its way down, where other holders have pages. */
  ghost predicate Beside(m: Mem, sh: Shape, root: nat, table: nat, level: nat, v: nat, held: set<nat>) {
    && Tree(m, sh, root) && Cursor(m, sh, table, level, v)
    && Foreign(m, sh, held) && held <= m.frames.used && table / 4096 !in held
  }

  lemma StepUntouched(m: Mem, sh: Shape, root: nat, table: nat, level: nat, v: nat, flags: Word, held: set<nat>)
      returns (sh1: Shape)
    requires Beside(m, sh, root, table, level, v, held) && v < PAGES && 2 <= level <= 4
    requires Suits(flags, Need(sh, table, level, v)) && |Free(m.frames)| >= Need(sh, table, level, v)
    ensures var (m1, a) := GetOrCreate(m, table, IndexAt(v, level), flags);
      && Beside(m1, sh1, root, a, level - 1, v, held) && Untouched(m, m1, held)
      && Suits(flags, Need(sh1, a, level - 1, v)) && |Free(m1.frames)| >= Need(sh1, a, level - 1, v)
  {
    sh1 := CursorStep(m, sh, root, table, level, v, flags);
    var (m1, a) := GetOrCreate(m, table, IndexAt(v, level), flags);
    OneStep(m, sh, root, table, level, v, flags, held);
    StillForeign(m, sh, m1, sh1, held, a / 4096);
  }

  /** Either the next table is there, or a frame is taken. */
  lemma OneStep(m: Mem, sh: Shape, root: nat, table: nat, level: nat, v: nat, flags: Word, held: set<nat>)
    requires Beside(m, sh, root, table, level, v, held) && v < PAGES && 2 <= level <= 4
    requires flags < 512 && |Free(m.frames)| >= Need(sh, table, level, v)
    ensures var (m1, a) := GetOrCreate(m, table, IndexAt(v, level), flags);
      Untouched(m, m1, held) && a / 4096 !in held
  {
    var i := IndexAt(v, level);
    CursorInRange(m, sh, root, table, level, v, i);
    var f := table / 4096;
    if Present(Read(m.ram, table / 8 + i)) {
      PresentStep(m, sh, root, table, level, v, held);
    } else {
      NeedsFrame(m, sh, root, table, level, v);
      CursorAligned(m, sh, table, level, v);
      CreateUntouched(m, f, i, flags, held);
    }
  }

  lemma CursorAligned(m: Mem, sh: Shape, table: nat, level: nat, v: nat)
    requires Cursor(m, sh, table, level, v)
    ensures table == table / 4096 * 4096
  {
  }

  lemma PresentStep(m: Mem, sh: Shape, root: nat, table: nat, level: nat, v: nat, held: set<nat>)
    requires Beside(m, sh, root, table, level, v, held) && v < PAGES && 2 <= level <= 4
    requires Present(Read(m.ram, table / 8 + IndexAt(v, level)))
    ensures Target(Read(m.ram, table / 8 + IndexAt(v, level))) / 4096 !in held
  {
    var i, n := IndexAt(v, level), PathNode(v, level);
    if Stray(m, sh, table) { StrayCell(m, sh, table, i); }
    var f := sh[n];
    assert f * 4096 / 8 + i == f * 512 + i;
    assert LinkOk(m.ram, sh, n, i);
    var p := sh[Child(n, i)];
    assert p in sh.Values;
    assert p in held ==> ForeignPage(m, sh, p);
    assert p * 4096 / 4096 == p;
  }

  /** An absent entry costs a frame. */
  lemma NeedsFrame(m: Mem, sh: Shape, root: nat, table: nat, level: nat, v: nat)
    requires Tree(m, sh, root) && Cursor(m, sh, table, level, v) && v < PAGES && 2 <= level <= 4
    requires !Present(Read(m.ram, table / 8 + IndexAt(v, level)))
    ensures Need(sh, table, level, v) > 0
  {
    var i, n := IndexAt(v, level), PathNode(v, level);
    if n in sh && table == sh[n] * 4096 {
      var f := sh[n];
      assert f * 4096 / 8 + i == f * 512 + i;
      assert LinkOk(m.ram, sh, n, i);
      PathStep(v, level);
    }
  }

  lemma StillForeign(m: Mem, sh: Shape, m1: Mem, sh1: Shape, held: set<nat>, f: nat)
    requires Foreign(m, sh, held) && Untouched(m, m1, held) && sh1.Values <= sh.Values + {f} && f !in held
    ensures Foreign(m1, sh1, held)
  {
    forall p | p in held ensures ForeignPage(m1, sh1, p) { assert ForeignPage(m, sh, p); }
  }

  lemma {:induction false} DescendUntouched(m: Mem, sh: Shape, root: nat, table: nat, level: nat, v: nat, flags: Word,
                                            held: set<nat>) returns (sh1: Shape)
    requires Beside(m, sh, root, table, level, v, held) && v < PAGES && 1 <= level <= 4
    requires Suits(flags, Need(sh, table, level, v)) && |Free(m.frames)| >= Need(sh, table, level, v)
    ensures var (m1, a) := DescendFrom(m, table, level, v, flags);
      Beside(m1, sh1, root, a, 1, v, held) && Untouched(m, m1, held)
    decreases level
  {
    sh1 := sh;
    if level > 1 {
      var (m1, a) := GetOrCreate(m, table, IndexAt(v, level), flags);
      sh1 := StepUntouched(m, sh, root, table, level, v, flags, held);
      sh1 := DescendUntouched(m1, sh1, root, a, level - 1, v, flags, held);
      UntouchedTwice(m, m1, DescendFrom(m1, a, level - 1, v, flags).0, held);
    }
  }

  /** vmm_set_pt_value leaves the pages of other holders alone, and makes none of them a table. */
  lemma SetUntouched(m: Mem, sh: Shape, root: nat, virt: nat, flags: Word, value: Word, held: set<nat>, sh': Shape)
    requires Tree(m, sh, root) && Foreign(m, sh, held) && Suits(flags, Missing(sh, PageOf(virt)))
    requires |Free(m.frames)| >= Missing(sh, PageOf(virt))
    requires Tree(SetPtValue(m, root * 4096, virt, flags, value), sh', root)
    ensures var m' := SetPtValue(m, root * 4096, virt, flags, value);
      Untouched(m, m', held) && Foreign(m', sh', held)
  {
    var v := PageOf(virt);
    RootBeside(m, sh, root, v, held);
    var sh1 := DescendUntouched(m, sh, root, root * 4096, TOP_LEVEL, v, flags, held);
    var (m1, pt) := DescendAll(m, root * 4096, v, flags);
    var m' := SetPtValue(m, root * 4096, virt, flags, value);
    LeafUntouched(m1, sh1, root, pt, v, value, held);
    UntouchedTwice(m, m1, m', held);
    TreesAgree(m', sh1, sh', root);
  }

  lemma RootBeside(m: Mem, sh: Shape, root: nat, v: nat, held: set<nat>)
    requires Tree(m, sh, root) && Foreign(m, sh, held)
    ensures Beside(m, sh, root, root * 4096, TOP_LEVEL, v, held)
    ensures Need(sh, root * 4096, TOP_LEVEL, v) == Missing(sh, v)
  {
    assert PathNode(v, 4) == ROOT;
    assert root in sh.Values;
    assert root * 4096 / 4096 == root;
    assert root in held ==> ForeignPage(m, sh, root);
    forall p | p in held ensures p in m.frames.used { assert ForeignPage(m, sh, p); }
  }

  lemma LeafUntouched(m: Mem, sh: Shape, root: nat, pt: nat, v: nat, value: Word, held: set<nat>)
    requires Beside(m, sh, root, pt, 1, v, held)
    ensures var m' := m.(ram := Write(m.ram, pt / 8 + v % 512, value));
      Tree(m', sh, root) && Untouched(m, m', held) && Foreign(m', sh, held)
  {
    var f := pt / 4096;
    CursorAligned(m, sh, pt, 1, v);
    assert pt / 8 + v % 512 == f * 512 + v % 512;
    StoreUntouched(m, f, v % 512, value, held);
    if Stray(m, sh, pt) {
      WriteDetached(m, sh, root, f, v % 512, value);
    } else {
      WriteLeaf(m, sh, root, v, value);
    }
    StillForeign(m, sh, m.(ram := Write(m.ram, f * 512 + v % 512, value)), sh, held, f);
  }

  // ----- runs

  /** Memory, and the pages that others hold. */
  datatype World = World(m: Mem, held: set<nat>)

  /** A call of vmm_map_page or vmm_unmap_page, pmm_alloc(1) or pmm_allocz(1), pmm_free of a held page, and a
      store to word index of a held page. */
  datatype Act = PageCall(op: Op) | TakePage(zeroed: bool) | ReturnPage(page: nat)
               | StoreWord(page: nat, index: nat, value: Word)

  ghost function TakeOne(m: Mem, zeroed: bool): (Mem, nat) {
    if zeroed then AllocZeroed(m, 1) else (m.(frames := Alloc(m.frames, 1).0), Alloc(m.frames, 1).1)
  }

  ghost function Advance(x: World, root: nat, act: Act): World {
    match act
    case PageCall(op) => x.(m := Step(x.m, root, op))
    case TakePage(zeroed) =>
      var (m', a) := TakeOne(x.m, zeroed);
      World(m', if a == 0 then x.held else x.held + {a / 4096})
    case ReturnPage(page) =>
      World(x.m.(frames := Release(x.m.frames, page * 4096, 1)), x.held - {page})
    case StoreWord(page, index, value) => x.(m := x.m.(ram := Write(x.m.ram, page * 512 + index, value)))
  }

  /** Holders touch what they hold; map and unmap calls have the frames for the tables they create. */
  ghost predicate Allowed(x: World, root: nat, act: Act) {
    match act
    case PageCall(op) => OpOk(op) && |Free(x.m.frames)| >= MissingTables(x.m.ram, root, TOP_LEVEL, PageOf(op.virt))
    case TakePage(_) => true
    case ReturnPage(page) => page in x.held
    case StoreWord(page, index, _) => page in x.held && index < 512
  }

  ghost predicate AllAllowed(x: World, root: nat, acts: seq<Act>)
    decreases |acts|
  {
    acts != [] ==> Allowed(x, root, acts[0]) && AllAllowed(Advance(x, root, acts[0]), root, acts[1..])
  }

  ghost function AdvanceAll(x: World, root: nat, acts: seq<Act>): World
    decreases |acts|
  {
    if acts == [] then x else AdvanceAll(Advance(x, root, acts[0]), root, acts[1..])
  }

  /** What the holders know of their pages: (page, index) to the word there. */
  type Words = map<(nat, nat), Word>

  function Zeros(page: nat): Words {
    map i: nat | 0 <= i < 512 :: (page, i) := 0
  }

  ghost function WordsAfter(x: World, words: Words, act: Act): Words {
    match act
    case PageCall(_) => words
    case TakePage(zeroed) =>
      var a := Alloc(x.m.frames, 1).1;
      if zeroed && a != 0 then words + Zeros(a / 4096) else words
    case ReturnPage(page) => map k | k in words && k.0 != page :: words[k]
    case StoreWord(page, index, value) => words[(page, index) := value]
  }

  ghost function AllWordsAfter(x: World, root: nat, words: Words, acts: seq<Act>): Words
    decreases |acts|
  {
    if acts == [] then words
    else AllWordsAfter(Advance(x, root, acts[0]), root, WordsAfter(x, words, acts[0]), acts[1..])
  }

  function ViewAfter(view: View, act: Act): View {
    if act.PageCall? then ViewStep(view, act.op) else view
  }

  function ViewAfterAll(view: View, acts: seq<Act>): View
    decreases |acts|
  {
    if acts == [] then view else ViewAfterAll(ViewAfter(view, acts[0]), acts[1..])
  }

  ghost predicate Reads(x: World, words: Words) {
    forall k {:trigger ReadsAt(x, words, k)} :: k in words ==> ReadsAt(x, words, k)
  }

  ghost predicate ReadsAt(x: World, words: Words, k: (nat, nat))
    requires k in words
  {
    k.0 in x.held && k.1 < 512 && Cell(x.m.ram, k.0, k.1) == words[k]
  }

  /** The tables are a tree with the given map, no held page is a table, and every holder reads what it
      knows. */
  ghost predicate InOrder(x: World, sh: Shape, root: nat, view: View, words: Words) {
    Tree(x.m, sh, root) && Refines(x.m.ram, sh, view) && Foreign(x.m, sh, x.held) && Reads(x, words)
  }

  lemma ReadsUntouched(x: World, m': Mem, words: Words)
    requires Reads(x, words) && Untouched(x.m, m', x.held)
    ensures Reads(x.(m := m'), words)
  {
    forall k | k in words ensures ReadsAt(x.(m := m'), words, k) {
      assert ReadsAt(x, words, k);
      assert Cell(m'.ram, k.0, k.1) == Cell(x.m.ram, k.0, k.1);
    }
  }

  lemma PageCallKeeps(x: World, sh: Shape, root: nat, view: View, words: Words, op: Op) returns (sh': Shape)
    requires InOrder(x, sh, root, view, words) && Allowed(x, root * 4096, PageCall(op))
    ensures InOrder(Advance(x, root * 4096, PageCall(op)), sh', root, ViewStep(view, op), words)
  {
    var m := x.m;
    var v := PageOf(op.virt);
    assert PathNode(v, 4) == ROOT;
    MissingTablesAreMissing(m, sh, root, TOP_LEVEL, v);
    sh' := StepRefines(m, sh, root, view, op);
    AlignedPage(op.virt);
    match op {
      case Map(phys, virt, flags) => SetUntouched(m, sh, root, AlignDown(virt), flags, Entry(phys, flags), x.held, sh');
      case Unmap(virt) => SetUntouched(m, sh, root, AlignDown(virt), 0, 0, x.held, sh');
    }
    ReadsUntouched(x, Step(m, root * 4096, op), words);
  }

  // ----- what the holders do

  /** The tree depends on its own frames only. */
  lemma TreeBeside(m: Mem, m': Mem, sh: Shape, root: nat)
    requires Tree(m, sh, root) && MemoryOk(m') && m'.frames.top == m.frames.top
    requires sh.Values <= m'.frames.used && SameTables(m.ram, m'.ram, sh)
    ensures Tree(m', sh, root) && forall v :: Lookup(m'.ram, sh, v) == Lookup(m.ram, sh, v)
  {
    forall n | n in sh ensures NodeOk(m', sh, n) {
      assert NodeOk(m, sh, n);
      assert sh[n] in sh.Values;
    }
    forall n, i | n in sh && n.level >= 2 && 0 <= i < 512 ensures LinkOk(m'.ram, sh, n, i) {
      assert LinkOk(m.ram, sh, n, i);
    }
  }

  lemma TablesUsed(m: Mem, sh: Shape, root: nat)
    requires Tree(m, sh, root)
    ensures sh.Values <= m.frames.used && 0 !in sh.Values
  {
    forall f | f in sh.Values ensures f in m.frames.used && f != 0 {
      var n :| n in sh && sh[n] == f;
      assert NodeOk(m, sh, n);
    }
  }

  lemma ClearedBeside(ram: seq<Word>, sh: Shape, p: nat)
    requires p !in sh.Values
    ensures SameTables(ram, Zeroed(ram, p, 1), sh)
  {
    forall n, i | n in sh && 0 <= i < 512 ensures Cell(Zeroed(ram, p, 1), sh[n], i) == Cell(ram, sh[n], i) {
      assert sh[n] in sh.Values;
      CellOfZeroed(ram, p, sh[n], i);
    }
  }

  /** pmm_alloc or pmm_allocz hands out no table and no held page, and clears at most the page it hands out,
      or page 0. */
  lemma TakePageKeeps(x: World, sh: Shape, root: nat, view: View, words: Words, zeroed: bool)
    requires InOrder(x, sh, root, view, words)
    ensures InOrder(Advance(x, root * 4096, TakePage(zeroed)), sh, root, view, WordsAfter(x, words, TakePage(zeroed)))
    ensures var a := TakeOne(x.m, zeroed).1; a != 0 ==> a / 4096 !in x.held && a / 4096 !in sh.Values
  {
    var (m', a) := TakeOne(x.m, zeroed);
    AllocOnePage(x.m.frames);
    TablesUsed(x.m, sh, root);
    var p := a / 4096;
    if zeroed { ClearedBeside(x.m.ram, sh, p); }
    TreeBeside(x.m, m', sh, root);
    forall q | q in x.held ensures ForeignPage(m', sh, q) && q != p { assert ForeignPage(x.m, sh, q); }
    TakenReads(x, sh, words, zeroed);
  }

  lemma TakenReads(x: World, sh: Shape, words: Words, zeroed: bool)
    requires MemoryOk(x.m) && Foreign(x.m, sh, x.held) && Reads(x, words)
    ensures Reads(Advance(x, 0, TakePage(zeroed)), WordsAfter(x, words, TakePage(zeroed)))
  {
    AllocOnePage(x.m.frames);
    var x', words' := Advance(x, 0, TakePage(zeroed)), WordsAfter(x, words, TakePage(zeroed));
    var p := TakeOne(x.m, zeroed).1 / 4096;
    forall k | k in words' ensures ReadsAt(x', words', k) {
      if k in words {
        assert ReadsAt(x, words, k) && ForeignPage(x.m, sh, k.0);
        assert k.0 != p;
      }
      if zeroed { CellOfZeroed(x.m.ram, p, k.0, k.1); }
    }
  }

  lemma ReturnPageKeeps(x: World, sh: Shape, root: nat, view: View, words: Words, page: nat)
    requires InOrder(x, sh, root, view, words) && page in x.held
    ensures InOrder(Advance(x, root * 4096, ReturnPage(page)), sh, root, view, WordsAfter(x, words, ReturnPage(page)))
  {
    var x', words' := Advance(x, root * 4096, ReturnPage(page)), WordsAfter(x, words, ReturnPage(page));
    assert ForeignPage(x.m, sh, page);
    assert page * 4096 / 4096 == page;
    ReleaseOnePage(x.m.frames, page * 4096);
    TablesUsed(x.m, sh, root);
    TreeBeside(x.m, x'.m, sh, root);
    forall q | q in x'.held ensures ForeignPage(x'.m, sh, q) { assert ForeignPage(x.m, sh, q); }
    forall k | k in words' ensures ReadsAt(x', words', k) { assert ReadsAt(x, words, k); }
  }

  lemma StoreWordKeeps(x: World, sh: Shape, root: nat, view: View, words: Words, page: nat, index: nat, value: Word)
    requires InOrder(x, sh, root, view, words) && page in x.held && index < 512
    ensures var act := StoreWord(page, index, value);
      InOrder(Advance(x, root * 4096, act), sh, root, view, WordsAfter(x, words, act))
  {
    var act := StoreWord(page, index, value);
    var x', words' := Advance(x, root * 4096, act), WordsAfter(x, words, act);
    assert ForeignPage(x.m, sh, page);
    WriteDetached(x.m, sh, root, page, index, value);
    forall q | q in x'.held ensures ForeignPage(x'.m, sh, q) { assert ForeignPage(x.m, sh, q); }
    forall k | k in words' ensures ReadsAt(x', words', k) {
      if k != (page, index) { assert ReadsAt(x, words, k); }
      CellOfWrite(x.m.ram, page, index, value, k.0, k.1);
    }
  }

  lemma ActKeeps(x: World, sh: Shape, root: nat, view: View, words: Words, act: Act) returns (sh': Shape)
    requires InOrder(x, sh, root, view, words) && Allowed(x, root * 4096, act)
    ensures InOrder(Advance(x, root * 4096, act), sh', root, ViewAfter(view, act), WordsAfter(x, words, act))
  {
    sh' := sh;
    match act
    case PageCall(op) => sh' := PageCallKeeps(x, sh, root, view, words, op);
    case TakePage(zeroed) => TakePageKeeps(x, sh, root, view, words, zeroed);
    case ReturnPage(page) => ReturnPageKeeps(x, sh, root, view, words, page);
    case StoreWord(page, index, value) => StoreWordKeeps(x, sh, root, view, words, page, index, value);
  }

  lemma {:induction false} RunKeepsOrder(x: World, sh: Shape, root: nat, view: View, words: Words, acts: seq<Act>)
      returns (sh': Shape)
    requires InOrder(x, sh, root, view, words) && AllAllowed(x, root * 4096, acts)
    ensures InOrder(AdvanceAll(x, root * 4096, acts), sh', root, ViewAfterAll(view, acts),
                    AllWordsAfter(x, root * 4096, words, acts))
    decreases |acts|
  {
    sh' := sh;
    if acts != [] {
      var x1, rest := Advance(x, root * 4096, acts[0]), acts[1..];
      var view1, words1 := ViewAfter(view, acts[0]), WordsAfter(x, words, acts[0]);
      sh' := ActKeeps(x, sh, root, view, words, acts[0]);
      sh' := RunKeepsOrder(x1, sh', root, view1, words1, rest);
    }
  }

  /** The tables are a tree of used frames, and no held page is one of them. */
  ghost predicate Separate(x: World, root: nat) {
    exists sh :: Tree(x.m, sh, root) && Foreign(x.m, sh, x.held)
  }

  /** After any run that mixes page table calls with what other holders of pages do, the processor's walk is
      still the mathematical map, which only the page table calls change; no page a holder has is a table; and
      every holder reads back what it last wrote, or the zeros of pmm_allocz. */
  lemma SharedMemory(x: World, sh: Shape, root: nat, view: View, words: Words, acts: seq<Act>)
    requires InOrder(x, sh, root, view, words) && AllAllowed(x, root * 4096, acts)
    ensures var x', words' := AdvanceAll(x, root * 4096, acts), AllWordsAfter(x, root * 4096, words, acts);
      && Separate(x', root)
      && (forall v: nat :: v < PAGES ==> Translate(x'.m.ram, root * 4096, v) == HitOf(At(ViewAfterAll(view, acts), v)))
      && (forall k :: k in words' ==> Cell(x'.m.ram, k.0, k.1) == words'[k])
  {
    var x', words' := AdvanceAll(x, root * 4096, acts), AllWordsAfter(x, root * 4096, words, acts);
    var sh' := RunKeepsOrder(x, sh, root, view, words, acts);
    assert Separate(x', root);
    forall v: nat | v < PAGES ensures Translate(x'.m.ram, root * 4096, v) == HitOf(At(ViewAfterAll(view, acts), v)) {
      TranslateIsLookup(x'.m, sh', root, v);
    }
    forall k | k in words' ensures Cell(x'.m.ram, k.0, k.1) == words'[k] { assert ReadsAt(x', words', k); }
  }
}
