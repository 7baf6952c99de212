/** Whole runs of vmm_map_page and vmm_unmap_page (fckrnl/mm/virt.c): the page tables behave like a map
    from virtual pages to entries. */
module PageTableRuns {
  import opened Bits
  import opened Frames
  import opened Memory
  import opened PageTables
  import opened PageTableUpdates

  ghost function MapPage(m: Mem, root: nat, phys: Word, virt: Word, flags: Word): Mem {
    SetPtValue(m, root, AlignDown(virt), flags, Entry(phys, flags))
  }

  ghost function UnmapPage(m: Mem, root: nat, virt: Word): Mem {
    SetPtValue(m, root, AlignDown(virt), 0, 0)
  }

  lemma AlignedPage(virt: Word)
    ensures PageOf(AlignDown(virt)) == PageOf(virt)
  {
    assert AlignDown(virt) == virt / 4096 * 4096;
  }

  datatype Op = Map(phys: Word, virt: Word, flags: Word) | Unmap(virt: Word)

  ghost function Step(m: Mem, root: nat, op: Op): Mem {
    match op
    case Map(phys, virt, flags) => MapPage(m, root, phys, virt, flags)
    case Unmap(virt) => UnmapPage(m, root, virt)
  }

  ghost function Run(m: Mem, root: nat, ops: seq<Op>): Mem
    decreases |ops|
  {
    if ops == [] then m else Run(Step(m, root, ops[0]), root, ops[1..])
  }

  /** The mathematical map: page numbers to leaf entries. */
  type View = map<nat, Word>

  function ViewStep(view: View, op: Op): View {
    match op
    case Map(phys, virt, flags) => view[PageOf(virt) := Entry(phys, flags)]
    case Unmap(virt) => view - {PageOf(virt)}
  }

  function ViewRun(view: View, ops: seq<Op>): View
    decreases |ops|
  {
    if ops == [] then view else ViewRun(ViewStep(view, ops[0]), ops[1..])
  }

  function At(view: View, v: nat): Word {
    if v in view then view[v] else 0
  }

  ghost predicate Refines(ram: seq<Word>, sh: Shape, view: View) {
    forall v: nat :: v < PAGES ==> Lookup(ram, sh, v) == At(view, v)
  }

  predicate OpOk(op: Op) {
    op.Map? ==> Privilege(op.flags)
  }

  lemma StepRefines(m: Mem, sh: Shape, root: nat, view: View, op: Op) returns (sh': Shape)
    requires Tree(m, sh, root) && Refines(m.ram, sh, view) && OpOk(op)
    requires |Free(m.frames)| >= Missing(sh, PageOf(op.virt))
    ensures var m' := Step(m, root * 4096, op);
      && Tree(m', sh', root) && Refines(m'.ram, sh', ViewStep(view, op))
      && |Free(m'.frames)| + Missing(sh, PageOf(op.virt)) == |Free(m.frames)|
  {
    AlignedPage(op.virt);
    match op
    case Map(phys, virt, flags) =>
      sh' := SetPresent(m, sh, root, AlignDown(virt), flags, Entry(phys, flags));
    case Unmap(virt) =>
      SetAbsent(m, sh, root, AlignDown(virt), 0, 0);
      sh' := sh;
  }

  /** The tables missing on the walk of page v, read off memory. */
  function MissingTables(ram: seq<Word>, table: nat, level: nat, v: nat): nat
    decreases level, v
  {
    if level <= 1 then 0
    else
      var e := Read(ram, table / 8 + IndexAt(v, level));
      if Present(e) then MissingTables(ram, Target(e), level - 1, v) else level - 1
  }

  lemma {:induction false} MissingTablesAreMissing(m: Mem, sh: Shape, root: nat, level: nat, v: nat)
    requires Tree(m, sh, root) && v < PAGES && 1 <= level <= 4 && PathNode(v, level) in sh
    ensures MissingTables(m.ram, sh[PathNode(v, level)] * 4096, level, v) == MissingBelow(sh, v, level)
    decreases level
  {
    if level > 1 {
      var f, i := sh[PathNode(v, level)], IndexAt(v, level);
      PathStep(v, level);
      assert f * 4096 / 8 + i == f * 512 + i;
      assert LinkOk(m.ram, sh, PathNode(v, level), i);
      if PathNode(v, level - 1) in sh {
        MissingTablesAreMissing(m, sh, root, level - 1, v);
      } else {
        MissingAll(m, sh, root, v, level - 1);
      }
    }
  }

  /** The allocator has a frame for every table the run creates. */
  ghost predicate Affordable(m: Mem, root: nat, ops: seq<Op>)
    decreases |ops|
  {
    ops != [] ==>
      && |Free(m.frames)| >= MissingTables(m.ram, root, TOP_LEVEL, PageOf(ops[0].virt))
      && Affordable(Step(m, root, ops[0]), root, ops[1..])
  }

  lemma {:induction false} RunRefines(m: Mem, sh: Shape, root: nat, view: View, ops: seq<Op>) returns (sh': Shape)
    requires Tree(m, sh, root) && Refines(m.ram, sh, view)
    requires (forall op :: op in ops ==> OpOk(op)) && Affordable(m, root * 4096, ops)
    ensures var m' := Run(m, root * 4096, ops);
      Tree(m', sh', root) && Refines(m'.ram, sh', ViewRun(view, ops))
    decreases |ops|
  {
    sh' := sh;
    if ops != [] {
      MissingTablesAreMissing(m, sh, root, TOP_LEVEL, PageOf(ops[0].virt));
      sh' := StepRefines(m, sh, root, view, ops[0]);
      sh' := RunRefines(Step(m, root * 4096, ops[0]), sh', root, ViewStep(view, ops[0]), ops[1..]);
    }
  }

  /** After any run of map and unmap calls the processor's walk is the mathematical map: mapping sets one
      key, unmapping removes one, and the tables are still a tree of used frames.  The flags are without
      bit 7; PlainFlagsExactly says why. */
  lemma WalkIsMap(m: Mem, sh: Shape, root: nat, view: View, ops: seq<Op>)
    requires Tree(m, sh, root) && Refines(m.ram, sh, view)
    requires (forall op :: op in ops ==> OpOk(op)) && Affordable(m, root * 4096, ops)
    ensures var m' := Run(m, root * 4096, ops);
      && (exists sh' :: Tree(m', sh', root))
      && forall v: nat :: v < PAGES ==> Translate(m'.ram, root * 4096, v) == HitOf(At(ViewRun(view, ops), v))
  {
    var m' := Run(m, root * 4096, ops);
    var sh' := RunRefines(m, sh, root, view, ops);
    forall v: nat | v < PAGES ensures Translate(m'.ram, root * 4096, v) == HitOf(At(ViewRun(view, ops), v)) {
      TranslateIsLookup(m', sh', root, v);
    }
  }

  /** Three free frames for each call are always enough. */
  lemma {:induction false} ThreeFramesEach(m: Mem, sh: Shape, root: nat, view: View, ops: seq<Op>)
    requires Tree(m, sh, root) && Refines(m.ram, sh, view)
    requires (forall op :: op in ops ==> OpOk(op)) && |Free(m.frames)| >= 3 * |ops|
    ensures Affordable(m, root * 4096, ops)
    decreases |ops|
  {
    if ops != [] {
      MissingTablesAreMissing(m, sh, root, TOP_LEVEL, PageOf(ops[0].virt));
      AtMostThree(sh, PageOf(ops[0].virt), TOP_LEVEL);
      var sh' := StepRefines(m, sh, root, view, ops[0]);
      ThreeFramesEach(Step(m, root * 4096, ops[0]), sh', root, ViewStep(view, ops[0]), ops[1..]);
    }
  }

  lemma {:induction false} AtMostThree(sh: Shape, v: nat, level: nat)
    requires level >= 1
    ensures MissingBelow(sh, v, level) <= level - 1
  {
    if level > 1 { AtMostThree(sh, v, level - 1); }
  }
}
