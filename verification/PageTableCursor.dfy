/** The table address in hand while vmm_set_pt_value goes down, and what the call comes to (fckrnl/mm/virt.c). */
module PageTableCursor {
  import opened Bits
  import opened Frames
  import opened Memory
  import opened PageTables
  import opened PageTableUpdates

  /** The address of the table on the path of page v, or of a blank frame off the tree. */
  ghost predicate Cursor(m: Mem, sh: Shape, table: nat, level: nat, v: nat) {
    (PathNode(v, level) in sh && table == sh[PathNode(v, level)] * 4096) || Stray(m, sh, table)
  }

  /** Frames needed below. */
  ghost function Need(sh: Shape, table: nat, level: nat, v: nat): nat {
    if PathNode(v, level) in sh && table == sh[PathNode(v, level)] * 4096 then MissingBelow(sh, v, level)
    else if level > 0 then level - 1 else 0
  }

  /** Flags for a page with that many tables missing: none of them may be made with bit 7. */
  predicate Suits(flags: Word, missing: nat) {
    flags < 512 && (Present(flags) && PageSize(flags) ==> missing == 0)
  }

  lemma {:induction false} NoneMissing(sh: Shape, v: nat, level: nat)
    requires 2 <= level && MissingBelow(sh, v, level) == 0
    ensures PathNode(v, 1) in sh
    decreases level
  {
    if level > 2 { NoneMissing(sh, v, level - 1); }
  }

  lemma StrayOffPath(m: Mem, sh: Shape, a: nat, n: Node)
    requires Stray(m, sh, a) && n in sh
    ensures a != sh[n] * 4096
  {
    assert sh[n] in sh.Values;
  }

  lemma ValuesGrow(sh: Shape, sh1: Shape, n: Node)
    requires Grows(sh, sh1) && sh1.Keys == sh.Keys + {n}
    ensures sh1.Values <= sh.Values + {sh1[n]}
  {
    forall f | f in sh1.Values ensures f in sh.Values + {sh1[n]} {
      var k :| k in sh1 && sh1[k] == f;
      assert k != n ==> k in sh && sh[k] == f;
    }
  }

  lemma CursorStep(m: Mem, sh: Shape, root: nat, table: nat, level: nat, v: nat, flags: Word) returns (sh1: Shape)
    requires Tree(m, sh, root) && v < PAGES && 2 <= level <= 4 && Cursor(m, sh, table, level, v)
    requires Suits(flags, Need(sh, table, level, v)) && |Free(m.frames)| >= Need(sh, table, level, v)
    ensures var (m1, a) := GetOrCreate(m, table, IndexAt(v, level), flags);
      && Tree(m1, sh1, root) && Cursor(m1, sh1, a, level - 1, v)
      && |Free(m1.frames)| >= Need(sh1, a, level - 1, v) && Suits(flags, Need(sh1, a, level - 1, v))
      && sh1.Values <= sh.Values + {a / 4096}
  {
    if Stray(m, sh, table) {
      sh1 := sh;
      StrayStep(m, sh, root, table, level, v, flags);
    } else if PathNode(v, level - 1) in sh {
      sh1 := sh;
      DescendKnown(m, sh, root, v, level, flags);
    } else if Privilege(flags) {
      sh1 := CreateStep(m, sh, root, level, v, flags);
    } else {
      sh1 := sh;
      AbsentStep(m, sh, root, level, v, flags);
    }
  }

  lemma CreateStep(m: Mem, sh: Shape, root: nat, level: nat, v: nat, flags: Word) returns (sh1: Shape)
    requires Tree(m, sh, root) && v < PAGES && 2 <= level <= 4
    requires PathNode(v, level) in sh && PathNode(v, level - 1) !in sh
    requires Privilege(flags) && |Free(m.frames)| >= MissingBelow(sh, v, level)
    ensures var (m1, a) := Descend(m, sh, v, level, flags);
      && Tree(m1, sh1, root) && PathNode(v, level - 1) in sh1 && a == sh1[PathNode(v, level - 1)] * 4096
      && |Free(m1.frames)| >= MissingBelow(sh1, v, level - 1) && sh1.Values <= sh.Values + {a / 4096}
  {
    sh1 := DescendCreates(m, sh, root, v, level, flags);
    ValuesGrow(sh, sh1, PathNode(v, level - 1));
    MissingElsewhere(sh, sh1, v, level - 1, level - 1);
  }

  lemma StrayStep(m: Mem, sh: Shape, root: nat, table: nat, level: nat, v: nat, flags: Word)
    requires Tree(m, sh, root) && v < PAGES && 2 <= level <= 4 && Stray(m, sh, table)
    requires flags < 512 && |Free(m.frames)| >= Need(sh, table, level, v)
    ensures var (m1, a) := GetOrCreate(m, table, IndexAt(v, level), flags);
      Tree(m1, sh, root) && Stray(m1, sh, a) && |Free(m1.frames)| >= Need(sh, a, level - 1, v)
  {
    if PathNode(v, level) in sh { StrayOffPath(m, sh, table, PathNode(v, level)); }
    StrayAgain(m, sh, root, table, IndexAt(v, level), flags);
    var (m1, a) := GetOrCreate(m, table, IndexAt(v, level), flags);
    if PathNode(v, level - 1) in sh { StrayOffPath(m1, sh, a, PathNode(v, level - 1)); }
  }

  lemma AbsentStep(m: Mem, sh: Shape, root: nat, level: nat, v: nat, flags: Word)
    requires Tree(m, sh, root) && v < PAGES && 2 <= level <= 4
    requires PathNode(v, level) in sh && PathNode(v, level - 1) !in sh
    requires flags < 512 && flags % 2 == 0 && |Free(m.frames)| >= MissingBelow(sh, v, level)
    ensures var (m1, a) := Descend(m, sh, v, level, flags);
      Tree(m1, sh, root) && Stray(m1, sh, a) && |Free(m1.frames)| >= Need(sh, a, level - 1, v)
  {
    DescendStrays(m, sh, root, v, level, flags);
    MissingAll(m, sh, root, v, level - 1);
  }

  lemma CursorInRange(m: Mem, sh: Shape, root: nat, table: nat, level: nat, v: nat, i: nat)
    requires Tree(m, sh, root) && Cursor(m, sh, table, level, v) && i < 512
    ensures table / 8 + i < |m.ram|
  {
    if PathNode(v, level) in sh { assert NodeOk(m, sh, PathNode(v, level)); }
    var f := table / 4096;
    assert table == f * 4096 && f < m.frames.top;
    assert table / 8 == f * 512;
  }

  /** What vmm_set_pt_value does to a tree.  With the present flag the missing tables of the page join it,
      one frame each, and the entry of the page becomes the value.  Without it, or with bit 7 where no table
      is missing, no table joins, though each missing one still costs a frame, and the entry changes only
      when its level-1 table is there. */
  ghost predicate EntrySet(m: Mem, sh: Shape, m': Mem, sh': Shape, root: nat, v: nat, flags: Word, value: Word) {
    if Privilege(flags) then
      Updated(m, sh, m', sh', root, WithPath(sh.Keys, v, TOP_LEVEL), Missing(sh, v), v, flags, value)
    else
      && Tree(m', sh', root) && sh' == sh
      && |Free(m'.frames)| + Missing(sh, v) == |Free(m.frames)|
      && Lookup(m'.ram, sh, v) == (if PathNode(v, 1) in sh then value else 0)
      && forall u: nat :: u != v ==> Lookup(m'.ram, sh, u) == Lookup(m.ram, sh, u)
  }

  lemma AfterSet(m: Mem, sh: Shape, root: nat, virt: nat, flags: Word, value: Word) returns (sh': Shape)
    requires Tree(m, sh, root) && Suits(flags, Missing(sh, PageOf(virt)))
    requires |Free(m.frames)| >= Missing(sh, PageOf(virt))
    ensures EntrySet(m, sh, SetPtValue(m, root * 4096, virt, flags, value), sh', root, PageOf(virt), flags, value)
  {
    if Privilege(flags) {
      sh' := SetPresent(m, sh, root, virt, flags, value);
    } else {
      sh' := sh;
      if flags % 2 == 0 {
        SetAbsent(m, sh, root, virt, flags, value);
      } else {
        NoneMissing(sh, PageOf(virt), TOP_LEVEL);
        SetKnown(m, sh, root, virt, flags, value);
      }
    }
  }
}
