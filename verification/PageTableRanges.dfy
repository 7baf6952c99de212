/** vmm_map_range and vmm_unmap_range (fckrnl/mm/virt.c): what they translate, how many frames they take,
    and the access rights they leave. */
module PageTableRanges {
  import opened Bits
  import opened Intervals
  import opened Frames
  import opened Memory
  import opened PageTables
  import opened PageTableUpdates
  import opened PageTableRuns

  // ----- the loops

  /** The address that physical page k is mapped at: the addition wraps. */
  function VirtOf(k: nat, offset: Word): Word {
    (k * 4096 + offset) % 0x1_0000_0000_0000_0000
  }

  /** n rounds of the loop of vmm_map_range, from physical page k on. */
  ghost function MapPages(m: Mem, root: nat, k: nat, n: nat, offset: Word, flags: Word): Mem
    requires (k + n) * 4096 <= WORD
    decreases n, m
  {
    if n == 0 then m
    else MapPages(MapPage(m, root, k * 4096, VirtOf(k, offset), flags), root, k + 1, n - 1, offset, flags)
  }

  ghost function UnmapPages(m: Mem, root: nat, k: nat, n: nat): Mem
    requires (k + n) * 4096 <= WORD
    decreases n, m
  {
    if n == 0 then m else UnmapPages(UnmapPage(m, root, k * 4096), root, k + 1, n - 1)
  }

  /** The pages from ALIGN_DOWN(start) up to ALIGN_UP(end); the latter is 0 when it overflows. */
  function FirstPage(start: Word): nat {
    AlignDown(start) / 4096
  }

  function PageCount(start: Word, end: Word): (n: nat)
    ensures (FirstPage(start) + n) * 4096 <= WORD
  {
    var last := AlignUp(end) / 4096;
    if last > FirstPage(start) then last - FirstPage(start) else 0
  }

  ghost function MapRange(m: Mem, root: nat, start: Word, end: Word, offset: Word, flags: Word): Mem {
    MapPages(m, root, FirstPage(start), PageCount(start, end), offset, flags)
  }

  ghost function UnmapRange(m: Mem, root: nat, start: Word, end: Word): Mem {
    UnmapPages(m, root, FirstPage(start), PageCount(start, end))
  }

  // ----- pages of a range; addresses wrap at 64 bits, page numbers at 36

  function NextPage(p: nat): nat {
    if p + 1 == PAGES then 0 else p + 1
  }

  /** How far page u lies after page p. */
  function Distance(p: nat, u: nat): nat
    requires p < PAGES
  {
    if u >= p then u - p else u + PAGES - p
  }

  lemma WrappedPage(x: nat)
    ensures PageOf(x % 0x1_0000_0000_0000_0000) == PageOf(x)
  {
    var q, r := x / 0x1_0000_0000_0000_0000, x % 0x1_0000_0000_0000_0000;
    assert x == q * 0x1_0000_0000_0000_0000 + r;
    assert x / 4096 == q * 0x10_0000_0000_0000 + r / 4096;
    DropPages(q, r / 4096);
  }

  lemma DropPages(q: nat, y: nat)
    ensures (q * 0x10_0000_0000_0000 + y) % 0x10_0000_0000 == y % 0x10_0000_0000
  {
    var k := q * 0x1_0000;
    assert q * 0x10_0000_0000_0000 == k * 0x10_0000_0000;
    QuotientUnique(k * 0x10_0000_0000 + y, PAGES, k + y / 0x10_0000_0000, y % 0x10_0000_0000);
  }

  /** The virtual page that physical page k is mapped at. */
  function PageAt(k: nat, offset: Word): (p: nat)
    ensures p < PAGES
  {
    PageOf(k * 4096 + offset)
  }

  lemma PageOfVirt(k: nat, offset: Word)
    ensures PageOf(VirtOf(k, offset)) == PageAt(k, offset)
  {
    WrappedPage(k * 4096 + offset);
  }

  lemma PageAfter(k: nat, offset: Word)
    ensures PageAt(k + 1, offset) == NextPage(PageAt(k, offset))
  {
    var x := k * 4096 + offset;
    assert (x + 4096) / 4096 == x / 4096 + 1;
  }

  // ----- the tables of a range

  /** The given tables and those on the paths of n pages from p on. */
  ghost function WithPaths(keys: set<Node>, p: nat, n: nat): set<Node>
    decreases n, keys
  {
    if n == 0 then keys else WithPaths(WithPath(keys, p, TOP_LEVEL), NextPage(p), n - 1)
  }

  lemma {:induction false} PathGrows(keys: set<Node>, v: nat, level: nat)
    ensures keys <= WithPath(keys, v, level) && |keys| <= |WithPath(keys, v, level)|
    decreases level
  {
    if level > 1 {
      PathGrows(keys + {PathNode(v, level - 1)}, v, level - 1);
    }
    SubsetSize(keys, WithPath(keys, v, level));
  }

  lemma {:induction false} PathsGrow(keys: set<Node>, p: nat, n: nat)
    ensures keys <= WithPaths(keys, p, n) && |keys| <= |WithPaths(keys, p, n)|
    decreases n
  {
    if n > 0 {
      PathGrows(keys, p, TOP_LEVEL);
      PathsGrow(WithPath(keys, p, TOP_LEVEL), NextPage(p), n - 1);
    }
    SubsetSize(keys, WithPaths(keys, p, n));
  }

  /** Frames still free plus tables in the tree: every mapping moves frames from one to the other. */
  ghost function Stock(m: Mem, sh: Shape): nat {
    |Free(m.frames)| + |sh.Keys|
  }

  lemma {:induction false} MissingIsGrowth(sh: Shape, keys: set<Node>, v: nat, level: nat)
    requires forall k: nat {:trigger PathNode(v, k)} :: k < level ==> (PathNode(v, k) in keys <==> PathNode(v, k) in sh)
    ensures MissingBelow(sh, v, level) + |keys| == |WithPath(keys, v, level)|
    decreases level
  {
    if level > 1 {
      var n := PathNode(v, level - 1);
      MissingIsGrowth(sh, keys + {n}, v, level - 1);
      if n in sh { assert keys + {n} == keys; }
    }
  }

  lemma MapPageMeaning(m: Mem, sh: Shape, root: nat, phys: Word, virt: Word, flags: Word) returns (sh': Shape)
    requires Tree(m, sh, root) && Privilege(flags)
    requires Stock(m, sh) >= |WithPath(sh.Keys, PageOf(virt), TOP_LEVEL)|
    ensures var v := PageOf(virt); var m' := MapPage(m, root * 4096, phys, virt, flags);
      && Tree(m', sh', root)
      && sh'.Keys == WithPath(sh.Keys, v, TOP_LEVEL) && Stock(m', sh') == Stock(m, sh)
      && Lookup(m'.ram, sh', v) == Entry(phys, flags)
      && (forall u: nat :: u != v ==> Lookup(m'.ram, sh', u) == Lookup(m.ram, sh, u))
      && EntriesFrom(m.ram, sh, m'.ram, sh', v, flags)
  {
    AlignedPage(virt);
    MissingIsGrowth(sh, sh.Keys, PageOf(virt), TOP_LEVEL);
    sh' := SetPresent(m, sh, root, AlignDown(virt), flags, Entry(phys, flags));
  }

  // ----- access rights

  /** The level-4 slot an upper entry lies under. */
  function Slot(n: Node, i: nat): nat {
    if n.level == 4 then i else if n.level == 3 then n.prefix else n.prefix / 512
  }

  function SlotOfPage(v: nat): nat {
    v / 0x800_0000
  }

  /** Which flags each level-4 slot has been mapped with, when that is known. */
  type Rights = Option<nat -> Word>

  predicate Allows(rights: Rights, slot: nat, flags: Word) {
    rights.Some? ==> rights.value(slot) == flags
  }

  ghost predicate Uniform(ram: seq<Word>, sh: Shape, rights: Rights) {
    rights.Some? ==> forall n, i {:trigger Cell(ram, sh[n], i)} :: n in sh && n.level >= 2 && 0 <= i < 512 && Present(Cell(ram, sh[n], i)) ==>
      Cell(ram, sh[n], i) % 512 == rights.value(Slot(n, i))
  }

  lemma SlotOnPath(v: nat, n: Node, i: nat)
    requires v < PAGES && OnPath(v, n, i) && 2 <= n.level <= 4
    ensures Slot(n, i) == SlotOfPage(v)
  {
  }

  lemma UniformKept(m: Mem, sh: Shape, m': Mem, sh': Shape, root: nat, v: nat, flags: Word, rights: Rights)
    requires Tree(m', sh', root) && v < PAGES
    requires Uniform(m.ram, sh, rights) && EntriesFrom(m.ram, sh, m'.ram, sh', v, flags)
    requires Allows(rights, SlotOfPage(v), flags)
    ensures Uniform(m'.ram, sh', rights)
  {
    forall n, i | rights.Some? && n in sh' && n.level >= 2 && 0 <= i < 512 && Present(Cell(m'.ram, sh'[n], i))
      ensures Cell(m'.ram, sh'[n], i) % 512 == rights.value(Slot(n, i))
    {
      assert NodeOk(m', sh', n);
      if n in sh && Cell(m'.ram, sh'[n], i) == Cell(m.ram, sh[n], i) {
        assert Present(Cell(m.ram, sh[n], i));
      } else {
        SlotOnPath(v, n, i);
      }
    }
  }

  /** Flag b is granted for page v: every entry of its walk has it (Intel SDM volume 3A, section 4.6). */
  predicate Granted(ram: seq<Word>, table: nat, level: nat, v: nat, b: nat)
    decreases level, v
  {
    var e := Read(ram, table / 8 + IndexAt(v, level));
    Bit(e % 512, b) && (level <= 1 || (!PageSize(e) && Granted(ram, Target(e), level - 1, v, b)))
  }

  lemma UniformEntry(m: Mem, sh: Shape, root: nat, level: nat, v: nat, rights: Rights)
    requires Tree(m, sh, root) && rights.Some? && Uniform(m.ram, sh, rights) && v < PAGES && 2 <= level <= 4
    requires PathNode(v, level) in sh && PathNode(v, level - 1) in sh
    ensures var e := Cell(m.ram, sh[PathNode(v, level)], IndexAt(v, level));
      e % 512 == rights.value(SlotOfPage(v)) && Target(e) == sh[PathNode(v, level - 1)] * 4096 && !PageSize(e)
  {
    var n, i := PathNode(v, level), IndexAt(v, level);
    PathStep(v, level);
    assert LinkOk(m.ram, sh, n, i);
    SlotOnPath(v, n, i);
  }

  /** Under uniform rights the walk of a page grants exactly the flags its slot was mapped with. */
  lemma {:induction false} GrantedIsUniform(m: Mem, sh: Shape, root: nat, level: nat, v: nat, rights: Rights, b: nat)
    requires Tree(m, sh, root) && rights.Some? && Uniform(m.ram, sh, rights) && v < PAGES && 1 <= level <= 4
    requires PathNode(v, 1) in sh && PathNode(v, level) in sh
    requires Lookup(m.ram, sh, v) % 512 == rights.value(SlotOfPage(v))
    ensures Granted(m.ram, sh[PathNode(v, level)] * 4096, level, v, b) <==> Bit(rights.value(SlotOfPage(v)), b)
    decreases level
  {
    var f, i := sh[PathNode(v, level)], IndexAt(v, level);
    assert f * 4096 / 8 + i == f * 512 + i;
    if level > 1 {
      AncestorsThere(m, sh, root, level - 1, v);
      UniformEntry(m, sh, root, level, v, rights);
      GrantedIsUniform(m, sh, root, level - 1, v, rights, b);
    }
  }

  // ----- what a mapped range means

  /** Entry of page u after n pages from p on were mapped to the frames from address i on. */
  function RangeEntry(u: nat, p: nat, n: nat, i: nat, flags: nat, before: Word): nat
    requires p < PAGES
  {
    if Distance(p, u) < n then i + Distance(p, u) * 4096 + flags else before
  }

  ghost predicate RangeMapped(m: Mem, sh: Shape, m': Mem, sh': Shape, p: nat, n: nat, i: nat, flags: Word)
    requires p < PAGES
  {
    forall u: nat {:trigger Lookup(m'.ram, sh', u)} :: u < PAGES ==>
      Lookup(m'.ram, sh', u) == RangeEntry(u, p, n, i, flags, Lookup(m.ram, sh, u))
  }

  lemma RangeExtends(m: Mem, sh: Shape, m1: Mem, sh1: Shape, m': Mem, sh': Shape, p: nat, n: nat, i: nat, flags: Word)
    requires p < PAGES && 0 < n <= PAGES
    requires Lookup(m1.ram, sh1, p) == i + flags
    requires forall u: nat :: u != p ==> Lookup(m1.ram, sh1, u) == Lookup(m.ram, sh, u)
    requires RangeMapped(m1, sh1, m', sh', NextPage(p), n - 1, i + 4096, flags)
    ensures RangeMapped(m, sh, m', sh', p, n, i, flags)
  {
    forall u: nat | u < PAGES
      ensures Lookup(m'.ram, sh', u) == RangeEntry(u, p, n, i, flags, Lookup(m.ram, sh, u))
    {
      assert Lookup(m'.ram, sh', u) ==
        RangeEntry(u, NextPage(p), n - 1, i + 4096, flags, Lookup(m1.ram, sh1, u));
      if u == p {
        assert Distance(NextPage(p), u) == PAGES - 1;
      } else {
        assert Distance(NextPage(p), u) + 1 == Distance(p, u);
      }
    }
  }

  ghost predicate RangeRights(p: nat, n: nat, flags: Word, rights: Rights)
    requires p < PAGES
  {
    forall u: nat {:trigger SlotOfPage(u)} :: u < PAGES && Distance(p, u) < n ==> Allows(rights, SlotOfPage(u), flags)
  }

  /** From (m, sh) to (m', sh') the n pages from p on were mapped to the frames from address i on, with
      one frame for each new table, and access rights stayed uniform. */
  ghost predicate RangeDone(m: Mem, sh: Shape, m': Mem, sh': Shape, root: nat, p: nat, n: nat, i: nat, flags: Word,
                            rights: Rights)
    requires p < PAGES
  {
    && Tree(m', sh', root)
    && sh'.Keys == WithPaths(sh.Keys, p, n) && Stock(m', sh') == Stock(m, sh)
    && RangeMapped(m, sh, m', sh', p, n, i, flags)
    && Uniform(m'.ram, sh', rights)
  }

  lemma MapFirst(m: Mem, sh: Shape, root: nat, k: nat, offset: Word, flags: Word, rights: Rights) returns (sh': Shape)
    requires Tree(m, sh, root) && Privilege(flags) && (k + 1) * 4096 <= WORD
    requires Stock(m, sh) >= |WithPath(sh.Keys, PageAt(k, offset), TOP_LEVEL)|
    requires Uniform(m.ram, sh, rights) && Allows(rights, SlotOfPage(PageAt(k, offset)), flags)
    ensures var p := PageAt(k, offset);
      var m' := MapPage(m, root * 4096, k * 4096, VirtOf(k, offset), flags);
      && Tree(m', sh', root)
      && sh'.Keys == WithPath(sh.Keys, p, TOP_LEVEL) && Stock(m', sh') == Stock(m, sh)
      && Lookup(m'.ram, sh', p) == k * 4096 + flags
      && (forall u: nat :: u != p ==> Lookup(m'.ram, sh', u) == Lookup(m.ram, sh, u))
      && Uniform(m'.ram, sh', rights)
  {
    PageOfVirt(k, offset);
    FirstEntry(k, flags);
    sh' := MapPageUniform(m, sh, root, k * 4096, VirtOf(k, offset), flags, rights);
  }

  lemma FirstEntry(k: nat, flags: Word)
    requires (k + 1) * 4096 <= WORD && flags < 512
    ensures Entry(k * 4096, flags) == k * 4096 + flags
  {
    FrameAligned(k * 4096);
    EntryIsSum(k * 4096, flags);
  }

  lemma MapPageUniform(m: Mem, sh: Shape, root: nat, phys: Word, virt: Word, flags: Word, rights: Rights)
      returns (sh': Shape)
    requires Tree(m, sh, root) && Privilege(flags)
    requires Stock(m, sh) >= |WithPath(sh.Keys, PageOf(virt), TOP_LEVEL)|
    requires Uniform(m.ram, sh, rights) && Allows(rights, SlotOfPage(PageOf(virt)), flags)
    ensures var v := PageOf(virt); var m' := MapPage(m, root * 4096, phys, virt, flags);
      && Tree(m', sh', root)
      && sh'.Keys == WithPath(sh.Keys, v, TOP_LEVEL) && Stock(m', sh') == Stock(m, sh)
      && Lookup(m'.ram, sh', v) == Entry(phys, flags)
      && (forall u: nat :: u != v ==> Lookup(m'.ram, sh', u) == Lookup(m.ram, sh, u))
      && Uniform(m'.ram, sh', rights)
  {
    sh' := MapPageMeaning(m, sh, root, phys, virt, flags);
    UniformKept(m, sh, MapPage(m, root * 4096, phys, virt, flags), sh', root, PageOf(virt), flags, rights);
  }

  /** The loop of vmm_map_range. */
  lemma {:induction false} MapPagesMeaning(m: Mem, sh: Shape, root: nat, k: nat, n: nat, offset: Word, flags: Word,
                                           p: nat, rights: Rights)
      returns (sh': Shape)
    requires Tree(m, sh, root) && Privilege(flags) && (k + n) * 4096 <= WORD && n <= PAGES
    requires p < PAGES && p == PageAt(k, offset)
    requires Stock(m, sh) >= |WithPaths(sh.Keys, p, n)|
    requires Uniform(m.ram, sh, rights) && RangeRights(p, n, flags, rights)
    ensures RangeDone(m, sh, MapPages(m, root * 4096, k, n, offset, flags), sh', root, p, n, k * 4096,
                      flags, rights)
    decreases n, 1
  {
    if n == 0 {
      sh' := sh;
      RangeDoneNothing(m, sh, root, p, k * 4096, flags, rights);
    } else {
      sh' := MapPagesMore(m, sh, root, k, n, offset, flags, p, rights);
    }
  }

  lemma {:induction false} MapPagesMore(m: Mem, sh: Shape, root: nat, k: nat, n: nat, offset: Word, flags: Word,
                                        p: nat, rights: Rights)
      returns (sh': Shape)
    requires Tree(m, sh, root) && Privilege(flags) && (k + n) * 4096 <= WORD && 0 < n <= PAGES
    requires p < PAGES && p == PageAt(k, offset)
    requires Stock(m, sh) >= |WithPaths(sh.Keys, p, n)|
    requires Uniform(m.ram, sh, rights) && RangeRights(p, n, flags, rights)
    ensures RangeDone(m, sh, MapPages(m, root * 4096, k, n, offset, flags), sh', root, p, n, k * 4096, flags, rights)
    decreases n, 0
  {
    PageAfter(k, offset);
    var m1, sh1 := MapOneMore(m, sh, root, k, n, offset, flags, p, rights);
    var k1, n1, p1 := k + 1, n - 1, NextPage(p);
    assert k1 + n1 == k + n;
    sh' := MapPagesMeaning(m1, sh1, root, k1, n1, offset, flags, p1, rights);
    RangeDoneExtends(m, sh, m1, sh1, MapPages(m1, root * 4096, k1, n1, offset, flags), sh', root, p, n, k * 4096,
                     flags, rights);
  }

  lemma RangeDoneNothing(m: Mem, sh: Shape, root: nat, p: nat, i: nat, flags: Word, rights: Rights)
    requires Tree(m, sh, root) && p < PAGES && Uniform(m.ram, sh, rights)
    ensures RangeDone(m, sh, m, sh, root, p, 0, i, flags, rights)
  {
  }

  lemma MapOneMore(m: Mem, sh: Shape, root: nat, k: nat, n: nat, offset: Word, flags: Word, p: nat, rights: Rights)
      returns (m1: Mem, sh1: Shape)
    requires Tree(m, sh, root) && Privilege(flags) && (k + n) * 4096 <= WORD && 0 < n <= PAGES
    requires p < PAGES && p == PageAt(k, offset)
    requires Stock(m, sh) >= |WithPaths(sh.Keys, p, n)|
    requires Uniform(m.ram, sh, rights) && RangeRights(p, n, flags, rights)
    ensures MapPages(m, root * 4096, k, n, offset, flags)
            == MapPages(m1, root * 4096, k + 1, n - 1, offset, flags)
    ensures Tree(m1, sh1, root) && Uniform(m1.ram, sh1, rights) && RangeRights(NextPage(p), n - 1, flags, rights)
    ensures sh1.Keys == WithPath(sh.Keys, p, TOP_LEVEL) && Stock(m1, sh1) == Stock(m, sh)
    ensures Stock(m1, sh1) >= |WithPaths(sh1.Keys, NextPage(p), n - 1)|
    ensures Lookup(m1.ram, sh1, p) == k * 4096 + flags
    ensures forall u: nat :: u != p ==> Lookup(m1.ram, sh1, u) == Lookup(m.ram, sh, u)
  {
    PathsGrow(WithPath(sh.Keys, p, TOP_LEVEL), NextPage(p), n - 1);
    RightsNext(p, n, flags, rights);
    sh1 := MapFirst(m, sh, root, k, offset, flags, rights);
    m1 := MapPage(m, root * 4096, k * 4096, VirtOf(k, offset), flags);
  }

  lemma RangeDoneExtends(m: Mem, sh: Shape, m1: Mem, sh1: Shape, m': Mem, sh': Shape, root: nat, p: nat, n: nat, i: nat,
                         flags: Word, rights: Rights)
    requires p < PAGES && 0 < n <= PAGES
    requires sh1.Keys == WithPath(sh.Keys, p, TOP_LEVEL) && Stock(m1, sh1) == Stock(m, sh)
    requires Lookup(m1.ram, sh1, p) == i + flags
    requires forall u: nat :: u != p ==> Lookup(m1.ram, sh1, u) == Lookup(m.ram, sh, u)
    requires RangeDone(m1, sh1, m', sh', root, NextPage(p), n - 1, i + 4096, flags, rights)
    ensures RangeDone(m, sh, m', sh', root, p, n, i, flags, rights)
  {
    RangeExtends(m, sh, m1, sh1, m', sh', p, n, i, flags);
  }

  lemma RightsNext(p: nat, n: nat, flags: Word, rights: Rights)
    requires p < PAGES && 0 < n <= PAGES && RangeRights(p, n, flags, rights)
    ensures RangeRights(NextPage(p), n - 1, flags, rights)
    ensures Allows(rights, SlotOfPage(p), flags)
  {
    assert Distance(p, p) == 0;
    forall u: nat | u < PAGES && Distance(NextPage(p), u) < n - 1 ensures Allows(rights, SlotOfPage(u), flags) {
      assert Distance(p, u) < n;
    }
  }
}
