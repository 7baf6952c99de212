/** Mapping and unmapping whole ranges, and the windows vmm_init sets up (fckrnl/mm/virt.c). */
module PageTableInit {
  import opened Bits
  import opened Frames
  import opened Memory
  import opened PageTables
  import opened PageTableUpdates
  import opened PageTableRuns
  import opened PageTableRanges
  import opened PageTableBudget

  /** vmm_map_range: every page of the aligned range is mapped to its own frame, shifted by the offset;
      nothing else changes; at most Budget frames are taken. */
  lemma MapRangeMeaning(m: Mem, sh: Shape, root: nat, start: Word, end: Word, offset: Word, flags: Word, rights: Rights)
      returns (sh': Shape)
    requires Tree(m, sh, root) && Privilege(flags) && PageCount(start, end) <= PAGES
    requires |Free(m.frames)| >= Budget(PageCount(start, end))
    requires Uniform(m.ram, sh, rights)
    requires RangeRights(PageAt(FirstPage(start), offset), PageCount(start, end), flags, rights)
    ensures var m' := MapRange(m, root * 4096, start, end, offset, flags);
      var n := PageCount(start, end); var p := PageAt(FirstPage(start), offset);
      && RangeDone(m, sh, m', sh', root, p, n, FirstPage(start) * 4096, flags, rights)
      && |Free(m'.frames)| + Budget(n) >= |Free(m.frames)|
  {
    var n, p, k := PageCount(start, end), PageAt(FirstPage(start), offset), FirstPage(start);
    PathsWithinBudget(sh.Keys, p, n);
    sh' := MapPagesMeaning(m, sh, root, k, n, offset, flags, p, rights);
  }

  // ----- unmapping

  predicate HasTable(sh: Shape, u: nat) {
    PathNode(u, 1) in sh
  }

  /** The n pages from p on have level-1 tables. */
  ghost predicate TablesThere(sh: Shape, p: nat, n: nat)
    requires p < PAGES
  {
    forall u: nat {:trigger HasTable(sh, u)} :: u < PAGES && Distance(p, u) < n ==> HasTable(sh, u)
  }

  /** The range is unmapped and nothing else changed. */
  ghost predicate RangeUnmapped(ram: seq<Word>, ram': seq<Word>, sh: Shape, p: nat, n: nat)
    requires p < PAGES
  {
    forall u: nat {:trigger Lookup(ram', sh, u)} :: u < PAGES ==>
      Lookup(ram', sh, u) == if Distance(p, u) < n then 0 else Lookup(ram, sh, u)
  }

  lemma DistanceNext(p: nat, n: nat, u: nat)
    requires p < PAGES && u < PAGES && 0 < n <= PAGES
    ensures Distance(p, u) < n <==> u == p || Distance(NextPage(p), u) < n - 1
  {
  }

  lemma UnmapFirst(m: Mem, sh: Shape, root: nat, k: nat, p: nat)
    requires Tree(m, sh, root) && (k + 1) * 4096 <= WORD && p == PageOf(k * 4096) && PathNode(p, 1) in sh
    ensures var m1 := UnmapPage(m, root * 4096, k * 4096);
      && Tree(m1, sh, root) && m1.frames == m.frames
      && Lookup(m1.ram, sh, p) == 0
      && forall u: nat :: u != p ==> Lookup(m1.ram, sh, u) == Lookup(m.ram, sh, u)
  {
    AlignedPage(k * 4096);
    SetKnown(m, sh, root, AlignDown(k * 4096), 0, 0);
  }

  /** The loop of vmm_unmap_range over pages whose tables exist: no frame is taken. */
  lemma {:induction false} UnmapPagesMeaning(m: Mem, sh: Shape, root: nat, k: nat, n: nat, p: nat)
    requires Tree(m, sh, root) && (k + n) * 4096 <= WORD && n <= PAGES
    requires p < PAGES && p == PageAt(k, 0) && TablesThere(sh, p, n)
    ensures var m' := UnmapPages(m, root * 4096, k, n);
      Tree(m', sh, root) && m'.frames == m.frames && RangeUnmapped(m.ram, m'.ram, sh, p, n)
    decreases n, 1
  {
    if n > 0 { UnmapPagesMore(m, sh, root, k, n, p); }
  }

  lemma {:induction false} UnmapPagesMore(m: Mem, sh: Shape, root: nat, k: nat, n: nat, p: nat)
    requires Tree(m, sh, root) && (k + n) * 4096 <= WORD && 0 < n <= PAGES
    requires p < PAGES && p == PageAt(k, 0) && TablesThere(sh, p, n)
    ensures var m' := UnmapPages(m, root * 4096, k, n);
      Tree(m', sh, root) && m'.frames == m.frames && RangeUnmapped(m.ram, m'.ram, sh, p, n)
    decreases n, 0
  {
    var k1, n1, p1 := k + 1, n - 1, NextPage(p);
    assert k1 + n1 == k + n;
    var m1 := UnmapPage(m, root * 4096, k * 4096);
    DistanceNext(p, n, p);
    assert HasTable(sh, p);
    UnmapFirst(m, sh, root, k, p);
    PageAfter(k, 0);
    TablesThereNext(sh, p, n);
    UnmapPagesMeaning(m1, sh, root, k1, n1, p1);
    UnmappedExtends(m.ram, m1.ram, UnmapPages(m1, root * 4096, k1, n1).ram, sh, p, n);
  }

  /** The frames that unmapping n pages from p on takes and loses: one for every missing table, at each page. */
  function Lost(sh: Shape, p: nat, n: nat): nat
    requires p < PAGES
    decreases n
  {
    if n == 0 then 0 else Missing(sh, p) + Lost(sh, NextPage(p), n - 1)
  }

  /** The loop of vmm_unmap_range over any pages: they are unmapped, the others stay, no table goes or comes,
      and that many frames are lost. */
  lemma {:induction false} UnmapPagesLoses(m: Mem, sh: Shape, root: nat, k: nat, n: nat, p: nat)
    requires Tree(m, sh, root) && (k + n) * 4096 <= WORD && n <= PAGES
    requires p < PAGES && p == PageAt(k, 0) && |Free(m.frames)| >= Lost(sh, p, n)
    ensures var m' := UnmapPages(m, root * 4096, k, n);
      Tree(m', sh, root) && |Free(m'.frames)| + Lost(sh, p, n) == |Free(m.frames)| && RangeUnmapped(m.ram, m'.ram, sh, p, n)
    decreases n, 1
  {
    if n > 0 { UnmapPagesLosesMore(m, sh, root, k, n, p); }
  }

  lemma {:induction false} UnmapPagesLosesMore(m: Mem, sh: Shape, root: nat, k: nat, n: nat, p: nat)
    requires Tree(m, sh, root) && (k + n) * 4096 <= WORD && 0 < n <= PAGES
    requires p < PAGES && p == PageAt(k, 0) && |Free(m.frames)| >= Lost(sh, p, n)
    ensures var m' := UnmapPages(m, root * 4096, k, n);
      Tree(m', sh, root) && |Free(m'.frames)| + Lost(sh, p, n) == |Free(m.frames)| && RangeUnmapped(m.ram, m'.ram, sh, p, n)
    decreases n, 0
  {
    var k1, n1, p1 := k + 1, n - 1, NextPage(p);
    assert k1 + n1 == k + n;
    var m1 := UnmapPage(m, root * 4096, k * 4096);
    UnmapFirstLoses(m, sh, root, k, p);
    PageAfter(k, 0);
    UnmapPagesLoses(m1, sh, root, k1, n1, p1);
    UnmappedExtends(m.ram, m1.ram, UnmapPages(m1, root * 4096, k1, n1).ram, sh, p, n);
  }

  lemma UnmapFirstLoses(m: Mem, sh: Shape, root: nat, k: nat, p: nat)
    requires Tree(m, sh, root) && (k + 1) * 4096 <= WORD && p == PageOf(k * 4096) && |Free(m.frames)| >= Missing(sh, p)
    ensures var m1 := UnmapPage(m, root * 4096, k * 4096);
      && Tree(m1, sh, root) && |Free(m1.frames)| + Missing(sh, p) == |Free(m.frames)|
      && Lookup(m1.ram, sh, p) == 0
      && forall u: nat :: u != p ==> Lookup(m1.ram, sh, u) == Lookup(m.ram, sh, u)
  {
    AlignedPage(k * 4096);
    SetAbsent(m, sh, root, AlignDown(k * 4096), 0, 0);
  }

  lemma TablesThereNext(sh: Shape, p: nat, n: nat)
    requires p < PAGES && 0 < n <= PAGES && TablesThere(sh, p, n)
    ensures TablesThere(sh, NextPage(p), n - 1)
  {
    forall u: nat | u < PAGES && Distance(NextPage(p), u) < n - 1 ensures HasTable(sh, u) { DistanceNext(p, n, u); }
  }

  lemma UnmappedExtends(ram: seq<Word>, ram1: seq<Word>, ram': seq<Word>, sh: Shape, p: nat, n: nat)
    requires p < PAGES && 0 < n <= PAGES
    requires Lookup(ram1, sh, p) == 0
    requires forall u: nat :: u != p ==> Lookup(ram1, sh, u) == Lookup(ram, sh, u)
    requires RangeUnmapped(ram1, ram', sh, NextPage(p), n - 1)
    ensures RangeUnmapped(ram, ram', sh, p, n)
  {
    forall u: nat | u < PAGES
      ensures Lookup(ram', sh, u) == if Distance(p, u) < n then 0 else Lookup(ram, sh, u)
    {
      DistanceNext(p, n, u);
    }
  }

  lemma {:induction false} PathsHaveTables(keys: set<Node>, p: nat, n: nat, u: nat)
    requires p < PAGES && n <= PAGES && u < PAGES && Distance(p, u) < n
    ensures PathNode(u, 1) in WithPaths(keys, p, n)
    decreases n
  {
    var next := WithPath(keys, p, TOP_LEVEL);
    DistanceNext(p, n, u);
    if u == p {
      PathTables(keys, p);
      PathsGrow(next, NextPage(p), n - 1);
    } else {
      PathsHaveTables(next, NextPage(p), n - 1, u);
    }
  }

  // ----- map, then unmap the shifted range

  /** The address at which a is mapped: the sum wraps at 64 bits. */
  function Shifted(a: Word, offset: Word): Word {
    (a + offset) % 0x1_0000_0000_0000_0000
  }

  /** The shift takes both ends past 2^64, or neither, with a page to spare for ALIGN_UP. */
  predicate SameSide(start: Word, end: Word, offset: Word) {
    end + offset + 4096 <= WORD || start + offset >= WORD
  }

  /** The part of the shift below a page takes neither end into another page. */
  predicate StaysInPages(start: Word, end: Word, offset: Word) {
    start % 4096 + offset % 4096 < 4096 && end + offset % 4096 <= AlignUp(end)
  }

  function StartCarry(start: Word, offset: Word): nat {
    if start % 4096 + offset % 4096 < 4096 then 0 else 1
  }

  function EndCarry(end: Word, offset: Word): nat {
    if end + offset % 4096 <= AlignUp(end) then 0 else 1
  }

  /** 2^64 in pages, for a sum that wraps. */
  function Wrap(a: Word, offset: Word): nat {
    if a + offset < WORD then 0 else 0x10_0000_0000_0000
  }

  lemma PagesBack(x: nat, w: nat)
    requires x >= w * 4096
    ensures (x - w * 4096) / 4096 == x / 4096 - w
  {
    var q, r := x / 4096, x % 4096;
    assert x - w * 4096 == (q - w) * 4096 + r;
  }

  lemma PagesOfSum(x: nat, y: nat)
    ensures (x + y) / 4096 == x / 4096 + y / 4096 + if x % 4096 + y % 4096 < 4096 then 0 else 1
  {
    var q, r, o, d := x / 4096, x % 4096, y / 4096, y % 4096;
    assert x + y == (q + o) * 4096 + (r + d);
  }

  lemma FirstShifted(a: Word, offset: Word)
    ensures FirstPage(Shifted(a, offset)) == FirstPage(a) + offset / 4096 + StartCarry(a, offset) - Wrap(a, offset)
  {
    FirstPageIs(a);
    FirstPageIs(Shifted(a, offset));
    PagesOfSum(a, offset);
    ShiftedIs(a, offset);
    if a + offset >= WORD { PagesBack(a + offset, 0x10_0000_0000_0000); }
  }

  lemma ShiftedIs(a: Word, offset: Word)
    ensures Shifted(a, offset) == a + offset - Wrap(a, offset) * 4096
  {
  }

  lemma FirstPageIs(a: Word)
    ensures FirstPage(a) == a / 4096
  {
  }

  lemma EndShifted(a: Word, offset: Word)
    requires a + 4096 <= WORD && (a + offset + 4096 <= WORD || WORD <= a + offset)
    ensures AlignUp(Shifted(a, offset)) / 4096 ==
      AlignUp(a) / 4096 + offset / 4096 + EndCarry(a, offset) - Wrap(a, offset)
  {
    ShiftedIs(a, offset);
    EndPage(a);
    EndPage(Shifted(a, offset));
    PagesOfSum(a + 4095, offset);
    EndCarryIs(a, offset);
    if a + offset >= WORD { PagesBack(a + 4095 + offset, 0x10_0000_0000_0000); }
  }

  lemma EndCarryIs(a: Word, offset: Word)
    requires a + 4096 <= WORD
    ensures EndCarry(a, offset) == if (a + 4095) % 4096 + offset % 4096 < 4096 then 0 else 1
  {
  }

  lemma EndPage(a: Word)
    requires a + 4096 <= WORD
    ensures AlignUp(a) / 4096 == (a + 4095) / 4096
  {
  }

  /** The page that vmm_unmap_range starts at. */
  lemma FirstPageShifted(start: Word, offset: Word)
    ensures PageAt(FirstPage(Shifted(start, offset)), 0) == PageAt(FirstPage(start) + StartCarry(start, offset), offset)
  {
    var k, o := FirstPage(start) + StartCarry(start, offset), offset / 4096;
    FirstShifted(start, offset);
    PageOfOffset(k, offset);
    if start + offset >= WORD { SamePageWrapped(k, o); } else { SamePageShifted(k, o); }
  }

  lemma PageOfOffset(k: nat, offset: Word)
    ensures PageAt(k, offset) == PageAt(k, offset / 4096 * 4096)
  {
    var o, d := offset / 4096, offset % 4096;
    PagesOfSum(k * 4096, offset);
    PagesOfSum(k * 4096, o * 4096);
  }

  lemma SamePageWrapped(k: nat, o: nat)
    requires k + o >= 0x10_0000_0000_0000 && o * 4096 < WORD
    ensures PageAt(k + o - 0x10_0000_0000_0000, 0) == PageAt(k, o * 4096)
  {
    var x := (k + o - 0x10_0000_0000_0000) * 4096;
    PagePastTheTop(x);
    assert x + WORD == k * 4096 + o * 4096;
  }

  lemma PagePastTheTop(x: nat)
    ensures PageOf(x + WORD) == PageOf(x)
  {
    PagesOfSum(x, WORD);
    DropPages(1, x / 4096);
  }

  lemma SamePageShifted(k: nat, o: nat)
    requires o * 4096 < WORD
    ensures PageAt(k + o, 0) == PageAt(k, o * 4096)
  {
  }

  lemma CountShifted(start: Word, end: Word, offset: Word)
    requires start <= end && end + 4096 <= WORD && SameSide(start, end, offset)
    ensures PageCount(Shifted(start, offset), Shifted(end, offset)) ==
      var n := AlignUp(end) / 4096 + EndCarry(end, offset) - FirstPage(start) - StartCarry(start, offset);
      if n > 0 then n else 0
  {
    FirstShifted(start, offset);
    EndShifted(end, offset);
  }

  /** The shifted range has the pages that the range was mapped at exactly when the part of the shift below a
      page takes neither end into another page. */
  lemma ShiftedRangeExactly(start: Word, end: Word, offset: Word)
    requires start < end && end + 4096 <= WORD && SameSide(start, end, offset)
    ensures (&& PageAt(FirstPage(Shifted(start, offset)), 0) == PageAt(FirstPage(start), offset)
             && PageCount(Shifted(start, offset), Shifted(end, offset)) == PageCount(start, end))
      <==> StaysInPages(start, end, offset)
  {
    FirstPageShifted(start, offset);
    CountShifted(start, end, offset);
    PageAfter(FirstPage(start), offset);
    SomePages(start, end);
  }

  lemma SomePages(start: Word, end: Word)
    requires start < end && end + 4096 <= WORD
    ensures FirstPage(start) < AlignUp(end) / 4096
  {
    FirstPageIs(start);
    EndPage(end);
  }

  /** An empty range stays empty. */
  lemma ShiftedRange(start: Word, end: Word, offset: Word)
    requires start <= end && end + 4096 <= WORD && SameSide(start, end, offset) && StaysInPages(start, end, offset)
    ensures PageCount(Shifted(start, offset), Shifted(end, offset)) == PageCount(start, end)
    ensures PageAt(FirstPage(Shifted(start, offset)), 0) == PageAt(FirstPage(start), offset)
  {
    FirstPageShifted(start, offset);
    CountShifted(start, end, offset);
  }

  /** Half a page mapped half a page further on: the unmapped page is the one behind the mapped one. */
  lemma ShiftedRangeDiffers()
    ensures PageAt(FirstPage(0x800), 0x800) == 0 && PageAt(FirstPage(Shifted(0x800, 0x800)), 0) == 1
    ensures PageCount(0x800, 0x1000) == 1 == PageCount(Shifted(0x800, 0x800), Shifted(0x1000, 0x800))
  {
    FirstPageIs(0x800);
    FirstPageIs(0x1000);
    ShiftedIs(0x800, 0x800);
    ShiftedIs(0x1000, 0x800);
    EndPage(0x1000);
    EndPage(0x1800);
  }

  /** When the shift takes the end past 2^64 but not the start, the loop of vmm_unmap_range does nothing. */
  lemma OtherwiseUnmapsNothing(m: Mem, root: nat, start: Word, end: Word, offset: Word)
    requires start <= end && end + 4096 <= WORD && !SameSide(start, end, offset)
    ensures UnmapRange(m, root, Shifted(start, offset), Shifted(end, offset)) == m
  {
    ShiftedIs(end, offset);
    FirstShifted(start, offset);
    if end + offset < WORD {
      assert AlignUp(Shifted(end, offset)) == 0;
    } else {
      EndShifted(end, offset);
      BelowTop(end);
    }
  }

  lemma BelowTop(end: Word)
    requires end + 4096 <= WORD
    ensures AlignUp(end) / 4096 < 0x10_0000_0000_0000
  {
    EndPage(end);
  }

  /** An end in the last page of the address space makes ALIGN_UP overflow: the loops do nothing. */
  lemma RangeToTheTop(m: Mem, root: nat, start: Word, end: Word, offset: Word, flags: Word)
    requires end + 4096 > WORD
    ensures MapRange(m, root, start, end, offset, flags) == m && UnmapRange(m, root, start, end) == m
  {
    assert AlignUp(end) == 0;
  }

  /** Unmapping the shifted range afterwards restores every translation that was empty before, clears the
      rest of the range, touches nothing outside, and takes no frame. */
  lemma MapThenUnmap(m: Mem, sh: Shape, root: nat, start: Word, end: Word, offset: Word, flags: Word) returns (sh': Shape)
    requires Tree(m, sh, root) && Privilege(flags) && PageCount(start, end) <= PAGES
    requires |Free(m.frames)| >= Budget(PageCount(start, end))
    requires start <= end && end + 4096 <= WORD && SameSide(start, end, offset) && StaysInPages(start, end, offset)
    ensures var m' := MapRange(m, root * 4096, start, end, offset, flags);
      var m'' := UnmapRange(m', root * 4096, Shifted(start, offset), Shifted(end, offset));
      var p := PageAt(FirstPage(start), offset);
      && Tree(m'', sh', root) && m''.frames == m'.frames
      && forall u: nat {:trigger Lookup(m''.ram, sh', u)} :: u < PAGES ==>
           Lookup(m''.ram, sh', u) == if Distance(p, u) < PageCount(start, end) then 0 else Lookup(m.ram, sh, u)
  {
    var n, p := PageCount(start, end), PageAt(FirstPage(start), offset);
    sh' := MapRangeMeaning(m, sh, root, start, end, offset, flags, None);
    var m' := MapRange(m, root * 4096, start, end, offset, flags);
    ShiftedRange(start, end, offset);
    forall u: nat | u < PAGES && Distance(p, u) < n ensures HasTable(sh', u) { PathsHaveTables(sh.Keys, p, n, u); }
    UnmapPagesMeaning(m', sh', root, FirstPage(Shifted(start, offset)), n, p);
    UndoesMapping(m, sh, m', UnmapRange(m', root * 4096, Shifted(start, offset), Shifted(end, offset)), sh', p, n, FirstPage(start) * 4096, flags);
  }

  lemma UndoesMapping(m: Mem, sh: Shape, m': Mem, m'': Mem, sh': Shape, p: nat, n: nat, i: nat, flags: Word)
    requires p < PAGES && RangeMapped(m, sh, m', sh', p, n, i, flags) && RangeUnmapped(m'.ram, m''.ram, sh', p, n)
    ensures forall u: nat {:trigger Lookup(m''.ram, sh', u)} :: u < PAGES ==>
      Lookup(m''.ram, sh', u) == if Distance(p, u) < n then 0 else Lookup(m.ram, sh, u)
  {
    forall u: nat | u < PAGES
      ensures Lookup(m''.ram, sh', u) == if Distance(p, u) < n then 0 else Lookup(m.ram, sh, u)
    {
      assert Lookup(m'.ram, sh', u) == RangeEntry(u, p, n, i, flags, Lookup(m.ram, sh, u));
    }
  }

  // ----- ranges in bytes

  /** Page k has a byte at or above start, and one below end. */
  predicate Reaches(start: Word, end: Word, k: nat) {
    start < (k + 1) * 4096 && k * 4096 < end
  }

  /** The pages the loops go over. */
  lemma PagesReached(start: Word, end: Word, k: nat)
    requires end + 4096 <= WORD
    ensures FirstPage(start) <= k < FirstPage(start) + PageCount(start, end) <==> Reaches(start, end, k)
  {
    var last := AlignUp(end) / 4096;
    assert AlignUp(end) == last * 4096;
  }

  /** Page k of physical memory is mapped at its number plus the pages of the offset, in 36 bits. */
  lemma PageAtIs(k: nat, offset: Word)
    ensures PageAt(k, offset) == (k + offset / 4096) % 0x10_0000_0000
  {
    assert (k * 4096 + offset) / 4096 == k + offset / 4096;
  }

  lemma DistanceAfter(x: nat, d: nat)
    requires d < PAGES
    ensures Distance(x % 0x10_0000_0000, (x + d) % 0x10_0000_0000) == d
  {
    var q, r := x / 0x10_0000_0000, x % 0x10_0000_0000;
    if r + d < PAGES {
      QuotientUnique(x + d, PAGES, q, r + d);
    } else {
      QuotientUnique(x + d, PAGES, q + 1, r + d - PAGES);
    }
  }

  lemma PageBehind(x: nat, u: nat)
    requires u < PAGES
    ensures var d := Distance(x % 0x10_0000_0000, u); d < PAGES && (x + d) % 0x10_0000_0000 == u
  {
    var q, r := x / 0x10_0000_0000, x % 0x10_0000_0000;
    var d := Distance(r, u);
    if u >= r { QuotientUnique(x + d, PAGES, q, u); } else { QuotientUnique(x + d, PAGES, q + 1, u); }
  }

  /** Page u is the one that page k is mapped at, for a page k of the range. */
  predicate MappedFrom(start: Word, end: Word, offset: Word, u: nat, k: nat) {
    Reaches(start, end, k) && u == (k + offset / 4096) % 0x10_0000_0000
  }

  /** Distances in the range, and the pages they come from. */
  lemma DistancesAre(start: Word, end: Word, offset: Word, u: nat)
    requires end + 4096 <= WORD && PageCount(start, end) <= PAGES && u < PAGES
    ensures var d := Distance(PageAt(FirstPage(start), offset), u);
      && (d < PageCount(start, end) ==> MappedFrom(start, end, offset, u, FirstPage(start) + d))
      && forall k: nat :: MappedFrom(start, end, offset, u, k) ==> d < PageCount(start, end) && k == FirstPage(start) + d
  {
    var first, d := FirstPage(start), Distance(PageAt(FirstPage(start), offset), u);
    var x := first + offset / 4096;
    PageAtIs(first, offset);
    PageBehind(x, u);
    PagesReached(start, end, first + d);
    forall k: nat | MappedFrom(start, end, offset, u, k) ensures d < PageCount(start, end) && k == first + d {
      PagesReached(start, end, k);
      DistanceAfter(x, k - first);
    }
  }

  /** Page u is mapped to the page of the range that it comes from, or finds what it found before. */
  ghost predicate MapsRange(before: Hit, hit: Hit, start: Word, end: Word, offset: Word, flags: Word, u: nat) {
    && (forall k: nat :: MappedFrom(start, end, offset, u, k) ==> hit.Leaf? && hit.entry == k * 4096 + flags)
    && ((forall k: nat :: !MappedFrom(start, end, offset, u, k)) ==> hit == before)
  }

  /** vmm_map_range in bytes: every page that the bytes from start up to end reach into is mapped, at its number plus
      the pages of the offset, and no other page changes its translation. */
  lemma MapRangeTranslates(m: Mem, sh: Shape, root: nat, start: Word, end: Word, offset: Word, flags: Word, u: nat)
    requires Tree(m, sh, root) && Privilege(flags) && end + 4096 <= WORD && PageCount(start, end) <= PAGES
    requires |Free(m.frames)| >= Budget(PageCount(start, end)) && u < PAGES
    ensures var m' := MapRange(m, root * 4096, start, end, offset, flags);
      MapsRange(Translate(m.ram, root * 4096, u), Translate(m'.ram, root * 4096, u), start, end, offset, flags, u)
  {
    var m' := MapRange(m, root * 4096, start, end, offset, flags);
    var sh' := MapRangeMeaning(m, sh, root, start, end, offset, flags, None);
    TranslateIsLookup(m, sh, root, u);
    TranslateIsLookup(m', sh', root, u);
    DistancesAre(start, end, offset, u);
    var d := Distance(PageAt(FirstPage(start), offset), u);
    if d < PageCount(start, end) { LeafPresent(FirstPage(start) + d, flags); }
  }

  lemma LeafPresent(k: nat, flags: Word)
    requires Privilege(flags)
    ensures (k * 4096 + flags) % 2 == 1
  {
  }

  /** vmm_unmap_range in bytes: the same pages, where they are, translate no more, when there is a frame to lose for
      every missing table, at each page. */
  lemma UnmapRangeTranslates(m: Mem, sh: Shape, root: nat, start: Word, end: Word, u: nat)
    requires Tree(m, sh, root) && end + 4096 <= WORD && PageCount(start, end) <= PAGES && u < PAGES
    requires |Free(m.frames)| >= Lost(sh, PageAt(FirstPage(start), 0), PageCount(start, end))
    ensures var hit := Translate(UnmapRange(m, root * 4096, start, end).ram, root * 4096, u);
      hit == if exists k: nat :: MappedFrom(start, end, 0, u, k) then Miss else Translate(m.ram, root * 4096, u)
  {
    var m' := UnmapRange(m, root * 4096, start, end);
    UnmapPagesLoses(m, sh, root, FirstPage(start), PageCount(start, end), PageAt(FirstPage(start), 0));
    TranslateIsLookup(m, sh, root, u);
    TranslateIsLookup(m', sh, root, u);
    DistancesAre(start, end, 0, u);
  }
}
