/** How a slab cache lies in memory (fckrnl/mm/slab.h): a slab_t in the last four words of each page
    (next, bufctl_count, freelist_head, freelist), and a link in the first word of each free object. */
module SlabLinks {
  import opened Bits
  import opened Frames
  import opened Memory
  import opened SlabCells
  import opened Slabs
  import opened SlabSteps

  /** The address of the slab_t of a page. */
  function Header(page: nat): nat {
    page * 4096 + 4064
  }

  lemma HeaderWords(page: nat)
    ensures Header(page) / 8 == page * 512 + 508 && Header(page) / 4096 == page && Header(page) > 0
  {
  }

  function Head(free: seq<nat>): nat {
    if free == [] then 0 else free[0]
  }

  ghost predicate LinkAt(ram: seq<Word>, free: seq<nat>, j: nat)
    requires j < |free|
  {
    free[j] / 8 + 1 < |ram| && ram[free[j] / 8] == (if j + 1 < |free| then free[j + 1] else 0)
  }

  ghost predicate ChainAt(ram: seq<Word>, free: seq<nat>) {
    forall j {:trigger LinkAt(ram, free, j)} :: 0 <= j < |free| ==> LinkAt(ram, free, j)
  }

  ghost predicate SlabAt(ram: seq<Word>, t: Slab, next: nat) {
    && t.page * 512 + 512 <= |ram|
    && ram[t.page * 512 + 508] == next
    && ram[t.page * 512 + 509] == |t.free|
    && ram[t.page * 512 + 510] == Head(t.free)
    && ChainAt(ram, t.free)
  }

  function HeadOf(slabs: seq<Slab>): nat {
    if slabs == [] then 0 else Header(slabs[0].page)
  }

  function NextOf(slabs: seq<Slab>, i: nat): nat
    requires i < |slabs|
  {
    if i + 1 < |slabs| then Header(slabs[i + 1].page) else 0
  }

  ghost predicate ListedAt(ram: seq<Word>, slabs: seq<Slab>, i: nat)
    requires i < |slabs|
  {
    SlabAt(ram, slabs[i], NextOf(slabs, i))
  }

  ghost predicate Represents(ram: seq<Word>, slabs: seq<Slab>) {
    forall i {:trigger ListedAt(ram, slabs, i)} :: 0 <= i < |slabs| ==> ListedAt(ram, slabs, i)
  }

  // ----- where free objects lie

  /** The address of an object in a used page: its first two words are below the slab_t. */
  ghost predicate ObjectAddress(a: nat, s: State) {
    a % 16 == 0 && 0 < a / 4096 < s.top && a / 4096 in s.used && a / 8 % 512 <= 505
  }

  lemma CellIsObject(c: Cache, s: State, i: nat, a: nat)
    requires Inv(c, s) && i < |All(c)| && IsCell(a, All(c)[i].page, c.size)
    ensures ObjectAddress(a, s) && a / 4096 == All(c)[i].page
  {
    CellFacts(a, All(c)[i].page, c.size);
  }

  lemma SomeCellIsObject(c: Cache, s: State, a: nat)
    requires Inv(c, s) && CellOfSome(All(c), c.size, a)
    ensures ObjectAddress(a, s)
  {
    var i :| 0 <= i < |All(c)| && IsCell(a, All(c)[i].page, c.size);
    CellIsObject(c, s, i, a);
  }

  lemma FreeIsObject(c: Cache, s: State, i: nat, j: nat)
    requires Inv(c, s) && i < |c.slabs| && j < |c.slabs[i].free|
    ensures ObjectAddress(c.slabs[i].free[j], s) && c.slabs[i].free[j] !in c.live
  {
    var a := c.slabs[i].free[j];
    assert All(c)[i] == c.slabs[i];
    FreeInBag(All(c), i, a);
    ObjectsAreSomewhereOnce(c, s, a);
    SomeCellIsObject(c, s, a);
  }

  lemma LiveIsObject(c: Cache, s: State, a: nat)
    requires Inv(c, s) && a in c.live
    ensures ObjectAddress(a, s)
  {
    ObjectsAreSomewhereOnce(c, s, a);
    SomeCellIsObject(c, s, a);
  }

  ghost predicate Placed(slabs: seq<Slab>, s: State) {
    forall i, j {:trigger slabs[i].free[j]} :: 0 <= i < |slabs| && 0 <= j < |slabs[i].free| ==>
      ObjectAddress(slabs[i].free[j], s)
  }

  lemma AllPlaced(c: Cache, s: State)
    requires Inv(c, s)
    ensures Placed(c.slabs, s)
  {
    forall i, j | 0 <= i < |c.slabs| && 0 <= j < |c.slabs[i].free| ensures ObjectAddress(c.slabs[i].free[j], s) {
      FreeIsObject(c, s, i, j);
    }
  }

  lemma ListedPages(c: Cache, s: State)
    requires Inv(c, s)
    ensures PagesDistinct(c.slabs) && PagesUsed(c.slabs, s)
  {
    assert forall i :: 0 <= i < |c.slabs| ==> c.slabs[i] == All(c)[i];
  }

  // ----- memory that changes

  /** Only words w and w + 1 differ. */
  predicate OnlyTwo(ram: seq<Word>, ram': seq<Word>, w: nat) {
    |ram'| == |ram| && forall x :: 0 <= x < |ram| && x != w && x != w + 1 ==> ram'[x] == ram[x]
  }

  lemma ChainKept(ram: seq<Word>, ram': seq<Word>, free: seq<nat>)
    requires ChainAt(ram, free) && |ram'| == |ram|
    requires forall j :: 0 <= j < |free| ==> free[j] / 8 < |ram| ==> ram'[free[j] / 8] == ram[free[j] / 8]
    ensures ChainAt(ram', free)
  {
    forall j | 0 <= j < |free| ensures LinkAt(ram', free, j) { assert LinkAt(ram, free, j); }
  }

  /** Word w is not one of the slab_t of a page. */
  predicate OffHeader(w: nat, page: nat) {
    w != page * 512 + 508 && w != page * 512 + 509 && w != page * 512 + 510 && w != page * 512 + 511
  }

  /** Header words do not meet objects. */
  lemma HeaderOfOther(a: nat, page: nat, s: State)
    requires ObjectAddress(a, s)
    ensures OffHeader(a / 8, page) && OffHeader(a / 8 + 1, page)
  {
  }

  lemma ChainBesideHeader(ram: seq<Word>, ram': seq<Word>, free: seq<nat>, page: nat, s: State, w: nat)
    requires ChainAt(ram, free) && page * 512 + 508 <= w <= page * 512 + 510 && OnlyTwo(ram, ram', w)
    requires forall j :: 0 <= j < |free| ==> ObjectAddress(free[j], s)
    ensures ChainAt(ram', free)
  {
    forall j | 0 <= j < |free| && free[j] / 8 < |ram| ensures ram'[free[j] / 8] == ram[free[j] / 8] {
      HeaderOfOther(free[j], page, s);
      assert free[j] / 8 != w && free[j] / 8 != w + 1;
    }
    ChainKept(ram, ram', free);
  }

  lemma SlabBesideHeader(ram: seq<Word>, ram': seq<Word>, t: Slab, next: nat, page: nat, s: State, w: nat)
    requires SlabAt(ram, t, next) && t.page != page
    requires page * 512 + 508 <= w <= page * 512 + 510 && OnlyTwo(ram, ram', w)
    requires forall j :: 0 <= j < |t.free| ==> ObjectAddress(t.free[j], s)
    ensures SlabAt(ram', t, next)
  {
    ChainBesideHeader(ram, ram', t.free, page, s, w);
  }

  // ----- taking an object

  /** The two stores of slab_cache_alloc. */
  function PopWords(ram: seq<Word>, page: nat, next: Word, count: Word): (r: seq<Word>)
    requires page * 512 + 512 <= |ram|
    ensures OnlyTwo(ram, r, page * 512 + 509)
  {
    ram[page * 512 + 510 := next][page * 512 + 509 := count]
  }

  lemma PopLinks(ram: seq<Word>, c: Cache, s: State, k: nat, next: Word, count: Word)
    requires Inv(c, s) && Represents(ram, c.slabs) && k < |c.slabs| && c.slabs[k].free != []
    requires c.slabs[k].page * 512 + 512 <= |ram|
    requires next == Head(c.slabs[k].free[1..]) && count == |c.slabs[k].free| - 1
    ensures Represents(PopWords(ram, c.slabs[k].page, next, count), Popped(c, k).slabs)
  {
    var page := c.slabs[k].page;
    var ram', slabs' := PopWords(ram, page, next, count), Popped(c, k).slabs;
    AllPlaced(c, s);
    ListedPages(c, s);
    forall i | 0 <= i < |slabs'| ensures ListedAt(ram', slabs', i) {
      assert ListedAt(ram, c.slabs, i);
      assert NextOf(slabs', i) == NextOf(c.slabs, i);
      if i == k {
        ChainBesideHeader(ram, ram', c.slabs[k].free, page, s, page * 512 + 509);
        TailChain(ram', c.slabs[k].free);
      } else {
        SlabBesideHeader(ram, ram', c.slabs[i], NextOf(c.slabs, i), page, s, page * 512 + 509);
      }
    }
  }

  lemma TailChain(ram: seq<Word>, free: seq<nat>)
    requires ChainAt(ram, free) && free != []
    ensures ChainAt(ram, free[1..])
  {
    forall j | 0 <= j < |free[1..]| ensures LinkAt(ram, free[1..], j) {
      var j1 := j + 1;
      assert LinkAt(ram, free, j1);
    }
  }

  // ----- giving an object back

  /** The four stores of slab_cache_free. */
  function PushWords(ram: seq<Word>, page: nat, ptr: Word, head: Word, count: Word): (r: seq<Word>)
    requires page * 512 + 512 <= |ram| && ptr / 8 + 1 < |ram|
    ensures |r| == |ram|
  {
    ram[ptr / 8 := head][ptr / 8 + 1 := ptr][page * 512 + 510 := ptr][page * 512 + 509 := count]
  }

  lemma AlignedApart(a: nat, b: nat)
    requires a % 16 == 0 && b % 16 == 0 && a != b
    ensures a / 8 != b / 8 && a / 8 + 1 != b / 8
  {
  }

  /** The stores to the object itself. */
  lemma ObjectStored(ram: seq<Word>, c: Cache, s: State, ptr: Word, head: Word)
    requires Inv(c, s) && Represents(ram, c.slabs) && ptr in c.live && ptr / 8 + 1 < |ram|
    ensures Represents(ram[ptr / 8 := head][ptr / 8 + 1 := ptr], c.slabs)
  {
    var ram' := ram[ptr / 8 := head][ptr / 8 + 1 := ptr];
    AllPlaced(c, s);
    LiveIsObject(c, s, ptr);
    ObjectChanged(ram, ram', c, s, ptr);
  }

  lemma SlabOutside(ram: seq<Word>, ram': seq<Word>, t: Slab, next: nat, ptr: nat, s: State)
    requires SlabAt(ram, t, next) && OnlyTwo(ram, ram', ptr / 8) && ObjectAddress(ptr, s)
    requires forall j :: 0 <= j < |t.free| ==> t.free[j] % 16 == 0 && t.free[j] != ptr
    ensures SlabAt(ram', t, next)
  {
    HeaderOfOther(ptr, t.page, s);
    forall j | 0 <= j < |t.free| && t.free[j] / 8 < |ram| ensures ram'[t.free[j] / 8] == ram[t.free[j] / 8] {
      AlignedApart(ptr, t.free[j]);
    }
    ChainKept(ram, ram', t.free);
  }

  lemma ObjectChanged(ram: seq<Word>, ram': seq<Word>, c: Cache, s: State, ptr: nat)
    requires Inv(c, s) && Represents(ram, c.slabs) && ptr in c.live && OnlyTwo(ram, ram', ptr / 8)
    requires Placed(c.slabs, s) && ObjectAddress(ptr, s)
    ensures Represents(ram', c.slabs)
  {
    forall i | 0 <= i < |c.slabs| ensures ListedAt(ram', c.slabs, i) {
      assert ListedAt(ram, c.slabs, i);
      forall j | 0 <= j < |c.slabs[i].free| ensures c.slabs[i].free[j] % 16 == 0 && c.slabs[i].free[j] != ptr {
        FreeIsObject(c, s, i, j);
      }
      SlabOutside(ram, ram', c.slabs[i], NextOf(c.slabs, i), ptr, s);
    }
  }

  lemma PushLinks(ram: seq<Word>, c: Cache, s: State, k: nat, ptr: Word, head: Word, count: Word)
    requires Inv(c, s) && Represents(ram, c.slabs) && k < |c.slabs| && ptr in c.live
    requires c.slabs[k].page * 512 + 512 <= |ram| && ptr / 8 + 1 < |ram|
    requires head == Head(c.slabs[k].free) && count == |c.slabs[k].free| + 1
    ensures Represents(PushWords(ram, c.slabs[k].page, ptr, head, count), Pushed(c, k, ptr).slabs)
  {
    var page, free := c.slabs[k].page, c.slabs[k].free;
    var ram1 := ram[ptr / 8 := head][ptr / 8 + 1 := ptr];
    var ram', slabs' := PushWords(ram, page, ptr, head, count), Pushed(c, k, ptr).slabs;
    assert ram' == PopWords(ram1, page, ptr, count);
    AllPlaced(c, s);
    ListedPages(c, s);
    LiveIsObject(c, s, ptr);
    ObjectStored(ram, c, s, ptr, head);
    forall i | 0 <= i < |slabs'| ensures ListedAt(ram', slabs', i) {
      assert ListedAt(ram1, c.slabs, i);
      assert NextOf(slabs', i) == NextOf(c.slabs, i);
      if i == k {
        LongerChain(ram1, free, ptr, head);
        ChainBesideHeader(ram1, ram', [ptr] + free, page, s, page * 512 + 509);
      } else {
        SlabBesideHeader(ram1, ram', c.slabs[i], NextOf(c.slabs, i), page, s, page * 512 + 509);
      }
    }
  }

  lemma LongerChain(ram: seq<Word>, free: seq<nat>, ptr: nat, head: Word)
    requires ChainAt(ram, free) && ptr / 8 + 1 < |ram| && ram[ptr / 8] == head && head == Head(free)
    ensures ChainAt(ram, [ptr] + free)
  {
    forall j | 0 <= j < |[ptr] + free| ensures LinkAt(ram, [ptr] + free, j) {
      if j > 0 {
        var j1 := j - 1;
        assert LinkAt(ram, free, j1);
      }
    }
  }

  /** The callers may write anywhere in the objects they hold: the cache does not look there. */
  lemma CallersWrite(ram: seq<Word>, c: Cache, s: State, a: nat, w: nat, value: Word)
    requires Inv(c, s) && Represents(ram, c.slabs) && a in c.live
    requires a / 8 <= w < (a + c.size) / 8 && w < |ram|
    ensures Represents(ram[w := value], c.slabs)
  {
    var ram' := ram[w := value];
    AllPlaced(c, s);
    forall i | 0 <= i < |c.slabs| ensures ListedAt(ram', c.slabs, i) {
      assert ListedAt(ram, c.slabs, i);
      WordInObject(c, s, a, w, c.slabs[i].page);
      forall j | 0 <= j < |c.slabs[i].free| && c.slabs[i].free[j] / 8 < |ram|
        ensures ram'[c.slabs[i].free[j] / 8] == ram[c.slabs[i].free[j] / 8]
      {
        WordOfLive(c, s, a, w, i, j);
      }
      ChainKept(ram, ram', c.slabs[i].free);
    }
  }

  lemma WordInObject(c: Cache, s: State, a: nat, w: nat, page: nat)
    requires Inv(c, s) && a in c.live && a / 8 <= w < (a + c.size) / 8
    ensures OffHeader(w, page)
  {
    ObjectsAreSomewhereOnce(c, s, a);
    var i :| 0 <= i < |All(c)| && IsCell(a, All(c)[i].page, c.size);
    CellFacts(a, All(c)[i].page, c.size);
    var p := All(c)[i].page;
    assert p * 512 <= w < p * 512 + 507;
  }

  lemma WordOfLive(c: Cache, s: State, a: nat, w: nat, i: nat, j: nat)
    requires Inv(c, s) && a in c.live && a / 8 <= w < (a + c.size) / 8
    requires i < |c.slabs| && j < |c.slabs[i].free|
    ensures w != c.slabs[i].free[j] / 8
  {
    var b := c.slabs[i].free[j];
    FreeIsObject(c, s, i, j);
    assert All(c)[i] == c.slabs[i];
    FreeInBag(All(c), i, b);
    ObjectsAreSomewhereOnce(c, s, a);
    ObjectsAreSomewhereOnce(c, s, b);
    TwoCells(c, a, b);
  }

  lemma TwoCells(c: Cache, a: nat, b: nat)
    requires c.size > 0 && c.size % 16 == 0
    requires CellOfSome(All(c), c.size, a) && CellOfSome(All(c), c.size, b) && a != b
    ensures a + c.size <= b || b + c.size <= a
    ensures a % 16 == 0 && b % 16 == 0
  {
    var all := All(c);
    var i :| 0 <= i < |all| && IsCell(a, all[i].page, c.size);
    var j :| 0 <= j < |all| && IsCell(b, all[j].page, c.size);
    CellFacts(a, all[i].page, c.size);
    CellFacts(b, all[j].page, c.size);
    var x :| 0 <= x < CountMax(c.size) && Cells(all[i].page, c.size)[x] == a;
    var y :| 0 <= y < CountMax(c.size) && Cells(all[j].page, c.size)[y] == b;
    CellsApart(all[i].page, all[j].page, c.size, x, y);
  }

  // ----- a new slab

  /** Words outside the page are as before. */
  predicate SameOutside(ram: seq<Word>, ram': seq<Word>, page: nat) {
    |ram'| == |ram| && forall w :: 0 <= w < |ram| && w / 512 != page ==> ram'[w] == ram[w]
  }

  ghost predicate UnlinkedAt(ram: seq<Word>, cells: seq<nat>, i: nat)
    requires i < |cells|
  {
    cells[i] / 8 < |ram| && ram[cells[i] / 8] == 0
  }

  /** The new slab after the first j calls of slab_init_bufctls: its list has the first j objects, and the
      links of the others are still zero. */
  ghost predicate Filling(ram: seq<Word>, page: nat, size: nat, j: nat)
    requires size > 0 && j <= CountMax(size)
  {
    var cells := Cells(page, size);
    && page * 512 + 512 <= |ram|
    && ram[page * 512 + 508] == 0 && ram[page * 512 + 509] == CountMax(size)
    && ram[page * 512 + 510] == Head(cells[..j])
    && ram[page * 512 + 511] == (if j == 0 then 0 else cells[j - 1])
    && ChainAt(ram, cells[..j])
    && forall i {:trigger UnlinkedAt(ram, cells, i)} :: j <= i < |cells| ==> UnlinkedAt(ram, cells, i)
  }

  lemma CellWords(page: nat, size: nat, i: nat)
    requires SizeOk(size) && i < CountMax(size) && page > 0
    ensures var a := Cells(page, size)[i];
      && a > 0 && a % 16 == 0 && a / 8 / 512 == page && page * 512 <= a / 8 && a / 8 + 1 < page * 512 + 508
  {
    CellPlace(page, size, i);
  }

  lemma CellsSpread(page: nat, size: nat, i: nat, j: nat)
    requires SizeOk(size) && i < CountMax(size) && j < CountMax(size) && i != j && page > 0
    ensures var a, b := Cells(page, size)[i], Cells(page, size)[j];
      a / 8 != b / 8 && a / 8 + 1 != b / 8 && a / 8 != b / 8 + 1
  {
    CellsApart(page, page, size, i, j);
    CellWords(page, size, i);
    CellWords(page, size, j);
    AlignedApart(Cells(page, size)[i], Cells(page, size)[j]);
  }

  /** What slab_init_bufctls stores for object j. */
  function FillWords(ram: seq<Word>, page: nat, a: Word): (r: seq<Word>)
    requires page * 512 + 512 <= |ram| && a / 8 + 1 < |ram| && ram[page * 512 + 511] / 8 < |ram|
    ensures |r| == |ram|
  {
    var m := ram[a / 8 + 1 := a];
    if m[page * 512 + 511] == 0 then m[page * 512 + 510 := a][page * 512 + 511 := a]
    else m[m[page * 512 + 511] / 8 := a][page * 512 + 511 := a]
  }

  lemma FillStep(ram: seq<Word>, page: nat, size: nat, j: nat)
    requires SizeOk(size) && j < CountMax(size) && page > 0 && Filling(ram, page, size, j)
    requires Cells(page, size)[j] < WORD
    ensures ram[page * 512 + 511] / 8 < |ram| && Cells(page, size)[j] / 8 + 1 < |ram|
    ensures Filling(FillWords(ram, page, Cells(page, size)[j]), page, size, j + 1)
    ensures SameOutside(ram, FillWords(ram, page, Cells(page, size)[j]), page)
  {
    var cells := Cells(page, size);
    var a := cells[j];
    CellWords(page, size, j);
    if j == 0 {
      FillFirst(ram, page, size);
    } else {
      CellWords(page, size, j - 1);
      FillNext(ram, page, size, j);
    }
  }

  lemma FillFirst(ram: seq<Word>, page: nat, size: nat)
    requires SizeOk(size) && page > 0 && 0 < CountMax(size) && Filling(ram, page, size, 0)
    requires Cells(page, size)[0] < WORD && Cells(page, size)[0] / 8 + 1 < |ram|
    ensures Filling(FillWords(ram, page, Cells(page, size)[0]), page, size, 1)
    ensures SameOutside(ram, FillWords(ram, page, Cells(page, size)[0]), page)
  {
    var cells := Cells(page, size);
    var ram' := FillWords(ram, page, cells[0]);
    CellWords(page, size, 0);
    forall i | 1 <= i < |cells| ensures UnlinkedAt(ram', cells, i) {
      assert UnlinkedAt(ram, cells, i);
      CellWords(page, size, i);
      CellsSpread(page, size, 0, i);
    }
    assert cells[..1] == [cells[0]];
    assert UnlinkedAt(ram, cells, 0);
    assert LinkAt(ram', [cells[0]], 0);
  }

  lemma FillNext(ram: seq<Word>, page: nat, size: nat, j: nat)
    requires SizeOk(size) && page > 0 && 0 < j < CountMax(size) && Filling(ram, page, size, j)
    requires Cells(page, size)[j] < WORD && Cells(page, size)[j] / 8 + 1 < |ram|
    requires Cells(page, size)[j - 1] / 8 < |ram|
    ensures Filling(FillWords(ram, page, Cells(page, size)[j]), page, size, j + 1)
    ensures SameOutside(ram, FillWords(ram, page, Cells(page, size)[j]), page)
  {
    var cells := Cells(page, size);
    var ram' := FillWords(ram, page, cells[j]);
    CellWords(page, size, j);
    CellWords(page, size, j - 1);
    assert ram' == AfterNext(ram, page, cells[j], cells[j - 1]);
    NextUnlinked(ram, page, size, j);
    NextLinked(ram, page, size, j);
    assert Head(cells[..j + 1]) == Head(cells[..j]);
  }

  function AfterNext(ram: seq<Word>, page: nat, a: Word, b: nat): (r: seq<Word>)
    requires page * 512 + 512 <= |ram| && a / 8 + 1 < |ram| && b / 8 < |ram|
    ensures |r| == |ram|
  {
    ram[a / 8 + 1 := a][b / 8 := a][page * 512 + 511 := a]
  }

  lemma NextUnlinked(ram: seq<Word>, page: nat, size: nat, j: nat)
    requires SizeOk(size) && page > 0 && 0 < j < CountMax(size) && Filling(ram, page, size, j)
    requires Cells(page, size)[j] < WORD && Cells(page, size)[j] / 8 + 1 < |ram|
    requires Cells(page, size)[j - 1] / 8 < |ram|
    ensures var cells := Cells(page, size); var ram' := AfterNext(ram, page, cells[j], cells[j - 1]);
      forall i {:trigger UnlinkedAt(ram', cells, i)} :: j + 1 <= i < |cells| ==> UnlinkedAt(ram', cells, i)
  {
    var cells := Cells(page, size);
    var ram' := AfterNext(ram, page, cells[j], cells[j - 1]);
    forall i | j + 1 <= i < |cells| ensures UnlinkedAt(ram', cells, i) {
      assert UnlinkedAt(ram, cells, i);
      CellWords(page, size, i);
      CellsSpread(page, size, j, i);
      CellsSpread(page, size, j - 1, i);
    }
  }

  lemma NextLinked(ram: seq<Word>, page: nat, size: nat, j: nat)
    requires SizeOk(size) && page > 0 && 0 < j < CountMax(size) && Filling(ram, page, size, j)
    requires Cells(page, size)[j] < WORD && Cells(page, size)[j] / 8 + 1 < |ram|
    requires Cells(page, size)[j - 1] / 8 < |ram|
    ensures var cells := Cells(page, size);
      ChainAt(AfterNext(ram, page, cells[j], cells[j - 1]), cells[..j + 1])
  {
    var cells, j1 := Cells(page, size), j + 1;
    var ram', more := AfterNext(ram, page, cells[j], cells[j - 1]), cells[..j1];
    forall i | 0 <= i < |more| ensures LinkAt(ram', more, i) {
      CellWords(page, size, i);
      if i == j {
        assert UnlinkedAt(ram, cells, j);
        CellsSpread(page, size, j - 1, j);
      } else {
        assert LinkAt(ram, cells[..j], i);
        CellsSpread(page, size, i, j);
        if i < j - 1 { CellsSpread(page, size, i, j - 1); }
      }
    }
  }

  /** The stores of slab_create_slab to the new slab_t, in a page of zeros. */
  lemma FillStart(ram: seq<Word>, page: nat, size: nat)
    requires SizeOk(size) && page > 0 && page * 512 + 512 <= |ram|
    requires forall w :: page * 512 <= w < page * 512 + 512 ==>
      ram[w] == if w == page * 512 + 509 then CountMax(size) else 0
    ensures Filling(ram, page, size, 0)
  {
    var cells := Cells(page, size);
    assert cells[..0] == [];
    forall i | 0 <= i < |cells| ensures UnlinkedAt(ram, cells, i) { CellWords(page, size, i); }
  }

  lemma FilledUp(ram: seq<Word>, page: nat, size: nat)
    requires size > 0 && Filling(ram, page, size, CountMax(size))
    ensures SlabAt(ram, Fresh(page, size), 0)
  {
    assert Cells(page, size)[..CountMax(size)] == Cells(page, size);
  }

  // ----- linking it

  /** Words outside the page are as before, but for the next pointer of the cursor's slab. */
  ghost predicate LinkedIn(ram: seq<Word>, ram': seq<Word>, c: Cache, k: nat, page: nat)
    requires c.slabs == [] || k < |c.slabs|
  {
    && |ram'| == |ram|
    && (c.slabs != [] ==>
        var w := c.slabs[k].page * 512 + 508; w < |ram| && ram'[w] == Header(page))
    && forall w :: 0 <= w < |ram| && w / 512 != page && (c.slabs != [] ==> w != c.slabs[k].page * 512 + 508) ==>
         ram'[w] == ram[w]
  }

  lemma LinkNew(ram: seq<Word>, ram': seq<Word>, c: Cache, s: State, k: nat, page: nat)
    requires Inv(c, s) && Represents(ram, c.slabs) && (c.slabs == [] || k < |c.slabs|)
    requires page !in s.used && LinkedIn(ram, ram', c, k, page) && SlabAt(ram', Fresh(page, c.size), 0)
    ensures Represents(ram', Linked(c, k, page).slabs)
  {
    var slabs' := Linked(c, k, page).slabs;
    AllPlaced(c, s);
    ListedPages(c, s);
    forall i | 0 <= i < |slabs'| ensures ListedAt(ram', slabs', i) {
      if i + 1 < |slabs'| {
        assert ListedAt(ram, c.slabs, i) && slabs'[i] == c.slabs[i];
        EarlierSlab(ram, ram', c, s, k, page, i);
        assert NextOf(slabs', i) == if i < k then NextOf(c.slabs, i) else Header(page);
      }
    }
  }

  /** A slab up to the cursor: only the cursor's next pointer changes. */
  lemma EarlierSlab(ram: seq<Word>, ram': seq<Word>, c: Cache, s: State, k: nat, page: nat, i: nat)
    requires Placed(c.slabs, s) && PagesDistinct(c.slabs) && i <= k < |c.slabs| && page !in s.used
    requires LinkedIn(ram, ram', c, k, page) && c.slabs[i].page != page
    requires SlabAt(ram, c.slabs[i], NextOf(c.slabs, i))
    ensures SlabAt(ram', c.slabs[i], if i < k then NextOf(c.slabs, i) else Header(page))
  {
    ChainElsewhere(ram, ram', c, s, k, page, i);
    PageElsewhere(ram, ram', c, k, page, i);
  }

  lemma ChainElsewhere(ram: seq<Word>, ram': seq<Word>, c: Cache, s: State, k: nat, page: nat, i: nat)
    requires Placed(c.slabs, s) && i < |c.slabs| && k < |c.slabs| && page !in s.used
    requires LinkedIn(ram, ram', c, k, page) && ChainAt(ram, c.slabs[i].free)
    ensures ChainAt(ram', c.slabs[i].free)
  {
    var free := c.slabs[i].free;
    forall j | 0 <= j < |free| && free[j] / 8 < |ram| ensures ram'[free[j] / 8] == ram[free[j] / 8] {
      assert ObjectAddress(c.slabs[i].free[j], s);
      HeaderOfOther(free[j], c.slabs[k].page, s);
      WordPage(free[j]);
    }
    ChainKept(ram, ram', free);
  }

  lemma WordPage(a: nat)
    ensures a / 8 / 512 == a / 4096
  {
  }

  lemma PageElsewhere(ram: seq<Word>, ram': seq<Word>, c: Cache, k: nat, page: nat, i: nat)
    requires i < |c.slabs| && k < |c.slabs| && c.slabs[i].page != page && PagesDistinct(c.slabs)
    requires LinkedIn(ram, ram', c, k, page) && c.slabs[i].page * 512 + 512 <= |ram|
    ensures var w := c.slabs[i].page * 512 + 508;
      && ram'[w + 1] == ram[w + 1] && ram'[w + 2] == ram[w + 2]
      && (i != k ==> ram'[w] == ram[w])
  {
    var w := c.slabs[i].page * 512 + 508;
    assert w / 512 == c.slabs[i].page && (w + 1) / 512 == c.slabs[i].page && (w + 2) / 512 == c.slabs[i].page;
    assert i != k ==> c.slabs[i].page != c.slabs[k].page;
  }

  /** A failed pmm_allocz clears the page at address 0, where no cache has anything. */
  lemma PageZeroCleared(ram: seq<Word>, c: Cache, s: State)
    requires Inv(c, s) && Represents(ram, c.slabs)
    ensures Represents(Zeroed(ram, 0, 1), c.slabs)
  {
    var ram' := Zeroed(ram, 0, 1);
    AllPlaced(c, s);
    ListedPages(c, s);
    forall i | 0 <= i < |c.slabs| ensures ListedAt(ram', c.slabs, i) {
      assert ListedAt(ram, c.slabs, i);
      var free := c.slabs[i].free;
      forall j | 0 <= j < |free| && free[j] / 8 < |ram| ensures ram'[free[j] / 8] == ram[free[j] / 8] {
        assert ObjectAddress(c.slabs[i].free[j], s);
        WordPage(free[j]);
      }
      ChainKept(ram, ram', free);
    }
  }

  lemma LinkedThrough(ram0: seq<Word>, ram1: seq<Word>, ram2: seq<Word>, ram3: seq<Word>, c: Cache, k: nat, page: nat)
    requires c.slabs == [] || k < |c.slabs|
    requires forall i :: 0 <= i < |c.slabs| ==> c.slabs[i].page != page
    requires SameOutside(ram0, ram1, page) && LinkedIn(ram1, ram2, c, k, page) && SameOutside(ram2, ram3, page)
    ensures LinkedIn(ram0, ram3, c, k, page)
  {
    if c.slabs != [] {
      var w := c.slabs[k].page * 512 + 508;
      assert w / 512 == c.slabs[k].page;
    }
  }

  lemma ZeroedOutside(ram: seq<Word>, page: nat)
    ensures SameOutside(ram, Zeroed(ram, page, 1), page)
  {
  }

  /** The stores of slab_create_slab: the slab_t, and the next pointer of the slab at word w. */
  function HeaderStored(ram: seq<Word>, page: nat, max: Word): (r: seq<Word>)
    requires page * 512 + 512 <= |ram|
    ensures |r| == |ram|
  {
    ram[page * 512 + 508 := 0][page * 512 + 509 := max][page * 512 + 510 := 0][page * 512 + 511 := 0]
  }

  lemma HeaderStoredFills(ram: seq<Word>, page: nat, size: nat)
    requires SizeOk(size) && page > 0 && page * 512 + 512 <= |ram|
    requires forall w :: page * 512 <= w < page * 512 + 512 ==> ram[w] == 0
    ensures Filling(HeaderStored(ram, page, CountMax(size)), page, size, 0)
    ensures SameOutside(ram, HeaderStored(ram, page, CountMax(size)), page)
  {
    FillStart(HeaderStored(ram, page, CountMax(size)), page, size);
  }

  lemma FillingElsewhere(ram: seq<Word>, ram': seq<Word>, page: nat, size: nat, j: nat)
    requires SizeOk(size) && page > 0 && j <= CountMax(size) && Filling(ram, page, size, j) && |ram'| == |ram|
    requires forall w :: page * 512 <= w < page * 512 + 512 ==> ram'[w] == ram[w]
    ensures Filling(ram', page, size, j)
  {
    var cells := Cells(page, size);
    forall i | j <= i < |cells| ensures UnlinkedAt(ram', cells, i) {
      assert UnlinkedAt(ram, cells, i);
      CellWords(page, size, i);
    }
    var some := cells[..j];
    forall i | 0 <= i < |some| ensures LinkAt(ram', some, i) {
      assert LinkAt(ram, some, i);
      CellWords(page, size, i);
    }
  }

  // ----- taking slabs off the list

  /** What slab_cache_reap knows of the slabs it has kept and of those still to come. */
  ghost predicate Sorting(ram: seq<Word>, kept: seq<Slab>, rest: seq<Slab>, s: State) {
    forall k: nat {:trigger SortingAt(ram, kept, rest, s, k)} :: SortingAt(ram, kept, rest, s, k)
  }

  lemma SortingMeans(ram: seq<Word>, kept: seq<Slab>, rest: seq<Slab>, s: State)
    ensures Sorting(ram, kept, rest, s) <==> SortingAt(ram, kept, rest, s, 0)
  {
    if SortingAt(ram, kept, rest, s, 0) {
      forall k: nat ensures SortingAt(ram, kept, rest, s, k) { assert SortingAt(ram, kept, rest, s, 0); }
    }
  }

  ghost predicate SortingAt(ram: seq<Word>, kept: seq<Slab>, rest: seq<Slab>, s: State, k: nat) {
    && Represents(ram, kept + rest) && Placed(kept + rest, s) && PagesDistinct(kept + rest) && PagesUsed(kept + rest, s)
  }

  /** The slab_t that prev points to: the last one kept, or before that a page of no later slab. */
  ghost predicate PrevAt(page: nat, kept: seq<Slab>, rest: seq<Slab>) {
    if kept != [] then page == kept[|kept| - 1].page
    else forall i :: 0 < i < |rest| ==> rest[i].page != page
  }

  lemma Unlinked(ram: seq<Word>, kept: seq<Slab>, rest: seq<Slab>, s: State, page: nat, next: Word)
    requires Sorting(ram, kept, rest, s) && rest != [] && PrevAt(page, kept, rest)
    requires page * 512 + 512 <= |ram| && next == NextOf(rest, 0)
    ensures Sorting(ram[page * 512 + 508 := next], kept, rest[1..], s)
  {
    SortingMeans(ram, kept, rest, s);
    SortingMeans(ram[page * 512 + 508 := next], kept, rest[1..], s);
    var ram', whole, part := ram[page * 512 + 508 := next], kept + rest, kept + rest[1..];
    var n := |kept|;
    forall i | 0 <= i < |part| ensures part[i] == whole[if i < n then i else i + 1] {}
    forall i | 0 <= i < |part| ensures ListedAt(ram', part, i) {
      UnlinkedListed(ram, kept, rest, s, page, next, i);
    }
    forall i, k | 0 <= i < |part| && 0 <= k < |part[i].free| ensures ObjectAddress(part[i].free[k], s) {
      assert part[i] == whole[if i < n then i else i + 1];
    }
    forall i, j | 0 <= i < j < |part| ensures part[i].page != part[j].page {
      assert part[i] == whole[if i < n then i else i + 1] && part[j] == whole[if j < n then j else j + 1];
    }
  }

  lemma UnlinkedListed(ram: seq<Word>, kept: seq<Slab>, rest: seq<Slab>, s: State, page: nat, next: Word, i: nat)
    requires Sorting(ram, kept, rest, s) && rest != [] && PrevAt(page, kept, rest)
    requires page * 512 + 512 <= |ram| && next == NextOf(rest, 0) && i < |kept + rest[1..]|
    ensures ListedAt(ram[page * 512 + 508 := next], kept + rest[1..], i)
  {
    SortingMeans(ram, kept, rest, s);
    var ram', whole, part := ram[page * 512 + 508 := next], kept + rest, kept + rest[1..];
    var n := |kept|;
    var j := if i < n then i else i + 1;
    assert part[i] == whole[j] && ListedAt(ram, whole, j);
    forall k | 0 <= k < |whole[j].free| ensures ObjectAddress(whole[j].free[k], s) {}
    ChainBesideHeader(ram, ram', whole[j].free, page, s, page * 512 + 508);
    if i + 1 == n {
      assert NextOf(part, i) == next;
    } else {
      assert NextOf(part, i) == NextOf(whole, j);
      if n > 0 {
        assert whole[n - 1].page == page;
      } else {
        assert whole[j] == rest[j];
      }
      assert whole[j].page != page;
    }
  }

  lemma KeptOneMore(ram: seq<Word>, kept: seq<Slab>, rest: seq<Slab>, s: State)
    requires Sorting(ram, kept, rest, s) && rest != []
    ensures Sorting(ram, kept + [rest[0]], rest[1..], s)
  {
    SortingMeans(ram, kept, rest, s);
    SortingMeans(ram, kept + [rest[0]], rest[1..], s);
    assert kept + [rest[0]] + rest[1..] == kept + rest;
  }
}
