/** The heap caches of 4 and 8 bytes (fckrnl/libk/malloc.c): a slab_bufctl_t has 16 bytes, so that the links
    of neighbouring objects overlap.  Memory is in units of 4 bytes here, the least any of the stores of
    slab_init_bufctls is aligned to. */
module SlabSmall {
  import opened Bits
  import opened SlabCells
  import opened Slabs
  import opened SlabLinks

  type Half = n: nat | n < 0x1_0000_0000

  function Join(low: nat, high: nat): Word
    requires low < 0x1_0000_0000 && high < 0x1_0000_0000
  {
    low + high * 0x1_0000_0000
  }

  /** A 64-bit load from address a. */
  function Load(mem: seq<Half>, a: nat): Word {
    if a / 4 + 1 < |mem| then Join(mem[a / 4], mem[a / 4 + 1]) else 0
  }

  /** A 64-bit store to address a. */
  function Store(mem: seq<Half>, a: nat, v: Word): (r: seq<Half>)
    ensures |r| == |mem|
  {
    if a / 4 + 1 < |mem| then mem[a / 4 := v % 0x1_0000_0000][a / 4 + 1 := v / 0x1_0000_0000] else mem
  }

  /** slab_init_bufctls for the object at a: its ptr, then freelist_head or the next of the last object, then
      freelist. */
  function InitOne(mem: seq<Half>, page: nat, a: Word): (r: seq<Half>)
    ensures |r| == |mem|
  {
    var m := Store(mem, a + 8, a);
    var last := Load(m, page * 4096 + 4088);
    Store(if last == 0 then Store(m, page * 4096 + 4080, a) else Store(m, last, a), page * 4096 + 4088, a)
  }

  /** Address of object j. */
  function ObjectAt(page: nat, size: nat, j: nat): nat {
    page * 4096 + Offset(size, j)
  }

  /** The heap window of the kernel: pages below 4 GiB. */
  predicate InWindow(mem: seq<Half>, page: nat) {
    0 < page < 0x10_0000 && page * 1024 + 1024 <= |mem| <= 0x400_0000_0000
  }

  lemma AddressFits(page: nat, size: nat, j: nat)
    requires 0 < size && j < CountMax(size) && page < 0x10_0000
    ensures ObjectAt(page, size, j) < 0x1_0000_0000 && ObjectAt(page, size, j) + size <= page * 4096 + 4056
  {
    CellPlace(page, size, j);
    assert Cells(page, size)[j] == ObjectAt(page, size, j);
  }

  /** The memories the loop over slab_init_bufctls passes through. */
  ghost predicate InitRun(trace: seq<seq<Half>>, page: nat, size: nat)
    requires 0 < size && page < 0x10_0000
  {
    && |trace| == CountMax(size) + 1
    && forall j {:trigger InitNext(trace, page, size, j)} :: 0 <= j < CountMax(size) ==> InitNext(trace, page, size, j)
  }

  ghost predicate InitNext(trace: seq<seq<Half>>, page: nat, size: nat, j: nat)
    requires 0 < size && page < 0x10_0000 && j < CountMax(size) && j + 1 < |trace|
  {
    AddressFits(page, size, j);
    trace[j + 1] == InitOne(trace[j], page, ObjectAt(page, size, j))
  }

  /** Every memory starts such a run. */
  lemma InitRuns(mem: seq<Half>, page: nat, size: nat) returns (trace: seq<seq<Half>>)
    requires 0 < size && page < 0x10_0000
    ensures InitRun(trace, page, size) && trace[0] == mem
  {
    trace := [mem];
    var n := 0;
    while n < CountMax(size)
      invariant n <= CountMax(size) && |trace| == n + 1 && trace[0] == mem
      invariant forall j {:trigger InitNext(trace, page, size, j)} :: 0 <= j < n ==> InitNext(trace, page, size, j)
    {
      AddressFits(page, size, n);
      var longer := trace + [InitOne(trace[n], page, ObjectAt(page, size, n))];
      forall j | 0 <= j < n + 1 ensures InitNext(longer, page, size, j) {
        if j < n { assert InitNext(trace, page, size, j); }
      }
      trace, n := longer, n + 1;
    }
  }

  /** What slab_create_slab leaves: a page of zeros, but for the count in the slab_t. */
  predicate NewSlab(mem: seq<Half>, page: nat, size: nat)
    requires 0 < size
  {
    && InWindow(mem, page)
    && forall x :: page * 1024 <= x < page * 1024 + 1024 ==> mem[x] == if x == page * 1024 + 1018 then CountMax(size) else 0
  }

  // ----- following the links

  datatype Place = At(address: nat) | Outside

  /** The address after k links; Outside when one points out of memory. */
  function Follow(mem: seq<Half>, a: nat, k: nat): Place
    decreases k
  {
    if k == 0 then At(a) else if a / 4 + 1 < |mem| then Follow(mem, Load(mem, a), k - 1) else Outside
  }

  predicate NilAfter(mem: seq<Half>, a: nat, k: nat) {
    Follow(mem, a, k) == At(0)
  }

  /** The free list of the slab comes to an end. */
  ghost predicate Ends(mem: seq<Half>, page: nat) {
    EndsFrom(mem, Load(mem, page * 4096 + 4080))
  }

  ghost predicate EndsFrom(mem: seq<Half>, a: nat) {
    exists k: nat :: NilAfter(mem, a, k)
  }

  // ----- sizes that are multiples of 8: memory in words of 64 bits

  function Words(mem: seq<Half>): (r: seq<Word>)
    ensures |r| == |mem| / 2
  {
    seq(|mem| / 2, w requires 0 <= w < |mem| / 2 => Join(mem[2 * w], mem[2 * w + 1]))
  }

  lemma LoadWord(mem: seq<Half>, a: nat)
    requires a % 8 == 0 && a / 8 < |mem| / 2
    ensures Load(mem, a) == Words(mem)[a / 8] && a / 4 + 1 < |mem|
  {
    assert a / 4 == 2 * (a / 8);
  }

  lemma StoreWord(mem: seq<Half>, a: nat, v: Word)
    requires a % 8 == 0 && a / 8 < |mem| / 2
    ensures Words(Store(mem, a, v)) == Words(mem)[a / 8 := v]
  {
    assert a / 4 == 2 * (a / 8);
    var r := Store(mem, a, v);
    forall w | 0 <= w < |mem| / 2 ensures Words(r)[w] == Words(mem)[a / 8 := v][w] {}
  }

  /** The call in words. */
  lemma InitOneIsFill(mem: seq<Half>, page: nat, a: Word)
    requires InWindow(mem, page) && a % 8 == 0 && a / 8 + 1 < |mem| / 2 && page * 512 + 512 <= |mem| / 2
    requires a / 8 + 1 != page * 512 + 511
    requires var last := Words(mem)[page * 512 + 511]; last % 8 == 0 && last / 8 < |mem| / 2
    ensures Words(InitOne(mem, page, a)) == FillWords(Words(mem), page, a)
  {
    var m, field := Store(mem, a + 8, a), page * 4096 + 4088;
    PtrStored(mem, page, a);
    var last := Load(m, field);
    if last == 0 {
      HeadStored(m, page, a);
    } else {
      LastStored(m, page, a, last);
    }
  }

  lemma PtrStored(mem: seq<Half>, page: nat, a: Word)
    requires a % 8 == 0 && a / 8 + 1 < |mem| / 2 && page * 512 + 512 <= |mem| / 2 && a / 8 + 1 != page * 512 + 511
    ensures Words(Store(mem, a + 8, a)) == Words(mem)[a / 8 + 1 := a]
    ensures Load(Store(mem, a + 8, a), page * 4096 + 4088) == Words(mem)[page * 512 + 511]
  {
    NextWord(a);
    StoreWord(mem, a + 8, a);
    HeaderFields(page);
    LoadWord(Store(mem, a + 8, a), page * 4096 + 4088);
  }

  lemma NextWord(a: nat)
    requires a % 8 == 0
    ensures (a + 8) % 8 == 0 && (a + 8) / 8 == a / 8 + 1
  {
  }

  lemma HeadStored(m: seq<Half>, page: nat, a: Word)
    requires page * 512 + 512 <= |m| / 2
    ensures Words(Store(Store(m, page * 4096 + 4080, a), page * 4096 + 4088, a)) ==
      Words(m)[page * 512 + 510 := a][page * 512 + 511 := a]
  {
    HeaderFields(page);
    StoreWord(m, page * 4096 + 4080, a);
    StoreWord(Store(m, page * 4096 + 4080, a), page * 4096 + 4088, a);
  }

  lemma LastStored(m: seq<Half>, page: nat, a: Word, last: nat)
    requires page * 512 + 512 <= |m| / 2 && last % 8 == 0 && last / 8 < |m| / 2
    ensures Words(Store(Store(m, last, a), page * 4096 + 4088, a)) == Words(m)[last / 8 := a][page * 512 + 511 := a]
  {
    HeaderFields(page);
    StoreWord(m, last, a);
    StoreWord(Store(m, last, a), page * 4096 + 4088, a);
  }

  lemma HeaderFields(page: nat)
    ensures (page * 4096 + 4088) % 8 == 0 && (page * 4096 + 4088) / 8 == page * 512 + 511
    ensures (page * 4096 + 4080) % 8 == 0 && (page * 4096 + 4080) / 8 == page * 512 + 510
  {
  }

  // ----- sizes from 16 on

  lemma FillsOne(m: seq<Half>, page: nat, size: nat, j: nat, a: Word)
    requires SizeOk(size) && InWindow(m, page) && j < CountMax(size) && a == Cells(page, size)[j]
    requires Filling(Words(m), page, size, j)
    ensures Filling(Words(InitOne(m, page, a)), page, size, j + 1)
  {
    CellWords(page, size, j);
    LastInPage(Words(m), page, size, j);
    FillStep(Words(m), page, size, j);
    ObjectInPage(a, page, |m| / 2);
    InitOneIsFill(m, page, a);
  }

  lemma ObjectInPage(a: nat, page: nat, words: nat)
    requires a % 16 == 0 && page * 512 <= a / 8 && a / 8 + 1 < page * 512 + 508 && page * 512 + 512 <= words
    ensures a % 8 == 0 && a / 8 + 1 < words && a / 8 + 1 != page * 512 + 511
  {
  }

  lemma LastInPage(ram: seq<Word>, page: nat, size: nat, j: nat)
    requires SizeOk(size) && page > 0 && j < CountMax(size) && Filling(ram, page, size, j)
    ensures var last := ram[page * 512 + 511]; last % 8 == 0 && last / 8 < |ram|
  {
    if j > 0 {
      CellWords(page, size, j - 1);
      ObjectInPage(Cells(page, size)[j - 1], page, |ram|);
    }
  }

  lemma {:induction false} InitFills(trace: seq<seq<Half>>, page: nat, size: nat, n: nat)
    requires SizeOk(size) && page < 0x10_0000 && InitRun(trace, page, size) && NewSlab(trace[0], page, size)
    requires n <= CountMax(size)
    ensures InWindow(trace[n], page) && Filling(Words(trace[n]), page, size, n)
  {
    if n == 0 {
      StartFills(trace[0], page, size);
    } else {
      var j := n - 1;
      InitFills(trace, page, size, j);
      AddressFits(page, size, j);
      assert InitNext(trace, page, size, j);
      FillsNext(trace[j], trace[n], page, size, j);
    }
  }

  lemma StartFills(mem: seq<Half>, page: nat, size: nat)
    requires SizeOk(size) && NewSlab(mem, page, size)
    ensures Filling(Words(mem), page, size, 0)
  {
    NewSlabWords(mem, page, size);
    FillStart(Words(mem), page, size);
  }

  lemma FillsNext(m: seq<Half>, m': seq<Half>, page: nat, size: nat, j: nat)
    requires SizeOk(size) && InWindow(m, page) && j < CountMax(size) && Filling(Words(m), page, size, j)
    requires ObjectAt(page, size, j) < WORD && m' == InitOne(m, page, ObjectAt(page, size, j))
    ensures InWindow(m', page) && Filling(Words(m'), page, size, j + 1)
  {
    FillsOne(m, page, size, j, ObjectAt(page, size, j));
  }

  lemma NewSlabWords(mem: seq<Half>, page: nat, size: nat)
    requires 0 < size && NewSlab(mem, page, size)
    ensures page * 512 + 512 <= |Words(mem)|
    ensures forall w :: page * 512 <= w < page * 512 + 512 ==>
      Words(mem)[w] == if w == page * 512 + 509 then CountMax(size) else 0
  {
    forall w | page * 512 <= w < page * 512 + 512
      ensures Words(mem)[w] == if w == page * 512 + 509 then CountMax(size) else 0
    {
      assert mem[2 * w] == if 2 * w == page * 1024 + 1018 then CountMax(size) else 0;
      assert mem[2 * w + 1] == 0;
    }
  }

  lemma {:induction false} ChainEnds(mem: seq<Half>, free: seq<nat>)
    requires free != [] && ChainAt(Words(mem), free) && forall i :: 0 <= i < |free| ==> free[i] % 8 == 0
    ensures Follow(mem, free[0], |free|) == At(0)
    decreases |free|
  {
    assert LinkAt(Words(mem), free, 0);
    LoadWord(mem, free[0]);
    if |free| > 1 {
      TailChain(Words(mem), free);
      ChainEnds(mem, free[1..]);
    }
  }

  lemma LargeEnds(trace: seq<seq<Half>>, page: nat, size: nat)
    requires SizeOk(size) && page < 0x10_0000 && InitRun(trace, page, size) && NewSlab(trace[0], page, size)
    ensures Ends(trace[CountMax(size)], page)
  {
    InitFills(trace, page, size, CountMax(size));
    FilledEnds(trace[CountMax(size)], page, size);
  }

  lemma FilledEnds(m: seq<Half>, page: nat, size: nat)
    requires SizeOk(size) && InWindow(m, page) && Filling(Words(m), page, size, CountMax(size))
    ensures Ends(m, page)
  {
    var cells := Cells(page, size);
    FilledUp(Words(m), page, size);
    CountPositive(size);
    CellsChainEnds(m, page, size);
    FieldsOfSlab(m, page, Fresh(page, size));
    assert NilAfter(m, cells[0], |cells|);
  }

  lemma CellsChainEnds(m: seq<Half>, page: nat, size: nat)
    requires SizeOk(size) && 0 < page && 0 < CountMax(size) && ChainAt(Words(m), Cells(page, size))
    ensures Follow(m, Cells(page, size)[0], CountMax(size)) == At(0)
  {
    CellsAligned(page, size);
    ChainEnds(m, Cells(page, size));
  }

  lemma CellsAligned(page: nat, size: nat)
    requires SizeOk(size) && 0 < page
    ensures forall i :: 0 <= i < CountMax(size) ==> Cells(page, size)[i] % 8 == 0
  {
    forall i | 0 <= i < CountMax(size) ensures Cells(page, size)[i] % 8 == 0 {
      CellWords(page, size, i);
      SixteenIsEight(Cells(page, size)[i]);
    }
  }

  lemma SixteenIsEight(a: nat)
    requires a % 16 == 0
    ensures a % 8 == 0
  {
  }

  lemma FieldsOfSlab(m: seq<Half>, page: nat, t: Slab)
    requires t.page == page && page * 512 + 512 <= |m| / 2 && SlabAt(Words(m), t, 0)
    ensures Load(m, page * 4096 + 4080) == SlabLinks.Head(t.free)
  {
    HeaderFields(page);
    LoadWord(m, page * 4096 + 4080);
  }

  lemma CountPositive(size: nat)
    requires 0 < size <= 4056
    ensures CountMax(size) > 0
  {
  }

  // ----- size 8: the ptr of an object is the next of the one behind it

  function Cell8(page: nat, i: nat): nat {
    page * 4096 + i * 8
  }

  lemma Cell8IsObject(page: nat, size: nat, i: nat)
    requires size == 8
    ensures ObjectAt(page, size, i) == Cell8(page, i)
  {
    OffsetIsProduct(size, i);
  }

  lemma Cell8Word(page: nat, i: nat)
    ensures Cell8(page, i) / 8 == page * 512 + i && Cell8(page, i) % 8 == 0
  {
  }

  function Next8(page: nat, i: nat, j: nat): nat
    requires i < j && j > 1
  {
    if i + 1 < j then Cell8(page, i + 1) else Cell8(page, j - 2)
  }

  ghost predicate Link8(ram: seq<Word>, page: nat, i: nat, j: nat)
    requires i < j
  {
    Cell8(page, i) / 8 < |ram| && (j > 1 ==> ram[Cell8(page, i) / 8] == Next8(page, i, j))
  }

  /** A new slab after the first j calls: each object points to the next, and the last to the one before it. */
  ghost predicate Overlapping(ram: seq<Word>, page: nat, j: nat) {
    && page * 512 + 512 <= |ram| && j < 508
    && ram[page * 512 + 511] == (if j == 0 then 0 else Cell8(page, j - 1))
    && (j > 0 ==> ram[page * 512 + 510] == Cell8(page, 0) && ram[page * 512 + j] == Cell8(page, j - 1))
    && (forall i {:trigger Link8(ram, page, i, j)} :: 0 <= i < j ==> Link8(ram, page, i, j))
  }

  lemma OverlapStep(ram: seq<Word>, page: nat, j: nat)
    requires page > 0 && j < 507 && Overlapping(ram, page, j) && Cell8(page, j) < WORD
    ensures ram[page * 512 + 511] / 8 < |ram| && Cell8(page, j) / 8 + 1 < |ram|
    ensures Overlapping(FillWords(ram, page, Cell8(page, j)), page, j + 1)
  {
    Cell8Word(page, j);
    if j > 0 { Cell8Word(page, j - 1); }
    var ram' := FillWords(ram, page, Cell8(page, j));
    var j1 := j + 1;
    forall i | 0 <= i < j1 ensures Link8(ram', page, i, j1) {
      Cell8Word(page, i);
      if i < j { assert Link8(ram, page, i, j); }
    }
  }

  lemma OverlapsOne(m: seq<Half>, page: nat, j: nat, a: Word)
    requires InWindow(m, page) && j < 507 && a == Cell8(page, j) && Overlapping(Words(m), page, j)
    ensures Overlapping(Words(InitOne(m, page, a)), page, j + 1)
  {
    Cell8Word(page, j);
    if j > 0 { Cell8Word(page, j - 1); }
    OverlapStep(Words(m), page, j);
    InitOneIsFill(m, page, a);
  }

  lemma {:induction false} InitOverlaps(trace: seq<seq<Half>>, page: nat, size: nat, n: nat)
    requires size == 8 && page < 0x10_0000 && InitRun(trace, page, size) && NewSlab(trace[0], page, size)
    requires n <= CountMax(size)
    ensures n <= 507 && InWindow(trace[n], page) && Overlapping(Words(trace[n]), page, n)
  {
    Count8();
    if n == 0 {
      NewSlabWords(trace[0], page, size);
    } else {
      var j := n - 1;
      InitOverlaps(trace, page, size, j);
      Cell8IsObject(page, size, j);
      AddressFits(page, size, j);
      assert InitNext(trace, page, size, j);
      OverlapsOne(trace[j], page, j, ObjectAt(page, size, j));
    }
  }

  /** Where k links from object i of n lead. */
  function Reached(i: nat, n: nat, k: nat): (r: nat)
    requires 2 <= n && i < n
    ensures r < n
    decreases k
  {
    if k == 0 then i else Reached(if i + 1 < n then i + 1 else n - 2, n, k - 1)
  }

  lemma {:induction false} FollowOverlapping(mem: seq<Half>, page: nat, n: nat, i: nat, k: nat)
    requires 2 <= n && i < n && Overlapping(Words(mem), page, n)
    ensures Follow(mem, Cell8(page, i), k) == At(Cell8(page, Reached(i, n, k)))
    decreases k
  {
    if k > 0 {
      assert Link8(Words(mem), page, i, n);
      Cell8Word(page, i);
      LoadWord(mem, Cell8(page, i));
      FollowOverlapping(mem, page, n, if i + 1 < n then i + 1 else n - 2, k - 1);
    }
  }

  lemma Count8()
    ensures CountMax(8) == 507
  {
    CountIsQuotient(8, 4056);
  }

  /** The list of a new slab of 8-byte objects goes on for ever. */
  lemma EightNeverEnds(trace: seq<seq<Half>>, page: nat, size: nat)
    requires size == 8 && page < 0x10_0000 && InitRun(trace, page, size) && NewSlab(trace[0], page, size)
    ensures !Ends(trace[CountMax(size)], page)
  {
    Count8();
    InitOverlaps(trace, page, size, CountMax(size));
    OverlapNeverEnds(trace[CountMax(size)], page, CountMax(size));
  }

  lemma OverlapNeverEnds(m: seq<Half>, page: nat, n: nat)
    requires InWindow(m, page) && 2 <= n && Overlapping(Words(m), page, n)
    ensures !Ends(m, page)
  {
    HeaderFields(page);
    var head := Load(m, page * 4096 + 4080);
    LoadWord(m, page * 4096 + 4080);
    forall k: nat ensures !NilAfter(m, head, k) { FollowOverlapping(m, page, n, 0, k); }
  }

  // ----- size 4: two stores meet in every link

  /** The first objects after n calls: freelist_head is the first, and from three on its link is made of the
      addresses of the second and of the third. */
  ghost predicate Mixed(mem: seq<Half>, page: nat, n: nat) {
    && InWindow(mem, page)
    && Load(mem, page * 4096 + 4088) == (if n == 0 then 0 else page * 4096 + (n - 1) * 4)
    && (n > 0 ==> Load(mem, page * 4096 + 4080) == page * 4096)
    && (n > 1 ==> mem[page * 1024] == page * 4096 + 4)
    && (n > 2 ==> mem[page * 1024 + 1] == page * 4096 + 8)
  }

  /** A store of a small value. */
  lemma StoreSmall(mem: seq<Half>, a: nat, x: nat, v: Word)
    requires a / 4 == x && x + 1 < |mem| && v < 0x1_0000_0000
    ensures Store(mem, a, v) == mem[x := v][x + 1 := 0]
  {
  }

  lemma MixedStep(mem: seq<Half>, page: nat, n: nat, a: Word)
    requires Mixed(mem, page, n) && n < 1014 && a == page * 4096 + n * 4
    ensures Mixed(InitOne(mem, page, a), page, n + 1)
  {
    var b := page * 1024;
    HalfPlaces(page, n);
    StoreSmall(mem, a + 8, b + n + 2, a);
    var m := mem[b + n + 2 := a][b + n + 3 := 0];
    assert Load(m, page * 4096 + 4088) == Load(mem, page * 4096 + 4088);
    if n == 0 {
      MixedFirst(m, page, a);
    } else {
      MixedLater(mem, m, page, n, a);
    }
  }

  lemma MixedFirst(m: seq<Half>, page: nat, a: Word)
    requires InWindow(m, page) && a == page * 4096
    ensures Mixed(Store(Store(m, page * 4096 + 4080, a), page * 4096 + 4088, a), page, 1)
  {
    var b := page * 1024;
    HalfPlaces(page, 0);
    StoreSmall(m, page * 4096 + 4080, b + 1020, a);
    StoreSmall(m[b + 1020 := a][b + 1021 := 0], page * 4096 + 4088, b + 1022, a);
  }

  lemma MixedLater(mem: seq<Half>, m: seq<Half>, page: nat, n: nat, a: Word)
    requires 0 < n < 1014 && Mixed(mem, page, n) && a == page * 4096 + n * 4
    requires m == mem[page * 1024 + n + 2 := a][page * 1024 + n + 3 := 0]
    ensures Mixed(Store(Store(m, page * 4096 + (n - 1) * 4, a), page * 4096 + 4088, a), page, n + 1)
  {
    var b := page * 1024;
    HalfPlaces(page, n);
    HalfPlaces(page, n - 1);
    StoreSmall(m, page * 4096 + (n - 1) * 4, b + n - 1, a);
    var m1 := m[b + n - 1 := a][b + n := 0];
    StoreSmall(m1, page * 4096 + 4088, b + 1022, a);
    var m2 := m1[b + 1022 := a][b + 1023 := 0];
    assert m2[b + 1020] == mem[b + 1020] && m2[b + 1021] == mem[b + 1021];
    assert n > 1 ==> m2[b] == mem[b];
    assert n > 2 ==> m2[b + 1] == mem[b + 1];
  }

  /** The units of 4 bytes that the stores meet. */
  lemma HalfPlaces(page: nat, n: nat)
    ensures (page * 4096 + n * 4 + 8) / 4 == page * 1024 + n + 2 && (page * 4096 + n * 4) / 4 == page * 1024 + n
    ensures (page * 4096 + 4080) / 4 == page * 1024 + 1020 && (page * 4096 + 4088) / 4 == page * 1024 + 1022
  {
  }

  lemma {:induction false} InitMixes(trace: seq<seq<Half>>, page: nat, size: nat, n: nat)
    requires size == 4 && page < 0x10_0000 && InitRun(trace, page, size) && NewSlab(trace[0], page, size)
    requires n <= CountMax(size)
    ensures Mixed(trace[n], page, n)
  {
    if n == 0 {
      HalfPlaces(page, 0);
    } else {
      var j := n - 1;
      InitMixes(trace, page, size, j);
      Count4();
      OffsetIsProduct(size, j);
      AddressFits(page, size, j);
      assert InitNext(trace, page, size, j);
      MixedStep(trace[j], page, j, ObjectAt(page, size, j));
    }
  }

  lemma Count4()
    ensures CountMax(4) == 1014
  {
    CountIsQuotient(4, 4056);
  }

  /** The second link of a new slab of 4-byte objects points out of memory. */
  lemma FourLeavesMemory(trace: seq<seq<Half>>, page: nat, size: nat)
    requires size == 4 && page < 0x10_0000 && InitRun(trace, page, size) && NewSlab(trace[0], page, size)
    ensures var m := trace[CountMax(size)];
      !Ends(m, page) && Follow(m, Load(m, page * 4096 + 4080), 2) == Outside
  {
    Count4();
    InitMixes(trace, page, size, CountMax(size));
    MixedLeaves(trace[CountMax(size)], page, CountMax(size));
  }

  lemma MixedLeaves(m: seq<Half>, page: nat, n: nat)
    requires Mixed(m, page, n) && 2 < n
    ensures !Ends(m, page) && Follow(m, Load(m, page * 4096 + 4080), 2) == Outside
  {
    HalfPlaces(page, 0);
    var head := Load(m, page * 4096 + 4080);
    var wild := Load(m, head);
    assert wild == page * 4096 + 4 + (page * 4096 + 8) * 0x1_0000_0000;
    assert wild / 4 + 1 >= |m|;
    forall k: nat ensures !NilAfter(m, head, k) {
      if k > 0 {
        assert Follow(m, head, k) == Follow(m, wild, k - 1);
        assert k > 1 ==> Follow(m, wild, k - 1) == Outside;
      }
    }
    assert Follow(m, head, 2) == Follow(m, wild, 1);
  }

  // ----- the exact condition

  /** The eight sizes of the heap: the free list of a new slab ends exactly when an object has room for its
      slab_bufctl_t. */
  lemma NewListEndsExactly(trace: seq<seq<Half>>, page: nat, size: nat)
    requires (size == 4 || size == 8 || SizeOk(size)) && page < 0x10_0000
    requires InitRun(trace, page, size) && NewSlab(trace[0], page, size)
    ensures Ends(trace[CountMax(size)], page) <==> size >= 16
  {
    if size == 4 {
      FourLeavesMemory(trace, page, size);
    } else if size == 8 {
      EightNeverEnds(trace, page, size);
    } else {
      LargeEnds(trace, page, size);
    }
  }

  // ----- an object handed out twice

  /** slab_cache_alloc from this slab: the object, and memory with the next head and the count one less. */
  function Take(mem: seq<Half>, page: nat): (r: (Word, seq<Half>))
    ensures |r.1| == |mem|
  {
    var head, count := Load(mem, page * 4096 + 4080), Load(mem, page * 4096 + 4072);
    (head, Store(Store(mem, page * 4096 + 4080, Load(mem, head)), page * 4096 + 4072,
                 (count + 0xFFFF_FFFF_FFFF_FFFF) % 0x1_0000_0000_0000_0000))
  }

  /** Word w belongs to an object of 8 bytes that one of the calls up to call k has handed out. */
  ghost predicate Held(calls: seq<seq<Half>>, page: nat, k: nat, w: nat)
    requires k < |calls|
  {
    exists j {:trigger Taken(calls, page, j)} :: 0 <= j <= k && w == Taken(calls, page, j) / 8
  }

  /** The object of call j. */
  function Taken(calls: seq<seq<Half>>, page: nat, j: nat): Word
    requires j < |calls|
  {
    Take(calls[j], page).0
  }

  /** The memories that calls of slab_cache_alloc find, with stores between them: malloc and its callers may have
      written anything to the objects they hold. */
  ghost predicate TakeRun(calls: seq<seq<Half>>, page: nat) {
    0 < |calls| && forall k {:trigger TakeNext(calls, page, k)} :: 0 <= k < |calls| - 1 ==> TakeNext(calls, page, k)
  }

  ghost predicate TakeNext(calls: seq<seq<Half>>, page: nat, k: nat)
    requires k + 1 < |calls|
  {
    var m := Take(calls[k], page).1;
    && |calls[k + 1]| == |m|
    && forall w {:trigger Held(calls, page, k, w)} :: 0 <= w < |m| / 2 && !Held(calls, page, k, w) ==>
         Words(calls[k + 1])[w] == Words(m)[w]
  }

  ghost predicate SameBetween(mem: seq<Half>, mem': seq<Half>, lo: nat, hi: nat)
    requires |mem'| == |mem|
  {
    forall w {:trigger Words(mem')[w]} :: lo <= w < hi && w < |mem| / 2 ==> Words(mem')[w] == Words(mem)[w]
  }

  /** After k calls: the objects handed out, the head of the list, and the links of the objects to come. */
  ghost predicate Following(calls: seq<seq<Half>>, page: nat, n: nat, k: nat)
    requires k < |calls| && 2 <= n && page * 512 + n <= |calls[0]| / 2
  {
    && |calls[k]| == |calls[0]|
    && Load(calls[k], page * 4096 + 4080) == Cell8(page, if k < n then k else n - 2)
    && SameBetween(calls[0], calls[k], page * 512 + k, page * 512 + n)
    && forall j {:trigger Taken(calls, page, j)} :: 0 <= j < k ==> Taken(calls, page, j) == Cell8(page, j)
  }

  lemma {:induction false} TakesFollow(calls: seq<seq<Half>>, page: nat, n: nat, k: nat)
    requires TakeRun(calls, page) && InWindow(calls[0], page) && 2 <= n && Overlapping(Words(calls[0]), page, n)
    requires k < |calls| && k <= n
    ensures Following(calls, page, n, k)
  {
    if k == 0 {
      HeaderFields(page);
      LoadWord(calls[0], page * 4096 + 4080);
    } else {
      var j := k - 1;
      TakesFollow(calls, page, n, j);
      assert TakeNext(calls, page, j);
      TakesOne(calls, page, n, j);
    }
  }

  lemma TakesOne(calls: seq<seq<Half>>, page: nat, n: nat, k: nat)
    requires k + 1 < |calls| && k < n && TakeNext(calls, page, k)
    requires InWindow(calls[0], page) && 2 <= n && Overlapping(Words(calls[0]), page, n) && Following(calls, page, n, k)
    ensures Following(calls, page, n, k + 1)
  {
    var head, next := Cell8(page, k), Next8(page, k, n);
    Cell8Word(page, k);
    LinkRead(calls[0], calls[k], page, n, k);
    TakenWords(calls[k], page, head, next);
    CallersElsewhere(calls, page, n, k, next);
    HeaderFields(page);
    LoadWord(calls[k + 1], page * 4096 + 4080);
  }

  lemma LinkRead(mem: seq<Half>, m: seq<Half>, page: nat, n: nat, k: nat)
    requires InWindow(mem, page) && 2 <= n && k < n && Overlapping(Words(mem), page, n)
    requires |m| == |mem| && SameBetween(mem, m, page * 512 + k, page * 512 + n)
    ensures Load(m, Cell8(page, k)) == Next8(page, k, n)
  {
    Cell8Word(page, k);
    assert Link8(Words(mem), page, k, n);
    LoadWord(m, Cell8(page, k));
    assert Words(m)[page * 512 + k] == Words(mem)[page * 512 + k];
  }

  /** The stores between the calls reach neither the header nor an object that is still to come. */
  lemma CallersElsewhere(calls: seq<seq<Half>>, page: nat, n: nat, k: nat, next: Word)
    requires k + 1 < |calls| && 2 <= n && k < n < 508 && InWindow(calls[0], page) && Following(calls, page, n, k)
    requires TakeNext(calls, page, k) && |calls[k + 1]| == |calls[k]|
    requires OnlyHeader(calls[k], Take(calls[k], page).1, page)
    requires Words(Take(calls[k], page).1)[page * 512 + 510] == next
    ensures SameBetween(calls[0], calls[k + 1], page * 512 + k + 1, page * 512 + n)
    ensures Words(calls[k + 1])[page * 512 + 510] == next
  {
    var m := Take(calls[k], page).1;
    NotHeld(calls, page, n, k, page * 512 + 510);
    forall w: nat | page * 512 + k + 1 <= w < page * 512 + n && w < |calls[0]| / 2
      ensures Words(calls[k + 1])[w] == Words(calls[0])[w]
    {
      NotHeld(calls, page, n, k, w);
      assert Words(m)[w] == Words(calls[k])[w];
    }
  }

  lemma NotHeld(calls: seq<seq<Half>>, page: nat, n: nat, k: nat, w: nat)
    requires k < |calls| && 2 <= n && k < n && page * 512 + n <= |calls[0]| / 2 && Following(calls, page, n, k)
    requires page * 512 + k < w
    ensures !Held(calls, page, k, w)
  {
    forall j | 0 <= j <= k ensures w != Taken(calls, page, j) / 8 { Cell8Word(page, j); }
  }

  ghost predicate OnlyHeader(m: seq<Half>, m': seq<Half>, page: nat)
    requires |m'| == |m|
  {
    forall w {:trigger Words(m')[w]} :: 0 <= w < |m| / 2 && w != page * 512 + 509 && w != page * 512 + 510 ==>
      Words(m')[w] == Words(m)[w]
  }

  /** slab_cache_alloc writes freelist_head and the count. */
  lemma TakenWords(m: seq<Half>, page: nat, head: nat, next: Word)
    requires InWindow(m, page) && Load(m, page * 4096 + 4080) == head && Load(m, head) == next
    ensures Take(m, page).0 == head && |Take(m, page).1| == |m|
    ensures OnlyHeader(m, Take(m, page).1, page)
    ensures page * 512 + 510 < |m| / 2 && Words(Take(m, page).1)[page * 512 + 510] == next
  {
    HeaderFields(page);
    CountField(page);
    var m1 := Store(m, page * 4096 + 4080, next);
    StoreWord(m, page * 4096 + 4080, next);
    StoreWord(m1, page * 4096 + 4072, (Load(m, page * 4096 + 4072) + 0xFFFF_FFFF_FFFF_FFFF) % 0x1_0000_0000_0000_0000);
  }

  lemma CountField(page: nat)
    ensures (page * 4096 + 4072) % 8 == 0 && (page * 4096 + 4072) / 8 == page * 512 + 509
  {
  }

  /** A cache of 8-byte objects, whatever malloc and its callers store to the objects they hold: the 508th
      slab_cache_alloc hands out the object of the 506th, which nobody has given back. */
  lemma HandedOutTwice(trace: seq<seq<Half>>, page: nat, size: nat, calls: seq<seq<Half>>)
    requires size == 8 && page < 0x10_0000 && InitRun(trace, page, size) && NewSlab(trace[0], page, size)
    requires TakeRun(calls, page) && |calls| == 508 && calls[0] == trace[CountMax(size)]
    ensures Taken(calls, page, 507) == Taken(calls, page, 505) == Cell8(page, 505)
  {
    Count8();
    InitOverlaps(trace, page, size, CountMax(size));
    var n := 507;
    TakesFollow(calls, page, n, n);
  }
}
