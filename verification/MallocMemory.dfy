/** How the heap of malloc lies in memory (fckrnl/libk/malloc.c): the slab caches on their pages, and a header
    of two bytes at the start of every block. */
module HeapMemory {
  import opened Bits
  import opened Intervals
  import opened Frames
  import opened Memory
  import opened BitmapStorage
  import opened SlabCells
  import opened Slabs
  import opened SlabSteps
  import opened SlabReap
  import opened SlabLinks
  import opened SlabFrames
  import opened SlabCaches
  import opened Malloc

  // ----- the header, and the bytes of a word

  /** metadata->size = size, in the first two bytes of a word. */
  function WithHeader(word: Word, size: nat): (r: Word)
    ensures r % 0x1_0000 == size % 0x1_0000 && r / 0x1_0000 == word / 0x1_0000
  {
    word / 0x1_0000 * 0x1_0000 + size % 0x1_0000
  }

  /** A store of one byte at the given place of a word, the lowest byte being at place 0. */
  function WithByte(word: nat, place: nat, byte: nat): nat {
    if place == 0 then word / 256 * 256 + byte
    else word % 256 + 256 * WithByte(word / 256, place - 1, byte)
  }

  /** The numbers of so many bytes. */
  function Span(bytes: nat): nat {
    if bytes == 0 then 1 else 256 * Span(bytes - 1)
  }

  lemma {:induction false} ByteFits(word: nat, place: nat, byte: nat, bytes: nat)
    requires place < bytes && byte < 256 && word < Span(bytes)
    ensures WithByte(word, place, byte) < Span(bytes)
  {
    if place > 0 {
      var high, low := word / 256, word % 256;
      assert word == 256 * high + low;
      ByteFits(high, place - 1, byte, bytes - 1);
    } else {
      LowestByteFits(word, byte, Span(bytes - 1));
    }
  }

  lemma LowestByteFits(word: nat, byte: nat, span: nat)
    requires word < 256 * span && byte < 256
    ensures word / 256 * 256 + byte < 256 * span
  {
    assert word / 256 < span;
  }

  lemma WordSpan()
    ensures Span(8) == WORD
  {
    assert Span(4) == 0x1_0000_0000;
  }

  /** A byte behind the first two leaves the header alone. */
  lemma ByteBesideHeader(word: nat, place: nat, byte: nat)
    requires 2 <= place
    ensures WithByte(word, place, byte) % 0x1_0000 == word % 0x1_0000
  {
    var low, rest := word / 256 % 256, WithByte(word / 256 / 256, place - 2, byte);
    assert WithByte(word / 256, place - 1, byte) == low + 256 * rest;
    LowBytes(word, rest);
  }

  lemma LowBytes(word: nat, rest: nat)
    ensures (word % 256 + 256 * (word / 256 % 256 + 256 * rest)) % 0x1_0000 == word % 0x1_0000
  {
    var a, b, c := word % 256, word / 256 % 256, word / 256 / 256;
    assert word == a + 256 * (b + 256 * c);
    QuotientUnique(word, 0x1_0000, c, a + 256 * b);
    QuotientUnique(a + 256 * (b + 256 * rest), 0x1_0000, rest, a + 256 * b);
  }

  // ----- the heap in memory

  ghost predicate HeaderThere(ram: seq<Word>, h: Heap, b: Block)
    requires Live(h, b)
  {
    Start(b) / 8 < |ram| && ram[Start(b) / 8] % 0x1_0000 == Tag(h, b)
  }

  /** Every block but the pending one has its header. */
  ghost predicate HeadersThere(ram: seq<Word>, h: Heap, pending: Option<Block>) {
    forall b {:trigger Live(h, b)} :: Live(h, b) && pending != Some(b) ==> HeaderThere(ram, h, b)
  }

  ghost predicate ListsThere(ram: seq<Word>, h: Heap) {
    forall i {:trigger h.caches[i]} :: 0 <= i < |h.caches| ==> Represents(ram, h.caches[i].slabs)
  }

  /** Memory holds the heap; the header of a pending block is still to be written.  HeapMeans opens the
      definition where it is needed. */
  ghost predicate HeapStored(ram: seq<Word>, h: Heap, owner: map<nat, Owner>, pending: Option<Block>) {
    forall k: nat {:trigger HeapAt(ram, h, owner, pending, k)} :: HeapAt(ram, h, owner, pending, k)
  }

  ghost predicate HeapAt(ram: seq<Word>, h: Heap, owner: map<nat, Owner>, pending: Option<Block>, k: nat) {
    && InRange(Mem(ram, h.s)) && HeapOk(h, owner)
    && ListsThere(ram, h) && HeadersThere(ram, h, pending)
  }

  lemma HeapMeans(ram: seq<Word>, h: Heap, owner: map<nat, Owner>, pending: Option<Block>)
    ensures HeapStored(ram, h, owner, pending) <==> HeapAt(ram, h, owner, pending, 0)
  {
    if HeapAt(ram, h, owner, pending, 0) {
      forall k: nat ensures HeapAt(ram, h, owner, pending, k) { assert HeapAt(ram, h, owner, pending, 0); }
    }
  }

  lemma StoredAnswers(ram: seq<Word>, h: Heap, owner: map<nat, Owner>, size: Word)
    requires HeapStored(ram, h, owner, None) && Sized(h) && size >= 7
    ensures Answered(h, size, Allocate(h, size, AsCoded).block)
  {
    HeapMeans(ram, h, owner, None);
    MallocAnswers(h, owner, size);
  }

  lemma CacheStored(ram: seq<Word>, h: Heap, owner: map<nat, Owner>, pending: Option<Block>, i: nat)
    requires HeapStored(ram, h, owner, pending) && i < 6
    ensures Sized(h) && h.caches[i].size == CacheSize(i + 2) && Stored(Mem(ram, h.s), h.caches[i])
  {
    HeapMeans(ram, h, owner, pending);
    assert CacheOk(h, owner, i);
    StoredMeans(Mem(ram, h.s), h.caches[i]);
  }

  // ----- the pages of the heap

  ghost predicate InHeap(h: Heap, x: nat) {
    || (exists i :: 0 <= i < |h.caches| && x in PageSet(All(h.caches[i])))
    || (exists p :: p in h.runs && p <= x < p + h.runs[p])
  }

  lemma CachePageOwned(h: Heap, owner: map<nat, Owner>, i: nat, x: nat)
    requires HeapOk(h, owner) && i < 6 && x in PageSet(All(h.caches[i]))
    ensures OwnedBy(owner, x, InCache(i)) && x in h.s.used && x > 0
  {
    assert CacheOk(h, owner, i);
    PagesHas(All(h.caches[i]), x);
    var k :| 0 <= k < |All(h.caches[i])| && All(h.caches[i])[k].page == x;
    assert OwnedBy(owner, All(h.caches[i])[k].page, InCache(i));
  }

  lemma RunPageOwned(h: Heap, owner: map<nat, Owner>, p: nat, x: nat)
    requires HeapOk(h, owner) && p in h.runs && p <= x < p + h.runs[p]
    ensures OwnedBy(owner, x, InRun(p)) && x in h.s.used && x > 0
  {
    assert RunOk(h, owner, p);
    assert RunPage(owner, h.s, x, p);
  }

  lemma HeapPagesUsed(h: Heap, owner: map<nat, Owner>, x: nat)
    requires HeapOk(h, owner) && InHeap(h, x)
    ensures x in h.s.used && x > 0
  {
    if i :| 0 <= i < |h.caches| && x in PageSet(All(h.caches[i])) {
      CachePageOwned(h, owner, i, x);
    } else {
      var p :| p in h.runs && p <= x < p + h.runs[p];
      RunPageOwned(h, owner, p, x);
    }
  }

  lemma CachesDisjoint(h: Heap, owner: map<nat, Owner>, i: nat, j: nat)
    requires HeapOk(h, owner) && i < 6 && j < 6 && i != j
    ensures PageSet(All(h.caches[i])) !! PageSet(All(h.caches[j]))
  {
    forall x | x in PageSet(All(h.caches[i])) ensures x !in PageSet(All(h.caches[j])) {
      CachePageOwned(h, owner, i, x);
      if x in PageSet(All(h.caches[j])) { CachePageOwned(h, owner, j, x); }
    }
  }

  /** The page a block starts on. */
  lemma StartPage(h: Heap, owner: map<nat, Owner>, b: Block)
    requires HeapOk(h, owner) && Live(h, b)
    ensures FrameOf(Start(b) / 8) == Start(b) / 4096 && InHeap(h, Start(b) / 4096) && Start(b) % 16 == 0
    ensures match b
            case Small(i, a) => a / 4096 in PageSet(All(h.caches[i - 2])) && InObject(a / 8, a, CacheSize(i))
            case Large(p) => Start(b) / 4096 == p && OwnedBy(owner, p, InRun(p))
  {
    match b
    case Small(i, a) => SmallStart(h, owner, i, a);
    case Large(p) => LargeStart(h, owner, p);
  }

  lemma SmallStart(h: Heap, owner: map<nat, Owner>, i: nat, a: nat)
    requires HeapOk(h, owner) && Live(h, Small(i, a))
    ensures FrameOf(a / 8) == a / 4096 && InHeap(h, a / 4096) && a % 16 == 0
    ensures a / 4096 in PageSet(All(h.caches[i - 2])) && InObject(a / 8, a, CacheSize(i))
  {
    var i2 := i - 2;
    assert CacheOk(h, owner, i2);
    WordPage(a);
    ObjectOnPage(h.caches[i2], h.s, a);
    ObjectHasWord(a, CacheSize(i));
  }

  lemma ObjectHasWord(a: nat, size: nat)
    requires size >= 16
    ensures InObject(a / 8, a, size)
  {
  }

  lemma LargeStart(h: Heap, owner: map<nat, Owner>, p: nat)
    requires HeapOk(h, owner) && p in h.runs
    ensures FrameOf(p * 4096 / 8) == p * 4096 / 4096 == p && InHeap(h, p) && p * 4096 % 16 == 0
    ensures OwnedBy(owner, p, InRun(p))
  {
    assert RunOk(h, owner, p);
    RunPageOwned(h, owner, p, p);
    PageStart(p);
    assert InHeap(h, p);
  }

  lemma PageStart(p: nat)
    ensures FrameOf(p * 4096 / 8) == p * 4096 / 4096 == p && p * 4096 % 16 == 0
  {
  }

  lemma ObjectOnPage(c: Cache, s: State, a: nat)
    requires Inv(c, s) && a in c.live
    ensures a / 4096 in PageSet(All(c)) && a % 16 == 0
  {
    ObjectsAreSomewhereOnce(c, s, a);
    var k :| 0 <= k < |All(c)| && IsCell(a, All(c)[k].page, c.size);
    CellFacts(a, All(c)[k].page, c.size);
    PageIn(All(c), k);
  }

  // ----- stores beside the heap

  /** Stores to pages the heap does not have. */
  lemma HeapBeside(ram: seq<Word>, ram': seq<Word>, h: Heap, owner: map<nat, Owner>, pending: Option<Block>,
                   pages: set<nat>, live: set<nat>, size: nat)
    requires HeapStored(ram, h, owner, pending) && Spared(ram, ram', pages, live, size)
    requires forall x :: x in pages ==> !InHeap(h, x)
    ensures HeapStored(ram', h, owner, pending)
  {
    HeapMeans(ram, h, owner, pending);
    HeapMeans(ram', h, owner, pending);
    forall i | 0 <= i < |h.caches| ensures Represents(ram', h.caches[i].slabs) {
      assert CacheOk(h, owner, i);
      RepresentsBeside(ram, ram', h.caches[i], h.s, pages, live, size);
    }
    forall b | Live(h, b) && pending != Some(b) ensures HeaderThere(ram', h, b) {
      assert HeaderThere(ram, h, b);
      StartPage(h, owner, b);
      assert SameWord(ram, ram', Start(b) / 8);
    }
  }

  // ----- a cache takes or gives an object

  /** A header is kept when a cache has spared its live objects. */
  lemma HeaderKept(ram: seq<Word>, ram': seq<Word>, h: Heap, owner: map<nat, Owner>, i: nat, live: set<nat>, b: Block)
    requires HeapOk(h, owner) && i < 6 && Live(h, b)
    requires Spared(ram, ram', PageSet(All(h.caches[i])) + {0}, live, h.caches[i].size)
    requires b.Small? && b.index == i + 2 ==> b.addr in live
    ensures SameWord(ram, ram', Start(b) / 8)
  {
    StartPage(h, owner, b);
    assert CacheOk(h, owner, i);
    var x := Start(b) / 4096;
    HeapPagesUsed(h, owner, x);
    match b
    case Small(j, a) =>
      if j == i + 2 {
        assert a in live && InObject(a / 8, a, h.caches[i].size);
      } else {
        CachesDisjoint(h, owner, i, j - 2);
      }
    case Large(p) =>
      if x in PageSet(All(h.caches[i])) { CachePageOwned(h, owner, i, x); }
  }

  /** Cache i becomes c, on the same pages; what is live afterwards, but for the pending block, was live before
      and has been spared. */
  lemma CacheMoves(ram: seq<Word>, ram': seq<Word>, h: Heap, owner: map<nat, Owner>, i: nat, c: Cache,
                   live: set<nat>, pending: Option<Block>)
    requires HeapStored(ram, h, owner, None) && i < 6 && Sized(h)
    requires HeapOk(h.(caches := h.caches[i := c]), owner) && Stored(Mem(ram', h.s), c)
    requires Spared(ram, ram', PageSet(All(h.caches[i])) + {0}, live, h.caches[i].size)
    requires forall a :: a in c.live ==> (a in live && a in h.caches[i].live) || pending == Some(Small(i + 2, a))
    ensures HeapStored(ram', h.(caches := h.caches[i := c]), owner, pending)
  {
    var h' := h.(caches := h.caches[i := c]);
    HeapMeans(ram, h, owner, None);
    HeapMeans(ram', h', owner, pending);
    StoredMeans(Mem(ram', h.s), c);
    ListsMove(ram, ram', h, owner, i, c, live);
    forall b | Live(h', b) && pending != Some(b) ensures HeaderThere(ram', h', b) {
      assert Live(h, b) && HeaderThere(ram, h, b);
      HeaderKept(ram, ram', h, owner, i, live, b);
    }
  }

  lemma ListsMove(ram: seq<Word>, ram': seq<Word>, h: Heap, owner: map<nat, Owner>, i: nat, c: Cache, live: set<nat>)
    requires HeapOk(h, owner) && ListsThere(ram, h) && i < 6 && Represents(ram', c.slabs)
    requires Spared(ram, ram', PageSet(All(h.caches[i])) + {0}, live, h.caches[i].size)
    ensures ListsThere(ram', h.(caches := h.caches[i := c]))
  {
    var h' := h.(caches := h.caches[i := c]);
    forall j | 0 <= j < |h'.caches| ensures Represents(ram', h'.caches[j].slabs) {
      if j != i {
        assert CacheOk(h, owner, j);
        CachesDisjoint(h, owner, i, j);
        PagesAreUsed(h.caches[j], h.s);
        RepresentsBeside(ram, ram', h.caches[j], h.s, PageSet(All(h.caches[i])) + {0}, live, h.caches[i].size);
      }
    }
  }

  // ----- stores to a block

  /** A store to a word of a live block, which keeps the header or is the header. */
  lemma BlockStored(ram: seq<Word>, h: Heap, owner: map<nat, Owner>, pending: Option<Block>, b: Block, w: nat, value: Word)
    requires HeapStored(ram, h, owner, pending) && Live(h, b) && Start(b) / 8 <= w < End(h, b) / 8 && w < |ram|
    requires pending == None || pending == Some(b)
    requires w == Start(b) / 8 && pending == None ==> value % 0x1_0000 == ram[w] % 0x1_0000
    requires w == Start(b) / 8 && pending == Some(b) ==> value % 0x1_0000 == Tag(h, b)
    ensures HeapStored(ram[w := value], h, owner, if w == Start(b) / 8 then None else pending)
  {
    var ram', pending' := ram[w := value], if w == Start(b) / 8 then None else pending;
    HeapMeans(ram, h, owner, pending);
    HeapMeans(ram', h, owner, pending');
    ListsBesideBlock(ram, h, owner, b, w, value);
    forall d | Live(h, d) && pending' != Some(d) ensures HeaderThere(ram', h, d) {
      if d != b {
        HeaderElsewhere(h, owner, b, d, w);
        assert HeaderThere(ram, h, d);
      } else if pending == None {
        assert HeaderThere(ram, h, b);
      }
    }
  }

  lemma HeaderElsewhere(h: Heap, owner: map<nat, Owner>, b: Block, d: Block, w: nat)
    requires HeapOk(h, owner) && Live(h, b) && Live(h, d) && b != d && Start(b) / 8 <= w < End(h, b) / 8
    ensures w != Start(d) / 8
  {
    BlocksApart(h, owner, b, d);
    StartPage(h, owner, b);
    StartPage(h, owner, d);
    BlockEnds(h, owner, d);
  }

  lemma BlockEnds(h: Heap, owner: map<nat, Owner>, b: Block)
    requires HeapOk(h, owner) && Live(h, b)
    ensures End(h, b) >= Start(b) + 16
  {
    match b
    case Small(i, a) =>
    case Large(p) => assert RunOk(h, owner, p);
  }

  lemma ListsBesideBlock(ram: seq<Word>, h: Heap, owner: map<nat, Owner>, b: Block, w: nat, value: Word)
    requires HeapOk(h, owner) && ListsThere(ram, h) && Live(h, b) && Start(b) / 8 <= w < End(h, b) / 8 && w < |ram|
    ensures ListsThere(ram[w := value], h)
  {
    forall i | 0 <= i < |h.caches| ensures Represents(ram[w := value], h.caches[i].slabs) {
      ListBesideBlock(ram, h, owner, b, w, value, i);
    }
  }

  lemma ListBesideBlock(ram: seq<Word>, h: Heap, owner: map<nat, Owner>, b: Block, w: nat, value: Word, i: nat)
    requires HeapOk(h, owner) && ListsThere(ram, h) && Live(h, b) && Start(b) / 8 <= w < End(h, b) / 8 && w < |ram|
    requires i < 6
    ensures Represents(ram[w := value], h.caches[i].slabs)
  {
    var c := h.caches[i];
    assert CacheOk(h, owner, i);
    if b.Small? && b.index == i + 2 {
      CallersWrite(ram, c, h.s, b.addr, w, value);
    } else {
      WordOfBlock(h, owner, b, w, i);
      OneWordSpared(ram, w, value);
      RepresentsBeside(ram, ram[w := value], c, h.s, {FrameOf(w)}, {}, 0);
    }
  }

  lemma OneWordSpared(ram: seq<Word>, w: nat, value: Word)
    requires w < |ram|
    ensures Spared(ram, ram[w := value], {FrameOf(w)}, {}, 0)
  {
  }

  /** No word of a block lies on a page of a cache other than its own. */
  lemma WordOfBlock(h: Heap, owner: map<nat, Owner>, b: Block, w: nat, i: nat)
    requires HeapOk(h, owner) && Live(h, b) && Start(b) / 8 <= w < End(h, b) / 8 && i < 6
    requires b.Small? ==> b.index != i + 2
    ensures FrameOf(w) !in PageSet(All(h.caches[i]))
  {
    match b
    case Small(j, a) =>
      SmallPlace(h, owner, j, a);
      StartPage(h, owner, b);
      assert FrameOf(w) == a / 4096;
      CachesDisjoint(h, owner, i, j - 2);
    case Large(p) =>
      assert p <= FrameOf(w) < p + h.runs[p];
      RunPageOwned(h, owner, p, FrameOf(w));
      if FrameOf(w) in PageSet(All(h.caches[i])) { CachePageOwned(h, owner, i, FrameOf(w)); }
  }

  /** A block lies in memory, in reach of a 64-bit address. */
  lemma BlockInMemory(ram: seq<Word>, h: Heap, owner: map<nat, Owner>, pending: Option<Block>, b: Block)
    requires HeapStored(ram, h, owner, pending) && Live(h, b)
    ensures Start(b) % 16 == 0 && Start(b) + 16 <= End(h, b) <= 8 * |ram| && End(h, b) <= WORD
    ensures Start(b) / 8 < |ram| && Start(b) / 8 < End(h, b) / 8
  {
    HeapMeans(ram, h, owner, pending);
    StartPage(h, owner, b);
    BlockEnds(h, owner, b);
    match b
    case Small(i, a) =>
      SmallPlace(h, owner, i, a);
      CacheTop(h, owner, i - 2, a / 4096);
    case Large(p) => RunInside(h, owner, p);
  }

  lemma CacheTop(h: Heap, owner: map<nat, Owner>, i: nat, x: nat)
    requires HeapOk(h, owner) && i < 6 && x in PageSet(All(h.caches[i]))
    ensures x < h.s.top
  {
    assert CacheOk(h, owner, i);
    PagesHas(All(h.caches[i]), x);
  }

  // ----- a new heap

  /** Six caches of the right sizes on pages of their own, with no object handed out. */
  ghost predicate NewHeap(ram: seq<Word>, h: Heap) {
    && |h.caches| == 6 && h.runs == map[]
    && (forall i {:trigger NewCache(ram, h, i)} :: 0 <= i < 6 ==> NewCache(ram, h, i))
    && (forall i, j {:trigger h.caches[i], h.caches[j]} :: 0 <= i < j < 6 ==>
          PageSet(All(h.caches[i])) !! PageSet(All(h.caches[j])))
  }

  ghost predicate NewCache(ram: seq<Word>, h: Heap, i: nat)
    requires i < |h.caches| && i + 2 < 8
  {
    var c := h.caches[i];
    c.size == CacheSize(i + 2) && c.live == {} && Stored(Mem(ram, h.s), c)
  }

  lemma {:induction false} NewOwners(h: Heap, n: nat) returns (owner: map<nat, Owner>)
    requires n <= |h.caches|
    requires forall i, j {:trigger h.caches[i], h.caches[j]} :: 0 <= i < j < n ==>
      PageSet(All(h.caches[i])) !! PageSet(All(h.caches[j]))
    ensures forall i, x :: 0 <= i < n && x in PageSet(All(h.caches[i])) ==> OwnedBy(owner, x, InCache(i))
  {
    owner := map[];
    if n > 0 {
      var before := NewOwners(h, n - 1);
      var last := PageSet(All(h.caches[n - 1]));
      owner := map x | x in before.Keys + last :: if x in last then InCache(n - 1) else before[x];
      forall i, x | 0 <= i < n && x in PageSet(All(h.caches[i])) ensures OwnedBy(owner, x, InCache(i)) {
        if i < n - 1 { assert OwnedBy(before, x, InCache(i)); }
      }
    }
  }

  /** malloc_heap_init, as far as the six caches go: the heap is in order. */
  lemma NewHeapStored(ram: seq<Word>, h: Heap) returns (owner: map<nat, Owner>)
    requires NewHeap(ram, h)
    ensures HeapStored(ram, h, owner, None)
  {
    owner := NewOwners(h, 6);
    NewHeapOk(ram, h, owner);
    NothingLive(ram, h);
    HeapMeans(ram, h, owner, None);
  }

  lemma NewHeapOk(ram: seq<Word>, h: Heap, owner: map<nat, Owner>)
    requires NewHeap(ram, h)
    requires forall i, x :: 0 <= i < 6 && x in PageSet(All(h.caches[i])) ==> OwnedBy(owner, x, InCache(i))
    ensures HeapOk(h, owner) && ListsThere(ram, h) && InRange(Mem(ram, h.s))
  {
    forall i | 0 <= i < 6 ensures CacheOk(h, owner, i) && h.caches[i].size > 0 && Represents(ram, h.caches[i].slabs) {
      NewCacheOk(ram, h, owner, i);
    }
    assert NewCache(ram, h, 0);
    StoredMeans(Mem(ram, h.s), h.caches[0]);
  }

  lemma NothingLive(ram: seq<Word>, h: Heap)
    requires NewHeap(ram, h)
    ensures forall b :: !Live(h, b)
  {
    forall i | 0 <= i < 6 ensures h.caches[i].live == {} { assert NewCache(ram, h, i); }
  }

  lemma NewCacheOk(ram: seq<Word>, h: Heap, owner: map<nat, Owner>, i: nat)
    requires NewHeap(ram, h) && i < 6
    requires forall x :: x in PageSet(All(h.caches[i])) ==> OwnedBy(owner, x, InCache(i))
    ensures CacheOk(h, owner, i) && Represents(ram, h.caches[i].slabs) && h.caches[i].size > 0
  {
    var c := h.caches[i];
    assert NewCache(ram, h, i);
    StoredMeans(Mem(ram, h.s), c);
    forall k | 0 <= k < |All(c)| ensures OwnedBy(owner, All(c)[k].page, InCache(i)) { PageIn(All(c), k); }
  }

  // ----- what malloc and free store

  /** slab_cache_alloc has handed out an object, and its header is still to be written. */
  lemma SmallTaken(ram: seq<Word>, ram': seq<Word>, h: Heap, owner: map<nat, Owner>, size: Word)
    requires HeapStored(ram, h, owner, None) && Sized(h) && 7 <= size <= 512
    requires var i := CacheIndex(size + 2) - 2; var c := h.caches[i]; var r := CacheAlloc(c, h.s, true, false);
      Stored(Mem(ram', h.s), r.c) && Spared(ram, ram', PageSet(All(r.c)) + {0}, c.live, c.size)
    ensures var r := Allocate(h, size, AsCoded); r.h.s == h.s && HeapStored(ram', r.h, owner, r.block)
  {
    var i := CacheIndex(size + 2) - 2;
    var c := h.caches[i];
    var r := CacheAlloc(c, h.s, true, false);
    HeapMeans(ram, h, owner, None);
    assert CacheOk(h, owner, i);
    AllocKeeps(c, h.s, true, false);
    SamePages(c, h.s);
    SamePageSet(All(c), All(r.c));
    SmallAllocKeeps(h, owner, size, AsCoded);
    CacheMoves(ram, ram', h, owner, i, r.c, c.live, if r.outcome == Done then Some(Small(i + 2, r.ptr)) else None);
  }

  /** A block that starts no page is an object, and its header is the index of its cache. */
  lemma StartsPageOrNot(h: Heap, b: Block)
    requires Live(h, b) && Sized(h) && Start(b) % 4096 != 0
    ensures b == Small(Tag(h, b), Start(b)) && 2 <= Tag(h, b) < 8 && Start(b) in h.caches[Tag(h, b) - 2].live
    ensures var i := Tag(h, b) - 2; var (c, o) := CacheFree(h.caches[i], Start(b), true);
      Deallocate(h, b) == (h.(caches := h.caches[i := c]), o)
  {
  }

  /** A block that starts a page is taken for pages. */
  lemma PagesDeallocated(h: Heap, b: Block)
    requires Live(h, b) && Sized(h) && Start(b) % 4096 == 0
    ensures var (h', o) := Deallocate(h, b);
      o == Done && h'.caches == h.caches && h'.s == Release(h.s, Start(b), Tag(h, b)) && Sized(h')
  {
  }

  /** slab_cache_free has taken an object back. */
  lemma SmallFreed(ram: seq<Word>, ram': seq<Word>, h: Heap, owner: map<nat, Owner>, i: nat, a: nat)
    requires HeapStored(ram, h, owner, None) && Sized(h) && Live(h, Small(i, a)) && a % 4096 != 0
    requires var c := CacheFree(h.caches[i - 2], a, true).0;
      Stored(Mem(ram', h.s), c) && Spared(ram, ram', PageSet(All(c)), c.live, h.caches[i - 2].size)
    ensures HeapStored(ram', Deallocate(h, Small(i, a)).0, owner, None)
  {
    var i2 := i - 2;
    var c := CacheFree(h.caches[i2], a, true).0;
    HeapMeans(ram, h, owner, None);
    assert CacheOk(h, owner, i2);
    FreeKeeps(h.caches[i2], h.s, a, true);
    FreeTakesNothing(h.caches[i2], a, true);
    SmallFreeKeeps(h, owner, i, a);
    SparedMore(ram, ram', PageSet(All(c)), PageSet(All(h.caches[i2])) + {0}, c.live, h.caches[i2].size);
    CacheMoves(ram, ram', h, owner, i2, c, c.live, None);
  }

  lemma ZeroedSpared(ram: seq<Word>, page: nat, n: nat, pages: set<nat>)
    requires Interval(page, page + n) <= pages
    ensures Spared(ram, Zeroed(ram, page, n), pages, {}, 0)
  {
    forall w: nat | FrameOf(w) !in pages || InSome(w, {}, 0) ensures SameWord(ram, Zeroed(ram, page, n), w) {
      assert FrameOf(w) !in Interval(page, page + n);
    }
  }

  /** pmm_allocz has handed out a run of free pages, and its header is still to be written. */
  lemma LargeTaken(ram: seq<Word>, h: Heap, owner: map<nat, Owner>, p: nat, n: nat, s1: State)
    requires HeapStored(ram, h, owner, None) && SoundFrames(s1) && s1.top == h.s.top
    requires s1.used == h.s.used + Interval(p, p + n) && 0 < p && 0 < n && Interval(p, p + n) <= Free(h.s)
    ensures HeapStored(Zeroed(ram, p, n), h.(s := s1, runs := h.runs[p := n]),
                       WithRun(owner, p, Interval(p, p + n)), Some(Large(p)))
  {
    var run, ram' := Interval(p, p + n), Zeroed(ram, p, n);
    HeapMeans(ram, h, owner, None);
    ZeroedSpared(ram, p, n, run);
    forall x | x in run ensures !InHeap(h, x) {
      if InHeap(h, x) { HeapPagesUsed(h, owner, x); }
    }
    HeapBeside(ram, ram', h, owner, None, run, {}, 0);
    RunAdded(h, owner, p, n, s1);
    RunStored(ram', h, owner, p, n, s1);
  }

  lemma RunStored(ram: seq<Word>, h: Heap, owner: map<nat, Owner>, p: nat, n: nat, s1: State)
    requires HeapStored(ram, h, owner, None) && s1.top == h.s.top
    requires var h', owner' := h.(s := s1, runs := h.runs[p := n]), WithRun(owner, p, Interval(p, p + n)); HeapOk(h', owner')
    ensures HeapStored(ram, h.(s := s1, runs := h.runs[p := n]), WithRun(owner, p, Interval(p, p + n)), Some(Large(p)))
  {
    var h', owner' := h.(s := s1, runs := h.runs[p := n]), WithRun(owner, p, Interval(p, p + n));
    HeapMeans(ram, h, owner, None);
    HeapMeans(ram, h', owner', Some(Large(p)));
    HeadersAfter(ram, h, h', p);
  }

  lemma HeadersAfter(ram: seq<Word>, h: Heap, h': Heap, p: nat)
    requires HeadersThere(ram, h, None) && h'.caches == h.caches && h'.runs.Keys <= h.runs.Keys + {p}
    requires forall q :: q in h'.runs && q != p ==> h'.runs[q] == h.runs[q]
    ensures HeadersThere(ram, h', Some(Large(p)))
  {
    forall b | Live(h', b) && Some(Large(p)) != Some(b) ensures HeaderThere(ram, h', b) {
      assert Live(h, b);
      assert HeaderThere(ram, h, b);
    }
  }

  /** Page 0 belongs to nobody. */
  lemma PageZeroStored(ram: seq<Word>, ram': seq<Word>, h: Heap, owner: map<nat, Owner>)
    requires HeapStored(ram, h, owner, None) && Spared(ram, ram', {0}, {}, 0)
    ensures HeapStored(ram', h, owner, None)
  {
    HeapMeans(ram, h, owner, None);
    forall x | x in {0} ensures !InHeap(h, x) {
      if InHeap(h, x) { HeapPagesUsed(h, owner, x); }
    }
    HeapBeside(ram, ram', h, owner, None, {0}, {}, 0);
  }

  /** pmm_free has taken a run back. */
  lemma LargeFreed(ram: seq<Word>, h: Heap, owner: map<nat, Owner>, p: nat)
    requires HeapStored(ram, h, owner, None) && Sized(h) && p in h.runs
    ensures HeapStored(ram, Deallocate(h, Large(p)).0, owner, None)
  {
    var h' := Deallocate(h, Large(p)).0;
    HeapMeans(ram, h, owner, None);
    LargeFreeKeeps(h, owner, p);
    HeapMeans(ram, h', owner, None);
    RunFreed(h, p);
    forall b | Live(h', b) ensures HeaderThere(ram, h', b) { assert HeaderThere(ram, h, b); }
  }

  lemma AllocInMemory(ram: seq<Word>, h: Heap, owner: map<nat, Owner>, n: nat)
    requires HeapStored(ram, h, owner, None) && 0 < |ram|
    ensures var a := Alloc(h.s, n).1; a / 8 < |ram| && a == a / 4096 * 4096 && a < WORD
  {
    HeapMeans(ram, h, owner, None);
    FirstFitIsLowest(h.s.used, h.s.top, n, 0);
  }

  /** Allocate for pages, spelt out. */
  lemma LargeAllocated(h: Heap, size: Word, s1: State, a: nat, st: Storage)
    requires Sized(h) && 512 < size && (s1, a) == AllocCleared(h.s, PagesAsked(size), st) && a == a / 4096 * 4096
    ensures var r := AllocateCleared(h, size, st);
      && r.outcome == (if a == 0 then Null else Done)
      && r.block == (if a == 0 then None else Some(Large(a / 4096)))
      && r.h == h.(s := s1, runs := if a == 0 then h.runs else h.runs[a / 4096 := PagesAsked(size)])
      && (r.block.Some? ==> Start(r.block.value) == a)
  {
  }

  /** The stores of a malloc of pages: pmm_allocz, and the header. */
  function PagesStored(ram: seq<Word>, a: nat, n: nat): (r: seq<Word>)
    requires a / 8 < |ram|
    ensures |r| == |ram|
  {
    var cleared := Zeroed(ram, a / 4096, n);
    cleared[a / 8 := WithHeader(cleared[a / 8], n)]
  }

  /** Behind the first word every word of a block of pages is zero. */
  ghost predicate ClearedBehind(ram: seq<Word>, p: nat, n: nat) {
    forall w {:trigger ram[w]} :: 0 <= w < |ram| && p * 512 < w < (p + n) * 512 ==> ram[w] == 0
  }

  lemma StoredCleared(ram: seq<Word>, a: nat, n: nat)
    requires a / 8 < |ram| && a == a / 4096 * 4096
    ensures ClearedBehind(PagesStored(ram, a, n), a / 4096, n)
  {
    var p, r := a / 4096, PagesStored(ram, a, n);
    assert a / 8 == p * 512;
    forall w | 0 <= w < |ram| && p * 512 < w < (p + n) * 512 ensures r[w] == 0 {
      WordOfPages(p, n, w);
      ZeroedWord(ram, p, n, w);
    }
  }

  ghost function LargeWords(ram: seq<Word>, h: Heap, size: Word): seq<Word> {
    var a := Alloc(h.s, PagesAsked(size)).1;
    if a / 8 < |ram| then PagesStored(ram, a, PagesAsked(size)) else ram
  }

  /** When pmm_alloc has failed they go to page 0. */
  lemma NullStored(ram: seq<Word>, h: Heap, owner: map<nat, Owner>, n: nat)
    requires HeapStored(ram, h, owner, None) && n <= 1 && 0 < |ram|
    ensures HeapStored(PagesStored(ram, 0, n), h, owner, None)
  {
    var ram1 := Zeroed(ram, 0, n);
    assert Interval(0, 0 + n) <= {0};
    ZeroedSpared(ram, 0, n, {0});
    PageZeroStored(ram, ram1, h, owner);
    OneWordSpared(ram1, 0, WithHeader(ram1[0], n));
    PageZeroStored(ram1, PagesStored(ram, 0, n), h, owner);
  }

  /** ... where at most one page is asked for. */
  lemma LargeStored(ram: seq<Word>, h: Heap, owner: map<nat, Owner>, size: Word)
      returns (owner': map<nat, Owner>)
    requires HeapStored(ram, h, owner, None) && Sized(h) && 512 < size && Served(size, AsCoded)
    requires Alloc(h.s, PagesAsked(size)).1 / 8 < |ram|
    ensures HeapStored(PagesStored(ram, Alloc(h.s, PagesAsked(size)).1, PagesAsked(size)),
                       Allocate(h, size, AsCoded).h, owner', None)
  {
    OnePageExactly(size);
    var n := PagesAsked(size);
    var (s1, a) := PageAlloc(h.s, n, AsCoded);
    var ram1, ram2 := Zeroed(ram, a / 4096, n), PagesStored(ram, a, n);
    HeapMeans(ram, h, owner, None);
    if a == 0 {
      owner' := owner;
      NoneTaken(h.s, n, AsCoded);
      NullStored(ram, h, owner, n);
    } else {
      RunTaken(h.s, n, AsCoded);
      LargeTaken(ram, h, owner, a / 4096, n, s1);
      owner' := WithRun(owner, a / 4096, Interval(a / 4096, a / 4096 + n));
      HeaderWritten(ram1, Allocate(h, size, AsCoded).h, owner', Large(a / 4096), n);
    }
  }

  /** The header of a pending block is written. */
  lemma HeaderWritten(ram: seq<Word>, h: Heap, owner: map<nat, Owner>, b: Block, size: nat)
    requires HeapStored(ram, h, owner, Some(b)) && Live(h, b) && size % 0x1_0000 == Tag(h, b)
    ensures Start(b) / 8 < |ram| && Start(b) < WORD
    ensures HeapStored(ram[Start(b) / 8 := WithHeader(ram[Start(b) / 8], size)], h, owner, None)
  {
    BlockInMemory(ram, h, owner, Some(b), b);
    BlockStored(ram, h, owner, Some(b), b, Start(b) / 8, WithHeader(ram[Start(b) / 8], size));
  }

  lemma RunInReach(ram: seq<Word>, h: Heap, owner: map<nat, Owner>, p: nat)
    requires HeapStored(ram, h, owner, None) && p in h.runs
    ensures p * 4096 / 4096 + Tag(h, Large(p)) <= h.s.top
  {
    HeapMeans(ram, h, owner, None);
    RunInside(h, owner, p);
  }

  /** What free reads. */
  lemma HeaderRead(ram: seq<Word>, h: Heap, owner: map<nat, Owner>, b: Block)
    requires HeapStored(ram, h, owner, None) && Live(h, b)
    ensures Start(b) / 8 < |ram| && Start(b) < WORD && ram[Start(b) / 8] % 0x1_0000 == Tag(h, b)
  {
    BlockInMemory(ram, h, owner, None, b);
    HeapMeans(ram, h, owner, None);
    assert HeaderThere(ram, h, b);
  }

  /** A caller may store any byte behind the header of a block it holds: the heap is as before, every header
      included. */
  lemma CallerStores(ram: seq<Word>, h: Heap, owner: map<nat, Owner>, b: Block, x: nat, byte: nat)
    requires HeapStored(ram, h, owner, None) && Live(h, b) && Start(b) + 2 <= x < End(h, b) && byte < 256
    ensures x / 8 < |ram| && WithByte(ram[x / 8], x % 8, byte) < WORD
    ensures HeapStored(ram[x / 8 := WithByte(ram[x / 8], x % 8, byte)], h, owner, None)
    ensures HeapStep(ram, h, ram[x / 8 := WithByte(ram[x / 8], x % 8, byte)], h)
  {
    BlockInMemory(ram, h, owner, None, b);
    BlockEndsEven(h, b);
    var w := x / 8;
    WordSpan();
    ByteFits(ram[w], x % 8, byte, 8);
    if w == Start(b) / 8 { ByteBesideHeader(ram[w], x % 8, byte); }
    BlockStored(ram, h, owner, None, b, w, WithByte(ram[w], x % 8, byte));
    StoreStep(ram, h, owner, None, b, w, WithByte(ram[w], x % 8, byte));
  }

  lemma BlockEndsEven(h: Heap, b: Block)
    requires Live(h, b) && Start(b) % 16 == 0
    ensures End(h, b) % 8 == 0
  {
    match b
    case Small(i, a) => assert CacheSize(i) % 16 == 0;
    case Large(p) => PageStart(p + h.runs[p]);
  }

  // ----- the heap beside other holders of pages

  ghost function HeapPages(h: Heap): set<nat> {
    set x | x in h.s.used && InHeap(h, x)
  }

  lemma CachePages(ram: seq<Word>, h: Heap, owner: map<nat, Owner>, i: nat)
    requires HeapStored(ram, h, owner, None) && i < |h.caches| && i < 6
    ensures PageSet(All(h.caches[i])) <= HeapPages(h)
  {
    HeapMeans(ram, h, owner, None);
    forall x | x in PageSet(All(h.caches[i])) ensures x in HeapPages(h) {
      CachePageOwned(h, owner, i, x);
      assert InHeap(h, x);
    }
  }

  lemma HeapPagesAre(h: Heap, owner: map<nat, Owner>, x: nat)
    requires HeapOk(h, owner)
    ensures x in HeapPages(h) <==> InHeap(h, x)
  {
    if InHeap(h, x) { HeapPagesUsed(h, owner, x); }
  }

  /** What a step of the heap does to the rest of the kernel: it takes free pages only, gives back its own, and
      stores to its own pages or to page 0. */
  ghost predicate HeapStep(ram: seq<Word>, h: Heap, ram': seq<Word>, h': Heap) {
    && h'.s.top == h.s.top
    && HeapPages(h') - HeapPages(h) !! h.s.used
    && h.s.used - h'.s.used <= HeapPages(h)
    && Spared(ram, ram', HeapPages(h) + HeapPages(h') + {0}, {}, 0)
  }

  /** Such a step leaves the bitmap in use, and off the pages of the heap. */
  lemma StepOffBitmap(ram: seq<Word>, h: Heap, ram': seq<Word>, h': Heap, st: Storage)
    requires HeapStep(ram, h, ram', h') && Guards(h.s, st) && Avoids(HeapPages(h), st)
    ensures Guards(h'.s, st) && Avoids(HeapPages(h'), st)
  {
    AvoidsMore(HeapPages(h), HeapPages(h'), h.s, st);
    GuardsAfter(h.s, h'.s, HeapPages(h), st);
  }

  /** malloc with the memset of pmm_allocz, which for several pages may reach the bitmap. */
  ghost function AllocateCleared(h: Heap, size: Word, st: Storage): MallocResult
    requires Sized(h) && size >= 7
  {
    var r := Allocate(h, size, AsCoded);
    if size <= 512 then r else r.(h := r.h.(s := AllocCleared(h.s, PagesAsked(size), st).0))
  }

  /** Where at most one page is asked for it does not. */
  lemma SparedHeap(h: Heap, size: Word, st: Storage)
    requires Sized(h) && 512 < size && Served(size, AsCoded) && Guards(h.s, st)
    ensures AllocateCleared(h, size, st) == Allocate(h, size, AsCoded)
  {
    OnePageExactly(size);
    OnePageSpares(h.s, PagesAsked(size), st);
  }

  /** A step that takes and gives back no page. */
  lemma StepInPlace(ram: seq<Word>, h: Heap, ram': seq<Word>, h': Heap, pages: set<nat>, live: set<nat>, size: nat)
    requires h'.s == h.s && HeapPages(h') == HeapPages(h)
    requires Spared(ram, ram', pages, live, size) && pages <= HeapPages(h) + {0}
    ensures HeapStep(ram, h, ram', h')
  {
    forall w: nat | FrameOf(w) !in HeapPages(h) + HeapPages(h') + {0} || InSome(w, {}, 0) ensures SameWord(ram, ram', w) {
      assert FrameOf(w) !in pages;
    }
  }

  /** A step, and stores in place after it. */
  lemma StepThenStore(ram: seq<Word>, h: Heap, ram1: seq<Word>, ram2: seq<Word>, h': Heap)
    requires HeapStep(ram, h, ram1, h') && HeapStep(ram1, h', ram2, h')
    ensures HeapStep(ram, h, ram2, h')
  {
    var pages := HeapPages(h) + HeapPages(h') + {0};
    SparedTwice(ram, ram1, ram2, pages, pages, HeapPages(h') + HeapPages(h') + {0}, {}, {}, {}, 0);
  }

  /** One cache changes on its own pages. */
  lemma CacheStep(ram: seq<Word>, ram': seq<Word>, h: Heap, owner: map<nat, Owner>, i: nat, c: Cache,
                  live: set<nat>, size: nat)
    requires HeapOk(h, owner) && i < 6 && PageSet(All(c)) == PageSet(All(h.caches[i]))
    requires Spared(ram, ram', PageSet(All(c)) + {0}, live, size)
    ensures HeapStep(ram, h, ram', h.(caches := h.caches[i := c]))
  {
    var h' := h.(caches := h.caches[i := c]);
    forall x ensures x in HeapPages(h') <==> x in HeapPages(h) { SamePagesInHeap(h, i, c, x); }
    forall x | x in PageSet(All(c)) ensures x in HeapPages(h) {
      CachePageOwned(h, owner, i, x);
      assert InHeap(h, x);
    }
    StepInPlace(ram, h, ram', h', PageSet(All(c)) + {0}, live, size);
  }

  lemma SamePagesInHeap(h: Heap, i: nat, c: Cache, x: nat)
    requires i < |h.caches| && PageSet(All(c)) == PageSet(All(h.caches[i]))
    ensures InHeap(h.(caches := h.caches[i := c]), x) <==> InHeap(h, x)
  {
    var h' := h.(caches := h.caches[i := c]);
    assert forall j :: 0 <= j < |h.caches| ==> PageSet(All(h'.caches[j])) == PageSet(All(h.caches[j]));
    if j :| 0 <= j < |h.caches| && x in PageSet(All(h.caches[j])) { assert x in PageSet(All(h'.caches[j])); }
    if j :| 0 <= j < |h.caches| && x in PageSet(All(h'.caches[j])) { assert x in PageSet(All(h.caches[j])); }
  }

  /** A store to a block. */
  lemma BlockStep(ram: seq<Word>, h: Heap, owner: map<nat, Owner>, b: Block, w: nat, value: Word)
    requires HeapOk(h, owner) && Live(h, b) && Start(b) / 8 <= w < End(h, b) / 8 && w < |ram|
    ensures HeapStep(ram, h, ram[w := value], h)
  {
    BlockPage(h, owner, b, w);
    HeapPagesAre(h, owner, FrameOf(w));
    OneWordSpared(ram, w, value);
    StepInPlace(ram, h, ram[w := value], h, {FrameOf(w)}, {}, 0);
  }

  lemma BlockPage(h: Heap, owner: map<nat, Owner>, b: Block, w: nat)
    requires HeapOk(h, owner) && Live(h, b) && Start(b) / 8 <= w < End(h, b) / 8
    ensures InHeap(h, FrameOf(w))
  {
    match b
    case Small(i, a) =>
      SmallPlace(h, owner, i, a);
      SmallStart(h, owner, i, a);
      assert FrameOf(w) == a / 4096;
    case Large(p) =>
      assert p <= FrameOf(w) < p + h.runs[p];
  }

  /** A run joins the heap. */
  lemma RunStep(ram: seq<Word>, h: Heap, owner: map<nat, Owner>, p: nat, n: nat, s1: State)
    requires HeapOk(h, owner) && s1.top == h.s.top && p !in h.runs
    requires s1.used == h.s.used + Interval(p, p + n) && Interval(p, p + n) <= Free(h.s)
    ensures HeapStep(ram, h, Zeroed(ram, p, n), h.(s := s1, runs := h.runs[p := n]))
  {
    var h', run := h.(s := s1, runs := h.runs[p := n]), Interval(p, p + n);
    forall x ensures InHeap(h', x) <==> InHeap(h, x) || x in run { RunInHeap(h, p, n, s1, x); }
    ZeroedSpared(ram, p, n, HeapPages(h) + HeapPages(h') + {0});
    forall x | x in HeapPages(h') - HeapPages(h) ensures x !in h.s.used {}
  }

  lemma RunInHeap(h: Heap, p: nat, n: nat, s1: State, x: nat)
    requires p !in h.runs
    ensures InHeap(h.(s := s1, runs := h.runs[p := n]), x) <==> InHeap(h, x) || x in Interval(p, p + n)
  {
    var h' := h.(s := s1, runs := h.runs[p := n]);
    assert h'.caches == h.caches;
    if q :| q in h.runs && q <= x < q + h.runs[q] { assert q in h'.runs && h'.runs[q] == h.runs[q]; }
    if q :| q in h'.runs && q <= x < q + h'.runs[q] { assert q == p || (q in h.runs && h.runs[q] == h'.runs[q]); }
    if x in Interval(p, p + n) { assert p in h'.runs && h'.runs[p] == n; }
  }

  /** A run leaves the heap, and some of its pages are freed. */
  lemma RunLeaves(ram: seq<Word>, h: Heap, owner: map<nat, Owner>, p: nat, s1: State)
    requires HeapOk(h, owner) && p in h.runs && RunGone(h, p, s1)
    ensures HeapStep(ram, h, ram, h.(s := s1, runs := h.runs - {p}))
  {
    var h' := h.(s := s1, runs := h.runs - {p});
    forall x | x in HeapPages(h') ensures x in HeapPages(h) { FewerInHeap(h, p, s1, x); }
    forall x | x in h.s.used - s1.used ensures x in HeapPages(h) { assert InHeap(h, x); }
    SparedSame(ram, HeapPages(h) + HeapPages(h') + {0}, {}, 0);
  }

  lemma FewerInHeap(h: Heap, p: nat, s1: State, x: nat)
    requires p in h.runs && InHeap(h.(s := s1, runs := h.runs - {p}), x)
    ensures InHeap(h, x)
  {
    var h' := h.(s := s1, runs := h.runs - {p});
    assert h'.caches == h.caches;
    if q :| q in h'.runs && q <= x < q + h'.runs[q] { assert q in h.runs && h.runs[q] == h'.runs[q]; }
  }

  /** The frame allocator has moved on, but the pages of the heap are still in use. */
  lemma HeapFrames(ram: seq<Word>, h: Heap, owner: map<nat, Owner>, s': State)
    requires HeapStored(ram, h, owner, None) && StillUsed(h.s, s', HeapPages(h))
    ensures HeapStored(ram, h.(s := s'), owner, None) && HeapPages(h.(s := s')) == HeapPages(h)
  {
    var h' := h.(s := s');
    HeapMeans(ram, h, owner, None);
    forall i | 0 <= i < 6 ensures CacheOk(h', owner, i) { CacheFrames(h, owner, s', i); }
    forall p | p in h'.runs ensures RunOk(h', owner, p) { RunFrames(h, owner, s', p); }
    HeapMeans(ram, h', owner, None);
    forall b | Live(h', b) ensures HeaderThere(ram, h', b) {
      assert Live(h, b);
      assert HeaderThere(ram, h, b);
    }
    forall x ensures x in HeapPages(h') <==> x in HeapPages(h) {
      HeapPagesAre(h, owner, x);
      HeapPagesAre(h', owner, x);
      FramesApart(h, s', x);
    }
  }

  lemma FramesApart(h: Heap, s': State, x: nat)
    ensures InHeap(h.(s := s'), x) <==> InHeap(h, x)
  {
    var h' := h.(s := s');
    assert h'.caches == h.caches && h'.runs == h.runs;
  }

  lemma CacheFrames(h: Heap, owner: map<nat, Owner>, s': State, i: nat)
    requires HeapOk(h, owner) && i < 6 && StillUsed(h.s, s', HeapPages(h))
    ensures CacheOk(h.(s := s'), owner, i)
  {
    assert CacheOk(h, owner, i);
    var c := h.caches[i];
    forall x | x in PageSet(All(c)) ensures x in s'.used {
      assert InHeap(h, x);
      HeapPagesAre(h, owner, x);
    }
    InvBeside(c, h.s, s');
  }

  lemma RunFrames(h: Heap, owner: map<nat, Owner>, s': State, p: nat)
    requires HeapOk(h, owner) && p in h.runs && StillUsed(h.s, s', HeapPages(h))
    ensures RunOk(h.(s := s'), owner, p)
  {
    assert RunOk(h, owner, p);
    forall x | p <= x < p + h.runs[p] ensures RunPage(owner, s', x, p) {
      assert RunPage(owner, h.s, x, p);
      assert InHeap(h, x);
      HeapPagesAre(h, owner, x);
    }
  }

  // ----- the steps of malloc and free

  lemma AllocatedLive(ram: seq<Word>, h: Heap, owner: map<nat, Owner>, size: Word)
    requires HeapStored(ram, h, owner, None) && Sized(h) && Served(size, AsCoded)
    ensures var r := Allocate(h, size, AsCoded); r.block.Some? ==> Live(r.h, r.block.value)
  {
    HeapMeans(ram, h, owner, None);
    if size <= 512 {
      SmallAllocKeeps(h, owner, size, AsCoded);
    } else {
      var owner' := LargeAllocKeeps(h, owner, size, AsCoded);
    }
  }

  lemma SmallTakenStep(ram: seq<Word>, ram': seq<Word>, h: Heap, owner: map<nat, Owner>, size: Word)
    requires HeapStored(ram, h, owner, None) && Sized(h) && 7 <= size <= 512
    requires var i := CacheIndex(size + 2) - 2; var c := h.caches[i]; var r := CacheAlloc(c, h.s, true, false);
      Spared(ram, ram', PageSet(All(r.c)) + {0}, c.live, c.size)
    ensures HeapStep(ram, h, ram', Allocate(h, size, AsCoded).h)
  {
    var i := CacheIndex(size + 2) - 2;
    var c := h.caches[i];
    var r := CacheAlloc(c, h.s, true, false);
    HeapMeans(ram, h, owner, None);
    SamePages(c, h.s);
    SamePageSet(All(c), All(r.c));
    CacheStep(ram, ram', h, owner, i, r.c, c.live, c.size);
  }

  lemma SmallFreedStep(ram: seq<Word>, ram': seq<Word>, h: Heap, owner: map<nat, Owner>, i: nat, a: nat)
    requires HeapStored(ram, h, owner, None) && Sized(h) && Live(h, Small(i, a)) && a % 4096 != 0
    requires var c := CacheFree(h.caches[i - 2], a, true).0; Spared(ram, ram', PageSet(All(c)), c.live, h.caches[i - 2].size)
    ensures HeapStep(ram, h, ram', Deallocate(h, Small(i, a)).0)
  {
    var i2 := i - 2;
    var c := CacheFree(h.caches[i2], a, true).0;
    HeapMeans(ram, h, owner, None);
    FreeTakesNothing(h.caches[i2], a, true);
    SparedMore(ram, ram', PageSet(All(c)), PageSet(All(c)) + {0}, c.live, h.caches[i2].size);
    CacheStep(ram, ram', h, owner, i2, c, c.live, h.caches[i2].size);
  }

  lemma StoreStep(ram: seq<Word>, h: Heap, owner: map<nat, Owner>, pending: Option<Block>, b: Block, w: nat, value: Word)
    requires HeapStored(ram, h, owner, pending) && Live(h, b) && Start(b) / 8 <= w < End(h, b) / 8 && w < |ram|
    ensures HeapStep(ram, h, ram[w := value], h)
  {
    HeapMeans(ram, h, owner, pending);
    BlockStep(ram, h, owner, b, w, value);
  }

  lemma LargeTakenStep(ram: seq<Word>, h: Heap, owner: map<nat, Owner>, size: Word)
    requires HeapStored(ram, h, owner, None) && Sized(h) && 512 < size && Served(size, AsCoded)
    requires Alloc(h.s, PagesAsked(size)).1 / 8 < |ram|
    ensures HeapStep(ram, h, PagesStored(ram, Alloc(h.s, PagesAsked(size)).1, PagesAsked(size)),
                     Allocate(h, size, AsCoded).h)
  {
    OnePageExactly(size);
    var n := PagesAsked(size);
    var (s1, a) := PageAlloc(h.s, n, AsCoded);
    HeapMeans(ram, h, owner, None);
    if a == 0 {
      NoneTaken(h.s, n, AsCoded);
      NullStep(ram, h, n);
    } else {
      RunTaken(h.s, n, AsCoded);
      TakenRunStep(ram, h, owner, a / 4096, n, s1);
    }
  }

  lemma NullStep(ram: seq<Word>, h: Heap, n: nat)
    requires n <= 1 && 0 < |ram|
    ensures HeapStep(ram, h, PagesStored(ram, 0, n), h)
  {
    var ram1, ram2 := Zeroed(ram, 0, n), PagesStored(ram, 0, n);
    assert Interval(0, 0 + n) <= {0};
    ZeroedSpared(ram, 0, n, {0});
    OneWordSpared(ram1, 0, WithHeader(ram1[0], n));
    assert FrameOf(0) == 0;
    SparedTwice(ram, ram1, ram2, {0}, {0}, {FrameOf(0)}, {}, {}, {}, 0);
    StepInPlace(ram, h, ram2, h, {0}, {}, 0);
  }

  lemma TakenRunStep(ram: seq<Word>, h: Heap, owner: map<nat, Owner>, p: nat, n: nat, s1: State)
    requires HeapStored(ram, h, owner, None) && SoundFrames(s1) && s1.top == h.s.top && p * 4096 / 8 < |ram|
    requires s1.used == h.s.used + Interval(p, p + n) && 0 < p && 0 < n && Interval(p, p + n) <= Free(h.s)
    ensures HeapStep(ram, h, PagesStored(ram, p * 4096, n), h.(s := s1, runs := h.runs[p := n]))
  {
    var h' := h.(s := s1, runs := h.runs[p := n]);
    var ram1 := Zeroed(ram, p, n);
    HeapMeans(ram, h, owner, None);
    RunAdded(h, owner, p, n, s1);
    RunStep(ram, h, owner, p, n, s1);
    PageStart(p);
    BlockStep(ram1, h', WithRun(owner, p, Interval(p, p + n)), Large(p), p * 4096 / 8, WithHeader(ram1[p * 4096 / 8], n));
    StepThenStore(ram, h, ram1, PagesStored(ram, p * 4096, n), h');
  }

  lemma LargeFreedStep(ram: seq<Word>, h: Heap, owner: map<nat, Owner>, p: nat)
    requires HeapStored(ram, h, owner, None) && Sized(h) && p in h.runs
    ensures HeapStep(ram, h, ram, Deallocate(h, Large(p)).0)
  {
    var n := h.runs[p] % 0x1_0000;
    HeapMeans(ram, h, owner, None);
    RunInside(h, owner, p);
    RunFreed(h, p);
    assert Interval(p, p + n) <= Interval(p, p + h.runs[p]);
    ReleasedRun(h.s, p, n);
    RunLeaves(ram, h, owner, p, Release(h.s, p * 4096, n));
  }

  /** slab_cache_free to cache i: what becomes of the heap and of memory. */
  ghost predicate Gave(ram: seq<Word>, h: Heap, ram': seq<Word>, h': Heap, i: nat, a: nat, o: Outcome)
    requires i < |h.caches| && h.caches[i].size > 0
  {
    var (c, o') := CacheFree(h.caches[i], a, true);
    && h' == h.(caches := h.caches[i := c]) && o == o'
    && Stored(Mem(ram', h.s), c) && Spared(ram, ram', PageSet(All(c)), c.live, h.caches[i].size)
  }

  lemma SmallGiven(ram: seq<Word>, h: Heap, ram': seq<Word>, h': Heap, owner: map<nat, Owner>, i: nat, a: nat, o: Outcome)
    requires HeapStored(ram, h, owner, None) && Sized(h) && Live(h, Small(i, a)) && a % 4096 != 0
    requires Gave(ram, h, ram', h', i - 2, a, o)
    ensures (h', o) == Deallocate(h, Small(i, a))
    ensures HeapStored(ram', h', owner, None) && HeapStep(ram, h, ram', h')
  {
    GaveIsFree(ram, h, ram', h', i, a, o);
    GaveParts(ram, h, ram', h', i, a, o);
    SmallFreed(ram, ram', h, owner, i, a);
    SmallFreedStep(ram, ram', h, owner, i, a);
  }

  lemma GaveIsFree(ram: seq<Word>, h: Heap, ram': seq<Word>, h': Heap, i: nat, a: nat, o: Outcome)
    requires Sized(h) && Live(h, Small(i, a)) && a % 4096 != 0 && Gave(ram, h, ram', h', i - 2, a, o)
    ensures (h', o) == Deallocate(h, Small(i, a))
  {
    StartsPageOrNot(h, Small(i, a));
  }

  lemma GaveParts(ram: seq<Word>, h: Heap, ram': seq<Word>, h': Heap, i: nat, a: nat, o: Outcome)
    requires Sized(h) && Live(h, Small(i, a)) && Gave(ram, h, ram', h', i - 2, a, o)
    ensures var c := CacheFree(h.caches[i - 2], a, true).0;
      Stored(Mem(ram', h.s), c) && Spared(ram, ram', PageSet(All(c)), c.live, h.caches[i - 2].size)
  {
  }
}
