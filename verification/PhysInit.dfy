/** How the frame allocator takes over the firmware's memory map (pmm_init in fckrnl/mm/phys.c). */
module MemoryMap {
  import opened Bits
  import opened Intervals
  import opened Frames

  const USABLE: nat := 1
  const BOOTLOADER_RECLAIMABLE: nat := 0x1000
  const KERNEL_AND_MODULES: nat := 0x1001

  datatype MapEntry = MapEntry(base: nat, length: nat, kind: nat)

  predicate Counted(e: MapEntry) {
    e.kind == USABLE || e.kind == BOOTLOADER_RECLAIMABLE || e.kind == KERNEL_AND_MODULES
  }

  /** hi_page_top: the highest end of a counted entry. */
  function TopOf(es: seq<MapEntry>): nat {
    if es == [] then 0
    else
      var t, e := TopOf(es[..|es| - 1]), es[|es| - 1];
      if Counted(e) && e.base + e.length > t then e.base + e.length else t
  }

  /** pmm_bitmap.size for a given hi_page_top. */
  function BitmapBytes(hi: Word): Word {
    AlignUp(AlignDown(hi) / 4096 / 8)
  }

  /** One bit for every page below the top: the size divides by 8 before rounding up to a page, so up
      to seven pages are lost when the rest of the division is not absorbed by that rounding. */
  lemma BitmapCoversExactly(hi: Word)
    ensures var pages := hi / 4096;
      8 * BitmapBytes(hi) >= pages <==> pages % 32768 == 0 || pages % 32768 >= 8
    ensures BitmapBytes(hi) % 4096 == 0 && hi / 4096 / 8 <= BitmapBytes(hi) < hi / 4096 / 8 + 4096
  {
    var pages := hi / 4096;
    assert AlignDown(hi) / 4096 == pages;
    var eighth := pages / 8;
    assert eighth <= BitmapBytes(hi) < eighth + 4096 && BitmapBytes(hi) % 4096 == 0;
    var blocks, rest := pages / 32768, pages % 32768;
    assert eighth == blocks * 4096 + rest / 8;
    assert BitmapBytes(hi) / 4096 == if rest / 8 == 0 then blocks else blocks + 1;
  }

  /** With 32769 pages the last one has no bit. */
  lemma BitmapFallsShort()
    ensures 8 * BitmapBytes(0x800_1000) == 32768 && 0x800_1000 / 4096 == 32769
  {
    assert AlignDown(0x800_1000) / 4096 / 8 == 4096;
  }

  /** The entry that receives the bitmap: the first usable one that is long enough. */
  function Room(es: seq<MapEntry>, size: nat): nat
    ensures Room(es, size) <= |es|
    ensures forall i :: 0 <= i < Room(es, size) ==> es[i].kind != USABLE || es[i].length < size
    ensures Room(es, size) < |es| ==> es[Room(es, size)].kind == USABLE && es[Room(es, size)].length >= size
  {
    if es == [] then 0
    else if es[0].kind == USABLE && es[0].length >= size then 0
    else 1 + Room(es[1..], size)
  }

  /** The map after the bitmap's own storage is cut off the entry that holds it. */
  function Carved(es: seq<MapEntry>, size: nat): seq<MapEntry>
    requires Room(es, size) < |es|
  {
    var k := Room(es, size);
    es[k := MapEntry(es[k].base + size, es[k].length - size, USABLE)]
  }

  /** The pages pmm_free is called with, and how many it is told they are. */
  ghost function EntryPages(e: MapEntry): set<nat> {
    if e.kind == USABLE then Interval(e.base / 4096, e.base / 4096 + e.length / 4096) else {}
  }

  ghost function FreedPages(es: seq<MapEntry>): set<nat> {
    if es == [] then {} else FreedPages(es[..|es| - 1]) + EntryPages(es[|es| - 1])
  }

  ghost function FreedCount(es: seq<MapEntry>): nat {
    if es == [] then 0
    else FreedCount(es[..|es| - 1]) + (if es[|es| - 1].kind == USABLE then es[|es| - 1].length / 4096 else 0)
  }

  /** used_page_cnt starts as KB_TO_PAGES of a number of bytes, and pmm_free subtracts from it. */
  function KbToPages(kb: nat): Word {
    kb * 1024 % 0x1_0000_0000_0000_0000 / 4096
  }

  function CountAfter(hi: nat, freed: nat): Word {
    Minus(KbToPages(hi), freed)
  }

  /** The allocator's state when pmm_init returns, for a top at hi and a bitmap of size bytes. */
  ghost function StateAfter(carved: seq<MapEntry>, hi: nat, size: nat): State {
    State(Interval(0, 8 * size) - FreedPages(carved) + {0}, hi / 4096,
          CountAfter(hi, FreedCount(carved)))
  }

  ghost function InitialState(es: seq<MapEntry>): State
    requires TopOf(es) < WORD && Room(es, BitmapBytes(TopOf(es))) < |es|
  {
    StateAfter(Carved(es, BitmapBytes(TopOf(es))), TopOf(es), BitmapBytes(TopOf(es)))
  }

  /** hi_page_top is the end of a counted entry, if there is one, and none ends above it. */
  lemma {:induction false} TopIsHighest(es: seq<MapEntry>)
    ensures forall i :: 0 <= i < |es| && Counted(es[i]) ==> es[i].base + es[i].length <= TopOf(es)
    ensures TopOf(es) > 0 ==> exists i :: 0 <= i < |es| && Counted(es[i]) && es[i].base + es[i].length == TopOf(es)
  {
    if es != [] {
      var rest, n := es[..|es| - 1], |es| - 1;
      TopIsHighest(rest);
      assert forall i :: 0 <= i < n ==> rest[i] == es[i];
    }
  }

  // ----- any map

  /** A page that pmm_init frees for entry i: a whole page of a usable entry, counted from the page boundary at or
      below its base, behind the storage of the bitmap. */
  predicate FreedBy(es: seq<MapEntry>, size: nat, i: nat, p: nat)
    requires i < |es|
  {
    var from := es[i].base - es[i].base % 4096;
    && es[i].kind == USABLE && from <= p * 4096 && (p + 1) * 4096 <= from + es[i].length
    && (i == Room(es, size) ==> from + size <= p * 4096)
  }

  /** For any map a bit is clear after pmm_init exactly for the pages freed, but for page 0. */
  lemma InitialBits(es: seq<MapEntry>, p: nat)
    requires TopOf(es) < WORD && Room(es, BitmapBytes(TopOf(es))) < |es| && p < 8 * BitmapBytes(TopOf(es))
    ensures p !in InitialState(es).used <==>
      p != 0 && exists i :: 0 <= i < |es| && FreedBy(es, BitmapBytes(TopOf(es)), i, p)
    ensures InitialState(es).top == TopOf(es) / 4096
  {
    FreedPagesOf(es, BitmapBytes(TopOf(es)), p);
  }

  lemma FreedPagesOf(es: seq<MapEntry>, size: nat, p: nat)
    requires Room(es, size) < |es| && size % 4096 == 0
    ensures p in FreedPages(Carved(es, size)) <==> exists i :: 0 <= i < |es| && FreedBy(es, size, i, p)
  {
    var carved := Carved(es, size);
    FreedPagesMembers(carved, p);
    forall i | 0 <= i < |es| ensures p in EntryPages(carved[i]) <==> FreedBy(es, size, i, p) { EntryFreed(es, size, i, p); }
  }

  lemma EntryFreed(es: seq<MapEntry>, size: nat, i: nat, p: nat)
    requires Room(es, size) < |es| && size % 4096 == 0 && i < |es|
    ensures p in EntryPages(Carved(es, size)[i]) <==> FreedBy(es, size, i, p)
  {
    if i == Room(es, size) { CutPages(es[i].base, es[i].length, size, p); } else { WholePages(es[i].base, es[i].length, p); }
  }

  lemma WholePages(base: nat, length: nat, p: nat)
    ensures base / 4096 <= p < base / 4096 + length / 4096 <==>
      base - base % 4096 <= p * 4096 && (p + 1) * 4096 <= base - base % 4096 + length
  {
  }

  lemma CutPages(base: nat, length: nat, size: nat, p: nat)
    requires size % 4096 == 0 && size <= length
    ensures (base + size) / 4096 <= p < (base + size) / 4096 + (length - size) / 4096 <==>
      && base - base % 4096 <= p * 4096 && (p + 1) * 4096 <= base - base % 4096 + length
      && base - base % 4096 + size <= p * 4096
  {
    var k := size / 4096;
    assert size == k * 4096;
    QuotientUnique(base + size, 4096, base / 4096 + k, base % 4096);
    QuotientUnique(length - size, 4096, length / 4096 - k, length % 4096);
    WholePages(base, length, p);
  }

  // ----- firmware maps the boot protocol promises: usable entries page aligned and free of overlaps

  ghost predicate Aligned(es: seq<MapEntry>) {
    forall i :: 0 <= i < |es| && es[i].kind == USABLE ==> es[i].base % 4096 == 0 && es[i].length % 4096 == 0
  }

  ghost predicate Apart(a: MapEntry, b: MapEntry) {
    a.kind == USABLE && b.kind == USABLE ==> a.base + a.length <= b.base || b.base + b.length <= a.base
  }

  ghost predicate Disjoint(es: seq<MapEntry>) {
    forall i, j :: 0 <= i < j < |es| ==> Apart(es[i], es[j])
  }

  predicate Covers(e: MapEntry, page: nat) {
    e.base <= page * 4096 && (page + 1) * 4096 <= e.base + e.length
  }

  lemma {:induction false} TopBounds(es: seq<MapEntry>, i: nat)
    requires i < |es| && Counted(es[i])
    ensures es[i].base + es[i].length <= TopOf(es)
  {
    if i < |es| - 1 { TopBounds(es[..|es| - 1], i); }
  }

  lemma {:induction false} FreedPagesInclude(es: seq<MapEntry>, i: nat)
    requires i < |es|
    ensures EntryPages(es[i]) <= FreedPages(es)
  {
    if i < |es| - 1 { FreedPagesInclude(es[..|es| - 1], i); }
  }

  lemma {:induction false} FreedPagesSource(es: seq<MapEntry>, p: nat) returns (i: nat)
    requires p in FreedPages(es)
    ensures i < |es| && p in EntryPages(es[i])
  {
    i := |es| - 1;
    if p !in EntryPages(es[i]) { i := FreedPagesSource(es[..i], p); }
  }

  lemma FreedPagesMembers(es: seq<MapEntry>, p: nat)
    ensures p in FreedPages(es) <==> exists i :: 0 <= i < |es| && p in EntryPages(es[i])
  {
    if p in FreedPages(es) {
      var i := FreedPagesSource(es, p);
    } else {
      forall i | 0 <= i < |es| ensures p !in EntryPages(es[i]) { FreedPagesInclude(es, i); }
    }
  }

  lemma CoveredPages(e: MapEntry, p: nat)
    requires e.kind == USABLE ==> e.base % 4096 == 0 && e.length % 4096 == 0
    ensures p in EntryPages(e) <==> e.kind == USABLE && Covers(e, p)
  {
    if e.kind == USABLE { assert e.base == e.base / 4096 * 4096 && e.length == e.length / 4096 * 4096; }
  }

  lemma CarvedEntry(es: seq<MapEntry>, size: nat, i: nat, p: nat)
    requires Room(es, size) < |es| && size % 4096 == 0 && Aligned(es) && i < |es|
    ensures p in EntryPages(Carved(es, size)[i]) <==>
              es[i].kind == USABLE && Covers(es[i], p)
              && (i == Room(es, size) ==> es[i].base + size <= p * 4096)
  {
    if i == Room(es, size) { CutEntry(es[i], size, p); } else { CoveredPages(es[i], p); }
  }

  lemma CutEntry(e: MapEntry, size: nat, p: nat)
    requires e.base % 4096 == 0 && e.length % 4096 == 0 && size % 4096 == 0 && size <= e.length
    ensures p in EntryPages(MapEntry(e.base + size, e.length - size, e.kind)) <==>
      e.kind == USABLE && Covers(e, p) && e.base + size <= p * 4096
  {
    StillAligned(e.base, e.length, size);
    CoveredPages(MapEntry(e.base + size, e.length - size, e.kind), p);
  }

  lemma StillAligned(base: nat, length: nat, size: nat)
    requires base % 4096 == 0 && length % 4096 == 0 && size % 4096 == 0 && size <= length
    ensures (base + size) % 4096 == 0 && (length - size) % 4096 == 0
  {
  }

  predicate InStorage(es: seq<MapEntry>, size: nat, p: nat)
    requires Room(es, size) < |es|
  {
    es[Room(es, size)].base <= p * 4096 < es[Room(es, size)].base + size
  }

  lemma CarvedEntryApart(es: seq<MapEntry>, size: nat, i: nat, p: nat)
    requires Room(es, size) < |es| && size % 4096 == 0 && Aligned(es) && Disjoint(es) && i < |es|
    ensures p in EntryPages(Carved(es, size)[i]) <==>
              es[i].kind == USABLE && Covers(es[i], p) && !InStorage(es, size, p)
  {
    var k := Room(es, size);
    CarvedEntry(es, size, i, p);
    if i < k { assert Apart(es[i], es[k]); }
    if k < i { assert Apart(es[k], es[i]); }
  }

  lemma CarvedPagesMeaning(es: seq<MapEntry>, size: nat, p: nat)
    requires Room(es, size) < |es| && size % 4096 == 0 && Aligned(es) && Disjoint(es)
    ensures p in FreedPages(Carved(es, size)) <==>
              && (exists i :: 0 <= i < |es| && es[i].kind == USABLE && Covers(es[i], p))
              && !InStorage(es, size, p)
  {
    var carved := Carved(es, size);
    FreedPagesMembers(carved, p);
    forall i | 0 <= i < |es|
      ensures p in EntryPages(carved[i]) <==> es[i].kind == USABLE && Covers(es[i], p) && !InStorage(es, size, p)
    {
      CarvedEntryApart(es, size, i, p);
    }
  }

  lemma CoveredBelowTop(es: seq<MapEntry>, p: nat)
    requires exists i :: 0 <= i < |es| && es[i].kind == USABLE && Covers(es[i], p)
    ensures p < TopOf(es) / 4096
  {
    var i :| 0 <= i < |es| && es[i].kind == USABLE && Covers(es[i], p);
    TopBounds(es, i);
  }

  /** After pmm_init a bit is clear exactly when its page lies in a usable entry, is not page 0, and is
      no part of the bitmap's own storage; bits at or above the top page stay set. */
  lemma InitialStateMeaning(es: seq<MapEntry>, p: nat)
    requires TopOf(es) + 4096 <= WORD && Room(es, BitmapBytes(TopOf(es))) < |es|
    requires Aligned(es) && Disjoint(es)
    requires p < 8 * BitmapBytes(TopOf(es))
    ensures p !in InitialState(es).used <==>
        && p != 0
        && (exists i :: 0 <= i < |es| && es[i].kind == USABLE && Covers(es[i], p))
        && !InStorage(es, BitmapBytes(TopOf(es)), p)
    ensures p >= TopOf(es) / 4096 ==> p in InitialState(es).used
  {
    CarvedPagesMeaning(es, BitmapBytes(TopOf(es)), p);
    if exists i :: 0 <= i < |es| && es[i].kind == USABLE && Covers(es[i], p) { CoveredBelowTop(es, p); }
  }

  // ----- the guard on used_page_cnt stays closed

  lemma LastApart(es: seq<MapEntry>, p: nat)
    requires es != [] && Aligned(es) && Disjoint(es)
    requires p in EntryPages(es[|es| - 1])
    ensures p !in FreedPages(es[..|es| - 1])
  {
    var n := |es| - 1;
    CoveredPages(es[n], p);
    FreedPagesMembers(es[..n], p);
    forall i | 0 <= i < n ensures p !in EntryPages(es[..n][i]) {
      CoveredPages(es[i], p);
      assert Apart(es[i], es[n]);
    }
  }

  lemma {:induction false} FreedPagesCounted(es: seq<MapEntry>)
    requires Aligned(es) && Disjoint(es)
    ensures |FreedPages(es)| == FreedCount(es)
  {
    if es != [] {
      var rest, last := es[..|es| - 1], es[|es| - 1];
      FreedPagesCounted(rest);
      forall p | p in EntryPages(last) ensures p !in FreedPages(rest) { LastApart(es, p); }
      assert FreedPages(rest) * EntryPages(last) == {};
      DisjointUnionSize(FreedPages(rest), EntryPages(last));
      PagesCounted(last);
    }
  }

  lemma PagesCounted(e: MapEntry)
    ensures |EntryPages(e)| == if e.kind == USABLE then e.length / 4096 else 0
  {
    var first, n := e.base / 4096, e.length / 4096;
    IntervalSize(first, first + n);
  }

  lemma CarvedKeepsShape(es: seq<MapEntry>, size: nat)
    requires Room(es, size) < |es| && size % 4096 == 0 && Aligned(es) && Disjoint(es)
    ensures Aligned(Carved(es, size)) && Disjoint(Carved(es, size))
  {
    var carved := Carved(es, size);
    forall i, j | 0 <= i < j < |es| ensures Apart(carved[i], carved[j]) {
      assert Apart(es[i], es[j]);
    }
  }

  /** The state pmm_init leaves is sound: page 0 is marked, and used_page_cnt, although it starts as
      1024 times the number of pages, covers every marked page. */
  lemma InitialStateSound(es: seq<MapEntry>)
    requires TopOf(es) < 0x800_0000_0000 && Room(es, BitmapBytes(TopOf(es))) < |es|
    requires Aligned(es) && Disjoint(es)
    requires TopOf(es) / 4096 > 0 && 8 * BitmapBytes(TopOf(es)) >= TopOf(es) / 4096
    ensures Sound(InitialState(es))
    ensures Free(InitialState(es)) == FreedPages(Carved(es, BitmapBytes(TopOf(es)))) - {0}
    ensures InitialState(es).count + |FreedPages(Carved(es, BitmapBytes(TopOf(es))))| == TopOf(es) / 4
  {
    var size := BitmapBytes(TopOf(es));
    FreedBelowTop(es, size);
    CarvedKeepsShape(es, size);
    StateAfterSound(Carved(es, size), TopOf(es), size);
  }

  lemma StateAfterSound(carved: seq<MapEntry>, hi: nat, size: nat)
    requires Aligned(carved) && Disjoint(carved)
    requires FreedPages(carved) <= Interval(0, hi / 4096)
    requires hi < 0x800_0000_0000 && 0 < hi / 4096 <= 8 * size
    ensures Sound(StateAfter(carved, hi, size))
    ensures Free(StateAfter(carved, hi, size)) == FreedPages(carved) - {0}
    ensures StateAfter(carved, hi, size).count + |FreedPages(carved)| == hi / 4
  {
    FreedPagesCounted(carved);
    FewPages(FreedPages(carved), hi / 4096);
    CountInRange(hi, |FreedPages(carved)|);
    CountCovers(StateAfter(carved, hi, size), FreedPages(carved), hi, 8 * size);
  }

  lemma FewPages(pages: set<nat>, top: nat)
    requires pages <= Interval(0, top)
    ensures |pages| <= top
  {
    IntervalSize(0, top);
    SubsetSize(pages, Interval(0, top));
  }

  lemma FreedBelowTop(es: seq<MapEntry>, size: nat)
    requires Room(es, size) < |es| && size % 4096 == 0 && Aligned(es) && Disjoint(es)
    ensures FreedPages(Carved(es, size)) <= Interval(0, TopOf(es) / 4096)
  {
    forall p | p in FreedPages(Carved(es, size)) ensures p < TopOf(es) / 4096 {
      CarvedPagesMeaning(es, size, p);
      CoveredBelowTop(es, p);
    }
  }

  lemma WithoutZero(pages: set<nat>)
    ensures |pages| - 1 <= |pages - {0}| <= |pages|
  {
    if 0 in pages {
      SubsetSize({0}, pages);
    } else {
      assert pages - {0} == pages;
    }
  }

  lemma CountCovers(s: State, freed: set<nat>, hi: nat, bits: nat)
    requires hi < 0x800_0000_0000 && s.top == hi / 4096 > 0 && s.top <= bits
    requires freed <= Interval(0, s.top)
    requires s.used == Interval(0, bits) - freed + {0}
    requires s.count == CountAfter(hi, |freed|)
    ensures Sound(s) && Free(s) == freed - {0}
  {
    assert Free(s) == freed - {0};
    IntervalSize(0, s.top);
    SubsetSize(freed, Interval(0, s.top));
    CountIsEnough(s, freed, hi);
  }

  lemma CountIsEnough(s: State, freed: set<nat>, hi: nat)
    requires hi < 0x800_0000_0000 && s.top == hi / 4096 > 0
    requires |freed| <= s.top && 0 in s.used && Free(s) == freed - {0}
    requires s.count == CountAfter(hi, |freed|)
    ensures Sound(s)
  {
    WithoutZero(freed);
    CountInRange(hi, |freed|);
  }

  lemma CountInRange(hi: nat, freed: nat)
    requires hi < 0x800_0000_0000 && freed <= hi / 4096 && hi / 4096 > 0
    ensures CountAfter(hi, freed) == hi / 4 - freed
    ensures hi / 4096 + 1 <= hi / 4 < WORD - hi / 4096
  {
    assert hi * 1024 % 0x1_0000_0000_0000_0000 == hi * 1024;
  }
}
