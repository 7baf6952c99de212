/** Physical memory and the frame allocator that manages it (fckrnl/mm/phys.c).

    Memory is an array of 64-bit words, so that frame f is the words 512 f .. 512 f + 511.  A pointer
    into it is its physical address; the higher-half address of the same word denotes the same word. */
module Memory {
  import opened Bits
  import opened Intervals
  import opened Bitmaps
  import opened Frames
  import opened MemoryMap
  import opened BitmapStorage

  /** A snapshot of memory and of the allocator. */
  datatype Mem = Mem(ram: seq<Word>, frames: State)

  ghost predicate MemoryOk(m: Mem) {
    Sound(m.frames) && m.frames.top * 512 <= |m.ram| && m.frames.top * 4096 <= WORD
  }

  /** memset of n whole pages to zero. */
  function Zeroed(ram: seq<Word>, page: nat, n: nat): (r: seq<Word>)
    ensures |r| == |ram|
  {
    seq(|ram|, w requires 0 <= w < |ram| => if page * 512 <= w < (page + n) * 512 then 0 else ram[w])
  }

  /** Every word of the pages is zero afterwards, and no other word changes. */
  lemma ZeroedWord(ram: seq<Word>, page: nat, n: nat, w: nat)
    requires w < |ram|
    ensures Zeroed(ram, page, n)[w] == if page <= w / 512 < page + n then 0 else ram[w]
  {
    WordOfPages(page, n, w);
  }

  lemma WordOfPages(page: nat, n: nat, w: nat)
    ensures page <= w / 512 < page + n <==> page * 512 <= w < (page + n) * 512
  {
  }

  /** The words of n pages from the page of an address on are zero. */
  ghost predicate Cleared(ram: seq<Word>, a: nat, n: nat) {
    forall w {:trigger ram[w]} :: 0 <= w < |ram| && a / 4096 <= w / 512 < a / 4096 + n ==> ram[w] == 0
  }

  /** ... and the words of all other pages are as before. */
  ghost predicate SameElsewhere(ram: seq<Word>, ram': seq<Word>, a: nat, n: nat) {
    && |ram'| == |ram|
    && forall w {:trigger ram'[w]} :: 0 <= w < |ram| && !(a / 4096 <= w / 512 < a / 4096 + n) ==> ram'[w] == ram[w]
  }

  lemma ZeroedClears(ram: seq<Word>, a: nat, n: nat)
    ensures Cleared(Zeroed(ram, a / 4096, n), a, n) && SameElsewhere(ram, Zeroed(ram, a / 4096, n), a, n)
  {
    var r := Zeroed(ram, a / 4096, n);
    forall w | 0 <= w < |ram|
      ensures a / 4096 <= w / 512 < a / 4096 + n ==> r[w] == 0
      ensures !(a / 4096 <= w / 512 < a / 4096 + n) ==> r[w] == ram[w]
    {
      ZeroedWord(ram, a / 4096, n, w);
    }
  }

  /** pmm_allocz, where the memset does not reach the bitmap.  There is no NULL check: when pmm_alloc fails,
      the pages at address 0 are cleared. */
  ghost function AllocZeroed(m: Mem, n: nat): (Mem, nat) {
    var (frames, a) := Alloc(m.frames, n);
    (Mem(Zeroed(m.ram, a / 4096, n), frames), a)
  }

  /** What pmm_init needs of the firmware's map: room for the bitmap, a bitmap that covers every page,
      and memory behind every bit. */
  predicate BitmapSuits(es: seq<MapEntry>, words: nat)
    requires TopOf(es) < 0x800_0000_0000
  {
    var size := BitmapBytes(TopOf(es));
    && Room(es, size) < |es|
    && TopOf(es) / 4096 <= 8 * size
    && 512 * 8 * size <= words
  }

  lemma SizeInRange(hi: nat)
    requires hi < 0x800_0000_0000
    ensures 8 * BitmapBytes(hi) <= INT_BITS
  {
  }

  lemma CarvedInRange(es: seq<MapEntry>, size: nat)
    requires Room(es, size) < |es| && TopOf(es) / 4096 <= 8 * size
    ensures var carved := Carved(es, size);
      forall i :: 0 <= i < |carved| && carved[i].kind == USABLE ==>
        carved[i].base / 4096 + carved[i].length / 4096 <= 8 * size
  {
    var carved := Carved(es, size);
    forall i | 0 <= i < |carved| && carved[i].kind == USABLE
      ensures carved[i].base / 4096 + carved[i].length / 4096 <= 8 * size
    {
      TopBounds(es, i);
      assert carved[i].base + carved[i].length == es[i].base + es[i].length;
    }
  }

  lemma {:induction false} RoomAt(es: seq<MapEntry>, size: nat, i: nat)
    requires i < |es| && i <= Room(es, size) && es[i].kind == USABLE && es[i].length >= size
    ensures i == Room(es, size)
  {
  }

  lemma MinusAdds(count: Word, m: nat, n: nat)
    ensures Minus(Minus(count, m), n) == Minus(count, m + n)
  {
    var q := (count - m) / 0x1_0000_0000_0000_0000;
    assert (count - m) % 0x1_0000_0000_0000_0000 == count - m - q * 0x1_0000_0000_0000_0000;
    assert (count - m - q * 0x1_0000_0000_0000_0000 - n) % 0x1_0000_0000_0000_0000 == (count - m - n) % 0x1_0000_0000_0000_0000;
  }

  class Pmm {
    var bitmap: Bitmap
    /** pmm_bitmap.map as a physical address: the bytes of the bitmap lie in the memory it manages. */
    var storage: nat
    var hiPageTop: nat
    var usedPageCnt: Word
    const ram: array<Word>

    /** The bitmap has a bit, and memory has a frame, for every page that is searched. */
    ghost predicate Valid()
      reads this, bitmap, bitmap.bytes
    {
      && bitmap.Valid()
      && hiPageTop / 4096 <= 8 * bitmap.bytes.Length <= INT_BITS
      && ram.Length >= 512 * 8 * bitmap.bytes.Length
    }

    ghost function Place(): Storage
      reads this`storage, this`bitmap
    {
      Storage(storage, bitmap.bytes.Length)
    }

    /** ... and the pages of the bitmap are in use, and not at address 0. */
    ghost predicate Ready()
      reads this, bitmap, bitmap.bytes
    {
      Valid() && Guards(Frames(), Place())
    }

    ghost function Frames(): State
      reads this, bitmap
    {
      State(bitmap.held, hiPageTop / 4096, usedPageCnt)
    }

    ghost function Snapshot(): Mem
      reads this, bitmap, ram
    {
      Mem(ram[..], Frames())
    }

    /** The statics before pmm_init. */
    constructor (memory: array<Word>)
      ensures ram == memory && hiPageTop == 0 && usedPageCnt == 0 && storage == 0
      ensures fresh(bitmap) && fresh(bitmap.bytes)
    {
      ram := memory;
      hiPageTop, usedPageCnt, storage := 0, 0, 0;
      bitmap := new Bitmap(0);
    }

    /** The first loop of pmm_init: the end of the highest counted entry. */
    method FindTop(mmap: array<MapEntry>)
      requires hiPageTop == 0
      modifies this`hiPageTop
      ensures hiPageTop == TopOf(mmap[..])
    {
      for i := 0 to mmap.Length
        invariant hiPageTop == TopOf(mmap[..i])
      {
        assert mmap[..i + 1][..i] == mmap[..i];
        if Counted(mmap[i]) {
          var curPageTop := mmap[i].base + mmap[i].length;
          if curPageTop > hiPageTop {
            hiPageTop := curPageTop;
          }
        }
      }
      assert mmap[..mmap.Length] == mmap[..];
    }

    /** The second loop: cut the bitmap's storage off the first usable entry with room for it. */
    method PlaceBitmap(mmap: array<MapEntry>, size: nat)
      requires Room(mmap[..], size) < mmap.Length
      modifies mmap, this`storage
      ensures mmap[..] == Carved(old(mmap[..]), size)
      ensures storage == old(mmap[Room(mmap[..], size)].base)
    {
      ghost var es := mmap[..];
      for i := 0 to mmap.Length
        invariant mmap[..] == es && i <= Room(es, size)
      {
        if mmap[i].kind == USABLE && mmap[i].length >= size {
          RoomAt(es, size, i);
          storage := mmap[i].base;
          mmap[i] := MapEntry(mmap[i].base + size, mmap[i].length - size, mmap[i].kind);
          return;
        }
      }
      assert false;
    }

    /** The third loop: hand the pages of every usable entry to pmm_free. */
    method FreeUsable(mmap: array<MapEntry>)
      requires Valid()
      requires forall i :: 0 <= i < mmap.Length && mmap[i].kind == USABLE ==>
        mmap[i].base / 4096 + mmap[i].length / 4096 <= 8 * bitmap.bytes.Length
      modifies this`usedPageCnt, bitmap, bitmap.bytes
      ensures Valid()
      ensures bitmap.held == old(bitmap.held) - FreedPages(mmap[..])
      ensures usedPageCnt == Minus(old(usedPageCnt), FreedCount(mmap[..]))
    {
      ghost var held := bitmap.held;
      for i := 0 to mmap.Length
        invariant Valid()
        invariant bitmap.held == held - FreedPages(mmap[..i])
        invariant usedPageCnt == Minus(old(usedPageCnt), FreedCount(mmap[..i]))
      {
        assert mmap[..i + 1][..i] == mmap[..i];
        if mmap[i].kind == USABLE {
          MinusAdds(old(usedPageCnt), FreedCount(mmap[..i]), mmap[i].length / 4096);
          FreePages(mmap[i].base, mmap[i].length / 4096);
        }
      }
      assert mmap[..mmap.Length] == mmap[..];
    }

    /** pmm_init up to the memset: the bitmap is in place and every bit is set. */
    method PlaceAndFill(mmap: array<MapEntry>)
      requires hiPageTop == 0 && usedPageCnt == 0
      requires 0 < TopOf(mmap[..]) / 4096 && TopOf(mmap[..]) < 0x800_0000_0000
      requires BitmapSuits(mmap[..], ram.Length)
      modifies this, mmap
      ensures Valid() && fresh(bitmap) && fresh(bitmap.bytes)
      ensures hiPageTop == TopOf(old(mmap[..])) && usedPageCnt == KbToPages(hiPageTop)
      ensures bitmap.bytes.Length == BitmapBytes(hiPageTop)
      ensures bitmap.held == Interval(0, 8 * bitmap.bytes.Length)
      ensures mmap[..] == Carved(old(mmap[..]), bitmap.bytes.Length)
      ensures storage == old(mmap[Room(mmap[..], BitmapBytes(TopOf(mmap[..])))].base)
    {
      FindTop(mmap);
      usedPageCnt := KbToPages(hiPageTop);
      var size := BitmapBytes(hiPageTop);
      SizeInRange(hiPageTop);
      PlaceBitmap(mmap, size);
      bitmap := new Bitmap(size);
      bitmap.SetAll();
    }

    /** pmm_init, for memory maps whose entries end below 8 TiB (bit numbers are C ints), that have
        room for the bitmap, and whose page count the bitmap covers (see BitmapCoversExactly). */
    method Init(mmap: array<MapEntry>)
      requires hiPageTop == 0 && usedPageCnt == 0
      requires 0 < TopOf(mmap[..]) / 4096 && TopOf(mmap[..]) < 0x800_0000_0000
      requires BitmapSuits(mmap[..], ram.Length)
      modifies this, mmap
      ensures Valid() && fresh(bitmap) && fresh(bitmap.bytes)
      ensures bitmap.bytes.Length == BitmapBytes(TopOf(old(mmap[..])))
      ensures mmap[..] == Carved(old(mmap[..]), BitmapBytes(TopOf(old(mmap[..]))))
      ensures Frames() == InitialState(old(mmap[..])) && Place() == StorageOf(old(mmap[..]))
      ensures Aligned(old(mmap[..])) && Disjoint(old(mmap[..])) && storage >= 4096 ==> Ready()
    {
      ghost var es := mmap[..];
      PlaceAndFill(mmap);
      CarvedInRange(es, bitmap.bytes.Length);
      FreeUsable(mmap);
      bitmap.Set(0);
      if Aligned(es) && Disjoint(es) { InitialStateGuards(es); }
    }

    /** The inner loop of _get_ffp_range. */
    method RangeClear(i: nat, pageCnt: nat) returns (clear: bool)
      requires Valid()
      requires pageCnt > 0 ==> i + pageCnt <= 8 * bitmap.bytes.Length
      ensures clear <==> ProbesClear(Frames().used, i, pageCnt)
    {
      for j := 0 to pageCnt
        invariant pageCnt > 0 ==> j < pageCnt
        invariant forall k :: 0 <= k < j ==> i + k / 4096 !in bitmap.held
      {
        var bit := bitmap.Get(i + j / 4096);
        if bit != 0 {
          return false;
        }
        if j == pageCnt - 1 {
          return true;
        }
      }
      return false;
    }

    /** _get_ffp_range.  NULL and page 0 are the same pointer. */
    method GetFfpRange(pageCnt: nat) returns (ptr: nat)
      requires Valid()
      requires pageCnt > 0 ==> hiPageTop / 4096 + pageCnt <= 8 * bitmap.bytes.Length + 1
      ensures match FirstFit(Frames().used, Frames().top, pageCnt, 0)
              case None => ptr == 0
              case Some(i) => ptr == i * 4096
    {
      ghost var used, top := bitmap.held, hiPageTop / 4096;
      for i := 0 to hiPageTop / 4096
        invariant FirstFit(used, top, pageCnt, 0) == FirstFit(used, top, pageCnt, i)
      {
        var clear := RangeClear(i, pageCnt);
        if clear {
          return i * 4096;
        }
      }
      return 0;
    }

    method MarkRange(index: nat, pageCnt: nat)
      requires bitmap.Valid() && index + pageCnt <= 8 * bitmap.bytes.Length <= INT_BITS
      modifies bitmap, bitmap.bytes
      ensures bitmap.Valid() && bitmap.held == old(bitmap.held) + Interval(index, index + pageCnt)
    {
      ghost var start := bitmap.held;
      for i := 0 to pageCnt
        invariant bitmap.Valid() && bitmap.held == start + Interval(index, index + i)
      {
        AddNext(start, index, i);
        bitmap.Set(index + i);
      }
    }

    method UnmarkRange(index: nat, pageCnt: nat)
      requires bitmap.Valid() && index + pageCnt <= 8 * bitmap.bytes.Length <= INT_BITS
      modifies bitmap, bitmap.bytes
      ensures bitmap.Valid() && bitmap.held == old(bitmap.held) - Interval(index, index + pageCnt)
    {
      ghost var start := bitmap.held;
      for i := 0 to pageCnt
        invariant bitmap.Valid() && bitmap.held == start - Interval(index, index + i)
      {
        DropNext(start, index, i);
        bitmap.Clear(index + i);
      }
    }

    /** pmm_alloc. */
    method AllocPages(pageCnt: nat) returns (ptr: nat)
      requires Valid()
      requires pageCnt > 0 ==> hiPageTop / 4096 + pageCnt <= 8 * bitmap.bytes.Length + 1
      modifies this`usedPageCnt, bitmap, bitmap.bytes
      ensures Valid()
      ensures (Frames(), ptr) == Alloc(old(Frames()), pageCnt)
      ensures ptr != 0 ==> ptr / 4096 + pageCnt <= 8 * bitmap.bytes.Length
    {
      if usedPageCnt <= 0 {
        return 0;
      }
      ptr := GetFfpRange(pageCnt);
      FirstFitIsLowest(Frames().used, Frames().top, pageCnt, 0);
      if ptr == 0 {
        return 0;
      }
      var index := ptr / 4096;
      MarkRange(index, pageCnt);
      usedPageCnt := Plus(usedPageCnt, pageCnt);
      return index * 4096;
    }

    /** pmm_free. */
    method FreePages(ptr: nat, pageCnt: nat)
      requires Valid()
      requires ptr / 4096 + pageCnt <= 8 * bitmap.bytes.Length
      modifies this`usedPageCnt, bitmap, bitmap.bytes
      ensures Valid()
      ensures Frames() == Release(old(Frames()), ptr, pageCnt)
    {
      UnmarkRange(ptr / 4096, pageCnt);
      usedPageCnt := Minus(usedPageCnt, pageCnt);
    }

    /** memset of whole pages to zero, of the words of memory and of the bytes of the bitmap that lie there. */
    method ClearPages(ptr: nat, pageCnt: nat)
      requires Valid() && (ptr / 4096 + pageCnt) * 512 <= ram.Length
      modifies ram, bitmap, bitmap.bytes
      ensures Valid() && ram[..] == Zeroed(old(ram[..]), ptr / 4096, pageCnt)
      ensures bitmap.held == old(bitmap.held) - Wiped(Place(), ptr / 4096, pageCnt)
    {
      ClearWords(ptr, pageCnt);
      var lo, hi := ByteOf(ptr / 4096 * 4096), ByteOf((ptr / 4096 + pageCnt) * 4096);
      bitmap.Wipe(lo, hi);
    }

    /** The first byte of the bitmap at or behind an address. */
    function ByteOf(address: nat): (k: nat)
      reads this`storage, this`bitmap
      ensures k == ByteAt(Place(), address)
    {
      ByteAt(Storage(storage, bitmap.bytes.Length), address)
    }

    method ClearWords(ptr: nat, pageCnt: nat)
      requires (ptr / 4096 + pageCnt) * 512 <= ram.Length
      modifies ram
      ensures ram[..] == Zeroed(old(ram[..]), ptr / 4096, pageCnt)
    {
      var start := ptr / 4096 * 512;
      for i := 0 to pageCnt * 512
        invariant forall w :: 0 <= w < ram.Length ==>
          ram[w] == if start <= w < start + i then 0 else old(ram[w])
      {
        ram[start + i] := 0;
      }
    }

    /** pmm_allocz.  What it does to the bitmap is AllocCleared; for one page of an allocator that is ready it
        is pmm_alloc, and the cleared page. */
    method AllocPagesZeroed(pageCnt: nat) returns (ptr: nat)
      requires Valid()
      requires hiPageTop / 4096 + pageCnt <= 8 * bitmap.bytes.Length + 1
      requires pageCnt <= 8 * bitmap.bytes.Length
      modifies this`usedPageCnt, bitmap, bitmap.bytes, ram
      ensures Valid()
      ensures (Frames(), ptr) == AllocCleared(old(Frames()), pageCnt, Place())
      ensures ram[..] == Zeroed(old(ram[..]), ptr / 4096, pageCnt)
      ensures Cleared(ram[..], ptr, pageCnt) && SameElsewhere(old(ram[..]), ram[..], ptr, pageCnt)
      ensures old(Ready()) && pageCnt <= 1 ==>
        Ready() && (Snapshot(), ptr) == AllocZeroed(old(Snapshot()), pageCnt)
    {
      ptr := AllocPages(pageCnt);
      ClearPages(ptr, pageCnt);
      ZeroedClears(old(ram[..]), ptr, pageCnt);
      if old(Ready()) && pageCnt <= 1 { OnePageSpares(old(Frames()), pageCnt, Place()); }
    }
  }
}
