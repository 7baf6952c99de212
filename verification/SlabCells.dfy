/** How a page is cut into objects (fckrnl/mm/slab.c): a slab's page holds bufctl_count_max objects of
    slab_size bytes from its start on, and its slab_t in its last 32 bytes. */
module SlabCells {
  import opened Bits


  /** The sizes slab_cache_create accepts (a power of two, at most 512) are of this kind from 16 on: the
      16 bytes of a slab_bufctl_t fit into an object. */
  predicate SizeOk(size: nat) {
    16 <= size <= 512 && size % 16 == 0
  }

  /** How many objects fit into so many bytes. */
  function Count(size: nat, bytes: nat): (n: nat)
    requires size > 0
    ensures n <= bytes
    decreases bytes, size
  {
    if bytes < size then 0 else 1 + Count(size, bytes - size)
  }

  /** bufctl_count_max. */
  function CountMax(size: nat): (n: nat)
    requires size > 0
    ensures n <= 4056
  {
    Count(size, 4056)
  }

  /** ... which the code computes as (PAGE_SIZE - sizeof(slab_cache_t)) / slab_size. */
  lemma {:induction false} CountIsQuotient(size: nat, bytes: nat)
    requires size > 0
    ensures Count(size, bytes) == bytes / size
    decreases bytes, size
  {
    if bytes < size {
      QuotientUnique(bytes, size, 0, bytes);
    } else {
      CountIsQuotient(size, bytes - size);
      NextQuotient(bytes - size, size);
    }
  }

  /** As many objects as fit in front of the slab_t and the 8 bytes the code keeps free below it. */
  lemma CountMaxFits(size: nat)
    requires size > 0
    ensures size * CountMax(size) <= 4056 < size * (CountMax(size) + 1)
  {
    var bytes := 4056;
    CountIsQuotient(size, bytes);
    var q, r := bytes / size, bytes % size;
    assert bytes == size * q + r;
  }

  lemma NextQuotient(a: nat, m: nat)
    requires m > 0
    ensures (a + m) / m == a / m + 1
  {
    var q, r := a / m, a % m;
    assert a + m == (q + 1) * m + r;
    QuotientUnique(a + m, m, q + 1, r);
  }

  /** slab_size * j, as the running sum. */
  function Offset(size: nat, j: nat): nat {
    if j == 0 then 0 else Offset(size, j - 1) + size
  }

  lemma {:induction false} OffsetIsProduct(size: nat, j: nat)
    ensures Offset(size, j) == size * j
  {
    if j > 0 { OffsetIsProduct(size, j - 1); }
  }

  /** The objects of a page, in the order of their addresses. */
  function Cells(page: nat, size: nat): (r: seq<nat>)
    requires size > 0
    ensures |r| == CountMax(size)
  {
    seq(CountMax(size), j requires 0 <= j => page * 4096 + Offset(size, j))
  }

  lemma CellAt(page: nat, size: nat, j: nat)
    requires size > 0 && j < CountMax(size)
    ensures Cells(page, size)[j] == page * 4096 + size * j
  {
    OffsetIsProduct(size, j);
  }

  lemma {:induction false} OffsetsGrow(size: nat, i: nat, j: nat)
    requires i <= j
    ensures Offset(size, i) <= Offset(size, j)
    ensures i < j ==> Offset(size, i) + size <= Offset(size, j)
    decreases j
  {
    if i < j { OffsetsGrow(size, i, j - 1); }
  }

  lemma {:induction false} OffsetsAlign(size: nat, j: nat)
    requires size % 16 == 0
    ensures Offset(size, j) % 16 == 0
  {
    if j > 0 { OffsetsAlign(size, j - 1); }
  }

  lemma {:induction false} OffsetOfCount(size: nat, bytes: nat)
    requires size > 0
    ensures Offset(size, Count(size, bytes)) <= bytes
    decreases bytes, size
  {
    if bytes >= size {
      OffsetOfCount(size, bytes - size);
      assert Offset(size, 1 + Count(size, bytes - size)) == Offset(size, Count(size, bytes - size)) + size;
    }
  }

  /** Room for every object below the slab_t. */
  lemma LastOffset(size: nat)
    requires size > 0
    ensures Offset(size, CountMax(size)) <= 4056
  {
    var bytes := 4056;
    OffsetOfCount(size, bytes);
  }

  /** Where object j of a page lies. */
  lemma CellPlace(page: nat, size: nat, j: nat)
    requires size > 0 && j < CountMax(size)
    ensures var a := Cells(page, size)[j];
      && page * 4096 <= a && a + size <= page * 4096 + 4056
      && a / 4096 == page
      && (size % 16 == 0 ==> a % 16 == 0)
  {
    OffsetsGrow(size, j, CountMax(size));
    LastOffset(size);
    if size % 16 == 0 { OffsetsAlign(size, j); }
    InPage(page, Offset(size, j));
    assert Cells(page, size)[j] == page * 4096 + Offset(size, j);
  }

  lemma InPage(page: nat, o: nat)
    requires o < 4096
    ensures (page * 4096 + o) / 4096 == page && (page * 4096 + o) % 16 == o % 16
  {
  }

  /** Two objects of one page, or of two pages, do not overlap. */
  lemma CellsApart(page: nat, page': nat, size: nat, i: nat, j: nat)
    requires size > 0 && i < CountMax(size) && j < CountMax(size) && (page != page' || i != j)
    ensures var a, b := Cells(page, size)[i], Cells(page', size)[j];
      a + size <= b || b + size <= a
  {
    CellPlace(page, size, i);
    CellPlace(page', size, j);
    if page == page' {
      if i < j { OffsetsGrow(size, i, j); } else { OffsetsGrow(size, j, i); }
    }
  }

  predicate IsCell(a: nat, page: nat, size: nat)
    requires size > 0
  {
    a in Cells(page, size)
  }

  lemma CellFacts(a: nat, page: nat, size: nat)
    requires size > 0 && IsCell(a, page, size)
    ensures a / 4096 == page && page * 4096 <= a && a + size <= page * 4096 + 4056
    ensures size % 16 == 0 ==> a % 16 == 0
  {
    var j :| 0 <= j < |Cells(page, size)| && Cells(page, size)[j] == a;
    CellPlace(page, size, j);
  }

  lemma OnceInCells(page: nat, size: nat, a: nat)
    requires size > 0
    ensures multiset(Cells(page, size))[a] == (if IsCell(a, page, size) then 1 else 0)
  {
    var cells := Cells(page, size);
    forall i, j | 0 <= i < j < |cells| ensures cells[i] != cells[j] {
      CellsApart(page, page, size, i, j);
    }
    OnceInDistinct(cells, a);
  }

  lemma {:induction false} OnceInDistinct(s: seq<nat>, a: nat)
    requires forall i, j :: 0 <= i < j < |s| ==> s[i] != s[j]
    ensures multiset(s)[a] == (if a in s then 1 else 0)
  {
    if s != [] {
      assert s == [s[0]] + s[1..];
      OnceInDistinct(s[1..], a);
    }
  }
}
