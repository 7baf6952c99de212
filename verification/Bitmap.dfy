/** The byte bitmap of the frame allocator (fckrnl/mm/bmap.c), as the concrete form of a set of bit
    numbers.  C's `int bit` bounds the numbers that reach it: see INT_BITS. */
module Bitmaps {
  import opened Bits
  import opened Intervals

  /** Bit numbers travel through a C int. */
  const INT_BITS: nat := 0x8000_0000

  predicate Marked(bytes: seq<Byte>, bit: nat) {
    bit / 8 < |bytes| && Bit(bytes[bit / 8], bit % 8)
  }

  function WithBit(b: Byte, k: nat): Byte
    requires k < 8
  {
    Pow2Monotonic(k, 8);
    assert Pow2(8) == 256;
    OrBound(b, Pow2(k), 8);
    Or(b, Pow2(k))
  }

  /** Removing one digit: the byte is and-ed with the complement of the one-digit mask. */
  function WithoutBit(b: Byte, k: nat): Byte
    requires k < 8
  {
    Pow2Monotonic(k, 8);
    And(b, Not(Pow2(k), 8))
  }

  lemma WithBitDigits(b: Byte, k: nat, j: nat)
    requires k < 8 && j < 8
    ensures Bit(WithBit(b, k), j) <==> Bit(b, j) || j == k
  {
    BitOfOr(b, Pow2(k), j);
    BitOfPow2(k, j);
  }

  lemma WithoutBitDigits(b: Byte, k: nat, j: nat)
    requires k < 8 && j < 8
    ensures Bit(WithoutBit(b, k), j) <==> Bit(b, j) && j != k
  {
    Pow2Monotonic(k, 8);
    BitOfAnd(b, Not(Pow2(k), 8), j);
    BitOfNot(Pow2(k), 8, j);
    BitOfPow2(k, j);
  }

  /** Storing one byte changes exactly one bit of the map. */
  lemma SettingMarksOne(bytes: seq<Byte>, bit: nat, p: nat)
    requires bit < 8 * |bytes|
    ensures Marked(bytes[bit / 8 := WithBit(bytes[bit / 8], bit % 8)], p) <==> Marked(bytes, p) || p == bit
  {
    if p / 8 == bit / 8 { WithBitDigits(bytes[bit / 8], bit % 8, p % 8); }
  }

  lemma ClearingUnmarksOne(bytes: seq<Byte>, bit: nat, p: nat)
    requires bit < 8 * |bytes|
    ensures Marked(bytes[bit / 8 := WithoutBit(bytes[bit / 8], bit % 8)], p) <==> Marked(bytes, p) && p != bit
  {
    if p / 8 == bit / 8 { WithoutBitDigits(bytes[bit / 8], bit % 8, p % 8); }
  }

  lemma FullByteDigits(j: nat)
    requires j < 8
    ensures Bit(255, j)
  {
    assert Pow2(8) == 256;
    BitOfZero(j);
    BitOfNot(0, 8, j);
  }

  /** bitmap_t: `size` is the length of the byte array. */
  class Bitmap {
    const bytes: array<Byte>
    ghost var held: set<nat>

    /** The bits set in the bytes are exactly the numbers held. */
    ghost predicate Valid()
      reads this, bytes
    {
      forall p: nat {:trigger Marked(bytes[..], p)} :: Marked(bytes[..], p) <==> p in held
    }

    constructor (size: nat)
      ensures Valid() && fresh(bytes) && bytes.Length == size && held == {}
    {
      bytes := new Byte[size](_ => 0);
      held := {};
      new;
      forall p: nat ensures !Marked(bytes[..], p) { BitOfZero(p % 8); }
    }

    /** memset of the whole map to 0xFF. */
    method SetAll()
      modifies this, bytes
      ensures Valid() && held == Interval(0, 8 * bytes.Length)
    {
      for i := 0 to bytes.Length
        invariant forall j :: 0 <= j < i ==> bytes[j] == 255
      {
        bytes[i] := 255;
      }
      held := Interval(0, 8 * bytes.Length);
      forall p: nat ensures Marked(bytes[..], p) <==> p < 8 * bytes.Length {
        if p < 8 * bytes.Length { FullByteDigits(p % 8); }
      }
    }

    method Set(bit: nat)
      requires Valid() && bit < INT_BITS && bit < 8 * bytes.Length
      modifies this, bytes
      ensures Valid() && held == old(held) + {bit}
    {
      ghost var before := bytes[..];
      bytes[bit / 8] := WithBit(bytes[bit / 8], bit % 8);
      held := held + {bit};
      assert bytes[..] == before[bit / 8 := WithBit(before[bit / 8], bit % 8)];
      forall p: nat ensures Marked(bytes[..], p) <==> Marked(before, p) || p == bit {
        SettingMarksOne(before, bit, p);
      }
    }

    method Clear(bit: nat)
      requires Valid() && bit < INT_BITS && bit < 8 * bytes.Length
      modifies this, bytes
      ensures Valid() && held == old(held) - {bit}
    {
      ghost var before := bytes[..];
      bytes[bit / 8] := WithoutBit(bytes[bit / 8], bit % 8);
      held := held - {bit};
      assert bytes[..] == before[bit / 8 := WithoutBit(before[bit / 8], bit % 8)];
      forall p: nat ensures Marked(bytes[..], p) <==> Marked(before, p) && p != bit {
        ClearingUnmarksOne(before, bit, p);
      }
    }

    /** memset of the bytes from lo up to hi to zero. */
    method Wipe(lo: nat, hi: nat)
      requires Valid() && lo <= hi <= bytes.Length
      modifies this, bytes
      ensures Valid() && held == old(held) - Interval(8 * lo, 8 * hi)
    {
      ghost var before := bytes[..];
      for i := lo to hi
        invariant held == old(held)
        invariant forall j :: 0 <= j < bytes.Length ==> bytes[j] == if lo <= j < i then 0 else before[j]
      {
        bytes[i] := 0;
      }
      held := held - Interval(8 * lo, 8 * hi);
      forall p: nat ensures Marked(bytes[..], p) <==> Marked(before, p) && !(8 * lo <= p < 8 * hi) {
        if lo <= p / 8 < hi { BitOfZero(p % 8); }
      }
    }

    /** bitmap_get returns the masked byte; its callers only test it against zero. */
    method Get(bit: nat) returns (r: Byte)
      requires Valid() && bit < INT_BITS && bit < 8 * bytes.Length
      ensures r != 0 <==> bit in held
    {
      AndSingle(bytes[bit / 8], bit % 8);
      assert bit in held <==> Marked(bytes[..], bit);
      r := And(bytes[bit / 8], Pow2(bit % 8));
    }
  }
}
