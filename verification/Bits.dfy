/** Bitwise arithmetic on unsigned machine words, written on natural numbers.

    The kernel masks, shifts and merges 64-bit words.  Words are naturals below 2^64 here, and the
    bitwise operators are defined digit by digit, so that the facts the kernel relies on (a mask
    recovers a frame address, an or of disjoint fields is a sum, ...) are theorems about numbers. */
module Bits {

  const WORD: nat := 0x1_0000_0000_0000_0000

  type Word = x: nat | x < WORD
  type Byte = x: nat | x < 256

  function Pow2(k: nat): (r: nat)
    ensures r > 0
  {
    if k == 0 then 1 else 2 * Pow2(k - 1)
  }

  /** The digit of weight 2^k of a. */
  predicate Bit(a: nat, k: nat) {
    if k == 0 then a % 2 == 1 else Bit(a / 2, k - 1)
  }

  function And(a: nat, b: nat): (r: nat)
    ensures r <= a && r <= b
  {
    if a == 0 || b == 0 then 0
    else 2 * And(a / 2, b / 2) + (if a % 2 == 1 && b % 2 == 1 then 1 else 0)
  }

  function Or(a: nat, b: nat): nat
    decreases a + b
  {
    if a == 0 then b
    else if b == 0 then a
    else 2 * Or(a / 2, b / 2) + (if a % 2 == 1 || b % 2 == 1 then 1 else 0)
  }

  /** Complement of a within w digits. */
  function Not(a: nat, w: nat): nat
    requires a < Pow2(w)
  {
    Pow2(w) - 1 - a
  }

  // ----- digits of the results

  lemma {:induction false} BitOfZero(k: nat)
    ensures !Bit(0, k)
  {
    if k > 0 { BitOfZero(k - 1); }
  }

  lemma {:induction false} BitOfAnd(a: nat, b: nat, k: nat)
    ensures Bit(And(a, b), k) <==> Bit(a, k) && Bit(b, k)
  {
    BitOfZero(k);
    if a != 0 && b != 0 && k > 0 { BitOfAnd(a / 2, b / 2, k - 1); }
  }

  lemma {:induction false} BitOfOr(a: nat, b: nat, k: nat)
    ensures Bit(Or(a, b), k) <==> Bit(a, k) || Bit(b, k)
  {
    BitOfZero(k);
    if a != 0 && b != 0 && k > 0 { BitOfOr(a / 2, b / 2, k - 1); }
  }

  lemma {:induction false} BitOfPow2(j: nat, k: nat)
    ensures Bit(Pow2(j), k) <==> j == k
  {
    if j > 0 && k > 0 { BitOfPow2(j - 1, k - 1); }
    if j == 0 && k > 0 { BitOfZero(k - 1); }
  }

  lemma {:induction false} BitOfNot(a: nat, w: nat, k: nat)
    requires a < Pow2(w) && k < w
    ensures Bit(Not(a, w), k) <==> !Bit(a, k)
  {
    if k > 0 {
      BitOfNot(a / 2, w - 1, k - 1);
      assert Not(a, w) / 2 == Not(a / 2, w - 1);
    }
  }

  lemma {:induction false} OrBound(a: nat, b: nat, w: nat)
    requires a < Pow2(w) && b < Pow2(w)
    ensures Or(a, b) < Pow2(w)
  {
    if w > 0 && a != 0 && b != 0 { OrBound(a / 2, b / 2, w - 1); }
  }

  lemma {:induction false} Pow2Monotonic(j: nat, k: nat)
    requires j < k
    ensures Pow2(j) < Pow2(k)
    decreases k
  {
    if j < k - 1 { Pow2Monotonic(j, k - 1); }
  }

  lemma {:induction false} Pow2Adds(j: nat, k: nat)
    ensures Pow2(j + k) == Pow2(j) * Pow2(k)
  {
    if j > 0 {
      Pow2Adds(j - 1, k);
      calc {
        Pow2(j + k);
        2 * (Pow2(j - 1) * Pow2(k));
        (2 * Pow2(j - 1)) * Pow2(k);
      }
    }
  }

  /** The shifts that occur in the kernel. */
  lemma Pow2Values()
    ensures Pow2(9) == 512 && Pow2(12) == 4096 && Pow2(16) == 0x1_0000 && Pow2(21) == 0x20_0000
    ensures Pow2(30) == 0x4000_0000 && Pow2(39) == 0x80_0000_0000
    ensures Pow2(52) == 0x10_0000_0000_0000 && Pow2(55) == 0x80_0000_0000_0000 && Pow2(64) == WORD
  {
    assert Pow2(3) == 8;
    Pow2Adds(3, 3); Pow2Adds(6, 3); Pow2Adds(9, 3); Pow2Adds(13, 3); Pow2Adds(12, 1);
    Pow2Adds(12, 9); Pow2Adds(21, 9); Pow2Adds(30, 9); Pow2Adds(39, 13); Pow2Adds(52, 3); Pow2Adds(52, 12);
  }

  /** Two words with the same digits are the same word. */
  lemma {:induction false} SameDigits(a: nat, b: nat)
    requires forall k: nat :: Bit(a, k) <==> Bit(b, k)
    ensures a == b
    decreases a + b
  {
    assert Bit(a, 0) <==> Bit(b, 0);
    if a + b > 0 {
      forall k: nat ensures Bit(a / 2, k) <==> Bit(b / 2, k) { assert Bit(a, k + 1) <==> Bit(b, k + 1); }
      SameDigits(a / 2, b / 2);
    }
  }

  /** `a & m` for a one-digit mask m is non-zero exactly when the digit is set. */
  lemma AndSingle(a: nat, k: nat)
    ensures And(a, Pow2(k)) != 0 <==> Bit(a, k)
  {
    var r := And(a, Pow2(k));
    BitOfAnd(a, Pow2(k), k);
    BitOfPow2(k, k);
    if r != 0 && !Bit(a, k) {
      forall j: nat ensures Bit(r, j) <==> Bit(0, j) {
        BitOfAnd(a, Pow2(k), j); BitOfPow2(k, j); BitOfZero(j);
      }
      SameDigits(r, 0);
    }
    if r == 0 { BitOfZero(k); }
  }

  lemma {:induction false} AndCommutes(a: nat, b: nat)
    ensures And(a, b) == And(b, a)
  {
    if a > 0 && b > 0 { AndCommutes(a / 2, b / 2); }
  }

  lemma {:induction false} AndIdempotent(a: nat)
    ensures And(a, a) == a
  {
    if a > 0 { AndIdempotent(a / 2); }
  }

  // ----- fields

  lemma ScaledAtLeast(d: nat, m: nat)
    requires d >= 1
    ensures d * m >= m
  {
    assert (d - 1) * m >= 0;
  }

  lemma QuotientUnique(a: nat, m: nat, q: nat, r: nat)
    requires r < m && a == q * m + r
    ensures a / m == q && a % m == r
  {
    var q', r' := a / m, a % m;
    assert a == q' * m + r';
    assert (q - q') * m == r' - r;
    if q > q' { ScaledAtLeast(q - q', m); }
    if q < q' { ScaledAtLeast(q' - q, m); }
  }

  lemma Halves(a: nat, p: nat)
    requires p > 0
    ensures a / (2 * p) == a / 2 / p
    ensures a % (2 * p) == 2 * (a / 2 % p) + a % 2
  {
    var q, r := a / 2 / p, a / 2 % p;
    assert a / 2 == q * p + r;
    assert q * (2 * p) == 2 * (q * p);
    QuotientUnique(a, 2 * p, q, 2 * r + a % 2);
  }

  /** a shifted right by k digits, and the k digits that drop out. */
  function Shr(a: nat, k: nat): nat {
    if k == 0 then a else Shr(a / 2, k - 1)
  }

  function Low(a: nat, k: nat): nat {
    if k == 0 then 0 else 2 * Low(a / 2, k - 1) + a % 2
  }

  lemma {:induction false} ShiftsAreDivision(a: nat, k: nat)
    ensures Shr(a, k) == a / Pow2(k) && Low(a, k) == a % Pow2(k)
  {
    if k > 0 {
      ShiftsAreDivision(a / 2, k - 1);
      Halves(a, Pow2(k - 1));
    }
  }

  /** Masking with w ones shifted up by s keeps the field of w digits at s. */
  lemma {:induction false} AndLow(a: nat, w: nat)
    ensures And(a, Pow2(w) - 1) == Low(a, w)
  {
    if w > 0 {
      AndLow(a / 2, w - 1);
      AndOdd(a, Pow2(w - 1) - 1);
    }
  }

  /** a shifted left by k digits, without truncation. */
  function Shl(a: nat, k: nat): nat {
    if k == 0 then a else 2 * Shl(a, k - 1)
  }

  lemma {:induction false} AndShifted(a: nat, m: nat, s: nat)
    ensures And(a, Shl(m, s)) == Shl(And(Shr(a, s), m), s)
  {
    if s > 0 {
      AndShifted(a / 2, m, s - 1);
      AndDoubled(a, Shl(m, s - 1));
    }
  }

  lemma {:induction false} LowOfSmall(a: nat, w: nat)
    requires a < Pow2(w)
    ensures Low(a, w) == a
  {
    if w > 0 { LowOfSmall(a / 2, w - 1); }
  }

  /** Masking with ones above the k lowest digits clears those digits and nothing else. */
  lemma {:induction false} AndClearsLow(a: nat, k: nat, w: nat)
    requires a < Pow2(k + w)
    ensures And(a, Shl(Pow2(w) - 1, k)) == a - Low(a, k)
  {
    if k == 0 {
      AndLow(a, w);
      LowOfSmall(a, w);
    } else {
      AndClearsLow(a / 2, k - 1, w);
      AndDoubled(a, Shl(Pow2(w) - 1, k - 1));
    }
  }

  lemma {:induction false} ShrOfShl(a: nat, k: nat)
    ensures Shr(Shl(a, k), k) == a
  {
    if k > 0 { ShrOfShl(a, k - 1); }
  }

  lemma {:induction false} ShlIsProduct(a: nat, k: nat)
    ensures Shl(a, k) == a * Pow2(k)
  {
    if k > 0 {
      ShlIsProduct(a, k - 1);
      TwiceProduct(a, Pow2(k - 1));
    }
  }

  /** The field of w digits at position s, as the kernel extracts it: mask, then shift down. */
  function Field(a: nat, w: nat, s: nat): nat {
    Shr(And(a, Shl(Pow2(w) - 1, s)), s)
  }

  lemma FieldIsDivision(a: nat, w: nat, s: nat)
    ensures Field(a, w, s) == Low(Shr(a, s), w)
  {
    AndShifted(a, Pow2(w) - 1, s);
    AndLow(Shr(a, s), w);
    ShrOfShl(Low(Shr(a, s), w), s);
  }

  lemma AndOdd(a: nat, m: nat)
    ensures And(a, 2 * m + 1) == 2 * And(a / 2, m) + a % 2
  {
    var b := 2 * m + 1;
    assert b / 2 == m && b % 2 == 1;
  }

  lemma TwiceProduct(x: nat, y: nat)
    ensures x * (2 * y) == 2 * (x * y)
  {
  }

  lemma AndDoubled(a: nat, m: nat)
    ensures And(a, 2 * m) == 2 * And(a / 2, m)
  {
    var b := 2 * m;
    assert b / 2 == m && b % 2 == 0;
  }

  /** An or of a multiple of 2^k with something below 2^k is their sum. */
  lemma {:induction false} OrDisjoint(a: nat, b: nat, k: nat)
    requires a % Pow2(k) == 0 && b < Pow2(k)
    ensures Or(a, b) == a + b
  {
    if k > 0 && a > 0 && b > 0 {
      Halves(a, Pow2(k - 1));
      OrDisjoint(a / 2, b / 2, k - 1);
    }
  }

  // ----- is_power_of_two

  /** The check of the slab allocator: n > 0 and n & (n - 1) is zero. */
  predicate IsPowerOfTwo(n: int) {
    n > 0 && And(n, n - 1) == 0
  }

  lemma IsPowerOfTwoDoubles(m: nat)
    requires m > 0
    ensures IsPowerOfTwo(2 * m) <==> IsPowerOfTwo(m)
  {
    AndCommutes(2 * m, 2 * m - 1);
    AndDoubled(2 * m - 1, m);
    assert (2 * m - 1) / 2 == m - 1;
    AndCommutes(m, m - 1);
  }

  lemma IsPowerOfTwoOdd(m: nat)
    ensures IsPowerOfTwo(2 * m + 1) <==> m == 0
  {
    AndIdempotent(m);
    assert (2 * m + 1) / 2 == m && 2 * m / 2 == m;
  }

  lemma {:induction false} PowersPass(k: nat)
    ensures IsPowerOfTwo(Pow2(k))
  {
    if k == 0 {
      IsPowerOfTwoOdd(0);
    } else {
      PowersPass(k - 1);
      IsPowerOfTwoDoubles(Pow2(k - 1));
    }
  }

  lemma {:induction false} PassingIsPower(n: nat) returns (k: nat)
    requires IsPowerOfTwo(n)
    ensures n == Pow2(k)
  {
    var m := n / 2;
    if n % 2 == 1 {
      assert n == 2 * m + 1;
      IsPowerOfTwoOdd(m);
      k := 0;
    } else {
      assert n == 2 * m;
      IsPowerOfTwoDoubles(m);
      k := PassingIsPower(m);
      k := k + 1;
    }
  }

  lemma IsPowerOfTwoMeaning(n: nat)
    ensures IsPowerOfTwo(n) <==> exists k: nat :: n == Pow2(k)
  {
    if IsPowerOfTwo(n) {
      var k := PassingIsPower(n);
    } else {
      forall k: nat ensures n != Pow2(k) { PowersPass(k); }
    }
  }
}
