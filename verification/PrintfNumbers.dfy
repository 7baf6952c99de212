/** Integers in text: _ntoa_long, _ntoa_long_long and _ntoa_format (fckrnl/libk/kprintf/kprintf.c). */
module PrintfNumbers {
  import opened Bits
  import opened PrintfOutput

  /** The flags of a conversion. */
  datatype Flags = Flags(zeropad: bool, left: bool, plus: bool, space: bool, hash: bool, upper: bool,
                         isChar: bool, isShort: bool, isLong: bool, isLongLong: bool, precision: bool)

  // ----- digits

  function DigitChar(d: nat, upper: bool): (c: char)
    requires d < 16
    ensures IsNumeral(c) && DigitOf(c) == d
  {
    (if d < 10 then '0' as int + d else (if upper then 'A' else 'a') as int + d - 10) as char
  }

  predicate IsDigit(c: char) {
    '0' <= c <= '9'
  }

  predicate IsNumeral(c: char) {
    IsDigit(c) || 'a' <= c <= 'f' || 'A' <= c <= 'F'
  }

  function DigitOf(c: char): (d: nat)
    requires IsNumeral(c)
    ensures d < 16
  {
    if IsDigit(c) then c as int - '0' as int
    else if c >= 'a' then c as int - 'a' as int + 10
    else c as int - 'A' as int + 10
  }

  /** value / base and value % base, by counting. */
  function Quotient(v: nat, base: nat): (q: nat)
    requires 2 <= base
    ensures v > 0 ==> q < v
    ensures v < base <==> q == 0
  {
    if v < base then 0 else 1 + Quotient(v - base, base)
  }

  function Rest(v: nat, base: nat): (r: nat)
    requires 2 <= base
    ensures r < base
  {
    if v < base then v else Rest(v - base, base)
  }

  lemma {:induction false} CountingIsDivision(v: nat, base: nat)
    requires 2 <= base
    ensures v == Quotient(v, base) * base + Rest(v, base)
    ensures Quotient(v, base) == v / base && Rest(v, base) == v % base
  {
    if v >= base { CountingIsDivision(v - base, base); }
    QuotientUnique(v, base, Quotient(v, base), Rest(v, base));
  }

  /** The digit loop: the least digit first, and at most n digits. */
  function LowDigits(v: nat, base: nat, upper: bool, n: nat): (r: string)
    requires 2 <= base <= 16 && 0 < n
    ensures 1 <= |r| <= n
    decreases n, v
  {
    var k, q := n - 1, Quotient(v, base);
    [DigitChar(Rest(v, base), upper)] + (if q == 0 || k == 0 then "" else LowDigits(q, base, upper, k))
  }

  /** The digits still to come in the digit loop, when there is room for k of them. */
  function MoreDigits(v: nat, base: nat, upper: bool, k: nat): string
    requires 2 <= base <= 16
  {
    if v == 0 || k == 0 then "" else LowDigits(v, base, upper, k)
  }

  lemma NextDigit(v: nat, base: nat, upper: bool, k: nat)
    requires 2 <= base <= 16 && 0 < k
    ensures LowDigits(v, base, upper, k) ==
      [DigitChar(Rest(v, base), upper)] + MoreDigits(Quotient(v, base), base, upper, k - 1)
  {
  }

  /** The digits of v, the greatest first. */
  function Digits(v: nat, base: nat, upper: bool): (r: string)
    requires 2 <= base <= 16
    ensures 1 <= |r|
  {
    var last := [DigitChar(Rest(v, base), upper)];
    if Quotient(v, base) == 0 then last else Digits(Quotient(v, base), base, upper) + last
  }

  /** The last n characters of t. */
  function Last(t: string, n: nat): string {
    t[if |t| < n then 0 else |t| - n..]
  }

  lemma LastGrows(t: string, c: char, n: nat)
    ensures Last(t + [c], n + 1) == Last(t, n) + [c]
  {
  }

  lemma ReversedGrows(c: char, s: string)
    ensures Reversed([c] + s) == Reversed(s) + [c]
  {
  }

  /** The digit loop keeps the n least digits. */
  lemma {:induction false} LowDigitsAreLast(v: nat, base: nat, upper: bool, n: nat)
    requires 2 <= base <= 16 && 0 < n
    ensures Reversed(LowDigits(v, base, upper, n)) == Last(Digits(v, base, upper), n)
    decreases n
  {
    var q, c, k := Quotient(v, base), DigitChar(Rest(v, base), upper), n - 1;
    if q == 0 {
      assert Reversed([c]) == [c];
    } else if k == 0 {
      LastGrows(Digits(q, base, upper), c, 0);
      assert Last(Digits(q, base, upper), 0) == "";
      assert Reversed([c]) == [c];
    } else {
      LowDigitsAreLast(q, base, upper, k);
      ReversedGrows(c, LowDigits(q, base, upper, k));
      LastGrows(Digits(q, base, upper), c, k);
    }
  }

  predicate AllNumerals(t: string) {
    forall i :: 0 <= i < |t| ==> IsNumeral(t[i])
  }

  lemma {:induction false} DigitsAreNumerals(v: nat, base: nat, upper: bool)
    requires 2 <= base <= 16
    ensures AllNumerals(Digits(v, base, upper))
  {
    if Quotient(v, base) != 0 { DigitsAreNumerals(Quotient(v, base), base, upper); }
  }

  // ----- one field

  function SignText(negative: bool, f: Flags): (s: string)
    ensures |s| <= 1
  {
    if negative then "-" else if f.plus then "+" else if f.space then " " else ""
  }

  function Min(a: nat, b: nat): nat {
    if a < b then a else b
  }

  /** The width once the zero padding leaves room for the sign. */
  function SignWidth(negative: bool, width: nat, f: Flags): nat {
    if !f.left && width > 0 && f.zeropad && (negative || f.plus || f.space) then width - 1 else width
  }

  /** How many digits stand in the 32-character scratch buffer after the zero padding. */
  function NumeralCount(d: nat, negative: bool, prec: nat, width: nat, f: Flags): (n: nat)
    ensures n >= d
  {
    if f.left then d
    else
      var z := d + Gap(d, Min(prec, 32));
      if f.zeropad then z + Gap(z, Min(SignWidth(negative, width, f), 32)) else z
  }

  /** How many characters the # flag takes off the end of the scratch buffer. */
  function Dropped(len: nat, base: nat, prec: nat, width: nat, f: Flags): nat {
    if !f.precision && len > 0 && (len == prec || len == width)
    then (if len > 1 && base == 16 then 2 else 1)
    else 0
  }

  function Prefix(base: nat, f: Flags): string {
    if base == 16 && !f.upper then "x" else if base == 16 then "X" else if base == 2 then "b" else ""
  }

  function Appended(b: string, s: string): string {
    if |b| < 32 then b + s else b
  }

  /** The # flag. */
  function WithPrefix(b: string, base: nat, prec: nat, width: nat, f: Flags): string {
    var kept := b[..|b| - Dropped(|b|, base, prec, width, f)];
    Appended(Appended(kept, Prefix(base, f)), "0")
  }

  /** The scratch buffer of _ntoa_format, in reverse. */
  function ScratchCells(d: string, negative: bool, base: nat, prec: nat, width: nat, f: Flags): string {
    var b := d + Repeat('0', NumeralCount(|d|, negative, prec, width, f) - |d|);
    var h := if f.hash then WithPrefix(b, base, prec, SignWidth(negative, width, f), f) else b;
    Appended(h, SignText(negative, f))
  }

  /** The digits _ntoa_long puts into the scratch buffer. */
  function Scratch(v: nat, base: nat, f: Flags): (d: string)
    requires 2 <= base <= 16
    ensures |d| <= 32
  {
    if f.precision && v == 0 then "" else LowDigits(v, base, f.upper, 32)
  }

  /** What _ntoa_long and _ntoa_long_long print. */
  function Number(v: nat, negative: bool, base: nat, prec: nat, width: nat, f: Flags): string
    requires 2 <= base <= 16
  {
    var g := if v == 0 then f.(hash := false) else f;
    NumberOf(Scratch(v, base, f), negative, base, prec, width, g)
  }

  function NumberOf(d: string, negative: bool, base: nat, prec: nat, width: nat, f: Flags): string {
    RevText(ScratchCells(d, negative, base, prec, width, f), SignWidth(negative, width, f), f.left, f.zeropad)
  }

  // ----- the code

  /** A zero-padding loop of _ntoa_format. */
  method PadZeros(buf: array<char>, size: nat, n: nat) returns (len: nat)
    requires buf.Length == 32 && size <= 32
    modifies buf
    ensures len == size + Gap(size, Min(n, 32)) <= 32
    ensures buf[..len] == old(buf[..size]) + Repeat('0', len - size)
  {
    len := size;
    while len < n && len < 32
      invariant size <= len <= 32 && (len <= n || len == size)
      invariant buf[..len] == old(buf[..size]) + Repeat('0', len - size)
    {
      buf[len] := '0';
      len := len + 1;
    }
  }

  /** One guarded store of _ntoa_format. */
  method Append(buf: array<char>, size: nat, s: string) returns (len: nat)
    requires buf.Length == 32 && size <= 32 && |s| <= 1
    modifies buf
    ensures len == |Appended(old(buf[..size]), s)| <= 32
    ensures buf[..len] == Appended(old(buf[..size]), s)
  {
    len := size;
    if size < 32 && |s| == 1 {
      buf[size] := s[0];
      len := size + 1;
    }
  }

  /** The # flag of _ntoa_format. */
  method HashPrefix(buf: array<char>, size: nat, base: nat, prec: nat, width: nat, f: Flags) returns (len: nat)
    requires buf.Length == 32 && size <= 32
    modifies buf
    ensures len <= 32 && buf[..len] == WithPrefix(old(buf[..size]), base, prec, width, f)
  {
    len := size;
    if !f.precision && len > 0 && (len == prec || len == width) {
      len := len - 1;
      if len > 0 && base == 16 { len := len - 1; }
    }
    assert buf[..len] == old(buf[..size])[..len];
    len := Append(buf, len, Prefix(base, f));
    len := Append(buf, len, "0");
  }

  /** The zero padding of _ntoa_format. */
  method PadNumber(buf: array<char>, size: nat, negative: bool, prec: nat, fieldWidth: nat, f: Flags)
      returns (len: nat, width: nat)
    requires buf.Length == 32 && size <= 32
    modifies buf
    ensures width == SignWidth(negative, fieldWidth, f)
    ensures len == NumeralCount(size, negative, prec, fieldWidth, f) <= 32
    ensures buf[..len] == old(buf[..size]) + Repeat('0', len - size)
  {
    len, width := size, fieldWidth;
    if !f.left {
      if width > 0 && f.zeropad && (negative || f.plus || f.space) { width := width - 1; }
      len := PadZeros(buf, len, prec);
      if f.zeropad { len := PadZeros(buf, len, width); }
    }
  }

  /** What _ntoa_format leaves in the scratch buffer. */
  method FillCells(buf: array<char>, size: nat, negative: bool, base: nat, prec: nat, fieldWidth: nat, f: Flags)
      returns (len: nat, width: nat)
    requires buf.Length == 32 && size <= 32
    modifies buf
    ensures width == SignWidth(negative, fieldWidth, f)
    ensures len <= 32 && buf[..len] == ScratchCells(old(buf[..size]), negative, base, prec, fieldWidth, f)
  {
    len, width := PadNumber(buf, size, negative, prec, fieldWidth, f);
    len := MarkBase(buf, len, base, prec, width, f);
    len := Append(buf, len, SignText(negative, f));
  }

  method MarkBase(buf: array<char>, size: nat, base: nat, prec: nat, width: nat, f: Flags) returns (len: nat)
    requires buf.Length == 32 && size <= 32
    modifies buf
    ensures len <= 32
    ensures buf[..len] == if f.hash then WithPrefix(old(buf[..size]), base, prec, width, f) else old(buf[..size])
  {
    len := size;
    if f.hash {
      len := HashPrefix(buf, size, base, prec, width, f);
    }
  }

  /** _ntoa_format. */
  method NtoaFormat(buffer: array<char>, start: nat, maxlen: nat, buf: array<char>, size: nat, negative: bool,
                    base: nat, prec: nat, fieldWidth: nat, f: Flags)
      returns (idx: nat)
    requires buf.Length == 32 && size <= 32 && buf != buffer
    requires Safe(buffer.Length, start + |NumberOf(buf[..size], negative, base, prec, fieldWidth, f)|, maxlen)
    modifies buffer, buf
    ensures idx == start + |NumberOf(old(buf[..size]), negative, base, prec, fieldWidth, f)|
    ensures buffer[..] == Put(old(buffer[..]), start, NumberOf(old(buf[..size]), negative, base, prec, fieldWidth, f), maxlen)
  {
    ghost var before := buffer[..];
    var len, width := FillCells(buf, size, negative, base, prec, fieldWidth, f);
    assert buffer[..] == before;
    idx := OutRev(buffer, start, maxlen, buf, len, width, f.left, f.zeropad);
  }

  lemma DigitStored(v: nat, base: nat, upper: bool, k: nat, s: string)
    requires 2 <= base <= 16 && 0 < k && 0 < v
    ensures s + MoreDigits(v, base, upper, k) ==
      s + [DigitChar(Rest(v, base), upper)] + MoreDigits(Quotient(v, base), base, upper, k - 1)
  {
    NextDigit(v, base, upper, k);
  }

  /** One round of the digit loop; all are the digits of the number. */
  method DigitRound(buf: array<char>, size: nat, value: nat, base: nat, f: Flags, ghost all: string)
      returns (len: nat, rest: nat)
    requires buf.Length == 32 && 2 <= base <= 16 && size < 32 && 0 < value
    requires all == buf[..size] + MoreDigits(value, base, f.upper, 32 - size)
    modifies buf
    ensures len == size + 1 && all == buf[..len] + MoreDigits(rest, base, f.upper, 32 - len)
  {
    DigitStored(value, base, f.upper, 32 - size, buf[..size]);
    len := Append(buf, size, [DigitChar(Rest(value, base), f.upper)]);
    rest := Quotient(value, base);
  }

  /** The digit loop of _ntoa_long. */
  method DigitLoop(buf: array<char>, number: nat, base: nat, f: Flags) returns (len: nat)
    requires buf.Length == 32 && 2 <= base <= 16
    modifies buf
    ensures len <= 32 && buf[..len] == LowDigits(number, base, f.upper, 32)
  {
    ghost var all := FirstDigit(number, base, f.upper);
    buf[0] := DigitChar(Rest(number, base), f.upper);
    len := 1;
    var value := Quotient(number, base);
    assert buf[..1] == [buf[0]];
    while value > 0 && len < 32
      invariant 1 <= len <= 32
      invariant all == buf[..len] + MoreDigits(value, base, f.upper, 32 - len)
      decreases 32 - len
    {
      len, value := DigitRound(buf, len, value, base, f, all);
    }
    assert all == buf[..len] + "";
  }

  lemma FirstDigit(number: nat, base: nat, upper: bool) returns (all: string)
    requires 2 <= base <= 16
    ensures all == LowDigits(number, base, upper, 32)
    ensures all == [DigitChar(Rest(number, base), upper)] + MoreDigits(Quotient(number, base), base, upper, 31)
  {
    var room := 32;
    NextDigit(number, base, upper, room);
    all := LowDigits(number, base, upper, room);
  }

  /** The digits of _ntoa_long. */
  method FillDigits(buf: array<char>, value: nat, base: nat, f: Flags) returns (len: nat)
    requires buf.Length == 32 && 2 <= base <= 16
    modifies buf
    ensures len <= 32 && buf[..len] == Scratch(value, base, f)
  {
    len := 0;
    if !f.precision || value > 0 {
      len := DigitLoop(buf, value, base, f);
    }
  }

  /** _ntoa_long and _ntoa_long_long: both take 64-bit values here. */
  method NtoaLong(buffer: array<char>, start: nat, maxlen: nat, value: nat, negative: bool, base: nat,
                  prec: nat, width: nat, f: Flags)
      returns (idx: nat)
    requires 2 <= base <= 16
    requires Safe(buffer.Length, start + |Number(value, negative, base, prec, width, f)|, maxlen)
    modifies buffer
    ensures idx == start + |Number(value, negative, base, prec, width, f)|
    ensures buffer[..] == Put(old(buffer[..]), start, Number(value, negative, base, prec, width, f), maxlen)
  {
    var buf := new char[32];
    ghost var before := buffer[..];
    var len := FillDigits(buf, value, base, f);
    assert buffer[..] == before;
    var flags := if value == 0 then f.(hash := false) else f;
    idx := NtoaFormat(buffer, start, maxlen, buf, len, negative, base, prec, width, flags);
  }
}
