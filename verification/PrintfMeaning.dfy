/** What the integer conversions print: the C11 layout, and numbers that read back. */
module PrintfMeaning {
  import opened Bits
  import opened PrintfOutput
  import opened PrintfNumbers

  // ----- the parts of a field

  /** Spaces, a sign, zeros, digits, spaces. */
  datatype Layout = Layout(before: nat, sign: string, zeros: nat, digits: string, after: nat)

  function Row(a: nat, sign: string, zeros: nat, digits: string, b: nat): string {
    Repeat(' ', a) + sign + Repeat('0', zeros) + digits + Repeat(' ', b)
  }

  function Text(l: Layout): (t: string)
    ensures |t| == l.before + |l.sign| + l.zeros + |l.digits| + l.after
  {
    Row(l.before, l.sign, l.zeros, l.digits, l.after)
  }

  lemma ReversedSum(s: string, t: string)
    ensures Reversed(s + t) == Reversed(t) + Reversed(s)
  {
  }

  /** The sign that is printed: none when 32 digits fill the scratch buffer. */
  function KeptSign(n: nat, negative: bool, f: Flags): (s: string)
    ensures |s| <= 1
  {
    if n < 32 then SignText(negative, f) else ""
  }

  function PadBefore(len: nat, width: nat, f: Flags): nat {
    if f.left || f.zeropad then 0 else Gap(len, width)
  }

  function PadAfter(len: nat, width: nat, f: Flags): nat {
    if f.left then Gap(len, width) else 0
  }

  lemma ReversedCells(d: string, zeros: nat, sign: string)
    requires |sign| <= 1
    ensures Reversed(d + Repeat('0', zeros) + sign) == sign + Repeat('0', zeros) + Reversed(d)
  {
    ReversedSum(d + Repeat('0', zeros), sign);
    ReversedSum(d, Repeat('0', zeros));
    assert Reversed(Repeat('0', zeros)) == Repeat('0', zeros);
    assert Reversed(sign) == sign;
    assert sign + (Repeat('0', zeros) + Reversed(d)) == sign + Repeat('0', zeros) + Reversed(d);
  }

  lemma CellsWithSign(b: string, negative: bool, f: Flags)
    ensures Appended(b, SignText(negative, f)) == b + KeptSign(|b|, negative, f)
  {
  }

  lemma Around(a: string, s: string, z: string, d: string, b: string)
    ensures a + (s + z + d) + b == a + s + z + d + b
  {
    assert a + (s + z + d) == a + s + z + d;
  }

  lemma NumberIsRow(d: string, negative: bool, base: nat, prec: nat, width: nat, f: Flags)
    requires |d| <= 32 && !f.hash
    ensures var n, w := NumeralCount(|d|, negative, prec, width, f), SignWidth(negative, width, f);
      var sign := KeptSign(n, negative, f);
      NumberOf(d, negative, base, prec, width, f) ==
        Row(PadBefore(n + |sign|, w, f), sign, n - |d|, Reversed(d), PadAfter(n + |sign|, w, f))
  {
    var n, w := NumeralCount(|d|, negative, prec, width, f), SignWidth(negative, width, f);
    var b, sign := d + Repeat('0', n - |d|), KeptSign(n, negative, f);
    var cells := ScratchCells(d, negative, base, prec, width, f);
    CellsWithSign(b, negative, f);
    assert cells == b + sign;
    ReversedCells(d, n - |d|, sign);
    assert NumberOf(d, negative, base, prec, width, f) ==
      Repeat(' ', PadBefore(|cells|, w, f)) + Reversed(cells) + Repeat(' ', PadAfter(|cells|, w, f));
    Around(Repeat(' ', PadBefore(|cells|, w, f)), sign, Repeat('0', n - |d|), Reversed(d), Repeat(' ', PadAfter(|cells|, w, f)));
  }

  // ----- the layout of section 7.21.6.1 of C11

  /** The digits of the value, which is no characters for 0 with precision 0. */
  function C11Digits(v: nat, base: nat, prec: nat, f: Flags): string
    requires 2 <= base <= 16
  {
    if f.precision && prec == 0 && v == 0 then "" else Digits(v, base, f.upper)
  }

  /** d, i, u, x, X, o and b without the # flag: at least prec digits, a sign, then padding to the width:
      after it with the - flag, as zeros with the 0 flag, before it otherwise. */
  function C11Field(v: nat, negative: bool, base: nat, prec: nat, width: nat, f: Flags): string
    requires 2 <= base <= 16
  {
    var digits := C11Digits(v, base, prec, f);
    var body := Repeat('0', Gap(|digits|, prec)) + digits;
    var sign := SignText(negative, f);
    var pad := Gap(|sign| + |body|, width);
    if f.left then sign + body + Repeat(' ', pad)
    else if f.zeropad then sign + Repeat('0', pad) + body
    else Repeat(' ', pad) + sign + body
  }

  /** The digits the code prints when there is room for them. */
  function OwnDigits(v: nat, base: nat, f: Flags): string
    requires 2 <= base <= 16
  {
    if f.precision && v == 0 then "" else Digits(v, base, f.upper)
  }

  function Max(a: nat, b: nat): nat {
    if a < b then b else a
  }

  lemma Zeros(m: nat, n: nat, t: string)
    ensures Repeat('0', m) + (Repeat('0', n) + t) == Repeat('0', m + n) + t
  {
    assert Repeat('0', m) + Repeat('0', n) == Repeat('0', m + n);
  }

  /** Zero has no digit of its own when a precision is given. */
  lemma C11Number(v: nat, base: nat, prec: nat, f: Flags)
    requires 2 <= base <= 16
    ensures var digits, d := C11Digits(v, base, prec, f), OwnDigits(v, base, f);
      Repeat('0', Gap(|digits|, prec)) + digits == Repeat('0', Max(|d|, prec) - |d|) + d
  {
    var digits, d := C11Digits(v, base, prec, f), OwnDigits(v, base, f);
    if digits != d {
      assert digits == "0" && d == "";
      Zeros(prec - 1, 1, "");
    }
  }

  lemma C11IsRow(v: nat, negative: bool, base: nat, prec: nat, width: nat, f: Flags)
    requires 2 <= base <= 16 && (f.zeropad ==> prec == 0)
    ensures var d, sign := OwnDigits(v, base, f), SignText(negative, f);
      var n := Max(|d|, prec); var pad := Gap(|sign| + n, width);
      C11Field(v, negative, base, prec, width, f) ==
        if f.left then Row(0, sign, n - |d|, d, pad)
        else if f.zeropad then Row(0, sign, pad + n - |d|, d, 0)
        else Row(pad, sign, n - |d|, d, 0)
  {
    var d, sign := OwnDigits(v, base, f), SignText(negative, f);
    var n := Max(|d|, prec);
    var pad, zeros := Gap(|sign| + n, width), n - |d|;
    C11Number(v, base, prec, f);
    if f.left {
      LeftRow(sign, zeros, d, pad);
    } else if f.zeropad {
      Zeros(pad, zeros, d);
      LeftRow(sign, pad + zeros, d, 0);
    } else {
      RightRow(sign, zeros, d, pad);
    }
  }

  lemma LeftRow(sign: string, zeros: nat, d: string, pad: nat)
    ensures sign + (Repeat('0', zeros) + d) + Repeat(' ', pad) == Row(0, sign, zeros, d, pad)
    ensures sign + Repeat('0', zeros) + d == Row(0, sign, zeros, d, 0)
  {
    assert Repeat(' ', 0) + sign == sign;
    assert sign + (Repeat('0', zeros) + d) == sign + Repeat('0', zeros) + d;
    assert sign + Repeat('0', zeros) + d + Repeat(' ', 0) == sign + Repeat('0', zeros) + d;
  }

  lemma RightRow(sign: string, zeros: nat, d: string, pad: nat)
    ensures Repeat(' ', pad) + sign + (Repeat('0', zeros) + d) == Row(pad, sign, zeros, d, 0)
  {
    var t := Repeat(' ', pad) + sign;
    assert t + (Repeat('0', zeros) + d) == t + Repeat('0', zeros) + d;
    assert t + Repeat('0', zeros) + d + Repeat(' ', 0) == t + Repeat('0', zeros) + d;
  }

  // ----- counting numerals, to tell texts apart

  function Numerals(t: string): nat {
    if t == "" then 0 else Numerals(t[..|t| - 1]) + (if IsNumeral(t[|t| - 1]) then 1 else 0)
  }

  lemma {:induction false} NumeralsOfSum(s: string, t: string)
    ensures Numerals(s + t) == Numerals(s) + Numerals(t)
  {
    if t == "" {
      assert s + t == s;
    } else {
      assert (s + t)[..|s + t| - 1] == s + t[..|t| - 1];
      NumeralsOfSum(s, t[..|t| - 1]);
    }
  }

  lemma {:induction false} NumeralsOfAll(t: string)
    requires AllNumerals(t)
    ensures Numerals(t) == |t|
  {
    if t != "" { NumeralsOfAll(t[..|t| - 1]); }
  }

  lemma {:induction false} NumeralsOfNone(t: string)
    requires forall i :: 0 <= i < |t| ==> !IsNumeral(t[i])
    ensures Numerals(t) == 0
  {
    if t != "" { NumeralsOfNone(t[..|t| - 1]); }
  }

  lemma RowNumerals(a: nat, sign: string, zeros: nat, digits: string, b: nat)
    requires AllNumerals(digits) && forall i :: 0 <= i < |sign| ==> !IsNumeral(sign[i])
    ensures Numerals(Row(a, sign, zeros, digits, b)) == zeros + |digits|
  {
    NumeralsOfNone(Repeat(' ', a));
    NumeralsOfNone(sign);
    NumeralsOfAll(Repeat('0', zeros));
    NumeralsOfAll(digits);
    NumeralsOfNone(Repeat(' ', b));
    NumeralsOfSum(Repeat(' ', a), sign);
    NumeralsOfSum(Repeat(' ', a) + sign, Repeat('0', zeros));
    NumeralsOfSum(Repeat(' ', a) + sign + Repeat('0', zeros), digits);
    NumeralsOfSum(Repeat(' ', a) + sign + Repeat('0', zeros) + digits, Repeat(' ', b));
  }

  lemma ScratchIsLast(v: nat, base: nat, f: Flags)
    requires 2 <= base <= 16
    ensures Reversed(Scratch(v, base, f)) == Last(OwnDigits(v, base, f), 32)
    ensures AllNumerals(OwnDigits(v, base, f)) && AllNumerals(Last(OwnDigits(v, base, f), 32))
  {
    DigitsAreNumerals(v, base, f.upper);
    var n := 32;
    LowDigitsAreLast(v, base, f.upper, n);
  }

  /** When the scratch buffer has room for n digits, and the - flag does not drop the precision. */
  predicate FitsDigits(n: nat, negative: bool, prec: nat, width: nat, f: Flags) {
    && n <= 32 && prec <= 32
    && (f.left ==> prec <= n)
    && (f.zeropad && !f.left ==> width <= 32)
    && (Max(n, prec) == 32 && SignText(negative, f) != "" ==> Swallowed(negative, width, f))
  }

  /** A space for a sign looks like one more space of padding. */
  predicate Swallowed(negative: bool, width: nat, f: Flags) {
    SignText(negative, f) == " " && !f.left && !f.zeropad && width > 32
  }

  predicate Fits(v: nat, negative: bool, base: nat, prec: nat, width: nat, f: Flags)
    requires 2 <= base <= 16
  {
    FitsDigits(|OwnDigits(v, base, f)|, negative, prec, width, f)
  }

  function CodeLayout(d: string, negative: bool, prec: nat, width: nat, f: Flags): Layout {
    var low := Last(d, 32);
    var n, w := NumeralCount(|low|, negative, prec, width, f), SignWidth(negative, width, f);
    var sign := KeptSign(n, negative, f);
    Layout(PadBefore(n + |sign|, w, f), sign, n - |low|, low, PadAfter(n + |sign|, w, f))
  }

  function C11Layout(d: string, negative: bool, prec: nat, width: nat, f: Flags): Layout {
    var sign, n := SignText(negative, f), Max(|d|, prec);
    var pad := Gap(|sign| + n, width);
    if f.left then Layout(0, sign, n - |d|, d, pad)
    else if f.zeropad then Layout(0, sign, pad + n - |d|, d, 0)
    else Layout(pad, sign, n - |d|, d, 0)
  }

  lemma NumberInRows(v: nat, negative: bool, base: nat, prec: nat, width: nat, f: Flags)
    requires 2 <= base <= 16 && !f.hash
    ensures Number(v, negative, base, prec, width, f) ==
      Text(CodeLayout(OwnDigits(v, base, f), negative, prec, width, f))
  {
    ScratchIsLast(v, base, f);
    NumberIsRow(Scratch(v, base, f), negative, base, prec, width, f);
  }

  lemma C11InRows(v: nat, negative: bool, base: nat, prec: nat, width: nat, f: Flags)
    requires 2 <= base <= 16 && (f.zeropad ==> prec == 0)
    ensures C11Field(v, negative, base, prec, width, f) ==
      Text(C11Layout(OwnDigits(v, base, f), negative, prec, width, f))
  {
    C11IsRow(v, negative, base, prec, width, f);
  }

  lemma LayoutsAgree(d: string, negative: bool, prec: nat, width: nat, f: Flags)
    requires (f.zeropad ==> prec == 0) && FitsDigits(|d|, negative, prec, width, f)
    ensures var code, c11 := CodeLayout(d, negative, prec, width, f), C11Layout(d, negative, prec, width, f);
      code == c11 || (c11.sign == " " && code == c11.(before := c11.before + 1, sign := ""))
  {
    if f.left {
      LeftAgrees(d, negative, prec, width, f);
    } else if f.zeropad {
      ZeropadAgrees(d, negative, prec, width, f);
    } else {
      RightAgrees(d, negative, prec, width, f);
    }
  }

  lemma LeftAgrees(d: string, negative: bool, prec: nat, width: nat, f: Flags)
    requires f.left && (f.zeropad ==> prec == 0) && FitsDigits(|d|, negative, prec, width, f)
    ensures CodeLayout(d, negative, prec, width, f) == C11Layout(d, negative, prec, width, f)
  {
  }

  lemma ZeropadAgrees(d: string, negative: bool, prec: nat, width: nat, f: Flags)
    requires !f.left && f.zeropad && prec == 0 && FitsDigits(|d|, negative, prec, width, f)
    ensures CodeLayout(d, negative, prec, width, f) == C11Layout(d, negative, prec, width, f)
  {
  }

  lemma RightAgrees(d: string, negative: bool, prec: nat, width: nat, f: Flags)
    requires !f.left && !f.zeropad && FitsDigits(|d|, negative, prec, width, f)
    ensures var code, c11 := CodeLayout(d, negative, prec, width, f), C11Layout(d, negative, prec, width, f);
      code == c11 || (c11.sign == " " && code == c11.(before := c11.before + 1, sign := ""))
  {
  }

  lemma SpaceIsPadding(l: Layout)
    requires l.sign == " "
    ensures Text(l.(before := l.before + 1, sign := "")) == Text(l)
  {
    assert Repeat(' ', l.before) + " " == Repeat(' ', l.before + 1) + "";
  }

  /** Two layouts with different texts: by the number of numerals, by the length, or where the sign is. */
  predicate TextsDiffer(code: Layout, c11: Layout) {
    || code.zeros + |code.digits| != c11.zeros + |c11.digits|
    || |Text(code)| != |Text(c11)|
    || (c11.sign != "" && c11.sign != " " && code.before == c11.before + 1)
    || (c11.sign != "" && code.sign == "" && code.before == c11.before == 0 && code.digits != "" && code.zeros == 0)
  }

  lemma LayoutsApart(d: string, negative: bool, prec: nat, width: nat, f: Flags)
    requires (f.zeropad ==> prec == 0) && !FitsDigits(|d|, negative, prec, width, f)
    ensures TextsDiffer(CodeLayout(d, negative, prec, width, f), C11Layout(d, negative, prec, width, f))
  {
  }

  lemma ApartDiffer(code: Layout, c11: Layout)
    requires TextsDiffer(code, c11) && AllNumerals(code.digits) && AllNumerals(c11.digits)
    requires SignOk(code.sign) && SignOk(c11.sign)
    ensures Text(code) != Text(c11)
  {
    RowNumerals(code.before, code.sign, code.zeros, code.digits, code.after);
    RowNumerals(c11.before, c11.sign, c11.zeros, c11.digits, c11.after);
    if code.before == c11.before + 1 {
      if c11.sign != "" && c11.sign != " " {
        assert Text(code)[c11.before] == ' ';
        assert Text(c11)[c11.before] == c11.sign[0];
      }
    } else if code.sign == "" && code.before == 0 && code.zeros == 0 && code.digits != "" && c11.before == 0 && c11.sign != "" {
      assert Text(code)[0] == code.digits[0];
      assert Text(c11)[0] == c11.sign[0];
    }
  }

  predicate SignOk(sign: string) {
    sign == "" || sign == " " || sign == "+" || sign == "-"
  }

  /** An integer conversion without the # flag prints what C11 asks for exactly when Fits holds.  The flags
      are those of _vsnprintf: a precision switches the 0 flag off. */
  lemma PrintsAsC11(v: nat, negative: bool, base: nat, prec: nat, width: nat, f: Flags)
    requires 2 <= base <= 16 && !f.hash && (f.zeropad ==> prec == 0)
    ensures Number(v, negative, base, prec, width, f) == C11Field(v, negative, base, prec, width, f)
      <==> Fits(v, negative, base, prec, width, f)
  {
    var d := OwnDigits(v, base, f);
    NumberInRows(v, negative, base, prec, width, f);
    C11InRows(v, negative, base, prec, width, f);
    if Fits(v, negative, base, prec, width, f) {
      SameText(d, negative, prec, width, f);
    } else {
      ScratchIsLast(v, base, f);
      OtherText(d, negative, prec, width, f);
    }
  }

  lemma SameText(d: string, negative: bool, prec: nat, width: nat, f: Flags)
    requires (f.zeropad ==> prec == 0) && FitsDigits(|d|, negative, prec, width, f)
    ensures Text(CodeLayout(d, negative, prec, width, f)) == Text(C11Layout(d, negative, prec, width, f))
  {
    var code, c11 := CodeLayout(d, negative, prec, width, f), C11Layout(d, negative, prec, width, f);
    LayoutsAgree(d, negative, prec, width, f);
    if code != c11 { SpaceIsPadding(c11); }
  }

  lemma OtherText(d: string, negative: bool, prec: nat, width: nat, f: Flags)
    requires (f.zeropad ==> prec == 0) && !FitsDigits(|d|, negative, prec, width, f)
    requires AllNumerals(d) && AllNumerals(Last(d, 32))
    ensures Text(CodeLayout(d, negative, prec, width, f)) != Text(C11Layout(d, negative, prec, width, f))
  {
    LayoutsApart(d, negative, prec, width, f);
    ApartDiffer(CodeLayout(d, negative, prec, width, f), C11Layout(d, negative, prec, width, f));
  }

  /** How long the output is: the width, or the sign and the digits, padded to the precision unless the -
      flag is given. */
  lemma NumberLength(v: nat, negative: bool, base: nat, prec: nat, width: nat, f: Flags)
    requires 2 <= base <= 16 && !f.hash && (f.zeropad ==> width <= 32)
    requires |OwnDigits(v, base, f)| < 32 && prec < 32
    ensures |Number(v, negative, base, prec, width, f)| ==
      Max(width, |SignText(negative, f)| +
                 (if f.left then |OwnDigits(v, base, f)| else Max(|OwnDigits(v, base, f)|, prec)))
  {
    NumberInRows(v, negative, base, prec, width, f);
  }

  // ----- reading numbers back

  function SkipSpaces(t: string): string {
    if t != "" && t[0] == ' ' then SkipSpaces(t[1..]) else t
  }

  /** The number that the digits t starts with continue, from acc on. */
  function ReadDigits(t: string, base: nat, acc: nat): nat {
    if t == "" || !IsNumeral(t[0]) || DigitOf(t[0]) >= base then acc
    else ReadDigits(t[1..], base, acc * base + DigitOf(t[0]))
  }

  /** An integer as strtol reads it: spaces, a sign, digits. */
  function ReadInteger(t: string, base: nat): int {
    var s := SkipSpaces(t);
    if s != "" && s[0] == '-' then 0 - ReadDigits(s[1..], base, 0)
    else if s != "" && s[0] == '+' then ReadDigits(s[1..], base, 0)
    else ReadDigits(s, base, 0)
  }

  function Negated(negative: bool, v: nat): int {
    if negative then 0 - v else v
  }

  predicate DigitsBelow(t: string, base: nat) {
    forall i :: 0 <= i < |t| ==> IsNumeral(t[i]) && DigitOf(t[i]) < base
  }

  lemma {:induction false} SpacesSkipped(n: nat, t: string)
    ensures SkipSpaces(Repeat(' ', n) + t) == SkipSpaces(t)
  {
    if n == 0 {
      assert Repeat(' ', n) + t == t;
    } else {
      assert (Repeat(' ', n) + t)[1..] == Repeat(' ', n - 1) + t;
      SpacesSkipped(n - 1, t);
    }
  }

  lemma {:induction false} ZerosRead(n: nat, t: string, base: nat)
    requires 2 <= base
    ensures ReadDigits(Repeat('0', n) + t, base, 0) == ReadDigits(t, base, 0)
  {
    if n == 0 {
      assert Repeat('0', n) + t == t;
    } else {
      assert (Repeat('0', n) + t)[1..] == Repeat('0', n - 1) + t;
      ZerosRead(n - 1, t, base);
    }
  }

  lemma {:induction false} DigitsEnd(d: string, t: string, base: nat, acc: nat)
    requires DigitsBelow(d, base) && (t == "" || !IsNumeral(t[0]))
    ensures ReadDigits(d + t, base, acc) == ReadDigits(d, base, acc)
  {
    if d == "" {
      assert d + t == t;
    } else {
      assert (d + t)[1..] == d[1..] + t;
      DigitsEnd(d[1..], t, base, acc * base + DigitOf(d[0]));
    }
  }

  lemma UnsignedRead(zeros: nat, d: string, b: nat, base: nat)
    requires 2 <= base && DigitsBelow(d, base)
    ensures var t := Repeat('0', zeros) + (d + Repeat(' ', b));
      ReadDigits(t, base, 0) == ReadDigits(d, base, 0) && ReadInteger(t, base) == ReadDigits(d, base, 0)
  {
    var t := Repeat('0', zeros) + (d + Repeat(' ', b));
    ZerosRead(zeros, d + Repeat(' ', b), base);
    DigitsEnd(d, Repeat(' ', b), base, 0);
    if zeros == 0 && d == "" {
      assert t == Repeat(' ', b) + "";
      SpacesSkipped(b, "");
    } else {
      assert t[0] != ' ' && t[0] != '-' && t[0] != '+';
    }
  }

  lemma LayoutRead(l: Layout, base: nat)
    requires 2 <= base && DigitsBelow(l.digits, base) && SignOk(l.sign)
    ensures ReadInteger(Text(l), base) == Negated(l.sign == "-", ReadDigits(l.digits, base, 0))
  {
    var t := Repeat('0', l.zeros) + (l.digits + Repeat(' ', l.after));
    assert Text(l) == Repeat(' ', l.before) + (l.sign + t) by {
      assert Text(l) == Repeat(' ', l.before) + l.sign + Repeat('0', l.zeros) + l.digits + Repeat(' ', l.after);
    }
    SpacesSkipped(l.before, l.sign + t);
    UnsignedRead(l.zeros, l.digits, l.after, base);
    if l.sign == "" {
      assert l.sign + t == t;
    } else {
      assert (l.sign + t)[1..] == t;
    }
  }

  // ----- the value of the digits

  function Power(b: nat, n: nat): nat {
    if n == 0 then 1 else Power(b, n - 1) * b
  }

  lemma {:induction false} ReadOneMore(d: string, c: char, base: nat, acc: nat)
    requires DigitsBelow(d, base) && IsNumeral(c) && DigitOf(c) < base
    ensures ReadDigits(d + [c], base, acc) == ReadDigits(d, base, acc) * base + DigitOf(c)
  {
    if d == "" {
      assert d + [c] == [c];
      assert ReadDigits([c], base, acc) == ReadDigits([c][1..], base, acc * base + DigitOf(c));
    } else {
      assert (d + [c])[1..] == d[1..] + [c];
      ReadOneMore(d[1..], c, base, acc * base + DigitOf(d[0]));
    }
  }

  /** s reads as v modulo p. */
  predicate ReadsModulo(s: string, base: nat, v: nat, p: nat) {
    p > 0 && DigitsBelow(s, base) && ReadDigits(s, base, 0) == v % p
  }

  /** The n least digits of v make v modulo base to the n. */
  lemma {:induction false} LowDigitsValue(v: nat, base: nat, upper: bool, n: nat)
    requires 2 <= base <= 16 && 0 < n
    ensures ReadsModulo(Reversed(LowDigits(v, base, upper, n)), base, v, Power(base, n))
    decreases n
  {
    var q, k := Quotient(v, base), n - 1;
    var c := DigitChar(Rest(v, base), upper);
    assert Power(base, n) == Power(base, k) * base;
    if q == 0 || k == 0 {
      assert LowDigits(v, base, upper, n) == [c];
      assert Reversed([c]) == [c];
      OneDigit(v, base, upper, k);
      assert ReadsModulo([c], base, v, Power(base, n));
    } else {
      LowDigitsValue(q, base, upper, k);
      ReversedGrows(c, LowDigits(q, base, upper, k));
      NextDigitValue(Reversed(LowDigits(q, base, upper, k)), v, base, upper, Power(base, k));
    }
  }

  lemma NextDigitValue(s: string, v: nat, base: nat, upper: bool, p: nat)
    requires 2 <= base <= 16 && ReadsModulo(s, base, Quotient(v, base), p)
    ensures ReadsModulo(s + [DigitChar(Rest(v, base), upper)], base, v, p * base)
  {
    CountingIsDivision(v, base);
    ReadOneMore(s, DigitChar(Rest(v, base), upper), base, 0);
    ModuloStep(v, base, Quotient(v, base), Rest(v, base), p);
  }

  lemma {:induction false} PowerPositive(b: nat, n: nat)
    requires 0 < b
    ensures Power(b, n) > 0
  {
    if n > 0 {
      PowerPositive(b, n - 1);
    }
  }

  lemma OneDigit(v: nat, base: nat, upper: bool, k: nat)
    requires 2 <= base <= 16 && (Quotient(v, base) == 0 || k == 0)
    ensures ReadsModulo([DigitChar(Rest(v, base), upper)], base, v, Power(base, k) * base)
  {
    var c := DigitChar(Rest(v, base), upper);
    assert [c] == "" + [c];
    ReadOneMore("", c, base, 0);
    PowerPositive(base, k);
    OneRest(v, base, Power(base, k), k);
  }

  lemma OneRest(v: nat, base: nat, p: nat, k: nat)
    requires 2 <= base && 0 < p && (Quotient(v, base) == 0 || k == 0) && (k == 0 ==> p == 1)
    ensures p * base > 0 && Rest(v, base) == v % (p * base)
  {
    CountingIsDivision(v, base);
    if k == 0 {
      assert p * base == base;
    } else {
      assert p * base >= base;
      QuotientUnique(v, p * base, 0, v);
    }
  }

  lemma ModuloStep(v: nat, base: nat, q: nat, r: nat, p: nat)
    requires v == q * base + r && r < base && 0 < p
    ensures p * base > 0 && v % (p * base) == q % p * base + r
  {
    var x, y := q / p, q % p;
    assert q == x * p + y;
    assert (x * p + y) * base == x * (p * base) + y * base;
    assert (y + 1) * base <= p * base;
    QuotientUnique(v, p * base, x, y * base + r);
  }

  /** Reading a printed integer back gives its value modulo base to the 32, with its sign unless 32 digits
      fill the scratch buffer. */
  lemma ReadBack(v: nat, negative: bool, base: nat, prec: nat, width: nat, f: Flags)
    requires 2 <= base <= 16 && !f.hash
    ensures var n := NumeralCount(|Scratch(v, base, f)|, negative, prec, width, f);
      ReadInteger(Number(v, negative, base, prec, width, f), base) ==
        Negated(negative && n < 32, v % Modulus(base))
  {
    NumberInRows(v, negative, base, prec, width, f);
    ScratchIsLast(v, base, f);
    var d := OwnDigits(v, base, f);
    ScratchValue(v, base, f);
    LayoutRead(CodeLayout(d, negative, prec, width, f), base);
  }

  function Modulus(base: nat): (m: nat)
    requires 2 <= base
    ensures m > 0
  {
    var n := 32;
    PowerPositive(base, n);
    Power(base, n)
  }

  lemma ScratchValue(v: nat, base: nat, f: Flags)
    requires 2 <= base <= 16
    ensures var d := Reversed(Scratch(v, base, f));
      DigitsBelow(d, base) && ReadDigits(d, base, 0) == v % Modulus(base)
  {
    var n := 32;
    LowDigitsValue(v, base, f.upper, n);
  }

  lemma {:induction false} FewDigits(v: nat, base: nat, upper: bool, n: nat)
    requires 2 <= base <= 16 && 0 < n && v < Power(base, n)
    ensures |Digits(v, base, upper)| <= n
  {
    var q := Quotient(v, base);
    assert n == 1 ==> Power(base, n) == Power(base, 0) * base == base;
    if q != 0 {
      CountingIsDivision(v, base);
      SmallerQuotient(v, base, q, Power(base, n - 1));
      FewDigits(q, base, upper, n - 1);
    }
  }

  lemma SmallerQuotient(v: nat, base: nat, q: nat, p: nat)
    requires 0 < base && q * base <= v < p * base
    ensures q < p
  {
    assert (p - q) * base > 0;
  }

  lemma {:induction false} PowerSum(b: nat, m: nat, n: nat)
    ensures Power(b, m + n) == Power(b, m) * Power(b, n)
    decreases n
  {
    if n > 0 {
      PowerSum(b, m, n - 1);
      Regrouped(Power(b, m), Power(b, n - 1), b);
      assert Power(b, m + n) == Power(b, m + n - 1) * b;
    }
  }

  lemma Regrouped(x: nat, y: nat, z: nat)
    ensures x * y * z == x * (y * z)
  {
  }

  lemma Powers()
    ensures Power(8, 22) >= 0x1_0000_0000_0000_0000 && Power(10, 20) >= 0x1_0000_0000_0000_0000
    ensures Power(16, 16) == 0x1_0000_0000_0000_0000
  {
    FifthPower(8);
    PowerSum(8, 5, 5);
    PowerSum(8, 10, 10);
    PowerSum(8, 20, 2);
    FifthPower(10);
    PowerSum(10, 5, 5);
    PowerSum(10, 10, 10);
    FifthPower(16);
    PowerSum(16, 4, 4);
    PowerSum(16, 8, 8);
  }

  lemma FifthPower(b: nat)
    ensures Power(b, 2) == b * b && Power(b, 4) == b * b * (b * b) && Power(b, 5) == b * b * (b * b) * b
  {
    assert Power(b, 1) == Power(b, 0) * b == b;
    assert Power(b, 2) == Power(b, 1) * b;
    PowerSum(b, 2, 2);
    assert Power(b, 5) == Power(b, 4) * b;
  }

  /** Fewer than 32 octal, decimal or hexadecimal digits are enough for 64 bits. */
  lemma SixtyFourBits(v: nat, base: nat, upper: bool)
    requires v < 0x1_0000_0000_0000_0000 && (base == 8 || base == 10 || base == 16)
    ensures |Digits(v, base, upper)| < 32 && v < Modulus(base)
  {
    Powers();
    var n := if base == 8 then 22 else if base == 10 then 20 else 16;
    FewDigits(v, base, upper, n);
    var m := 32;
    PowerGrows(base, n, m);
  }

  lemma {:induction false} PowerGrows(b: nat, n: nat, m: nat)
    requires 0 < b && n <= m
    ensures Power(b, n) <= Power(b, m)
    decreases m
  {
    if n < m {
      PowerGrows(b, n, m - 1);
      assert Power(b, m) == Power(b, m - 1) * b >= Power(b, m - 1);
    }
  }

  /** Every 64-bit value printed in octal, decimal or hexadecimal reads back, whatever the flags. */
  lemma RoundTrip(v: nat, negative: bool, base: nat, prec: nat, width: nat, f: Flags)
    requires v < 0x1_0000_0000_0000_0000 && (base == 8 || base == 10 || base == 16)
    requires !f.hash && prec < 32 && (f.zeropad ==> width <= 32)
    ensures ReadInteger(Number(v, negative, base, prec, width, f), base) == Negated(negative, v)
  {
    SixtyFourBits(v, base, f.upper);
    ReadBack(v, negative, base, prec, width, f);
    ScratchIsLast(v, base, f);
    assert |Scratch(v, base, f)| < 32;
    SignKept(|Scratch(v, base, f)|, negative, prec, width, f);
    Unreduced(v, Modulus(base));
  }

  lemma SignKept(d: nat, negative: bool, prec: nat, width: nat, f: Flags)
    requires d < 32 && prec < 32 && (f.zeropad ==> width <= 32)
    ensures negative ==> NumeralCount(d, negative, prec, width, f) < 32
  {
  }

  lemma Unreduced(v: nat, m: nat)
    requires v < m
    ensures v % m == v
  {
  }

  /** The # flag loses digits of the value exactly when it takes more characters off the scratch buffer than
      there are padding zeros.  The buffer is in reverse: the digits are intact when it starts with them. */
  lemma HashKeepsDigits(d: string, negative: bool, base: nat, prec: nat, width: nat, f: Flags)
    requires f.hash && 2 <= base <= 16 && DigitsBelow(d, base) && d != "" && |d| <= 32 && d[|d| - 1] != '0'
    ensures var n, w := NumeralCount(|d|, negative, prec, width, f), SignWidth(negative, width, f);
      d <= ScratchCells(d, negative, base, prec, width, f) <==> Dropped(n, base, prec, w, f) <= n - |d|
  {
    var n, w := NumeralCount(|d|, negative, prec, width, f), SignWidth(negative, width, f);
    var k := Dropped(n, base, prec, w, f);
    FewNumerals(|d|, negative, prec, width, f);
    DroppedFew(n, base, prec, w, f);
    CellsHashed(d, negative, base, prec, width, f, n, k);
    HashedText(d, n, k, base, SignText(negative, f), f);
  }

  lemma DroppedFew(n: nat, base: nat, prec: nat, width: nat, f: Flags)
    ensures Dropped(n, base, prec, width, f) <= n && Dropped(n, base, prec, width, f) <= 2
    ensures base != 16 ==> Dropped(n, base, prec, width, f) <= 1
  {
  }

  lemma CellsHashed(d: string, negative: bool, base: nat, prec: nat, width: nat, f: Flags, n: nat, k: nat)
    requires f.hash && n == NumeralCount(|d|, negative, prec, width, f) && |d| <= n
    requires k == Dropped(n, base, prec, SignWidth(negative, width, f), f) && k <= n
    ensures ScratchCells(d, negative, base, prec, width, f) ==
      Appended(Appended(Appended((d + Repeat('0', n - |d|))[..n - k], Prefix(base, f)), "0"), SignText(negative, f))
  {
    var b := d + Repeat('0', n - |d|);
    assert WithPrefix(b, base, prec, SignWidth(negative, width, f), f) ==
      Appended(Appended(b[..n - k], Prefix(base, f)), "0");
  }

  lemma FewNumerals(d: nat, negative: bool, prec: nat, width: nat, f: Flags)
    requires d <= 32
    ensures NumeralCount(d, negative, prec, width, f) <= 32
  {
  }

  /** The scratch buffer when k characters are taken off n digits and zeros. */
  lemma HashedText(d: string, n: nat, k: nat, base: nat, sign: string, f: Flags)
    requires 2 <= base <= 16 && DigitsBelow(d, base) && d != "" && |d| <= n <= 32 && d[|d| - 1] != '0'
    requires k <= n && k <= 2 && (base != 16 ==> k <= 1)
    ensures var kept := (d + Repeat('0', n - |d|))[..n - k];
      d <= Appended(Appended(Appended(kept, Prefix(base, f)), "0"), sign) <==> k <= n - |d|
  {
    var kept := (d + Repeat('0', n - |d|))[..n - k];
    var h := Appended(Appended(kept, Prefix(base, f)), "0");
    if k <= n - |d| {
      PrefixOfLonger(d, kept, Prefix(base, f));
      PrefixOfLonger(d, Appended(kept, Prefix(base, f)), "0");
      PrefixOfLonger(d, h, sign);
    } else {
      LostDigit(d, kept, h, base, f);
      PrefixOfLonger(h, h, sign);
    }
  }

  lemma PrefixOfLonger(d: string, b: string, s: string)
    requires d <= b
    ensures d <= Appended(b, s)
  {
  }

  lemma LostDigit(d: string, kept: string, h: string, base: nat, f: Flags)
    requires 2 <= base <= 16 && DigitsBelow(d, base) && d != "" && d[|d| - 1] != '0'
    requires |kept| < |d| <= 32 && |kept| + 2 >= |d| && (base != 16 ==> |kept| + 1 == |d|)
    requires h == Appended(Appended(kept, Prefix(base, f)), "0")
    ensures |kept| < |h| && h[|kept|] != d[|kept|]
  {
  }

  /** %-.3d of 7 prints 7, where C11 asks for 007. */
  lemma LeftDropsZeros(f: Flags)
    requires f.left && f.precision && !f.hash && !f.plus && !f.space
    ensures Number(7, false, 10, 3, 0, f) == "7" && C11Field(7, false, 10, 3, 0, f) == "007"
  {
    assert LowDigits(7, 10, f.upper, 32) == "7";
    assert C11Digits(7, 10, 3, f) == "7";
    assert Repeat('0', 2) == "00";
  }

  /** %#2x of 0xab prints 0x. */
  lemma HashDropsAll(f: Flags)
    requires f.hash && !f.left && !f.zeropad && !f.plus && !f.space && !f.upper && !f.precision
    ensures Number(0xab, false, 16, 0, 2, f) == "0x"
  {
    assert LowDigits(0xab, 16, false, 32) == "ba";
  }
}
