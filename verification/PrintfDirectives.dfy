/** What a conversion prints, from its text on: the directives of section 7.21.6.1 of C11, as _vsnprintf
    (fckrnl/libk/kprintf/kprintf.c) reads them. */
module PrintfDirectives {
  import opened Bits
  import opened PrintfOutput
  import opened PrintfNumbers
  import opened PrintfMeaning
  import opened PrintfFormat
  import opened PrintfLaws

  // ----- directives and their meaning, in the terms of C11

  /** A precision is a period and a number, or a period alone, which is 0. */
  datatype Precision = Absent | Period | Given(value: nat)

  /** %, flags, width (0 is none), precision, length modifier, specifier. */
  datatype Spec = Spec(flags: string, width: nat, precision: Precision, length: string, conv: char)

  /** The numeral of v, the greatest digit first. */
  function Numeral(v: nat, base: nat, upper: bool): (r: string)
    requires 2 <= base <= 16
    ensures r != ""
    decreases v
  {
    QuotientSmaller(v, base);
    (if v < base then "" else Numeral(v / base, base, upper)) +
    [(if upper then "0123456789ABCDEF" else "0123456789abcdef")[v % base]]
  }

  lemma QuotientSmaller(v: nat, base: nat)
    requires 2 <= base
    ensures v >= base ==> v / base < v
    ensures v % base < base
  {
    CountingIsDivision(v, base);
  }

  function Written(d: Spec): string {
    "%" + d.flags + WidthText(d) + PrecisionText(d) + d.length + [d.conv]
  }

  function WidthText(d: Spec): string {
    if d.width == 0 then "" else Numeral(d.width, 10, false)
  }

  function PrecisionText(d: Spec): string {
    match d.precision
    case Absent => ""
    case Period => "."
    case Given(n) => "." + Numeral(n, 10, false)
  }

  /** The sizes of the integer types, on x86-64. */
  function Range(length: string): nat {
    if length == "hh" then 0x100 else if length == "h" then 0x1_0000 else if length == "" then 0x1_0000_0000
    else 0x1_0000_0000_0000_0000
  }

  predicate IsLength(length: string) {
    length == "" || length == "hh" || length == "h" || length == "l" || length == "ll" || length == "j" || length == "z"
    || length == "t"
  }

  /** The argument in a type of so many values, in two's complement when it is signed. */
  function Value(w: Word, range: nat, signed: bool): int
    requires 0 < range
  {
    var m := w % range;
    if signed && 2 * m >= range then m - range else m
  }

  predicate IsSigned(conv: char) {
    conv == 'd' || conv == 'i'
  }

  function Radix(conv: char): (b: nat)
    ensures 2 <= b <= 16
  {
    if conv == 'o' then 8 else if conv == 'x' || conv == 'X' then 16 else if conv == 'b' then 2 else 10
  }

  predicate IsFlagText(t: string, allowed: string) {
    forall i :: 0 <= i < |t| ==> t[i] in allowed
  }

  predicate SpecOk(d: Spec, allowed: string) {
    && IsFlagText(d.flags, allowed) && IsLength(d.length)
    && d.width < 0x1_0000_0000 && (d.precision.Given? ==> d.precision.value < 0x1_0000_0000)
  }

  function AtLeast(d: Spec): nat {
    if d.precision.Given? then d.precision.value else 0
  }

  /** No character for 0 with precision 0. */
  function DigitsOf(d: Spec, v: int): string {
    if v == 0 && !d.precision.Absent? && AtLeast(d) == 0 then ""
    else Numeral(if v < 0 then -v else v, Radix(d.conv), d.conv == 'X')
  }

  function SignOf(d: Spec, v: int): string {
    if v < 0 then "-"
    else if !IsSigned(d.conv) then ""
    else if '+' in d.flags then "+" else if ' ' in d.flags then " " else ""
  }

  /** At least as many digits as the precision, a sign, and padding to the width: behind it with the - flag, as
      zeros with the 0 flag and no precision, before it otherwise. */
  function C11Text(d: Spec, v: int): string {
    var digits, sign := DigitsOf(d, v), SignOf(d, v);
    var body := Repeat('0', Gap(|digits|, AtLeast(d))) + digits;
    Padded(d, sign, body)
  }

  function Padded(d: Spec, sign: string, body: string): string {
    PadWith('-' in d.flags, '0' in d.flags && d.precision.Absent?, d.width, sign, body)
  }

  function PadWith(left: bool, zeros: bool, width: nat, sign: string, body: string): string {
    var pad := Gap(|sign| + |body|, width);
    if left then sign + body + Repeat(' ', pad)
    else if zeros then sign + Repeat('0', pad) + body
    else Repeat(' ', pad) + sign + body
  }

  /** The scratch buffer of 32 characters has room for the digits, the zeros and the sign, and the - flag drops no
      zeros of the precision. */
  predicate HasRoom(d: Spec, v: int) {
    var p, sign := AtLeast(d), SignOf(d, v);
    var n := if v == 0 && !d.precision.Absent? then 0 else |DigitsOf(d, v)|;
    && n <= 32 && p <= 32 && ('-' in d.flags ==> p <= n)
    && ('0' in d.flags && '-' !in d.flags && d.precision.Absent? ==> d.width <= 32)
    && ((n == 32 || p == 32) && sign != "" ==>
          sign == " " && d.width > 32 && '-' !in d.flags && !('0' in d.flags && d.precision.Absent?))
  }

  // ----- numerals

  lemma DigitIs(d: nat, upper: bool)
    requires d < 16
    ensures DigitChar(d, upper) == (if upper then "0123456789ABCDEF" else "0123456789abcdef")[d]
  {
  }

  lemma {:induction false} NumeralIsDigits(v: nat, base: nat, upper: bool)
    requires 2 <= base <= 16
    ensures Numeral(v, base, upper) == Digits(v, base, upper)
    decreases v
  {
    CountingIsDivision(v, base);
    QuotientSmaller(v, base);
    DigitIs(v % base, upper);
    if v >= base { NumeralIsDigits(v / base, base, upper); }
  }

  /** The first digit is not 0, but for 0 itself. */
  lemma {:induction false} FirstDigit(v: nat)
    ensures IsDigit(Numeral(v, 10, false)[0]) && (v > 0 ==> Numeral(v, 10, false)[0] != '0')
    decreases v
  {
    if v >= 10 { FirstDigit(v / 10); }
  }

  /** _atoi reads a width or a precision. */
  lemma NumeralReads(v: nat, rest: string)
    requires v < 0x1_0000_0000 && !IsDigit(At(rest))
    ensures Atoi(Numeral(v, 10, false) + rest, 0) == (v, rest)
  {
    NumeralIsDigits(v, 10, false);
    PlainNumber(v);
    DecimalsAreDigits(v, false);
    DecimalReads(Digits(v, 10, false), v, rest);
  }

  lemma DecimalReads(d: string, v: nat, rest: string)
    requires (forall k :: 0 <= k < |d| ==> IsDigit(d[k])) && ReadDigits(d, 10, 0) == v < 0x1_0000_0000
    requires !IsDigit(At(rest))
    ensures Atoi(d + rest, 0) == (v, rest)
  {
    AtoiReads(d, rest, 0, 0);
    Unreduced(v, 0x1_0000_0000);
  }

  // ----- the fields of a directive

  function Flagged(f: Flags, t: string): Flags {
    f.(zeropad := f.zeropad || '0' in t, left := f.left || '-' in t, plus := f.plus || '+' in t,
       space := f.space || ' ' in t, hash := f.hash || '#' in t)
  }

  lemma {:induction false} FlagsRead(t: string, f: Flags, rest: string)
    requires IsFlagText(t, "-+ 0#") && !IsFlag(At(rest))
    ensures FlagField(t + rest, f) == (Flagged(f, t), rest)
    decreases |t|
  {
    if t == "" {
      assert t + rest == rest;
    } else {
      DropLonger(t, rest);
      FlagsRead(t[1..], WithFlag(f, t[0]), rest);
      assert t == [t[0]] + t[1..];
      OneFlag(f, t[0], t[1..]);
    }
  }

  lemma OneFlag(f: Flags, c: char, t: string)
    requires IsFlag(c)
    ensures Flagged(WithFlag(f, c), t) == Flagged(f, [c] + t)
  {
    InLonger('0', c, t);
    InLonger('-', c, t);
    InLonger('+', c, t);
    InLonger(' ', c, t);
    InLonger('#', c, t);
    FlagJoins(f, c, t);
  }

  lemma InLonger(x: char, c: char, t: string)
    ensures x in [c] + t <==> x == c || x in t
  {
  }

  lemma FlagJoins(f: Flags, c: char, t: string)
    requires IsFlag(c)
    ensures Flagged(WithFlag(f, c), t) ==
      f.(zeropad := (f.zeropad || c == '0') || '0' in t, left := (f.left || c == '-') || '-' in t,
         plus := (f.plus || c == '+') || '+' in t, space := (f.space || c == ' ') || ' ' in t,
         hash := (f.hash || c == '#') || '#' in t)
  {
    SetFlag(f, c, c == '0', c == '-', c == '+', c == ' ', c == '#');
  }

  lemma SetFlag(f: Flags, c: char, z: bool, l: bool, p: bool, s: bool, h: bool)
    requires IsFlag(c) && z == (c == '0') && l == (c == '-') && p == (c == '+') && s == (c == ' ') && h == (c == '#')
    ensures WithFlag(f, c) ==
      f.(zeropad := f.zeropad || z, left := f.left || l, plus := f.plus || p, space := f.space || s, hash := f.hash || h)
  {
  }

  /** What follows the width: no digit, no flag, no star. */
  predicate Ends(rest: string) {
    rest != "" && !IsDigit(rest[0]) && !IsFlag(rest[0]) && rest[0] != '*'
  }

  lemma WidthRead(f: Flags, d: Spec, rest: string, args: seq<Arg>)
    requires d.width < 0x1_0000_0000 && Ends(rest)
    ensures !IsFlag(At(WidthText(d) + rest))
    ensures WidthField(Scan(f, 0, 0, WidthText(d) + rest, args)) == Scan(f, d.width, 0, rest, args)
  {
    if d.width == 0 {
      assert "" + rest == rest;
    } else {
      FirstDigit(d.width);
      NumeralReads(d.width, rest);
      DropLonger(WidthText(d), rest);
    }
  }

  lemma PrecisionRead(f: Flags, d: Spec, rest: string, args: seq<Arg>)
    requires (d.precision.Given? ==> d.precision.value < 0x1_0000_0000) && Ends(rest) && rest[0] != '.'
    ensures Ends(PrecisionText(d) + rest)
    ensures PrecisionField(Scan(f, d.width, 0, PrecisionText(d) + rest, args)) ==
      Scan(f.(precision := f.precision || !d.precision.Absent?), d.width, AtLeast(d), rest, args)
  {
    if d.precision.Absent? {
      assert "" + rest == rest;
    } else if d.precision.Period? {
      DropLonger(".", rest);
    } else {
      var digits := Numeral(d.precision.value, 10, false);
      FirstDigit(d.precision.value);
      NumeralReads(d.precision.value, rest);
      assert PrecisionText(d) + rest == "." + (digits + rest);
      assert (PrecisionText(d) + rest)[1..] == digits + rest;
      DropLonger(digits, rest);
    }
  }

  function Sized(f: Flags, length: string): Flags {
    f.(isChar := length == "hh", isShort := length == "hh" || length == "h",
       isLong := length == "l" || length == "ll" || length == "j" || length == "z" || length == "t",
       isLongLong := length == "ll")
  }

  predicate Unsized(f: Flags) {
    !f.isChar && !f.isShort && !f.isLong && !f.isLongLong
  }

  lemma SetSize(f: Flags, length: string, ch: bool, sh: bool, lo: bool, ll: bool)
    requires ch == (length == "hh") && sh == (length == "hh" || length == "h") && ll == (length == "ll")
    requires lo == (length == "l" || length == "ll" || length == "j" || length == "z" || length == "t")
    ensures Sized(f, length) == f.(isChar := ch, isShort := sh, isLong := lo, isLongLong := ll)
  {
  }

  /** A character that ends a directive: it starts none of the other fields. */
  predicate IsSpecifier(c: char) {
    c !in "-+ 0#" && c !in "123456789" && c != '.' && c != '*' && c !in "hljzt"
  }

  lemma LengthRead(f: Flags, width: nat, prec: nat, length: string, conv: char, args: seq<Arg>)
    requires IsLength(length) && IsSpecifier(conv) && Unsized(f)
    ensures Ends(length + [conv]) && (length + [conv])[0] != '.'
    ensures LengthField(Scan(f, width, prec, length + [conv], args)) == Scan(Sized(f, length), width, prec, [conv], args)
  {
    if length == "" {
      NoLength(f, width, prec, conv, args);
    } else if |length| == 1 {
      OneLetter(f, width, prec, length, conv, args);
    } else {
      TwoLetters(f, width, prec, length, conv, args);
    }
  }

  lemma NoLength(f: Flags, width: nat, prec: nat, conv: char, args: seq<Arg>)
    requires IsSpecifier(conv) && Unsized(f)
    ensures Ends("" + [conv]) && ("" + [conv])[0] != '.'
    ensures LengthField(Scan(f, width, prec, "" + [conv], args)) == Scan(Sized(f, ""), width, prec, [conv], args)
  {
    assert "" + [conv] == [conv];
    SetSize(f, "", false, false, false, false);
  }

  lemma OneLetter(f: Flags, width: nat, prec: nat, length: string, conv: char, args: seq<Arg>)
    requires IsLength(length) && |length| == 1 && IsSpecifier(conv) && Unsized(f)
    ensures Ends(length + [conv]) && (length + [conv])[0] != '.'
    ensures LengthField(Scan(f, width, prec, length + [conv], args)) == Scan(Sized(f, length), width, prec, [conv], args)
  {
    var rest := length + [conv];
    assert rest[0] == length[0] && rest[1..] == [conv];
    SetSize(f, length, false, length == "h", length != "h", false);
  }

  lemma TwoLetters(f: Flags, width: nat, prec: nat, length: string, conv: char, args: seq<Arg>)
    requires (length == "hh" || length == "ll") && IsSpecifier(conv) && Unsized(f)
    ensures Ends(length + [conv]) && (length + [conv])[0] != '.'
    ensures LengthField(Scan(f, width, prec, length + [conv], args)) == Scan(Sized(f, length), width, prec, [conv], args)
  {
    var c, rest := length[0], length + [conv];
    DropLonger(length, [conv]);
    DropLonger(length[1..], [conv]);
    SetSize(f, length, length == "hh", length == "hh", length == "ll", length == "ll");
    if length == "hh" {
      DoubleH(f, width, prec, rest, [conv], args);
    } else {
      DoubleL(f, width, prec, rest, [conv], args);
    }
  }

  lemma DoubleH(f: Flags, width: nat, prec: nat, rest: string, after: string, args: seq<Arg>)
    requires |rest| >= 2 && rest[0] == 'h' && rest[1] == 'h' && rest[1..][1..] == after && Unsized(f)
    ensures LengthField(Scan(f, width, prec, rest, args)) == Scan(f.(isShort := true, isChar := true), width, prec, after, args)
  {
  }

  lemma DoubleL(f: Flags, width: nat, prec: nat, rest: string, after: string, args: seq<Arg>)
    requires |rest| >= 2 && rest[0] == 'l' && rest[1] == 'l' && rest[1..][1..] == after && Unsized(f)
    ensures LengthField(Scan(f, width, prec, rest, args)) == Scan(f.(isLong := true, isLongLong := true), width, prec, after, args)
  {
  }

  /** The flags after the whole directive. */
  function Parsed(d: Spec): Flags {
    Sized(Flagged(NO_FLAGS, d.flags).(precision := !d.precision.Absent?), d.length)
  }

  lemma DirectiveRead(d: Spec, args: seq<Arg>)
    requires SpecOk(d, "-+ 0#") && IsSpecifier(d.conv)
    ensures Directive(Written(d)[1..], args) == Scan(Parsed(d), d.width, AtLeast(d), [d.conv], args)
  {
    var tail := d.length + [d.conv];
    var f := Flagged(NO_FLAGS, d.flags);
    var rest := WidthText(d) + (PrecisionText(d) + tail);
    LengthRead(f.(precision := !d.precision.Absent?), d.width, AtLeast(d), d.length, d.conv, args);
    PrecisionRead(f, d, tail, args);
    WidthRead(f, d, PrecisionText(d) + tail, args);
    FlagsRead(d.flags, NO_FLAGS, rest);
    WrittenParts(d.flags, WidthText(d), PrecisionText(d), d.length, [d.conv]);
    DirectiveSteps(d.flags + rest, args, f, rest);
  }

  lemma WrittenParts(a: string, b: string, c: string, d: string, e: string)
    ensures ("%" + a + b + c + d + e)[0] == '%'
    ensures ("%" + a + b + c + d + e)[1..] == a + (b + (c + (d + e)))
  {
    assert a + b + c + d + e == a + (b + (c + (d + e)));
    assert "%" + a + b + c + d + e == "%" + (a + b + c + d + e);
  }

  lemma DirectiveSteps(fmt: string, args: seq<Arg>, f: Flags, rest: string)
    requires FlagField(fmt, NO_FLAGS) == (f, rest)
    ensures Directive(fmt, args) == LengthField(PrecisionField(WidthField(Scan(f, 0, 0, rest, args))))
  {
  }

  lemma EndsDirective(c: char)
    requires TakesArgument(c)
    ensures IsSpecifier(c)
  {
  }

  /** A directive on its own. */
  lemma OneDirective(d: Spec, arg: Arg)
    requires SpecOk(d, "-+ 0#") && TakesArgument(d.conv) && Matches(arg, d.conv)
    ensures Format(Written(d), [arg]) == Printed(ArgumentText(arg, d.conv, d.width, AtLeast(d), Parsed(d)))
  {
    EndsDirective(d.conv);
    DirectiveRead(d, [arg]);
    var text := ArgumentText(arg, d.conv, d.width, AtLeast(d), Parsed(d));
    WrittenParts(d.flags, WidthText(d), PrecisionText(d), d.length, [d.conv]);
    assert [d.conv][1..] == "" && [arg][1..] == [];
    assert Convert(Directive(Written(d)[1..], [arg])) == Converted(text, "", []);
    assert text + "" == text;
  }

  lemma OneInteger(d: Spec, w: Word)
    requires SpecOk(d, "-+ 0#") && IsInteger(d.conv)
    ensures Format(Written(d), [Integer(w)]) == Printed(IntegerText(w, d.conv, d.width, AtLeast(d), Parsed(d)))
  {
    OneDirective(d, Integer(w));
  }

  // ----- integers

  predicate TellsSize(g: Flags, length: string) {
    && g.isChar == (length == "hh") && g.isShort == (length == "hh" || length == "h")
    && g.isLong == (length == "l" || length == "ll" || length == "j" || length == "z" || length == "t")
    && g.isLongLong == (length == "ll")
  }

  lemma SignedValue(w: Word, length: string, g: Flags)
    requires IsLength(length) && TellsSize(g, length)
    ensures SignedArg(w, g) == Value(w, Range(length), true)
  {
  }

  lemma UnsignedValue(w: Word, length: string, g: Flags)
    requires IsLength(length) && TellsSize(g, length)
    ensures UnsignedArg(w, g) == Value(w, Range(length), false)
  {
  }

  lemma SizesTell(f: Flags, length: string)
    requires IsLength(length)
    ensures TellsSize(Sized(f, length), length)
  {
  }

  lemma IntegerSize(f: Flags, c: char, length: string)
    requires TellsSize(f, length)
    ensures TellsSize(IntegerFlags(f, c), length)
  {
  }

  /** What the code knows of the directive. */
  predicate Tells(g: Flags, d: Spec) {
    && g.left == ('-' in d.flags) && g.precision == !d.precision.Absent? && g.upper == (d.conv == 'X') && !g.hash
    && g.zeropad == ('0' in d.flags && d.precision.Absent?)
    && g.plus == ('+' in d.flags && IsSigned(d.conv)) && g.space == (' ' in d.flags && IsSigned(d.conv))
  }

  lemma FlagsTell(d: Spec)
    requires SpecOk(d, "-+ 0") && IsInteger(d.conv)
    ensures Tells(IntegerFlags(Parsed(d), d.conv), d) && !Parsed(d).hash && Parsed(d).precision == !d.precision.Absent?
  {
    assert '#' !in d.flags;
  }

  lemma SameDigits(d: Spec, v: int, g: Flags)
    requires Tells(g, d) && IsInteger(d.conv)
    ensures BaseOf(d.conv) == Radix(d.conv)
    ensures C11Digits(Magnitude(v), BaseOf(d.conv), AtLeast(d), g) == DigitsOf(d, v)
    ensures |OwnDigits(Magnitude(v), BaseOf(d.conv), g)| == if v == 0 && !d.precision.Absent? then 0 else |DigitsOf(d, v)|
  {
    NumeralIsDigits(Magnitude(v), Radix(d.conv), d.conv == 'X');
  }

  lemma SameSign(d: Spec, v: int, g: Flags)
    requires Tells(g, d) && (v < 0 ==> IsSigned(d.conv))
    ensures SignText(v < 0, g) == SignOf(d, v)
  {
  }

  lemma SameField(d: Spec, v: int, g: Flags)
    requires Tells(g, d) && IsInteger(d.conv) && (v < 0 ==> IsSigned(d.conv))
    ensures C11Field(Magnitude(v), v < 0, BaseOf(d.conv), AtLeast(d), d.width, g) == C11Text(d, v)
  {
    SameDigits(d, v, g);
    SameSign(d, v, g);
  }

  lemma SameRoom(d: Spec, v: int, g: Flags)
    requires Tells(g, d) && IsInteger(d.conv) && (v < 0 ==> IsSigned(d.conv))
    ensures Fits(Magnitude(v), v < 0, BaseOf(d.conv), AtLeast(d), d.width, g) <==> HasRoom(d, v)
  {
    SameDigits(d, v, g);
    SameSign(d, v, g);
  }

  lemma SameValue(d: Spec, w: Word)
    requires IsLength(d.length) && IsInteger(d.conv)
    ensures var g := IntegerFlags(Parsed(d), d.conv);
      (if IsSigned(d.conv) then SignedArg(w, g) else UnsignedArg(w, g)) == Value(w, Range(d.length), IsSigned(d.conv))
  {
    SizesTell(Flagged(NO_FLAGS, d.flags).(precision := !d.precision.Absent?), d.length);
    IntegerSize(Parsed(d), d.conv, d.length);
    ValueOf(w, d.conv, d.length, IntegerFlags(Parsed(d), d.conv));
  }

  lemma ValueOf(w: Word, c: char, length: string, g: Flags)
    requires IsLength(length) && TellsSize(g, length)
    ensures (if IsSigned(c) then SignedArg(w, g) else UnsignedArg(w, g)) == Value(w, Range(length), IsSigned(c))
  {
    if IsSigned(c) { SignedValue(w, length, g); } else { UnsignedValue(w, length, g); }
  }

  /** ... once the fields are read. */
  lemma IntegerAsC11(d: Spec, w: Word, v: int, f: Flags)
    requires IsInteger(d.conv) && Tells(IntegerFlags(f, d.conv), d) && !f.hash && f.precision == !d.precision.Absent?
    requires v == (if IsSigned(d.conv) then SignedArg(w, IntegerFlags(f, d.conv)) else UnsignedArg(w, IntegerFlags(f, d.conv)))
    ensures IntegerText(w, d.conv, d.width, AtLeast(d), f) == C11Text(d, v) <==> HasRoom(d, v)
  {
    var g := IntegerFlags(f, d.conv);
    IntegerPrintsAsC11(w, d.conv, d.width, AtLeast(d), f);
    SameField(d, v, g);
    SameRoom(d, v, g);
  }

  /** The text of an integer directive is what C11 asks for exactly when it has room in the scratch buffer, for
      every set of flags but #, every width, precision and length modifier, and every argument. */
  lemma DirectivePrintsAsC11(d: Spec, w: Word)
    requires SpecOk(d, "-+ 0") && (d.conv in "diuoxXb")
    ensures var v := Value(w, Range(d.length), IsSigned(d.conv));
      Format(Written(d), [Integer(w)]) == Printed(C11Text(d, v)) <==> HasRoom(d, v)
  {
    IntegerDirective(d, w, Value(w, Range(d.length), IsSigned(d.conv)));
  }

  lemma IntegerDirective(d: Spec, w: Word, v: int)
    requires SpecOk(d, "-+ 0") && IsInteger(d.conv) && v == Value(w, Range(d.length), IsSigned(d.conv))
    ensures Format(Written(d), [Integer(w)]) == Printed(C11Text(d, v)) <==> HasRoom(d, v)
  {
    MoreFlags(d.flags);
    OneInteger(d, w);
    FlagsTell(d);
    SameValue(d, w);
    IntegerAsC11(d, w, v, Parsed(d));
  }

  lemma MoreFlags(t: string)
    requires IsFlagText(t, "-+ 0")
    ensures IsFlagText(t, "-+ 0#") && '#' !in t
  {
  }
}
