/** Laws of the format language. */
module PrintfLaws {
  import opened Bits
  import opened PrintfOutput
  import opened PrintfNumbers
  import opened PrintfMeaning
  import opened PrintfFormat

  // ----- formats that follow one another

  function Longer(s: Scan, fmt: string, args: seq<Arg>): Scan {
    if s.Scan? then s.(rest := s.rest + fmt, args := s.args + args) else s
  }

  /** There is a specifier left to read. */
  predicate Open(s: Scan) {
    s.Scan? && s.rest != ""
  }

  lemma {:induction false} FlagFieldLonger(fmt: string, f: Flags, g: string)
    requires FlagField(fmt, f).1 != ""
    ensures FlagField(fmt + g, f) == (FlagField(fmt, f).0, FlagField(fmt, f).1 + g)
  {
    assert fmt != "" && (fmt + g)[0] == fmt[0];
    if IsFlag(fmt[0]) {
      assert (fmt + g)[1..] == fmt[1..] + g;
      FlagFieldLonger(fmt[1..], WithFlag(f, fmt[0]), g);
    }
  }

  lemma {:induction false} AtoiLonger(fmt: string, i: nat, g: string)
    requires Atoi(fmt, i).1 != ""
    ensures Atoi(fmt + g, i) == (Atoi(fmt, i).0, Atoi(fmt, i).1 + g)
  {
    assert fmt != "" && (fmt + g)[0] == fmt[0];
    if IsDigit(fmt[0]) {
      assert (fmt + g)[1..] == fmt[1..] + g;
      AtoiLonger(fmt[1..], Shift10(i, fmt[0]), g);
    }
  }

  lemma DropLonger<T>(s: seq<T>, t: seq<T>)
    requires s != []
    ensures (s + t)[0] == s[0] && (s + t)[1..] == s[1..] + t
  {
  }

  lemma WidthFieldLonger(s: Scan, g: string, b: seq<Arg>)
    requires Open(WidthField(s))
    ensures WidthField(Longer(s, g, b)) == Longer(WidthField(s), g, b)
  {
    DropLonger(s.rest, g);
    if IsDigit(At(s.rest)) {
      AtoiLonger(s.rest, 0, g);
    } else if At(s.rest) == '*' {
      DropLonger(s.args, b);
    }
  }

  lemma PrecisionFieldLonger(s: Scan, g: string, b: seq<Arg>)
    requires Open(PrecisionField(s))
    ensures PrecisionField(Longer(s, g, b)) == Longer(PrecisionField(s), g, b)
  {
    DropLonger(s.rest, g);
    if At(s.rest) == '.' {
      var rest := s.rest[1..];
      DropLonger(rest, g);
      if IsDigit(At(rest)) {
        AtoiLonger(rest, 0, g);
      } else if At(rest) == '*' {
        DropLonger(s.args, b);
      }
    }
  }

  lemma LengthFieldLonger(s: Scan, g: string, b: seq<Arg>)
    requires Open(LengthField(s))
    ensures LengthField(Longer(s, g, b)) == Longer(LengthField(s), g, b)
  {
    DropLonger(s.rest, g);
    if s.rest[1..] != "" { DropLonger(s.rest[1..], g); }
  }

  lemma ConvertLonger(s: Scan, g: string, b: seq<Arg>)
    requires Convert(s).Converted?
    ensures Convert(Longer(s, g, b)) == Converted(Convert(s).text, Convert(s).rest + g, Convert(s).args + b)
  {
    DropLonger(s.rest, g);
    if s.args != [] { DropLonger(s.args, b); }
  }

  lemma FieldsOpen(s: Scan)
    requires Open(LengthField(PrecisionField(WidthField(s))))
    ensures Open(PrecisionField(WidthField(s))) && Open(WidthField(s)) && Open(s)
  {
  }

  lemma ConversionLonger(fmt: string, args: seq<Arg>, g: string, b: seq<Arg>)
    requires Convert(Directive(fmt, args)).Converted?
    ensures var r := Convert(Directive(fmt, args));
      Convert(Directive(fmt + g, args + b)) == Converted(r.text, r.rest + g, r.args + b)
  {
    var (f, rest) := FlagField(fmt, NO_FLAGS);
    var s := Scan(f, 0, 0, rest, args);
    FieldsOpen(s);
    FlagFieldLonger(fmt, NO_FLAGS, g);
    WidthFieldLonger(s, g, b);
    PrecisionFieldLonger(WidthField(s), g, b);
    LengthFieldLonger(PrecisionField(WidthField(s)), g, b);
    assert Directive(fmt + g, args + b) == Longer(Directive(fmt, args), g, b);
    ConvertLonger(Directive(fmt, args), g, b);
  }

  /** The arguments a format leaves unread. */
  function Unread(fmt: string, args: seq<Arg>): seq<Arg>
    requires Format(fmt, args).Printed?
    decreases |fmt|
  {
    if fmt == "" then args
    else if fmt[0] != '%' then Unread(fmt[1..], args)
    else
      var r := Convert(Directive(fmt[1..], args));
      Unread(r.rest, r.args)
  }

  /** A format that is complete prints the same in front of any other format, which goes on with the
      arguments that are left. */
  lemma {:induction false} FormatsFollow(fmt: string, args: seq<Arg>, g: string, b: seq<Arg>)
    requires Format(fmt, args).Printed?
    ensures Format(fmt + g, args + b) == After(Format(fmt, args).text, Format(g, Unread(fmt, args) + b))
    decreases |fmt|
  {
    if fmt == "" {
      assert fmt + g == g;
      AfterNothing(Format(g, args + b));
    } else {
      DropLonger(fmt, g);
      if fmt[0] != '%' {
        FormatsFollow(fmt[1..], args, g, b);
        Chained([fmt[0]], Format(fmt[1..], args).text, Format(g, Unread(fmt, args) + b));
      } else {
        var r := Convert(Directive(fmt[1..], args));
        ConversionLonger(fmt[1..], args, g, b);
        FormatsFollow(r.rest, r.args, g, b);
        Chained(r.text, Format(r.rest, r.args).text, Format(g, Unread(fmt, args) + b));
      }
    }
  }

  lemma AfterNothing(o: Output)
    ensures After("", o) == o
  {
    if o.Printed? { assert "" + o.text == o.text; }
  }

  lemma Chained(s: string, t: string, o: Output)
    ensures After(s, After(t, o)) == After(s + t, o)
  {
    if o.Printed? { assert s + (t + o.text) == s + t + o.text; }
  }

  /** A text in which every % is doubled. */
  function Escape(t: string): string {
    if t == "" then "" else (if t[0] == '%' then [t[0], t[0]] else [t[0]]) + Escape(t[1..])
  }

  /** Any text can be printed. */
  lemma {:induction false} EscapedPrints(t: string, args: seq<Arg>)
    ensures Format(Escape(t), args) == Printed(t)
  {
    if t != "" {
      EscapedPrints(t[1..], args);
      EscapedFirst(t[0], Escape(t[1..]), args, t[1..]);
      assert [t[0]] + t[1..] == t;
    }
  }

  lemma EscapedFirst(c: char, rest: string, args: seq<Arg>, t: string)
    requires Format(rest, args) == Printed(t)
    ensures Format((if c == '%' then [c, c] else [c]) + rest, args) == Printed([c] + t)
  {
    if c == '%' { PercentFirst(c, rest, args, t); } else { PlainFirst(c, rest, args, t); }
  }

  lemma PlainFirst(c: char, rest: string, args: seq<Arg>, t: string)
    requires c != '%' && Format(rest, args) == Printed(t)
    ensures Format([c] + rest, args) == Printed([c] + t)
  {
    var f := [c] + rest;
    assert f[0] == c && f[1..] == rest;
  }

  lemma PercentFirst(c: char, rest: string, args: seq<Arg>, t: string)
    requires c == '%' && Format(rest, args) == Printed(t)
    ensures Format([c, c] + rest, args) == Printed([c] + t)
  {
    var f := [c, c] + rest;
    assert f[0] == c && f[1..] == [c] + rest;
    PercentDirective(c, rest, args);
  }

  lemma PercentDirective(c: char, rest: string, args: seq<Arg>)
    requires c == '%'
    ensures Convert(Directive([c] + rest, args)) == Converted([c], rest, args)
  {
    assert ([c] + rest)[1..] == rest;
    assert Directive([c] + rest, args) == Scan(NO_FLAGS, 0, 0, [c] + rest, args);
  }

  // ----- numbers in formats

  lemma AtoiStep(i: nat, c: char, j: nat)
    requires IsDigit(c) && i == j % 0x1_0000_0000
    ensures Shift10(i, c) == (j * 10 + DigitOf(c)) % 0x1_0000_0000
  {
    var q := j / 0x1_0000_0000;
    assert j * 10 + DigitOf(c) == i * 10 + DigitOf(c) + q * 10 * 0x1_0000_0000;
    SameRest(i * 10 + DigitOf(c), q * 10, 0x1_0000_0000);
  }

  lemma SameRest(x: nat, k: nat, m: nat)
    requires m > 0
    ensures (x + k * m) % m == x % m
  {
    QuotientUnique(x + k * m, m, x / m + k, x % m);
  }

  lemma {:induction false} AtoiReads(d: string, rest: string, i: nat, j: nat)
    requires (forall k :: 0 <= k < |d| ==> IsDigit(d[k])) && !IsDigit(At(rest)) && i == j % 0x1_0000_0000
    ensures Atoi(d + rest, i) == (ReadDigits(d, 10, j) % 0x1_0000_0000, rest)
  {
    if d == "" {
      assert d + rest == rest;
    } else {
      DropLonger(d, rest);
      AtoiStep(i, d[0], j);
      AtoiReads(d[1..], rest, Shift10(i, d[0]), j * 10 + DigitOf(d[0]));
    }
  }

  lemma {:induction false} DecimalsAreDigits(v: nat, upper: bool)
    ensures forall k :: 0 <= k < |Digits(v, 10, upper)| ==> IsDigit(Digits(v, 10, upper)[k])
  {
    if Quotient(v, 10) != 0 { DecimalsAreDigits(Quotient(v, 10), upper); }
  }

  /** _atoi reads any number printed in decimal, modulo 2 to the 32, and stops behind it. */
  lemma AtoiInverts(v: nat, rest: string)
    requires v < 0x1_0000_0000_0000_0000 && !IsDigit(At(rest))
    ensures Atoi(Number(v, false, 10, 0, 0, NO_FLAGS) + rest, 0) == (v % 0x1_0000_0000, rest)
  {
    PlainNumber(v);
    DecimalsAreDigits(v, false);
    AtoiReads(Digits(v, 10, false), rest, 0, 0);
  }

  lemma PlainNumber(v: nat)
    requires v < 0x1_0000_0000_0000_0000
    ensures Number(v, false, 10, 0, 0, NO_FLAGS) == Digits(v, 10, false)
    ensures ReadDigits(Digits(v, 10, false), 10, 0) == v
  {
    SixtyFourBits(v, 10, false);
    NumberInRows(v, false, 10, 0, 0, NO_FLAGS);
    ScratchValue(v, 10, NO_FLAGS);
    ScratchIsLast(v, 10, NO_FLAGS);
    Unreduced(v, Modulus(10));
    LeftRow("", 0, Digits(v, 10, false), 0);
  }

  /** A width given as * and an argument is the width written out. */
  lemma StarIsWidth(f: Flags, prec: nat, w: Word, rest: string, args: seq<Arg>)
    requires w < 0x8000_0000 && !IsDigit(At(rest))
    ensures WidthField(Scan(f, 0, prec, "*" + rest, [Integer(w)] + args)) ==
      WidthField(Scan(f, 0, prec, Number(w, false, 10, 0, 0, NO_FLAGS) + rest, args))
  {
    AtoiInverts(w, rest);
    PlainNumber(w);
    DecimalsAreDigits(w, false);
    StarReads(f, prec, w, rest, args);
  }

  lemma StarReads(f: Flags, prec: nat, w: Word, rest: string, args: seq<Arg>)
    requires w < 0x8000_0000
    ensures WidthField(Scan(f, 0, prec, "*" + rest, [Integer(w)] + args)) == Scan(f, w, prec, rest, args)
  {
    assert ("*" + rest)[1..] == rest && ([Integer(w)] + args)[1..] == args;
  }

  // ----- what the specifiers print

  /** %d, %i, %u, %x, %X, %o and %b without # print as C11 asks exactly when the scratch buffer has room and
      the - flag drops no precision. */
  lemma IntegerPrintsAsC11(w: Word, c: char, width: nat, prec: nat, f: Flags)
    requires IsInteger(c) && !f.hash && (!f.precision ==> prec == 0)
    ensures var g := IntegerFlags(f, c);
      var v := if c == 'd' || c == 'i' then SignedArg(w, g) else UnsignedArg(w, g);
      IntegerText(w, c, width, prec, f) == C11Field(Magnitude(v), v < 0, BaseOf(c), prec, width, g)
      <==> Fits(Magnitude(v), v < 0, BaseOf(c), prec, width, g)
  {
    var g := IntegerFlags(f, c);
    var v := if c == 'd' || c == 'i' then SignedArg(w, g) else UnsignedArg(w, g);
    PrintsAsC11(Magnitude(v), v < 0, BaseOf(c), prec, width, g);
  }

  /** ... and in octal, decimal and hexadecimal the value reads back. */
  lemma IntegerReadsBack(w: Word, c: char, width: nat, prec: nat, f: Flags)
    requires IsInteger(c) && c != 'b' && !f.hash && prec < 32 && (f.zeropad ==> width <= 32)
    ensures var g := IntegerFlags(f, c);
      ReadInteger(IntegerText(w, c, width, prec, f), BaseOf(c)) ==
        if c == 'd' || c == 'i' then SignedArg(w, g) else UnsignedArg(w, g)
  {
    var g := IntegerFlags(f, c);
    if c == 'd' || c == 'i' {
      ValueReadsBack(SignedArg(w, g), BaseOf(c), prec, width, g);
    } else {
      ValueReadsBack(UnsignedArg(w, g), BaseOf(c), prec, width, g);
    }
  }

  lemma ValueReadsBack(v: int, base: nat, prec: nat, width: nat, f: Flags)
    requires -0x8000_0000_0000_0000 <= v < 0x1_0000_0000_0000_0000 && (base == 8 || base == 10 || base == 16)
    requires !f.hash && prec < 32 && (f.zeropad ==> width <= 32)
    ensures ReadInteger(Number(Magnitude(v), v < 0, base, prec, width, f), base) == v
  {
    RoundTrip(Magnitude(v), v < 0, base, prec, width, f);
  }

  /** The length of %d, %i, %u, %x, %X and %o. */
  lemma IntegerLength(w: Word, c: char, width: nat, prec: nat, f: Flags)
    requires IsInteger(c) && c != 'b' && !f.hash && prec < 32 && (f.zeropad ==> width <= 32)
    ensures var g := IntegerFlags(f, c);
      var v := if c == 'd' || c == 'i' then SignedArg(w, g) else UnsignedArg(w, g);
      var d := |OwnDigits(Magnitude(v), BaseOf(c), g)|;
      |IntegerText(w, c, width, prec, f)| ==
        Max(width, |SignText(v < 0, g)| + if f.left then d else Max(d, prec))
  {
    var g := IntegerFlags(f, c);
    var v := if c == 'd' || c == 'i' then SignedArg(w, g) else UnsignedArg(w, g);
    IntegerIsNumber(w, c, width, prec, f);
    NumberLengthOf(Magnitude(v), v < 0, BaseOf(c), width, prec, g);
  }

  lemma NumberLengthOf(v: nat, negative: bool, base: nat, width: nat, prec: nat, g: Flags)
    requires v < WORD && (base == 8 || base == 10 || base == 16)
    requires !g.hash && prec < 32 && (g.zeropad ==> width <= 32)
    ensures var d := |OwnDigits(v, base, g)|;
      |Number(v, negative, base, prec, width, g)| ==
        Max(width, |SignText(negative, g)| + if g.left then d else Max(d, prec))
  {
    SixtyFourBits(v, base, g.upper);
    NumberLength(v, negative, base, prec, width, g);
  }

  lemma IntegerIsNumber(w: Word, c: char, width: nat, prec: nat, f: Flags)
    ensures var g := IntegerFlags(f, c);
      var v := if c == 'd' || c == 'i' then SignedArg(w, g) else UnsignedArg(w, g);
      IntegerText(w, c, width, prec, f) == Number(Magnitude(v), v < 0, BaseOf(c), prec, width, g)
  {
  }

  /** %s prints as much of the string as the precision lets through, padded to the width. */
  lemma StringLength(s: CString, width: nat, prec: nat, f: Flags)
    requires |s| < 0x1_0000_0000 && (!f.precision ==> prec == 0)
    ensures |StringText(s, width, prec, f)| == Max(width, if f.precision then Min(|s|, prec) else |s|)
    ensures Shown(s, prec, f) <= s
    ensures StringText(s, width, prec, f) ==
      if f.left then Shown(s, prec, f) + Repeat(' ', Gap(|Shown(s, prec, f)|, width))
      else Repeat(' ', Gap(|Shown(s, prec, f)|, width)) + Shown(s, prec, f)
  {
    var t := Shown(s, prec, f);
    assert ShownLength(s, prec, f) == |t|;
    assert Repeat(' ', 0) + t == t;
    assert Repeat(' ', Gap(|t|, width)) + t + Repeat(' ', 0) == Repeat(' ', Gap(|t|, width)) + t;
  }
}
