/** The other directives as texts: characters, strings and pointers, the # flag, and widths and precisions that
    are arguments (fckrnl/libk/kprintf/kprintf.c). */
module PrintfArguments {
  import opened Bits
  import opened PrintfOutput
  import opened PrintfNumbers
  import opened PrintfMeaning
  import opened PrintfFormat
  import opened PrintfLaws
  import opened PrintfDirectives

  // ----- characters, strings and pointers

  /** Spaces up to the width, behind the text with the - flag. */
  function Spaced(left: bool, t: string, width: nat): string {
    if left then t + Repeat(' ', Gap(|t|, width)) else Repeat(' ', Gap(|t|, width)) + t
  }

  lemma SpacedIsPadded(left: bool, t: string, width: nat)
    ensures PaddedText(t, |t|, width, left) == Spaced(left, t, width)
  {
    assert Repeat(' ', 0) + t == t;
    assert Repeat(' ', Gap(|t|, width)) + t + Repeat(' ', 0) == Repeat(' ', Gap(|t|, width)) + t;
  }

  lemma LeftTells(d: Spec)
    ensures Parsed(d).left == ('-' in d.flags) && Parsed(d).precision == !d.precision.Absent?
  {
  }

  /** %c prints the argument as an unsigned char, whatever the other flags, the precision and the length. */
  lemma CharPrints(d: Spec, w: Word)
    requires SpecOk(d, "-+ 0#") && d.conv == 'c'
    ensures Format(Written(d), [Integer(w)]) == Printed(Spaced('-' in d.flags, [(w % 0x100) as char], d.width))
  {
    OneDirective(d, Integer(w));
    LeftTells(d);
    SpacedIsPadded('-' in d.flags, [(w % 0x100) as char], d.width);
  }

  /** %s prints the string, or as much of it as the precision lets through. */
  lemma StringPrints(d: Spec, s: CString)
    requires SpecOk(d, "-+ 0#") && d.conv == 's' && |s| < 0x1_0000_0000
    ensures Format(Written(d), [Text(s)]) ==
      Printed(Spaced('-' in d.flags, if d.precision.Absent? || AtLeast(d) >= |s| then s else s[..AtLeast(d)], d.width))
  {
    OneDirective(d, Text(s));
    LeftTells(d);
    StringLength(s, d.width, AtLeast(d), Parsed(d));
  }

  /** %p prints 16 hexadecimal digits. */
  lemma PointerPrints(d: Spec, w: Word)
    requires SpecOk(d, "") && d.precision.Absent? && d.conv == 'p'
    ensures var t := Numeral(w, 16, true);
      |t| <= 16 && Format(Written(d), [Integer(w)]) == Printed(Repeat('0', 16 - |t|) + t)
  {
    OneDirective(d, Integer(w));
    NoFlags(d);
    SixteenDigits(w, Parsed(d).(zeropad := true, upper := true));
    NumeralIsDigits(w, 16, true);
  }

  lemma NoFlags(d: Spec)
    requires d.flags == "" && d.precision.Absent?
    ensures var f := Parsed(d); !f.left && !f.plus && !f.space && !f.hash && !f.precision
  {
  }

  lemma SixteenDigits(w: Word, f: Flags)
    requires !f.left && !f.plus && !f.space && !f.hash && !f.precision && f.zeropad && f.upper
    ensures var t := Digits(w, 16, true);
      |t| <= 16 && Number(w, false, 16, 0, 16, f) == Repeat('0', 16 - |t|) + t
  {
    var t, n := Digits(w, 16, true), 16;
    Powers();
    FewDigits(w, 16, true, n);
    NumberInRows(w, false, 16, 0, 16, f);
    assert CodeLayout(t, false, 0, 16, f) == Layout(0, "", 16 - |t|, t, 0);
    LeftRow("", 16 - |t|, t, 0);
    assert "" + Repeat('0', 16 - |t|) == Repeat('0', 16 - |t|);
  }

  /** Any other specifier, % among them, prints itself and takes no argument. */
  lemma OtherPrints(d: Spec, args: seq<Arg>)
    requires SpecOk(d, "-+ 0#") && IsSpecifier(d.conv) && d.conv !in "diuoxXbcsp"
    ensures Format(Written(d), args) == Printed([d.conv])
  {
    DirectiveRead(d, args);
    WrittenParts(d.flags, WidthText(d), PrecisionText(d), d.length, [d.conv]);
    NoArgument(d.conv);
    assert [d.conv][1..] == "";
    assert Convert(Directive(Written(d)[1..], args)) == Converted([d.conv], "", args);
    assert [d.conv] + "" == [d.conv];
  }

  lemma NoArgument(c: char)
    requires c !in "diuoxXbcsp"
    ensures !TakesArgument(c)
  {
  }

  // ----- widths and precisions that are arguments

  function StarWidth(d: Spec): string {
    "%" + d.flags + "*" + PrecisionText(d) + d.length + [d.conv]
  }

  function StarPrecision(d: Spec): string {
    "%" + d.flags + WidthText(d) + ".*" + d.length + [d.conv]
  }

  /** An argument of type int. */
  function Int(bits: Word): int {
    Value(bits, 0x1_0000_0000, true)
  }

  lemma SameDirective(fmt: string, tail: string, args: seq<Arg>, e: Spec, arg: Arg)
    requires SpecOk(e, "-+ 0#") && IsSpecifier(e.conv) && fmt != "" && fmt[0] == '%' && fmt[1..] == tail
    requires Directive(tail, args) == Scan(Parsed(e), e.width, AtLeast(e), [e.conv], [arg])
    ensures Format(fmt, args) == Format(Written(e), [arg])
  {
    var other := Written(e);
    DirectiveRead(e, [arg]);
    WrittenParts(e.flags, WidthText(e), PrecisionText(e), e.length, [e.conv]);
    SameConversion(fmt, args, other, [arg]);
  }

  lemma SameConversion(fmt: string, args: seq<Arg>, fmt': string, args': seq<Arg>)
    requires fmt != "" && fmt' != "" && fmt[0] == fmt'[0] == '%' && Directive(fmt[1..], args) == Directive(fmt'[1..], args')
    ensures Format(fmt, args) == Format(fmt', args')
  {
  }

  /** What a width of * and an argument stands for: a negative one is the - flag and a width. */
  function WithWidth(d: Spec, w: int): Spec {
    d.(flags := d.flags + (if w < 0 then "-" else ""), width := if w < 0 then -w else w)
  }

  lemma StarWidthPrints(d: Spec, bits: Word, arg: Arg)
    requires SpecOk(d, "-+ 0#") && TakesArgument(d.conv)
    ensures Format(StarWidth(d), [Integer(bits), arg]) == Format(Written(WithWidth(d, Int(bits))), [arg])
  {
    var e, rest := WithWidth(d, Int(bits)), PrecisionText(d) + (d.length + [d.conv]);
    EndsDirective(d.conv);
    MoreMinus(d, Int(bits));
    MinusJoins(Flagged(NO_FLAGS, d.flags), d.flags, Int(bits));
    StarWidthRead(d.flags, e, bits, [arg]);
    WrittenParts(d.flags, "*", PrecisionText(d), d.length, [d.conv]);
    assert [Integer(bits)] + [arg] == [Integer(bits), arg];
    SameDirective(StarWidth(d), d.flags + ("*" + rest), [Integer(bits), arg], e, arg);
  }

  lemma StarWidthRead(flags: string, e: Spec, bits: Word, args: seq<Arg>)
    requires SpecOk(e, "-+ 0#") && IsFlagText(flags, "-+ 0#") && IsSpecifier(e.conv)
    requires e.width == if Int(bits) < 0 then -Int(bits) else Int(bits)
    requires var f := Flagged(NO_FLAGS, flags); Flagged(NO_FLAGS, e.flags) == if Int(bits) < 0 then f.(left := true) else f
    ensures Directive(flags + ("*" + (PrecisionText(e) + (e.length + [e.conv]))), [Integer(bits)] + args) ==
      Scan(Parsed(e), e.width, AtLeast(e), [e.conv], args)
  {
    var tail := e.length + [e.conv];
    var f, g, rest := Flagged(NO_FLAGS, flags), Flagged(NO_FLAGS, e.flags), PrecisionText(e) + tail;
    LengthRead(g.(precision := !e.precision.Absent?), e.width, AtLeast(e), e.length, e.conv, args);
    PrecisionRead(g, e, tail, args);
    StarRead(f, bits, rest, args);
    FlagsRead(flags, NO_FLAGS, "*" + rest);
    DirectiveSteps(flags + ("*" + rest), [Integer(bits)] + args, f, "*" + rest);
  }

  lemma StarRead(f: Flags, bits: Word, rest: string, args: seq<Arg>)
    ensures !IsFlag(At("*" + rest))
    ensures var w := Int(bits);
      WidthField(Scan(f, 0, 0, "*" + rest, [Integer(bits)] + args)) ==
        Scan(if w < 0 then f.(left := true) else f, if w < 0 then -w else w, 0, rest, args)
  {
    DropLonger("*", rest);
    DropLonger([Integer(bits)], args);
  }

  lemma MoreMinus(d: Spec, w: int)
    requires SpecOk(d, "-+ 0#") && -0x8000_0000 <= w < 0x8000_0000
    ensures SpecOk(WithWidth(d, w), "-+ 0#")
  {
  }

  lemma MinusJoins(f: Flags, t: string, w: int)
    requires f == Flagged(NO_FLAGS, t)
    ensures Flagged(NO_FLAGS, t + (if w < 0 then "-" else "")) == if w < 0 then f.(left := true) else f
  {
  }

  /** A precision of * and an argument: 0 when the argument is negative. */
  lemma StarPrecisionPrints(d: Spec, bits: Word, arg: Arg)
    requires SpecOk(d, "-+ 0#") && TakesArgument(d.conv)
    ensures Format(StarPrecision(d), [Integer(bits), arg]) == Format(Written(WithPrecision(d, Int(bits))), [arg])
  {
    var rest := WidthText(d) + (".*" + (d.length + [d.conv]));
    EndsDirective(d.conv);
    PrecisionArgumentRead(d, bits, [arg]);
    WrittenParts(d.flags, WidthText(d), ".*", d.length, [d.conv]);
    assert [Integer(bits)] + [arg] == [Integer(bits), arg];
    SameDirective(StarPrecision(d), d.flags + rest, [Integer(bits), arg], WithPrecision(d, Int(bits)), arg);
  }

  function WithPrecision(d: Spec, p: int): Spec {
    d.(precision := Given(if p < 0 then 0 else p))
  }

  lemma PrecisionArgumentRead(d: Spec, bits: Word, args: seq<Arg>)
    requires SpecOk(d, "-+ 0#") && IsSpecifier(d.conv)
    ensures var e := WithPrecision(d, Int(bits));
      Directive(d.flags + (WidthText(d) + (".*" + (d.length + [d.conv]))), [Integer(bits)] + args) ==
        Scan(Parsed(e), e.width, AtLeast(e), [d.conv], args)
  {
    var e, tail := WithPrecision(d, Int(bits)), d.length + [d.conv];
    var f, rest := Flagged(NO_FLAGS, d.flags), WidthText(d) + (".*" + tail);
    LengthRead(f.(precision := true), d.width, AtLeast(e), d.length, d.conv, args);
    StarPrecisionRead(f, d.width, bits, tail, args);
    WidthRead(f, d, ".*" + tail, [Integer(bits)] + args);
    FlagsRead(d.flags, NO_FLAGS, rest);
    DirectiveSteps(d.flags + rest, [Integer(bits)] + args, f, rest);
  }

  lemma StarPrecisionRead(f: Flags, width: nat, bits: Word, rest: string, args: seq<Arg>)
    ensures Ends(".*" + rest)
    ensures PrecisionField(Scan(f, width, 0, ".*" + rest, [Integer(bits)] + args)) ==
      Scan(f.(precision := true), width, if Int(bits) < 0 then 0 else Int(bits), rest, args)
  {
    assert (".*" + rest)[1..] == "*" + rest;
    DropLonger("*", rest);
    DropLonger([Integer(bits)], args);
  }

  // ----- a negative precision

  /** C11 takes a negative precision as none.  The code takes it as 0, which shows unless the value is not 0 and
      the 0 flag adds nothing. */
  lemma NegativePrecisionExactly(d: Spec, bits: Word, w: Word)
    requires SpecOk(d, "-+ 0") && d.precision.Absent? && d.conv in "diuoxX" && Int(bits) < 0
    ensures var v := Value(w, Range(d.length), IsSigned(d.conv));
      Format(StarPrecision(d), [Integer(bits), Integer(w)]) == Printed(C11Text(d, v))
      <==> v != 0 && ('0' in d.flags && '-' !in d.flags ==> d.width <= |SignOf(d, v)| + |DigitsOf(d, v)|)
  {
    var v, e := Value(w, Range(d.length), IsSigned(d.conv)), d.(precision := Given(0));
    MoreFlags(d.flags);
    StarPrecisionPrints(d, bits, Integer(w));
    assert WithPrecision(d, Int(bits)) == e;
    DirectivePrintsAsC11(e, w);
    FewCharacters(e, v);
    ZeroPrecisionExactly(d, v);
  }

  lemma ZeroPrecisionExactly(d: Spec, v: int)
    requires d.precision.Absent?
    ensures C11Text(d.(precision := Given(0)), v) == C11Text(d, v) <==>
      v != 0 && ('0' in d.flags && '-' !in d.flags ==> d.width <= |SignOf(d, v)| + |DigitsOf(d, v)|)
  {
    if v == 0 { NoZero(d); } else { OtherDigits(d, v); }
  }

  lemma NoZero(d: Spec)
    requires d.precision.Absent?
    ensures C11Text(d.(precision := Given(0)), 0) != C11Text(d, 0)
  {
    ZeroVanishes(d, SignOf(d, 0));
    assert Repeat('0', 0) + "" == "" && Repeat('0', 0) + DigitsOf(d, 0) == DigitsOf(d, 0) == "0";
  }

  lemma OtherDigits(d: Spec, v: int)
    requires d.precision.Absent? && v != 0
    ensures C11Text(d.(precision := Given(0)), v) == C11Text(d, v) <==>
      ('0' in d.flags && '-' !in d.flags ==> d.width <= |SignOf(d, v)| + |DigitsOf(d, v)|)
  {
    SpacesForZeros(d, SignOf(d, v), DigitsOf(d, v));
    assert Repeat('0', 0) + DigitsOf(d, v) == DigitsOf(d, v) == DigitsOf(d.(precision := Given(0)), v);
  }

  lemma FewCharacters(d: Spec, v: int)
    requires d.conv in "diuoxX" && !d.precision.Absent? && AtLeast(d) == 0
    requires -0x1_0000_0000_0000_0000 < v < 0x1_0000_0000_0000_0000
    ensures HasRoom(d, v)
  {
    var m := if v < 0 then -v else v;
    SixtyFourBits(m, Radix(d.conv), d.conv == 'X');
    NumeralIsDigits(m, Radix(d.conv), d.conv == 'X');
  }

  lemma ZeroVanishes(d: Spec, sign: string)
    requires d.precision.Absent? && SignOk(sign)
    ensures Padded(d.(precision := Given(0)), sign, "") != Padded(d, sign, "0")
  {
    var s, t := Padded(d.(precision := Given(0)), sign, ""), Padded(d, sign, "0");
    if '-' in d.flags {
      assert t[|sign|] == '0';
      assert |s| == |t| ==> s[|sign|] == ' ';
    } else {
      assert t[|t| - 1] == '0';
      assert s != "" ==> s[|s| - 1] == if sign == "" then ' ' else sign[0];
    }
  }

  lemma SpacesForZeros(d: Spec, sign: string, digits: string)
    requires d.precision.Absent? && SignOk(sign)
    ensures Padded(d.(precision := Given(0)), sign, digits) == Padded(d, sign, digits) <==>
      ('0' in d.flags && '-' !in d.flags ==> d.width <= |sign| + |digits|)
  {
    var s, t := Padded(d.(precision := Given(0)), sign, digits), Padded(d, sign, digits);
    if '0' in d.flags && '-' !in d.flags {
      var pad := Gap(|sign| + |digits|, d.width);
      assert s == Repeat(' ', pad) + sign + digits && t == sign + Repeat('0', pad) + digits;
      if pad == 0 {
        assert Repeat(' ', 0) + sign == sign == sign + Repeat('0', 0);
      } else {
        assert t[|sign|] == '0' && (s[|sign|] == ' ' || (pad == 1 && s[1] == sign[0]));
      }
    }
  }

  /** ... and of a string the code prints only the padding. */
  lemma NegativePrecisionOfText(d: Spec, bits: Word, s: CString)
    requires SpecOk(d, "-+ 0#") && d.precision.Absent? && d.conv == 's' && Int(bits) < 0 && |s| < 0x1_0000_0000
    ensures Format(StarPrecision(d), [Integer(bits), Text(s)]) == Format(Written(d), [Text(s)])
      <==> |s| <= d.width && forall i :: 0 <= i < |s| ==> s[i] == ' '
  {
    StarPrecisionPrints(d, bits, Text(s));
    assert WithPrecision(d, Int(bits)) == d.(precision := Given(0));
    StringPrints(d.(precision := Given(0)), s);
    StringPrints(d, s);
    assert s[..0] == "" && (|s| == 0 ==> s == "");
    OnlyPadding('-' in d.flags, s, d.width);
  }

  lemma OnlyPadding(left: bool, s: string, width: nat)
    ensures Spaced(left, "", width) == Spaced(left, s, width) <==> |s| <= width && forall i :: 0 <= i < |s| ==> s[i] == ' '
  {
    var t, k := Spaced(left, s, width), if left then 0 else Gap(|s|, width);
    assert forall i :: 0 <= i < |s| ==> t[k + i] == s[i];
    assert forall i :: 0 <= i < |t| && !(k <= i < k + |s|) ==> t[i] == ' ';
    assert |s| <= width ==> |t| == width;
  }
}
