/** The # flag of o, x and X (fckrnl/libk/kprintf/kprintf.c), against section 7.21.6.1 of C11. */
module PrintfHash {
  import opened Bits
  import opened PrintfOutput
  import opened PrintfNumbers
  import opened PrintfMeaning
  import opened PrintfFormat
  import opened PrintfDirectives

  function Mark(conv: char): (t: string)
    ensures 1 <= |t| <= 2
  {
    if conv == 'x' then "0x" else if conv == 'X' then "0X" else "0"
  }

  /** A prefix for every value but 0. */
  function HashText(d: Spec, v: nat): string {
    Padded(d, if v == 0 then "" else Mark(d.conv), Numeral(v, Radix(d.conv), d.conv == 'X'))
  }

  /** The width is not the number of digits, where the code takes padding zeros off that are not there. */
  predicate HashRoom(d: Spec, v: nat) {
    var n := |Numeral(v, Radix(d.conv), d.conv == 'X')|;
    if '0' in d.flags && '-' !in d.flags then d.width <= 32 && (v == 0 || d.width < n || n + |Mark(d.conv)| <= d.width)
    else v == 0 || d.width != n
  }

  // ----- the scratch buffer

  /** The flags of these directives. */
  predicate Marked(g: Flags) {
    g.hash && !g.plus && !g.space && !g.precision
  }

  predicate FewOf(t: string, base: nat) {
    1 <= |t| <= 22 && (base == 8 || base == 16)
  }

  /** What the code puts behind the digits, in reverse. */
  function Behind(base: nat, g: Flags): (t: string)
    ensures |t| <= 2
  {
    Prefix(base, g) + "0"
  }

  lemma NoSign(t: string, width: nat, base: nat, g: Flags)
    requires Marked(g) && FewOf(t, base)
    ensures SignWidth(false, width, g) == width
    ensures NumeralCount(|t|, false, 0, width, g) == if g.left || !g.zeropad then |t| else |t| + Gap(|t|, Min(width, 32))
    ensures ScratchCells(t, false, base, 0, width, g) ==
      WithPrefix(t + Repeat('0', NumeralCount(|t|, false, 0, width, g) - |t|), base, 0, width, g)
  {
  }

  lemma PlainMark(t: string, base: nat, width: nat, g: Flags)
    requires Marked(g) && FewOf(t, base) && |t| != width
    ensures WithPrefix(t + Repeat('0', 0), base, 0, width, g) == t + Behind(base, g)
  {
    assert t + Repeat('0', 0) == t && t[..|t| - 0] == t;
    assert t + Prefix(base, g) + "0" == t + (Prefix(base, g) + "0");
  }

  lemma ZerosMarked(t: string, base: nat, width: nat, g: Flags)
    requires Marked(g) && FewOf(t, base) && |t| + |Behind(base, g)| <= width <= 32
    ensures WithPrefix(t + Repeat('0', width - |t|), base, 0, width, g) ==
      t + Repeat('0', width - |t| - |Behind(base, g)|) + Behind(base, g)
  {
    var b, k := t + Repeat('0', width - |t|), |Behind(base, g)|;
    assert Dropped(|b|, base, 0, width, g) == k;
    assert b[..|b| - k] == t + Repeat('0', width - |t| - k);
    assert b[..|b| - k] + Prefix(base, g) + "0" == b[..|b| - k] + (Prefix(base, g) + "0");
  }

  /** The digits come out shorter than C11 asks. */
  lemma DigitsDropped(t: string, n: nat, base: nat, width: nat, g: Flags)
    requires Marked(g) && FewOf(t, base) && |t| <= n == width < |t| + |Behind(base, g)|
    ensures |WithPrefix(t + Repeat('0', n - |t|), base, 0, width, g)| < |t| + |Behind(base, g)|
  {
  }

  lemma ReversedMark(t: string, zeros: nat, base: nat, g: Flags)
    requires base == 8 || base == 16
    ensures Reversed(Behind(base, g)) == (if base == 8 then "0" else if g.upper then "0X" else "0x")
    ensures Reversed(t + Repeat('0', zeros) + Behind(base, g)) ==
      Reversed(Behind(base, g)) + Repeat('0', zeros) + Reversed(t)
    ensures Reversed(t + Behind(base, g)) == Reversed(Behind(base, g)) + Reversed(t)
  {
    ReversedSum(t + Repeat('0', zeros), Behind(base, g));
    ReversedSum(t, Repeat('0', zeros));
    ReversedSum(t, Behind(base, g));
    assert Reversed(Repeat('0', zeros)) == Repeat('0', zeros);
    assert Reversed(Behind(base, g)) + (Repeat('0', zeros) + Reversed(t)) ==
      Reversed(Behind(base, g)) + Repeat('0', zeros) + Reversed(t);
  }

  // ----- the layout

  lemma SpacesAround(b: string, width: nat, g: Flags)
    requires g.left || !g.zeropad
    ensures RevText(b, width, g.left, g.zeropad) ==
      if g.left then Reversed(b) + Repeat(' ', Gap(|b|, width)) else Repeat(' ', Gap(|b|, width)) + Reversed(b)
  {
    assert Repeat(' ', 0) + Reversed(b) == Reversed(b);
    assert Repeat(' ', Gap(|b|, width)) + Reversed(b) + Repeat(' ', 0) == Repeat(' ', Gap(|b|, width)) + Reversed(b);
  }

  lemma NoSpaces(b: string, width: nat, g: Flags)
    requires !g.left && g.zeropad
    ensures RevText(b, width, g.left, g.zeropad) == Reversed(b)
  {
    assert Repeat(' ', 0) + Reversed(b) + Repeat(' ', 0) == Reversed(b);
  }

  lemma MarkedBySpaces(t: string, base: nat, width: nat, g: Flags)
    requires Marked(g) && FewOf(t, base) && (g.left || !g.zeropad)
    ensures NumberOf(t, false, base, 0, width, g) ==
      PadWith(g.left, g.zeropad, width, Reversed(Behind(base, g)), Reversed(t))
      <==> width != |t|
  {
    NoSign(t, width, base, g);
    var cells := ScratchCells(t, false, base, 0, width, g);
    SpacesAround(cells, width, g);
    if width != |t| {
      ReversedMark(t, 0, base, g);
      PlainMark(t, base, width, g);
      BeforeMark(Repeat(' ', Gap(|cells|, width)), Reversed(Behind(base, g)), Reversed(t));
    } else {
      DigitsDropped(t, |t|, base, width, g);
      PadLength(g.left, g.zeropad, width, Reversed(Behind(base, g)), Reversed(t));
    }
  }

  lemma BeforeMark(pad: string, mark: string, t: string)
    ensures pad + (mark + t) == pad + mark + t
  {
  }

  lemma PadLength(left: bool, zeros: bool, width: nat, mark: string, t: string)
    ensures |PadWith(left, zeros, width, mark, t)| == Max(width, |mark| + |t|)
  {
  }

  lemma MarkedByZeros(t: string, base: nat, width: nat, g: Flags)
    requires Marked(g) && FewOf(t, base) && !g.left && g.zeropad
    ensures NumberOf(t, false, base, 0, width, g) ==
      PadWith(g.left, g.zeropad, width, Reversed(Behind(base, g)), Reversed(t))
      <==> width <= 32 && (width < |t| || |t| + |Behind(base, g)| <= width)
  {
    if width < |t| {
      NarrowField(t, base, width, g);
    } else if |t| + |Behind(base, g)| <= width <= 32 {
      WideField(t, base, width, g);
    } else {
      ShortField(t, base, width, g);
    }
  }

  lemma NarrowField(t: string, base: nat, width: nat, g: Flags)
    requires Marked(g) && FewOf(t, base) && !g.left && g.zeropad && width < |t|
    ensures NumberOf(t, false, base, 0, width, g) ==
      PadWith(g.left, g.zeropad, width, Reversed(Behind(base, g)), Reversed(t))
  {
    NoSign(t, width, base, g);
    NoSpaces(ScratchCells(t, false, base, 0, width, g), width, g);
    ReversedMark(t, 0, base, g);
    PlainMark(t, base, width, g);
    assert Reversed(Behind(base, g)) + Repeat('0', 0) == Reversed(Behind(base, g));
  }

  lemma WideField(t: string, base: nat, width: nat, g: Flags)
    requires Marked(g) && FewOf(t, base) && !g.left && g.zeropad && |t| + |Behind(base, g)| <= width <= 32
    ensures NumberOf(t, false, base, 0, width, g) ==
      PadWith(g.left, g.zeropad, width, Reversed(Behind(base, g)), Reversed(t))
  {
    NoSign(t, width, base, g);
    NoSpaces(ScratchCells(t, false, base, 0, width, g), width, g);
    var zeros := width - |t| - |Behind(base, g)|;
    ReversedMark(t, zeros, base, g);
    ZerosMarked(t, base, width, g);
    assert ScratchCells(t, false, base, 0, width, g) == t + Repeat('0', zeros) + Behind(base, g);
    ZerosBetween(width, zeros, Reversed(Behind(base, g)), Reversed(t));
  }

  lemma ZerosBetween(width: nat, zeros: nat, mark: string, t: string)
    requires zeros + |mark| + |t| == width
    ensures PadWith(false, true, width, mark, t) == mark + Repeat('0', zeros) + t
  {
  }

  lemma ShortField(t: string, base: nat, width: nat, g: Flags)
    requires Marked(g) && FewOf(t, base) && !g.left && g.zeropad
    requires |t| <= width && (width > 32 || width < |t| + |Behind(base, g)|)
    ensures NumberOf(t, false, base, 0, width, g) !=
      PadWith(g.left, g.zeropad, width, Reversed(Behind(base, g)), Reversed(t))
  {
    NoSign(t, width, base, g);
    NoSpaces(ScratchCells(t, false, base, 0, width, g), width, g);
    PadLength(g.left, g.zeropad, width, Reversed(Behind(base, g)), Reversed(t));
    if width <= 32 {
      DigitsDropped(t, width, base, width, g);
    } else {
      FullCells(t + Repeat('0', 32 - |t|), base, width, g);
    }
  }

  lemma FullCells(b: string, base: nat, width: nat, g: Flags)
    requires |b| == 32 && width > 32
    ensures WithPrefix(b, base, 0, width, g) == b
  {
    assert b[..|b| - 0] == b;
  }

  // ----- the directive

  /** What the code knows of the directive. */
  predicate TellsHash(g: Flags, d: Spec) {
    && Marked(g) && g.left == ('-' in d.flags) && g.zeropad == ('0' in d.flags) && g.upper == (d.conv == 'X')
  }

  lemma HashTells(d: Spec)
    requires '#' in d.flags && d.precision.Absent? && d.conv in "oxX"
    ensures TellsHash(IntegerFlags(Parsed(d), d.conv), d)
  {
  }

  lemma SmallNumeral(v: nat, conv: char, f: Flags)
    requires v < WORD && conv in "oxX" && f.upper == (conv == 'X') && !f.precision
    ensures FewOf(Scratch(v, Radix(conv), f), Radix(conv))
    ensures Reversed(Scratch(v, Radix(conv), f)) == Numeral(v, Radix(conv), f.upper)
  {
    var n := if conv == 'o' then 22 else 16;
    Powers();
    FewDigits(v, Radix(conv), f.upper, n);
    ScratchIsLast(v, Radix(conv), f);
    NumeralIsDigits(v, Radix(conv), f.upper);
  }

  /** With # the text is what C11 asks for exactly when the width leaves room for the prefix or does not ask for
      any padding, for every other flag, width, length modifier and argument. */
  lemma HashPrintsAsC11(d: Spec, w: Word)
    requires SpecOk(d, "-+ 0#") && '#' in d.flags && d.precision.Absent? && d.conv in "oxX"
    ensures var v := Value(w, Range(d.length), false);
      Format(Written(d), [Integer(w)]) == Printed(HashText(d, v)) <==> HashRoom(d, v)
  {
    HashDirective(d, w, Value(w, Range(d.length), false));
  }

  lemma HashDirective(d: Spec, w: Word, v: nat)
    requires SpecOk(d, "-+ 0#") && '#' in d.flags && d.precision.Absent? && (d.conv == 'o' || d.conv == 'x' || d.conv == 'X')
    requires v == Value(w, Range(d.length), false)
    ensures Format(Written(d), [Integer(w)]) == Printed(HashText(d, v)) <==> HashRoom(d, v)
  {
    OneInteger(d, w);
    SameValue(d, w);
    HashTells(d);
    IntegerWithHash(d, w, v, Parsed(d));
  }

  lemma IntegerWithHash(d: Spec, w: Word, v: nat, f: Flags)
    requires d.precision.Absent? && d.conv in "oxX" && TellsHash(IntegerFlags(f, d.conv), d)
    requires v == UnsignedArg(w, IntegerFlags(f, d.conv))
    ensures IntegerText(w, d.conv, d.width, 0, f) == HashText(d, v) <==> HashRoom(d, v)
  {
    var g := IntegerFlags(f, d.conv);
    assert IntegerText(w, d.conv, d.width, 0, f) == Number(v, false, Radix(d.conv), 0, d.width, g);
    if v == 0 { ZeroWithHash(d, g); } else { NumberWithHash(d, v, g); }
  }

  lemma ZeroWithHash(d: Spec, g: Flags)
    requires d.precision.Absent? && d.conv in "oxX" && TellsHash(g, d)
    ensures Number(0, false, Radix(d.conv), 0, d.width, g) == HashText(d, 0) <==> HashRoom(d, 0)
  {
    var h := g.(hash := false);
    ZeroIgnoresHash(Radix(d.conv), d.width, g);
    PrintsAsC11(0, false, Radix(d.conv), 0, d.width, h);
    HashOff(d, g);
    SameField(d, 0, h);
    SameRoom(d, 0, h);
    ZeroIsPlain(d);
  }

  lemma ZeroIgnoresHash(base: nat, width: nat, g: Flags)
    requires 2 <= base <= 16
    ensures Number(0, false, base, 0, width, g) == Number(0, false, base, 0, width, g.(hash := false))
  {
  }

  lemma HashOff(d: Spec, g: Flags)
    requires d.precision.Absent? && d.conv in "oxX" && TellsHash(g, d)
    ensures Tells(g.(hash := false), d) && IsInteger(d.conv) && BaseOf(d.conv) == Radix(d.conv) && AtLeast(d) == 0
  {
  }

  lemma ZeroIsPlain(d: Spec)
    requires d.precision.Absent? && d.conv in "oxX"
    ensures HashText(d, 0) == C11Text(d, 0) && (HashRoom(d, 0) <==> HasRoom(d, 0))
  {
    assert Repeat('0', 0) + DigitsOf(d, 0) == DigitsOf(d, 0);
    assert |DigitsOf(d, 0)| == 1;
  }

  lemma NumberWithHash(d: Spec, v: nat, g: Flags)
    requires 0 < v < WORD && d.precision.Absent? && d.conv in "oxX" && TellsHash(g, d)
    ensures Number(v, false, Radix(d.conv), 0, d.width, g) == HashText(d, v) <==> HashRoom(d, v)
  {
    var t, base := Scratch(v, Radix(d.conv), g), Radix(d.conv);
    SmallNumeral(v, d.conv, g);
    ReversedMark(t, 0, base, g);
    assert Reversed(Behind(base, g)) == Mark(d.conv);
    if g.left || !g.zeropad { MarkedBySpaces(t, base, d.width, g); } else { MarkedByZeros(t, base, d.width, g); }
    HashTextIs(d, v, g, Reversed(t));
  }

  lemma HashTextIs(d: Spec, v: nat, g: Flags, t: string)
    requires 0 < v && d.precision.Absent? && TellsHash(g, d) && t == Numeral(v, Radix(d.conv), d.conv == 'X')
    ensures HashText(d, v) == PadWith(g.left, g.zeropad, d.width, Mark(d.conv), t)
    ensures HashRoom(d, v) <==>
      if g.left || !g.zeropad then d.width != |t|
      else d.width <= 32 && (d.width < |t| || |t| + |Mark(d.conv)| <= d.width)
  {
  }
}
