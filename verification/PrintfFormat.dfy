/** The format language of _vsnprintf (fckrnl/libk/kprintf/kprintf.c): %[flags][width][.precision][length]
    and a specifier.

    The kernel is built for x86-64 without SSE_SUPPORT, so that long, long long, size_t, ptrdiff_t and
    intmax_t have 64 bits, char is signed, and the floating-point specifiers do not exist. */
module PrintfFormat {
  import opened Bits
  import opened PrintfOutput
  import opened PrintfNumbers

  /** A NUL-terminated string, without its NUL. */
  type CString = s: string | forall i :: 0 <= i < |s| ==> s[i] != '\0'

  /** A variadic argument. */
  datatype Arg = Integer(bits: Word) | Text(s: CString)

  /** The state after some fields of a conversion.  Undefined: the argument that va_arg asks for is missing
      or of another type. */
  datatype Scan = Scan(f: Flags, width: nat, prec: nat, rest: string, args: seq<Arg>) | Undefined

  const NO_FLAGS: Flags := Flags(false, false, false, false, false, false, false, false, false, false, false)

  // ----- integer arguments

  function Signed(x: nat, half: nat): int {
    if x < half then x else x - 2 * half
  }

  /** va_arg(va, int). */
  function IntArg(w: Word): (r: int)
    ensures -0x8000_0000 <= r < 0x8000_0000
  {
    Signed(w % 0x1_0000_0000, 0x8000_0000)
  }

  /** The value of %d and %i. */
  function SignedArg(w: Word, f: Flags): (r: int)
    ensures -0x8000_0000_0000_0000 <= r < 0x8000_0000_0000_0000
  {
    if f.isLongLong || f.isLong then Signed(w, 0x8000_0000_0000_0000)
    else if f.isChar then Signed(w % 0x100, 0x80)
    else if f.isShort then Signed(w % 0x1_0000, 0x8000)
    else IntArg(w)
  }

  /** The value of the other integer specifiers. */
  function UnsignedArg(w: Word, f: Flags): Word {
    if f.isLongLong || f.isLong then w
    else if f.isChar then w % 0x100
    else if f.isShort then w % 0x1_0000
    else w % 0x1_0000_0000
  }

  function Magnitude(v: int): nat {
    if v > 0 then v else 0 - v
  }

  // ----- the fields

  predicate IsFlag(c: char) {
    c == '0' || c == '-' || c == '+' || c == ' ' || c == '#'
  }

  function WithFlag(f: Flags, c: char): Flags {
    if c == '0' then f.(zeropad := true)
    else if c == '-' then f.(left := true)
    else if c == '+' then f.(plus := true)
    else if c == ' ' then f.(space := true)
    else f.(hash := true)
  }

  function FlagField(fmt: string, f: Flags): (r: (Flags, string))
    ensures |r.1| <= |fmt|
  {
    if fmt != "" && IsFlag(fmt[0]) then FlagField(fmt[1..], WithFlag(f, fmt[0])) else (f, fmt)
  }

  function Shift10(i: nat, c: char): nat
    requires IsDigit(c)
  {
    (i * 10 + (c as int - '0' as int)) % 0x1_0000_0000
  }

  /** _atoi, in 32-bit arithmetic: the number and what follows it. */
  function Atoi(fmt: string, i: nat): (r: (nat, string))
    ensures |r.1| <= |fmt|
  {
    if fmt != "" && IsDigit(fmt[0]) then Atoi(fmt[1..], Shift10(i, fmt[0])) else (i, fmt)
  }

  function At(fmt: string): char {
    if fmt == "" then '\0' else fmt[0]
  }

  function WidthField(s: Scan): (r: Scan)
    ensures r.Scan? ==> s.Scan? && |r.rest| <= |s.rest|
  {
    if s.Undefined? then s
    else if IsDigit(At(s.rest)) then
      var (n, rest) := Atoi(s.rest, 0);
      s.(width := n, rest := rest)
    else if At(s.rest) == '*' then
      if s.args == [] || !s.args[0].Integer? then Undefined
      else
        var w := IntArg(s.args[0].bits);
        Scan(if w < 0 then s.f.(left := true) else s.f, Magnitude(w), s.prec, s.rest[1..], s.args[1..])
    else s
  }

  function PrecisionField(s: Scan): (r: Scan)
    ensures r.Scan? ==> s.Scan? && |r.rest| <= |s.rest|
  {
    if s.Undefined? || At(s.rest) != '.' then s
    else
      var f, rest := s.f.(precision := true), s.rest[1..];
      if IsDigit(At(rest)) then
        var (n, after) := Atoi(rest, 0);
        Scan(f, s.width, n, after, s.args)
      else if At(rest) == '*' then
        if s.args == [] || !s.args[0].Integer? then Undefined
        else
          var p := IntArg(s.args[0].bits);
          Scan(f, s.width, if p > 0 then p else 0, rest[1..], s.args[1..])
      else Scan(f, s.width, s.prec, rest, s.args)
  }

  function LengthField(s: Scan): (r: Scan)
    ensures r.Scan? ==> s.Scan? && |r.rest| <= |s.rest|
  {
    if s.Undefined? then s
    else
      var c := At(s.rest);
      if c == 'l' then
        var t := s.(f := s.f.(isLong := true), rest := s.rest[1..]);
        if At(t.rest) == 'l' then t.(f := t.f.(isLongLong := true), rest := t.rest[1..]) else t
      else if c == 'h' then
        var t := s.(f := s.f.(isShort := true), rest := s.rest[1..]);
        if At(t.rest) == 'h' then t.(f := t.f.(isChar := true), rest := t.rest[1..]) else t
      else if c == 't' || c == 'j' || c == 'z' then
        s.(f := s.f.(isLong := true), rest := s.rest[1..])
      else s
  }

  /** Everything between % and the specifier. */
  function Directive(fmt: string, args: seq<Arg>): (r: Scan)
    ensures r.Scan? ==> |r.rest| <= |fmt|
  {
    var (f, rest) := FlagField(fmt, NO_FLAGS);
    LengthField(PrecisionField(WidthField(Scan(f, 0, 0, rest, args))))
  }

  // ----- the specifiers

  predicate IsInteger(c: char) {
    c == 'd' || c == 'i' || c == 'u' || c == 'x' || c == 'X' || c == 'o' || c == 'b'
  }

  function BaseOf(c: char): (b: nat)
    ensures 2 <= b <= 16
  {
    if c == 'x' || c == 'X' then 16 else if c == 'o' then 8 else if c == 'b' then 2 else 10
  }

  /** The flags an integer specifier looks at. */
  function IntegerFlags(f: Flags, c: char): Flags {
    f.(hash := f.hash && BaseOf(c) != 10,
       upper := f.upper || c == 'X',
       plus := f.plus && (c == 'd' || c == 'i'),
       space := f.space && (c == 'd' || c == 'i'),
       zeropad := f.zeropad && !f.precision)
  }

  function IntegerText(w: Word, c: char, width: nat, prec: nat, f: Flags): string {
    var g := IntegerFlags(f, c);
    if c == 'd' || c == 'i'
    then Number(Magnitude(SignedArg(w, g)), SignedArg(w, g) < 0, BaseOf(c), prec, width, g)
    else Number(UnsignedArg(w, g), false, BaseOf(c), prec, width, g)
  }

  /** %c and %s: text, with spaces up to the width; len is its length as the code counts it. */
  function PaddedText(t: string, len: nat, width: nat, left: bool): string {
    Repeat(' ', if left then 0 else Gap(len, width)) + t + Repeat(' ', if left then Gap(len, width) else 0)
  }

  function CharText(w: Word, width: nat, left: bool): string {
    PaddedText([(w % 0x100) as char], 1, width, left)
  }

  /** How much of a string %s prints. */
  function Shown(s: string, prec: nat, f: Flags): string {
    if f.precision && prec < |s| then s[..prec] else s
  }

  /** The length is an unsigned int. */
  function StringText(s: string, width: nat, prec: nat, f: Flags): string {
    PaddedText(Shown(s, prec, f), ShownLength(s, prec, f), width, f.left)
  }

  function ShownLength(s: string, prec: nat, f: Flags): nat {
    var l := (if prec > 0 && prec < |s| then prec else |s|) % 0x1_0000_0000;
    if f.precision && prec <= l then prec else l
  }

  function PointerText(w: Word, prec: nat, f: Flags): string {
    Number(w, false, 16, prec, 16, f.(zeropad := true, upper := true))
  }

  /** Any other specifier prints itself, % among them. */
  predicate TakesArgument(c: char) {
    IsInteger(c) || c == 'c' || c == 's' || c == 'p'
  }

  predicate Matches(arg: Arg, c: char) {
    arg.Text? <==> c == 's'
  }

  function ArgumentText(arg: Arg, c: char, width: nat, prec: nat, f: Flags): string
    requires TakesArgument(c) && Matches(arg, c)
  {
    if c == 's' then StringText(arg.s, width, prec, f)
    else if c == 'c' then CharText(arg.bits, width, f.left)
    else if c == 'p' then PointerText(arg.bits, prec, f)
    else IntegerText(arg.bits, c, width, prec, f)
  }

  /** A conversion: its text, and the rest of the format and of the arguments.  Stuck: an argument is missing
      or of another type, or the format ends before the specifier, so that the code reads past its end. */
  datatype Converted = Converted(text: string, rest: string, args: seq<Arg>) | Stuck

  function Convert(s: Scan): (r: Converted)
    ensures r.Converted? ==> s.Scan? && |r.rest| < |s.rest|
  {
    if s.Undefined? || s.rest == "" then Stuck
    else
      var c, rest := s.rest[0], s.rest[1..];
      if !TakesArgument(c) then Converted([c], rest, s.args)
      else if s.args == [] || !Matches(s.args[0], c) then Stuck
      else Converted(ArgumentText(s.args[0], c, s.width, s.prec, s.f), rest, s.args[1..])
  }

  /** What a format prints: Nothing when its behaviour is undefined. */
  datatype Output = Printed(text: string) | Nothing

  function After(t: string, o: Output): Output {
    if o.Printed? then Printed(t + o.text) else o
  }

  function Format(fmt: string, args: seq<Arg>): Output
    decreases |fmt|
  {
    if fmt == "" then Printed("")
    else if fmt[0] != '%' then After([fmt[0]], Format(fmt[1..], args))
    else
      match Convert(Directive(fmt[1..], args))
      case Converted(t, rest, args') => After(t, Format(rest, args'))
      case Stuck => Nothing
  }
}
