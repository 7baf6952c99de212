/** _vsnprintf (fckrnl/libk/kprintf/kprintf.c) with the buffer output function. */
module Printf {
  import opened Bits
  import opened PrintfOutput
  import opened PrintfNumbers
  import opened PrintfFormat

  lemma Tail(fmt: string, i: nat)
    requires i < |fmt|
    ensures fmt[i..] != "" && fmt[i..][0] == fmt[i] && fmt[i..][1..] == fmt[i + 1..]
  {
  }

  /** _is_digit(*format): at the end of the format is its NUL. */
  function CharAt(fmt: CString, i: nat): (c: char)
    requires i <= |fmt|
    ensures c == At(fmt[i..])
  {
    if i < |fmt| then fmt[i] else '\0'
  }

  // ----- reading the format

  method ReadFlags(fmt: CString, start: nat) returns (f: Flags, i: nat)
    requires start <= |fmt|
    ensures start <= i <= |fmt| && FlagField(fmt[start..], NO_FLAGS) == (f, fmt[i..])
  {
    f, i := NO_FLAGS, start;
    while IsFlag(CharAt(fmt, i))
      invariant start <= i <= |fmt|
      invariant FlagField(fmt[start..], NO_FLAGS) == FlagField(fmt[i..], f)
      decreases |fmt| - i
    {
      Tail(fmt, i);
      f := WithFlag(f, fmt[i]);
      i := i + 1;
    }
  }

  /** _atoi. */
  method ReadNumber(fmt: CString, start: nat) returns (n: nat, i: nat)
    requires start <= |fmt|
    ensures start <= i <= |fmt| && Atoi(fmt[start..], 0) == (n, fmt[i..])
  {
    n, i := 0, start;
    while IsDigit(CharAt(fmt, i))
      invariant start <= i <= |fmt|
      invariant Atoi(fmt[start..], 0) == Atoi(fmt[i..], n)
      decreases |fmt| - i
    {
      Tail(fmt, i);
      n := (n * 10 + (fmt[i] as int - '0' as int)) % 0x1_0000_0000;
      i := i + 1;
    }
  }

  /** The state of the parse, with positions in the format and in the arguments. */
  function ParserState(fmt: CString, args: seq<Arg>, f: Flags, width: nat, prec: nat, i: nat, a: nat): Scan
    requires i <= |fmt| && a <= |args|
  {
    Scan(f, width, prec, fmt[i..], args[a..])
  }

  method ReadWidth(fmt: CString, args: seq<Arg>, flags: Flags, start: nat, first: nat)
      returns (f: Flags, width: nat, i: nat, a: nat)
    requires start <= |fmt| && first <= |args|
    requires WidthField(ParserState(fmt, args, flags, 0, 0, start, first)).Scan?
    ensures start <= i <= |fmt| && a <= |args|
    ensures ParserState(fmt, args, f, width, 0, i, a) == WidthField(ParserState(fmt, args, flags, 0, 0, start, first))
  {
    f, width, i, a := flags, 0, start, first;
    if IsDigit(CharAt(fmt, i)) {
      width, i := ReadNumber(fmt, i);
    } else if CharAt(fmt, i) == '*' {
      var w := IntArg(args[a].bits);
      if w < 0 {
        f, width := f.(left := true), 0 - w;
      } else {
        width := w;
      }
      i, a := i + 1, a + 1;
    }
  }

  method ReadPrecision(fmt: CString, args: seq<Arg>, flags: Flags, ghost width: nat, start: nat, first: nat)
      returns (f: Flags, prec: nat, i: nat, a: nat)
    requires start <= |fmt| && first <= |args|
    requires PrecisionField(ParserState(fmt, args, flags, width, 0, start, first)).Scan?
    ensures start <= i <= |fmt| && a <= |args|
    ensures ParserState(fmt, args, f, width, prec, i, a) == PrecisionField(ParserState(fmt, args, flags, width, 0, start, first))
  {
    f, prec, i, a := flags, 0, start, first;
    if CharAt(fmt, i) == '.' {
      Tail(fmt, i);
      f, i := f.(precision := true), i + 1;
      if IsDigit(CharAt(fmt, i)) {
        prec, i := ReadNumber(fmt, i);
      } else if CharAt(fmt, i) == '*' {
        Tail(fmt, i);
        var p := IntArg(args[a].bits);
        prec := if p > 0 then p else 0;
        i, a := i + 1, a + 1;
      }
    }
  }

  method ReadLength(fmt: CString, flags: Flags, start: nat, ghost width: nat, ghost prec: nat, ghost args: seq<Arg>)
      returns (f: Flags, i: nat)
    requires start <= |fmt|
    ensures start <= i <= |fmt|
    ensures ParserState(fmt, args, f, width, prec, i, 0) == LengthField(ParserState(fmt, args, flags, width, prec, start, 0))
  {
    f, i := flags, start;
    var c := CharAt(fmt, i);
    if c == 'l' {
      Tail(fmt, i);
      f, i := f.(isLong := true), i + 1;
      if CharAt(fmt, i) == 'l' {
        Tail(fmt, i);
        f, i := f.(isLongLong := true), i + 1;
      }
    } else if c == 'h' {
      Tail(fmt, i);
      f, i := f.(isShort := true), i + 1;
      if CharAt(fmt, i) == 'h' {
        Tail(fmt, i);
        f, i := f.(isChar := true), i + 1;
      }
    } else if c == 't' || c == 'j' || c == 'z' {
      f, i := f.(isLong := true), i + 1;
    }
  }

  /** The fields of one conversion, up to its specifier. */
  method ReadDirective(fmt: CString, args: seq<Arg>, start: nat, first: nat)
      returns (f: Flags, width: nat, prec: nat, i: nat, a: nat)
    requires start <= |fmt| && first <= |args|
    requires Directive(fmt[start..], args[first..]).Scan?
    ensures start <= i <= |fmt| && a <= |args|
    ensures ParserState(fmt, args, f, width, prec, i, a) == Directive(fmt[start..], args[first..])
  {
    f, i := ReadFlags(fmt, start);
    a := first;
    f, width, i, a := ReadWidth(fmt, args, f, i, a);
    f, prec, i, a := ReadPrecision(fmt, args, f, width, i, a);
    f, i := ReadLength(fmt, f, i, width, prec, args[a..]);
  }

  // ----- writing the conversions

  method OutInteger(buffer: array<char>, start: nat, maxlen: nat, w: Word, c: char, width: nat, prec: nat, flags: Flags)
      returns (idx: nat)
    requires Safe(buffer.Length, start + |IntegerText(w, c, width, prec, flags)|, maxlen)
    modifies buffer
    ensures idx == start + |IntegerText(w, c, width, prec, flags)|
    ensures buffer[..] == Put(old(buffer[..]), start, IntegerText(w, c, width, prec, flags), maxlen)
  {
    var f := IntegerFlags(flags, c);
    if c == 'd' || c == 'i' {
      var value := SignedArg(w, f);
      idx := NtoaLong(buffer, start, maxlen, Magnitude(value), value < 0, BaseOf(c), prec, width, f);
    } else {
      idx := NtoaLong(buffer, start, maxlen, UnsignedArg(w, f), false, BaseOf(c), prec, width, f);
    }
  }

  method OutText(buffer: array<char>, start: nat, maxlen: nat, t: string) returns (idx: nat)
    requires Safe(buffer.Length, start + |t|, maxlen)
    modifies buffer
    ensures idx == start + |t|
    ensures buffer[..] == Put(old(buffer[..]), start, t, maxlen)
  {
    idx := start;
    var k := 0;
    PutNothing(buffer[..], start, maxlen);
    while k < |t|
      invariant 0 <= k <= |t| && idx == start + k
      invariant buffer[..] == Put(old(buffer[..]), start, t[..k], maxlen)
    {
      PutPut(old(buffer[..]), start, t[..k], [t[k]], maxlen);
      assert t[..k] + [t[k]] == t[..k + 1];
      Out(t[k], buffer, idx, maxlen);
      k, idx := k + 1, idx + 1;
    }
    assert t[..k] == t;
  }

  /** The pre padding, the characters and the post padding of %c and %s. */
  method OutPadded(buffer: array<char>, start: nat, maxlen: nat, t: string, len: nat, width: nat, left: bool)
      returns (idx: nat)
    requires Safe(buffer.Length, start + |PaddedText(t, len, width, left)|, maxlen)
    modifies buffer
    ensures idx == start + |PaddedText(t, len, width, left)|
    ensures buffer[..] == Put(old(buffer[..]), start, PaddedText(t, len, width, left), maxlen)
  {
    ghost var b0 := buffer[..];
    ghost var before, after := Repeat(' ', if left then 0 else Gap(len, width)), Repeat(' ', if left then Gap(len, width) else 0);
    idx := OutSpaces(buffer, start, maxlen, len, if left then len else width);
    PutPut(b0, start, before, t, maxlen);
    idx := OutText(buffer, idx, maxlen, t);
    PutPut(b0, start, before + t, after, maxlen);
    idx := OutSpaces(buffer, idx, maxlen, len, if left then width else len);
  }

  method OutString(buffer: array<char>, start: nat, maxlen: nat, s: CString, width: nat, prec: nat, f: Flags)
      returns (idx: nat)
    requires Safe(buffer.Length, start + |StringText(s, width, prec, f)|, maxlen)
    modifies buffer
    ensures idx == start + |StringText(s, width, prec, f)|
    ensures buffer[..] == Put(old(buffer[..]), start, StringText(s, width, prec, f), maxlen)
  {
    var l := Strnlen(s, if prec > 0 then prec else |s|);
    l := l % 0x1_0000_0000;
    if f.precision { l := if l < prec then l else prec; }
    idx := OutPadded(buffer, start, maxlen, Shown(s, prec, f), l, width, f.left);
  }

  /** _strnlen_s. */
  method Strnlen(s: CString, maxsize: nat) returns (len: nat)
    ensures len == if maxsize < |s| then maxsize else |s|
  {
    len := 0;
    var left := maxsize;
    while len < |s| && left > 0
      invariant len <= |s| && len + left == maxsize
      decreases left
    {
      len, left := len + 1, left - 1;
    }
  }

  /** The specifiers that print an argument. */
  method OutArgument(buffer: array<char>, start: nat, maxlen: nat, c: char, arg: Arg, f: Flags, width: nat, prec: nat)
      returns (idx: nat)
    requires TakesArgument(c) && Matches(arg, c)
    requires Safe(buffer.Length, start + |ArgumentText(arg, c, width, prec, f)|, maxlen)
    modifies buffer
    ensures idx == start + |ArgumentText(arg, c, width, prec, f)|
    ensures buffer[..] == Put(old(buffer[..]), start, ArgumentText(arg, c, width, prec, f), maxlen)
  {
    if IsInteger(c) {
      idx := OutInteger(buffer, start, maxlen, arg.bits, c, width, prec, f);
    } else if c == 'c' {
      idx := OutPadded(buffer, start, maxlen, [(arg.bits % 0x100) as char], 1, width, f.left);
    } else if c == 's' {
      idx := OutString(buffer, start, maxlen, arg.s, width, prec, f);
    } else {
      idx := NtoaLong(buffer, start, maxlen, arg.bits, false, 16, prec, 16, f.(zeropad := true, upper := true));
    }
  }

  /** One conversion, from behind its % on. */
  method OutConversion(buffer: array<char>, start: nat, maxlen: nat, fmt: CString, args: seq<Arg>, from: nat, first: nat)
      returns (idx: nat, i: nat, a: nat)
    requires from <= |fmt| && first <= |args|
    requires Convert(Directive(fmt[from..], args[first..])).Converted?
    requires Safe(buffer.Length, start + |Convert(Directive(fmt[from..], args[first..])).text|, maxlen)
    modifies buffer
    ensures from < i <= |fmt| && a <= |args|
    ensures var r := Convert(Directive(fmt[from..], args[first..]));
      && r == Converted(r.text, fmt[i..], args[a..])
      && idx == start + |r.text| && buffer[..] == Put(old(buffer[..]), start, r.text, maxlen)
  {
    var f, width, prec;
    f, width, prec, i, a := ReadDirective(fmt, args, from, first);
    Tail(fmt, i);
    var c := fmt[i];
    i := i + 1;
    if TakesArgument(c) {
      idx := OutArgument(buffer, start, maxlen, c, args[a], f, width, prec);
      a := a + 1;
    } else {
      Out(c, buffer, start, maxlen);
      idx := start + 1;
    }
  }

  // ----- the whole

  lemma LowHalf(idx: nat)
    ensures var r := IntArg(idx % 0x1_0000_0000_0000_0000);
      (idx - r) % 0x1_0000_0000 == 0 && (idx < 0x8000_0000 ==> r == idx)
  {
    var low := idx % 0x1_0000_0000_0000_0000;
    var q, d, k := idx / 0x1_0000_0000_0000_0000, low / 0x1_0000_0000, low % 0x1_0000_0000;
    var h := if k < 0x8000_0000 then 0 else 1;
    assert IntArg(low) == k - h * 0x1_0000_0000;
    MultipleOf((q * 0x1_0000_0000 + d + h), idx - IntArg(low));
  }

  lemma MultipleOf(n: int, x: int)
    requires x == n * 0x1_0000_0000
    ensures x % 0x1_0000_0000 == 0
  {
  }

  /** (int)idx. */
  function ReturnValue(idx: nat): (r: int)
    ensures idx < 0x8000_0000 ==> r == idx
    ensures -0x8000_0000 <= r < 0x8000_0000 && (idx - r) % 0x1_0000_0000 == 0
  {
    LowHalf(idx);
    IntArg(idx % 0x1_0000_0000_0000_0000)
  }

  /** text is out, and fmt and args are still to come.  The definition is opened by a lemma below. */
  ghost predicate Remaining(all: Output, text: string, fmt: string, args: seq<Arg>) {
    forall k: nat {:trigger RemainingAt(all, text, fmt, args, k)} :: RemainingAt(all, text, fmt, args, k)
  }

  ghost predicate RemainingAt(all: Output, text: string, fmt: string, args: seq<Arg>, k: nat) {
    all == After(text, Format(fmt, args))
  }

  lemma RemainingMeans(all: Output, text: string, fmt: string, args: seq<Arg>)
    ensures Remaining(all, text, fmt, args) <==> all == After(text, Format(fmt, args))
  {
    if Remaining(all, text, fmt, args) { assert RemainingAt(all, text, fmt, args, 0); }
  }

  lemma AllRemains(fmt: string, args: seq<Arg>)
    ensures Remaining(Format(fmt, args), "", fmt, args)
  {
    RemainingMeans(Format(fmt, args), "", fmt, args);
    if Format(fmt, args).Printed? { assert "" + Format(fmt, args).text == Format(fmt, args).text; }
  }

  lemma NothingRemains(all: Output, text: string, args: seq<Arg>)
    requires Remaining(all, text, "", args)
    ensures all == Printed(text)
  {
    RemainingMeans(all, text, "", args);
    assert text + "" == text;
  }

  /** One round of _vsnprintf: a character of the format, or a conversion. */
  method OutPiece(buffer: array<char>, start: nat, maxlen: Word, fmt: CString, args: seq<Arg>, from: nat, first: nat,
                  ghost b0: seq<char>, ghost all: Output, ghost text: string)
      returns (idx: nat, i: nat, a: nat, ghost text': string)
    requires from < |fmt| && first <= |args| && all.Printed? && Remaining(all, text, fmt[from..], args[first..])
    requires Safe(buffer.Length, |all.text|, maxlen) && start == |text| && buffer[..] == Put(b0, 0, text, maxlen)
    modifies buffer
    ensures from < i <= |fmt| && a <= |args| && Remaining(all, text', fmt[i..], args[a..])
    ensures idx == |text'| && buffer[..] == Put(b0, 0, text', maxlen)
  {
    RemainingMeans(all, text, fmt[from..], args[first..]);
    Tail(fmt, from);
    ghost var piece;
    if fmt[from] != '%' {
      piece := [fmt[from]];
      Out(fmt[from], buffer, start, maxlen);
      idx, i, a := start + 1, from + 1, first;
    } else {
      piece := Convert(Directive(fmt[from + 1..], args[first..])).text;
      idx, i, a := OutConversion(buffer, start, maxlen, fmt, args, from + 1, first);
    }
    PutPut(b0, 0, text, piece, maxlen);
    AfterAfter(text, piece, Format(fmt[i..], args[a..]));
    text' := text + piece;
    RemainingMeans(all, text', fmt[i..], args[a..]);
  }

  /** The loop of _vsnprintf. */
  method OutFormat(buffer: array<char>, maxlen: Word, fmt: CString, args: seq<Arg>) returns (idx: nat)
    requires Format(fmt, args).Printed?
    requires Safe(buffer.Length, |Format(fmt, args).text|, maxlen)
    modifies buffer
    ensures idx == |Format(fmt, args).text|
    ensures buffer[..] == Put(old(buffer[..]), 0, Format(fmt, args).text, maxlen)
  {
    ghost var b0, all := buffer[..], Format(fmt, args);
    ghost var text := "";
    var i: nat, a: nat := 0, 0;
    idx := 0;
    PutNothing(b0, 0, maxlen);
    AllRemains(fmt, args);
    assert fmt[0..] == fmt && args[0..] == args;
    while i < |fmt|
      invariant i <= |fmt| && a <= |args| && idx == |text|
      invariant Remaining(all, text, fmt[i..], args[a..])
      invariant buffer[..] == Put(b0, 0, text, maxlen)
      decreases |fmt| - i
    {
      idx, i, a, text := OutPiece(buffer, idx, maxlen, fmt, args, i, a, b0, all, text);
    }
    assert fmt[i..] == "";
    NothingRemains(all, text, args[a..]);
  }

  /** _vsnprintf, which is snprintf with the arguments as a list (section 7.21.6.5 of C11). */
  method Vsnprintf(buffer: array<char>, maxlen: Word, fmt: CString, args: seq<Arg>) returns (r: int)
    requires Format(fmt, args).Printed?
    requires Safe(buffer.Length, |Format(fmt, args).text| + 1, maxlen)
    modifies buffer
    ensures r == ReturnValue(|Format(fmt, args).text|)
    ensures buffer[..] == Bounded(old(buffer[..]), Format(fmt, args).text, maxlen)
    ensures forall i :: 0 <= i < buffer.Length ==>
      buffer[i] == CharAfter(old(buffer[i]), Format(fmt, args).text, maxlen, i)
  {
    ghost var b0, text := buffer[..], Format(fmt, args).text;
    var idx := OutFormat(buffer, maxlen, fmt, args);
    TerminatedIsBounded(b0, text, maxlen);
    Out('\0', buffer, LastIndex(idx, maxlen), maxlen);
    r := ReturnValue(idx);
    forall i: nat | i < buffer.Length ensures buffer[i] == Bounded(b0, text, maxlen)[i] && b0[i] == old(buffer[i]) {}
    forall i: nat | i < buffer.Length { BoundedAt(b0, text, maxlen, i); }
  }

  lemma AfterAfter(s: string, t: string, o: Output)
    ensures After(s, After(t, o)) == After(s + t, o)
  {
    if o.Printed? { assert s + (t + o.text) == s + t + o.text; }
  }
}
