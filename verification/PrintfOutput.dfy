/** The output side of the formatter (fckrnl/libk/kprintf/kprintf.c): a bounded buffer filled left to right. */
module PrintfOutput {

  /** The buffer after writing text t from position idx on, where only positions below maxlen are stored. */
  function Put(b: seq<char>, idx: nat, t: string, maxlen: nat): (r: seq<char>)
    ensures |r| == |b|
  {
    seq(|b|, j requires 0 <= j < |b| => if idx <= j < idx + |t| && j < maxlen then t[j - idx] else b[j])
  }

  lemma PutPut(b: seq<char>, idx: nat, s: string, t: string, maxlen: nat)
    ensures Put(Put(b, idx, s, maxlen), idx + |s|, t, maxlen) == Put(b, idx, s + t, maxlen)
  {
  }

  lemma PutThrice(b: seq<char>, idx: nat, s: string, t: string, u: string, maxlen: nat)
    ensures Put(Put(Put(b, idx, s, maxlen), idx + |s|, t, maxlen), idx + |s| + |t|, u, maxlen)
         == Put(b, idx, s + t + u, maxlen)
  {
    PutPut(b, idx, s, t, maxlen);
    PutPut(b, idx, s + t, u, maxlen);
  }

  lemma PutNothing(b: seq<char>, idx: nat, maxlen: nat)
    ensures Put(b, idx, "", maxlen) == b
  {
  }

  function Repeat(c: char, n: nat): (r: string)
    ensures |r| == n && forall i :: 0 <= i < n ==> r[i] == c
  {
    seq(n, _ => c)
  }

  /** How far n is above len. */
  function Gap(len: nat, n: nat): nat {
    if len < n then n - len else 0
  }

  function Reversed(s: string): (r: string)
    ensures |r| == |s| && forall i :: 0 <= i < |s| ==> r[i] == s[|s| - 1 - i]
  {
    seq(|s|, i requires 0 <= i < |s| => s[|s| - 1 - i])
  }

  /** Writing up to position end stays inside the buffer. */
  predicate Safe(size: nat, end: nat, maxlen: nat) {
    maxlen <= size || end <= size
  }

  /** _out_buffer. */
  method Out(c: char, buffer: array<char>, idx: nat, maxlen: nat)
    requires Safe(buffer.Length, idx + 1, maxlen)
    modifies buffer
    ensures buffer[..] == Put(old(buffer[..]), idx, [c], maxlen)
  {
    if idx < maxlen { buffer[idx] := c; }
  }

  /** The padding loops: a space for each i from len up to width. */
  method OutSpaces(buffer: array<char>, start: nat, maxlen: nat, len: nat, width: nat) returns (idx: nat)
    requires Safe(buffer.Length, start + Gap(len, width), maxlen)
    modifies buffer
    ensures idx == start + Gap(len, width)
    ensures buffer[..] == Put(old(buffer[..]), start, Repeat(' ', Gap(len, width)), maxlen)
  {
    idx := start;
    var i := len;
    PutNothing(buffer[..], start, maxlen);
    while i < width
      invariant len <= i && (i <= width || i == len) && idx == start + i - len
      invariant buffer[..] == Put(old(buffer[..]), start, Repeat(' ', i - len), maxlen)
    {
      PutPut(old(buffer[..]), start, Repeat(' ', i - len), [' '], maxlen);
      assert Repeat(' ', i - len) + [' '] == Repeat(' ', i + 1 - len);
      Out(' ', buffer, idx, maxlen);
      i, idx := i + 1, idx + 1;
    }
  }

  /** The characters of b, last first. */
  method OutReversed(buffer: array<char>, start: nat, maxlen: nat, buf: array<char>, size: nat) returns (idx: nat)
    requires size <= buf.Length && buf != buffer
    requires Safe(buffer.Length, start + size, maxlen)
    modifies buffer
    ensures idx == start + size
    ensures buffer[..] == Put(old(buffer[..]), start, Reversed(buf[..size]), maxlen)
  {
    idx := start;
    var len := size;
    var text := Reversed(buf[..size]);
    PutNothing(buffer[..], start, maxlen);
    while len > 0
      invariant 0 <= len <= size && idx == start + size - len
      invariant buf[..] == old(buf[..])
      invariant buffer[..] == Put(old(buffer[..]), start, text[..size - len], maxlen)
    {
      len := len - 1;
      PutPut(old(buffer[..]), start, text[..size - len - 1], [buf[len]], maxlen);
      assert text[..size - len - 1] + [buf[len]] == text[..size - len];
      Out(buf[len], buffer, idx, maxlen);
      idx := idx + 1;
    }
    assert text[..size] == text;
  }

  /** What _out_rev writes: the reversed buffer, with spaces up to the width before or after it. */
  function RevText(b: string, width: nat, left: bool, zeropad: bool): (t: string)
  {
    Repeat(' ', if left || zeropad then 0 else Gap(|b|, width)) + Reversed(b) +
    Repeat(' ', if left then Gap(|b|, width) else 0)
  }

  /** _out_rev. */
  method OutRev(buffer: array<char>, start: nat, maxlen: nat, buf: array<char>, len: nat, width: nat,
                left: bool, zeropad: bool)
      returns (idx: nat)
    requires len <= buf.Length && buf != buffer
    requires Safe(buffer.Length, start + |RevText(buf[..len], width, left, zeropad)|, maxlen)
    modifies buffer
    ensures idx == start + |RevText(old(buf[..len]), width, left, zeropad)|
    ensures buffer[..] == Put(old(buffer[..]), start, RevText(old(buf[..len]), width, left, zeropad), maxlen)
  {
    ghost var b, b0 := buf[..len], buffer[..];
    ghost var before := Repeat(' ', if left || zeropad then 0 else Gap(len, width));
    ghost var after := Repeat(' ', if left then Gap(len, width) else 0);
    PutThrice(b0, start, before, Reversed(b), after, maxlen);
    idx := OutSpaces(buffer, start, maxlen, len, if left || zeropad then len else width);
    assert buffer[..] == Put(b0, start, before, maxlen);
    idx := OutReversed(buffer, idx, maxlen, buf, len);
    assert buffer[..] == Put(Put(b0, start, before, maxlen), start + |before|, Reversed(b), maxlen);
    idx := OutSpaces(buffer, idx, maxlen, idx - start, if left then width else idx - start);
    assert RevText(b, width, left, zeropad) == before + Reversed(b) + after;
  }

  /** What a caller of snprintf may rely on (section 7.21.6.5 of C11): the first count - 1 characters of
      the text at most, and a NUL; nothing at all when count is 0. */
  function Bounded(b: seq<char>, text: string, count: nat): (r: seq<char>)
    requires count == 0 || |b| > (if |text| < count then |text| else count - 1)
  {
    if count == 0 then b
    else
      var k := if |text| < count then |text| else count - 1;
      text[..k] + ['\0'] + b[k + 1..]
  }

  /** Character i of such a buffer, which it was before. */
  function CharAfter(was: char, text: string, count: nat, i: nat): char {
    if count > 0 && i < |text| && i < count - 1 then text[i]
    else if count > 0 && (i == |text| < count || i == count - 1 <= |text|) then '\0'
    else was
  }

  lemma BoundedAt(b: seq<char>, text: string, count: nat, i: nat)
    requires count == 0 || |b| > (if |text| < count then |text| else count - 1)
    requires i < |b|
    ensures |Bounded(b, text, count)| == |b| && Bounded(b, text, count)[i] == CharAfter(b[i], text, count, i)
  {
  }

  /** The last line of _vsnprintf: the NUL goes to idx, or to maxlen - 1 computed in 64 bits. */
  function LastIndex(idx: nat, maxlen: nat): nat
    requires maxlen < 0x1_0000_0000_0000_0000
  {
    if idx < maxlen then idx else (maxlen - 1) % 0x1_0000_0000_0000_0000
  }

  lemma TerminatedIsBounded(b: seq<char>, text: string, maxlen: nat)
    requires maxlen < 0x1_0000_0000_0000_0000 && Safe(|b|, |text| + 1, maxlen)
    ensures Put(Put(b, 0, text, maxlen), LastIndex(|text|, maxlen), ['\0'], maxlen) == Bounded(b, text, maxlen)
  {
  }
}
