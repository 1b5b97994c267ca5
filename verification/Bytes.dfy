/** Bytes, UTF-8 and fixed-width numbers. */
module Bytes {
  type Byte = x: int | 0 <= x < 256

  type Bytes = seq<Byte>

  /** A text of the source as bytes. */
  function Ascii(s: string): (r: Bytes)
    requires forall i :: 0 <= i < |s| ==> s[i] <= '\U{7F}'
    ensures |r| == |s| && forall i :: 0 <= i < |s| ==> r[i] == s[i] as int
  {
    seq(|s|, i requires 0 <= i < |s| => s[i] as int)
  }

  predicate IsDigit(c: Byte) { 0x30 <= c <= 0x39 }

  predicate Continuation(c: Byte) { 0x80 <= c <= 0xBF }

  /** The length of the well-formed UTF-8 sequence at the front, by the table of RFC 3629 section 4; 0 if there is none. */
  function RuneLength(s: Bytes): (n: nat)
    ensures n <= 4 && n <= |s|
  {
    if s == [] then 0
    else if s[0] <= 0x7F then 1
    else if 0xC2 <= s[0] <= 0xDF then
      if |s| >= 2 && Continuation(s[1]) then 2 else 0
    else if 0xE0 <= s[0] <= 0xEF then
      if |s| >= 3 && Continuation(s[1]) && Continuation(s[2])
         && (s[0] == 0xE0 ==> s[1] >= 0xA0) && (s[0] == 0xED ==> s[1] <= 0x9F) then 3 else 0
    else if 0xF0 <= s[0] <= 0xF4 then
      if |s| >= 4 && Continuation(s[1]) && Continuation(s[2]) && Continuation(s[3])
         && (s[0] == 0xF0 ==> s[1] >= 0x90) && (s[0] == 0xF4 ==> s[1] <= 0x8F) then 4 else 0
    else 0
  }

  /** utf8.Valid. */
  predicate Utf8Valid(s: Bytes)
    decreases |s|
  {
    s == [] || (RuneLength(s) > 0 && Utf8Valid(s[RuneLength(s)..]))
  }

  /** utf8.AppendRune for a code point that is no surrogate. */
  function Utf8Encode(r: int): Bytes
    requires 0 <= r < 0x110000
  {
    if r < 0x80 then [r]
    else if r < 0x800 then [0xC0 + r / 0x40, 0x80 + r % 0x40]
    else if r < 0x10000 then [0xE0 + r / 0x1000, 0x80 + r / 0x40 % 0x40, 0x80 + r % 0x40]
    else [0xF0 + r / 0x40000, 0x80 + r / 0x1000 % 0x40, 0x80 + r / 0x40 % 0x40, 0x80 + r % 0x40]
  }

  lemma RuneBytes(s: Bytes)
    ensures RuneLength(s) > 1 ==> forall i :: 0 <= i < RuneLength(s) ==> s[i] >= 0x80
  {
  }

  /** Only the bytes of the sequence itself decide its length. */
  lemma RuneIsLocal(s: Bytes, t: Bytes)
    requires 0 < RuneLength(s) <= |t| && forall i :: 0 <= i < RuneLength(s) ==> t[i] == s[i]
    ensures RuneLength(t) == RuneLength(s)
  {
  }

  lemma RuneFitsBeforeAscii(a: Bytes, b: Bytes)
    requires a != [] && RuneLength(a + b) > 0 && (b == [] || b[0] <= 0x7F || a[|a| - 1] <= 0x7F)
    ensures RuneLength(a + b) <= |a| && RuneLength(a) == RuneLength(a + b)
  {
    var s := a + b;
    RuneBytes(s);
    assert s[|a| - 1] == a[|a| - 1] && (b != [] ==> s[|a|] == b[0]);
    RuneIsLocal(s, a);
  }

  /** Valid text can be cut next to an ASCII byte: no multi-byte sequence spans it. */
  lemma {:induction false} CutBeforeAscii(a: Bytes, b: Bytes)
    requires Utf8Valid(a + b) && (b == [] || b[0] <= 0x7F || (a != [] && a[|a| - 1] <= 0x7F))
    ensures Utf8Valid(a) && Utf8Valid(b)
    decreases |a|
  {
    if a == [] {
      assert a + b == b;
    } else {
      RuneFitsBeforeAscii(a, b);
      var n := RuneLength(a);
      assert (a + b)[n..] == a[n..] + b;
      hide RuneLength;
      if n < |a| {
        assert a[n..][|a[n..]| - 1] == a[|a| - 1];
        CutBeforeAscii(a[n..], b);
      } else {
        assert a[n..] + b == b;
      }
    }
  }

  // Regrouping, one step at a time

  lemma Assoc(a: Bytes, b: Bytes, c: Bytes)
    ensures a + b + c == a + (b + c)
  {
  }

  lemma After(p: Bytes, x: Byte, t: Bytes)
    ensures var s := p + ([x] + t); |p| < |s| && s[|p|] == x && s[|p| + 1..] == t
  {
  }

  lemma Front(x: Byte, t: Bytes)
    ensures ([x] + t)[0] == x && ([x] + t)[1..] == t
  {
  }
}
