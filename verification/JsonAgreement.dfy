/** The strict JSON parser accepts the RFC 8259 grammar, and nothing else. */
module JsonAgreement {
  import opened Wrappers
  import opened Bytes
  import opened JsonSpec
  import opened JsonGrammar

  // White space

  lemma {:induction false} SpaceSkips(ws: Bytes, t: Bytes)
    requires IsWs(ws) && (t == [] || !IsSpace(t[0]))
    ensures Space(ws + t) == t
  {
    if ws == [] {
      assert ws + t == t;
    } else {
      SpaceSkips(ws[1..], t);
      assert (ws + t)[1..] == ws[1..] + t;
    }
  }

  lemma {:induction false} SpaceIsWs(s: Bytes) returns (ws: Bytes)
    ensures IsWs(ws) && s == ws + Space(s)
  {
    if s != [] && IsSpace(s[0]) {
      var more := SpaceIsWs(s[1..]);
      ws := [s[0]] + more;
      assert s == [s[0]] + s[1..];
    } else {
      ws := [];
    }
  }

  // Numbers

  /** What may follow a value in a text: white space, a separator, a closing bracket, or nothing. */
  predicate Delimits(rest: Bytes) {
    rest == [] || IsSpace(rest[0]) || rest[0] == 0x2C || rest[0] == 0x5D || rest[0] == 0x7D
  }

  lemma {:induction false} DigitsOf(d: Bytes, t: Bytes)
    requires (forall i :: 0 <= i < |d| ==> IsDigit(d[i])) && (t == [] || !IsDigit(t[0]))
    ensures Digits(d + t) == |d|
  {
    if d == [] {
      assert d + t == t;
    } else {
      DigitsOf(d[1..], t);
      assert (d + t)[1..] == d[1..] + t;
    }
  }

  lemma IntComplete(minus: bool, d: Bytes, t: Bytes)
    requires AllDigits(d) && (d[0] == 0x30 ==> |d| == 1) && (t == [] || !IsDigit(t[0]))
    ensures IntEnd(SpellInteger(minus, d) + t) == |SpellInteger(minus, d)| > 0
  {
    var a := if minus then 1 else 0;
    var s := SpellInteger(minus, d) + t;
    assert s[a..] == d + t && s[a] == d[0] && IsDigit(d[0]);
    DigitsOf(d, t);
  }

  lemma FracComplete(p: Bytes, f: Option<Bytes>, t: Bytes)
    requires p != [] && (f.Some? ==> AllDigits(f.value)) && (t == [] || (!IsDigit(t[0]) && t[0] != 0x2E))
    ensures FracEnd(p + SpellFraction(f) + t, |p|) == |p| + |SpellFraction(f)|
  {
    var s := p + SpellFraction(f) + t;
    if f.Some? {
      assert s == p + ([0x2E] + (f.value + t));
      After(p, 0x2E, f.value + t);
      DigitsOf(f.value, t);
    } else {
      assert s == p + t;
      assert |p| < |s| ==> s[|p|] == t[0];
    }
  }

  lemma ExpUnsigned(s: Bytes, k: nat, d: Bytes, t: Bytes)
    requires 0 < k < |s| && (s[k] == 0x65 || s[k] == 0x45) && s[k + 1..] == d + t
    requires AllDigits(d) && (t == [] || !IsDigit(t[0]))
    ensures ExpEnd(s, k) == k + 1 + |d|
  {
    DigitsOf(d, t);
    assert s[k + 1] == (d + t)[0] == d[0] && IsDigit(d[0]);
    hide Digits, AllDigits;
  }

  lemma ExpSigned(s: Bytes, k: nat, d: Bytes, t: Bytes)
    requires 0 < k && k + 1 < |s| && (s[k] == 0x65 || s[k] == 0x45) && (s[k + 1] == 0x2B || s[k + 1] == 0x2D)
    requires AllDigits(d) && (t == [] || !IsDigit(t[0])) && s[k + 2..] == d + t
    ensures ExpEnd(s, k) == k + 2 + |d|
  {
    DigitsOf(d, t);
    hide Digits, AllDigits;
  }

  lemma ExpComplete(p: Bytes, e: Option<Exponent>, t: Bytes)
    requires p != [] && (e.Some? ==> AllDigits(e.value.digits)) && Delimits(t)
    ensures ExpEnd(p + SpellExponent(e) + t, |p|) == |p| + |SpellExponent(e)|
  {
    var s := p + SpellExponent(e) + t;
    if e.None? {
      assert s == p + t;
      assert |p| < |s| ==> s[|p|] == t[0];
    } else {
      ExpWritten(p, e.value, e.value.digits + t, t);
      ExpAt(p, e.value, t, s);
    }
  }

  lemma ExpWritten(p: Bytes, e: Exponent, u: Bytes, t: Bytes)
    requires u == e.digits + t
    ensures var x := if e.upper then 0x45 else 0x65;
      p + SpellExponent(Some(e)) + t == if e.sign.None? then p + ([x] + u) else p + [x] + ([if e.sign.value then 0x2B else 0x2D] + u)
  {
  }

  lemma ExpAt(p: Bytes, e: Exponent, t: Bytes, s: Bytes)
    requires p != [] && AllDigits(e.digits) && (t == [] || !IsDigit(t[0]))
    requires s == p + SpellExponent(Some(e)) + t
    ensures ExpEnd(s, |p|) == |p| + |SpellExponent(Some(e))|
  {
    var x := if e.upper then 0x45 else 0x65;
    var u := e.digits + t;
    ExpWritten(p, e, u, t);
    hide ExpEnd, AllDigits;
    if e.sign.None? {
      assert s[|p|] == x && s[|p| + 1..] == u by { After(p, x, u); }
      ExpUnsigned(s, |p|, e.digits, t);
    } else {
      SignedCuts(p, x, if e.sign.value then 0x2B else 0x2D, u);
      hide SpellExponent;
      ExpSigned(s, |p|, e.digits, t);
    }
    ExponentLength(e);
  }

  lemma ExponentLength(e: Exponent)
    ensures |SpellExponent(Some(e))| == (if e.sign.Some? then 2 else 1) + |e.digits|
  {
  }

  lemma SignedCuts(p: Bytes, x: Byte, g: Byte, u: Bytes)
    ensures var s := p + [x] + ([g] + u); |s| > |p| + 1 && s[|p|] == x && s[|p| + 1] == g && s[|p| + 2..] == u
  {
    After(p + [x], g, u);
  }

  /** After the fraction comes no digit and no dot. */
  lemma AfterFraction(e: Option<Exponent>, rest: Bytes)
    requires Delimits(rest)
    ensures var t := SpellExponent(e) + rest; t == [] || (!IsDigit(t[0]) && t[0] != 0x2E)
  {
    var t := SpellExponent(e) + rest;
    if t != [] {
      assert e.None? ==> t == rest;
      assert e.Some? ==> t[0] == (if e.value.upper then 0x45 else 0x65);
    }
  }

  lemma AfterInteger(f: Option<Bytes>, e: Option<Exponent>, rest: Bytes)
    requires Delimits(rest)
    ensures var t := SpellFraction(f) + (SpellExponent(e) + rest); t == [] || !IsDigit(t[0])
  {
    AfterFraction(e, rest);
    hide SpellExponent;
    var t := SpellFraction(f) + (SpellExponent(e) + rest);
    if t != [] {
      assert f.None? ==> t == SpellExponent(e) + rest;
      assert f.Some? ==> t[0] == 0x2E;
    }
  }

  lemma NumberParts(i: Bytes, f: Bytes, e: Bytes, rest: Bytes)
    requires i != [] && IntEnd(i + (f + (e + rest))) == |i|
    requires FracEnd(i + f + (e + rest), |i|) == |i| + |f|
    requires ExpEnd(i + f + e + rest, |i| + |f|) == |i| + |f| + |e|
    ensures NumberEnd(i + f + e + rest) == |i| + |f| + |e|
  {
    hide IntEnd, FracEnd, ExpEnd;
    Assoc(i + f, e, rest);
    Assoc(i, f, e + rest);
  }

  lemma NumberComplete(n: Num, rest: Bytes)
    requires NumOk(n) && Delimits(rest)
    ensures NumberEnd(SpellNum(n) + rest) == |SpellNum(n)| > 0
  {
    var i, f, e := SpellInteger(n.minus, n.integer), SpellFraction(n.fraction), SpellExponent(n.exponent);
    hide IntEnd, FracEnd, ExpEnd, SpellInteger, SpellFraction, SpellExponent, Digits, Delimits, NumberEnd, AllDigits;
    assert IntEnd(i + (f + (e + rest))) == |i| > 0 by {
      AfterInteger(n.fraction, n.exponent, rest);
      IntComplete(n.minus, n.integer, f + (e + rest));
    }
    assert FracEnd(i + f + (e + rest), |i|) == |i| + |f| by {
      AfterFraction(n.exponent, rest);
      FracComplete(i, n.fraction, e + rest);
    }
    assert ExpEnd(i + f + e + rest, |i| + |f|) == |i| + |f| + |e| by {
      assert |i + f| == |i| + |f|;
      ExpComplete(i + f, n.exponent, rest);
    }
    NumberParts(i, f, e, rest);
  }

  lemma NumberStarts(n: Num)
    requires NumOk(n)
    ensures SpellNum(n) != [] && (SpellNum(n)[0] == 0x2D || IsDigit(SpellNum(n)[0]))
  {
    var i := SpellInteger(n.minus, n.integer);
    assert i[0] == if n.minus then 0x2D else n.integer[0];
    hide SpellFraction, SpellExponent, SpellInteger;
    assert SpellNum(n) == i + SpellFraction(n.fraction) + SpellExponent(n.exponent);
    assert SpellNum(n)[0] == i[0] && IsDigit(n.integer[0]);
  }

  lemma DigitsAre(s: Bytes, k: nat)
    requires k <= |s|
    ensures Digits(s[k..]) <= |s| - k
    ensures Digits(s[k..]) > 0 ==> AllDigits(s[k..k + Digits(s[k..])])
  {
    var t := s[k..];
    assert s[k..k + Digits(t)] == t[..Digits(t)];
  }

  lemma IntSound(s: Bytes) returns (minus: bool, d: Bytes)
    requires s != [] && IntEnd(s) > 0
    ensures AllDigits(d) && (d[0] == 0x30 ==> |d| == 1)
    ensures s[..IntEnd(s)] == SpellInteger(minus, d)
  {
    minus := s[0] == 0x2D;
    var a := if minus then 1 else 0;
    d := s[a..IntEnd(s)];
    DigitsAre(s, a);
    hide Digits;
    assert s[..IntEnd(s)] == s[..a] + d;
  }

  lemma FracSound(s: Bytes, k: nat) returns (f: Option<Bytes>)
    requires 0 < k <= |s| && FracEnd(s, k) > 0
    ensures f.Some? ==> AllDigits(f.value)
    ensures s[k..FracEnd(s, k)] == SpellFraction(f)
  {
    if k < |s| && s[k] == 0x2E {
      DigitsAre(s, k + 1);
      hide Digits;
      f := Some(s[k + 1..FracEnd(s, k)]);
    } else {
      f := None;
    }
  }

  lemma ExpSound(s: Bytes, k: nat) returns (e: Option<Exponent>)
    requires 0 < k <= |s| && ExpEnd(s, k) > 0
    ensures e.Some? ==> AllDigits(e.value.digits)
    ensures s[k..ExpEnd(s, k)] == SpellExponent(e)
  {
    if k < |s| && (s[k] == 0x65 || s[k] == 0x45) {
      var signed := k + 1 < |s| && (s[k + 1] == 0x2B || s[k + 1] == 0x2D);
      var a := if signed then k + 2 else k + 1;
      DigitsAre(s, a);
      hide Digits, AllDigits;
      var d := s[a..ExpEnd(s, k)];
      var x := Exponent(s[k] == 0x45, if signed then Some(s[k + 1] == 0x2B) else None, d);
      assert AllDigits(d);
      ExpSpelled(s, k, a, ExpEnd(s, k), x);
      e := Some(x);
    } else {
      e := None;
    }
  }

  lemma ExpSpelled(s: Bytes, k: nat, a: nat, end: nat, e: Exponent)
    requires k < a <= end <= |s| && a == (if e.sign.Some? then k + 2 else k + 1) && e.digits == s[a..end]
    requires s[k] == (if e.upper then 0x45 else 0x65)
    requires e.sign.Some? ==> s[k + 1] == (if e.sign.value then 0x2B else 0x2D)
    ensures s[k..end] == SpellExponent(Some(e))
  {
    assert s[k..end] == s[k..a] + s[a..end];
    if e.sign.Some? {
      assert s[k..a] == [s[k]] + [s[k + 1]];
    } else {
      assert s[k..a] == [s[k]] == [s[k]] + [];
    }
  }

  lemma CutTwice(s: Bytes, i: nat, j: nat, k: nat)
    requires i <= j <= k <= |s|
    ensures s[..k] == s[..i] + s[i..j] + s[j..k]
  {
  }

  lemma NumberSound(s: Bytes) returns (n: Num)
    requires s != [] && NumberEnd(s) > 0
    ensures NumOk(n) && SpellNum(n) == s[..NumberEnd(s)]
  {
    var i := IntEnd(s);
    var f := FracEnd(s, i);
    var minus, d := IntSound(s);
    var frac := FracSound(s, i);
    var exp := ExpSound(s, f);
    n := Num(minus, d, frac, exp);
    assert NumberEnd(s) == ExpEnd(s, f);
    hide IntEnd, FracEnd, ExpEnd, SpellInteger, SpellFraction, SpellExponent, AllDigits, NumberEnd;
    CutTwice(s, i, f, NumberEnd(s));
  }

  // Strings

  lemma CharOfUnit(s: Bytes, r: nat)
    requires |s| >= 2 && s[0] == 0x5C && s[1] == 0x75 && Hex4(s[2..]) == Some(r) && !IsSurrogate(r)
    ensures Char(s) == Some((Utf8Encode(r), 6))
  {
    hide Utf8Encode, Hex4;
  }

  lemma CharOfPair(s: Bytes, r: nat, low: nat)
    requires |s| >= 8 && s[0] == 0x5C && s[1] == 0x75 && s[6] == 0x5C && s[7] == 0x75
    requires Hex4(s[2..]) == Some(r) && Hex4(s[8..]) == Some(low) && 0xD800 <= r < 0xDC00 && 0xDC00 <= low < 0xE000
    ensures Char(s) == Some((Utf8Encode(Paired(r, low)), 12))
  {
    hide Utf8Encode, Hex4, Paired;
  }

  /** The grammar's table of escapes is the parser's. */
  lemma EscapesAgree(e: Byte)
    ensures SimpleEscape(e) <==> e as char in ESCAPES
    ensures SimpleEscape(e) ==> ESCAPES[e as char] as int == Unescape(e)
  {
  }

  lemma HexAgrees(c: Byte, v: nat)
    ensures HexDigit(c, v) <==> IsHex(c) && HexValue(c) == v
  {
  }

  /** Four digits are read as the unit they spell, and as no other. */
  lemma UnitAgrees(h: Bytes, u: nat)
    requires |h| == 4
    ensures SpellsUnit(h, u) <==> Hex4(h) == Some(u)
  {
    hide SpellsUnit, Hex4;
    if SpellsUnit(h, u) {
      SpelledIsRead(h, u);
    }
    if Hex4(h) == Some(u) {
      ReadIsSpelled(h, u);
    }
  }

  lemma SpelledIsRead(h: Bytes, u: nat)
    requires SpellsUnit(h, u)
    ensures Hex4(h) == Some(u)
  {
    HexAgrees(h[0], u / 0x1000);
    HexAgrees(h[1], u / 0x100 % 16);
    HexAgrees(h[2], u / 16 % 16);
    HexAgrees(h[3], u % 16);
    hide HexDigit, IsHex, HexValue;
    Digits16(u);
  }

  lemma Digits16(u: nat)
    requires u < 0x10000
    ensures ((u / 0x1000 * 16 + u / 0x100 % 16) * 16 + u / 16 % 16) * 16 + u % 16 == u
  {
    assert u / 16 / 16 == u / 0x100 && u / 0x100 / 16 == u / 0x1000;
  }

  lemma ReadIsSpelled(h: Bytes, u: nat)
    requires |h| == 4 && Hex4(h) == Some(u)
    ensures SpellsUnit(h, u)
  {
    hide HexDigit, IsHex, HexValue;
    var a, b, c, d := HexValue(h[0]), HexValue(h[1]), HexValue(h[2]), HexValue(h[3]);
    Nibbles(a, b, c, d, u);
    HexAgrees(h[0], a);
    HexAgrees(h[1], b);
    HexAgrees(h[2], c);
    HexAgrees(h[3], d);
  }

  lemma Nibbles(a: nat, b: nat, c: nat, d: nat, u: nat)
    requires a < 16 && b < 16 && c < 16 && d < 16 && u == ((a * 16 + b) * 16 + c) * 16 + d
    ensures a == u / 0x1000 && b == u / 0x100 % 16 && c == u / 16 % 16 && d == u % 16
  {
    assert u / 16 == (a * 16 + b) * 16 + c;
    assert u / 0x100 == a * 16 + b;
  }

  /** Pairing two units is undoing UTF-16. */
  lemma PairAgrees(r: nat, high: nat, low: nat)
    requires 0xD800 <= high < 0xDC00 && 0xDC00 <= low < 0xE000
    ensures UnitsOf(r, high, low) <==> r == Paired(high, low)
  {
  }

  lemma CharComplete(c: Ch, rest: Bytes)
    requires ChOk(c)
    ensures Char(SpellCh(c) + rest) == Some((ChBytes(c), |SpellCh(c)|))
  {
    var s := SpellCh(c) + rest;
    match c
    case Plain(b) =>
      hide Hex4, Utf8Encode, Paired;
    case Simple(e) =>
      hide Hex4, Utf8Encode, Paired;
      EscapesAgree(e);
    case Unit(h, u) =>
      UnitComplete(h, u, rest);
    case Surrogates(high, low, r) =>
      PairComplete(high, low, r, rest);
  }

  lemma UnitComplete(h: Bytes, u: nat, rest: Bytes)
    requires ChOk(Unit(h, u))
    ensures Char(SpellCh(Unit(h, u)) + rest) == Some((ChBytes(Unit(h, u)), 6))
  {
    var s := SpellCh(Unit(h, u)) + rest;
    hide Utf8Encode, Hex4, Char;
    assert s[0] == 0x5C && s[1] == 0x75 && s[2..] == h + rest;
    HexIsLocal(h, h + rest);
    UnitAgrees(h, u);
    CharOfUnit(s, u);
  }

  lemma PairComplete(high: Bytes, low: Bytes, r: nat, rest: Bytes)
    requires ChOk(Surrogates(high, low, r))
    ensures var c := Surrogates(high, low, r); Char(SpellCh(c) + rest) == Some((ChBytes(c), 12))
  {
    var a, b :| 0xD800 <= a < 0xDC00 && 0xDC00 <= b < 0xE000 && SpellsUnit(high, a) && SpellsUnit(low, b) && UnitsOf(r, a, b);
    hide Utf8Encode, Hex4, Char, Paired;
    var s := SpellCh(Surrogates(high, low, r)) + rest;
    PairCuts(high, low, rest);
    HexIsLocal(high, s[2..]);
    HexIsLocal(low, s[8..]);
    UnitAgrees(high, a);
    UnitAgrees(low, b);
    PairAgrees(r, a, b);
    CharOfPair(s, a, b);
  }

  lemma PairCuts(high: Bytes, low: Bytes, rest: Bytes)
    requires |high| == |low| == 4
    ensures var s := [0x5C, 0x75] + high + [0x5C, 0x75] + low + rest;
      && s[0] == 0x5C && s[1] == 0x75 && s[6] == 0x5C && s[7] == 0x75
      && high <= s[2..] && low <= s[8..]
  {
    var s := [0x5C, 0x75] + high + [0x5C, 0x75] + low + rest;
    assert s[2..] == high + ([0x5C, 0x75] + low + rest);
    assert s[8..] == low + rest;
  }

  lemma HexIsLocal(h: Bytes, s: Bytes)
    requires |h| == 4 && h <= s
    ensures Hex4(s) == Hex4(h)
  {
  }

  lemma CharSound(s: Bytes) returns (c: Ch)
    requires Char(s).Some?
    ensures ChOk(c) && SpellCh(c) == s[..Char(s).value.1] && ChBytes(c) == Char(s).value.0
  {
    hide Utf8Encode, Paired, SpellsUnit, HexDigit, UnitsOf;
    if s[0] != 0x5C {
      c := Plain(s[0]);
    } else if SimpleEscape(s[1]) {
      EscapesAgree(s[1]);
      c := Simple(s[1]);
    } else {
      var h := s[2..6];
      HexIsLocal(h, s[2..]);
      var u := Hex4(h).value;
      UnitAgrees(h, u);
      if !IsSurrogate(u) {
        c := Unit(h, u);
      } else {
        var l := s[8..12];
        HexIsLocal(l, s[8..]);
        UnitAgrees(l, Hex4(l).value);
        PairAgrees(Paired(u, Hex4(l).value), u, Hex4(l).value);
        c := Surrogates(h, l, Paired(u, Hex4(l).value));
      }
    }
  }

  lemma {:induction false} StrComplete(cs: seq<Ch>, rest: Bytes)
    requires StrOk(cs)
    ensures StrBody(SpellChars(cs) + [0x22] + rest) == Some((StrBytes(cs), rest))
  {
    var s := SpellChars(cs) + [0x22] + rest;
    if cs == [] {
      assert s[0] == 0x22 && s[1..] == rest;
    } else {
      var tail := SpellChars(cs[1..]) + [0x22] + rest;
      assert s == SpellCh(cs[0]) + tail;
      CharComplete(cs[0], tail);
      StrComplete(cs[1..], rest);
      assert s[|SpellCh(cs[0])|..] == tail;
      assert s[0] == SpellCh(cs[0])[0];
      hide ChBytes, Char;
    }
  }

  lemma StrSoundStep(s: Bytes, n: nat, c: Ch, more: seq<Ch>, rest: Bytes)
    requires n <= |s| && SpellCh(c) == s[..n] && s[n..] == SpellChars(more) + [0x22] + rest
    ensures s == SpellChars([c] + more) + [0x22] + rest
  {
    hide SpellCh;
    assert s == s[..n] + s[n..] && ([c] + more)[1..] == more;
  }

  lemma {:induction false} StrSound(s: Bytes) returns (cs: seq<Ch>)
    requires StrBody(s).Some?
    ensures StrOk(cs) && StrBytes(cs) == StrBody(s).value.0
    ensures s == SpellChars(cs) + [0x22] + StrBody(s).value.1
    decreases |s|
  {
    if s[0] == 0x22 {
      cs := [];
      assert s == [0x22] + s[1..];
    } else {
      var n := Char(s).value.1;
      var c := CharSound(s);
      hide Char, ChOk, ChBytes, SpellCh, SpellChars;
      var more := StrSound(s[n..]);
      cs := [c] + more;
      StrSoundStep(s, n, c, more, StrBody(s).value.1);
      assert cs[1..] == more;
    }
  }
}
