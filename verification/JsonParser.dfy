/**
 * The parser object of internal/roleprotocol/json.go: one position that moves
 * through the text. Every method leaves the unread bytes, and answers the value,
 * that JsonSpec gives for the bytes it found.
 */
module JsonParser {
  import opened Wrappers
  import opened Bytes
  import S = JsonSpec

  const RUNE_ERROR := 0xFFFD

  /** utf16.DecodeRune. */
  function DecodeRune(high: nat, low: nat): (r: nat)
    ensures 0xD800 <= high < 0xDC00 ==> (r != RUNE_ERROR <==> 0xDC00 <= low < 0xE000)
    ensures r != RUNE_ERROR ==> 0x10000 <= r < 0x110000
  {
    if 0xD800 <= high < 0xDC00 && 0xDC00 <= low < 0xE000 then S.Paired(high, low) else RUNE_ERROR
  }

  /** What is still to be read, with what has been collected in front. */
  function Prepend<T>(xs: seq<T>, r: S.Parsed<seq<T>>): S.Parsed<seq<T>> {
    if r.None? then None else Some((xs + r.value.0, r.value.1))
  }

  lemma PrependTwice<T>(xs: seq<T>, ys: seq<T>, r: S.Parsed<seq<T>>)
    ensures Prepend(xs, Prepend(ys, r)) == Prepend(xs + ys, r)
  {
    if r.Some? {
      assert xs + (ys + r.value.0) == xs + ys + r.value.0;
    }
  }

  /** The cases of the loop of str. */
  lemma StrPhases(s: Bytes)
    ensures s == [] ==> S.StrBody(s).None?
    ensures s != [] && s[0] == 0x22 ==> S.StrBody(s) == Some(([], s[1..]))
    ensures s != [] && s[0] < 0x20 ==> S.StrBody(s).None?
    ensures s != [] && s[0] >= 0x20 && s[0] !in {0x22, 0x5C} ==> S.StrBody(s) == Prepend([s[0]], S.StrBody(s[1..]))
    ensures s != [] && s[0] == 0x5C ==>
              S.StrBody(s) == if S.Char(s).None? then None
                              else Prepend(S.Char(s).value.0, S.StrBody(s[S.Char(s).value.1..]))
  {
    hide S.Hex4, Utf8Encode, S.Paired;
  }

  lemma DigitsStep(s: Bytes)
    requires s != [] && IsDigit(s[0])
    ensures S.Digits(s) == 1 + S.Digits(s[1..])
  {
  }

  // The phases of an object and an array, as the specification sees them

  lemma ObjectPhases(t: Bytes, depth: nat)
    requires t != [] && t[0] == 0x7B
    ensures var u := S.Space(t[1..]);
      S.Core(t, depth) == if u != [] && u[0] == 0x7D then Some((S.Object([], 0), u[1..]))
                          else if S.Members(u, depth, {}).None? then None
                          else Some((S.Object(S.Members(u, depth, {}).value.0, 0), S.Members(u, depth, {}).value.1))
  {
    hide S.Members, S.Items, S.StrBody, S.NumberEnd, S.Space;
  }

  lemma ArrayPhases(t: Bytes, depth: nat)
    requires t != [] && t[0] == 0x5B
    ensures var u := S.Space(t[1..]);
      S.Core(t, depth) == if u != [] && u[0] == 0x5D then Some((S.Array([], 0), u[1..]))
                          else if S.Items(u, depth).None? then None
                          else Some((S.Array(S.Items(u, depth).value.0, 0), S.Items(u, depth).value.1))
  {
    hide S.Members, S.Items, S.StrBody, S.NumberEnd, S.Space;
  }

  lemma ItemsPhases(s: Bytes, depth: nat)
    ensures var r := S.Value(s, depth + 1);
      && (r.None? || S.Space(r.value.1) == [] || S.Space(r.value.1)[0] !in {0x2C, 0x5D} ==> S.Items(s, depth).None?)
      && (r.Some? && S.Space(r.value.1) != [] ==>
            var n, t := r.value.0, S.Space(r.value.1);
            && (t[0] == 0x5D ==> S.Items(s, depth) == Some(([n], t[1..])))
            && (t[0] == 0x2C ==> S.Items(s, depth) == Prepend([n], S.Items(t[1..], depth))))
  {
    hide S.Value, S.Space;
  }

  /** What a member is read as, up to the byte after it; the key may be a repeated one. */
  function MemberAt(s: Bytes, depth: nat): S.Parsed<S.Member> {
    var u := S.Space(s);
    if u == [] || u[0] != 0x22 || S.StrBody(u[1..]).None? then None
    else
      var key := S.StrBody(u[1..]).value;
      var v := S.Space(key.1);
      if v == [] || v[0] != 0x3A || S.Value(v[1..], depth).None? then None
      else
        var n := S.Value(v[1..], depth).value;
        Some((S.Member(key.0, n.0), S.Space(n.1)))
  }

  lemma MembersPhases(s: Bytes, depth: nat, seen: set<Bytes>)
    ensures var r := MemberAt(s, depth + 1);
      && (r.None? || r.value.0.key in seen || r.value.1 == [] || r.value.1[0] !in {0x2C, 0x7D} ==>
            S.Members(s, depth, seen).None?)
      && (r.Some? && r.value.0.key !in seen && r.value.1 != [] ==>
            var m, t := r.value.0, r.value.1;
            && (t[0] == 0x7D ==> S.Members(s, depth, seen) == Some(([m], t[1..])))
            && (t[0] == 0x2C ==> S.Members(s, depth, seen) == Prepend([m], S.Members(t[1..], depth, seen + {m.key}))))
  {
    hide S.Value, S.StrBody, S.Space;
  }

  // The phases of a number, as the specification sees them

  lemma NumberPhases(t: Bytes)
    requires t != []
    ensures S.IntEnd(t) == 0 ==> S.NumberEnd(t) == 0
    ensures S.IntEnd(t) > 0 && S.FracEnd(t, S.IntEnd(t)) == 0 ==> S.NumberEnd(t) == 0
    ensures S.IntEnd(t) > 0 && S.FracEnd(t, S.IntEnd(t)) > 0 ==> S.NumberEnd(t) == S.ExpEnd(t, S.FracEnd(t, S.IntEnd(t)))
  {
    hide S.IntEnd, S.FracEnd, S.ExpEnd;
  }

  lemma IntPhase(t: Bytes)
    requires t != []
    ensures var a := if t[0] == 0x2D then 1 else 0;
      S.IntEnd(t) == if a < |t| && t[a] == 0x30 then a + 1 else if S.Digits(t[a..]) == 0 then 0 else a + S.Digits(t[a..])
  {
    hide S.Digits;
  }

  lemma FracPhase(t: Bytes, k: nat)
    requires 0 < k <= |t|
    ensures !(k < |t| && t[k] == 0x2E) ==> S.FracEnd(t, k) == k
    ensures k < |t| && t[k] == 0x2E ==>
              S.FracEnd(t, k) == if S.Digits(t[k + 1..]) == 0 then 0 else k + 1 + S.Digits(t[k + 1..])
  {
    hide S.Digits;
  }

  lemma ExpPhase(t: Bytes, k: nat)
    requires 0 < k <= |t|
    ensures !(k < |t| && (t[k] == 0x65 || t[k] == 0x45)) ==> S.ExpEnd(t, k) == k
    ensures k < |t| && (t[k] == 0x65 || t[k] == 0x45) ==>
              var a := if k + 1 < |t| && (t[k + 1] == 0x2B || t[k + 1] == 0x2D) then k + 2 else k + 1;
              S.ExpEnd(t, k) == if S.Digits(t[a..]) == 0 then 0 else a + S.Digits(t[a..])
  {
    hide S.Digits;
  }

  class Parser {
    const raw: Bytes
    var pos: nat

    constructor (raw: Bytes)
      ensures this.raw == raw && pos == 0
    {
      this.raw, pos := raw, 0;
    }

    ghost predicate Valid()
      reads this
    {
      pos <= |raw|
    }

    ghost function Unread(): Bytes
      reads this
      requires Valid()
    {
      raw[pos..]
    }

    /** The answer and the position agree with what the specification expects. */
    ghost predicate Agrees<T>(r: Option<T>, expected: S.Parsed<T>)
      reads this
    {
      && Valid()
      && (r.None? ==> expected.None?)
      && (r.Some? ==> expected == Some((r.value, Unread())))
    }

    method Space()
      requires Valid()
      modifies this`pos
      ensures Valid() && old(pos) <= pos && Unread() == S.Space(old(Unread()))
    {
      while pos < |raw| && S.IsSpace(raw[pos])
        invariant Valid() && old(pos) <= pos && S.Space(Unread()) == S.Space(old(Unread()))
      {
        assert raw[pos..][1..] == raw[pos + 1..];
        pos := pos + 1;
      }
    }

    method Value(depth: nat) returns (r: Option<S.Node>)
      requires Valid()
      modifies this`pos
      ensures Agrees(r, S.Value(old(Unread()), depth))
      decreases |raw| - pos, 3
    {
      if depth > S.MAX_DEPTH { return None; }
      Space();
      var start := pos;
      ghost var t := Unread();
      var n := ScalarOrComposite(depth);
      hide S.Core;
      if n.None? { return None; }
      r := Some(n.value.(size := pos - start));
    }

    method ScalarOrComposite(depth: nat) returns (r: Option<S.Node>)
      requires Valid()
      modifies this`pos
      ensures Agrees(r, S.Core(old(Unread()), depth))
      ensures r.Some? ==> old(pos) < pos
      decreases |raw| - pos, 2
    {
      if pos >= |raw| { return None; }
      var c := raw[pos];
      assert c == Unread()[0];
      if c == 0x7B {
        r := Object(depth);
      } else if c == 0x5B {
        r := Array(depth);
      } else if c == 0x22 {
        hide S.StrBody, S.Members, S.Items, S.NumberEnd;
        var s := Str();
        if s.None? { return None; }
        r := Some(S.Str(s.value, 0));
      } else if c == 0x74 {
        r := Literal(S.TRUE, S.Bool(true, 0));
      } else if c == 0x66 {
        r := Literal(S.FALSE, S.Bool(false, 0));
      } else if c == 0x6E {
        r := Literal(S.NULL, S.Null(0));
      } else if c == 0x2D || IsDigit(c) {
        r := Number(depth);
      } else {
        r := None;
      }
    }

    method Literal(word: Bytes, out: S.Node) returns (r: Option<S.Node>)
      requires Valid()
      modifies this`pos
      ensures Agrees(r, S.Literal(old(Unread()), word, out))
      ensures r.Some? ==> pos == old(pos) + |word|
    {
      if !(word <= raw[pos..]) { return None; }
      assert raw[pos..][|word|..] == raw[pos + |word|..];
      pos := pos + |word|;
      r := Some(out);
    }

    method Object(depth: nat) returns (r: Option<S.Node>)
      requires Valid() && pos < |raw| && raw[pos] == 0x7B
      modifies this`pos
      ensures Agrees(r, S.Core(old(Unread()), depth))
      ensures r.Some? ==> old(pos) < pos
      decreases |raw| - pos, 1
    {
      hide S.Core, S.Value, S.StrBody, S.Space, S.Members;
      ghost var t := Unread();
      ObjectPhases(t, depth);
      assert raw[pos + 1..] == t[1..];
      pos := pos + 1;
      Space();
      ghost var u := Unread();
      if pos < |raw| && raw[pos] == 0x7D {
        assert raw[pos + 1..] == u[1..];
        pos := pos + 1;
        return Some(S.Object([], 0));
      }
      ghost var all := S.Members(u, depth, {});
      var members: seq<S.Member>, obj: map<Bytes, S.Node> := [], map[];
      assert all == Prepend(members, all) by { EmptyFront(all); }
      assert obj.Keys == {};
      while true
        invariant Valid() && old(pos) < pos
        invariant all == Prepend(members, S.Members(Unread(), depth, obj.Keys))
        decreases |raw| - pos
      {
        ghost var s := Unread();
        MembersPhases(s, depth, obj.Keys);
        var member := Member(depth, obj.Keys);
        hide MemberAt;
        if member.None? { return None; }
        var m := member.value;
        ghost var w := Unread();
        if pos >= |raw| { return None; }
        assert raw[pos + 1..] == w[1..] && w[0] == raw[pos];
        if raw[pos] == 0x2C {
          pos := pos + 1;
          PrependTwice(members, [m], S.Members(w[1..], depth, obj.Keys + {m.key}));
        } else if raw[pos] == 0x7D {
          pos := pos + 1;
          return Some(S.Object(members + [m], 0));
        } else {
          return None;
        }
        assert obj[m.key := m.value].Keys == obj.Keys + {m.key};
        members, obj := members + [m], obj[m.key := m.value];
      }
    }

    /** One turn of the loop of object, up to the byte after the member; seen holds the keys before it. */
    method Member(depth: nat, seen: set<Bytes>) returns (r: Option<S.Member>)
      requires Valid()
      modifies this`pos
      ensures Valid() && (r.Some? ==> old(pos) < pos)
      ensures r.Some? ==> MemberAt(old(Unread()), depth + 1) == Some((r.value, Unread())) && r.value.key !in seen
      ensures r.None? ==> MemberAt(old(Unread()), depth + 1).None? || MemberAt(old(Unread()), depth + 1).value.0.key in seen
      decreases |raw| - pos, 4
    {
      hide S.Value, S.StrBody, S.Space;
      Space();
      if pos >= |raw| || raw[pos] != 0x22 { return None; }
      var key := Str();
      if key.None? { return None; }
      if key.value in seen { return None; }
      Space();
      if pos >= |raw| || raw[pos] != 0x3A { return None; }
      assert raw[pos + 1..] == Unread()[1..];
      pos := pos + 1;
      var value := Value(depth + 1);
      if value.None? { return None; }
      Space();
      r := Some(S.Member(key.value, value.value));
    }

    method Array(depth: nat) returns (r: Option<S.Node>)
      requires Valid() && pos < |raw| && raw[pos] == 0x5B
      modifies this`pos
      ensures Agrees(r, S.Core(old(Unread()), depth))
      ensures r.Some? ==> old(pos) < pos
      decreases |raw| - pos, 1
    {
      hide S.Core, S.Value, S.Space, S.Items;
      ghost var t := Unread();
      ArrayPhases(t, depth);
      assert raw[pos + 1..] == t[1..];
      pos := pos + 1;
      Space();
      ghost var u := Unread();
      if pos < |raw| && raw[pos] == 0x5D {
        assert raw[pos + 1..] == u[1..];
        pos := pos + 1;
        return Some(S.Array([], 0));
      }
      ghost var all := S.Items(u, depth);
      var items: seq<S.Node> := [];
      assert all == Prepend(items, all) by { EmptyFront(all); }
      while true
        invariant Valid() && old(pos) < pos
        invariant all == Prepend(items, S.Items(Unread(), depth))
        decreases |raw| - pos
      {
        ItemsPhases(Unread(), depth);
        var value := Value(depth + 1);
        if value.None? { return None; }
        Space();
        if pos >= |raw| { return None; }
        ghost var w := Unread();
        assert raw[pos + 1..] == w[1..] && w[0] == raw[pos];
        if raw[pos] == 0x2C {
          pos := pos + 1;
          PrependTwice(items, [value.value], S.Items(w[1..], depth));
        } else if raw[pos] == 0x5D {
          pos := pos + 1;
          return Some(S.Array(items + [value.value], 0));
        } else {
          return None;
        }
        items := items + [value.value];
      }
    }

    /** The closure digits of number. */
    method Digits() returns (n: nat)
      requires Valid()
      modifies this`pos
      ensures Valid() && n == S.Digits(old(Unread())) && pos == old(pos) + n
    {
      n := 0;
      while pos < |raw| && IsDigit(raw[pos])
        invariant Valid() && pos == old(pos) + n && n + S.Digits(Unread()) == S.Digits(old(Unread()))
      {
        DigitsStep(Unread());
        assert raw[pos..][1..] == raw[pos + 1..];
        pos, n := pos + 1, n + 1;
      }
    }

    method Number(ghost depth: nat) returns (r: Option<S.Node>)
      requires Valid() && pos < |raw| && (raw[pos] == 0x2D || IsDigit(raw[pos]))
      modifies this`pos
      ensures Agrees(r, S.Core(old(Unread()), depth))
      ensures r.Some? ==> old(pos) < pos
    {
      hide S.Core, S.IntEnd, S.FracEnd, S.ExpEnd, S.NumberEnd, S.Digits;
      var start := pos;
      ghost var t := Unread();
      S.CoreOfNumber(t, depth);
      NumberPhases(t);
      if raw[pos] == 0x2D {
        pos := pos + 1;
      }
      assert raw[pos..] == t[pos - start..];
      IntPhase(t);
      if pos < |raw| && raw[pos] == 0x30 {
        pos := pos + 1;
      } else {
        var n := Digits();
        if n == 0 { return None; }
      }
      var ok := Fraction(start);
      if !ok { return None; }
      ok := Exponent(start);
      if !ok { return None; }
      assert raw[start..pos] == t[..pos - start] && raw[pos..] == t[pos - start..];
      r := Some(S.Number(raw[start..pos], 0));
    }

    /** The part of number for the fraction. */
    method Fraction(ghost start: nat) returns (ok: bool)
      requires Valid() && start < pos
      modifies this`pos
      ensures Valid() && old(pos) <= pos
      ensures S.FracEnd(raw[start..], old(pos) - start) == if ok then pos - start else 0
    {
      hide S.Digits, S.FracEnd;
      ghost var t := raw[start..];
      FracPhase(t, pos - start);
      if pos < |raw| && raw[pos] == 0x2E {
        pos := pos + 1;
        assert raw[pos..] == t[pos - start..];
        var n := Digits();
        if n == 0 { return false; }
      }
      ok := true;
    }

    /** The part of number for the exponent. */
    method Exponent(ghost start: nat) returns (ok: bool)
      requires Valid() && start < pos
      modifies this`pos
      ensures Valid() && old(pos) <= pos
      ensures S.ExpEnd(raw[start..], old(pos) - start) == if ok then pos - start else 0
    {
      hide S.Digits, S.ExpEnd;
      ghost var t := raw[start..];
      ExpPhase(t, pos - start);
      if pos < |raw| && (raw[pos] == 0x65 || raw[pos] == 0x45) {
        pos := pos + 1;
        if pos < |raw| && (raw[pos] == 0x2B || raw[pos] == 0x2D) {
          pos := pos + 1;
        }
        assert raw[pos..] == t[pos - start..];
        var n := Digits();
        if n == 0 { return false; }
      }
      ok := true;
    }

    method Str() returns (r: Option<Bytes>)
      requires Valid() && pos < |raw| && raw[pos] == 0x22
      modifies this`pos
      ensures Agrees(r, S.StrBody(old(Unread())[1..]))
      ensures old(pos) < pos
    {
      hide S.StrBody, S.Char;
      ghost var t := Unread();
      assert raw[pos + 1..] == t[1..];
      pos := pos + 1;
      ghost var all := S.StrBody(Unread());
      var b: Bytes := [];
      assert all == Prepend(b, all) by { EmptyFront(all); }
      while true
        invariant Valid() && old(pos) < pos && all == Prepend(b, S.StrBody(Unread()))
        decreases |raw| - pos
      {
        ghost var s := Unread();
        if pos >= |raw| { return None; }
        var c := raw[pos];
        assert c == s[0];
        StrPhases(s);
        assert raw[pos + 1..] == s[1..];
        if c == 0x22 {
          assert b + [] == b;
          pos := pos + 1;
          return Some(b);
        }
        if c < 0x20 { return None; }
        ghost var from := pos;
        var out: Bytes;
        if c != 0x5C {
          out := [c];
          pos := pos + 1;
        } else {
          var escaped := Escape();
          if escaped.None? { return None; }
          assert s[pos - from..] == raw[pos..];
          out := escaped.value;
        }
        PrependTwice(b, out, S.StrBody(Unread()));
        b := b + out;
      }
    }

    /** The part of str after a backslash. */
    method Escape() returns (r: Option<Bytes>)
      requires Valid() && pos < |raw| && raw[pos] == 0x5C
      modifies this`pos
      ensures Valid() && old(pos) < pos
      ensures r.None? ==> S.Char(old(Unread())).None?
      ensures r.Some? ==> S.Char(old(Unread())) == Some((r.value, pos - old(pos)))
    {
      hide Utf8Encode, S.Paired, S.Hex4;
      ghost var s := Unread();
      assert s[0] == 0x5C;
      pos := pos + 1;
      if pos >= |raw| { return None; }
      var e := raw[pos];
      assert e == s[1] && raw[pos + 1..] == s[2..];
      pos := pos + 1;
      if S.SimpleEscape(e) {
        return Some([S.Unescape(e)]);
      }
      if e != 0x75 { return None; }
      var hex := Hex4();
      if hex.None? { return None; }
      var rune := hex.value;
      if S.IsSurrogate(rune) {
        if rune >= 0xDC00 || pos + 1 >= |raw| || raw[pos] != 0x5C || raw[pos + 1] != 0x75 { return None; }
        assert raw[pos] == s[6] && raw[pos + 1] == s[7] && raw[pos + 2..] == s[8..];
        pos := pos + 2;
        var low := Hex4();
        if low.None? { return None; }
        rune := DecodeRune(rune, low.value);
        if rune == RUNE_ERROR { return None; }
      }
      r := Some(Utf8Encode(rune));
    }

    method Hex4() returns (r: Option<nat>)
      requires Valid()
      modifies this`pos
      ensures Valid() && r == S.Hex4(old(Unread()))
      ensures pos == if r.Some? then old(pos) + 4 else old(pos)
    {
      if pos + 4 > |raw| { return None; }
      ghost var s := Unread();
      var v, i := 0, 0;
      while i < 4
        invariant 0 <= i <= 4 && pos == old(pos) && (forall j :: 0 <= j < i ==> S.IsHex(s[j]))
        invariant 0 <= v < if i == 0 then 1 else if i == 1 then 16 else if i == 2 then 256 else if i == 3 then 4096 else 65536
        invariant i == 1 ==> v == S.HexValue(s[0])
        invariant i == 2 ==> v == S.HexValue(s[0]) * 16 + S.HexValue(s[1])
        invariant i == 3 ==> v == (S.HexValue(s[0]) * 16 + S.HexValue(s[1])) * 16 + S.HexValue(s[2])
        invariant i == 4 ==> S.Hex4(s) == Some(v)
      {
        var c := raw[pos + i];
        assert c == s[i];
        if !S.IsHex(c) { return None; }
        v, i := v * 16 + S.HexValue(c), i + 1;
      }
      pos := pos + 4;
      r := Some(v);
    }
  }

  lemma EmptyFront<T>(r: S.Parsed<seq<T>>)
    ensures Prepend([], r) == r
  {
    if r.Some? {
      assert [] + r.value.0 == r.value.0;
    }
  }

  /** parseJSON: the moving parser computes the specified function of the whole text. */
  method ParseJson(raw: Bytes, limit: nat) returns (r: Option<S.Node>)
    ensures r == S.ParseJson(raw, limit)
  {
    if |raw| == 0 || |raw| > limit || !Utf8Valid(raw) { return None; }
    var p := new Parser(raw);
    assert raw[0..] == raw;
    var value := p.Value(0);
    hide S.Value, Utf8Valid;
    if value.None? { return None; }
    p.Space();
    if p.pos != |raw| { return None; }
    r := value;
  }
}
