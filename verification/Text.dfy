/** Strings: spaces and controls of unicode, splitting, joining and order. */
module Text {

  /** unicode.IsSpace. */
  predicate IsSpace(c: char) {
    || c in {'\t', '\n', '\U{0B}', '\U{0C}', '\r', ' ', '\U{85}', '\U{A0}', '\U{1680}', '\U{2028}', '\U{2029}',
             '\U{202F}', '\U{205F}', '\U{3000}'}
    || '\U{2000}' <= c <= '\U{200A}'
  }

  /** unicode.IsControl. */
  predicate IsControl(c: char) {
    c <= '\U{1F}' || '\U{7F}' <= c <= '\U{9F}'
  }

  predicate HasControl(s: string) {
    exists i :: 0 <= i < |s| && IsControl(s[i])
  }

  function TrimLeft(s: string): string {
    if s != "" && IsSpace(s[0]) then TrimLeft(s[1..]) else s
  }

  function TrimRight(s: string): string {
    if s != "" && IsSpace(s[|s| - 1]) then TrimRight(s[..|s| - 1]) else s
  }

  function TrimSpace(s: string): string {
    TrimRight(TrimLeft(s))
  }

  predicate Suffix(s: string, end: string) {
    |end| <= |s| && s[|s| - |end|..] == end
  }

  predicate LowerHex(s: string, n: nat) {
    |s| == n && forall i :: 0 <= i < n ==> '0' <= s[i] <= '9' || 'a' <= s[i] <= 'f'
  }

  // Splitting and joining

  /** strings.Split with a one-character separator. */
  function Split(s: string, sep: char): (parts: seq<string>)
    ensures parts != []
    ensures forall p :: p in parts ==> sep !in p
  {
    if s == "" then [""]
    else if s[0] == sep then [""] + Split(s[1..], sep)
    else
      var rest := Split(s[1..], sep);
      [[s[0]] + rest[0]] + rest[1..]
  }

  function Join(parts: seq<string>, sep: char): string {
    if parts == [] then ""
    else if |parts| == 1 then parts[0]
    else parts[0] + [sep] + Join(parts[1..], sep)
  }

  lemma {:induction false} JoinSplit(s: string, sep: char)
    ensures Join(Split(s, sep), sep) == s
  {
    if s != "" {
      JoinSplit(s[1..], sep);
      var rest := Split(s[1..], sep);
      if s[0] == sep {
        assert ([""] + rest)[1..] == rest;
      } else {
        var parts := [[s[0]] + rest[0]] + rest[1..];
        assert parts[1..] == rest[1..];
      }
    }
  }

  lemma {:induction false} SplitPrefix(a: string, s: string, sep: char)
    requires sep !in a
    ensures Split(a + [sep] + s, sep) == [a] + Split(s, sep)
  {
    if a == "" {
      assert (a + [sep] + s)[1..] == s;
    } else {
      SplitPrefix(a[1..], s, sep);
      assert (a + [sep] + s)[1..] == a[1..] + [sep] + s;
      assert [a[0]] + a[1..] == a;
    }
  }

  /** s[i..j] reaches from separator to separator. */
  predicate Segment(s: string, sep: char, i: nat, j: nat) {
    i <= j <= |s| && sep !in s[i..j] && (i == 0 || s[i - 1] == sep) && (j == |s| || s[j] == sep)
  }

  lemma SliceOfTail(s: string, i: nat, j: nat)
    requires s != "" && i <= j < |s|
    ensures s[1..][i..j] == s[i + 1..j + 1]
  {
    var a, b := s[1..][i..j], s[i + 1..j + 1];
    assert |a| == |b| && forall n :: 0 <= n < |a| ==> a[n] == s[i + 1 + n] && b[n] == s[i + 1 + n];
  }

  lemma ShiftSegment(s: string, sep: char, i: nat, j: nat)
    requires s != "" && Segment(s[1..], sep, i, j) && (i > 0 || s[0] == sep)
    ensures Segment(s, sep, i + 1, j + 1) && s[i + 1..j + 1] == s[1..][i..j]
  {
    SliceOfTail(s, i, j);
  }

  lemma GrowSegment(s: string, sep: char, j: nat)
    requires s != "" && s[0] != sep && Segment(s[1..], sep, 0, j)
    ensures Segment(s, sep, 0, j + 1) && s[0..j + 1] == [s[0]] + s[1..][0..j]
  {
    SliceOfTail(s, 0, j);
    assert s[0..j + 1] == [s[0]] + s[1..j + 1];
  }

  /** Every part is what stands between two separators. */
  lemma {:induction false} PartIsSegment(s: string, sep: char, k: nat) returns (i: nat)
    requires k < |Split(s, sep)|
    ensures var p := Split(s, sep)[k]; Segment(s, sep, i, i + |p|) && s[i..i + |p|] == p
    ensures k == 0 <==> i == 0
  {
    if s == "" {
      i := 0;
    } else if s[0] == sep {
      i := 0;
      if k > 0 {
        i := PartIsSegment(s[1..], sep, k - 1);
        ShiftSegment(s, sep, i, i + |Split(s[1..], sep)[k - 1]|);
        hide Segment;
        i := i + 1;
      }
    } else {
      var p := Split(s[1..], sep)[k];
      i := PartIsSegment(s[1..], sep, k);
      if k == 0 {
        GrowSegment(s, sep, |p|);
      } else {
        ShiftSegment(s, sep, i, i + |p|);
        i := i + 1;
      }
    }
  }

  lemma {:induction false} FrontIsFirst(s: string, sep: char, j: nat)
    requires Segment(s, sep, 0, j)
    ensures s[0..j] == Split(s, sep)[0]
  {
    if j > 0 {
      assert s[0] in s[0..j] && forall c :: c in s[1..j] ==> c in s[0..j];
      SliceOfTail(s, 0, j - 1);
      FrontIsFirst(s[1..], sep, j - 1);
      assert s[0..j] == [s[0]] + s[1..j];
    }
  }

  lemma {:induction false} SegmentIsPart(s: string, sep: char, i: nat, j: nat)
    requires Segment(s, sep, i, j)
    ensures s[i..j] in Split(s, sep) && (i > 0 ==> s[i..j] in Split(s, sep)[1..])
  {
    var parts := Split(s, sep);
    assert forall p :: p in parts[1..] ==> p in parts;
    if i == 0 {
      FrontIsFirst(s, sep, j);
    } else {
      SliceOfTail(s, i - 1, j - 1);
      assert Segment(s[1..], sep, i - 1, j - 1);
      hide Segment;
      SegmentIsPart(s[1..], sep, i - 1, j - 1);
      if s[0] == sep {
        assert Split(s, sep)[1..] == Split(s[1..], sep);
      } else {
        assert Split(s, sep)[1..] == Split(s[1..], sep)[1..];
      }
    }
  }

  lemma {:induction false} SplitOne(a: string, sep: char)
    requires sep !in a
    ensures Split(a, sep) == [a]
  {
    if a != "" {
      SplitOne(a[1..], sep);
      assert [a[0]] + a[1..] == a;
    }
  }

  lemma {:induction false} SplitJoin(parts: seq<string>, sep: char)
    requires parts != [] && forall p :: p in parts ==> sep !in p
    ensures Split(Join(parts, sep), sep) == parts
  {
    if |parts| == 1 {
      SplitOne(parts[0], sep);
    } else {
      SplitJoin(parts[1..], sep);
      SplitPrefix(parts[0], Join(parts[1..], sep), sep);
    }
  }

  // Order of strings, by code point (which for UTF-8 is the byte order)

  predicate Le(a: string, b: string) {
    if a == "" then true
    else if b == "" then false
    else if a[0] != b[0] then a[0] < b[0]
    else Le(a[1..], b[1..])
  }

  lemma {:induction false} LeTotal(a: string, b: string)
    ensures Le(a, b) || Le(b, a)
    ensures Le(a, b) && Le(b, a) ==> a == b
  {
    if a != "" && b != "" && a[0] == b[0] {
      LeTotal(a[1..], b[1..]);
      assert a == [a[0]] + a[1..] && b == [b[0]] + b[1..];
    }
  }

  lemma {:induction false} LeTransitive(a: string, b: string, c: string)
    requires Le(a, b) && Le(b, c)
    ensures Le(a, c)
  {
    if a != "" && b != "" && c != "" && a[0] == b[0] == c[0] {
      LeTransitive(a[1..], b[1..], c[1..]);
    }
  }

  lemma {:induction false} PrefixIsLe(a: string, b: string)
    requires a <= b
    ensures Le(a, b)
  {
    if a != "" {
      PrefixIsLe(a[1..], b[1..]);
    }
  }

  /** a comes strictly before b: it is a proper prefix, or smaller at the first place where they differ. */
  ghost predicate Less(a: string, b: string) {
    a < b || exists i :: 0 <= i < |a| && i < |b| && a[..i] == b[..i] && a[i] < b[i]
  }

  lemma SamePrefix(a: string, b: string, i: nat)
    requires i <= |a| && i <= |b| && a[..i] == b[..i]
    ensures i > 0 ==> a[0] == b[0]
  {
    if i > 0 {
      assert a[0] == a[..i][0] == b[0];
    }
  }

  /** The recursive comparison is the lexicographic order. */
  lemma {:induction false} LeIsLess(a: string, b: string)
    ensures Le(a, b) <==> a == b || Less(a, b)
  {
    if a == "" || b == "" {
    } else if a[0] != b[0] {
      assert a[..0] == b[..0];
      forall i | 0 <= i < |a| && i < |b| && a[..i] == b[..i]
        ensures i == 0
      {
        SamePrefix(a, b, i);
      }
    } else {
      LeIsLess(a[1..], b[1..]);
      assert a == [a[0]] + a[1..] && b == [b[0]] + b[1..];
      LessTails(a, b);
    }
  }

  lemma TakeOfTail(a: string, i: nat)
    requires 0 < i <= |a|
    ensures a[1..][..i - 1] == a[..i][1..] && a[..i] == [a[0]] + a[1..][..i - 1]
  {
  }

  lemma LessTails(a: string, b: string)
    requires a != "" && b != "" && a[0] == b[0]
    ensures Less(a, b) <==> Less(a[1..], b[1..])
  {
    var x, y := a[1..], b[1..];
    if i :| 0 <= i < |a| && i < |b| && a[..i] == b[..i] && a[i] < b[i] {
      TakeOfTail(a, i);
      TakeOfTail(b, i);
      assert x[i - 1] < y[i - 1];
    }
    if i :| 0 <= i < |x| && i < |y| && x[..i] == y[..i] && x[i] < y[i] {
      TakeOfTail(a, i + 1);
      TakeOfTail(b, i + 1);
      assert a[i + 1] < b[i + 1];
    }
    ProperTails(a, b);
  }

  lemma ProperTails(a: string, b: string)
    requires a != "" && b != "" && a[0] == b[0]
    ensures a < b <==> a[1..] < b[1..]
  {
    assert a == [a[0]] + a[1..] && b == [a[0]] + b[1..];
  }
}
