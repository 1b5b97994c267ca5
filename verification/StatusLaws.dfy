/** The status patch as a lens: what setting changes, and how sets compose. */
module StatusLaws {
  import opened Wrappers
  import opened Bytes
  import opened StatusCell
  import opened StatusPatch

  // The first group of the pattern

  predicate AllBlank(b: Bytes) {
    forall i :: 0 <= i < |b| ==> IsBlank(b[i])
  }

  lemma {:induction false} SkipsBlanks(b: Bytes, w: Bytes)
    requires AllBlank(b) && (w == [] || !IsBlank(w[0]))
    ensures SkipBlanks(b + w) == w
  {
    if b == [] {
      assert b + w == w;
    } else {
      SkipsBlanks(b[1..], w);
      assert (b + w)[1..] == b[1..] + w;
    }
  }

  lemma {:induction false} BlanksSkipped(s: Bytes) returns (b: Bytes)
    ensures AllBlank(b) && s == b + SkipBlanks(s)
  {
    if s != [] && IsBlank(s[0]) {
      var c := BlanksSkipped(s[1..]);
      b := [s[0]] + c;
      assert s == [s[0]] + s[1..];
    } else {
      b := [];
    }
  }

  lemma BarOf(b: Bytes, w: Bytes)
    requires AllBlank(b)
    ensures AfterBar(b + ([BAR] + w)) == Some(w)
  {
    SkipsBlanks(b, [BAR] + w);
    Front(BAR, w);
  }

  lemma BarIs(s: Bytes) returns (b: Bytes)
    requires AfterBar(s).Some?
    ensures AllBlank(b) && s == b + ([BAR] + AfterBar(s).value)
  {
    b := BlanksSkipped(s);
    var t := SkipBlanks(s);
    assert t == [BAR] + t[1..];
  }

  /** The parts of the first group. */
  datatype Parts = Parts(b0: Bytes, b1: Bytes, b2: Bytes, b3: Bytes)

  predicate PartsOk(p: Parts) {
    AllBlank(p.b0) && AllBlank(p.b1) && AllBlank(p.b2) && AllBlank(p.b3)
  }

  function Group(p: Parts): Bytes {
    p.b0 + [BAR] + p.b1 + STATUS + p.b2 + [BAR] + p.b3
  }

  lemma GroupNested(p: Parts, w: Bytes)
    ensures Group(p) + w == p.b0 + ([BAR] + (p.b1 + (STATUS + (p.b2 + ([BAR] + (p.b3 + w))))))
  {
    hide STATUS;
    Assoc(p.b0 + [BAR] + p.b1 + STATUS + p.b2 + [BAR], p.b3, w);
    Assoc(p.b0 + [BAR] + p.b1 + STATUS + p.b2, [BAR], p.b3 + w);
    Assoc(p.b0 + [BAR] + p.b1 + STATUS, p.b2, [BAR] + (p.b3 + w));
    Assoc(p.b0 + [BAR] + p.b1, STATUS, p.b2 + ([BAR] + (p.b3 + w)));
    Assoc(p.b0 + [BAR], p.b1, STATUS + (p.b2 + ([BAR] + (p.b3 + w))));
    Assoc(p.b0, [BAR], p.b1 + (STATUS + (p.b2 + ([BAR] + (p.b3 + w)))));
  }

  lemma StatusLeads(t: Bytes)
    ensures STATUS + t != [] && !IsBlank((STATUS + t)[0]) && STATUS <= STATUS + t && (STATUS + t)[|STATUS|..] == t
  {
  }

  /** A line that is written out like that has its cell right behind the group. */
  lemma CellStartOf(p: Parts, w: Bytes)
    requires PartsOk(p) && (w == [] || !IsBlank(w[0]))
    ensures AfterFront(Group(p) + w) == Some(w) && CellStart(Group(p) + w) == |Group(p)|
  {
    hide STATUS, SkipBlanks, AfterBar, IsBlank, AllBlank;
    var t3 := p.b3 + w;
    var t2 := p.b2 + ([BAR] + t3);
    var t1 := p.b1 + (STATUS + t2);
    GroupNested(p, w);
    BarOf(p.b0, t1);
    StatusLeads(t2);
    SkipsBlanks(p.b1, STATUS + t2);
    BarOf(p.b2, t3);
    SkipsBlanks(p.b3, w);
  }

  /** Every matching line is written like that. */
  lemma PartsOf(line: Bytes) returns (p: Parts)
    requires AfterFront(line).Some?
    ensures PartsOk(p) && line == Group(p) + AfterFront(line).value
  {
    hide STATUS, SkipBlanks, AfterBar, IsBlank, AllBlank;
    var b0 := BarIs(line);
    var t := AfterBar(line).value;
    var b1 := BlanksSkipped(t);
    var u := SkipBlanks(t);
    var x := u[|STATUS|..];
    var b2 := BarIs(x);
    var y := AfterBar(x).value;
    var b3 := BlanksSkipped(y);
    p := Parts(b0, b1, b2, b3);
    assert u == STATUS + x;
    GroupNested(p, SkipBlanks(y));
  }

  // A new value in the place of the old one

  /** Values are free of bars and line ends. */
  predicate IsValue(v: Bytes) {
    forall i :: 0 <= i < |v| ==> InValue(v[i])
  }

  lemma {:induction false} ValueLengthOf(v: Bytes, rest: Bytes)
    requires IsValue(v) && (rest == [] || !InValue(rest[0]))
    ensures ValueLength(v + rest) == |v|
  {
    if v == [] {
      assert v + rest == rest;
    } else {
      ValueLengthOf(v[1..], rest);
      assert (v + rest)[1..] == v[1..] + rest;
    }
  }

  /** The line with another value: the cell starts where it did and holds that value. */
  lemma LineWith(line: Bytes, v: Bytes)
    requires CellStart(line) > 0 && IsValue(v) && v != [] && !IsBlank(v[0])
    ensures var more := line[..CellStart(line)] + v + line[CellEnd(line)..];
      CellStart(more) == CellStart(line) && CellEnd(more) == CellStart(line) + |v|
  {
    hide STATUS, ValueLength, AfterFront, IsBlank;
    var p := PartsOf(line);
    var g, w := Group(p), AfterFront(line).value;
    var rest := w[ValueLength(w)..];
    ReplaceValue(g, w, v, ValueLength(w));
    assert rest != [] ==> !InValue(rest[0]);
    CellStartOf(p, v + rest);
    ValueLengthOf(v, rest);
    assert g + w == line && (g + w)[|g|..] == w && (g + (v + rest))[|g|..] == v + rest;
  }

  lemma ReplaceValue(g: Bytes, w: Bytes, v: Bytes, n: nat)
    requires n <= |w|
    ensures (g + w)[..|g|] + v + (g + w)[|g| + n..] == g + (v + w[n..])
  {
    assert (g + w)[..|g|] == g && (g + w)[|g| + n..] == w[n..];
  }

  // Marks and reasons

  const LEAD: Byte := 0xE2

  /** What the statuses are written as: they begin with a bracket and stay in the cell. */
  predicate IsMark(m: Bytes) {
    m != [] && m[0] == 0x5B && !IsBlank(m[|m| - 1]) && IsValue(m) && LEAD !in m
  }

  lemma FirstMarks()
    ensures IsMark(MARK_PENDING) && IsMark(MARK_IN_PROGRESS) && IsMark(MARK_REVIEW)
  {
  }

  lemma OtherMarks()
    ensures IsMark(MARK_DONE) && IsMark(MARK_BLOCKED) && IsMark(MARK_CANCELLED)
  {
  }

  lemma StatusIsMark(lower: Bytes -> Bytes, status: Bytes)
    requires StatusLabel(lower, status).Some?
    ensures IsMark(StatusLabel(lower, status).value)
  {
    hide TrimSpace, IsMark, Ascii, MARK_PENDING, MARK_IN_PROGRESS, MARK_REVIEW, MARK_DONE, MARK_BLOCKED, MARK_CANCELLED;
    FirstMarks();
    OtherMarks();
  }

  lemma {:induction false} TrimKeeps(s: Bytes, k: nat)
    requires k < |s| && !IsBlank(s[k])
    ensures k < |TrimBlanks(s)|
  {
    if IsBlank(s[|s| - 1]) {
      TrimKeeps(s[..|s| - 1], k);
    }
  }

  lemma TrimTrimmed(t: Bytes)
    requires t != [] && !IsBlank(t[|t| - 1])
    ensures TrimBlanks(t + [0x20]) == t
  {
    var s := t + [0x20];
    assert s[..|s| - 1] == t && IsBlank(s[|s| - 1]);
    assert TrimBlanks(t) == t;
  }

  lemma {:induction false} NoDash(s: Bytes)
    requires LEAD !in s
    ensures DashAt(s).None?
  {
    if |s| >= 5 {
      assert s[..5][1] == s[1] && s[1] in s;
      NoDash(s[1..]);
    }
  }

  lemma {:induction false} FirstDash(x: Bytes, t: Bytes)
    requires LEAD !in x && DASH <= t
    ensures DashAt(x + t) == Some(|x|)
  {
    var s := x + t;
    if x == [] {
      assert s == t;
    } else {
      assert s[1] != LEAD by { assert |x| > 1 ==> x[1] in x; assert |x| == 1 ==> s[1] == t[0] == 0x20; }
      assert s[..5][1] == s[1];
      assert s[1..] == x[1..] + t;
      FirstDash(x[1..], t);
    }
  }

  /** A reason begins with the dash and does not end in a blank. */
  lemma TailIs(value: Bytes)
    ensures Tail(value) == [] <==> DashAt(value).None?
    ensures Tail(value) != [] ==> DASH <= Tail(value) + [0x20] && !IsBlank(Tail(value)[|Tail(value)| - 1])
  {
    hide DashAt, TrimBlanks, DASH, IsBlank;
    if DashAt(value).Some? {
      var i := DashAt(value).value;
      DashFound(value, i);
      TrimKeeps(value[i..], 3);
      TrimmedDash(value[i..]);
    }
  }

  lemma DashFound(value: Bytes, i: nat)
    requires DashAt(value) == Some(i)
    ensures |value[i..]| >= 5 && value[i..][..5] == DASH && !IsBlank(value[i..][3])
  {
    hide DashAt;
    assert value[i..][..5] == value[i..i + 5];
    assert value[i..][3] == value[i..][..5][3];
  }

  lemma TailIsValue(value: Bytes)
    requires IsValue(value)
    ensures IsValue(Tail(value))
  {
    hide DashAt, TrimBlanks, InValue;
    if DashAt(value).Some? {
      var t := TrimBlanks(value[DashAt(value).value..]);
      assert forall j :: 0 <= j < |t| ==> t[j] == value[DashAt(value).value..][j];
    }
  }

  lemma TrimmedDash(s: Bytes)
    requires |s| >= 5 && s[..5] == DASH && |TrimBlanks(s)| > 3
    ensures DASH <= TrimBlanks(s) + [0x20]
  {
    var t := TrimBlanks(s);
    if |t| == 4 {
      assert t == s[..4] && s[..4] == s[..5][..4];
      assert t + [0x20] == DASH;
    } else {
      assert t[..5] == s[..5];
      assert (t + [0x20])[..5] == t[..5];
    }
  }

  /** A new value keeps the reason. */
  lemma TailKept(m: Bytes, value: Bytes)
    requires IsMark(m)
    ensures Tail(NewValue(m, value)) == Tail(value)
  {
    hide DashAt, TrimBlanks, DASH, IsBlank, InValue, Tail;
    var t := Tail(value);
    TailIs(value);
    if t == [] {
      NoReason(m + t + [0x20]);
    } else {
      ReasonIs(m, t);
      Assoc(m, t, [0x20]);
    }
  }

  lemma NoReason(v: Bytes)
    requires LEAD !in v
    ensures Tail(v) == []
  {
    NoDash(v);
    hide DashAt;
  }

  lemma ReasonIs(m: Bytes, t: Bytes)
    requires LEAD !in m && DASH <= t + [0x20] && t != [] && !IsBlank(t[|t| - 1])
    ensures Tail(m + (t + [0x20])) == t && DashAt(m + (t + [0x20])) == Some(|m|)
  {
    hide DashAt, TrimBlanks, DASH, IsBlank;
    FirstDash(m, t + [0x20]);
    Cut(m, t + [0x20]);
    TrimTrimmed(t);
  }

  lemma NewValueIsValue(m: Bytes, value: Bytes)
    requires IsMark(m) && IsValue(value)
    ensures IsValue(NewValue(m, value)) && NewValue(m, value) != [] && NewValue(m, value)[0] == 0x5B
  {
    TailIsValue(value);
    hide Tail;
  }

  // A line with a cell is no fence

  lemma {:induction false} TrimFrontBar(b: Bytes, u: Bytes)
    requires AllBlank(b) && u != [] && u[0] == BAR
    ensures TrimFront(b + u) == u
  {
    if b == [] {
      assert b + u == u;
      BarIsNoSpace(u);
    } else {
      TrimFrontBar(b[1..], u);
      assert (b + u)[1..] == b[1..] + u;
    }
  }

  lemma BarIsNoSpace(u: Bytes)
    requires u != [] && u[0] == BAR
    ensures SpaceAtFront(u) == 0
  {
    assert |u| >= 2 ==> u[..2][0] == BAR;
    assert |u| >= 3 ==> u[..3][0] == BAR;
  }

  lemma {:induction false} TrimEndBar(u: Bytes)
    requires u != [] && u[0] == BAR
    ensures TrimEnd(u) != [] && TrimEnd(u)[0] == BAR
    decreases |u|
  {
    hide SpaceAtEnd;
    var n := SpaceAtEnd(u);
    SpaceIsNotAll(u);
    if n > 0 {
      var rest := u[..|u| - n];
      assert rest != [] && rest[0] == BAR;
      TrimEndBar(rest);
    }
  }

  lemma WideSpaceStarts(w: Bytes)
    requires WideSpace(w)
    ensures w != [] && w[0] != BAR
  {
  }

  lemma SpaceIsNotAll(u: Bytes)
    requires u != [] && u[0] == BAR
    ensures SpaceAtEnd(u) < |u|
  {
    hide WideSpace;
    if |u| == 2 && WideSpace(u[|u| - 2..]) {
      WideSpaceStarts(u[|u| - 2..]);
    }
    if |u| == 3 && WideSpace(u[|u| - 3..]) {
      WideSpaceStarts(u[|u| - 3..]);
    }
  }

  lemma TextBegins(line: Bytes, n: nat)
    requires n + 2 <= |line|
    ensures n <= |LineText(line)| && LineText(line)[..n] == line[..n]
  {
  }

  lemma TrimmedBegins(line: Bytes)
    requires CellStart(line) > 0
    ensures TrimSpace(LineText(line)) != [] && TrimSpace(LineText(line))[0] == BAR
  {
    hide TrimFront, TrimEnd, LineText, IsBlank, AfterFront, STATUS;
    var p := PartsOf(line);
    var n := |p.b0| + 1;
    StatusIsLong();
    GroupBegins(p, AfterFront(line).value);
    TextBegins(line, n);
    var t := LineText(line);
    assert t[..n] == line[..n] == p.b0 + [BAR];
    Assoc(p.b0, [BAR], t[n..]);
    assert t == t[..n] + t[n..];
    TrimFrontBar(p.b0, [BAR] + t[n..]);
    TrimEndBar([BAR] + t[n..]);
  }

  lemma GroupBegins(p: Parts, w: Bytes)
    ensures |Group(p) + w| >= |p.b0| + 1 + |STATUS| && (Group(p) + w)[..|p.b0| + 1] == p.b0 + [BAR]
  {
    hide STATUS;
  }

  lemma StatusIsLong()
    ensures |STATUS| == 10
  {
  }

  /** Whether such a line counts as fenced depends on the fence alone, and it leaves an open one as it is. */
  lemma CellLineConsumed(f: Fence, line: Bytes)
    requires CellStart(line) > 0
    ensures ConsumeLine(f, LineText(line)).0 <==> f.length > 0
    ensures f.length == 0 ==> ConsumeLine(f, LineText(line)).1 == f
  {
    hide LineText, CellStart, TrimSpace, Leading;
    TrimmedBegins(line);
  }

  // The first cell stays the first

  lemma {:induction false} LineEndPast(x: Bytes, y: Bytes)
    requires LF !in x
    ensures LineEnd(x + y) == |x| + LineEnd(y)
  {
    if x == [] {
      assert x + y == y;
    } else {
      assert (x + y)[1..] == x[1..] + y && x[0] in x;
      LineEndPast(x[1..], y);
    }
  }

  lemma GroupHasNoLF(p: Parts)
    requires PartsOk(p)
    ensures LF !in Group(p)
  {
    assert LF !in STATUS && LF !in p.b0 && LF !in p.b1 && LF !in p.b2 && LF !in p.b3;
    hide STATUS, AllBlank;
  }

  /** Up to the end of its cell a line has no line feed. */
  lemma CellHasNoLF(line: Bytes)
    requires CellStart(line) > 0
    ensures LF !in line[..CellEnd(line)] && IsValue(line[CellStart(line)..CellEnd(line)])
  {
    hide STATUS, IsBlank, AfterFront, Group, PartsOk;
    var p := PartsOf(line);
    GroupHasNoLF(p);
    var g, w := Group(p), AfterFront(line).value;
    var n := ValueLength(w);
    assert (g + w)[|g|..] == w && (g + w)[..|g| + n] == g + w[..n] && (g + w)[|g|..|g| + n] == w[..n];
    assert LF !in w[..n];
  }

  /** The body with v in the place of the value of the cell whose line starts at k. */
  function WithValue(body: Bytes, k: nat, v: Bytes): Bytes
    requires k <= |body|
  {
    var line := body[k..k + LineEnd(body[k..])];
    body[..k] + (line[..CellStart(line)] + v + line[CellEnd(line)..]) + body[k + |line|..]
  }

  /** A value that may stand in a cell. */
  predicate Fitting(v: Bytes) {
    IsValue(v) && v != [] && !IsBlank(v[0])
  }

  lemma FirstLineWith(body: Bytes, v: Bytes)
    requires Fitting(v) && CellStart(body[..LineEnd(body)]) > 0
    ensures var line := body[..LineEnd(body)];
      var more := line[..CellStart(line)] + v + line[CellEnd(line)..];
      var all := more + body[LineEnd(body)..];
      && all != [] && LineEnd(all) == |more| && all[..LineEnd(all)] == more && all[LineEnd(all)..] == body[LineEnd(body)..]
      && CellStart(more) == CellStart(line) && CellEnd(more) == CellStart(line) + |v|
  {
    hide CellStart, CellEnd, IsBlank;
    var line := body[..LineEnd(body)];
    var s, e := CellStart(line), CellEnd(line);
    LineWith(line, v);
    CellHasNoLF(line);
    var more := line[..s] + v + line[e..];
    var all := more + body[LineEnd(body)..];
    assert s <= e by { CellOrder(line); }
    assert LF !in line[..s] + v by { assert forall x :: x in line[..s] ==> x in line[..e]; assert LF !in v; }
    assert body == line[..e] + body[e..] && all == (line[..s] + v) + body[e..];
    LineEndPast(line[..e], body[e..]);
    LineEndPast(line[..s] + v, body[e..]);
  }

  lemma CellOrder(line: Bytes)
    ensures CellStart(line) <= CellEnd(line)
  {
  }

  lemma FindStep(line: Bytes, rest: Bytes, f: Fence)
    requires line + rest != [] && LineEnd(line + rest) == |line|
    ensures var c := ConsumeLine(f, LineText(line));
      FindLine(line + rest, f) == if !c.0 && CellStart(line) > 0 then Some(0) else Shifted(|line|, FindLine(rest, c.1))
  {
    hide ConsumeLine, LineText, CellStart, LineEnd;
    assert (line + rest)[..|line|] == line && (line + rest)[|line|..] == rest;
  }

  lemma FoundHere(body: Bytes, f: Fence, v: Bytes)
    requires body != [] && FindLine(body, f) == Some(0) && Fitting(v)
    ensures FindLine(WithValue(body, 0, v), f) == Some(0)
  {
    hide ConsumeLine, LineText, CellStart, CellEnd, Fitting, LineEnd, FindLine;
    var e := LineEnd(body);
    var line, rest := body[..e], body[e..];
    assert body == line + rest;
    FindStep(line, rest, f);
    FirstLineWith(body, v);
    var more := line[..CellStart(line)] + v + line[CellEnd(line)..];
    HereIs(body, v);
    CellLineConsumed(f, line);
    CellLineConsumed(f, more);
    FindStep(more, rest, f);
  }

  lemma HereIs(body: Bytes, v: Bytes)
    ensures var line := body[..LineEnd(body)];
      WithValue(body, 0, v) == (line[..CellStart(line)] + v + line[CellEnd(line)..]) + body[LineEnd(body)..]
  {
    hide CellStart, CellEnd, LineEnd;
    assert body[0..] == body && body[0..0 + LineEnd(body)] == body[..LineEnd(body)];
    var line := body[..LineEnd(body)];
    var more := line[..CellStart(line)] + v + line[CellEnd(line)..];
    assert body[..0] + more == more;
  }

  /** The first cell outside fenced code is still that one after its value was replaced. */
  lemma {:induction false} FoundAgain(body: Bytes, f: Fence, k: nat, v: Bytes)
    requires FindLine(body, f) == Some(k) && Fitting(v)
    ensures FindLine(WithValue(body, k, v), f) == Some(k)
    decreases |body|
  {
    hide ConsumeLine, LineText, CellStart, CellEnd, Fitting, LineEnd, FindLine, WithValue;
    FindsIn(body, f);
    if k == 0 {
      FoundHere(body, f, v);
    } else {
      var e := LineEnd(body);
      var line, rest := body[..e], body[e..];
      assert body == line + rest;
      FindStep(line, rest, f);
      var g := ConsumeLine(f, LineText(line)).1;
      FindsIn(rest, g);
      FoundAgain(rest, g, k - e, v);
      LaterLine(line, rest, k - e, v);
      EndedLine(body, WithValue(rest, k - e, v));
      FindStep(line, WithValue(rest, k - e, v), f);
      SameStart(body, f, k);
    }
  }

  lemma FindsIn(body: Bytes, f: Fence)
    ensures FindLine(body, f).Some? ==> body != [] && FindLine(body, f).value < |body|
  {
  }

  /** A cell that is not on the first line leaves the first line without one. */
  lemma SameStart(body: Bytes, f: Fence, k: nat)
    requires body != [] && FindLine(body, f) == Some(k) && k > 0
    ensures var line := body[..LineEnd(body)]; ConsumeLine(f, LineText(line)).0 || CellStart(line) == 0
  {
    hide ConsumeLine, LineText, CellStart, LineEnd;
  }

  lemma CatSlices(h: Bytes, t: Bytes, i: nat, j: nat)
    requires i <= j <= |t|
    ensures var s := h + t;
      s[..|h| + i] == h + t[..i] && s[|h| + i..] == t[i..] && s[|h| + i..|h| + j] == t[i..j]
  {
  }

  lemma LaterLine(h: Bytes, rest: Bytes, k: nat, v: Bytes)
    requires k <= |rest|
    ensures WithValue(h + rest, |h| + k, v) == h + WithValue(rest, k, v)
  {
    hide CellStart, CellEnd, LineEnd;
    var n := LineEnd(rest[k..]);
    CatSlices(h, rest, k, k + n);
    CatSlices(h, rest, k + n, k + n);
    var line := rest[k..k + n];
    var more := line[..CellStart(line)] + v + line[CellEnd(line)..];
    Assoc(h, rest[..k], more);
    Assoc(h, rest[..k] + more, rest[k + n..]);
  }

  /** A first line that another follows ends the same before any other text. */
  lemma EndedLine(body: Bytes, tail: Bytes)
    requires LineEnd(body) < |body|
    ensures LineEnd(body[..LineEnd(body)] + tail) == LineEnd(body)
  {
    var e := LineEnd(body);
    var x := body[..e - 1];
    assert LF !in x;
    assert body[..e] + tail == x + ([LF] + tail);
    LineEndPast(x, [LF] + tail);
  }

  // The frontmatter stays where it is

  lemma {:induction false} ClosingKept(s: Bytes, t: Bytes, n: nat)
    requires Closing(s) == Some(n) && n < |s| && n <= |t| && t[..n] == s[..n]
    ensures Closing(t) == Some(n)
    decreases |s|
  {
    hide LineText, DASHES, LineEnd, Closing;
    var e := LineEnd(s);
    ClosingFirst(s, n);
    var line := s[..e];
    assert t[..e] == t[..n][..e] == s[..n][..e] == line;
    assert t == line + t[e..];
    EndedLine(s, t[e..]);
    assert t[e - 1] == line[e - 1] == LF;
    if LineText(line) != DASHES {
      assert t[e..][..n - e] == t[..n][e..] == s[..n][e..] == s[e..][..n - e];
      ClosingKept(s[e..], t[e..], n - e);
    }
    ClosingBack(t, n);
  }

  lemma ClosingHere(s: Bytes)
    requires s != [] && LineText(s[..LineEnd(s)]) == DASHES
    ensures Closing(s) == Some(LineEnd(s))
  {
    hide LineText, DASHES, LineEnd;
  }

  lemma ClosingFirst(s: Bytes, n: nat)
    requires Closing(s) == Some(n) && n < |s|
    ensures var e := LineEnd(s);
      && 0 < e <= n && s[e - 1] == LF
      && (LineText(s[..e]) == DASHES ==> n == e)
      && (LineText(s[..e]) != DASHES ==> Closing(s[e..]) == Some(n - e))
  {
    hide LineText, DASHES, LineEnd, Closing;
    var e := LineEnd(s);
    if LineText(s[..e]) == DASHES {
      ClosingHere(s);
    }
    if LineText(s[..e]) != DASHES {
      ClosingNext(s);
    }
  }

  lemma ClosingNext(s: Bytes)
    requires s != [] && Closing(s).Some? && LineText(s[..LineEnd(s)]) != DASHES
    ensures s[LineEnd(s) - 1] == LF && Closing(s) == Shifted(LineEnd(s), Closing(s[LineEnd(s)..])) && Closing(s[LineEnd(s)..]).Some?
  {
    hide LineText, DASHES, LineEnd;
  }

  lemma ClosingBack(t: Bytes, n: nat)
    requires t != [] && LineEnd(t) <= n && t[LineEnd(t) - 1] == LF
    requires if LineText(t[..LineEnd(t)]) == DASHES then n == LineEnd(t) else Closing(t[LineEnd(t)..]) == Some(n - LineEnd(t))
    ensures Closing(t) == Some(n)
  {
    hide LineText, DASHES, LineEnd;
  }

  lemma OpeningEnds(raw: Bytes)
    requires HasOpening(raw)
    ensures if DASHES + [LF] <= raw then LineEnd(raw) == 4 else LineEnd(raw) == 5
  {
    if DASHES + [LF] <= raw {
      Fill(raw, DASHES + [LF]);
      Assoc(DASHES, [LF], raw[4..]);
      LineEndPast(DASHES, [LF] + raw[4..]);
    } else {
      Fill(raw, DASHES + [CR, LF]);
      assert DASHES + [CR, LF] == DASHES + [CR] + [LF];
      Assoc(DASHES + [CR], [LF], raw[5..]);
      LineEndPast(DASHES + [CR], [LF] + raw[5..]);
    }
  }

  lemma Fill(raw: Bytes, p: Bytes)
    requires p <= raw
    ensures raw == p + raw[|p|..]
  {
  }

  lemma OpeningKept(raw: Bytes, more: Bytes, start: nat)
    requires LineEnd(raw) <= start <= |raw| && start <= |more| && more[..start] == raw[..start] && HasOpening(raw)
    ensures HasOpening(more) && LineEnd(more) == LineEnd(raw)
  {
    hide LineEnd, DASHES;
    OpeningEnds(raw);
    assert |DASHES| == 3 by { DashesSize(); }
    var n := LineEnd(raw);
    var p := if n == 4 then DASHES + [LF] else DASHES + [CR, LF];
    assert p == raw[..n] == raw[..start][..n] == more[..start][..n] == more[..n];
    OpeningEnds(more);
    OneOpening(more, n, p);
  }

  lemma DashesSize()
    ensures |DASHES| == 3
  {
  }

  lemma OneOpening(s: Bytes, n: nat, p: Bytes)
    requires p <= s && ((n == 4 && p == DASHES + [LF]) || (n == 5 && p == DASHES + [CR, LF]))
    ensures DASHES + [LF] <= s <==> n == 4
  {
    assert n == 5 ==> s[3] == CR;
    assert n == 4 ==> s[3] == LF;
  }

  lemma BodyStartKept(raw: Bytes, more: Bytes, start: nat)
    requires BodyStart(raw) == Some(start) && start < |raw| && start <= |more| && more[..start] == raw[..start]
    ensures BodyStart(more) == Some(start)
  {
    hide HasOpening, Closing, LineEnd, DASHES;
    var o := LineEnd(raw);
    OpeningKept(raw, more, start);
    assert raw[o..][..start - o] == raw[..start][o..] == more[..start][o..] == more[o..][..start - o];
    ClosingKept(raw[o..], more[o..], start - o);
  }

  // The laws

  /** Where the cell of a text is: a line of the body that the search stops at. */
  lemma CellParts(raw: Bytes) returns (start: nat, k: nat, line: Bytes)
    requires Cell(raw).Some?
    ensures BodyStart(raw) == Some(start) && FindLine(raw[start..], OPEN) == Some(k) && start + k < |raw|
    ensures line == raw[start..][k..k + LineEnd(raw[start..][k..])] && CellStart(line) > 0 && start + k + |line| <= |raw|
    ensures Cell(raw) == Some((start + k + CellStart(line), start + k + CellEnd(line)))
  {
    hide BodyStart, FindLine, CellStart, CellEnd, LineEnd;
    start := BodyStart(raw).value;
    var body := raw[start..];
    k := FindLine(body, OPEN).value;
    line := body[k..k + LineEnd(body[k..])];
    FoundLineMatches(body, OPEN, k);
    assert line == FirstLine(body[k..]);
  }

  function FirstLine(s: Bytes): Bytes {
    s[..LineEnd(s)]
  }

  lemma {:induction false} FoundLineMatches(body: Bytes, f: Fence, k: nat)
    requires FindLine(body, f) == Some(k)
    ensures k <= |body| && CellStart(FirstLine(body[k..])) > 0
    decreases |body|
  {
    hide ConsumeLine, LineText, CellStart, LineEnd, FindLine, FirstLine;
    FindsIn(body, f);
    FoundFirst(body, f, k);
    if k > 0 {
      var e := LineEnd(body);
      FoundLineMatches(body[e..], ConsumeLine(f, LineText(FirstLine(body))).1, k - e);
      assert body[e..][k - e..] == body[k..];
    } else {
      assert body[0..] == body;
    }
  }

  lemma FoundFirst(body: Bytes, f: Fence, k: nat)
    requires FindLine(body, f) == Some(k) && body != []
    ensures k == 0 ==> CellStart(FirstLine(body)) > 0
    ensures k > 0 ==> LineEnd(body) <= k && FindLine(body[LineEnd(body)..], ConsumeLine(f, LineText(FirstLine(body))).1) == Some(k - LineEnd(body))
  {
    hide ConsumeLine, LineText, CellStart, LineEnd;
  }

  lemma InnerCut(x: Bytes, line: Bytes, y: Bytes, i: nat)
    requires i <= |line|
    ensures (x + line + y)[..|x| + i] == x + line[..i] && (x + line + y)[|x| + i..] == line[i..] + y
  {
  }

  /** The text after a set is the old front with the changed body. */
  lemma OutIsWithValue(h: Bytes, body: Bytes, k: nat, v: Bytes)
    requires k <= |body|
    ensures var line := body[k..k + LineEnd(body[k..])];
      var raw := h + body;
      raw[..|h| + k + CellStart(line)] + v + raw[|h| + k + CellEnd(line)..] == h + WithValue(body, k, v)
  {
    hide CellStart, LineEnd, CellEnd;
    var line := body[k..k + LineEnd(body[k..])];
    var x, y := body[..k], body[k + |line|..];
    var s, e := CellStart(line), CellEnd(line);
    CellOrder(line);
    assert body == x + line + y;
    InnerCut(x, line, y, s);
    InnerCut(x, line, y, e);
    CatSlices(h, body, k + s, k + s);
    CatSlices(h, body, k + e, k + e);
    FiveParts(h, x, line[..s], v, line[e..], y);
  }

  lemma FiveParts(h: Bytes, x: Bytes, a: Bytes, v: Bytes, b: Bytes, y: Bytes)
    ensures h + (x + a) + v + (b + y) == h + (x + (a + v + b) + y)
  {
    Assoc(x, a, v);
    Assoc(x, a + v, b);
    Assoc(h, x + a, v);
    Assoc(h + (x + a + v), b, y);
    Assoc(h, x + a + v, b);
    Assoc(h, x + a + v + b, y);
  }

  lemma Cut(a: Bytes, b: Bytes)
    ensures (a + b)[..|a|] == a && (a + b)[|a|..] == b
  {
  }

  lemma LineAfter(body: Bytes, k: nat, v: Bytes)
    requires k <= |body| && Fitting(v) && CellStart(body[k..k + LineEnd(body[k..])]) > 0
    ensures var line := body[k..k + LineEnd(body[k..])];
      var more := line[..CellStart(line)] + v + line[CellEnd(line)..];
      var all := WithValue(body, k, v);
      && k <= |all| && all[k..k + LineEnd(all[k..])] == more
      && CellStart(more) == CellStart(line) && CellEnd(more) == CellStart(line) + |v|
  {
    hide CellStart, CellEnd, LineEnd, Fitting;
    var s := body[k..];
    var line := body[k..k + LineEnd(s)];
    assert s[..LineEnd(s)] == line && s[LineEnd(s)..] == body[k + |line|..];
    FirstLineWith(s, v);
    var more := line[..CellStart(line)] + v + line[CellEnd(line)..];
    Assoc(body[..k], more, body[k + |line|..]);
    Cut(body[..k], more + body[k + |line|..]);
    var all := WithValue(body, k, v);
    assert all[k..k + |more|] == all[k..][..|more|];
  }

  /** After its value was replaced, the cell is where it was and holds the new value. */
  lemma CellAfter(raw: Bytes, v: Bytes)
    requires Cell(raw).Some? && Fitting(v)
    ensures var (a, b) := Cell(raw).value; Cell(raw[..a] + v + raw[b..]) == Some((a, a + |v|))
  {
    hide BodyStart, FindLine, CellStart, CellEnd, LineEnd, Cell, Fitting, WithValue;
    var start, k, line := CellParts(raw);
    var h, body := raw[..start], raw[start..];
    assert raw == h + body;
    OutIsWithValue(h, body, k, v);
    var all := WithValue(body, k, v);
    Cut(h, all);
    BodyStartKept(raw, h + all, start);
    FoundAgain(body, OPEN, k, v);
    LineAfter(body, k, v);
    CellFrom(h + all, start, k, line[..CellStart(line)] + v + line[CellEnd(line)..]);
  }

  lemma SliceOfSlice(s: Bytes, p: nat, n: nat, i: nat, j: nat)
    requires p + n <= |s| && i <= j <= n
    ensures s[p..p + n][i..j] == s[p + i..p + j]
  {
    var t, u := s[p..p + n][i..j], s[p + i..p + j];
    assert |t| == |u|;
    assert forall x :: 0 <= x < |t| ==> t[x] == s[p + i + x] == u[x];
  }

  lemma CellValueFits(raw: Bytes, m: Bytes)
    requires Cell(raw).Some? && IsMark(m)
    ensures var (a, b) := Cell(raw).value; IsValue(raw[a..b]) && Fitting(NewValue(m, raw[a..b]))
  {
    hide BodyStart, FindLine, CellStart, CellEnd, LineEnd, Cell, NewValue;
    var start, k, line := CellParts(raw);
    var (a, b) := Cell(raw).value;
    CellOrder(line);
    CellHasNoLF(line);
    assert line == raw[start + k..start + k + |line|];
    SliceOfSlice(raw, start + k, |line|, CellStart(line), CellEnd(line));
    NewValueIsValue(m, raw[a..b]);
  }

  lemma SetIs(raw: Bytes, m: Bytes)
    requires BodyStart(raw).Some?
    ensures SetStatus(raw, Some(m)).Some?
    ensures Cell(raw).None? ==> SetStatus(raw, Some(m)).value == Patched(raw, false)
    ensures Cell(raw).Some? ==>
              var (a, b) := Cell(raw).value;
              var out := raw[..a] + NewValue(m, raw[a..b]) + raw[b..];
              SetStatus(raw, Some(m)).value == Patched(out, out != raw)
  {
    hide BodyStart, Cell, NewValue;
  }

  lemma CellHasBody(raw: Bytes)
    requires Cell(raw).Some?
    ensures BodyStart(raw).Some?
  {
    hide BodyStart, FindLine;
  }

  /**
   * Setting a status is refused exactly for an unknown status or a text without
   * frontmatter; without a cell it changes nothing.
   */
  lemma SetRefusesOrKeeps(raw: Bytes, lower: Bytes -> Bytes, status: Bytes)
    ensures var r := SetStatus(raw, StatusLabel(lower, status));
      && (r.None? <==> StatusLabel(lower, status).None? || BodyStart(raw).None?)
      && (r.Some? && Cell(raw).None? ==> r.value == Patched(raw, false))
  {
    hide StatusLabel, BodyStart, Cell;
  }

  /** Only the value of the first cell outside fenced code changes, and its reason stays. */
  lemma SetIsLocal(raw: Bytes, m: Bytes)
    requires IsMark(m) && Cell(raw).Some?
    ensures var (a, b) := Cell(raw).value;
      var out := SetStatus(raw, Some(m)).value.bytes;
      var c := a + |NewValue(m, raw[a..b])|;
      && SetStatus(raw, Some(m)).Some? && Cell(out) == Some((a, c)) && c <= |out|
      && out[..a] == raw[..a] && out[c..] == raw[b..] && out[a..c] == NewValue(m, raw[a..b])
      && Tail(out[a..c]) == Tail(raw[a..b])
      && (SetStatus(raw, Some(m)).value.changed <==> raw[a..b] != NewValue(m, raw[a..b]))
  {
    hide BodyStart, Cell, NewValue, SetStatus, Tail, Fitting, IsMark;
    CellHasBody(raw);
    SetIs(raw, m);
    CellValueFits(raw, m);
    var (a, b) := Cell(raw).value;
    var v := NewValue(m, raw[a..b]);
    CellAfter(raw, v);
    TailKept(m, raw[a..b]);
    Sandwich(raw, a, b, v);
  }

  lemma Sandwich(raw: Bytes, a: nat, b: nat, v: Bytes)
    requires a <= b <= |raw|
    ensures var out := raw[..a] + v + raw[b..];
      && out[..a] == raw[..a] && out[a..a + |v|] == v && out[a + |v|..] == raw[b..] && (out == raw <==> v == raw[a..b])
  {
    var out := raw[..a] + v + raw[b..];
    assert raw == raw[..a] + raw[a..b] + raw[b..];
    if out == raw {
      assert |v| == b - a && v == out[a..a + |v|];
    }
  }

  /** A second set decides alone: what the first one wrote leaves no trace. */
  lemma SetSet(raw: Bytes, m: Bytes, n: Bytes)
    requires IsMark(m) && IsMark(n) && BodyStart(raw).Some?
    ensures var first := SetStatus(raw, Some(m));
      first.Some? && SetStatus(first.value.bytes, Some(n)).Some?
      && SetStatus(first.value.bytes, Some(n)).value.bytes == SetStatus(raw, Some(n)).value.bytes
  {
    hide BodyStart, Cell, NewValue, SetStatus, Tail, IsMark;
    SetIs(raw, m);
    SetIs(raw, n);
    if Cell(raw).Some? {
      var (a, b) := Cell(raw).value;
      var out := SetStatus(raw, Some(m)).value.bytes;
      var v := NewValue(m, raw[a..b]);
      var c := a + |v|;
      SetIsLocal(raw, m);
      CellHasBody(out);
      SetIs(out, n);
      NewValueByTail(n, out[a..c], raw[a..b]);
    }
  }

  lemma NewValueByTail(m: Bytes, v: Bytes, w: Bytes)
    requires Tail(v) == Tail(w)
    ensures NewValue(m, v) == NewValue(m, w)
  {
  }

  /** Setting the same status again reports that nothing changed. */
  lemma SetTwice(raw: Bytes, m: Bytes)
    requires IsMark(m) && BodyStart(raw).Some?
    ensures SetStatus(raw, Some(m)).Some?
    ensures var once := SetStatus(raw, Some(m)).value.bytes; SetStatus(once, Some(m)) == Some(Patched(once, false))
  {
    hide BodyStart, Cell, NewValue, SetStatus, Tail, IsMark;
    SetIs(raw, m);
    if Cell(raw).Some? {
      var once := SetStatus(raw, Some(m)).value.bytes;
      SetIsLocal(raw, m);
      CellHasBody(once);
      SetIs(once, m);
      SetSet(raw, m, m);
    }
  }

  /** What the first cell says: its value up to the dash of the reason. */
  function StatusOf(raw: Bytes): Option<Bytes> {
    match Cell(raw)
    case None => None
    case Some((a, b)) => Some(MarkOf(raw[a..b]))
  }

  function MarkOf(value: Bytes): Bytes {
    match DashAt(value)
    case None => TrimBlanks(value)
    case Some(i) => value[..i]
  }

  lemma MarkOfNew(m: Bytes, value: Bytes)
    requires IsMark(m)
    ensures MarkOf(NewValue(m, value)) == m
  {
    hide DashAt, TrimBlanks, DASH, IsBlank;
    var t := Tail(value);
    TailIs(value);
    if t == [] {
      NoDash(NewValue(m, value));
      assert NewValue(m, value) == m + [0x20] by { assert m + [] == m; }
      assert m != [] && LEAD !in m && !IsBlank(m[|m| - 1]);
      TrimTrimmed(m);
    } else {
      assert NewValue(m, value) == m + (t + [0x20]);
      FirstDash(m, t + [0x20]);
      Cut(m, t + [0x20]);
    }
  }

  /** Reading after setting gives what was set. */
  lemma SetThenRead(raw: Bytes, m: Bytes)
    requires IsMark(m) && Cell(raw).Some?
    ensures SetStatus(raw, Some(m)).Some? && StatusOf(SetStatus(raw, Some(m)).value.bytes) == Some(m)
  {
    hide BodyStart, Cell, NewValue, SetStatus, Tail, MarkOf;
    SetIsLocal(raw, m);
    MarkOfNew(m, raw[Cell(raw).value.0..Cell(raw).value.1]);
  }
}
