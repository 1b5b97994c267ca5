/**
 * The status patch by what a reader of the file sees: which lines are in fenced
 * code, what a status line looks like, where the body starts, and what is
 * written for a status.
 */
module StatusMeaning {
  import opened Wrappers
  import opened Bytes
  import opened StatusCell
  import opened StatusPatch
  import opened StatusLaws
  import Text

  // White space

  /** The white space that is trimmed is that of unicode, in UTF-8. */
  lemma SpacesAre(w: Bytes)
    ensures (|w| == 1 && AsciiSpace(w[0])) || WideSpace(w) <==> exists c :: Text.IsSpace(c) && w == Utf8Encode(c as int)
  {
    if |w| == 1 && AsciiSpace(w[0]) {
      assert Text.IsSpace(w[0] as char) && w == Utf8Encode((w[0] as char) as int);
    }
    if WideSpace(w) {
      var c := WideChar(w);
    }
  }

  lemma WideChar(w: Bytes) returns (c: char)
    requires WideSpace(w)
    ensures Text.IsSpace(c) && w == Utf8Encode(c as int)
  {
    if w == [0xC2, 0x85] {
      c := '\U{85}';
    } else if w == [0xC2, 0xA0] {
      c := '\U{A0}';
    } else if w == [0xE1, 0x9A, 0x80] {
      c := '\U{1680}';
    } else if w == [0xE2, 0x81, 0x9F] {
      c := '\U{205F}';
    } else if w == [0xE3, 0x80, 0x80] {
      c := '\U{3000}';
    } else {
      c := (0x2000 + (w[2] as int - 0x80)) as char;
      assert c as int == 0x2000 + (w[2] as int - 0x80);
    }
  }

  // Fenced code

  function Run(c: Byte, n: nat): Bytes {
    seq(n, _ => c)
  }

  predicate IsMarker(c: Byte) {
    c as char == '`' || c as char == '~'
  }

  /** A line that opens a fence: at least three markers, and behind backticks no other backtick. */
  ghost predicate OpensFence(line: Bytes, c: Byte, n: nat) {
    && IsMarker(c) && n >= 3
    && exists rest: Bytes ::
      && TrimSpace(line) == Run(c, n) + rest && (rest == [] || rest[0] != c)
      && (c as char == '`' ==> c !in rest)
  }

  /** A line that closes it: at least as many of the same marker, and nothing else. */
  ghost predicate ClosesFence(line: Bytes, c: Byte, n: nat) {
    exists k: nat, rest: Bytes :: k >= n && TrimSpace(line) == Run(c, k) + rest && (rest == [] || rest[0] != c) && TrimSpace(rest) == []
  }

  lemma {:induction false} LeadingRun(c: Byte, n: nat, rest: Bytes)
    requires rest == [] || rest[0] != c
    ensures Leading(Run(c, n) + rest, c) == n && (Run(c, n) + rest)[n..] == rest
  {
    if n == 0 {
      assert Run(c, 0) + rest == rest;
    } else {
      assert (Run(c, n) + rest)[1..] == Run(c, n - 1) + rest;
      LeadingRun(c, n - 1, rest);
    }
  }

  lemma {:induction false} RunLeads(s: Bytes, c: Byte)
    ensures var n := Leading(s, c); s == Run(c, n) + s[n..] && (n < |s| ==> s[n] != c)
  {
    AllLead(s, c);
    var n := Leading(s, c);
    assert s[..n] == Run(c, n);
  }

  lemma {:induction false} AllLead(s: Bytes, c: Byte)
    ensures var n := Leading(s, c); (forall i :: 0 <= i < n ==> s[i] == c) && (n < |s| ==> s[n] != c)
  {
    if s != [] && s[0] == c {
      AllLead(s[1..], c);
    }
  }

  /** Outside a fence: the line is in fenced code exactly when it opens a fence, which is then open. */
  lemma OutsideFence(line: Bytes)
    ensures forall c, n :: OpensFence(line, c, n) ==> ConsumeLine(OPEN, line) == (true, Fence(c, n))
    ensures (forall c, n :: !OpensFence(line, c, n)) ==> ConsumeLine(OPEN, line) == (false, OPEN)
  {
    var t := TrimSpace(line);
    hide TrimSpace;
    forall c, n | OpensFence(line, c, n)
      ensures ConsumeLine(OPEN, line) == (true, Fence(c, n))
    {
      var rest: Bytes :| t == Run(c, n) + rest && (rest == [] || rest[0] != c) && (c as char == '`' ==> c !in rest);
      LeadingRun(c, n, rest);
      assert t[0] == c;
    }
    if t != [] {
      RunLeads(t, t[0]);
      var n := Leading(t, t[0]);
      if ConsumeLine(OPEN, line).0 {
        assert OpensFence(line, t[0], n);
      }
    }
  }

  /** Inside a fence: every line is in fenced code, and the fence is closed exactly by a line that closes it. */
  lemma InsideFence(c: Byte, n: nat, line: Bytes)
    requires IsMarker(c) && n > 0
    ensures ConsumeLine(Fence(c, n), line) == (true, if ClosesFence(line, c, n) then OPEN else Fence(c, n))
  {
    var t := TrimSpace(line);
    hide TrimSpace;
    if ClosesFence(line, c, n) {
      var k: nat, rest: Bytes :| k >= n && t == Run(c, k) + rest && (rest == [] || rest[0] != c) && TrimSpace(rest) == [];
      LeadingRun(c, k, rest);
      assert t[0] == c;
    } else {
      RunLeads(t, c);
    }
  }

  /** The state of the fence after some lines. */
  function After(f: Fence, lines: seq<Bytes>): Fence {
    if lines == [] then f else ConsumeLine(After(f, lines[..|lines| - 1]), lines[|lines| - 1]).1
  }

  /** Whether line k of a text is in fenced code. */
  predicate InFence(lines: seq<Bytes>, k: nat)
    requires k < |lines|
  {
    ConsumeLine(After(OPEN, lines[..k]), lines[k]).0
  }

  lemma AfterOneMore(lines: seq<Bytes>, k: nat)
    requires k < |lines|
    ensures After(OPEN, lines[..k + 1]) == ConsumeLine(After(OPEN, lines[..k]), lines[k]).1
  {
    assert lines[..k + 1][..k] == lines[..k];
  }

  /**
   * A fence reaches from the line that opens it to the first line that closes it,
   * or to the end of the text: everything there is in fenced code, whatever it
   * looks like, and what follows is judged as at the start.
   */
  lemma {:induction false} FenceReaches(lines: seq<Bytes>, i: nat, k: nat, c: Byte, n: nat)
    requires i <= k < |lines| && After(OPEN, lines[..i]) == OPEN && OpensFence(lines[i], c, n)
    requires forall j :: i < j < k ==> !ClosesFence(lines[j], c, n)
    ensures InFence(lines, k)
    ensures After(OPEN, lines[..k + 1]) == if k > i && ClosesFence(lines[k], c, n) then OPEN else Fence(c, n)
    decreases k
  {
    hide ConsumeLine, OpensFence, ClosesFence;
    assert IsMarker(c) && n >= 3 by { OpeningIsLong(lines[i], c, n); }
    AfterOneMore(lines, k);
    if k == i {
      OutsideFence(lines[i]);
    } else {
      FenceReaches(lines, i, k - 1, c, n);
      InsideFence(c, n, lines[k]);
    }
  }

  lemma OpeningIsLong(line: Bytes, c: Byte, n: nat)
    requires OpensFence(line, c, n)
    ensures IsMarker(c) && n >= 3
  {
  }

  /** And a line where no fence is open, and that opens none, is not in fenced code. */
  lemma NoFence(lines: seq<Bytes>, k: nat)
    requires k < |lines| && After(OPEN, lines[..k]) == OPEN && forall c, n :: !OpensFence(lines[k], c, n)
    ensures !InFence(lines, k) && After(OPEN, lines[..k + 1]) == OPEN
  {
    AfterOneMore(lines, k);
    OutsideFence(lines[k]);
  }

  // The first status line outside fenced code

  function Texts(lines: seq<Bytes>): (ts: seq<Bytes>)
    ensures |ts| == |lines| && forall i :: 0 <= i < |lines| ==> ts[i] == LineText(lines[i])
  {
    seq(|lines|, i requires 0 <= i < |lines| => LineText(lines[i]))
  }

  /** Line k starts a cell, and no fence reaches it when the text begins in state f. */
  predicate CellAt(f: Fence, lines: seq<Bytes>, k: nat)
    requires k < |lines|
  {
    !ConsumeLine(After(f, Texts(lines)[..k]), LineText(lines[k])).0 && CellStart(lines[k]) > 0
  }

  lemma {:induction false} AfterFirst(f: Fence, lines: seq<Bytes>)
    requires lines != []
    ensures After(f, lines) == After(ConsumeLine(f, lines[0]).1, lines[1..])
  {
    hide ConsumeLine;
    var n := |lines| - 1;
    if n > 0 {
      AfterFirst(f, lines[..n]);
      assert lines[..n][1..] == lines[1..][..n - 1];
    } else {
      assert lines[..0] == [] && lines[1..] == [];
    }
  }

  lemma CellLater(f: Fence, lines: seq<Bytes>, k: nat)
    requires 0 < k < |lines|
    ensures CellAt(f, lines, k) <==> CellAt(ConsumeLine(f, LineText(lines[0])).1, lines[1..], k - 1)
  {
    hide ConsumeLine, LineText, CellStart;
    AfterFirst(f, Texts(lines)[..k]);
    assert Texts(lines)[..k][1..] == Texts(lines[1..])[..k - 1];
  }

  /** The search finds the first such line, by its place in the text. */
  lemma {:induction false} FirstIn(lines: seq<Bytes>, f: Fence) returns (k: nat)
    ensures k <= |lines| && forall i :: 0 <= i < k ==> !CellAt(f, lines, i)
    ensures FindIn(lines, f) == if k < |lines| then Some(|Concat(lines[..k])|) else None
    ensures k < |lines| ==> CellAt(f, lines, k)
  {
    hide ConsumeLine, CellStart, LineText;
    k := 0;
    if lines != [] {
      assert Texts(lines)[..0] == [];
      if !CellAt(f, lines, 0) {
        var rest := FirstIn(lines[1..], ConsumeLine(f, LineText(lines[0])).1);
        k := rest + 1;
        NotBefore(f, lines, k);
        if k < |lines| {
          CellLater(f, lines, k);
          assert lines[..k][1..] == lines[1..][..rest];
        }
      }
    }
  }

  lemma NotBefore(f: Fence, lines: seq<Bytes>, k: nat)
    requires lines != [] && 0 < k <= |lines| && !CellAt(f, lines, 0)
    requires forall i :: 0 <= i < k - 1 ==> !CellAt(ConsumeLine(f, LineText(lines[0])).1, lines[1..], i)
    ensures forall i :: 0 <= i < k ==> !CellAt(f, lines, i)
  {
    forall i | 0 < i < k
      ensures !CellAt(f, lines, i)
    {
      CellLater(f, lines, i);
    }
  }

  /** The patch goes to the first line of the body that has a cell and is not in fenced code; when there is none, nowhere. */
  lemma FirstCell(body: Bytes) returns (k: nat)
    ensures var lines := SplitAfter(body);
      && k <= |lines|
      && FindLine(body, OPEN) == (if k < |lines| then Some(|Concat(lines[..k])|) else None)
      && (k < |lines| ==> !InFence(Texts(lines), k) && CellStart(lines[k]) > 0)
      && forall i :: 0 <= i < k ==> InFence(Texts(lines), i) || CellStart(lines[i]) == 0
  {
    hide ConsumeLine, CellStart, LineText, FindIn, FindLine, SplitAfter, After, CellAt, InFence;
    SplitFinds(body, OPEN);
    var lines := SplitAfter(body);
    k := FirstIn(lines, OPEN);
    forall i | 0 <= i < |lines|
      ensures CellAt(OPEN, lines, i) <==> !InFence(Texts(lines), i) && CellStart(lines[i]) > 0
    {
      CellOutside(lines, i);
    }
  }

  lemma CellOutside(lines: seq<Bytes>, i: nat)
    requires i < |lines|
    ensures CellAt(OPEN, lines, i) <==> !InFence(Texts(lines), i) && CellStart(lines[i]) > 0
  {
  }

  // The status line

  predicate AllSpacesAndTabs(s: Bytes) {
    forall i :: 0 <= i < |s| ==> s[i] as char == ' ' || s[i] as char == '\t'
  }

  /** Bar, **Status**, bar, each after any spaces and tabs, and spaces and tabs before the value. */
  ghost predicate StatusFront(g: Bytes) {
    exists a: Bytes, b: Bytes, c: Bytes, d: Bytes ::
      && AllSpacesAndTabs(a) && AllSpacesAndTabs(b) && AllSpacesAndTabs(c) && AllSpacesAndTabs(d)
      && g == a + Ascii("|") + b + Ascii("**Status**") + c + Ascii("|") + d
  }

  lemma StatusSpelled()
    ensures STATUS == Ascii("**Status**") && [BAR] == Ascii("|")
  {
  }

  /** A line has a cell exactly when it starts like that, and the value is what follows up to a bar or an end of line. */
  lemma CellMeans(line: Bytes)
    ensures CellStart(line) > 0 <==> exists n :: 0 <= n <= |line| && StatusFront(line[..n])
    ensures CellStart(line) > 0 ==>
      && StatusFront(line[..CellStart(line)])
      && (CellStart(line) < |line| ==> line[CellStart(line)] as char != ' ' && line[CellStart(line)] as char != '\t')
      && (forall i :: CellStart(line) <= i < CellEnd(line) ==> line[i] as char !in "|\r\n")
      && (CellEnd(line) < |line| ==> line[CellEnd(line)] as char in "|\r\n")
  {
    hide StatusFront, CellStart, ValueLength;
    if CellStart(line) > 0 {
      CellHasFront(line);
      ValueMeans(line, CellStart(line));
    }
    if n :| 0 <= n <= |line| && StatusFront(line[..n]) {
      var p := PartsOfFront(line[..n]);
      MoreBlanks(p, line[..n], line[n..]);
      assert line[..n] + line[n..] == line;
    }
  }

  lemma CellHasFront(line: Bytes)
    requires CellStart(line) > 0
    ensures StatusFront(line[..CellStart(line)])
    ensures CellStart(line) < |line| ==> line[CellStart(line)] as char != ' ' && line[CellStart(line)] as char != '\t'
  {
    hide StatusFront;
    var p := PartsOf(line);
    var w := AfterFront(line).value;
    assert line[..CellStart(line)] == Group(p) && line[CellStart(line)..] == w;
    FrontOfParts(p);
    FrontStops(line);
  }

  lemma FrontStops(line: Bytes)
    requires AfterFront(line).Some?
    ensures var w := AfterFront(line).value; w != [] ==> !IsBlank(w[0])
  {
  }

  lemma ValueMeans(line: Bytes, a: nat)
    requires a <= |line|
    ensures var b := a + ValueLength(line[a..]);
      (forall i :: a <= i < b ==> line[i] as char !in "|\r\n") && (b < |line| ==> line[b] as char in "|\r\n")
  {
    var w := line[a..];
    assert forall i :: a <= i < a + ValueLength(w) ==> line[i] == w[i - a] && InValue(w[i - a]);
  }

  lemma FrontOfParts(p: Parts)
    requires PartsOk(p)
    ensures StatusFront(Group(p))
  {
    StatusSpelled();
    assert AllSpacesAndTabs(p.b0) && AllSpacesAndTabs(p.b1) && AllSpacesAndTabs(p.b2) && AllSpacesAndTabs(p.b3);
  }

  lemma PartsOfFront(g: Bytes) returns (p: Parts)
    requires StatusFront(g)
    ensures PartsOk(p) && Group(p) == g
  {
    StatusSpelled();
    var a: Bytes, b: Bytes, c: Bytes, d: Bytes :|
      && AllSpacesAndTabs(a) && AllSpacesAndTabs(b) && AllSpacesAndTabs(c) && AllSpacesAndTabs(d)
      && g == a + Ascii("|") + b + Ascii("**Status**") + c + Ascii("|") + d;
    p := Parts(a, b, c, d);
  }

  lemma MoreBlanks(p: Parts, g: Bytes, rest: Bytes)
    requires PartsOk(p) && g == Group(p)
    ensures CellStart(g + rest) > 0
  {
    var more := BlanksSkipped(rest);
    var q := p.(b3 := p.b3 + more);
    var w := SkipBlanks(rest);
    hide STATUS, SkipBlanks;
    Assoc(p.b0 + [BAR] + p.b1 + STATUS + p.b2 + [BAR], p.b3, more);
    Assoc(g, more, w);
    CellStartOf(q, w);
  }

  // What is written

  /** The bytes are these characters. */
  predicate Says(s: Bytes, text: string) {
    |s| == |text| && forall i :: 0 <= i < |s| ==> s[i] as char == text[i]
  }

  /** A status is known by its name, in any case and between any spaces, and each name has its mark. */
  lemma MarksAre(lower: Bytes -> Bytes, status: Bytes)
    ensures
      var name, mark := lower(TrimSpace(status)), StatusLabel(lower, status);
      if Says(name, "pending") || Says(name, "todo") then mark.Some? && Says(mark.value, "[ ] Pending")
      else if Says(name, "in-progress") || Says(name, "in_progress") || Says(name, "doing") then
        mark.Some? && Says(mark.value, "[~] In Progress")
      else if Says(name, "review") then mark.Some? && Says(mark.value, "[>] Review")
      else if Says(name, "done") then mark.Some? && Says(mark.value, "[x] Done")
      else if Says(name, "blocked") then mark.Some? && Says(mark.value, "[!] Blocked")
      else if Says(name, "cancelled") || Says(name, "canceled") then mark.Some? && Says(mark.value, "[-] Cancelled")
      else mark.None?
  {
    hide TrimSpace, Says;
    var name := lower(TrimSpace(status));
    NamesSay(name);
    MarksSay();
  }

  lemma NamesSay(name: Bytes)
    ensures (name == NAME_PENDING <==> Says(name, "pending")) && (name == NAME_TODO <==> Says(name, "todo"))
    ensures (name == NAME_IN_PROGRESS <==> Says(name, "in-progress")) && (name == NAME_IN_PROGRESS_2 <==> Says(name, "in_progress"))
    ensures (name == NAME_DOING <==> Says(name, "doing")) && (name == NAME_REVIEW <==> Says(name, "review"))
    ensures (name == NAME_DONE <==> Says(name, "done")) && (name == NAME_BLOCKED <==> Says(name, "blocked"))
    ensures (name == NAME_CANCELLED <==> Says(name, "cancelled")) && (name == NAME_CANCELED <==> Says(name, "canceled"))
  {
  }

  lemma MarksSay()
    ensures Says(MARK_PENDING, "[ ] Pending") && Says(MARK_IN_PROGRESS, "[~] In Progress") && Says(MARK_REVIEW, "[>] Review")
    ensures Says(MARK_DONE, "[x] Done") && Says(MARK_BLOCKED, "[!] Blocked") && Says(MARK_CANCELLED, "[-] Cancelled")
  {
  }

  /** The dash in front of a reason is an em dash between spaces. */
  lemma DashSpelled()
    ensures DASH == Ascii(" ") + Utf8Encode(0x2014) + Ascii(" ") && DASHES == Ascii("---")
    ensures LF as char == '\n' && CR as char == '\r'
  {
  }

  /** Where an em dash between spaces stands. */
  predicate DashStands(value: Bytes, i: nat) {
    i + 5 <= |value| && value[i..i + 5] == DASH
  }

  /**
   * What is written: the mark, then the old value from its first dash on without
   * the blanks at its end, then one space; and without a dash no more than that.
   */
  lemma WrittenMeans(m: Bytes, value: Bytes) returns (i: nat, j: nat)
    ensures i <= j <= |value| && NewValue(m, value) == m + value[i..j] + Ascii(" ")
    ensures forall n :: 0 <= n < i ==> !DashStands(value, n)
    ensures i < |value| ==> DashStands(value, i)
    ensures AllSpacesAndTabs(value[j..]) && (i < j ==> value[j - 1] as char != ' ' && value[j - 1] as char != '\t')
  {
    FirstDashAt(value);
    hide DASH, DashAt, DashStands;
    if DashAt(value).None? {
      i, j := |value|, |value|;
      assert value[i..j] == [];
    } else {
      i := DashAt(value).value;
      var t := TrimBlanks(value[i..]);
      j := i + |t|;
      BlanksTrimmed(value[i..]);
      assert value[i..j] == t && value[j..] == value[i..][|t|..];
    }
  }

  lemma {:induction false} FirstDashAt(value: Bytes)
    ensures match DashAt(value)
      case None => forall n :: !DashStands(value, n)
      case Some(i) => DashStands(value, i) && forall n :: 0 <= n < i ==> !DashStands(value, n)
  {
    hide DASH, DashStands;
    ShortOrHere(value);
    if |value| >= 5 && value[..5] != DASH {
      FirstDashAt(value[1..]);
      forall n | n > 0
        ensures DashStands(value, n) <==> DashStands(value[1..], n - 1)
      {
        DashLater(value, n);
      }
    }
  }

  lemma ShortOrHere(value: Bytes)
    ensures |value| < 5 ==> forall n :: !DashStands(value, n)
    ensures |value| >= 5 ==> (DashStands(value, 0) <==> value[..5] == DASH)
  {
    hide DASH;
    if |value| >= 5 {
      assert value[0..5] == value[..5];
    }
  }

  lemma DashLater(value: Bytes, n: nat)
    requires n > 0 && value != []
    ensures DashStands(value, n) <==> DashStands(value[1..], n - 1)
  {
    hide DASH;
    if n + 5 <= |value| {
      assert value[1..][n - 1..n + 4] == value[n..n + 5];
    }
  }

  lemma {:induction false} BlanksTrimmed(s: Bytes)
    ensures var t := TrimBlanks(s); t <= s && AllSpacesAndTabs(s[|t|..])
    ensures var t := TrimBlanks(s); t != [] ==> t[|t| - 1] as char != ' ' && t[|t| - 1] as char != '\t'
  {
    if s != [] && IsBlank(s[|s| - 1]) {
      BlanksTrimmed(s[..|s| - 1]);
    }
  }

  // The frontmatter

  /** The bytes up to and with the first of the lines that is three dashes. */
  function UpToDashes(lines: seq<Bytes>): Option<nat> {
    if lines == [] then None
    else if LineText(lines[0]) == Ascii("---") then Some(|lines[0]|)
    else
      match UpToDashes(lines[1..])
      case None => None
      case Some(n) => Some(|lines[0]| + n)
  }

  lemma {:induction false} ClosingIsUpToDashes(s: Bytes)
    ensures Closing(s) == UpToDashes(SplitAfter(s))
    decreases |s|
  {
    DashSpelled();
    hide LineText;
    var e := LineEnd(s);
    if s == [] || s[e - 1] != LF {
      assert s[..e] == s by { LineEndsText(s); }
      assert SplitAfter(s)[1..] == [];
    } else {
      ClosingIsUpToDashes(s[e..]);
      assert SplitAfter(s)[1..] == SplitAfter(s[e..]);
    }
  }

  lemma LineEndsText(s: Bytes)
    requires s == [] || s[LineEnd(s) - 1] != LF
    ensures LineEnd(s) == |s|
  {
  }

  /** The frontmatter is opened by a first line of three dashes and closed by the next such line; the body is what follows. */
  lemma FrontmatterMeans(raw: Bytes)
    ensures
      var lines := SplitAfter(raw);
      BodyStart(raw) ==
        if |lines| == 1 || LineText(lines[0]) != Ascii("---") then None
        else
          match UpToDashes(lines[1..])
          case None => None
          case Some(n) => Some(|lines[0]| + n)
  {
    hide Closing, UpToDashes, LineText, HasOpening, LineEnd;
    DashSpelled();
    OpeningMeans(raw);
    if raw != [] && raw[LineEnd(raw) - 1] == LF {
      ClosingIsUpToDashes(raw[LineEnd(raw)..]);
      FirstOfLines(raw);
    }
  }

  lemma FirstOfLines(s: Bytes)
    requires s != [] && s[LineEnd(s) - 1] == LF
    ensures SplitAfter(s)[0] == s[..LineEnd(s)] && SplitAfter(s)[1..] == SplitAfter(s[LineEnd(s)..]) && |SplitAfter(s)| > 1
  {
  }

  lemma OpeningMeans(raw: Bytes)
    ensures HasOpening(raw) <==> |SplitAfter(raw)| > 1 && LineText(SplitAfter(raw)[0]) == DASHES
  {
    var e := LineEnd(raw);
    if HasOpening(raw) {
      OpeningLine(raw);
    }
    if raw != [] && raw[e - 1] == LF && LineText(raw[..e]) == DASHES {
      var line := raw[..e];
      assert line[e - 1] == LF && (line == DASHES + [LF] || line == DASHES + [CR, LF]);
    }
  }

  lemma OpeningLine(raw: Bytes)
    requires HasOpening(raw)
    ensures raw != [] && raw[LineEnd(raw) - 1] == LF && LineText(raw[..LineEnd(raw)]) == DASHES
  {
    OpeningEnds(raw);
    hide LineEnd;
    var line := raw[..LineEnd(raw)];
    if DASHES + [LF] <= raw {
      assert line == DASHES + [LF];
      TextOfLine(DASHES);
    } else {
      assert line == DASHES + [CR, LF];
      TextOfLine(DASHES);
    }
  }

  lemma TextOfLine(x: Bytes)
    requires x != [] && x[|x| - 1] != CR
    ensures LineText(x + [LF]) == x && LineText(x + [CR, LF]) == x
  {
    assert (x + [LF])[..|x|] == x;
    assert (x + [CR, LF])[..|x| + 1] == x + [CR] && (x + [CR])[..|x|] == x;
  }
}
