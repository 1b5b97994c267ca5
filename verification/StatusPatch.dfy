/** SetStatusCell as it runs: line by line, with one fence state that moves along. */
module StatusPatch {
  import opened Wrappers
  import opened Bytes
  import opened StatusCell

  /** bytes.IndexByte of a line feed; -1 if there is none. */
  function IndexLF(s: Bytes): (k: int)
    ensures -1 <= k < |s|
  {
    if s != [] && s[LineEnd(s) - 1] == LF then LineEnd(s) - 1 else -1
  }

  function Shifted(n: nat, r: Option<nat>): Option<nat> {
    if r.None? then None else Some(n + r.value)
  }

  lemma BodyPhases(raw: Bytes)
    ensures !HasOpening(raw) ==> BodyStart(raw).None?
    ensures HasOpening(raw) ==> IndexLF(raw) >= 0 && BodyStart(raw) == Shifted(IndexLF(raw) + 1, Closing(raw[IndexLF(raw) + 1..]))
  {
    hide Closing;
    if DASHES + [LF] <= raw {
      assert raw[3] == LF;
    } else if DASHES + [CR, LF] <= raw {
      assert raw[4] == LF;
    }
  }

  /** The end of the line at next, without its line feed. */
  function EndOfLine(raw: Bytes, next: nat): (end: nat)
    requires next <= |raw|
    ensures next <= end <= |raw|
  {
    var k := IndexLF(raw[next..]);
    if k < 0 then |raw| else next + k
  }

  lemma LineWithoutLF(s: Bytes)
    requires IndexLF(s) >= 0
    ensures IndexLF(s) + 1 == LineEnd(s) && s[IndexLF(s)] == LF && LineText(s[..LineEnd(s)]) == DropLast(s[..IndexLF(s)], CR)
  {
    assert s[..LineEnd(s)][..IndexLF(s)] == s[..IndexLF(s)];
  }

  lemma LastLine(s: Bytes)
    requires IndexLF(s) < 0
    ensures LineEnd(s) == |s| && LineText(s) == DropLast(s, CR) && (s == [] || s[|s| - 1] != LF)
  {
  }

  /** The line at the front of the scan for the closing line. */
  lemma ClosingAt(s: Bytes, k: int)
    requires k == IndexLF(s)
    ensures k < 0 ==> Closing(s) == if DropLast(s, CR) == DASHES then Some(|s|) else None
    ensures k >= 0 ==> Closing(s) == if DropLast(s[..k], CR) == DASHES then Some(k + 1) else Shifted(k + 1, Closing(s[k + 1..]))
  {
    hide IndexLF, LineText, DropLast, DASHES, LineEnd;
    var e := LineEnd(s);
    if k < 0 {
      LastLine(s);
      assert s[..e] == s;
      assert LineText(s[..e]) != DASHES ==> Closing(s).None?;
    } else {
      LineWithoutLF(s);
      assert LineText(s[..e]) != DASHES ==> Closing(s) == Shifted(e, Closing(s[e..]));
    }
  }

  lemma ClosingStep(raw: Bytes, next: nat)
    requires next <= |raw|
    ensures var end := EndOfLine(raw, next);
      Closing(raw[next..]) == if DropLast(raw[next..end], CR) == DASHES then Some(end - next + if end < |raw| then 1 else 0)
                              else if end == |raw| then None
                              else Shifted(end + 1 - next, Closing(raw[end + 1..]))
  {
    hide IndexLF, DropLast, Closing, DASHES;
    var s := raw[next..];
    var k := IndexLF(s);
    ClosingAt(s, k);
    if k >= 0 {
      assert s[..k] == raw[next..next + k] && s[k + 1..] == raw[next + k + 1..];
    } else {
      assert raw[next..|raw|] == s;
    }
  }

  method SplitFrontmatterWithOffset(raw: Bytes) returns (r: Option<nat>)
    ensures r == BodyStart(raw)
  {
    hide BodyStart, Closing, DropLast, IndexLF, EndOfLine, HasOpening, DASHES;
    BodyPhases(raw);
    if !HasOpening(raw) { return None; }
    var lineEnd: nat := IndexLF(raw);
    while true
      invariant lineEnd < |raw|
      invariant BodyStart(raw) == Shifted(lineEnd + 1, Closing(raw[lineEnd + 1..]))
      decreases |raw| - lineEnd
    {
      var next := lineEnd + 1;
      var end := EndOfLine(raw, next);
      ClosingStep(raw, next);
      if DropLast(raw[next..end], CR) == DASHES {
        return Some(if end < |raw| then end + 1 else end);
      }
      if end == |raw| { return None; }
      lineEnd := end;
    }
  }

  // Lines of the body

  function FindIn(lines: seq<Bytes>, f: Fence): Option<nat> {
    if lines == [] then None
    else
      var (inside, g) := ConsumeLine(f, LineText(lines[0]));
      if !inside && CellStart(lines[0]) > 0 then Some(0)
      else
        match FindIn(lines[1..], g)
        case None => None
        case Some(k) => Some(|lines[0]| + k)
  }

  lemma NothingOnEmptyLine()
    ensures CellStart([]) == 0
  {
  }

  lemma {:induction false} SplitFinds(body: Bytes, f: Fence)
    ensures FindIn(SplitAfter(body), f) == FindLine(body, f)
    decreases |body|
  {
    NothingOnEmptyLine();
    hide ConsumeLine, CellStart, LineText;
    var lines := SplitAfter(body);
    if body == [] {
      assert lines[1..] == [];
    } else if body[LineEnd(body) - 1] != LF {
      assert body[..LineEnd(body)] == body && body[LineEnd(body)..] == [] && lines[1..] == [];
    } else {
      var (inside, g) := ConsumeLine(f, LineText(body[..LineEnd(body)]));
      SplitFinds(body[LineEnd(body)..], g);
      assert lines[1..] == SplitAfter(body[LineEnd(body)..]);
    }
  }

  /** The lines from i on are what follows offset in the text. */
  function Concat(lines: seq<Bytes>): Bytes {
    if lines == [] then [] else lines[0] + Concat(lines[1..])
  }

  lemma {:induction false} SplitConcat(s: Bytes)
    ensures Concat(SplitAfter(s)) == s
    decreases |s|
  {
    var lines := SplitAfter(s);
    if s == [] || s[LineEnd(s) - 1] != LF {
      assert lines[1..] == [];
      assert s + [] == s;
    } else {
      SplitConcat(s[LineEnd(s)..]);
      assert lines[1..] == SplitAfter(s[LineEnd(s)..]);
      assert s == s[..LineEnd(s)] + s[LineEnd(s)..];
    }
  }

  /** Every line but the last ends in its only line feed. */
  predicate AreLines(lines: seq<Bytes>) {
    forall i :: 0 <= i < |lines| ==> LineEnd(lines[i]) == |lines[i]| && (i < |lines| - 1 ==> lines[i] != [] && lines[i][|lines[i]| - 1] == LF)
  }

  lemma {:induction false} LineEndOfPrefix(s: Bytes, n: nat)
    requires n == LineEnd(s)
    ensures LineEnd(s[..n]) == n
  {
    if s != [] && s[0] != LF {
      LineEndOfPrefix(s[1..], n - 1);
      assert s[..n][1..] == s[1..][..n - 1];
    }
  }

  lemma {:induction false} SplitLines(s: Bytes)
    ensures AreLines(SplitAfter(s))
    decreases |s|
  {
    LineEndOfPrefix(s, LineEnd(s));
    if s == [] || s[LineEnd(s) - 1] != LF {
      assert s[..LineEnd(s)] == s;
    } else {
      SplitLines(s[LineEnd(s)..]);
    }
  }

  lemma {:induction false} LineEndOfConcat(line: Bytes, rest: Bytes)
    requires line != [] && LineEnd(line) == |line| && (line[|line| - 1] == LF || rest == [])
    ensures LineEnd(line + rest) == |line|
  {
    if rest == [] {
      assert line + rest == line;
    } else if |line| > 1 {
      assert (line + rest)[1..] == line[1..] + rest;
      LineEndOfConcat(line[1..], rest);
    }
  }

  /** The replacement of one line: what the innermost part of the loop builds. */
  method PatchLine(raw: Bytes, offset: nat, line: Bytes, mark: Bytes) returns (p: Patched)
    requires offset + |line| <= |raw| && raw[offset..offset + |line|] == line
    ensures p == Replaced(raw, mark, offset + CellStart(line), offset + CellEnd(line))
  {
    hide CellStart, CellEnd, Tail, Replaced;
    var start, end := CellStart(line), CellEnd(line);
    var value := line[start..end];
    var replacement := line[..start] + (mark + Tail(value) + [0x20]);
    var out := raw[..offset] + replacement + line[end..] + raw[offset + |line|..];
    PatchedIs(raw, offset, line, start, end, mark);
    ReplacedIs(raw, mark, offset + start, offset + end);
    p := Patched(out, out != raw);
  }

  lemma PatchedIs(raw: Bytes, offset: nat, line: Bytes, start: nat, end: nat, mark: Bytes)
    requires offset + |line| <= |raw| && raw[offset..offset + |line|] == line && start <= end <= |line|
    ensures raw[..offset] + (line[..start] + (mark + Tail(line[start..end]) + [0x20])) + line[end..] + raw[offset + |line|..]
         == Replaced(raw, mark, offset + start, offset + end).bytes
  {
    hide Tail;
    assert raw == raw[..offset] + line + raw[offset + |line|..];
    Joined(raw[..offset], line, raw[offset + |line|..], start, end, NewValue(mark, line[start..end]));
  }

  lemma ReplacedIs(raw: Bytes, mark: Bytes, a: nat, b: nat)
    requires a <= b <= |raw|
    ensures Replaced(raw, mark, a, b).changed == (Replaced(raw, mark, a, b).bytes != raw)
  {
    hide NewValue;
  }

  lemma Joined(p: Bytes, line: Bytes, q: Bytes, start: nat, end: nat, v: Bytes)
    requires start <= end <= |line|
    ensures var raw := p + line + q;
      && raw[|p| + start..|p| + end] == line[start..end]
      && p + (line[..start] + v) + line[end..] + q == raw[..|p| + start] + v + raw[|p| + end..]
  {
    var raw := p + line + q;
    assert raw[..|p| + start] == p + line[..start];
    assert raw[|p| + end..] == line[end..] + q;
    Assoc(p, line[..start], v);
    Assoc(p + line[..start] + v, line[end..], q);
  }

  /** The text with a new value between a and b. */
  function Replaced(raw: Bytes, mark: Bytes, a: nat, b: nat): Patched
    requires a <= b <= |raw|
  {
    var out := raw[..a] + NewValue(mark, raw[a..b]) + raw[b..];
    Patched(out, out != raw)
  }

  lemma SetRefuses(raw: Bytes, mark: Option<Bytes>)
    ensures SetStatus(raw, mark).None? <==> mark.None? || BodyStart(raw).None?
  {
    hide BodyStart, Cell, NewValue;
  }

  lemma SetReplaces(raw: Bytes, mark: Bytes)
    requires BodyStart(raw).Some?
    ensures SetStatus(raw, Some(mark)) == Some(if Cell(raw).None? then Patched(raw, false) else Replaced(raw, mark, Cell(raw).value.0, Cell(raw).value.1))
  {
    hide BodyStart, Cell, NewValue;
  }

  /** Where the loop is: the lines from i on start at offset, and hold the cell if anything does. */
  ghost predicate Searching(raw: Bytes, start: nat, lines: seq<Bytes>, i: nat, offset: nat, f: Fence) {
    && start <= offset <= |raw| && i <= |lines| && AreLines(lines) && raw[offset..] == Concat(lines[i..])
    && FindLine(raw[start..], OPEN) == Shifted(offset - start, FindIn(lines[i..], f))
  }

  lemma SearchBegins(raw: Bytes, start: nat)
    requires start <= |raw|
    ensures Searching(raw, start, SplitAfter(raw[start..]), 0, start, OPEN)
  {
    var body := raw[start..];
    SplitFinds(body, OPEN);
    SplitConcat(body);
    SplitLines(body);
    assert SplitAfter(body)[0..] == SplitAfter(body);
  }

  lemma SearchLine(raw: Bytes, start: nat, lines: seq<Bytes>, i: nat, offset: nat, f: Fence)
    requires Searching(raw, start, lines, i, offset, f) && i < |lines|
    ensures offset + |lines[i]| <= |raw| && raw[offset..offset + |lines[i]|] == lines[i]
    ensures var (inside, g) := ConsumeLine(f, LineText(lines[i]));
      if !inside && CellStart(lines[i]) > 0 then FindLine(raw[start..], OPEN) == Some(offset - start)
      else Searching(raw, start, lines, i + 1, offset + |lines[i]|, g)
  {
    hide ConsumeLine, LineText, CellStart, FindLine, AreLines;
    assert lines[i..][0] == lines[i] && lines[i..][1..] == lines[i + 1..];
    LineThere(raw, offset, lines[i], Concat(lines[i + 1..]));
  }

  method SetStatusCell(raw: Bytes, lower: Bytes -> Bytes, status: Bytes) returns (r: Option<Patched>)
    ensures r == SetStatus(raw, StatusLabel(lower, status))
  {
    hide StatusLabel, BodyStart, Cell, Replaced, Searching, ConsumeLine, CellStart, CellEnd, LineText, SplitAfter, NewValue, SetStatus, FindLine;
    var mark := StatusLabel(lower, status);
    SetRefuses(raw, mark);
    if mark.None? { return None; }
    var bodyStart := SplitFrontmatterWithOffset(raw);
    if bodyStart.None? { return None; }
    SetReplaces(raw, mark.value);
    var lines := SplitAfter(raw[bodyStart.value..]);
    SearchBegins(raw, bodyStart.value);
    var fence := new FenceState();
    var offset: nat := bodyStart.value;
    for i := 0 to |lines|
      invariant fresh(fence) && Searching(raw, bodyStart.value, lines, i, offset, fence.State())
    {
      var line := lines[i];
      SearchLine(raw, bodyStart.value, lines, i, offset, fence.State());
      ghost var before := fence.State();
      var inside := fence.Consume(LineText(line));
      if inside || CellStart(line) == 0 {
        offset := offset + |line|;
      } else {
        CellIs(raw, bodyStart.value, lines, i, offset, before);
        var p := PatchLine(raw, offset, line, mark.value);
        return Some(p);
      }
    }
    NoCell(raw, bodyStart.value, lines, offset, fence.State());
    r := Some(Patched(raw, false));
  }

  lemma NoCell(raw: Bytes, start: nat, lines: seq<Bytes>, offset: nat, f: Fence)
    requires BodyStart(raw) == Some(start) && Searching(raw, start, lines, |lines|, offset, f)
    ensures Cell(raw).None?
  {
    hide BodyStart, FindLine, AreLines;
  }

  lemma LineThere(raw: Bytes, offset: nat, line: Bytes, rest: Bytes)
    requires offset <= |raw| && raw[offset..] == line + rest
    ensures offset + |line| <= |raw| && raw[offset..offset + |line|] == line && raw[offset + |line|..] == rest
  {
    assert raw[offset..offset + |line|] == raw[offset..][..|line|];
    assert raw[offset + |line|..] == raw[offset..][|line|..];
  }

  lemma CellFrom(raw: Bytes, start: nat, k: nat, line: Bytes)
    requires BodyStart(raw) == Some(start) && FindLine(raw[start..], OPEN) == Some(k)
    requires raw[start..][k..k + LineEnd(raw[start..][k..])] == line
    ensures Cell(raw) == Some((start + k + CellStart(line), start + k + CellEnd(line)))
  {
    hide BodyStart, FindLine, LineEnd, CellStart, CellEnd;
  }

  lemma SuffixAt(raw: Bytes, start: nat, lines: seq<Bytes>, i: nat, offset: nat, f: Fence) returns (rest: Bytes)
    requires Searching(raw, start, lines, i, offset, f) && i < |lines|
    ensures raw[offset..] == lines[i] + rest && LineEnd(lines[i]) == |lines[i]| <= |raw| - offset
    ensures lines[i] != [] ==> lines[i][|lines[i]| - 1] == LF || rest == []
  {
    hide FindLine, LineEnd, FindIn;
    rest := Concat(lines[i + 1..]);
    assert lines[i..][0] == lines[i] && lines[i..][1..] == lines[i + 1..];
    assert i == |lines| - 1 ==> lines[i + 1..] == [];
  }

  /** When the search stops at a line, that line holds the cell. */
  lemma CellIs(raw: Bytes, start: nat, lines: seq<Bytes>, i: nat, offset: nat, f: Fence)
    requires BodyStart(raw) == Some(start) && Searching(raw, start, lines, i, offset, f) && i < |lines|
    requires start <= offset && FindLine(raw[start..], OPEN) == Some(offset - start) && CellStart(lines[i]) > 0
    ensures Cell(raw) == Some((offset + CellStart(lines[i]), offset + CellEnd(lines[i])))
  {
    hide BodyStart, FindLine, CellStart, CellEnd, LineEnd, Searching, Cell;
    var line := lines[i];
    var rest := SuffixAt(raw, start, lines, i, offset, f);
    LineEndOfConcat(line, rest);
    var body, k := raw[start..], offset - start;
    assert body[k..] == raw[offset..];
    PrefixOf(body, k, line, rest);
    CellFrom(raw, start, k, line);
  }

  lemma PrefixOf(body: Bytes, k: nat, line: Bytes, rest: Bytes)
    requires k <= |body| && body[k..] == line + rest
    ensures k + |line| <= |body| && body[k..k + |line|] == line
  {
    assert body[k..k + |line|] == body[k..][..|line|];
  }
}
