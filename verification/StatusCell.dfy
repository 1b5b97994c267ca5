/**
 * The status patch of internal/card/codec.go: finding the first Status cell
 * outside fenced code, and replacing its value.
 */
module StatusCell {
  import opened Wrappers
  import opened Bytes

  const LF: Byte := 0x0A
  const CR: Byte := 0x0D
  const BAR: Byte := 0x7C

  // White space, as strings.TrimSpace trims it from UTF-8

  predicate AsciiSpace(c: Byte) {
    c == 0x20 || 0x09 <= c <= 0x0D
  }

  /** The multi-byte encodings of white space. */
  predicate WideSpace(w: Bytes) {
    || w == [0xC2, 0x85] || w == [0xC2, 0xA0] || w == [0xE1, 0x9A, 0x80] || w == [0xE2, 0x81, 0x9F] || w == [0xE3, 0x80, 0x80]
    || (|w| == 3 && w[0] == 0xE2 && w[1] == 0x80 && (0x80 <= w[2] <= 0x8A || w[2] in {0xA8, 0xA9, 0xAF}))
  }

  /** How many bytes of white space s begins with: one character's. */
  function SpaceAtFront(s: Bytes): (n: nat)
    ensures n <= |s|
  {
    if s != [] && AsciiSpace(s[0]) then 1
    else if |s| >= 2 && WideSpace(s[..2]) then 2
    else if |s| >= 3 && WideSpace(s[..3]) then 3
    else 0
  }

  function SpaceAtEnd(s: Bytes): (n: nat)
    ensures n <= |s|
  {
    if s != [] && AsciiSpace(s[|s| - 1]) then 1
    else if |s| >= 2 && WideSpace(s[|s| - 2..]) then 2
    else if |s| >= 3 && WideSpace(s[|s| - 3..]) then 3
    else 0
  }

  function TrimFront(s: Bytes): Bytes
    decreases |s|
  {
    if SpaceAtFront(s) == 0 then s else TrimFront(s[SpaceAtFront(s)..])
  }

  function TrimEnd(s: Bytes): Bytes
    decreases |s|
  {
    if SpaceAtEnd(s) == 0 then s else TrimEnd(s[..|s| - SpaceAtEnd(s)])
  }

  function TrimSpace(s: Bytes): Bytes {
    TrimEnd(TrimFront(s))
  }

  // Status names

  const NAME_PENDING := Ascii("pending")
  const NAME_TODO := Ascii("todo")
  const NAME_IN_PROGRESS := Ascii("in-progress")
  const NAME_IN_PROGRESS_2 := Ascii("in_progress")
  const NAME_DOING := Ascii("doing")
  const NAME_REVIEW := Ascii("review")
  const NAME_DONE := Ascii("done")
  const NAME_BLOCKED := Ascii("blocked")
  const NAME_CANCELLED := Ascii("cancelled")
  const NAME_CANCELED := Ascii("canceled")

  const MARK_PENDING := Ascii("[ ] Pending")
  const MARK_IN_PROGRESS := Ascii("[~] In Progress")
  const MARK_REVIEW := Ascii("[>] Review")
  const MARK_DONE := Ascii("[x] Done")
  const MARK_BLOCKED := Ascii("[!] Blocked")
  const MARK_CANCELLED := Ascii("[-] Cancelled")

  /** statusLabel; lower is the lower-casing of strings. */
  function StatusLabel(lower: Bytes -> Bytes, status: Bytes): Option<Bytes> {
    var name := lower(TrimSpace(status));
    if name == NAME_PENDING || name == NAME_TODO then Some(MARK_PENDING)
    else if name == NAME_IN_PROGRESS || name == NAME_IN_PROGRESS_2 || name == NAME_DOING then Some(MARK_IN_PROGRESS)
    else if name == NAME_REVIEW then Some(MARK_REVIEW)
    else if name == NAME_DONE then Some(MARK_DONE)
    else if name == NAME_BLOCKED then Some(MARK_BLOCKED)
    else if name == NAME_CANCELLED || name == NAME_CANCELED then Some(MARK_CANCELLED)
    else None
  }

  // Fenced code

  datatype Fence = Fence(marker: Byte, length: nat)

  const OPEN := Fence(0, 0)

  /** How many times c leads. */
  function Leading(s: Bytes, c: Byte): (n: nat)
    ensures n <= |s|
  {
    if s != [] && s[0] == c then 1 + Leading(s[1..], c) else 0
  }

  /** fenceState.consume: whether the line belongs to fenced code, and the state after it. */
  function ConsumeLine(f: Fence, line: Bytes): (bool, Fence) {
    var t := TrimSpace(line);
    if [0x5C, 0x60] <= t || [0x5C, 0x7E] <= t then (f.length > 0, f)
    else if f.length > 0 then
      var n := Leading(t, f.marker);
      (true, if n >= f.length && TrimSpace(t[n..]) == [] then OPEN else f)
    else if t == [] || (t[0] != 0x60 && t[0] != 0x7E) then (false, f)
    else
      var n := Leading(t, t[0]);
      if n < 3 || (t[0] == 0x60 && 0x60 in t[n..]) then (false, f) else (true, Fence(t[0], n))
  }

  class FenceState {
    var marker: Byte
    var length: nat

    constructor ()
      ensures State() == OPEN
    {
      marker, length := 0, 0;
    }

    function State(): Fence
      reads this
    {
      Fence(marker, length)
    }

    method Consume(line: Bytes) returns (inside: bool)
      modifies this
      ensures (inside, State()) == ConsumeLine(old(State()), line)
    {
      var trimmed := TrimSpace(line);
      if [0x5C, 0x60] <= trimmed || [0x5C, 0x7E] <= trimmed {
        return length > 0;
      }
      if length > 0 {
        var n := CountLeading(trimmed, marker);
        var rest := TrimSpace(trimmed[n..]);
        if n >= length && rest == [] {
          length, marker := 0, 0;
        }
        return true;
      }
      if |trimmed| == 0 || (trimmed[0] != 0x60 && trimmed[0] != 0x7E) {
        return false;
      }
      var first := trimmed[0];
      var n := CountLeading(trimmed, first);
      if n >= 3 {
        if first == 0x60 && 0x60 in trimmed[n..] {
          return false;
        }
        marker, length := first, n;
        return true;
      }
      return false;
    }
  }

  /** The counting loop of consume. */
  method CountLeading(s: Bytes, c: Byte) returns (n: nat)
    ensures n == Leading(s, c)
  {
    n := 0;
    while n < |s| && s[n] == c
      invariant n <= |s| && n + Leading(s[n..], c) == Leading(s, c)
    {
      assert s[n..][1..] == s[n + 1..];
      n := n + 1;
    }
  }

  // Lines

  /** The length of the first line with its line feed, if it has one. */
  function LineEnd(s: Bytes): (n: nat)
    ensures n <= |s| && (s != [] ==> n > 0)
    ensures forall i :: 0 <= i < n - 1 ==> s[i] != LF
    ensures n < |s| ==> s[n - 1] == LF
  {
    if s == [] then 0 else if s[0] == LF then 1 else 1 + LineEnd(s[1..])
  }

  /** bytes.SplitAfter with a line feed: a text that ends in one has an empty last line. */
  function SplitAfter(s: Bytes): (lines: seq<Bytes>)
    decreases |s|
  {
    if s == [] || s[LineEnd(s) - 1] != LF then [s]
    else [s[..LineEnd(s)]] + SplitAfter(s[LineEnd(s)..])
  }

  function DropLast(s: Bytes, c: Byte): Bytes {
    if s != [] && s[|s| - 1] == c then s[..|s| - 1] else s
  }

  /** A line without its line feed, and without a carriage return before it. */
  function LineText(line: Bytes): Bytes {
    DropLast(DropLast(line, LF), CR)
  }

  // The cell

  /** "**Status**" */
  const STATUS: Bytes := [0x2A, 0x2A, 0x53, 0x74, 0x61, 0x74, 0x75, 0x73, 0x2A, 0x2A]

  predicate IsBlank(c: Byte) { c == 0x20 || c == 0x09 }

  function SkipBlanks(s: Bytes): (t: Bytes)
    ensures |t| <= |s| && (t != [] ==> !IsBlank(t[0]))
  {
    if s != [] && IsBlank(s[0]) then SkipBlanks(s[1..]) else s
  }

  predicate InValue(c: Byte) { c != BAR && c != CR && c != LF }

  function ValueLength(s: Bytes): (n: nat)
    ensures n <= |s| && (n < |s| ==> !InValue(s[n])) && forall i :: 0 <= i < n ==> InValue(s[i])
  {
    if s != [] && InValue(s[0]) then 1 + ValueLength(s[1..]) else 0
  }

  /** What follows blanks and a bar. */
  function AfterBar(s: Bytes): (r: Option<Bytes>)
    ensures r.Some? ==> |r.value| < |s|
  {
    var t := SkipBlanks(s);
    if t != [] && t[0] == BAR then Some(t[1..]) else None
  }

  /** What follows the first group of the pattern. */
  function AfterFront(line: Bytes): (r: Option<Bytes>)
    ensures r.Some? ==> |r.value| < |line|
  {
    match AfterBar(line)
    case None => None
    case Some(t) =>
      var u := SkipBlanks(t);
      if !(STATUS <= u) then None
      else
        match AfterBar(u[|STATUS|..])
        case None => None
        case Some(v) => Some(SkipBlanks(v))
  }

  /** Where the first group of the pattern ends; 0 if the line does not match. */
  function CellStart(line: Bytes): (n: nat)
    ensures n <= |line|
  {
    match AfterFront(line)
    case None => 0
    case Some(w) => |line| - |w|
  }

  function CellEnd(line: Bytes): (n: nat)
    ensures CellStart(line) <= n <= |line|
  {
    CellStart(line) + ValueLength(line[CellStart(line)..])
  }

  /** The dash between a status and its reason, in UTF-8. */
  const DASH: Bytes := [0x20, 0xE2, 0x80, 0x94, 0x20]

  /** strings.Index of the dash. */
  function DashAt(s: Bytes): (r: Option<nat>)
    ensures r.Some? ==> r.value + 5 <= |s| && s[r.value..r.value + 5] == DASH
  {
    if |s| < 5 then None
    else if s[..5] == DASH then Some(0)
    else
      var r := DashAt(s[1..]);
      if r.None? then None
      else
        assert s[1..][r.value..r.value + 5] == s[r.value + 1..r.value + 6];
        Some(r.value + 1)
  }

  function TrimBlanks(s: Bytes): (t: Bytes)
    ensures t <= s && (t != [] ==> !IsBlank(t[|t| - 1]))
  {
    if s != [] && IsBlank(s[|s| - 1]) then TrimBlanks(s[..|s| - 1]) else s
  }

  /** The reason behind the dash, with the dash. */
  function Tail(value: Bytes): Bytes {
    match DashAt(value)
    case None => []
    case Some(i) => TrimBlanks(value[i..])
  }

  function NewValue(mark: Bytes, value: Bytes): Bytes {
    mark + Tail(value) + [0x20]
  }

  // The whole text

  /** "---" */
  const DASHES: Bytes := [0x2D, 0x2D, 0x2D]

  /** Past the closing line of the frontmatter, from after the opening line. */
  function Closing(s: Bytes): (r: Option<nat>)
    ensures r.Some? ==> r.value <= |s|
    decreases |s|
  {
    var e := LineEnd(s);
    if LineText(s[..e]) == DASHES then Some(e)
    else if s == [] || s[e - 1] != LF then None
    else
      match Closing(s[e..])
      case None => None
      case Some(n) => Some(e + n)
  }

  predicate HasOpening(raw: Bytes) {
    DASHES + [LF] <= raw || DASHES + [CR, LF] <= raw
  }

  /** splitFrontmatterWithOffset: where the body starts. */
  function BodyStart(raw: Bytes): (r: Option<nat>)
    ensures r.Some? ==> r.value <= |raw|
  {
    if !HasOpening(raw) then None
    else
      var o := LineEnd(raw);
      match Closing(raw[o..])
      case None => None
      case Some(n) => Some(o + n)
  }

  /** Where the line with the first cell outside fenced code starts. */
  function FindLine(body: Bytes, f: Fence): (r: Option<nat>)
    ensures r.Some? ==> r.value < |body|
    decreases |body|
  {
    if body == [] then None
    else
      var line := body[..LineEnd(body)];
      var (inside, g) := ConsumeLine(f, LineText(line));
      if !inside && CellStart(line) > 0 then Some(0)
      else
        match FindLine(body[LineEnd(body)..], g)
        case None => None
        case Some(k) => Some(LineEnd(body) + k)
  }

  datatype Patched = Patched(bytes: Bytes, changed: bool)

  /** Where the value of that cell starts and ends in a text. */
  function Cell(raw: Bytes): (r: Option<(nat, nat)>)
    ensures r.Some? ==> r.value.0 <= r.value.1 <= |raw|
  {
    if BodyStart(raw).None? then None
    else
      var body := raw[BodyStart(raw).value..];
      match FindLine(body, OPEN)
      case None => None
      case Some(k) =>
        var line := body[k..k + LineEnd(body[k..])];
        var at := BodyStart(raw).value + k;
        Some((at + CellStart(line), at + CellEnd(line)))
  }

  /** SetStatusCell: none for an unknown status or a text without frontmatter. */
  function SetStatus(raw: Bytes, mark: Option<Bytes>): Option<Patched> {
    if mark.None? || BodyStart(raw).None? then None
    else
      match Cell(raw)
      case None => Some(Patched(raw, false))
      case Some((a, b)) =>
        var out := raw[..a] + NewValue(mark.value, raw[a..b]) + raw[b..];
        Some(Patched(out, out != raw))
  }
}
