/**
 * What the strict JSON parser of internal/roleprotocol/json.go computes, as
 * functions from the unread bytes to a value and the bytes left over. The
 * object that moves through the text is in JsonParser.
 */
module JsonSpec {
  import opened Wrappers
  import opened Bytes

  const MAX_DEPTH := 16

  /**
   * A decoded value. size is the length of its spelling; an object keeps its
   * members in the order of the text.
   */
  datatype Node =
    | Null(size: nat)
    | Bool(b: bool, size: nat)
    | Number(literal: Bytes, size: nat)
    | Str(s: Bytes, size: nat)
    | Array(items: seq<Node>, size: nat)
    | Object(members: seq<Member>, size: nat)

  datatype Member = Member(key: Bytes, value: Node)

  type Parsed<T> = Option<(T, Bytes)>

  // White space and literals

  predicate IsSpace(c: Byte) {
    c == 0x20 || c == 0x09 || c == 0x0A || c == 0x0D
  }

  function Space(s: Bytes): (t: Bytes)
    ensures |t| <= |s|
    ensures t != [] ==> !IsSpace(t[0])
  {
    if s != [] && IsSpace(s[0]) then Space(s[1..]) else s
  }

  const TRUE: Bytes := [0x74, 0x72, 0x75, 0x65]
  const FALSE: Bytes := [0x66, 0x61, 0x6C, 0x73, 0x65]
  const NULL: Bytes := [0x6E, 0x75, 0x6C, 0x6C]

  // Numbers

  /** How many digits lead. */
  function Digits(s: Bytes): (n: nat)
    ensures n <= |s|
    ensures forall i :: 0 <= i < n ==> IsDigit(s[i])
    ensures n < |s| ==> !IsDigit(s[n])
  {
    if s != [] && IsDigit(s[0]) then 1 + Digits(s[1..]) else 0
  }

  /** The length of the integer part at k, with its sign; 0 when there is none. */
  function IntEnd(s: Bytes): (k: nat)
    requires s != []
    ensures k <= |s|
  {
    var a := if s[0] == 0x2D then 1 else 0;
    if a < |s| && s[a] == 0x30 then a + 1
    else if Digits(s[a..]) == 0 then 0
    else a + Digits(s[a..])
  }

  /** The end of the fraction that may begin at k; 0 when one begins but is malformed. */
  function FracEnd(s: Bytes, k: nat): (e: nat)
    requires 0 < k <= |s|
    ensures e <= |s| && (e == 0 || k <= e)
  {
    if k < |s| && s[k] == 0x2E then
      if Digits(s[k + 1..]) == 0 then 0 else k + 1 + Digits(s[k + 1..])
    else k
  }

  function ExpEnd(s: Bytes, k: nat): (e: nat)
    requires 0 < k <= |s|
    ensures e <= |s| && (e == 0 || k <= e)
  {
    if k < |s| && (s[k] == 0x65 || s[k] == 0x45) then
      var a := if k + 1 < |s| && (s[k + 1] == 0x2B || s[k + 1] == 0x2D) then k + 2 else k + 1;
      if Digits(s[a..]) == 0 then 0 else a + Digits(s[a..])
    else k
  }

  /** The length of the number at the front; 0 when it is malformed. */
  function NumberEnd(s: Bytes): (e: nat)
    requires s != []
    ensures e <= |s|
  {
    var i := IntEnd(s);
    if i == 0 then 0
    else
      var f := FracEnd(s, i);
      if f == 0 then 0 else ExpEnd(s, f)
  }

  // Strings

  predicate IsHex(c: Byte) {
    IsDigit(c) || 0x61 <= c <= 0x66 || 0x41 <= c <= 0x46
  }

  function HexValue(c: Byte): (v: nat)
    requires IsHex(c)
    ensures v < 16
  {
    if IsDigit(c) then c - 0x30 else if c >= 0x61 then c - 0x61 + 10 else c - 0x41 + 10
  }

  function Hex4(s: Bytes): (r: Option<nat>)
    ensures r.Some? ==> |s| >= 4 && r.value < 0x10000
  {
    if |s| < 4 || !IsHex(s[0]) || !IsHex(s[1]) || !IsHex(s[2]) || !IsHex(s[3]) then None
    else Some(((HexValue(s[0]) * 16 + HexValue(s[1])) * 16 + HexValue(s[2])) * 16 + HexValue(s[3]))
  }

  predicate IsSurrogate(r: nat) { 0xD800 <= r < 0xE000 }

  /** utf16.DecodeRune of a high and a low surrogate. */
  function Paired(high: nat, low: nat): (r: nat)
    requires 0xD800 <= high < 0xDC00 && 0xDC00 <= low < 0xE000
    ensures 0x10000 <= r < 0x110000
  {
    0x10000 + (high - 0xD800) * 0x400 + (low - 0xDC00)
  }

  predicate SimpleEscape(e: Byte) {
    e in {0x22, 0x5C, 0x2F, 0x62, 0x66, 0x6E, 0x72, 0x74}
  }

  function Unescape(e: Byte): Byte
    requires SimpleEscape(e)
  {
    if e == 0x62 then 0x08 else if e == 0x66 then 0x0C else if e == 0x6E then 0x0A
    else if e == 0x72 then 0x0D else if e == 0x74 then 0x09 else e
  }

  /** One character of a string body: the bytes it stands for and how many bytes spell it. */
  function Char(s: Bytes): (r: Option<(Bytes, nat)>)
    ensures r.Some? ==> 0 < r.value.1 <= |s|
  {
    if s == [] || s[0] == 0x22 || s[0] < 0x20 then None
    else if s[0] != 0x5C then Some(([s[0]], 1))
    else if |s| < 2 then None
    else if SimpleEscape(s[1]) then Some(([Unescape(s[1])], 2))
    else if s[1] != 0x75 then None
    else
      match Hex4(s[2..])
      case None => None
      case Some(r) =>
        if !IsSurrogate(r) then Some((Utf8Encode(r), 6))
        else if r >= 0xDC00 || |s| < 8 || s[6] != 0x5C || s[7] != 0x75 then None
        else
          match Hex4(s[8..])
          case None => None
          case Some(low) =>
            if 0xDC00 <= low < 0xE000 then Some((Utf8Encode(Paired(r, low)), 12)) else None
  }

  /** The body of a string up to and with its closing quote. */
  function StrBody(s: Bytes): (r: Parsed<Bytes>)
    ensures r.Some? ==> |r.value.1| < |s|
    decreases |s|
  {
    if s != [] && s[0] == 0x22 then Some(([], s[1..]))
    else
      match Char(s)
      case None => None
      case Some((out, n)) =>
        match StrBody(s[n..])
        case None => None
        case Some((more, rest)) => Some((out + more, rest))
  }

  // Values

  function Sized(n: Node, size: nat): Node {
    n.(size := size)
  }

  function Value(s: Bytes, depth: nat): (r: Parsed<Node>)
    ensures r.Some? ==> |r.value.1| < |s|
    decreases |s|, 0
  {
    if depth > MAX_DEPTH then None
    else
      var t := Space(s);
      match Core(t, depth)
      case None => None
      case Some((n, rest)) => Some((Sized(n, |t| - |rest|), rest))
  }

  function Literal(t: Bytes, word: Bytes, n: Node): Parsed<Node> {
    if word <= t then Some((n, t[|word|..])) else None
  }

  /** scalarOrComposite: dispatch on the first byte. */
  function Core(t: Bytes, depth: nat): (r: Parsed<Node>)
    ensures r.Some? ==> |r.value.1| < |t|
    decreases |t|, 0, 0
  {
    if t == [] then None
    else if t[0] == 0x7B then
      var u := Space(t[1..]);
      if u != [] && u[0] == 0x7D then Some((Object([], 0), u[1..]))
      else
        match Members(u, depth, {})
        case None => None
        case Some((ms, rest)) => Some((Object(ms, 0), rest))
    else if t[0] == 0x5B then
      var u := Space(t[1..]);
      if u != [] && u[0] == 0x5D then Some((Array([], 0), u[1..]))
      else
        match Items(u, depth)
        case None => None
        case Some((ns, rest)) => Some((Array(ns, 0), rest))
    else if t[0] == 0x22 then
      match StrBody(t[1..])
      case None => None
      case Some((str, rest)) => Some((Str(str, 0), rest))
    else if t[0] == 0x74 then Literal(t, TRUE, Bool(true, 0))
    else if t[0] == 0x66 then Literal(t, FALSE, Bool(false, 0))
    else if t[0] == 0x6E then Literal(t, NULL, Null(0))
    else if t[0] == 0x2D || IsDigit(t[0]) then
      var k := NumberEnd(t);
      if k == 0 then None else Some((Number(t[..k], 0), t[k..]))
    else None
  }

  lemma CoreOfNumber(t: Bytes, depth: nat)
    requires t != [] && (t[0] == 0x2D || IsDigit(t[0]))
    ensures var k := NumberEnd(t); Core(t, depth) == if k == 0 then None else Some((Number(t[..k], 0), t[k..]))
  {
    hide NumberEnd, StrBody, Items, Members, Space;
  }

  /** The items of an array that has some, up to and with the closing bracket. */
  function Items(s: Bytes, depth: nat): (r: Parsed<seq<Node>>)
    ensures r.Some? ==> |r.value.1| < |s|
    decreases |s|, 1
  {
    match Value(s, depth + 1)
    case None => None
    case Some((n, rest)) =>
      var t := Space(rest);
      if t == [] then None
      else if t[0] == 0x2C then
        match Items(t[1..], depth)
        case None => None
        case Some((ns, last)) => Some(([n] + ns, last))
      else if t[0] == 0x5D then Some(([n], t[1..]))
      else None
  }

  /** The members of an object that has some; seen holds the keys before them. */
  function Members(s: Bytes, depth: nat, seen: set<Bytes>): (r: Parsed<seq<Member>>)
    ensures r.Some? ==> |r.value.1| < |s|
    decreases |s|, 1
  {
    var u := Space(s);
    if u == [] || u[0] != 0x22 then None
    else
      match StrBody(u[1..])
      case None => None
      case Some((key, afterKey)) =>
        if key in seen then None
        else
          var v := Space(afterKey);
          if v == [] || v[0] != 0x3A then None
          else
            match Value(v[1..], depth + 1)
            case None => None
            case Some((n, rest)) =>
              var t := Space(rest);
              if t == [] then None
              else if t[0] == 0x2C then
                match Members(t[1..], depth, seen + {key})
                case None => None
                case Some((ms, last)) => Some(([Member(key, n)] + ms, last))
              else if t[0] == 0x7D then Some(([Member(key, n)], t[1..]))
              else None
  }

  /** parseJSON. */
  function ParseJson(raw: Bytes, limit: nat): Option<Node> {
    if raw == [] || |raw| > limit || !Utf8Valid(raw) then None
    else
      match Value(raw, 0)
      case None => None
      case Some((n, rest)) => if Space(rest) == [] then Some(n) else None
  }
}
