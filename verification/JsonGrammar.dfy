/**
 * The JSON grammar of RFC 8259 (sections 2 to 7) as concrete syntax trees:
 * every tree spells a text and denotes a value. The parser accepts exactly the
 * spelled texts and answers exactly the denoted values.
 */
module JsonGrammar {
  import opened Wrappers
  import opened Bytes
  import opened JsonSpec

  // Numbers (section 6)

  datatype Exponent = Exponent(upper: bool, sign: Option<bool>, digits: Bytes)

  datatype Num = Num(minus: bool, integer: Bytes, fraction: Option<Bytes>, exponent: Option<Exponent>)

  predicate AllDigits(s: Bytes) {
    s != [] && forall i :: 0 <= i < |s| ==> IsDigit(s[i])
  }

  predicate NumOk(n: Num) {
    && AllDigits(n.integer) && (n.integer[0] == 0x30 ==> |n.integer| == 1)
    && (n.fraction.Some? ==> AllDigits(n.fraction.value))
    && (n.exponent.Some? ==> AllDigits(n.exponent.value.digits))
  }

  function SpellFraction(f: Option<Bytes>): Bytes {
    if f.Some? then [0x2E] + f.value else []
  }

  function SpellExponent(e: Option<Exponent>): Bytes {
    if e.None? then []
    else
      [if e.value.upper then 0x45 else 0x65] +
      (match e.value.sign case None => [] case Some(plus) => [if plus then 0x2B else 0x2D]) + e.value.digits
  }

  function SpellInteger(minus: bool, integer: Bytes): Bytes {
    (if minus then [0x2D] else []) + integer
  }

  function SpellNum(n: Num): Bytes {
    SpellInteger(n.minus, n.integer) + SpellFraction(n.fraction) + SpellExponent(n.exponent)
  }

  // Strings (section 7): the grammar's own tables, apart from the parser's

  /** Unit holds the code unit that its four digits spell, Surrogates the code point that its two units make. */
  datatype Ch =
    | Plain(c: Byte)
    | Simple(e: Byte)
    | Unit(h: Bytes, u: nat)
    | Surrogates(high: Bytes, low: Bytes, r: nat)

  /** What may follow a backslash, and the character it stands for. */
  const ESCAPES: map<char, char> := map[
    '"' := '"', '\\' := '\\', '/' := '/', 'b' := '\U{08}', 'f' := '\U{0C}', 'n' := '\n', 'r' := '\r', 't' := '\t']

  /** A hexadecimal digit of either case and its value. */
  predicate HexDigit(c: Byte, v: nat) {
    v < 16 && (c as char == "0123456789abcdef"[v] || c as char == "0123456789ABCDEF"[v])
  }

  /** Four hexadecimal digits that spell the code unit u. */
  predicate SpellsUnit(h: Bytes, u: nat) {
    && |h| == 4 && u < 0x10000
    && HexDigit(h[0], u / 0x1000) && HexDigit(h[1], u / 0x100 % 16) && HexDigit(h[2], u / 16 % 16) && HexDigit(h[3], u % 16)
  }

  /** A code unit of UTF-16 that stands for no character by itself. */
  predicate HalfOnly(u: nat) {
    0xD800 <= u <= 0xDFFF
  }

  /** The two code units of a code point beyond the first plane, by RFC 2781 section 2.1. */
  predicate UnitsOf(r: nat, high: nat, low: nat) {
    0x10000 <= r <= 0x10FFFF && high == 0xD800 + (r - 0x10000) / 0x400 && low == 0xDC00 + (r - 0x10000) % 0x400
  }

  predicate ChOk(c: Ch) {
    match c
    case Plain(b) => b >= 0x20 && b as char != '"' && b as char != '\\'
    case Simple(e) => e as char in ESCAPES
    case Unit(h, u) => SpellsUnit(h, u) && !HalfOnly(u)
    case Surrogates(high, low, r) =>
      exists a, b :: 0xD800 <= a < 0xDC00 && 0xDC00 <= b < 0xE000 && SpellsUnit(high, a) && SpellsUnit(low, b) && UnitsOf(r, a, b)
  }

  function SpellCh(c: Ch): Bytes {
    match c
    case Plain(b) => [b]
    case Simple(e) => ['\\' as int, e]
    case Unit(h, _) => ['\\' as int, 'u' as int] + h
    case Surrogates(high, low, _) => ['\\' as int, 'u' as int] + high + ['\\' as int, 'u' as int] + low
  }

  /** The bytes that a well-formed character denotes. */
  function ChBytes(c: Ch): Bytes {
    match c
    case Plain(b) => [b]
    case Simple(e) => if ChOk(c) then [ESCAPES[e as char] as int] else []
    case Unit(_, u) => if ChOk(c) then Utf8Encode(u) else []
    case Surrogates(_, _, r) => if ChOk(c) then Utf8Encode(r) else []
  }

  predicate StrOk(cs: seq<Ch>) {
    forall c :: c in cs ==> ChOk(c)
  }

  function SpellChars(cs: seq<Ch>): Bytes {
    if cs == [] then [] else SpellCh(cs[0]) + SpellChars(cs[1..])
  }

  function SpellStr(cs: seq<Ch>): Bytes {
    [0x22] + SpellChars(cs) + [0x22]
  }

  /** The bytes a string denotes after unescaping. */
  function StrBytes(cs: seq<Ch>): Bytes {
    if cs == [] then [] else ChBytes(cs[0]) + StrBytes(cs[1..])
  }

  // Values (sections 3 to 5); ws is white space as in section 2

  datatype Cst =
    | LitTrue | LitFalse | LitNull
    | Numeral(n: Num)
    | Quoted(cs: seq<Ch>)
    | EmptyArray(ws: Bytes)
    | FullArray(items: Items)
    | EmptyObject(ws: Bytes)
    | FullObject(members: Members)

  datatype Padded = Padded(before: Bytes, value: Cst, after: Bytes)

  datatype Items = LastItem(item: Padded) | MoreItems(item: Padded, rest: Items)

  datatype Pair = Pair(before: Bytes, key: seq<Ch>, after: Bytes, value: Padded)

  datatype Members = LastMember(pair: Pair) | MoreMembers(pair: Pair, rest: Members)

  predicate IsWs(w: Bytes) {
    forall i :: 0 <= i < |w| ==> IsSpace(w[i])
  }

  /** Well-formed at this depth: lexical rules, distinct unescaped keys, and nesting within the limit. */
  predicate CstOk(c: Cst, depth: nat)
    decreases c, 0
  {
    && depth <= MAX_DEPTH
    && match c
       case Numeral(n) => NumOk(n)
       case Quoted(cs) => StrOk(cs)
       case EmptyArray(ws) => IsWs(ws)
       case FullArray(items) => ItemsOk(items, depth + 1)
       case EmptyObject(ws) => IsWs(ws)
       case FullObject(members) => MembersOk(members, depth + 1) && KeysFresh(members, {})
       case _ => true
  }

  predicate PaddedOk(p: Padded, depth: nat)
    decreases p, 0
  {
    IsWs(p.before) && CstOk(p.value, depth) && IsWs(p.after)
  }

  predicate ItemsOk(items: Items, depth: nat)
    decreases items, 0
  {
    PaddedOk(items.item, depth) && (items.MoreItems? ==> ItemsOk(items.rest, depth))
  }

  predicate PairOk(p: Pair, depth: nat)
    decreases p, 0
  {
    IsWs(p.before) && StrOk(p.key) && IsWs(p.after) && PaddedOk(p.value, depth)
  }

  predicate MembersOk(members: Members, depth: nat)
    decreases members, 0
  {
    PairOk(members.pair, depth) && (members.MoreMembers? ==> MembersOk(members.rest, depth))
  }

  /** No key repeats an earlier one. */
  predicate KeysFresh(members: Members, seen: set<Bytes>) {
    && StrBytes(members.pair.key) !in seen
    && (members.MoreMembers? ==> KeysFresh(members.rest, seen + {StrBytes(members.pair.key)}))
  }

  function Spell(c: Cst): Bytes
    decreases c, 0
  {
    match c
    case LitTrue => TRUE
    case LitFalse => FALSE
    case LitNull => NULL
    case Numeral(n) => SpellNum(n)
    case Quoted(cs) => SpellStr(cs)
    case EmptyArray(ws) => [0x5B] + ws + [0x5D]
    case FullArray(items) => [0x5B] + SpellItems(items)
    case EmptyObject(ws) => [0x7B] + ws + [0x7D]
    case FullObject(members) => [0x7B] + SpellMembers(members)
  }

  function SpellPadded(p: Padded): Bytes
    decreases p, 0
  {
    p.before + Spell(p.value) + p.after
  }

  /** With the closing bracket. */
  function SpellItems(items: Items): Bytes
    decreases items, 0
  {
    SpellPadded(items.item) + if items.LastItem? then [0x5D] else [0x2C] + SpellItems(items.rest)
  }

  function SpellPair(p: Pair): Bytes
    decreases p, 0
  {
    p.before + SpellStr(p.key) + p.after + [0x3A] + SpellPadded(p.value)
  }

  /** With the closing brace. */
  function SpellMembers(members: Members): Bytes
    decreases members, 0
  {
    SpellPair(members.pair) + if members.LastMember? then [0x7D] else [0x2C] + SpellMembers(members.rest)
  }

  /** The value a tree denotes; its size is the length of the spelling. */
  function Denote(c: Cst): Node
    decreases c, 0
  {
    var n := |Spell(c)|;
    match c
    case LitTrue => Bool(true, n)
    case LitFalse => Bool(false, n)
    case LitNull => Null(n)
    case Numeral(num) => Number(SpellNum(num), n)
    case Quoted(cs) => Str(StrBytes(cs), n)
    case EmptyArray(ws) => Array([], n)
    case FullArray(items) => Array(DenoteItems(items), n)
    case EmptyObject(ws) => Object([], n)
    case FullObject(members) => Object(DenoteMembers(members), n)
  }

  function DenoteItems(items: Items): seq<Node>
    decreases items, 0
  {
    [Denote(items.item.value)] + if items.LastItem? then [] else DenoteItems(items.rest)
  }

  function DenoteMembers(members: Members): seq<Member>
    decreases members, 0
  {
    [Member(StrBytes(members.pair.key), Denote(members.pair.value.value))] +
    if members.LastMember? then [] else DenoteMembers(members.rest)
  }
}
