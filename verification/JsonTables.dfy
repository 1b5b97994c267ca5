/**
 * The tables of the parser and of the grammar, by what they are: UTF-8 as the
 * code points it encodes, white space, digits and words as the characters of
 * RFC 8259, and nesting as the number of enclosing brackets.
 */
module JsonTables {
  import opened Wrappers
  import opened Bytes
  import opened JsonSpec
  import opened JsonGrammar

  // UTF-8 (RFC 3629)

  /** The code point that a well-formed sequence stands for: the payload bits in order. */
  function Utf8Decode(s: Bytes): Option<nat> {
    match RuneLength(s)
    case 1 => Some(s[0])
    case 2 => Some(Low(s[0], 32) * 64 + Low(s[1], 64))
    case 3 => Some((Low(s[0], 16) * 64 + Low(s[1], 64)) * 64 + Low(s[2], 64))
    case 4 => Some(((Low(s[0], 8) * 64 + Low(s[1], 64)) * 64 + Low(s[2], 64)) * 64 + Low(s[3], 64))
    case _ => None
  }

  /** The low bits of a byte. */
  function Low(c: Byte, width: int): nat
    requires width > 0
  {
    c as int % width
  }

  /** What is written for a code point is one well-formed sequence, and stands for that code point. */
  lemma RuneReadsBack(r: nat)
    requires r < 0x110000 && !HalfOnly(r)
    ensures var s := Utf8Encode(r); RuneLength(s) == |s| && Utf8Decode(s) == Some(r)
  {
    if r < 0x80 {
    } else if r < 0x800 {
      TwoBytes(r);
    } else if r < 0x10000 {
      ThreeBytes(r);
    } else {
      FourBytes(r);
    }
  }

  lemma TwoBytes(r: nat)
    requires 0x80 <= r < 0x800
    ensures var s := Utf8Encode(r); RuneLength(s) == |s| == 2 && Utf8Decode(s) == Some(r)
  {
    assert 2 <= r / 64 < 32;
  }

  lemma ThreeOf(a: nat, b: nat, c: nat)
    requires a < 16 && b < 64 && c < 64 && (a == 0 ==> b >= 32) && (a == 13 ==> b < 32)
    ensures var s := [0xE0 + a, 0x80 + b, 0x80 + c]; RuneLength(s) == 3 && Utf8Decode(s) == Some((a * 64 + b) * 64 + c)
  {
  }

  lemma ThreeBytes(r: nat)
    requires 0x800 <= r < 0x10000 && !HalfOnly(r)
    ensures var s := Utf8Encode(r); RuneLength(s) == |s| == 3 && Utf8Decode(s) == Some(r)
  {
    Sixties(r);
    hide RuneLength, Utf8Decode;
    ThreeOf(r / 0x1000, r / 64 % 64, r % 64);
  }

  lemma FourOf(a: nat, b: nat, c: nat, d: nat)
    requires a <= 4 && b < 64 && c < 64 && d < 64 && (a == 0 ==> b >= 16) && (a == 4 ==> b < 16)
    ensures var s := [0xF0 + a, 0x80 + b, 0x80 + c, 0x80 + d];
      RuneLength(s) == 4 && Utf8Decode(s) == Some(((a * 64 + b) * 64 + c) * 64 + d)
  {
  }

  lemma FourBytes(r: nat)
    requires 0x10000 <= r < 0x110000
    ensures var s := Utf8Encode(r); RuneLength(s) == |s| == 4 && Utf8Decode(s) == Some(r)
  {
    Sixties(r);
    Sixties(r / 64);
    hide RuneLength, Utf8Decode;
    FourOf(r / 0x40000, r / 0x1000 % 64, r / 64 % 64, r % 64);
  }

  lemma Sixties(r: nat)
    ensures r / 0x1000 == r / 64 / 64 && r == (r / 64 / 64 * 64 + r / 64 % 64) * 64 + r % 64
    ensures r / 0x40000 == r / 0x1000 / 64
  {
  }

  // White space, digits and words

  lemma SpacesAndDigits(c: Byte)
    ensures IsSpace(c) <==> c as char in " \t\n\r"
    ensures IsDigit(c) <==> c as char in "0123456789"
  {
  }

  lemma Words()
    ensures Spell(LitTrue) == Ascii("true") && Spell(LitFalse) == Ascii("false") && Spell(LitNull) == Ascii("null")
  {
  }

  // Nesting

  /** How many brackets enclose the deepest value. */
  function Depth(c: Cst): nat
    decreases c
  {
    match c
    case FullArray(items) => 1 + ItemsDepth(items)
    case FullObject(members) => 1 + MembersDepth(members)
    case _ => 0
  }

  function Max(a: nat, b: nat): nat { if a < b then b else a }

  function ItemsDepth(items: Items): nat
    decreases items
  {
    if items.LastItem? then Depth(items.item.value) else Max(Depth(items.item.value), ItemsDepth(items.rest))
  }

  function MembersDepth(members: Members): nat
    decreases members
  {
    if members.LastMember? then Depth(members.pair.value.value)
    else Max(Depth(members.pair.value.value), MembersDepth(members.rest))
  }

  /** The limit on nesting asks for one thing only: that no value has more than 16 brackets around it. */
  lemma {:induction false} DepthIsLimited(c: Cst, d: nat, e: nat)
    requires CstOk(c, d)
    ensures CstOk(c, e) <==> e + Depth(c) <= 16
    decreases c
  {
    match c
    case FullArray(items) =>
      ItemsLimited(items, d + 1, e + 1);
    case FullObject(members) =>
      MembersLimited(members, d + 1, e + 1);
    case _ =>
  }

  lemma {:induction false} ItemsLimited(items: Items, d: nat, e: nat)
    requires ItemsOk(items, d)
    ensures ItemsOk(items, e) <==> e + ItemsDepth(items) <= 16
    decreases items
  {
    hide CstOk, Depth;
    DepthIsLimited(items.item.value, d, e);
    if items.MoreItems? {
      ItemsLimited(items.rest, d, e);
    }
  }

  lemma {:induction false} MembersLimited(members: Members, d: nat, e: nat)
    requires MembersOk(members, d)
    ensures MembersOk(members, e) <==> e + MembersDepth(members) <= 16
    decreases members
  {
    hide CstOk, Depth;
    assert PairOk(members.pair, d) && PaddedOk(members.pair.value, d);
    assert PairOk(members.pair, e) <==> CstOk(members.pair.value.value, e);
    DepthIsLimited(members.pair.value.value, d, e);
    if members.MoreMembers? {
      MembersLimited(members.rest, d, e);
    }
  }
}
