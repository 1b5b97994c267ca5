/** The size kept with every decoded value. */
module JsonSizes {
  import opened Wrappers
  import opened Bytes
  import opened JsonSpec
  import opened JsonGrammar
  import opened JsonAgreement
  import opened JsonTheorems

  /** m is n or a value at any depth inside it. */
  predicate Within(m: Node, n: Node)
    decreases n
  {
    || m == n
    || (n.Array? && exists x :: x in n.items && Within(m, x))
    || (n.Object? && exists x :: x in n.members && Within(m, x.value))
  }

  /** d is spelled inside s, between pre and post. */
  predicate Inside(d: Cst, m: Node, s: Bytes, pre: Bytes, post: Bytes) {
    CstOk(d, 0) && Denote(d) == m && s == pre + Spell(d) + post
  }

  // A tree that is well-formed deep down is so at the top

  lemma {:induction false} Shallower(c: Cst, depth: nat)
    requires CstOk(c, depth)
    ensures forall e: nat :: e <= depth ==> CstOk(c, e)
    decreases c
  {
    forall e: nat | e <= depth
      ensures CstOk(c, e)
    {
      if c.FullArray? {
        ItemsShallower(c.items, depth + 1, e + 1);
      } else if c.FullObject? {
        MembersShallower(c.members, depth + 1, e + 1);
      }
    }
  }

  lemma {:induction false} ItemsShallower(items: JsonGrammar.Items, depth: nat, e: nat)
    requires ItemsOk(items, depth) && e <= depth
    ensures ItemsOk(items, e)
    decreases items
  {
    Shallower(items.item.value, depth);
    if items.MoreItems? {
      ItemsShallower(items.rest, depth, e);
    }
  }

  lemma {:induction false} MembersShallower(members: JsonGrammar.Members, depth: nat, e: nat)
    requires MembersOk(members, depth) && e <= depth
    ensures MembersOk(members, e)
    decreases members
  {
    assert PairOk(members.pair, depth) && PaddedOk(members.pair.value, depth);
    Shallower(members.pair.value.value, depth);
    assert PaddedOk(members.pair.value, e) && PairOk(members.pair, e);
    if members.MoreMembers? {
      MembersShallower(members.rest, depth, e);
    }
  }

  // Every value inside is spelled inside

  lemma {:induction false} SpelledInside(c: Cst, depth: nat, m: Node) returns (d: Cst, pre: Bytes, post: Bytes)
    requires CstOk(c, depth) && Within(m, Denote(c))
    ensures Inside(d, m, Spell(c), pre, post)
    decreases c
  {
    if m == Denote(c) {
      Shallower(c, depth);
      d, pre, post := c, [], [];
      assert Spell(c) == [] + Spell(c) + [];
    } else if c.FullArray? {
      d, pre, post := InsideItems(c.items, depth + 1, m);
      hide Inside, SpellItems;
      Widen(d, m, SpellItems(c.items), pre, post, [0x5B], []);
      pre, post := [0x5B] + pre, post + [];
      assert Spell(c) == [0x5B] + SpellItems(c.items) + [];
    } else {
      d, pre, post := InsideMembers(c.members, depth + 1, m);
      hide Inside, SpellMembers;
      Widen(d, m, SpellMembers(c.members), pre, post, [0x7B], []);
      pre, post := [0x7B] + pre, post + [];
      assert Spell(c) == [0x7B] + SpellMembers(c.members) + [];
    }
  }

  lemma Widen(d: Cst, m: Node, s: Bytes, pre: Bytes, post: Bytes, left: Bytes, right: Bytes)
    requires Inside(d, m, s, pre, post)
    ensures Inside(d, m, left + s + right, left + pre, post + right)
  {
    hide CstOk, Denote, Spell;
    assert left + s + right == left + (pre + Spell(d) + post) + right;
  }

  lemma InsideItem(items: JsonGrammar.Items, d: Cst, m: Node, pre: Bytes, post: Bytes) returns (left: Bytes, right: Bytes)
    requires Inside(d, m, Spell(items.item.value), pre, post)
    ensures Inside(d, m, SpellItems(items), left + pre, post + right)
  {
    var p := items.item;
    var last := if items.LastItem? then [0x5D] else [0x2C] + SpellItems(items.rest);
    left, right := p.before, p.after + last;
    hide Inside, Spell;
    Widen(d, m, Spell(p.value), pre, post, left, right);
    Assoc(p.before + Spell(p.value), p.after, last);
  }

  lemma InsideLater(items: JsonGrammar.Items, d: Cst, m: Node, pre: Bytes, post: Bytes) returns (left: Bytes)
    requires items.MoreItems? && Inside(d, m, SpellItems(items.rest), pre, post)
    ensures Inside(d, m, SpellItems(items), left + pre, post + [])
  {
    hide Inside, SpellPadded;
    left := SpellPadded(items.item) + [0x2C];
    Widen(d, m, SpellItems(items.rest), pre, post, left, []);
    assert SpellItems(items) == left + SpellItems(items.rest) + [];
  }

  lemma {:induction false} InsideItems(items: JsonGrammar.Items, depth: nat, m: Node)
      returns (d: Cst, pre: Bytes, post: Bytes)
    requires ItemsOk(items, depth) && exists x :: x in DenoteItems(items) && Within(m, x)
    ensures Inside(d, m, SpellItems(items), pre, post)
    decreases items
  {
    hide Inside, Spell, SpellPadded, Within;
    if Within(m, Denote(items.item.value)) {
      d, pre, post := SpelledInside(items.item.value, depth, m);
      var left, right := InsideItem(items, d, m, pre, post);
      pre, post := left + pre, post + right;
    } else {
      d, pre, post := InsideItems(items.rest, depth, m);
      var left := InsideLater(items, d, m, pre, post);
      pre, post := left + pre, post + [];
    }
  }

  /** What comes before the value of a member. */
  function PairFront(p: Pair): Bytes {
    p.before + SpellStr(p.key) + p.after + [0x3A] + p.value.before
  }

  lemma PairSpelling(p: Pair, last: Bytes)
    ensures SpellPair(p) + last == PairFront(p) + Spell(p.value.value) + (p.value.after + last)
  {
    hide SpellStr, Spell;
    var front := p.before + SpellStr(p.key) + p.after + [0x3A];
    var x := Spell(p.value.value);
    assert front + (p.value.before + x + p.value.after) + last == front + p.value.before + x + (p.value.after + last);
  }

  lemma InsidePair(members: JsonGrammar.Members, d: Cst, m: Node, pre: Bytes, post: Bytes) returns (left: Bytes, right: Bytes)
    requires Inside(d, m, Spell(members.pair.value.value), pre, post)
    ensures Inside(d, m, SpellMembers(members), left + pre, post + right)
  {
    var p := members.pair.value;
    var last := if members.LastMember? then [0x7D] else [0x2C] + SpellMembers(members.rest);
    left, right := PairFront(members.pair), p.after + last;
    PairSpelling(members.pair, last);
    hide Inside, Spell, SpellPair, PairFront;
    Widen(d, m, Spell(p.value), pre, post, left, right);
  }

  lemma InsideRest(members: JsonGrammar.Members, d: Cst, m: Node, pre: Bytes, post: Bytes) returns (left: Bytes)
    requires members.MoreMembers? && Inside(d, m, SpellMembers(members.rest), pre, post)
    ensures Inside(d, m, SpellMembers(members), left + pre, post + [])
  {
    hide Inside, SpellPair;
    left := SpellPair(members.pair) + [0x2C];
    Widen(d, m, SpellMembers(members.rest), pre, post, left, []);
    assert SpellMembers(members) == left + SpellMembers(members.rest) + [];
  }

  lemma {:induction false} InsideMembers(members: JsonGrammar.Members, depth: nat, m: Node)
      returns (d: Cst, pre: Bytes, post: Bytes)
    requires MembersOk(members, depth) && exists x :: x in DenoteMembers(members) && Within(m, x.value)
    ensures Inside(d, m, SpellMembers(members), pre, post)
    decreases members
  {
    hide Inside, Spell, SpellPair, Within;
    assert PairOk(members.pair, depth) && PaddedOk(members.pair.value, depth);
    if Within(m, Denote(members.pair.value.value)) {
      d, pre, post := SpelledInside(members.pair.value.value, depth, m);
      var left, right := InsidePair(members, d, m, pre, post);
      pre, post := left + pre, post + right;
    } else {
      d, pre, post := InsideMembers(members.rest, depth, m);
      var left := InsideRest(members, d, m, pre, post);
      pre, post := left + pre, post + [];
    }
  }

  // The spelling of a value begins and ends with an ASCII byte

  predicate AsciiEnds(s: Bytes) {
    s != [] && s[0] <= 0x7F && s[|s| - 1] <= 0x7F
  }

  lemma {:induction false} ItemsClose(items: JsonGrammar.Items)
    ensures SpellItems(items) != [] && SpellItems(items)[|SpellItems(items)| - 1] == 0x5D
  {
    hide SpellPadded;
    if items.MoreItems? { ItemsClose(items.rest); }
  }

  lemma {:induction false} MembersClose(members: JsonGrammar.Members)
    ensures SpellMembers(members) != [] && SpellMembers(members)[|SpellMembers(members)| - 1] == 0x7D
  {
    hide SpellPair;
    if members.MoreMembers? { MembersClose(members.rest); }
  }

  lemma NumberIsAscii(n: Num)
    requires NumOk(n)
    ensures SpellNum(n) != [] && forall i :: 0 <= i < |SpellNum(n)| ==> SpellNum(n)[i] <= 0x7F
  {
    var i, f, e := SpellInteger(n.minus, n.integer), SpellFraction(n.fraction), SpellExponent(n.exponent);
    assert forall k :: 0 <= k < |i| ==> i[k] <= 0x7F;
    assert forall k :: 0 <= k < |f| ==> f[k] <= 0x7F;
    ExponentIsAscii(n.exponent);
    hide SpellInteger, SpellFraction, SpellExponent;
    assert SpellNum(n) == i + f + e;
  }

  lemma ExponentIsAscii(e: Option<Exponent>)
    requires e.Some? ==> AllDigits(e.value.digits)
    ensures forall i :: 0 <= i < |SpellExponent(e)| ==> SpellExponent(e)[i] <= 0x7F
  {
    if e.Some? {
      var sign: Bytes := if e.value.sign.None? then [] else [if e.value.sign.value then 0x2B else 0x2D];
      assert SpellExponent(e) == [if e.value.upper then 0x45 else 0x65] + sign + e.value.digits;
    }
  }

  lemma SpellingIsAsciiAtEnds(c: Cst, depth: nat)
    requires CstOk(c, depth)
    ensures AsciiEnds(Spell(c))
  {
    hide SpellItems, SpellMembers, SpellNum, SpellChars, ItemsOk, MembersOk, KeysFresh, StrOk, IsWs, NumOk;
    match c
    case Numeral(n) => NumberIsAscii(n);
    case FullArray(items) => ItemsClose(items);
    case FullObject(members) => MembersClose(members);
    case _ =>
  }

  lemma CutOut(pre: Bytes, s: Bytes, post: Bytes)
    requires Utf8Valid(pre + s + post) && AsciiEnds(s)
    ensures Utf8Valid(s)
  {
    assert pre + s + post == pre + (s + post) && (s + post)[0] == s[0];
    CutBeforeAscii(pre, s + post);
    CutBeforeAscii(s, post);
  }

  /** m is what the bytes of raw from i, as many as its size, denote on their own. */
  predicate ParsesAlone(raw: Bytes, i: nat, m: Node, limit: nat) {
    i + m.size <= |raw| && ParseJson(raw[i..i + m.size], limit) == Some(m)
  }

  /**
   * Every value in the result has the length of its spelling as its size: that
   * many bytes of the text, parsed alone, give the same value.
   */
  lemma SizeIsSpelling(raw: Bytes, limit: nat, n: Node, m: Node)
    requires ParseJson(raw, limit) == Some(n) && Within(m, n)
    ensures exists i: nat :: ParsesAlone(raw, i, m, limit)
  {
    ParseIffSpelled(raw, limit, n);
    var p: Padded :| PaddedOk(p, 0) && raw == SpellPadded(p) && n == Denote(p.value);
    var d, pre, post := SpelledInside(p.value, 0, m);
    SpellingIsAsciiAtEnds(d, 0);
    SizeOfDenoted(d);
    Widen(d, m, Spell(p.value), pre, post, p.before, p.after);
    hide Utf8Valid, CstOk, Denote, Spell, ParseJson, Within, AsciiEnds;
    var i := |p.before + pre|;
    assert raw == (p.before + pre) + Spell(d) + (post + p.after);
    assert raw[i..i + m.size] == Spell(d);
    CutOut(p.before + pre, Spell(d), post + p.after);
    Bare(d, m, limit);
    assert ParsesAlone(raw, i, m, limit);
  }

  lemma Bare(d: Cst, m: Node, limit: nat)
    requires CstOk(d, 0) && Denote(d) == m && Utf8Valid(Spell(d)) && |Spell(d)| <= limit
    ensures ParseJson(Spell(d), limit) == Some(m)
  {
    hide Utf8Valid, CstOk, Denote, Spell, ParseJson;
    var p := Padded([], d, []);
    assert SpellPadded(p) == Spell(d);
    SpelledIsParsed(p, limit);
  }
}
