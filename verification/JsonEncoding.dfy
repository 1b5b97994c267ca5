/** What the parser returns can be encoded, and the encoding decides equality of texts up to spelling. */
module JsonEncoding {
  import opened Wrappers
  import opened Bytes
  import opened JsonSpec
  import opened EncodingE
  import G = JsonGrammar
  import JsonTheorems
  import opened JsonSizes

  // No object of a parsed value repeats a key

  lemma PrependDistinct(m: Member, rest: seq<Member>, seen: set<Bytes>)
    requires DistinctKeys(rest) && m.key !in seen && forall r :: r in rest ==> r.key !in seen + {m.key}
    ensures DistinctKeys([m] + rest) && forall r :: r in [m] + rest ==> r.key !in seen
  {
  }

  lemma {:induction false} MembersDistinct(ms: G.Members, seen: set<Bytes>)
    requires G.KeysFresh(ms, seen)
    ensures DistinctKeys(G.DenoteMembers(ms)) && forall m :: m in G.DenoteMembers(ms) ==> m.key !in seen
    decreases ms
  {
    hide G.Denote, G.StrBytes, DistinctKeys;
    var m := Member(G.StrBytes(ms.pair.key), G.Denote(ms.pair.value.value));
    var rest := if ms.MoreMembers? then G.DenoteMembers(ms.rest) else [];
    assert G.DenoteMembers(ms) == [m] + rest;
    if ms.MoreMembers? {
      MembersDistinct(ms.rest, seen + {m.key});
    } else {
      assert DistinctKeys([]) by { NothingRepeats(); }
    }
    hide G.DenoteMembers;
    PrependDistinct(m, rest, seen);
  }

  lemma NothingRepeats()
    ensures DistinctKeys([])
  {
  }

  // Nothing it denotes is longer than its spelling

  lemma {:induction false} StringShrinks(cs: seq<G.Ch>)
    ensures |G.StrBytes(cs)| <= |G.SpellChars(cs)|
  {
    if cs != [] {
      StringShrinks(cs[1..]);
      CharShrinks(cs[0]);
      hide G.ChBytes, G.SpellCh;
    }
  }

  lemma CharShrinks(c: G.Ch)
    ensures |G.ChBytes(c)| <= |G.SpellCh(c)|
  {
    hide G.HexDigit;
  }

  lemma {:induction false} DenotedFits(c: G.Cst, depth: nat)
    requires G.CstOk(c, depth) && |G.Spell(c)| < WIDTH
    ensures Fits(G.Denote(c))
    decreases c
  {
    match c
    case Quoted(cs) =>
      StringShrinks(cs);
      hide G.StrBytes, G.SpellChars;
    case FullArray(items) =>
      ItemsFit(items, depth + 1);
      hide G.DenoteItems, G.SpellItems, G.ItemsOk;
    case FullObject(members) =>
      MembersFit(members, depth + 1);
      MembersDistinct(members, {});
      hide G.DenoteMembers, G.SpellMembers, G.MembersOk, G.KeysFresh;
    case _ =>
      hide G.SpellNum;
  }

  lemma {:induction false} ItemsFit(items: G.Items, depth: nat)
    requires G.ItemsOk(items, depth) && |G.SpellItems(items)| < WIDTH
    ensures |G.DenoteItems(items)| <= |G.SpellItems(items)| && forall n :: n in G.DenoteItems(items) ==> Fits(n)
    decreases items
  {
    hide Fits, G.Denote, G.Spell, G.CstOk;
    DenotedFits(items.item.value, depth);
    if items.MoreItems? {
      ItemsFit(items.rest, depth);
      assert G.DenoteItems(items) == [G.Denote(items.item.value)] + G.DenoteItems(items.rest);
    } else {
      assert G.DenoteItems(items) == [G.Denote(items.item.value)] + [];
    }
  }

  lemma PairShrinks(p: G.Pair)
    ensures |G.StrBytes(p.key)| <= |G.SpellPair(p)| && |G.Spell(p.value.value)| < |G.SpellPair(p)|
  {
    StringShrinks(p.key);
    hide G.StrBytes, G.SpellChars, G.Spell;
  }

  lemma {:induction false} MembersFit(members: G.Members, depth: nat)
    requires G.MembersOk(members, depth) && |G.SpellMembers(members)| < WIDTH
    ensures |G.DenoteMembers(members)| <= |G.SpellMembers(members)|
    ensures forall m :: m in G.DenoteMembers(members) ==> |m.key| < WIDTH && Fits(m.value)
    decreases members
  {
    var p := members.pair;
    PairShrinks(p);
    assert G.PairOk(p, depth) && G.PaddedOk(p.value, depth);
    hide Fits, G.Denote, G.Spell, G.CstOk, G.StrBytes, G.SpellPair;
    DenotedFits(p.value.value, depth);
    var m := Member(G.StrBytes(p.key), G.Denote(p.value.value));
    if members.MoreMembers? {
      MembersFit(members.rest, depth);
      assert G.DenoteMembers(members) == [m] + G.DenoteMembers(members.rest);
    } else {
      assert G.DenoteMembers(members) == [m] + [];
    }
  }

  /** A parsed value has distinct keys at every level and, from a text below 2^32 bytes, lengths that a prefix can hold. */
  lemma ParsedFits(raw: Bytes, limit: nat, n: Node)
    requires ParseJson(raw, limit) == Some(n) && |raw| < WIDTH
    ensures Fits(n)
  {
    JsonTheorems.ParseIffSpelled(raw, limit, n);
    hide ParseJson, Fits, Utf8Valid;
    var p: G.Padded :| G.PaddedOk(p, 0) && raw == G.SpellPadded(p) && n == G.Denote(p.value);
    hide G.Spell, G.Denote, G.CstOk;
    DenotedFits(p.value, 0);
  }

  lemma {:induction false} FitsIsKeyed(n: Node)
    requires Fits(n)
    ensures Keyed(n)
    decreases n
  {
    if n.Array? {
      forall x | x in n.items
        ensures Keyed(x)
      {
        FitsIsKeyed(x);
      }
    } else if n.Object? {
      forall m | m in n.members
        ensures Keyed(m.value)
      {
        FitsIsKeyed(m.value);
      }
    }
  }

  /** So whatever the parser returns may be given to encodeE, whose objects never repeat a key. */
  lemma ParsedIsKeyed(raw: Bytes, limit: nat, n: Node)
    requires ParseJson(raw, limit) == Some(n) && |raw| < WIDTH
    ensures Keyed(n)
  {
    hide ParseJson, Fits, Keyed;
    ParsedFits(raw, limit, n);
    FitsIsKeyed(n);
  }

  /**
   * Two texts have equal encodings exactly when they denote the same value up to
   * the order of keys: white space, escapes and key order leave no trace.
   */
  lemma TextsEncodeAlike(s: Bytes, t: Bytes, limit: nat, m: Node, n: Node)
    requires |s| < WIDTH && |t| < WIDTH && ParseJson(s, limit) == Some(m) && ParseJson(t, limit) == Some(n)
    ensures E(m) == E(n) <==> Same(m, n)
  {
    ParsedFits(s, limit, m);
    ParsedFits(t, limit, n);
    hide ParseJson;
    EncodingDecides(m, n);
  }

  /** The plain decimal spelling of a number of 32 bits. */
  predicate PlainNumber(s: Bytes) {
    exists v: nat | v < 0x1_0000_0000 :: s == Decimal(v)
  }

  lemma PlainIsRead(s: Bytes)
    ensures Uint32Literal(s).Some? <==> PlainNumber(s)
  {
    if Uint32Literal(s).Some? {
      LiteralIsDecimal(s, Uint32Literal(s).value);
    }
    if PlainNumber(s) {
      var v: nat :| v < 0x1_0000_0000 && s == Decimal(v);
      LiteralIsDecimal(s, v);
    }
  }

  /** The encoder refuses a value exactly when some number in it, at any depth, is not the plain decimal spelling of 32 bits. */
  lemma {:induction false} EncodableMeans(n: Node)
    ensures Encodable(n) <==> forall m :: Within(m, n) && m.Number? ==> PlainNumber(m.literal)
    decreases n
  {
    if n.Array? {
      forall x | x in n.items
        ensures Encodable(x) <==> forall m :: Within(m, x) && m.Number? ==> PlainNumber(m.literal)
      {
        EncodableMeans(x);
      }
    } else if n.Object? {
      forall k | k in n.members
        ensures Encodable(k.value) <==> forall m :: Within(m, k.value) && m.Number? ==> PlainNumber(m.literal)
      {
        EncodableMeans(k.value);
      }
    } else if n.Number? {
      PlainIsRead(n.literal);
    }
  }
}
