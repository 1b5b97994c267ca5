/** Canonical texts of bindings and selectors parse and decode to what they were made from. */
module SelectionTheorems {
  import opened Wrappers
  import opened Bytes
  import opened JsonSpec
  import opened Selection
  import G = JsonGrammar
  import JsonTheorems
  import JsonSizes

  // Texts that need no escaping

  predicate Printable(s: Bytes) {
    forall i :: 0 <= i < |s| ==> 0x20 <= s[i] < 0x7F && s[i] != 0x22 && s[i] != 0x5C
  }

  function Plains(s: Bytes): seq<G.Ch> {
    if s == [] then [] else [G.Plain(s[0])] + Plains(s[1..])
  }

  lemma {:induction false} PlainsSpell(s: Bytes)
    requires Printable(s)
    ensures G.SpellChars(Plains(s)) == s && G.StrBytes(Plains(s)) == s && G.StrOk(Plains(s))
  {
    if s != [] {
      PlainsSpell(s[1..]);
      var cs := Plains(s);
      assert cs[0] == G.Plain(s[0]) && cs[1..] == Plains(s[1..]);
      assert s == [s[0]] + s[1..];
    }
  }

  lemma {:induction false} AsciiIsUtf8(s: Bytes)
    requires forall i :: 0 <= i < |s| ==> s[i] <= 0x7F
    ensures Utf8Valid(s)
  {
    if s != [] {
      AsciiIsUtf8(s[1..]);
    }
  }

  predicate IsAscii(s: Bytes) {
    forall i :: 0 <= i < |s| ==> s[i] <= 0x7F
  }

  // Objects of three members without white space

  function PairOf(key: Bytes, v: G.Cst): G.Pair {
    G.Pair([], Plains(key), [], G.Padded([], v, []))
  }

  function Three(k1: Bytes, v1: G.Cst, k2: Bytes, v2: G.Cst, k3: Bytes, v3: G.Cst): G.Cst {
    G.FullObject(G.MoreMembers(PairOf(k1, v1), G.MoreMembers(PairOf(k2, v2), G.LastMember(PairOf(k3, v3)))))
  }

  function PairText(key: Bytes, v: Bytes): Bytes {
    Quote(key) + [0x3A] + v
  }

  function ThreeText(k1: Bytes, v1: Bytes, k2: Bytes, v2: Bytes, k3: Bytes, v3: Bytes): Bytes {
    [0x7B] + (PairText(k1, v1) + ([0x2C] + (PairText(k2, v2) + ([0x2C] + (PairText(k3, v3) + [0x7D])))))
  }

  /** A member value that stands at depth 1 and is spelled in ASCII. */
  predicate Scalar(v: G.Cst) {
    (v.Quoted? || v.LitNull?) && G.CstOk(v, 1) && IsAscii(G.Spell(v))
  }

  lemma PairSpelled(key: Bytes, v: G.Cst)
    requires Printable(key) && Scalar(v)
    ensures G.SpellPair(PairOf(key, v)) == PairText(key, G.Spell(v)) && G.PairOk(PairOf(key, v), 1)
    ensures G.StrBytes(PairOf(key, v).key) == key && IsAscii(PairText(key, G.Spell(v)))
  {
    PlainsSpell(key);
    hide G.SpellChars, G.StrBytes, G.StrOk, Plains, G.Spell;
    var p := PairOf(key, v);
    assert [] + G.Spell(v) + [] == G.Spell(v);
    assert [] + G.SpellStr(p.key) + [] + [0x3A] == Quote(key) + [0x3A];
    hide G.CstOk;
    assert G.PaddedOk(p.value, 1) && G.PairOk(p, 1);
  }

  lemma ThreeParses(k1: Bytes, v1: G.Cst, k2: Bytes, v2: G.Cst, k3: Bytes, v3: G.Cst, limit: nat)
    requires Printable(k1) && Printable(k2) && Printable(k3) && Scalar(v1) && Scalar(v2) && Scalar(v3)
    requires k1 != k2 && k1 != k3 && k2 != k3
    requires |ThreeText(k1, G.Spell(v1), k2, G.Spell(v2), k3, G.Spell(v3))| <= limit
    ensures var text := ThreeText(k1, G.Spell(v1), k2, G.Spell(v2), k3, G.Spell(v3));
      ParseJson(text, limit) == Some(Object([Member(k1, G.Denote(v1)), Member(k2, G.Denote(v2)), Member(k3, G.Denote(v3))], |text|))
  {
    var c := Three(k1, v1, k2, v2, k3, v3);
    var text := ThreeText(k1, G.Spell(v1), k2, G.Spell(v2), k3, G.Spell(v3));
    PairSpelled(k1, v1);
    PairSpelled(k2, v2);
    PairSpelled(k3, v3);
    hide PairText, PairOf, Scalar, Printable, ParseJson, G.PairOk;
    ThreeSpelled(c, text, PairText(k1, G.Spell(v1)), PairText(k2, G.Spell(v2)), PairText(k3, G.Spell(v3)));
    ThreeDenotes(k1, v1, k2, v2, k3, v3);
    ThreeOk(k1, v1, k2, v2, k3, v3);
    AsciiIsUtf8(text);
    hide G.Spell, G.Denote, G.CstOk, ThreeText, Three, Utf8Valid;
    JsonSizes.Bare(c, G.Denote(c), limit);
  }

  lemma ThreeSpelled(c: G.Cst, text: Bytes, p1: Bytes, p2: Bytes, p3: Bytes)
    requires c.FullObject? && c.members.MoreMembers? && c.members.rest.MoreMembers? && c.members.rest.rest.LastMember?
    requires G.SpellPair(c.members.pair) == p1 && G.SpellPair(c.members.rest.pair) == p2 && G.SpellPair(c.members.rest.rest.pair) == p3
    requires text == [0x7B] + (p1 + ([0x2C] + (p2 + ([0x2C] + (p3 + [0x7D])))))
    requires IsAscii(p1) && IsAscii(p2) && IsAscii(p3)
    ensures G.Spell(c) == text && IsAscii(text)
  {
    hide G.SpellPair;
    assert G.SpellMembers(c.members.rest.rest) == p3 + [0x7D];
    assert G.SpellMembers(c.members.rest) == p2 + ([0x2C] + G.SpellMembers(c.members.rest.rest));
    assert G.SpellMembers(c.members) == p1 + ([0x2C] + G.SpellMembers(c.members.rest));
    assert G.Spell(c) == [0x7B] + G.SpellMembers(c.members);
  }

  lemma ThreeDenotes(k1: Bytes, v1: G.Cst, k2: Bytes, v2: G.Cst, k3: Bytes, v3: G.Cst)
    requires G.StrBytes(PairOf(k1, v1).key) == k1 && G.StrBytes(PairOf(k2, v2).key) == k2 && G.StrBytes(PairOf(k3, v3).key) == k3
    ensures var c := Three(k1, v1, k2, v2, k3, v3);
      G.Denote(c) == Object([Member(k1, G.Denote(v1)), Member(k2, G.Denote(v2)), Member(k3, G.Denote(v3))], |G.Spell(c)|)
  {
    hide G.StrBytes, G.Spell, Plains;
    var ms := Three(k1, v1, k2, v2, k3, v3).members;
    assert G.DenoteMembers(ms.rest.rest) == [Member(k3, G.Denote(v3))];
    assert G.DenoteMembers(ms.rest) == [Member(k2, G.Denote(v2)), Member(k3, G.Denote(v3))];
  }

  lemma ThreeOk(k1: Bytes, v1: G.Cst, k2: Bytes, v2: G.Cst, k3: Bytes, v3: G.Cst)
    requires G.PairOk(PairOf(k1, v1), 1) && G.PairOk(PairOf(k2, v2), 1) && G.PairOk(PairOf(k3, v3), 1)
    requires G.StrBytes(PairOf(k1, v1).key) == k1 && G.StrBytes(PairOf(k2, v2).key) == k2 && G.StrBytes(PairOf(k3, v3).key) == k3
    requires k1 != k2 && k1 != k3 && k2 != k3
    ensures G.CstOk(Three(k1, v1, k2, v2, k3, v3), 0)
  {
    hide G.PairOk, G.StrBytes, Plains, PairOf;
    var ms := Three(k1, v1, k2, v2, k3, v3).members;
    assert G.MembersOk(ms.rest.rest, 1);
    assert G.MembersOk(ms.rest, 1);
    assert G.KeysFresh(ms.rest.rest, {k1} + {k2});
    assert {} + {k1} == {k1};
    assert G.KeysFresh(ms.rest, {k1});
  }

  // Scalars

  lemma QuotedIs(cs: seq<G.Ch>, s: Bytes)
    requires G.StrOk(cs) && G.StrBytes(cs) == s && G.SpellStr(cs) == Quote(s) && IsAscii(Quote(s)) && |Quote(s)| == |s| + 2
    ensures var v := G.Quoted(cs); Scalar(v) && G.Spell(v) == Quote(s) && G.Denote(v) == Str(s, |s| + 2)
  {
    hide G.StrOk, G.StrBytes, G.SpellStr, Quote, IsAscii;
  }

  lemma QuotedScalar(s: Bytes)
    requires Printable(s)
    ensures var v := G.Quoted(Plains(s)); Scalar(v) && G.Spell(v) == Quote(s) && G.Denote(v) == Str(s, |s| + 2)
  {
    hide G.SpellChars, G.StrBytes, Plains, G.StrOk, Scalar, G.Spell, G.Denote;
    PlainsSpell(s);
    QuotedIs(Plains(s), s);
  }

  lemma DigestIsPrintable(s: Bytes)
    requires IsDigest(s)
    ensures Printable(s)
  {
  }

  // The fixed texts are objects of three members

  lemma RightNested(a: Bytes, b: Bytes, c: Bytes, d: Bytes, e: Bytes, f: Bytes, g: Bytes)
    ensures a + b + c + d + e + f + g == a + (b + (c + (d + (e + (f + g)))))
  {
    Assoc(a + b + c + d + e, f, g);
    Assoc(a + b + c + d, e, f + g);
    Assoc(a + b + c, d, e + (f + g));
    Assoc(a + b, c, d + (e + (f + g)));
    Assoc(a, b, c + (d + (e + (f + g))));
  }

  /** A quoted value between the closing quote of its opening text and the text that closes it. */
  lemma QuotedMember(open: Byte, key: Bytes, v: Bytes, rest: Bytes)
    ensures [open] + Quote(key) + [0x3A, 0x22] + (v + ([0x22] + rest)) == [open] + (PairText(key, Quote(v)) + rest)
  {
    assert [0x3A, 0x22] == [0x3A] + [0x22];
    var q := Quote(key);
    calc {
      [open] + q + [0x3A, 0x22] + (v + ([0x22] + rest));
      [open] + (q + [0x3A] + ([0x22] + v + [0x22]) + rest);
    }
  }

  /** As the formats of the source have it: the last value may or may not be quoted. */
  lemma TextIsThree(k1: Bytes, v1: Bytes, k2: Bytes, v2: Bytes, k3: Bytes, v3: Bytes)
    ensures [0x7B] + Quote(k1) + [0x3A, 0x22] + v1 + ([0x22, 0x2C] + Quote(k2) + [0x3A, 0x22]) + v2
            + ([0x22, 0x2C] + Quote(k3) + [0x3A]) + v3 + [0x7D]
         == ThreeText(k1, Quote(v1), k2, Quote(v2), k3, v3)
  {
    var a, c, e := [0x7B] + Quote(k1) + [0x3A, 0x22], [0x22, 0x2C] + Quote(k2) + [0x3A, 0x22], [0x22, 0x2C] + Quote(k3) + [0x3A];
    var last := [0x2C] + (PairText(k3, v3) + [0x7D]);
    RightNested(a, v1, c, v2, e, v3, [0x7D]);
    assert e + (v3 + [0x7D]) == [0x22] + last;
    var more := [0x2C] + (PairText(k2, Quote(v2)) + last);
    QuotedMember(0x2C, k2, v2, last);
    assert c + (v2 + ([0x22] + last)) == [0x22] + more by {
      assert c == [0x22] + ([0x2C] + Quote(k2) + [0x3A, 0x22]);
      Assoc([0x22], [0x2C] + Quote(k2) + [0x3A, 0x22], v2 + ([0x22] + last));
    }
    QuotedMember(0x7B, k1, v1, more);
  }

  // Bindings

  lemma NamesArePrintable()
    ensures Printable(KIND) && Printable(POLICY) && Printable(SELECTION) && Printable(SELECTED) && Printable(UNSELECTED)
  {
  }

  lemma BindingTexts()
    ensures TEXT_KIND == [0x7B] + Quote(KIND) + [0x3A, 0x22]
    ensures TEXT_POLICY == [0x22, 0x2C] + Quote(POLICY) + [0x3A, 0x22]
  {
  }

  lemma BindingTextsEnd()
    ensures TEXT_SELECTION == [0x22, 0x2C] + Quote(SELECTION) + [0x3A] && TEXT_CLOSE == [0x7D]
  {
  }

  lemma BindingTextIsThree(b: Binding)
    ensures BindingText(b) == ThreeText(KIND, Quote(b.kind), POLICY, Quote(b.policyDigest), SELECTION,
                                        if b.selectionDigest.Some? then Quote(b.selectionDigest.value) else NULL)
  {
    hide Ascii, Quote, ThreeText, KIND, POLICY, SELECTION, TEXT_KIND, TEXT_POLICY, TEXT_SELECTION, TEXT_CLOSE;
    BindingTexts();
    BindingTextsEnd();
    TextIsThree(KIND, b.kind, POLICY, b.policyDigest, SELECTION, if b.selectionDigest.Some? then Quote(b.selectionDigest.value) else NULL);
  }

  /** An object of the three members of a binding, in order, decodes to it. */
  lemma ThreeDecodes(n: Node, b: Binding)
    requires ValidBinding(b) && n.Object? && |n.members| == 3
    requires n.members[0].key == KIND && n.members[1].key == POLICY && n.members[2].key == SELECTION
    requires n.members[0].value.Str? && n.members[0].value.s == b.kind
    requires n.members[1].value.Str? && n.members[1].value.s == b.policyDigest
    requires b.selectionDigest.Some? ==> n.members[2].value.Str? && n.members[2].value.s == b.selectionDigest.value
    requires b.selectionDigest.None? ==> n.members[2].value.Null?
    ensures DecodeBinding(n) == Some(b)
  {
    BindingNames();
    hide IsDigest;
    assert Closed(n, [KIND, POLICY, SELECTION]);
    assert Field(n, KIND) == n.members[0].value;
    assert Field(n, POLICY) == n.members[1].value;
    assert Field(n, SELECTION) == n.members[2].value;
  }

  /** Every valid binding's canonical text parses, and decodes to that binding. */
  lemma BindingRoundTrip(b: Binding, limit: nat)
    requires ValidBinding(b) && |BindingText(b)| <= limit
    ensures var n := ParseJson(BindingText(b), limit); n.Some? && DecodeBinding(n.value) == Some(b)
  {
    NamesArePrintable();
    BindingNames();
    DigestIsPrintable(b.policyDigest);
    BindingTextIsThree(b);
    hide Printable, IsDigest, ParseJson, BindingText, ThreeText, Quote;
    var v1, v2 := G.Quoted(Plains(b.kind)), G.Quoted(Plains(b.policyDigest));
    QuotedScalar(b.kind);
    QuotedScalar(b.policyDigest);
    var v3 := SelectionScalar(b);
    hide G.Denote, Plains, Scalar, G.Spell, DecodeBinding;
    ThreeParses(KIND, v1, POLICY, v2, SELECTION, v3, limit);
    ThreeDecodes(ParseJson(BindingText(b), limit).value, b);
  }

  lemma SelectionScalar(b: Binding) returns (v: G.Cst)
    requires ValidBinding(b)
    ensures Scalar(v) && G.Spell(v) == if b.selectionDigest.Some? then Quote(b.selectionDigest.value) else NULL
    ensures b.selectionDigest.Some? ==> G.Denote(v) == Str(b.selectionDigest.value, |b.selectionDigest.value| + 2)
    ensures b.selectionDigest.None? ==> G.Denote(v).Null?
  {
    if b.selectionDigest.Some? {
      v := G.Quoted(Plains(b.selectionDigest.value));
      DigestIsPrintable(b.selectionDigest.value);
      QuotedScalar(b.selectionDigest.value);
    } else {
      v := G.LitNull;
    }
  }

  /** So no two valid bindings share a canonical text. */
  lemma CanonicalInjective(a: Binding, b: Binding)
    requires Canonical(a).Some? && Canonical(a) == Canonical(b)
    ensures a == b
  {
    var limit := |BindingText(a)|;
    BindingRoundTrip(a, limit);
    BindingRoundTrip(b, limit);
  }

  // Selectors

  lemma SelectorNames()
    ensures Printable(CONTRACT) && Printable(BASE) && Printable(AMENDMENT)
    ensures CONTRACT != BASE && CONTRACT != AMENDMENT && BASE != AMENDMENT
  {
    assert |CONTRACT| == 8 && |BASE| == 11 && |AMENDMENT| == 9;
  }

  lemma ContractIsPrintable()
    ensures Printable(SELECTION_V1)
  {
  }

  lemma ProfilesArePrintable(s: Selector)
    requires ValidSelector(s)
    ensures Printable(s.baseProfile) && Printable(s.amendment)
  {
  }

  lemma SelectorTexts()
    ensures TEXT_CONTRACT == [0x7B] + Quote(CONTRACT) + [0x3A, 0x22]
    ensures TEXT_BASE == [0x22, 0x2C] + Quote(BASE) + [0x3A, 0x22]
    ensures TEXT_AMENDMENT == [0x22, 0x2C] + Quote(AMENDMENT) + [0x3A] + [0x22]
    ensures TEXT_END == [0x22] + [0x7D]
  {
  }

  lemma QuoteEnds(front: Bytes, e: Bytes, v: Bytes)
    ensures front + (e + [0x22]) + v + ([0x22] + [0x7D]) == front + e + Quote(v) + [0x7D]
  {
  }

  lemma SelectorTextIsThree(s: Selector)
    ensures SelectorText(s) == ThreeText(CONTRACT, Quote(SELECTION_V1), BASE, Quote(s.baseProfile), AMENDMENT, Quote(s.amendment))
  {
    hide Ascii, Quote, ThreeText, CONTRACT, BASE, AMENDMENT, SELECTION_V1, TEXT_CONTRACT, TEXT_BASE, TEXT_AMENDMENT, TEXT_END;
    SelectorTexts();
    QuoteEnds(TEXT_CONTRACT + SELECTION_V1 + TEXT_BASE + s.baseProfile, [0x22, 0x2C] + Quote(AMENDMENT) + [0x3A], s.amendment);
    TextIsThree(CONTRACT, SELECTION_V1, BASE, s.baseProfile, AMENDMENT, Quote(s.amendment));
  }

  lemma ThreeDecodesSelector(n: Node, s: Selector)
    requires ValidSelector(s) && n.Object? && |n.members| == 3
    requires n.members[0].key == CONTRACT && n.members[1].key == BASE && n.members[2].key == AMENDMENT
    requires n.members[0].value.Str? && n.members[0].value.s == SELECTION_V1
    requires n.members[1].value.Str? && n.members[1].value.s == s.baseProfile
    requires n.members[2].value.Str? && n.members[2].value.s == s.amendment
    ensures DecodeSelector(n) == Some(s)
  {
    SelectorNames();
    assert Closed(n, [CONTRACT, BASE, AMENDMENT]);
    assert Field(n, CONTRACT) == n.members[0].value;
    assert Field(n, BASE) == n.members[1].value;
    assert Field(n, AMENDMENT) == n.members[2].value;
  }

  lemma SelectorRoundTrip(s: Selector, limit: nat)
    requires ValidSelector(s) && |SelectorText(s)| <= limit
    ensures var n := ParseJson(SelectorText(s), limit); n.Some? && DecodeSelector(n.value) == Some(s)
  {
    SelectorNames();
    ContractIsPrintable();
    ProfilesArePrintable(s);
    SelectorTextIsThree(s);
    hide Printable, ParseJson, SelectorText, ThreeText, Quote;
    var v1, v2, v3 := G.Quoted(Plains(SELECTION_V1)), G.Quoted(Plains(s.baseProfile)), G.Quoted(Plains(s.amendment));
    QuotedScalar(SELECTION_V1);
    QuotedScalar(s.baseProfile);
    QuotedScalar(s.amendment);
    hide G.Denote, Plains, Scalar, G.Spell, DecodeSelector;
    ThreeParses(CONTRACT, v1, BASE, v2, AMENDMENT, v3, limit);
    ThreeDecodesSelector(ParseJson(SelectorText(s), limit).value, s);
  }

  /** canonicalSelector accepts exactly the canonical texts of the valid selectors. */
  lemma CanonicalSelectorExact(raw: Bytes, s: Selector)
    ensures CanonicalSelector(raw) == Some(s) <==> ValidSelector(s) && raw == SelectorText(s)
  {
    if ValidSelector(s) && raw == SelectorText(s) {
      assert |SelectorText(s)| <= 200 by {
        hide ParseJson;
        assert |SELECTION_V1| == 30 && |s.baseProfile| <= 10 && |s.amendment| <= 10;
      }
      hide SelectorText, ParseJson;
      SelectorRoundTrip(s, MAX_SELECTOR_BYTES);
    }
  }
}
