/**
 * The cumulative history of internal/roleprotocol/history.go: its validation,
 * the bytes that are hashed, and the extension rule.
 */
module History {
  import opened Wrappers
  import opened Bytes
  import opened Selection
  import opened Sorting
  import opened EncodingE
  import SelectionTheorems

  const MAX_POLICIES := 128
  const MAX_POLICY_BYTES := 65536
  const MAX_POLICY_TOTAL := 524288
  const MAX_SELECTIONS := 4
  const MAX_SELECTOR_RAW := 4096
  const MAX_BINDINGS := 640
  const MAX_BINDING_BYTES := 512

  datatype HistoryMode = LegacySource | Bound | UnknownMode

  datatype History = History(policies: map<Bytes, Bytes>, selections: map<Bytes, Bytes>, bindings: map<Bytes, Binding>)

  /**
   * What the history asks of other code: SHA-256 of raw bytes and of a domain's
   * bytes in lower-case hex, whether bytes are a canonical policy, and whether
   * policies in the order of their digests form a lineage.
   */
  datatype Services = Services(
    rawDigest: Bytes -> Bytes,
    selectionDigest: Bytes -> Bytes,
    bindingDigest: Bytes -> Bytes,
    canonicalPolicy: Bytes -> bool,
    lineage: seq<Bytes> -> bool)

  ghost predicate GivesDigests(s: Services) {
    forall x :: IsDigest(s.rawDigest(x)) && IsDigest(s.selectionDigest(x)) && IsDigest(s.bindingDigest(x))
  }

  // Sorted keys

  lemma CharsDetermine(ks: seq<Bytes>)
    ensures KeyDetermines(Chars, ks)
  {
    forall x: Bytes, y: Bytes | x in ks && y in ks && Chars(x) == Chars(y)
      ensures x == y
    {
      CharsInjective(x, y);
    }
  }

  lemma {:induction false} ListingExists(keys: set<Bytes>)
    ensures exists ks :: Lists(Chars, ks, keys)
  {
    var s := SomeListing(keys);
    SortWithSorts(Chars, s);
    SortKeepsListing(Chars, s, SortWith(Chars, s), keys);
  }

  lemma {:induction false} SomeListing(keys: set<Bytes>) returns (ks: seq<Bytes>)
    ensures NoRepeat(ks) && forall k :: k in ks <==> k in keys
  {
    if keys == {} {
      ks := [];
    } else {
      var k :| k in keys;
      ks := SomeListing(keys - {k});
      ks := [k] + ks;
    }
  }

  /** sortedKeys: in byte order. */
  ghost function SortedKeys(keys: set<Bytes>): (ks: seq<Bytes>)
    ensures Lists(Chars, ks, keys)
  {
    ListingExists(keys);
    var ks :| Lists(Chars, ks, keys); ks
  }

  method SortKeys<V>(m: map<Bytes, V>) returns (ks: seq<Bytes>)
    ensures ks == SortedKeys(m.Keys)
  {
    ks := SortSet(Chars, m.Keys);
    CharsDetermine(ks);
    ListingUnique(Chars, ks, SortedKeys(m.Keys), m.Keys);
  }

  // The bytes of a map: a count, then fixed-width keys, each followed by its length-prefixed value

  function Entries(ks: seq<Bytes>, m: map<Bytes, Bytes>): Bytes
    requires forall k :: k in ks ==> k in m
  {
    if ks == [] then [] else ks[0] + L(m[ks[0]]) + Entries(ks[1..], m)
  }

  ghost function MapBytes(m: map<Bytes, Bytes>): Bytes {
    U32(|m|) + Entries(SortedKeys(m.Keys), m)
  }

  /** Keys of 64 bytes, and sizes that a length prefix can hold. */
  ghost predicate FixedWidth(m: map<Bytes, Bytes>) {
    |m| < WIDTH && forall k :: k in m ==> |k| == 64 && |m[k]| < WIDTH
  }

  lemma EntryDecodes(j: Bytes, v: Bytes, x: Bytes, k: Bytes, w: Bytes, y: Bytes)
    requires |j| == |k| == 64 && |v| < WIDTH && |w| < WIDTH && j + L(v) + x == k + L(w) + y
    ensures j == k && v == w && x == y
  {
    hide L;
    Assoc(j, L(v), x);
    Assoc(k, L(w), y);
    assert j == (j + (L(v) + x))[..64] && k == (k + (L(w) + y))[..64];
    assert L(v) + x == (j + (L(v) + x))[64..] && L(w) + y == (k + (L(w) + y))[64..];
    LDecodes(v, x, w, y);
  }

  lemma {:induction false} EntriesDecode(js: seq<Bytes>, m: map<Bytes, Bytes>, x: Bytes, ks: seq<Bytes>, n: map<Bytes, Bytes>, y: Bytes)
    requires (forall j :: j in js ==> j in m) && (forall k :: k in ks ==> k in n) && |js| == |ks|
    requires FixedWidth(m) && FixedWidth(n) && Entries(js, m) + x == Entries(ks, n) + y
    ensures js == ks && x == y && forall k :: k in ks ==> m[k] == n[k]
  {
    hide L;
    if js == [] {
      assert Entries(js, m) + x == x && Entries(ks, n) + y == y;
    } else {
      var e, f := Entries(js[1..], m), Entries(ks[1..], n);
      Assoc(js[0] + L(m[js[0]]), e, x);
      Assoc(ks[0] + L(n[ks[0]]), f, y);
      EntryDecodes(js[0], m[js[0]], e + x, ks[0], n[ks[0]], f + y);
      EntriesDecode(js[1..], m, x, ks[1..], n, y);
      assert js == [js[0]] + js[1..] && ks == [ks[0]] + ks[1..];
    }
  }

  /** Though a key has no length prefix of its own, the bytes tell the map and where it ends. */
  lemma MapDecodes(m: map<Bytes, Bytes>, x: Bytes, n: map<Bytes, Bytes>, y: Bytes)
    requires FixedWidth(m) && FixedWidth(n) && MapBytes(m) + x == MapBytes(n) + y
    ensures m == n && x == y
  {
    var js, ks := SortedKeys(m.Keys), SortedKeys(n.Keys);
    ListingSize(js, m.Keys);
    ListingSize(ks, n.Keys);
    hide L, U32, SortedBy, Entries;
    Assoc(U32(|m|), Entries(js, m), x);
    Assoc(U32(|n|), Entries(ks, n), y);
    CountDecodes(|m|, Entries(js, m) + x, |n|, Entries(ks, n) + y);
    EntriesDecode(js, m, x, ks, n, y);
    assert m.Keys == n.Keys;
  }

  /** appendHistoryMap. */
  method AppendHistoryMap(out: Bytes, m: map<Bytes, Bytes>) returns (r: Bytes)
    ensures r == out + MapBytes(m)
  {
    var keys := SortKeys(m);
    assert forall k :: k in keys ==> k in m;
    hide L, U32, Lists, SortedBy, NoRepeat;
    r := out + U32(|m|);
    Assoc(out, U32(|m|), Entries(keys, m));
    for i := 0 to |keys|
      invariant r + Entries(keys[i..], m) == out + MapBytes(m)
    {
      EntriesStep(keys, i, m);
      var k := keys[i];
      assert k in keys;
      var next := r + k + L(m[k]);
      Assoc(r, k, L(m[k]));
      Assoc(r, k + L(m[k]), Entries(keys[i + 1..], m));
      r := next;
    }
    assert r + [] == r;
  }

  lemma EntriesStep(ks: seq<Bytes>, i: nat, m: map<Bytes, Bytes>)
    requires i < |ks| && forall k :: k in ks ==> k in m
    ensures Entries(ks[i..], m) == ks[i] + L(m[ks[i]]) + Entries(ks[i + 1..], m)
  {
    hide L;
    assert ks[i..][1..] == ks[i + 1..] && ks[i..][0] == ks[i];
  }

  // Validity

  function SelectionsUsed(h: History): set<Bytes> {
    set d | d in h.bindings && h.bindings[d].selectionDigest.Some? :: h.bindings[d].selectionDigest.value
  }

  function PoliciesUsed(h: History): set<Bytes> {
    set d | d in h.bindings :: h.bindings[d].policyDigest
  }

  /** The policies and the selections that the bindings under these keys name. */
  function PoliciesOf(ks: seq<Bytes>, bindings: map<Bytes, Binding>): set<Bytes> {
    set d | d in ks && d in bindings :: bindings[d].policyDigest
  }

  function SelectionsOf(ks: seq<Bytes>, bindings: map<Bytes, Binding>): set<Bytes> {
    set d | d in ks && d in bindings && bindings[d].selectionDigest.Some? :: bindings[d].selectionDigest.value
  }

  ghost predicate AllOk(ks: seq<Bytes>, h: History, mode: HistoryMode, s: Services) {
    forall d :: d in ks && d in h.bindings ==> BindingOk(d, h.bindings[d], h, mode, s)
  }

  lemma OneMoreBinding(ks: seq<Bytes>, d: Bytes, h: History, mode: HistoryMode, s: Services)
    requires d in h.bindings
    ensures PoliciesOf(ks + [d], h.bindings) == PoliciesOf(ks, h.bindings) + {h.bindings[d].policyDigest}
    ensures SelectionsOf(ks + [d], h.bindings) == SelectionsOf(ks, h.bindings)
            + if h.bindings[d].selectionDigest.Some? then {h.bindings[d].selectionDigest.value} else {}
    ensures AllOk(ks + [d], h, mode, s) <==> AllOk(ks, h, mode, s) && BindingOk(d, h.bindings[d], h, mode, s)
  {
    hide BindingOk;
    assert forall x :: x in ks + [d] <==> x in ks || x == d;
  }

  lemma NoBindings(h: History, mode: HistoryMode, s: Services)
    ensures PoliciesOf([], h.bindings) == {} && SelectionsOf([], h.bindings) == {} && AllOk([], h, mode, s)
  {
  }

  lemma AllBindings(ks: seq<Bytes>, h: History, mode: HistoryMode, s: Services)
    requires forall k :: k in ks <==> k in h.bindings
    ensures PoliciesOf(ks, h.bindings) == PoliciesUsed(h) && SelectionsOf(ks, h.bindings) == SelectionsUsed(h)
    ensures AllOk(ks, h, mode, s) <==> forall d :: d in h.bindings ==> BindingOk(d, h.bindings[d], h, mode, s)
  {
    hide BindingOk;
  }

  function TotalSize(ks: seq<Bytes>, m: map<Bytes, Bytes>): nat
    requires forall k :: k in ks ==> k in m
  {
    if ks == [] then 0 else TotalSize(ks[..|ks| - 1], m) + |m[ks[|ks| - 1]]|
  }

  function Values(ks: seq<Bytes>, m: map<Bytes, Bytes>): (vs: seq<Bytes>)
    requires forall k :: k in ks ==> k in m
  {
    seq(|ks|, i requires 0 <= i < |ks| => m[ks[i]])
  }

  predicate PolicyOk(d: Bytes, raw: Bytes, s: Services) {
    IsDigest(d) && 0 < |raw| <= MAX_POLICY_BYTES && s.rawDigest(raw) == d && s.canonicalPolicy(raw)
  }

  predicate SelectionOk(d: Bytes, raw: Bytes, s: Services) {
    IsDigest(d) && |raw| <= MAX_SELECTOR_RAW && CanonicalSelector(raw).Some? && s.selectionDigest(raw) == d
  }

  predicate BindingOk(d: Bytes, b: Binding, h: History, mode: HistoryMode, s: Services) {
    && ValidBinding(b) && |BindingText(b)| <= MAX_BINDING_BYTES && s.bindingDigest(BindingText(b)) == d
    && b.policyDigest in h.policies
    && (mode.LegacySource? ==> b.kind == UNSELECTED)
    && (b.selectionDigest.Some? ==> b.selectionDigest.value in h.selections)
  }

  /** A valid history: every entry is under its own digest, and every policy and selection is bound. */
  ghost predicate Valid(h: History, mode: HistoryMode, s: Services) {
    && !mode.UnknownMode?
    && 1 <= |h.policies| <= MAX_POLICIES && (forall d :: d in h.policies ==> PolicyOk(d, h.policies[d], s))
    && TotalSize(SortedKeys(h.policies.Keys), h.policies) <= MAX_POLICY_TOTAL
    && s.lineage(Values(SortedKeys(h.policies.Keys), h.policies))
    && (mode.LegacySource? ==> |h.selections| == 0) && (mode.Bound? ==> |h.selections| > 0)
    && |h.selections| <= MAX_SELECTIONS && (forall d :: d in h.selections ==> SelectionOk(d, h.selections[d], s))
    && 1 <= |h.bindings| <= MAX_BINDINGS && BindingsValid(h, mode, s)
  }

  method Validate(h: History, mode: HistoryMode, s: Services) returns (ok: bool)
    ensures ok <==> Valid(h, mode, s)
  {
    hide SortedBy, NoRepeat, IsDigest, SelectionOk, PolicyOk, BindingOk, Lists;
    if mode.UnknownMode? { return false; }
    if |h.policies| == 0 || |h.policies| > MAX_POLICIES { return false; }
    ok := ValidatePolicies(h.policies, s);
    if !ok { return false; }
    if (mode.LegacySource? && |h.selections| != 0) || (mode.Bound? && |h.selections| == 0) || |h.selections| > MAX_SELECTIONS {
      return false;
    }
    ok := ValidateSelections(h.selections, s);
    if !ok { return false; }
    if |h.bindings| == 0 || |h.bindings| > MAX_BINDINGS { return false; }
    ok := ValidateBindings(h, mode, s);
  }

  method ValidatePolicies(policies: map<Bytes, Bytes>, s: Services) returns (ok: bool)
    ensures ok <==> (&& (forall d :: d in policies ==> PolicyOk(d, policies[d], s))
                     && TotalSize(SortedKeys(policies.Keys), policies) <= MAX_POLICY_TOTAL
                     && s.lineage(Values(SortedKeys(policies.Keys), policies)))
  {
    var total, parsed: seq<Bytes> := 0, [];
    var keys := SortKeys(policies);
    hide SortedBy, NoRepeat, IsDigest;
    for i := 0 to |keys|
      invariant total == TotalSize(keys[..i], policies) && parsed == Values(keys[..i], policies)
      invariant forall d :: d in keys[..i] ==> PolicyOk(d, policies[d], s)
    {
      var digest := keys[i];
      assert digest in keys && keys[..i + 1][..i] == keys[..i] && keys[..i + 1] == keys[..i] + [digest];
      var raw := policies[digest];
      total := total + |raw|;
      if !IsDigest(digest) || |raw| == 0 || |raw| > MAX_POLICY_BYTES || s.rawDigest(raw) != digest { return false; }
      if !s.canonicalPolicy(raw) { return false; }
      parsed := parsed + [raw];
    }
    assert keys[..|keys|] == keys;
    if total > MAX_POLICY_TOTAL { return false; }
    ok := s.lineage(parsed);
  }

  method ValidateSelections(selections: map<Bytes, Bytes>, s: Services) returns (ok: bool)
    ensures ok <==> forall d :: d in selections ==> SelectionOk(d, selections[d], s)
  {
    var keys := SortKeys(selections);
    hide SortedBy, NoRepeat, IsDigest, CanonicalSelector;
    for i := 0 to |keys|
      invariant forall d :: d in keys[..i] ==> SelectionOk(d, selections[d], s)
    {
      var digest := keys[i];
      assert digest in keys && keys[..i + 1] == keys[..i] + [digest];
      var raw := selections[digest];
      if !IsDigest(digest) || |raw| > MAX_SELECTOR_RAW { return false; }
      if CanonicalSelector(raw).None? { return false; }
      if s.selectionDigest(raw) != digest { return false; }
    }
    assert keys[..|keys|] == keys;
    ok := true;
  }

  /** The checks of one binding. */
  method ValidateBinding(digest: Bytes, b: Binding, h: History, mode: HistoryMode, s: Services) returns (ok: bool)
    ensures ok <==> BindingOk(digest, b, h, mode, s)
  {
    hide ValidBinding, BindingText, IsDigest;
    var canonical := Canonical(b);
    if canonical.None? { return false; }
    if |canonical.value| > MAX_BINDING_BYTES || s.bindingDigest(canonical.value) != digest { return false; }
    if b.policyDigest !in h.policies { return false; }
    if mode.LegacySource? && b.kind != UNSELECTED { return false; }
    if b.selectionDigest.Some? && b.selectionDigest.value !in h.selections { return false; }
    ok := true;
  }

  ghost predicate BindingsValid(h: History, mode: HistoryMode, s: Services) {
    && (forall d :: d in h.bindings ==> BindingOk(d, h.bindings[d], h, mode, s))
    && PoliciesUsed(h) == h.policies.Keys && SelectionsUsed(h) == h.selections.Keys
  }

  lemma UsedAreBound(h: History, mode: HistoryMode, s: Services)
    requires forall d :: d in h.bindings ==> BindingOk(d, h.bindings[d], h, mode, s)
    ensures PoliciesUsed(h) <= h.policies.Keys && SelectionsUsed(h) <= h.selections.Keys
  {
    hide ValidBinding, BindingText, IsDigest;
  }

  /** When every binding is fine, comparing counts decides whether everything is used. */
  lemma CountsDecide(ks: seq<Bytes>, h: History, mode: HistoryMode, s: Services)
    requires (forall k :: k in ks <==> k in h.bindings) && AllOk(ks, h, mode, s)
    ensures |PoliciesOf(ks, h.bindings)| == |h.policies| && |SelectionsOf(ks, h.bindings)| == |h.selections| <==> BindingsValid(h, mode, s)
  {
    AllBindings(ks, h, mode, s);
    hide BindingOk, PoliciesOf, SelectionsOf, PoliciesUsed, SelectionsUsed, AllOk;
    UsedAreBound(h, mode, s);
    SameCount(PoliciesUsed(h), h.policies.Keys);
    SameCount(SelectionsUsed(h), h.selections.Keys);
  }

  method ValidateBindings(h: History, mode: HistoryMode, s: Services) returns (ok: bool)
    ensures ok <==> BindingsValid(h, mode, s)
  {
    var usedPolicies: set<Bytes>, usedSelections: set<Bytes> := {}, {};
    var keys := SortKeys(h.bindings);
    NoBindings(h, mode, s);
    hide SortedBy, NoRepeat, BindingOk, PoliciesOf, SelectionsOf, AllOk;
    for i := 0 to |keys|
      invariant AllOk(keys[..i], h, mode, s)
      invariant usedPolicies == PoliciesOf(keys[..i], h.bindings) && usedSelections == SelectionsOf(keys[..i], h.bindings)
    {
      var digest := keys[i];
      assert digest in keys && keys[..i + 1] == keys[..i] + [digest];
      var b := h.bindings[digest];
      ok := ValidateBinding(digest, b, h, mode, s);
      if !ok { return; }
      hide BindingsValid;
      OneMoreBinding(keys[..i], digest, h, mode, s);
      usedPolicies := usedPolicies + {b.policyDigest};
      if b.selectionDigest.Some? {
        usedSelections := usedSelections + {b.selectionDigest.value};
      }
    }
    hide BindingsValid;
    assert keys[..|keys|] == keys;
    CountsDecide(keys, h, mode, s);
    ok := |usedPolicies| == |h.policies| && |usedSelections| == |h.selections|;
  }

  // The pre-image of the digest

  function Texts(bindings: map<Bytes, Binding>): map<Bytes, Bytes> {
    map d | d in bindings :: BindingText(bindings[d])
  }

  ghost function Preimage(h: History): Bytes {
    MapBytes(h.policies) + MapBytes(h.selections) + MapBytes(Texts(h.bindings))
  }

  /** Digest up to the hash: an error when some binding has no canonical text. */
  method DigestInput(h: History) returns (r: Option<Bytes>)
    ensures r == if forall d :: d in h.bindings ==> ValidBinding(h.bindings[d]) then Some(Preimage(h)) else None
  {
    hide ValidBinding, BindingText, MapBytes;
    var out := AppendHistoryMap([], h.policies);
    out := AppendHistoryMap(out, h.selections);
    var texts: map<Bytes, Bytes> := map[];
    var rest := h.bindings.Keys;
    while rest != {}
      invariant rest <= h.bindings.Keys && texts.Keys == h.bindings.Keys - rest
      invariant forall d :: d in texts ==> ValidBinding(h.bindings[d]) && texts[d] == BindingText(h.bindings[d])
      decreases |rest|
    {
      var d :| d in rest;
      var canonical := Canonical(h.bindings[d]);
      if canonical.None? { return None; }
      texts, rest := texts[d := canonical.value], rest - {d};
    }
    assert texts == Texts(h.bindings);
    assert [] + MapBytes(h.policies) == MapBytes(h.policies);
    out := AppendHistoryMap(out, texts);
    r := Some(out);
  }

  lemma ByDigest(d: Bytes)
    requires IsDigest(d)
    ensures |d| == 64
  {
  }

  lemma PoliciesFixedWidth(h: History, mode: HistoryMode, s: Services)
    requires Valid(h, mode, s)
    ensures FixedWidth(h.policies) && FixedWidth(h.selections)
  {
    hide IsDigest, CanonicalSelector, TotalSize, SortedBy, BindingOk, Values, PoliciesUsed, SelectionsUsed;
    forall d | d in h.policies
      ensures |d| == 64 && |h.policies[d]| < WIDTH
    {
      assert PolicyOk(d, h.policies[d], s);
      ByDigest(d);
    }
    forall d | d in h.selections
      ensures |d| == 64 && |h.selections[d]| < WIDTH
    {
      assert SelectionOk(d, h.selections[d], s);
      ByDigest(d);
    }
  }

  lemma BindingsFixedWidth(h: History, mode: HistoryMode, s: Services)
    requires GivesDigests(s) && Valid(h, mode, s)
    ensures FixedWidth(Texts(h.bindings))
  {
    hide IsDigest, ValidBinding, BindingText, TotalSize, SortedBy, PolicyOk, SelectionOk, Values, PoliciesUsed, SelectionsUsed;
    var t := Texts(h.bindings);
    assert t.Keys == h.bindings.Keys;
    forall d | d in t
      ensures |d| == 64 && |t[d]| < WIDTH
    {
      assert BindingOk(d, h.bindings[d], h, mode, s);
      ByDigest(d);
    }
    assert |t| == |t.Keys| == |h.bindings.Keys| == |h.bindings|;
  }

  lemma TextsInjective(a: map<Bytes, Binding>, b: map<Bytes, Binding>)
    requires (forall d :: d in a ==> ValidBinding(a[d])) && (forall d :: d in b ==> ValidBinding(b[d])) && Texts(a) == Texts(b)
    ensures a == b
  {
    hide ValidBinding, BindingText;
    assert a.Keys == Texts(a).Keys == Texts(b).Keys == b.Keys;
    forall d | d in a
      ensures a[d] == b[d]
    {
      assert Texts(a)[d] == BindingText(a[d]) && Texts(b)[d] == BindingText(b[d]);
      SelectionTheorems.CanonicalInjective(a[d], b[d]);
    }
  }

  /** Valid histories with equal bytes before hashing are equal, whatever their modes. */
  lemma PreimageInjective(a: History, b: History, m: HistoryMode, n: HistoryMode, s: Services)
    requires GivesDigests(s) && Valid(a, m, s) && Valid(b, n, s) && Preimage(a) == Preimage(b)
    ensures a == b
  {
    PoliciesFixedWidth(a, m, s);
    PoliciesFixedWidth(b, n, s);
    BindingsFixedWidth(a, m, s);
    BindingsFixedWidth(b, n, s);
    AllBindingsValid(a, m, s);
    AllBindingsValid(b, n, s);
    hide Valid, MapBytes, FixedWidth, Texts, ValidBinding;
    var at, bt := MapBytes(Texts(a.bindings)), MapBytes(Texts(b.bindings));
    Assoc(MapBytes(a.policies), MapBytes(a.selections), at);
    Assoc(MapBytes(b.policies), MapBytes(b.selections), bt);
    MapDecodes(a.policies, MapBytes(a.selections) + at, b.policies, MapBytes(b.selections) + bt);
    MapDecodes(a.selections, at, b.selections, bt);
    assert at + [] == bt + [];
    MapDecodes(Texts(a.bindings), [], Texts(b.bindings), []);
    TextsInjective(a.bindings, b.bindings);
  }

  lemma AllBindingsValid(h: History, mode: HistoryMode, s: Services)
    requires Valid(h, mode, s)
    ensures forall d :: d in h.bindings ==> ValidBinding(h.bindings[d])
  {
    hide ValidBinding, BindingText, CanonicalSelector, IsDigest, SortedBy, TotalSize, Values;
    forall d | d in h.bindings
      ensures ValidBinding(h.bindings[d])
    {
      assert BindingOk(d, h.bindings[d], h, mode, s);
    }
  }

  // Extension

  ghost predicate Extends(source: History, target: History) {
    && (forall d :: d in source.policies ==> d in target.policies && target.policies[d] == source.policies[d])
    && (forall d :: d in source.selections ==> d in target.selections && target.selections[d] == source.selections[d])
    && (forall d :: d in source.bindings ==> d in target.bindings && target.bindings[d] == source.bindings[d])
  }

  method KeepsEntries(source: map<Bytes, Bytes>, target: map<Bytes, Bytes>) returns (ok: bool)
    ensures ok <==> forall d :: d in source ==> d in target && target[d] == source[d]
  {
    var rest := source.Keys;
    while rest != {}
      invariant rest <= source.Keys
      invariant forall d :: d in source.Keys - rest ==> d in target && target[d] == source[d]
      decreases |rest|
    {
      var d :| d in rest;
      if d !in target || target[d] != source[d] { return false; }
      rest := rest - {d};
    }
    ok := true;
  }

  /**
   * A binding the target may hold for b. Bindings are compared by their canonical
   * texts, and the texts of any two invalid bindings are both missing.
   */
  predicate Interchangeable(b: Binding, c: Binding) {
    c == b || (!ValidBinding(b) && !ValidBinding(c))
  }

  ghost predicate KeepsBindings(source: map<Bytes, Binding>, target: map<Bytes, Binding>) {
    forall d :: d in source ==> d in target && Interchangeable(source[d], target[d])
  }

  lemma SameTextInterchangeable(b: Binding, c: Binding)
    ensures Canonical(b) == Canonical(c) <==> Interchangeable(b, c)
  {
    hide ValidBinding, BindingText;
    if ValidBinding(b) && Canonical(b) == Canonical(c) {
      SelectionTheorems.CanonicalInjective(b, c);
    }
  }

  /** ValidateHistoryExtension, which drops the errors of Canonical. */
  method ValidateHistoryExtension(source: History, target: History) returns (ok: bool)
    ensures ok <==>
      && (forall d :: d in source.policies ==> d in target.policies && target.policies[d] == source.policies[d])
      && (forall d :: d in source.selections ==> d in target.selections && target.selections[d] == source.selections[d])
      && KeepsBindings(source.bindings, target.bindings)
  {
    hide Interchangeable, Canonical;
    ok := KeepsEntries(source.policies, target.policies);
    if !ok { return; }
    ok := KeepsEntries(source.selections, target.selections);
    if !ok { return; }
    var rest := source.bindings.Keys;
    while rest != {}
      invariant rest <= source.bindings.Keys
      invariant forall d :: d in source.bindings.Keys - rest ==>
        d in target.bindings && Interchangeable(source.bindings[d], target.bindings[d])
      decreases |rest|
    {
      var d :| d in rest;
      if d !in target.bindings { return false; }
      var want, have := Canonical(source.bindings[d]), Canonical(target.bindings[d]);
      SameTextInterchangeable(source.bindings[d], target.bindings[d]);
      if want != have { return false; }
      rest := rest - {d};
    }
  }

  /**
   * The promise that no source entry is altered is kept exactly when no invalid
   * source binding stands against a different invalid one.
   */
  lemma KeepsBindingsExactly(source: map<Bytes, Binding>, target: map<Bytes, Binding>)
    requires KeepsBindings(source, target)
    ensures (forall d :: d in source ==> target[d] == source[d]) <==>
      forall d :: d in source && !ValidBinding(source[d]) ==> target[d] == source[d]
  {
    hide ValidBinding;
  }

  /** In particular, when the source bindings are valid. */
  lemma ValidSourceIsKept(source: History, target: History)
    requires forall d :: d in source.bindings ==> ValidBinding(source.bindings[d])
    ensures
      Extends(source, target) <==>
      && (forall d :: d in source.policies ==> d in target.policies && target.policies[d] == source.policies[d])
      && (forall d :: d in source.selections ==> d in target.selections && target.selections[d] == source.selections[d])
      && KeepsBindings(source.bindings, target.bindings)
  {
    hide ValidBinding;
  }

  /** It is broken for two invalid bindings, here without a policy digest, under one key. */
  lemma InvalidBindingReplaced(d: Bytes)
    ensures
      var b, c := Binding(UNSELECTED, [], None), Binding(SELECTED, [], None);
      var source, target := History(map[], map[], map[d := b]), History(map[], map[], map[d := c]);
      KeepsBindings(source.bindings, target.bindings) && !Extends(source, target)
  {
    var b, c := Binding(UNSELECTED, [], None), Binding(SELECTED, [], None);
    assert !ValidBinding(b) && !ValidBinding(c);
    assert map[d := b][d] != map[d := c][d];
  }

  // The history of a legacy source

  function Unselected(policy: Bytes): Binding {
    Binding(UNSELECTED, policy, None)
  }

  /** The digest under which the unselected binding of a policy is kept. */
  function LegacyKey(raw: Bytes, s: Services): Bytes {
    s.bindingDigest(BindingText(Unselected(s.rawDigest(raw))))
  }

  /** Every policy under its digest, each with an unselected binding, and nothing else. */
  ghost predicate IsLegacy(h: History, policies: seq<Bytes>, s: Services) {
    && h.selections == map[]
    && (forall raw :: raw in policies ==> s.rawDigest(raw) in h.policies && h.policies[s.rawDigest(raw)] == raw)
    && (forall d :: d in h.policies ==> h.policies[d] in policies && s.rawDigest(h.policies[d]) == d)
    && (forall raw :: raw in policies ==> LegacyKey(raw, s) in h.bindings)
    && (forall d :: d in h.bindings ==> FromPolicy(d, h.bindings[d], policies, s))
  }

  ghost predicate FromPolicy(d: Bytes, b: Binding, policies: seq<Bytes>, s: Services) {
    exists raw :: raw in policies && b == Unselected(s.rawDigest(raw)) && d == LegacyKey(raw, s)
  }

  /** ValidateCurrent without a demand for a selection. */
  predicate IsCurrent(h: History, binding: Bytes, policy: Bytes) {
    binding in h.bindings && h.bindings[binding].policyDigest == policy
  }

  ghost predicate Collides(policies: seq<Bytes>, s: Services) {
    exists a, b :: a in policies && b in policies && a != b && s.rawDigest(a) == s.rawDigest(b)
  }

  lemma FromMorePolicies(policies: seq<Bytes>, raw: Bytes, s: Services)
    ensures forall d, b :: FromPolicy(d, b, policies, s) ==> FromPolicy(d, b, policies + [raw], s)
    ensures FromPolicy(LegacyKey(raw, s), Unselected(s.rawDigest(raw)), policies + [raw], s)
  {
    hide LegacyKey, Unselected;
    assert (policies + [raw])[|policies|] == raw;
  }

  lemma LegacyStep(h: History, policies: seq<Bytes>, raw: Bytes, s: Services)
    requires IsLegacy(h, policies, s) && (s.rawDigest(raw) in h.policies ==> h.policies[s.rawDigest(raw)] == raw)
    ensures IsLegacy(History(h.policies[s.rawDigest(raw) := raw], h.selections,
                             h.bindings[LegacyKey(raw, s) := Unselected(s.rawDigest(raw))]), policies + [raw], s)
  {
    hide LegacyKey, Unselected, FromPolicy;
    var more := policies + [raw];
    assert forall x :: x in more <==> x in policies || x == raw;
    FromMorePolicies(policies, raw, s);
  }

  /**
   * LegacySourceHistory: one unselected binding for every policy. It refuses
   * colliding digests, an invalid result, and an active policy without binding.
   */
  method LegacySourceHistory(policies: seq<Bytes>, active: Bytes, s: Services) returns (r: Option<(History, Bytes)>)
    requires GivesDigests(s)
    ensures r.Some? ==>
              && IsLegacy(r.value.0, policies, s) && Valid(r.value.0, LegacySource, s)
              && IsDigest(active) && r.value.1 == s.bindingDigest(BindingText(Unselected(active))) && IsCurrent(r.value.0, r.value.1, active)
    ensures r.None? ==>
              Collides(policies, s) || !IsDigest(active) ||
              exists h :: IsLegacy(h, policies, s) &&
                !(Valid(h, LegacySource, s) && IsCurrent(h, s.bindingDigest(BindingText(Unselected(active))), active))
  {
    hide Valid, BindingText, IsLegacy, IsDigest, LegacyKey;
    var h := History(map[], map[], map[]);
    NothingYet(s);
    for i := 0 to |policies|
      invariant IsLegacy(h, policies[..i], s)
    {
      var raw := policies[i];
      var digest := s.rawDigest(raw);
      assert policies[..i + 1] == policies[..i] + [raw];
      if digest in h.policies && h.policies[digest] != raw {
        CollisionFound(h, policies, i, s);
        return None;
      }
      LegacyStep(h, policies[..i], raw, s);
      assert ValidBinding(Unselected(digest));
      h := History(h.policies[digest := raw], h.selections, h.bindings[LegacyKey(raw, s) := Unselected(digest)]);
    }
    assert policies[..|policies|] == policies;
    var ok := Validate(h, LegacySource, s);
    if !ok { return None; }
    if Canonical(Unselected(active)).None? { return None; }
    var current := s.bindingDigest(BindingText(Unselected(active)));
    if !IsCurrent(h, current, active) { return None; }
    r := Some((h, current));
  }

  lemma NothingYet(s: Services)
    ensures IsLegacy(History(map[], map[], map[]), [], s)
  {
  }

  lemma CollisionFound(h: History, policies: seq<Bytes>, i: nat, s: Services)
    requires i < |policies| && IsLegacy(h, policies[..i], s)
    requires s.rawDigest(policies[i]) in h.policies && h.policies[s.rawDigest(policies[i])] != policies[i]
    ensures Collides(policies, s)
  {
    hide LegacyKey;
    var other := h.policies[s.rawDigest(policies[i])];
    assert other in policies[..i] && other in policies && policies[i] in policies;
  }

  lemma EveryPolicyIsUsed(h: History, mode: HistoryMode, s: Services)
    requires Valid(h, mode, s)
    ensures PoliciesUsed(h) == h.policies.Keys
  {
    hide TotalSize, Values, IsDigest, SortedBy, PolicyOk, SelectionOk, BindingOk, SelectionsUsed, PoliciesUsed;
  }

  lemma OwnBinding(h: History, policies: seq<Bytes>, raw: Bytes, s: Services)
    requires IsLegacy(h, policies, s) && Valid(h, LegacySource, s) && raw in policies
    ensures LegacyKey(raw, s) in h.bindings && h.bindings[LegacyKey(raw, s)] == Unselected(s.rawDigest(raw))
  {
    hide Valid, BindingText;
    EveryPolicyIsUsed(h, LegacySource, s);
    var d := s.rawDigest(raw);
    assert d in PoliciesUsed(h);
    var k :| k in h.bindings && h.bindings[k].policyDigest == d;
    assert FromPolicy(k, h.bindings[k], policies, s);
  }

  /** The order of the policies, and repeats among them, leave no trace. */
  lemma LegacyIsDetermined(g: History, h: History, a: seq<Bytes>, b: seq<Bytes>, s: Services)
    requires (forall x :: x in a <==> x in b) && IsLegacy(g, a, s) && IsLegacy(h, b, s)
    requires Valid(g, LegacySource, s) && Valid(h, LegacySource, s)
    ensures g == h
  {
    hide Valid, LegacyKey, Unselected;
    assert g.policies == h.policies;
    forall d
      ensures (d in g.bindings <==> d in h.bindings) && (d in g.bindings ==> g.bindings[d] == h.bindings[d])
    {
      if d in g.bindings {
        var raw :| raw in a && g.bindings[d] == Unselected(s.rawDigest(raw)) && d == LegacyKey(raw, s);
        OwnBinding(h, b, raw, s);
      }
      if d in h.bindings {
        var raw :| raw in b && h.bindings[d] == Unselected(s.rawDigest(raw)) && d == LegacyKey(raw, s);
        OwnBinding(g, a, raw, s);
      }
    }
    assert g.bindings == h.bindings;
  }
}
