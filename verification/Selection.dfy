/**
 * Bindings and selectors of internal/roleprotocol/selection.go: the closed
 * objects of fields.go, the fixed canonical texts, and decoding.
 */
module Selection {
  import opened Wrappers
  import opened Bytes
  import opened JsonSpec

  predicate IsLowerHex(s: Bytes, n: nat) {
    |s| == n && forall i :: 0 <= i < n ==> IsDigit(s[i]) || 0x61 <= s[i] <= 0x66
  }

  predicate IsDigest(s: Bytes) {
    IsLowerHex(s, 64)
  }

  // Closed objects

  predicate HasKey(n: Node, key: Bytes) {
    n.Object? && exists i :: 0 <= i < |n.members| && n.members[i].key == key
  }

  /** fields: an object with every listed key and no other. */
  predicate Closed(n: Node, names: seq<Bytes>) {
    && n.Object?
    && (forall k :: k in names ==> HasKey(n, k))
    && (forall i :: 0 <= i < |n.members| ==> n.members[i].key in names)
  }

  /** The member map of an object: a repeated key, which no parsed object has, keeps the last value. */
  function Field(n: Node, key: Bytes): (v: Node)
    requires HasKey(n, key)
    ensures Member(key, v) in n.members
  {
    Last(n.members, key)
  }

  function Last(ms: seq<Member>, key: Bytes): (v: Node)
    requires exists i :: 0 <= i < |ms| && ms[i].key == key
    ensures Member(key, v) in ms
  {
    if ms[|ms| - 1].key == key then ms[|ms| - 1].value
    else
      assert forall i :: 0 <= i < |ms| - 1 ==> ms[..|ms| - 1][i] == ms[i];
      Last(ms[..|ms| - 1], key)
  }

  function EnumValue(n: Node, allowed: seq<Bytes>): Option<Bytes> {
    if n.Str? && n.s in allowed then Some(n.s) else None
  }

  function DigestValue(n: Node): Option<Bytes> {
    if n.Str? && IsDigest(n.s) then Some(n.s) else None
  }

  function NullableDigest(n: Node): Option<Option<Bytes>> {
    if n.Null? then Some(None)
    else if DigestValue(n).Some? then Some(DigestValue(n))
    else None
  }

  // Bindings

  const KIND := Ascii("kind")
  const POLICY := Ascii("policyDigest")
  const SELECTION := Ascii("selectionDigest")
  const SELECTED := Ascii("selected")
  const UNSELECTED := Ascii("unselected")

  datatype Binding = Binding(kind: Bytes, policyDigest: Bytes, selectionDigest: Option<Bytes>)

  predicate ValidBinding(b: Binding) {
    && IsDigest(b.policyDigest)
    && (b.kind == SELECTED || b.kind == UNSELECTED)
    && (b.kind == SELECTED ==> b.selectionDigest.Some? && IsDigest(b.selectionDigest.value))
    && (b.kind == UNSELECTED ==> b.selectionDigest.None?)
  }

  /** Canonical: the fixed text, or an error for an invalid binding. */
  function Canonical(b: Binding): Option<Bytes> {
    if ValidBinding(b) then Some(BindingText(b)) else None
  }

  function Quote(s: Bytes): Bytes {
    [0x22] + s + [0x22]
  }

  const TEXT_KIND := Ascii("{\"kind\":\"")
  const TEXT_POLICY := Ascii("\",\"policyDigest\":\"")
  const TEXT_SELECTION := Ascii("\",\"selectionDigest\":")
  const TEXT_CLOSE := Ascii("}")

  function BindingText(b: Binding): Bytes {
    TEXT_KIND + b.kind + TEXT_POLICY + b.policyDigest + TEXT_SELECTION
    + (if b.selectionDigest.Some? then Quote(b.selectionDigest.value) else NULL) + TEXT_CLOSE
  }

  lemma BindingNames()
    ensures KIND != POLICY && KIND != SELECTION && POLICY != SELECTION && SELECTED != UNSELECTED
  {
    assert |KIND| == 4 && |POLICY| == 12 && |SELECTION| == 15 && |SELECTED| == 8 && |UNSELECTED| == 10;
  }

  lemma ThreeKeys(n: Node)
    requires Closed(n, [KIND, POLICY, SELECTION])
    ensures |n.members| >= 3
  {
    BindingNames();
    var names := [KIND, POLICY, SELECTION];
    assert names[0] in names && names[1] in names && names[2] in names;
    var i :| 0 <= i < |n.members| && n.members[i].key == KIND;
    var j :| 0 <= j < |n.members| && n.members[j].key == POLICY;
    var k :| 0 <= k < |n.members| && n.members[k].key == SELECTION;
    assert i != j && j != k && i != k;
  }

  function DecodeBinding(n: Node): Option<Binding> {
    if !Closed(n, [KIND, POLICY, SELECTION]) then None
    else
      ThreeKeys(n);
      if n.members[0].key != KIND || n.members[1].key != POLICY || n.members[2].key != SELECTION then None
      else
        assert HasKey(n, KIND) && HasKey(n, POLICY) && HasKey(n, SELECTION);
        var kind := EnumValue(Field(n, KIND), [SELECTED, UNSELECTED]);
        var policy := DigestValue(Field(n, POLICY));
        var selection := NullableDigest(Field(n, SELECTION));
        if kind.None? || policy.None? || selection.None? then None
        else
          var b := Binding(kind.value, policy.value, selection.value);
          if ValidBinding(b) then Some(b) else None
  }

  // Selectors

  const CONTRACT := Ascii("contract")
  const BASE := Ascii("baseProfile")
  const AMENDMENT := Ascii("amendment")
  const SELECTION_V1 := Ascii("task-manager:role-selection:v1")
  const SECTION_9 := Ascii("section-9")
  const SECTION_10 := Ascii("section-10")
  const SECTION_11 := Ascii("section-11")
  const NONE := Ascii("none")
  const MAX_SELECTOR_BYTES := 65536

  datatype Selector = Selector(baseProfile: Bytes, amendment: Bytes)

  predicate ValidSelector(s: Selector) {
    (s.baseProfile == SECTION_9 || s.baseProfile == SECTION_10) && (s.amendment == NONE || s.amendment == SECTION_11)
  }

  const TEXT_CONTRACT := Ascii("{\"contract\":\"")
  const TEXT_BASE := Ascii("\",\"baseProfile\":\"")
  const TEXT_AMENDMENT := Ascii("\",\"amendment\":\"")
  const TEXT_END := Ascii("\"}")

  function SelectorText(s: Selector): Bytes {
    TEXT_CONTRACT + SELECTION_V1 + TEXT_BASE + s.baseProfile + TEXT_AMENDMENT + s.amendment + TEXT_END
  }

  function DecodeSelector(n: Node): (r: Option<Selector>)
    ensures r.Some? ==> ValidSelector(r.value)
  {
    if !Closed(n, [CONTRACT, BASE, AMENDMENT]) then None
    else
      assert [CONTRACT, BASE, AMENDMENT][0] == CONTRACT && [CONTRACT, BASE, AMENDMENT][1] == BASE
          && [CONTRACT, BASE, AMENDMENT][2] == AMENDMENT;
      assert HasKey(n, CONTRACT) && HasKey(n, BASE) && HasKey(n, AMENDMENT);
      var contract := EnumValue(Field(n, CONTRACT), [SELECTION_V1]);
      var base := EnumValue(Field(n, BASE), [SECTION_9, SECTION_10]);
      var amendment := EnumValue(Field(n, AMENDMENT), [NONE, SECTION_11]);
      if contract.None? || base.None? || amendment.None? then None
      else Some(Selector(base.value, amendment.value))
  }

  /** Only bytes that already are a canonical selector. */
  function CanonicalSelector(raw: Bytes): Option<Selector> {
    var n := ParseJson(raw, MAX_SELECTOR_BYTES);
    if n.None? || DecodeSelector(n.value).None? then None
    else
      var s := DecodeSelector(n.value).value;
      if SelectorText(s) == raw then Some(s) else None
  }
}
