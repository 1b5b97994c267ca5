/** Digests, canonical texts and valid histories of the role protocol, in plain terms. */
module HistoryMeaning {
  import opened Wrappers
  import opened Bytes
  import opened JsonSpec
  import opened Selection
  import opened H = History

  /** The bytes are these characters. */
  predicate Says(s: Bytes, text: string) {
    |s| == |text| && forall i :: 0 <= i < |s| ==> s[i] as char == text[i]
  }

  lemma DigestMeans(s: Bytes)
    ensures IsDigest(s) <==> |s| == 64 && forall i :: 0 <= i < |s| ==> s[i] as char in "0123456789abcdef"
  {
    forall c: Byte
      ensures IsDigit(c) || 0x61 <= c <= 0x66 <==> c as char in "0123456789abcdef"
    {
    }
  }

  // Canonical texts

  /** The text of a binding, part by part. */
  lemma BindingSpelled(b: Binding)
    requires ValidBinding(b)
    ensures if b.selectionDigest.Some? then Says(b.kind, "selected") else Says(b.kind, "unselected")
    ensures Says(TEXT_KIND, "{\"kind\":\"") && Says(TEXT_POLICY, "\",\"policyDigest\":\"")
    ensures Says(TEXT_SELECTION, "\",\"selectionDigest\":") && Says(TEXT_CLOSE, "}") && Says(NULL, "null")
    ensures BindingText(b) == TEXT_KIND + b.kind + TEXT_POLICY + b.policyDigest + TEXT_SELECTION
      + (match b.selectionDigest case None => NULL case Some(d) => ['"' as int] + d + ['"' as int]) + TEXT_CLOSE
  {
  }

  /** The text of a selector, part by part. */
  lemma SelectorSpelled(x: Selector)
    ensures ValidSelector(x) <==>
      (Says(x.baseProfile, "section-9") || Says(x.baseProfile, "section-10")) && (Says(x.amendment, "none") || Says(x.amendment, "section-11"))
    ensures Says(TEXT_CONTRACT, "{\"contract\":\"") && Says(SELECTION_V1, "task-manager:role-selection:v1")
    ensures Says(TEXT_BASE, "\",\"baseProfile\":\"") && Says(TEXT_AMENDMENT, "\",\"amendment\":\"") && Says(TEXT_END, "\"}")
    ensures SelectorText(x) == TEXT_CONTRACT + SELECTION_V1 + TEXT_BASE + x.baseProfile + TEXT_AMENDMENT + x.amendment + TEXT_END
  {
  }

  // Decoding

  /** A node without repeated keys decodes to a binding exactly when it is the object of its three members in order. */
  lemma BindingDecodesExactly(n: Node, b: Binding)
    requires n.Object? ==> forall i, j :: 0 <= i < j < |n.members| ==> n.members[i].key != n.members[j].key
    ensures DecodeBinding(n) == Some(b) <==>
      && ValidBinding(b) && n.Object? && |n.members| == 3
      && Says(n.members[0].key, "kind") && n.members[0].value.Str? && n.members[0].value.s == b.kind
      && Says(n.members[1].key, "policyDigest") && n.members[1].value.Str? && n.members[1].value.s == b.policyDigest
      && Says(n.members[2].key, "selectionDigest")
      && (match b.selectionDigest
          case None => n.members[2].value.Null?
          case Some(d) => n.members[2].value.Str? && n.members[2].value.s == d)
  {
    KeysSpelled();
    hide Says, IsDigest;
    if DecodeBinding(n).Some? {
      OnlyThree(n);
    }
    if n.Object? && |n.members| == 3 && n.members[0].key == KIND && n.members[1].key == POLICY && n.members[2].key == SELECTION {
      assert HasKey(n, KIND) && HasKey(n, POLICY) && HasKey(n, SELECTION);
      FieldAt(n, 0);
      FieldAt(n, 1);
      FieldAt(n, 2);
    }
  }

  lemma KeysSpelled()
    ensures forall k :: (k == KIND <==> Says(k, "kind")) && (k == POLICY <==> Says(k, "policyDigest"))
    ensures forall k :: k == SELECTION <==> Says(k, "selectionDigest")
  {
  }

  lemma OnlyThree(n: Node)
    requires DecodeBinding(n).Some? && forall i, j :: 0 <= i < j < |n.members| ==> n.members[i].key != n.members[j].key
    ensures n.Object? && |n.members| == 3
    ensures n.members[0].key == KIND && n.members[1].key == POLICY && n.members[2].key == SELECTION
  {
    ThreeKeys(n);
    if |n.members| > 3 {
      KeyIsNamed(n, 3);
    }
  }

  lemma KeyIsNamed(n: Node, i: nat)
    requires Closed(n, [KIND, POLICY, SELECTION]) && i < |n.members|
    ensures n.members[i].key == KIND || n.members[i].key == POLICY || n.members[i].key == SELECTION
  {
    assert n.members[i].key in [KIND, POLICY, SELECTION];
  }

  lemma FieldAt(n: Node, i: nat)
    requires n.Object? && i < |n.members| && forall i, j :: 0 <= i < j < |n.members| ==> n.members[i].key != n.members[j].key
    ensures Field(n, n.members[i].key) == n.members[i].value
  {
    var m := Member(n.members[i].key, Field(n, n.members[i].key));
    var j :| 0 <= j < |n.members| && n.members[j] == m;
  }

  // Histories

  /** Every policy under its own digest, within its size, and used by some binding. */
  ghost predicate PoliciesKept(h: History, s: Services) {
    forall d :: d in h.policies ==>
      && IsDigest(d) && s.rawDigest(h.policies[d]) == d && s.canonicalPolicy(h.policies[d]) && 1 <= |h.policies[d]| <= 65536
      && exists k :: k in h.bindings && h.bindings[k].policyDigest == d
  }

  ghost predicate SelectionsKept(h: History, s: Services) {
    forall d :: d in h.selections ==>
      && IsDigest(d) && s.selectionDigest(h.selections[d]) == d && CanonicalSelector(h.selections[d]).Some? && |h.selections[d]| <= 4096
      && exists k :: k in h.bindings && h.bindings[k].selectionDigest == Some(d)
  }

  /** Every binding under its own digest, between a policy and perhaps a selection that are there. */
  ghost predicate BindingsKept(h: History, s: Services) {
    forall k :: k in h.bindings ==>
      var b := h.bindings[k];
      && ValidBinding(b) && |BindingText(b)| <= 512 && s.bindingDigest(BindingText(b)) == k
      && b.policyDigest in h.policies && (b.selectionDigest.Some? ==> b.selectionDigest.value in h.selections)
  }

  /** A valid history, in plain terms; a legacy one holds no selections, a bound one at least one. */
  lemma ValidMeans(h: History, mode: HistoryMode, s: Services)
    ensures Valid(h, mode, s) <==>
      && PoliciesKept(h, s) && SelectionsKept(h, s) && BindingsKept(h, s)
      && 1 <= |h.policies| <= 128 && |h.selections| <= 4 && 1 <= |h.bindings| <= 640
      && TotalSize(SortedKeys(h.policies.Keys), h.policies) <= 524288
      && s.lineage(Values(SortedKeys(h.policies.Keys), h.policies))
      && !mode.UnknownMode? && (mode.LegacySource? ==> h.selections == map[]) && (mode.Bound? ==> h.selections != map[])
  {
    hide Valid, PoliciesKept, SelectionsKept, BindingsKept;
    if Valid(h, mode, s) {
      ValidIsKept(h, mode, s);
    }
    if && PoliciesKept(h, s) && SelectionsKept(h, s) && BindingsKept(h, s)
       && 1 <= |h.policies| <= 128 && |h.selections| <= 4 && 1 <= |h.bindings| <= 640
       && TotalSize(SortedKeys(h.policies.Keys), h.policies) <= 524288
       && s.lineage(Values(SortedKeys(h.policies.Keys), h.policies))
       && !mode.UnknownMode? && (mode.LegacySource? ==> h.selections == map[]) && (mode.Bound? ==> h.selections != map[])
    {
      KeptIsValid(h, mode, s);
    }
  }

  lemma UsedMeans(h: History)
    ensures forall d :: d in PoliciesUsed(h) <==> exists k :: k in h.bindings && h.bindings[k].policyDigest == d
    ensures forall d :: d in SelectionsUsed(h) <==> exists k :: k in h.bindings && h.bindings[k].selectionDigest == Some(d)
  {
  }

  lemma EmptyMap<T, U>(m: map<T, U>)
    ensures |m| == 0 <==> m == map[]
  {
    if |m| == 0 {
      assert m.Keys == {};
    }
  }

  lemma ValidIsKept(h: History, mode: HistoryMode, s: Services)
    requires Valid(h, mode, s)
    ensures PoliciesKept(h, s) && SelectionsKept(h, s) && BindingsKept(h, s)
    ensures 1 <= |h.policies| <= 128 && |h.selections| <= 4 && 1 <= |h.bindings| <= 640
    ensures TotalSize(SortedKeys(h.policies.Keys), h.policies) <= 524288
    ensures s.lineage(Values(SortedKeys(h.policies.Keys), h.policies))
    ensures !mode.UnknownMode? && (mode.LegacySource? ==> h.selections == map[]) && (mode.Bound? ==> h.selections != map[])
  {
    hide IsDigest, CanonicalSelector, BindingText, TotalSize, Values, SortedKeys, PoliciesUsed, SelectionsUsed;
    hide PolicyOk, SelectionOk, BindingOk, PoliciesKept, SelectionsKept, BindingsKept;
    EmptyMap(h.selections);
    PoliciesStand(h, s);
    SelectionsStand(h, s);
    BindingsStand(h, mode, s);
  }

  lemma PoliciesStand(h: History, s: Services)
    ensures (forall d :: d in h.policies ==> PolicyOk(d, h.policies[d], s)) && h.policies.Keys <= PoliciesUsed(h) <==> PoliciesKept(h, s)
  {
    UsedMeans(h);
    hide IsDigest, PoliciesUsed;
    assert h.policies.Keys <= PoliciesUsed(h) <==> forall d :: d in h.policies ==> d in PoliciesUsed(h);
  }

  lemma SelectionsStand(h: History, s: Services)
    ensures (forall d :: d in h.selections ==> SelectionOk(d, h.selections[d], s)) && h.selections.Keys <= SelectionsUsed(h) <==>
      SelectionsKept(h, s)
  {
    UsedMeans(h);
    hide IsDigest, CanonicalSelector, SelectionsUsed;
    assert h.selections.Keys <= SelectionsUsed(h) <==> forall d :: d in h.selections ==> d in SelectionsUsed(h);
  }

  lemma BindingsStand(h: History, mode: HistoryMode, s: Services)
    requires mode.LegacySource? ==> h.selections == map[]
    ensures (forall k :: k in h.bindings ==> BindingOk(k, h.bindings[k], h, mode, s)) <==> BindingsKept(h, s)
  {
    hide IsDigest, BindingText;
  }

  lemma KeptIsValid(h: History, mode: HistoryMode, s: Services)
    requires PoliciesKept(h, s) && SelectionsKept(h, s) && BindingsKept(h, s)
    requires 1 <= |h.policies| <= 128 && |h.selections| <= 4 && 1 <= |h.bindings| <= 640
    requires TotalSize(SortedKeys(h.policies.Keys), h.policies) <= 524288
    requires s.lineage(Values(SortedKeys(h.policies.Keys), h.policies))
    requires !mode.UnknownMode? && (mode.LegacySource? ==> h.selections == map[]) && (mode.Bound? ==> h.selections != map[])
    ensures Valid(h, mode, s)
  {
    hide IsDigest, CanonicalSelector, BindingText, TotalSize, Values, SortedKeys, PoliciesUsed, SelectionsUsed;
    hide PolicyOk, SelectionOk, BindingOk, PoliciesKept, SelectionsKept, BindingsKept;
    EmptyMap(h.selections);
    PoliciesStand(h, s);
    SelectionsStand(h, s);
    BindingsStand(h, mode, s);
    UsedAreBound(h, mode, s);
  }
}
