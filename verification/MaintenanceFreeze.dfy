/**
 * Freezing a plan (internal/boardruntime/maintenance_decode.go): copy, sort,
 * rewrite the unknown fields, validate. The sorts are not stable, so
 * canonicalizing is a relation: any sorted permutation may come out.
 */
module MaintenanceFreeze {
  import opened Wrappers
  import opened Text
  import opened Sorting
  import opened Paths
  import opened MaintenancePlan
  import opened MaintenanceValidator

  /** canonicalRaw: the canonical spelling of a raw JSON value, or a refusal. */
  type Spelling = string -> Option<string>

  ghost predicate Idempotent(raw: Spelling) {
    forall x :: raw(x).Some? ==> raw(raw(x).value) == raw(x)
  }

  predicate UnknownOk(raw: Spelling, c: Card) {
    forall k :: k in c.unknown ==> raw(c.unknown[k]).Some?
  }

  function Respell(raw: Spelling, m: map<string, string>): map<string, string> {
    map k | k in m :: match raw(m[k]) case Some(v) => v case None => m[k]
  }

  // One file, one card

  function SortRefs(f: File): File {
    f.(references := SortStrings(f.references))
  }

  function Tidy(raw: Spelling, c: Card): Card {
    c.(dependencies := SortStrings(c.dependencies), unknown := Respell(raw, c.unknown))
  }

  function Tidier(raw: Spelling): Card -> Card {
    (c: Card) => Tidy(raw, c)
  }

  function FilePath(f: File): string { f.path }

  function MappingFrom(m: Mapping): string { m.from }

  function CardId(c: Card): string { c.identity }

  // The whole plan

  ghost predicate Canonical(raw: Spelling, p: Plan, q: Plan) {
    && (forall c :: c in p.beforeCards + p.afterCards ==> UnknownOk(raw, c))
    && SortOf(FilePath, Map(SortRefs, p.before), q.before)
    && SortOf(FilePath, Map(SortRefs, p.after), q.after)
    && SortOf(MappingFrom, p.mappings, q.mappings)
    && SortOf(CardId, Map(Tidier(raw), p.beforeCards), q.beforeCards)
    && SortOf(CardId, Map(Tidier(raw), p.afterCards), q.afterCards)
    && q == p.(before := q.before, after := q.after, mappings := q.mappings,
               beforeCards := q.beforeCards, afterCards := q.afterCards)
  }

  /** FreezePlan may answer q for p. */
  ghost predicate Freezes(raw: Spelling, lower: char -> char, p: Plan, q: Plan) {
    Canonical(raw, p, q) && Accepted(q, lower)
  }

  // Plans that differ in order only

  predicate SameFile(f: File, g: File) {
    f.(references := []) == g.(references := []) && multiset(f.references) == multiset(g.references)
  }

  predicate SameCard(c: Card, d: Card) {
    c.(dependencies := []) == d.(dependencies := []) && multiset(c.dependencies) == multiset(d.dependencies)
  }

  ghost predicate FilesReordered(a: seq<File>, b: seq<File>) {
    exists mid: seq<File> :: multiset(mid) == multiset(a) && |mid| == |b| && forall i :: 0 <= i < |b| ==> SameFile(mid[i], b[i])
  }

  ghost predicate CardsReordered(a: seq<Card>, b: seq<Card>) {
    exists mid: seq<Card> :: multiset(mid) == multiset(a) && |mid| == |b| && forall i :: 0 <= i < |b| ==> SameCard(mid[i], b[i])
  }

  /** Files, mappings, cards, references and dependencies in any other order. */
  ghost predicate Reordered(p: Plan, q: Plan) {
    && FilesReordered(p.before, q.before) && FilesReordered(p.after, q.after)
    && multiset(p.mappings) == multiset(q.mappings)
    && CardsReordered(p.beforeCards, q.beforeCards) && CardsReordered(p.afterCards, q.afterCards)
    && q == p.(before := q.before, after := q.after, mappings := q.mappings,
               beforeCards := q.beforeCards, afterCards := q.afterCards)
  }

  lemma FilesReorderedSame(a: seq<File>, b: seq<File>)
    requires FilesReordered(a, b)
    ensures multiset(Map(SortRefs, a)) == multiset(Map(SortRefs, b))
  {
    var mid: seq<File> :| multiset(mid) == multiset(a) && |mid| == |b| && forall i :: 0 <= i < |b| ==> SameFile(mid[i], b[i]);
    forall i | 0 <= i < |b| ensures SortRefs(mid[i]) == SortRefs(b[i]) {
      assert SameFile(mid[i], b[i]);
      SortStringsCanonical(mid[i].references, b[i].references);
      assert mid[i].(references := []).(references := SortStrings(b[i].references)) == SortRefs(b[i]);
    }
    assert Map(SortRefs, mid) == Map(SortRefs, b);
    MapMultiset(SortRefs, a, mid);
  }

  lemma SameCardTidy(raw: Spelling, c: Card, d: Card)
    requires SameCard(c, d)
    ensures Tidy(raw, c) == Tidy(raw, d) && (UnknownOk(raw, c) <==> UnknownOk(raw, d))
  {
    SortStringsCanonical(c.dependencies, d.dependencies);
    var e := c.(dependencies := []);
    assert e == d.(dependencies := []) && c.unknown == e.unknown == d.unknown;
    assert c == e.(dependencies := c.dependencies) && d == e.(dependencies := d.dependencies);
  }

  lemma CardsReorderedSame(raw: Spelling, a: seq<Card>, b: seq<Card>)
    requires CardsReordered(a, b)
    ensures multiset(Map(Tidier(raw), a)) == multiset(Map(Tidier(raw), b))
    ensures (forall c :: c in a ==> UnknownOk(raw, c)) <==> forall c :: c in b ==> UnknownOk(raw, c)
  {
    var mid: seq<Card> :| multiset(mid) == multiset(a) && |mid| == |b| && forall i :: 0 <= i < |b| ==> SameCard(mid[i], b[i]);
    hide SameCard, UnknownOk;
    forall i | 0 <= i < |b|
      ensures Tidy(raw, mid[i]) == Tidy(raw, b[i]) && (UnknownOk(raw, mid[i]) <==> UnknownOk(raw, b[i]))
    {
      assert SameCard(mid[i], b[i]);
      SameCardTidy(raw, mid[i], b[i]);
    }
    hide Tidy, CardsReordered;
    assert Map(Tidier(raw), mid) == Map(Tidier(raw), b);
    MapMultiset(Tidier(raw), a, mid);
    UnknownReordered(raw, a, mid, b);
  }

  lemma UnknownReordered(raw: Spelling, a: seq<Card>, mid: seq<Card>, b: seq<Card>)
    requires multiset(a) == multiset(mid) && |mid| == |b|
    requires forall i :: 0 <= i < |b| ==> (UnknownOk(raw, mid[i]) <==> UnknownOk(raw, b[i]))
    ensures (forall c :: c in a ==> UnknownOk(raw, c)) <==> forall c :: c in b ==> UnknownOk(raw, c)
  {
    Permuted(a, mid);
    hide UnknownOk;
    if c :| c in b && !UnknownOk(raw, c) {
      var i :| 0 <= i < |b| && b[i] == c;
      assert mid[i] in a;
    }
  }

  // Accepted plans have no equal keys, so the unstable sorts have one result

  lemma DistinctFiles(files: seq<File>, lower: char -> char)
    requires FilesOk(files, lower)
    ensures KeyDetermines(FilePath, files)
  {
    forall i, j | 0 <= i < j < |files| ensures files[i].path != files[j].path {
      assert ToLower(lower, files[i].path) != ToLower(lower, files[j].path);
    }
  }

  lemma DistinctMappings(mappings: seq<Mapping>)
    requires MappingsDistinct(mappings)
    ensures KeyDetermines(MappingFrom, mappings)
  {
  }

  lemma DistinctCards(cards: seq<Card>)
    requires CardsDistinct(cards)
    ensures KeyDetermines(CardId, cards)
  {
  }

  /** A sort whose result has no equal keys is the only sort of anything with the same elements. */
  lemma OnlySort<T>(key: T -> string, s: seq<T>, t: seq<T>, s': seq<T>, t': seq<T>)
    requires SortOf(key, s, s') && SortOf(key, t, t') && multiset(s) == multiset(t) && KeyDetermines(key, s')
    ensures s' == t' && SortOf(key, t, s')
  {
    KeyDeterminesPermuted(key, s', s);
    SortsAgree(key, s, t, s', t');
  }

  // Main results

  /**
   * Freezing is a canonical form: if p freezes to p', every reordering of p
   * freezes to p', and to nothing else.
   */
  lemma FreezeIgnoresOrder(raw: Spelling, lower: char -> char, p: Plan, q: Plan, p': Plan, q': Plan)
    requires Freezes(raw, lower, p, p') && Reordered(p, q) && Canonical(raw, q, q')
    ensures q' == p' && Freezes(raw, lower, q, p')
  {
    FilesReorderedSame(p.before, q.before);
    FilesReorderedSame(p.after, q.after);
    CardsReorderedSame(raw, p.beforeCards, q.beforeCards);
    CardsReorderedSame(raw, p.afterCards, q.afterCards);
    hide FilesReordered, CardsReordered, UnknownOk;
    DistinctKeys(p', lower);
    hide Accepted, KeyDetermines, SortOf;
    OnlySort(FilePath, Map(SortRefs, p.before), Map(SortRefs, q.before), p'.before, q'.before);
    OnlySort(FilePath, Map(SortRefs, p.after), Map(SortRefs, q.after), p'.after, q'.after);
    OnlySort(MappingFrom, p.mappings, q.mappings, p'.mappings, q'.mappings);
    OnlySort(CardId, Map(Tidier(raw), p.beforeCards), Map(Tidier(raw), q.beforeCards), p'.beforeCards, q'.beforeCards);
    OnlySort(CardId, Map(Tidier(raw), p.afterCards), Map(Tidier(raw), q.afterCards), p'.afterCards, q'.afterCards);
    assert q' == p';
  }

  lemma DistinctKeys(p: Plan, lower: char -> char)
    requires Accepted(p, lower)
    ensures KeyDetermines(FilePath, p.before) && KeyDetermines(FilePath, p.after)
    ensures KeyDetermines(MappingFrom, p.mappings)
    ensures KeyDetermines(CardId, p.beforeCards) && KeyDetermines(CardId, p.afterCards)
  {
    DistinctFiles(p.before, lower);
    DistinctFiles(p.after, lower);
    DistinctMappings(p.mappings);
    DistinctCards(p.beforeCards);
    DistinctCards(p.afterCards);
  }

  lemma ReorderedRefl(p: Plan)
    ensures Reordered(p, p)
  {
    assert FilesReordered(p.before, p.before) && FilesReordered(p.after, p.after);
    assert CardsReordered(p.beforeCards, p.beforeCards) && CardsReordered(p.afterCards, p.afterCards);
  }

  /** Sorting what is tidy already gives it back. */
  lemma TidyFilesStay(files: seq<File>, sorted: seq<File>)
    requires SortOf(FilePath, Map(SortRefs, files), sorted)
    ensures Map(SortRefs, sorted) == sorted
  {
    Permuted(Map(SortRefs, files), sorted);
    forall i | 0 <= i < |sorted| ensures SortRefs(sorted[i]) == sorted[i] {
      assert sorted[i] in Map(SortRefs, files);
      var j :| 0 <= j < |files| && Map(SortRefs, files)[j] == sorted[i];
      SortStringsSorts(files[j].references);
      SortStringsCanonical(sorted[i].references, sorted[i].references);
    }
  }

  lemma TidyCardsStay(raw: Spelling, cards: seq<Card>, sorted: seq<Card>)
    requires Idempotent(raw) && SortOf(CardId, Map(Tidier(raw), cards), sorted)
    requires forall c :: c in cards ==> UnknownOk(raw, c)
    ensures Map(Tidier(raw), sorted) == sorted
    ensures forall c :: c in sorted ==> UnknownOk(raw, c)
  {
    Permuted(Map(Tidier(raw), cards), sorted);
    forall i | 0 <= i < |sorted| ensures Tidy(raw, sorted[i]) == sorted[i] && UnknownOk(raw, sorted[i]) {
      assert sorted[i] in Map(Tidier(raw), cards);
      var j :| 0 <= j < |cards| && Map(Tidier(raw), cards)[j] == sorted[i];
      assert cards[j] in cards && UnknownOk(raw, cards[j]);
      SortStringsSorts(cards[j].dependencies);
      SortStringsCanonical(sorted[i].dependencies, sorted[i].dependencies);
      assert Respell(raw, sorted[i].unknown) == sorted[i].unknown;
    }
  }

  lemma SortedStays<T>(key: T -> string, s: seq<T>, t: seq<T>)
    requires SortOf(key, s, t)
    ensures SortOf(key, t, t)
  {
  }

  lemma CanonicalStays(raw: Spelling, p: Plan, q: Plan)
    requires Idempotent(raw) && Canonical(raw, p, q)
    ensures Canonical(raw, q, q)
  {
    hide Idempotent, UnknownOk, SortOf;
    TidyFilesStay(p.before, q.before);
    TidyFilesStay(p.after, q.after);
    TidyCardsStay(raw, p.beforeCards, q.beforeCards);
    TidyCardsStay(raw, p.afterCards, q.afterCards);
    SortedStays(FilePath, Map(SortRefs, p.before), q.before);
    SortedStays(FilePath, Map(SortRefs, p.after), q.after);
    SortedStays(MappingFrom, p.mappings, q.mappings);
    SortedStays(CardId, Map(Tidier(raw), p.beforeCards), q.beforeCards);
    SortedStays(CardId, Map(Tidier(raw), p.afterCards), q.afterCards);
    hide Map, Tidier;
  }

  /** Freezing a frozen plan changes nothing. */
  lemma FreezeIsIdempotent(raw: Spelling, lower: char -> char, p: Plan, q: Plan, r: Plan)
    requires Idempotent(raw) && Freezes(raw, lower, p, q)
    ensures Freezes(raw, lower, q, q)
    ensures Canonical(raw, q, r) ==> r == q
  {
    CanonicalStays(raw, p, q);
    hide Accepted, Canonical, Reordered;
    ReorderedRefl(q);
    if Canonical(raw, q, r) {
      FreezeIgnoresOrder(raw, lower, q, q, q, r);
    }
  }

  // The code

  method SortFiles(files: seq<File>) returns (out: seq<File>)
    ensures SortOf(FilePath, Map(SortRefs, files), out)
  {
    var sorted := SortBy(FilePath, files);
    out := [];
    for i := 0 to |sorted|
      invariant out == Map(SortRefs, sorted[..i])
    {
      var refs := SortBy((s: string) => s, sorted[i].references);
      SortStringsCanonical(sorted[i].references, refs);
      assert Sorted(refs);
      MapConcat(SortRefs, sorted[..i], [sorted[i]]);
      assert sorted[..i + 1] == sorted[..i] + [sorted[i]] && Map(SortRefs, [sorted[i]]) == [SortRefs(sorted[i])];
      out := out + [sorted[i].(references := refs)];
    }
    assert sorted[..|sorted|] == sorted;
    MapMultiset(SortRefs, files, sorted);
  }

  lemma TidyOne(raw: Spelling, c: Card, deps: seq<string>, unknown: map<string, string>)
    requires deps == SortStrings(c.dependencies) && unknown == Respell(raw, c.unknown)
    ensures Map(Tidier(raw), [c]) == [c.(dependencies := deps, unknown := unknown)]
  {
    hide Respell, SortStrings;
  }

  lemma NothingTidied(raw: Spelling)
    ensures Map(Tidier(raw), []) == []
  {
  }

  lemma TidyKeepsOrder(raw: Spelling, cards: seq<Card>)
    requires SortedBy(CardId, cards)
    ensures SortedBy(CardId, Map(Tidier(raw), cards))
  {
    hide Respell, SortStrings;
    assert forall i :: 0 <= i < |cards| ==> CardId(Map(Tidier(raw), cards)[i]) == CardId(cards[i]);
  }

  method SortCards(raw: Spelling, cards: seq<Card>) returns (out: Option<seq<Card>>)
    ensures out.Some? <==> forall c :: c in cards ==> UnknownOk(raw, c)
    ensures out.Some? ==> SortOf(CardId, Map(Tidier(raw), cards), out.value)
  {
    hide Map, Tidier, Respell, SortStrings;
    var sorted := SortBy(CardId, cards);
    Permuted(sorted, cards);
    var done: seq<Card> := [];
    NothingTidied(raw);
    for i := 0 to |sorted|
      invariant done == Map(Tidier(raw), sorted[..i])
      invariant forall j :: 0 <= j < i ==> UnknownOk(raw, sorted[j])
    {
      var deps := SortBy((s: string) => s, sorted[i].dependencies);
      SortStringsCanonical(sorted[i].dependencies, deps);
      var unknown := CanonicalUnknown(raw, sorted[i].unknown);
      if unknown.None? {
        assert sorted[i] in cards;
        return None;
      }
      MapConcat(Tidier(raw), sorted[..i], [sorted[i]]);
      assert sorted[..i + 1] == sorted[..i] + [sorted[i]];
      TidyOne(raw, sorted[i], deps, unknown.value);
      done := done + [sorted[i].(dependencies := deps, unknown := unknown.value)];
    }
    assert sorted[..|sorted|] == sorted;
    MapMultiset(Tidier(raw), cards, sorted);
    TidyKeepsOrder(raw, sorted);
    return Some(done);
  }

  /** Rewrites the entries of a map one by one. */
  method CanonicalUnknown(raw: Spelling, unknown: map<string, string>) returns (out: Option<map<string, string>>)
    ensures out.Some? <==> forall k :: k in unknown ==> raw(unknown[k]).Some?
    ensures out.Some? ==> out.value == Respell(raw, unknown)
  {
    var m, todo := unknown, unknown.Keys;
    while todo != {}
      invariant todo <= unknown.Keys && m.Keys == unknown.Keys
      invariant forall k :: k in todo ==> m[k] == unknown[k]
      invariant forall k :: k in unknown && k !in todo ==> raw(unknown[k]) == Some(m[k])
    {
      var key :| key in todo;
      var canonical := raw(m[key]);
      if canonical.None? {
        return None;
      }
      m := m[key := canonical.value];
      todo := todo - {key};
    }
    assert m == Respell(raw, unknown);
    return Some(m);
  }

  method Canonicalize(raw: Spelling, plan: Plan) returns (out: Option<Plan>)
    ensures out.None? ==> exists c :: c in plan.beforeCards + plan.afterCards && !UnknownOk(raw, c)
    ensures out.Some? ==> Canonical(raw, plan, out.value)
  {
    var p := plan;
    var before := SortFiles(p.before);
    var after := SortFiles(p.after);
    var mappings := SortBy(MappingFrom, p.mappings);
    p := p.(before := before, after := after, mappings := mappings);
    var beforeCards := SortCards(raw, p.beforeCards);
    if beforeCards.None? {
      return None;
    }
    var afterCards := SortCards(raw, p.afterCards);
    if afterCards.None? {
      return None;
    }
    return Some(p.(beforeCards := beforeCards.value, afterCards := afterCards.value));
  }

  /** Answers the frozen plan, or refuses when no frozen plan exists. */
  method FreezePlan(raw: Spelling, lower: char -> char, plan: Plan) returns (out: Option<Plan>)
    requires LowersPaths(lower)
    ensures out.Some? ==> Freezes(raw, lower, plan, out.value)
    ensures out.None? ==> forall q :: !Freezes(raw, lower, plan, q)
  {
    out := Canonicalize(raw, plan);
    if out.None? {
      return;
    }
    var ok := ValidatePlan(out.value, lower);
    if !ok {
      forall q ensures !Freezes(raw, lower, plan, q) {
        if Freezes(raw, lower, plan, q) {
          ReorderedRefl(plan);
          FreezeIgnoresOrder(raw, lower, plan, plan, q, out.value);
        }
      }
      return None;
    }
  }
}
