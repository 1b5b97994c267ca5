/** What acceptance of a maintenance plan implies as a whole. */
module MaintenanceTheorems {
  import opened Text
  import opened Sorting
  import opened Paths
  import opened MaintenancePlan

  /** The plan that undoes a plan. */
  function Inverse(m: Mapping): Mapping {
    Mapping(m.to, m.from, m.toState, m.fromState)
  }

  function Inverses(mappings: seq<Mapping>): (r: seq<Mapping>)
    ensures |r| == |mappings| && forall i :: 0 <= i < |r| ==> r[i] == Inverse(mappings[i])
  {
    seq(|mappings|, i requires 0 <= i < |mappings| => Inverse(mappings[i]))
  }

  function Reverse(plan: Plan): Plan {
    plan.(before := plan.after, after := plan.before, mappings := Inverses(plan.mappings),
          beforeCards := plan.afterCards, afterCards := plan.beforeCards)
  }

  // Moves and their inverses

  lemma MoveOf(mappings: seq<Mapping>, m: Mapping)
    requires MappingsDistinct(mappings) && m in mappings
    ensures m.from in MoveMap(mappings) && MoveMap(mappings)[m.from] == m
  {
    var i :| 0 <= i < |mappings| && mappings[i] == m;
    var k := MoveMap(mappings)[m.from];
    var j :| 0 <= j < |mappings| && mappings[j] == k;
  }

  lemma InversesDistinct(mappings: seq<Mapping>)
    requires MappingsDistinct(mappings)
    ensures MappingsDistinct(Inverses(mappings))
  {
  }

  lemma InverseMember(mappings: seq<Mapping>, m: Mapping)
    ensures Inverse(m) in Inverses(mappings) <==> m in mappings
  {
    var r := Inverses(mappings);
    if m in mappings {
      var i :| 0 <= i < |mappings| && mappings[i] == m;
      assert r[i] == Inverse(m);
    }
    if Inverse(m) in r {
      var i :| 0 <= i < |r| && r[i] == Inverse(m);
      assert mappings[i] == m;
    }
  }

  /** The mapping that an inverse move comes from. */
  lemma BackSource(mappings: seq<Mapping>, before: Files, after: Files, n: string) returns (m: Mapping)
    requires MappingsOk(mappings, before, after) && n in MoveMap(Inverses(mappings))
    ensures m in mappings && m.to == n && m.from in before
    ensures Target(MoveMap(mappings), m.from) == n && Target(MoveMap(Inverses(mappings)), n) == m.from
  {
    var k := MoveMap(Inverses(mappings))[n];
    m := Inverse(k);
    assert Inverse(m) == k;
    InverseMember(mappings, m);
    MoveOf(mappings, m);
    assert MappingOk(m, before, after);
  }

  /** Going there and back again. */
  lemma TargetBack(mappings: seq<Mapping>, before: Files, after: Files, p: string)
    requires MappingsOk(mappings, before, after) && p in before
    ensures Target(MoveMap(Inverses(mappings)), Target(MoveMap(mappings), p)) == p
  {
    var moves, back := MoveMap(mappings), MoveMap(Inverses(mappings));
    var n := Target(moves, p);
    InversesDistinct(mappings);
    if p in moves {
      InverseMember(mappings, moves[p]);
      assert Inverse(moves[p]).from == n && n in back;
    }
    if n in back {
      var m := BackSource(mappings, before, after, n);
    }
  }

  /** Every after-path is the target of the path that the inverse names. */
  lemma TargetForth(mappings: seq<Mapping>, before: Files, after: Files, n: string)
    requires MappingsOk(mappings, before, after) && n in after
    ensures var p := Target(MoveMap(Inverses(mappings)), n); p in before && Target(MoveMap(mappings), p) == n
  {
    var p :| p in before && Target(MoveMap(mappings), p) == n;
    TargetBack(mappings, before, after, p);
  }

  /** A two-sided inverse of a renaming is one. */
  lemma InverseBijective(moves: Moves, back: Moves, before: Files, after: Files)
    requires Bijective(moves, before, after)
    requires forall n :: n in after ==> Target(back, n) in before && Target(moves, Target(back, n)) == n
    requires forall p :: p in before ==> Target(back, Target(moves, p)) == p
    ensures Bijective(back, after, before)
  {
    hide Target;
  }

  lemma ReverseBijective(mappings: seq<Mapping>, before: Files, after: Files)
    requires MappingsOk(mappings, before, after)
    ensures Bijective(MoveMap(Inverses(mappings)), after, before)
  {
    var moves, back := MoveMap(mappings), MoveMap(Inverses(mappings));
    forall n | n in after ensures Target(back, n) in before && Target(moves, Target(back, n)) == n {
      TargetForth(mappings, before, after, n);
    }
    forall p | p in before ensures Target(back, Target(moves, p)) == p {
      TargetBack(mappings, before, after, p);
    }
    hide Target, MappingOk, MappingsDistinct, Bijective;
    InverseBijective(moves, back, before, after);
  }

  lemma ReverseMappingsOk(mappings: seq<Mapping>, before: Files, after: Files)
    requires MappingsOk(mappings, before, after)
    ensures MappingsOk(Inverses(mappings), after, before)
  {
    InversesDistinct(mappings);
    ReverseBijective(mappings, before, after);
    forall k | k in Inverses(mappings) ensures MappingOk(k, after, before) {
      InverseMember(mappings, Inverse(k));
      assert MappingOk(Inverse(k), before, after);
    }
    hide Bijective, MoveMap, MappingsDistinct, MappingOk, Inverses;
  }

  lemma UnmappedKind(mappings: seq<Mapping>, before: Files, after: Files, p: string)
    requires MappingsOk(mappings, before, after) && p in before && before[p].kind != "card"
    ensures Target(MoveMap(mappings), p) == p
  {
    var moves := MoveMap(mappings);
    assert p in moves ==> MappingOk(moves[p], before, after);
  }

  lemma ReverseClosureOk(board: string, mappings: seq<Mapping>, before: Files, after: Files)
    requires MappingsOk(mappings, before, after) && ClosureOk(board, before, after)
    ensures ClosureOk(board, after, before)
  {
    forall n | n in after && after[n].kind != "card" ensures n in before && after[n] == before[n] {
      var p :| p in before && Target(MoveMap(mappings), p) == n;
      UnmappedKind(mappings, before, after, p);
    }
  }

  // References

  lemma RenamedMembers(moves: Moves, refs: seq<string>, r: string)
    ensures r in Renamed(moves, refs) <==> exists q :: q in refs && Target(moves, q) == r
  {
    var s := Renamed(moves, refs);
    if r in s {
      var i :| 0 <= i < |s| && s[i] == r;
      assert refs[i] in refs;
    }
    if q :| q in refs && Target(moves, q) == r {
      var i :| 0 <= i < |refs| && refs[i] == q;
      assert s[i] == r;
    }
  }

  /** Renaming respects equality of multisets. */
  lemma RenamedMultiset(moves: Moves, a: seq<string>, b: seq<string>)
    requires multiset(a) == multiset(b)
    ensures multiset(Renamed(moves, a)) == multiset(Renamed(moves, b))
  {
    var f := (r: string) => Target(moves, r);
    MapMultiset(f, a, b);
    assert Renamed(moves, a) == Map(f, a) && Renamed(moves, b) == Map(f, b);
  }

  lemma ReverseRefsPreserved(mappings: seq<Mapping>, before: Files, after: Files)
    requires MappingsOk(mappings, before, after) && RefsOk(before)
    requires RefsPreserved(before, after, MoveMap(mappings))
    ensures RefsPreserved(after, before, MoveMap(Inverses(mappings)))
  {
    var moves, back := MoveMap(mappings), MoveMap(Inverses(mappings));
    forall n | n in after
      ensures multiset(Renamed(back, after[n].references)) == multiset(At(before, Target(back, n)).references)
    {
      TargetForth(mappings, before, after, n);
      var p := Target(back, n);
      var refs := before[p].references;
      assert multiset(Renamed(moves, refs)) == multiset(after[n].references);
      RenamedMultiset(back, Renamed(moves, refs), after[n].references);
      forall i | 0 <= i < |refs| ensures Renamed(back, Renamed(moves, refs))[i] == refs[i] {
        assert refs[i] in before[p].references;
        TargetBack(mappings, before, after, refs[i]);
      }
      assert Renamed(back, Renamed(moves, refs)) == refs;
    }
  }

  // Cards

  lemma CardOfId(cards: seq<Card>, c: Card)
    requires CardsDistinct(cards) && c in cards
    ensures CardMap(cards)[c.identity] == c
  {
    var d := CardMap(cards)[c.identity];
    var i :| 0 <= i < |cards| && cards[i] == c;
    var j :| 0 <= j < |cards| && cards[j] == d;
  }

  lemma SameKeys<V, W>(a: map<string, V>, b: map<string, W>)
    requires |a| == |b| && a.Keys <= b.Keys
    ensures a.Keys == b.Keys
  {
    if x :| x in b.Keys && x !in a.Keys {
      SubsetSize(a.Keys, b.Keys - {x});
    }
  }

  lemma {:induction false} SubsetSize<T>(a: set<T>, b: set<T>)
    requires a <= b
    ensures |a| <= |b|
  {
    if a != {} {
      var x :| x in a;
      SubsetSize(a - {x}, b - {x});
    }
  }

  lemma ReverseCardsFollow(plan: Plan, before: Files, after: Files)
    requires MappingsOk(plan.mappings, before, after) && CardsOk(plan.beforeCards, before, plan.board)
    requires CardsFollow(plan.beforeCards, plan.afterCards, MoveMap(plan.mappings))
    ensures CardsFollow(plan.afterCards, plan.beforeCards, MoveMap(Inverses(plan.mappings)))
  {
    var moves, back := MoveMap(plan.mappings), MoveMap(Inverses(plan.mappings));
    var left, right := CardMap(plan.beforeCards), CardMap(plan.afterCards);
    SameKeys(left, right);
    forall id | id in right ensures id in left && CardFollows(right[id], left[id], back) {
      assert id in right.Keys;
      var from, to := left[id], right[id];
      assert CardFollows(from, to, moves) && CardOk(from, before, plan.board);
      TargetBack(plan.mappings, before, after, from.path);
      if to.path in back {
        var m := Inverse(back[to.path]);
        InverseMember(plan.mappings, m);
        assert Inverse(m) == back[to.path];
        MoveOf(plan.mappings, m);
        assert m.from == from.path;
      }
    }
  }

  // Main results

  /** An accepted rewrite can always be undone by an acceptable one. */
  lemma ReverseIsAccepted(plan: Plan, lower: char -> char)
    requires Accepted(plan, lower)
    ensures Accepted(Reverse(plan), lower)
  {
    var before, after := FileMap(plan.before), FileMap(plan.after);
    var r := Reverse(plan);
    ReverseMappingsOk(plan.mappings, before, after);
    ReverseClosureOk(plan.board, plan.mappings, before, after);
    ReverseRefsPreserved(plan.mappings, before, after);
    ReverseCardsFollow(plan, before, after);
    ReverseBindingsOk(plan, before, after);
    hide HeaderOk, FilesOk, RefsOk, ClosureOk, MappingsOk, RefsPreserved, CardsOk, CardsFollow, FileMap, MoveMap;
    assert HeaderOk(r) by { SameHeader(plan, r); }
  }

  lemma SameHeader(p: Plan, q: Plan)
    requires HeaderOk(p) && q == Reverse(p)
    ensures HeaderOk(q)
  {
  }

  lemma ReverseBindingsOk(plan: Plan, before: Files, after: Files)
    requires BindingsOk(plan, before) && ClosureOk(plan.board, before, after)
    ensures BindingsOk(Reverse(plan), after)
  {
    forall b | b in [plan.policy, plan.rule, plan.sourceSchema, plan.targetSchema] ensures BoundTo(b, after) {
      assert BoundTo(b, before);
    }
  }

  /** Undoing the undoing is the plan itself. */
  lemma ReverseTwice(plan: Plan)
    ensures Reverse(Reverse(plan)) == plan
  {
    assert Inverses(Inverses(plan.mappings)) == plan.mappings;
  }

  /** The file stays as it is, and its references are permuted. */
  ghost predicate Unmoved(before: Files, after: Files, moves: Moves, p: string)
    requires p in before
  {
    && Target(moves, p) == p && At(after, p) == before[p]
    && (set r | r in before[p].references :: Target(moves, r)) == set r | r in before[p].references
  }

  /**
   * A renaming of files: a bijection on paths that keeps kinds, takes each
   * file's references exactly onto those of its image, leaves every file that
   * is not a card as it is, and only permutes the references of such a file.
   */
  ghost predicate Renaming(before: Files, after: Files, moves: Moves) {
    && Bijective(moves, before, after)
    && (forall p :: p in before ==>
          multiset(Renamed(moves, before[p].references)) == multiset(At(after, Target(moves, p)).references))
    && (forall p :: p in before && before[p].kind != "card" ==> Unmoved(before, after, moves, p))
    && (forall n :: n in after && after[n].kind != "card" ==> At(before, n) == after[n])
  }

  /** An accepted plan is a renaming of its files. */
  lemma AcceptedIsRenaming(plan: Plan, lower: char -> char)
    requires Accepted(plan, lower)
    ensures Renaming(FileMap(plan.before), FileMap(plan.after), MoveMap(plan.mappings))
  {
    hide FilesOk, CardsOk, RefsOk, HeaderOk, CardsFollow, BindingsOk, MappingsOk, ClosureOk, RefsPreserved;
    RenamingOf(plan.board, plan.mappings, FileMap(plan.before), FileMap(plan.after));
  }

  lemma RenamingOf(board: string, mappings: seq<Mapping>, before: Files, after: Files)
    requires MappingsOk(mappings, before, after) && ClosureOk(board, before, after)
    requires RefsPreserved(before, after, MoveMap(mappings))
    ensures Renaming(before, after, MoveMap(mappings))
  {
    var moves := MoveMap(mappings);
    ReverseClosureOk(board, mappings, before, after);
    assert Bijective(moves, before, after);
    forall p | p in before && before[p].kind != "card"
      ensures Unmoved(before, after, moves, p)
    {
      UnmovedFile(board, mappings, before, after, p);
    }
    hide Bijective, MappingOk, MappingsDistinct, BoardOk, Renamed, MoveMap, Target, Unmoved, MappingsOk;
  }

  lemma UnmovedFile(board: string, mappings: seq<Mapping>, before: Files, after: Files, p: string)
    requires MappingsOk(mappings, before, after) && ClosureOk(board, before, after)
    requires RefsPreserved(before, after, MoveMap(mappings)) && p in before && before[p].kind != "card"
    ensures Unmoved(before, after, MoveMap(mappings), p)
  {
    var moves := MoveMap(mappings);
    UnmappedKind(mappings, before, after, p);
    assert multiset(Renamed(moves, before[p].references)) == multiset(At(after, Target(moves, p)).references);
    hide MappingsOk, RefsPreserved, Renamed, MoveMap;
    SameMembers(moves, before[p].references);
  }

  lemma SameMembers(moves: Moves, refs: seq<string>)
    requires multiset(Renamed(moves, refs)) == multiset(refs)
    ensures (set r | r in refs :: Target(moves, r)) == set r | r in refs
  {
    forall x {:trigger x in refs} ensures x in refs <==> exists r :: r in refs && Target(moves, r) == x {
      RenamedMembers(moves, refs, x);
      assert x in refs <==> x in multiset(refs);
      assert x in Renamed(moves, refs) <==> x in multiset(Renamed(moves, refs));
    }
  }

  /** Cards correspond one to one and differ in nothing but the path the plan gives them. */
  lemma AcceptedKeepsCards(plan: Plan, lower: char -> char)
    requires Accepted(plan, lower)
    ensures var moves := MoveMap(plan.mappings);
      && (forall c :: c in plan.beforeCards ==> c.(path := Target(moves, c.path)) in plan.afterCards)
      && (forall d :: d in plan.afterCards ==> exists c :: c in plan.beforeCards && d == c.(path := Target(moves, c.path)))
      && |plan.beforeCards| == |plan.afterCards|
  {
    var moves := MoveMap(plan.mappings);
    var left, right := CardMap(plan.beforeCards), CardMap(plan.afterCards);
    SameKeys(left, right);
    forall c | c in plan.beforeCards ensures c.(path := Target(moves, c.path)) in plan.afterCards {
      CardOfId(plan.beforeCards, c);
      assert CardFollows(c, right[c.identity], moves);
    }
    forall d | d in plan.afterCards ensures exists c :: c in plan.beforeCards && d == c.(path := Target(moves, c.path)) {
      CardOfId(plan.afterCards, d);
      assert d.identity in left.Keys;
      assert CardFollows(left[d.identity], d, moves);
    }
    CardMapSize(plan.beforeCards);
    CardMapSize(plan.afterCards);
  }

  lemma LastCardIsNew(cards: seq<Card>)
    requires CardsDistinct(cards) && cards != []
    ensures CardsDistinct(cards[..|cards| - 1])
    ensures forall c :: c in cards[..|cards| - 1] ==> c.identity != cards[|cards| - 1].identity
  {
  }

  lemma {:induction false} CardMapSize(cards: seq<Card>)
    requires CardsDistinct(cards)
    ensures |CardMap(cards)| == |cards|
  {
    hide CardsDistinct;
    if cards != [] {
      var init, last := cards[..|cards| - 1], cards[|cards| - 1];
      LastCardIsNew(cards);
      CardMapSize(init);
      assert last.identity !in CardMap(init);
      assert CardMap(cards) == CardMap(init)[last.identity := last];
      assert CardMap(cards).Keys == CardMap(init).Keys + {last.identity};
    }
  }
}
