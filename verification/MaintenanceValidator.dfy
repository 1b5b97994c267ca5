/**
 * The validator as the sequence of loops it is
 * (internal/boardruntime/maintenance_validate.go), proved to accept exactly the
 * plans that MaintenancePlan calls accepted. A loop over a Go map takes the
 * keys in an arbitrary order.
 */
module MaintenanceValidator {
  import opened Wrappers
  import opened Text
  import opened Sorting
  import opened Paths
  import opened MaintenancePlan

  // Lower-cased paths

  lemma LowerCons(lower: char -> char, c: char, p: string)
    ensures ToLower(lower, [c] + p) == [lower(c)] + ToLower(lower, p)
  {
  }

  lemma {:induction false} LowerSplit(lower: char -> char, p: string)
    requires LowersPaths(lower)
    ensures |Split(ToLower(lower, p), '/')| == |Split(p, '/')|
    ensures forall i :: 0 <= i < |Split(p, '/')| ==> Split(ToLower(lower, p), '/')[i] == ToLower(lower, Split(p, '/')[i])
  {
    if p != "" {
      LowerSplit(lower, p[1..]);
      assert p == [p[0]] + p[1..];
      LowerCons(lower, p[0], p[1..]);
      var rest, low := Split(p[1..], '/'), ToLower(lower, p);
      assert low[1..] == ToLower(lower, p[1..]) && low[0] == lower(p[0]);
      LowerCons(lower, p[0], rest[0]);
    }
    assert ToLower(lower, "") == "";
  }

  lemma LowerIsOrdinary(lower: char -> char, part: string)
    requires LowersPaths(lower) && Ordinary(part)
    ensures Ordinary(ToLower(lower, part))
  {
    var low := ToLower(lower, part);
    assert |low| == |part|;
    if |low| == 1 {
      assert part == [part[0]] && low == [low[0]];
    } else if |low| == 2 {
      assert part == [part[0], part[1]] && low == [low[0], low[1]];
    }
  }

  lemma LowerIsClean(lower: char -> char, p: string)
    requires LowersPaths(lower) && CleanRelative(p)
    ensures CleanRelative(ToLower(lower, p))
  {
    CleanRelativeParts(p);
    LowerSplit(lower, p);
    var parts, low := Split(p, '/'), Split(ToLower(lower, p), '/');
    forall c | c in low ensures Ordinary(c) {
      var i :| 0 <= i < |low| && low[i] == c;
      assert parts[i] in parts;
      LowerIsOrdinary(lower, parts[i]);
    }
    CleanRelativeParts(ToLower(lower, p));
  }

  ghost function LowerPaths(lower: char -> char, files: seq<File>): set<string> {
    set f | f in files :: ToLower(lower, f.path)
  }

  ghost predicate LowerDistinct(lower: char -> char, files: seq<File>) {
    forall i, j :: 0 <= i < j < |files| ==> ToLower(lower, files[i].path) != ToLower(lower, files[j].path)
  }

  lemma LowerDistinctStep(lower: char -> char, files: seq<File>, f: File)
    requires LowerDistinct(lower, files)
    ensures LowerDistinct(lower, files + [f]) <==> ToLower(lower, f.path) !in LowerPaths(lower, files)
    ensures LowerPaths(lower, files + [f]) == LowerPaths(lower, files) + {ToLower(lower, f.path)}
  {
    var all := files + [f];
    assert forall i :: 0 <= i < |files| ==> all[i] == files[i];
    if g :| g in files && ToLower(lower, g.path) == ToLower(lower, f.path) {
      var i :| 0 <= i < |files| && files[i] == g;
      assert all[i] == g && all[|files|] == f;
    }
  }

  /** Whether some directory above name is in the set, by climbing path.Dir until it answers ".". */
  method HasAncestorIn(name: string, names: set<string>) returns (found: bool)
    requires CleanRelative(name)
    ensures found <==> exists q :: q in names && IsAncestor(q, name)
  {
    DirOfClean(name);
    var parent := Dir(name);
    ghost var below := name;
    AncestorsAreSeen(names, name, name);
    while parent != "."
      invariant CleanRelative(below) && parent == Dir(below)
      invariant parent != "." ==> CleanRelative(parent) && |parent| < |below|
      invariant (exists q :: q in names && IsAncestor(q, name)) <==> exists q :: q in names && IsAncestor(q, below)
      decreases |below|
    {
      AncestorStep(names, below);
      if parent in names {
        return true;
      }
      DirOfClean(parent);
      below := parent;
      parent := Dir(parent);
    }
    AncestorStep(names, below);
    return false;
  }

  lemma AncestorsAreSeen(names: set<string>, p: string, q: string)
    requires p == q
    ensures (exists r :: r in names && IsAncestor(r, p)) <==> exists r :: r in names && IsAncestor(r, q)
  {
  }

  lemma AncestorStep(names: set<string>, p: string)
    requires CleanRelative(p)
    ensures (exists q :: q in names && IsAncestor(q, p)) <==>
            Dir(p) != "." && (Dir(p) in names || exists q :: q in names && IsAncestor(q, Dir(p)))
  {
    forall q ensures IsAncestor(q, p) <==> Dir(p) != "." && (q == Dir(p) || IsAncestor(q, Dir(p))) {
      AncestorsOfParent(q, p);
    }
  }

  /** The second pass of planFiles: one path is a directory above another. */
  method Collides(portable: set<string>) returns (found: bool)
    requires forall name :: name in portable ==> CleanRelative(name)
    ensures found <==> exists p, q :: p in portable && q in portable && IsAncestor(q, p)
  {
    var todo := portable;
    while todo != {}
      invariant todo <= portable
      invariant forall p, q :: p in portable && p !in todo && q in portable ==> !IsAncestor(q, p)
    {
      var name :| name in todo;
      found := HasAncestorIn(name, portable);
      if found {
        return;
      }
      todo := todo - {name};
    }
    return false;
  }

  lemma LowerPathsClean(lower: char -> char, files: seq<File>)
    requires LowersPaths(lower) && forall f :: f in files ==> FileOk(f)
    ensures forall name :: name in LowerPaths(lower, files) ==> CleanRelative(name)
  {
    hide CleanRelative;
    forall f | f in files ensures CleanRelative(ToLower(lower, f.path)) {
      assert FileOk(f);
      LowerIsClean(lower, f.path);
    }
  }

  lemma PortableByNames(lower: char -> char, files: seq<File>)
    ensures Portable(files, lower) <==>
      && LowerDistinct(lower, files)
      && !exists p, q :: p in LowerPaths(lower, files) && q in LowerPaths(lower, files) && IsAncestor(q, p)
  {
    hide ToLower;
    if p, q :| p in LowerPaths(lower, files) && q in LowerPaths(lower, files) && IsAncestor(q, p) {
      var f :| f in files && ToLower(lower, f.path) == q;
      var g :| g in files && ToLower(lower, g.path) == p;
      assert IsAncestor(ToLower(lower, f.path), ToLower(lower, g.path));
    }
  }

  lemma FileMapStep(files: seq<File>, f: File)
    ensures FileMap(files + [f]) == FileMap(files)[f.path := f]
    ensures FileMap([]) == map[]
  {
    var all := files + [f];
    assert all[..|files|] == files && all[|files|] == f;
  }

  lemma PrefixLowerDistinct(lower: char -> char, files: seq<File>, n: nat)
    requires n <= |files| && LowerDistinct(lower, files)
    ensures LowerDistinct(lower, files[..n])
  {
  }

  /** The first pass of planFiles. */
  method CollectFiles(files: seq<File>, lower: char -> char) returns (ok: bool, m: Files, portable: set<string>)
    ensures ok <==> LowerDistinct(lower, files) && forall f :: f in files ==> FileOk(f)
    ensures ok ==> m == FileMap(files) && portable == LowerPaths(lower, files)
  {
    m, portable := map[], {};
    NoLowerPaths(lower);
    hide FileOk, LowerPaths, ToLower, FileMap, LowerDistinct;
    for i := 0 to |files|
      invariant m == FileMap(files[..i])
      invariant forall f :: f in files[..i] ==> FileOk(f)
      invariant portable == LowerPaths(lower, files[..i]) && LowerDistinct(lower, files[..i])
    {
      var file := files[i];
      assert files[..i + 1] == files[..i] + [file] && file in files;
      FileMapStep(files[..i], file);
      LowerDistinctStep(lower, files[..i], file);
      if !FileOk(file) || ToLower(lower, file.path) in portable {
        if LowerDistinct(lower, files) {
          PrefixLowerDistinct(lower, files, i + 1);
        }
        return false, m, portable;
      }
      portable := portable + {ToLower(lower, file.path)};
      m := m[file.path := file];
    }
    assert files[..|files|] == files;
    return true, m, portable;
  }

  method PlanFiles(files: seq<File>, lower: char -> char) returns (out: Option<Files>)
    requires LowersPaths(lower)
    ensures out.Some? <==> FilesOk(files, lower)
    ensures out.Some? ==> out.value == FileMap(files)
  {
    if files == [] {
      return None;
    }
    hide FileOk, LowerPaths, Portable, ToLower, LowerDistinct, FileMap;
    PortableByNames(lower, files);
    var ok, m, portable := CollectFiles(files, lower);
    if !ok {
      return None;
    }
    LowerPathsClean(lower, files);
    var collides := Collides(portable);
    return if collides then None else Some(m);
  }

  lemma NoLowerPaths(lower: char -> char)
    ensures LowerPaths(lower, []) == {} && LowerDistinct(lower, []) && FileMap([]) == map[]
  {
  }

  method AllDistinct(refs: seq<string>) returns (ok: bool)
    ensures ok <==> NoRepeat(refs)
  {
    var seen: set<string> := {};
    for i := 0 to |refs|
      invariant seen == set j | 0 <= j < i :: refs[j]
      invariant NoRepeat(refs[..i])
    {
      if refs[i] in seen {
        return false;
      }
      seen := seen + {refs[i]};
    }
    assert refs[..|refs|] == refs;
    return true;
  }

  method PlanRefs(files: Files) returns (ok: bool)
    ensures ok <==> RefsOk(files)
  {
    var todo := files.Keys;
    while todo != {}
      invariant todo <= files.Keys
      invariant forall p :: p in files && p !in todo ==>
        NoRepeat(files[p].references) && forall r :: r in files[p].references ==> SafePlanPath(r) && r in files
    {
      var name :| name in todo;
      var refs := files[name].references;
      var seen: set<string> := {};
      for i := 0 to |refs|
        invariant seen == set j | 0 <= j < i :: refs[j]
        invariant forall j :: 0 <= j < i ==> SafePlanPath(refs[j]) && refs[j] in files
        invariant forall j, k :: 0 <= j < k < i ==> refs[j] != refs[k]
      {
        if !SafePlanPath(refs[i]) || refs[i] in seen || refs[i] !in files {
          assert refs[i] in files[name].references;
          return false;
        }
        seen := seen + {refs[i]};
      }
      todo := todo - {name};
    }
    return true;
  }

  method BoardAllows(board: string, files: Files) returns (ok: bool)
    ensures ok <==> BoardOk(board, files)
  {
    var todo := files.Keys;
    while todo != {}
      invariant todo <= files.Keys
      invariant forall p :: p in files && p !in todo ==> p != board && (files[p].kind == "card" ==> WithinBoard(p, board))
    {
      var name :| name in todo;
      if name == board || (files[name].kind == "card" && !WithinBoard(name, board)) {
        return false;
      }
      todo := todo - {name};
    }
    return true;
  }

  method PreserveClosure(board: string, before: Files, after: Files) returns (ok: bool)
    ensures ok <==> ClosureOk(board, before, after)
  {
    ok := BoardAllows(board, before);
    if !ok {
      return;
    }
    ok := BoardAllows(board, after);
    if !ok {
      return;
    }
    var todo := before.Keys;
    while todo != {}
      invariant todo <= before.Keys
      invariant forall p :: p in before && p !in todo && before[p].kind != "card" ==> p in after && before[p] == after[p]
    {
      var name :| name in todo;
      if before[name].kind != "card" && !(name in after && before[name] == after[name]) {
        return false;
      }
      todo := todo - {name};
    }
    return true;
  }

  // Mappings

  lemma MoveMapStep(mappings: seq<Mapping>, m: Mapping)
    ensures MoveMap(mappings + [m]) == MoveMap(mappings)[m.from := m]
    ensures m.from in MoveMap(mappings) <==> exists k :: k in mappings && k.from == m.from
  {
    var all := mappings + [m];
    assert all[..|mappings|] == mappings && all[|mappings|] == m;
  }

  lemma MappingsStep(mappings: seq<Mapping>, m: Mapping)
    requires MappingsDistinct(mappings)
    ensures MappingsDistinct(mappings + [m]) <==> forall k :: k in mappings ==> k.from != m.from && k.to != m.to
  {
    var all := mappings + [m];
    if MappingsDistinct(all) {
      forall k | k in mappings ensures k.to != m.to && k.from != m.from {
        var i :| 0 <= i < |mappings| && mappings[i] == k;
        assert all[i] == k && all[|mappings|] == m;
      }
    } else {
      var i, j :| 0 <= i < j < |all| && (all[i].from == all[j].from || all[i].to == all[j].to);
      assert j == |mappings| && all[i] == mappings[i] && all[i] in mappings;
    }
  }

  ghost function Destinations(mappings: seq<Mapping>): set<string> {
    set k | k in mappings :: k.to
  }

  lemma DestinationsStep(mappings: seq<Mapping>, m: Mapping)
    ensures Destinations(mappings + [m]) == Destinations(mappings) + {m.to}
    ensures m.to in Destinations(mappings) <==> exists k :: k in mappings && k.to == m.to
    ensures Destinations([]) == {}
  {
  }

  /** One round of planMappings: the two maps decide, and take in a good mapping. */
  lemma MapsDecide(mappings: seq<Mapping>, m: Mapping)
    requires MappingsDistinct(mappings)
    ensures MappingsDistinct(mappings + [m]) <==> m.from !in MoveMap(mappings) && m.to !in Destinations(mappings)
    ensures MoveMap(mappings + [m]) == MoveMap(mappings)[m.from := m]
    ensures Destinations(mappings + [m]) == Destinations(mappings) + {m.to}
  {
    MoveMapStep(mappings, m);
    MappingsStep(mappings, m);
    DestinationsStep(mappings, m);
    hide MoveMap, Destinations, MappingsDistinct;
  }

  method PlanMappings(mappings: seq<Mapping>, before: Files, after: Files) returns (out: Option<Moves>)
    ensures out.Some? <==> MappingsOk(mappings, before, after)
    ensures out.Some? ==> out.value == MoveMap(mappings)
  {
    hide MappingOk, Bijective, MappingsDistinct, Destinations;
    if |before| != |after| {
      return None;
    }
    var m: Moves, to: set<string> := map[], {};
    NoMappings();
    hide MoveMap;
    for i := 0 to |mappings|
      invariant m == MoveMap(mappings[..i]) && MappingsDistinct(mappings[..i]) && to == Destinations(mappings[..i])
      invariant forall k :: k in mappings[..i] ==> MappingOk(k, before, after)
    {
      var mapping := mappings[i];
      assert mappings[..i + 1] == mappings[..i] + [mapping] && mapping in mappings;
      MapsDecide(mappings[..i], mapping);
      if !MappingOk(mapping, before, after) || mapping.to in to || mapping.from in m {
        if MappingsDistinct(mappings) {
          PrefixDistinct(mappings, i + 1);
        }
        return None;
      }
      m := m[mapping.from := mapping];
      to := to + {mapping.to};
    }
    assert mappings[..|mappings|] == mappings;
    var bijective := Resolve(m, before, after);
    return if bijective then Some(m) else None;
  }

  lemma NoMappings()
    ensures MoveMap([]) == map[] && MappingsDistinct([]) && Destinations([]) == {}
  {
  }

  lemma PrefixDistinct(mappings: seq<Mapping>, n: nat)
    requires n <= |mappings| && MappingsDistinct(mappings)
    ensures MappingsDistinct(mappings[..n])
  {
  }

  /** The image of some before-paths under the renaming. */
  ghost function Image(moves: Moves, names: set<string>): set<string> {
    set p | p in names :: Target(moves, p)
  }

  lemma ImageStep(moves: Moves, names: set<string>, p: string)
    ensures Image(moves, names + {p}) == Image(moves, names) + {Target(moves, p)}
    ensures Target(moves, p) in Image(moves, names) <==> exists q :: q in names && Target(moves, q) == Target(moves, p)
    ensures Image(moves, {}) == {}
  {
  }

  ghost predicate TargetOk(moves: Moves, before: Files, after: Files, p: string)
    requires p in before
  {
    Target(moves, p) in after && after[Target(moves, p)].kind == before[p].kind
  }

  /** The first resolving pass: targets exist, keep kinds and do not meet. */
  method ResolveTargets(moves: Moves, before: Files, after: Files) returns (ok: bool, resolved: set<string>)
    ensures ok <==> (forall p :: p in before ==> TargetOk(moves, before, after, p)) &&
                    forall p, q :: p in before && q in before && p != q ==> Target(moves, p) != Target(moves, q)
    ensures ok ==> resolved == Image(moves, before.Keys)
  {
    resolved := {};
    var todo := before.Keys;
    ghost var done: set<string> := {};
    ImageStep(moves, {}, "");
    hide Image, Target;
    while todo != {}
      invariant done !! todo && done + todo == before.Keys && resolved == Image(moves, done)
      invariant forall p :: p in done ==> TargetOk(moves, before, after, p)
      invariant forall p, q :: p in done && q in done && p != q ==> Target(moves, p) != Target(moves, q)
    {
      var name :| name in todo;
      var target := Target(moves, name);
      ImageStep(moves, done, name);
      if target !in after || target in resolved || after[target].kind != before[name].kind {
        return false, resolved;
      }
      resolved := resolved + {target};
      done := done + {name};
      todo := todo - {name};
    }
    assert done == before.Keys;
    return true, resolved;
  }

  method Resolve(moves: Moves, before: Files, after: Files) returns (ok: bool)
    ensures ok <==> Bijective(moves, before, after)
  {
    var resolved;
    ok, resolved := ResolveTargets(moves, before, after);
    hide Target;
    if !ok {
      return;
    }
    var todo := after.Keys;
    while todo != {}
      invariant todo <= after.Keys
      invariant forall n :: n in after && n !in todo ==> n in resolved
    {
      var name :| name in todo;
      if name !in resolved {
        return false;
      }
      todo := todo - {name};
    }
    return true;
  }

  method PreserveRefs(before: Files, after: Files, moves: Moves) returns (ok: bool)
    ensures ok <==> RefsPreserved(before, after, moves)
  {
    var todo := before.Keys;
    while todo != {}
      invariant todo <= before.Keys
      invariant forall p :: p in before && p !in todo ==>
        multiset(Renamed(moves, before[p].references)) == multiset(At(after, Target(moves, p)).references)
    {
      var name :| name in todo;
      var target := Target(moves, name);
      var refs: seq<string> := [];
      for i := 0 to |before[name].references|
        invariant refs == Renamed(moves, before[name].references[..i])
      {
        refs := refs + [Target(moves, before[name].references[i])];
      }
      assert before[name].references[..|before[name].references|] == before[name].references;
      var sorted := SortBy((s: string) => s, refs);
      var actual := SortBy((s: string) => s, At(after, target).references);
      if sorted != actual {
        if multiset(refs) == multiset(At(after, target).references) {
          SortedUnique((s: string) => s, sorted, actual);
        }
        return false;
      }
      todo := todo - {name};
    }
    return true;
  }

  // Cards

  lemma CardsStep(cards: seq<Card>, c: Card)
    requires CardsDistinct(cards)
    ensures CardsDistinct(cards + [c]) <==> forall d :: d in cards ==> d.identity != c.identity && d.path != c.path
  {
    var all := cards + [c];
    assert forall i :: 0 <= i < |cards| ==> all[i] == cards[i] && all[i] in cards;
    if CardsDistinct(all) {
      forall d | d in cards ensures d.identity != c.identity && d.path != c.path {
        var i :| 0 <= i < |cards| && cards[i] == d;
        assert all[i] == d && all[|cards|] == c;
      }
    }
  }

  /** The first pass of planCards: each card by itself, and no identity or path twice. */
  method CollectCards(cards: seq<Card>, files: Files, board: string) returns (ok: bool, ids: set<string>, paths: set<string>)
    ensures ok <==> CardsDistinct(cards) && forall c :: c in cards ==> CardOk(c, files, board)
    ensures ok ==> ids == (set c | c in cards :: c.identity) && paths == (set c | c in cards :: c.path)
  {
    hide PlanLabel, WithinBoard, NoRepeat;
    ids, paths := {}, {};
    for i := 0 to |cards|
      invariant ids == set c | c in cards[..i] :: c.identity
      invariant paths == set c | c in cards[..i] :: c.path
      invariant CardsDistinct(cards[..i]) && forall c :: c in cards[..i] ==> CardOk(c, files, board)
    {
      var card := cards[i];
      assert cards[..i + 1] == cards[..i] + [card] && card in cards;
      CardsStep(cards[..i], card);
      assert CardsDistinct(cards) ==> CardsDistinct(cards[..i + 1]);
      if !PlanLabel(card.identity) || !PlanLabel(card.state) || !PlanLabel(card.priority) || !WithinBoard(card.path, board)
         || At(files, card.path).kind != "card" || card.identity in ids || card.path in paths {
        return false, ids, paths;
      }
      ids := ids + {card.identity};
      paths := paths + {card.path};
      var distinct := AllDistinct(card.dependencies);
      if !distinct || "" in card.dependencies {
        return false, ids, paths;
      }
    }
    assert cards[..|cards|] == cards;
    return true, ids, paths;
  }

  /** The third pass of planCards: parents and dependencies name cards. */
  method GraphClosed(cards: seq<Card>, ids: set<string>) returns (ok: bool)
    requires forall c :: c in cards ==> "" !in c.dependencies
    ensures ok <==> forall c :: c in cards ==> (c.parent != "" ==> c.parent in ids) && forall d :: d in c.dependencies ==> d in ids
  {
    for i := 0 to |cards|
      invariant forall j :: 0 <= j < i ==>
        (cards[j].parent != "" ==> cards[j].parent in ids) && forall d :: d in cards[j].dependencies ==> d in ids
    {
      var deps, parent := cards[i].dependencies, cards[i].parent;
      var refs := deps + [parent];
      assert cards[i] in cards;
      for k := 0 to |refs|
        invariant forall j :: 0 <= j < k ==> refs[j] != "" ==> refs[j] in ids
      {
        if refs[k] != "" && refs[k] !in ids {
          assert k < |deps| ==> refs[k] in deps;
          return false;
        }
      }
      assert refs[|deps|] == parent;
      assert forall j :: 0 <= j < |deps| ==> deps[j] == refs[j] && deps[j] in deps;
    }
    return true;
  }

  lemma DependenciesNamed(cards: seq<Card>, files: Files, board: string)
    requires forall c :: c in cards ==> CardOk(c, files, board)
    ensures forall c :: c in cards ==> "" !in c.dependencies
  {
    hide PlanLabel, WithinBoard, NoRepeat;
  }

  method PlanCards(cards: seq<Card>, files: Files, board: string) returns (ok: bool)
    ensures ok <==> CardsOk(cards, files, board)
  {
    var collected, ids, paths := CollectCards(cards, files, board);
    if !collected {
      return false;
    }
    hide CardOk, CardsDistinct;
    DependenciesNamed(cards, files, board);
    var todo := files.Keys;
    while todo != {}
      invariant todo <= files.Keys
      invariant forall p :: p in files && p !in todo && files[p].kind == "card" ==> p in paths
    {
      var name :| name in todo;
      if files[name].kind == "card" && name !in paths {
        return false;
      }
      todo := todo - {name};
    }
    assert forall id :: id in ids <==> Known(cards, id);
    ok := GraphClosed(cards, ids);
  }

  method ByIdentity(cards: seq<Card>) returns (m: map<string, Card>)
    ensures m == CardMap(cards)
  {
    m := map[];
    for i := 0 to |cards|
      invariant m == CardMap(cards[..i])
    {
      assert cards[..i + 1][..i] == cards[..i];
      m := m[cards[i].identity := cards[i]];
    }
    assert cards[..|cards|] == cards;
  }

  lemma FollowsAsChecked(from: Card, to: Card, moves: Moves)
    ensures CardFollows(from, to, moves) <==>
      && from.state == to.state && SameContent(from, to)
      && if from.path in moves then
           to.path == moves[from.path].to && from.state == moves[from.path].fromState && from.state == moves[from.path].toState
         else to.path == from.path
  {
  }

  method CompareCards(before: seq<Card>, after: seq<Card>, moves: Moves) returns (ok: bool)
    ensures ok <==> CardsFollow(before, after, moves)
  {
    var left := ByIdentity(before);
    var right := ByIdentity(after);
    if |left| != |right| {
      return false;
    }
    ghost var follow := CardsFollow(before, after, moves);
    assert follow <==> forall id :: id in left ==> id in right && CardFollows(left[id], right[id], moves);
    hide CardMap, CardFollows, SameContent, CardsFollow;
    var todo := left.Keys;
    while todo != {}
      invariant todo <= left.Keys
      invariant forall id :: id in left && id !in todo ==> id in right && CardFollows(left[id], right[id], moves)
    {
      var id :| id in todo;
      if id !in right {
        return false;
      }
      FollowsAsChecked(left[id], right[id], moves);
      var from, to := left[id], right[id];
      var expected := from.path;
      if from.path in moves {
        var move := moves[from.path];
        expected := move.to;
        if from.state != to.state || from.state != move.fromState || from.state != move.toState {
          return false;
        }
      } else if from.state != to.state {
        return false;
      }
      if to.path != expected || !SameContent(from, to) {
        return false;
      }
      todo := todo - {id};
    }
    return true;
  }

  method ValidatePlan(plan: Plan, lower: char -> char) returns (ok: bool)
    requires LowersPaths(lower)
    ensures ok <==> Accepted(plan, lower)
  {
    hide HeaderOk, FilesOk, RefsOk, ClosureOk, BindingsOk, MappingsOk, RefsPreserved, CardsOk, CardsFollow, FileMap, MoveMap;
    if !HeaderOk(plan) {
      return false;
    }
    var before := PlanFiles(plan.before, lower);
    if before.None? {
      return false;
    }
    var after := PlanFiles(plan.after, lower);
    if after.None? {
      return false;
    }
    ok := PlanRefs(before.value);
    if !ok {
      return;
    }
    ok := PlanRefs(after.value);
    if !ok {
      return;
    }
    ok := PreserveClosure(plan.board, before.value, after.value);
    if !ok {
      return;
    }
    if !BindingsOk(plan, before.value) {
      return false;
    }
    var moves := PlanMappings(plan.mappings, before.value, after.value);
    if moves.None? {
      return false;
    }
    ok := PreserveRefs(before.value, after.value, moves.value);
    if !ok {
      return;
    }
    ok := PlanCards(plan.beforeCards, before.value, plan.board);
    if !ok {
      return;
    }
    ok := PlanCards(plan.afterCards, after.value, plan.board);
    if !ok {
      return;
    }
    ok := CompareCards(plan.beforeCards, plan.afterCards, moves.value);
  }
}
