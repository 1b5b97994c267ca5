/**
 * newCardsOnlySnapshot: three loops over one map. Each loop has its own method
 * here; together they accept exactly the acceptable entries and build exactly
 * the snapshot that the naive forms describe.
 */
module SnapshotBuild {
  import opened Wrappers
  import opened Text
  import opened Paths
  import opened Sorting
  import opened Snapshot

  datatype CardsOnlySnapshot = CardsOnlySnapshot(source: Source, entries: map<string, Entry>, paths: seq<string>)

  // The entries by themselves

  ghost predicate AllOk(source: Source, entries: seq<Entry>) {
    forall i :: 0 <= i < |entries| ==> EntryOk(source, entries[i])
  }

  ghost predicate Loaded(m: map<string, Entry>, source: Source, entries: seq<Entry>) {
    && (forall q :: q in m <==> IsPath(q, entries))
    && forall i :: 0 <= i < |entries| ==> m[entries[i].path] == Stored(source, entries[i])
  }

  lemma LoadStep(m: map<string, Entry>, source: Source, entries: seq<Entry>, e: Entry)
    requires Loaded(m, source, entries) && Distinct(entries)
    ensures e.path in m <==> !Distinct(entries + [e])
    ensures e.path !in m ==> Loaded(m[e.path := Stored(source, e)], source, entries + [e])
  {
    hide Stored;
    var more := entries + [e];
    if e.path in m {
      var i :| 0 <= i < |entries| && entries[i].path == e.path;
      assert more[i].path == more[|entries|].path;
    } else {
      assert forall i :: 0 <= i < |entries| ==> entries[i].path in m;
      var n := m[e.path := Stored(source, e)];
      forall q
        ensures q in n <==> IsPath(q, more)
      {
        if IsPath(q, entries) {
          var i :| 0 <= i < |entries| && entries[i].path == q;
          assert more[i].path == q;
        }
        assert more[|entries|].path == e.path;
      }
    }
  }

  lemma NotDistinct(entries: seq<Entry>, k: nat)
    requires k <= |entries| && !Distinct(entries[..k])
    ensures !Distinct(entries)
  {
    var i, j :| 0 <= i < j < k && entries[..k][i].path == entries[..k][j].path;
    assert entries[i].path == entries[j].path;
  }

  method LoadEntries(source: Source, entries: seq<Entry>) returns (ok: bool, m: map<string, Entry>)
    ensures ok <==> AllOk(source, entries) && Distinct(entries)
    ensures ok ==> Loaded(m, source, entries)
  {
    hide EntryOk, Stored;
    m := map[];
    for i := 0 to |entries|
      invariant AllOk(source, entries[..i]) && Distinct(entries[..i]) && Loaded(m, source, entries[..i])
    {
      var e := entries[i];
      assert entries[..i + 1] == entries[..i] + [e];
      if !EntryOk(source, e) { return false, m; }
      LoadStep(m, source, entries[..i], e);
      if e.path in m {
        NotDistinct(entries, i + 1);
        return false, m;
      }
      hide Loaded, Distinct;
      m := m[e.path := Stored(source, e)];
    }
    assert entries[..|entries|] == entries;
    ok := true;
  }

  // The directories above them

  /** What is directly above k is a directory of the map. */
  predicate OneStep(k: string, m: map<string, Entry>) {
    Dir(k) == "." || (Dir(k) in m && m[Dir(k)].kind.Directory?)
  }

  /** The declared entries, and inferred directories above some of them. */
  ghost predicate Partial(m: map<string, Entry>, declared: map<string, Entry>, entries: seq<Entry>) {
    && (forall q :: q in declared ==> q in m && m[q] == declared[q])
    && (forall q :: q in m && q !in declared ==> IsAbove(q, entries) && m[q] == Inferred(q))
  }

  /** Every inferred directory but one has its parent, and so has every one of the first n entries. */
  ghost predicate Stepped(m: map<string, Entry>, declared: map<string, Entry>, entries: seq<Entry>, n: nat, but: string)
    requires n <= |entries|
  {
    && (forall q :: q in m && q !in declared && q != but ==> OneStep(q, m))
    && (forall i :: 0 <= i < n ==> OneStep(entries[i].path, m))
  }

  lemma AddInferred(m: map<string, Entry>, declared: map<string, Entry>, entries: seq<Entry>, n: nat, cur: string, p: string)
    requires n < |entries| && CleanRelative(entries[n].path) && Partial(m, declared, entries) && Stepped(m, declared, entries, n, cur)
    requires p == Dir(cur) && p != "." && p !in m && IsAncestor(p, entries[n].path)
    ensures var more := m[p := Inferred(p)];
      Partial(more, declared, entries) && Stepped(more, declared, entries, n, p) && OneStep(cur, more)
  {
    hide IsAncestor, Dir, CleanRelative;
    var more := m[p := Inferred(p)];
    assert forall k :: OneStep(k, m) ==> OneStep(k, more);
    assert IsAbove(p, entries);
  }

  /** A found ancestor that is no directory is an entry. */
  lemma BlockedBy(m: map<string, Entry>, declared: map<string, Entry>, source: Source, entries: seq<Entry>, n: nat, p: string)
    requires n < |entries| && Loaded(declared, source, entries) && Partial(m, declared, entries)
    requires p in m && !m[p].kind.Directory? && IsAncestor(p, entries[n].path)
    ensures !AncestorsAreDirs(entries)
  {
    hide IsAncestor;
    assert p in declared;
    var j :| 0 <= j < |entries| && entries[j].path == p;
    assert declared[entries[j].path] == Stored(source, entries[j]);
  }

  method FillAncestors(source: Source, entries: seq<Entry>, declared: map<string, Entry>) returns (ok: bool, m: map<string, Entry>)
    requires AllOk(source, entries) && Loaded(declared, source, entries)
    ensures ok <==> AncestorsAreDirs(entries)
    ensures ok ==> Filled(m, declared, entries)
  {
    m := declared;
    hide IsAncestor, Dir, Loaded;
    for n := 0 to |entries|
      invariant Partial(m, declared, entries) && Stepped(m, declared, entries, n, ".")
    {
      assert EntryOk(source, entries[n]);
      ok, m := FillAbove(source, entries, declared, m, n);
      if !ok { return; }
    }
    AllStepped(m, declared, source, entries);
    ok := true;
  }

  /** On the way up from entry n: cur is the one path that may still lack its parent. */
  ghost predicate Climbing(m: map<string, Entry>, declared: map<string, Entry>, entries: seq<Entry>, n: nat, cur: string, parent: string)
    requires n < |entries|
  {
    && parent == Dir(cur) && Partial(m, declared, entries) && Stepped(m, declared, entries, n, cur)
    && (parent != "." ==> CleanRelative(parent) && IsAncestor(parent, entries[n].path))
    && (cur == entries[n].path || (cur != "." && OneStep(entries[n].path, m)))
  }

  lemma ClimbStarts(m: map<string, Entry>, declared: map<string, Entry>, source: Source, entries: seq<Entry>, n: nat)
    requires n < |entries| && CleanRelative(entries[n].path) && AllOk(source, entries)
    requires Partial(m, declared, entries) && Stepped(m, declared, entries, n, ".")
    ensures Climbing(m, declared, entries, n, entries[n].path, Dir(entries[n].path))
  {
    UpOne(entries[n].path);
    hide IsAncestor, Dir, CleanRelative;
    forall q | q in m && q !in declared
      ensures q != "."
    {
      NotDot(q, source, entries);
    }
  }

  lemma ClimbStep(m: map<string, Entry>, declared: map<string, Entry>, entries: seq<Entry>, n: nat, cur: string, parent: string)
    requires n < |entries| && CleanRelative(entries[n].path)
    requires Climbing(m, declared, entries, n, cur, parent) && parent != "." && parent !in m
    ensures Climbing(m[parent := Inferred(parent)], declared, entries, n, parent, Dir(parent))
    ensures |parent| > 0 && (Dir(parent) != "." ==> |Dir(parent)| < |parent|)
  {
    AddInferred(m, declared, entries, n, cur, parent);
    AncestorsOfAncestor(parent, entries[n].path);
    UpOne(parent);
    var more := m[parent := Inferred(parent)];
    hide IsAncestor, Dir, CleanRelative, Partial, Stepped;
    if cur != entries[n].path {
      assert OneStep(entries[n].path, more);
    }
  }

  lemma ClimbEnds(m: map<string, Entry>, declared: map<string, Entry>, entries: seq<Entry>, n: nat, cur: string, parent: string)
    requires n < |entries| && Climbing(m, declared, entries, n, cur, parent)
    requires parent == "." || (parent in m && m[parent].kind.Directory?)
    ensures Partial(m, declared, entries) && Stepped(m, declared, entries, n + 1, ".")
  {
    hide IsAncestor, Dir, CleanRelative, Partial;
    assert OneStep(cur, m);
  }

  /** The inner loop: up from one entry until something is found. */
  method FillAbove(source: Source, entries: seq<Entry>, declared: map<string, Entry>, start: map<string, Entry>, n: nat)
    returns (ok: bool, m: map<string, Entry>)
    requires n < |entries| && CleanRelative(entries[n].path) && AllOk(source, entries) && Loaded(declared, source, entries)
    requires Partial(start, declared, entries) && Stepped(start, declared, entries, n, ".")
    ensures !ok ==> !AncestorsAreDirs(entries)
    ensures ok ==> Partial(m, declared, entries) && Stepped(m, declared, entries, n + 1, ".")
  {
    m := start;
    ghost var cur := entries[n].path;
    var parent := Dir(entries[n].path);
    ClimbStarts(m, declared, source, entries, n);
    hide IsAncestor, Dir, Loaded, CleanRelative, Partial, Stepped, AllOk, OneStep;
    while parent != "."
      invariant Climbing(m, declared, entries, n, cur, parent)
      decreases if parent == "." then 0 else |parent| + 1
    {
      if parent in m && !m[parent].kind.Directory? {
        BlockedBy(m, declared, source, entries, n, parent);
        return false, m;
      }
      if parent in m { break; }
      ClimbStep(m, declared, entries, n, cur, parent);
      m, cur := m[parent := Inferred(parent)], parent;
      parent := Dir(parent);
    }
    ClimbEnds(m, declared, entries, n, cur, parent);
    ok := true;
  }

  lemma DotIsUnclean()
    ensures !CleanRelative(".")
  {
  }

  lemma UpOne(p: string)
    requires CleanRelative(p)
    ensures Dir(p) != "." ==> CleanRelative(Dir(p)) && |Dir(p)| < |p| && IsAncestor(Dir(p), p)
  {
    DirOfClean(p);
  }

  lemma AncestorsOfAncestor(q: string, p: string)
    requires IsAncestor(q, p) && CleanRelative(p)
    ensures CleanRelative(q) && (Dir(q) != "." ==> IsAncestor(Dir(q), p))
  {
    AncestorIsClean(q, p);
    UpOne(q);
    if Dir(q) != "." {
      AncestorTransitive(Dir(q), q, p);
    }
  }

  /** The map has the domain of the naive form, and what was not declared is inferred. */
  ghost predicate Filled(m: map<string, Entry>, declared: map<string, Entry>, entries: seq<Entry>) {
    && (forall q :: q in m <==> InDomain(q, entries))
    && (forall q :: q in m ==> m[q] == if q in declared then declared[q] else Inferred(q))
  }

  lemma {:induction false} ClosedByStep(m: map<string, Entry>, p: string, q: string)
    requires CleanRelative(p) && IsAncestor(q, p) && OneStep(p, m)
    requires forall k :: k in m ==> OneStep(k, m)
    ensures q in m && m[q].kind.Directory?
    decreases |p|
  {
    AncestorsOfParent(q, p);
    UpOne(p);
    hide IsAncestor, Dir, CleanRelative;
    if q != Dir(p) {
      ClosedByStep(m, Dir(p), q);
    }
  }

  lemma EveryKeySteps(m: map<string, Entry>, declared: map<string, Entry>, source: Source, entries: seq<Entry>, k: string)
    requires AllOk(source, entries) && Loaded(declared, source, entries) && Partial(m, declared, entries)
    requires Stepped(m, declared, entries, |entries|, ".") && k in m
    ensures OneStep(k, m)
  {
    hide IsAncestor, Dir, CleanRelative, OneStep, EntryOk;
    DotIsUnclean();
    if k in declared {
      var i :| 0 <= i < |entries| && entries[i].path == k;
    } else {
      NotDot(k, source, entries);
    }
  }

  lemma AboveIsIn(m: map<string, Entry>, declared: map<string, Entry>, source: Source, entries: seq<Entry>, q: string)
    requires AllOk(source, entries) && Loaded(declared, source, entries) && Partial(m, declared, entries)
    requires Stepped(m, declared, entries, |entries|, ".") && IsAbove(q, entries)
    ensures q in m && m[q].kind.Directory?
  {
    forall k | k in m
      ensures OneStep(k, m)
    {
      EveryKeySteps(m, declared, source, entries, k);
    }
    hide IsAncestor, CleanRelative, OneStep, Stepped;
    var i :| 0 <= i < |entries| && IsAncestor(q, entries[i].path);
    assert EntryOk(source, entries[i]) && IsPath(entries[i].path, entries);
    ClosedByStep(m, entries[i].path, q);
  }

  lemma AllStepped(m: map<string, Entry>, declared: map<string, Entry>, source: Source, entries: seq<Entry>)
    requires AllOk(source, entries) && Loaded(declared, source, entries) && Partial(m, declared, entries)
    requires Stepped(m, declared, entries, |entries|, ".")
    ensures AncestorsAreDirs(entries) && Filled(m, declared, entries)
  {
    forall q | IsAbove(q, entries)
      ensures q in m && m[q].kind.Directory?
    {
      AboveIsIn(m, declared, source, entries, q);
    }
    hide AllOk, Stepped, IsAncestor;
    forall i, j | 0 <= i < |entries| && 0 <= j < |entries| && IsAncestor(entries[j].path, entries[i].path)
      ensures entries[j].kind.Directory?
    {
      assert IsAbove(entries[j].path, entries) && IsPath(entries[j].path, entries);
      assert declared[entries[j].path] == Stored(source, entries[j]);
    }
    hide IsAbove, AncestorsAreDirs;
    assert forall q :: q in m <==> InDomain(q, entries);
  }

  lemma NotDot(k: string, source: Source, entries: seq<Entry>)
    requires AllOk(source, entries) && IsAbove(k, entries)
    ensures k != "." && CleanRelative(k)
  {
    var i :| 0 <= i < |entries| && IsAncestor(k, entries[i].path);
    assert EntryOk(source, entries[i]);
    AncestorIsClean(k, entries[i].path);
  }

  // One pass from the last path to the first

  /** The next directory on the way from q down to p. */
  lemma {:induction false} ChildToward(q: string, p: string) returns (c: string)
    requires CleanRelative(p) && IsAncestor(q, p)
    ensures CleanRelative(c) && Dir(c) == q && (c == p || IsAncestor(c, p))
    decreases |p|
  {
    AncestorsOfParent(q, p);
    UpOne(p);
    hide Dir, CleanRelative, IsAncestor;
    if q == Dir(p) {
      c := p;
    } else {
      c := ChildToward(q, Dir(p));
      if c != Dir(p) {
        AncestorTransitive(c, Dir(p), p);
      }
    }
  }

  /** c stands directly below q and makes it tracked. */
  ghost predicate Raises(c: string, q: string, source: Source, entries: seq<Entry>) {
    InDomain(c, entries) && CleanRelative(c) && Dir(c) == q && (source.NonGit? || Tracked(c, source, entries))
  }

  /** One level is enough: what is tracked below a directory shows in its children. */
  lemma TrackedByChildren(q: string, source: Source, entries: seq<Entry>)
    requires AllOk(source, entries) && q != "."
    ensures Tracked(q, source, entries) <==> MarkedAt(q, source, entries) || exists c :: Raises(c, q, source, entries)
  {
    if MarkedBelow(q, source, entries) {
      ChildOfMarked(q, source, entries);
    }
    if exists c :: Raises(c, q, source, entries) {
      var c :| Raises(c, q, source, entries);
      RaisedIsMarked(c, q, source, entries);
    }
  }

  lemma ChildOfMarked(q: string, source: Source, entries: seq<Entry>)
    requires AllOk(source, entries) && MarkedBelow(q, source, entries)
    ensures exists c :: Raises(c, q, source, entries)
  {
    hide IsAncestor, Dir, CleanRelative;
    var i :| 0 <= i < |entries| && IsAncestor(q, entries[i].path) && (source.NonGit? || Mark(source, entries[i]));
    assert EntryOk(source, entries[i]);
    var c := ChildToward(q, entries[i].path);
    assert IsPath(entries[i].path, entries);
    assert InDomain(c, entries);
    assert Raises(c, q, source, entries);
  }

  lemma RaisedIsMarked(c: string, q: string, source: Source, entries: seq<Entry>)
    requires Raises(c, q, source, entries) && q != "."
    ensures MarkedBelow(q, source, entries)
  {
    UpOne(c);
    hide Dir, CleanRelative, IsAncestor;
    if IsPath(c, entries) && (source.NonGit? || MarkedAt(c, source, entries)) {
      var i :| 0 <= i < |entries| && entries[i].path == c && (source.NonGit? || Mark(source, entries[i]));
      assert IsAncestor(q, entries[i].path);
    } else {
      assert IsAbove(c, entries);
      var i :| 0 <= i < |entries| && IsAncestor(c, entries[i].path) && (source.NonGit? || Mark(source, entries[i]));
      AncestorTransitive(q, c, entries[i].path);
    }
  }

  /** The tracked mark of q once the paths from i on are done. */
  ghost predicate MarkSoFar(q: string, paths: seq<string>, i: nat, source: Source, entries: seq<Entry>) {
    MarkedAt(q, source, entries) || exists j :: i <= j < |paths| && Raises(paths[j], q, source, entries)
  }

  /** Children come after their parent in the order of paths. */
  lemma ChildrenAreLater(paths: seq<string>, keys: set<string>, k: nat, source: Source, entries: seq<Entry>)
    requires Lists(Itself, paths, keys) && (forall q :: q in keys <==> InDomain(q, entries)) && AllOk(source, entries)
    requires k < |paths| && paths[k] != "."
    ensures MarkSoFar(paths[k], paths, k + 1, source, entries) <==> Tracked(paths[k], source, entries)
  {
    var q := paths[k];
    TrackedByChildren(q, source, entries);
    hide MarkedAt, Tracked;
    if exists c :: Raises(c, q, source, entries) {
      var c :| Raises(c, q, source, entries);
      assert c in paths;
      var j :| 0 <= j < |paths| && paths[j] == c;
      UpOne(c);
      hide Dir, CleanRelative;
      LaterThanPrefix(paths, k, j);
    }
  }

  lemma LaterThanPrefix(paths: seq<string>, k: nat, j: nat)
    requires NoRepeat(paths) && SortedBy(Itself, paths) && k < |paths| && j < |paths| && IsAncestor(paths[k], paths[j])
    ensures k < j
  {
    PrefixIsLe(paths[k], paths[j]);
    LeTotal(paths[k], paths[j]);
    hide Le;
    assert j < k ==> Le(Itself(paths[j]), Itself(paths[k]));
  }

  /** The map with its marks as they are after the paths from i on. */
  ghost predicate Marked(m: map<string, Entry>, filled: map<string, Entry>, paths: seq<string>, i: nat, source: Source, entries: seq<Entry>) {
    && m.Keys == filled.Keys
    && (forall q :: q in m ==> m[q] == filled[q].(tracked := m[q].tracked))
    && (forall q :: q in m ==> (m[q].tracked <==> MarkSoFar(q, paths, i, source, entries)))
  }

  lemma OneMoreMark(q: string, paths: seq<string>, i: nat, source: Source, entries: seq<Entry>)
    requires i < |paths|
    ensures MarkSoFar(q, paths, i, source, entries) <==> MarkSoFar(q, paths, i + 1, source, entries) || Raises(paths[i], q, source, entries)
  {
    hide MarkedAt, Raises;
    if exists j :: i <= j < |paths| && Raises(paths[j], q, source, entries) {
      var j :| i <= j < |paths| && Raises(paths[j], q, source, entries);
      assert j == i || i + 1 <= j;
    }
  }

  lemma MarkAtTop(m: map<string, Entry>, filled: map<string, Entry>, paths: seq<string>, i: nat, source: Source, entries: seq<Entry>)
    requires i < |paths| && Marked(m, filled, paths, i + 1, source, entries) && Dir(paths[i]) == "." && "." !in m
    ensures Marked(m, filled, paths, i, source, entries)
  {
    forall q | q in m
      ensures MarkSoFar(q, paths, i, source, entries) <==> MarkSoFar(q, paths, i + 1, source, entries)
    {
      OneMoreMark(q, paths, i, source, entries);
      hide MarkSoFar, Tracked, Dir, CleanRelative;
    }
    hide MarkSoFar;
  }

  lemma MarkParent(m: map<string, Entry>, filled: map<string, Entry>, paths: seq<string>, i: nat, source: Source, entries: seq<Entry>,
                   more: map<string, Entry>)
    requires i < |paths| && Marked(m, filled, paths, i + 1, source, entries) && InDomain(paths[i], entries) && CleanRelative(paths[i])
    requires paths[i] in m && (m[paths[i]].tracked <==> Tracked(paths[i], source, entries)) && Dir(paths[i]) in m
    requires var d := Dir(paths[i]); more == m[d := m[d].(tracked := m[d].tracked || m[paths[i]].tracked || source.NonGit?)]
    ensures Marked(more, filled, paths, i, source, entries)
  {
    hide Dir, CleanRelative, Tracked, InDomain, MarkSoFar;
    forall q | q in m
      ensures more[q].tracked <==> MarkSoFar(q, paths, i, source, entries)
    {
      OneMoreMark(q, paths, i, source, entries);
    }
    hide Raises;
    assert more.Keys == m.Keys;
  }

  lemma NothingMarkedYet(filled: map<string, Entry>, declared: map<string, Entry>, paths: seq<string>, source: Source, entries: seq<Entry>)
    requires Loaded(declared, source, entries) && Distinct(entries) && Filled(filled, declared, entries)
    ensures Marked(filled, filled, paths, |paths|, source, entries)
  {
    hide IsAbove, Tracked, Mark;
    forall q | q in filled
      ensures filled[q].tracked <==> MarkedAt(q, source, entries)
    {
      if IsPath(q, entries) {
        var i :| 0 <= i < |entries| && entries[i].path == q;
        OnlyMark(q, i, source, entries);
        assert declared[entries[i].path] == Stored(source, entries[i]);
      }
    }
  }

  lemma OnlyMark(q: string, i: nat, source: Source, entries: seq<Entry>)
    requires Distinct(entries) && i < |entries| && entries[i].path == q
    ensures MarkedAt(q, source, entries) <==> Mark(source, entries[i])
  {
    hide Mark;
    assert forall j :: 0 <= j < |entries| && entries[j].path == q ==> j == i;
  }

  /** A directory in the domain of an index or a tree with nothing tracked: what the pass refuses. */
  lemma EmptyFound(filled: map<string, Entry>, declared: map<string, Entry>, source: Source, entries: seq<Entry>, q: string)
    requires Loaded(declared, source, entries) && Filled(filled, declared, entries) && (source.Index? || source.Ref?)
    requires q in filled && filled[q].kind.Directory? && !Tracked(q, source, entries)
    ensures !NoEmptyDirectory(source, entries)
  {
    hide Tracked, IsAbove;
    forall i | 0 <= i < |entries| && entries[i].path == q
      ensures entries[i].kind.Directory?
    {
      assert declared[entries[i].path] == Stored(source, entries[i]) && IsPath(q, entries);
    }
    assert IsDirectory(q, entries);
  }

  lemma DirectoryInMap(filled: map<string, Entry>, declared: map<string, Entry>, source: Source, entries: seq<Entry>, q: string)
    requires Loaded(declared, source, entries) && Filled(filled, declared, entries) && IsDirectory(q, entries)
    ensures q in filled && filled[q].kind.Directory?
  {
    hide IsAbove;
    if q in declared {
      var i :| 0 <= i < |entries| && entries[i].path == q;
      assert declared[entries[i].path] == Stored(source, entries[i]);
    }
  }

  lemma AllMarked(m: map<string, Entry>, filled: map<string, Entry>, declared: map<string, Entry>, paths: seq<string>, source: Source, entries: seq<Entry>)
    requires Loaded(declared, source, entries) && Filled(filled, declared, entries) && AllOk(source, entries)
    requires Marked(m, filled, paths, 0, source, entries) && Lists(Itself, paths, filled.Keys) && "." !in filled
    ensures IsSnapshot(m, source, entries)
  {
    hide Tracked, IsAbove, SortedBy, NoRepeat, MarkSoFar;
    forall q | q in m
      ensures Describes(m[q], q, source, entries)
    {
      MarkIsFinal(q, paths, source, entries);
      DescribesFilled(m, filled, declared, source, entries, q);
    }
  }

  lemma MarkIsFinal(q: string, paths: seq<string>, source: Source, entries: seq<Entry>)
    requires AllOk(source, entries) && q != "." && forall k :: InDomain(k, entries) ==> k in paths
    ensures MarkSoFar(q, paths, 0, source, entries) <==> Tracked(q, source, entries)
  {
    TrackedByChildren(q, source, entries);
    hide Tracked, MarkedAt;
    if exists c :: Raises(c, q, source, entries) {
      var c :| Raises(c, q, source, entries);
      assert c in paths;
    }
  }

  lemma DescribesFilled(m: map<string, Entry>, filled: map<string, Entry>, declared: map<string, Entry>, source: Source, entries: seq<Entry>, q: string)
    requires Loaded(declared, source, entries) && Filled(filled, declared, entries) && q in m && q in filled
    requires m[q] == filled[q].(tracked := m[q].tracked) && (m[q].tracked <==> Tracked(q, source, entries))
    ensures Describes(m[q], q, source, entries)
  {
    hide Tracked, IsAbove;
    forall i | 0 <= i < |entries| && entries[i].path == q
      ensures m[q] == Stored(source, entries[i]).(tracked := m[q].tracked)
    {
      assert declared[entries[i].path] == Stored(source, entries[i]) && IsPath(q, entries);
    }
  }

  method PropagateTracked(source: Source, entries: seq<Entry>, ghost declared: map<string, Entry>, filled: map<string, Entry>, paths: seq<string>)
    returns (ok: bool, m: map<string, Entry>)
    requires AllOk(source, entries) && Distinct(entries) && AncestorsAreDirs(entries) && Loaded(declared, source, entries)
    requires Filled(filled, declared, entries) && Lists(Itself, paths, filled.Keys)
    ensures ok <==> NoEmptyDirectory(source, entries)
    ensures ok ==> IsSnapshot(m, source, entries)
  {
    hide Marked, AllOk, Loaded, Distinct, AncestorsAreDirs, Lists, Filled, IsSnapshot, NoEmptyDirectory, DirsTracked, CleanRelative;
    m := filled;
    NothingMarkedYet(filled, declared, paths, source, entries);
    NoDot(source, entries, filled, declared);
    DirsAbovePass(filled, paths, source, entries);
    for i := |paths| downto 0
      invariant Marked(m, filled, paths, i, source, entries) && DirsTracked(filled, paths, i, source, entries)
    {
      ok, m := PropagateOne(source, entries, declared, filled, paths, i, m);
      if !ok { return; }
    }
    AllMarked(m, filled, declared, paths, source, entries);
    NoneEmpty(filled, declared, paths, source, entries);
    ok := true;
  }

  /** One turn of the pass. */
  method PropagateOne(source: Source, entries: seq<Entry>, ghost declared: map<string, Entry>, ghost filled: map<string, Entry>,
                      paths: seq<string>, i: nat, before: map<string, Entry>)
    returns (ok: bool, m: map<string, Entry>)
    requires AllOk(source, entries) && AncestorsAreDirs(entries) && Loaded(declared, source, entries)
    requires Filled(filled, declared, entries) && Lists(Itself, paths, filled.Keys)
    requires "." !in filled && forall q :: q in filled ==> CleanRelative(q)
    requires i < |paths| && Marked(before, filled, paths, i + 1, source, entries) && DirsTracked(filled, paths, i + 1, source, entries)
    ensures !ok ==> !NoEmptyDirectory(source, entries)
    ensures ok ==> Marked(m, filled, paths, i, source, entries) && DirsTracked(filled, paths, i, source, entries)
  {
    m := before;
    var rel := paths[i];
    hide Dir, CleanRelative, Tracked, Marked, AllOk, Loaded, InDomain, AncestorsAreDirs, Lists, Filled, NoEmptyDirectory, DirsTracked;
    RelIs(m, filled, declared, paths, i, source, entries);
    if (source.Index? || source.Ref?) && m[rel].kind.Directory? && !m[rel].tracked {
      EmptyFound(filled, declared, source, entries, rel);
      return false, m;
    }
    DirsStep(filled, paths, i, source, entries);
    var parent := Dir(rel);
    if parent != "." {
      var dir := m[parent];
      m := m[parent := dir.(tracked := dir.tracked || m[rel].tracked || source.NonGit?)];
      MarkParent(before, filled, paths, i, source, entries, m);
    } else {
      MarkAtTop(m, filled, paths, i, source, entries);
    }
    ok := true;
  }

  /** In an index or a tree, the directories from i on are tracked. */
  ghost predicate DirsTracked(filled: map<string, Entry>, paths: seq<string>, i: nat, source: Source, entries: seq<Entry>) {
    (source.Index? || source.Ref?) ==>
      forall j :: i <= j < |paths| && paths[j] in filled && filled[paths[j]].kind.Directory? ==> Tracked(paths[j], source, entries)
  }

  lemma DirsAbovePass(filled: map<string, Entry>, paths: seq<string>, source: Source, entries: seq<Entry>)
    ensures DirsTracked(filled, paths, |paths|, source, entries)
  {
  }

  lemma DirsStep(filled: map<string, Entry>, paths: seq<string>, i: nat, source: Source, entries: seq<Entry>)
    requires i < |paths| && DirsTracked(filled, paths, i + 1, source, entries)
    requires (source.Index? || source.Ref?) && paths[i] in filled && filled[paths[i]].kind.Directory? ==> Tracked(paths[i], source, entries)
    ensures DirsTracked(filled, paths, i, source, entries)
  {
    hide Tracked;
  }

  lemma NoneEmpty(filled: map<string, Entry>, declared: map<string, Entry>, paths: seq<string>, source: Source, entries: seq<Entry>)
    requires Loaded(declared, source, entries) && Filled(filled, declared, entries) && Lists(Itself, paths, filled.Keys)
    requires DirsTracked(filled, paths, 0, source, entries)
    ensures NoEmptyDirectory(source, entries)
  {
    hide Tracked, IsDirectory, Loaded, InDomain, SortedBy, NoRepeat;
    forall q | (source.Index? || source.Ref?) && IsDirectory(q, entries)
      ensures Tracked(q, source, entries)
    {
      DirectoryInMap(filled, declared, source, entries, q);
      assert q in paths;
    }
  }

  lemma NoDot(source: Source, entries: seq<Entry>, filled: map<string, Entry>, declared: map<string, Entry>)
    requires AllOk(source, entries) && Filled(filled, declared, entries)
    ensures "." !in filled && forall q :: q in filled ==> CleanRelative(q)
  {
    DotIsUnclean();
    hide CleanRelative, IsAncestor;
    forall q | q in filled
      ensures CleanRelative(q)
    {
      if IsAbove(q, entries) {
        NotDot(q, source, entries);
      } else {
        var i :| 0 <= i < |entries| && entries[i].path == q;
        assert EntryOk(source, entries[i]);
      }
    }
  }

  /** At its turn a path has its final mark, and its parent is in the map. */
  lemma RelIs(m: map<string, Entry>, filled: map<string, Entry>, declared: map<string, Entry>, paths: seq<string>, i: nat, source: Source, entries: seq<Entry>)
    requires i < |paths| && Marked(m, filled, paths, i + 1, source, entries) && Lists(Itself, paths, filled.Keys)
    requires AllOk(source, entries) && AncestorsAreDirs(entries) && Filled(filled, declared, entries) && "." !in filled
    requires forall q :: q in filled ==> CleanRelative(q)
    ensures CleanRelative(paths[i]) && "." !in m && paths[i] in filled && paths[i] in m && InDomain(paths[i], entries)
    ensures m[paths[i]].tracked <==> Tracked(paths[i], source, entries)
    ensures m[paths[i]].kind == filled[paths[i]].kind
    ensures Dir(paths[i]) != "." ==> Dir(paths[i]) in m
  {
    assert paths[i] in paths;
    ChildrenAreLater(paths, filled.Keys, i, source, entries);
    UpOne(paths[i]);
    hide Tracked, SortedBy, NoRepeat, MarkSoFar, Dir, CleanRelative, IsAncestor;
    if Dir(paths[i]) != "." {
      DomainIsClosed(Dir(paths[i]), paths[i], entries);
    }
  }

  /** newCardsOnlySnapshot. */
  method NewCardsOnlySnapshot(source: Source, entries: seq<Entry>) returns (r: Option<CardsOnlySnapshot>)
    ensures r.Some? <==> Acceptable(source, entries)
    ensures r.Some? ==> r.value.source == source && IsSnapshot(r.value.entries, source, entries)
    ensures r.Some? ==> Lists(Itself, r.value.paths, r.value.entries.Keys)
  {
    hide EntryOk, Distinct, AncestorsAreDirs, NoEmptyDirectory, IsSnapshot, Loaded, Filled;
    if source.UnknownSource? { return None; }
    var ok, declared := LoadEntries(source, entries);
    if !ok { return None; }
    var filled: map<string, Entry>;
    ok, filled := FillAncestors(source, entries, declared);
    if !ok { return None; }
    var paths := SortSet(Itself, filled.Keys);
    hide Lists;
    var m: map<string, Entry>;
    ok, m := PropagateTracked(source, entries, declared, filled, paths);
    if !ok { return None; }
    SameDomain(m, filled, declared, source, entries);
    r := Some(CardsOnlySnapshot(source, m, paths));
  }

  lemma SameDomain(m: map<string, Entry>, filled: map<string, Entry>, declared: map<string, Entry>, source: Source, entries: seq<Entry>)
    requires IsSnapshot(m, source, entries) && Filled(filled, declared, entries)
    ensures m.Keys == filled.Keys
  {
    hide InDomain, Describes;
  }
}
