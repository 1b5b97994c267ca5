/**
 * Snapshots of internal/boardfiles/cards_only_snapshot.go: what is accepted and
 * what the result is, said of the entries directly and without any order.
 */
module Snapshot {
  import opened Text
  import opened Paths
  import opened Bytes

  datatype Source = Worktree | Index | Ref | NonGit | UnknownSource

  /** fs.FileMode.Type; every other combination of type bits is Contradictory. */
  datatype Kind = Regular | Directory | Symlink | NamedPipe | Socket | Device | CharDevice | Irregular | Contradictory

  datatype Entry = Entry(
    path: string,
    kind: Kind,
    tracked: bool,
    data: Bytes,
    descendantTracked: bool,
    missing: bool,
    inferred: bool,
    indexLeaf: bool)

  /** The path of an entry: relative, clean, below the board, and without backslash or control characters. */
  predicate SafePath(p: string) {
    CleanRelative(p) && '\\' !in p && !HasControl(p)
  }

  function Base(p: string): string {
    p[LastSlash(p) + 1..]
  }

  predicate EntryOk(source: Source, e: Entry) {
    && SafePath(e.path)
    && (e.kind.Directory? ==> e.data == [])
    && (e.descendantTracked ==> e.kind.Directory? && (Base(e.path) == ".ce" || Base(e.path) == ".git"))
    && !e.kind.Contradictory?
    && (e.missing ==> source.Worktree? && e.tracked && e.kind.Regular? && e.data == [])
  }

  /** Whether the entry itself says it is tracked. */
  predicate Mark(source: Source, e: Entry) {
    if e.kind.Directory? then source.NonGit? || (source.Worktree? && e.tracked) || e.descendantTracked
    else source != Worktree || e.tracked
  }

  /** The entry as it is stored. */
  function Stored(source: Source, e: Entry): Entry {
    e.(inferred := false, indexLeaf := source.Worktree? && e.tracked, tracked := Mark(source, e))
  }

  function Inferred(p: string): Entry {
    Entry(p, Directory, false, [], false, false, true, false)
  }

  // The naive forms

  predicate IsPath(q: string, entries: seq<Entry>) {
    exists i :: 0 <= i < |entries| && entries[i].path == q
  }

  /** Above some entry. */
  predicate IsAbove(q: string, entries: seq<Entry>) {
    exists i :: 0 <= i < |entries| && IsAncestor(q, entries[i].path)
  }

  predicate InDomain(q: string, entries: seq<Entry>) {
    IsPath(q, entries) || IsAbove(q, entries)
  }

  predicate MarkedAt(q: string, source: Source, entries: seq<Entry>) {
    exists i :: 0 <= i < |entries| && entries[i].path == q && Mark(source, entries[i])
  }

  /** Some entry below q says it is tracked; outside Git any entry below q will do. */
  predicate MarkedBelow(q: string, source: Source, entries: seq<Entry>) {
    exists i :: 0 <= i < |entries| && IsAncestor(q, entries[i].path) && (source.NonGit? || Mark(source, entries[i]))
  }

  predicate Tracked(q: string, source: Source, entries: seq<Entry>) {
    MarkedAt(q, source, entries) || MarkedBelow(q, source, entries)
  }

  predicate Distinct(entries: seq<Entry>) {
    forall i, j :: 0 <= i < j < |entries| ==> entries[i].path != entries[j].path
  }

  /** Whatever is above an entry is no entry of another kind than a directory. */
  predicate AncestorsAreDirs(entries: seq<Entry>) {
    forall i, j :: 0 <= i < |entries| && 0 <= j < |entries| && IsAncestor(entries[j].path, entries[i].path) ==>
      entries[j].kind.Directory?
  }

  predicate IsDirectory(q: string, entries: seq<Entry>) {
    InDomain(q, entries) && forall i :: 0 <= i < |entries| && entries[i].path == q ==> entries[i].kind.Directory?
  }

  /** An index or a tree holds no directory without anything tracked in it. */
  ghost predicate NoEmptyDirectory(source: Source, entries: seq<Entry>) {
    source.Index? || source.Ref? ==> forall q :: IsDirectory(q, entries) ==> Tracked(q, source, entries)
  }

  ghost predicate Acceptable(source: Source, entries: seq<Entry>) {
    && !source.UnknownSource?
    && (forall i :: 0 <= i < |entries| ==> EntryOk(source, entries[i]))
    && Distinct(entries) && AncestorsAreDirs(entries) && NoEmptyDirectory(source, entries)
  }

  /** What is stored at q once all is done. */
  ghost predicate Describes(e: Entry, q: string, source: Source, entries: seq<Entry>) {
    && e.path == q && e.tracked == Tracked(q, source, entries)
    && (forall i :: 0 <= i < |entries| && entries[i].path == q ==> e == Stored(source, entries[i]).(tracked := e.tracked))
    && (!IsPath(q, entries) ==> e == Inferred(q).(tracked := e.tracked))
  }

  ghost predicate IsSnapshot(m: map<string, Entry>, source: Source, entries: seq<Entry>) {
    (forall q :: q in m <==> InDomain(q, entries)) && forall q :: q in m ==> Describes(m[q], q, source, entries)
  }

  // What the result promises

  lemma DomainIsClosed(q: string, p: string, entries: seq<Entry>)
    requires InDomain(p, entries) && IsAncestor(q, p)
    ensures InDomain(q, entries)
  {
    if IsAbove(p, entries) {
      var i :| 0 <= i < |entries| && IsAncestor(p, entries[i].path);
      AncestorTransitive(q, p, entries[i].path);
    }
  }

  lemma AboveIsDirectory(q: string, entries: seq<Entry>)
    requires AncestorsAreDirs(entries) && IsAbove(q, entries)
    ensures IsDirectory(q, entries)
  {
  }

  /** The snapshot is closed under ancestors, and every ancestor is a directory. */
  lemma AncestorClosed(m: map<string, Entry>, source: Source, entries: seq<Entry>, p: string, q: string)
    requires Acceptable(source, entries) && IsSnapshot(m, source, entries) && p in m && IsAncestor(q, p)
    ensures q in m && m[q].kind.Directory?
  {
    DomainIsClosed(q, p, entries);
    assert IsAbove(q, entries) by {
      if IsAbove(p, entries) {
        var i :| 0 <= i < |entries| && IsAncestor(p, entries[i].path);
        AncestorTransitive(q, p, entries[i].path);
      }
    }
    AboveIsDirectory(q, entries);
    assert Describes(m[q], q, source, entries);
  }

  lemma MarkedOrBelow(m: map<string, Entry>, source: Source, entries: seq<Entry>, q: string)
    requires Acceptable(source, entries) && IsSnapshot(m, source, entries) && q in m && m[q].kind.Directory?
    ensures m[q].tracked <==> MarkedAt(q, source, entries) || source.NonGit? || exists p :: p in m && IsAncestor(q, p) && m[p].tracked
  {
    assert Describes(m[q], q, source, entries);
    if source.NonGit? {
      if IsPath(q, entries) {
        var i :| 0 <= i < |entries| && entries[i].path == q;
        assert Mark(source, entries[i]);
      }
    }
    if MarkedBelow(q, source, entries) && !source.NonGit? {
      var i :| 0 <= i < |entries| && IsAncestor(q, entries[i].path) && Mark(source, entries[i]);
      var p := entries[i].path;
      assert InDomain(p, entries) && Describes(m[p], p, source, entries) && MarkedAt(p, source, entries);
    }
    if exists p :: p in m && IsAncestor(q, p) && m[p].tracked {
      var p :| p in m && IsAncestor(q, p) && m[p].tracked;
      assert Describes(m[p], p, source, entries);
      TrackedRises(q, p, source, entries);
    }
  }

  /** The entry of a directory that says by itself that it is tracked: in a worktree by the index, anywhere by what it hides. */
  predicate SaysTracked(source: Source, e: Entry) {
    (source == Worktree && e.tracked) || e.descendantTracked
  }

  /**
   * A directory is tracked exactly when its own entry says so, when the source
   * is not Git, or when something below it is tracked.
   */
  lemma DirectoryTracked(m: map<string, Entry>, source: Source, entries: seq<Entry>, q: string)
    requires Acceptable(source, entries) && IsSnapshot(m, source, entries) && q in m && m[q].kind.Directory?
    ensures m[q].tracked <==>
      || (exists e :: e in entries && e.path == q && SaysTracked(source, e))
      || source == NonGit
      || exists p :: p in m && IsAncestor(q, p) && m[p].tracked
  {
    MarkedOrBelow(m, source, entries, q);
    assert Describes(m[q], q, source, entries);
    forall i | 0 <= i < |entries| && entries[i].path == q
      ensures Mark(source, entries[i]) <==> SaysTracked(source, entries[i]) || source == NonGit
    {
      assert m[q] == Stored(source, entries[i]).(tracked := m[q].tracked);
    }
    hide Mark, SaysTracked, IsAncestor, Describes, IsSnapshot, Acceptable;
    if e :| e in entries && e.path == q && SaysTracked(source, e) {
      var i :| 0 <= i < |entries| && entries[i] == e;
    }
    if MarkedAt(q, source, entries) && source != NonGit {
      var i :| 0 <= i < |entries| && entries[i].path == q && Mark(source, entries[i]);
      assert entries[i] in entries;
    }
  }

  /** Anything else is in the snapshot as it was given, and is tracked exactly when its entry says so or the source is no worktree. */
  lemma LeafKept(m: map<string, Entry>, source: Source, entries: seq<Entry>, e: Entry)
    requires Acceptable(source, entries) && IsSnapshot(m, source, entries) && e in entries && !e.kind.Directory?
    ensures e.path in m
    ensures var f := m[e.path];
      && f.kind == e.kind && f.data == e.data && f.missing == e.missing && !f.inferred
      && (f.tracked <==> e.tracked || source != Worktree) && (f.indexLeaf <==> source == Worktree && e.tracked)
  {
    var i :| 0 <= i < |entries| && entries[i] == e;
    assert IsPath(e.path, entries) && Describes(m[e.path], e.path, source, entries);
    LeafMarks(source, entries, i);
  }

  lemma LeafMarks(source: Source, entries: seq<Entry>, i: nat)
    requires Acceptable(source, entries) && i < |entries| && !entries[i].kind.Directory?
    ensures Tracked(entries[i].path, source, entries) <==> Mark(source, entries[i])
  {
    hide Mark, EntryOk, IsAncestor, NoEmptyDirectory;
    assert MarkedAt(entries[i].path, source, entries) <==> Mark(source, entries[i]);
  }

  /** A directory is in the snapshot as it was given, or was inferred from what lies below it, with nothing in it. */
  lemma DirectoryKept(m: map<string, Entry>, source: Source, entries: seq<Entry>, q: string)
    requires Acceptable(source, entries) && IsSnapshot(m, source, entries) && q in m
    ensures m[q].path == q
    ensures m[q].inferred <==> !exists e :: e in entries && e.path == q
    ensures m[q].inferred ==> m[q] == Entry(q, Directory, m[q].tracked, [], false, false, true, false) && exists e :: e in entries && IsAncestor(q, e.path)
    ensures forall e :: e in entries && e.path == q ==>
      m[q] == e.(tracked := m[q].tracked, inferred := false, indexLeaf := source == Worktree && e.tracked)
  {
    assert Describes(m[q], q, source, entries);
    hide IsAncestor, Tracked, Acceptable;
    forall e | e in entries && e.path == q
      ensures IsPath(q, entries) && m[q] == Stored(source, e).(tracked := m[q].tracked)
    {
      var i :| 0 <= i < |entries| && entries[i] == e;
    }
    if !IsPath(q, entries) {
      var i :| 0 <= i < |entries| && IsAncestor(q, entries[i].path);
      assert entries[i] in entries;
    }
  }

  lemma TrackedRises(q: string, p: string, source: Source, entries: seq<Entry>)
    requires IsAncestor(q, p) && Tracked(p, source, entries)
    ensures MarkedBelow(q, source, entries)
  {
    if MarkedBelow(p, source, entries) {
      var i :| 0 <= i < |entries| && IsAncestor(p, entries[i].path) && (source.NonGit? || Mark(source, entries[i]));
      AncestorTransitive(q, p, entries[i].path);
    }
  }

  /** An accepted index or tree has no directory that neither is tracked itself nor has anything tracked below it. */
  lemma NothingEmpty(m: map<string, Entry>, source: Source, entries: seq<Entry>, q: string)
    requires Acceptable(source, entries) && IsSnapshot(m, source, entries) && (source.Index? || source.Ref?)
    requires q in m && m[q].kind.Directory?
    ensures m[q].tracked
  {
    assert Describes(m[q], q, source, entries);
    forall i | 0 <= i < |entries| && entries[i].path == q
      ensures entries[i].kind.Directory?
    {
      assert m[q] == Stored(source, entries[i]).(tracked := m[q].tracked);
    }
    assert IsDirectory(q, entries);
  }

  lemma Covered(q: string, source: Source, a: seq<Entry>, b: seq<Entry>)
    requires forall e :: e in a ==> e in b
    ensures (IsPath(q, a) ==> IsPath(q, b)) && (IsAbove(q, a) ==> IsAbove(q, b))
    ensures Tracked(q, source, a) ==> Tracked(q, source, b)
  {
    hide IsAncestor, Mark;
    forall i | 0 <= i < |a|
      ensures exists j :: 0 <= j < |b| && b[j] == a[i]
    {
      assert a[i] in b;
    }
  }

  lemma DescribedOnce(e: Entry, f: Entry, q: string, source: Source, entries: seq<Entry>)
    requires Describes(e, q, source, entries) && Describes(f, q, source, entries)
    ensures e == f
  {
    hide Tracked, Stored;
  }

  lemma DescribedAlike(e: Entry, q: string, source: Source, a: seq<Entry>, b: seq<Entry>)
    requires Describes(e, q, source, a) && forall x :: x in a <==> x in b
    ensures Describes(e, q, source, b)
  {
    Covered(q, source, a, b);
    Covered(q, source, b, a);
    hide Tracked, Stored;
    forall i | 0 <= i < |b| && b[i].path == q
      ensures e == Stored(source, b[i]).(tracked := e.tracked)
    {
      assert b[i] in a;
    }
  }

  lemma StoredAlike(m: map<string, Entry>, n: map<string, Entry>, source: Source, a: seq<Entry>, b: seq<Entry>, q: string)
    requires (forall e :: e in a <==> e in b) && IsSnapshot(m, source, a) && IsSnapshot(n, source, b)
    ensures (q in m <==> q in n) && (q in m ==> m[q] == n[q])
  {
    hide Describes, IsPath, IsAbove;
    Covered(q, source, a, b);
    Covered(q, source, b, a);
    if q in m {
      DescribedAlike(m[q], q, source, a, b);
      DescribedOnce(m[q], n[q], q, source, b);
    }
  }

  /** The same entries in another order give the same snapshot. */
  lemma OrderIsIrrelevant(m: map<string, Entry>, n: map<string, Entry>, source: Source, a: seq<Entry>, b: seq<Entry>)
    requires (forall e :: e in a <==> e in b) && IsSnapshot(m, source, a) && IsSnapshot(n, source, b)
    ensures m == n
  {
    hide IsSnapshot;
    forall q
      ensures (q in m <==> q in n) && (q in m ==> m[q] == n[q])
    {
      StoredAlike(m, n, source, a, b, q);
    }
  }

  // What an entry may be

  /** A path of ordinary parts, without backslashes and control characters. */
  predicate PlainPath(p: string) {
    (forall part :: part in Split(p, '/') ==> part !in ["", ".", ".."]) && forall c :: c in p ==> c != '\\' && !IsControl(c)
  }

  lemma SafePathMeans(p: string)
    ensures SafePath(p) <==> PlainPath(p)
  {
    hide CleanRelative, Split, IsControl;
    CleanRelativeParts(p);
    ControlFree(p);
    assert forall part :: Ordinary(part) <==> part !in ["", ".", ".."];
    assert '\\' !in p <==> forall c :: c in p ==> c != '\\';
  }

  lemma ControlFree(p: string)
    ensures HasControl(p) <==> exists c :: c in p && IsControl(c)
  {
    hide IsControl;
    if HasControl(p) {
      var i :| 0 <= i < |p| && IsControl(p[i]);
      assert p[i] in p;
    }
    if c :| c in p && IsControl(c) {
      var i :| 0 <= i < |p| && p[i] == c;
    }
  }

  /** The last part of a path. */
  predicate Named(p: string, name: string) {
    Split(p, '/')[|Split(p, '/')| - 1] == name
  }

  lemma LastAfter(a: string, b: string)
    requires '/' !in b
    ensures Named(a + "/" + b, b)
  {
    hide Split;
    SplitOne(b, '/');
    SplitAt(a, b);
  }

  lemma BaseIsLast(p: string)
    ensures Named(p, Base(p))
  {
    hide Split, LastSlash;
    var k := LastSlash(p);
    if k >= 0 {
      assert p == p[..k] + "/" + p[k + 1..];
      LastAfter(p[..k], p[k + 1..]);
    } else {
      assert p[0..] == p;
      SplitOne(p, '/');
    }
  }

  /**
   * What is accepted of one entry: a plain path and one kind; no bytes in a
   * directory; hidden tracked files only in a directory named .ce or .git; and
   * missing only as an empty tracked regular file of a worktree.
   */
  lemma EntryMeans(source: Source, e: Entry)
    ensures EntryOk(source, e) <==>
      && PlainPath(e.path) && e.kind != Contradictory
      && (e.kind == Directory ==> |e.data| == 0)
      && (e.descendantTracked ==> e.kind == Directory && (Named(e.path, ".ce") || Named(e.path, ".git")))
      && (e.missing ==> source == Worktree && e.tracked && e.kind == Regular && |e.data| == 0)
  {
    SafePathMeans(e.path);
    BaseIsLast(e.path);
    hide SafePath, PlainPath, Base, Split;
  }
}
