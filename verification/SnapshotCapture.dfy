/**
 * The path sets of internal/boardfiles/cards_only_capture_unix.go: proper
 * ancestors, and the budget of retained paths. Both loops stop climbing at the
 * first path they have seen before.
 */
module SnapshotCapture {
  import opened Paths
  import opened SnapshotBuild
  import Bytes

  const ENTRY_LIMIT := 100_000
  const PATH_LIMIT := 16_777_216

  predicate AllClean(tracked: set<string>) {
    forall p :: p in tracked ==> CleanRelative(p)
  }

  /** Above some tracked path. */
  ghost predicate Above(q: string, tracked: set<string>) {
    exists p :: p in tracked && IsAncestor(q, p)
  }

  ghost predicate AtOrAbove(q: string, tracked: set<string>) {
    q in tracked || Above(q, tracked)
  }

  /** The proper ancestors of the tracked paths: the parts before their slashes. */
  function ProperAncestors(tracked: set<string>): (all: set<string>)
    requires AllClean(tracked)
  {
    set p, k: nat | p in tracked && k < |p| && p[k] == '/' :: p[..k]
  }

  lemma AncestorsAreAbove(tracked: set<string>, q: string)
    requires AllClean(tracked)
    ensures q in ProperAncestors(tracked) <==> Above(q, tracked)
  {
    if q in ProperAncestors(tracked) {
      var p, k: nat :| p in tracked && k < |p| && p[k] == '/' && q == p[..k];
      assert p[0] != '/' by { assert CleanRelative(p); }
      assert IsAncestor(q, p);
    }
    if Above(q, tracked) {
      var p :| p in tracked && IsAncestor(q, p);
      assert p[..|q|] == q;
    }
  }

  // Climbing

  /** Directly above k is nothing, or something already found. */
  predicate Reaches(k: string, found: set<string>) {
    Dir(k) == "." || Dir(k) in found
  }

  ghost predicate ClosedBut(found: set<string>, but: string) {
    forall k :: k in found && k != but ==> Reaches(k, found)
  }

  lemma {:induction false} ClosedUnderAncestors(found: set<string>, p: string, q: string)
    requires CleanRelative(p) && IsAncestor(q, p) && Reaches(p, found) && forall k :: k in found ==> Reaches(k, found)
    ensures q in found
    decreases |p|
  {
    AncestorsOfParent(q, p);
    UpOne(p);
    hide IsAncestor, Dir, CleanRelative;
    if q != Dir(p) {
      ClosedUnderAncestors(found, Dir(p), q);
    }
  }

  // trackedDescendants

  /** On the way up from p, cur still lacks its parent. */
  ghost predicate Climb(found: set<string>, tracked: set<string>, done: set<string>, p: string, cur: string, parent: string) {
    && parent == Dir(cur) && ClosedBut(found, cur) && (forall k :: k in found ==> Above(k, tracked))
    && (forall k :: k in done ==> Reaches(k, found))
    && (parent != "." ==> IsAncestor(parent, p)) && (cur == p || Reaches(p, found))
  }

  /** Adding what was missing closes everything but what was added. */
  lemma CloseOne(found: set<string>, cur: string, next: string)
    requires ClosedBut(found, cur) && next == Dir(cur)
    ensures ClosedBut(found + {next}, next) && Reaches(cur, found + {next})
    ensures forall k :: Reaches(k, found) ==> Reaches(k, found + {next})
  {
    hide Dir;
  }

  lemma ClimbOne(found: set<string>, tracked: set<string>, done: set<string>, p: string, cur: string, parent: string)
    requires p in tracked && CleanRelative(p) && Climb(found, tracked, done, p, cur, parent) && parent != "." && parent !in found
    ensures Climb(found + {parent}, tracked, done, p, parent, Dir(parent))
    ensures Dir(parent) != "." ==> |Dir(parent)| < |parent|
  {
    AncestorsOfAncestor(parent, p);
    UpOne(parent);
    CloseOne(found, cur, parent);
    hide IsAncestor, Dir, CleanRelative, ClosedBut, Reaches;
    assert Above(parent, tracked);
    hide Above;
  }

  lemma ClimbOver(found: set<string>, tracked: set<string>, done: set<string>, p: string, cur: string, parent: string)
    requires Climb(found, tracked, done, p, cur, parent) && (parent == "." || parent in found)
    ensures ClosedBut(found, ".") && forall k :: k in done + {p} ==> Reaches(k, found)
  {
    hide IsAncestor, Dir;
    assert Reaches(cur, found);
  }

  /** Exactly the proper ancestors of the tracked paths, in whatever order they are visited. */
  method TrackedDescendants(tracked: set<string>) returns (found: set<string>)
    requires AllClean(tracked)
    ensures found == ProperAncestors(tracked)
  {
    found := {};
    var rest := tracked;
    hide IsAncestor, Dir, CleanRelative, Above, ProperAncestors;
    while rest != {}
      invariant rest <= tracked && ClosedBut(found, ".") && (forall k :: k in found ==> Above(k, tracked))
      invariant forall k :: k in tracked - rest ==> Reaches(k, found)
      decreases |rest|
    {
      var rel :| rel in rest;
      assert CleanRelative(rel);
      found := ClimbFrom(tracked, tracked - rest, found, rel);
      assert tracked - (rest - {rel}) == (tracked - rest) + {rel};
      rest := rest - {rel};
    }
    assert tracked - {} == tracked;
    FoundAll(found, tracked);
    forall q
      ensures q in found <==> q in ProperAncestors(tracked)
    {
      AncestorsAreAbove(tracked, q);
    }
  }

  method ClimbFrom(tracked: set<string>, ghost done: set<string>, start: set<string>, rel: string) returns (found: set<string>)
    requires rel in tracked && AllClean(tracked) && ClosedBut(start, ".") && forall k :: k in start ==> Above(k, tracked)
    requires forall k :: k in done ==> Reaches(k, start)
    ensures ClosedBut(found, ".") && (forall k :: k in found ==> Above(k, tracked)) && forall k :: k in done + {rel} ==> Reaches(k, found)
  {
    found := start;
    var parent := Dir(rel);
    ghost var cur := rel;
    ClimbFirst(start, tracked, done, rel);
    hide Dir, CleanRelative, Reaches, ClosedBut, Above;
    while parent != "."
      invariant Climb(found, tracked, done, rel, cur, parent)
      decreases if parent == "." then 0 else |parent| + 1
    {
      hide Climb;
      if parent in found { break; }
      ClimbOne(found, tracked, done, rel, cur, parent);
      found, cur := found + {parent}, parent;
      parent := Dir(parent);
    }
    ClimbOver(found, tracked, done, rel, cur, parent);
  }

  lemma ClimbFirst(found: set<string>, tracked: set<string>, done: set<string>, p: string)
    requires p in tracked && AllClean(tracked) && ClosedBut(found, ".") && forall k :: k in found ==> Above(k, tracked)
    requires forall k :: k in done ==> Reaches(k, found)
    ensures Climb(found, tracked, done, p, p, Dir(p))
  {
    UpOne(p);
    NoDotAbove(found, tracked);
    hide IsAncestor, Dir, CleanRelative, Above;
  }

  lemma NoDotAbove(found: set<string>, tracked: set<string>)
    requires AllClean(tracked) && forall k :: k in found ==> Above(k, tracked)
    ensures "." !in found && forall k :: k in found ==> CleanRelative(k)
  {
    DotIsUnclean();
    hide CleanRelative, IsAncestor;
    forall k | k in found
      ensures CleanRelative(k)
    {
      var p :| p in tracked && IsAncestor(k, p);
      AncestorIsClean(k, p);
    }
  }

  lemma FoundAll(found: set<string>, tracked: set<string>)
    requires AllClean(tracked) && ClosedBut(found, ".") && (forall k :: k in found ==> Above(k, tracked))
    requires forall k :: k in tracked ==> Reaches(k, found)
    ensures forall q :: q in found <==> Above(q, tracked)
  {
    NoDotAbove(found, tracked);
    hide IsAncestor, Dir, CleanRelative, Reaches;
    forall q | Above(q, tracked)
      ensures q in found
    {
      var p :| p in tracked && IsAncestor(q, p);
      ClosedUnderAncestors(found, p, q);
    }
  }

  // The path budget

  /** The number of bytes of a character in UTF-8. */
  function Width(c: char): nat {
    if c < '\U{80}' then 1 else if c < '\U{800}' then 2 else if c < '\U{10000}' then 3 else 4
  }

  lemma WidthIsEncoded(c: char)
    ensures Width(c) == |Bytes.Utf8Encode(c as int)|
  {
  }

  function ByteLength(s: string): nat {
    if s == "" then 0 else Width(s[0]) + ByteLength(s[1..])
  }

  ghost function TotalBytes(s: set<string>): nat {
    if s == {} then 0 else ByteLength(Pick(s)) + TotalBytes(s - {Pick(s)})
  }

  ghost function Pick(s: set<string>): (x: string)
    requires s != {}
    ensures x in s
  {
    var x :| x in s; x
  }

  lemma {:induction false} TotalWith(s: set<string>, x: string)
    requires x !in s
    ensures TotalBytes(s + {x}) == TotalBytes(s) + ByteLength(x)
    decreases |s|
  {
    var all := s + {x};
    hide ByteLength;
    var y := Pick(all);
    if y == x {
      assert all - {x} == s;
    } else {
      assert all - {y} == (s - {y}) + {x} && s == (s - {y}) + {y};
      TotalWith(s - {y}, x);
      TotalWith(s - {y}, y);
    }
  }

  lemma {:induction false} TotalGrows(s: set<string>, t: set<string>)
    requires s <= t
    ensures TotalBytes(s) <= TotalBytes(t) && |s| <= |t|
    decreases |t - s|
  {
    if s != t {
      assert t == s + (t - s);
      assert t - s != {};
      var x :| x in t - s;
      TotalWith(s, x);
      TotalGrows(s + {x}, t);
    }
  }

  /** capturePathBudget: the retained paths, their total length, and whether a limit was passed. */
  class PathBudget {
    var paths: set<string>
    var bytes: nat
    var exceeded: bool

    ghost predicate Valid()
      reads this
    {
      bytes == TotalBytes(paths) && (exceeded <==> |paths| > ENTRY_LIMIT || bytes > PATH_LIMIT)
    }

    constructor ()
      ensures Valid() && paths == {}
    {
      paths, bytes, exceeded := {}, 0, false;
    }

    /** A path counts once; nothing is added after a limit was passed. */
    method Add(rel: string)
      requires Valid()
      modifies this
      ensures Valid()
      ensures paths == if old(exceeded) then old(paths) else old(paths) + {rel}
    {
      if exceeded { return; }
      if rel in paths {
        assert paths == paths + {rel};
        return;
      }
      TotalWith(paths, rel);
      paths := paths + {rel};
      bytes := bytes + ByteLength(rel);
      exceeded := |paths| > ENTRY_LIMIT || bytes > PATH_LIMIT;
    }
  }

  /** What the budget is charged for: every tracked path and everything above it. */
  function Charged(tracked: set<string>): set<string>
    requires AllClean(tracked)
  {
    tracked + ProperAncestors(tracked)
  }

  lemma ChargedIs(tracked: set<string>, q: string)
    requires AllClean(tracked)
    ensures q in Charged(tracked) <==> AtOrAbove(q, tracked)
  {
    AncestorsAreAbove(tracked, q);
    hide ProperAncestors, Above;
  }

  /** Counting up from p: next is to be looked at; cur, the path counted last, still lacks its parent. */
  ghost predicate Counting(found: set<string>, tracked: set<string>, done: set<string>, p: string, cur: string, next: string) {
    && (forall k :: k in found ==> AtOrAbove(k, tracked)) && done <= found
    && ClosedBut(found, cur) && (next != "." ==> AtOrAbove(next, tracked))
    && ((next == p && cur == ".") || (p in found && next == Dir(cur)))
  }

  lemma AllCleanAbove(tracked: set<string>, k: string)
    requires AllClean(tracked) && AtOrAbove(k, tracked)
    ensures CleanRelative(k) && k != "."
  {
    DotIsUnclean();
    hide CleanRelative, IsAncestor;
    if Above(k, tracked) {
      var p :| p in tracked && IsAncestor(k, p);
      AncestorIsClean(k, p);
    }
  }

  lemma ParentIsAbove(tracked: set<string>, k: string)
    requires AllClean(tracked) && AtOrAbove(k, tracked) && Dir(k) != "."
    ensures AtOrAbove(Dir(k), tracked) && |Dir(k)| < |k|
  {
    AllCleanAbove(tracked, k);
    UpOne(k);
    hide CleanRelative, IsAncestor, Dir;
    if k !in tracked {
      var p :| p in tracked && IsAncestor(k, p);
      AncestorTransitive(Dir(k), k, p);
    }
  }

  lemma CountOne(found: set<string>, tracked: set<string>, done: set<string>, p: string, cur: string, next: string)
    requires AllClean(tracked) && Counting(found, tracked, done, p, cur, next) && next != "." && next !in found
    ensures Counting(found + {next}, tracked, done, p, next, Dir(next))
    ensures Dir(next) != "." ==> |Dir(next)| < |next|
  {
    var more := found + {next};
    if Dir(next) != "." {
      ParentIsAbove(tracked, next);
    }
    assert "." !in found by {
      if "." in found { AllCleanAbove(tracked, "."); }
    }
    hide Dir, AtOrAbove;
    assert forall k :: Reaches(k, found) ==> Reaches(k, more);
  }

  lemma CountOver(found: set<string>, tracked: set<string>, done: set<string>, p: string, cur: string, next: string)
    requires AllClean(tracked) && p in tracked && Counting(found, tracked, done, p, cur, next) && (next == "." || next in found)
    ensures ClosedBut(found, ".") && done + {p} <= found
  {
    AllCleanAbove(tracked, p);
    hide Dir, AtOrAbove, CleanRelative;
    assert cur != "." ==> Reaches(cur, found);
  }

  /** Closed and all tracked: the paths are exactly what is to be charged. */
  lemma CountedAll(found: set<string>, tracked: set<string>)
    requires AllClean(tracked) && (forall k :: k in found ==> AtOrAbove(k, tracked)) && ClosedBut(found, ".") && tracked <= found
    ensures found == Charged(tracked)
  {
    assert "." !in found by {
      if "." in found { AllCleanAbove(tracked, "."); }
    }
    forall q
      ensures q in found <==> q in Charged(tracked)
    {
      ChargedIs(tracked, q);
      hide Charged, Dir, CleanRelative;
      if Above(q, tracked) {
        hide IsAncestor;
        var p :| p in tracked && IsAncestor(q, p);
        ClosedUnderAncestors(found, p, q);
      }
    }
  }

  ghost predicate WithinLimits(all: set<string>) {
    |all| <= ENTRY_LIMIT && TotalBytes(all) <= PATH_LIMIT
  }

  /** The limits: 100 000 paths and 16 MiB of names. */
  lemma LimitsAre(all: set<string>)
    ensures WithinLimits(all) <==> |all| <= 100000 && TotalBytes(all) <= 16 * 1024 * 1024
  {
  }

  lemma PartExceeds(found: set<string>, tracked: set<string>)
    requires AllClean(tracked) && (forall k :: k in found ==> AtOrAbove(k, tracked)) && !WithinLimits(found)
    ensures !WithinLimits(Charged(tracked))
  {
    hide AtOrAbove, Charged, TotalBytes;
    forall k | k in found
      ensures k in Charged(tracked)
    {
      ChargedIs(tracked, k);
    }
    TotalGrows(found, Charged(tracked));
  }

  /**
   * newCapturePathBudget refuses exactly when the tracked paths with everything
   * above them pass a limit, whatever the order of the paths; otherwise those
   * are the paths it retains.
   */
  method NewCapturePathBudget(tracked: set<string>) returns (b: PathBudget)
    requires AllClean(tracked)
    ensures b.Valid() && fresh(b)
    ensures b.exceeded <==> !WithinLimits(Charged(tracked))
    ensures !b.exceeded ==> b.paths == Charged(tracked)
  {
    b := new PathBudget();
    var rest := tracked;
    assert tracked - rest == {} && ClosedBut({}, ".");
    hide IsAncestor, Dir, CleanRelative, AtOrAbove, Charged, TotalBytes;
    while rest != {}
      invariant rest <= tracked && b.Valid() && fresh(b) && !b.exceeded
      invariant (forall k :: k in b.paths ==> AtOrAbove(k, tracked)) && ClosedBut(b.paths, ".") && tracked - rest <= b.paths
      decreases |rest|
    {
      var rel :| rel in rest;
      ChargeFrom(b, tracked, tracked - rest, rel);
      if b.exceeded {
        PartExceeds(b.paths, tracked);
        return;
      }
      assert tracked - (rest - {rel}) == (tracked - rest) + {rel};
      rest := rest - {rel};
    }
    CountedAll(b.paths, tracked);
  }

  /** The inner loop. */
  method ChargeFrom(b: PathBudget, tracked: set<string>, ghost done: set<string>, rel: string)
    requires AllClean(tracked) && rel in tracked && b.Valid() && !b.exceeded
    requires (forall k :: k in b.paths ==> AtOrAbove(k, tracked)) && ClosedBut(b.paths, ".") && done <= b.paths
    modifies b
    ensures b.Valid() && forall k :: k in b.paths ==> AtOrAbove(k, tracked)
    ensures !b.exceeded ==> ClosedBut(b.paths, ".") && done + {rel} <= b.paths
  {
    var parent := rel;
    ghost var cur := ".";
    assert AtOrAbove(rel, tracked);
    assert Counting(b.paths, tracked, done, rel, cur, parent);
    hide Dir, CleanRelative, Reaches, ClosedBut, AtOrAbove, TotalBytes;
    while parent != "."
      invariant b.Valid() && !b.exceeded && Counting(b.paths, tracked, done, rel, cur, parent)
      decreases if parent == "." then 0 else |parent| + 1
    {
      if parent in b.paths { break; }
      CountOne(b.paths, tracked, done, rel, cur, parent);
      b.Add(parent);
      if b.exceeded { return; }
      cur := parent;
      parent := Dir(parent);
    }
    CountOver(b.paths, tracked, done, rel, cur, parent);
  }
}
