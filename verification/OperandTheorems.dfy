/**
 * What the operand check means for a program that opens the operand: the
 * system's own path resolution never leaves the root.
 */
module OperandTheorems {
  import opened Wrappers
  import opened Text
  import opened Paths
  import opened OperandWalk

  /** At a directory, at a plain file, in a directory where the first of the names left is missing, or nowhere. */
  datatype End = Dir(path: Path) | Plain(path: Path) | Absent(path: Path, left: seq<string>) | Refused

  /**
   * A resolution: the directories in which it looked something up or ended, the
   * targets it followed, how it ended, and how many more links it may follow.
   */
  datatype Resolution = Resolution(visited: seq<Path>, followed: seq<Option<string>>, end: End, links: nat)

  function Before(dir: Path, followed: seq<Option<string>>, r: Resolution): Resolution {
    r.(visited := [dir] + r.visited, followed := followed + r.followed)
  }

  /** Resolution of a name as systems do it: a link is resolved to its end, then the rest from there. */
  function Resolve(tree: Tree, dir: Path, parts: seq<string>, links: nat): (r: Resolution)
    ensures r.links <= links && r.visited != [] && r.visited[0] == dir
    ensures r.end.Dir? || r.end.Absent? ==> r.end.path in r.visited
    decreases links, |parts|, 0
  {
    if parts == [] then Resolution([dir], [], Dir(dir), links)
    else
      var part, rest := parts[0], parts[1..];
      if Skipped(part) then Before(dir, [], Resolve(tree, dir, rest, links))
      else if part == ".." then Before(dir, [], Resolve(tree, Parent(dir), rest, links))
      else
        match tree(dir + [part])
        case Missing => Resolution([dir], [], Absent(dir, parts), links)
        case Unreadable => Resolution([dir], [], Refused, links)
        case Directory => Before(dir, [], Resolve(tree, dir + [part], rest, links))
        case File => Resolution([dir], [], if rest == [] then Plain(dir + [part]) else Refused, links)
        case Link(t) =>
          if links == 0 || t.None? || t.value == "" then Resolution([dir], [t], Refused, links)
          else
            var r := Resolve(tree, if t.value[0] == '/' then [] else dir, Split(t.value, '/'), links - 1);
            Before(dir, [t], After(tree, r, rest))
  }

  /** The parts behind a link, resolved from the end of the link. */
  function After(tree: Tree, r: Resolution, rest: seq<string>): (s: Resolution)
    requires r.visited != [] && (r.end.Dir? || r.end.Absent? ==> r.end.path in r.visited)
    ensures s.links <= r.links && s.visited != [] && s.visited[0] == r.visited[0]
    ensures s.end.Dir? || s.end.Absent? ==> s.end.path in s.visited
    decreases r.links, |rest|, 1
  {
    if rest == [] then r
    else
      match r.end
      case Dir(p) => Then(r, Resolve(tree, p, rest, r.links))
      case Plain(_) => r.(end := Refused)
      case Absent(p, more) => r.(end := Absent(p, more + rest))
      case Refused => r
  }

  function Then(r: Resolution, s: Resolution): Resolution {
    Resolution(r.visited + s.visited, r.followed + s.followed, s.end, s.links)
  }

  /** Every link it followed has a readable target that is not empty, not absolute and without backslashes. */
  ghost predicate FollowsRelative(r: Resolution) {
    forall t :: t in r.followed ==> t.Some? && t.value != "" && t.value[0] != '/' && forall c :: c in t.value ==> c != '\\'
  }

  ghost predicate AllInside(root: Path, visited: seq<Path>) {
    forall d :: d in visited ==> Inside(root, d)
  }

  /** Every directory the resolution was in, and where it ended, is inside the root. */
  ghost predicate StaysInside(root: Path, r: Resolution) {
    AllInside(root, r.visited) && (!r.end.Refused? ==> Inside(root, r.end.path))
  }

  // What is accepted stays inside

  /** Where the parts a ended, the rest b is still acceptable. */
  ghost predicate Continues(tree: Tree, root: Path, r: Resolution, b: seq<string>) {
    r.end.Dir? ==> exists d: nat :: d <= LINK_LIMIT && Accepts(tree, root, r.end.path, b, d)
  }

  lemma {:induction false} WalkContained(tree: Tree, root: Path, dir: Path, a: seq<string>, b: seq<string>, depth: nat, links: nat)
    requires depth <= LINK_LIMIT && Inside(root, dir) && Accepts(tree, root, dir, a + b, depth)
    ensures StaysInside(root, Resolve(tree, dir, a, links)) && FollowsRelative(Resolve(tree, dir, a, links))
    ensures Continues(tree, root, Resolve(tree, dir, a, links), b)
    decreases links, |a|
  {
    if a == [] {
      assert a + b == b;
    } else {
      var part, rest := a[0], a[1..];
      assert (a + b)[0] == part && (a + b)[1..] == rest + b;
      if Skipped(part) {
        WalkContained(tree, root, dir, rest, b, depth, links);
      } else if part == ".." {
        WalkContained(tree, root, Parent(dir), rest, b, depth, links);
      } else {
        match tree(dir + [part])
        case Missing =>
        case Unreadable =>
        case Directory =>
          WalkContained(tree, root, dir + [part], rest, b, depth, links);
        case File =>
          FileEnds(tree, root, dir + [part], rest, b, depth);
        case Link(t) =>
          if links > 0 {
            WalkLink(tree, root, dir, t, rest, b, depth, links);
          }
      }
    }
  }

  lemma FileEnds(tree: Tree, root: Path, file: Path, rest: seq<string>, b: seq<string>, depth: nat)
    requires depth <= LINK_LIMIT && rest + b == [] && Accepts(tree, root, file, rest + b, depth)
    ensures rest == [] && b == [] && Inside(root, file) && Accepts(tree, root, file, b, depth)
  {
    assert |rest + b| == |rest| + |b|;
  }

  lemma {:induction false} WalkLink(tree: Tree, root: Path, dir: Path, t: Option<string>, rest: seq<string>, b: seq<string>, depth: nat, links: nat)
    requires depth < LINK_LIMIT && links > 0 && Inside(root, dir) && RelativeTarget(t)
    requires Accepts(tree, root, dir, Split(t.value, '/') + (rest + b), depth + 1)
    ensures var r := Resolve(tree, dir, Split(t.value, '/'), links - 1);
      && StaysInside(root, r) && FollowsRelative(r)
      && (rest == [] ==> Continues(tree, root, r, b))
      && (r.end.Dir? && rest != [] ==>
            && StaysInside(root, Resolve(tree, r.end.path, rest, r.links)) && FollowsRelative(Resolve(tree, r.end.path, rest, r.links))
            && Continues(tree, root, Resolve(tree, r.end.path, rest, r.links), b))
    decreases links, 0
  {
    var target := Split(t.value, '/');
    WalkContained(tree, root, dir, target, rest + b, depth + 1, links - 1);
    var r := Resolve(tree, dir, target, links - 1);
    hide Accepts, Split, Resolve;
    if rest == [] {
      assert rest + b == b;
    } else if r.end.Dir? {
      var d: nat :| d <= LINK_LIMIT && Accepts(tree, root, r.end.path, rest + b, d);
      WalkContained(tree, root, r.end.path, rest, b, d, r.links);
    }
  }

  // Exactly what is accepted

  /** A tree in which every name is a directory. */
  const CREATED: Tree := _ => Directory

  /**
   * After a missing name the check asks whether the names left would stay inside
   * the root if all of them were there as directories.
   */
  lemma {:induction false} RestStaysInside(root: Path, current: Path, parts: seq<string>, links: nat)
    requires Inside(root, current)
    ensures LexicalRest(root, current, parts) <==> StaysInside(root, Resolve(CREATED, current, parts, links))
    decreases parts
  {
    if parts != [] {
      var next :=
        if Skipped(parts[0]) then current else if parts[0] == ".." then Parent(current) else current + [parts[0]];
      var r := Resolve(CREATED, next, parts[1..], links);
      assert StaysInside(root, Before(current, [], r)) <==> StaysInside(root, r);
      if Inside(root, next) {
        RestStaysInside(root, next, parts[1..], links);
      } else {
        assert r.visited[0] == next;
      }
    }
  }

  /** Contained all the way, by links the check admits, with an acceptable rest b behind its end. */
  ghost predicate Good(tree: Tree, root: Path, r: Resolution, b: seq<string>)
    requires r.links <= LINK_LIMIT
  {
    && AllInside(root, r.visited) && FollowsRelative(r)
    && match r.end
       case Dir(p) => Accepts(tree, root, p, b, LINK_LIMIT - r.links)
       case Plain(p) => Inside(root, p) && b == []
       case Absent(p, left) => LexicalRest(root, p, left + b)
       case Refused => false
  }

  lemma GoodBefore(tree: Tree, root: Path, dir: Path, followed: seq<Option<string>>, r: Resolution, b: seq<string>)
    requires r.links <= LINK_LIMIT && Inside(root, dir)
    ensures Good(tree, root, Before(dir, followed, r), b) <==> (forall t :: t in followed ==> RelativeTarget(t)) && Good(tree, root, r, b)
  {
    hide Accepts, LexicalRest;
    var s := Before(dir, followed, r);
    assert forall d :: d in s.visited <==> d == dir || d in r.visited;
    assert forall t :: t in s.followed <==> t in followed || t in r.followed;
  }

  lemma GoodThen(tree: Tree, root: Path, r: Resolution, s: Resolution, b: seq<string>)
    requires s.links <= LINK_LIMIT
    ensures Good(tree, root, Then(r, s), b) <==> AllInside(root, r.visited) && FollowsRelative(r) && Good(tree, root, s, b)
  {
    hide Accepts, LexicalRest;
    var all := Then(r, s);
    assert forall d :: d in all.visited <==> d in r.visited || d in s.visited;
    assert forall t :: t in all.followed <==> t in r.followed || t in s.followed;
  }

  /** The check of the parts a and then b is the resolution of a and then the check of b. */
  lemma {:induction false} AcceptsIffGood(tree: Tree, root: Path, dir: Path, a: seq<string>, b: seq<string>, depth: nat)
    requires depth <= LINK_LIMIT && Inside(root, dir)
    ensures Accepts(tree, root, dir, a + b, depth) <==> Good(tree, root, Resolve(tree, dir, a, LINK_LIMIT - depth), b)
    decreases LINK_LIMIT - depth, |a|, 0
  {
    if a == [] {
      assert a + b == b;
    } else {
      var part, rest := a[0], a[1..];
      assert (a + b)[0] == part && (a + b)[1..] == rest + b && |rest + b| == |rest| + |b|;
      if Skipped(part) {
        StepIffGood(tree, root, dir, dir, rest, b, depth);
      } else if part == ".." {
        StepIffGood(tree, root, dir, Parent(dir), rest, b, depth);
      } else {
        match tree(dir + [part])
        case Missing =>
        case Unreadable =>
        case Directory =>
          StepIffGood(tree, root, dir, dir + [part], rest, b, depth);
        case File =>
        case Link(t) =>
          if depth < LINK_LIMIT && t.Some? && t.value != "" {
            LinkIffGood(tree, root, dir, t, rest, b, depth);
          }
      }
    }
  }

  lemma {:induction false} StepIffGood(tree: Tree, root: Path, dir: Path, next: Path, rest: seq<string>, b: seq<string>, depth: nat)
    requires depth <= LINK_LIMIT && Inside(root, dir)
    ensures Good(tree, root, Before(dir, [], Resolve(tree, next, rest, LINK_LIMIT - depth)), b) <==>
      Inside(root, next) && Accepts(tree, root, next, rest + b, depth)
    decreases LINK_LIMIT - depth, |rest|, 1
  {
    var r := Resolve(tree, next, rest, LINK_LIMIT - depth);
    GoodBefore(tree, root, dir, [], r, b);
    assert r.visited[0] == next;
    hide Accepts, Resolve, LexicalRest;
    if Inside(root, next) {
      AcceptsIffGood(tree, root, next, rest, b, depth);
    }
  }

  lemma {:induction false} LinkIffGood(tree: Tree, root: Path, dir: Path, t: Option<string>, rest: seq<string>, b: seq<string>, depth: nat)
    requires depth < LINK_LIMIT && Inside(root, dir) && t.Some? && t.value != ""
    ensures
      var r := Resolve(tree, if t.value[0] == '/' then [] else dir, Split(t.value, '/'), LINK_LIMIT - depth - 1);
      Good(tree, root, Before(dir, [t], After(tree, r, rest)), b) <==>
        RelativeTarget(t) && Accepts(tree, root, dir, Split(t.value, '/') + (rest + b), depth + 1)
    decreases LINK_LIMIT - depth, 0, 0
  {
    hide Accepts, Resolve, LexicalRest, Split;
    var r := Resolve(tree, if t.value[0] == '/' then [] else dir, Split(t.value, '/'), LINK_LIMIT - depth - 1);
    GoodBefore(tree, root, dir, [t], After(tree, r, rest), b);
    if RelativeTarget(t) {
      AcceptsIffGood(tree, root, dir, Split(t.value, '/'), rest + b, depth + 1);
      AfterIffGood(tree, root, r, rest, b);
    }
  }

  lemma {:induction false} AfterIffGood(tree: Tree, root: Path, r: Resolution, rest: seq<string>, b: seq<string>)
    requires r.links <= LINK_LIMIT && r.visited != [] && (r.end.Dir? || r.end.Absent? ==> r.end.path in r.visited)
    ensures Good(tree, root, After(tree, r, rest), b) <==> Good(tree, root, r, rest + b)
    decreases r.links, |rest|, 1
  {
    hide Accepts, Resolve, LexicalRest;
    if rest == [] {
      assert rest + b == b;
    } else {
      assert |rest + b| == |rest| + |b|;
      match r.end
      case Dir(p) =>
        GoodThen(tree, root, r, Resolve(tree, p, rest, r.links), b);
        if Inside(root, p) {
          AcceptsIffGood(tree, root, p, rest, b, LINK_LIMIT - r.links);
        }
      case Plain(_) =>
      case Absent(p, more) =>
        assert more + rest + b == more + (rest + b);
      case Refused =>
    }
  }

  /**
   * Contained: the resolution is not refused, it stays inside the root, its links
   * have admissible targets, and if a name is missing, then the names from there on
   * would stay inside as well.
   */
  ghost predicate Contained(root: Path, r: Resolution) {
    && StaysInside(root, r) && FollowsRelative(r) && !r.end.Refused?
    && (r.end.Absent? ==> StaysInside(root, Resolve(CREATED, r.end.path, r.end.left, 0)))
  }

  lemma NothingLeft(tree: Tree, root: Path, p: Path, depth: nat)
    requires depth <= LINK_LIMIT
    ensures Accepts(tree, root, p, [], depth) <==> Inside(root, p)
  {
  }

  /** For every list of parts the walk accepts if and only if resolution within the link limit is contained. */
  lemma AllowedIffContained(tree: Tree, root: Path, parts: seq<string>)
    ensures Accepts(tree, root, root, parts, 0) <==> Contained(root, Resolve(tree, root, parts, 40))
  {
    hide Resolve, Accepts, LexicalRest;
    var r := Resolve(tree, root, parts, LINK_LIMIT);
    assert parts + [] == parts;
    AcceptsIffGood(tree, root, root, parts, [], 0);
    if r.end.Dir? {
      NothingLeft(tree, root, r.end.path, LINK_LIMIT - r.links);
    } else if r.end.Absent? {
      assert r.end.left + [] == r.end.left;
      if AllInside(root, r.visited) {
        RestStaysInside(root, r.end.path, r.end.left, 0);
      }
    }
  }

  /** In particular, for an operand that exists. */
  lemma ExistingIffContained(tree: Tree, root: Path, parts: seq<string>)
    requires var e := Resolve(tree, root, parts, LINK_LIMIT).end; e.Dir? || e.Plain?
    ensures var r := Resolve(tree, root, parts, LINK_LIMIT);
      Accepts(tree, root, root, parts, 0) <==> StaysInside(root, r) && FollowsRelative(r)
  {
    AllowedIffContained(tree, root, parts);
  }

  // The parts that do nothing

  function Strip(parts: seq<string>): seq<string> {
    if parts == [] then []
    else if Skipped(parts[0]) then Strip(parts[1..])
    else [parts[0]] + Strip(parts[1..])
  }

  lemma {:induction false} StripAppend(x: seq<string>, y: seq<string>)
    ensures Strip(x + y) == Strip(x) + Strip(y)
  {
    if x == [] {
      assert x + y == y;
    } else {
      assert (x + y)[0] == x[0] && (x + y)[1..] == x[1..] + y;
      StripAppend(x[1..], y);
    }
  }

  lemma {:induction false} StripTwice(x: seq<string>)
    ensures Strip(Strip(x)) == Strip(x)
  {
    if x != [] {
      StripTwice(x[1..]);
      if !Skipped(x[0]) {
        assert Strip(x)[1..] == Strip(x[1..]);
      }
    }
  }

  predicate EndsSkipped(parts: seq<string>) {
    parts != [] && Skipped(parts[|parts| - 1])
  }

  /**
   * Two resolutions that passed the same directories and links, and ended alike up
   * to names that do nothing; slashed: the second asked for a directory at its end.
   */
  ghost predicate Alike(s: Resolution, r: Resolution, slashed: bool) {
    && s.links == r.links && s.followed == r.followed
    && (forall d :: d in s.visited <==> d in r.visited)
    && match s.end
       case Dir(p) => r.end == s.end
       case Plain(p) => r.end == if slashed then Refused else s.end
       case Absent(p, left) => r.end.Absent? && r.end.path == p && Strip(left) == Strip(r.end.left)
       case Refused => r.end == Refused
  }

  lemma {:induction false} AllSkipped(parts: seq<string>)
    requires parts != [] && Strip(parts) == []
    ensures EndsSkipped(parts)
  {
    if parts[1..] != [] {
      AllSkipped(parts[1..]);
    }
  }

  /** Resolving with and without the parts that do nothing; only a file at the end tells them apart. */
  lemma {:induction false} ResolveStripped(tree: Tree, dir: Path, parts: seq<string>, links: nat)
    ensures Alike(Resolve(tree, dir, Strip(parts), links), Resolve(tree, dir, parts, links), EndsSkipped(parts))
    decreases links, |parts|, 0
  {
    if parts != [] {
      var part, rest := parts[0], parts[1..];
      assert rest != [] ==> EndsSkipped(rest) == EndsSkipped(parts);
      if Skipped(part) {
        ResolveStripped(tree, dir, rest, links);
      } else {
        assert Strip(parts)[0] == part && Strip(parts)[1..] == Strip(rest);
        if part == ".." {
          ResolveStripped(tree, Parent(dir), rest, links);
        } else {
          match tree(dir + [part])
          case Missing =>
            StripTwice(parts);
          case Unreadable =>
          case Directory =>
            ResolveStripped(tree, dir + [part], rest, links);
          case File =>
            if rest != [] && Strip(rest) == [] {
              AllSkipped(rest);
            }
          case Link(t) =>
            if links > 0 && t.Some? && t.value != "" && rest != [] {
              var s := Resolve(tree, if t.value[0] == '/' then [] else dir, Split(t.value, '/'), links - 1);
              StrippedAfter(tree, s, rest);
            }
        }
      }
    }
  }

  /** What follows a link. */
  lemma {:induction false} StrippedAfter(tree: Tree, s: Resolution, rest: seq<string>)
    requires rest != [] && s.visited != [] && (s.end.Dir? || s.end.Absent? ==> s.end.path in s.visited)
    ensures Alike(After(tree, s, Strip(rest)), After(tree, s, rest), EndsSkipped(rest))
    decreases s.links, |rest|, 1
  {
    if Strip(rest) == [] {
      AllSkipped(rest);
    }
    match s.end
    case Dir(p) =>
      ResolveStripped(tree, p, rest, s.links);
    case Plain(_) =>
    case Absent(_, more) =>
      StripAppend(more, rest);
      StripAppend(more, Strip(rest));
      StripTwice(rest);
    case Refused =>
  }

  lemma {:induction false} CreatedIsThere(dir: Path, parts: seq<string>, links: nat)
    ensures Resolve(CREATED, dir, parts, links).end.Dir?
    decreases parts
  {
    if parts != [] {
      var next := if Skipped(parts[0]) then dir else if parts[0] == ".." then Parent(dir) else dir + [parts[0]];
      CreatedIsThere(next, parts[1..], links);
    }
  }

  lemma AlikeContained(root: Path, s: Resolution, r: Resolution, slashed: bool)
    requires Alike(s, r, slashed) && !(slashed && s.end.Plain?)
    ensures StaysInside(root, s) <==> StaysInside(root, r)
    ensures Contained(root, s) <==> Contained(root, r)
  {
    hide Resolve;
    if s.end.Absent? {
      var p, x, y := s.end.path, s.end.left, r.end.left;
      var common := Resolve(CREATED, p, Strip(x), 0);
      CreatedIsThere(p, Strip(x), 0);
      ResolveStripped(CREATED, p, x, 0);
      ResolveStripped(CREATED, p, y, 0);
      assert StaysInside(root, Resolve(CREATED, p, x, 0)) <==> StaysInside(root, common);
      assert StaysInside(root, Resolve(CREATED, p, y, 0)) <==> StaysInside(root, common);
    }
  }

  // The operand as it is written

  lemma {:induction false} ReduceStrips(parts: seq<string>, done: seq<string>)
    requires ".." !in parts
    ensures Reduce(parts, false, done) == done + Strip(parts)
  {
    if parts == [] {
      assert done + [] == done;
    } else if Skipped(parts[0]) {
      ReduceStrips(parts[1..], done);
    } else {
      ReduceStrips(parts[1..], done + [parts[0]]);
      assert done + ([parts[0]] + Strip(parts[1..])) == done + [parts[0]] + Strip(parts[1..]);
    }
  }

  lemma {:induction false} StripKeeps(parts: seq<string>)
    ensures forall p :: p in Strip(parts) ==> p in parts && !Skipped(p)
  {
    if parts != [] {
      StripKeeps(parts[1..]);
    }
  }

  lemma JoinNotEmpty(parts: seq<string>)
    requires parts != [] && parts[0] != ""
    ensures Join(parts, '/') != ""
  {
  }

  lemma NoDotDot(operand: string)
    requires !HasDotDot(operand)
    ensures ".." !in Split(operand, '/')
  {
    SplitOne("..", '\\');
    assert ".." in [".."];
    assert ".." in Split(operand, '/') ==> HasDotDot(operand);
  }

  /** Cleaning an operand without dot-dot drops the empty parts and the dots. */
  lemma CleanStrips(operand: string)
    requires Lexical(operand)
    ensures Strip(Split(Clean(operand), '/')) == Strip(Split(operand, '/'))
    ensures EndsSkipped(Split(Clean(operand), '/')) ==> Strip(Split(operand, '/')) == []
  {
    var parts := Split(operand, '/');
    NoDotDot(operand);
    ReduceStrips(parts, []);
    StripKeeps(parts);
    StripTwice(parts);
    var kept := Strip(parts);
    assert [] + kept == kept;
    if kept == [] {
      SplitOne(".", '/');
      assert Clean(operand) == ".";
    } else {
      assert kept[0] in kept && kept[|kept| - 1] in kept;
      SplitJoin(kept, '/');
      JoinNotEmpty(kept);
      assert Clean(operand) == Join(kept, '/');
    }
  }

  /** The cleaned operand resolves like the operand as written, unless that asks for a directory where a file is. */
  lemma CleanedAlike(tree: Tree, root: Path, operand: string, links: nat)
    requires Lexical(operand)
    ensures Alike(Resolve(tree, root, Split(Clean(operand), '/'), links), Resolve(tree, root, Split(operand, '/'), links),
      EndsSkipped(Split(operand, '/')))
  {
    CleanStrips(operand);
    ResolveStripped(tree, root, Split(operand, '/'), links);
    ResolveStripped(tree, root, Split(Clean(operand), '/'), links);
    hide Lexical, Clean, Split;
  }

  /**
   * When snapshotPathAllowed accepts an operand, resolving the operand as it is
   * written, with any limit on links, never leaves the root: not in a directory
   * on the way, and not at its end.
   */
  lemma AllowedStaysInside(tree: Tree, root: Path, operand: string, links: nat)
    requires Lexical(operand) && Accepts(tree, root, root, Split(Clean(operand), '/'), 0)
    ensures StaysInside(root, Resolve(tree, root, Split(operand, '/'), links))
  {
    var parts := Split(Clean(operand), '/');
    CleanedAlike(tree, root, operand, links);
    hide Resolve, Lexical, Clean, Split;
    assert parts + [] == parts;
    WalkContained(tree, root, root, parts, [], 0, links);
  }

  /**
   * Whether an operand is accepted, by its resolution as written: what is contained
   * is accepted, and what is accepted is contained, except when the operand ends in
   * a slash or a dot and names a file.
   */
  lemma AllowedAsWritten(tree: Tree, root: Path, operand: string)
    requires Lexical(operand)
    ensures
      var written, cleaned := Split(operand, '/'), Split(Clean(operand), '/');
      var r := Resolve(tree, root, written, LINK_LIMIT);
      var accepted := Accepts(tree, root, root, cleaned, 0);
      var slashedFile := EndsSkipped(written) && Resolve(tree, root, cleaned, LINK_LIMIT).end.Plain?;
      && (Contained(root, r) ==> accepted)
      && (accepted ==> (Contained(root, r) <==> !slashedFile))
      && (slashedFile ==> r.end.Refused?)
  {
    var written, cleaned := Split(operand, '/'), Split(Clean(operand), '/');
    CleanedAlike(tree, root, operand, LINK_LIMIT);
    AllowedIffContained(tree, root, cleaned);
    var r, s := Resolve(tree, root, written, LINK_LIMIT), Resolve(tree, root, cleaned, LINK_LIMIT);
    hide Resolve, Lexical, Clean, Split, Accepts;
    if !(EndsSkipped(written) && s.end.Plain?) {
      AlikeContained(root, s, r, EndsSkipped(written));
    }
  }

  /** In particular, for an operand that exists as written. */
  lemma ExistingAsWritten(tree: Tree, root: Path, operand: string)
    requires Lexical(operand)
    requires var e := Resolve(tree, root, Split(operand, '/'), LINK_LIMIT).end; e.Dir? || e.Plain?
    ensures var r := Resolve(tree, root, Split(operand, '/'), LINK_LIMIT);
      Accepts(tree, root, root, Split(Clean(operand), '/'), 0) <==> StaysInside(root, r) && FollowsRelative(r)
  {
    hide Resolve, Lexical, Clean, Split, Accepts;
    AllowedAsWritten(tree, root, operand);
  }

  /** The exception happens: a file named with a slash behind it. */
  lemma SlashedFileAllowed(tree: Tree)
    requires tree(["f"]) == File
    ensures Lexical("f/") && Accepts(tree, [], [], Split(Clean("f/"), '/'), 0)
    ensures Resolve(tree, [], Split("f/", '/'), LINK_LIMIT).end.Refused?
  {
    var f, parts := "f", ["f", ""];
    assert Split("f/", '/') == parts by {
      SplitAt("f", "");
      SplitOne(f, '/');
      assert "f" + "/" + "" == "f/";
    }
    SplitOne(f, '/');
    SplitOne(f, '\\');
    SplitOne("", '\\');
    assert parts[1..] == [""] && [""][1..] == [] && [] + [f] == [f];
    assert Reduce(parts, false, []) == Reduce([""], false, [f]) == Reduce([], false, [f]) == [f];
    assert Clean("f/") == f;
    assert Accepts(tree, [], [f], [], 0);
  }

  // The words of the check

  /** Stepping down into a directory and up again leads back. */
  lemma UpUndoesDown(tree: Tree, dir: Path, name: string, rest: seq<string>, links: nat)
    requires tree(dir + [name]) == Directory && Ordinary(name)
    ensures Resolve(tree, dir, [name, ".."] + rest, links).end == Resolve(tree, dir, rest, links).end
  {
    var all := [name, ".."] + rest;
    assert all[1..] == [".."] + rest && ([".."] + rest)[1..] == rest;
    assert (dir + [name])[..|dir|] == dir;
  }

  predicate Slash(c: char) {
    c == '/' || c == '\\'
  }

  /** Two dots between slashes of either kind, or between a slash and an end. */
  predicate DotsAt(s: string, i: nat) {
    i + 2 <= |s| && s[i] == '.' && s[i + 1] == '.' && (i == 0 || Slash(s[i - 1])) && (i + 2 == |s| || Slash(s[i + 2]))
  }

  /** What the check asks of the text: not empty, no flag, not absolute, no dot-dot. Its clause about the cleaned operand adds nothing. */
  lemma LexicalMeans(operand: string)
    ensures Lexical(operand) <==> operand != "" && operand[0] != '-' && operand[0] != '/' && !exists i :: DotsAt(operand, i)
  {
    DotDotMeans(operand);
    if operand != "" && operand[0] != '-' && operand[0] != '/' && !HasDotDot(operand) {
      CleanHasNoDots(operand);
    }
  }

  lemma CleanHasNoDots(operand: string)
    requires operand != "" && operand[0] != '/' && !HasDotDot(operand)
    ensures Clean(operand) != ".." && !("../" <= Clean(operand))
  {
    var parts := Split(operand, '/');
    NoDotDot(operand);
    ReduceStrips(parts, []);
    StripKeeps(parts);
    var kept := Strip(parts);
    assert [] + kept == kept;
    if kept != [] {
      assert kept[0] in kept;
      SplitJoin(kept, '/');
      JoinNotEmpty(kept);
      hide Clean, Reduce, Strip;
      FirstIsNoDots(Clean(operand), kept);
    }
  }

  lemma FirstIsNoDots(clean: string, kept: seq<string>)
    requires kept != [] && kept[0] != ".." && Split(clean, '/') == kept
    ensures clean != ".." && !("../" <= clean)
  {
    SplitOne("..", '/');
    if "../" <= clean {
      assert clean == ".." + "/" + clean[3..];
      SplitAt("..", clean[3..]);
    }
  }

  /** Splitting at one kind of slash and then at the other finds exactly the dots between slashes of either kind. */
  lemma DotDotMeans(operand: string)
    ensures HasDotDot(operand) <==> exists i :: DotsAt(operand, i)
  {
    if HasDotDot(operand) {
      var p, f :| p in Split(operand, '/') && f in Split(p, '\\') && f == "..";
      var i := DotsOf(operand, p);
      assert DotsAt(operand, i);
    }
    if i :| DotsAt(operand, i) {
      DotsAreFound(operand, i);
    }
  }

  lemma DotsOf(operand: string, p: string) returns (i: nat)
    requires p in Split(operand, '/') && ".." in Split(p, '\\')
    ensures DotsAt(operand, i)
  {
    var k :| 0 <= k < |Split(operand, '/')| && Split(operand, '/')[k] == p;
    var a := PartIsSegment(operand, '/', k);
    var l :| 0 <= l < |Split(p, '\\')| && Split(p, '\\')[l] == "..";
    var b := PartIsSegment(p, '\\', l);
    hide Split;
    i := a + b;
    NestedDots(operand, a, p, b);
  }

  lemma NestedDots(s: string, a: nat, p: string, b: nat)
    requires Segment(s, '/', a, a + |p|) && s[a..a + |p|] == p && Segment(p, '\\', b, b + 2) && p[b..b + 2] == ".."
    ensures DotsAt(s, a + b)
  {
    assert p[b] == p[b..b + 2][0] && p[b + 1] == p[b..b + 2][1];
    assert s[a + b] == p[b] && s[a + b + 1] == p[b + 1];
    assert b > 0 ==> s[a + b - 1] == p[b - 1];
    assert b + 2 < |p| ==> s[a + b + 2] == p[b + 2];
  }

  lemma DotsAreFound(operand: string, i: nat)
    requires DotsAt(operand, i)
    ensures HasDotDot(operand)
  {
    var a, b := SegmentAround(operand, i);
    var p := operand[a..b];
    SegmentIsPart(operand, '/', a, b);
    var k := i - a;
    assert p[k] == '.' && p[k + 1] == '.';
    assert p[k..k + 2] == [p[k], p[k + 1]];
    SegmentIsPart(p, '\\', i - a, i - a + 2);
  }

  /** The segment between forward slashes around the dots. */
  lemma SegmentAround(s: string, i: nat) returns (a: nat, b: nat)
    requires DotsAt(s, i)
    ensures Segment(s, '/', a, b) && a <= i && i + 2 <= b
    ensures Segment(s[a..b], '\\', i - a, i - a + 2)
  {
    a, b := i, i + 2;
    while a > 0 && s[a - 1] != '/'
      invariant a <= i && forall n :: a <= n < i ==> s[n] != '/'
    {
      a := a - 1;
    }
    while b < |s| && s[b] != '/'
      invariant i + 2 <= b <= |s| && forall n :: i + 2 <= n < b ==> s[n] != '/'
    {
      b := b + 1;
    }
    DotsWithin(s, i, a, b);
  }

  lemma DotsWithin(s: string, i: nat, a: nat, b: nat)
    requires DotsAt(s, i) && a <= i && i + 2 <= b <= |s| && forall n :: a <= n < b ==> s[n] != '/'
    requires (a == 0 || s[a - 1] == '/') && (b == |s| || s[b] == '/')
    ensures Segment(s, '/', a, b) && Segment(s[a..b], '\\', i - a, i - a + 2)
  {
    var p := s[a..b];
    assert forall n :: 0 <= n < |p| ==> p[n] == s[a + n];
    var k := i - a;
    assert p[k..k + 2] == [p[k], p[k + 1]];
  }
}
