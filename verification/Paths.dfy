/** Slash-separated relative paths: path.Clean, path.Dir and what makes a path an ancestor. */
module Paths {
  import opened Text

  /** One step of path.Clean over the components of a path. */
  function Reduce(parts: seq<string>, rooted: bool, done: seq<string>): seq<string> {
    if parts == [] then done
    else if parts[0] == "" || parts[0] == "." then Reduce(parts[1..], rooted, done)
    else if parts[0] == ".." then
      if done != [] && done[|done| - 1] != ".." then Reduce(parts[1..], rooted, done[..|done| - 1])
      else if rooted then Reduce(parts[1..], rooted, done)
      else Reduce(parts[1..], rooted, done + [".."])
    else Reduce(parts[1..], rooted, done + [parts[0]])
  }

  function Clean(p: string): string {
    var rooted := p != "" && p[0] == '/';
    var out := Join(Reduce(Split(p, '/'), rooted, []), '/');
    if rooted then "/" + out else if out == "" then "." else out
  }

  predicate Ordinary(part: string) {
    part != "" && part != "." && part != ".."
  }

  /** A relative path that cleaning leaves alone and that stays below where it starts. */
  predicate CleanRelative(p: string) {
    p != "" && Clean(p) == p && p[0] != '/' && p != "." && p != ".." && !("../" <= p)
  }

  // What Reduce leaves behind

  /** No empty or dot parts, and dot-dot only at the front. */
  predicate Reduced(parts: seq<string>) {
    && (forall i :: 0 <= i < |parts| ==> parts[i] != "" && parts[i] != "." && '/' !in parts[i])
    && (forall i, j :: 0 <= i < j < |parts| && parts[j] == ".." ==> parts[i] == "..")
  }

  lemma {:induction false} ReduceIsReduced(parts: seq<string>, rooted: bool, done: seq<string>)
    requires Reduced(done) && forall p :: p in parts ==> '/' !in p
    ensures Reduced(Reduce(parts, rooted, done))
  {
    if parts != [] {
      var rest := parts[1..];
      if parts[0] == "" || parts[0] == "." {
        ReduceIsReduced(rest, rooted, done);
      } else if parts[0] == ".." {
        if done != [] && done[|done| - 1] != ".." {
          ReduceIsReduced(rest, rooted, done[..|done| - 1]);
        } else if rooted {
          ReduceIsReduced(rest, rooted, done);
        } else {
          assert forall i :: 0 <= i < |done| ==> done[i] == ".." by {
            assert done != [] ==> done[|done| - 1] == "..";
          }
          ReduceIsReduced(rest, rooted, done + [".."]);
        }
      } else {
        ReduceIsReduced(rest, rooted, done + [parts[0]]);
      }
    }
  }

  lemma {:induction false} ReduceKeepsOrdinary(parts: seq<string>, rooted: bool, done: seq<string>)
    requires forall p :: p in parts ==> Ordinary(p)
    ensures Reduce(parts, rooted, done) == done + parts
  {
    if parts != [] {
      assert Ordinary(parts[0]);
      ReduceKeepsOrdinary(parts[1..], rooted, done + [parts[0]]);
      assert done + parts == done + [parts[0]] + parts[1..];
    } else {
      assert done + parts == done;
    }
  }

  /** The conditions that the repository checks one by one say that every part is ordinary. */
  lemma CleanRelativeParts(p: string)
    ensures CleanRelative(p) <==> forall c :: c in Split(p, '/') ==> Ordinary(c)
  {
    var parts := Split(p, '/');
    JoinSplit(p, '/');
    if forall c :: c in parts ==> Ordinary(c) {
      OrdinaryIsRelative(p);
      ReduceKeepsOrdinary(parts, false, []);
      assert [] + parts == parts;
    }
    if CleanRelative(p) {
      var stack := Reduce(parts, false, []);
      ReduceIsReduced(parts, false, []);
      SplitJoin(stack, '/');
      FirstPart(p);
      assert parts == stack && parts[0] != "..";
    }
  }

  /** How a path begins shows in its first part. */
  lemma FirstPart(p: string)
    ensures p != "" && p[0] == '/' ==> Split(p, '/')[0] == ""
    ensures Split(p, '/')[0] == ".." <==> p == ".." || "../" <= p
  {
    if |p| >= 1 && p[0] == '.' {
      if |p| >= 2 && p[1] == '.' {
        var q := p[1..];
        if |p| >= 3 {
          assert q[1..] == p[2..];
        }
      }
    }
    var parts := Split(p, '/');
    JoinSplit(p, '/');
    if parts[0] == ".." {
      if |parts| > 1 {
        assert p == ".." + ['/'] + Join(parts[1..], '/');
      }
    }
    if p == ".." {
      SplitOne("..", '/');
    } else if "../" <= p {
      assert p == ".." + ['/'] + p[3..];
      SplitPrefix("..", p[3..], '/');
    }
  }

  lemma OrdinaryIsRelative(p: string)
    requires forall c :: c in Split(p, '/') ==> Ordinary(c)
    ensures p != "" && p[0] != '/' && p != "." && p != ".." && !("../" <= p)
  {
    FirstPart(p);
    assert Ordinary(Split(p, '/')[0]);
    if p == "." {
      SplitOne(".", '/');
    }
  }

  // Parents and ancestors

  /** The index of the last slash, or -1. */
  function LastSlash(p: string): (k: int)
    ensures -1 <= k < |p|
    ensures k >= 0 ==> p[k] == '/'
    ensures forall i :: k < i < |p| ==> p[i] != '/'
  {
    if p == "" then -1
    else if p[|p| - 1] == '/' then |p| - 1
    else LastSlash(p[..|p| - 1])
  }

  /** path.Dir. */
  function Dir(p: string): string {
    Clean(p[..LastSlash(p) + 1])
  }

  /** q names a directory above p. */
  predicate IsAncestor(q: string, p: string) {
    q != "" && |q| < |p| && p[..|q|] == q && p[|q|] == '/'
  }

  /** The parts when one more character is put before them. */
  function Onto(c: char, parts: seq<string>): seq<string>
    requires parts != []
  {
    if c == '/' then [""] + parts else [[c] + parts[0]] + parts[1..]
  }

  lemma SplitStep(s: string)
    requires s != ""
    ensures Split(s, '/') == Onto(s[0], Split(s[1..], '/'))
  {
  }

  lemma OntoFirst(c: char, x: seq<string>, y: seq<string>)
    requires x != []
    ensures Onto(c, x + y) == Onto(c, x) + y
  {
    assert (x + y)[1..] == x[1..] + y;
    assert [[c] + x[0]] + (x[1..] + y) == [[c] + x[0]] + x[1..] + y;
    assert [""] + (x + y) == [""] + x + y;
  }

  lemma {:induction false} SplitAt(a: string, b: string)
    ensures Split(a + "/" + b, '/') == Split(a, '/') + Split(b, '/')
    decreases |a|
  {
    if a == "" {
      assert (a + "/" + b)[1..] == b;
    } else {
      SplitAt(a[1..], b);
      var s := a + "/" + b;
      assert s[1..] == a[1..] + "/" + b && s[0] == a[0];
      SplitStep(a);
      SplitStep(s);
      hide Split;
      OntoFirst(a[0], Split(a[1..], '/'), Split(b, '/'));
    }
  }

  lemma CleanOfNothing()
    ensures Clean("") == "."
  {
    assert Split("", '/') == [""];
    assert Reduce([""], false, []) == Reduce([], false, []) == [];
  }

  /** The parent of a path that is not at the top is the part before its last slash. */
  lemma DirOfClean(p: string)
    requires CleanRelative(p)
    ensures var k := LastSlash(p);
      if k < 0 then Dir(p) == "." else Dir(p) == p[..k] && CleanRelative(p[..k]) && k > 0
  {
    hide Clean, Split;
    CleanRelativeParts(p);
    var k := LastSlash(p);
    if k < 0 {
      assert p[..k + 1] == "";
      CleanOfNothing();
    } else {
      var a, b := p[..k], p[k + 1..];
      assert p == a + "/" + b;
      SplitAt(a, b);
      CleanRelativeParts(a);
      assert CleanRelative(a);
      TrailingSlash(a);
      assert p[..k + 1] == a + "/";
    }
  }

  lemma TrailingSlash(a: string)
    requires CleanRelative(a)
    ensures Clean(a + "/") == a
  {
    CleanRelativeParts(a);
    SplitAt(a, "");
    assert a + "/" + "" == a + "/";
    ReduceAppend(Split(a, '/'), false, []);
    ReduceKeepsOrdinary(Split(a, '/'), false, []);
    assert [] + Split(a, '/') == Split(a, '/');
    JoinSplit(a, '/');
  }

  lemma {:induction false} ReduceAppend(parts: seq<string>, rooted: bool, done: seq<string>)
    ensures Reduce(parts + [""], rooted, done) == Reduce(parts, rooted, done)
  {
    var all := parts + [""];
    if parts != [] {
      assert all[1..] == parts[1..] + [""] && all[0] == parts[0];
      ReduceAppend(parts[1..], rooted, if parts[0] == "" || parts[0] == "." then done
        else if parts[0] == ".." then
          if done != [] && done[|done| - 1] != ".." then done[..|done| - 1]
          else if rooted then done
          else done + [".."]
        else done + [parts[0]]);
    } else {
      assert all[1..] == [];
    }
  }

  /** The ancestors of a path are its parent and the ancestors of its parent. */
  lemma AncestorsOfParent(q: string, p: string)
    requires CleanRelative(p)
    ensures IsAncestor(q, p) <==> Dir(p) != "." && (q == Dir(p) || IsAncestor(q, Dir(p)))
  {
    DirOfClean(p);
    var k := LastSlash(p);
    if k >= 0 {
      CleanRelativeParts(p[..k]);
      if IsAncestor(q, p) && |q| < k {
        assert p[..k][..|q|] == q;
      }
    }
  }

  lemma AncestorIsClean(q: string, p: string)
    requires CleanRelative(p) && IsAncestor(q, p)
    ensures CleanRelative(q)
    decreases |p|
  {
    DirOfClean(p);
    AncestorsOfParent(q, p);
    if q != Dir(p) {
      AncestorIsClean(q, Dir(p));
    }
  }

  lemma AncestorTransitive(r: string, q: string, p: string)
    requires IsAncestor(r, q) && IsAncestor(q, p)
    ensures IsAncestor(r, p)
  {
    assert p[..|r|] == q[..|r|];
  }
}
