/**
 * The operand check of internal/taskflow/admission_probe.go. A path is the
 * sequence of its components from the top of the file system; the tree is a
 * function from paths to what is there.
 */
module OperandWalk {
  import opened Wrappers
  import opened Text
  import opened Paths

  type Path = seq<string>

  /** What Lstat and Readlink answer. */
  datatype Lookup = Missing | Unreadable | Directory | File | Link(target: Option<string>)

  type Tree = Path -> Lookup

  /** criterionSymlinkDepthLimit. */
  const LINK_LIMIT := 40

  function Parent(p: Path): Path {
    if p == [] then [] else p[..|p| - 1]
  }

  /** pathInside for clean absolute paths: root is a prefix, component by component. */
  predicate Inside(root: Path, p: Path) {
    root <= p
  }

  predicate Skipped(part: string) {
    part == "" || part == "."
  }

  predicate RelativeTarget(t: Option<string>) {
    t.Some? && t.value != "" && t.value[0] != '/' && '\\' !in t.value
  }

  // What the walk accepts

  /** snapshotLexicalRest. */
  predicate LexicalRest(root: Path, current: Path, parts: seq<string>)
    decreases parts
  {
    if parts == [] then Inside(root, current)
    else if Skipped(parts[0]) then LexicalRest(root, current, parts[1..])
    else if parts[0] == ".." then Inside(root, Parent(current)) && LexicalRest(root, Parent(current), parts[1..])
    else LexicalRest(root, current + [parts[0]], parts[1..])
  }

  /** The rest of the walk from current, after depth links. */
  predicate Accepts(tree: Tree, root: Path, current: Path, parts: seq<string>, depth: nat)
    requires depth <= LINK_LIMIT
    decreases LINK_LIMIT - depth, |parts|
  {
    if parts == [] then Inside(root, current)
    else
      var part, rest := parts[0], parts[1..];
      if Skipped(part) then Accepts(tree, root, current, rest, depth)
      else if part == ".." then Inside(root, Parent(current)) && Accepts(tree, root, Parent(current), rest, depth)
      else
        match tree(current + [part])
        case Missing => LexicalRest(root, current, parts)
        case Unreadable => false
        case Directory => Accepts(tree, root, current + [part], rest, depth)
        case File => rest == [] && Accepts(tree, root, current + [part], rest, depth)
        case Link(t) => depth < LINK_LIMIT && RelativeTarget(t) && Accepts(tree, root, current, Split(t.value, '/') + rest, depth + 1)
  }

  /** snapshotLexical. */
  predicate HasDotDot(operand: string) {
    exists p, f :: p in Split(operand, '/') && f in Split(p, '\\') && f == ".."
  }

  predicate Lexical(operand: string) {
    && operand != "" && operand[0] != '-' && operand[0] != '/'
    && !HasDotDot(operand)
    && Clean(operand) != ".." && !("../" <= Clean(operand))
  }

  method SnapshotLexicalRest(root: Path, start: Path, parts: seq<string>) returns (ok: bool)
    ensures ok <==> LexicalRest(root, start, parts)
  {
    var current := start;
    for i := 0 to |parts|
      invariant LexicalRest(root, current, parts[i..]) <==> LexicalRest(root, start, parts)
    {
      assert parts[i..][1..] == parts[i + 1..];
      var part := parts[i];
      if part == "" || part == "." {
      } else if part == ".." {
        var parent := Parent(current);
        if !Inside(root, parent) { return false; }
        current := parent;
      } else {
        current := current + [part];
      }
    }
    ok := Inside(root, current);
  }

  /**
   * snapshotPathAllowed. The list of parts is rewritten at every link, so what
   * decreases is first the links still allowed and only then the parts left.
   */
  method SnapshotPathAllowed(tree: Tree, root: Path, operand: string) returns (ok: bool)
    ensures ok <==> Lexical(operand) && Accepts(tree, root, root, Split(Clean(operand), '/'), 0)
  {
    if !Lexical(operand) { return false; }
    hide Lexical, Clean;
    var current, parts, depth, i := root, Split(Clean(operand), '/'), 0, 0;
    ghost var accepted := Accepts(tree, root, root, parts, 0);
    while i < |parts|
      invariant 0 <= i <= |parts| && 0 <= depth <= LINK_LIMIT
      invariant Accepts(tree, root, current, parts[i..], depth) <==> accepted
      decreases LINK_LIMIT - depth, |parts| - i
    {
      var part := parts[i];
      assert parts[i..][0] == part && parts[i..][1..] == parts[i + 1..];
      if part == "" || part == "." {
        i := i + 1;
      } else if part == ".." {
        var parent := Parent(current);
        if !Inside(root, parent) { return false; }
        current, i := parent, i + 1;
      } else {
        var next := current + [part];
        match tree(next)
        case Missing =>
          ok := SnapshotLexicalRest(root, current, parts[i..]);
          return;
        case Unreadable =>
          return false;
        case Directory =>
          current, i := next, i + 1;
        case File =>
          if i != |parts| - 1 { return false; }
          current, i := next, i + 1;
        case Link(target) =>
          if depth + 1 > LINK_LIMIT { return false; }
          if !RelativeTarget(target) { return false; }
          depth := depth + 1;
          parts := Split(target.value, '/') + parts[i + 1..];
          i := 0;
          assert parts[0..] == parts;
      }
    }
    ok := Inside(root, current);
  }
}
