/**
 * What an accepted plan is, in terms of paths, files and cards, and what a
 * frozen plan is, in terms of the plan that was frozen.
 */
module MaintenanceMeaning {
  import opened Wrappers
  import opened Text
  import opened Sorting
  import opened Paths
  import opened MaintenancePlan
  import opened MaintenanceFreeze
  import opened MaintenanceTheorems

  // The board

  lemma BoardIsAncestor(p: string, board: string)
    requires board != ""
    ensures WithinBoard(p, board) <==> IsAncestor(board, p)
  {
    if IsAncestor(board, p) {
      assert p == p[..|board|] + [p[|board|]] + p[|board| + 1..];
    }
    if WithinBoard(p, board) {
      assert (board + "/")[|board|] == '/' && p[..|board|] == (board + "/")[..|board|];
    }
  }

  /** Every card and every card file of an accepted plan lies below the board, before and after, and no file is the board. */
  lemma CardsLieOnTheBoard(plan: Plan, lower: char -> char)
    requires Accepted(plan, lower)
    ensures forall c :: c in plan.beforeCards + plan.afterCards ==> IsAncestor(plan.board, c.path)
    ensures forall f :: f in plan.before + plan.after ==> f.path != plan.board && (f.kind == "card" ==> IsAncestor(plan.board, f.path))
  {
    BoardNamed(plan, lower);
    SideOnTheBoard(plan.board, plan.before, plan.beforeCards, lower);
    SideOnTheBoard(plan.board, plan.after, plan.afterCards, lower);
    hide Accepted, IsAncestor;
  }

  lemma BoardNamed(plan: Plan, lower: char -> char)
    requires Accepted(plan, lower)
    ensures plan.board != ""
    ensures FilesOk(plan.before, lower) && FilesOk(plan.after, lower)
    ensures BoardOk(plan.board, FileMap(plan.before)) && BoardOk(plan.board, FileMap(plan.after))
    ensures CardsOk(plan.beforeCards, FileMap(plan.before), plan.board) && CardsOk(plan.afterCards, FileMap(plan.after), plan.board)
  {
    hide FilesOk, BoardOk, CardsOk, FileMap, RefsOk, BindingsOk, MappingsOk, RefsPreserved, CardsFollow, MoveMap;
  }

  lemma SideOnTheBoard(board: string, files: seq<File>, cards: seq<Card>, lower: char -> char)
    requires board != "" && FilesOk(files, lower) && BoardOk(board, FileMap(files)) && CardsOk(cards, FileMap(files), board)
    ensures forall c :: c in cards ==> IsAncestor(board, c.path)
    ensures forall f :: f in files ==> f.path != board && (f.kind == "card" ==> IsAncestor(board, f.path))
  {
    hide FileOk, PlanLabel, IsAncestor, WithinBoard;
    forall c | c in cards
      ensures IsAncestor(board, c.path)
    {
      assert CardOk(c, FileMap(files), board);
      BoardIsAncestor(c.path, board);
    }
    forall f | f in files
      ensures f.path != board && (f.kind == "card" ==> IsAncestor(board, f.path))
    {
      OwnFile(files, f, lower);
      BoardIsAncestor(f.path, board);
    }
  }

  /** A file stands under its own path. */
  lemma OwnFile(files: seq<File>, f: File, lower: char -> char)
    requires FilesOk(files, lower) && f in files
    ensures f.path in FileMap(files) && FileMap(files)[f.path] == f
  {
    hide FileOk;
    var g := FileMap(files)[f.path];
    DistinctFiles(files, lower);
    assert FilePath(f) == FilePath(g);
  }

  lemma AncestorsChain(a: string, b: string, c: string)
    requires IsAncestor(a, b) && IsAncestor(b, c)
    ensures IsAncestor(a, c)
  {
    assert c[..|a|] == c[..|b|][..|a|];
    assert c[|a|] == c[..|b|][|a|];
  }

  lemma LowerKeepsAncestors(lower: char -> char, a: string, b: string)
    requires LowersPaths(lower) && IsAncestor(a, b)
    ensures IsAncestor(ToLower(lower, a), ToLower(lower, b))
  {
    var x, y := ToLower(lower, a), ToLower(lower, b);
    assert forall i :: 0 <= i < |a| ==> y[..|x|][i] == lower(b[i]) && b[..|a|][i] == b[i];
    assert y[..|x|] == x;
  }

  /** A file above the board is accepted only in a plan without cards. */
  lemma NothingAboveTheBoard(plan: Plan, lower: char -> char, f: File)
    requires LowersPaths(lower) && Accepted(plan, lower) && f in plan.before + plan.after && IsAncestor(f.path, plan.board)
    ensures plan.beforeCards == [] && plan.afterCards == []
  {
    CardsLieOnTheBoard(plan, lower);
    BoardNamed(plan, lower);
    AcceptedKeepsCards(plan, lower);
    hide Accepted, BoardOk, LowersPaths;
    if f in plan.before {
      NoCardsBelow(plan.board, plan.before, plan.beforeCards, lower, f);
    } else {
      NoCardsBelow(plan.board, plan.after, plan.afterCards, lower, f);
    }
  }

  lemma NoCardsBelow(board: string, files: seq<File>, cards: seq<Card>, lower: char -> char, f: File)
    requires LowersPaths(lower) && FilesOk(files, lower) && CardsOk(cards, FileMap(files), board) && f in files
    requires IsAncestor(f.path, board) && forall c :: c in cards ==> IsAncestor(board, c.path)
    ensures cards == []
  {
    hide LowersPaths, IsAncestor, FileOk;
    if cards != [] {
      var c := cards[0];
      assert c in cards && CardOk(c, FileMap(files), board);
      var g := FileMap(files)[c.path];
      AncestorsChain(f.path, board, c.path);
      LowerKeepsAncestors(lower, f.path, g.path);
      assert false;
    }
  }

  // Paths

  /**
   * Parts that are no dots, no white space around them, no dot at the end,
   * not the directory of git; and no character that another system reads
   * differently.
   */
  predicate Safe(p: string) {
    && (forall part :: part in Split(p, '/') ==>
          && part != "" && part != "." && part != ".." && part[|part| - 1] != '.' && !IsSpace(part[0]) && !IsSpace(part[|part| - 1])
          && part !in {".git", ".giT", ".gIt", ".gIT", ".Git", ".GiT", ".GIt", ".GIT"})
    && (forall c :: c in p ==> c != '\\' && c != ':' && !IsControl(c))
  }

  lemma SafeMeans(p: string)
    ensures SafePlanPath(p) <==> Safe(p)
  {
    CleanRelativeParts(p);
    hide CleanRelative, Split;
    forall part
      ensures Ordinary(part) && SafeSegment(part) <==>
        && part != "" && part != "." && part != ".." && part[|part| - 1] != '.' && !IsSpace(part[0]) && !IsSpace(part[|part| - 1])
        && part !in {".git", ".giT", ".gIt", ".gIT", ".Git", ".GiT", ".GIt", ".GIT"}
    {
      SegmentMeans(part);
    }
  }

  lemma SegmentMeans(part: string)
    ensures Ordinary(part) && SafeSegment(part) <==>
      && part != "" && part != "." && part != ".." && part[|part| - 1] != '.' && !IsSpace(part[0]) && !IsSpace(part[|part| - 1])
      && part !in {".git", ".giT", ".gIt", ".gIT", ".Git", ".GiT", ".GIt", ".GIT"}
  {
    TrimMeans(part);
    GitMeans(part);
    hide TrimSpace, IsSpace, FoldsToGit;
    assert part != "" ==> part[|part| - 1..] == [part[|part| - 1]];
  }

  lemma GitMeans(part: string)
    ensures FoldsToGit(part) <==> part in {".git", ".giT", ".gIt", ".gIT", ".Git", ".GiT", ".GIt", ".GIT"}
  {
    if |part| == 4 {
      assert part == [part[0], part[1], part[2], part[3]];
    }
  }

  lemma {:induction false} TrimsShorten(s: string)
    ensures |TrimLeft(s)| <= |s| && |TrimRight(s)| <= |s|
  {
    hide IsSpace;
    if s != "" {
      TrimsShorten(s[1..]);
      TrimsShorten(s[..|s| - 1]);
    }
  }

  lemma TrimMeans(s: string)
    ensures TrimSpace(s) == s <==> s == "" || (!IsSpace(s[0]) && !IsSpace(s[|s| - 1]))
  {
    hide IsSpace;
    if s != "" {
      TrimsShorten(s[1..]);
      TrimsShorten(s[..|s| - 1]);
      TrimsShorten(TrimLeft(s));
    }
  }

  // A file above the board

  function Zeros(): string {
    seq(64, _ => '0')
  }

  function Lone(): File {
    File("b", "reference", Zeros(), [])
  }

  function LonePlan(): Plan {
    var a := Binding("a", "1", Zeros(), "b");
    Plan(1, Repository("r", "main", Zeros()), "b/c", a, a, a, a, a, [Lone()], [Lone()], [], [], [])
  }

  predicate Letters(v: string) {
    v != "" && forall i :: 0 <= i < |v| ==> 'a' <= v[i] <= 'z'
  }

  lemma LettersAreSegments(v: string)
    requires Letters(v)
    ensures Ordinary(v) && SafeSegment(v) && forall c :: c in v ==> c != '/' && c != '\\' && c != ':' && !IsControl(c)
  {
    hide TrimSpace;
    var last := v[|v| - 1];
    assert !IsSpace(v[0]) && !IsSpace(last);
    TrimMeans(v);
    assert v[|v| - 1..] == [last];
  }

  lemma LettersAreSafe(v: string)
    requires Letters(v)
    ensures Split(v, '/') == [v] && Safe(v)
  {
    hide Letters, Split, SafeSegment, IsSpace, IsControl;
    LettersAreSegments(v);
    SplitOne(v, '/');
    SegmentMeans(v);
  }

  lemma PairIsSafe(v: string, w: string)
    requires Letters(v) && Letters(w)
    ensures Safe(v + "/" + w)
  {
    hide Letters, Split, IsSpace;
    LettersAreSafe(v);
    LettersAreSafe(w);
    SplitAt(v, w);
  }

  lemma LonePaths()
    ensures SafePlanPath("b") && SafePlanPath("b/c") && IsAncestor("b", "b/c")
  {
    hide Safe, SafePlanPath;
    LettersAreSafe("b");
    PairIsSafe("b", "c");
    assert "b" + "/" + "c" == "b/c";
    SafeMeans("b");
    SafeMeans("b/c");
  }

  lemma LoneParts(lower: char -> char)
    ensures FilesOk([Lone()], lower) && RefsOk(FileMap([Lone()])) && FileMap([Lone()]) == map["b" := Lone()]
  {
    LonePaths();
    hide SafePlanPath;
    assert [Lone()][..0] == [];
    assert FileOk(Lone());
  }

  lemma LoneLabels()
    ensures PlanLabel("a") && PlanLabel("1") && PlanLabel("r") && PlanLabel("main")
  {
    TrimMeans("a");
    TrimMeans("1");
    TrimMeans("r");
    TrimMeans("main");
  }

  /** Such a plan there is: a file above the board is not refused by itself. */
  lemma FileAboveTheBoard(lower: char -> char)
    ensures Accepted(LonePlan(), lower) && exists f :: f in LonePlan().before && IsAncestor(f.path, LonePlan().board)
  {
    hide SafePlanPath, PlanLabel, FilesOk, RefsOk, LowerHex, Zeros, FileMap;
    LonePaths();
    LoneParts(lower);
    LoneLabels();
    ZerosAreHex();
    assert Lone() in LonePlan().before;
    assert MoveMap([]) == map[] && CardMap([]) == map[];
  }

  lemma ZerosAreHex()
    ensures LowerHex(Zeros(), 64)
  {
  }

  // Names and digests

  /** Not blank, with no white space around it and no control character in it. */
  predicate Label(v: string) {
    v != "" && !IsSpace(v[0]) && !IsSpace(v[|v| - 1]) && forall c :: c in v ==> !IsControl(c)
  }

  lemma LabelMeans(v: string)
    ensures PlanLabel(v) <==> Label(v)
  {
    TrimMeans(v);
    hide TrimSpace, IsSpace, IsControl;
  }

  predicate Hex(v: string, n: nat) {
    |v| == n && forall c :: c in v ==> c in "0123456789abcdef"
  }

  lemma HexMeans(v: string, n: nat)
    ensures LowerHex(v, n) <==> Hex(v, n)
  {
    forall i | 0 <= i < |v|
      ensures '0' <= v[i] <= '9' || 'a' <= v[i] <= 'f' <==> v[i] in "0123456789abcdef"
    {
    }
    assert Hex(v, n) <==> |v| == n && forall i :: 0 <= i < |v| ==> v[i] in "0123456789abcdef";
  }

  /** An authority with its name, its version and its digest. */
  predicate Named(b: Binding) {
    Label(b.identity) && Label(b.version) && Hex(b.digest, 64)
  }

  lemma BindingMeans(b: Binding)
    ensures BindingShape(b) <==> Named(b)
  {
    hide Label, Hex, PlanLabel, LowerHex;
    LabelMeans(b.identity);
    LabelMeans(b.version);
    HexMeans(b.digest, 64);
  }

  /** The version, the repository at an exact commit, the board, and five named authorities. */
  lemma HeaderMeans(plan: Plan)
    ensures HeaderOk(plan) <==>
      && plan.version == 1 && Label(plan.repository.id) && Label(plan.repository.branch)
      && (Hex(plan.repository.base, 40) || Hex(plan.repository.base, 64)) && Safe(plan.board)
      && Named(plan.controller) && Named(plan.policy) && Named(plan.rule) && Named(plan.sourceSchema) && Named(plan.targetSchema)
  {
    hide Label, Hex, Safe, Named, PlanLabel, LowerHex, SafePlanPath, BindingShape;
    LabelMeans(plan.repository.id);
    LabelMeans(plan.repository.branch);
    HexMeans(plan.repository.base, 40);
    HexMeans(plan.repository.base, 64);
    SafeMeans(plan.board);
    BindingMeans(plan.controller);
    BindingMeans(plan.policy);
    BindingMeans(plan.rule);
    BindingMeans(plan.sourceSchema);
    BindingMeans(plan.targetSchema);
  }

  lemma FileMeans(f: File)
    ensures FileOk(f) <==> Safe(f.path) && Hex(f.digest, 64) && (f.kind == "card" || f.kind == "reference" || f.kind == "evidence")
  {
    hide Safe, Hex, SafePlanPath, LowerHex;
    SafeMeans(f.path);
    HexMeans(f.digest, 64);
  }

  /** Everything an accepted plan names: safe paths, digests, kinds, labels, and references to files of the same side, each once. */
  lemma NamesAreSound(plan: Plan, lower: char -> char)
    requires Accepted(plan, lower)
    ensures forall f :: f in plan.before ==> FileSound(f, plan.before)
    ensures forall f :: f in plan.after ==> FileSound(f, plan.after)
    ensures forall c :: c in plan.beforeCards + plan.afterCards ==> Label(c.identity) && Label(c.state) && Label(c.priority)
    ensures forall m :: m in plan.mappings ==> Safe(m.from) && Safe(m.to)
    ensures plan.before != [] && plan.after != []
  {
    FrozenParts(plan, lower);
    assert forall m :: m in plan.mappings ==> MappingOk(m, FileMap(plan.before), FileMap(plan.after));
    hide Accepted, FilesOk, RefsOk, CardsOk, Label, Safe, Hex, SafePlanPath, PlanLabel;
    SideSound(plan.before, lower);
    SideSound(plan.after, lower);
    CardLabels(plan.beforeCards, FileMap(plan.before), plan.board);
    CardLabels(plan.afterCards, FileMap(plan.after), plan.board);
    forall m | m in plan.mappings
      ensures Safe(m.from) && Safe(m.to)
    {
      SafeMeans(m.from);
      SafeMeans(m.to);
    }
    hide FileSound, MappingOk;
  }

  predicate FileSound(f: File, files: seq<File>) {
    && Safe(f.path) && Hex(f.digest, 64) && f.kind in ["card", "reference", "evidence"]
    && (forall i, j :: 0 <= i < j < |f.references| ==> f.references[i] != f.references[j])
    && (forall r :: r in f.references ==> Safe(r) && exists g :: g in files && g.path == r)
  }

  lemma SideSound(files: seq<File>, lower: char -> char)
    requires FilesOk(files, lower) && RefsOk(FileMap(files))
    ensures files != [] && forall f :: f in files ==> FileSound(f, files)
  {
    hide Safe, Hex, SafePlanPath, LowerHex, Portable;
    forall f | f in files
      ensures FileSound(f, files)
    {
      assert FileOk(f);
      SafeMeans(f.path);
      HexMeans(f.digest, 64);
      OwnFile(files, f, lower);
      forall r | r in f.references
        ensures Safe(r) && exists g :: g in files && g.path == r
      {
        SafeMeans(r);
        assert FileMap(files)[r] in files;
      }
    }
  }

  lemma CardLabels(cards: seq<Card>, files: Files, board: string)
    requires CardsOk(cards, files, board)
    ensures forall c :: c in cards ==> Label(c.identity) && Label(c.state) && Label(c.priority)
  {
    hide Label, PlanLabel, WithinBoard, CardsDistinct, Known;
    forall c | c in cards
      ensures Label(c.identity) && Label(c.state) && Label(c.priority)
    {
      assert CardOk(c, files, board);
      LabelMeans(c.identity);
      LabelMeans(c.state);
      LabelMeans(c.priority);
    }
  }

  // Files, references and authorities

  /** No two files have one path up to case, and none lies below another, whatever the case. */
  lemma FilesAreApart(plan: Plan, lower: char -> char)
    requires LowersPaths(lower) && Accepted(plan, lower)
    ensures forall f, g :: f in plan.before && g in plan.before ==> Apart(f, g, lower)
    ensures forall f, g :: f in plan.after && g in plan.after ==> Apart(f, g, lower)
  {
    BoardNamed(plan, lower);
    hide Accepted, LowersPaths, BoardOk, CardsOk;
    SideApart(plan.before, lower);
    SideApart(plan.after, lower);
  }

  predicate Apart(f: File, g: File, lower: char -> char) {
    (ToLower(lower, f.path) == ToLower(lower, g.path) ==> f == g) && !IsAncestor(f.path, g.path)
  }

  lemma SideApart(files: seq<File>, lower: char -> char)
    requires LowersPaths(lower) && FilesOk(files, lower)
    ensures forall f, g :: f in files && g in files ==> Apart(f, g, lower)
  {
    hide LowersPaths, IsAncestor, FileOk;
    forall f, g | f in files && g in files
      ensures Apart(f, g, lower)
    {
      var i :| 0 <= i < |files| && files[i] == f;
      var j :| 0 <= j < |files| && files[j] == g;
      if IsAncestor(f.path, g.path) {
        LowerKeepsAncestors(lower, f.path, g.path);
      }
    }
  }

  /** A controller need not be a file; if it names one, that is a reference file with its digest. */
  lemma ControllerBound(plan: Plan, lower: char -> char)
    requires Accepted(plan, lower) && plan.controller.path != ""
    ensures exists f :: f in plan.before && f.path == plan.controller.path && f.kind == "reference" && f.digest == plan.controller.digest
  {
    var before := FileMap(plan.before);
    assert BoundTo(plan.controller, before);
    assert before[plan.controller.path] in plan.before;
  }

  /** Policy, rule and both schemas are each bound to a reference file, with its digest, that is the same before and after. */
  lemma AuthoritiesStay(plan: Plan, lower: char -> char, b: Binding)
    requires Accepted(plan, lower) && b in [plan.policy, plan.rule, plan.sourceSchema, plan.targetSchema]
    ensures exists f :: f in plan.before && f in plan.after && f.path == b.path && f.kind == "reference" && f.digest == b.digest
  {
    var before, after := FileMap(plan.before), FileMap(plan.after);
    assert BoundTo(b, before);
    var f := before[b.path];
    assert f == after[b.path];
    assert f in plan.before && f in plan.after;
  }

  // Cards

  /** What is moved is a card that keeps its state, and it is the same card after. */
  lemma MovedCards(plan: Plan, lower: char -> char, m: Mapping)
    requires Accepted(plan, lower) && m in plan.mappings
    ensures exists c ::
      && c in plan.beforeCards && c.path == m.from && c.state == m.fromState == m.toState
      && c.(path := m.to) in plan.afterCards && m.from != m.to
  {
    var before, moves := FileMap(plan.before), MoveMap(plan.mappings);
    AcceptedKeepsCards(plan, lower);
    assert MappingOk(m, before, FileMap(plan.after));
    MoveIsOwn(plan.mappings, m);
    assert m.from in before && before[m.from].kind == "card";
    var c :| c in plan.beforeCards && c.path == m.from;
    CardHasPartner(plan, lower, c);
    hide Accepted;
    assert Target(moves, c.path) == m.to;
  }

  lemma MoveIsOwn(mappings: seq<Mapping>, m: Mapping)
    requires MappingsDistinct(mappings) && m in mappings
    ensures m.from in MoveMap(mappings) && MoveMap(mappings)[m.from] == m
  {
    var n := MoveMap(mappings)[m.from];
    var i :| 0 <= i < |mappings| && mappings[i] == m;
    var j :| 0 <= j < |mappings| && mappings[j] == n;
  }

  lemma CardHasPartner(plan: Plan, lower: char -> char, c: Card)
    requires Accepted(plan, lower) && c in plan.beforeCards
    ensures c.path in MoveMap(plan.mappings) ==>
      c.state == MoveMap(plan.mappings)[c.path].fromState == MoveMap(plan.mappings)[c.path].toState
  {
    var left, right := CardMap(plan.beforeCards), CardMap(plan.afterCards);
    CardOfId(plan.beforeCards, c);
    assert CardFollows(left[c.identity], right[c.identity], MoveMap(plan.mappings));
  }

  /** On both sides every card is the only one with its identity and with its path, and parents and dependencies are cards of that side. */
  lemma GraphIsClosed(plan: Plan, lower: char -> char)
    requires Accepted(plan, lower)
    ensures Closed(plan.beforeCards) && Closed(plan.afterCards)
  {
    BoardNamed(plan, lower);
    hide Accepted;
    SideClosed(plan.beforeCards, FileMap(plan.before), plan.board);
    SideClosed(plan.afterCards, FileMap(plan.after), plan.board);
  }

  ghost predicate Closed(cards: seq<Card>) {
    && (forall c, d :: c in cards && d in cards && (c.identity == d.identity || c.path == d.path) ==> c == d)
    && (forall c :: c in cards ==>
          forall id :: id in c.dependencies || (id == c.parent && id != "") ==> exists d :: d in cards && d.identity == id)
  }

  lemma SideClosed(cards: seq<Card>, files: Files, board: string)
    requires CardsOk(cards, files, board)
    ensures Closed(cards)
  {
    hide CardOk;
    forall c, d | c in cards && d in cards && (c.identity == d.identity || c.path == d.path)
      ensures c == d
    {
      var i :| 0 <= i < |cards| && cards[i] == c;
      var j :| 0 <= j < |cards| && cards[j] == d;
    }
    forall c, id | c in cards && (id in c.dependencies || (id == c.parent && id != ""))
      ensures exists d :: d in cards && d.identity == id
    {
      assert Known(cards, id);
    }
  }

  // A frozen plan

  /** Strictly upwards by path, and the references of each file strictly upwards. */
  ghost predicate FilesAscend(files: seq<File>) {
    Ascending(FilePath, files) && forall f :: f in files ==> Ascending(Itself, f.references)
  }

  /** Strictly upwards by identity, and the dependencies of each card strictly upwards. */
  ghost predicate CardsAscend(cards: seq<Card>) {
    Ascending(CardId, cards) && forall c :: c in cards ==> Ascending(Itself, c.dependencies)
  }

  lemma FrozenIsInOrder(raw: Spelling, lower: char -> char, p: Plan, q: Plan)
    requires Freezes(raw, lower, p, q)
    ensures FilesAscend(q.before) && FilesAscend(q.after)
    ensures Ascending(MappingFrom, q.mappings)
    ensures CardsAscend(q.beforeCards) && CardsAscend(q.afterCards)
  {
    hide Accepted, UnknownOk, SortOf, FilesAscend, CardsAscend, Ascending;
    FrozenParts(q, lower);
    FilesInOrder(p.before, q.before, lower);
    FilesInOrder(p.after, q.after, lower);
    MappingsInOrder(p.mappings, q.mappings);
    CardsInOrder(raw, p.beforeCards, q.beforeCards, FileMap(q.before), q.board);
    CardsInOrder(raw, p.afterCards, q.afterCards, FileMap(q.after), q.board);
  }

  lemma FrozenParts(q: Plan, lower: char -> char)
    requires Accepted(q, lower)
    ensures FilesOk(q.before, lower) && FilesOk(q.after, lower) && RefsOk(FileMap(q.before)) && RefsOk(FileMap(q.after))
    ensures CardsOk(q.beforeCards, FileMap(q.before), q.board) && CardsOk(q.afterCards, FileMap(q.after), q.board)
    ensures MappingsDistinct(q.mappings)
  {
    hide FilesOk, RefsOk, CardsOk, MappingsDistinct, FileMap, MoveMap, BindingsOk, HeaderOk, ClosureOk, RefsPreserved, CardsFollow;
  }

  lemma FilesInOrder(files: seq<File>, sorted: seq<File>, lower: char -> char)
    requires SortOf(FilePath, Map(SortRefs, files), sorted) && FilesOk(sorted, lower) && RefsOk(FileMap(sorted))
    ensures FilesAscend(sorted)
  {
    hide RefsOk, FilesOk, Map, SortOf, Ascending;
    PathsInOrder(Map(SortRefs, files), sorted, lower);
    RefsInOrder(files, sorted, lower);
  }

  lemma CardsInOrder(raw: Spelling, cards: seq<Card>, sorted: seq<Card>, files: Files, board: string)
    requires SortOf(CardId, Map(Tidier(raw), cards), sorted) && CardsOk(sorted, files, board)
    ensures CardsAscend(sorted)
  {
    hide CardsOk, Map, SortOf, Ascending;
    IdentitiesInOrder(Map(Tidier(raw), cards), sorted, files, board);
    DependenciesInOrder(raw, cards, sorted, files, board);
  }

  lemma PathsInOrder(s: seq<File>, t: seq<File>, lower: char -> char)
    requires SortOf(FilePath, s, t) && FilesOk(t, lower)
    ensures Ascending(FilePath, t)
  {
    forall i, j | 0 <= i < j < |t| ensures FilePath(t[i]) != FilePath(t[j]) {
      assert ToLower(lower, t[i].path) != ToLower(lower, t[j].path);
    }
    hide Le, Less;
    SortedIsAscending(FilePath, t);
  }

  lemma MappingsInOrder(s: seq<Mapping>, t: seq<Mapping>)
    requires SortOf(MappingFrom, s, t) && MappingsDistinct(t)
    ensures Ascending(MappingFrom, t)
  {
    hide Le, Less;
    SortedIsAscending(MappingFrom, t);
  }

  lemma IdentitiesInOrder(s: seq<Card>, t: seq<Card>, files: Files, board: string)
    requires SortOf(CardId, s, t) && CardsOk(t, files, board)
    ensures Ascending(CardId, t)
  {
    hide Le, Less, CardOk, Known;
    SortedIsAscending(CardId, t);
  }

  lemma StringsInOrder(s: seq<string>)
    requires NoRepeat(SortStrings(s))
    ensures Ascending(Itself, SortStrings(s))
  {
    SortStringsSorts(s);
    hide SortStrings, Le, Less;
    SortedIsAscending(Itself, SortStrings(s));
  }

  lemma RefsInOrder(files: seq<File>, sorted: seq<File>, lower: char -> char)
    requires SortOf(FilePath, Map(SortRefs, files), sorted) && FilesOk(sorted, lower) && RefsOk(FileMap(sorted))
    ensures forall f :: f in sorted ==> Ascending(Itself, f.references)
  {
    TidyFilesStay(files, sorted);
    forall f | f in sorted
      ensures Ascending(Itself, f.references)
    {
      OwnFile(sorted, f, lower);
      assert NoRepeat(f.references);
      var i :| 0 <= i < |sorted| && sorted[i] == f;
      assert SortRefs(f) == f;
      StringsInOrder(f.references);
    }
  }

  lemma DependenciesInOrder(raw: Spelling, cards: seq<Card>, sorted: seq<Card>, files: Files, board: string)
    requires SortOf(CardId, Map(Tidier(raw), cards), sorted) && CardsOk(sorted, files, board)
    ensures forall c :: c in sorted ==> Ascending(Itself, c.dependencies)
  {
    Permuted(Map(Tidier(raw), cards), sorted);
    forall c | c in sorted
      ensures Ascending(Itself, c.dependencies)
    {
      assert CardOk(c, files, board) && NoRepeat(c.dependencies);
      var j :| 0 <= j < |cards| && Map(Tidier(raw), cards)[j] == c;
      StringsInOrder(cards[j].dependencies);
    }
  }

  /** One card after freezing: dependencies in another order, each unknown field in its canonical spelling, all else as it was. */
  predicate Respelled(raw: Spelling, c: Card, d: Card) {
    && multiset(d.dependencies) == multiset(c.dependencies) && d.unknown.Keys == c.unknown.Keys
    && (forall k :: k in c.unknown ==> raw(c.unknown[k]) == Some(d.unknown[k]))
    && d == c.(dependencies := d.dependencies, unknown := d.unknown)
  }

  /** Nothing is lost or made up by freezing: files, mappings and cards correspond one to one. */
  lemma FrozenKeepsContent(raw: Spelling, lower: char -> char, p: Plan, q: Plan)
    requires Freezes(raw, lower, p, q)
    ensures FilesKept(p.before, q.before) && FilesKept(p.after, q.after)
    ensures CardsKept(raw, p.beforeCards, q.beforeCards) && CardsKept(raw, p.afterCards, q.afterCards)
    ensures multiset(q.mappings) == multiset(p.mappings)
    ensures q == p.(before := q.before, after := q.after, mappings := q.mappings, beforeCards := q.beforeCards, afterCards := q.afterCards)
  {
    hide Accepted, UnknownOk, SortedBy, Map, FilesKept, CardsKept;
    assert (forall c :: c in p.beforeCards ==> UnknownOk(raw, c)) && forall c :: c in p.afterCards ==> UnknownOk(raw, c);
    KeepsFiles(p.before, q.before);
    KeepsFiles(p.after, q.after);
    KeepsCards(raw, p.beforeCards, q.beforeCards);
    KeepsCards(raw, p.afterCards, q.afterCards);
  }

  ghost predicate FilesKept(a: seq<File>, b: seq<File>) {
    && |a| == |b| && (forall f :: f in a ==> exists g :: g in b && SameFile(f, g)) && forall g :: g in b ==> exists f :: f in a && SameFile(f, g)
  }

  ghost predicate CardsKept(raw: Spelling, a: seq<Card>, b: seq<Card>) {
    && |a| == |b| && (forall c :: c in a ==> exists d :: d in b && Respelled(raw, c, d))
    && forall d :: d in b ==> exists c :: c in a && Respelled(raw, c, d)
  }

  lemma KeepsFiles(files: seq<File>, sorted: seq<File>)
    requires SortOf(FilePath, Map(SortRefs, files), sorted)
    ensures FilesKept(files, sorted)
  {
    var tidied := Map(SortRefs, files);
    Permuted(tidied, sorted);
    forall f | f in files
      ensures exists g :: g in sorted && SameFile(f, g)
    {
      var i :| 0 <= i < |files| && files[i] == f;
      SortStringsSorts(f.references);
      assert tidied[i] in tidied;
      assert SameFile(f, tidied[i]);
    }
    forall g | g in sorted
      ensures exists f :: f in files && SameFile(f, g)
    {
      var i :| 0 <= i < |tidied| && tidied[i] == g;
      SortStringsSorts(files[i].references);
      assert SameFile(files[i], g);
    }
  }

  lemma KeepsCards(raw: Spelling, cards: seq<Card>, sorted: seq<Card>)
    requires SortOf(CardId, Map(Tidier(raw), cards), sorted) && forall c :: c in cards ==> UnknownOk(raw, c)
    ensures CardsKept(raw, cards, sorted)
  {
    var tidied := Map(Tidier(raw), cards);
    Permuted(tidied, sorted);
    forall c | c in cards
      ensures exists d :: d in sorted && Respelled(raw, c, d)
    {
      var i :| 0 <= i < |cards| && cards[i] == c;
      TidyIsRespelled(raw, c);
      assert tidied[i] in tidied;
    }
    forall d | d in sorted
      ensures exists c :: c in cards && Respelled(raw, c, d)
    {
      var i :| 0 <= i < |tidied| && tidied[i] == d;
      TidyIsRespelled(raw, cards[i]);
    }
  }

  lemma TidyIsRespelled(raw: Spelling, c: Card)
    requires UnknownOk(raw, c)
    ensures Respelled(raw, c, Tidy(raw, c))
  {
    SortStringsSorts(c.dependencies);
  }
}
