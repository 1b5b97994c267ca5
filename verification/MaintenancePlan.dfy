/**
 * Board maintenance plans (internal/boardruntime/maintenance_types.go) and
 * what it means for one to be accepted, check by check as in
 * internal/boardruntime/maintenance_validate.go.
 */
module MaintenancePlan {
  import opened Text
  import opened Sorting
  import opened Paths

  datatype Repository = Repository(id: string, branch: string, base: string)

  datatype Binding = Binding(identity: string, version: string, digest: string, path: string)

  datatype File = File(path: string, kind: string, digest: string, references: seq<string>)

  datatype Mapping = Mapping(from: string, to: string, fromState: string, toState: string)

  /** unknown holds the extra fields of a card as raw JSON. */
  datatype Card = Card(
    identity: string, path: string, scope: string, priority: string, state: string, parent: string,
    criteria: seq<string>, dependencies: seq<string>, evidence: seq<string>, unknown: map<string, string>)

  datatype Plan = Plan(
    version: int, repository: Repository, board: string, controller: Binding, policy: Binding, rule: Binding,
    sourceSchema: Binding, targetSchema: Binding, before: seq<File>, after: seq<File>,
    mappings: seq<Mapping>, beforeCards: seq<Card>, afterCards: seq<Card>)

  type Files = map<string, File>

  type Moves = map<string, Mapping>

  /** The zero value a Go map answers for an absent key. */
  const NO_FILE := File("", "", "", [])

  function At(files: Files, name: string): File {
    if name in files then files[name] else NO_FILE
  }

  // Labels and paths

  predicate PlanLabel(v: string) {
    v != "" && TrimSpace(v) == v && !HasControl(v)
  }

  predicate PlanRevision(v: string) {
    LowerHex(v, 40) || LowerHex(v, 64)
  }

  predicate DigestOk(v: string) {
    LowerHex(v, 64)
  }

  /** strings.EqualFold with ".git", none of whose letters folds outside ASCII. */
  predicate FoldsToGit(part: string) {
    |part| == 4 && part[0] == '.' && part[1] in "gG" && part[2] in "iI" && part[3] in "tT"
  }

  predicate SafeSegment(part: string) {
    TrimSpace(part) == part && !Suffix(part, ".") && !FoldsToGit(part)
  }

  predicate SafePlanPath(p: string) {
    && CleanRelative(p) && '\\' !in p && ':' !in p
    && (forall part :: part in Split(p, '/') ==> SafeSegment(part))
    && !HasControl(p)
  }

  predicate WithinBoard(p: string, board: string) {
    board + "/" <= p
  }

  /** unicode.ToLower: some map of characters that respects the two that paths give a meaning to. */
  ghost predicate LowersPaths(lower: char -> char) {
    forall c :: (lower(c) == '/' <==> c == '/') && (lower(c) == '.' <==> c == '.')
  }

  /** strings.ToLower applies unicode.ToLower to every character. */
  function ToLower(lower: char -> char, s: string): string {
    seq(|s|, i requires 0 <= i < |s| => lower(s[i]))
  }

  // Files

  predicate FileOk(f: File) {
    SafePlanPath(f.path) && DigestOk(f.digest) && f.kind in {"card", "reference", "evidence"}
  }

  /** No two paths equal up to case, and none a directory above another. */
  predicate Portable(files: seq<File>, lower: char -> char) {
    && (forall i, j :: 0 <= i < j < |files| ==> ToLower(lower, files[i].path) != ToLower(lower, files[j].path))
    && (forall f, g :: f in files && g in files ==> !IsAncestor(ToLower(lower, f.path), ToLower(lower, g.path)))
  }

  predicate FilesOk(files: seq<File>, lower: char -> char) {
    && files != []
    && (forall f :: f in files ==> FileOk(f))
    && Portable(files, lower)
  }

  /** The files by path; of equal paths the last wins. */
  function FileMap(files: seq<File>): (m: Files)
    ensures forall p :: p in m ==> m[p] in files && m[p].path == p
    ensures forall f :: f in files ==> f.path in m
  {
    if files == [] then map[]
    else
      var last := files[|files| - 1];
      FileMap(files[..|files| - 1])[last.path := last]
  }

  predicate RefsOk(files: Files) {
    forall p :: p in files ==>
      NoRepeat(files[p].references) && forall r :: r in files[p].references ==> SafePlanPath(r) && r in files
  }

  predicate BoardOk(board: string, files: Files) {
    forall p :: p in files ==> p != board && (files[p].kind == "card" ==> WithinBoard(p, board))
  }

  predicate ClosureOk(board: string, before: Files, after: Files) {
    && BoardOk(board, before) && BoardOk(board, after)
    && forall p :: p in before && before[p].kind != "card" ==> p in after && before[p] == after[p]
  }

  predicate BindingShape(b: Binding) {
    PlanLabel(b.identity) && PlanLabel(b.version) && DigestOk(b.digest)
  }

  predicate BoundTo(b: Binding, files: Files) {
    At(files, b.path).kind == "reference" && At(files, b.path).digest == b.digest
  }

  // The renaming

  predicate MappingOk(m: Mapping, before: Files, after: Files) {
    && SafePlanPath(m.from) && SafePlanPath(m.to) && m.from != m.to && m.fromState != "" && m.fromState == m.toState
    && At(before, m.from).kind == "card" && At(after, m.to).kind == "card"
  }

  function MoveMap(mappings: seq<Mapping>): (m: Moves)
    ensures forall p :: p in m ==> m[p] in mappings && m[p].from == p
    ensures forall k :: k in mappings ==> k.from in m
  {
    if mappings == [] then map[]
    else
      var last := mappings[|mappings| - 1];
      MoveMap(mappings[..|mappings| - 1])[last.from := last]
  }

  /** Where a plan takes a path. */
  function Target(moves: Moves, p: string): string {
    if p in moves then moves[p].to else p
  }

  predicate MappingsDistinct(mappings: seq<Mapping>) {
    forall i, j :: 0 <= i < j < |mappings| ==> mappings[i].from != mappings[j].from && mappings[i].to != mappings[j].to
  }

  /** Every file goes to a file of its kind, no two to the same one, and none is left over. */
  predicate Bijective(moves: Moves, before: Files, after: Files) {
    && (forall p :: p in before ==> Target(moves, p) in after && after[Target(moves, p)].kind == before[p].kind)
    && (forall p, q :: p in before && q in before && p != q ==> Target(moves, p) != Target(moves, q))
    && (forall n :: n in after ==> exists p :: p in before && Target(moves, p) == n)
  }

  predicate MappingsOk(mappings: seq<Mapping>, before: Files, after: Files) {
    && |before| == |after|
    && (forall m :: m in mappings ==> MappingOk(m, before, after))
    && MappingsDistinct(mappings)
    && Bijective(MoveMap(mappings), before, after)
  }

  function Renamed(moves: Moves, refs: seq<string>): (r: seq<string>)
    ensures |r| == |refs| && forall i :: 0 <= i < |refs| ==> r[i] == Target(moves, refs[i])
  {
    seq(|refs|, i requires 0 <= i < |refs| => Target(moves, refs[i]))
  }

  /** References follow the renaming, as multisets. */
  predicate RefsPreserved(before: Files, after: Files, moves: Moves) {
    forall p :: p in before ==>
      multiset(Renamed(moves, before[p].references)) == multiset(At(after, Target(moves, p)).references)
  }

  // Cards

  predicate CardOk(c: Card, files: Files, board: string) {
    && PlanLabel(c.identity) && PlanLabel(c.state) && PlanLabel(c.priority)
    && WithinBoard(c.path, board) && At(files, c.path).kind == "card"
    && NoRepeat(c.dependencies) && "" !in c.dependencies
  }

  predicate CardsDistinct(cards: seq<Card>) {
    forall i, j :: 0 <= i < j < |cards| ==> cards[i].identity != cards[j].identity && cards[i].path != cards[j].path
  }

  predicate Known(cards: seq<Card>, id: string) {
    exists c :: c in cards && c.identity == id
  }

  predicate CardsOk(cards: seq<Card>, files: Files, board: string) {
    && (forall c :: c in cards ==> CardOk(c, files, board))
    && CardsDistinct(cards)
    && (forall p :: p in files && files[p].kind == "card" ==> exists c :: c in cards && c.path == p)
    && (forall c :: c in cards ==>
          (c.parent != "" ==> Known(cards, c.parent)) && forall d :: d in c.dependencies ==> Known(cards, d))
  }

  /** Equal cards up to where they lie and their state. */
  predicate SameContent(a: Card, b: Card) {
    a.(path := "", state := "") == b.(path := "", state := "")
  }

  /** What one card may become: the same card at the path the plan gives it. */
  predicate CardFollows(from: Card, to: Card, moves: Moves) {
    && from.state == to.state
    && (from.path in moves ==> from.state == moves[from.path].fromState == moves[from.path].toState)
    && to.path == Target(moves, from.path)
    && SameContent(from, to)
  }

  function CardMap(cards: seq<Card>): (m: map<string, Card>)
    ensures forall id :: id in m ==> m[id] in cards && m[id].identity == id
    ensures forall c :: c in cards ==> c.identity in m
  {
    if cards == [] then map[]
    else
      var last := cards[|cards| - 1];
      CardMap(cards[..|cards| - 1])[last.identity := last]
  }

  predicate CardsFollow(before: seq<Card>, after: seq<Card>, moves: Moves) {
    var left, right := CardMap(before), CardMap(after);
    && |left| == |right|
    && forall id :: id in left ==> id in right && CardFollows(left[id], right[id], moves)
  }

  // The whole plan

  predicate HeaderOk(plan: Plan) {
    && plan.version == 1
    && PlanLabel(plan.repository.id) && PlanLabel(plan.repository.branch) && PlanRevision(plan.repository.base)
    && SafePlanPath(plan.board)
    && BindingShape(plan.controller) && BindingShape(plan.policy) && BindingShape(plan.rule)
    && BindingShape(plan.sourceSchema) && BindingShape(plan.targetSchema)
  }

  predicate BindingsOk(plan: Plan, before: Files) {
    && (forall b :: b in [plan.policy, plan.rule, plan.sourceSchema, plan.targetSchema] ==>
          SafePlanPath(b.path) && BoundTo(b, before))
    && (plan.controller.path != "" ==> BoundTo(plan.controller, before))
  }

  predicate Accepted(plan: Plan, lower: char -> char) {
    var before, after, moves := FileMap(plan.before), FileMap(plan.after), MoveMap(plan.mappings);
    && HeaderOk(plan)
    && FilesOk(plan.before, lower) && FilesOk(plan.after, lower)
    && RefsOk(before) && RefsOk(after)
    && ClosureOk(plan.board, before, after)
    && BindingsOk(plan, before)
    && MappingsOk(plan.mappings, before, after)
    && RefsPreserved(before, after, moves)
    && CardsOk(plan.beforeCards, before, plan.board) && CardsOk(plan.afterCards, after, plan.board)
    && CardsFollow(plan.beforeCards, plan.afterCards, moves)
  }
}
