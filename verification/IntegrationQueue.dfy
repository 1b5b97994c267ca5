/**
 * The integration queue as a function on its durable state: what is a valid
 * state, and what each store method does to one (internal/integrationqueue/store.go).
 * The class in IntegrationStore is proved against these functions, and the
 * protocol in IntegrationProtocol takes its steps with them.
 */
module IntegrationQueue {
  import opened Wrappers
  import opened IntegrationTypes

  datatype Refusal =
    | InvalidSpec | CorruptState | IdentityConflict | NotFound | RevisionConflict
    | NotOwner | RunningNotCancellable | AlreadyTerminal | NotQueued | ClaimMismatch
    | Blocked | InvalidTransition | NotRecoverable | RecoveryMismatch | ResumeMismatch
    | ResourceBusy | PublicationRefused

  datatype Reply = Reply(state: Persisted, result: Result<Request, Refusal>)

  // Well-formedness of specs and claims

  predicate Absolute(p: string) {
    p != "" && p[0] == '/'
  }

  predicate ValidOwner(o: Owner) {
    o.actor != "" && o.host != "" && o.kind != ""
  }

  predicate ValidOid(v: string) {
    && (|v| == 40 || |v| == 64)
    && forall i :: 0 <= i < |v| ==> v[i] in "0123456789abcdef"
  }

  predicate ValidType(v: string) {
    v in {"feat", "fix", "refactor", "docs", "test", "chore", "perf"}
  }

  predicate ValidSpec(x: Spec) {
    && x.id != "" && x.idempotencyKey != "" && x.repositoryId != ""
    && ValidOid(x.expectedTaskSha) && ValidOid(x.expectedSourceSha)
    && x.source != "" && x.target != "" && x.gateProfile != "" && x.resource != ""
    && Absolute(x.repositoryPath) && Absolute(x.commonDir)
    && var g := x.generation;
    && g.task != "" && ValidType(g.workType) && g.purpose == "delivery" && g.source != ""
    && "dev/" <= g.branch && Absolute(g.worktree) && g.startedAt != 0
    && ValidOwner(x.owner) && ValidOwner(g.owner) && x.owner == g.owner && x.source == g.source
  }

  predicate ClaimIdentityMatches(c: Claim, s: Spec) {
    c.owner == s.owner && c.generation == s.generation
  }

  predicate ValidClaim(c: Claim, s: Spec) {
    ClaimIdentityMatches(c, s) && c.pid > 0 && c.host != "" && c.claimedAt != 0
  }

  /** Equal specs up to the request id. */
  predicate SameSpec(a: Spec, b: Spec) {
    a.(id := "") == b.(id := "")
  }

  // Valid durable states

  predicate ValidRequestClaim(r: Request) {
    if ClaimHolding(r.state) then r.claim.Some? && ValidClaim(r.claim.value, r.spec) else r.claim.None?
  }

  predicate ValidRequest(r: Request) {
    && ValidSpec(r.spec) && !r.state.Other? && r.sequence != 0 && r.revision != 0
    && r.createdAt != 0 && r.updatedAt != 0 && ValidRequestClaim(r)
  }

  /** Two requests of one queue: distinct identities, and not both active on one resource. */
  predicate Compatible(a: Request, b: Request) {
    && a.spec.id != b.spec.id
    && a.spec.idempotencyKey != b.spec.idempotencyKey
    && a.sequence != b.sequence
    && !(Active(a.state) && Active(b.state) && a.spec.resource == b.spec.resource)
  }

  predicate PairwiseCompatible(rs: seq<Request>) {
    forall i, j :: 0 <= i < j < |rs| ==> Compatible(rs[i], rs[j])
  }

  predicate ValidPersisted(p: Persisted) {
    && (forall r :: r in p.requests ==> ValidRequest(r) && r.sequence <= p.nextSequence)
    && PairwiseCompatible(p.requests)
  }

  // Lookup

  predicate Has(rs: seq<Request>, id: string) {
    exists r :: r in rs && r.spec.id == id
  }

  /** The position of the first request with this id, or the length when there is none. */
  function Find(rs: seq<Request>, id: string): (k: nat)
    ensures k <= |rs|
    ensures k < |rs| ==> rs[k].spec.id == id
    ensures forall j :: 0 <= j < k ==> rs[j].spec.id != id
    ensures k < |rs| <==> Has(rs, id)
  {
    if rs == [] then 0
    else if rs[0].spec.id == id then 0
    else
      var k := Find(rs[1..], id);
      assert forall j :: 0 < j < |rs| ==> rs[j] == rs[1..][j - 1];
      1 + k
  }

  function FindKey(rs: seq<Request>, key: string): (k: nat)
    ensures k <= |rs|
    ensures k < |rs| ==> rs[k].spec.idempotencyKey == key
    ensures forall j :: 0 <= j < k ==> rs[j].spec.idempotencyKey != key
  {
    if rs == [] then 0
    else if rs[0].spec.idempotencyKey == key then 0
    else
      var k := FindKey(rs[1..], key);
      assert forall j :: 0 < j < |rs| ==> rs[j] == rs[1..][j - 1];
      1 + k
  }

  // Store methods

  /** A publication replaces the durable state only when the new state is valid. */
  function Publish(before: Persisted, after: Persisted, r: Request): Reply {
    if ValidPersisted(after) then Reply(after, Ok(r)) else Reply(before, Err(PublicationRefused))
  }

  function NewRequest(p: Persisted, x: Spec, now: Instant): Request {
    Request(x, Queued, Bump(p.nextSequence), 1, now, now, None, "", 0)
  }

  /** The state Enqueue asks to publish for a new request. */
  function Appended(p: Persisted, x: Spec, now: Instant): Persisted {
    Persisted(Bump(p.nextSequence), p.requests + [NewRequest(p, x, now)])
  }

  function EnqueueStep(p: Persisted, x: Spec, now: Reading): Reply {
    if !ValidSpec(x) then Reply(p, Err(InvalidSpec))
    else if !ValidPersisted(p) then Reply(p, Err(CorruptState))
    else
      var byId, byKey := Find(p.requests, x.id), FindKey(p.requests, x.idempotencyKey);
      var n := |p.requests|;
      if byId == n && byKey == n then Publish(p, Appended(p, x, now), NewRequest(p, x, now))
      else if byKey < n && (byId == n || byId == byKey) && SameSpec(p.requests[byKey].spec, x) then
        Reply(p, Ok(p.requests[byKey]))
      else Reply(p, Err(IdentityConflict))
  }

  /** What the closure passed to mutate or mutateWithState does. */
  datatype Command =
    | Cancel(caller: Owner)
    | Admit(claim: Claim)
    | Mark(marked: Option<Claim>, to: State, lastError: string, exitCode: Option<int>)
    | RecoverAdmitted(caller: Owner, expected: Claim, claim: Claim, observation: Liveness)
    | RecoverRunning(caller: Owner, expected: Claim, claim: Claim, observation: Liveness)
    | ResumeRevalidation(caller: Owner, expected: Claim)

  predicate AllowedTransition(from: State, to: State) {
    match from
    case Queued => to == Cancelled || to == RevalidationRequired
    case Admitted => to == Running || to == Failed || to == Cancelled || to == RevalidationRequired
    case Running => to == Running || to == Succeeded || to == Failed || to == RevalidationRequired
    case _ => false
  }

  /** Another request holds the resource of r. */
  predicate Busy(rs: seq<Request>, r: Request) {
    exists x :: x in rs && x.spec.id != r.spec.id && x.spec.resource == r.spec.resource && Active(x.state)
  }

  /** Another request for the resource of r was queued before it and still waits. */
  predicate Overtakes(rs: seq<Request>, r: Request) {
    exists x :: x in rs && x.spec.id != r.spec.id && x.spec.resource == r.spec.resource
                && x.state == Queued && x.sequence < r.sequence
  }

  function Apply(rs: seq<Request>, r: Request, c: Command): Result<Request, Refusal> {
    match c
    case Cancel(caller) =>
      if r.spec.owner != caller then Err(NotOwner)
      else if r.state == Running then Err(RunningNotCancellable)
      else if Terminal(r.state) then Err(AlreadyTerminal)
      else Ok(r.(state := Cancelled, claim := None))
    case Admit(claim) =>
      if r.state != Queued then Err(NotQueued)
      else if !ValidClaim(claim, r.spec) then Err(ClaimMismatch)
      else if Busy(rs, r) || Overtakes(rs, r) then Err(Blocked)
      else Ok(r.(state := Admitted, claim := Some(claim)))
    case Mark(marked, to, lastError, exitCode) =>
      if Terminal(r.state) || r.claim.None? || marked != r.claim || to.Other? || !AllowedTransition(r.state, to)
      then Err(InvalidTransition)
      else Ok(r.(
        state := to, lastError := lastError,
        lastExitCode := if exitCode.Some? then exitCode.value else r.lastExitCode,
        claim := if Terminal(to) then None else r.claim))
    case RecoverAdmitted(caller, expected, claim, observation) =>
      if r.state != Admitted || observation != Dead || r.claim != Some(expected) then Err(NotRecoverable)
      else if r.spec.owner != caller || !ValidClaim(claim, r.spec) then Err(RecoveryMismatch)
      else Ok(r.(claim := Some(claim)))
    case RecoverRunning(caller, expected, claim, observation) =>
      if r.state != Running || observation != Dead || r.claim != Some(expected) then Err(NotRecoverable)
      else if r.spec.owner != caller || !ValidClaim(claim, r.spec) || claim.generation != r.spec.generation
      then Err(RecoveryMismatch)
      else Ok(r.(claim := Some(claim)))
    case ResumeRevalidation(caller, expected) =>
      if r.state != RevalidationRequired || r.claim != Some(expected) || r.spec.owner != caller
         || r.spec.generation != expected.generation
      then Err(ResumeMismatch)
      else if Busy(rs, r) then Err(ResourceBusy)
      else Ok(r.(state := Admitted))
  }

  /** The stamp put on a request before it is published. */
  function Stamped(r: Request, now: Instant): Request {
    r.(revision := Bump(r.revision), updatedAt := now)
  }

  /** The state a mutation asks to publish. */
  function Replaced(p: Persisted, i: nat, r: Request): Persisted
    requires i < |p.requests|
  {
    p.(requests := p.requests[i := r])
  }

  function MutateStep(p: Persisted, id: string, rev: Uint64, c: Command, now: Reading): Reply {
    if !ValidPersisted(p) then Reply(p, Err(CorruptState))
    else
      var i := Find(p.requests, id);
      if i == |p.requests| then Reply(p, Err(NotFound))
      else if p.requests[i].revision != rev then Reply(p, Err(RevisionConflict))
      else
        match Apply(p.requests, p.requests[i], c)
        case Err(e) => Reply(p, Err(e))
        case Ok(r) => Publish(p, Replaced(p, i, Stamped(r, now)), Stamped(r, now))
  }

  // Views

  datatype Wait = NoWait | EarlierLocal | ActiveLocal

  datatype View = View(request: Request, position: Option<nat>, wait: Wait)

  /** How many queued requests of r's resource came before it. */
  function EarlierQueued(rs: seq<Request>, r: Request): nat {
    if rs == [] then 0
    else
      var x := rs[|rs| - 1];
      EarlierQueued(rs[..|rs| - 1], r) +
      if x.spec.resource == r.spec.resource && x.state == Queued && x.sequence < r.sequence then 1 else 0
  }

  function MakeView(p: Persisted, r: Request): View {
    var n := EarlierQueued(p.requests, r);
    var position := if r.state == Queued then Some(n + 1) else None;
    var waits := r.state == Queued || r.state == RevalidationRequired;
    View(r, position,
         if waits && Busy(p.requests, r) then ActiveLocal
         else if r.state == Queued && n > 0 then EarlierLocal
         else NoWait)
  }
}
