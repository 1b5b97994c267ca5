/**
 * The executor and its environment as a transition system
 * (internal/integrationqueue/executor.go). A store method runs under the queue
 * lock, so it is one step. Between two store calls a worker holds no lock: any
 * other step may come first, and the worker may stop for good.
 */
module IntegrationProtocol {
  import opened Wrappers
  import opened IntegrationTypes
  import opened IntegrationQueue

  /** One call of Execute or Reconcile with its arguments. */
  datatype Job =
    | ExecuteJob(id: string, rev: Uint64, claim: Claim)
    | ReconcileJob(id: string, rev: Uint64, expected: Claim, replacement: Claim)
  {
    /** The claim that names the process making the call. */
    function Carried(): Claim {
      if ExecuteJob? then claim else replacement
    }
  }

  /** Program counter of a call, with its local variable r.Request as `seen`. */
  datatype Pc =
    | Start
    | Admitting(seen: Request)
    | Boundary(seen: Request)
    | Observing(seen: Request)
    | Recovering(seen: Request)
    | Remarking(seen: Request)
    | InExecute(seen: Request)
    | InReconcile(seen: Request)
    | Publishing(seen: Request, out: Outcome)
    | Rereading
    | Returned(result: Outcome, failed: bool)
    | Crashed
  {
    predicate Stopped() { Returned? || Crashed? }

    /** Inside Adapter.Execute or Adapter.Reconcile. */
    predicate Inside() { InExecute? || InReconcile? }
  }

  datatype Worker = Worker(job: Job, pc: Pc)

  /** What the surroundings answer during a step. */
  datatype Input = Input(cancelled: Option<string>, now: Reading, observer: Option<Liveness>, answer: Outcome)

  /** The store operation a step makes, if any. */
  datatype Call = NoCall | GetCall(getId: string) | MutateCall(id: string, rev: Uint64, command: Command)

  const NO_OUTCOME := Outcome(Other(""), "", 0)

  const FAILURE := Returned(NO_OUTCOME, true)

  // Outcomes

  const INCONSISTENT := "adapter returned an inconsistent outcome; result is unknown"

  const INCOMPLETE := "adapter returned an invalid or incomplete outcome; result is unknown"

  function NormalizeOutcome(given: Outcome): Outcome {
    var out := if given.exitCode == 4 then given.(state := RevalidationRequired) else given;
    var valid :=
      && out.exitCode >= 0
      && match out.state
         case Succeeded => out.exitCode == 0
         case Running => out.exitCode != 0
         case Failed => out.exitCode != 0
         case RevalidationRequired => out.exitCode == 4
         case _ => false;
    if valid then out
    else Outcome(Other("invalid"), INCONSISTENT, 125)
  }

  predicate ValidExecutionOutcome(s: State) {
    s == Running || s == Succeeded || s == Failed || s == RevalidationRequired
  }

  /** The outcome that publish records and returns. */
  function PublishedOutcome(out: Outcome): Outcome {
    if ValidExecutionOutcome(out.state) then out
    else Outcome(Running, INCOMPLETE, 125)
  }

  function RequestOutcome(r: Request): Outcome {
    var code0 := r.lastExitCode;
    var code1 := if r.state == Failed && code0 == 0 then 1 else code0;
    var code2 := if r.state == RevalidationRequired then 4 else code1;
    var code3 := if code2 == 0 && (r.state == Running || r.state == Admitted || r.state == Queued) then 2 else code2;
    Outcome(r.state, r.lastError, code3)
  }

  // One call

  /** The store operation the next step of a worker makes. */
  function NextCall(w: Worker, input: Input): Call {
    match w.pc
    case Start => if w.job.ExecuteJob? && input.cancelled.Some? then NoCall else GetCall(w.job.id)
    case Admitting(seen) => MutateCall(w.job.id, w.job.rev, Admit(w.job.Carried()))
    case Boundary(seen) =>
      if input.cancelled.Some? then MutateCall(w.job.id, seen.revision, Cancel(w.job.Carried().owner))
      else MutateCall(w.job.id, seen.revision, Mark(seen.claim, Running, "", None))
    case Recovering(seen) =>
      if w.job.ExecuteJob? then NoCall
      else if seen.state == Admitted then
        MutateCall(w.job.id, w.job.rev, RecoverAdmitted(seen.spec.owner, w.job.expected, w.job.replacement, Dead))
      else
        MutateCall(w.job.id, w.job.rev, RecoverRunning(seen.spec.owner, w.job.expected, w.job.replacement, Dead))
    case Remarking(seen) => MutateCall(w.job.id, seen.revision, Mark(seen.claim, Running, "", None))
    case Publishing(seen, out) =>
      var o := PublishedOutcome(out);
      MutateCall(w.job.id, seen.revision, Mark(seen.claim, o.state, o.reason, Some(o.exitCode)))
    case Rereading => GetCall(w.job.id)
    case _ => NoCall
  }

  /** Execute after its first Get. */
  function ExecuteEntry(job: Job, r: Request): Pc
    requires job.ExecuteJob?
  {
    if r.revision != job.rev || !ClaimIdentityMatches(job.claim, r.spec) then FAILURE
    else if Terminal(r.state) then Returned(RequestOutcome(r), false)
    else if r.state == RevalidationRequired then Returned(Outcome(RevalidationRequired, r.lastError, 4), true)
    else if r.state == Queued then Admitting(r)
    else if r.state != Admitted || r.claim != Some(job.claim) then FAILURE
    else Boundary(r)
  }

  /** Reconcile after its Get. */
  function ReconcileEntry(job: Job, r: Request): Pc
    requires job.ReconcileJob?
  {
    if r.revision != job.rev || !ClaimIdentityMatches(job.expected, r.spec) || !ClaimIdentityMatches(job.replacement, r.spec)
    then FAILURE
    else if Terminal(r.state) then Returned(RequestOutcome(r), false)
    else if r.state != Running && r.state != Admitted then FAILURE
    else if r.claim != Some(job.expected) then FAILURE
    else Observing(r)
  }

  /** The liveness observation of Reconcile. */
  function Observed(seen: Request, input: Input): Pc {
    if input.observer.None? then Returned(Outcome(Running, "claim liveness is unknown", 2), true)
    else if input.cancelled.Some? then Returned(Outcome(Running, "recovery cancelled before claim replacement", 125), true)
    else
      match input.observer.value
      case Dead => Recovering(seen)
      case Unknown => Returned(Outcome(Running, "claim owner liveness is unknown", 2), true)
      case Live => Returned(Outcome(Running, "claim owner is live", 2), true)
  }

  /** Where a worker goes when the store (or nothing) has answered. */
  function Continue(w: Worker, input: Input, answer: Result<Request, Refusal>): Pc {
    match w.pc
    case Start =>
      if w.job.ExecuteJob? && input.cancelled.Some? then FAILURE
      else if answer.Err? then FAILURE
      else if w.job.ExecuteJob? then ExecuteEntry(w.job, answer.value)
      else ReconcileEntry(w.job, answer.value)
    case Admitting(seen) => if answer.Ok? then Boundary(answer.value) else FAILURE
    case Boundary(seen) =>
      if input.cancelled.Some? then
        if answer.Ok? then Returned(Outcome(answer.value.state, input.cancelled.value, 125), true) else Rereading
      else if answer.Ok? then InExecute(answer.value) else FAILURE
    case Observing(seen) => Observed(seen, input)
    case Recovering(seen) =>
      if answer.Err? then FAILURE
      else if answer.value.state == Admitted then Remarking(answer.value)
      else InReconcile(answer.value)
    case Remarking(seen) => if answer.Ok? then InExecute(answer.value) else FAILURE
    case InExecute(seen) => Publishing(seen, NormalizeOutcome(input.answer))
    case InReconcile(seen) => Publishing(seen, NormalizeOutcome(input.answer))
    case Publishing(seen, out) => Returned(PublishedOutcome(out), answer.Err? || !ValidExecutionOutcome(out.state))
    case Rereading => if answer.Ok? then Returned(RequestOutcome(answer.value), true) else FAILURE
    case _ => w.pc
  }

  function GetStep(p: Persisted, id: string): Reply {
    if !ValidPersisted(p) then Reply(p, Err(CorruptState))
    else
      var i := Find(p.requests, id);
      Reply(p, if i == |p.requests| then Err(NotFound) else Ok(p.requests[i]))
  }

  function Answer(p: Persisted, call: Call, now: Reading): Reply {
    match call
    case NoCall => Reply(p, Err(NotFound))
    case GetCall(id) => GetStep(p, id)
    case MutateCall(id, rev, command) => MutateStep(p, id, rev, command, now)
  }

  // The whole system

  /** buried holds the claims that were once answered to be dead. */
  datatype System = System(store: Persisted, workers: map<nat, Worker>, buried: set<Claim>)

  const INITIAL := System(Persisted(0, []), map[], {})

  datatype Event =
    | Request(spec: Spec, now: Reading)
    | CancelBy(id: string, caller: Owner, rev: Uint64, now: Reading)
    | ResumeBy(id: string, caller: Owner, rev: Uint64, expected: Claim, now: Reading)
    | Spawn(w: nat, job: Job)
    | Advance(w: nat, input: Input)
    | Crash(w: nat)

  predicate Enabled(s: System, e: Event) {
    match e
    case Spawn(w, job) => w !in s.workers
    case Advance(w, input) => w in s.workers && !s.workers[w].pc.Stopped()
    case Crash(w) => w in s.workers && !s.workers[w].pc.Stopped()
    case _ => true
  }

  function Stepped(s: System, w: nat, input: Input): (Persisted, Pc)
    requires w in s.workers
  {
    var worker := s.workers[w];
    var reply := Answer(s.store, NextCall(worker, input), input.now);
    (reply.state, Continue(worker, input, reply.result))
  }

  function Next(s: System, e: Event): System
    requires Enabled(s, e)
  {
    match e
    case Request(spec, now) => s.(store := EnqueueStep(s.store, spec, now).state)
    case CancelBy(id, caller, rev, now) => s.(store := MutateStep(s.store, id, rev, Cancel(caller), now).state)
    case ResumeBy(id, caller, rev, expected, now) =>
      s.(store := MutateStep(s.store, id, rev, ResumeRevalidation(caller, expected), now).state)
    case Spawn(w, job) => s.(workers := s.workers[w := Worker(job, Start)])
    case Crash(w) => s.(workers := s.workers[w := s.workers[w].(pc := Crashed)])
    case Advance(w, input) =>
      var worker := s.workers[w];
      var (store, pc) := Stepped(s, w, input);
      System(store, s.workers[w := worker.(pc := pc)],
             if worker.job.ReconcileJob? && worker.pc.Observing? && pc.Recovering?
             then s.buried + {worker.job.expected} else s.buried)
  }

  /**
   * The liveness assumption: a claim is answered dead only when every worker
   * carrying it has stopped, and no worker starts with it afterwards.
   */
  ghost predicate Truthful(s: System, e: Event) {
    match e
    case Spawn(w, job) => job.Carried() !in s.buried
    case Advance(w, input) =>
      w in s.workers && s.workers[w].job.ReconcileJob? && s.workers[w].pc.Observing? && input.observer == Some(Dead) ==>
        forall v :: v in s.workers && s.workers[v].job.Carried() == s.workers[w].job.expected ==> s.workers[v].pc.Stopped()
    case _ => true
  }

  /** states is the run that the events make from its first state. */
  ghost predicate IsRun(states: seq<System>, events: seq<Event>) {
    && |states| == |events| + 1
    && forall i :: 0 <= i < |events| ==> Enabled(states[i], events[i]) && states[i + 1] == Next(states[i], events[i])
  }

  /** A run from the empty queue: any interleaving of calls, crashes and clients. */
  ghost predicate FromEmpty(states: seq<System>, events: seq<Event>) {
    IsRun(states, events) && states[0] == INITIAL
  }

  ghost predicate AlwaysTruthful(states: seq<System>, events: seq<Event>) {
    |states| == |events| + 1 && forall i :: 0 <= i < |events| ==> Truthful(states[i], events[i])
  }
}
