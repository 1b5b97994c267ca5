/** Main results about whole runs of the integration queue. */
module IntegrationTheorems {
  import opened Wrappers
  import opened IntegrationTypes
  import opened IntegrationQueue
  import opened IntegrationInvariants
  import opened IntegrationProtocol
  import opened IntegrationSafety

  // Every reachable state

  lemma {:induction false} RunKeepsInv(states: seq<System>, events: seq<Event>, i: nat, k: nat)
    requires IsRun(states, events) && i <= k < |states| && Inv(states[i])
    ensures Inv(states[k])
    decreases k - i
  {
    hide Inv, Next, Newer;
    if i < k {
      RunKeepsInv(states, events, i, k - 1);
      StepKeepsInv(states[k - 1], events[k - 1]);
    }
  }

  lemma ReachableInv(states: seq<System>, events: seq<Event>, k: nat)
    requires FromEmpty(states, events) && k < |states|
    ensures Inv(states[k])
  {
    RunKeepsInv(states, events, 0, k);
  }

  /** The state of the request with this id, if it exists. */
  function StateOf(s: System, id: string): Option<State> {
    match Lookup(s.store, id)
    case None => None
    case Some(r) => Some(r.state)
  }

  // First in, first out

  /** Everything queued for the resource came after sequence n. */
  ghost predicate AllLater(p: Persisted, resource: string, n: int) {
    && n <= p.nextSequence
    && forall r :: r in p.requests && r.spec.resource == resource && r.state == Queued ==> n < r.sequence
  }

  /** The queue grows at its end only: nothing is put back into it. */
  ghost predicate QueueGrowsAtEnd(p: Persisted, q: Persisted) {
    && p.nextSequence <= q.nextSequence
    && forall r :: r in q.requests && r.state == Queued ==> r in p.requests || p.nextSequence < r.sequence
  }

  lemma MutateNeverQueues(p: Persisted, id: string, rev: Uint64, c: Command, now: Reading)
    requires ValidPersisted(p)
    ensures QueueGrowsAtEnd(p, MutateStep(p, id, rev, c, now).state)
  {
    var i := MutationShape(p, id, rev, c, now);
    if MutateStep(p, id, rev, c, now).result.Ok? {
      assert p.requests[i] in p.requests;
      StartNeedsTurn(p.requests, p.requests[i], c);
      hide ValidPersisted, Apply, MutateStep, Find;
    }
  }

  lemma EnqueueGrowsAtEnd(p: Persisted, x: Spec, now: Reading)
    requires ValidPersisted(p)
    ensures QueueGrowsAtEnd(p, EnqueueStep(p, x, now).state)
  {
    hide ValidPersisted, EnqueueStep, Lookup;
    EnqueueAppends(p, x, now);
    var q := EnqueueStep(p, x, now).state;
    if q != p {
      MembersAreFound(p);
      MembersAreFound(q);
    }
  }

  lemma CallGrowsAtEnd(p: Persisted, call: Call, now: Reading)
    requires ValidPersisted(p)
    ensures QueueGrowsAtEnd(p, Answer(p, call, now).state)
  {
    match call
    case MutateCall(id, rev, c) => MutateNeverQueues(p, id, rev, c, now);
    case _ =>
  }

  /** The store call a step makes; enqueuing is apart, as it names no existing request. */
  function CallOf(s: System, e: Event): Call
    requires Enabled(s, e)
  {
    match e
    case CancelBy(id, caller, rev, now) => MutateCall(id, rev, Cancel(caller))
    case ResumeBy(id, caller, rev, expected, now) => MutateCall(id, rev, ResumeRevalidation(caller, expected))
    case Advance(w, input) => NextCall(s.workers[w], input)
    case _ => NoCall
  }

  function TimeOf(e: Event): Reading {
    match e
    case Request(spec, now) => now
    case CancelBy(id, caller, rev, now) => now
    case ResumeBy(id, caller, rev, expected, now) => now
    case Advance(w, input) => input.now
    case _ => 1
  }

  lemma StepCalls(s: System, e: Event)
    requires Enabled(s, e)
    ensures Next(s, e).store ==
      if e.Request? then EnqueueStep(s.store, e.spec, e.now).state else Answer(s.store, CallOf(s, e), TimeOf(e)).state
  {
    hide MutateStep, EnqueueStep, GetStep;
  }

  lemma StepGrowsAtEnd(s: System, e: Event)
    requires Inv(s) && Enabled(s, e)
    ensures QueueGrowsAtEnd(s.store, Next(s, e).store)
  {
    hide ValidPersisted, Fifo, Separate, WorkerOk, Answer, EnqueueStep, CallOf, QueueGrowsAtEnd, Next;
    StepCalls(s, e);
    if e.Request? {
      EnqueueGrowsAtEnd(s.store, e.spec, e.now);
    } else {
      CallGrowsAtEnd(s.store, CallOf(s, e), TimeOf(e));
    }
  }

  lemma GrowthKeepsAllLater(p: Persisted, q: Persisted, resource: string, n: int)
    requires QueueGrowsAtEnd(p, q) && AllLater(p, resource, n)
    ensures AllLater(q, resource, n)
  {
  }

  lemma {:induction false} RunKeepsAllLater(states: seq<System>, events: seq<Event>, i: nat, k: nat, resource: string, n: int)
    requires IsRun(states, events) && i <= k < |states| && Inv(states[i]) && AllLater(states[i].store, resource, n)
    ensures AllLater(states[k].store, resource, n)
    decreases k - i
  {
    hide Inv, Next, AllLater, QueueGrowsAtEnd;
    if i < k {
      RunKeepsAllLater(states, events, i, k - 1, resource, n);
      RunKeepsInv(states, events, i, k - 1);
      StepGrowsAtEnd(states[k - 1], events[k - 1]);
      GrowthKeepsAllLater(states[k - 1].store, states[k].store, resource, n);
    }
  }

  /** Step k admits the queued request with this id. */
  ghost predicate AdmittedAt(states: seq<System>, k: nat, id: string) {
    && k + 1 < |states|
    && StateOf(states[k], id) == Some(Queued) && StateOf(states[k + 1], id) == Some(Admitted)
  }

  lemma AdmittedIsAhead(p: Persisted, r: IntegrationTypes.Request)
    requires ValidPersisted(p) && Fifo(p) && Lookup(p, r.spec.id) == Some(r) && Started(r.state)
    ensures AllLater(p, r.spec.resource, r.sequence)
  {
    assert r in p.requests;
    hide ValidRequest;
  }

  lemma QueuedIsLater(p: Persisted, r: IntegrationTypes.Request, n: int)
    requires Lookup(p, r.spec.id) == Some(r) && r.state == Queued && AllLater(p, r.spec.resource, n)
    ensures n < r.sequence
  {
    assert r in p.requests;
  }

  lemma {:induction false} RunKeepsIdentity(states: seq<System>, events: seq<Event>, i: nat, k: nat, id: string)
    requires IsRun(states, events) && i <= k < |states| && Inv(states[i]) && Lookup(states[i].store, id).Some?
    ensures Lookup(states[k].store, id).Some?
    ensures var before, after := Lookup(states[i].store, id).value, Lookup(states[k].store, id).value;
      && after.spec == before.spec && after.sequence == before.sequence && before.revision <= after.revision
      && (before.revision == after.revision ==> after == before)
    decreases k - i
  {
    hide Inv, Next, Lookup;
    if i < k {
      RunKeepsIdentity(states, events, i, k - 1, id);
      RunKeepsInv(states, events, i, k - 1);
      StepKeepsInv(states[k - 1], events[k - 1]);
    }
  }

  /**
   * First in, first out over whole runs from the empty queue: on every resource
   * requests are admitted for the first time in the order they were enqueued.
   */
  lemma AdmissionsFollowSequence(states: seq<System>, events: seq<Event>, i: nat, j: nat, a: string, b: string)
    requires FromEmpty(states, events) && i < j
    requires AdmittedAt(states, i, a) && AdmittedAt(states, j, b)
    requires Lookup(states[j].store, a).Some?
    requires Lookup(states[j].store, a).value.spec.resource == Lookup(states[j].store, b).value.spec.resource
    ensures Lookup(states[j].store, a).value.sequence < Lookup(states[j].store, b).value.sequence
  {
    ReachableInv(states, events, i + 1);
    var p := states[i + 1].store;
    assert Lookup(p, a).value.spec.id == a;
    AdmittedIsAhead(p, Lookup(p, a).value);
    RunKeepsIdentity(states, events, i + 1, j, a);
    RunKeepsAllLater(states, events, i + 1, j, Lookup(p, a).value.spec.resource, Lookup(p, a).value.sequence);
    assert Lookup(states[j].store, b).value.spec.id == b;
    QueuedIsLater(states[j].store, Lookup(states[j].store, b).value, Lookup(p, a).value.sequence);
  }

  /** ResumeRevalidation does not look for earlier queued requests; in a reachable state there are none. */
  lemma ResumeNeverOvertakes(states: seq<System>, events: seq<Event>, k: nat, id: string, caller: Owner, rev: Uint64, expected: Claim, now: Reading)
    requires FromEmpty(states, events) && k < |states|
    requires MutateStep(states[k].store, id, rev, ResumeRevalidation(caller, expected), now).result.Ok?
    ensures Lookup(states[k].store, id).Some?
    ensures !Overtakes(states[k].store.requests, Lookup(states[k].store, id).value)
  {
    hide ValidPersisted, Fifo, WorkerOk, Separate, Next, MutateStep, Lookup, FromEmpty, Busy;
    ReachableInv(states, events, k);
    var p := states[k].store;
    MutationEdits(p, id, rev, ResumeRevalidation(caller, expected), now);
    GetLooksUp(p, id);
    var r := Lookup(p, id).value;
    assert r.spec.id == id && r.state == RevalidationRequired;
    AdmittedIsAhead(p, r);
  }

  // One adapter call per admission

  /** How one step may move the state of one request. */
  lemma StepMoves(s: System, e: Event, id: string)
    requires Inv(s) && Enabled(s, e)
    ensures var before, after := StateOf(s, id), StateOf(Next(s, e), id);
      && (after == Some(Admitted) ==> before in {Some(Queued), Some(RevalidationRequired), Some(Admitted)})
      && (after == Some(Queued) ==> before in {None, Some(Queued)})
      && (after == None ==> before == None)
  {
    hide ValidPersisted, Fifo, Separate, WorkerOk, Answer, EnqueueStep, CallOf, Next;
    StepCalls(s, e);
    if e.Request? {
      EnqueueAppends(s.store, e.spec, e.now);
    } else {
      CallMoves(s.store, CallOf(s, e), TimeOf(e), id);
    }
  }

  lemma CallMoves(p: Persisted, call: Call, now: Reading, id: string)
    requires ValidPersisted(p)
    ensures var before, after := Lookup(p, id), Lookup(Answer(p, call, now).state, id);
      && (after.Some? <==> before.Some?)
      && (after.Some? && after.value.state == Admitted ==>
            before.value.state in {Queued, RevalidationRequired, Admitted})
      && (after.Some? && after.value.state == Queued ==> before.value.state == Queued)
  {
    hide ValidPersisted, MutateStep, Lookup, Apply;
    match call
    case MutateCall(named, rev, c) =>
      MutationEdits(p, named, rev, c, now);
      GetLooksUp(p, named);
      var reply := MutateStep(p, named, rev, c, now);
      if reply.result.Ok? {
        EditMoves(p.requests, Lookup(p, named).value, c);
      }
    case _ =>
  }

  lemma EditMoves(rs: seq<IntegrationTypes.Request>, r: IntegrationTypes.Request, c: Command)
    requires Apply(rs, r, c).Ok?
    ensures Apply(rs, r, c).value.state == Admitted ==> r.state in {Queued, RevalidationRequired, Admitted}
    ensures Apply(rs, r, c).value.state != Queued
  {
  }

  /** Between the two states some worker entered Adapter.Execute for this request. */
  ghost predicate StartsExecute(s: System, t: System, id: string) {
    exists w :: w in s.workers && w in t.workers && s.workers[w].job.id == id
                && !s.workers[w].pc.InExecute? && t.workers[w].pc.InExecute?
  }

  /** Between the two states the request became admitted. */
  ghost predicate EntersAdmitted(s: System, t: System, id: string) {
    StateOf(s, id) != Some(Admitted) && StateOf(t, id) == Some(Admitted)
  }

  /** Between the two states the request was resumed after revalidation. */
  ghost predicate Resumes(s: System, t: System, id: string) {
    StateOf(s, id) == Some(RevalidationRequired) && StateOf(t, id) == Some(Admitted)
  }

  /** The adapter is only entered by moving the request from Admitted to Running. */
  lemma StartLeavesAdmitted(s: System, e: Event, id: string)
    requires Inv(s) && Enabled(s, e) && StartsExecute(s, Next(s, e), id)
    ensures StateOf(s, id) == Some(Admitted) && StateOf(Next(s, e), id) == Some(Running)
  {
    var w := e.w;
    assert e.Advance? && s.workers[w].job.id == id;
    var worker := s.workers[w];
    var call := NextCall(worker, e.input);
    AnswersHold(s.store, call, e.input.now);
    StartAnswer(s.store, worker, e.input, Answer(s.store, call, e.input.now));
  }

  lemma StartAnswer(p: Persisted, w: Worker, input: Input, reply: Reply)
    requires WorkerOk(p, w) && Answered(p, NextCall(w, input), reply)
    requires !w.pc.InExecute? && Continue(w, input, reply.result).InExecute?
    ensures Lookup(p, w.job.id).Some? && Lookup(p, w.job.id).value.state == Admitted
    ensures Lookup(reply.state, w.job.id).Some? && Lookup(reply.state, w.job.id).value.state == Running
  {
    hide ValidClaim, Busy, Overtakes, Lookup, NormalizeOutcome, PublishedOutcome, RequestOutcome;
  }

  ghost function CountStarts(states: seq<System>, i: nat, k: nat, id: string): nat
    requires i <= k < |states|
  {
    if i == k then 0
    else CountStarts(states, i, k - 1, id) + if StartsExecute(states[k - 1], states[k], id) then 1 else 0
  }

  ghost function CountEntries(states: seq<System>, i: nat, k: nat, id: string): nat
    requires i <= k < |states|
  {
    if i == k then 0
    else CountEntries(states, i, k - 1, id) + if EntersAdmitted(states[k - 1], states[k], id) then 1 else 0
  }

  ghost function CountResumes(states: seq<System>, i: nat, k: nat, id: string): nat
    requires i <= k < |states|
  {
    if i == k then 0
    else CountResumes(states, i, k - 1, id) + if Resumes(states[k - 1], states[k], id) then 1 else 0
  }

  ghost function Is(b: bool): nat { if b then 1 else 0 }

  /**
   * On every stretch of every run Adapter.Execute is started for a request at
   * most once per entry into Admitted. (A stretch that begins admitted has one
   * more entry to spend, the one before it.)
   */
  lemma {:induction false} OneStartPerAdmission(states: seq<System>, events: seq<Event>, i: nat, k: nat, id: string)
    requires FromEmpty(states, events) && i <= k < |states|
    ensures CountStarts(states, i, k, id) + Is(StateOf(states[k], id) == Some(Admitted)) <=
            CountEntries(states, i, k, id) + Is(StateOf(states[i], id) == Some(Admitted))
    decreases k - i
  {
    hide Inv, Next, StateOf, StartsExecute;
    if i < k {
      OneStartPerAdmission(states, events, i, k - 1, id);
      ReachableInv(states, events, k - 1);
      if StartsExecute(states[k - 1], states[k], id) {
        StartLeavesAdmitted(states[k - 1], events[k - 1], id);
      }
    }
  }

  lemma NothingStored(id: string)
    ensures StateOf(INITIAL, id) == None
  {
  }

  /** Without a resume the adapter is started at most once for a request, ever. */
  lemma {:induction false} OneStartWithoutResume(states: seq<System>, events: seq<Event>, k: nat, id: string)
    requires FromEmpty(states, events) && k < |states|
    ensures CountStarts(states, 0, k, id) + Is(StateOf(states[k], id) in {Some(Admitted), Some(Queued), None}) <=
            1 + CountResumes(states, 0, k, id)
    decreases k
  {
    hide Inv, Next, StartsExecute, StateOf;
    if k == 0 {
      NothingStored(id);
    } else {
      OneStartWithoutResume(states, events, k - 1, id);
      ReachableInv(states, events, k - 1);
      StepMoves(states[k - 1], events[k - 1], id);
      if StartsExecute(states[k - 1], states[k], id) {
        StartLeavesAdmitted(states[k - 1], events[k - 1], id);
      }
    }
  }

  // Fencing

  /** The worker acts on a revision that is no longer current. */
  ghost predicate Superseded(s: System, w: nat) {
    && w in s.workers
    && var worker := s.workers[w];
    && Lookup(s.store, worker.job.id).Some?
    && var now := Lookup(s.store, worker.job.id).value.revision;
    && (worker.pc.Start? ==> worker.job.rev < now)
    && (SeenBy(worker.pc).Some? ==> SeenBy(worker.pc).value.revision < now)
  }

  lemma SupersededAnswer(p: Persisted, w: Worker, input: Input, reply: Reply)
    requires WorkerOk(p, w) && Answered(p, NextCall(w, input), reply)
    requires Lookup(p, w.job.id).Some?
    requires var now := Lookup(p, w.job.id).value.revision;
      && (w.pc.Start? ==> w.job.rev < now)
      && (SeenBy(w.pc).Some? ==> SeenBy(w.pc).value.revision < now)
    ensures NextCall(w, input).MutateCall? ==> reply.result.Err?
    ensures var now, pc := Lookup(p, w.job.id).value.revision, Continue(w, input, reply.result);
      !pc.Start? && (SeenBy(pc).Some? ==> SeenBy(pc).value.revision < now)
  {
    hide ValidClaim, Busy, Overtakes, Lookup, NormalizeOutcome, PublishedOutcome, RequestOutcome, Apply, Tracks;
  }

  /** The step of a superseded worker: refused by the store, and it learns no newer revision. */
  lemma SupersededAdvance(s: System, w: nat, input: Input)
    requires Inv(s) && Superseded(s, w)
    ensures var (store, pc) := Stepped(s, w, input);
      && store == s.store && !pc.Start?
      && (SeenBy(pc).Some? ==> SeenBy(pc).value.revision < Lookup(s.store, s.workers[w].job.id).value.revision)
  {
    var call := NextCall(s.workers[w], input);
    AnswersHold(s.store, call, input.now);
    SupersededAnswer(s.store, s.workers[w], input, Answer(s.store, call, input.now));
    hide ValidPersisted, Fifo, Separate, Lookup, WorkerOk, NextCall, Continue, Answered;
    CallKeeps(s.store, call, input.now);
    if call.MutateCall? {
      MutationEdits(s.store, call.id, call.rev, call.command, input.now);
    }
  }

  lemma NewerKeepsSuperseded(s: System, t: System, w: nat)
    requires Superseded(s, w) && Newer(s.store, t.store)
    requires w in t.workers && (t.workers[w] == s.workers[w] || t.workers[w] == s.workers[w].(pc := Crashed))
    ensures Superseded(t, w)
  {
    hide Lookup;
  }

  lemma SupersededStep(s: System, e: Event, w: nat)
    requires Inv(s) && Enabled(s, e) && Superseded(s, w)
    ensures Superseded(Next(s, e), w)
    ensures e.Advance? && e.w == w ==> Next(s, e).store == s.store
  {
    hide Inv, Lookup, Stepped, EnqueueStep, MutateStep, Newer;
    var t := Next(s, e);
    StepKeepsInv(s, e);
    if e.Advance? && e.w == w {
      SupersededAdvance(s, w, e.input);
    } else {
      assert w in s.workers;
      assert w in t.workers && (t.workers[w] == s.workers[w] || t.workers[w] == s.workers[w].(pc := Crashed));
      NewerKeepsSuperseded(s, t, w);
    }
  }

  /** Once superseded, a worker stays superseded and no step of it changes the durable state. */
  lemma {:induction false} SupersededForever(states: seq<System>, events: seq<Event>, i: nat, k: nat, w: nat)
    requires FromEmpty(states, events) && i <= k < |states| && Superseded(states[i], w)
    ensures Superseded(states[k], w)
    ensures k < |events| && events[k].Advance? && events[k].w == w ==> states[k + 1].store == states[k].store
    decreases k - i
  {
    hide Inv, Next, Superseded;
    ReachableInv(states, events, k);
    if i < k {
      SupersededForever(states, events, i, k - 1, w);
      ReachableInv(states, events, k - 1);
      SupersededStep(states[k - 1], events[k - 1], w);
    }
    if k < |events| {
      SupersededStep(states[k], events[k], w);
    }
  }

  /** A worker whose claim was replaced is superseded: a claim never changes at the same revision. */
  lemma ReplacedClaimSupersedes(states: seq<System>, events: seq<Event>, k: nat, w: nat)
    requires FromEmpty(states, events) && k < |states| && w in states[k].workers
    requires SeenBy(states[k].workers[w].pc).Some?
    ensures var worker := states[k].workers[w];
      && Lookup(states[k].store, worker.job.id).Some?
      && (Lookup(states[k].store, worker.job.id).value.claim != SeenBy(worker.pc).value.claim ==> Superseded(states[k], w))
  {
    ReachableInv(states, events, k);
    hide ValidPersisted, Fifo, Separate, Lookup;
  }

  // One worker inside the adapter

  /** Inside the adapter at the current revision of its request. */
  ghost predicate InsideCurrent(s: System, w: nat) {
    && w in s.workers && s.workers[w].pc.Inside()
    && Lookup(s.store, s.workers[w].job.id) == Some(s.workers[w].pc.seen)
  }

  lemma InsideIsCurrentOrSuperseded(s: System, w: nat)
    requires Inv(s) && w in s.workers && s.workers[w].pc.Inside()
    ensures InsideCurrent(s, w) || Superseded(s, w)
  {
    hide ValidPersisted, Fifo, Separate, Lookup;
    assert WorkerOk(s.store, s.workers[w]);
  }

  lemma ActiveIsAlone(p: Persisted, a: IntegrationTypes.Request, b: IntegrationTypes.Request)
    requires ValidPersisted(p) && a in p.requests && b in p.requests && a.spec.id != b.spec.id
    requires Active(a.state) && Active(b.state)
    ensures a.spec.resource != b.spec.resource
  {
    var i, j := IndexOf(p.requests, a), IndexOf(p.requests, b);
    assert i < j ==> Compatible(p.requests[i], p.requests[j]);
    assert j < i ==> Compatible(p.requests[j], p.requests[i]);
  }

  lemma InsideIsRunning(s: System, v: nat)
    requires Inv(s) && InsideCurrent(s, v)
    ensures var r := s.workers[v].pc.seen; r in s.store.requests && r.spec.id == s.workers[v].job.id && r.state == Running
  {
    hide ValidPersisted, Fifo, Separate;
    assert WorkerOk(s.store, s.workers[v]);
  }

  /** Whatever liveness answers, at most one worker per resource is inside the adapter and not fenced off. */
  lemma OneCurrentInside(s: System, v: nat, w: nat)
    requires Inv(s) && v != w && InsideCurrent(s, v) && InsideCurrent(s, w)
    ensures s.workers[v].pc.seen.spec.resource != s.workers[w].pc.seen.spec.resource
  {
    InsideIsRunning(s, v);
    InsideIsRunning(s, w);
    var a, b := s.workers[v].pc.seen, s.workers[w].pc.seen;
    hide ValidPersisted, Lookup, Fifo, WorkerOk;
    if a.spec.id != b.spec.id {
      ActiveIsAlone(s.store, a, b);
    }
  }

  /** Nobody runs on a buried claim, and a recovery follows a burial. */
  ghost predicate BuriedOk(s: System) {
    && (forall w :: w in s.workers && !s.workers[w].pc.Stopped() ==> s.workers[w].job.Carried() !in s.buried)
    && (forall w :: w in s.workers && s.workers[w].pc.Recovering? ==>
          s.workers[w].job.ReconcileJob? && s.workers[w].job.expected in s.buried)
  }

  /** What truthful liveness adds: a worker inside is never fenced off. */
  ghost predicate Alone(s: System) {
    && (forall w :: w in s.workers && s.workers[w].pc.Inside() ==> InsideCurrent(s, w))
    && BuriedOk(s)
  }

  /** A call that edits a running request is its worker's own publication or a recovery of its dead claim. */
  lemma RunningEdit(p: Persisted, w: Worker, input: Input, reply: Reply, current: IntegrationTypes.Request)
    requires WorkerOk(p, w) && Answered(p, NextCall(w, input), reply)
    requires Lookup(p, w.job.id) == Some(current) && current.state == Running
    requires NextCall(w, input).MutateCall? && reply.result.Ok?
    ensures (w.pc.Publishing? && w.pc.seen.revision == current.revision) ||
            (w.pc.Recovering? && w.job.ReconcileJob? && current.claim == Some(w.job.expected))
  {
    hide ValidClaim, Busy, Overtakes, Lookup, NormalizeOutcome, PublishedOutcome, RequestOutcome;
  }

  /** A running request is neither cancelled nor resumed. */
  lemma RunningRefusesClients(p: Persisted, call: Call, reply: Reply)
    requires call.MutateCall? && (call.command.Cancel? || call.command.ResumeRevalidation?)
    requires Lookup(p, call.id).Some? && Lookup(p, call.id).value.state == Running && Answered(p, call, reply)
    ensures reply.result.Err?
  {
  }

  /** Another worker's edit would need the same revision or a claim already answered dead. */
  lemma WorkersCannotEdit(s: System, v: nat, w: nat, input: Input, reply: Reply)
    requires Separate(s) && Alone(s) && v in s.workers && w in s.workers && v != w
    requires !s.workers[w].pc.Stopped() && WorkerOk(s.store, s.workers[w]) && Knows(s.workers[v])
    requires InsideCurrent(s, v) && s.workers[w].job.id == s.workers[v].job.id
    requires NextCall(s.workers[w], input).MutateCall? && Answered(s.store, NextCall(s.workers[w], input), reply)
    ensures reply.result.Err?
  {
    if reply.result.Ok? {
      RunningEdit(s.store, s.workers[w], input, reply, s.workers[v].pc.seen);
      hide Lookup, NextCall, Answered, WorkerOk;
    }
  }

  /** Neither a client nor another worker edits a running request that a worker is inside of. */
  lemma NobodyElseEdits(s: System, e: Event, v: nat, reply: Reply)
    requires Inv(s) && Alone(s) && Enabled(s, e) && InsideCurrent(s, v) && !(e.Advance? && e.w == v)
    requires var call := CallOf(s, e); call.MutateCall? && call.id == s.workers[v].job.id && Answered(s.store, call, reply)
    ensures reply.result.Err?
  {
    hide ValidPersisted, Fifo, Lookup, NextCall, Continue, Tracks, Answered, Separate, Alone;
    assert WorkerOk(s.store, s.workers[v]);
    assert s.workers[v].pc.seen.state == Running;
    if e.Advance? {
      assert WorkerOk(s.store, s.workers[e.w]);
      CallNamesOwnRequest(s.workers[e.w], e.input);
      WorkersCannotEdit(s, v, e.w, e.input, reply);
    } else {
      RunningRefusesClients(s.store, CallOf(s, e), reply);
    }
  }

  lemma InsideStaysCurrent(s: System, e: Event, v: nat)
    requires Inv(s) && Alone(s) && Enabled(s, e)
    requires InsideCurrent(s, v) && !(e.Advance? && e.w == v)
    ensures Lookup(Next(s, e).store, s.workers[v].job.id) == Lookup(s.store, s.workers[v].job.id)
  {
    StepCalls(s, e);
    var call := CallOf(s, e);
    hide Alone, Next, CallOf, WorkerOk, Fifo, Separate;
    if e.Request? {
      EnqueueAppends(s.store, e.spec, e.now);
    } else if call.MutateCall? {
      MutationEdits(s.store, call.id, call.rev, call.command, TimeOf(e));
      AnswersHold(s.store, call, TimeOf(e));
      if call.id == s.workers[v].job.id {
        NobodyElseEdits(s, e, v, Answer(s.store, call, TimeOf(e)));
      }
      hide ValidPersisted, MutateStep, Lookup, Answered;
    }
  }

  lemma CallNamesOwnRequest(w: Worker, input: Input)
    ensures NextCall(w, input).MutateCall? ==> NextCall(w, input).id == w.job.id
  {
  }

  /** Entering the adapter, and nothing else, puts a worker inside; it enters at the current revision. */
  lemma EnteringIsCurrent(s: System, w: nat, input: Input)
    requires Inv(s) && w in s.workers && Enabled(s, Advance(w, input))
    ensures Next(s, Advance(w, input)).workers[w].pc.Inside() ==> InsideCurrent(Next(s, Advance(w, input)), w)
  {
    AdvanceKeepsWorkerOk(s, w, input);
    var (store, pc) := Stepped(s, w, input);
    LeavesAdapter(s.workers[w], input, Answer(s.store, NextCall(s.workers[w], input), input.now).result);
    hide ValidPersisted, Fifo, Lookup, NextCall, Continue, Answer, Separate, WorkerOk, Newer;
  }

  lemma LeavesAdapter(w: Worker, input: Input, answer: Result<IntegrationTypes.Request, Refusal>)
    ensures Engaged(w.pc) ==> !Continue(w, input, answer).Inside()
    ensures Continue(w, input, answer).Recovering? ==> w.pc.Observing? && input.observer == Some(Dead)
  {
    hide NormalizeOutcome, PublishedOutcome, RequestOutcome;
  }

  lemma AdvanceKeepsBuried(s: System, w: nat, input: Input, store: Persisted, pc: Pc)
    requires BuriedOk(s) && Enabled(s, Advance(w, input)) && Truthful(s, Advance(w, input))
    requires s.workers[w].pc.Observing? ==> s.workers[w].job.ReconcileJob?
    requires pc.Recovering? ==> s.workers[w].pc.Observing? && input.observer == Some(Dead)
    ensures var worker := s.workers[w];
      BuriedOk(System(store, s.workers[w := worker.(pc := pc)],
                      if worker.job.ReconcileJob? && worker.pc.Observing? && pc.Recovering?
                      then s.buried + {worker.job.expected} else s.buried))
  {
  }

  lemma StepKeepsBuried(s: System, e: Event)
    requires Inv(s) && BuriedOk(s) && Enabled(s, e) && Truthful(s, e)
    ensures BuriedOk(Next(s, e))
  {
    if e.Advance? {
      var w := s.workers[e.w];
      assert WorkerOk(s.store, w);
      LeavesAdapter(w, e.input, Answer(s.store, NextCall(w, e.input), e.input.now).result);
      var (store, pc) := Stepped(s, e.w, e.input);
      hide Fifo, ValidPersisted, NextCall, Continue, Answer, Separate, Tracks, BuriedOk, Truthful;
      AdvanceKeepsBuried(s, e.w, e.input, store, pc);
    }
  }

  lemma StepKeepsAlone(s: System, e: Event)
    requires Inv(s) && Alone(s) && Enabled(s, e) && Truthful(s, e)
    ensures Alone(Next(s, e))
  {
    var t := Next(s, e);
    StepKeepsBuried(s, e);
    forall v | v in t.workers && t.workers[v].pc.Inside() ensures InsideCurrent(t, v) {
      if e.Advance? && e.w == v {
        EnteringIsCurrent(s, v, e.input);
      } else {
        hide Inv, Truthful;
        InsideStaysCurrent(s, e, v);
      }
    }
  }

  lemma {:induction false} TruthfulRunKeepsAlone(states: seq<System>, events: seq<Event>, k: nat)
    requires FromEmpty(states, events) && AlwaysTruthful(states, events) && k < |states|
    ensures Alone(states[k])
  {
    hide Next, Inv, Truthful;
    if k > 0 {
      TruthfulRunKeepsAlone(states, events, k - 1);
      ReachableInv(states, events, k - 1);
      hide Alone;
      StepKeepsAlone(states[k - 1], events[k - 1]);
    }
  }

  /**
   * In every state of every run, whatever liveness answers: of two workers
   * inside the adapter for one resource, at least one is superseded for good.
   */
  lemma AtMostOneUnfencedInside(states: seq<System>, events: seq<Event>, k: nat, v: nat, w: nat)
    requires FromEmpty(states, events) && k < |states| && v != w
    requires v in states[k].workers && w in states[k].workers
    requires states[k].workers[v].pc.Inside() && states[k].workers[w].pc.Inside()
    ensures states[k].workers[v].pc.seen.spec.resource != states[k].workers[w].pc.seen.spec.resource
            || Superseded(states[k], v) || Superseded(states[k], w)
  {
    ReachableInv(states, events, k);
    hide Inv, Superseded, InsideCurrent;
    InsideIsCurrentOrSuperseded(states[k], v);
    InsideIsCurrentOrSuperseded(states[k], w);
    if InsideCurrent(states[k], v) && InsideCurrent(states[k], w) {
      OneCurrentInside(states[k], v, w);
    }
  }

  /**
   * When liveness answers dead only for claims whose workers have stopped for
   * good, at most one worker is inside the adapter for a resource.
   */
  lemma AtMostOneInside(states: seq<System>, events: seq<Event>, k: nat, v: nat, w: nat)
    requires FromEmpty(states, events) && AlwaysTruthful(states, events) && k < |states| && v != w
    requires v in states[k].workers && w in states[k].workers
    requires states[k].workers[v].pc.Inside() && states[k].workers[w].pc.Inside()
    ensures states[k].workers[v].pc.seen.spec.resource != states[k].workers[w].pc.seen.spec.resource
  {
    TruthfulRunKeepsAlone(states, events, k);
    ReachableInv(states, events, k);
    hide Inv;
    OneCurrentInside(states[k], v, w);
  }
}
