/**
 * What the executor records and gives back: a published outcome is durable,
 * agrees with its exit code, and is what a repeated Execute answers. Also, why
 * the liveness assumption of AtMostOneInside cannot be dropped.
 */
module IntegrationOutcomes {
  import opened Wrappers
  import opened IntegrationTypes
  import opened IntegrationQueue
  import opened IntegrationInvariants
  import opened IntegrationProtocol
  import opened IntegrationSafety
  import opened IntegrationTheorems

  /** The exit codes the executor lets through for each state. */
  predicate Consistent(s: State, code: int) {
    && (s == Succeeded ==> code == 0)
    && (s == Failed ==> code > 0)
    && (s == RevalidationRequired ==> code == 4)
  }

  /** An outcome whose state and exit code fit each other. */
  predicate ValidOutcome(out: Outcome) {
    match out.state
    case Succeeded => out.exitCode == 0
    case Failed => out.exitCode > 0
    case Running => out.exitCode > 0
    case RevalidationRequired => out.exitCode == 4
    case _ => false
  }

  ghost predicate CodesAgree(p: Persisted) {
    forall id :: Lookup(p, id).Some? ==> Consistent(Lookup(p, id).value.state, Lookup(p, id).value.lastExitCode)
  }

  /** What a worker about to publish holds came out of normalizeOutcome. */
  ghost predicate Normalized(w: Worker) {
    w.pc.Publishing? ==> ValidOutcome(PublishedOutcome(w.pc.out))
  }

  /** Whatever the adapter answers, what is published fits; an answer that fits is published as it is, and exit code 4 is always revalidation. */
  lemma NormalizeIsConsistent(given: Outcome)
    ensures ValidOutcome(PublishedOutcome(NormalizeOutcome(given)))
    ensures ValidOutcome(given) && given.exitCode != 4 ==> PublishedOutcome(NormalizeOutcome(given)) == given
    ensures given.exitCode == 4 ==>
      PublishedOutcome(NormalizeOutcome(given)) == Outcome(RevalidationRequired, given.reason, 4)
  {
  }

  ghost predicate OutcomesOk(s: System) {
    CodesAgree(s.store) && forall w :: w in s.workers ==> Normalized(s.workers[w])
  }

  lemma AnswerKeepsCodes(p: Persisted, w: Worker, input: Input, reply: Reply)
    requires WorkerOk(p, w) && Normalized(w) && Answered(p, NextCall(w, input), reply) && CodesAgree(p)
    requires NextCall(w, input).MutateCall? && reply.result.Ok?
    ensures Consistent(reply.result.value.state, reply.result.value.lastExitCode)
  {
    hide ValidClaim, Busy, Overtakes, Lookup, NormalizeOutcome, RequestOutcome, PublishedOutcome, Tracks;
  }

  lemma ClientKeepsCodes(p: Persisted, call: Call, reply: Reply)
    requires call.MutateCall? && (call.command.Cancel? || call.command.ResumeRevalidation?)
    requires Answered(p, call, reply) && reply.result.Ok?
    ensures Consistent(reply.result.value.state, reply.result.value.lastExitCode)
  {
  }

  lemma StepKeepsCodes(s: System, e: Event)
    requires Inv(s) && Enabled(s, e) && OutcomesOk(s)
    ensures CodesAgree(Next(s, e).store)
  {
    hide ValidPersisted, Fifo, Separate, Next, WorkerOk, Normalized, Lookup, NextCall, MutateStep, Answered, EnqueueStep;
    StepCalls(s, e);
    var call := CallOf(s, e);
    if e.Advance? {
      assert WorkerOk(s.store, s.workers[e.w]) && Normalized(s.workers[e.w]);
    }
    if e.Request? {
      EnqueueAppends(s.store, e.spec, e.now);
    } else if call.MutateCall? {
      MutationEdits(s.store, call.id, call.rev, call.command, TimeOf(e));
      AnswersHold(s.store, call, TimeOf(e));
      var reply := Answer(s.store, call, TimeOf(e));
      if reply.result.Ok? {
        if e.Advance? {
          AnswerKeepsCodes(s.store, s.workers[e.w], e.input, reply);
        } else {
          ClientKeepsCodes(s.store, call, reply);
        }
      }
    }
  }

  lemma StepKeepsNormalized(w: Worker, input: Input, answer: Result<IntegrationTypes.Request, Refusal>)
    requires Normalized(w)
    ensures Normalized(w.(pc := Continue(w, input, answer)))
  {
    NormalizeIsConsistent(input.answer);
    hide NormalizeOutcome, PublishedOutcome, RequestOutcome;
  }

  lemma {:induction false} RunKeepsOutcomes(states: seq<System>, events: seq<Event>, k: nat)
    requires FromEmpty(states, events) && k < |states|
    ensures OutcomesOk(states[k])
  {
    if k > 0 {
      RunKeepsOutcomes(states, events, k - 1);
      ReachableInv(states, events, k - 1);
      var s, e := states[k - 1], events[k - 1];
      hide Inv;
      StepKeepsCodes(s, e);
      if e.Advance? {
        StepKeepsNormalized(s.workers[e.w], e.input, Answer(s.store, NextCall(s.workers[e.w], e.input), e.input.now).result);
      }
      hide CodesAgree, Normalized, Answer, NextCall, Continue, EnqueueStep, MutateStep;
    }
  }

  /** No command changes a terminal request. */
  lemma TerminalStays(s: System, e: Event, id: string)
    requires Inv(s) && Enabled(s, e) && Lookup(s.store, id).Some? && Terminal(Lookup(s.store, id).value.state)
    ensures Lookup(Next(s, e).store, id) == Lookup(s.store, id)
  {
    StepCalls(s, e);
    var call := CallOf(s, e);
    hide Fifo, Separate, Next, WorkerOk, CallOf;
    if e.Request? {
      EnqueueAppends(s.store, e.spec, e.now);
    } else if call.MutateCall? {
      MutationEdits(s.store, call.id, call.rev, call.command, TimeOf(e));
      TerminalRefuses(s.store.requests, Lookup(s.store, id).value, call.command);
      hide ValidPersisted, MutateStep, Lookup, Apply;
    }
  }

  lemma TerminalRefuses(rs: seq<IntegrationTypes.Request>, r: IntegrationTypes.Request, c: Command)
    requires Terminal(r.state)
    ensures Apply(rs, r, c).Err?
  {
  }

  lemma {:induction false} RunKeepsTerminal(states: seq<System>, events: seq<Event>, i: nat, k: nat, id: string)
    requires FromEmpty(states, events) && i <= k < |states|
    requires Lookup(states[i].store, id).Some? && Terminal(Lookup(states[i].store, id).value.state)
    ensures Lookup(states[k].store, id) == Lookup(states[i].store, id)
    decreases k - i
  {
    hide Lookup, Next;
    if i < k {
      RunKeepsTerminal(states, events, i, k - 1, id);
      ReachableInv(states, events, k - 1);
      hide Inv;
      TerminalStays(states[k - 1], events[k - 1], id);
    }
  }

  /** A publication that the queue accepted is recorded as it stands. */
  lemma PublicationRecords(p: Persisted, w: Worker, input: Input, reply: Reply)
    requires w.pc.Publishing? && reply.result.Ok? && Answered(p, NextCall(w, input), reply)
    ensures Lookup(reply.state, w.job.id) == Some(reply.result.value)
    ensures var r, out := reply.result.value, PublishedOutcome(w.pc.out);
      r.state == out.state && r.lastError == out.reason && r.lastExitCode == out.exitCode
  {
    hide Busy, Overtakes, ValidClaim, Lookup, PublishedOutcome;
  }

  /** What was recorded reads back as the outcome that was returned. */
  lemma PublicationReadsBack(p: Persisted, w: Worker, input: Input, reply: Reply)
    requires Normalized(w) && w.pc.Publishing? && reply.result.Ok? && Answered(p, NextCall(w, input), reply)
    ensures Lookup(reply.state, w.job.id).Some?
    ensures Continue(w, input, reply.result).Returned?
    ensures RequestOutcome(Lookup(reply.state, w.job.id).value) == Continue(w, input, reply.result).result
  {
    hide Answered, NextCall, Lookup, PublishedOutcome;
    PublicationRecords(p, w, input, reply);
  }

  /**
   * At most one integration, and one answer: once a worker has published a
   * terminal outcome, every later Execute at the current revision with a
   * matching claim returns that same outcome and changes nothing.
   */
  lemma TerminalOutcomeIsReplayed(states: seq<System>, events: seq<Event>, i: nat, w: nat, k: nat, x: nat)
    requires FromEmpty(states, events) && i < k < |events|
    requires events[i].Advance? && events[i].w == w && states[i].workers[w].pc.Publishing?
    requires var pc := states[i + 1].workers[w].pc; pc.Returned? && !pc.failed && Terminal(pc.result.state)
    requires events[k].Advance? && events[k].w == x && events[k].input.cancelled.None?
    requires states[k].workers[x].pc.Start? && states[k].workers[x].job.ExecuteJob?
    requires states[k].workers[x].job.id == states[i].workers[w].job.id
    requires var job, r := states[k].workers[x].job, Lookup(states[k].store, states[k].workers[x].job.id);
      r.Some? ==> job.rev == r.value.revision && ClaimIdentityMatches(job.claim, r.value.spec)
    ensures states[k + 1].workers[x].pc == Returned(states[i + 1].workers[w].pc.result, false)
    ensures states[k + 1].store == states[k].store
  {
    var s, worker, input, id := states[i], states[i].workers[w], events[i].input, states[i].workers[w].job.id;
    ReachableInv(states, events, i);
    ReachableInv(states, events, k);
    RunKeepsOutcomes(states, events, i);
    PublishedTerminal(s, w, input);
    RunKeepsTerminal(states, events, i + 1, k, id);
    GetLooksUp(states[k].store, id);
  }

  lemma PublishedTerminal(s: System, w: nat, input: Input)
    requires Inv(s) && OutcomesOk(s) && Enabled(s, Advance(w, input)) && s.workers[w].pc.Publishing?
    requires var pc := Next(s, Advance(w, input)).workers[w].pc; pc.Returned? && !pc.failed && Terminal(pc.result.state)
    ensures var t := Next(s, Advance(w, input));
      && Lookup(t.store, s.workers[w].job.id).Some?
      && Terminal(Lookup(t.store, s.workers[w].job.id).value.state)
      && RequestOutcome(Lookup(t.store, s.workers[w].job.id).value) == t.workers[w].pc.result
  {
    var worker := s.workers[w];
    var call := NextCall(worker, input);
    AnswersHold(s.store, call, input.now);
    var reply := Answer(s.store, call, input.now);
    PublishingAnswer(worker, input, reply.result);
    var t := Next(s, Advance(w, input));
    assert t.store == reply.state && t.workers[w].pc == Continue(worker, input, reply.result);
    hide ValidPersisted, Fifo, Separate, Lookup, Answer, Answered, WorkerOk, Next, NextCall, Continue;
    PublicationReadsBack(s.store, worker, input, reply);
  }

  lemma PublishingAnswer(w: Worker, input: Input, answer: Result<IntegrationTypes.Request, Refusal>)
    requires w.pc.Publishing?
    ensures var pc := Continue(w, input, answer); pc.Returned? && (!pc.failed ==> answer.Ok?)
  {
  }

  // The liveness assumption

  /** A call of Reconcile that takes over the request which worker v is integrating. */
  function Takeover(s: System, v: nat, replacement: Claim): Job
    requires v in s.workers && s.workers[v].pc.Inside()
  {
    var r := s.workers[v].pc.seen;
    ReconcileJob(r.spec.id, r.revision, s.workers[v].job.Carried(), replacement)
  }

  lemma RecoveryIsAccepted(p: Persisted, r: IntegrationTypes.Request, expected: Claim, replacement: Claim, now: Reading)
    requires ValidPersisted(p) && Lookup(p, r.spec.id) == Some(r) && r.state == Running && r.claim == Some(expected)
    requires ValidClaim(replacement, r.spec) && r.revision < MAX_UINT64
    ensures var reply := MutateStep(p, r.spec.id, r.revision, RecoverRunning(r.spec.owner, expected, replacement, Dead), now);
      reply.result.Ok? && reply.result.value.spec == r.spec && reply.result.value.state == Running
  {
    var c := RecoverRunning(r.spec.owner, expected, replacement, Dead);
    MutationPublishes(p, Find(p.requests, r.spec.id), c, now);
    hide ValidPersisted;
  }

  /** Reconcile reads the request it is to take over. */
  lemma TakeoverReads(s: System, w: nat, job: Job, r: IntegrationTypes.Request, input: Input) returns (t: System)
    requires ValidPersisted(s.store) && Lookup(s.store, job.id) == Some(r) && r.state == Running
    requires w in s.workers && s.workers[w] == Worker(job, Start) && job.ReconcileJob?
    requires r.revision == job.rev && r.claim == Some(job.expected)
    requires ClaimIdentityMatches(job.expected, r.spec) && ClaimIdentityMatches(job.replacement, r.spec)
    ensures Enabled(s, Advance(w, input)) && t == Next(s, Advance(w, input))
    ensures t.workers == s.workers[w := Worker(job, Observing(r))] && t.store == s.store
  {
    hide ValidPersisted, Lookup, MutateStep, ClaimIdentityMatches;
    GetLooksUp(s.store, job.id);
    t := Next(s, Advance(w, input));
  }

  /** Liveness says dead: on to the recovery step. */
  lemma TakeoverObserves(s: System, w: nat, job: Job, r: IntegrationTypes.Request, input: Input) returns (t: System)
    requires w in s.workers && s.workers[w] == Worker(job, Observing(r)) && job.ReconcileJob? && r.state == Running
    requires input.observer == Some(Dead) && input.cancelled.None?
    ensures Enabled(s, Advance(w, input)) && t == Next(s, Advance(w, input))
    ensures t.workers == s.workers[w := Worker(job, Recovering(r))] && t.store == s.store
  {
    hide GetStep, MutateStep;
    t := Next(s, Advance(w, input));
  }

  /** Reconcile up to its recovery step. */
  lemma TakeoverReachesRecovery(s: System, w: nat, job: Job, r: IntegrationTypes.Request, input: Input) returns (t2: System, t3: System)
    requires ValidPersisted(s.store) && Lookup(s.store, job.id) == Some(r) && r.state == Running
    requires w in s.workers && s.workers[w] == Worker(job, Start) && job.ReconcileJob?
    requires r.revision == job.rev && r.claim == Some(job.expected)
    requires ClaimIdentityMatches(job.expected, r.spec) && ClaimIdentityMatches(job.replacement, r.spec)
    requires input.observer == Some(Dead) && input.cancelled.None?
    ensures Enabled(s, Advance(w, input)) && t2 == Next(s, Advance(w, input))
    ensures Enabled(t2, Advance(w, input)) && t3 == Next(t2, Advance(w, input))
    ensures t3.workers == s.workers[w := Worker(job, Recovering(r))] && t3.store == s.store
  {
    hide ValidPersisted, Lookup, Enabled, Next;
    t2 := TakeoverReads(s, w, job, r, input);
    t3 := TakeoverObserves(t2, w, job, r, input);
    assert t3.workers == s.workers[w := Worker(job, Recovering(r))];
  }

  lemma RecoveryEntersAdapter(s: System, w: nat, job: Job, r: IntegrationTypes.Request, input: Input) returns (t: System)
    requires ValidPersisted(s.store) && Lookup(s.store, job.id) == Some(r) && r.spec.id == job.id && r.state == Running
    requires w in s.workers && s.workers[w] == Worker(job, Recovering(r)) && job.ReconcileJob?
    requires r.revision == job.rev < MAX_UINT64 && r.claim == Some(job.expected) && ValidClaim(job.replacement, r.spec)
    ensures Enabled(s, Advance(w, input)) && t == Next(s, Advance(w, input))
    ensures w in t.workers && t.workers[w].pc.InReconcile? && t.workers[w].pc.seen.spec == r.spec
    ensures forall v :: v in s.workers && v != w ==> v in t.workers && t.workers[v] == s.workers[v]
  {
    hide ValidPersisted, Lookup, MutateStep, ValidClaim;
    RecoveryIsAccepted(s.store, r, job.expected, job.replacement, input.now);
    t := Next(s, Advance(w, input));
  }

  lemma InsideHoldsClaim(s: System, v: nat)
    requires Inv(s) && InsideCurrent(s, v)
    ensures var r, claim := s.workers[v].pc.seen, s.workers[v].job.Carried();
      && ValidPersisted(s.store) && r.spec.id == s.workers[v].job.id && r.state == Running
      && r.claim == Some(claim) && ClaimIdentityMatches(claim, r.spec) && Lookup(s.store, r.spec.id) == Some(r)
  {
    InsideIsRunning(s, v);
    hide Fifo, Separate, Lookup, PairwiseCompatible;
    assert WorkerOk(s.store, s.workers[v]) && ValidRequest(s.workers[v].pc.seen);
  }

  lemma SpawnAdds(s: System, w: nat, job: Job)
    requires w !in s.workers
    ensures var t := Next(s, Spawn(w, job)); t.workers == s.workers[w := Worker(job, Start)] && t.store == s.store && t.buried == s.buried
  {
  }

  lemma ValidClaimMatches(c: Claim, spec: Spec)
    requires ValidClaim(c, spec)
    ensures ClaimIdentityMatches(c, spec)
  {
  }

  lemma TakeoverRun(s: System, t1: System, v: nat, w: nat, job: Job, input: Input) returns (t2: System, t3: System, t4: System)
    requires ValidPersisted(s.store) && v in s.workers && w !in s.workers && s.workers[v].pc.Inside()
    requires t1 == Next(s, Spawn(w, job)) && job.ReconcileJob?
    requires var r := s.workers[v].pc.seen;
      && Lookup(s.store, job.id) == Some(r) && r.spec.id == job.id && r.state == Running
      && r.revision == job.rev < MAX_UINT64 && r.claim == Some(job.expected)
      && ClaimIdentityMatches(job.expected, r.spec) && ValidClaim(job.replacement, r.spec)
    requires input.observer == Some(Dead) && input.cancelled.None?
    ensures Enabled(t1, Advance(w, input)) && t2 == Next(t1, Advance(w, input))
    ensures Enabled(t2, Advance(w, input)) && t3 == Next(t2, Advance(w, input))
    ensures Enabled(t3, Advance(w, input)) && t4 == Next(t3, Advance(w, input))
    ensures v in t4.workers && t4.workers[v].pc == s.workers[v].pc
    ensures w in t4.workers && t4.workers[w].pc.InReconcile? && t4.workers[w].pc.seen.spec == s.workers[v].pc.seen.spec
    ensures Truthful(t1, Advance(w, input)) && Truthful(t3, Advance(w, input))
  {
    hide ValidPersisted, Lookup, ValidClaim, Next, ClaimIdentityMatches;
    var r := s.workers[v].pc.seen;
    SpawnAdds(s, w, job);
    ValidClaimMatches(job.replacement, r.spec);
    t2, t3 := TakeoverReachesRecovery(t1, w, job, r, input);
    t4 := RecoveryEntersAdapter(t3, w, job, r, input);
  }

  /**
   * AtMostOneInside needs its assumption everywhere: from any state with a
   * current worker inside the adapter, one false report of its death lets a
   * second worker in for the same resource, four steps later.
   */
  lemma FalseDeathLetsTwoIn(s: System, v: nat, w: nat, replacement: Claim, input: Input)
    returns (t1: System, t2: System, t3: System, t4: System)
    requires Inv(s) && InsideCurrent(s, v) && w !in s.workers && input.observer == Some(Dead) && input.cancelled.None?
    requires ValidClaim(replacement, s.workers[v].pc.seen.spec) && s.workers[v].pc.seen.revision < MAX_UINT64
    ensures Enabled(s, Spawn(w, Takeover(s, v, replacement))) && t1 == Next(s, Spawn(w, Takeover(s, v, replacement)))
    ensures Enabled(t1, Advance(w, input)) && t2 == Next(t1, Advance(w, input))
    ensures Enabled(t2, Advance(w, input)) && t3 == Next(t2, Advance(w, input))
    ensures Enabled(t3, Advance(w, input)) && t4 == Next(t3, Advance(w, input))
    ensures v in t4.workers && t4.workers[v].pc == s.workers[v].pc && w in t4.workers && t4.workers[w].pc.Inside()
    ensures t4.workers[w].pc.seen.spec.resource == t4.workers[v].pc.seen.spec.resource
    ensures Truthful(t1, Advance(w, input)) && Truthful(t3, Advance(w, input))
  {
    hide Inv, ValidPersisted, Lookup, ValidClaim, Next;
    InsideHoldsClaim(s, v);
    var job := Takeover(s, v, replacement);
    t1 := Next(s, Spawn(w, job));
    t2, t3, t4 := TakeoverRun(s, t1, v, w, job, input);
  }

  // Such a state is reached, and so is the second worker inside

  lemma FirstWorkerReads(s: System, job: Job, r: IntegrationTypes.Request, input: Input) returns (t: System)
    requires ValidPersisted(s.store) && Lookup(s.store, job.id) == Some(r) && r.state == Queued && r.revision == job.rev
    requires s.workers == map[0 := Worker(job, Start)] && job.ExecuteJob? && ClaimIdentityMatches(job.claim, r.spec)
    requires input.cancelled.None?
    ensures t == Next(s, Advance(0, input))
    ensures t == s.(workers := map[0 := Worker(job, Admitting(r))])
  {
    hide ValidPersisted, Lookup, MutateStep, ClaimIdentityMatches;
    GetLooksUp(s.store, job.id);
    t := Next(s, Advance(0, input));
  }

  /** A mutation of the only request of a queue. */
  lemma OnlyRequestMutates(r: IntegrationTypes.Request, c: Command, now: Reading)
    requires ValidRequest(r) && r.sequence == 1 && r.revision < MAX_UINT64 && Apply([r], r, c).Ok?
    ensures var x := Stamped(Apply([r], r, c).value, now);
      && MutateStep(Persisted(1, [r]), r.spec.id, r.revision, c, now) == Reply(Persisted(1, [x]), Ok(x))
      && ValidRequest(x)
  {
    var p := Persisted(1, [r]);
    var x := Stamped(Apply([r], r, c).value, now);
    assert Find(p.requests, r.spec.id) == 0;
    MutationPublishes(p, 0, c, now);
    hide ValidRequest, Apply, Stamped;
    assert Replaced(p, 0, x) == Persisted(1, [x]);
    assert x in Replaced(p, 0, x).requests;
  }

  /** Liveness was answered truthfully on this run, except perhaps in step k. */
  ghost predicate TruthfulBut(states: seq<System>, events: seq<Event>, k: int) {
    |states| == |events| + 1 && forall i :: 0 <= i < |events| && i != k ==> Truthful(states[i], events[i])
  }

  lemma TruthfulThroughout(states: seq<System>, events: seq<Event>)
    requires TruthfulBut(states, events, -1)
    ensures AlwaysTruthful(states, events)
  {
  }

  lemma OneMoreStep(states: seq<System>, events: seq<Event>, e: Event, t: System, k: int)
    requires FromEmpty(states, events) && TruthfulBut(states, events, k)
    requires Enabled(states[|events|], e) && t == Next(states[|events|], e)
    requires |events| != k ==> Truthful(states[|events|], e)
    ensures FromEmpty(states + [t], events + [e]) && TruthfulBut(states + [t], events + [e], k)
    ensures (states + [t])[|events| + 1] == t
  {
    hide Next, Enabled, Truthful;
  }

  /** Worker 0 is in the middle of a call of Execute. */
  predicate Executing(s: System) {
    0 in s.workers && !s.workers[0].pc.Stopped() && s.workers[0].job.ExecuteJob?
  }

  lemma ExecutingAdvances(s: System, input: Input)
    requires Executing(s)
    ensures Enabled(s, Advance(0, input)) && Truthful(s, Advance(0, input))
  {
  }

  lemma EmptyRun()
    ensures FromEmpty([INITIAL], []) && TruthfulBut([INITIAL], [], -1)
  {
  }

  lemma FirstRequest(spec: Spec, now: Reading)
    requires ValidSpec(spec)
    ensures var r := NewRequest(INITIAL.store, spec, now);
      && Next(INITIAL, Event.Request(spec, now)) == System(Persisted(1, [r]), map[], {})
      && ValidRequest(r) && ValidPersisted(Persisted(1, [r])) && Lookup(Persisted(1, [r]), spec.id) == Some(r)
  {
    EnqueuePublishes(INITIAL.store, spec, now);
    hide ValidSpec;
    var r := NewRequest(INITIAL.store, spec, now);
    assert [] + [r] == [r] && r in [r];
  }

  lemma FirstNumbers(spec: Spec, now: Reading)
    ensures var r := NewRequest(INITIAL.store, spec, now);
      r.spec == spec && r.state == Queued && r.sequence == 1 && r.revision == 1
  {
  }

  lemma NothingBefore(r: IntegrationTypes.Request)
    ensures !Busy([r], r) && !Overtakes([r], r)
  {
  }

  /** Admission of the only request. */
  lemma FirstWorkerAdmits(s: System, job: Job, r: IntegrationTypes.Request, input: Input) returns (t: System)
    requires s.store == Persisted(1, [r]) && ValidRequest(r) && r.state == Queued && r.sequence == 1 && r.revision == 1
    requires s.workers == map[0 := Worker(job, Admitting(r))] && job.ExecuteJob?
    requires job.id == r.spec.id && job.rev == 1 && ValidClaim(job.claim, r.spec)
    ensures t == Next(s, Advance(0, input)) && t.buried == s.buried
    ensures var x := Stamped(r.(state := Admitted, claim := Some(job.claim)), input.now);
      ValidRequest(x) && t.store == Persisted(1, [x]) && t.workers == map[0 := Worker(job, Boundary(x))]
  {
    NothingBefore(r);
    var c := Admit(job.claim);
    assert Apply([r], r, c) == Ok(r.(state := Admitted, claim := Some(job.claim)));
    hide ValidRequest, ValidClaim, Apply, MutateStep;
    OnlyRequestMutates(r, c, input.now);
    t := Next(s, Advance(0, input));
  }

  /** The boundary: it is marked running, and its worker goes into the adapter. */
  lemma FirstWorkerEnters(s: System, job: Job, r: IntegrationTypes.Request, input: Input) returns (t: System)
    requires s.store == Persisted(1, [r]) && ValidRequest(r) && r.state == Admitted && r.sequence == 1 && r.revision == 2
    requires s.workers == map[0 := Worker(job, Boundary(r))] && job.ExecuteJob? && job.id == r.spec.id && r.claim.Some?
    requires input.cancelled.None?
    ensures 0 in t.workers && t.workers[0].pc.InExecute?
    ensures var x := t.workers[0].pc.seen;
      && t.store == Persisted(1, [x]) && t.workers == map[0 := Worker(job, InExecute(x))] && x.spec == r.spec && x.revision == 3
    ensures t == Next(s, Advance(0, input)) && t.buried == s.buried
  {
    var c := Mark(r.claim, Running, "", None);
    assert Apply([r], r, c) == Ok(r.(state := Running, lastError := ""));
    hide ValidRequest, Apply, MutateStep;
    OnlyRequestMutates(r, c, input.now);
    t := Next(s, Advance(0, input));
  }

  /** A truthful run after which the first worker is inside the adapter. */
  lemma AdapterIsReached(spec: Spec, claim: Claim, input: Input) returns (states: seq<System>, events: seq<Event>)
    requires ValidSpec(spec) && ValidClaim(claim, spec) && input.cancelled.None?
    ensures FromEmpty(states, events) && AlwaysTruthful(states, events) && TruthfulBut(states, events, -1) && |events| == 5
    ensures states[5].workers.Keys == {0} && states[5].workers[0].pc.InExecute? && InsideCurrent(states[5], 0)
    ensures states[5].workers[0].pc.seen.spec == spec && states[5].workers[0].pc.seen.revision == 3 && states[5].buried == {}
  {
    hide ValidSpec, ValidClaim, ClaimIdentityMatches, ValidRequest, ValidPersisted, Lookup, NewRequest;
    hide Next, FromEmpty, TruthfulBut, AlwaysTruthful;
    var job := ExecuteJob(spec.id, 1, claim);
    FirstRequest(spec, input.now);
    var r := NewRequest(INITIAL.store, spec, input.now);
    FirstNumbers(spec, input.now);
    ValidClaimMatches(claim, spec);
    var s1 := Next(INITIAL, Event.Request(spec, input.now));
    SpawnAdds(s1, 0, job);
    var s2 := Next(s1, Spawn(0, job));
    assert s2.workers == map[0 := Worker(job, Start)];
    var s3 := FirstWorkerReads(s2, job, r, input);
    var s4 := FirstWorkerAdmits(s3, job, r, input);
    var s5 := FirstWorkerEnters(s4, job, s4.workers[0].pc.seen, input);
    states, events := FirstSteps(spec, job, input, s1, s2, s3, s4, s5);
    TruthfulThroughout(states, events);
    OnlyIsFound(s5.workers[0].pc.seen);
  }

  lemma OnlyIsFound(r: IntegrationTypes.Request)
    ensures Lookup(Persisted(1, [r]), r.spec.id) == Some(r)
  {
  }

  lemma FirstSteps(spec: Spec, job: Job, input: Input, s1: System, s2: System, s3: System, s4: System, s5: System)
    returns (states: seq<System>, events: seq<Event>)
    requires s1 == Next(INITIAL, Event.Request(spec, input.now)) && s1.buried == {} && 0 !in s1.workers && s2 == Next(s1, Spawn(0, job))
    requires Executing(s2) && s3 == Next(s2, Advance(0, input))
    requires Executing(s3) && s4 == Next(s3, Advance(0, input))
    requires Executing(s4) && s5 == Next(s4, Advance(0, input))
    ensures FromEmpty(states, events) && TruthfulBut(states, events, -1) && |events| == 5 && states[5] == s5
  {
    var step := Advance(0, input);
    assert Enabled(INITIAL, Event.Request(spec, input.now)) && Enabled(s1, Spawn(0, job)) && Truthful(s1, Spawn(0, job));
    ExecutingAdvances(s2, input);
    ExecutingAdvances(s3, input);
    ExecutingAdvances(s4, input);
    EmptyRun();
    states, events := [INITIAL], [];
    hide Next, Enabled, Truthful, Executing, FromEmpty, TruthfulBut;
    OneMoreStep(states, events, Event.Request(spec, input.now), s1, -1);
    states, events := states + [s1], events + [Event.Request(spec, input.now)];
    OneMoreStep(states, events, Spawn(0, job), s2, -1);
    states, events := states + [s2], events + [Spawn(0, job)];
    OneMoreStep(states, events, step, s3, -1);
    states, events := states + [s3], events + [step];
    OneMoreStep(states, events, step, s4, -1);
    states, events := states + [s4], events + [step];
    OneMoreStep(states, events, step, s5, -1);
    states, events := states + [s5], events + [step];
  }

  /**
   * So the assumption is needed on runs from the empty queue as well: one run, with
   * one false answer in it, ends with two workers inside for the same resource.
   */
  lemma OneFalseAnswerBreaksExclusion(spec: Spec, claim: Claim, replacement: Claim, input: Input)
    returns (states: seq<System>, events: seq<Event>)
    requires ValidSpec(spec) && ValidClaim(claim, spec) && ValidClaim(replacement, spec)
    requires input.cancelled.None? && input.observer == Some(Dead)
    ensures FromEmpty(states, events) && |events| == 9 && TruthfulBut(states, events, 7)
    ensures var last := states[9];
      && 0 in last.workers && last.workers[0].pc.Inside() && 1 in last.workers && last.workers[1].pc.Inside()
      && last.workers[0].pc.seen.spec == spec && last.workers[1].pc.seen.spec.resource == spec.resource
  {
    states, events := AdapterIsReached(spec, claim, input);
    var s5 := states[5];
    RunKeepsInv(states, events, 0, 5);
    var job, step := Takeover(s5, 0, replacement), Advance(1, input);
    assert TruthfulBut(states, events, 7) && Truthful(s5, Spawn(1, job));
    hide Inv, InsideCurrent, ValidSpec, ValidClaim, Next, Takeover, FromEmpty, TruthfulBut, Enabled, Truthful;
    var s6, s7, s8, s9 := FalseDeathLetsTwoIn(s5, 0, 1, replacement, input);
    OneMoreStep(states, events, Spawn(1, job), s6, 7);
    OneMoreStep(states + [s6], events + [Spawn(1, job)], step, s7, 7);
    OneMoreStep(states + [s6] + [s7], events + [Spawn(1, job)] + [step], step, s8, 7);
    OneMoreStep(states + [s6] + [s7] + [s8], events + [Spawn(1, job)] + [step] + [step], step, s9, 7);
    states, events := states + [s6] + [s7] + [s8] + [s9], events + [Spawn(1, job)] + [step] + [step] + [step];
  }
}
