/**
 * What the queue answers: which requests Enqueue makes, repeats and refuses,
 * when each command succeeds and what it leaves, and which ways a request can
 * go in its life.
 */
module IntegrationLifecycle {
  import opened Wrappers
  import opened IntegrationTypes
  import opened IntegrationQueue
  import opened IntegrationInvariants
  import opened IntegrationProtocol
  import opened IntegrationSafety
  import opened IntegrationTheorems
  import opened IntegrationOutcomes

  // Sending a request, and sending it again

  /** A request that is stored and that x repeats: the same under its key, with its own id or one that is free. */
  predicate Repeats(rs: seq<IntegrationTypes.Request>, x: Spec, r: IntegrationTypes.Request) {
    r in rs && r.spec == x.(id := r.spec.id) && (x.id == r.spec.id || !Has(rs, x.id))
  }

  lemma FindsItsKey(rs: seq<IntegrationTypes.Request>, r: IntegrationTypes.Request)
    requires PairwiseCompatible(rs) && r in rs
    ensures FindKey(rs, r.spec.idempotencyKey) == Find(rs, r.spec.id) < |rs|
  {
    FindsItself(rs, r);
    var i, j := Find(rs, r.spec.id), FindKey(rs, r.spec.idempotencyKey);
    assert j < i ==> Compatible(rs[j], rs[i]);
  }

  /** What is sent again answers the stored request, and stores nothing. */
  lemma RepeatIsAnswered(p: Persisted, x: Spec, r: IntegrationTypes.Request, now: Reading)
    requires ValidPersisted(p) && ValidSpec(x) && Repeats(p.requests, x, r)
    ensures EnqueueStep(p, x, now) == Reply(p, Ok(r))
  {
    FindsItsKey(p.requests, r);
    FindsItself(p.requests, r);
    hide ValidSpec, ValidRequest, PairwiseCompatible;
    assert x.id == r.spec.id ==> Find(p.requests, x.id) == Find(p.requests, r.spec.id);
  }

  lemma ReplayIsAnswered(p: Persisted, r: IntegrationTypes.Request, now: Reading)
    requires ValidPersisted(p) && r in p.requests
    ensures EnqueueStep(p, r.spec, now) == Reply(p, Ok(r))
  {
    assert ValidRequest(r);
    hide ValidSpec, EnqueueStep;
    RepeatIsAnswered(p, r.spec, r, now);
  }

  /** Any other use of an id or a key that is taken is refused. */
  lemma CollisionIsRefused(p: Persisted, x: Spec, r: IntegrationTypes.Request, now: Reading)
    requires ValidPersisted(p) && ValidSpec(x) && r in p.requests
    requires r.spec.id == x.id || r.spec.idempotencyKey == x.idempotencyKey
    requires forall q :: !Repeats(p.requests, x, q)
    ensures EnqueueStep(p, x, now) == Reply(p, Err(IdentityConflict))
  {
    hide ValidSpec, ValidRequest;
    FindsItsKey(p.requests, r);
    FindsItself(p.requests, r);
    FoundByKeyRepeats(p.requests, x);
  }

  lemma FoundByKeyRepeats(rs: seq<IntegrationTypes.Request>, x: Spec)
    ensures var i, j := Find(rs, x.id), FindKey(rs, x.idempotencyKey);
      j < |rs| && (i == |rs| || i == j) && SameSpec(rs[j].spec, x) ==> Repeats(rs, x, rs[j])
  {
    var j := FindKey(rs, x.idempotencyKey);
    if j < |rs| && SameSpec(rs[j].spec, x) {
      assert rs[j].spec == x.(id := rs[j].spec.id);
    }
  }

  /** A request with a free id and a free key is put at the end of the queue. */
  lemma NewIsQueued(p: Persisted, x: Spec, now: Reading)
    requires ValidPersisted(p) && ValidSpec(x) && p.nextSequence < MAX_UINT64
    requires forall r :: r in p.requests ==> r.spec.id != x.id && r.spec.idempotencyKey != x.idempotencyKey
    ensures var made := IntegrationTypes.Request(x, Queued, p.nextSequence + 1, 1, now, now, None, "", 0);
      EnqueueStep(p, x, now) == Reply(Persisted(p.nextSequence + 1, p.requests + [made]), Ok(made))
  {
    if FindKey(p.requests, x.idempotencyKey) < |p.requests| {
      assert false;
    }
    EnqueuePublishes(p, x, now);
    hide ValidSpec, ValidPersisted;
  }

  /**
   * On every run: a request that was answered once is answered again in every later
   * state, with the request it was answered with, as it stands then, and nothing is
   * stored. Only when it was sent under another id, and that id was taken since, it
   * is refused.
   */
  lemma SentAgain(states: seq<System>, events: seq<Event>, i: nat, k: nat, r: IntegrationTypes.Request, now: Reading)
    requires FromEmpty(states, events) && i < k < |states| && events[i].Request?
    requires EnqueueStep(states[i].store, events[i].spec, events[i].now).result == Ok(r)
    ensures var x, p := events[i].spec, states[k].store;
      var again := EnqueueStep(p, x, now);
      && Lookup(p, r.spec.id).Some?
      && Lookup(p, r.spec.id).value.spec == r.spec && Lookup(p, r.spec.id).value.sequence == r.sequence
      && again == (if x.id == r.spec.id || !Has(p.requests, x.id)
                   then Reply(p, Ok(Lookup(p, r.spec.id).value)) else Reply(p, Err(IdentityConflict)))
  {
    var x, p, q := events[i].spec, states[i + 1].store, states[k].store;
    ReachableInv(states, events, i);
    ReachableInv(states, events, i + 1);
    ReachableInv(states, events, k);
    AnswerIsStored(states[i].store, x, events[i].now, r);
    assert p == EnqueueStep(states[i].store, x, events[i].now).state;
    hide EnqueueStep, ValidPersisted, Next, Fifo, Separate, WorkerOk, ValidSpec;
    RunKeepsIdentity(states, events, i + 1, k, r.spec.id);
    var later := Lookup(q, r.spec.id).value;
    AgainAnswers(q, x, later, now);
  }

  lemma AnswerIsStored(p: Persisted, x: Spec, now: Reading, r: IntegrationTypes.Request)
    requires ValidPersisted(p) && EnqueueStep(p, x, now).result == Ok(r)
    ensures ValidSpec(x) && r.spec == x.(id := r.spec.id) && Lookup(EnqueueStep(p, x, now).state, r.spec.id) == Some(r)
  {
    hide ValidSpec;
    var q := EnqueueStep(p, x, now).state;
    EnqueueAppends(p, x, now);
    assert r in q.requests;
    MembersAreFound(q);
  }

  lemma AgainAnswers(q: Persisted, x: Spec, later: IntegrationTypes.Request, now: Reading)
    requires ValidPersisted(q) && ValidSpec(x) && Lookup(q, later.spec.id) == Some(later) && later.spec == x.(id := later.spec.id)
    ensures EnqueueStep(q, x, now) ==
      if x.id == later.spec.id || !Has(q.requests, x.id) then Reply(q, Ok(later)) else Reply(q, Err(IdentityConflict))
  {
    hide EnqueueStep, ValidSpec;
    assert later in q.requests;
    if x.id == later.spec.id || !Has(q.requests, x.id) {
      RepeatIsAnswered(q, x, later, now);
    } else {
      forall r
        ensures !Repeats(q.requests, x, r)
      {
        if Repeats(q.requests, x, r) {
          SameKeySame(q.requests, r, later);
          assert false;
        }
      }
      CollisionIsRefused(q, x, later, now);
    }
  }

  lemma SameKeySame(rs: seq<IntegrationTypes.Request>, a: IntegrationTypes.Request, b: IntegrationTypes.Request)
    requires PairwiseCompatible(rs) && a in rs && b in rs && a.spec.idempotencyKey == b.spec.idempotencyKey
    ensures a == b
  {
    FindsItsKey(rs, a);
    FindsItsKey(rs, b);
    FindsItself(rs, a);
    FindsItself(rs, b);
  }

  // When a command succeeds, and what it leaves

  /** A stored request that a command changes at its revision, with room for one more revision. */
  ghost predicate Open(p: Persisted, r: IntegrationTypes.Request) {
    ValidPersisted(p) && r in p.requests && r.revision < MAX_UINT64
  }

  /** The command made of r the request x, stamped, and changed nothing else. */
  ghost predicate Becomes(p: Persisted, r: IntegrationTypes.Request, c: Command, now: Reading, x: IntegrationTypes.Request)
    requires r.revision < MAX_UINT64
  {
    var reply, after := MutateStep(p, r.spec.id, r.revision, c, now), x.(revision := r.revision + 1, updatedAt := now);
    && reply.result == Ok(after)
    && Lookup(reply.state, r.spec.id) == Some(after)
    && forall other :: other != r.spec.id ==> Lookup(reply.state, other) == Lookup(p, other)
  }

  ghost predicate IsRefused(p: Persisted, r: IntegrationTypes.Request, c: Command, now: Reading) {
    var reply := MutateStep(p, r.spec.id, r.revision, c, now);
    reply.result.Err? && reply.state == p
  }

  lemma FindsStored(p: Persisted, r: IntegrationTypes.Request)
    requires ValidPersisted(p) && r in p.requests
    ensures Lookup(p, r.spec.id) == Some(r) && ValidRequest(r)
  {
    FindsItself(p.requests, r);
  }

  lemma CommandDecides(p: Persisted, r: IntegrationTypes.Request, c: Command, now: Reading)
    requires Open(p, r)
    ensures ValidRequest(r)
    ensures Apply(p.requests, r, c).Ok? ==> Becomes(p, r, c, now, Apply(p.requests, r, c).value)
    ensures Apply(p.requests, r, c).Err? ==> IsRefused(p, r, c, now)
  {
    hide Apply, ValidPersisted, MutateStep, ValidRequest, Lookup;
    FindsStored(p, r);
    StoredIsMutated(p, r, c, now);
    MutationEdits(p, r.spec.id, r.revision, c, now);
  }

  /** Cancel: the owner, for a request that is not running and not at its end. */
  lemma CancelDecides(p: Persisted, r: IntegrationTypes.Request, caller: Owner, now: Reading)
    requires Open(p, r)
    ensures
      if caller == r.spec.owner && r.state in {Queued, Admitted, RevalidationRequired} then
        Becomes(p, r, Cancel(caller), now, r.(state := Cancelled, claim := None))
      else IsRefused(p, r, Cancel(caller), now)
  {
    hide Open, Becomes, IsRefused, ValidSpec, ValidRequestClaim;
    CommandDecides(p, r, Cancel(caller), now);
  }

  /** Admit: a queued request, a claim for it, nobody at its resource and nobody before it. */
  lemma AdmitDecides(p: Persisted, r: IntegrationTypes.Request, claim: Claim, now: Reading)
    requires Open(p, r)
    ensures
      if r.state == Queued && ValidClaim(claim, r.spec) && FreeFor(p, r) && forall x :: Ahead(p, r, x) ==> x.state != Queued then
        Becomes(p, r, Admit(claim), now, r.(state := Admitted, claim := Some(claim)))
      else IsRefused(p, r, Admit(claim), now)
  {
    hide Becomes, IsRefused, ValidSpec, ValidRequestClaim, ValidClaim;
    CommandDecides(p, r, Admit(claim), now);
    BusyIsNotFree(p, r);
    OvertakesIsAhead(p, r);
    hide FreeFor, Ahead, Busy, Overtakes, Open;
  }

  /** No other request is admitted or running at the resource of r. */
  ghost predicate FreeFor(p: Persisted, r: IntegrationTypes.Request) {
    forall x :: x in p.requests && x != r && x.spec.resource == r.spec.resource ==> x.state !in {Admitted, Running}
  }

  /** x came to the resource of r before r. */
  ghost predicate Ahead(p: Persisted, r: IntegrationTypes.Request, x: IntegrationTypes.Request) {
    x in p.requests && x.spec.resource == r.spec.resource && x.sequence < r.sequence
  }

  lemma BusyIsNotFree(p: Persisted, r: IntegrationTypes.Request)
    requires ValidPersisted(p) && r in p.requests
    ensures Busy(p.requests, r) <==> !FreeFor(p, r)
  {
    hide ValidRequest, PairwiseCompatible;
    forall x | x in p.requests && x != r
      ensures x.spec.id != r.spec.id
    {
      OthersHaveOtherIds(p.requests, x, r);
    }
  }

  lemma OvertakesIsAhead(p: Persisted, r: IntegrationTypes.Request)
    requires ValidPersisted(p) && r in p.requests
    ensures Overtakes(p.requests, r) <==> exists x :: Ahead(p, r, x) && x.state == Queued
  {
    hide ValidRequest, PairwiseCompatible;
    forall x | x in p.requests && x != r
      ensures x.spec.id != r.spec.id
    {
      OthersHaveOtherIds(p.requests, x, r);
    }
    if x :| Ahead(p, r, x) && x.state == Queued {
      assert x != r;
    }
    if Overtakes(p.requests, r) {
      var x :| x in p.requests && x.spec.id != r.spec.id && x.spec.resource == r.spec.resource && x.state == Queued && x.sequence < r.sequence;
      assert Ahead(p, r, x);
    }
  }

  /** Mark: whoever carries the claim of an admitted or running request, to the states that follow. */
  lemma MarkDecides(p: Persisted, r: IntegrationTypes.Request, marked: Option<Claim>, to: State, text: string, code: Option<int>, now: Reading)
    requires Open(p, r)
    ensures
      var c := Mark(marked, to, text, code);
      if && marked.Some? && marked == r.claim
         && ((r.state == Admitted && to in {Running, Failed, Cancelled, RevalidationRequired})
             || (r.state == Running && to in {Running, Succeeded, Failed, RevalidationRequired}))
      then Becomes(p, r, c, now, r.(
        state := to, lastError := text, lastExitCode := if code.Some? then code.value else r.lastExitCode,
        claim := if to in {Succeeded, Failed, Cancelled} then None else r.claim))
      else IsRefused(p, r, c, now)
  {
    hide Open, Becomes, IsRefused, ValidSpec, ValidClaim;
    CommandDecides(p, r, Mark(marked, to, text, code), now);
  }

  /** Recovery: the owner, after a report of death, replaces the claim of an admitted or running request and nothing else. */
  lemma RecoverDecides(p: Persisted, r: IntegrationTypes.Request, caller: Owner, expected: Claim, claim: Claim, seen: Liveness, now: Reading)
    requires Open(p, r)
    ensures
      var fits := seen == Dead && r.claim == Some(expected) && caller == r.spec.owner && ValidClaim(claim, r.spec);
      var (a, b) := (RecoverAdmitted(caller, expected, claim, seen), RecoverRunning(caller, expected, claim, seen));
      && (if fits && r.state == Admitted then Becomes(p, r, a, now, r.(claim := Some(claim))) else IsRefused(p, r, a, now))
      && (if fits && r.state == Running then Becomes(p, r, b, now, r.(claim := Some(claim))) else IsRefused(p, r, b, now))
  {
    hide Open, Becomes, IsRefused, ValidSpec, ValidRequestClaim;
    CommandDecides(p, r, RecoverAdmitted(caller, expected, claim, seen), now);
    CommandDecides(p, r, RecoverRunning(caller, expected, claim, seen), now);
  }

  /** Resume: the owner, with the claim that is held, when nobody is at the resource. */
  lemma ResumeDecides(p: Persisted, r: IntegrationTypes.Request, caller: Owner, expected: Claim, now: Reading)
    requires Open(p, r)
    ensures
      var c := ResumeRevalidation(caller, expected);
      if r.state == RevalidationRequired && r.claim == Some(expected) && caller == r.spec.owner && FreeFor(p, r) then
        Becomes(p, r, c, now, r.(state := Admitted))
      else IsRefused(p, r, c, now)
  {
    hide Becomes, IsRefused, ValidSpec;
    CommandDecides(p, r, ResumeRevalidation(caller, expected), now);
    BusyIsNotFree(p, r);
    hide FreeFor, Busy, Open;
  }

  // The ways of a request

  /** Every change of state there is, once a request is queued. */
  const LIFE_CYCLE: set<(State, State)> := {
    (Queued, Admitted), (Queued, Cancelled),
    (Admitted, Admitted), (Admitted, Running), (Admitted, Failed), (Admitted, Cancelled), (Admitted, RevalidationRequired),
    (Running, Running), (Running, Succeeded), (Running, Failed), (Running, RevalidationRequired),
    (RevalidationRequired, Admitted), (RevalidationRequired, Cancelled)}

  lemma ApplyFollows(rs: seq<IntegrationTypes.Request>, r: IntegrationTypes.Request, c: Command)
    requires ValidRequest(r) && Apply(rs, r, c).Ok?
    ensures (r.state, Apply(rs, r, c).value.state) in LIFE_CYCLE
  {
    hide ValidSpec, ValidClaim, Busy, Overtakes;
  }

  /** Whatever is asked of a valid queue changes the state of a request along the life cycle only. */
  lemma OnlyTheLifeCycle(p: Persisted, id: string, rev: Uint64, c: Command, now: Reading)
    requires ValidPersisted(p) && MutateStep(p, id, rev, c, now).result.Ok?
    ensures Lookup(p, id).Some? && (Lookup(p, id).value.state, MutateStep(p, id, rev, c, now).result.value.state) in LIFE_CYCLE
  {
    hide MutateStep, LIFE_CYCLE, Apply, PairwiseCompatible, ValidRequest;
    MutationEdits(p, id, rev, c, now);
    var r := Lookup(p, id).value;
    assert r in p.requests;
    ApplyFollows(p.requests, r, c);
  }

  /** And every one of its ways is open, the admissions when the resource is. */
  lemma EveryWayIsOpen(p: Persisted, r: IntegrationTypes.Request, to: State, now: Reading) returns (c: Command)
    requires Open(p, r) && (r.state, to) in LIFE_CYCLE
    requires to == Admitted && r.state != Admitted ==> FreeFor(p, r) && forall x :: Ahead(p, r, x) ==> x.state != Queued
    ensures MutateStep(p, r.spec.id, r.revision, c, now).result.Ok?
    ensures MutateStep(p, r.spec.id, r.revision, c, now).result.value.state == to
  {
    hide ValidPersisted, FreeFor, Ahead, MutateStep, Lookup, ValidSpec, IsRefused;
    var claim := Claim(r.spec.owner, r.spec.generation, 1, 1, "host");
    FindsStored(p, r);
    if to == Cancelled {
      c := Cancel(r.spec.owner);
      CancelDecides(p, r, r.spec.owner, now);
    } else if r.state == Queued {
      c := Admit(claim);
      AdmitDecides(p, r, claim, now);
    } else if r.state == RevalidationRequired {
      c := ResumeRevalidation(r.spec.owner, r.claim.value);
      ResumeDecides(p, r, r.spec.owner, r.claim.value, now);
    } else if to == Admitted {
      c := RecoverAdmitted(r.spec.owner, r.claim.value, claim, Dead);
      RecoverDecides(p, r, r.spec.owner, r.claim.value, claim, Dead, now);
    } else {
      c := Mark(r.claim, to, "", None);
      MarkDecides(p, r, r.claim, to, "", None, now);
    }
  }

  /** On every run a request enters as queued, stays in the queue, and changes along the life cycle. */
  lemma RunsFollowTheLifeCycle(states: seq<System>, events: seq<Event>, k: nat, id: string)
    requires FromEmpty(states, events) && k < |events|
    ensures var a, b := StateOf(states[k], id), StateOf(states[k + 1], id);
      a == b || (a.None? && b == Some(Queued)) || (a.Some? && b.Some? && (a.value, b.value) in LIFE_CYCLE)
  {
    var s, e := states[k], events[k];
    ReachableInv(states, events, k);
    StepCalls(s, e);
    var call := CallOf(s, e);
    hide Inv, Next, Fifo, Separate, WorkerOk, CallOf, TimeOf, ValidPersisted, LIFE_CYCLE;
    if e.Request? {
      RequestEnters(s.store, e.spec, e.now, id);
    } else {
      CallFollows(s.store, call, TimeOf(e), id);
    }
  }

  lemma RequestEnters(p: Persisted, x: Spec, now: Reading, id: string)
    requires ValidPersisted(p)
    ensures var a, b := Lookup(p, id), Lookup(EnqueueStep(p, x, now).state, id);
      a == b || (a.None? && b.Some? && b.value.state == Queued)
  {
    hide EnqueueStep, ValidPersisted;
    EnqueueAppends(p, x, now);
  }

  lemma CallFollows(p: Persisted, call: Call, now: Reading, id: string)
    requires ValidPersisted(p)
    ensures var a, b := Lookup(p, id), Lookup(Answer(p, call, now).state, id);
      a == b || (a.Some? && b.Some? && (a.value.state, b.value.state) in LIFE_CYCLE)
  {
    hide ValidPersisted, Lookup, MutateStep, LIFE_CYCLE;
    if call.MutateCall? {
      MutationEdits(p, call.id, call.rev, call.command, now);
      if MutateStep(p, call.id, call.rev, call.command, now).result.Ok? {
        OnlyTheLifeCycle(p, call.id, call.rev, call.command, now);
      }
    }
  }

  // A worker that is not superseded gets on

  /** The worker acts on the stored request as it stands. */
  ghost predicate Current(p: Persisted, w: Worker) {
    && SeenBy(w.pc).Some? && WorkerOk(p, w)
    && Lookup(p, w.job.id) == SeenBy(w.pc) && SeenBy(w.pc).value.revision < MAX_UINT64
  }

  /**
   * What a current worker asks of the queue is granted: at the boundary, to cancel
   * or to run, and above all its publication. Only an admission may have to wait,
   * and only a claim that is not a claim for the request is refused.
   */
  lemma CurrentIsGranted(p: Persisted, w: Worker, input: Input)
    requires ValidPersisted(p) && Current(p, w) && NextCall(w, input).MutateCall?
    ensures
      var r, ok := SeenBy(w.pc).value, Answer(p, NextCall(w, input), input.now).result.Ok?;
      if w.pc.Admitting? then
        ok <==> ValidClaim(w.job.claim, r.spec) && FreeFor(p, r) && forall x :: Ahead(p, r, x) ==> x.state != Queued
      else if w.pc.Recovering? then ok <==> ValidClaim(w.job.replacement, r.spec)
      else ok
  {
    var r, call := SeenBy(w.pc).value, NextCall(w, input);
    StoredIsOpen(p, w);
    assert Knows(w);
    StoredIsMutated(p, r, call.command, input.now);
    hide ValidPersisted, Lookup, MutateStep, Apply;
    match w.pc
    case Admitting(_) =>
      AdmitDecides(p, r, w.job.claim, input.now);
    case Recovering(_) =>
      RecoverDecides(p, r, r.spec.owner, w.job.expected, w.job.replacement, Dead, input.now);
    case Publishing(_, out) =>
      var o := PublishedOutcome(out);
      MarkDecides(p, r, r.claim, o.state, o.reason, Some(o.exitCode), input.now);
    case Remarking(_) =>
      MarkDecides(p, r, r.claim, Running, "", None, input.now);
    case Boundary(_) =>
      CancelDecides(p, r, w.job.Carried().owner, input.now);
      MarkDecides(p, r, r.claim, Running, "", None, input.now);
    case _ =>
  }

  lemma StoredIsOpen(p: Persisted, w: Worker)
    requires ValidPersisted(p) && Current(p, w)
    ensures var r := SeenBy(w.pc).value;
      Open(p, r) && r.spec.id == w.job.id && ValidRequest(r) && Knows(w) && (r.claim.Some? ==> r.claim.value.owner == r.spec.owner)
  {
    hide ValidSpec;
  }

  // Calls that nobody disturbs

  /** One more step of worker w. */
  function Step(s: System, w: nat, input: Input): System {
    if Enabled(s, Advance(w, input)) then Next(s, Advance(w, input)) else s
  }

  /** Worker w is at this program point, and what it last saw of its request is what is stored. */
  ghost predicate At(s: System, w: nat, job: Job, pc: Pc) {
    && Inv(s) && w in s.workers && s.workers[w] == Worker(job, pc)
    && (SeenBy(pc).Some? ==> SeenBy(pc) == Lookup(s.store, job.id))
  }

  function Made(x: IntegrationTypes.Request, now: Reading): IntegrationTypes.Request
    requires x.revision < MAX_UINT64
  {
    x.(revision := x.revision + 1, updatedAt := now)
  }

  lemma LookedUpIsStored(p: Persisted, id: string)
    requires ValidPersisted(p) && Lookup(p, id).Some?
    ensures Lookup(p, id).value in p.requests && ValidRequest(Lookup(p, id).value)
  {
    assert Lookup(p, id).value in p.requests;
  }

  lemma ReadStep(s: System, w: nat, job: Job, r: IntegrationTypes.Request, input: Input)
    requires At(s, w, job, Start) && Lookup(s.store, job.id) == Some(r) && (job.ExecuteJob? ==> input.cancelled.None?)
    ensures var t := Step(s, w, input);
      && t.store == s.store && w in t.workers && Inv(t) && r.spec.id == job.id && ValidRequest(r) && r in s.store.requests
      && t.workers[w] == Worker(job, if job.ExecuteJob? then ExecuteEntry(job, r) else ReconcileEntry(job, r))
  {
    hide ValidPersisted, Fifo, Separate, WorkerOk, Lookup, ExecuteEntry, ReconcileEntry, ValidRequest, Newer, MutateStep;
    GetLooksUp(s.store, job.id);
    LookedUpIsStored(s.store, job.id);
    StepKeepsInv(s, Advance(w, input));
  }

  lemma GrantedStep(s: System, w: nat, job: Job, pc: Pc, c: Command, x: IntegrationTypes.Request, input: Input)
    requires At(s, w, job, pc) && SeenBy(pc).Some?
    requires var r := SeenBy(pc).value;
      && r.revision == x.revision < MAX_UINT64 && r.spec.id == job.id && Becomes(s.store, r, c, input.now, x)
      && NextCall(Worker(job, pc), input) == MutateCall(job.id, r.revision, c)
    ensures var t := Step(s, w, input);
      && w in t.workers && Inv(t) && Lookup(t.store, job.id) == Some(Made(x, input.now))
      && t.workers[w] == Worker(job, Continue(Worker(job, pc), input, Ok(Made(x, input.now))))
  {
    hide ValidPersisted, Fifo, Separate, WorkerOk, Lookup, NextCall, Continue, MutateStep, Newer;
    assert !pc.Stopped();
    StepKeepsInv(s, Advance(w, input));
  }

  lemma KnownAt(s: System, w: nat, job: Job, pc: Pc)
    requires At(s, w, job, pc) && SeenBy(pc).Some?
    ensures var r := SeenBy(pc).value;
      r.spec.id == job.id && Knows(Worker(job, pc)) && ValidPersisted(s.store) && r in s.store.requests && ValidRequest(r)
  {
    hide Fifo, Separate, ValidRequest, PairwiseCompatible, Newer;
    assert WorkerOk(s.store, s.workers[w]);
  }

  /** At the boundary the request is run, or, when the call was cancelled, cancelled. */
  lemma BoundaryStep(s: System, w: nat, job: Job, r: IntegrationTypes.Request, input: Input)
    requires At(s, w, job, Boundary(r)) && r.revision < MAX_UINT64
    ensures var t := Step(s, w, input);
      if input.cancelled.None? then At(t, w, job, InExecute(Made(r.(state := Running, lastError := ""), input.now)))
      else
        && At(t, w, job, Returned(Outcome(Cancelled, input.cancelled.value, 125), true))
        && Lookup(t.store, job.id) == Some(Made(r.(state := Cancelled, claim := None), input.now))
  {
    hide Inv, ValidPersisted, Lookup, ValidSpec, Becomes, MutateStep;
    KnownAt(s, w, job, Boundary(r));
    if input.cancelled.None? {
      var c := Mark(r.claim, Running, "", None);
      MarkDecides(s.store, r, r.claim, Running, "", None, input.now);
      GrantedStep(s, w, job, Boundary(r), c, r.(state := Running, lastError := ""), input);
    } else {
      CancelDecides(s.store, r, job.Carried().owner, input.now);
      GrantedStep(s, w, job, Boundary(r), Cancel(job.Carried().owner), r.(state := Cancelled, claim := None), input);
    }
  }

  lemma AdmittingStep(s: System, w: nat, job: Job, r: IntegrationTypes.Request, input: Input)
    requires At(s, w, job, Admitting(r)) && r.revision < MAX_UINT64
    requires ValidClaim(job.Carried(), r.spec) && FreeFor(s.store, r) && forall x :: Ahead(s.store, r, x) ==> x.state != Queued
    ensures At(Step(s, w, input), w, job, Boundary(Made(r.(state := Admitted, claim := Some(job.Carried())), input.now)))
  {
    hide Inv, ValidPersisted, Lookup, ValidSpec, ValidClaim, Becomes, MutateStep, FreeFor, Ahead;
    KnownAt(s, w, job, Admitting(r));
    AdmitDecides(s.store, r, job.Carried(), input.now);
    GrantedStep(s, w, job, Admitting(r), Admit(job.Carried()), r.(state := Admitted, claim := Some(job.Carried())), input);
  }

  lemma RemarkingStep(s: System, w: nat, job: Job, r: IntegrationTypes.Request, input: Input)
    requires At(s, w, job, Remarking(r)) && r.revision < MAX_UINT64
    ensures At(Step(s, w, input), w, job, InExecute(Made(r.(state := Running, lastError := ""), input.now)))
  {
    hide Inv, ValidPersisted, Lookup, ValidSpec, Becomes, MutateStep;
    KnownAt(s, w, job, Remarking(r));
    MarkDecides(s.store, r, r.claim, Running, "", None, input.now);
    GrantedStep(s, w, job, Remarking(r), Mark(r.claim, Running, "", None), r.(state := Running, lastError := ""), input);
  }

  lemma RecoveringStep(s: System, w: nat, job: Job, r: IntegrationTypes.Request, input: Input)
    requires At(s, w, job, Recovering(r)) && r.revision < MAX_UINT64 && job.ReconcileJob? && ValidClaim(job.replacement, r.spec)
    ensures var y := Made(r.(claim := Some(job.replacement)), input.now);
      At(Step(s, w, input), w, job, if r.state == Admitted then Remarking(y) else InReconcile(y))
  {
    hide Inv, ValidPersisted, Lookup, ValidSpec, ValidClaim, Becomes, MutateStep;
    KnownAt(s, w, job, Recovering(r));
    RecoverDecides(s.store, r, r.spec.owner, job.expected, job.replacement, Dead, input.now);
    var c :=
      if r.state == Admitted then RecoverAdmitted(r.spec.owner, job.expected, job.replacement, Dead)
      else RecoverRunning(r.spec.owner, job.expected, job.replacement, Dead);
    GrantedStep(s, w, job, Recovering(r), c, r.(claim := Some(job.replacement)), input);
  }

  /** A publication is recorded as it stands, and then returned. */
  lemma PublishingStep(s: System, w: nat, job: Job, r: IntegrationTypes.Request, out: Outcome, input: Input)
    requires At(s, w, job, Publishing(r, out)) && r.revision < MAX_UINT64
    ensures var t, o := Step(s, w, input), PublishedOutcome(out);
      && At(t, w, job, Returned(o, !ValidExecutionOutcome(out.state)))
      && Lookup(t.store, job.id) == Some(Made(r.(
           state := o.state, lastError := o.reason, lastExitCode := o.exitCode,
           claim := if o.state in {Succeeded, Failed} then None else r.claim), input.now))
  {
    hide Inv, ValidPersisted, Lookup, ValidSpec, Becomes, MutateStep;
    KnownAt(s, w, job, Publishing(r, out));
    var o := PublishedOutcome(out);
    MarkDecides(s.store, r, r.claim, o.state, o.reason, Some(o.exitCode), input.now);
    GrantedStep(s, w, job, Publishing(r, out), Mark(r.claim, o.state, o.reason, Some(o.exitCode)), r.(
      state := o.state, lastError := o.reason, lastExitCode := o.exitCode,
      claim := if o.state in {Succeeded, Failed} then None else r.claim), input);
  }

  /** The adapter returns; then its outcome is published. */
  lemma AdapterStep(s: System, w: nat, job: Job, pc: Pc, input: Input)
    requires At(s, w, job, pc) && pc.Inside()
    ensures At(Step(s, w, input), w, job, Publishing(pc.seen, NormalizeOutcome(input.answer)))
  {
    hide ValidPersisted, Fifo, Separate, WorkerOk, Lookup, NormalizeOutcome, Newer;
    StepKeepsInv(s, Advance(w, input));
  }

  /**
   * What the adapter answers is recorded, whatever other workers did before, as
   * long as nobody superseded this one: an answer whose state and exit code fit
   * each other as it is, exit code 4 as a revalidation, anything else as running
   * with an unknown result.
   */
  lemma AnswerIsRecorded(s: System, w: nat, job: Job, pc: Pc, input: Input)
    requires At(s, w, job, pc) && pc.Inside() && pc.seen.revision < MAX_UINT64
    ensures
      var t, out := Step(Step(s, w, input), w, input), input.answer;
      var o :=
        if out.exitCode == 4 then Outcome(RevalidationRequired, out.reason, 4)
        else if ValidOutcome(out) then out
        else Outcome(Running, INCOMPLETE, 125);
      && w in t.workers && t.workers[w].pc.Returned? && t.workers[w].pc.result == o
      && Lookup(t.store, job.id).Some?
      && var r := Lookup(t.store, job.id).value;
      && r.state == o.state && r.lastError == o.reason && r.lastExitCode == o.exitCode && r.spec == pc.seen.spec
      && r.claim == (if o.state in {Succeeded, Failed} then None else pc.seen.claim)
  {
    hide Inv, Step, PublishedOutcome, Lookup;
    AdapterStep(s, w, job, pc, input);
    PublishingStep(Step(s, w, input), w, job, pc.seen, NormalizeOutcome(input.answer), input);
    PublishedAnswer(input.answer);
    hide NormalizeOutcome;
  }

  lemma PublishedAnswer(out: Outcome)
    ensures PublishedOutcome(NormalizeOutcome(out)) ==
      if out.exitCode == 4 then Outcome(RevalidationRequired, out.reason, 4)
      else if ValidOutcome(out) then out
      else Outcome(Running, INCOMPLETE, 125)
  {
  }

  /** On every run the publication of a worker that is not superseded is recorded. */
  lemma PublicationIsRecorded(states: seq<System>, events: seq<Event>, k: nat, w: nat, input: Input)
    requires FromEmpty(states, events) && k < |events| && events[k] == Advance(w, input)
    requires states[k].workers[w].pc.Publishing? && states[k].workers[w].pc.seen.revision < MAX_UINT64
    requires !Superseded(states[k], w)
    ensures
      var before, t := states[k].workers[w], states[k + 1];
      var o := PublishedOutcome(before.pc.out);
      && t.workers[w].pc == Returned(o, !ValidExecutionOutcome(before.pc.out.state))
      && Lookup(t.store, before.job.id).Some?
      && var r := Lookup(t.store, before.job.id).value;
      && r.state == o.state && r.lastError == o.reason && r.lastExitCode == o.exitCode && r.spec == before.pc.seen.spec
      && r.claim == (if o.state in {Succeeded, Failed} then None else before.pc.seen.claim)
  {
    var s := states[k];
    ReachableInv(states, events, k);
    NotSupersededIsCurrent(s, w);
    assert states[k + 1] == Step(s, w, input);
    hide Inv, Next, Superseded, PublishedOutcome, Lookup;
    PublishingStep(s, w, s.workers[w].job, s.workers[w].pc.seen, s.workers[w].pc.out, input);
  }

  lemma NotSupersededIsCurrent(s: System, w: nat)
    requires Inv(s) && w in s.workers && SeenBy(s.workers[w].pc).Some? && !Superseded(s, w)
    ensures At(s, w, s.workers[w].job, s.workers[w].pc)
  {
    assert WorkerOk(s.store, s.workers[w]);
    hide ValidPersisted, Fifo, Separate, Lookup, Knows;
  }

  // Whole calls

  /** Execute of a queued request whose turn it is reaches the adapter, in three steps. */
  lemma ExecuteQueued(s: System, w: nat, job: Job, r: IntegrationTypes.Request, input: Input)
    requires At(s, w, job, Start) && job.ExecuteJob? && input.cancelled.None? && Lookup(s.store, job.id) == Some(r)
    requires r.state == Queued && r.revision == job.rev && r.revision + 1 < MAX_UINT64
    requires ValidClaim(job.claim, r.spec) && FreeFor(s.store, r) && forall x :: Ahead(s.store, r, x) ==> x.state != Queued
    ensures
      var t := Step(Step(Step(s, w, input), w, input), w, input);
      && w in t.workers && t.workers[w].pc.InExecute? && InsideCurrent(t, w)
      && t.workers[w].pc.seen.spec == r.spec && t.workers[w].pc.seen.state == Running && t.workers[w].pc.seen.claim == Some(job.claim)
  {
    hide Inv, Lookup, Step, FreeFor, Ahead, ValidSpec, ValidRequest;
    ReadStep(s, w, job, r, input);
    var t1 := Step(s, w, input);
    AdmittingStep(t1, w, job, r, input);
    BoundaryStep(Step(t1, w, input), w, job, Made(r.(state := Admitted, claim := Some(job.claim)), input.now), input);
  }

  /** Execute of an admitted request with the claim it was admitted with, as after a resume, in two. */
  lemma ExecuteAdmitted(s: System, w: nat, job: Job, r: IntegrationTypes.Request, input: Input)
    requires At(s, w, job, Start) && job.ExecuteJob? && input.cancelled.None? && Lookup(s.store, job.id) == Some(r)
    requires r.state == Admitted && r.revision == job.rev < MAX_UINT64 && r.claim == Some(job.claim)
    ensures
      var t := Step(Step(s, w, input), w, input);
      && w in t.workers && t.workers[w].pc.InExecute? && InsideCurrent(t, w)
      && t.workers[w].pc.seen.spec == r.spec && t.workers[w].pc.seen.state == Running && t.workers[w].pc.seen.claim == Some(job.claim)
  {
    hide Inv, Lookup, Step, ValidSpec;
    ReadStep(s, w, job, r, input);
    BoundaryStep(Step(s, w, input), w, job, r, input);
  }

  /** Execute of anything else stops after its first step: a repeated outcome, a demand for revalidation, or a failure. */
  lemma ExecuteOther(s: System, w: nat, job: Job, r: IntegrationTypes.Request, input: Input)
    requires At(s, w, job, Start) && job.ExecuteJob? && input.cancelled.None? && Lookup(s.store, job.id) == Some(r)
    requires !(r.revision == job.rev && ClaimIdentityMatches(job.claim, r.spec) && (r.state == Queued || (r.state == Admitted && r.claim == Some(job.claim))))
    ensures
      var t := Step(s, w, input);
      && t.store == s.store && w in t.workers
      && t.workers[w].pc ==
         if r.revision != job.rev || !ClaimIdentityMatches(job.claim, r.spec) then FAILURE
         else if Terminal(r.state) then Returned(RequestOutcome(r), false)
         else if r.state == RevalidationRequired then Returned(Outcome(RevalidationRequired, r.lastError, 4), true)
         else FAILURE
  {
    hide Inv, Lookup, Step, ValidSpec, RequestOutcome;
    ReadStep(s, w, job, r, input);
  }

  /** A job of reconciliation that names the stored request as it is, with claims for it. */
  predicate NamesClaims(job: Job, r: IntegrationTypes.Request) {
    && job.ReconcileJob? && r.revision == job.rev && r.claim == Some(job.expected)
    && ClaimIdentityMatches(job.expected, r.spec) && ClaimIdentityMatches(job.replacement, r.spec)
  }

  /** Reconcile of a dead worker's request takes it over: into the recovery of a running one, or the start of an admitted one. */
  lemma ReconcileDead(s: System, w: nat, job: Job, r: IntegrationTypes.Request, input: Input)
    requires At(s, w, job, Start) && Lookup(s.store, job.id) == Some(r) && NamesClaims(job, r) && r.revision + 1 < MAX_UINT64
    requires r.state in {Admitted, Running} && ValidClaim(job.replacement, r.spec)
    requires input.cancelled.None? && input.observer == Some(Dead)
    ensures
      var t3 := Step(Step(Step(s, w, input), w, input), w, input);
      var t := if r.state == Running then t3 else Step(t3, w, input);
      && w in t.workers && InsideCurrent(t, w) && (if r.state == Running then t.workers[w].pc.InReconcile? else t.workers[w].pc.InExecute?)
      && t.workers[w].pc.seen.spec == r.spec && t.workers[w].pc.seen.state == Running
      && t.workers[w].pc.seen.claim == Some(job.replacement)
  {
    hide Inv, Lookup, Step, ValidSpec, ValidClaim, ClaimIdentityMatches;
    ReadStep(s, w, job, r, input);
    var t1 := Step(s, w, input);
    ObservingStep(t1, w, job, r, input);
    var t2 := Step(t1, w, input);
    RecoveringStep(t2, w, job, r, input);
    if r.state == Admitted {
      RemarkingStep(Step(t2, w, input), w, job, Made(r.(claim := Some(job.replacement)), input.now), input);
    }
  }

  lemma ObservingStep(s: System, w: nat, job: Job, r: IntegrationTypes.Request, input: Input)
    requires At(s, w, job, Observing(r))
    ensures At(Step(s, w, input), w, job, Observed(r, input)) && Step(s, w, input).store == s.store
  {
    hide ValidPersisted, Fifo, Separate, WorkerOk, Lookup, Newer;
    StepKeepsInv(s, Advance(w, input));
  }

  /** Unless the worker is known to be dead, and for every other request, Reconcile leaves the queue alone and never reaches the adapter. */
  lemma ReconcileOther(s: System, w: nat, job: Job, r: IntegrationTypes.Request, input: Input)
    requires At(s, w, job, Start) && job.ReconcileJob? && Lookup(s.store, job.id) == Some(r)
    requires !(NamesClaims(job, r) && r.state in {Admitted, Running} && input.cancelled.None? && input.observer == Some(Dead))
    ensures
      var t := Step(Step(s, w, input), w, input);
      && t.store == s.store && w in t.workers && t.workers[w].pc.Returned?
      && (!t.workers[w].pc.failed <==>
            Terminal(r.state) && r.revision == job.rev
            && ClaimIdentityMatches(job.expected, r.spec) && ClaimIdentityMatches(job.replacement, r.spec))
      && (NamesClaims(job, r) && r.state in {Admitted, Running} ==>
            t.workers[w].pc.result.state == Running
            && t.workers[w].pc.result.exitCode == if input.observer.Some? && input.cancelled.Some? then 125 else 2)
  {
    hide Inv, Lookup, ValidSpec, ValidClaim, ClaimIdentityMatches, RequestOutcome;
    ReadStep(s, w, job, r, input);
    if ReconcileEntry(job, r).Observing? {
      ObservingStep(Step(s, w, input), w, job, r, input);
    }
  }

  /**
   * How a request reads as an outcome: a failure never with code 0, a
   * revalidation always with 4, what is still under way with 2 unless a code
   * was recorded.
   */
  lemma ReadsAs(r: IntegrationTypes.Request)
    requires !r.state.Other?
    ensures RequestOutcome(r) == Outcome(r.state, r.lastError,
      match r.state
      case Failed => if r.lastExitCode == 0 then 1 else r.lastExitCode
      case RevalidationRequired => 4
      case Succeeded => r.lastExitCode
      case Cancelled => r.lastExitCode
      case _ => if r.lastExitCode == 0 then 2 else r.lastExitCode)
  {
  }

  // What is stored

  predicate Hex(s: string, n: nat) {
    |s| == n && forall c :: c in s ==> '0' <= c <= '9' || 'a' <= c <= 'f'
  }

  /** A delivery of one owner: a branch below dev/ for a named task, with absolute paths, full object ids and nothing left blank. */
  predicate Sound(x: Spec) {
    && x.owner == x.generation.owner && "" !in [x.owner.actor, x.owner.host, x.owner.kind]
    && x.source == x.generation.source && x.generation.purpose == "delivery"
    && x.generation.workType in ["feat", "fix", "refactor", "docs", "test", "chore", "perf"]
    && |x.generation.branch| >= 4 && x.generation.branch[..4] == "dev/" && x.generation.startedAt > 0
    && (forall p :: p in [x.repositoryPath, x.commonDir, x.generation.worktree] ==> |p| > 0 && p[0] == '/')
    && (forall v :: v in [x.expectedTaskSha, x.expectedSourceSha] ==> Hex(v, 40) || Hex(v, 64))
    && "" !in [x.id, x.idempotencyKey, x.repositoryId, x.source, x.target, x.gateProfile, x.resource, x.generation.task]
  }

  lemma ValidSpecIsSound(x: Spec)
    ensures ValidSpec(x) <==> Sound(x)
  {
    ValidTypeIsListed(x.generation.workType);
    OidIsHex(x.expectedTaskSha);
    OidIsHex(x.expectedSourceSha);
    hide ValidType, ValidOid, Hex;
    BranchBelowDev(x.generation.branch);
    var owner := [x.owner.actor, x.owner.host, x.owner.kind];
    NoneBlank(owner);
    assert owner[0] == x.owner.actor && owner[1] == x.owner.host && owner[2] == x.owner.kind;
    var names := [x.id, x.idempotencyKey, x.repositoryId, x.source, x.target, x.gateProfile, x.resource, x.generation.task];
    NoneBlank(names);
  }

  lemma ValidTypeIsListed(v: string)
    ensures ValidType(v) <==> v in ["feat", "fix", "refactor", "docs", "test", "chore", "perf"]
  {
  }

  lemma OidIsHex(v: string)
    ensures ValidOid(v) <==> Hex(v, 40) || Hex(v, 64)
  {
    if |v| == 40 || |v| == 64 {
      forall i | 0 <= i < |v|
        ensures v[i] in "0123456789abcdef" <==> '0' <= v[i] <= '9' || 'a' <= v[i] <= 'f'
      {
        DigitIsListed(v[i]);
      }
      if Hex(v, |v|) {
        assert forall i :: 0 <= i < |v| ==> v[i] in v;
      }
      if ValidOid(v) {
        forall c | c in v
          ensures '0' <= c <= '9' || 'a' <= c <= 'f'
        {
          var i :| 0 <= i < |v| && v[i] == c;
        }
      }
    }
  }

  lemma DigitIsListed(c: char)
    ensures c in "0123456789abcdef" <==> '0' <= c <= '9' || 'a' <= c <= 'f'
  {
    var digits := "0123456789abcdef";
    if '0' <= c <= '9' {
      assert digits[c as int - '0' as int] == c;
    } else if 'a' <= c <= 'f' {
      assert digits[c as int - 'a' as int + 10] == c;
    }
  }

  lemma BranchBelowDev(b: string)
    ensures "dev/" <= b <==> |b| >= 4 && b[..4] == "dev/"
  {
  }

  lemma NoneBlank(s: seq<string>)
    ensures "" !in s <==> forall i :: 0 <= i < |s| ==> s[i] != ""
  {
  }

  /** On every run all stored requests are sound, and a claim is one of the owner of its request, for its generation, by a known process. */
  lemma StoredIsSound(states: seq<System>, events: seq<Event>, k: nat, r: IntegrationTypes.Request)
    requires FromEmpty(states, events) && k < |states| && r in states[k].store.requests
    ensures Sound(r.spec) && r.sequence > 0 && r.revision > 0 && r.createdAt > 0 && r.updatedAt > 0
    ensures r.state in {Queued, Admitted, RevalidationRequired, Running, Succeeded, Failed, Cancelled}
    ensures r.claim.Some? <==> r.state in {Admitted, Running, RevalidationRequired}
    ensures r.claim.Some? ==>
      var c := r.claim.value;
      c.owner == r.spec.owner && c.generation == r.spec.generation && c.pid > 0 && c.host != "" && c.claimedAt > 0
  {
    hide ValidSpec, Sound, FromEmpty, ValidRequest, ValidPersisted, Fifo, WorkerOk, Separate;
    ReachableInv(states, events, k);
    MemberIsValid(states[k].store, r);
    RequestIsSound(r);
  }

  lemma MemberIsValid(p: Persisted, r: IntegrationTypes.Request)
    requires ValidPersisted(p) && r in p.requests
    ensures ValidRequest(r)
  {
  }

  lemma RequestIsSound(r: IntegrationTypes.Request)
    requires ValidRequest(r)
    ensures Sound(r.spec) && r.sequence > 0 && r.revision > 0 && r.createdAt > 0 && r.updatedAt > 0
    ensures r.state in {Queued, Admitted, RevalidationRequired, Running, Succeeded, Failed, Cancelled}
    ensures r.claim.Some? <==> r.state in {Admitted, Running, RevalidationRequired}
    ensures r.claim.Some? ==>
      var c := r.claim.value;
      c.owner == r.spec.owner && c.generation == r.spec.generation && c.pid > 0 && c.host != "" && c.claimedAt > 0
  {
    hide ValidSpec, Sound;
    ValidSpecIsSound(r.spec);
    assert !r.state.Other?;
  }
}
