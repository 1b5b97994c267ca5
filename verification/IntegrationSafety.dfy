/**
 * What holds in every run of the integration queue: first in first out, one
 * adapter call per admission, fencing of superseded workers, and one worker
 * inside the adapter per resource.
 */
module IntegrationSafety {
  import opened Wrappers
  import opened IntegrationTypes
  import opened IntegrationQueue
  import opened IntegrationInvariants
  import opened IntegrationProtocol

  // The durable state as a map from ids to requests

  function Lookup(p: Persisted, id: string): Option<Request> {
    var i := Find(p.requests, id);
    if i < |p.requests| then Some(p.requests[i]) else None
  }

  lemma MembersAreFound(p: Persisted)
    requires ValidPersisted(p)
    ensures forall r :: r in p.requests <==> Lookup(p, r.spec.id) == Some(r)
  {
    forall r ensures r in p.requests <==> Lookup(p, r.spec.id) == Some(r) {
      if r in p.requests {
        FindsItself(p.requests, r);
      }
    }
  }

  /** A mutation publishes an edited copy of the request it names, or nothing. */
  lemma MutationShape(p: Persisted, id: string, rev: Uint64, c: Command, now: Reading) returns (i: nat)
    requires ValidPersisted(p)
    ensures i == Find(p.requests, id)
    ensures var reply := MutateStep(p, id, rev, c, now);
      if reply.result.Ok? then
        && i < |p.requests| && p.requests[i].revision == rev < MAX_UINT64
        && Apply(p.requests, p.requests[i], c).Ok?
        && reply == Reply(Replaced(p, i, reply.result.value), Ok(Stamped(Apply(p.requests, p.requests[i], c).value, now)))
      else reply.state == p
  {
    MutateKeepsValidity(p, id, rev, c, now);
    hide ValidPersisted, Apply;
    i := Find(p.requests, id);
  }

  lemma LookupReplaced(p: Persisted, i: nat, r: Request, id: string)
    requires i == Find(p.requests, r.spec.id) < |p.requests|
    ensures Lookup(Replaced(p, i, r), id) == if id == r.spec.id then Some(r) else Lookup(p, id)
  {
    SameIdsSameFind(p.requests, p.requests[i := r], id);
  }

  lemma SameIdsSameFind(a: seq<Request>, b: seq<Request>, id: string)
    requires |a| == |b| && forall j :: 0 <= j < |a| ==> a[j].spec.id == b[j].spec.id
    ensures Find(a, id) == Find(b, id)
  {
  }

  /** An edit keeps what identifies the request. */
  lemma ApplyKeepsIdentity(rs: seq<Request>, r: Request, c: Command, now: Instant)
    requires Apply(rs, r, c).Ok?
    ensures var after := Stamped(Apply(rs, r, c).value, now);
      after.spec == r.spec && after.sequence == r.sequence && after.revision == Bump(r.revision)
  {
  }

  /** A successful mutation edits one request at its current revision and touches no other. */
  lemma MutationEdits(p: Persisted, id: string, rev: Uint64, c: Command, now: Reading)
    requires ValidPersisted(p)
    ensures var reply := MutateStep(p, id, rev, c, now);
      && (forall other :: other != id ==> Lookup(reply.state, other) == Lookup(p, other))
      && (reply.result.Err? ==> reply.state == p)
      && (reply.result.Ok? ==>
            && Lookup(p, id).Some?
            && var before := Lookup(p, id).value;
            && before.revision == rev < MAX_UINT64
            && Apply(p.requests, before, c).Ok?
            && reply.result.value == Stamped(Apply(p.requests, before, c).value, now)
            && reply.result.value.spec == before.spec && reply.result.value.sequence == before.sequence
            && reply.result.value.revision == rev + 1
            && Lookup(reply.state, id) == Some(reply.result.value))
  {
    var i := MutationShape(p, id, rev, c, now);
    hide ValidPersisted, Apply, Find, MutateStep;
    var reply := MutateStep(p, id, rev, c, now);
    if reply.result.Ok? {
      ApplyKeepsIdentity(p.requests, p.requests[i], c, now);
      hide Stamped, Replaced;
      forall other ensures Lookup(reply.state, other) == if other == id then Some(reply.result.value) else Lookup(p, other) {
        LookupReplaced(p, i, reply.result.value, other);
      }
    }
  }

  /** A published request is new, queued and last in sequence. */
  lemma EnqueueAppends(p: Persisted, x: Spec, now: Reading)
    requires ValidPersisted(p)
    ensures var reply := EnqueueStep(p, x, now);
      && ValidPersisted(reply.state)
      && (reply.state != p ==>
            && reply.state.nextSequence == p.nextSequence + 1
            && Lookup(p, x.id).None?
            && Lookup(reply.state, x.id) == Some(NewRequest(p, x, now))
            && forall other :: other != x.id ==> Lookup(reply.state, other) == Lookup(p, other))
  {
    EnqueueKeepsValidity(p, x, now);
    var q := EnqueueStep(p, x, now).state;
    if q != p {
      forall other ensures other != x.id ==> Lookup(q, other) == Lookup(p, other) {
        FindInExtension(p.requests, NewRequest(p, x, now), other);
      }
      FindInExtension(p.requests, NewRequest(p, x, now), x.id);
    }
  }

  lemma FindInExtension(rs: seq<Request>, r: Request, id: string)
    ensures Find(rs + [r], id) == if Has(rs, id) then Find(rs, id) else if r.spec.id == id then |rs| else |rs| + 1
  {
    var all := rs + [r];
    assert all[|rs|] == r;
    assert forall j :: 0 <= j < |rs| ==> all[j] == rs[j];
  }

  // First in, first out

  /** Left the queue otherwise than by cancellation. */
  predicate Started(s: State) {
    s == Admitted || s == Running || s == RevalidationRequired || s == Succeeded || s == Failed
  }

  ghost predicate Fifo(p: Persisted) {
    forall a, b :: a in p.requests && b in p.requests && a.spec.resource == b.spec.resource
                   && Started(a.state) && b.state == Queued
      ==> a.sequence < b.sequence
  }

  /** A request is started only by an admission, and an admission never overtakes. */
  lemma StartNeedsTurn(rs: seq<Request>, r: Request, c: Command)
    requires Apply(rs, r, c).Ok? && ValidRequest(r) && r in rs
    ensures Apply(rs, r, c).value.state != Queued
    ensures Started(Apply(rs, r, c).value.state) && !Started(r.state) ==> r.state == Queued && !Overtakes(rs, r)
  {
  }

  /** No store method breaks the order, whatever command and arguments it is given. */
  lemma MutateKeepsFifo(p: Persisted, id: string, rev: Uint64, c: Command, now: Reading)
    requires ValidPersisted(p) && Fifo(p)
    ensures Fifo(MutateStep(p, id, rev, c, now).state)
  {
    hide Apply, MutateStep, Find, ValidRequest;
    var i := MutationShape(p, id, rev, c, now);
    var reply := MutateStep(p, id, rev, c, now);
    if reply.result.Ok? {
      var before, after, q := p.requests[i], reply.result.value, reply.state;
      assert before in p.requests && ValidRequest(before);
      StartNeedsTurn(p.requests, before, c);
      ApplyKeepsIdentity(p.requests, before, c, now);
      assert q.requests == p.requests[i := after] && after.state == Apply(p.requests, before, c).value.state;
      forall a, b | a in q.requests && b in q.requests && a.spec.resource == b.spec.resource
                    && Started(a.state) && b.state == Queued
        ensures a.sequence < b.sequence
      {
        assert b != after && b in p.requests;
        if a == after && !Started(before.state) {
          assert !Overtakes(p.requests, before);
          OthersHaveOtherIds(p.requests, before, b);
        }
      }
    }
  }

  lemma EnqueueKeepsFifo(p: Persisted, x: Spec, now: Reading)
    requires ValidPersisted(p) && Fifo(p)
    ensures Fifo(EnqueueStep(p, x, now).state)
  {
    hide ValidRequest, PairwiseCompatible, EnqueueStep, Lookup;
    EnqueueAppends(p, x, now);
    var q := EnqueueStep(p, x, now).state;
    if q != p {
      MembersAreFound(p);
      MembersAreFound(q);
      forall a, b | a in q.requests && b in q.requests && a.spec.resource == b.spec.resource
                    && Started(a.state) && b.state == Queued
        ensures a.sequence < b.sequence
      {
        assert a.spec.id != x.id && a in p.requests;
        assert b.spec.id != x.id ==> b in p.requests;
      }
    }
  }

  // Workers

  function SeenBy(pc: Pc): Option<Request> {
    if pc.Start? || pc.Rereading? || pc.Returned? || pc.Crashed? then None else Some(pc.seen)
  }

  /** A request seen earlier is still stored, no newer than the stored one, and equal at equal revisions. */
  ghost predicate Tracks(p: Persisted, r: Request) {
    && Lookup(p, r.spec.id).Some?
    && var now := Lookup(p, r.spec.id).value;
    && now.spec == r.spec && now.sequence == r.sequence
    && r.revision <= now.revision && (r.revision == now.revision ==> now == r)
  }

  /** What a worker knows at each program point about the request it last saw. */
  ghost predicate Knows(w: Worker) {
    match w.pc
    case Admitting(seen) => w.job.ExecuteJob? && seen.state == Queued && seen.revision == w.job.rev
    case Boundary(seen) => w.job.ExecuteJob? && seen.state == Admitted && seen.claim == Some(w.job.claim)
    case Observing(seen) => w.job.ReconcileJob? && Active(seen.state) && seen.claim == Some(w.job.expected) && seen.revision == w.job.rev
    case Recovering(seen) => w.job.ReconcileJob? && Active(seen.state) && seen.claim == Some(w.job.expected) && seen.revision == w.job.rev
    case Remarking(seen) => seen.state == Admitted && seen.claim == Some(w.job.Carried())
    case InExecute(seen) => seen.state == Running && seen.claim == Some(w.job.Carried())
    case InReconcile(seen) => seen.state == Running && seen.claim == Some(w.job.Carried())
    case Publishing(seen, out) => seen.state == Running && seen.claim == Some(w.job.Carried())
    case _ => true
  }

  ghost predicate WorkerOk(p: Persisted, w: Worker) {
    SeenBy(w.pc).Some? ==>
      && SeenBy(w.pc).value.spec.id == w.job.id
      && Tracks(p, SeenBy(w.pc).value)
      && Knows(w)
  }

  /** Holding the result of a successful move to Running or of a recovery. */
  predicate Engaged(pc: Pc) {
    pc.InExecute? || pc.InReconcile? || pc.Publishing?
  }

  /** Two engaged workers never hold the same revision of the same request. */
  ghost predicate Separate(s: System) {
    forall v, w :: v in s.workers && w in s.workers && v != w
                   && Engaged(s.workers[v].pc) && Engaged(s.workers[w].pc) && s.workers[v].job.id == s.workers[w].job.id
                   ==> s.workers[v].pc.seen.revision != s.workers[w].pc.seen.revision
  }

  ghost predicate Inv(s: System) {
    && ValidPersisted(s.store) && Fifo(s.store)
    && (forall w :: w in s.workers ==> WorkerOk(s.store, s.workers[w]))
    && Separate(s)
  }

  // One step

  /** A newer durable state: nothing disappears, and edits raise the revision. */
  ghost predicate Newer(p: Persisted, q: Persisted) {
    forall id :: Lookup(p, id).Some? ==>
      && Lookup(q, id).Some?
      && var before, after := Lookup(p, id).value, Lookup(q, id).value;
      && after.spec == before.spec && after.sequence == before.sequence
      && (after == before || after.revision == before.revision + 1)
  }

  lemma MutationIsNewer(p: Persisted, id: string, rev: Uint64, c: Command, now: Reading)
    requires ValidPersisted(p)
    ensures Newer(p, MutateStep(p, id, rev, c, now).state)
  {
    hide ValidPersisted, MutateStep, Lookup, Apply, Find;
    MutationEdits(p, id, rev, c, now);
  }

  lemma EnqueueIsNewer(p: Persisted, x: Spec, now: Reading)
    requires ValidPersisted(p)
    ensures Newer(p, EnqueueStep(p, x, now).state)
  {
    EnqueueAppends(p, x, now);
    hide ValidPersisted, EnqueueStep, Lookup;
  }

  lemma GetLooksUp(p: Persisted, id: string)
    requires ValidPersisted(p)
    ensures GetStep(p, id).result.Ok? <==> Lookup(p, id).Some?
    ensures Lookup(p, id).Some? ==> GetStep(p, id).result.value == Lookup(p, id).value && Lookup(p, id).value.spec.id == id
  {
  }

  /** What any store call does. */
  lemma CallKeeps(p: Persisted, call: Call, now: Reading)
    requires ValidPersisted(p) && Fifo(p)
    ensures var reply := Answer(p, call, now);
      && ValidPersisted(reply.state) && Fifo(reply.state) && Newer(p, reply.state)
      && (!call.MutateCall? ==> reply.state == p)
      && (reply.result.Ok? && !call.NoCall? ==>
            Lookup(reply.state, reply.result.value.spec.id) == Some(reply.result.value))
  {
    hide ValidPersisted, Fifo, Newer, Lookup, Find;
    match call
    case NoCall => NewerIsReflexive(p);
    case GetCall(id) =>
      NewerIsReflexive(p);
      GetLooksUp(p, id);
    case MutateCall(id, rev, c) =>
      MutationEdits(p, id, rev, c, now);
      GetLooksUp(p, id);
      MutateKeepsValidity(p, id, rev, c, now);
      MutateKeepsFifo(p, id, rev, c, now);
      MutationIsNewer(p, id, rev, c, now);
      hide MutateStep, Apply;
  }

  lemma NewerIsReflexive(p: Persisted)
    ensures Newer(p, p)
  {
  }

  /** What an answer tells about the durable state it leaves behind. */
  ghost predicate Answered(p: Persisted, call: Call, reply: Reply) {
    match call
    case NoCall => reply.state == p
    case GetCall(id) =>
      && reply.state == p
      && (reply.result.Ok? ==> Lookup(p, id) == Some(reply.result.value) && reply.result.value.spec.id == id)
    case MutateCall(id, rev, c) =>
      reply.result.Ok? ==>
        && Lookup(p, id).Some?
        && var before, after := Lookup(p, id).value, reply.result.value;
        && before.spec.id == id == after.spec.id
        && before.revision == rev && after.revision == rev + 1
        && Lookup(reply.state, id) == Some(after)
        && Apply(p.requests, before, c).Ok?
        && var edited := Apply(p.requests, before, c).value;
        && after.state == edited.state && after.claim == edited.claim
        && after.lastError == edited.lastError && after.lastExitCode == edited.lastExitCode
  }

  lemma AnswersHold(p: Persisted, call: Call, now: Reading)
    requires ValidPersisted(p)
    ensures Answered(p, call, Answer(p, call, now))
  {
    match call
    case NoCall =>
    case GetCall(id) => GetLooksUp(p, id);
    case MutateCall(id, rev, c) =>
      MutationEdits(p, id, rev, c, now);
      GetLooksUp(p, id);
  }

  lemma AnswerKeepsTracking(p: Persisted, w: Worker, input: Input, reply: Reply)
    requires WorkerOk(p, w) && Newer(p, reply.state) && Answered(p, NextCall(w, input), reply)
    ensures var pc := Continue(w, input, reply.result);
      SeenBy(pc).Some? ==> SeenBy(pc).value.spec.id == w.job.id && Tracks(reply.state, SeenBy(pc).value)
  {
    hide ValidClaim, Busy, Overtakes, Lookup, NormalizeOutcome, PublishedOutcome, RequestOutcome, Apply;
    hide ClaimIdentityMatches, Active, Terminal, ValidExecutionOutcome;
  }

  lemma AnswerKeepsKnowing(p: Persisted, w: Worker, input: Input, reply: Reply)
    requires WorkerOk(p, w) && Answered(p, NextCall(w, input), reply)
    ensures Knows(w.(pc := Continue(w, input, reply.result)))
  {
    hide ValidClaim, Busy, Overtakes, Lookup, NormalizeOutcome, PublishedOutcome, RequestOutcome, Newer, Tracks;
    hide ClaimIdentityMatches, ValidExecutionOutcome, AllowedTransition;
  }

  /** A worker's own step leaves it with a true picture of the request. */
  lemma AnswerKeepsWorkerOk(p: Persisted, w: Worker, input: Input, reply: Reply)
    requires WorkerOk(p, w) && Newer(p, reply.state) && Answered(p, NextCall(w, input), reply)
    ensures WorkerOk(reply.state, w.(pc := Continue(w, input, reply.result)))
  {
    AnswerKeepsTracking(p, w, input, reply);
    AnswerKeepsKnowing(p, w, input, reply);
    hide Newer, Tracks, Knows, Answered, NextCall, Continue, Lookup;
  }

  /** Becoming engaged takes a revision that nobody held before. */
  lemma EngagingIsNew(p: Persisted, w: Worker, input: Input, reply: Reply)
    requires WorkerOk(p, w) && Answered(p, NextCall(w, input), reply)
    ensures var pc := Continue(w, input, reply.result);
      Engaged(pc) ==>
        if Engaged(w.pc) then pc.seen == w.pc.seen
        else
          && Lookup(p, w.job.id).Some?
          && pc.seen.revision == Lookup(p, w.job.id).value.revision + 1
          && Lookup(reply.state, w.job.id) == Some(pc.seen)
  {
    hide ValidClaim, Busy, Overtakes, Lookup, NormalizeOutcome, PublishedOutcome, RequestOutcome, Tracks;
  }

  lemma AdvanceKeepsWorkerOk(s: System, w: nat, input: Input)
    requires Inv(s) && w in s.workers
    ensures var (store, pc) := Stepped(s, w, input);
      && WorkerOk(store, s.workers[w].(pc := pc)) && Newer(s.store, store)
      && (Engaged(pc) ==>
            if Engaged(s.workers[w].pc) then pc.seen == s.workers[w].pc.seen
            else
              && Lookup(s.store, s.workers[w].job.id).Some?
              && pc.seen.revision == Lookup(s.store, s.workers[w].job.id).value.revision + 1
              && Lookup(store, s.workers[w].job.id) == Some(pc.seen))
  {
    var call := NextCall(s.workers[w], input);
    CallKeeps(s.store, call, input.now);
    AnswersHold(s.store, call, input.now);
    var reply := Answer(s.store, call, input.now);
    hide ValidPersisted, Fifo, Answer, Answered, NextCall, Continue, Lookup, WorkerOk, Separate, Newer;
    AnswerKeepsWorkerOk(s.store, s.workers[w], input, reply);
    EngagingIsNew(s.store, s.workers[w], input, reply);
  }

  lemma OthersKeepWorkerOk(p: Persisted, q: Persisted, w: Worker)
    requires Newer(p, q) && WorkerOk(p, w)
    ensures WorkerOk(q, w)
  {
    hide Lookup, Knows;
  }

  /** No engaged worker holds a revision later than the stored one. */
  lemma EngagedIsNotAhead(p: Persisted, w: Worker)
    requires WorkerOk(p, w) && Engaged(w.pc) && Lookup(p, w.job.id).Some?
    ensures w.pc.seen.revision <= Lookup(p, w.job.id).value.revision
  {
  }

  lemma StepKeepsSeparate(s: System, e: Event)
    requires Inv(s) && Enabled(s, e)
    ensures Separate(Next(s, e))
  {
    hide Stepped, ValidPersisted, Fifo, Lookup, Newer, Answer, EnqueueStep, MutateStep, Tracks, Knows;
    var t := Next(s, e);
    if e.Advance? {
      AdvanceKeepsWorkerOk(s, e.w, e.input);
      var (store, pc) := Stepped(s, e.w, e.input);
      forall v | v in s.workers && v != e.w && Engaged(s.workers[v].pc) && Engaged(pc)
                 && s.workers[v].job.id == s.workers[e.w].job.id
        ensures s.workers[v].pc.seen.revision != pc.seen.revision
      {
        if !Engaged(s.workers[e.w].pc) {
          EngagedIsNotAhead(s.store, s.workers[v]);
        }
      }
    }
  }

  lemma StepKeepsInv(s: System, e: Event)
    requires Inv(s) && Enabled(s, e)
    ensures Inv(Next(s, e)) && Newer(s.store, Next(s, e).store)
  {
    var t := Next(s, e);
    StoreStep(s, e);
    StepKeepsSeparate(s, e);
    forall w | w in t.workers ensures WorkerOk(t.store, t.workers[w]) {
      if w in s.workers && !(e.Advance? && e.w == w) && !(e.Crash? && e.w == w) {
        OthersKeepWorkerOk(s.store, t.store, s.workers[w]);
      } else if e.Advance? {
        AdvanceKeepsWorkerOk(s, w, e.input);
      }
    }
  }

  lemma StoreStep(s: System, e: Event)
    requires ValidPersisted(s.store) && Fifo(s.store) && Enabled(s, e)
    ensures var t := Next(s, e); ValidPersisted(t.store) && Fifo(t.store) && Newer(s.store, t.store)
  {
    match e
    case Request(spec, now) =>
      EnqueueKeepsValidity(s.store, spec, now);
      EnqueueKeepsFifo(s.store, spec, now);
      EnqueueIsNewer(s.store, spec, now);
    case CancelBy(id, caller, rev, now) => CallKeeps(s.store, MutateCall(id, rev, Cancel(caller)), now);
    case ResumeBy(id, caller, rev, expected, now) =>
      CallKeeps(s.store, MutateCall(id, rev, ResumeRevalidation(caller, expected)), now);
    case Advance(w, input) => CallKeeps(s.store, NextCall(s.workers[w], input), input.now);
    case _ =>
  }
}
