/**
 * What every store method keeps, and how the queue's view agrees with what its
 * methods allow.
 */
module IntegrationInvariants {
  import opened Wrappers
  import opened IntegrationTypes
  import opened IntegrationQueue

  // Publication

  /** The state Enqueue builds is valid again, exactly when the sequence counter does not wrap. */
  lemma EnqueuePublishes(p: Persisted, x: Spec, now: Reading)
    requires ValidPersisted(p) && ValidSpec(x)
    requires Find(p.requests, x.id) == |p.requests| && FindKey(p.requests, x.idempotencyKey) == |p.requests|
    ensures ValidPersisted(Appended(p, x, now)) <==> p.nextSequence < MAX_UINT64
  {
    var r, q := NewRequest(p, x, now), Appended(p, x, now);
    assert q.requests[|p.requests|] == r && r in q.requests;
    if p.nextSequence < MAX_UINT64 {
      forall i, j | 0 <= i < j < |q.requests| ensures Compatible(q.requests[i], q.requests[j]) {
        assert p.requests[i] in p.requests;
        assert j < |p.requests| ==> Compatible(p.requests[i], p.requests[j]);
      }
    }
  }

  /** The state a mutation builds is valid again, exactly when the revision counter does not wrap. */
  lemma MutationPublishes(p: Persisted, i: nat, c: Command, now: Reading)
    requires ValidPersisted(p) && i < |p.requests| && Apply(p.requests, p.requests[i], c).Ok?
    ensures var r := Stamped(Apply(p.requests, p.requests[i], c).value, now);
            ValidPersisted(Replaced(p, i, r)) <==> p.requests[i].revision < MAX_UINT64
  {
    hide Apply, Stamped, ValidRequest;
    var before := p.requests[i];
    var r := Stamped(Apply(p.requests, before, c).value, now);
    assert before in p.requests;
    EditStaysValid(p.requests, before, c, now);
    EditStaysCompatible(p, i, r);
    var q := Replaced(p, i, r);
    assert q.requests[i] == r && r in q.requests;
  }

  /** What a store method makes of a request: valid, unless its revision wraps, and active only where it may be. */
  lemma EditStaysValid(rs: seq<Request>, before: Request, c: Command, now: Reading)
    requires ValidRequest(before) && Apply(rs, before, c).Ok?
    ensures var r := Stamped(Apply(rs, before, c).value, now);
      && r.spec == before.spec && r.sequence == before.sequence
      && (ValidRequest(r) <==> before.revision < MAX_UINT64)
      && (Active(r.state) ==> Active(before.state) || !Busy(rs, before))
  {
    hide ValidSpec, ValidClaim, Busy, Overtakes;
  }

  lemma EditStaysCompatible(p: Persisted, i: nat, r: Request)
    requires ValidPersisted(p) && i < |p.requests| && r.spec == p.requests[i].spec && r.sequence == p.requests[i].sequence
    requires Active(r.state) ==> Active(p.requests[i].state) || !Busy(p.requests, p.requests[i])
    ensures PairwiseCompatible(Replaced(p, i, r).requests)
  {
    hide ValidRequest;
    var before, q := p.requests[i], Replaced(p, i, r);
    forall a, b | 0 <= a < b < |q.requests| ensures Compatible(q.requests[a], q.requests[b]) {
      assert Compatible(p.requests[a], p.requests[b]);
      assert p.requests[a] in p.requests && p.requests[b] in p.requests;
    }
  }

  /**
   * Started from a valid state, no store method leaves an invalid one, and the
   * refusal inside write fires for wrapping counters and for nothing else.
   */
  lemma EnqueueKeepsValidity(p: Persisted, x: Spec, now: Reading)
    requires ValidPersisted(p)
    ensures ValidPersisted(EnqueueStep(p, x, now).state)
    ensures EnqueueStep(p, x, now).result == Err(PublicationRefused) <==>
            && ValidSpec(x) && Find(p.requests, x.id) == |p.requests|
            && FindKey(p.requests, x.idempotencyKey) == |p.requests| && p.nextSequence == MAX_UINT64
  {
    if ValidSpec(x) && Find(p.requests, x.id) == |p.requests| && FindKey(p.requests, x.idempotencyKey) == |p.requests| {
      EnqueuePublishes(p, x, now);
    }
  }

  lemma ApplyDoesNotPublish(rs: seq<Request>, c: Command)
    ensures forall r :: Apply(rs, r, c) != Err(PublicationRefused)
  {
    hide ValidClaim, Busy, Overtakes;
  }

  lemma MutateKeepsValidity(p: Persisted, id: string, rev: Uint64, c: Command, now: Reading)
    requires ValidPersisted(p)
    ensures ValidPersisted(MutateStep(p, id, rev, c, now).state)
    ensures MutateStep(p, id, rev, c, now).result == Err(PublicationRefused) <==>
            var i := Find(p.requests, id);
            && i < |p.requests| && p.requests[i].revision == rev == MAX_UINT64
            && Apply(p.requests, p.requests[i], c).Ok?
  {
    hide ValidPersisted, Apply, Stamped, Replaced;
    ApplyDoesNotPublish(p.requests, c);
    var i := Find(p.requests, id);
    if i < |p.requests| && Apply(p.requests, p.requests[i], c).Ok? {
      MutationPublishes(p, i, c, now);
    }
  }

  // Views

  /** The requests that wait for a resource. */
  ghost function Waiting(rs: seq<Request>, resource: string): set<Request> {
    set r | r in rs && r.state == Queued && r.spec.resource == resource
  }

  ghost function Below(q: set<Request>, sequence: int): set<Request> {
    set r | r in q && r.sequence < sequence
  }

  lemma WaitingSnoc(init: seq<Request>, x: Request, resource: string, sequence: int)
    ensures Below(Waiting(init + [x], resource), sequence) ==
            Below(Waiting(init, resource), sequence) +
            if x.spec.resource == resource && x.state == Queued && x.sequence < sequence then {x} else {}
  {
  }

  lemma NobodyWaits(resource: string, sequence: int)
    ensures Below(Waiting([], resource), sequence) == {}
  {
  }

  lemma WaitingAreStored(rs: seq<Request>, resource: string, sequence: int)
    ensures forall r :: r in Below(Waiting(rs, resource), sequence) ==> r in rs
  {
  }

  lemma LastIsNew(rs: seq<Request>)
    requires PairwiseCompatible(rs) && rs != []
    ensures PairwiseCompatible(rs[..|rs| - 1]) && rs[|rs| - 1] !in rs[..|rs| - 1]
  {
    var n := |rs| - 1;
    forall j | 0 <= j < n ensures rs[j] != rs[n] {
      assert Compatible(rs[j], rs[n]);
    }
    assert forall i, j :: 0 <= i < j < n ==> Compatible(rs[i], rs[j]);
  }

  /** The count made by the view is the number of waiting requests with a smaller sequence. */
  lemma {:induction false} EarlierCounts(rs: seq<Request>, r: Request)
    requires PairwiseCompatible(rs)
    ensures EarlierQueued(rs, r) == |Below(Waiting(rs, r.spec.resource), r.sequence)|
  {
    hide PairwiseCompatible, Waiting, Below;
    if rs == [] {
      assert Below(Waiting([], r.spec.resource), r.sequence) == {} by { NobodyWaits(r.spec.resource, r.sequence); }
    } else {
      var init, x := rs[..|rs| - 1], rs[|rs| - 1];
      LastIsNew(rs);
      EarlierCounts(init, r);
      WaitingSnoc(init, x, r.spec.resource, r.sequence);
      WaitingAreStored(init, r.spec.resource, r.sequence);
      assert rs == init + [x];
    }
  }

  ghost predicate DistinctSequences(q: set<Request>) {
    forall a, b :: a in q && b in q && a != b ==> a.sequence != b.sequence
  }

  lemma WaitingDistinct(rs: seq<Request>, resource: string)
    requires PairwiseCompatible(rs)
    ensures DistinctSequences(Waiting(rs, resource))
  {
    var q := Waiting(rs, resource);
    forall a, b | a in q && b in q && a != b ensures a.sequence != b.sequence {
      OthersHaveOtherIds(rs, a, b);
    }
  }

  lemma Latest(q: set<Request>) returns (m: Request)
    requires q != {} && DistinctSequences(q)
    ensures m in q && Below(q, m.sequence) == q - {m}
  {
    m :| m in q;
    var seen := {m};
    while seen != q
      invariant seen <= q && m in seen && forall r :: r in seen ==> r.sequence <= m.sequence
      decreases |q - seen|
    {
      var x :| x in q - seen;
      assert q - (seen + {x}) < q - seen;
      SmallerSet(q - (seen + {x}), q - seen);
      seen := seen + {x};
      if x.sequence > m.sequence {
        m := x;
      }
    }
  }

  lemma {:induction false} SmallerSet<T>(a: set<T>, b: set<T>)
    requires a < b
    ensures |a| < |b|
  {
    if a == {} {
      var x :| x in b;
    } else {
      var y :| y in a;
      SmallerSet(a - {y}, b - {y});
    }
  }

  /** Ranks by sequence take every value below the size of the set. */
  lemma {:induction false} RankOnto(q: set<Request>, n: nat) returns (r: Request)
    requires DistinctSequences(q) && n < |q|
    ensures r in q && |Below(q, r.sequence)| == n
    decreases |q|
  {
    var m := Latest(q);
    if n == |q| - 1 {
      r := m;
    } else {
      r := RankOnto(q - {m}, n);
      assert r in Below(q, m.sequence);
      assert Below(q - {m}, r.sequence) == Below(q, r.sequence);
    }
  }

  /** What the view of a waiting request says, as a count. */
  lemma PositionIsRank(p: Persisted, r: Request)
    requires ValidPersisted(p) && r in p.requests && r.state == Queued
    ensures var q := Waiting(p.requests, r.spec.resource);
      MakeView(p, r).position == Some(|Below(q, r.sequence)| + 1) && |Below(q, r.sequence)| < |q|
  {
    var q := Waiting(p.requests, r.spec.resource);
    EarlierCounts(p.requests, r);
    assert r in q && r !in Below(q, r.sequence);
    SmallerSet(Below(q, r.sequence), q);
  }

  /** Positions of one resource follow the sequence order. */
  lemma PositionsAreOrdered(p: Persisted, a: Request, b: Request)
    requires ValidPersisted(p) && a.spec.resource == b.spec.resource
    requires a in p.requests && b in p.requests && a.state == Queued && b.state == Queued
    requires a.sequence < b.sequence
    ensures MakeView(p, a).position.value < MakeView(p, b).position.value
  {
    var q := Waiting(p.requests, a.spec.resource);
    PositionIsRank(p, a);
    PositionIsRank(p, b);
    assert a in Below(q, b.sequence) && a !in Below(q, a.sequence);
    SmallerSet(Below(q, a.sequence), Below(q, b.sequence));
  }

  /**
   * The waiting requests of a resource get the positions 1..k: each is in that
   * range, each position is taken, and by one request only.
   */
  lemma PositionsAreExactly(p: Persisted, resource: string)
    requires ValidPersisted(p)
    ensures var q := Waiting(p.requests, resource);
      && (forall r :: r in q ==> MakeView(p, r).position.Some? && 1 <= MakeView(p, r).position.value <= |q|)
      && (forall n :: 1 <= n <= |q| ==> exists r :: r in q && MakeView(p, r).position == Some(n))
      && (forall a, b :: a in q && b in q && a != b ==> MakeView(p, a).position != MakeView(p, b).position)
  {
    hide MakeView;
    var q := Waiting(p.requests, resource);
    WaitingDistinct(p.requests, resource);
    forall r | r in q ensures MakeView(p, r).position.Some? && 1 <= MakeView(p, r).position.value <= |q| {
      PositionIsRank(p, r);
    }
    forall n | 1 <= n <= |q| ensures exists r :: r in q && MakeView(p, r).position == Some(n) {
      var r := RankOnto(q, n - 1);
      PositionIsRank(p, r);
    }
    forall a, b | a in q && b in q && a != b ensures MakeView(p, a).position != MakeView(p, b).position {
      if a.sequence < b.sequence {
        PositionsAreOrdered(p, a, b);
      } else {
        PositionsAreOrdered(p, b, a);
      }
    }
  }

  lemma OthersHaveOtherIds(rs: seq<Request>, a: Request, b: Request)
    requires PairwiseCompatible(rs) && a in rs && b in rs && a != b
    ensures a.spec.id != b.spec.id && a.sequence != b.sequence
  {
    var i, j := IndexOf(rs, a), IndexOf(rs, b);
    assert i < j ==> Compatible(rs[i], rs[j]);
    assert j < i ==> Compatible(rs[j], rs[i]);
  }

  lemma EarlierMeansOvertakes(p: Persisted, r: Request)
    requires ValidPersisted(p) && r in p.requests
    ensures EarlierQueued(p.requests, r) > 0 <==> Overtakes(p.requests, r)
  {
    EarlierCounts(p.requests, r);
    var below := Below(Waiting(p.requests, r.spec.resource), r.sequence);
    if below != {} {
      var x :| x in below;
      OthersHaveOtherIds(p.requests, x, r);
    } else {
      forall x | x in p.requests && x.spec.resource == r.spec.resource && x.state == Queued
        ensures x.sequence >= r.sequence
      {
        assert x !in below;
      }
    }
  }

  lemma FindsItself(rs: seq<Request>, r: Request)
    requires PairwiseCompatible(rs) && r in rs
    ensures Find(rs, r.spec.id) < |rs| && rs[Find(rs, r.spec.id)] == r
  {
    var i, j := Find(rs, r.spec.id), IndexOf(rs, r);
    assert i < j ==> Compatible(rs[i], rs[j]);
  }

  ghost function IndexOf(rs: seq<Request>, r: Request): (i: nat)
    requires r in rs
    ensures i < |rs| && rs[i] == r
  {
    var i :| 0 <= i < |rs| && rs[i] == r; i
  }

  /** A mutation of a stored request at its revision succeeds exactly when its command applies and no counter wraps. */
  lemma StoredIsMutated(p: Persisted, r: Request, c: Command, now: Reading)
    requires ValidPersisted(p) && r in p.requests
    ensures MutateStep(p, r.spec.id, r.revision, c, now).result.Ok? <==> Apply(p.requests, r, c).Ok? && r.revision < MAX_UINT64
  {
    FindsItself(p.requests, r);
    hide ValidPersisted, Apply, Stamped, Replaced;
    if Apply(p.requests, r, c).Ok? {
      MutationPublishes(p, Find(p.requests, r.spec.id), c, now);
    }
  }

  /** A queued request shows no wait reason exactly when admitting it would succeed. */
  lemma NoWaitMeansAdmissible(p: Persisted, r: Request, claim: Claim, now: Reading)
    requires ValidPersisted(p) && r in p.requests && r.state == Queued && ValidClaim(claim, r.spec)
    ensures MutateStep(p, r.spec.id, r.revision, Admit(claim), now).result.Ok? <==>
            MakeView(p, r).wait == NoWait && r.revision < MAX_UINT64
  {
    hide MutateStep, ValidClaim, Busy, Overtakes;
    EarlierMeansOvertakes(p, r);
    StoredIsMutated(p, r, Admit(claim), now);
  }

  /** A request to be revalidated shows none exactly when its owner could resume it. */
  lemma NoWaitMeansResumable(p: Persisted, r: Request, now: Reading)
    requires ValidPersisted(p) && r in p.requests && r.state == RevalidationRequired
    ensures r.claim.Some?
    ensures MutateStep(p, r.spec.id, r.revision, ResumeRevalidation(r.spec.owner, r.claim.value), now).result.Ok? <==>
            MakeView(p, r).wait == NoWait && r.revision < MAX_UINT64
  {
    hide MutateStep, ValidSpec, Busy;
    assert ValidRequest(r);
    StoredIsMutated(p, r, ResumeRevalidation(r.spec.owner, r.claim.value), now);
  }
}
