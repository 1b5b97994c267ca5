/**
 * The store as the mutable object it is (internal/integrationqueue/store.go):
 * every method reads the durable state, works on its own copy and publishes
 * the copy at the end. A method runs under the queue lock, so it is one atomic
 * step; each is proved equal to a step of IntegrationQueue.
 */
module IntegrationStore {
  import opened Wrappers
  import opened IntegrationTypes
  import opened IntegrationQueue

  // What the four maps of the check hold after a prefix of the requests

  ghost function Ids(rs: seq<Request>): set<string> {
    if rs == [] then {} else Ids(rs[..|rs| - 1]) + {rs[|rs| - 1].spec.id}
  }

  ghost function Keys(rs: seq<Request>): set<string> {
    if rs == [] then {} else Keys(rs[..|rs| - 1]) + {rs[|rs| - 1].spec.idempotencyKey}
  }

  ghost function Sequences(rs: seq<Request>): set<int> {
    if rs == [] then {} else Sequences(rs[..|rs| - 1]) + {rs[|rs| - 1].sequence}
  }

  ghost function ActiveResources(rs: seq<Request>): set<string> {
    if rs == [] then {}
    else
      var r := rs[|rs| - 1];
      ActiveResources(rs[..|rs| - 1]) + if Active(r.state) then {r.spec.resource} else {}
  }

  /** The maps know exactly what collides with a request already seen. */
  lemma {:induction false} MapsKnow(rs: seq<Request>, r: Request)
    ensures (forall x :: x in rs ==> Compatible(x, r)) <==>
      && r.spec.id !in Ids(rs) && r.spec.idempotencyKey !in Keys(rs) && r.sequence !in Sequences(rs)
      && !(Active(r.state) && r.spec.resource in ActiveResources(rs))
  {
    if rs != [] {
      var init, last := rs[..|rs| - 1], rs[|rs| - 1];
      MapsKnow(init, r);
      assert rs == init + [last];
      assert (forall x :: x in rs ==> Compatible(x, r)) <==> (forall x :: x in init ==> Compatible(x, r)) && Compatible(last, r);
    }
  }

  /** One more request is compatible exactly when none of the maps knows it. */
  lemma CompatibleExtension(rs: seq<Request>, r: Request)
    requires PairwiseCompatible(rs)
    ensures PairwiseCompatible(rs + [r]) <==>
      && r.spec.id !in Ids(rs) && r.spec.idempotencyKey !in Keys(rs) && r.sequence !in Sequences(rs)
      && !(Active(r.state) && r.spec.resource in ActiveResources(rs))
  {
    var all := rs + [r];
    MapsKnow(rs, r);
    assert forall i, j :: 0 <= i < j < |rs| ==> all[i] == rs[i] && all[j] == rs[j] && Compatible(rs[i], rs[j]);
    if PairwiseCompatible(all) {
      forall x | x in rs ensures Compatible(x, r) {
        var j :| 0 <= j < |rs| && rs[j] == x;
        assert Compatible(all[j], all[|rs|]);
      }
    }
  }

  /** The four maps after scanning rs. */
  ghost predicate Maps(rs: seq<Request>, seen: set<string>, keys: set<string>, sequences: set<int>, activeResources: set<string>) {
    && PairwiseCompatible(rs)
    && seen == Ids(rs) && keys == Keys(rs) && sequences == Sequences(rs) && activeResources == ActiveResources(rs)
  }

  /** The running maximum after scanning rs. */
  ghost predicate Bounded(rs: seq<Request>, max: int) {
    && (forall r :: r in rs ==> ValidRequest(r) && r.sequence <= max)
    && (max == 0 || exists r :: r in rs && r.sequence == max)
  }

  /** One round of the scan: the maps decide compatibility, and take in a compatible request. */
  lemma MapsStep(rs: seq<Request>, r: Request, seen: set<string>, keys: set<string>, sequences: set<int>, activeResources: set<string>)
    requires Maps(rs, seen, keys, sequences, activeResources)
    ensures PairwiseCompatible(rs + [r]) <==>
      && r.spec.id !in seen && r.spec.idempotencyKey !in keys && r.sequence !in sequences
      && !(Active(r.state) && r.spec.resource in activeResources)
    ensures PairwiseCompatible(rs + [r]) ==>
      Maps(rs + [r], seen + {r.spec.id}, keys + {r.spec.idempotencyKey}, sequences + {r.sequence},
           if Active(r.state) then activeResources + {r.spec.resource} else activeResources)
  {
    CompatibleExtension(rs, r);
    var all := rs + [r];
    assert all[..|all| - 1] == rs && all[|all| - 1] == r;
    hide PairwiseCompatible;
  }

  lemma EmptyScan()
    ensures Maps([], {}, {}, {}, {}) && Bounded([], 0)
  {
  }

  lemma FullScan(p: Persisted, max: int)
    requires PairwiseCompatible(p.requests) && Bounded(p.requests, max)
    ensures ValidPersisted(p) <==> max <= p.nextSequence
  {
  }

  lemma BoundedStep(rs: seq<Request>, r: Request, max: int)
    requires Bounded(rs, max) && ValidRequest(r)
    ensures Bounded(rs + [r], if r.sequence > max then r.sequence else max)
  {
    var all := rs + [r];
    assert all[|rs|] == r;
    assert forall x :: x in all <==> x in rs || x == r;
  }

  /** The check made on every read and before every write. */
  method ValidatePersisted(p: Persisted) returns (ok: bool)
    ensures ok <==> ValidPersisted(p)
  {
    var max := 0;
    var seen: set<string>, keys: set<string>, sequences: set<int>, activeResources: set<string> := {}, {}, {}, {};
    EmptyScan();
    hide ValidPersisted, ValidRequest, PairwiseCompatible, Bounded, Maps;
    for i := 0 to |p.requests|
      invariant Maps(p.requests[..i], seen, keys, sequences, activeResources)
      invariant Bounded(p.requests[..i], max)
    {
      var r := p.requests[i];
      MapsStep(p.requests[..i], r, seen, keys, sequences, activeResources);
      assert p.requests[..i + 1] == p.requests[..i] + [r];
      if !ValidRequest(r) || r.spec.id in seen || r.spec.idempotencyKey in keys || r.sequence in sequences {
        InvalidPrefix(p, i);
        return false;
      }
      if Active(r.state) {
        if r.spec.resource in activeResources {
          InvalidPrefix(p, i);
          return false;
        }
        activeResources := activeResources + {r.spec.resource};
      }
      seen := seen + {r.spec.id};
      keys := keys + {r.spec.idempotencyKey};
      sequences := sequences + {r.sequence};
      BoundedStep(p.requests[..i], r, max);
      if r.sequence > max {
        max := r.sequence;
      }
    }
    assert p.requests[..|p.requests|] == p.requests;
    ScannedIsCompatible(p.requests, seen, keys, sequences, activeResources);
    FullScan(p, max);
    return max <= p.nextSequence;
  }

  lemma ScannedIsCompatible(rs: seq<Request>, seen: set<string>, keys: set<string>, sequences: set<int>, activeResources: set<string>)
    requires Maps(rs, seen, keys, sequences, activeResources)
    ensures PairwiseCompatible(rs)
  {
  }

  /** A bad prefix makes the whole state bad. */
  lemma InvalidPrefix(p: Persisted, i: nat)
    requires i < |p.requests|
    requires !ValidRequest(p.requests[i]) || !PairwiseCompatible(p.requests[..i + 1])
    ensures !ValidPersisted(p)
  {
    assert p.requests[i] in p.requests;
    if PairwiseCompatible(p.requests) {
      assert forall j, k :: 0 <= j < k < i + 1 ==> Compatible(p.requests[j], p.requests[k]);
    }
  }

  /** Identities are distinct, so the last match that Enqueue keeps is the first. */
  lemma UniquePositions(rs: seq<Request>, x: Spec, idr: nat, keyr: nat)
    requires PairwiseCompatible(rs) && idr <= |rs| && keyr <= |rs|
    requires idr < |rs| ==> rs[idr].spec.id == x.id
    requires keyr < |rs| ==> rs[keyr].spec.idempotencyKey == x.idempotencyKey
    requires forall j :: 0 <= j < |rs| && j > idr ==> rs[j].spec.id != x.id
    requires forall j :: 0 <= j < |rs| && j > keyr ==> rs[j].spec.idempotencyKey != x.idempotencyKey
    requires idr == |rs| ==> !Has(rs, x.id)
    requires keyr == |rs| ==> forall j :: 0 <= j < |rs| ==> rs[j].spec.idempotencyKey != x.idempotencyKey
    ensures idr == Find(rs, x.id) && keyr == FindKey(rs, x.idempotencyKey)
    ensures idr < |rs| && keyr < |rs| ==> (idr == keyr <==> rs[idr].spec.id == rs[keyr].spec.id)
  {
    var i, k := Find(rs, x.id), FindKey(rs, x.idempotencyKey);
    assert i < idr < |rs| ==> Compatible(rs[i], rs[idr]);
    assert k < keyr < |rs| ==> Compatible(rs[k], rs[keyr]);
    if idr < |rs| && keyr < |rs| && idr != keyr {
      assert idr < keyr ==> Compatible(rs[idr], rs[keyr]);
      assert keyr < idr ==> Compatible(rs[keyr], rs[idr]);
    }
  }

  class Store {
    var durable: Persisted

    constructor ()
      ensures durable == Persisted(0, []) && ValidPersisted(durable)
    {
      durable := Persisted(0, []);
    }

    /** Refuses to publish an invalid state. */
    method Write(p: Persisted) returns (ok: bool)
      modifies this
      ensures ok <==> ValidPersisted(p)
      ensures durable == if ok then p else old(durable)
    {
      ok := ValidatePersisted(p);
      if ok {
        durable := p;
      }
    }

    method Enqueue(x: Spec, now: Reading) returns (result: Result<Request, Refusal>)
      modifies this
      ensures Reply(durable, result) == EnqueueStep(old(durable), x, now)
    {
      if !ValidSpec(x) {
        return Err(InvalidSpec);
      }
      var p := durable;
      var readable := ValidatePersisted(p);
      if !readable {
        return Err(CorruptState);
      }
      var n := |p.requests|;
      var idr: nat, keyr: nat := n, n;
      for i := 0 to n
        invariant idr == n || idr < i
        invariant keyr == n || keyr < i
        invariant idr < n ==> p.requests[idr].spec.id == x.id
        invariant keyr < n ==> p.requests[keyr].spec.idempotencyKey == x.idempotencyKey
        invariant forall j :: 0 <= j < i && (idr == n || j > idr) ==> p.requests[j].spec.id != x.id
        invariant forall j :: 0 <= j < i && (keyr == n || j > keyr) ==> p.requests[j].spec.idempotencyKey != x.idempotencyKey
      {
        if p.requests[i].spec.id == x.id {
          idr := i;
        }
        if p.requests[i].spec.idempotencyKey == x.idempotencyKey {
          keyr := i;
        }
      }
      UniquePositions(p.requests, x, idr, keyr);
      if idr != n || keyr != n {
        if idr == n && keyr != n && SameSpec(p.requests[keyr].spec, x) {
          return Ok(p.requests[keyr]);
        }
        if idr != n && keyr != n && p.requests[idr].spec.id == p.requests[keyr].spec.id
           && SameSpec(p.requests[idr].spec, x) {
          return Ok(p.requests[idr]);
        }
        return Err(IdentityConflict);
      }
      p := p.(nextSequence := Bump(p.nextSequence));
      var r := Request(x, Queued, p.nextSequence, 1, now, now, None, "", 0);
      p := p.(requests := p.requests + [r]);
      var written := Write(p);
      result := if written then Ok(r) else Err(PublicationRefused);
    }

    /** Finds the request, compares its revision, edits it and publishes the whole state. */
    method MutateWithState(id: string, rev: Uint64, c: Command, now: Reading) returns (result: Result<Request, Refusal>)
      modifies this
      ensures Reply(durable, result) == MutateStep(old(durable), id, rev, c, now)
    {
      var p := durable;
      var readable := ValidatePersisted(p);
      if !readable {
        return Err(CorruptState);
      }
      for i := 0 to |p.requests|
        invariant p == old(durable) == durable
        invariant forall j :: 0 <= j < i ==> p.requests[j].spec.id != id
      {
        var r := p.requests[i];
        if r.spec.id != id {
          continue;
        }
        assert i == Find(p.requests, id);
        if r.revision != rev {
          return Err(RevisionConflict);
        }
        match Apply(p.requests, r, c)
        case Err(e) =>
          return Err(e);
        case Ok(edited) =>
          r := edited.(revision := Bump(edited.revision), updatedAt := now);
          p := p.(requests := p.requests[i := r]);
          var written := Write(p);
          return if written then Ok(r) else Err(PublicationRefused);
      }
      return Err(NotFound);
    }

    method Get(id: string) returns (result: Result<View, Refusal>)
      ensures result ==
        if !ValidPersisted(durable) then Err(CorruptState)
        else if Find(durable.requests, id) == |durable.requests| then Err(NotFound)
        else Ok(MakeView(durable, durable.requests[Find(durable.requests, id)]))
    {
      var p := durable;
      var readable := ValidatePersisted(p);
      if !readable {
        return Err(CorruptState);
      }
      for i := 0 to |p.requests|
        invariant forall j :: 0 <= j < i ==> p.requests[j].spec.id != id
      {
        if p.requests[i].spec.id == id {
          assert i == Find(p.requests, id);
          var v := ComputeView(p, p.requests[i]);
          return Ok(v);
        }
      }
      return Err(NotFound);
    }
  }

  /** makeView: two passes over the requests, the second with an early exit. */
  method ComputeView(p: Persisted, r: Request) returns (v: View)
    ensures v == MakeView(p, r)
  {
    v := View(r, None, NoWait);
    var n := 0;
    if r.state == Queued {
      for i := 0 to |p.requests|
        invariant n == EarlierQueued(p.requests[..i], r)
      {
        assert p.requests[..i + 1][..i] == p.requests[..i];
        var x := p.requests[i];
        if x.spec.resource == r.spec.resource && x.state == Queued && x.sequence < r.sequence {
          n := n + 1;
        }
      }
      assert p.requests[..|p.requests|] == p.requests;
      v := v.(position := Some(n + 1), wait := if n > 0 then EarlierLocal else NoWait);
    }
    if r.state == Queued || r.state == RevalidationRequired {
      for i := 0 to |p.requests|
        invariant forall j :: 0 <= j < i ==>
          !(p.requests[j].spec.id != r.spec.id && p.requests[j].spec.resource == r.spec.resource && Active(p.requests[j].state))
      {
        var x := p.requests[i];
        if x.spec.id != r.spec.id && x.spec.resource == r.spec.resource && Active(x.state) {
          assert Busy(p.requests, r);
          return v.(wait := ActiveLocal);
        }
      }
      assert !Busy(p.requests, r);
    }
  }
}
