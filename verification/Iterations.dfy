/** Iteration records of internal/intentdoc/iteration.go and iteration_references.go: what one record must satisfy. */
module Iterations {
  import opened Sorting
  import opened Wrappers

  type U32 = x: nat | x < 0x1_0000_0000

  const MAX_U32: U32 := 0xFFFF_FFFF

  /** An exact reference to a document. */
  datatype Ref = Ref(id: string, revision: U32, digest: string)

  /** How a document is known to others. */
  datatype Header = Header(kind: string, id: string, revision: U32, digest: string)

  datatype Usage = Usage(tasks: U32, elapsedSeconds: U32, noProgressCount: U32)

  /** A criterion observation with the number of its evidence references. */
  datatype Observation = Observation(key: string, result: string, evidence: nat)

  datatype Evaluation = Evaluation(progress: bool, criteria: seq<Observation>, decision: string, stopReason: string)

  datatype Iteration = Iteration(
    id: string,
    revision: U32,
    intent: Ref,
    ordinal: U32,
    previous: Option<Ref>,
    batch: Option<Ref>,
    trigger: string,
    usage: Usage,
    evaluation: Evaluation)

  /**
   * Checks of a record that look at one text only (identifiers, references,
   * texts, evidence lists), the form of a criterion key, and the digest of a record.
   */
  datatype Services = Services(formed: Iteration -> bool, keyForm: string -> bool, digest: Iteration -> string)

  // The evaluation

  predicate DecisionOk(decision: string, stopReason: string) {
    || ((decision == "continue" || decision == "idle") && stopReason == "none")
    || (decision == "blocked" && (stopReason == "permission-required" || stopReason == "user-decision"))
    || (decision == "revise" && stopReason == "revision-change")
    || (decision == "stopped" && (stopReason == "budget-exhausted" || stopReason == "no-progress" || stopReason == "user-stop"))
  }

  predicate ObservationOk(c: Observation, keyForm: string -> bool) {
    keyForm(c.key) && (((c.result == "met" || c.result == "unmet") && c.evidence > 0) || c.result == "unknown")
  }

  predicate DistinctKeys(cs: seq<Observation>) {
    forall i, j :: 0 <= i < j < |cs| ==> cs[i].key != cs[j].key
  }

  predicate EvaluationOk(e: Evaluation, keyForm: string -> bool) {
    && 1 <= |e.criteria| <= 128 && DistinctKeys(e.criteria)
    && (forall i :: 0 <= i < |e.criteria| ==> ObservationOk(e.criteria[i], keyForm))
    && DecisionOk(e.decision, e.stopReason)
  }

  /** validateIterationEvaluation: keys already seen are kept in a set. */
  method ValidateIterationEvaluation(e: Evaluation, keyForm: string -> bool) returns (ok: bool)
    ensures ok <==> EvaluationOk(e, keyForm)
  {
    if |e.criteria| == 0 || |e.criteria| > 128 { return false; }
    var seen: set<string> := {};
    for n := 0 to |e.criteria|
      invariant forall k :: k in seen <==> exists i :: 0 <= i < n && e.criteria[i].key == k
      invariant forall i, j :: 0 <= i < j < n ==> e.criteria[i].key != e.criteria[j].key
      invariant forall i :: 0 <= i < n ==> ObservationOk(e.criteria[i], keyForm)
    {
      var c := e.criteria[n];
      if !keyForm(c.key) || c.key in seen { return false; }
      seen := seen + {c.key};
      if c.result == "met" || c.result == "unmet" {
        if c.evidence == 0 { return false; }
      } else if c.result != "unknown" {
        return false;
      }
    }
    var valid := false;
    if e.decision == "continue" || e.decision == "idle" {
      valid := e.stopReason == "none";
    } else if e.decision == "blocked" {
      valid := e.stopReason == "permission-required" || e.stopReason == "user-decision";
    } else if e.decision == "revise" {
      valid := e.stopReason == "revision-change";
    } else if e.decision == "stopped" {
      valid := e.stopReason == "budget-exhausted" || e.stopReason == "no-progress" || e.stopReason == "user-stop";
    }
    ok := valid;
  }

  // One record

  predicate Idle(d: Iteration) {
    d.evaluation.decision == "idle"
  }

  predicate Progress(d: Iteration) {
    d.evaluation.progress
  }

  predicate Terminal(d: Iteration) {
    d.evaluation.decision == "stopped" || d.evaluation.decision == "revise"
  }

  /** What parsing accepts. */
  predicate IterationOk(d: Iteration, s: Services) {
    && s.formed(d) && d.ordinal > 0 && (d.previous.None? <==> d.ordinal == 1)
    && (d.previous.Some? ==> d.previous.value.id != d.id)
    && EvaluationOk(d.evaluation, s.keyForm)
    && (Idle(d) ==> d.batch.None? && !Progress(d))
    && (Progress(d) ==> d.usage.noProgressCount == 0)
    && (d.previous.None? ==> d.usage.noProgressCount == if Progress(d) || Idle(d) then 0 else 1)
  }

  method ValidateIteration(d: Iteration, s: Services) returns (ok: bool)
    ensures ok <==> IterationOk(d, s)
  {
    hide EvaluationOk;
    if !s.formed(d) { return false; }
    if d.ordinal == 0 || (d.previous.None? && d.ordinal != 1) || (d.previous.Some? && d.ordinal == 1) { return false; }
    if d.previous.Some? {
      if d.previous.value.id == d.id { return false; }
    }
    var evaluated := ValidateIterationEvaluation(d.evaluation, s.keyForm);
    if !evaluated { return false; }
    if d.evaluation.decision == "idle" && (d.batch.Some? || d.evaluation.progress) { return false; }
    if d.evaluation.progress && d.usage.noProgressCount != 0 { return false; }
    if d.previous.None? {
      var want := 1;
      if d.evaluation.progress || d.evaluation.decision == "idle" { want := 0; }
      if d.usage.noProgressCount != want { return false; }
    }
    ok := true;
  }

  // A record and its predecessor

  predicate Matches(h: Header, kind: string, r: Ref) {
    h.kind == kind && h.id == r.id && h.revision == r.revision && h.digest == r.digest
  }

  function HeaderOf(d: Iteration, s: Services): Header {
    Header("iteration", d.id, d.revision, s.digest(d))
  }

  /** The count a successor must carry; none when it would not fit. */
  function Expected(count: U32, d: Iteration): Option<U32> {
    if Idle(d) then Some(count)
    else if Progress(d) then Some(0)
    else if count == MAX_U32 then None
    else Some(count + 1)
  }

  predicate Follows(d: Iteration, p: Iteration, s: Services) {
    && d.previous.Some? && Matches(HeaderOf(p, s), "iteration", d.previous.value)
    && p.intent == d.intent && p.ordinal < MAX_U32 && d.ordinal == p.ordinal + 1
    && !Terminal(p)
    && d.usage.tasks >= p.usage.tasks && d.usage.elapsedSeconds >= p.usage.elapsedSeconds
    && Expected(p.usage.noProgressCount, d) == Some(d.usage.noProgressCount)
  }

  predicate PredecessorOk(d: Iteration, previous: Option<Iteration>, s: Services) {
    match previous
    case None => d.previous.None?
    case Some(p) => Follows(d, p, s)
  }

  method ValidatePredecessor(d: Iteration, previous: Option<Iteration>, s: Services) returns (ok: bool)
    ensures ok <==> PredecessorOk(d, previous, s)
  {
    if d.previous.None? != previous.None? { return false; }
    if previous.None? { return true; }
    var p := previous.value;
    if !Matches(HeaderOf(p, s), "iteration", d.previous.value) { return false; }
    if p.intent != d.intent || p.ordinal == MAX_U32 || d.ordinal != p.ordinal + 1 { return false; }
    if p.evaluation.decision == "stopped" || p.evaluation.decision == "revise" { return false; }
    if d.usage.tasks < p.usage.tasks || d.usage.elapsedSeconds < p.usage.elapsedSeconds { return false; }
    var want := p.usage.noProgressCount;
    if d.evaluation.decision != "idle" {
      if d.evaluation.progress {
        want := 0;
      } else {
        if want == MAX_U32 { return false; }
        want := want + 1;
      }
    }
    if d.usage.noProgressCount != want { return false; }
    ok := true;
  }

  // A record and what it refers to

  datatype Intent = Intent(header: Header, schemaVersion: U32, maintenance: bool, declared: bool, triggers: seq<string>, criteria: seq<string>)

  datatype Batch = Batch(header: Header, intent: Ref, achieved: bool)

  function KeySet(keys: seq<string>): set<string> {
    set i | 0 <= i < |keys| :: keys[i]
  }

  predicate BatchOk(d: Iteration, intent: Intent, batch: Option<Batch>) {
    && (d.batch.None? <==> batch.None?)
    && (batch.Some? && d.batch.Some? ==>
          && Matches(batch.value.header, "batch", d.batch.value) && batch.value.intent == d.intent
          && Matches(intent.header, "intent", batch.value.intent) && !(intent.maintenance && batch.value.achieved))
  }

  predicate ReferencesOk(d: Iteration, intent: Intent, previous: Option<Iteration>, batch: Option<Batch>, s: Services) {
    && Matches(intent.header, "intent", d.intent)
    && intent.schemaVersion == 2 && intent.maintenance && intent.declared
    && d.trigger in intent.triggers
    && |d.evaluation.criteria| == |KeySet(intent.criteria)|
    && (forall i :: 0 <= i < |d.evaluation.criteria| ==> d.evaluation.criteria[i].key in intent.criteria)
    && PredecessorOk(d, previous, s) && BatchOk(d, intent, batch)
  }

  method ValidateIterationReferences(d: Iteration, intent: Intent, previous: Option<Iteration>, batch: Option<Batch>, s: Services)
      returns (ok: bool)
    ensures ok <==> ReferencesOk(d, intent, previous, batch, s)
  {
    hide PredecessorOk, BatchOk;
    if !Matches(intent.header, "intent", d.intent) { return false; }
    if intent.schemaVersion != 2 || !intent.maintenance || !intent.declared { return false; }
    var triggerFound := false;
    for n := 0 to |intent.triggers|
      invariant triggerFound <==> d.trigger in intent.triggers[..n]
    {
      triggerFound := triggerFound || intent.triggers[n] == d.trigger;
    }
    assert intent.triggers[..|intent.triggers|] == intent.triggers;
    if !triggerFound { return false; }
    var keys: set<string> := {};
    for n := 0 to |intent.criteria|
      invariant keys == KeySet(intent.criteria[..n])
    {
      keys := keys + {intent.criteria[n]};
      OneMoreKey(intent.criteria, n);
    }
    assert intent.criteria[..|intent.criteria|] == intent.criteria;
    if |d.evaluation.criteria| != |keys| { return false; }
    for n := 0 to |d.evaluation.criteria|
      invariant forall i :: 0 <= i < n ==> d.evaluation.criteria[i].key in intent.criteria
    {
      if d.evaluation.criteria[n].key !in keys { return false; }
    }
    ok := ValidatePredecessor(d, previous, s);
    if !ok { return; }
    ok := ValidateBatch(d, intent, batch);
  }

  method ValidateBatch(d: Iteration, intent: Intent, batch: Option<Batch>) returns (ok: bool)
    ensures ok <==> BatchOk(d, intent, batch)
  {
    if d.batch.None? != batch.None? { return false; }
    if batch.Some? {
      if !Matches(batch.value.header, "batch", d.batch.value) { return false; }
      if batch.value.intent != d.intent { return false; }
      if !Matches(intent.header, "intent", batch.value.intent) { return false; }
      if intent.maintenance && batch.value.achieved { return false; }
    }
    ok := true;
  }

  lemma OneMoreKey(keys: seq<string>, n: nat)
    requires n < |keys|
    ensures KeySet(keys[..n + 1]) == KeySet(keys[..n]) + {keys[n]}
  {
    assert keys[..n + 1] == keys[..n] + [keys[n]];
    var a, b := KeySet(keys[..n + 1]), KeySet(keys[..n]) + {keys[n]};
    forall x
      ensures x in a <==> x in b
    {
      if x in a {
        var i :| 0 <= i < n + 1 && keys[..n + 1][i] == x;
        assert i < n ==> keys[..n][i] == x;
      }
      if x in KeySet(keys[..n]) {
        var i :| 0 <= i < n && keys[..n][i] == x;
        assert keys[..n + 1][i] == x;
      }
      assert keys[..n + 1][n] == keys[n];
    }
  }

  // Equal counts mean full coverage

  function ObservedKeys(cs: seq<Observation>): set<string> {
    set i | 0 <= i < |cs| :: cs[i].key
  }

  lemma {:induction false} DistinctCount(cs: seq<Observation>)
    requires DistinctKeys(cs)
    ensures |ObservedKeys(cs)| == |cs|
  {
    if cs == [] {
      assert ObservedKeys(cs) == {};
    } else {
      var n := |cs| - 1;
      var front := cs[..n];
      DistinctCount(front);
      assert ObservedKeys(cs) == ObservedKeys(front) + {cs[n].key} by {
        forall x | x in ObservedKeys(cs)
          ensures x in ObservedKeys(front) + {cs[n].key}
        {
          var i :| 0 <= i < |cs| && cs[i].key == x;
          assert i < n ==> front[i].key == x;
        }
        forall x | x in ObservedKeys(front)
          ensures x in ObservedKeys(cs)
        {
          var i :| 0 <= i < n && front[i].key == x;
          assert cs[i].key == x;
        }
        assert cs[n].key in ObservedKeys(cs);
      }
      assert cs[n].key !in ObservedKeys(front);
    }
  }

  /** An accepted record observes every criterion of its intent, and no other, exactly once. */
  lemma EveryCriterionObserved(d: Iteration, intent: Intent, previous: Option<Iteration>, batch: Option<Batch>, s: Services)
    requires IterationOk(d, s) && ReferencesOk(d, intent, previous, batch, s)
    ensures ObservedKeys(d.evaluation.criteria) == KeySet(intent.criteria) && DistinctKeys(d.evaluation.criteria)
  {
    var cs := d.evaluation.criteria;
    DistinctCount(cs);
    forall x | x in ObservedKeys(cs)
      ensures x in KeySet(intent.criteria)
    {
      var i :| 0 <= i < |cs| && cs[i].key == x;
      var j :| 0 <= j < |intent.criteria| && intent.criteria[j] == x;
    }
    SameCount(ObservedKeys(cs), KeySet(intent.criteria));
  }
}
