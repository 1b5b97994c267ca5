/** What the checks of single records imply along a whole lineage. */
module IterationLineage {
  import opened Wrappers
  import opened Iterations
  import Sorting

  predicate Accepted(ds: seq<Iteration>, i: nat, s: Services)
    requires i < |ds|
  {
    IterationOk(ds[i], s) && PredecessorOk(ds[i], if i == 0 then None else Some(ds[i - 1]), s)
  }

  /** A chain of accepted records: a root, and then each after its predecessor. */
  predicate Lineage(ds: seq<Iteration>, s: Services) {
    forall i :: 0 <= i < |ds| ==> Accepted(ds, i, s)
  }

  /** The position after the last record that asserts progress. */
  function SinceProgress(ds: seq<Iteration>): (n: nat)
    ensures n <= |ds|
    ensures forall i :: n <= i < |ds| ==> !Progress(ds[i])
    ensures n > 0 ==> Progress(ds[n - 1])
  {
    if ds == [] then 0
    else if Progress(ds[|ds| - 1]) then |ds|
    else SinceProgress(ds[..|ds| - 1])
  }

  /** How many records from n on are not idle. */
  function Busy(ds: seq<Iteration>, n: nat): nat
    requires n <= |ds|
    decreases |ds|
  {
    if n == |ds| then 0
    else Busy(ds[..|ds| - 1], n) + if Idle(ds[|ds| - 1]) then 0 else 1
  }

  /** The non-idle records since the last progress. */
  function Streak(ds: seq<Iteration>): nat {
    Busy(ds, SinceProgress(ds))
  }

  lemma StreakStep(ds: seq<Iteration>, d: Iteration)
    requires Idle(d) ==> !Progress(d)
    ensures Streak(ds + [d]) == if Progress(d) then 0 else if Idle(d) then Streak(ds) else Streak(ds) + 1
  {
    var more := ds + [d];
    assert more[..|more| - 1] == ds && more[|more| - 1] == d;
  }

  /** The ordinal is the position. */
  lemma {:induction false} OrdinalIsPosition(ds: seq<Iteration>, s: Services, i: nat)
    requires Lineage(ds, s) && i < |ds|
    ensures ds[i].ordinal == i + 1
  {
    assert Accepted(ds, i, s);
    if i > 0 {
      OrdinalIsPosition(ds, s, i - 1);
    }
  }

  /** The intent never changes and the totals never decrease. */
  lemma {:induction false} TotalsGrow(ds: seq<Iteration>, s: Services, i: nat, j: nat)
    requires Lineage(ds, s) && i <= j < |ds|
    ensures ds[j].intent == ds[i].intent
    ensures ds[i].usage.tasks <= ds[j].usage.tasks && ds[i].usage.elapsedSeconds <= ds[j].usage.elapsedSeconds
    decreases j
  {
    if i < j {
      TotalsGrow(ds, s, i, j - 1);
      assert Accepted(ds, j, s);
    }
  }

  /** A record that another follows neither stops nor asks for a revision. */
  lemma TerminalIsLast(ds: seq<Iteration>, s: Services, i: nat)
    requires Lineage(ds, s) && i < |ds| - 1
    ensures !Terminal(ds[i])
  {
    assert Accepted(ds, i + 1, s);
  }

  /** The count kept in each record is the number of non-idle records since the last progress. */
  lemma {:induction false} CountIsStreak(ds: seq<Iteration>, s: Services, n: nat)
    requires Lineage(ds, s) && n < |ds|
    ensures ds[n].usage.noProgressCount == Streak(ds[..n + 1])
  {
    var d := ds[n];
    assert Accepted(ds, n, s);
    assert ds[..n + 1] == ds[..n] + [d];
    StreakStep(ds[..n], d);
    hide Streak;
    if n > 0 {
      CountIsStreak(ds, s, n - 1);
    } else {
      assert Streak(ds[..0]) == 0 by { EmptyStreak(); }
    }
  }

  lemma EmptyStreak()
    ensures Streak([]) == 0
  {
  }

  /** What a record must say to extend a lineage, in terms of the whole lineage. */
  predicate Extends(ds: seq<Iteration>, d: Iteration, s: Services)
    requires ds != []
  {
    var last := ds[|ds| - 1];
    && IterationOk(d, s) && d.previous.Some? && Matches(HeaderOf(last, s), "iteration", d.previous.value)
    && d.intent == ds[0].intent && d.ordinal == |ds| + 1
    && (forall i :: 0 <= i < |ds| ==> !Terminal(ds[i]))
    && (forall i :: 0 <= i < |ds| ==> ds[i].usage.tasks <= d.usage.tasks && ds[i].usage.elapsedSeconds <= d.usage.elapsedSeconds)
    && d.usage.noProgressCount == Streak(ds + [d])
  }

  lemma ChainExtends(ds: seq<Iteration>, d: Iteration, s: Services)
    requires Lineage(ds, s) && ds != []
    ensures Lineage(ds + [d], s) <==> IterationOk(d, s) && Follows(d, ds[|ds| - 1], s)
  {
    hide IterationOk, Follows;
    var more := ds + [d];
    assert Accepted(more, |ds|, s) <==> IterationOk(d, s) && Follows(d, ds[|ds| - 1], s);
    forall i | 0 <= i < |ds|
      ensures Accepted(more, i, s)
    {
      assert Accepted(ds, i, s);
    }
  }

  /**
   * The checks against one predecessor are as strong as checks against the
   * whole lineage: a record is accepted after a lineage if and only if it
   * extends it, and then no counter has passed 32 bits.
   */
  lemma AcceptedIffExtends(ds: seq<Iteration>, d: Iteration, s: Services)
    requires Lineage(ds, s) && ds != []
    ensures Lineage(ds + [d], s) <==> Extends(ds, d, s)
  {
    var n := |ds| - 1;
    var last := ds[n];
    ChainExtends(ds, d, s);
    OrdinalIsPosition(ds, s, n);
    CountIsStreak(ds, s, n);
    assert ds[..n + 1] == ds;
    forall i | 0 <= i < |ds|
      ensures ds[i].intent == last.intent && ds[i].usage.tasks <= last.usage.tasks
      ensures ds[i].usage.elapsedSeconds <= last.usage.elapsedSeconds && (i < n ==> !Terminal(ds[i]))
    {
      TotalsGrow(ds, s, i, n);
      if i < n {
        TerminalIsLast(ds, s, i);
      }
    }
    hide Lineage, Streak, EvaluationOk;
    if IterationOk(d, s) {
      StreakStep(ds, d);
    }
  }

  // What one accepted record says

  /** Every decision with the reasons it may give. */
  lemma DecisionsAre(decision: string, reason: string)
    ensures DecisionOk(decision, reason) <==>
      (decision, reason) in {
        ("continue", "none"), ("idle", "none"),
        ("blocked", "permission-required"), ("blocked", "user-decision"),
        ("revise", "revision-change"),
        ("stopped", "budget-exhausted"), ("stopped", "no-progress"), ("stopped", "user-stop")}
  {
  }

  /** The evaluation observes between 1 and 128 criteria, each once, and asserts nothing without evidence. */
  predicate ObservesSoundly(e: Evaluation, keyForm: string -> bool) {
    && 1 <= |e.criteria| <= 128
    && (forall c :: c in e.criteria ==> keyForm(c.key) && c.result in ["met", "unmet", "unknown"] && (c.result != "unknown" ==> c.evidence >= 1))
    && |ObservedKeys(e.criteria)| == |e.criteria|
  }

  lemma EvaluationMeans(e: Evaluation, keyForm: string -> bool)
    ensures EvaluationOk(e, keyForm) <==> ObservesSoundly(e, keyForm) && DecisionOk(e.decision, e.stopReason)
  {
    hide DecisionOk;
    ObservationsMean(e.criteria, keyForm);
    if DistinctKeys(e.criteria) {
      DistinctCount(e.criteria);
    }
    if |ObservedKeys(e.criteria)| == |e.criteria| {
      FullCountIsDistinct(e.criteria);
    }
    hide DistinctKeys, ObservedKeys, ObservationOk;
  }

  lemma ObservationsMean(cs: seq<Observation>, keyForm: string -> bool)
    ensures (forall i :: 0 <= i < |cs| ==> ObservationOk(cs[i], keyForm)) <==>
      forall c :: c in cs ==> keyForm(c.key) && c.result in ["met", "unmet", "unknown"] && (c.result != "unknown" ==> c.evidence >= 1)
  {
    forall c: Observation
      ensures ObservationOk(c, keyForm) <==> keyForm(c.key) && c.result in ["met", "unmet", "unknown"] && (c.result != "unknown" ==> c.evidence >= 1)
    {
    }
    hide ObservationOk;
  }

  lemma {:induction false} AtMostOneKeyEach(cs: seq<Observation>)
    ensures |ObservedKeys(cs)| <= |cs|
  {
    if cs == [] {
      assert ObservedKeys(cs) == {};
    } else {
      AtMostOneKeyEach(cs[..|cs| - 1]);
      LastKey(cs);
    }
  }

  lemma LastKey(cs: seq<Observation>)
    requires cs != []
    ensures ObservedKeys(cs) == ObservedKeys(cs[..|cs| - 1]) + {cs[|cs| - 1].key}
  {
    var n := |cs| - 1;
    var front := cs[..n];
    forall x
      ensures x in ObservedKeys(cs) <==> x in ObservedKeys(front) + {cs[n].key}
    {
      if x in ObservedKeys(cs) {
        var i :| 0 <= i < |cs| && cs[i].key == x;
        assert i < n ==> front[i].key == x;
      }
      if x in ObservedKeys(front) {
        var i :| 0 <= i < n && front[i].key == x;
        assert cs[i].key == x;
      }
      assert cs[n].key in ObservedKeys(cs);
    }
  }

  lemma {:induction false} FullCountIsDistinct(cs: seq<Observation>)
    requires |ObservedKeys(cs)| == |cs|
    ensures DistinctKeys(cs)
  {
    if cs != [] {
      var n := |cs| - 1;
      LastKey(cs);
      AtMostOneKeyEach(cs[..n]);
      FullCountIsDistinct(cs[..n]);
      forall i | 0 <= i < n
        ensures cs[i].key != cs[n].key
      {
        assert cs[..n][i].key in ObservedKeys(cs[..n]);
      }
    }
  }

  function RefOf(h: Header): Ref {
    Ref(h.id, h.revision, h.digest)
  }

  /**
   * A record is accepted against its documents exactly when it names them
   * exactly, answers a declared maintenance intent by one of its triggers and for
   * all of its criteria, and its batch serves that intent and does not end it.
   */
  lemma AcceptedAgainst(d: Iteration, intent: Intent, previous: Option<Iteration>, batch: Option<Batch>, s: Services)
    requires DistinctKeys(d.evaluation.criteria)
    ensures ReferencesOk(d, intent, previous, batch, s) <==>
      && intent.header.kind == "intent" && RefOf(intent.header) == d.intent
      && intent.schemaVersion == 2 && intent.maintenance && intent.declared
      && d.trigger in intent.triggers && ObservedKeys(d.evaluation.criteria) == KeySet(intent.criteria)
      && (match batch
          case None => d.batch == None
          case Some(b) => b.header.kind == "batch" && d.batch == Some(RefOf(b.header)) && b.intent == d.intent && !b.achieved)
      && (match previous
          case None => d.previous == None
          case Some(p) =>
            && d.previous == Some(Ref(p.id, p.revision, s.digest(p))) && p.intent == d.intent
            && d.ordinal as int == p.ordinal as int + 1 && p.evaluation.decision !in ["stopped", "revise"]
            && d.usage.tasks >= p.usage.tasks && d.usage.elapsedSeconds >= p.usage.elapsedSeconds
            && d.usage.noProgressCount as int ==
               if d.evaluation.decision == "idle" then p.usage.noProgressCount as int
               else if d.evaluation.progress then 0 else p.usage.noProgressCount as int + 1)
  {
    ObservedAll(d.evaluation.criteria, intent.criteria);
    hide ObservedKeys, KeySet, DistinctKeys;
  }

  lemma ObservedAll(cs: seq<Observation>, keys: seq<string>)
    requires DistinctKeys(cs)
    ensures |cs| == |KeySet(keys)| && (forall i :: 0 <= i < |cs| ==> cs[i].key in keys) <==> ObservedKeys(cs) == KeySet(keys)
  {
    DistinctCount(cs);
    KeysAre(keys);
    assert (forall i :: 0 <= i < |cs| ==> cs[i].key in keys) <==> ObservedKeys(cs) <= KeySet(keys);
    if ObservedKeys(cs) <= KeySet(keys) {
      Sorting.SameCount(ObservedKeys(cs), KeySet(keys));
    }
  }

  lemma KeysAre(keys: seq<string>)
    ensures forall k :: k in KeySet(keys) <==> k in keys
  {
  }

  /**
   * A record by itself: the first of its lineage exactly when it names no
   * predecessor, never its own, idle only without a batch and without progress,
   * and with a count of 0 or, at the root, 1.
   */
  lemma RecordMeans(d: Iteration, s: Services)
    ensures IterationOk(d, s) <==>
      && s.formed(d) && EvaluationOk(d.evaluation, s.keyForm)
      && (match d.previous
          case None => d.ordinal == 1
          case Some(p) => d.ordinal >= 2 && p.id != d.id)
      && (d.evaluation.decision == "idle" ==> d.batch == None && !d.evaluation.progress)
      && (d.evaluation.progress ==> d.usage.noProgressCount == 0)
      && (d.previous == None && !d.evaluation.progress ==>
            d.usage.noProgressCount == if d.evaluation.decision == "idle" then 0 else 1)
  {
    hide EvaluationOk;
  }
}
