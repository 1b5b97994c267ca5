/**
 * validateDraftCycles of internal/intentdoc/bundle_validation.go: a depth-first
 * search over the key dependencies of a bundle.
 */
module DraftCycles {
  import opened Sorting

  datatype Dependency = Dependency(taskId: string, key: string)

  datatype TaskDraft = TaskDraft(key: string, dependsOn: seq<Dependency>)

  type Bundle = map<string, TaskDraft>

  // The graph

  /** The last draft of a key counts. */
  function ByKey(tasks: seq<TaskDraft>): Bundle {
    if tasks == [] then map[] else ByKey(tasks[..|tasks| - 1])[tasks[|tasks| - 1].key := tasks[|tasks| - 1]]
  }

  predicate DependsOn(t: TaskDraft, b: string) {
    b != "" && exists i :: 0 <= i < |t.dependsOn| && t.dependsOn[i].key == b
  }

  predicate Edge(g: Bundle, a: string, b: string) {
    a in g && DependsOn(g[a], b)
  }

  predicate IsPath(g: Bundle, p: seq<string>) {
    forall i :: 0 <= i < |p| - 1 ==> Edge(g, p[i], p[i + 1])
  }

  ghost predicate IsCycle(g: Bundle, p: seq<string>) {
    |p| >= 2 && IsPath(g, p) && p[0] == p[|p| - 1]
  }

  ghost predicate Cyclic(g: Bundle) {
    exists p :: IsCycle(g, p)
  }

  function Universe(g: Bundle): set<string> {
    g.Keys + set k, i | k in g && 0 <= i < |g[k].dependsOn| :: g[k].dependsOn[i].key
  }

  /** Every key comes after everything it depends on. */
  ghost predicate Topological(g: Bundle, order: seq<string>) {
    forall i, b :: 0 <= i < |order| && Edge(g, order[i], b) ==> b in order[..i]
  }

  /** An order of the keys in which dependencies come first. */
  ghost predicate Orders(g: Bundle, order: seq<string>) {
    Topological(g, order) && NoRepeat(order) && forall k :: k in g ==> k in order
  }

  /** For drafts with distinct keys: a depends on b when a draft with key a lists a dependency with key b; task ids do not count. */
  lemma {:induction false} EdgeMeans(tasks: seq<TaskDraft>, a: string, b: string)
    requires forall i, j :: 0 <= i < j < |tasks| ==> tasks[i].key != tasks[j].key
    ensures Edge(ByKey(tasks), a, b) <==> b != "" && exists t, d :: t in tasks && t.key == a && d in t.dependsOn && d.key == b
  {
    DraftsByKey(tasks);
    var g := ByKey(tasks);
    hide ByKey;
    if Edge(g, a, b) {
      var i :| 0 <= i < |g[a].dependsOn| && g[a].dependsOn[i].key == b;
      assert g[a].dependsOn[i] in g[a].dependsOn;
    }
    if t, d :| t in tasks && t.key == a && d in t.dependsOn && d.key == b {
      assert g[a] == t;
    }
  }

  lemma {:induction false} DraftsByKey(tasks: seq<TaskDraft>)
    requires forall i, j :: 0 <= i < j < |tasks| ==> tasks[i].key != tasks[j].key
    ensures forall t :: t in tasks ==> t.key in ByKey(tasks) && ByKey(tasks)[t.key] == t
    ensures forall k :: k in ByKey(tasks) ==> ByKey(tasks)[k] in tasks && ByKey(tasks)[k].key == k
  {
    if tasks != [] {
      var n := |tasks| - 1;
      var front := tasks[..n];
      DraftsByKey(front);
      assert forall t :: t in tasks <==> t in front || t == tasks[n];
      forall t | t in front
        ensures t.key != tasks[n].key
      {
        var i :| 0 <= i < n && front[i] == t;
        assert tasks[i] == t;
      }
    }
  }

  // An order excludes cycles

  lemma {:induction false} PathDescends(g: Bundle, order: seq<string>, p: seq<string>, k: nat) returns (i: nat, j: nat)
    requires Topological(g, order) && IsPath(g, p) && 0 < k < |p| && p[0] in order
    ensures i < j < |order| && order[i] == p[k] && order[j] == p[0]
    decreases k
  {
    if k == 1 {
      j :| 0 <= j < |order| && order[j] == p[0];
      assert Edge(g, p[0], p[1]);
      i :| 0 <= i < |order[..j]| && order[..j][i] == p[1];
    } else {
      var m;
      m, j := PathDescends(g, order, p, k - 1);
      assert Edge(g, p[k - 1], p[k - 1 + 1]);
      i :| 0 <= i < |order[..m]| && order[..m][i] == p[k];
    }
  }

  lemma OrderedIsAcyclic(g: Bundle, order: seq<string>)
    requires Orders(g, order)
    ensures !Cyclic(g)
  {
    forall p | IsCycle(g, p)
      ensures false
    {
      assert Edge(g, p[0], p[1]);
      var i, j := PathDescends(g, order, p, |p| - 1);
    }
  }

  /** A path that comes back to one of its keys holds a cycle. */
  lemma BackIsCycle(g: Bundle, stack: seq<string>, key: string)
    requires IsPath(g, stack) && key in stack && Edge(g, stack[|stack| - 1], key)
    ensures Cyclic(g)
  {
    var i :| 0 <= i < |stack| && stack[i] == key;
    var p := stack[i..] + [key];
    forall k | 0 <= k < |p| - 1
      ensures Edge(g, p[k], p[k + 1])
    {
      assert p[k] == stack[i + k];
      assert k + 1 < |p| - 1 ==> p[k + 1] == stack[i + k + 1] && Edge(g, stack[i + k], stack[i + k + 1]);
    }
    assert IsCycle(g, p);
  }

  lemma OneMore(g: Bundle, order: seq<string>, key: string)
    requires Topological(g, order) && NoRepeat(order) && key !in order && forall b :: Edge(g, key, b) ==> b in order
    ensures Topological(g, order + [key]) && NoRepeat(order + [key])
  {
    var more := order + [key];
    forall i, b | 0 <= i < |more| && Edge(g, more[i], b)
      ensures b in more[..i]
    {
      if i < |order| {
        assert more[..i] == order[..i];
      } else {
        assert more[..i] == order;
      }
    }
  }

  // The search

  const GREY: nat := 1
  const BLACK: nat := 2

  /** The grey keys are those on the way from the start; the black ones are ordered. */
  ghost predicate Sound(g: Bundle, state: map<string, nat>, order: seq<string>, stack: seq<string>) {
    && state.Keys <= Universe(g) && (forall k :: k in state ==> state[k] == GREY || state[k] == BLACK)
    && (forall k :: k in stack <==> k in state && state[k] == GREY)
    && (forall k :: k in order <==> k in state && state[k] == BLACK)
    && Topological(g, order) && NoRepeat(order)
  }

  /** What a colour says about a key. */
  lemma Colours(g: Bundle, state: map<string, nat>, order: seq<string>, stack: seq<string>, key: string)
    requires Sound(g, state, order, stack) && key in state
    ensures state[key] == GREY || state[key] == BLACK
    ensures (state[key] == GREY ==> key in stack) && (state[key] == BLACK ==> key in order)
  {
  }

  lemma MarkGrey(g: Bundle, state: map<string, nat>, order: seq<string>, stack: seq<string>, key: string)
    requires Sound(g, state, order, stack) && key in Universe(g) && key !in state
    ensures Sound(g, state[key := GREY], order, stack + [key]) && key !in stack && key !in order
  {
    hide Topological, NoRepeat, Universe;
    assert forall k :: k in stack + [key] <==> k in stack || k == key;
  }

  lemma MarkBlack(g: Bundle, state: map<string, nat>, order: seq<string>, stack: seq<string>, key: string)
    requires Sound(g, state, order, stack + [key]) && key !in stack && forall b :: Edge(g, key, b) ==> b in order
    ensures Sound(g, state[key := BLACK], order + [key], stack)
  {
    hide Topological, NoRepeat, Universe, Edge;
    assert forall k :: k in stack + [key] <==> k in stack || k == key;
    assert key in stack + [key];
    assert forall k :: k in order + [key] <==> k in order || k == key;
    OneMore(g, order, key);
  }

  class CycleCheck {
    const byKey: Bundle
    /** 1 while a key is being visited, 2 when it is done; absent before. */
    var state: map<string, nat>
    ghost var order: seq<string>

    constructor (tasks: seq<TaskDraft>)
      ensures byKey == ByKey(tasks) && state == map[] && order == []
    {
      byKey, state, order := ByKey(tasks), map[], [];
    }

    ghost predicate Valid(stack: seq<string>)
      reads this
    {
      Sound(byKey, state, order, stack)
    }

    /** visit: stack is the path of keys whose visits are under way. */
    method Visit(key: string, ghost stack: seq<string>) returns (ok: bool)
      requires Valid(stack) && key in Universe(byKey)
      requires IsPath(byKey, stack) && (stack != [] ==> Edge(byKey, stack[|stack| - 1], key))
      modifies this
      ensures !ok ==> Cyclic(byKey)
      ensures ok ==> Valid(stack) && key in order && old(order) <= order && old(state).Keys <= state.Keys
      decreases Universe(byKey) - state.Keys, 0
    {
      hide NoRepeat, Topological, IsPath, Cyclic, Universe, Sound;
      if key in state { Colours(byKey, state, order, stack, key); }
      if key in state && state[key] == GREY {
        BackIsCycle(byKey, stack, key);
        return false;
      }
      if key in state && state[key] == BLACK { return true; }
      ghost var left := Universe(byKey) - state.Keys;
      MarkGrey(byKey, state, order, stack, key);
      PathGrows(byKey, stack, key);
      state := state[key := GREY];
      assert key in left && Universe(byKey) - state.Keys == left - {key};
      if key in byKey {
        ok := VisitDependencies(key, stack + [key]);
        if !ok { return; }
      } else {
        assert forall b :: !Edge(byKey, key, b);
      }
      MarkBlack(byKey, state, order, stack, key);
      state := state[key := BLACK];
      order := order + [key];
      ok := true;
    }

    /** The loop of visit. */
    method VisitDependencies(key: string, ghost way: seq<string>) returns (ok: bool)
      requires Valid(way) && IsPath(byKey, way) && way != [] && way[|way| - 1] == key && key in byKey
      modifies this
      ensures !ok ==> Cyclic(byKey)
      ensures ok ==> Valid(way) && old(order) <= order && old(state).Keys <= state.Keys
      ensures ok ==> forall b :: Edge(byKey, key, b) ==> b in order
      decreases Universe(byKey) - state.Keys, 1
    {
      hide NoRepeat, Topological, IsPath, Cyclic, Sound;
      var deps := byKey[key].dependsOn;
      for i := 0 to |deps|
        invariant Valid(way) && old(order) <= order && old(state).Keys <= state.Keys
        invariant forall j :: 0 <= j < i && deps[j].key != "" ==> deps[j].key in order
      {
        if deps[i].key != "" {
          assert DependsOn(byKey[key], deps[i].key) && deps[i].key in Universe(byKey);
          ghost var known := order;
          ok := Visit(deps[i].key, way);
          if !ok { return; }
          assert forall k :: k in known ==> k in order;
        }
      }
      ok := true;
    }
  }

  lemma PathGrows(g: Bundle, stack: seq<string>, key: string)
    requires IsPath(g, stack) && (stack != [] ==> Edge(g, stack[|stack| - 1], key))
    ensures IsPath(g, stack + [key]) && forall k :: k in stack + [key] <==> k in stack || k == key
  {
    var p := stack + [key];
    forall i | 0 <= i < |p| - 1
      ensures Edge(g, p[i], p[i + 1])
    {
      assert i < |stack| - 1 ==> Edge(g, stack[i], stack[i + 1]);
    }
  }

  /**
   * validateDraftCycles accepts exactly the bundles whose key dependencies have
   * no cycle, in whatever order the keys are taken; an accepted bundle has an
   * order in which dependencies come first.
   */
  method ValidateDraftCycles(tasks: seq<TaskDraft>) returns (ok: bool)
    ensures ok <==> !Cyclic(ByKey(tasks))
    ensures ok ==> exists order :: Orders(ByKey(tasks), order)
  {
    var check := new CycleCheck(tasks);
    var rest := check.byKey.Keys;
    while rest != {}
      invariant rest <= check.byKey.Keys && check.Valid([]) && fresh(check)
      invariant forall k :: k in check.byKey.Keys - rest ==> k in check.order
      decreases |rest|
    {
      var key :| key in rest;
      ghost var known := check.order;
      ok := check.Visit(key, []);
      if !ok { return; }
      assert forall k :: k in known ==> k in check.order;
      rest := rest - {key};
    }
    assert Orders(ByKey(tasks), check.order);
    OrderedIsAcyclic(ByKey(tasks), check.order);
    ok := true;
  }
}
