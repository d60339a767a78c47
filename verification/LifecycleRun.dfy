/** One pass over the lifecycle graph: every component runs or is blocked. */
module LifecycleRun {
  import opened Wrappers
  import opened Sequences
  import opened LifecycleOrder
  import opened LifecycleGraph
  import opened Text

  const READY := "Ready"
  const PROGRESSING := "Progressing"
  const DEGRADED := "Degraded"
  const BLOCKED := "Blocked"
  const DEPENDENCY_NOT_READY := "DependencyNotReady"

  datatype ComponentResult = ComponentResult(
    id: string, state: string, reason: string, message: string,
    requeueAfter: int, blocking: seq<string>, err: Option<string>)

  /** What an operation does when it is invoked: it returns a result or fails. */
  datatype Operation = Missing | Fails | Returns(result: ComponentResult)

  type Results = map<string, ComponentResult>

  /** The contract of a result reported for component `id`. */
  ghost predicate ValidResult(id: string, result: ComponentResult) {
    && result.id == id && result.requeueAfter >= 0
    && result.state in {READY, PROGRESSING, DEGRADED, BLOCKED}
    && (result.state == DEGRADED <==> result.err.Some?)
    && (result.state != BLOCKED ==> result.blocking == [])
    && (result.state == BLOCKED ==>
          && result.reason == DEPENDENCY_NOT_READY && result.blocking != []
          && "" !in result.blocking && AllDifferent(result.blocking))
  }

  method ValidateOperationResult(id: string, result: ComponentResult) returns (ok: bool)
    ensures ok <==> ValidResult(id, result)
  {
    if result.id != id || result.requeueAfter < 0 {
      return false;
    }
    if result.state !in {READY, PROGRESSING, DEGRADED, BLOCKED} {
      return false;
    }
    if result.state != DEGRADED && result.err.Some? {
      return false;
    }
    if result.state == DEGRADED && result.err.None? {
      return false;
    }
    if result.state != BLOCKED && |result.blocking| != 0 {
      return false;
    }
    if result.state == BLOCKED {
      if result.reason != DEPENDENCY_NOT_READY || |result.blocking| == 0 {
        return false;
      }
      var seen: set<string> := {};
      for i := 0 to |result.blocking|
        invariant seen == Elements(result.blocking[..i])
        invariant "" !in result.blocking[..i] && AllDifferent(result.blocking[..i])
      {
        var blocker := result.blocking[i];
        if blocker == "" {
          return false;
        }
        if blocker in seen {
          var k: nat :| k < i && result.blocking[..i][k] == blocker;
          assert result.blocking[k] == result.blocking[i];
          return false;
        }
        assert result.blocking[..i + 1] == result.blocking[..i] + [blocker];
        seen := seen + {blocker};
      }
      assert result.blocking[..|result.blocking|] == result.blocking;
    }
    return true;
  }

  predicate ReadyEquivalent(results: Results, id: string) {
    id in results && results[id].state == READY
  }

  /** The dependencies that are not ready, in declaration order. */
  function Blocking(dependencies: seq<string>, results: Results): seq<string> {
    if dependencies == [] then []
    else if ReadyEquivalent(results, dependencies[0]) then Blocking(dependencies[1..], results)
    else [dependencies[0]] + Blocking(dependencies[1..], results)
  }

  lemma {:induction false} BlockingHolds(dependencies: seq<string>, results: Results)
    ensures forall d :: d in Blocking(dependencies, results) <==> d in dependencies && !ReadyEquivalent(results, d)
    ensures AllDifferent(dependencies) ==> AllDifferent(Blocking(dependencies, results))
  {
    if dependencies != [] {
      BlockingHolds(dependencies[1..], results);
      assert forall d :: d in dependencies <==> d == dependencies[0] || d in dependencies[1..];
    }
  }

  /** They come in declaration order: what an earlier part of the list yields comes first. */
  lemma {:induction false} BlockingInOrder(earlier: seq<string>, later: seq<string>, results: Results)
    ensures Blocking(earlier + later, results) == Blocking(earlier, results) + Blocking(later, results)
    decreases |earlier|
  {
    if earlier == [] {
      assert earlier + later == later;
    } else {
      assert (earlier + later)[1..] == earlier[1..] + later;
      BlockingInOrder(earlier[1..], later, results);
    }
  }

  lemma {:induction false} BlockingAgrees(dependencies: seq<string>, before: Results, after: Results)
    requires forall d :: d in dependencies ==> (ReadyEquivalent(before, d) <==> ReadyEquivalent(after, d))
    ensures Blocking(dependencies, before) == Blocking(dependencies, after)
  {
    if dependencies != [] {
      BlockingAgrees(dependencies[1..], before, after);
    }
  }

  /** The components of `order` that no direct dependency blocks. */
  function Eligible(nodes: Nodes, order: seq<string>, results: Results): seq<string> {
    if order == [] then []
    else
      var last := order[|order| - 1];
      var rest := Eligible(nodes, order[..|order| - 1], results);
      if last in nodes && Blocking(nodes[last], results) == [] then rest + [last] else rest
  }

  /** `result` is what the runner itself builds for a component blocked by `blocking`. */
  predicate BuiltBlocked(result: ComponentResult, id: string, blocking: seq<string>) {
    && result.id == id && result.state == BLOCKED && result.reason == DEPENDENCY_NOT_READY
    && result.blocking == blocking && result.requeueAfter == 0 && result.err.None?
    && result.message == "waiting for dependencies: " + IdsMessage(blocking)
  }

  function IdsMessage(ids: seq<string>): string {
    if ids == [] then ""
    else if |ids| == 1 then ids[0]
    else IdsMessage(ids[..|ids| - 1]) + ", " + ids[|ids| - 1]
  }

  /** The message is the IDs with a comma and a space between any two. */
  lemma {:induction false} IdsMessageJoins(ids: seq<string>)
    ensures IdsMessage(ids) == JoinWith(ids, ", ")
  {
    if |ids| > 1 {
      var last := |ids| - 1;
      IdsMessageJoins(ids[..last]);
      JoinWithLast(ids[..last], ids[last], ", ");
      assert ids == ids[..last] + [ids[last]];
    }
  }

  method ComponentIdsMessage(ids: seq<string>) returns (message: string)
    ensures message == IdsMessage(ids)
  {
    message := "";
    for i := 0 to |ids|
      invariant message == IdsMessage(ids[..i])
    {
      assert ids[..i + 1][..i] == ids[..i];
      if i > 0 {
        message := message + ", ";
      }
      message := message + ids[i];
    }
    assert ids[..|ids|] == ids;
  }

  method BlockedResult(id: string, blocking: seq<string>, message: string, requeueAfter: int)
    returns (r: Option<ComponentResult>)
    ensures r.Some? <==> id != "" && blocking != []
    ensures r.Some? ==>
              r.value == ComponentResult(id, BLOCKED, DEPENDENCY_NOT_READY, message, requeueAfter, blocking, None)
  {
    if id == "" || |blocking| == 0 {
      return None;
    }
    return Some(ComponentResult(id, BLOCKED, DEPENDENCY_NOT_READY, message, requeueAfter, blocking, None));
  }

  /** There is exactly one operation for every component. */
  predicate Matching(nodes: Nodes, operations: map<string, Operation>) {
    |operations| == |nodes| && forall id :: id in operations ==> id in nodes && operations[id] != Missing
  }

  /** The component has the result of its own operation, or was blocked by its dependencies. */
  ghost predicate ExplainedOne(nodes: Nodes, operations: map<string, Operation>, id: string, results: Results) {
    && id in nodes && id in results && ValidResult(id, results[id])
    && (if Blocking(nodes[id], results) == []
        then id in operations && operations[id] == Returns(results[id])
        else BuiltBlocked(results[id], id, Blocking(nodes[id], results)))
  }

  /** Every component in `done` is accounted for. */
  ghost predicate Explained(nodes: Nodes, operations: map<string, Operation>, done: seq<string>, results: Results) {
    forall id :: id in done ==> ExplainedOne(nodes, operations, id, results)
  }

  /** `calls` ends with an operation that failed or broke its contract. */
  ghost predicate Broken(operations: map<string, Operation>, calls: seq<string>) {
    && calls != [] && calls[|calls| - 1] in operations
    && match operations[calls[|calls| - 1]]
       case Missing => false
       case Fails => true
       case Returns(result) => !ValidResult(calls[|calls| - 1], result)
  }

  /**
   Runs the graph in order. On success the operations invoked are exactly those
   eligible under the final results, in order and each once; otherwise nothing ran
   because the operations do not match the graph, or the last one called is at fault.
   */
  method RunComponentOperations(g: Graph, operations: map<string, Operation>)
    returns (r: Option<Results>, calls: seq<string>)
    requires g.Valid()
    ensures !Matching(g.nodes, operations) <==> (r.None? && !Broken(operations, calls))
    ensures !Matching(g.nodes, operations) ==> calls == []
    ensures r.Some? ==>
              && r.value.Keys == g.nodes.Keys
              && Explained(g.nodes, operations, g.order, r.value)
              && calls == Eligible(g.nodes, g.order, r.value) && AllDifferent(calls)
    ensures AllDifferent(calls)
  {
    calls := [];
    if |operations| != |g.nodes| {
      return None, calls;
    }
    var todo := operations.Keys;
    while todo != {}
      invariant todo <= operations.Keys
      invariant forall id :: id in operations.Keys - todo ==> id in g.nodes && operations[id] != Missing
      decreases todo
    {
      var id :| id in todo;
      todo := todo - {id};
      if id !in g.nodes || operations[id] == Missing {
        return None, calls;
      }
    }
    SubsetCount(operations.Keys, g.nodes.Keys);
    GreedyIsTopological(g.nodes, g.order);
    r, calls := RunInOrder(g.nodes, g.order, operations);
  }

  lemma InOrder(nodes: Nodes, order: seq<string>, i: nat)
    requires Topological(nodes, order) && i < |order|
    ensures order[i] in nodes
  {
    assert order[i] in Elements(order);
  }

  lemma NothingRun(nodes: Nodes, operations: map<string, Operation>)
    ensures Explained(nodes, operations, [], map[]) && Eligible(nodes, [], map[]) == []
  {
  }

  /** Runs the operation of the i-th component, or builds its blocked result. */
  method RunOne(nodes: Nodes, order: seq<string>, i: nat, operations: map<string, Operation>, results: Results)
    returns (result: Option<ComponentResult>, called: bool)
    requires WellFormed(nodes) && "" !in nodes && Topological(nodes, order) && i < |order|
    requires order[i] in nodes && operations.Keys == nodes.Keys
             && forall id :: id in operations ==> operations[id] != Missing
    requires results.Keys == Elements(order[..i])
    ensures called <==> Blocking(nodes[order[i]], results) == []
    ensures called ==> (result.None? <==> Broken(operations, [order[i]]))
    ensures result.None? ==> called
    ensures result.Some? ==> ExplainedOne(nodes, operations, order[i], results[order[i] := result.value])
  {
    var id := order[i];
    var blocking := Blocking(nodes[id], results);
    BlockingHolds(nodes[id], results);
    if |blocking| > 0 {
      var text := ComponentIdsMessage(blocking);
      result := BlockedResult(id, blocking, "waiting for dependencies: " + text, 0);
      called := false;
    } else {
      called := true;
      if operations[id] == Fails {
        return None, called;
      }
      var ok := ValidateOperationResult(id, operations[id].result);
      if !ok {
        return None, called;
      }
      result := Some(operations[id].result);
    }
    BlockingAgrees(nodes[id], results, results[id := result.value]);
  }

  /** The loop over the ordered components. */
  method RunInOrder(nodes: Nodes, order: seq<string>, operations: map<string, Operation>)
    returns (r: Option<Results>, calls: seq<string>)
    requires WellFormed(nodes) && "" !in nodes && Topological(nodes, order)
    requires operations.Keys == nodes.Keys && forall id :: id in operations ==> operations[id] != Missing
    ensures r.None? <==> Broken(operations, calls)
    ensures r.Some? ==>
              && r.value.Keys == nodes.Keys
              && Explained(nodes, operations, order, r.value)
              && calls == Eligible(nodes, order, r.value)
    ensures AllDifferent(calls)
  {
    hide ValidResult, Eligible, IdsMessage, AllDifferent, WellFormed, Explained, ExplainedOne, Blocking, Elements;
    NoElements();
    NothingRun(nodes, operations);
    assert order[..0] == [];
    calls := [];
    var results: Results := map[];
    for i := 0 to |order|
      invariant results.Keys == Elements(order[..i])
      invariant Explained(nodes, operations, order[..i], results)
      invariant calls == Eligible(nodes, order[..i], results)
      invariant AllDifferent(calls) && Elements(calls) <= Elements(order[..i])
      invariant !Broken(operations, calls)
    {
      var id := order[i];
      NotBefore(order, i);
      InOrder(nodes, order, i);
      var result, called := RunOne(nodes, order, i, operations, results);
      if called {
        Append(calls, id);
        calls := calls + [id];
      }
      if result.None? {
        return None, calls;
      }
      StepKeeps(nodes, operations, order, i, results, results[id := result.value]);
      results := results[id := result.value];
    }
    assert order[..|order|] == order;
    return Some(results), calls;
  }

  /** A new result blocks or frees nothing placed so far, as dependencies come first. */
  lemma StepBlocks(nodes: Nodes, order: seq<string>, i: nat, before: Results, after: Results)
    requires Topological(nodes, order) && i < |order|
    requires before.Keys == Elements(order[..i]) && after.Keys == before.Keys + {order[i]}
    requires forall id :: id in before ==> after[id] == before[id]
    ensures forall id :: id in order[..i + 1] ==>
              id in nodes && Blocking(nodes[id], before) == Blocking(nodes[id], after)
  {
    forall k | 0 <= k <= i
      ensures order[k] in nodes && Blocking(nodes[order[k]], before) == Blocking(nodes[order[k]], after)
    {
      assert order[k] in Elements(order);
      assert order[..k] <= order[..i];
      BlockingAgrees(nodes[order[k]], before, after);
    }
  }

  lemma StepKeeps(nodes: Nodes, operations: map<string, Operation>, order: seq<string>, i: nat, before: Results,
                  after: Results)
    requires Topological(nodes, order) && i < |order|
    requires before.Keys == Elements(order[..i]) && after.Keys == before.Keys + {order[i]}
    requires forall id :: id in before ==> after[id] == before[id]
    requires Explained(nodes, operations, order[..i], before)
    requires ExplainedOne(nodes, operations, order[i], before[order[i] := after[order[i]]])
    ensures Explained(nodes, operations, order[..i + 1], after)
    ensures Eligible(nodes, order[..i + 1], after)
         == Eligible(nodes, order[..i], before) + if Blocking(nodes[order[i]], before) == [] then [order[i]] else []
  {
    hide ValidResult, BuiltBlocked, Blocking, Topological;
    assert order[..i + 1] == order[..i] + [order[i]];
    assert after == before[order[i] := after[order[i]]];
    StepBlocks(nodes, order, i, before, after);
    EligibleAgrees(nodes, order[..i], before, after);
  }

  lemma {:induction false} EligibleAgrees(nodes: Nodes, order: seq<string>, before: Results, after: Results)
    requires forall id :: id in order ==> id in nodes && Blocking(nodes[id], before) == Blocking(nodes[id], after)
    ensures Eligible(nodes, order, before) == Eligible(nodes, order, after)
  {
    if order != [] {
      EligibleAgrees(nodes, order[..|order| - 1], before, after);
    }
  }

  // ----- what a finished pass means -----

  /** `walk` leads along dependencies from `from` to `to`. */
  ghost predicate Leads(nodes: Nodes, walk: seq<string>, from: string, to: string) {
    |walk| >= 2 && walk[0] == from && walk[|walk| - 1] == to && Walk(nodes, walk)
  }

  /** Whatever depends, directly or not, on a component that is not ready is blocked. */
  lemma {:induction false} DependantsAreBlocked(nodes: Nodes, operations: map<string, Operation>, order: seq<string>,
                                                results: Results, walk: seq<string>, from: string, to: string)
    requires Elements(order) == nodes.Keys && Explained(nodes, operations, order, results)
    requires Leads(nodes, walk, from, to) && from in nodes && to in nodes && results[to].state != READY
    ensures results[from].state == BLOCKED && Blocking(nodes[from], results) != []
    decreases |walk|
  {
    assert from in order && to in order && walk[1] in nodes[walk[0]];
    BlockingHolds(nodes[from], results);
    if |walk| > 2 {
      assert walk[1] in nodes;
      DependantsAreBlocked(nodes, operations, order, results, walk[1..], walk[1], to);
    }
    assert walk[1] in Blocking(nodes[from], results);
  }

  /**
   Every component the runner blocked depends, directly or not, on one whose own
   operation ran and reported something other than ready.
   */
  lemma {:induction false} BlockedHasRootCause(nodes: Nodes, operations: map<string, Operation>, order: seq<string>,
                                               results: Results, k: nat) returns (walk: seq<string>, cause: string)
    requires Topological(nodes, order) && Explained(nodes, operations, order, results)
    requires k < |order| && Blocking(nodes[order[k]], results) != []
    ensures Leads(nodes, walk, order[k], cause) && cause in order
    ensures Blocking(nodes[cause], results) == [] && operations[cause] == Returns(results[cause])
            && results[cause].state != READY
    decreases k
  {
    var id := order[k];
    BlockingHolds(nodes[id], results);
    var d := Blocking(nodes[id], results)[0];
    assert d in order[..k];
    var j: nat :| j < k && order[..k][j] == d;
    assert d in order;
    if Blocking(nodes[d], results) == [] {
      walk, cause := [id, d], d;
      assert ExplainedOne(nodes, operations, d, results);
    } else {
      var rest;
      rest, cause := BlockedHasRootCause(nodes, operations, order, results, j);
      walk := [id] + rest;
      LeadsLonger(nodes, rest, id, d, cause);
    }
  }

  lemma LeadsLonger(nodes: Nodes, rest: seq<string>, id: string, d: string, to: string)
    requires Leads(nodes, rest, d, to) && id in nodes && d in nodes[id]
    ensures Leads(nodes, [id] + rest, id, to)
  {
    var walk := [id] + rest;
    forall k | 0 <= k < |walk| - 1
      ensures walk[k] in nodes && walk[k + 1] in nodes[walk[k]]
    {
      assert k > 0 ==> walk[k] == rest[k - 1] && walk[k + 1] == rest[k];
    }
  }

  // ----- what the platform reports from the results -----

  datatype Phase = Failed | NotReady | AllReady

  /** Failed when some component is degraded, ready when none is waiting. */
  method AggregateComponentPhase(results: Results) returns (phase: Phase)
    ensures phase == Failed <==> exists id :: id in results && results[id].state == DEGRADED
    ensures phase == AllReady <==> forall id :: id in results ==> results[id].state !in {DEGRADED, PROGRESSING, BLOCKED}
  {
    var hasProgressing := false;
    var todo := results.Keys;
    while todo != {}
      invariant todo <= results.Keys
      invariant forall id :: id in results.Keys - todo ==> results[id].state != DEGRADED
      invariant hasProgressing <==>
                  exists id :: id in results.Keys - todo && results[id].state in {PROGRESSING, BLOCKED}
      decreases todo
    {
      var id :| id in todo;
      if results[id].state == DEGRADED {
        return Failed;
      }
      ghost var before := results.Keys - todo;
      todo := todo - {id};
      assert results.Keys - todo == before + {id};
      if results[id].state == PROGRESSING || results[id].state == BLOCKED {
        hasProgressing := true;
      }
    }
    return if hasProgressing then NotReady else AllReady;
  }

  /** The smallest positive delay requested, or zero when none is. */
  method EarliestComponentRequeue(results: Results) returns (earliest: int)
    ensures earliest == 0 <==> forall id :: id in results ==> results[id].requeueAfter <= 0
    ensures earliest != 0 ==> earliest > 0 && exists id :: id in results && results[id].requeueAfter == earliest
    ensures forall id :: id in results && results[id].requeueAfter > 0 ==> earliest <= results[id].requeueAfter
  {
    earliest := 0;
    var todo := results.Keys;
    while todo != {}
      invariant todo <= results.Keys && earliest >= 0
      invariant earliest == 0 <==> forall id :: id in results.Keys - todo ==> results[id].requeueAfter <= 0
      invariant earliest != 0 ==> exists id :: id in results && results[id].requeueAfter == earliest
      invariant forall id :: id in results.Keys - todo && results[id].requeueAfter > 0 ==>
                  earliest <= results[id].requeueAfter
      decreases todo
    {
      var id :| id in todo;
      ghost var before := results.Keys - todo;
      todo := todo - {id};
      assert results.Keys - todo == before + {id};
      if results[id].requeueAfter > 0 && (earliest == 0 || results[id].requeueAfter < earliest) {
        earliest := results[id].requeueAfter;
      }
    }
  }
}
