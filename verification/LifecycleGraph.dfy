/** Building the lifecycle graph: validation, then Kahn's algorithm over a sorted ready list. */
module LifecycleGraph {
  import opened Wrappers
  import opened Sequences
  import opened Ordering
  import opened LifecycleOrder

  datatype Node = Node(id: string, dependencies: seq<string>)

  datatype GraphError = EmptyId | DuplicateNode | UnknownDependency | DuplicateDependency | HasCycle

  function Ids(nodes: seq<Node>): (ids: seq<string>)
    ensures |ids| == |nodes| && forall i :: 0 <= i < |nodes| ==> ids[i] == nodes[i].id
  {
    seq(|nodes|, i requires 0 <= i < |nodes| => nodes[i].id)
  }

  /** `graph` records the dependencies of each listed node. */
  ghost predicate Records(graph: Nodes, nodes: seq<Node>) {
    && graph.Keys == Elements(Ids(nodes))
    && (forall i :: 0 <= i < |nodes| ==> nodes[i].id in graph && graph[nodes[i].id] == nodes[i].dependencies)
  }

  /** What a node list has to satisfy to be a lifecycle graph. */
  ghost predicate Accepted(nodes: seq<Node>) {
    && (forall n :: n in nodes ==> n.id != "")
    && AllDifferent(Ids(nodes))
    && (forall n :: n in nodes ==> AllDifferent(n.dependencies) && forall d :: d in n.dependencies ==> d in Ids(nodes))
    && (forall graph, walk :: Records(graph, nodes) ==> !Cycle(graph, walk))
  }

  function Get(m: map<string, seq<string>>, key: string): seq<string> {
    if key in m then m[key] else []
  }

  /** The dependencies of `id` that are not placed yet. */
  function Missing(nodes: Nodes, placed: seq<string>, id: string): set<string>
    requires id in nodes
  {
    set d | d in nodes[id] && d !in placed
  }

  /** `dependants` lists, for every component, those that depend on it, each once. */
  ghost predicate Inverts(nodes: Nodes, counted: set<string>, dependants: map<string, seq<string>>) {
    forall d :: AllDifferent(Get(dependants, d))
      && forall x :: x in Get(dependants, d) <==> x in counted && x in nodes && d in nodes[x]
  }

  ghost predicate Counts(nodes: Nodes, placed: seq<string>, remaining: map<string, int>) {
    remaining.Keys == nodes.Keys && forall id :: id in nodes ==> remaining[id] == |Missing(nodes, placed, id)|
  }

  /** `ready` lists exactly the components that are ready after `placed`, each once. */
  ghost predicate ListsReady(nodes: Nodes, placed: seq<string>, ready: seq<string>) {
    AllDifferent(ready) && forall id :: id in ready <==> ReadyAfter(nodes, placed, id)
  }

  lemma {:induction false} NothingMissing(nodes: Nodes, id: string)
    requires id in nodes && AllDifferent(nodes[id])
    ensures |Missing(nodes, [], id)| == |nodes[id]|
  {
    assert Missing(nodes, [], id) == Elements(nodes[id]);
    DifferentCount(nodes[id]);
  }

  lemma MissingAfter(nodes: Nodes, placed: seq<string>, x: string, id: string)
    requires id in nodes && x !in placed
    ensures Missing(nodes, placed + [x], id) == Missing(nodes, placed, id) - {x}
    ensures |Missing(nodes, placed + [x], id)| == |Missing(nodes, placed, id)| - if x in nodes[id] then 1 else 0
  {
    assert Missing(nodes, placed + [x], id) == Missing(nodes, placed, id) - {x};
    assert x in Missing(nodes, placed, id) <==> x in nodes[id];
  }

  /** A sorted ready list starts with the least ready component. */
  lemma HeadIsLeast(nodes: Nodes, placed: seq<string>, ready: seq<string>, sorted: seq<string>)
    requires ListsReady(nodes, placed, ready) && ready != []
    requires multiset(sorted) == multiset(ready) && Sorted(sorted)
    ensures |sorted| == |ready| && LeastReady(nodes, placed, sorted[0])
    ensures ListsReady(nodes, placed, sorted)
  {
    SameElements(ready, sorted);
    forall x | ReadyAfter(nodes, placed, x)
      ensures x == sorted[0] || Smaller(sorted[0], x)
    {
      assert x in sorted;
    }
    assert sorted[0] in ready;
  }

  lemma SplitReady(nodes: Nodes, placed: seq<string>, ready: seq<string>)
    requires ready != [] && ListsReady(nodes, placed, ready)
    ensures ListsReady(nodes, placed, [ready[0]] + ready[1..])
  {
    assert [ready[0]] + ready[1..] == ready;
  }

  lemma LeastIsNew(nodes: Nodes, placed: seq<string>, id: string)
    requires LeastReady(nodes, placed, id)
    ensures id in nodes && id !in Elements(placed)
  {
  }

  lemma GreedyStart(nodes: Nodes)
    ensures Greedy(nodes, [])
  {
  }

  /** With nothing ready and something left, the graph has a cycle. */
  lemma StoppedShort(nodes: Nodes, order: seq<string>)
    requires WellFormed(nodes) && Greedy(nodes, order) && ListsReady(nodes, order, [])
    ensures |order| != |nodes| ==> exists walk :: Cycle(nodes, walk)
  {
    if |order| != |nodes| {
      GreedyDifferent(nodes, order);
      DifferentCount(order);
      assert Elements(order) != nodes.Keys;
      assert forall id :: id !in [] ==> !ReadyAfter(nodes, order, id);
      var walk := StuckHasCycle(nodes, order);
    }
  }

  class Graph {
    var nodes: Nodes
    var order: seq<string>

    ghost predicate Valid() reads this {
      && WellFormed(nodes) && "" !in nodes
      && Greedy(nodes, order) && |order| == |nodes|
    }

    constructor (nodes: Nodes)
      ensures this.nodes == nodes && order == []
    {
      this.nodes := nodes;
      order := [];
    }

    /** Lists `id` under each of its dependencies. */
    static method AddDependant(dependants: map<string, seq<string>>, deps: seq<string>, id: string)
      returns (r: map<string, seq<string>>)
      requires AllDifferent(deps)
      ensures forall d :: Get(r, d) == if d in deps then Get(dependants, d) + [id] else Get(dependants, d)
    {
      r := dependants;
      for i := 0 to |deps|
        invariant forall d :: Get(r, d) == if d in deps[..i] then Get(dependants, d) + [id] else Get(dependants, d)
      {
        assert deps[..i + 1] == deps[..i] + [deps[i]] && deps[i] !in deps[..i];
        r := r[deps[i] := Get(r, deps[i]) + [id]];
      }
      assert deps[..|deps|] == deps;
    }

    /** Counts the dependencies of every component and inverts the dependency lists. */
    method CountDependencies() returns (remaining: map<string, int>, dependants: map<string, seq<string>>)
      requires WellFormed(nodes)
      ensures Counts(nodes, [], remaining) && Inverts(nodes, nodes.Keys, dependants)
    {
      remaining, dependants := map[], map[];
      var todo := nodes.Keys;
      while todo != {}
        invariant todo <= nodes.Keys && remaining.Keys == nodes.Keys - todo
        invariant forall id :: id in remaining ==> remaining[id] == |Missing(nodes, [], id)|
        invariant Inverts(nodes, nodes.Keys - todo, dependants)
        decreases todo
      {
        var id :| id in todo;
        var deps := nodes[id];
        NothingMissing(nodes, id);
        remaining := remaining[id := |deps|];
        ghost var before := dependants;
        dependants := AddDependant(dependants, deps, id);
        InvertOne(nodes, nodes.Keys - todo, before, dependants, id);
        assert nodes.Keys - (todo - {id}) == nodes.Keys - todo + {id};
        todo := todo - {id};
      }
    }

    method InitiallyReady(remaining: map<string, int>) returns (ready: seq<string>)
      requires Counts(nodes, [], remaining)
      ensures ListsReady(nodes, [], ready)
    {
      ready := [];
      var todo := remaining.Keys;
      while todo != {}
        invariant todo <= nodes.Keys && AllDifferent(ready)
        invariant forall id :: id in ready <==> id in nodes.Keys - todo && ReadyAfter(nodes, [], id)
        decreases todo
      {
        var id :| id in todo;
        assert id !in ready;
        todo := todo - {id};
        MissingNone(nodes, [], id);
        if remaining[id] == 0 {
          ready := ready + [id];
        }
      }
    }

    /** Fills `order`, failing when some components can never become ready. */
    method SetOrder() returns (ok: bool)
      requires WellFormed(nodes) && order == []
      modifies this`order
      ensures Greedy(nodes, order)
      ensures ok <==> |order| == |nodes|
      ensures !ok ==> exists walk :: Cycle(nodes, walk)
    {
      hide Counts, Inverts, ListsReady, Greedy, LeastReady, WellFormed, ReadyAfter, Sorted, AllDifferent, Cycle;
      GreedyStart(nodes);
      var remaining, dependants := CountDependencies();
      var ready := InitiallyReady(remaining);
      while |ready| > 0
        invariant Greedy(nodes, order)
        invariant Counts(nodes, order, remaining) && Inverts(nodes, nodes.Keys, dependants)
        invariant ListsReady(nodes, order, ready)
        decreases nodes.Keys - Elements(order)
      {
        var sorted := Sort(ready);
        HeadIsLeast(nodes, order, ready, sorted);
        var id := sorted[0];
        GreedyExtends(nodes, order, id);
        ghost var placed := order;
        order := order + [id];
        LeastIsNew(nodes, placed, id);
        SplitReady(nodes, placed, sorted);
        remaining, ready := Release(remaining, Get(dependants, id), sorted[1..], placed, id, dependants);
        assert Elements(order) == Elements(placed) + {id};
      }
      assert ready == [];
      StoppedShort(nodes, order);
      return |order| == |nodes|;
    }

    /** Takes the placed component off the counts of its dependants; those at zero become ready. */
    method Release(remaining0: map<string, int>, dependants: seq<string>, ready0: seq<string>,
                   ghost placed: seq<string>, ghost id: string, ghost inverse: map<string, seq<string>>)
      returns (remaining: map<string, int>, ready: seq<string>)
      requires WellFormed(nodes) && Greedy(nodes, placed) && LeastReady(nodes, placed, id)
      requires Counts(nodes, placed, remaining0)
      requires Inverts(nodes, nodes.Keys, inverse) && dependants == Get(inverse, id)
      requires ListsReady(nodes, placed, [id] + ready0)
      ensures Counts(nodes, placed + [id], remaining) && ListsReady(nodes, placed + [id], ready)
    {
      hide WellFormed, Greedy, LeastReady, Counts, Inverts, ListsReady;
      remaining, ready := remaining0, ready0;
      ReleaseStart(nodes, placed, id, remaining0, ready0, inverse);
      for i := 0 to |dependants|
        invariant remaining.Keys == nodes.Keys
        invariant forall x :: x in nodes ==> remaining[x] == remaining0[x] - if x in dependants[..i] then 1 else 0
        invariant AllDifferent(ready)
        invariant forall x :: x in ready <==> x in ready0 || (x in dependants[..i] && remaining[x] == 0)
      {
        var x := dependants[i];
        assert dependants[..i + 1] == dependants[..i] + [x];
        assert x in nodes && x !in dependants[..i] && x !in ready0;
        remaining := remaining[x := remaining[x] - 1];
        if remaining[x] == 0 {
          ready := ready + [x];
        }
      }
      assert dependants[..|dependants|] == dependants;
      ReleaseCounts(nodes, placed, id, dependants, remaining0, remaining);
      ReleaseReady(nodes, placed, id, dependants, remaining, ready0, ready);
    }
  }

  lemma MissingNone(nodes: Nodes, placed: seq<string>, id: string)
    requires id in nodes
    ensures |Missing(nodes, placed, id)| == 0 <==> forall d :: d in nodes[id] ==> d in placed
  {
    if |Missing(nodes, placed, id)| != 0 {
      var d :| d in Missing(nodes, placed, id);
    } else {
      assert forall d :: d in nodes[id] && d !in placed ==> d in Missing(nodes, placed, id);
    }
  }

  lemma InvertOne(nodes: Nodes, counted: set<string>, before: map<string, seq<string>>,
                  after: map<string, seq<string>>, id: string)
    requires id in nodes && id !in counted && Inverts(nodes, counted, before)
    requires forall d :: Get(after, d) == if d in nodes[id] then Get(before, d) + [id] else Get(before, d)
    ensures Inverts(nodes, counted + {id}, after)
  {
    forall d
      ensures AllDifferent(Get(after, d))
      ensures forall x :: x in Get(after, d) <==> x in counted + {id} && x in nodes && d in nodes[x]
    {
      assert id !in Get(before, d);
    }
  }

  /** The dependants are distinct, and none of them was ready. */
  lemma ReleaseStart(nodes: Nodes, placed: seq<string>, id: string, remaining: map<string, int>,
                     ready: seq<string>, inverse: map<string, seq<string>>)
    requires LeastReady(nodes, placed, id) && Counts(nodes, placed, remaining)
    requires Inverts(nodes, nodes.Keys, inverse) && ListsReady(nodes, placed, [id] + ready)
    ensures remaining.Keys == nodes.Keys && id !in placed
    ensures AllDifferent(ready) && AllDifferent(Get(inverse, id))
    ensures forall x :: x in Get(inverse, id) <==> x in nodes && id in nodes[x]
    ensures forall x :: x in Get(inverse, id) ==> x !in ready
  {
    forall i, j | 0 <= i < j < |ready|
      ensures ready[i] != ready[j]
    {
      assert ([id] + ready)[i + 1] == ready[i] && ([id] + ready)[j + 1] == ready[j];
    }
    forall x | x in ready
      ensures ReadyAfter(nodes, placed, x)
    {
      assert x in [id] + ready;
    }
  }

  lemma ReleaseCounts(nodes: Nodes, placed: seq<string>, id: string, dependants: seq<string>,
                      remaining0: map<string, int>, remaining: map<string, int>)
    requires Counts(nodes, placed, remaining0) && id !in placed
    requires forall x :: x in dependants <==> x in nodes && id in nodes[x]
    requires remaining.Keys == nodes.Keys
    requires forall x :: x in nodes ==> remaining[x] == remaining0[x] - if x in dependants then 1 else 0
    ensures Counts(nodes, placed + [id], remaining)
  {
    forall x | x in nodes
      ensures remaining[x] == |Missing(nodes, placed + [id], x)|
    {
      MissingAfter(nodes, placed, id, x);
    }
  }

  lemma ReleaseReady(nodes: Nodes, placed: seq<string>, id: string, dependants: seq<string>,
                     remaining: map<string, int>, ready0: seq<string>, ready: seq<string>)
    requires Greedy(nodes, placed) && ListsReady(nodes, placed, [id] + ready0)
    requires Counts(nodes, placed + [id], remaining)
    requires forall x :: x in dependants <==> x in nodes && id in nodes[x]
    requires AllDifferent(ready)
    requires forall x :: x in ready <==> x in ready0 || (x in dependants && remaining[x] == 0)
    ensures ListsReady(nodes, placed + [id], ready)
  {
    assert id in [id] + ready0;
    forall k | 0 <= k < |ready0|
      ensures ready0[k] != id
    {
      assert ([id] + ready0)[0] == id && ([id] + ready0)[k + 1] == ready0[k];
    }
    forall x
      ensures x in ready <==> ReadyAfter(nodes, placed + [id], x)
    {
      assert ReadyAfter(nodes, placed, id);
      assert x in ready0 <==> ReadyAfter(nodes, placed, x) && x != id by {
        assert x in [id] + ready0 <==> x == id || x in ready0;
        assert x in [id] + ready0 <==> ReadyAfter(nodes, placed, x);
      }
      assert forall d :: d in placed + [id] <==> d in placed || d == id;
      if x in nodes {
        MissingNone(nodes, placed + [id], x);
        if x in placed {
          PlacedDependencies(nodes, placed, x);
        }
      }
    }
  }

  /** Builds the graph, or reports the first thing found wrong with the list. */
  method NewLifecycleGraph(nodes: seq<Node>) returns (r: Result<Graph, GraphError>)
    ensures r.Success? <==> Accepted(nodes)
    ensures r.Success? ==> fresh(r.value) && r.value.Valid() && Records(r.value.nodes, nodes)
    ensures r.Success? ==> LeastTopological(r.value.nodes, r.value.order)
    ensures r.Failure? && r.error == HasCycle ==>
              exists graph, walk :: Records(graph, nodes) && WellFormed(graph) && Cycle(graph, walk)
  {
    var graph, idErr := CollectNodes(nodes);
    hide WellFormed, Cycle, Greedy, Topological, LeastTopological, Records;
    if idErr.Some? {
      return Failure(idErr.value);
    }
    var err := CheckDependencies(graph, nodes);
    if err.Some? {
      return Failure(err.value);
    }
    var g := new Graph(graph);
    var ok := g.SetOrder();
    if !ok {
      return Failure(HasCycle);
    }
    GreedyIsLeastTopological(g.nodes, g.order);
    NoCycleRecorded(graph, nodes, g.order);
    return Success(g);
  }

  /** Gathers the nodes by ID, refusing empty and repeated IDs. */
  method CollectNodes(nodes: seq<Node>) returns (graph: Nodes, err: Option<GraphError>)
    ensures err.None? <==> (forall n :: n in nodes ==> n.id != "") && AllDifferent(Ids(nodes))
    ensures err.None? ==> Records(graph, nodes) && "" !in graph
    ensures err != Some(HasCycle)
  {
    hide Records, AllDifferent;
    graph := map[];
    NothingRecorded();
    assert nodes[..0] == [];
    for i := 0 to |nodes|
      invariant Records(graph, nodes[..i]) && AllDifferent(Ids(nodes[..i])) && "" !in graph
      invariant forall n :: n in nodes[..i] ==> n.id != ""
    {
      var node := nodes[i];
      if node.id == "" {
        assert node in nodes;
        return graph, Some(EmptyId);
      }
      RecordOne(graph, nodes, i);
      if node.id in graph {
        return graph, Some(DuplicateNode);
      }
      assert nodes[..i + 1] == nodes[..i] + [node];
      graph := graph[node.id := node.dependencies];
    }
    assert nodes[..|nodes|] == nodes;
    err := None;
  }

  lemma NothingRecorded()
    ensures Records(map[], []) && AllDifferent(Ids([]))
  {
  }

  lemma RecordOne(graph: Nodes, nodes: seq<Node>, i: nat)
    requires i < |nodes| && Records(graph, nodes[..i]) && AllDifferent(Ids(nodes[..i]))
    ensures nodes[i].id !in graph ==>
              Records(graph[nodes[i].id := nodes[i].dependencies], nodes[..i + 1]) && AllDifferent(Ids(nodes[..i + 1]))
    ensures nodes[i].id in graph ==> !AllDifferent(Ids(nodes))
  {
    assert Ids(nodes[..i + 1]) == Ids(nodes[..i]) + [nodes[i].id];
    if nodes[i].id in graph {
      var k: nat :| k < i && Ids(nodes[..i])[k] == nodes[i].id;
      assert Ids(nodes)[k] == Ids(nodes)[i];
    }
  }

  /** A recorded graph with a topological order has no cycle, however it is recorded. */
  lemma NoCycleRecorded(graph: Nodes, nodes: seq<Node>, order: seq<string>)
    requires Records(graph, nodes) && Topological(graph, order)
    ensures forall other, walk :: Records(other, nodes) ==> !Cycle(other, walk)
  {
    forall other, walk | Records(other, nodes)
      ensures !Cycle(other, walk)
    {
      RecordsUnique(graph, other, nodes);
      TopologicalHasNoCycle(graph, order, walk);
    }
  }

  lemma RecordsUnique(a: Nodes, b: Nodes, nodes: seq<Node>)
    requires Records(a, nodes) && Records(b, nodes)
    ensures a == b
  {
    forall id | id in a
      ensures a[id] == b[id]
    {
      var i :| 0 <= i < |nodes| && Ids(nodes)[i] == id;
    }
  }

  /** Every dependency is known and named once. */
  method CheckDependencies(graph: Nodes, ghost nodes: seq<Node>) returns (err: Option<GraphError>)
    requires Records(graph, nodes)
    ensures err != Some(HasCycle)
    ensures err.None? <==> WellFormed(graph)
    ensures err.None? <==>
              forall n :: n in nodes ==>
                AllDifferent(n.dependencies) && forall d :: d in n.dependencies ==> d in Ids(nodes)
  {
    var todo := graph.Keys;
    while todo != {}
      invariant todo <= graph.Keys
      invariant forall id :: id in graph.Keys - todo ==>
                  AllDifferent(graph[id]) && forall d :: d in graph[id] ==> d in graph
      decreases todo
    {
      var id :| id in todo;
      todo := todo - {id};
      var deps := graph[id];
      ghost var n: nat :| n < |nodes| && Ids(nodes)[n] == id;
      var seen: set<string> := {};
      for i := 0 to |deps|
        invariant seen == Elements(deps[..i]) && AllDifferent(deps[..i])
        invariant forall d :: d in deps[..i] ==> d in graph
      {
        if deps[i] !in graph {
          assert deps[i] in nodes[n].dependencies && deps[i] !in Ids(nodes);
          return Some(UnknownDependency);
        }
        if deps[i] in seen {
          var k: nat :| k < i && deps[..i][k] == deps[i];
          assert deps[k] == deps[i];
          assert !AllDifferent(nodes[n].dependencies);
          return Some(DuplicateDependency);
        }
        assert deps[..i + 1] == deps[..i] + [deps[i]];
        seen := seen + {deps[i]};
      }
      assert deps[..|deps|] == deps;
    }
    forall n | n in nodes
      ensures AllDifferent(n.dependencies) && forall d :: d in n.dependencies ==> d in Ids(nodes)
    {
      var k :| 0 <= k < |nodes| && nodes[k] == n;
    }
    return None;
  }
}
