/**
 Dependency graphs of components: topological orders, cycles, and the one order
 in which every step takes the least component that is ready.
 */
module LifecycleOrder {
  import opened Sequences
  import opened Ordering

  /** The declared dependencies of each component, by component ID. */
  type Nodes = map<string, seq<string>>

  /** Dependencies name components of the graph, each once. */
  ghost predicate WellFormed(nodes: Nodes) {
    forall id :: id in nodes ==> AllDifferent(nodes[id]) && forall d :: d in nodes[id] ==> d in nodes
  }

  /** A walk along dependencies that ends where it began. */
  ghost predicate Cycle(nodes: Nodes, walk: seq<string>) {
    |walk| >= 2 && walk[0] == walk[|walk| - 1] && Walk(nodes, walk)
  }

  ghost predicate Walk(nodes: Nodes, walk: seq<string>) {
    forall k :: 0 <= k < |walk| - 1 ==> walk[k] in nodes && walk[k + 1] in nodes[walk[k]]
  }

  /** Every component once, each after all its dependencies. */
  ghost predicate Topological(nodes: Nodes, order: seq<string>) {
    && AllDifferent(order) && Elements(order) == nodes.Keys
    && (forall k :: 0 <= k < |order| ==> order[k] in nodes ==> forall d :: d in nodes[order[k]] ==> d in order[..k])
  }

  /** `id` is not placed yet and all its dependencies are. */
  ghost predicate ReadyAfter(nodes: Nodes, placed: seq<string>, id: string) {
    id in nodes && id !in placed && forall d :: d in nodes[id] ==> d in placed
  }

  ghost predicate LeastReady(nodes: Nodes, placed: seq<string>, id: string) {
    ReadyAfter(nodes, placed, id) && forall x :: ReadyAfter(nodes, placed, x) ==> x == id || Smaller(id, x)
  }

  /** Each placed component was the least one ready at its turn. */
  ghost predicate Greedy(nodes: Nodes, order: seq<string>) {
    forall k :: 0 <= k < |order| ==> LeastReady(nodes, order[..k], order[k])
  }

  lemma GreedyDifferent(nodes: Nodes, order: seq<string>)
    requires Greedy(nodes, order)
    ensures AllDifferent(order) && Elements(order) <= nodes.Keys
  {
    forall i, j | 0 <= i < j < |order|
      ensures order[i] != order[j]
    {
      assert LeastReady(nodes, order[..j], order[j]);
      assert order[i] in order[..j];
    }
  }

  lemma PlacedDependencies(nodes: Nodes, order: seq<string>, id: string)
    requires Greedy(nodes, order) && id in order
    ensures id in nodes && forall d :: d in nodes[id] ==> d in order
  {
    var k :| 0 <= k < |order| && order[k] == id;
    assert LeastReady(nodes, order[..k], order[k]);
  }

  lemma GreedyExtends(nodes: Nodes, order: seq<string>, id: string)
    requires Greedy(nodes, order) && LeastReady(nodes, order, id)
    ensures Greedy(nodes, order + [id])
  {
    forall k | 0 <= k < |order + [id]|
      ensures LeastReady(nodes, (order + [id])[..k], (order + [id])[k])
    {
      assert (order + [id])[..k] == order[..k];
      assert order[..|order|] == order;
    }
  }

  /** A complete greedy order is topological. */
  lemma GreedyIsTopological(nodes: Nodes, order: seq<string>)
    requires Greedy(nodes, order) && |order| == |nodes|
    ensures Topological(nodes, order)
  {
    GreedyDifferent(nodes, order);
    DifferentCount(order);
    SubsetCount(Elements(order), nodes.Keys);
    forall k | 0 <= k < |order|
      ensures forall d :: d in nodes[order[k]] ==> d in order[..k]
    {
      assert LeastReady(nodes, order[..k], order[k]);
    }
  }

  /**
   The greedy order is the lexicographically least topological order: any other
   one is greater at the first position where the two differ.
   */
  lemma GreedyIsLeast(nodes: Nodes, order: seq<string>, other: seq<string>)
    requires Greedy(nodes, order) && |order| == |nodes|
    requires Topological(nodes, other) && other != order
    ensures LexLess(order, other)
  {
    DifferentCount(other);
    var k := FirstDifference(order, other);
    assert other[..k] == order[..k];
    assert ReadyAfter(nodes, other[..k], other[k]);
    assert LeastReady(nodes, order[..k], order[k]);
  }

  /** Topological, and smaller than every other topological order. */
  ghost predicate LeastTopological(nodes: Nodes, order: seq<string>) {
    Topological(nodes, order) && forall other :: Topological(nodes, other) && other != order ==> LexLess(order, other)
  }

  lemma GreedyIsLeastTopological(nodes: Nodes, order: seq<string>)
    requires Greedy(nodes, order) && |order| == |nodes|
    ensures Topological(nodes, order) && LeastTopological(nodes, order)
  {
    GreedyIsTopological(nodes, order);
    forall other | Topological(nodes, other) && other != order
      ensures LexLess(order, other)
    {
      GreedyIsLeast(nodes, order, other);
    }
  }

  lemma {:induction false} FirstDifference(s: seq<string>, t: seq<string>) returns (k: nat)
    requires |s| == |t| && s != t
    ensures k < |s| && s[..k] == t[..k] && s[k] != t[k]
  {
    k := 0;
    while s[k] == t[k]
      invariant k < |s| && s[..k] == t[..k]
      decreases |s| - k
    {
      k := k + 1;
    }
  }

  /** No two greedy orders of the same graph differ, whatever led to them. */
  lemma GreedyIsUnique(nodes: Nodes, order: seq<string>, other: seq<string>)
    requires Greedy(nodes, order) && |order| == |nodes|
    requires Greedy(nodes, other) && |other| == |nodes|
    ensures order == other
  {
    if order != other {
      GreedyIsTopological(nodes, order);
      GreedyIsTopological(nodes, other);
      GreedyIsLeast(nodes, order, other);
      GreedyIsLeast(nodes, other, order);
      LexLessAsymmetric(order, other);
    }
  }

  /** A graph with a topological order has no cycle. */
  lemma TopologicalHasNoCycle(nodes: Nodes, order: seq<string>, walk: seq<string>)
    requires Topological(nodes, order)
    ensures !Cycle(nodes, walk)
  {
    if Cycle(nodes, walk) {
      var at := Position(order, walk[0]);
      var k := 0;
      var here := at;
      while k < |walk| - 1
        invariant 0 <= k <= |walk| - 1
        invariant 0 <= here < |order| && order[here] == walk[k]
        invariant here <= at && (k > 0 ==> here < at)
      {
        assert order[here] in nodes;
        assert walk[k + 1] in order[..here];
        here := Position(order[..here], walk[k + 1]);
        k := k + 1;
      }
    }
  }

  lemma Position(s: seq<string>, x: string) returns (k: nat)
    requires x in Elements(s) || x in s
    ensures k < |s| && s[k] == x
  {
    k :| 0 <= k < |s| && s[k] == x;
  }

  /** When nothing is ready but something is left, following dependencies runs into a cycle. */
  lemma StuckHasCycle(nodes: Nodes, placed: seq<string>) returns (walk: seq<string>)
    requires WellFormed(nodes)
    requires forall id :: !ReadyAfter(nodes, placed, id)
    requires exists id :: id in nodes && id !in placed
    ensures Cycle(nodes, walk)
  {
    var left := nodes.Keys - Elements(placed);
    var start :| start in nodes && start !in placed;
    var path := [start];
    while |path| <= |left|
      invariant |path| > 0 && Walk(nodes, path) && forall x :: x in path ==> x in left
    {
      var last := path[|path| - 1];
      assert last in left && !ReadyAfter(nodes, placed, last);
      var next :| next in nodes[last] && next !in placed;
      assert next in left;
      path := path + [next];
    }
    var i, j := Pigeonhole(path, left);
    walk := path[i..j + 1];
  }
}
