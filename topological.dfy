/**
 * Depth-first topological sort with cycle detection over an adjacency map,
 * as done by the class TopologicalSort of org.voidzero.influx.
 *
 * Conventions of the model:
 *  - the iteration order of `graph.keySet()` is the constant `keys`;
 *  - `recursionStack.stream().findFirst()` is the constant `findFirst`, an
 *    arbitrary but fixed choice made from the set it is given;
 *  - the ghost field `path` is the chain of `dfs` frames that are still
 *    active, outermost first; `recursionStack` is proved to hold exactly
 *    its vertices.
 */
module Topological {

  import opened Sequences

  /** The result of `topologicalSort()`: the list it returns, told apart by
      `cycleDetected`, or the error that ends it instead of a return. */
  datatype Outcome<T> =
    | Ordered(order: seq<T>)
    | Cycle(nodes: seq<T>)
    | OutOfMemory   // the cycle loop appends to `cycleNodes` without end

  /** How a call of `dfs` ends: `false`, `true`, or not at all (the cycle
      loop keeps appending the same vertex). */
  datatype Visit = Finished | CycleClosed | Runaway

  /** `graph.getOrDefault(v, emptyList())`: a vertex that is not a key is a sink. */
  function Neighbors<T>(graph: map<T, seq<T>>, v: T): seq<T>
  {
    if v in graph then graph[v] else []
  }

  /** Every vertex the search can meet: the keys and everything a key lists. */
  ghost function Vertices<T>(graph: map<T, seq<T>>): set<T>
  {
    graph.Keys + (set u, v | u in graph && v in graph[u] :: v)
  }

  /** Each element is a neighbour of the one before it. */
  ghost predicate IsWalk<T>(graph: map<T, seq<T>>, p: seq<T>)
  {
    forall i :: 0 <= i < |p| - 1 ==> p[i + 1] in Neighbors(graph, p[i])
  }

  /** A closed walk along edges: `c[0] -> c[1] -> ... -> c[|c|-1] == c[0]`. */
  ghost predicate IsCycle<T>(graph: map<T, seq<T>>, c: seq<T>)
  {
    |c| >= 2 && c[0] == c[|c| - 1] && IsWalk(graph, c)
  }

  ghost predicate Acyclic<T(!new)>(graph: map<T, seq<T>>)
  {
    forall c :: !IsCycle(graph, c)
  }

  /** Every edge leads from an earlier position of `r` to a later one. */
  ghost predicate EdgesPointForward<T>(graph: map<T, seq<T>>, r: seq<T>)
  {
    forall i, j :: 0 <= i < |r| && 0 <= j < |r| && r[j] in Neighbors(graph, r[i]) ==> i < j
  }

  /** Post-order: every neighbour of an element occurs before it. */
  ghost predicate PostOrdered<T>(graph: map<T, seq<T>>, o: seq<T>)
  {
    && (forall i, j :: 0 <= i < |o| && 0 <= j < |o| && o[j] in Neighbors(graph, o[i]) ==> j < i)
    && (forall i, v :: 0 <= i < |o| && v in Neighbors(graph, o[i]) ==> v in o)
  }

  /** `Collections.reverse`. */
  function Reverse<T>(s: seq<T>): seq<T>
  {
    seq(|s|, i requires 0 <= i < |s| => s[|s| - 1 - i])
  }

  /** What `cycleNodes` holds once the cycle loop has ended, given the true
      cycle `w == [neighbor, ..., vertex, neighbor]`: `[neighbor, neighbor]`
      for a self-loop, `[neighbor, vertex, neighbor]` otherwise. */
  function ClosedCycleNodes<T>(w: seq<T>): seq<T>
    requires |w| >= 2
  {
    if |w| == 2 then [w[0], w[0]] else [w[0], w[|w| - 2], w[0]]
  }

  lemma NeighborIsVertex<T>(graph: map<T, seq<T>>, u: T, v: T)
    requires v in Neighbors(graph, u)
    ensures u in graph && v in Vertices(graph)
  {

  }

  /** Appending a vertex all of whose neighbours are already listed keeps a post-order. */
  lemma AppendFinished<T>(graph: map<T, seq<T>>, o: seq<T>, v: T)
    requires PostOrdered(graph, o) && v !in o
    requires forall w :: w in Neighbors(graph, v) ==> w in o
    ensures PostOrdered(graph, o + [v])
  {
  }

  /** Position of an element of a sequence. */
  ghost function IndexOf<T>(s: seq<T>, x: T): (k: nat)
    requires x in s
    ensures k < |s| && s[k] == x
  {
    if s[0] == x then 0 else 1 + IndexOf(s[1..], x)
  }

  /** Along a walk of `c`, positions in a forward order strictly grow. */
  lemma {:induction false} WalkClimbs<T>(graph: map<T, seq<T>>, r: seq<T>, c: seq<T>, k: nat)
    requires EdgesPointForward(graph, r)
    requires forall x :: x in Vertices(graph) ==> x in r
    requires 1 <= k < |c|
    requires IsWalk(graph, c)
    ensures c[0] in r && c[k] in r && IndexOf(r, c[0]) < IndexOf(r, c[k])
  {
    NeighborIsVertex(graph, c[k - 1], c[k]);
    assert c[k - 1] in Vertices(graph);
    if k > 1 {
      WalkClimbs(graph, r, c, k - 1);
    }
    var a, b := IndexOf(r, c[k - 1]), IndexOf(r, c[k]);
    assert r[b] in Neighbors(graph, r[a]);
  }

  /** A graph whose keys all lie in an order where every edge points forward has no cycle. */
  lemma ForwardOrderIsAcyclic<T(!new)>(graph: map<T, seq<T>>, r: seq<T>)
    requires EdgesPointForward(graph, r)
    requires forall x :: x in Vertices(graph) ==> x in r
    ensures Acyclic(graph)
  {
    forall c | IsCycle(graph, c) ensures false {
      WalkClimbs(graph, r, c, |c| - 1);
    }
  }

  /** The state of a search: `visited`, `stack` (the vertices of the active
      frames), `path` (those frames in call order) and `order` (the vertices
      finished so far, in post-order). */
  ghost predicate Search<T(!new)>(graph: map<T, seq<T>>, visited: set<T>, stack: set<T>, path: seq<T>, order: seq<T>)
  {
    && visited <= Vertices(graph)
    && stack <= visited
    && NoDup(path) && stack == Elements(path)
    && IsWalk(graph, path)
    && NoDup(order) && Elements(order) == visited - stack
    && PostOrdered(graph, order)
  }

  /** What is known once a back edge has been met: `c` is a cycle of the
      graph that repeats no vertex but its ends, it closes with a self-loop
      exactly when it has two elements, and all its vertices are still on
      the stack, none of them finished. */
  ghost predicate CycleEvidence<T>(graph: map<T, seq<T>>, c: seq<T>, stack: set<T>, order: seq<T>)
  {
    && IsCycle(graph, c) && NoDup(c[..|c| - 1])
    && (|c| == 2 <==> c[|c| - 2] == c[0])
    && stack <= Vertices(graph)
    && (forall x :: x in c ==> x in stack && x !in order)
  }

  /** Each vertex once, every edge forward: the order `topologicalSort()` promises. */
  ghost predicate IsTopologicalOrder<T>(graph: map<T, seq<T>>, r: seq<T>)
  {
    NoDup(r) && Elements(r) == Vertices(graph) && EdgesPointForward(graph, r)
  }

  /** Entering `dfs(v)`: `v` becomes visited and the innermost active frame. */
  lemma Enter<T(!new)>(graph: map<T, seq<T>>, visited: set<T>, stack: set<T>, path: seq<T>, order: seq<T>, v: T)
    requires Search(graph, visited, stack, path, order)
    requires v in Vertices(graph) && v !in visited
    requires |path| > 0 ==> v in Neighbors(graph, path[|path| - 1])
    ensures Search(graph, visited + {v}, stack + {v}, path + [v], order)
  {

  }

  /** Popping what was pushed restores the stack. */
  lemma PushPop<T>(stack: set<T>, v: T)
    requires v !in stack
    ensures (stack + {v}) - {v} == stack
  {
  }

  /** Leaving `dfs(v)` normally: `v` leaves the stack and is appended to the order. */
  lemma Leave<T(!new)>(graph: map<T, seq<T>>, visited: set<T>, stack: set<T>, path: seq<T>, order: seq<T>, v: T)
    requires Search(graph, visited, stack, path + [v], order)
    requires forall w :: w in Neighbors(graph, v) ==> w in order
    ensures Search(graph, visited, stack - {v}, path, order + [v])
  {
    var p := path + [v];
    assert forall i :: 0 <= i < |path| ==> p[i] == path[i];
    forall i | 0 <= i < |path| ensures path[i] != v {
      assert p[i] == path[i] && p[|path|] == v;
    }
    assert Elements(path) == stack - {v} by {
      assert Elements(p) == Elements(path) + {v};
    }
    assert Elements(order + [v]) == Elements(order) + {v};
    AppendFinished(graph, order, v);
  }

  /** The cycle closed by an edge back to `neighbor`, read off the search
      path: from `neighbor` down to the innermost frame, then `neighbor` again. */
  ghost function CycleFromPath<T>(path: seq<T>, neighbor: T): (c: seq<T>)
    requires neighbor in path
    ensures |c| >= 2 && c[0] == neighbor && c[|c| - 1] == neighbor
    ensures c[|c| - 2] == path[|path| - 1]
  {
    path[IndexOf(path, neighbor)..] + [neighbor]
  }

  /** An edge from the innermost active frame back to an active frame closes
      a cycle: the one read off the path. */
  lemma BackEdgeCycle<T(!new)>(graph: map<T, seq<T>>, visited: set<T>, stack: set<T>, path: seq<T>, order: seq<T>, neighbor: T)
    requires Search(graph, visited, stack, path, order)
    requires |path| > 0 && neighbor in path && neighbor in Neighbors(graph, path[|path| - 1])
    ensures CycleEvidence(graph, CycleFromPath(path, neighbor), stack, order)
    ensures |CycleFromPath(path, neighbor)| == 2 <==> path[|path| - 1] == neighbor
  {
    var k := IndexOf(path, neighbor);
    var c := CycleFromPath(path, neighbor);
    assert c == path[k..] + [neighbor];
    assert c[..|c| - 1] == path[k..];
    forall a, b | 0 <= a < b < |path| - k ensures path[k..][a] != path[k..][b] {
      assert path[k..][a] == path[k + a] && path[k..][b] == path[k + b];
    }
    forall i | 0 <= i < |c| - 1 ensures c[i + 1] in Neighbors(graph, c[i]) {
      if i < |path| - k - 1 {
        assert c[i] == path[k + i] && c[i + 1] == path[k + i + 1];
      }
    }
    assert path[|path| - 1] == neighbor <==> k == |path| - 1;
    forall x | x in c ensures x in stack {
      var j :| 0 <= j < |c| && c[j] == x;
      if j < |c| - 1 {
        assert path[k + j] == x;
      }
    }
  }

  /** Reversal keeps the elements, their number and their distinctness. */
  lemma ReverseKeepsElements<T>(s: seq<T>)
    ensures |Reverse(s)| == |s| && Elements(Reverse(s)) == Elements(s)
    ensures NoDup(s) ==> NoDup(Reverse(s))
  {
    var r := Reverse(s);
    forall v | v in s ensures v in r {
      var k :| 0 <= k < |s| && s[k] == v;
      assert r[|s| - 1 - k] == v;
    }
    if NoDup(s) {
      forall a, b | 0 <= a < b < |r| ensures r[a] != r[b] {
        assert r[a] == s[|s| - 1 - a] && r[b] == s[|s| - 1 - b];
      }
    }
  }

  /** Reversal undoes itself: reversing the list again gives it back. */
  lemma ReverseTwice<T>(s: seq<T>)
    ensures Reverse(Reverse(s)) == s
  {
  }

  /** Reversing a post-order makes every edge point forward. */
  lemma ReversedPostOrderPointsForward<T>(graph: map<T, seq<T>>, o: seq<T>)
    requires PostOrdered(graph, o)
    ensures EdgesPointForward(graph, Reverse(o))
  {

  }

  /** Once every key is visited and no frame is active, every vertex is finished. */
  lemma FinishedSearchCoversVertices<T(!new)>(graph: map<T, seq<T>>, visited: set<T>, order: seq<T>)
    requires Search(graph, visited, {}, [], order)
    requires forall k :: k in graph ==> k in visited
    ensures Elements(order) == Vertices(graph)
  {
    forall v | v in Vertices(graph) ensures v in order {
      if v in graph {
        assert v in Elements(order);
      } else {
        var u :| u in graph && v in graph[u];
        assert u in Elements(order);
        var k :| 0 <= k < |order| && order[k] == u;
        assert v in Neighbors(graph, order[k]);
      }
    }
  }

  /** A finished search from every key: its reversed order lists every
      vertex exactly once, with every edge pointing forward, so the graph
      has no cycle. */
  lemma ReversedSearchIsTopological<T(!new)>(graph: map<T, seq<T>>, visited: set<T>, order: seq<T>)
    requires Search(graph, visited, {}, [], order)
    requires forall k :: k in graph ==> k in visited
    ensures IsTopologicalOrder(graph, Reverse(order))
    ensures |Reverse(order)| == |Vertices(graph)|
    ensures Acyclic(graph)
  {
    var r := Reverse(order);
    FinishedSearchCoversVertices(graph, visited, order);
    ReverseKeepsElements(order);
    ReversedPostOrderPointsForward(graph, order);
    assert forall x :: x in Vertices(graph) ==> x in Elements(r);
    ForwardOrderIsAcyclic(graph, r);
    NoDupCardinality(r);
  }

  class TopologicalSort<T(==,!new)> {
    const graph: map<T, seq<T>>
    /** The order in which `graph.keySet()` is iterated. */
    const keys: seq<T>
    /** `recursionStack.stream().findFirst()` as a function of the set. */
    const findFirst: set<T> -> T

    var topologicalOrder: seq<T>
    var visited: set<T>
    var recursionStack: set<T>
    var cycleDetected: bool
    var cycleNodes: seq<T>

    /** The active `dfs` frames, outermost first. */
    ghost var path: seq<T>
    /** Once a back edge is met: the cycle it closes, from the neighbour hit
        along `path` down to the current vertex and back to the neighbour. */
    ghost var trueCycle: seq<T>

    /** `keys` lists the keys of `graph`, each once. */
    ghost predicate KeysOfGraph()
    {
      NoDup(keys) && forall k :: k in graph <==> k in keys
    }

    ghost predicate Valid()
      reads this`visited, this`recursionStack, this`path, this`topologicalOrder
    {
      Search(graph, visited, recursionStack, path, topologicalOrder)
    }

    constructor (graph: map<T, seq<T>>, keys: seq<T>, findFirst: set<T> -> T)
      requires NoDup(keys) && forall k :: k in graph <==> k in keys
      ensures KeysOfGraph() && Valid()
      ensures this.graph == graph && this.keys == keys && this.findFirst == findFirst
      ensures topologicalOrder == [] && visited == {} && recursionStack == {}
      ensures !cycleDetected && cycleNodes == [] && path == []
    {
      this.graph := graph;
      this.keys := keys;
      this.findFirst := findFirst;
      topologicalOrder := [];
      visited := {};
      recursionStack := {};
      cycleDetected := false;
      cycleNodes := [];
      path := [];
      trueCycle := [];
    }

    /** `topologicalSort()`, on a sorter that has not sorted before. */
    method Sort() returns (result: Outcome<T>)
      requires KeysOfGraph() && Valid()
      requires visited == {} && topologicalOrder == [] && path == []
      requires !cycleDetected && cycleNodes == []
      modifies this
      ensures result.Ordered? <==> Acyclic(graph)
      ensures result.Ordered? ==>
        && result.order == topologicalOrder && !cycleDetected
        && IsTopologicalOrder(graph, result.order)
        && |result.order| == |Vertices(graph)|
      ensures !result.Ordered? ==> CycleEvidence(graph, trueCycle, recursionStack, topologicalOrder)
      ensures result.Cycle? ==>
        cycleDetected && result.nodes == cycleNodes && cycleNodes == ClosedCycleNodes(trueCycle)
      ensures result.Cycle? <==>
        !result.Ordered? && (|trueCycle| == 2 || findFirst(recursionStack) == trueCycle[0])
    {
      var r := SearchKeys();
      if r == Runaway {
        return OutOfMemory;
      } else if r == CycleClosed {
        cycleDetected := true;
      }

      if cycleDetected {
        result := Cycle(cycleNodes);
        return;
      }
      ReversedSearchIsTopological(graph, visited, topologicalOrder);
      topologicalOrder := Reverse(topologicalOrder);
      result := Ordered(topologicalOrder);
    }

    /** The loop of `topologicalSort()`: `dfs` from every key not yet
        visited, in key order, up to the first cycle. */
    method SearchKeys() returns (r: Visit)
      requires KeysOfGraph() && Valid() && recursionStack == {} && path == []
      requires cycleNodes == []
      modifies this`visited, this`recursionStack, this`path, this`topologicalOrder
      modifies this`cycleNodes, this`trueCycle
      ensures Valid()
      ensures r == Finished ==>
        && recursionStack == {} && path == [] && cycleNodes == []
        && forall k :: k in graph ==> k in visited
      ensures r != Finished ==> CycleEvidence(graph, trueCycle, recursionStack, topologicalOrder)
      ensures r == CycleClosed ==> cycleNodes == ClosedCycleNodes(trueCycle)
      ensures r != Finished ==>
        (r == CycleClosed <==> |trueCycle| == 2 || findFirst(recursionStack) == trueCycle[0])
    {
      var i := 0;
      while i < |keys|
        invariant 0 <= i <= |keys|
        invariant Valid() && recursionStack == {} && path == [] && cycleNodes == []
        invariant forall j :: 0 <= j < i ==> keys[j] in visited
      {
        var vertex := keys[i];
        if vertex !in visited {
          r := Dfs(vertex);
          if r != Finished {
            return;
          }
        }
        i := i + 1;
      }
      r := Finished;
    }

    /** `dfs(vertex)`: `true` is `CycleClosed`, `false` is `Finished`. */
    method Dfs(vertex: T) returns (r: Visit)
      requires Valid() && cycleNodes == []
      requires vertex in Vertices(graph) && vertex !in visited
      requires |path| > 0 ==> vertex in Neighbors(graph, path[|path| - 1])
      modifies this`visited, this`recursionStack, this`path, this`topologicalOrder
      modifies this`cycleNodes, this`trueCycle
      decreases Vertices(graph) - visited, 0
      ensures Valid()
      ensures old(visited) + {vertex} <= visited
      ensures old(topologicalOrder) <= topologicalOrder
      ensures r == Finished ==>
        && recursionStack == old(recursionStack) && path == old(path)
        && vertex in topologicalOrder && cycleNodes == []
      ensures r != Finished ==>
        && old(recursionStack) + {vertex} <= recursionStack
        && CycleEvidence(graph, trueCycle, recursionStack, topologicalOrder)
      ensures r == CycleClosed ==> cycleNodes == ClosedCycleNodes(trueCycle)
      ensures r != Finished ==>
        (r == CycleClosed <==> |trueCycle| == 2 || findFirst(recursionStack) == trueCycle[0])
    {
      ghost var stack0, path0 := recursionStack, path;
      Enter(graph, visited, recursionStack, path, topologicalOrder, vertex);
      visited, recursionStack, path := visited + {vertex}, recursionStack + {vertex}, path + [vertex];
      r := VisitNeighbors(vertex);
      if r == Finished {
        Leave(graph, visited, recursionStack, path0, topologicalOrder, vertex);
        PushPop(stack0, vertex);
        recursionStack, path, topologicalOrder := recursionStack - {vertex}, path0, topologicalOrder + [vertex];
      }
    }

    /** The loop of `dfs(vertex)` over the neighbours of `vertex`, once
        `vertex` is the innermost active frame. */
    method VisitNeighbors(vertex: T) returns (r: Visit)
      requires Valid() && cycleNodes == []
      requires |path| > 0 && path[|path| - 1] == vertex
      modifies this`visited, this`recursionStack, this`path, this`topologicalOrder
      modifies this`cycleNodes, this`trueCycle
      decreases Vertices(graph) - visited, 1
      ensures Valid()
      ensures old(visited) <= visited
      ensures old(topologicalOrder) <= topologicalOrder
      ensures r == Finished ==>
        && recursionStack == old(recursionStack) && path == old(path) && cycleNodes == []
        && forall w :: w in Neighbors(graph, vertex) ==> w in topologicalOrder
      ensures r != Finished ==>
        && old(recursionStack) <= recursionStack
        && CycleEvidence(graph, trueCycle, recursionStack, topologicalOrder)
      ensures r == CycleClosed ==> cycleNodes == ClosedCycleNodes(trueCycle)
      ensures r != Finished ==>
        (r == CycleClosed <==> |trueCycle| == 2 || findFirst(recursionStack) == trueCycle[0])
    {
      var neighbors := Neighbors(graph, vertex);
      for k := 0 to |neighbors|
        invariant Valid() && cycleNodes == []
        invariant old(visited) <= visited
        invariant recursionStack == old(recursionStack) && path == old(path)
        invariant old(topologicalOrder) <= topologicalOrder
        invariant forall j :: 0 <= j < k ==> neighbors[j] in topologicalOrder
      {
        var neighbor := neighbors[k];
        if neighbor !in visited {
          NeighborIsVertex(graph, vertex, neighbor);
          ghost var before := topologicalOrder;
          r := Dfs(neighbor);
          if r != Finished {
            return;
          }
          assert forall j :: 0 <= j < k ==> neighbors[j] in before;
        } else if neighbor in recursionStack {
          r := CloseCycle(vertex, neighbor);
          return;
        } else {
          assert neighbor in Elements(topologicalOrder);
        }
      }
      r := Finished;
    }

    /** The back-edge branch of `dfs`: `vertex -> neighbor` with `neighbor`
        on the current path. */
    method CloseCycle(vertex: T, neighbor: T) returns (r: Visit)
      requires Valid() && cycleNodes == []
      requires |path| > 0 && path[|path| - 1] == vertex
      requires neighbor in recursionStack && neighbor in Neighbors(graph, vertex)
      modifies this`cycleNodes, this`trueCycle
      ensures r != Finished
      ensures CycleEvidence(graph, trueCycle, recursionStack, topologicalOrder)
      ensures trueCycle[0] == neighbor && trueCycle[|trueCycle| - 2] == vertex
      ensures |trueCycle| == 2 <==> vertex == neighbor
      ensures r == CycleClosed <==> vertex == neighbor || findFirst(recursionStack) == neighbor
      ensures r == CycleClosed ==> cycleNodes == ClosedCycleNodes(trueCycle)
      ensures r == Runaway ==>
        cycleNodes == [neighbor, vertex] + (if vertex == findFirst(recursionStack) then [] else [findFirst(recursionStack)])
    {
      assert neighbor in Elements(path);
      trueCycle := CycleFromPath(path, neighbor);
      BackEdgeCycle(graph, visited, recursionStack, path, topologicalOrder, neighbor);
      r := TraceCycle(vertex, neighbor);
    }

    /** The loop of the back-edge branch that records the cycle, starting at
        `vertex` and following `findFirst(recursionStack)`. */
    method TraceCycle(vertex: T, neighbor: T) returns (r: Visit)
      requires cycleNodes == []
      modifies this`cycleNodes
      ensures r != Finished
      ensures r == CycleClosed <==> vertex == neighbor || findFirst(recursionStack) == neighbor
      ensures r == CycleClosed ==>
        cycleNodes == if vertex == neighbor then [neighbor, neighbor] else [neighbor, vertex, neighbor]
      ensures r == Runaway ==>
        cycleNodes == [neighbor, vertex] + (if vertex == findFirst(recursionStack) then [] else [findFirst(recursionStack)])
    {
      cycleNodes := cycleNodes + [neighbor];
      var current := vertex;
      while current != neighbor
        invariant current == vertex || current == findFirst(recursionStack)
        invariant current != vertex ==> vertex != findFirst(recursionStack) && vertex != neighbor
        invariant cycleNodes == if current == vertex then [neighbor] else [neighbor, vertex]
        decreases if current == vertex then 1 else 0
      {
        cycleNodes := cycleNodes + [current];
        if current == findFirst(recursionStack) {
          // The set is not changed by the loop, so every further pass
          // appends `current` and assigns it again: the loop never exits.
          return Runaway;
        }
        current := findFirst(recursionStack);
      }
      cycleNodes := cycleNodes + [neighbor];
      r := CycleClosed;
    }
  }

  /** A one-vertex graph with a self-loop reports `[v, v]`. */
  method SelfLoopExample() returns (result: Outcome<int>)
    ensures result == Cycle([1, 1])
  {
    var graph := map[1 := [1]];
    assert Vertices(graph) == {1};
    var sorter := new TopologicalSort(graph, [1], (s: set<int>) => 1);
    result := sorter.Sort();
    assert IsCycle(graph, [1, 1]);
    var w := sorter.trueCycle;
    assert w[|w| - 2] in w;
  }

  /** The empty graph sorts to the empty list. */
  method EmptyGraphExample() returns (result: Outcome<int>)
    ensures result == Ordered([])
  {
    var graph: map<int, seq<int>> := map[];
    assert Vertices(graph) == {};
    var sorter := new TopologicalSort(graph, [], (s: set<int>) => 0);
    ForwardOrderIsAcyclic(graph, []);
    result := sorter.Sort();
  }

  /** In the graph `1 -> 2` the only topological order is `[1, 2]`. */
  lemma ChainOrder(r: seq<int>)
    requires IsTopologicalOrder(map[1 := [2], 2 := []], r)
    requires |r| == 2
    ensures r == [1, 2]
  {
    var graph := map[1 := [2], 2 := []];
    assert Vertices(graph) == {1, 2};
    assert r[0] in Elements(r) && r[1] in Elements(r);
    assert 2 in Neighbors(graph, 1);
    assert r[0] != 2;
  }

  lemma ChainVertices()
    ensures Vertices(map[1 := [2], 2 := []]) == {1, 2}
    ensures |Vertices(map[1 := [2], 2 := []])| == 2
  {

  }

  /** The graph `1 -> 2` has no cycle. */
  lemma ChainAcyclic()
    ensures Acyclic(map[1 := [2], 2 := []])
  {
    ChainVertices();
    ForwardOrderIsAcyclic(map[1 := [2], 2 := []], [1, 2]);
  }

  /** `1` depends on `2`: the dependent comes first in the list returned. */
  method ChainExample() returns (result: Outcome<int>)
    ensures result == Ordered([1, 2])
  {
    var sorter := new TopologicalSort(map[1 := [2], 2 := []], [1, 2], (s: set<int>) => 1);
    ChainAcyclic();
    ChainVertices();
    result := sorter.Sort();
    ChainOrder(result.order);
  }

  /** In `1 -> 2 -> 3 -> 2` every cycle avoids `1` and has length above one. */
  lemma RunawayGraphCycles(c: seq<int>)
    requires IsCycle(map[1 := [2], 2 := [3], 3 := [2]], c)
    ensures c[0] != 1 && |c| != 2
  {
    var graph := map[1 := [2], 2 := [3], 3 := [2]];
    assert c[|c| - 1] in Neighbors(graph, c[|c| - 2]);
    assert c[1] in Neighbors(graph, c[0]);
  }

  lemma RunawayGraphHasCycle()
    ensures !Acyclic(map[1 := [2], 2 := [3], 3 := [2]])
  {
    assert IsCycle(map[1 := [2], 2 := [3], 3 := [2]], [2, 3, 2]);
  }

  /** In `1 -> 2 -> 3 -> 2`, searched from `1`, the back edge `3 -> 2` is met
      while `1` is still on the stack. When the stack's first element is `1`,
      the cycle loop appends `1` for ever. */
  method RunawayExample() returns (result: Outcome<int>)
    ensures result == OutOfMemory
  {
    var sorter := new TopologicalSort(map[1 := [2], 2 := [3], 3 := [2]], [1, 2, 3], (s: set<int>) => 1);
    RunawayGraphHasCycle();
    result := sorter.Sort();
    RunawayGraphCycles(sorter.trueCycle);
  }
}
