/**
 * Directed graphs of step identifiers, the cycles in them, and the depth-first
 * cycle detector of the workflow registry.
 */
module DependencyGraph {
  import opened Prelude

  type Id = string

  /** Node to its successors. A successor need not be a key. */
  type Graph = map<Id, seq<Id>>

  function Succ(g: Graph, n: Id): seq<Id> {
    if n in g then g[n] else []
  }

  ghost predicate EdgeAt(g: Graph, p: seq<Id>, i: nat)
    requires i + 1 < |p|
  {
    p[i + 1] in Succ(g, p[i])
  }

  ghost predicate IsWalk(g: Graph, p: seq<Id>) {
    p != [] && forall i :: 0 <= i < |p| - 1 ==> EdgeAt(g, p, i)
  }

  /** A non-empty path from a node back to itself. */
  ghost predicate IsCycle(g: Graph, p: seq<Id>) {
    IsWalk(g, p) && |p| >= 2 && p[0] == p[|p| - 1]
  }

  ghost predicate Cyclic(g: Graph) {
    exists p :: IsCycle(g, p)
  }

  ghost function Nodes(g: Graph): set<Id> {
    g.Keys + set k, n | k in g.Keys && n in g[k] :: n
  }

  /** Every successor of a listed node is listed before it. */
  ghost predicate IsTopological(g: Graph, order: seq<Id>) {
    forall i, d :: 0 <= i < |order| && d in Succ(g, order[i]) ==> d in order[..i]
  }

  lemma WalkSlice(g: Graph, p: seq<Id>, i: nat, j: nat)
    requires IsWalk(g, p) && i < j <= |p|
    ensures IsWalk(g, p[i..j])
  {
    var q := p[i..j];
    forall k | 0 <= k < |q| - 1
      ensures EdgeAt(g, q, k)
    {
      assert EdgeAt(g, p, i + k);
    }
  }

  lemma WalkExtend(g: Graph, p: seq<Id>, n: Id)
    requires IsWalk(g, p) && n in Succ(g, p[|p| - 1])
    ensures IsWalk(g, p + [n])
  {
    forall k | 0 <= k < |p|
      ensures EdgeAt(g, p + [n], k)
    {
      assert k < |p| - 1 ==> EdgeAt(g, p, k);
    }
  }

  lemma WalkPrepend(g: Graph, n: Id, p: seq<Id>)
    requires IsWalk(g, p) && p[0] in Succ(g, n)
    ensures IsWalk(g, [n] + p)
  {
    forall k | 0 <= k < |p|
      ensures EdgeAt(g, [n] + p, k)
    {
      assert k > 0 ==> EdgeAt(g, p, k - 1);
    }
  }

  /** Along a walk from order[i], positions in a topological order only go down. */
  lemma {:induction false} WalkDescends(g: Graph, order: seq<Id>, p: seq<Id>, i: nat)
    requires IsTopological(g, order) && IsWalk(g, p)
    requires i < |order| && p[0] == order[i]
    ensures |p| > 1 ==> p[|p| - 1] in order[..i]
  {
    if |p| > 1 {
      assert EdgeAt(g, p, 0);
      var j :| 0 <= j < i && order[j] == p[1];
      WalkSlice(g, p, 1, |p|);
      assert p[1..|p|] == p[1..];
      WalkDescends(g, order, p[1..], j);
    }
  }

  lemma {:induction false} FirstOccurrence(order: seq<Id>, n: Id) returns (i: nat)
    requires n in order
    ensures i < |order| && order[i] == n && n !in order[..i]
  {
    if order[0] == n {
      i := 0;
    } else {
      var j := FirstOccurrence(order[1..], n);
      i := j + 1;
      assert order[..i] == [order[0]] + order[1..][..j];
    }
  }

  /** A graph whose keys can be listed successors-first has no cycle. */
  lemma TopologicalIsAcyclic(g: Graph, order: seq<Id>)
    requires IsTopological(g, order)
    requires g.Keys <= Elements(order)
    ensures !Cyclic(g)
  {
    forall p | IsCycle(g, p)
      ensures false
    {
      assert EdgeAt(g, p, 0);
      var i := FirstOccurrence(order, p[0]);
      WalkDescends(g, order, p, i);
    }
  }

  /** The walk can go on from `u` without leaving the set. */
  ghost predicate CanStay(g: Graph, u: Id, within: set<Id>) {
    exists d :: d in within && d in Succ(g, u)
  }

  lemma {:induction false} LongWalk(g: Graph, within: set<Id>, n: nat) returns (p: seq<Id>)
    requires within != {}
    requires forall u {:trigger CanStay(g, u, within)} :: u in within ==> CanStay(g, u, within)
    ensures |p| == n + 1 && IsWalk(g, p) && Elements(p) <= within
  {
    if n == 0 {
      var u :| u in within;
      p := [u];
    } else {
      var q := LongWalk(g, within, n - 1);
      assert CanStay(g, q[|q| - 1], within);
      var d :| d in within && d in Succ(g, q[|q| - 1]);
      WalkExtend(g, q, d);
      p := q + [d];
    }
  }

  /** If no node of a non-empty set can leave the set, walking inside it must come round. */
  lemma StuckIsCyclic(g: Graph, within: set<Id>)
    requires within != {}
    requires forall u {:trigger CanStay(g, u, within)} :: u in within ==> CanStay(g, u, within)
    ensures Cyclic(g)
  {
    var p := LongWalk(g, within, |within|);
    var i, j := Pigeonhole(p, within);
    WalkSlice(g, p, i, j + 1);
    assert IsCycle(g, p[i..j + 1]);
  }

  /** Grey nodes form one walk; black nodes are closed under successors and cycle-free. */
  ghost predicate Colored(g: Graph, visited: set<Id>, grey: set<Id>, path: seq<Id>, order: seq<Id>) {
    && grey <= visited
    && grey == Elements(path)
    && (path != [] ==> IsWalk(g, path))
    && visited - grey == Elements(order)
    && IsTopological(g, order)
  }

  lemma MeetGrey(g: Graph, visited: set<Id>, grey: set<Id>, path: seq<Id>, order: seq<Id>, n: Id)
    requires Colored(g, visited, grey, path, order)
    requires n in grey && n in Succ(g, path[|path| - 1])
    ensures Cyclic(g)
  {
    var i :| 0 <= i < |path| && path[i] == n;
    WalkSlice(g, path, i, |path|);
    assert path[i..|path|] == path[i..];
    WalkExtend(g, path[i..], n);
    assert IsCycle(g, path[i..] + [n]);
  }

  lemma TurnGrey(g: Graph, visited: set<Id>, grey: set<Id>, path: seq<Id>, order: seq<Id>, n: Id)
    requires Colored(g, visited, grey, path, order)
    requires n !in visited && (path != [] ==> n in Succ(g, path[|path| - 1]))
    ensures Colored(g, visited + {n}, grey + {n}, path + [n], order)
  {
    ElementsAppend(path, n);
    if path != [] {
      WalkExtend(g, path, n);
    }
  }

  lemma TurnBlack(g: Graph, visited: set<Id>, grey: set<Id>, path: seq<Id>, order: seq<Id>, n: Id)
    requires n !in grey && n !in order
    requires Colored(g, visited, grey + {n}, path + [n], order)
    requires forall d :: d in Succ(g, n) ==> d in order
    requires grey == Elements(path)
    ensures Colored(g, visited, grey, path, order + [n])
  {
    ElementsAppend(order, n);
    if path != [] {
      WalkSlice(g, path + [n], 0, |path|);
      assert (path + [n])[0..|path|] == path;
    }
    forall i, d | 0 <= i < |order + [n]| && d in Succ(g, (order + [n])[i])
      ensures d in (order + [n])[..i]
    {
      assert (order + [n])[..i] == order[..i];
    }
  }

  /**
   * The recursive search of the registry with its two shared sets. Nodes in
   * `recStack` are grey, the other visited nodes are black. `path` and `order`
   * record, for the proof, how the grey nodes hang together and in which order
   * the black ones were finished.
   */
  class CycleDetector {
    const graph: Graph
    var visited: set<Id>
    var recStack: set<Id>
    ghost var path: seq<Id>
    ghost var order: seq<Id>

    constructor (graph: Graph)
      ensures this.graph == graph && visited == {} && recStack == {}
      ensures Valid() && path == [] && order == []
    {
      this.graph := graph;
      visited, recStack, path, order := {}, {}, [], [];
    }

    ghost predicate Valid()
      reads this
    {
      Colored(graph, visited, recStack, path, order)
    }

    method HasCycleUtil(node: Id) returns (found: bool)
      requires Valid() && node in Nodes(graph)
      requires path != [] ==> node in Succ(graph, path[|path| - 1])
      modifies this
      ensures found ==> Cyclic(graph)
      ensures !found ==> Valid() && node in visited - recStack
      ensures !found ==> recStack == old(recStack) && path == old(path)
      ensures !found ==> old(visited) <= visited && old(order) <= order
      decreases Nodes(graph) - visited
    {
      if node in recStack {
        MeetGrey(graph, visited, recStack, path, order, node);
        return true;
      }
      if node in visited {
        return false;
      }

      TurnGrey(graph, visited, recStack, path, order, node);
      visited := visited + {node};
      recStack := recStack + {node};
      path := path + [node];

      if node in graph {
        var neighbors := graph[node];
        var i := 0;
        while i < |neighbors|
          invariant 0 <= i <= |neighbors|
          invariant Valid() && path == old(path) + [node]
          invariant recStack == old(recStack) + {node}
          invariant old(visited) + {node} <= visited && old(order) <= order
          invariant forall k :: 0 <= k < i ==> neighbors[k] in visited - recStack
        {
          assert neighbors[i] in Succ(graph, node);
          var deeper := HasCycleUtil(neighbors[i]);
          if deeper {
            return true;
          }
          i := i + 1;
        }
      }

      TurnBlack(graph, visited, old(recStack), old(path), order, node);
      recStack := recStack - {node};
      path := old(path);
      order := order + [node];
      return false;
    }
  }

  /** Starts the search at every key, in whatever order the hash map yields them. */
  method DetectCycle(graph: Graph) returns (found: bool)
    ensures found <==> Cyclic(graph)
  {
    var detector := new CycleDetector(graph);
    var todo := graph.Keys;
    while todo != {}
      invariant detector.graph == graph && detector.Valid() && detector.path == []
      invariant todo <= graph.Keys
      invariant forall k :: k in graph && k !in todo ==> k in detector.order
      invariant fresh(detector)
    {
      var key :| key in todo;
      var hit := detector.HasCycleUtil(key);
      if hit {
        return true;
      }
      assert key in Elements(detector.order);
      todo := todo - {key};
    }
    TopologicalIsAcyclic(graph, detector.order);
    return false;
  }
}
