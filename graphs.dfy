/**
 * `DFS` and `BFS` of NEXT_LEVEL_ALGORITHMS.cs over an adjacency dictionary
 * from node to neighbour list. Both print every node reachable from the
 * start exactly once; the printed sequence is the model's output.
 */
module Graphs {
  import opened Sets
  import opened Sequences

  type Graph = map<int, seq<int>>

  /** Every neighbour listed in `g` is itself a key of `g`, so no lookup fails. */
  predicate Closed(g: Graph)
  {
    forall x, y :: x in g && y in g[x] ==> y in g
  }

  /** `p` is a walk along edges of `g`. */
  ghost predicate Path(g: Graph, p: seq<int>)
  {
    |p| >= 1 && forall i :: 0 <= i < |p| - 1 ==> p[i] in g && p[i + 1] in g[p[i]]
  }

  /** Some walk leads from `a` to `b`. */
  ghost predicate Reachable(g: Graph, a: int, b: int)
  {
    exists p :: Path(g, p) && p[0] == a && p[|p| - 1] == b
  }

  /** Every neighbour of `x` is in `s`. */
  predicate NeighboursIn(g: Graph, x: int, s: set<int>)
    requires x in g
  {
    forall y :: y in g[x] ==> y in s
  }

  /** `s` lists the members of `members` once each. */
  ghost predicate Lists(s: seq<int>, members: set<int>)
  {
    Distinct(s) && forall x :: x in s <==> x in members
  }

  /** The one-node walk. */
  lemma ReachSelf(g: Graph, a: int)
    ensures Reachable(g, a, a)
  {
    assert Path(g, [a]);
  }

  /** A walk can start with one more edge. */
  lemma ReachPrepend(g: Graph, a: int, b: int, c: int)
    requires a in g && b in g[a] && Reachable(g, b, c)
    ensures Reachable(g, a, c)
  {
    var p :| Path(g, p) && p[0] == b && p[|p| - 1] == c;
    var q := [a] + p;
    assert forall i :: 1 <= i < |q| - 1 ==> q[i] == p[i - 1] && q[i + 1] == p[i];
    assert Path(g, q);
  }

  /** A walk can end with one more edge. */
  lemma ReachAppend(g: Graph, a: int, b: int, c: int)
    requires Reachable(g, a, b) && b in g && c in g[b]
    ensures Reachable(g, a, c)
  {
    var p :| Path(g, p) && p[0] == a && p[|p| - 1] == b;
    var q := p + [c];
    assert Path(g, q);
  }

  /** A neighbour of `x`, when all of them are in `s`, is in `s`. */
  lemma NeighbourIn(g: Graph, x: int, s: set<int>, y: int)
    requires x in g && NeighboursIn(g, x, s) && y in g[x]
    ensures y in s
  {
  }

  /** A walk starting in a set closed under neighbours stays in it. */
  lemma {:induction false} PathStaysIn(g: Graph, s: set<int>, p: seq<int>)
    requires Path(g, p) && p[0] in s
    requires forall x :: x in s ==> x in g && NeighboursIn(g, x, s)
    ensures p[|p| - 1] in s
    decreases |p|
  {
    if |p| > 1 {
      var front := p[..|p| - 1];
      assert Path(g, front);
      PathStaysIn(g, s, front);
      var x := p[|p| - 2];
      assert front[|front| - 1] == x;
      assert x in s && p[|p| - 1] in g[x];
      NeighbourIn(g, x, s, p[|p| - 1]);
    }
  }

  /** A set holding `a` and closed under neighbours holds everything reachable from `a`. */
  lemma ClosedHoldsReachable(g: Graph, s: set<int>, a: int)
    requires a in s
    requires forall x :: x in s ==> x in g && NeighboursIn(g, x, s)
    ensures forall b :: Reachable(g, a, b) ==> b in s
  {
    forall b | Reachable(g, a, b)
      ensures b in s
    {
      var p :| Path(g, p) && p[0] == a && p[|p| - 1] == b;
      PathStaysIn(g, s, p);
    }
  }

  /** Concatenating listings of two disjoint sets lists their union. */
  lemma ListsAppend(a: seq<int>, sa: set<int>, b: seq<int>, sb: set<int>)
    requires Lists(a, sa) && Lists(b, sb) && sa !! sb
    ensures Lists(a + b, sa + sb)
  {
    forall i, j | 0 <= i < j < |a + b|
      ensures (a + b)[i] != (a + b)[j]
    {
      if i < |a| && j >= |a| {
        assert (a + b)[i] == a[i] && a[i] in a;
        assert (a + b)[j] == b[j - |a|] && b[j - |a|] in b;
      }
    }
  }

  /** Nodes whose neighbours are all in `s` keep that property as `s` grows. */
  lemma NeighboursGrow(g: Graph, xs: set<int>, s: set<int>, t: set<int>)
    requires s <= t
    requires forall x :: x in xs ==> x in g && NeighboursIn(g, x, s)
    ensures forall x :: x in xs ==> NeighboursIn(g, x, t)
  {
  }

  /**
   * The visits a child call of `DFS(node)` adds keep the loop's facts: with
   * `v0` the visited set on entry, `v1` before the child call and `v2` after
   * it, every node visited since entry is reachable from `node`, and every
   * one but `node` has its neighbours visited.
   */
  lemma ChildExplored(g: Graph, node: int, child: int, v0: set<int>, v1: set<int>, v2: set<int>)
    requires node in g && child in g[node] && Closed(g) && v2 <= g.Keys
    requires v0 + {node} <= v1 <= v2
    requires forall x :: x in v1 - v0 ==> Reachable(g, node, x)
    requires forall x :: x in v1 - v0 && x != node ==> NeighboursIn(g, x, v1)
    requires forall x :: x in v2 - v1 ==> Reachable(g, child, x)
    requires forall x :: x in v2 - v1 ==> NeighboursIn(g, x, v2)
    ensures forall x :: x in v2 - v0 ==> Reachable(g, node, x)
    ensures forall x :: x in v2 - v0 && x != node ==> NeighboursIn(g, x, v2)
  {
    forall x | x in v2 - v1
      ensures Reachable(g, node, x)
    {
      ReachPrepend(g, node, child, x);
    }
    NeighboursGrow(g, v1 - v0 - {node}, v1, v2);
  }

  /**
   * The output a child call of `DFS(node)` adds keeps the loop's facts: what
   * was written since entry lists the nodes visited since entry.
   */
  lemma ChildWritten(o0: seq<int>, o1: seq<int>, o2: seq<int>, v0: set<int>, v1: set<int>, v2: set<int>)
    requires |o0| < |o1| <= |o2| && o1[..|o0|] == o0 && o2[..|o1|] == o1
    requires v0 <= v1 <= v2
    requires Lists(o1[|o0|..], v1 - v0) && Lists(o2[|o1|..], v2 - v1)
    ensures o2[..|o0|] == o0 && o2[|o0|] == o1[|o0|]
    ensures Lists(o2[|o0|..], v2 - v0)
  {
    assert o2[|o0|..] == o1[|o0|..] + o2[|o1|..];
    ListsAppend(o1[|o0|..], v1 - v0, o2[|o1|..], v2 - v1);
    assert v2 - v0 == (v1 - v0) + (v2 - v1);
  }

  /** The neighbours before position `k` stay visited as the visited set grows, and `adj[k]` joins them. */
  lemma PrefixVisited(adj: seq<int>, k: nat, v1: set<int>, v2: set<int>)
    requires k < |adj| && v1 <= v2 && adj[k] in v2
    requires forall j :: 0 <= j < k ==> adj[j] in v1
    ensures forall j :: 0 <= j < k + 1 ==> adj[j] in v2
  {
  }

  /**
   * `DFS`: the graph and the `visited` set shared by the recursive calls;
   * `order` stands for the console, where each node is written when it is
   * first visited.
   */
  class DepthFirst {
    const graph: Graph
    var visited: set<int>
    var order: seq<int>

    constructor (graph: Graph, visited: set<int>)
      ensures this.graph == graph && this.visited == visited && order == []
    {
      this.graph := graph;
      this.visited := visited;
      order := [];
    }

    /**
     * `DFS(node, graph, visited)`: nothing happens when `node` is already
     * visited. Otherwise the nodes newly visited are all reachable from
     * `node`, include `node`, are written once each in the order visited,
     * `node` first, and have all their neighbours visited.
     */
    method Dfs(node: int)
      requires Closed(graph) && node in graph && visited <= graph.Keys
      modifies this
      ensures old(visited) <= visited <= graph.Keys && node in visited
      ensures node in old(visited) ==> visited == old(visited) && order == old(order)
      ensures node !in old(visited) ==> |order| > |old(order)| && order[|old(order)|] == node
      ensures |old(order)| <= |order| && order[..|old(order)|] == old(order)
      ensures Lists(order[|old(order)|..], visited - old(visited))
      ensures forall x :: x in visited - old(visited) ==> Reachable(graph, node, x)
      ensures forall x :: x in visited - old(visited) ==> NeighboursIn(graph, x, visited)
      decreases |graph.Keys - visited|
    {
      if node in visited {
        return;
      }
      ghost var visited0, order0 := visited, order;
      visited := visited + {node};
      order := order + [node];
      ReachSelf(graph, node);
      assert order[|order0|..] == [node];
      var adj := graph[node];
      for k := 0 to |adj|
        invariant visited0 + {node} <= visited <= graph.Keys
        invariant |order0| < |order| && order[..|order0|] == order0 && order[|order0|] == node
        invariant Lists(order[|order0|..], visited - visited0)
        invariant forall j :: 0 <= j < k ==> adj[j] in visited
        invariant forall x :: x in visited - visited0 ==> Reachable(graph, node, x)
        invariant forall x :: x in visited - visited0 && x != node ==> NeighboursIn(graph, x, visited)
      {
        ghost var visited1, order1 := visited, order;
        ProperSubsetSize(graph.Keys - visited, graph.Keys - visited0, node);
        Dfs(adj[k]);
        ChildWritten(order0, order1, order, visited0, visited1, visited);
        ChildExplored(graph, node, adj[k], visited0, visited1, visited);
        PrefixVisited(adj, k, visited1, visited);
      }
    }
  }

  /** A fresh `visited` set: `DFS(start, graph, new HashSet<int>())` writes exactly the nodes reachable from `start`, once each, `start` first. */
  method DfsFrom(graph: Graph, start: int) returns (order: seq<int>)
    requires Closed(graph) && start in graph
    ensures |order| >= 1 && order[0] == start && Distinct(order)
    ensures forall x :: x in order <==> Reachable(graph, start, x)
  {
    var dfs := new DepthFirst(graph, {});
    dfs.Dfs(start);
    order := dfs.order;
    assert order == order[0..];
    assert Distinct(order[0..]);
    ClosedHoldsReachable(graph, dfs.visited, start);
  }

  /**
   * The facts `BFS` keeps about the nodes ever enqueued, `seen` (those
   * written, then those still queued): they list the visited set once each,
   * are all keys, include `start` and are all reachable from it.
   */
  ghost predicate Enqueued(g: Graph, start: int, seen: seq<int>, visited: set<int>)
  {
    visited <= g.Keys && start in visited && Lists(seen, visited)
    && forall x :: x in visited ==> Reachable(g, start, x)
  }

  /**
   * One enqueue of `BFS`: a node `n` not yet visited, a neighbour of the
   * visited `node`, is marked visited and joins the queue's end.
   */
  lemma Enqueue(g: Graph, start: int, node: int, n: int, order: seq<int>, q: seq<int>, visited: set<int>)
    requires Closed(g) && Enqueued(g, start, order + q, visited)
    requires node in visited && n in g[node] && n !in visited
    ensures Enqueued(g, start, order + (q + [n]), visited + {n})
  {
    assert order + (q + [n]) == (order + q) + [n];
    ListsAppend(order + q, visited, [n], {n});
    ReachAppend(g, start, node, n);
  }

  /** Taking the queue's head leaves the sequence of enqueued nodes as it was. */
  lemma Dequeue(order: seq<int>, q: seq<int>)
    requires |q| > 0
    ensures (order + [q[0]]) + q[1..] == order + q
  {
    assert q == [q[0]] + q[1..];
  }

  /** The neighbour loop of `BFS` has looked at one more neighbour of `node`, which is now visited. */
  lemma NeighbourSeen(adj: seq<int>, k: nat, v: set<int>, v': set<int>)
    requires k < |adj| && v <= v' && adj[k] in v'
    requires forall y :: y in adj[..k] ==> y in v
    ensures forall y :: y in adj[..k + 1] ==> y in v'
  {
    assert adj[..k + 1] == adj[..k] + [adj[k]];
  }

  /**
   * One dequeue of `BFS`: once every neighbour of `node` is visited, all the
   * nodes written so far, `node` last, have their neighbours visited.
   */
  lemma Dequeued(g: Graph, order: seq<int>, node: int, v0: set<int>, v: set<int>)
    requires node in g && v0 <= v
    requires forall x :: x in order ==> x in g && NeighboursIn(g, x, v0)
    requires NeighboursIn(g, node, v)
    ensures forall x :: x in order + [node] ==> NeighboursIn(g, x, v)
  {
    NeighboursGrow(g, (set x | x in order), v0, v);
  }

  /** When the queue is empty, `BFS` has written exactly the nodes reachable from `start`. */
  lemma Drained(g: Graph, start: int, order: seq<int>, visited: set<int>)
    requires Enqueued(g, start, order, visited)
    requires forall x :: x in order ==> x in g && NeighboursIn(g, x, visited)
    ensures Distinct(order)
    ensures forall x :: x in order <==> Reachable(g, start, x)
  {
    ClosedHoldsReachable(g, visited, start);
  }

  /**
   * `BFS(start, graph)`: a node is marked visited when it is enqueued, so no
   * node is enqueued twice; the nodes written, in the order dequeued, are
   * exactly those reachable from `start`, once each.
   */
  method Bfs(start: int, graph: Graph) returns (order: seq<int>)
    requires Closed(graph) && start in graph
    ensures |order| >= 1 && order[0] == start && Distinct(order)
    ensures forall x :: x in order <==> Reachable(graph, start, x)
  {
    var q := [start];
    var visited := {start};
    order := [];
    ReachSelf(graph, start);
    while |q| > 0
      invariant Enqueued(graph, start, order + q, visited)
      invariant if order == [] then q == [start] else order[0] == start
      invariant forall x :: x in order ==> x in graph && NeighboursIn(graph, x, visited)
      decreases |graph.Keys - visited|, |q|
    {
      ghost var visited0, order0 := visited, order;
      var node := q[0];
      Dequeue(order, q);
      order, q := order + [node], q[1..];
      ghost var rest := q;
      ghost var grew, w := false, node;
      assert node in visited by {
        assert node in order + q;
      }
      var adj := graph[node];
      for k := 0 to |adj|
        invariant visited0 <= visited && Enqueued(graph, start, order + q, visited)
        invariant forall y :: y in adj[..k] ==> y in visited
        invariant !grew ==> visited == visited0 && q == rest
        invariant grew ==> w in graph && w in visited - visited0
      {
        ghost var visited1 := visited;
        var n := adj[k];
        if n !in visited {
          Enqueue(graph, start, node, n, order, q, visited);
          visited := visited + {n};
          q := q + [n];
          grew, w := true, n;
        }
        NeighbourSeen(adj, k, visited1, visited);
      }
      assert adj[..|adj|] == adj;
      Dequeued(graph, order0, node, visited0, visited);
      if grew {
        ProperSubsetSize(graph.Keys - visited, graph.Keys - visited0, w);
      }
    }
    assert order == order + q;
    Drained(graph, start, order, visited);
  }

  /** The graph of `Main`: 0 - 1, 0 - 2 and 1 - 3, each edge listed both ways. */
  function DemoGraph(): Graph
  {
    map[0 := [1, 2], 1 := [0, 3], 2 := [0], 3 := [1]]
  }

  /** From node 0 of the demo graph, exactly nodes 0 to 3 are reachable. */
  lemma DemoReachable(x: int)
    ensures Reachable(DemoGraph(), 0, x) <==> 0 <= x <= 3
  {
    var g := DemoGraph();
    if 0 <= x <= 3 {
      var p := if x == 0 then [0] else if x == 1 then [0, 1] else if x == 2 then [0, 2] else [0, 1, 3];
      assert Path(g, p);
    }
    if Reachable(g, 0, x) {
      ClosedHoldsReachable(g, g.Keys, 0);
    }
  }

  /** The calls in `Main`: both traversals from node 0 write nodes 0 to 3, once each, 0 first. */
  method Scenario() returns (dfsOrder: seq<int>, bfsOrder: seq<int>)
    ensures |dfsOrder| >= 1 && dfsOrder[0] == 0 && Distinct(dfsOrder) && forall x :: x in dfsOrder <==> 0 <= x <= 3
    ensures |bfsOrder| >= 1 && bfsOrder[0] == 0 && Distinct(bfsOrder) && forall x :: x in bfsOrder <==> 0 <= x <= 3
  {
    var g := DemoGraph();
    dfsOrder := DfsFrom(g, 0);
    bfsOrder := Bfs(0, g);
    forall x
      ensures Reachable(g, 0, x) <==> 0 <= x <= 3
    {
      DemoReachable(x);
    }
  }
}
