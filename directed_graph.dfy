/**
 * The directed graph of the library: the same vertex set, edge set and
 * `neighbors` map as the undirected graph, but an edge `(v, u)` only makes
 * `u` a neighbor of `v`. Its depth-first search also records the finishing
 * order of the vertices, which drives the topological sort and the
 * component search.
 */
module Directed {
  import opened Wrappers
  import opened Collections
  import opened Paths

  /** `nbrs` gives every vertex the heads of the edges leaving it. */
  ghost predicate ArcAdjacency<V(!new)>(vertices: set<V>, edges: set<(V, V)>, nbrs: map<V, set<V>>)
  {
    && nbrs.Keys == vertices
    && (forall v, u :: v in vertices ==> (u in nbrs[v] <==> (v, u) in edges))
  }

  /** Adding the head of one more edge to its tail's neighbor set keeps the adjacency exact. */
  lemma AddArc<V(!new)>(vertices: set<V>, done: set<(V, V)>, nbrs: map<V, set<V>>, e: (V, V))
    requires e.0 in vertices
    requires ArcAdjacency(vertices, done, nbrs)
    ensures ArcAdjacency(vertices, done + {e}, nbrs[e.0 := nbrs[e.0] + {e.1}])
  {
  }

  /** The edge loop of the constructor: each edge adds its head to its tail's neighbor set. */
  method AddArcs<V(==, !new)>(vertices: set<V>, edges: set<(V, V)>, nbrs0: map<V, set<V>>)
    returns (nbrs: map<V, set<V>>)
    requires forall e :: e in edges ==> e.0 in vertices && e.1 in vertices
    requires ArcAdjacency(vertices, {}, nbrs0)
    ensures ArcAdjacency(vertices, edges, nbrs)
  {
    nbrs := nbrs0;
    var todo := edges;
    ghost var done: set<(V, V)> := {};
    while todo != {}
      invariant done + todo == edges && done !! todo
      invariant ArcAdjacency(vertices, done, nbrs)
    {
      var e :| e in todo;
      AddArc(vertices, done, nbrs, e);
      var (v, u) := e;
      nbrs := nbrs[v := nbrs[v] + {u}];
      todo := todo - {e};
      done := done + {e};
    }
    assert done == edges;
  }

  /** Every edge of `edges` turned around. */
  function ReversedEdges<V(==, !new)>(edges: set<(V, V)>): (r: set<(V, V)>)
    ensures forall v, u :: (v, u) in r <==> (u, v) in edges
  {
    set e | e in edges :: (e.1, e.0)
  }

  /** Turning the edges around twice gives the edges back. */
  lemma ReversedEdgesInvolution<V(!new)>(edges: set<(V, V)>)
    ensures ReversedEdges(ReversedEdges(edges)) == edges
  {
    var r := ReversedEdges(ReversedEdges(edges));
    forall e | e in r ensures e in edges {
      assert (e.0, e.1) in r;
    }
    forall e | e in edges ensures e in r {
      assert (e.0, e.1) in edges;
    }
  }

  /** The adjacency with every edge turned around: `u` is a neighbor of `v` when `v` is a neighbor of `u`. */
  ghost function ReversedAdjacency<V(!new)>(adj: map<V, set<V>>): (r: map<V, set<V>>)
    ensures r.Keys == adj.Keys
    ensures forall v, u :: v in adj ==> (u in r[v] <==> u in adj && v in adj[u])
  {
    map v | v in adj :: set u | u in adj && v in adj[u]
  }

  /** The adjacency built from the turned-around edges is the turned-around adjacency. */
  lemma ReversedArcs<V(!new)>(vertices: set<V>, edges: set<(V, V)>, nbrs: map<V, set<V>>, nbrs': map<V, set<V>>)
    requires forall e :: e in edges ==> e.0 in vertices && e.1 in vertices
    requires ArcAdjacency(vertices, edges, nbrs) && ArcAdjacency(vertices, ReversedEdges(edges), nbrs')
    ensures nbrs' == ReversedAdjacency(nbrs)
  {
    var rev := ReversedAdjacency(nbrs);
    forall v | v in vertices ensures nbrs'[v] == rev[v] {
      forall u | u in nbrs'[v] ensures u in vertices {
        assert (u, v) in edges;
      }
    }
  }

  /** Every neighbor of `x` is listed in `others` or reaches `x`. */
  ghost predicate NeighborsSettled<V(!new)>(adj: map<V, set<V>>, x: V, later: seq<V>)
  {
    x in adj ==> forall y :: y in adj[x] ==> y in later || Reachable(adj, y, x)
  }

  /**
   * A finishing order with the latest finisher first, as the search's deque
   * holds it: each vertex's neighbors come after it in the deque, unless they
   * reach it.
   */
  ghost predicate FinishOrdered<V(!new)>(adj: map<V, set<V>>, order: seq<V>)
  {
    forall i :: 0 <= i < |order| ==> NeighborsSettled(adj, order[i], order[i + 1..])
  }

  /** Putting a vertex whose neighbors are all listed or reach it in front keeps a finishing order. */
  lemma FinishOrderedCons<V(!new)>(adj: map<V, set<V>>, v: V, order: seq<V>)
    requires FinishOrdered(adj, order)
    requires v in adj ==> forall y :: y in adj[v] ==> y in order || Reachable(adj, y, v)
    ensures FinishOrdered(adj, [v] + order)
  {
    var o := [v] + order;
    assert o[1..] == order;
    forall i | 1 <= i < |o| ensures NeighborsSettled(adj, o[i], o[i + 1..]) {
      assert o[i] == order[i - 1] && o[i + 1..] == order[i..];
      assert NeighborsSettled(adj, order[i - 1], order[i..]);
    }
  }

  /**
   * The vertices a finished search from `u` put in front of the deque
   * `mid + order`, joined with `mid`: still repetition-free, and exactly the
   * vertices marked since the search from `v` began.
   */
  ghost function PrependChild<V(!new)>(found: seq<V>, mid: seq<V>, order: seq<V>,
                                       allMarks: set<V>, before: set<V>, after: set<V>, v: V, u: V): (mid': seq<V>)
    requires |mid + order| < |found| && found[|found| - |mid + order|..] == mid + order && found[0] == u
    requires Distinct(found[..|found| - |mid + order|]) && Elements(found[..|found| - |mid + order|]) == (after - before) + {u}
    requires Distinct(mid) && Elements(mid) == before - allMarks - {v}
    requires allMarks + {v} <= before <= after && u in after - before
    ensures found == mid' + order && Distinct(mid') && Elements(mid') == after - allMarks - {v}
  {
    var k := |found| - |mid + order|;
    DistinctConcat(found[..k], mid);
    assert found == found[..k] + (mid + order);
    assert (after - allMarks) - {v} == ((after - before) + {u}) + (before - allMarks - {v});
    found[..k] + mid
  }

  /**
   * `order'` is `order` with the vertices `found` put in front, each once,
   * `v` first: the deque after a search from `v` that finished `found`.
   */
  ghost predicate PrependsFinished<V>(order': seq<V>, order: seq<V>, v: V, found: set<V>)
  {
    && |order| < |order'| && order'[|order'| - |order|..] == order && order'[0] == v
    && Distinct(order'[..|order'| - |order|]) && Elements(order'[..|order'| - |order|]) == found
  }

  /** Putting `v` in front of the vertices `mid` that its search finished before it. */
  lemma PrependSelf<V>(order: seq<V>, mid: seq<V>, v: V, found: set<V>)
    requires Distinct(mid) && Elements(mid) == found - {v}
    ensures PrependsFinished([v] + (mid + order), order, v, found + {v})
  {
    DistinctConcat([v], mid);
    var r := [v] + (mid + order);
    assert r == ([v] + mid) + order;
    assert r[|r| - |order|..] == order;
    assert r[..|r| - |order|] == [v] + mid;
  }

  /**
   * A finishing order with the earliest finisher first, as the topological
   * sort returns it: each vertex's neighbors come before it, unless they
   * reach it.
   */
  ghost predicate PostOrder<V(!new)>(adj: map<V, set<V>>, r: seq<V>)
  {
    forall i :: 0 <= i < |r| ==> NeighborsSettled(adj, r[i], r[..i])
  }

  /** Reversing the search's deque turns it into a finishing order with the earliest finisher first. */
  lemma ReversedFinishOrder<V(!new)>(adj: map<V, set<V>>, order: seq<V>)
    requires FinishOrdered(adj, order)
    ensures PostOrder(adj, Reversed(order))
  {
    var r, n := Reversed(order), |order|;
    forall i | 0 <= i < n ensures NeighborsSettled(adj, r[i], r[..i]) {
      assert NeighborsSettled(adj, order[n - 1 - i], order[n - i..]);
      forall y | y in order[n - i..] ensures y in r[..i] {
        var j :| n - i <= j < n && order[j] == y;
        assert r[n - 1 - j] == y;
      }
    }
  }

  /** No edge closes a cycle: the head of an edge never reaches its tail. */
  ghost predicate Acyclic<V(!new)>(adj: map<V, set<V>>)
  {
    forall x, y :: Step(adj, x, y) ==> !Reachable(adj, y, x)
  }

  /** In an acyclic graph the search's deque lists the tail of every edge before its head: a topological order. */
  lemma FinishOrderIsTopological<V(!new)>(adj: map<V, set<V>>, order: seq<V>)
    requires Acyclic(adj) && FinishOrdered(adj, order) && Distinct(order)
    ensures forall i, j :: 0 <= i < |order| && 0 <= j < |order| && Step(adj, order[i], order[j]) ==> i < j
  {
    forall i, j | 0 <= i < |order| && 0 <= j < |order| && Step(adj, order[i], order[j]) ensures i < j {
      assert NeighborsSettled(adj, order[i], order[i + 1..]);
      var k :| i + 1 <= k < |order| && order[k] == order[j];
    }
  }

  /** In an acyclic graph the earliest-first finishing order lists the head of every edge before its tail. */
  lemma PostOrderReversesEdges<V(!new)>(adj: map<V, set<V>>, r: seq<V>)
    requires Acyclic(adj) && PostOrder(adj, r) && Distinct(r)
    ensures forall i, j :: 0 <= i < |r| && 0 <= j < |r| && Step(adj, r[i], r[j]) ==> j < i
  {
    forall i, j | 0 <= i < |r| && 0 <= j < |r| && Step(adj, r[i], r[j]) ensures j < i {
      assert NeighborsSettled(adj, r[i], r[..i]);
      var k :| 0 <= k < i && r[k] == r[j];
    }
  }

  /** The graph with vertices 0 and 1 and the single edge from 0 to 1. */
  function SingleEdge(): (adj: map<int, set<int>>)
    ensures adj.Keys == {0, 1} && Step(adj, 0, 1)
  {
    map[0 := {1}, 1 := {}]
  }

  /** In the single-edge graph nothing leaves 1, so 1 reaches only itself. */
  lemma SingleEdgeSink()
    ensures !Reachable(SingleEdge(), 1, 0) && ReachSet(SingleEdge(), 1) == {1}
  {
    var adj := SingleEdge();
    forall p | IsWalk(adj, p) && p[0] == 1 ensures |p| == 1 {
      assert |p| == 1 || Step(adj, p[0], p[1]);
    }
    ReachableSelf(adj, 1, {});
  }

  /**
   * On the single edge from 0 to 1, every result the topological sort may
   * return is [1, 0]: the head of the edge comes before its tail, the
   * reverse of a topological order.
   */
  lemma TopsortOnSingleEdge(r: seq<int>)
    requires Distinct(r) && Elements(r) == {0, 1} && PostOrder(SingleEdge(), r)
    ensures r == [1, 0]
  {
    DistinctCardinality(r);
    SingleEdgeSink();
    assert r[0] in Elements(r) && r[1] in Elements(r);
    assert NeighborsSettled(SingleEdge(), r[0], r[..0]);
  }

  /** In the single-edge graph 0 reaches both vertices. */
  lemma SingleEdgeSource()
    ensures ReachSet(SingleEdge(), 0) == {0, 1}
  {
    var adj := SingleEdge();
    ReachableSelf(adj, 0, {});
    ReachableStep(adj, 0, 0, 1);
  }

  /** `c` is the set of vertices reachable from one of its members. */
  ghost predicate SeededBy<V(!new)>(adj: map<V, set<V>>, c: set<V>)
  {
    exists s :: s in c && c == ReachSet(adj, s)
  }

  /**
   * The components the search collects from `seeds`, in turn, once `marks`
   * are marked: a seed not yet marked adds the set of vertices reachable
   * from it as a component and marks them; a marked seed adds nothing.
   */
  ghost function Sweep<V(!new)>(adj: map<V, set<V>>, seeds: seq<V>, marks: set<V>): set<set<V>>
    decreases |seeds|
  {
    if seeds == [] then {}
    else if seeds[0] in marks then Sweep(adj, seeds[1..], marks)
    else {ReachSet(adj, seeds[0])} + Sweep(adj, seeds[1..], marks + ReachSet(adj, seeds[0]))
  }

  /** The sweep from position `i` on is one step of the sweep followed by the sweep from `i + 1` on. */
  lemma SweepAt<V(!new)>(adj: map<V, set<V>>, seeds: seq<V>, i: nat, marks: set<V>)
    requires i < |seeds|
    ensures Sweep(adj, seeds[i..], marks) ==
              if seeds[i] in marks then Sweep(adj, seeds[i + 1..], marks)
              else {ReachSet(adj, seeds[i])} + Sweep(adj, seeds[i + 1..], marks + ReachSet(adj, seeds[i]))
  {
    assert seeds[i..][0] == seeds[i] && seeds[i..][1..] == seeds[i + 1..];
  }

  /**
   * The state of the component search after its first `i` seeds: they are
   * all marked, the marks are the members of the components found so far,
   * each of them seeded, and what the remaining seeds add completes the sweep.
   */
  ghost predicate Swept<V(!new)>(adj: map<V, set<V>>, vertices: set<V>, seeds: seq<V>, i: nat,
                                 components: set<set<V>>, marks: set<V>)
  {
    && i <= |seeds|
    && marks <= vertices
    && (forall j :: 0 <= j < i ==> seeds[j] in marks)
    && marks == Union(components)
    && AllSeeded(adj, components)
    && Sweep(adj, seeds, {}) == components + Sweep(adj, seeds[i..], marks)
  }

  lemma SweptStart<V(!new)>(adj: map<V, set<V>>, vertices: set<V>, seeds: seq<V>)
    ensures Swept(adj, vertices, seeds, 0, {}, {})
  {
    assert seeds[0..] == seeds;
  }

  /** A marked seed leaves the components the sweep has collected as they are. */
  lemma SweptSkip<V(!new)>(adj: map<V, set<V>>, vertices: set<V>, seeds: seq<V>, i: nat,
                           components: set<set<V>>, marks: set<V>)
    requires Swept(adj, vertices, seeds, i, components, marks)
    requires i < |seeds| && seeds[i] in marks
    ensures Swept(adj, vertices, seeds, i + 1, components, marks)
  {
    SweepAt(adj, seeds, i, marks);
  }

  /** An unmarked seed adds the vertices it reaches as one more component and marks them. */
  lemma SweptTake<V(!new)>(adj: map<V, set<V>>, vertices: set<V>, seeds: seq<V>, i: nat,
                           components: set<set<V>>, marks: set<V>, found: set<V>)
    requires Swept(adj, vertices, seeds, i, components, marks)
    requires i < |seeds| && seeds[i] !in marks
    requires found == ReachSet(adj, seeds[i]) && seeds[i] in found && found <= vertices
    ensures Swept(adj, vertices, seeds, i + 1, components + {found}, marks + found)
  {
    SweepAt(adj, seeds, i, marks);
    UnionAdd(components, found);
    assert SeededBy(adj, found);
  }

  /** Once every seed is swept, the components are the sweep's and cover the seeds. */
  lemma SweptDone<V(!new)>(adj: map<V, set<V>>, vertices: set<V>, seeds: seq<V>,
                           components: set<set<V>>, marks: set<V>)
    requires Swept(adj, vertices, seeds, |seeds|, components, marks)
    requires Elements(seeds) == vertices
    ensures components == Sweep(adj, seeds, {})
    ensures forall c :: c in components ==> SeededBy(adj, c)
    ensures forall x :: x in vertices <==> exists c :: c in components && x in c
  {
    assert seeds[|seeds|..] == [];
    forall x | x in vertices ensures x in marks {
      var j :| 0 <= j < |seeds| && seeds[j] == x;
    }
  }

  /** In the reverse of the single-edge graph nothing leaves 0, so 0 does not reach 1. */
  lemma ReversedSingleEdgeSink()
    ensures var rev := ReversedAdjacency(SingleEdge());
            rev.Keys == {0, 1} && rev[1] == {0} && !Reachable(rev, 0, 1)
  {
    var rev := ReversedAdjacency(SingleEdge());
    assert rev[0] == {} && rev[1] == {0};
    forall p | IsWalk(rev, p) && p[0] == 0 ensures |p| == 1 {
      assert |p| == 1 || Step(rev, p[0], p[1]);
    }
  }

  /**
   * On the single edge from 0 to 1, every order the reverse graph's
   * topological sort may return is [0, 1].
   */
  lemma ReverseTopsortOnSingleEdge(seeds: seq<int>)
    requires Distinct(seeds) && Elements(seeds) == {0, 1}
    requires PostOrder(ReversedAdjacency(SingleEdge()), seeds)
    ensures seeds == [0, 1]
  {
    DistinctCardinality(seeds);
    ReversedSingleEdgeSink();
    assert seeds[0] in Elements(seeds) && seeds[1] in Elements(seeds);
    assert NeighborsSettled(ReversedAdjacency(SingleEdge()), seeds[0], seeds[..0]);
  }

  /**
   * On the single edge from 0 to 1, the component search seeds from 0 and
   * then 1, as the reverse graph's earliest-first finishing order puts 0
   * first, so its one component is {0, 1}, which is not strongly connected
   * since 1 does not reach 0.
   */
  lemma ComponentsOnSingleEdge(seeds: seq<int>, components: set<set<int>>)
    requires Distinct(seeds) && Elements(seeds) == {0, 1}
    requires PostOrder(ReversedAdjacency(SingleEdge()), seeds)
    requires components == Sweep(SingleEdge(), seeds, {})
    ensures components == {{0, 1}} && !Reachable(SingleEdge(), 1, 0)
  {
    ReverseTopsortOnSingleEdge(seeds);
    SingleEdgeSink();
    SingleEdgeSource();
    var adj := SingleEdge();
    assert seeds[1..] == [1] && seeds[1..][1..] == [];
    assert Sweep(adj, [1], {0, 1}) == Sweep(adj, [], {0, 1}) == {};
    assert Sweep(adj, seeds, {}) == {{0, 1}} + Sweep(adj, [1], {0, 1});
  }

  /** The members of the components. */
  ghost function Union<V(!new)>(components: set<set<V>>): (u: set<V>)
    ensures forall x :: x in u <==> exists c :: c in components && x in c
  {
    set c, x | c in components && x in c :: x
  }

  ghost predicate AllSeeded<V(!new)>(adj: map<V, set<V>>, components: set<set<V>>)
  {
    forall c :: c in components ==> SeededBy(adj, c)
  }

  /** Adding a component adds its members to the union. */
  lemma UnionAdd<V(!new)>(components: set<set<V>>, c: set<V>)
    ensures Union(components + {c}) == Union(components) + c
  {
  }

  /** Two searches in a row add to `newMarks` what they add to `allMarks`, plus their start vertices. */
  lemma MarksGrow<V>(n0: set<V>, a0: set<V>, n1: set<V>, a1: set<V>, n2: set<V>, a2: set<V>, v: V, u: V)
    requires a0 <= a1 <= a2 && v in a1 && u in a2 - a1
    requires n1 == n0 + (a1 - a0) + {v} && n2 == n1 + (a2 - a1) + {u}
    ensures n2 == n0 + (a2 - a0) + {v}
  {
    assert a2 - a0 == (a1 - a0) + (a2 - a1);
  }

  class DirectedGraph<V(==, !new)> {
    var vertices: set<V>
    var edges: set<(V, V)>
    var neighbors: map<V, set<V>>

    /** Every vertex has a neighbor set, and `u` is a neighbor of `v` exactly when the edge `(v, u)` is present. */
    ghost predicate Valid()
      reads this
    {
      && (forall e :: e in edges ==> e.0 in vertices && e.1 in vertices)
      && ArcAdjacency(vertices, edges, neighbors)
    }

    /** The adjacency of a valid graph is closed. */
    lemma AdjacencyClosed()
      requires Valid()
      ensures Closed(neighbors) && neighbors.Keys == vertices
    {
    }

    /** Builds `neighbors`: an empty set per vertex, then the head of every edge under its tail. */
    constructor (vertices: set<V>, edges: set<(V, V)>)
      requires forall e :: e in edges ==> e.0 in vertices && e.1 in vertices
      ensures this.vertices == vertices && this.edges == edges
      ensures Valid()
    {
      var nbrs: map<V, set<V>> := map[];
      var rest := vertices;
      while rest != {}
        invariant rest <= vertices
        invariant nbrs.Keys == vertices - rest
        invariant forall v :: v in nbrs ==> nbrs[v] == {}
      {
        var v :| v in rest;
        nbrs := nbrs[v := {}];
        rest := rest - {v};
      }
      assert ArcAdjacency(vertices, {}, nbrs);
      nbrs := AddArcs(vertices, edges, nbrs);
      this.vertices := vertices;
      this.edges := edges;
      this.neighbors := nbrs;
    }

    /**
     * What a search started at `v` may assume about the search around it:
     * everything finished is marked, `v` is not, the deque is a finishing
     * order, and every vertex that is marked but not finished (the open
     * callers) reaches `v`.
     */
    ghost predicate Open(v: V, allMarks: set<V>, order: seq<V>)
      reads this
    {
      && Elements(order) <= allMarks && v !in allMarks
      && FinishOrdered(neighbors, order)
      && forall g :: g in allMarks && g !in order ==> Reachable(neighbors, g, v)
    }

    /**
     * The state of the search from `v` while it walks the neighbors of `v`:
     * the finished vertices are marked and in finishing order, and the open
     * vertices are those open around the search plus `v` itself.
     */
    ghost predicate Searching(v: V, allMarks: set<V>, order: seq<V>, allMarks': set<V>, order': seq<V>)
      reads this
    {
      && Elements(order') <= allMarks'
      && FinishOrdered(neighbors, order')
      && allMarks' - Elements(order') == (allMarks - Elements(order)) + {v}
    }

    /** The neighbors of `v` seen so far are finished or reach `v`. */
    ghost predicate SettledNeighbors(v: V, order': seq<V>, seen: set<V>)
      reads this
    {
      forall y :: y in seen ==> y in order' || Reachable(neighbors, y, v)
    }

    /** An unmarked neighbor `u` of `v` may start a search of its own: every open vertex reaches it through `v`. */
    lemma OpenForChild(v: V, allMarks: set<V>, order: seq<V>, allMarks': set<V>, order': seq<V>, u: V)
      requires Open(v, allMarks, order) && Searching(v, allMarks, order, allMarks', order')
      requires v in neighbors && u in neighbors[v] && u !in allMarks'
      ensures Open(u, allMarks', order')
    {
      ReachableSelf(neighbors, v, {});
      forall g | g in allMarks' && g !in order' ensures Reachable(neighbors, g, u) {
        assert g in allMarks' - Elements(order');
        if g != v {
          assert g in allMarks && g !in order;
        }
        ReachableStep(neighbors, g, v, u);
      }
    }

    /** After the search from the neighbor `u` returns, `u` is finished and the state is kept. */
    lemma SearchAfterChild(v: V, allMarks: set<V>, order: seq<V>, before: set<V>, orderBefore: seq<V>,
                           allMarks': set<V>, order': seq<V>, seen: set<V>, u: V)
      requires Searching(v, allMarks, order, before, orderBefore) && SettledNeighbors(v, orderBefore, seen)
      requires before <= allMarks' && u in allMarks'
      requires PrependsFinished(order', orderBefore, u, (allMarks' - before) + {u})
      requires FinishOrdered(neighbors, order') && allMarks' - Elements(order') == before - Elements(orderBefore)
      ensures Searching(v, allMarks, order, allMarks', order') && SettledNeighbors(v, order', seen + {u})
    {
      var k := |order'| - |orderBefore|;
      assert order' == order'[..k] + orderBefore;
      assert Elements(order') == Elements(order'[..k]) + Elements(orderBefore);
      assert order'[0] == u;
      forall y | y in seen + {u} ensures y in order' || Reachable(neighbors, y, v) {
        if y in orderBefore {
          assert y in Elements(orderBefore);
        }
      }
    }

    /** A neighbor `u` that is already marked is finished, or open and so reaches `v`. */
    lemma SearchSkip(v: V, allMarks: set<V>, order: seq<V>, allMarks': set<V>, order': seq<V>, seen: set<V>, u: V)
      requires Open(v, allMarks, order) && Searching(v, allMarks, order, allMarks', order')
      requires SettledNeighbors(v, order', seen) && u in allMarks'
      ensures SettledNeighbors(v, order', seen + {u})
    {
      ReachableSelf(neighbors, v, {});
      if u !in order' {
        assert u in allMarks' - Elements(order');
        if u != v {
          assert u in allMarks && u !in order;
        }
      }
    }

    /**
     * The marks of a search from `v` begun with `allMarks`: they only grow,
     * stay within the vertices, the new ones other than `v` have all their
     * neighbors marked, and every new one is reachable from `v` through
     * vertices that were unmarked.
     */
    ghost predicate Marked(v: V, allMarks: set<V>, allMarks': set<V>)
      reads this
    {
      && allMarks + {v} <= allMarks' && allMarks' - allMarks <= vertices
      && (forall x :: x in allMarks' && x !in allMarks && x != v ==> x in neighbors && neighbors[x] <= allMarks')
      && (forall w :: w in allMarks' && w !in allMarks ==> ReachableAvoiding(neighbors, v, w, allMarks))
    }

    /** The marks a finished search from the unmarked neighbor `u` adds keep the marks of the search from `v`. */
    lemma MarkedChild(v: V, allMarks: set<V>, before: set<V>, after: set<V>, u: V)
      requires Valid() && Marked(v, allMarks, before)
      requires v in neighbors && u in neighbors[v] && u !in before
      requires after == before + {u} + ReachAvoidSet(neighbors, u, before)
      requires forall x :: x in after && (x !in before || x == u) ==> neighbors[x] <= after
      ensures Marked(v, allMarks, after)
    {
      AdjacencyClosed();
      forall w | w in after && w !in before
        ensures ReachableAvoiding(neighbors, v, w, allMarks)
      {
        if w == u {
          ReachableSelf(neighbors, u, before);
        }
        StepThenReach(neighbors, v, u, w, allMarks, before);
      }
    }

    /** Once all neighbors of `v` are marked, the marks are `v` and everything reachable from it through unmarked vertices. */
    lemma MarkedDone(v: V, allMarks: set<V>, allMarks': set<V>)
      requires Valid() && Marked(v, allMarks, allMarks') && v in neighbors && neighbors[v] <= allMarks'
      ensures allMarks' == allMarks + {v} + ReachAvoidSet(neighbors, v, allMarks)
      ensures forall x :: x in allMarks' && (x !in allMarks || x == v) ==> neighbors[x] <= allMarks'
    {
      AdjacencyClosed();
      forall w | w in ReachAvoidSet(neighbors, v, allMarks) ensures w in allMarks' {
        ClosedContainsReach(neighbors, allMarks', allMarks, v, w);
      }
    }

    /**
     * Recursive depth-first search. `allMarks` gains `v` and every vertex
     * reachable from `v` through unmarked vertices, `newMarks` gains the
     * same, and each of them is put at the front of the deque `order` as it
     * finishes, so `v` ends up first.
     */
    method Dfs(v: V, newMarks: set<V>, allMarks: set<V>, order: seq<V>)
      returns (newMarks': set<V>, allMarks': set<V>, order': seq<V>)
      requires Valid() && v in vertices
      ensures allMarks' == allMarks + {v} + ReachAvoidSet(neighbors, v, allMarks)
      ensures newMarks' == newMarks + (allMarks' - allMarks) + {v}
      ensures forall x :: x in allMarks' && (x !in allMarks || x == v) ==> neighbors[x] <= allMarks'
      ensures PrependsFinished(order', order, v, (allMarks' - allMarks) + {v})
      ensures Open(v, allMarks, order) ==>
                FinishOrdered(neighbors, order') && allMarks' - Elements(order') == allMarks - Elements(order)
      decreases (vertices - allMarks) + {v}
    {
      ghost var open := Open(v, allMarks, order);
      VisitStart(v, open, newMarks, allMarks, order);
      newMarks' := newMarks + {v};
      allMarks' := allMarks + {v};
      order' := order;
      ghost var mid: seq<V> := [];
      var todo := neighbors[v];
      while todo != {}
        invariant Visiting(v, open, newMarks, allMarks, order, todo, newMarks', allMarks', order', mid)
        decreases todo
      {
        var u :| u in todo;
        if u !in allMarks' {
          VisitPrepare(v, open, newMarks, allMarks, order, todo, newMarks', allMarks', order', mid, u);
          var newMarks2, allMarks2, found := Dfs(u, newMarks', allMarks', order');
          mid := VisitChild(v, open, newMarks, allMarks, order, todo, newMarks', allMarks', order', mid, u,
                            newMarks2, allMarks2, found);
          newMarks', allMarks', order' := newMarks2, allMarks2, found;
        } else {
          VisitSkip(v, open, newMarks, allMarks, order, todo, newMarks', allMarks', order', mid, u);
        }
        todo := todo - {u};
      }
      VisitDone(v, open, newMarks, allMarks, order, newMarks', allMarks', order', mid);
      order' := [v] + order';
    }

    /**
     * The loop invariant of the search from `v` over the neighbors still in
     * `todo`: the neighbors already walked are marked, the marks are those of
     * a search from `v`, `newMarks'` grew with `allMarks'`, the deque is
     * `order` with the finished vertices `mid` in front, and, when the search
     * around it is open, the finishing order and the open vertices are kept.
     */
    ghost predicate Visiting(v: V, open: bool, newMarks: set<V>, allMarks: set<V>, order: seq<V>, todo: set<V>,
                             newMarks': set<V>, allMarks': set<V>, order': seq<V>, mid: seq<V>)
      reads this
    {
      && v in neighbors && todo <= neighbors[v] && neighbors[v] - todo <= allMarks'
      && Marked(v, allMarks, allMarks')
      && newMarks' == newMarks + (allMarks' - allMarks) + {v}
      && order' == mid + order && Distinct(mid) && Elements(mid) == allMarks' - allMarks - {v}
      && (open ==> Open(v, allMarks, order) && Searching(v, allMarks, order, allMarks', order'))
      && (open ==> SettledNeighbors(v, order', neighbors[v] - todo))
    }

    lemma VisitStart(v: V, open: bool, newMarks: set<V>, allMarks: set<V>, order: seq<V>)
      requires Valid() && v in vertices && (open ==> Open(v, allMarks, order))
      ensures Visiting(v, open, newMarks, allMarks, order, neighbors[v], newMarks + {v}, allMarks + {v}, order, [])
    {
      AdjacencyClosed();
      ReachableSelf(neighbors, v, allMarks);
      assert [] + order == order;
    }

    /** An unmarked neighbor `u` is a vertex, its search is smaller, and it is open when `v` is. */
    lemma VisitPrepare(v: V, open: bool, newMarks: set<V>, allMarks: set<V>, order: seq<V>, todo: set<V>,
                       newMarks': set<V>, allMarks': set<V>, order': seq<V>, mid: seq<V>, u: V)
      requires Valid() && Visiting(v, open, newMarks, allMarks, order, todo, newMarks', allMarks', order', mid)
      requires u in todo && u !in allMarks'
      ensures u in vertices && (vertices - allMarks') + {u} < (vertices - allMarks) + {v}
      ensures open ==> Open(u, allMarks', order')
    {
      AdjacencyClosed();
      if open {
        OpenForChild(v, allMarks, order, allMarks', order', u);
      }
    }

    /** After the search from the unmarked neighbor `u` returns, the invariant holds without `u`. */
    lemma VisitChild(v: V, open: bool, newMarks: set<V>, allMarks: set<V>, order: seq<V>, todo: set<V>,
                     newMarks': set<V>, allMarks': set<V>, order': seq<V>, mid: seq<V>, u: V,
                     newMarks2: set<V>, allMarks2: set<V>, found: seq<V>)
      returns (mid2: seq<V>)
      requires Valid() && Visiting(v, open, newMarks, allMarks, order, todo, newMarks', allMarks', order', mid)
      requires u in todo && u !in allMarks'
      requires allMarks2 == allMarks' + {u} + ReachAvoidSet(neighbors, u, allMarks')
      requires newMarks2 == newMarks' + (allMarks2 - allMarks') + {u}
      requires forall x :: x in allMarks2 && (x !in allMarks' || x == u) ==> neighbors[x] <= allMarks2
      requires PrependsFinished(found, order', u, (allMarks2 - allMarks') + {u})
      requires open ==> FinishOrdered(neighbors, found) && allMarks2 - Elements(found) == allMarks' - Elements(order')
      ensures Visiting(v, open, newMarks, allMarks, order, todo - {u}, newMarks2, allMarks2, found, mid2)
    {
      MarksGrow(newMarks, allMarks, newMarks', allMarks', newMarks2, allMarks2, v, u);
      MarkedChild(v, allMarks, allMarks', allMarks2, u);
      if open {
        SearchAfterChild(v, allMarks, order, allMarks', order', allMarks2, found, neighbors[v] - todo, u);
        assert neighbors[v] - (todo - {u}) == (neighbors[v] - todo) + {u};
      }
      mid2 := PrependChild(found, mid, order, allMarks, allMarks', allMarks2, v, u);
    }

    /** A neighbor `u` that is already marked changes nothing but `todo`. */
    lemma VisitSkip(v: V, open: bool, newMarks: set<V>, allMarks: set<V>, order: seq<V>, todo: set<V>,
                    newMarks': set<V>, allMarks': set<V>, order': seq<V>, mid: seq<V>, u: V)
      requires Visiting(v, open, newMarks, allMarks, order, todo, newMarks', allMarks', order', mid)
      requires u in todo && u in allMarks'
      ensures Visiting(v, open, newMarks, allMarks, order, todo - {u}, newMarks', allMarks', order', mid)
    {
      if open {
        SearchSkip(v, allMarks, order, allMarks', order', neighbors[v] - todo, u);
        assert neighbors[v] - (todo - {u}) == (neighbors[v] - todo) + {u};
      }
    }

    /** With every neighbor walked, putting `v` in front gives what the search promises. */
    lemma VisitDone(v: V, open: bool, newMarks: set<V>, allMarks: set<V>, order: seq<V>,
                    newMarks': set<V>, allMarks': set<V>, order': seq<V>, mid: seq<V>)
      requires Valid() && Visiting(v, open, newMarks, allMarks, order, {}, newMarks', allMarks', order', mid)
      requires open == Open(v, allMarks, order)
      ensures allMarks' == allMarks + {v} + ReachAvoidSet(neighbors, v, allMarks)
      ensures newMarks' == newMarks + (allMarks' - allMarks) + {v}
      ensures forall x :: x in allMarks' && (x !in allMarks || x == v) ==> neighbors[x] <= allMarks'
      ensures PrependsFinished([v] + order', order, v, (allMarks' - allMarks) + {v})
      ensures Open(v, allMarks, order) ==>
                FinishOrdered(neighbors, [v] + order') && allMarks' - Elements([v] + order') == allMarks - Elements(order)
    {
      MarkedDone(v, allMarks, allMarks');
      if open {
        FinishOrderedCons(neighbors, v, order');
      }
      PrependSelf(order, mid, v, allMarks' - allMarks);
    }

    /**
     * The finishing deque of depth-first searches started, in turn, from
     * every vertex not yet marked: each vertex once, latest finisher first.
     */
    method TopologicalOrder() returns (order: seq<V>)
      requires Valid()
      ensures Distinct(order) && Elements(order) == vertices
      ensures FinishOrdered(neighbors, order)
    {
      AdjacencyClosed();
      var marks: set<V> := {};
      order := [];
      var todo := vertices;
      while todo != {}
        invariant todo <= vertices && vertices - todo <= marks && marks <= vertices
        invariant Elements(order) == marks && Distinct(order) && FinishOrdered(neighbors, order)
      {
        var v :| v in todo;
        todo := todo - {v};
        if v !in marks {
          var _, marks', order' := Dfs(v, {}, marks, order);
          var k := |order'| - |order|;
          DistinctConcat(order'[..k], order);
          assert order' == order'[..k] + order;
          marks, order := marks', order';
        }
      }
    }

    /**
     * The library's topological sort: the finishing deque reversed, so the
     * earliest finisher comes first.
     */
    method Topsort() returns (r: seq<V>)
      requires Valid()
      ensures Distinct(r) && Elements(r) == vertices && |r| == |vertices|
      ensures PostOrder(neighbors, r)
    {
      var order := TopologicalOrder();
      r := Reversed(order);
      ReversedElements(order);
      ReversedFinishOrder(neighbors, order);
      DistinctCardinality(r);
    }

    /** A new graph on a copy of the vertices with every edge turned around. */
    method Reverse() returns (g: DirectedGraph<V>)
      requires Valid()
      ensures fresh(g) && g.Valid()
      ensures g.vertices == vertices && g.edges == ReversedEdges(edges)
      ensures forall v, u :: v in vertices && u in vertices ==> (u in g.neighbors[v] <==> v in neighbors[u])
      ensures g.neighbors == ReversedAdjacency(neighbors)
    {
      var vs := set v | v in vertices;
      var es := ReversedEdges(edges);
      g := new DirectedGraph(vs, es);
      ReversedArcs(vertices, edges, neighbors, g.neighbors);
    }

    /**
     * For each vertex of the reverse graph's topological sort (the ghost
     * `seeds`) not yet in a component, the set of vertices reachable from
     * it. The components cover the vertices; they need not be strongly
     * connected nor disjoint.
     */
    method Components() returns (components: set<set<V>>, ghost seeds: seq<V>)
      requires Valid()
      ensures Distinct(seeds) && Elements(seeds) == vertices && PostOrder(ReversedAdjacency(neighbors), seeds)
      ensures components == Sweep(neighbors, seeds, {})
      ensures forall c :: c in components ==> SeededBy(neighbors, c)
      ensures forall x :: x in vertices <==> exists c :: c in components && x in c
    {
      var order := ReverseTopsort();
      seeds := order;
      components := SweepFrom(order);
    }

    /** The loop of `components`: a search from every seed not yet in a component. */
    method SweepFrom(seeds: seq<V>) returns (components: set<set<V>>)
      requires Valid() && Elements(seeds) == vertices
      ensures components == Sweep(neighbors, seeds, {})
      ensures forall c :: c in components ==> SeededBy(neighbors, c)
      ensures forall x :: x in vertices <==> exists c :: c in components && x in c
    {
      components := {};
      var allMarks: set<V> := {};
      SweptStart(neighbors, vertices, seeds);
      for i := 0 to |seeds|
        invariant Swept(neighbors, vertices, seeds, i, components, allMarks)
      {
        var v := seeds[i];
        if v !in allMarks {
          var marks := SearchFromScratch(v);
          SweptTake(neighbors, vertices, seeds, i, components, allMarks, marks);
          allMarks := allMarks + marks;
          components := components + {marks};
        } else {
          SweptSkip(neighbors, vertices, seeds, i, components, allMarks);
        }
      }
      SweptDone(neighbors, vertices, seeds, components, allMarks);
    }

    /**
     * `self.reverse().topsort()`: the vertices, each once, in the order the
     * component search seeds from them, which is a finishing order of the
     * reverse graph with the earliest finisher first.
     */
    method ReverseTopsort() returns (seeds: seq<V>)
      requires Valid()
      ensures Distinct(seeds) && Elements(seeds) == vertices
      ensures PostOrder(ReversedAdjacency(neighbors), seeds)
    {
      var rev := Reverse();
      seeds := rev.Topsort();
    }

    /**
     * The marks of a search from `v` with nothing marked, as the component
     * search takes them: exactly the vertices reachable from `v`.
     */
    method SearchFromScratch(v: V) returns (marks: set<V>)
      requires Valid() && v in vertices
      ensures marks == ReachSet(neighbors, v)
      ensures v in marks && marks <= vertices && SeededBy(neighbors, marks)
    {
      AdjacencyClosed();
      var newMarks, _, _ := Dfs(v, {}, {}, []);
      marks := newMarks;
      ReachAvoidNothing(neighbors, v);
      ReachableSelf(neighbors, v, {});
      assert marks == ReachSet(neighbors, v);
    }

    /** A vertex that is nobody's neighbor, or `None` when every vertex is some vertex's neighbor. */
    method FindSource() returns (r: Option<V>)
      requires Valid()
      ensures r.Some? ==> r.value in vertices && forall x :: x in vertices ==> r.value !in neighbors[x]
      ensures r.None? ==> forall v :: v in vertices ==> exists x :: x in vertices && v in neighbors[x]
    {
      var allNeighbors: set<V> := {};
      var rest := neighbors.Keys;
      while rest != {}
        invariant rest <= neighbors.Keys
        invariant forall y :: y in allNeighbors <==> exists x :: x in neighbors.Keys - rest && y in neighbors[x]
      {
        var x :| x in rest;
        allNeighbors := allNeighbors + neighbors[x];
        rest := rest - {x};
      }
      assert neighbors.Keys - rest == vertices;
      var todo := vertices;
      while todo != {}
        invariant todo <= vertices
        invariant forall v :: v in vertices - todo ==> v in allNeighbors
      {
        var v :| v in todo;
        if v !in allNeighbors {
          return Some(v);
        }
        todo := todo - {v};
      }
      return None;
    }
  }

}
