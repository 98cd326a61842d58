/**
 * The weighted undirected graph of the library: edges are triples
 * `(u, v, w)`, the `neighbors` map is symmetric as in the unweighted graph,
 * and `weights` maps both orientations of every edge to its weight. Dijkstra's
 * search and the Prim-style search fill the caller's `parents` (and `costs`)
 * maps; here those maps are passed in and their new values handed back.
 */
module Weighted {
  import opened Collections
  import opened Paths
  import opened ParentMaps
  import opened Heaps

  /** Some edge joins `a` and `b`, listed in either order. */
  ghost predicate Links<V(!new)>(edges: set<(V, V, int)>, a: V, b: V)
  {
    exists e :: e in edges && ((e.0 == a && e.1 == b) || (e.0 == b && e.1 == a))
  }

  /** `nbrs` gives every vertex the other ends of the edges at it. */
  ghost predicate LinkAdjacency<V(!new)>(vertices: set<V>, edges: set<(V, V, int)>, nbrs: map<V, set<V>>)
  {
    && nbrs.Keys == vertices
    && (forall v, u :: v in vertices ==> (u in nbrs[v] <==> Links(edges, v, u)))
  }

  /**
   * `weights` holds both orientations of every joined pair, the same weight
   * for both, and that weight is the weight of an edge joining the pair.
   */
  ghost predicate WeightsFrom<V(!new)>(edges: set<(V, V, int)>, weights: map<(V, V), int>)
  {
    && (forall a, b :: (a, b) in weights <==> Links(edges, a, b))
    && (forall a, b :: (a, b) in weights ==> (b, a) in weights && weights[(b, a)] == weights[(a, b)])
    && (forall a, b :: (a, b) in weights ==> (a, b, weights[(a, b)]) in edges || (b, a, weights[(a, b)]) in edges)
  }

  /** One more edge links its two ends and nothing else. */
  lemma LinksAdd<V(!new)>(done: set<(V, V, int)>, e: (V, V, int), x: V, y: V)
    ensures Links(done + {e}, x, y) <==> Links(done, x, y) || (x == e.0 && y == e.1) || (x == e.1 && y == e.0)
  {
    if Links(done + {e}, x, y) && !((x == e.0 && y == e.1) || (x == e.1 && y == e.0)) {
      var f :| f in done + {e} && ((f.0 == x && f.1 == y) || (f.0 == y && f.1 == x));
      assert f in done;
    }
  }

  /** Adding both ends of one more edge keeps the adjacency exact. */
  lemma AddLink<V(!new)>(vertices: set<V>, done: set<(V, V, int)>, nbrs: map<V, set<V>>, e: (V, V, int))
    requires e.0 in vertices && e.1 in vertices
    requires LinkAdjacency(vertices, done, nbrs)
    ensures var n1 := nbrs[e.1 := nbrs[e.1] + {e.0}];
            LinkAdjacency(vertices, done + {e}, n1[e.0 := n1[e.0] + {e.1}])
  {
    var n1 := nbrs[e.1 := nbrs[e.1] + {e.0}];
    var n2 := n1[e.0 := n1[e.0] + {e.1}];
    forall x, y | x in vertices ensures y in n2[x] <==> Links(done + {e}, x, y) {
      assert y in n2[x] <==> y in nbrs[x] || (x == e.1 && y == e.0) || (x == e.0 && y == e.1);
      LinksAdd(done, e, x, y);
    }
  }

  /** Recording both orientations of one more edge keeps the weights drawn from the edges. */
  lemma AddWeight<V(!new)>(done: set<(V, V, int)>, weights: map<(V, V), int>, e: (V, V, int))
    requires WeightsFrom(done, weights)
    ensures WeightsFrom(done + {e}, weights[(e.0, e.1) := e.2][(e.1, e.0) := e.2])
  {
    var d2, w2 := done + {e}, weights[(e.0, e.1) := e.2][(e.1, e.0) := e.2];
    forall a, b ensures (a, b) in w2 <==> Links(d2, a, b) {
      LinksAdd(done, e, a, b);
    }
  }

  /** The second loop of the constructor: each edge adds each end to the other's neighbor set. */
  method AddLinks<V(==, !new)>(vertices: set<V>, edges: set<(V, V, int)>, nbrs0: map<V, set<V>>)
    returns (nbrs: map<V, set<V>>)
    requires forall e :: e in edges ==> e.0 in vertices && e.1 in vertices
    requires LinkAdjacency(vertices, {}, nbrs0)
    ensures LinkAdjacency(vertices, edges, nbrs)
  {
    nbrs := nbrs0;
    var todo := edges;
    ghost var done: set<(V, V, int)> := {};
    while todo != {}
      invariant done + todo == edges && done !! todo
      invariant LinkAdjacency(vertices, done, nbrs)
    {
      var e :| e in todo;
      AddLink(vertices, done, nbrs, e);
      var (u, v, _) := e;
      nbrs := nbrs[v := nbrs[v] + {u}];
      nbrs := nbrs[u := nbrs[u] + {v}];
      todo := todo - {e};
      done := done + {e};
    }
    assert done == edges;
  }

  /** The third loop of the constructor: each edge's weight under both of its orientations. */
  method AddWeights<V(==, !new)>(edges: set<(V, V, int)>) returns (weights: map<(V, V), int>)
    ensures WeightsFrom(edges, weights)
  {
    weights := map[];
    var todo := edges;
    ghost var done: set<(V, V, int)> := {};
    while todo != {}
      invariant done + todo == edges && done !! todo
      invariant WeightsFrom(done, weights)
    {
      var e :| e in todo;
      AddWeight(done, weights, e);
      var (u, v, w) := e;
      weights := weights[(u, v) := w];
      weights := weights[(v, u) := w];
      todo := todo - {e};
      done := done + {e};
    }
    assert done == edges;
  }

  /** When one edge is the only one joining its ends, both orientations carry its weight. */
  lemma OnlyEdgeWeight<V(!new)>(edges: set<(V, V, int)>, weights: map<(V, V), int>, u: V, v: V, w: int)
    requires WeightsFrom(edges, weights) && (u, v, w) in edges
    requires forall w' :: (u, v, w') in edges || (v, u, w') in edges ==> w' == w
    ensures (u, v) in weights && (v, u) in weights && weights[(u, v)] == w && weights[(v, u)] == w
  {
    assert (u, v, w).0 == u;
    assert Links(edges, u, v);
  }

  /** No weight is negative. */
  ghost predicate NonNegative<V(!new)>(weights: map<(V, V), int>)
  {
    forall k :: k in weights ==> weights[k] >= 0
  }

  /** The weight of the edge from `a` to `b`, or 0 when they are not joined. */
  ghost function EdgeWeight<V>(weights: map<(V, V), int>, a: V, b: V): int
  {
    if (a, b) in weights then weights[(a, b)] else 0
  }

  /** The total weight of the steps of a walk. */
  ghost function WalkWeight<V>(weights: map<(V, V), int>, p: seq<V>): int
    decreases |p|
  {
    if |p| <= 1 then 0 else WalkWeight(weights, p[..|p| - 1]) + EdgeWeight(weights, p[|p| - 2], p[|p| - 1])
  }

  /** Extending a walk by one step adds that step's weight. */
  lemma WalkWeightSnoc<V>(weights: map<(V, V), int>, p: seq<V>, z: V)
    requires |p| >= 1
    ensures WalkWeight(weights, p + [z]) == WalkWeight(weights, p) + EdgeWeight(weights, p[|p| - 1], z)
  {
    assert (p + [z])[..|p|] == p;
  }

  /** With no negative weight, no walk has negative weight. */
  lemma {:induction false} WalkWeightNonNegative<V(!new)>(weights: map<(V, V), int>, p: seq<V>)
    requires NonNegative(weights)
    ensures WalkWeight(weights, p) >= 0
    decreases |p|
  {
    if |p| > 1 {
      WalkWeightNonNegative(weights, p[..|p| - 1]);
    }
  }

  /** With no negative weight, a walk weighs at least as much as any of its prefixes. */
  lemma {:induction false} WalkWeightPrefix<V(!new)>(weights: map<(V, V), int>, p: seq<V>, k: nat)
    requires NonNegative(weights) && 1 <= k <= |p|
    ensures WalkWeight(weights, p[..k]) <= WalkWeight(weights, p)
    decreases |p|
  {
    if k < |p| {
      var q := p[..|p| - 1];
      WalkWeightPrefix(weights, q, k);
      assert q[..k] == p[..k];
      assert EdgeWeight(weights, p[|p| - 2], p[|p| - 1]) >= 0;
      assert WalkWeight(weights, p) == WalkWeight(weights, q) + EdgeWeight(weights, p[|p| - 2], p[|p| - 1]);
    } else {
      assert p[..k] == p;
    }
  }

  /** The first position of a walk outside `s`, given that its last vertex is outside `s`. */
  lemma FirstOutside<V>(q: seq<V>, s: set<V>) returns (k: nat)
    requires |q| >= 1 && q[|q| - 1] !in s
    ensures k < |q| && q[k] !in s && forall i :: 0 <= i < k ==> q[i] in s
  {
    k := 0;
    while q[k] in s
      invariant k < |q| && forall i :: 0 <= i < k ==> q[i] in s
      decreases |q| - k
    {
      k := k + 1;
    }
  }

  /** Key `x` is in both maps or in neither, with the same value. */
  predicate SameAt<K, T(==)>(m: map<K, T>, m': map<K, T>, x: K)
  {
    (x in m <==> x in m') && (x in m ==> m'[x] == m[x])
  }

  /**
   * What relaxing the edge from `p` to its neighbor `c` did: when `c` had no
   * cost or a higher one than the cost through `p`, it got that cost, the
   * parent `p` and a queue entry; otherwise both maps kept it as it was.
   */
  ghost predicate RelaxedAt<V(!new)>(wt: map<(V, V), int>, p: V, pcost: int, parents: map<V, V>, costs: map<V, int>,
                                     parents': map<V, V>, costs': map<V, int>, frontier': seq<(int, V)>, c: V)
  {
    && (p, c) in wt
    && if c !in costs || pcost + wt[(p, c)] < costs[c] then
         && c in costs' && costs'[c] == pcost + wt[(p, c)]
         && c in parents' && parents'[c] == p
         && (costs'[c], c) in frontier'
       else
         SameAt(parents, parents', c) && SameAt(costs, costs', c)
  }

  /** The queue entries relaxing the neighbors `seen` of `p` pushes: one per neighbor whose cost the path through `p` lowers. */
  ghost function Pushed<V(!new)>(wt: map<(V, V), int>, p: V, pcost: int, costs: map<V, int>, seen: set<V>): set<(int, V)>
  {
    set c | c in seen && (p, c) in wt && (c !in costs || pcost + wt[(p, c)] < costs[c]) :: (pcost + wt[(p, c)], c)
  }

  /**
   * Relaxing the neighbors `seen` of `p`: each of them as above, every other
   * key untouched, and the entries appended to the queue are exactly the
   * pushed ones, each once.
   */
  ghost predicate RelaxEffect<V(!new)>(wt: map<(V, V), int>, p: V, pcost: int,
                                       parents: map<V, V>, costs: map<V, int>, frontier: seq<(int, V)>,
                                       parents': map<V, V>, costs': map<V, int>, frontier': seq<(int, V)>, seen: set<V>)
  {
    && (forall c :: c in seen ==> RelaxedAt(wt, p, pcost, parents, costs, parents', costs', frontier', c))
    && (forall x :: x !in seen ==> SameAt(parents, parents', x) && SameAt(costs, costs', x))
    && |frontier| <= |frontier'| && frontier'[..|frontier|] == frontier
    && Distinct(frontier'[|frontier|..]) && Elements(frontier'[|frontier|..]) == Pushed(wt, p, pcost, costs, seen)
  }

  lemma RelaxEffectStart<V(!new)>(wt: map<(V, V), int>, p: V, pcost: int,
                                  parents: map<V, V>, costs: map<V, int>, frontier: seq<(int, V)>)
    ensures RelaxEffect(wt, p, pcost, parents, costs, frontier, parents, costs, frontier, {})
  {
    assert frontier[|frontier|..] == [];
  }

  /** A neighbor `c` not relaxed before, whose cost the path through `p` lowers. */
  lemma RelaxEffectUpdate<V(!new)>(wt: map<(V, V), int>, p: V, pcost: int,
                                   parents: map<V, V>, costs: map<V, int>, frontier: seq<(int, V)>,
                                   parents': map<V, V>, costs': map<V, int>, frontier': seq<(int, V)>, seen: set<V>,
                                   c: V, w: int)
    requires RelaxEffect(wt, p, pcost, parents, costs, frontier, parents', costs', frontier', seen)
    requires c !in seen && (p, c) in wt && w == pcost + wt[(p, c)] && (c !in costs' || w < costs'[c])
    ensures RelaxEffect(wt, p, pcost, parents, costs, frontier, parents'[c := p], costs'[c := w], frontier' + [(w, c)], seen + {c})
  {
    assert SameAt(costs, costs', c);
    var f := frontier' + [(w, c)];
    assert f[..|frontier|] == frontier'[..|frontier|];
    forall d | d in seen
      ensures RelaxedAt(wt, p, pcost, parents, costs, parents'[c := p], costs'[c := w], f, d)
    {
      assert RelaxedAt(wt, p, pcost, parents, costs, parents', costs', frontier', d);
    }
    assert f[|f| - 1] == (w, c);
    var tail := frontier'[|frontier|..];
    assert f[|frontier|..] == tail + [(w, c)];
    assert (w, c) !in tail by {
      assert (w, c) !in Pushed(wt, p, pcost, costs, seen);
    }
    assert Elements(tail + [(w, c)]) == Elements(tail) + {(w, c)};
    assert Pushed(wt, p, pcost, costs, seen + {c}) == Pushed(wt, p, pcost, costs, seen) + {(w, c)};
  }

  /** A neighbor `c` not relaxed before, whose cost is no higher than the path through `p`. */
  lemma RelaxEffectKeep<V(!new)>(wt: map<(V, V), int>, p: V, pcost: int,
                                 parents: map<V, V>, costs: map<V, int>, frontier: seq<(int, V)>,
                                 parents': map<V, V>, costs': map<V, int>, frontier': seq<(int, V)>, seen: set<V>, c: V)
    requires RelaxEffect(wt, p, pcost, parents, costs, frontier, parents', costs', frontier', seen)
    requires c !in seen && (p, c) in wt && c in costs' && !(pcost + wt[(p, c)] < costs'[c])
    ensures RelaxEffect(wt, p, pcost, parents, costs, frontier, parents', costs', frontier', seen + {c})
  {
    assert SameAt(parents, parents', c) && SameAt(costs, costs', c);
    assert Pushed(wt, p, pcost, costs, seen + {c}) == Pushed(wt, p, pcost, costs, seen);
  }

  class WeightedGraph<V(==, !new)> {
    var vertices: set<V>
    var edges: set<(V, V, int)>
    var neighbors: map<V, set<V>>
    var weights: map<(V, V), int>

    /** Symmetric adjacency, and a weight for both orientations of every joined pair. */
    ghost predicate Valid()
      reads this
    {
      && (forall e :: e in edges ==> e.0 in vertices && e.1 in vertices)
      && LinkAdjacency(vertices, edges, neighbors)
      && WeightsFrom(edges, weights)
    }

    /** The adjacency of a valid graph is closed and symmetric, and every step has a weight. */
    lemma AdjacencyFacts()
      requires Valid()
      ensures Closed(neighbors) && Symmetric(neighbors) && neighbors.Keys == vertices
      ensures forall a, b :: Step(neighbors, a, b) ==> (a, b) in weights
      ensures Adjacent()
    {
      forall a, b | Step(neighbors, a, b) ensures b in neighbors && Step(neighbors, b, a) && (a, b) in weights {
        var e :| e in edges && ((e.0 == a && e.1 == b) || (e.0 == b && e.1 == a));
        assert Links(edges, b, a);
      }
    }

    /** What the searches use of a valid graph: a closed adjacency over the vertices, and a weight for every step. */
    ghost predicate Adjacent()
      reads this
    {
      && Closed(neighbors) && neighbors.Keys == vertices
      && forall a, b :: Step(neighbors, a, b) ==> (a, b) in weights
    }

    /** Some walk from `v` to `x` weighs exactly `d`. */
    ghost predicate ReachedAt(v: V, x: V, d: int)
      reads this
    {
      exists q :: WalkBetween(neighbors, q, v, x) && WalkWeight(weights, q) == d
    }

    /** No walk from `v` to `x` weighs less than `d`. */
    ghost predicate Optimal(v: V, x: V, d: int)
      reads this
    {
      forall q :: WalkBetween(neighbors, q, v, x) ==> d <= WalkWeight(weights, q)
    }

    /** Each of `ys` has a recorded cost no larger than that of `x` plus the edge weight. */
    ghost predicate Relaxed(costs: map<V, int>, x: V, ys: set<V>)
      reads this
    {
      x in costs && forall y :: y in ys ==> y in costs && costs[y] <= costs[x] + EdgeWeight(weights, x, y)
    }

    /** Every member of `done` has had all of its neighbors relaxed. */
    ghost predicate AllRelaxed(costs: map<V, int>, done: set<V>)
      reads this
    {
      forall x :: x in done && x in neighbors ==> Relaxed(costs, x, neighbors[x])
    }

    /**
     * Facts of Dijkstra's search that hold for any caller maps and any
     * weights: the keys written so far (`updated`), the old entries kept or
     * lowered, parents that are neighbors, and queued vertices of the graph.
     */
    ghost predicate Tracked(v: V, parents0: map<V, V>, costs0: map<V, int>, parents: map<V, V>,
                            costs: map<V, int>, updated: set<V>, frontier: seq<(int, V)>, off: set<V>)
      reads this
    {
      && updated <= vertices && v in updated && off <= vertices
      && costs.Keys == costs0.Keys + updated && parents.Keys == parents0.Keys + updated
      && (forall x :: x in parents0 && x !in updated ==> parents[x] == parents0[x])
      && (forall x :: x in costs0 && x !in updated ==> costs[x] == costs0[x])
      && (forall x :: x in costs0 && x != v ==> costs[x] <= costs0[x])
      && costs[v] <= 0
      && (forall x :: x in updated ==> (x == v && parents[x] == v) || Step(neighbors, parents[x], x))
      && (forall i :: 0 <= i < |frontier| ==> frontier[i].1 in vertices)
    }

    /**
     * The invariant of Dijkstra's search from `v` with fresh maps and no
     * negative weight: every cost is the weight of a walk, the settled
     * vertices (`off`) have optimal costs, every unsettled cost is queued,
     * no queued priority is below the vertex's cost, and each vertex other
     * than `v` hangs below a settled parent by an edge whose weight makes up
     * the difference of their costs.
     */
    ghost predicate Settling(v: V, parents: map<V, V>, costs: map<V, int>, off: set<V>, frontier: seq<(int, V)>)
      reads this
    {
      && v in costs && costs[v] == 0 && v in parents && parents[v] == v
      && off <= costs.Keys
      && CostsReached(v, costs) && OffOptimal(v, costs, off)
      && CostsQueued(costs, off, frontier) && CostTree(v, parents, costs, off)
    }

    /** Every recorded cost is the weight of a walk from `v`. */
    ghost predicate CostsReached(v: V, costs: map<V, int>)
      reads this
    {
      forall x :: x in costs ==> ReachedAt(v, x, costs[x])
    }

    /** The settled vertices have optimal costs. */
    ghost predicate OffOptimal(v: V, costs: map<V, int>, off: set<V>)
      reads this
    {
      forall x :: x in off && x in costs ==> Optimal(v, x, costs[x])
    }

    /** Every unsettled cost is queued, and no queued priority is below its vertex's cost. */
    ghost predicate CostsQueued(costs: map<V, int>, off: set<V>, frontier: seq<(int, V)>)
    {
      && (forall x :: x in costs && x !in off ==> (costs[x], x) in frontier)
      && (forall i :: 0 <= i < |frontier| ==> frontier[i].1 in costs && frontier[i].0 >= costs[frontier[i].1])
    }

    /** Each vertex other than `v` has a settled parent whose cost plus the edge weight is its own. */
    ghost predicate CostTree(v: V, parents: map<V, V>, costs: map<V, int>, off: set<V>)
      reads this
    {
      forall x :: x in costs && x != v ==>
        x in parents && parents[x] in off && parents[x] in costs && Step(neighbors, parents[x], x)
        && costs[x] == costs[parents[x]] + EdgeWeight(weights, parents[x], x)
    }

    /** A walk to `p` weighing `d`, followed by the edge to `c`. */
    lemma ExtendReached(v: V, p: V, c: V, d: int)
      requires ReachedAt(v, p, d) && Step(neighbors, p, c)
      ensures ReachedAt(v, c, d + EdgeWeight(weights, p, c))
    {
      var q :| WalkBetween(neighbors, q, v, p) && WalkWeight(weights, q) == d;
      WalkStep(neighbors, q, v, p, c);
      WalkWeightSnoc(weights, q, c);
    }

    /**
     * The vertex popped with the least cost among the unsettled ones cannot
     * be reached more cheaply: a cheaper walk would leave the settled set
     * through a relaxed edge to a vertex of lower cost.
     */
    lemma PoppedIsOptimal(v: V, costs: map<V, int>, off: set<V>, p: V)
      requires Valid() && NonNegative(weights)
      requires v in costs && costs[v] == 0 && off <= costs.Keys && p in costs && p !in off
      requires forall x :: x in off ==> Optimal(v, x, costs[x])
      requires AllRelaxed(costs, off)
      requires forall y :: y in costs && y !in off ==> costs[p] <= costs[y]
      ensures Optimal(v, p, costs[p])
    {
      forall q | WalkBetween(neighbors, q, v, p) ensures costs[p] <= WalkWeight(weights, q) {
        WalkNotCheaper(v, costs, off, p, q);
      }
    }

    /** One walk from `v` to the popped `p`: it weighs at least the cost of `p`. */
    lemma WalkNotCheaper(v: V, costs: map<V, int>, off: set<V>, p: V, q: seq<V>)
      requires Valid() && NonNegative(weights)
      requires v in costs && costs[v] == 0 && off <= costs.Keys && p in costs && p !in off
      requires forall x :: x in off ==> Optimal(v, x, costs[x])
      requires AllRelaxed(costs, off)
      requires forall y :: y in costs && y !in off ==> costs[p] <= costs[y]
      requires WalkBetween(neighbors, q, v, p)
      ensures costs[p] <= WalkWeight(weights, q)
    {
      var k := FirstOutside(q, off);
      WalkWeightNonNegative(weights, q);
      if k > 0 {
        var a, b := q[k - 1], q[k];
        var r := q[..k];
        assert a in off && Step(neighbors, a, b);
        assert WalkBetween(neighbors, r, v, a);
        assert costs[a] <= WalkWeight(weights, r);
        assert Relaxed(costs, a, neighbors[a]);
        assert costs[b] <= costs[a] + EdgeWeight(weights, a, b);
        var s := q[..k + 1];
        assert s[..k] == r && s[k - 1] == a && s[k] == b;
        assert WalkWeight(weights, s) == WalkWeight(weights, r) + EdgeWeight(weights, a, b);
        WalkWeightPrefix(weights, q, k + 1);
      }
    }

    /** Lowering the cost of a neighbor `c` of the settled `p` keeps the invariant. */
    lemma RelaxUpdate(v: V, parents: map<V, V>, costs: map<V, int>, off: set<V>, frontier: seq<(int, V)>,
                      p: V, seen: set<V>, c: V, w: int)
      requires Valid() && NonNegative(weights)
      requires Settling(v, parents, costs, off, frontier) && p in off
      requires AllRelaxed(costs, off - {p}) && Relaxed(costs, p, seen)
      requires Step(neighbors, p, c) && w == costs[p] + EdgeWeight(weights, p, c)
      requires c !in costs || w < costs[c]
      ensures c !in off && c != v
      ensures Settling(v, parents[c := p], costs[c := w], off, frontier + [(w, c)])
      ensures AllRelaxed(costs[c := w], off - {p}) && Relaxed(costs[c := w], p, seen + {c})
    {
      ExtendReached(v, p, c, costs[p]);
      NotSettledBefore(v, costs, off, p, c);
      SettlingAfterUpdate(v, parents, costs, off, frontier, p, c, w);
      RelaxedAfterUpdate(costs, off, p, seen, c, w);
    }

    /**
     * With no negative weight, a cost that a settled `p` can lower belongs
     * neither to a settled vertex nor to the start.
     */
    lemma NotSettledBefore(v: V, costs: map<V, int>, off: set<V>, p: V, c: V)
      requires NonNegative(weights)
      requires v in costs && costs[v] == 0 && p in costs && ReachedAt(v, p, costs[p])
      requires forall x :: x in off ==> x in costs && Optimal(v, x, costs[x])
      requires ReachedAt(v, c, costs[p] + EdgeWeight(weights, p, c))
      requires c !in costs || costs[p] + EdgeWeight(weights, p, c) < costs[c]
      ensures c !in off && c != v
    {
      var w := costs[p] + EdgeWeight(weights, p, c);
      var q :| WalkBetween(neighbors, q, v, p) && WalkWeight(weights, q) == costs[p];
      WalkWeightNonNegative(weights, q);
      assert w >= 0;
      var q' :| WalkBetween(neighbors, q', v, c) && WalkWeight(weights, q') == w;
    }

    /** Giving the unsettled `c` the cost `w` through the settled parent `p` keeps the invariant. */
    lemma SettlingAfterUpdate(v: V, parents: map<V, V>, costs: map<V, int>, off: set<V>, frontier: seq<(int, V)>,
                              p: V, c: V, w: int)
      requires Settling(v, parents, costs, off, frontier)
      requires p in off && c !in off && c != v && Step(neighbors, p, c)
      requires w == costs[p] + EdgeWeight(weights, p, c) && ReachedAt(v, c, w)
      requires c !in costs || w < costs[c]
      ensures Settling(v, parents[c := p], costs[c := w], off, frontier + [(w, c)])
    {
      var costs' := costs[c := w];
      forall x | x in costs' ensures ReachedAt(v, x, costs'[x]) {
        if x != c {
          assert ReachedAt(v, x, costs[x]);
        }
      }
      forall x | x in off && x in costs' ensures Optimal(v, x, costs'[x]) {
        assert costs'[x] == costs[x];
      }
      QueuedAfterUpdate(costs, off, frontier, c, w);
      TreeAfterUpdate(v, parents, costs, off, p, c, w);
    }

    lemma QueuedAfterUpdate(costs: map<V, int>, off: set<V>, frontier: seq<(int, V)>, c: V, w: int)
      requires CostsQueued(costs, off, frontier)
      requires c !in costs || w < costs[c]
      ensures CostsQueued(costs[c := w], off, frontier + [(w, c)])
    {
      var costs', frontier' := costs[c := w], frontier + [(w, c)];
      forall x | x in costs' && x !in off ensures (costs'[x], x) in frontier' {
        if x != c {
          assert (costs[x], x) in frontier;
        } else {
          assert frontier'[|frontier|] == (w, c);
        }
      }
      forall i | 0 <= i < |frontier'| ensures frontier'[i].1 in costs' && frontier'[i].0 >= costs'[frontier'[i].1] {
        if i < |frontier| {
          assert frontier'[i] == frontier[i];
        }
      }
    }

    lemma TreeAfterUpdate(v: V, parents: map<V, V>, costs: map<V, int>, off: set<V>, p: V, c: V, w: int)
      requires CostTree(v, parents, costs, off) && off <= costs.Keys
      requires p in off && c !in off && c != v && Step(neighbors, p, c)
      requires w == costs[p] + EdgeWeight(weights, p, c)
      ensures CostTree(v, parents[c := p], costs[c := w], off)
    {
      var parents', costs' := parents[c := p], costs[c := w];
      forall x | x in costs' && x != v
        ensures x in parents' && parents'[x] in off && parents'[x] in costs' && Step(neighbors, parents'[x], x)
        ensures costs'[x] == costs'[parents'[x]] + EdgeWeight(weights, parents'[x], x)
      {
        if x != c {
          assert parents'[x] == parents[x] && parents[x] in off;
        }
      }
    }

    /** Taking out one entry of a queue keeps every other entry queued. */
    lemma QueuedAfterPop(costs: map<V, int>, off: set<V>, frontier: seq<(int, V)>, i: nat)
      requires CostsQueued(costs, off, frontier) && i < |frontier| && frontier[i].1 in off
      ensures CostsQueued(costs, off, Without(frontier, i))
    {
      var rest := Without(frontier, i);
      forall x | x in costs && x !in off ensures (costs[x], x) in rest {
        var j :| 0 <= j < |frontier| && frontier[j] == (costs[x], x);
        if j < i {
          assert rest[j] == frontier[j];
        } else {
          assert rest[j - 1] == frontier[j];
        }
      }
    }

    /**
     * Popping an unsettled vertex: its priority is its cost, that cost is
     * optimal, and settling it keeps the invariant.
     */
    lemma PopUnsettled(v: V, parents: map<V, V>, costs: map<V, int>, off: set<V>, frontier: seq<(int, V)>, i: nat)
      requires Valid() && NonNegative(weights)
      requires Settling(v, parents, costs, off, frontier) && AllRelaxed(costs, off)
      requires IsMinAt(frontier, i) && frontier[i].1 !in off
      ensures frontier[i].0 == costs[frontier[i].1]
      ensures Settling(v, parents, costs, off + {frontier[i].1}, Without(frontier, i))
      ensures AllRelaxed(costs, (off + {frontier[i].1}) - {frontier[i].1})
    {
      var p := frontier[i].1;
      var j :| 0 <= j < |frontier| && frontier[j] == (costs[p], p);
      forall y | y in costs && y !in off ensures costs[p] <= costs[y] {
        var k :| 0 <= k < |frontier| && frontier[k] == (costs[y], y);
      }
      PoppedIsOptimal(v, costs, off, p);
      QueuedAfterPop(costs, off + {p}, frontier, i);
      assert (off + {p}) - {p} == off;
    }

    /** Popping a settled vertex again changes nothing but the queue. */
    lemma PopSettled(v: V, parents: map<V, V>, costs: map<V, int>, off: set<V>, frontier: seq<(int, V)>, i: nat)
      requires Settling(v, parents, costs, off, frontier) && i < |frontier| && frontier[i].1 in off
      ensures Settling(v, parents, costs, off, Without(frontier, i))
    {
      QueuedAfterPop(costs, off, frontier, i);
    }

    /**
     * Once the queue is empty every cost is settled, the costs cover exactly
     * what `v` reaches, and each is the least weight of a walk from `v`.
     */
    lemma SearchDone(v: V, parents: map<V, V>, costs: map<V, int>, off: set<V>)
      requires Valid() && Settling(v, parents, costs, off, []) && AllRelaxed(costs, off)
      requires costs.Keys <= vertices
      ensures off == costs.Keys && costs.Keys == ReachSet(neighbors, v)
      ensures forall x :: x in costs ==> ReachedAt(v, x, costs[x]) && Optimal(v, x, costs[x])
    {
      AdjacencyFacts();
      forall x | x in costs ensures x in off {
        assert !((costs[x], x) in []);
      }
      forall x | x in costs.Keys && x in neighbors ensures neighbors[x] <= costs.Keys {
        assert Relaxed(costs, x, neighbors[x]);
      }
      ReachSetWithin(neighbors, costs.Keys, v);
      forall x | x in costs ensures x in ReachSet(neighbors, v) {
        assert ReachedAt(v, x, costs[x]);
      }
    }

    /** Lowering one cost keeps every relaxed edge relaxed, and relaxes the edge from `p` to `c`. */
    lemma RelaxedAfterUpdate(costs: map<V, int>, off: set<V>, p: V, seen: set<V>, c: V, w: int)
      requires AllRelaxed(costs, off - {p}) && Relaxed(costs, p, seen)
      requires c !in off && p in off && w == costs[p] + EdgeWeight(weights, p, c)
      requires c !in costs || w < costs[c]
      ensures AllRelaxed(costs[c := w], off - {p}) && Relaxed(costs[c := w], p, seen + {c})
    {
      var costs' := costs[c := w];
      forall x, y | x in off - {p} && x in neighbors && y in neighbors[x]
        ensures y in costs' && costs'[y] <= costs'[x] + EdgeWeight(weights, x, y)
      {
        assert Relaxed(costs, x, neighbors[x]);
      }
    }

    /** Recording a cost lower than the old one (or a first one) for a neighbor keeps the tracked facts. */
    lemma TrackedAfterUpdate(v: V, parents0: map<V, V>, costs0: map<V, int>, parents: map<V, V>, costs: map<V, int>,
                             updated: set<V>, frontier: seq<(int, V)>, off: set<V>, p: V, c: V, w: int)
      requires Valid() && Tracked(v, parents0, costs0, parents, costs, updated, frontier, off)
      requires Step(neighbors, p, c) && (c !in costs || w < costs[c])
      ensures Tracked(v, parents0, costs0, parents[c := p], costs[c := w], updated + {c}, frontier + [(w, c)], off)
    {
      AdjacencyFacts();
      var frontier' := frontier + [(w, c)];
      forall i | 0 <= i < |frontier'| ensures frontier'[i].1 in vertices {
        if i < |frontier| {
          assert frontier'[i] == frontier[i];
        }
      }
    }

    /** Popping an entry keeps the tracked facts, whether or not its vertex becomes settled. */
    lemma TrackedAfterPop(v: V, parents0: map<V, V>, costs0: map<V, int>, parents: map<V, V>, costs: map<V, int>,
                          updated: set<V>, frontier: seq<(int, V)>, off: set<V>, i: nat)
      requires Tracked(v, parents0, costs0, parents, costs, updated, frontier, off) && i < |frontier|
      ensures frontier[i].1 in vertices
      ensures Tracked(v, parents0, costs0, parents, costs, updated, Without(frontier, i), off)
      ensures Tracked(v, parents0, costs0, parents, costs, updated, Without(frontier, i), off + {frontier[i].1})
    {
    }

    /** The invariant of the inner loop: the neighbors `seen` of the settled `p` are relaxed. */
    ghost predicate Relaxing(v: V, parents: map<V, V>, costs: map<V, int>, off: set<V>, frontier: seq<(int, V)>,
                             p: V, pcost: int, seen: set<V>)
      reads this
    {
      && Settling(v, parents, costs, off, frontier) && p in off
      && AllRelaxed(costs, off - {p}) && Relaxed(costs, p, seen) && pcost == costs[p]
    }

    /** A neighbor whose cost is already no higher than the cost through `p` is left alone. */
    lemma RelaxingKeep(v: V, parents: map<V, V>, costs: map<V, int>, off: set<V>, frontier: seq<(int, V)>,
                       p: V, pcost: int, seen: set<V>, c: V)
      requires Valid() && Relaxing(v, parents, costs, off, frontier, p, pcost, seen) && Step(neighbors, p, c)
      requires c in costs && !(pcost + weights[(p, c)] < costs[c])
      ensures Relaxing(v, parents, costs, off, frontier, p, pcost, seen + {c})
    {
    }

    /** A neighbor whose cost the path through `p` lowers gets that cost, `p` as parent, and a queue entry. */
    lemma RelaxingUpdate(v: V, parents: map<V, V>, costs: map<V, int>, off: set<V>, frontier: seq<(int, V)>,
                         p: V, pcost: int, seen: set<V>, c: V, w: int)
      requires Valid() && NonNegative(weights) && Relaxing(v, parents, costs, off, frontier, p, pcost, seen)
      requires Step(neighbors, p, c) && w == pcost + weights[(p, c)] && (c !in costs || w < costs[c])
      ensures Relaxing(v, parents[c := p], costs[c := w], off, frontier + [(w, c)], p, pcost, seen + {c})
    {
      RelaxUpdate(v, parents, costs, off, frontier, p, seen, c, w);
    }

    /** With every neighbor of `p` relaxed, all settled vertices are. */
    lemma RelaxingDone(v: V, parents: map<V, V>, costs: map<V, int>, off: set<V>, frontier: seq<(int, V)>,
                       p: V, pcost: int)
      requires Valid() && p in neighbors && Relaxing(v, parents, costs, off, frontier, p, pcost, neighbors[p])
      ensures Settling(v, parents, costs, off, frontier) && AllRelaxed(costs, off)
    {
      forall x | x in off && x in neighbors ensures Relaxed(costs, x, neighbors[x]) {
        if x != p {
          assert x in off - {p};
        }
      }
    }

    /**
     * The inner loop of `dijkstra`: for each neighbor `c` of the popped `p`,
     * the cost through `p` replaces a missing or higher cost of `c`, which is
     * then pushed.
     */
    method Relax(ghost v: V, ghost parents0: map<V, V>, ghost costs0: map<V, int>, ghost off: set<V>, ghost good: bool,
                 p: V, pcost: int, parents: map<V, V>, costs: map<V, int>, frontier: seq<(int, V)>, ghost updated: set<V>)
      returns (parents': map<V, V>, costs': map<V, int>, frontier': seq<(int, V)>, ghost updated': set<V>)
      requires Valid() && p in vertices
      requires Tracked(v, parents0, costs0, parents, costs, updated, frontier, off)
      requires good ==> NonNegative(weights) && Relaxing(v, parents, costs, off, frontier, p, pcost, {})
      ensures Tracked(v, parents0, costs0, parents', costs', updated', frontier', off)
      ensures good ==> Relaxing(v, parents', costs', off, frontier', p, pcost, neighbors[p])
      ensures p in neighbors
      ensures RelaxEffect(weights, p, pcost, parents, costs, frontier, parents', costs', frontier', neighbors[p])
    {
      AdjacencyFacts();
      parents', costs', frontier', updated' := parents, costs, frontier, updated;
      var todo := neighbors[p];
      ghost var seen: set<V> := {};
      RelaxEffectStart(weights, p, pcost, parents, costs, frontier);
      while todo != {}
        invariant todo + seen == neighbors[p] && todo !! seen
        invariant RelaxEffect(weights, p, pcost, parents, costs, frontier, parents', costs', frontier', seen)
        invariant Tracked(v, parents0, costs0, parents', costs', updated', frontier', off)
        invariant good ==> NonNegative(weights) && Relaxing(v, parents', costs', off, frontier', p, pcost, seen)
      {
        var c :| c in todo;
        assert Step(neighbors, p, c);
        var w := pcost + weights[(p, c)];
        if c !in costs' || w < costs'[c] {
          if good {
            RelaxingUpdate(v, parents', costs', off, frontier', p, pcost, seen, c, w);
          }
          TrackedAfterUpdate(v, parents0, costs0, parents', costs', updated', frontier', off, p, c, w);
          RelaxEffectUpdate(weights, p, pcost, parents, costs, frontier, parents', costs', frontier', seen, c, w);
          parents' := parents'[c := p];
          costs' := costs'[c := w];
          frontier' := frontier' + [(w, c)];
          updated' := updated' + {c};
        } else {
          RelaxEffectKeep(weights, p, pcost, parents, costs, frontier, parents', costs', frontier', seen, c);
          if good {
            RelaxingKeep(v, parents', costs', off, frontier', p, pcost, seen, c);
          }
        }
        todo := todo - {c};
        seen := seen + {c};
      }
    }

    /**
     * `dijkstra(v, parents, costs)`: records `v` as its own parent at cost 0
     * and searches outward, always expanding the cheapest queued vertex not
     * yet expanded. For any maps and weights it terminates, writes the keys
     * `updated` (which contain `v`) into both maps, only lowers old costs,
     * and gives every updated vertex other than the root a neighbor as
     * parent. Started with no costs and no negative weight, the costs are
     * exactly the least walk weights of the vertices reachable from `v`, and
     * the parents form a tree of cheapest walks.
     */
    method Dijkstra(v: V, parents: map<V, V>, costs: map<V, int>)
      returns (parents': map<V, V>, costs': map<V, int>, ghost updated: set<V>)
      requires Valid() && v in vertices
      ensures v in updated && updated <= vertices
      ensures costs'.Keys == costs.Keys + updated && parents'.Keys == parents.Keys + updated
      ensures forall x :: x in parents && x !in updated ==> parents'[x] == parents[x]
      ensures forall x :: x in costs && x !in updated ==> costs'[x] == costs[x]
      ensures forall x :: x in costs && x != v ==> costs'[x] <= costs[x]
      ensures costs'[v] <= 0
      ensures forall x :: x in updated ==> (x == v && parents'[x] == v) || Step(neighbors, parents'[x], x)
      ensures costs == map[] && NonNegative(weights) ==>
        && costs'.Keys == ReachSet(neighbors, v)
        && parents'[v] == v && costs'[v] == 0
        && (forall x :: x in costs' ==> ReachedAt(v, x, costs'[x]) && Optimal(v, x, costs'[x]))
        && (forall x :: x in costs' && x != v ==>
              parents'[x] in costs' && Step(neighbors, parents'[x], x)
              && costs'[x] == costs'[parents'[x]] + weights[(parents'[x], x)])
    {
      AdjacencyFacts();
      ghost var good := costs == map[] && NonNegative(weights);
      parents' := parents[v := v];
      costs' := costs[v := 0];
      var frontier := [(0, v)];
      var off: set<V> := {};
      updated := {v};
      assert ReachedAt(v, v, 0) by {
        assert WalkBetween(neighbors, [v], v, v);
      }
      while |frontier| > 0
        invariant Tracked(v, parents, costs, parents', costs', updated, frontier, off)
        invariant good ==> NonNegative(weights) && Settling(v, parents', costs', off, frontier) && AllRelaxed(costs', off)
        decreases vertices - off, |frontier|
      {
        var e, rest, i := PopMin(frontier);
        var (pcost, p) := e;
        TrackedAfterPop(v, parents, costs, parents', costs', updated, frontier, off, i);
        if p !in off {
          if good {
            PopUnsettled(v, parents', costs', off, frontier, i);
          }
          frontier := rest;
          off := off + {p};
          parents', costs', frontier, updated := Relax(v, parents, costs, off, good, p, pcost, parents', costs', frontier, updated);
          if good {
            RelaxingDone(v, parents', costs', off, frontier, p, pcost);
          }
        } else {
          if good {
            PopSettled(v, parents', costs', off, frontier, i);
          }
          frontier := rest;
        }
      }
      if good {
        SearchDone(v, parents', costs', off);
        forall x | x in costs' && x != v ensures costs'[x] == costs'[parents'[x]] + weights[(parents'[x], x)] {
          assert CostTree(v, parents', costs', off);
        }
      }
    }

    /**
     * The invariant of `prim` from `v`: `written` holds the keys given a
     * parent (the caller's other entries are kept), `rank` numbers the
     * finished vertices in the order they were finished, every written
     * vertex other than `v` has a finished neighbor as parent, finished
     * before it if it is finished itself, every queued vertex is written and
     * every written one is finished or queued, and all of them are reachable.
     */
    ghost predicate Growing(v: V, parents0: map<V, V>, parents: map<V, V>, frontier: seq<(int, V)>,
                            finished: set<V>, written: set<V>, rank: map<V, nat>)
      reads this
    {
      && GrowKeys(v, parents0, parents, finished, written)
      && RankTree(v, parents, finished, written, rank)
      && (v in finished || (finished == {} && frontier == [(0, v)]))
      && Items(frontier) <= written && written <= finished + Items(frontier)
      && written <= ReachSet(neighbors, v)
    }

    /** The written keys include `v`, its own parent, and the caller's other entries are kept. */
    ghost predicate GrowKeys(v: V, parents0: map<V, V>, parents: map<V, V>, finished: set<V>, written: set<V>)
      reads this
    {
      && finished <= written <= vertices && v in written
      && parents.Keys == parents0.Keys + written
      && (forall x :: x in parents0 && x !in written ==> parents[x] == parents0[x])
      && parents[v] == v
    }

    /**
     * Finished vertices are numbered below their count, and every written
     * vertex other than `v` hangs below a finished neighbor that, if it is
     * finished too, was finished first.
     */
    ghost predicate RankTree(v: V, parents: map<V, V>, finished: set<V>, written: set<V>, rank: map<V, nat>)
      reads this
    {
      && rank.Keys == finished && (forall x :: x in finished ==> rank[x] < |finished|)
      && (forall x :: x in written && x != v ==>
            x in parents && parents[x] in finished && Step(neighbors, parents[x], x)
            && (x in finished ==> rank[parents[x]] < rank[x]))
    }

    /** Every neighbor of a member of `done` is finished or queued. */
    ghost predicate Expanded(done: set<V>, frontier: seq<(int, V)>, finished: set<V>)
      reads this
    {
      forall x, y :: x in done && Step(neighbors, x, y) ==> y in finished || y in Items(frontier)
    }

    /** Pushing an unfinished neighbor of a finished vertex, with that vertex as its parent. */
    lemma PushNeighbor(v: V, parents0: map<V, V>, parents: map<V, V>, frontier: seq<(int, V)>,
                       finished: set<V>, written: set<V>, rank: map<V, nat>, current: V, i: V, w: int)
      requires Adjacent() && Growing(v, parents0, parents, frontier, finished, written, rank)
      requires current in finished && Step(neighbors, current, i) && i !in finished
      ensures Growing(v, parents0, parents[i := current], frontier + [(w, i)], finished, written + {i}, rank)
      ensures Items(frontier) <= Items(frontier + [(w, i)])
      ensures i in Items(frontier + [(w, i)])
      ensures CountAmong(frontier + [(w, i)], finished) == CountAmong(frontier, finished)
    {
      Push(frontier, (w, i), finished);
      assert Reachable(neighbors, v, current);
      ReachableStep(neighbors, v, current, i);
      assert i != v && i in vertices;
      assert i in ReachSet(neighbors, v);
      GrowKeysAdd(v, parents0, parents, finished, written, current, i);
      RankTreeAdd(v, parents, finished, written, rank, current, i);
    }

    lemma GrowKeysAdd(v: V, parents0: map<V, V>, parents: map<V, V>, finished: set<V>, written: set<V>, current: V, i: V)
      requires GrowKeys(v, parents0, parents, finished, written) && i in vertices && i != v
      ensures GrowKeys(v, parents0, parents[i := current], finished, written + {i})
    {
    }

    lemma RankTreeAdd(v: V, parents: map<V, V>, finished: set<V>, written: set<V>, rank: map<V, nat>, current: V, i: V)
      requires RankTree(v, parents, finished, written, rank)
      requires current in finished && Step(neighbors, current, i) && i !in finished && i != v
      ensures RankTree(v, parents[i := current], finished, written + {i}, rank)
    {
    }

    /** Popping a vertex for the first time finishes it with the next rank. */
    lemma PopFresh(v: V, parents0: map<V, V>, parents: map<V, V>, frontier: seq<(int, V)>,
                   finished: set<V>, written: set<V>, rank: map<V, nat>, i: nat)
      requires Growing(v, parents0, parents, frontier, finished, written, rank) && Expanded(finished, frontier, finished)
      requires i < |frontier| && frontier[i].1 !in finished
      ensures frontier[i].1 in vertices
      ensures var current := frontier[i].1;
              && Growing(v, parents0, parents, Without(frontier, i), finished + {current}, written, rank[current := |finished|])
              && Expanded((finished + {current}) - {current}, Without(frontier, i), finished + {current})
    {
      var current := frontier[i].1;
      TakeOut(frontier, i, finished);
      assert current in Items(frontier);
      assert (finished + {current}) - {current} == finished;
      if v !in finished {
        assert frontier[i] == (0, v);
      }
      RankTreeFinish(v, parents, finished, written, rank, current);
    }

    lemma RankTreeFinish(v: V, parents: map<V, V>, finished: set<V>, written: set<V>, rank: map<V, nat>, current: V)
      requires RankTree(v, parents, finished, written, rank) && current !in finished
      ensures RankTree(v, parents, finished + {current}, written, rank[current := |finished|])
    {
      var finished', rank' := finished + {current}, rank[current := |finished|];
      assert |finished'| == |finished| + 1;
      forall x | x in written && x != v
        ensures parents[x] in finished' && (x in finished' ==> rank'[parents[x]] < rank'[x])
      {
        assert parents[x] in finished;
      }
    }

    /** Popping a vertex that is already finished changes nothing but the queue, whose count drops. */
    lemma PopAgain(v: V, parents0: map<V, V>, parents: map<V, V>, frontier: seq<(int, V)>,
                   finished: set<V>, written: set<V>, rank: map<V, nat>, i: nat)
      requires Growing(v, parents0, parents, frontier, finished, written, rank) && Expanded(finished, frontier, finished)
      requires i < |frontier| && frontier[i].1 in finished
      ensures Growing(v, parents0, parents, Without(frontier, i), finished, written, rank)
      ensures Expanded(finished - {frontier[i].1}, Without(frontier, i), finished)
      ensures CountAmong(Without(frontier, i), finished) < CountAmong(frontier, finished)
    {
      TakeOut(frontier, i, finished);
      assert v in finished;
    }

    /** The state before the first pop: only `v` is written, with itself as parent, and only `v` is queued. */
    lemma GrowingStart(v: V, parents0: map<V, V>)
      requires Adjacent() && v in vertices
      ensures Growing(v, parents0, parents0[v := v], [(0, v)], {}, {v}, map[])
      ensures Expanded({}, [(0, v)], {})
    {
      assert Items([(0, v)]) == {v} by {
        assert [(0, v)][0] == (0, v);
      }
      ReachableSelf(neighbors, v, {});
    }

    /**
     * When the queue is empty, the written vertices are exactly the finished
     * ones and exactly those reachable from `v`, and each parent chain leads
     * to `v`.
     */
    lemma GrowingDone(v: V, parents0: map<V, V>, parents: map<V, V>, finished: set<V>, written: set<V>, rank: map<V, nat>)
      requires Adjacent() && Growing(v, parents0, parents, [], finished, written, rank) && Expanded(finished, [], finished)
      ensures written == finished == ReachSet(neighbors, v) && v in written
      ensures parents.Keys == parents0.Keys + written && parents[v] == v
      ensures forall x :: x in parents0 && x !in written ==> parents[x] == parents0[x]
      ensures forall x :: x in written && x != v ==> parents[x] in written && Step(neighbors, parents[x], x)
      ensures forall x :: x in written ==> ChainTo(parents, x, v, |written|)
    {
      assert written == finished && v in finished;
      FinishedIsReach(v, finished);
      RankedChains(v, parents, finished, rank);
    }

    /** A set of vertices reachable from its member `v` that holds all its members' neighbors is the reach set of `v`. */
    lemma FinishedIsReach(v: V, finished: set<V>)
      requires v in finished && finished <= ReachSet(neighbors, v) && Expanded(finished, [], finished)
      ensures finished == ReachSet(neighbors, v)
    {
      forall x | x in finished && x in neighbors ensures neighbors[x] <= finished {
        forall y | y in neighbors[x] ensures y in finished {
          assert Step(neighbors, x, y);
        }
      }
      ReachSetWithin(neighbors, finished, v);
    }

    /** Parents of lower rank lead every finished vertex back to `v`. */
    lemma RankedChains(v: V, parents: map<V, V>, finished: set<V>, rank: map<V, nat>)
      requires RankTree(v, parents, finished, finished, rank) && v in finished && v in parents && parents[v] == v
      ensures forall x :: x in finished ==> ChainTo(parents, x, v, |finished|)
    {
      forall x | x in finished ensures ChainTo(parents, x, v, |finished|) {
        ChainByRank(parents, rank, v, x);
        ChainToMore(parents, x, v, rank[x], |finished|);
      }
    }

    /**
     * The inner loop of `prim`: each neighbor `i` of `current` that is not
     * finished gets `current` as parent and is pushed with the weight of the
     * edge; when the popped cost `c` exceeds that weight the same update and
     * push happen a second time.
     */
    method PrimExpand(ghost v: V, ghost parents0: map<V, V>, c: int, current: V, parents: map<V, V>,
                      frontier: seq<(int, V)>, finished: set<V>, ghost written: set<V>, ghost rank: map<V, nat>)
      returns (parents': map<V, V>, frontier': seq<(int, V)>, ghost written': set<V>)
      requires Adjacent() && current in finished
      requires Growing(v, parents0, parents, frontier, finished, written, rank)
      requires Expanded(finished - {current}, frontier, finished)
      ensures Growing(v, parents0, parents', frontier', finished, written', rank)
      ensures Expanded(finished, frontier', finished)
      ensures CountAmong(frontier', finished) == CountAmong(frontier, finished)
    {
      parents', frontier', written' := parents, frontier, written;
      var todo := neighbors[current];
      while todo != {}
        invariant todo <= neighbors[current]
        invariant Growing(v, parents0, parents', frontier', finished, written', rank)
        invariant Expanded(finished - {current}, frontier', finished)
        invariant Covered(neighbors[current] - todo, frontier', finished)
        invariant CountAmong(frontier', finished) == CountAmong(frontier, finished)
        decreases todo
      {
        var i :| i in todo;
        ghost var before := frontier';
        parents', frontier', written' := PrimVisit(v, parents0, c, current, i, parents', frontier', finished, written', rank);
        Covering(finished - {current}, neighbors[current], todo, before, frontier', finished, i);
        todo := todo - {i};
      }
      assert neighbors[current] - todo == neighbors[current];
      CoveringDone(current, frontier', finished);
    }

    /** Every one of `ys` is finished or queued. */
    ghost predicate Covered(ys: set<V>, frontier: seq<(int, V)>, finished: set<V>)
    {
      forall y :: y in ys ==> y in finished || y in Items(frontier)
    }

    /** A queue that keeps every queued vertex keeps the coverage, and covering `i` takes it off `todo`. */
    lemma Covering(done: set<V>, ys: set<V>, todo: set<V>, frontier: seq<(int, V)>, frontier': seq<(int, V)>,
                   finished: set<V>, i: V)
      requires Expanded(done, frontier, finished) && Covered(ys - todo, frontier, finished)
      requires Items(frontier) <= Items(frontier') && (i in finished || i in Items(frontier'))
      ensures Expanded(done, frontier', finished) && Covered(ys - (todo - {i}), frontier', finished)
    {
    }

    /** Once all neighbors of `current` are covered, `current` is expanded too. */
    lemma CoveringDone(current: V, frontier: seq<(int, V)>, finished: set<V>)
      requires current in neighbors && Expanded(finished - {current}, frontier, finished)
      requires Covered(neighbors[current], frontier, finished)
      ensures Expanded(finished, frontier, finished)
    {
    }

    /**
     * One neighbor `i` of `current` in the inner loop of `prim`: when it is
     * not finished it gets `current` as parent and is pushed with the weight
     * of the edge, and once more when the popped cost `c` exceeds that weight.
     * Afterwards `i` is finished or queued, and nothing queued before is lost.
     */
    method PrimVisit(ghost v: V, ghost parents0: map<V, V>, c: int, current: V, i: V, parents: map<V, V>,
                     frontier: seq<(int, V)>, finished: set<V>, ghost written: set<V>, ghost rank: map<V, nat>)
      returns (parents': map<V, V>, frontier': seq<(int, V)>, ghost written': set<V>)
      requires Adjacent() && current in finished && Step(neighbors, current, i)
      requires Growing(v, parents0, parents, frontier, finished, written, rank)
      ensures Growing(v, parents0, parents', frontier', finished, written', rank)
      ensures Items(frontier) <= Items(frontier') && (i in finished || i in Items(frontier'))
      ensures CountAmong(frontier', finished) == CountAmong(frontier, finished)
      ensures i in finished ==> parents' == parents && frontier' == frontier
      ensures i !in finished ==>
                var e := (weights[(current, i)], i);
                parents' == parents[i := current] && frontier' == frontier + [e] + (if c > e.0 then [e] else [])
    {
      parents', frontier', written' := parents, frontier, written;
      if i !in finished {
        var w := weights[(current, i)];
        if i !in finished {
          PushNeighbor(v, parents0, parents', frontier', finished, written', rank, current, i, w);
          parents', frontier', written' := parents'[i := current], frontier' + [(w, i)], written' + {i};
        }
        ghost var once := frontier';
        if c > w {
          PushNeighbor(v, parents0, parents', frontier', finished, written', rank, current, i, w);
          parents', frontier', written' := parents'[i := current], frontier' + [(w, i)], written' + {i};
        }
        assert once == frontier + [(w, i)];
        assert frontier' == once + (if c > w then [(w, i)] else []);
      }
    }

    /**
     * One round of the outer loop of `prim`: pop the entry of least weight;
     * a vertex popped for the first time is finished; either way its
     * neighbors are visited. Either one more vertex is finished or fewer
     * entries of finished vertices are queued.
     */
    method PrimStep(ghost v: V, ghost parents0: map<V, V>, parents: map<V, V>, frontier: seq<(int, V)>,
                    finished: set<V>, ghost written: set<V>, ghost rank: map<V, nat>)
      returns (parents': map<V, V>, frontier': seq<(int, V)>, finished': set<V>, ghost written': set<V>,
               ghost rank': map<V, nat>)
      requires Adjacent() && |frontier| > 0
      requires Growing(v, parents0, parents, frontier, finished, written, rank)
      requires Expanded(finished, frontier, finished)
      ensures Growing(v, parents0, parents', frontier', finished', written', rank')
      ensures Expanded(finished', frontier', finished')
      ensures finished <= finished' <= vertices
      ensures finished' != finished ==> vertices - finished' < vertices - finished
      ensures finished' == finished ==> CountAmong(frontier', finished') < CountAmong(frontier, finished)
    {
      var e, rest, i := PopMin(frontier);
      var (c, current) := e;
      if current !in finished {
        PopFresh(v, parents0, parents, frontier, finished, written, rank, i);
        rank' := rank[current := |finished|];
        finished' := finished + {current};
        parents', frontier', written' := PrimExpand(v, parents0, c, current, parents, rest, finished', written, rank');
      } else {
        PopAgain(v, parents0, parents, frontier, finished, written, rank, i);
        rank', finished' := rank, finished;
        parents', frontier', written' := PrimExpand(v, parents0, c, current, parents, rest, finished, written, rank);
      }
    }

    /**
     * `prim(v, parents)`: records `v` as its own parent and grows a tree
     * from it, popping the queued vertex with the least edge weight, marking
     * it finished, and giving each unfinished neighbor the popped vertex as
     * parent. It terminates, writes exactly the vertices reachable from `v`,
     * keeps the caller's other entries, and leaves a tree: `v` is its own
     * parent, every other written vertex has a written neighbor as parent,
     * and every parent chain leads to `v`.
     */
    method Prim(v: V, parents: map<V, V>) returns (parents': map<V, V>, ghost written: set<V>)
      requires Valid() && v in vertices
      ensures v in written && written == ReachSet(neighbors, v)
      ensures parents'.Keys == parents.Keys + written
      ensures forall x :: x in parents && x !in written ==> parents'[x] == parents[x]
      ensures parents'[v] == v
      ensures forall x :: x in written && x != v ==> parents'[x] in written && Step(neighbors, parents'[x], x)
      ensures forall x :: x in written ==> ChainTo(parents', x, v, |written|)
    {
      AdjacencyFacts();
      parents' := parents[v := v];
      var frontier := [(0, v)];
      var finished: set<V> := {};
      written := {v};
      ghost var rank: map<V, nat> := map[];
      GrowingStart(v, parents);
      while |frontier| > 0
        invariant Growing(v, parents, parents', frontier, finished, written, rank)
        invariant Expanded(finished, frontier, finished)
        decreases vertices - finished, CountAmong(frontier, finished)
      {
        parents', frontier, finished, written, rank := PrimStep(v, parents, parents', frontier, finished, written, rank);
      }
      GrowingDone(v, parents, parents', finished, written, rank);
    }

    /**
     * Builds `neighbors` (an empty set per vertex, then both ends of every
     * edge) and `weights` (both orientations of every edge).
     */
    constructor (vertices: set<V>, edges: set<(V, V, int)>)
      requires forall e :: e in edges ==> e.0 in vertices && e.1 in vertices
      ensures this.vertices == vertices && this.edges == edges
      ensures Valid()
    {
      var nbrs: map<V, set<V>> := map[];
      var rest := vertices;
      while rest != {}
        invariant rest <= vertices
        invariant nbrs.Keys == vertices - rest
        invariant forall v :: v in nbrs ==> nbrs[v] == {}
      {
        var v :| v in rest;
        nbrs := nbrs[v := {}];
        rest := rest - {v};
      }
      assert LinkAdjacency(vertices, {}, nbrs);
      nbrs := AddLinks(vertices, edges, nbrs);
      var ws := AddWeights(edges);
      this.vertices := vertices;
      this.edges := edges;
      this.neighbors := nbrs;
      this.weights := ws;
    }
  }

}
