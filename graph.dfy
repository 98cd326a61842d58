/**
 * The undirected graph of the library: a vertex set, the edge set it was
 * built from, and the symmetric `neighbors` adjacency map built from them.
 * The searches fill sets and maps that belong to the caller; here each such
 * set or map is passed in and its new value handed back.
 */
module Undirected {
  import opened Wrappers
  import opened Collections
  import opened Paths
  import opened ParentMaps

  /** `v` and `u` are the two ends of an edge, listed in either order. */
  predicate Joined<V(==)>(edges: set<(V, V)>, v: V, u: V)
  {
    (v, u) in edges || (u, v) in edges
  }

  /** `nbrs` gives every vertex its set of neighbors: the other ends of the edges at it. */
  ghost predicate Adjacency<V(!new)>(vertices: set<V>, edges: set<(V, V)>, nbrs: map<V, set<V>>)
  {
    && nbrs.Keys == vertices
    && (forall v, u :: v in vertices ==> (u in nbrs[v] <==> Joined(edges, v, u)))
  }

  /** Adding both ends of one more edge keeps the adjacency exact. */
  lemma AddEdge<V(!new)>(vertices: set<V>, done: set<(V, V)>, nbrs: map<V, set<V>>, e: (V, V))
    requires e.0 in vertices && e.1 in vertices
    requires Adjacency(vertices, done, nbrs)
    ensures var n1 := nbrs[e.0 := nbrs[e.0] + {e.1}];
            Adjacency(vertices, done + {e}, n1[e.1 := n1[e.1] + {e.0}])
  {
    var n1 := nbrs[e.0 := nbrs[e.0] + {e.1}];
    var n2 := n1[e.1 := n1[e.1] + {e.0}];
    forall x, y | x in vertices ensures y in n2[x] <==> Joined(done + {e}, x, y) {
      assert Joined(done + {e}, x, y) <==> Joined(done, x, y) || (x == e.0 && y == e.1) || (x == e.1 && y == e.0);
    }
  }

  /** The edge loop of the constructor: each edge adds each end to the other's neighbor set. */
  method AddEdges<V(==, !new)>(vertices: set<V>, edges: set<(V, V)>, nbrs0: map<V, set<V>>)
    returns (nbrs: map<V, set<V>>)
    requires forall e :: e in edges ==> e.0 in vertices && e.1 in vertices
    requires Adjacency(vertices, {}, nbrs0)
    ensures Adjacency(vertices, edges, nbrs)
  {
    nbrs := nbrs0;
    var todo := edges;
    ghost var done: set<(V, V)> := {};
    while todo != {}
      invariant done + todo == edges && done !! todo
      invariant Adjacency(vertices, done, nbrs)
    {
      var e :| e in todo;
      AddEdge(vertices, done, nbrs, e);
      var (v, u) := e;
      nbrs := nbrs[v := nbrs[v] + {u}];
      nbrs := nbrs[u := nbrs[u] + {v}];
      todo := todo - {e};
      done := done + {e};
    }
    assert done == edges;
  }

  /**
   * What expanding `p` did: each vertex of `added` got the parent `p` and
   * the level `l` and was appended to the frontier, once each; the parents
   * and levels found before are kept.
   */
  ghost predicate Adopted<V(!new)>(parents: map<V, V>, parents': map<V, V>, level: map<V, nat>, level': map<V, nat>,
                                   frontier: seq<V>, frontier': seq<V>, p: V, added: set<V>, l: nat)
  {
    AdoptedParents(parents, parents', frontier, frontier', p, added) && AdoptedLevels(level, level', added, l)
  }

  /** The part of `Adopted` about the parents and the frontier. */
  ghost predicate AdoptedParents<V(!new)>(parents: map<V, V>, parents': map<V, V>, frontier: seq<V>, frontier': seq<V>,
                                          p: V, added: set<V>)
  {
    && parents'.Keys == parents.Keys + added
    && (forall x :: x in parents ==> parents'[x] == parents[x])
    && (forall c :: c in added ==> parents'[c] == p)
    && |frontier| <= |frontier'| && frontier'[..|frontier|] == frontier
    && Distinct(frontier'[|frontier|..]) && Elements(frontier'[|frontier|..]) == added
  }

  /** The part of `Adopted` about the levels. */
  ghost predicate AdoptedLevels<V(!new)>(level: map<V, nat>, level': map<V, nat>, added: set<V>, l: nat)
  {
    && level.Keys <= level'.Keys
    && (forall x :: x in level ==> level'[x] == level[x])
    && (forall c :: c in added ==> c in level' && level'[c] == l)
  }

  /** Partway through the neighbors `nbrs` of `p`: those outside `todo` without a parent before were adopted. */
  ghost predicate Adopting<V(!new)>(parents: map<V, V>, parents': map<V, V>, level: map<V, nat>, level': map<V, nat>,
                                    frontier: seq<V>, frontier': seq<V>, p: V, nbrs: set<V>, todo: set<V>, l: nat)
  {
    && todo <= nbrs
    && Adopted(parents, parents', level, level', frontier, frontier', p, (nbrs - todo) - parents.Keys, l)
  }

  lemma AdoptStart<V(!new)>(parents: map<V, V>, level: map<V, nat>, frontier: seq<V>, p: V, nbrs: set<V>, l: nat)
    ensures Adopting(parents, parents, level, level, frontier, frontier, p, nbrs, nbrs, l)
  {
    assert frontier[|frontier|..] == [];
    assert (nbrs - nbrs) - parents.Keys == {};
  }

  /** Adopting one more neighbor `c`, which has no parent yet. */
  lemma AdoptChild<V(!new)>(parents: map<V, V>, parents': map<V, V>, level: map<V, nat>, level': map<V, nat>,
                            frontier: seq<V>, frontier': seq<V>, p: V, nbrs: set<V>, todo: set<V>, l: nat, c: V)
    requires Adopting(parents, parents', level, level', frontier, frontier', p, nbrs, todo, l)
    requires c in todo && c !in parents' && c !in level'
    ensures Adopting(parents, parents'[c := p], level, level'[c := l], frontier, frontier' + [c], p, nbrs, todo - {c}, l)
  {
    var added := (nbrs - todo) - parents.Keys;
    var tail := frontier'[|frontier|..];
    assert (frontier' + [c])[|frontier|..] == tail + [c];
    assert (frontier' + [c])[..|frontier|] == frontier'[..|frontier|];
    assert c !in tail by {
      assert c !in added;
    }
    assert Elements(tail + [c]) == Elements(tail) + {c};
    assert (nbrs - (todo - {c})) - parents.Keys == added + {c};
  }

  /** Walking past a neighbor `c` that already has a parent adopts nothing. */
  lemma AdoptSkip<V(!new)>(parents: map<V, V>, parents': map<V, V>, level: map<V, nat>, level': map<V, nat>,
                           frontier: seq<V>, frontier': seq<V>, p: V, nbrs: set<V>, todo: set<V>, l: nat, c: V)
    requires Adopting(parents, parents', level, level', frontier, frontier', p, nbrs, todo, l)
    requires c in todo && c in parents'
    ensures Adopting(parents, parents', level, level', frontier, frontier', p, nbrs, todo - {c}, l)
  {
    assert c in parents;
    assert (nbrs - (todo - {c})) - parents.Keys == (nbrs - todo) - parents.Keys;
  }

  lemma AdoptDone<V(!new)>(parents: map<V, V>, parents': map<V, V>, level: map<V, nat>, level': map<V, nat>,
                           frontier: seq<V>, frontier': seq<V>, p: V, nbrs: set<V>, l: nat)
    requires Adopting(parents, parents', level, level', frontier, frontier', p, nbrs, {}, l)
    ensures Adopted(parents, parents', level, level', frontier, frontier', p, nbrs - parents.Keys, l)
  {
    assert nbrs - {} == nbrs;
  }

  class Graph<V(==, !new)> {
    var vertices: set<V>
    var edges: set<(V, V)>
    var neighbors: map<V, set<V>>

    /** Every vertex has a neighbor set, and `u` is a neighbor of `v` exactly when an edge joins them. */
    ghost predicate Valid()
      reads this
    {
      && (forall e :: e in edges ==> e.0 in vertices && e.1 in vertices)
      && Adjacency(vertices, edges, neighbors)
    }

    /** The adjacency of a valid graph is closed and symmetric. */
    lemma AdjacencyFacts()
      requires Valid()
      ensures Closed(neighbors) && Symmetric(neighbors)
    {
    }

    /** Builds `neighbors`: an empty set per vertex, then both ends of every edge. */
    constructor (vertices: set<V>, edges: set<(V, V)>)
      requires forall e :: e in edges ==> e.0 in vertices && e.1 in vertices
      ensures this.vertices == vertices && this.edges == edges
      ensures Valid()
    {
      var nbrs: map<V, set<V>> := map[];
      var rest := vertices;
      while rest != {}
        invariant rest <= vertices
        invariant nbrs.Keys == vertices - rest
        invariant forall v :: v in nbrs ==> nbrs[v] == {}
      {
        var v :| v in rest;
        nbrs := nbrs[v := {}];
        rest := rest - {v};
      }
      assert Adjacency(vertices, {}, nbrs);
      nbrs := AddEdges(vertices, edges, nbrs);
      this.vertices := vertices;
      this.edges := edges;
      this.neighbors := nbrs;
    }

    /**
     * Recursive depth-first search into the caller's `marks`: the result is
     * `marks` plus `v` plus every vertex reachable from `v` through vertices
     * that were not marked on entry.
     */
    method Dfs(v: V, marks: set<V>) returns (marks': set<V>)
      requires Valid() && v in vertices
      ensures marks' == marks + {v} + ReachAvoidSet(neighbors, v, marks)
      ensures forall x :: x in marks' && (x !in marks || x == v) ==> neighbors[x] <= marks'
      ensures forall w :: w in marks' && w !in marks ==> ReachableAvoiding(neighbors, v, w, marks)
      decreases (vertices - marks) + {v}
    {
      ReachableSelf(neighbors, v, marks);
      marks' := marks + {v};
      var todo := neighbors[v];
      while todo != {}
        invariant todo <= neighbors[v]
        invariant marks + {v} <= marks'
        invariant marks' - marks <= vertices
        invariant neighbors[v] - todo <= marks'
        invariant forall x :: x in marks' && x !in marks && x != v ==> neighbors[x] <= marks'
        invariant forall w :: w in marks' && w !in marks ==> ReachableAvoiding(neighbors, v, w, marks)
        decreases todo
      {
        var u :| u in todo;
        todo := todo - {u};
        if u !in marks' {
          ghost var before := marks';
          assert u in vertices by { AdjacencyFacts(); }
          assert (vertices - before) + {u} < (vertices - marks) + {v};
          marks' := Dfs(u, marks');
          forall w | w in marks' && w !in before
            ensures ReachableAvoiding(neighbors, v, w, marks)
          {
            StepThenReach(neighbors, v, u, w, marks, before);
          }
        }
      }
      forall w | w in ReachAvoidSet(neighbors, v, marks) ensures w in marks' {
        ClosedContainsReach(neighbors, marks', marks, v, w);
      }
    }

    /**
     * The connected components: each is the depth-first closure of any of its
     * members, no two overlap, and together they cover the vertices.
     */
    method Components() returns (components: set<set<V>>)
      requires Valid()
      ensures forall c :: c in components ==> c != {} && forall x :: x in c ==> c == ReachSet(neighbors, x)
      ensures forall x :: x in vertices <==> exists c :: c in components && x in c
      ensures forall c, d :: c in components && d in components && c != d ==> c !! d
    {
      AdjacencyFacts();
      components := {};
      var allMarks: set<V> := {};
      var todo := vertices;
      while todo != {}
        invariant todo <= vertices
        invariant allMarks <= vertices && vertices - todo <= allMarks
        invariant forall x :: x in allMarks <==> exists c :: c in components && x in c
        invariant forall c :: c in components ==> c != {} && forall x :: x in c ==> c == ReachSet(neighbors, x)
        invariant forall c, d :: c in components && d in components && c != d ==> c !! d
      {
        var v :| v in todo;
        todo := todo - {v};
        if v !in allMarks {
          var marks := Dfs(v, {});
          ReachAvoidNothing(neighbors, v);
          assert marks == ReachSet(neighbors, v);
          forall x | x in marks ensures marks == ReachSet(neighbors, x) {
            SameReachSet(neighbors, v, x);
          }
          forall c | c in components ensures c !! marks {
            var y :| y in c;
            ReachSetsEqualOrDisjoint(neighbors, v, y);
          }
          allMarks := allMarks + marks;
          components := components + {marks};
        }
      }
      assert allMarks == vertices;
    }

    /** `x` is off the frontier: every neighbor has a parent, and those with a level are at most one level deeper. */
    ghost predicate Expanded(keys: set<V>, level: map<V, nat>, x: V)
      reads this
    {
      && x in neighbors && x in level && neighbors[x] <= keys
      && forall y :: y in neighbors[x] && y in level ==> level[y] <= level[x] + 1
    }

    /**
     * The vertices a breadth-first search from `v` that may not enter
     * `blocked` has found: each has a level, a tree edge from its parent one
     * level up and a walk from `v`; the old parents of blocked vertices are
     * kept.
     */
    ghost predicate Found(v: V, blocked: set<V>, parents: map<V, V>, parents': map<V, V>, level: map<V, nat>)
      reads this
    {
      && parents'.Keys == blocked + level.Keys && blocked !! level.Keys
      && v in level && level[v] == 0 && parents'[v] == v
      && (forall x :: x in blocked ==> x in parents && parents'[x] == parents[x])
      && (forall x :: x in level && x != v ==> TreeEdge(neighbors, parents', level, x))
      && level.Keys <= vertices
      && (forall x :: x in level ==> ReachableAvoiding(neighbors, v, x, blocked))
    }

    /** Giving the unseen neighbor `c` of `p` the parent `p` and the next level keeps what was found. */
    lemma FoundChild(v: V, blocked: set<V>, parents: map<V, V>, parents': map<V, V>, level: map<V, nat>, p: V, c: V, l: nat)
      requires Valid() && Found(v, blocked, parents, parents', level)
      requires p in level && c in neighbors[p] && c !in parents' && l == level[p] + 1
      ensures Found(v, blocked, parents, parents'[c := p], level[c := l])
    {
      AdjacencyFacts();
      ReachableAvoidingStep(neighbors, v, p, c, blocked);
      var parents2, level2 := parents'[c := p], level[c := l];
      forall x | x in level2 && x != v ensures TreeEdge(neighbors, parents2, level2, x) {
        if x != c {
          assert TreeEdge(neighbors, parents', level, x);
        }
      }
    }

    /** A child at level `cur + 1` joins the back of a frontier in level order. */
    lemma QueuedChild(level: map<V, nat>, frontier: seq<V>, cur: nat, c: V)
      requires Queued(level, frontier, cur) && c !in level
      ensures Queued(level[c := cur + 1], frontier + [c], cur)
    {
      var level2, frontier2 := level[c := cur + 1], frontier + [c];
      assert forall i :: 0 <= i < |frontier| ==> frontier2[i] == frontier[i] && frontier[i] != c;
    }

    /** A child with a fresh parent leaves every expanded vertex expanded. */
    lemma ExpandedChild(keys: set<V>, level: map<V, nat>, x: V, c: V, l: nat)
      requires Expanded(keys, level, x) && c !in keys && c != x
      ensures Expanded(keys + {c}, level[c := l], x)
    {
    }

    /** The frontier lists found vertices in level order, spanning at most the levels `cur` and `cur + 1`. */
    ghost predicate Queued(level: map<V, nat>, frontier: seq<V>, cur: nat)
    {
      && (forall i :: 0 <= i < |frontier| ==> frontier[i] in level && cur <= level[frontier[i]] <= cur + 1)
      && (forall i, j :: 0 <= i < j < |frontier| ==> level[frontier[i]] <= level[frontier[j]])
      && (forall x :: x in level ==> level[x] <= cur + 1)
    }

    /** Taking the head off the frontier moves the current level to the head's level. */
    lemma QueuedPop(level: map<V, nat>, frontier: seq<V>, cur: nat)
      requires Queued(level, frontier, cur) && |frontier| > 0
      ensures Queued(level, frontier[1..], level[frontier[0]])
    {
      assert forall i :: 0 <= i < |frontier| - 1 ==> frontier[1..][i] == frontier[i + 1];
    }

    /**
     * The loop over the neighbors of the vertex `p` just taken off the
     * frontier: each neighbor without a parent gets `p` as parent and joins
     * the frontier.
     */
    method Expand(ghost v: V, ghost blocked: set<V>, ghost parents: map<V, V>, parents': map<V, V>,
                  ghost level: map<V, nat>, frontier: seq<V>, p: V)
      returns (parents'': map<V, V>, ghost level': map<V, nat>, frontier': seq<V>)
      requires Valid() && Found(v, blocked, parents, parents', level) && p in level
      requires Queued(level, frontier, level[p])
      requires forall x :: x in level && x !in frontier && x != p ==> Expanded(parents'.Keys, level, x)
      ensures Found(v, blocked, parents, parents'', level') && Queued(level', frontier', level[p])
      ensures forall x :: x in level' && x !in frontier' ==> Expanded(parents''.Keys, level', x)
      ensures level.Keys <= level'.Keys && (level'.Keys == level.Keys ==> frontier' == frontier)
      ensures p in neighbors
      ensures AdoptedParents(parents', parents'', frontier, frontier', p, neighbors[p] - parents'.Keys)
      ensures AdoptedLevels(level, level', neighbors[p] - parents'.Keys, level[p] + 1)
    {
      ghost var cur := level[p];
      ExpandStart(v, blocked, parents, parents', level, frontier, p);
      AdoptStart(parents', level, frontier, p, neighbors[p], cur + 1);
      parents'', level', frontier' := AdoptNeighbors(v, blocked, parents, level, frontier, p, cur, parents');
      ExpandDone(v, blocked, parents, level, frontier, p, cur, parents'', level', frontier');
      AdoptDone(parents', parents'', level, level', frontier, frontier', p, neighbors[p], cur + 1);
    }

    /** The loop of `Expand` itself, from the state it starts in to the state with every neighbor of `p` walked. */
    method AdoptNeighbors(ghost v: V, ghost blocked: set<V>, ghost parents: map<V, V>, ghost level: map<V, nat>,
                          frontier: seq<V>, p: V, ghost cur: nat, parents': map<V, V>)
      returns (parents'': map<V, V>, ghost level': map<V, nat>, frontier': seq<V>)
      requires Valid() && p in neighbors
      requires Expanding(v, blocked, parents, level, frontier, p, cur, neighbors[p], parents', level, frontier)
      requires Adopting(parents', parents', level, level, frontier, frontier, p, neighbors[p], neighbors[p], cur + 1)
      ensures Expanding(v, blocked, parents, level, frontier, p, cur, {}, parents'', level', frontier')
      ensures Adopting(parents', parents'', level, level', frontier, frontier', p, neighbors[p], {}, cur + 1)
    {
      parents'', level', frontier' := parents', level, frontier;
      var todo := neighbors[p];
      ghost var nbrs, l := todo, cur + 1;
      while todo != {}
        invariant Expanding(v, blocked, parents, level, frontier, p, cur, todo, parents'', level', frontier')
        invariant Adopting(parents', parents'', level, level', frontier, frontier', p, nbrs, todo, l)
        decreases todo
      {
        var c :| c in todo;
        if c !in parents'' {
          ExpandChild(v, blocked, parents, level, frontier, p, cur, todo, parents'', level', frontier', c);
          AdoptChild(parents', parents'', level, level', frontier, frontier', p, nbrs, todo, l, c);
          parents'' := parents''[c := p];
          level' := level'[c := l];
          frontier' := frontier' + [c];
        } else {
          ExpandSkip(v, blocked, parents, level, frontier, p, cur, todo, parents'', level', frontier', c);
          AdoptSkip(parents', parents'', level, level', frontier, frontier', p, nbrs, todo, l, c);
        }
        todo := todo - {c};
      }
    }

    /**
     * The loop invariant of `Expand` over the neighbors of `p` still in
     * `todo`: the search only grows, `p` stays at the level `cur`, what was
     * found and the frontier keep their invariants, every found vertex off
     * the frontier other than `p` stays expanded, and the neighbors already
     * walked have parents.
     */
    ghost predicate Expanding(v: V, blocked: set<V>, parents: map<V, V>, level0: map<V, nat>, frontier0: seq<V>,
                              p: V, cur: nat, todo: set<V>, parents': map<V, V>, level: map<V, nat>, frontier: seq<V>)
      reads this
    {
      && p in neighbors && todo <= neighbors[p]
      && level0.Keys <= level.Keys && (level.Keys == level0.Keys ==> frontier == frontier0)
      && p in level && level[p] == cur
      && Found(v, blocked, parents, parents', level) && Queued(level, frontier, cur)
      && (forall x :: x in level && x !in frontier && x != p ==> Expanded(parents'.Keys, level, x))
      && neighbors[p] - todo <= parents'.Keys
    }

    lemma ExpandStart(v: V, blocked: set<V>, parents: map<V, V>, parents': map<V, V>, level: map<V, nat>,
                      frontier: seq<V>, p: V)
      requires Valid() && Found(v, blocked, parents, parents', level) && p in level
      requires Queued(level, frontier, level[p])
      requires forall x :: x in level && x !in frontier && x != p ==> Expanded(parents'.Keys, level, x)
      ensures p in neighbors
      ensures Expanding(v, blocked, parents, level, frontier, p, level[p], neighbors[p], parents', level, frontier)
    {
      AdjacencyFacts();
    }

    /** Giving the unseen neighbor `c` of `p` the parent `p`, the next level and a place on the frontier. */
    lemma ExpandChild(v: V, blocked: set<V>, parents: map<V, V>, level0: map<V, nat>, frontier0: seq<V>,
                      p: V, cur: nat, todo: set<V>, parents': map<V, V>, level: map<V, nat>, frontier: seq<V>, c: V)
      requires Valid() && Expanding(v, blocked, parents, level0, frontier0, p, cur, todo, parents', level, frontier)
      requires c in todo && c !in parents'
      ensures Expanding(v, blocked, parents, level0, frontier0, p, cur, todo - {c},
                        parents'[c := p], level[c := cur + 1], frontier + [c])
    {
      assert c !in level;
      var keys := parents'[c := p].Keys;
      var level' := level[c := cur + 1];
      FoundChild(v, blocked, parents, parents', level, p, c, cur + 1);
      QueuedChild(level, frontier, cur, c);
      ExpandedAllChild(parents'.Keys, keys, level, frontier, p, c, cur + 1);
      assert level0.Keys <= level'.Keys && level'.Keys != level0.Keys by {
        assert c in level'.Keys && c !in level0.Keys;
      }
      assert p in level' && level'[p] == cur;
      assert neighbors[p] - (todo - {c}) <= keys;
    }

    /** A new vertex that is put on the frontier keeps the vertices off the frontier expanded. */
    lemma ExpandedAllChild(keys: set<V>, keys': set<V>, level: map<V, nat>, frontier: seq<V>, p: V, c: V, l: nat)
      requires forall x :: x in level && x !in frontier && x != p ==> Expanded(keys, level, x)
      requires c !in keys && c !in level && keys' == keys + {c}
      ensures forall x :: x in level[c := l] && x !in frontier + [c] && x != p ==> Expanded(keys', level[c := l], x)
    {
      forall x | x in level[c := l] && x !in frontier + [c] && x != p
        ensures Expanded(keys', level[c := l], x)
      {
        ExpandedChild(keys, level, x, c, l);
      }
    }

    /** A neighbor that already has a parent changes nothing but `todo`. */
    lemma ExpandSkip(v: V, blocked: set<V>, parents: map<V, V>, level0: map<V, nat>, frontier0: seq<V>,
                     p: V, cur: nat, todo: set<V>, parents': map<V, V>, level: map<V, nat>, frontier: seq<V>, c: V)
      requires Expanding(v, blocked, parents, level0, frontier0, p, cur, todo, parents', level, frontier)
      requires c in todo && c in parents'
      ensures Expanding(v, blocked, parents, level0, frontier0, p, cur, todo - {c}, parents', level, frontier)
    {
    }

    /** Once every neighbor of `p` has a parent, `p` is expanded too. */
    lemma ExpandDone(v: V, blocked: set<V>, parents: map<V, V>, level0: map<V, nat>, frontier0: seq<V>,
                     p: V, cur: nat, parents': map<V, V>, level: map<V, nat>, frontier: seq<V>)
      requires Expanding(v, blocked, parents, level0, frontier0, p, cur, {}, parents', level, frontier)
      ensures Found(v, blocked, parents, parents', level) && Queued(level, frontier, cur)
      ensures forall x :: x in level && x !in frontier ==> Expanded(parents'.Keys, level, x)
      ensures level0.Keys <= level.Keys && (level.Keys == level0.Keys ==> frontier == frontier0)
    {
      assert Expanded(parents'.Keys, level, p);
    }

    /** A search whose every found vertex is expanded has found exactly the vertices reachable around `blocked`, in a BFS tree. */
    lemma SearchDone(v: V, blocked: set<V>, parents: map<V, V>, parents': map<V, V>, level: map<V, nat>)
      requires Found(v, blocked, parents, parents', level)
      requires forall x :: x in level ==> Expanded(parents'.Keys, level, x)
      ensures BfsTree(neighbors, v, parents', level)
      ensures level.Keys == {v} + ReachAvoidSet(neighbors, v, blocked)
    {
      SearchDoneTree(v, blocked, parents, parents', level);
      SearchDoneReach(v, blocked, parents, parents', level);
    }

    lemma SearchDoneTree(v: V, blocked: set<V>, parents: map<V, V>, parents': map<V, V>, level: map<V, nat>)
      requires Found(v, blocked, parents, parents', level)
      requires forall x :: x in level ==> Expanded(parents'.Keys, level, x)
      ensures BfsTree(neighbors, v, parents', level)
    {
    }

    lemma SearchDoneReach(v: V, blocked: set<V>, parents: map<V, V>, parents': map<V, V>, level: map<V, nat>)
      requires Found(v, blocked, parents, parents', level)
      requires forall x :: x in level ==> Expanded(parents'.Keys, level, x)
      ensures level.Keys == {v} + ReachAvoidSet(neighbors, v, blocked)
    {
      var keys := parents'.Keys;
      forall x | x in keys && (x == v || x !in blocked) && x in neighbors ensures neighbors[x] <= keys {
        assert x in level;
      }
      forall w | w in ReachAvoidSet(neighbors, v, blocked) ensures w in level {
        ClosedContainsReach(neighbors, keys, blocked, v, w);
      }
    }

    /**
     * The loop invariant of `Bfs`: what was found so far, the frontier in
     * order of level, and every found vertex off the frontier expanded.
     */
    ghost predicate Searching(v: V, blocked: set<V>, parents: map<V, V>, parents': map<V, V>, level: map<V, nat>,
                              frontier: seq<V>, cur: nat)
      reads this
    {
      && Found(v, blocked, parents, parents', level) && Queued(level, frontier, cur)
      && (forall x :: x in level && x !in frontier ==> Expanded(parents'.Keys, level, x))
    }

    /** Finding a new vertex leaves fewer vertices to find. */
    lemma MoreFound(found: set<V>, found': set<V>)
      requires found <= found' <= vertices && found' != found
      ensures vertices - found' < vertices - found
    {
      var x :| x in found' && x !in found;
      assert x in vertices - found;
    }

    /** Taking the head `p` off the frontier sets up `Expand` for `p`. */
    lemma SearchPop(v: V, blocked: set<V>, parents: map<V, V>, parents': map<V, V>, level: map<V, nat>,
                    frontier: seq<V>, cur: nat)
      requires Searching(v, blocked, parents, parents', level, frontier, cur) && |frontier| > 0
      ensures frontier[0] in level && Queued(level, frontier[1..], level[frontier[0]])
      ensures forall x :: x in level && x !in frontier[1..] && x != frontier[0] ==> Expanded(parents'.Keys, level, x)
    {
      QueuedPop(level, frontier, cur);
      forall x | x in level && x !in frontier[1..] && x != frontier[0] ensures Expanded(parents'.Keys, level, x) {
        assert x !in frontier by {
          assert forall i :: 1 <= i < |frontier| ==> frontier[i] == frontier[1..][i - 1];
        }
      }
    }

    /**
     * Breadth-first search into the caller's `parents`: `v` becomes its own
     * parent, and every vertex reachable from `v` through vertices that had
     * no parent gets as parent its predecessor on a shortest walk from `v`.
     * The ghost `level` is each new vertex's distance from `v`.
     */
    method Bfs(v: V, parents: map<V, V>) returns (parents': map<V, V>, ghost level: map<V, nat>)
      requires Valid() && v in vertices
      ensures BfsTree(neighbors, v, parents', level)
      ensures parents'.Keys == parents.Keys + level.Keys
      ensures forall x :: x in parents && x != v ==> parents'[x] == parents[x]
      ensures level.Keys == {v} + ReachAvoidSet(neighbors, v, parents.Keys - {v})
    {
      ghost var blocked := parents.Keys - {v};
      ReachableSelf(neighbors, v, blocked);
      parents' := parents[v := v];
      level := map[v := 0];
      var frontier := [v];
      ghost var cur: nat := 0;
      assert Searching(v, blocked, parents, parents', level, frontier, cur);
      while |frontier| > 0
        invariant Searching(v, blocked, parents, parents', level, frontier, cur)
        decreases vertices - level.Keys, |frontier|
      {
        var p := frontier[0];
        SearchPop(v, blocked, parents, parents', level, frontier, cur);
        ghost var before, size := level.Keys, |frontier|;
        frontier := frontier[1..];
        cur := level[p];
        parents', level, frontier := Expand(v, blocked, parents, parents', level, frontier, p);
        if level.Keys != before {
          MoreFound(before, level.Keys);
        } else {
          assert |frontier| < size;
        }
      }
      SearchDone(v, blocked, parents, parents', level);
    }

    /**
     * The walk down the parent map from the self-parented root to `v`, or
     * `None` when `v` has no parent. The parent pointers from `v` must reach
     * a root; otherwise the walk up the map would not end.
     */
    static method Path(v: V, parents: map<V, V>) returns (path: Option<seq<V>>)
      requires v in parents ==> exists root: V, n: nat :: ChainTo(parents, v, root, n)
      ensures path == None <==> v !in parents
      ensures path.Some? ==> ParentChain(parents, path.value, v)
      ensures v in parents && parents[v] == v ==> path == Some([v])
    {
      if v !in parents {
        return None;
      }
      ghost var root: V, n: nat :| ChainTo(parents, v, root, n);
      var x := v;
      var p := [v];
      while x != parents[x]
        invariant ChainTo(parents, x, root, n)
        invariant |p| >= 1 && p[0] == x && p[|p| - 1] == v
        invariant parents[v] == v ==> p == [v]
        invariant forall i :: 0 <= i < |p| ==> p[i] in parents
        invariant forall i :: 1 <= i < |p| ==> parents[p[i]] == p[i - 1] && p[i] != p[i - 1]
        decreases n
      {
        var up := parents[x];
        p := [up] + p;
        x := up;
        n := n - 1;
      }
      return Some(p);
    }

    /**
     * A breadth-first search from `source` into an empty parent map followed
     * by the parent walk to `target`: a shortest walk between them, or `None`
     * exactly when `target` cannot be reached.
     */
    method ShortestPath(source: V, target: V) returns (path: Option<seq<V>>)
      requires Valid() && source in vertices
      ensures path == None <==> target !in ReachSet(neighbors, source)
      ensures path.Some? ==> WalkBetween(neighbors, path.value, source, target)
      ensures path.Some? ==> forall q :: WalkBetween(neighbors, q, source, target) ==> |path.value| <= |q|
    {
      var parents, level := Bfs(source, map[]);
      ReachAvoidNothing(neighbors, source);
      ReachableSelf(neighbors, source, {});
      assert level.Keys == parents.Keys == ReachSet(neighbors, source);
      if target in parents {
        ChainFromLevel(neighbors, source, parents, level, target);
      }
      path := Path(target, parents);
      if path.Some? {
        ChainIsShortest(neighbors, source, parents, level, path.value, target);
      }
    }
  }

}
