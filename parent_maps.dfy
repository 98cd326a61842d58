/**
 * Parent maps, the output convention of the searches: each discovered vertex
 * is mapped to the vertex that discovered it, and the root to itself.
 */
module ParentMaps {
  import opened Paths

  /** Following parent pointers from `x` reaches the self-parented `root` in at most `n` steps. */
  ghost predicate ChainTo<V(!new)>(parents: map<V, V>, x: V, root: V, n: nat)
    decreases n
  {
    x in parents &&
    if parents[x] == x then x == root else n > 0 && ChainTo(parents, parents[x], root, n - 1)
  }

  /**
   * `p` is the parent chain of `x`: it ends at `x`, starts at a self-parented
   * vertex, and each entry is the parent of the next one.
   */
  ghost predicate ParentChain<V(!new)>(parents: map<V, V>, p: seq<V>, x: V)
  {
    && |p| >= 1 && p[|p| - 1] == x
    && (forall i :: 0 <= i < |p| ==> p[i] in parents)
    && parents[p[0]] == p[0]
    && forall i :: 1 <= i < |p| ==> parents[p[i]] == p[i - 1] && p[i] != p[i - 1]
  }

  /** `x` hangs below its parent by one edge and one level. */
  ghost predicate TreeEdge<V(!new)>(adj: map<V, set<V>>, parents: map<V, V>, level: map<V, nat>, x: V)
    requires x in level
  {
    x in parents && parents[x] in level && Step(adj, parents[x], x) && level[x] == level[parents[x]] + 1
  }

  /**
   * A breadth-first tree rooted at `root`: `level` gives the depth of each
   * vertex of the tree, every non-root vertex hangs below a neighbor, every
   * neighbor of a tree vertex has been given a parent, and no edge between
   * tree vertices skips a level downwards.
   */
  ghost predicate BfsTree<V(!new)>(adj: map<V, set<V>>, root: V, parents: map<V, V>, level: map<V, nat>)
  {
    && root in level && level.Keys <= parents.Keys
    && parents[root] == root && level[root] == 0
    && (forall x :: x in level && x != root ==> TreeEdge(adj, parents, level, x))
    && (forall a :: a in level && a in adj ==> adj[a] <= parents.Keys)
    && (forall a, b :: a in level && b in level && Step(adj, a, b) ==> level[b] <= level[a] + 1)
  }

  /** A chain that reaches the root within `n` steps also does so within any larger bound. */
  lemma {:induction false} ChainToMore<V(!new)>(parents: map<V, V>, x: V, root: V, n: nat, m: nat)
    requires ChainTo(parents, x, root, n) && n <= m
    ensures ChainTo(parents, x, root, m)
    decreases n
  {
    if parents[x] != x {
      ChainToMore(parents, parents[x], root, n - 1, m - 1);
    }
  }

  /**
   * When every ranked vertex other than `root` has a ranked parent of lower
   * rank, and `root` is its own parent, each parent chain reaches `root`
   * within as many steps as the vertex's rank.
   */
  lemma {:induction false} ChainByRank<V(!new)>(parents: map<V, V>, rank: map<V, nat>, root: V, x: V)
    requires x in rank && root in rank && root in parents && parents[root] == root
    requires forall y :: y in rank && y != root ==>
               y in parents && parents[y] in rank && rank[parents[y]] < rank[y]
    ensures ChainTo(parents, x, root, rank[x])
    decreases rank[x]
  {
    if x != root {
      ChainByRank(parents, rank, root, parents[x]);
      ChainToMore(parents, parents[x], root, rank[parents[x]], rank[x] - 1);
    }
  }

  /** In a complete breadth-first tree no walk from the root is shorter than the level it reaches. */
  lemma {:induction false} LevelBound<V(!new)>(adj: map<V, set<V>>, root: V, parents: map<V, V>, level: map<V, nat>, p: seq<V>, y: V)
    requires BfsTree(adj, root, parents, level) && level.Keys == parents.Keys
    requires WalkBetween(adj, p, root, y)
    ensures y in level && level[y] <= |p| - 1
    decreases |p|
  {
    if |p| > 1 {
      var q := p[..|p| - 1];
      assert WalkBetween(adj, q, root, p[|p| - 2]) by {
        assert forall i :: 0 <= i < |q| ==> q[i] == p[i];
      }
      LevelBound(adj, root, parents, level, q, p[|p| - 2]);
      assert Step(adj, p[|p| - 2], y);
    }
  }

  /** Every tree vertex's parent chain reaches the root in as many steps as its level. */
  lemma {:induction false} ChainFromLevel<V(!new)>(adj: map<V, set<V>>, root: V, parents: map<V, V>, level: map<V, nat>, x: V)
    requires BfsTree(adj, root, parents, level) && x in level
    ensures ChainTo(parents, x, root, level[x])
    decreases level[x]
  {
    if x != root {
      assert TreeEdge(adj, parents, level, x);
      ChainFromLevel(adj, root, parents, level, parents[x]);
    }
  }

  /** The parent chain of a tree vertex is a walk from the root with one edge per level. */
  lemma {:induction false} ChainIsTreeWalk<V(!new)>(adj: map<V, set<V>>, root: V, parents: map<V, V>, level: map<V, nat>, p: seq<V>, x: V)
    requires BfsTree(adj, root, parents, level) && x in level
    requires ParentChain(parents, p, x)
    ensures WalkBetween(adj, p, root, x) && |p| == level[x] + 1
    decreases |p|
  {
    if |p| > 1 {
      var q := p[..|p| - 1];
      assert parents[x] == p[|p| - 2] != x;
      assert TreeEdge(adj, parents, level, x);
      assert ParentChain(parents, q, p[|p| - 2]);
      ChainIsTreeWalk(adj, root, parents, level, q, p[|p| - 2]);
      WalkStep(adj, q, root, p[|p| - 2], x);
      assert q + [x] == p;
    }
  }

  /**
   * The parent chain of any vertex of a complete breadth-first tree is a
   * shortest walk from the root: no walk from the root to `x` has fewer edges.
   */
  lemma ChainIsShortest<V(!new)>(adj: map<V, set<V>>, root: V, parents: map<V, V>, level: map<V, nat>, p: seq<V>, x: V)
    requires BfsTree(adj, root, parents, level) && level.Keys == parents.Keys
    requires ParentChain(parents, p, x)
    ensures WalkBetween(adj, p, root, x)
    ensures forall q :: WalkBetween(adj, q, root, x) ==> |p| <= |q|
  {
    ChainIsTreeWalk(adj, root, parents, level, p, x);
    forall q | WalkBetween(adj, q, root, x) ensures |p| <= |q| {
      LevelBound(adj, root, parents, level, q, x);
    }
  }

}
