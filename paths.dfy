/**
 * Walks and reachability over an adjacency map `adj`, the `neighbors`
 * dictionary that every graph class of the library keeps: `adj[x]` is the
 * set of vertices one edge away from `x`.
 */
module Paths {

  /** `b` is one edge away from `a`. */
  predicate Step<V(!new)>(adj: map<V, set<V>>, a: V, b: V)
  {
    a in adj && b in adj[a]
  }

  /** Every neighbor is itself a key of the adjacency map. */
  ghost predicate Closed<V(!new)>(adj: map<V, set<V>>)
  {
    forall x :: x in adj ==> adj[x] <= adj.Keys
  }

  /** Undirected adjacency: `u` is a neighbor of `v` exactly when `v` is a neighbor of `u`. */
  ghost predicate Symmetric<V(!new)>(adj: map<V, set<V>>)
  {
    forall x, y :: Step(adj, x, y) ==> Step(adj, y, x)
  }

  /** A non-empty vertex sequence whose consecutive entries are joined by edges. */
  ghost predicate IsWalk<V(!new)>(adj: map<V, set<V>>, p: seq<V>)
  {
    |p| >= 1 && forall i :: 0 <= i < |p| - 1 ==> Step(adj, p[i], p[i + 1])
  }

  /** A walk that starts at `x` and ends at `y`; it has `|p| - 1` edges. */
  ghost predicate WalkBetween<V(!new)>(adj: map<V, set<V>>, p: seq<V>, x: V, y: V)
  {
    IsWalk(adj, p) && p[0] == x && p[|p| - 1] == y
  }

  /** Every vertex of `p` after the first lies outside `m`. */
  ghost predicate Avoids<V(!new)>(p: seq<V>, m: set<V>)
  {
    forall i :: 1 <= i < |p| ==> p[i] !in m
  }

  ghost predicate Reachable<V(!new)>(adj: map<V, set<V>>, x: V, y: V)
  {
    exists p :: WalkBetween(adj, p, x, y)
  }

  /** `y` can be reached from `x` through vertices that are not in `m` (`x` itself may be). */
  ghost predicate ReachableAvoiding<V(!new)>(adj: map<V, set<V>>, x: V, y: V, m: set<V>)
  {
    exists p :: WalkBetween(adj, p, x, y) && Avoids(p, m)
  }

  /** The vertices reachable from `x`. */
  ghost function ReachSet<V(!new)>(adj: map<V, set<V>>, x: V): set<V>
  {
    set y | y in adj.Keys && Reachable(adj, x, y)
  }

  /** The vertices outside `m` that a search from `x` stopping at `m` can reach. */
  ghost function ReachAvoidSet<V(!new)>(adj: map<V, set<V>>, x: V, m: set<V>): set<V>
  {
    set y | y in adj.Keys && y !in m && ReachableAvoiding(adj, x, y, m)
  }

  lemma ReachableSelf<V(!new)>(adj: map<V, set<V>>, x: V, m: set<V>)
    ensures Reachable(adj, x, x) && ReachableAvoiding(adj, x, x, m)
  {
    assert WalkBetween(adj, [x], x, x) && Avoids([x], m);
  }

  /** Prepending an edge `v -> u` to a walk from `u` that avoids `n` gives a walk from `v` that avoids any `m <= n`. */
  lemma StepThenReach<V(!new)>(adj: map<V, set<V>>, v: V, u: V, w: V, m: set<V>, n: set<V>)
    requires m <= n && Step(adj, v, u) && u !in n
    requires ReachableAvoiding(adj, u, w, n)
    ensures ReachableAvoiding(adj, v, w, m)
  {
    var p :| WalkBetween(adj, p, u, w) && Avoids(p, n);
    var q := [v] + p;
    assert forall i :: 1 <= i < |q| ==> q[i] == p[i - 1];
    assert WalkBetween(adj, q, v, w) && Avoids(q, m);
  }

  /** Appending an edge `y -> z` to a walk ending at `y`. */
  lemma WalkStep<V(!new)>(adj: map<V, set<V>>, p: seq<V>, x: V, y: V, z: V)
    requires WalkBetween(adj, p, x, y) && Step(adj, y, z)
    ensures WalkBetween(adj, p + [z], x, z)
  {
    var q := p + [z];
    assert forall i :: 0 <= i < |p| ==> q[i] == p[i];
  }

  lemma ReachableStep<V(!new)>(adj: map<V, set<V>>, x: V, y: V, z: V)
    requires Reachable(adj, x, y) && Step(adj, y, z)
    ensures Reachable(adj, x, z)
  {
    var p :| WalkBetween(adj, p, x, y);
    WalkStep(adj, p, x, y, z);
  }

  /** One more step to a vertex outside `m` keeps a walk avoiding `m`. */
  lemma ReachableAvoidingStep<V(!new)>(adj: map<V, set<V>>, x: V, y: V, z: V, m: set<V>)
    requires ReachableAvoiding(adj, x, y, m) && Step(adj, y, z) && z !in m
    ensures ReachableAvoiding(adj, x, z, m)
  {
    var p :| WalkBetween(adj, p, x, y) && Avoids(p, m);
    WalkStep(adj, p, x, y, z);
    var q := p + [z];
    assert forall i :: 1 <= i < |p| ==> q[i] == p[i];
  }

  lemma {:induction false} ReachableTransitive<V(!new)>(adj: map<V, set<V>>, x: V, y: V, z: V)
    requires Reachable(adj, x, y) && Reachable(adj, y, z)
    ensures Reachable(adj, x, z)
  {
    var p :| WalkBetween(adj, p, x, y);
    var q :| WalkBetween(adj, q, y, z);
    var r := p + q[1..];
    forall i | 0 <= i < |r| - 1 ensures Step(adj, r[i], r[i + 1]) {
      if i < |p| - 1 {
        assert r[i] == p[i] && r[i + 1] == p[i + 1];
      } else {
        assert r[i] == q[i - |p| + 1] && r[i + 1] == q[i - |p| + 2];
      }
    }
    assert WalkBetween(adj, r, x, z);
  }

  /** In a symmetric adjacency a walk can be followed backwards. */
  lemma ReachableSymmetric<V(!new)>(adj: map<V, set<V>>, x: V, y: V)
    requires Symmetric(adj) && Reachable(adj, x, y)
    ensures Reachable(adj, y, x)
  {
    var p :| WalkBetween(adj, p, x, y);
    var n := |p|;
    var r := seq(n, i requires 0 <= i < n => p[n - 1 - i]);
    forall i | 0 <= i < n - 1 ensures Step(adj, r[i], r[i + 1]) {
      assert Step(adj, p[n - 2 - i], p[n - 1 - i]);
    }
    assert WalkBetween(adj, r, y, x);
  }

  /** In a symmetric adjacency all members of a reach set have the same reach set. */
  lemma SameReachSet<V(!new)>(adj: map<V, set<V>>, x: V, y: V)
    requires Symmetric(adj) && Reachable(adj, x, y)
    ensures ReachSet(adj, y) == ReachSet(adj, x)
  {
    ReachableSymmetric(adj, x, y);
    forall z | Reachable(adj, y, z) ensures Reachable(adj, x, z) {
      ReachableTransitive(adj, x, y, z);
    }
    forall z | Reachable(adj, x, z) ensures Reachable(adj, y, z) {
      ReachableTransitive(adj, y, x, z);
    }
  }

  /** In a symmetric adjacency two reach sets are equal or disjoint. */
  lemma ReachSetsEqualOrDisjoint<V(!new)>(adj: map<V, set<V>>, x: V, y: V)
    requires Symmetric(adj)
    ensures ReachSet(adj, x) == ReachSet(adj, y) || ReachSet(adj, x) !! ReachSet(adj, y)
  {
    if z :| z in ReachSet(adj, x) && z in ReachSet(adj, y) {
      SameReachSet(adj, x, z);
      SameReachSet(adj, y, z);
    }
  }

  /** Avoiding nothing is no restriction. */
  lemma ReachAvoidNothing<V(!new)>(adj: map<V, set<V>>, x: V)
    ensures ReachAvoidSet(adj, x, {}) == ReachSet(adj, x)
  {
    forall y | Reachable(adj, x, y) ensures ReachableAvoiding(adj, x, y, {}) {
      var p :| WalkBetween(adj, p, x, y);
      assert Avoids(p, {});
    }
  }

  /**
   * A set that contains `v`, and the neighbors of `v` and of each of its
   * members outside `m`, contains everything reachable from `v` avoiding `m`.
   */
  lemma ClosedContainsReach<V(!new)>(adj: map<V, set<V>>, s: set<V>, m: set<V>, v: V, w: V)
    requires v in s
    requires forall x :: x in s && (x == v || x !in m) && x in adj ==> adj[x] <= s
    requires ReachableAvoiding(adj, v, w, m)
    ensures w in s
  {
    var p :| WalkBetween(adj, p, v, w) && Avoids(p, m);
    WalkStaysIn(adj, s, m, p, |p| - 1);
  }

  lemma {:induction false} WalkStaysIn<V(!new)>(adj: map<V, set<V>>, s: set<V>, m: set<V>, p: seq<V>, i: nat)
    requires IsWalk(adj, p) && p[0] in s && Avoids(p, m) && i < |p|
    requires forall x :: x in s && (x == p[0] || x !in m) && x in adj ==> adj[x] <= s
    ensures p[i] in s
  {
    if i > 0 {
      WalkStaysIn(adj, s, m, p, i - 1);
      assert Step(adj, p[i - 1], p[i]);
    }
  }

  /** The reach set of a member of a closed set lies inside it. */
  lemma ReachSetWithin<V(!new)>(adj: map<V, set<V>>, s: set<V>, v: V)
    requires v in s
    requires forall x :: x in s && x in adj ==> adj[x] <= s
    ensures ReachSet(adj, v) <= s
  {
    forall w | w in ReachSet(adj, v) ensures w in s {
      ReachAvoidNothing(adj, v);
      ClosedContainsReach(adj, s, {}, v, w);
    }
  }

}
