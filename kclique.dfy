/**
 * The backtracking k-clique search of the examples. The search grows one
 * shared list of vertices by appending a candidate and shrinks it again by
 * popping when the candidate leads nowhere; the list is a `VertexList`
 * object, and a successful search hands back that same object.
 */
module Cliques {
  import opened Wrappers
  import opened Collections
  import opened Paths
  import opened Undirected

  /** A list of distinct graph vertices, each joined by an edge to every other. */
  ghost predicate IsClique<V(!new)>(adj: map<V, set<V>>, s: seq<V>)
  {
    && Distinct(s)
    && (forall i :: 0 <= i < |s| ==> s[i] in adj)
    && (forall i, j :: 0 <= i < |s| && 0 <= j < |s| && i != j ==> Step(adj, s[i], s[j]))
  }

  /** No clique of exactly `k` vertices contains all of `base`. */
  ghost predicate NoKClique<V(!new)>(adj: map<V, set<V>>, base: set<V>, k: int)
  {
    forall t :: IsClique(adj, t) && base <= Elements(t) ==> |t| != k
  }

  /** Any two members of a clique are joined by an edge. */
  lemma CliqueJoins<V(!new)>(adj: map<V, set<V>>)
    ensures forall t, a, b :: IsClique(adj, t) && a in Elements(t) && b in Elements(t) && a != b ==> Step(adj, a, b)
  {
    forall t, a, b | IsClique(adj, t) && a in Elements(t) && b in Elements(t) && a != b ensures Step(adj, a, b) {
      var i :| 0 <= i < |t| && t[i] == a;
      var j :| 0 <= j < |t| && t[j] == b;
    }
  }

  /** A vertex outside a clique that is joined to each of its members extends it. */
  lemma CliqueAppend<V(!new)>(adj: map<V, set<V>>, base: seq<V>, c: V)
    requires Symmetric(adj) && IsClique(adj, base) && c in adj && c !in Elements(base)
    requires |base| == 0 || forall i :: 0 <= i < |base| ==> Step(adj, base[i], c)
    ensures IsClique(adj, base + [c]) && Elements(base + [c]) == Elements(base) + {c}
  {
    var s := base + [c];
    forall i, j | 0 <= i < |s| && 0 <= j < |s| && i != j ensures Step(adj, s[i], s[j]) {
      if j == |base| {
        assert s[i] == base[i];
      } else if i == |base| {
        assert Step(adj, base[j], c);
      }
    }
    forall i, j | 0 <= i < j < |s| ensures s[i] != s[j] {
      if j == |base| {
        assert s[i] in Elements(base);
      }
    }
  }

  /** A vertex that is not joined to some member of `base` lies in no clique containing `base`. */
  lemma NotJoinedNoClique<V(!new)>(adj: map<V, set<V>>, base: seq<V>, c: V, k: int)
    requires exists m :: m in base && m != c && !Step(adj, m, c)
    ensures NoKClique(adj, Elements(base) + {c}, k)
  {
    CliqueJoins(adj);
    var m :| m in base && m != c && !Step(adj, m, c);
    assert m in Elements(base);
  }

  /**
   * If no clique of size `k` contains `base` together with any one of the
   * candidates — every vertex outside `base`, or, when `base` is non-empty,
   * every neighbor of its last vertex outside `base` — then no clique of
   * size `k` contains `base`, unless `base` itself has `k` vertices.
   */
  lemma AllCandidatesFail<V(!new)>(adj: map<V, set<V>>, vertices: set<V>, base: seq<V>, children: set<V>, k: int)
    requires adj.Keys == vertices && IsClique(adj, base) && |base| != k
    requires |base| == 0 ==> children == vertices - Elements(base)
    requires |base| > 0 ==> base[|base| - 1] in adj && children == adj[base[|base| - 1]] - Elements(base)
    requires forall c :: c in children ==> NoKClique(adj, Elements(base) + {c}, k)
    ensures NoKClique(adj, Elements(base), k)
  {
    forall t | IsClique(adj, t) && Elements(base) <= Elements(t) ensures |t| != k {
      DistinctCardinality(t);
      DistinctCardinality(base);
      if Elements(t) <= Elements(base) {
        assert Elements(t) == Elements(base);
      } else {
        var c :| c in Elements(t) && c !in Elements(base);
        var j :| 0 <= j < |t| && t[j] == c;
        if |base| > 0 {
          var last := base[|base| - 1];
          assert last in Elements(t);
          var i :| 0 <= i < |t| && t[i] == last;
          assert Step(adj, last, c);
        }
        assert c in children;
      }
    }
  }

  /** The shared, growing and shrinking list of the search. */
  class VertexList<V> {
    var items: seq<V>

    constructor ()
      ensures items == []
    {
      items := [];
    }

    /** `list.append`. */
    method Append(x: V)
      modifies this
      ensures items == old(items) + [x]
    {
      items := items + [x];
    }

    /** `list.pop`: removes and returns the last item. */
    method Pop() returns (x: V)
      requires |items| > 0
      modifies this
      ensures old(items) == items + [x]
    {
      x := items[|items| - 1];
      items := items[..|items| - 1];
    }
  }

  /**
   * `check(clique, vertex, graph)`: counts the members of `clique` that
   * `vertex` is a neighbor of, answering as soon as the count reaches the
   * length of the list. True exactly when the list is empty or `vertex` is a
   * neighbor of every member.
   */
  method Check<V(==, !new)>(clique: seq<V>, vertex: V, graph: Graph<V>) returns (b: bool)
    requires forall i :: 0 <= i < |clique| ==> clique[i] in graph.neighbors
    ensures b <==> |clique| == 0 || forall i :: 0 <= i < |clique| ==> Step(graph.neighbors, clique[i], vertex)
  {
    var count := 0;
    if |clique| == 0 {
      return true;
    }
    for i := 0 to |clique|
      invariant count <= i && count < |clique|
      invariant count == i <==> forall j :: 0 <= j < i ==> Step(graph.neighbors, clique[j], vertex)
    {
      if vertex in graph.neighbors[clique[i]] {
        count := count + 1;
        if count == |clique| {
          return true;
        }
      }
    }
    return false;
  }

  /**
   * `kclique(graph, k, clique)` for a list that is already a clique: when
   * the list has `k` vertices it is the answer; otherwise every candidate
   * that `Check` accepts is appended, the search recurses, and the
   * candidate is popped again if nothing was found. A found answer is the
   * same list, now a `k`-clique extending the old one; when nothing is found
   * the list is as it was and no `k`-clique contains its vertices.
   */
  method KCliqueFrom<V(==, !new)>(graph: Graph<V>, k: int, clique: VertexList<V>) returns (answer: VertexList?<V>)
    requires graph.Valid() && IsClique(graph.neighbors, clique.items)
    modifies clique
    ensures answer == null ==> clique.items == old(clique.items) && NoKClique(graph.neighbors, Elements(clique.items), k)
    ensures answer != null ==> answer == clique && |clique.items| == k && IsClique(graph.neighbors, clique.items)
                               && old(clique.items) <= clique.items
    decreases graph.vertices - Elements(clique.items)
  {
    if |clique.items| == k {
      return clique;
    }
    ghost var base := clique.items;
    var children: set<V>;
    if |clique.items| == 0 {
      children := graph.vertices;
    } else {
      children := graph.neighbors[clique.items[|clique.items| - 1]];
    }
    ghost var candidates := children;
    for i := 0 to |clique.items|
      invariant children == candidates - Elements(clique.items[..i])
    {
      assert clique.items[..i + 1] == clique.items[..i] + [clique.items[i]];
      if clique.items[i] in children {
        children := children - {clique.items[i]};
      }
    }
    assert clique.items[..|clique.items|] == clique.items;
    assert children <= graph.vertices - Elements(base) by {
      graph.AdjacencyFacts();
    }
    var todo := children;
    while todo != {}
      invariant todo <= children && clique.items == base
      invariant forall c :: c in children - todo ==> NoKClique(graph.neighbors, Elements(base) + {c}, k)
    {
      var c :| c in todo;
      var ok := Check(clique.items, c, graph);
      if ok {
        graph.AdjacencyFacts();
        CliqueAppend(graph.neighbors, base, c);
        clique.Append(c);
        answer := KCliqueFrom(graph, k, clique);
        if answer != null {
          return;
        }
        var popped := clique.Pop();
        assert clique.items == base by {
          assert clique.items + [popped] == base + [c];
          assert clique.items == (clique.items + [popped])[..|base|];
        }
        assert Elements(base + [c]) == Elements(base) + {c};
      } else {
        NotJoinedNoClique(graph.neighbors, base, c, k);
      }
      todo := todo - {c};
    }
    AllCandidatesFail(graph.neighbors, graph.vertices, base, children, k);
    answer := null;
  }

  /**
   * `kclique(graph, k)`: starts the search from an empty list. The answer is
   * a clique of exactly `k` vertices, and there is none when no such clique
   * exists; for `k == 0` it is the empty list.
   */
  method KClique<V(==, !new)>(graph: Graph<V>, k: int) returns (r: Option<seq<V>>)
    requires graph.Valid()
    ensures r.Some? ==> |r.value| == k && IsClique(graph.neighbors, r.value)
    ensures r.None? <==> forall t :: IsClique(graph.neighbors, t) ==> |t| != k
    ensures k == 0 ==> r == Some([])
  {
    var clique := new VertexList();
    var answer := KCliqueFrom(graph, k, clique);
    if answer == null {
      r := None;
    } else {
      r := Some(answer.items);
    }
  }

}
