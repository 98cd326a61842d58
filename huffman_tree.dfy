/**
 * Huffman trees of the examples. A node is either a leaf carrying a symbol
 * (no children) or an internal node with no symbol and exactly two children,
 * so the tree is a datatype. `encode` pushes one leaf per symbol onto a
 * priority queue keyed by frequency and then repeatedly merges the two
 * entries of least priority under a new internal node.
 */
module Huffman {
  import opened Wrappers
  import opened Heaps

  datatype HuffmanTree<C> = Leaf(symbol: C) | Node(left: HuffmanTree<C>, right: HuffmanTree<C>)

  /** The symbols at the leaves, with their multiplicities. */
  function Leaves<C>(t: HuffmanTree<C>): multiset<C>
  {
    match t
    case Leaf(c) => multiset{c}
    case Node(l, r) => Leaves(l) + Leaves(r)
  }

  /** The number of internal nodes. */
  function Internal<C>(t: HuffmanTree<C>): nat
  {
    match t
    case Leaf(_) => 0
    case Node(l, r) => Internal(l) + Internal(r) + 1
  }

  /** The total frequency of the leaves (0 for a symbol without a frequency). */
  function Weight<C>(freq: map<C, int>, t: HuffmanTree<C>): int
  {
    match t
    case Leaf(c) => if c in freq then freq[c] else 0
    case Node(l, r) => Weight(freq, l) + Weight(freq, r)
  }

  /** The sum of the frequencies of the symbols in `ks`. */
  ghost function Total<C>(freq: map<C, int>, ks: set<C>): int
    requires ks <= freq.Keys
  {
    if ks == {} then 0 else var x :| x in ks; freq[x] + Total(freq, ks - {x})
  }

  /** Any symbol can be taken out of the sum first. */
  lemma {:induction false} TotalRemove<C>(freq: map<C, int>, ks: set<C>, y: C)
    requires ks <= freq.Keys && y in ks
    ensures Total(freq, ks) == freq[y] + Total(freq, ks - {y})
    decreases ks
  {
    var x :| x in ks && Total(freq, ks) == freq[x] + Total(freq, ks - {x});
    if x != y {
      TotalRemove(freq, ks - {x}, y);
      TotalRemove(freq, ks - {y}, x);
      assert ks - {x} - {y} == ks - {y} - {x};
    }
  }

  /** The symbols at the leaves of all queued trees. */
  function QueueLeaves<C>(q: seq<(int, HuffmanTree<C>)>): multiset<C>
  {
    if q == [] then multiset{} else QueueLeaves(q[..|q| - 1]) + Leaves(q[|q| - 1].1)
  }

  /** The internal nodes of all queued trees. */
  function QueueInternal<C>(q: seq<(int, HuffmanTree<C>)>): nat
  {
    if q == [] then 0 else QueueInternal(q[..|q| - 1]) + Internal(q[|q| - 1].1)
  }

  /** The sum of the queued priorities. */
  function QueueSum<C>(q: seq<(int, HuffmanTree<C>)>): int
  {
    if q == [] then 0 else QueueSum(q[..|q| - 1]) + q[|q| - 1].0
  }

  /** Pushing an entry adds its tree's share to each total. */
  lemma QueuePush<C>(q: seq<(int, HuffmanTree<C>)>, e: (int, HuffmanTree<C>))
    ensures QueueLeaves(q + [e]) == QueueLeaves(q) + Leaves(e.1)
    ensures QueueInternal(q + [e]) == QueueInternal(q) + Internal(e.1)
    ensures QueueSum(q + [e]) == QueueSum(q) + e.0
  {
    assert (q + [e])[..|q|] == q;
  }

  /** Taking out entry `i` commutes with dropping the last entry. */
  lemma WithoutLast<T>(q: seq<(int, T)>, i: nat)
    requires i < |q|
    ensures i == |q| - 1 ==> Without(q, i) == q[..|q| - 1]
    ensures i < |q| - 1 ==> Without(q, i) == Without(q[..|q| - 1], i) + [q[|q| - 1]]
  {
  }

  /** Taking entry `i` out of the queue takes its tree's share out of each total. */
  lemma QueueTakeOut<C>(q: seq<(int, HuffmanTree<C>)>, i: nat)
    requires i < |q|
    ensures QueueLeaves(q) == QueueLeaves(Without(q, i)) + Leaves(q[i].1)
    ensures QueueInternal(q) == QueueInternal(Without(q, i)) + Internal(q[i].1)
    ensures QueueSum(q) == QueueSum(Without(q, i)) + q[i].0
  {
    LeavesTakeOut(q, i);
    InternalTakeOut(q, i);
    SumTakeOut(q, i);
  }

  lemma {:induction false} LeavesTakeOut<C>(q: seq<(int, HuffmanTree<C>)>, i: nat)
    requires i < |q|
    ensures QueueLeaves(q) == QueueLeaves(Without(q, i)) + Leaves(q[i].1)
    decreases |q|
  {
    WithoutLast(q, i);
    if i < |q| - 1 {
      var p := q[..|q| - 1];
      LeavesTakeOut(p, i);
      assert (Without(p, i) + [q[|q| - 1]])[..|Without(p, i)|] == Without(p, i);
    }
  }

  lemma {:induction false} InternalTakeOut<C>(q: seq<(int, HuffmanTree<C>)>, i: nat)
    requires i < |q|
    ensures QueueInternal(q) == QueueInternal(Without(q, i)) + Internal(q[i].1)
    decreases |q|
  {
    WithoutLast(q, i);
    if i < |q| - 1 {
      var p := q[..|q| - 1];
      InternalTakeOut(p, i);
      assert (Without(p, i) + [q[|q| - 1]])[..|Without(p, i)|] == Without(p, i);
    }
  }

  lemma {:induction false} SumTakeOut<C>(q: seq<(int, HuffmanTree<C>)>, i: nat)
    requires i < |q|
    ensures QueueSum(q) == QueueSum(Without(q, i)) + q[i].0
    decreases |q|
  {
    WithoutLast(q, i);
    if i < |q| - 1 {
      var p := q[..|q| - 1];
      SumTakeOut(p, i);
      assert (Without(p, i) + [q[|q| - 1]])[..|Without(p, i)|] == Without(p, i);
    }
  }

  /**
   * The loop invariant of `encode` over the symbols `done` pushed so far:
   * each symbol of `done` is at exactly one leaf, the queue holds as many
   * trees as `done` has symbols less the merges made (one internal node
   * each), the priorities add up to the total frequency of `done`, and each
   * priority is the weight of its tree.
   */
  ghost predicate Forest<C>(freq: map<C, int>, done: set<C>, q: seq<(int, HuffmanTree<C>)>)
  {
    && done <= freq.Keys
    && QueueLeaves(q) == multiset(done)
    && QueueInternal(q) + |q| == |done|
    && QueueSum(q) == Total(freq, done)
    && (forall k :: 0 <= k < |q| ==> q[k].0 == Weight(freq, q[k].1))
  }

  /** Merging the two entries popped first and second keeps the invariant. */
  lemma MergeKeepsForest<C>(freq: map<C, int>, done: set<C>, q: seq<(int, HuffmanTree<C>)>, i: nat, j: nat)
    requires Forest(freq, done, q) && i < |q| && j < |q| - 1
    ensures var q1 := Without(q, i);
            var e1, e2 := q[i], q1[j];
            Forest(freq, done, Without(q1, j) + [(e1.0 + e2.0, Node(e1.1, e2.1))])
  {
    var q1 := Without(q, i);
    var q2 := Without(q1, j);
    var e1, e2 := q[i], q1[j];
    var e3 := (e1.0 + e2.0, Node(e1.1, e2.1));
    var q3 := q2 + [e3];
    QueueTakeOut(q, i);
    QueueTakeOut(q1, j);
    QueuePush(q2, e3);
    assert QueueLeaves(q3) == QueueLeaves(q) by {
      assert Leaves(e3.1) == Leaves(e1.1) + Leaves(e2.1);
    }
    assert QueueInternal(q3) + |q3| == QueueInternal(q) + |q|;
    assert QueueSum(q3) == QueueSum(q);
    WeightsKept(freq, q, i, j);
  }

  /** After the merge every priority is still the weight of its tree. */
  lemma WeightsKept<C>(freq: map<C, int>, q: seq<(int, HuffmanTree<C>)>, i: nat, j: nat)
    requires i < |q| && j < |q| - 1
    requires forall k :: 0 <= k < |q| ==> q[k].0 == Weight(freq, q[k].1)
    ensures var q1 := Without(q, i);
            var e1, e2 := q[i], q1[j];
            var q3 := Without(q1, j) + [(e1.0 + e2.0, Node(e1.1, e2.1))];
            forall k :: 0 <= k < |q3| ==> q3[k].0 == Weight(freq, q3[k].1)
  {
    var q1 := Without(q, i);
    var q2 := Without(q1, j);
    var e1, e2 := q[i], q1[j];
    var q3 := q2 + [(e1.0 + e2.0, Node(e1.1, e2.1))];
    assert forall k :: 0 <= k < |q1| ==> q1[k].0 == Weight(freq, q1[k].1);
    forall k | 0 <= k < |q3| ensures q3[k].0 == Weight(freq, q3[k].1) {
      if k < |q2| {
        assert q3[k] == q2[k];
      }
    }
  }

  /** Every queued tree is a single leaf. */
  ghost predicate AllLeaves<C>(q: seq<(int, HuffmanTree<C>)>)
  {
    forall k :: 0 <= k < |q| ==> q[k].1.Leaf?
  }

  /** Pushing the leaf of a new symbol with its frequency keeps the invariant. */
  lemma PushLeaf<C>(freq: map<C, int>, done: set<C>, q: seq<(int, HuffmanTree<C>)>, x: C)
    requires Forest(freq, done, q) && AllLeaves(q) && x in freq && x !in done
    ensures Forest(freq, done + {x}, q + [(freq[x], Leaf(x))]) && AllLeaves(q + [(freq[x], Leaf(x))])
  {
    var e := (freq[x], Leaf(x));
    var q', done' := q + [e], done + {x};
    QueuePush(q, e);
    assert multiset(done') == multiset(done) + multiset{x};
    assert |done'| == |done| + 1;
    TotalRemove(freq, done', x);
    assert done' - {x} == done;
    forall k | 0 <= k < |q'| ensures q'[k].0 == Weight(freq, q'[k].1) && q'[k].1.Leaf? {
      if k < |q| {
        assert q'[k] == q[k];
      }
    }
  }

  /** A single remaining entry holds every symbol once, and its priority is the total frequency. */
  lemma LastEntry<C>(freq: map<C, int>, done: set<C>, e: (int, HuffmanTree<C>))
    requires Forest(freq, done, [e])
    ensures Leaves(e.1) == multiset(done) && Internal(e.1) + 1 == |done|
    ensures Weight(freq, e.1) == e.0 == Total(freq, done)
  {
    QueuePush([], e);
    assert [] + [e] == [e];
  }

  /**
   * `HuffmanTree.encode(frequencies)`: one leaf per symbol is pushed with its
   * frequency as priority; then, while two or more entries remain, the entry
   * of least priority and then the least of the rest are popped and pushed
   * back as one internal node (the first popped on the left) whose priority
   * is the sum of theirs; the last entry's tree is returned. With no symbol
   * the final pop fails, which is `None` here. The tree has each symbol at
   * exactly one leaf, one internal node fewer than it has symbols, and a
   * total weight equal to the sum of all frequencies; one symbol gives a
   * single leaf.
   */
  method Encode<C(==)>(frequencies: map<C, int>) returns (r: Option<HuffmanTree<C>>)
    ensures r.None? <==> |frequencies| == 0
    ensures r.Some? ==> Leaves(r.value) == multiset(frequencies.Keys)
    ensures r.Some? ==> Internal(r.value) == |frequencies| - 1
    ensures r.Some? ==> Weight(frequencies, r.value) == Total(frequencies, frequencies.Keys)
    ensures forall x :: frequencies.Keys == {x} ==> r == Some(Leaf(x))
  {
    var q := PushLeaves(frequencies);
    q := MergeAll(frequencies, frequencies.Keys, q);
    if |q| == 0 {
      return None;
    }
    assert q == [q[0]];
    LastEntry(frequencies, frequencies.Keys, q[0]);
    var r1, r2 := q[0].0, q[0].1;
    r := Some(r2);
  }

  /** The first loop of `encode`: one leaf per symbol, its frequency as priority. */
  method PushLeaves<C(==)>(frequencies: map<C, int>) returns (q: seq<(int, HuffmanTree<C>)>)
    ensures Forest(frequencies, frequencies.Keys, q) && AllLeaves(q)
  {
    q := [];
    var todo := frequencies.Keys;
    ghost var done: set<C> := {};
    while todo != {}
      invariant todo <= frequencies.Keys && done == frequencies.Keys - todo
      invariant Forest(frequencies, done, q) && AllLeaves(q)
    {
      var x :| x in todo;
      var tree := Leaf(x);
      PushLeaf(frequencies, done, q, x);
      q := q + [(frequencies[x], tree)];
      todo := todo - {x};
      done := done + {x};
    }
    assert done == frequencies.Keys;
  }

  /**
   * The second loop of `encode`: while two or more entries remain, pop the
   * least and then the least of the rest and push their merge, the first
   * popped on the left, with the sum of their priorities. One entry is left
   * when there was one or more, and a queue of one entry is left as it is.
   */
  method MergeAll<C>(ghost freq: map<C, int>, ghost done: set<C>, q: seq<(int, HuffmanTree<C>)>)
    returns (q': seq<(int, HuffmanTree<C>)>)
    requires Forest(freq, done, q)
    ensures Forest(freq, done, q')
    ensures |q'| == if |q| == 0 then 0 else 1
    ensures |q| <= 1 ==> q' == q
  {
    q' := q;
    while |q'| > 1
      invariant Forest(freq, done, q')
      invariant |q'| == 0 <==> |q| == 0
      invariant |q| <= 1 ==> q' == q
    {
      var e1, q1, i := PopMin(q');
      var e2, q2, j := PopMin(q1);
      MergeKeepsForest(freq, done, q', i, j);
      var tree3 := Node(e1.1, e2.1);
      q' := q2 + [(e1.0 + e2.0, tree3)];
    }
  }

}
