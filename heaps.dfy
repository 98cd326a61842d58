/**
 * The `heapq` priority queues of the library, abstracted: a queue is the
 * list of its (priority, item) entries in no particular order, `heappush`
 * appends, and `heappop` removes an entry of least priority. Which entry is
 * removed among several of equal priority is left open, as Python's tie
 * breaking on the item is not modelled.
 */
module Heaps {

  /** `q[i]` has the least priority in `q`. */
  predicate IsMinAt<T>(q: seq<(int, T)>, i: int)
  {
    0 <= i < |q| && forall k :: 0 <= k < |q| ==> q[i].0 <= q[k].0
  }

  /** `q` with entry `i` taken out, the others kept in order. */
  function Without<T>(q: seq<(int, T)>, i: int): (r: seq<(int, T)>)
    requires 0 <= i < |q|
    ensures |r| == |q| - 1
    ensures forall k :: 0 <= k < i ==> r[k] == q[k]
    ensures forall k :: i <= k < |r| ==> r[k] == q[k + 1]
  {
    q[..i] + q[i + 1..]
  }

  lemma {:induction false} MinExists<T>(q: seq<(int, T)>)
    requires |q| > 0
    ensures exists i :: IsMinAt(q, i)
  {
    if |q| > 1 {
      var t := q[1..];
      MinExists(t);
      var j :| IsMinAt(t, j);
      if q[0].0 <= t[j].0 {
        assert IsMinAt(q, 0);
      } else {
        assert IsMinAt(q, j + 1);
      }
    } else {
      assert IsMinAt(q, 0);
    }
  }

  /** `heappop`: removes and returns an entry of least priority. */
  method PopMin<T>(q: seq<(int, T)>) returns (e: (int, T), rest: seq<(int, T)>, i: nat)
    requires |q| > 0
    ensures IsMinAt(q, i) && e == q[i] && rest == Without(q, i)
  {
    MinExists(q);
    i :| 0 <= i < |q| && IsMinAt(q, i);
    e := q[i];
    rest := Without(q, i);
  }

  /** The items that have an entry in `q`. */
  ghost function Items<T>(q: seq<(int, T)>): set<T>
  {
    set e | e in q :: e.1
  }

  /** The number of entries of `q` whose item is in `s`. */
  ghost function CountAmong<T>(q: seq<(int, T)>, s: set<T>): nat
    decreases |q|
  {
    if q == [] then 0 else CountAmong(q[..|q| - 1], s) + (if q[|q| - 1].1 in s then 1 else 0)
  }

  /** A push adds its item to the items, and counts only if its item is in `s`. */
  lemma Push<T>(q: seq<(int, T)>, e: (int, T), s: set<T>)
    ensures Items(q + [e]) == Items(q) + {e.1}
    ensures CountAmong(q + [e], s) == CountAmong(q, s) + (if e.1 in s then 1 else 0)
  {
    assert (q + [e])[..|q|] == q;
  }

  /** Counting the entries of a concatenation. */
  lemma {:induction false} CountConcat<T>(a: seq<(int, T)>, b: seq<(int, T)>, s: set<T>)
    ensures CountAmong(a + b, s) == CountAmong(a, s) + CountAmong(b, s)
    decreases |b|
  {
    if b == [] {
      assert a + b == a;
    } else {
      var b' := b[..|b| - 1];
      CountConcat(a, b', s);
      assert (a + b)[..|a + b| - 1] == a + b';
    }
  }

  /**
   * Taking out entry `i` keeps every other item queued, adds no item, and
   * lowers the count exactly when the item of entry `i` is in `s`.
   */
  lemma TakeOut<T>(q: seq<(int, T)>, i: nat, s: set<T>)
    requires i < |q|
    ensures Items(Without(q, i)) <= Items(q)
    ensures forall x :: x in Items(q) && x != q[i].1 ==> x in Items(Without(q, i))
    ensures CountAmong(Without(q, i), s) + (if q[i].1 in s then 1 else 0) == CountAmong(q, s)
  {
    var r := Without(q, i);
    forall x | x in Items(q) && x != q[i].1 ensures x in Items(r) {
      var e :| e in q && e.1 == x;
      var j :| 0 <= j < |q| && q[j] == e;
      if j < i {
        assert r[j] == e;
      } else {
        assert r[j - 1] == e;
      }
    }
    assert q == q[..i] + [q[i]] + q[i + 1..];
    CountConcat(q[..i] + [q[i]], q[i + 1..], s);
    CountConcat(q[..i], [q[i]], s);
    CountConcat(q[..i], q[i + 1..], s);
    assert CountAmong([q[i]], s) == (if q[i].1 in s then 1 else 0) by {
      assert [q[i]][..0] == [];
    }
  }

}
