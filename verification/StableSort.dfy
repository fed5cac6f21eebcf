/** Sorting indices by key, equal keys in index order: the order of the cipher's priority queue and of its
    stable sort. */
module StableSort {

  /** Index `a` comes before index `b`. */
  predicate Before(keys: seq<nat>, a: nat, b: nat)
    requires a < |keys| && b < |keys|
  {
    keys[a] < keys[b] || (keys[a] == keys[b] && a < b)
  }

  predicate Indices(keys: seq<nat>, q: seq<nat>) { forall i | 0 <= i < |q| :: q[i] < |keys| }

  predicate InOrder(keys: seq<nat>, q: seq<nat>)
    requires Indices(keys, q)
  {
    forall i, j | 0 <= i < j < |q| :: Before(keys, q[i], q[j])
  }

  function Insert(keys: seq<nat>, q: seq<nat>, x: nat): (r: seq<nat>)
    requires Indices(keys, q) && x < |keys|
    ensures |r| == |q| + 1 && Indices(keys, r)
  {
    if q == [] || Before(keys, x, q[0]) then [x] + q else [q[0]] + Insert(keys, q[1..], x)
  }

  /** The indices below `n` in order. */
  function SortedTo(keys: seq<nat>, n: nat): (q: seq<nat>)
    requires n <= |keys|
    ensures |q| == n && Indices(keys, q)
  {
    if n == 0 then [] else Insert(keys, SortedTo(keys, n - 1), n - 1)
  }

  lemma {:induction false} InsertContents(keys: seq<nat>, q: seq<nat>, x: nat)
    requires Indices(keys, q) && x < |keys|
    ensures multiset(Insert(keys, q, x)) == multiset(q) + multiset{x}
  {
    if q != [] && !Before(keys, x, q[0]) {
      InsertContents(keys, q[1..], x);
      assert q == [q[0]] + q[1..];
    }
  }

  lemma {:induction false} InsertOrder(keys: seq<nat>, q: seq<nat>, x: nat)
    requires Indices(keys, q) && x < |keys| && InOrder(keys, q) && x !in q
    ensures InOrder(keys, Insert(keys, q, x))
  {
    if q != [] && !Before(keys, x, q[0]) {
      InsertOrder(keys, q[1..], x);
      InsertContents(keys, q[1..], x);
      var r := Insert(keys, q[1..], x);
      forall i | 0 <= i < |r| ensures Before(keys, q[0], r[i]) {
        assert r[i] in multiset(r);
        if r[i] != x { assert r[i] in q[1..]; }
      }
    }
  }

  lemma OneMore(m: multiset<nat>, a: nat, x: nat)
    ensures (m + multiset{a})[x] == m[x] + if a == x then 1 else 0
  {
  }

  /** Every index below `n` occurs exactly once, and nothing else does. */
  lemma {:induction false} SortedToContents(keys: seq<nat>, n: nat, x: nat)
    requires n <= |keys|
    ensures multiset(SortedTo(keys, n))[x] == if x < n then 1 else 0
  {
    if n > 0 {
      var q := SortedTo(keys, n - 1);
      SortedToContents(keys, n - 1, x);
      InsertContents(keys, q, n - 1);
      OneMore(multiset(q), n - 1, x);
    }
  }

  lemma NotYet(keys: seq<nat>, n: nat)
    requires n <= |keys|
    ensures n !in SortedTo(keys, n)
  {
    SortedToContents(keys, n, n);
    assert n !in multiset(SortedTo(keys, n));
  }

  lemma {:induction false} SortedToOrder(keys: seq<nat>, n: nat)
    requires n <= |keys|
    ensures InOrder(keys, SortedTo(keys, n))
  {
    if n > 0 {
      var q := SortedTo(keys, n - 1);
      SortedToOrder(keys, n - 1);
      NotYet(keys, n - 1);
      InsertOrder(keys, q, n - 1);
    }
  }

  lemma FirstBefore(keys: seq<nat>, q: seq<nat>, j: nat)
    requires Indices(keys, q) && InOrder(keys, q) && j < |q|
    ensures j == 0 || (q[0] != q[j] && !Before(keys, q[j], q[0]))
  {
    assert j > 0 ==> Before(keys, q[0], q[j]);
  }

  /** Only one list in order has given contents. */
  lemma FirstUnique(keys: seq<nat>, q: seq<nat>, x: nat)
    requires Indices(keys, q) && InOrder(keys, q) && x in q
    requires forall i | 0 <= i < |q| :: q[i] == x || Before(keys, x, q[i])
    ensures x == q[0]
  {
    var j :| 0 <= j < |q| && q[j] == x;
    FirstBefore(keys, q, j);
  }
}
