/** Odd-even transposition sort (OpenMP/poe_sort.c), with `changes` reset once a round. */
module OddEvenSort {
  import opened Bits

  // ---------- one comparison ----------

  /** Compares positions `i` and `i + 1` and swaps them if they are out of order. */
  function Exchange(x: seq<int>, i: nat): (r: seq<int>)
    requires i + 1 < |x|
    ensures |r| == |x|
  {
    if x[i] > x[i + 1] then x[i := x[i + 1]][i + 1 := x[i]] else x
  }

  /** How many elements are less than `v`. */
  function Less(x: seq<int>, v: int): nat { if x == [] then 0 else Bit(x[0] < v) + Less(x[1..], v) }

  /** How many pairs are out of order. */
  function Inversions(x: seq<int>): nat { if x == [] then 0 else Less(x[1..], x[0]) + Inversions(x[1..]) }

  lemma {:induction false} ExchangeLess(x: seq<int>, i: nat, v: int)
    requires i + 1 < |x|
    ensures Less(Exchange(x, i), v) == Less(x, v)
  {
    if i == 0 {
      assert Exchange(x, i)[1..][1..] == x[1..][1..];
    } else {
      ExchangeLess(x[1..], i - 1, v);
      assert Exchange(x, i)[1..] == Exchange(x[1..], i - 1);
    }
  }

  /** Each swap removes exactly one inversion. */
  lemma {:induction false} ExchangeInversions(x: seq<int>, i: nat)
    requires i + 1 < |x|
    ensures Inversions(x) == Inversions(Exchange(x, i)) + Bit(x[i] > x[i + 1])
  {
    if i == 0 {
      assert Exchange(x, i)[1..][1..] == x[1..][1..];
    } else {
      ExchangeInversions(x[1..], i - 1);
      ExchangeLess(x[1..], i - 1, x[0]);
      assert Exchange(x, i)[1..] == Exchange(x[1..], i - 1);
    }
  }

  lemma ExchangeContents(x: seq<int>, i: nat)
    requires i + 1 < |x|
    ensures multiset(Exchange(x, i)) == multiset(x)
  {
  }

  // ---------- one phase ----------

  /** Position `j` after all pairs starting at positions of parity `t` have been compared. */
  function PhaseAt(x: seq<int>, t: nat, j: nat): int
    requires j < |x|
  {
    if j % 2 == t % 2 then (if j + 1 < |x| && x[j + 1] < x[j] then x[j + 1] else x[j])
    else (if j >= 1 && x[j - 1] > x[j] then x[j - 1] else x[j])
  }

  function Phase(x: seq<int>, t: nat): (r: seq<int>)
    ensures |r| == |x|
  {
    seq(|x|, j requires 0 <= j < |x| => PhaseAt(x, t, j))
  }

  /** The pairs of `done` have been compared, in any order, and no others. */
  ghost predicate Partly(x: seq<int>, t: nat, done: set<nat>, r: seq<int>) {
    && |r| == |x|
    && forall j: nat | j < |x| ::
      r[j] == if (if j % 2 == t % 2 then j else j - 1) in done then PhaseAt(x, t, j) else x[j]
  }

  lemma PartlyStep(x: seq<int>, t: nat, done: set<nat>, r: seq<int>, i: nat)
    requires Partly(x, t, done, r) && i !in done && i % 2 == t % 2 && i + 1 < |x|
    ensures Partly(x, t, done + {i}, Exchange(r, i))
  {
    assert r[i] == x[i] && r[i + 1] == x[i + 1];
  }

  ghost function Elements(order: seq<nat>): set<nat> { set i | i in order }

  /** All the pairs of a phase, each once. */
  ghost predicate Pairs(n: nat, t: nat, order: seq<nat>) {
    && (forall k | 0 <= k < |order| :: order[k] % 2 == t % 2 && order[k] + 1 < n)
    && (forall k, l | 0 <= k < l < |order| :: order[k] != order[l])
  }

  function ExchangeAll(x: seq<int>, order: seq<nat>): (r: seq<int>)
    requires forall k | 0 <= k < |order| :: order[k] + 1 < |x|
    ensures |r| == |x|
  {
    if order == [] then x else Exchange(ExchangeAll(x, order[..|order| - 1]), order[|order| - 1])
  }

  lemma {:induction false} ExchangeAllPartly(x: seq<int>, t: nat, order: seq<nat>)
    requires Pairs(|x|, t, order)
    ensures Partly(x, t, Elements(order), ExchangeAll(x, order))
  {
    if order != [] {
      var n := |order| - 1;
      ExchangeAllPartly(x, t, order[..n]);
      PartlyStep(x, t, Elements(order[..n]), ExchangeAll(x, order[..n]), order[n]);
      assert order == order[..n] + [order[n]];
      assert Elements(order[..n]) + {order[n]} == Elements(order);
    }
  }

  /** The pairs of a phase may be compared in any order, and so by any number of threads. */
  lemma OrderIrrelevant(x: seq<int>, t: nat, order: seq<nat>)
    requires Pairs(|x|, t, order) && forall i: nat | i % 2 == t % 2 && i + 1 < |x| :: i in order
    ensures ExchangeAll(x, order) == Phase(x, t)
  {
    var r := ExchangeAll(x, order);
    ExchangeAllPartly(x, t, order);
    forall j: nat | j < |x| ensures r[j] == PhaseAt(x, t, j) { Touched(x, t, Elements(order), r, j); }
  }

  lemma Touched(x: seq<int>, t: nat, done: set<nat>, r: seq<int>, j: nat)
    requires Partly(x, t, done, r) && j < |x| && forall i: nat | i % 2 == t % 2 && i + 1 < |x| :: i in done
    ensures r[j] == PhaseAt(x, t, j)
  {
    if j % 2 == t % 2 {
      if j + 1 < |x| { assert j in done; }
    } else if j >= 1 {
      assert (j - 1) % 2 == t % 2;
      assert j - 1 in done;
    }
  }

  // ---------- zeros and ones ----------

  // `b` marks the elements above some threshold.

  ghost function Above(x: seq<int>, c: int): (b: seq<bool>)
    ensures |b| == |x|
  {
    seq(|x|, j requires 0 <= j < |x| => x[j] > c)
  }

  /** How many marks there are from position `k` on. */
  ghost function Ones(b: seq<bool>, k: nat): nat
    requires k <= |b|
    decreases |b| - k
  {
    if k == |b| then 0 else Bit(b[k]) + Ones(b, k + 1)
  }

  ghost predicate SamePairs(b: seq<bool>, b': seq<bool>, t: nat) {
    && |b| == |b'|
    && (forall j | 0 <= j < |b| - 1 && j % 2 == t % 2 :: b'[j] == (b[j] && b[j + 1]) && b'[j + 1] == (b[j] || b[j + 1]))
    && (|b| > 0 && t % 2 == 1 ==> b'[0] == b[0])
    && (|b| > 0 && (|b| - 1) % 2 == t % 2 ==> b'[|b| - 1] == b[|b| - 1])
  }

  lemma PhaseAbove(x: seq<int>, t: nat, c: int)
    ensures SamePairs(Above(x, c), Above(Phase(x, t), c), t)
  {
  }

  /** A phase moves marks only within pairs. */
  lemma {:induction false} OnesKept(b: seq<bool>, b': seq<bool>, t: nat, k: nat)
    requires SamePairs(b, b', t) && k <= |b| && (k % 2 == t % 2 || k == |b|)
    ensures Ones(b', k) == Ones(b, k)
    decreases |b| - k
  {
    if k + 1 < |b| {
      OnesKept(b, b', t, if k + 2 <= |b| then k + 2 else |b|);
      assert Ones(b, k) == Bit(b[k]) + (Bit(b[k + 1]) + Ones(b, k + 2));
      assert Ones(b', k) == Bit(b'[k]) + (Bit(b'[k + 1]) + Ones(b', k + 2));
    } else if k + 1 == |b| {
      assert Ones(b, k + 1) == 0 && Ones(b', k + 1) == 0;
    }
  }

  lemma {:induction false} OnesBound(b: seq<bool>, k: nat)
    requires k <= |b|
    ensures Ones(b, k) <= |b| - k && Ones(b, 0) <= Ones(b, k) + k
    decreases k
  {
    OnesMost(b, k);
    if k > 0 { OnesBound(b, k - 1); }
  }

  lemma {:induction false} OnesMost(b: seq<bool>, k: nat)
    requires k <= |b|
    ensures Ones(b, k) <= |b| - k
    decreases |b| - k
  {
    if k < |b| { OnesMost(b, k + 1); }
  }

  /** After `t` phases the mark at `p`, the `i`-th from the right, has come at least this far. */
  ghost predicate Far(n: nat, m: nat, t: nat, p: nat, i: nat) {
    p >= n - i || p >= m - 2 * i + t + (p + t) % 2
  }

  ghost predicate AllFar(b: seq<bool>, m: nat, t: nat) {
    forall p | 0 <= p < |b| && b[p] :: Far(|b|, m, t, p, Ones(b, p))
  }

  lemma FarAtFirst(b: seq<bool>)
    ensures AllFar(b, Ones(b, 0), 0)
  {
    forall p | 0 <= p < |b| && b[p] ensures Far(|b|, Ones(b, 0), 0, p, Ones(b, p)) { OnesBound(b, p); }
  }

  /** Every phase takes every mark that is not yet in place one step further, or finds the next one far ahead. */
  lemma FarStep(b: seq<bool>, b': seq<bool>, m: nat, t: nat)
    requires SamePairs(b, b', t) && AllFar(b, m, t)
    ensures AllFar(b', m, t + 1)
  {
    forall p | 0 <= p < |b'| && b'[p]
      ensures Far(|b'|, m, t + 1, p, Ones(b', p))
    {
      if p % 2 == t % 2 { FarLeft(b, b', m, t, p); } else { FarRight(b, b', m, t, p); }
    }
  }

  /** A mark on the left of its pair: both were marked. */
  lemma FarLeft(b: seq<bool>, b': seq<bool>, m: nat, t: nat, p: nat)
    requires SamePairs(b, b', t) && AllFar(b, m, t) && p < |b'| && b'[p] && p % 2 == t % 2
    ensures Far(|b'|, m, t + 1, p, Ones(b', p))
  {
    OnesKept(b, b', t, p);
    if p + 1 < |b| { assert Far(|b|, m, t, p + 1, Ones(b, p + 1)); }
  }

  /** A mark on the right of its pair was there, or has come there. */
  lemma FarRight(b: seq<bool>, b': seq<bool>, m: nat, t: nat, p: nat)
    requires SamePairs(b, b', t) && AllFar(b, m, t) && p < |b'| && b'[p] && p % 2 != t % 2
    ensures Far(|b'|, m, t + 1, p, Ones(b', p))
  {
    OnesKept(b, b', t, p + 1);
    if b[p] { FarStayed(b, b', m, t, p); } else { FarCame(b, b', m, t, p); }
  }

  lemma FarStayed(b: seq<bool>, b': seq<bool>, m: nat, t: nat, p: nat)
    requires SamePairs(b, b', t) && AllFar(b, m, t) && p < |b'| && b'[p] && b[p] && p % 2 != t % 2
    requires Ones(b', p + 1) == Ones(b, p + 1)
    ensures Far(|b'|, m, t + 1, p, Ones(b', p))
  {
    assert Far(|b|, m, t, p, Ones(b, p)) && Ones(b', p) == Ones(b, p);
    FarLater(|b|, m, t, p, Ones(b, p));
  }

  lemma FarLater(n: nat, m: nat, t: nat, p: nat, i: nat)
    requires Far(n, m, t, p, i) && p % 2 != t % 2
    ensures Far(n, m, t + 1, p, i)
  {
    assert (p + t) % 2 == 1 && (p + (t + 1)) % 2 == 0;
  }

  lemma FarCame(b: seq<bool>, b': seq<bool>, m: nat, t: nat, p: nat)
    requires SamePairs(b, b', t) && AllFar(b, m, t) && p < |b'| && b'[p] && !b[p] && p % 2 != t % 2
    requires Ones(b', p + 1) == Ones(b, p + 1)
    ensures Far(|b'|, m, t + 1, p, Ones(b', p))
  {
    if p == 0 {
      assert false;
    } else {
      assert (p - 1) % 2 == t % 2 && b[p - 1];
      assert Far(|b|, m, t, p - 1, Ones(b, p - 1)) && Ones(b', p) == Ones(b, p - 1);
      FarMoved(|b|, m, t, p, Ones(b, p - 1));
    }
  }

  lemma FarMoved(n: nat, m: nat, t: nat, p: nat, i: nat)
    requires 0 < p < n && p % 2 != t % 2 && Far(n, m, t, p - 1, i)
    ensures Far(n, m, t + 1, p, i)
  {
    assert (p - 1 + t) % 2 == 0 && (p + (t + 1)) % 2 == 0;
  }

  /** When the marks have come all the way, they are all at the end. */
  lemma FarAtLast(b: seq<bool>, m: nat, t: nat, p: nat)
    requires m == Ones(b, 0) && AllFar(b, m, t) && t >= |b| && p + 1 < |b| && b[p]
    ensures b[p + 1]
  {
    OnesMost(b, p + 1);
    OnesBound(b, p);
    OnesFull(b, p + 1);
    OnesFewer(b, p);
  }

  lemma {:induction false} OnesFewer(b: seq<bool>, p: nat)
    requires p <= |b|
    ensures Ones(b, p) <= Ones(b, 0)
    decreases p
  {
    if p > 0 { OnesFewer(b, p - 1); }
  }

  /** Only marks from `k` on. */
  lemma {:induction false} OnesFull(b: seq<bool>, k: nat)
    requires k <= |b|
    ensures Ones(b, k) == |b| - k ==> forall j | k <= j < |b| :: b[j]
    decreases |b| - k
  {
    if k < |b| {
      OnesFull(b, k + 1);
      OnesMost(b, k + 1);
    }
  }

  // ---------- rounds ----------

  function Phases(x: seq<int>, n: nat): (r: seq<int>)
    ensures |r| == |x|
  {
    if n == 0 then x else Phase(Phases(x, n - 1), n - 1)
  }

  ghost predicate Sorted(x: seq<int>) { forall i, j | 0 <= i < j < |x| :: x[i] <= x[j] }

  lemma {:induction false} PhasesFar(x: seq<int>, c: int, n: nat)
    ensures AllFar(Above(Phases(x, n), c), Ones(Above(x, c), 0), n)
    ensures Ones(Above(Phases(x, n), c), 0) == Ones(Above(x, c), 0)
  {
    var m := Ones(Above(x, c), 0);
    if n == 0 {
      FarAtFirst(Above(x, c));
    } else {
      PhasesFar(x, c, n - 1);
      var y := Phases(x, n - 1);
      PhaseAbove(y, n - 1, c);
      FarStep(Above(y, c), Above(Phases(x, n), c), m, n - 1);
      OnesKeptAll(Above(y, c), Above(Phases(x, n), c), n - 1);
    }
  }

  lemma OnesKeptAll(b: seq<bool>, b': seq<bool>, t: nat)
    requires SamePairs(b, b', t)
    ensures Ones(b', 0) == Ones(b, 0)
  {
    if t % 2 == 0 || b == [] { OnesKept(b, b', t, 0); } else { OnesKept(b, b', t, 1); }
  }

  lemma {:induction false} AdjacentSorted(x: seq<int>, i: nat, j: nat)
    requires i <= j < |x| && forall k | 0 <= k < |x| - 1 :: x[k] <= x[k + 1]
    ensures x[i] <= x[j]
    decreases j
  {
    if i < j { AdjacentSorted(x, i, j - 1); }
  }

  /** As many phases as there are elements sort any sequence. */
  lemma PhasesSort(x: seq<int>, n: nat)
    requires n >= |x|
    ensures Sorted(Phases(x, n))
  {
    var y := Phases(x, n);
    forall k | 0 <= k < |y| - 1 ensures y[k] <= y[k + 1] {
      PhasesFar(x, y[k + 1], n);
      var b := Above(y, y[k + 1]);
      if b[k] { FarAtLast(b, Ones(Above(x, y[k + 1]), 0), n, k); }
    }
    forall i, j | 0 <= i < j < |y| ensures y[i] <= y[j] { AdjacentSorted(y, i, j); }
  }

  /** A sequence that neither phase changes is sorted. */
  lemma StableSorted(x: seq<int>)
    requires Phase(x, 0) == x && Phase(x, 1) == x
    ensures Sorted(x)
  {
    forall k | 0 <= k < |x| - 1 ensures x[k] <= x[k + 1] {
      assert Phase(x, k % 2)[k] == x[k];
    }
    forall i, j | 0 <= i < j < |x| ensures x[i] <= x[j] { AdjacentSorted(x, i, j); }
  }

  lemma PhaseParity(x: seq<int>, t: nat, u: nat)
    requires t % 2 == u % 2
    ensures Phase(x, t) == Phase(x, u)
  {
  }

  /** The starts of the pairs of a phase below `i`. */
  ghost function Starts(first: nat, i: nat): set<nat> { set j: nat | j < i && j % 2 == first % 2 }

  /** How far a phase has come: the pairs before position `i` have been compared, with so many swaps. (`k`, always
      left at its default, keeps this folded.) */
  ghost predicate Running(x0: seq<int>, first: nat, x: seq<int>, i: nat, changes: nat, k: nat := 3)
    decreases i, k
  {
    && |x| == |x0|
    && if k > 0 then Running(x0, first, x, i, changes, k - 1)
       else
         && Partly(x0, first, Starts(first, i), x)
         && changes == Inversions(x0) - Inversions(x) && multiset(x) == multiset(x0) && (changes == 0 ==> x == x0)
  }

  lemma RunningDef(x0: seq<int>, first: nat, x: seq<int>, i: nat, changes: nat)
    ensures Running(x0, first, x, i, changes) <==>
            && |x| == |x0| && Partly(x0, first, Starts(first, i), x)
            && changes == Inversions(x0) - Inversions(x) && multiset(x) == multiset(x0) && (changes == 0 ==> x == x0)
  {
    assert Running(x0, first, x, i, changes, 1) == Running(x0, first, x, i, changes, 0);
    assert Running(x0, first, x, i, changes, 2) == Running(x0, first, x, i, changes, 1);
  }

  lemma RunningStep(x0: seq<int>, first: nat, x: seq<int>, i: nat, changes: nat)
    requires Running(x0, first, x, i, changes) && i % 2 == first % 2 && i + 1 < |x|
    ensures Running(x0, first, Exchange(x, i), i + 2, changes + Bit(x[i] > x[i + 1]))
  {
    var before, after := Starts(first, i), Starts(first, i + 2);
    RunningDef(x0, first, x, i, changes);
    PartlyStep(x0, first, before, x, i);
    ExchangeInversions(x, i);
    ExchangeContents(x, i);
    assert before + {i} == after;
    RunningDef(x0, first, Exchange(x, i), i + 2, changes + Bit(x[i] > x[i + 1]));
  }

  lemma RunningDone(x0: seq<int>, first: nat, x: seq<int>, i: nat, changes: nat)
    requires Running(x0, first, x, i, changes) && i + 1 >= |x|
    ensures x == Phase(x0, first) && changes == Inversions(x0) - Inversions(x) && multiset(x) == multiset(x0)
    ensures changes == 0 ==> x == x0
  {
    RunningDef(x0, first, x, i, changes);
    forall j: nat | j < |x0| ensures x[j] == PhaseAt(x0, first, j) {
      Touched(x0, first, Starts(first, i), x, j);
    }
  }

  /** One of the two inner loops: the pairs from `first` on. */
  method RunPhase(x: array<int>, first: nat) returns (changes: nat)
    requires first < 2
    modifies x
    ensures x[..] == Phase(old(x[..]), first)
    ensures changes == old(Inversions(x[..])) - Inversions(x[..])
    ensures multiset(x[..]) == old(multiset(x[..]))
    ensures changes == 0 ==> x[..] == old(x[..])
  {
    changes := 0;
    ghost var x0 := x[..];
    var i: nat := first;
    RunningDef(x0, first, x0, first, 0);
    while i < x.Length - 1
      invariant i % 2 == first % 2 && Running(x0, first, x[..], i, changes)
      decreases x.Length - i
    {
      RunningStep(x0, first, x[..], i, changes);
      ghost var before := x[..];
      if x[i] > x[i + 1] {
        var tmp := x[i];
        x[i] := x[i + 1];
        x[i + 1] := tmp;
        changes := changes + 1;
      }
      assert x[..] == Exchange(before, i);
      i := i + 2;
    }
    RunningDone(x0, first, x[..], i, changes);
  }

  /** The whole sort. Each round's count of changes is the number of inversions it removed; the result is sorted,
      and no more than half as many rounds as elements are needed before the one that finds nothing to change. */
  method Sort(x: array<int>) returns (nr: nat)
    modifies x
    ensures Sorted(x[..]) && multiset(x[..]) == old(multiset(x[..]))
    ensures nr <= (x.Length + 1) / 2 + 1
    ensures forall k: nat | 2 * k >= x.Length :: Sorted(old(Phases(x[..], 2 * k)))
  {
    ghost var x0 := x[..];
    var changes := 1;
    nr := 0;
    while changes != 0
      invariant x[..] == Phases(x0, 2 * nr) && multiset(x[..]) == multiset(x0)
      invariant changes == 0 ==> Phase(x[..], 0) == x[..] && Phase(x[..], 1) == x[..]
      invariant nr > (x.Length + 1) / 2 ==> changes == 0
      invariant nr <= (x.Length + 1) / 2 + 1
      decreases changes != 0, Inversions(x[..])
    {
      ghost var before := x[..];
      nr := nr + 1;
      changes := 0;
      var c := RunPhase(x, 0);
      var d := RunPhase(x, 1);
      changes := changes + c + d;
      TwoPhases(x0, before, nr);
      if nr > (x.Length + 1) / 2 { SortedUnchanged(x0, before, 2 * (nr - 1)); }
    }
    StableSorted(x[..]);
    forall k: nat | 2 * k >= x.Length ensures Sorted(Phases(x0, 2 * k)) { PhasesSort(x0, 2 * k); }
  }

  lemma TwoPhases(x0: seq<int>, before: seq<int>, nr: nat)
    requires nr > 0 && before == Phases(x0, 2 * (nr - 1))
    ensures Phases(x0, 2 * nr) == Phase(Phase(before, 0), 1)
  {
    var n := 2 * nr - 2;
    PhasesStep(x0, n, 0);
    PhasesStep(x0, n + 1, 1);
  }

  lemma PhasesStep(x: seq<int>, n: nat, u: nat)
    requires n % 2 == u % 2
    ensures Phases(x, n + 1) == Phase(Phases(x, n), u)
  {
    PhaseParity(Phases(x, n), n, u);
  }

  lemma SortedUnchanged(x0: seq<int>, before: seq<int>, n: nat)
    requires before == Phases(x0, n) && n >= |x0|
    ensures Inversions(before) == 0
  {
    PhasesSort(x0, n);
    NoInversions(before);
  }

  lemma {:induction false} NoInversions(x: seq<int>)
    requires Sorted(x)
    ensures Inversions(x) == 0
  {
    if x != [] {
      NoInversions(x[1..]);
      NoneLess(x[1..], x[0]);
    }
  }

  lemma {:induction false} NoneLess(x: seq<int>, v: int)
    requires forall i | 0 <= i < |x| :: v <= x[i]
    ensures Less(x, v) == 0
  {
    if x != [] { NoneLess(x[1..], v); }
  }
}
