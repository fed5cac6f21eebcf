/** Huffman's algorithm on trees, as the cipher's score tree uses it: the two least trees are merged until
    one is left, and a merged tree takes its place behind all trees of the same score. */
module Huffman {
  import opened Bits

  datatype Tree = Leaf(ch: nat, weight: nat) | Branch(left: Tree, right: Tree)

  function Score(t: Tree): nat {
    match t
    case Leaf(_, w) => w
    case Branch(l, r) => Score(l) + Score(r)
  }

  function Height(t: Tree): nat {
    match t
    case Leaf(_, _) => 0
    case Branch(l, r) => 1 + if Height(l) >= Height(r) then Height(l) else Height(r)
  }

  /** The weighted path length below a node that is `depth` deep. */
  function PathLength(t: Tree, depth: nat): nat {
    match t
    case Leaf(_, w) => w * depth
    case Branch(l, r) => PathLength(l, depth + 1) + PathLength(r, depth + 1)
  }

  /** The same as a sum over the inner nodes. */
  function Cost(t: Tree): nat {
    match t
    case Leaf(_, _) => 0
    case Branch(l, r) => Cost(l) + Cost(r) + Score(t)
  }

  lemma {:induction false} CostIsPathLength(t: Tree, depth: nat)
    ensures PathLength(t, depth) == Cost(t) + Score(t) * depth
  {
    match t
    case Leaf(_, _) =>
    case Branch(l, r) =>
      CostIsPathLength(l, depth + 1);
      CostIsPathLength(r, depth + 1);
      PathSum(Score(l), Score(r), depth);
  }

  lemma PathSum(a: nat, b: nat, d: nat)
    ensures a * (d + 1) + b * (d + 1) == (a + b) * d + (a + b)
  {
  }

  predicate Sorted(q: seq<Tree>) {
    |q| >= 2 ==> Score(q[0]) <= Score(q[1]) && Sorted(q[1..])
  }

  /** Puts `t` behind all trees whose score is not greater. */
  function Insert(q: seq<Tree>, t: Tree): (r: seq<Tree>)
    ensures |r| == |q| + 1
  {
    if q == [] || Score(t) < Score(q[0]) then [t] + q else [q[0]] + Insert(q[1..], t)
  }

  /** Merges the two first trees. */
  function MergeStep(q: seq<Tree>): (r: seq<Tree>)
    requires |q| >= 2
    ensures |r| == |q| - 1
  {
    Insert(q[2..], Branch(q[0], q[1]))
  }

  /** The tree that repeated merging builds. */
  function Merged(q: seq<Tree>): Tree
    requires q != []
    decreases |q|
  {
    if |q| == 1 then q[0] else Merged(MergeStep(q))
  }

  /** The leaves for the characters below `n`, queued one after the other. */
  function Forest(scores: seq<nat>, n: nat): (f: seq<Tree>)
    requires n <= |scores|
    ensures |f| == n
  {
    if n == 0 then [] else Insert(Forest(scores, n - 1), Leaf(n - 1, scores[n - 1]))
  }

  ghost predicate HasIn(q: seq<Tree>, ch: nat) { exists i | 0 <= i < |q| :: Has(q[i], ch) }

  lemma {:induction false} InsertHas(q: seq<Tree>, t: Tree, ch: nat)
    ensures HasIn(Insert(q, t), ch) <==> HasIn(q, ch) || Has(t, ch)
  {
    var r := Insert(q, t);
    if q == [] || Score(t) < Score(q[0]) {
      assert r[0] == t && r[1..] == q;
      HasInCons(r, ch);
    } else {
      InsertHas(q[1..], t, ch);
      assert r[0] == q[0] && r[1..] == Insert(q[1..], t);
      HasInCons(r, ch);
      HasInCons(q, ch);
    }
  }

  lemma HasInCons(q: seq<Tree>, ch: nat)
    requires q != []
    ensures HasIn(q, ch) <==> Has(q[0], ch) || HasIn(q[1..], ch)
  {
    if HasIn(q, ch) && !Has(q[0], ch) {
      var i :| 0 <= i < |q| && Has(q[i], ch);
      assert q[1..][i - 1] == q[i];
    }
    if HasIn(q[1..], ch) {
      var i :| 0 <= i < |q[1..]| && Has(q[1..][i], ch);
      assert q[i + 1] == q[1..][i];
    }
  }

  /** Merging loses no character and adds none. */
  lemma {:induction false} MergedHas(q: seq<Tree>, ch: nat)
    requires q != []
    ensures Has(Merged(q), ch) <==> HasIn(q, ch)
    decreases |q|
  {
    if |q| == 1 {
      assert HasIn(q, ch) ==> Has(q[0], ch);
    } else {
      HasInCons(q, ch);
      HasInCons(q[1..], ch);
      assert q[1..][1..] == q[2..];
      InsertHas(q[2..], Branch(q[0], q[1]), ch);
      MergedHas(MergeStep(q), ch);
    }
  }

  lemma {:induction false} ForestHas(scores: seq<nat>, n: nat, ch: nat)
    requires n <= |scores|
    ensures HasIn(Forest(scores, n), ch) <==> ch < n
  {
    if n > 0 {
      ForestHas(scores, n - 1, ch);
      InsertHas(Forest(scores, n - 1), Leaf(n - 1, scores[n - 1]), ch);
    }
  }

  /** The score tree of all characters. */
  function ScoreTree(scores: seq<nat>): Tree
    requires scores != []
  {
    Merged(Forest(scores, |scores|))
  }

  lemma ScoreTreeHas(scores: seq<nat>, ch: nat)
    requires scores != []
    ensures Has(ScoreTree(scores), ch) <==> ch < |scores|
  {
    MergedHas(Forest(scores, |scores|), ch);
    ForestHas(scores, |scores|, ch);
  }

  lemma {:induction false} ForestSorted(scores: seq<nat>, n: nat)
    requires n <= |scores|
    ensures Sorted(Forest(scores, n)) && Costs(Forest(scores, n)) == 0
  {
    if n > 0 {
      ForestSorted(scores, n - 1);
      InsertSorted(Forest(scores, n - 1), Leaf(n - 1, scores[n - 1]));
      InsertCosts(Forest(scores, n - 1), Leaf(n - 1, scores[n - 1]));
    }
  }

  function CountTo(scores: seq<nat>, n: nat, w: nat): nat
    requires n <= |scores|
  {
    if n == 0 then 0 else CountTo(scores, n - 1, w) + Bit(scores[n - 1] == w)
  }

  lemma {:induction false} ForestCounts(scores: seq<nat>, n: nat, w: nat)
    requires n <= |scores|
    ensures CountScores(Forest(scores, n), w) == CountTo(scores, n, w)
  {
    if n > 0 {
      ForestCounts(scores, n - 1, w);
      InsertCounts(Forest(scores, n - 1), Leaf(n - 1, scores[n - 1]), w);
    }
  }

  // ---------- leaves ----------

  function Leaves(t: Tree): multiset<Tree> {
    match t
    case Leaf(_, _) => multiset{t}
    case Branch(l, r) => Leaves(l) + Leaves(r)
  }

  function LeavesIn(q: seq<Tree>): multiset<Tree> { if q == [] then multiset{} else Leaves(q[0]) + LeavesIn(q[1..]) }

  lemma {:induction false} InsertLeaves(q: seq<Tree>, t: Tree)
    ensures LeavesIn(Insert(q, t)) == LeavesIn(q) + Leaves(t)
  {
    if q == [] || Score(t) < Score(q[0]) {
      assert ([t] + q)[1..] == q;
    } else {
      InsertLeaves(q[1..], t);
      assert Insert(q, t)[1..] == Insert(q[1..], t);
    }
  }

  lemma {:induction false} MergedLeaves(q: seq<Tree>)
    requires q != []
    ensures Leaves(Merged(q)) == LeavesIn(q)
    decreases |q|
  {
    if |q| == 1 {
      assert q[1..] == [];
    } else {
      assert q[1..][1..] == q[2..];
      InsertLeaves(q[2..], Branch(q[0], q[1]));
      MergedLeaves(MergeStep(q));
    }
  }

  /** The leaf of each character with its score. */
  function ScoreLeaves(scores: seq<nat>, n: nat): multiset<Tree>
    requires n <= |scores|
  {
    if n == 0 then multiset{} else ScoreLeaves(scores, n - 1) + multiset{Leaf(n - 1, scores[n - 1])}
  }

  lemma {:induction false} ForestLeaves(scores: seq<nat>, n: nat)
    requires n <= |scores|
    ensures LeavesIn(Forest(scores, n)) == ScoreLeaves(scores, n)
  {
    if n > 0 {
      ForestLeaves(scores, n - 1);
      InsertLeaves(Forest(scores, n - 1), Leaf(n - 1, scores[n - 1]));
    }
  }

  /** The leaves of the score tree are one for each character, weighted with its score. */
  lemma ScoreTreeLeaves(scores: seq<nat>)
    requires scores != []
    ensures Leaves(ScoreTree(scores)) == ScoreLeaves(scores, |scores|)
  {
    MergedLeaves(Forest(scores, |scores|));
    ForestLeaves(scores, |scores|);
  }

  /** How many leaves of weight `w` the trees of `q` have together. */
  function CountIn(q: seq<Tree>, w: nat): nat { if q == [] then 0 else Count(q[0], w) + CountIn(q[1..], w) }

  lemma {:induction false} InsertCountIn(q: seq<Tree>, t: Tree, w: nat)
    ensures CountIn(Insert(q, t), w) == CountIn(q, w) + Count(t, w)
  {
    if q == [] || Score(t) < Score(q[0]) {
      assert ([t] + q)[1..] == q;
    } else {
      InsertCountIn(q[1..], t, w);
      assert Insert(q, t)[1..] == Insert(q[1..], t);
    }
  }

  /** Merging changes no leaf weight. */
  lemma {:induction false} MergedCount(q: seq<Tree>, w: nat)
    requires q != []
    ensures Count(Merged(q), w) == CountIn(q, w)
    decreases |q|
  {
    if |q| == 1 {
      assert q[1..] == [];
    } else {
      assert q[1..][1..] == q[2..];
      InsertCountIn(q[2..], Branch(q[0], q[1]), w);
      MergedCount(MergeStep(q), w);
    }
  }

  lemma {:induction false} ForestCountIn(scores: seq<nat>, n: nat, w: nat)
    requires n <= |scores|
    ensures CountIn(Forest(scores, n), w) == CountTo(scores, n, w)
  {
    if n > 0 {
      ForestCountIn(scores, n - 1, w);
      InsertCountIn(Forest(scores, n - 1), Leaf(n - 1, scores[n - 1]), w);
    }
  }

  lemma ScoreTreeWeights(scores: seq<nat>, w: nat)
    requires scores != []
    ensures Count(ScoreTree(scores), w) == CountTo(scores, |scores|, w)
  {
    MergedCount(Forest(scores, |scores|), w);
    ForestCountIn(scores, |scores|, w);
  }

  /** The leaves of the score tree carry the given scores, and no binary tree whose leaves carry them has a smaller
      weighted path length. */
  lemma HuffmanOptimal(scores: seq<nat>, t: Tree)
    requires scores != [] && forall w: nat :: Count(t, w) == CountTo(scores, |scores|, w)
    ensures forall w: nat :: Count(ScoreTree(scores), w) == CountTo(scores, |scores|, w)
    ensures PathLength(ScoreTree(scores), 0) <= PathLength(t, 0)
  {
    var q := Forest(scores, |scores|);
    ForestSorted(scores, |scores|);
    forall w: nat ensures Count(t, w) == CountScores(q, w) { ForestCounts(scores, |scores|, w); }
    ForestOptimal(q, t);
    forall w: nat ensures Count(ScoreTree(scores), w) == CountTo(scores, |scores|, w) { ScoreTreeWeights(scores, w); }
    CostIsPathLength(ScoreTree(scores), 0);
    CostIsPathLength(t, 0);
  }

  // ---------- codes ----------

  predicate Has(t: Tree, ch: nat) {
    match t
    case Leaf(c, _) => c == ch
    case Branch(l, r) => Has(l, ch) || Has(r, ch)
  }

  /** The way to the first leaf of a character. */
  function Path(t: Tree, ch: nat): string
    requires Has(t, ch)
  {
    match t
    case Leaf(_, _) => ""
    case Branch(l, r) => if Has(l, ch) then "0" + Path(l, ch) else "1" + Path(r, ch)
  }

  function OrZero(code: string): string { if code == "" then "0" else code }

  function Code(t: Tree, ch: nat): string
    requires Has(t, ch)
  {
    OrZero(Path(t, ch))
  }

  datatype Followed = Reached(ch: nat, rest: string) | Lost

  /** Walks down from the root as the bits say. */
  function Follow(t: Tree, bits: string): Followed {
    match t
    case Leaf(c, _) => Reached(c, bits)
    case Branch(l, r) => if bits == "" then Lost else if bits[0] == '0' then Follow(l, bits[1..])
      else Follow(r, bits[1..])
  }

  /** Codes can be read off the front of any text. */
  lemma {:induction false} FollowPath(t: Tree, ch: nat, rest: string)
    requires Has(t, ch)
    ensures Follow(t, Path(t, ch) + rest) == Reached(ch, rest)
  {
    match t
    case Leaf(_, _) =>
      assert "" + rest == rest;
    case Branch(l, r) =>
      var next := if Has(l, ch) then l else r;
      FollowPath(next, ch, rest);
      assert (Path(t, ch) + rest)[1..] == Path(next, ch) + rest;
  }

  // ---------- optimality ----------

  /** How many leaves have weight `w`. */
  function Count(t: Tree, w: nat): nat {
    match t
    case Leaf(_, v) => Bit(v == w)
    case Branch(l, r) => Count(l, w) + Count(r, w)
  }

  /** How many trees have score `w`. */
  function CountScores(q: seq<Tree>, w: nat): nat {
    if q == [] then 0 else Bit(Score(q[0]) == w) + CountScores(q[1..], w)
  }

  ghost function Costs(q: seq<Tree>): nat {
    if q == [] then 0 else Cost(q[0]) + Costs(q[1..])
  }

  lemma {:induction false} InsertCounts(q: seq<Tree>, t: Tree, w: nat)
    ensures CountScores(Insert(q, t), w) == CountScores(q, w) + Bit(Score(t) == w)
  {
    if q == [] || Score(t) < Score(q[0]) {
      assert ([t] + q)[1..] == q;
    } else {
      InsertCounts(q[1..], t, w);
      assert Insert(q, t)[1..] == Insert(q[1..], t);
    }
  }

  lemma {:induction false} InsertCosts(q: seq<Tree>, t: Tree)
    ensures Costs(Insert(q, t)) == Costs(q) + Cost(t)
  {
    if q == [] || Score(t) < Score(q[0]) {
      assert ([t] + q)[1..] == q;
    } else {
      InsertCosts(q[1..], t);
      assert Insert(q, t)[1..] == Insert(q[1..], t);
    }
  }

  lemma {:induction false} InsertSorted(q: seq<Tree>, t: Tree)
    requires Sorted(q)
    ensures Sorted(Insert(q, t))
  {
    if q == [] {
    } else if Score(t) < Score(q[0]) {
      assert ([t] + q)[1..] == q;
    } else {
      InsertSorted(q[1..], t);
      assert Insert(q, t)[1..] == Insert(q[1..], t);
    }
  }

  /** `t` with one leaf of weight `a` changed to weight `x`. */
  ghost function Reweigh(t: Tree, a: nat, x: nat): Tree
    requires Count(t, a) > 0
  {
    match t
    case Leaf(c, _) => Leaf(c, x)
    case Branch(l, r) => if Count(l, a) > 0 then Branch(Reweigh(l, a, x), r) else Branch(l, Reweigh(r, a, x))
  }

  lemma {:induction false} ReweighCount(t: Tree, a: nat, x: nat, w: nat)
    requires Count(t, a) > 0
    ensures Count(Reweigh(t, a, x), w) == Count(t, w) - Bit(w == a) + Bit(w == x)
  {
    match t
    case Leaf(_, _) =>
    case Branch(l, r) => if Count(l, a) > 0 { ReweighCount(l, a, x, w); } else { ReweighCount(r, a, x, w); }
  }

  /** A heavier leaf costs at most the height of the tree times the difference. */
  lemma {:induction false} ReweighCost(t: Tree, a: nat, x: nat, h: nat)
    requires Count(t, a) > 0 && a <= x && Height(t) <= h
    ensures Score(Reweigh(t, a, x)) == Score(t) - a + x && Height(Reweigh(t, a, x)) == Height(t)
    ensures Cost(Reweigh(t, a, x)) <= Cost(t) + h * (x - a)
  {
    match t
    case Leaf(_, _) =>
      MulMono(0, h, x - a);
    case Branch(l, r) =>
      if Count(l, a) > 0 { ReweighCost(l, a, x, h - 1); } else { ReweighCost(r, a, x, h - 1); }
      MulDistrib(h - 1, 1, x - a);
  }

  /** The weights of two sibling leaves as deep as the tree is high. */
  ghost function DeepPair(t: Tree): (nat, nat)
    requires t.Branch?
  {
    if Height(t) == 1 then (t.left.weight, t.right.weight)
    else if Height(t.left) >= Height(t.right) then DeepPair(t.left) else DeepPair(t.right)
  }

  /** `t` with those siblings replaced by one leaf of weight `s`. */
  ghost function Collapse(t: Tree, s: nat): Tree
    requires t.Branch?
  {
    if Height(t) == 1 then Leaf(0, s)
    else if Height(t.left) >= Height(t.right) then Branch(Collapse(t.left, s), t.right)
    else Branch(t.left, Collapse(t.right, s))
  }

  lemma {:induction false} CollapseCount(t: Tree, s: nat, w: nat)
    requires t.Branch?
    ensures Count(t, w) >= Bit(w == DeepPair(t).0) + Bit(w == DeepPair(t).1)
    ensures Count(Collapse(t, s), w) == Count(t, w) - Bit(w == DeepPair(t).0) - Bit(w == DeepPair(t).1) + Bit(w == s)
  {
    if Height(t) == 1 {
    } else if Height(t.left) >= Height(t.right) {
      CollapseCount(t.left, s, w);
    } else {
      CollapseCount(t.right, s, w);
    }
  }

  lemma {:induction false} CollapseCost(t: Tree, s: nat)
    requires t.Branch?
    ensures Score(Collapse(t, s)) == Score(t) - (DeepPair(t).0 + DeepPair(t).1) + s
    ensures Height(Collapse(t, s)) <= Height(t)
    ensures Cost(Collapse(t, s)) == Cost(t) - Height(t) * (DeepPair(t).0 + DeepPair(t).1) + (Height(t) - 1) * s
  {
    if Height(t) > 1 {
      var deep := if Height(t.left) >= Height(t.right) then t.left else t.right;
      CollapseCost(deep, s);
      MulDistrib(Height(deep), 1, DeepPair(t).0 + DeepPair(t).1);
      MulDistrib(Height(deep) - 1, 1, s);
    }
  }

  /** `a` and `b` are the two least weights. */
  ghost predicate TwoLeast(t: Tree, a: nat, b: nat) {
    && a <= b && Count(t, a) >= 1 && Count(t, b) >= Bit(a == b) + 1
    && (forall w: nat | Count(t, w) > 0 :: a <= w)
    && (forall w: nat | Count(t, w) > Bit(w == a) :: b <= w)
  }

  /** Merging leaves of weight `a` and `b` turns the leaves of `t` into those of `u`. */
  ghost predicate LeavesMerged(t: Tree, a: nat, b: nat, u: Tree) {
    forall w: nat :: Count(u, w) == Count(t, w) - Bit(w == a) - Bit(w == b) + Bit(w == a + b)
  }

  /** Any tree can be rearranged, at no extra cost, so that the two least weights are merged first. */
  lemma Exchange(t: Tree, a: nat, b: nat) returns (t': Tree)
    requires TwoLeast(t, a, b)
    ensures LeavesMerged(t, a, b, t') && Cost(t') + a + b <= Cost(t)
  {
    if t.Leaf? {
      t' := t;
      assert false;
    } else {
      var u, x, y := DeepMerged(t, a + b);
      t' := Refill(t, u, a, b, x, y);
      ExchangeCost(Cost(t), Cost(u), Cost(t'), Height(t), x, y, a, b);
    }
  }

  /** `t` with a deepest pair of siblings, `x` and `y`, replaced by a leaf of weight `s`. */
  lemma DeepMerged(t: Tree, s: nat) returns (u: Tree, x: nat, y: nat)
    requires t.Branch?
    ensures x <= y && Count(t, x) >= 1 && Count(t, y) >= Bit(x == y) + 1 && Height(u) <= Height(t)
    ensures forall w: nat :: Count(u, w) == Count(t, w) - Bit(w == x) - Bit(w == y) + Bit(w == s)
    ensures Cost(u) == Cost(t) - Height(t) * (x + y) + (Height(t) - 1) * s
  {
    CollapseCost(t, s);
    u := Collapse(t, s);
    x, y := DeepPair(t).0, DeepPair(t).1;
    if x > y { x, y := y, x; }
    CollapseCount(t, s, x);
    CollapseCount(t, s, y);
    forall w: nat
      ensures Count(u, w) == Count(t, w) - Bit(w == x) - Bit(w == y) + Bit(w == s)
    {
      CollapseCount(t, s, w);
    }
  }

  /** The leaves `x` and `y` that the deepest pair gave up take the places of `a` and `b`. */
  lemma Refill(t: Tree, u: Tree, a: nat, b: nat, x: nat, y: nat) returns (t': Tree)
    requires TwoLeast(t, a, b) && x <= y && Height(u) <= Height(t)
    requires Count(t, x) >= 1 && Count(t, y) >= Bit(x == y) + 1
    requires forall w: nat :: Count(u, w) == Count(t, w) - Bit(w == x) - Bit(w == y) + Bit(w == a + b)
    ensures a <= x && b <= y
    ensures LeavesMerged(t, a, b, t')
    ensures Cost(t') <= Cost(u) + Height(t) * (x - a) + Height(t) * (y - b)
  {
    assert a <= x && b <= y;
    var v := Raise(u, a, x, Height(t));
    assert forall w: nat :: Count(v, w) == Count(t, w) - Bit(w == a) - Bit(w == y) + Bit(w == a + b);
    t' := Raise(v, b, y, Height(t));
  }

  /** A leaf of weight `a` made one of weight `x`, if they differ. */
  lemma Raise(t: Tree, a: nat, x: nat, h: nat) returns (t': Tree)
    requires a != x ==> Count(t, a) > 0
    requires a <= x && Height(t) <= h
    ensures forall w: nat :: Count(t', w) == Count(t, w) - Bit(w == a) + Bit(w == x)
    ensures Height(t') == Height(t) && Cost(t') <= Cost(t) + h * (x - a)
  {
    t' := t;
    if a != x {
      ReweighCost(t, a, x, h);
      t' := Reweigh(t, a, x);
      forall w: nat
        ensures Count(t', w) == Count(t, w) - Bit(w == a) + Bit(w == x)
      {
        ReweighCount(t, a, x, w);
      }
    }
  }

  lemma ExchangeCost(t: int, u: int, t': int, h: int, x: int, y: int, a: int, b: int)
    requires u == t - h * (x + y) + (h - 1) * (a + b) && t' <= u + h * (x - a) + h * (y - b)
    ensures t' + a + b <= t
  {
    assert h * (x + y) == h * (x - a) + h * (y - b) + h * (a + b);
    assert (h - 1) * (a + b) == h * (a + b) - (a + b);
  }

  /** The leaf weights of `t` are the scores of `q`. */
  ghost predicate SameWeights(t: Tree, q: seq<Tree>) { forall w: nat :: Count(t, w) == CountScores(q, w) }

  lemma {:induction false} ScoresAtLeast(q: seq<Tree>, w: nat)
    requires q != [] && Sorted(q) && CountScores(q, w) > 0
    ensures Score(q[0]) <= w
  {
    if |q| >= 2 && Score(q[0]) != w { ScoresAtLeast(q[1..], w); }
  }

  lemma SortedLeast(q: seq<Tree>, t: Tree)
    requires Sorted(q) && |q| >= 2 && SameWeights(t, q)
    ensures TwoLeast(t, Score(q[0]), Score(q[1]))
  {
    var a, b := Score(q[0]), Score(q[1]);
    FirstTwo(q, a);
    FirstTwo(q, b);
    forall w: nat | Count(t, w) > 0 ensures a <= w { ScoresAtLeast(q, w); }
    forall w: nat | Count(t, w) > Bit(w == a) ensures b <= w { ScoresAtLeast(q[1..], w); }
  }

  lemma FirstTwo(q: seq<Tree>, w: nat)
    requires |q| >= 2
    ensures CountScores(q, w) == Bit(Score(q[0]) == w) + Bit(Score(q[1]) == w) + CountScores(q[2..], w)
  {
    assert q[1..][1..] == q[2..];
  }

  lemma MergeStepFacts(q: seq<Tree>)
    requires |q| >= 2 && Sorted(q)
    ensures Sorted(MergeStep(q)) && Costs(MergeStep(q)) == Costs(q) + Score(q[0]) + Score(q[1])
  {
    assert q[1..][1..] == q[2..];
    InsertCosts(q[2..], Branch(q[0], q[1]));
    InsertSorted(q[2..], Branch(q[0], q[1]));
  }

  lemma MergeStepWeights(q: seq<Tree>, t: Tree, t': Tree)
    requires |q| >= 2 && SameWeights(t, q) && LeavesMerged(t, Score(q[0]), Score(q[1]), t')
    ensures SameWeights(t', MergeStep(q))
  {
    forall w: nat
      ensures Count(t', w) == CountScores(MergeStep(q), w)
    {
      FirstTwo(q, w);
      InsertCounts(q[2..], Branch(q[0], q[1]), w);
      assert Count(t, w) == CountScores(q, w);
    }
  }

  /** Merging the forest `q` keeps its leaf weights, and costs no more than any tree over its scores. */
  lemma ForestOptimal(q: seq<Tree>, t: Tree)
    requires q != [] && Sorted(q) && SameWeights(t, q)
    ensures forall w: nat :: Count(Merged(q), w) == CountIn(q, w)
    ensures Cost(Merged(q)) <= Cost(t) + Costs(q)
  {
    forall w: nat ensures Count(Merged(q), w) == CountIn(q, w) { MergedCount(q, w); }
    MergedCost(q, t);
  }

  lemma {:induction false} MergedCost(q: seq<Tree>, t: Tree)
    requires q != [] && Sorted(q) && SameWeights(t, q)
    ensures Cost(Merged(q)) <= Cost(t) + Costs(q)
    decreases |q|
  {
    if |q| > 1 {
      SortedLeast(q, t);
      var t' := Exchange(t, Score(q[0]), Score(q[1]));
      MergeStepFacts(q);
      MergeStepWeights(q, t, t');
      MergedCost(MergeStep(q), t');
    }
  }
}
