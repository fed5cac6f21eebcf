/** `encode_char_fast`: Huffman's algorithm with two queues in linear time (CUDA_sample/test/C3/old.cpp). */
module TwoQueue {
  import opened Sequences
  import opened Charset
  import Huffman
  import StableSort

  // ---------- the two queues as one ----------

  /** The order in which trees leave the two queues; at equal scores the first queue goes first. */
  function Merge(x: seq<Huffman.Tree>, y: seq<Huffman.Tree>): (r: seq<Huffman.Tree>)
    ensures |r| == |x| + |y|
  {
    if x == [] then y
    else if y == [] then x
    else if Huffman.Score(x[0]) <= Huffman.Score(y[0]) then [x[0]] + Merge(x[1..], y)
    else [y[0]] + Merge(x, y[1..])
  }

  ghost predicate AllWithin(q: seq<Huffman.Tree>, limit: nat) {
    forall i | 0 <= i < |q| :: Huffman.Score(q[i]) <= limit
  }

  ghost predicate AllAbove(q: seq<Huffman.Tree>, limit: nat) { forall i | 0 <= i < |q| :: limit <= Huffman.Score(q[i]) }

  /** A tree that is not less than any in the second queue belongs at its end. */
  lemma {:induction false} AppendIsInsert(x: seq<Huffman.Tree>, y: seq<Huffman.Tree>, t: Huffman.Tree)
    requires AllWithin(y, Huffman.Score(t))
    ensures Merge(x, y + [t]) == Huffman.Insert(Merge(x, y), t)
    decreases |x| + |y|
  {
    if x == [] {
      InsertLast(y, t);
    } else if y == [] {
      AppendToNone(x, t);
    } else if Huffman.Score(x[0]) <= Huffman.Score(y[0]) {
      AppendIsInsert(x[1..], y, t);
      assert (y + [t])[0] == y[0];
    } else {
      AppendIsInsert(x, y[1..], t);
      assert (y + [t])[0] == y[0] && (y + [t])[1..] == y[1..] + [t];
    }
  }

  lemma {:induction false} InsertLast(y: seq<Huffman.Tree>, t: Huffman.Tree)
    requires AllWithin(y, Huffman.Score(t))
    ensures Huffman.Insert(y, t) == y + [t]
  {
    if y != [] { InsertLast(y[1..], t); }
  }

  lemma {:induction false} AppendToNone(x: seq<Huffman.Tree>, t: Huffman.Tree)
    ensures Merge(x, [] + [t]) == Huffman.Insert(x, t)
  {
    assert [] + [t] == [t];
    if x != [] {
      if Huffman.Score(x[0]) <= Huffman.Score(t) { AppendToNone(x[1..], t); } else { assert [t][1..] == []; }
    }
  }

  lemma {:induction false} SortedAbove(q: seq<Huffman.Tree>)
    requires Huffman.Sorted(q) && q != []
    ensures AllAbove(q, Huffman.Score(q[0]))
  {
    if |q| >= 2 { SortedAbove(q[1..]); }
  }

  lemma {:induction false} SortedIf(q: seq<Huffman.Tree>)
    requires q != [] && Huffman.Sorted(q[1..]) && AllAbove(q[1..], Huffman.Score(q[0]))
    ensures Huffman.Sorted(q)
  {
  }

  lemma {:induction false} MergeAbove(x: seq<Huffman.Tree>, y: seq<Huffman.Tree>, limit: nat)
    requires AllAbove(x, limit) && AllAbove(y, limit)
    ensures AllAbove(Merge(x, y), limit)
    decreases |x| + |y|
  {
    if x != [] && y != [] {
      if Huffman.Score(x[0]) <= Huffman.Score(y[0]) {
        MergeAbove(x[1..], y, limit);
      } else {
        MergeAbove(x, y[1..], limit);
      }
    }
  }

  lemma {:induction false} MergeSorted(x: seq<Huffman.Tree>, y: seq<Huffman.Tree>)
    requires Huffman.Sorted(x) && Huffman.Sorted(y)
    ensures Huffman.Sorted(Merge(x, y))
    decreases |x| + |y|
  {
    if x != [] && y != [] {
      SortedAbove(x);
      SortedAbove(y);
      if Huffman.Score(x[0]) <= Huffman.Score(y[0]) {
        MergeSorted(x[1..], y);
        MergeAbove(x[1..], y, Huffman.Score(x[0]));
        SortedIf(Merge(x, y));
      } else {
        MergeSorted(x, y[1..]);
        MergeAbove(x, y[1..], Huffman.Score(y[0]));
        SortedIf(Merge(x, y));
      }
    }
  }

  /** The queues hold `q`; nothing in the second exceeds `limit`, and the next merged tree will not be below it. */
  ghost predicate Queued(x: seq<Huffman.Tree>, y: seq<Huffman.Tree>, q: seq<Huffman.Tree>, limit: nat) {
    && Huffman.Sorted(x) && Huffman.Sorted(y) && q == Merge(x, y) && AllWithin(y, limit)
    && (|q| >= 2 ==> limit <= Huffman.Score(q[0]) + Huffman.Score(q[1]))
  }

  lemma {:induction false} SortedAppend(y: seq<Huffman.Tree>, t: Huffman.Tree)
    requires Huffman.Sorted(y) && AllWithin(y, Huffman.Score(t))
    ensures Huffman.Sorted(y + [t])
  {
    if y != [] {
      SortedAppend(y[1..], t);
      assert (y + [t])[1..] == y[1..] + [t];
    }
  }

  /** Merged trees are made in non-decreasing order, so that the second queue needs no sorting. */
  lemma QueuedStep(x: seq<Huffman.Tree>, y: seq<Huffman.Tree>, q: seq<Huffman.Tree>, limit: nat,
                   x': seq<Huffman.Tree>, y': seq<Huffman.Tree>)
    requires Queued(x, y, q, limit) && |q| >= 2 && q[2..] == Merge(x', y')
    requires Huffman.Sorted(x') && Huffman.Sorted(y') && AllWithin(y', limit)
    ensures Queued(x', y' + [Huffman.Branch(q[0], q[1])], Huffman.MergeStep(q),
            Huffman.Score(q[0]) + Huffman.Score(q[1]))
  {
    var t := Huffman.Branch(q[0], q[1]);
    AppendIsInsert(x', y', t);
    SortedAppend(y', t);
    MergeSorted(x, y);
    SortedAbove(q);
    SortedAbove(q[1..]);
    forall i | 0 <= i < |q[2..]| ensures Huffman.Score(q[1]) <= Huffman.Score(q[2..][i]) {
      assert q[2..][i] == q[1..][i + 1];
    }
    NextPair(q[2..], t, Huffman.Score(q[0]), Huffman.Score(q[1]));
  }

  /** After `t`, the sum of `a` and `b`, is inserted, the first two together are no less than `t`. */
  lemma NextPair(r: seq<Huffman.Tree>, t: Huffman.Tree, a: nat, b: nat)
    requires Huffman.Score(t) == a + b && a <= b && AllAbove(r, b)
    ensures var s := Huffman.Insert(r, t); |s| >= 2 ==> a + b <= Huffman.Score(s[0]) + Huffman.Score(s[1])
  {
    var s := Huffman.Insert(r, t);
    if |s| >= 2 && r != [] && Huffman.Score(t) >= Huffman.Score(r[0]) {
      assert s[1] == Huffman.Insert(r[1..], t)[0];
    }
  }

  // ---------- the sorted leaves ----------

  /** The leaves of the indices `q`, in that order. */
  ghost function LeafList(scores: seq<nat>, q: seq<nat>): (f: seq<Huffman.Tree>)
    requires StableSort.Indices(scores, q)
    ensures |f| == |q|
  {
    seq(|q|, i requires 0 <= i < |q| => Huffman.Leaf(q[i], scores[q[i]]))
  }

  lemma {:induction false} LeafInsert(scores: seq<nat>, q: seq<nat>, x: nat)
    requires StableSort.Indices(scores, q) && x < |scores| && forall i | 0 <= i < |q| :: q[i] < x
    ensures LeafList(scores, StableSort.Insert(scores, q, x))
            == Huffman.Insert(LeafList(scores, q), Huffman.Leaf(x, scores[x]))
  {
    if q != [] && !StableSort.Before(scores, x, q[0]) {
      LeafInsert(scores, q[1..], x);
      assert LeafList(scores, q)[1..] == LeafList(scores, q[1..]);
    }
  }

  /** Sorting the characters by score, ties by character, gives the order in which a priority queue holds them. */
  lemma {:induction false} SortedLeaves(scores: seq<nat>, n: nat)
    requires n <= |scores|
    ensures LeafList(scores, StableSort.SortedTo(scores, n)) == Huffman.Forest(scores, n)
  {
    if n > 0 {
      SortedLeaves(scores, n - 1);
      var q := StableSort.SortedTo(scores, n - 1);
      forall i | 0 <= i < |q| ensures q[i] < n - 1 {
        StableSort.SortedToContents(scores, n - 1, q[i]);
        assert q[i] in multiset(q);
      }
      LeafInsert(scores, q, n - 1);
    }
  }

  // ---------- the node vector ----------

  datatype Node = Node(left: int, right: int, chars: string)

  ghost predicate Linked(ns: seq<Node>) {
    forall i | 0 <= i < |ns| ::
      if ns[i].left == -1 then |ns[i].chars| == 1 && InCharset(ns[i].chars[0])
      else && 0 <= ns[i].left < i && 0 <= ns[i].right < i
           && ns[i].chars == ns[ns[i].left].chars + ns[ns[i].right].chars
  }

  ghost function TreeAt(ns: seq<Node>, scores: seq<nat>, i: nat): Huffman.Tree
    requires Linked(ns) && i < |ns| && |scores| == CSIZE
  {
    if ns[i].left == -1 then var c := CharToIdx(ns[i].chars[0]); Huffman.Leaf(c, scores[c])
    else Huffman.Branch(TreeAt(ns, scores, ns[i].left), TreeAt(ns, scores, ns[i].right))
  }

  lemma {:induction false} TreeKept(ns: seq<Node>, x: Node, scores: seq<nat>, i: nat)
    requires Linked(ns) && Linked(ns + [x]) && i < |ns| && |scores| == CSIZE
    ensures TreeAt(ns + [x], scores, i) == TreeAt(ns, scores, i)
  {
    if ns[i].left != -1 {
      TreeKept(ns, x, scores, ns[i].left);
      TreeKept(ns, x, scores, ns[i].right);
    }
  }

  /** A node's string lists the characters of its tree. */
  lemma {:induction false} CharsHas(ns: seq<Node>, scores: seq<nat>, i: nat, c: char)
    requires Linked(ns) && i < |ns| && |scores| == CSIZE && InCharset(c)
    ensures c in ns[i].chars <==> Huffman.Has(TreeAt(ns, scores, i), CharToIdx(c))
  {
    if ns[i].left != -1 {
      CharsHas(ns, scores, ns[i].left, c);
      CharsHas(ns, scores, ns[i].right, c);
    } else {
      CharOfIdx(c);
      CharOfIdx(ns[i].chars[0]);
    }
  }

  // ---------- the queues ----------

  /** Entries of a queue: a weight and a node. */
  ghost predicate Weighed(ns: seq<Node>, scores: seq<nat>, q: seq<(nat, nat)>)
    requires Linked(ns) && |scores| == CSIZE
  {
    forall i | 0 <= i < |q| :: q[i].1 < |ns| && q[i].0 == Huffman.Score(TreeAt(ns, scores, q[i].1))
  }

  ghost function Trees(ns: seq<Node>, scores: seq<nat>, q: seq<(nat, nat)>): (t: seq<Huffman.Tree>)
    requires Linked(ns) && |scores| == CSIZE && Weighed(ns, scores, q)
    ensures |t| == |q|
  {
    seq(|q|, i requires 0 <= i < |q| => TreeAt(ns, scores, q[i].1))
  }

  lemma WeighedTail(ns: seq<Node>, scores: seq<nat>, q: seq<(nat, nat)>)
    requires Linked(ns) && |scores| == CSIZE && Weighed(ns, scores, q) && q != []
    ensures Weighed(ns, scores, q[1..]) && Trees(ns, scores, q[1..]) == Trees(ns, scores, q)[1..]
    ensures Trees(ns, scores, q)[0] == TreeAt(ns, scores, q[0].1)
  {
  }

  lemma WeighedKept(ns: seq<Node>, x: Node, scores: seq<nat>, q: seq<(nat, nat)>)
    requires Linked(ns) && Linked(ns + [x]) && |scores| == CSIZE && Weighed(ns, scores, q)
    ensures Weighed(ns + [x], scores, q) && Trees(ns + [x], scores, q) == Trees(ns, scores, q)
  {
    forall i | 0 <= i < |ns| ensures TreeAt(ns + [x], scores, i) == TreeAt(ns, scores, i) {
      TreeKept(ns, x, scores, i);
    }
  }

  lemma WeighedMore(ns: seq<Node>, scores: seq<nat>, q: seq<(nat, nat)>, w: nat, n: nat)
    requires Linked(ns) && |scores| == CSIZE && Weighed(ns, scores, q) && n < |ns|
             && w == Huffman.Score(TreeAt(ns, scores, n))
    ensures Weighed(ns, scores, q + [(w, n)])
    ensures Trees(ns, scores, q + [(w, n)]) == Trees(ns, scores, q) + [TreeAt(ns, scores, n)]
  {
  }

  /** A new inner node, and its entry at the end of the second queue. */
  lemma BranchAdded(ns: seq<Node>, scores: seq<nat>, q1: seq<(nat, nat)>, q2: seq<(nat, nat)>, wa: nat, na: nat,
                    wb: nat, nb: nat)
    requires Linked(ns) && |scores| == CSIZE && Weighed(ns, scores, q1) && Weighed(ns, scores, q2) && na < |ns|
             && nb < |ns|
    requires wa == Huffman.Score(TreeAt(ns, scores, na)) && wb == Huffman.Score(TreeAt(ns, scores, nb))
    ensures var ns', e := ns + [Node(na, nb, ns[na].chars + ns[nb].chars)], (wa + wb, |ns|);
            && Linked(ns') && Weighed(ns', scores, q1) && Trees(ns', scores, q1) == Trees(ns, scores, q1)
            && Weighed(ns', scores, q2 + [e])
            && Trees(ns', scores, q2 + [e])
            == Trees(ns, scores, q2) + [Huffman.Branch(TreeAt(ns, scores, na), TreeAt(ns, scores, nb))]
  {
    var x := Node(na, nb, ns[na].chars + ns[nb].chars);
    NewBranch(ns, scores, na, nb);
    WeighedKept(ns, x, scores, q1);
    WeighedKept(ns, x, scores, q2);
    WeighedMore(ns + [x], scores, q2, wa + wb, |ns|);
  }

  lemma NewBranch(ns: seq<Node>, scores: seq<nat>, na: nat, nb: nat)
    requires Linked(ns) && |scores| == CSIZE && na < |ns| && nb < |ns|
    ensures var ns' := ns + [Node(na, nb, ns[na].chars + ns[nb].chars)];
            Linked(ns') && TreeAt(ns', scores, |ns|) == Huffman.Branch(TreeAt(ns, scores, na), TreeAt(ns, scores, nb))
  {
    var x := Node(na, nb, ns[na].chars + ns[nb].chars);
    TreeKept(ns, x, scores, na);
    TreeKept(ns, x, scores, nb);
  }

  /** A new leaf, and its entry at the end of the first queue. */
  lemma LeafAdded(ns: seq<Node>, scores: seq<nat>, q1: seq<(nat, nat)>, q2: seq<(nat, nat)>, score: nat, ch: char)
    requires Linked(ns) && |scores| == CSIZE && Weighed(ns, scores, q1) && Weighed(ns, scores, q2)
    requires InCharset(ch) && score == scores[CharToIdx(ch)]
    ensures var ns', e := ns + [Node(-1, -1, [ch])], (score, |ns|);
            && Linked(ns') && Weighed(ns', scores, q2) && Trees(ns', scores, q2) == Trees(ns, scores, q2)
            && Weighed(ns', scores, q1 + [e])
            && Trees(ns', scores, q1 + [e]) == Trees(ns, scores, q1) + [Huffman.Leaf(CharToIdx(ch), score)]
  {
    var x := Node(-1, -1, [ch]);
    assert Linked(ns + [x]) && TreeAt(ns + [x], scores, |ns|) == Huffman.Leaf(CharToIdx(ch), score);
    WeighedKept(ns, x, scores, q1);
    WeighedKept(ns, x, scores, q2);
    WeighedMore(ns + [x], scores, q1, score, |ns|);
  }

  lemma TailSnoc(q: seq<(nat, nat)>, k: nat, e: (nat, nat))
    requires k <= |q|
    ensures (q + [e])[k..] == q[k..] + [e]
  {
  }

  /** The local variables of `encode_char_fast`. */
  class Queues {
    ghost const scores: seq<nat>
    var Q1: seq<(nat, nat)>
    var Q2: seq<(nat, nat)>
    var q1_head: nat
    var q2_head: nat
    var tree: seq<Node>

    constructor (ghost scores: seq<nat>)
      ensures this.scores == scores && Q1 == Q2 == [] && q1_head == q2_head == 0 && tree == []
    {
      this.scores := scores;
      Q1, Q2, q1_head, q2_head, tree := [], [], 0, 0, [];
    }

    ghost predicate Shape()
      reads this
    {
      && q1_head <= |Q1| && q2_head <= |Q2| && |scores| == CSIZE && Linked(tree)
      && Weighed(tree, scores, Q1[q1_head..]) && Weighed(tree, scores, Q2[q2_head..])
    }

    ghost function First(): seq<Huffman.Tree>
      requires Shape()
      reads this
    {
      Trees(tree, scores, Q1[q1_head..])
    }

    ghost function Second(): seq<Huffman.Tree>
      requires Shape()
      reads this
    {
      Trees(tree, scores, Q2[q2_head..])
    }

    ghost predicate Holding(q: seq<Huffman.Tree>, limit: nat)
      reads this
    {
      && Shape() && Huffman.Sorted(First()) && Huffman.Sorted(Second())
      && q == Merge(First(), Second()) && AllWithin(Second(), limit)
    }

    /** `pop_min` */
    method PopMin(ghost q: seq<Huffman.Tree>, ghost limit: nat) returns (w: nat, n: nat)
      requires Holding(q, limit) && q != []
      modifies `q1_head, `q2_head
      ensures n < |tree| && TreeAt(tree, scores, n) == q[0] && w == Huffman.Score(q[0])
      ensures Holding(q[1..], limit)
    {
      if q1_head < |Q1| { WeighedTail(tree, scores, Q1[q1_head..]); }
      if q2_head < |Q2| { WeighedTail(tree, scores, Q2[q2_head..]); }
      if q1_head < |Q1| && q2_head < |Q2| {
        if Q1[q1_head].0 <= Q2[q2_head].0 {
          w, n := TakeFirst();
        } else {
          w, n := TakeSecond();
        }
      } else if q1_head < |Q1| {
        w, n := TakeFirst();
      } else {
        w, n := TakeSecond();
      }
    }

    method TakeFirst() returns (w: nat, n: nat)
      requires Shape() && q1_head < |Q1|
      modifies `q1_head
      ensures Shape() && First() == old(First())[1..] && Second() == old(Second())
      ensures n < |tree| && TreeAt(tree, scores, n) == old(First())[0] && w == Huffman.Score(old(First())[0])
    {
      WeighedTail(tree, scores, Q1[q1_head..]);
      assert Q1[q1_head..][1..] == Q1[q1_head + 1..];
      w, n := Q1[q1_head].0, Q1[q1_head].1;
      q1_head := q1_head + 1;
    }

    method TakeSecond() returns (w: nat, n: nat)
      requires Shape() && q2_head < |Q2|
      modifies `q2_head
      ensures Shape() && First() == old(First()) && Second() == old(Second())[1..]
      ensures n < |tree| && TreeAt(tree, scores, n) == old(Second())[0] && w == Huffman.Score(old(Second())[0])
    {
      WeighedTail(tree, scores, Q2[q2_head..]);
      assert Q2[q2_head..][1..] == Q2[q2_head + 1..];
      w, n := Q2[q2_head].0, Q2[q2_head].1;
      q2_head := q2_head + 1;
    }

    ghost predicate Ready(q: seq<Huffman.Tree>, limit: nat)
      reads this
    {
      Shape() && Queued(First(), Second(), q, limit)
    }

    /** One round of the merging loop. */
    method MergeTwo(ghost q: seq<Huffman.Tree>, ghost limit: nat) returns (ghost limit': nat)
      requires Ready(q, limit) && |q| >= 2
      modifies `q1_head, `q2_head, `Q2, `tree
      ensures Ready(Huffman.MergeStep(q), limit')
    {
      ghost var x, y := First(), Second();
      var wa, na := PopMin(q, limit);
      var wb, nb := PopMin(q[1..], limit);
      assert q[1..][1..] == q[2..];
      QueuedStep(x, y, q, limit, First(), Second());
      limit' := wa + wb;
      AddBranch(wa, na, wb, nb);
    }

    method AddBranch(wa: nat, na: nat, wb: nat, nb: nat)
      requires Shape() && na < |tree| && nb < |tree|
      requires wa == Huffman.Score(TreeAt(tree, scores, na)) && wb == Huffman.Score(TreeAt(tree, scores, nb))
      modifies `Q2, `tree
      ensures Shape() && First() == old(First())
      ensures Second() == old(Second()) + [Huffman.Branch(old(TreeAt(tree, scores, na)), old(TreeAt(tree, scores, nb)))]
    {
      var x := Node(na, nb, tree[na].chars + tree[nb].chars);
      var n := |tree|;
      BranchAdded(tree, scores, Q1[q1_head..], Q2[q2_head..], wa, na, wb, nb);
      TailSnoc(Q2, q2_head, (wa + wb, n));
      tree := tree + [x];
      Q2 := Q2 + [(wa + wb, n)];
    }

    /** The leaves, already sorted, as nodes and as the first queue. */
    method AddLeaf(score: nat, ch: char)
      requires Shape() && q1_head == 0 && InCharset(ch) && score == scores[CharToIdx(ch)]
      modifies `Q1, `tree
      ensures Shape() && First() == old(First()) + [Huffman.Leaf(CharToIdx(ch), score)] && Second() == old(Second())
    {
      var x := Node(-1, -1, [ch]);
      var n := |tree|;
      LeafAdded(tree, scores, Q1[q1_head..], Q2[q2_head..], score, ch);
      TailSnoc(Q1, q1_head, (score, n));
      tree := tree + [x];
      Q1 := Q1 + [(score, n)];
    }

    /** Walks down from `root`, at each node to the child whose string has the character. */
    method Walk(root: nat, target: char) returns (code: string)
      requires Shape() && root < |tree| && InCharset(target)
               && Huffman.Has(TreeAt(tree, scores, root), CharToIdx(target))
      ensures code == Huffman.Code(TreeAt(tree, scores, root), CharToIdx(target))
    {
      code := "";
      var curr := root;
      ghost var whole := Huffman.Path(TreeAt(tree, scores, root), CharToIdx(target));
      WalkStart(tree, scores, root, target);
      while tree[curr].left != -1
        invariant 0 <= curr < |tree| && Linked(tree) && |scores| == CSIZE
                  && Ahead(tree, scores, curr, target, code, whole)
        decreases curr
      {
        var l, r := tree[curr].left, tree[curr].right;
        WalkStep(tree, scores, curr, target, code, whole);
        if target in tree[l].chars {
          code, curr := code + "0", l;
        } else {
          code, curr := code + "1", r;
        }
      }
      WalkEnd(tree, scores, root, curr, target, code);
      if code == "" { code := "0"; }
    }
  }

  /** The walk is at node `curr` and has `code` of the `whole` path behind it. */
  ghost predicate Ahead(ns: seq<Node>, scores: seq<nat>, curr: nat, target: char, code: string, whole: string)
    requires Linked(ns) && curr < |ns| && |scores| == CSIZE && InCharset(target)
  {
    var t := TreeAt(ns, scores, curr);
    Huffman.Has(t, CharToIdx(target)) && code + Huffman.Path(t, CharToIdx(target)) == whole
  }

  lemma WalkStart(ns: seq<Node>, scores: seq<nat>, root: nat, target: char)
    requires Linked(ns) && root < |ns| && |scores| == CSIZE && InCharset(target)
    requires Huffman.Has(TreeAt(ns, scores, root), CharToIdx(target))
    ensures Ahead(ns, scores, root, target, "", Huffman.Path(TreeAt(ns, scores, root), CharToIdx(target)))
  {
  }

  lemma WalkEnd(ns: seq<Node>, scores: seq<nat>, root: nat, curr: nat, target: char, code: string)
    requires Linked(ns) && root < |ns| && curr < |ns| && |scores| == CSIZE && InCharset(target) && ns[curr].left == -1
    requires Huffman.Has(TreeAt(ns, scores, root), CharToIdx(target))
    requires Ahead(ns, scores, curr, target, code, Huffman.Path(TreeAt(ns, scores, root), CharToIdx(target)))
    ensures Huffman.Code(TreeAt(ns, scores, root), CharToIdx(target)) == if code == "" then "0" else code
  {
    assert code + "" == code;
  }

  lemma WalkStep(ns: seq<Node>, scores: seq<nat>, curr: nat, target: char, code: string, whole: string)
    requires Linked(ns) && curr < |ns| && |scores| == CSIZE && InCharset(target)
    requires Ahead(ns, scores, curr, target, code, whole) && ns[curr].left != -1
    ensures if target in ns[ns[curr].left].chars then Ahead(ns, scores, ns[curr].left, target, code + "0", whole)
            else Ahead(ns, scores, ns[curr].right, target, code + "1", whole)
  {
    CharsHas(ns, scores, ns[curr].left, target);
    var next, bit := ns[curr].right, "1";
    if target in ns[ns[curr].left].chars { next, bit := ns[curr].left, "0"; }
    Regrouped(code, bit, Huffman.Path(TreeAt(ns, scores, next), CharToIdx(target)));
  }

  /** `encode_char_fast`, the scores being given: the code of `target` in the score tree. */
  method EncodeCharFast(scores: seq<nat>, target: char) returns (code: string)
    requires |scores| == CSIZE && InCharset(target)
    ensures Huffman.Has(Huffman.ScoreTree(scores), CharToIdx(target))
    ensures code == Huffman.Code(Huffman.ScoreTree(scores), CharToIdx(target))
  {
    Huffman.ScoreTreeHas(scores, CharToIdx(target));
    var items := StableSort.SortedTo(scores, CSIZE);
    var qs := new Queues(scores);
    ghost var f := LeafList(scores, items);
    for i := 0 to CSIZE
      invariant qs.Shape() && qs.q1_head == 0 && qs.First() == f[..i] && qs.Second() == []
    {
      qs.AddLeaf(scores[items[i]], IdxToChar(items[i]));
    }
    SortedLeaves(scores, CSIZE);
    Huffman.ForestSorted(scores, CSIZE);
    ghost var q, limit := Huffman.Forest(scores, CSIZE), 0;
    assert qs.First() == q;
    while (|qs.Q1| - qs.q1_head) + (|qs.Q2| - qs.q2_head) > 1
      invariant qs.Ready(q, limit) && q != [] && Huffman.Merged(q) == Huffman.ScoreTree(scores)
      decreases |q|
    {
      limit := qs.MergeTwo(q, limit);
      q := Huffman.MergeStep(q);
    }
    var root := if qs.q1_head < |qs.Q1| then qs.Q1[qs.q1_head].1 else qs.Q2[qs.q2_head].1;
    code := qs.Walk(root, target);
  }
}
