/** `HuffPool`: the array heap of the score tree (CUDA_sample/test/C3/tlforce.cpp). */
module HuffmanPool {
  import opened Sequences
  import opened StableSort
  import opened Charset
  import Huffman

  const POOL: nat := 72

  datatype HNode = HNode(score: nat, counter: nat, ch: int, left: int, right: int)

  // ---------- heaps ----------

  function Parent(i: nat): nat
    requires i > 0
  {
    (i - 1) / 2
  }

  function Swap(h: seq<nat>, i: nat, j: nat): (r: seq<nat>)
    requires i < |h| && j < |h|
    ensures |r| == |h|
  {
    h[i := h[j]][j := h[i]]
  }

  ghost predicate NotAfter(keys: seq<nat>, a: nat, b: nat)
    requires a < |keys| && b < |keys|
  {
    a == b || Before(keys, a, b)
  }

  /** No node comes before its parent, except perhaps node `k`; its children do not come before its parent. */
  ghost predicate HeapBut(keys: seq<nat>, h: seq<nat>, k: int)
    requires Indices(keys, h)
  {
    && (forall i | 0 < i < |h| && i != k :: NotAfter(keys, h[Parent(i)], h[i]))
    && (forall i | 0 < i < |h| && Parent(i) == k && k > 0 :: NotAfter(keys, h[Parent(k)], h[i]))
  }

  /** The same for a node `k` that may come after its children. */
  ghost predicate HeapAbove(keys: seq<nat>, h: seq<nat>, k: int)
    requires Indices(keys, h)
  {
    && (forall i | 0 < i < |h| && Parent(i) != k :: NotAfter(keys, h[Parent(i)], h[i]))
    && (forall i | 0 < i < |h| && Parent(i) == k && k > 0 :: NotAfter(keys, h[Parent(k)], h[i]))
  }

  ghost predicate IsHeap(keys: seq<nat>, h: seq<nat>)
    requires Indices(keys, h)
  {
    forall i | 0 < i < |h| :: NotAfter(keys, h[Parent(i)], h[i])
  }

  lemma SiftUpStep(keys: seq<nat>, h: seq<nat>, k: nat)
    requires Indices(keys, h) && 0 < k < |h| && HeapBut(keys, h, k) && Before(keys, h[k], h[Parent(k)])
    ensures Indices(keys, Swap(h, k, Parent(k))) && HeapBut(keys, Swap(h, k, Parent(k)), Parent(k))
    ensures multiset(Swap(h, k, Parent(k))) == multiset(h)
  {
    var p, r := Parent(k), Swap(h, k, Parent(k));
    forall i | 0 < i < |r| && i != p
      ensures NotAfter(keys, r[Parent(i)], r[i])
    {
      if i != k {
        assert NotAfter(keys, h[Parent(i)], h[i]);
        if Parent(i) == k { assert NotAfter(keys, h[p], h[i]); }
      }
    }
    if p > 0 {
      assert NotAfter(keys, h[Parent(p)], h[p]);
      forall i | 0 < i < |r| && Parent(i) == p
        ensures NotAfter(keys, r[Parent(p)], r[i])
      {
        if i != k { assert NotAfter(keys, h[Parent(i)], h[i]); }
      }
    }
  }

  lemma SiftDownStep(keys: seq<nat>, h: seq<nat>, k: nat, c: nat)
    requires Indices(keys, h) && 0 < c < |h| && Parent(c) == k && HeapAbove(keys, h, k) && Before(keys, h[c], h[k])
    requires forall i | 0 < i < |h| && Parent(i) == k :: NotAfter(keys, h[c], h[i])
    ensures Indices(keys, Swap(h, k, c)) && HeapAbove(keys, Swap(h, k, c), c)
    ensures multiset(Swap(h, k, c)) == multiset(h)
  {
    var r := Swap(h, k, c);
    forall i | 0 < i < |r| && Parent(i) != c
      ensures NotAfter(keys, r[Parent(i)], r[i])
    {
      if Parent(i) != k {
        assert NotAfter(keys, h[Parent(i)], h[i]);
        if i == k { assert NotAfter(keys, h[Parent(k)], h[c]); }
      } else {
        assert NotAfter(keys, h[c], h[i]);
      }
    }
    forall i | 0 < i < |r| && Parent(i) == c
      ensures NotAfter(keys, r[Parent(c)], r[i])
    {
      assert NotAfter(keys, h[Parent(i)], h[i]);
    }
  }

  /** `h`, a heap but for a node `k` that may have to rise, holds the indices of `q`. (`depth`, always left at
      its default, keeps the definition folded.) */
  ghost predicate Rising(keys: seq<nat>, h: seq<nat>, q: seq<nat>, k: nat, depth: nat := 3)
    decreases |h|, depth
  {
    if depth > 0 then Rising(keys, h, q, k, depth - 1)
    else
      && Indices(keys, h) && Indices(keys, q)
      && HeapBut(keys, h, k) && InOrder(keys, q) && multiset(h) == multiset(q)
  }

  lemma RisingDef(keys: seq<nat>, h: seq<nat>, q: seq<nat>, k: nat)
    ensures Rising(keys, h, q, k) <==>
            && Indices(keys, h) && Indices(keys, q)
            && HeapBut(keys, h, k) && InOrder(keys, q) && multiset(h) == multiset(q)
  {
    assert Rising(keys, h, q, k, 1) == Rising(keys, h, q, k, 0);
    assert Rising(keys, h, q, k, 2) == Rising(keys, h, q, k, 1);
  }

  lemma RisingIndices(keys: seq<nat>, h: seq<nat>, q: seq<nat>, k: nat)
    requires Rising(keys, h, q, k) && k < |h|
    ensures h[k] < |keys| && (k > 0 ==> h[Parent(k)] < |keys|)
  {
    RisingDef(keys, h, q, k);
  }

  lemma RisingStep(keys: seq<nat>, h: seq<nat>, q: seq<nat>, k: nat)
    requires Rising(keys, h, q, k) && 0 < k < |h|
    requires h[k] < |keys| && h[Parent(k)] < |keys| && Before(keys, h[k], h[Parent(k)])
    ensures Rising(keys, Swap(h, k, Parent(k)), q, Parent(k))
  {
    RisingDef(keys, h, q, k);
    SiftUpStep(keys, h, k);
    RisingDef(keys, Swap(h, k, Parent(k)), q, Parent(k));
  }

  lemma Risen(keys: seq<nat>, h: seq<nat>, q: seq<nat>, k: nat)
    requires Rising(keys, h, q, k) && k < |h|
    requires k > 0 ==> h[k] < |keys| && h[Parent(k)] < |keys| && !Before(keys, h[k], h[Parent(k)])
    ensures Holds(keys, h, q)
  {
    RisingDef(keys, h, q, k);
  }

  /** The same for a node `k` that may have to sink. */
  ghost predicate Sinking(keys: seq<nat>, h: seq<nat>, q: seq<nat>, k: nat, depth: nat := 3)
    decreases |h|, depth
  {
    if depth > 0 then Sinking(keys, h, q, k, depth - 1)
    else
      && Indices(keys, h) && Indices(keys, q)
      && HeapAbove(keys, h, k) && InOrder(keys, q) && multiset(h) == multiset(q)
  }

  lemma SinkingDef(keys: seq<nat>, h: seq<nat>, q: seq<nat>, k: nat)
    ensures Sinking(keys, h, q, k) <==>
            && Indices(keys, h) && Indices(keys, q)
            && HeapAbove(keys, h, k) && InOrder(keys, q) && multiset(h) == multiset(q)
  {
    assert Sinking(keys, h, q, k, 1) == Sinking(keys, h, q, k, 0);
    assert Sinking(keys, h, q, k, 2) == Sinking(keys, h, q, k, 1);
  }

  lemma SinkingIndices(keys: seq<nat>, h: seq<nat>, q: seq<nat>, k: nat)
    requires Sinking(keys, h, q, k)
    ensures Indices(keys, h)
  {
    SinkingDef(keys, h, q, k);
  }

  lemma SinkingStep(keys: seq<nat>, h: seq<nat>, q: seq<nat>, k: nat, c: nat)
    requires Sinking(keys, h, q, k) && 0 < c < |h| && Parent(c) == k
    requires Indices(keys, h) && Before(keys, h[c], h[k])
    requires forall i | 0 < i < |h| && Parent(i) == k :: NotAfter(keys, h[c], h[i])
    ensures Sinking(keys, Swap(h, k, c), q, c)
  {
    SinkingDef(keys, h, q, k);
    SiftDownStep(keys, h, k, c);
    SinkingDef(keys, Swap(h, k, c), q, c);
  }

  lemma Sunk(keys: seq<nat>, h: seq<nat>, q: seq<nat>, k: nat)
    requires Sinking(keys, h, q, k) && k < |h| && Indices(keys, h)
    requires forall i | 0 < i < |h| && Parent(i) == k :: NotAfter(keys, h[k], h[i])
    ensures Holds(keys, h, q)
  {
    SinkingDef(keys, h, q, k);
    forall i | 0 < i < |h| ensures NotAfter(keys, h[Parent(i)], h[i]) { }
  }

  /** The root of a heap comes first. */
  lemma {:induction false} RootFirst(keys: seq<nat>, h: seq<nat>, i: nat)
    requires Indices(keys, h) && i < |h| && IsHeap(keys, h)
    ensures NotAfter(keys, h[0], h[i])
  {
    if i > 0 { RootFirst(keys, h, Parent(i)); }
  }

  /** The heap `h` holds the indices of `q`, which is in order. */
  ghost predicate Holds(keys: seq<nat>, h: seq<nat>, q: seq<nat>) {
    && Indices(keys, h) && Indices(keys, q)
    && IsHeap(keys, h) && InOrder(keys, q) && multiset(h) == multiset(q)
  }

  lemma RootIsFirst(keys: seq<nat>, h: seq<nat>, q: seq<nat>)
    requires Holds(keys, h, q) && h != []
    ensures q != [] && h[0] == q[0] && |h| == |q|
  {
    SameLength(h, q);
    assert h[0] in multiset(h);
    forall i | 0 <= i < |q| ensures q[i] == h[0] || Before(keys, h[0], q[i]) {
      assert q[i] in multiset(h);
      var j :| 0 <= j < |h| && h[j] == q[i];
      RootFirst(keys, h, j);
    }
    FirstUnique(keys, q, h[0]);
  }

  lemma SameLength(h: seq<nat>, q: seq<nat>)
    requires multiset(h) == multiset(q)
    ensures |h| == |q|
  {
    assert |multiset(h)| == |h| && |multiset(q)| == |q|;
  }

  lemma Appended(keys: seq<nat>, h: seq<nat>, q: seq<nat>, x: nat)
    requires Holds(keys, h, q) && x < |keys| && x !in q
    ensures Rising(keys, h + [x], Insert(keys, q, x), |h|)
  {
    InsertContents(keys, q, x);
    InsertOrder(keys, q, x);
    forall i | 0 < i < |h| + 1 && i != |h|
      ensures NotAfter(keys, (h + [x])[Parent(i)], (h + [x])[i])
    {
      assert NotAfter(keys, h[Parent(i)], h[i]);
    }
    RisingDef(keys, h + [x], Insert(keys, q, x), |h|);
  }

  lemma Replanted(h: seq<nat>)
    requires |h| >= 2
    ensures multiset(h[..|h| - 1][0 := h[|h| - 1]]) + multiset{h[0]} == multiset(h)
  {
    var last, mid := h[|h| - 1], h[1..|h| - 1];
    assert h[..|h| - 1][0 := last] == [last] + mid;
    assert h == [h[0]] + mid + [last];
  }

  lemma Cancelled(a: multiset<nat>, b: multiset<nat>, x: nat)
    requires a + multiset{x} == b + multiset{x}
    ensures a == b
  {
    assert a == (a + multiset{x}) - multiset{x} == (b + multiset{x}) - multiset{x} == b;
  }

  /** What is left when the last node has taken the place of the root. */
  lemma Uprooted(keys: seq<nat>, h: seq<nat>, q: seq<nat>)
    requires Holds(keys, h, q) && |h| >= 2
    ensures q != [] && Sinking(keys, h[..|h| - 1][0 := h[|h| - 1]], q[1..], 0)
  {
    var r := h[..|h| - 1][0 := h[|h| - 1]];
    RootIsFirst(keys, h, q);
    Replanted(h);
    assert q == [q[0]] + q[1..];
    Cancelled(multiset(r), multiset(q[1..]), h[0]);
    forall i | 0 < i < |r| && Parent(i) != 0
      ensures NotAfter(keys, r[Parent(i)], r[i])
    {
      assert NotAfter(keys, h[Parent(i)], h[i]);
    }
    SinkingDef(keys, r, q[1..], 0);
  }

  // ---------- trees in the pool ----------

  ghost function Keys(ns: seq<HNode>): (k: seq<nat>)
    ensures |k| == |ns| && forall i | 0 <= i < |ns| :: k[i] == ns[i].score
  {
    seq(|ns|, i requires 0 <= i < |ns| => ns[i].score)
  }

  /** Every node's counter is its index, and inner nodes refer to earlier ones. */
  ghost predicate Linked(ns: seq<HNode>) {
    forall i | 0 <= i < |ns| ::
      && ns[i].counter == i && ns[i].ch >= -1
      && (ns[i].ch == -1 ==> 0 <= ns[i].left < i && 0 <= ns[i].right < i)
  }

  ghost function TreeAt(ns: seq<HNode>, i: nat): Huffman.Tree
    requires Linked(ns) && i < |ns|
  {
    if ns[i].ch >= 0 then Huffman.Leaf(ns[i].ch, ns[i].score)
    else Huffman.Branch(TreeAt(ns, ns[i].left), TreeAt(ns, ns[i].right))
  }

  /** Every node carries the score of its tree. */
  ghost predicate Scored(ns: seq<HNode>)
    requires Linked(ns)
  {
    forall i | 0 <= i < |ns| :: Huffman.Score(TreeAt(ns, i)) == ns[i].score
  }

  lemma {:induction false} TreeKept(ns: seq<HNode>, x: HNode, i: nat)
    requires Linked(ns) && Linked(ns + [x]) && i < |ns|
    ensures TreeAt(ns + [x], i) == TreeAt(ns, i)
  {
    if ns[i].ch < 0 {
      TreeKept(ns, x, ns[i].left);
      TreeKept(ns, x, ns[i].right);
    }
  }

  ghost function Trees(ns: seq<HNode>, q: seq<nat>): (t: seq<Huffman.Tree>)
    requires Linked(ns) && Indices(Keys(ns), q)
    ensures |t| == |q|
  {
    seq(|q|, i requires 0 <= i < |q| => TreeAt(ns, q[i]))
  }

  /** Queueing the newest node puts its tree behind all trees of the same score. */
  lemma {:induction false} InsertTree(ns: seq<HNode>, q: seq<nat>)
    requires ns != [] && Linked(ns) && Scored(ns) && Indices(Keys(ns), q) && |ns| - 1 !in q
    ensures Trees(ns, Insert(Keys(ns), q, |ns| - 1)) == Huffman.Insert(Trees(ns, q), TreeAt(ns, |ns| - 1))
  {
    var x, t := |ns| - 1, TreeAt(ns, |ns| - 1);
    if q == [] {
    } else {
      assert q[0] in q;
      assert Before(Keys(ns), x, q[0]) <==> Huffman.Score(t) < Huffman.Score(TreeAt(ns, q[0]));
      if !Before(Keys(ns), x, q[0]) {
        InsertTree(ns, q[1..]);
        assert Trees(ns, q)[1..] == Trees(ns, q[1..]);
      }
    }
  }

  /** The node above the first two of the queue. */
  ghost function Above(ns: seq<HNode>, q: seq<nat>): HNode
    requires |q| >= 2 && Indices(Keys(ns), q)
  {
    HNode(ns[q[0]].score + ns[q[1]].score, |ns|, -1, q[0], q[1])
  }

  lemma AboveLinked(ns: seq<HNode>, q: seq<nat>)
    requires Linked(ns) && |q| >= 2 && Indices(Keys(ns), q)
    ensures Linked(ns + [Above(ns, q)])
  {
  }

  lemma Paired(ns: seq<HNode>, q: seq<nat>, ms: seq<HNode>)
    requires Linked(ns) && |q| >= 2 && Indices(Keys(ns), q) && ms == ns + [Above(ns, q)] && Linked(ms)
    ensures TreeAt(ms, |ns|) == Huffman.Branch(Trees(ns, q)[0], Trees(ns, q)[1])
  {
    TreeKept(ns, Above(ns, q), q[0]);
    TreeKept(ns, Above(ns, q), q[1]);
  }

  lemma TreesTail(ns: seq<HNode>, q: seq<nat>, n: nat)
    requires Linked(ns) && Indices(Keys(ns), q) && n <= |q|
    ensures Trees(ns, q)[n..] == Trees(ns, q[n..])
  {
  }

  /** Adding a node changes neither the order of the others nor their trees. */
  lemma NodeAdded(ns: seq<HNode>, x: HNode, h: seq<nat>, q: seq<nat>)
    requires Linked(ns) && Linked(ns + [x]) && Scored(ns) && Holds(Keys(ns), h, q)
    requires Huffman.Score(TreeAt(ns + [x], |ns|)) == x.score
    ensures Scored(ns + [x]) && Holds(Keys(ns + [x]), h, q) && Trees(ns + [x], q) == Trees(ns, q) && |ns| !in q
  {
    forall i | 0 <= i < |ns| ensures TreeAt(ns + [x], i) == TreeAt(ns, i) { TreeKept(ns, x, i); }
  }

  class HuffPool {
    const nodes: array<HNode>
    const heap: array<nat>
    var heap_size: nat
    var node_cnt: nat

    constructor ()
      ensures Shape() && fresh(nodes) && fresh(heap)
    {
      nodes := new HNode[POOL](_ => HNode(0, 0, -1, -1, -1));
      heap := new nat[POOL](_ => 0);
      heap_size, node_cnt := 0, 0;
    }

    ghost predicate Shape()
      reads this
    {
      nodes.Length == POOL && heap.Length == POOL && heap_size <= POOL && node_cnt <= POOL
    }

    ghost function Pool(): seq<HNode>
      requires Shape()
      reads this, nodes
    {
      nodes[..node_cnt]
    }

    ghost function Heap(): seq<nat>
      requires Shape()
      reads this, heap
    {
      heap[..heap_size]
    }

    /** The nodes form trees, and the heap holds those of `q`. */
    ghost predicate Queue(q: seq<nat>)
      reads this, nodes, heap
    {
      Shape() && Linked(Pool()) && Scored(Pool()) && Holds(Keys(Pool()), Heap(), q)
    }

    /** The comparison of the heap. */
    predicate Less(a: nat, b: nat)
      requires Shape() && Linked(Pool()) && a < node_cnt && b < node_cnt
      reads this, nodes
      ensures Less(a, b) == Before(Keys(Pool()), a, b)
    {
      assert Pool()[a] == nodes[a] && Pool()[b] == nodes[b];
      nodes[a].score < nodes[b].score || (nodes[a].score == nodes[b].score && nodes[a].counter < nodes[b].counter)
    }

    method Push(idx: nat, ghost q: seq<nat>)
      requires Queue(q) && heap_size < POOL && idx < node_cnt && idx !in q
      modifies heap, `heap_size
      ensures Queue(old(Insert(Keys(Pool()), q, idx))) && heap_size == old(heap_size) + 1
    {
      ghost var ks, h0 := Keys(Pool()), Heap();
      heap[heap_size] := idx;
      heap_size := heap_size + 1;
      Appended(ks, h0, q, idx);
      assert Heap() == h0 + [idx];
      SiftUp(Insert(ks, q, idx));
    }

    method SiftUp(ghost q: seq<nat>)
      requires Shape() && Linked(Pool()) && Scored(Pool()) && heap_size > 0
      requires Rising(Keys(Pool()), Heap(), q, heap_size - 1)
      modifies heap
      ensures Queue(q)
    {
      ghost var ks := Keys(Pool());
      var i := heap_size - 1;
      while i > 0
        invariant 0 <= i < heap_size && Rising(ks, Heap(), q, i)
        decreases i
      {
        var p := (i - 1) / 2;
        RisingIndices(ks, Heap(), q, i);
        if Less(heap[i], heap[p]) {
          RisingStep(ks, Heap(), q, i);
          SwapHeap(i, p);
          i := p;
        } else {
          break;
        }
      }
      Risen(ks, Heap(), q, i);
    }

    method SwapHeap(i: nat, j: nat)
      requires Shape() && i < heap_size && j < heap_size
      modifies heap
      ensures Heap() == Swap(old(Heap()), i, j)
    {
      heap[i], heap[j] := heap[j], heap[i];
    }

    method Pop(ghost q: seq<nat>) returns (top: nat)
      requires Queue(q) && heap_size > 0
      modifies heap, `heap_size
      ensures q != [] && top == q[0] && Queue(q[1..]) && heap_size == old(heap_size) - 1
    {
      ghost var ks, h0 := Keys(Pool()), Heap();
      RootIsFirst(ks, h0, q);
      if heap_size >= 2 { Uprooted(ks, h0, q); }
      top := heap[0];
      heap_size := heap_size - 1;
      heap[0] := heap[heap_size];
      if heap_size == 0 {
        assert q[1..] == [] && Heap() == [];
      } else {
        assert Heap() == h0[..|h0| - 1][0 := h0[|h0| - 1]];
        SiftDown(q[1..]);
      }
    }

    method SiftDown(ghost q: seq<nat>)
      requires Shape() && Linked(Pool()) && Scored(Pool()) && heap_size > 0
      requires Sinking(Keys(Pool()), Heap(), q, 0)
      modifies heap
      ensures Queue(q)
    {
      ghost var ks := Keys(Pool());
      var i := 0;
      while true
        invariant i < heap_size && Sinking(ks, Heap(), q, i)
        decreases heap_size - i
      {
        SinkingIndices(ks, Heap(), q, i);
        var smallest := Smallest(i);
        if smallest == i { break; }
        SinkingStep(ks, Heap(), q, i, smallest);
        SwapHeap(i, smallest);
        i := smallest;
      }
      Sunk(ks, Heap(), q, i);
    }

    /** The first of a heap position and its children. */
    method Smallest(i: nat) returns (smallest: nat)
      requires Shape() && Linked(Pool()) && i < heap_size && Indices(Keys(Pool()), Heap())
      ensures i <= smallest < heap_size && (smallest != i ==> Parent(smallest) == i)
      ensures smallest != i ==> Before(Keys(Pool()), heap[smallest], heap[i])
      ensures NotAfter(Keys(Pool()), heap[smallest], heap[i])
      ensures forall j | 0 < j < heap_size && Parent(j) == i :: NotAfter(Keys(Pool()), heap[smallest], heap[j])
    {
      assert forall j | 0 <= j < heap_size :: Heap()[j] < node_cnt;
      var l, r := 2 * i + 1, 2 * i + 2;
      smallest := i;
      if l < heap_size && Less(heap[l], heap[smallest]) { smallest := l; }
      if r < heap_size && Less(heap[r], heap[smallest]) { smallest := r; }
      assert forall j | 0 < j < heap_size && Parent(j) == i :: j == l || j == r;
    }

    /** Appends the node `x` to the pool and queues it. */
    method AddNode(x: HNode, ghost q: seq<nat>) returns (ghost q': seq<nat>)
      requires Queue(q) && heap_size < POOL && node_cnt < POOL
      requires Linked(Pool() + [x]) && Huffman.Score(TreeAt(Pool() + [x], node_cnt)) == x.score
      modifies nodes, heap, `heap_size, `node_cnt
      ensures Queue(q') && Pool() == old(Pool()) + [x]
      ensures heap_size == old(heap_size) + 1 && node_cnt == old(node_cnt) + 1
      ensures Trees(Pool(), q') == Huffman.Insert(old(Trees(Pool(), q)), TreeAt(Pool(), old(node_cnt)))
    {
      ghost var ns, h := Pool(), Heap();
      NodeAdded(ns, x, h, q);
      nodes[node_cnt] := x;
      node_cnt := node_cnt + 1;
      assert Pool() == ns + [x] && Heap() == h;
      InsertTree(Pool(), q);
      q' := Insert(Keys(Pool()), q, node_cnt - 1);
      Push(node_cnt - 1, q);
    }

    method PopTwo(ghost q: seq<nat>) returns (a: nat, b: nat)
      requires Queue(q) && 2 <= heap_size && |q| == heap_size
      modifies heap, `heap_size
      ensures a == q[0] && b == q[1] && Queue(q[2..]) && heap_size == old(heap_size) - 2
    {
      a := Pop(q);
      b := Pop(q[1..]);
      assert q[1..][1..] == q[2..];
    }

    /** Takes two nodes off the queue and queues a node above them. */
    method MergeTwo(ghost q: seq<nat>) returns (ghost q': seq<nat>)
      requires Queue(q) && 2 <= heap_size && node_cnt < POOL && |q| == heap_size
      modifies nodes, heap, `heap_size, `node_cnt
      ensures Queue(q') && heap_size == old(heap_size) - 1 && node_cnt == old(node_cnt) + 1 && |q'| == heap_size
      ensures Trees(Pool(), q') == Huffman.MergeStep(old(Trees(Pool(), q)))
    {
      ghost var ns := Pool();
      var a, b := PopTwo(q);
      assert ns[a] == nodes[a] && ns[b] == nodes[b];
      AboveLinked(ns, q);
      Paired(ns, q, ns + [Above(ns, q)]);
      TreesTail(ns, q, 2);
      q' := AddNode(HNode(nodes[a].score + nodes[b].score, node_cnt, -1, a, b), q[2..]);
    }

    /** `HuffPool::build`: the heap is left with the root of the merged tree of the 36 scored characters. */
    method Build(scores: seq<nat>)
      requires Shape() && |scores| == CSIZE
      modifies nodes, heap, `heap_size, `node_cnt
      ensures Shape() && heap_size == 1 && Linked(Pool()) && heap[0] < node_cnt
      ensures TreeAt(Pool(), heap[0]) == Huffman.ScoreTree(scores)
    {
      heap_size, node_cnt := 0, 0;
      ghost var q: seq<nat> := [];
      for i := 0 to CSIZE
        invariant Queue(q) && node_cnt == heap_size == |q| == i && Trees(Pool(), q) == Huffman.Forest(scores, i)
      {
        q := AddNode(HNode(scores[i], node_cnt, i, -1, -1), q);
      }
      ghost var goal := Huffman.ScoreTree(scores);
      while heap_size > 1
        invariant Queue(q) && 1 <= heap_size == |q| && node_cnt + heap_size == POOL
        invariant Huffman.Merged(Trees(Pool(), q)) == goal
        decreases heap_size
      {
        q := MergeTwo(q);
      }
      RootIsFirst(Keys(Pool()), Heap(), q);
      assert heap[0] == Heap()[0];
    }

    /** `gen_code_for`: the code of character `target`, found by a depth-first search from `root`. */
    method GenCodeFor(root: nat, target: nat) returns (out: string)
      requires Shape() && Linked(Pool()) && root < node_cnt && Huffman.Has(TreeAt(Pool(), root), target)
      ensures out == Huffman.Code(TreeAt(Pool(), root), target)
    {
      var path := new char[128](_ => ' ');
      var found;
      found, out := Dfs(root, target, path, 0);
      assert path[..0] == [];
    }

    /** The search below node `idx`, whose path from the root is `path[..depth]`; the buffer is long enough. */
    method Dfs(idx: nat, target: nat, path: array<char>, depth: nat) returns (found: bool, out: string)
      requires Shape() && Linked(Pool()) && idx < node_cnt && path.Length == 128 && depth + idx < 128
      modifies path
      ensures path[..depth] == old(path[..depth])
      ensures found <==> Huffman.Has(TreeAt(Pool(), idx), target)
      ensures found ==> out == Huffman.OrZero(old(path[..depth]) + Huffman.Path(TreeAt(Pool(), idx), target))
      decreases idx
    {
      out := "";
      assert Pool()[idx] == nodes[idx];
      var n := nodes[idx];
      if n.ch != -1 {
        if n.ch == target {
          path[depth] := '\0';
          out := path[..depth];
          assert out + "" == out;
          if out == "" { out := "0"; }
          return true, out;
        }
        return false, out;
      }
      ghost var before := path[..depth];
      path[depth] := '0';
      assert path[..depth + 1] == before + "0";
      found, out := Dfs(n.left, target, path, depth + 1);
      Prefix(path, before, '0');
      if found {
        Regrouped(before, "0", Huffman.Path(TreeAt(Pool(), n.left), target));
        return;
      }
      path[depth] := '1';
      assert path[..depth + 1] == before + "1";
      found, out := Dfs(n.right, target, path, depth + 1);
      Prefix(path, before, '1');
      if found { Regrouped(before, "1", Huffman.Path(TreeAt(Pool(), n.right), target)); }
    }
  }

  lemma Prefix(path: array<char>, before: string, c: char)
    requires |before| < path.Length && path[..|before| + 1] == before + [c]
    ensures path[..|before|] == before
  {
    assert path[..|before| + 1][..|before|] == path[..|before|];
  }
}
