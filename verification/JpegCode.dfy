/** The Huffman codes of JPEG as ITU-T T.81, annex C, derives them from the number of codes of each length. */
module JpegCode {
  import opened Bits

  // ---------- the list of code sizes (C.2, figure C.1) ----------

  function SizesTo(count: seq<nat>, m: nat): (s: seq<nat>)
    requires m <= |count|
    ensures |s| == Index(count, m)
  {
    if m == 0 then [] else SizesTo(count, m - 1) + seq(count[m - 1], _ => m)
  }

  /** The number of codes of at most `m` bits. */
  function Index(count: seq<nat>, m: nat): nat
    requires m <= |count|
  {
    if m == 0 then 0 else Index(count, m - 1) + count[m - 1]
  }

  function Sizes(count: seq<nat>): seq<nat>
    requires |count| == 16
  {
    SizesTo(count, |count|)
  }

  lemma {:induction false} SizeAt(count: seq<nat>, m: nat, j: nat, i: nat)
    requires 1 <= j <= m <= |count| && Index(count, j - 1) <= i < Index(count, j)
    ensures i < |SizesTo(count, m)| && SizesTo(count, m)[i] == j
    decreases m
  {
    if j < m {
      SizeAt(count, m - 1, j, i);
    }
  }

  lemma {:induction false} SizeAfter(count: seq<nat>, m: nat, j: nat, i: nat)
    requires j <= m <= |count| && Index(count, j) <= i < |SizesTo(count, m)|
    ensures SizesTo(count, m)[i] > j
    decreases m
  {
    if i < Index(count, m - 1) { SizeAfter(count, m - 1, j, i); }
  }

  lemma {:induction false} IndexMono(count: seq<nat>, j: nat, m: nat)
    requires j <= m <= |count|
    ensures Index(count, j) <= Index(count, m)
    decreases m
  {
    if j < m { IndexMono(count, j, m - 1); }
  }

  /** Codes in the order of the table: sizes from 1 to 16, none less than the one before. */
  ghost predicate Ordered(sizes: seq<nat>) {
    && (forall i | 0 <= i < |sizes| :: 1 <= sizes[i] <= 16)
    && (forall i, k | 0 <= i < k < |sizes| :: sizes[i] <= sizes[k])
  }

  lemma {:induction false} SizesOrdered(count: seq<nat>, m: nat)
    requires m <= |count| && m <= 16
    ensures Ordered(SizesTo(count, m)) && forall i | 0 <= i < |SizesTo(count, m)| :: SizesTo(count, m)[i] <= m
  {
    if m > 0 { SizesOrdered(count, m - 1); }
  }

  // ---------- the codes (C.2, figure C.2) ----------

  function Code(sizes: seq<nat>, i: nat): nat
    requires i < |sizes|
  {
    if i == 0 then 0
    else (Code(sizes, i - 1) + 1) * Pow2(if sizes[i] >= sizes[i - 1] then sizes[i] - sizes[i - 1] else 0)
  }

  /** The bits of a code, in the order in which they are sent. */
  function CodeBits(sizes: seq<nat>, i: nat): (b: seq<bool>)
    requires i < |sizes|
    ensures |b| == sizes[i]
  {
    MsbBits(Code(sizes, i), sizes[i])
  }

  /** The 16-bit strings that code `i` starts are, as numbers, those from `Low(i)` up to `Low(i + 1)`. */
  function Low(sizes: seq<nat>, i: nat): nat
    requires i <= |sizes|
  {
    if i == 0 then 0 else Low(sizes, i - 1) + Pow2(if sizes[i - 1] <= 16 then 16 - sizes[i - 1] else 0)
  }

  /** There is room for all the codes (Kraft's inequality, multiplied by 2^16). */
  predicate Room(sizes: seq<nat>) { Low(sizes, |sizes|) <= 0x1_0000 }

  lemma {:induction false} LowMono(sizes: seq<nat>, i: nat, k: nat)
    requires i <= k <= |sizes|
    ensures Low(sizes, i) <= Low(sizes, k)
    ensures i < k ==> Low(sizes, i) < Low(sizes, k)
    decreases k
  {
    if i < k { LowMono(sizes, i, k - 1); }
  }

  lemma {:induction false} CodeLow(sizes: seq<nat>, i: nat)
    requires Ordered(sizes) && i < |sizes|
    ensures Code(sizes, i) * Pow2(16 - sizes[i]) == Low(sizes, i)
    ensures (Code(sizes, i) + 1) * Pow2(16 - sizes[i]) == Low(sizes, i + 1)
  {
    if i > 0 {
      CodeLow(sizes, i - 1);
      var d := sizes[i] - sizes[i - 1];
      Pow2Add(d, 16 - sizes[i]);
      MulAssoc(Code(sizes, i - 1) + 1, Pow2(d), Pow2(16 - sizes[i]));
    }
    MulDistrib(Code(sizes, i), 1, Pow2(16 - sizes[i]));
  }

  lemma CodeSmall(sizes: seq<nat>, i: nat)
    requires Ordered(sizes) && Room(sizes) && i < |sizes|
    ensures Code(sizes, i) < Pow2(sizes[i]) <= 0x1_0000
  {
    var s := sizes[i];
    CodeLow(sizes, i);
    LowMono(sizes, i + 1, |sizes|);
    Pow2Add(s, 16 - s);
    Pow2Small();
    Pow2Mono(s, 16);
    Below(Code(sizes, i), Pow2(s), Pow2(16 - s));
  }

  lemma Below(c: nat, q: nat, p: nat)
    requires p > 0 && (c + 1) * p <= q * p
    ensures c < q
  {
    if c >= q {
      MulMono(q, c, p);
      MulDistrib(c, 1, p);
    }
  }

  lemma Quotient(v: nat, c: nat, p: nat)
    requires p > 0
    ensures v / p == c <==> c * p <= v < (c + 1) * p
  {
    DivModDef(v, p);
    MulDistrib(c, 1, p);
    MulDistrib(v / p, 1, p);
    if c < v / p { MulMono(c + 1, v / p, p); } else if v / p < c { MulMono(v / p + 1, c, p); }
  }

  /** A code starts a string exactly when the string lies in its interval. */
  lemma CodeStarts(sizes: seq<nat>, i: nat, p: seq<bool>)
    requires Ordered(sizes) && Room(sizes) && i < |sizes| && |p| == 16
    ensures CodeBits(sizes, i) <= p <==> Low(sizes, i) <= MsbVal(p) < Low(sizes, i + 1)
  {
    var s := sizes[i];
    CodeLow(sizes, i);
    CodeSmall(sizes, i);
    MsbPrefix(p, s);
    ShrDiv(MsbVal(p), 16 - s);
    Quotient(MsbVal(p), Code(sizes, i), Pow2(16 - s));
    MsbValBits(Code(sizes, i), s);
    MsbBitsVal(p[..s]);
    assert CodeBits(sizes, i) <= p <==> CodeBits(sizes, i) == p[..s];
  }

  /** The codes cover the numbers below `Low(|sizes|)` without gaps. */
  lemma {:induction false} Owner(sizes: seq<nat>, n: nat, v: nat) returns (i: nat)
    requires n <= |sizes| && v < Low(sizes, n)
    ensures i < n && Low(sizes, i) <= v < Low(sizes, i + 1)
  {
    if v >= Low(sizes, n - 1) { i := n - 1; } else { i := Owner(sizes, n - 1, v); }
  }

  lemma OneOwner(sizes: seq<nat>, i: nat, k: nat, v: nat)
    requires i < |sizes| && k < |sizes| && Low(sizes, i) <= v < Low(sizes, i + 1)
             && Low(sizes, k) <= v < Low(sizes, k + 1)
    ensures i == k
  {
    if i < k { LowMono(sizes, i + 1, k); } else if k < i { LowMono(sizes, k + 1, i); }
  }

  /** No code starts the string. */
  ghost predicate NoCode(sizes: seq<nat>, p: seq<bool>) { forall i | 0 <= i < |sizes| :: !(CodeBits(sizes, i) <= p) }

  lemma NoOwner(sizes: seq<nat>, p: seq<bool>)
    requires Ordered(sizes) && Room(sizes) && |p| == 16
    ensures MsbVal(p) >= Low(sizes, |sizes|) <==> NoCode(sizes, p)
  {
    if MsbVal(p) < Low(sizes, |sizes|) {
      var i := Owner(sizes, |sizes|, MsbVal(p));
      CodeStarts(sizes, i, p);
    } else {
      forall i | 0 <= i < |sizes| ensures !(CodeBits(sizes, i) <= p) {
        CodeStarts(sizes, i, p);
        LowMono(sizes, i + 1, |sizes|);
      }
    }
  }

  /** At most one code starts a string of 16 bits or more. */
  lemma PrefixFree(sizes: seq<nat>, i: nat, k: nat, x: seq<bool>)
    requires Ordered(sizes) && Room(sizes) && i < |sizes| && k < |sizes|
    requires CodeBits(sizes, i) <= x && CodeBits(sizes, k) <= x
    ensures i == k
  {
    var p := (x + Zeros(16))[..16];
    assert CodeBits(sizes, i) <= p && CodeBits(sizes, k) <= p;
    CodeStarts(sizes, i, p);
    CodeStarts(sizes, k, p);
    OneOwner(sizes, i, k, MsbVal(p));
  }

  /** Among codes of one length `s`, from index `k` on, the interval number tells the index. */
  lemma {:induction false} LowRow(sizes: seq<nat>, k: nat, t: nat, s: nat)
    requires k + t <= |sizes| && s <= 16 && forall i | k <= i < k + t :: sizes[i] == s
    ensures Low(sizes, k + t) == Low(sizes, k) + t * Pow2(16 - s)
    decreases t
  {
    if t > 0 {
      LowRow(sizes, k, t - 1, s);
      MulDistrib(t - 1, 1, Pow2(16 - s));
    }
  }

  /** The first code of `j` bits. */
  function Base(count: seq<nat>, j: nat): nat
    requires j <= |count| + 1
  {
    if j <= 1 then 0 else 2 * (Base(count, j - 1) + count[j - 2])
  }

  lemma {:induction false} BaseLow(count: seq<nat>, j: nat)
    requires |count| == 16 && 1 <= j <= 16
    ensures Index(count, j) <= |Sizes(count)|
    ensures Base(count, j) * Pow2(16 - j) == Low(Sizes(count), Index(count, j - 1))
    ensures (Base(count, j) + count[j - 1]) * Pow2(16 - j) == Low(Sizes(count), Index(count, j))
  {
    var p := Pow2(16 - j);
    IndexMono(count, j, |count|);
    IndexMono(count, j - 1, |count|);
    if j > 1 {
      BaseLow(count, j - 1);
      MulAssoc(Base(count, j - 1) + count[j - 2], 2, p);
    }
    forall i | Index(count, j - 1) <= i < Index(count, j) ensures Sizes(count)[i] == j { SizeAt(count, |count|, j, i); }
    LowRow(Sizes(count), Index(count, j - 1), count[j - 1], j);
    MulDistrib(Base(count, j), count[j - 1], p);
  }
}
