/** Canonical Huffman codes as RFC 1951, section 3.2.2, derives them from a list of code lengths:
    shorter codes come first, and codes of one length are consecutive in symbol order. */
module Canonical {
  import opened Bits

  /** How many of the first `n` symbols have code length `s`. */
  function CountTo(lens: seq<nat>, n: nat, s: nat): (c: nat)
    requires n <= |lens|
  {
    if n == 0 then 0 else CountTo(lens, n - 1, s) + (if lens[n - 1] == s then 1 else 0)
  }

  function Count(lens: seq<nat>, s: nat): nat { CountTo(lens, |lens|, s) }

  /** The first code of length `s`. */
  function First(lens: seq<nat>, s: nat): nat
    decreases s, 0
  {
    if s <= 1 then 0 else 2 * End(lens, s - 1)
  }

  /** One past the last code of length `s`. */
  function End(lens: seq<nat>, s: nat): nat
    decreases s, 1
  {
    if s == 0 then 0 else First(lens, s) + Count(lens, s)
  }

  /** The number of used symbols, among the first `n`, whose code is shorter than `s`. */
  function ShorterTo(lens: seq<nat>, n: nat, s: nat): nat
    requires n <= |lens|
  {
    if s <= 1 then 0 else ShorterTo(lens, n, s - 1) + CountTo(lens, n, s - 1)
  }

  function FirstSymbol(lens: seq<nat>, s: nat): nat { ShorterTo(lens, |lens|, s) }

  predicate IsSym(lens: seq<nat>, i: nat) { i < |lens| && lens[i] > 0 }

  function Rank(lens: seq<nat>, i: nat): nat
    requires IsSym(lens, i)
  {
    CountTo(lens, i, lens[i])
  }

  function Code(lens: seq<nat>, i: nat): nat
    requires IsSym(lens, i)
  {
    First(lens, lens[i]) + Rank(lens, i)
  }

  /** The bits of a symbol, in the order in which they are sent. */
  function CodeBits(lens: seq<nat>, i: nat): (b: seq<bool>)
    requires IsSym(lens, i)
    ensures |b| == lens[i]
  {
    MsbBits(Code(lens, i), lens[i])
  }

  /** Code lengths an inflater can be given: at most 15 bits, and not over-subscribed
      (Kraft's inequality, multiplied by 2^15). */
  predicate Usable(lens: seq<nat>) {
    (forall i | 0 <= i < |lens| :: lens[i] <= 15) && End(lens, 15) <= Pow2(15)
  }

  /** The codes of length at most `s` are the prefixes of exactly the 16-bit strings below this. */
  function Limit(lens: seq<nat>, s: nat): nat
    requires s <= 16
  {
    End(lens, s) * Pow2(16 - s)
  }

  // ---------- counting ----------

  lemma {:induction false} CountMono(lens: seq<nat>, m: nat, n: nat, s: nat)
    requires m <= n <= |lens|
    ensures CountTo(lens, m, s) <= CountTo(lens, n, s)
    decreases n
  {
    if m < n { CountMono(lens, m, n - 1, s); }
  }

  lemma RankBound(lens: seq<nat>, i: nat)
    requires IsSym(lens, i)
    ensures Rank(lens, i) < Count(lens, lens[i])
  {
    CountMono(lens, i + 1, |lens|, lens[i]);
  }

  lemma RankInjective(lens: seq<nat>, i: nat, j: nat)
    requires IsSym(lens, i) && IsSym(lens, j) && lens[i] == lens[j] && Rank(lens, i) == Rank(lens, j)
    ensures i == j
  {
    if i < j {
      CountMono(lens, i + 1, j, lens[i]);
    } else if j < i {
      CountMono(lens, j + 1, i, lens[i]);
    }
  }

  /** Every rank below the count belongs to some symbol. */
  lemma {:induction false} SymbolOfRank(lens: seq<nat>, n: nat, s: nat, r: nat) returns (i: nat)
    requires n <= |lens| && s > 0 && r < CountTo(lens, n, s)
    ensures i < n && lens[i] == s && Rank(lens, i) == r
  {
    if lens[n - 1] == s && r == CountTo(lens, n - 1, s) {
      i := n - 1;
    } else {
      i := SymbolOfRank(lens, n - 1, s, r);
    }
  }

  lemma {:induction false} ShorterStep(lens: seq<nat>, n: nat, s: nat)
    requires n < |lens|
    ensures ShorterTo(lens, n + 1, s) == ShorterTo(lens, n, s) + (if 1 <= lens[n] < s then 1 else 0)
  {
    if s > 1 { ShorterStep(lens, n, s - 1); }
  }

  lemma {:induction false} ShorterBound(lens: seq<nat>, n: nat, s: nat)
    requires n <= |lens|
    ensures ShorterTo(lens, n, s) <= n
  {
    if n > 0 {
      ShorterBound(lens, n - 1, s);
      ShorterStep(lens, n - 1, s);
    } else {
      ShorterZero(lens, s);
    }
  }

  lemma {:induction false} ShorterZero(lens: seq<nat>, s: nat)
    ensures ShorterTo(lens, 0, s) == 0
  {
    if s > 1 { ShorterZero(lens, s - 1); }
  }

  /** A symbol's place in the table sorted by code is inside the table. */
  lemma PlaceBound(lens: seq<nat>, i: nat)
    requires IsSym(lens, i)
    ensures FirstSymbol(lens, lens[i]) + Rank(lens, i) < FirstSymbol(lens, lens[i] + 1) <= |lens|
  {
    RankBound(lens, i);
    ShorterBound(lens, |lens|, lens[i] + 1);
  }

  lemma {:induction false} ShorterMono(lens: seq<nat>, s: nat, t: nat)
    requires s <= t
    ensures FirstSymbol(lens, s) <= FirstSymbol(lens, t)
    decreases t
  {
    if s < t { ShorterMono(lens, s, t - 1); }
  }

  /** Distinct symbols have distinct places. */
  lemma PlaceInjective(lens: seq<nat>, i: nat, j: nat)
    requires IsSym(lens, i) && IsSym(lens, j)
    requires FirstSymbol(lens, lens[i]) + Rank(lens, i) == FirstSymbol(lens, lens[j]) + Rank(lens, j)
    ensures i == j
  {
    PlaceBound(lens, i);
    PlaceBound(lens, j);
    if lens[i] < lens[j] {
      ShorterMono(lens, lens[i] + 1, lens[j]);
    } else if lens[j] < lens[i] {
      ShorterMono(lens, lens[j] + 1, lens[i]);
    } else {
      RankInjective(lens, i, j);
    }
  }

  // ---------- the code space ----------

  /** Up to any length the codes fit in the code space as soon as they do at 15 bits. */
  lemma {:induction false} EndFits(lens: seq<nat>, s: nat)
    requires Usable(lens) && s <= 15
    ensures End(lens, s) <= Pow2(s)
    decreases 15 - s
  {
    if s < 15 {
      EndFits(lens, s + 1);
      assert s > 0 ==> First(lens, s + 1) == 2 * End(lens, s);
    }
  }

  lemma CodeFits(lens: seq<nat>, i: nat)
    requires Usable(lens) && IsSym(lens, i)
    ensures First(lens, lens[i]) <= Code(lens, i) < End(lens, lens[i]) <= Pow2(lens[i])
  {
    RankBound(lens, i);
    EndFits(lens, lens[i]);
  }

  lemma LimitStep(lens: seq<nat>, s: nat)
    requires 1 <= s <= 16
    ensures Limit(lens, s - 1) == First(lens, s) * Pow2(16 - s)
    ensures Limit(lens, s - 1) <= Limit(lens, s)
  {
    var p := Pow2(16 - s);
    assert Pow2(16 - (s - 1)) == 2 * p;
    MulAssoc(End(lens, s - 1), 2, p);
    assert First(lens, s) == 2 * End(lens, s - 1);
    MulMono(First(lens, s), End(lens, s), p);
  }

  lemma {:induction false} LimitMono(lens: seq<nat>, s: nat, t: nat)
    requires s <= t <= 16
    ensures Limit(lens, s) <= Limit(lens, t)
    decreases t
  {
    if s < t {
      LimitMono(lens, s, t - 1);
      LimitStep(lens, t);
    }
  }

  /** Reading a key against the codes of one length. */
  lemma KeyInterval(lens: seq<nat>, s: nat, k: nat)
    requires 1 <= s <= 16
    ensures (Limit(lens, s - 1) <= k < Limit(lens, s)) <==> (First(lens, s) <= Shr(k, 16 - s) < End(lens, s))
  {
    var p, c := Pow2(16 - s), Shr(k, 16 - s);
    LimitStep(lens, s);
    ShrDiv(k, 16 - s);
    DivModDef(k, p);
    DivBelow(k, p, First(lens, s));
    DivBelow(k, p, End(lens, s));
  }

  lemma DivBelow(k: nat, p: nat, e: nat)
    requires p > 0
    ensures k / p < e <==> k < e * p
  {
    DivModDef(k, p);
    if k / p < e {
      MulMono(k / p + 1, e, p);
      MulDistrib(k / p, 1, p);
    } else {
      MulMono(e, k / p, p);
    }
  }

  /** A code is a prefix of the next 16 bits exactly when their value shows it in its top bits. */
  lemma PrefixKey(lens: seq<nat>, i: nat, p: seq<bool>)
    requires Usable(lens) && IsSym(lens, i) && |p| == 16
    ensures CodeBits(lens, i) <= p <==> Shr(MsbVal(p), 16 - lens[i]) == Code(lens, i)
  {
    MsbPrefix(p, lens[i]);
    CodeFits(lens, i);
    MsbEqual(p[..lens[i]], Code(lens, i));
    assert CodeBits(lens, i) <= p <==> CodeBits(lens, i) == p[..lens[i]];
  }

  lemma MsbEqual(q: seq<bool>, c: nat)
    requires c < Pow2(|q|)
    ensures MsbBits(c, |q|) == q <==> MsbVal(q) == c
  {
    MsbValBits(c, |q|);
    MsbBitsVal(q);
  }

  lemma PrefixLimits(lens: seq<nat>, i: nat, p: seq<bool>)
    requires Usable(lens) && IsSym(lens, i) && |p| == 16 && CodeBits(lens, i) <= p
    ensures Limit(lens, lens[i] - 1) <= MsbVal(p) < Limit(lens, lens[i])
  {
    PrefixKey(lens, i, p);
    CodeFits(lens, i);
    KeyInterval(lens, lens[i], MsbVal(p));
  }

  /** The code is prefix-free: at most one symbol's code starts any bit string. */
  lemma PrefixFree(lens: seq<nat>, i: nat, j: nat, x: seq<bool>)
    requires Usable(lens) && IsSym(lens, i) && IsSym(lens, j)
    requires CodeBits(lens, i) <= x && CodeBits(lens, j) <= x
    ensures i == j
  {
    var p := (x + Zeros(16))[..16];
    assert CodeBits(lens, i) <= p && CodeBits(lens, j) <= p;
    PrefixLimits(lens, i, p);
    PrefixLimits(lens, j, p);
    if lens[i] < lens[j] {
      LimitMono(lens, lens[i], lens[j] - 1);
    } else if lens[j] < lens[i] {
      LimitMono(lens, lens[j], lens[i] - 1);
    } else {
      PrefixKey(lens, i, p);
      PrefixKey(lens, j, p);
      RankInjective(lens, i, j);
    }
  }

  /** Which symbol the next 16 bits start with is read off the interval their value lies in. */
  lemma SymbolOfKey(lens: seq<nat>, s: nat, p: seq<bool>) returns (i: nat)
    requires Usable(lens) && |p| == 16 && 1 <= s <= 15
    requires Limit(lens, s - 1) <= MsbVal(p) < Limit(lens, s)
    ensures IsSym(lens, i) && lens[i] == s && CodeBits(lens, i) <= p
    ensures Rank(lens, i) == Shr(MsbVal(p), 16 - s) - First(lens, s)
  {
    KeyInterval(lens, s, MsbVal(p));
    i := SymbolOfRank(lens, |lens|, s, Shr(MsbVal(p), 16 - s) - First(lens, s));
    PrefixKey(lens, i, p);
  }

  /** None of the first `n` symbols with a code of at most `m` bits starts `x`. */
  ghost predicate NoneStarts(lens: seq<nat>, n: nat, m: nat, x: seq<bool>)
    requires n <= |lens|
  {
    n == 0 || (NoneStarts(lens, n - 1, m, x) && !(0 < lens[n - 1] <= m && CodeBits(lens, n - 1) <= x))
  }

  /** No code of `lens` starts `x`. */
  ghost predicate NoCode(lens: seq<nat>, x: seq<bool>) { NoneStarts(lens, |lens|, 15, x) }

  lemma {:induction false} NoneStartsAt(lens: seq<nat>, n: nat, m: nat, x: seq<bool>, i: nat)
    requires i < n <= |lens| && 0 < lens[i] <= m && CodeBits(lens, i) <= x
    ensures !NoneStarts(lens, n, m, x)
  {
    if i < n - 1 { NoneStartsAt(lens, n - 1, m, x, i); }
  }

  lemma {:induction false} SomeStarts(lens: seq<nat>, n: nat, m: nat, x: seq<bool>) returns (i: nat)
    requires n <= |lens| && !NoneStarts(lens, n, m, x)
    ensures i < n && 0 < lens[i] <= m && CodeBits(lens, i) <= x
  {
    if 0 < lens[n - 1] <= m && CodeBits(lens, n - 1) <= x {
      i := n - 1;
    } else {
      i := SomeStarts(lens, n - 1, m, x);
    }
  }

  /** Looking 16 bits ahead is enough. */
  lemma NoCodeAhead(lens: seq<nat>, x: seq<bool>)
    requires Usable(lens) && |x| >= 16 && NoCode(lens, x[..16])
    ensures NoCode(lens, x)
  {
    if !NoCode(lens, x) {
      var i := SomeStarts(lens, |lens|, 15, x);
      assert CodeBits(lens, i) <= x[..16];
      NoneStartsAt(lens, |lens|, 15, x[..16], i);
    }
  }

  /** The codes of length at most `s` cover exactly the keys below `Limit(s)`. */
  lemma {:induction false} Covered(lens: seq<nat>, s: nat, p: seq<bool>)
    requires Usable(lens) && |p| == 16 && s <= 15
    ensures MsbVal(p) < Limit(lens, s) <==> !NoneStarts(lens, |lens|, s, p)
  {
    if MsbVal(p) < Limit(lens, s) {
      var t := LengthOfKey(lens, s, p);
      var i := SymbolOfKey(lens, t, p);
      NoneStartsAt(lens, |lens|, s, p, i);
    } else if !NoneStarts(lens, |lens|, s, p) {
      var i := SomeStarts(lens, |lens|, s, p);
      PrefixLimits(lens, i, p);
      LimitMono(lens, lens[i], s);
    }
  }

  lemma {:induction false} LengthOfKey(lens: seq<nat>, s: nat, p: seq<bool>) returns (t: nat)
    requires |p| == 16 && s <= 15 && MsbVal(p) < Limit(lens, s)
    ensures 1 <= t <= s && Limit(lens, t - 1) <= MsbVal(p) < Limit(lens, t)
  {
    if MsbVal(p) < Limit(lens, s - 1) {
      t := LengthOfKey(lens, s - 1, p);
    } else {
      t := s;
    }
  }
}
