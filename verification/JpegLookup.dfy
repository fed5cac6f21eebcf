/** What a JPEG decoder finds in its Huffman tables: the fast table and the search by length, against the code
    itself. */
module JpegLookup {
  import opened Bits
  import opened BitOps
  import opened JpegCode
  import opened JpegHuffman

  /** The symbol number and the code length that the fast table and the search give for 16 bits of value `v`. */
  ghost function Found(count: seq<nat>, v: nat): (int, nat)
    requires |count| == 16
  {
    var t := FastTo(Sizes(count), |Sizes(count)|, v / 128);
    if t < NOT_FAST && t < |Sizes(count)| then (t, Sizes(count)[t]) else Searched(count, v)
  }

  ghost function Searched(count: seq<nat>, v: nat): (int, nat)
    requires |count| == 16
  {
    var k := Search(Limits(count), v, FAST_BITS + 1);
    (if k <= 16 then Shr(v, 16 - k) + Deltas(count)[k] else -1, k)
  }

  /** The first length from `k` on whose codes reach beyond `v`, or 17. */
  ghost function Search(limits: seq<nat>, v: nat, k: nat): (r: nat)
    requires |limits| == 17 && k <= 17
    ensures k <= r <= 17
    decreases 17 - k
  {
    if k == 17 || v < limits[k] then k else Search(limits, v, k + 1)
  }

  /** A fast entry names a short code that owns the value. */
  lemma {:induction false} FastMeaning(sizes: seq<nat>, n: nat, v: nat, t: nat)
    requires Ordered(sizes) && Room(sizes) && n <= |sizes| <= 256 && t == v / 128
    ensures var e := FastTo(sizes, n, t);
            e <= NOT_FAST && (e < NOT_FAST ==> e < n && sizes[e] <= FAST_BITS && Low(sizes, e) <= v < Low(sizes, e + 1))
  {
    if n > 0 {
      FastMeaning(sizes, n - 1, v, t);
      if sizes[n - 1] <= FAST_BITS { Coarse(sizes, n - 1, v, t); }
    }
  }

  /** And the short code that owns the value has its entry. */
  lemma {:induction false} FastOwned(sizes: seq<nat>, n: nat, v: nat, t: nat, i: nat)
    requires Ordered(sizes) && Room(sizes) && i < n <= |sizes| <= 256 && t == v / 128
    requires sizes[i] <= FAST_BITS && Low(sizes, i) <= v < Low(sizes, i + 1)
    ensures FastTo(sizes, n, t) == i
  {
    if sizes[n - 1] <= FAST_BITS {
      Coarse(sizes, n - 1, v, t);
      if Low(sizes, n - 1) <= v < Low(sizes, n) { OneOwner(sizes, i, n - 1, v); }
    }
    if i < n - 1 { FastOwned(sizes, n - 1, v, t, i); }
  }

  /** Nine bits are enough to see whether a short code starts the sixteen. */
  lemma Coarse(sizes: seq<nat>, i: nat, v: nat, t: nat)
    requires Ordered(sizes) && Room(sizes) && i < |sizes| && sizes[i] <= FAST_BITS && t == v / 128
    ensures Low(sizes, i) <= 128 * t < Low(sizes, i + 1) <==> Low(sizes, i) <= v < Low(sizes, i + 1)
  {
    FastPlace(sizes, i);
  }

  lemma {:induction false} SearchMeaning(limits: seq<nat>, v: nat, k: nat)
    requires |limits| == 17 && 1 <= k <= 17 && v >= limits[k - 1]
    ensures var r := Search(limits, v, k); v >= limits[r - 1] && (r <= 16 ==> v < limits[r])
    decreases 17 - k
  {
    if k < 17 && v >= limits[k] { SearchMeaning(limits, v, k + 1); }
  }

  /** Among the codes of `k` bits the value tells the symbol. */
  lemma RowSymbol(count: seq<nat>, k: nat, v: nat)
    requires |count| == 16 && 1 <= k <= 16 && Limits(count)[k - 1] <= v < Limits(count)[k]
    ensures var i := Shr(v, 16 - k) + Deltas(count)[k];
            0 <= i < |Sizes(count)| && Sizes(count)[i] == k && Low(Sizes(count), i) <= v < Low(Sizes(count), i + 1)
  {
    ShrDiv(v, 16 - k);
    RowNumber(count, k, v);
    DeltaAt(count, k);
    RowLow(count, k, v / Pow2(16 - k));
    Quotient(v, v / Pow2(16 - k), Pow2(16 - k));
  }

  lemma RowNumber(count: seq<nat>, k: nat, v: nat)
    requires |count| == 16 && 1 <= k <= 16 && Limits(count)[k - 1] <= v < Limits(count)[k]
    ensures Base(count, k) <= v / Pow2(16 - k) < Base(count, k) + count[k - 1]
  {
    BaseLow(count, k);
    LimitAt(count, k - 1);
    LimitAt(count, k);
    Between(v, Pow2(16 - k), Base(count, k), count[k - 1]);
  }

  lemma Between(v: nat, p: nat, b: nat, n: nat)
    requires p > 0 && b * p <= v < (b + n) * p
    ensures b <= v / p < b + n
  {
    DivModDef(v, p);
    MulDistrib(v / p, 1, p);
    if v / p < b { MulMono(v / p + 1, b, p); }
    if v / p >= b + n { MulMono(b + n, v / p, p); }
  }

  lemma RowLow(count: seq<nat>, k: nat, c: nat)
    requires |count| == 16 && 1 <= k <= 16 && Base(count, k) <= c < Base(count, k) + count[k - 1]
    ensures var i := c + Deltas(count)[k];
            && 0 <= i < |Sizes(count)| && Sizes(count)[i] == k
            && Low(Sizes(count), i) == c * Pow2(16 - k) && Low(Sizes(count), i + 1) == (c + 1) * Pow2(16 - k)
  {
    DeltaAt(count, k);
    var i := Index(count, k - 1) + (c - Base(count, k));
    IndexMono(count, k, |count|);
    SizeAt(count, |count|, k, i);
    SizesOrdered(count, |count|);
    CodeOfBase(count, k, i);
    CodeLow(Sizes(count), i);
  }

  /** The last symbol of a full table of 256 has the number that marks entries as not fast. */
  ghost predicate Overlooked(sizes: seq<nat>, i: nat)
    requires i < |sizes|
  {
    i == NOT_FAST && sizes[i] <= FAST_BITS
  }

  /** The bits do not start with the code of an overlooked symbol. */
  ghost predicate Clear(sizes: seq<nat>, x: seq<bool>) {
    |sizes| > NOT_FAST && Overlooked(sizes, NOT_FAST) ==> !(CodeBits(sizes, NOT_FAST) <= x)
  }

  /** No symbol is overlooked. */
  ghost predicate Sharp(sizes: seq<nat>) { |sizes| > NOT_FAST ==> sizes[NOT_FAST] > FAST_BITS }

  /** The tables find the symbol whose code starts the bits, and its length, exactly when it is not overlooked. */
  lemma FoundRight(count: seq<nat>, i: nat, p: seq<bool>)
    requires |count| == 16 && Room(Sizes(count)) && i < |Sizes(count)| <= 256 && |p| == 16
             && CodeBits(Sizes(count), i) <= p
    ensures Found(count, MsbVal(p)) == (i, Sizes(count)[i]) <==> !Overlooked(Sizes(count), i)
  {
    SizesOrdered(count, |count|);
    CodeStarts(Sizes(count), i, p);
    FastOwner(Sizes(count), i, MsbVal(p));
    if Sizes(count)[i] > FAST_BITS { FoundBySearch(count, i, MsbVal(p)); }
  }

  /** What the fast table says about the code that owns the value. */
  lemma FastOwner(sizes: seq<nat>, i: nat, v: nat)
    requires Ordered(sizes) && Room(sizes) && i < |sizes| <= 256 && Low(sizes, i) <= v < Low(sizes, i + 1)
    ensures FastTo(sizes, |sizes|, v / 128) == if sizes[i] <= FAST_BITS then i else NOT_FAST
  {
    if sizes[i] <= FAST_BITS {
      FastOwned(sizes, |sizes|, v, v / 128, i);
    } else {
      FastMeaning(sizes, |sizes|, v, v / 128);
      var e := FastTo(sizes, |sizes|, v / 128);
      if e < NOT_FAST { OneOwner(sizes, e, i, v); }
    }
  }

  lemma FoundBySearch(count: seq<nat>, i: nat, v: nat)
    requires |count| == 16 && Room(Sizes(count)) && i < |Sizes(count)| <= 256 && Sizes(count)[i] > FAST_BITS
    requires Low(Sizes(count), i) <= v < Low(Sizes(count), i + 1)
    ensures var k := Search(Limits(count), v, FAST_BITS + 1);
            k == Sizes(count)[i] && k <= 16 && Shr(v, 16 - k) + Deltas(count)[k] == i
  {
    var k := Search(Limits(count), v, FAST_BITS + 1);
    SearchEnds(count, i, v);
    RowSymbol(count, k, v);
    OneOwner(Sizes(count), i, Shr(v, 16 - k) + Deltas(count)[k], v);
  }

  lemma SearchEnds(count: seq<nat>, i: nat, v: nat)
    requires |count| == 16 && i < |Sizes(count)| && Sizes(count)[i] > FAST_BITS
    requires Low(Sizes(count), i) <= v < Low(Sizes(count), i + 1)
    ensures var k := Search(Limits(count), v, FAST_BITS + 1);
            1 <= k <= 16 && Limits(count)[k - 1] <= v < Limits(count)[k]
  {
    AboveRow(count, FAST_BITS, i);
    SearchMeaning(Limits(count), v, FAST_BITS + 1);
    LowMono(Sizes(count), i + 1, |Sizes(count)|);
    assert Limits(count)[16] == Low(Sizes(count), |Sizes(count)|) by { LastLimit(count); }
  }

  lemma LastLimit(count: seq<nat>)
    requires |count| == 16
    ensures Limits(count)[16] == Low(Sizes(count), |Sizes(count)|)
  {
    LimitAt(count, 16);
  }

  /** Longer codes come after all the codes of at most `j` bits. */
  lemma AboveRow(count: seq<nat>, j: nat, i: nat)
    requires |count| == 16 && j <= 16 && i < |Sizes(count)| && Sizes(count)[i] > j
    ensures Index(count, j) <= i && Limits(count)[j] <= Low(Sizes(count), i)
  {
    LimitAt(count, j);
    if i < Index(count, j) { InRow(count, j, i); }
    LowMono(Sizes(count), Index(count, j), i);
  }

  lemma {:induction false} InRow(count: seq<nat>, j: nat, i: nat)
    requires |count| == 16 && j <= 16 && i < Index(count, j)
    ensures i < |Sizes(count)| && Sizes(count)[i] <= j
  {
    if i < Index(count, j - 1) { InRow(count, j - 1, i); } else { SizeAt(count, |count|, j, i); }
  }

  /** When no code starts the bits, neither table finds one. */
  lemma FoundNone(count: seq<nat>, p: seq<bool>)
    requires |count| == 16 && Room(Sizes(count)) && |Sizes(count)| <= 256 && |p| == 16 && NoCode(Sizes(count), p)
    ensures Found(count, MsbVal(p)) == (-1, 17)
  {
    var sizes, v := Sizes(count), MsbVal(p);
    SizesOrdered(count, |count|);
    NoOwner(sizes, p);
    FastMeaning(sizes, |sizes|, v, v / 128);
    var e := FastTo(sizes, |sizes|, v / 128);
    if e < NOT_FAST { LowMono(sizes, e + 1, |sizes|); }
    AllLimits(count, v);
    SearchPast(Limits(count), v, FAST_BITS + 1);
  }

  lemma AllLimits(count: seq<nat>, v: nat)
    requires |count| == 16 && v >= Low(Sizes(count), |Sizes(count)|)
    ensures forall j | 0 <= j <= 16 :: v >= Limits(count)[j]
  {
    forall j | 0 <= j <= 16 ensures v >= Limits(count)[j] {
      LimitAt(count, j);
      LowMono(Sizes(count), Index(count, j), |Sizes(count)|);
    }
  }

  lemma {:induction false} SearchPast(limits: seq<nat>, v: nat, k: nat)
    requires |limits| == 17 && k <= 17 && forall j | 0 <= j <= 16 :: v >= limits[j]
    ensures Search(limits, v, k) == 17
    decreases 17 - k
  {
    if k < 17 { SearchPast(limits, v, k + 1); }
  }

  /** Whether a code starts 16 bits, and which; for an overlooked one, more bits are asked for than it has. */
  lemma Looked(count: seq<nat>, p: seq<bool>) returns (i: int)
    requires |count| == 16 && Room(Sizes(count)) && |Sizes(count)| <= 256 && |p| == 16
    ensures if i < 0 then NoCode(Sizes(count), p) && Found(count, MsbVal(p)) == (-1, 17)
            else i < |Sizes(count)| && CodeBits(Sizes(count), i) <= p
                 && if Overlooked(Sizes(count), i) then Found(count, MsbVal(p)).1 > FAST_BITS >= Sizes(count)[i]
                    else Found(count, MsbVal(p)) == (i, Sizes(count)[i])
  {
    SizesOrdered(count, |count|);
    if NoCode(Sizes(count), p) {
      FoundNone(count, p);
      i := -1;
    } else {
      i :| 0 <= i < |Sizes(count)| && CodeBits(Sizes(count), i) <= p;
      FoundRight(count, i, p);
      if Overlooked(Sizes(count), i) { SearchedInstead(count, p); }
    }
  }

  lemma SearchedInstead(count: seq<nat>, p: seq<bool>)
    requires |count| == 16 && Room(Sizes(count)) && |Sizes(count)| == 256 && Overlooked(Sizes(count), NOT_FAST)
    requires |p| == 16 && CodeBits(Sizes(count), NOT_FAST) <= p
    ensures Found(count, MsbVal(p)) == Searched(count, MsbVal(p)) && Found(count, MsbVal(p)).1 > FAST_BITS
  {
    SizesOrdered(count, |count|);
    CodeStarts(Sizes(count), NOT_FAST, p);
    FastOwner(Sizes(count), NOT_FAST, MsbVal(p));
  }

  /** What 16 bits, filled up with zeros, say about the bits themselves. */
  lemma Conclude(sizes: seq<nat>, x: seq<bool>, p: seq<bool>, i: int)
    requires Ordered(sizes) && Room(sizes) && |p| == 16 && p == (x + Zeros(16))[..16]
    requires if i < 0 then NoCode(sizes, p) else i < |sizes| && CodeBits(sizes, i) <= p
    ensures if i >= 0 && sizes[i] <= |x| then CodeBits(sizes, i) <= x else NoCode(sizes, x)
  {
    if i >= 0 && sizes[i] <= |x| {
      assert p[..sizes[i]] == x[..sizes[i]];
    } else {
      forall k | 0 <= k < |sizes| ensures !(CodeBits(sizes, k) <= x) {
        if CodeBits(sizes, k) <= x {
          assert p[..sizes[k]] == x[..sizes[k]];
          assert CodeBits(sizes, k) <= p;
          if i >= 0 { PrefixFree(sizes, i, k, p); }
        }
      }
    }
  }

  /** For a given table every look-up is right exactly when the table has fewer than 256 codes, or the last of 256 is
      longer than nine bits. */
  lemma SharpExact(count: seq<nat>)
    requires |count| == 16 && Room(Sizes(count)) && |Sizes(count)| <= 256
    ensures Sharp(Sizes(count)) <==>
            forall i, p: seq<bool> | 0 <= i < |Sizes(count)| && |p| == 16 && CodeBits(Sizes(count), i) <= p ::
              Found(count, MsbVal(p)) == (i, Sizes(count)[i])
  {
    if Sharp(Sizes(count)) {
      forall i, p: seq<bool> | 0 <= i < |Sizes(count)| && |p| == 16 && CodeBits(Sizes(count), i) <= p
        ensures Found(count, MsbVal(p)) == (i, Sizes(count)[i])
      {
        FoundRight(count, i, p);
      }
    } else {
      var p := WrongFind(count);
    }
  }

  /** In a table that is not sharp there are bits for which the wrong code is found. */
  lemma WrongFind(count: seq<nat>) returns (p: seq<bool>)
    requires |count| == 16 && Room(Sizes(count)) && |Sizes(count)| <= 256 && !Sharp(Sizes(count))
    ensures |p| == 16 && CodeBits(Sizes(count), NOT_FAST) <= p
            && Found(count, MsbVal(p)) != (NOT_FAST, Sizes(count)[NOT_FAST])
  {
    p := CodeBits(Sizes(count), NOT_FAST) + Zeros(16 - Sizes(count)[NOT_FAST]);
    assert Overlooked(Sizes(count), NOT_FAST);
    FoundRight(count, NOT_FAST, p);
  }

  /** The counts of 255 codes of eight bits and one of nine, as bytes of a DHT segment. */
  const FULL_COUNT: seq<byte> := [0, 0, 0, 0, 0, 0, 0, 255, 1, 0, 0, 0, 0, 0, 0, 0]

  ghost predicate FullFacts(count: seq<nat>) {
    && |count| == 16 && Index(count, 9) == Index(count, 10) == 256 && Base(count, 10) == 1022
    && |Sizes(count)| == 256 && Sizes(count)[255] == 9
    && Low(Sizes(count), 255) == 0xFF00 && Low(Sizes(count), 256) == 0xFF80
  }

  /** This table is accepted and is not sharp. When its last code, eight ones and a zero, comes next, ten bits are taken
      instead of nine, for symbol 254 or 255 as the bit after the code says. */
  lemma FullTable(count: seq<nat>, p: seq<bool>)
    requires count == FULL_COUNT
    ensures |count| == 16 && |Sizes(count)| == 256 && Room(Sizes(count)) && !Sharp(Sizes(count))
    ensures |p| == 16 && CodeBits(Sizes(count), 255) <= p ==> Found(count, MsbVal(p)) == (if p[9] then 255 else 254, 10)
  {
    FullEntries(count);
    FullSizes(count);
    FullOutcome(count, p);
  }

  lemma FullOutcome(count: seq<nat>, p: seq<bool>)
    requires FullFacts(count)
    ensures |Sizes(count)| == 256 && Room(Sizes(count)) && !Sharp(Sizes(count))
    ensures |p| == 16 && CodeBits(Sizes(count), 255) <= p ==> Found(count, MsbVal(p)) == (if p[9] then 255 else 254, 10)
  {
    if |p| == 16 && CodeBits(Sizes(count), 255) <= p { FullFound(count, p); }
  }

  lemma FullFound(count: seq<nat>, p: seq<bool>)
    requires FullFacts(count) && |p| == 16 && CodeBits(Sizes(count), 255) <= p
    ensures Found(count, MsbVal(p)) == (if p[9] then 255 else 254, 10)
  {
    SearchedInstead(count, p);
    SizesOrdered(count, |count|);
    CodeStarts(Sizes(count), 255, p);
    TenthBit(p);
    SearchFull(count, MsbVal(p));
  }

  ghost predicate FullCounts(count: seq<nat>) {
    && |count| == 16 && count[7] == 255 && count[8] == 1
    && (forall i | 0 <= i < 7 :: count[i] == 0) && (forall i | 9 <= i < 16 :: count[i] == 0)
  }

  lemma FullEntries(count: seq<nat>)
    requires count == FULL_COUNT
    ensures FullCounts(count)
  {
  }

  lemma FullSizes(count: seq<nat>)
    requires FullCounts(count)
    ensures FullFacts(count)
  {
    IndexFlat(count, 0, 7);
    IndexFlat(count, 9, 10);
    IndexFlat(count, 9, |count|);
    BaseZero(count, 8);
    assert Base(count, 9) == 510;
    forall i | 0 <= i < 255 ensures Sizes(count)[i] == 8 { SizeAt(count, |count|, 8, i); }
    SizeAt(count, |count|, 9, 255);
    LowRow(Sizes(count), 0, 255, 8);
    Pow2Small();
  }

  lemma {:induction false} IndexFlat(count: seq<nat>, j: nat, m: nat)
    requires j <= m <= |count| && forall i | j <= i < m :: count[i] == 0
    ensures Index(count, m) == Index(count, j)
    decreases m
  {
    if j < m { IndexFlat(count, j, m - 1); }
  }

  lemma {:induction false} BaseZero(count: seq<nat>, j: nat)
    requires j <= |count| && forall i | 0 <= i < j - 1 :: count[i] == 0
    ensures Base(count, j) == 0
  {
    if j > 1 { BaseZero(count, j - 1); }
  }

  /** The bit after nine known ones is the next digit. */
  lemma TenthBit(p: seq<bool>)
    requires |p| == 16 && 0xFF00 <= MsbVal(p) < 0xFF80
    ensures MsbVal(p) / 64 == 1020 + Bit(p[9])
  {
    MsbPrefix(p, 9);
    MsbPrefix(p, 10);
    ShrDiv(MsbVal(p), 7);
    ShrDiv(MsbVal(p), 6);
    Pow2Small();
    assert p[..10][..9] == p[..9];
  }

  lemma SearchFull(count: seq<nat>, v: nat)
    requires FullFacts(count) && 0xFF00 <= v < 0xFF80
    ensures Search(Limits(count), v, FAST_BITS + 1) == 10 && Shr(v, 6) + Deltas(count)[10] == v / 64 - 766
  {
    LimitAt(count, 10);
    DeltaAt(count, 10);
    ShrDiv(v, 6);
    Pow2Small();
  }
}
