/** The fixed Huffman code of RFC 1951, section 3.2.6: the inflater's default length tables, and the
    code words that the compressor has built in. */
module FixedCode {
  import opened Bits
  import opened Canonical
  import opened Deflate

  function DefaultLength(i: nat): nat {
    if i <= 143 then 8 else if i <= 255 then 9 else if i <= 279 then 7 else 8
  }

  /** `stbi__zdefault_length` */
  function FixedLengths(): (l: seq<nat>)
    ensures |l| == 288
  {
    seq(288, i requires i >= 0 => DefaultLength(i))
  }

  /** `stbi__zdefault_distance` */
  function FixedDistances(): (d: seq<nat>)
    ensures |d| == 32
  {
    seq(32, _ => 5)
  }

  function Clamp(x: int, lo: int, hi: int): int
    requires lo <= hi
  {
    if x < lo then 0 else if x > hi then hi - lo else x - lo
  }

  lemma {:induction false} FixedCounts(n: nat)
    requires n <= 288
    ensures CountTo(FixedLengths(), n, 7) == Clamp(n, 256, 280)
    ensures CountTo(FixedLengths(), n, 8) == Clamp(n, 0, 144) + Clamp(n, 280, 288)
    ensures CountTo(FixedLengths(), n, 9) == Clamp(n, 144, 256)
  {
    if n > 0 { FixedCounts(n - 1); }
  }

  lemma {:induction false} NoOtherLength(n: nat, s: nat)
    requires n <= 288 && s !in {7, 8, 9}
    ensures CountTo(FixedLengths(), n, s) == 0
  {
    if n > 0 { NoOtherLength(n - 1, s); }
  }

  lemma FixedFirsts()
    ensures First(FixedLengths(), 7) == 0 && First(FixedLengths(), 8) == 0x30 && First(FixedLengths(), 9) == 0x190
    ensures End(FixedLengths(), 15) == Pow2(15)
  {
    var l := FixedLengths();
    FixedCounts(288);
    EmptyLengths(l, 6, 288);
    assert First(l, 7) == 2 * End(l, 6);
    assert End(l, 7) == 24 && First(l, 8) == 48 && End(l, 8) == 200 && First(l, 9) == 400 && End(l, 9) == 512;
    Doubling(10);
    Doubling(11);
    Doubling(12);
    Doubling(13);
    Doubling(14);
    Doubling(15);
    Pow2Small();
  }

  /** Where there are no codes the end of the codes doubles. */
  lemma Doubling(s: nat)
    requires s >= 10
    ensures End(FixedLengths(), s) == 2 * End(FixedLengths(), s - 1)
  {
    NoOtherLength(288, s);
  }

  lemma {:induction false} EmptyLengths(l: seq<nat>, s: nat, n: nat)
    requires l == FixedLengths() && s <= 6 && n == 288
    ensures End(l, s) == 0
  {
    if s > 0 {
      EmptyLengths(l, s - 1, n);
      NoOtherLength(288, s);
    }
  }

  lemma FixedUsable()
    ensures Usable(FixedLengths())
  {
    FixedFirsts();
  }

  /** The code of literal/length symbol `n`, as the compressor's macros compute it. */
  function FixedWord(n: nat): (nat, nat)
    requires n < 288
  {
    if n <= 143 then (0x30 + n, 8)
    else if n <= 255 then (0x190 + n - 144, 9)
    else if n <= 279 then (n - 256, 7)
    else (0xc0 + n - 280, 8)
  }

  /** The compressor's code words are the canonical ones. */
  lemma FixedWordCanonical(n: nat)
    requires n < 288
    ensures IsSym(FixedLengths(), n)
    ensures CodeBits(FixedLengths(), n) == MsbBits(FixedWord(n).0, FixedWord(n).1)
    ensures FixedWord(n).0 < Pow2(FixedWord(n).1) && FixedWord(n).1 <= 9
  {
    FixedCounts(n);
    FixedFirsts();
    Pow2Small();
    assert FixedLengths()[n] == FixedWord(n).1;
    assert Code(FixedLengths(), n) == FixedWord(n).0;
  }

  lemma {:induction false} DistanceCounts(n: nat, s: nat)
    requires n <= 32
    ensures CountTo(FixedDistances(), n, s) == if s == 5 then n else 0
  {
    if n > 0 { DistanceCounts(n - 1, s); }
  }

  lemma {:induction false} DistanceEnds(s: nat)
    ensures End(FixedDistances(), s) == if s < 5 then 0 else Pow2(s)
  {
    if s > 0 {
      DistanceEnds(s - 1);
      DistanceCounts(32, s);
      assert Pow2(5) == 32;
    }
  }

  lemma FixedDistancesUsable()
    ensures Usable(FixedDistances())
  {
    DistanceEnds(15);
  }

  /** Distance symbol `n` has the five-bit code `n`. */
  lemma FixedDistanceWord(n: nat)
    requires n < 32
    ensures IsSym(FixedDistances(), n) && CodeBits(FixedDistances(), n) == MsbBits(n, 5)
  {
    DistanceCounts(n, 5);
    DistanceEnds(4);
    assert First(FixedDistances(), 5) == 2 * End(FixedDistances(), 4);
  }
}
