/** The scores a 256-bit seed gives the 36 characters, and the two reductions of the seed modulo 997. */
module SeedScores {
  import opened Bits
  import opened Charset

  const MOD: nat := 997
  const WORD64: nat := 0x1_0000_0000_0000_0000
  const WORD32: nat := 0x1_0000_0000

  type u64 = x: int | 0 <= x < 0x1_0000_0000_0000_0000

  /** `uint256_t` */
  datatype Wide = Wide(hi2: u64, hi1: u64, lo1: u64, lo0: u64)
  {
    function Value(): nat { ((hi2 * WORD64 + hi1) * WORD64 + lo1) * WORD64 + lo0 }
  }

  /** The number whose base-2^32 digits are `d`, most significant first. */
  function WordsValue(d: seq<u32>): nat {
    if d == [] then 0 else WordsValue(d[..|d| - 1]) * WORD32 + d[|d| - 1]
  }

  /** The score of character `i` for the seed `v`. */
  function Score(v: nat, i: nat): nat { ((i + 1) * v + 17) % MOD }

  function Scores(v: nat): (s: seq<nat>)
    ensures |s| == CSIZE
  {
    seq(CSIZE, i requires i >= 0 => Score(v, i))
  }

  // ---------- residues ----------

  lemma ModShift(x: nat, k: nat)
    ensures (x + MOD * k) % MOD == x % MOD
  {
  }

  /** A factor may be reduced first. */
  lemma ModFactor(a: nat, b: nat)
    ensures (a % MOD * b) % MOD == (a * b) % MOD
  {
    var q, r := a / MOD, a % MOD;
    assert a == r + MOD * q;
    MulDistrib(r, MOD * q, b);
    MulAssoc(MOD, q, b);
    MulMono(0, q, b);
    ModShift(r * b, q * b);
  }

  /** And so may a summand. */
  lemma ModSummand(a: nat, b: nat)
    ensures (a % MOD + b) % MOD == (a + b) % MOD
  {
    ModShift(a % MOD + b, a / MOD);
  }

  lemma ModProduct(a: nat, b: nat)
    ensures (a % MOD * (b % MOD)) % MOD == (a * b) % MOD
  {
    ModFactor(a, b % MOD);
    ModFactor(b, a);
    Commuted(a, b);
    Commuted(a, b % MOD);
  }

  lemma Commuted(a: int, b: int)
    ensures a * b == b * a
  {
  }

  /** The scores depend only on the seed modulo 997. */
  lemma ScoreReduced(v: nat, i: nat)
    ensures ((i + 1) * (v % MOD) + 17) % MOD == Score(v, i)
    ensures ((i + 1) * (v % MOD) % MOD + 17) % MOD == Score(v, i)
  {
    ModFactor(v, i + 1);
    Commuted(v % MOD, i + 1);
    Commuted(v, i + 1);
    ModSummand((i + 1) * (v % MOD), 17);
    ModSummand((i + 1) * v, 17);
  }

  // ---------- CUDA_sample/test/C3/tlforce.cpp ----------

  /** 2^64 modulo 997 by repeated squaring. */
  method PowerMod() returns (result: u64)
    ensures result == Pow2(64) % MOD
  {
    var base: nat, exp: nat := 2, 64;
    result := 1;
    base := base % MOD;
    ghost var goal := Pow2(exp) % MOD;
    PowersAtFirst(result, base, exp);
    while exp > 0
      invariant result < MOD && base < MOD && Powers(result, base, exp) == goal
      decreases exp
    {
      PowerStep(result, base, exp);
      if exp % 2 == 1 { result := result * base % MOD; }
      base := base * base % MOD;
      exp := exp / 2;
    }
    PowersAtLast(result, base);
  }

  lemma PowersAtFirst(r: nat, b: nat, e: nat)
    requires r == 1 && b == 2
    ensures Powers(r, b, e) == Pow2(e) % MOD
  {
    PowerOfTwo(e);
  }

  lemma PowersAtLast(r: nat, b: nat)
    requires r < MOD
    ensures Powers(r, b, 0) == r
  {
  }

  ghost function PowerOf(b: nat, e: nat): nat { if e == 0 then 1 else b * PowerOf(b, e - 1) }

  lemma {:induction false} PowerSquare(b: nat, k: nat)
    ensures PowerOf(b, 2 * k) == PowerOf(b * b, k)
  {
    if k > 0 {
      PowerSquare(b, k - 1);
      assert PowerOf(b, 2 * k) == b * (b * PowerOf(b, 2 * k - 2));
      MulAssoc(b, b, PowerOf(b, 2 * k - 2));
    }
  }

  lemma {:induction false} PowerReduced(b: nat, e: nat)
    ensures PowerOf(b % MOD, e) % MOD == PowerOf(b, e) % MOD
  {
    if e > 0 {
      PowerReduced(b, e - 1);
      Congruent(b % MOD, PowerOf(b % MOD, e - 1), PowerOf(b, e - 1));
      ModFactor(b, PowerOf(b, e - 1));
    }
  }

  /** Congruent factors give congruent products. */
  lemma Congruent(a: nat, x: nat, y: nat)
    requires x % MOD == y % MOD
    ensures (a * x) % MOD == (a * y) % MOD
  {
    ModFactor(x, a);
    ModFactor(y, a);
    Commuted(a, x);
    Commuted(a, y);
  }

  /** What is left to multiply. */
  ghost function Powers(r: nat, b: nat, e: nat): nat { (r * PowerOf(b, e)) % MOD }

  lemma PowerStep(r: nat, b: nat, e: nat)
    requires e > 0
    ensures Powers(if e % 2 == 1 then r * b % MOD else r, b * b % MOD, e / 2) == Powers(r, b, e)
  {
    var k := e / 2;
    var x, y := PowerOf(b * b % MOD, k), PowerOf(b, 2 * k);
    PowerReduced(b * b, k);
    PowerSquare(b, k);
    if e % 2 == 1 {
      assert PowerOf(b, e) == b * y;
      OddStep(r, b, x, y);
    } else {
      Congruent(r, x, y);
    }
  }

  lemma OddStep(r: nat, b: nat, x: nat, y: nat)
    requires x % MOD == y % MOD
    ensures (r * b % MOD * x) % MOD == (r * (b * y)) % MOD
  {
    ModFactor(r * b, x);
    Congruent(r * b, x, y);
    MulAssoc(r, b, y);
  }

  lemma {:induction false} PowerOfTwo(e: nat)
    ensures PowerOf(2, e) == Pow2(e)
  {
    if e > 0 { PowerOfTwo(e - 1); }
  }

  lemma Pow64()
    ensures Pow2(64) == WORD64 && Pow2(32) == WORD32
  {
    Pow2Small();
    Pow2Add(32, 32);
  }

  lemma Term(h: nat, p: nat, w: nat)
    requires p % MOD == w % MOD
    ensures (h % MOD * p) % MOD == (h * w) % MOD
  {
    ModFactor(h, p);
    Congruent(h, p, w);
  }

  lemma FourTerms(a: nat, b: nat, c: nat, d: nat)
    ensures (a % MOD + b % MOD + c % MOD + d % MOD) % MOD == (a + b + c + d) % MOD
  {
    ModShift(a % MOD + b % MOD + c % MOD + d % MOD, a / MOD + b / MOD + c / MOD + d / MOD);
  }

  /** The seed modulo 997, from the residues of its four words. */
  method ReduceWide(seed: Wide) returns (m: u64)
    ensures m == seed.Value() % MOD
  {
    var p64 := PowerMod();
    Pow64();
    var p128: u64 := p64 * p64 % MOD;
    var p192: u64 := p128 * p64 % MOD;
    var a: u64, b: u64, c: u64 := seed.hi2 % MOD * p192 % MOD, seed.hi1 % MOD * p128 % MOD, seed.lo1 % MOD * p64 % MOD;
    m := (a + b + c + seed.lo0 % MOD) % MOD;
    FourWords(seed.hi2, seed.hi1, seed.lo1, seed.lo0, WORD64, p64);
  }

  function Times(a: nat, b: nat): nat { a * b }

  lemma WordTerms(a: nat, b: nat, c: nat, d: nat, p1: nat, p2: nat, p3: nat, w1: nat, w2: nat, w3: nat)
    requires p1 == w1 % MOD && p2 == w2 % MOD && p3 == w3 % MOD
    ensures (a % MOD * p3 % MOD + b % MOD * p2 % MOD + c % MOD * p1 % MOD + d % MOD) % MOD
         == (Times(a, w3) + Times(b, w2) + Times(c, w1) + d) % MOD
  {
    Term(a, p3, w3);
    Term(b, p2, w2);
    Term(c, p1, w1);
    FourTerms(Times(a, w3), Times(b, w2), Times(c, w1), d);
  }

  /** Horner's rule modulo 997. */
  lemma FourWords(a: nat, b: nat, c: nat, d: nat, w: nat, p: nat)
    requires p == w % MOD
    ensures var p2 := p * p % MOD; var p3 := p2 * p % MOD;
            (a % MOD * p3 % MOD + b % MOD * p2 % MOD + c % MOD * p % MOD + d % MOD) % MOD
              == (((a * w + b) * w + c) * w + d) % MOD
  {
    var p2 := p * p % MOD;
    var p3 := p2 * p % MOD;
    var w2 := Times(w, w);
    var w3 := Times(w2, w);
    assert p2 == w2 % MOD by { ModProduct(w, w); }
    assert p3 == w3 % MOD by { ModProduct(w2, w); }
    WordTerms(a, b, c, d, p, p2, p3, w, w2, w3);
    Horner(a, b, c, d, w);
  }

  lemma Horner(a: nat, b: nat, c: nat, d: nat, w: nat)
    ensures ((a * w + b) * w + c) * w + d == a * (w * w * w) + b * (w * w) + c * w + d
  {
    MulDistrib(a * w, b, w);
    MulDistrib((a * w + b) * w, c, w);
    MulAssoc(a, w, w);
    MulDistrib(a * (w * w), b * w, w);
    MulAssoc(a, w * w, w);
    MulAssoc(b, w, w);
  }

  /** `compute_scores` of the heap version */
  method ComputeScores(seed: Wide) returns (scores: seq<nat>)
    ensures scores == Scores(seed.Value())
  {
    var m := ReduceWide(seed);
    scores := [];
    for i := 0 to CSIZE
      invariant |scores| == i && forall k | 0 <= k < i :: scores[k] == Score(seed.Value(), k)
    {
      ScoreReduced(seed.Value(), i);
      var score: u64 := ((i + 1) * m % MOD + 17) % MOD;
      scores := scores + [score];
    }
  }

  // ---------- CUDA_sample/test/C3/old.cpp ----------

  /** `get_mod_997` */
  method GetMod997(data: seq<u32>) returns (rem: u64)
    ensures rem == WordsValue(data) % MOD
  {
    rem := 0;
    assert data[..0] == [];
    for i := 0 to |data|
      invariant rem == WordsValue(data[..i]) % MOD
    {
      var shifted: u64 := rem * WORD32;
      var sum: u64 := shifted + data[i];
      rem := sum % MOD;
      assert data[..i + 1][..i] == data[..i];
      ModFactor(WordsValue(data[..i]), WORD32);
      ModSummand(WordsValue(data[..i]) % MOD * WORD32, data[i]);
      ModSummand(WordsValue(data[..i]) * WORD32, data[i]);
    }
    assert data[..|data|] == data;
  }

  /** The scores as `encode_char_fast` computes them, in 32 bits. */
  method FastScores(data: seq<u32>) returns (scores: seq<nat>)
    ensures scores == Scores(WordsValue(data))
  {
    var m := GetMod997(data);
    scores := [];
    for i := 0 to CSIZE
      invariant |scores| == i && forall k | 0 <= k < i :: scores[k] == Score(WordsValue(data), k)
    {
      ScoreReduced(WordsValue(data), i);
      MulMono(i + 1, CSIZE, m);
      var sum: u32 := (i + 1) * m + 17;
      scores := scores + [sum % MOD];
    }
  }
}
