/** `Seed256`: the seed as eight 32-bit words (CUDA_sample/test/C3/old.cpp). */
module FastSeed {
  import opened Bits
  import opened BitOps
  import opened SeedScores
  import opened SeedUpdate

  // ---------- decimal digits, least significant first ----------

  ghost function DigitsValue(d: seq<digit>): nat { if d == [] then 0 else d[0] + 10 * DigitsValue(d[1..]) }

  /** No leading zeros. */
  ghost predicate Canonical(d: seq<digit>) { d != [] && (|d| > 1 ==> d[|d| - 1] != 0) }

  lemma {:induction false} DigitsSnoc(d: seq<digit>, x: digit)
    ensures DigitsValue(d + [x]) == DigitsValue(d) + x * Pow10(|d|)
  {
    if d == [] {
      assert ([] + [x])[1..] == [];
    } else {
      DigitsSnoc(d[1..], x);
      assert (d + [x])[1..] == d[1..] + [x];
      MulAssoc(x, 10, Pow10(|d| - 1));
      MulAssoc(10, x, Pow10(|d| - 1));
    }
  }

  lemma {:induction false} BackwardsCons(d: seq<digit>)
    requires d != []
    ensures Backwards(d) == Backwards(d[1..]) + [Digit(d[0])]
  {
    if |d| > 1 {
      var front := d[..|d| - 1];
      BackwardsCons(front);
      assert front[1..] == d[1..][..|d| - 2];
      assert Backwards(d[1..]) == [Digit(d[|d| - 1])] + Backwards(front[1..]);
    } else {
      assert d[..0] == [] && d[1..] == [];
    }
  }

  /** Digits without leading zeros are the decimal text of their value. */
  lemma {:induction false} CanonicalText(d: seq<digit>)
    requires Canonical(d)
    ensures Backwards(d) == Decimal(DigitsValue(d))
    ensures |d| > 1 ==> DigitsValue(d) > 0
  {
    BackwardsCons(d);
    if |d| == 1 {
      assert d[1..] == [];
    } else {
      CanonicalText(d[1..]);
      if |d| == 2 { assert d[1..] == [d[1]] && d[1..][1..] == []; }
      assert DigitsValue(d) / 10 == DigitsValue(d[1..]) && DigitsValue(d) % 10 == d[0];
    }
  }

  /** Doubles the number and adds `bit`: the inner loops of `to_decimal_string`. */
  method DoubleAdd(before: seq<digit>, bit: nat) returns (dec: seq<digit>)
    requires Canonical(before) && bit < 2
    ensures Canonical(dec) && DigitsValue(dec) == 2 * DigitsValue(before) + bit
  {
    dec := before;
    var carry := bit;
    var j := 0;
    assert dec[..0] == [] && before[..0] == [];
    while j < |dec|
      invariant 0 <= j <= |dec| == |before| && 0 <= carry < 2
      invariant forall k | j <= k < |dec| :: dec[k] == before[k]
      invariant DoubledTo(before, dec, j, carry, bit)
      invariant j > 0 && before[j - 1] != 0 && carry == 0 ==> dec[j - 1] != 0
    {
      var x: int := before[j];
      var cur := x * 2 + carry;
      DoubledStep(before, dec, j, carry, bit);
      dec := dec[j := cur % 10];
      carry := cur / 10;
      j := j + 1;
    }
    DoubledEnd(before, dec, carry, bit);
    dec := PushCarry(dec, carry);
  }

  lemma DoubledEnd(before: seq<digit>, dec: seq<digit>, carry: nat, bit: nat)
    requires |dec| == |before| && DoubledTo(before, dec, |dec|, carry, bit) && carry < 2
    ensures DigitsValue(if carry == 0 then dec else dec + [1]) == 2 * DigitsValue(before) + bit
  {
    assert dec[..|dec|] == dec && before[..|dec|] == before;
    DigitsSnoc(dec, 1);
  }

  method PushCarry(done: seq<digit>, high: nat) returns (dec: seq<digit>)
    requires high < 2
    ensures dec == if high == 0 then done else done + [1]
  {
    dec := done;
    var carry := high;
    while carry > 0
      invariant 0 <= carry < 2 && (carry > 0 ==> dec == done && carry == high)
      invariant carry == 0 ==> dec == if high == 0 then done else done + [1]
    {
      dec := dec + [carry % 10];
      carry := carry / 10;
    }
  }

  ghost predicate DoubledTo(before: seq<digit>, dec: seq<digit>, j: nat, carry: nat, bit: nat)
    requires j <= |dec| == |before|
  {
    DigitsValue(dec[..j]) + carry * Pow10(j) == 2 * DigitsValue(before[..j]) + bit
  }

  lemma DoubledStep(before: seq<digit>, dec: seq<digit>, j: nat, carry: nat, bit: nat)
    requires j < |dec| == |before| && DoubledTo(before, dec, j, carry, bit)
    ensures var x: int := before[j];
            DoubledTo(before, dec[j := (x * 2 + carry) % 10], j + 1, (x * 2 + carry) / 10, bit)
  {
    var x: int := before[j];
    var cur := x * 2 + carry;
    var next := dec[j := cur % 10];
    assert next[..j + 1] == dec[..j] + [cur % 10] && before[..j + 1] == before[..j] + [before[j]];
    DigitsSnoc(dec[..j], cur % 10);
    DigitsSnoc(before[..j], before[j]);
    CarryOut(cur, Pow10(j));
    MulDistrib(x * 2, carry, Pow10(j));
    MulAssoc(x, 2, Pow10(j));
    MulAssoc(2, x, Pow10(j));
  }

  lemma CarryOut(cur: nat, p: nat)
    ensures cur % 10 * p + cur / 10 * (10 * p) == cur * p
  {
    MulAssoc(cur / 10, 10, p);
    MulDistrib(cur % 10, cur / 10 * 10, p);
  }

  /** `Seed256` */
  class Seed256 {
    const data: array<u32>

    constructor (words: seq<u32>)
      requires |words| == 8
      ensures Shape() && fresh(data) && data[..] == words
    {
      data := new u32[8](i requires 0 <= i < 8 => words[i]);
    }

    ghost predicate Shape() { data.Length == 8 }

    ghost function Value(): nat
      reads data
    {
      WordsValue(data[..])
    }

    /** `to_decimal_string`: one bit after the other, most significant first. */
    method ToDecimalString() returns (s: string)
      requires Shape()
      ensures s == Decimal(Value())
    {
      var dec: seq<digit> := [0];
      assert [0][1..] == [] && data[..0] == [];
      for i := 0 to 8
        invariant Canonical(dec) && DigitsValue(dec) == WordsValue(data[..i])
      {
        dec := TakeWord(dec, data[i]);
        assert data[..i + 1][..i] == data[..i];
      }
      assert data[..8] == data[..];
      CanonicalText(dec);
      s := "";
      assert dec[..|dec|] == dec;
      var j := |dec| - 1;
      while j >= 0
        invariant -1 <= j < |dec| && s + Backwards(dec[..j + 1]) == Backwards(dec)
      {
        assert dec[..j + 1][..j] == dec[..j];
        assert (s + [Digit(dec[j])]) + Backwards(dec[..j]) == s + ([Digit(dec[j])] + Backwards(dec[..j]));
        s := s + Decimal(dec[j]);
        j := j - 1;
      }
    }

    /** `get_mod_997` */
    method Reduced() returns (rem: u64)
      requires Shape()
      ensures rem == Value() % MOD
    {
      rem := GetMod997(data[..]);
    }

    /** `update` */
    method Update(c: char, sha: string -> seq<byte>)
      requires Shape() && Hash(sha) && (c as int) < 256
      modifies data
      ensures Value() == NextSeed(old(Value()), c as int, sha)
    {
      XorWords(data[..], c as int);
      data[7] := Xor(data[7], c as int);
      var text := ToDecimalString();
      LoadDigest(sha(text));
    }

    /** Reads the digest word by word. */
    method LoadDigest(hash: seq<byte>)
      requires Shape() && |hash| == 32
      modifies data
      ensures Value() == BytesValue(hash)
    {
      assert hash[..0] == [] && data[..0] == [];
      for i := 0 to 8
        invariant WordsValue(data[..i]) == BytesValue(hash[..4 * i])
      {
        ghost var done: seq<u32> := data[..i];
        var word := LoadWord(hash, 4 * i);
        data[i] := word;
        assert data[..i + 1] == done + [word];
        WordAdded(done, word);
      }
      assert data[..8] == data[..] && hash[..32] == hash;
    }
  }

  /** Takes in the 32 bits of a word. */
  method TakeWord(before: seq<digit>, val: u32) returns (dec: seq<digit>)
    requires Canonical(before)
    ensures Canonical(dec) && DigitsValue(dec) == DigitsValue(before) * WORD32 + val
  {
    dec := before;
    var bit := 31;
    Pow64();
    ShrAll(val);
    while bit >= 0
      invariant -1 <= bit <= 31 && Canonical(dec)
      invariant DigitsValue(dec) == DigitsValue(before) * Pow2(31 - bit) + Shr(val, bit + 1)
    {
      LowBit(Shr(val, bit));
      ShrNext(val, bit);
      MulAssoc(DigitsValue(before), 2, Pow2(31 - bit));
      MulAssoc(2, DigitsValue(before), Pow2(31 - bit));
      dec := DoubleAdd(dec, And(Shr(val, bit), 1));
      bit := bit - 1;
    }
  }

  lemma ShrAll(val: u32)
    ensures Shr(val, 32) == 0
  {
    Pow64();
    ShrBound(val, 32, 32);
  }

  lemma LowBit(v: nat)
    ensures And(v, 1) == v % 2
  {
    AndMask(v, 1);
    assert Pow2(1) == 2;
  }

  lemma {:induction false} ShrNext(v: nat, k: nat)
    ensures Shr(v, k) == 2 * Shr(v, k + 1) + Shr(v, k) % 2
  {
    if k > 0 { ShrNext(v / 2, k - 1); }
  }

  lemma XorWords(d: seq<u32>, c: nat)
    requires |d| == 8 && c < 256
    ensures Xor(d[7], c) < WORD32 && WordsValue(d[7 := Xor(d[7], c)]) == Xor(WordsValue(d), c)
  {
    Pow64();
    XorBound(d[7], c, 32);
    XorLow(WordsValue(d[..7]), d[7], c, 32);
    assert d[7 := Xor(d[7], c)][..7] == d[..7];
  }

  /** Four bytes put together with shifts, the most significant first. */
  method LoadWord(h: seq<byte>, i: nat) returns (w: u32)
    requires i + 4 <= |h|
    ensures BytesValue(h[..i + 4]) == BytesValue(h[..i]) * WORD32 + w
  {
    FourBytes(h, i);
    w := Or(Or(Or(Shl(h[i], 24), Shl(h[i + 1], 16)), Shl(h[i + 2], 8)), h[i + 3]);
  }

  lemma WordAdded(done: seq<u32>, word: u32)
    ensures WordsValue(done + [word]) == WordsValue(done) * WORD32 + word
  {
    assert (done + [word])[..|done|] == done;
  }

  lemma FourBytes(h: seq<byte>, i: nat)
    requires i + 4 <= |h|
    ensures var w := Or(Or(Or(Shl(h[i], 24), Shl(h[i + 1], 16)), Shl(h[i + 2], 8)), h[i + 3]);
            w < WORD32 && BytesValue(h[..i + 4]) == BytesValue(h[..i]) * WORD32 + w
  {
    Shifted(h[i], h[i + 1], h[i + 2], h[i + 3]);
    PrefixStep(h, i);
    PrefixStep(h, i + 1);
    PrefixStep(h, i + 2);
    PrefixStep(h, i + 3);
  }

  lemma Shifted(a: byte, b: byte, c: byte, d: byte)
    ensures Or(Or(Or(Shl(a, 24), Shl(b, 16)), Shl(c, 8)), d) == a as int * 16777216 + b as int * 65536
            + c as int * 256 + d
  {
    var x: nat := a;
    OrAbove(x, b, 24, 16);
    OrAbove(x * 256 + b, c, 16, 8);
    OrAbove((x * 256 + b) * 256 + c, d, 8, 0);
    assert Shl(d, 0) == d;
    assert Shl(((x * 256 + b) * 256 + c) * 256 + d, 0) == ((x * 256 + b) * 256 + c) * 256 + d;
  }

  lemma OrAbove(v: nat, b: byte, n: nat, m: nat)
    requires n == m + 8
    ensures Or(Shl(v, n), Shl(b, m)) == Shl(v * 256 + b, m)
  {
    var p := Pow2(m);
    Byte8();
    Pow2Add(m, 8);
    MulMono(b + 1, 256, p);
    MulDistrib(b, 1, p);
    Commuted(b, p);
    OrShifted(Shl(b, m), n, v);
    OrComm(Shl(v, n), Shl(b, m));
    MulAssoc(p, 256, v);
    MulDistrib(v * 256, b, p);
    Commuted(v * 256, p);
    Commuted(v * 256 + b, p);
  }
}
