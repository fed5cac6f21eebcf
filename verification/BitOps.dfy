/** The C operators `&`, `|`, `<<` and `>>` on unsigned numbers, and what the headers use them for. */
module BitOps {
  import opened Bits

  function And(a: nat, b: nat): nat {
    if a == 0 || b == 0 then 0 else Bit(a % 2 == 1 && b % 2 == 1) + 2 * And(a / 2, b / 2)
  }

  function Or(a: nat, b: nat): nat
    decreases a + b
  {
    if a == 0 then b else if b == 0 then a else Bit(a % 2 == 1 || b % 2 == 1) + 2 * Or(a / 2, b / 2)
  }

  function Xor(a: nat, b: nat): nat
    decreases a + b
  {
    if a == 0 then b else if b == 0 then a else Bit((a % 2 == 1) != (b % 2 == 1)) + 2 * Xor(a / 2, b / 2)
  }

  /** `v << n`, before any truncation. */
  function Shl(v: nat, n: nat): nat { Pow2(n) * v }

  /** `(1 << n) - 1` */
  function Mask(n: nat): nat { Pow2(n) - 1 }

  lemma {:induction false} AndMask(v: nat, n: nat)
    ensures And(v, Mask(n)) == v % Pow2(n)
  {
    if n > 0 {
      AndMask(v / 2, n - 1);
      DivHalf(v, Pow2(n - 1));
      assert Mask(n) == 2 * Mask(n - 1) + 1;
      if v != 0 {
        assert Mask(n) % 2 == 1 && Mask(n) / 2 == Mask(n - 1);
      } else {
        DivModUnique(0, Pow2(n), 0, 0);
      }
    }
  }

  /** Flipping the low `n` bits subtracts from the mask. */
  lemma {:induction false} XorMask(v: nat, n: nat)
    requires v < Pow2(n)
    ensures Xor(v, Mask(n)) == Mask(n) - v
  {
    if n > 0 && v != 0 {
      XorMask(v / 2, n - 1);
      MaskHalf(n);
      assert Xor(v, Mask(n)) == Bit(v % 2 == 0) + 2 * Xor(v / 2, Mask(n - 1));
    }
  }

  lemma MaskHalf(n: nat)
    requires n > 0
    ensures Mask(n) == 2 * Mask(n - 1) + 1 && Mask(n) % 2 == 1 && Mask(n) / 2 == Mask(n - 1)
  {
  }

  /** Masking with a shifted mask. */
  lemma {:induction false} AndShl(v: nat, m: nat, n: nat)
    ensures And(v, Shl(m, n)) == Shl(And(Shr(v, n), m), n)
  {
    if n > 0 {
      AndShl(v / 2, m, n - 1);
      MulAssoc(2, Pow2(n - 1), m);
      MulAssoc(2, Pow2(n - 1), And(Shr(v, n), m));
      AndDouble(v, Shl(m, n - 1));
    }
  }

  lemma AndDouble(v: nat, w: nat)
    ensures And(v, 2 * w) == 2 * And(v / 2, w)
  {
  }

  lemma {:induction false} ShrShl(v: nat, n: nat)
    ensures Shr(Shl(v, n), n) == v
  {
    if n > 0 {
      ShrShl(v, n - 1);
      MulAssoc(2, Pow2(n - 1), v);
      assert Shl(v, n) / 2 == Shl(v, n - 1);
    }
  }

  lemma {:induction false} OrComm(a: nat, b: nat)
    ensures Or(a, b) == Or(b, a)
    decreases a + b
  {
    if a != 0 && b != 0 { OrComm(a / 2, b / 2); }
  }

  /** Or-ing in bits above the ones in use adds them. */
  lemma {:induction false} OrShifted(v: nat, n: nat, w: nat)
    requires v < Pow2(n)
    ensures Or(v, Shl(w, n)) == v + Pow2(n) * w
  {
    if n > 0 {
      OrShifted(v / 2, n - 1, w);
      MulAssoc(2, Pow2(n - 1), w);
      var x := Shl(w, n);
      assert x == 2 * Shl(w, n - 1);
      assert x % 2 == 0 && x / 2 == Shl(w, n - 1);
    }
  }

  // ---------- single bits ----------

  /** Bit `i` of `v`. */
  predicate BitAt(v: nat, i: nat) {
    if i == 0 then v % 2 == 1 else BitAt(v / 2, i - 1)
  }

  lemma {:induction false} BitAtLsb(v: nat, n: nat, i: nat)
    requires i < n
    ensures LsbBits(v, n)[i] == BitAt(v, i)
  {
    LsbBitsDef(v, n);
    if i > 0 { BitAtLsb(v / 2, n - 1, i - 1); }
  }

  lemma {:induction false} BitAtMsb(v: nat, n: nat, i: nat)
    requires i < n
    ensures MsbBits(v, n)[n - 1 - i] == BitAt(v, i)
  {
    if i > 0 { BitAtMsb(v / 2, n - 1, i - 1); }
  }

  lemma {:induction false} BitAtZero(i: nat)
    ensures !BitAt(0, i)
  {
    if i > 0 { BitAtZero(i - 1); }
  }

  lemma {:induction false} BitAtAnd(a: nat, b: nat, i: nat)
    ensures BitAt(And(a, b), i) == (BitAt(a, i) && BitAt(b, i))
  {
    if a == 0 || b == 0 {
      BitAtZero(i);
    } else if i > 0 {
      BitAtAnd(a / 2, b / 2, i - 1);
    }
  }

  lemma {:induction false} BitAtOr(a: nat, b: nat, i: nat)
    ensures BitAt(Or(a, b), i) == (BitAt(a, i) || BitAt(b, i))
  {
    if a == 0 || b == 0 {
      BitAtZero(i);
    } else if i > 0 {
      BitAtOr(a / 2, b / 2, i - 1);
    }
  }

  lemma {:induction false} BitAtShr(v: nat, n: nat, i: nat)
    ensures BitAt(Shr(v, n), i) == BitAt(v, i + n)
  {
    if n > 0 { BitAtShr(v / 2, n - 1, i); }
  }

  lemma {:induction false} BitAtShl(v: nat, n: nat, i: nat)
    ensures BitAt(Shl(v, n), i) == (i >= n && BitAt(v, i - n))
  {
    if n > 0 {
      MulAssoc(2, Pow2(n - 1), v);
      var x := Shl(v, n - 1);
      assert Shl(v, n) == 2 * x && 2 * x / 2 == x && (2 * x) % 2 == 0;
      if i > 0 { BitAtShl(v, n - 1, i - 1); }
    }
  }

  // ---------- stbi__bitreverse16 ----------

  /** One of the four swap steps: `((n & hi) >> k) | ((n & lo) << k)` */
  function SwapStep(n: nat, hi: nat, lo: nat, k: nat): nat {
    Or(Shr(And(n, hi), k), Shl(And(n, lo), k))
  }

  lemma SwapStepBit(n: nat, hi: nat, lo: nat, k: nat, i: nat)
    ensures BitAt(SwapStep(n, hi, lo, k), i)
         == ((BitAt(n, i + k) && BitAt(hi, i + k)) || (i >= k && BitAt(n, i - k) && BitAt(lo, i - k)))
  {
    BitAtOr(Shr(And(n, hi), k), Shl(And(n, lo), k), i);
    BitAtShr(And(n, hi), k, i);
    BitAtAnd(n, hi, i + k);
    BitAtShl(And(n, lo), k, i);
    if i >= k { BitAtAnd(n, lo, i - k); }
  }

  function BitReverse16(n: nat): nat {
    var n1 := SwapStep(n, 0xAAAA, 0x5555, 1);
    var n2 := SwapStep(n1, 0xCCCC, 0x3333, 2);
    var n3 := SwapStep(n2, 0xF0F0, 0x0F0F, 4);
    SwapStep(n3, 0xFF00, 0x00FF, 8)
  }

  /** `stbi__bit_reverse(v, bits)` */
  function BitReverse(v: nat, bits: nat): nat
    requires bits <= 16
  {
    Shr(BitReverse16(v), 16 - bits)
  }

  lemma {:induction false} BitAtJoin(v: nat, n: nat, w: nat, i: nat)
    requires v < Pow2(n)
    ensures BitAt(v + Shl(w, n), i) == if i < n then BitAt(v, i) else BitAt(w, i - n)
  {
    if n > 0 {
      MulAssoc(2, Pow2(n - 1), w);
      var x := v + Shl(w, n);
      assert x % 2 == v % 2 && x / 2 == v / 2 + Shl(w, n - 1);
      if i > 0 { BitAtJoin(v / 2, n - 1, w, i - 1); }
    }
  }

  lemma {:induction false} BitAtMask(n: nat, i: nat)
    ensures BitAt(Mask(n), i) == (i < n)
  {
    if n == 0 {
      BitAtZero(i);
    } else {
      assert Mask(n) == 2 * Mask(n - 1) + 1;
      if i > 0 { BitAtMask(n - 1, i - 1); }
    }
  }

  /** `b` blocks of `k` zero bits followed by `k` one bits, and the complementary pattern. */
  function StripesHi(k: nat, b: nat): nat {
    if b == 0 then 0 else Shl(Mask(k), k) + Shl(StripesHi(k, b - 1), 2 * k)
  }

  function StripesLo(k: nat, b: nat): nat {
    if b == 0 then 0 else Mask(k) + Shl(StripesLo(k, b - 1), 2 * k)
  }

  /** Does bit `i` lie in the upper half of its block of `2 * k` bits? */
  predicate Upper(k: nat, i: nat)
    requires k > 0
    decreases i
  {
    i >= k && !Upper(k, i - k)
  }

  lemma StripeFits(k: nat)
    ensures Shl(Mask(k), k) < Pow2(2 * k) && Mask(k) < Pow2(2 * k)
  {
    Pow2Add(k, k);
    MulMono(Mask(k), Pow2(k), Pow2(k));
    Pow2Mono(k, 2 * k);
    MulDistrib(Mask(k), 1, Pow2(k));
  }

  lemma {:induction false} StripesAt(k: nat, b: nat, i: nat)
    requires k > 0
    ensures BitAt(StripesHi(k, b), i) == (i < b * (2 * k) && Upper(k, i))
    ensures BitAt(StripesLo(k, b), i) == (i < b * (2 * k) && !Upper(k, i))
  {
    if b == 0 {
      BitAtZero(i);
    } else {
      MulDistrib(b - 1, 1, 2 * k);
      assert b * (2 * k) == (b - 1) * (2 * k) + 2 * k;
      var r := (b - 1) * (2 * k);
      StripeFits(k);
      BitAtJoin(Shl(Mask(k), k), 2 * k, StripesHi(k, b - 1), i);
      BitAtJoin(Mask(k), 2 * k, StripesLo(k, b - 1), i);
      BitAtShl(Mask(k), k, i);
      BitAtMask(k, i);
      if i >= k { BitAtMask(k, i - k); }
      if i >= 2 * k { StripesAt(k, b - 1, i - 2 * k); }
    }
  }

  lemma Masks()
    ensures StripesHi(1, 8) == 0xAAAA && StripesLo(1, 8) == 0x5555
    ensures StripesHi(2, 4) == 0xCCCC && StripesLo(2, 4) == 0x3333
    ensures StripesHi(4, 2) == 0xF0F0 && StripesLo(4, 2) == 0x0F0F
    ensures StripesHi(8, 1) == 0xFF00 && StripesLo(8, 1) == 0x00FF
  {
  }

  /** Where bit `i` of a swap step of width `k` comes from. */
  function Partner(k: nat, i: nat): int
    requires k > 0
  {
    if Upper(k, i) then i - k else i + k
  }

  /** A bit in the lower half of its block has its partner inside the word too. */
  lemma {:induction false} UpperRoom(k: nat, b: nat, i: nat)
    requires k > 0 && i < b * (2 * k) && !Upper(k, i)
    ensures i + k < b * (2 * k)
  {
    MulDistrib(b - 1, 1, 2 * k);
    if i >= 2 * k {
      assert Upper(k, i - k);
      UpperRoom(k, b - 1, i - 2 * k);
    } else {
      MulMono(1, b, 2 * k);
    }
  }

  lemma SwapStepAt(n: nat, k: nat, b: nat, i: nat)
    requires k > 0 && b * (2 * k) == 16 && i < 16
    ensures 0 <= Partner(k, i) < 16
    ensures BitAt(SwapStep(n, StripesHi(k, b), StripesLo(k, b), k), i) == BitAt(n, Partner(k, i))
  {
    SwapStepBit(n, StripesHi(k, b), StripesLo(k, b), k, i);
    StripesAt(k, b, i + k);
    assert Upper(k, i + k) == !Upper(k, i);
    if !Upper(k, i) { UpperRoom(k, b, i); }
    if i >= k { StripesAt(k, b, i - k); }
  }

  lemma UpperMod(i: nat)
    ensures Upper(1, i) == (i % 2 >= 1)
    ensures Upper(2, i) == (i % 4 >= 2)
    ensures Upper(4, i) == (i % 8 >= 4)
    ensures Upper(8, i) == (i % 16 >= 8)
  {
    UpperMod1(i); UpperMod2(i); UpperMod4(i); UpperMod8(i);
  }

  lemma UpperMod1(i: nat) ensures Upper(1, i) == (i % 2 >= 1) {}
  lemma UpperMod2(i: nat) ensures Upper(2, i) == (i % 4 >= 2) {}
  lemma UpperMod4(i: nat) ensures Upper(4, i) == (i % 8 >= 4) {}
  lemma UpperMod8(i: nat) ensures Upper(8, i) == (i % 16 >= 8) {}

  lemma PartnerChain(i: nat)
    requires i < 16
    ensures 0 <= Partner(8, i) < 16
    ensures 0 <= Partner(4, Partner(8, i)) < 16
    ensures 0 <= Partner(2, Partner(4, Partner(8, i))) < 16
    ensures Partner(1, Partner(2, Partner(4, Partner(8, i)))) == 15 - i
  {
    UpperMod(i);
    var i8 := if i % 16 >= 8 then i - 8 else i + 8;
    UpperMod(i8);
    var i4 := if i8 % 8 >= 4 then i8 - 4 else i8 + 4;
    UpperMod(i4);
    var i2 := if i4 % 4 >= 2 then i4 - 2 else i4 + 2;
    UpperMod(i2);
  }

  lemma BitReverse16At(n: nat, i: nat)
    requires i < 16
    ensures BitAt(BitReverse16(n), i) == BitAt(n, 15 - i)
  {
    Masks();
    var n1 := SwapStep(n, 0xAAAA, 0x5555, 1);
    var n2 := SwapStep(n1, 0xCCCC, 0x3333, 2);
    var n3 := SwapStep(n2, 0xF0F0, 0x0F0F, 4);
    PartnerChain(i);
    var i8 := Partner(8, i);
    var i4 := Partner(4, i8);
    var i2 := Partner(2, i4);
    SwapStepAt(n3, 8, 1, i);
    SwapStepAt(n2, 4, 2, i8);
    SwapStepAt(n1, 2, 4, i4);
    SwapStepAt(n, 1, 8, i2);
  }

  lemma {:induction false} AndBound(a: nat, b: nat)
    ensures And(a, b) <= b
  {
    if a != 0 && b != 0 { AndBound(a / 2, b / 2); }
  }

  lemma {:induction false} OrBound(a: nat, b: nat, n: nat)
    requires a < Pow2(n) && b < Pow2(n)
    ensures Or(a, b) < Pow2(n)
    decreases n
  {
    if a != 0 && b != 0 { OrBound(a / 2, b / 2, n - 1); }
  }

  lemma BitReverse16Bound(n: nat)
    ensures BitReverse16(n) < Pow2(16)
  {
    var n1 := SwapStep(n, 0xAAAA, 0x5555, 1);
    var n2 := SwapStep(n1, 0xCCCC, 0x3333, 2);
    var n3 := SwapStep(n2, 0xF0F0, 0x0F0F, 4);
    Pow2Small();
    AndBound(n3, 0xFF00);
    AndBound(n3, 0x00FF);
    Pow2Mono(8, 16);
    ShrBound(And(n3, 0xFF00), 8, 16);
    OrBound(Shr(And(n3, 0xFF00), 8), Shl(And(n3, 0x00FF), 8), 16);
  }

  lemma {:induction false} MsbLow(v: nat, n: nat, m: nat)
    requires m <= n
    ensures MsbBits(v, n)[n - m..] == MsbBits(v, m)
  {
    if m > 0 {
      MsbLow(v / 2, n - 1, m - 1);
      assert MsbBits(v, n)[n - m..] == MsbBits(v / 2, n - 1)[n - m..] + [v % 2 == 1];
    }
  }

  /** `stbi__bit_reverse` reverses the low `bits` bits, whatever lies above them. */
  lemma BitReverseCorrect(v: nat, bits: nat)
    requires bits <= 16
    ensures BitReverse(v, bits) == Reverse(v, bits)
    ensures BitReverse(v, bits) < Pow2(bits)
  {
    var x, d := BitReverse16(v), 16 - bits;
    assert LsbBits(x, 16) == MsbBits(v, 16) by {
      forall i | 0 <= i < 16
        ensures LsbBits(x, 16)[i] == MsbBits(v, 16)[i]
      {
        BitAtLsb(x, 16, i);
        BitReverse16At(v, i);
        BitAtMsb(v, 16, 15 - i);
      }
    }
    LsbSplit(x, d, bits);
    MsbLow(v, 16, bits);
    assert LsbBits(Shr(x, d), bits) == LsbBits(x, 16)[d..];
    BitReverse16Bound(v);
    ShrBound(x, d, 16);
    LsbBitsSmall(Shr(x, d), bits);
  }
}
