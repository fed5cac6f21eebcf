/** Bytes, bit strings and the two bit orders that DEFLATE mixes.

    A bit string is a `seq<bool>` in the order in which the bits leave the compressor and reach the
    inflater. Integers are packed with their least significant bit first, Huffman codes with their
    most significant bit first; the C code's shifts and masks are related to both below. */
module Bits {

  type byte = x: int | 0 <= x < 0x100
  type u16 = x: int | 0 <= x < 0x1_0000
  type u32 = x: int | 0 <= x < 0x1_0000_0000

  function Pow2(n: nat): (r: nat)
    ensures r > 0
  {
    if n == 0 then 1 else 2 * Pow2(n - 1)
  }

  /** `v >> n` */
  function Shr(v: nat, n: nat): nat {
    if n == 0 then v else Shr(v / 2, n - 1)
  }

  function Bit(b: bool): (r: nat) { if b then 1 else 0 }

  /** The number whose bits are `b`, least significant first. */
  function LsbVal(b: seq<bool>): nat {
    if b == [] then 0 else Bit(b[0]) + 2 * LsbVal(b[1..])
  }

  /** The low `n` bits of `v`, least significant first. (`k`, always left at its default, keeps the definition
      folded; the lemma `LsbBitsDef` unfolds it. The same device is used for other definitions below.) */
  function LsbBits(v: nat, n: nat, k: nat := 3): (b: seq<bool>)
    ensures |b| == n
    decreases v, n, k
  {
    if k > 0 then LsbBits(v, n, k - 1)
    else if n == 0 then [] else [v % 2 == 1] + LsbBits(v / 2, n - 1)
  }

  lemma LsbBitsDef(v: nat, n: nat)
    ensures LsbBits(v, n) == if n == 0 then [] else [v % 2 == 1] + LsbBits(v / 2, n - 1)
  {
    assert LsbBits(v, n, 1) == LsbBits(v, n, 0);
    assert LsbBits(v, n, 2) == LsbBits(v, n, 1);
  }

  /** A 16-bit field holds one number. */
  lemma WordInjective(v: nat, w: nat)
    requires v < 0x1_0000 && w < 0x1_0000 && LsbBits(v, 16) == LsbBits(w, 16)
    ensures v == w
  {
    Pow2Small();
    LsbBitsSmall(v, 16);
    LsbBitsSmall(w, 16);
  }

  /** The number whose bits are `b`, most significant first. */
  function MsbVal(b: seq<bool>): nat {
    if b == [] then 0 else 2 * MsbVal(b[..|b| - 1]) + Bit(b[|b| - 1])
  }

  /** The low `n` bits of `v`, most significant first. */
  function MsbBits(v: nat, n: nat): (b: seq<bool>)
    ensures |b| == n
  {
    if n == 0 then [] else MsbBits(v / 2, n - 1) + [v % 2 == 1]
  }

  function Zeros(n: nat): (b: seq<bool>)
    ensures |b| == n
  {
    seq(n, _ => false)
  }

  function ByteBits(s: seq<byte>, k: nat := 3): (b: seq<bool>)
    ensures |b| == 8 * |s|
    decreases |s|, k
  {
    if k > 0 then ByteBits(s, k - 1)
    else if s == [] then [] else LsbBits(s[0], 8) + ByteBits(s[1..])
  }

  lemma ByteBitsDef(s: seq<byte>)
    ensures ByteBits(s) == if s == [] then [] else LsbBits(s[0], 8) + ByteBits(s[1..])
  {
    assert ByteBits(s, 1) == ByteBits(s, 0);
    assert ByteBits(s, 2) == ByteBits(s, 1);
  }

  // ---------- powers of two ----------

  lemma {:induction false} Pow2Add(a: nat, b: nat)
    ensures Pow2(a + b) == Pow2(a) * Pow2(b)
  {
    if a > 0 {
      Pow2Add(a - 1, b);
      MulAssoc(2, Pow2(a - 1), Pow2(b));
    }
  }

  lemma MulAssoc(a: int, b: int, c: int)
    ensures a * (b * c) == (a * b) * c
  {
  }

  lemma {:induction false} Pow2Mono(a: nat, b: nat)
    requires a <= b
    ensures Pow2(a) <= Pow2(b)
    decreases b
  {
    if a < b { Pow2Mono(a, b - 1); }
  }

  lemma Pow2Small()
    ensures Pow2(1) == 2 && Pow2(2) == 4 && Pow2(3) == 8 && Pow2(4) == 16 && Pow2(5) == 32
    ensures Pow2(6) == 64 && Pow2(7) == 128 && Pow2(8) == 256 && Pow2(9) == 512 && Pow2(15) == 32768
    ensures Pow2(16) == 65536 && Pow2(32) == 0x1_0000_0000
  {
    assert Pow2(4) == 16;
    assert Pow2(8) == 256;
    assert Pow2(12) == 4096;
    assert Pow2(16) == 65536;
    Pow2Add(16, 16);
  }

  // ---------- division facts, kept apart so that no other proof needs non-linear arithmetic ----------

  lemma Pow2Byte()
    ensures Pow2(8) == 0x100
  {
  }

  lemma Pow2Word()
    ensures Pow2(16) == 0x1_0000
  {
    Pow2Small();
  }

  lemma Pow2Double()
    ensures Pow2(32) == 0x1_0000_0000
  {
    Pow2Small();
  }

  lemma MulMono(a: int, b: int, c: nat)
    requires a <= b
    ensures a * c <= b * c
  {
  }

  lemma MulDistrib(a: int, b: int, c: int)
    ensures (a + b) * c == a * c + b * c
  {
  }

  lemma DivModDef(a: nat, d: nat)
    requires d > 0
    ensures a == (a / d) * d + a % d && 0 <= a % d < d && 0 <= a / d
  {
  }

  /** Two quotient-remainder splittings by the same divisor are equal. */
  lemma QuotientUnique(d: nat, q: int, r: nat, q': int, r': nat)
    requires r < d && r' < d && q * d + r == q' * d + r'
    ensures q == q' && r == r'
  {
    if q < q' {
      MulMono(q + 1, q', d);
      MulDistrib(q, 1, d);
      assert false;
    } else if q' < q {
      MulMono(q' + 1, q, d);
      MulDistrib(q', 1, d);
      assert false;
    }
  }

  lemma DivModUnique(a: nat, d: nat, q: int, r: nat)
    requires r < d && a == q * d + r
    ensures a / d == q && a % d == r
  {
    DivModDef(a, d);
    QuotientUnique(d, a / d, a % d, q, r);
  }

  /** Residues modulo 8 tell those modulo 4 and 2. */
  lemma Eights(q: nat, m: nat)
    requires m < 8
    ensures (m + 8 * q) / 8 == q && (m + 8 * q) % 8 == m && (m + 8 * q) % 4 == m % 4 && (m + 8 * q) % 2 == m % 2
  {
    DivModUnique(m + 8 * q, 8, q, m);
    DivModUnique(m + 8 * q, 4, 2 * q + m / 4, m % 4);
    DivModUnique(m + 8 * q, 2, 4 * q + m / 2, m % 2);
  }

  lemma DivHalf(v: nat, m: nat)
    requires m > 0
    ensures v / (2 * m) == v / 2 / m
    ensures v % (2 * m) == 2 * ((v / 2) % m) + v % 2
  {
    var q, r := v / 2 / m, (v / 2) % m;
    DivModDef(v / 2, m);
    MulAssoc(q, 2, m);
    MulAssoc(2, q, m);
    DivModUnique(v, 2 * m, q, 2 * r + v % 2);
  }

  lemma {:induction false} ShrDiv(v: nat, n: nat)
    ensures Shr(v, n) == v / Pow2(n)
  {
    if n > 0 {
      ShrDiv(v / 2, n - 1);
      DivHalf(v, Pow2(n - 1));
    }
  }

  lemma {:induction false} ShrBound(v: nat, n: nat, k: nat)
    requires n <= k && v < Pow2(k)
    ensures Shr(v, n) < Pow2(k - n)
  {
    if n > 0 { ShrBound(v / 2, n - 1, k - 1); }
  }

  // ---------- least significant bit first ----------

  lemma {:induction false} LsbValBound(b: seq<bool>)
    ensures LsbVal(b) < Pow2(|b|)
  {
    if b != [] { LsbValBound(b[1..]); }
  }

  lemma {:induction false} LsbBitsVal(b: seq<bool>)
    ensures LsbBits(LsbVal(b), |b|) == b
  {
    LsbBitsDef(LsbVal(b), |b|);
    if b != [] {
      LsbBitsVal(b[1..]);
      assert LsbVal(b) / 2 == LsbVal(b[1..]);
    }
  }

  lemma {:induction false} LsbValBits(v: nat, n: nat)
    ensures LsbVal(LsbBits(v, n)) == v % Pow2(n)
  {
    LsbBitsDef(v, n);
    if n > 0 {
      LsbValBits(v / 2, n - 1);
      DivHalf(v, Pow2(n - 1));
      assert LsbBits(v, n)[1..] == LsbBits(v / 2, n - 1);
    }
  }

  /** Splitting a number at bit `n` splits its bit string at position `n`. */
  lemma {:induction false} LsbSplit(v: nat, n: nat, m: nat)
    ensures LsbBits(v, n + m) == LsbBits(v, n) + LsbBits(Shr(v, n), m)
  {
    LsbBitsDef(v, n + m);
    LsbBitsDef(v, n);
    if n > 0 { LsbSplit(v / 2, n - 1, m); }
  }

  /** Placing `w` above the `n` bits of `v` concatenates the bit strings. */
  lemma {:induction false} LsbJoin(v: nat, n: nat, w: nat, m: nat)
    requires v < Pow2(n)
    ensures LsbBits(v + Pow2(n) * w, n + m) == LsbBits(v, n) + LsbBits(w, m)
  {
    LsbBitsDef(v, n);
    LsbBitsDef(v + Pow2(n) * w, n + m);
    if n > 0 {
      LsbJoin(v / 2, n - 1, w, m);
      MulAssoc(2, Pow2(n - 1), w);
      var x := v + Pow2(n) * w;
      assert x % 2 == v % 2 && x / 2 == v / 2 + Pow2(n - 1) * w;
    }
  }

  /** What masking off and shifting out `n` of `k` buffered bits does to the bit string. */
  lemma LsbTake(v: nat, n: nat, k: nat)
    requires n <= k && v < Pow2(k)
    ensures v % Pow2(n) == LsbVal(LsbBits(v, k)[..n])
    ensures LsbBits(Shr(v, n), k - n) == LsbBits(v, k)[n..]
    ensures Shr(v, n) < Pow2(k - n)
  {
    LsbSplit(v, n, k - n);
    LsbValBits(v, n);
    ShrBound(v, n, k);
  }

  lemma LsbInjective(a: seq<bool>, b: seq<bool>)
    requires |a| == |b| && LsbVal(a) == LsbVal(b)
    ensures a == b
  {
    LsbBitsVal(a);
    LsbBitsVal(b);
  }

  lemma {:induction false} LsbValAppend(a: seq<bool>, b: seq<bool>)
    ensures LsbVal(a + b) == LsbVal(a) + Pow2(|a|) * LsbVal(b)
  {
    if a == [] {
      assert a + b == b;
    } else {
      LsbValAppend(a[1..], b);
      assert (a + b)[1..] == a[1..] + b;
      MulAssoc(2, Pow2(|a| - 1), LsbVal(b));
    }
  }

  lemma {:induction false} LsbZeros(n: nat)
    ensures LsbBits(0, n) == Zeros(n)
  {
    LsbBitsDef(0, n);
    if n > 0 { LsbZeros(n - 1); }
  }

  lemma {:induction false} LsbBitsSmall(v: nat, n: nat)
    requires v < Pow2(n)
    ensures LsbVal(LsbBits(v, n)) == v
  {
    LsbValBits(v, n);
    DivModUnique(v, Pow2(n), 0, v);
  }

  // ---------- most significant bit first ----------

  lemma {:induction false} MsbValBound(b: seq<bool>)
    ensures MsbVal(b) < Pow2(|b|)
  {
    if b != [] { MsbValBound(b[..|b| - 1]); }
  }

  lemma {:induction false} MsbBitsVal(b: seq<bool>)
    ensures MsbBits(MsbVal(b), |b|) == b
  {
    if b != [] {
      MsbBitsVal(b[..|b| - 1]);
      assert MsbVal(b) / 2 == MsbVal(b[..|b| - 1]);
    }
  }

  lemma {:induction false} MsbValBits(v: nat, n: nat)
    requires v < Pow2(n)
    ensures MsbVal(MsbBits(v, n)) == v
  {
    if n > 0 {
      MsbValBits(v / 2, n - 1);
      var b := MsbBits(v, n);
      assert b[..n - 1] == MsbBits(v / 2, n - 1) && b[n - 1] == (v % 2 == 1);
    }
  }

  /** A prefix of a bit string is the high part of its value. */
  lemma {:induction false} MsbPrefix(b: seq<bool>, n: nat)
    requires n <= |b|
    ensures Shr(MsbVal(b), |b| - n) == MsbVal(b[..n])
    decreases |b|
  {
    if n == |b| {
      assert b[..n] == b;
    } else {
      var c := b[..|b| - 1];
      MsbPrefix(c, n);
      assert c[..n] == b[..n];
      assert MsbVal(b) / 2 == MsbVal(c);
    }
  }

  lemma {:induction false} MsbCons(x: bool, b: seq<bool>)
    ensures MsbVal([x] + b) == Bit(x) * Pow2(|b|) + MsbVal(b)
  {
    if b == [] {
      assert [x] + b == [x];
      assert MsbVal([x]) == 2 * MsbVal([x][..0]) + Bit(x);
    } else {
      var c := b[..|b| - 1];
      MsbCons(x, c);
      assert ([x] + b)[..|b|] == [x] + c;
    }
  }

  // ---------- bit reversal ----------

  /** The low `n` bits of `v` in the opposite order. */
  function Reverse(v: nat, n: nat): (r: nat) {
    LsbVal(MsbBits(v, n))
  }

  /** Reversing the first `n` buffered bits reads them as a code, most significant bit first. */
  lemma {:induction false} ReverseIsMsb(v: nat, n: nat)
    ensures Reverse(v, n) == MsbVal(LsbBits(v, n))
  {
    LsbBitsDef(v, n);
    if n > 0 {
      ReverseIsMsb(v / 2, n - 1);
      LsbValAppend(MsbBits(v / 2, n - 1), [v % 2 == 1]);
      assert LsbVal([v % 2 == 1]) == Bit(v % 2 == 1) + 2 * LsbVal([v % 2 == 1][1..]);
      MsbCons(v % 2 == 1, LsbBits(v / 2, n - 1));
    }
  }

  // ---------- byte strings ----------

  lemma {:induction false} ByteBitsAppend(a: seq<byte>, b: seq<byte>)
    ensures ByteBits(a + b) == ByteBits(a) + ByteBits(b)
  {
    ByteBitsDef(a);
    ByteBitsDef(a + b);
    if a == [] {
      assert a + b == b;
    } else {
      ByteBitsAppend(a[1..], b);
      assert (a + b)[1..] == a[1..] + b;
    }
  }

  lemma ByteBitsSnoc(s: seq<byte>, b: byte)
    ensures ByteBits(s + [b]) == ByteBits(s) + LsbBits(b, 8)
  {
    ByteBitsAppend(s, [b]);
    ByteBitsDef([b]);
    ByteBitsDef([b][1..]);
  }

  lemma {:induction false} ByteBitsInjective(a: seq<byte>, b: seq<byte>)
    requires ByteBits(a) == ByteBits(b)
    ensures a == b
  {
    ByteBitsDef(a);
    ByteBitsDef(b);
    assert |a| == |b|;
    if a != [] {
      var x, y := LsbBits(a[0], 8), LsbBits(b[0], 8);
      assert x == ByteBits(a)[..8] && y == ByteBits(b)[..8];
      assert ByteBits(a[1..]) == ByteBits(a)[8..] && ByteBits(b[1..]) == ByteBits(b)[8..];
      Pow2Small();
      LsbBitsSmall(a[0], 8);
      LsbBitsSmall(b[0], 8);
      ByteBitsInjective(a[1..], b[1..]);
    }
  }
}
