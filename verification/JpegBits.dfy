/** The 32-bit window of the JPEG reader: bits are used from the top, and those not filled yet are zero. */
module JpegBits {
  import opened Bits
  import opened BitOps

  // ---------- numbers and bit strings, most significant bit first ----------

  lemma {:induction false} MsbAppend(a: seq<bool>, b: seq<bool>)
    ensures MsbVal(a + b) == MsbVal(a) * Pow2(|b|) + MsbVal(b)
  {
    if b == [] {
      assert a + b == a;
    } else {
      var c := b[..|b| - 1];
      var ab := a + b;
      MsbAppend(a, c);
      assert ab[..|ab| - 1] == a + c && ab[|ab| - 1] == b[|b| - 1];
      TwiceProduct(MsbVal(a), Pow2(|c|));
    }
  }

  lemma TwiceProduct(a: nat, p: nat)
    ensures a * (2 * p) == 2 * (a * p)
  {
  }

  lemma {:induction false} MsbZeros(n: nat)
    ensures MsbVal(Zeros(n)) == 0
  {
    if n > 0 {
      MsbZeros(n - 1);
      assert Zeros(n)[..n - 1] == Zeros(n - 1);
    }
  }

  lemma MsbAppendZeros(a: seq<bool>, n: nat)
    ensures MsbVal(a + Zeros(n)) == MsbVal(a) * Pow2(n) == Shl(MsbVal(a), n)
  {
    MsbAppend(a, Zeros(n));
    MsbZeros(n);
    ShlProduct(MsbVal(a), n);
  }

  /** Shifting a word of `w` bits to the left drops its first bits. */
  lemma ShiftWord(v: nat, w: nat, s: nat)
    requires v < Pow2(w) && s <= w
    ensures MsbBits(Shl(v, s) % Pow2(w), w) == MsbBits(v, w)[s..] + Zeros(s)
  {
    var b := MsbBits(v, w);
    MsbValBits(v, w);
    ShiftValue(b[..s], b[s..], w, s, v) by { assert b == b[..s] + b[s..]; }
    MsbBitsVal(b[s..] + Zeros(s));
  }

  lemma ShiftValue(hi: seq<bool>, lo: seq<bool>, w: nat, s: nat, v: nat)
    requires |hi| == s <= w && |lo| == w - s && v == MsbVal(hi + lo)
    ensures Shl(v, s) % Pow2(w) == MsbVal(lo + Zeros(s))
  {
    MsbAppend(hi, lo);
    MsbAppendZeros(lo, s);
    MsbValBound(lo + Zeros(s));
    ShiftOut(MsbVal(hi), MsbVal(lo), w, s);
  }

  lemma ShiftOut(hi: nat, lo: nat, w: nat, s: nat)
    requires s <= w && lo * Pow2(s) < Pow2(w)
    ensures Shl(hi * Pow2(w - s) + lo, s) % Pow2(w) == lo * Pow2(s)
  {
    Pow2Add(w - s, s);
    MulAssoc(hi, Pow2(w - s), Pow2(s));
    MulDistrib(hi * Pow2(w - s), lo, Pow2(s));
    DivModUnique(hi * Pow2(w) + lo * Pow2(s), Pow2(w), hi, lo * Pow2(s));
    ShlProduct(hi * Pow2(w - s) + lo, s);
  }

  lemma MulComm(a: nat, b: nat)
    ensures a * b == b * a
  {
  }

  lemma ShlProduct(v: nat, n: nat)
    ensures Shl(v, n) == v * Pow2(n)
  {
  }

  /** The top bits of a word, as a number. */
  lemma TopBits(v: nat, w: nat, k: nat)
    requires v < Pow2(w) && k <= w
    ensures Shr(v, w - k) == MsbVal(MsbBits(v, w)[..k]) < Pow2(k)
  {
    MsbValBits(v, w);
    MsbPrefix(MsbBits(v, w), k);
    MsbValBound(MsbBits(v, w)[..k]);
  }

  // ---------- the window ----------

  /** The low bits of the window that are not filled are zero. (`k`, always left at its default, keeps this and `Ahead`
      folded.) */
  ghost predicate Clean(buffer: nat, n: int, k: nat := 3)
    decreases n, k
  {
    && 0 <= n <= 32 && buffer < Pow2(32)
    && if k > 0 then Clean(buffer, n, k - 1) else MsbBits(buffer, 32)[n..] == Zeros(32 - n)
  }

  /** The bytes as bits, most significant first. */
  function MsbBytes(s: seq<byte>): (b: seq<bool>)
    ensures |b| == 8 * |s|
  {
    if s == [] then [] else MsbBits(s[0], 8) + MsbBytes(s[1..])
  }

  /** The bits in the window and those of the bytes that come after it. */
  ghost function Ahead(buffer: nat, n: nat, bytes: seq<byte>, k: nat := 3): (r: seq<bool>)
    requires n <= 32
    ensures |r| == n + 8 * |bytes|
    decreases n, k
  {
    if k > 0 then Ahead(buffer, n, bytes, k - 1) else MsbBits(buffer, 32)[..n] + MsbBytes(bytes)
  }

  lemma CleanDef(buffer: nat, n: int)
    ensures Clean(buffer, n) <==> 0 <= n <= 32 && buffer < Pow2(32) && MsbBits(buffer, 32)[n..] == Zeros(32 - n)
  {
    assert Clean(buffer, n, 1) == Clean(buffer, n, 0);
    assert Clean(buffer, n, 2) == Clean(buffer, n, 1);
  }

  lemma AheadDef(buffer: nat, n: nat, bytes: seq<byte>)
    requires n <= 32
    ensures Ahead(buffer, n, bytes) == MsbBits(buffer, 32)[..n] + MsbBytes(bytes)
  {
    assert Ahead(buffer, n, bytes, 1) == Ahead(buffer, n, bytes, 0);
    assert Ahead(buffer, n, bytes, 2) == Ahead(buffer, n, bytes, 1);
  }

  lemma Empty(bytes: seq<byte>)
    ensures Clean(0, 0) && Ahead(0, 0, bytes) == MsbBytes(bytes)
  {
    CleanDef(0, 0);
    AheadDef(0, 0, bytes);
    MsbZeros(32);
    MsbBitsVal(Zeros(32));
    assert MsbBits(0, 32)[..0] == [];
  }

  /** A window that holds the bits `x`. */
  lemma Holding(buffer: nat, x: seq<bool>, bytes: seq<byte>)
    requires |x| <= 32 && buffer < Pow2(32) && MsbBits(buffer, 32) == x + Zeros(32 - |x|)
    ensures Clean(buffer, |x|) && Ahead(buffer, |x|, bytes) == x + MsbBytes(bytes)
  {
    CleanDef(buffer, |x|);
    AheadDef(buffer, |x|, bytes);
  }

  /** The bits in a window. */
  lemma Held(buffer: nat, n: int, bytes: seq<byte>) returns (x: seq<bool>)
    requires Clean(buffer, n)
    ensures |x| == n <= 32 && buffer < Pow2(32) && MsbBits(buffer, 32) == x + Zeros(32 - n)
    ensures Ahead(buffer, n, bytes) == x + MsbBytes(bytes)
  {
    CleanDef(buffer, n);
    AheadDef(buffer, n, bytes);
    x := MsbBits(buffer, 32)[..n];
    assert MsbBits(buffer, 32) == x + MsbBits(buffer, 32)[n..];
  }

  /** A byte enters the window below the bits there. */
  lemma AddByte(buffer: nat, n: int, b: byte, bytes: seq<byte>)
    requires Clean(buffer, n) && n <= 24
    ensures Or(buffer, Shl(b, 24 - n)) < Pow2(32) && Clean(Or(buffer, Shl(b, 24 - n)), n + 8)
    ensures Ahead(Or(buffer, Shl(b, 24 - n)), n + 8, bytes) == Ahead(buffer, n, [b] + bytes)
  {
    var x := Held(buffer, n, [b] + bytes);
    var y := MsbBits(b, 8);
    OrByte(buffer, n, b, x);
    MsbAppendZeros(x + y, 24 - n);
    MsbBitsVal(x + y + Zeros(24 - n));
    MsbValBound(x + y + Zeros(24 - n));
    Holding(Or(buffer, Shl(b, 24 - n)), x + y, bytes);
    BytesCons(x, b, bytes);
  }

  lemma BytesCons(x: seq<bool>, b: byte, bytes: seq<byte>)
    ensures x + MsbBytes([b] + bytes) == x + MsbBits(b, 8) + MsbBytes(bytes)
  {
    assert ([b] + bytes)[1..] == bytes;
  }

  lemma OrByte(buffer: nat, n: int, b: byte, x: seq<bool>)
    requires 0 <= n <= 24 && |x| == n && buffer < Pow2(32) && MsbBits(buffer, 32) == x + Zeros(32 - n)
    ensures Or(buffer, Shl(b, 24 - n)) == Shl(MsbVal(x + MsbBits(b, 8)), 24 - n)
  {
    Pow2Byte();
    MsbValBits(b, 8);
    MsbValBits(buffer, 32);
    MsbAppendZeros(x, 32 - n);
    MsbAppend(x, MsbBits(b, 8));
    OrParts(MsbVal(x), b, n);
  }

  lemma OrParts(v: nat, b: byte, n: nat)
    requires n <= 24
    ensures Or(Shl(v, 32 - n), Shl(b, 24 - n)) == Shl(v * 256 + b, 24 - n)
  {
    var p := Pow2(24 - n);
    Pow2Small();
    Pow2Add(8, 24 - n);
    ShlProduct(b, 24 - n);
    MulMono(b + 1, 256, p);
    MulDistrib(b, 1, p);
    OrShifted(Shl(b, 24 - n), 32 - n, v);
    OrComm(Shl(b, 24 - n), Shl(v, 32 - n));
    MulAssoc(v, 256, p);
    MulDistrib(v * 256, b, p);
    ShlProduct(v * 256 + b, 24 - n);
    MulComm(Pow2(32 - n), v);
  }

  /** The first `s` bits leave the window. */
  lemma DropBits(buffer: nat, n: int, s: nat, bytes: seq<byte>)
    requires Clean(buffer, n) && s <= n
    ensures Clean(Shl(buffer, s) % Pow2(32), n - s)
    ensures Ahead(Shl(buffer, s) % Pow2(32), n - s, bytes) == Ahead(buffer, n, bytes)[s..]
  {
    var x := Held(buffer, n, bytes);
    ShiftWord(buffer, 32, s);
    CutFront(x, Zeros(32 - n), s);
    CutFront(x, MsbBytes(bytes), s);
    MoreZeros(x[s..], 32 - n, s);
    Holding(Shl(buffer, s) % Pow2(32), x[s..], bytes);
  }

  lemma CutFront(x: seq<bool>, y: seq<bool>, s: nat)
    requires s <= |x|
    ensures (x + y)[s..] == x[s..] + y
  {
  }

  lemma MoreZeros(x: seq<bool>, m: nat, n: nat)
    ensures x + Zeros(m) + Zeros(n) == x + Zeros(m + n)
  {
  }

  /** The top bits of the window are the next bits, followed by zeros if there are not that many. */
  lemma PeekBits(buffer: nat, n: int, k: nat, bytes: seq<byte>) returns (p: seq<bool>)
    requires Clean(buffer, n) && k <= 32
    ensures |p| == k && p == MsbBits(buffer, 32)[..k] && Shr(buffer, 32 - k) == MsbVal(p) < Pow2(k)
    ensures k <= n ==> p == Ahead(buffer, n, bytes)[..k]
    ensures k > n && bytes == [] ==> p == Ahead(buffer, n, bytes) + Zeros(k - n)
  {
    var x := Held(buffer, n, bytes);
    TopBits(buffer, 32, k);
    p := MsbBits(buffer, 32)[..k];
    if k <= n {
      assert p == x[..k];
      assert p == (x + MsbBytes(bytes))[..k];
    } else if bytes == [] {
      assert p == x + Zeros(k - n);
    }
  }

  /** `~bmask[n]`, as a 32-bit number. */
  function HighMask(n: nat): nat
    requires n <= 32
  {
    Shl(Mask(32 - n), n)
  }

  /** `stbi_lrot` and the two masks of `stbi__extend_receive`: the first `n` bits come out, the rest moves up. */
  lemma Rotate(v: nat, n: nat)
    requires v < Pow2(32) && 1 <= n <= 16
    ensures var k := Or(Shl(v, n) % Pow2(32), Shr(v, 32 - n));
            && k < Pow2(32) && And(k, Mask(n)) == Shr(v, 32 - n) == MsbVal(MsbBits(v, 32)[..n])
            && And(k, HighMask(n)) == Shl(v, n) % Pow2(32)
  {
    TopBits(v, 32, n);
    var top, low := Shr(v, 32 - n), v % Pow2(32 - n);
    ShrDiv(v, 32 - n);
    DivModDef(v, Pow2(32 - n));
    ShiftedLow(v, top, low, n);
    Rotated(top, low, n);
  }

  lemma Rotated(top: nat, low: nat, n: nat)
    requires 1 <= n <= 16 && top < Pow2(n) && low < Pow2(32 - n)
    ensures var k := Or(Shl(low, n), top); k < Pow2(32) && And(k, Mask(n)) == top && And(k, HighMask(n)) == Shl(low, n)
  {
    OrShifted(top, n, low);
    OrComm(top, Shl(low, n));
    MulComm(Pow2(n), low);
    RotateMasks(top, low, n, top + Pow2(n) * low);
  }

  lemma ShiftedLow(v: nat, top: nat, low: nat, n: nat)
    requires n <= 16 && low < Pow2(32 - n) && v == top * Pow2(32 - n) + low
    ensures Shl(v, n) % Pow2(32) == Shl(low, n)
  {
    LowFits(low, n);
    ShiftOut(top, low, 32, n);
    ShlProduct(low, n);
  }

  lemma LowFits(low: nat, n: nat)
    requires n <= 16 && low < Pow2(32 - n)
    ensures low * Pow2(n) + Pow2(n) <= Pow2(32)
  {
    Pow2Add(32 - n, n);
    MulMono(low + 1, Pow2(32 - n), Pow2(n));
    MulDistrib(low, 1, Pow2(n));
  }

  lemma RotateMasks(top: nat, low: nat, n: nat, k: nat)
    requires 1 <= n <= 16 && top < Pow2(n) && low < Pow2(32 - n) && k == low * Pow2(n) + top
    ensures k < Pow2(32) && And(k, Mask(n)) == top && And(k, HighMask(n)) == Shl(low, n)
  {
    LowFits(low, n);
    DivModUnique(k, Pow2(n), low, top);
    AndMask(k, n);
    HighBits(k, low, n);
  }

  lemma HighBits(k: nat, low: nat, n: nat)
    requires n <= 16 && low < Pow2(32 - n) && k / Pow2(n) == low
    ensures And(k, HighMask(n)) == Shl(low, n)
  {
    ShrDiv(k, n);
    AndShl(k, Mask(32 - n), n);
    AndMask(low, 32 - n);
    DivModUnique(low, Pow2(32 - n), 0, low);
  }
}
