/** How a character moves the 256-bit seed: exclusive or, decimal text, hash. The two C++ versions convert to
    decimal and read the digest in different ways. The hash is an arbitrary function. */
module SeedUpdate {
  import opened Bits
  import opened BitOps
  import opened SeedScores

  type digit = x: int | 0 <= x < 10

  function Digit(d: digit): char { (('0' as int) + d) as char }

  /** The decimal text of a number. */
  function Decimal(v: nat): string { if v < 10 then [Digit(v)] else Decimal(v / 10) + [Digit(v % 10)] }

  /** The number whose bytes are `b`, most significant first. */
  function BytesValue(b: seq<byte>): nat { if b == [] then 0 else BytesValue(b[..|b| - 1]) * 256 + b[|b| - 1] }

  /** A hash function with 32-byte digests. */
  ghost predicate Hash(sha: string -> seq<byte>) { forall s :: |sha(s)| == 32 }

  /** The seed after a character. */
  function NextSeed(v: nat, ch: nat, sha: string -> seq<byte>): nat { BytesValue(sha(Decimal(Xor(v, ch)))) }

  // ---------- bytes and words ----------

  /** The last `n` bytes of `v`, most significant first. */
  function WordBytes(v: nat, n: nat): (b: seq<byte>)
    ensures |b| == n
  {
    if n == 0 then [] else WordBytes(v / 256, n - 1) + [v % 256]
  }

  lemma {:induction false} BytesOfWord(v: nat, n: nat)
    requires v < Pow2(8 * n)
    ensures BytesValue(WordBytes(v, n)) == v
  {
    if n > 0 {
      Pow2Add(8 * (n - 1), 8);
      Byte8();
      BytesOfWord(v / 256, n - 1);
      assert WordBytes(v, n)[..n - 1] == WordBytes(v / 256, n - 1);
    }
  }

  lemma Byte8()
    ensures Pow2(8) == 256
  {
    Pow2Small();
  }

  lemma {:induction false} WordByteAt(v: nat, n: nat, j: nat)
    requires j < n
    ensures WordBytes(v, n)[j] == Shr(v, 8 * (n - 1 - j)) % 256
  {
    if j < n - 1 {
      WordByteAt(v / 256, n - 1, j);
      ShrByte(v, 8 * (n - 2 - j));
    }
  }

  lemma {:induction false} ShrByte(v: nat, k: nat)
    ensures Shr(v, 8 + k) == Shr(v / 256, k)
  {
    assert Shr(v, 8 + k) == Shr(v / 2, 7 + k) == Shr(v / 2 / 2, 6 + k);
    assert Shr(v / 2 / 2, 6 + k) == Shr(v / 2 / 2 / 2, 5 + k) == Shr(v / 2 / 2 / 2 / 2, 4 + k);
    var w := v / 2 / 2 / 2 / 2;
    assert Shr(w, 4 + k) == Shr(w / 2, 3 + k) == Shr(w / 2 / 2, 2 + k);
    assert Shr(w / 2 / 2, 2 + k) == Shr(w / 2 / 2 / 2, 1 + k) == Shr(w / 2 / 2 / 2 / 2, k);
  }

  lemma {:induction false} BytesValueAppend(a: seq<byte>, b: seq<byte>)
    ensures BytesValue(a + b) == BytesValue(a) * Pow2(8 * |b|) + BytesValue(b)
  {
    if b == [] {
      assert a + b == a;
    } else {
      var n := |b| - 1;
      BytesValueAppend(a, b[..n]);
      assert (a + b)[..|a| + n] == a + b[..n];
      Pow2Add(8 * n, 8);
      Byte8();
      MulAssoc(BytesValue(a), Pow2(8 * n), 256);
      MulDistrib(BytesValue(a) * Pow2(8 * n), BytesValue(b[..n]), 256);
    }
  }

  lemma {:induction false} BytesBound(b: seq<byte>)
    ensures BytesValue(b) < Pow2(8 * |b|)
  {
    if b != [] {
      BytesBound(b[..|b| - 1]);
      Pow2Add(8 * (|b| - 1), 8);
      Byte8();
    }
  }

  // ---------- exclusive or with a character ----------

  lemma {:induction false} XorBound(a: nat, b: nat, n: nat)
    requires a < Pow2(n) && b < Pow2(n)
    ensures Xor(a, b) < Pow2(n)
  {
    if n > 0 && a != 0 && b != 0 { XorBound(a / 2, b / 2, n - 1); }
  }

  /** Exclusive or with a small number leaves the high part alone. */
  lemma {:induction false} XorLow(hi: nat, lo: nat, c: nat, n: nat)
    requires lo < Pow2(n) && c < Pow2(n)
    ensures Xor(hi * Pow2(n) + lo, c) == hi * Pow2(n) + Xor(lo, c)
  {
    if n > 0 {
      XorLow(hi, lo / 2, c / 2, n - 1);
      MulAssoc(hi, 2, Pow2(n - 1));
      MulAssoc(2, hi, Pow2(n - 1));
      var m := hi * Pow2(n - 1);
      assert hi * Pow2(n) == 2 * m;
      XorStep(2 * m + lo, c, m + lo / 2);
      XorStep(lo, c, lo / 2);
    }
  }

  lemma XorStep(a: nat, c: nat, h: nat)
    requires h == a / 2
    ensures Xor(a, c) == Bit((a % 2 == 1) != (c % 2 == 1)) + 2 * Xor(h, c / 2)
  {
    if a == 0 {
      assert Xor(h, c / 2) == c / 2;
    } else if c == 0 {
      assert Xor(h, 0) == h;
    }
  }

  // ---------- CUDA_sample/test/C3/tlforce.cpp ----------

  /** The eight bytes of a word. */
  method PutWord(b: array<byte>, off: nat, v: u64)
    requires off + 8 <= b.Length
    modifies b
    ensures b[..] == old(b[..off]) + WordBytes(v, 8) + old(b[off + 8..])
  {
    ghost var before: seq<byte> := b[..];
    var j := 7;
    while j >= 0
      invariant -1 <= j <= 7
      invariant forall i | 0 <= i < b.Length && !(off + j < i < off + 8) :: b[i] == before[i]
      invariant forall i | j < i < 8 :: b[off + i] == WordBytes(v, 8)[i]
    {
      WordByteAt(v, 8, j);
      b[off + j] := Shr(v, (7 - j) * 8) % 256;
      j := j - 1;
    }
    assert b[off..off + 8] == WordBytes(v, 8);
    assert b[..] == b[..off] + b[off..off + 8] + b[off + 8..];
  }

  ghost function WideBytes(t: Wide): seq<byte> {
    WordBytes(t.hi2, 8) + WordBytes(t.hi1, 8) + WordBytes(t.lo1, 8) + WordBytes(t.lo0, 8)
  }

  lemma WideBytesValue(t: Wide)
    ensures BytesValue(WideBytes(t)) == t.Value()
  {
    var a, b, c, d: seq<byte> := WordBytes(t.hi2, 8), WordBytes(t.hi1, 8), WordBytes(t.lo1, 8), WordBytes(t.lo0, 8);
    Pow64();
    BytesOfWord(t.hi2, 8);
    BytesOfWord(t.hi1, 8);
    BytesOfWord(t.lo1, 8);
    BytesOfWord(t.lo0, 8);
    BytesValueAppend(a, b);
    BytesValueAppend(a + b, c);
    BytesValueAppend(a + b + c, d);
  }

  /** The seed as 32 bytes. */
  method Bignum(t: Wide) returns (b: array<byte>)
    ensures fresh(b) && b.Length == 32 && BytesValue(b[..]) == t.Value()
  {
    b := new byte[32](_ => 0);
    PutWord(b, 0, t.hi2);
    assert b[..8] == WordBytes(t.hi2, 8);
    PutWord(b, 8, t.hi1);
    assert b[..16] == WordBytes(t.hi2, 8) + WordBytes(t.hi1, 8);
    PutWord(b, 16, t.lo1);
    assert b[..24] == WordBytes(t.hi2, 8) + WordBytes(t.hi1, 8) + WordBytes(t.lo1, 8);
    PutWord(b, 24, t.lo0);
    assert b[..] == WideBytes(t);
    WideBytesValue(t);
  }

  /** `is_zero` */
  method IsZero(b: array<byte>) returns (zero: bool)
    ensures zero <==> BytesValue(b[..]) == 0
  {
    for i := 0 to b.Length
      invariant BytesValue(b[..i]) == 0
    {
      PrefixStep(b[..], i);
      if b[i] != 0 {
        NotZero(b[..], i);
        return false;
      }
    }
    assert b[..] == b[..b.Length];
    zero := true;
  }

  lemma PrefixStep(b: seq<byte>, i: nat)
    requires i < |b|
    ensures BytesValue(b[..i + 1]) == BytesValue(b[..i]) * 256 + b[i]
  {
    assert b[..i + 1][..i] == b[..i];
  }

  lemma {:induction false} NotZero(b: seq<byte>, i: nat)
    requires i < |b| && b[i] != 0
    ensures BytesValue(b) > 0
  {
    if i < |b| - 1 { NotZero(b[..|b| - 1], i); }
  }

  /** `divmod10`: long division by ten in place. */
  method DivMod10(b: array<byte>) returns (rem: digit)
    modifies b
    ensures BytesValue(b[..]) == old(BytesValue(b[..])) / 10 && rem == old(BytesValue(b[..])) % 10
  {
    ghost var before: seq<byte> := b[..];
    rem := 0;
    for i := 0 to b.Length
      invariant forall k | i <= k < b.Length :: b[k] == before[k]
      invariant BytesValue(before[..i]) == BytesValue(b[..i]) * 10 + rem
    {
      var cur := rem * 256 + b[i];
      ghost var done: seq<byte> := b[..i];
      b[i] := cur / 10;
      rem := cur % 10;
      assert b[..i + 1][..i] == done;
      assert before[..i + 1][..i] == before[..i];
    }
    assert before[..b.Length] == before && b[..b.Length] == b[..];
  }

  /** Digits, least significant first, as text. */
  function Backwards(digits: seq<digit>): (t: string)
    ensures |t| == |digits|
  {
    if digits == [] then "" else [Digit(digits[|digits| - 1])] + Backwards(digits[..|digits| - 1])
  }

  lemma {:induction false} BackwardsAt(digits: seq<digit>, i: nat)
    requires i < |digits|
    ensures Backwards(digits)[|digits| - 1 - i] == Digit(digits[i])
  {
    if i < |digits| - 1 { BackwardsAt(digits[..|digits| - 1], i); }
  }

  /** The text still to come and the digits already found. */
  ghost function WithRest(v: nat, found: string): string { if v == 0 then found else Decimal(v) + found }

  lemma BackwardsSnoc(digits: seq<digit>, d: digit)
    ensures Backwards(digits + [d]) == [Digit(d)] + Backwards(digits)
  {
    assert (digits + [d])[..|digits|] == digits;
  }

  lemma TextStep(v: nat, digits: seq<digit>)
    requires v > 0
    ensures WithRest(v / 10, Backwards(digits + [v % 10])) == WithRest(v, Backwards(digits))
  {
    BackwardsSnoc(digits, v % 10);
    TextMove(v, Backwards(digits));
  }

  lemma TextMove(v: nat, found: string)
    requires v > 0
    ensures WithRest(v / 10, [Digit(v % 10)] + found) == WithRest(v, found)
  {
    if v >= 10 { assert (Decimal(v / 10) + [Digit(v % 10)]) + found == Decimal(v / 10) + ([Digit(v % 10)] + found); }
  }

  function Pow10(n: nat): (p: nat)
    ensures p > 0
  {
    if n == 0 then 1 else 10 * Pow10(n - 1)
  }

  lemma {:induction false} Pow10Add(a: nat, b: nat)
    ensures Pow10(a + b) == Pow10(a) * Pow10(b)
  {
    if a > 0 {
      Pow10Add(a - 1, b);
      MulAssoc(10, Pow10(a - 1), Pow10(b));
    }
  }

  lemma Pow10Large()
    ensures Pow10(78) == 1000000000000000000000000000000000000000000000000000000000000000000000000000000
  {
    assert Pow10(10) == 10000000000;
    Pow10Add(13, 13);
    Pow10Add(26, 26);
    Pow10Add(52, 26);
  }

  lemma Pow2Large()
    ensures Pow2(256) == 0x1_0000000000000000_0000000000000000_0000000000000000_0000000000000000
  {
    Pow64();
    Pow2Add(64, 64);
    Pow2Add(128, 128);
  }

  /** A 256-bit number has at most 78 digits. */
  lemma SeedDigits()
    ensures Pow2(256) < Pow10(78)
  {
    Pow2Large();
    Pow10Large();
  }

  /** The decimal text of a 32-byte number, which the division uses up. */
  method DecimalOf(b: array<byte>) returns (text: string)
    requires b.Length == 32
    modifies b
    ensures text == old(Decimal(BytesValue(b[..])))
  {
    var digits := new digit[80](_ => 0);
    var ndig := FindDigits(b, digits);
    text := Reversed(digits, ndig);
  }

  /** `cur` is what is left of `v` after the digits `found`. (`k`, always left at its default, keeps this folded.) */
  ghost predicate Finding(v: nat, cur: nat, found: seq<digit>, k: nat := 3)
    decreases v, k
  {
    if k > 0 then Finding(v, cur, found, k - 1)
    else |found| <= 78 && cur < Pow10(78 - |found|) && WithRest(cur, Backwards(found)) == Decimal(v)
  }

  lemma FindingDef(v: nat, cur: nat, found: seq<digit>)
    ensures Finding(v, cur, found) <==>
            |found| <= 78 && cur < Pow10(78 - |found|) && WithRest(cur, Backwards(found)) == Decimal(v)
  {
    assert Finding(v, cur, found, 1) == Finding(v, cur, found, 0);
    assert Finding(v, cur, found, 2) == Finding(v, cur, found, 1);
  }

  lemma FindingStep(v: nat, cur: nat, found: seq<digit>)
    requires Finding(v, cur, found) && cur > 0
    ensures |found| < 78 && Finding(v, cur / 10, found + [cur % 10])
  {
    FindingDef(v, cur, found);
    TextStep(cur, found);
    assert Pow10(0) == 1;
    FindingDef(v, cur / 10, found + [cur % 10]);
  }

  /** The digits by repeated division, least significant first; the buffer is long enough. */
  method FindDigits(b: array<byte>, digits: array<digit>) returns (ndig: nat)
    requires b.Length == 32 && digits.Length == 80 && b as object != digits
    modifies b, digits
    ensures ndig <= 78 && Backwards(digits[..ndig]) == old(Decimal(BytesValue(b[..])))
  {
    ghost var v := BytesValue(b[..]);
    ndig := 0;
    var zero := IsZero(b);
    if zero {
      digits[0] := 0;
      ndig := 1;
      BackwardsSnoc([], 0);
      assert digits[..1] == [] + [0];
      return;
    }
    BytesBound(b[..]);
    SeedDigits();
    assert digits[..0] == [];
    FindingDef(v, v, []);
    while !zero
      invariant ndig <= 78 && Finding(v, BytesValue(b[..]), digits[..ndig])
      invariant zero <==> BytesValue(b[..]) == 0
      decreases BytesValue(b[..])
    {
      FindDigit(b, digits, ndig, v);
      ndig := ndig + 1;
      zero := IsZero(b);
    }
    FindingDef(v, 0, digits[..ndig]);
  }

  method FindDigit(b: array<byte>, digits: array<digit>, ndig: nat, ghost v: nat)
    requires digits.Length == 80 && b as object != digits && ndig <= 78
    requires BytesValue(b[..]) > 0 && Finding(v, BytesValue(b[..]), digits[..ndig])
    modifies b, digits
    ensures ndig < 78 && Finding(v, BytesValue(b[..]), digits[..ndig + 1])
    ensures BytesValue(b[..]) < old(BytesValue(b[..]))
  {
    ghost var cur := BytesValue(b[..]);
    ghost var found: seq<digit> := digits[..ndig];
    FindingStep(v, cur, found);
    var d := DivMod10(b);
    digits[ndig] := d;
    assert digits[..ndig + 1] == found + [cur % 10];
  }

  /** `dec_str` */
  method Reversed(digits: array<digit>, ndig: nat) returns (text: string)
    requires ndig <= digits.Length
    ensures text == Backwards(digits[..ndig])
  {
    var dec := new char[ndig](_ => '0');
    for i := 0 to ndig
      invariant forall k | 0 <= k < i :: dec[ndig - 1 - k] == Digit(digits[k])
    {
      dec[ndig - 1 - i] := Digit(digits[i]);
    }
    text := dec[..];
    forall j | 0 <= j < ndig ensures text[j] == Backwards(digits[..ndig])[j] {
      BackwardsAt(digits[..ndig], ndig - 1 - j);
      assert dec[ndig - 1 - (ndig - 1 - j)] == Digit(digits[ndig - 1 - j]);
    }
  }

  /** `from_digest` reads each word byte by byte. */
  method ReadWord(d: seq<byte>, offset: nat) returns (v: u64)
    requires offset + 8 <= |d|
    ensures v == BytesValue(d[offset..offset + 8])
  {
    v := 0;
    assert d[offset..offset] == [];
    for i := 0 to 8
      invariant v == BytesValue(d[offset..offset + i]) < Pow2(8 * i)
    {
      ghost var w := d[offset..offset + i + 1];
      assert w[..i] == d[offset..offset + i];
      OrByte(v, d[offset + i]);
      BytesBound(w);
      Pow2Mono(8 * (i + 1), 64);
      Pow64();
      v := Or(Shl(v, 8), d[offset + i]);
    }
  }

  lemma OrByte(v: nat, b: byte)
    ensures Or(Shl(v, 8), b) == v * 256 + b
  {
    Byte8();
    OrShifted(b, 8, v);
    OrComm(Shl(v, 8), b);
  }

  /** `from_digest` */
  method FromDigest(d: seq<byte>) returns (t: Wide)
    requires |d| == 32
    ensures t.Value() == BytesValue(d)
  {
    var a := ReadWord(d, 0);
    var b := ReadWord(d, 8);
    var c := ReadWord(d, 16);
    var e := ReadWord(d, 24);
    t := Wide(a, b, c, e);
    FourPieces(d);
  }

  lemma FourPieces(d: seq<byte>)
    requires |d| == 32
    ensures BytesValue(d) == ((BytesValue(d[0..8]) * WORD64 + BytesValue(d[8..16])) * WORD64
            + BytesValue(d[16..24])) * WORD64
                             + BytesValue(d[24..32])
  {
    NextPiece(d, 0);
    NextPiece(d, 8);
    NextPiece(d, 16);
    NextPiece(d, 24);
    assert d[..0] == [] && d[..32] == d;
  }

  lemma NextPiece(d: seq<byte>, i: nat)
    requires i + 8 <= |d|
    ensures BytesValue(d[..i + 8]) == BytesValue(d[..i]) * WORD64 + BytesValue(d[i..i + 8])
  {
    Pow64();
    BytesValueAppend(d[..i], d[i..i + 8]);
    assert d[..i] + d[i..i + 8] == d[..i + 8];
  }

  lemma XorWide(seed: Wide, c: nat)
    requires c < 256
    ensures Xor(seed.lo0, c) < WORD64 && seed.(lo0 := Xor(seed.lo0, c)).Value() == Xor(seed.Value(), c)
  {
    Pow64();
    XorBound(seed.lo0, c, 64);
    XorLow((seed.hi2 * WORD64 + seed.hi1) * WORD64 + seed.lo1, seed.lo0, c, 64);
  }

  /** `update_seed` */
  method UpdateSeed(seed: Wide, ch: char, sha: string -> seq<byte>) returns (next: Wide)
    requires Hash(sha) && (ch as int) < 256
    ensures next.Value() == NextSeed(seed.Value(), ch as int, sha)
  {
    XorWide(seed, ch as int);
    var temp := seed.(lo0 := Xor(seed.lo0, ch as int));
    var b := Bignum(temp);
    var text := DecimalOf(b);
    next := FromDigest(sha(text));
  }
}
