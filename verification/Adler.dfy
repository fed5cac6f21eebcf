/** The Adler-32 checksum (RFC 1950, section 8.2) and the blocked loop that computes it. */
module Adler {
  import opened Bits

  const MOD: nat := 65521
  const NMAX: nat := 5552

  /** The two sums, taken modulo 65521 after every byte. */
  function Sums(data: seq<byte>): (nat, nat) {
    if data == [] then (1, 0)
    else
      var (a, b) := Sums(data[..|data| - 1]);
      var a' := (a + data[|data| - 1]) % MOD;
      (a', (b + a') % MOD)
  }

  /** The checksum, most significant byte first. */
  function Checksum(data: seq<byte>): (c: seq<byte>)
    ensures |c| == 4
  {
    var (a, b) := Sums(data);
    SumsBound(data);
    [b / 256, b % 256, a / 256, a % 256]
  }

  lemma {:induction false} SumsBound(data: seq<byte>)
    ensures 0 <= Sums(data).0 < MOD && 0 <= Sums(data).1 < MOD
  {
    if data != [] { SumsBound(data[..|data| - 1]); }
  }

  /** One byte more, without the reductions. */
  lemma SumsStep(data: seq<byte>, n: nat, s1: nat, s2: nat)
    requires n < |data| && s1 % MOD == Sums(data[..n]).0 && s2 % MOD == Sums(data[..n]).1
    ensures (s1 + data[n]) % MOD == Sums(data[..n + 1]).0
    ensures (s2 + (s1 + data[n])) % MOD == Sums(data[..n + 1]).1
  {
    assert data[..n + 1][..n] == data[..n];
  }

  /** How large the unreduced sums are after `i` bytes of a block, times two to stay integral. */
  ghost function Bound2(i: nat): nat { 2 * 65520 * (i + 1) + 255 * (i * (i + 1)) }

  lemma Bound2Step(i: nat)
    ensures Bound2(i + 1) == Bound2(i) + 2 * 65520 + 2 * 255 * (i + 1)
  {
  }

  /** The largest block that cannot overflow: one more byte could. */
  lemma NmaxIsLargest()
    ensures Bound2(NMAX) <= 2 * 0xFFFF_FFFF < Bound2(NMAX + 1)
  {
  }

  lemma {:induction false} Bound2Mono(i: nat, j: nat)
    requires i <= j
    ensures Bound2(i) <= Bound2(j)
    decreases j
  {
    if i < j {
      Bound2Mono(i, j - 1);
      Bound2Step(j - 1);
    }
  }

  /** One block: the sums stay within 32 bits, so the reductions can wait until its end. */
  method SumBlock(data: seq<byte>, j: nat, blocklen: nat, a: u32, b: u32) returns (s1: u32, s2: u32)
    requires j + blocklen <= |data| && blocklen <= NMAX
    requires a as int == Sums(data[..j]).0 && b as int == Sums(data[..j]).1
    ensures s1 as int == Sums(data[..j + blocklen]).0 && s2 as int == Sums(data[..j + blocklen]).1
  {
    SumsBound(data[..j]);
    NmaxIsLargest();
    s1, s2 := a, b;
    var i := 0;
    while i < blocklen
      invariant 0 <= i <= blocklen
      invariant s1 as int % MOD == Sums(data[..j + i]).0 && s2 as int % MOD == Sums(data[..j + i]).1
      invariant s1 as int <= 65520 + 255 * i && 2 * s2 as int <= Bound2(i)
    {
      SumsStep(data, j + i, s1, s2);
      Bound2Step(i);
      Bound2Mono(i + 1, NMAX);
      s1 := s1 + data[j + i];
      s2 := s2 + s1;
      i := i + 1;
    }
    s1 := s1 % 65521;
    s2 := s2 % 65521;
  }

  /** The checksum at the end of `stbi_zlib_compress`. */
  method Adler32(data: seq<byte>) returns (c: seq<byte>)
    ensures c == Checksum(data)
  {
    var s1: u32, s2: u32 := 1, 0;
    var blocklen := |data| % 5552;
    var j := 0;
    assert data[..0] == [];
    while j < |data|
      invariant 0 <= j <= |data| && blocklen <= 5552
      invariant s1 as int == Sums(data[..j]).0 && s2 as int == Sums(data[..j]).1
      invariant blocklen == 5552 || j == 0
      invariant (|data| - j - blocklen) % 5552 == 0 && |data| - j - blocklen >= -5552
      decreases |data| - j, 5552 - blocklen
    {
      assert j + blocklen <= |data|;
      s1, s2 := SumBlock(data, j, blocklen, s1, s2);
      j := j + blocklen;
      blocklen := 5552;
    }
    assert data[..j] == data;
    SumsBound(data);
    c := [s2 / 256, s2 % 256, s1 / 256, s1 % 256];
  }
}
