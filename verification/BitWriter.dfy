/** The compressor's output: the bit buffer of `stbi_zlib_compress` and the macros that write to it. */
module BitWriter {
  import opened Sequences
  import opened Bits
  import opened BitOps
  import opened Canonical
  import opened Deflate
  import opened FixedCode

  /** `stbiw__zlib_bitrev` */
  method BitRev(code: nat, codebits: nat) returns (res: nat)
    ensures res == Reverse(code, codebits)
  {
    res := 0;
    var c, i := code, 0;
    while i < codebits
      invariant 0 <= i <= codebits && c == Shr(code, i) && res == MsbVal(LsbBits(code, i))
    {
      NextBit(code, i);
      ShiftOne(code, i);
      res := 2 * res + c % 2;
      c := c / 2;
      i := i + 1;
    }
    ReverseIsMsb(code, codebits);
  }

  lemma NextBit(v: nat, i: nat)
    ensures MsbVal(LsbBits(v, i + 1)) == 2 * MsbVal(LsbBits(v, i)) + Shr(v, i) % 2
  {
    LsbSplit(v, i, 1);
    var b, x := LsbBits(v, i), Shr(v, i) % 2 == 1;
    LsbBitsDef(Shr(v, i), 1);
    LsbBitsDef(Shr(v, i) / 2, 0);
    assert LsbBits(Shr(v, i), 1) == [x];
    assert (b + [x])[..i] == b;
  }

  lemma {:induction false} ShiftOne(v: nat, i: nat)
    ensures Shr(v, i + 1) == Shr(v, i) / 2
  {
    if i > 0 { ShiftOne(v / 2, i - 1); }
  }

  class Writer {
    var out: seq<byte>
    var bitbuf: u32
    var bitcount: nat

    constructor (start: seq<byte>)
      ensures Valid() && out == start && bitcount == 0
    {
      out, bitbuf, bitcount := start, 0, 0;
    }

    ghost predicate Valid()
      reads this
    {
      bitcount < 8 && bitbuf < Pow2(bitcount)
    }

    /** Everything written so far, byte after byte and then the bits not yet flushed. */
    ghost function Written(): (w: seq<bool>)
      reads this
      ensures |w| == 8 * |out| + bitcount
    {
      ByteBits(out) + LsbBits(bitbuf, bitcount)
    }

    /** `stbiw__zlib_flushf` */
    method Flush()
      requires bitcount <= 32 && bitbuf < Pow2(bitcount)
      modifies this
      ensures Valid() && Written() == old(Written()) && old(out) <= out
    {
      while bitcount >= 8
        invariant bitcount <= 32 && bitbuf < Pow2(bitcount)
        invariant Written() == old(Written()) && old(out) <= out
      {
        FlushByte();
      }
    }

    method FlushByte()
      requires 8 <= bitcount <= 32 && bitbuf < Pow2(bitcount)
      modifies this
      ensures bitcount == old(bitcount) - 8 && bitbuf < Pow2(bitcount)
      ensures Written() == old(Written()) && old(out) <= out
    {
      ghost var o, v, n := out, bitbuf, bitcount;
      TakeLow(v, n);
      var b: byte := And(bitbuf, 255);
      ByteBitsSnoc(o, b);
      Regrouped(ByteBits(o), LsbBits(b, 8), LsbBits(Shr(v, 8), n - 8));
      out := out + [b];
      bitbuf := Shr(bitbuf, 8);
      bitcount := bitcount - 8;
    }

    /** `stbiw__zlib_add`: appends the low `codebits` bits of `code`, least significant first. */
    method Add(code: nat, codebits: nat)
      requires Valid() && codebits <= 24 && code < Pow2(codebits)
      modifies this
      ensures Valid() && Written() == old(Written()) + LsbBits(code, codebits) && old(out) <= out
    {
      OrShifted(bitbuf, bitcount, code);
      JoinBound(bitbuf, bitcount, code, codebits);
      LsbJoin(bitbuf, bitcount, code, codebits);
      ghost var w := Written();
      bitbuf := Or(bitbuf, Shl(code, bitcount));
      bitcount := bitcount + codebits;
      Flush();
    }

    /** `stbiw__zlib_huffa`: a Huffman code word, most significant bit first. */
    method HuffA(code: nat, codebits: nat)
      requires Valid() && codebits <= 9 && code < Pow2(codebits)
      modifies this
      ensures Valid() && Written() == old(Written()) + MsbBits(code, codebits) && old(out) <= out
    {
      var r := BitRev(code, codebits);
      LsbValBound(MsbBits(code, codebits));
      LsbBitsVal(MsbBits(code, codebits));
      Add(r, codebits);
    }

    /** `stbiw__zlib_huff`: the fixed code of a literal/length symbol. */
    method Huff(n: nat)
      requires Valid() && n < 288
      modifies this
      ensures Valid() && IsSym(FixedLengths(), n)
      ensures Written() == old(Written()) + CodeBits(FixedLengths(), n) && old(out) <= out
    {
      FixedWordCanonical(n);
      var code, bits;
      if n <= 143 {
        code, bits := 0x30 + n, 8;
      } else if n <= 255 {
        code, bits := 0x190 + n - 144, 9;
      } else if n <= 279 {
        code, bits := 0 + n - 256, 7;
      } else {
        code, bits := 0xc0 + n - 280, 8;
      }
      HuffA(code, bits);
    }

    /** `stbiw__zlib_huffb`: the same for literal bytes only. */
    method HuffB(n: byte)
      requires Valid()
      modifies this
      ensures Valid() && IsSym(FixedLengths(), n)
      ensures Written() == old(Written()) + CodeBits(FixedLengths(), n) && old(out) <= out
    {
      FixedWordCanonical(n);
      if n <= 143 {
        HuffA(0x30 + n as int, 8);
      } else {
        HuffA(0x190 + n as int - 144, 9);
      }
    }

    /** Pads with zero bits to a byte boundary. */
    method PadToByte() returns (ghost k: nat)
      requires Valid()
      modifies this
      ensures Valid() && bitcount == 0 && old(out) <= out
      ensures Written() == ByteBits(out)
      ensures k < 8 && Written() == old(Written()) + Zeros(k)
    {
      ghost var w, b0 := Written(), bitcount;
      k := 0;
      while bitcount != 0
        invariant Valid() && old(out) <= out && Written() == w + Zeros(k)
        invariant if bitcount == 0 then k == (8 - b0) % 8 else b0 != 0 && k == bitcount - b0
        decreases (8 - bitcount) % 8
      {
        AddZero(w, k);
        k := k + 1;
      }
      assert Written() == ByteBits(out);
    }

    method AddZero(ghost w: seq<bool>, ghost k: nat)
      requires Valid() && bitcount > 0 && Written() == w + Zeros(k)
      modifies this
      ensures Valid() && old(out) <= out && Written() == w + Zeros(k + 1)
      ensures bitcount == if old(bitcount) == 7 then 0 else old(bitcount) + 1
    {
      LsbZeros(1);
      Add(0, 1);
      assert w + Zeros(k) + Zeros(1) == w + Zeros(k + 1);
      assert |w| + k + 1 == 8 * |out| + bitcount;
    }
  }

  /** Splitting the low byte off the bit buffer. */
  lemma TakeLow(v: u32, n: nat)
    requires 8 <= n <= 32 && v < Pow2(n)
    ensures And(v, 255) == v % 256 && Shr(v, 8) < 0x1_0000_0000 && Shr(v, 8) < Pow2(n - 8)
    ensures LsbBits(v, n) == LsbBits(And(v, 255), 8) + LsbBits(Shr(v, 8), n - 8)
  {
    Pow2Small();
    AndMask(v, 8);
    ShrBound(v, 8, n);
    Pow2Mono(n - 8, 32);
    LsbSplit(v, 8, n - 8);
    ByteLow(v);
  }

  lemma ByteLow(v: nat)
    ensures LsbBits(v % 256, 8) == LsbBits(v, 8)
  {
    Pow2Small();
    LsbValBits(v, 8);
    LsbBitsVal(LsbBits(v, 8));
  }

  lemma JoinBound(v: nat, n: nat, w: nat, m: nat)
    requires v < Pow2(n) && w < Pow2(m) && n + m <= 32
    ensures v + Pow2(n) * w < Pow2(n + m) <= 0x1_0000_0000
  {
    var p, q := Pow2(n), Pow2(m);
    Pow2Add(n, m);
    MulMono(w + 1, q, p);
    MulDistrib(w, 1, p);
    assert p * w == w * p && p * q == q * p;
    Fits32(n + m);
  }

  lemma Fits32(n: nat)
    requires n <= 32
    ensures Pow2(n) <= 0x1_0000_0000
  {
    Pow2Mono(n, 32);
    Pow2Small();
  }
}
