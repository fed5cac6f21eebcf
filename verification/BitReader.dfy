/** The bit-level half of the inflater: filling the bit buffer, reading packed integers and decoding
    one Huffman symbol through the fast table and the slow path. */
module BitReader {
  import opened Bits
  import opened BitOps
  import opened Canonical
  import opened HuffmanTable

  /** The `n` bits buffered in `code` and the bytes not fetched yet, as bits. (`k`, always left at its default,
      delays the unfolding here and in `Fits`.) */
  ghost function Unread(code: nat, n: nat, bytes: seq<byte>, k: nat := 3): (r: seq<bool>)
    ensures |r| == n + 8 * |bytes|
    decreases n, k
  {
    if k > 0 then Unread(code, n, bytes, k - 1) else LsbBits(code, n) + ByteBits(bytes)
  }

  ghost predicate Fits(code: nat, n: nat, k: nat := 3)
    decreases n, k
  {
    if k > 0 then Fits(code, n, k - 1) else code < Pow2(n)
  }

  lemma UnreadDef(code: nat, n: nat, bytes: seq<byte>)
    ensures Unread(code, n, bytes) == LsbBits(code, n) + ByteBits(bytes)
    ensures Fits(code, n) <==> code < Pow2(n)
  {
    assert Unread(code, n, bytes, 1) == Unread(code, n, bytes, 0);
    assert Unread(code, n, bytes, 2) == Unread(code, n, bytes, 1);
    assert Fits(code, n, 1) == Fits(code, n, 0);
    assert Fits(code, n, 2) == Fits(code, n, 1);
  }

  /** The input side of `stbi__zbuf`. */
  class Reader {
    const zbuffer: seq<byte>
    var pos: nat
    var num_bits: nat
    var hit_zeof_once: bool
    var code_buffer: u32
    ghost var pad: nat  // zero bits that were made up past the end of the input

    constructor (input: seq<byte>)
      ensures Valid() && zbuffer == input && pad == 0 && !hit_zeof_once && num_bits == 0 && pos == 0
    {
      zbuffer := input;
      pos, num_bits, code_buffer, hit_zeof_once, pad := 0, 0, 0, false, 0;
      UnreadDef(0, 0, input);
    }

    ghost predicate Valid()
      reads this
    {
      && pos <= |zbuffer| && num_bits <= 32 && Fits(code_buffer, num_bits)
      && (pos < |zbuffer| ==> pad == 0)
      && (hit_zeof_once ==> pad >= 16 && pos == |zbuffer|)
      && pad % 8 == 0
    }

    /** The bits still to be read. */
    ghost function Rem(): (r: seq<bool>)
      requires Valid()
      reads this
      ensures |r| == num_bits + 8 * (|zbuffer| - pos)
    {
      Unread(code_buffer, num_bits, zbuffer[pos..])
    }

    lemma RemDef()
      requires Valid()
      ensures code_buffer < Pow2(num_bits) && Rem() == LsbBits(code_buffer, num_bits) + ByteBits(zbuffer[pos..])
    {
      UnreadDef(code_buffer, num_bits, zbuffer[pos..]);
    }

    /** Starts reading bits at the current byte. */
    method Begin()
      requires Valid() && pad == 0
      modifies `num_bits, `code_buffer, `hit_zeof_once
      ensures Valid() && num_bits == 0 && Rem() == ByteBits(zbuffer[pos..])
    {
      num_bits, code_buffer, hit_zeof_once := 0, 0, false;
      UnreadDef(0, 0, zbuffer[pos..]);
    }

    /** `stbi__zeof` */
    predicate Zeof()
      requires pos <= |zbuffer|
      reads this
    {
      pos >= |zbuffer|
    }

    method Zget8() returns (b: byte)
      requires pos <= |zbuffer|
      modifies `pos
      ensures pos <= |zbuffer|
      ensures if old(pos) < |zbuffer| then b == zbuffer[old(pos)] && pos == old(pos) + 1 else b == 0 && pos == old(pos)
    {
      if Zeof() { return 0; }
      b := zbuffer[pos];
      pos := pos + 1;
    }

    /** One round of the loop of `stbi__fill_bits`. */
    method FillByte()
      requires Valid() && num_bits <= 24
      modifies `pos, `num_bits, `code_buffer, `pad
      ensures Valid() && num_bits == old(num_bits) + 8 && old(pad) <= pad
      ensures Rem() == old(Rem()) + Zeros(pad - old(pad))
    {
      ghost var rest := zbuffer[pos..];
      RemDef();
      if pos >= |zbuffer| { pad := pad + 8; }
      var b := Zget8();
      JoinByte(code_buffer, num_bits, b, rest);
      code_buffer := Or(code_buffer, Shl(b, num_bits));
      num_bits := num_bits + 8;
      assert rest != [] ==> zbuffer[pos..] == rest[1..];
    }

    /** `stbi__fill_bits`; its test for stray bits above the buffered ones never fires. */
    method FillBits()
      requires Valid() && num_bits <= 24
      modifies `pos, `num_bits, `code_buffer, `pad
      ensures Valid() && num_bits > 24 && old(pad) <= pad
      ensures Rem() == old(Rem()) + Zeros(pad - old(pad))
    {
      var more := true;
      while more
        invariant Valid() && (more <==> num_bits <= 24) && old(pad) <= pad
        invariant Rem() == old(Rem()) + Zeros(pad - old(pad))
        decreases 32 - num_bits
      {
        RemDef();
        if code_buffer >= Pow2(num_bits) { assert false; }
        FillByte();
        more := num_bits <= 24;
      }
    }

    /** Removes the next `n` buffered bits. */
    method Drop(n: nat)
      requires Valid() && n <= num_bits
      modifies `num_bits, `code_buffer
      ensures Valid() && num_bits == old(num_bits) - n
      ensures Rem() == old(Rem())[n..]
    {
      RemDef();
      LsbTake(code_buffer, n, num_bits);
      ShrSmaller(code_buffer, n);
      code_buffer := Shr(code_buffer, n);
      num_bits := num_bits - n;
      UnreadDef(code_buffer, num_bits, zbuffer[pos..]);
    }

    /** `stbi__zreceive` */
    method Receive(n: nat) returns (k: nat)
      requires Valid() && n <= 16
      modifies `pos, `num_bits, `code_buffer, `pad
      ensures Valid() && old(pad) <= pad
      ensures LsbBits(k, n) + Rem() == old(Rem()) + Zeros(pad - old(pad)) && k < Pow2(n)
    {
      if num_bits < n { FillBits(); }
      k := Take(n);
    }

    method Take(n: nat) returns (k: nat)
      requires Valid() && n <= num_bits
      modifies `num_bits, `code_buffer
      ensures Valid() && num_bits == old(num_bits) - n
      ensures LsbBits(k, n) + Rem() == old(Rem()) && k < Pow2(n)
    {
      ghost var r, b := Rem(), LsbBits(code_buffer, num_bits);
      RemDef();
      AndMask(code_buffer, n);
      LsbTake(code_buffer, n, num_bits);
      k := And(code_buffer, Mask(n));
      assert r[..n] == b[..n];
      LsbBitsVal(b[..n]);
      LsbValBound(b[..n]);
      Drop(n);
    }

    /** A byte taken straight from the input, the bit buffer being empty; past the end it is zero. */
    method NextByte() returns (b: byte)
      requires Valid() && num_bits == 0
      modifies `pos, `pad
      ensures Valid() && num_bits == 0 && old(pad) <= pad
      ensures old(Rem()) + Zeros(pad - old(pad)) == LsbBits(b, 8) + Rem()
    {
      ghost var rest := zbuffer[pos..];
      RemDef();
      if pos >= |zbuffer| { pad := pad + 8; }
      b := Zget8();
      LsbZeros(8);
      ByteBitsDef(rest);
      UnreadDef(code_buffer, 0, zbuffer[pos..]);
      assert rest != [] ==> zbuffer[pos..] == rest[1..];
    }

    /** Takes `n` bytes straight from the input, the bit buffer being empty. */
    method TakeBytes(n: nat) returns (s: seq<byte>)
      requires Valid() && num_bits == 0 && pos + n <= |zbuffer|
      modifies `pos
      ensures Valid() && num_bits == 0 && |s| == n
      ensures old(Rem()) == ByteBits(s) + Rem()
    {
      s := zbuffer[pos..pos + n];
      ghost var rest := zbuffer[pos + n..];
      ByteBitsAppend(s, rest);
      assert s + rest == zbuffer[pos..];
      RemDef();
      pos := pos + n;
      UnreadDef(code_buffer, 0, rest);
    }

    /** The 16 bits a symbol is decoded from, as the two tables read them. */
    lemma Peek()
      requires Valid() && num_bits >= 16
      ensures |Rem()| >= 16
      ensures And(code_buffer, 511) == LsbVal(Rem()[..16][..9]) < 512
      ensures BitReverse(code_buffer, 16) == MsbVal(Rem()[..16]) < 0x1_0000
    {
      var p, b := Rem()[..16], LsbBits(code_buffer, num_bits);
      RemDef();
      assert p[..9] == b[..9] && p == b[..16];
      Pow2Small();
      AndMask(code_buffer, 9);
      LsbTake(code_buffer, 9, num_bits);
      LsbValBound(p[..9]);
      BitReverseCorrect(code_buffer, 16);
      ReverseIsMsb(code_buffer, 16);
      LsbSplit(code_buffer, 16, num_bits - 16);
      assert LsbBits(code_buffer, 16) == p;
    }

    /** `stbi__zhuffman_decode_slowpath`: a code longer than the fast table covers, or none at all. */
    method DecodeSlow(z: ZHuffman, ghost lens: seq<nat>) returns (sym: int)
      requires Valid() && num_bits >= 16 && z.Built(lens)
      requires NoneStarts(lens, |lens|, FAST_BITS, Rem()[..16])
      modifies `num_bits, `code_buffer
      ensures Valid()
      ensures sym >= 0 ==> IsSym(lens, sym) && old(Rem()) == CodeBits(lens, sym) + Rem()
      ensures sym < 0 ==> sym == -1 && NoCode(lens, old(Rem())) && Rem() == old(Rem())
    {
      ghost var r, p := Rem(), Rem()[..16];
      z.BuiltUsable(lens);
      Peek();
      var k := BitReverse(code_buffer, 16);
      var s := FindLength(z, lens, k, p);
      if s >= 16 {
        Covered(lens, 15, p);
        NoCodeAhead(lens, r);
        return -1;
      }
      var i := SlowSymbol(z, lens, s, k, p);
      Drop(s);
      CutPrefix(CodeBits(lens, i), 16, r);
      sym := i;
    }

    method FindLength(z: ZHuffman, ghost lens: seq<nat>, k: nat, ghost p: seq<bool>) returns (s: nat)
      requires z.Built(lens) && |p| == 16 && k == MsbVal(p) < 0x1_0000
      requires NoneStarts(lens, |lens|, FAST_BITS, p)
      ensures 10 <= s <= 16 && k >= Limits(lens)[s - 1]
      ensures s <= 15 ==> k < Limits(lens)[s]
    {
      z.BuiltFacts(lens);
      RowsDef(lens, 16, z.firstcode[..], z.firstsymbol[..], z.maxcode[..]);
      Covered(lens, 9, p);
      s := 10;
      while k >= z.maxcode[s]
        invariant 10 <= s <= 16 && k >= Limits(lens)[s - 1]
        decreases 16 - s
      {
        s := s + 1;
      }
    }

    /** Reads the symbol off the table sorted by code; neither corruption check can fire. */
    method SlowSymbol(z: ZHuffman, ghost lens: seq<nat>, s: nat, k: nat, ghost p: seq<bool>) returns (i: nat)
      requires z.Built(lens) && |p| == 16 && k == MsbVal(p)
      requires 10 <= s <= 15 && Limits(lens)[s - 1] <= k < Limits(lens)[s]
      ensures IsSym(lens, i) && lens[i] == s && CodeBits(lens, i) <= p
    {
      z.BuiltFacts(lens);
      RowsDef(lens, 16, z.firstcode[..], z.firstsymbol[..], z.maxcode[..]);
      ghost var sym := SymbolOfKey(lens, s, p);
      assert PlacedAt(lens, sym, z.size[..], z.value[..]);
      var b := Shr(k, 16 - s) - z.firstcode[s] + z.firstsymbol[s];
      assert b == Places(lens)[sym];
      if b >= MAX_SYMBOLS { assert false; }
      if z.size[b] != s { assert false; }
      i := z.value[b];
    }

    /** `stbi__zhuffman_decode`: the one symbol whose code comes next, or -1 when there is none or
        when the input ran out before. */
    method Decode(z: ZHuffman, ghost lens: seq<nat>) returns (sym: int)
      requires Valid() && z.Built(lens)
      modifies `pos, `num_bits, `code_buffer, `pad, `hit_zeof_once
      ensures Valid() && old(pad) <= pad
      ensures sym >= 0 ==> IsSym(lens, sym) && old(Rem()) + Zeros(pad - old(pad)) == CodeBits(lens, sym) + Rem()
      ensures sym < 0 ==> sym == -1 && (old(|Rem()|) < old(pad) || NoCode(lens, old(Rem()) + Zeros(pad - old(pad))))
    {
      ghost var r0, p0 := Rem(), pad;
      var ok := Lookahead();
      if !ok { return -1; }
      ghost var r1 := r0 + Zeros(pad - p0);
      assert r1 == Rem();
      sym := DecodeBuffered(z, lens);
    }

    /** With 16 bits at hand the fast table decides, or hands over to the slow path. */
    method DecodeBuffered(z: ZHuffman, ghost lens: seq<nat>) returns (sym: int)
      requires Valid() && num_bits >= 16 && z.Built(lens)
      modifies `num_bits, `code_buffer
      ensures Valid()
      ensures sym >= 0 ==> IsSym(lens, sym) && old(Rem()) == CodeBits(lens, sym) + Rem()
      ensures sym < 0 ==> sym == -1 && NoCode(lens, old(Rem())) && Rem() == old(Rem())
    {
      ghost var r, p := Rem(), Rem()[..16];
      var b := FastLookup(z, lens, p);
      if b != 0 {
        Drop(Shr(b, 9));
        sym := And(b, 511);
        CutPrefix(CodeBits(lens, sym), 16, r);
        return;
      }
      sym := DecodeSlow(z, lens);
    }

    method FastLookup(z: ZHuffman, ghost lens: seq<nat>, ghost p: seq<bool>) returns (b: nat)
      requires Valid() && num_bits >= 16 && z.Built(lens) && p == Rem()[..16]
      ensures if b == 0 then NoneStarts(lens, |lens|, FAST_BITS, p)
              else IsSym(lens, And(b, 511)) && Shr(b, 9) == lens[And(b, 511)] <= 15 && CodeBits(lens, And(b, 511)) <= p
    {
      z.BuiltUsable(lens);
      Peek();
      FastToMeaning(lens, |lens|, p);
      z.BuiltFast(lens, And(code_buffer, 511));
      b := z.fast[And(code_buffer, 511)];
    }

    /** Sees to it that 16 bits are buffered, unless the made-up bits are already being consumed. */
    method Lookahead() returns (ok: bool)
      requires Valid()
      modifies `pos, `num_bits, `code_buffer, `pad, `hit_zeof_once
      ensures Valid() && old(pad) <= pad
      ensures Rem() == old(Rem()) + Zeros(pad - old(pad))
      ensures if ok then num_bits >= 16 else old(hit_zeof_once) && old(|Rem()|) < 16
    {
      if num_bits < 16 {
        if Zeof() {
          if !hit_zeof_once {
            hit_zeof_once := true;
            PadSixteen();
          } else {
            return false;
          }
        } else {
          FillBits();
        }
      }
      ok := true;
    }

    /** The 16 implicit zero bits inserted at the first end of input. */
    method PadSixteen()
      requires pos == |zbuffer| && num_bits < 16 && Fits(code_buffer, num_bits) && pad % 8 == 0
      modifies `num_bits, `pad
      ensures num_bits == old(num_bits) + 16 && pad == old(pad) + 16 && Fits(code_buffer, num_bits)
      ensures Unread(code_buffer, num_bits, []) == old(Unread(code_buffer, num_bits, [])) + Zeros(16)
    {
      UnreadDef(code_buffer, num_bits, []);
      LsbJoin(code_buffer, num_bits, 0, 16);
      LsbZeros(16);
      Pow2Mono(num_bits, num_bits + 16);
      num_bits := num_bits + 16;
      pad := pad + 16;
      UnreadDef(code_buffer, num_bits, []);
    }
  }

  /** Placing a byte above the `n` buffered bits. */
  lemma JoinByte(code: u32, n: nat, b: byte, rest: seq<byte>)
    requires n <= 24 && Fits(code, n) && (if rest == [] then b == 0 else b == rest[0])
    ensures Or(code, Shl(b, n)) < 0x1_0000_0000 && Fits(Or(code, Shl(b, n)), n + 8)
    ensures Unread(Or(code, Shl(b, n)), n + 8, if rest == [] then [] else rest[1..])
            == Unread(code, n, rest) + Zeros(if rest == [] then 8 else 0)
  {
    UnreadDef(code, n, rest);
    BufferFits(n);
    OrShifted(code, n, b);
    ByteJoinBound(code, n, b);
    LsbJoin(code, n, b, 8);
    LsbZeros(8);
    ByteBitsDef(rest);
    UnreadDef(Or(code, Shl(b, n)), n + 8, if rest == [] then [] else rest[1..]);
  }

  lemma BufferFits(n: nat)
    requires n <= 24
    ensures Pow2(n + 8) <= 0x1_0000_0000
  {
    Pow2Mono(n + 8, 32);
    Pow2Small();
  }

  lemma ByteJoinBound(v: nat, n: nat, b: byte)
    requires v < Pow2(n)
    ensures v + Pow2(n) * b < Pow2(n + 8)
  {
    Pow2Add(n, 8);
    Pow2Small();
    MulMono(b + 1, 256, Pow2(n));
    MulDistrib(b, 1, Pow2(n));
  }

  lemma {:induction false} ShrSmaller(v: nat, n: nat)
    ensures Shr(v, n) <= v
  {
    if n > 0 { ShrSmaller(v / 2, n - 1); }
  }

  lemma SymbolExpected(lens: seq<nat>, sym: int, want: nat, tail: seq<bool>, zs: seq<bool>, r0: seq<bool>, r: seq<bool>)
    requires Usable(lens) && IsSym(lens, want) && r0 == CodeBits(lens, want) + tail
    requires sym >= 0 ==> IsSym(lens, sym) && r0 + zs == CodeBits(lens, sym) + r
    requires sym < 0 ==> NoCode(lens, r0 + zs)
    ensures sym == want && r == tail + zs
  {
    var x, c := r0 + zs, CodeBits(lens, want);
    assert c <= x && x[|c|..] == tail + zs;
    if sym < 0 {
      NoneStartsAt(lens, |lens|, 15, x, want);
      assert false;
    } else {
      assert CodeBits(lens, sym) <= x;
      PrefixFree(lens, sym, want, x);
      assert x[|c|..] == r;
    }
  }

  lemma NumberExpected(n: nat, k: nat, want: nat, tail: seq<bool>, zs: seq<bool>, r0: seq<bool>, r: seq<bool>)
    requires k < Pow2(n) && want < Pow2(n) && r0 == LsbBits(want, n) + tail && r0 + zs == LsbBits(k, n) + r
    ensures k == want && r == tail + zs
  {
    var x := r0 + zs;
    assert x[..n] == LsbBits(want, n) && x[..n] == LsbBits(k, n);
    LsbBitsSmall(want, n);
    LsbBitsSmall(k, n);
    assert x[n..] == tail + zs && x[n..] == r;
  }

  lemma CutPrefix(a: seq<bool>, n: nat, r: seq<bool>)
    requires n <= |r| && a <= r[..n]
    ensures |a| <= |r| && r == a + r[|a|..]
  {
  }
}
