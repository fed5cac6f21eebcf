/** The entropy-coded data of a JPEG scan: byte stuffing, the bit window, Huffman decoding and
    RECEIVE and EXTEND (ITU-T T.81, F.2.2). */
module JpegReader {
  import opened Bits
  import opened BitOps
  import opened ByteInput
  import opened JpegCode
  import opened JpegHuffman
  import opened JpegBits
  import opened JpegLookup

  // ---------- byte stuffing ----------

  /** The first byte from `pos` on that is not 0xFF. */
  function AfterFill(input: seq<byte>, pos: nat): (p: nat)
    ensures p >= pos
    decreases |input| - pos
  {
    if pos < |input| && input[pos] == 0xFF then AfterFill(input, pos + 1) else pos
  }

  /** The entropy-coded bytes from `pos` up to the next marker or the end: 0xFF stands for itself when a zero
      follows. */
  ghost function Coded(input: seq<byte>, pos: nat): seq<byte>
    decreases |input| - pos
  {
    if pos >= |input| then []
    else if input[pos] != 0xFF then [input[pos]] + Coded(input, pos + 1)
    else
      var p := AfterFill(input, pos + 1);
      if Get8(input, p) != 0 then [] else [0xFF] + Coded(input, p + 1)
  }

  // ---------- values ----------

  /** EXTEND (figure F.12): the value coded by `n` bits. */
  function Extend(v: nat, n: nat): int
    requires n > 0
  {
    if v < Pow2(n - 1) then v - Pow2(n) + 1 else v
  }

  /** `stbi__jbias` */
  function Bias(n: nat): int { if n == 0 then 0 else 1 - Pow2(n) }

  /** The sign bit tells which half the value is in. */
  lemma SignBit(b: seq<bool>, n: nat)
    requires 0 < n <= |b|
    ensures MsbVal(b[..1]) <= 1 && (MsbVal(b[..1]) == 0 <==> MsbVal(b[..n]) < Pow2(n - 1))
  {
    var x, rest := b[..1], b[1..n];
    assert b[..n] == x + rest;
    MsbAppend(x, rest);
    MsbValBound(rest);
    MsbValBound(x);
    Pow2Small();
  }

  /** What `stbi__extend_receive` makes of the sign bit is EXTEND. */
  lemma SignAndValue(buffer: nat, n: nat)
    requires buffer < Pow2(32) && 1 <= n <= 32
    ensures var k := MsbVal(MsbBits(buffer, 32)[..n]);
            k + (if Shr(buffer, 31) == 0 then Bias(n) else 0) == Extend(k, n)
  {
    TopBits(buffer, 32, 1);
    SignBit(MsbBits(buffer, 32), n);
  }

  /** The value of the first `n` bits of the window, and the window without them. */
  method SplitValue(buffer: u32, n: nat) returns (v: int, rest: u32)
    requires 1 <= n <= 15
    ensures buffer < Pow2(32) && v == Extend(MsbVal(MsbBits(buffer, 32)[..n]), n) && rest == Shl(buffer, n) % Pow2(32)
  {
    Pow2Double();
    SignAndValue(buffer, n);
    Rotate(buffer, n);
    var sgn := Shr(buffer, 31);
    var k := Or(Shl(buffer, n) % 0x1_0000_0000, Shr(buffer, 32 - n));
    rest := And(k, HighMask(n));
    k := And(k, Mask(n));
    // `sgn - 1` is a mask of all ones or of none
    v := k + (if sgn == 0 then Bias(n) else 0);
  }

  class JReader {
    const input: seq<byte>
    var pos: nat
    var code_buffer: u32
    var code_bits: int
    var marker: byte
    var nomore: bool
    ghost var pad: nat  // zero bits that were made up past the end of the data

    constructor (input: seq<byte>)
      ensures Valid() && this.input == input && pad == 0 && Rem() == MsbBytes(Coded(input, 0))
    {
      this.input := input;
      pos, code_buffer, code_bits, marker, nomore, pad := 0, 0, 0, 0xFF, false, 0;
      Empty(Coded(input, 0));
    }

    ghost predicate Valid()
      reads this
    {
      Clean(code_buffer, code_bits) && 0 <= code_bits <= 32
    }

    ghost function Bytes(): seq<byte>
      reads this
    {
      if nomore then [] else Coded(input, pos)
    }

    /** The bits still to be read. */
    ghost function Rem(): (r: seq<bool>)
      requires Valid()
      reads this
      ensures |r| == code_bits + 8 * |Bytes()|
    {
      Ahead(code_buffer, code_bits, Bytes())
    }

    method NextByte() returns (b: byte)
      modifies `pos
      ensures b == Get8(input, old(pos)) && pos == old(pos) + 1
    {
      b := if pos < |input| then input[pos] else 0;
      pos := pos + 1;
    }

    /** The next data byte; there is none at a marker. */
    method DataByte() returns (ok: bool, b: byte)
      modifies `pos, `marker, `nomore
      ensures ok ==> nomore == old(nomore)
      ensures ok ==> if old(Bytes()) == [] then b == 0 && Bytes() == [] else old(Bytes()) == [b] + Bytes()
      ensures !ok ==> nomore && old(Bytes()) == []
    {
      ok := true;
      if nomore { return true, 0; }
      b := NextByte();
      if b == 0xFF {
        var c := NextByte();
        while c == 0xFF
          invariant pos > 0 && c == Get8(input, pos - 1) && AfterFill(input, pos - 1) == AfterFill(input, old(pos) + 1)
          invariant nomore == old(nomore)
          decreases |input| - pos
        {
          c := NextByte();
        }
        if c != 0 {
          marker, nomore := c, true;
          ok := false;
        }
      }
    }

    /** One round of `stbi__grow_buffer_unsafe`. */
    method GrowByte() returns (ok: bool)
      requires Valid() && code_bits <= 24
      modifies `pos, `marker, `nomore, `code_buffer, `code_bits, `pad
      ensures Valid() && old(pad) <= pad && Rem() == old(Rem()) + Zeros(pad - old(pad))
      ensures if ok then code_bits == old(code_bits) + 8 else nomore && code_bits == old(code_bits)
    {
      ghost var bytes, r := Bytes(), Rem();
      var b;
      ok, b := DataByte();
      if !ok { return; }
      AddByte(code_buffer, code_bits, b, Bytes());
      GrownBy(code_buffer, code_bits, bytes, b, Bytes());
      if bytes == [] { pad := pad + 8; }
      Pow2Double();
      code_buffer := Or(code_buffer, Shl(b, 24 - code_bits));
      code_bits := code_bits + 8;
    }

    /** `stbi__grow_buffer_unsafe`: the window is filled, or holds all there is. */
    method GrowBuffer()
      requires Valid() && code_bits <= 24
      modifies `pos, `marker, `nomore, `code_buffer, `code_bits, `pad
      ensures Valid() && old(pad) <= pad && Rem() == old(Rem()) + Zeros(pad - old(pad))
      ensures code_bits > 24 || code_bits == |Rem()|
      ensures old(code_bits) <= code_bits
    {
      var more := true;
      while more
        invariant Valid() && old(pad) <= pad && Rem() == old(Rem()) + Zeros(pad - old(pad))
        invariant old(code_bits) <= code_bits && (more ==> code_bits <= 24)
        invariant !more ==> code_bits > 24 || code_bits == |Rem()|
        decreases more, 32 - code_bits
      {
        ghost var r, p := Rem(), pad;
        var ok := GrowByte();
        PadMore(old(Rem()), old(pad), p, pad);
        if !ok { return; }
        more := code_bits <= 24;
      }
    }

    /** The first `k` bits ahead, with zeros after the last. */
    lemma Peek(k: nat) returns (p: seq<bool>)
      requires Valid() && k <= 32 && (code_bits >= k || code_bits == |Rem()|)
      ensures |p| == k && Shr(code_buffer, 32 - k) == MsbVal(p) < Pow2(k) && p == (Rem() + Zeros(k))[..k]
      ensures p == MsbBits(code_buffer, 32)[..k]
    {
      p := PeekBits(code_buffer, code_bits, k, Bytes());
      if code_bits >= k { FrontOf(Rem(), k); } else { FilledUp(Rem(), k); }
    }

    /** Removes the next `s` bits. */
    method Drop(s: nat)
      requires Valid() && s <= code_bits
      modifies `code_buffer, `code_bits
      ensures Valid() && code_bits == old(code_bits) - s && Rem() == old(Rem())[s..]
    {
      DropBits(code_buffer, code_bits, s, Bytes());
      Pow2Double();
      code_buffer := Shl(code_buffer, s) % 0x1_0000_0000;
      code_bits := code_bits - s;
    }

    /** The search for a code longer than the fast table covers. */
    method FindLength(h: JHuffman, ghost count: seq<nat>, temp: nat) returns (k: nat)
      requires h.Built(count) && temp < 0x1_0000
      ensures k == Search(Limits(count), temp, FAST_BITS + 1)
    {
      RowsDef(count, 16, h.maxcode[..], h.delta[..]);
      k := FAST_BITS + 1;
      while temp >= h.maxcode[k]
        invariant FAST_BITS + 1 <= k <= 17 && Search(Limits(count), temp, FAST_BITS + 1)
                  == Search(Limits(count), temp, k)
        decreases 17 - k
      {
        k := k + 1;
      }
    }

    /** `stbi__extend_receive`: the value coded by the next `n` bits, or zero when the data end before. */
    method ExtendReceive(n: nat) returns (v: int)
      requires Valid() && 1 <= n <= 15
      modifies `pos, `marker, `nomore, `code_buffer, `code_bits, `pad
      ensures Valid() && old(pad) <= pad
      ensures var x := old(Rem()) + Zeros(pad - old(pad));
              if |x| >= n then v == Extend(MsbVal(x[..n]), n) && Rem() == x[n..] else v == 0 && Rem() == x
    {
      if code_bits < n { GrowBuffer(); }
      assert Rem() == old(Rem()) + Zeros(pad - old(pad));
      if code_bits < n { return 0; }
      v := TakeValue(n);
    }

    method TakeValue(n: nat) returns (v: int)
      requires Valid() && 1 <= n <= 15 && n <= code_bits
      modifies `code_buffer, `code_bits
      ensures Valid() && v == Extend(MsbVal(old(Rem())[..n]), n) && Rem() == old(Rem())[n..]
    {
      ghost var p := PeekBits(code_buffer, code_bits, n, Bytes());
      DropBits(code_buffer, code_bits, n, Bytes());
      v, code_buffer := SplitValue(code_buffer, n);
      code_bits := code_bits - n;
    }

    /** The fast table's entry for the bits ahead. */
    method FastLook(h: JHuffman, ghost count: seq<nat>, ghost p: seq<bool>) returns (k: byte)
      requires Valid() && h.Built(count) && |p| == 16 && Shr(code_buffer, 16) == MsbVal(p) < 0x1_0000
      ensures k as int == FastTo(Sizes(count), |Sizes(count)|, MsbVal(p) / 128)
    {
      FastIsDef(Sizes(count), |Sizes(count)|, h.fast[..]);
      NineBits(code_buffer);
      k := h.fast[And(Shr(code_buffer, 32 - FAST_BITS), Mask(FAST_BITS))];
    }

    /** The look-up, with 16 bits in the window or all there are. */
    method DecodeWindow(h: JHuffman, ghost count: seq<nat>) returns (r: int)
      requires Valid() && h.Built(count) && (code_bits >= 16 || code_bits == |Rem()|)
      modifies `code_buffer, `code_bits
      ensures var x, f := old(Rem()), Found(count, MsbVal(Sixteen(old(Rem()))));
              if 0 <= f.0 < 256 && f.1 <= |x| then Valid() && r == h.values[f.0] && Rem() == x[f.1..] else r == -1
    {
      ghost var p := Peek(16);
      Pow2Word();
      var k: nat := FastLook(h, count, p);
      if k < NOT_FAST {
        r := TakeFast(h, count, k, p);
      } else {
        r := TakeSlow(h, count, p);
      }
    }

    /** Takes a code that the fast table knows. */
    method TakeFast(h: JHuffman, ghost count: seq<nat>, k: nat, ghost p: seq<bool>) returns (r: int)
      requires Valid() && h.Built(count) && k < NOT_FAST && k == FastTo(Sizes(count), |Sizes(count)|, MsbVal(p) / 128)
      requires code_bits >= 16 || code_bits == |Rem()|
      modifies `code_buffer, `code_bits
      ensures k < |Sizes(count)|
      ensures if Sizes(count)[k] <= old(|Rem()|) then Valid() && r == h.values[k]
              && Rem() == old(Rem())[Sizes(count)[k]..] else r == -1
    {
      ListedDef(Sizes(count), |Sizes(count)|, h.size[..], h.code[..]);
      SizesOrdered(count, |count|);
      FastInRange(Sizes(count), MsbVal(p));
      var s := h.size[k];
      if s > code_bits { return -1; }
      Drop(s);
      r := h.values[k];
    }

    /** Finds a longer code by its length, and takes it. */
    method TakeSlow(h: JHuffman, ghost count: seq<nat>, ghost p: seq<bool>) returns (r: int)
      requires Valid() && h.Built(count) && |p| == 16 && Shr(code_buffer, 16) == MsbVal(p) < 0x1_0000
      requires code_bits >= 16 || code_bits == |Rem()|
      modifies `code_buffer, `code_bits
      ensures var x, f := old(Rem()), Searched(count, MsbVal(p));
              if 0 <= f.0 < 256 && f.1 <= |x| then Valid() && r == h.values[f.0] && Rem() == x[f.1..] else r == -1
    {
      var temp := Shr(code_buffer, 16);
      var k := FindLength(h, count, temp);
      if k == 17 {
        code_bits := code_bits - 16;
        return -1;
      }
      if k > code_bits { return -1; }
      var c := SymbolId(h, count, k, p);
      if c < 0 || c >= 256 { return -1; }
      Drop(k);
      r := h.values[c];
    }

    /** Converts a code of `k` bits to the symbol number. */
    method SymbolId(h: JHuffman, ghost count: seq<nat>, k: nat, ghost p: seq<bool>) returns (c: int)
      requires Valid() && h.Built(count) && |p| == 16 && Shr(code_buffer, 16) == MsbVal(p) && 1 <= k <= 16
      ensures c == Shr(MsbVal(p), 16 - k) + Deltas(count)[k]
    {
      RowsDef(count, 16, h.maxcode[..], h.delta[..]);
      TopOfWindow(code_buffer, k);
      c := And(Shr(code_buffer, 32 - k), Mask(k)) + h.delta[k];
    }

    /** `stbi__jpeg_huff_decode`. It returns what the tables find in the next 16 bits. Unless an overlooked code comes
        next, that is the value of the symbol whose code comes next, and it fails exactly when no code comes next or the
        data end within it. */
    method Decode(h: JHuffman, ghost count: seq<nat>) returns (r: int, ghost sym: nat)
      requires Valid() && h.Built(count)
      modifies `pos, `marker, `nomore, `code_buffer, `code_bits, `pad
      ensures old(pad) <= pad
      ensures var x := old(Rem()) + Zeros(pad - old(pad));
              var f := Found(count, MsbVal(Sixteen(x)));
              if 0 <= f.0 < 256 && f.1 <= |x| then Valid() && r == h.values[f.0] && Rem() == x[f.1..] else r == -1
      ensures r >= 0 ==> Valid()
      ensures var x := old(Rem()) + Zeros(pad - old(pad));
              Clear(Sizes(count), x) ==>
                if r < 0 then NoCode(Sizes(count), x)
                else sym < |Sizes(count)| && r == h.values[sym] && x == CodeBits(Sizes(count), sym) + Rem()
    {
      if code_bits < 16 { GrowBuffer(); }
      ghost var x := Rem();
      assert x == old(Rem()) + Zeros(pad - old(pad));
      r := DecodeWindow(h, count);
      sym := SymbolFound(h, count, x);
    }
  }

  /** The next 16 bits, with zeros after the last. */
  ghost function Sixteen(x: seq<bool>): (p: seq<bool>)
    ensures |p| == 16
  {
    (x + Zeros(16))[..16]
  }

  /** What the tables find, unless the code is overlooked, is the code that starts the bits. */
  lemma SymbolFound(h: JHuffman, count: seq<nat>, x: seq<bool>) returns (i: nat)
    requires h.Built(count)
    ensures Clear(Sizes(count), x) ==>
              var f := Found(count, MsbVal(Sixteen(x)));
              if 0 <= f.0 < 256 && f.1 <= |x| then i == f.0 < |Sizes(count)|
                && x == CodeBits(Sizes(count), i) + x[f.1..]
              else NoCode(Sizes(count), x)
  {
    i := 0;
    SizesOrdered(count, |count|);
    ListedDef(Sizes(count), |Sizes(count)|, h.size[..], h.code[..]);
    var s := Looked(count, Sixteen(x));
    Conclude(Sizes(count), x, Sixteen(x), s);
    if 0 <= s && Sizes(count)[s] <= |x| {
      i := s;
      assert x == x[..Sizes(count)[s]] + x[Sizes(count)[s]..];
    }
  }

  /** The assertion in the search: the bits ahead are those of code `c`. */
  ghost predicate Asserted(sizes: seq<nat>, buffer: nat, c: nat)
    requires c < |sizes| && sizes[c] <= 16
  {
    And(Shr(buffer, 32 - sizes[c]), Mask(sizes[c])) == Code(sizes, c)
  }

  lemma WindowValue(buffer: nat, s: nat)
    requires buffer < Pow2(32) && s <= 16
    ensures And(Shr(buffer, 32 - s), Mask(s)) == MsbVal(MsbBits(buffer, 32)[..s])
  {
    TopOfWindow(buffer, s);
    ShrTwice(buffer, 16, 16 - s);
    TopBits(buffer, 32, s);
  }

  lemma ValueOfCode(sizes: seq<nat>, c: nat, x: seq<bool>)
    requires Ordered(sizes) && Room(sizes) && c < |sizes| && |x| >= 16
    ensures MsbVal(x[..sizes[c]]) == Code(sizes, c) <==> CodeBits(sizes, c) <= x
  {
    CodeSmall(sizes, c);
    MsbValBits(Code(sizes, c), sizes[c]);
    MsbBitsVal(x[..sizes[c]]);
    assert CodeBits(sizes, c) <= x <==> CodeBits(sizes, c) == x[..sizes[c]];
  }

  /** It holds exactly when the code found is the one that comes next. */
  lemma AssertExact(sizes: seq<nat>, buffer: nat, i: nat, c: nat)
    requires Ordered(sizes) && Room(sizes) && i < |sizes| && c < |sizes|
    requires buffer < Pow2(32) && CodeBits(sizes, i) <= MsbBits(buffer, 32)
    ensures Asserted(sizes, buffer, c) <==> c == i
  {
    var x := MsbBits(buffer, 32);
    WindowValue(buffer, sizes[c]);
    ValueOfCode(sizes, c, x);
    if CodeBits(sizes, c) <= x { PrefixFree(sizes, i, c, x); }
  }

  lemma FirstSixteen(buffer: nat, code: seq<bool>)
    requires buffer < Pow2(32) && |code| <= 16 && code <= MsbBits(buffer, 32)
    ensures MsbVal(MsbBits(buffer, 32)[..16]) == Shr(buffer, 16) && code <= MsbBits(buffer, 32)[..16]
  {
    TopBits(buffer, 32, 16);
  }

  /** So it holds whenever the code that comes next is not overlooked, and with a sharp table always. */
  lemma AssertHolds(count: seq<nat>, buffer: nat, i: nat)
    requires |count| == 16 && Room(Sizes(count)) && i < |Sizes(count)| <= 256 && !Overlooked(Sizes(count), i)
    requires buffer < Pow2(32) && CodeBits(Sizes(count), i) <= MsbBits(buffer, 32)
    ensures Found(count, Shr(buffer, 16)).0 == i && Sizes(count)[i] <= 16 && Asserted(Sizes(count), buffer, i)
  {
    SizesOrdered(count, |count|);
    FirstSixteen(buffer, CodeBits(Sizes(count), i));
    FoundRight(count, i, MsbBits(buffer, 32)[..16]);
    AssertExact(Sizes(count), buffer, i, i);
  }

  /** But in a table of 255 codes of eight bits and one of nine it fails when the last code and a zero come next. */
  lemma AssertFails(count: seq<nat>, buffer: nat)
    requires count == FULL_COUNT && buffer < Pow2(32)
    ensures |count| == 16 && |Sizes(count)| == 256 && Ordered(Sizes(count))
    ensures CodeBits(Sizes(count), 255) <= MsbBits(buffer, 32) && !MsbBits(buffer, 32)[9] ==>
              Found(count, Shr(buffer, 16)).0 == 254 && !Asserted(Sizes(count), buffer, 254)
  {
    FullEntries(count);
    FullSizes(count);
    NotAsserted(count, buffer);
  }

  lemma NotAsserted(count: seq<nat>, buffer: nat)
    requires FullFacts(count) && buffer < Pow2(32)
    ensures Ordered(Sizes(count))
    ensures CodeBits(Sizes(count), 255) <= MsbBits(buffer, 32) && !MsbBits(buffer, 32)[9] ==>
              Found(count, Shr(buffer, 16)).0 == 254 && !Asserted(Sizes(count), buffer, 254)
  {
    SizesOrdered(count, |count|);
    if CodeBits(Sizes(count), 255) <= MsbBits(buffer, 32) && !MsbBits(buffer, 32)[9] {
      FirstSixteen(buffer, CodeBits(Sizes(count), 255));
      FullFound(count, MsbBits(buffer, 32)[..16]);
      AssertExact(Sizes(count), buffer, 255, 254);
    }
  }

  lemma FrontOf(x: seq<bool>, k: nat)
    requires k <= |x|
    ensures (x + Zeros(k))[..k] == x[..k]
  {
  }

  lemma FilledUp(x: seq<bool>, k: nat)
    requires k > |x|
    ensures (x + Zeros(k))[..k] == x + Zeros(k - |x|)
  {
  }

  lemma PadMore(r: seq<bool>, p0: nat, p1: nat, p2: nat)
    requires p0 <= p1 <= p2
    ensures r + Zeros(p1 - p0) + Zeros(p2 - p1) == r + Zeros(p2 - p0)
  {
  }

  /** The bits ahead when a byte has been taken, or a zero byte has been made up. */
  lemma GrownBy(buffer: nat, n: int, bytes: seq<byte>, b: byte, rest: seq<byte>)
    requires Clean(buffer, n) && if bytes == [] then b == 0 && rest == [] else bytes == [b] + rest
    ensures Ahead(buffer, n, [b] + rest) == Ahead(buffer, n, bytes) + Zeros(if bytes == [] then 8 else 0)
  {
    if bytes == [] {
      ZeroByte(buffer, n);
      assert [b] + rest == [0];
    } else {
      assert Ahead(buffer, n, bytes) + Zeros(0) == Ahead(buffer, n, bytes);
    }
  }

  lemma ZeroByte(buffer: nat, n: int)
    requires Clean(buffer, n)
    ensures Ahead(buffer, n, [0]) == Ahead(buffer, n, []) + Zeros(8)
  {
    AheadDef(buffer, n, [0]);
    AheadDef(buffer, n, []);
    MsbZeros(8);
    MsbBitsVal(Zeros(8));
    assert MsbBytes([0]) == MsbBits(0, 8) + MsbBytes([]);
  }

  lemma NineBits(buffer: nat)
    requires buffer < Pow2(32)
    ensures And(Shr(buffer, 32 - FAST_BITS), Mask(FAST_BITS)) == Shr(buffer, 16) / 128 < FAST_SIZE
  {
    TopBits(buffer, 32, 9);
    ShrTwice(buffer, 16, 7);
    Seven(Shr(buffer, 16));
    Nine(Shr(buffer, 23));
  }

  lemma Seven(v: nat)
    ensures Shr(v, 7) == v / 128
  {
    ShrDiv(v, 7);
    Pow2Small();
  }

  lemma Nine(v: nat)
    requires v < Pow2(9)
    ensures And(v, Mask(FAST_BITS)) == v < FAST_SIZE
  {
    AndMask(v, 9);
    DivModUnique(v, Pow2(9), 0, v);
    Pow2Small();
  }

  lemma {:induction false} ShrTwice(v: nat, m: nat, n: nat)
    ensures Shr(Shr(v, m), n) == Shr(v, m + n)
  {
    if m > 0 { ShrTwice(v / 2, m - 1, n); }
  }

  lemma TopOfWindow(buffer: nat, k: nat)
    requires buffer < Pow2(32) && k <= 16
    ensures And(Shr(buffer, 32 - k), Mask(k)) == Shr(Shr(buffer, 16), 16 - k)
  {
    TopBits(buffer, 32, k);
    AndMask(Shr(buffer, 32 - k), k);
    DivModUnique(Shr(buffer, 32 - k), Pow2(k), 0, Shr(buffer, 32 - k));
    ShrTwice(buffer, 16, 16 - k);
  }

  lemma FastInRange(sizes: seq<nat>, v: nat)
    requires Ordered(sizes) && Room(sizes) && |sizes| <= 256
    ensures var e := FastTo(sizes, |sizes|, v / 128); e < NOT_FAST ==> e < |sizes|
  {
    FastMeaning(sizes, |sizes|, v, v / 128);
  }
}
