/** `stbi__parse_uncompressed_block` */
module StoredBlock {
  import opened Bits
  import opened BitOps
  import opened BitReader
  import opened Inflate
  import opened DeflateStream
  import opened DynamicCodes
  import opened OutputBuffer

  ghost predicate StoredAhead(skip: seq<bool>, data: seq<byte>, tail: seq<bool>, r: seq<bool>, pad: nat) {
    |data| < 0x1_0000 && |skip| == |r| % 8 && r == StoredBits(skip, data) + tail && |tail| >= pad
  }

  function Word(lo: byte, hi: byte): (w: nat)
    ensures w < 0x1_0000
  {
    var l: int, h: int := lo, hi;
    h * 256 + l
  }

  lemma TwoBytes(a: byte, b: byte)
    ensures LsbBits(Word(a, b), 16) == LsbBits(a, 8) + LsbBits(b, 8)
  {
    BytePower();
    LsbJoin(a, 8, b, 8);
  }

  lemma BytePower()
    ensures Pow2(8) == 256
  {
    Pow2Small();
  }

  lemma FourBytes(h: seq<byte>)
    requires |h| == 4
    ensures ByteBits(h) == LsbBits(Word(h[0], h[1]), 16) + LsbBits(Word(h[2], h[3]), 16)
  {
    TwoBytes(h[0], h[1]);
    TwoBytes(h[2], h[3]);
    ByteBitsAppend(h[..2], h[2..]);
    assert h[..2] + h[2..] == h;
    Pair(h[..2]);
    Pair(h[2..]);
  }

  lemma Pair(h: seq<byte>)
    requires |h| == 2
    ensures ByteBits(h) == LsbBits(h[0], 8) + LsbBits(h[1], 8)
  {
    ByteBitsSnoc(h[..1], h[1]);
    ByteBitsSnoc([], h[0]);
    assert h[..1] == [] + [h[0]] && h == h[..1] + [h[1]];
  }

  /** Drops the bits up to the byte boundary and collects the four header bytes, first from the bit
      buffer and then from the input. */
  method ReadStoredHeader(input: Reader) returns (header: seq<byte>, ghost skip: seq<bool>)
    requires input.Valid()
    modifies input
    ensures input.Valid() && old(input.pad) <= input.pad && input.num_bits == 0
    ensures |header| == 4 && |skip| == old(|input.Rem()|) % 8
    ensures old(input.Rem()) + Zeros(input.pad - old(input.pad)) == (skip + ByteBits(header)) + input.Rem()
  {
    ghost var r0, p0 := input.Rem(), input.pad;
    skip := SkipToByte(input);
    header := DrainHeader(input, r0, skip);
    header := FillHeader(input, header, r0, p0, skip);
  }

  method SkipToByte(input: Reader) returns (ghost skip: seq<bool>)
    requires input.Valid()
    modifies input
    ensures input.Valid() && input.pad == old(input.pad) && input.num_bits % 8 == 0
    ensures |skip| == old(|input.Rem()|) % 8 && old(input.Rem()) == skip + input.Rem()
  {
    LowBits(input.num_bits, |input.zbuffer| - input.pos);
    var n := And(input.num_bits, 7);
    if n != 0 {
      var k := input.Take(n);
      skip := LsbBits(k, n);
    } else {
      skip := [];
    }
  }

  lemma LowBits(n: nat, m: nat)
    ensures And(n, 7) == n % 8 <= n && (n - n % 8) % 8 == 0
    ensures (n + 8 * m) % 8 == n % 8
  {
    LowThree(n);
  }

  lemma LowThree(n: nat)
    ensures And(n, 7) == n % 8
  {
    AndMask(n, 3);
    assert Pow2(3) == 8;
  }

  method DrainHeader(input: Reader, ghost r0: seq<bool>, ghost skip: seq<bool>) returns (header: seq<byte>)
    requires input.Valid() && input.num_bits % 8 == 0 && r0 == skip + input.Rem()
    modifies input
    ensures input.Valid() && input.pad == old(input.pad) && input.num_bits == 0 && |header| <= 4
    ensures r0 == (skip + ByteBits(header)) + input.Rem()
  {
    header := [];
    while input.num_bits > 0
      invariant input.Valid() && input.pad == old(input.pad) && input.num_bits % 8 == 0
      invariant 8 * |header| + input.num_bits <= 32
      invariant r0 == (skip + ByteBits(header)) + input.Rem()
      decreases input.num_bits
    {
      var b := TakeByte(input);
      ByteBitsSnoc(header, b);
      RegroupMiddle(skip, ByteBits(header), LsbBits(b, 8), input.Rem());
      header := header + [b];
    }
  }

  lemma RegroupMiddle(a: seq<bool>, b: seq<bool>, c: seq<bool>, d: seq<bool>)
    ensures (a + b) + (c + d) == (a + (b + c)) + d
  {
  }

  method TakeByte(input: Reader) returns (b: byte)
    requires input.Valid() && input.num_bits >= 8
    modifies input
    ensures input.Valid() && input.pad == old(input.pad) && input.num_bits == old(input.num_bits) - 8
    ensures LsbBits(b, 8) + input.Rem() == old(input.Rem())
  {
    BytePower();
    b := input.Take(8);
  }

  method FillHeader(input: Reader, start: seq<byte>, ghost r0: seq<bool>, ghost p0: nat, ghost skip: seq<bool>)
    returns (header: seq<byte>)
    requires input.Valid() && input.num_bits == 0 && |start| <= 4 && input.pad == p0
    requires r0 == (skip + ByteBits(start)) + input.Rem()
    modifies input
    ensures input.Valid() && p0 <= input.pad && input.num_bits == 0 && |header| == 4
    ensures r0 + Zeros(input.pad - p0) == (skip + ByteBits(header)) + input.Rem()
  {
    header := start;
    assert r0 + Zeros(0) == r0;
    while |header| < 4
      invariant input.Valid() && p0 <= input.pad && input.num_bits == 0 && |header| <= 4
      invariant r0 + Zeros(input.pad - p0) == (skip + ByteBits(header)) + input.Rem()
      decreases 4 - |header|
    {
      ghost var r1, p1 := input.Rem(), input.pad;
      var b := input.NextByte();
      ByteBitsSnoc(header, b);
      Joined(skip + ByteBits(header), LsbBits(b, 8), r0, r1, input.Rem(), p1 - p0, input.pad - p1);
      assert (skip + ByteBits(header)) + LsbBits(b, 8) == skip + (ByteBits(header) + LsbBits(b, 8));
      header := header + [b];
    }
  }

  lemma Regroup3(a: seq<bool>, b: seq<bool>, c: seq<bool>, d: seq<bool>)
    ensures (a + (b + c)) + d == a + (b + (c + d))
  {
  }

  lemma Regroup4(a: seq<bool>, b: seq<bool>, c: seq<bool>, d: seq<bool>, e: seq<bool>, f: seq<bool>)
    ensures ((a + (b + (c + d))) + e) + f == a + (b + (c + (d + (e + f))))
  {
  }

  /** What the expected stored block says about the header that was read. */
  lemma StoredExpected(skip': seq<bool>, data: seq<byte>, tail: seq<bool>, r0: seq<bool>, p0: nat,
                       skip: seq<bool>, h: seq<byte>, n: nat, r1: seq<bool>)
    requires StoredAhead(skip', data, tail, r0, p0) && |h| == 4 && |skip| == |r0| % 8
    requires r0 + Zeros(n) == (skip + ByteBits(h)) + r1
    ensures skip == skip' && Word(h[0], h[1]) == |data| && Word(h[2], h[3]) == 0xFFFF - |data|
    ensures r1 == ByteBits(data) + (tail + Zeros(n))
  {
    FourBytes(h);
    SameStored(skip', data, tail, r0, skip, Word(h[0], h[1]), Word(h[2], h[3]), ByteBits(h), n, r1);
  }

  lemma SameStored(skip': seq<bool>, data: seq<byte>, tail: seq<bool>, r0: seq<bool>, skip: seq<bool>, len: nat,
                   nlen: nat,
                   h: seq<bool>, n: nat, r1: seq<bool>)
    requires |data| < 0x1_0000 && len < 0x1_0000 && nlen < 0x1_0000 && |skip| == |skip'|
    requires r0 == StoredBits(skip', data) + tail && h == LsbBits(len, 16) + LsbBits(nlen, 16)
             && r0 + Zeros(n) == (skip + h) + r1
    ensures skip == skip' && len == |data| && nlen == 0xFFFF - |data| && r1 == ByteBits(data) + (tail + Zeros(n))
  {
    SameWords(skip', |data|, 0xFFFF - |data|, 16, ByteBits(data), StoredBits(skip', data), tail, Zeros(n), skip, len,
      nlen, h, r1, r0);
    WordInjective(len, |data|);
    WordInjective(nlen, 0xFFFF - |data|);
  }

  /** The fields of a stored block, each of `w` bits. */
  lemma SameWords(s: seq<bool>, x: nat, y: nat, w: nat, c: seq<bool>, sent: seq<bool>, tail: seq<bool>, zs: seq<bool>,
                  s': seq<bool>, x': nat, y': nat, h: seq<bool>, r: seq<bool>, r0: seq<bool>)
    requires |s| == |s'| && sent == s + (LsbBits(x, w) + (LsbBits(y, w) + c)) && h == LsbBits(x', w) + LsbBits(y', w)
    requires r0 == sent + tail && r0 + zs == (s' + h) + r
    ensures s == s' && LsbBits(x, w) == LsbBits(x', w) && LsbBits(y, w) == LsbBits(y', w) && r == c + (tail + zs)
  {
    SameFields(s, LsbBits(x, w), LsbBits(y, w), c, sent, tail, zs, s', LsbBits(x', w), LsbBits(y', w), h, r, r0);
  }

  lemma SameFields(s: seq<bool>, a: seq<bool>, b: seq<bool>, c: seq<bool>, sent: seq<bool>, tail: seq<bool>,
                   zs: seq<bool>,
                   s': seq<bool>, a': seq<bool>, b': seq<bool>, h: seq<bool>, r: seq<bool>, r0: seq<bool>)
    requires |s| == |s'| && |a| == |a'| && |b| == |b'| && sent == s + (a + (b + c)) && h == a' + b'
    requires r0 == sent + tail && r0 + zs == (s' + h) + r
    ensures s == s' && a == a' && b == b' && r == c + (tail + zs)
  {
    Regroup4(s, a, b, c, tail, zs);
    Regroup3(s', a', b', r);
    SamePrefix(s, a + (b + (c + (tail + zs))), s', a' + (b' + r));
    SamePrefix(a, b + (c + (tail + zs)), a', b' + r);
    SamePrefix(b, c + (tail + zs), b', r);
  }

  /** `stbi__parse_uncompressed_block`, after the three header bits of the block. */
  method ParseStored(input: Reader, out: Output, ghost skip': seq<bool>, ghost want: seq<byte>, ghost tail: seq<bool>)
    returns (ok: bool, ghost skip: seq<bool>, ghost data: seq<byte>)
    requires input.Valid() && out.Valid()
    modifies input, out, out.buf
    ensures input.Valid() && out.Valid() && (out.buf == old(out.buf) || fresh(out.buf))
    ensures old(input.pad) <= input.pad && old(out.buf.Length) <= out.buf.Length
    ensures ok ==> |data| < 0x1_0000 && |skip| == old(|input.Rem()|) % 8
                   && old(input.Rem()) + Zeros(input.pad - old(input.pad)) == StoredBits(skip, data) + input.Rem()
                   && out.Contents() == old(out.Contents()) + data
    ensures StoredAhead(skip', want, tail, old(input.Rem()), old(input.pad)) && old(out.Roomy(out.len + |want|))
            ==> ok && skip == skip' && data == want && input.Rem() == tail + Zeros(input.pad - old(input.pad))
  {
    ghost var r0, p0 := input.Rem(), input.pad;
    data := [];
    var len;
    ok, len, skip := ReadStoredLength(input, skip', want, tail);
    if !ok { return; }
    ghost var r1, p1 := input.Rem(), input.pad;
    if input.pos + len > |input.zbuffer| { return false, skip, data; }
    ok := out.Reserve(len);
    if !ok { return; }
    var bytes := input.TakeBytes(len);
    out.Append(bytes);
    data := bytes;
    RegroupStored(skip, LsbBits(len, 16), LsbBits(0xFFFF - len, 16), ByteBits(data), input.Rem());
    if StoredAhead(skip', want, tail, r0, p0) {
      SamePrefix(ByteBits(data), input.Rem(), ByteBits(want), tail + Zeros(p1 - p0));
      ByteBitsInjective(data, want);
    }
  }

  lemma RegroupStored(a: seq<bool>, b: seq<bool>, c: seq<bool>, d: seq<bool>, e: seq<bool>)
    ensures (a + (b + c)) + (d + e) == (a + (b + (c + d))) + e
  {
  }

  /** The length of a stored block, sent twice: plain and complemented. */
  method ReadStoredLength(input: Reader, ghost skip': seq<bool>, ghost want: seq<byte>, ghost tail: seq<bool>)
    returns (ok: bool, len: nat, ghost skip: seq<bool>)
    requires input.Valid()
    modifies input
    ensures input.Valid() && old(input.pad) <= input.pad && input.num_bits == 0
    ensures ok ==> len < 0x1_0000 && |skip| == old(|input.Rem()|) % 8
                   && old(input.Rem()) + Zeros(input.pad - old(input.pad))
                      == (skip + (LsbBits(len, 16) + LsbBits(0xFFFF - len, 16))) + input.Rem()
    ensures StoredAhead(skip', want, tail, old(input.Rem()), old(input.pad))
            ==> ok && skip == skip' && len == |want|
                && input.Rem() == ByteBits(want) + (tail + Zeros(input.pad - old(input.pad)))
  {
    ghost var r0, p0 := input.Rem(), input.pad;
    var header;
    header, skip := ReadStoredHeader(input);
    len := Word(header[0], header[1]);
    var nlen := Word(header[2], header[3]);
    FourBytes(header);
    Complement(len);
    if StoredAhead(skip', want, tail, r0, p0) {
      StoredExpected(skip', want, tail, r0, p0, skip, header, input.pad - p0, input.Rem());
    }
    ok := nlen == Xor(len, 0xFFFF);
  }

  lemma Complement(len: nat)
    requires len < 0x1_0000
    ensures Xor(len, 0xFFFF) == 0xFFFF - len
  {
    Pow2Small();
    XorMask(len, 16);
  }
}
