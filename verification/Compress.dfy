/** `stbi_zlib_compress`: one fixed-Huffman block, or stored blocks where that is not larger. */
module Compress {
  import opened Sequences
  import opened Bits
  import opened BitOps
  import opened Canonical
  import opened Deflate
  import opened FixedCode
  import opened BitWriter
  import opened Matching
  import opened DeflateStream
  import opened InflateStream
  import opened DynamicCodes
  import opened StoreBlocks
  import opened Zlib
  import Adler

  /** The next entry of `lengthc`, which has 259 after the last base length. */
  method LengthLimit(j: nat) returns (v: nat)
    requires j < 29
    ensures v == if j < 28 then LengthBase(j + 1) else 259
  {
    if j < 28 {
      var base, _ := LengthEntry(j + 1);
      v := base;
    } else {
      v := 259;
    }
  }

  method DistLimit(j: nat) returns (v: nat)
    requires j < 30
    ensures v == if j < 29 then DistBase(j + 1) else 32768
  {
    if j < 29 {
      var base, _ := DistEntry(j + 1);
      v := base;
    } else {
      v := 32768;
    }
  }

  /** The length symbol of a match, and the rest of its length. */
  method FindLength(best: nat) returns (j: nat, base: nat, extra: nat)
    requires 3 <= best <= 258
    ensures j < 29 && base == LengthBase(j) <= best && extra == LengthExtra(j) <= 5 && best - base < Pow2(extra)
  {
    LengthBases();
    j := 0;
    var limit := LengthLimit(0);
    while best > limit - 1
      invariant 0 <= j < 29 && LengthBase(j) <= best && limit == if j < 28 then LengthBase(j + 1) else 259
      decreases 29 - j
    {
      j := j + 1;
      limit := LengthLimit(j);
    }
    base, extra := LengthEntry(j);
    LengthRoom(j, best);
  }

  lemma LengthRoom(j: nat, best: nat)
    requires j < 29 && LengthBase(j) <= best < (if j < 28 then LengthBase(j + 1) else 259)
    ensures best - LengthBase(j) < Pow2(LengthExtra(j))
  {
    LengthBases();
    if j == 27 {
      Pow2Small();
      assert LengthExtra(27) == 5;
    }
  }

  /** The distance symbol of a match, and the rest of its distance. */
  method FindDistance(d: nat) returns (j: nat, base: nat, extra: nat)
    requires 1 <= d <= 32767
    ensures j < 30 && base == DistBase(j) <= d && extra == DistExtra(j) <= 13 && d - base < Pow2(extra)
  {
    DistBases();
    j := 0;
    var limit := DistLimit(0);
    while d > limit - 1
      invariant 0 <= j < 30 && DistBase(j) <= d && limit == if j < 29 then DistBase(j + 1) else 32768
      decreases 30 - j
    {
      j := j + 1;
      limit := DistLimit(j);
    }
    base, extra := DistEntry(j);
    DistRoom(j, d);
  }

  lemma DistRoom(j: nat, d: nat)
    requires j < 30 && DistBase(j) <= d < (if j < 29 then DistBase(j + 1) else 32768)
    ensures d - DistBase(j) < Pow2(DistExtra(j))
  {
    DistBases();
    if j == 29 {
      assert DistExtra(29) == 13;
      assert Pow2(13) == 8192;
    }
  }

  /** Extra bits are written only where there are any. */
  method AddExtra(w: Writer, x: nat, n: nat)
    requires w.Valid() && n <= 13 && x < Pow2(n)
    modifies w
    ensures w.Valid() && old(w.out) <= w.out && w.Written() == old(w.Written()) + LsbBits(x, n)
  {
    if n != 0 { w.Add(x, n); }
  }

  method WriteLength(w: Writer, best: nat) returns (ghost lsym: nat, ghost lextra: nat)
    requires w.Valid() && 3 <= best <= 258
    modifies w
    ensures w.Valid() && old(w.out) <= w.out
    ensures 257 <= lsym < 286 && lextra < Pow2(LengthExtra(lsym - 257)) && LengthBase(lsym - 257) + lextra == best
    ensures IsSym(FixedLengths(), lsym)
    ensures w.Written() == (old(w.Written()) + CodeBits(FixedLengths(), lsym))
            + LsbBits(lextra, LengthExtra(lsym - 257))
  {
    var j, base, eb := FindLength(best);
    w.Huff(j + 257);
    AddExtra(w, best - base, eb);
    lsym, lextra := j + 257, best - base;
  }

  method WriteDistance(w: Writer, d: nat) returns (ghost dsym: nat, ghost dextra: nat)
    requires w.Valid() && 1 <= d <= 32767
    modifies w
    ensures w.Valid() && old(w.out) <= w.out
    ensures dsym < 30 && dextra < Pow2(DistExtra(dsym)) && DistBase(dsym) + dextra == d
    ensures IsSym(FixedDistances(), dsym)
    ensures w.Written() == (old(w.Written()) + CodeBits(FixedDistances(), dsym)) + LsbBits(dextra, DistExtra(dsym))
  {
    var j, base, eb := FindDistance(d);
    FixedDistanceWord(j);
    assert j < Pow2(5) by { Pow2Small(); }
    w.HuffA(j, 5);
    AddExtra(w, d - base, eb);
    dsym, dextra := j, d - base;
  }

  lemma Regroup(w: seq<bool>, a: seq<bool>, b: seq<bool>, c: seq<bool>, d: seq<bool>)
    ensures (((w + a) + b) + c) + d == w + (a + (b + (c + d)))
  {
  }

  /** Writes a match as a length symbol and a distance symbol, each with its extra bits. */
  method WriteCopy(w: Writer, best: nat, d: nat) returns (ghost t: Token)
    requires w.Valid() && 3 <= best <= 258 && 1 <= d <= 32767
    modifies w
    ensures w.Valid() && old(w.out) <= w.out
    ensures t.Copy? && Coded(FixedLengths(), FixedDistances(), t) && Length(t) == best && Distance(t) == d
    ensures w.Written() == old(w.Written()) + TokenBits(FixedLengths(), FixedDistances(), t)
  {
    ghost var w0 := w.Written();
    ghost var lsym, lextra := WriteLength(w, best);
    ghost var dsym, dextra := WriteDistance(w, d);
    t := Copy(lsym, lextra, dsym, dextra);
    Regroup(w0, CodeBits(FixedLengths(), lsym), LsbBits(lextra, LengthExtra(lsym - 257)),
            CodeBits(FixedDistances(), dsym), LsbBits(dextra, DistExtra(dsym)));
  }

  /** The bytes up to `i` have been written as the tokens `ts`. */
  ghost predicate Coding(data: seq<byte>, i: nat, ts: seq<Token>, start: seq<bool>, written: seq<bool>) {
    && i <= |data| && AllCoded(FixedLengths(), FixedDistances(), ts) && Legal([], ts) && Expand([], ts) == data[..i]
    && written == start + TokensBits(FixedLengths(), FixedDistances(), ts)
  }

  lemma CodingMore(data: seq<byte>, i: nat, ts: seq<Token>, start: seq<bool>, written: seq<bool>, t: Token, i': nat)
    requires Coding(data, i, ts, start, written) && Coded(FixedLengths(), FixedDistances(), t)
    requires i' <= |data| && LegalToken(data[..i], t) && Apply(data[..i], t) == data[..i']
    ensures Coding(data, i', ts + [t], start, written + TokenBits(FixedLengths(), FixedDistances(), t))
  {
    MoreTokens(FixedLengths(), FixedDistances(), data[..i], ts, start, written, t);
  }

  lemma MoreTokens(l: seq<nat>, d: seq<nat>, out: seq<byte>, ts: seq<Token>, start: seq<bool>, written: seq<bool>,
                   t: Token)
    requires AllCoded(l, d, ts) && Legal([], ts) && Expand([], ts) == out && written == start + TokensBits(l, d, ts)
    requires Coded(l, d, t) && LegalToken(out, t)
    ensures AllCoded(l, d, ts + [t]) && Legal([], ts + [t]) && Expand([], ts + [t]) == Apply(out, t)
    ensures written + TokenBits(l, d, t) == start + TokensBits(l, d, ts + [t])
  {
    ExtendTokens(l, d, [], ts, t);
    Regrouped(start, TokensBits(l, d, ts), TokenBits(l, d, t));
  }

  /** Sends byte `i` as a literal. */
  method SendLiteral(w: Writer, data: seq<byte>, i: nat, ghost ts: seq<Token>, ghost start: seq<bool>)
    returns (ghost t: Token)
    requires w.Valid() && i < |data| && Coding(data, i, ts, start, w.Written())
    modifies w
    ensures w.Valid() && old(w.out) <= w.out && Coding(data, i + 1, ts + [t], start, w.Written())
  {
    ghost var w0 := w.Written();
    w.HuffB(data[i]);
    t := Literal(data[i]);
    CodingMore(data, i, ts, start, w0, t, i + 1);
  }

  /** Sends the match at `bestloc` for position `i`. */
  method SendMatch(w: Writer, data: seq<byte>, i: nat, bestloc: nat, best: nat, ghost ts: seq<Token>,
                   ghost start: seq<bool>)
    returns (ghost t: Token)
    requires w.Valid() && IsMatch(data, i, bestloc, best) && Coding(data, i, ts, start, w.Written())
    modifies w
    ensures w.Valid() && old(w.out) <= w.out && Coding(data, i + best, ts + [t], start, w.Written())
  {
    ghost var w0 := w.Written();
    t := WriteCopy(w, best, i - bestloc);
    MatchReplays(data, i, bestloc, best);
    CodingMore(data, i, ts, start, w0, t, i + best);
  }

  /** The compressing loop and the final literals. */
  method SendData(w: Writer, data: seq<byte>, quality: nat, ghost start: seq<bool>) returns (ghost ts: seq<Token>)
    requires w.Valid() && w.Written() == start && quality >= 5
    modifies w
    ensures w.Valid() && old(w.out) <= w.out && Coding(data, |data|, ts, start, w.Written())
  {
    var hash := new HashTable();
    ts := [];
    assert Coding(data, 0, ts, start, w.Written());
    ghost var t;
    var i := 0;
    while i < |data| - 3
      invariant 0 <= i <= |data| && w.Valid() && old(w.out) <= w.out && fresh(hash.table) && hash.Holds(i)
      invariant Coding(data, i, ts, start, w.Written())
    {
      var found, bestloc, best := Decide(data, i, hash, quality);
      if found {
        t := SendMatch(w, data, i, bestloc, best, ts, start);
        hash.Later(i + 1, i + best);
        i := i + best;
      } else {
        t := SendLiteral(w, data, i, ts, start);
        i := i + 1;
      }
      ts := ts + [t];
    }
    while i < |data|
      invariant 0 <= i <= |data| && w.Valid() && old(w.out) <= w.out && Coding(data, i, ts, start, w.Written())
    {
      t := SendLiteral(w, data, i, ts, start);
      ts := ts + [t];
      i := i + 1;
    }
  }

  const START: seq<byte> := [0x78, 0x5e]

  /** The data as one fixed-Huffman block, after the two zlib header bytes. */
  method FixedForm(data: seq<byte>, quality: nat) returns (out: seq<byte>, ghost ts: seq<Token>, ghost pad: seq<bool>)
    requires quality >= 5
    ensures START <= out && AllCoded(FixedLengths(), FixedDistances(), ts) && Legal([], ts) && Expand([], ts) == data
    ensures IsSym(FixedLengths(), END_OF_BLOCK)
    ensures ByteBits(out[2..]) == HeadBits(true, 1) + (TokensBits(FixedLengths(), FixedDistances(), ts)
                                                       + CodeBits(FixedLengths(), END_OF_BLOCK)) + pad
  {
    var w := new Writer(START);
    ghost var w0 := w.Written();
    Pow2Small();
    w.Add(1, 1);
    w.Add(1, 2);
    assert LsbBits(1, 1) == [true];
    ghost var start := w.Written();
    assert start == w0 + HeadBits(true, 1);
    ts := SendData(w, data, quality, start);
    assert data[..|data|] == data;
    w.Huff(256);
    ghost var k := w.PadToByte();
    pad := Zeros(k);
    out := w.out;
    SplitStart(out, w0, HeadBits(true, 1), TokensBits(FixedLengths(), FixedDistances(), ts),
               CodeBits(FixedLengths(), END_OF_BLOCK), pad);
  }

  lemma SplitStart(out: seq<byte>, w0: seq<bool>, a: seq<bool>, b: seq<bool>, c: seq<bool>, d: seq<bool>)
    requires START <= out && w0 == ByteBits(START) && ByteBits(out) == (((w0 + a) + b) + c) + d
    ensures ByteBits(out[2..]) == (a + (b + c)) + d
  {
    assert out == START + out[2..];
    ByteBitsAppend(START, out[2..]);
    Regroup(w0, a, b, c, d);
    assert a + (b + (c + d)) == (a + (b + c)) + d;
    SamePrefix(w0, ByteBits(out[2..]), w0, (a + (b + c)) + d);
  }

  /** The fixed form followed by any bytes is a deflated text of the data. */
  lemma FixedDescribes(out: seq<byte>, ts: seq<Token>, pad: seq<bool>, rest: seq<byte>, data: seq<byte>)
    requires START <= out && AllCoded(FixedLengths(), FixedDistances(), ts) && Legal([], ts) && Expand([], ts) == data
    requires IsSym(FixedLengths(), END_OF_BLOCK)
    requires ByteBits(out[2..]) == HeadBits(true, 1) + (TokensBits(FixedLengths(), FixedDistances(), ts)
                                                        + CodeBits(FixedLengths(), END_OF_BLOCK)) + pad
    ensures var z := Deflated([], Fixed(ts), pad + ByteBits(rest));
            z.Describes((out + rest)[2..], false) && z.Output() == data
  {
    var w := Fixed(ts);
    var r := ByteBits(out[2..] + rest);
    DropStart(out, rest);
    ByteBitsAppend(out[2..], rest);
    w.SendableDef(|r|);
    w.BodyDef(|r|);
    FixedNext(w, r, out, pad, rest);
    w.LegalDef([]);
    w.OutputDef([]);
    OnlyBlock(w);
  }

  lemma DropStart(out: seq<byte>, rest: seq<byte>)
    requires START <= out
    ensures (out + rest)[2..] == out[2..] + rest
  {
  }

  lemma FixedNext(w: StreamBlock, r: seq<bool>, out: seq<byte>, pad: seq<bool>, rest: seq<byte>)
    requires w.Fixed? && w.Sendable(|r|) && |out| >= 2 && r == ByteBits(out[2..]) + ByteBits(rest)
    requires w.Symbolic() && w.BodyBits(|r|) == w.SymbolBits()
    requires ByteBits(out[2..]) == HeadBits(true, 1) + w.SymbolBits() + pad
    ensures r == w.Bits(true, |r|) + (pad + ByteBits(rest))
  {
    Regrouped(HeadBits(true, 1) + w.SymbolBits(), pad, ByteBits(rest));
  }

  lemma OnlyBlock(w: StreamBlock)
    requires w.LegalAfter([])
    ensures AllLegal([], [] + [w]) && Inflated([], [] + [w]) == w.Output([])
  {
    assert ([] + [w])[1..] == [];
  }

  lemma StoredDescribes(data: seq<byte>, rest: seq<byte>)
    requires data != []
    ensures var z := Deflated(StoredList(data).0, StoredList(data).1, ByteBits(rest));
            z.Describes((START + Store(data) + rest)[2..], false) && z.Output() == data
  {
    StoreIsStream(data, rest);
    StoreInflates(data, []);
    var d: seq<byte> := Store(data);
    DropStart(START + d, rest);
    assert (START + d)[2..] == d;
    assert [] + data == data;
  }

  /** The deflated text: the fixed form, or stored blocks where that form is longer than they are. */
  method CompressBody(data: seq<byte>, q: nat, ghost check: seq<byte>) returns (out: seq<byte>, ghost z: Deflated)
    requires q >= 5
    ensures START <= out && |out| <= 2 + StoredSize(|data|)
    ensures data != [] ==> z.Describes((out + check)[2..], false) && z.Output() == data
    ensures data == [] ==> out == START
  {
    ghost var ts, pad;
    out, ts, pad := FixedForm(data, q);
    if |out| > |data| + 2 + (|data| + 32766) / 32767 * 5 {
      out := StoreAll(START, data);
      z := Deflated([], Fixed([]), []);
      if data != [] {
        z := Deflated(StoredList(data).0, StoredList(data).1, ByteBits(check));
        StoredDescribes(data, check);
      }
    } else {
      z := Deflated([], Fixed(ts), pad + ByteBits(check));
      FixedDescribes(out, ts, pad, check, data);
    }
  }

  /** `stbi_zlib_compress`. The result is a zlib header, the checksum at the end, and in between, unless
      the data is empty, a deflated text of exactly the data. */
  method ZlibCompress(data: seq<byte>, quality: int) returns (out: seq<byte>, ghost z: Deflated)
    ensures |out| >= 6 && HeaderOk(out) && out[|out| - 4..] == Adler.Checksum(data)
    ensures data != [] ==> z.Describes(out[2..], false) && z.Output() == data
    ensures data == [] ==> out == START + Adler.Checksum([])
    ensures |out| <= 6 + StoredSize(|data|)
  {
    var q := if quality < 5 then 5 else quality;
    var check := Adler.Adler32(data);
    out, z := CompressBody(data, q, check);
    out := out + check;
    StartOk();
  }

  lemma StartOk()
    ensures And(0x5e, 32) == 0 && 0x78 % 16 == 8 && (0x78 * 256 + 0x5e) % 31 == 0
  {
    assert And(0x5e, 32) == Bit(false) + 2 * And(0x2f, 16);
    assert And(0x2f, 16) == 2 * And(0x17, 8);
    assert And(0x17, 8) == 2 * And(0xb, 4);
    assert And(0xb, 4) == 2 * And(5, 2);
  }
}
