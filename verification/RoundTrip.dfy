/** The compressor and the inflater together. */
module RoundTrip {
  import opened Bits
  import opened Deflate
  import opened DeflateStream
  import opened InflateStream
  import opened StoredBlock
  import opened OutputBuffer
  import opened Zlib
  import opened Compress
  import Adler

  /** Compressing and inflating returns the data, for every quality, unless the data is empty: then the
      compressor sends no block at all, and the inflater rejects what it sends. */
  method CompressAndInflate(data: seq<byte>, quality: int, olen: nat) returns (ok: bool, result: seq<byte>)
    requires |data| <= 0x7FFF_FFFF && 0 < olen <= UINT_MAX
    ensures ok <==> data != []
    ensures ok ==> result == data
  {
    var out;
    ghost var z;
    out, z := ZlibCompress(data, quality);
    ghost var got;
    ok, result, got := DecodeZlib(out, olen, true, true, z);
    assert Payload(out, true) == out[2..];
    if data == [] && ok { EmptyRejected(got, out); }
  }

  /** What is sent for no data: the checksum alone. */
  lemma EmptyPayload(out: seq<byte>)
    requires out == START + Adler.Checksum([])
    ensures Payload(out, true) == [0, 0, 0, 1]
  {
    assert Adler.Checksum([]) == [0, 0, 0, 1];
    assert out[2..] == [0, 0, 0, 1];
  }

  lemma EmptyRejected(got: Deflated, out: seq<byte>)
    requires out == START + Adler.Checksum([])
    ensures !got.Describes(Payload(out, true), true)
  {
    EmptyPayload(out);
    var d: seq<byte> := [0, 0, 0, 1];
    if got.Describes(d, true) {
      var n: nat :| n % 8 == 0 && Stream(got.bs, got.last, ByteBits(d) + Zeros(n), got.tail);
      var x := ByteBits(d) + Zeros(n);
      if got.bs == [] {
        NoBlockHere(true, got.last, got.tail, n);
      } else {
        var w := got.bs[0];
        assert x == w.Bits(false, |x|) + x[|w.Bits(false, |x|)|..];
        NoBlockHere(false, w, x[|w.Bits(false, |x|)|..], n);
      }
    }
  }

  /** Three zero bytes and a one cannot start with a block. */
  lemma NoBlockHere(f: bool, w: StreamBlock, rest: seq<bool>, n: nat)
    requires n % 8 == 0
    ensures !BlockNext(f, w, rest, ByteBits([0, 0, 0, 1]) + Zeros(n))
  {
    var x := ByteBits([0, 0, 0, 1]) + Zeros(n);
    LeadingZeros(n);
    NoBlockIn(f, w, rest, x);
  }

  lemma NoBlockIn(f: bool, w: StreamBlock, rest: seq<bool>, x: seq<bool>)
    requires |x| % 8 == 0 && |x| >= 32 && x[..24] == Zeros(24) && !x[25]
    ensures !BlockNext(f, w, rest, x)
  {
    if BlockNext(f, w, rest, x) {
      TypeZero(f, w, rest, x);
      StoredShape(f, w, rest, x);
      LengthField(f, w.skip, w.data, rest, x);
    }
  }

  lemma StoredShape(f: bool, w: StreamBlock, rest: seq<bool>, x: seq<bool>)
    requires w.Stored? && |x| % 8 == 0 && BlockNext(f, w, rest, x)
    ensures |w.skip| == 5 && |w.data| < 0x1_0000 && x == (HeadBits(f, 0) + StoredBits(w.skip, w.data)) + rest
  {
    w.SendableDef(|x|);
    w.BodyDef(|x|);
    ModShift(|x|, 8, 3);
  }

  /** The first 24 bits are zero, the next one is not, and the one after it is. */
  lemma LeadingZeros(n: nat)
    ensures var x := ByteBits([0, 0, 0, 1]) + Zeros(n); |x| >= 32 && x[..24] == Zeros(24) && !x[25]
    ensures |ByteBits([0, 0, 0, 1]) + Zeros(n)| == 32 + n
  {
    var z, o: seq<byte> := [0, 0, 0], [1];
    assert [0, 0, 0, 1] == z + o;
    ByteBitsAppend(z, o);
    ByteBitsAppend([0, 0], [0]);
    ByteBitsAppend([0], [0]);
    LsbZeros(8);
    ByteBitsSnoc([], 0);
    ByteBitsSnoc([], 1);
    assert [] + [0] == [0] && [] + [1] == o && [0] + [0] == [0, 0] && [0, 0] + [0] == z;
    assert ByteBits(z) == Zeros(24);
    assert ByteBits(o) == LsbBits(1, 8);
    assert LsbBits(1, 8) == [true] + LsbBits(0, 7);
    LsbZeros(7);
    assert LsbBits(1, 8)[1] == LsbBits(0, 7)[0];
  }

  lemma TypeZero(f: bool, w: StreamBlock, rest: seq<bool>, x: seq<bool>)
    requires BlockNext(f, w, rest, x) && |x| >= 24 && x[..24] == Zeros(24)
    ensures w.Stored?
  {
    var b := LsbBits(w.Type(), 2);
    assert b == x[1..3];
    forall i | 0 <= i < 2 ensures !b[i] { assert b[i] == x[..24][1 + i]; }
    Pow2Small();
    ZeroValue(w.Type(), 2);
  }

  lemma LengthField(f: bool, skip: seq<bool>, data: seq<byte>, rest: seq<bool>, x: seq<bool>)
    requires |skip| == 5 && |data| < 0x1_0000 && x == (HeadBits(f, 0) + StoredBits(skip, data)) + rest
    requires |x| >= 32 && x[..24] == Zeros(24)
    ensures x[25]
  {
    var a, b := LsbBits(|data|, 16), LsbBits(0xFFFF - |data|, 16);
    var c := ByteBits(data) + rest;
    assert x == (HeadBits(f, 0) + skip) + (a + (b + c));
    forall i | 0 <= i < 16 ensures !a[i] { assert a[i] == x[..24][8 + i]; }
    Pow2Small();
    ZeroValue(|data|, 16);
    assert x[25] == b[1];
    assert LsbBits(0xFFFF, 16) == [true] + LsbBits(0x7FFF, 15);
    assert LsbBits(0x7FFF, 15) == [true] + LsbBits(0x3FFF, 14);
    assert b[1] == LsbBits(0x7FFF, 15)[0];
  }
}
