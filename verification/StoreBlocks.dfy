/** The stored fallback of `stbi_zlib_compress`. */
module StoreBlocks {
  import opened Sequences
  import opened Bits
  import opened BitOps
  import opened DeflateStream
  import opened StoredBlock
  import opened InflateStream
  import opened DynamicCodes

  const MAX_STORED: nat := 32767

  function Chunk(d: seq<byte>): (n: nat)
    ensures n <= |d| && n <= MAX_STORED && (d != [] ==> n > 0)
  {
    if |d| > MAX_STORED then MAX_STORED else |d|
  }

  /** `~n` */
  function Not(n: int): int { -n - 1 }

  /** The five bytes before a stored chunk of `n` bytes. */
  function StoredHeader(final: bool, n: nat): (h: seq<byte>)
    ensures |h| == 5
  {
    [if final then 1 else 0, n % 256, n / 256 % 256, Not(n) % 256, Not(n) / 256 % 256]
  }

  /** The stored form of `d`: chunks of at most 32767 bytes, the last of them marked final. */
  function Store(d: seq<byte>): seq<byte> {
    if d == [] then []
    else StoredHeader(Chunk(d) == |d|, Chunk(d)) + d[..Chunk(d)] + Store(d[Chunk(d)..])
  }

  function StoredSize(n: nat): nat { n + (n + 32766) / 32767 * 5 }

  lemma {:induction false} StoreLength(d: seq<byte>)
    ensures |Store(d)| == StoredSize(|d|)
  {
    if d != [] {
      StoreLength(d[Chunk(d)..]);
      if |d| > MAX_STORED { assert (|d| + 32766) / 32767 == (|d| - 32767 + 32766) / 32767 + 1; }
    }
  }

  lemma StoreStep(data: seq<byte>, j: nat, n: nat)
    requires j < |data| && n == Chunk(data[j..])
    ensures j + n <= |data|
    ensures Store(data[j..]) == StoredHeader(|data| - j == n, n) + data[j..j + n] + Store(data[j + n..])
  {
    var d := data[j..];
    assert d[..n] == data[j..j + n] && d[n..] == data[j + n..];
  }

  /** The loop that stores the data uncompressed; its output is as long as announced, so that it fits
      where the longer compressed form was. */
  method StoreAll(start: seq<byte>, data: seq<byte>) returns (out: seq<byte>)
    ensures out == start + Store(data)
    ensures |out| == |start| + StoredSize(|data|)
  {
    out := start;
    var j := 0;
    assert data[0..] == data;
    while j < |data|
      invariant 0 <= j <= |data| && out + Store(data[j..]) == start + Store(data)
    {
      var blocklen := |data| - j;
      if blocklen > 32767 { blocklen := 32767; }
      StoreStep(data, j, blocklen);
      ghost var before := out;
      out := out + [if |data| - j == blocklen then 1 else 0];
      out := out + [blocklen % 256];
      out := out + [blocklen / 256 % 256];
      out := out + [Not(blocklen) % 256];
      out := out + [Not(blocklen) / 256 % 256];
      assert out == before + StoredHeader(|data| - j == blocklen, blocklen);
      out := out + data[j..j + blocklen];
      j := j + blocklen;
    }
    StoreLength(data);
  }

  ghost const SKIP: seq<bool> := Zeros(5)

  /** The header bytes are the bits of a stored block's header. */
  lemma HeaderBits(final: bool, n: nat)
    requires n <= MAX_STORED
    ensures ByteBits(StoredHeader(final, n)) == HeadBits(final, 0) + (SKIP + (LsbBits(n, 16) + LsbBits(0xFFFF - n, 16)))
  {
    var h := StoredHeader(final, n);
    var head, size: seq<byte> := h[..1], h[1..];
    assert head + size == h;
    ByteBitsAppend(head, size);
    FirstByte(final);
    assert head == [if final then 1 else 0];
    FourBytes(size);
    SizeBytes(n);
    Regrouped(HeadBits(final, 0), SKIP, LsbBits(n, 16) + LsbBits(0xFFFF - n, 16));
  }

  lemma SizeBytes(n: nat)
    requires n <= MAX_STORED
    ensures Word(n % 256, n / 256 % 256) == n
    ensures Word(Not(n) % 256, Not(n) / 256 % 256) == 0xFFFF - n
  {
    var q, r := n / 256, n % 256;
    assert Not(n) == -(q + 1) * 256 + (255 - r);
    assert Not(n) / 256 == -(q + 1) && Not(n) % 256 == 255 - r;
    assert (-(q + 1)) % 256 == 255 - q;
  }

  lemma FirstByte(final: bool)
    ensures ByteBits([if final then 1 else 0]) == HeadBits(final, 0) + SKIP
  {
    var b: byte := if final then 1 else 0;
    ByteBitsSnoc([], b);
    assert [] + [b] == [b];
    assert LsbBits(b, 8) == [final] + LsbBits(0, 7);
    LsbZeros(7);
    LsbZeros(2);
    assert Zeros(7) == Zeros(2) + Zeros(5);
  }

  /** One stored chunk is one stored block. */
  lemma ChunkIsBlock(final: bool, chunk: seq<byte>, rest: seq<byte>)
    requires |chunk| <= MAX_STORED
    ensures BlockNext(final, Stored(SKIP, chunk), ByteBits(rest), ByteBits(StoredHeader(final, |chunk|) + chunk + rest))
  {
    HeaderBits(final, |chunk|);
    BlockBytes(StoredHeader(final, |chunk|), final, chunk, rest);
  }

  lemma BlockBytes(h: seq<byte>, final: bool, chunk: seq<byte>, rest: seq<byte>)
    requires |chunk| <= MAX_STORED
    requires ByteBits(h) == HeadBits(final, 0) + (SKIP + (LsbBits(|chunk|, 16) + LsbBits(0xFFFF - |chunk|, 16)))
    ensures BlockNext(final, Stored(SKIP, chunk), ByteBits(rest), ByteBits(h + chunk + rest))
  {
    ChunkBits(h, final, chunk, rest);
    var w, r := Stored(SKIP, chunk), ByteBits(h + chunk + rest);
    assert |r| % 8 == 0 && |r| >= 8;
    w.SendableDef(|r|);
    w.BodyDef(|r|);
  }

  lemma ChunkBits(h: seq<byte>, final: bool, chunk: seq<byte>, rest: seq<byte>)
    requires |chunk| <= MAX_STORED
    requires ByteBits(h) == HeadBits(final, 0) + (SKIP + (LsbBits(|chunk|, 16) + LsbBits(0xFFFF - |chunk|, 16)))
    ensures ByteBits(h + chunk + rest) == (HeadBits(final, 0) + StoredBits(SKIP, chunk)) + ByteBits(rest)
  {
    ByteBitsAppend(h + chunk, rest);
    ByteBitsAppend(h, chunk);
    RegroupChunk(HeadBits(final, 0), SKIP, LsbBits(|chunk|, 16), LsbBits(0xFFFF - |chunk|, 16), ByteBits(chunk));
  }

  lemma RegroupChunk(h: seq<bool>, s: seq<bool>, a: seq<bool>, b: seq<bool>, c: seq<bool>)
    ensures (h + (s + (a + b))) + c == h + (s + (a + (b + c)))
  {
  }

  /** The blocks of a stored text. */
  ghost function StoredList(d: seq<byte>): (s: (seq<StreamBlock>, StreamBlock))
    requires d != []
  {
    var w := Stored(SKIP, d[..Chunk(d)]);
    if Chunk(d) == |d| then ([], w)
    else
      var (bs, last) := StoredList(d[Chunk(d)..]);
      ([w] + bs, last)
  }

  lemma {:induction false} StoreIsStream(d: seq<byte>, rest: seq<byte>)
    requires d != []
    ensures Stream(StoredList(d).0, StoredList(d).1, ByteBits(Store(d) + rest), ByteBits(rest))
  {
    var n := Chunk(d);
    var h := StoredHeader(n == |d|, n);
    var more := Store(d[n..]) + rest;
    assert Store(d) + rest == h + d[..n] + more;
    ChunkIsBlock(n == |d|, d[..n], more);
    if n == |d| {
      assert more == rest;
    } else {
      StoreIsStream(d[n..], rest);
      var w, r := Stored(SKIP, d[..n]), ByteBits(Store(d) + rest);
      assert ([w] + StoredList(d[n..]).0)[1..] == StoredList(d[n..]).0;
      assert r[|w.Bits(false, |r|)|..] == ByteBits(more);
    }
  }

  lemma {:induction false} StoreInflates(d: seq<byte>, out: seq<byte>)
    requires d != []
    ensures AllLegal(out, StoredList(d).0 + [StoredList(d).1])
    ensures Inflated(out, StoredList(d).0 + [StoredList(d).1]) == out + d
  {
    var n := Chunk(d);
    var w := Stored(SKIP, d[..n]);
    w.LegalDef(out);
    w.OutputDef(out);
    if n == |d| {
      assert ([] + [w])[1..] == [];
      assert d[..n] == d;
    } else {
      var (bs, last) := StoredList(d[n..]);
      StoreInflates(d[n..], out + d[..n]);
      assert (([w] + bs) + [last])[1..] == bs + [last];
      assert (out + d[..n]) + d[n..] == out + d;
    }
  }
}
