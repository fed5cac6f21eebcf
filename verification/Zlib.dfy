/** Decoding a zlib stream: `stbi__parse_zlib` and `stbi__do_zlib`. */
module Zlib {
  import opened Bits
  import opened Canonical
  import opened Deflate
  import opened Inflate
  import opened BitReader
  import opened OutputBuffer
  import opened DeflateStream
  import opened InflateStream

  /** A stream to be inflated, and the blocks that are expected, if any are. */
  datatype Task = Task(s0: Snapshot, bs: seq<StreamBlock>, last: StreamBlock, tail: seq<bool>)
  {
    /** The stream does consist of the expected blocks, and there is room for their output. */
    ghost predicate Expected() {
      && Stream(bs, last, s0.r, tail) && |tail| >= s0.pad
      && AllLegal(s0.out, bs + [last]) && |Inflated(s0.out, bs + [last])| <= s0.limit
    }

    /** The non-final blocks `got` have been inflated. */
    ghost predicate Reached(got: seq<StreamBlock>, s: Snapshot) {
      && s0.pad <= s.pad && (s.pad - s0.pad) % 8 == 0 && s0.limit <= s.limit
      && Sent(got, s0.r + Zeros(s.pad - s0.pad), s.r)
      && AllLegal(s0.out, got) && s.out == Inflated(s0.out, got)
      && (Expected() ==> got <= bs && Remaining(bs[|got|..], s))
    }

    /** What is still expected. */
    ghost predicate Remaining(rest: seq<StreamBlock>, s: Snapshot)
      requires s0.pad <= s.pad
    {
      && Stream(rest, last, s.r, tail + Zeros(s.pad - s0.pad))
      && AllLegal(s.out, rest + [last]) && |Inflated(s.out, rest + [last])| <= s0.limit
    }

    /** The stream was inflated as the blocks `got` and the final block `w`. */
    ghost predicate Finished(got: seq<StreamBlock>, w: StreamBlock, s: Snapshot) {
      && s0.pad <= s.pad && Stream(got, w, s0.r + Zeros(s.pad - s0.pad), s.r)
      && AllLegal(s0.out, got + [w]) && s.out == Inflated(s0.out, got + [w])
      && (Expected() ==> got == bs && w == last && s.r == tail + Zeros(s.pad - s0.pad))
    }
  }

  lemma {:induction false} StreamLength(bs: seq<StreamBlock>, last: StreamBlock, r: seq<bool>, tail: seq<bool>)
    requires Stream(bs, last, r, tail)
    ensures |r| >= |tail|
    decreases |bs|
  {
    if bs != [] { StreamLength(bs[1..], last, r[|bs[0].Bits(false, |r|)|..], tail); }
  }

  lemma Start(t: Task)
    ensures t.Reached([], t.s0)
  {
    assert t.s0.r + Zeros(0) == t.s0.r;
    if t.Expected() {
      assert t.bs[0..] == t.bs;
      assert t.tail + Zeros(0) == t.tail;
    }
  }

  /** What is expected next; `want` is final exactly when all other blocks have been read. */
  ghost predicate NextIs(t: Task, got: seq<StreamBlock>, s: Snapshot, f: bool, want: StreamBlock, tl: seq<bool>)
    requires t.s0.pad <= s.pad && got <= t.bs
  {
    && f == (got == t.bs) && want == (if |got| == |t.bs| then t.last else t.bs[|got|])
    && BlockNext(f, want, tl, s.r) && |tl| >= s.pad
    && want.LegalAfter(s.out) && |want.Output(s.out)| <= s.limit
    && (if |got| == |t.bs| then tl == t.tail + Zeros(s.pad - t.s0.pad)
        else Stream(t.bs[|got| + 1..], t.last, tl, t.tail + Zeros(s.pad - t.s0.pad)))
  }

  lemma Next(t: Task, got: seq<StreamBlock>, s: Snapshot) returns (f: bool, want: StreamBlock, tl: seq<bool>)
    requires t.Reached(got, s)
    ensures t.Expected() ==> NextIs(t, got, s, f, want, tl)
  {
    f, want, tl := got == t.bs, t.last, t.tail + Zeros(s.pad - t.s0.pad);
    if t.Expected() {
      var rest := t.bs[|got|..];
      if rest == [] {
        assert got == t.bs;
        assert rest + [t.last] == [t.last];
        OneLeft(s.out, t.last, rest);
      } else {
        want := rest[0];
        tl := s.r[|want.Bits(false, |s.r|)|..];
        assert rest[1..] == t.bs[|got| + 1..];
        StreamLength(rest[1..], t.last, tl, t.tail + Zeros(s.pad - t.s0.pad));
        FirstLeft(s.out, rest, t.last);
      }
    }
  }

  lemma OneLeft(out: seq<byte>, last: StreamBlock, rest: seq<StreamBlock>)
    requires rest == [] && AllLegal(out, rest + [last])
    ensures last.LegalAfter(out) && Inflated(out, rest + [last]) == last.Output(out)
  {
    assert (rest + [last])[1..] == [];
  }

  lemma FirstLeft(out: seq<byte>, rest: seq<StreamBlock>, last: StreamBlock)
    requires rest != [] && AllLegal(out, rest + [last])
    ensures rest[0].LegalAfter(out) && AllLegal(rest[0].Output(out), rest[1..] + [last])
    ensures Inflated(out, rest + [last]) == Inflated(rest[0].Output(out), rest[1..] + [last])
    ensures |rest[0].Output(out)| <= |Inflated(out, rest + [last])|
  {
    assert (rest + [last])[1..] == rest[1..] + [last];
    InflatedGrows(rest[0].Output(out), rest[1..] + [last]);
  }

  /** A block that was not the final one. */
  lemma Advance(t: Task, got: seq<StreamBlock>, s: Snapshot, w: StreamBlock, s': Snapshot, tl: seq<bool>)
    requires t.Reached(got, s) && s.pad <= s'.pad && s.limit <= s'.limit && (s'.pad - s.pad) % 8 == 0
    requires BlockNext(false, w, s'.r, s.r + Zeros(s'.pad - s.pad)) && w.LegalAfter(s.out) && s'.out == w.Output(s.out)
    requires t.Expected() ==> got != t.bs && w == t.bs[|got|] && s'.r == tl + Zeros(s'.pad - s.pad)
                              && Stream(t.bs[|got| + 1..], t.last, tl, t.tail + Zeros(s.pad - t.s0.pad))
    ensures t.Reached(got + [w], s')
  {
    var n, m := s.pad - t.s0.pad, s'.pad - s.pad;
    SentPad(got, t.s0.r + Zeros(n), s.r, m);
    ZerosAdd(n, m, t.s0.r);
    SentMore(got, t.s0.r + Zeros(n + m), s.r + Zeros(m), w, s'.r);
    InflatedMore(t.s0.out, got, w);
    if t.Expected() {
      var rest := t.bs[|got|..];
      assert rest[1..] == t.bs[|got + [w]|..];
      FirstLeft(s.out, rest, t.last);
      StreamPad(rest[1..], t.last, tl, t.tail + Zeros(n), m);
      ZerosAdd(n, m, t.tail);
    }
  }

  lemma Conclude(t: Task, got: seq<StreamBlock>, s: Snapshot, w: StreamBlock, s': Snapshot)
    requires t.Reached(got, s) && s.pad <= s'.pad && (s'.pad - s.pad) % 8 == 0
    requires BlockNext(true, w, s'.r, s.r + Zeros(s'.pad - s.pad)) && w.LegalAfter(s.out) && s'.out == w.Output(s.out)
    requires t.Expected() ==>
               got == t.bs && w == t.last && s'.r == (t.tail + Zeros(s.pad - t.s0.pad)) + Zeros(s'.pad - s.pad)
    ensures t.Finished(got, w, s')
  {
    var n, m := s.pad - t.s0.pad, s'.pad - s.pad;
    SentPad(got, t.s0.r + Zeros(n), s.r, m);
    ZerosAdd(n, m, t.s0.r);
    SentLast(got, t.s0.r + Zeros(n + m), s.r + Zeros(m), w, s'.r);
    InflatedMore(t.s0.out, got, w);
    ZerosAdd(n, m, t.tail);
  }

  // ---------- made-up zero bits are never a block ----------

  ghost predicate AllZero(x: seq<bool>) { forall i | 0 <= i < |x| :: !x[i] }

  lemma {:induction false} ZeroValue(v: nat, n: nat)
    requires v < Pow2(n) && AllZero(LsbBits(v, n))
    ensures v == 0
  {
    if n > 0 {
      LsbBitsDef(v, n);
      ZeroSplit([v % 2 == 1], LsbBits(v / 2, n - 1));
      assert ![v % 2 == 1][0];
      ZeroValue(v / 2, n - 1);
    }
  }

  lemma ZeroSplit(a: seq<bool>, b: seq<bool>)
    requires AllZero(a + b)
    ensures AllZero(a) && AllZero(b)
  {
    forall i | 0 <= i < |a| ensures !a[i] { assert a[i] == (a + b)[i]; }
    forall i | 0 <= i < |b| ensures !b[i] { assert b[i] == (a + b)[|a| + i]; }
  }

  /** A stored block sends the complement of its length, and any other block a non-zero type. */
  lemma NoZeroBlock(f: bool, w: StreamBlock, rest: seq<bool>, x: seq<bool>)
    requires BlockNext(f, w, rest, x)
    ensures !AllZero(x)
  {
    if AllZero(x) {
      var body := w.BodyBits(|x|);
      ZeroSplit(HeadBits(f, w.Type()) + body, rest);
      ZeroSplit(HeadBits(f, w.Type()), body);
      ZeroSplit([f], LsbBits(w.Type(), 2));
      Pow2Small();
      ZeroValue(w.Type(), 2);
      w.BodyDef(|x|);
      NoZeroStored(w.skip, w.data);
    }
  }

  lemma NoZeroStored(skip: seq<bool>, data: seq<byte>)
    requires |data| < 0x1_0000
    ensures !AllZero(StoredBits(skip, data))
  {
    if AllZero(StoredBits(skip, data)) {
      var a, b := LsbBits(|data|, 16), LsbBits(0xFFFF - |data|, 16);
      ZeroSplit(skip, a + (b + ByteBits(data)));
      ZeroSplit(a, b + ByteBits(data));
      ZeroSplit(b, ByteBits(data));
      Pow2Small();
      ZeroValue(|data|, 16);
      ZeroValue(0xFFFF - |data|, 16);
    }
  }

  lemma {:induction false} SentSuffix(bs: seq<StreamBlock>, r: seq<bool>, rest: seq<bool>)
    requires Sent(bs, r, rest)
    ensures |rest| <= |r| && rest == r[|r| - |rest|..]
    decreases |bs|
  {
    if bs != [] { SentSuffix(bs[1..], r[|bs[0].Bits(false, |r|)|..], rest); }
  }

  /** Once only made-up bits are left, no further block is read. */
  lemma RealBitsLeft(t: Task, got: seq<StreamBlock>, s: Snapshot, f: bool, w: StreamBlock, n: nat, rest: seq<bool>)
    requires t.Reached(got, s) && t.s0.pad == 0 && BlockNext(f, w, rest, s.r + Zeros(n))
    ensures |s.r| > s.pad
  {
    if |s.r| <= s.pad {
      SentSuffix(got, t.s0.r + Zeros(s.pad), s.r);
      NoZeroBlock(f, w, rest, s.r + Zeros(n));
    }
  }

  /** What one round of the loop comes to. */
  lemma Round(t: Task, got: seq<StreamBlock>, s: Snapshot, f: bool, want: StreamBlock, tl: seq<bool>,
              ok: bool, final: bool, w: StreamBlock, s': Snapshot)
    requires t.Reached(got, s) && t.s0.pad == 0 && s'.pad % 8 == s.pad % 8
    requires BlockDone(ok, final, w, f, want, tl, s, s')
    requires t.Expected() ==> NextIs(t, got, s, f, want, tl)
    ensures t.Expected() ==> ok
    ensures ok ==> s.pad <= s'.pad && |s.r| > s.pad && |s'.r| - s'.pad < |s.r| - s.pad
    ensures ok && final ==> t.Finished(got, w, s')
    ensures ok && !final ==> t.Reached(got + [w], s')
  {
    BlockDoneDef(ok, final, w, f, want, tl, s, s');
    if ok {
      RealBitsLeft(t, got, s, final, w, s'.pad - s.pad, s'.r);
      if final { Conclude(t, got, s, w, s'); } else { Advance(t, got, s, w, s', tl); }
    }
  }

  /** The loop of `stbi__parse_zlib`: every stream it accepts is a list of blocks, and it accepts every
      list of legal blocks whose output there is room for. */
  method ParseBlocks(z: ZBuf, ghost t: Task) returns (ok: bool, ghost got: seq<StreamBlock>, ghost w: StreamBlock)
    requires z.Valid() && t.s0 == z.State() && z.input.pad == 0
    modifies z.input, z.out, z.out.buf, z.z_length.Arrays(), z.z_distance.Arrays()
    ensures z.Valid()
    ensures ok ==> t.Finished(got, w, z.State())
    ensures t.Expected() ==> ok
  {
    got := [];
    Start(t);
    w := t.last;
    while true
      invariant z.Valid() && (z.out.buf == old(z.out.buf) || fresh(z.out.buf))
      invariant t.Reached(got, z.State())
      decreases |z.input.Rem()| - z.input.pad
    {
      ghost var s := z.State();
      ghost var f, want, tl := Next(t, got, s);
      var final;
      ok, final, w := z.ParseBlockOf(f, want, tl);
      Round(t, got, s, f, want, tl, ok, final, w, z.State());
      if !ok || final { return; }
      got := got + [w];
    }
  }

  /** `stbi__do_zlib` over a fresh buffer of `olen` bytes. An accepted input is a zlib header and a list
      of blocks, and the result is what the blocks stand for; and every such input with legal blocks whose
      output there is room for is accepted. */
  method DecodeZlib(data: seq<byte>, olen: nat, exp: bool, parseHeader: bool, ghost want: Deflated)
    returns (ok: bool, result: seq<byte>, ghost got: Deflated)
    requires olen <= UINT_MAX && (exp ==> olen > 0)
    ensures ok ==> got.Describes(Payload(data, parseHeader), true) && result == got.Output()
                   && (parseHeader ==> HeaderOk(data))
    ensures (parseHeader ==> HeaderOk(data)) && want.Describes(Payload(data, parseHeader), false)
            && |want.Output()| <= (if exp then 0x8000_0000 else olen)
            ==> ok && result == want.Output()
  {
    result, got := [], want;
    var z;
    ok, z := OpenZlib(data, olen, exp, parseHeader);
    if !ok { return; }
    ghost var t := Task(z.State(), want.bs, want.last, want.tail);
    ghost var bs, last;
    ok, bs, last := ParseBlocks(z, t);
    if !ok { return; }
    result := z.out.buf[..z.out.len];
    got := Deflated(bs, last, z.input.Rem());
    Opened(t, Payload(data, parseHeader), bs, last, z.State());
  }

  lemma Opened(t: Task, d: seq<byte>, bs: seq<StreamBlock>, last: StreamBlock, s: Snapshot)
    requires t.s0.r == ByteBits(d) && t.s0.pad == 0 && t.s0.out == [] && s.pad % 8 == 0 && t.Finished(bs, last, s)
    ensures Deflated(bs, last, s.r).Describes(d, true) && s.out == Deflated(bs, last, s.r).Output()
  {
    assert Stream(bs, last, ByteBits(d) + Zeros(s.pad), s.r);
  }

  /** A fresh inflater at the first bit of the first block. */
  method OpenZlib(data: seq<byte>, olen: nat, exp: bool, parseHeader: bool) returns (ok: bool, z: ZBuf)
    requires olen <= UINT_MAX && (exp ==> olen > 0)
    ensures ok <==> (parseHeader ==> HeaderOk(data))
    ensures fresh(z.Footprint()) && z.Valid()
    ensures ok ==> z.State() == Snapshot(ByteBits(Payload(data, parseHeader)), 0, [], if exp then 0x8000_0000 else olen)
  {
    z := new ZBuf(data, olen, exp);
    assert data[0..] == data;
    ok := true;
    if parseHeader {
      ok := z.ParseHeader();
      if !ok { return; }
    }
    z.input.Begin();
  }

  /** What the blocks are read from. */
  function Payload(data: seq<byte>, parseHeader: bool): seq<byte> {
    if parseHeader && |data| >= 2 then data[2..] else data
  }

  /** A deflated text: its blocks and what follows them. */
  datatype Deflated = Deflated(bs: seq<StreamBlock>, last: StreamBlock, tail: seq<bool>)
  {
    /** The bytes `d` are these blocks; `padded` allows the stream to run on into made-up zero bytes. */
    ghost predicate Describes(d: seq<byte>, padded: bool) {
      && AllLegal([], bs + [last])
      && if padded then exists n: nat :: n % 8 == 0 && Stream(bs, last, ByteBits(d) + Zeros(n), tail)
         else Stream(bs, last, ByteBits(d), tail)
    }

    ghost function Output(): seq<byte>
      requires AllLegal([], bs + [last])
    {
      Inflated([], bs + [last])
    }
  }
}
