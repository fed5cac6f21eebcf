/** `stbi__parse_zlib`: the inflater on whole streams. */
module InflateStream {
  import opened Bits
  import opened BitOps
  import opened Canonical
  import opened HuffmanTable
  import opened BitReader
  import opened Deflate
  import opened Inflate
  import opened InflateBlock
  import opened OutputBuffer
  import opened FixedCode
  import opened DynamicCodes
  import opened DeflateStream
  import StoredBlock

  /** The block `w`, its three header bits read, is what `r` starts with. */
  ghost predicate BodyAhead(w: StreamBlock, tail: seq<bool>, r: seq<bool>, pad: nat) {
    w.Sendable(|r| + 3) && r == w.BodyBits(|r| + 3) + tail && |tail| >= pad
  }

  /** The body of a block was read as that of `w`. */
  ghost predicate BodyRead(w: StreamBlock, r0: seq<bool>, n: nat, r: seq<bool>) {
    w.Sendable(|r0| + 3) && r0 + Zeros(n) == w.BodyBits(|r0| + 3) + r
  }

  lemma StoredExpected(w: StreamBlock, tail: seq<bool>, r: seq<bool>, pad: nat)
    requires w.Stored? && BodyAhead(w, tail, r, pad)
    ensures StoredBlock.StoredAhead(w.skip, w.data, tail, r, pad)
  {
    w.SendableDef(|r| + 3);
    w.BodyDef(|r| + 3);
  }

  lemma StoredRead(skip: seq<bool>, data: seq<byte>, r0: seq<bool>, n: nat, r: seq<bool>)
    requires |data| < 0x1_0000 && |skip| == |r0| % 8 && r0 + Zeros(n) == StoredBits(skip, data) + r
    ensures BodyRead(Stored(skip, data), r0, n, r)
  {
    var w := Stored(skip, data);
    w.SendableDef(|r0| + 3);
    w.BodyDef(|r0| + 3);
  }

  /** The symbols of the block `w` are what `r` starts with. */
  ghost predicate SymbolsAhead(w: StreamBlock, tail: seq<bool>, r: seq<bool>, pad: nat) {
    w.Symbolic() && r == w.SymbolBits() + tail && |tail| >= pad
  }

  lemma FixedExpected(w: StreamBlock, tail: seq<bool>, r: seq<bool>, pad: nat)
    requires w.Fixed? && BodyAhead(w, tail, r, pad)
    ensures SymbolsAhead(w, tail, r, pad)
  {
    w.BodyDef(|r| + 3);
  }

  /** After its header, a dynamic block is a list of symbols like a fixed one. */
  lemma DynamicExpected(w: StreamBlock, tail: seq<bool>, r: seq<bool>, pad: nat)
    requires w.Dynamic? && BodyAhead(w, tail, r, pad)
    ensures w.Symbolic() && HeaderAhead(w.h, w.SymbolBits() + tail, r, pad)
  {
    w.BodyDef(|r| + 3);
    RegroupedTail(w.h.Bits(), w.SymbolBits(), tail, []);
  }

  /** The block reader's task for the symbols of a block like `kind`, of which `want` may be expected. */
  lemma SymbolsTask(kind: StreamBlock, want: StreamBlock, tail: seq<bool>, s0: Snapshot) returns (b: Block)
    requires kind.HasCodes()
    ensures b.l == kind.LitLengths() && b.d == kind.DistLengths() && b.r0 == s0.r && b.p0 == s0.pad && b.out0 == s0.out
    ensures SymbolsWanted(kind, want, tail, s0) ==>
              b.Expected() && |Expand(b.out0, b.want)| <= s0.limit && want == kind.(ts := b.want) && b.tail == tail
  {
    b := Block(kind.LitLengths(), kind.DistLengths(), s0.r, s0.pad, s0.out, [], []);
    if SymbolsWanted(kind, want, tail, s0) {
      want.OutputDef(s0.out);
      b := b.(want := want.ts, tail := tail);
      RegroupedTail(TokensBits(b.l, b.d, want.ts), CodeBits(b.l, END_OF_BLOCK), tail, []);
    }
  }

  lemma SymbolsRead(ok: bool, b: Block, kind: StreamBlock, got: seq<Token>, want: StreamBlock, tail: seq<bool>,
                    s0: Snapshot, s: Snapshot)
    requires kind.HasCodes() && b.l == kind.LitLengths() && b.d == kind.DistLengths()
    requires b.r0 == s0.r && b.p0 == s0.pad && b.out0 == s0.out && s0.pad <= s.pad && s0.limit <= s.limit
    requires ok ==> b.Finished(got, s.r, s.pad, s.out)
    requires SymbolsWanted(kind, want, tail, s0) ==> ok && b.Expected() && want == kind.(ts := b.want) && b.tail == tail
    ensures SymbolsDone(ok, kind.(ts := got), kind, want, tail, s0, s)
  {
    if ok {
      var w := kind.(ts := got);
      w.LegalDef(s0.out);
      w.OutputDef(s0.out);
      RegroupedTail(TokensBits(b.l, b.d, got), CodeBits(b.l, END_OF_BLOCK), s.r, []);
    }
  }

  /** A block like `kind` is expected, it is there, and there is room for its output. */
  ghost predicate SymbolsWanted(kind: StreamBlock, want: StreamBlock, tail: seq<bool>, s0: Snapshot)
    requires !kind.Stored?
  {
    && SymbolsAhead(want, tail, s0.r, s0.pad) && want == kind.(ts := want.ts)
    && want.LegalAfter(s0.out) && |want.Output(s0.out)| <= s0.limit
  }

  /** What is left of the input, how much of that was made up, and the output so far and its limit. */
  datatype Snapshot = Snapshot(r: seq<bool>, pad: nat, out: seq<byte>, limit: nat)

  /** What every kind of block body promises: that it was read as the body of `w`, and, if the stream
      starts with the body of `want` and there is room for its output, that `w` is `want`. */
  ghost predicate BodyResult(kind: nat, ok: bool, w: StreamBlock, want: StreamBlock, tail: seq<bool>, s0: Snapshot,
                             s: Snapshot) {
    && s0.pad <= s.pad && s0.limit <= s.limit
    && (ok ==> w.Type() == kind && BodyRead(w, s0.r, s.pad - s0.pad, s.r)
               && w.LegalAfter(s0.out) && s.out == w.Output(s0.out))
    && (want.Type() == kind && BodyAhead(want, tail, s0.r, s0.pad)
        && want.LegalAfter(s0.out) && |want.Output(s0.out)| <= s0.limit
        ==> ok && w == want && s.r == tail + Zeros(s.pad - s0.pad))
  }

  /** `BodyResult`, kept folded. (`k`, always left at its default, delays the unfolding.) */
  ghost predicate BodyDone(kind: nat, ok: bool, w: StreamBlock, want: StreamBlock, tail: seq<bool>, s0: Snapshot,
                           s: Snapshot,
                           k: nat := 3)
    decreases |tail|, k
  {
    if k > 0 then BodyDone(kind, ok, w, want, tail, s0, s, k - 1) else BodyResult(kind, ok, w, want, tail, s0, s)
  }

  lemma BodyDoneDef(kind: nat, ok: bool, w: StreamBlock, want: StreamBlock, tail: seq<bool>, s0: Snapshot, s: Snapshot)
    ensures BodyDone(kind, ok, w, want, tail, s0, s) == BodyResult(kind, ok, w, want, tail, s0, s)
  {
    assert BodyDone(kind, ok, w, want, tail, s0, s, 1) == BodyDone(kind, ok, w, want, tail, s0, s, 0);
    assert BodyDone(kind, ok, w, want, tail, s0, s, 2) == BodyDone(kind, ok, w, want, tail, s0, s, 1);
  }

  /** The same for the symbols of a fixed or dynamic block like `kind`. */
  ghost predicate SymbolsDone(ok: bool, w: StreamBlock, kind: StreamBlock, want: StreamBlock, tail: seq<bool>,
                              s0: Snapshot, s: Snapshot)
    requires !kind.Stored?
  {
    && s0.pad <= s.pad && s0.limit <= s.limit && !w.Stored? && w == kind.(ts := w.ts)
    && (ok ==> w.Symbolic() && s0.r + Zeros(s.pad - s0.pad) == w.SymbolBits() + s.r
               && w.LegalAfter(s0.out) && s.out == w.Output(s0.out))
    && (SymbolsWanted(kind, want, tail, s0) ==> ok && w == want && s.r == tail + Zeros(s.pad - s0.pad))
  }

  lemma FixedDone(ok: bool, w: StreamBlock, want: StreamBlock, tail: seq<bool>, s0: Snapshot, s: Snapshot)
    requires SymbolsDone(ok, w, Fixed([]), want, tail, s0, s)
    ensures BodyDone(1, ok, w, want, tail, s0, s)
  {
    BodyDoneDef(1, ok, w, want, tail, s0, s);
    if ok {
      w.SendableDef(|s0.r| + 3);
      w.BodyDef(|s0.r| + 3);
    }
    if want.Fixed? && BodyAhead(want, tail, s0.r, s0.pad) { FixedExpected(want, tail, s0.r, s0.pad); }
  }

  lemma NotDone(kind: nat, w: StreamBlock, want: StreamBlock, tail: seq<bool>, s0: Snapshot, s: Snapshot)
    requires s0.pad <= s.pad && s0.limit <= s.limit && (want.Type() == kind ==> !BodyAhead(want, tail, s0.r, s0.pad))
    ensures BodyDone(kind, false, w, want, tail, s0, s)
  {
    BodyDoneDef(kind, false, w, want, tail, s0, s);
  }

  lemma StoredDone(ok: bool, skip: seq<bool>, data: seq<byte>, want: StreamBlock, tail: seq<bool>, s0: Snapshot,
                   s: Snapshot)
    requires s0.pad <= s.pad && s0.limit <= s.limit
    requires ok ==> |data| < 0x1_0000 && |skip| == |s0.r| % 8 && s.out == s0.out + data
                    && s0.r + Zeros(s.pad - s0.pad) == StoredBits(skip, data) + s.r
    requires want.Stored? && StoredBlock.StoredAhead(want.skip, want.data, tail, s0.r, s0.pad)
             && |s0.out| + |want.data| <= s0.limit
             ==> ok && skip == want.skip && data == want.data && s.r == tail + Zeros(s.pad - s0.pad)
    ensures BodyDone(0, ok, Stored(skip, data), want, tail, s0, s)
  {
    var w := Stored(skip, data);
    BodyDoneDef(0, ok, w, want, tail, s0, s);
    w.LegalDef(s0.out);
    w.OutputDef(s0.out);
    if ok { StoredRead(skip, data, s0.r, s.pad - s0.pad, s.r); }
    if want.Stored? && BodyAhead(want, tail, s0.r, s0.pad) {
      StoredExpected(want, tail, s0.r, s0.pad);
      if want.LegalAfter(s0.out) { want.OutputDef(s0.out); }
    }
  }

  /** What reading the header of a dynamic block promises. */
  ghost predicate CodesDone(ok: bool, h: Header, want: StreamBlock, tail: seq<bool>, s0: Snapshot, s: Snapshot) {
    && s0.pad <= s.pad && s0.limit == s.limit && s0.out == s.out
    && (ok ==> h.Valid() && s0.r + Zeros(s.pad - s0.pad) == h.Bits() + s.r)
    && (want.Dynamic? && BodyAhead(want, tail, s0.r, s0.pad)
        ==> ok && h == want.h && want.Symbolic() && s.r == (want.SymbolBits() + tail) + Zeros(s.pad - s0.pad))
  }

  lemma HeaderTask(want: StreamBlock, tail: seq<bool>, r0: seq<bool>, p0: nat) returns (h: Header, t: seq<bool>)
    ensures want.Dynamic? && BodyAhead(want, tail, r0, p0)
            ==> h == want.h && want.Symbolic() && t == want.SymbolBits() + tail && HeaderAhead(h, t, r0, p0)
  {
    h, t := NO_HEADER, [];
    if want.Dynamic? && BodyAhead(want, tail, r0, p0) {
      DynamicExpected(want, tail, r0, p0);
      h, t := want.h, want.SymbolBits() + tail;
    }
  }

  lemma DynamicDone(ok: bool, w: StreamBlock, h: Header, want: StreamBlock, tail: seq<bool>, s0: Snapshot, s1: Snapshot,
                    s: Snapshot)
    requires CodesDone(true, h, want, tail, s0, s1)
    requires SymbolsDone(ok, w, Dynamic(h, []), want, tail + Zeros(s1.pad - s0.pad), s1, s)
    ensures BodyDone(2, ok, w, want, tail, s0, s)
  {
    BodyDoneDef(2, ok, w, want, tail, s0, s);
    if ok {
      w.SendableDef(|s0.r| + 3);
      w.BodyDef(|s0.r| + 3);
      Joined(h.Bits(), w.SymbolBits(), s0.r, s1.r, s.r, s1.pad - s0.pad, s.pad - s1.pad);
    }
    if want.Dynamic? && BodyAhead(want, tail, s0.r, s0.pad) {
      RegroupedTail(want.SymbolBits(), tail, Zeros(s1.pad - s0.pad), []);
      ZerosAdd(s1.pad - s0.pad, s.pad - s1.pad, tail);
    }
  }

  /** The block `w`, final or not, is what `r` starts with. */
  ghost predicate BlockNext(final: bool, w: StreamBlock, tail: seq<bool>, r: seq<bool>) {
    w.Sendable(|r|) && r == w.Bits(final, |r|) + tail
  }

  /** What reading a whole block promises. */
  ghost predicate BlockResult(ok: bool, final: bool, w: StreamBlock, wantFinal: bool, want: StreamBlock,
                              tail: seq<bool>,
                              s0: Snapshot, s: Snapshot) {
    && s0.pad <= s.pad && s0.limit <= s.limit
    && (ok ==> BlockNext(final, w, s.r, s0.r + Zeros(s.pad - s0.pad)) && w.LegalAfter(s0.out)
               && s.out == w.Output(s0.out))
    && (BlockNext(wantFinal, want, tail, s0.r) && |tail| >= s0.pad
        && want.LegalAfter(s0.out) && |want.Output(s0.out)| <= s0.limit
        ==> ok && final == wantFinal && w == want && s.r == tail + Zeros(s.pad - s0.pad))
  }

  /** `BlockResult`, kept folded. */
  ghost predicate BlockDone(ok: bool, final: bool, w: StreamBlock, wantFinal: bool, want: StreamBlock, tail: seq<bool>,
                            s0: Snapshot, s: Snapshot, k: nat := 3)
    decreases |tail|, k
  {
    if k > 0 then BlockDone(ok, final, w, wantFinal, want, tail, s0, s, k - 1)
    else BlockResult(ok, final, w, wantFinal, want, tail, s0, s)
  }

  lemma BlockDoneDef(ok: bool, final: bool, w: StreamBlock, wantFinal: bool, want: StreamBlock, tail: seq<bool>,
                     s0: Snapshot, s: Snapshot)
    ensures BlockDone(ok, final, w, wantFinal, want, tail, s0, s)
            == BlockResult(ok, final, w, wantFinal, want, tail, s0, s)
  {
    assert BlockDone(ok, final, w, wantFinal, want, tail, s0, s, 1)
           == BlockDone(ok, final, w, wantFinal, want, tail, s0, s, 0);
    assert BlockDone(ok, final, w, wantFinal, want, tail, s0, s, 2)
           == BlockDone(ok, final, w, wantFinal, want, tail, s0, s, 1);
  }

  /** The three header bits can be read in one way only. */
  lemma HeadUnique(f: bool, k: nat, x: seq<bool>, f': bool, k': nat, y: seq<bool>)
    requires k < 4 && k' < 4 && HeadBits(f, k) + x == HeadBits(f', k') + y
    ensures f == f' && k == k' && x == y
  {
    SamePrefix(HeadBits(f, k), x, HeadBits(f', k'), y);
    SamePrefix([f], LsbBits(k, 2), [f'], LsbBits(k', 2));
    Pow2Small();
    LsbBitsSmall(k, 2);
    LsbBitsSmall(k', 2);
  }

  /** What the expected block says once the header bits have been read. */
  lemma HeadExpected(f: bool, w: StreamBlock, tail: seq<bool>, s0: Snapshot, final: bool, kind: nat, n: nat,
                     r1: seq<bool>)
    requires BlockNext(f, w, tail, s0.r) && |tail| >= s0.pad && n % 8 == 0 && kind < 4
    requires s0.r + Zeros(n) == HeadBits(final, kind) + r1
    ensures final == f && kind == w.Type() && BodyAhead(w, tail + Zeros(n), r1, s0.pad + n)
  {
    var b, zs := w.BodyBits(|s0.r|), Zeros(n);
    assert s0.r + zs == HeadBits(f, w.Type()) + (b + tail + zs);
    HeadUnique(f, w.Type(), b + tail + zs, final, kind, r1);
    w.SendableMod(|s0.r|, |r1| + 3);
    assert b + tail + zs == b + (tail + zs);
  }

  lemma HeadRead(final: bool, w: StreamBlock, r0: seq<bool>, n: nat, r1: seq<bool>, m: nat, r: seq<bool>)
    requires r0 + Zeros(n) == HeadBits(final, w.Type()) + r1 && BodyRead(w, r1, m, r) && m % 8 == 0
    ensures BlockNext(final, w, r, r0 + Zeros(n + m))
  {
    Joined(HeadBits(final, w.Type()), w.BodyBits(|r1| + 3), r0, r1, r, n, m);
    w.SendableMod(|r1| + 3, |r0 + Zeros(n + m)|);
  }

  lemma PadDifference(a: nat, b: nat)
    requires a <= b && a % 8 == b % 8
    ensures (b - a) % 8 == 0
  {
  }

  /** A block is its header bits and its body. */
  lemma BlockOfBody(ok: bool, final: bool, w: StreamBlock, f: bool, want: StreamBlock, tail: seq<bool>,
                    kind: nat, s0: Snapshot, s1: Snapshot, s: Snapshot)
    requires s0.pad <= s1.pad && s0.pad % 8 == s1.pad % 8 == s.pad % 8 && s0.out == s1.out && s0.limit == s1.limit
             && kind < 4
    requires s0.r + Zeros(s1.pad - s0.pad) == HeadBits(final, kind) + s1.r
    requires BodyDone(kind, ok, w, want, tail + Zeros(s1.pad - s0.pad), s1, s)
    ensures BlockDone(ok, final, w, f, want, tail, s0, s)
  {
    var n := s1.pad - s0.pad;
    PadDifference(s0.pad, s1.pad);
    BodyDoneDef(kind, ok, w, want, tail + Zeros(n), s1, s);
    BlockDoneDef(ok, final, w, f, want, tail, s0, s);
    if ok { HeadRead(final, w, s0.r, n, s1.r, s.pad - s1.pad, s.r); }
    if BlockNext(f, want, tail, s0.r) && |tail| >= s0.pad {
      HeadExpected(f, want, tail, s0, final, kind, n, s1.r);
      ZerosAdd(n, s.pad - s1.pad, tail);
    }
  }

  ghost const NO_HEADER: Header := Header(0, 0, [], [])

  /** The inflater's state. */
  class ZBuf {
    const input: Reader
    const out: Output
    const z_length: ZHuffman
    const z_distance: ZHuffman

    constructor (data: seq<byte>, olen: nat, exp: bool)
      requires olen <= UINT_MAX && (exp ==> olen > 0)
      ensures Valid() && fresh(Footprint())
      ensures input.zbuffer == data && input.Rem() == ByteBits(data) && input.pad == 0 && input.pos == 0
      ensures out.Contents() == [] && out.expandable == exp && out.buf.Length == olen
    {
      input := new Reader(data);
      out := new Output(olen, exp);
      z_length := new ZHuffman();
      z_distance := new ZHuffman();
      new;
      assert data[0..] == data;
    }

    ghost function Footprint(): set<object>
      reads out
    {
      {input as object, out as object, out.buf as object} + z_length.Arrays() + z_distance.Arrays()
    }

    ghost predicate Valid()
      reads input, out
    {
      && input.Valid() && out.Valid() && z_length.Shape() && z_distance.Shape()
      && z_length.Arrays() !! z_distance.Arrays()
      && out.buf != z_length.size && out.buf != z_distance.size
    }

    ghost function State(): (s: Snapshot)
      requires Valid()
      reads input, out, out.buf
    {
      Snapshot(input.Rem(), input.pad, out.Contents(), out.Limit())
    }

    method StoredBody(ghost want: StreamBlock, ghost tail: seq<bool>) returns (ok: bool, ghost w: StreamBlock)
      requires Valid()
      modifies input, out, out.buf
      ensures Valid() && (out.buf == old(out.buf) || fresh(out.buf))
      ensures BodyDone(0, ok, w, want, tail, old(State()), State())
    {
      ghost var s0 := State();
      ghost var skip, data;
      ghost var skip', data' := [], [];
      if want.Stored? { skip', data' := want.skip, want.data; }
      ok, skip, data := StoredBlock.ParseStored(input, out, skip', data', tail);
      w := Stored(skip, data);
      StoredDone(ok, skip, data, want, tail, s0, State());
    }

    /** The symbols of a fixed or dynamic block, the tables being built. */
    method Symbols(ghost kind: StreamBlock, ghost want: StreamBlock, ghost tail: seq<bool>)
      returns (ok: bool, ghost w: StreamBlock)
      requires Valid() && kind.HasCodes()
      requires z_length.Built(kind.LitLengths()) && z_distance.Built(kind.DistLengths())
      modifies input, out, out.buf
      ensures Valid() && (out.buf == old(out.buf) || fresh(out.buf))
      ensures SymbolsDone(ok, w, kind, want, tail, old(State()), State())
    {
      ghost var s0 := State();
      ghost var b := SymbolsTask(kind, want, tail, s0);
      ghost var got;
      ok, got := ParseBlock(input, out, z_length, z_distance, b);
      w := kind.(ts := got);
      SymbolsRead(ok, b, kind, got, want, tail, s0, State());
    }

    method FixedBody(ghost want: StreamBlock, ghost tail: seq<bool>) returns (ok: bool, ghost w: StreamBlock)
      requires Valid()
      modifies input, out, out.buf, z_length.Arrays(), z_distance.Arrays()
      ensures Valid() && (out.buf == old(out.buf) || fresh(out.buf))
      ensures BodyDone(1, ok, w, want, tail, old(State()), State())
    {
      ghost var s0 := State();
      FixedUsable();
      FixedDistancesUsable();
      ok := BuildBoth(z_length, z_distance, FixedLengths(), FixedDistances());
      ok, w := Symbols(Fixed([]), want, tail);
      FixedDone(ok, w, want, tail, s0, State());
    }

    /** The header of a dynamic block, and both tables. */
    method DynamicHeader(ghost want: StreamBlock, ghost tail: seq<bool>) returns (ok: bool, ghost h: Header)
      requires Valid()
      modifies input, z_length.Arrays(), z_distance.Arrays()
      ensures Valid() && CodesDone(ok, h, want, tail, old(State()), State())
      ensures ok ==> z_length.Built(h.Lengths()) && z_distance.Built(h.Distances())
    {
      ghost var r0, p0 := input.Rem(), input.pad;
      ghost var wh, wtail := HeaderTask(want, tail, r0, p0);
      ok, h := ComputeCodes(input, z_length, z_distance, wh, wtail);
    }

    method DynamicBody(ghost want: StreamBlock, ghost tail: seq<bool>) returns (ok: bool, ghost w: StreamBlock)
      requires Valid()
      modifies input, out, out.buf, z_length.Arrays(), z_distance.Arrays()
      ensures Valid() && (out.buf == old(out.buf) || fresh(out.buf))
      ensures BodyDone(2, ok, w, want, tail, old(State()), State())
    {
      ghost var s0 := State();
      ghost var h;
      ok, h := DynamicHeader(want, tail);
      w := Dynamic(h, []);
      ghost var s1 := State();
      if !ok {
        NotDone(2, w, want, tail, s0, s1);
        return;
      }
      ok, w := Symbols(Dynamic(h, []), want, tail + Zeros(s1.pad - s0.pad));
      DynamicDone(ok, w, h, want, tail, s0, s1, State());
    }

    /** The body of a block of the given type. */
    method Body(kind: nat, ghost want: StreamBlock, ghost tail: seq<bool>) returns (ok: bool, ghost w: StreamBlock)
      requires Valid() && kind < 4
      modifies input, out, out.buf, z_length.Arrays(), z_distance.Arrays()
      ensures Valid() && (out.buf == old(out.buf) || fresh(out.buf))
      ensures BodyDone(kind, ok, w, want, tail, old(State()), State())
    {
      if kind == 0 {
        ok, w := StoredBody(want, tail);
      } else if kind == 3 {
        ok, w := false, want;
        NotDone(3, w, want, tail, State(), State());
      } else if kind == 1 {
        ok, w := FixedBody(want, tail);
      } else {
        ok, w := DynamicBody(want, tail);
      }
    }

    /** The final flag and the type of the next block. */
    method ReadHead() returns (final: bool, kind: nat)
      requires Valid()
      modifies input
      ensures Valid() && kind < 4 && old(input.pad) <= input.pad
      ensures old(input.Rem()) + Zeros(input.pad - old(input.pad)) == HeadBits(final, kind) + input.Rem()
    {
      ghost var r0, p0 := input.Rem(), input.pad;
      HeadWidths();
      var f := input.Receive(1);
      ghost var r1, p1 := input.Rem(), input.pad;
      final := f == 1;
      FlagBit(f);
      kind := input.Receive(2);
      Joined([final], LsbBits(kind, 2), r0, r1, input.Rem(), p1 - p0, input.pad - p1);
    }

    /** One round of the loop of `stbi__parse_zlib`. */
    method ParseBlockOf(ghost wantFinal: bool, ghost want: StreamBlock, ghost tail: seq<bool>)
      returns (ok: bool, final: bool, ghost w: StreamBlock)
      requires Valid()
      modifies input, out, out.buf, z_length.Arrays(), z_distance.Arrays()
      ensures Valid() && (out.buf == old(out.buf) || fresh(out.buf))
      ensures BlockDone(ok, final, w, wantFinal, want, tail, old(State()), State())
    {
      ghost var s0 := State();
      var kind;
      final, kind := ReadHead();
      ghost var s1 := State();
      ok, w := Body(kind, want, tail + Zeros(s1.pad - s0.pad));
      BlockOfBody(ok, final, w, wantFinal, want, tail, kind, s0, s1, State());
    }

    /** `stbi__parse_zlib_header` */
    method ParseHeader() returns (ok: bool)
      requires Valid() && input.num_bits == 0
      modifies input
      ensures Valid() && input.pad == old(input.pad) && input.num_bits == 0
      ensures ok <==> HeaderOk(old(input.zbuffer[input.pos..]))
      ensures ok ==> input.pos == old(input.pos) + 2
    {
      ghost var d := input.zbuffer[input.pos..];
      var cmf := input.Zget8();
      var cm := And(cmf, 15);
      var flg := input.Zget8();
      LowBits4(cmf);
      if input.Zeof() { return false; }
      var c: int := cmf;
      if (c * 256 + flg) % 31 != 0 { return false; }
      if And(flg, 32) != 0 { return false; }
      if cm != 8 { return false; }
      ok := true;
    }
  }

  lemma HeadWidths()
    ensures Pow2(1) == 2 && Pow2(2) == 4
  {
  }

  lemma FlagBit(f: nat)
    requires f < 2
    ensures LsbBits(f, 1) == [f == 1]
  {
    LsbBitsDef(f, 1);
  }

  lemma LowBits4(n: nat)
    ensures And(n, 15) == n % 16
  {
    AndMask(n, 4);
    Pow2Small();
  }

  /** The two zlib header bytes (RFC 1950, section 2.2): deflate, no preset dictionary, check bits right,
      and something to follow. */
  ghost predicate HeaderOk(d: seq<byte>) {
    && |d| >= 3 && d[0] % 16 == 8 && And(d[1], 32) == 0
    && (var c: int := d[0]; (c * 256 + d[1]) % 31 == 0)
  }

  // ---------- lists of blocks ----------

  lemma {:induction false} SentPad(bs: seq<StreamBlock>, r: seq<bool>, rest: seq<bool>, n: nat)
    requires Sent(bs, r, rest) && n % 8 == 0
    ensures Sent(bs, r + Zeros(n), rest + Zeros(n))
    decreases |bs|
  {
    if bs != [] {
      var b := bs[0].Bits(false, |r|);
      bs[0].SendableMod(|r|, |r| + n);
      SentPad(bs[1..], r[|b|..], rest, n);
      assert (r + Zeros(n))[|b|..] == r[|b|..] + Zeros(n);
    }
  }

  /** One more block. */
  lemma {:induction false} SentMore(bs: seq<StreamBlock>, r: seq<bool>, rest: seq<bool>, w: StreamBlock,
                                    rest': seq<bool>)
    requires Sent(bs, r, rest) && BlockNext(false, w, rest', rest)
    ensures Sent(bs + [w], r, rest')
    decreases |bs|
  {
    if bs != [] {
      SentMore(bs[1..], r[|bs[0].Bits(false, |r|)|..], rest, w, rest');
      assert (bs + [w])[1..] == bs[1..] + [w];
    } else {
      assert (bs + [w])[1..] == [];
      assert rest[|w.Bits(false, |rest|)|..] == rest';
    }
  }

  /** The final block. */
  lemma {:induction false} SentLast(bs: seq<StreamBlock>, r: seq<bool>, rest: seq<bool>, w: StreamBlock,
                                    tail: seq<bool>)
    requires Sent(bs, r, rest) && BlockNext(true, w, tail, rest)
    ensures Stream(bs, w, r, tail)
    decreases |bs|
  {
    if bs != [] { SentLast(bs[1..], r[|bs[0].Bits(false, |r|)|..], rest, w, tail); }
  }

  lemma {:induction false} StreamPad(bs: seq<StreamBlock>, last: StreamBlock, r: seq<bool>, tail: seq<bool>, n: nat)
    requires Stream(bs, last, r, tail) && n % 8 == 0
    ensures Stream(bs, last, r + Zeros(n), tail + Zeros(n))
    decreases |bs|
  {
    if bs == [] {
      last.SendableMod(|r|, |r| + n);
      assert r + Zeros(n) == last.Bits(true, |r|) + (tail + Zeros(n));
    } else {
      var b := bs[0].Bits(false, |r|);
      bs[0].SendableMod(|r|, |r| + n);
      StreamPad(bs[1..], last, r[|b|..], tail, n);
      assert (r + Zeros(n))[|b|..] == r[|b|..] + Zeros(n);
    }
  }

  lemma {:induction false} InflatedMore(out: seq<byte>, bs: seq<StreamBlock>, w: StreamBlock)
    requires AllLegal(out, bs) && w.LegalAfter(Inflated(out, bs))
    ensures AllLegal(out, bs + [w]) && Inflated(out, bs + [w]) == w.Output(Inflated(out, bs))
    decreases |bs|
  {
    if bs == [] {
      assert (bs + [w])[1..] == [];
    } else {
      InflatedMore(bs[0].Output(out), bs[1..], w);
      assert (bs + [w])[1..] == bs[1..] + [w];
    }
  }

  /** Blocks only ever add to the output. */
  lemma {:induction false} InflatedGrows(out: seq<byte>, bs: seq<StreamBlock>)
    requires AllLegal(out, bs)
    ensures |out| <= |Inflated(out, bs)|
    decreases |bs|
  {
    if bs != [] {
      OutputGrows(out, bs[0]);
      InflatedGrows(bs[0].Output(out), bs[1..]);
    }
  }

  lemma OutputGrows(out: seq<byte>, w: StreamBlock)
    requires w.LegalAfter(out)
    ensures |out| <= |w.Output(out)|
  {
    w.OutputDef(out);
    if !w.Stored? {
      LegalPrefix(out, w.ts, 0);
      assert w.ts[..0] == [];
    }
  }
}
