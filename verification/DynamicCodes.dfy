/** `stbi__compute_huffman_codes`: the code lengths that a dynamic block sends (RFC 1951, section 3.2.7). */
module DynamicCodes {
  import opened Bits
  import opened Canonical
  import opened HuffmanTable
  import opened BitReader
  import Deflate
  import opened Inflate

  const DEZIGZAG: seq<nat> := [16, 17, 18, 0, 8, 7, 9, 6, 10, 5, 11, 4, 12, 3, 13, 2, 14, 1, 15]

  /** One instruction of the run-length code for code lengths; `n` is the value of its extra bits. */
  datatype LengthOp = Plain(c: nat) | Repeat(n: nat) | ZeroShort(n: nat) | ZeroLong(n: nat)

  ghost predicate OpValid(op: LengthOp) {
    match op
    case Plain(c) => c < 16
    case Repeat(n) => n < 4
    case ZeroShort(n) => n < 8
    case ZeroLong(n) => n < 128
  }

  ghost function OpSym(op: LengthOp): nat {
    match op
    case Plain(c) => c
    case Repeat(_) => 16
    case ZeroShort(_) => 17
    case ZeroLong(_) => 18
  }

  ghost function OpExtra(op: LengthOp): (nat, nat) {
    match op
    case Plain(_) => (0, 0)
    case Repeat(n) => (n, 2)
    case ZeroShort(n) => (n, 3)
    case ZeroLong(n) => (n, 7)
  }

  ghost predicate OpCoded(cl: seq<nat>, op: LengthOp) { OpValid(op) && IsSym(cl, OpSym(op)) }

  ghost function OpBits(cl: seq<nat>, op: LengthOp): seq<bool>
    requires OpCoded(cl, op)
  {
    CodeBits(cl, OpSym(op)) + LsbBits(OpExtra(op).0, OpExtra(op).1)
  }

  function Copies(x: nat, n: nat): (s: seq<nat>)
    ensures |s| == n
  {
    seq(n, _ => x)
  }

  /** A repeat needs a length to repeat. */
  ghost predicate OpLegal(lens: seq<nat>, op: LengthOp) { OpValid(op) && (op.Repeat? ==> lens != []) }

  ghost function ApplyOp(lens: seq<nat>, op: LengthOp): (r: seq<nat>)
    requires OpLegal(lens, op)
    ensures |r| > |lens|
  {
    match op
    case Plain(c) => lens + [c]
    case Repeat(n) => lens + Copies(lens[|lens| - 1], n + 3)
    case ZeroShort(n) => lens + Copies(0, n + 3)
    case ZeroLong(n) => lens + Copies(0, n + 11)
  }

  ghost predicate OpsLegal(ops: seq<LengthOp>)
    decreases |ops|, 0
  {
    ops == [] || (OpsLegal(ops[..|ops| - 1]) && OpLegal(OpsLengths(ops[..|ops| - 1]), ops[|ops| - 1]))
  }

  ghost function OpsLengths(ops: seq<LengthOp>): seq<nat>
    requires OpsLegal(ops)
    decreases |ops|, 1
  {
    if ops == [] then [] else ApplyOp(OpsLengths(ops[..|ops| - 1]), ops[|ops| - 1])
  }

  ghost predicate OpsCoded(cl: seq<nat>, ops: seq<LengthOp>) {
    forall i | 0 <= i < |ops| :: OpCoded(cl, ops[i])
  }

  ghost function OpChunks(cl: seq<nat>, ops: seq<LengthOp>): (c: seq<seq<bool>>)
    requires OpsCoded(cl, ops)
    ensures |c| == |ops|
  {
    seq(|ops|, i requires 0 <= i < |ops| => OpBits(cl, ops[i]))
  }

  ghost function OpsBits(cl: seq<nat>, ops: seq<LengthOp>): seq<bool>
    requires OpsCoded(cl, ops)
  {
    Deflate.Concat(OpChunks(cl, ops))
  }

  /** The three-bit lengths of the code length code, put where they belong. */
  ghost function Unzigzag(sent: seq<nat>): (cl: seq<nat>)
    requires |sent| <= 19
    ensures |cl| == 19
  {
    if sent == [] then Copies(0, 19)
    else Unzigzag(sent[..|sent| - 1])[DEZIGZAG[|sent| - 1] := sent[|sent| - 1]]
  }

  ghost function TripleBits(sent: seq<nat>): (b: seq<bool>)
    ensures |b| == 3 * |sent|
  {
    if sent == [] then [] else TripleBits(sent[..|sent| - 1]) + LsbBits(sent[|sent| - 1], 3)
  }

  /** The three counts at the front of a header. (`k`, always left at its default, delays the unfolding.) */
  ghost function CountBits(hlit: nat, hdist: nat, hclen: nat, k: nat := 3): (b: seq<bool>)
    requires hlit >= 257 && hdist >= 1 && hclen >= 4
    ensures |b| == 14
    decreases hlit, k
  {
    if k > 0 then CountBits(hlit, hdist, hclen, k - 1)
    else (LsbBits(hlit - 257, 5) + LsbBits(hdist - 1, 5)) + LsbBits(hclen - 4, 4)
  }

  lemma CountBitsDef(hlit: nat, hdist: nat, hclen: nat)
    requires hlit >= 257 && hdist >= 1 && hclen >= 4
    ensures CountBits(hlit, hdist, hclen) == (LsbBits(hlit - 257, 5) + LsbBits(hdist - 1, 5)) + LsbBits(hclen - 4, 4)
  {
    assert CountBits(hlit, hdist, hclen, 1) == CountBits(hlit, hdist, hclen, 0);
    assert CountBits(hlit, hdist, hclen, 2) == CountBits(hlit, hdist, hclen, 1);
  }

  /** The header of a dynamic block. */
  datatype Header = Header(hlit: nat, hdist: nat, sent: seq<nat>, ops: seq<LengthOp>)
  {
    ghost predicate FrontValid() {
      && 257 <= hlit <= 288 && 1 <= hdist <= 32 && 4 <= |sent| <= 19
      && forall i | 0 <= i < |sent| :: sent[i] < 8
    }

    ghost function FrontBits(): seq<bool>
      requires FrontValid()
    {
      CountBits(hlit, hdist, |sent|) + TripleBits(sent)
    }

    /** A header an inflater accepts. (`k`, always left at its default, delays the unfolding.) */
    ghost predicate Valid(k: nat := 3)
      decreases |ops|, k
    {
      if k > 0 then Valid(k - 1)
      else
        && FrontValid() && Usable(Unzigzag(sent)) && OpsCoded(Unzigzag(sent), ops)
        && OpsLegal(ops) && |OpsLengths(ops)| == hlit + hdist
        && Usable(OpsLengths(ops)[..hlit]) && Usable(OpsLengths(ops)[hlit..])
    }

    lemma ValidDef()
      ensures Valid() <==>
              && FrontValid() && Usable(Unzigzag(sent)) && OpsCoded(Unzigzag(sent), ops)
              && OpsLegal(ops) && |OpsLengths(ops)| == hlit + hdist
              && Usable(OpsLengths(ops)[..hlit]) && Usable(OpsLengths(ops)[hlit..])
    {
      assert Valid(1) == Valid(0);
      assert Valid(2) == Valid(1);
    }

    ghost function Lengths(): (l: seq<nat>)
      requires Valid()
    {
      ValidDef();
      OpsLengths(ops)[..hlit]
    }

    ghost function Distances(): (l: seq<nat>)
      requires Valid()
    {
      ValidDef();
      OpsLengths(ops)[hlit..]
    }

    ghost function Bits(k: nat := 3): seq<bool>
      requires Valid()
      decreases |ops|, k
    {
      if k > 0 then Bits(k - 1)
      else
        ValidDef();
        FrontBits() + OpsBits(Unzigzag(sent), ops)
    }

    lemma BitsDef()
      requires Valid()
      ensures FrontValid() && OpsCoded(Unzigzag(sent), ops) && Bits() == FrontBits() + OpsBits(Unzigzag(sent), ops)
    {
      ValidDef();
      assert Bits(1) == Bits(0);
      assert Bits(2) == Bits(1);
    }
  }

  // ---------- the fixed-size front of the header ----------

  lemma {:induction false} TriplesUnique(a: seq<nat>, b: seq<nat>)
    requires |a| == |b| && TripleBits(a) == TripleBits(b)
    requires forall i | 0 <= i < |a| :: a[i] < 8 && b[i] < 8
    ensures a == b
  {
    if a != [] {
      var n := |a| - 1;
      SamePrefix(TripleBits(a[..n]), LsbBits(a[n], 3), TripleBits(b[..n]), LsbBits(b[n], 3));
      TriplesUnique(a[..n], b[..n]);
      ThreeBits(a[n], b[n]);
      assert a == a[..n] + [a[n]] && b == b[..n] + [b[n]];
    }
  }

  lemma ThreeBits(x: nat, y: nat)
    requires x < 8 && y < 8 && LsbBits(x, 3) == LsbBits(y, 3)
    ensures x == y
  {
    Pow2Small();
    NumberUnique(x, y, 3);
  }

  lemma NumberUnique(x: nat, y: nat, n: nat)
    requires x < Pow2(n) && y < Pow2(n) && LsbBits(x, n) == LsbBits(y, n)
    ensures x == y
  {
    LsbBitsSmall(x, n);
    LsbBitsSmall(y, n);
  }

  lemma SameParts(a: seq<bool>, b: seq<bool>, c: seq<bool>, a': seq<bool>, b': seq<bool>, c': seq<bool>)
    requires |a| == |a'| && |b| == |b'| && |c| == |c'| && (a + b) + c == (a' + b') + c'
    ensures a == a' && b == b' && c == c'
  {
    SamePrefix(a + b, c, a' + b', c');
    SamePrefix(a, b, a', b');
  }

  lemma CountsUnique(a: nat, b: nat, c: nat, a': nat, b': nat, c': nat)
    requires 257 <= a <= 288 && 1 <= b <= 32 && 4 <= c <= 19 && 257 <= a' <= 288 && 1 <= b' <= 32 && 4 <= c' <= 19
    requires CountBits(a, b, c) == CountBits(a', b', c')
    ensures a == a' && b == b' && c == c'
  {
    CountBitsDef(a, b, c);
    CountBitsDef(a', b', c');
    SmallPowers();
    SameParts(LsbBits(a - 257, 5), LsbBits(b - 1, 5), LsbBits(c - 4, 4),
              LsbBits(a' - 257, 5), LsbBits(b' - 1, 5), LsbBits(c' - 4, 4));
    NumberUnique(a - 257, a' - 257, 5);
    NumberUnique(b - 1, b' - 1, 5);
    NumberUnique(c - 4, c' - 4, 4);
  }

  /** The front of a header can be read in one way only. */
  lemma FrontUnique(h: Header, g: Header, tail: seq<bool>, zs: seq<bool>, r0: seq<bool>, r: seq<bool>)
    requires h.FrontValid() && g.FrontValid()
    requires r0 == h.FrontBits() + tail && r0 + zs == g.FrontBits() + r
    ensures h.hlit == g.hlit && h.hdist == g.hdist && h.sent == g.sent && r == tail + zs
  {
    var h3, g3 := CountBits(h.hlit, h.hdist, |h.sent|), CountBits(g.hlit, g.hdist, |g.sent|);
    var h4, g4 := TripleBits(h.sent), TripleBits(g.sent);
    RegroupedTail(h3, h4, tail, zs);
    RegroupedTail(g3, g4, r, []);
    SamePrefix(h3, h4 + (tail + zs), g3, g4 + r);
    CountsUnique(h.hlit, h.hdist, |h.sent|, g.hlit, g.hdist, |g.sent|);
    SamePrefix(h4, tail + zs, g4, r);
    TriplesUnique(h.sent, g.sent);
  }

  lemma RegroupedTail(a: seq<bool>, b: seq<bool>, c: seq<bool>, d: seq<bool>)
    ensures ((a + b) + c) + d == a + (b + (c + d))
    ensures d == [] ==> (a + b) + c == a + (b + c)
  {
  }

  lemma SamePrefix(a: seq<bool>, x: seq<bool>, b: seq<bool>, y: seq<bool>)
    requires |a| == |b| && a + x == b + y
    ensures a == b && x == y
  {
    assert a == (a + x)[..|a|] && b == (b + y)[..|a|];
    assert x == (a + x)[|a|..] && y == (b + y)[|a|..];
  }

  /** The three counts a dynamic block starts with. */
  method ReadCounts(input: Reader) returns (hlit: nat, hdist: nat, hclen: nat)
    requires input.Valid()
    modifies input
    ensures input.Valid() && old(input.pad) <= input.pad
    ensures 257 <= hlit <= 288 && 1 <= hdist <= 32 && 4 <= hclen <= 19
    ensures old(input.Rem()) + Zeros(input.pad - old(input.pad)) == CountBits(hlit, hdist, hclen) + input.Rem()
  {
    ghost var r0, p0 := input.Rem(), input.pad;
    SmallPowers();
    var x := input.Receive(5);
    var y := ReceiveAfter(input, 5, LsbBits(x, 5), r0, p0);
    var z := ReceiveAfter(input, 4, LsbBits(x, 5) + LsbBits(y, 5), r0, p0);
    hlit, hdist, hclen := x + 257, y + 1, z + 4;
    CountBitsDef(hlit, hdist, hclen);
  }

  lemma SmallPowers()
    ensures Pow2(3) == 8 && Pow2(4) == 16 && Pow2(5) == 32
  {
    Pow2Small();
  }

  lemma OneMoreTriple(sent: seq<nat>, s: nat)
    requires |sent| < 19 && s < Pow2(3)
    ensures TripleBits(sent + [s]) == TripleBits(sent) + LsbBits(s, 3)
    ensures Unzigzag(sent + [s]) == Unzigzag(sent)[DEZIGZAG[|sent|] := s]
    ensures s < 8
  {
    Pow2Small();
    assert (sent + [s])[..|sent|] == sent;
  }

  /** The lengths of the code length code. */
  method ReadTriples(input: Reader, hclen: nat) returns (cl: array<nat>, ghost sent: seq<nat>)
    requires input.Valid() && 4 <= hclen <= 19
    modifies input
    ensures input.Valid() && old(input.pad) <= input.pad
    ensures fresh(cl) && |sent| == hclen && cl[..] == Unzigzag(sent) && forall i | 0 <= i < |sent| :: sent[i] < 8
    ensures old(input.Rem()) + Zeros(input.pad - old(input.pad)) == TripleBits(sent) + input.Rem()
  {
    ghost var r0, p0 := input.Rem(), input.pad;
    cl := new nat[19](_ => 0);
    sent := [];
    assert r0 + Zeros(0) == r0;
    assert cl[..] == Copies(0, 19);
    var i := 0;
    while i < hclen
      invariant 0 <= i <= hclen && |sent| == i && input.Valid() && p0 <= input.pad && fresh(cl)
      invariant cl[..] == Unzigzag(sent) && forall k | 0 <= k < |sent| :: sent[k] < 8
      invariant r0 + Zeros(input.pad - p0) == TripleBits(sent) + input.Rem()
    {
      ghost var s := ReadTriple(input, cl, i, sent, r0, p0);
      sent := sent + [s];
      i := i + 1;
    }
  }

  method ReadTriple(input: Reader, cl: array<nat>, i: nat, ghost sent: seq<nat>, ghost r0: seq<bool>, ghost p0: nat)
    returns (ghost s: nat)
    requires input.Valid() && p0 <= input.pad && cl.Length == 19 && |sent| == i < 19 && cl[..] == Unzigzag(sent)
    requires r0 + Zeros(input.pad - p0) == TripleBits(sent) + input.Rem()
    modifies input, cl
    ensures input.Valid() && p0 <= input.pad && s < 8 && cl[..] == Unzigzag(sent + [s])
    ensures r0 + Zeros(input.pad - p0) == TripleBits(sent + [s]) + input.Rem()
  {
    var x := ReceiveAfter(input, 3, TripleBits(sent), r0, p0);
    s := x;
    OneMoreTriple(sent, x);
    cl[DEZIGZAG[i]] := x;
  }

  // ---------- the code lengths themselves ----------

  function MakeOp(c: nat, x: nat): LengthOp {
    if c < 16 then Plain(c) else if c == 16 then Repeat(x) else if c == 17 then ZeroShort(x) else ZeroLong(x)
  }

  function ExtraBits(c: nat): nat {
    if c < 16 then 0 else if c == 16 then 2 else if c == 17 then 3 else 7
  }

  ghost predicate OpAhead(cl: seq<nat>, w: LengthOp, tail: seq<bool>, r: seq<bool>, pad: nat) {
    OpCoded(cl, w) && r == OpBits(cl, w) + tail && |tail| >= pad
  }

  lemma OpStart(cl: seq<nat>, w: LengthOp, tail: seq<bool>, pad: nat, r0: seq<bool>, c: int, zs: seq<bool>,
                r1: seq<bool>)
    requires Usable(cl)
    requires c >= 0 ==> IsSym(cl, c) && r0 + zs == CodeBits(cl, c) + r1
    requires c < 0 ==> |r0| < pad || NoCode(cl, r0 + zs)
    ensures OpAhead(cl, w, tail, r0, pad) ==> c == OpSym(w) && r1 == LsbBits(OpExtra(w).0, OpExtra(w).1) + (tail + zs)
  {
    if OpAhead(cl, w, tail, r0, pad) {
      var x := LsbBits(OpExtra(w).0, OpExtra(w).1);
      assert r0 == CodeBits(cl, OpSym(w)) + (x + tail);
      SymbolExpected(cl, c, OpSym(w), x + tail, zs, r0, r1);
    }
  }

  lemma OpEnd(w: LengthOp, x: nat, tail: seq<bool>, zs: seq<bool>, r1: seq<bool>, r2: seq<bool>)
    requires OpValid(w) && x < Pow2(ExtraBits(OpSym(w)))
    requires r1 == LsbBits(OpExtra(w).0, OpExtra(w).1) + tail
    requires r1 + zs == LsbBits(x, ExtraBits(OpSym(w))) + r2
    ensures MakeOp(OpSym(w), x) == w && r2 == tail + zs
  {
    Pow2Small();
    assert Pow2(0) == 1;
    NumberExpected(OpExtra(w).1, x, OpExtra(w).0, tail, zs, r1, r2);
  }

  lemma OpRead(cl: seq<nat>, w: LengthOp, tail: seq<bool>, r0: seq<bool>, p0: nat, x: nat, n: nat, m: nat,
               r1: seq<bool>, r2: seq<bool>)
    requires OpAhead(cl, w, tail, r0, p0)
             ==> r1 == LsbBits(OpExtra(w).0, OpExtra(w).1) + (tail + Zeros(n)) && x < Pow2(ExtraBits(OpSym(w)))
                 && r1 + Zeros(m) == LsbBits(x, ExtraBits(OpSym(w))) + r2
    ensures OpAhead(cl, w, tail, r0, p0) ==> MakeOp(OpSym(w), x) == w && r2 == tail + Zeros(n + m)
  {
    if OpAhead(cl, w, tail, r0, p0) {
      OpEnd(w, x, tail + Zeros(n), Zeros(m), r1, r2);
      ZerosAdd(n, m, tail);
    }
  }

  lemma MadeOp(cl: seq<nat>, c: nat, x: nat)
    requires IsSym(cl, c) && c < 19 && x < Pow2(ExtraBits(c))
    ensures OpCoded(cl, MakeOp(c, x)) && OpSym(MakeOp(c, x)) == c
    ensures OpBits(cl, MakeOp(c, x)) == CodeBits(cl, c) + LsbBits(x, ExtraBits(c))
  {
    Pow2Small();
  }

  /** One instruction: its symbol and its extra bits. */
  method ReadOp(input: Reader, z: ZHuffman, ghost cl: seq<nat>, ghost want: LengthOp, ghost tail: seq<bool>)
    returns (ok: bool, op: LengthOp)
    requires input.Valid() && z.Built(cl) && |cl| == 19
    modifies input
    ensures input.Valid() && old(input.pad) <= input.pad
    ensures ok ==> OpCoded(cl, op)
                   && old(input.Rem()) + Zeros(input.pad - old(input.pad)) == OpBits(cl, op) + input.Rem()
    ensures OpAhead(cl, want, tail, old(input.Rem()), old(input.pad))
            ==> ok && op == want && input.Rem() == tail + Zeros(input.pad - old(input.pad))
  {
    ghost var r0, p0 := input.Rem(), input.pad;
    op := Plain(0);
    var c := ReadOpSymbol(input, z, cl, want, tail);
    ghost var r1, p1 := input.Rem(), input.pad;
    if c < 0 || c >= 19 { return false, op; }
    var x := ReadExtra(input, ExtraBits(c));
    ghost var r2, p2 := input.Rem(), input.pad;
    MadeOp(cl, c, x);
    op := MakeOp(c, x);
    Joined(CodeBits(cl, c), LsbBits(x, ExtraBits(c)), r0, r1, r2, p1 - p0, p2 - p1);
    OpRead(cl, want, tail, r0, p0, x, p1 - p0, p2 - p1, r1, r2);
    ok := true;
  }

  method ReadOpSymbol(input: Reader, z: ZHuffman, ghost cl: seq<nat>, ghost want: LengthOp, ghost tail: seq<bool>)
    returns (c: int)
    requires input.Valid() && z.Built(cl)
    modifies input
    ensures input.Valid() && old(input.pad) <= input.pad
    ensures c >= 0 ==> IsSym(cl, c)
                       && old(input.Rem()) + Zeros(input.pad - old(input.pad)) == CodeBits(cl, c) + input.Rem()
    ensures OpAhead(cl, want, tail, old(input.Rem()), old(input.pad))
            ==> c == OpSym(want)
                && input.Rem() == LsbBits(OpExtra(want).0, OpExtra(want).1) + (tail + Zeros(input.pad - old(input.pad)))
  {
    ghost var r0, p0 := input.Rem(), input.pad;
    z.BuiltUsable(cl);
    c := input.Decode(z, cl);
    OpStart(cl, want, tail, p0, r0, c, Zeros(input.pad - p0), input.Rem());
  }

  /** A run-length coded list of `total` code lengths, and the instructions that are expected. */
  datatype Run = Run(cl: seq<nat>, r0: seq<bool>, p0: nat, total: nat, want: seq<LengthOp>, tail: seq<bool>)
  {
    ghost predicate Expected() {
      && OpsCoded(cl, want) && OpsLegal(want) && |OpsLengths(want)| == total
      && r0 == OpsBits(cl, want) + tail && |tail| >= p0
    }

    ghost predicate Reached(got: seq<LengthOp>, r: seq<bool>, pad: nat, lens: seq<nat>) {
      && p0 <= pad && OpsCoded(cl, got) && r0 + Zeros(pad - p0) == OpsBits(cl, got) + r
      && OpsLegal(got) && lens == OpsLengths(got) && |lens| <= total
      && (Expected() ==> got <= want)
    }
  }

  lemma OpsBitsSplit(cl: seq<nat>, a: seq<LengthOp>, b: seq<LengthOp>)
    requires OpsCoded(cl, a) && OpsCoded(cl, b)
    ensures OpsCoded(cl, a + b) && OpsBits(cl, a + b) == OpsBits(cl, a) + OpsBits(cl, b)
  {
    assert OpChunks(cl, a + b) == OpChunks(cl, a) + OpChunks(cl, b);
    Deflate.ConcatAppend(OpChunks(cl, a), OpChunks(cl, b));
  }

  lemma OneOp(cl: seq<nat>, op: LengthOp)
    requires OpCoded(cl, op)
    ensures OpsCoded(cl, [op]) && OpsBits(cl, [op]) == OpBits(cl, op)
  {
    OneChunk(OpChunks(cl, [op]));
  }

  lemma OneChunk(c: seq<seq<bool>>)
    requires |c| == 1
    ensures Deflate.Concat(c) == c[0]
  {
    assert c == [] + [c[0]];
    Deflate.ConcatLast([], c[0]);
  }

  lemma {:induction false} OpsLegalPrefix(ops: seq<LengthOp>, n: nat)
    requires OpsLegal(ops) && n < |ops|
    ensures OpsLegal(ops[..n]) && OpLegal(OpsLengths(ops[..n]), ops[n])
    ensures |ApplyOp(OpsLengths(ops[..n]), ops[n])| <= |OpsLengths(ops)|
    decreases |ops|
  {
    var front := ops[..|ops| - 1];
    if n < |ops| - 1 {
      OpsLegalPrefix(front, n);
      assert front[..n] == ops[..n];
    }
  }

  /** While lengths are missing, the next expected instruction is what the stream holds. */
  lemma NextOp(u: Run, got: seq<LengthOp>, r: seq<bool>, pad: nat, lens: seq<nat>) returns (w: LengthOp, wt: seq<bool>)
    requires u.Expected() && u.Reached(got, r, pad, lens) && |lens| < u.total
    ensures got + [w] <= u.want && OpAhead(u.cl, w, wt, r, pad)
    ensures OpLegal(lens, w) && |ApplyOp(lens, w)| <= u.total
  {
    var n := |got|;
    assert got == u.want[..n];
    assert u.want[..|u.want|] == u.want;
    w := u.want[n];
    OpsLegalPrefix(u.want, n);
    var rest, zs := u.want[n + 1..], Zeros(pad - u.p0);
    wt := OpsBits(u.cl, rest) + u.tail + zs;
    OpsBitsAt(u.cl, u.want, n);
    OpAtHead(OpsBits(u.cl, got), OpBits(u.cl, w), OpsBits(u.cl, rest), u.tail, zs, u.r0, r);
  }

  lemma OpsBitsAt(cl: seq<nat>, ops: seq<LengthOp>, n: nat)
    requires OpsCoded(cl, ops) && n < |ops|
    ensures OpsBits(cl, ops) == OpsBits(cl, ops[..n]) + (OpBits(cl, ops[n]) + OpsBits(cl, ops[n + 1..]))
  {
    OneOp(cl, ops[n]);
    OpsBitsSplit(cl, [ops[n]], ops[n + 1..]);
    OpsBitsSplit(cl, ops[..n], [ops[n]] + ops[n + 1..]);
    assert ops[..n] + ([ops[n]] + ops[n + 1..]) == ops;
  }

  lemma OpAtHead(a: seq<bool>, b: seq<bool>, c: seq<bool>, tail: seq<bool>, zs: seq<bool>, r0: seq<bool>, r: seq<bool>)
    requires r0 == (a + (b + c)) + tail && r0 + zs == a + r
    ensures r == b + (c + tail + zs)
  {
    assert r == (r0 + zs)[|a|..];
  }

  lemma TookOp(u: Run, got: seq<LengthOp>, r: seq<bool>, pad: nat, lens: seq<nat>, op: LengthOp, r': seq<bool>,
               pad': nat)
    requires u.Reached(got, r, pad, lens) && pad <= pad'
    requires OpCoded(u.cl, op) && r + Zeros(pad' - pad) == OpBits(u.cl, op) + r'
    requires OpLegal(lens, op) && |ApplyOp(lens, op)| <= u.total
    requires u.Expected() ==> got + [op] <= u.want
    ensures u.Reached(got + [op], r', pad', ApplyOp(lens, op))
  {
    OneOp(u.cl, op);
    OpsBitsSplit(u.cl, got, [op]);
    Joined(OpsBits(u.cl, got), OpBits(u.cl, op), u.r0, r, r', pad - u.p0, pad' - pad);
    assert (got + [op])[..|got|] == got;
  }

  /** Reads one instruction and carries it out on `lencodes[..n]`. */
  method ReadRunOp(input: Reader, z: ZHuffman, lencodes: array<nat>, n: nat, ntot: nat, ghost u: Run,
                   ghost got: seq<LengthOp>)
    returns (ok: bool, n': nat, ghost op: LengthOp)
    requires input.Valid() && z.Built(u.cl) && |u.cl| == 19
    requires ntot == u.total <= lencodes.Length && n < ntot
    requires u.Reached(got, input.Rem(), input.pad, lencodes[..n])
    modifies input, lencodes
    ensures input.Valid() && u.p0 <= input.pad
    ensures ok ==> n < n' <= u.total && u.Reached(got + [op], input.Rem(), input.pad, lencodes[..n'])
    ensures u.Expected() ==> ok
  {
    ghost var r1, p1, lens := input.Rem(), input.pad, lencodes[..n];
    ghost var w, wt := Plain(0), [];
    if u.Expected() { w, wt := NextOp(u, got, r1, p1, lens); }
    var o: LengthOp;
    ok, o := ReadOp(input, z, u.cl, w, wt);
    n', op := n, o;
    if !ok { return; }
    ok, n' := CarryOut(lencodes, n, ntot, o);
    if !ok { return; }
    TookOp(u, got, r1, p1, lens, o, input.Rem(), input.pad);
  }

  /** Appends to `lencodes[..n]` what the instruction says, unless it is not legal or does not fit. */
  method CarryOut(lencodes: array<nat>, n: nat, ntot: nat, o: LengthOp) returns (ok: bool, n': nat)
    requires n < ntot <= lencodes.Length && OpValid(o)
    modifies lencodes
    ensures ok <==> OpLegal(old(lencodes[..n]), o) && |ApplyOp(old(lencodes[..n]), o)| <= ntot
    ensures ok ==> n < n' <= ntot && lencodes[..n'] == ApplyOp(old(lencodes[..n]), o)
  {
    var fill, c := 0, 1;
    match o {
      case Plain(l) => fill := l;
      case Repeat(x) =>
        if n == 0 { return false, n; }
        fill, c := lencodes[n - 1], x + 3;
      case ZeroShort(x) => c := x + 3;
      case ZeroLong(x) => c := x + 11;
    }
    if ntot - n < c { return false, n; }
    Fill(lencodes, n, c, fill);
    ok, n' := true, n + c;
  }

  /** `memset` of code lengths */
  method Fill(a: array<nat>, n: nat, c: nat, fill: nat)
    requires n + c <= a.Length
    modifies a
    ensures a[..n + c] == old(a[..n]) + Copies(fill, c)
  {
    var i := 0;
    while i < c
      invariant 0 <= i <= c
      invariant forall k | 0 <= k < n :: a[k] == old(a[k])
      invariant forall k | n <= k < n + i :: a[k] == fill
    {
      a[n + i] := fill;
      i := i + 1;
    }
  }

  /** The loop that collects the code lengths. */
  method ReadLengths(input: Reader, z: ZHuffman, lencodes: array<nat>, ntot: nat, ghost u: Run)
    returns (ok: bool, ghost got: seq<LengthOp>)
    requires input.Valid() && z.Built(u.cl) && |u.cl| == 19
    requires ntot == u.total <= lencodes.Length && u.r0 == input.Rem() && u.p0 == input.pad
    modifies input, lencodes
    ensures input.Valid() && u.p0 <= input.pad
    ensures ok ==> u.Reached(got, input.Rem(), input.pad, lencodes[..ntot])
    ensures u.Expected() ==> ok && got == u.want && input.Rem() == u.tail + Zeros(input.pad - u.p0)
  {
    got := [];
    assert u.r0 + Zeros(0) == u.r0 && OpsBits(u.cl, []) == [] && lencodes[..0] == [];
    var n := 0;
    while n < ntot
      invariant 0 <= n <= ntot && input.Valid() && z.Built(u.cl)
      invariant u.Reached(got, input.Rem(), input.pad, lencodes[..n])
    {
      ghost var op;
      ok, n, op := ReadRunOp(input, z, lencodes, n, ntot, u, got);
      if !ok { return; }
      got := got + [op];
    }
    if u.Expected() { RunDone(u, got, input.Rem(), input.pad, lencodes[..ntot]); }
    ok := true;
  }

  lemma RunDone(u: Run, got: seq<LengthOp>, r: seq<bool>, pad: nat, lens: seq<nat>)
    requires u.Expected() && u.Reached(got, r, pad, lens) && |lens| == u.total
    ensures got == u.want && r == u.tail + Zeros(pad - u.p0)
  {
    assert got == u.want[..|got|];
    AllOps(u.want, |got|);
    assert u.want[..|got|] == u.want;
    TailLeft(OpsBits(u.cl, got), u.tail, Zeros(pad - u.p0), u.r0, r);
  }

  lemma TailLeft(a: seq<bool>, tail: seq<bool>, zs: seq<bool>, r0: seq<bool>, r: seq<bool>)
    requires r0 == a + tail && r0 + zs == a + r
    ensures r == tail + zs
  {
    assert r == (r0 + zs)[|a|..];
  }

  /** Nothing can follow the instruction that completes the list. */
  lemma AllOps(ops: seq<LengthOp>, n: nat)
    requires OpsLegal(ops) && n <= |ops| && (OpsLegal(ops[..n]) ==> |OpsLengths(ops[..n])| == |OpsLengths(ops)|)
    ensures n == |ops|
  {
    if n < |ops| { OpsLegalPrefix(ops, n); }
  }

  /** Everything before the code lengths: the counts and the code length code. */
  method ReadFront(input: Reader) returns (hlit: nat, hdist: nat, cl: array<nat>, ghost h: Header)
    requires input.Valid()
    modifies input
    ensures input.Valid() && old(input.pad) <= input.pad && fresh(cl)
    ensures h.FrontValid() && h.hlit == hlit && h.hdist == hdist && h.ops == [] && cl[..] == Unzigzag(h.sent)
    ensures old(input.Rem()) + Zeros(input.pad - old(input.pad)) == h.FrontBits() + input.Rem()
  {
    ghost var r0, p0 := input.Rem(), input.pad;
    var hclen;
    hlit, hdist, hclen := ReadCounts(input);
    ghost var r1, p1 := input.Rem(), input.pad;
    ghost var sent;
    cl, sent := ReadTriples(input, hclen);
    h := Header(hlit, hdist, sent, []);
    Joined(CountBits(hlit, hdist, hclen), TripleBits(sent), r0, r1, input.Rem(), p1 - p0, input.pad - p1);
  }

  /** The stream holds the header `w` followed by at least the made-up bits. */
  ghost predicate HeaderAhead(w: Header, tail: seq<bool>, r: seq<bool>, pad: nat) {
    w.Valid() && r == w.Bits() + tail && |tail| >= pad
  }

  /** What the expected header, if it is there, says about the code lengths that follow its front `f`. */
  lemma LengthsExpected(w: Header, tail: seq<bool>, r0: seq<bool>, p0: nat, f: Header, n: nat, r1: seq<bool>)
    returns (u: Run)
    requires f.FrontValid() && r0 + Zeros(n) == f.FrontBits() + r1
    ensures u.cl == Unzigzag(f.sent) && u.r0 == r1 && u.p0 == p0 + n && u.total == f.hlit + f.hdist
    ensures HeaderAhead(w, tail, r0, p0) ==>
              u.Expected() && Usable(u.cl) && w == f.(ops := u.want) && u.tail == tail + Zeros(n)
  {
    u := Run(Unzigzag(f.sent), r1, p0 + n, f.hlit + f.hdist, [], []);
    if HeaderAhead(w, tail, r0, p0) {
      w.ValidDef();
      w.BitsDef();
      var b := OpsBits(Unzigzag(w.sent), w.ops);
      RegroupedTail(w.FrontBits(), b, tail, []);
      FrontUnique(w, f, b + tail, Zeros(n), r0, r1);
      RegroupedTail(b, tail, Zeros(n), []);
      u := u.(want := w.ops, tail := tail + Zeros(n));
    }
  }

  /** The instructions `ops` were read, and they come to `lens`. */
  ghost predicate OpsRead(cl: seq<nat>, ops: seq<LengthOp>, r0: seq<bool>, n: nat, r: seq<bool>, lens: seq<nat>) {
    OpsCoded(cl, ops) && OpsLegal(ops) && lens == OpsLengths(ops) && r0 + Zeros(n) == OpsBits(cl, ops) + r
  }

  /** The code lengths of a dynamic block, once the lengths of their own code are known. */
  method ReadBody(input: Reader, sizes: seq<nat>, ntot: nat, ghost f: Header, ghost u: Run)
    returns (ok: bool, lens: seq<nat>, ghost ops: seq<LengthOp>)
    requires input.Valid() && f.FrontValid() && u.cl == sizes == Unzigzag(f.sent)
    requires ntot == u.total <= 320 && u.r0 == input.Rem() && u.p0 == input.pad
    modifies input
    ensures input.Valid() && u.p0 <= input.pad
    ensures ok ==> Usable(u.cl) && OpsRead(u.cl, ops, u.r0, input.pad - u.p0, input.Rem(), lens) && |lens| == ntot
    ensures u.Expected() && Usable(u.cl) ==> ok && ops == u.want && input.Rem() == u.tail + Zeros(input.pad - u.p0)
  {
    lens, ops := [], [];
    UnzigzagBound(f.sent);
    var z_codelength;
    ok, z_codelength := LengthTable(sizes);
    if !ok { return; }
    var lencodes := new nat[286 + 32 + 137](_ => 0);
    ok, ops := ReadLengths(input, z_codelength, lencodes, ntot, u);
    if ok {
      lens := lencodes[..ntot];
      BodyRead(u, ops, input.Rem(), input.pad, lens);
    }
  }

  /** The table for the code of the code lengths. */
  method LengthTable(sizes: seq<nat>) returns (ok: bool, z: ZHuffman)
    requires |sizes| == 19 && forall i | 0 <= i < |sizes| :: sizes[i] <= 15
    ensures fresh(z) && (ok <==> Usable(sizes)) && (ok ==> z.Built(sizes))
  {
    z := new ZHuffman();
    ok := z.Build(sizes);
  }

  lemma BodyRead(u: Run, ops: seq<LengthOp>, r: seq<bool>, pad: nat, lens: seq<nat>)
    requires u.Reached(ops, r, pad, lens)
    ensures u.p0 <= pad && OpsRead(u.cl, ops, u.r0, pad - u.p0, r, lens)
  {
  }

  /** The stream was read as the header `h`. */
  ghost predicate HeaderRead(h: Header, r0: seq<bool>, n: nat, r: seq<bool>, lens: seq<nat>) {
    && h.FrontValid() && Usable(Unzigzag(h.sent)) && OpsCoded(Unzigzag(h.sent), h.ops) && OpsLegal(h.ops)
    && lens == OpsLengths(h.ops) && |lens| == h.hlit + h.hdist
    && r0 + Zeros(n) == (h.FrontBits() + OpsBits(Unzigzag(h.sent), h.ops)) + r
  }

  /** The code lengths of the header: it is valid exactly when both lists make usable codes. */
  ghost predicate HeaderCodes(h: Header, l: seq<nat>, d: seq<nat>) {
    && |l| <= 288 && |d| <= 288 && (forall i | 0 <= i < |l| :: l[i] <= 15) && (forall i | 0 <= i < |d| :: d[i] <= 15)
    && (h.Valid() <==> Usable(l) && Usable(d))
    && (h.Valid() ==> h.Lengths() == l && h.Distances() == d)
  }

  lemma HeaderMeaning(h: Header, r0: seq<bool>, n: nat, r: seq<bool>, lens: seq<nat>)
    requires HeaderRead(h, r0, n, r, lens)
    ensures h.hlit <= |lens| && HeaderCodes(h, lens[..h.hlit], lens[h.hlit..])
            && (h.Valid() ==> r0 + Zeros(n) == h.Bits() + r)
  {
    OpsLengthsBound(h.ops);
    h.ValidDef();
    if h.Valid() { h.BitsDef(); }
  }

  lemma HeaderDone(w: Header, tail: seq<bool>, r0: seq<bool>, p0: nat, f: Header, n: nat, u: Run, ops: seq<LengthOp>,
                   m: nat, r: seq<bool>, lens: seq<nat>)
    requires f.FrontValid() && r0 + Zeros(n) == f.FrontBits() + u.r0
    requires u.cl == Unzigzag(f.sent) && Usable(u.cl) && OpsRead(u.cl, ops, u.r0, m, r, lens)
             && |lens| == f.hlit + f.hdist
    requires HeaderAhead(w, tail, r0, p0)
             ==> ops == u.want && r == u.tail + Zeros(m) && w == f.(ops := u.want) && u.tail == tail + Zeros(n)
    ensures f.hlit <= |lens| && HeaderCodes(f.(ops := ops), lens[..f.hlit], lens[f.hlit..])
    ensures f.(ops := ops).Valid() ==> r0 + Zeros(n + m) == f.(ops := ops).Bits() + r
    ensures HeaderAhead(w, tail, r0, p0) ==> f.(ops := ops) == w && r == tail + Zeros(n + m)
  {
    Joined(f.FrontBits(), OpsBits(u.cl, ops), r0, u.r0, r, n, m);
    assert f.(ops := ops).FrontBits() == f.FrontBits();
    HeaderMeaning(f.(ops := ops), r0, n + m, r, lens);
    ZerosAdd(n, m, tail);
  }

  /** The front of the header, and what is expected after it. */
  method ReadFrontOf(input: Reader, ghost want: Header, ghost tail: seq<bool>)
    returns (hlit: nat, hdist: nat, cl: array<nat>, ghost f: Header, ghost u: Run)
    requires input.Valid()
    modifies input
    ensures input.Valid() && old(input.pad) <= input.pad && u.r0 == input.Rem() && u.p0 == input.pad
    ensures f.FrontValid() && f.hlit == hlit && f.hdist == hdist && u.total == hlit + hdist
            && u.cl == cl[..] == Unzigzag(f.sent)
    ensures old(input.Rem()) + Zeros(input.pad - old(input.pad)) == f.FrontBits() + u.r0
    ensures HeaderAhead(want, tail, old(input.Rem()), old(input.pad)) ==>
              u.Expected() && Usable(u.cl) && want == f.(ops := u.want)
                && u.tail == tail + Zeros(input.pad - old(input.pad))
  {
    ghost var r0, p0 := input.Rem(), input.pad;
    hlit, hdist, cl, f := ReadFront(input);
    u := LengthsExpected(want, tail, r0, p0, f, input.pad - p0, input.Rem());
  }

  /** The code lengths of a dynamic block, and the header that sent them. */
  method ReadHeader(input: Reader, ghost want: Header, ghost tail: seq<bool>)
    returns (ok: bool, lens: seq<nat>, hlit: nat, ghost h: Header)
    requires input.Valid()
    modifies input
    ensures input.Valid() && old(input.pad) <= input.pad
    ensures ok ==> hlit <= |lens| && HeaderCodes(h, lens[..hlit], lens[hlit..])
    ensures ok && h.Valid() ==> old(input.Rem()) + Zeros(input.pad - old(input.pad)) == h.Bits() + input.Rem()
    ensures HeaderAhead(want, tail, old(input.Rem()), old(input.pad))
            ==> ok && h == want && input.Rem() == tail + Zeros(input.pad - old(input.pad))
  {
    ghost var r0, p0 := input.Rem(), input.pad;
    var hdist, codelength_sizes;
    ghost var u, ops;
    hlit, hdist, codelength_sizes, h, u := ReadFrontOf(input, want, tail);
    ghost var p1 := input.pad;
    ok, lens, ops := ReadBody(input, codelength_sizes[..], hlit + hdist, h, u);
    if !ok { return; }
    HeaderDone(want, tail, r0, p0, h, p1 - p0, u, ops, input.pad - p1, input.Rem(), lens);
    h := h.(ops := ops);
  }

  lemma {:induction false} UnzigzagBound(sent: seq<nat>)
    requires |sent| <= 19 && forall i | 0 <= i < |sent| :: sent[i] < 8
    ensures forall i | 0 <= i < 19 :: Unzigzag(sent)[i] < 8
  {
    if sent != [] { UnzigzagBound(sent[..|sent| - 1]); }
  }

  lemma {:induction false} OpsLengthsBound(ops: seq<LengthOp>)
    requires OpsLegal(ops)
    ensures forall i | 0 <= i < |OpsLengths(ops)| :: OpsLengths(ops)[i] <= 15
  {
    if ops != [] { OpsLengthsBound(ops[..|ops| - 1]); }
  }

  /** `stbi__compute_huffman_codes`: builds both tables of a dynamic block from the header `h`. */
  method ComputeCodes(input: Reader, z_length: ZHuffman, z_distance: ZHuffman, ghost want: Header,
                      ghost tail: seq<bool>)
    returns (ok: bool, ghost h: Header)
    requires input.Valid() && z_length.Shape() && z_distance.Shape() && z_length.Arrays() !! z_distance.Arrays()
    modifies input, z_length.Arrays(), z_distance.Arrays()
    ensures input.Valid() && old(input.pad) <= input.pad
    ensures ok ==> h.Valid() && old(input.Rem()) + Zeros(input.pad - old(input.pad)) == h.Bits() + input.Rem()
    ensures HeaderAhead(want, tail, old(input.Rem()), old(input.pad))
            ==> ok && h == want && input.Rem() == tail + Zeros(input.pad - old(input.pad))
    ensures ok ==> z_length.Built(h.Lengths()) && z_distance.Built(h.Distances())
  {
    var lens, hlit;
    ok, lens, hlit, h := ReadHeader(input, want, tail);
    if ok { ok := BuildCodes(z_length, z_distance, lens[..hlit], lens[hlit..], h); }
  }

  /** Builds both tables from the code lengths. */
  method BuildCodes(z_length: ZHuffman, z_distance: ZHuffman, l: seq<nat>, d: seq<nat>, ghost h: Header)
    returns (ok: bool)
    requires z_length.Shape() && z_distance.Shape() && z_length.Arrays() !! z_distance.Arrays()
    requires HeaderCodes(h, l, d)
    modifies z_length.Arrays(), z_distance.Arrays()
    ensures ok <==> h.Valid()
    ensures ok ==> z_length.Built(h.Lengths()) && z_distance.Built(h.Distances())
  {
    ok := BuildBoth(z_length, z_distance, l, d);
  }
}
