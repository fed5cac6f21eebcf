/** `stbi__parse_huffman_block`: reading tokens until the end-of-block code and replaying each one. */
module InflateBlock {
  import opened Bits
  import opened Canonical
  import opened HuffmanTable
  import opened BitReader
  import opened Deflate
  import opened Inflate
  import opened OutputBuffer

  /** The stream holds the tokens `ts`, the end-of-block code and at least the made-up bits. */
  ghost predicate BlockAhead(l: seq<nat>, d: seq<nat>, ts: seq<Token>, tail: seq<bool>, r: seq<bool>, pad: nat) {
    && AllCoded(l, d, ts) && IsSym(l, END_OF_BLOCK) && |tail| >= pad
    && r == TokensBits(l, d, ts) + (CodeBits(l, END_OF_BLOCK) + tail)
  }

  /** What a reader has consumed of a block: the tokens `got`, with `n` zero bits made up on the way. */
  ghost predicate Consumed(l: seq<nat>, d: seq<nat>, got: seq<Token>, r0: seq<bool>, n: nat, r: seq<bool>) {
    AllCoded(l, d, got) && r0 + Zeros(n) == TokensBits(l, d, got) + r
  }

  /** The step that comes after the first `n` tokens of `ts`. */
  ghost function StepAt(ts: seq<Token>, n: nat): Step
    requires n <= |ts|
  {
    if n < |ts| then Tok(ts[n]) else EndOfBlock
  }

  /** The bits after that step. */
  ghost function TailAt(l: seq<nat>, d: seq<nat>, ts: seq<Token>, n: nat, tail: seq<bool>): seq<bool>
    requires AllCoded(l, d, ts) && IsSym(l, END_OF_BLOCK) && n <= |ts|
  {
    if n < |ts| then TokensBits(l, d, ts[n + 1..]) + (CodeBits(l, END_OF_BLOCK) + tail) else tail
  }

  lemma NextStep(l: seq<nat>, d: seq<nat>, ts: seq<Token>, n: nat, tail: seq<bool>, pad0: nat, pad: nat, r0: seq<bool>,
                 r: seq<bool>)
    requires BlockAhead(l, d, ts, tail, r0, pad0) && n <= |ts| && pad0 <= pad
    requires Consumed(l, d, ts[..n], r0, pad - pad0, r)
    ensures StepAhead(l, d, StepAt(ts, n), TailAt(l, d, ts, n, tail) + Zeros(pad - pad0), r, pad)
  {
    var zs, eob, rest := Zeros(pad - pad0), CodeBits(l, END_OF_BLOCK), TokensBits(l, d, ts[n..]);
    TokensBitsFrom(l, d, ts, n);
    CutHead(TokensBits(l, d, ts[..n]), rest, eob + tail, zs, r0, r);
    if n < |ts| {
      TokensBitsFirst(l, d, ts[n..]);
      assert ts[n..][1..] == ts[n + 1..];
      Regroup(TokenBits(l, d, ts[n]), TokensBits(l, d, ts[n + 1..]), eob + tail, zs);
    } else {
      assert ts[n..] == [] && rest == [];
      assert r == eob + (tail + zs);
    }
  }

  lemma CutHead(head: seq<bool>, x: seq<bool>, y: seq<bool>, zs: seq<bool>, r0: seq<bool>, r: seq<bool>)
    requires r0 == (head + x) + y && r0 + zs == head + r
    ensures r == (x + y) + zs
  {
    assert r == (r0 + zs)[|head|..];
  }

  lemma Regroup(a: seq<bool>, b: seq<bool>, c: seq<bool>, zs: seq<bool>)
    ensures ((a + b) + c) + zs == a + ((b + c) + zs)
  {
  }

  lemma ConsumeStep(l: seq<nat>, d: seq<nat>, got: seq<Token>, t: Token, r0: seq<bool>, n: nat, r: seq<bool>, m: nat,
                    r': seq<bool>)
    requires Consumed(l, d, got, r0, n, r) && Coded(l, d, t) && r + Zeros(m) == TokenBits(l, d, t) + r'
    ensures Consumed(l, d, got + [t], r0, n + m, r')
  {
    ChunksAppend(l, d, got, [t]);
    assert Chunks(l, d, [t]) == [TokenBits(l, d, t)];
    ConcatLast(Chunks(l, d, got), TokenBits(l, d, t));
    Joined(TokensBits(l, d, got), TokenBits(l, d, t), r0, r, r', n, m);
  }

  lemma NothingConsumed(l: seq<nat>, d: seq<nat>, r: seq<bool>)
    ensures Consumed(l, d, [], r, 0, r)
  {
    assert r + Zeros(0) == r;
  }

  /** Replays one token; fails only when it reaches before the output or the output cannot grow. */
  method Replay(out: Output, t: Token) returns (ok: bool)
    requires out.Valid() && WellFormed(t)
    modifies out, out.buf
    ensures out.Valid() && (out.buf == old(out.buf) || fresh(out.buf))
    ensures old(out.buf.Length) <= out.buf.Length
    ensures ok ==>
              LegalToken(old(out.Contents()), t) && out.Contents() == Apply(old(out.Contents()), t)
              && out.len > old(out.len)
    ensures LegalToken(old(out.Contents()), t) && old(out.Roomy(|Apply(out.Contents(), t)|)) ==> ok
  {
    if t.Copy? { CopyBounds(t); }
    match t {
      case Literal(b) =>
        ok := out.Reserve(1);
        if !ok { return; }
        out.Push(b);
      case Copy(_, _, _, _) =>
        ok := ReplayCopy(out, t);
    }
  }

  method ReplayCopy(out: Output, t: Token) returns (ok: bool)
    requires out.Valid() && t.Copy? && WellFormed(t)
    modifies out, out.buf
    ensures out.Valid() && (out.buf == old(out.buf) || fresh(out.buf))
    ensures old(out.buf.Length) <= out.buf.Length
    ensures ok ==> Distance(t) <= old(out.len)
                   && out.Contents() == CopyBack(old(out.Contents()), Distance(t), Length(t)) && out.len > old(out.len)
    ensures Distance(t) <= old(out.len) && old(out.Roomy(out.len + Length(t))) ==> ok
  {
    var lbase, _ := LengthEntry(t.lsym - 257);
    var dbase, _ := DistEntry(t.dsym);
    CopyBounds(t);
    var len, dist := lbase + t.lextra, dbase + t.dextra;
    if out.len < dist { return false; }
    ok := CopyInto(out, dist, len);
  }

  method CopyInto(out: Output, dist: nat, len: nat) returns (ok: bool)
    requires out.Valid() && 0 < len <= 258 && 1 <= dist <= out.len
    modifies out, out.buf
    ensures out.Valid() && (out.buf == old(out.buf) || fresh(out.buf))
    ensures old(out.buf.Length) <= out.buf.Length
    ensures ok ==> out.Contents() == CopyBack(old(out.Contents()), dist, len) && out.len > old(out.len)
    ensures old(out.Roomy(out.len + len)) ==> ok
  {
    ok := out.Reserve(len);
    if !ok { return; }
    out.CopyFrom(dist, len);
  }

  lemma CopyBounds(t: Token)
    requires t.Copy? && WellFormed(t)
    ensures 3 <= Length(t) <= 258 && 1 <= Distance(t) <= 32768
  {
    LengthRange(t.lsym - 257);
    DistRange(t.dsym);
  }

  lemma LengthRange(i: nat)
    requires i < 29
    ensures 3 <= LengthBase(i) && LengthBase(i) + Pow2(LengthExtra(i)) <= 259
  {
    LengthBases();
    if i < 27 {
      LengthMono(i + 1, 27);
      LengthMono(0, i);
    } else {
      LengthTop(i);
    }
  }

  lemma LengthTop(i: nat)
    requires 27 <= i < 29
    ensures 3 <= LengthBase(i) && LengthBase(i) + Pow2(LengthExtra(i)) <= 259
  {
    LengthBases();
    if i == 27 { assert LengthExtra(27) == 5 && Pow2(5) == 32; } else { assert LengthExtra(28) == 0; }
  }

  lemma {:induction false} LengthMono(i: nat, j: nat)
    requires i <= j < 28
    ensures LengthBase(i) <= LengthBase(j)
    decreases j
  {
    if i < j { LengthMono(i, j - 1); }
  }

  lemma DistRange(i: nat)
    requires i < 30
    ensures 1 <= DistBase(i) && DistBase(i) + Pow2(DistExtra(i)) <= 32769
  {
    DistMono(i, 29);
    DistBases();
    assert DistExtra(29) == 13 && Pow2(13) == 8192;
  }

  lemma {:induction false} DistMono(i: nat, j: nat)
    requires i <= j
    ensures 1 <= DistBase(i) && DistBase(i) + Pow2(DistExtra(i)) <= DistBase(j) + Pow2(DistExtra(j))
    decreases j
  {
    if i < j { DistMono(i, j - 1); } else if i > 0 { DistMono(i - 1, i - 1); }
  }

  lemma ConsumeEnd(l: seq<nat>, d: seq<nat>, got: seq<Token>, r0: seq<bool>, n: nat, r: seq<bool>, m: nat,
                   r': seq<bool>)
    requires Consumed(l, d, got, r0, n, r) && IsSym(l, END_OF_BLOCK) && r + Zeros(m) == CodeBits(l, END_OF_BLOCK) + r'
    ensures Consumed(l, d, got, r0, n + m, CodeBits(l, END_OF_BLOCK) + r')
  {
    Joined(TokensBits(l, d, got), CodeBits(l, END_OF_BLOCK), r0, r, r', n, m);
    assert (TokensBits(l, d, got) + CodeBits(l, END_OF_BLOCK)) + r' == TokensBits(l, d, got)
           + (CodeBits(l, END_OF_BLOCK) + r');
  }

  /** The next token of a legal list is legal, and its output is within that of the list. */
  lemma TokenFits(out0: seq<byte>, ts: seq<Token>, n: nat)
    requires Legal(out0, ts) && n < |ts|
    ensures Legal(out0, ts[..n]) && LegalToken(Expand(out0, ts[..n]), ts[n])
    ensures |Apply(Expand(out0, ts[..n]), ts[n])| <= |Expand(out0, ts)|
  {
    LegalPrefix(out0, ts, n);
    LegalPrefix(out0, ts, n + 1);
    assert ts[..n + 1][..n] == ts[..n];
  }

  /** What a block leaves behind: `got` was read and replayed. */
  ghost predicate Decoded(l: seq<nat>, d: seq<nat>, got: seq<Token>, out0: seq<byte>, out: seq<byte>) {
    AllCoded(l, d, got) && Legal(out0, got) && out == Expand(out0, got)
  }

  /** A block to be read: its two codes, the input and output it starts from, and the tokens that are
      expected, if any are. */
  datatype Block = Block(l: seq<nat>, d: seq<nat>, r0: seq<bool>, p0: nat, out0: seq<byte>, want: seq<Token>,
    tail: seq<bool>)
  {
    /** The stream does start with the expected tokens, and they are legal. */
    ghost predicate Expected() {
      BlockAhead(l, d, want, tail, r0, p0) && Legal(out0, want)
    }

    /** The tokens `got` have been read, leaving `r` with `pad` made-up bits, and replayed into `out`. */
    ghost predicate Reached(got: seq<Token>, r: seq<bool>, pad: nat, out: seq<byte>) {
      && p0 <= pad && Consumed(l, d, got, r0, pad - p0, r)
      && Decoded(l, d, got, out0, out)
      && (Expected() ==> got <= want)
    }

    ghost predicate Finished(got: seq<Token>, r: seq<bool>, pad: nat, out: seq<byte>) {
      && p0 <= pad && IsSym(l, END_OF_BLOCK) && Consumed(l, d, got, r0, pad - p0, CodeBits(l, END_OF_BLOCK) + r)
      && Decoded(l, d, got, out0, out)
      && (Expected() ==> got == want && r == tail + Zeros(pad - p0))
    }

    /** Room for the expected output can be had. */
    ghost predicate Fits(o: Output)
      requires Expected()
      reads o
    {
      o.Roomy(|Expand(out0, want)|)
    }
  }

  /** Reads the next step of a block of which the tokens `got` have been read. */
  method ReadNext(input: Reader, z_length: ZHuffman, z_distance: ZHuffman, ghost b: Block, ghost got: seq<Token>,
                  ghost out: seq<byte>)
    returns (s: Step)
    requires input.Valid() && z_length.Built(b.l) && z_distance.Built(b.d)
    requires b.Reached(got, input.Rem(), input.pad, out)
    modifies input
    ensures input.Valid() && b.p0 <= input.pad
    ensures s.Tok? ==> Coded(b.l, b.d, s.t) && Consumed(b.l, b.d, got + [s.t], b.r0, input.pad - b.p0, input.Rem())
    ensures s.EndOfBlock? ==> b.Finished(got, input.Rem(), input.pad, out)
    ensures b.Expected() ==> s == StepAt(b.want, |got|)
  {
    ghost var n, r1, p1 := |got|, input.Rem(), input.pad;
    ghost var w, wt := Bad, [];
    if b.Expected() {
      assert b.want[..n] == got;
      NextStep(b.l, b.d, b.want, n, b.tail, b.p0, p1, b.r0, r1);
      w, wt := StepAt(b.want, n), TailAt(b.l, b.d, b.want, n, b.tail) + Zeros(p1 - b.p0);
    }
    s := ReadStep(input, z_length, z_distance, b.l, b.d, w, wt);
    StepTaken(b, got, out, r1, p1, s, input.Rem(), input.pad);
  }

  lemma StepTaken(b: Block, got: seq<Token>, out: seq<byte>, r1: seq<bool>, p1: nat, s: Step, r2: seq<bool>, p2: nat)
    requires b.Reached(got, r1, p1, out) && p1 <= p2
    requires !s.Bad? ==> Possible(b.l, b.d, s) && r1 + Zeros(p2 - p1) == StepBits(b.l, b.d, s) + r2
    requires b.Expected() ==> s == StepAt(b.want, |got|)
                              && r2 == (TailAt(b.l, b.d, b.want, |got|, b.tail) + Zeros(p1 - b.p0)) + Zeros(p2 - p1)
    ensures s.Tok? ==> Coded(b.l, b.d, s.t) && Consumed(b.l, b.d, got + [s.t], b.r0, p2 - b.p0, r2)
    ensures s.EndOfBlock? ==> b.Finished(got, r2, p2, out)
  {
    if s.Tok? {
      ConsumeStep(b.l, b.d, got, s.t, b.r0, p1 - b.p0, r1, p2 - p1, r2);
    } else if s.EndOfBlock? {
      ConsumeEnd(b.l, b.d, got, b.r0, p1 - b.p0, r1, p2 - p1, r2);
      ZerosAdd(p1 - b.p0, p2 - p1, b.tail);
    }
  }

  /** What one round of the block loop came to. */
  datatype Round = More | Finished | Failed

  /** One round of the loop of `stbi__parse_huffman_block`. */
  method DoRound(input: Reader, out: Output, z_length: ZHuffman, z_distance: ZHuffman, ghost b: Block,
                 ghost got: seq<Token>)
    returns (r: Round, ghost t: Token)
    requires input.Valid() && out.Valid() && z_length.Built(b.l) && z_distance.Built(b.d)
    requires b.Reached(got, input.Rem(), input.pad, out.Contents())
    modifies input, out, out.buf
    ensures input.Valid() && out.Valid() && (out.buf == old(out.buf) || fresh(out.buf))
    ensures b.p0 <= input.pad && old(out.buf.Length) <= out.buf.Length
    ensures r.More? ==> b.Reached(got + [t], input.Rem(), input.pad, out.Contents()) && out.len > old(out.len)
    ensures r.Finished? ==> b.Finished(got, input.Rem(), input.pad, out.Contents())
    ensures b.Expected() && old(b.Fits(out)) ==> !r.Failed?
  {
    t := Literal(0);
    var s := ReadNext(input, z_length, z_distance, b, got, out.Contents());
    match s {
      case Bad => r := Failed;
      case EndOfBlock =>
        if input.hit_zeof_once && input.num_bits < 16 {
          assert |input.Rem()| == input.num_bits;
          r := Failed;
        } else {
          r := Finished;
        }
      case Tok(next) =>
        t := next;
        ghost var r2, p2 := input.Rem(), input.pad;
        var ok := ReplayNext(out, b, got, next);
        r := if ok then More else Failed;
        RoundDone(b, got, t, r2, p2, out.Contents());
    }
  }

  lemma RoundDone(b: Block, got: seq<Token>, t: Token, r: seq<bool>, pad: nat, out: seq<byte>)
    requires b.p0 <= pad && Consumed(b.l, b.d, got + [t], b.r0, pad - b.p0, r) && (b.Expected() ==> got + [t] <= b.want)
    ensures Decoded(b.l, b.d, got + [t], b.out0, out) ==> b.Reached(got + [t], r, pad, out)
  {
  }

  method ReplayNext(out: Output, ghost b: Block, ghost got: seq<Token>, t: Token) returns (ok: bool)
    requires out.Valid() && WellFormed(t) && Decoded(b.l, b.d, got, b.out0, out.Contents()) && Coded(b.l, b.d, t)
    requires b.Expected() ==> got <= b.want && Tok(t) == StepAt(b.want, |got|)
    modifies out, out.buf
    ensures out.Valid() && (out.buf == old(out.buf) || fresh(out.buf))
    ensures old(out.buf.Length) <= out.buf.Length
    ensures ok ==> Decoded(b.l, b.d, got + [t], b.out0, out.Contents()) && out.len > old(out.len)
    ensures b.Expected() ==> got + [t] <= b.want
    ensures b.Expected() && old(b.Fits(out)) ==> ok
  {
    if b.Expected() {
      assert got == b.want[..|got|] && t == b.want[|got|];
      TokenFits(b.out0, b.want, |got|);
    }
    ok := Replay(out, t);
    if ok { ExtendTokens(b.l, b.d, b.out0, got, t); }
  }

  /** `stbi__parse_huffman_block`. If it succeeds, the input was the encoding of the tokens `got` and the
      output is what they expand to; and it does succeed on the encoding of any legal tokens whose output
      there is room for. */
  method ParseBlock(input: Reader, out: Output, z_length: ZHuffman, z_distance: ZHuffman, ghost b: Block)
    returns (ok: bool, ghost got: seq<Token>)
    requires input.Valid() && out.Valid() && z_length.Built(b.l) && z_distance.Built(b.d)
    requires out.buf != z_length.size && out.buf != z_distance.size
    requires b.r0 == input.Rem() && b.p0 == input.pad && b.out0 == out.Contents()
    modifies input, out, out.buf
    ensures input.Valid() && out.Valid() && (out.buf == old(out.buf) || fresh(out.buf))
    ensures b.p0 <= input.pad && old(out.buf.Length) <= out.buf.Length
    ensures ok ==> b.Finished(got, input.Rem(), input.pad, out.Contents())
    ensures b.Expected() && old(b.Fits(out)) ==> ok
  {
    got := [];
    NothingConsumed(b.l, b.d, b.r0);
    while true
      invariant input.Valid() && out.Valid() && z_length.Built(b.l) && z_distance.Built(b.d)
      invariant out.buf == old(out.buf) || fresh(out.buf)
      invariant b.p0 <= input.pad && old(out.buf.Length) <= out.buf.Length
      invariant b.Reached(got, input.Rem(), input.pad, out.Contents())
      decreases UINT_MAX - out.len
    {
      ghost var t;
      var r;
      r, t := DoRound(input, out, z_length, z_distance, b, got);
      match r {
        case Failed => return false, got;
        case Finished => return true, got;
        case More => got := got + [t];
      }
    }
  }
}
