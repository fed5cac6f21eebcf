/** `stbi__parse_huffman_block` and what it is built from: reading tokens, growing the output buffer
    and replaying the tokens into it. */
module Inflate {
  import opened Bits
  import opened BitOps
  import opened Canonical
  import opened HuffmanTable
  import opened BitReader
  import opened Deflate

  /** What comes next in a compressed block. */
  datatype Step = Tok(t: Token) | EndOfBlock | Bad

  ghost predicate Possible(l: seq<nat>, d: seq<nat>, w: Step) {
    match w
    case Tok(t) => Coded(l, d, t)
    case EndOfBlock => IsSym(l, END_OF_BLOCK)
    case Bad => false
  }

  ghost function StepBits(l: seq<nat>, d: seq<nat>, w: Step): seq<bool>
    requires Possible(l, d, w)
  {
    if w.Tok? then TokenBits(l, d, w.t) else CodeBits(l, END_OF_BLOCK)
  }

  /** The literal/length symbol a step starts with, and the bits after its code. */
  ghost function FirstSym(w: Step): nat {
    match w
    case Tok(Literal(b)) => b
    case Tok(Copy(lsym, _, _, _)) => lsym
    case _ => END_OF_BLOCK
  }

  ghost function AfterSym(l: seq<nat>, d: seq<nat>, w: Step): seq<bool>
    requires Possible(l, d, w)
  {
    if w.Tok? && w.t.Copy? then
      LsbBits(w.t.lextra, LengthExtra(w.t.lsym - 257)) +
        (CodeBits(d, w.t.dsym) + LsbBits(w.t.dextra, DistExtra(w.t.dsym)))
    else []
  }

  lemma StepStart(l: seq<nat>, d: seq<nat>, w: Step, tail: seq<bool>)
    requires Possible(l, d, w)
    ensures IsSym(l, FirstSym(w))
    ensures StepBits(l, d, w) + tail == CodeBits(l, FirstSym(w)) + (AfterSym(l, d, w) + tail)
  {
  }

  /** The bits of a copy after its length symbol. */
  ghost function CopyBits(d: seq<nat>, t: Token): seq<bool>
    requires t.Copy? && WellFormed(t) && IsSym(d, t.dsym)
  {
    LsbBits(t.lextra, LengthExtra(t.lsym - 257)) + DistanceBits(d, t.dsym, t.dextra)
  }

  /** The stream holds the rest of the copy `w`, whose length symbol has been read. */
  ghost predicate CopyAhead(d: seq<nat>, lsym: nat, w: Token, tail: seq<bool>, r: seq<bool>, pad: nat) {
    w.Copy? && WellFormed(w) && w.lsym == lsym && IsSym(d, w.dsym) && r == CopyBits(d, w) + tail && |tail| >= pad
  }

  /** The bits of a distance symbol and its extra bits. */
  ghost function DistanceBits(d: seq<nat>, dsym: nat, dextra: nat): seq<bool>
    requires IsSym(d, dsym)
  {
    CodeBits(d, dsym) + LsbBits(dextra, DistExtra(dsym))
  }

  /** The stream holds the distance of the copy `w`. */
  ghost predicate DistanceAhead(d: seq<nat>, w: Token, tail: seq<bool>, r: seq<bool>, pad: nat) {
    w.Copy? && WellFormed(w) && IsSym(d, w.dsym) && r == DistanceBits(d, w.dsym, w.dextra) + tail && |tail| >= pad
  }

  lemma DistanceSymbol(d: seq<nat>, w: Token, tail: seq<bool>, pad: nat, r0: seq<bool>, sym: int, zs: seq<bool>,
                       r1: seq<bool>)
    requires Usable(d)
    requires sym >= 0 ==> IsSym(d, sym) && r0 + zs == CodeBits(d, sym) + r1
    requires sym < 0 ==> |r0| < pad || NoCode(d, r0 + zs)
    ensures DistanceAhead(d, w, tail, r0, pad) ==>
              sym == w.dsym && r1 == LsbBits(w.dextra, DistExtra(w.dsym)) + (tail + zs)
  {
    if DistanceAhead(d, w, tail, r0, pad) {
      var x := LsbBits(w.dextra, DistExtra(w.dsym));
      assert r0 == CodeBits(d, w.dsym) + (x + tail);
      SymbolExpected(d, sym, w.dsym, x + tail, zs, r0, r1);
    }
  }

  /** A distance symbol and its extra bits; -1 stands for a bad one. */
  method ReadDistance(input: Reader, z_distance: ZHuffman, ghost d: seq<nat>, ghost want: Token, ghost tail: seq<bool>)
    returns (dsym: int, dextra: nat)
    requires input.Valid() && z_distance.Built(d)
    modifies input
    ensures input.Valid() && old(input.pad) <= input.pad && -1 <= dsym < 30
    ensures dsym >= 0 ==> IsSym(d, dsym) && dextra < Pow2(DistExtra(dsym))
                          && old(input.Rem()) + Zeros(input.pad - old(input.pad)) == DistanceBits(d, dsym, dextra)
                            + input.Rem()
    ensures DistanceAhead(d, want, tail, old(input.Rem()), old(input.pad)) ==> dsym >= 0
  {
    ghost var r0, p0 := input.Rem(), input.pad;
    dextra := 0;
    dsym := ReadDistanceSymbol(input, z_distance, d, want, tail);
    ghost var r1, p1 := input.Rem(), input.pad;
    if dsym < 0 || dsym >= 30 { return -1, 0; }
    var _, db := DistEntry(dsym);
    dextra := ReadExtra(input, db);
    Joined(CodeBits(d, dsym), LsbBits(dextra, db), r0, r1, input.Rem(), p1 - p0, input.pad - p1);
  }

  method ReadDistanceSymbol(input: Reader, z_distance: ZHuffman, ghost d: seq<nat>, ghost want: Token,
                            ghost tail: seq<bool>)
    returns (dsym: int)
    requires input.Valid() && z_distance.Built(d)
    modifies input
    ensures input.Valid() && old(input.pad) <= input.pad
    ensures dsym >= 0 ==> IsSym(d, dsym)
                          && old(input.Rem()) + Zeros(input.pad - old(input.pad)) == CodeBits(d, dsym) + input.Rem()
    ensures DistanceAhead(d, want, tail, old(input.Rem()), old(input.pad)) ==> dsym == want.dsym
  {
    ghost var r0, p0 := input.Rem(), input.pad;
    z_distance.BuiltUsable(d);
    dsym := input.Decode(z_distance, d);
    DistanceSymbol(d, want, tail, p0, r0, dsym, Zeros(input.pad - p0), input.Rem());
  }

  lemma DistanceUnique(d: seq<nat>, w: Token, tail: seq<bool>, r0: seq<bool>, dsym: nat, dextra: nat, zs: seq<bool>,
                       r2: seq<bool>)
    requires Usable(d) && DistanceAhead(d, w, tail, r0, 0)
    requires dsym < 30 && IsSym(d, dsym) && dextra < Pow2(DistExtra(dsym))
             && r0 + zs == DistanceBits(d, dsym, dextra) + r2
    ensures dsym == w.dsym && dextra == w.dextra && r2 == tail + zs
  {
    var x := LsbBits(dextra, DistExtra(dsym));
    assert r0 + zs == CodeBits(d, dsym) + (x + r2);
    DistanceSymbol(d, w, tail, 0, r0, dsym, zs, x + r2);
    NumberExpected(DistExtra(dsym), dextra, w.dextra, tail, zs, LsbBits(w.dextra, DistExtra(dsym)) + tail, r2);
  }

  lemma ZerosAdd(m: nat, n: nat, x: seq<bool>)
    ensures x + Zeros(m) + Zeros(n) == x + Zeros(m + n)
  {
  }

  /** Two consecutive reads, with made-up zero bits appended on the way. */
  lemma Joined(a: seq<bool>, b: seq<bool>, r0: seq<bool>, r1: seq<bool>, r2: seq<bool>, n1: nat, n2: nat)
    requires r0 + Zeros(n1) == a + r1 && r1 + Zeros(n2) == b + r2
    ensures r0 + Zeros(n1 + n2) == (a + b) + r2
  {
    ZerosAdd(n1, n2, r0);
    assert (a + r1) + Zeros(n2) == a + (r1 + Zeros(n2));
    assert a + (b + r2) == (a + b) + r2;
  }

  /** Receives `n` more bits after those of `done`. */
  method ReceiveAfter(input: Reader, n: nat, ghost done: seq<bool>, ghost r0: seq<bool>, ghost p0: nat) returns (k: nat)
    requires input.Valid() && n <= 16 && p0 <= input.pad && r0 + Zeros(input.pad - p0) == done + input.Rem()
    modifies input
    ensures input.Valid() && p0 <= input.pad && k < Pow2(n)
    ensures r0 + Zeros(input.pad - p0) == (done + LsbBits(k, n)) + input.Rem()
  {
    ghost var r1, p1 := input.Rem(), input.pad;
    k := input.Receive(n);
    Joined(done, LsbBits(k, n), r0, r1, input.Rem(), p1 - p0, input.pad - p1);
  }

  /** The part of a token after its length symbol. */
  method ReadCopy(input: Reader, z_distance: ZHuffman, ghost d: seq<nat>, lsym: nat, ghost want: Token,
                  ghost tail: seq<bool>)
    returns (s: Step)
    requires input.Valid() && z_distance.Built(d) && 257 <= lsym < 286
    modifies input
    ensures input.Valid() && old(input.pad) <= input.pad
    ensures !s.EndOfBlock?
    ensures s.Tok? ==> s.t.Copy? && WellFormed(s.t) && s.t.lsym == lsym && IsSym(d, s.t.dsym)
                       && old(input.Rem()) + Zeros(input.pad - old(input.pad)) == CopyBits(d, s.t) + input.Rem()
    ensures CopyAhead(d, lsym, want, tail, old(input.Rem()), old(input.pad))
            ==> s == Tok(want) && input.Rem() == tail + Zeros(input.pad - old(input.pad))
  {
    ghost var r0, p0 := input.Rem(), input.pad;
    z_distance.BuiltUsable(d);
    var _, eb := LengthEntry(lsym - 257);
    var lextra := ReadExtra(input, eb);
    ghost var r1, p1 := input.Rem(), input.pad;
    LengthRead(d, lsym, want, tail, r0, p0, lextra, p1 - p0, r1);
    var dsym, dextra := ReadDistance(input, z_distance, d, want, tail + Zeros(p1 - p0));
    if dsym < 0 { return Bad; }
    s := Tok(Copy(lsym, lextra, dsym, dextra));
    CopyRead(d, lsym, want, tail, r0, p0, lextra, p1 - p0, r1, dsym, dextra, input.pad - p1, input.Rem());
  }

  /** What the expected copy says once the extra bits of its length have been read. */
  lemma LengthRead(d: seq<nat>, lsym: nat, w: Token, tail: seq<bool>, r0: seq<bool>, p0: nat, lextra: nat, n: nat,
                   r1: seq<bool>)
    requires 257 <= lsym < 286
    requires lextra < Pow2(LengthExtra(lsym - 257)) && r0 + Zeros(n) == LsbBits(lextra, LengthExtra(lsym - 257)) + r1
    ensures CopyAhead(d, lsym, w, tail, r0, p0)
            ==> lextra == w.lextra && DistanceAhead(d, w, tail + Zeros(n), r1, p0 + n)
  {
    if CopyAhead(d, lsym, w, tail, r0, p0) {
      var eb, x := LengthExtra(w.lsym - 257), DistanceBits(d, w.dsym, w.dextra);
      assert r0 == LsbBits(w.lextra, eb) + (x + tail);
      NumberExpected(eb, lextra, w.lextra, x + tail, Zeros(n), r0, r1);
      assert (x + tail) + Zeros(n) == x + (tail + Zeros(n));
    }
  }

  /** And once its distance has been read as well. */
  lemma CopyRead(d: seq<nat>, lsym: nat, w: Token, tail: seq<bool>, r0: seq<bool>, p0: nat, lextra: nat, n: nat,
                 r1: seq<bool>,
                 dsym: nat, dextra: nat, m: nat, r2: seq<bool>)
    requires Usable(d) && dsym < 30 && IsSym(d, dsym) && dextra < Pow2(DistExtra(dsym))
    requires CopyAhead(d, lsym, w, tail, r0, p0) ==>
               lextra == w.lextra && DistanceAhead(d, w, tail + Zeros(n), r1, p0 + n)
    requires r1 + Zeros(m) == DistanceBits(d, dsym, dextra) + r2
    requires 257 <= lsym < 286 && lextra < Pow2(LengthExtra(lsym - 257))
             && r0 + Zeros(n) == LsbBits(lextra, LengthExtra(lsym - 257)) + r1
    ensures WellFormed(Copy(lsym, lextra, dsym, dextra)) && r0 + Zeros(n + m)
            == CopyBits(d, Copy(lsym, lextra, dsym, dextra)) + r2
    ensures CopyAhead(d, lsym, w, tail, r0, p0) ==> Copy(lsym, lextra, dsym, dextra) == w && r2 == tail + Zeros(n + m)
  {
    Joined(LsbBits(lextra, LengthExtra(lsym - 257)), DistanceBits(d, dsym, dextra), r0, r1, r2, n, m);
    if CopyAhead(d, lsym, w, tail, r0, p0) {
      DistanceUnique(d, w, tail + Zeros(n), r1, dsym, dextra, Zeros(m), r2);
      ZerosAdd(n, m, tail);
    }
  }

  /** Extra bits are received only where there are any. */
  method ReadExtra(input: Reader, n: nat) returns (k: nat)
    requires input.Valid() && n <= 16
    modifies input
    ensures input.Valid() && old(input.pad) <= input.pad && k < Pow2(n)
    ensures old(input.Rem()) + Zeros(input.pad - old(input.pad)) == LsbBits(k, n) + input.Rem()
  {
    k := 0;
    if n != 0 { k := input.Receive(n); }
  }

  /** The stream holds the step `w` followed by at least the made-up bits. */
  ghost predicate StepAhead(l: seq<nat>, d: seq<nat>, w: Step, tail: seq<bool>, r: seq<bool>, pad: nat) {
    Possible(l, d, w) && r == StepBits(l, d, w) + tail && |tail| >= pad
  }

  /** The symbol a step starts with. */
  method ReadSymbol(input: Reader, z_length: ZHuffman, ghost l: seq<nat>, ghost d: seq<nat>, ghost want: Step,
                    ghost tail: seq<bool>)
    returns (sym: int)
    requires input.Valid() && z_length.Built(l)
    modifies input
    ensures input.Valid() && old(input.pad) <= input.pad
    ensures sym >= 0 ==> IsSym(l, sym)
                         && old(input.Rem()) + Zeros(input.pad - old(input.pad)) == CodeBits(l, sym) + input.Rem()
    ensures StepAhead(l, d, want, tail, old(input.Rem()), old(input.pad))
            ==> sym == FirstSym(want)
                && input.Rem() == AfterSym(l, d, want) + (tail + Zeros(input.pad - old(input.pad)))
  {
    ghost var r0, p0 := input.Rem(), input.pad;
    z_length.BuiltUsable(l);
    sym := input.Decode(z_length, l);
    StepSymbol(l, d, want, tail, p0, r0, sym, input.pad - p0, input.Rem());
  }

  lemma StepSymbol(l: seq<nat>, d: seq<nat>, want: Step, tail: seq<bool>, pad: nat, r0: seq<bool>, sym: int, n: nat,
                   r: seq<bool>)
    requires Usable(l)
    requires sym >= 0 ==> IsSym(l, sym) && r0 + Zeros(n) == CodeBits(l, sym) + r
    requires sym < 0 ==> |r0| < pad || NoCode(l, r0 + Zeros(n))
    ensures StepAhead(l, d, want, tail, r0, pad) ==>
              sym == FirstSym(want) && r == AfterSym(l, d, want) + (tail + Zeros(n))
  {
    if StepAhead(l, d, want, tail, r0, pad) {
      StepStart(l, d, want, tail);
      SymbolExpected(l, sym, FirstSym(want), AfterSym(l, d, want) + tail, Zeros(n), r0, r);
    }
  }

  /** The reading half of one round of `stbi__parse_huffman_block`. */
  method ReadStep(input: Reader, z_length: ZHuffman, z_distance: ZHuffman, ghost l: seq<nat>, ghost d: seq<nat>,
                  ghost want: Step, ghost tail: seq<bool>)
    returns (s: Step)
    requires input.Valid() && z_length.Built(l) && z_distance.Built(d)
    modifies input
    ensures input.Valid() && old(input.pad) <= input.pad
    ensures !s.Bad? ==> Possible(l, d, s)
                        && old(input.Rem()) + Zeros(input.pad - old(input.pad)) == StepBits(l, d, s) + input.Rem()
    ensures StepAhead(l, d, want, tail, old(input.Rem()), old(input.pad))
            ==> s == want && input.Rem() == tail + Zeros(input.pad - old(input.pad))
  {
    ghost var r0, p0 := input.Rem(), input.pad;
    var z := ReadSymbol(input, z_length, l, d, want, tail);
    if z < 0 { return Bad; }
    if z < 256 { return Tok(Literal(z)); }
    if z == 256 { return EndOfBlock; }
    if z >= 286 { return Bad; }
    s := ReadCopyStep(input, z_distance, l, d, z, want, tail, r0, p0);
  }

  /** The rest of a copy, as a step. */
  method ReadCopyStep(input: Reader, z_distance: ZHuffman, ghost l: seq<nat>, ghost d: seq<nat>, z: nat,
                      ghost want: Step, ghost tail: seq<bool>, ghost r0: seq<bool>, ghost p0: nat)
    returns (s: Step)
    requires input.Valid() && z_distance.Built(d) && 257 <= z < 286 && IsSym(l, z) && p0 <= input.pad
    requires r0 + Zeros(input.pad - p0) == CodeBits(l, z) + input.Rem()
    requires StepAhead(l, d, want, tail, r0, p0)
             ==> z == FirstSym(want) && input.Rem() == AfterSym(l, d, want) + (tail + Zeros(input.pad - p0))
    modifies input
    ensures input.Valid() && p0 <= input.pad
    ensures !s.Bad? ==> Possible(l, d, s) && r0 + Zeros(input.pad - p0) == StepBits(l, d, s) + input.Rem()
    ensures StepAhead(l, d, want, tail, r0, p0) ==> s == want && input.Rem() == tail + Zeros(input.pad - p0)
  {
    ghost var r1, p1 := input.Rem(), input.pad;
    ghost var w := if want.Tok? then want.t else Literal(0);
    s := ReadCopy(input, z_distance, d, z, w, tail + Zeros(p1 - p0));
    if s.Tok? {
      Joined(CodeBits(l, z), CopyBits(d, s.t), r0, r1, input.Rem(), p1 - p0, input.pad - p1);
    }
    ZerosAdd(p1 - p0, input.pad - p1, tail);
  }
}
