/** What a compressed block means: literal and copy tokens, the bits that encode them (RFC 1951,
    section 3.2.5), and the bytes they stand for. */
module Deflate {
  import opened Sequences
  import opened Bits
  import opened Canonical

  const LENGTH_BASE: seq<nat> :=
    [3, 4, 5, 6, 7, 8, 9, 10, 11, 13, 15, 17, 19, 23, 27, 31, 35, 43, 51, 59, 67, 83, 99, 115, 131, 163, 195, 227, 258]
  const LENGTH_EXTRA: seq<nat> :=
    [0, 0, 0, 0, 0, 0, 0, 0, 1, 1, 1, 1, 2, 2, 2, 2, 3, 3, 3, 3, 4, 4, 4, 4, 5, 5, 5, 5, 0]
  const DIST_BASE: seq<nat> :=
    [1, 2, 3, 4, 5, 7, 9, 13, 17, 25, 33, 49, 65, 97, 129, 193, 257, 385, 513, 769,
     1025, 1537, 2049, 3073, 4097, 6145, 8193, 12289, 16385, 24577]
  const DIST_EXTRA: seq<nat> :=
    [0, 0, 0, 0, 1, 1, 2, 2, 3, 3, 4, 4, 5, 5, 6, 6, 7, 7, 8, 8, 9, 9, 10, 10, 11, 11, 12, 12, 13, 13]
  const END_OF_BLOCK: nat := 256

  // The four tables as functions: how many extra bits each symbol has, and how the ranges of
  // values tile. `LengthTables` and `DistTables` say that these are the tables.

  /** Extra bits of length symbol `257 + i`. */
  function LengthExtra(i: nat): nat {
    if i < 8 || i == 28 then 0 else 1 + LengthExtra(i - 4)
  }

  /** The shortest length of length symbol `257 + i`. */
  function LengthBase(i: nat): nat {
    if i == 0 then 3 else if i == 28 then 258 else LengthBase(i - 1) + Pow2(LengthExtra(i - 1))
  }

  function DistExtra(i: nat): nat {
    if i < 4 then 0 else 1 + DistExtra(i - 2)
  }

  function DistBase(i: nat): nat {
    if i == 0 then 1 else DistBase(i - 1) + Pow2(DistExtra(i - 1))
  }

  lemma LengthTables(i: nat)
    requires i < 29
    ensures |LENGTH_BASE| == |LENGTH_EXTRA| == 29
    ensures LENGTH_EXTRA[i] == LengthExtra(i) <= 5 && LENGTH_BASE[i] == LengthBase(i)
  {
    if i < 10 { LengthRow0(i); } else if i < 20 { LengthRow10(i); } else { LengthRow20(i); }
  }

  lemma LengthRow0(i: nat)
    requires 0 <= i < 10
    ensures LENGTH_EXTRA[i] == LengthExtra(i) && LENGTH_BASE[i] == LengthBase(i)
  {
    LengthBases();
    LengthExtras();
  }

  lemma LengthRow10(i: nat)
    requires 10 <= i < 20
    ensures LENGTH_EXTRA[i] == LengthExtra(i) && LENGTH_BASE[i] == LengthBase(i)
  {
    LengthBases();
    LengthExtras();
  }

  lemma LengthRow20(i: nat)
    requires 20 <= i < 29
    ensures LENGTH_EXTRA[i] == LengthExtra(i) && LENGTH_BASE[i] == LengthBase(i)
  {
    LengthBases();
    LengthExtras();
  }

  lemma LengthExtras()
    ensures LengthExtra(0) == 0 && LengthExtra(1) == 0 && LengthExtra(2) == 0 && LengthExtra(3) == 0
            && LengthExtra(4) == 0
    ensures LengthExtra(5) == 0 && LengthExtra(6) == 0 && LengthExtra(7) == 0 && LengthExtra(8) == 1
            && LengthExtra(9) == 1
    ensures LengthExtra(10) == 1 && LengthExtra(11) == 1 && LengthExtra(12) == 2 && LengthExtra(13) == 2
            && LengthExtra(14) == 2
    ensures LengthExtra(15) == 2 && LengthExtra(16) == 3 && LengthExtra(17) == 3 && LengthExtra(18) == 3
            && LengthExtra(19) == 3
    ensures LengthExtra(20) == 4 && LengthExtra(21) == 4 && LengthExtra(22) == 4 && LengthExtra(23) == 4
            && LengthExtra(24) == 5
    ensures LengthExtra(25) == 5 && LengthExtra(26) == 5 && LengthExtra(27) == 5 && LengthExtra(28) == 0
  {
  }

  lemma LengthBases()
    ensures LengthBase(0) == 3 && LengthBase(1) == 4 && LengthBase(2) == 5 && LengthBase(3) == 6 && LengthBase(4) == 7
    ensures LengthBase(5) == 8 && LengthBase(6) == 9 && LengthBase(7) == 10 && LengthBase(8) == 11
            && LengthBase(9) == 13
    ensures LengthBase(10) == 15 && LengthBase(11) == 17 && LengthBase(12) == 19 && LengthBase(13) == 23
            && LengthBase(14) == 27
    ensures LengthBase(15) == 31 && LengthBase(16) == 35 && LengthBase(17) == 43 && LengthBase(18) == 51
            && LengthBase(19) == 59
    ensures LengthBase(20) == 67 && LengthBase(21) == 83 && LengthBase(22) == 99 && LengthBase(23) == 115
            && LengthBase(24) == 131
    ensures LengthBase(25) == 163 && LengthBase(26) == 195 && LengthBase(27) == 227 && LengthBase(28) == 258
  {
  }

  lemma DistTables(i: nat)
    requires i < 30
    ensures |DIST_BASE| == |DIST_EXTRA| == 30
    ensures DIST_EXTRA[i] == DistExtra(i) <= 13 && DIST_BASE[i] == DistBase(i)
  {
    DistBases();
  }

  lemma DistBases()
    ensures DistBase(0) == 1 && DistBase(1) == 2 && DistBase(2) == 3 && DistBase(3) == 4 && DistBase(4) == 5
    ensures DistBase(5) == 7 && DistBase(6) == 9 && DistBase(7) == 13 && DistBase(8) == 17 && DistBase(9) == 25
    ensures DistBase(10) == 33 && DistBase(11) == 49 && DistBase(12) == 65 && DistBase(13) == 97 && DistBase(14) == 129
    ensures DistBase(15) == 193 && DistBase(16) == 257 && DistBase(17) == 385 && DistBase(18) == 513
            && DistBase(19) == 769
    ensures DistBase(20) == 1025 && DistBase(21) == 1537 && DistBase(22) == 2049 && DistBase(23) == 3073
            && DistBase(24) == 4097
    ensures DistBase(25) == 6145 && DistBase(26) == 8193 && DistBase(27) == 12289 && DistBase(28) == 16385
            && DistBase(29) == 24577
  {
  }

  /** The two entries of a length symbol. */
  method LengthEntry(i: nat) returns (base: nat, extra: nat)
    requires i < 29
    ensures base == LengthBase(i) && extra == LengthExtra(i) <= 5
  {
    LengthTables(i);
    base, extra := LENGTH_BASE[i], LENGTH_EXTRA[i];
  }

  /** The two entries of a distance symbol. */
  method DistEntry(i: nat) returns (base: nat, extra: nat)
    requires i < 30
    ensures base == DistBase(i) && extra == DistExtra(i) <= 13
  {
    DistTables(i);
    base, extra := DIST_BASE[i], DIST_EXTRA[i];
  }

  /** A literal byte, or a copy given by its length and distance symbols with their extra bits. */
  datatype Token =
    | Literal(b: byte)
    | Copy(lsym: nat, lextra: nat, dsym: nat, dextra: nat)

  ghost predicate WellFormed(t: Token) {
    t.Copy? ==>
      && 257 <= t.lsym < 286 && t.lextra < Pow2(LengthExtra(t.lsym - 257))
      && t.dsym < 30 && t.dextra < Pow2(DistExtra(t.dsym))
  }

  ghost function Length(t: Token): nat
    requires t.Copy? && WellFormed(t)
  {
    LengthBase(t.lsym - 257) + t.lextra
  }

  ghost function Distance(t: Token): nat
    requires t.Copy? && WellFormed(t)
  {
    DistBase(t.dsym) + t.dextra
  }

  /** Copying byte by byte, so that the copy may overlap what it produces. */
  ghost function CopyBack(out: seq<byte>, dist: nat, len: nat): (r: seq<byte>)
    requires 1 <= dist <= |out|
    ensures |r| == |out| + len
    decreases len
  {
    if len == 0 then out else CopyBack(out + [out[|out| - dist]], dist, len - 1)
  }

  /** The token refers to nothing before the start of the output. */
  ghost predicate LegalToken(out: seq<byte>, t: Token) {
    WellFormed(t) && (t.Copy? ==> 1 <= Distance(t) <= |out|)
  }

  ghost function Apply(out: seq<byte>, t: Token): seq<byte>
    requires LegalToken(out, t)
  {
    match t
    case Literal(b) => out + [b]
    case Copy(_, _, _, _) => CopyBack(out, Distance(t), Length(t))
  }

  ghost predicate Legal(out: seq<byte>, ts: seq<Token>)
    decreases |ts|, 0
  {
    ts == [] || (Legal(out, ts[..|ts| - 1]) && LegalToken(Expand(out, ts[..|ts| - 1]), ts[|ts| - 1]))
  }

  /** The output after replaying `ts`. */
  ghost function Expand(out: seq<byte>, ts: seq<Token>): seq<byte>
    requires Legal(out, ts)
    decreases |ts|, 1
  {
    if ts == [] then out else Apply(Expand(out, ts[..|ts| - 1]), ts[|ts| - 1])
  }

  /** The two codes have a code word for everything the token needs. */
  ghost predicate Coded(l: seq<nat>, d: seq<nat>, t: Token) {
    WellFormed(t) &&
    match t
    case Literal(b) => IsSym(l, b)
    case Copy(lsym, _, dsym, _) => IsSym(l, lsym) && IsSym(d, dsym)
  }

  ghost predicate AllCoded(l: seq<nat>, d: seq<nat>, ts: seq<Token>) {
    forall i | 0 <= i < |ts| :: Coded(l, d, ts[i])
  }

  ghost function TokenBits(l: seq<nat>, d: seq<nat>, t: Token): seq<bool>
    requires Coded(l, d, t)
  {
    match t
    case Literal(b) => CodeBits(l, b)
    case Copy(lsym, lextra, dsym, dextra) =>
      CodeBits(l, lsym) + (LsbBits(lextra, LengthExtra(lsym - 257)) +
        (CodeBits(d, dsym) + LsbBits(dextra, DistExtra(dsym))))
  }

  ghost function Chunks(l: seq<nat>, d: seq<nat>, ts: seq<Token>): (c: seq<seq<bool>>)
    requires AllCoded(l, d, ts)
    ensures |c| == |ts|
  {
    seq(|ts|, i requires 0 <= i < |ts| => TokenBits(l, d, ts[i]))
  }

  ghost function Concat(c: seq<seq<bool>>): seq<bool> {
    if c == [] then [] else Concat(c[..|c| - 1]) + c[|c| - 1]
  }

  ghost function TokensBits(l: seq<nat>, d: seq<nat>, ts: seq<Token>): seq<bool>
    requires AllCoded(l, d, ts)
  {
    Concat(Chunks(l, d, ts))
  }

  // ---------- lemmas ----------

  lemma ExtendTokens(l: seq<nat>, d: seq<nat>, out: seq<byte>, ts: seq<Token>, t: Token)
    requires AllCoded(l, d, ts) && Coded(l, d, t) && Legal(out, ts) && LegalToken(Expand(out, ts), t)
    ensures AllCoded(l, d, ts + [t]) && Legal(out, ts + [t])
    ensures TokensBits(l, d, ts + [t]) == TokensBits(l, d, ts) + TokenBits(l, d, t)
    ensures Expand(out, ts + [t]) == Apply(Expand(out, ts), t)
  {
    assert (ts + [t])[..|ts|] == ts;
    ChunksAppend(l, d, ts, [t]);
    assert Chunks(l, d, [t]) == [TokenBits(l, d, t)];
    ConcatLast(Chunks(l, d, ts), TokenBits(l, d, t));
  }

  lemma ConcatLast(c: seq<seq<bool>>, x: seq<bool>)
    ensures Concat(c + [x]) == Concat(c) + x
  {
    assert (c + [x])[..|c|] == c;
  }

  lemma {:induction false} ConcatAppend(a: seq<seq<bool>>, b: seq<seq<bool>>)
    ensures Concat(a + b) == Concat(a) + Concat(b)
  {
    if b == [] {
      assert a + b == a;
    } else {
      ConcatAppend(a, b[..|b| - 1]);
      assert (a + b)[..|a + b| - 1] == a + b[..|b| - 1];
      Regrouped(Concat(a), Concat(b[..|b| - 1]), b[|b| - 1]);
    }
  }

  lemma ChunksAppend(l: seq<nat>, d: seq<nat>, a: seq<Token>, b: seq<Token>)
    requires AllCoded(l, d, a) && AllCoded(l, d, b)
    ensures AllCoded(l, d, a + b) && Chunks(l, d, a + b) == Chunks(l, d, a) + Chunks(l, d, b)
  {
  }

  lemma {:induction false} LegalPrefix(out: seq<byte>, ts: seq<Token>, n: nat)
    requires Legal(out, ts) && n <= |ts|
    ensures Legal(out, ts[..n])
    ensures n < |ts| ==> LegalToken(Expand(out, ts[..n]), ts[n])
    ensures |Expand(out, ts[..n])| <= |Expand(out, ts)|
    decreases |ts|
  {
    if n == |ts| {
      assert ts[..n] == ts;
    } else {
      var front := ts[..|ts| - 1];
      if n < |ts| - 1 { LegalPrefix(out, front, n); }
      assert front[..n] == ts[..n];
      assert |Expand(out, ts)| >= |Expand(out, front)|;
    }
  }

  /** The bits of a token list, seen from token `n` on. */
  lemma TokensBitsFrom(l: seq<nat>, d: seq<nat>, ts: seq<Token>, n: nat)
    requires AllCoded(l, d, ts) && n <= |ts|
    ensures AllCoded(l, d, ts[..n]) && AllCoded(l, d, ts[n..])
    ensures TokensBits(l, d, ts) == TokensBits(l, d, ts[..n]) + TokensBits(l, d, ts[n..])
  {
    ChunksAppend(l, d, ts[..n], ts[n..]);
    assert ts[..n] + ts[n..] == ts;
    ConcatAppend(Chunks(l, d, ts[..n]), Chunks(l, d, ts[n..]));
  }

  lemma TokensBitsFirst(l: seq<nat>, d: seq<nat>, ts: seq<Token>)
    requires AllCoded(l, d, ts) && ts != []
    ensures AllCoded(l, d, ts[1..])
    ensures TokensBits(l, d, ts) == TokenBits(l, d, ts[0]) + TokensBits(l, d, ts[1..])
  {
    TokensBitsFrom(l, d, ts, 1);
    var x := TokenBits(l, d, ts[0]);
    assert Chunks(l, d, ts[..1]) == [] + [x];
    ConcatLast([], x);
  }

  /** One byte of an overlapping copy, as the inner loop makes it. */
  lemma {:induction false} CopyBackStep(out: seq<byte>, dist: nat, len: nat)
    requires 1 <= dist <= |out|
    ensures CopyBack(out, dist, len + 1) == CopyBack(out, dist, len) + [CopyBack(out, dist, len)[|out| + len - dist]]
    decreases len
  {
    var out' := out + [out[|out| - dist]];
    if len == 0 {
      assert CopyBack(out', dist, 0) == out';
    } else {
      CopyBackStep(out', dist, len - 1);
    }
  }
}
