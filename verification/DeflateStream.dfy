/** A whole DEFLATE stream as a list of blocks (RFC 1951, section 3.2.3), and the bytes it stands for. */
module DeflateStream {
  import opened Bits
  import opened Canonical
  import opened Deflate
  import opened DynamicCodes
  import opened FixedCode

  /** The body of a stored block: bits skipped, the length twice, and the bytes. */
  ghost function StoredBits(skip: seq<bool>, data: seq<byte>): seq<bool>
    requires |data| < 0x1_0000
  {
    skip + (LsbBits(|data|, 16) + (LsbBits(0xFFFF - |data|, 16) + ByteBits(data)))
  }

  /** A stored block carries the bits skipped to reach a byte boundary.

      The parameter `k`, always left at its default, only delays the unfolding of a definition: proofs
      about streams treat blocks as black boxes, and the lemmas `SendableDef`, `BodyDef`,
      `LegalDef` and `OutputDef` give it where it is needed. */
  datatype StreamBlock =
    | Stored(skip: seq<bool>, data: seq<byte>)
    | Fixed(ts: seq<Token>)
    | Dynamic(h: Header, ts: seq<Token>)
  {
    ghost predicate HasCodes() { !Stored? && (Dynamic? ==> h.Valid()) }

    ghost function LitLengths(): seq<nat>
      requires HasCodes()
    {
      if Fixed? then FixedLengths() else h.Lengths()
    }

    ghost function DistLengths(): seq<nat>
      requires HasCodes()
    {
      if Fixed? then FixedDistances() else h.Distances()
    }

    /** The symbols of the block have codes. */
    ghost predicate Symbolic() {
      HasCodes() && IsSym(LitLengths(), END_OF_BLOCK) && AllCoded(LitLengths(), DistLengths(), ts)
    }

    ghost function SymbolBits(): seq<bool>
      requires Symbolic()
    {
      TokensBits(LitLengths(), DistLengths(), ts) + CodeBits(LitLengths(), END_OF_BLOCK)
    }

    ghost function Type(): nat {
      match this
      case Stored(_, _) => 0
      case Fixed(_) => 1
      case Dynamic(_, _) => 2
    }

    /** The block can be sent when `n` bits are left from its first bit on. */
    ghost predicate Sendable(n: nat, k: nat := 3)
      decreases n, k
    {
      if k > 0 then Sendable(n, k - 1)
      else if Stored? then n >= 3 && |skip| == (n - 3) % 8 && |data| < 0x1_0000
      else Symbolic()
    }

    /** The bits after the three header bits. */
    ghost function BodyBits(n: nat, k: nat := 3): seq<bool>
      requires Sendable(n)
      decreases n, k
    {
      if k > 0 then BodyBits(n, k - 1)
      else
        SendableDef(n);
        match this
        case Stored(skip, data) => StoredBits(skip, data)
        case Fixed(ts) => SymbolBits()
        case Dynamic(h, ts) => h.Bits() + SymbolBits()
    }

    ghost function Bits(final: bool, n: nat): seq<bool>
      requires Sendable(n)
    {
      HeadBits(final, Type()) + BodyBits(n)
    }

    ghost predicate LegalAfter(out: seq<byte>, k: nat := 3)
      decreases |out|, k
    {
      if k > 0 then LegalAfter(out, k - 1) else Stored? || Legal(out, ts)
    }

    ghost function Output(out: seq<byte>, k: nat := 3): seq<byte>
      requires LegalAfter(out)
      decreases |out|, k
    {
      if k > 0 then Output(out, k - 1)
      else
        LegalDef(out);
        if Stored? then out + data else Expand(out, ts)
    }

    lemma SendableDef(n: nat)
      ensures Sendable(n) <==> if Stored? then n >= 3 && |skip| == (n - 3) % 8 && |data| < 0x1_0000 else Symbolic()
    {
      assert Sendable(n, 1) == Sendable(n, 0);
      assert Sendable(n, 2) == Sendable(n, 1);
    }

    lemma BodyDef(n: nat)
      requires Sendable(n)
      ensures Stored? ==> |data| < 0x1_0000 && BodyBits(n) == StoredBits(skip, data)
      ensures Fixed? ==> Symbolic() && BodyBits(n) == SymbolBits()
      ensures Dynamic? ==> Symbolic() && BodyBits(n) == h.Bits() + SymbolBits()
    {
      SendableDef(n);
      assert BodyBits(n, 1) == BodyBits(n, 0);
      assert BodyBits(n, 2) == BodyBits(n, 1);
    }

    lemma LegalDef(out: seq<byte>)
      ensures LegalAfter(out) <==> Stored? || Legal(out, ts)
    {
      assert LegalAfter(out, 1) == LegalAfter(out, 0);
      assert LegalAfter(out, 2) == LegalAfter(out, 1);
    }

    lemma OutputDef(out: seq<byte>)
      requires LegalAfter(out)
      ensures Stored? ==> Output(out) == out + data
      ensures !Stored? ==> Legal(out, ts) && Output(out) == Expand(out, ts)
    {
      LegalDef(out);
      assert Output(out, 1) == Output(out, 0);
      assert Output(out, 2) == Output(out, 1);
    }

    /** Whole bytes more or less to come do not change what can be sent. */
    lemma SendableMod(m: nat, n: nat)
      requires Sendable(m) && m % 8 == n % 8 && n >= 3
      ensures Sendable(n) && BodyBits(n) == BodyBits(m)
    {
      SendableDef(m);
      SendableDef(n);
      ModShift(m, n, 3);
      BodyDef(m);
      BodyDef(n);
    }
  }

  lemma ModShift(m: int, n: int, d: int)
    requires m % 8 == n % 8
    ensures (m - d) % 8 == (n - d) % 8
  {
    assert m - n == 8 * (m / 8 - n / 8);
    assert (m - d) - (n - d) == 8 * (m / 8 - n / 8);
  }

  /** The final flag and the type of a block. */
  ghost function HeadBits(final: bool, kind: nat): (b: seq<bool>)
    ensures |b| == 3
  {
    [final] + LsbBits(kind, 2)
  }

  /** `r` consists of the blocks `bs`, none of them final, and then `rest`. */
  ghost predicate Sent(bs: seq<StreamBlock>, r: seq<bool>, rest: seq<bool>) {
    if bs == [] then r == rest
    else bs[0].Sendable(|r|) && bs[0].Bits(false, |r|) <= r && Sent(bs[1..], r[|bs[0].Bits(false, |r|)|..], rest)
  }

  /** `r` is a stream of the blocks `bs` and then of the final block `last`, followed by `tail`. */
  ghost predicate Stream(bs: seq<StreamBlock>, last: StreamBlock, r: seq<bool>, tail: seq<bool>) {
    if bs == [] then last.Sendable(|r|) && r == last.Bits(true, |r|) + tail
    else bs[0].Sendable(|r|) && bs[0].Bits(false, |r|) <= r
         && Stream(bs[1..], last, r[|bs[0].Bits(false, |r|)|..], tail)
  }

  ghost predicate AllLegal(out: seq<byte>, bs: seq<StreamBlock>)
    decreases |bs|
  {
    bs == [] || (bs[0].LegalAfter(out) && AllLegal(bs[0].Output(out), bs[1..]))
  }

  /** The bytes a list of blocks stands for. */
  ghost function Inflated(out: seq<byte>, bs: seq<StreamBlock>): seq<byte>
    requires AllLegal(out, bs)
    decreases |bs|
  {
    if bs == [] then out else Inflated(bs[0].Output(out), bs[1..])
  }
}
