/** The decoding tables of `stbi__huffman` in the JPEG reader. */
module JpegHuffman {
  import opened Bits
  import opened BitOps
  import opened JpegCode

  const FAST_BITS: nat := 9
  const FAST_SIZE: nat := 512
  const NOT_FAST: nat := 255

  /** Entry `t` of the fast table once the first `n` codes have been entered. */
  ghost function FastTo(sizes: seq<nat>, n: nat, t: nat): nat
    requires n <= |sizes|
  {
    if n == 0 then NOT_FAST
    else if sizes[n - 1] <= FAST_BITS && Low(sizes, n - 1) <= 128 * t < Low(sizes, n) then n - 1
    else FastTo(sizes, n - 1, t)
  }

  // What the tables should hold, as sequences.

  // (`k`, always left at its default, keeps both folded.)

  ghost function Limits(count: seq<nat>, k: nat := 3): (f: seq<nat>)
    requires |count| == 16
    ensures |f| == 17
    decreases |count|, k
  {
    if k > 0 then Limits(count, k - 1)
    else seq(17, j requires 0 <= j <= 16 => if Index(count, j) <= |Sizes(count)| then Low(Sizes(count), Index(count, j))
         else 0)
  }

  ghost function Deltas(count: seq<nat>, k: nat := 3): (f: seq<int>)
    requires |count| == 16
    ensures |f| == 17
    decreases |count|, k
  {
    if k > 0 then Deltas(count, k - 1)
    else seq(17, j requires 0 <= j <= 16 => if j == 0 then 0 else Index(count, j - 1) - Base(count, j))
  }

  lemma LimitAt(count: seq<nat>, j: nat)
    requires |count| == 16 && j <= 16
    ensures Index(count, j) <= |Sizes(count)| && Limits(count)[j] == Low(Sizes(count), Index(count, j))
  {
    IndexMono(count, j, |count|);
    assert Limits(count, 1) == Limits(count, 0);
    assert Limits(count, 2) == Limits(count, 1);
  }

  lemma DeltaAt(count: seq<nat>, j: nat)
    requires |count| == 16 && 1 <= j <= 16
    ensures Deltas(count)[j] == Index(count, j - 1) - Base(count, j)
  {
    assert Deltas(count, 1) == Deltas(count, 0);
    assert Deltas(count, 2) == Deltas(count, 1);
  }

  lemma IndexesFit(count: seq<nat>)
    requires |count| == 16
    ensures forall j | 0 <= j <= 16 :: Index(count, j) <= |Sizes(count)|
  {
    forall j | 0 <= j <= 16 ensures Index(count, j) <= |Sizes(count)| { IndexMono(count, j, |count|); }
  }

  /** The rows for lengths up to `n` are filled. (`k`, always left at its default, keeps this folded.) */
  ghost predicate Rows(count: seq<nat>, n: nat, maxcode: seq<u32>, delta: seq<int>, k: nat := 3)
    decreases n, k
  {
    && |count| == 16 && n <= 16 && |maxcode| == 18 && |delta| == 17
    && if k > 0 then Rows(count, n, maxcode, delta, k - 1)
       else forall j | 1 <= j <= n :: maxcode[j] as int == Limits(count)[j] && delta[j] == Deltas(count)[j]
  }

  lemma RowsDef(count: seq<nat>, n: nat, maxcode: seq<u32>, delta: seq<int>)
    ensures Rows(count, n, maxcode, delta) <==>
            && |count| == 16 && n <= 16 && |maxcode| == 18 && |delta| == 17
            && forall j | 1 <= j <= n :: maxcode[j] as int == Limits(count)[j] && delta[j] == Deltas(count)[j]
  {
    assert Rows(count, n, maxcode, delta, 1) == Rows(count, n, maxcode, delta, 0);
    assert Rows(count, n, maxcode, delta, 2) == Rows(count, n, maxcode, delta, 1);
  }

  lemma AddRow(count: seq<nat>, j: nat, maxcode: seq<u32>, delta: seq<int>, m: u32, d: int)
    requires 1 <= j <= 16 && Rows(count, j - 1, maxcode, delta)
    requires m as int == Limits(count)[j] && d == Deltas(count)[j]
    ensures Rows(count, j, maxcode[j := m], delta[j := d])
  {
    RowsDef(count, j - 1, maxcode, delta);
    RowsDef(count, j, maxcode[j := m], delta[j := d]);
  }

  /** The sizes and codes of the first `n` symbols. */
  ghost predicate Listed(sizes: seq<nat>, n: nat, size: seq<byte>, code: seq<u16>, k: nat := 3)
    decreases n, k
  {
    && n <= |sizes| <= 256 && |size| == 257 && |code| == 256
    && if k > 0 then Listed(sizes, n, size, code, k - 1)
       else
         && (forall i | 0 <= i < |sizes| :: size[i] as int == sizes[i]) && size[|sizes|] == 0
         && (forall i | 0 <= i < n :: code[i] as int == Code(sizes, i))
  }

  lemma ListedDef(sizes: seq<nat>, n: nat, size: seq<byte>, code: seq<u16>)
    ensures Listed(sizes, n, size, code) <==>
            && n <= |sizes| <= 256 && |size| == 257 && |code| == 256
            && (forall i | 0 <= i < |sizes| :: size[i] as int == sizes[i]) && size[|sizes|] == 0
            && (forall i | 0 <= i < n :: code[i] as int == Code(sizes, i))
  {
    assert Listed(sizes, n, size, code, 1) == Listed(sizes, n, size, code, 0);
    assert Listed(sizes, n, size, code, 2) == Listed(sizes, n, size, code, 1);
  }

  /** The fast table with the first `n` codes entered. */
  ghost predicate FastIs(sizes: seq<nat>, n: nat, fast: seq<byte>, k: nat := 3)
    decreases n, k
  {
    && n <= |sizes| && |fast| == FAST_SIZE
    && if k > 0 then FastIs(sizes, n, fast, k - 1) else forall t | 0 <= t < FAST_SIZE ::
        fast[t] as int == FastTo(sizes, n, t)
  }

  lemma FastIsDef(sizes: seq<nat>, n: nat, fast: seq<byte>)
    ensures FastIs(sizes, n, fast) <==>
            n <= |sizes| && |fast| == FAST_SIZE && forall t | 0 <= t < FAST_SIZE ::
                fast[t] as int == FastTo(sizes, n, t)
  {
    assert FastIs(sizes, n, fast, 1) == FastIs(sizes, n, fast, 0);
    assert FastIs(sizes, n, fast, 2) == FastIs(sizes, n, fast, 1);
  }

  class JHuffman {
    const fast: array<byte>
    const code: array<u16>
    const values: array<byte>
    const size: array<byte>
    const maxcode: array<u32>
    const delta: array<int>

    constructor ()
      ensures Shape() && fresh(fast) && fresh(code) && fresh(values) && fresh(size) && fresh(maxcode) && fresh(delta)
    {
      fast := new byte[FAST_SIZE](_ => 0);
      code := new u16[256](_ => 0);
      values := new byte[256](_ => 0);
      size := new byte[257](_ => 0);
      maxcode := new u32[18](_ => 0);
      delta := new int[17](_ => 0);
    }

    ghost predicate Shape() {
      && fast.Length == FAST_SIZE && code.Length == 256 && values.Length == 256
      && size.Length == 257 && maxcode.Length == 18 && delta.Length == 17
      && fast as object != code && fast != values && fast != size && fast as object != maxcode
        && fast as object != delta
      && code as object != values && code as object != size && code as object != maxcode && code as object != delta
      && values != size && values as object != maxcode && values as object != delta
      && size as object != maxcode && size as object != delta && maxcode as object != delta
    }

    /** The tables are those of the code with `count[j - 1]` codes of `j` bits. */
    ghost predicate Built(count: seq<nat>)
      reads fast, code, size, maxcode, delta
    {
      && Shape() && |count| == 16 && Room(Sizes(count))
      && Listed(Sizes(count), |Sizes(count)|, size[..], code[..])
      && Rows(count, 16, maxcode[..], delta[..]) && maxcode[17] == 0xFFFF_FFFF
      && FastIs(Sizes(count), |Sizes(count)|, fast[..])
    }

    /** `stbi__build_huffman`: accepts exactly the counts that make at most 256 codes and leave room for them. */
    method Build(count: seq<nat>) returns (ok: bool)
      requires Shape() && |count| == 16
      modifies fast, code, size, maxcode, delta
      ensures ok <==> |Sizes(count)| <= 256 && Room(Sizes(count))
      ensures ok ==> Built(count)
    {
      ghost var sizes := Sizes(count);
      ok := ListSizes(count);
      if !ok { return; }
      ListedStart(sizes, size[..], code[..]);
      ok := AssignCodes(count);
      if !ok { return; }
      FillTable(count);
    }

    method ListSizes(count: seq<nat>) returns (ok: bool)
      requires Shape() && |count| == 16
      modifies size
      ensures ok <==> |Sizes(count)| <= 256
      ensures ok ==>
                (forall i | 0 <= i < |Sizes(count)| :: size[i] as int == Sizes(count)[i]) && size[|Sizes(count)|] == 0
    {
      var k := 0;
      IndexesFit(count);
      for i := 0 to 16
        invariant k == Index(count, i) <= 256
        invariant forall x | 0 <= x < k :: size[x] as int == SizesTo(count, i)[x]
      {
        IndexMono(count, i + 1, |count|);
        for j := 0 to count[i]
          invariant k == Index(count, i) + j <= 256
          invariant forall x | 0 <= x < k :: size[x] as int == SizesTo(count, i + 1)[x]
        {
          size[k] := i + 1;
          k := k + 1;
          if k >= 257 { return false; }
        }
      }
      size[k] := 0;
      ok := true;
    }

    /** Codes are handed out length by length. */
    method AssignCodes(count: seq<nat>) returns (ok: bool)
      requires Shape() && |count| == 16 && |Sizes(count)| <= 256 && Listed(Sizes(count), 0, size[..], code[..])
      modifies code, maxcode, delta
      ensures ok <==> Room(Sizes(count))
      ensures ok ==> Listed(Sizes(count), |Sizes(count)|, size[..], code[..])
      ensures ok ==> Rows(count, 16, maxcode[..], delta[..]) && maxcode[17] == 0xFFFF_FFFF
    {
      var c, k, j := 0, 0, 1;
      RowsDef(count, 0, maxcode[..], delta[..]);
      while j <= 16
        invariant 1 <= j <= 17 && AtRow(count, j, c, k)
        invariant Listed(Sizes(count), k, size[..], code[..]) && Rows(count, j - 1, maxcode[..], delta[..])
      {
        ok, c, k := OneRow(count, j, c, k);
        if !ok { return; }
        c := 2 * c;
        j := j + 1;
      }
      SetEnd(count);
      ok := true;
    }

    /** One round of the loop over the lengths. */
    method OneRow(count: seq<nat>, j: nat, c0: nat, k0: nat) returns (ok: bool, c: nat, k: nat)
      requires Shape() && |count| == 16 && 1 <= j <= 16 && AtRow(count, j, c0, k0)
      requires Listed(Sizes(count), k0, size[..], code[..]) && Rows(count, j - 1, maxcode[..], delta[..])
      modifies code, maxcode, delta
      ensures ok ==> AtRow(count, j + 1, 2 * c, k)
      ensures ok ==> Listed(Sizes(count), k, size[..], code[..]) && Rows(count, j, maxcode[..], delta[..])
      ensures !ok ==> !Room(Sizes(count))
    {
      ghost var m0, d0 := maxcode[..], delta[..];
      RowValues(count, j);
      var d := k0 - c0;
      ok, c, k := OneLength(count, j, c0, k0);
      LowMono(Sizes(count), k, |Sizes(count)|);
      if !ok { return; }
      AddRow(count, j, m0, d0, Shl(c, 16 - j), d);
      delta[j] := d;
      maxcode[j] := Shl(c, 16 - j);
    }

    method SetEnd(ghost count: seq<nat>)
      requires Shape() && Rows(count, 16, maxcode[..], delta[..])
      modifies maxcode
      ensures Rows(count, 16, maxcode[..], delta[..]) && maxcode[17] == 0xFFFF_FFFF
    {
      RowsDef(count, 16, maxcode[..], delta[..]);
      maxcode[17] := 0xFFFF_FFFF;
      RowsDef(count, 16, maxcode[..], delta[..]);
    }

    /** The codes of `j` bits. */
    method OneLength(count: seq<nat>, j: nat, c0: nat, k0: nat) returns (ok: bool, c: nat, k: nat)
      requires Shape() && |count| == 16 && 1 <= j <= 16 && k0 == Index(count, j - 1) && c0 == Base(count, j)
      requires k0 <= |Sizes(count)| && Low(Sizes(count), k0) <= 0x1_0000 && Listed(Sizes(count), k0, size[..], code[..])
      modifies code
      ensures k == Index(count, j) <= |Sizes(count)| && c == Base(count, j) + count[j - 1]
      ensures ok <==> Low(Sizes(count), k) <= 0x1_0000
      ensures ok ==> Listed(Sizes(count), k, size[..], code[..])
    {
      c, k := c0, k0;
      ghost var sizes := Sizes(count);
      IndexMono(count, j, |count|);
      LengthEnds(count, j);
      Sized(count, j, k, size[..], code[..], k0);
      if size[k] == j {
        while size[k] == j
          invariant k0 <= k <= Index(count, j) && c == c0 + (k - k0) && (size[k] == j <==> k < Index(count, j))
          invariant Listed(sizes, k0, size[..], code[..]) && (c <= 0x1_0000 ==> Listed(sizes, k, size[..], code[..]))
          decreases Index(count, j) - k
        {
          CodeOfBase(count, j, k);
          AddCode(sizes, k0, k, size[..], code[..], c % 0x1_0000);
          code[k] := c % 0x1_0000;
          k, c := k + 1, c + 1;
          Sized(count, j, k, size[..], code[..], k0);
        }
        if c - 1 >= Pow2(j) {
          ok := false;
          return;
        }
      }
      ok := true;
    }

    /** Fills the fast table. */
    method FillTable(count: seq<nat>)
      requires Shape() && |count| == 16 && Room(Sizes(count))
               && Listed(Sizes(count), |Sizes(count)|, size[..], code[..])
      modifies fast
      ensures FastIs(Sizes(count), |Sizes(count)|, fast[..])
    {
      ghost var sizes := Sizes(count);
      for j := 0 to FAST_SIZE
        invariant forall t | 0 <= t < j :: fast[t] == NOT_FAST
      {
        fast[j] := NOT_FAST;
      }
      FastIsDef(sizes, 0, fast[..]);
      ListedDef(sizes, |sizes|, size[..], code[..]);
      SizesOrdered(count, |count|);
      for i := 0 to |Sizes(count)|
        invariant FastIs(sizes, i, fast[..])
      {
        var s := size[i];
        ghost var f0: seq<byte> := fast[..];
        if s <= FAST_BITS {
          FastPlace(sizes, i);
          FillRange(Shl(code[i], FAST_BITS - s), Pow2(FAST_BITS - s), i);
        }
        FastStep(sizes, i, f0, fast[..]);
      }
    }

    method FillRange(c: nat, m: nat, i: byte)
      requires Shape() && c + m <= FAST_SIZE
      modifies fast
      ensures forall t | 0 <= t < FAST_SIZE :: fast[t] == if c <= t < c + m then i else old(fast[t])
    {
      for j := 0 to m
        invariant forall t | 0 <= t < FAST_SIZE :: fast[t] == if c <= t < c + j then i else old(fast[t])
      {
        fast[c + j] := i;
      }
    }
  }

  /** The variables at the start of length `j`. */
  ghost predicate AtRow(count: seq<nat>, j: nat, c: nat, k: nat) {
    && |count| == 16 && 1 <= j <= 17 && k == Index(count, j - 1) <= |Sizes(count)| && c == Base(count, j)
    && Low(Sizes(count), k) <= 0x1_0000
  }

  lemma ListedStart(sizes: seq<nat>, size: seq<byte>, code: seq<u16>)
    requires |sizes| <= 256 && |size| == 257 && |code| == 256
    requires (forall i | 0 <= i < |sizes| :: size[i] as int == sizes[i]) && size[|sizes|] == 0
    ensures Listed(sizes, 0, size, code)
  {
    ListedDef(sizes, 0, size, code);
  }

  lemma RowValues(count: seq<nat>, j: nat)
    requires |count| == 16 && 1 <= j <= 16
    ensures Index(count, j) <= |Sizes(count)|
    ensures Deltas(count)[j] == Index(count, j - 1) - Base(count, j)
    ensures Limits(count)[j] == Shl(Base(count, j) + count[j - 1], 16 - j) == Low(Sizes(count), Index(count, j))
    ensures Base(count, j + 1) == 2 * (Base(count, j) + count[j - 1])
  {
    BaseLow(count, j);
    LimitAt(count, j);
    DeltaAt(count, j);
    ShlProduct(Base(count, j) + count[j - 1], 16 - j);
  }

  lemma ShlProduct(v: nat, n: nat)
    ensures Shl(v, n) == v * Pow2(n)
  {
  }

  /** The test for the end of the codes of one length. */
  lemma LengthEnds(count: seq<nat>, j: nat)
    requires |count| == 16 && 1 <= j <= 16 && Index(count, j) <= |Sizes(count)|
    ensures Low(Sizes(count), Index(count, j)) <= 0x1_0000 <==> Base(count, j) + count[j - 1] <= Pow2(j)
    ensures Pow2(j) <= 0x1_0000
  {
    BaseLow(count, j);
    EndFits(Base(count, j) + count[j - 1], j, Low(Sizes(count), Index(count, j)));
  }

  lemma EndFits(c: nat, j: nat, end: nat)
    requires j <= 16 && end == c * Pow2(16 - j)
    ensures end <= 0x1_0000 <==> c <= Pow2(j)
    ensures Pow2(j) <= 0x1_0000
  {
    Pow2Word();
    Pow2Mono(j, 16);
    FitsIn(c, j);
  }

  lemma FitsIn(c: nat, j: nat)
    requires j <= 16
    ensures c * Pow2(16 - j) <= Pow2(16) <==> c <= Pow2(j)
  {
    var p := Pow2(16 - j);
    Pow2Add(j, 16 - j);
    if c <= Pow2(j) {
      MulMono(c, Pow2(j), p);
    } else {
      MulMono(Pow2(j) + 1, c, p);
      MulDistrib(Pow2(j), 1, p);
    }
  }

  lemma Sized(count: seq<nat>, j: nat, k: nat, size: seq<byte>, code: seq<u16>, n: nat)
    requires |count| == 16 && 1 <= j <= 16 && Index(count, j - 1) <= k <= Index(count, j) <= |Sizes(count)|
    requires Listed(Sizes(count), n, size, code)
    ensures size[k] == j <==> k < Index(count, j)
  {
    ListedDef(Sizes(count), n, size, code);
    if k < Index(count, j) {
      SizeAt(count, |count|, j, k);
    } else if k < |Sizes(count)| {
      SizeAfter(count, |count|, j, k);
    }
  }

  lemma CodeOfBase(count: seq<nat>, j: nat, k: nat)
    requires |count| == 16 && 1 <= j <= 16 && Index(count, j - 1) <= k < Index(count, j) <= |Sizes(count)|
    ensures Code(Sizes(count), k) == Base(count, j) + (k - Index(count, j - 1))
  {
    var sizes, k0, p := Sizes(count), Index(count, j - 1), Pow2(16 - j);
    SizesOrdered(count, |count|);
    BaseLow(count, j);
    forall i | k0 <= i <= k ensures sizes[i] == j { SizeAt(count, |count|, j, i); }
    LowRow(sizes, k0, k - k0, j);
    CodeLow(sizes, k);
    MulDistrib(Base(count, j), k - k0, p);
    Cancel(Code(sizes, k), Base(count, j) + (k - k0), p);
  }

  lemma Cancel(a: nat, b: nat, p: nat)
    requires p > 0 && a * p == b * p
    ensures a == b
  {
    if a < b {
      MulMono(a + 1, b, p);
      MulDistrib(a, 1, p);
    } else if b < a {
      MulMono(b + 1, a, p);
      MulDistrib(b, 1, p);
    }
  }

  lemma AddCode(sizes: seq<nat>, k0: nat, k: nat, size: seq<byte>, code: seq<u16>, c: u16)
    requires k0 <= k < |sizes| && Listed(sizes, k0, size, code)
    ensures Listed(sizes, k0, size, code[k := c])
    ensures c as int == Code(sizes, k) && Listed(sizes, k, size, code) ==> Listed(sizes, k + 1, size, code[k := c])
  {
    ListedDef(sizes, k0, size, code);
    ListedDef(sizes, k0, size, code[k := c]);
    ListedDef(sizes, k, size, code);
    ListedDef(sizes, k + 1, size, code[k := c]);
  }

  /** Where a short code goes in the fast table. */
  lemma FastPlace(sizes: seq<nat>, i: nat)
    requires Ordered(sizes) && Room(sizes) && i < |sizes| && sizes[i] <= FAST_BITS
    ensures var c, m := Shl(Code(sizes, i), FAST_BITS - sizes[i]), Pow2(FAST_BITS - sizes[i]);
            c * 128 == Low(sizes, i) && (c + m) * 128 == Low(sizes, i + 1) && c + m <= FAST_SIZE
  {
    var d, c := FAST_BITS - sizes[i], Code(sizes, i);
    CodeLow(sizes, i);
    LowMono(sizes, i + 1, |sizes|);
    Pow2Add(d, 7);
    Pow2Small();
    ShlProduct(c, d);
    MulAssoc(c, Pow2(d), 128);
    MulAssoc(c + 1, Pow2(d), 128);
    MulDistrib(c, 1, Pow2(d));
  }

  lemma FastStep(sizes: seq<nat>, i: nat, f0: seq<byte>, f: seq<byte>)
    requires Ordered(sizes) && Room(sizes) && i < |sizes| && FastIs(sizes, i, f0) && |f| == FAST_SIZE
    requires sizes[i] > FAST_BITS ==> f == f0
    requires sizes[i] <= FAST_BITS ==>
               var c, m := Shl(Code(sizes, i), FAST_BITS - sizes[i]), Pow2(FAST_BITS - sizes[i]);
               forall t | 0 <= t < FAST_SIZE :: f[t] as int == if c <= t < c + m then i else f0[t]
    ensures FastIs(sizes, i + 1, f)
  {
    FastIsDef(sizes, i, f0);
    FastIsDef(sizes, i + 1, f);
    if sizes[i] <= FAST_BITS { FastPlace(sizes, i); }
  }
}
