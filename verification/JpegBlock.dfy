/** The AC coefficients of a JPEG block (ITU-T T.81, F.2.2.2), with the table that decodes a short code and its value
    in one look-up. */
module JpegBlock {
  import opened Bits
  import opened BitOps
  import opened JpegCode
  import opened JpegHuffman
  import opened JpegBits
  import opened JpegLookup
  import opened JpegReader

  // ---------- the combined table ----------

  /** The entry for nine bits of value `t`: the value, the run of zeros and the number of bits of a coefficient that
      fits in them; zero if none does. */
  ghost function AcEntry(sizes: seq<nat>, values: seq<byte>, t: nat): int
    requires |values| == 256
  {
    var e := FastTo(sizes, |sizes|, t);
    if e >= NOT_FAST || e >= |sizes| then 0
    else
      var run, mag, len := values[e] / 16, values[e] % 16, sizes[e];
      if mag == 0 || len + mag > FAST_BITS then 0
      else
        var v := Extend(MsbVal(MsbBits(t, FAST_BITS)[len..len + mag]), mag);
        if -128 <= v <= 127 then v * 256 + run * 16 + len + mag else 0
  }

  ghost predicate AcTable(fast_ac: seq<int>, sizes: seq<nat>, values: seq<byte>) {
    |fast_ac| == FAST_SIZE && |values| == 256 && forall t | 0 <= t < FAST_SIZE ::
        fast_ac[t] == AcEntry(sizes, values, t)
  }

  /** Shifting the index cuts the value's bits out of it. */
  lemma CutOut(t: nat, len: nat, mag: nat)
    requires t < FAST_SIZE && len + mag <= FAST_BITS
    ensures Shr(And(Shl(t, len), Mask(FAST_BITS)), FAST_BITS - mag) == MsbVal(MsbBits(t, FAST_BITS)[len..len + mag])
  {
    Pow2Small();
    AndMask(Shl(t, len), 9);
    ShiftWord(t, 9, len);
    var b := MsbBits(t, 9);
    var u := Shl(t, len) % 512;
    TopBits(u, 9, mag);
    assert (b[len..] + Zeros(len))[..mag] == b[len..len + mag];
  }

  /** `stbi__build_fast_ac` */
  method BuildFastAc(fast_ac: array<int>, h: JHuffman, ghost count: seq<nat>)
    requires h.Built(count) && fast_ac.Length == FAST_SIZE && fast_ac != h.delta
    modifies fast_ac
    ensures AcTable(fast_ac[..], Sizes(count), h.values[..])
  {
    for i := 0 to FAST_SIZE
      invariant forall t | 0 <= t < i :: fast_ac[t] == AcEntry(Sizes(count), h.values[..], t)
      invariant h.Built(count)
    {
      fast_ac[i] := EntryFor(h, count, i);
    }
  }

  method EntryFor(h: JHuffman, ghost count: seq<nat>, i: nat) returns (entry: int)
    requires h.Built(count) && i < FAST_SIZE
    ensures entry == AcEntry(Sizes(count), h.values[..], i)
  {
    ghost var sizes := Sizes(count);
    FastIsDef(sizes, |sizes|, h.fast[..]);
    ListedDef(sizes, |sizes|, h.size[..], h.code[..]);
    SizesOrdered(count, |count|);
    FastInRange(sizes, 128 * i);
    assert 128 * i / 128 == i;
    var fast: nat := h.fast[i];
    entry := 0;
    if fast < 255 {
      var rs: nat := h.values[fast];
      var run, magbits, len: nat := rs / 16, rs % 16, h.size[fast];
      if magbits != 0 && len + magbits <= FAST_BITS {
        CutOut(i, len, magbits);
        var k: int := Shr(And(Shl(i, len), Mask(FAST_BITS)), FAST_BITS - magbits);
        var m := Pow2(magbits - 1);
        if k < m { k := k - Pow2(magbits) + 1; }
        if -128 <= k <= 127 { entry := k * 256 + run * 16 + (len + magbits); }
      }
    }
  }

  /** A symbol and the bits of its value. */
  datatype Item = Item(sym: nat, mag: seq<bool>)

  ghost predicate ItemOk(sizes: seq<nat>, values: seq<byte>, it: Item) {
    && |values| == 256 && |sizes| <= 256 && it.sym < |sizes| && |it.mag| == values[it.sym] % 16
  }

  function ItemBits(sizes: seq<nat>, it: Item): seq<bool>
    requires it.sym < |sizes|
  {
    CodeBits(sizes, it.sym) + it.mag
  }

  /** The value of an item with bits. */
  function Value(it: Item): int
    requires it.mag != []
  {
    Extend(MsbVal(it.mag), |it.mag|)
  }

  /** Only one item starts the bits. */
  lemma OneItem(sizes: seq<nat>, values: seq<byte>, a: Item, b: Item, x: seq<bool>)
    requires Ordered(sizes) && Room(sizes) && ItemOk(sizes, values, a) && ItemOk(sizes, values, b)
    requires ItemBits(sizes, a) <= x && ItemBits(sizes, b) <= x
    ensures a == b
  {
    Front(sizes, a, x);
    Front(sizes, b, x);
    PrefixFree(sizes, a.sym, b.sym, x);
  }

  lemma Front(sizes: seq<nat>, it: Item, x: seq<bool>)
    requires it.sym < |sizes| && ItemBits(sizes, it) <= x
    ensures CodeBits(sizes, it.sym) <= x && x[sizes[it.sym]..|ItemBits(sizes, it)|] == it.mag
  {
    var b := ItemBits(sizes, it);
    assert x[..sizes[it.sym]] == x[..|b|][..sizes[it.sym]];
    assert x[sizes[it.sym]..|b|] == x[..|b|][sizes[it.sym]..];
  }

  /** When an item starts the bits, its entry is non-zero exactly when it fits in nine bits, has a value, the value fits
      in eight bits, and its code is not overlooked; and then the entry tells the item's run, value and length. */
  lemma EntryMeans(sizes: seq<nat>, values: seq<byte>, it: Item, x: seq<bool>, p: seq<bool>)
    requires Ordered(sizes) && Room(sizes) && ItemOk(sizes, values, it) && ItemBits(sizes, it) <= x
    requires |p| == 16 && p == Sixteen(x)
    ensures var r, s := AcEntry(sizes, values, MsbVal(p) / 128), |ItemBits(sizes, it)|;
            && (r != 0 <==> it.mag != [] && s <= FAST_BITS && -128 <= Value(it) <= 127 && !Overlooked(sizes, it.sym))
            && (r != 0 ==> r / 256 == Value(it) && r / 16 % 16 == values[it.sym] / 16 && r % 16 == s)
  {
    var v, len, mag := MsbVal(p), sizes[it.sym], |it.mag|;
    ItemAhead(sizes, it, x, p);
    CodeStarts(sizes, it.sym, p);
    FastOwner(sizes, it.sym, v);
    if mag > 0 && len + mag <= FAST_BITS {
      NinePrefix(p, len, mag);
      Unpack(Value(it), values[it.sym] / 16, len + mag);
    }
  }

  /** A non-zero entry comes from an item: if there are as many bits as the entry says, that item starts them. */
  lemma EntryForces(sizes: seq<nat>, values: seq<byte>, x: seq<bool>, p: seq<bool>) returns (it: Item)
    requires Ordered(sizes) && Room(sizes) && |sizes| <= 256 && |values| == 256
    requires |p| == 16 && p == Sixteen(x) && AcEntry(sizes, values, MsbVal(p) / 128) != 0
    ensures ItemOk(sizes, values, it) && AcEntry(sizes, values, MsbVal(p) / 128) % 16 == |ItemBits(sizes, it)|
            <= FAST_BITS
    ensures |ItemBits(sizes, it)| <= |x| ==> ItemBits(sizes, it) <= x
  {
    var v := MsbVal(p);
    FastMeaning(sizes, |sizes|, v, v / 128);
    var e := FastTo(sizes, |sizes|, v / 128);
    CodeStarts(sizes, e, p);
    var len, mag := sizes[e], values[e] % 16;
    it := Item(e, p[len..len + mag]);
    Unpack(Extend(MsbVal(MsbBits(v / 128, FAST_BITS)[len..len + mag]), mag), values[e] / 16, len + mag);
    ItemInFront(CodeBits(sizes, e), it.mag, x, p);
  }

  lemma ItemInFront(code: seq<bool>, mag: seq<bool>, x: seq<bool>, p: seq<bool>)
    requires p == Sixteen(x) && code <= p && |code| + |mag| <= 16 && mag == p[|code|..|code| + |mag|]
    ensures |code| + |mag| <= |x| ==> code + mag <= x
  {
    if |code| + |mag| <= |x| {
      assert p[..|code| + |mag|] == x[..|code| + |mag|];
      assert p[..|code| + |mag|] == p[..|code|] + p[|code|..|code| + |mag|];
    }
  }

  /** Sixteen bits ahead show a short item whole. */
  lemma ItemAhead(sizes: seq<nat>, it: Item, x: seq<bool>, p: seq<bool>)
    requires it.sym < |sizes| && ItemBits(sizes, it) <= x && |p| == 16 && p == Sixteen(x)
    ensures sizes[it.sym] <= 16 ==> CodeBits(sizes, it.sym) <= p
    ensures |ItemBits(sizes, it)| <= 16 ==> p[sizes[it.sym]..|ItemBits(sizes, it)|] == it.mag
  {
    var b := ItemBits(sizes, it);
    if sizes[it.sym] <= 16 { assert p[..sizes[it.sym]] == x[..|b|][..sizes[it.sym]]; }
    if |b| <= 16 { assert p[..|b|] == x[..|b|]; assert p[sizes[it.sym]..|b|] == p[..|b|][sizes[it.sym]..]; }
  }

  /** The three fields of an entry; the shifts of a negative number round down. */
  lemma Unpack(v: int, run: int, s: int)
    requires 0 <= run < 16 && 0 <= s < 16
    ensures var r := v * 256 + run * 16 + s; r / 256 == v && r / 16 % 16 == run && r % 16 == s
  {
    assert v * 256 + run * 16 + s == (v * 16 + run) * 16 + s;
  }

  lemma NinePrefix(p: seq<bool>, len: nat, mag: nat)
    requires |p| == 16 && len + mag <= FAST_BITS
    ensures MsbBits(MsbVal(p) / 128, FAST_BITS)[len..len + mag] == p[len..len + mag]
  {
    Pow2Small();
    MsbPrefix(p, 9);
    ShrDiv(MsbVal(p), 7);
    MsbBitsVal(p[..9]);
    assert p[..9][len..len + mag] == p[len..len + mag];
  }
}
