/** The loop of `stbi__jpeg_decode_block` over the AC coefficients, with its two ways to decode one. */
module JpegAc {
  import opened Bits
  import opened BitOps
  import opened JpegCode
  import opened JpegHuffman
  import opened JpegBits
  import opened JpegLookup
  import opened JpegReader
  import opened JpegBlock

  type Place = z: int | 0 <= z < 64

  /** `stbi__jpeg_dezigzag`: 15 more entries let a run reach past the end. */
  const DEZIGZAG: seq<Place> := [
    0, 1, 8, 16, 9, 2, 3, 10, 17, 24, 32, 25, 18, 11, 4, 5,
    12, 19, 26, 33, 40, 48, 41, 34, 27, 20, 13, 6, 7, 14, 21, 28,
    35, 42, 49, 56, 57, 50, 43, 36, 29, 22, 15, 23, 30, 37, 44, 51,
    58, 59, 52, 45, 38, 31, 39, 46, 53, 60, 61, 54, 47, 55, 62, 63,
    63, 63, 63, 63, 63, 63, 63, 63, 63, 63, 63, 63, 63, 63, 63]

  function Dezigzag(k: nat): Place
    requires k < 79
  {
    DEZIGZAG[k]
  }

  /** Conversion to `short`. */
  function Short(v: int): int { (v + 0x8000) % 0x1_0000 - 0x8000 }

  // ---------- what a block says ----------

  ghost predicate ItemsOk(sizes: seq<nat>, values: seq<byte>, items: seq<Item>) {
    forall i | 0 <= i < |items| :: ItemOk(sizes, values, items[i])
  }

  /** The items of a block from coefficient `k` on: an item without a value ends the block, unless it stands for sixteen
      zeros. */
  ghost predicate Block(sizes: seq<nat>, values: seq<byte>, items: seq<Item>, k: nat) {
    if k >= 64 then items == []
    else
      && items != [] && ItemsOk(sizes, values, items)
      && (if Last(values, items[0]) then |items| == 1 else Block(sizes, values, items[1..], NextK(values, items[0], k)))
  }

  /** How an item moves the coefficient counter. */
  ghost function NextK(values: seq<byte>, it: Item, k: nat): nat
    requires |values| == 256 && it.sym < 256
  {
    if values[it.sym] % 16 > 0 then k + values[it.sym] / 16 + 1 else k + 16
  }

  /** The item ends the block. */
  ghost predicate Last(values: seq<byte>, it: Item)
    requires |values| == 256 && it.sym < 256
  {
    values[it.sym] % 16 == 0 && values[it.sym] != 0xF0
  }

  ghost function BlockBits(sizes: seq<nat>, values: seq<byte>, items: seq<Item>): seq<bool>
    requires ItemsOk(sizes, values, items)
  {
    if items == [] then [] else ItemBits(sizes, items[0]) + BlockBits(sizes, values, items[1..])
  }

  /** The coefficients that items stand for, dequantized and in their places. */
  ghost function Coefficients(sizes: seq<nat>, values: seq<byte>, dequant: seq<nat>, items: seq<Item>, k: nat,
                              data: seq<int>): (d: seq<int>)
    requires |dequant| == 64 && |data| == 64 && ItemsOk(sizes, values, items)
    ensures |d| == 64
    decreases |items|
  {
    if items == [] || k >= 64 then data
    else Coefficients(sizes, values, dequant, items[1..], NextK(values, items[0], k),
         Effect(values, dequant, items[0], k, data))
  }

  /** What one item does to the block. */
  ghost function Effect(values: seq<byte>, dequant: seq<nat>, it: Item, k: nat, data: seq<int>): (d: seq<int>)
    requires |values| == 256 && it.sym < 256 && |it.mag| == values[it.sym] % 16 && |dequant| == 64 && |data| == 64
             && k < 64
    ensures |d| == 64
  {
    if it.mag == [] then data else WithValue(data, dequant, k + values[it.sym] / 16, Value(it))
  }

  ghost function WithValue(data: seq<int>, dequant: seq<nat>, k: nat, v: int): (d: seq<int>)
    requires |dequant| == 64 && |data| == 64 && k < 79
    ensures |d| == 64
  {
    data[Dezigzag(k) := Short(v * dequant[Dezigzag(k)])]
  }

  // ---------- one coefficient ----------

  /** Item `it` has been read off the bits `x`, which leaves `rest`. */
  ghost predicate Took(sizes: seq<nat>, values: seq<byte>, it: Item, x: seq<bool>, rest: seq<bool>) {
    ItemOk(sizes, values, it) && x == ItemBits(sizes, it) + rest
  }

  /** The accelerated way: a non-zero entry of the combined table. It fails exactly when there are fewer bits than it
      says, and otherwise takes the item that starts the bits. */
  method TakeCombined(j: JReader, entry: int, ghost sizes: seq<nat>, ghost values: seq<byte>, ghost p: seq<bool>)
    returns (ok: bool, run: nat, v: int, ghost it: Item)
    requires j.Valid() && Ordered(sizes) && Room(sizes) && |sizes| <= 256 && |values| == 256
    requires j.code_bits >= 16 || j.code_bits == |j.Rem()|
    requires |p| == 16 && p == Sixteen(j.Rem()) && entry == AcEntry(sizes, values, MsbVal(p) / 128) != 0
    modifies j`code_buffer, j`code_bits
    ensures ItemOk(sizes, values, it) && entry % 16 == |ItemBits(sizes, it)| && (ok <==> entry % 16 <= old(|j.Rem()|))
    ensures ok ==> j.Valid() && Took(sizes, values, it, old(j.Rem()), j.Rem())
    ensures ok ==> it.mag != [] && run == values[it.sym] / 16 && v == Value(it)
  {
    ghost var x := j.Rem();
    it := EntryForces(sizes, values, x, p);
    run := entry / 16 % 16;
    v := entry / 256;
    var s := entry % 16;
    ok := s <= j.code_bits;
    if !ok { return; }
    EntryMeans(sizes, values, it, x, p);
    j.Drop(s);
    CutAt(x, ItemBits(sizes, it), s);
  }

  lemma CutAt(x: seq<bool>, b: seq<bool>, s: nat)
    requires b <= x && |b| == s
    ensures x == b + x[s..]
  {
  }

  /** The plain way: a code, and the bits of its value if it has one. Unless an overlooked code comes next, it takes the
      item that starts the bits when there are enough of them, and fails when no code starts them. */
  method TakePlain(j: JReader, h: JHuffman, ghost count: seq<nat>)
    returns (rs: int, v: int, ghost it: Item, ghost x: seq<bool>)
    requires j.Valid() && h.Built(count)
    modifies j`pos, j`marker, j`nomore, j`code_buffer, j`code_bits, j`pad
    ensures old(j.pad) <= j.pad && x == old(j.Rem()) + Zeros(j.pad - old(j.pad)) && (rs >= 0 ==> j.Valid())
    ensures Clear(Sizes(count), x) && rs < 0 ==> NoCode(Sizes(count), x)
    ensures Clear(Sizes(count), x) && rs >= 0 ==>
              it.sym < |Sizes(count)| && rs == h.values[it.sym] && CodeBits(Sizes(count), it.sym) <= x
    ensures Clear(Sizes(count), x) && rs >= 0 && |x| >= Sizes(count)[it.sym] + rs % 16 ==>
              Took(Sizes(count), h.values[..], it, x, j.Rem()) && (rs % 16 > 0 ==> v == Value(it))
  {
    ghost var r0, p0, sym := j.Rem(), j.pad, 0;
    v := 0;
    rs, sym := j.Decode(h, count);
    ghost var p1 := j.pad;
    x := r0 + Zeros(p1 - p0);
    it := Item(sym, []);
    if rs < 0 { return; }
    SizesSmall(count, h);
    v, it := TakeRest(j, rs, Sizes(count), h.values[..], sym, x);
    ClearFront(Sizes(count), x, j.pad - p1);
    x := r0 + Zeros(j.pad - p0);
    PadMore(r0, p0, p1, j.pad);
  }

  lemma ClearFront(sizes: seq<nat>, x: seq<bool>, n: nat)
    ensures Clear(sizes, x + Zeros(n)) ==> Clear(sizes, x)
  {
    if |sizes| > NOT_FAST && CodeBits(sizes, NOT_FAST) <= x { assert CodeBits(sizes, NOT_FAST) <= x + Zeros(n); }
  }

  /** What follows the code, if it has a value. */
  method TakeRest(j: JReader, rs: nat, ghost sizes: seq<nat>, ghost values: seq<byte>, ghost sym: nat,
                  ghost x0: seq<bool>)
    returns (v: int, ghost it: Item)
    requires j.Valid() && |values| == 256
    modifies j`pos, j`marker, j`nomore, j`code_buffer, j`code_bits, j`pad
    ensures j.Valid() && old(j.pad) <= j.pad && it.sym == sym
    ensures sym < |sizes| <= 256 && rs == values[sym] && x0 == CodeBits(sizes, sym) + old(j.Rem()) ==>
              var x := x0 + Zeros(j.pad - old(j.pad));
              && CodeBits(sizes, sym) <= x
              && (|x| >= sizes[sym] + rs % 16 ==>
                  Took(sizes, values, it, x, j.Rem()) && (rs % 16 > 0 ==> v == Value(it)))
  {
    ghost var y, p := j.Rem(), j.pad;
    it, v := Item(sym, []), 0;
    if rs % 16 > 0 { v, it := TakeMagnitude(j, rs % 16, sym); }
    RestTaken(sizes, values, sym, rs, x0, y, j.pad - p, it, v, j.Rem());
  }

  /** The code and what was taken after it make the item. */
  lemma RestTaken(sizes: seq<nat>, values: seq<byte>, sym: nat, rs: nat, x0: seq<bool>, y: seq<bool>, d: nat, it: Item,
                  v: int,
                  rest: seq<bool>)
    requires |values| == 256 && it.sym == sym && (rs % 16 == 0 ==> d == 0 && it.mag == [] && rest == y)
    requires rs % 16 > 0 && |y| + d >= rs % 16 ==>
               it.mag == (y + Zeros(d))[..rs % 16] && rest == (y + Zeros(d))[rs % 16..] && v == Value(it)
    ensures sym < |sizes| <= 256 && rs == values[sym] && x0 == CodeBits(sizes, sym) + y ==>
              && CodeBits(sizes, sym) <= x0 + Zeros(d)
              && (|x0| + d >= sizes[sym] + rs % 16 ==>
                    Took(sizes, values, it, x0 + Zeros(d), rest) && (rs % 16 > 0 ==> v == Value(it)))
  {
    if sym < |sizes| <= 256 && rs == values[sym] && x0 == CodeBits(sizes, sym) + y {
      PadFront(CodeBits(sizes, sym), y, d);
      if rs % 16 > 0 {
        CodeAndValue(sizes, it, x0 + Zeros(d), y + Zeros(d), rs % 16);
      } else {
        CodeAlone(sizes, sym, x0, y);
        assert x0 + Zeros(0) == x0;
      }
    }
  }

  /** The bits of a value. */
  method TakeMagnitude(j: JReader, n: nat, ghost sym: nat) returns (v: int, ghost it: Item)
    requires j.Valid() && 1 <= n <= 15
    modifies j`pos, j`marker, j`nomore, j`code_buffer, j`code_bits, j`pad
    ensures j.Valid() && old(j.pad) <= j.pad && it.sym == sym
    ensures var y := old(j.Rem()) + Zeros(j.pad - old(j.pad));
            |y| >= n ==> it.mag == y[..n] && j.Rem() == y[n..] && v == Value(it)
  {
    ghost var r, p := j.Rem(), j.pad;
    v := j.ExtendReceive(n);
    ghost var y := r + Zeros(j.pad - p);
    it := Item(sym, if |y| >= n then y[..n] else []);
  }

  lemma SizesSmall(count: seq<nat>, h: JHuffman)
    requires h.Built(count)
    ensures |Sizes(count)| <= 256
  {
    ListedDef(Sizes(count), |Sizes(count)|, h.size[..], h.code[..]);
  }

  lemma CodeAlone(sizes: seq<nat>, sym: nat, x: seq<bool>, y: seq<bool>)
    requires sym < |sizes| && x == CodeBits(sizes, sym) + y
    ensures x == ItemBits(sizes, Item(sym, [])) + y
  {
    assert ItemBits(sizes, Item(sym, [])) == CodeBits(sizes, sym);
  }

  lemma CodeAndValue(sizes: seq<nat>, it: Item, x: seq<bool>, y: seq<bool>, n: nat)
    requires it.sym < |sizes| && x == CodeBits(sizes, it.sym) + y && (n <= |y| ==> it.mag == y[..n])
    ensures CodeBits(sizes, it.sym) <= x && |x| == sizes[it.sym] + |y|
    ensures n <= |y| ==> x == ItemBits(sizes, it) + y[n..]
  {
    if n <= |y| { assert y == y[..n] + y[n..]; }
  }

  // ---------- the loop ----------

  method Store(data: array<int>, dequant: seq<nat>, k: nat, v: int)
    requires data.Length == 64 == |dequant| && k < 79
    modifies data
    ensures data[..] == WithValue(old(data[..]), dequant, k, v)
  {
    var zig := Dezigzag(k);
    data[zig] := Short(v * dequant[zig]);
  }

  /** One round of the loop: whichever way it goes, it takes the item that comes next. */
  method Round(j: JReader, hac: JHuffman, fac: array<int>, data: array<int>, dequant: seq<nat>, k: nat,
               ghost count: seq<nat>, ghost it: Item, ghost more: seq<bool>)
    returns (ok: bool, last: bool, k': nat)
    requires j.Valid() && hac.Built(count)
    requires AcTable(fac[..], Sizes(count), hac.values[..]) && data.Length == 64 == |dequant| && k < 64
    requires data != fac && data != hac.delta && ItemOk(Sizes(count), hac.values[..], it)
             && !Overlooked(Sizes(count), it.sym)
    requires j.Rem() == ItemBits(Sizes(count), it) + more
    modifies j`pos, j`marker, j`nomore, j`code_buffer, j`code_bits, j`pad, data
    ensures ok && j.Valid() && old(j.pad) <= j.pad && j.Rem() == more + Zeros(j.pad - old(j.pad))
    ensures last == Last(hac.values[..], it) && (!last ==> k' == NextK(hac.values[..], it, k))
    ensures data[..] == Effect(hac.values[..], dequant, it, k, old(data[..]))
  {
    ghost var sizes, values: seq<byte> := Sizes(count), hac.values[..];
    SizesOrdered(count, |count|);
    var entry;
    ghost var p;
    entry, p := Look(j, fac, sizes, values, ItemBits(sizes, it), more);
    ghost var d := j.pad - old(j.pad);
    ok, last, k' := true, false, k;
    if entry != 0 {
      k' := Combined(j, data, dequant, k, entry, sizes, values, it, more + Zeros(d), p);
    } else {
      last, k' := Plain(j, hac, data, dequant, k, count, it, more + Zeros(d));
      PadTail(more, d, j.pad - old(j.pad));
    }
  }

  /** Fills the window and looks up the combined entry. */
  method Look(j: JReader, fac: array<int>, ghost sizes: seq<nat>, ghost values: seq<byte>, ghost front: seq<bool>,
              ghost more: seq<bool>)
    returns (entry: int, ghost p: seq<bool>)
    requires j.Valid() && AcTable(fac[..], sizes, values) && j.Rem() == front + more
    modifies j`pos, j`marker, j`nomore, j`code_buffer, j`code_bits, j`pad
    ensures j.Valid() && old(j.pad) <= j.pad && j.Rem() == front + (more + Zeros(j.pad - old(j.pad)))
    ensures j.code_bits >= 16 || j.code_bits == |j.Rem()|
    ensures p == Sixteen(j.Rem()) && entry == AcEntry(sizes, values, MsbVal(p) / 128)
  {
    if j.code_bits < 16 { j.GrowBuffer(); }
    PadFront(front, more, j.pad - old(j.pad));
    p := j.Peek(16);
    Pow2Word();
    entry := FirstEntry(j.code_buffer, fac, sizes, values, p);
  }

  /** The combined entry at the first nine bits of the window. */
  method FirstEntry(code_buffer: nat, fac: array<int>, ghost sizes: seq<nat>, ghost values: seq<byte>,
                    ghost p: seq<bool>)
    returns (entry: int)
    requires code_buffer < Pow2(32) && AcTable(fac[..], sizes, values) && Shr(code_buffer, 16) == MsbVal(p) < 0x1_0000
    ensures entry == AcEntry(sizes, values, MsbVal(p) / 128)
  {
    NineBits(code_buffer);
    entry := fac[And(Shr(code_buffer, 32 - FAST_BITS), Mask(FAST_BITS))];
  }

  lemma PadFront(a: seq<bool>, b: seq<bool>, n: nat)
    ensures a + b + Zeros(n) == a + (b + Zeros(n)) && b + Zeros(0) == b
  {
  }

  lemma PadTail(x: seq<bool>, m: nat, n: nat)
    requires m <= n
    ensures x + Zeros(m) + Zeros(n - m) == x + Zeros(n)
  {
  }

  lemma SameRest(a: seq<bool>, b: seq<bool>, c: seq<bool>)
    requires a + b == a + c
    ensures b == c
  {
    assert b == (a + b)[|a|..];
    assert c == (a + c)[|a|..];
  }

  method Combined(j: JReader, data: array<int>, dequant: seq<nat>, k: nat, entry: int, ghost sizes: seq<nat>,
                  ghost values: seq<byte>,
                  ghost it: Item, ghost rest: seq<bool>, ghost p: seq<bool>)
    returns (k': nat)
    requires j.Valid() && Ordered(sizes) && Room(sizes) && |sizes| <= 256 && |values| == 256
    requires j.code_bits >= 16 || j.code_bits == |j.Rem()|
    requires |p| == 16 && p == Sixteen(j.Rem()) && entry == AcEntry(sizes, values, MsbVal(p) / 128) != 0
    requires Took(sizes, values, it, j.Rem(), rest) && data.Length == 64 == |dequant| && k < 64
    modifies j`code_buffer, j`code_bits, data
    ensures j.Valid() && j.Rem() == rest && k' == NextK(values, it, k) && !Last(values, it)
    ensures data[..] == Effect(values, dequant, it, k, old(data[..]))
  {
    ghost var x := j.Rem();
    assert ItemBits(sizes, it) <= x;
    EntryMeans(sizes, values, it, x, p);
    var ok, run, v;
    ghost var found;
    ok, run, v, found := TakeCombined(j, entry, sizes, values, p);
    OneItem(sizes, values, it, found, x);
    SameRest(ItemBits(sizes, it), rest, j.Rem());
    Store(data, dequant, k + run, v);
    k' := k + run + 1;
  }

  method Plain(j: JReader, hac: JHuffman, data: array<int>, dequant: seq<nat>, k: nat, ghost count: seq<nat>,
               ghost it: Item, ghost rest: seq<bool>)
    returns (last: bool, k': nat)
    requires j.Valid() && hac.Built(count)
    requires Took(Sizes(count), hac.values[..], it, j.Rem(), rest) && data.Length == 64 == |dequant| && k < 64
    requires data != hac.delta && !Overlooked(Sizes(count), it.sym)
    modifies j`pos, j`marker, j`nomore, j`code_buffer, j`code_bits, j`pad, data
    ensures j.Valid() && old(j.pad) <= j.pad && j.Rem() == rest + Zeros(j.pad - old(j.pad))
    ensures last == Last(hac.values[..], it) && (!last ==> k' == NextK(hac.values[..], it, k))
    ensures data[..] == Effect(hac.values[..], dequant, it, k, old(data[..]))
  {
    ghost var sizes, values: seq<byte>, x0, p0 := Sizes(count), hac.values[..], j.Rem(), j.pad;
    SizesOrdered(count, |count|);
    var rs, v;
    ghost var found, x;
    rs, v, found, x := TakePlain(j, hac, count);
    ItemClear(sizes, values, it, rest, x0, j.pad - p0);
    PlainItem(sizes, values, it, rest, x, x0, j.pad - p0, found, rs);
    SameRest(ItemBits(sizes, it), rest + Zeros(j.pad - p0), j.Rem());
    var s, r := rs % 16, rs / 16;
    last, k' := false, k;
    if s == 0 {
      if rs != 0xF0 { last := true; } else { k' := k + 16; }
    } else {
      Store(data, dequant, k + r, v);
      k' := k + r + 1;
    }
  }

  /** If an item comes next that is not overlooked, no overlooked code comes next. */
  lemma ItemClear(sizes: seq<nat>, values: seq<byte>, it: Item, rest: seq<bool>, x0: seq<bool>, d: nat)
    requires Ordered(sizes) && Room(sizes) && Took(sizes, values, it, x0, rest) && !Overlooked(sizes, it.sym)
    ensures Clear(sizes, x0 + Zeros(d))
  {
    var x := x0 + Zeros(d);
    assert x == ItemBits(sizes, it) + (rest + Zeros(d));
    Front(sizes, it, x);
    if |sizes| > NOT_FAST && CodeBits(sizes, NOT_FAST) <= x { PrefixFree(sizes, it.sym, NOT_FAST, x); }
  }

  /** With enough bits the plain way takes the item that is there. */
  lemma PlainItem(sizes: seq<nat>, values: seq<byte>, it: Item, rest: seq<bool>, x: seq<bool>, x0: seq<bool>, d: nat,
                  found: Item, rs: int)
    requires Ordered(sizes) && Room(sizes) && Took(sizes, values, it, x0, rest) && x == x0 + Zeros(d)
    requires rs < 0 ==> NoCode(sizes, x)
    requires rs >= 0 ==> found.sym < |sizes| && rs == values[found.sym] && CodeBits(sizes, found.sym) <= x
    requires rs >= 0 && |x| >= sizes[found.sym] + rs % 16 ==>
               ItemOk(sizes, values, found) && ItemBits(sizes, found) <= x
    ensures rs >= 0 && found == it && x == ItemBits(sizes, it) + (rest + Zeros(d))
  {
    assert x == ItemBits(sizes, it) + (rest + Zeros(d));
    Front(sizes, it, x);
    if rs >= 0 {
      PrefixFree(sizes, it.sym, found.sym, x);
      OneItem(sizes, values, it, found, x);
    }
  }

  /** No item has an overlooked code. */
  ghost predicate NoneOverlooked(sizes: seq<nat>, items: seq<Item>) {
    forall i | 0 <= i < |items| :: items[i].sym < |sizes| && !Overlooked(sizes, items[i].sym)
  }

  /** What remains of a block after its first item. */
  lemma BlockStep(sizes: seq<nat>, values: seq<byte>, dequant: seq<nat>, items: seq<Item>, k: nat, data: seq<int>,
                  more: seq<bool>)
    requires Block(sizes, values, items, k) && k < 64 && |dequant| == 64 == |data|
    ensures ItemsOk(sizes, values, items) && ItemsOk(sizes, values, items[1..])
    ensures BlockBits(sizes, values, items) + more == ItemBits(sizes, items[0])
            + (BlockBits(sizes, values, items[1..]) + more)
    ensures Coefficients(sizes, values, dequant, items, k, data)
         == Coefficients(sizes, values, dequant, items[1..], NextK(values, items[0], k),
           Effect(values, dequant, items[0], k, data))
    ensures if Last(values, items[0]) then items[1..] == []
            else Block(sizes, values, items[1..], NextK(values, items[0], k))
  {
  }

  /** The decoder is in front of `items`, at coefficient `k`, with `data` so far on the way to `goal`; it has ended if
      there is nothing left. */
  ghost predicate Before(sizes: seq<nat>, values: seq<byte>, dequant: seq<nat>, items: seq<Item>, k: nat,
                         data: seq<int>,
                         goal: seq<int>, x: seq<bool>, more: seq<bool>, going: bool)
    requires |dequant| == 64 == |data|
  {
    && ItemsOk(sizes, values, items) && NoneOverlooked(sizes, items) && x == BlockBits(sizes, values, items) + more
    && goal == Coefficients(sizes, values, dequant, items, k, data)
    && (if going then k < 64 && Block(sizes, values, items, k) else items == [])
  }

  lemma BeforeNext(sizes: seq<nat>, values: seq<byte>, dequant: seq<nat>, items: seq<Item>, k: nat, data: seq<int>,
                   goal: seq<int>, x: seq<bool>, more: seq<bool>, d: nat, x': seq<bool>)
    requires |dequant| == 64 == |data| && Before(sizes, values, dequant, items, k, data, goal, x, more, true)
    requires x' == BlockBits(sizes, values, items[1..]) + more + Zeros(d)
    ensures var k', last := NextK(values, items[0], k), Last(values, items[0]);
            Before(sizes, values, dequant, items[1..], k', Effect(values, dequant, items[0], k, data), goal, x',
              more + Zeros(d),
                   !last && k' < 64)
  {
    BlockStep(sizes, values, dequant, items, k, data, more);
    assert x' == BlockBits(sizes, values, items[1..]) + (more + Zeros(d));
  }

  /** One item off the front of a block. */
  method TakeItem(j: JReader, hac: JHuffman, fac: array<int>, data: array<int>, dequant: seq<nat>, k: nat,
                  ghost count: seq<nat>, ghost left: seq<Item>, ghost goal: seq<int>, ghost more: seq<bool>,
                    ghost pad0: nat)
    returns (ok: bool, last: bool, k': nat)
    requires j.Valid() && hac.Built(count)
    requires AcTable(fac[..], Sizes(count), hac.values[..]) && data.Length == 64 == |dequant| && data != fac
             && data != hac.delta
    requires pad0 <= j.pad
    requires Before(Sizes(count), hac.values[..], dequant, left, k, data[..], goal, j.Rem(), more + Zeros(j.pad - pad0),
             true)
    modifies j`pos, j`marker, j`nomore, j`code_buffer, j`code_bits, j`pad, data
    ensures ok && j.Valid() && old(j.pad) <= j.pad && left != []
    ensures Before(Sizes(count), hac.values[..], dequant, left[1..], k', data[..], goal, j.Rem(),
            more + Zeros(j.pad - pad0),
                   !last && k' < 64)
  {
    ghost var sizes, values: seq<byte> := Sizes(count), hac.values[..];
    ghost var p1, x, d0, tail := j.pad, j.Rem(), data[..], more + Zeros(j.pad - pad0);
    BlockStep(sizes, values, dequant, left, k, d0, tail);
    ok, last, k' := Round(j, hac, fac, data, dequant, k, count, left[0], BlockBits(sizes, values, left[1..]) + tail);
    BeforeNext(sizes, values, dequant, left, k, d0, goal, x, tail, j.pad - p1, j.Rem());
    PadTail(more, p1 - pad0, j.pad - pad0);
  }

  /** The AC half of `stbi__jpeg_decode_block`: from data that hold a block, exactly its coefficients come out, and
      exactly its bits are used up, whichever table answers. */
  method DecodeAc(j: JReader, hac: JHuffman, fac: array<int>, data: array<int>, dequant: seq<nat>,
                  ghost count: seq<nat>, ghost items: seq<Item>, ghost more: seq<bool>)
    returns (ok: bool)
    requires j.Valid() && hac.Built(count)
    requires AcTable(fac[..], Sizes(count), hac.values[..]) && data.Length == 64 == |dequant| && data != fac
             && data != hac.delta
    requires Block(Sizes(count), hac.values[..], items, 1) && NoneOverlooked(Sizes(count), items)
    requires j.Rem() == BlockBits(Sizes(count), hac.values[..], items) + more
    modifies j`pos, j`marker, j`nomore, j`code_buffer, j`code_bits, j`pad, data
    ensures ok && j.Valid() && old(j.pad) <= j.pad && j.Rem() == more + Zeros(j.pad - old(j.pad))
    ensures data[..] == Coefficients(Sizes(count), hac.values[..], dequant, items, 1, old(data[..]))
  {
    ghost var sizes, values: seq<byte>, pad0 := Sizes(count), hac.values[..], j.pad;
    ghost var left, goal := items, Coefficients(sizes, values, dequant, items, 1, data[..]);
    PadTail(more, 0, 0);
    var k, going := 1, true;
    ok := true;
    while going
      invariant j.Valid() && hac.Built(count) && hac.values[..] == values && AcTable(fac[..], sizes, values) && ok
      invariant pad0 <= j.pad
      invariant Before(sizes, values, dequant, left, k, data[..], goal, j.Rem(), more + Zeros(j.pad - pad0), going)
      decreases |left|
    {
      var last, k';
      ok, last, k' := TakeItem(j, hac, fac, data, dequant, k, count, left, goal, more, pad0);
      if !ok { return; }
      left := left[1..];
      k, going := k', !last && k' < 64;
    }
  }

  /** The code and the combined entries of an AC table. */
  method AcTables(count: seq<nat>, values: seq<byte>) returns (hac: JHuffman, fac: array<int>)
    requires |count| == 16 && |values| == 256 && |Sizes(count)| <= 256 && Room(Sizes(count))
    ensures hac.Built(count) && hac.values[..] == values && AcTable(fac[..], Sizes(count), values)
  {
    hac := new JHuffman();
    var ok := hac.Build(count);
    for i := 0 to 256
      invariant hac.Built(count) && forall k | 0 <= k < i :: hac.values[k] == values[k]
    {
      hac.values[i] := values[i];
    }
    assert hac.values[..] == values;
    fac := new int[FAST_SIZE](_ => 0);
    BuildFastAc(fac, hac, count);
  }

  /** Both tables built, and the first block of a scan decoded. */
  method DecodeFirst(input: seq<byte>, count: seq<nat>, values: seq<byte>, dequant: seq<nat>, ghost items: seq<Item>,
                     ghost more: seq<bool>)
    returns (ok: bool, data: array<int>)
    requires |count| == 16 && |values| == 256 && |dequant| == 64
    requires |Sizes(count)| <= 256 && Room(Sizes(count))
    requires Block(Sizes(count), values, items, 1) && NoneOverlooked(Sizes(count), items)
    requires MsbBytes(Coded(input, 0)) == BlockBits(Sizes(count), values, items) + more
    ensures ok && data.Length == 64 && data[..] == Coefficients(Sizes(count), values, dequant, items, 1,
            seq(64, _ => 0))
  {
    var hac, fac := AcTables(count, values);
    var j := new JReader(input);
    data := new int[64](_ => 0);
    assert data[..] == seq(64, _ => 0);
    ok := DecodeAc(j, hac, fac, data, dequant, count, items, more);
  }
}
