/** Run-length coding of Radiance HDR scan lines: each of the four byte planes is coded on its own. */
module HdrRle {
  import opened Sequences
  import opened Bits
  import opened BitOps
  import opened ByteInput

  datatype Packet = Dump(bytes: seq<byte>) | Run(n: nat, v: byte)

  /** A packet the writer may send and the reader accepts. */
  ghost predicate Legal(p: Packet) {
    match p
    case Dump(bytes) => 1 <= |bytes| <= 128
    case Run(n, _) => 1 <= n <= 127
  }

  function Repeat(v: byte, n: nat): (s: seq<byte>)
    ensures |s| == n && forall i | 0 <= i < n :: s[i] == v
  {
    seq(n, _ => v)
  }

  ghost function Plain(p: Packet): seq<byte> {
    match p
    case Dump(bytes) => bytes
    case Run(n, v) => Repeat(v, n)
  }

  ghost function Bytes(p: Packet): (b: seq<byte>)
    requires Legal(p)
    ensures |b| >= 2
  {
    match p
    case Dump(bytes) => [|bytes|] + bytes
    case Run(n, v) => [n + 128, v]
  }

  ghost predicate AllLegal(ps: seq<Packet>) { forall i | 0 <= i < |ps| :: Legal(ps[i]) }

  ghost function AllPlain(ps: seq<Packet>): seq<byte> { if ps == [] then [] else Plain(ps[0]) + AllPlain(ps[1..]) }

  ghost function AllBytes(ps: seq<Packet>): seq<byte>
    requires AllLegal(ps)
  {
    if ps == [] then [] else Bytes(ps[0]) + AllBytes(ps[1..])
  }

  lemma {:induction false} Snoc(ps: seq<Packet>, p: Packet)
    requires AllLegal(ps) && Legal(p)
    ensures AllLegal(ps + [p])
    ensures AllPlain(ps + [p]) == AllPlain(ps) + Plain(p) && AllBytes(ps + [p]) == AllBytes(ps) + Bytes(p)
  {
    if ps == [] {
      assert ([] + [p])[1..] == [];
    } else {
      Snoc(ps[1..], p);
      assert (ps + [p])[1..] == ps[1..] + [p];
      Regrouped(Plain(ps[0]), AllPlain(ps[1..]), Plain(p));
      Regrouped(Bytes(ps[0]), AllBytes(ps[1..]), Bytes(p));
    }
  }

  // ---------- the writer ----------

  /** The plane up to `x` has been written as the packets `ps`. */
  ghost predicate Written(comp: seq<byte>, x: nat, start: seq<byte>, out: seq<byte>, ps: seq<Packet>) {
    x <= |comp| && AllLegal(ps) && AllPlain(ps) == comp[..x] && out == start + AllBytes(ps)
  }

  lemma WrittenMore(comp: seq<byte>, x: nat, start: seq<byte>, out: seq<byte>, ps: seq<Packet>, p: Packet)
    requires Written(comp, x, start, out, ps) && Legal(p)
    requires x + |Plain(p)| <= |comp| && Plain(p) == comp[x..x + |Plain(p)|]
    ensures Written(comp, x + |Plain(p)|, start, out + Bytes(p), ps + [p])
  {
    Snoc(ps, p);
    Pieces(comp, x, |Plain(p)|);
    Regrouped(start, AllBytes(ps), Bytes(p));
  }

  lemma Pieces(comp: seq<byte>, x: nat, n: nat)
    requires x + n <= |comp|
    ensures comp[..x] + comp[x..x + n] == comp[..x + n]
  {
  }

  /** The start of the next run of three equal bytes, or the end of the plane. */
  method FindRun(comp: seq<byte>, x: nat) returns (r: nat)
    requires x <= |comp|
    ensures x <= r <= |comp|
    ensures if r + 2 < |comp| then comp[r] == comp[r + 1] == comp[r + 2] else r == |comp|
  {
    r := x;
    while r + 2 < |comp|
      invariant x <= r <= |comp|
    {
      if comp[r] == comp[r + 1] && comp[r] == comp[r + 2] { break; }
      r := r + 1;
    }
    if r + 2 >= |comp| { r := |comp|; }
  }

  /** Dumps everything before position `r`. */
  method DumpTo(comp: seq<byte>, from: nat, r: nat, before: seq<byte>, ghost start: seq<byte>,
                ghost before_ps: seq<Packet>)
    returns (out: seq<byte>, ghost ps: seq<Packet>)
    requires from <= r <= |comp| && Written(comp, from, start, before, before_ps)
    ensures Written(comp, r, start, out, ps)
  {
    out, ps := before, before_ps;
    var x := from;
    while x < r
      invariant from <= x <= r && Written(comp, x, start, out, ps)
    {
      var len := r - x;
      if len > 128 { len := 128; }
      WrittenMore(comp, x, start, out, ps, Dump(comp[x..x + len]));
      ps := ps + [Dump(comp[x..x + len])];
      out := out + ([len] + comp[x..x + len]);
      x := x + len;
    }
  }

  /** Sends the equal bytes before position `r` as runs. */
  method RunTo(comp: seq<byte>, from: nat, r: nat, before: seq<byte>, ghost start: seq<byte>,
               ghost before_ps: seq<Packet>)
    returns (out: seq<byte>, ghost ps: seq<Packet>)
    requires from < r <= |comp| && Written(comp, from, start, before, before_ps)
    requires forall i | from <= i < r :: comp[i] == comp[from]
    ensures Written(comp, r, start, out, ps)
  {
    out, ps := before, before_ps;
    var x := from;
    while x < r
      invariant from <= x <= r && Written(comp, x, start, out, ps)
    {
      var len := r - x;
      if len > 127 { len := 127; }
      assert Repeat(comp[x], len) == comp[x..x + len];
      WrittenMore(comp, x, start, out, ps, Run(len, comp[x]));
      ps := ps + [Run(len, comp[x])];
      out := out + [len + 128, comp[x]];
      x := x + len;
    }
  }

  /** One plane of `stbiw__write_hdr_scanline`. Every round makes progress, and every packet length is in range. */
  method WritePlane(comp: seq<byte>, start: seq<byte>) returns (out: seq<byte>, ghost ps: seq<Packet>)
    ensures AllLegal(ps) && AllPlain(ps) == comp && out == start + AllBytes(ps)
  {
    out, ps := start, [];
    var x := 0;
    while x < |comp|
      invariant 0 <= x <= |comp| && Written(comp, x, start, out, ps)
      decreases |comp| - x
    {
      var r := FindRun(comp, x);
      out, ps := DumpTo(comp, x, r, out, start, ps);
      x := r;
      if r + 2 < |comp| {
        while r < |comp| && comp[r] == comp[x]
          invariant x <= r <= |comp| && forall i | x <= i < r :: comp[i] == comp[x]
          decreases |comp| - r
        {
          r := r + 1;
        }
        out, ps := RunTo(comp, x, r, out, start, ps);
        x := r;
      }
    }
    assert comp[..|comp|] == comp;
  }

  // ---------- the reader ----------

  /** From `pos` on the input consists of the packets `ps` and then `rest`. */
  ghost predicate Ahead(input: seq<byte>, pos: nat, ps: seq<Packet>, rest: seq<byte>) {
    pos <= |input| && AllLegal(ps) && input[pos..] == AllBytes(ps) + rest
  }

  lemma AheadFirst(input: seq<byte>, pos: nat, ps: seq<Packet>, rest: seq<byte>)
    requires Ahead(input, pos, ps, rest) && ps != []
    ensures pos + |Bytes(ps[0])| <= |input| && input[pos..pos + |Bytes(ps[0])|] == Bytes(ps[0])
    ensures Ahead(input, pos + |Bytes(ps[0])|, ps[1..], rest)
  {
    var b, more := Bytes(ps[0]), AllBytes(ps[1..]) + rest;
    Regrouped(b, AllBytes(ps[1..]), rest);
    Front(input, pos, b, more);
  }

  /** Plane `k` of the scan line is right up to position `i`. */
  ghost predicate Filled(scan: seq<byte>, k: nat, plane: seq<byte>, i: nat) {
    forall z | 0 <= z < i && z < |plane| && z * 4 + k < |scan| :: scan[z * 4 + k] == plane[z]
  }

  /** The other planes are as before. */
  ghost predicate OthersKept(scan: seq<byte>, before: seq<byte>, k: nat) {
    |scan| == |before| && forall j | 0 <= j < |scan| && j % 4 != k :: scan[j] == before[j]
  }

  /** What is expected of the rest of a plane. */
  ghost predicate Expected(input: seq<byte>, pos: nat, plane: seq<byte>, i: nat, ps: seq<Packet>, rest: seq<byte>) {
    Ahead(input, pos, ps, rest) && i <= |plane| && AllPlain(ps) == plane[i..]
  }

  /** One packet of a plane. */
  method ReadPacket(input: seq<byte>, pos: nat, scan: array<byte>, width: nat, k: nat, i: nat,
                    ghost plane: seq<byte>, ghost ps: seq<Packet>, ghost rest: seq<byte>)
    returns (ok: bool, pos': nat, i': nat)
    requires scan.Length == 4 * width && k < 4 && i < width && |plane| == width && Filled(scan[..], k, plane, i)
    modifies scan
    ensures OthersKept(scan[..], old(scan[..]), k)
    ensures ok ==> i < i' <= width
    ensures Expected(input, pos, plane, i, ps, rest)
            ==> ok && ps != [] && Filled(scan[..], k, plane, i') && Expected(input, pos', plane, i', ps[1..], rest)
  {
    ghost var good := Expected(input, pos, plane, i, ps, rest);
    if good { FirstPacket(input, pos, plane, i, ps, rest); }
    ok, pos', i' := false, pos + 1, i;
    var nleft := width - i;
    var count: int := Get8(input, pos);
    if count > 128 {
      var value := Get8(input, pos + 1);
      pos' := pos + 2;
      count := count - 128;
      if count == 0 || count > nleft { return; }
      FillRun(scan, width, k, i, count, value, plane, good);
    } else {
      if count == 0 || count > nleft { return; }
      FillDump(input, pos + 1, scan, width, k, i, count, plane, good);
      pos' := pos + 1 + count;
    }
    i' := i + count;
    ok := true;
  }

  method FillRun(scan: array<byte>, width: nat, k: nat, i: nat, count: nat, value: byte, ghost plane: seq<byte>,
                 ghost good: bool)
    requires scan.Length == 4 * width && k < 4 && i + count <= width == |plane| && Filled(scan[..], k, plane, i)
    requires good ==> forall z | 0 <= z < count :: plane[i..][z] == value
    modifies scan
    ensures OthersKept(scan[..], old(scan[..]), k) && (good ==> Filled(scan[..], k, plane, i + count))
  {
    for z := 0 to count
      invariant OthersKept(scan[..], old(scan[..]), k) && (good ==> Filled(scan[..], k, plane, i + z))
    {
      SlotOf(i + z, k);
      assert good ==> plane[i + z] == plane[i..][z];
      scan[(i + z) * 4 + k] := value;
    }
  }

  method FillDump(input: seq<byte>, pos: nat, scan: array<byte>, width: nat, k: nat, i: nat, count: nat,
                  ghost plane: seq<byte>, ghost good: bool)
    requires scan.Length == 4 * width && k < 4 && i + count <= width == |plane| && Filled(scan[..], k, plane, i)
    requires good ==> forall z | 0 <= z < count :: plane[i..][z] == Get8(input, pos + z)
    modifies scan
    ensures OthersKept(scan[..], old(scan[..]), k) && (good ==> Filled(scan[..], k, plane, i + count))
  {
    for z := 0 to count
      invariant OthersKept(scan[..], old(scan[..]), k) && (good ==> Filled(scan[..], k, plane, i + z))
    {
      SlotOf(i + z, k);
      assert good ==> plane[i + z] == plane[i..][z];
      scan[(i + z) * 4 + k] := Get8(input, pos + z);
    }
  }

  lemma SlotOf(i: nat, k: nat)
    requires k < 4
    ensures (i * 4 + k) % 4 == k
  {
  }

  /** What the expected packet looks like to the reader. */
  lemma FirstPacket(input: seq<byte>, pos: nat, plane: seq<byte>, i: nat, ps: seq<Packet>, rest: seq<byte>)
    requires Expected(input, pos, plane, i, ps, rest) && i < |plane|
    ensures ps != []
    ensures var count: int := Get8(input, pos);
            && 0 < count && count != 128 + 128
            && if count > 128 then
                 && count - 128 <= |plane| - i && Expected(input, pos + 2, plane, i + (count - 128), ps[1..], rest)
                 && forall z | 0 <= z < count - 128 :: plane[i..][z] == Get8(input, pos + 1)
               else
                 && count <= |plane| - i && Expected(input, pos + 1 + count, plane, i + count, ps[1..], rest)
                 && forall z | 0 <= z < count :: plane[i..][z] == Get8(input, pos + 1 + z)
  {
    AheadFirst(input, pos, ps, rest);
    Front(plane, i, Plain(ps[0]), AllPlain(ps[1..]));
    match ps[0] {
      case Dump(bytes) => DumpAhead(input, pos, plane, i, bytes);
      case Run(m, v) => RunAhead(input, pos, plane, i, m, v);
    }
  }

  lemma DumpAhead(input: seq<byte>, pos: nat, plane: seq<byte>, i: nat, bytes: seq<byte>)
    requires 1 <= |bytes| <= 128 && i + |bytes| <= |plane| && plane[i..i + |bytes|] == bytes
    requires pos + 1 + |bytes| <= |input| && input[pos..pos + 1 + |bytes|] == [|bytes|] + bytes
    ensures Get8(input, pos) == |bytes| && forall z | 0 <= z < |bytes| :: plane[i..][z] == Get8(input, pos + 1 + z)
  {
    var b := input[pos..pos + 1 + |bytes|];
    assert input[pos] == b[0];
    forall z | 0 <= z < |bytes| ensures plane[i..][z] == Get8(input, pos + 1 + z) {
      assert input[pos + 1 + z] == b[1 + z] == bytes[z];
      assert plane[i..i + |bytes|][z] == bytes[z];
    }
  }

  lemma RunAhead(input: seq<byte>, pos: nat, plane: seq<byte>, i: nat, m: nat, v: byte)
    requires 1 <= m <= 127 && i + m <= |plane| && plane[i..i + m] == Repeat(v, m)
    requires pos + 2 <= |input| && input[pos..pos + 2] == [m + 128, v]
    ensures Get8(input, pos) == m + 128 && Get8(input, pos + 1) == v && forall z | 0 <= z < m :: plane[i..][z] == v
  {
    var b := input[pos..pos + 2];
    assert input[pos] == b[0] && input[pos + 1] == b[1];
    forall z | 0 <= z < m ensures plane[i..][z] == v { assert plane[i..i + m][z] == v; }
  }

  /** One plane of the reader; the bytes go to every fourth place of the scan line. */
  method ReadPlane(input: seq<byte>, start: nat, scan: array<byte>, width: nat, k: nat,
                   ghost plane: seq<byte>, ghost wanted: seq<Packet>, ghost rest: seq<byte>)
    returns (ok: bool, pos: nat)
    requires scan.Length == 4 * width && k < 4 && |plane| == width
    modifies scan
    ensures OthersKept(scan[..], old(scan[..]), k)
    ensures Expected(input, start, plane, 0, wanted, rest)
            ==> ok && Filled(scan[..], k, plane, width) && pos <= |input| && input[pos..] == rest
  {
    ghost var ps := wanted;
    ghost var good := Expected(input, start, plane, 0, wanted, rest);
    pos := start;
    var i := 0;
    while width - i > 0
      invariant 0 <= i <= width && OthersKept(scan[..], old(scan[..]), k)
      invariant good ==> Filled(scan[..], k, plane, i) && Expected(input, pos, plane, i, ps, rest)
    {
      ghost var ps1 := ps;
      ghost var p1: seq<byte> := if good then plane else ScanPlane(scan[..], k, width);
      ok, pos, i := ReadPacket(input, pos, scan, width, k, i, p1, ps1, rest);
      if !ok { return; }
      ps := if ps == [] then [] else ps[1..];
    }
    if good { NoMore(ps); }
    ok := true;
  }

  /** Plane `k` of a scan line. */
  ghost function ScanPlane(scan: seq<byte>, k: nat, width: nat): (p: seq<byte>)
    requires |scan| == 4 * width && k < 4
    ensures |p| == width && Filled(scan, k, p, width)
  {
    seq(width, z requires 0 <= z < width => scan[z * 4 + k])
  }

  lemma NoMore(ps: seq<Packet>)
    requires AllLegal(ps) && AllPlain(ps) == []
    ensures ps == [] && AllBytes(ps) == []
  {
  }

  // ---------- whole scan lines ----------

  /** A scan line whose planes are those of `line` is `line`. */
  lemma SameLine(line: seq<byte>, scan: seq<byte>, width: nat)
    requires |line| == |scan| == 4 * width
    requires forall k | 0 <= k < 4 :: Filled(scan, k, ScanPlane(line, k, width), width)
    ensures scan == line
  {
    forall j | 0 <= j < |line| ensures scan[j] == line[j] {
      var z, k := j / 4, j % 4;
      assert scan[z * 4 + k] == ScanPlane(line, k, width)[z];
    }
  }

  /** The scan line header: two marker bytes and the width. */
  function HeaderBytes(width: nat): (h: seq<byte>)
    requires width < 0x8000
    ensures |h| == 4
  {
    [2, 2, width / 256, width % 256]
  }

  lemma WidthBytes(width: nat)
    requires width < 0x8000
    ensures Shr(And(width, 0xff00), 8) == width / 256 && And(width, 0xff) == width % 256
    ensures And(width / 256, 0x80) == 0
    ensures Or(Shl(width / 256, 8), width % 256) == width
  {
    var q: nat := width / 256;
    Pow2Small();
    assert 0xff00 == Shl(0xff, 8);
    AndShl(width, 0xff, 8);
    ShrDiv(width, 8);
    AndMask(q, 8);
    ShrShl(q, 8);
    AndMask(width, 8);
    assert 0x80 == Shl(1, 7);
    AndShl(q, 1, 7);
    ShrDiv(q, 7);
    OrShifted(width % 256, 8, q);
    OrComm(Shl(q, 8), width % 256);
  }

  // Packet lists of several planes.

  ghost predicate PlanesLegal(coded: seq<seq<Packet>>) { forall c | 0 <= c < |coded| :: AllLegal(coded[c]) }

  ghost function PlaneBytes(coded: seq<seq<Packet>>): seq<byte>
    requires PlanesLegal(coded)
  {
    if coded == [] then [] else AllBytes(coded[0]) + PlaneBytes(coded[1..])
  }

  lemma {:induction false} PlaneSnoc(coded: seq<seq<Packet>>, ps: seq<Packet>)
    requires PlanesLegal(coded) && AllLegal(ps)
    ensures PlanesLegal(coded + [ps]) && PlaneBytes(coded + [ps]) == PlaneBytes(coded) + AllBytes(ps)
  {
    if coded == [] {
      assert ([] + [ps])[1..] == [];
    } else {
      PlaneSnoc(coded[1..], ps);
      assert (coded + [ps])[1..] == coded[1..] + [ps];
      Regrouped(AllBytes(coded[0]), PlaneBytes(coded[1..]), AllBytes(ps));
    }
  }

  /** The packets `coded` stand for the first planes of `line`. */
  ghost predicate Codes(line: seq<byte>, width: nat, coded: seq<seq<Packet>>) {
    && |line| == 4 * width && |coded| <= 4 && PlanesLegal(coded)
    && forall c | 0 <= c < |coded| :: AllPlain(coded[c]) == ScanPlane(line, c, width)
  }

  /** Plane `c` stands in the scratch buffer as far as pixel `x`. */
  ghost predicate Scattered(scratch: seq<byte>, line: seq<byte>, width: nat, c: nat, x: nat)
    requires |line| == 4 * width && c < 4 && x <= width
  {
    width * c + x <= |scratch| && scratch[width * c..width * c + x] == ScanPlane(line, c, width)[..x]
  }

  /** The scratch buffer with the four bytes of pixel `x` put into it. */
  ghost function Column(s: seq<byte>, line: seq<byte>, width: nat, x: nat): (r: seq<byte>)
    requires |s| == |line| == 4 * width && x < width
    ensures |r| == |s|
  {
    s[x := line[4 * x]][x + width := line[4 * x + 1]][x + 2 * width := line[4 * x + 2]]
      [x + 3 * width := line[4 * x + 3]]
  }

  lemma ColumnAt(s: seq<byte>, line: seq<byte>, width: nat, x: nat, c: nat)
    requires |s| == |line| == 4 * width && x < width && c < 4
    ensures width * c + x < |s| && Column(s, line, width, x)[width * c + x] == line[4 * x + c]
    ensures forall j | width * c <= j < width * c + x :: Column(s, line, width, x)[j] == s[j]
  {
    if c == 0 {
    } else if c == 1 {
    } else if c == 2 {
    } else {
    }
  }

  lemma ColumnStep(s: seq<byte>, line: seq<byte>, width: nat, x: nat, c: nat)
    requires |s| == |line| == 4 * width && x < width && c < 4 && Scattered(s, line, width, c, x)
    ensures Scattered(Column(s, line, width, x), line, width, c, x + 1)
  {
    var r, o := Column(s, line, width, x), width * c;
    PlaneFits(width, c);
    ColumnAt(s, line, width, x, c);
    assert r[o..o + x] == s[o..o + x];
    assert r[o..o + (x + 1)] == s[o..o + x] + [r[o + x]];
  }

  /** The scan line as planes, one after the other: the writer's scratch buffer. */
  method ToScratch(line: seq<byte>, width: nat) returns (scratch: array<byte>)
    requires |line| == 4 * width
    ensures fresh(scratch) && scratch.Length == 4 * width
    ensures forall c | 0 <= c < 4 :: Scattered(scratch[..], line, width, c, width)
  {
    scratch := new byte[4 * width](_ => 0);
    forall c | 0 <= c < 4 ensures Scattered(scratch[..], line, width, c, 0) { PlaneFits(width, c); }
    for x := 0 to width
      invariant forall c | 0 <= c < 4 :: Scattered(scratch[..], line, width, c, x)
    {
      ghost var s: seq<byte> := scratch[..];
      ghost var t, next := Column(s, line, width, x), x + 1;
      forall c | 0 <= c < 4 ensures Scattered(t, line, width, c, next) { ColumnStep(s, line, width, x, c); }
      scratch[x] := line[4 * x];
      scratch[x + width] := line[4 * x + 1];
      scratch[x + 2 * width] := line[4 * x + 2];
      scratch[x + 3 * width] := line[4 * x + 3];
      assert scratch[..] == Column(s, line, width, x);
    }
  }

  /** `stbiw__write_hdr_scanline` for widths that are coded, from the four bytes of each pixel. */
  method WriteScanline(line: seq<byte>, width: nat) returns (out: seq<byte>, ghost coded: seq<seq<Packet>>)
    requires 8 <= width < 0x8000 && |line| == 4 * width
    ensures |coded| == 4 && Codes(line, width, coded) && out == HeaderBytes(width) + PlaneBytes(coded)
  {
    WidthBytes(width);
    var buffer := ToScratch(line, width);
    var scratch: seq<byte> := buffer[..];
    out := [2, 2, Shr(And(width, 0xff00), 8), And(width, 0xff)];
    coded := [];
    ghost var ps;
    for c := 0 to 4
      invariant |coded| == c && Codes(line, width, coded) && out == HeaderBytes(width) + PlaneBytes(coded)
    {
      PlaneFits(width, c);
      assert Scattered(scratch, line, width, c, width);
      out, ps := WritePlane(scratch[width * c..width * c + width], out);
      PlaneSnoc(coded, ps);
      Regrouped(HeaderBytes(width), PlaneBytes(coded), AllBytes(ps));
      coded := coded + [ps];
    }
  }

  lemma PlaneFits(width: nat, c: nat)
    requires c < 4
    ensures width * c + width <= 4 * width
  {
  }

  datatype Outcome = Line | NotCoded | BadLength | Corrupt

  /** One scan line of the reader: marker bytes, width, and four planes. */
  method ReadScanline(input: seq<byte>, start: nat, width: nat, scan: array<byte>,
                      ghost line: seq<byte>, ghost coded: seq<seq<Packet>>, ghost rest: seq<byte>)
    returns (res: Outcome, pos: nat)
    requires 8 <= width < 0x8000 && scan.Length == 4 * width == |line| && |coded| == 4 && Codes(line, width, coded)
    requires start <= |input|
    modifies scan
    ensures input[start..] == (HeaderBytes(width) + PlaneBytes(coded)) + rest
            ==> res == Line && scan[..] == line && pos <= |input| && input[pos..] == rest
  {
    ghost var good := input[start..] == (HeaderBytes(width) + PlaneBytes(coded)) + rest;
    WidthBytes(width);
    if good { HeaderAhead(input, start, HeaderBytes(width), PlaneBytes(coded) + rest, PlaneBytes(coded), rest); }
    var c1, c2, len := Get8(input, start), Get8(input, start + 1), Get8(input, start + 2);
    pos := start + 3;
    if c1 != 2 || c2 != 2 || And(len, 0x80) != 0 { return NotCoded, pos; }
    if Or(Shl(len, 8), Get8(input, pos)) != width { return BadLength, pos; }
    var ok;
    ok, pos := ReadPlanes(input, pos + 1, width, scan, line, coded, rest);
    res := if ok then Line else Corrupt;
  }

  /** The four planes of a scan line, one after another. */
  method ReadPlanes(input: seq<byte>, start: nat, width: nat, scan: array<byte>,
                    ghost line: seq<byte>, ghost coded: seq<seq<Packet>>, ghost rest: seq<byte>)
    returns (ok: bool, pos: nat)
    requires 8 <= width < 0x8000 && scan.Length == 4 * width == |line| && |coded| == 4 && Codes(line, width, coded)
    modifies scan
    ensures start <= |input| && input[start..] == PlaneBytes(coded) + rest
            ==> ok && scan[..] == line && pos <= |input| && input[pos..] == rest
  {
    ghost var good := start <= |input| && input[start..] == PlaneBytes(coded) + rest;
    ghost var left := coded;
    pos := start;
    for k := 0 to 4
      invariant left == coded[k..]
      invariant good ==> pos <= |input| && input[pos..] == PlaneBytes(left) + rest
      invariant good ==> forall c | 0 <= c < k :: Filled(scan[..], c, ScanPlane(line, c, width), width)
    {
      if good { Regrouped(AllBytes(left[0]), PlaneBytes(left[1..]), rest); }
      ghost var before: seq<byte> := scan[..];
      ok, pos := ReadPlane(input, pos, scan, width, k, ScanPlane(line, k, width), left[0],
        PlaneBytes(left[1..]) + rest);
      if !ok { return; }
      forall c | 0 <= c < k && good ensures Filled(scan[..], c, ScanPlane(line, c, width), width) {
        StillFilled(before, scan[..], c, k, ScanPlane(line, c, width), width);
      }
      left := left[1..];
    }
    ok := true;
    if good { SameLine(line, scan[..], width); }
  }

  lemma StillFilled(before: seq<byte>, scan: seq<byte>, c: nat, k: nat, plane: seq<byte>, n: nat)
    requires Filled(before, c, plane, n) && OthersKept(scan, before, k) && c != k && c < 4
    ensures Filled(scan, c, plane, n)
  {
    forall z | 0 <= z < n && z < |plane| && z * 4 + c < |scan| ensures scan[z * 4 + c] == plane[z] { SlotOf(z, c); }
  }

  lemma HeaderAhead(input: seq<byte>, start: nat, h: seq<byte>, more: seq<byte>, a: seq<byte>, b: seq<byte>)
    requires start <= |input| && |h| == 4 && more == a + b && input[start..] == (h + a) + b
    ensures start + 4 <= |input| && input[start + 4..] == more
    ensures forall i | 0 <= i < 4 :: Get8(input, start + i) == h[i]
  {
    Regrouped(h, a, b);
    var s := input[start..];
    assert s == h + more;
    forall i | 0 <= i < 4 ensures Get8(input, start + i) == h[i] { assert input[start + i] == s[i]; }
    assert input[start + 4..] == s[4..];
  }

  /** Every scan line of 8 to 32767 pixels is read back as it was, whatever follows it. */
  method WriteAndRead(line: seq<byte>, width: nat, rest: seq<byte>) returns (res: Outcome, scan: array<byte>, pos: nat)
    requires 8 <= width < 0x8000 && |line| == 4 * width
    ensures res == Line && scan[..] == line
  {
    var out;
    ghost var coded;
    out, coded := WriteScanline(line, width);
    scan := new byte[4 * width](_ => 0);
    assert (out + rest)[0..] == out + rest;
    res, pos := ReadScanline(out + rest, 0, width, scan, line, coded, rest);
  }
}
