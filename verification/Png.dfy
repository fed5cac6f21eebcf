/** PNG image data for 8-bit samples without interlacing: all lines filtered, compressed, inflated and unfiltered. */
module Png {
  import opened Bits
  import opened SizeChecks
  import opened PngFilter
  import opened Zlib
  import Compress
  import Inflating = InflateStream

  // An image is a list of lines of equal length.

  ghost predicate Image(rows: seq<seq<byte>>, len: nat) { forall j | 0 <= j < |rows| :: |rows[j]| == len }

  /** The line above line `j`; above the first there are zeros. */
  function LineAbove(rows: seq<seq<byte>>, len: nat, j: nat): (up: seq<byte>)
    requires Image(rows, len) && j <= |rows|
    ensures |up| == len
  {
    if j == 0 then ZeroLine(len) else rows[j - 1]
  }

  /** Where the data of line `j` start: each line has a filter type and `len` samples. */
  function Start(len: nat, j: nat): nat { if j == 0 then 0 else Start(len, j - 1) + 1 + len }

  lemma {:induction false} StartProduct(len: nat, j: nat)
    ensures Start(len, j) == j * (len + 1)
  {
    if j > 0 {
      StartProduct(len, j - 1);
      MulDistrib(j - 1, 1, len + 1);
    }
  }

  lemma {:induction false} StartMono(len: nat, j: nat, h: nat)
    requires j < h
    ensures Start(len, j) + 1 + len == Start(len, j + 1) <= Start(len, h)
    decreases h
  {
    if j + 1 < h { StartMono(len, j, h - 1); }
  }

  /** The filtered data of the first `k` lines, each preceded by its filter type. */
  function FilteredRows(rows: seq<seq<byte>>, len: nat, n: nat, fts: seq<nat>, k: nat): (d: seq<byte>)
    requires Image(rows, len) && n > 0 && k <= |rows| == |fts| && forall j | 0 <= j < |fts| :: fts[j] < 5
    ensures |d| == Start(len, k)
  {
    if k == 0 then []
    else
      FilteredRows(rows, len, n, fts, k - 1) + [fts[k - 1]]
        + Filtered(fts[k - 1], rows[k - 1], LineAbove(rows, len, k - 1), n)
  }

  /** The lines one after the other. */
  function Flat(rows: seq<seq<byte>>): seq<byte> {
    if rows == [] then [] else Flat(rows[..|rows| - 1]) + rows[|rows| - 1]
  }

  lemma {:induction false} EarlierRows(rows: seq<seq<byte>>, len: nat, n: nat, fts: seq<nat>, k: nat, j: nat)
    requires Image(rows, len) && n > 0 && j <= k <= |rows| == |fts| && forall i | 0 <= i < |fts| :: fts[i] < 5
    ensures FilteredRows(rows, len, n, fts, j) <= FilteredRows(rows, len, n, fts, k)
    decreases k
  {
    if j < k { EarlierRows(rows, len, n, fts, k - 1, j); }
  }

  /** Line `j` of the data `raw` is that of `rows`, filtered. */
  ghost predicate RowIs(raw: seq<byte>, rows: seq<seq<byte>>, len: nat, n: nat, fts: seq<nat>, j: nat)
    requires Image(rows, len) && n > 0 && j < |rows| == |fts|
  {
    && Start(len, j) + 1 + len <= |raw| && raw[Start(len, j)] == fts[j] < 5
    && raw[Start(len, j) + 1..Start(len, j) + 1 + len] == Filtered(fts[j], rows[j], LineAbove(rows, len, j), n)
  }

  lemma RowAt(raw: seq<byte>, rows: seq<seq<byte>>, len: nat, n: nat, fts: seq<nat>, k: nat, j: nat)
    requires Image(rows, len) && n > 0 && j < k <= |rows| == |fts| && forall i | 0 <= i < |fts| :: fts[i] < 5
    requires FilteredRows(rows, len, n, fts, k) <= raw
    ensures RowIs(raw, rows, len, n, fts, j)
  {
    var front, line := FilteredRows(rows, len, n, fts, j), Filtered(fts[j], rows[j], LineAbove(rows, len, j), n);
    EarlierRows(rows, len, n, fts, k, j + 1);
    assert FilteredRows(rows, len, n, fts, j + 1) == front + [fts[j]] + line;
    PrefixTrans(front + [fts[j]] + line, FilteredRows(rows, len, n, fts, k), raw);
    RowEnd(front, fts[j], line, raw);
  }

  lemma PrefixTrans(a: seq<byte>, b: seq<byte>, c: seq<byte>)
    requires a <= b <= c
    ensures a <= c
  {
  }

  lemma RowEnd(front: seq<byte>, ft: byte, line: seq<byte>, raw: seq<byte>)
    requires front + [ft] + line <= raw
    ensures |front| + 1 + |line| <= |raw| && raw[|front|] == ft && raw[|front| + 1..|front| + 1 + |line|] == line
  {
    var d := front + [ft] + line;
    assert raw[..|d|] == d;
    assert raw[|front|] == raw[..|d|][|front|];
    assert raw[|front| + 1..|d|] == raw[..|d|][|front| + 1..];
  }

  // ---------- the writer ----------

  /** The filtering loop of `stbi_write_png_to_mem`. */
  method FilterImage(rows: seq<seq<byte>>, len: nat, n: nat, force: int) returns (filt: seq<byte>, ghost fts: seq<nat>)
    requires Image(rows, len) && 0 < n <= len && (0 <= force < 5 || 128 * len < 0x7FFF_FFFF)
    ensures |fts| == |rows| && (forall j | 0 <= j < |fts| :: fts[j] < 5)
            && filt == FilteredRows(rows, len, n, fts, |rows|)
  {
    var force_filter := if force >= 5 then -1 else force;
    var line := new byte[len](_ => 0);
    filt, fts := [], seq(|rows|, _ => 0);
    for j := 0 to |rows|
      invariant |fts| == |rows| && (forall i | 0 <= i < |fts| :: fts[i] < 5)
      invariant filt == FilteredRows(rows, len, n, fts, j)
    {
      var up := if j == 0 then ZeroLine(len) else rows[j - 1];
      var ft := ChooseFilter(rows[j], up, j == 0, n, force_filter, line);
      TypesKept(rows, len, n, fts, fts[j := ft], j);
      fts := fts[j := ft];
      filt := filt + [ft] + line[..];
    }
  }

  lemma {:induction false} TypesKept(rows: seq<seq<byte>>, len: nat, n: nat, a: seq<nat>, b: seq<nat>, k: nat)
    requires Image(rows, len) && n > 0 && k <= |rows| == |a| == |b| && a[..k] == b[..k]
    requires (forall i | 0 <= i < |a| :: a[i] < 5) && (forall i | 0 <= i < |b| :: b[i] < 5)
    ensures FilteredRows(rows, len, n, a, k) == FilteredRows(rows, len, n, b, k)
  {
    if k > 0 {
      assert a[..k - 1] == a[..k][..k - 1] && b[..k - 1] == b[..k][..k - 1];
      TypesKept(rows, len, n, a, b, k - 1);
      assert a[k - 1] == a[..k][k - 1] == b[k - 1];
    }
  }

  // ---------- the reader ----------

  /** The two halves of the filter buffer. */
  function Half(j: nat, len: nat): (c: nat)
    ensures c == 0 || c == len
  {
    if j % 2 == 0 then 0 else len
  }

  /** The filter type of line `j` is one of the five. */
  ghost predicate TypeOk(raw: seq<byte>, len: nat, j: nat) { Start(len, j) < |raw| && raw[Start(len, j)] <= 4 }

  /** The samples of line `j` as they stand in the data. */
  function LineData(raw: seq<byte>, len: nat, j: nat): (d: seq<byte>)
    requires Start(len, j) + 1 + len <= |raw|
    ensures |d| == len
  {
    raw[Start(len, j) + 1..Start(len, j) + 1 + len]
  }

  /** The first `k` lines, each unfiltered with the one above. */
  ghost function Lines(raw: seq<byte>, len: nat, n: nat, k: nat): (rows: seq<seq<byte>>)
    requires n > 0 && Start(len, k) <= |raw|
    ensures |rows| == k && Image(rows, len)
  {
    if k == 0 then []
    else
      var before := Lines(raw, len, n, k - 1);
      before + [Unfiltered(raw[Start(len, k - 1)], LineData(raw, len, k - 1), LineAbove(before, len, k - 1), n)]
  }

  /** Reading what the writer wrote gives back the lines. */
  lemma {:induction false} LinesOfFiltered(raw: seq<byte>, rows: seq<seq<byte>>, len: nat, n: nat, fts: seq<nat>,
                                           k: nat)
    requires n > 0 && Image(rows, len) && k <= |rows| == |fts| && Start(len, k) <= |raw|
    requires forall j | 0 <= j < k :: RowIs(raw, rows, len, n, fts, j)
    ensures Lines(raw, len, n, k) == rows[..k]
  {
    if k > 0 {
      LinesOfFiltered(raw, rows, len, n, fts, k - 1);
      assert RowIs(raw, rows, len, n, fts, k - 1);
      var up := LineAbove(rows, len, k - 1);
      UnfilterFiltered(fts[k - 1], rows[k - 1], up, n, len);
      assert rows[k - 1][..len] == rows[k - 1];
      assert LineAbove(Lines(raw, len, n, k - 1), len, k - 1) == up;
    }
  }

  predicate TooShort(raw: seq<byte>, len: nat, h: nat): (short: bool)
    ensures short == (|raw| < Start(len, h))
  {
    StartProduct(len, h);
    |raw| < (len + 1) * h
  }

  /** The reader's guards for `h` lines of `x` pixels of `n` bytes. */
  predicate Guarded(x: nat, n: nat, h: nat): (fits: bool)
    requires n > 0
    ensures fits <==> 8 * (x * n) + 7 <= INT_MAX && x * n * (h + 1) <= INT_MAX
  {
    GuardsMean(x, n, h);
    Mad3Valid(x, h, n, 0) && Mad3Valid(n, x, 8, 7) && Mad2Valid(n * x, h, n * x) && Mad2Valid(n * x, 2, 0)
  }

  lemma GuardsMean(x: nat, n: nat, h: nat)
    requires n > 0
    ensures Mad3Valid(x, h, n, 0) <==> x * n * h <= INT_MAX
    ensures Mad3Valid(n, x, 8, 7) <==> 8 * (x * n) + 7 <= INT_MAX
    ensures Mad2Valid(n * x, h, n * x) <==> x * n * (h + 1) <= INT_MAX
    ensures Mad2Valid(n * x, 2, 0) <==> 2 * (x * n) <= INT_MAX
    ensures x * n * h <= x * n * (h + 1)
  {
    Mad3Meaning(x, h, n, 0);
    Mad3Meaning(n, x, 8, 7);
    Mad2Meaning(n * x, h, n * x);
    Mad2Meaning(n * x, 2, 0);
    Products(x, n, h);
  }

  lemma Products(x: nat, n: nat, h: nat)
    ensures x * h * n == x * n * h && n * x == x * n && n * x * h + n * x == x * n * (h + 1)
  {
    MulAssoc(x, h, n);
    MulAssoc(x, n, h);
    Commuted(h, n);
    Commuted(n, x);
    Commuted(x * n, h + 1);
    MulDistrib(h, 1, x * n);
    Commuted(h, x * n);
  }

  /** `stbi__create_png_image_raw` for 8-bit samples with as many output channels as there are in the file. The
      halves of the filter buffer alternate between the line and the one above it. */
  method UnfilterImage(raw: seq<byte>, x: nat, n: nat, h: nat) returns (ok: bool, out: seq<byte>)
    requires 0 < n && 0 < x
    ensures ok <==> 8 * (x * n) + 7 <= INT_MAX && x * n * (h + 1) <= INT_MAX && LinesOk(raw, x * n, h)
    ensures ok ==> out == Flat(Lines(raw, x * n, n, h))
  {
    ok, out := false, [];
    if !Guarded(x, n, h) { return; }
    MulMono(1, x, n);
    ok, out := UnfilterLines(raw, x * n, n, h);
  }

  /** The data are long enough, and every filter type is one of the five. */
  ghost predicate LinesOk(raw: seq<byte>, len: nat, h: nat) {
    Start(len, h) <= |raw| && TypesOk(raw, len, h)
  }

  ghost predicate TypesOk(raw: seq<byte>, len: nat, h: nat) {
    h == 0 || (TypesOk(raw, len, h - 1) && TypeOk(raw, len, h - 1))
  }

  lemma {:induction false} WrongType(raw: seq<byte>, len: nat, j: nat, h: nat)
    requires j < h && !TypeOk(raw, len, j)
    ensures !TypesOk(raw, len, h)
    decreases h
  {
    if j < h - 1 { WrongType(raw, len, j, h - 1); }
  }

  method UnfilterLines(raw: seq<byte>, len: nat, n: nat, h: nat) returns (ok: bool, out: seq<byte>)
    requires 0 < n <= len
    ensures ok <==> LinesOk(raw, len, h)
    ensures ok ==> out == Flat(Lines(raw, len, n, h))
  {
    ok, out := false, [];
    if TooShort(raw, len, h) { return; }
    var filter_buf := new byte[2 * len](_ => 0);
    var pos := 0;
    for j := 0 to h
      invariant pos == Start(len, j) <= |raw| && TypesOk(raw, len, j)
      invariant out == Flat(Lines(raw, len, n, j)) && LineBefore(raw, len, n, j, filter_buf[..])
    {
      StartMono(len, j, h);
      var line;
      ok, line := UnfilterRow(raw, pos, filter_buf, len, j, n);
      if !ok {
        WrongType(raw, len, j, h);
        return;
      }
      out := out + line;
      pos := pos + 1 + len;
    }
    ok := true;
  }

  /** The line above is in the other half of the buffer. */
  ghost predicate LineBefore(raw: seq<byte>, len: nat, n: nat, j: nat, buf: seq<byte>)
    requires n > 0
  {
    && Start(len, j) <= |raw| && |buf| == 2 * len
    && (j > 0 ==> buf[Half(j + 1, len)..Half(j + 1, len) + len] == Lines(raw, len, n, j)[j - 1])
  }

  lemma LinesStep(raw: seq<byte>, len: nat, n: nat, j: nat, line: seq<byte>, buf: seq<byte>)
    requires n > 0 && Start(len, j + 1) <= |raw| && |buf| == 2 * len && line == buf[Half(j, len)..Half(j, len) + len]
    requires line == Unfiltered(raw[Start(len, j)], LineData(raw, len, j), LineAbove(Lines(raw, len, n, j), len, j), n)
    ensures LineBefore(raw, len, n, j + 1, buf)
    ensures Flat(Lines(raw, len, n, j + 1)) == Flat(Lines(raw, len, n, j)) + line
  {
    assert Lines(raw, len, n, j + 1) == Lines(raw, len, n, j) + [line];
    FlatSnoc(Lines(raw, len, n, j), line);
    assert Half(j + 2, len) == Half(j, len);
  }

  /** One line, in its half of the buffer. */
  method UnfilterRow(raw: seq<byte>, pos: nat, buf: array<byte>, len: nat, j: nat, n: nat)
    returns (ok: bool, line: seq<byte>)
    requires 0 < n <= len && pos == Start(len, j) && Start(len, j + 1) <= |raw| && LineBefore(raw, len, n, j, buf[..])
    modifies buf
    ensures ok == TypeOk(raw, len, j)
    ensures ok ==> LineBefore(raw, len, n, j + 1, buf[..])
    ensures ok ==> Flat(Lines(raw, len, n, j + 1)) == Flat(Lines(raw, len, n, j)) + line
  {
    var ft := raw[pos];
    if ft > 4 { return false, []; }
    var c, p := Half(j, len), Half(j + 1, len);
    ghost var up := LineUp(raw, len, n, j, buf[..]);
    DecodeLine(raw[pos + 1..pos + 1 + len], buf, c, p, j == 0, n, ft, up);
    line := buf[c..c + len];
    LinesStep(raw, len, n, j, line, buf[..]);
    ok := true;
  }

  /** The line above, where the decoder looks for it. */
  ghost function LineUp(raw: seq<byte>, len: nat, n: nat, j: nat, buf: seq<byte>): (up: seq<byte>)
    requires n > 0 && LineBefore(raw, len, n, j, buf)
    ensures |up| == len && up == LineAbove(Lines(raw, len, n, j), len, j)
    ensures if j == 0 then up == ZeroLine(len) else up == buf[Half(j + 1, len)..Half(j + 1, len) + len]
    ensures Half(j, len) + len <= Half(j + 1, len) || Half(j + 1, len) + len <= Half(j, len)
  {
    LineAbove(Lines(raw, len, n, j), len, j)
  }

  lemma FlatSnoc(rows: seq<seq<byte>>, line: seq<byte>)
    ensures Flat(rows + [line]) == Flat(rows) + line
  {
    assert (rows + [line])[..|rows|] == rows;
  }

  // ---------- both ----------

  /** The writer: filtering and compression. */
  method Write(rows: seq<seq<byte>>, len: nat, n: nat, force: int, quality: int)
    returns (zlib: seq<byte>, raw_len: nat, ghost z: Deflated, ghost fts: seq<nat>)
    requires Image(rows, len) && rows != [] && 0 < n <= len && (0 <= force < 5 || 128 * len < 0x7FFF_FFFF)
    requires |rows| * (len + 1) <= 0x7FFF_FFFF
    ensures |fts| == |rows| && (forall j | 0 <= j < |fts| :: fts[j] < 5)
    ensures |zlib| >= 6 && Inflating.HeaderOk(zlib) && z.Describes(zlib[2..], false)
            && z.Output() == FilteredRows(rows, len, n, fts, |rows|)
    ensures 0 < raw_len == |z.Output()| <= 0x7FFF_FFFF
  {
    var filt;
    filt, fts := FilterImage(rows, len, n, force);
    StartProduct(len, |rows|);
    StartMono(len, 0, |rows|);
    zlib, z := Compress.ZlibCompress(filt, quality);
    raw_len := len * |rows| + |rows|;
    MulDistrib(|rows|, 0, len);
    assert raw_len == |filt|;
  }

  lemma {:induction false} AllTypes(raw: seq<byte>, rows: seq<seq<byte>>, len: nat, n: nat, fts: seq<nat>, k: nat)
    requires n > 0 && Image(rows, len) && k <= |rows| == |fts| && forall j | 0 <= j < k ::
               RowIs(raw, rows, len, n, fts, j)
    ensures TypesOk(raw, len, k)
  {
    if k > 0 {
      AllTypes(raw, rows, len, n, fts, k - 1);
      assert RowIs(raw, rows, len, n, fts, k - 1);
    }
  }

  lemma ReadsBack(raw: seq<byte>, rows: seq<seq<byte>>, len: nat, n: nat, fts: seq<nat>)
    requires n > 0 && Image(rows, len) && |rows| == |fts| && forall i | 0 <= i < |fts| :: fts[i] < 5
    requires FilteredRows(rows, len, n, fts, |rows|) <= raw
    ensures LinesOk(raw, len, |rows|) && Lines(raw, len, n, |rows|) == rows
  {
    forall j | 0 <= j < |rows| ensures RowIs(raw, rows, len, n, fts, j) { RowAt(raw, rows, len, n, fts, |rows|, j); }
    AllTypes(raw, rows, len, n, fts, |rows|);
    LinesOfFiltered(raw, rows, len, n, fts, |rows|);
    assert rows[..|rows|] == rows;
  }

  /** Filtering and compressing `|rows|` lines of `x` pixels of `n` bytes, inflating and unfiltering them: the pixels
      come back, for every choice of filters and every compression level, exactly when the reader's size guards let
      them. */
  method WriteAndRead(rows: seq<seq<byte>>, x: nat, n: nat, force: int, quality: int) returns (ok: bool, out: seq<byte>)
    requires Image(rows, x * n) && rows != [] && 0 < n && 0 < x
    requires |rows| * (x * n + 1) <= 0x7FFF_FFFF && (0 <= force < 5 || 128 * (x * n) < 0x7FFF_FFFF)
    ensures ok <==> 8 * (x * n) + 7 <= 0x7FFF_FFFF && x * n * (|rows| + 1) <= 0x7FFF_FFFF
    ensures ok ==> out == Flat(rows)
  {
    var len := x * n;
    MulMono(1, x, n);
    var zlib, raw_len;
    ghost var z, fts;
    zlib, raw_len, z, fts := Write(rows, len, n, force, quality);
    var raw;
    ghost var got;
    ok, raw, got := DecodeZlib(zlib, raw_len, true, true, z);
    assert Payload(zlib, true) == zlib[2..];
    ReadsBack(raw, rows, len, n, fts);
    ok, out := UnfilterImage(raw, x, n, |rows|);
  }

  /** A line so wide that the guard with the bits of a line refuses it, though all its sizes in bytes fit. */
  lemma TooWide()
    ensures !Guarded(0x1000_0000, 1, 1) && 0x1000_0000 * 2 <= INT_MAX
    ensures !Guarded(0xFF_FFFE, 1, 128) && 0xFF_FFFF * 128 <= INT_MAX
  {
  }

  /** The size check on the image header makes all the later ones superfluous. */
  lemma HeaderSuffices(x: nat, y: nat, n: nat)
    requires 1 <= x <= 0x100_0000 && 1 <= y <= 0x100_0000 && 1 <= n <= 4 && y <= 0x4000_0000 / x / n
    ensures Guarded(x, n, y)
  {
    DivModDef(0x4000_0000, x);
    DivModDef(0x4000_0000 / x, n);
    MulMono(y, 0x4000_0000 / x / n, n);
    MulMono(y * n, 0x4000_0000 / x, x);
    MulAssoc(x, n, y);
    Commuted(x, y * n);
    Commuted(n, y);
    MulMono(x, 0x100_0000, n);
    MulDistrib(y, 1, x * n);
    Commuted(x * n, y);
    Commuted(x * n, y + 1);
    MulMono(1, y, x * n);
  }
}
