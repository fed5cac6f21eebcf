/** Interlaced PNG (PNG, section 8.2): the seven passes and the placing of their pixels. */
module Adam7 {
  import opened Bits
  import opened SizeChecks
  import opened Png

  function XOrig(p: nat): nat { if p == 1 then 4 else if p == 3 then 2 else if p == 5 then 1 else 0 }
  function YOrig(p: nat): nat { if p == 2 then 4 else if p == 4 then 2 else if p == 6 then 1 else 0 }
  function XSpace(p: nat): (s: nat)
    ensures s > 0
  {
    if p <= 1 then 8 else if p <= 3 then 4 else if p <= 5 then 2 else 1
  }
  function YSpace(p: nat): (s: nat)
    ensures s > 0
  {
    if p <= 2 then 8 else if p <= 4 then 4 else 2
  }

  /** The numbers of columns and of rows of pass `p`. */
  function Columns(p: nat, w: nat): (x: int)
    ensures x >= 0
  {
    (w - XOrig(p) + XSpace(p) - 1) / XSpace(p)
  }

  function Rows(p: nat, h: nat): (y: int)
    ensures y >= 0
  {
    (h - YOrig(p) + YSpace(p) - 1) / YSpace(p)
  }

  /** The pass that transmits the pixel in column `x` and row `y`. */
  function PassOf(x: nat, y: nat): nat {
    if y % 2 == 1 then 6
    else if x % 2 == 1 then 5
    else if y % 4 == 2 then 4
    else if x % 4 == 2 then 3
    else if y % 8 == 4 then 2
    else if x % 8 == 4 then 1
    else 0
  }

  /** A pixel has its place in its pass. */
  lemma PixelInPass(x: nat, y: nat, w: nat, h: nat)
    requires x < w && y < h
    ensures var p := PassOf(x, y);
            && x / XSpace(p) < Columns(p, w) && x / XSpace(p) * XSpace(p) + XOrig(p) == x
            && y / YSpace(p) < Rows(p, h) && y / YSpace(p) * YSpace(p) + YOrig(p) == y
  {
    var p := PassOf(x, y);
    PassResidues(x, y);
    ColumnInPass(p, x, w);
    RowInPass(p, y, h);
  }

  lemma PassResidues(x: nat, y: nat)
    ensures x % XSpace(PassOf(x, y)) == XOrig(PassOf(x, y)) && y % YSpace(PassOf(x, y)) == YOrig(PassOf(x, y))
  {
    Eights(x / 8, x % 8);
    Eights(y / 8, y % 8);
  }

  lemma ColumnInPass(p: nat, x: nat, w: nat)
    requires x < w && x % XSpace(p) == XOrig(p)
    ensures x / XSpace(p) < Columns(p, w) && x / XSpace(p) * XSpace(p) + XOrig(p) == x
  {
  }

  lemma RowInPass(p: nat, y: nat, h: nat)
    requires y < h && y % YSpace(p) == YOrig(p)
    ensures y / YSpace(p) < Rows(p, h) && y / YSpace(p) * YSpace(p) + YOrig(p) == y
  {
  }

  /** And every place in a pass belongs to one pixel of the image: the passes cover it exactly once. */
  lemma PlaceInImage(p: nat, i: nat, j: nat, w: nat, h: nat)
    requires p < 7 && i < Columns(p, w) && j < Rows(p, h)
    ensures var x, y := i * XSpace(p) + XOrig(p), j * YSpace(p) + YOrig(p);
            x < w && y < h && PassOf(x, y) == p && x / XSpace(p) == i && y / YSpace(p) == j
  {
    ColumnPlace(p, i, w);
    RowPlace(p, j, h);
  }

  lemma ColumnPlace(p: nat, i: nat, w: nat)
    requires p < 7 && i < Columns(p, w)
    ensures var x := i * XSpace(p) + XOrig(p); x < w && x / XSpace(p) == i && x % XSpace(p) == XOrig(p)
  {
  }

  lemma RowPlace(p: nat, j: nat, h: nat)
    requires p < 7 && j < Rows(p, h)
    ensures var y := j * YSpace(p) + YOrig(p); y < h && y / YSpace(p) == j && y % YSpace(p) == YOrig(p)
  {
  }

  // ---------- placing the pixels ----------

  // A pixel is a string of `n` samples; the image is an array of rows and columns.

  function PassPixel(out: seq<byte>, n: nat, x: nat, i: nat, j: nat): seq<byte> {
    if (j * x + i) * n + n <= |out| then out[(j * x + i) * n..(j * x + i) * n + n] else []
  }

  /** Pixel (x, y) belongs to pass `p`, before column `i` of row `j` of it. */
  ghost predicate Reached(p: nat, j: nat, i: nat, x: nat, y: nat) {
    PassOf(x, y) == p && (y / YSpace(p) < j || (y / YSpace(p) == j && x / XSpace(p) < i))
  }

  /** Pixel (x, y) once the pass has been placed that far. */
  ghost function PlacedTo(before: seq<byte>, out: seq<byte>, n: nat, p: nat, w: nat, j: nat, i: nat, x: nat,
                          y: nat): seq<byte> {
    if Reached(p, j, i, x, y) then PassPixel(out, n, Columns(p, w), x / XSpace(p), y / YSpace(p)) else before
  }

  /** Each step of the copying loops adds exactly one pixel. */
  lemma ReachedNext(p: nat, w: nat, h: nat, j: nat, i: nat, x: nat, y: nat)
    requires p < 7 && i < Columns(p, w) && j < Rows(p, h) && x < w && y < h
    ensures Reached(p, j, i + 1, x, y)
        <==> Reached(p, j, i, x, y) || (x == i * XSpace(p) + XOrig(p) && y == j * YSpace(p) + YOrig(p))
  {
    PlaceInImage(p, i, j, w, h);
    PixelInPass(x, y, w, h);
  }

  lemma ReachedRow(p: nat, w: nat, h: nat, j: nat, x: nat, y: nat)
    requires x < w && y < h
    ensures Reached(p, j, Columns(p, w), x, y) <==> Reached(p, j + 1, 0, x, y)
    ensures Reached(p, Rows(p, h), 0, x, y) <==> PassOf(x, y) == p
    ensures !Reached(p, 0, 0, x, y)
  {
    PixelInPass(x, y, w, h);
  }

  /** The image while pass `p` is being placed. */
  ghost predicate Placing(final: array2<seq<byte>>, before: (nat, nat) -> seq<byte>, out: seq<byte>, n: nat, p: nat,
                          j: nat, i: nat)
    reads final
  {
    forall y: nat, x: nat | y < final.Length0 && x < final.Length1 ::
      final[y, x] == PlacedTo(before(y, x), out, n, p, final.Length1, j, i, x, y)
  }

  /** The two copying loops for one pass. */
  method PlacePass(final: array2<seq<byte>>, out: seq<byte>, n: nat, p: nat, ghost before: (nat, nat) -> seq<byte>)
    requires p < 7 && |out| == Rows(p, final.Length0) * (Columns(p, final.Length1) * n)
    requires forall y: nat, x: nat | y < final.Length0 && x < final.Length1 :: final[y, x] == before(y, x)
    modifies final
    ensures forall y: nat, x: nat | y < final.Length0 && x < final.Length1 ::
              final[y, x] == if PassOf(x, y) == p then PassPixel(out, n, Columns(p, final.Length1), x / XSpace(p),
                y / YSpace(p))
                             else before(y, x)
  {
    var x, y := Columns(p, final.Length1), Rows(p, final.Length0);
    RowStart(final, before, out, n, p);
    for j := 0 to y
      invariant Placing(final, before, out, n, p, j, 0)
    {
      for i := 0 to x
        invariant Placing(final, before, out, n, p, j, i)
      {
        PlacePixel(final, out, n, p, j, i, before);
      }
      RowPlaced(final, before, out, n, p, j);
    }
    AllPlaced(final, before, out, n, p);
  }

  lemma RowStart(final: array2<seq<byte>>, before: (nat, nat) -> seq<byte>, out: seq<byte>, n: nat, p: nat)
    requires forall y: nat, x: nat | y < final.Length0 && x < final.Length1 :: final[y, x] == before(y, x)
    ensures Placing(final, before, out, n, p, 0, 0)
  {
  }

  lemma RowPlaced(final: array2<seq<byte>>, before: (nat, nat) -> seq<byte>, out: seq<byte>, n: nat, p: nat, j: nat)
    requires Placing(final, before, out, n, p, j, Columns(p, final.Length1))
    ensures Placing(final, before, out, n, p, j + 1, 0)
  {
    forall y: nat, x: nat | y < final.Length0 && x < final.Length1
      ensures final[y, x] == PlacedTo(before(y, x), out, n, p, final.Length1, j + 1, 0, x, y)
    {
      ReachedRow(p, final.Length1, final.Length0, j, x, y);
    }
  }

  lemma AllPlaced(final: array2<seq<byte>>, before: (nat, nat) -> seq<byte>, out: seq<byte>, n: nat, p: nat)
    requires Placing(final, before, out, n, p, Rows(p, final.Length0), 0)
    ensures forall y: nat, x: nat | y < final.Length0 && x < final.Length1 ::
              final[y, x] == if PassOf(x, y) == p then PassPixel(out, n, Columns(p, final.Length1), x / XSpace(p),
                y / YSpace(p))
                             else before(y, x)
  {
    forall y: nat, x: nat | y < final.Length0 && x < final.Length1
      ensures final[y, x] == if PassOf(x, y) == p then PassPixel(out, n, Columns(p, final.Length1), x / XSpace(p),
              y / YSpace(p))
                             else before(y, x)
    {
      ReachedRow(p, final.Length1, final.Length0, 0, x, y);
    }
  }

  /** Copies one pixel. */
  method PlacePixel(final: array2<seq<byte>>, out: seq<byte>, n: nat, p: nat, j: nat, i: nat,
                    ghost before: (nat, nat) -> seq<byte>)
    requires p < 7 && i < Columns(p, final.Length1) && j < Rows(p, final.Length0)
    requires |out| == Rows(p, final.Length0) * (Columns(p, final.Length1) * n)
             && Placing(final, before, out, n, p, j, i)
    modifies final
    ensures Placing(final, before, out, n, p, j, i + 1)
  {
    var x := Columns(p, final.Length1);
    var out_y, out_x := j * YSpace(p) + YOrig(p), i * XSpace(p) + XOrig(p);
    PixelRoom(x, Rows(p, final.Length0), n, i, j);
    PlaceInImage(p, i, j, final.Length1, final.Length0);
    final[out_y, out_x] := out[(j * x + i) * n..(j * x + i) * n + n];
    forall y: nat, x: nat | y < final.Length0 && x < final.Length1
      ensures final[y, x] == PlacedTo(before(y, x), out, n, p, final.Length1, j, i + 1, x, y)
    {
      ReachedNext(p, final.Length1, final.Length0, j, i, x, y);
    }
  }

  lemma PixelRoom(x: nat, y: nat, n: nat, i: nat, j: nat)
    requires i < x && j < y
    ensures 0 <= (j * x + i) * n && (j * x + i) * n + n <= y * (x * n)
  {
    MulDistrib(j, 1, x);
    MulMono(j + 1, y, x);
    MulMono(j * x + i + 1, y * x, n);
    MulDistrib(j * x + i, 1, n);
    MulAssoc(y, x, n);
  }

  // ---------- the whole image ----------

  ghost function PassLength(w: nat, h: nat, n: nat, p: nat): nat {
    if Columns(p, w) == 0 || Rows(p, h) == 0 then 0 else Start(Columns(p, w) * n, Rows(p, h))
  }

  /** Where the data of a pass start. */
  ghost function DataStart(w: nat, h: nat, n: nat, p: nat): nat {
    if p == 0 then 0 else DataStart(w, h, n, p - 1) + PassLength(w, h, n, p - 1)
  }

  /** A pass is there, not too large and with valid filter types, or is empty. */
  ghost predicate PassOk(data: seq<byte>, w: nat, h: nat, n: nat, p: nat)
    requires n > 0
  {
    Columns(p, w) == 0 || Rows(p, h) == 0
    || (Guarded(Columns(p, w), n, Rows(p, h)) && LinesOk(data, Columns(p, w) * n, Rows(p, h)))
  }

  /** The pass image. */
  ghost function PassImage(data: seq<byte>, w: nat, h: nat, n: nat, p: nat): seq<byte>
    requires n > 0
  {
    if Columns(p, w) == 0 || Rows(p, h) == 0 || PassLength(w, h, n, p) > |data| then []
    else Flat(Lines(data, Columns(p, w) * n, n, Rows(p, h)))
  }

  ghost function PassData(raw: seq<byte>, w: nat, h: nat, n: nat, p: nat): seq<byte> {
    if DataStart(w, h, n, p) <= |raw| then raw[DataStart(w, h, n, p)..] else []
  }

  /** The pixel in column `x` and row `y`, out of the pass that transmits it. */
  ghost function Pixel(raw: seq<byte>, w: nat, h: nat, n: nat, x: nat, y: nat): seq<byte>
    requires n > 0
  {
    var p := PassOf(x, y);
    PassPixel(PassImage(PassData(raw, w, h, n, p), w, h, n, p), n, Columns(p, w), x / XSpace(p), y / YSpace(p))
  }

  lemma {:induction false} FlatLength(rows: seq<seq<byte>>, len: nat)
    requires Image(rows, len)
    ensures |Flat(rows)| == |rows| * len
  {
    if rows != [] {
      FlatLength(rows[..|rows| - 1], len);
      MulDistrib(|rows| - 1, 1, len);
    }
  }

  /** Each pixel is found whole. */
  lemma PixelWhole(raw: seq<byte>, w: nat, h: nat, n: nat, x: nat, y: nat)
    requires n > 0 && x < w && y < h && PassOk(PassData(raw, w, h, n, PassOf(x, y)), w, h, n, PassOf(x, y))
    ensures |Pixel(raw, w, h, n, x, y)| == n
  {
    var p := PassOf(x, y);
    PixelInPass(x, y, w, h);
    FlatLength(Lines(PassData(raw, w, h, n, p), Columns(p, w) * n, n, Rows(p, h)), Columns(p, w) * n);
    PixelRoom(Columns(p, w), Rows(p, h), n, x / XSpace(p), y / YSpace(p));
  }

  /** The image after the passes before `p`. */
  ghost function Shown(raw: seq<byte>, w: nat, h: nat, n: nat, p: nat): (nat, nat) -> seq<byte>
    requires n > 0
  {
    (y, x) => if PassOf(x, y) < p then Pixel(raw, w, h, n, x, y) else []
  }

  /** `stbi__create_png_image` for interlaced images: every pixel of the image comes out of its place in its pass, and
      decoding fails exactly when the image or a pass is too large, or the data of some pass are too short or have an
      unknown filter type. */
  method Deinterlace(raw: seq<byte>, w: nat, h: nat, n: nat) returns (ok: bool, final: array2<seq<byte>>)
    requires n > 0
    ensures ok <==> w * h * n <= INT_MAX && forall p | 0 <= p < 7 :: PassOk(PassData(raw, w, h, n, p), w, h, n, p)
    ensures ok ==> final.Length0 == h && final.Length1 == w
                   && forall y: nat, x: nat | y < h && x < w :: final[y, x] == Pixel(raw, w, h, n, x, y)
    ensures ok ==> forall y: nat, x: nat | y < h && x < w :: |final[y, x]| == n
  {
    ok, final := false, new seq<byte>[h, w]((y, x) => []);
    Mad3Meaning(w, h, n, 0);
    if !Mad3Valid(w, h, n, 0) { return; }
    var pos := 0;
    for p := 0 to 7
      invariant pos == DataStart(w, h, n, p) <= |raw| && final.Length0 == h && final.Length1 == w && fresh(final)
      invariant forall q | 0 <= q < p :: PassOk(PassData(raw, w, h, n, q), w, h, n, q)
      invariant ShownTo(final, raw, w, h, n, p)
    {
      ok, pos := ReadPass(raw, pos, final, n, p);
      if !ok { return; }
    }
    ok := true;
    PixelsWhole(raw, w, h, n);
  }

  lemma PixelsWhole(raw: seq<byte>, w: nat, h: nat, n: nat)
    requires n > 0 && forall p | 0 <= p < 7 :: PassOk(PassData(raw, w, h, n, p), w, h, n, p)
    ensures forall y: nat, x: nat | y < h && x < w :: |Pixel(raw, w, h, n, x, y)| == n
  {
    forall y: nat, x: nat | y < h && x < w ensures |Pixel(raw, w, h, n, x, y)| == n { PixelWhole(raw, w, h, n, x, y); }
  }

  ghost predicate ShownTo(final: array2<seq<byte>>, raw: seq<byte>, w: nat, h: nat, n: nat, p: nat)
    requires n > 0
    reads final
  {
    forall y: nat, x: nat | y < final.Length0 && x < final.Length1 :: final[y, x] == Shown(raw, w, h, n, p)(y, x)
  }

  /** One pass, if it is not empty. */
  method ReadPass(raw: seq<byte>, pos: nat, final: array2<seq<byte>>, n: nat, p: nat) returns (ok: bool, pos': nat)
    requires n > 0 && p < 7 && pos == DataStart(final.Length1, final.Length0, n, p) <= |raw|
    requires ShownTo(final, raw, final.Length1, final.Length0, n, p)
    modifies final
    ensures ok == PassOk(PassData(raw, final.Length1, final.Length0, n, p), final.Length1, final.Length0, n, p)
    ensures ok ==> pos' == DataStart(final.Length1, final.Length0, n, p + 1) <= |raw|
    ensures ok ==> ShownTo(final, raw, final.Length1, final.Length0, n, p + 1)
  {
    ghost var w, h := final.Length1, final.Length0;
    var x, y := Columns(p, final.Length1), Rows(p, final.Length0);
    ok, pos' := true, pos;
    if x > 0 && y > 0 {
      PassSize(x, y, n);
      var out;
      ok, out := UnfilterImage(raw[pos..], x, n, y);
      if !ok { return; }
      FlatLength(Lines(raw[pos..], x * n, n, y), x * n);
      PlacePass(final, out, n, p, Shown(raw, w, h, n, p));
      pos' := pos' + (x * n + 1) * y;
    }
    EmptyPass(w, h, p);
  }

  lemma PassSize(x: nat, y: nat, n: nat)
    requires x > 0 && n > 0
    ensures 0 < n <= x * n && (x * n + 1) * y == Start(x * n, y)
  {
    StartProduct(x * n, y);
    MulMono(1, x, n);
  }

  lemma EmptyPass(w: nat, h: nat, p: nat)
    ensures Columns(p, w) == 0 || Rows(p, h) == 0 ==> forall x: nat, y: nat | x < w && y < h :: PassOf(x, y) != p
  {
    forall x: nat, y: nat | x < w && y < h ensures PassOf(x, y) == p ==> Columns(p, w) > 0 && Rows(p, h) > 0 {
      PixelInPass(x, y, w, h);
    }
  }
}
