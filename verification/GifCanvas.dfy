/** Where the GIF decoder puts its pixels: the cursor of `stbi__out_gif_code` and its walk over the rows
    (GIF89a, appendix E). Positions are counted in pixels and rows of the frame. */
module GifCanvas {
  import opened Bits

  datatype Color = Color(c0: byte, c1: byte, c2: byte, c3: byte)

  /** A pixel painted with a table entry: colours change places, and a transparent entry paints nothing. */
  function Paint(below: Color, c: Color): Color { if c.c3 > 128 then Color(c.c2, c.c1, c.c0, c.c3) else below }

  // ---------- the order of the rows ----------

  /** The interlacing pass that row `r` belongs to. */
  function Pass(r: nat): nat { if r % 8 == 0 then 0 else if r % 8 == 4 then 1 else if r % 4 == 2 then 2 else 3 }

  function Spacing(pass: nat): (s: nat)
    ensures s > 0
  {
    if pass <= 1 then 8 else if pass == 2 then 4 else 2
  }

  function First(pass: nat): nat { if pass == 0 then 0 else if pass == 1 then 4 else if pass == 2 then 2 else 1 }

  /** The number of rows of a pass in a frame of `h` rows. */
  function Count(pass: nat, h: nat): nat {
    if pass == 0 then (h + 7) / 8 else if pass == 1 then (h + 3) / 8 else if pass == 2 then (h + 1) / 4 else h / 2
  }

  /** The number of rows of the passes before. */
  function Before(pass: nat, h: nat): nat { if pass == 0 then 0 else Before(pass - 1, h) + Count(pass - 1, h) }

  /** How many rows come before row `r`. */
  function Rank(interlaced: bool, h: nat, r: nat): nat {
    if interlaced then Before(Pass(r), h) + r / Spacing(Pass(r)) else r
  }

  /** The row that `k` rows come before. */
  function RowAt(interlaced: bool, h: nat, k: nat): nat {
    if !interlaced then k
    else if k < Before(1, h) then 8 * k
    else if k < Before(2, h) then 4 + 8 * (k - Before(1, h))
    else if k < Before(3, h) then 2 + 4 * (k - Before(2, h))
    else 1 + 2 * (k - Before(3, h))
  }

  lemma PassesCover(h: nat)
    ensures Before(1, h) == Count(0, h) && Before(2, h) == Before(1, h) + Count(1, h)
    ensures Before(3, h) == Before(2, h) + Count(2, h) && Before(4, h) == h == Before(3, h) + Count(3, h)
  {
    Counts(h / 8, h % 8);
    assert h == 8 * (h / 8) + h % 8;
  }

  lemma Counts(q: nat, m: nat)
    requires m < 8
    ensures (8 * q + m + 7) / 8 == q + (m + 7) / 8 && (8 * q + m + 3) / 8 == q + (m + 3) / 8
    ensures (8 * q + m + 1) / 4 == 2 * q + (m + 1) / 4 && (8 * q + m) / 2 == 4 * q + m / 2
    ensures (m + 7) / 8 + (m + 3) / 8 + (m + 1) / 4 + m / 2 == m
  {
  }

  /** The walk is a permutation of the rows: each comes up exactly once. */
  lemma RankInRange(interlaced: bool, h: nat, r: nat)
    requires r < h
    ensures Rank(interlaced, h, r) < h && RowAt(interlaced, h, Rank(interlaced, h, r)) == r
  {
    PassesCover(h);
    RowInPass(r);
    InPass(h, r);
  }

  /** The rows of a pass are counted by its spacing. */
  lemma InPass(h: nat, r: nat)
    requires r < h
    ensures r / Spacing(Pass(r)) < Count(Pass(r), h)
  {
    RowInPass(r);
  }

  lemma RowAtInRange(interlaced: bool, h: nat, k: nat)
    requires k < h
    ensures RowAt(interlaced, h, k) < h && Rank(interlaced, h, RowAt(interlaced, h, k)) == k
  {
    PassesCover(h);
    if interlaced {
      if k < Before(1, h) { RowOfPass(0, h, k); }
      else if k < Before(2, h) { RowOfPass(1, h, k - Before(1, h)); }
      else if k < Before(3, h) { RowOfPass(2, h, k - Before(2, h)); }
      else { RowOfPass(3, h, k - Before(3, h)); }
    }
  }

  lemma RowOfPass(pass: nat, h: nat, q: nat)
    requires pass <= 3 && q < Count(pass, h)
    ensures First(pass) + Spacing(pass) * q < h
    ensures Pass(First(pass) + Spacing(pass) * q) == pass && (First(pass) + Spacing(pass) * q) / Spacing(pass) == q
  {
    if pass <= 1 { Eighth(pass, h, q); } else if pass == 2 { Fourth(h, q); } else { Half(h, q); }
  }

  lemma Eighth(pass: nat, h: nat, q: nat)
    requires pass <= 1 && q < Count(pass, h)
    ensures First(pass) + 8 * q < h && Pass(First(pass) + 8 * q) == pass && (First(pass) + 8 * q) / 8 == q
  {
    Eights(q, First(pass));
  }

  lemma Fourth(h: nat, q: nat)
    requires q < Count(2, h)
    ensures 2 + 4 * q < h && Pass(2 + 4 * q) == 2 && (2 + 4 * q) / 4 == q
  {
  }

  lemma Half(h: nat, q: nat)
    requires q < Count(3, h)
    ensures 1 + 2 * q < h && Pass(1 + 2 * q) == 3 && (1 + 2 * q) / 2 == q
  {
  }

  lemma RowInPass(r: nat)
    ensures First(Pass(r)) + Spacing(Pass(r)) * (r / Spacing(Pass(r))) == r
    ensures r % 8 == 0 ==> Pass(r) == 0
    ensures r % 8 == 4 ==> Pass(r) == 1
    ensures r % 4 == 2 ==> Pass(r) == 2
    ensures r % 2 == 1 ==> Pass(r) == 3
  {
    Eights(r / 8, r % 8);
  }

  /** The cursor stands on a row of the pass that `parse` counts down, or past the last row for good. */
  ghost predicate OnCourse(interlaced: bool, parse: nat, step: nat, row: nat, h: nat) {
    if !interlaced then parse == 0 && step == 1
    else parse <= 3 && (row < h ==> Pass(row) == 3 - parse && step == Spacing(3 - parse))
  }

  /** The cursor on its way to the next row: `done` rows have been visited. */
  ghost predicate Seeking(parse: nat, step: nat, row: nat, h: nat, done: nat) {
    && parse <= 3 && step == Spacing(3 - parse) && row % step == First(3 - parse)
    && done == Before(3 - parse, h) + row / step
    && (row >= h ==> row / step == Count(3 - parse, h))
  }

  /** The move to the next row, with the passes of interlacing. */
  method NextRow(row: nat, step: nat, parse: nat, h: nat, ghost interlaced: bool)
    returns (row': nat, step': nat, parse': nat)
    requires OnCourse(interlaced, parse, step, row, h) && row < h
    ensures OnCourse(interlaced, parse', step', row', h)
    ensures row' < h ==> Rank(interlaced, h, row') == Rank(interlaced, h, row) + 1
    ensures row' >= h ==> Rank(interlaced, h, row) == h - 1
  {
    row', step', parse' := row + step, step, parse;
    ghost var done := Rank(interlaced, h, row) + 1;
    if interlaced { SeekOn(parse, row, h); }
    while row' >= h && parse' > 0
      invariant if interlaced then Seeking(parse', step', row', h, done)
                else parse' == 0 && step' == 1 && row' == row + 1
      decreases parse'
    {
      SeekPass(parse', step', row', h, done);
      step' := Pow2(parse');
      row' := step' / 2;
      parse' := parse' - 1;
    }
    if interlaced { SeekDone(parse', step', row', h, done); }
  }

  lemma SeekOn(parse: nat, row: nat, h: nat)
    requires parse <= 3 && Pass(row) == 3 - parse && row < h
    ensures Seeking(parse, Spacing(3 - parse), row + Spacing(3 - parse), h, Rank(true, h, row) + 1)
  {
    RowInPass(row);
    PassResidue(row);
    if parse >= 2 { By8(3 - parse, row, h); } else if parse == 1 { By4(row, h); } else { By2(row, h); }
  }

  lemma PassResidue(row: nat)
    ensures Pass(row) <= 1 ==> row % 8 == First(Pass(row))
    ensures Pass(row) == 2 ==> row % 4 == 2
    ensures Pass(row) == 3 ==> row % 2 == 1
  {
    Eights(row / 8, row % 8);
  }

  lemma By8(pass: nat, row: nat, h: nat)
    requires pass <= 1 && row % 8 == First(pass) && row < h
    ensures (row + 8) % 8 == First(pass) && (row + 8) / 8 == row / 8 + 1
    ensures row + 8 >= h ==> row / 8 + 1 == Count(pass, h)
  {
  }

  lemma By4(row: nat, h: nat)
    requires row % 4 == 2 && row < h
    ensures (row + 4) % 4 == 2 && (row + 4) / 4 == row / 4 + 1
    ensures row + 4 >= h ==> row / 4 + 1 == Count(2, h)
  {
  }

  lemma By2(row: nat, h: nat)
    requires row % 2 == 1 && row < h
    ensures (row + 2) % 2 == 1 && (row + 2) / 2 == row / 2 + 1
    ensures row + 2 >= h ==> row / 2 + 1 == Count(3, h)
  {
  }

  lemma SeekPass(parse: nat, step: nat, row: nat, h: nat, done: nat)
    requires Seeking(parse, step, row, h, done) && row >= h && parse > 0
    ensures Seeking(parse - 1, Pow2(parse), Pow2(parse) / 2, h, done)
  {
    Pow2Small();
    BeforeNext(3 - parse, h);
    PassStart(4 - parse, h);
    assert Pow2(parse) == Spacing(4 - parse) && Pow2(parse) / 2 == First(4 - parse);
  }

  lemma BeforeNext(pass: nat, h: nat)
    ensures Before(pass + 1, h) == Before(pass, h) + Count(pass, h)
  {
  }

  lemma PassStart(pass: nat, h: nat)
    requires 1 <= pass <= 3
    ensures First(pass) / Spacing(pass) == 0 && First(pass) % Spacing(pass) == First(pass)
    ensures First(pass) >= h ==> Count(pass, h) == 0
  {
  }

  lemma SeekDone(parse: nat, step: nat, row: nat, h: nat, done: nat)
    requires Seeking(parse, step, row, h, done) && (row < h || parse == 0)
    ensures OnCourse(true, parse, step, row, h)
    ensures if row < h then Rank(true, h, row) == done else done == h
  {
    PassesCover(h);
    RowInPass(row);
    assert Before(0, h) == 0;
  }

  // ---------- the picture ----------

  /** The number of the table index that belongs to pixel (r, c) of the frame. */
  function Slot(interlaced: bool, w: nat, h: nat, r: nat, c: nat): nat { Rank(interlaced, h, r) * w + c }

  lemma Flat(a: nat, w: nat, h: nat, c: nat)
    requires a < h && c < w
    ensures a * w + c < w * h && (a * w + c) / w == a && (a * w + c) % w == c
  {
    MulDistrib(a, 1, w);
    MulMono(a + 1, h, w);
    DivModUnique(a * w + c, w, a, c);
  }

  /** Every pixel of the frame has a slot of its own. */
  lemma SlotUnique(interlaced: bool, w: nat, h: nat, r: nat, c: nat, r': nat, c': nat)
    requires r < h && r' < h && c < w && c' < w
    ensures Slot(interlaced, w, h, r, c) < w * h
    ensures Slot(interlaced, w, h, r, c) == Slot(interlaced, w, h, r', c') ==> r == r' && c == c'
  {
    RankInRange(interlaced, h, r);
    RankInRange(interlaced, h, r');
    Flat(Rank(interlaced, h, r), w, h, c);
    Flat(Rank(interlaced, h, r'), w, h, c');
  }

  /** What pixel (i, j) of the picture shows when the indices `emitted` have arrived for a frame at (top, left):
      each pixel of the frame shows the colour of the index in its slot, painted over what was there. */
  ghost function Picture(base: (nat, nat) -> Color, table: seq<Color>, emitted: seq<byte>, interlaced: bool,
                         left: nat, top: nat, w: nat, h: nat, i: nat, j: nat): Color
    requires |table| == 256
  {
    if top <= i < top + h && left <= j < left + w && Slot(interlaced, w, h, i - top, j - left) < |emitted|
    then Paint(base(i, j), table[emitted[Slot(interlaced, w, h, i - top, j - left)]]) else base(i, j)
  }

  lemma PictureMore(base: (nat, nat) -> Color, table: seq<Color>, emitted: seq<byte>, b: byte, interlaced: bool,
                    left: nat, top: nat, w: nat, h: nat, row: nat, x: nat, i: nat, j: nat)
    requires |table| == 256 && row < h && x < w && |emitted| == Slot(interlaced, w, h, row, x)
    ensures Picture(base, table, emitted + [b], interlaced, left, top, w, h, i, j)
         == if i == top + row && j == left + x then Paint(Picture(base, table, emitted, interlaced, left, top, w, h, i,
           j), table[b])
            else Picture(base, table, emitted, interlaced, left, top, w, h, i, j)
  {
    if top <= i < top + h && left <= j < left + w { SlotUnique(interlaced, w, h, i - top, j - left, row, x); }
  }

  lemma PictureFull(base: (nat, nat) -> Color, table: seq<Color>, emitted: seq<byte>, b: byte, interlaced: bool,
                    left: nat, top: nat, w: nat, h: nat, i: nat, j: nat)
    requires |table| == 256 && |emitted| >= w * h
    ensures Picture(base, table, emitted + [b], interlaced, left, top, w, h, i, j)
         == Picture(base, table, emitted, interlaced, left, top, w, h, i, j)
  {
    if top <= i < top + h && left <= j < left + w {
      SlotUnique(interlaced, w, h, i - top, j - left, i - top, j - left);
    }
  }

  /** The frame being drawn. */
  class Canvas {
    const out: array2<Color>
    const table: seq<Color>
    const left: nat
    const top: nat
    const w: nat
    const h: nat
    const interlaced: bool
    var x: nat
    var row: nat
    var step: nat
    var parse: nat
    ghost const base: (nat, nat) -> Color   // the picture before
    ghost var emitted: seq<byte>            // the table indices received

    constructor (picture: array2<Color>, table: seq<Color>, left: nat, top: nat, w: nat, h: nat, interlaced: bool,
                 ghost base: (nat, nat) -> Color)
      requires |table| == 256 && left + w <= picture.Length1 && top + h <= picture.Length0
      requires forall i: nat, j: nat | i < picture.Length0 && j < picture.Length1 :: picture[i, j] == base(i, j)
      ensures Valid() && emitted == [] && out == picture && this.table == table && this.base == base
      ensures this.left == left && this.top == top && this.w == w && this.h == h && this.interlaced == interlaced
    {
      this.out, this.table, this.left, this.top, this.w, this.h, this.interlaced := picture, table, left, top, w, h,
        interlaced;
      this.base := base;
      x, emitted := 0, [];
      row := if w == 0 then h else 0;
      step := if interlaced then 8 else 1;
      parse := if interlaced then 3 else 0;
      new;
      RankFirst(interlaced, w, h);
    }

    ghost predicate Valid()
      reads this, out
    {
      && |table| == 256 && left + w <= out.Length1 && top + h <= out.Length0
      && OnCourse(interlaced, parse, step, row, h)
      && (if row < h then x < w && |emitted| == Slot(interlaced, w, h, row, x) else |emitted| >= w * h)
      && Drawn()
    }

    /** The picture is what the indices received so far say. */
    ghost predicate Drawn()
      requires |table| == 256
      reads this, out
    {
      forall i: nat, j: nat | i < out.Length0 && j < out.Length1 ::
        out[i, j] == Picture(base, table, emitted, interlaced, left, top, w, h, i, j)
    }

    /** `stbi__out_gif_code` for one table index, when the prefixes are out. */
    method Put(suffix: byte)
      requires Valid()
      modifies `x, `row, `step, `parse, `emitted, out
      ensures Valid() && emitted == old(emitted) + [suffix]
    {
      if row >= h {
        Ignore(suffix);
        return;
      }
      Draw(suffix);
      x := x + 1;
      if x >= w {
        ghost var row0 := row;
        x := 0;
        row, step, parse := NextRow(row, step, parse, h, interlaced);
        RowDone(interlaced, w, h, row0, row);
      }
    }

    /** An index that comes when the frame is full. */
    ghost method Ignore(suffix: byte)
      requires Valid() && row >= h
      modifies `emitted
      ensures Valid() && emitted == old(emitted) + [suffix]
    {
      ghost var e := emitted;
      emitted := emitted + [suffix];
      forall i: nat, j: nat | i < out.Length0 && j < out.Length1
        ensures out[i, j] == Picture(base, table, emitted, interlaced, left, top, w, h, i, j)
      {
        PictureFull(base, table, e, suffix, interlaced, left, top, w, h, i, j);
      }
    }

    method Draw(suffix: byte)
      requires Valid() && row < h
      modifies `emitted, out
      ensures emitted == old(emitted) + [suffix] && Drawn()
    {
      ghost var e := emitted;
      var c := table[suffix];
      out[top + row, left + x] := Paint(out[top + row, left + x], c);
      emitted := emitted + [suffix];
      forall i: nat, j: nat | i < out.Length0 && j < out.Length1
        ensures out[i, j] == Picture(base, table, emitted, interlaced, left, top, w, h, i, j)
      {
        PictureMore(base, table, e, suffix, interlaced, left, top, w, h, row, x, i, j);
      }
    }
  }

  lemma RankFirst(interlaced: bool, w: nat, h: nat)
    ensures Slot(interlaced, w, h, 0, 0) == 0 && w * 0 == 0 && 0 * h == 0
  {
  }

  lemma RowDone(interlaced: bool, w: nat, h: nat, row: nat, row': nat)
    requires row < h && w > 0
    requires if row' < h then Rank(interlaced, h, row') == Rank(interlaced, h, row) + 1
             else Rank(interlaced, h, row) == h - 1
    ensures if row' < h then Slot(interlaced, w, h, row', 0) == Slot(interlaced, w, h, row, w - 1) + 1
            else Slot(interlaced, w, h, row, w - 1) + 1 == w * h
  {
    MulDistrib(Rank(interlaced, h, row), 1, w);
  }
}
