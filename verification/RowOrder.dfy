/** Turning an image over in place, row by row. */
module RowOrder {
  import opened Bits

  /** Where row `j` starts. */
  function Start(w: nat, j: nat): nat { if j == 0 then 0 else Start(w, j - 1) + w }

  lemma {:induction false} StartProduct(w: nat, j: nat)
    ensures Start(w, j) == j * w
  {
    if j > 0 {
      StartProduct(w, j - 1);
      MulDistrib(j - 1, 1, w);
    }
  }

  lemma {:induction false} StartMono(w: nat, j: nat, h: nat)
    requires j < h
    ensures Start(w, j) + w <= Start(w, h)
    decreases h
  {
    if j + 1 < h { StartMono(w, j, h - 1); }
  }

  ghost function Piece<T>(s: seq<T>, x: nat, n: nat): (p: seq<T>)
    requires x + n <= |s|
    ensures |p| == n
  {
    s[x..x + n]
  }

  ghost function Row<T>(s: seq<T>, w: nat, h: nat, j: nat): (r: seq<T>)
    requires j < h && |s| == Start(w, h)
    ensures |r| == w
  {
    StartMono(w, j, h);
    Piece(s, Start(w, j), w)
  }

  /** Position `x` after the first `n` elements from `a` on have changed places with those from `b` on. */
  ghost function SwappedAt<T>(s: seq<T>, a: nat, b: nat, n: nat, x: nat): T
    requires a + n <= |s| && b + n <= |s| && x < |s|
  {
    if a <= x < a + n then s[b + (x - a)] else if b <= x < b + n then s[a + (x - b)] else s[x]
  }

  /** `r` is `s` with such an exchange. (`k`, always left at its default, keeps this folded.) */
  ghost predicate Exchanged<T>(s: seq<T>, r: seq<T>, a: nat, b: nat, n: nat, k: nat := 3)
    decreases n, k
  {
    && |r| == |s| && a + n <= |s| && b + n <= |s|
    && if k > 0 then Exchanged(s, r, a, b, n, k - 1) else forall x | 0 <= x < |s| :: r[x] == SwappedAt(s, a, b, n, x)
  }

  lemma ExchangedDef<T>(s: seq<T>, r: seq<T>, a: nat, b: nat, n: nat)
    ensures Exchanged(s, r, a, b, n) <==>
            |r| == |s| && a + n <= |s| && b + n <= |s| && forall x | 0 <= x < |s| :: r[x] == SwappedAt(s, a, b, n, x)
  {
    assert Exchanged(s, r, a, b, n, 1) == Exchanged(s, r, a, b, n, 0);
    assert Exchanged(s, r, a, b, n, 2) == Exchanged(s, r, a, b, n, 1);
  }

  /** Exchanges two rows, element by element. */
  method SwapRanges<T>(data: array<T>, a: nat, b: nat, w: nat)
    requires a + w <= data.Length && b + w <= data.Length && (a == b || a + w <= b || b + w <= a)
    modifies data
    ensures Exchanged(old(data[..]), data[..], a, b, w)
  {
    ghost var s0 := data[..];
    var index1, index2 := a, b;
    for i := 0 to w
      invariant index1 == a + i && index2 == b + i
      invariant forall x | 0 <= x < data.Length :: data[x] == SwappedAt(s0, a, b, i, x)
    {
      var temp := data[index1];
      data[index1] := data[index2];
      data[index2] := temp;
      index1 := index1 + 1;
      index2 := index2 + 1;
    }
    ExchangedDef(s0, data[..], a, b, w);
  }

  /** What the exchange does to a stretch that is one of the two, or apart from both. */
  lemma StretchSwapped<T>(s: seq<T>, r: seq<T>, a: nat, b: nat, w: nat, x: nat, y: nat)
    requires Exchanged(s, r, a, b, w) && x + w <= |s| && (a == b || a + w <= b || b + w <= a)
    requires x == a || x == b || ((x + w <= a || a + w <= x) && (x + w <= b || b + w <= x))
    requires y == if x == a then b else if x == b then a else x
    ensures y + w <= |s| && Piece(r, x, w) == Piece(s, y, w)
  {
    ExchangedDef(s, r, a, b, w);
    var p, q := Piece(r, x, w), Piece(s, y, w);
    forall z | 0 <= z < w ensures p[z] == q[z] { assert p[z] == r[x + z]; }
  }

  /** Where the exchange of rows `a` and `b` takes row `j` from. */
  function Other(a: nat, b: nat, j: nat): nat { if j == a then b else if j == b then a else j }

  lemma OtherStart(w: nat, a: nat, b: nat, j: nat)
    requires w > 0
    ensures Start(w, a) == Start(w, b) || Start(w, a) + w <= Start(w, b) || Start(w, b) + w <= Start(w, a)
    ensures var x := Start(w, j);
            x == Start(w, a) || x == Start(w, b)
            || ((x + w <= Start(w, a) || Start(w, a) + w <= x) && (x + w <= Start(w, b) || Start(w, b) + w <= x))
    ensures Start(w, Other(a, b, j)) == Other(Start(w, a), Start(w, b), Start(w, j))
  {
    Apart(w, a, b);
    Apart(w, j, a);
    Apart(w, j, b);
  }

  lemma RowStretch<T>(s: seq<T>, r: seq<T>, w: nat, a: nat, b: nat, j: nat, x: nat, y: nat)
    requires w > 0 && Exchanged(s, r, Start(w, a), Start(w, b), w)
    requires x == Start(w, j) && y == Start(w, Other(a, b, j)) && x + w <= |s|
    ensures y + w <= |s| == |r| && Piece(r, x, w) == Piece(s, y, w)
  {
    OtherStart(w, a, b, j);
    StretchSwapped(s, r, Start(w, a), Start(w, b), w, x, y);
  }

  lemma RowsSwapped<T>(s: seq<T>, r: seq<T>, w: nat, h: nat, a: nat, b: nat, j: nat)
    requires a < h && b < h && j < h && |s| == |r| == Start(w, h) && Exchanged(s, r, Start(w, a), Start(w, b), w)
    ensures Row(r, w, h, j) == Row(s, w, h, Other(a, b, j))
  {
    var p, q := Row(r, w, h, j), Row(s, w, h, Other(a, b, j));
    if w == 0 {
      assert p == [] == q;
    } else {
      StartMono(w, j, h);
      RowStretch(s, r, w, a, b, j, Start(w, j), Start(w, Other(a, b, j)));
    }
  }

  lemma Apart(w: nat, a: nat, b: nat)
    ensures a == b || Start(w, a) + w <= Start(w, b) || Start(w, b) + w <= Start(w, a)
    ensures w > 0 && a != b ==> Start(w, a) != Start(w, b)
  {
    if a < b { StartMono(w, a, b); } else if b < a { StartMono(w, b, a); }
  }

  /** Rows before `j` from either end have changed places. */
  ghost predicate Inverted<T>(s: seq<T>, r: seq<T>, w: nat, h: nat, j: nat) {
    && |s| == |r| == Start(w, h)
    && forall k | 0 <= k < h :: Row(r, w, h, k) == Row(s, w, h, Origin(h, j, k))
  }

  function Origin(h: nat, j: nat, k: nat): (o: nat)
    requires k < h
    ensures o < h
  {
    if k < j || k >= h - j then h - 1 - k else k
  }

  lemma InvertedStep<T>(s: seq<T>, r: seq<T>, t: seq<T>, w: nat, h: nat, j: nat)
    requires Inverted(s, r, w, h, j) && j * 2 < h && Exchanged(r, t, Start(w, j), Start(w, h - 1 - j), w)
    ensures Inverted(s, t, w, h, j + 1)
  {
    forall k | 0 <= k < h ensures Row(t, w, h, k) == Row(s, w, h, Origin(h, j + 1, k)) {
      RowsSwapped(r, t, w, h, j, h - 1 - j, k);
      assert Origin(h, j, Other(j, h - 1 - j, k)) == Origin(h, j + 1, k);
    }
  }

  /** Row `j` from the top and from the bottom change places. */
  method ExchangeRows<T>(data: array<T>, w: nat, h: nat, j: nat, ghost s0: seq<T>)
    requires j * 2 < h && data.Length == Start(w, h) && Inverted(s0, data[..], w, h, j)
    modifies data
    ensures Inverted(s0, data[..], w, h, j + 1)
  {
    ghost var r := data[..];
    RowPlaces(w, j, h);
    SwapRanges(data, j * w, (h - 1 - j) * w, w);
    InvertedStep(s0, r, data[..], w, h, j);
  }

  /** The rows in the opposite order. */
  method Invert<T>(data: array<T>, w: nat, h: nat)
    requires data.Length == Start(w, h)
    modifies data
    ensures Reversed(old(data[..]), data[..], w, h)
  {
    NoneInverted(data[..], w, h);
    InvertAll(data, w, h, data[..]);
  }

  lemma NoneInverted<T>(s: seq<T>, w: nat, h: nat)
    requires |s| == Start(w, h)
    ensures Inverted(s, s, w, h, 0)
  {
    forall k | 0 <= k < h ensures Row(s, w, h, k) == Row(s, w, h, Origin(h, 0, k)) {
      assert Origin(h, 0, k) == k;
    }
  }

  /** The inversion loop. */
  method InvertAll<T>(data: array<T>, w: nat, h: nat, ghost s0: seq<T>)
    requires data.Length == Start(w, h) && Inverted(s0, data[..], w, h, 0)
    modifies data
    ensures Reversed(s0, data[..], w, h)
  {
    var j := 0;
    while j * 2 < h
      invariant 0 <= j * 2 <= h + 1 && Inverted(s0, data[..], w, h, j)
      decreases h - j
    {
      ExchangeRows(data, w, h, j, s0);
      j := j + 1;
    }
    InvertedDone(s0, data[..], w, h, j);
  }

  /** The rows of `r` are those of `s` in the opposite order. */
  ghost predicate Reversed<T>(s: seq<T>, r: seq<T>, w: nat, h: nat) {
    && |s| == |r| == Start(w, h)
    && forall j | 0 <= j < h :: Row(r, w, h, j) == Row(s, w, h, h - 1 - j)
  }

  lemma InvertedDone<T>(s: seq<T>, r: seq<T>, w: nat, h: nat, j: nat)
    requires Inverted(s, r, w, h, j) && j * 2 >= h
    ensures Reversed(s, r, w, h)
  {
    forall k | 0 <= k < h ensures Row(r, w, h, k) == Row(s, w, h, h - 1 - k) {
      assert Origin(h, j, k) == h - 1 - k;
    }
  }

  lemma RowPlaces(w: nat, j: nat, h: nat)
    requires j * 2 < h
    ensures j * w == Start(w, j) && (h - 1 - j) * w == Start(w, h - 1 - j)
    ensures Start(w, j) + w <= Start(w, h) && Start(w, h - 1 - j) + w <= Start(w, h)
    ensures j == h - 1 - j || Start(w, j) + w <= Start(w, h - 1 - j)
  {
    StartProduct(w, j);
    StartProduct(w, h - 1 - j);
    StartMono(w, j, h);
    StartMono(w, h - 1 - j, h);
    if j < h - 1 - j { StartMono(w, j, h - 1 - j); }
  }
}
