/** Edge tracking in the Canny detector: the sweep-until-stable loop and the final clean-up. */
module Hysteresis {
  import opened Bits

  const WEAK: byte := 128
  const STRONG: byte := 255

  // Pixels are numbered row by row in an image `w` pixels wide.

  ghost predicate Inner(i: nat, w: nat, h: nat)
    requires w > 0
  {
    0 < i / w < h - 1 && 0 < i % w < w - 1
  }

  ghost predicate Near(a: int, b: int) { -1 <= a - b <= 1 }

  /** One of the 3 x 3 pixels around `i`. */
  ghost predicate Adjacent(i: nat, j: nat, w: nat)
    requires w > 0
  {
    Near(i / w, j / w) && Near(i % w, j % w)
  }

  /** A path of weak inner pixels from `i` to a strong pixel. */
  ghost predicate IsPath(img: seq<byte>, w: nat, h: nat, path: seq<nat>, i: nat)
    requires w > 0
  {
    && path != [] && path[0] == i < |img|
    && if |path| == 1 then img[i] == STRONG
       else img[i] == WEAK && Inner(i, w, h) && Adjacent(i, path[1], w) && IsPath(img, w, h, path[1..], path[1])
  }

  ghost predicate Joined(img: seq<byte>, w: nat, h: nat, i: nat)
    requires w > 0
  {
    exists path :: IsPath(img, w, h, path, i)
  }

  lemma JoinedStrong(img: seq<byte>, w: nat, h: nat, i: nat)
    requires w > 0 && i < |img| && img[i] == STRONG
    ensures Joined(img, w, h, i)
  {
    assert IsPath(img, w, h, [i], i);
  }

  lemma JoinedWeak(img: seq<byte>, w: nat, h: nat, i: nat, j: nat)
    requires w > 0 && i < |img| && img[i] == WEAK && Inner(i, w, h) && Adjacent(i, j, w) && Joined(img, w, h, j)
    ensures Joined(img, w, h, i)
  {
    var path :| IsPath(img, w, h, path, j);
    assert ([i] + path)[1..] == path;
    assert IsPath(img, w, h, [i] + path, i);
  }

  /** What the whole procedure makes of pixel `i`. */
  ghost function Edge(img: seq<byte>, w: nat, h: nat, i: nat): byte
    requires w > 0 && i < |img|
  {
    if img[i] != WEAK then img[i] else if Joined(img, w, h, i) then STRONG else 0
  }

  /** In an image of the three values that suppression leaves, a pixel ends up strong exactly when it is joined
      to a strong pixel, and 0 otherwise. */
  lemma EdgeIffJoined(img: seq<byte>, w: nat, h: nat, i: nat)
    requires w > 0 && i < |img| && img[i] in {0, WEAK, STRONG}
    ensures Edge(img, w, h, i) == if Joined(img, w, h, i) then STRONG else 0
  {
    if img[i] == STRONG { JoinedStrong(img, w, h, i); }
  }

  /** `cur` has grown out of `img` by turning joined weak pixels strong. */
  ghost predicate Grown(img: seq<byte>, w: nat, h: nat, cur: seq<byte>)
    requires w > 0
  {
    && |cur| == |img|
    && forall i | 0 <= i < |img| :: cur[i] == img[i] || (img[i] == WEAK && cur[i] == STRONG && Joined(img, w, h, i))
  }

  /** A weak inner pixel without a strong neighbour. */
  ghost predicate Settled(cur: seq<byte>, w: nat, h: nat, i: nat)
    requires w > 0 && i < |cur|
  {
    cur[i] == WEAK && Inner(i, w, h) ==> forall j | 0 <= j < |cur| && Adjacent(i, j, w) :: cur[j] != STRONG
  }

  lemma GrownStep(img: seq<byte>, w: nat, h: nat, cur: seq<byte>, i: nat, j: nat)
    requires w > 0 && Grown(img, w, h, cur) && i < |cur| && cur[i] == WEAK && Inner(i, w, h)
    requires j < |cur| && Adjacent(i, j, w) && cur[j] == STRONG
    ensures Grown(img, w, h, cur[i := STRONG])
  {
    if img[j] == STRONG { JoinedStrong(img, w, h, j); }
    JoinedWeak(img, w, h, i, j);
  }

  /** When everything has settled, every joined pixel is strong. */
  lemma {:induction false} SettledPath(img: seq<byte>, w: nat, h: nat, cur: seq<byte>, path: seq<nat>, i: nat)
    requires w > 0 && Grown(img, w, h, cur) && IsPath(img, w, h, path, i)
    requires forall k | 0 <= k < |cur| :: Settled(cur, w, h, k)
    ensures cur[i] == STRONG
    decreases |path|
  {
    if |path| > 1 {
      SettledPath(img, w, h, cur, path[1..], path[1]);
      assert Settled(cur, w, h, i);
    }
  }

  lemma AllSettled(img: seq<byte>, w: nat, h: nat, cur: seq<byte>)
    requires w > 0 && Grown(img, w, h, cur) && forall k | 0 <= k < |cur| :: Settled(cur, w, h, k)
    ensures forall i | 0 <= i < |img| :: cur[i] == (if img[i] == WEAK && Joined(img, w, h, i) then STRONG else img[i])
  {
    forall i | 0 <= i < |img| && img[i] == WEAK && Joined(img, w, h, i) ensures cur[i] == STRONG {
      var path :| IsPath(img, w, h, path, i);
      SettledPath(img, w, h, cur, path, i);
    }
  }

  // ---------- termination ----------

  function WeakCount(s: seq<byte>): nat { if s == [] then 0 else WeakCount(s[..|s| - 1]) + Bit(s[|s| - 1] == WEAK) }

  lemma {:induction false} WeakGone(s: seq<byte>, i: nat)
    requires i < |s| && s[i] == WEAK
    ensures WeakCount(s[i := STRONG]) == WeakCount(s) - 1
  {
    var n := |s| - 1;
    if i < n {
      WeakGone(s[..n], i);
      assert s[i := STRONG][..n] == s[..n][i := STRONG];
    } else {
      assert s[i := STRONG][..n] == s[..n];
    }
  }

  // ---------- coordinates ----------

  lemma Coordinates(y: nat, x: nat, w: nat, h: nat)
    requires x < w && y < h
    ensures y * w + x < w * h && (y * w + x) / w == y && (y * w + x) % w == x
  {
    DivModUnique(y * w + x, w, y, x);
    MulMono(y + 1, h, w);
    MulDistrib(y, 1, w);
  }

  lemma RowOf(i: nat, w: nat, h: nat)
    requires w > 0 && i < w * h
    ensures i == i / w * w + i % w && i % w < w && i / w < h
  {
    DivModDef(i, w);
    if i / w >= h { MulMono(h, i / w, w); }
  }

  /** The pixel in row `y` and column `x`; nothing outside the image is strong. */
  function Pixel(img: seq<byte>, w: nat, y: int, x: int): byte {
    if 0 <= y * w + x < |img| then img[y * w + x] else 0
  }

  /** The first `n` of the nine neighbours, row by row, are not strong. */
  ghost predicate Clear(img: seq<byte>, w: nat, y: nat, x: nat, n: nat) {
    forall k | 0 <= k < n :: Pixel(img, w, y - 1 + k / 3, x - 1 + k % 3) != STRONG
  }

  lemma ClearAll(img: seq<byte>, w: nat, h: nat, y: nat, x: nat, j: nat)
    requires |img| == w * h && 0 < y < h - 1 && 0 < x < w - 1 && Clear(img, w, y, x, 9)
    requires j < |img| && Adjacent(y * w + x, j, w)
    ensures img[j] != STRONG
  {
    Coordinates(y, x, w, h);
    RowOf(j, w, h);
    var k := 3 * (j / w - (y - 1)) + (j % w - (x - 1));
    assert k / 3 == j / w - (y - 1) && k % 3 == j % w - (x - 1);
    assert Pixel(img, w, y - 1 + k / 3, x - 1 + k % 3) != STRONG;
  }

  /** The search of the 3 x 3 neighbourhood; its `break` leaves the inner loop only. */
  method FindStrong(img: array<byte>, w: nat, h: nat, y: nat, x: nat) returns (connected: bool, ghost at: nat)
    requires img.Length == w * h && 0 < y < h - 1 && 0 < x < w - 1
    ensures connected ==> at < img.Length && img[at] == STRONG && Adjacent(y * w + x, at, w)
    ensures !connected ==> Clear(img[..], w, y, x, 9)
  {
    connected, at := false, 0;
    for i := -1 to 2
      invariant connected ==> at < img.Length && img[at] == STRONG && Adjacent(y * w + x, at, w)
      invariant !connected ==> Clear(img[..], w, y, x, 3 * (i + 1))
    {
      for j := -1 to 2
        invariant connected ==> at < img.Length && img[at] == STRONG && Adjacent(y * w + x, at, w)
        invariant !connected ==> Clear(img[..], w, y, x, 3 * (i + 1) + (j + 1))
      {
        Coordinates(y, x, w, h);
        Coordinates(y + i, x + j, w, h);
        if img[(y + i) * w + (x + j)] == STRONG {
          connected, at := true, (y + i) * w + (x + j);
          break;
        }
      }
    }
  }

  /** The pixels before number `n` have settled. */
  ghost predicate SettledTo(cur: seq<byte>, w: nat, h: nat, n: nat)
    requires w > 0
  {
    forall i | 0 <= i < n && i < |cur| :: Settled(cur, w, h, i)
  }

  /** What one sweep has come to before pixel `n`: a change uses up a weak pixel, and without one
      the pixels passed have settled. */
  ghost predicate Swept(img: seq<byte>, w: nat, h: nat, start: seq<byte>, cur: seq<byte>, changed: bool, n: nat)
    requires w > 0
  {
    && Grown(img, w, h, cur) && (changed ==> WeakCount(cur) < WeakCount(start))
    && (!changed ==> cur == start && SettledTo(cur, w, h, n))
  }

  /** One pixel of the sweep. */
  method Visit(img: array<byte>, w: nat, h: nat, y: nat, x: nat, before: bool, ghost img0: seq<byte>,
               ghost start: seq<byte>)
    returns (changed: bool)
    requires img.Length == w * h && 0 < y < h - 1 && 0 < x < w - 1
    requires Swept(img0, w, h, start, img[..], before, y * w + x)
    modifies img
    ensures Swept(img0, w, h, start, img[..], changed, y * w + x + 1)
  {
    changed := before;
    Coordinates(y, x, w, h);
    ghost var cur: seq<byte> := img[..];
    if img[y * w + x] == WEAK {
      var connected;
      ghost var at;
      connected, at := FindStrong(img, w, h, y, x);
      if connected {
        GrownStep(img0, w, h, cur, y * w + x, at);
        WeakGone(cur, y * w + x);
        img[y * w + x] := STRONG;
        assert img[..] == cur[y * w + x := STRONG];
        changed := true;
      } else {
        forall j | 0 <= j < |cur| && Adjacent(y * w + x, j, w) ensures cur[j] != STRONG {
          ClearAll(cur, w, h, y, x, j);
        }
      }
    }
  }

  /** No inner pixel lies between the last inner column of a row and the first of the next. */
  lemma NextRow(cur: seq<byte>, w: nat, h: nat, y: nat)
    requires w > 0 && |cur| == w * h && 0 < y < h - 1 && SettledTo(cur, w, h, y * w + (if w >= 2 then w - 1 else 1))
    ensures SettledTo(cur, w, h, (y + 1) * w + 1)
  {
    forall i | 0 <= i < (y + 1) * w + 1 && i < |cur|
      ensures Settled(cur, w, h, i)
    {
      RowOf(i, w, h);
      MulDistrib(y, 1, w);
      if i >= y * w + w - 1 && Inner(i, w, h) {
        if i / w <= y { MulMono(i / w, y, w); } else { MulMono(y + 1, i / w, w); }
      }
    }
  }

  /** The rows that are not swept hold no inner pixels. */
  lemma OuterRows(cur: seq<byte>, w: nat, h: nat)
    requires w > 0 && |cur| == w * h
    ensures SettledTo(cur, w, h, w + 1)
    ensures h >= 2 && SettledTo(cur, w, h, (h - 1) * w + 1) ==> SettledTo(cur, w, h, |cur|)
    ensures h < 2 ==> SettledTo(cur, w, h, |cur|)
  {
    forall i | 0 <= i < |cur| && (i < w + 1 || h < 2 || i >= (h - 1) * w)
      ensures !Inner(i, w, h)
    {
      RowOf(i, w, h);
      if i / w >= 2 { MulMono(2, i / w, w); }
      if h >= 2 && i >= (h - 1) * w && i / w < h - 1 {
        MulMono(i / w + 1, h - 1, w);
        MulDistrib(i / w, 1, w);
      }
    }
  }

  /** One sweep over the image, changing it in place. */
  method Sweep(img: array<byte>, w: nat, h: nat, ghost img0: seq<byte>) returns (changed: bool)
    requires w > 0 && img.Length == w * h && Grown(img0, w, h, img[..])
    modifies img
    ensures Grown(img0, w, h, img[..])
    ensures changed ==> WeakCount(img[..]) < old(WeakCount(img[..]))
    ensures !changed ==> SettledTo(img[..], w, h, img.Length)
  {
    changed := false;
    ghost var start: seq<byte> := img[..];
    OuterRows(start, w, h);
    var y := 1;
    while y < h - 1
      invariant 1 <= y && (y <= h - 1 || h < 2)
      invariant Swept(img0, w, h, start, img[..], changed, y * w + 1)
    {
      var x := 1;
      while x < w - 1
        invariant 1 <= x && (x <= w - 1 || w < 2)
        invariant Swept(img0, w, h, start, img[..], changed, y * w + x)
      {
        changed := Visit(img, w, h, y, x, changed, img0, start);
        x := x + 1;
      }
      if !changed { NextRow(img[..], w, h, y); }
      y := y + 1;
    }
  }

  /** The loop and the clean-up: in the end exactly the strong pixels and the weak inner pixels joined to them
      are strong, and no pixel is weak. The order of the sweep does not matter. */
  method TrackEdges(img: array<byte>, w: nat, h: nat)
    requires img.Length == w * h
    modifies img
    ensures w > 0 ==> forall i | 0 <= i < img.Length :: img[i] == old(Edge(img[..], w, h, i))
  {
    if w == 0 { return; }
    ghost var img0: seq<byte> := img[..];
    var changed := true;
    while changed
      invariant Grown(img0, w, h, img[..]) && (!changed ==> SettledTo(img[..], w, h, img.Length))
      decreases changed, WeakCount(img[..])
    {
      changed := Sweep(img, w, h, img0);
    }
    AllSettled(img0, w, h, img[..]);
    ClearWeak(img);
  }

  method ClearWeak(img: array<byte>)
    modifies img
    ensures forall i | 0 <= i < img.Length :: img[i] == if old(img[i]) == WEAK then 0 else old(img[i])
  {
    for i := 0 to img.Length
      invariant forall k | i <= k < img.Length :: img[k] == old(img[k])
      invariant forall k | 0 <= k < i :: img[k] == if old(img[k]) == WEAK then 0 else old(img[k])
    {
      if img[i] == WEAK { img[i] := 0; }
    }
  }
}
