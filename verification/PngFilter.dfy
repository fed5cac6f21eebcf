/** The PNG line filters for 8-bit samples: the writer's and the reader's, with their different Paeth predictors
    and first-row short cuts (PNG Second Edition, sections 9.2 to 9.4). */
module PngFilter {
  import opened Bits

  function Abs(x: int): nat { if x < 0 then -x else x }

  /** `stbiw__paeth`, the predictor as the standard gives it. */
  function Paeth(a: int, b: int, c: int): int {
    var p := a + b - c;
    var pa, pb, pc := Abs(p - a), Abs(p - b), Abs(p - c);
    if pa <= pb && pa <= pc then a else if pb <= pc then b else c
  }

  /** `stbi__paeth`, which compares a threshold with the lesser and the greater neighbour. */
  function FastPaeth(a: int, b: int, c: int): int {
    var thresh := c * 3 - (a + b);
    var lo := if a < b then a else b;
    var hi := if a < b then b else a;
    var t0 := if hi <= thresh then lo else c;
    if thresh <= lo then hi else t0
  }

  lemma PaethSame(a: int, b: int, c: int)
    ensures FastPaeth(a, b, c) == Paeth(a, b, c)
  {
  }

  /** One neighbour is enough when the other two are zero. */
  lemma PaethOne(v: nat)
    ensures Paeth(0, v, 0) == v && Paeth(v, 0, 0) == v
  {
  }

  // ---------- filters as functions ----------

  /** The prediction for sample `i` of a line, `n` samples a pixel: `done` holds the samples before it and `up`
      the line above. */
  function Predict(ft: nat, done: seq<byte>, up: seq<byte>, n: nat, i: nat): int
    requires i < |up| && i - n < |done| && n > 0
  {
    var left: int := if i >= n then done[i - n] else 0;
    var above: int := up[i];
    var corner: int := if i >= n then up[i - n] else 0;
    if ft == 0 then 0
    else if ft == 1 then left
    else if ft == 2 then above
    else if ft == 3 then (left + above) / 2
    else Paeth(left, above, corner)
  }

  function Filtered(ft: nat, z: seq<byte>, up: seq<byte>, n: nat): (f: seq<byte>)
    requires |up| == |z| && n > 0
    ensures |f| == |z|
  {
    seq(|z|, i requires 0 <= i < |z| => (z[i] - Predict(ft, z, up, n, i)) % 256)
  }

  function UnfilteredTo(ft: nat, raw: seq<byte>, up: seq<byte>, n: nat, k: nat): (z: seq<byte>)
    requires |up| == |raw| && n > 0 && k <= |raw|
    ensures |z| == k
  {
    if k == 0 then []
    else
      var done := UnfilteredTo(ft, raw, up, n, k - 1);
      done + [(raw[k - 1] + Predict(ft, done, up, n, k - 1)) % 256]
  }

  function Unfiltered(ft: nat, raw: seq<byte>, up: seq<byte>, n: nat): (z: seq<byte>)
    requires |up| == |raw| && n > 0
    ensures |z| == |raw|
  {
    UnfilteredTo(ft, raw, up, n, |raw|)
  }

  lemma ModBack(x: byte, p: int)
    ensures ((x - p) % 256 + p) % 256 == x && ((x + p) % 256 - p) % 256 == x
  {
    Wrapped(x, -((x - p) / 256));
    Wrapped(x, -((x + p) / 256));
  }

  lemma Wrapped(x: byte, q: int)
    ensures (x + 256 * q) % 256 == x
  {
  }

  /** The prediction looks only one pixel back. */
  lemma PredictSame(ft: nat, a: seq<byte>, b: seq<byte>, up: seq<byte>, n: nat, i: nat)
    requires i < |up| && n > 0 && i - n < |a| && i - n < |b| && (i >= n ==> a[i - n] == b[i - n])
    ensures Predict(ft, a, up, n, i) == Predict(ft, b, up, n, i)
  {
  }

  /** Unfiltering undoes filtering, whatever the filter and the line above. */
  lemma {:induction false} UnfilterFiltered(ft: nat, z: seq<byte>, up: seq<byte>, n: nat, k: nat)
    requires |up| == |z| && n > 0 && k <= |z|
    ensures UnfilteredTo(ft, Filtered(ft, z, up, n), up, n, k) == z[..k]
  {
    if k > 0 {
      UnfilterFiltered(ft, z, up, n, k - 1);
      PredictSame(ft, z[..k - 1], z, up, n, k - 1);
      ModBack(z[k - 1], Predict(ft, z, up, n, k - 1));
      assert z[..k] == z[..k - 1] + [z[k - 1]];
    }
  }

  /** Every line of filtered samples comes from exactly one line of pixels. */
  lemma {:induction false} FilterUnfiltered(ft: nat, raw: seq<byte>, up: seq<byte>, n: nat)
    requires |up| == |raw| && n > 0
    ensures Filtered(ft, Unfiltered(ft, raw, up, n), up, n) == raw
  {
    var z := Unfiltered(ft, raw, up, n);
    forall i | 0 <= i < |raw| ensures (z[i] - Predict(ft, z, up, n, i)) % 256 == raw[i] {
      UnfilteredAt(ft, raw, up, n, |raw|, i);
      ModBack(raw[i], Predict(ft, z, up, n, i));
    }
  }

  lemma {:induction false} UnfilteredAt(ft: nat, raw: seq<byte>, up: seq<byte>, n: nat, k: nat, i: nat)
    requires |up| == |raw| && n > 0 && i < k <= |raw|
    ensures var z := UnfilteredTo(ft, raw, up, n, k);
            z[i] == (raw[i] + Predict(ft, z, up, n, i)) % 256
  {
    var z, done := UnfilteredTo(ft, raw, up, n, k), UnfilteredTo(ft, raw, up, n, k - 1);
    if i < k - 1 {
      UnfilteredAt(ft, raw, up, n, k - 1, i);
      PredictSame(ft, z, done, up, n, i);
    } else {
      PredictSame(ft, z, done, up, n, i);
    }
  }

  // ---------- the writer ----------

  function ZeroLine(n: nat): (z: seq<byte>)
    ensures |z| == n && forall i | 0 <= i < n :: z[i] == 0
  {
    seq(n, _ => 0)
  }

  /** The writer's filter codes: 5 and 6 stand for the average and Paeth filters of the first line. */
  function LineType(first: bool, ft: nat): nat
    requires ft < 5
  {
    if !first then ft else [0, 1, 0, 5, 6][ft]
  }

  /** What the writer's code `t` computes for one sample. */
  function Coded(t: nat, v: byte, left: byte, above: byte, corner: byte): byte {
    var x: int, a: int, b: int := v, left, above;
    if t == 1 then (x - a) % 256
    else if t == 2 then (x - b) % 256
    else if t == 3 then (x - (a + b) / 2) % 256
    else if t == 4 then (x - Paeth(left, above, corner)) % 256
    else if t == 5 then (x - a / 2) % 256
    else (x - Paeth(left, 0, 0)) % 256
  }

  /** `stbiw__encode_png_line` for the line `z` below `up`; the first line has none above it and does not look. */
  method EncodeLine(z: seq<byte>, up: seq<byte>, first: bool, n: nat, ft: nat, line: array<byte>)
    requires n > 0 && n <= |z| == |up| == line.Length && ft < 5 && (first ==> up == ZeroLine(|z|))
    modifies line
    ensures line[..] == Filtered(ft, z, up, n)
  {
    var t := LineType(first, ft);
    if t == 0 {
      CopyLine(z, line);
      assert line[..] == Filtered(ft, z, up, n);
    } else {
      EncodeSamples(z, up, first, n, ft, t, line);
    }
  }

  method CopyLine(z: seq<byte>, line: array<byte>)
    requires line.Length == |z|
    modifies line
    ensures line[..] == z
  {
    for i := 0 to |z|
      invariant line[..i] == z[..i]
    {
      line[i] := z[i];
    }
    assert line[..] == line[..|z|] && z == z[..|z|];
  }

  method EncodeSamples(z: seq<byte>, up: seq<byte>, first: bool, n: nat, ft: nat, t: nat, line: array<byte>)
    requires n > 0 && n <= |z| == |up| == line.Length && ft < 5 && (first ==> up == ZeroLine(|z|))
             && t == LineType(first, ft) != 0
    modifies line
    ensures line[..] == Filtered(ft, z, up, n)
  {
    ghost var goal := Filtered(ft, z, up, n);
    for i := 0 to n
      invariant forall k | 0 <= k < i :: line[k] == goal[k]
    {
      PaethOne(z[i]);
      PaethOne(up[i]);
      line[i] := FirstPixel(t, z[i], up[i]);
    }
    for i := n to |z|
      invariant forall k | 0 <= k < i :: line[k] == goal[k]
    {
      line[i] := Coded(t, z[i], z[i - n], up[i], up[i - n]);
    }
  }

  /** The first pixel of a line has nothing to its left. */
  function FirstPixel(t: nat, v: byte, above: byte): byte {
    var x: int, b: int := v, above;
    if t == 2 then (x - b) % 256
    else if t == 3 then (x - b / 2) % 256
    else if t == 4 then (x - Paeth(0, b, 0)) % 256
    else v
  }

  /** The value of a byte read as a signed character. */
  function Signed(b: byte): int { if b < 128 then b else b - 256 }

  /** The writer's estimate of how well a filter does. */
  function Estimate(line: seq<byte>): nat {
    if line == [] then 0 else Estimate(line[..|line| - 1]) + Abs(Signed(line[|line| - 1]))
  }

  method SumLine(line: array<byte>) returns (est: nat)
    ensures est == Estimate(line[..])
  {
    est := 0;
    for i := 0 to line.Length
      invariant est == Estimate(line[..i])
    {
      assert line[..i + 1][..i] == line[..i];
      est := est + Abs(Signed(line[i]));
    }
    assert line[..line.Length] == line[..];
  }

  /** Filters one line with the forced filter, or with the first of the filters that have the least estimate. */
  method ChooseFilter(z: seq<byte>, up: seq<byte>, first: bool, n: nat, force: int, line: array<byte>) returns (ft: nat)
    requires n > 0 && n <= |z| == |up| == line.Length && force < 5 && (first ==> up == ZeroLine(|z|))
    requires force >= 0 || 128 * |z| < 0x7FFF_FFFF
    modifies line
    ensures ft < 5 && line[..] == Filtered(ft, z, up, n)
    ensures force >= 0 ==> ft == force
    ensures force < 0 ==> forall g: nat | g < 5 ::
              Estimate(Filtered(ft, z, up, n)) <= Estimate(Filtered(g, z, up, n))
              && (g < ft ==> Estimate(Filtered(ft, z, up, n)) < Estimate(Filtered(g, z, up, n)))
  {
    if force > -1 {
      ft := force;
      EncodeLine(z, up, first, n, force, line);
      return;
    }
    var best, best_val: int := 0, 0x7FFF_FFFF;
    ft := 0;
    while ft < 5
      invariant ft <= 5 && best < 5 && (ft == 0 ==> best_val == 0x7FFF_FFFF)
      invariant ft > 0 ==> best < ft && best_val == Estimate(Filtered(best, z, up, n))
      invariant forall g: nat | g < ft ::
                  best_val <= Estimate(Filtered(g, z, up, n))
                    && (g < best ==> best_val < Estimate(Filtered(g, z, up, n)))
    {
      EncodeLine(z, up, first, n, ft, line);
      var est := SumLine(line);
      EstimateBound(line[..]);
      if est < best_val { best_val, best := est, ft; }
      ft := ft + 1;
    }
    if ft != best {
      EncodeLine(z, up, first, n, best, line);
      ft := best;
    }
  }

  lemma {:induction false} EstimateBound(line: seq<byte>)
    ensures Estimate(line) <= 128 * |line|
  {
    if line != [] { EstimateBound(line[..|line| - 1]); }
  }

  // ---------- the reader ----------

  /** The reader's filter codes: 5 stands for the average filter of the first line. */
  function FirstRowFilter(ft: nat): nat
    requires ft < 5
  {
    [0, 1, 0, 5, 1][ft]
  }

  /** What the reader's code `f` computes for a sample beyond the first pixel. */
  function Decoded(f: nat, v: byte, left: byte, above: byte, corner: byte): byte {
    var x: int, a: int, b: int := v, left, above;
    if f == 0 then v
    else if f == 1 then (x + a) % 256
    else if f == 2 then (x + b) % 256
    else if f == 3 then (x + (b + a) / 2) % 256
    else if f == 4 then (x + FastPaeth(left, above, corner)) % 256
    else (x + a / 2) % 256
  }

  /** And for the first pixel of a line. */
  function DecodedFirst(f: nat, v: byte, above: byte): byte {
    var x: int, b: int := v, above;
    if f == 2 || f == 4 then (x + b) % 256 else if f == 3 then (x + b / 2) % 256 else v
  }

  /** One line is unfiltered into the buffer at `c`; the line above stands at `p`, and is not read for the first
      line. */
  method DecodeLine(raw: seq<byte>, buf: array<byte>, c: nat, p: nat, first: bool, n: nat, ft: nat, ghost up: seq<byte>)
    requires n > 0 && n <= |raw| == |up| && ft < 5 && c + |raw| <= buf.Length && p + |raw| <= buf.Length
    requires c + |raw| <= p || p + |raw| <= c
    requires if first then up == ZeroLine(|raw|) else up == buf[p..p + |raw|]
    modifies buf
    ensures buf[c..c + |raw|] == Unfiltered(ft, raw, up, n)
  {
    ghost var goal := Unfiltered(ft, raw, up, n);
    DecodeFirstPixel(raw, buf, c, p, first, n, ft, up, goal);
    var f := if first then FirstRowFilter(ft) else ft;
    for k := n to |raw|
      invariant forall i | 0 <= i < k :: buf[c + i] == goal[i]
      invariant forall i | 0 <= i < |raw| && !first :: buf[p + i] == up[i]
    {
      DecodedAgrees(ft, first, raw, up, goal, n, k, buf[p + k], buf[p + k - n]);
      buf[c + k] := Decoded(f, raw[k], buf[c + k - n], buf[p + k], buf[p + k - n]);
    }
    assert buf[c..c + |raw|] == goal;
  }

  method DecodeFirstPixel(raw: seq<byte>, buf: array<byte>, c: nat, p: nat, first: bool, n: nat, ft: nat,
                          ghost up: seq<byte>, ghost goal: seq<byte>)
    requires n > 0 && n <= |raw| == |up| && ft < 5 && c + |raw| <= buf.Length && p + |raw| <= buf.Length
    requires c + |raw| <= p || p + |raw| <= c
    requires if first then up == ZeroLine(|raw|) else up == buf[p..p + |raw|]
    requires goal == Unfiltered(ft, raw, up, n)
    modifies buf
    ensures forall i | 0 <= i < n :: buf[c + i] == goal[i]
    ensures forall i | 0 <= i < |raw| && !first :: buf[p + i] == up[i]
  {
    var f := if first then FirstRowFilter(ft) else ft;
    for k := 0 to n
      invariant forall i | 0 <= i < k :: buf[c + i] == goal[i]
      invariant forall i | 0 <= i < |raw| && !first :: buf[p + i] == up[i]
    {
      UnfilteredAt(ft, raw, up, n, |raw|, k);
      PaethOne(up[k]);
      buf[c + k] := DecodedFirst(f, raw[k], buf[p + k]);
    }
  }

  /** The reader's formulas are those of the standard; on the first line they do not depend on the buffer. */
  lemma DecodedAgrees(ft: nat, first: bool, raw: seq<byte>, up: seq<byte>, goal: seq<byte>, n: nat, k: nat, above: byte,
                      corner: byte)
    requires 0 < n <= k < |raw| == |up| && ft < 5 && goal == Unfiltered(ft, raw, up, n)
    requires if first then up == ZeroLine(|raw|) else above == up[k] && corner == up[k - n]
    ensures Decoded(if first then FirstRowFilter(ft) else ft, raw[k], goal[k - n], above, corner) == goal[k]
  {
    UnfilteredAt(ft, raw, up, n, |raw|, k);
    PaethSame(goal[k - n], up[k], up[k - n]);
    PaethOne(goal[k - n]);
  }
}
