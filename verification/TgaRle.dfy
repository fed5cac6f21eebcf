/** TGA images with run-length coding: pixels of one to four bytes, rows bottom up, colours in file order. */
module TgaRle {
  import opened Sequences
  import opened Bits
  import opened SizeChecks
  import opened ByteInput
  import opened RowOrder

  type Pixel = seq<byte>

  /** The bytes of a pixel as they stand in the file: red and blue trade places. */
  function FileOrder(p: Pixel): (q: Pixel)
    ensures |q| == |p|
  {
    if |p| >= 3 then p[0 := p[2]][2 := p[0]] else p
  }

  lemma FileOrderTwice(p: Pixel)
    ensures FileOrder(FileOrder(p)) == p
  {
  }

  ghost predicate AllPixels(s: seq<Pixel>, comp: nat) { forall i | 0 <= i < |s| :: |s[i]| == comp }

  function Repeat(p: Pixel, n: nat): (s: seq<Pixel>)
    ensures |s| == n && forall i | 0 <= i < n :: s[i] == p
  {
    seq(n, _ => p)
  }

  function PixelBytes(s: seq<Pixel>): seq<byte> { if s == [] then [] else FileOrder(s[0]) + PixelBytes(s[1..]) }

  datatype Packet = Raw(px: seq<Pixel>) | Run(n: nat, p: Pixel)

  ghost predicate Legal(k: Packet, comp: nat) {
    match k
    case Raw(px) => 1 <= |px| <= 128 && AllPixels(px, comp)
    case Run(n, p) => 1 <= n <= 128 && |p| == comp
  }

  ghost function Plain(k: Packet): seq<Pixel> {
    match k
    case Raw(px) => px
    case Run(n, p) => Repeat(p, n)
  }

  ghost function Bytes(k: Packet, comp: nat): seq<byte>
    requires Legal(k, comp)
  {
    match k
    case Raw(px) => [|px| - 1] + PixelBytes(px)
    case Run(n, p) => [n + 127] + FileOrder(p)
  }

  ghost predicate AllLegal(ps: seq<Packet>, comp: nat) { forall i | 0 <= i < |ps| :: Legal(ps[i], comp) }

  ghost function AllPlain(ps: seq<Packet>): seq<Pixel> { if ps == [] then [] else Plain(ps[0]) + AllPlain(ps[1..]) }

  ghost function AllBytes(ps: seq<Packet>, comp: nat): seq<byte>
    requires AllLegal(ps, comp)
  {
    if ps == [] then [] else Bytes(ps[0], comp) + AllBytes(ps[1..], comp)
  }

  lemma {:induction false} Snoc(ps: seq<Packet>, k: Packet, comp: nat)
    requires AllLegal(ps, comp) && Legal(k, comp)
    ensures AllLegal(ps + [k], comp)
    ensures AllPlain(ps + [k]) == AllPlain(ps) + Plain(k) && AllBytes(ps + [k], comp) == AllBytes(ps, comp)
            + Bytes(k, comp)
  {
    if ps == [] {
      assert ([] + [k])[1..] == [];
    } else {
      Snoc(ps[1..], k, comp);
      assert (ps + [k])[1..] == ps[1..] + [k];
      Regrouped(Plain(ps[0]), AllPlain(ps[1..]), Plain(k));
      Regrouped(Bytes(ps[0], comp), AllBytes(ps[1..], comp), Bytes(k, comp));
    }
  }

  lemma {:induction false} PixelSnoc(s: seq<Pixel>, p: Pixel)
    ensures PixelBytes(s + [p]) == PixelBytes(s) + FileOrder(p)
  {
    if s == [] {
      assert ([] + [p])[1..] == [];
    } else {
      PixelSnoc(s[1..], p);
      assert (s + [p])[1..] == s[1..] + [p];
      Regrouped(FileOrder(s[0]), PixelBytes(s[1..]), FileOrder(p));
    }
  }

  // ---------- the writer ----------

  /** How many pixels the next packet takes, and whether they differ. The scan for a literal packet compares each
      pixel with the one two places before it. */
  method Measure(row: seq<Pixel>, i: nat) returns (len: nat, diff: bool)
    requires i < |row|
    ensures 1 <= len <= 128 && i + len <= |row|
    ensures !diff ==> forall z | i <= z < i + len :: row[z] == row[i]
  {
    diff, len := true, 1;
    if i < |row| - 1 {
      len := 2;
      diff := row[i] != row[i + 1];
      var k := i + 2;
      if diff {
        var prev := i;
        while k < |row| && len < 128
          invariant k == i + len <= |row| && 2 <= len <= 128 && prev == k - 2
          decreases |row| - k
        {
          if row[prev] != row[k] {
            prev := prev + 1;
            len := len + 1;
          } else {
            len := len - 1;
            return;
          }
          k := k + 1;
        }
      } else {
        while k < |row| && len < 128
          invariant k == i + len <= |row| && 2 <= len <= 128
          invariant forall z | i <= z < k :: row[z] == row[i]
          decreases |row| - k
        {
          if row[i] == row[k] { len := len + 1; } else { return; }
          k := k + 1;
        }
      }
    }
  }

  /** `stbiw__write_pixel` as the TGA writer calls it: colours backwards, alpha last. */
  method WritePixel(d: Pixel) returns (b: seq<byte>)
    requires 1 <= |d| <= 4
    ensures b == FileOrder(d)
  {
    b := if |d| < 3 then [d[0]] else [d[2], d[1], d[0]];
    if |d| == 2 || |d| == 4 { b := b + [d[|d| - 1]]; }
  }

  method WriteLiteral(px: seq<Pixel>, comp: nat) returns (b: seq<byte>)
    requires 1 <= comp <= 4 && AllPixels(px, comp)
    ensures b == PixelBytes(px)
  {
    b := [];
    for k := 0 to |px|
      invariant b == PixelBytes(px[..k])
    {
      var d := WritePixel(px[k]);
      PixelSnoc(px[..k], px[k]);
      assert px[..k + 1] == px[..k] + [px[k]];
      b := b + d;
    }
    assert px[..|px|] == px;
  }

  /** The pixels `done` have been written as the packets `ps`. */
  ghost predicate Sent(done: seq<Pixel>, comp: nat, out: seq<byte>, ps: seq<Packet>) {
    AllLegal(ps, comp) && AllPlain(ps) == done && out == AllBytes(ps, comp)
  }

  /** The pixels before `i` of a row, after those of `done`, have been written as the packets `ps`. */
  ghost predicate Written(done: seq<Pixel>, row: seq<Pixel>, i: nat, comp: nat, out: seq<byte>, ps: seq<Packet>) {
    i <= |row| && Sent(done + row[..i], comp, out, ps)
  }

  lemma WrittenMore(done: seq<Pixel>, row: seq<Pixel>, i: nat, comp: nat, out: seq<byte>, ps: seq<Packet>, k: Packet)
    requires Written(done, row, i, comp, out, ps) && Legal(k, comp)
    requires i + |Plain(k)| <= |row| && Plain(k) == row[i..i + |Plain(k)|]
    ensures Written(done, row, i + |Plain(k)|, comp, out + Bytes(k, comp), ps + [k])
  {
    var n := |Plain(k)|;
    RowPieces(done, row, i, n);
    SentPiece(done + row[..i], row[i..i + n], done + row[..i + n], comp, out, ps, k);
  }

  lemma SentPiece(done: seq<Pixel>, piece: seq<Pixel>, after: seq<Pixel>, comp: nat, out: seq<byte>, ps: seq<Packet>,
                  k: Packet)
    requires Sent(done, comp, out, ps) && Legal(k, comp) && Plain(k) == piece && after == done + piece
    ensures Sent(after, comp, out + Bytes(k, comp), ps + [k])
  {
    SentMore(done, comp, out, ps, k);
  }

  lemma SentMore(done: seq<Pixel>, comp: nat, out: seq<byte>, ps: seq<Packet>, k: Packet)
    requires Sent(done, comp, out, ps) && Legal(k, comp)
    ensures Sent(done + Plain(k), comp, out + Bytes(k, comp), ps + [k])
  {
    Snoc(ps, k, comp);
  }

  lemma RowPieces(done: seq<Pixel>, row: seq<Pixel>, i: nat, n: nat)
    requires i + n <= |row|
    ensures (done + row[..i]) + row[i..i + n] == done + row[..i + n]
  {
    assert row[..i] + row[i..i + n] == row[..i + n];
  }

  /** The next packet of a row. */
  method WritePacket(row: seq<Pixel>, i: nat, comp: nat) returns (b: seq<byte>, len: nat, ghost k: Packet)
    requires 1 <= comp <= 4 && AllPixels(row, comp) && i < |row|
    ensures 1 <= len <= |row| - i && Legal(k, comp) && b == Bytes(k, comp) && Plain(k) == row[i..i + len]
  {
    var diff;
    len, diff := Measure(row, i);
    if diff {
      var px := row[i..i + len];
      b := WriteLiteral(px, comp);
      k := Raw(px);
      b := [len - 1] + b;
    } else {
      b := WritePixel(row[i]);
      k := Run(len, row[i]);
      var header: int := len;
      header := (header - 129) % 256;
      assert Repeat(row[i], len) == row[i..i + len];
      b := [header] + b;
    }
  }

  /** One row; every packet makes progress, and its length is in range. */
  method WriteRow(row: seq<Pixel>, comp: nat, before: seq<byte>, ghost done: seq<Pixel>, ghost before_ps: seq<Packet>)
    returns (out: seq<byte>, ghost ps: seq<Packet>)
    requires 1 <= comp <= 4 && AllPixels(row, comp) && Sent(done, comp, before, before_ps)
    ensures Sent(done + row, comp, out, ps)
  {
    out, ps := before, before_ps;
    assert done + row[..0] == done;
    var i := 0;
    while i < |row|
      invariant 0 <= i <= |row| && Written(done, row, i, comp, out, ps)
      decreases |row| - i
    {
      ghost var k;
      var b, len;
      b, len, k := WritePacket(row, i, comp);
      WrittenMore(done, row, i, comp, out, ps, k);
      ps := ps + [k];
      out := out + b;
      i := i + len;
    }
    assert row[..|row|] == row;
  }

  /** A whole image without its header, from the bottom row to the top one. */
  method WriteRows(rows: seq<seq<Pixel>>, comp: nat) returns (out: seq<byte>, ghost ps: seq<Packet>)
    requires 1 <= comp <= 4 && forall j | 0 <= j < |rows| :: AllPixels(rows[j], comp)
    ensures Sent(Upwards(rows), comp, out, ps)
  {
    out, ps := [], [];
    var j := |rows| - 1;
    assert rows[..|rows|] == rows;
    ghost var done: seq<Pixel> := [];
    assert rows[|rows|..] == [];
    while j >= 0
      invariant -1 <= j < |rows| && Sent(done, comp, out, ps) && done + Upwards(rows[..j + 1]) == Upwards(rows)
    {
      out, ps := WriteRow(rows[j], comp, out, done, ps);
      assert rows[..j + 1][..j] == rows[..j];
      Regrouped(done, rows[j], Upwards(rows[..j]));
      done := done + rows[j];
      j := j - 1;
    }
    assert done + [] == done;
  }

  /** The pixels of an image, last row first. */
  ghost function Upwards(rows: seq<seq<Pixel>>): seq<Pixel> {
    if rows == [] then [] else rows[|rows| - 1] + Upwards(rows[..|rows| - 1])
  }

  // ---------- the reader ----------

  ghost function InFile(s: seq<Pixel>): (r: seq<Pixel>)
    ensures |r| == |s|
  {
    seq(|s|, i requires 0 <= i < |s| => FileOrder(s[i]))
  }

  /** The decoder's three variables, and what it has left to do: the pixels `left` of the current packet, and
      the packets `ps` after it. */
  ghost predicate Expecting(count: int, repeating: bool, raw: Pixel, input: seq<byte>, pos: nat, comp: nat,
                            left: seq<Pixel>, ps: seq<Packet>, rest: seq<byte>) {
    && pos <= |input| && AllLegal(ps, comp) && AllPixels(left, comp) && count == |left|
    && if repeating then InFile(left) == Repeat(raw, |left|) && input[pos..] == AllBytes(ps, comp) + rest
       else input[pos..] == PixelBytes(left) + (AllBytes(ps, comp) + rest)
  }

  /** The command byte of the next packet, if one is due. */
  method NextCommand(input: seq<byte>, pos: nat, count: int, repeating: bool, ghost raw: Pixel, ghost comp: nat,
                     ghost left: seq<Pixel>, ghost ps: seq<Packet>, ghost rest: seq<byte>)
    returns (pos': nat, count': int, repeating': bool, read: bool, ghost left': seq<Pixel>, ghost ps': seq<Packet>)
    requires count >= 0
    ensures count' > 0
    ensures Expecting(count, repeating, raw, input, pos, comp, left, ps, rest) && left + AllPlain(ps) != []
            ==> left' != [] && left' + AllPlain(ps') == left + AllPlain(ps)
                && if read && repeating' then Fresh(input, pos', comp, count', left', ps', rest)
                   else Expecting(count', repeating', raw, input, pos', comp, left', ps', rest)
    ensures !read ==> repeating'
  {
    pos', count', repeating', read, left', ps' := pos, count, repeating, false, left, ps;
    if count == 0 {
      var cmd: nat := Get8(input, pos);
      pos' := pos + 1;
      count' := 1 + cmd % 128;
      repeating' := cmd / 128 == 1;
      read := true;
      if Expecting(count, repeating, raw, input, pos, comp, left, ps, rest) && left + AllPlain(ps) != [] {
        CommandAhead(input, pos, comp, ps, rest);
        left', ps' := Plain(ps[0]), ps[1..];
        assert left + AllPlain(ps) == AllPlain(ps);
      }
    } else if !repeating {
      read := true;
    }
  }

  /** A run whose pixel has not been read yet. */
  ghost predicate Fresh(input: seq<byte>, pos: nat, comp: nat, count: int, left: seq<Pixel>, ps: seq<Packet>,
                        rest: seq<byte>) {
    && pos <= |input| && AllLegal(ps, comp) && AllPixels(left, comp) && count == |left| > 0
    && left == Repeat(left[0], |left|) && input[pos..] == FileOrder(left[0]) + (AllBytes(ps, comp) + rest)
  }

  lemma CommandAhead(input: seq<byte>, pos: nat, comp: nat, ps: seq<Packet>, rest: seq<byte>)
    requires pos <= |input| && AllLegal(ps, comp) && input[pos..] == AllBytes(ps, comp) + rest && AllPlain(ps) != []
    ensures ps != []
    ensures var cmd: nat := Get8(input, pos); var left := Plain(ps[0]);
            && 1 + cmd % 128 == |left| && AllPixels(left, comp)
            && if cmd / 128 == 1 then Fresh(input, pos + 1, comp, |left|, left, ps[1..], rest)
               else pos + 1 <= |input| && input[pos + 1..] == PixelBytes(left) + (AllBytes(ps[1..], comp) + rest)
  {
    var cmd, body := Bytes(ps[0], comp)[..1], Bytes(ps[0], comp)[1..];
    var more := AllBytes(ps[1..], comp) + rest;
    Regrouped(Bytes(ps[0], comp), AllBytes(ps[1..], comp), rest);
    Regrouped(cmd, body, more);
    assert Bytes(ps[0], comp) == cmd + body;
    Front(input, pos, cmd, body + more);
    assert input[pos] == input[pos..pos + 1][0] == cmd[0];
    match ps[0] {
      case Raw(px) => assert body == PixelBytes(px) && cmd[0] == |px| - 1;
      case Run(n, p) => assert body == FileOrder(p) && cmd[0] == n + 127;
    }
  }

  /** Reads the bytes of one pixel. */
  method ReadPixel(input: seq<byte>, pos: nat, comp: nat) returns (raw: Pixel, pos': nat)
    ensures |raw| == comp && pos' == pos + comp
    ensures pos + comp <= |input| ==> raw == input[pos..pos + comp]
  {
    raw, pos' := [], pos;
    for j := 0 to comp
      invariant |raw| == j && pos' == pos + j && forall z | 0 <= z < j :: raw[z] == Get8(input, pos + z)
    {
      raw := raw + [Get8(input, pos')];
      pos' := pos' + 1;
    }
  }

  /** The decoder is about to produce the pixels `want`. (`k`, always left at its default, keeps this folded.) */
  ghost predicate Coming(count: int, repeating: bool, raw: Pixel, input: seq<byte>, pos: nat, comp: nat,
                         left: seq<Pixel>, ps: seq<Packet>, rest: seq<byte>, want: seq<Pixel>, k: nat := 3)
    decreases |want|, k
  {
    if k > 0 then Coming(count, repeating, raw, input, pos, comp, left, ps, rest, want, k - 1)
    else Expecting(count, repeating, raw, input, pos, comp, left, ps, rest) && left + AllPlain(ps) == want
  }

  lemma ComingDef(count: int, repeating: bool, raw: Pixel, input: seq<byte>, pos: nat, comp: nat,
                  left: seq<Pixel>, ps: seq<Packet>, rest: seq<byte>, want: seq<Pixel>)
    ensures Coming(count, repeating, raw, input, pos, comp, left, ps, rest, want)
            <==> Expecting(count, repeating, raw, input, pos, comp, left, ps, rest) && left + AllPlain(ps) == want
  {
    assert Coming(count, repeating, raw, input, pos, comp, left, ps, rest, want, 1)
        == Coming(count, repeating, raw, input, pos, comp, left, ps, rest, want, 0);
    assert Coming(count, repeating, raw, input, pos, comp, left, ps, rest, want, 2)
        == Coming(count, repeating, raw, input, pos, comp, left, ps, rest, want, 1);
  }

  /** One round of the loop of `stbi__tga_load`. */
  method NextPixel(input: seq<byte>, pos: nat, count: int, repeating: bool, raw: Pixel, comp: nat,
                   ghost left: seq<Pixel>, ghost ps: seq<Packet>, ghost rest: seq<byte>, ghost want: seq<Pixel>)
    returns (pos': nat, count': int, repeating': bool, raw': Pixel, ghost left': seq<Pixel>, ghost ps': seq<Packet>)
    requires count >= 0 && want != []
    ensures count' >= 0
    ensures Coming(count, repeating, raw, input, pos, comp, left, ps, rest, want)
            ==> raw' == FileOrder(want[0]) && Coming(count', repeating', raw', input, pos', comp, left', ps', rest,
              want[1..])
  {
    var read;
    ghost var l1, p1;
    ComingDef(count, repeating, raw, input, pos, comp, left, ps, rest, want);
    pos', count', repeating', read, l1, p1 := NextCommand(input, pos, count, repeating, raw, comp, left, ps, rest);
    raw' := raw;
    ghost var pos1 := pos';
    if read { raw', pos' := ReadPixel(input, pos', comp); }
    left', ps' := if l1 == [] then [] else l1[1..], p1;
    if Coming(count, repeating, raw, input, pos, comp, left, ps, rest, want) {
      PixelTaken(input, pos1, comp, count', repeating', read, raw, l1, p1, rest, raw', pos', want);
    }
    count' := count' - 1;
  }

  lemma PixelTaken(input: seq<byte>, pos: nat, comp: nat, count: int, repeating: bool, read: bool, raw0: Pixel,
                   left: seq<Pixel>,
                   ps: seq<Packet>, rest: seq<byte>, raw: Pixel, pos': nat, want: seq<Pixel>)
    requires left != [] && left + AllPlain(ps) == want && (!read ==> repeating && raw == raw0 && pos' == pos)
    requires if read && repeating then Fresh(input, pos, comp, count, left, ps, rest)
             else Expecting(count, repeating, raw0, input, pos, comp, left, ps, rest)
    requires read ==> |raw| == comp && pos' == pos + comp && (pos' <= |input| ==> raw == input[pos..pos'])
    ensures raw == FileOrder(want[0]) && Coming(count - 1, repeating, raw, input, pos', comp, left[1..], ps, rest,
            want[1..])
  {
    if read && repeating {
      RunStarts(input, pos, comp, count, left, ps, rest, raw);
    } else if read {
      LiteralGoesOn(input, pos, comp, count, raw0, left, ps, rest, raw);
    } else {
      RunGoesOn(input, pos, comp, count, left, ps, rest, raw);
    }
    TailOfSum(left, AllPlain(ps), want);
    ComingDef(count - 1, repeating, raw, input, pos', comp, left[1..], ps, rest, want[1..]);
  }

  lemma TailOfSum(a: seq<Pixel>, b: seq<Pixel>, c: seq<Pixel>)
    requires a != [] && a + b == c
    ensures c != [] && c[0] == a[0] && a[1..] + b == c[1..]
  {
  }

  lemma RunStarts(input: seq<byte>, pos: nat, comp: nat, count: int, left: seq<Pixel>, ps: seq<Packet>, rest: seq<byte>,
                  raw: Pixel)
    requires Fresh(input, pos, comp, count, left, ps, rest)
    requires |raw| == comp && (pos + comp <= |input| ==> raw == input[pos..pos + comp])
    ensures raw == FileOrder(left[0]) && Expecting(count - 1, true, raw, input, pos + comp, comp, left[1..], ps, rest)
  {
    Front(input, pos, FileOrder(left[0]), AllBytes(ps, comp) + rest);
    forall i | 0 <= i < |left| - 1 ensures left[1..][i] == left[0] {
      assert left[1 + i] == Repeat(left[0], |left|)[1 + i];
    }
    assert InFile(left[1..]) == Repeat(raw, |left| - 1);
  }

  lemma RunGoesOn(input: seq<byte>, pos: nat, comp: nat, count: int, left: seq<Pixel>, ps: seq<Packet>, rest: seq<byte>,
                  raw: Pixel)
    requires Expecting(count, true, raw, input, pos, comp, left, ps, rest) && left != []
    ensures raw == FileOrder(left[0]) && Expecting(count - 1, true, raw, input, pos, comp, left[1..], ps, rest)
  {
    assert InFile(left)[0] == Repeat(raw, |left|)[0];
    forall i | 0 <= i < |left| - 1 ensures InFile(left[1..])[i] == raw {
      assert InFile(left)[1 + i] == Repeat(raw, |left|)[1 + i];
    }
    assert InFile(left[1..]) == Repeat(raw, |left| - 1);
  }

  lemma LiteralGoesOn(input: seq<byte>, pos: nat, comp: nat, count: int, raw0: Pixel, left: seq<Pixel>, ps: seq<Packet>,
                      rest: seq<byte>, raw: Pixel)
    requires Expecting(count, false, raw0, input, pos, comp, left, ps, rest) && left != []
    requires |raw| == comp && (pos + comp <= |input| ==> raw == input[pos..pos + comp])
    ensures raw == FileOrder(left[0]) && Expecting(count - 1, false, raw, input, pos + comp, comp, left[1..], ps, rest)
  {
    Regrouped(FileOrder(left[0]), PixelBytes(left[1..]), AllBytes(ps, comp) + rest);
    Front(input, pos, FileOrder(left[0]), PixelBytes(left[1..]) + (AllBytes(ps, comp) + rest));
  }

  /** The decoding loop: the pixels in file order. */
  method LoadPixels(input: seq<byte>, start: nat, n: nat, comp: nat, ghost pixels: seq<Pixel>,
                    ghost wanted: seq<Packet>, ghost rest: seq<byte>)
    returns (data: array<Pixel>)
    requires start <= |input|
    ensures fresh(data) && data.Length == n
    ensures AllLegal(wanted, comp) && AllPlain(wanted) == pixels && |pixels| == n
            && input[start..] == AllBytes(wanted, comp) + rest
            ==> forall z | 0 <= z < n :: data[z] == FileOrder(pixels[z])
  {
    data := new Pixel[n](_ => []);
    ghost var good := AllLegal(wanted, comp) && AllPlain(wanted) == pixels && |pixels| == n
                      && input[start..] == AllBytes(wanted, comp) + rest;
    var pos, count, repeating := start, 0, false;
    var raw: Pixel := [0, 0, 0, 0];
    ghost var left: seq<Pixel>, ps := [], wanted;
    if good { Begin(raw, input, start, comp, wanted, rest, pixels); }
    assert pixels[0..] == pixels;
    for i := 0 to n
      invariant count >= 0
      invariant good ==> Coming(count, repeating, raw, input, pos, comp, left, ps, rest, pixels[i..])
      invariant good ==> forall z | 0 <= z < i :: data[z] == FileOrder(pixels[z])
    {
      ghost var want := if good then pixels[i..] else [[]];
      pos, count, repeating, raw, left, ps := NextPixel(input, pos, count, repeating, raw, comp, left, ps, rest, want);
      data[i] := raw;
      assert good ==> want[0] == pixels[i] && want[1..] == pixels[i + 1..];
    }
  }

  lemma Begin(raw: Pixel, input: seq<byte>, start: nat, comp: nat, ps: seq<Packet>, rest: seq<byte>, want: seq<Pixel>)
    requires start <= |input| && AllLegal(ps, comp) && AllPlain(ps) == want
             && input[start..] == AllBytes(ps, comp) + rest
    ensures Coming(0, false, raw, input, start, comp, [], ps, rest, want)
  {
    assert [] + AllPlain(ps) == want;
    assert [] + (AllBytes(ps, comp) + rest) == AllBytes(ps, comp) + rest;
    ComingDef(0, false, raw, input, start, comp, [], ps, rest, want);
  }

  // ---------- colours ----------

  /** The final colour swap. */
  method SwapColours(data: array<Pixel>)
    modifies data
    ensures data[..] == InFile(old(data[..]))
  {
    for i := 0 to data.Length
      invariant forall z | 0 <= z < i :: data[z] == FileOrder(old(data[z]))
      invariant forall z | i <= z < data.Length :: data[z] == old(data[z])
    {
      var p := data[i];
      if |p| >= 3 { data[i] := p[0 := p[2]][2 := p[0]]; }
    }
  }

  // ---------- header ----------

  function Le16(n: nat): (b: seq<byte>)
    ensures |b| == 2
  {
    [n % 256, n / 256 % 256]
  }

  /** The 18 header bytes of a run-length coded image without palette. */
  function HeaderBytes(x: nat, y: nat, comp: nat): (h: seq<byte>)
    requires 1 <= comp <= 4
    ensures |h| == 18
  {
    var alpha := if comp == 2 || comp == 4 then 1 else 0;
    [0, 0, (if comp - alpha < 2 then 3 else 2) + 8] + Le16(0) + Le16(0) + [0] + Le16(0) + Le16(0) + Le16(x) + Le16(y)
    + [comp * 8, alpha * 8]
  }

  /** `stbi__tga_get_comp` */
  function GetComp(bits: nat, grey: bool): (nat, bool) {
    if bits == 8 then (1, false)
    else if bits == 16 && grey then (2, false)
    else if bits == 16 || bits == 15 then (3, true)
    else if bits == 24 || bits == 32 then (bits / 8, false)
    else (0, false)
  }

  datatype Header = Header(indexed: bool, rle: bool, comp: nat, rgb16: bool, inverted: bool, w: nat, h: nat, skip: nat)

  /** Reads the header fields that the decoding of unpaletted images needs. */
  method ReadHeader(input: seq<byte>) returns (hd: Header)
    ensures forall x: nat, y: nat, comp: nat | 1 <= comp <= 4 && x < 0x1_0000 && y < 0x1_0000
            && HeaderBytes(x, y, comp) <= input
              :: hd == Header(false, true, comp, false, true, x, y, 0)
  {
    var offset: nat, indexed: nat, kind: nat := Get8(input, 0), Get8(input, 1), Get8(input, 2);
    var w, h := Get16le(input, 12), Get16le(input, 14);
    var bits: nat, descriptor: nat := Get8(input, 16), Get8(input, 17);
    var rle := kind >= 8;
    if rle { kind := kind - 8; }
    var inverted := 1 - descriptor / 32 % 2;
    var (comp, rgb16) := GetComp(bits, kind == 3);
    hd := Header(indexed != 0, rle, comp, rgb16, inverted == 1, w, h, offset);
    forall x: nat, y: nat, c: nat | 1 <= c <= 4 && x < 0x1_0000 && y < 0x1_0000 && HeaderBytes(x, y, c) <= input
      ensures hd == Header(false, true, c, false, true, x, y, 0)
    {
      HeaderFields(input, x, y, c);
    }
  }

  lemma HeaderFields(input: seq<byte>, x: nat, y: nat, comp: nat)
    requires 1 <= comp <= 4 && x < 0x1_0000 && y < 0x1_0000 && HeaderBytes(x, y, comp) <= input
    ensures var alpha := if comp == 2 || comp == 4 then 1 else 0;
            && Get8(input, 0) == 0 && Get8(input, 1) == 0 && Get8(input, 2) == (if comp - alpha < 2 then 3 else 2) + 8
            && Get16le(input, 12) == x && Get16le(input, 14) == y && Get8(input, 16) == comp * 8
              && Get8(input, 17) == alpha * 8
  {
    var h := HeaderBytes(x, y, comp);
    forall i | 0 <= i < 18 ensures Get8(input, i) == h[i] { }
    assert h[12..14] == Le16(x) && h[14..16] == Le16(y);
    assert h[12] == Le16(x)[0] && h[13] == Le16(x)[1] && h[14] == Le16(y)[0] && h[15] == Le16(y)[1];
  }

  // ---------- whole images ----------

  ghost predicate Image(rows: seq<seq<Pixel>>, w: nat, comp: nat) {
    forall j | 0 <= j < |rows| :: |rows[j]| == w && AllPixels(rows[j], comp)
  }

  lemma {:induction false} UpwardsLength(rows: seq<seq<Pixel>>, w: nat, comp: nat)
    requires Image(rows, w, comp)
    ensures |Upwards(rows)| == Start(w, |rows|) && AllPixels(Upwards(rows), comp)
  {
    if rows != [] { UpwardsLength(rows[..|rows| - 1], w, comp); }
  }

  /** Row `j` of the file is row `h - 1 - j` of the image. */
  lemma {:induction false} UpwardsRow(rows: seq<seq<Pixel>>, w: nat, comp: nat, j: nat)
    requires Image(rows, w, comp) && j < |rows|
    ensures |Upwards(rows)| == Start(w, |rows|) && Row(Upwards(rows), w, |rows|, j) == rows[|rows| - 1 - j]
  {
    var n := |rows| - 1;
    UpwardsLength(rows, w, comp);
    UpwardsLength(rows[..n], w, comp);
    if j == 0 {
      assert Upwards(rows)[..w] == rows[n];
    } else {
      UpwardsRow(rows[..n], w, comp, j - 1);
      ShiftedRow(rows[n], Upwards(rows[..n]), w, n, j);
    }
  }

  lemma ShiftedRow(a: seq<Pixel>, b: seq<Pixel>, w: nat, n: nat, j: nat)
    requires |a| == w && |b| == Start(w, n) && 0 < j <= n
    ensures |a + b| == Start(w, n + 1) && Row(a + b, w, n + 1, j) == Row(b, w, n, j - 1)
  {
    var x := Start(w, j - 1);
    StartMono(w, j - 1, n);
    StartMono(w, j, n + 1);
    assert Start(w, j) == w + x;
    assert Piece(a + b, w + x, w) == Piece(b, x, w);
  }

  lemma InFilePiece(s: seq<Pixel>, w: nat, h: nat, j: nat)
    requires j < h && |s| == Start(w, h)
    ensures Row(InFile(s), w, h, j) == InFile(Row(s, w, h, j))
  {
    StartMono(w, j, h);
    PieceInFile(s, Start(w, j), w);
  }

  lemma PieceInFile(s: seq<Pixel>, x: nat, n: nat)
    requires x + n <= |s|
    ensures Piece(InFile(s), x, n) == InFile(Piece(s, x, n))
  {
  }

  lemma InFileTwice(s: seq<Pixel>)
    ensures InFile(InFile(s)) == s
  {
    forall i | 0 <= i < |s| ensures FileOrder(FileOrder(s[i])) == s[i] { FileOrderTwice(s[i]); }
  }

  /** The pixels as they stand in the file, row by row. */
  lemma FileRow(rows: seq<seq<Pixel>>, w: nat, comp: nat, j: nat)
    requires Image(rows, w, comp) && j < |rows|
    ensures |InFile(Upwards(rows))| == Start(w, |rows|)
    ensures Row(InFile(Upwards(rows)), w, |rows|, j) == InFile(rows[|rows| - 1 - j])
  {
    UpwardsRow(rows, w, comp, j);
    InFilePiece(Upwards(rows), w, |rows|, j);
  }

  lemma OneColour(s: seq<Pixel>, comp: nat)
    requires AllPixels(s, comp) && comp < 3
    ensures InFile(s) == s
  {
  }

  /** The packets `ps` in the input stand for the image, bottom row first. */
  ghost predicate BodyAhead(input: seq<byte>, start: nat, rows: seq<seq<Pixel>>, w: nat, comp: nat, ps: seq<Packet>,
                            rest: seq<byte>) {
    && start <= |input| && Image(rows, w, comp) && AllLegal(ps, comp) && AllPlain(ps) == Upwards(rows)
    && input[start..] == AllBytes(ps, comp) + rest
  }

  /** The rows of `data` are those of the image, in file order of colours. */
  ghost predicate InFileRows(data: seq<Pixel>, rows: seq<seq<Pixel>>, w: nat, h: nat) {
    |rows| == h && |data| == Start(w, h) && forall j | 0 <= j < h :: Row(data, w, h, j) == InFile(rows[j])
  }

  lemma LoadedRows(data: seq<Pixel>, rows: seq<seq<Pixel>>, w: nat, h: nat, comp: nat)
    requires Image(rows, w, comp) && |rows| == h && data == InFile(Upwards(rows))
    ensures |data| == Start(w, h) && forall j | 0 <= j < h :: Row(data, w, h, j) == InFile(rows[h - 1 - j])
  {
    UpwardsLength(rows, w, comp);
    forall j | 0 <= j < h ensures Row(data, w, h, j) == InFile(rows[h - 1 - j]) { FileRow(rows, w, comp, j); }
  }

  /** Decoding and inversion. */
  method LoadRows(input: seq<byte>, start: nat, w: nat, h: nat, comp: nat, inverted: bool,
                  ghost rows: seq<seq<Pixel>>, ghost ps: seq<Packet>, ghost rest: seq<byte>)
    returns (data: array<Pixel>)
    requires start <= |input|
    ensures fresh(data) && data.Length == Start(w, h)
    ensures BodyAhead(input, start, rows, w, comp, ps, rest) && |rows| == h && inverted ==>
              InFileRows(data[..], rows, w, h)
  {
    StartProduct(w, h);
    ghost var good := BodyAhead(input, start, rows, w, comp, ps, rest) && |rows| == h && inverted;
    if good { UpwardsLength(rows, w, comp); }
    data := LoadPixels(input, start, h * w, comp, Upwards(rows), ps, rest);
    if good {
      assert data[..] == InFile(Upwards(rows));
      LoadedRows(data[..], rows, w, h, comp);
    }
    if inverted { Invert(data, w, h); }
  }

  lemma ColoursSwapped(data: seq<Pixel>, rows: seq<seq<Pixel>>, w: nat, h: nat)
    requires InFileRows(data, rows, w, h)
    ensures forall j | 0 <= j < h :: Row(InFile(data), w, h, j) == rows[j]
  {
    forall j | 0 <= j < h ensures Row(InFile(data), w, h, j) == rows[j] {
      InFilePiece(data, w, h, j);
      InFileTwice(rows[j]);
    }
  }

  lemma NoColours(data: seq<Pixel>, rows: seq<seq<Pixel>>, w: nat, h: nat, comp: nat)
    requires InFileRows(data, rows, w, h) && Image(rows, w, comp) && comp < 3
    ensures forall j | 0 <= j < h :: Row(data, w, h, j) == rows[j]
  {
    forall j | 0 <= j < h ensures Row(data, w, h, j) == rows[j] { OneColour(rows[j], comp); }
  }

  /** Decoding, inversion and colour swap of `stbi__tga_load`, for images with run-length coding and without palette
      or 16-bit colours. */
  method LoadBody(input: seq<byte>, start: nat, w: nat, h: nat, comp: nat, inverted: bool,
                  ghost rows: seq<seq<Pixel>>, ghost ps: seq<Packet>, ghost rest: seq<byte>)
    returns (data: array<Pixel>)
    requires start <= |input|
    ensures fresh(data) && data.Length == Start(w, h)
    ensures BodyAhead(input, start, rows, w, comp, ps, rest) && |rows| == h && inverted
            ==> forall j | 0 <= j < h :: Row(data[..], w, h, j) == rows[j]
  {
    data := LoadRows(input, start, w, h, comp, inverted, rows, ps, rest);
    ghost var good := BodyAhead(input, start, rows, w, comp, ps, rest) && |rows| == h && inverted;
    ghost var d := data[..];
    if comp >= 3 {
      SwapColours(data);
      if good { ColoursSwapped(d, rows, w, h); }
    } else {
      if good { NoColours(d, rows, w, h, comp); }
    }
  }

  /** `stbi__tga_load` on the files that the writer's run-length coding makes. An image whose size does not fit in an
      `int` is refused. */
  method Load(input: seq<byte>, ghost rows: seq<seq<Pixel>>, ghost comp: nat, ghost ps: seq<Packet>)
    returns (ok: bool, hd: Header, data: array<Pixel>)
    ensures IsFile(input, rows, comp, ps)
            ==> hd.w == |rows[0]| && hd.h == |rows| && hd.comp == comp && (ok <==> hd.w * hd.h * hd.comp <= INT_MAX)
    ensures IsFile(input, rows, comp, ps) && ok
            ==> data.Length == Start(hd.w, hd.h) && forall j | 0 <= j < hd.h :: Row(data[..], hd.w, hd.h, j) == rows[j]
  {
    ghost var good := IsFile(input, rows, comp, ps);
    hd := ReadHeader(input);
    if good { FileParts(input, rows, comp, ps); }
    ok, data := false, new Pixel[0];
    if hd.comp == 0 { return; }
    Mad3Meaning(hd.w, hd.h, hd.comp, 0);
    if !Mad3Valid(hd.w, hd.h, hd.comp, 0) { return; }
    if hd.indexed || !hd.rle || hd.rgb16 { return; }
    // past the end of the input every byte reads as zero
    var start := if 18 + hd.skip <= |input| then 18 + hd.skip else |input|;
    data := LoadBody(input, start, hd.w, hd.h, hd.comp, hd.inverted, rows, ps, []);
    ok := true;
  }

  /** The file is a header and the packets of the image. */
  ghost predicate IsFile(input: seq<byte>, rows: seq<seq<Pixel>>, comp: nat, ps: seq<Packet>) {
    && 1 <= comp <= 4 && 1 <= |rows| < 0x1_0000 && |rows[0]| < 0x1_0000 && Image(rows, |rows[0]|, comp)
    && AllLegal(ps, comp) && AllPlain(ps) == Upwards(rows)
    && input == HeaderBytes(|rows[0]|, |rows|, comp) + AllBytes(ps, comp)
  }

  lemma FileParts(input: seq<byte>, rows: seq<seq<Pixel>>, comp: nat, ps: seq<Packet>)
    requires IsFile(input, rows, comp, ps)
    ensures HeaderBytes(|rows[0]|, |rows|, comp) <= input && BodyAhead(input, 18, rows, |rows[0]|, comp, ps, [])
  {
    assert input[18..] == AllBytes(ps, comp) == AllBytes(ps, comp) + [];
  }

  /** Writing an image of up to 65535 by 65535 pixels of one to four bytes and loading it returns its size; the pixels
      come back, in their rows and with their colours, exactly when the image has no more than 2^31 - 1 bytes. */
  method WriteAndLoad(rows: seq<seq<Pixel>>, comp: nat) returns (ok: bool, hd: Header, data: array<Pixel>)
    requires 1 <= comp <= 4 && 1 <= |rows| < 0x1_0000 && |rows[0]| < 0x1_0000 && Image(rows, |rows[0]|, comp)
    ensures hd.w == |rows[0]| && hd.h == |rows| && hd.comp == comp
    ensures ok <==> hd.w * hd.h * hd.comp <= 0x7FFF_FFFF
    ensures ok ==>
              data.Length == Start(hd.w, hd.h) && forall j | 0 <= j < hd.h :: Row(data[..], hd.w, hd.h, j) == rows[j]
  {
    var out;
    ghost var ps;
    out, ps := WriteRows(rows, comp);
    var file := HeaderBytes(|rows[0]|, |rows|, comp) + out;
    ok, hd, data := Load(file, rows, comp, ps);
  }

  /** A grey image of the greatest width and height is refused, and one of half the height is not. */
  lemma TooLarge()
    ensures !Mad3Valid(0xFFFF, 0xFFFF, 1, 0) && Mad3Valid(0xFFFF, 0x7FFF, 1, 0)
  {
    Mad3Meaning(0xFFFF, 0xFFFF, 1, 0);
    Mad3Meaning(0xFFFF, 0x7FFF, 1, 0);
  }
}
