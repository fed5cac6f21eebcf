/** The GIF raster decoder: a table of linked entries instead of strings, and a bit buffer over data sub-blocks. */
module GifRaster {
  import opened Sequences
  import opened Bits
  import opened BitOps
  import opened BitReader
  import opened ByteInput
  import opened GifCanvas
  import opened Lzw

  /** `stbi__gif_lzw` */
  datatype Entry = Entry(prefix: int, first: byte, suffix: byte)

  /** Entry `i` stands for the string `dict[i]`; its prefix is an earlier entry. */
  ghost predicate Stands(codes: seq<Entry>, dict: seq<seq<byte>>, lzw: nat, i: nat)
    requires i < |dict| <= |codes|
  {
    var e := codes[i];
    && -1 <= e.prefix < i && (e.prefix >= 0 ==> !Special(lzw, e.prefix))
    && dict[i] == (if e.prefix >= 0 then dict[e.prefix] else []) + [e.suffix] && e.first == dict[i][0]
  }

  ghost predicate Holds(codes: seq<Entry>, dict: seq<seq<byte>>, lzw: nat) {
    && |dict| <= |codes| == TABLE_SIZE
    && forall i | 0 <= i < |dict| && !Special(lzw, i) :: Stands(codes, dict, lzw, i)
  }

  /** What the clear code leaves of the table. */
  lemma HoldsSingles(codes: seq<Entry>, dict: seq<seq<byte>>, lzw: nat)
    requires Holds(codes, dict, lzw) && Singles(lzw) <= dict
    ensures Holds(codes, Singles(lzw), lzw)
  {
    forall i | 0 <= i < |Singles(lzw)| && !Special(lzw, i) ensures Stands(codes, Singles(lzw), lzw, i) {
      assert Stands(codes, dict, lzw, i) && Singles(lzw)[i] == dict[i];
    }
  }

  lemma HoldsAdded(codes: seq<Entry>, dict: seq<seq<byte>>, lzw: nat, prev: nat, e: Entry, w: seq<byte>)
    requires Holds(codes, dict, lzw) && |dict| < TABLE_SIZE && prev < |dict| && !Special(lzw, prev)
    requires e.prefix == prev && dict[prev] != [] && e.first == dict[prev][0] && w == dict[prev] + [e.suffix]
    ensures Holds(codes[|dict| := e], dict + [w], lzw)
  {
    var codes', dict' := codes[|dict| := e], dict + [w];
    forall i | 0 <= i < |dict'| && !Special(lzw, i) ensures Stands(codes', dict', lzw, i) {
      if i < |dict| { assert Stands(codes, dict, lzw, i); }
    }
  }

  method InitTable(codes: array<Entry>, lzw: nat)
    requires lzw <= 12 && codes.Length == TABLE_SIZE
    modifies codes
    ensures Holds(codes[..], Singles(lzw), lzw)
  {
    SinglesFit(lzw);
    var clear := Pow2(lzw);
    for i := 0 to clear
      invariant forall k | 0 <= k < i :: codes[k] == Entry(-1, k % 256, k % 256)
    {
      codes[i] := Entry(-1, i % 256, i % 256);
    }
  }

  /** `stbi__out_gif_code`: the recursion over the prefixes ends, stays inside the table, and puts out the string of the
      code. */
  method OutCode(codes: array<Entry>, canvas: Canvas, code: nat, ghost dict: seq<seq<byte>>, ghost lzw: nat)
    requires canvas.Valid() && Holds(codes[..], dict, lzw) && code < |dict| && !Special(lzw, code)
    modifies canvas, canvas.out
    ensures canvas.Valid() && canvas.emitted == old(canvas.emitted) + dict[code]
    decreases code
  {
    assert Stands(codes[..], dict, lzw, code);
    if codes[code].prefix >= 0 {
      OutCode(codes, canvas, codes[code].prefix, dict, lzw);
    }
    canvas.Put(codes[code].suffix);
  }

  /** A code that is neither the clear nor the end code. */
  method Ordinary(codes: array<Entry>, canvas: Canvas, code: nat, avail: nat, oldcode: int, codesize: nat, first: bool,
                  ghost s: State, ghost lzw: nat)
    returns (ok: bool, avail': nat, codesize': nat)
    requires canvas.Valid() && codes.Length == TABLE_SIZE && WellFormed(s, lzw) && Holds(codes[..], s.dict, lzw)
    requires avail == |s.dict| && oldcode == s.prev && codesize == s.size && first == s.first && !Special(lzw, code)
    modifies codes, canvas, canvas.out
    ensures canvas.Valid() && ok == Step(s, code, lzw).More?
    ensures ok ==> var o := Step(s, code, lzw);
            && canvas.emitted == old(canvas.emitted) + o.out && Holds(codes[..], o.state.dict, lzw)
            && avail' == |o.state.dict| && codesize' == o.state.size
  {
    ok, avail', codesize' := false, avail, codesize;
    if code > avail || first { return; }
    if oldcode >= 0 {
      if avail + 1 > TABLE_SIZE { return; }
      AddEntry(codes, code, avail, oldcode, s, lzw);
      avail' := avail + 1;
    } else if code == avail {
      return;
    }
    ok := true;
    ghost var o := Step(s, code, lzw);
    OutCode(codes, canvas, code, o.state.dict, lzw);
    codesize' := Widen(avail', codesize);
  }

  /** The table entry for the previous string and the first value of the current one. */
  method AddEntry(codes: array<Entry>, code: nat, avail: nat, oldcode: nat, ghost s: State, ghost lzw: nat)
    requires codes.Length == TABLE_SIZE && WellFormed(s, lzw) && Holds(codes[..], s.dict, lzw)
    requires avail == |s.dict| < TABLE_SIZE && oldcode == s.prev && code <= avail && !Special(lzw, code)
    modifies codes
    ensures Holds(codes[..], s.dict + [Added(s, code, lzw)], lzw)
  {
    ghost var c := codes[..];
    assert Stands(c, s.dict, lzw, oldcode);
    assert code < avail ==> Stands(c, s.dict, lzw, code);
    // the C code has counted `avail` up by now, so its comparison with `code` never succeeds
    var p := Entry(oldcode, codes[oldcode].first, codes[avail].suffix);
    codes[avail] := p;
    codes[avail] := p.(suffix := if code == avail + 1 then p.first else codes[code].first);
    assert codes[..] == c[avail := codes[avail]];
    HoldsAdded(c, s.dict, lzw, oldcode, codes[avail], Added(s, code, lzw));
  }

  method Widen(avail: nat, codesize: nat) returns (codesize': nat)
    requires avail > 0
    ensures codesize' == Width(avail, codesize)
  {
    AndMask(avail, codesize);
    codesize' := if And(avail, Mask(codesize)) == 0 && avail <= LAST_GROWTH then codesize + 1 else codesize;
  }

  // ---------- the data sub-blocks ----------

  ghost function Bytes(input: seq<byte>, pos: nat, len: nat): (r: seq<byte>)
    ensures |r| == len
    decreases len
  {
    if len == 0 then [] else [Get8(input, pos)] + Bytes(input, pos + 1, len - 1)
  }

  /** The sub-blocks from `pos` on; past the end of the input there are zeros. */
  ghost function Payload(input: seq<byte>, pos: nat): seq<byte>
    decreases |input| - pos
  {
    var len := Get8(input, pos);
    if len == 0 then [] else Bytes(input, pos + 1, len) + Payload(input, pos + 1 + len)
  }

  /** The position behind the sub-blocks and their terminator. */
  ghost function Behind(input: seq<byte>, pos: nat): nat
    decreases |input| - pos
  {
    if Get8(input, pos) == 0 then pos + 1 else Behind(input, pos + 1 + Get8(input, pos))
  }

  /** Skips what is left of the current sub-block and all that follow. */
  method SkipBlocks(input: seq<byte>, start: nat, rest: nat) returns (pos: nat)
    ensures pos == Behind(input, start + rest)
  {
    pos := start + rest;
    var len: nat := Get8(input, pos);
    pos := pos + 1;
    while len > 0
      invariant pos > 0 && len == Get8(input, pos - 1) && Behind(input, pos - 1) == Behind(input, start + rest)
      decreases |input| - (pos - 1)
    {
      pos := pos + len;
      len := Get8(input, pos);
      pos := pos + 1;
    }
  }

  /** What is left when `len` bytes of the current sub-block are. */
  ghost function Rest(input: seq<byte>, pos: nat, len: nat): seq<byte> {
    Bytes(input, pos, len) + Payload(input, pos + len)
  }

  lemma RestStart(input: seq<byte>, pos: nat)
    ensures Rest(input, pos, 0) == Payload(input, pos)
    ensures Get8(input, pos) > 0 ==> Payload(input, pos) == Rest(input, pos + 1, Get8(input, pos))
  {
  }

  /** `rest` is what is left of the sub-blocks, and `after` the position behind them. (`k`, always left at its default,
      keeps this folded.) */
  ghost predicate AtBlock(input: seq<byte>, pos: nat, len: nat, rest: seq<byte>, after: nat, k: nat := 3)
    decreases len, k
  {
    if k > 0 then AtBlock(input, pos, len, rest, after, k - 1)
      else rest == Rest(input, pos, len) && after == Behind(input, pos + len)
  }

  lemma AtBlockDef(input: seq<byte>, pos: nat, len: nat, rest: seq<byte>, after: nat)
    ensures AtBlock(input, pos, len, rest, after) <==>
              rest == Rest(input, pos, len) && after == Behind(input, pos + len)
  {
    assert AtBlock(input, pos, len, rest, after, 1) == AtBlock(input, pos, len, rest, after, 0);
    assert AtBlock(input, pos, len, rest, after, 2) == AtBlock(input, pos, len, rest, after, 1);
  }

  /** Moves one byte into the bit buffer. */
  method Load(input: seq<byte>, pos: nat, len: nat, bits: u32, valid_bits: nat)
    returns (pos': nat, len': nat, bits': u32, valid_bits': nat)
    requires len > 0 && Fits(bits, valid_bits) && valid_bits <= 24
    ensures pos' + len' == pos + len
    ensures Fits(bits', valid_bits') && valid_bits' == valid_bits + 8
            && |Rest(input, pos', len')| < |Rest(input, pos, len)|
    ensures Unread(bits', valid_bits', Rest(input, pos', len')) == Unread(bits, valid_bits, Rest(input, pos, len))
  {
    var b := Get8(input, pos);
    pos', len' := pos + 1, len - 1;
    ghost var rest := Rest(input, pos, len);
    assert rest[0] == b && rest[1..] == Rest(input, pos', len');
    JoinByte(bits, valid_bits, b, rest);
    bits' := Or(bits, Shl(b, valid_bits));
    valid_bits' := valid_bits + 8;
  }

  /** Moves one byte into the bit buffer, from the next sub-block if the current one is used up; there is no more when
      the terminator comes. */
  method Fetch(input: seq<byte>, pos: nat, len: nat, bits: u32, valid_bits: nat, ghost rest: seq<byte>,
               ghost after: nat)
    returns (more: bool, pos': nat, len': nat, bits': u32, valid_bits': nat, ghost rest': seq<byte>)
    requires Fits(bits, valid_bits) && valid_bits < 13 && AtBlock(input, pos, len, rest, after)
    ensures more ==> AtBlock(input, pos', len', rest', after) && |rest'| < |rest|
    ensures more ==> Fits(bits', valid_bits') && valid_bits' == valid_bits + 8
    ensures more ==> Unread(bits', valid_bits', rest') == Unread(bits, valid_bits, rest)
    ensures !more ==> pos' == after && rest == []
  {
    more, pos', len', bits', valid_bits', rest' := true, pos, len, bits, valid_bits, rest;
    AtBlockDef(input, pos, len, rest, after);
    if len' == 0 {
      RestStart(input, pos');
      len' := Get8(input, pos');
      pos' := pos' + 1;
      if len' == 0 {
        more := false;
        return;
      }
    }
    pos', len', bits', valid_bits' := Load(input, pos', len', bits', valid_bits');
    rest' := Rest(input, pos', len');
    AtBlockDef(input, pos', len', rest', after);
  }

  /** Takes a code off the bit buffer. */
  method NextCode(bits: u32, valid_bits: nat, size: nat, ghost rest: seq<byte>) returns (code: nat, bits': u32)
    requires Fits(bits, valid_bits) && size <= valid_bits
    ensures Fits(bits', valid_bits - size)
    ensures var r := Unread(bits, valid_bits, rest);
            code == LsbVal(r[..size]) && Unread(bits', valid_bits - size, rest) == r[size..]
  {
    ghost var r := Unread(bits, valid_bits, rest);
    UnreadDef(bits, valid_bits, rest);
    AndMask(bits, size);
    LsbTake(bits, size, valid_bits);
    code := And(bits, Mask(size));
    ShrSmaller(bits, size);
    bits' := Shr(bits, size);
    assert r[..size] == LsbBits(bits, valid_bits)[..size];
    UnreadDef(bits', valid_bits - size, rest);
  }

  /** The decoder's variables say what the state of the specification says. */
  ghost predicate Synced(s: State, lzw: nat, avail: nat, oldcode: int, codesize: nat, first: bool) {
    WellFormed(s, lzw) && avail == |s.dict| && oldcode == s.prev && codesize == s.size && first == s.first
  }

  /** A code other than the end code. */
  method Dispatch(codes: array<Entry>, canvas: Canvas, lzw: nat, code: nat, avail: nat, oldcode: int, codesize: nat,
                  first: bool,
                  ghost s: State)
    returns (ok: bool, avail': nat, oldcode': int, codesize': nat, first': bool)
    requires canvas.Valid() && codes.Length == TABLE_SIZE && code != Pow2(lzw) + 1
    requires Synced(s, lzw, avail, oldcode, codesize, first) && Holds(codes[..], s.dict, lzw)
    modifies codes, canvas, canvas.out
    ensures canvas.Valid() && (if ok then Step(s, code, lzw).More? else Step(s, code, lzw).Bad?)
    ensures ok ==> var o := Step(s, code, lzw);
            && canvas.emitted == old(canvas.emitted) + o.out && Holds(codes[..], o.state.dict, lzw)
            && Synced(o.state, lzw, avail', oldcode', codesize', first')
  {
    if code == Pow2(lzw) {
      HoldsSingles(codes[..], s.dict, lzw);
      return true, Pow2(lzw) + 2, -1, lzw + 1, false;
    }
    ok, avail', codesize' := Ordinary(codes, canvas, code, avail, oldcode, codesize, first, s, lzw);
    oldcode', first' := code, first;
  }

  /** The run of the standard decoder over the bits of the data sub-blocks. */
  ghost function Decoded(input: seq<byte>, start: nat): Result
    requires Get8(input, start) <= 12
  {
    Run(Lzw.Start(Get8(input, start)), ByteBits(Payload(input, start + 1)), Get8(input, start))
  }

  /** What has been put out, followed by what the bits still to be read will add, is the whole result.
      (`k`, always left at its default, keeps this folded.) */
  ghost predicate OnTrack(total: Result, out: seq<byte>, s: State, lzw: nat, bits: seq<bool>, k: nat := 3)
    decreases lzw, k
  {
    if k > 0 then OnTrack(total, out, s, lzw, bits, k - 1)
    else WellFormed(s, lzw) && total == Prepend(out, Run(s, bits, lzw))
  }

  lemma OnTrackDef(total: Result, out: seq<byte>, s: State, lzw: nat, bits: seq<bool>)
    ensures OnTrack(total, out, s, lzw, bits) <==> WellFormed(s, lzw) && total == Prepend(out, Run(s, bits, lzw))
  {
    assert OnTrack(total, out, s, lzw, bits, 1) == OnTrack(total, out, s, lzw, bits, 0);
    assert OnTrack(total, out, s, lzw, bits, 2) == OnTrack(total, out, s, lzw, bits, 1);
  }

  lemma TrackStart(input: seq<byte>, start: nat)
    requires Get8(input, start) <= 12
    ensures Fits(0, 0) && AtBlock(input, start + 1, 0, Payload(input, start + 1), Behind(input, start + 1))
    ensures var lzw := Get8(input, start);
            OnTrack(Decoded(input, start), [], Lzw.Start(lzw), lzw, Unread(0, 0, Payload(input, start + 1)))
  {
    var lzw, rest := Get8(input, start), Payload(input, start + 1);
    RestStart(input, start + 1);
    AtBlockDef(input, start + 1, 0, rest, Behind(input, start + 1));
    UnreadDef(0, 0, rest);
    LsbBitsDef(0, 0);
    assert Unread(0, 0, rest) == ByteBits(rest);
    var r := Run(Lzw.Start(lzw), ByteBits(rest), lzw);
    if r.Done? { assert [] + r.out == r.out; }
    OnTrackDef(Decoded(input, start), [], Lzw.Start(lzw), lzw, Unread(0, 0, rest));
  }

  /** The run ends for want of bits. */
  lemma RunShort(total: Result, out: seq<byte>, s: State, lzw: nat, bits: seq<bool>)
    requires OnTrack(total, out, s, lzw, bits) && |bits| < s.size
    ensures total == Done(out)
  {
    OnTrackDef(total, out, s, lzw, bits);
    assert out + [] == out;
  }

  /** One step of the run. */
  lemma RunStep(total: Result, out: seq<byte>, s: State, lzw: nat, bits: seq<bool>, code: nat, rest: seq<bool>)
    requires WellFormed(s, lzw) && OnTrack(total, out, s, lzw, bits)
    requires |bits| >= s.size && code == LsbVal(bits[..s.size]) && rest == bits[s.size..]
    ensures var o := Step(s, code, lzw);
            && (o.More? ==> OnTrack(total, out + o.out, o.state, lzw, rest))
            && (o.End? ==> total == Done(out)) && (o.Bad? ==> total == Corrupt)
  {
    OnTrackDef(total, out, s, lzw, bits);
    var o := Step(s, code, lzw);
    if o.More? {
      var r := Run(o.state, rest, lzw);
      if r.Done? { assert out + (o.out + r.out) == out + o.out + r.out; }
      OnTrackDef(total, out + o.out, o.state, lzw, rest);
    }
    assert out + [] == out;
  }

  method TakeCode(codes: array<Entry>, canvas: Canvas, lzw: nat, code: nat, avail: nat, oldcode: int, codesize: nat,
                  first: bool,
                  ghost s: State, ghost e0: seq<byte>, ghost out: seq<byte>)
    returns (ok: bool, avail': nat, oldcode': int, codesize': nat, first': bool, ghost s': State, ghost out': seq<byte>)
    requires canvas.Valid() && codes.Length == TABLE_SIZE && code != Pow2(lzw) + 1 && canvas.emitted == e0 + out
    requires Synced(s, lzw, avail, oldcode, codesize, first) && Holds(codes[..], s.dict, lzw)
    modifies codes, canvas, canvas.out
    ensures canvas.Valid() && (if ok then Step(s, code, lzw).More? else Step(s, code, lzw).Bad?)
    ensures ok ==> var o := Step(s, code, lzw); s' == o.state && out' == out + o.out
    ensures ok ==> canvas.emitted == e0 + out'
    ensures ok ==> Holds(codes[..], s'.dict, lzw) && Synced(s', lzw, avail', oldcode', codesize', first')
  {
    ok, avail', oldcode', codesize', first' := Dispatch(codes, canvas, lzw, code, avail, oldcode, codesize, first, s);
    s', out' := s, out;
    if ok {
      Regrouped(e0, out, Step(s, code, lzw).out);
      s', out' := Step(s, code, lzw).state, out + Step(s, code, lzw).out;
    }
  }

  /** `stbi__process_gif_raster`: what reaches the frame is the run of the standard decoder over the bits of the data
      sub-blocks; the decoder fails exactly when that run does, and otherwise leaves the input behind the sub-blocks. */
  method ProcessRaster(input: seq<byte>, start: nat, codes: array<Entry>, canvas: Canvas) returns (ok: bool, end: nat)
    requires canvas.Valid() && codes.Length == TABLE_SIZE
    modifies codes, canvas, canvas.out
    ensures canvas.Valid() && (ok ==> end == Behind(input, start + 1))
    ensures Get8(input, start) > 12 ==> !ok
    ensures Get8(input, start) <= 12 ==>
              ok == Decoded(input, start).Done? && (ok ==>
                  canvas.emitted == old(canvas.emitted) + Decoded(input, start).out)
  {
    var lzw: nat := Get8(input, start);
    if lzw > 12 { return false, start; }
    ghost var s, total := Lzw.Start(lzw), Decoded(input, start);
    InitTable(codes, lzw);
    var pos: nat, len: nat, bits: u32, valid_bits: nat := start + 1, 0, 0, 0;
    ghost var rest, after := Payload(input, start + 1), Behind(input, start + 1);
    TrackStart(input, start);
    var avail: nat, oldcode: int, codesize: nat, first := Pow2(lzw) + 2, -1, lzw + 1, true;
    ghost var e0, out := canvas.emitted, [];
    while true
      invariant canvas.Valid() && canvas.emitted == e0 + out
      invariant Synced(s, lzw, avail, oldcode, codesize, first) && Holds(codes[..], s.dict, lzw)
      invariant Fits(bits, valid_bits) && valid_bits <= 24 && AtBlock(input, pos, len, rest, after)
      invariant OnTrack(total, out, s, lzw, Unread(bits, valid_bits, rest))
      decreases valid_bits + 8 * |rest|, |rest|
    {
      ghost var r := Unread(bits, valid_bits, rest);
      if valid_bits < codesize {
        if rest == [] { RunShort(total, out, s, lzw, r); }
        var more;
        more, pos, len, bits, valid_bits, rest := Fetch(input, pos, len, bits, valid_bits, rest, after);
        if !more { return true, pos; }
      } else {
        var code;
        code, bits := NextCode(bits, valid_bits, codesize, rest);
        valid_bits := valid_bits - codesize;
        RunStep(total, out, s, lzw, r, code, Unread(bits, valid_bits, rest));
        if code == Pow2(lzw) + 1 {
          AtBlockDef(input, pos, len, rest, after);
          end := SkipBlocks(input, pos, len);
          return true, end;
        }
        var good;
        good, avail, oldcode, codesize, first, s, out :=
          TakeCode(codes, canvas, lzw, code, avail, oldcode, codesize, first, s, e0, out);
        if !good { return false, pos; }
      }
    }
  }
}
