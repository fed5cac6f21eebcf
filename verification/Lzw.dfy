/** The LZW dictionary of GIF (GIF89a, appendix F) as strings: what a decoder does with each code, and what an encoder
    may write. */
module Lzw {
  import opened Bits

  const TABLE_SIZE: nat := 8192
  const LAST_GROWTH: nat := 0xFFF

  /** The dictionary after a clear code: one string for each pixel value, and the clear and end codes without a string.
      (A pixel value is stored in a byte.) */
  function Singles(lzw: nat): (d: seq<seq<byte>>)
    ensures |d| == Pow2(lzw) + 2
  {
    seq(Pow2(lzw), i => [(i % 256) as byte]) + [[], []]
  }

  /** `size` is the width of the next code; `first` says that no clear code has come yet; `prev` is negative when no
      code has come since the last clear code. */
  datatype State = State(dict: seq<seq<byte>>, prev: int, size: nat, first: bool)

  lemma SizeFits(lzw: nat)
    ensures Pow2(lzw) + 2 <= TABLE_SIZE ==> lzw <= 12
  {
    if lzw > 12 {
      Pow2Mono(13, lzw);
      assert Pow2(13) == 8192;
    }
  }

  datatype Outcome = More(state: State, out: seq<byte>) | End | Bad

  ghost predicate Special(lzw: nat, code: nat) { Pow2(lzw) <= code < Pow2(lzw) + 2 }

  ghost predicate WellFormed(s: State, lzw: nat) {
    && Singles(lzw) <= s.dict && |s.dict| <= TABLE_SIZE && 0 < s.size <= 13
    && (forall i | 0 <= i < |s.dict| && !Special(lzw, i) :: s.dict[i] != [])
    && -1 <= s.prev < |s.dict| && (s.prev >= 0 ==> !Special(lzw, s.prev))
  }

  function Start(lzw: nat): (s: State)
    requires lzw <= 12
    ensures WellFormed(s, lzw)
  {
    SinglesFit(lzw);
    State(Singles(lzw), -1, lzw + 1, true)
  }

  lemma SinglesFit(lzw: nat)
    requires lzw <= 12
    ensures Pow2(lzw) <= 4096
  {
    Pow2Mono(lzw, 12);
    assert Pow2(12) == 4096;
  }

  function Width(n: nat, size: nat): (w: nat)
    requires n > 0
    ensures size <= w && (size <= 13 ==> w <= 13)
  {
    WidthBound(n, size);
    if n % Pow2(size) == 0 && n <= LAST_GROWTH then size + 1 else size
  }

  lemma WidthBound(n: nat, size: nat)
    requires n > 0
    ensures n % Pow2(size) == 0 && n <= LAST_GROWTH ==> size < 12
  {
    if size >= 12 {
      Pow2Mono(12, size);
      assert Pow2(12) == 4096;
      if n <= LAST_GROWTH { Remainder(n, Pow2(size)); }
    }
  }

  lemma Remainder(n: nat, d: nat)
    requires n < d
    ensures n % d == n
  {
  }

  /** The string added when `code` comes after `prev`: the previous string and the first value of the current one, which
      is the previous string again when the code is the one being added. */
  function Added(s: State, code: nat, lzw: nat): seq<byte>
    requires WellFormed(s, lzw) && 0 <= s.prev && code <= |s.dict| && !Special(lzw, code)
  {
    var current := if code < |s.dict| then s.dict[code] else s.dict[s.prev];
    s.dict[s.prev] + [current[0]]
  }

  /** What the decoder does with a code. */
  function Step(s: State, code: nat, lzw: nat): (o: Outcome)
    requires WellFormed(s, lzw)
    ensures o.More? ==> WellFormed(o.state, lzw)
  {
    var clear := Pow2(lzw);
    SizeFits(lzw);
    if code == clear then More(State(Singles(lzw), -1, lzw + 1, false), [])
    else if code == clear + 1 then End
    else if code > |s.dict| || s.first then Bad
    else if s.prev < 0 then
      if code == |s.dict| then Bad else More(State(s.dict, code, Width(|s.dict|, s.size), false), s.dict[code])
    else if |s.dict| == TABLE_SIZE then Bad
    else
      var d := s.dict + [Added(s, code, lzw)];
      More(State(d, code, Width(|d|, s.size), false), d[code])
  }

  datatype Result = Done(out: seq<byte>) | Corrupt

  function Prepend(out: seq<byte>, r: Result): Result { if r.Done? then Done(out + r.out) else r }

  /** The whole run over a bit string; it also ends when there are too few bits for another code. */
  function Run(s: State, bits: seq<bool>, lzw: nat): Result
    requires WellFormed(s, lzw)
    decreases |bits|
  {
    if |bits| < s.size then Done([])
    else match Step(s, LsbVal(bits[..s.size]), lzw)
      case More(s', out) => Prepend(out, Run(s', bits[s.size..], lzw))
      case End => Done([])
      case Bad => Corrupt
  }

  // ---------- the other direction ----------

  const FULL: nat := 4096

  datatype Item = Clear | Text(code: nat)

  /** The value that follows, if there is one. */
  function Next(rest: seq<byte>): seq<byte> { if rest == [] then [] else [rest[0]] }

  /** The encoder's dictionary grows by the string just written and the value that follows it, up to 4096 codes. */
  function Grown(dict: seq<seq<byte>>, w: seq<byte>, rest: seq<byte>): seq<seq<byte>> {
    if |dict| >= FULL then dict else dict + [w + Next(rest)]
  }

  /** `items` is a way to write `data`: each code stands for a string of the dictionary that comes next in the data (the
      longest or not), and the dictionary may be cleared at any time, or never again. */
  ghost predicate Encodes(items: seq<Item>, data: seq<byte>, dict: seq<seq<byte>>, lzw: nat) {
    if items == [] then data == []
    else match items[0]
      case Clear => Encodes(items[1..], data, Singles(lzw), lzw)
      case Text(code) =>
        && code < |dict| && !Special(lzw, code) && dict[code] <= data
        && Encodes(items[1..], data[|dict[code]|..], Grown(dict, dict[code], data[|dict[code]|..]), lzw)
  }

  /** The most codes written without a clear between them, when `n` have been written since the last one. */
  function Stretch(items: seq<Item>, n: nat): (m: nat)
    ensures n <= m
  {
    if items == [] then n
    else match items[0]
      case Clear => var m := Stretch(items[1..], 0); if n <= m then m else n
      case Text(_) => Stretch(items[1..], n + 1)
  }

  /** The number of codes after a clear code that the decoder's table has room for. */
  function Room(lzw: nat): int { TABLE_SIZE - 1 - Pow2(lzw) }

  /** One value at a time, clearing after each. */
  function Literally(data: seq<byte>): seq<Item> {
    if data == [] then [] else [Text(data[0]), Clear] + Literally(data[1..])
  }

  /** Every string of values that fit in `lzw` bits has an encoding, one that the decoder has room for. */
  lemma {:induction false} Encodable(data: seq<byte>, lzw: nat)
    requires lzw <= 12 && forall i | 0 <= i < |data| :: data[i] < Pow2(lzw)
    ensures Encodes(Literally(data), data, Singles(lzw), lzw) && Stretch(Literally(data), 0) <= 1 <= Room(lzw)
  {
    SinglesFit(lzw);
    if data != [] {
      var items := Literally(data);
      Encodable(data[1..], lzw);
      assert items[1] == Clear && items[1..][1..] == Literally(data[1..]);
      assert Singles(lzw)[data[0]] == [data[0]];
      assert Encodes(items[1..], data[1..], Grown(Singles(lzw), [data[0]], data[1..]), lzw);
      assert Stretch(items[1..], 1) <= 1;
    }
  }

  /** The least width that all codes of the dictionary can be written in, but no more than 12. */
  function CodeWidth(n: nat, size: nat): (w: nat)
    ensures w >= size
    decreases 12 - size
  {
    if size >= 12 || n <= Pow2(size) then size else CodeWidth(n, size + 1)
  }

  /** The bits of an encoding. Each code is as wide as the dictionary at that point asks for. */
  function Written(items: seq<Item>, data: seq<byte>, dict: seq<seq<byte>>, lzw: nat): seq<bool> {
    var size := CodeWidth(|dict|, lzw + 1);
    if items == [] then LsbBits(Pow2(lzw) + 1, size)
    else match items[0]
      case Clear => LsbBits(Pow2(lzw), size) + Written(items[1..], data, Singles(lzw), lzw)
      case Text(code) =>
        if code < |dict| && |dict[code]| <= |data| then
          var rest := data[|dict[code]|..];
          LsbBits(code, size) + Written(items[1..], rest, Grown(dict, dict[code], rest), lzw)
        else []
  }

  /** The dictionary the decoder would have if it knew what comes next: one entry ahead. */
  function Ahead(s: State, data: seq<byte>): seq<seq<byte>>
    requires s.prev < |s.dict|
  {
    if s.prev < 0 then s.dict else s.dict + [s.dict[s.prev] + Next(data)]
  }

  function Capped(d: seq<seq<byte>>): seq<seq<byte>> { if |d| <= FULL then d else d[..FULL] }

  /** The decoder is in step with an encoder that has written `n` codes since the last clear and has the dictionary
      `dict`. */
  ghost predicate InStep(s: State, dict: seq<seq<byte>>, data: seq<byte>, n: nat, lzw: nat) {
    && WellFormed(s, lzw) && !s.first
    && dict == Capped(Ahead(s, data)) && s.size == CodeWidth(|dict|, lzw + 1)
    && (if s.prev < 0 then s.dict == Singles(lzw) && n == 0 else |s.dict| == Pow2(lzw) + 1 + n)
  }

  lemma Clears(lzw: nat, data: seq<byte>)
    requires 1 <= lzw <= 11
    ensures InStep(State(Singles(lzw), -1, lzw + 1, false), Singles(lzw), data, 0, lzw) && Room(lzw) > 0
  {
    Pow2Mono(lzw, 11);
    Pow2Mono(1, lzw);
    assert Pow2(11) == 2048;
  }

  lemma {:induction false} WidthFits(n: nat, size: nat)
    requires n <= FULL && size <= 12
    ensures n <= Pow2(CodeWidth(n, size)) && CodeWidth(n, size) <= 12
    decreases 12 - size
  {
    if size == 12 { assert Pow2(12) == 4096; } else if n > Pow2(size) { WidthFits(n, size + 1); }
  }

  /** The decoder's rule for the width is the encoder's, one code later. */
  lemma {:induction false} WidthStep(n: nat, size: nat)
    requires 0 < n < FULL && size <= 12
    ensures Width(n, CodeWidth(n, size)) == CodeWidth(n + 1, size)
    decreases 12 - size
  {
    if size == 12 {
      assert Pow2(12) == 4096;
    } else if n <= Pow2(size) {
      Divides(n, Pow2(size));
      assert n == Pow2(size) ==> n + 1 <= Pow2(size + 1);
    } else {
      WidthStep(n, size + 1);
    }
  }

  lemma Divides(n: nat, d: nat)
    requires 0 < n <= d
    ensures n % d == 0 <==> n == d
  {
  }

  lemma WidthStays(n: nat, size: nat)
    requires n >= FULL
    ensures Width(n, size) == size
  {
  }

  /** The code the decoder meets: it knows the string already, or is about to add it. */
  lemma CodeKnown(s: State, dict: seq<seq<byte>>, data: seq<byte>, n: nat, lzw: nat, code: nat)
    requires InStep(s, dict, data, n, lzw)
    requires code < |dict| && !Special(lzw, code) && dict[code] <= data
    ensures code <= |s.dict| && (s.prev < 0 ==> code < |s.dict|)
    ensures s.prev >= 0 ==> s.dict + [Added(s, code, lzw)] == Ahead(s, data)
    ensures dict[code] == Ahead(s, data)[code] && dict[code] != []
  {
    if s.prev >= 0 {
      var w := if code < |s.dict| then s.dict[code] else s.dict[s.prev];
      assert w <= dict[code] && w != [];
    }
  }

  /** The step on such a code. */
  lemma StepText(s: State, dict: seq<seq<byte>>, data: seq<byte>, n: nat, lzw: nat, code: nat)
    requires InStep(s, dict, data, n, lzw) && n < Room(lzw)
    requires code < |dict| && !Special(lzw, code) && dict[code] <= data
    ensures Ahead(s, data) != []
    ensures Step(s, code, lzw) == More(State(Ahead(s, data), code, Width(|Ahead(s, data)|, s.size), false), dict[code])
  {
    CodeKnown(s, dict, data, n, lzw, code);
  }

  /** The encoder grows its dictionary as the decoder will. */
  lemma GrownAhead(s: State, s': State, dict: seq<seq<byte>>, data: seq<byte>, code: nat)
    requires s.prev < |s.dict| && dict == Capped(Ahead(s, data)) && code < |dict| && dict[code] <= data
    requires s'.dict == Ahead(s, data) && s'.prev == code
    ensures var rest := data[|dict[code]|..]; Grown(dict, dict[code], rest) == Capped(Ahead(s', rest))
  {
  }

  lemma WidthInStep(m: nat, size: nat, lzw: nat)
    requires 0 < m && lzw <= 11 && size == CodeWidth(if m < FULL then m else FULL, lzw + 1)
    ensures Width(m, size) == CodeWidth(if m + 1 < FULL then m + 1 else FULL, lzw + 1)
  {
    if m < FULL { WidthStep(m, lzw + 1); } else { WidthStays(m, size); }
  }

  lemma InStepText(s: State, dict: seq<seq<byte>>, data: seq<byte>, n: nat, lzw: nat, code: nat)
    requires InStep(s, dict, data, n, lzw) && n < Room(lzw) && lzw <= 11
    requires code < |dict| && !Special(lzw, code) && dict[code] <= data
    ensures var o, w := Step(s, code, lzw), dict[code];
            o.More? && o.out == w && InStep(o.state, Grown(dict, w, data[|w|..]), data[|w|..], n + 1, lzw)
  {
    StepText(s, dict, data, n, lzw, code);
    var o := Step(s, code, lzw);
    GrownAhead(s, o.state, dict, data, code);
    WidthInStep(|Ahead(s, data)|, s.size, lzw);
  }

  /** When the table is full, any other code than a clear or the end is refused. */
  lemma TableFull(s: State, dict: seq<seq<byte>>, data: seq<byte>, n: nat, lzw: nat, code: nat)
    requires InStep(s, dict, data, n, lzw) && n >= Room(lzw) > 0 && code < |dict| && !Special(lzw, code)
    ensures Step(s, code, lzw) == Bad
  {
  }

  /** One code read from the front of the bits. */
  lemma ReadCode(code: nat, size: nat, more: seq<bool>)
    requires code < Pow2(size)
    ensures var bits := LsbBits(code, size) + more; LsbVal(bits[..size]) == code && bits[size..] == more
  {
    var bits := LsbBits(code, size) + more;
    assert bits[..size] == LsbBits(code, size);
    LsbBitsSmall(code, size);
  }

  /** Reading one code and going on. */
  lemma RunCode(s: State, code: nat, more: seq<bool>, lzw: nat)
    requires WellFormed(s, lzw) && s.size > 0 && code < Pow2(s.size)
    ensures var o := Step(s, code, lzw);
            Run(s, LsbBits(code, s.size) + more, lzw) == if o.More? then Prepend(o.out, Run(o.state, more, lzw))
              else if o.End? then Done([]) else Corrupt
  {
    ReadCode(code, s.size, more);
  }

  /** Reading one code of an encoding and going on. */
  lemma RunItem(s: State, code: nat, more: seq<bool>, tail: seq<bool>, lzw: nat)
    requires WellFormed(s, lzw) && s.size > 0 && code < Pow2(s.size)
    requires Step(s, code, lzw).More?
    ensures var o := Step(s, code, lzw);
            Run(s, LsbBits(code, s.size) + more + tail, lzw) == Prepend(o.out, Run(o.state, more + tail, lzw))
  {
    assert LsbBits(code, s.size) + more + tail == LsbBits(code, s.size) + (more + tail);
    RunCode(s, code, more + tail, lzw);
  }

  lemma CodesFit(s: State, dict: seq<seq<byte>>, data: seq<byte>, n: nat, lzw: nat)
    requires lzw <= 11 && InStep(s, dict, data, n, lzw)
    ensures s.size > 0 && |dict| <= Pow2(s.size) && Pow2(lzw) + 1 < |dict|
  {
    Pow2Mono(lzw, 11);
    assert Pow2(11) == 2048;
    WidthFits(|dict|, lzw + 1);
  }

  /** The decoder recovers the data from an encoding of it exactly when it has room for every stretch between clears. */
  ghost predicate Decided(r: Result, items: seq<Item>, data: seq<byte>, n: nat, lzw: nat) {
    r == if Stretch(items, n) <= Room(lzw) then Done(data) else Corrupt
  }

  lemma {:induction false} RunWritten(s: State, items: seq<Item>, data: seq<byte>, dict: seq<seq<byte>>, n: nat,
                                      lzw: nat,
                                      tail: seq<bool>)
    requires 1 <= lzw <= 11 && InStep(s, dict, data, n, lzw) && n <= Room(lzw) && Encodes(items, data, dict, lzw)
    ensures s.size > 0 && Decided(Run(s, Written(items, data, dict, lzw) + tail, lzw), items, data, n, lzw)
    decreases |items|
  {
    if items == [] {
      CodesFit(s, dict, data, n, lzw);
      RunCode(s, Pow2(lzw) + 1, tail, lzw);
    } else if items[0].Clear? {
      RunClear(s, items, data, dict, n, lzw, tail);
    } else {
      RunText(s, items, data, dict, n, lzw, tail);
    }
  }

  lemma RunClear(s: State, items: seq<Item>, data: seq<byte>, dict: seq<seq<byte>>, n: nat, lzw: nat, tail: seq<bool>)
    requires 1 <= lzw <= 11 && InStep(s, dict, data, n, lzw) && n <= Room(lzw) && Encodes(items, data, dict, lzw)
    requires items != [] && items[0].Clear?
    ensures s.size > 0 && Decided(Run(s, Written(items, data, dict, lzw) + tail, lzw), items, data, n, lzw)
    decreases |items|, 0
  {
    CodesFit(s, dict, data, n, lzw);
    Clears(lzw, data);
    RunWritten(State(Singles(lzw), -1, lzw + 1, false), items[1..], data, Singles(lzw), 0, lzw, tail);
    RunItem(s, Pow2(lzw), Written(items[1..], data, Singles(lzw), lzw), tail, lzw);
  }

  lemma WrittenText(items: seq<Item>, data: seq<byte>, dict: seq<seq<byte>>, lzw: nat, code: nat)
    requires items != [] && items[0] == Text(code) && code < |dict| && dict[code] <= data
    ensures Written(items, data, dict, lzw)
         == LsbBits(code, CodeWidth(|dict|, lzw + 1))
            + Written(items[1..], data[|dict[code]|..], Grown(dict, dict[code], data[|dict[code]|..]), lzw)
  {
  }

  /** Text that the decoder takes, and the rest decided. */
  lemma DecidedText(r: Result, r': Result, items: seq<Item>, w: seq<byte>, data: seq<byte>, n: nat, lzw: nat)
    requires items != [] && items[0].Text? && w <= data && r == Prepend(w, r')
    requires Decided(r', items[1..], data[|w|..], n + 1, lzw)
    ensures Decided(r, items, data, n, lzw)
  {
    assert w + data[|w|..] == data;
  }

  /** Text that the decoder has no room for. */
  lemma DecidedFull(items: seq<Item>, data: seq<byte>, n: nat, lzw: nat)
    requires items != [] && items[0].Text? && n >= Room(lzw)
    ensures Decided(Corrupt, items, data, n, lzw)
  {
    assert Stretch(items, n) >= n + 1;
  }

  lemma RunText(s: State, items: seq<Item>, data: seq<byte>, dict: seq<seq<byte>>, n: nat, lzw: nat, tail: seq<bool>)
    requires 1 <= lzw <= 11 && InStep(s, dict, data, n, lzw) && n <= Room(lzw) && Encodes(items, data, dict, lzw)
    requires items != [] && items[0].Text?
    ensures s.size > 0 && Decided(Run(s, Written(items, data, dict, lzw) + tail, lzw), items, data, n, lzw)
    decreases |items|, 1
  {
    var code := items[0].code;
    CodesFit(s, dict, data, n, lzw);
    WrittenText(items, data, dict, lzw, code);
    if n < Room(lzw) {
      RunTaken(s, items, data, dict, n, lzw, tail, code);
    } else {
      RunRefused(s, data, dict, n, lzw, code,
                 Written(items[1..], data[|dict[code]|..], Grown(dict, dict[code], data[|dict[code]|..]), lzw), tail);
      DecidedFull(items, data, n, lzw);
    }
  }

  lemma RunTaken(s: State, items: seq<Item>, data: seq<byte>, dict: seq<seq<byte>>, n: nat, lzw: nat, tail: seq<bool>,
                 code: nat)
    requires 1 <= lzw <= 11 && InStep(s, dict, data, n, lzw) && n < Room(lzw)
    requires items != [] && items[0] == Text(code) && s.size > 0 && code < |dict| <= Pow2(s.size)
    requires !Special(lzw, code) && dict[code] <= data
    requires Encodes(items[1..], data[|dict[code]|..], Grown(dict, dict[code], data[|dict[code]|..]), lzw)
    ensures var more := Written(items[1..], data[|dict[code]|..], Grown(dict, dict[code], data[|dict[code]|..]), lzw);
            Decided(Run(s, LsbBits(code, s.size) + more + tail, lzw), items, data, n, lzw)
    decreases |items|, 0
  {
    var w := dict[code];
    var rest := data[|w|..];
    var dict' := Grown(dict, w, rest);
    var more := Written(items[1..], rest, dict', lzw);
    InStepText(s, dict, data, n, lzw, code);
    var s' := Step(s, code, lzw).state;
    RunWritten(s', items[1..], rest, dict', n + 1, lzw, tail);
    RunItem(s, code, more, tail, lzw);
    DecidedText(Run(s, LsbBits(code, s.size) + more + tail, lzw), Run(s', more + tail, lzw), items, w, data, n, lzw);
  }

  lemma RunRefused(s: State, data: seq<byte>, dict: seq<seq<byte>>, n: nat, lzw: nat, code: nat, more: seq<bool>,
                   tail: seq<bool>)
    requires 1 <= lzw <= 11 && InStep(s, dict, data, n, lzw) && n >= Room(lzw)
    requires s.size > 0 && code < |dict| <= Pow2(s.size) && !Special(lzw, code)
    ensures Run(s, LsbBits(code, s.size) + more + tail, lzw) == Corrupt
  {
    Clears(lzw, data);
    TableFull(s, dict, data, n, lzw, code);
    RunCode(s, code, more + tail, lzw);
    assert LsbBits(code, s.size) + more + tail == LsbBits(code, s.size) + (more + tail);
  }

  /** From the start of the stream: after a clear code, an encoding is decoded to its data if it never writes more than
      `Room(lzw)` codes without a clear, and is refused if it does. */
  lemma DecodeEncoded(items: seq<Item>, data: seq<byte>, lzw: nat, tail: seq<bool>)
    requires 1 <= lzw <= 11 && Encodes(items, data, Singles(lzw), lzw)
    ensures Run(Start(lzw), LsbBits(Pow2(lzw), lzw + 1) + Written(items, data, Singles(lzw), lzw) + tail, lzw)
         == if Stretch(items, 0) <= Room(lzw) then Done(data) else Corrupt
  {
    Clears(lzw, data);
    RunWritten(State(Singles(lzw), -1, lzw + 1, false), items, data, Singles(lzw), 0, lzw, tail);
    RunItem(Start(lzw), Pow2(lzw), Written(items, data, Singles(lzw), lzw), tail, lzw);
  }

  /** An encoder that never clears: `m` zeros as `m` codes. They are refused from the code on that has no room. */
  lemma NeverCleared(m: nat, lzw: nat, tail: seq<bool>)
    requires 1 <= lzw <= 11
    ensures var items, data := seq(m, _ => Text(0)), seq(m, _ => 0 as byte);
            && Encodes(items, data, Singles(lzw), lzw)
            && Run(Start(lzw), LsbBits(Pow2(lzw), lzw + 1) + Written(items, data, Singles(lzw), lzw) + tail, lzw)
            == if m <= TABLE_SIZE - 1 - Pow2(lzw) then Done(data) else Corrupt
  {
    ZeroCodes(m, 0, Singles(lzw), lzw);
    DecodeEncoded(seq(m, _ => Text(0)), seq(m, _ => 0 as byte), lzw, tail);
  }

  lemma {:induction false} ZeroCodes(m: nat, n: nat, dict: seq<seq<byte>>, lzw: nat)
    requires 0 < |dict| && dict[0] == [0] && !Special(lzw, 0)
    ensures Encodes(seq(m, _ => Text(0)), seq(m, _ => 0 as byte), dict, lzw)
            && Stretch(seq(m, _ => Text(0)), n) == n + m
  {
    if m > 0 {
      var items, data := seq(m, _ => Text(0)), seq(m, _ => 0 as byte);
      assert items[1..] == seq(m - 1, _ => Text(0)) && data[1..] == seq(m - 1, _ => 0 as byte);
      ZeroCodes(m - 1, n + 1, Grown(dict, [0], data[1..]), lzw);
    }
  }

  /** With a minimum code size of zero, which GIF does not allow but the decoder accepts, codes start at one bit and the
      end code needs two: after a clear it is read as the value 0 and another clear, whatever follows. */
  lemma WidthZero(tail: seq<bool>)
    ensures Encodes([], [], Singles(0), 0) && Written([], [], Singles(0), 0) == [false, true]
    ensures Run(Start(0), LsbBits(Pow2(0), 1) + Written([], [], Singles(0), 0) + tail, 0)
         == Prepend([0], Run(State(Singles(0), -1, 1, false), tail, 0))
  {
    var s := State(Singles(0), -1, 1, false);
    assert Pow2(1) == 2 && Pow2(2) == 4 && CodeWidth(3, 1) == 2;
    EndBits();
    var bits := [false, true] + tail;
    assert LsbBits(1, 1) + [false, true] + tail == LsbBits(1, 1) + bits;
    RunCode(Start(0), 1, bits, 0);
    assert bits == LsbBits(0, 1) + ([true] + tail);
    RunCode(s, 0, [true] + tail, 0);
    RunCode(State(Singles(0), 0, 1, false), 1, tail, 0);
  }

  lemma EndBits()
    ensures LsbBits(2, 2) == [false, true] && LsbBits(0, 1) == [false] && LsbBits(1, 1) == [true]
  {
  }
}
