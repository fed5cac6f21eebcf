/** The decoding tables of `stbi__zhuffman` and their construction from a list of code lengths. */
module HuffmanTable {
  import opened Bits
  import opened BitOps
  import opened Canonical

  const FAST_BITS: nat := 9
  const FAST_SIZE: nat := 512
  const MAX_SYMBOLS: nat := 288

  /** `(s << 9) | i`, the entry that packs a code length with its symbol. */
  function FastEntry(s: nat, i: nat): nat { Or(Shl(s, 9), i) }

  /** Does the code of symbol `i`, at most 9 bits long, start a stream whose low 9 bits are `j`? */
  predicate FastMatch(lens: seq<nat>, i: nat, j: nat) {
    IsSym(lens, i) && lens[i] <= FAST_BITS && j % Pow2(lens[i]) == Reverse(Code(lens, i), lens[i])
  }

  /** Entry `j` of the fast table once the first `n` symbols have been entered. */
  function FastTo(lens: seq<nat>, n: nat, j: nat): nat
    requires n <= |lens|
  {
    if n == 0 then 0
    else if FastMatch(lens, n - 1, j) then FastEntry(lens[n - 1], n - 1)
    else FastTo(lens, n - 1, j)
  }

  lemma FastEntryValue(s: nat, i: nat)
    requires i < 512
    ensures FastEntry(s, i) == 512 * s + i
    ensures Shr(FastEntry(s, i), 9) == s && And(FastEntry(s, i), 511) == i
  {
    Pow2Small();
    OrShifted(i, 9, s);
    OrComm(Shl(s, 9), i);
    var e := FastEntry(s, i);
    AndMask(e, 9);
    ShrDiv(e, 9);
  }

  /** The fast table's look-up test is the prefix test on the next bits of the stream. */
  lemma FastMatchPrefix(lens: seq<nat>, i: nat, p: seq<bool>)
    requires Usable(lens) && IsSym(lens, i) && lens[i] <= FAST_BITS && |p| >= 9
    ensures FastMatch(lens, i, LsbVal(p[..9])) <==> CodeBits(lens, i) <= p
  {
    var s, q := lens[i], p[..9];
    var v := LsbVal(q);
    LsbValBound(q);
    LsbBitsVal(q);
    LsbTake(v, s, 9);
    assert q[..s] == p[..s];
    if LsbVal(p[..s]) == LsbVal(CodeBits(lens, i)) {
      LsbInjective(p[..s], CodeBits(lens, i));
    }
    assert CodeBits(lens, i) <= p <==> CodeBits(lens, i) == p[..s];
  }

  /** An empty entry means that no short code starts the stream; any other entry names the one that does. */
  lemma {:induction false} FastToMeaning(lens: seq<nat>, n: nat, p: seq<bool>)
    requires Usable(lens) && n <= |lens| <= MAX_SYMBOLS && |p| >= 9
    ensures var e := FastTo(lens, n, LsbVal(p[..9]));
            if e == 0 then NoneStarts(lens, n, FAST_BITS, p)
            else And(e, 511) < n && IsSym(lens, And(e, 511)) && Shr(e, 9) == lens[And(e, 511)]
                 && CodeBits(lens, And(e, 511)) <= p
  {
    if n > 0 {
      FastToMeaning(lens, n - 1, p);
      if IsSym(lens, n - 1) && lens[n - 1] <= FAST_BITS {
        FastMatchPrefix(lens, n - 1, p);
        FastEntryValue(lens[n - 1], n - 1);
      }
    }
  }

  lemma RowFits(lens: seq<nat>, i: nat)
    requires 1 <= i <= 15 && End(lens, i - 1) <= Pow2(i - 1) && |lens| <= MAX_SYMBOLS
    ensures First(lens, i) < 0x1_0000 && FirstSymbol(lens, i) < 0x1_0000
    ensures First(lens, i) <= Pow2(i)
  {
    Pow2Mono(i, 15);
    Pow2Small();
    ShorterBound(lens, |lens|, i);
  }

  lemma RowStep(lens: seq<nat>, i: nat)
    requires 1 <= i <= 15
    ensures End(lens, i) == First(lens, i) + Count(lens, i)
    ensures First(lens, i + 1) == 2 * End(lens, i)
    ensures FirstSymbol(lens, i + 1) == FirstSymbol(lens, i) + Count(lens, i)
    ensures Limit(lens, i) == Shl(End(lens, i), 16 - i)
  {
  }

  // The rows as sequences, which keeps the recursion of their definitions out of loop invariants.

  ghost function Firsts(lens: seq<nat>): (f: seq<nat>)
    ensures |f| == 16 && forall s | 0 <= s < 16 :: f[s] == First(lens, s)
  {
    seq(16, s requires 0 <= s < 16 => First(lens, s))
  }

  ghost function FirstSymbols(lens: seq<nat>): (f: seq<nat>)
    ensures |f| == 16 && forall s | 0 <= s < 16 :: f[s] == FirstSymbol(lens, s)
  {
    seq(16, s requires 0 <= s < 16 => FirstSymbol(lens, s))
  }

  ghost function Limits(lens: seq<nat>): (f: seq<nat>)
    ensures |f| == 16 && forall s | 0 <= s < 16 :: f[s] == Limit(lens, s)
  {
    seq(16, s requires 0 <= s < 16 => Limit(lens, s))
  }

  /** Where symbol `i` stands in the table sorted by code. */
  ghost function Places(lens: seq<nat>): (f: seq<nat>)
    ensures |f| == |lens|
    ensures forall i: nat | IsSym(lens, i) :: f[i] == FirstSymbol(lens, lens[i]) + Rank(lens, i)
  {
    seq(|lens|, i requires 0 <= i < |lens| => if lens[i] > 0 then FirstSymbol(lens, lens[i]) + Rank(lens, i) else 0)
  }

  lemma PlacesDistinct(lens: seq<nat>, i: nat)
    requires IsSym(lens, i)
    ensures forall j: nat | IsSym(lens, j) && j != i :: Places(lens)[j] != Places(lens)[i]
  {
    forall j: nat | IsSym(lens, j) && j != i
      ensures Places(lens)[j] != Places(lens)[i]
    {
      if Places(lens)[j] == Places(lens)[i] { PlaceInjective(lens, i, j); }
    }
  }

  /** The next code to hand out for each length once the first `n` symbols have theirs. */
  ghost function NextCodes(lens: seq<nat>, n: nat): (f: seq<nat>)
    requires n <= |lens|
    ensures |f| == 16 && forall s | 0 <= s < 16 :: f[s] == First(lens, s) + CountTo(lens, n, s)
  {
    seq(16, s requires 0 <= s < 16 => First(lens, s) + CountTo(lens, n, s))
  }

  ghost function FastTable(lens: seq<nat>, n: nat): (f: seq<nat>)
    requires n <= |lens|
    ensures |f| == FAST_SIZE && forall j | 0 <= j < FAST_SIZE :: f[j] == FastTo(lens, n, j)
  {
    seq(FAST_SIZE, j requires 0 <= j < FAST_SIZE => FastTo(lens, n, j))
  }

  /** The state of the tables once the first `n` symbols have been entered. */
  ghost predicate Entered(lens: seq<nat>, n: nat, next: seq<nat>, fast: seq<u16>, size: seq<byte>, value: seq<u16>,
                          k: nat := 3)
    requires n <= |lens|
    decreases n, k
  {
    && |next| == 16 && |fast| == FAST_SIZE && |size| == |value| == MAX_SYMBOLS
    && if k > 0 then Entered(lens, n, next, fast, size, value, k - 1)
       else
         && (forall s | 1 <= s <= 15 :: next[s] == NextCodes(lens, n)[s])
         && (forall j | 0 <= j < FAST_SIZE :: fast[j] as int == FastTable(lens, n)[j])
         && (forall i: nat | i < n && IsSym(lens, i) :: PlacedAt(lens, i, size, value))
  }

  lemma EnteredDef(lens: seq<nat>, n: nat, next: seq<nat>, fast: seq<u16>, size: seq<byte>, value: seq<u16>)
    requires n <= |lens|
    ensures Entered(lens, n, next, fast, size, value) <==>
            && |next| == 16 && |fast| == FAST_SIZE && |size| == |value| == MAX_SYMBOLS
            && (forall s | 1 <= s <= 15 :: next[s] == NextCodes(lens, n)[s])
            && (forall j | 0 <= j < FAST_SIZE :: fast[j] as int == FastTable(lens, n)[j])
            && (forall i: nat | i < n && IsSym(lens, i) :: PlacedAt(lens, i, size, value))
  {
    assert Entered(lens, n, next, fast, size, value, 1) == Entered(lens, n, next, fast, size, value, 0);
    assert Entered(lens, n, next, fast, size, value, 2) == Entered(lens, n, next, fast, size, value, 1);
  }

  ghost predicate PlacedAt(lens: seq<nat>, i: nat, size: seq<byte>, value: seq<u16>)
    requires i < |lens| && |size| == |value| == MAX_SYMBOLS
  {
    var c := Places(lens)[i];
    c < MAX_SYMBOLS && size[c] as int == lens[i] && value[c] as int == i
  }

  lemma NoSymbols(lens: seq<nat>, next: seq<nat>, fast: seq<u16>, size: seq<byte>, value: seq<u16>)
    requires |next| == 16 && |fast| == FAST_SIZE && |size| == |value| == MAX_SYMBOLS
    requires forall s | 1 <= s <= 15 :: next[s] == Firsts(lens)[s]
    requires forall j | 0 <= j < FAST_SIZE :: fast[j] == 0
    ensures Entered(lens, 0, next, fast, size, value)
  {
    EnteredDef(lens, 0, next, fast, size, value);
  }

  lemma SkipSymbol(lens: seq<nat>, i: nat, next: seq<nat>, fast: seq<u16>, size: seq<byte>, value: seq<u16>)
    requires i < |lens| && lens[i] == 0 && Entered(lens, i, next, fast, size, value)
    ensures Entered(lens, i + 1, next, fast, size, value)
  {
    EnteredDef(lens, i, next, fast, size, value);
    EnteredDef(lens, i + 1, next, fast, size, value);
  }

  /** One symbol's entries, made where the loop makes them, extend the tables by that symbol. */
  lemma AddSymbol(lens: seq<nat>, i: nat, next: seq<nat>, fast: seq<u16>, size: seq<byte>, value: seq<u16>,
                  fast': seq<u16>)
    requires Usable(lens) && IsSym(lens, i) && |lens| <= MAX_SYMBOLS && Entered(lens, i, next, fast, size, value)
    requires FastEntry(lens[i], i) < 0x1_0000
    requires fast' == if lens[i] > FAST_BITS then fast
                      else Filled(fast, Pow2(lens[i]), Reverse(Code(lens, i), lens[i]), FastEntry(lens[i], i))
    ensures lens[i] <= 15 && Places(lens)[i] < MAX_SYMBOLS
    ensures Entered(lens, i + 1, next[lens[i] := Code(lens, i) + 1], fast',
                    size[Places(lens)[i] := lens[i]], value[Places(lens)[i] := i])
  {
    PlaceBound(lens, i);
    NextCodeStep(lens, i);
    PlacesDistinct(lens, i);
    EnteredDef(lens, i, next, fast, size, value);
    var c := Places(lens)[i];
    var size', value' := size[c := lens[i]], value[c := i];
    forall j: nat | j < i + 1 && IsSym(lens, j)
      ensures PlacedAt(lens, j, size', value')
    {
      if j < i { assert PlacedAt(lens, j, size, value); }
    }
    FilledDef(fast, Pow2(lens[i]), Reverse(Code(lens, i), lens[i]), FastEntry(lens[i], i));
    forall j | 0 <= j < FAST_SIZE
      ensures fast'[j] as int == FastTable(lens, i + 1)[j]
    {
    }
    EnteredDef(lens, i + 1, next[lens[i] := Code(lens, i) + 1], fast', size', value');
  }

  /** The same for the tables after the writes. */
  lemma SymbolEntered(lens: seq<nat>, i: nat, next: seq<nat>, fast: seq<u16>, size: seq<byte>, value: seq<u16>,
                      next': seq<nat>, fast': seq<u16>, size': seq<byte>, value': seq<u16>)
    requires Usable(lens) && IsSym(lens, i) && |lens| <= MAX_SYMBOLS && Entered(lens, i, next, fast, size, value)
    requires lens[i] <= 15 && |next| == 16 && |size| == |value| == MAX_SYMBOLS && Places(lens)[i] < MAX_SYMBOLS
    requires FastEntry(lens[i], i) < 0x1_0000
    requires size' == size[Places(lens)[i] := lens[i]] && value' == value[Places(lens)[i] := i]
    requires next' == next[lens[i] := Code(lens, i) + 1]
    requires fast' == if lens[i] > FAST_BITS then fast
                      else Filled(fast, Pow2(lens[i]), BitReverse(Code(lens, i), lens[i]), FastEntry(lens[i], i))
    ensures Entered(lens, i + 1, next', fast', size', value')
  {
    SymbolFacts(lens, i);
    AddSymbol(lens, i, next, fast, size, value, fast');
  }

  lemma SymbolFacts(lens: seq<nat>, i: nat)
    requires Usable(lens) && IsSym(lens, i) && |lens| <= MAX_SYMBOLS
    ensures NextCodes(lens, i)[lens[i]] == Code(lens, i)
    ensures Code(lens, i) - Firsts(lens)[lens[i]] + FirstSymbols(lens)[lens[i]] == Places(lens)[i] < MAX_SYMBOLS
    ensures FastEntry(lens[i], i) < 0x1_0000
    ensures BitReverse(Code(lens, i), lens[i]) == Reverse(Code(lens, i), lens[i]) < Pow2(lens[i])
  {
    NextCodeStep(lens, i);
    PlaceBound(lens, i);
    FastEntryValue(lens[i], i);
    BitReverseCorrect(Code(lens, i), lens[i]);
  }

  lemma NextCodeStep(lens: seq<nat>, i: nat)
    requires IsSym(lens, i) && lens[i] <= 15
    ensures NextCodes(lens, i)[lens[i]] == Code(lens, i)
    ensures NextCodes(lens, i + 1) == NextCodes(lens, i)[lens[i] := Code(lens, i) + 1]
  {
  }

  /** The per-length tables are right for all lengths below `n`. */
  ghost predicate Rows(lens: seq<nat>, n: nat, firstcode: seq<u16>, firstsymbol: seq<u16>, maxcode: seq<int>,
                       k: nat := 3)
    decreases n, k
  {
    && n <= |firstcode| == |firstsymbol| == 16 && |maxcode| == 17
    && if k > 0 then Rows(lens, n, firstcode, firstsymbol, maxcode, k - 1)
       else forall s | 1 <= s < n ::
         && firstcode[s] as int == Firsts(lens)[s] && firstsymbol[s] as int == FirstSymbols(lens)[s]
         && maxcode[s] == Limits(lens)[s]
  }

  lemma RowsDef(lens: seq<nat>, n: nat, firstcode: seq<u16>, firstsymbol: seq<u16>, maxcode: seq<int>)
    ensures Rows(lens, n, firstcode, firstsymbol, maxcode) <==>
            && n <= |firstcode| == |firstsymbol| == 16 && |maxcode| == 17
            && forall s | 1 <= s < n ::
              && firstcode[s] as int == Firsts(lens)[s] && firstsymbol[s] as int == FirstSymbols(lens)[s]
              && maxcode[s] == Limits(lens)[s]
  {
    assert Rows(lens, n, firstcode, firstsymbol, maxcode, 1) == Rows(lens, n, firstcode, firstsymbol, maxcode, 0);
    assert Rows(lens, n, firstcode, firstsymbol, maxcode, 2) == Rows(lens, n, firstcode, firstsymbol, maxcode, 1);
  }

  /** All the tables of the canonical code for `lens`. */
  ghost predicate Tables(lens: seq<nat>, fast: seq<u16>, firstcode: seq<u16>, firstsymbol: seq<u16>, maxcode: seq<int>,
                         size: seq<byte>, value: seq<u16>, k: nat := 3)
    decreases |lens|, k
  {
    if k > 0 then Tables(lens, fast, firstcode, firstsymbol, maxcode, size, value, k - 1)
    else
      && Usable(lens) && |lens| <= MAX_SYMBOLS
      && Rows(lens, 16, firstcode, firstsymbol, maxcode) && maxcode[16] == 0x1_0000
      && |fast| == FAST_SIZE && (forall j | 0 <= j < FAST_SIZE :: fast[j] as int == FastTable(lens, |lens|)[j])
      && |size| == |value| == MAX_SYMBOLS && (forall i: nat | IsSym(lens, i) :: PlacedAt(lens, i, size, value))
  }

  lemma TablesDef(lens: seq<nat>, fast: seq<u16>, firstcode: seq<u16>, firstsymbol: seq<u16>, maxcode: seq<int>,
                  size: seq<byte>, value: seq<u16>)
    ensures Tables(lens, fast, firstcode, firstsymbol, maxcode, size, value) <==>
            && Usable(lens) && |lens| <= MAX_SYMBOLS
            && Rows(lens, 16, firstcode, firstsymbol, maxcode) && maxcode[16] == 0x1_0000
            && |fast| == FAST_SIZE && (forall j | 0 <= j < FAST_SIZE :: fast[j] as int == FastTable(lens, |lens|)[j])
            && |size| == |value| == MAX_SYMBOLS && (forall i: nat | IsSym(lens, i) :: PlacedAt(lens, i, size, value))
  {
    assert Tables(lens, fast, firstcode, firstsymbol, maxcode, size, value, 1)
        == Tables(lens, fast, firstcode, firstsymbol, maxcode, size, value, 0);
    assert Tables(lens, fast, firstcode, firstsymbol, maxcode, size, value, 2)
        == Tables(lens, fast, firstcode, firstsymbol, maxcode, size, value, 1);
  }

  lemma AddRow(lens: seq<nat>, i: nat, firstcode: seq<u16>, firstsymbol: seq<u16>, maxcode: seq<int>)
    requires 1 <= i <= 15 && End(lens, i - 1) <= Pow2(i - 1) && |lens| <= MAX_SYMBOLS
    requires Rows(lens, i, firstcode, firstsymbol, maxcode)
    ensures First(lens, i) < 0x1_0000 && FirstSymbol(lens, i) < 0x1_0000
    ensures Rows(lens, i + 1, firstcode[i := First(lens, i)], firstsymbol[i := FirstSymbol(lens, i)],
                 maxcode[i := Shl(First(lens, i) + Count(lens, i), 16 - i)])
  {
    RowFits(lens, i);
    RowStep(lens, i);
    RowsDef(lens, i, firstcode, firstsymbol, maxcode);
    var f, k, m := firstcode[i := First(lens, i)], firstsymbol[i := FirstSymbol(lens, i)],
                   maxcode[i := Shl(First(lens, i) + Count(lens, i), 16 - i)];
    forall s | 1 <= s < i + 1
      ensures f[s] as int == Firsts(lens)[s] && k[s] as int == FirstSymbols(lens)[s] && m[s] == Limits(lens)[s]
    {
      if s < i { assert firstcode[s] as int == Firsts(lens)[s]; }
    }
    RowsDef(lens, i + 1, f, k, m);
  }

  lemma TooMany(lens: seq<nat>, i: nat)
    requires 1 <= i <= 15 && End(lens, i) > Pow2(i)
    ensures !Usable(lens)
  {
    if Usable(lens) { EndFits(lens, i); }
  }

  lemma ModGap(p: nat, j: nat, x: nat)
    requires p > 0 && j < x < j + p
    ensures x % p != j % p
  {
    DivModDef(j, p);
    DivModDef(x, p);
    if x % p == j % p {
      var q := x / p - j / p;
      assert x - j == q * p by { MulDistrib(x / p - j / p, j / p, p); }
      if q >= 1 { MulMono(1, q, p); } else { MulMono(q, 0, p); }
    }
  }

  lemma ModStep(p: nat, j: nat)
    requires p > 0
    ensures (j + p) % p == j % p
  {
    DivModDef(j, p);
    MulDistrib(j / p, 1, p);
    DivModUnique(j + p, p, j / p + 1, j % p);
  }

  /** `t` with `v` at every index congruent to `start`. */
  ghost function Filled(t: seq<u16>, p: nat, start: nat, v: u16, k: nat := 3): (f: seq<u16>)
    requires p > 0
    ensures |f| == |t|
    decreases |t|, k
  {
    if k > 0 then Filled(t, p, start, v, k - 1)
    else seq(|t|, x requires 0 <= x < |t| => if x % p == start then v else t[x])
  }

  lemma FilledDef(t: seq<u16>, p: nat, start: nat, v: u16)
    requires p > 0
    ensures forall x | 0 <= x < |t| :: Filled(t, p, start, v)[x] == if x % p == start then v else t[x]
  {
    assert Filled(t, p, start, v, 1) == Filled(t, p, start, v, 0);
    assert Filled(t, p, start, v, 2) == Filled(t, p, start, v, 1);
  }

  lemma FilledFirst(t: seq<u16>, p: nat, start: nat, v: u16)
    requires start < p
    ensures start % p == start
    ensures forall x | 0 <= x < start && x < |t| :: Filled(t, p, start, v)[x] == t[x]
  {
    FilledDef(t, p, start, v);
    DivModUnique(start, p, 0, start);
    forall x | 0 <= x < start ensures x % p != start { DivModUnique(x, p, 0, x); }
  }

  lemma FilledStep(t: seq<u16>, p: nat, start: nat, v: u16, j: nat)
    requires p > 0 && j % p == start
    ensures j < |t| ==> Filled(t, p, start, v)[j] == v
    ensures forall x | j < x < j + p && x < |t| :: Filled(t, p, start, v)[x] == t[x]
    ensures (j + p) % p == start
  {
    FilledDef(t, p, start, v);
    ModStep(p, j);
    forall x | j < x < j + p ensures x % p != start { ModGap(p, j, x); }
  }

  class ZHuffman {
    const fast: array<u16>
    const firstcode: array<u16>
    const maxcode: array<int>
    const firstsymbol: array<u16>
    const size: array<byte>
    const value: array<u16>

    constructor ()
      ensures Shape() && fresh(Arrays())
    {
      fast := new u16[FAST_SIZE](_ => 0);
      firstcode := new u16[16](_ => 0);
      maxcode := new int[17](_ => 0);
      firstsymbol := new u16[16](_ => 0);
      size := new byte[MAX_SYMBOLS](_ => 0);
      value := new u16[MAX_SYMBOLS](_ => 0);
    }

    ghost predicate Shape() {
      && fast.Length == FAST_SIZE && firstcode.Length == 16 && maxcode.Length == 17
      && firstsymbol.Length == 16 && size.Length == MAX_SYMBOLS && value.Length == MAX_SYMBOLS
      && fast != firstcode && fast != firstsymbol && fast != value
      && firstcode != firstsymbol && firstcode != value && firstsymbol != value
    }

    ghost function Arrays(): set<object> {
      {fast as object, firstcode, maxcode as object, firstsymbol, size as object, value}
    }

    /** The tables are those of the canonical code for `lens`. */
    ghost predicate Built(lens: seq<nat>)
      reads fast, firstcode, maxcode, firstsymbol, size, value
    {
      Shape() && Tables(lens, fast[..], firstcode[..], firstsymbol[..], maxcode[..], size[..], value[..])
    }

    lemma BuiltFacts(lens: seq<nat>)
      requires Built(lens)
      ensures Usable(lens) && |lens| <= MAX_SYMBOLS && maxcode[16] == 0x1_0000
      ensures Rows(lens, 16, firstcode[..], firstsymbol[..], maxcode[..])
      ensures forall i: nat | IsSym(lens, i) :: PlacedAt(lens, i, size[..], value[..])
    {
      TablesDef(lens, fast[..], firstcode[..], firstsymbol[..], maxcode[..], size[..], value[..]);
    }

    lemma BuiltUsable(lens: seq<nat>)
      requires Built(lens)
      ensures Usable(lens) && |lens| <= MAX_SYMBOLS
    {
      BuiltFacts(lens);
    }

    lemma BuiltFast(lens: seq<nat>, j: nat)
      requires Built(lens) && j < FAST_SIZE
      ensures fast.Length == FAST_SIZE && fast[j] as int == FastTo(lens, |lens|, j)
    {
      TablesDef(lens, fast[..], firstcode[..], firstsymbol[..], maxcode[..], size[..], value[..]);
    }

    ghost predicate Apart(next_code: array<nat>) {
      && next_code as object != fast && next_code as object != firstcode && next_code as object != firstsymbol
      && next_code as object != maxcode && next_code as object != size && next_code as object != value
    }

    /** `stbi__zbuild_huffman`: accepts exactly the code lengths that are not over-subscribed. */
    method Build(sizelist: seq<nat>) returns (ok: bool)
      requires Shape() && |sizelist| <= MAX_SYMBOLS && forall i | 0 <= i < |sizelist| :: sizelist[i] <= 15
      modifies fast, firstcode, maxcode, firstsymbol, size, value
      ensures ok <==> Usable(sizelist)
      ensures ok ==> Built(sizelist)
    {
      var sizes := CountSizes(sizelist);
      for j := 0 to FAST_SIZE
        invariant forall x | 0 <= x < j :: fast[x] == 0
        invariant forall s | 1 <= s <= 15 :: sizes[s] == Count(sizelist, s)
      {
        fast[j] := 0;
      }
      var i := 1;
      while i < 16
        invariant 1 <= i <= 16
      {
        if sizes[i] > Pow2(i) {
          TooMany(sizelist, i);
          return false;
        }
        i := i + 1;
      }
      var next_code := new nat[16](_ => 0);
      ok := FirstCodes(sizelist, sizes, next_code);
      if !ok { return; }
      NoSymbols(sizelist, next_code[..], fast[..], size[..], value[..]);
      EnterSymbols(sizelist, next_code);
      EnteredDef(sizelist, |sizelist|, next_code[..], fast[..], size[..], value[..]);
      TablesDef(sizelist, fast[..], firstcode[..], firstsymbol[..], maxcode[..], size[..], value[..]);
    }

    method CountSizes(sizelist: seq<nat>) returns (sizes: array<nat>)
      requires forall i | 0 <= i < |sizelist| :: sizelist[i] <= 15
      ensures fresh(sizes) && sizes.Length == 17
      ensures forall s | 1 <= s <= 15 :: sizes[s] == Count(sizelist, s)
    {
      sizes := new nat[17](_ => 0);
      for i := 0 to |sizelist|
        invariant forall s | 0 <= s <= 15 :: sizes[s] == CountTo(sizelist, i, s)
      {
        sizes[sizelist[i]] := sizes[sizelist[i]] + 1;
      }
      sizes[0] := 0;
    }

    method FirstCodes(ghost lens: seq<nat>, sizes: array<nat>, next_code: array<nat>) returns (ok: bool)
      requires Shape() && |lens| <= MAX_SYMBOLS && forall i | 0 <= i < |lens| :: lens[i] <= 15
      requires sizes.Length == 17 && forall s | 1 <= s <= 15 :: sizes[s] == Count(lens, s)
      requires next_code.Length == 16 && next_code != sizes
      modifies firstcode, maxcode, firstsymbol, next_code
      ensures ok <==> Usable(lens)
      ensures ok ==> Rows(lens, 16, firstcode[..], firstsymbol[..], maxcode[..]) && maxcode[16] == 0x1_0000
      ensures ok ==> forall s | 1 <= s <= 15 :: next_code[s] == Firsts(lens)[s]
    {
      var code, k := 0, 0;
      ghost var f := Firsts(lens);
      var i := 1;
      while i < 16
        invariant 1 <= i <= 16
        invariant code == First(lens, i) && k == FirstSymbol(lens, i) && End(lens, i - 1) <= Pow2(i - 1)
        invariant Rows(lens, i, firstcode[..], firstsymbol[..], maxcode[..])
        invariant forall s | 1 <= s < i :: next_code[s] == f[s]
        invariant sizes[..] == old(sizes[..])
      {
        RowStep(lens, i);
        RowFits(lens, i);
        var n := sizes[i];
        next_code[i] := code;
        EnterRow(lens, i, code, k, n);
        code := code + n;
        if n != 0 && code - 1 >= Pow2(i) {
          TooMany(lens, i);
          return false;
        }
        code := 2 * code;
        k := k + n;
        i := i + 1;
      }
      maxcode[16] := 0x1_0000;
      ok := true;
    }

    method EnterRow(ghost lens: seq<nat>, i: nat, code: nat, k: nat, n: nat)
      requires Shape() && 1 <= i <= 15 && |lens| <= MAX_SYMBOLS
      requires code == First(lens, i) && k == FirstSymbol(lens, i) && n == Count(lens, i)
               && End(lens, i - 1) <= Pow2(i - 1)
      requires Rows(lens, i, firstcode[..], firstsymbol[..], maxcode[..])
      modifies firstcode, firstsymbol, maxcode
      ensures Rows(lens, i + 1, firstcode[..], firstsymbol[..], maxcode[..])
    {
      AddRow(lens, i, firstcode[..], firstsymbol[..], maxcode[..]);
      firstcode[i] := code;
      firstsymbol[i] := k;
      maxcode[i] := Shl(code + n, 16 - i);
    }

    method EnterSymbols(lens: seq<nat>, next_code: array<nat>)
      requires Shape() && Usable(lens) && |lens| <= MAX_SYMBOLS
      requires Rows(lens, 16, firstcode[..], firstsymbol[..], maxcode[..])
      requires next_code.Length == 16
      requires Apart(next_code)
      requires Entered(lens, 0, next_code[..], fast[..], size[..], value[..])
      modifies fast, size, value, next_code
      ensures Entered(lens, |lens|, next_code[..], fast[..], size[..], value[..])
    {
      var i := 0;
      while i < |lens|
        invariant 0 <= i <= |lens|
        invariant Entered(lens, i, next_code[..], fast[..], size[..], value[..])
      {
        if lens[i] != 0 {
          EnterSymbol(lens, i, next_code);
        } else {
          SkipSymbol(lens, i, next_code[..], fast[..], size[..], value[..]);
        }
        i := i + 1;
      }
    }

    method EnterSymbol(lens: seq<nat>, i: nat, next_code: array<nat>)
      requires Shape() && Usable(lens) && |lens| <= MAX_SYMBOLS && IsSym(lens, i)
      requires Rows(lens, 16, firstcode[..], firstsymbol[..], maxcode[..])
      requires next_code.Length == 16
      requires Apart(next_code)
      requires Entered(lens, i, next_code[..], fast[..], size[..], value[..])
      modifies fast, size, value, next_code
      ensures Entered(lens, i + 1, next_code[..], fast[..], size[..], value[..])
    {
      var s := lens[i];
      ghost var next0: seq<nat>, fast0: seq<u16> := next_code[..], fast[..];
      ghost var size0: seq<byte>, value0: seq<u16> := size[..], value[..];
      var code, c := NextPlace(lens, i, next_code);
      WriteSymbol(i, s, code, c, next_code);
      ghost var next1: seq<nat>, fast1: seq<u16> := next_code[..], fast[..];
      ghost var size1: seq<byte>, value1: seq<u16> := size[..], value[..];
      SymbolEntered(lens, i, next0, fast0, size0, value0, next1, fast1, size1, value1);
    }

    /** The code of symbol `i` and its place in the table sorted by code. */
    method NextPlace(lens: seq<nat>, i: nat, next_code: array<nat>) returns (code: nat, c: nat)
      requires Shape() && Usable(lens) && |lens| <= MAX_SYMBOLS && IsSym(lens, i)
      requires Rows(lens, 16, firstcode[..], firstsymbol[..], maxcode[..])
      requires next_code.Length == 16
      requires Entered(lens, i, next_code[..], fast[..], size[..], value[..])
      ensures code == Code(lens, i) && c == Places(lens)[i] < MAX_SYMBOLS && 1 <= lens[i] <= 15
      ensures BitReverse(code, lens[i]) < Pow2(lens[i]) && FastEntry(lens[i], i) < 0x1_0000
    {
      SymbolFacts(lens, i);
      EnteredDef(lens, i, next_code[..], fast[..], size[..], value[..]);
      RowsDef(lens, 16, firstcode[..], firstsymbol[..], maxcode[..]);
      var s := lens[i];
      code := next_code[s];
      c := code - firstcode[s] + firstsymbol[s];
    }

    /** Enters symbol `i` with its code of `s` bits in all tables. */
    method WriteSymbol(i: u16, s: nat, code: nat, c: nat, next_code: array<nat>)
      requires Shape() && Apart(next_code) && next_code.Length == 16 && 1 <= s <= 15 && c < MAX_SYMBOLS
      requires BitReverse(code, s) < Pow2(s) && FastEntry(s, i) < 0x1_0000
      modifies fast, size, value, next_code
      ensures size[..] == old(size[..])[c := s] && value[..] == old(value[..])[c := i]
      ensures next_code[..] == old(next_code[..])[s := code + 1]
      ensures fast[..] == if s > FAST_BITS then old(fast[..])
              else Filled(old(fast[..]), Pow2(s), BitReverse(code, s), FastEntry(s, i))
    {
      Place(c, s, i);
      if s <= FAST_BITS {
        FillFast(BitReverse(code, s), s, FastEntry(s, i));
      }
      next_code[s] := code + 1;
    }

    method Place(c: nat, s: byte, i: u16)
      requires Shape() && c < MAX_SYMBOLS
      modifies size, value
      ensures size[..] == old(size[..])[c := s] && value[..] == old(value[..])[c := i]
    {
      size[c] := s;
      value[c] := i;
    }

    /** Enters `fastv` at every index whose low `s` bits are `start`. */
    method FillFast(start: nat, s: nat, fastv: u16)
      requires Shape() && 1 <= s <= FAST_BITS && start < Pow2(s)
      modifies fast
      ensures fast[..] == Filled(old(fast[..]), Pow2(s), start, fastv)
    {
      var j, p := start, Pow2(s);
      ghost var goal: seq<u16> := Filled(fast[..], p, start, fastv);
      FilledFirst(fast[..], p, start, fastv);
      while j < FAST_SIZE
        invariant j % p == start
        invariant forall x | 0 <= x < FAST_SIZE :: fast[x] == if x < j then goal[x] else old(fast[x])
        decreases FAST_SIZE - j
      {
        fast[j] := fastv;
        FilledStep(old(fast[..]), p, start, fastv, j);
        j := j + p;
      }
      assert fast[..] == goal;
    }
  }

  /** Builds the two tables of a block. */
  method BuildBoth(z_length: ZHuffman, z_distance: ZHuffman, l: seq<nat>, d: seq<nat>) returns (ok: bool)
    requires z_length.Shape() && z_distance.Shape() && z_length.Arrays() !! z_distance.Arrays()
    requires |l| <= MAX_SYMBOLS && forall i | 0 <= i < |l| :: l[i] <= 15
    requires |d| <= MAX_SYMBOLS && forall i | 0 <= i < |d| :: d[i] <= 15
    modifies z_length.fast, z_length.firstcode, z_length.maxcode, z_length.firstsymbol, z_length.size, z_length.value
    modifies z_distance.fast, z_distance.firstcode, z_distance.maxcode, z_distance.firstsymbol, z_distance.size,
      z_distance.value
    ensures ok <==> Usable(l) && Usable(d)
    ensures ok ==> z_length.Built(l) && z_distance.Built(d)
  {
    ok := z_length.Build(l);
    if !ok { return; }
    ok := z_distance.Build(d);
  }
}
