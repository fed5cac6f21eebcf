/** The keyed cipher of CUDA_sample/test/C3/tlforce.cpp: two rounds of deck substitution, permutation and score
    tree coding. The hash behind the score tree is an arbitrary function. */
module Cipher {
  import opened Sequences
  import opened Bits
  import opened BitOps
  import opened Charset
  import opened SeedScores
  import opened SeedUpdate
  import opened HuffmanPool
  import Huffman
  import StableSort

  // ---------- permutations ----------

  /** Every index occurs, and only once. (`k`, always left at its default, keeps this folded.) */
  ghost predicate Permutation(p: seq<nat>, k: nat := 3)
    decreases |p|, k
  {
    if k > 0 then Permutation(p, k - 1)
    else
      && (forall i | 0 <= i < |p| :: p[i] < |p|)
      && (forall i, j | 0 <= i < j < |p| :: p[i] != p[j])
      && (forall x: nat | x < |p| :: x in p)
  }

  lemma PermutationDef(p: seq<nat>)
    ensures Permutation(p) <==>
            && (forall i | 0 <= i < |p| :: p[i] < |p|)
            && (forall i, j | 0 <= i < j < |p| :: p[i] != p[j])
            && (forall x: nat | x < |p| :: x in p)
  {
    assert Permutation(p, 1) == Permutation(p, 0);
    assert Permutation(p, 2) == Permutation(p, 1);
  }

  /** The two ways to use a permutation. */
  lemma PermutationAt(p: seq<nat>, i: nat)
    requires Permutation(p) && i < |p|
    ensures p[i] < |p| && i in p && IndexOf(p, p[i]) == i
  {
    PermutationDef(p);
  }

  function IndexOf(p: seq<nat>, x: nat): (i: nat)
    requires x in p
    ensures i < |p| && p[i] == x
  {
    if p[0] == x then 0 else 1 + IndexOf(p[1..], x)
  }

  // ---------- generator and decks ----------

  /** `lcg_next` */
  function LcgNext(state: u32): u32 { (state * 1664525 + 1013904223) % WORD32 }

  /** `xor32` */
  function Xor32(a: nat, b: nat): u32 { Xor(a, b) % WORD32 }

  /** `key_to_seed_master`, which wraps around at 64 bits. */
  function KeySeed(key: string): u64
    requires Text(key)
  {
    if key == "" then 0 else (KeySeed(key[..|key| - 1]) * 36 + CharToIdx(key[|key| - 1])) % WORD64
  }

  method KeyToSeedMaster(key: string) returns (seed: u64)
    requires Text(key)
    ensures seed == KeySeed(key)
  {
    seed := 0;
    assert key[..0] == "";
    for i := 0 to |key|
      invariant seed == KeySeed(key[..i])
    {
      assert key[..i + 1][..i] == key[..i];
      var wide: int := seed;
      seed := (wide * 36 + CharToIdx(key[i])) % WORD64;
    }
    assert key[..|key|] == key;
  }

  /** The seed without the wrap-around, as in encode.py: the key as a number in base 36. */
  function KeyValue(key: string): nat
    requires Text(key)
  {
    if key == "" then 0 else KeyValue(key[..|key| - 1]) * 36 + CharToIdx(key[|key| - 1])
  }

  /** The seeds of tlforce.cpp and encode.py are the same exactly when the number fits in 64 bits. */
  lemma SeedsAgree(key: string)
    requires Text(key)
    ensures KeySeed(key) == KeyValue(key) <==> KeyValue(key) < WORD64
    ensures |key| <= 12 ==> KeyValue(key) < WORD64
  {
    KeySeedWraps(key);
    if |key| <= 12 { KeyBound(key); }
  }

  lemma {:induction false} KeySeedWraps(key: string)
    requires Text(key)
    ensures KeySeed(key) == KeyValue(key) % WORD64
  {
    if key != "" {
      KeySeedWraps(key[..|key| - 1]);
      WrapStep(KeyValue(key[..|key| - 1]), CharToIdx(key[|key| - 1]));
    }
  }

  lemma WrapStep(v: nat, d: nat)
    ensures (v % WORD64 * 36 + d) % WORD64 == (v * 36 + d) % WORD64
  {
    var q := v / WORD64;
    assert v * 36 + d == v % WORD64 * 36 + d + q * 36 * WORD64;
    DropMultiple(v % WORD64 * 36 + d, q * 36);
  }

  lemma DropMultiple(x: nat, q: nat)
    ensures (x + q * WORD64) % WORD64 == x % WORD64
  {
    DivModDef(x, WORD64);
    DivModUnique(x + q * WORD64, WORD64, x / WORD64 + q, x % WORD64);
  }

  function Power36(n: nat): nat { if n == 0 then 1 else 36 * Power36(n - 1) }

  lemma {:induction false} KeyBelow(key: string)
    requires Text(key)
    ensures KeyValue(key) < Power36(|key|)
  {
    if key != "" { KeyBelow(key[..|key| - 1]); }
  }

  lemma KeyBound(key: string)
    requires Text(key) && |key| <= 12
    ensures KeyValue(key) < WORD64
  {
    KeyBelow(key);
    PowerBelow(|key|);
  }

  lemma PowerBelow(n: nat)
    requires n <= 12
    ensures Power36(n) < WORD64
  {
    assert Power36(6) == 2176782336;
    if n <= 6 { PowerMono(n, 6); } else { PowerMono(n, 12); }
    assert Power36(12) == 4738381338321616896;
  }

  lemma {:induction false} PowerMono(n: nat, m: nat)
    requires n <= m
    ensures Power36(n) <= Power36(m)
    decreases m
  {
    if n < m { PowerMono(n, m - 1); }
  }

  lemma KeyDigit(key: string, i: nat, v: nat, d: nat)
    requires Text(key) && i < |key| && KeyValue(key[..i]) == v && CharToIdx(key[i]) == d
    ensures KeyValue(key[..i + 1]) == v * 36 + d
  {
    assert key[..i + 1][..i] == key[..i];
  }

  /** A key of 13 characters whose number is 2^64. */
  const LONG_KEY: string := "3w5e11264sgsg"

  /** Its seed is 0 in tlforce.cpp and 2^64 in encode.py. */
  lemma SeedsDiffer()
    ensures Text(LONG_KEY) && KeyValue(LONG_KEY) == WORD64 && KeySeed(LONG_KEY) == 0
  {
    var key := LONG_KEY;
    assert |key| == 13 && Text(key);
    LongKeyFront(key);
    LongKeyBack(key);
    assert key[..13] == key;
    KeySeedWraps(key);
  }

  lemma LongKeyFront(key: string)
    requires Text(key) && key == LONG_KEY
    ensures KeyValue(key[..7]) == 8474317238
  {
    assert key[..0] == "";
    KeyDigit(key, 0, 0, 3);
    KeyDigit(key, 1, 3, 32);
    KeyDigit(key, 2, 140, 5);
    KeyDigit(key, 3, 5045, 14);
    KeyDigit(key, 4, 181634, 1);
    KeyDigit(key, 5, 6538825, 1);
    KeyDigit(key, 6, 235397701, 2);
  }

  lemma LongKeyBack(key: string)
    requires Text(key) && key == LONG_KEY && KeyValue(key[..7]) == 8474317238
    ensures KeyValue(key[..13]) == WORD64
  {
    KeyDigit(key, 7, 8474317238, 6);
    KeyDigit(key, 8, 305075420574, 4);
    KeyDigit(key, 9, 10982715140668, 28);
    KeyDigit(key, 10, 395377745064076, 16);
    KeyDigit(key, 11, 14233598822306752, 28);
    KeyDigit(key, 12, 512409557603043100, 16);
  }

  function Identity(n: nat): (d: seq<nat>)
    ensures |d| == n && forall i | 0 <= i < n :: d[i] == i
  {
    seq(n, i => i)
  }

  function Swapped(d: seq<nat>, i: nat, j: nat): (r: seq<nat>)
    requires i < |d| && j < |d|
    ensures |r| == |d|
  {
    d[i := d[j]][j := d[i]]
  }

  /** The swaps of the shuffle from position `i - 1` down. */
  function ShuffleFrom(d: seq<nat>, state: u32, i: nat): (r: seq<nat>)
    requires i <= |d|
    ensures |r| == |d|
    decreases i
  {
    if i == 0 then d
    else
      var s := LcgNext(state);
      ShuffleFrom(Swapped(d, i - 1, s % i), s, i - 1)
  }

  function Deck(seed: nat): (d: seq<nat>)
    ensures |d| == CSIZE
  {
    ShuffleFrom(Identity(CSIZE), seed % WORD32, CSIZE)
  }

  lemma {:induction false} ShuffleKeeps(d: seq<nat>, state: u32, i: nat)
    requires i <= |d| && Permutation(d)
    ensures Permutation(ShuffleFrom(d, state, i))
    decreases i
  {
    if i > 0 {
      var s := LcgNext(state);
      SwapKeeps(d, i - 1, s % i);
      ShuffleKeeps(Swapped(d, i - 1, s % i), s, i - 1);
    }
  }

  lemma SwapKeeps(d: seq<nat>, i: nat, j: nat)
    requires Permutation(d) && i < |d| && j < |d|
    ensures Permutation(Swapped(d, i, j))
  {
    var r := Swapped(d, i, j);
    PermutationDef(d);
    PermutationDef(r);
    forall x: nat | x < |r| ensures x in r {
      assert x in d;
      var k :| 0 <= k < |d| && d[k] == x;
      assert r[if k == i then j else if k == j then i else k] == x;
    }
  }

  lemma DeckIsPermutation(seed: nat)
    ensures Permutation(Deck(seed))
  {
    var d := Identity(CSIZE);
    forall x: nat | x < |d| ensures x in d { assert d[x] == x; }
    PermutationDef(d);
    ShuffleKeeps(d, seed % WORD32, CSIZE);
  }

  /** `fisher_yates_shuffle` */
  method FisherYatesShuffle(seed: u64, deck: array<nat>)
    requires deck.Length == CSIZE
    modifies deck
    ensures deck[..] == Deck(seed)
  {
    for i := 0 to CSIZE
      invariant forall k | 0 <= k < i :: deck[k] == k
    {
      deck[i] := i;
    }
    assert deck[..] == Identity(CSIZE);
    var state: u32 := seed % WORD32;
    var i := CSIZE - 1;
    while i >= 0
      invariant -1 <= i < CSIZE && ShuffleFrom(deck[..], state, i + 1) == Deck(seed)
    {
      state := LcgNext(state);
      var j := state % (i + 1);
      ghost var before := deck[..];
      deck[i], deck[j] := deck[j], deck[i];
      assert deck[..] == Swapped(before, i, j);
      i := i - 1;
    }
  }

  // ---------- step 1: substitution ----------

  /** The deck position of character `c` under the offset `n`. (`k`, always left at its default, keeps this folded.) */
  function Position(c: nat, n: nat, k: nat := 3): (p: nat)
    ensures p < 36
    decreases n, k
  {
    if k > 0 then Position(c, n, k - 1) else (c + n % 36) % 36
  }

  /** The character at a deck position. */
  function AtPosition(p: nat, n: nat, k: nat := 3): (c: nat)
    ensures c < 36
    decreases n, k
  {
    if k > 0 then AtPosition(p, n, k - 1) else (p + 36 - n % 36) % 36
  }

  lemma PositionDef(c: nat, n: nat)
    ensures Position(c, n) == (c + n % 36) % 36 && AtPosition(c, n) == (c + 36 - n % 36) % 36
  {
    assert Position(c, n, 1) == Position(c, n, 0) && AtPosition(c, n, 1) == AtPosition(c, n, 0);
    assert Position(c, n, 2) == Position(c, n, 1) && AtPosition(c, n, 2) == AtPosition(c, n, 1);
  }

  lemma PositionBack(c: nat, n: nat)
    requires c < 36
    ensures AtPosition(Position(c, n), n) == c
  {
    PositionDef(c, n);
    PositionDef(Position(c, n), n);
    OffsetBack(c, n);
  }

  lemma OffsetBack(c: nat, n: nat)
    requires c < 36
    ensures ((c + n % 36) % 36 + 36 - n % 36) % 36 == c
  {
  }

  /** The substitution from position `i` on; even positions use the first deck, odd ones the second. */
  function Substituted(text: string, i: nat, prev: nat, a: seq<nat>, b: seq<nat>): (r: string)
    requires Text(text) && Permutation(a) && Permutation(b) && |a| == |b| == CSIZE
    ensures Text(r) && |r| == |text|
  {
    if text == "" then ""
    else
      var deck := if i % 2 == 0 then a else b;
      var p := Position(CharToIdx(text[0]), i + 1 + prev);
      PermutationAt(deck, p);
      var out := deck[p];
      [IdxToChar(out)] + Substituted(text[1..], i + 1, out, a, b)
  }

  /** Undoes the substitution, the decks being known. */
  function Restored(code: string, i: nat, prev: nat, a: seq<nat>, b: seq<nat>): (r: string)
    requires Text(code) && Permutation(a) && Permutation(b) && |a| == |b| == CSIZE
    ensures Text(r) && |r| == |code|
  {
    if code == "" then ""
    else
      var out := CharToIdx(code[0]);
      var deck := if i % 2 == 0 then a else b;
      PermutationAt(deck, out);
      var idx := IndexOf(deck, out);
      [IdxToChar(AtPosition(idx, i + 1 + prev))] + Restored(code[1..], i + 1, out, a, b)
  }

  lemma SubstitutedStep(text: string, i: nat, prev: nat, a: seq<nat>, b: seq<nat>)
    requires Text(text) && text != "" && Permutation(a) && Permutation(b) && |a| == |b| == CSIZE
    ensures var out := (if i % 2 == 0 then a else b)[Position(CharToIdx(text[0]), i + 1 + prev)];
            out < CSIZE && Substituted(text, i, prev, a, b) == [IdxToChar(out)]
              + Substituted(text[1..], i + 1, out, a, b)
  {
    PermutationAt(if i % 2 == 0 then a else b, Position(CharToIdx(text[0]), i + 1 + prev));
  }

  lemma {:induction false} RestoredSubstituted(text: string, i: nat, prev: nat, a: seq<nat>, b: seq<nat>)
    requires Text(text) && Permutation(a) && Permutation(b) && |a| == |b| == CSIZE
    ensures Restored(Substituted(text, i, prev, a, b), i, prev, a, b) == text
  {
    if text != "" {
      var out := (if i % 2 == 0 then a else b)[Position(CharToIdx(text[0]), i + 1 + prev)];
      RestoredSubstituted(text[1..], i + 1, out, a, b);
      RestoredFirst(text, i, prev, a, b, out);
    }
  }

  lemma RestoredFirst(text: string, i: nat, prev: nat, a: seq<nat>, b: seq<nat>, out: nat)
    requires Text(text) && text != "" && Permutation(a) && Permutation(b) && |a| == |b| == CSIZE
    requires out == (if i % 2 == 0 then a else b)[Position(CharToIdx(text[0]), i + 1 + prev)]
    requires Restored(Substituted(text[1..], i + 1, out, a, b), i + 1, out, a, b) == text[1..]
    ensures Restored(Substituted(text, i, prev, a, b), i, prev, a, b) == text
  {
    SubstitutedStep(text, i, prev, a, b);
    RestoredStep(text[0], Substituted(text[1..], i + 1, out, a, b), i, prev, a, b);
  }

  lemma RestoredStep(c: char, rest: string, i: nat, prev: nat, a: seq<nat>, b: seq<nat>)
    requires InCharset(c) && Text(rest) && Permutation(a) && Permutation(b) && |a| == |b| == CSIZE
    ensures var out := (if i % 2 == 0 then a else b)[Position(CharToIdx(c), i + 1 + prev)];
            && out < CSIZE && Text([IdxToChar(out)] + rest)
            && Restored([IdxToChar(out)] + rest, i, prev, a, b) == [c] + Restored(rest, i + 1, out, a, b)
  {
    var deck := if i % 2 == 0 then a else b;
    var p := Position(CharToIdx(c), i + 1 + prev);
    PermutationAt(deck, p);
    PositionBack(CharToIdx(c), i + 1 + prev);
    CharOfIdx(c);
    assert ([IdxToChar(deck[p])] + rest)[1..] == rest;
  }

  function DeckSeed(sm: u64, factor: nat, round: nat): u32 { Xor32(sm, factor * round) }

  /** Step 1 of a round. */
  function Substitute(text: string, sm: u64, round: nat): (r: string)
    requires Text(text)
    ensures Text(r) && |r| == |text|
  {
    DeckIsPermutation(DeckSeed(sm, 0x1111, round));
    DeckIsPermutation(DeckSeed(sm, 0x2222, round));
    Substituted(text, 0, sm % 36, Deck(DeckSeed(sm, 0x1111, round)), Deck(DeckSeed(sm, 0x2222, round)))
  }

  function Unsubstitute(code: string, sm: u64, round: nat): (r: string)
    requires Text(code)
    ensures Text(r)
  {
    DeckIsPermutation(DeckSeed(sm, 0x1111, round));
    DeckIsPermutation(DeckSeed(sm, 0x2222, round));
    Restored(code, 0, sm % 36, Deck(DeckSeed(sm, 0x1111, round)), Deck(DeckSeed(sm, 0x2222, round)))
  }

  lemma SubstituteInverse(text: string, sm: u64, round: nat)
    requires Text(text)
    ensures Unsubstitute(Substitute(text, sm, round), sm, round) == text
  {
    DeckIsPermutation(DeckSeed(sm, 0x1111, round));
    DeckIsPermutation(DeckSeed(sm, 0x2222, round));
    RestoredSubstituted(text, 0, sm % 36, Deck(DeckSeed(sm, 0x1111, round)), Deck(DeckSeed(sm, 0x2222, round)));
  }

  /** `poker_substitute` */
  method PokerSubstitute(text: string, sm: u64, round: nat) returns (result: string)
    requires Text(text)
    ensures result == Substitute(text, sm, round)
  {
    var prev: nat := sm % 36;
    var sA, sB := Xor32(sm, 0x1111 * round), Xor32(sm, 0x2222 * round);
    var deck_A, deck_B := new nat[CSIZE], new nat[CSIZE];
    FisherYatesShuffle(sA, deck_A);
    FisherYatesShuffle(sB, deck_B);
    ghost var a, b := Deck(sA), Deck(sB);
    DeckIsPermutation(sA);
    DeckIsPermutation(sB);
    result := "";
    assert text[0..] == text;
    for i := 0 to |text|
      invariant deck_A[..] == a && deck_B[..] == b
      invariant result + Substituted(text[i..], i, prev, a, b) == Substitute(text, sm, round)
    {
      var out_idx := LookUp(text[i], i, prev, deck_A, deck_B);
      assert text[i..][0] == text[i] && text[i..][1..] == text[i + 1..];
      SubstitutedStep(text[i..], i, prev, a, b);
      Moved(result, IdxToChar(out_idx), Substituted(text[i + 1..], i + 1, out_idx, a, b));
      result := result + [IdxToChar(out_idx)];
      prev := out_idx;
    }
  }

  /** One character of the substitution. */
  method LookUp(c: char, i: nat, prev: nat, deck_A: array<nat>, deck_B: array<nat>) returns (out_idx: nat)
    requires InCharset(c) && Permutation(deck_A[..]) && Permutation(deck_B[..])
             && deck_A.Length == deck_B.Length == CSIZE
    ensures out_idx < CSIZE
    ensures out_idx == (if i % 2 == 0 then deck_A[..] else deck_B[..])[Position(CharToIdx(c), i + 1 + prev)]
  {
    var idx_c := CharToIdx(c);
    var offset := (i + 1 + prev) % 36;
    var idx := (idx_c + offset) % 36;
    PositionDef(idx_c, i + 1 + prev);
    PermutationAt(deck_A[..], idx);
    PermutationAt(deck_B[..], idx);
    out_idx := if i % 2 == 0 then deck_A[idx] else deck_B[idx];
  }

  lemma Moved(a: string, c: char, b: string)
    ensures a + ([c] + b) == (a + [c]) + b
  {
  }

  // ---------- step 2: permutation ----------

  /** The sort keys, from the generator. */
  function Randoms(state: u32, n: nat): (r: seq<nat>)
    ensures |r| == n
    decreases n
  {
    if n == 0 then [] else [LcgNext(state) % 10000] + Randoms(LcgNext(state), n - 1)
  }

  /** Where each character of the result comes from: the indices sorted stably by their keys. */
  function Order(n: nat, sm: u64, pid: nat): (p: seq<nat>)
    ensures |p| == n
  {
    StableSort.SortedTo(Randoms(Xor32(sm, pid * 0x3333), n), n)
  }

  lemma OrderIsPermutation(n: nat, sm: u64, pid: nat)
    ensures Permutation(Order(n, sm, pid))
  {
    var keys := Randoms(Xor32(sm, pid * 0x3333), n);
    var p := Order(n, sm, pid);
    StableSort.SortedToOrder(keys, n);
    forall i, j | 0 <= i < j < n ensures p[i] != p[j] { assert StableSort.Before(keys, p[i], p[j]); }
    forall x: nat | x < n ensures x in p {
      StableSort.SortedToContents(keys, n, x);
      assert x in multiset(p);
    }
    PermutationDef(p);
  }

  function Arranged(text: string, p: seq<nat>): (r: string)
    requires Permutation(p) && |p| == |text| && Text(text)
    ensures Text(r) && |r| == |text|
  {
    PermutationDef(p);
    seq(|text|, i requires 0 <= i < |text| => text[p[i]])
  }

  /** Puts the characters back where they came from. */
  function Rearranged(code: string, p: seq<nat>): (r: string)
    requires Permutation(p) && |p| == |code| && Text(code)
    ensures Text(r) && |r| == |code|
  {
    PermutationDef(p);
    seq(|code|, i requires 0 <= i < |code| => code[IndexOf(p, i)])
  }

  lemma RearrangedArranged(text: string, p: seq<nat>)
    requires Permutation(p) && |p| == |text| && Text(text)
    ensures Rearranged(Arranged(text, p), p) == text
  {
    PermutationDef(p);
  }

  /** Step 2 of a round. */
  function Permute(text: string, sm: u64, pid: nat): (r: string)
    requires Text(text)
    ensures Text(r) && |r| == |text|
  {
    OrderIsPermutation(|text|, sm, pid);
    Arranged(text, Order(|text|, sm, pid))
  }

  function Unpermute(code: string, sm: u64, pid: nat): (r: string)
    requires Text(code)
    ensures Text(r)
  {
    OrderIsPermutation(|code|, sm, pid);
    Rearranged(code, Order(|code|, sm, pid))
  }

  lemma PermuteInverse(text: string, sm: u64, pid: nat)
    requires Text(text)
    ensures Unpermute(Permute(text, sm, pid), sm, pid) == text
  {
    OrderIsPermutation(|text|, sm, pid);
    RearrangedArranged(text, Order(|text|, sm, pid));
  }

  lemma {:induction false} RandomsStep(state: u32, n: nat, done: seq<nat>)
    requires n > 0
    ensures done + Randoms(state, n) == (done + [LcgNext(state) % 10000]) + Randoms(LcgNext(state), n - 1)
  {
  }

  method DrawRandoms(start: u32, n: nat) returns (randoms: seq<nat>)
    ensures randoms == Randoms(start, n)
  {
    var state := start;
    randoms := [];
    for i := 0 to n
      invariant randoms + Randoms(state, n - i) == Randoms(start, n)
    {
      RandomsStep(state, n - i, randoms);
      state := LcgNext(state);
      randoms := randoms + [state % 10000];
    }
  }

  method Arrange(text: string, sorted_idx: seq<nat>) returns (result: string)
    requires Text(text) && Permutation(sorted_idx) && |sorted_idx| == |text|
    ensures result == Arranged(text, sorted_idx)
  {
    result := "";
    for i := 0 to |text|
      invariant result == Arranged(text, sorted_idx)[..i]
    {
      PermutationAt(sorted_idx, i);
      result := result + [text[sorted_idx[i]]];
    }
  }

  /** `permute`; the stable sort is the library's. */
  method PermuteText(text: string, sm: u64, pid: nat) returns (result: string)
    requires Text(text)
    ensures result == Permute(text, sm, pid)
  {
    var randoms := DrawRandoms(Xor32(sm, pid * 0x3333), |text|);
    OrderIsPermutation(|text|, sm, pid);
    result := Arrange(text, StableSort.SortedTo(randoms, |text|));
  }

  // ---------- step 3: score tree ----------

  function CharSum(s: string, start: u64): u64 {
    if s == "" then start else (CharSum(s[..|s| - 1], start) + (s[|s| - 1] as int)) % WORD64
  }

  /** The seed that the score tree starts from. */
  function FirstSeed(key: string, round: nat): u64
    requires round >= 1
  {
    CharSum("R" + Decimal(round - 1), CharSum(key, 1))
  }

  /** The score tree of a seed. (`k`, always left at its default, keeps this folded.) */
  function TreeFor(v: nat, k: nat := 3): Huffman.Tree
    decreases v, k
  {
    if k > 0 then TreeFor(v, k - 1) else Huffman.ScoreTree(Scores(v))
  }

  lemma TreeForDef(v: nat)
    ensures TreeFor(v) == Huffman.ScoreTree(Scores(v))
  {
    assert TreeFor(v, 1) == TreeFor(v, 0);
    assert TreeFor(v, 2) == TreeFor(v, 1);
  }

  /** It has a leaf for every character. */
  lemma TreeHas(v: nat, ch: nat)
    ensures Huffman.Has(TreeFor(v), ch) <==> ch < CSIZE
  {
    TreeForDef(v);
    Huffman.ScoreTreeHas(Scores(v), ch);
  }

  /** The bits for `text`; every character is coded with the tree of the seed that it then moves. */
  function Encoded(text: string, v: nat, sha: string -> seq<byte>): (bits: string)
    requires Text(text)
  {
    if text == "" then ""
    else
      TreeHas(v, CharToIdx(text[0]));
      Huffman.Code(TreeFor(v), CharToIdx(text[0])) + Encoded(text[1..], NextSeed(v, text[0] as int, sha), sha)
  }

  /** Reads the characters back, moving the seed along. */
  function Decoded(bits: string, v: nat, sha: string -> seq<byte>): (text: string)
    ensures Text(text)
    decreases |bits|
  {
    match Huffman.Follow(TreeFor(v), bits)
    case Lost => ""
    case Reached(ch, rest) =>
      if |rest| < |bits| && ch < CSIZE then [IdxToChar(ch)] + Decoded(rest, NextSeed(v, IdxToChar(ch) as int, sha), sha)
        else ""
  }

  lemma {:induction false} CodeBits(t: Huffman.Tree, ch: nat)
    requires Huffman.Has(t, ch)
    ensures Text(Huffman.Code(t, ch)) && Text(Huffman.Path(t, ch))
  {
    match t
    case Leaf(_, _) =>
    case Branch(l, r) => if Huffman.Has(l, ch) { CodeBits(l, ch); } else { CodeBits(r, ch); }
  }

  /** With more than one character, no code is empty. */
  lemma TreeIsBranch(v: nat)
    ensures TreeFor(v).Branch?
  {
    TreeHas(v, 0);
    TreeHas(v, 1);
  }

  lemma {:induction false} EncodedText(text: string, v: nat, sha: string -> seq<byte>)
    requires Text(text)
    ensures Text(Encoded(text, v, sha))
  {
    if text != "" {
      TreeHas(v, CharToIdx(text[0]));
      CodeBits(TreeFor(v), CharToIdx(text[0]));
      EncodedText(text[1..], NextSeed(v, text[0] as int, sha), sha);
    }
  }

  lemma {:induction false} DecodedEncoded(text: string, v: nat, sha: string -> seq<byte>)
    requires Text(text)
    ensures Decoded(Encoded(text, v, sha), v, sha) == text
  {
    if text == "" {
      TreeIsBranch(v);
    } else {
      var ch := CharToIdx(text[0]);
      TreeHas(v, ch);
      TreeIsBranch(v);
      CharOfIdx(text[0]);
      var next := NextSeed(v, text[0] as int, sha);
      Huffman.FollowPath(TreeFor(v), ch, Encoded(text[1..], next, sha));
      DecodedEncoded(text[1..], next, sha);
      assert [text[0]] + text[1..] == text;
    }
  }

  method SumChars(s: string, start: u64) returns (sum: u64)
    ensures sum == CharSum(s, start)
  {
    sum := start;
    assert s[..0] == "";
    for i := 0 to |s|
      invariant sum == CharSum(s[..i], start)
    {
      assert s[..i + 1][..i] == s[..i];
      sum := (sum + (s[i] as int)) % WORD64;
    }
    assert s[..|s|] == s;
  }

  lemma EncodedStep(text: string, i: nat, v: nat, sha: string -> seq<byte>)
    requires Text(text) && i < |text| && Huffman.Has(TreeFor(v), CharToIdx(text[i]))
    ensures Encoded(text[i..], v, sha)
            == Huffman.Code(TreeFor(v), CharToIdx(text[i]))
              + Encoded(text[i + 1..], NextSeed(v, text[i] as int, sha), sha)
  {
    assert text[i..][0] == text[i] && text[i..][1..] == text[i + 1..];
  }

  /** `score_tree_encode` */
  method ScoreTreeEncode(text: string, key: string, round: nat, sha: string -> seq<byte>) returns (bits: string)
    requires Text(text) && round >= 1 && Hash(sha)
    ensures bits == Encoded(text, FirstSeed(key, round), sha)
  {
    var suffix := "R" + Decimal(round - 1);
    var sum := SumChars(key, 1);
    var seed_init := SumChars(suffix, sum);
    var seed := Wide(0, 0, 0, seed_init);
    var hp := new HuffPool();
    bits := "";
    assert text[0..] == text;
    for i := 0 to |text|
      invariant hp.Shape() && fresh(hp) && fresh(hp.nodes) && fresh(hp.heap)
      invariant bits + Encoded(text[i..], seed.Value(), sha) == Encoded(text, FirstSeed(key, round), sha)
    {
      var code := EncodeChar(hp, seed, text[i]);
      ghost var v := seed.Value();
      seed := UpdateSeed(seed, text[i], sha);
      EncodedStep(text, i, v, sha);
      Regrouped(bits, code, Encoded(text[i + 1..], seed.Value(), sha));
      bits := bits + code;
    }
  }

  /** One character: scores, tree and code. */
  method EncodeChar(hp: HuffPool, seed: Wide, ch: char) returns (code: string)
    requires hp.Shape() && InCharset(ch)
    modifies hp, hp.nodes, hp.heap
    ensures hp.Shape() && Huffman.Has(TreeFor(seed.Value()), CharToIdx(ch))
    ensures code == Huffman.Code(TreeFor(seed.Value()), CharToIdx(ch))
  {
    var scores := ComputeScores(seed);
    hp.Build(scores);
    var root := hp.heap[0];
    TreeHas(seed.Value(), CharToIdx(ch));
    TreeForDef(seed.Value());
    code := hp.GenCodeFor(root, CharToIdx(ch));
  }

  // ---------- the whole cipher ----------

  function Round(text: string, key: string, round: nat, sha: string -> seq<byte>): (bits: string)
    requires Text(text) && Text(key) && round >= 1
    ensures Text(bits)
  {
    var t := Permute(Substitute(text, KeySeed(key), round), KeySeed(key), round);
    EncodedText(t, FirstSeed(key, round), sha);
    Encoded(t, FirstSeed(key, round), sha)
  }

  function Unround(bits: string, key: string, round: nat, sha: string -> seq<byte>): (text: string)
    requires Text(key) && round >= 1
    ensures Text(text)
  {
    Unsubstitute(Unpermute(Decoded(bits, FirstSeed(key, round), sha), KeySeed(key), round), KeySeed(key), round)
  }

  lemma RoundInverse(text: string, key: string, round: nat, sha: string -> seq<byte>)
    requires Text(text) && Text(key) && round >= 1
    ensures Unround(Round(text, key, round, sha), key, round, sha) == text
  {
    var sm := KeySeed(key);
    var s := Substitute(text, sm, round);
    DecodedEncoded(Permute(s, sm, round), FirstSeed(key, round), sha);
    PermuteInverse(s, sm, round);
    SubstituteInverse(text, sm, round);
  }

  /** What `encrypt` computes. */
  function Encrypted(plaintext: string, key: string, sha: string -> seq<byte>): string
    requires Text(plaintext) && Text(key)
  {
    Round(Round(plaintext, key, 1, sha), key, 2, sha)
  }

  /** The decoder that undoes it. */
  function Decrypted(bits: string, key: string, sha: string -> seq<byte>): string
    requires Text(key)
  {
    Unround(Unround(bits, key, 2, sha), key, 1, sha)
  }

  /** Whatever the key and the hash, the plaintext can be recovered. */
  lemma EncryptionInvertible(plaintext: string, key: string, sha: string -> seq<byte>)
    requires Text(plaintext) && Text(key)
    ensures Decrypted(Encrypted(plaintext, key, sha), key, sha) == plaintext
  {
    RoundInverse(plaintext, key, 1, sha);
    RoundInverse(Round(plaintext, key, 1, sha), key, 2, sha);
  }

  /** `encrypt` */
  method Encrypt(plaintext: string, key: string, sha: string -> seq<byte>) returns (t: string)
    requires Text(plaintext) && Text(key) && Hash(sha)
    ensures t == Encrypted(plaintext, key, sha)
  {
    var sm := KeyToSeedMaster(key);
    t := PokerSubstitute(plaintext, sm, 1);
    t := PermuteText(t, sm, 1);
    t := ScoreTreeEncode(t, key, 1, sha);
    assert t == Round(plaintext, key, 1, sha);
    t := PokerSubstitute(t, sm, 2);
    t := PermuteText(t, sm, 2);
    t := ScoreTreeEncode(t, key, 2, sha);
  }
}
