/** The LZ77 half of `stbi_zlib_compress`: hash chains, match search and lazy matching. */
module Matching {
  import opened Bits
  import opened BitOps
  import opened Deflate

  const ZHASH: nat := 16384

  /** The bytes at `p` and at `i` agree for `n` bytes. */
  ghost predicate Agree(data: seq<byte>, p: nat, i: nat, n: nat) {
    p + n <= |data| && i + n <= |data| && data[p..p + n] == data[i..i + n]
  }

  /** They agree for more than `n` bytes, of the 258 that a match can have. */
  ghost predicate Longer(data: seq<byte>, p: nat, i: nat, n: nat) {
    n < 258 && Agree(data, p, i, n + 1)
  }

  lemma AgreeShorter(data: seq<byte>, p: nat, i: nat, m: nat, n: nat)
    requires m <= n && Agree(data, p, i, n)
    ensures Agree(data, p, i, m)
  {
    assert data[p..p + m] == data[p..p + n][..m];
    assert data[i..i + m] == data[i..i + n][..m];
  }

  /** One more byte. */
  lemma AgreeMore(data: seq<byte>, p: nat, i: nat, n: nat)
    requires Agree(data, p, i, n) && p <= i && i + n < |data|
    ensures Agree(data, p, i, n + 1) <==> data[p + n] == data[i + n]
  {
    assert data[p..p + n + 1] == data[p..p + n] + [data[p + n]];
    assert data[i..i + n + 1] == data[i..i + n] + [data[i + n]];
  }

  /** A usable match for position `i`. */
  ghost predicate IsMatch(data: seq<byte>, i: nat, p: nat, n: nat) {
    p < i && i - p <= 32767 && 3 <= n <= 258 && Agree(data, p, i, n)
  }

  /** Replaying a match extends the output by the bytes it stands for. */
  lemma {:induction false} MatchReplays(data: seq<byte>, i: nat, p: nat, n: nat)
    requires p < i <= |data| && Agree(data, p, i, n)
    ensures CopyBack(data[..i], i - p, n) == data[..i + n]
  {
    if n > 0 {
      AgreeShorter(data, p, i, n - 1, n);
      AgreeMore(data, p, i, n - 1);
      MatchReplays(data, i, p, n - 1);
      CopyBackStep(data[..i], i - p, n - 1);
      assert data[..i + n] == data[..i + n - 1] + [data[i + n - 1]];
      assert data[..i + n - 1][p + n - 1] == data[p + n - 1];
    }
  }

  /** 32-bit wrap-around */
  function Wrap(x: nat): u32 { x % 0x1_0000_0000 }

  /** `stbiw__zhash` of three bytes */
  function ZHash(a: byte, b: byte, c: byte): (h: u32) {
    var h0: u32 := Wrap(a + Shl(b, 8) + Shl(c, 16));
    var h1: u32 := Wrap(Xor(h0, Wrap(Shl(h0, 3))));
    var h2: u32 := Wrap(h1 as int + Shr(h1, 5));
    var h3: u32 := Wrap(Xor(h2, Wrap(Shl(h2, 4))));
    var h4: u32 := Wrap(h3 as int + Shr(h3, 17));
    var h5: u32 := Wrap(Xor(h4, Wrap(Shl(h4, 25))));
    Wrap(h5 as int + Shr(h5, 6))
  }

  /** The bucket of position `i`. */
  function Bucket(data: seq<byte>, i: nat): (h: nat)
    requires i + 3 <= |data|
    ensures h < ZHASH
  {
    BucketBound(ZHash(data[i], data[i + 1], data[i + 2]));
    And(ZHash(data[i], data[i + 1], data[i + 2]), 16383)
  }

  lemma BucketBound(h: u32)
    ensures And(h, 16383) < ZHASH
  {
    AndBound(h, 16383);
  }

  /** `stbiw__zlib_countm`: how far the bytes at `p` and `i` agree, at most `limit` and 258. */
  method CountMatch(data: seq<byte>, p: nat, i: nat, limit: nat) returns (n: nat)
    requires p <= i && i + limit <= |data|
    ensures n <= limit && n <= 258 && Agree(data, p, i, n)
    ensures limit == |data| - i ==> forall m :: n <= m ==> !Longer(data, p, i, m)
  {
    n := 0;
    while n < limit && n < 258
      invariant n <= limit && n <= 258 && Agree(data, p, i, n)
    {
      AgreeMore(data, p, i, n);
      if data[p + n] != data[i + n] { break; }
      n := n + 1;
    }
    forall m | n <= m ensures limit == |data| - i ==> !Longer(data, p, i, m) {
      if limit == |data| - i && Longer(data, p, i, m) { AgreeShorter(data, p, i, n + 1, m + 1); }
    }
  }

  /** All positions in a bucket are before `i`. */
  ghost predicate Before(s: seq<nat>, i: nat) { forall k | 0 <= k < |s| :: s[k] < i }

  /** The longest match for position `i` among the positions in `hlist` inside the window. */
  method BestMatch(data: seq<byte>, i: nat, hlist: seq<nat>) returns (found: bool, bestloc: nat, best: nat)
    requires i < |data| && Before(hlist, i)
    ensures found ==> IsMatch(data, i, bestloc, best) && bestloc in hlist
    ensures best == 3 || found
    ensures forall k | 0 <= k < |hlist| && hlist[k] > i - 32768 :: !Longer(data, hlist[k], i, if found then best else 2)
  {
    found, bestloc, best := false, 0, 3;
    var j := 0;
    while j < |hlist|
      invariant 0 <= j <= |hlist| && (best == 3 || found)
      invariant found ==> IsMatch(data, i, bestloc, best) && bestloc in hlist
      invariant forall k | 0 <= k < j && hlist[k] > i - 32768 :: !Longer(data, hlist[k], i, if found then best else 2)
    {
      if hlist[j] > i - 32768 {
        var d := CountMatch(data, hlist[j], i, |data| - i);
        if d >= best {
          forall k | 0 <= k < j && hlist[k] > i - 32768 ensures !Longer(data, hlist[k], i, d) {
            if Longer(data, hlist[k], i, d) {
              AgreeShorter(data, hlist[k], i, (if found then best else 2) + 1, d + 1);
            }
          }
          found, best, bestloc := true, d, hlist[j];
        }
      }
      j := j + 1;
    }
  }

  /** Is there a longer match for position `i + 1` in `hlist`? Then the match at `i` is given up. */
  method BetterNext(data: seq<byte>, i: nat, hlist: seq<nat>, best: nat) returns (better: bool)
    requires i + 1 < |data| && Before(hlist, i + 1)
    ensures better <==> exists k :: 0 <= k < |hlist| && hlist[k] > i - 32767 && Longer(data, hlist[k], i + 1, best)
  {
    var j := 0;
    while j < |hlist|
      invariant 0 <= j <= |hlist|
      invariant forall k | 0 <= k < j && hlist[k] > i - 32767 :: !Longer(data, hlist[k], i + 1, best)
    {
      if hlist[j] > i - 32767 {
        var e := CountMatch(data, hlist[j], i + 1, |data| - i - 1);
        if e > best {
          AgreeShorter(data, hlist[j], i + 1, best + 1, e);
          return true;
        }
      }
      j := j + 1;
    }
    better := false;
  }

  /** The hash table: a list of positions per bucket. */
  class HashTable {
    const table: array<seq<nat>>

    constructor ()
      ensures fresh(table) && table.Length == ZHASH && Holds(0)
    {
      table := new seq<nat>[ZHASH](_ => []);
    }

    /** Every recorded position is before `i`. */
    ghost predicate Holds(i: nat)
      reads table
    {
      table.Length == ZHASH && forall h | 0 <= h < ZHASH :: Before(table[h], i)
    }

    lemma Later(i: nat, j: nat)
      requires Holds(i) && i <= j
      ensures Holds(j)
    {
    }

    /** Records position `i` in bucket `h`, after deleting the older half of a bucket that is too long. */
    method Record(h: nat, i: nat, quality: nat)
      requires Holds(i) && h < ZHASH && quality >= 5
      modifies table
      ensures Holds(i + 1)
      ensures table[h] == (if old(|table[h]|) == 2 * quality then old(table[h])[quality..] else old(table[h])) + [i]
      ensures forall k | 0 <= k < ZHASH && k != h :: table[k] == old(table[k])
    {
      if |table[h]| == 2 * quality {
        table[h] := table[h][quality..];
      }
      table[h] := table[h] + [i];
    }
  }

  /** The decision for position `i`: a match to send, or none. */
  method Decide(data: seq<byte>, i: nat, hash: HashTable, quality: nat) returns (found: bool, bestloc: nat, best: nat)
    requires i + 3 < |data| && hash.Holds(i) && quality >= 5
    modifies hash.table
    ensures hash.Holds(i + 1)
    ensures found ==> IsMatch(data, i, bestloc, best)
  {
    var h := Bucket(data, i);
    found, bestloc, best := BestMatch(data, i, hash.table[h]);
    hash.Record(h, i, quality);
    if found {
      h := Bucket(data, i + 1);
      var better := BetterNext(data, i, hash.table[h], best);
      if better { found := false; }
    }
  }
}
