/** The inflater's output buffer: `zout_start`, `zout`, `zout_end` and `z_expandable` of `stbi__zbuf`. */
module OutputBuffer {
  import opened Bits
  import opened Deflate

  const UINT_MAX: nat := 0xFFFF_FFFF

  class Output {
    var buf: array<byte>
    var len: nat
    const expandable: bool

    constructor (size: nat, exp: bool)
      requires size <= UINT_MAX && (exp ==> size > 0)
      ensures Valid() && Contents() == [] && fresh(buf) && buf.Length == size && expandable == exp
    {
      buf := new byte[size](_ => 0);
      len := 0;
      expandable := exp;
    }

    /** An expandable buffer must not be empty: doubling would never make room in it. */
    ghost predicate Valid()
      reads this
    {
      len <= buf.Length <= UINT_MAX && (expandable ==> buf.Length > 0)
    }

    ghost function Contents(): (s: seq<byte>)
      requires Valid()
      reads this, buf
      ensures |s| == len
    {
      buf[..len]
    }

    /** Room for this many bytes can be had. */
    ghost function Limit(): nat
      reads this
    {
      if expandable then 0x8000_0000 else buf.Length
    }

    ghost predicate Roomy(total: nat)
      reads this
    {
      total <= Limit()
    }

    /** `stbi__zexpand` */
    method Expand(n: nat) returns (ok: bool)
      requires Valid() && n <= UINT_MAX
      modifies this
      ensures Valid() && len == old(len) && Contents() == old(Contents())
      ensures buf == old(buf) || fresh(buf)
      ensures buf.Length >= old(buf.Length)
      ensures ok ==> len + n <= buf.Length
      ensures expandable && len + n <= 0x8000_0000 ==> ok
    {
      if !expandable { return false; }
      var cur, limit := len, buf.Length;
      if UINT_MAX - cur < n { return false; }
      while cur + n > limit
        invariant buf.Length <= limit <= UINT_MAX
        decreases cur + n - limit
      {
        if limit > UINT_MAX / 2 { return false; }
        limit := limit * 2;
      }
      var q := new byte[limit](i requires 0 <= i < limit reads this, buf => if i < buf.Length then buf[i] else 0);
      assert q[..len] == buf[..len];
      buf := q;
      ok := true;
    }

    /** Sees to it that `n` more bytes fit. */
    method Reserve(n: nat) returns (ok: bool)
      requires Valid() && n <= UINT_MAX
      modifies this
      ensures Valid() && len == old(len) && Contents() == old(Contents())
      ensures buf == old(buf) || fresh(buf)
      ensures buf.Length >= old(buf.Length)
      ensures ok ==> len + n <= buf.Length
      ensures old(Roomy(len + n)) ==> ok
    {
      ok := true;
      if n > buf.Length - len { ok := Expand(n); }
    }

    method Push(b: byte)
      requires Valid() && len < buf.Length
      modifies `len, buf
      ensures Valid() && buf == old(buf) && Contents() == old(Contents()) + [b]
    {
      buf[len] := b;
      len := len + 1;
    }

    /** The two copying loops of `stbi__parse_huffman_block`: a run of one byte, or byte by byte. */
    method CopyFrom(dist: nat, n: nat)
      requires Valid() && 1 <= dist <= len && len + n <= buf.Length
      modifies `len, buf
      ensures Valid() && buf == old(buf)
      ensures Contents() == CopyBack(old(Contents()), dist, n)
    {
      ghost var c := Contents();
      var k := n;
      var p := len - dist;
      if dist == 1 {
        var v := buf[p];
        while k > 0
          invariant 0 <= k <= n && Valid() && len == |c| + (n - k)
          invariant Contents() == CopyBack(c, 1, n - k) && buf[len - 1] == v
          invariant unchanged(this`buf)
        {
          CopyBackStep(c, 1, n - k);
          Push(v);
          k := k - 1;
        }
      } else {
        while k > 0
          invariant 0 <= k <= n && Valid() && len == |c| + (n - k) && p == len - dist
          invariant Contents() == CopyBack(c, dist, n - k)
          invariant unchanged(this`buf)
        {
          CopyBackStep(c, dist, n - k);
          Push(buf[p]);
          p := p + 1;
          k := k - 1;
        }
      }
    }

    /** `memcpy` of stored bytes */
    method Append(s: seq<byte>)
      requires Valid() && len + |s| <= buf.Length
      modifies `len, buf
      ensures Valid() && buf == old(buf) && Contents() == old(Contents()) + s
    {
      var i := 0;
      while i < |s|
        invariant 0 <= i <= |s| && Valid() && len == old(len) + i && unchanged(this`buf)
        invariant Contents() == old(Contents()) + s[..i]
      {
        Push(s[i]);
        i := i + 1;
      }
      assert s[..i] == s;
    }
  }
}
