/** The image readers' byte source. */
module ByteInput {
  import opened Bits

  /** `stbi__get8`: past the end of the input it returns zero. */
  function Get8(input: seq<byte>, pos: nat): byte { if pos < |input| then input[pos] else 0 }

  /** `stbi__get16le` */
  function Get16le(input: seq<byte>, pos: nat): nat {
    var lo: int, hi: int := Get8(input, pos), Get8(input, pos + 1);
    lo + 256 * hi
  }

  lemma Front(input: seq<byte>, pos: nat, b: seq<byte>, more: seq<byte>)
    requires pos <= |input| && input[pos..] == b + more
    ensures pos + |b| <= |input| && input[pos..pos + |b|] == b && input[pos + |b|..] == more
  {
    var s := input[pos..];
    assert |s| == |input| - pos;
    assert input[pos..pos + |b|] == s[..|b|];
    assert input[pos + |b|..] == s[|b|..];
  }
}
