/** The two C++ encoders of one character agree, and so do their seeds. */
module CipherAgree {
  import opened Bits
  import opened Charset
  import opened SeedScores
  import opened SeedUpdate
  import opened FastSeed
  import opened HuffmanPool
  import opened Cipher
  import Huffman
  import TwoQueue

  /** `encode_char_fast`: reduction of the seed, sorting, two queues and walk. */
  method EncodeCharFast(seed: Seed256, ch: char) returns (code: string)
    requires seed.Shape() && InCharset(ch)
    ensures Huffman.Has(TreeFor(seed.Value()), CharToIdx(ch))
    ensures code == Huffman.Code(TreeFor(seed.Value()), CharToIdx(ch))
  {
    var scores := FastScores(seed.data[..]);
    TreeForDef(seed.Value());
    code := TwoQueue.EncodeCharFast(scores, ch);
  }

  /** For every 256-bit seed and every character the heap and the two queues give the same bits, although they
      reduce the seed modulo 997 and break ties in different ways, and the character moves both seeds alike. */
  method EncodersAgree(wide: Wide, words: seq<u32>, ch: char, sha: string -> seq<byte>)
    returns (a: string, b: string, next: Wide, fast: Seed256)
    requires |words| == 8 && wide.Value() == WordsValue(words) && InCharset(ch) && Hash(sha)
    ensures a == b && a != ""
    ensures fast.Shape() && next.Value() == fast.Value()
  {
    var hp := new HuffPool();
    a := EncodeChar(hp, wide, ch);
    fast := new Seed256(words);
    b := EncodeCharFast(fast, ch);
    TreeIsBranch(wide.Value());
    next := UpdateSeed(wide, ch, sha);
    fast.Update(ch, sha);
  }
}
