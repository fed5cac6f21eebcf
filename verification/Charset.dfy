/** The 36 characters of the cipher and their indices. */
module Charset {

  const CHARSET: string := "0123456789abcdefghijklmnopqrstuvwxyz"
  const CSIZE: nat := 36

  predicate InCharset(c: char) { '0' <= c <= '9' || 'a' <= c <= 'z' }

  predicate Text(s: string) { forall i | 0 <= i < |s| :: InCharset(s[i]) }

  /** `char_to_idx` */
  function CharToIdx(c: char): (i: nat)
    requires InCharset(c)
    ensures i < CSIZE
  {
    if '0' <= c <= '9' then (c as int) - ('0' as int) else (c as int) - ('a' as int) + 10
  }

  /** `idx_to_char` */
  function IdxToChar(i: nat): (c: char)
    requires i < CSIZE
    ensures InCharset(c) && CharToIdx(c) == i
  {
    CHARSET[i]
  }

  lemma CharOfIdx(c: char)
    requires InCharset(c)
    ensures IdxToChar(CharToIdx(c)) == c
  {
  }
}
