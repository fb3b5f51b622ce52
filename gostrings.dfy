/**
 * Go strings are byte sequences and `len` counts bytes. Text reaches the
 * program through the terminal as UTF-8, so the length Go sees is the UTF-8
 * encoded length of the characters typed.
 */
module GoStrings {

  /** Number of bytes UTF-8 uses to encode one Unicode scalar value. */
  function RuneLen(c: char): (n: nat)
    ensures 1 <= n <= 4
    ensures n == 1 <==> c < 0x80 as char
  {
    if c < 0x80 as char then 1
    else if c < 0x800 as char then 2
    else if c < 0x1_0000 as char then 3
    else 4
  }

  /** Go's `len(s)`: the byte length of the UTF-8 encoding of `s`. */
  function ByteLen(s: string): (n: nat)
    ensures |s| <= n <= 4 * |s|
  {
    if s == [] then 0 else RuneLen(s[0]) + ByteLen(s[1..])
  }

  predicate IsAscii(s: string) {
    forall i :: 0 <= i < |s| ==> s[i] < 0x80 as char
  }

  /** Byte length and character count agree exactly on ASCII text. */
  lemma {:induction false} ByteLenIsLengthIffAscii(s: string)
    ensures ByteLen(s) == |s| <==> IsAscii(s)
  {
    if s != [] {
      ByteLenIsLengthIffAscii(s[1..]);
      assert IsAscii(s) <==> s[0] < 0x80 as char && IsAscii(s[1..]) by {
        if s[0] < 0x80 as char && IsAscii(s[1..]) {
          forall i | 0 <= i < |s| ensures s[i] < 0x80 as char {
            if i > 0 { assert s[i] == s[1..][i - 1]; }
          }
        }
        if IsAscii(s) {
          forall i | 0 <= i < |s| - 1 ensures s[1..][i] < 0x80 as char {
            assert s[1..][i] == s[i + 1];
          }
        }
      }
    }
  }
}
