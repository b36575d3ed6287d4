/** The lowercase hexadecimal alphabet shared by the reset-token and the
    session-id renderings: `0-9` then `a-f`, as Java's `%x` and
    `Long.toHexString` print digits. */
module Hex {

  /** True for the sixteen characters `0123456789abcdef`. */
  predicate IsLowerHexChar(c: char) {
    ('0' <= c <= '9') || ('a' <= c <= 'f')
  }

  /** Every character of `s` is a lowercase hexadecimal digit. */
  predicate IsLowerHex(s: string) {
    forall i :: 0 <= i < |s| ==> IsLowerHexChar(s[i])
  }

  /** The digit that stands for the nibble `n`. */
  function Digit(n: nat): (c: char)
    requires n < 16
    ensures IsLowerHexChar(c)
    ensures DigitValue(c) == n
  {
    if n < 10 then ('0' as int + n) as char else ('a' as int + (n - 10)) as char
  }

  /** The nibble a lowercase hexadecimal digit stands for. */
  function DigitValue(c: char): (n: nat)
    requires IsLowerHexChar(c)
    ensures n < 16
  {
    if c <= '9' then c as int - '0' as int else c as int - 'a' as int + 10
  }

  /** `Digit` and `DigitValue` are inverse bijections between the nibbles
      and the alphabet. */
  lemma DigitOfValue(c: char)
    requires IsLowerHexChar(c)
    ensures Digit(DigitValue(c)) == c
  {
  }
}
