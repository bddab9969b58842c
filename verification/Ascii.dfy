/** The letters and digits of ASCII, written out. */
module Ascii {

  const UPPER := "ABCDEFGHIJKLMNOPQRSTUVWXYZ"
  const LOWER := "abcdefghijklmnopqrstuvwxyz"
  const DIGITS := "0123456789"

  lemma LettersInOrder(v: nat)
    ensures |UPPER| == |LOWER| == 26 && |DIGITS| == 10
    ensures v < 26 ==> UPPER[v] == (65 + v) as char && LOWER[v] == (97 + v) as char
    ensures v < 10 ==> DIGITS[v] == (48 + v) as char
  {
  }

  lemma UpperRange(c: char)
    ensures c in UPPER <==> 'A' <= c <= 'Z'
  {
    LettersInOrder(0);
    if 'A' <= c <= 'Z' { LettersInOrder(c as int - 65); }
  }

  lemma LowerRange(c: char)
    ensures c in LOWER <==> 'a' <= c <= 'z'
  {
    LettersInOrder(0);
    if 'a' <= c <= 'z' { LettersInOrder(c as int - 97); }
  }

  lemma DigitRange(c: char)
    ensures c in DIGITS <==> '0' <= c <= '9'
  {
    LettersInOrder(0);
    if '0' <= c <= '9' { LettersInOrder(c as int - 48); }
  }
}
