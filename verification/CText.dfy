/** Reading a C string: what lies behind the last character is the terminator. */
module CText {

  const NUL: char := '\0'

  function At(s: string, i: nat): char {
    if i < |s| then s[i] else NUL
  }

  predicate IsSpace(c: char) {
    c == ' ' || c == '\t' || c == '\n' || c == '\r' || c == 12 as char || c == 11 as char
  }

  predicate IsDigit(c: char) { '0' <= c <= '9' }

  function DigitValue(c: char): (d: int)
    ensures -1 <= d < 36
  {
    if '0' <= c <= '9' then c as int - '0' as int
    else if 'a' <= c <= 'z' then c as int - 'a' as int + 10
    else if 'A' <= c <= 'Z' then c as int - 'A' as int + 10
    else -1
  }

  predicate DigitOf(c: char, base: nat) { 0 <= DigitValue(c) < base }

  predicate IsSign(c: char) { c == '-' || c == '+' }

  predicate IsX(c: char) { c == 'x' || c == 'X' }
}
