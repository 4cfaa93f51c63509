/** Digits in base ten and sixteen, and reading them as strtol does. */
module Numerals {
  function DigitChar(d: nat, letbase: char): (c: char)
    requires d < 16 && letbase in {'a', 'A'}
    ensures c as int < 128
  {
    if d < 10 then (d + '0' as int) as char else (d - 10 + letbase as int) as char
  }

  // -1 where c is not a digit in base r.
  function DigitOf(c: char, r: nat): (d: int)
    requires r > 0
    ensures d < r
    ensures d >= 0 || d == -1
  {
    var d := if '0' <= c <= '9' then c as int - '0' as int
             else if 'a' <= c <= 'f' then c as int - 'a' as int + 10
             else if 'A' <= c <= 'F' then c as int - 'A' as int + 10
             else -1;
    if d < r then d else -1
  }

  // The number that starts with the digits of acc and goes on with the leading digits of s.
  function Magnitude(s: string, r: nat, acc: nat): nat
    requires r > 0
    decreases |s|
  {
    if s == "" || DigitOf(s[0], r) < 0 then acc else Magnitude(s[1..], r, r * acc + DigitOf(s[0], r))
  }

  lemma DigitRead(d: nat, r: nat, letbase: char)
    requires d < r && r in {10, 16} && letbase in {'a', 'A'}
    ensures DigitOf(DigitChar(d, letbase), r) == d
  {}

  lemma OneDigit(c: char, tail: string, r: nat, acc: nat)
    requires r > 0 && DigitOf(c, r) >= 0
    ensures Magnitude([c] + tail, r, acc) == Magnitude(tail, r, r * acc + DigitOf(c, r))
  {
    assert ([c] + tail)[1..] == tail;
  }
}
