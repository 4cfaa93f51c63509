/** The integer printer of qprintf.c, and its division by ten without a division instruction. */
module Qprintf {
  import opened Numerals

  type Unsigned = n: nat | n < 0x1_0000_0000
  type Int = i: int | -0x8000_0000 <= i < 0x8000_0000

  const PRINT_BUF_LEN: nat := 32

  // ---- division and remainder by ten

  /** divu10 */
  function DivU10(n: Unsigned): (d: Unsigned)
    ensures d == n / 10
  {
    var q1 := n / 2 + n / 4;
    var q2 := q1 + q1 / 16;
    var q3 := q2 + q2 / 256;
    var q4 := q3 + q3 / 65536;
    var q := q4 / 8;
    QuotientBounds(n, q1, q2, q3, q4, q);
    Correction(n, q);
    var r := n - q * 10;
    q + (r + 6) / 16
  }

  // The series 1/2 + 1/4, times 17/16, 257/256 and 65537/65536, is short of 8/10 by less than one in 2^32.
  lemma QuotientBounds(n: Unsigned, q1: nat, q2: nat, q3: nat, q4: nat, q: nat)
    requires q1 == n / 2 + n / 4 && q2 == q1 + q1 / 16 && q3 == q2 + q2 / 256 && q4 == q3 + q3 / 65536
    requires q == q4 / 8
    ensures q4 < 0x1_0000_0000 && 10 * q <= n <= 10 * q + 15
  {
    assert 3 * n - 5 <= 4 * q1 <= 3 * n;
    assert 17 * q1 - 15 <= 16 * q2 <= 17 * q1;
    assert 257 * q2 - 255 <= 256 * q3 <= 257 * q2;
    assert 65537 * q3 - 65535 <= 65536 * q4 <= 65537 * q3;
    assert q4 - 7 <= 8 * q <= q4;
  }

  lemma Correction(n: nat, q: nat)
    requires 10 * q <= n <= 10 * q + 15
    ensures q + (n - q * 10 + 6) / 16 == n / 10
  {}

  const REMU10_TABLE: seq<nat> := [0, 1, 2, 2, 3, 3, 4, 5, 5, 6, 7, 7, 8, 8, 9, 0]

  /** remu10 */
  function RemU10(n: Unsigned): (r: Unsigned)
    ensures r == n % 10
  {
    var k, d := n / 10, n % 10;
    TopBits(n, k, d);
    REMU10_TABLE[(0x19999999 * n + n / 2 + n / 8) % 0x1_0000_0000 / 0x1000_0000]
  }

  // Ten times 0x19999999 is 2^32 - 6, and the halves and eighths of ten give the six back.
  lemma WrappedProduct(n: Unsigned, k: nat, d: nat)
    requires n == 10 * k + d && d < 10
    ensures (2 * k + d) / 8 <= if d < 8 then 107374182 else 107374183
    ensures (0x19999999 * n + n / 2 + n / 8) % 0x1_0000_0000 == 0x19999999 * d + d / 2 + (2 * k + d) / 8
  {
    var x := 0x19999999 * d + d / 2 + (2 * k + d) / 8;
    HalfAndEighth(n, k, d);
    assert 0x19999999 * n + n / 2 + n / 8 == 0x1_0000_0000 * k + x;
    Wrapped(k, x);
  }

  lemma HalfAndEighth(n: nat, k: nat, d: nat)
    requires n == 10 * k + d && d < 10
    ensures n / 2 == 5 * k + d / 2 && n / 8 == k + (2 * k + d) / 8
  {}

  lemma Wrapped(k: nat, x: nat)
    requires x < 0x1_0000_0000
    ensures (0x1_0000_0000 * k + x) % 0x1_0000_0000 == x
  {}

  lemma TopBits(n: Unsigned, k: nat, d: nat)
    requires n == 10 * k + d && d < 10
    ensures var t := (0x19999999 * n + n / 2 + n / 8) % 0x1_0000_0000 / 0x1000_0000;
      t < 16 && REMU10_TABLE[t] == d
  {
    WrappedProduct(n, k, d);
    TableEntry(d, (2 * k + d) / 8);
  }

  // The error is at most 2^28 - 2^28 / 10, short of the next wrong entry in every case.
  lemma TableEntry(d: nat, e: nat)
    requires d < 10 && e <= if d < 8 then 107374182 else 107374183
    ensures var t := (0x19999999 * d + d / 2 + e) / 0x1000_0000;
      t < 16 && REMU10_TABLE[t] == d
  {
    var x := 0x19999999 * d + d / 2 + e;
    var t := x / 0x1000_0000;
    assert 0x1000_0000 * t <= x < 0x1000_0000 * (t + 1);
    if d < 5 {
      assert t == if d == 0 then 0 else if d == 1 then 1 else if d == 2 then 3
        else if d == 3 then (if t == 4 then 4 else 5) else 6;
    }
  }

  // ---- the characters that are printed

  class Output {
    var text: string

    // qprintchar, to the string or to the serial line
    method Put(c: char)
      modifies this
      ensures text == old(text) + [c]
    {
      text := text + [c];
    }
  }

  predicate PadRight(pad: nat) { pad % 2 == 1 }

  predicate PadZero(pad: nat) { pad / 2 % 2 == 1 }

  function Fill(c: char, n: int): (s: string)
    ensures |s| == if n > 0 then n else 0
  {
    if n <= 0 then "" else Fill(c, n - 1) + [c]
  }

  function Longer(width: int, length: nat): nat
  {
    if width > length then width else length
  }

  function Justified(s: string, width: int, pad: nat): (t: string)
    ensures |t| == Longer(width, |s|)
  {
    var c := if width > 0 && PadZero(pad) then '0' else ' ';
    if PadRight(pad) then s + Fill(c, width - |s|) else Fill(c, width - |s|) + s
  }

  function Radix(b: int): nat
  {
    if b == 16 then 16 else 10
  }

  // The digits of u, most significant first; none for zero.
  function Digits(u: nat, r: nat, letbase: char): string
    requires r in {10, 16} && letbase in {'a', 'A'}
  {
    if u == 0 then "" else Digits(u / r, r, letbase) + [DigitChar(u % r, letbase)]
  }

  // The integer that is printed: the argument itself, or its 32 bits read without a sign.
  function Meaning(i: Int, b: int, sg: bool): int
  {
    if i >= 0 || (sg && b == 10) then i else i + 0x1_0000_0000
  }

  // Without padding.
  function Natural(v: int, r: nat, letbase: char): string
    requires r in {10, 16} && letbase in {'a', 'A'}
  {
    if v == 0 then "0" else if v > 0 then Digits(v, r, letbase) else "-" + Digits(-v, r, letbase)
  }

  // Zeros go between the sign and the digits.
  function Printed(v: int, r: nat, width: int, pad: nat, letbase: char): (t: string)
    requires r in {10, 16} && letbase in {'a', 'A'}
    ensures |t| == Longer(width, |Natural(v, r, letbase)|)
  {
    if v < 0 && width != 0 && PadZero(pad) then "-" + Justified(Digits(-v, r, letbase), width - 1, pad)
    else Justified(Natural(v, r, letbase), width, pad)
  }

  // ---- reading a number back, as strtol does

  function Number(s: string, r: nat): int
    requires r > 0
    decreases |s|
  {
    if s != "" && s[0] == ' ' then Number(s[1..], r)
    else if s != "" && s[0] == '-' then 0 - Magnitude(s[1..], r, 0) as int
    else Magnitude(s, r, 0)
  }

  lemma DivMod(u: nat, r: nat)
    requires r in {10, 16}
    ensures r * (u / r) + u % r == u
  {}

  lemma {:induction false} DigitsRead(u: nat, r: nat, letbase: char, tail: string)
    requires r in {10, 16} && letbase in {'a', 'A'}
    ensures Magnitude(Digits(u, r, letbase) + tail, r, 0) == Magnitude(tail, r, u)
  {
    hide DigitChar, DigitOf, Magnitude;
    if u == 0 {
      assert Digits(u, r, letbase) + tail == tail;
    } else {
      var c := DigitChar(u % r, letbase);
      DigitRead(u % r, r, letbase);
      assert Digits(u, r, letbase) + tail == Digits(u / r, r, letbase) + ([c] + tail);
      DigitsRead(u / r, r, letbase, [c] + tail);
      OneDigit(c, tail, r, u / r);
      DivMod(u, r);
    }
  }

  lemma {:induction false} FillSkipped(n: int, s: string, r: nat)
    requires r > 0
    ensures Number(Fill(' ', n) + s, r) == Number(s, r)
    ensures Magnitude(Fill('0', n) + s, r, 0) == Magnitude(s, r, 0)
    decreases n
  {
    if n <= 0 {
      assert Fill(' ', n) + s == s && Fill('0', n) + s == s;
    } else {
      assert Fill(' ', n) + s == Fill(' ', n - 1) + ([' '] + s);
      assert Fill('0', n) + s == Fill('0', n - 1) + (['0'] + s);
      FillSkipped(n - 1, [' '] + s, r);
      FillSkipped(n - 1, ['0'] + s, r);
      assert ([' '] + s)[1..] == s && (['0'] + s)[1..] == s;
    }
  }

  lemma {:induction false} FillFirst(c: char, n: int)
    requires n > 0
    ensures Fill(c, n) == [c] + Fill(c, n - 1)
  {
    if n > 1 {
      FillFirst(c, n - 1);
    }
  }

  lemma BlanksEnd(n: int, r: nat, acc: nat)
    requires r > 0
    ensures Magnitude(Fill(' ', n), r, acc) == acc
  {
    if n > 0 {
      FillFirst(' ', n);
    }
  }

  // Zeros on the right make the number larger.
  lemma {:induction false} ZerosEnd(n: int, r: nat, acc: nat)
    requires r > 1 && acc > 0
    ensures Magnitude(Fill('0', n), r, acc) >= acc
    ensures n > 0 ==> Magnitude(Fill('0', n), r, acc) > acc
    decreases n
  {
    if n > 0 {
      FillFirst('0', n);
      OneDigit('0', Fill('0', n - 1), r, acc);
      Larger(r, acc);
      ZerosEnd(n - 1, r, r * acc);
    }
  }

  lemma Larger(r: nat, acc: nat)
    requires r > 1 && acc > 0
    ensures r * acc > acc
  {}

  lemma {:induction false} DigitsStart(u: nat, r: nat, letbase: char)
    requires r in {10, 16} && letbase in {'a', 'A'} && u > 0
    ensures Digits(u, r, letbase) != "" && DigitOf(Digits(u, r, letbase)[0], r) >= 0
  {
    hide DigitChar, DigitOf;
    DigitRead(u % r, r, letbase);
    if u >= r {
      DigitsStart(u / r, r, letbase);
    }
  }

  // D is a numeral for m.
  ghost predicate Reads(D: string, r: nat, m: nat)
    requires r > 0
  {
    D != "" && DigitOf(D[0], r) >= 0 && forall tail :: Magnitude(D + tail, r, 0) == Magnitude(tail, r, m)
  }

  lemma NumeralReads(m: nat, r: nat, letbase: char)
    requires r in {10, 16} && letbase in {'a', 'A'}
    ensures Reads(if m == 0 then "0" else Digits(m, r, letbase), r, m)
  {
    hide Magnitude;
    if m == 0 {
      forall tail ensures Magnitude("0" + tail, r, 0) == Magnitude(tail, r, 0) {
        OneDigit('0', tail, r, 0);
      }
    } else {
      DigitsStart(m, r, letbase);
      forall tail ensures Magnitude(Digits(m, r, letbase) + tail, r, 0) == Magnitude(tail, r, m) {
        DigitsRead(m, r, letbase, tail);
      }
    }
  }

  // Padding that adds zeros on the right.
  predicate RightZeros(length: nat, width: int, pad: nat)
  {
    PadRight(pad) && PadZero(pad) && width > length
  }

  lemma RightReads(D: string, m: nat, n: int, r: nat)
    requires r > 1 && Reads(D, r, m)
    ensures Number(D + Fill(' ', n), r) == m
    ensures Number(D + Fill('0', n), r) == m <==> m == 0 || n <= 0
    ensures Magnitude(D + Fill(' ', n), r, 0) == m
  {
    BlanksEnd(n, r, m);
    FillSkipped(n, "", r);
    assert Fill('0', n) + "" == Fill('0', n);
    if m > 0 {
      ZerosEnd(n, r, m);
    }
  }

  lemma LeftReads(D: string, m: nat, n: int, r: nat)
    requires r > 0 && Reads(D, r, m)
    ensures Number(D, r) == Magnitude(D, r, 0) == m
    ensures Number(Fill(' ', n) + D, r) == m
    ensures Number(Fill('0', n) + D, r) == Magnitude(Fill('0', n) + D, r, 0) == m
  {
    assert D + "" == D;
    FillSkipped(n, D, r);
    if n > 0 {
      FillFirst('0', n);
    }
  }

  // A numeral without a sign.
  lemma JustifiedReads(D: string, m: nat, width: int, pad: nat, r: nat)
    requires r > 1 && Reads(D, r, m)
    ensures Number(Justified(D, width, pad), r) == m <==> m == 0 || !RightZeros(|D|, width, pad)
  {
    hide Magnitude, Number, Fill;
    LeftReads(D, m, width - |D|, r);
    RightReads(D, m, width - |D|, r);
  }

  lemma SignRead(s: string, r: nat)
    requires r > 0
    ensures Number("-" + s, r) == 0 - Magnitude(s, r, 0) as int
    ensures s != "" && DigitOf(s[0], r) >= 0 ==> Number(s, r) == Magnitude(s, r, 0)
  {
    assert ("-" + s)[1..] == s;
  }

  // Zeros between the sign and the digits.
  lemma SignedZerosRead(D: string, m: nat, width: int, pad: nat, r: nat)
    requires r > 1 && Reads(D, r, m) && m > 0 && PadZero(pad)
    ensures Number("-" + Justified(D, width, pad), r) == 0 - m as int <==> !RightZeros(|D|, width, pad)
  {
    var n := width - |D|;
    var J := Justified(D, width, pad);
    if width > 0 && n > 0 {
      FillFirst('0', n);
    }
    SignRead(J, r);
    JustifiedReads(D, m, width, pad, r);
  }

  // Blanks around the sign and the digits.
  lemma SignedBlanksRead(D: string, m: nat, width: int, pad: nat, r: nat)
    requires r > 1 && Reads(D, r, m) && (PadZero(pad) ==> width <= 0)
    ensures Number(Justified("-" + D, width, pad), r) == 0 - m as int
  {
    hide Magnitude, Number, Fill;
    var n := width - |D| - 1;
    LeftReads(D, m, n, r);
    RightReads(D, m, n, r);
    FillSkipped(n, "-" + D, r);
    SignRead(D, r);
    SignRead(D + Fill(' ', n), r);
    assert ("-" + D) + Fill(' ', n) == "-" + (D + Fill(' ', n));
  }

  /** What is printed reads back as the number, except where zeros stand to the right of a number other than zero. */
  lemma PrintedReadsBack(v: int, r: nat, width: int, pad: nat, letbase: char)
    requires r in {10, 16} && letbase in {'a', 'A'}
    ensures Number(Printed(v, r, width, pad, letbase), r) == v
      <==> v == 0 || !RightZeros(|Natural(v, r, letbase)|, width, pad)
  {
    hide Magnitude, Number, Fill, Justified, Reads, Digits;
    if v >= 0 {
      NumeralReads(v, r, letbase);
      JustifiedReads(Natural(v, r, letbase), v, width, pad, r);
    } else {
      NumeralReads(-v, r, letbase);
      var D := Digits(-v, r, letbase);
      if width != 0 && PadZero(pad) {
        SignedZerosRead(D, -v, width - 1, pad, r);
      } else {
        SignedBlanksRead(D, -v, width, pad, r);
      }
    }
  }

  // ---- printing

  // The NUL-terminated string at a position of an array.
  ghost predicate StringAt(a: array<char>, from: nat, s: string)
    reads a
  {
    from + |s| < a.Length && a[from..from + |s|] == s && a[from + |s|] == '\0' && '\0' !in s
  }

  // As many characters as the width asks for, and what is then left of it
  method PutMany(out: Output, c: char, width: int) returns (rest: int, pc: nat)
    modifies out
    ensures out.text == old(out.text) + Fill(c, width)
    ensures pc == |Fill(c, width)| && rest == width - pc
  {
    rest, pc := width, 0;
    while rest > 0
      invariant rest == width - pc && (rest >= 0 || rest == width)
      invariant out.text == old(out.text) + Fill(c, pc)
    {
      out.Put(c);
      rest, pc := rest - 1, pc + 1;
    }
  }

  method Strlen(str: array<char>, from: nat, ghost s: string) returns (len: nat)
    requires StringAt(str, from, s)
    ensures len == |s|
  {
    len := 0;
    while str[from + len] != '\0'
      invariant len <= |s|
      decreases |s| - len
    {
      InString(str, from, s, len);
      len := len + 1;
    }
    InString(str, from, s, len);
  }

  lemma InString(str: array<char>, from: nat, s: string, k: nat)
    requires StringAt(str, from, s) && k <= |s|
    ensures k < |s| <==> str[from + k] != '\0'
    ensures k < |s| ==> str[from + k] == s[k]
  {
    if k < |s| {
      assert str[from..from + |s|][k] == s[k];
    }
  }

  method PutString(out: Output, str: array<char>, from: nat, ghost s: string) returns (pc: nat)
    requires StringAt(str, from, s)
    modifies out
    ensures out.text == old(out.text) + s && pc == |s|
  {
    pc := 0;
    while str[from + pc] != '\0'
      invariant pc <= |s| && out.text == old(out.text) + s[..pc]
      decreases |s| - pc
    {
      InString(str, from, s, pc);
      out.Put(str[from + pc]);
      pc := pc + 1;
    }
    InString(str, from, s, pc);
  }

  /** qprints */
  method Qprints(out: Output, str: array<char>, from: nat, width: int, pad: nat, ghost s: string) returns (pc: int)
    requires StringAt(str, from, s)
    modifies out
    ensures out.text == old(out.text) + Justified(s, width, pad)
    ensures pc == Longer(width, |s|)
  {
    hide Fill, StringAt, PadRight, PadZero;
    ghost var before := out.text;
    var padchar, rest, left, n := ' ', width, 0, 0;
    if rest > 0 {
      var len := Strlen(str, from, s);
      rest := if len >= rest then 0 else rest - len;
      if PadZero(pad) {
        padchar := '0';
      }
    }
    ghost var l := if PadRight(pad) then 0 else rest;
    if !PadRight(pad) {
      rest, left := PutMany(out, padchar, rest);
    } else {
      NoFill(padchar, l);
    }
    assert out.text == before + Fill(padchar, l);
    ghost var r := rest;
    var middle := PutString(out, str, from, s);
    rest, n := PutMany(out, padchar, rest);
    pc := left + middle + n;
    BothSides(s, width, pad, padchar, l, r);
    hide Justified;
    Associative(before, Fill(padchar, l), s, Fill(padchar, r));
  }

  lemma Associative(a: string, b: string, c: string, d: string)
    ensures a + b + c + d == a + (b + c + d)
  {}

  lemma NoFill(c: char, n: int)
    requires n <= 0
    ensures Fill(c, n) == ""
  {}

  lemma BothSides(s: string, width: int, pad: nat, c: char, l: int, r: int)
    requires c == if width > 0 && PadZero(pad) then '0' else ' '
    requires var n := if width <= 0 then width else if |s| >= width then 0 else width - |s|;
      if PadRight(pad) then l <= 0 && r == n else l == n && r <= 0
    ensures Fill(c, l) + s + Fill(c, r) == Justified(s, width, pad)
  {
    hide PadRight, PadZero;
    var n := width - |s|;
    if n <= 0 {
      NoFill(c, n);
    }
    if l <= 0 {
      NoFill(c, l);
    }
    if r <= 0 {
      NoFill(c, r);
    }
  }

  // ---- the digits, from the last to the first

  // What has been written at the end of the buffer: the last digits of v and the NUL, with u still to write.
  ghost predicate Written(buf: array<char>, at: nat, u: nat, v: nat, r: nat, letbase: char)
    reads buf
    requires r in {10, 16} && letbase in {'a', 'A'}
  {
    && buf.Length == PRINT_BUF_LEN && at < PRINT_BUF_LEN
    && Digits(v, r, letbase) == Digits(u, r, letbase) + buf[at..PRINT_BUF_LEN - 1]
    && buf[PRINT_BUF_LEN - 1] == '\0' && '\0' !in buf[at..PRINT_BUF_LEN - 1]
  }

  function Pow8(k: nat): (p: nat)
    ensures p > 0
  {
    if k == 0 then 1 else 8 * Pow8(k - 1)
  }

  lemma AnEighth(u: nat, r: nat)
    requires r in {10, 16}
    ensures u / r <= u / 8
  {
    if r == 10 {
      assert u / 10 <= u / 8;
    } else {
      assert u / 16 <= u / 8;
    }
  }

  lemma {:induction false} FewDigits(u: nat, r: nat, letbase: char, k: nat)
    requires r in {10, 16} && letbase in {'a', 'A'} && u < Pow8(k)
    ensures |Digits(u, r, letbase)| <= k
  {
    hide DigitChar;
    if u > 0 {
      AnEighth(u, r);
      FewDigits(u / r, r, letbase, k - 1);
    }
  }

  lemma ElevenDigits(u: Unsigned, r: nat, letbase: char)
    requires r in {10, 16} && letbase in {'a', 'A'}
    ensures |Digits(u, r, letbase)| <= 11
  {
    assert Pow8(11) == 0x2_0000_0000;
    FewDigits(u, r, letbase, 11);
  }

  // One more digit in front
  method Store(buf: array<char>, at: nat, u: nat, ghost v: Unsigned, r: nat, letbase: char, c: char)
    returns (at': nat)
    requires r in {10, 16} && letbase in {'a', 'A'} && Written(buf, at, u, v, r, letbase)
    requires u > 0 && c == DigitChar(u % r, letbase)
    modifies buf
    ensures Written(buf, at', u / r, v, r, letbase)
  {
    hide DigitChar;
    ElevenDigits(v, r, letbase);
    ghost var tail := buf[at..PRINT_BUF_LEN - 1];
    at' := at - 1;
    buf[at'] := c;
    NotNul(u % r, letbase);
    assert buf[at'..PRINT_BUF_LEN - 1] == [c] + tail;
  }

  lemma NotNul(d: nat, letbase: char)
    requires d < 16 && letbase in {'a', 'A'}
    ensures DigitChar(d, letbase) != '\0'
  {}

  method Hexadecimal(buf: array<char>, v: Unsigned, letbase: char) returns (at: nat)
    requires letbase in {'a', 'A'} && Written(buf, PRINT_BUF_LEN - 1, v, v, 16, letbase)
    modifies buf
    ensures Written(buf, at, 0, v, 16, letbase)
  {
    var u: Unsigned := v;
    at := PRINT_BUF_LEN - 1;
    while u != 0
      invariant Written(buf, at, u, v, 16, letbase)
    {
      hide Digits;
      var t: int := u % 16;
      if t >= 10 {
        t := t + (letbase as int - '0' as int - 10);
      }
      at := Store(buf, at, u, v, 16, letbase, (t + '0' as int) as char);
      u := u / 16;
    }
  }

  method Decimal(buf: array<char>, v: Unsigned, letbase: char) returns (at: nat)
    requires letbase in {'a', 'A'} && Written(buf, PRINT_BUF_LEN - 1, v, v, 10, letbase)
    modifies buf
    ensures Written(buf, at, 0, v, 10, letbase)
  {
    var u: Unsigned := v;
    at := PRINT_BUF_LEN - 1;
    while u != 0
      invariant Written(buf, at, u, v, 10, letbase)
    {
      hide Digits;
      at := Store(buf, at, u, v, 10, letbase, (RemU10(u) + '0' as int) as char);
      u := DivU10(u);
    }
  }

  // The digits and the NUL, with room for a sign.
  method DigitString(buf: array<char>, u: Unsigned, b: int, letbase: char) returns (s: nat)
    requires letbase in {'a', 'A'} && buf.Length == PRINT_BUF_LEN
    modifies buf
    ensures 0 < s && StringAt(buf, s, Digits(u, Radix(b), letbase))
  {
    hide Digits;
    s := PRINT_BUF_LEN - 1;
    buf[s] := '\0';
    assert buf[s..PRINT_BUF_LEN - 1] == [];
    assert Digits(u, Radix(b), letbase) + [] == Digits(u, Radix(b), letbase);
    NoDigits(Radix(b), letbase);
    if b == 16 {
      s := Hexadecimal(buf, u, letbase);
    } else {
      s := Decimal(buf, u, letbase);
    }
    assert Digits(u, Radix(b), letbase) == buf[s..PRINT_BUF_LEN - 1];
    ElevenDigits(u, Radix(b), letbase);
  }

  lemma NoDigits(r: nat, letbase: char)
    requires r in {10, 16} && letbase in {'a', 'A'}
    ensures forall s: string :: Digits(0, r, letbase) + s == s
  {}

  // The sign in front
  method Sign(buf: array<char>, at: nat, ghost digits: string) returns (s: nat)
    requires 0 < at && StringAt(buf, at, digits)
    modifies buf
    ensures StringAt(buf, s, "-" + digits)
  {
    s := at - 1;
    ghost var n := at + |digits|;
    buf[s] := '-';
    assert buf[s..n] == "-" + digits;
  }

  /** qprinti */
  method Qprinti(out: Output, i: Int, b: int, sg: bool, width: int, pad: nat, letbase: char) returns (pc: int)
    requires letbase in {'a', 'A'}
    requires sg && b == 10 ==> i > -0x8000_0000
    modifies out
    ensures out.text == old(out.text) + Printed(Meaning(i, b, sg), Radix(b), width, pad, letbase)
    ensures pc == Longer(width, |Natural(Meaning(i, b, sg), Radix(b), letbase)|)
  {
    hide Digits, Justified, PadZero, StringAt;
    var printBuf := new char[PRINT_BUF_LEN];
    if i == 0 {
      printBuf[0] := '0';
      printBuf[1] := '\0';
      ZeroString(printBuf);
      pc := Qprints(out, printBuf, 0, width, pad, "0");
      return;
    }
    var neg := sg && b == 10 && i < 0;
    var u: Unsigned := if neg then -i else if i < 0 then i + 0x1_0000_0000 else i;
    var s := DigitString(printBuf, u, b, letbase);
    ghost var digits := Digits(u, Radix(b), letbase);
    if neg {
      if width != 0 && PadZero(pad) {
        out.Put('-');
        pc := Qprints(out, printBuf, s, width - 1, pad, digits);
        pc := 1 + pc;
      } else {
        s := Sign(printBuf, s, digits);
        pc := Qprints(out, printBuf, s, width, pad, "-" + digits);
      }
    } else {
      pc := Qprints(out, printBuf, s, width, pad, digits);
    }
  }

  lemma ZeroString(buf: array<char>)
    requires buf.Length == PRINT_BUF_LEN && buf[0] == '0' && buf[1] == '\0'
    ensures StringAt(buf, 0, "0")
  {}
}
