/** The printer, the marker search and the known-answer fields in literal characters and numbers. */
module TextLaws {
  import opened Words
  import opened BitStrings
  import opened Numerals
  import opened Qprintf
  import opened GenKat
  import KatRoundTrip
  import VhdlVectors

  // ---- digits

  lemma DigitLaw(d: nat, letbase: char)
    requires d < 16 && letbase in {'a', 'A'}
    ensures d < 10 ==> DigitChar(d, letbase) == "0123456789"[d]
    ensures d >= 10 && letbase == 'a' ==> DigitChar(d, letbase) == "abcdef"[d - 10]
    ensures d >= 10 && letbase == 'A' ==> DigitChar(d, letbase) == "ABCDEF"[d - 10]
  {}

  lemma ReadDigitLaw(c: char)
    ensures DigitOf(c, 10) == if '0' <= c <= '9' then c as int - 48 else -1
    ensures DigitOf(c, 16) == if '0' <= c <= '9' then c as int - 48 else if 'a' <= c <= 'f' then c as int - 87
      else if 'A' <= c <= 'F' then c as int - 55 else -1
  {}

  lemma MagnitudeLaw(c: char, tail: string, r: nat, acc: nat)
    requires r > 0
    ensures Magnitude("", r, acc) == acc
    ensures DigitOf(c, r) < 0 ==> Magnitude([c] + tail, r, acc) == acc
    ensures DigitOf(c, r) >= 0 ==> Magnitude([c] + tail, r, acc) == Magnitude(tail, r, r * acc + DigitOf(c, r))
  {
    if DigitOf(c, r) >= 0 {
      OneDigit(c, tail, r, acc);
    }
  }

  lemma NumberLaw(s: string, r: nat)
    requires r > 0
    ensures Number(" " + s, r) == Number(s, r) && Number("-" + s, r) == 0 - Magnitude(s, r, 0) as int
    ensures s == "" || s[0] !in {' ', '-'} ==> Number(s, r) == Magnitude(s, r, 0)
  {
    assert (" " + s)[1..] == s && ("-" + s)[1..] == s;
  }

  lemma Ranges(n: int, c: char, u: Unsigned, i: Int, d: Char)
    ensures 0 <= n <= 4294967295 ==> (n as Unsigned) == n
    ensures -2147483648 <= n <= 2147483647 ==> (n as Int) == n
    ensures c as int <= 255 ==> (c as Char) == c
    ensures u <= 4294967295 && -2147483648 <= i <= 2147483647 && d as int <= 255
  {}

  // ---- the integer printer

  // The 32 bits of the argument, with a sign only for %d.
  lemma MeaningLaw(i: Int, b: int, sg: bool)
    ensures (Meaning(i, b, sg) - i) % 4294967296 == 0
    ensures Meaning(i, b, sg) < 0 <==> sg && b == 10 && i < 0
    ensures -2147483648 <= Meaning(i, b, sg) < 4294967296
  {}

  lemma RadixLaw(b: int)
    ensures Radix(b) == if b == 16 then 16 else 10
  {}

  lemma DigitsLaw(u: nat, r: nat, letbase: char)
    requires r in {10, 16} && letbase in {'a', 'A'}
    ensures Digits(0, r, letbase) == ""
    ensures u > 0 ==> Digits(u, r, letbase) == Digits(u / r, r, letbase) + [DigitChar(u % r, letbase)]
  {
    hide DigitChar;
  }

  predicate InCase(c: char, r: nat, letbase: char)
  {
    '0' <= c <= '9' || (r == 16 && (if letbase == 'a' then 'a' <= c <= 'f' else 'A' <= c <= 'F'))
  }

  lemma InCaseLaw(c: char)
    ensures InCase(c, 10, 'a') <==> '0' <= c <= '9'
    ensures InCase(c, 16, 'a') <==> '0' <= c <= '9' || 'a' <= c <= 'f'
    ensures InCase(c, 16, 'A') <==> '0' <= c <= '9' || 'A' <= c <= 'F'
  {}

  lemma DigitInCase(d: nat, r: nat, letbase: char)
    requires d < r && r in {10, 16} && letbase in {'a', 'A'}
    ensures InCase(DigitChar(d, letbase), r, letbase) && (DigitChar(d, letbase) == '0' <==> d == 0)
  {}

  // Letters only in the case that is asked for
  lemma {:induction false} DigitsInCase(u: nat, r: nat, letbase: char, i: nat)
    requires r in {10, 16} && letbase in {'a', 'A'} && i < |Digits(u, r, letbase)|
    ensures InCase(Digits(u, r, letbase)[i], r, letbase)
    decreases u
  {
    hide DigitChar, InCase, Digits;
    DigitsLaw(u, r, letbase);
    if u > 0 {
      Smaller(u, r);
      DigitInCase(u % r, r, letbase);
      if i < |Digits(u, r, letbase)| - 1 {
        DigitsInCase(u / r, r, letbase, i);
      }
    }
  }

  lemma Smaller(u: nat, r: nat)
    requires r in {10, 16} && u > 0
    ensures u / r < u && u % r < r
  {}

  // No leading zero
  lemma {:induction false} FirstDigit(u: nat, r: nat, letbase: char)
    requires r in {10, 16} && letbase in {'a', 'A'} && u > 0
    ensures Digits(u, r, letbase) != "" && Digits(u, r, letbase)[0] != '0'
    decreases u
  {
    hide DigitChar, InCase;
    DigitInCase(u % r, r, letbase);
    if u / r > 0 {
      FirstDigit(u / r, r, letbase);
    } else {
      SmallDigit(u, r);
    }
  }

  lemma SmallDigit(u: nat, r: nat)
    requires r in {10, 16} && u / r == 0
    ensures u % r == u
  {}

  lemma {:induction false} FillLaw(c: char, n: nat)
    ensures Fill(c, n) == seq(n, _ => c)
  {
    if n > 0 {
      FillLaw(c, n - 1);
    }
  }

  // Flag 1 puts the filling on the right, flag 2 makes it zeros.
  lemma JustifiedLaw(s: string, width: int, pad: nat)
    ensures width <= |s| ==> Justified(s, width, pad) == s
    ensures width > |s| ==> Justified(s, width, 0) == seq(width - |s|, _ => ' ') + s
    ensures width > |s| ==> Justified(s, width, 1) == s + seq(width - |s|, _ => ' ')
    ensures width > |s| ==> Justified(s, width, 2) == seq(width - |s|, _ => '0') + s
    ensures width > |s| ==> Justified(s, width, 3) == s + seq(width - |s|, _ => '0')
    ensures Justified(s, width, pad) == Justified(s, width, pad % 4)
  {
    if width > |s| {
      FillLaw(' ', width - |s|);
      FillLaw('0', width - |s|);
    } else {
      NoFill(' ', width - |s|);
      NoFill('0', width - |s|);
    }
    OnlyTwoFlags(pad);
    hide Fill;
  }

  lemma OnlyTwoFlags(pad: nat)
    ensures PadRight(pad) == PadRight(pad % 4) && PadZero(pad) == PadZero(pad % 4)
  {}

  lemma PrintedLaw(m: int, r: nat, width: int, pad: nat, letbase: char)
    requires r in {10, 16} && letbase in {'a', 'A'} && m > 0
    ensures Printed(0, r, width, pad, letbase) == Justified("0", width, pad)
    ensures Printed(m, r, width, pad, letbase) == Justified(Digits(m, r, letbase), width, pad)
    ensures Printed(-m, r, width, pad, letbase)
      == if width != 0 && pad % 4 >= 2 then "-" + Justified(Digits(m, r, letbase), width - 1, pad)
         else Justified("-" + Digits(m, r, letbase), width, pad)
    ensures Natural(0, r, letbase) == "0" && Natural(m, r, letbase) == Digits(m, r, letbase)
    ensures Natural(-m, r, letbase) == "-" + Digits(m, r, letbase)
  {
    ZeroFlag(pad);
    hide Justified, Digits, PadZero;
  }

  lemma ZeroFlag(pad: nat)
    ensures PadZero(pad) <==> pad % 4 >= 2
  {}

  lemma StringLaw(a: array<char>, from: nat, s: string)
    ensures StringAt(a, from, s) <==>
      (from + |s| < a.Length && a[from + |s|] == '\0' && forall k :: 0 <= k < |s| ==> a[from + k] == s[k] != '\0')
  {
    if StringAt(a, from, s) {
      forall k | 0 <= k < |s| ensures a[from + k] == s[k] != '\0' {
        assert a[from..from + |s|][k] == a[from + k];
      }
    }
    if from + |s| < a.Length && a[from + |s|] == '\0' && forall k :: 0 <= k < |s| ==> a[from + k] == s[k] != '\0' {
      assert a[from..from + |s|] == s;
    }
  }

  // ---- the marker search

  lemma SoughtLaw(marker: Text)
    ensures |marker| <= 49 ==> Sought(marker) == marker
    ensures |marker| > 49 ==> Sought(marker) == marker[..49]
  {}

  lemma OccursLaw(s: Text, m: Text, i: nat)
    ensures OccursAt(s, m, i) <==> i + |m| <= |s| && forall k :: 0 <= k < |m| ==> s[i + k] == m[k]
  {
    if OccursAt(s, m, i) {
      forall k | 0 <= k < |m| ensures s[i + k] == m[k] {
        assert s[i..i + |m|][k] == s[i + k];
      }
    }
    if i + |m| <= |s| && forall k :: 0 <= k < |m| ==> s[i + k] == m[k] {
      assert s[i..i + |m|] == m;
    }
  }

  lemma FirstLaw(s: Text, m: Text, i: nat)
    ensures FirstAt(s, m, i) <==> OccursAt(s, m, i) && forall j: nat :: j < i ==> !OccursAt(s, m, j)
  {}

  lemma StopsLaw(text: Text, p: nat)
    requires p <= |text|
    ensures '\U{00FF}' !in text[p..] ==> StopsAt(text, p) == |text|
    ensures '\U{00FF}' in text[p..] ==> p < StopsAt(text, p) <= |text|
    ensures '\U{00FF}' in text[p..] ==> text[StopsAt(text, p) - 1] == '\U{00FF}'
    ensures '\U{00FF}' in text[p..] ==> '\U{00FF}' !in text[p..StopsAt(text, p) - 1]
  {
    var r := Readable(text[p..]);
    if p + |r| < |text| {
      assert text[p..][|r|] == text[p + |r|];
      assert text[p..p + |r|] == r;
    } else {
      assert r == text[p..];
    }
  }

  lemma EndOfFile()
    ensures EOF == -1
  {}

  lemma NarrowLaw(c: int)
    requires -1 <= c < 256
    ensures -128 <= Narrow(c) < 128 && (Narrow(c) - c) % 256 == 0
    ensures Narrow(c) == EOF <==> c == -1 || c == 255
  {}

  // ---- the field

  lemma HexLaw(c: char)
    ensures IsHex(c) <==> '0' <= c <= '9' || 'a' <= c <= 'f' || 'A' <= c <= 'F'
  {}

  // k characters are skipped, up to a digit or the end of the line.
  lemma {:induction false} SkipLaw(s: Text) returns (k: nat)
    ensures k <= |s| && Skip(s) == s[k..]
    ensures forall i :: 0 <= i < k ==> !IsHex(s[i]) && s[i] != '\n'
    ensures k < |s| ==> IsHex(s[k]) || s[k] == '\n'
    ensures FieldLength(s) == k + RunLength(s[k..])
    decreases |s|
  {
    hide IsHex, RunLength;
    if s == [] || IsHex(s[0]) || s[0] == '\n' {
      k := 0;
      assert s[0..] == s;
    } else {
      k := SkipLaw(s[1..]);
      assert s[1..][k..] == s[k + 1..];
      k := k + 1;
    }
  }

  // k digits are read, and the character behind them.
  lemma {:induction false} RunLaw(s: Text) returns (k: nat)
    ensures k <= |s| && RunLength(s) == if k == |s| then k else k + 1
    ensures forall i :: 0 <= i < k ==> IsHex(s[i])
    ensures k < |s| ==> !IsHex(s[k])
    decreases |s|
  {
    hide IsHex;
    if s == [] || !IsHex(s[0]) {
      k := 0;
    } else {
      k := RunLaw(s[1..]);
      k := k + 1;
    }
  }

  lemma FieldValueLaw(s: Text)
    ensures FieldValue(s) == Magnitude(Skip(s), 16, 0)
  {}

  lemma FieldReadLaw(text: Text, p: nat, marker: Text, q: nat, a: seq<Byte>, pos: nat)
    requires p <= |text| && |marker| <= 49
    ensures FieldRead(text, p, marker, q, a, pos) <==>
      FirstAt(Readable(text[p..]), marker, q) && p + q + |marker| <= |text|
      && Big(a) == FieldValue(text[p + q + |marker|..]) % Pow256(|a|)
      && pos == p + q + |marker| + FieldLength(text[p + q + |marker|..])
  {
    SoughtLaw(marker);
    hide FirstAt, Readable, Big, FieldValue, FieldLength, Pow256;
  }

  lemma GivesLaw(text: Text, p: nat, marker: Text, a: seq<Byte>, q: nat, pos: nat)
    requires p <= |text|
    ensures FieldRead(text, p, marker, q, a, pos) ==> Gives(text, p, marker, a)
    ensures Gives(text, p, marker, a) ==> a == ZeroFill(|a|) || exists k: nat, end: nat ::
      FieldRead(text, p, marker, k, a, end)
    ensures Gives(text, p, marker, a) && OccursAt(Readable(text[p..]), Sought(marker), q) ==>
      exists k: nat, end: nat :: FieldRead(text, p, marker, k, a, end)
  {
    hide Readable, OccursAt, Big, FieldValue, FieldLength, Pow256;
  }

  // ---- arrays as numbers and as text

  lemma BigLaw(a: seq<Byte>, b: Byte)
    ensures Big([]) == 0 && Big(a + [b]) == 256 * Big(a) + Value(b)
    ensures Pow256(0) == 1 && Pow256(|a| + 1) == 256 * Pow256(|a|)
  {
    LastByteValue(a, b);
  }

  lemma ValueLaw(b: bool, w: Word)
    ensures Value([]) == 0 && Value([b] + w) == (if b then 1 else 0) + 2 * Value(w)
  {
    FirstBit(b, w);
  }

  // Two digits for a byte, the high one first, in upper case
  lemma HexTextLaw(a: seq<Byte>, b: Byte)
    ensures HexText([]) == "" && Value(b) < 256
    ensures HexText(a + [b]) == HexText(a) + [DigitChar(Value(b) / 16, 'A'), DigitChar(Value(b) % 16, 'A')]
  {
    hide Hex2, Value, DigitChar;
    assert (a + [b])[..|a|] == a;
    UpperCase(b);
  }

  lemma UpperCase(b: Byte)
    ensures Value(b) < 256
    ensures Hex2(b) == [DigitChar(Value(b) / 16, 'A'), DigitChar(Value(b) % 16, 'A')]
  {
    hide Value, DigitChar;
    Nibbles(b[..4], b[4..]);
    assert b == b[..4] + b[4..];
    HighAndLow(Value(b[..4]), Value(b[4..]));
  }

  lemma HighAndLow(low: nat, high: nat)
    requires low < 16
    ensures (low + 16 * high) / 16 == high && (low + 16 * high) % 16 == low
  {}

  /** Every character that is printed for an array is a digit or an upper-case letter up to F. */
  lemma {:induction false} HexTextInCase(a: seq<Byte>, i: nat)
    requires i < 2 * |a|
    ensures |HexText(a)| == 2 * |a| && ('0' <= HexText(a)[i] <= '9' || 'A' <= HexText(a)[i] <= 'F')
  {
    hide HexText, Value;
    var front, b := a[..|a| - 1], a[|a| - 1];
    assert a == front + [b];
    HexTextLaw(front, b);
    if i < 2 * |front| {
      HexTextInCase(front, i);
    }
  }

  // ---- reading back, and the test vectors

  lemma RestoresLaw(marker: Text)
    ensures |marker| <= 49 ==> (KatRoundTrip.Restores(marker) <==> '\U{00FF}' !in marker)
    ensures |marker| > 49 ==> (KatRoundTrip.Restores(marker) <==>
      '\U{00FF}' !in marker[..49] && forall i :: 0 <= i < |Skip(marker[49..])| ==> IsHex(Skip(marker[49..])[i]))
  {
    hide Skip, IsHex, KatRoundTrip.AllHex, Sought;
    SoughtLaw(marker);
    if |marker| <= 49 {
      KatRoundTrip.ShortMarker(marker);
    } else {
      assert KatRoundTrip.CutOff(marker) == marker[49..];
      AllHexLaw(Skip(marker[49..]));
    }
  }

  lemma AllHexLaw(s: Text)
    ensures KatRoundTrip.AllHex(s) <==> forall i :: 0 <= i < |s| ==> IsHex(s[i])
  {
    hide IsHex;
  }

  lemma LineLaw(before: Text, marker: Text, a: seq<Byte>, after: Text)
    ensures KatRoundTrip.Line(before, marker, a, after) == before + marker + HexText(a) + "\n" + after
  {
    hide HexText;
  }

  lemma VectorConstants()
    ensures VhdlVectors.RATE == 1024 && VhdlVectors.BUFFER == 4000 && VhdlVectors.LONGEST == 31736
  {}

  lemma LinesLaw(b: seq<Byte>, k: nat)
    requires 8 * k + 8 <= |b|
    ensures VhdlVectors.Lines(b, 0) == ""
    ensures VhdlVectors.Lines(b, k + 1) == VhdlVectors.Lines(b, k)
      + HexText([b[8 * k + 7], b[8 * k + 6], b[8 * k + 5], b[8 * k + 4]]
                + [b[8 * k + 3], b[8 * k + 2], b[8 * k + 1], b[8 * k]])
      + "\n"
  {
    hide HexText, VhdlVectors.Reversed;
    var lane := b[8 * k..8 * k + 8];
    VhdlVectors.MoreLines(b, k);
    LastFirst(lane);
    assert VhdlVectors.Reversed(lane) == [b[8 * k + 7], b[8 * k + 6], b[8 * k + 5], b[8 * k + 4]]
      + [b[8 * k + 3], b[8 * k + 2], b[8 * k + 1], b[8 * k]];
  }

  lemma LastFirst(b: seq<Byte>)
    requires |b| == 8
    ensures VhdlVectors.Reversed(b) == [b[7], b[6], b[5], b[4], b[3], b[2], b[1], b[0]]
  {
    hide VhdlVectors.Reversed;
    VhdlVectors.ReversedAt(b, 0);
    VhdlVectors.ReversedAt(b, 1);
    VhdlVectors.ReversedAt(b, 2);
    VhdlVectors.ReversedAt(b, 3);
    VhdlVectors.ReversedAt(b, 4);
    VhdlVectors.ReversedAt(b, 5);
    VhdlVectors.ReversedAt(b, 6);
    VhdlVectors.ReversedAt(b, 7);
  }
}
