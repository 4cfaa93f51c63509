/** Reading and writing the fields of known-answer-test files in genKAT.c. */
module GenKat {
  import opened Words
  import opened Numerals
  import opened BitStrings
  import opened Arithmetic

  type Char = c: char | c as int < 256
  type Text = seq<Char>

  const MAX_MARKER_LEN: nat := 50
  const EOF: int := -1

  // An open file: its characters and the position of the next one.
  class File {
    var text: Text
    var pos: nat

    constructor (text: Text)
      ensures this.text == text && pos == 0
    {
      this.text := text;
      pos := 0;
    }

    ghost predicate Valid()
      reads this
    {
      pos <= |text|
    }

    method Fgetc() returns (c: int)
      requires Valid()
      modifies this`pos
      ensures Valid()
      ensures old(pos) < |text| ==> c == text[old(pos)] as int && pos == old(pos) + 1
      ensures old(pos) == |text| ==> c == EOF && pos == old(pos)
    {
      if pos == |text| {
        return EOF;
      }
      c := text[pos] as int;
      pos := pos + 1;
    }

    method Fprint(s: Text)
      requires Valid() && pos == |text|
      modifies this
      ensures text == old(text) + s && pos == |text|
    {
      text := text + s;
      pos := |text|;
    }
  }

  // ---- the marker search

  // The value of an int stored in a signed char.
  function Narrow(c: int): int
    requires -1 <= c < 256
  {
    if c < 128 then c else c - 256
  }

  // The characters in front of the first one that a signed char cannot tell from the end of the file.
  function Readable(s: Text): (r: Text)
    ensures r <= s
    ensures forall i :: 0 <= i < |r| ==> r[i] != '\U{00FF}'
    ensures |r| < |s| ==> s[|r|] == '\U{00FF}'
  {
    if s == [] || s[0] == '\U{00FF}' then [] else [s[0]] + Readable(s[1..])
  }

  predicate OccursAt(s: Text, m: Text, i: nat)
  {
    i + |m| <= |s| && s[i..i + |m|] == m
  }

  predicate FirstAt(s: Text, m: Text, i: nat)
  {
    OccursAt(s, m, i) && forall j: nat :: j < i ==> !OccursAt(s, m, j)
  }

  // The part of the marker that is looked for.
  function Sought(marker: Text): Text
  {
    if |marker| > MAX_MARKER_LEN - 1 then marker[..MAX_MARKER_LEN - 1] else marker
  }

  // The window holds s.
  ghost predicate Holds(line: array<int>, s: Text)
    reads line
    requires |s| <= line.Length
  {
    forall t :: 0 <= t < |s| ==> line[t] == Narrow(s[t] as int)
  }

  // The window is the marker.
  method SameChars(line: array<int>, m: Text, ghost s: Text) returns (same: bool)
    requires |m| == |s| <= line.Length && Holds(line, s)
    ensures same <==> s == m
  {
    for t := 0 to |m|
      invariant s[..t] == m[..t]
    {
      if line[t] != Narrow(m[t] as int) {
        return false;
      }
    }
    return true;
  }

  method Shift(line: array<int>, len: nat, ghost s: Text)
    requires len == |s| <= line.Length && len > 0 && Holds(line, s)
    modifies line
    ensures Holds(line, s[1..])
  {
    for i := 0 to len - 1
      invariant forall t :: 0 <= t < i ==> line[t] == Narrow(s[t + 1] as int)
      invariant forall t :: i <= t < len ==> line[t] == Narrow(s[t] as int)
    {
      line[i] := line[i + 1];
    }
  }

  // The next character, number n after position p, into the window
  method NextInto(infile: File, line: array<int>, at: nat, ghost p: nat, ghost n: nat) returns (eof: bool)
    requires infile.Valid() && at < line.Length
    requires p <= |infile.text| && n <= |Readable(infile.text[p..])| && infile.pos == p + n
    modifies infile`pos, line
    ensures infile.Valid()
    ensures forall t :: 0 <= t < line.Length && t != at ==> line[t] == old(line[t])
    ensures var r := Readable(infile.text[p..]);
      && eof == (n == |r|)
      && (!eof ==> infile.pos == p + n + 1 && line[at] == Narrow(r[n] as int))
      && (eof ==> infile.pos == StopsAt(infile.text, p))
  {
    var c := infile.Fgetc();
    line[at] := Narrow(c);
    eof := line[at] == EOF;
    ghost var rest := infile.text[p..];
    if p + n < |infile.text| {
      assert c == rest[n] as int;
    }
  }

  // Where a search that starts at p and fails leaves the file.
  function StopsAt(text: Text, p: nat): nat
    requires p <= |text|
  {
    var n := |Readable(text[p..])|;
    if p + n < |text| then p + n + 1 else p + n
  }

  // The next characters of the file, after the n read since position p.
  ghost predicate Window(infile: File, line: array<int>, p: nat, k: nat, len: nat)
    reads infile, line
  {
    && infile.Valid() && p <= |infile.text| && len <= line.Length
    && k + len <= |Readable(infile.text[p..])| && infile.pos == p + k + len
    && Holds(line, Readable(infile.text[p..])[k..k + len])
  }

  method FillWindow(infile: File, line: array<int>, len: nat) returns (eof: bool)
    requires infile.Valid() && len <= line.Length
    modifies infile`pos, line
    ensures infile.Valid()
    ensures !eof ==> Window(infile, line, old(infile.pos), 0, len)
    ensures eof ==> |Readable(infile.text[old(infile.pos)..])| < len
    ensures eof ==> infile.pos == StopsAt(infile.text, old(infile.pos))
  {
    hide Readable, Narrow, StopsAt;
    for i := 0 to len
      invariant Window(infile, line, old(infile.pos), 0, i)
    {
      eof := NextInto(infile, line, i, old(infile.pos), i);
      if eof {
        return;
      }
    }
    return false;
  }

  method MoveWindow(infile: File, line: array<int>, len: nat, ghost p: nat, ghost k: nat) returns (eof: bool)
    requires Window(infile, line, p, k, len) && len > 0
    modifies infile`pos, line
    ensures infile.Valid()
    ensures !eof ==> Window(infile, line, p, k + 1, len)
    ensures eof ==> k + len == |Readable(infile.text[p..])| && infile.pos == StopsAt(infile.text, p)
  {
    hide Readable, Narrow, StopsAt;
    ghost var r := Readable(infile.text[p..]);
    Shift(line, len, r[k..k + len]);
    assert r[k..k + len][1..] == r[k + 1..k + len];
    eof := NextInto(infile, line, len - 1, p, k + len);
  }

  lemma OccursHere(r: Text, m: Text, k: nat)
    requires k + |m| <= |r|
    ensures OccursAt(r, m, k) <==> r[k..k + |m|] == m
  {}

  lemma NoRoom(r: Text, m: Text, k: nat)
    requires k + |m| > |r|
    ensures forall i: nat :: i >= k ==> !OccursAt(r, m, i)
  {}

  /** FindMarker */
  method FindMarker(infile: File, marker: Text) returns (found: bool)
    requires infile.Valid()
    modifies infile`pos
    ensures infile.Valid()
    ensures var r, m := Readable(infile.text[old(infile.pos)..]), Sought(marker);
      && (found <==> exists i: nat :: OccursAt(r, m, i))
      && (found ==> infile.pos >= old(infile.pos) + |m| && FirstAt(r, m, infile.pos - old(infile.pos) - |m|))
      && (!found ==> infile.pos == StopsAt(infile.text, old(infile.pos)))
    ensures |marker| <= 49 ==>
      (found <==> exists i: nat :: OccursAt(Readable(infile.text[old(infile.pos)..]), marker, i))
  {
    hide Readable, Narrow, StopsAt, Holds, OccursAt;
    ghost var p := infile.pos;
    ghost var r, m := Readable(infile.text[p..]), Sought(marker);
    var line := new int[MAX_MARKER_LEN];
    var len := |marker|;
    if len > MAX_MARKER_LEN - 1 {
      len := MAX_MARKER_LEN - 1;
    }
    assert marker[..len] == m;
    var eof := FillWindow(infile, line, len);
    if eof {
      NoRoom(r, m, 0);
      return false;
    }
    ghost var k := 0;
    while true
      invariant Window(infile, line, p, k, len)
      invariant forall j: nat :: j < k ==> !OccursAt(r, m, j)
      decreases |r| - k
    {
      var same := SameChars(line, marker[..len], r[k..k + len]);
      OccursHere(r, m, k);
      if same {
        return true;
      }
      eof := MoveWindow(infile, line, len, p, k);
      if eof {
        NoRoom(r, m, k + 1);
        return false;
      }
      k := k + 1;
    }
  }

  // FindMarker sees an occurrence exactly when no character in front of its end looks like the end of the file.
  lemma SeenWhenReadable(s: Text, m: Text, i: nat)
    ensures OccursAt(Readable(s), m, i) <==> OccursAt(s, m, i) && '\U{00FF}' !in s[..i + |m|]
  {
    var r := Readable(s);
    if i + |m| <= |r| {
      assert r[i..i + |m|] == s[i..i + |m|];
      assert s[..i + |m|] == r[..i + |m|];
    } else if i + |m| <= |s| {
      assert s[..i + |m|][|r|] == '\U{00FF}';
    }
  }

  // In an ASCII file, every occurrence.
  lemma AsciiReadable(s: Text)
    requires forall i :: 0 <= i < |s| ==> s[i] as int < 128
    ensures Readable(s) == s
  {}

  lemma MarkerMissed()
    ensures OccursAt(['\U{00FF}', '#'], "#", 1) && Readable(['\U{00FF}', '#']) == ""
  {}

  // ---- byte arrays as big-endian numbers

  function BitValue(b: bool): nat
  {
    if b then 1 else 0
  }

  function Value(w: Word): nat
  {
    if w == [] then 0 else BitValue(w[0]) + 2 * Value(w[1..])
  }

  function Pow256(n: nat): (p: nat)
    ensures p > 0
  {
    if n == 0 then 1 else 256 * Pow256(n - 1)
  }

  function Big(a: seq<Byte>): nat
  {
    if a == [] then 0 else 256 * Big(a[..|a| - 1]) + Value(a[|a| - 1])
  }

  type Nibble = w: Word | |w| == 4 witness Zero(4)

  lemma FirstBit(b: bool, w: Word)
    ensures Value([b] + w) == BitValue(b) + 2 * Value(w)
  {
    assert ([b] + w)[1..] == w;
  }

  lemma FourBits(low: Nibble, w: Word)
    ensures Value(low + w)
      == BitValue(low[0]) + 2 * BitValue(low[1]) + 4 * BitValue(low[2]) + 8 * BitValue(low[3]) + 16 * Value(w)
  {
    hide Value;
    var w3 := [low[3]] + w;
    var w2 := [low[2]] + w3;
    var w1 := [low[1]] + w2;
    FirstBit(low[3], w);
    FirstBit(low[2], w3);
    FirstBit(low[1], w2);
    FirstBit(low[0], w1);
    assert low + w == [low[0]] + w1;
  }

  lemma Nibbles(low: Nibble, high: Nibble)
    ensures Value(low + high) == Value(low) + 16 * Value(high) < 256
    ensures Value(low) < 16 && Value(high) < 16
  {
    assert low + [] == low && high + [] == high && Value([]) == 0;
    hide Value;
    FourBits(low, high);
    FourBits(low, []);
    FourBits(high, []);
  }

  // Every byte shifted left by four bits, each taking in the high half of the next, and the last one d.
  function ShiftIn(a: seq<Byte>, d: Nibble): (b: seq<Byte>)
    ensures |b| == |a|
  {
    seq(|a|, i requires 0 <= i < |a| => (if i + 1 < |a| then a[i + 1][4..] else d) + a[i][..4])
  }

  // What falls off on the left.
  function Carry(a: seq<Byte>, d: Nibble): Nibble
  {
    if a == [] then d else a[0][4..]
  }

  lemma {:induction false} ShiftInValue(a: seq<Byte>, d: Nibble)
    ensures Big(ShiftIn(a, d)) + Pow256(|a|) * Value(Carry(a, d)) == 16 * Big(a) + Value(d)
  {
    hide Value;
    if a != [] {
      var n := |a| - 1;
      var front, last := a[..n], a[n];
      ShiftInValue(front, last[4..]);
      LastShifted(a, d);
      LastByteValue(ShiftIn(front, last[4..]), d + last[..4]);
      Nibbles(d, last[..4]);
      Nibbles(last[..4], last[4..]);
      assert last == last[..4] + last[4..];
      TimesPower(Pow256(n), Value(Carry(a, d)));
    }
  }

  lemma LastShifted(a: seq<Byte>, d: Nibble)
    requires a != []
    ensures var front, last := a[..|a| - 1], a[|a| - 1];
      && ShiftIn(a, d) == ShiftIn(front, last[4..]) + [d + last[..4]]
      && Carry(a, d) == Carry(front, last[4..])
  {}

  lemma LastByteValue(a: seq<Byte>, b: Byte)
    ensures Big(a + [b]) == 256 * Big(a) + Value(b)
  {
    assert (a + [b])[..|a|] == a;
  }

  lemma TimesPower(p: nat, c: nat)
    ensures 256 * p * c == 256 * (p * c)
  {}

  lemma {:induction false} BigBound(a: seq<Byte>)
    ensures Big(a) < Pow256(|a|)
  {
    hide Value;
    if a != [] {
      var last := a[|a| - 1];
      BigBound(a[..|a| - 1]);
      Nibbles(last[..4], last[4..]);
      assert last == last[..4] + last[4..];
    }
  }

  lemma ShiftedModulo(a: seq<Byte>, d: Nibble, acc: nat)
    requires Big(a) == acc % Pow256(|a|)
    ensures Big(ShiftIn(a, d)) == (16 * acc + Value(d)) % Pow256(|a|)
  {
    hide Big, ShiftIn, Pow256, Value;
    BigBound(ShiftIn(a, d));
    ShiftInValue(a, d);
    Remainder(acc, Pow256(|a|), Big(a), Value(d), Value(Carry(a, d)), Big(ShiftIn(a, d)));
  }

  lemma Remainder(x: nat, p: nat, b: nat, v: nat, c: nat, s: nat)
    requires s < p && b == x % p && s + p * c == 16 * b + v
    ensures s == (16 * x + v) % p
  {
    var q := x / p;
    assert x == q * p + b;
    Distribute(p, q, c);
    QuotientIs(16 * x + v, p, 16 * q + c, s);
  }

  lemma Distribute(p: nat, q: nat, c: nat)
    ensures (16 * q + c) * p == 16 * (q * p) + p * c
  {}

  // ---- hexadecimal digits

  // Two neighbouring bytes give the shifted one.
  lemma NibbleMoved(a: Byte, b: Byte)
    ensures Or(Shl(a, 4), Shr(b, 4)) == b[4..] + a[..4]
  {}

  lemma NibbleAdded(a: Byte, d: Nibble)
    ensures Or(Shl(a, 4), d + Zero(4)) == d + a[..4]
  {}

  function NibbleOf(d: nat): (w: Nibble)
    requires d < 16
  {
    [d % 2 == 1, d / 2 % 2 == 1, d / 4 % 2 == 1, d / 8 == 1]
  }

  lemma DigitBits(d: nat)
    requires d < 16
    ensures Uint8(d) == NibbleOf(d) + Zero(4)
  {
    hide BitsOf, NibbleOf;
    NextDigit(d, 7);
    NextDigit(d / 2, 6);
    NextDigit(d / 4, 5);
    NextDigit(d / 8, 4);
    NoBits(4);
    SplitDigit(d);
  }

  lemma SplitDigit(d: nat)
    requires d < 16
    ensures [d % 2 == 1] + ([d / 2 % 2 == 1] + ([d / 4 % 2 == 1] + ([d / 8 % 2 == 1] + Zero(4))))
      == NibbleOf(d) + Zero(4)
  {}

  lemma NextDigit(n: nat, w: nat)
    ensures BitsOf(n, w + 1) == [n % 2 == 1] + BitsOf(n / 2, w)
  {}

  lemma NibbleValue(d: nat)
    requires d < 16
    ensures Value(NibbleOf(d)) == d
  {
    assert Value([]) == 0;
    hide Value;
    assert NibbleOf(d) + [] == NibbleOf(d);
    FourBits(NibbleOf(d), []);
    BinaryDigits(d);
  }

  lemma BinaryDigits(d: nat)
    requires d < 16
    ensures d
      == BitValue(d % 2 == 1) + 2 * BitValue(d / 2 % 2 == 1) + 4 * BitValue(d / 4 % 2 == 1) + 8 * BitValue(d / 8 == 1)
  {}

  /** One hexadecimal digit into the array. */
  method ShiftDigit(A: array<Byte>, length: nat, ich: Byte, ghost d: Nibble)
    requires 0 < length <= A.Length && ich == d + Zero(4)
    modifies A
    ensures A[..length] == ShiftIn(old(A[..length]), d) && A[length..] == old(A[length..])
  {
    hide Or, Shl, Shr;
    ghost var a := A[..length];
    for i := 0 to length - 1
      invariant forall k :: 0 <= k < i ==> A[k] == ShiftIn(a, d)[k]
      invariant forall k :: i <= k < length ==> A[k] == a[k]
      invariant A[length..] == old(A[length..])
    {
      NibbleMoved(A[i], A[i + 1]);
      A[i] := Or(Shl(A[i], 4), Shr(A[i + 1], 4));
    }
    NibbleAdded(A[length - 1], d);
    A[length - 1] := Or(Shl(A[length - 1], 4), ich);
  }

  // ---- the field after a marker

  predicate IsHex(c: char)
  {
    DigitOf(c, 16) >= 0
  }

  // What is left when everything in front of the first digit or the end of the line is skipped.
  function Skip(s: Text): Text
  {
    if s == [] || IsHex(s[0]) || s[0] == '\n' then s else Skip(s[1..])
  }

  // The number of characters read from a run of digits on.
  function RunLength(s: Text): (n: nat)
    ensures n <= |s|
  {
    if s == [] then 0 else if IsHex(s[0]) then 1 + RunLength(s[1..]) else 1
  }

  function FieldLength(s: Text): (n: nat)
    ensures n <= |s|
  {
    if s == [] || IsHex(s[0]) || s[0] == '\n' then RunLength(s) else 1 + FieldLength(s[1..])
  }

  function FieldValue(s: Text): nat
  {
    Magnitude(Skip(s), 16, 0)
  }

  // What the loop will have read and the number it will have when it stops.
  ghost predicate Reading(s: Text, p: nat, pos: nat, started: bool, acc: nat)
  {
    && p <= pos <= |s|
    && (!started ==> acc == 0)
    && FieldValue(s[p..]) == (if started then Magnitude(s[pos..], 16, acc) else FieldValue(s[pos..]))
    && FieldLength(s[p..]) == pos - p + (if started then RunLength(s[pos..]) else FieldLength(s[pos..]))
  }

  lemma AtEnd(s: Text, p: nat, started: bool, acc: nat)
    requires Reading(s, p, |s|, started, acc)
    ensures FieldValue(s[p..]) == acc && FieldLength(s[p..]) == |s| - p
  {}

  lemma AtNonDigit(s: Text, p: nat, pos: nat, started: bool, acc: nat)
    requires Reading(s, p, pos, started, acc) && pos < |s| && !IsHex(s[pos])
    ensures started || s[pos] == '\n' ==> FieldValue(s[p..]) == acc && FieldLength(s[p..]) == pos + 1 - p
    ensures !started && s[pos] != '\n' ==> Reading(s, p, pos + 1, false, acc)
  {
    assert s[pos..][1..] == s[pos + 1..];
  }

  lemma AtDigit(s: Text, p: nat, pos: nat, started: bool, acc: nat)
    requires Reading(s, p, pos, started, acc) && pos < |s| && IsHex(s[pos])
    ensures DigitOf(s[pos], 16) >= 0
    ensures Reading(s, p, pos + 1, true, 16 * acc + DigitOf(s[pos], 16))
  {
    assert s[pos..][1..] == s[pos + 1..];
  }

  // The array holds the last digits of acc in base 256.
  ghost predicate Holding(A: array<Byte>, length: nat, acc: nat)
    reads A
    requires length <= A.Length
  {
    Big(A[..length]) == acc % Pow256(length)
  }

  method TakeDigit(A: array<Byte>, length: nat, ch: char, ghost acc: nat)
    requires 0 < length <= A.Length && IsHex(ch) && Holding(A, length, acc)
    modifies A
    ensures Holding(A, length, 16 * acc + DigitOf(ch, 16)) && A[length..] == old(A[length..])
  {
    hide Big, Pow256, ShiftIn, Value, NibbleOf, BitsOf, DigitOf;
    var ich := DigitByte(ch);
    ghost var d := DigitOf(ch, 16);
    DigitBits(d);
    NibbleValue(d);
    ShiftedModulo(A[..length], NibbleOf(d), acc);
    ShiftDigit(A, length, ich, NibbleOf(d));
  }

  method ReadField(infile: File, A: array<Byte>, length: nat)
    requires infile.Valid() && 0 < length <= A.Length
    requires A[..length] == ZeroFill(length)
    modifies infile`pos, A
    ensures infile.Valid()
    ensures var rest := infile.text[old(infile.pos)..];
      && Big(A[..length]) == FieldValue(rest) % Pow256(length)
      && infile.pos == old(infile.pos) + FieldLength(rest)
    ensures A[length..] == old(A[length..])
  {
    hide Big, Pow256, ShiftIn, Value, Reading, FieldValue, FieldLength, IsHex, DigitOf;
    var started := false;
    ghost var p: nat, acc: nat := infile.pos, 0;
    NothingRead(infile.text, p);
    ZerosValue(A[..length]);
    while true
      invariant infile.Valid() && Reading(infile.text, p, infile.pos, started, acc)
      invariant Holding(A, length, acc)
      invariant A[length..] == old(A[length..])
      decreases |infile.text| - infile.pos
    {
      ghost var pos := infile.pos;
      var c := infile.Fgetc();
      if c == EOF {
        AtEnd(infile.text, p, started, acc);
        break;
      }
      var ch := c as char;
      if !IsHex(ch) {
        AtNonDigit(infile.text, p, pos, started, acc);
        if !started {
          if ch == '\n' {
            break;
          } else {
            continue;
          }
        } else {
          break;
        }
      }
      AtDigit(infile.text, p, pos, started, acc);
      started := true;
      TakeDigit(A, length, ch, acc);
      acc := 16 * acc + DigitOf(ch, 16);
    }
  }

  lemma NothingRead(s: Text, p: nat)
    requires p <= |s|
    ensures Reading(s, p, p, false, 0)
  {}

  lemma {:induction false} ZerosValue(a: seq<Byte>)
    requires forall i :: 0 <= i < |a| ==> a[i] == Zero(8)
    ensures Big(a) == 0 % Pow256(|a|) == 0
  {
    if a != [] {
      ZerosValue(a[..|a| - 1]);
      assert Zero(8) == Zero(4) + Zero(4);
      NibbleValue(0);
      hide Value;
      LowZeros(4, 0, 4);
      Nibbles(Zero(4), Zero(4));
      assert a[|a| - 1] == Zero(8);
    }
  }

  function DigitByte(ch: char): (ich: Byte)
    requires IsHex(ch)
    ensures ich == Uint8(DigitOf(ch, 16))
  {
    if '0' <= ch <= '9' then Uint8(ch as int - '0' as int)
    else if 'A' <= ch <= 'F' then Uint8(ch as int - 'A' as int + 10)
    else Uint8(ch as int - 'a' as int + 10)
  }

  // The marker's first occurrence from p on is at q, and the field behind it is in the array.
  ghost predicate FieldRead(text: Text, p: nat, marker: Text, q: nat, a: seq<Byte>, pos: nat)
    requires p <= |text|
  {
    var m := Sought(marker);
    && FirstAt(Readable(text[p..]), m, q)
    && p + q + |m| <= |text|
    && var rest := text[p + q + |m|..];
    && Big(a) == FieldValue(rest) % Pow256(|a|)
    && pos == p + q + |m| + FieldLength(rest)
  }

  // What is left in an array of that length: the field, or zeros where there is no marker.
  ghost predicate Gives(text: Text, p: nat, marker: Text, a: seq<Byte>)
    requires p <= |text|
  {
    if exists q: nat :: OccursAt(Readable(text[p..]), Sought(marker), q)
    then exists q: nat, pos: nat :: FieldRead(text, p, marker, q, a, pos)
    else a == ZeroFill(|a|)
  }

  lemma NothingGiven(text: Text, p: nat, marker: Text, a: seq<Byte>)
    requires p <= |text| && a == ZeroFill(|a|)
    requires !exists q: nat :: OccursAt(Readable(text[p..]), Sought(marker), q)
    ensures Gives(text, p, marker, a)
  {
    hide OccursAt, Readable, FieldRead, Zero;
  }

  // The first bytes of an array cleared
  method Memset(A: array<Byte>, length: nat)
    requires length <= A.Length
    modifies A
    ensures A[..length] == ZeroFill(length) && A[length..] == old(A[length..])
  {
    for i := 0 to length
      invariant forall k :: 0 <= k < i ==> A[k] == Zero(8)
      invariant A[length..] == old(A[length..])
    {
      A[i] := Zero(8);
    }
  }

  /** ReadHex */
  method ReadHex(infile: File, A: array<Byte>, length: nat, str: Text) returns (ret: int)
    requires infile.Valid() && length <= A.Length && 0 < A.Length
    modifies infile`pos, A
    ensures infile.Valid() && (ret == 0 || ret == 1)
    ensures length == 0 ==> ret == 1 && infile.pos == old(infile.pos) && A[..] == old(A[..])[0 := Zero(8)]
    ensures length > 0 ==>
      (ret == 1 <==> exists q: nat :: OccursAt(Readable(infile.text[old(infile.pos)..]), Sought(str), q))
    ensures length > 0 && ret == 1 ==>
      exists q: nat :: FieldRead(infile.text, old(infile.pos), str, q, A[..length], infile.pos)
    ensures length > 0 ==> Gives(infile.text, old(infile.pos), str, A[..length])
    ensures ret == 0 ==> A[..length] == ZeroFill(length) && infile.pos == StopsAt(infile.text, old(infile.pos))
    ensures length > 0 ==> A[length..] == old(A[length..])
  {
    hide Big, Pow256, FieldValue, FieldLength, StopsAt, Readable, OccursAt, Zero;
    if length == 0 {
      A[0] := Zero(8);
      return 1;
    }
    Memset(A, length);
    var found := FindMarker(infile, str);
    if found {
      ghost var q := infile.pos - old(infile.pos) - |Sought(str)|;
      ReadField(infile, A, length);
      assert FieldRead(infile.text, old(infile.pos), str, q, A[..length], infile.pos);
      return 1;
    } else {
      NothingGiven(infile.text, old(infile.pos), str, A[..length]);
      return 0;
    }
  }

  // ---- printing

  // Two upper-case digits, the high one first
  function Hex2(b: Byte): (s: Text)
    ensures |s| == 2
  {
    Nibbles(b[..4], b[4..]);
    [DigitChar(Value(b[4..]), 'A'), DigitChar(Value(b[..4]), 'A')]
  }

  function HexText(a: seq<Byte>): (s: Text)
    ensures |s| == 2 * |a|
  {
    if a == [] then [] else HexText(a[..|a| - 1]) + Hex2(a[|a| - 1])
  }

  /** fprintBstr */
  method FprintBstr(fp: File, S: Text, A: array<Byte>, L: nat)
    requires fp.Valid() && fp.pos == |fp.text| && L <= A.Length
    modifies fp
    ensures fp.Valid() && fp.pos == |fp.text|
    ensures fp.text == old(fp.text) + S + (if L == 0 then "00" else HexText(A[..L])) + "\n"
  {
    hide Hex2;
    fp.Fprint(S);
    ghost var before := fp.text;
    for i := 0 to L
      invariant fp.Valid() && fp.pos == |fp.text| && fp.text == before + HexText(A[..i])
    {
      fp.Fprint(Hex2(A[i]));
      assert A[..i + 1][..i] == A[..i];
    }
    if L == 0 {
      fp.Fprint("00");
    }
    fp.Fprint("\n");
  }

  // Two digits are read as the byte they were printed from.
  lemma Hex2Read(b: Byte, tail: Text, acc: nat)
    ensures Magnitude(Hex2(b) + tail, 16, acc) == Magnitude(tail, 16, 256 * acc + Value(b))
    ensures RunLength(Hex2(b) + tail) == 2 + RunLength(tail)
    ensures Skip(Hex2(b) + tail) == Hex2(b) + tail
  {
    var low, high := Value(b[..4]), Value(b[4..]);
    Nibbles(b[..4], b[4..]);
    assert b == b[..4] + b[4..];
    var h, l := DigitChar(high, 'A'), DigitChar(low, 'A');
    DigitRead(high, 16, 'A');
    DigitRead(low, 16, 'A');
    assert Hex2(b) + tail == [h] + ([l] + tail);
    assert ([h] + ([l] + tail))[1..] == [l] + tail;
    assert ([l] + tail)[1..] == tail;
    hide DigitChar, DigitOf, Value;
    OneDigit(h, [l] + tail, 16, acc);
    OneDigit(l, tail, 16, 16 * acc + high);
  }

  // x behind acc, where x takes the room of p.
  function Behind(p: nat, acc: nat, x: nat): nat
  {
    p * acc + x
  }

  lemma BehindNothing(p: nat, x: nat)
    ensures Behind(p, 0, x) == x
  {}

  lemma AloneBehind(acc: nat)
    ensures Behind(1, acc, 0) == acc
  {}

  lemma BehindByte(p: nat, acc: nat, x: nat, v: nat)
    ensures 256 * Behind(p, acc, x) + v == Behind(256 * p, acc, 256 * x + v)
  {
    TimesPower(p, acc);
  }

  lemma {:induction false} HexTextRead(a: seq<Byte>, tail: Text, acc: nat)
    ensures Magnitude(HexText(a) + tail, 16, acc) == Magnitude(tail, 16, Behind(Pow256(|a|), acc, Big(a)))
    ensures RunLength(HexText(a) + tail) == 2 * |a| + RunLength(tail)
    ensures a != [] ==> Skip(HexText(a) + tail) == HexText(a) + tail
  {
    hide Hex2, Magnitude, Value, Behind;
    if a == [] {
      assert HexText(a) + tail == tail;
      AloneBehind(acc);
    } else {
      var front, last := a[..|a| - 1], a[|a| - 1];
      assert HexText(a) + tail == HexText(front) + (Hex2(last) + tail);
      HexTextRead(front, Hex2(last) + tail, acc);
      Hex2Read(last, tail, Behind(Pow256(|front|), acc, Big(front)));
      BehindByte(Pow256(|front|), acc, Big(front), Value(last));
      if front == [] {
        assert HexText(front) + (Hex2(last) + tail) == Hex2(last) + tail;
        Hex2Read(last, tail, 0);
      }
    }
  }

  /** The digits that are printed for an array are the field that is read back, up to the end of the line. */
  lemma PrintedField(a: seq<Byte>, after: Text)
    requires a != []
    ensures FieldValue(HexText(a) + "\n" + after) % Pow256(|a|) == Big(a)
    ensures FieldLength(HexText(a) + "\n" + after) == 2 * |a| + 1
  {
    hide Hex2, Value, HexText;
    var tail: Text := "\n" + after;
    assert HexText(a) + "\n" + after == HexText(a) + tail;
    HexTextRead(a, tail, 0);
    BehindNothing(Pow256(|a|), Big(a));
    BigBound(a);
    StartsWithDigit(HexText(a) + tail);
    Small(Big(a), Pow256(|a|));
  }

  lemma StartsWithDigit(s: Text)
    requires Skip(s) == s && RunLength(s) > 1
    ensures FieldLength(s) == RunLength(s)
  {}

  lemma Small(x: nat, p: nat)
    requires x < p
    ensures x % p == x
  {}

  lemma {:induction false} BigInjective(a: seq<Byte>, b: seq<Byte>)
    requires |a| == |b| && Big(a) == Big(b)
    ensures a == b
  {
    if a != [] {
      var n := |a| - 1;
      ByteValue(a[n], b[n]);
      BigInjective(a[..n], b[..n]);
      assert a == a[..n] + [a[n]] && b == b[..n] + [b[n]];
    }
  }

  // The value of a byte is less than 256 and tells the byte.
  lemma ByteValue(a: Byte, b: Byte)
    ensures Value(a) < 256 && Value(b) < 256
    ensures Value(a) == Value(b) ==> a == b
  {
    hide Value;
    Nibbles(a[..4], a[4..]);
    Nibbles(b[..4], b[4..]);
    assert a == a[..4] + a[4..] && b == b[..4] + b[4..];
    if Value(a) == Value(b) {
      NibbleInjective(a[..4], b[..4]);
      NibbleInjective(a[4..], b[4..]);
    }
  }

  lemma NibbleInjective(a: Nibble, b: Nibble)
    requires Value(a) == Value(b)
    ensures a == b
  {
    assert a + [] == a && b + [] == b;
    hide Value;
    FourBits(a, []);
    FourBits(b, []);
  }
}
