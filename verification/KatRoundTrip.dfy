/** fprintBstr and ReadHex against each other: which markers bring every array back. */
module KatRoundTrip {
  import opened Words
  import opened Numerals
  import opened GenKat
  import opened Arithmetic
  import opened BitStrings

  // What stands behind the marker on the line of an array, and after it.
  function FieldText(a: seq<Byte>, after: Text): (s: Text)
    ensures |s| == 2 * |a| + 1 + |after|
  {
    HexText(a) + "\n" + after
  }

  // The line of an array, with whatever stands before and after it.
  function Line(before: Text, marker: Text, a: seq<Byte>, after: Text): (text: Text)
    ensures |text| == |before| + |marker| + 2 * |a| + 1 + |after|
  {
    before + marker + FieldText(a, after)
  }

  // The part of the marker that is not looked for, and so is read as part of the field.
  function CutOff(marker: Text): Text
  {
    marker[|Sought(marker)|..]
  }

  predicate AllHex(s: Text)
  {
    forall i :: 0 <= i < |s| ==> IsHex(s[i])
  }

  // What a caller can see of the marker: it can be found, and behind its 49th character nothing ends the field.
  predicate Restores(marker: Text)
  {
    '\U{00FF}' !in Sought(marker) && AllHex(Skip(CutOff(marker)))
  }

  // Up to 49 characters, a marker only has to be found.
  lemma ShortMarker(marker: Text)
    requires |marker| < MAX_MARKER_LEN
    ensures Restores(marker) <==> '\U{00FF}' !in marker
  {}

  // ---- the field behind t is t followed by w

  lemma {:induction false} SkipOn(t: Text, w: Text)
    ensures Skip(t) == [] ==> FieldValue(t + w) == FieldValue(w) && FieldLength(t + w) == |t| + FieldLength(w)
    ensures Skip(t) != [] ==> FieldValue(t + w) == Magnitude(Skip(t) + w, 16, 0)
    ensures Skip(t) != [] && IsHex(Skip(t)[0]) ==> FieldLength(t + w) == |t| - |Skip(t)| + RunLength(Skip(t) + w)
    ensures |Skip(t)| <= |t|
  {
    hide IsHex, Magnitude, RunLength;
    if t == [] {
      assert t + w == w;
    } else if IsHex(t[0]) || t[0] == '\n' {
      assert Skip(t) == t && Skip(t + w) == t + w;
    } else {
      assert (t + w)[1..] == t[1..] + w;
      SkipOn(t[1..], w);
    }
  }

  lemma {:induction false} RunThrough(h: Text, w: Text, acc: nat)
    requires AllHex(h)
    ensures Magnitude(h + w, 16, acc) == Magnitude(w, 16, Magnitude(h, 16, acc))
    ensures RunLength(h + w) == |h| + RunLength(w)
    decreases |h|
  {
    if h == [] {
      assert h + w == w;
    } else {
      assert (h + w)[1..] == h[1..] + w;
      RunThrough(h[1..], w, 16 * acc + DigitOf(h[0], 16));
    }
  }

  // A run that ends within h does not see what comes after.
  lemma {:induction false} RunEnds(h: Text, w: Text, acc: nat)
    requires !AllHex(h)
    ensures Magnitude(h + w, 16, acc) == Magnitude(h, 16, acc)
    decreases |h|
  {
    if IsHex(h[0]) {
      assert (h + w)[1..] == h[1..] + w;
      assert !AllHex(h[1..]) by {
        var i :| 0 <= i < |h| && !IsHex(h[i]);
        assert h[i] == h[1..][i - 1];
      }
      RunEnds(h[1..], w, 16 * acc + DigitOf(h[0], 16));
    }
  }

  lemma BehindMultiple(p: nat, k: nat, x: nat)
    requires x < p
    ensures Behind(p, k, x) % p == x
  {
    RemainderOfMultiple(k, p, x);
  }

  // Digits in front of the array fall off on the left.
  lemma FieldBehind(t: Text, a: seq<Byte>, after: Text)
    requires a != [] && AllHex(Skip(t))
    ensures var rest := t + FieldText(a, after);
      FieldValue(rest) % Pow256(|a|) == Big(a) && FieldLength(rest) == |t| + 2 * |a| + 1
  {
    hide Big, Pow256, HexText, IsHex, FieldValue, FieldLength, Magnitude, AllHex, Skip, RunLength, Behind;
    SkipOn(t, FieldText(a, after));
    PrintedField(a, after);
    if Skip(t) != [] {
      FirstHex(Skip(t));
      RunBehind(Skip(t), a, after);
      BigBound(a);
      BehindMultiple(Pow256(|a|), Magnitude(Skip(t), 16, 0), Big(a));
    }
  }

  lemma FirstHex(h: Text)
    requires h != [] && AllHex(h)
    ensures IsHex(h[0])
  {}

  lemma RunBehind(h: Text, a: seq<Byte>, after: Text)
    requires AllHex(h)
    ensures var rest := h + FieldText(a, after);
      && Magnitude(rest, 16, 0) == Behind(Pow256(|a|), Magnitude(h, 16, 0), Big(a))
      && RunLength(rest) == |h| + 2 * |a| + 1
  {
    hide Big, Pow256, HexText, IsHex, Magnitude, RunLength, AllHex, Behind;
    var acc := Magnitude(h, 16, 0);
    var tail: Text := "\n" + after;
    RunThrough(h, FieldText(a, after), 0);
    assert FieldText(a, after) == HexText(a) + tail;
    HexTextRead(a, tail, acc);
    LineEnds(tail, Behind(Pow256(|a|), acc, Big(a)));
  }

  lemma LineEnds(tail: Text, acc: nat)
    requires tail != [] && tail[0] == '\n'
    ensures Magnitude(tail, 16, acc) == acc && RunLength(tail) == 1
  {}

  // ---- the marker is found where it was printed

  lemma MarkerFound(marker: Text, rest: Text)
    requires '\U{00FF}' !in Sought(marker)
    ensures FirstAt(Readable(marker + rest), Sought(marker), 0)
  {
    var m := Sought(marker);
    assert (marker + rest)[..|m|] == m && (marker + rest)[0..0 + |m|] == m;
    SeenWhenReadable(marker + rest, m, 0);
  }

  lemma MarkerNotFound(marker: Text, rest: Text, q: nat)
    requires '\U{00FF}' in Sought(marker)
    ensures !OccursAt(Readable(rest), Sought(marker), q)
  {
    var r, m := Readable(rest), Sought(marker);
    var k :| 0 <= k < |m| && m[k] == '\U{00FF}';
    assert q + |m| <= |r| ==> r[q..q + |m|][k] == r[q + k] != '\U{00FF}';
  }

  lemma AfterMarker(before: Text, marker: Text, a: seq<Byte>, after: Text)
    ensures var text := Line(before, marker, a, after);
      && text[|before|..] == marker + FieldText(a, after)
      && text[|before| + |Sought(marker)|..] == CutOff(marker) + FieldText(a, after)
  {
    hide FieldText;
    var text := Line(before, marker, a, after);
    assert text == before + (marker + FieldText(a, after));
    assert marker == Sought(marker) + CutOff(marker);
    assert text == (before + Sought(marker)) + (CutOff(marker) + FieldText(a, after));
  }

  lemma OnlyFirst(s: Text, m: Text, q: nat)
    requires FirstAt(s, m, 0) && FirstAt(s, m, q)
    ensures q == 0
  {}

  // The field is read from the rest of the marker on.
  lemma FieldIs(before: Text, marker: Text, a: seq<Byte>, after: Text, q: nat, b: seq<Byte>, pos: nat)
    requires '\U{00FF}' !in Sought(marker)
    requires FieldRead(Line(before, marker, a, after), |before|, marker, q, b, pos)
    ensures var rest := CutOff(marker) + FieldText(a, after);
      Big(b) == FieldValue(rest) % Pow256(|b|) && pos == |before| + |Sought(marker)| + FieldLength(rest)
  {
    hide Big, Pow256, FieldValue, FieldLength, FieldText, Readable, Line, OccursAt, FirstAt;
    AfterMarker(before, marker, a, after);
    MarkerFound(marker, FieldText(a, after));
    OnlyFirst(Readable(marker + FieldText(a, after)), Sought(marker), q);
  }

  /** Reading what was printed restores the array and leaves the file behind the line. */
  lemma ReadBack(before: Text, marker: Text, a: seq<Byte>, after: Text, q: nat, b: seq<Byte>, pos: nat)
    requires a != [] && |b| == |a| && Restores(marker)
    requires FieldRead(Line(before, marker, a, after), |before|, marker, q, b, pos)
    ensures b == a && pos == |before| + |marker| + 2 * |a| + 1
  {
    hide Big, Pow256, FieldValue, FieldLength, FieldText, FieldRead, Line, AllHex, Skip;
    FieldIs(before, marker, a, after, q, b, pos);
    FieldBehind(CutOff(marker), a, after);
    BigInjective(a, b);
  }

  // With such a marker the file gives the array back.
  lemma Restored(before: Text, marker: Text, a: seq<Byte>, after: Text)
    requires a != [] && Restores(marker)
    ensures Gives(Line(before, marker, a, after), |before|, marker, a)
  {
    hide Big, Pow256, FieldValue, FieldLength, FieldText, Readable, Line, AllHex, Skip, OccursAt;
    var text := Line(before, marker, a, after);
    AfterMarker(before, marker, a, after);
    MarkerFound(marker, FieldText(a, after));
    FieldBehind(CutOff(marker), a, after);
    assert OccursAt(Readable(text[|before|..]), Sought(marker), 0);
    var pos := |before| + |marker| + 2 * |a| + 1;
    assert FieldRead(text, |before|, marker, 0, a, pos);
  }

  // ---- with any other marker two arrays cannot both come back

  // The array whose number is d.
  function Ending(n: nat, d: bool): (a: seq<Byte>)
    requires n > 0
    ensures |a| == n
  {
    ZeroFill(n - 1) + [if d then One(8) else Zero(8)]
  }

  lemma EndingValue(n: nat, d: bool)
    requires n > 0
    ensures Big(Ending(n, d)) == if d then 1 else 0
    ensures d ==> Ending(n, d) != ZeroFill(n)
  {
    ZerosValue(ZeroFill(n - 1));
    assert One(8) == [true] + Zero(7);
    FirstBit(true, Zero(7));
    NoValue(7);
    NoValue(8);
    hide Big, Value;
    LastByteValue(ZeroFill(n - 1), if d then One(8) else Zero(8));
    ZerosValue(ZeroFill(n));
  }

  lemma {:induction false} NoValue(n: nat)
    ensures Value(Zero(n)) == 0
  {
    if n > 0 {
      NoValue(n - 1);
      assert Zero(n)[1..] == Zero(n - 1);
    }
  }

  // The number in front of the array ends the field.
  lemma SameField(before: Text, marker: Text, a: seq<Byte>, after: Text)
    requires '\U{00FF}' !in Sought(marker) && !AllHex(Skip(CutOff(marker)))
    ensures Gives(Line(before, marker, a, after), |before|, marker, a) ==>
      Big(a) == Magnitude(Skip(CutOff(marker)), 16, 0) % Pow256(|a|)
  {
    hide Big, Pow256, FieldValue, FieldLength, FieldRead, Line, AllHex, Skip, Magnitude;
    hide OccursAt, FieldText, Readable, FirstAt;
    if Gives(Line(before, marker, a, after), |before|, marker, a) {
      FoundOnLine(before, marker, a, after);
      var q: nat, pos: nat :| FieldRead(Line(before, marker, a, after), |before|, marker, q, a, pos);
      FieldIs(before, marker, a, after, q, a, pos);
      SkipOn(CutOff(marker), FieldText(a, after));
      NotAllHex(Skip(CutOff(marker)));
      RunEnds(Skip(CutOff(marker)), FieldText(a, after), 0);
    }
  }

  lemma NotAllHex(h: Text)
    requires !AllHex(h)
    ensures h != []
  {}

  lemma FoundOnLine(before: Text, marker: Text, a: seq<Byte>, after: Text)
    requires '\U{00FF}' !in Sought(marker)
    ensures OccursAt(Readable(Line(before, marker, a, after)[|before|..]), Sought(marker), 0)
  {
    hide OccursAt, FieldText, Line, Readable;
    AfterMarker(before, marker, a, after);
    MarkerFound(marker, FieldText(a, after));
  }

  // Neither zeros nor a one at the end comes back as it was.
  lemma NotBoth(before: Text, marker: Text, n: nat, after: Text)
    requires n > 0 && !Restores(marker)
    ensures !(Gives(Line(before, marker, Ending(n, false), after), |before|, marker, Ending(n, false))
              && Gives(Line(before, marker, Ending(n, true), after), |before|, marker, Ending(n, true)))
  {
    hide Big, Pow256, HexText, Readable, Line, AllHex, Skip, Magnitude, Ending, ZeroFill, OccursAt, FieldRead;
    var a0, a1 := Ending(n, false), Ending(n, true);
    EndingValue(n, false);
    EndingValue(n, true);
    if '\U{00FF}' in Sought(marker) {
      NoField(before, marker, a1, after);
    } else if Gives(Line(before, marker, a0, after), |before|, marker, a0)
              && Gives(Line(before, marker, a1, after), |before|, marker, a1) {
      SameField(before, marker, a0, after);
      SameField(before, marker, a1, after);
    }
  }

  lemma NoField(before: Text, marker: Text, a: seq<Byte>, after: Text)
    requires '\U{00FF}' in Sought(marker) && a != ZeroFill(|a|)
    ensures !Gives(Line(before, marker, a, after), |before|, marker, a)
  {
    hide HexText, Readable, OccursAt, FieldRead;
    var text := Line(before, marker, a, after);
    forall q: nat ensures !OccursAt(Readable(text[|before|..]), Sought(marker), q) {
      MarkerNotFound(marker, text[|before|..], q);
    }
  }

  /** Every array of a length comes back, whatever stands around its line, exactly with a marker that restores. */
  lemma RoundTripExact(before: Text, marker: Text, n: nat, after: Text)
    requires n > 0
    ensures (forall a: seq<Byte> | |a| == n :: Gives(Line(before, marker, a, after), |before|, marker, a))
      <==> Restores(marker)
  {
    hide Gives, Line, Restores, Ending;
    if Restores(marker) {
      forall a: seq<Byte> | |a| == n ensures Gives(Line(before, marker, a, after), |before|, marker, a) {
        Restored(before, marker, a, after);
      }
    } else {
      NotBoth(before, marker, n, after);
    }
  }

  // A marker of 51 characters that ends in a one and a blank: a zero is read as a one.
  lemma LongMarkerMisread()
    ensures var marker: Text := seq(49, _ => '#') + "1 ";
      !Restores(marker) && !Gives(Line("", marker, [Zero(8)], ""), 0, marker, [Zero(8)])
  {
    var marker: Text := seq(49, _ => '#') + "1 ";
    assert CutOff(marker) == "1 " && Skip("1 ") == "1 ";
    assert !IsHex("1 "[1]) && '\U{00FF}' !in Sought(marker);
    assert Magnitude("1 ", 16, 0) == 1 by {
      assert "1 "[1..] == " ";
    }
    EndingValue(1, false);
    assert Ending(1, false) == [Zero(8)] && Pow256(1) == 256;
    hide Magnitude, Big, HexText, Gives, Line;
    if Gives(Line("", marker, [Zero(8)], ""), 0, marker, [Zero(8)]) {
      SameField("", marker, [Zero(8)], "");
    }
  }

  /** A field appended to a file and read from there. */
  method PrintAndRead(fp: File, S: Text, A: array<Byte>, L: nat, B: array<Byte>)
    requires fp.Valid() && fp.pos == |fp.text| && 0 < L <= A.Length && L <= B.Length && A != B
    requires Restores(S)
    modifies fp, B
    ensures B[..L] == A[..L] && B[L..] == old(B[L..])
    ensures fp.Valid() && fp.pos == |fp.text|
  {
    hide HexText, Readable, OccursAt, FieldRead, AllHex, Skip, Gives;
    ghost var before := fp.text;
    var start := fp.pos;
    FprintBstr(fp, S, A, L);
    fp.pos := start;
    ghost var a := A[..L];
    assert fp.text == Line(before, S, a, []);
    FoundOnLine(before, S, a, []);
    var ret := ReadHex(fp, B, L, S);
    ghost var q: nat :| FieldRead(fp.text, start, S, q, B[..L], fp.pos);
    ReadBack(before, S, a, [], q, B[..L], fp.pos);
  }
}
