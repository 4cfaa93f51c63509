/** Bit strings: bytes and lanes laid end to end, least significant bit first, and exclusive or at an offset. */
module BitStrings {
  import opened Words

  type StateBits = s: Word | |s| == 1600 witness Zero(1600)

  function Flatten(ws: seq<Word>): (s: Word)
  {
    if ws == [] then [] else ws[0] + Flatten(ws[1..])
  }

  predicate AllWide(ws: seq<Word>, w: nat)
  {
    forall i :: 0 <= i < |ws| ==> |ws[i]| == w
  }

  lemma {:induction false} FlattenLength(ws: seq<Word>, w: nat)
    requires AllWide(ws, w)
    ensures |Flatten(ws)| == |ws| * w
  {
    if ws != [] {
      FlattenLength(ws[1..], w);
    }
  }

  lemma {:induction false} FlattenConcat(a: seq<Word>, b: seq<Word>)
    ensures Flatten(a + b) == Flatten(a) + Flatten(b)
  {
    if a == [] {
      assert a + b == b;
    } else {
      assert (a + b)[0] == a[0] && (a + b)[1..] == a[1..] + b;
      FlattenConcat(a[1..], b);
    }
  }

  lemma FlattenOne(w: Word)
    ensures Flatten([w]) == w
  {
    assert Flatten([w][1..]) == [];
  }

  lemma {:induction false} FlattenInjective(a: seq<Word>, b: seq<Word>, w: nat)
    requires AllWide(a, w) && AllWide(b, w) && w > 0
    requires Flatten(a) == Flatten(b)
    ensures a == b
  {
    FlattenLength(a, w);
    FlattenLength(b, w);
    if a != [] && b != [] {
      assert Flatten(a)[..w] == a[0] && Flatten(a)[w..] == Flatten(a[1..]);
      assert Flatten(b)[..w] == b[0] && Flatten(b)[w..] == Flatten(b[1..]);
      FlattenInjective(a[1..], b[1..], w);
    }
  }

  function Bits(bytes: seq<Byte>): (s: Word)
    ensures |s| == 8 * |bytes|
  {
    FlattenLength(bytes, 8);
    Flatten(bytes)
  }

  function LaneBits(lanes: seq<Lane>): (s: Word)
    ensures |s| == 64 * |lanes|
  {
    FlattenLength(lanes, 64);
    Flatten(lanes)
  }

  lemma BitsConcat(a: seq<Byte>, b: seq<Byte>)
    ensures Bits(a + b) == Bits(a) + Bits(b)
  {
    FlattenConcat(a, b);
  }

  lemma LaneBitsConcat(a: seq<Lane>, b: seq<Lane>)
    ensures LaneBits(a + b) == LaneBits(a) + LaneBits(b)
  {
    FlattenConcat(a, b);
  }

  lemma BitsSlice(b: seq<Byte>, lo: nat, hi: nat)
    requires lo <= hi <= |b|
    ensures Bits(b)[8 * lo..8 * hi] == Bits(b[lo..hi])
  {
    hide Bits;
    assert b == b[..lo] + (b[lo..hi] + b[hi..]);
    BitsConcat(b[..lo], b[lo..hi] + b[hi..]);
    BitsConcat(b[lo..hi], b[hi..]);
  }

  lemma BitsInjective(a: seq<Byte>, b: seq<Byte>)
    requires Bits(a) == Bits(b)
    ensures a == b
  {
    FlattenInjective(a, b, 8);
  }

  lemma OneByte(b: Byte)
    ensures Bits([b]) == b
  {
    FlattenOne(b);
  }

  lemma ByteAt(bytes: seq<Byte>, j: nat)
    requires j < |bytes|
    ensures Bits(bytes)[8 * j..8 * j + 8] == bytes[j]
  {
    hide Bits;
    BitsSlice(bytes, j, j + 1);
    OneByte(bytes[j]);
    assert bytes[j..j + 1] == [bytes[j]];
  }

  // Exclusive or of d into s from position p on.
  function XorAt(s: Word, p: nat, d: Word): (r: Word)
    requires p + |d| <= |s|
    ensures |r| == |s|
  {
    seq(|s|, i requires 0 <= i < |s| => if p <= i < p + |d| then s[i] != d[i - p] else s[i])
  }

  lemma XorAtConcat(s: Word, p: nat, d: Word, e: Word)
    requires p + |d| + |e| <= |s|
    ensures XorAt(XorAt(s, p, d), p + |d|, e) == XorAt(s, p, d + e)
  {}

  lemma XorAtMiddle(a: Word, s: Word, b: Word, p: nat, d: Word)
    requires p + |d| <= |s|
    ensures XorAt(a + s + b, |a| + p, d) == a + XorAt(s, p, d) + b
  {}

  lemma XorAtTwice(s: Word, p: nat, d: Word)
    requires p + |d| <= |s|
    ensures XorAt(XorAt(s, p, d), p, d) == s
  {}

  lemma {:induction false} ZeroBytes(b: seq<Byte>)
    requires forall i :: 0 <= i < |b| ==> b[i] == Zero(8)
    ensures Bits(b) == Zero(8 * |b|)
  {
    if b != [] {
      ZeroBytes(b[1..]);
      BitsConcat([b[0]], b[1..]);
      OneByte(b[0]);
      assert b == [b[0]] + b[1..];
    }
  }

  function ZeroFill(n: nat): (b: seq<Byte>)
    ensures |b| == n
  {
    seq(n, _ => Zero(8))
  }

  lemma NoBytes(data: seq<Byte>, i: nat)
    requires i <= |data|
    ensures Bits(data[i..i]) == []
  {}

  // Bytes done to done + len of the output are new; the others stay.
  lemma NextOutput(h: seq<Byte>, h': seq<Byte>, at: nat, done: nat, len: nat, outlen: nat)
    requires |h| == |h'| && done + len <= outlen && at + outlen <= |h|
    requires h'[..at + done] == h[..at + done] && h'[at + done + len..] == h[at + done + len..]
    ensures Bits(h'[at..at + done + len]) == Bits(h[at..at + done]) + Bits(h'[at + done..at + done + len])
    ensures h'[..at] == h[..at] && h'[at + outlen..] == h[at + outlen..]
  {
    hide Bits;
    forall k | 0 <= k < at + done ensures h'[k] == h[k] {
      assert h'[k] == h'[..at + done][k];
    }
    forall k | at + done + len <= k < |h| ensures h'[k] == h[k] {
      assert h'[k] == h'[at + done + len..][k - (at + done + len)];
    }
    var z := h'[at + done..at + done + len];
    assert h'[at..at + done + len] == h[at..at + done] + z;
    BitsConcat(h[at..at + done], z);
  }
}
