/** The little-endian byte view of the 25 words of the state. */
module ByteView {
  import opened Words
  import opened BitStrings

  // (uint64_t) of a byte
  function Widen(b: Byte): Lane
  {
    b + Zero(56)
  }

  // (unsigned char) of a word
  function ToByte(a: Lane): Byte
  {
    a[..8]
  }

  lemma LaneAt(lanes: seq<Lane>, k: nat)
    requires k < |lanes|
    ensures LaneBits(lanes) == LaneBits(lanes[..k]) + lanes[k] + LaneBits(lanes[k + 1..])
  {
    hide LaneBits;
    assert lanes == lanes[..k] + ([lanes[k]] + lanes[k + 1..]);
    LaneBitsConcat(lanes[..k], [lanes[k]] + lanes[k + 1..]);
    LaneBitsConcat([lanes[k]], lanes[k + 1..]);
    OneLane(lanes[k]);
  }

  lemma OneLane(a: Lane)
    ensures LaneBits([a]) == a
  {
    FlattenOne(a);
  }

  lemma XorByte(a: Lane, m: nat, b: Byte)
    requires m < 8
    ensures Xor(a, Shl(Widen(b), 8 * m)) == XorAt(a, 8 * m, b)
  {}

  lemma XorByteInState(lanes: seq<Lane>, k: nat, m: nat, b: Byte)
    requires k < |lanes| && m < 8
    ensures LaneBits(lanes[k := Xor(lanes[k], Shl(Widen(b), 8 * m))]) == XorAt(LaneBits(lanes), 64 * k + 8 * m, b)
  {
    hide LaneBits, Xor, Shl, XorAt, Widen;
    var a := Xor(lanes[k], Shl(Widen(b), 8 * m));
    var after := lanes[k := a];
    XorByte(lanes[k], m, b);
    LaneAt(lanes, k);
    LaneAt(after, k);
    assert after[..k] == lanes[..k] && after[k + 1..] == lanes[k + 1..];
    XorAtMiddle(LaneBits(lanes[..k]), lanes[k], LaneBits(lanes[k + 1..]), 8 * m, b);
  }

  lemma ShiftedByte(a: Lane, m: nat)
    requires m < 8
    ensures ToByte(Shr(a, 8 * m)) == a[8 * m..8 * m + 8]
  {}

  lemma ByteInState(lanes: seq<Lane>, k: nat, m: nat)
    requires k < |lanes| && m < 8
    ensures ToByte(Shr(lanes[k], 8 * m)) == LaneBits(lanes)[64 * k + 8 * m..64 * k + 8 * m + 8]
  {
    hide LaneBits, Shr, ToByte;
    ShiftedByte(lanes[k], m);
    LaneAt(lanes, k);
  }

  /** KeccakF1600_StateXORBytes */
  method StateXORBytes(state: array<Lane>, data: seq<Byte>, offset: nat, length: nat)
    requires state.Length == 25 && offset + length <= 200 && length <= |data|
    modifies state
    ensures LaneBits(state[..]) == XorAt(old(LaneBits(state[..])), 8 * offset, Bits(data[..length]))
  {
    hide LaneBits, Bits, Xor, Shl, XorAt, Widen;
    ghost var S := LaneBits(state[..]);
    NothingXored(S, 8 * offset);
    for i := 0 to length
      invariant LaneBits(state[..]) == XorAt(S, 8 * offset, Bits(data[..i]))
    {
      var k, m := (offset + i) / 8, (offset + i) % 8;
      XorByteInState(state[..], k, m, data[i]);
      OneMoreByte(data, i);
      XorAtConcat(S, 8 * offset, Bits(data[..i]), data[i]);
      ghost var before := state[..];
      state[k] := Xor(state[k], Shl(Widen(data[i]), 8 * m));
      assert state[..] == before[k := state[k]];
    }
    assert data[..length] == data[..length];
  }

  // Bytes read after an exclusive or are the exclusive or of the bytes; what lies outside does not change.
  lemma ReadAfterXor(s: Word, p: nat, d: Word, lo: nat, hi: nat)
    requires p + |d| <= |s| && lo <= hi <= |s|
    ensures p <= lo && hi <= p + |d| ==> XorAt(s, p, d)[lo..hi] == XorAt(s[lo..hi], 0, d[lo - p..hi - p])
    ensures hi <= p || p + |d| <= lo ==> XorAt(s, p, d)[lo..hi] == s[lo..hi]
  {}

  lemma NothingXored(s: Word, p: nat)
    requires p <= |s|
    ensures XorAt(s, p, Bits([])) == s
  {}

  lemma OneMoreByte(data: seq<Byte>, i: nat)
    requires i < |data|
    ensures Bits(data[..i + 1]) == Bits(data[..i]) + data[i]
  {
    hide Bits;
    assert data[..i + 1] == data[..i] + [data[i]];
    BitsConcat(data[..i], [data[i]]);
    OneByte(data[i]);
  }

  /** KeccakF1600_StateExtractBytes, into data from position at on */
  method StateExtractBytes(state: array<Lane>, data: array<Byte>, at: nat, offset: nat, length: nat)
    requires state.Length == 25 && offset + length <= 200 && at + length <= data.Length
    modifies data
    ensures data[..at] == old(data[..at]) && data[at + length..] == old(data[at + length..])
    ensures Bits(data[at..at + length]) == LaneBits(state[..])[8 * offset..8 * (offset + length)]
  {
    hide LaneBits, Bits, Shr, ToByte;
    ghost var S := LaneBits(state[..]);
    for i := 0 to length
      invariant data[..at] == old(data[..at]) && data[at + length..] == old(data[at + length..])
      invariant Bits(data[at..at + i]) == S[8 * offset..8 * (offset + i)]
      invariant LaneBits(state[..]) == S
    {
      var k, m := (offset + i) / 8, (offset + i) % 8;
      ghost var before := data[at..at + i];
      ByteInState(state[..], k, m);
      data[at + i] := ToByte(Shr(state[k], 8 * m));
      assert data[at..at + i + 1] == before + [data[at + i]];
      BitsConcat(before, [data[at + i]]);
      OneByte(data[at + i]);
    }
  }

  function ToLanes(s: Word): (a: seq<Lane>)
    requires |s| % 64 == 0
    ensures |a| == |s| / 64
  {
    if s == [] then [] else [s[..64]] + ToLanes(s[64..])
  }

  lemma {:induction false} ToLanesIs(s: Word)
    requires |s| % 64 == 0
    ensures LaneBits(ToLanes(s)) == s
  {
    if s != [] {
      ToLanesIs(s[64..]);
      OneLane(s[..64]);
      LaneBitsConcat([s[..64]], ToLanes(s[64..]));
    }
  }
}
