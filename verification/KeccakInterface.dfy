/** The byte interface of the reference permutation: the 200 bytes of the state, and the blocks absorbed into it. */
module KeccakInterface {
  import opened Words
  import opened BitStrings
  import opened ByteView
  import opened Sponge
  import Keccak
  import KeccakReference

  method Memcpy(dst: array<Byte>, at: nat, src: seq<Byte>)
    requires at + |src| <= dst.Length
    modifies dst
    ensures dst[..] == old(dst[..at]) + src + old(dst[at + |src|..])
  {
    ghost var before := dst[..];
    for k := 0 to |src|
      invariant forall i :: 0 <= i < dst.Length ==> dst[i] == if at <= i < at + k then src[i - at] else before[i]
    {
      dst[at + k] := src[k];
    }
    assert dst[..] == before[..at] + src + before[at + |src|..];
  }

  function ToBytes(s: Word): (b: seq<Byte>)
    requires |s| % 8 == 0
    ensures |b| == |s| / 8
  {
    if s == [] then [] else [s[..8]] + ToBytes(s[8..])
  }

  lemma {:induction false} ToBytesIs(s: Word)
    requires |s| % 8 == 0
    ensures Bits(ToBytes(s)) == s
  {
    if s != [] {
      ToBytesIs(s[8..]);
      OneByte(s[..8]);
      BitsConcat([s[..8]], ToBytes(s[8..]));
    }
  }

  lemma XorByteInBytes(bytes: seq<Byte>, i: nat, d: Byte)
    requires i < |bytes|
    ensures Bits(bytes[i := Xor(bytes[i], d)]) == XorAt(Bits(bytes), 8 * i, d)
  {
    hide Bits, Xor, XorAt;
    var x := Xor(bytes[i], d);
    assert bytes == bytes[..i] + [bytes[i]] + bytes[i + 1..];
    assert bytes[i := x] == bytes[..i] + [x] + bytes[i + 1..];
    BitsConcat3(bytes[..i], bytes[i], bytes[i + 1..]);
    BitsConcat3(bytes[..i], x, bytes[i + 1..]);
    XorAtMiddle(Bits(bytes[..i]), bytes[i], Bits(bytes[i + 1..]), 0, d);
    XorIsXorAt(bytes[i], d);
  }

  lemma XorIsXorAt(a: Byte, d: Byte)
    ensures Xor(a, d) == XorAt(a, 0, d)
  {}

  lemma BitsConcat3(a: seq<Byte>, b: Byte, c: seq<Byte>)
    ensures Bits(a + [b] + c) == Bits(a) + b + Bits(c)
  {
    hide Bits;
    BitsConcat(a + [b], c);
    BitsConcat(a, [b]);
    OneByte(b);
  }

  // The code is the first branch, on words and with the tables that it computes. The other exists only for theorems
  // over any map.
  method KeccakPermutation(f: Permutation, state: array<Byte>)
    requires state.Length == 200
    modifies state
    ensures Bits(state[..]) == f.apply(old(Bits(state[..])))
  {
    hide Bits, Keccak.KeccakBits;
    if f.implemented {
      var p := new KeccakReference.Permutation();
      p.KeccakInitialize();
      Keccak.KeccakPermutationBytes(p, state);
    } else {
      AnyOnBytes(f.apply, state);
    }
  }

  method AnyOnBytes(g: StateBits -> StateBits, state: array<Byte>)
    requires state.Length == 200
    modifies state
    ensures Bits(state[..]) == g(old(Bits(state[..])))
  {
    hide Bits, ToBytes;
    var permuted := ToBytes(g(Bits(state[..])));
    ToBytesIs(g(Bits(state[..])));
    for i := 0 to 200
      invariant state[..i] == permuted[..i]
    {
      state[i] := permuted[i];
    }
    assert state[..] == permuted;
  }

  method KeccakPermutationAfterXor(f: Permutation, state: array<Byte>, data: seq<Byte>, dataLengthInBytes: nat)
    requires state.Length == 200 && dataLengthInBytes <= 200 && dataLengthInBytes <= |data|
    modifies state
    ensures Bits(state[..]) == AbsorbBlock(f, old(Bits(state[..])), Bits(data[..dataLengthInBytes]))
  {
    hide Bits, Xor, XorAt;
    ghost var S := Bits(state[..]);
    NothingXored(S, 0);
    for i := 0 to dataLengthInBytes
      invariant Bits(state[..]) == XorAt(S, 0, Bits(data[..i]))
    {
      XorByteInBytes(state[..], i, data[i]);
      OneMoreByte(data, i);
      XorAtConcat(S, 0, Bits(data[..i]), data[i]);
      ghost var before := state[..];
      state[i] := Xor(state[i], data[i]);
      assert state[..] == before[i := state[i]];
    }
    KeccakPermutation(f, state);
  }

  method KeccakAbsorb(f: Permutation, state: array<Byte>, data: seq<Byte>, laneCount: nat)
    requires state.Length == 200 && laneCount <= 25 && 8 * laneCount <= |data|
    modifies state
    ensures Bits(state[..]) == AbsorbBlock(f, old(Bits(state[..])), Bits(data[..8 * laneCount]))
  {
    KeccakPermutationAfterXor(f, state, data, 8 * laneCount);
  }
}
