/** Keccak-f[1600] as a permutation of 1600 bits, and its two implementations behind their byte and word interfaces. */
module Keccak {
  import opened Words
  import opened BitStrings
  import opened ByteView
  import KeccakP
  import Bijection
  import KeccakF1600
  import KeccakReference

  function KeccakBits(s: StateBits): StateBits
  {
    LaneBits(KeccakP.KeccakF(ToLanes(s)))
  }

  function KeccakBitsInverse(s: StateBits): StateBits
  {
    LaneBits(Bijection.KeccakFInverse(ToLanes(s)))
  }

  lemma ToLanesOf(a: seq<Lane>)
    ensures ToLanes(LaneBits(a)) == a
  {
    ToLanesIs(LaneBits(a));
    FlattenInjective(ToLanes(LaneBits(a)), a, 64);
  }

  /** Keccak-f[1600] is a bijection on the 1600-bit strings. */
  lemma KeccakIsBijective(s: StateBits, t: StateBits)
    ensures KeccakBits(s) == t <==> s == KeccakBitsInverse(t)
  {
    hide KeccakP.KeccakF, Bijection.KeccakFInverse, LaneBits, ToLanes;
    ToLanesIs(s);
    ToLanesIs(t);
    ToLanesOf(KeccakP.KeccakF(ToLanes(s)));
    ToLanesOf(Bijection.KeccakFInverse(ToLanes(t)));
    Bijection.KeccakFIsBijective(ToLanes(s), ToLanes(t));
  }

  /** KeccakF1600_StatePermute, on the bits of the words */
  method StatePermuteWords(state: array<Lane>)
    requires state.Length == 25
    modifies state
    ensures LaneBits(state[..]) == KeccakBits(old(LaneBits(state[..])))
  {
    hide KeccakP.KeccakF, LaneBits, ToLanes;
    ToLanesOf(state[..]);
    KeccakF1600.StatePermute(state);
  }

  // The first j bytes of a word.
  lemma OrByte(a: Lane, bytes: Word, j: nat, b: Byte)
    requires j < 8 && |bytes| == 8 * j && a == bytes + Zero(64 - 8 * j)
    ensures Or(a, Shl(Widen(b), 8 * j)) == bytes + b + Zero(56 - 8 * j)
  {}

  method FromBytesToWords(stateAsWords: array<Lane>, state: array<Byte>)
    requires stateAsWords.Length == 25 && state.Length == 200
    modifies stateAsWords
    ensures LaneBits(stateAsWords[..]) == Bits(state[..])
  {
    hide LaneBits, Bits, Or, Shl, Widen;
    NoLanes(stateAsWords[..0]);
    NoBytes(state[..], 0);
    for i := 0 to 25
      invariant LaneBits(stateAsWords[..i]) == Bits(state[..8 * i])
    {
      stateAsWords[i] := Zero(64);
      ghost var before := stateAsWords[..i];
      NoBytes(state[..], 8 * i);
      for j := 0 to 8
        invariant stateAsWords[..i] == before
        invariant stateAsWords[i] == Bits(state[8 * i..8 * i + j]) + Zero(64 - 8 * j)
      {
        var b := state[i * 8 + j];
        OrByte(stateAsWords[i], Bits(state[8 * i..8 * i + j]), j, b);
        stateAsWords[i] := Or(stateAsWords[i], Shl(Widen(b), 8 * j));
        assert state[8 * i..8 * i + j + 1] == state[8 * i..8 * i + j] + [b];
        BitsConcat(state[8 * i..8 * i + j], [b]);
        OneByte(b);
      }
      assert stateAsWords[..i + 1] == before + [stateAsWords[i]];
      LaneBitsConcat(before, [stateAsWords[i]]);
      OneLane(stateAsWords[i]);
      assert state[..8 * (i + 1)] == state[..8 * i] + state[8 * i..8 * i + 8];
      BitsConcat(state[..8 * i], state[8 * i..8 * i + 8]);
    }
    assert stateAsWords[..25] == stateAsWords[..] && state[..200] == state[..];
  }

  lemma NoLanes(a: seq<Lane>)
    requires a == []
    ensures LaneBits(a) == []
  {}

  method FromWordsToBytes(state: array<Byte>, stateAsWords: array<Lane>)
    requires stateAsWords.Length == 25 && state.Length == 200
    modifies state
    ensures Bits(state[..]) == LaneBits(stateAsWords[..])
  {
    hide LaneBits, Bits, Shr, ToByte;
    ghost var S := LaneBits(stateAsWords[..]);
    NoBytes(state[..], 0);
    for i := 0 to 25
      invariant Bits(state[..8 * i]) == S[..64 * i]
    {
      for j := 0 to 8
        invariant Bits(state[..8 * i + j]) == S[..64 * i + 8 * j]
      {
        ghost var before := state[..8 * i + j];
        ByteInState(stateAsWords[..], i, j);
        state[i * 8 + j] := ToByte(Shr(stateAsWords[i], 8 * j));
        assert state[..8 * i + j + 1] == before + [state[8 * i + j]];
        BitsConcat(before, [state[8 * i + j]]);
        OneByte(state[8 * i + j]);
      }
    }
    assert state[..200] == state[..];
  }

  // So each of the two conversions undoes the other.
  lemma ViewsAreInverse(b: seq<Byte>, w: seq<Lane>, b': seq<Byte>, w': seq<Lane>)
    requires Bits(b) == LaneBits(w)
    ensures Bits(b') == LaneBits(w) <==> b' == b
    ensures LaneBits(w') == Bits(b) <==> w' == w
  {
    if Bits(b') == LaneBits(w) {
      BitsInjective(b', b);
    }
    if LaneBits(w') == Bits(b) {
      FlattenInjective(w', w, 64);
    }
  }

  /** KeccakPermutation of the reference code, through words */
  method KeccakPermutationBytes(p: KeccakReference.Permutation, state: array<Byte>)
    requires p.Initialized() && state.Length == 200
    modifies state
    ensures Bits(state[..]) == KeccakBits(old(Bits(state[..])))
  {
    hide KeccakP.KeccakF, LaneBits, Bits, ToLanes, KeccakP.RoundConstant, KeccakP.RhoOffset;
    var stateAsWords := new Lane[25];
    FromBytesToWords(stateAsWords, state);
    ToLanesOf(stateAsWords[..]);
    p.KeccakPermutationOnWords(stateAsWords);
    FromWordsToBytes(state, stateAsWords);
  }
}
