/** Whole runs of the bit-oriented sponge: any cut of the message and of the output. */
module Runs {
  import opened Words
  import opened BitStrings
  import opened Sponge
  import opened KeccakSponge
  import opened KeccakNIST
  import opened Pieces

  // The length fits the queue that the pieces before it leave.
  predicate PieceFits(rate: nat, before: seq<seq<Byte>>, databitlen: nat)
    requires 0 < rate
  {
    databitlen < 0x1_0000_0000_0000_0000 &&
    QueueFits(databitlen - databitlen % 8, |Rest(rate, Bits(Concat(before)))|, rate)
  }

  // What is left after whole bytes is whole bytes.
  lemma QueueReady(state: SpongeState)
    requires state.Valid() && !state.squeezing && |state.M| % 8 == 0
    ensures state.bitsInQueue % 8 == 0 && state.bitsInQueue == |Rest(state.rate, state.M)|
  {
    RestAligned(state.rate, state.M);
  }

  method UpdateWhole(state: SpongeState, piece: seq<Byte>, ghost before: seq<seq<Byte>>)
    requires state.Valid() && !state.squeezing && state.M == Bits(Concat(before))
    requires PieceFits(state.rate, before, 8 * |piece|)
    modifies state, state.state, state.dataQueue
    ensures state.Valid() && !state.squeezing && state.rate == old(state.rate)
    ensures state.M == Bits(Concat(before + [piece]))
  {
    hide Bits, AbsorbBlocks, Rest, MessageBits, QueueFits;
    QueueReady(state);
    var ret := Update(state, piece, 8 * |piece|);
    WholeMessage(piece, 8 * |piece|);
    ConcatBits(before, piece);
  }

  method UpdateAll(state: SpongeState, pieces: seq<seq<Byte>>)
    requires state.Valid() && !state.squeezing && state.M == []
    requires forall k :: 0 <= k < |pieces| ==> PieceFits(state.rate, pieces[..k], 8 * |pieces[k]|)
    modifies state, state.state, state.dataQueue
    ensures state.Valid() && !state.squeezing && state.rate == old(state.rate)
    ensures state.M == Bits(Concat(pieces))
  {
    hide Bits, AbsorbBlocks, Rest, PieceFits;
    NoBytes([], 0);
    for i := 0 to |pieces|
      invariant state.Valid() && !state.squeezing && state.rate == old(state.rate)
      invariant state.M == Bits(Concat(pieces[..i]))
    {
      UpdateWhole(state, pieces[i], pieces[..i]);
      assert pieces[..i + 1] == pieces[..i] + [pieces[i]];
    }
    assert pieces[..|pieces|] == pieces;
  }

  method SqueezeAll(state: SpongeState, lengths: seq<nat>) returns (z: seq<Byte>)
    requires state.Valid() && state.out == 0
    requires forall k :: 0 <= k < |lengths| ==> 8 * lengths[k] < 0x1_0000_0000_0000_0000
    modifies state, state.state, state.dataQueue
    ensures |z| == Total(lengths)
    ensures Bits(z) == SpongeOf(state.f, old(state.rate), old(state.M), 8 * |z|)
  {
    hide Bits, AbsorbBlocks, Rest, SpongeOf, Pad;
    z := [];
    NoBytes([], 0);
    for i := 0 to |lengths|
      invariant state.Valid() && state.rate == old(state.rate) && state.M == old(state.M)
      invariant state.out == 8 * |z| && |z| == Total(lengths[..i])
      invariant Bits(z) == SpongeOf(state.f, state.rate, state.M, 8 * |z|)
    {
      var output := new Byte[lengths[i]];
      var ret := state.Squeeze(output, 8 * lengths[i]);
      assert output[..8 * lengths[i] / 8] == output[..];
      OutputGrows(state.f, state.rate, state.M, z, output[..]);
      assert lengths[..i + 1][..i] == lengths[..i];
      z := z + output[..];
    }
    assert lengths[..|lengths|] == lengths;
  }

  lemma OutputGrows(f: Permutation, r: nat, M: Word, z: seq<Byte>, more: seq<Byte>)
    requires 0 < r <= 1600
    requires Bits(z) == SpongeOf(f, r, M, 8 * |z|)
    requires Bits(more) == SpongeOf(f, r, M, 8 * |z| + 8 * |more|)[8 * |z|..]
    ensures Bits(z + more) == SpongeOf(f, r, M, 8 * |z + more|)
  {
    hide Bits, AbsorbBlocks, Pad, Read;
    BitsConcat(z, more);
    ReadPrefix(f, r, AbsorbBlocks(f, r, Zero(1600), M + Pad(r, |M|)), r, 8 * |z|, 8 * |z| + 8 * |more|);
    assert 8 * |z + more| == 8 * |z| + 8 * |more|;
  }

  /** However the message is cut into whole bytes and a last piece of bits, and however the output is cut. */
  method SpongeInPieces(f: Permutation, rate: nat, pieces: seq<seq<Byte>>, last: seq<Byte>, lastBits: nat,
                        lengths: seq<nat>)
    returns (z: seq<Byte>)
    requires 0 < rate < 1600 && rate % 64 == 0
    requires forall k :: 0 <= k < |pieces| ==> PieceFits(rate, pieces[..k], 8 * |pieces[k]|)
    requires (lastBits + 7) / 8 <= |last| && PieceFits(rate, pieces, lastBits)
    requires forall k :: 0 <= k < |lengths| ==> 8 * lengths[k] < 0x1_0000_0000_0000_0000
    ensures |z| == Total(lengths)
    ensures Bits(z) == SpongeOf(f, rate, Bits(Concat(pieces)) + MessageBits(last, lastBits), 8 * |z|)
  {
    hide Bits, AbsorbBlocks, Rest, SpongeOf, Pad, MessageBits, QueueFits;
    var state := new SpongeState(f);
    var ret := state.InitSponge(rate, 1600 - rate);
    UpdateAll(state, pieces);
    QueueReady(state);
    var r := Update(state, last, lastBits);
    NothingOut(state);
    z := SqueezeAll(state, lengths);
  }

  lemma NothingOut(state: SpongeState)
    requires state.Valid() && !state.squeezing
    ensures state.out == 0
  {}
}
