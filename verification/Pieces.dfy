/** Messages and outputs in pieces. */
module Pieces {
  import opened Words
  import opened BitStrings

  function Concat(pieces: seq<seq<Byte>>): seq<Byte>
  {
    if pieces == [] then [] else Concat(pieces[..|pieces| - 1]) + pieces[|pieces| - 1]
  }

  function Total(lengths: seq<nat>): nat
  {
    if lengths == [] then 0 else Total(lengths[..|lengths| - 1]) + lengths[|lengths| - 1]
  }

  lemma {:induction false} TotalMonotone(lengths: seq<nat>, i: nat)
    requires i <= |lengths|
    ensures Total(lengths[..i]) <= Total(lengths)
  {
    if i < |lengths| {
      var front := lengths[..|lengths| - 1];
      TotalMonotone(front, i);
      assert front[..i] == lengths[..i];
    } else {
      assert lengths[..i] == lengths;
    }
  }

  lemma {:induction false} ConcatBits(pieces: seq<seq<Byte>>, piece: seq<Byte>)
    ensures Bits(Concat(pieces + [piece])) == Bits(Concat(pieces)) + Bits(piece)
  {
    hide Bits;
    assert (pieces + [piece])[..|pieces|] == pieces;
    BitsConcat(Concat(pieces), piece);
  }
}
