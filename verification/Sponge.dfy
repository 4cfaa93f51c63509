/** The sponge construction of FIPS 202 (sections 4 and 5.1) on bit strings, over any permutation of 1600 bits. */
module Sponge {
  import opened Words
  import opened BitStrings
  import opened Arithmetic
  import Keccak

  // A map of 1600 bits, and whether it is the one that the code implements.
  datatype Map = Map(apply: StateBits -> StateBits, implemented: bool)

  /** What the sponge is built on: any map of 1600 bits, or Keccak-f[1600] as the two code bases implement it. */
  type Permutation = f: Map | f.implemented ==> f.apply == Keccak.KeccakBits witness Map(s => s, false)

  const KECCAK: Permutation := Map(Keccak.KeccakBits, true)

  function Any(g: StateBits -> StateBits): Permutation
  {
    Map(g, false)
  }

  ghost predicate Injective(f: Permutation)
  {
    forall s: StateBits, t: StateBits :: f.apply(s) == f.apply(t) ==> s == t
  }

  lemma KeccakInjective()
    ensures Injective(KECCAK)
  {
    hide Keccak.KeccakBits, Keccak.KeccakBitsInverse;
    forall s: StateBits, t: StateBits | KECCAK.apply(s) == KECCAK.apply(t) ensures s == t {
      Keccak.KeccakIsBijective(s, Keccak.KeccakBits(s));
      Keccak.KeccakIsBijective(t, Keccak.KeccakBits(s));
    }
  }

  // ---- absorbing

  function AbsorbBlock(f: Permutation, s: StateBits, block: Word): StateBits
    requires |block| <= 1600
  {
    f.apply(XorAt(s, 0, block))
  }

  // The state after the whole r-bit blocks of P.
  function AbsorbBlocks(f: Permutation, r: nat, s: StateBits, P: Word): StateBits
    requires 0 < r <= 1600
    decreases |P|
  {
    if |P| < r then s else AbsorbBlocks(f, r, AbsorbBlock(f, s, P[..r]), P[r..])
  }

  // What is left of P after its whole blocks.
  function Rest(r: nat, P: Word): (q: Word)
    requires 0 < r
    ensures |q| < r
    decreases |P|
  {
    if |P| < r then P else Rest(r, P[r..])
  }

  lemma {:induction false} AbsorbConcat(f: Permutation, r: nat, s: StateBits, P: Word, Q: Word)
    requires 0 < r <= 1600
    ensures AbsorbBlocks(f, r, s, P + Q) == AbsorbBlocks(f, r, AbsorbBlocks(f, r, s, P), Rest(r, P) + Q)
    ensures Rest(r, P + Q) == Rest(r, Rest(r, P) + Q)
    decreases |P|
  {
    hide AbsorbBlock;
    if |P| >= r {
      assert (P + Q)[..r] == P[..r] && (P + Q)[r..] == P[r..] + Q;
      AbsorbConcat(f, r, AbsorbBlock(f, s, P[..r]), P[r..], Q);
    }
  }

  // A string that fits in a block is left waiting, unless it fills the block.
  lemma RestBlock(f: Permutation, r: nat, s: StateBits, P: Word)
    requires 0 < r <= 1600 && |P| <= r
    ensures |P| < r ==> AbsorbBlocks(f, r, s, P) == s && Rest(r, P) == P
    ensures |P| == r ==> AbsorbBlocks(f, r, s, P) == AbsorbBlock(f, s, P) && Rest(r, P) == []
  {
    if |P| == r {
      assert P[..r] == P;
    }
  }

  lemma BlockAbsorbed(f: Permutation, r: nat, s: StateBits, N: Word, block: Word)
    requires 0 < r <= 1600 && Rest(r, N) == [] && |block| == r
    ensures AbsorbBlocks(f, r, s, N + block) == AbsorbBlock(f, AbsorbBlocks(f, r, s, N), block)
    ensures Rest(r, N + block) == []
  {
    hide AbsorbBlock, AbsorbBlocks, Rest;
    AbsorbConcat(f, r, s, N, block);
    assert [] + block == block;
    RestBlock(f, r, AbsorbBlocks(f, r, s, N), block);
  }

  lemma {:induction false} RestAligned(r: nat, P: Word)
    requires 0 < r && r % 8 == 0
    ensures |Rest(r, P)| % 8 == |P| % 8
    decreases |P|
  {
    if |P| >= r {
      RestAligned(r, P[r..]);
      BlockLess(|P|, r);
    }
  }

  // ---- squeezing

  // The next d bits when the last a bits of the first r have not been read yet.
  function Read(f: Permutation, r: nat, s: StateBits, a: nat, d: nat): (z: Word)
    requires 0 < r <= 1600 && a <= r
    ensures |z| == d
    decreases d, r - a
  {
    if d <= a then s[r - a..r - a + d] else s[r - a..r] + Read(f, r, f.apply(s), r, d - a)
  }

  function StateAfterRead(f: Permutation, r: nat, s: StateBits, a: nat, d: nat): StateBits
    requires 0 < r <= 1600 && a <= r
    decreases d, r - a
  {
    if d <= a then s else StateAfterRead(f, r, f.apply(s), r, d - a)
  }

  function LeftAfterRead(r: nat, a: nat, d: nat): (left: nat)
    requires 0 < r && a <= r
    ensures left <= r
    decreases d, r - a
  {
    if d <= a then a - d else LeftAfterRead(r, r, d - a)
  }

  // Reading d and then e bits is reading d + e bits.
  lemma {:induction false} ReadConcat(f: Permutation, r: nat, s: StateBits, a: nat, d: nat, e: nat)
    requires 0 < r <= 1600 && a <= r
    ensures Read(f, r, s, a, d + e)
      == Read(f, r, s, a, d) + Read(f, r, StateAfterRead(f, r, s, a, d), LeftAfterRead(r, a, d), e)
    decreases d, r - a
  {
    hide Read, StateAfterRead, LeftAfterRead;
    if d <= a {
      ReadWithin(f, r, s, a, d, e);
    } else {
      ReadConcat(f, r, f.apply(s), r, d - a, e);
      ReadBeyond(f, r, s, a, d);
      ReadBeyond(f, r, s, a, d + e);
    }
  }

  lemma ReadBeyond(f: Permutation, r: nat, s: StateBits, a: nat, d: nat)
    requires 0 < r <= 1600 && a <= r && d > a
    ensures Read(f, r, s, a, d) == s[r - a..r] + Read(f, r, f.apply(s), r, d - a)
    ensures StateAfterRead(f, r, s, a, d) == StateAfterRead(f, r, f.apply(s), r, d - a)
    ensures LeftAfterRead(r, a, d) == LeftAfterRead(r, r, d - a)
  {}

  lemma {:induction false} AfterReadConcat(f: Permutation, r: nat, s: StateBits, a: nat, d: nat, e: nat)
    requires 0 < r <= 1600 && a <= r
    ensures StateAfterRead(f, r, s, a, d + e)
      == StateAfterRead(f, r, StateAfterRead(f, r, s, a, d), LeftAfterRead(r, a, d), e)
    ensures LeftAfterRead(r, a, d + e) == LeftAfterRead(r, LeftAfterRead(r, a, d), e)
    decreases d, r - a
  {
    if d > a {
      AfterReadConcat(f, r, f.apply(s), r, d - a, e);
    }
  }

  lemma ReadWithin(f: Permutation, r: nat, s: StateBits, a: nat, d: nat, e: nat)
    requires 0 < r <= 1600 && d <= a <= r
    ensures Read(f, r, s, a, d + e) == Read(f, r, s, a, d) + Read(f, r, s, a - d, e)
    ensures StateAfterRead(f, r, s, a, d) == s && LeftAfterRead(r, a, d) == a - d
  {
    if d + e > a {
      assert s[r - a..r] == s[r - a..r - a + d] + s[r - a + d..r];
    }
  }

  // Reading p of the bits at hand, after permuting if there were none.
  lemma ReadNow(f: Permutation, r: nat, s: StateBits, a: nat, s': StateBits, a': nat, p: nat)
    requires 0 < r <= 1600 && a <= r && p <= a' <= r
    requires if a == 0 && p > 0 then s' == f.apply(s) && a' == r else s' == s && a' == a
    ensures Read(f, r, s, a, p) == s'[r - a'..r - a' + p]
    ensures StateAfterRead(f, r, s, a, p) == s' && LeftAfterRead(r, a, p) == a' - p
  {
    if a == 0 {
      assert s[r..r] == [];
    }
  }

  // The same after d bits from S.
  lemma ReadOn(f: Permutation, r: nat, S: StateBits, b: nat, d: nat, s': StateBits, a': nat, p: nat)
    requires 0 < r <= 1600 && b <= r && p <= a' <= r
    requires var s, a := StateAfterRead(f, r, S, b, d), LeftAfterRead(r, b, d);
      if a == 0 && p > 0 then s' == f.apply(s) && a' == r else s' == s && a' == a
    ensures Read(f, r, S, b, d + p) == Read(f, r, S, b, d) + s'[r - a'..r - a' + p]
    ensures StateAfterRead(f, r, S, b, d + p) == s' && LeftAfterRead(r, b, d + p) == a' - p
  {
    hide Read, StateAfterRead, LeftAfterRead;
    ReadNow(f, r, StateAfterRead(f, r, S, b, d), LeftAfterRead(r, b, d), s', a', p);
    ReadConcat(f, r, S, b, d, p);
    AfterReadConcat(f, r, S, b, d, p);
  }

  // A permuted state from which nothing has been read, and the state before that permutation.
  lemma ReadFromEmpty(f: Permutation, r: nat, s: StateBits, d: nat)
    requires 0 < r <= 1600
    ensures Read(f, r, s, 0, d) == Read(f, r, f.apply(s), r, d)
  {
    if d == 0 {
      assert Read(f, r, s, 0, 0) == [] && Read(f, r, f.apply(s), r, 0) == [];
    } else {
      assert s[r..r] == [];
    }
  }

  // A shorter request gives a prefix of a longer one.
  lemma ReadPrefix(f: Permutation, r: nat, s: StateBits, a: nat, d: nat, e: nat)
    requires 0 < r <= 1600 && a <= r && d <= e
    ensures Read(f, r, s, a, d) == Read(f, r, s, a, e)[..d]
  {
    ReadConcat(f, r, s, a, d, e - d);
  }

  // ---- padding and the sponge function

  // The number of zeros that brings m + 2 bits to a multiple of r.
  function PadZeros(r: nat, m: nat): (j: nat)
    requires 0 < r
  {
    if m >= r then PadZeros(r, m - r) else if m + 2 <= r then r - 2 - m else 2 * r - 2 - m
  }

  // pad10*1
  function Pad(r: nat, m: nat): Word
    requires 0 < r
  {
    [true] + Zero(PadZeros(r, m)) + [true]
  }

  function SpongeOf(f: Permutation, r: nat, M: Word, d: nat): (z: Word)
    requires 0 < r <= 1600
    ensures |z| == d
  {
    Read(f, r, AbsorbBlocks(f, r, Zero(1600), M + Pad(r, |M|)), r, d)
  }

  lemma {:induction false} PadOfRest(r: nat, M: Word)
    requires 0 < r
    ensures Pad(r, |M|) == Pad(r, |Rest(r, M)|)
    decreases |M|
  {
    if |M| >= r {
      PadOfRest(r, M[r..]);
      assert |M[r..]| == |M| - r;
    }
  }

  // Section 5.1: j = (-m - 2) mod x, and the padded length is a multiple of x.
  lemma PadIsFips(r: nat, m: nat)
    requires 0 < r
    ensures PadZeros(r, m) == (-2 - m) % r
    ensures exists q: nat :: m + |Pad(r, m)| == q * r
  {
    var q: int := PadBlocks(r, m);
    QuotientIs(-2 - m, r, -q, PadZeros(r, m));
  }

  lemma {:induction false} PadBlocks(r: nat, m: nat) returns (q: nat)
    requires 0 < r
    ensures PadZeros(r, m) < r && m + 2 + PadZeros(r, m) == q * r
  {
    if m >= r {
      q := PadBlocks(r, m - r);
      assert (q + 1) * r == q * r + r;
      q := q + 1;
    } else {
      q := if m + 2 <= r then 1 else 2;
    }
  }

  // The padding is two bits set in a buffer of zeros.
  lemma PadInZeros(r: nat, M: Word, w: nat)
    requires 0 < r && |M| + |Pad(r, |M|)| <= w
    ensures var T := |M| + |Pad(r, |M|)|;
      (M + Zero(w - |M|))[|M| := true][T - 1 := true] == M + Pad(r, |M|) + Zero(w - T)
  {}

  // Distinct messages stay distinct after padding.
  lemma PadInjective(r: nat, M: Word, N: Word)
    requires 0 < r
    requires M + Pad(r, |M|) == N + Pad(r, |N|)
    ensures M == N
  {
    if |M| < |N| {
      PadMarker(r, M, N);
    } else if |N| < |M| {
      PadMarker(r, N, M);
    } else {
      assert M == (M + Pad(r, |M|))[..|M|];
      assert N == (N + Pad(r, |N|))[..|N|];
    }
  }

  // The first bit of the longer message's padding falls among the zeros of the other's.
  lemma PadMarker(r: nat, M: Word, N: Word)
    requires 0 < r && |M| < |N| && |N| + 2 <= |M| + |Pad(r, |M|)|
    ensures (N + Pad(r, |N|))[|N|] && !(M + Pad(r, |M|))[|N|]
  {
    assert (M + Pad(r, |M|))[|N|] == Pad(r, |M|)[|N| - |M|];
  }
}
