/** The interfaces around the sponge in literal bits, bytes and numbers. */
module InterfaceLaws {
  import opened Words
  import opened BitStrings
  import opened Sponge
  import opened Fips202
  import opened OneShot
  import opened CShake
  import opened KeccakSponge
  import opened KeccakNIST
  import opened Arithmetic
  import KeccakDuplex
  import KeccakFunctions
  import Pieces
  import Runs
  import WordLaws

  lemma Ranges(n: int, x: UInt32, y: UInt64)
    ensures 0 <= n <= 4294967295 ==> (n as UInt32) == n
    ensures 0 <= n <= 18446744073709551615 ==> (n as UInt64) == n
    ensures x <= 4294967295 && y <= 18446744073709551615
  {}

  // ---- the queue

  lemma Masks(k: nat, i: nat)
    requires k < 8 && i < 8
    ensures LowMask(k)[i] == (i < k) && OneAt(k)[i] == (i == k)
  {}

  // In the 32-bit arithmetic of the code, n and the sum are remainders modulo 2^32.
  lemma PartialBlockLaw(remaining: nat, q: nat, rate: nat, n: nat, sum: nat)
    requires q <= rate && n == remaining % 4294967296 && sum == (n + q) % 4294967296
    ensures PartialBlock(remaining, q, rate) == if sum > rate then rate - q else n
  {}

  // A length below 2^32 - 1536, or any length for an empty queue, fits.
  lemma OrdinaryLengthsFit(databitlen: nat, q: nat, rate: nat)
    requires q <= 1536
    ensures databitlen < 4294965760 || q == 0 ==> QueueFits(databitlen, q, rate)
  {}

  lemma TurnsLaw(n: nat, remaining: nat, q: nat, rate: nat, p: nat)
    requires q <= rate && p == PartialBlock(remaining, q, rate)
    ensures AfterTurns(0, remaining, q, rate) == (remaining, q)
    ensures q + p != rate ==> AfterTurns(n + 1, remaining, q, rate) == AfterTurns(n, remaining - p, q + p, rate)
    ensures q + p == rate ==> AfterTurns(n + 1, remaining, q, rate) == AfterTurns(n, remaining - p, 0, rate)
  {
    hide PartialBlock;
  }

  lemma PieceLaw(rate: nat, before: seq<seq<Byte>>, databitlen: nat)
    requires 0 < rate
    ensures Runs.PieceFits(rate, before, databitlen) <==> (databitlen <= 18446744073709551615 &&
      QueueFits(databitlen - databitlen % 8, |Rest(rate, Bits(Pieces.Concat(before)))|, rate))
  {
    hide QueueFits, Rest, Bits;
  }

  lemma ProductLaw(n: nat, a: nat, b: nat)
    ensures IsProduct(n, a, b) <==> n == a * b
  {}

  lemma MinLaw(a: nat, b: nat)
    ensures Min(a, b) in {a, b} && Min(a, b) <= a && Min(a, b) <= b
  {}

  // ---- the message of the NIST interface

  lemma MessageBit(data: seq<Byte>, n: nat, j: nat, i: nat)
    requires (n + 7) / 8 <= |data| && i < 8 && 8 * j + i < n
    ensures |MessageBits(data, n)| == n
    ensures MessageBits(data, n)[8 * j + i] == if j == n / 8 then data[j][8 - n % 8 + i] else data[j][i]
  {
    hide Bits;
    if j < n / 8 {
      WordLaws.BitOfBytes(data, j, i);
    }
  }

  lemma ReturnCodes(ret: int)
    ensures Returned(ret) == if ret == 0 then SUCCESS else FAIL
  {}

  // ---- the duplex object

  lemma History(r: nat, inputs: seq<Word>, sigma: Word)
    requires 0 < r
    ensures KeccakDuplex.Padded(r, []) == []
    ensures KeccakDuplex.Padded(r, inputs + [sigma]) == KeccakDuplex.Padded(r, inputs) + sigma + Pad(r, |sigma|)
  {
    hide Pad;
    KeccakDuplex.OneMoreInput(r, inputs, sigma);
    KeccakDuplex.NothingPadded(r);
  }

  lemma ShortLaw(r: nat, inputs: seq<Word>)
    ensures KeccakDuplex.Short(r, inputs) <==> forall i :: 0 <= i < |inputs| ==> |inputs[i]| + 2 <= r
  {}

  lemma MarkedBit(sigma: Word, rate: nat, i: nat)
    requires 0 < rate <= 1600 && |sigma| < 1600 && i < 64 * ((rate + 63) / 64)
    ensures |KeccakDuplex.Marked(sigma, rate)| == 64 * ((rate + 63) / 64)
    ensures KeccakDuplex.Marked(sigma, rate)[i]
      == (i == rate - 1 || i == |sigma| || (i < |sigma| && sigma[i]))
  {}

  // ---- the bits that are appended, and the bytes that carry them

  lemma AppendedBits()
    ensures SHAKE_BITS == [true, true, true, true] && SHA3_BITS == [false, true] && CSHAKE_BITS == [false, false]
  {}

  lemma DomainByte(p: Byte, appended: Word)
    ensures Delimits(p, appended) <==> |appended| <= 6 && p == appended + [true] + seq(7 - |appended|, _ => false)
  {
    if |appended| <= 6 {
      assert Zero(7 - |appended|) == seq(7 - |appended|, _ => false);
    }
  }

  lemma FinalizedLaw(f: Permutation, r: nat, s: StateBits, m: Word, p: Byte, q: nat)
    requires 0 < r <= 200 && 8 * q == |Rest(8 * r, m)|
    ensures Finalized(f, r, s, m, p)
      == XorAt(AbsorbBlocks(f, 8 * r, s, m), 0, Rest(8 * r, m) + Bits(Suffix(r - q, p)))
  {
    hide Bits, AbsorbBlocks, Rest, XorAt, Suffix;
  }

  lemma SuffixLaw(n: nat, p: Byte)
    requires n > 1
    ensures Suffix(1, p) == [Or(p, Uint8(128))]
    ensures Suffix(n, p) == [p] + ZeroFill(n - 2) + [Uint8(128)]
  {
    hide Shl, Or, Uint8;
    LastBit();
  }

  lemma LastBit()
    ensures Shl(One(8), 7) == Uint8(128)
  {
    var b: Byte := Shl(One(8), 7);
    forall i | 0 <= i < 8 ensures b[i] == Uint8(128)[i] {
      WordLaws.BinaryDigit(128, 8, i);
      assert Pow2(7) == 128;
      PowerOfTwo(i);
    }
  }

  lemma PowerOfTwo(i: nat)
    requires i < 8
    ensures (128 / Pow2(i) % 2 == 1) <==> i == 7
  {
    assert Pow2(1) == 2 && Pow2(2) == 4 && Pow2(3) == 8 && Pow2(4) == 16;
    assert Pow2(5) == 32 && Pow2(6) == 64 && Pow2(7) == 128;
    assert i in {0, 1, 2, 3, 4, 5, 6, 7};
  }

  lemma FunctionsLaw(M: Word, d: nat)
    ensures KeccakFunctions.SHAKE(128, M, d) == SpongeOf(KECCAK, 1344, M + [true, true, true, true], d)
    ensures KeccakFunctions.SHAKE(256, M, d) == SpongeOf(KECCAK, 1088, M + [true, true, true, true], d)
    ensures KeccakFunctions.SHA3(256, M) == SpongeOf(KECCAK, 1088, M + [false, true], 256)
    ensures KeccakFunctions.SHA3(512, M) == SpongeOf(KECCAK, 576, M + [false, true], 512)
  {
    hide SpongeOf, KECCAK;
  }

  lemma CapacityLaw(c: nat, N: Word, d: nat)
    requires c < 1600
    ensures KeccakFunctions.KeccakC(c, N, d) == SpongeOf(KECCAK, 1600 - c, N, d)
  {
    hide SpongeOf, KECCAK;
  }

  lemma CShakeLaw(X: seq<Byte>, d: nat, cstm: nat)
    ensures KeccakFunctions.CSHAKE(128, X, d, cstm)
      == SpongeOf(KECCAK, 1344, Bits(Prefix(cstm, 168) + X) + [false, false], d)
    ensures KeccakFunctions.CSHAKE(256, X, d, cstm)
      == SpongeOf(KECCAK, 1088, Bits(Prefix(cstm, 136) + X) + [false, false], d)
  {
    hide SpongeOf, KECCAK, Prefix, Bits;
  }

  // ---- the prefix of cSHAKE

  // The digits of x in base 256, most significant first and as few as possible.
  lemma {:induction false} Base256Law(x: nat)
    ensures forall i :: 0 <= i < |Base256(x)| ==> Base256(x)[i] < 256
    ensures |Base256(x)| == 1 || Base256(x)[0] != 0
    ensures ValueOf(Base256(x)) == x
  {
    if x >= 256 {
      Base256Law(x / 256);
      assert Base256(x)[..|Base256(x)| - 1] == Base256(x / 256);
    }
  }

  function ValueOf(d: seq<nat>): nat
  {
    if d == [] then 0 else 256 * ValueOf(d[..|d| - 1]) + d[|d| - 1]
  }

  // One byte for their number, and one for each.
  lemma LeftEncodeLaw(x: nat, i: nat)
    requires i < |Base256(x)|
    ensures |LeftEncode(x)| == 1 + |Base256(x)|
    ensures LeftEncode(x)[0] == BitsOf(|Base256(x)|, 8) && LeftEncode(x)[1 + i] == BitsOf(Base256(x)[i], 8)
  {
    hide Base256;
  }

  lemma EncodeStringLaw(s: seq<Byte>)
    ensures EncodeString(s) == LeftEncode(8 * |s|) + s
  {}

  // Zeros up to a multiple of w.
  lemma BytePadLaw(x: seq<Byte>, w: nat, n: nat)
    requires 0 < w && n == |LeftEncode(w) + x|
    ensures n <= |BytePad(x, w)| && BytePad(x, w)[..n] == LeftEncode(w) + x
    ensures |BytePad(x, w)| % w == 0 && |BytePad(x, w)| < n + w
    ensures forall i :: n <= i < |BytePad(x, w)| ==> BytePad(x, w)[i] == BitsOf(0, 8)
  {
    hide LeftEncode, BitsOf;
    NoBits(8);
    MissingToMultiple(n, w);
  }

  lemma MissingToMultiple(n: int, w: nat)
    requires 0 < w
    ensures (n + (-n) % w) % w == 0
  {
    var q, j := (-n) / w, (-n) % w;
    assert -n == q * w + j;
    assert n + j == -q * w;
    QuotientIs(n + j, w, -q, 0);
  }

  /** The two bytes of the customization are its 16 bits, the least significant first. */
  lemma CustomizationLaw(cstm: nat)
    requires cstm < 0x1_0000
    ensures Bits(CustomizationBytes(cstm)) == BitsOf(cstm, 16)
  {
    hide BitsOf, Bits;
    var low, high := Uint8(cstm % 256), Uint8(cstm / 256);
    BitsConcat([low], [high]);
    OneByte(low);
    OneByte(high);
    SplitBits(cstm, 8, 8);
    assert CustomizationBytes(cstm) == [low] + [high];
  }

  lemma {:induction false} SplitBits(n: nat, k: nat, w: nat)
    ensures Pow2(8) == 256
    ensures BitsOf(n, k + w) == BitsOf(n % Pow2(k), k) + BitsOf(n / Pow2(k), w)
  {
    if k == 0 {
      assert BitsOf(n % 1, 0) == [] && n / 1 == n;
    } else {
      var p := Pow2(k - 1);
      SplitBits(n / 2, k - 1, w);
      WordLaws.HalfFirst(n, p);
      HalfOfRest(n, p);
    }
  }

  lemma HalfOfRest(n: nat, p: nat)
    requires p > 0
    ensures n % (2 * p) / 2 == n / 2 % p && n % (2 * p) % 2 == n % 2
  {
    var m := n / 2;
    var q, j := m / p, m % p;
    assert m == q * p + j;
    assert n == q * (2 * p) + (2 * j + n % 2);
    QuotientIs(n, 2 * p, q, 2 * j + n % 2);
  }

  /** What stands in front of the input of cSHAKE128 and of cSHAKE256, byte by byte. */
  lemma PrefixBytes(cstm: nat)
    requires cstm < 0x1_0000
    ensures |Prefix(cstm, 168)| == 168 && |Prefix(cstm, 136)| == 136
    ensures Prefix(cstm, 168)[..4] == [Uint8(1), Uint8(168), Uint8(1), Uint8(0)]
    ensures Prefix(cstm, 136)[..4] == [Uint8(1), Uint8(136), Uint8(1), Uint8(0)]
    ensures Prefix(cstm, 168)[4..6] == Prefix(cstm, 136)[4..6] == [Uint8(1), Uint8(16)]
    ensures Bits(Prefix(cstm, 168)[6..8]) == Bits(Prefix(cstm, 136)[6..8]) == BitsOf(cstm, 16)
    ensures forall i :: 8 <= i < 168 ==> Prefix(cstm, 168)[i] == Zero(8)
    ensures forall i :: 8 <= i < 136 ==> Prefix(cstm, 136)[i] == Zero(8)
  {
    hide Uint8, Bits, Prefix, Zero, BitsOf, CustomizationBytes, ZeroFill;
    CustomizationLaw(cstm);
    PrefixParts(cstm, 168);
    PrefixParts(cstm, 136);
    ZeroFillIs(160);
    ZeroFillIs(128);
  }

  lemma PrefixParts(cstm: nat, r: nat)
    requires 8 <= r < 256
    ensures |Prefix(cstm, r)| == r
    ensures Prefix(cstm, r)[..4] == [Uint8(1), Uint8(r), Uint8(1), Uint8(0)]
    ensures Prefix(cstm, r)[4..6] == [Uint8(1), Uint8(16)]
    ensures Prefix(cstm, r)[6..8] == CustomizationBytes(cstm)
    ensures forall i :: 8 <= i < r ==> Prefix(cstm, r)[i] == ZeroFill(r - 8)[i - 8]
  {
    hide Uint8, Prefix, Separator, CustomizationBytes, ZeroFill;
    SeparatorIsPrefix(cstm, r);
    SeparatorParts(cstm, r);
    var a: seq<Byte>, b: seq<Byte> := [Uint8(1), Uint8(r), Uint8(1), Uint8(0)], [Uint8(1), Uint8(16)];
    assert |CustomizationBytes(cstm)| == 2;
    Slices(Prefix(cstm, r), a, b, CustomizationBytes(cstm), ZeroFill(r - 8));
  }

  lemma SeparatorParts(cstm: nat, r: nat)
    ensures |CustomizationBytes(cstm)| == 2
    ensures Separator(cstm, r)
      == [Uint8(1), Uint8(r), Uint8(1), Uint8(0)] + [Uint8(1), Uint8(16)] + CustomizationBytes(cstm)
  {
    hide Uint8;
  }

  lemma Slices(p: seq<Byte>, a: seq<Byte>, b: seq<Byte>, c: seq<Byte>, d: seq<Byte>)
    requires p == a + b + c + d && |a| == 4 && |b| == 2 && |c| == 2
    ensures p[..4] == a && p[4..6] == b && p[6..8] == c
    ensures forall i :: 8 <= i < |p| ==> p[i] == d[i - 8]
  {}

  lemma ZeroFillIs(n: nat)
    ensures forall i :: 0 <= i < n ==> ZeroFill(n)[i] == Zero(8)
  {}

  // ---- pieces

  lemma PiecesLaw(pieces: seq<seq<Byte>>, piece: seq<Byte>, lengths: seq<nat>, n: nat)
    ensures Pieces.Concat([]) == [] && Pieces.Concat(pieces + [piece]) == Pieces.Concat(pieces) + piece
    ensures Pieces.Total([]) == 0 && Pieces.Total(lengths + [n]) == Pieces.Total(lengths) + n
  {
    assert (pieces + [piece])[..|pieces|] == pieces;
    assert (lengths + [n])[..|lengths|] == lengths;
  }

  // ---- sha3_384

  lemma FromArrayLaw(f: Permutation, s: StateBits, m: Word)
    ensures Sha3_384From(f, s, m)
      == AbsorbBlocks(f, 832, s, m + [false, true] + Pad(832, |m| + 2))[..384]
  {
    hide AbsorbBlocks, Pad;
    assert |m + SHA3_BITS| == |m| + 2;
  }
}
