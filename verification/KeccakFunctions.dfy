/** The functions of FIPS 202 and SP 800-185 over Keccak-f[1600], and the code for them, permutation included. */
module KeccakFunctions {
  import opened Words
  import opened BitStrings
  import opened Sponge
  import opened OneShot
  import Keccak
  import Fips202
  import CShake
  import Agreement
  import KeccakNIST

  // Section 5.2 of FIPS 202: KECCAK[c](N, d)
  function KeccakC(c: nat, N: Word, d: nat): (z: Word)
    requires c < 1600
    ensures |z| == d
  {
    SpongeOf(KECCAK, 1600 - c, N, d)
  }

  // Section 6.1
  function SHA3(n: nat, M: Word): (z: Word)
    requires n < 800
    ensures |z| == n
  {
    KeccakC(2 * n, M + SHA3_BITS, n)
  }

  // Section 6.2
  function SHAKE(strength: nat, M: Word, d: nat): (z: Word)
    requires strength < 800
    ensures |z| == d
  {
    KeccakC(2 * strength, M + SHAKE_BITS, d)
  }

  // Section 3.3 of SP 800-185, for the empty function name
  function CSHAKE(strength: nat, X: seq<Byte>, d: nat, cstm: nat): (z: Word)
    requires strength <= 256
    ensures |z| == d
  {
    KeccakC(2 * strength, Bits(CShake.Prefix(cstm, (1600 - 2 * strength) / 8) + X) + CSHAKE_BITS, d)
  }

  // ---- only the map matters, not how it is run

  lemma {:induction false} SameAbsorb(f: Permutation, g: Permutation, r: nat, s: StateBits, P: Word)
    requires f.apply == g.apply && 0 < r <= 1600
    ensures AbsorbBlocks(f, r, s, P) == AbsorbBlocks(g, r, s, P)
    decreases |P|
  {
    hide Keccak.KeccakBits;
    if |P| >= r {
      SameAbsorb(f, g, r, AbsorbBlock(f, s, P[..r]), P[r..]);
    }
  }

  lemma {:induction false} SameRead(f: Permutation, g: Permutation, r: nat, s: StateBits, a: nat, d: nat)
    requires f.apply == g.apply && 0 < r <= 1600 && a <= r
    ensures Read(f, r, s, a, d) == Read(g, r, s, a, d)
    decreases d, r - a
  {
    hide Keccak.KeccakBits;
    if d > a {
      SameRead(f, g, r, f.apply(s), r, d - a);
    }
  }

  /** Over the definition of Keccak-f the sponge gives the same as over its implementations. */
  lemma SameSponge(r: nat, M: Word, d: nat)
    requires 0 < r <= 1600
    ensures SpongeOf(Any(Keccak.KeccakBits), r, M, d) == SpongeOf(KECCAK, r, M, d)
  {
    hide AbsorbBlocks, Read, Keccak.KeccakBits, Pad;
    var s := AbsorbBlocks(KECCAK, r, Zero(1600), M + Pad(r, |M|));
    SameAbsorb(Any(Keccak.KeccakBits), KECCAK, r, Zero(1600), M + Pad(r, |M|));
    SameRead(Any(Keccak.KeccakBits), KECCAK, r, s, r, d);
  }

  // ---- the byte-oriented code, on the unrolled permutation

  method Shake128(output: array<Byte>, outlen: nat, input: seq<Byte>)
    requires outlen <= output.Length
    modifies output
    ensures Bits(output[..outlen]) == SHAKE(128, Bits(input), 8 * outlen) && output[outlen..] == old(output[outlen..])
  {
    hide Bits, SpongeOf, KECCAK;
    OneShot.Shake128(KECCAK, output, outlen, input);
  }

  method Shake256(output: array<Byte>, outlen: nat, input: seq<Byte>)
    requires outlen <= output.Length
    modifies output
    ensures Bits(output[..outlen]) == SHAKE(256, Bits(input), 8 * outlen) && output[outlen..] == old(output[outlen..])
  {
    hide Bits, SpongeOf, KECCAK;
    OneShot.Shake256(KECCAK, output, outlen, input);
  }

  method Sha3_256(output: array<Byte>, input: seq<Byte>)
    requires 32 <= output.Length
    modifies output
    ensures Bits(output[..32]) == SHA3(256, Bits(input)) && output[32..] == old(output[32..])
  {
    hide Bits, SpongeOf, KECCAK;
    OneShot.Sha3_256(KECCAK, output, input);
  }

  method Sha3_512(output: array<Byte>, input: seq<Byte>)
    requires 64 <= output.Length
    modifies output
    ensures Bits(output[..64]) == SHA3(512, Bits(input)) && output[64..] == old(output[64..])
  {
    hide Bits, SpongeOf, KECCAK;
    OneShot.Sha3_512(KECCAK, output, input);
  }

  method CShake128(output: array<Byte>, outlen: nat, cstm: nat, input: seq<Byte>)
    requires cstm < 0x1_0000 && outlen <= output.Length
    modifies output
    ensures Bits(output[..outlen]) == CSHAKE(128, input, 8 * outlen, cstm) && output[outlen..] == old(output[outlen..])
  {
    hide Bits, SpongeOf, KECCAK, CShake.Prefix;
    CShake.CShakeSimple(KECCAK, Fips202.SHAKE128_RATE, output, outlen, cstm, input);
  }

  method CShake256(output: array<Byte>, outlen: nat, cstm: nat, input: seq<Byte>)
    requires cstm < 0x1_0000 && outlen <= output.Length
    modifies output
    ensures Bits(output[..outlen]) == CSHAKE(256, input, 8 * outlen, cstm) && output[outlen..] == old(output[outlen..])
  {
    hide Bits, SpongeOf, KECCAK, CShake.Prefix;
    CShake.CShakeSimple(KECCAK, Fips202.SHAKE256_RATE, output, outlen, cstm, input);
  }

  // ---- the bit-oriented code, on the reference permutation

  method QueueShake(input: seq<Byte>, n: nat, wide: bool) returns (output: array<Byte>)
    requires 8 * |input| < 0x1_0000_0000_0000_0000 && 8 * n < 0x1_0000_0000_0000_0000
    ensures output.Length == n && Bits(output[..]) == SHAKE(if wide then 128 else 256, Bits(input), 8 * n)
  {
    hide Bits, SpongeOf, KECCAK;
    Agreement.LowBits();
    output := Agreement.QueueSponge(KECCAK, if wide then 1344 else 1088, input, Uint8(0x0F), 4, n);
  }

  method QueueSha3(input: seq<Byte>, wide: bool) returns (output: array<Byte>)
    requires 8 * |input| < 0x1_0000_0000_0000_0000
    ensures Bits(output[..]) == SHA3(if wide then 512 else 256, Bits(input))
  {
    hide Bits, SpongeOf, KECCAK;
    Agreement.LowBits();
    output := Agreement.QueueSponge(KECCAK, if wide then 576 else 1088, input, Uint8(0x02), 2, if wide then 64 else 32);
  }

  /** The NIST interface: Keccak without appended bits. */
  method Hash(hashbitlen: int, data: seq<Byte>, databitlen: nat, hashval: array<Byte>)
    returns (ret: KeccakNIST.HashReturn)
    requires databitlen < 0x1_0000_0000_0000_0000 && (databitlen + 7) / 8 <= |data|
    requires hashbitlen in {224, 256, 384, 512} ==> hashbitlen / 8 <= hashval.Length
    modifies hashval
    ensures ret == if hashbitlen in {224, 256, 384, 512} then KeccakNIST.SUCCESS else KeccakNIST.BAD_HASHLEN
    ensures ret == KeccakNIST.SUCCESS ==>
      Bits(hashval[..hashbitlen / 8]) == KeccakC(2 * hashbitlen, KeccakNIST.MessageBits(data, databitlen), hashbitlen)
    ensures ret != KeccakNIST.SUCCESS ==> hashval[..] == old(hashval[..])
  {
    hide Bits, SpongeOf, KECCAK, KeccakNIST.MessageBits;
    ret := KeccakNIST.Hash(KECCAK, hashbitlen, data, databitlen, hashval);
  }
}
