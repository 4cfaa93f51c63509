/** The one-shot functions of fips202.c: SHAKE128, SHAKE256 and SHA3. */
module OneShot {
  import opened Words
  import opened BitStrings
  import opened ByteView
  import opened Sponge
  import opened Arithmetic
  import opened Fips202

  // The bits that SHAKE, SHA3 and cSHAKE append to the message.
  const SHAKE_BITS: Word := [true, true, true, true]
  const SHA3_BITS: Word := [false, true]
  const CSHAKE_BITS: Word := [false, false]

  lemma DomainBytes()
    ensures Delimits(Uint8(0x1F), SHAKE_BITS)
    ensures Delimits(Uint8(0x06), SHA3_BITS)
    ensures Delimits(Uint8(0x04), CSHAKE_BITS)
  {
    hide BitsOf;
    NoBits(6);
    NoBits(5);
    NoBits(3);
    NextBit(true, 0, 3);
    NextBit(true, 1, 4);
    NextBit(true, 3, 5);
    NextBit(true, 7, 6);
    NextBit(true, 15, 7);
    NextBit(true, 0, 5);
    NextBit(true, 1, 6);
    NextBit(false, 3, 7);
    NextBit(false, 1, 6);
    NextBit(false, 2, 7);
  }

  // Squeeze from a finalized state: whole blocks straight to the output, the rest through a buffer.
  method SqueezeOut(f: Permutation, s: array<Lane>, r: nat, output: array<Byte>, outlen: nat)
    requires s.Length == 25 && 0 < r <= 200 && outlen <= output.Length
    modifies s, output
    ensures Bits(output[..outlen]) == Read(f, 8 * r, old(LaneBits(s[..])), 0, 8 * outlen)
    ensures output[outlen..] == old(output[outlen..])
  {
    hide Bits, LaneBits, Read, StateAfterRead, LeftAfterRead, IsProduct;
    ghost var S := LaneBits(s[..]);
    var nblocks := outlen / r;
    var done := nblocks * r;
    BlocksOut(outlen, nblocks, r, done);
    KeccakSqueezeBlocks(f, output, 0, nblocks, s, r, done);
    assert output[0..done] == output[..done];
    if outlen > done {
      ghost var front := output[..done];
      ReadConcat(f, 8 * r, S, 0, 8 * done, 8 * (outlen - done));
      SqueezeRest(f, s, r, output, done, outlen);
      assert output[..outlen] == front + output[done..outlen];
      BitsConcat(front, output[done..outlen]);
    }
  }

  method SqueezeRest(f: Permutation, s: array<Lane>, r: nat, output: array<Byte>, done: nat, outlen: nat)
    requires s.Length == 25 && 0 < r <= 200 && done < outlen <= output.Length && outlen - done <= r
    modifies s, output
    ensures Bits(output[done..outlen]) == Read(f, 8 * r, old(LaneBits(s[..])), 0, 8 * (outlen - done))
    ensures output[..done] == old(output[..done]) && output[outlen..] == old(output[outlen..])
  {
    hide Bits, LaneBits, Read, StateAfterRead, LeftAfterRead;
    ghost var S := LaneBits(s[..]);
    var t := new Byte[r];
    KeccakSqueezeBlocks(f, t, 0, 1, s, r, r);
    ghost var block := t[..];
    var left := outlen - done;
    for i := 0 to left
      invariant output[..done] == old(output[..done]) && output[outlen..] == old(output[outlen..])
      invariant output[done..done + i] == t[..i]
      invariant t[..] == block
    {
      output[done + i] := t[i];
    }
    ReadPrefix(f, 8 * r, S, 0, 8 * left, 8 * r);
    BitsSlice(t[..], 0, left);
    assert t[..][0..left] == t[..left] && t[..] == t[0..0 + r];
  }

  lemma BlocksOut(n: nat, b: nat, r: nat, done: nat)
    requires 0 < r && b == n / r && done == b * r
    ensures IsProduct(done, b, r) && done <= n < done + r
  {
    assert n == (n / r) * r + n % r;
  }

  // What is read from the finalized state is the sponge's output for the message and the appended bits.
  lemma FinalizedIsSponge(f: Permutation, r: nat, m: Word, p: Byte, appended: Word, d: nat)
    requires 0 < r <= 200 && |Rest(8 * r, m)| % 8 == 0 && Delimits(p, appended)
    ensures Read(f, 8 * r, Finalized(f, r, Zero(1600), m, p), 0, d) == SpongeOf(f, 8 * r, m + appended, d)
  {
    hide Read, Finalized, AbsorbBlocks, Delimits, Pad, Rest;
    FinalizedIsPadded(f, r, Zero(1600), m, p, appended);
    ReadFromEmpty(f, 8 * r, Finalized(f, r, Zero(1600), m, p), d);
  }

  method ZeroState() returns (s: array<Lane>)
    ensures fresh(s) && s.Length == 25 && LaneBits(s[..]) == Zero(1600)
  {
    hide LaneBits;
    s := new Lane[25];
    for i := 0 to 25
      invariant forall k :: 0 <= k < i ==> s[k] == Zero(64)
    {
      s[i] := Zero(64);
    }
    ZeroLanes(s[..]);
  }

  lemma {:induction false} ZeroLanes(a: seq<Lane>)
    requires forall i :: 0 <= i < |a| ==> a[i] == Zero(64)
    ensures LaneBits(a) == Zero(64 * |a|)
  {
    if a != [] {
      ZeroLanes(a[1..]);
      LaneBitsConcat([a[0]], a[1..]);
      OneLane(a[0]);
      assert a == [a[0]] + a[1..];
    }
  }

  method Shake128(f: Permutation, output: array<Byte>, outlen: nat, input: seq<Byte>)
    requires outlen <= output.Length
    modifies output
    ensures Bits(output[..outlen]) == SpongeOf(f, 1344, Bits(input) + SHAKE_BITS, 8 * outlen)
    ensures output[outlen..] == old(output[outlen..])
  {
    hide *;
    Rates();
    var s := ZeroState();
    DomainBytes();
    KeccakAbsorb(f, s, SHAKE128_RATE, input, Uint8(0x1F));
    FinalizedIsSponge(f, SHAKE128_RATE, Bits(input), Uint8(0x1F), SHAKE_BITS, 8 * outlen);
    SqueezeOut(f, s, SHAKE128_RATE, output, outlen);
  }

  method Shake256(f: Permutation, output: array<Byte>, outlen: nat, input: seq<Byte>)
    requires outlen <= output.Length
    modifies output
    ensures Bits(output[..outlen]) == SpongeOf(f, 1088, Bits(input) + SHAKE_BITS, 8 * outlen)
    ensures output[outlen..] == old(output[outlen..])
  {
    hide *;
    Rates();
    var s := ZeroState();
    DomainBytes();
    KeccakAbsorb(f, s, SHAKE256_RATE, input, Uint8(0x1F));
    FinalizedIsSponge(f, SHAKE256_RATE, Bits(input), Uint8(0x1F), SHAKE_BITS, 8 * outlen);
    SqueezeOut(f, s, SHAKE256_RATE, output, outlen);
  }

  method Sha3_256(f: Permutation, output: array<Byte>, input: seq<Byte>)
    requires 32 <= output.Length
    modifies output
    ensures Bits(output[..32]) == SpongeOf(f, 1088, Bits(input) + SHA3_BITS, 256)
    ensures output[32..] == old(output[32..])
  {
    hide *;
    Rates();
    var s := ZeroState();
    DomainBytes();
    KeccakAbsorb(f, s, SHA3_256_RATE, input, Uint8(0x06));
    FinalizedIsSponge(f, SHA3_256_RATE, Bits(input), Uint8(0x06), SHA3_BITS, 256);
    SqueezeRest(f, s, SHA3_256_RATE, output, 0, 32);
    assert output[..32] == output[0..32];
  }

  method Sha3_512(f: Permutation, output: array<Byte>, input: seq<Byte>)
    requires 64 <= output.Length
    modifies output
    ensures Bits(output[..64]) == SpongeOf(f, 576, Bits(input) + SHA3_BITS, 512)
    ensures output[64..] == old(output[64..])
  {
    hide *;
    Rates();
    var s := ZeroState();
    DomainBytes();
    KeccakAbsorb(f, s, SHA3_512_RATE, input, Uint8(0x06));
    FinalizedIsSponge(f, SHA3_512_RATE, Bits(input), Uint8(0x06), SHA3_BITS, 512);
    SqueezeRest(f, s, SHA3_512_RATE, output, 0, 64);
    assert output[..64] == output[0..64];
  }

  /** sha3_384 does not clear its state: s is whatever the stack holds. */
  method Sha3_384(f: Permutation, s: array<Lane>, output: array<Byte>, input: seq<Byte>)
    requires s.Length == 25 && 48 <= output.Length
    modifies s, output
    ensures Bits(output[..48]) == Sha3_384From(f, old(LaneBits(s[..])), Bits(input))
    ensures output[48..] == old(output[48..])
  {
    hide Bits, LaneBits, Finalized, Read, Pad, AbsorbBlocks, Rest, Uint8;
    ghost var S := LaneBits(s[..]);
    DomainBytes();
    KeccakAbsorb(f, s, SHA3_384_RATE, input, Uint8(0x06));
    FinalizedIsPadded(f, SHA3_384_RATE, S, Bits(input), Uint8(0x06), SHA3_BITS);
    ReadFromEmpty(f, 832, Finalized(f, SHA3_384_RATE, S, Bits(input), Uint8(0x06)), 384);
    SqueezeRest(f, s, SHA3_384_RATE, output, 0, 48);
    assert output[..48] == output[0..48];
  }

  function Padded384(m: Word): Word
  {
    m + SHA3_BITS + Pad(832, |m + SHA3_BITS|)
  }

  function Sha3_384From(f: Permutation, s: StateBits, m: Word): Word
  {
    Read(f, 832, AbsorbBlocks(f, 832, s, Padded384(m)), 832, 384)
  }

  // From a cleared state it is SHA3-384.
  lemma Sha3_384Cleared(f: Permutation, m: Word)
    ensures Sha3_384From(f, Zero(1600), m) == SpongeOf(f, 832, m + SHA3_BITS, 384)
  {}
}
