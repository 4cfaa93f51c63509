/** cSHAKE with a 16-bit customization (fips202.c), against sections 2.3 and 3.3 of NIST SP 800-185. */
module CShake {
  import opened Words
  import opened BitStrings
  import opened ByteView
  import opened Sponge
  import opened Arithmetic
  import opened Fips202
  import opened OneShot

  // ---- the encodings of SP 800-185

  // The base-256 digits of x, most significant first; 0 has one digit.
  function Base256(x: nat): (d: seq<nat>)
    ensures |d| > 0
  {
    if x < 256 then [x] else Base256(x / 256) + [x % 256]
  }

  function ByteString(d: seq<nat>): (b: seq<Byte>)
    ensures |b| == |d|
  {
    seq(|d|, i requires 0 <= i < |d| => Uint8(d[i]))
  }

  function LeftEncode(x: nat): seq<Byte>
  {
    [Uint8(|Base256(x)|)] + ByteString(Base256(x))
  }

  function EncodeString(s: seq<Byte>): seq<Byte>
  {
    LeftEncode(8 * |s|) + s
  }

  function BytePad(x: seq<Byte>, w: nat): seq<Byte>
    requires 0 < w
  {
    var z := LeftEncode(w) + x;
    z + ZeroFill((-|z|) % w)
  }

  // The two bytes of a uint16_t, low byte first.
  function CustomizationBytes(cstm: nat): seq<Byte>
  {
    [Uint8(cstm % 256), Uint8(cstm / 256)]
  }

  // The prefix of cSHAKE for the empty function name and the given customization.
  function Prefix(cstm: nat, r: nat): seq<Byte>
    requires 0 < r
  {
    BytePad(EncodeString([]) + EncodeString(CustomizationBytes(cstm)), r)
  }

  // ---- the eight bytes of the code

  function Separator(cstm: nat, r: nat): seq<Byte>
  {
    [Uint8(0x01), Uint8(r), Uint8(0x01), Uint8(0x00)] + [Uint8(0x01), Uint8(16), Uint8(cstm % 256), Uint8(cstm / 256)]
  }

  lemma LeftEncodeSmall(x: nat)
    requires x < 256
    ensures LeftEncode(x) == [Uint8(1), Uint8(x)]
  {
    hide Uint8;
    assert Base256(x) == [x];
  }

  lemma SeparatorIsPrefix(cstm: nat, r: nat)
    requires 8 <= r < 256
    ensures Prefix(cstm, r) == Separator(cstm, r) + ZeroFill(r - 8)
  {
    hide Uint8, LeftEncode, ZeroFill;
    LeftEncodeSmall(r);
    LeftEncodeSmall(0);
    LeftEncodeSmall(16);
    QuotientIs(-8, r, -1, r - 8);
    var z := LeftEncode(r) + (EncodeString([]) + EncodeString(CustomizationBytes(cstm)));
    assert z == Separator(cstm, r);
  }

  // Absorbing the eight bytes is absorbing the whole first block.
  lemma SeparatorAbsorbed(f: Permutation, r: nat, cstm: nat)
    requires 8 <= r <= 200
    ensures |Prefix(cstm, r)| == r
    ensures f.apply(XorAt(Zero(1600), 0, Bits(Separator(cstm, r))))
      == AbsorbBlocks(f, 8 * r, Zero(1600), Bits(Prefix(cstm, r)))
    ensures Rest(8 * r, Bits(Prefix(cstm, r))) == []
  {
    hide Bits, XorAt, AbsorbBlocks, Rest, Prefix, Separator;
    var sep := Separator(cstm, r);
    SeparatorIsPrefix(cstm, r);
    SeparatorLength(cstm, r);
    BitsConcat(sep, ZeroFill(r - 8));
    ZeroBytes(ZeroFill(r - 8));
    ZerosAdded(Zero(1600), Bits(sep), 8 * (r - 8));
    RestBlock(f, 8 * r, Zero(1600), Bits(Prefix(cstm, r)));
  }

  lemma SeparatorLength(cstm: nat, r: nat)
    ensures |Separator(cstm, r)| == 8
  {}

  lemma ZerosAdded(s: StateBits, B: Word, n: nat)
    requires |B| + n <= 1600
    ensures XorAt(s, 0, B + Zero(n)) == XorAt(s, 0, B)
  {}

  // A message that starts with whole blocks is finalized from the state after them.
  lemma FinalizedAfter(f: Permutation, r: nat, front: Word, m: Word, p: Byte)
    requires 0 < r <= 200 && Rest(8 * r, front) == [] && |Rest(8 * r, m)| % 8 == 0
    ensures Rest(8 * r, front + m) == Rest(8 * r, m)
    ensures Finalized(f, r, AbsorbBlocks(f, 8 * r, Zero(1600), front), m, p)
      == Finalized(f, r, Zero(1600), front + m, p)
  {
    hide AbsorbBlocks, Rest, XorAt;
    AbsorbConcat(f, 8 * r, Zero(1600), front, m);
    assert [] + m == m;
  }

  /** cshake128_simple and cshake256_simple, for r = 168 and 136 */
  method CShakeSimple(f: Permutation, r: nat, output: array<Byte>, outlen: nat, cstm: nat, input: seq<Byte>)
    requires r == SHAKE128_RATE || r == SHAKE256_RATE
    requires cstm < 0x1_0000 && outlen <= output.Length
    modifies output
    ensures Bits(output[..outlen]) == SpongeOf(f, 8 * r, Bits(Prefix(cstm, r) + input) + CSHAKE_BITS, 8 * outlen)
    ensures output[outlen..] == old(output[outlen..])
  {
    hide *;
    Rates();
    var s := ZeroState();
    var sep := Separator(cstm, r);
    SeparatorLength(cstm, r);
    assert sep[..8] == sep;
    StateXORBytes(s, sep, 0, 8);
    StatePermute(f, s);
    SeparatorAbsorbed(f, r, cstm);
    DomainBytes();
    KeccakAbsorb(f, s, r, input, Uint8(0x04));
    var front := Bits(Prefix(cstm, r));
    FinalizedAfter(f, r, front, Bits(input), Uint8(0x04));
    BitsConcat(Prefix(cstm, r), input);
    FinalizedIsSponge(f, r, front + Bits(input), Uint8(0x04), CSHAKE_BITS, 8 * outlen);
    SqueezeOut(f, s, r, output, outlen);
  }
}
