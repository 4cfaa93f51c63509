/** The round constants of keccakf1600.c, which are the output of the LFSR of FIPS 202. */
module RoundConstants {
  import opened Words
  import opened KeccakP

  function Digit(b: bool): nat
  {
    if b then 1 else 0
  }

  // The number with binary digits a to g at positions 2^0 - 1, ..., 2^6 - 1.
  function Sparse(a: bool, b: bool, c: bool, d: bool, e: bool, f: bool, g: bool): nat
  {
    Digit(a) + 2 * (Digit(b) + 4 * (Digit(c) + 16 * (Digit(d) + 256 * (Digit(e)
      + 0x1_0000 * (Digit(f) + 0x1_0000_0000 * Digit(g))))))
  }

  lemma {:induction false} Pow2Add(j: nat, k: nat)
    ensures Pow2(j + k) == Pow2(j) * Pow2(k)
  {
    if j > 0 {
      Pow2Add(j - 1, k);
    }
  }

  lemma Powers()
    ensures Pow2(1) == 2 && Pow2(2) == 4 && Pow2(4) == 16 && Pow2(8) == 256
    ensures Pow2(16) == 0x1_0000 && Pow2(32) == 0x1_0000_0000
  {
    SmallPowers();
    hide Pow2;
    Pow2Add(2, 2);
    Pow2Add(4, 4);
    Pow2Add(8, 8);
    Pow2Add(16, 16);
  }

  lemma SmallPowers()
    ensures Pow2(1) == 2 && Pow2(2) == 4
  {}

  function Spread(a: bool, b: bool, c: bool, d: bool, e: bool, f: bool, g: bool): Lane
  {
    [a] + Zero(0) + ([b] + Zero(1) + ([c] + Zero(3) + ([d] + Zero(7) + ([e] + Zero(15) + ([f] + Zero(31) + [g])))))
  }

  lemma SparseIsSpread(a: bool, b: bool, c: bool, d: bool, e: bool, f: bool, g: bool)
    ensures Uint64(Sparse(a, b, c, d, e, f, g)) == Spread(a, b, c, d, e, f, g)
  {
    hide BitsOf, Pow2;
    Powers();
    var n6 := Digit(g);
    var n5 := Digit(f) + 0x1_0000_0000 * n6;
    var n4 := Digit(e) + 0x1_0000 * n5;
    var n3 := Digit(d) + 256 * n4;
    var n2 := Digit(c) + 16 * n3;
    var n1 := Digit(b) + 4 * n2;
    SparseBits(a, 1, n1, 64);
    SparseBits(b, 2, n2, 63);
    SparseBits(c, 4, n3, 61);
    SparseBits(d, 8, n4, 57);
    SparseBits(e, 16, n5, 49);
    SparseBits(f, 32, n6, 33);
    LastBit(g);
  }

  lemma LastBit(g: bool)
    ensures BitsOf(Digit(g), 1) == [g]
  {
    assert BitsOf(Digit(g) / 2, 0) == [];
  }

  lemma UpdatesAreSpread(a: bool, b: bool, c: bool, d: bool, e: bool, f: bool, g: bool)
    ensures Zero(64)[0 := a][1 := b][3 := c][7 := d][15 := e][31 := f][63 := g] == Spread(a, b, c, d, e, f, g)
  {}

  lemma ConstantIsSpread(i: nat)
    ensures RoundConstant(i) == Spread(RcBit(7 * i), RcBit(7 * i + 1), RcBit(7 * i + 2), RcBit(7 * i + 3),
                                       RcBit(7 * i + 4), RcBit(7 * i + 5), RcBit(7 * i + 6))
  {
    hide RcBit, Spread, Zero;
    UpdatesAreSpread(RcBit(7 * i), RcBit(7 * i + 1), RcBit(7 * i + 2), RcBit(7 * i + 3),
                     RcBit(7 * i + 4), RcBit(7 * i + 5), RcBit(7 * i + 6));
    assert RoundConstantUpTo(i, 1) == Zero(64)[0 := RcBit(7 * i)];
    assert RoundConstantUpTo(i, 2) == RoundConstantUpTo(i, 1)[1 := RcBit(7 * i + 1)];
    assert RoundConstantUpTo(i, 3) == RoundConstantUpTo(i, 2)[3 := RcBit(7 * i + 2)];
    assert RoundConstantUpTo(i, 4) == RoundConstantUpTo(i, 3)[7 := RcBit(7 * i + 3)];
    assert RoundConstantUpTo(i, 5) == RoundConstantUpTo(i, 4)[15 := RcBit(7 * i + 4)];
    assert RoundConstantUpTo(i, 6) == RoundConstantUpTo(i, 5)[31 := RcBit(7 * i + 5)];
  }

  // The number that seven outputs of the LFSR spell, starting from state s.
  function SevenOutputs(s: bv8): nat
  {
    var s1 := LfsrStep(s);
    var s2 := LfsrStep(s1);
    var s3 := LfsrStep(s2);
    var s4 := LfsrStep(s3);
    var s5 := LfsrStep(s4);
    var s6 := LfsrStep(s5);
    Sparse(s & 1 != 0, s1 & 1 != 0, s2 & 1 != 0, s3 & 1 != 0, s4 & 1 != 0, s5 & 1 != 0, s6 & 1 != 0)
  }

  function SevenSteps(s: bv8): bv8
  {
    LfsrStep(LfsrStep(LfsrStep(LfsrStep(LfsrStep(LfsrStep(LfsrStep(s)))))))
  }

  // Round i consumes seven outputs of the LFSR: state s gives the constant n and leaves state t.
  lemma LfsrRow(i: nat, s: bv8, t: bv8, n: nat)
    requires LfsrAfter(7 * i) == s && SevenSteps(s) == t && SevenOutputs(s) == n
    ensures LfsrAfter(7 * (i + 1)) == t && RoundConstant(i) == Uint64(n)
  {
    hide LfsrStep, Sparse, Uint64, Spread, RoundConstant;
    var k := 7 * i;
    assert LfsrAfter(k + 1) == LfsrStep(LfsrAfter(k));
    assert LfsrAfter(k + 2) == LfsrStep(LfsrAfter(k + 1));
    assert LfsrAfter(k + 3) == LfsrStep(LfsrAfter(k + 2));
    assert LfsrAfter(k + 4) == LfsrStep(LfsrAfter(k + 3));
    assert LfsrAfter(k + 5) == LfsrStep(LfsrAfter(k + 4));
    assert LfsrAfter(k + 6) == LfsrStep(LfsrAfter(k + 5));
    assert LfsrAfter(k + 7) == LfsrStep(LfsrAfter(k + 6));
    ConstantIsSpread(i);
    SparseIsSpread(RcBit(k), RcBit(k + 1), RcBit(k + 2), RcBit(k + 3), RcBit(k + 4), RcBit(k + 5), RcBit(k + 6));
  }

  const KECCAKF_ROUND_CONSTANTS: seq<nat> := [
    0x0000000000000001, 0x0000000000008082, 0x800000000000808a, 0x8000000080008000,
    0x000000000000808b, 0x0000000080000001, 0x8000000080008081, 0x8000000000008009,
    0x000000000000008a, 0x0000000000000088, 0x0000000080008009, 0x000000008000000a,
    0x000000008000808b, 0x800000000000008b, 0x8000000000008089, 0x8000000000008003,
    0x8000000000008002, 0x8000000000000080, 0x000000000000800a, 0x800000008000000a,
    0x8000000080008081, 0x8000000000008080, 0x0000000080000001, 0x8000000080008008]

  lemma LfsrStart()
    ensures LfsrAfter(0) == 0x01
  {}

  lemma Rows0To8()
    ensures LfsrAfter(56) == 0xca
    ensures forall i :: 0 <= i < 8 ==> Uint64(KECCAKF_ROUND_CONSTANTS[i]) == RoundConstant(i)
  {
    hide Uint64, RoundConstant, LfsrAfter;
    LfsrStart();
    LfsrRow(0, 0x01, 0x80, 0x0000000000000001);
    LfsrRow(1, 0x80, 0xd8, 0x0000000000008082);
    LfsrRow(2, 0xd8, 0x1a, 0x800000000000808a);
    LfsrRow(3, 0x1a, 0xdf, 0x8000000080008000);
    LfsrRow(4, 0xdf, 0x09, 0x000000000000808b);
    LfsrRow(5, 0x09, 0x35, 0x0000000080000001);
    LfsrRow(6, 0x35, 0x4f, 0x8000000080008081);
    LfsrRow(7, 0x4f, 0xca, 0x8000000000008009);
  }

  lemma Rows8To16()
    requires LfsrAfter(56) == 0xca
    ensures LfsrAfter(112) == 0xaa
    ensures forall i :: 8 <= i < 16 ==> Uint64(KECCAKF_ROUND_CONSTANTS[i]) == RoundConstant(i)
  {
    hide Uint64, RoundConstant, LfsrAfter;
    LfsrRow(8, 0xca, 0x70, 0x000000000000008a);
    LfsrRow(9, 0x70, 0x41, 0x0000000000000088);
    LfsrRow(10, 0x41, 0xec, 0x0000000080008009);
    LfsrRow(11, 0xec, 0xd5, 0x000000008000000a);
    LfsrRow(12, 0xd5, 0xcd, 0x000000008000808b);
    LfsrRow(13, 0xcd, 0x63, 0x800000000000008b);
    LfsrRow(14, 0x63, 0xab, 0x8000000000008089);
    LfsrRow(15, 0xab, 0xaa, 0x8000000000008003);
  }

  lemma Rows16To24()
    requires LfsrAfter(112) == 0xaa
    ensures forall i :: 16 <= i < 24 ==> Uint64(KECCAKF_ROUND_CONSTANTS[i]) == RoundConstant(i)
  {
    hide Uint64, RoundConstant, LfsrAfter;
    LfsrRow(16, 0xaa, 0x2a, 0x8000000000008002);
    LfsrRow(17, 0x2a, 0xf2, 0x8000000000000080);
    LfsrRow(18, 0xf2, 0xe8, 0x000000000000800a);
    LfsrRow(19, 0xe8, 0x37, 0x800000008000000a);
    LfsrRow(20, 0x37, 0x3e, 0x8000000080008081);
    LfsrRow(21, 0x3e, 0x0b, 0x8000000000008080);
    LfsrRow(22, 0x0b, 0x44, 0x0000000080000001);
    LfsrRow(23, 0x44, 0x8e, 0x8000000080008008);
  }

  // The table of the unrolled code is what the LFSR generates.
  lemma TableIsLfsr()
    ensures forall i :: 0 <= i < 24 ==> Uint64(KECCAKF_ROUND_CONSTANTS[i]) == RoundConstant(i)
  {
    hide *;
    Rows0To8();
    Rows8To16();
    Rows16To24();
  }
}
