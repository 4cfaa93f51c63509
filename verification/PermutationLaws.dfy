/** Keccak-f[1600] in the terms of section 3 of FIPS 202: bits, remainders and numbers only. */
module PermutationLaws {
  import opened Words
  import opened KeccakP
  import opened RoundConstants
  import opened BitStrings
  import Bijection
  import Keccak
  import KeccakReference
  import WordLaws
  import ByteView

  // ---- section 3.2: the five step mappings on bit (x, y, z), at word x + 5y

  lemma Remainders(x: nat, s: nat)
    requires x < 5 && s < 5
    ensures Plus(x, s) == (x + s) % 5
  {}

  lemma BitLaw(A: State, x: nat, y: nat, z: nat)
    requires x < 5 && y < 5 && z < 64
    ensures Bit(A, x, y, z) == A[x + 5 * y][z]
  {}

  lemma ParityLaw(A: State, x: nat, z: nat)
    requires x < 5 && z < 64
    ensures Parity(A, x, z) == (A[x][z] != (A[x + 5][z] != (A[x + 10][z] != (A[x + 15][z] != A[x + 20][z]))))
  {}

  lemma BitBelow(z: nat)
    requires z < 64
    ensures Back(z, 1) == (z + 63) % 64
  {}

  lemma Offsets()
    ensures |RHO_OFFSETS| == 25
    ensures RHO_OFFSETS[0] == 0 && RHO_OFFSETS[1] == 1 && RHO_OFFSETS[2] == 62
    ensures RHO_OFFSETS[3] == 28 && RHO_OFFSETS[4] == 27
    ensures RHO_OFFSETS[5] == 36 && RHO_OFFSETS[6] == 44 && RHO_OFFSETS[7] == 6
    ensures RHO_OFFSETS[8] == 55 && RHO_OFFSETS[9] == 20
    ensures RHO_OFFSETS[10] == 3 && RHO_OFFSETS[11] == 10 && RHO_OFFSETS[12] == 43
    ensures RHO_OFFSETS[13] == 25 && RHO_OFFSETS[14] == 39
    ensures RHO_OFFSETS[15] == 41 && RHO_OFFSETS[16] == 45 && RHO_OFFSETS[17] == 15
    ensures RHO_OFFSETS[18] == 21 && RHO_OFFSETS[19] == 8
    ensures RHO_OFFSETS[20] == 18 && RHO_OFFSETS[21] == 2 && RHO_OFFSETS[22] == 61
    ensures RHO_OFFSETS[23] == 56 && RHO_OFFSETS[24] == 14
  {}

  lemma OffsetBelow64(i: nat)
    requires i < 25
    ensures RhoOffset(i) == RHO_OFFSETS[i] < 64
  {
    Offsets();
  }

  lemma RhoLane(A: State, i: nat)
    requires i < 25
    ensures Rho(A)[i] == Rol64(A[i], RhoOffset(i))
  {
    hide Rol64, RhoOffset;
  }

  lemma RhoLaw(A: State, i: nat, z: nat, k: nat)
    requires i < 25 && z < 64 && k == RHO_OFFSETS[i]
    ensures k < 64 && Rho(A)[i][(z + k) % 64] == A[i][z]
  {
    hide Rol64, Rho, RhoOffset, RHO_OFFSETS;
    OffsetBelow64(i);
    RhoLane(A, i);
    WordLaws.RotationIsLeft(A[i], k, z);
  }

  lemma PiLaw(A: State, x: nat, y: nat)
    requires x < 5 && y < 5
    ensures Pi(A)[x + 5 * y] == A[(x + 3 * y) % 5 + 5 * x]
  {
    hide Plus;
    AtXY(x, y);
    ThriceAnd(x, y);
  }

  lemma ThriceAnd(x: nat, y: nat)
    requires x < 5 && y < 5
    ensures Plus(x, Plus(y, Plus(y, y))) == (x + 3 * y) % 5
  {
    var v, w := Plus(y, y), Plus(y, Plus(y, y));
    var q := (if y + y < 5 then 0 else 1) + (if y + v < 5 then 0 else 1) + (if x + w < 5 then 0 else 1);
    assert x + 3 * y == 5 * q + Plus(x, w);
  }

  lemma ChiLaw(A: State, x: nat, y: nat, z: nat)
    requires x < 5 && y < 5 && z < 64
    ensures Chi(A)[x + 5 * y][z]
      == (A[x + 5 * y][z] != (!A[(x + 1) % 5 + 5 * y][z] && A[(x + 2) % 5 + 5 * y][z]))
  {
    hide Chi, Plus;
    Remainders(x, 1);
    Remainders(x, 2);
    ChiBit(A, x, y, z);
  }

  lemma IotaLaw(A: State, rc: Lane, i: nat, z: nat)
    requires i < 25 && z < 64
    ensures Iota(A, rc)[i][z] == if i == 0 then A[0][z] != rc[z] else A[i][z]
  {}

  // ---- sections 3.3 and 3.4: 24 rounds, with these constants

  lemma Constants0To8()
    ensures |KECCAKF_ROUND_CONSTANTS| == 24
    ensures KECCAKF_ROUND_CONSTANTS[0] == 0x0000000000000001 && KECCAKF_ROUND_CONSTANTS[1] == 0x0000000000008082
    ensures KECCAKF_ROUND_CONSTANTS[2] == 0x800000000000808a && KECCAKF_ROUND_CONSTANTS[3] == 0x8000000080008000
    ensures KECCAKF_ROUND_CONSTANTS[4] == 0x000000000000808b && KECCAKF_ROUND_CONSTANTS[5] == 0x0000000080000001
    ensures KECCAKF_ROUND_CONSTANTS[6] == 0x8000000080008081 && KECCAKF_ROUND_CONSTANTS[7] == 0x8000000000008009
  {}

  lemma Constants8To16()
    ensures KECCAKF_ROUND_CONSTANTS[8] == 0x000000000000008a && KECCAKF_ROUND_CONSTANTS[9] == 0x0000000000000088
    ensures KECCAKF_ROUND_CONSTANTS[10] == 0x0000000080008009 && KECCAKF_ROUND_CONSTANTS[11] == 0x000000008000000a
    ensures KECCAKF_ROUND_CONSTANTS[12] == 0x000000008000808b && KECCAKF_ROUND_CONSTANTS[13] == 0x800000000000008b
    ensures KECCAKF_ROUND_CONSTANTS[14] == 0x8000000000008089 && KECCAKF_ROUND_CONSTANTS[15] == 0x8000000000008003
  {}

  lemma Constants16To24()
    ensures KECCAKF_ROUND_CONSTANTS[16] == 0x8000000000008002 && KECCAKF_ROUND_CONSTANTS[17] == 0x8000000000000080
    ensures KECCAKF_ROUND_CONSTANTS[18] == 0x000000000000800a && KECCAKF_ROUND_CONSTANTS[19] == 0x800000008000000a
    ensures KECCAKF_ROUND_CONSTANTS[20] == 0x8000000080008081 && KECCAKF_ROUND_CONSTANTS[21] == 0x8000000000008080
    ensures KECCAKF_ROUND_CONSTANTS[22] == 0x0000000080000001 && KECCAKF_ROUND_CONSTANTS[23] == 0x8000000080008008
  {}

  lemma RoundsLaw(A: State, n: nat)
    ensures Rounds(A, 0) == A
    ensures n < 24 ==>
      Rounds(A, n + 1) == Iota(Chi(Pi(Rho(Theta(Rounds(A, n))))), Uint64(KECCAKF_ROUND_CONSTANTS[n]))
  {
    hide Theta, Rho, Pi, Chi, Iota, RoundConstant, Uint64;
    TableIsLfsr();
  }

  lemma TwentyFourRounds(A: State)
    ensures KeccakF(A) == Rounds(A, 24)
    ensures Keccak.KeccakBits(LaneBits(A)) == LaneBits(Rounds(A, 24))
  {
    hide Rounds, LaneBits, ByteView.ToLanes;
    Keccak.ToLanesOf(A);
  }

  // ---- the tables of the reference code, and the iteration of theta

  lemma TablesLaw(p: KeccakReference.Permutation, i: nat)
    requires p.Initialized() && i < 25
    ensures p.KeccakRhoOffsets[i] == RHO_OFFSETS[i]
    ensures i < 24 ==> p.KeccakRoundConstants[i] == Uint64(KECCAKF_ROUND_CONSTANTS[i])
  {
    hide RoundConstant, Uint64;
    Offsets();
    TableIsLfsr();
  }

  lemma MixersLaw(A: State, m: Bijection.Mixing, x: nat, y: nat, z: nat)
    requires x < 5 && y < 5 && z < 64
    ensures Bijection.Mix(A, m)[x + 5 * y][z] == (A[x + 5 * y][z]
      != (Parity(A, Plus(x, m.s), Back(z, m.j)) != Parity(A, Plus(x, m.t), Back(z, m.k))))
    ensures Back(z, m.j) == (z + 64 - m.j) % 64
    ensures Bijection.Double(m) == Bijection.Mixer(2 * m.s % 5, 2 * m.j % 64, 2 * m.t % 5, 2 * m.k % 64)
  {
    hide Parity, Plus, Back, Bijection.Mix;
    BackLaw(z, m.j);
    Bijection.MixBit(A, m, x, y, z);
    Remainders(m.s, m.s);
    Remainders(m.t, m.t);
  }

  lemma BackLaw(z: nat, k: nat)
    requires z < 64 && k < 64
    ensures Back(z, k) == (z + 64 - k) % 64
  {}

  lemma IterationLaw(A: State, n: nat)
    ensures Bijection.Iterate(0, A) == A && Bijection.Iterate(n + 1, A) == Theta(Bijection.Iterate(n, A))
  {
    hide Theta;
  }
}
