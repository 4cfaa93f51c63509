/** The step mappings of Keccak-f[1600] on 25 words of 64 bits, bit by bit as in section 3.2 of FIPS 202. */
module KeccakP {
  import opened Words

  type State = s: seq<Lane> | |s| == 25 witness seq(25, _ => Zero(64))

  // Coordinates in the plane of lanes are added modulo 5.
  function Plus(x: nat, s: nat): (r: nat)
    requires x < 5 && s < 5
    ensures r < 5
  {
    if x + s < 5 then x + s else x + s - 5
  }

  // Lane (x, y) is stored at index x + 5y.
  function Y(i: nat): (y: nat)
    requires i < 25
    ensures 5 * y <= i < 5 * y + 5
  {
    if i < 5 then 0 else if i < 10 then 1 else if i < 15 then 2 else if i < 20 then 3 else 4
  }

  function X(i: nat): (x: nat)
    requires i < 25
    ensures x < 5
  {
    i - 5 * Y(i)
  }

  lemma AtXY(x: nat, y: nat)
    requires x < 5 && y < 5
    ensures X(x + 5 * y) == x && Y(x + 5 * y) == y
  {}

  lemma XYAt(i: nat)
    requires i < 25
    ensures Y(i) < 5 && X(i) + 5 * Y(i) == i
  {}

  function Column(A: State, x: nat): Lane
    requires x < 5
  {
    Xor(Xor(Xor(Xor(A[x], A[x + 5]), A[x + 10]), A[x + 15]), A[x + 20])
  }

  function Effect(A: State, x: nat): Lane
    requires x < 5
  {
    Xor(Column(A, Plus(x, 4)), Rol64(Column(A, Plus(x, 1)), 1))
  }

  function Theta(A: State): State
  {
    seq(25, i requires 0 <= i < 25 => Xor(A[i], Effect(A, X(i))))
  }

  const RHO_OFFSETS: seq<nat> :=
    [0, 1, 62, 28, 27, 36, 44, 6, 55, 20, 3, 10, 43, 25, 39, 41, 45, 15, 21, 8, 18, 2, 61, 56, 14]

  function RhoOffset(i: nat): (k: nat)
    requires i < 25
    ensures k < 64
  {
    RHO_OFFSETS[i] % 64
  }

  function Rho(A: State): State
  {
    seq(25, i requires 0 <= i < 25 => Rol64(A[i], RhoOffset(i)))
  }

  // The lane that pi brings to (x, y).
  function Source(x: nat, y: nat): (j: nat)
    requires x < 5 && y < 5
    ensures j < 25
  {
    Plus(x, Plus(y, Plus(y, y))) + 5 * x
  }

  function Pi(A: State): State
  {
    seq(25, i requires 0 <= i < 25 => A[Source(X(i), Y(i))])
  }

  function ChiLane(a: Lane, b: Lane, c: Lane): Lane
  {
    Xor(a, And(Not(b), c))
  }

  function ChiAt(A: State, x: nat, y: nat): Lane
    requires x < 5 && y < 5
  {
    ChiLane(A[x + 5 * y], A[Plus(x, 1) + 5 * y], A[Plus(x, 2) + 5 * y])
  }

  function Chi(A: State): State
  {
    seq(25, i requires 0 <= i < 25 => ChiAt(A, X(i), Y(i)))
  }

  function Iota(A: State, rc: Lane): State
  {
    A[0 := Xor(A[0], rc)]
  }

  function Round(A: State, rc: Lane): State
  {
    Iota(Chi(Pi(Rho(Theta(A)))), rc)
  }

  // ---- round constants: bit 2^j - 1 of constant i is output 7i + j of an 8-bit LFSR

  function LfsrStep(s: bv8): bv8
  {
    if s & 0x80 != 0 then (s << 1) ^ 0x71 else s << 1
  }

  function LfsrAfter(t: nat): bv8
  {
    if t == 0 then 1 else LfsrStep(LfsrAfter(t - 1))
  }

  function RcBit(t: nat): bool
  {
    LfsrAfter(t) & 1 != 0
  }

  // 2^j - 1
  function BitPosition(j: nat): (z: nat)
    requires j < 7
    ensures z < 64
  {
    if j == 0 then 0 else if j == 1 then 1 else if j == 2 then 3 else if j == 3 then 7
    else if j == 4 then 15 else if j == 5 then 31 else 63
  }

  function RoundConstantUpTo(i: nat, j: nat): Lane
    requires j <= 7
  {
    if j == 0 then Zero(64) else RoundConstantUpTo(i, j - 1)[BitPosition(j - 1) := RcBit(7 * i + j - 1)]
  }

  function RoundConstant(i: nat): Lane
  {
    RoundConstantUpTo(i, 7)
  }

  function Rounds(A: State, n: nat): State
  {
    if n == 0 then A else Round(Rounds(A, n - 1), RoundConstant(n - 1))
  }

  function KeccakF(A: State): State
  {
    Rounds(A, 24)
  }

  // ---- coordinates

  function Bit(A: State, x: nat, y: nat, z: nat): bool
    requires x < 5 && y < 5 && z < 64
  {
    A[x + 5 * y][z]
  }

  function Parity(A: State, x: nat, z: nat): bool
    requires x < 5 && z < 64
  {
    Bit(A, x, 0, z) != (Bit(A, x, 1, z) != (Bit(A, x, 2, z) != (Bit(A, x, 3, z) != Bit(A, x, 4, z))))
  }

  lemma SameBits(A: State, B: State)
    requires forall x: nat, y: nat, z: nat :: x < 5 && y < 5 && z < 64 ==> Bit(A, x, y, z) == Bit(B, x, y, z)
    ensures A == B
  {
    forall i: nat | i < 25 ensures A[i] == B[i] {
      forall z: nat | z < 64 ensures A[i][z] == B[i][z] {
        assert Bit(A, X(i), Y(i), z) == Bit(B, X(i), Y(i), z);
      }
    }
  }

  lemma ColumnBit(A: State, x: nat, z: nat)
    requires x < 5 && z < 64
    ensures Column(A, x)[z] == Parity(A, x, z)
  {}

  lemma EffectBit(A: State, x: nat, z: nat)
    requires x < 5 && z < 64
    ensures Effect(A, x)[z] == (Parity(A, Plus(x, 4), z) != Parity(A, Plus(x, 1), Back(z, 1)))
  {
    hide Column, Parity, Rol64, Plus, Back;
    ColumnBit(A, Plus(x, 4), z);
    ColumnBit(A, Plus(x, 1), Back(z, 1));
    RolAt(Column(A, Plus(x, 1)), 1, z);
  }

  lemma ThetaBit(A: State, x: nat, y: nat, z: nat)
    requires x < 5 && y < 5 && z < 64
    ensures Bit(Theta(A), x, y, z) ==
      (Bit(A, x, y, z) != (Parity(A, Plus(x, 4), z) != Parity(A, Plus(x, 1), Back(z, 1))))
  {
    hide Effect, Parity, Plus, Back;
    EffectBit(A, x, z);
    AtXY(x, y);
  }

  lemma RhoBit(A: State, x: nat, y: nat, z: nat)
    requires x < 5 && y < 5 && z < 64
    ensures Bit(Rho(A), x, y, z) == Bit(A, x, y, Back(z, RhoOffset(x + 5 * y)))
  {
    hide RhoOffset, Rol64, Back;
    RolAt(A[x + 5 * y], RhoOffset(x + 5 * y), z);
  }

  lemma PiBit(A: State, x: nat, y: nat, z: nat)
    requires x < 5 && y < 5 && z < 64
    ensures Bit(Pi(A), x, y, z) == Bit(A, Plus(x, Plus(y, Plus(y, y))), x, z)
  {
    AtXY(x, y);
  }

  lemma ChiBit(A: State, x: nat, y: nat, z: nat)
    requires x < 5 && y < 5 && z < 64
    ensures Bit(Chi(A), x, y, z) == (Bit(A, x, y, z) != (!Bit(A, Plus(x, 1), y, z) && Bit(A, Plus(x, 2), y, z)))
  {
    AtXY(x, y);
  }

  lemma IotaBit(A: State, rc: Lane, x: nat, y: nat, z: nat)
    requires x < 5 && y < 5 && z < 64
    ensures Bit(Iota(A, rc), x, y, z) == (Bit(A, x, y, z) != (x == 0 && y == 0 && rc[z]))
  {}
}
