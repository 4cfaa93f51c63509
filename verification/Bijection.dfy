/** Keccak-f[1600] is a bijection: every step mapping has an inverse. */
module Bijection {
  import opened Words
  import opened KeccakP

  // ---- theta: A + (parity of a column at distance s, rotated by j) + (another at distance t, rotated by k)

  datatype Mixer = Mixer(s: nat, j: nat, t: nat, k: nat)

  type Mixing = m: Mixer | m.s < 5 && m.j < 64 && m.t < 5 && m.k < 64 witness Mixer(0, 0, 0, 0)

  const THETA: Mixing := Mixer(4, 0, 1, 1)

  function Added(A: State, m: Mixing, x: nat, z: nat): bool
    requires x < 5 && z < 64
  {
    Parity(A, Plus(x, m.s), Back(z, m.j)) != Parity(A, Plus(x, m.t), Back(z, m.k))
  }

  function Mix(A: State, m: Mixing): State
  {
    seq(25, i requires 0 <= i < 25 => seq(64, z requires 0 <= z < 64 => A[i][z] != Added(A, m, X(i), z)))
  }

  function Twice(k: nat): (r: nat)
    requires k < 64
    ensures r < 64
  {
    if 2 * k < 64 then 2 * k else 2 * k - 64
  }

  function Double(m: Mixing): Mixing
  {
    Mixer(Plus(m.s, m.s), Twice(m.j), Plus(m.t, m.t), Twice(m.k))
  }

  lemma MixBit(A: State, m: Mixing, x: nat, y: nat, z: nat)
    requires x < 5 && y < 5 && z < 64
    ensures Bit(Mix(A, m), x, y, z) == (Bit(A, x, y, z) != Added(A, m, x, z))
  {
    hide Added;
    AtXY(x, y);
  }

  lemma MixParity(A: State, m: Mixing, x: nat, z: nat)
    requires x < 5 && z < 64
    ensures Parity(Mix(A, m), x, z) == (Parity(A, x, z) != Added(A, m, x, z))
  {
    hide Mix, Added, Bit;
    MixBit(A, m, x, 0, z);
    MixBit(A, m, x, 1, z);
    MixBit(A, m, x, 2, z);
    MixBit(A, m, x, 3, z);
    MixBit(A, m, x, 4, z);
  }

  lemma ThetaIsMixBit(A: State, x: nat, y: nat, z: nat)
    requires x < 5 && y < 5 && z < 64
    ensures Bit(Theta(A), x, y, z) == Bit(Mix(A, THETA), x, y, z)
  {
    hide Theta, Mix, Bit, Parity, Plus;
    ThetaBit(A, x, y, z);
    MixBit(A, THETA, x, y, z);
  }

  lemma ThetaIsMix(A: State)
    ensures Theta(A) == Mix(A, THETA)
  {
    hide *;
    forall x: nat, y: nat, z: nat | x < 5 && y < 5 && z < 64
      ensures Bit(Theta(A), x, y, z) == Bit(Mix(A, THETA), x, y, z)
    {
      ThetaIsMixBit(A, x, y, z);
    }
    SameBits(Theta(A), Mix(A, THETA));
  }

  // In the ring of column patterns: (1 + Yp)(1 + Yq) = 1 + Y(p + q + pq), bit by bit.
  lemma MixTwice(A: State, p: Mixing, q: Mixing, x: nat, y: nat, z: nat)
    requires x < 5 && y < 5 && z < 64
    ensures Bit(Mix(Mix(A, p), q), x, y, z) ==
      (Bit(A, x, y, z) != (Added(A, p, x, z) != (Added(A, q, x, z) !=
        (Added(A, p, Plus(x, q.s), Back(z, q.j)) != Added(A, p, Plus(x, q.t), Back(z, q.k))))))
  {
    hide Mix, Bit, Parity, Plus, Back;
    MixBit(A, p, x, y, z);
    MixBit(Mix(A, p), q, x, y, z);
    MixParity(A, p, Plus(x, q.s), Back(z, q.j));
    MixParity(A, p, Plus(x, q.t), Back(z, q.k));
  }

  lemma PlusPlus(x: nat, s: nat, t: nat)
    requires x < 5 && s < 5 && t < 5
    ensures Plus(Plus(x, s), t) == Plus(x, Plus(s, t)) == Plus(Plus(x, t), s)
  {}

  lemma BackTwice(z: nat, j: nat)
    requires z < 64 && j < 64
    ensures Back(Back(z, j), j) == Back(z, Twice(j))
  {}

  lemma BackSwap(z: nat, j: nat, k: nat)
    requires z < 64 && j < 64 && k < 64
    ensures Back(Back(z, j), k) == Back(Back(z, k), j)
  {}

  // (p)(p) = p^2: the cross terms cancel.
  lemma AddedTwice(A: State, m: Mixing, x: nat, z: nat)
    requires x < 5 && z < 64
    ensures (Added(A, m, Plus(x, m.s), Back(z, m.j)) != Added(A, m, Plus(x, m.t), Back(z, m.k)))
      == Added(A, Double(m), x, z)
  {
    hide Parity, Plus, Back, Twice;
    PlusPlus(x, m.s, m.t);
    PlusPlus(x, m.s, m.s);
    PlusPlus(x, m.t, m.t);
    BackSwap(z, m.j, m.k);
    BackTwice(z, m.j);
    BackTwice(z, m.k);
  }

  lemma MixSquareBit(A: State, m: Mixing, x: nat, y: nat, z: nat)
    requires x < 5 && y < 5 && z < 64
    ensures Bit(Mix(Mix(A, m), m), x, y, z) == Bit(Mix(A, Double(m)), x, y, z)
  {
    hide *;
    MixTwice(A, m, m, x, y, z);
    MixBit(A, Double(m), x, y, z);
    AddedTwice(A, m, x, z);
  }

  lemma MixSquare(A: State, m: Mixing)
    ensures Mix(Mix(A, m), m) == Mix(A, Double(m))
  {
    hide *;
    forall x: nat, y: nat, z: nat | x < 5 && y < 5 && z < 64
      ensures Bit(Mix(Mix(A, m), m), x, y, z) == Bit(Mix(A, Double(m)), x, y, z)
    {
      MixSquareBit(A, m, x, y, z);
    }
    SameBits(Mix(Mix(A, m), m), Mix(A, Double(m)));
  }

  function Iterate(n: nat, A: State): State
  {
    if n == 0 then A else Theta(Iterate(n - 1, A))
  }

  lemma {:induction false} IterateAdd(m: nat, n: nat, A: State)
    ensures Iterate(m + n, A) == Iterate(m, Iterate(n, A))
  {
    hide Theta;
    if m == 0 {
    } else {
      IterateAdd(m - 1, n, A);
    }
  }

  lemma ThetaSquares(n: nat, m: Mixing, A: State)
    requires forall B: State :: Iterate(n, B) == Mix(B, m)
    ensures Iterate(2 * n, A) == Mix(A, Double(m))
  {
    hide Mix, Iterate, Theta;
    IterateAdd(n, n, A);
    MixSquare(A, m);
  }

  lemma Theta64(A: State)
    ensures Iterate(32, A) == Mix(A, Mixer(3, 0, 2, 32))
    ensures Iterate(64, A) == Mix(A, Mixer(1, 0, 4, 0))
    ensures Iterate(128, A) == Mix(A, Mixer(2, 0, 3, 0))
  {
    hide Mix, Iterate, Theta;
    forall B: State ensures Iterate(1, B) == Mix(B, THETA) { ThetaOnce(B); }
    forall B: State ensures Iterate(2, B) == Mix(B, Mixer(3, 0, 2, 2)) { ThetaSquares(1, THETA, B); }
    forall B: State ensures Iterate(4, B) == Mix(B, Mixer(1, 0, 4, 4)) { ThetaSquares(2, Mixer(3, 0, 2, 2), B); }
    forall B: State ensures Iterate(8, B) == Mix(B, Mixer(2, 0, 3, 8)) { ThetaSquares(4, Mixer(1, 0, 4, 4), B); }
    forall B: State ensures Iterate(16, B) == Mix(B, Mixer(4, 0, 1, 16)) { ThetaSquares(8, Mixer(2, 0, 3, 8), B); }
    forall B: State ensures Iterate(32, B) == Mix(B, Mixer(3, 0, 2, 32)) { ThetaSquares(16, Mixer(4, 0, 1, 16), B); }
    forall B: State ensures Iterate(64, B) == Mix(B, Mixer(1, 0, 4, 0)) { ThetaSquares(32, Mixer(3, 0, 2, 32), B); }
    ThetaSquares(64, Mixer(1, 0, 4, 0), A);
  }

  lemma ThetaOnce(A: State)
    ensures Iterate(1, A) == Mix(A, THETA)
  {
    hide Theta, Mix;
    assert Iterate(0, A) == A;
    ThetaIsMix(A);
  }

  // (x + x^4) + (x^2 + x^3) + (x + x^4)(x^2 + x^3) = 0 modulo x^5 = 1.
  lemma AddedCancels(A: State, p: Mixing, q: Mixing, x: nat, z: nat)
    requires p == Mixer(1, 0, 4, 0) && q == Mixer(2, 0, 3, 0)
    requires x < 5 && z < 64
    ensures (Added(A, p, x, z) != Added(A, q, x, z))
      == (Added(A, p, Plus(x, q.s), Back(z, q.j)) != Added(A, p, Plus(x, q.t), Back(z, q.k)))
  {
    hide Parity;
  }

  // Three times 64 makes theta the identity.
  lemma ThetaOrder(A: State)
    ensures Iterate(192, A) == A
  {
    hide *;
    var p, q := Mixer(1, 0, 4, 0), Mixer(2, 0, 3, 0);
    IterateAdd(128, 64, A);
    Theta64(A);
    Theta64(Mix(A, p));
    forall x: nat, y: nat, z: nat | x < 5 && y < 5 && z < 64
      ensures Bit(Mix(Mix(A, p), q), x, y, z) == Bit(A, x, y, z)
    {
      MixTwice(A, p, q, x, y, z);
      AddedCancels(A, p, q, x, z);
    }
    SameBits(Mix(Mix(A, p), q), A);
  }

  // ---- no smaller power of theta, and only the multiples of 192

  ghost predicate Fixes(n: nat)
  {
    forall A: State :: Iterate(n, A) == A
  }

  // One bit, at the origin.
  function OneBit(): State
  {
    seq(25, _ => Zero(64))[0 := One(64)]
  }

  lemma OneBitParity(x: nat, z: nat)
    requires x < 5 && z < 64
    ensures Parity(OneBit(), x, z) == (x == 0 && z == 0)
    ensures Bit(OneBit(), x, 0, z) == (x == 0 && z == 0)
  {}

  lemma Not64()
    ensures !Fixes(64)
  {
    hide Iterate, Theta, Mix, OneBit, Parity, Bit;
    var A, p := OneBit(), Mixer(1, 0, 4, 0);
    Theta64(A);
    OneBitParity(0, 0);
    OneBitParity(3, 0);
    OneBitParity(4, 0);
    MixBit(A, p, 4, 0, 0);
  }

  // Theta 96 times is the sum of two mixers and their product; bit (2, 0, 0) is only in one of the three.
  lemma Not96()
    ensures !Fixes(96)
  {
    hide Iterate, Theta, Mix, OneBit, Parity, Bit;
    var A, q, p := OneBit(), Mixer(3, 0, 2, 32), Mixer(1, 0, 4, 0);
    IterateAdd(64, 32, A);
    Theta64(A);
    Theta64(Mix(A, q));
    MixTwice(A, q, p, 2, 0, 0);
    forall x: nat, z: nat | x < 5 && z < 64
      ensures Parity(A, x, z) == (x == 0 && z == 0) && Bit(A, x, 0, z) == (x == 0 && z == 0)
    {
      OneBitParity(x, z);
    }
  }

  lemma FixesSum(m: nat, n: nat)
    requires Fixes(n)
    ensures Fixes(m + n) <==> Fixes(m)
  {
    hide Iterate, Theta;
    var sum := m + n;
    if Fixes(m) {
      forall A: State ensures Iterate(sum, A) == A {
        IterateAdd(m, n, A);
      }
    }
    if Fixes(sum) {
      forall A: State ensures Iterate(m, A) == A {
        IterateAdd(m, n, A);
        assert Iterate(sum, A) == A;
      }
    }
  }

  lemma FixesZero()
    ensures Fixes(0)
  {}

  lemma {:induction false} FixesMultiple(k: nat, n: nat)
    requires Fixes(n)
    ensures Fixes(k * n)
  {
    hide Fixes;
    if k == 0 {
      FixesZero();
    } else {
      FixesMultiple(k - 1, n);
      FixesSum((k - 1) * n, n);
      assert k * n == (k - 1) * n + n;
    }
  }

  // Multiples of 192 do not matter.
  lemma FixesModulo(t: nat, x: nat)
    ensures Fixes(192 * t + x) <==> Fixes(x)
  {
    hide Iterate, Theta;
    forall A: State ensures Iterate(192, A) == A {
      ThetaOrder(A);
    }
    hide Fixes;
    FixesMultiple(t, 192);
    FixesSum(x, 192 * t);
  }

  // A multiple of s that leaves 32 modulo 64.
  lemma Half64(s: nat) returns (k: nat, t: nat)
    requires 0 < s < 64
    ensures k * s == 64 * t + 32
  {
    if s % 2 == 1 {
      k, t := 32, s / 2;
    } else if s % 4 == 2 {
      k, t := 16, s / 4;
    } else {
      k, t := Half16(s / 4);
    }
  }

  lemma Half16(q: nat) returns (k: nat, t: nat)
    requires 0 < q < 16
    ensures k * (4 * q) == 64 * t + 32
  {
    if q % 2 == 1 {
      k, t := 8, q / 2;
    } else if q % 4 == 2 {
      k, t := 4, q / 4;
    } else if q == 8 {
      k, t := 1, 0;
    } else {
      k, t := 2, q / 8;
    }
  }

  lemma NotBelow192(r: nat)
    requires 0 < r < 192
    ensures !Fixes(r)
  {
    hide Fixes;
    Not64();
    Not96();
    if Fixes(r) {
      if r % 3 == 0 {
        var k, t := Half64(r / 3);
        FixesMultiple(k, r);
        assert k * r == 3 * (k * (r / 3)) == 192 * t + 96;
        FixesModulo(t, 96);
      } else {
        FixesMultiple(64, r);
        FixesModulo(r / 3, 64 * (r % 3));
        assert 64 * r == 192 * (r / 3) + 64 * (r % 3);
        if r % 3 == 2 {
          FixesSum(128, 128);
          FixesModulo(1, 64);
        }
      }
    }
  }

  lemma FixesExactly(n: nat)
    ensures Fixes(n) <==> n % 192 == 0
  {
    hide Fixes;
    FixesModulo(n / 192, n % 192);
    if n % 192 == 0 {
      FixesZero();
    } else {
      NotBelow192(n % 192);
    }
  }

  /** A power of theta is the identity if its exponent is a multiple of 192. */
  lemma ThetaMultiple(n: nat, A: State)
    requires n % 192 == 0
    ensures Iterate(n, A) == A
  {
    hide Iterate, Theta;
    FixesExactly(n);
  }

  /** Otherwise there is a state that it changes. */
  lemma ThetaOther(n: nat) returns (A: State)
    requires n % 192 != 0
    ensures Iterate(n, A) != A
  {
    hide Iterate, Theta;
    FixesExactly(n);
    A :| Iterate(n, A) != A;
  }

  // ---- chi: every row of five bits is a permutation, and four times makes it the identity

  datatype Row = Row(a: bool, b: bool, c: bool, d: bool, e: bool)

  function ChiRow(r: Row): Row
  {
    Row(r.a != (!r.b && r.c), r.b != (!r.c && r.d), r.c != (!r.d && r.e), r.d != (!r.e && r.a), r.e != (!r.a && r.b))
  }

  lemma ChiRowOrder(r: Row)
    ensures ChiRow(ChiRow(ChiRow(ChiRow(r)))) == r
  {}

  function RowAt(A: State, y: nat, z: nat): Row
    requires y < 5 && z < 64
  {
    Row(Bit(A, 0, y, z), Bit(A, 1, y, z), Bit(A, 2, y, z), Bit(A, 3, y, z), Bit(A, 4, y, z))
  }

  lemma ChiByRows(A: State, y: nat, z: nat)
    requires y < 5 && z < 64
    ensures RowAt(Chi(A), y, z) == ChiRow(RowAt(A, y, z))
  {
    hide Chi, Bit;
    ChiBit(A, 0, y, z);
    ChiBit(A, 1, y, z);
    ChiBit(A, 2, y, z);
    ChiBit(A, 3, y, z);
    ChiBit(A, 4, y, z);
  }

  lemma SameRows(A: State, B: State)
    requires forall y: nat, z: nat :: y < 5 && z < 64 ==> RowAt(A, y, z) == RowAt(B, y, z)
    ensures A == B
  {
    forall x: nat, y: nat, z: nat | x < 5 && y < 5 && z < 64
      ensures Bit(A, x, y, z) == Bit(B, x, y, z)
    {
      hide Bit;
      assert RowAt(A, y, z) == RowAt(B, y, z);
    }
    hide Bit, RowAt;
    SameBits(A, B);
  }

  lemma ChiOrder(A: State)
    ensures Chi(Chi(Chi(Chi(A)))) == A
  {
    hide *;
    forall y: nat, z: nat | y < 5 && z < 64
      ensures RowAt(Chi(Chi(Chi(Chi(A)))), y, z) == RowAt(A, y, z)
    {
      ChiByRows(A, y, z);
      ChiByRows(Chi(A), y, z);
      ChiByRows(Chi(Chi(A)), y, z);
      ChiByRows(Chi(Chi(Chi(A))), y, z);
      ChiRowOrder(RowAt(A, y, z));
    }
    SameRows(Chi(Chi(Chi(Chi(A)))), A);
  }

  /** Twice is not: there is a state that chi squared changes. */
  lemma ChiTwice() returns (A: State)
    ensures Chi(Chi(A)) != A
  {
    A := OneBit();
    OneBitRow();
    hide Chi, OneBit, RowAt;
    ChiByRows(A, 0, 0);
    ChiByRows(Chi(A), 0, 0);
  }

  lemma OneBitRow()
    ensures RowAt(OneBit(), 0, 0) == Row(true, false, false, false, false)
  {}

  // ---- rho, pi and iota

  function Opposite(k: nat): (r: nat)
    requires k < 64
    ensures r < 64
  {
    if k == 0 then 0 else 64 - k
  }

  function RhoInverse(A: State): State
  {
    seq(25, i requires 0 <= i < 25 => Rol64(A[i], Opposite(RhoOffset(i))))
  }

  lemma RhoUndone(A: State)
    ensures RhoInverse(Rho(A)) == A && Rho(RhoInverse(A)) == A
  {
    forall i: nat | i < 25
      ensures RhoInverse(Rho(A))[i] == A[i] && Rho(RhoInverse(A))[i] == A[i]
    {
      var k := RhoOffset(i);
      hide RhoOffset, Rol64;
      RolUndo(A[i], k, Opposite(k));
      RolUndo(A[i], Opposite(k), k);
    }
  }

  // Where pi takes the lane at (x, y).
  function Destination(x: nat, y: nat): (j: nat)
    requires x < 5 && y < 5
    ensures j < 25
  {
    y + 5 * Plus(Plus(x, x), Plus(y, Plus(y, y)))
  }

  function PiInverse(A: State): State
  {
    seq(25, i requires 0 <= i < 25 => A[Destination(X(i), Y(i))])
  }

  lemma PiThere(x: nat, y: nat)
    requires x < 5 && y < 5
    ensures var s := Plus(x, Plus(y, Plus(y, y))); Plus(Plus(s, s), Plus(x, Plus(x, x))) == y
  {}

  lemma PiBack(x: nat, y: nat)
    requires x < 5 && y < 5
    ensures var d := Plus(Plus(x, x), Plus(y, Plus(y, y))); Plus(y, Plus(d, Plus(d, d))) == x
  {}

  lemma SourceUndone(i: nat)
    requires i < 25
    ensures Destination(X(Source(X(i), Y(i))), Y(Source(X(i), Y(i)))) == i
    ensures Source(X(Destination(X(i), Y(i))), Y(Destination(X(i), Y(i)))) == i
  {
    hide Plus, X, Y;
    var x, y := X(i), Y(i);
    PiThere(x, y);
    PiBack(x, y);
    AtXY(Plus(x, Plus(y, Plus(y, y))), x);
    AtXY(y, Plus(Plus(x, x), Plus(y, Plus(y, y))));
    XYAt(i);
  }

  lemma PiUndone(A: State)
    ensures PiInverse(Pi(A)) == A && Pi(PiInverse(A)) == A
  {
    forall i: nat | i < 25
      ensures PiInverse(Pi(A))[i] == A[i] && Pi(PiInverse(A))[i] == A[i]
    {
      hide Source, Destination, X, Y;
      SourceUndone(i);
    }
  }

  lemma IotaUndone(A: State, rc: Lane)
    ensures Iota(Iota(A, rc), rc) == A
  {
    assert Xor(Xor(A[0], rc), rc) == A[0];
  }

  // ---- a round, and all of them

  function RoundInverse(A: State, rc: Lane): State
  {
    Iterate(191, RhoInverse(PiInverse(Chi(Chi(Chi(Iota(A, rc)))))))
  }

  lemma ThetaUndone(A: State)
    ensures Iterate(191, Theta(A)) == A && Theta(Iterate(191, A)) == A
  {
    hide Theta;
    assert Iterate(1, A) == Theta(Iterate(0, A));
    hide *;
    IterateAdd(191, 1, A);
    IterateAdd(1, 191, A);
    ThetaOrder(A);
  }

  lemma RoundUndone(A: State, rc: Lane)
    ensures RoundInverse(Round(A, rc), rc) == A && Round(RoundInverse(A, rc), rc) == A
  {
    hide Theta, Rho, Pi, Chi, Iota, RhoInverse, PiInverse, Iterate;
    var T := Theta(A);
    var P := Pi(Rho(T));
    ThetaUndone(A);
    RhoUndone(T);
    PiUndone(Rho(T));
    ChiOrder(P);
    IotaUndone(Chi(P), rc);
    var C := Iota(A, rc);
    var Q := Chi(Chi(Chi(C)));
    IotaUndone(A, rc);
    ChiOrder(C);
    PiUndone(Q);
    RhoUndone(PiInverse(Q));
    ThetaUndone(RhoInverse(PiInverse(Q)));
  }

  function RoundsInverse(A: State, n: nat): State
    decreases n
  {
    if n == 0 then A else RoundsInverse(RoundInverse(A, RoundConstant(n - 1)), n - 1)
  }

  lemma {:induction false} RoundsUndone(A: State, n: nat)
    ensures RoundsInverse(Rounds(A, n), n) == A && Rounds(RoundsInverse(A, n), n) == A
    decreases n
  {
    hide Round, RoundInverse, RoundConstant;
    if n > 0 {
      var rc := RoundConstant(n - 1);
      RoundsUndone(A, n - 1);
      RoundUndone(Rounds(A, n - 1), rc);
      RoundsUndone(RoundInverse(A, rc), n - 1);
      RoundUndone(A, rc);
    }
  }

  function KeccakFInverse(A: State): State
  {
    RoundsInverse(A, 24)
  }

  lemma KeccakFIsBijective(A: State, B: State)
    ensures KeccakF(A) == B <==> A == KeccakFInverse(B)
  {
    hide Rounds, RoundsInverse;
    RoundsUndone(A, 24);
    RoundsUndone(B, 24);
  }
}
