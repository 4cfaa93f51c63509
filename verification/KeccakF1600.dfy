/** The unrolled permutation of keccakf1600.c. */
module KeccakF1600 {
  import opened Words
  import opened KeccakP
  import opened RoundConstants

  // Lane (x, y) after theta, rotated by k.
  function Turned(A: State, x: nat, y: nat, k: nat): Lane
    requires x < 5 && y < 5 && k < 64
  {
    Rol64(Xor(A[x + 5 * y], Effect(A, x)), k)
  }

  // The lane that theta, rho and pi bring to (x, y).
  function Moved(A: State, x: nat, y: nat): Lane
    requires x < 5 && y < 5
  {
    var x' := Plus(x, Plus(y, Plus(y, y)));
    Turned(A, x', x, RhoOffset(x' + 5 * x))
  }

  lemma PiIs(P: State, x: nat, y: nat)
    requires x < 5 && y < 5
    ensures Pi(P)[x + 5 * y] == P[Source(x, y)]
  {
    hide Source;
    AtXY(x, y);
  }

  lemma TurnedIs(A: State, x: nat, y: nat)
    requires x < 5 && y < 5
    ensures Rho(Theta(A))[x + 5 * y] == Turned(A, x, y, RhoOffset(x + 5 * y))
  {
    hide Effect, RhoOffset, Rol64, Xor, X;
    AtXY(x, y);
    ThetaLane(A, x + 5 * y);
  }

  lemma ThetaLane(A: State, i: nat)
    requires i < 25
    ensures Theta(A)[i] == Xor(A[i], Effect(A, X(i)))
  {
    hide Effect, Xor, X;
  }

  lemma MovedIs(A: State, x: nat, y: nat)
    requires x < 5 && y < 5
    ensures Pi(Rho(Theta(A)))[x + 5 * y] == Moved(A, x, y)
  {
    hide Plus, Pi, Theta, Rho, Turned, RhoOffset;
    PiIs(Rho(Theta(A)), x, y);
    TurnedIs(A, Plus(x, Plus(y, Plus(y, y))), x);
  }

  lemma ChiIs(P: State, x: nat, y: nat)
    requires x < 5 && y < 5
    ensures Chi(P)[x + 5 * y] == ChiLane(P[x + 5 * y], P[Plus(x, 1) + 5 * y], P[Plus(x, 2) + 5 * y])
  {
    AtXY(x, y);
  }

  // A round before iota.
  function Mixed(A: State): State
  {
    Chi(Pi(Rho(Theta(A))))
  }

  // Plane y of R is chi's image of the five given lanes.
  predicate IsPlane(R: State, y: nat, a: Lane, e: Lane, i: Lane, o: Lane, u: Lane)
    requires y < 5
  {
    && R[5 * y] == ChiLane(a, e, i)
    && R[5 * y + 1] == ChiLane(e, i, o)
    && R[5 * y + 2] == ChiLane(i, o, u)
    && R[5 * y + 3] == ChiLane(o, u, a)
    && R[5 * y + 4] == ChiLane(u, a, e)
  }

  lemma PlaneIs(A: State, y: nat)
    requires y < 5
    ensures IsPlane(Mixed(A), y, Moved(A, 0, y), Moved(A, 1, y), Moved(A, 2, y), Moved(A, 3, y), Moved(A, 4, y))
  {
    hide Theta, Rho, Pi, Chi, Moved, ChiLane;
    var P := Pi(Rho(Theta(A)));
    MovedIs(A, 0, y);
    MovedIs(A, 1, y);
    MovedIs(A, 2, y);
    MovedIs(A, 3, y);
    MovedIs(A, 4, y);
    ChiIs(P, 0, y);
    ChiIs(P, 1, y);
    ChiIs(P, 2, y);
    ChiIs(P, 3, y);
    ChiIs(P, 4, y);
  }

  // The sources and the rotations that the unrolled code hard-codes, plane by plane.
  lemma Plane0(A: State, a: Lane, e: Lane, i: Lane, o: Lane, u: Lane)
    requires a == Turned(A, 0, 0, 0) && e == Turned(A, 1, 1, 44) && i == Turned(A, 2, 2, 43)
    requires o == Turned(A, 3, 3, 21) && u == Turned(A, 4, 4, 14)
    ensures IsPlane(Mixed(A), 0, a, e, i, o, u)
  {
    hide Turned, Mixed, IsPlane;
    PlaneIs(A, 0);
  }

  lemma Plane1(A: State, a: Lane, e: Lane, i: Lane, o: Lane, u: Lane)
    requires a == Turned(A, 3, 0, 28) && e == Turned(A, 4, 1, 20) && i == Turned(A, 0, 2, 3)
    requires o == Turned(A, 1, 3, 45) && u == Turned(A, 2, 4, 61)
    ensures IsPlane(Mixed(A), 1, a, e, i, o, u)
  {
    hide Turned, Mixed, IsPlane;
    PlaneIs(A, 1);
  }

  lemma Plane2(A: State, a: Lane, e: Lane, i: Lane, o: Lane, u: Lane)
    requires a == Turned(A, 1, 0, 1) && e == Turned(A, 2, 1, 6) && i == Turned(A, 3, 2, 25)
    requires o == Turned(A, 4, 3, 8) && u == Turned(A, 0, 4, 18)
    ensures IsPlane(Mixed(A), 2, a, e, i, o, u)
  {
    hide Turned, Mixed, IsPlane;
    PlaneIs(A, 2);
  }

  lemma Plane3(A: State, a: Lane, e: Lane, i: Lane, o: Lane, u: Lane)
    requires a == Turned(A, 4, 0, 27) && e == Turned(A, 0, 1, 36) && i == Turned(A, 1, 2, 10)
    requires o == Turned(A, 2, 3, 15) && u == Turned(A, 3, 4, 56)
    ensures IsPlane(Mixed(A), 3, a, e, i, o, u)
  {
    hide Turned, Mixed, IsPlane;
    PlaneIs(A, 3);
  }

  lemma Plane4(A: State, a: Lane, e: Lane, i: Lane, o: Lane, u: Lane)
    requires a == Turned(A, 2, 0, 62) && e == Turned(A, 3, 1, 55) && i == Turned(A, 4, 2, 39)
    requires o == Turned(A, 0, 3, 41) && u == Turned(A, 1, 4, 2)
    ensures IsPlane(Mixed(A), 4, a, e, i, o, u)
  {
    hide Turned, Mixed, IsPlane;
    PlaneIs(A, 4);
  }

  lemma EffectTable(A: State)
    ensures Effect(A, 0) == Xor(Column(A, 4), Rol(Column(A, 1), 1))
    ensures Effect(A, 1) == Xor(Column(A, 0), Rol(Column(A, 2), 1))
    ensures Effect(A, 2) == Xor(Column(A, 1), Rol(Column(A, 3), 1))
    ensures Effect(A, 3) == Xor(Column(A, 2), Rol(Column(A, 4), 1))
    ensures Effect(A, 4) == Xor(Column(A, 3), Rol(Column(A, 0), 1))
  {
    hide Column, Xor;
  }

  lemma Same25<T>(s: seq<T>, t: seq<T>)
    requires |s| == |t| == 25
    requires s[0] == t[0] && s[1] == t[1] && s[2] == t[2] && s[3] == t[3] && s[4] == t[4]
    requires s[5] == t[5] && s[6] == t[6] && s[7] == t[7] && s[8] == t[8] && s[9] == t[9]
    requires s[10] == t[10] && s[11] == t[11] && s[12] == t[12] && s[13] == t[13] && s[14] == t[14]
    requires s[15] == t[15] && s[16] == t[16] && s[17] == t[17] && s[18] == t[18] && s[19] == t[19]
    requires s[20] == t[20] && s[21] == t[21] && s[22] == t[22] && s[23] == t[23] && s[24] == t[24]
    ensures s == t
  {}

  // Half a turn of the loop. The code spells it twice, from the A lanes to the E lanes and back.
  method ThetaRhoPiChiIota(A: State, rc: Lane) returns (E: State)
    ensures E == Round(A, rc)
  {
    hide Xor, And, Not, Rol, Effect, Theta, Rho, Pi, Chi, Plus, X, Y, Source, RhoOffset;
    var Aba, Abe, Abi, Abo, Abu := A[0], A[1], A[2], A[3], A[4];
    var Aga, Age, Agi, Ago, Agu := A[5], A[6], A[7], A[8], A[9];
    var Aka, Ake, Aki, Ako, Aku := A[10], A[11], A[12], A[13], A[14];
    var Ama, Ame, Ami, Amo, Amu := A[15], A[16], A[17], A[18], A[19];
    var Asa, Ase, Asi, Aso, Asu := A[20], A[21], A[22], A[23], A[24];
    // The parities of the five columns
    var BCa := Xor(Xor(Xor(Xor(Aba, Aga), Aka), Ama), Asa);
    var BCe := Xor(Xor(Xor(Xor(Abe, Age), Ake), Ame), Ase);
    var BCi := Xor(Xor(Xor(Xor(Abi, Agi), Aki), Ami), Asi);
    var BCo := Xor(Xor(Xor(Xor(Abo, Ago), Ako), Amo), Aso);
    var BCu := Xor(Xor(Xor(Xor(Abu, Agu), Aku), Amu), Asu);

    // What theta adds to each column, and then plane by plane: theta, rho and pi in one go, and chi
    var Da := Xor(BCu, Rol(BCe, 1));
    var De := Xor(BCa, Rol(BCi, 1));
    var Di := Xor(BCe, Rol(BCo, 1));
    var Do := Xor(BCi, Rol(BCu, 1));
    var Du := Xor(BCo, Rol(BCa, 1));
    EffectTable(A);

    Aba := Xor(Aba, Da); BCa := Aba;
    Age := Xor(Age, De); BCe := Rol(Age, 44);
    Aki := Xor(Aki, Di); BCi := Rol(Aki, 43);
    Amo := Xor(Amo, Do); BCo := Rol(Amo, 21);
    Asu := Xor(Asu, Du); BCu := Rol(Asu, 14);
    var Eba := Xor(BCa, And(Not(BCe), BCi));
    Eba := Xor(Eba, rc);
    var Ebe := Xor(BCe, And(Not(BCi), BCo));
    var Ebi := Xor(BCi, And(Not(BCo), BCu));
    var Ebo := Xor(BCo, And(Not(BCu), BCa));
    var Ebu := Xor(BCu, And(Not(BCa), BCe));
    Plane0(A, BCa, BCe, BCi, BCo, BCu);

    Abo := Xor(Abo, Do); BCa := Rol(Abo, 28);
    Agu := Xor(Agu, Du); BCe := Rol(Agu, 20);
    Aka := Xor(Aka, Da); BCi := Rol(Aka, 3);
    Ame := Xor(Ame, De); BCo := Rol(Ame, 45);
    Asi := Xor(Asi, Di); BCu := Rol(Asi, 61);
    var Ega := Xor(BCa, And(Not(BCe), BCi));
    var Ege := Xor(BCe, And(Not(BCi), BCo));
    var Egi := Xor(BCi, And(Not(BCo), BCu));
    var Ego := Xor(BCo, And(Not(BCu), BCa));
    var Egu := Xor(BCu, And(Not(BCa), BCe));
    Plane1(A, BCa, BCe, BCi, BCo, BCu);

    Abe := Xor(Abe, De); BCa := Rol(Abe, 1);
    Agi := Xor(Agi, Di); BCe := Rol(Agi, 6);
    Ako := Xor(Ako, Do); BCi := Rol(Ako, 25);
    Amu := Xor(Amu, Du); BCo := Rol(Amu, 8);
    Asa := Xor(Asa, Da); BCu := Rol(Asa, 18);
    var Eka := Xor(BCa, And(Not(BCe), BCi));
    var Eke := Xor(BCe, And(Not(BCi), BCo));
    var Eki := Xor(BCi, And(Not(BCo), BCu));
    var Eko := Xor(BCo, And(Not(BCu), BCa));
    var Eku := Xor(BCu, And(Not(BCa), BCe));
    Plane2(A, BCa, BCe, BCi, BCo, BCu);

    Abu := Xor(Abu, Du); BCa := Rol(Abu, 27);
    Aga := Xor(Aga, Da); BCe := Rol(Aga, 36);
    Ake := Xor(Ake, De); BCi := Rol(Ake, 10);
    Ami := Xor(Ami, Di); BCo := Rol(Ami, 15);
    Aso := Xor(Aso, Do); BCu := Rol(Aso, 56);
    var Ema := Xor(BCa, And(Not(BCe), BCi));
    var Eme := Xor(BCe, And(Not(BCi), BCo));
    var Emi := Xor(BCi, And(Not(BCo), BCu));
    var Emo := Xor(BCo, And(Not(BCu), BCa));
    var Emu := Xor(BCu, And(Not(BCa), BCe));
    Plane3(A, BCa, BCe, BCi, BCo, BCu);

    Abi := Xor(Abi, Di); BCa := Rol(Abi, 62);
    Ago := Xor(Ago, Do); BCe := Rol(Ago, 55);
    Aku := Xor(Aku, Du); BCi := Rol(Aku, 39);
    Ama := Xor(Ama, Da); BCo := Rol(Ama, 41);
    Ase := Xor(Ase, De); BCu := Rol(Ase, 2);
    var Esa := Xor(BCa, And(Not(BCe), BCi));
    var Ese := Xor(BCe, And(Not(BCi), BCo));
    var Esi := Xor(BCi, And(Not(BCo), BCu));
    var Eso := Xor(BCo, And(Not(BCu), BCa));
    var Esu := Xor(BCu, And(Not(BCa), BCe));
    Plane4(A, BCa, BCe, BCi, BCo, BCu);

    E := [Eba, Ebe, Ebi, Ebo, Ebu]
      + [Ega, Ege, Egi, Ego, Egu]
      + [Eka, Eke, Eki, Eko, Eku]
      + [Ema, Eme, Emi, Emo, Emu]
      + [Esa, Ese, Esi, Eso, Esu];
    Same25(E, Round(A, rc));
  }

  /** KeccakF1600_StatePermute */
  method StatePermute(state: array<Lane>)
    requires state.Length == 25
    modifies state
    ensures state[..] == KeccakF(old(state[..]))
  {
    hide Round, RoundConstant, Uint64;
    var A: State := state[..];
    var round := 0;
    TableIsLfsr();
    while round < 24
      invariant 0 <= round <= 24 && round % 2 == 0
      invariant A == Rounds(old(state[..]), round)
    {
      var E := ThetaRhoPiChiIota(A, Uint64(KECCAKF_ROUND_CONSTANTS[round]));
      A := ThetaRhoPiChiIota(E, Uint64(KECCAKF_ROUND_CONSTANTS[round + 1]));
      round := round + 2;
    }
    forall i | 0 <= i < 25 {
      state[i] := A[i];
    }
  }
}
