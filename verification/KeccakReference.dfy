/** The step-by-step permutation of KeccakF-1600-reference.c, in place on 25 words. */
module KeccakReference {
  import opened Words
  import opened KeccakP
  import opened Bijection

  function Index(x: nat, y: nat): (i: nat)
    ensures i < 25
  {
    x % 5 + 5 * (y % 5)
  }

  lemma ModuloFive(x: nat, s: nat)
    requires x < 5 && s < 5
    ensures (x + s) % 5 == Plus(x, s)
  {}

  lemma IndexIs(x: nat, y: nat)
    requires x < 5 && y < 5
    ensures Index(x, y) == x + 5 * y
    ensures Index(x + 1, y) == Plus(x, 1) + 5 * y
    ensures Index(x + 2, y) == Plus(x, 2) + 5 * y
  {
    ModuloFive(x, 0);
    ModuloFive(y, 0);
    ModuloFive(x, 1);
    ModuloFive(x, 2);
  }

  lemma PiIndexIs(x: nat, y: nat)
    requires x < 5 && y < 5
    ensures Index(0 * x + 1 * y, 2 * x + 3 * y) == Destination(x, y)
  {
    ModuloFive(y, 0);
    TwiceAndThrice(x, y);
  }

  lemma TwiceAndThrice(x: nat, y: nat)
    requires x < 5 && y < 5
    ensures (2 * x + 3 * y) % 5 == Plus(Plus(x, x), Plus(y, Plus(y, y)))
  {
    var u, v, w := Plus(x, x), Plus(y, y), Plus(y, Plus(y, y));
    var q := (if x + x < 5 then 0 else 1) + (if y + y < 5 then 0 else 1)
      + (if y + v < 5 then 0 else 1) + (if u + w < 5 then 0 else 1);
    assert 2 * x + 3 * y == 5 * q + Plus(u, w);
  }

  function ColumnUpTo(A: State, x: nat, n: nat): Lane
    requires x < 5 && n <= 5
  {
    if n == 0 then Zero(64) else Xor(ColumnUpTo(A, x, n - 1), A[x + 5 * (n - 1)])
  }

  lemma WholeColumn(A: State, x: nat)
    requires x < 5
    ensures ColumnUpTo(A, x, 5) == Column(A, x)
  {
    hide Xor, Zero;
    ZeroXor(A[x]);
    assert ColumnUpTo(A, x, 1) == A[x];
    assert ColumnUpTo(A, x, 2) == Xor(A[x], A[x + 5]);
    assert ColumnUpTo(A, x, 3) == Xor(ColumnUpTo(A, x, 2), A[x + 10]);
    assert ColumnUpTo(A, x, 4) == Xor(ColumnUpTo(A, x, 3), A[x + 15]);
  }

  lemma ZeroXor(a: Lane)
    ensures Xor(Zero(64), a) == a
  {}

  lemma XorCommutes(a: Lane, b: Lane)
    ensures Xor(a, b) == Xor(b, a)
  {}

  method ThetaParity(A: array<Lane>, C: array<Lane>)
    requires A.Length == 25 && C.Length == 5 && A != C
    modifies C
    ensures forall x :: 0 <= x < 5 ==> C[x] == Column(A[..], x)
  {
    hide Xor, Zero, Column, Index;
    ghost var S: State := A[..];
    for x := 0 to 5
      invariant forall k :: 0 <= k < x ==> C[k] == Column(S, k)
      invariant A[..] == S
    {
      C[x] := Zero(64);
      for y := 0 to 5
        invariant forall k :: 0 <= k < x ==> C[k] == Column(S, k)
        invariant C[x] == ColumnUpTo(S, x, y)
        invariant A[..] == S
      {
        IndexIs(x, y);
        C[x] := Xor(C[x], A[Index(x, y)]);
      }
      WholeColumn(S, x);
    }
  }

  method ThetaStep(A: array<Lane>)
    requires A.Length == 25
    modifies A
    ensures A[..] == Theta(old(A[..]))
  {
    hide Xor, Zero, Column, Index, Rol64, Plus, X, Y;
    var C: array<Lane> := new Lane[5];
    var D: array<Lane> := new Lane[5];
    ghost var S: State := A[..];
    ThetaParity(A, C);
    for x := 0 to 5
      invariant forall k :: 0 <= k < 5 ==> C[k] == Column(S, k)
      invariant forall k :: 0 <= k < x ==> D[k] == Effect(S, k)
      invariant A[..] == S
    {
      ModuloFive(x, 1);
      ModuloFive(x, 4);
      D[x] := Xor(Rol64(C[(x + 1) % 5], 1), C[(x + 4) % 5]);
      XorCommutes(Rol64(C[(x + 1) % 5], 1), C[(x + 4) % 5]);
    }
    for x := 0 to 5
      invariant forall k :: 0 <= k < 5 ==> D[k] == Effect(S, k)
      invariant forall i: nat :: i < 25 ==> A[i] == if X(i) < x then Xor(S[i], Effect(S, X(i))) else S[i]
    {
      for y := 0 to 5
        invariant forall k :: 0 <= k < 5 ==> D[k] == Effect(S, k)
        invariant forall i: nat :: i < 25 ==>
          A[i] == if X(i) < x || (X(i) == x && Y(i) < y) then Xor(S[i], Effect(S, X(i))) else S[i]
      {
        IndexIs(x, y);
        AtXY(x, y);
        SamePlace(x, y);
        A[Index(x, y)] := Xor(A[Index(x, y)], D[x]);
      }
      LastPlane();
    }
  }

  // An index is determined by its coordinates.
  lemma SamePlace(x: nat, y: nat)
    requires x < 5 && y < 5
    ensures forall i: nat :: i < 25 && X(i) == x && Y(i) == y ==> i == x + 5 * y
  {}

  lemma LastPlane()
    ensures forall i: nat :: i < 25 ==> X(i) < 5 && Y(i) < 5
  {}

  method RhoStep(A: array<Lane>, offsets: array<nat>)
    requires A.Length == 25 && offsets.Length == 25
    requires forall i :: 0 <= i < 25 ==> offsets[i] == RhoOffset(i)
    modifies A
    ensures A[..] == Rho(old(A[..]))
  {
    hide Index, Rol64, RhoOffset, X, Y, Plus;
    ghost var S: State := A[..];
    for x := 0 to 5
      invariant forall i: nat :: i < 25 ==> A[i] == if X(i) < x then Rol64(S[i], RhoOffset(i)) else S[i]
    {
      for y := 0 to 5
        invariant forall i: nat :: i < 25 ==>
          A[i] == if X(i) < x || (X(i) == x && Y(i) < y) then Rol64(S[i], RhoOffset(i)) else S[i]
      {
        IndexIs(x, y);
        AtXY(x, y);
        SamePlace(x, y);
        A[Index(x, y)] := Rol64(A[Index(x, y)], offsets[Index(x, y)]);
      }
      LastPlane();
    }
  }

  method CopyLanes(A: array<Lane>, tempA: array<Lane>)
    requires A.Length == tempA.Length == 25 && A != tempA
    modifies tempA
    ensures tempA[..] == A[..]
  {
    hide Index, X, Y, Plus;
    for x := 0 to 5
      invariant forall i: nat :: i < 25 && X(i) < x ==> tempA[i] == A[i]
    {
      for y := 0 to 5
        invariant forall i: nat :: i < 25 && (X(i) < x || (X(i) == x && Y(i) < y)) ==> tempA[i] == A[i]
      {
        IndexIs(x, y);
        AtXY(x, y);
        SamePlace(x, y);
        tempA[Index(x, y)] := A[Index(x, y)];
      }
      LastPlane();
    }
    LastPlane();
  }

  method ScatterLanes(tempA: array<Lane>, A: array<Lane>)
    requires A.Length == tempA.Length == 25 && A != tempA
    modifies A
    ensures forall i: nat :: i < 25 ==> A[Destination(X(i), Y(i))] == tempA[i]
  {
    hide Index, X, Y, Plus, Destination;
    for x := 0 to 5
      invariant forall i: nat :: i < 25 && X(i) < x ==> A[Destination(X(i), Y(i))] == tempA[i]
    {
      for y := 0 to 5
        invariant forall i: nat ::
          i < 25 && (X(i) < x || (X(i) == x && Y(i) < y)) ==> A[Destination(X(i), Y(i))] == tempA[i]
      {
        IndexIs(x, y);
        PiIndexIs(x, y);
        AtXY(x, y);
        SamePlace(x, y);
        DestinationsDiffer();
        A[Index(0 * x + 1 * y, 2 * x + 3 * y)] := tempA[Index(x, y)];
      }
      LastPlane();
    }
    LastPlane();
  }

  method PiStep(A: array<Lane>)
    requires A.Length == 25
    modifies A
    ensures A[..] == Pi(old(A[..]))
  {
    hide Index, X, Y, Plus, Destination, Source, Pi;
    ghost var S: State := A[..];
    var tempA: array<Lane> := new Lane[25];
    CopyLanes(A, tempA);
    assert forall i: nat :: i < 25 ==> tempA[..][i] == tempA[i];
    ScatterLanes(tempA, A);
    assert forall i: nat :: i < 25 ==> tempA[i] == S[i];
    ScatteredIsPi(S, A[..]);
  }

  lemma ScatteredIsPi(S: State, B: State)
    requires forall i: nat :: i < 25 ==> B[Destination(X(i), Y(i))] == S[i]
    ensures B == Pi(S)
  {
    hide X, Y, Destination, Source;
    forall i: nat | i < 25 ensures B[i] == S[Source(X(i), Y(i))] {
      SourceUndone(i);
    }
  }

  lemma DestinationsDiffer()
    ensures forall i: nat, j: nat :: i < 25 && j < 25 && Destination(X(i), Y(i)) == Destination(X(j), Y(j)) ==> i == j
  {
    hide Destination, Source, X, Y;
    forall i: nat, j: nat | i < 25 && j < 25 && Destination(X(i), Y(i)) == Destination(X(j), Y(j)) ensures i == j {
      SourceUndone(i);
      SourceUndone(j);
    }
  }

  // The planes below y are done.
  ghost predicate ChiDone(A: array<Lane>, S: State, y: nat)
    reads A
  {
    A.Length == 25 && forall i: nat :: i < 25 ==> A[i] == if Y(i) < y then ChiAt(S, X(i), Y(i)) else S[i]
  }

  method ChiPlane(A: array<Lane>, C: array<Lane>, y: nat, ghost S: State)
    requires A != C && C.Length == 5 && y < 5 && ChiDone(A, S, y)
    modifies C
    ensures forall k :: 0 <= k < 5 ==> C[k] == ChiAt(S, k, y)
  {
    hide Index, X, Y, Plus, Xor, And, Not;
    for x := 0 to 5
      invariant ChiDone(A, S, y)
      invariant forall k :: 0 <= k < x ==> C[k] == ChiAt(S, k, y)
    {
      IndexIs(x, y);
      AtXY(x, y);
      AtXY(Plus(x, 1), y);
      AtXY(Plus(x, 2), y);
      C[x] := Xor(A[Index(x, y)], And(Not(A[Index(x + 1, y)]), A[Index(x + 2, y)]));
    }
  }

  method StorePlane(A: array<Lane>, C: array<Lane>, y: nat, ghost S: State)
    requires A != C && C.Length == 5 && y < 5 && ChiDone(A, S, y)
    requires forall k :: 0 <= k < 5 ==> C[k] == ChiAt(S, k, y)
    modifies A
    ensures ChiDone(A, S, y + 1)
  {
    hide Index, X, Y, Plus, ChiAt;
    for x := 0 to 5
      invariant forall k :: 0 <= k < 5 ==> C[k] == ChiAt(S, k, y)
      invariant forall i: nat :: i < 25 ==>
        A[i] == if Y(i) < y || (Y(i) == y && X(i) < x) then ChiAt(S, X(i), Y(i)) else S[i]
    {
      IndexIs(x, y);
      AtXY(x, y);
      SamePlace(x, y);
      A[Index(x, y)] := C[x];
    }
    LastPlane();
  }

  method ChiStep(A: array<Lane>)
    requires A.Length == 25
    modifies A
    ensures A[..] == Chi(old(A[..]))
  {
    hide X, Y, ChiAt;
    ghost var S: State := A[..];
    var C: array<Lane> := new Lane[5];
    for y := 0 to 5
      invariant ChiDone(A, S, y)
    {
      ChiPlane(A, C, y, S);
      StorePlane(A, C, y, S);
    }
    LastPlane();
  }

  method IotaStep(A: array<Lane>, indexRound: nat, constants: array<Lane>)
    requires A.Length == 25 && constants.Length == 24 && indexRound < 24
    modifies A
    ensures A[..] == Iota(old(A[..]), old(constants[indexRound]))
  {
    hide Xor, Index;
    IndexIs(0, 0);
    A[Index(0, 0)] := Xor(A[Index(0, 0)], constants[indexRound]);
  }

  method LFSR86540(LFSR: bv8) returns (result: bool, next: bv8)
    ensures result == (LFSR & 0x01 != 0)
    ensures next == LfsrStep(LFSR)
  {
    result := LFSR & 0x01 != 0;
    if LFSR & 0x80 != 0 {
      next := (LFSR << 1) ^ 0x71;
    } else {
      next := LFSR << 1;
    }
  }

  method InitializeRoundConstants(constants: array<Lane>)
    requires constants.Length == 24
    modifies constants
    ensures forall i :: 0 <= i < 24 ==> constants[i] == RoundConstant(i)
  {
    hide LfsrStep, Shl, Xor, One;
    var LFSRstate: bv8 := 0x01;
    for i := 0 to 24
      invariant LFSRstate == LfsrAfter(7 * i)
      invariant forall k :: 0 <= k < i ==> constants[k] == RoundConstant(k)
    {
      constants[i] := Zero(64);
      for j := 0 to 7
        invariant LFSRstate == LfsrAfter(7 * i + j)
        invariant forall k :: 0 <= k < i ==> constants[k] == RoundConstant(k)
        invariant constants[i] == RoundConstantUpTo(i, j)
      {
        var bitPosition := Pow2(j) - 1; // 2^j-1
        BitPositionIs(j);
        var bit, next := LFSR86540(LFSRstate);
        LFSRstate := next;
        SetBit(i, j);
        if bit {
          constants[i] := Xor(constants[i], Shl(One(64), bitPosition));
        }
      }
    }
  }

  lemma BitPositionIs(j: nat)
    requires j < 7
    ensures Pow2(j) - 1 == BitPosition(j)
  {
    if j > 0 {
      BitPositionIs(j - 1);
    }
  }

  lemma {:induction false} UpperBitsClear(i: nat, j: nat, z: nat)
    requires j <= 7 && z < 64 && forall k: nat :: k < j ==> z != BitPosition(k)
    ensures !RoundConstantUpTo(i, j)[z]
  {
    if j > 0 {
      UpperBitsClear(i, j - 1, z);
    }
  }

  // Adding 2^j - 1 by exclusive or sets a bit that was still clear.
  lemma SetBit(i: nat, j: nat)
    requires j < 7
    ensures RoundConstantUpTo(i, j + 1) ==
      if RcBit(7 * i + j) then Xor(RoundConstantUpTo(i, j), Shl(One(64), BitPosition(j))) else RoundConstantUpTo(i, j)
  {
    UpperBitsClear(i, j, BitPosition(j));
  }

  // The lanes in the order in which the walk (x, y) := (y, 2x + 3y) from (1, 0) meets them.
  const WALK: seq<nat> :=
    [1, 10, 7, 11, 17] + [18, 3, 5, 16, 8] + [21, 24, 4, 15, 23] + [19, 13, 12, 2, 20] + [14, 22, 9, 6, 1]

  // At which step of the walk a lane is met.
  const STEP: seq<nat> :=
    [24, 0, 18, 6, 12] + [7, 23, 2, 9, 22] + [1, 3, 17, 16, 20] + [13, 8, 4, 5, 15] + [19, 10, 21, 14, 11]

  lemma WalkOffset(t: nat)
    requires t < 24
    ensures WALK[t] < 25 && RhoOffset(WALK[t]) == ((t + 1) * (t + 2) / 2) % 64
  {
    if t < 6 {
      assert t in {0, 1, 2, 3, 4, 5};
    } else if t < 12 {
      assert t in {6, 7, 8, 9, 10, 11};
    } else if t < 18 {
      assert t in {12, 13, 14, 15, 16, 17};
    } else {
      assert t in {18, 19, 20, 21, 22, 23};
    }
  }

  lemma WalkNext(t: nat)
    requires t < 24
    ensures WALK[t] < 25 && WALK[t + 1] == Destination(X(WALK[t]), Y(WALK[t]))
  {
    if t < 6 {
      assert t in {0, 1, 2, 3, 4, 5};
    } else if t < 12 {
      assert t in {6, 7, 8, 9, 10, 11};
    } else if t < 18 {
      assert t in {12, 13, 14, 15, 16, 17};
    } else {
      assert t in {18, 19, 20, 21, 22, 23};
    }
  }

  // The walk meets every lane but lane 0.
  lemma WalkCovers(i: nat)
    requires 0 < i < 25
    ensures STEP[i] < 24 && WALK[STEP[i]] == i
  {}

  method InitializeRhoOffsets(offsets: array<nat>)
    requires offsets.Length == 25
    modifies offsets
    ensures forall i :: 0 <= i < 25 ==> offsets[i] == RhoOffset(i)
  {
    hide Index, X, Y, Destination, RhoOffset;
    IndexIs(0, 0);
    offsets[Index(0, 0)] := 0;
    var x, y := 1, 0;
    WalkStart();
    for t := 0 to 24
      invariant 0 <= x < 5 && 0 <= y < 5 && WALK[t] == x + 5 * y
      invariant offsets[0] == RhoOffset(0)
      invariant forall s :: 0 <= s < t ==> WALK[s] < 25 && offsets[WALK[s]] == RhoOffset(WALK[s])
    {
      IndexIs(x, y);
      WalkOffset(t);
      offsets[Index(x, y)] := ((t + 1) * (t + 2) / 2) % 64;
      WalkNext(t);
      AtXY(x, y);
      NextIs(x, y);
      var newX := (0 * x + 1 * y) % 5;
      var newY := (2 * x + 3 * y) % 5;
      x, y := newX, newY;
    }
    forall i: nat | i < 25 ensures offsets[i] == RhoOffset(i) {
      if i > 0 {
        WalkCovers(i);
      }
    }
  }

  lemma WalkStart()
    ensures RhoOffset(0) == 0 && WALK[0] == 1 && |WALK| == 25
  {}

  lemma NextIs(x: nat, y: nat)
    requires x < 5 && y < 5
    ensures Destination(x, y) == (0 * x + 1 * y) % 5 + 5 * ((2 * x + 3 * y) % 5)
  {
    TwiceAndThrice(x, y);
    ModuloFive(y, 0);
  }

  /** The permutation with its two global tables. */
  class Permutation {
    const KeccakRoundConstants: array<Lane>
    const KeccakRhoOffsets: array<nat>

    ghost predicate Initialized()
      reads KeccakRoundConstants, KeccakRhoOffsets
    {
      && KeccakRoundConstants.Length == 24 && KeccakRhoOffsets.Length == 25
      && (forall i :: 0 <= i < 24 ==> KeccakRoundConstants[i] == RoundConstant(i))
      && (forall i :: 0 <= i < 25 ==> KeccakRhoOffsets[i] == RhoOffset(i))
    }

    constructor ()
      ensures fresh(KeccakRoundConstants) && KeccakRoundConstants.Length == 24
      ensures fresh(KeccakRhoOffsets) && KeccakRhoOffsets.Length == 25
    {
      KeccakRoundConstants := new Lane[24];
      KeccakRhoOffsets := new nat[25];
    }

    method KeccakInitialize()
      requires KeccakRoundConstants.Length == 24 && KeccakRhoOffsets.Length == 25
      modifies KeccakRoundConstants, KeccakRhoOffsets
      ensures Initialized()
    {
      hide RoundConstant, RhoOffset;
      InitializeRoundConstants(KeccakRoundConstants);
      InitializeRhoOffsets(KeccakRhoOffsets);
    }

    method KeccakPermutationOnWords(state: array<Lane>)
      requires Initialized()
      requires state.Length == 25
      modifies state
      ensures state[..] == KeccakF(old(state[..]))
    {
      hide RoundConstant, RhoOffset, Theta, Rho, Pi, Chi, Iota;
      for i := 0 to 24
        invariant Initialized()
        invariant state[..] == Rounds(old(state[..]), i)
      {
        ThetaStep(state);
        RhoStep(state, KeccakRhoOffsets);
        PiStep(state);
        ChiStep(state);
        IotaStep(state, i, KeccakRoundConstants);
      }
    }
  }
}
