/** The sponge once more, block by block and bit by bit: Algorithm 8 of FIPS 202 over a plain function. */
module SpongeLaws {
  import opened Words
  import opened BitStrings
  import opened Sponge
  import opened Arithmetic
  import Keccak

  // ---- the reference

  // Step 6: k blocks of r bits exclusively ored into the first bits of the state, each followed by f.
  function StateAfter(f: StateBits -> StateBits, r: nat, P: Word, k: nat): StateBits
    requires k * r <= |P| && r <= 1600
  {
    if k == 0 then seq(1600, _ => false)
    else
      Fewer(k, r);
      var s := StateAfter(f, r, P, k - 1);
      var from := (k - 1) * r;
      f(seq(1600, i requires 0 <= i < 1600 => if i < r then s[i] != P[from + i] else s[i]))
  }

  lemma Fewer(k: nat, r: nat)
    requires k > 0
    ensures (k - 1) * r + r == k * r
  {}

  function Power(f: StateBits -> StateBits, n: nat, s: StateBits): StateBits
  {
    if n == 0 then s else Power(f, n - 1, f(s))
  }

  // ---- absorbing

  lemma {:induction false} AbsorbIs(f: Permutation, r: nat, P: Word, k: nat, Q: Word)
    requires 0 < r <= 1600 && k * r == |P|
    ensures AbsorbBlocks(f, r, Zero(1600), P + Q) == AbsorbBlocks(f, r, StateAfter(f.apply, r, P + Q, k), Q)
    ensures Rest(r, P + Q) == Rest(r, Q)
  {
    hide Keccak.KeccakBits;
    if k == 0 {
      assert P + Q == Q;
      assert Zero(1600) == seq(1600, _ => false);
    } else {
      Fewer(k, r);
      var front, block := P[..(k - 1) * r], P[(k - 1) * r..];
      assert P + Q == front + (block + Q);
      AbsorbIs(f, r, front, k - 1, block + Q);
      NextBlockAbsorbed(f, r, StateAfter(f.apply, r, P + Q, k - 1), P + Q, (k - 1) * r, block, Q);
    }
  }

  lemma NextBlockAbsorbed(f: Permutation, r: nat, s: StateBits, A: Word, from: nat, block: Word, Q: Word)
    requires 0 < r <= 1600 && |block| == r && from + r <= |A| && A[from..from + r] == block
    ensures AbsorbBlocks(f, r, s, block + Q) == AbsorbBlocks(f, r,
      f.apply(seq(1600, i requires 0 <= i < 1600 => if i < r then s[i] != A[from + i] else s[i])), Q)
    ensures Rest(r, block + Q) == Rest(r, Q)
  {
    hide Keccak.KeccakBits;
    assert (block + Q)[..r] == block && (block + Q)[r..] == Q;
    assert XorAt(s, 0, block) == seq(1600, i requires 0 <= i < 1600 => if i < r then s[i] != A[from + i] else s[i]);
  }

  // ---- squeezing

  lemma {:induction false} ReadIs(f: Permutation, r: nat, s: StateBits, d: nat, i: nat)
    requires 0 < r <= 1600 && i < d
    ensures Read(f, r, s, r, d)[i] == Power(f.apply, i / r, s)[i % r]
    decreases d
  {
    hide Keccak.KeccakBits;
    if i < r {
      DivisionIs(i, r, 0, i);
      QuotientIs(i, r, 0, i);
    } else {
      ReadIs(f, r, f.apply(s), d - r, i - r);
      OneMore(i, r);
    }
  }

  lemma OneMore(i: nat, r: nat)
    requires 0 < r <= i
    ensures i / r == (i - r) / r + 1 && i % r == (i - r) % r
  {
    var q, j := (i - r) / r, (i - r) % r;
    assert i - r == q * r + j;
    assert (q + 1) * r == q * r + r;
    DivisionIs(i, r, q + 1, j);
    QuotientIs(i, r, q + 1, j);
  }

  // Where reading stands after q * r + t bits: the state and what is left of its first r bits.
  lemma {:induction false} PositionIs(f: Permutation, r: nat, s: StateBits, q: nat, t: nat)
    requires 0 < t <= r <= 1600
    ensures StateAfterRead(f, r, s, r, q * r + t) == Power(f.apply, q, s)
    ensures LeftAfterRead(r, r, q * r + t) == r - t
    decreases q
  {
    hide Keccak.KeccakBits;
    if q > 0 {
      PositionIs(f, r, f.apply(s), q - 1, t);
      assert q * r + t == r + ((q - 1) * r + t);
    }
  }

  lemma StartOfReading(f: Permutation, r: nat, s: StateBits, d: nat)
    requires 0 < r <= 1600
    ensures StateAfterRead(f, r, s, r, 0) == StateAfterRead(f, r, s, 0, 0) == s
    ensures LeftAfterRead(r, r, 0) == r && LeftAfterRead(r, 0, 0) == 0
    ensures d > 0 ==> StateAfterRead(f, r, s, 0, d) == StateAfterRead(f, r, f.apply(s), r, d)
    ensures d > 0 ==> LeftAfterRead(r, 0, d) == LeftAfterRead(r, r, d)
    ensures Read(f, r, s, 0, d) == Read(f, r, f.apply(s), r, d)
  {
    hide Keccak.KeccakBits;
    ReadFromEmpty(f, r, s, d);
  }

  // ---- the function

  lemma PadLaw(r: nat, m: nat, j: nat)
    requires 0 < r && j == (-2 - m) % r
    ensures Pad(r, m) == [true] + seq(j, _ => false) + [true]
  {
    PadIsFips(r, m);
  }

  /** Bit q * r + t of the output is bit t of the state after all n blocks of M 1 0* 1 and q more applications of f. */
  lemma SpongeIsReference(f: Permutation, r: nat, M: Word, d: nat, q: nat, t: nat, j: nat, P: Word, n: nat)
    requires 0 < r <= 1600 && t < r && q * r + t < d
    requires j == (-2 - |M|) % r && P == M + [true] + seq(j, _ => false) + [true] && n * r == |P|
    ensures SpongeOf(f, r, M, d)[q * r + t] == Power(f.apply, q, StateAfter(f.apply, r, P, n))[t]
  {
    hide AbsorbBlocks, Read, Keccak.KeccakBits, Pad, Power;
    PadLaw(r, |M|, j);
    assert P == M + Pad(r, |M|);
    assert P + [] == P;
    AbsorbIs(f, r, P, n, []);
    RestBlock(f, r, StateAfter(f.apply, r, P, n), []);
    DivisionIs(q * r + t, r, q, t);
    QuotientIs(q * r + t, r, q, t);
    ReadIs(f, r, StateAfter(f.apply, r, P, n), d, q * r + t);
  }

  // What is left of P after its whole blocks.
  lemma {:induction false} RestLaw(r: nat, P: Word)
    requires 0 < r
    ensures |P| % r <= |P| && Rest(r, P) == P[|P| - |P| % r..]
    decreases |P|
  {
    if |P| < r {
      QuotientIs(|P|, r, 0, |P|);
    } else {
      RestLaw(r, P[r..]);
      OneMore(|P|, r);
    }
  }

  lemma OneBlockAbsorbed(f: Permutation, s: StateBits, block: Word)
    requires |block| <= 1600
    ensures AbsorbBlock(f, s, block)
      == f.apply(seq(1600, i requires 0 <= i < 1600 => if i < |block| then s[i] != block[i] else s[i]))
  {
    assert XorAt(s, 0, block) == seq(1600, i requires 0 <= i < 1600 => if i < |block| then s[i] != block[i] else s[i]);
  }

  lemma InjectiveLaw(f: Permutation, s: StateBits, t: StateBits)
    ensures Injective(f) && f.apply(s) == f.apply(t) ==> s == t
    ensures !Injective(f) ==> exists u: StateBits, v: StateBits :: f.apply(u) == f.apply(v) && u != v
  {
    hide Keccak.KeccakBits;
  }

  lemma MapsLaw(g: StateBits -> StateBits)
    ensures Any(g).apply == g && !Any(g).implemented
    ensures KECCAK.apply == Keccak.KeccakBits && KECCAK.implemented
  {}
}
