/** sha3_384 starts from a state that nobody has cleared: when its digest is right, and what else it can be. */
module StrayState {
  import opened Words
  import opened BitStrings
  import opened Sponge
  import opened OneShot
  import Keccak

  // ---- the absorbed state

  // Two states absorb the same blocks to the same state only if they are the same.
  lemma {:induction false} AbsorbInjective(f: Permutation, r: nat, s: StateBits, t: StateBits, P: Word)
    requires Injective(f) && 0 < r <= 1600
    ensures AbsorbBlocks(f, r, s, P) == AbsorbBlocks(f, r, t, P) <==> s == t
    decreases |P|
  {
    hide Keccak.KeccakBits;
    if |P| >= r {
      var s', t' := XorAt(s, 0, P[..r]), XorAt(t, 0, P[..r]);
      AbsorbInjective(f, r, f.apply(s'), f.apply(t'), P[r..]);
      XorAtTwice(s, 0, P[..r]);
      XorAtTwice(t, 0, P[..r]);
    }
  }

  /** Over Keccak-f: the state that the message leaves is the right one exactly when the array was clear. */
  lemma StateExact(s: StateBits, m: Word)
    ensures AbsorbBlocks(KECCAK, 832, s, Padded384(m)) == AbsorbBlocks(KECCAK, 832, Zero(1600), Padded384(m))
      <==> s == Zero(1600)
  {
    hide AbsorbBlocks, Padded384, KECCAK;
    KeccakInjective();
    AbsorbInjective(KECCAK, 832, s, Zero(1600), Padded384(m));
  }

  // The state from which absorbing P leads to T.
  lemma {:induction false} AbsorbBack(r: nat, P: Word, T: StateBits) returns (s: StateBits)
    requires 0 < r <= 1600
    ensures AbsorbBlocks(KECCAK, r, s, P) == T
    decreases |P|
  {
    hide Keccak.KeccakBits, Keccak.KeccakBitsInverse, XorAt;
    if |P| < r {
      s := T;
    } else {
      var t := AbsorbBack(r, P[r..], T);
      var u := Keccak.KeccakBitsInverse(t);
      Keccak.KeccakIsBijective(u, t);
      XorAtTwice(u, 0, P[..r]);
      s := XorAt(u, 0, P[..r]);
    }
  }

  // ---- the digest

  /** Over Keccak-f, for every message: every string of 384 bits is the digest from some content of the array. */
  lemma AnyDigest(m: Word, D: Word) returns (s: StateBits)
    requires |D| == 384
    ensures Sha3_384From(KECCAK, s, m) == D
  {
    hide AbsorbBlocks, Padded384, KECCAK;
    var T: StateBits := D + Zero(1216);
    s := AbsorbBack(832, Padded384(m), T);
    assert T[0..384] == D;
  }

  /** Over Keccak-f, for every message: the digest from some content of the array is wrong. */
  lemma WrongDigest(m: Word) returns (s: StateBits)
    ensures s != Zero(1600)
    ensures Sha3_384From(KECCAK, s, m) != SpongeOf(KECCAK, 832, m + SHA3_BITS, 384)
  {
    hide SpongeOf, Sha3_384From, KECCAK;
    var D := SpongeOf(KECCAK, 832, m + SHA3_BITS, 384);
    s := AnyDigest(m, D[0 := !D[0]]);
    Sha3_384Cleared(KECCAK, m);
  }

  /** Over Keccak-f, for every message: the digest from some content of the array other than zeros is right. */
  lemma LuckyDigest(m: Word) returns (s: StateBits)
    ensures s != Zero(1600)
    ensures Sha3_384From(KECCAK, s, m) == SpongeOf(KECCAK, 832, m + SHA3_BITS, 384)
  {
    hide AbsorbBlocks, Padded384, KECCAK, SpongeOf;
    var T := AbsorbBlocks(KECCAK, 832, Zero(1600), Padded384(m));
    var U: StateBits := T[1599 := !T[1599]];
    s := AbsorbBack(832, Padded384(m), U);
    assert T[0..384] == U[0..384];
    Sha3_384Cleared(KECCAK, m);
  }

  // Bits 0 and k exchanged.
  function Swap(k: nat, s: StateBits): (t: StateBits)
    requires k < 1600
  {
    s[0 := s[k]][k := s[0]]
  }

  lemma SwapInjective(k: nat)
    requires k < 1600
    ensures Injective(Any(s => Swap(k, s)))
  {
    forall s: StateBits, t: StateBits | Swap(k, s) == Swap(k, t) ensures s == t {
      assert Swap(k, Swap(k, s)) == s && Swap(k, Swap(k, t)) == t;
    }
  }

  // One set bit of the array reaches the digest of the empty message under such an exchange.
  lemma BitShows(s: StateBits, k: nat)
    requires k < 1600 && s[k]
    ensures var f := Any(s => Swap(k, s));
      Sha3_384From(f, s, []) != SpongeOf(f, 832, [] + SHA3_BITS, 384)
  {
    var f := Any(s => Swap(k, s));
    var P := Padded384([]);
    assert |P| == 832;
    RestBlock(f, 832, s, P);
    RestBlock(f, 832, Zero(1600), P);
    hide AbsorbBlocks, Padded384;
    var x, z := XorAt(s, 0, P), XorAt(Zero(1600), 0, P);
    assert x[k] != z[k];
    assert Sha3_384From(f, s, [])[0] == Swap(k, x)[0] == x[k];
    assert Sha3_384From(f, Zero(1600), [])[0] == Swap(k, z)[0] == z[k];
    Sha3_384Cleared(f, []);
  }

  /** The digest is right whatever the injective map and the message, exactly when the array was clear. */
  lemma DigestExact(s: StateBits)
    ensures (forall f: Permutation, m: Word | Injective(f) ::
               Sha3_384From(f, s, m) == SpongeOf(f, 832, m + SHA3_BITS, 384)) <==> s == Zero(1600)
  {
    hide SpongeOf, Sha3_384From, Injective, Swap;
    if s == Zero(1600) {
      forall f: Permutation, m: Word | Injective(f)
        ensures Sha3_384From(f, s, m) == SpongeOf(f, 832, m + SHA3_BITS, 384)
      {
        Sha3_384Cleared(f, m);
      }
    } else {
      var k :| 0 <= k < 1600 && s[k] != Zero(1600)[k];
      SwapInjective(k);
      BitShows(s, k);
    }
  }
}
