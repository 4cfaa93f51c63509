/** The byte-oriented sponge of fips202.c: one-shot and incremental, straight on the 25 words of the state. */
module Fips202 {
  import opened Words
  import opened BitStrings
  import opened ByteView
  import opened Sponge
  import opened Arithmetic
  import Keccak

  const SHAKE128_RATE: nat := 168
  const SHAKE256_RATE: nat := 136
  const SHA3_256_RATE: nat := 136
  const SHA3_384_RATE: nat := 104
  const SHA3_512_RATE: nat := 72

  lemma Rates()
    ensures SHAKE128_RATE == 168 && SHAKE256_RATE == SHA3_256_RATE == 136
    ensures SHA3_384_RATE == 104 && SHA3_512_RATE == 72
  {}

  // ---- the permutation on words

  // The code is the first branch. The other exists only for theorems over any map.
  method StatePermute(f: Permutation, s: array<Lane>)
    requires s.Length == 25
    modifies s
    ensures LaneBits(s[..]) == f.apply(old(LaneBits(s[..])))
  {
    hide LaneBits, Keccak.KeccakBits;
    if f.implemented {
      Keccak.StatePermuteWords(s);
    } else {
      AnyOnWords(f.apply, s);
    }
  }

  method AnyOnWords(g: StateBits -> StateBits, s: array<Lane>)
    requires s.Length == 25
    modifies s
    ensures LaneBits(s[..]) == g(old(LaneBits(s[..])))
  {
    hide LaneBits, ToLanes;
    var permuted := ToLanes(g(LaneBits(s[..])));
    ToLanesIs(g(LaneBits(s[..])));
    for i := 0 to 25
      invariant s[..i] == permuted[..i]
    {
      s[i] := permuted[i];
    }
    assert s[..] == permuted;
  }

  // ---- the last block

  // The bytes after the message in its last block: the domain byte p, zeros, and 128 in the last byte.
  function Suffix(n: nat, p: Byte): (t: seq<Byte>)
    requires 0 < n
    ensures |t| == n
  {
    if n == 1 then [Or(p, Shl(One(8), 7))] else [p] + seq(n - 2, _ => Zero(8)) + [Shl(One(8), 7)]
  }

  // p holds the bits that the function appends to the message, and the first bit of the padding.
  predicate Delimits(p: Byte, appended: Word)
  {
    |appended| <= 6 && p == appended + [true] + Zero(7 - |appended|)
  }

  lemma SuffixIsPad(r: nat, q: nat, p: Byte, appended: Word)
    requires q < r && Delimits(p, appended)
    ensures Bits(Suffix(r - q, p)) == appended + Pad(8 * r, 8 * q + |appended|)
  {
    hide Bits;
    var n := r - q;
    assert PadZeros(8 * r, 8 * q + |appended|) == 8 * n - 2 - |appended|;
    if n == 1 {
      OneByte(Or(p, Shl(One(8), 7)));
    } else {
      var z := seq(n - 2, _ => Zero(8));
      BitsConcat([p] + z, [Shl(One(8), 7)]);
      BitsConcat([p], z);
      OneByte(p);
      OneByte(Shl(One(8), 7));
      ZeroBytes(z);
    }
  }

  // The state after absorbing m and the last block, just before the permutation.
  function Finalized(f: Permutation, r: nat, s: StateBits, m: Word, p: Byte): StateBits
    requires 0 < r <= 200 && |Rest(8 * r, m)| % 8 == 0
  {
    var R := Rest(8 * r, m);
    XorAt(AbsorbBlocks(f, 8 * r, s, m), 0, R + Bits(Suffix(r - |R| / 8, p)))
  }

  // One permutation later, the padded message is absorbed.
  lemma FinalizedIsPadded(f: Permutation, r: nat, s: StateBits, m: Word, p: Byte, appended: Word)
    requires 0 < r <= 200 && |Rest(8 * r, m)| % 8 == 0 && Delimits(p, appended)
    ensures f.apply(Finalized(f, r, s, m, p))
      == AbsorbBlocks(f, 8 * r, s, m + appended + Pad(8 * r, |m + appended|))
  {
    hide Bits, Pad, Suffix, AbsorbBlocks, Rest;
    var R := Rest(8 * r, m);
    var q := |R| / 8;
    var last := R + Bits(Suffix(r - q, p));
    SuffixIsPad(r, q, p, appended);
    RestOfMore(f, 8 * r, s, m, appended);
    PadOfRest(8 * r, m + appended);
    assert m + appended + Pad(8 * r, |m + appended|) == m + (appended + Pad(8 * r, |m + appended|));
    AbsorbConcat(f, 8 * r, s, m, appended + Pad(8 * r, |m + appended|));
    assert last == R + (appended + Pad(8 * r, |m + appended|));
    RestBlock(f, 8 * r, AbsorbBlocks(f, 8 * r, s, m), last);
  }

  // Bits that do not fill the block only lengthen the rest.
  lemma RestOfMore(f: Permutation, r: nat, s: StateBits, m: Word, e: Word)
    requires 0 < r <= 1600 && |Rest(r, m)| + |e| < r
    ensures Rest(r, m + e) == Rest(r, m) + e
  {
    hide AbsorbBlocks, Rest;
    AbsorbConcat(f, r, s, m, e);
    RestBlock(f, r, s, Rest(r, m) + e);
  }

  /** keccak_absorb */
  method KeccakAbsorb(f: Permutation, s: array<Lane>, r: nat, m: seq<Byte>, p: Byte)
    requires s.Length == 25 && 0 < r <= 200
    modifies s
    ensures |Rest(8 * r, Bits(m))| % 8 == 0
    ensures LaneBits(s[..]) == Finalized(f, r, old(LaneBits(s[..])), Bits(m), p)
  {
    hide Bits, LaneBits, XorAt, AbsorbBlocks, Rest, Suffix;
    ghost var S := LaneBits(s[..]);
    RestAligned(8 * r, Bits(m));
    var pos, mlen := 0, |m|;
    NoBytes(m, 0);
    RestBlock(f, 8 * r, S, Bits(m[..0]));
    while mlen >= r
      invariant 0 <= pos && 0 <= mlen && pos + mlen == |m|
      invariant LaneBits(s[..]) == AbsorbBlocks(f, 8 * r, S, Bits(m[..pos]))
      invariant Rest(8 * r, Bits(m[..pos])) == []
    {
      var block := m[pos..][..r];
      StateXORBytes(s, m[pos..], 0, r);
      StatePermute(f, s);
      BlockAbsorbed(f, 8 * r, S, Bits(m[..pos]), Bits(block));
      BitsConcat(m[..pos], block);
      assert m[..pos + r] == m[..pos] + block;
      mlen := mlen - r;
      pos := pos + r;
    }
    var t := LastBlock(m[pos..], r, p);
    StateXORBytes(s, t[..r], 0, r);
    assert t[..r][..r] == t[..r];
    BitsConcat(m[pos..], Suffix(r - mlen, p));
    BitsConcat(m[..pos], m[pos..]);
    assert m[..pos] + m[pos..] == m;
    AbsorbConcat(f, 8 * r, S, Bits(m[..pos]), Bits(m[pos..]));
    assert [] + Bits(m[pos..]) == Bits(m[pos..]);
    RestBlock(f, 8 * r, AbsorbBlocks(f, 8 * r, S, Bits(m[..pos])), Bits(m[pos..]));
  }

  // The buffer t: zeros, the rest of the message, the domain byte and the last bit.
  method LastBlock(rest: seq<Byte>, r: nat, p: Byte) returns (t: array<Byte>)
    requires |rest| < r <= 200
    ensures fresh(t) && t.Length == 200
    ensures t[..r] == rest + Suffix(r - |rest|, p)
  {
    hide Or, Shl, Zero, Suffix;
    t := new Byte[200];
    for i := 0 to r
      invariant forall k :: 0 <= k < i ==> t[k] == Zero(8)
    {
      t[i] := Zero(8);
    }
    for i := 0 to |rest|
      invariant forall k :: 0 <= k < r ==> t[k] == if k < i then rest[k] else Zero(8)
    {
      t[i] := rest[i];
    }
    SetEnds(t, |rest|, r, p, rest);
  }

  // The domain byte behind the message, and the last bit of the block.
  method SetEnds(t: array<Byte>, q: nat, r: nat, p: Byte, ghost rest: seq<Byte>)
    requires q == |rest| < r <= t.Length
    requires forall k :: 0 <= k < r ==> t[k] == if k < q then rest[k] else Zero(8)
    modifies t
    ensures t[..r] == rest + Suffix(r - q, p)
  {
    hide Or, Shl, Zero, Suffix;
    ghost var b := t[..r];
    t[q] := p;
    t[r - 1] := Or(t[r - 1], Shl(One(8), 7));
    BlockEnd(rest, b, p);
    ghost var c := b[q := p];
    assert t[..r] == c[r - 1 := Or(c[r - 1], Shl(One(8), 7))];
  }

  lemma BlockEnd(rest: seq<Byte>, b: seq<Byte>, p: Byte)
    requires |rest| < |b| && b[..|rest|] == rest && forall k :: |rest| <= k < |b| ==> b[k] == Zero(8)
    ensures var c := b[|rest| := p];
      c[|b| - 1 := Or(c[|b| - 1], Shl(One(8), 7))] == rest + Suffix(|b| - |rest|, p)
  {
    hide Or, Shl, Zero;
    ZeroOr(Shl(One(8), 7));
  }

  lemma ZeroOr(b: Byte)
    ensures Or(Zero(8), b) == b
  {}

  /** keccak_squeezeblocks: nblocks * r == total bytes, to h[at..] */
  method KeccakSqueezeBlocks(f: Permutation, h: array<Byte>, at: nat, nblocks: nat, s: array<Lane>, r: nat,
                             ghost total: nat)
    requires s.Length == 25 && 0 < r <= 200
    requires IsProduct(total, nblocks, r) && at + total <= h.Length
    modifies s, h
    ensures Bits(h[at..at + total]) == Read(f, 8 * r, old(LaneBits(s[..])), 0, 8 * total)
    ensures LaneBits(s[..]) == StateAfterRead(f, 8 * r, old(LaneBits(s[..])), 0, 8 * total)
    ensures LeftAfterRead(8 * r, 0, 8 * total) == 0
    ensures h[..at] == old(h[..at]) && h[at + total..] == old(h[at + total..])
  {
    hide Bits, LaneBits, Read, StateAfterRead, LeftAfterRead, IsProduct;
    ghost var S := LaneBits(s[..]);
    var pos := at;
    NoneRead(f, 8 * r, S);
    NoBytes(h[..], at);
    FirstAndLastBlock(r);
    for j := 0 to nblocks
      invariant at <= pos <= at + total && IsProduct(pos - at, j, r)
      invariant Bits(h[at..pos]) == Read(f, 8 * r, S, 0, 8 * (pos - at))
      invariant LaneBits(s[..]) == StateAfterRead(f, 8 * r, S, 0, 8 * (pos - at))
      invariant LeftAfterRead(8 * r, 0, 8 * (pos - at)) == 0
      invariant h[..at] == old(h[..at]) && h[at + total..] == old(h[at + total..])
    {
      NextBlock(pos - at, j, nblocks, total, r);
      ghost var before := h[..];
      SqueezeBlock(f, h, pos, s, r, S, pos - at);
      NextOutput(before, h[..], at, pos - at, r, total);
      pos := pos + r;
    }
  }

  // One more block, after done bytes from S.
  method SqueezeBlock(f: Permutation, h: array<Byte>, pos: nat, s: array<Lane>, r: nat,
                      ghost S: StateBits, ghost done: nat)
    requires s.Length == 25 && 0 < r <= 200 && pos + r <= h.Length
    requires LaneBits(s[..]) == StateAfterRead(f, 8 * r, S, 0, 8 * done) && LeftAfterRead(8 * r, 0, 8 * done) == 0
    modifies s, h
    ensures Read(f, 8 * r, S, 0, 8 * (done + r)) == Read(f, 8 * r, S, 0, 8 * done) + Bits(h[pos..pos + r])
    ensures LaneBits(s[..]) == StateAfterRead(f, 8 * r, S, 0, 8 * (done + r))
    ensures LeftAfterRead(8 * r, 0, 8 * (done + r)) == 0
    ensures h[..pos] == old(h[..pos]) && h[pos + r..] == old(h[pos + r..])
  {
    hide Bits, LaneBits, Read, StateAfterRead, LeftAfterRead;
    StatePermute(f, s);
    ReadOn(f, 8 * r, S, 0, 8 * done, LaneBits(s[..]), 8 * r, 8 * r);
    StateExtractBytes(s, h, pos, 0, r);
  }

  lemma NoneRead(f: Permutation, r: nat, s: StateBits)
    requires 0 < r <= 1600
    ensures Read(f, r, s, 0, 0) == [] && StateAfterRead(f, r, s, 0, 0) == s && LeftAfterRead(r, 0, 0) == 0
  {}
}
