/** The incremental functions of fips202.c: a state of 25 words and a cursor. */
module Incremental {
  import opened Words
  import opened BitStrings
  import opened ByteView
  import opened Sponge
  import opened Pieces
  import opened Fips202
  import opened OneShot

  // The state when the whole blocks of P are absorbed and the rest is added but not permuted.
  function Pending(f: Permutation, r: nat, P: Word): StateBits
    requires 0 < r <= 1600
  {
    XorAt(AbsorbBlocks(f, r, Zero(1600), P), 0, Rest(r, P))
  }

  lemma PendingIs(f: Permutation, r: nat, P: Word)
    requires 0 < r <= 1600
    ensures Pending(f, r, P) == XorAt(AbsorbBlocks(f, r, Zero(1600), P), 0, Rest(r, P))
  {}

  lemma PendingMore(f: Permutation, r: nat, P: Word, q: Word)
    requires 0 < r <= 1600 && |Rest(r, P)| + |q| <= r
    ensures var s := XorAt(Pending(f, r, P), |Rest(r, P)|, q);
      && (|Rest(r, P)| + |q| < r ==> Pending(f, r, P + q) == s && Rest(r, P + q) == Rest(r, P) + q)
      && (|Rest(r, P)| + |q| == r ==> Pending(f, r, P + q) == f.apply(s) && Rest(r, P + q) == [])
  {
    hide XorAt, AbsorbBlocks, Rest;
    var A := AbsorbBlocks(f, r, Zero(1600), P);
    XorAtConcat(A, 0, Rest(r, P), q);
    AbsorbConcat(f, r, Zero(1600), P, q);
    RestBlock(f, r, A, Rest(r, P) + q);
    if |Rest(r, P)| + |q| == r {
      NothingXored(f.apply(XorAt(A, 0, Rest(r, P) + q)), 0);
    }
  }

  class Context {
    const f: Permutation
    const r: nat               // the rate in bytes, fixed by the type of the context
    const lanes: array<Lane>   // the first 25 words
    var cursor: nat            // the 26th word

    ghost var M: seq<Byte>     // the bytes absorbed so far
    ghost var squeezing: bool
    ghost var start: StateBits // the state at the beginning of the squeezing phase
    ghost var out: nat         // the number of bytes squeezed so far

    ghost predicate Valid()
      reads this, lanes
    {
      && lanes.Length == 25 && 0 < r <= 200 && cursor < r
      && if squeezing then
           && LaneBits(lanes[..]) == StateAfterRead(f, 8 * r, start, 0, 8 * out)
           && 8 * cursor == LeftAfterRead(8 * r, 0, 8 * out)
         else
           && LaneBits(lanes[..]) == Pending(f, 8 * r, Bits(M))
           && 8 * cursor == |Rest(8 * r, Bits(M))|
    }

    lemma RateBound()
      requires Valid()
      ensures 0 < r <= 200 && lanes.Length == 25 && cursor < r
    {}

    /** keccak_inc_init */
    constructor (f: Permutation, r: nat)
      requires 0 < r <= 200
      ensures Valid() && !squeezing && M == [] && this.f == f && this.r == r && fresh(lanes)
      ensures LaneBits(lanes[..]) == Zero(1600) && cursor == 0
    {
      this.f := f;
      this.r := r;
      lanes := new Lane[25](_ => Zero(64));
      cursor := 0;
      M := [];
      squeezing := false;
      new;
      ZeroLanes(lanes[..]);
      RestBlock(f, 8 * r, Zero(1600), []);
      NothingXored(Zero(1600), 0);
    }

    method Absorb(m: seq<Byte>)
      requires Valid() && !squeezing
      modifies this`cursor, this`M, lanes
      ensures Valid() && M == old(M) + m && cursor < r
      ensures LaneBits(lanes[..])
        == XorAt(AbsorbBlocks(f, 8 * r, Zero(1600), Bits(M)), 0, Rest(8 * r, Bits(M)))
      ensures 8 * cursor == |Rest(8 * r, Bits(M))|
    {
      hide Bits, LaneBits, Pending, Rest, XorAt;
      var mlen, pos := |m|, 0;
      assert M + m[..0] == M;
      while mlen + cursor >= r
        invariant 0 <= mlen && 0 <= pos && pos + mlen == |m| && cursor < r && M == old(M)
        invariant LaneBits(lanes[..]) == Pending(f, 8 * r, Bits(M + m[..pos]))
        invariant 8 * cursor == |Rest(8 * r, Bits(M + m[..pos]))|
        decreases mlen + cursor
      {
        var n := r - cursor;
        Append(M, m, pos, n);
        PendingMore(f, 8 * r, Bits(M + m[..pos]), Bits(m[pos..][..n]));
        StateXORBytes(lanes, m[pos..], cursor, n);
        mlen := mlen - n;
        pos := pos + n;
        cursor := 0;
        StatePermute(f, lanes);
      }
      Append(M, m, pos, mlen);
      PendingMore(f, 8 * r, Bits(M + m[..pos]), Bits(m[pos..][..mlen]));
      StateXORBytes(lanes, m[pos..], cursor, mlen);
      cursor := cursor + mlen;
      M := M + m;
      assert m[..|m|] == m;
      PendingIs(f, 8 * r, Bits(M));
    }

    /** keccak_inc_finalize */
    method Finalize(p: Byte)
      requires Valid() && !squeezing
      modifies this`cursor, this`squeezing, this`start, this`out, lanes
      ensures Valid() && squeezing && out == 0 && cursor == 0 && LaneBits(lanes[..]) == start
      ensures |Rest(8 * r, Bits(M))| % 8 == 0
      ensures start == Finalized(f, r, Zero(1600), Bits(M), p)
    {
      hide Bits, LaneBits, Rest, XorAt, AbsorbBlocks, Suffix;
      var t := new Byte[200];
      FillSuffix(t, r, cursor, p);
      StateXORBytes(lanes, t[..r], 0, r);
      assert t[..r][..r] == t[..r];
      BitsConcat(seq(cursor, _ => Zero(8)), Suffix(r - cursor, p));
      ZeroBytes(seq(cursor, _ => Zero(8)));
      XorInTwoParts(AbsorbBlocks(f, 8 * r, Zero(1600), Bits(M)), Rest(8 * r, Bits(M)), Bits(Suffix(r - cursor, p)));
      cursor := 0;
      squeezing := true;
      start := LaneBits(lanes[..]);
      out := 0;
      NoneRead(f, 8 * r, start);
    }

    // len bytes of the current block, from position p of the state on.
    method Take(h: array<Byte>, at: nat, p: nat, len: nat, ghost s: StateBits, ghost a: nat)
      requires lanes.Length == 25 && 0 < r <= 200
      requires p + len <= r && at + len <= h.Length && a <= 8 * r
      requires s == StateAfterRead(f, 8 * r, start, 0, 8 * out) && a == LeftAfterRead(8 * r, 0, 8 * out)
      requires if a == 0 && len > 0 then LaneBits(lanes[..]) == f.apply(s) && p == 0
               else LaneBits(lanes[..]) == s && 8 * p == 8 * r - a
      modifies this`out, h
      ensures out == old(out) + len
      ensures LaneBits(lanes[..]) == StateAfterRead(f, 8 * r, start, 0, 8 * out)
      ensures 8 * (r - p - len) == LeftAfterRead(8 * r, 0, 8 * out)
      ensures Read(f, 8 * r, start, 0, 8 * out) == Read(f, 8 * r, start, 0, 8 * old(out)) + Bits(h[at..at + len])
      ensures h[..at] == old(h[..at]) && h[at + len..] == old(h[at + len..])
    {
      hide Bits, LaneBits, Read, StateAfterRead, LeftAfterRead;
      ReadOn(f, 8 * r, start, 0, 8 * out, LaneBits(lanes[..]), 8 * (r - p), 8 * len);
      StateExtractBytes(lanes, h, at, p, len);
      out := out + len;
    }

    // One turn of the loop: permute, and take at most a block.
    method TakeFromNextBlock(h: array<Byte>, at: nat, wanted: nat) returns (len: nat)
      requires Valid() && squeezing && cursor == 0
      requires 0 < wanted && at + wanted <= h.Length
      modifies this`cursor, this`out, lanes, h
      ensures Valid() && out == old(out) + len
      ensures 0 < len <= wanted && (len < wanted ==> cursor == 0)
      ensures Read(f, 8 * r, start, 0, 8 * out) == Read(f, 8 * r, start, 0, 8 * old(out)) + Bits(h[at..at + len])
      ensures h[..at] == old(h[..at]) && h[at + len..] == old(h[at + len..])
    {
      hide Bits, LaneBits, Read, StateAfterRead, LeftAfterRead;
      ghost var s := LaneBits(lanes[..]);
      StatePermute(f, lanes);
      len := if wanted < r then wanted else r;
      Take(h, at, 0, len, s, 0);
      cursor := r - len;
    }

    // done of outlen bytes have been given, from position at of the output on.
    ghost predicate Given(h0: seq<Byte>, h: seq<Byte>, at: nat, done: nat, outlen: nat, before: nat)
      requires 0 < r <= 200 && |h0| == |h| && done <= outlen && at + outlen <= |h|
      reads this
    {
      && out == before + done
      && Read(f, 8 * r, start, 0, 8 * out) == Read(f, 8 * r, start, 0, 8 * before) + Bits(h[at..at + done])
      && h[..at] == h0[..at] && h[at + outlen..] == h0[at + outlen..]
    }

    method TakeMore(h: array<Byte>, at: nat, done: nat, outlen: nat, ghost h0: seq<Byte>, ghost before: nat)
      returns (len: nat)
      requires Valid() && squeezing && cursor == 0
      requires done < outlen && at + outlen <= h.Length && |h0| == h.Length
      requires Given(h0, h[..], at, done, outlen, before)
      modifies this`cursor, this`out, lanes, h
      ensures Valid() && 0 < len <= outlen - done && (len < outlen - done ==> cursor == 0)
      ensures Given(h0, h[..], at, done + len, outlen, before)
    {
      hide Bits, LaneBits, Read, StateAfterRead, LeftAfterRead;
      ghost var h1 := h[..];
      len := TakeFromNextBlock(h, at + done, outlen - done);
      NextOutput(h1, h[..], at, done, len, outlen);
    }

    // What is left of the current block.
    method TakeRest(h: array<Byte>, at: nat, outlen: nat) returns (len: nat)
      requires Valid() && squeezing && at + outlen <= h.Length
      modifies this`cursor, this`out, h
      ensures Valid() && len <= outlen && (len < outlen ==> cursor == 0)
      ensures Given(old(h[..]), h[..], at, len, outlen, old(out))
    {
      hide Bits, LaneBits, Read, StateAfterRead, LeftAfterRead;
      ghost var h0 := h[..];
      len := if outlen < cursor then outlen else cursor;
      Take(h, at, r - cursor, len, LaneBits(lanes[..]), 8 * cursor);
      cursor := cursor - len;
      NextOutput(h0, h[..], at, 0, len, outlen);
    }

    /** keccak_inc_squeeze, to h[at..] */
    method Squeeze(h: array<Byte>, at: nat, outlen: nat)
      requires Valid() && squeezing && at + outlen <= h.Length
      modifies this`cursor, this`out, lanes, h
      ensures Valid() && out == old(out) + outlen && cursor < r
      ensures Bits(h[at..at + outlen]) == Read(f, 8 * r, start, 0, 8 * out)[8 * old(out)..]
      ensures h[..at] == old(h[..at]) && h[at + outlen..] == old(h[at + outlen..])
    {
      hide Bits, LaneBits, Read, StateAfterRead, LeftAfterRead, Given;
      ghost var h0, before := h[..], out;
      var done := TakeRest(h, at, outlen);
      while done < outlen
        invariant 0 <= done <= outlen && Valid() && (done < outlen ==> cursor == 0)
        invariant Given(h0, h[..], at, done, outlen, before)
      {
        var len := TakeMore(h, at, done, outlen, h0, before);
        done := done + len;
      }
      AllGiven(h0, h[..], at, outlen, before);
    }

    lemma AllGiven(h0: seq<Byte>, h: seq<Byte>, at: nat, outlen: nat, before: nat)
      requires 0 < r <= 200 && |h0| == |h| && at + outlen <= |h| && Given(h0, h, at, outlen, outlen, before)
      ensures out == before + outlen
      ensures Bits(h[at..at + outlen]) == Read(f, 8 * r, start, 0, 8 * out)[8 * before..]
      ensures h[..at] == h0[..at] && h[at + outlen..] == h0[at + outlen..]
    {
      hide Bits, Read;
    }
  }

  // What a finalized context yields is what the sponge yields for everything it absorbed.
  lemma ContextIsSponge(c: Context, p: Byte, appended: Word, n: nat)
    requires c.Valid() && c.squeezing && Delimits(p, appended)
    requires |Rest(8 * c.r, Bits(c.M))| % 8 == 0 && c.start == Finalized(c.f, c.r, Zero(1600), Bits(c.M), p)
    ensures Read(c.f, 8 * c.r, c.start, 0, 8 * n) == SpongeOf(c.f, 8 * c.r, Bits(c.M) + appended, 8 * n)
  {
    hide *;
    c.RateBound();
    FinalizedIsSponge(c.f, c.r, Bits(c.M), p, appended, 8 * n);
  }

  /** shake128_inc_finalize and shake256_inc_finalize */
  method ShakeFinalize(c: Context)
    requires c.Valid() && !c.squeezing
    modifies c`cursor, c`squeezing, c`start, c`out, c.lanes
    ensures c.Valid() && c.squeezing && c.out == 0
    ensures forall n: nat ::
      Read(c.f, 8 * c.r, c.start, 0, 8 * n) == SpongeOf(c.f, 8 * c.r, Bits(c.M) + SHAKE_BITS, 8 * n)
  {
    hide *;
    DomainBytes();
    c.Finalize(Uint8(0x1F));
    forall n: nat {
      ContextIsSponge(c, Uint8(0x1F), SHAKE_BITS, n);
    }
  }

  /** sha3_256_inc_finalize, sha3_384_inc_finalize and sha3_512_inc_finalize, for n = 32, 48 and 64 */
  method Sha3Finalize(c: Context, output: array<Byte>, n: nat)
    requires c.Valid() && !c.squeezing
    requires 0 < n <= c.r && n <= output.Length
    modifies c, c.lanes, output
    ensures Bits(output[..n]) == SpongeOf(c.f, 8 * c.r, old(Bits(c.M)) + SHA3_BITS, 8 * n)
    ensures output[n..] == old(output[n..])
  {
    hide Bits, LaneBits, Read, SpongeOf, Finalized, Rest, Uint8, Delimits, StateAfterRead, LeftAfterRead, Pending;
    DomainBytes();
    c.Finalize(Uint8(0x06));
    ContextIsSponge(c, Uint8(0x06), SHA3_BITS, n);
    NoneRead(c.f, 8 * c.r, c.start);
    SqueezeRest(c.f, c.lanes, c.r, output, 0, n);
    assert output[..n] == output[0..n];
  }

  method AbsorbAll(c: Context, pieces: seq<seq<Byte>>)
    requires c.Valid() && !c.squeezing && c.M == []
    modifies c`cursor, c`M, c.lanes
    ensures c.Valid() && !c.squeezing && c.M == Concat(pieces)
  {
    for i := 0 to |pieces|
      invariant c.Valid() && !c.squeezing && c.M == Concat(pieces[..i])
    {
      assert pieces[..i + 1][..i] == pieces[..i];
      c.Absorb(pieces[i]);
    }
    assert pieces[..|pieces|] == pieces;
  }

  method SqueezeAll(c: Context, lengths: seq<nat>, output: array<Byte>)
    requires c.Valid() && c.squeezing && c.out == 0 && Total(lengths) <= output.Length
    modifies c`cursor, c`out, c.lanes, output
    ensures c.Valid()
    ensures Bits(output[..Total(lengths)]) == Read(c.f, 8 * c.r, c.start, 0, 8 * Total(lengths))
    ensures output[Total(lengths)..] == old(output[Total(lengths)..])
  {
    hide Bits, LaneBits, Read, StateAfterRead, LeftAfterRead, Pending, Rest;
    var at := 0;
    NoneRead(c.f, 8 * c.r, c.start);
    NoBytes(output[..], 0);
    for i := 0 to |lengths|
      invariant c.Valid() && c.squeezing && c.out == at == Total(lengths[..i]) <= Total(lengths)
      invariant Bits(output[..at]) == Read(c.f, 8 * c.r, c.start, 0, 8 * at)
      invariant output[Total(lengths)..] == old(output[Total(lengths)..])
    {
      assert lengths[..i + 1][..i] == lengths[..i];
      TotalMonotone(lengths, i + 1);
      ghost var before := output[..];
      c.Squeeze(output, at, lengths[i]);
      NextOutput(before, output[..], 0, at, lengths[i], Total(lengths));
      ReadPrefix(c.f, 8 * c.r, c.start, 0, 8 * at, 8 * (at + lengths[i]));
      at := at + lengths[i];
    }
    assert lengths[..|lengths|] == lengths;
  }

  /** Any way to cut the input and the output into pieces gives the one-shot result. */
  method ShakeInPieces(f: Permutation, r: nat, pieces: seq<seq<Byte>>, lengths: seq<nat>, output: array<Byte>)
    requires 0 < r <= 200 && Total(lengths) <= output.Length
    modifies output
    ensures Bits(output[..Total(lengths)]) == SpongeOf(f, 8 * r, Bits(Concat(pieces)) + SHAKE_BITS, 8 * Total(lengths))
    ensures output[Total(lengths)..] == old(output[Total(lengths)..])
  {
    hide *;
    var c := new Context(f, r);
    AbsorbAll(c, pieces);
    ShakeFinalize(c);
    SqueezeAll(c, lengths, output);
  }

  lemma Append(M: seq<Byte>, m: seq<Byte>, pos: nat, n: nat)
    requires pos + n <= |m|
    ensures Bits(M + m[..pos + n]) == Bits(M + m[..pos]) + Bits(m[pos..][..n])
  {
    hide Bits;
    BitsConcat(M + m[..pos], m[pos..][..n]);
    assert M + m[..pos + n] == (M + m[..pos]) + m[pos..][..n];
  }

  method FillSuffix(t: array<Byte>, r: nat, cursor: nat, p: Byte)
    requires cursor < r <= t.Length
    modifies t
    ensures t[..r] == seq(cursor, _ => Zero(8)) + Suffix(r - cursor, p)
  {
    hide Zero, Suffix;
    for i := 0 to r
      invariant forall k :: 0 <= k < i ==> t[k] == Zero(8)
    {
      t[i] := Zero(8);
    }
    SetEnds(t, cursor, r, p, seq(cursor, _ => Zero(8)));
  }

  lemma XorInTwoParts(A: StateBits, R: Word, e: Word)
    requires |R| + |e| <= 1600
    ensures XorAt(XorAt(A, 0, R), 0, Zero(|R|) + e) == XorAt(A, 0, R + e)
  {}
}
