/** The duplex object of KeccakDuplex.c, for any rate, and what it has to do with the sponge. */
module KeccakDuplex {
  import opened Words
  import opened BitStrings
  import opened Sponge
  import Keccak
  import opened KeccakInterface
  import opened KeccakSponge

  // The inputs of the calls so far, each padded to one block.
  function Padded(r: nat, inputs: seq<Word>): Word
    requires 0 < r
  {
    if inputs == [] then []
    else var last := inputs[|inputs| - 1]; Padded(r, inputs[..|inputs| - 1]) + (last + Pad(r, |last|))
  }

  predicate Short(r: nat, inputs: seq<Word>)
  {
    forall i :: 0 <= i < |inputs| ==> |inputs[i]| + 2 <= r
  }

  lemma NothingPadded(r: nat)
    requires 0 < r
    ensures Padded(r, []) == []
  {}

  lemma {:induction false} PaddedIsWhole(r: nat, inputs: seq<Word>)
    requires 2 <= r <= 1600 && Short(r, inputs)
    ensures Rest(r, Padded(r, inputs)) == []
  {
    if inputs != [] {
      var k := |inputs| - 1;
      var block := inputs[k] + Pad(r, |inputs[k]|);
      PaddedIsWhole(r, inputs[..k]);
      RestConcat(r, Padded(r, inputs[..k]), block);
      assert [] + block == block;
      assert Rest(r, block[r..]) == [];
    }
  }

  lemma RestConcat(r: nat, P: Word, Q: Word)
    requires 0 < r <= 1600
    ensures Rest(r, P + Q) == Rest(r, Rest(r, P) + Q)
  {
    AbsorbConcat(Any(s => s), r, Zero(1600), P, Q);
  }

  /** The duplexing-sponge lemma: a call gives what a sponge gives for the padded earlier inputs and the new one. */
  lemma DuplexingIsSponge(f: Permutation, r: nat, inputs: seq<Word>, sigma: Word, n: nat)
    requires 2 <= r <= 1600 && Short(r, inputs) && |sigma| + 2 <= r && n <= r
    ensures AbsorbBlocks(f, r, Zero(1600), Padded(r, inputs + [sigma]))[..n]
      == SpongeOf(f, r, Padded(r, inputs) + sigma, n)
  {
    var P := Padded(r, inputs);
    PaddedIsWhole(r, inputs);
    RestConcat(r, P, sigma);
    assert [] + sigma == sigma;
    PadOfRest(r, P + sigma);
    assert (inputs + [sigma])[..|inputs|] == inputs;
    assert P + (sigma + Pad(r, |sigma|)) == P + sigma + Pad(r, |sigma|);
  }

  // The longest input that is accepted, in the 32-bit arithmetic of the code.
  function RhoMax(rate: nat): nat
  {
    (rate - 2) % 0x1_0000_0000
  }

  lemma RhoMaxIs(rate: nat)
    requires 0 < rate <= 1600
    ensures RhoMax(rate) == if rate == 1 then 0xFFFF_FFFF else rate - 2
  {}

  predicate Accepts(rate: nat, inBitLen: nat)
  {
    inBitLen <= RhoMax(rate)
  }

  // Exactly from rate 2 on, the bound keeps room for the two bits of the padding. InitDuplex also accepts rate 1.
  lemma RhoMaxExact(rate: nat)
    requires 0 < rate <= 1600
    ensures (forall n: UInt32 :: Accepts(rate, n) <==> n + 2 <= rate) <==> 2 <= rate
  {
    if rate == 1 {
      assert Accepts(1, 0);
    }
  }

  // The lanes of a block: the input, and a one behind it and at the end of the rate.
  function Marked(sigma: Word, rate: nat): (w: Word)
    requires 0 < rate <= 1600 && |sigma| < 1600
    ensures |w| == 64 * ((rate + 63) / 64)
  {
    (sigma + Zero(1600 - |sigma|))[|sigma| := true][rate - 1 := true][..64 * ((rate + 63) / 64)]
  }

  // Whole lanes are absorbed, but from rate 2 on the capacity stays as it is.
  lemma MarkedIsPadded(f: Permutation, s: StateBits, sigma: Word, rate: nat)
    requires |sigma| + 2 <= rate <= 1600
    ensures |sigma + Pad(rate, |sigma|)| == rate
    ensures AbsorbBlock(f, s, Marked(sigma, rate)) == AbsorbBlock(f, s, sigma + Pad(rate, |sigma|))
  {
    hide Pad;
    PadFits(rate, |sigma|);
    PadInZeros(rate, sigma, 1600);
    var n := 64 * ((rate + 63) / 64) - rate;
    assert Marked(sigma, rate) == sigma + Pad(rate, |sigma|) + Zero(n);
    XorOfZeros(f, s, sigma + Pad(rate, |sigma|), n);
  }

  // Every accepted input is absorbed as one block with its padding.
  ghost predicate IsDuplex(f: Permutation, rate: nat)
    requires 0 < rate <= 1600
  {
    forall s: StateBits, sigma: Word | |sigma| < 1600 && Accepts(rate, |sigma|) ::
      AbsorbBlock(f, s, Marked(sigma, rate)) == AbsorbBlocks(f, rate, s, sigma + Pad(rate, |sigma|))
  }

  lemma DuplexFromTwo(f: Permutation, rate: nat)
    requires 2 <= rate <= 1600
    ensures IsDuplex(f, rate)
  {
    hide AbsorbBlock, AbsorbBlocks, Pad, Marked, Keccak.KeccakBits;
    forall s: StateBits, sigma: Word | |sigma| < 1600 && Accepts(rate, |sigma|)
      ensures AbsorbBlock(f, s, Marked(sigma, rate)) == AbsorbBlocks(f, rate, s, sigma + Pad(rate, |sigma|))
    {
      OnePaddedBlock(f, rate, s, sigma);
    }
  }

  /** From rate 2 on, an input of at most rate - 2 bits is absorbed as one block with its padding. */
  lemma OnePaddedBlock(f: Permutation, rate: nat, s: StateBits, sigma: Word)
    requires |sigma| + 2 <= rate <= 1600
    ensures AbsorbBlock(f, s, Marked(sigma, rate)) == AbsorbBlocks(f, rate, s, sigma + Pad(rate, |sigma|))
  {
    hide AbsorbBlock, AbsorbBlocks, Pad, Marked, Keccak.KeccakBits;
    MarkedIsPadded(f, s, sigma, rate);
    RestBlock(f, rate, s, sigma + Pad(rate, |sigma|));
  }

  // At rate 1 the two bits are the same: a call for no input absorbs one block of the two that the sponge absorbs.
  lemma RateOne(f: Permutation, s: StateBits)
    ensures AbsorbBlocks(f, 1, s, [] + Pad(1, 0)) == AbsorbBlock(f, AbsorbBlock(f, s, Marked([], 1)), [true])
    ensures AbsorbBlock(f, s, Marked([], 1)) == f.apply(XorAt(s, 0, [true]))
  {
    var P := [] + Pad(1, 0);
    assert P == [true] + [true];
    assert Marked([], 1) == [true] + Zero(63);
    XorOfZeros(f, s, [true], 63);
    assert AbsorbBlock(f, s, [true]) == f.apply(XorAt(s, 0, [true]));
    hide AbsorbBlock;
    assert P[..1] == [true] && P[1..] == [true];
    RestBlock(f, 1, AbsorbBlock(f, s, [true]), [true]);
  }

  // For an injective map that is the same state exactly where the map takes the flipped state back.
  lemma RateOneExact(f: Permutation, s: StateBits)
    requires Injective(f)
    ensures AbsorbBlock(f, s, Marked([], 1)) == AbsorbBlocks(f, 1, s, [] + Pad(1, 0))
      <==> f.apply(XorAt(s, 0, [true])) == s
  {
    hide AbsorbBlocks, Pad, Marked, Keccak.KeccakBits, XorAt;
    var u := XorAt(s, 0, [true]);
    var v := f.apply(u);
    RateOne(f, s);
    assert AbsorbBlock(f, v, [true]) == f.apply(XorAt(v, 0, [true]));
    XorAtTwice(s, 0, [true]);
    XorAtTwice(v, 0, [true]);
  }

  /** Over Keccak-f, for every state. */
  lemma RateOneKeccak(s: StateBits)
    ensures AbsorbBlock(KECCAK, s, Marked([], 1)) == AbsorbBlocks(KECCAK, 1, s, [] + Pad(1, 0))
      <==> Keccak.KeccakBits(XorAt(s, 0, [true])) == s
  {
    hide AbsorbBlock, AbsorbBlocks, Pad, Marked, Keccak.KeccakBits, XorAt, Injective;
    KeccakInjective();
    RateOneExact(KECCAK, s);
  }

  // Bit 5 flipped
  function Flip(s: StateBits): (t: StateBits)
  {
    s[5 := !s[5]]
  }

  /** At rate 1 there are a map and a state for which they differ. */
  lemma RateOneDiffers() returns (f: Permutation, s: StateBits)
    ensures AbsorbBlock(f, s, Marked([], 1)) != AbsorbBlocks(f, 1, s, [] + Pad(1, 0))
  {
    f, s := Any(Flip), Zero(1600);
    RateOne(f, s);
    var u := XorAt(s, 0, [true]);
    var v := XorAt(Flip(u), 0, [true]);
    assert Flip(u)[5] && !Flip(v)[5];
  }

  lemma FlipFails()
    ensures exists f: Permutation :: !IsDuplex(f, 1)
  {
    hide AbsorbBlock, AbsorbBlocks, Pad, Marked;
    var f, s := RateOneDiffers();
    var sigma: Word := [];
    assert |sigma| == 0 && Accepts(1, |sigma|);
    assert AbsorbBlock(f, s, Marked(sigma, 1)) != AbsorbBlocks(f, 1, s, sigma + Pad(1, |sigma|));
    assert !IsDuplex(f, 1);
  }

  /** The calls are the duplex construction, whatever the map, exactly from rate 2 on. */
  lemma DuplexExact(rate: nat)
    requires 0 < rate <= 1600
    ensures (forall f: Permutation :: IsDuplex(f, rate)) <==> 2 <= rate
  {
    hide IsDuplex;
    if 2 <= rate {
      forall f: Permutation ensures IsDuplex(f, rate) {
        DuplexFromTwo(f, rate);
      }
    } else {
      FlipFails();
    }
  }

  class DuplexState {
    const f: Permutation
    const state: array<Byte>
    var rate: nat
    var capacity: nat
    var rho_max: nat

    ghost var inputs: seq<Word>

    constructor (f: Permutation)
      ensures this.f == f && fresh(state) && state.Length == 200
    {
      this.f := f;
      state := new Byte[200];
    }

    ghost predicate Valid()
      reads this, state
    {
      && state.Length == 200 && 0 < rate <= 1600
      && rho_max == RhoMax(rate)
      && (2 <= rate ==>
            Short(rate, inputs) && Bits(state[..]) == AbsorbBlocks(f, rate, Zero(1600), Padded(rate, inputs)))
    }

    method InitDuplex(rate: UInt32, capacity: UInt32) returns (ret: int)
      requires state.Length == 200
      modifies this, state
      ensures ret == 0 <==> 0 < rate <= 1600 && rate + capacity == 1600
      ensures ret == 0 ==> Valid() && inputs == [] && this.rate == rate && this.capacity == capacity
      ensures ret == 0 ==> Bits(state[..]) == Zero(1600)
      ensures ret == 0 ==> rho_max == if rate == 1 then 0xFFFF_FFFF else rate - 2
      ensures ret != 0 ==> ret == 1 && unchanged(this, state)
    {
      hide Bits, RhoMax;
      if (rate + capacity) % 0x1_0000_0000 != 1600 {
        return 1;
      }
      if rate <= 0 || rate > 1600 {
        return 1;
      }
      this.rate := rate;
      this.capacity := capacity;
      rho_max := RhoMax(rate);
      RhoMaxIs(rate);
      forall i | 0 <= i < 200 {
        state[i] := Zero(8);
      }
      inputs := [];
      ZeroBytes(state[..]);
      return 0;
    }

    // At rate 1 the bound on the input is no bound; what fills the lane is the most that the buffer arithmetic allows.
    method Duplexing(input: seq<Byte>, inBitLen: UInt32, output: array<Byte>, outBitLen: UInt32) returns (ret: int)
      requires Valid() && (rate == 1 ==> inBitLen <= 64)
      requires inBitLen <= rho_max ==> (inBitLen + 7) / 8 <= |input|
      requires outBitLen <= rate ==> (outBitLen + 7) / 8 <= output.Length
      requires output != state
      modifies this`inputs, state, output
      ensures Valid()
      ensures ret == 0 <==> Accepts(rate, inBitLen) && Aligned(input, inBitLen) && outBitLen <= rate
      ensures ret != 0 ==> ret == 1 && unchanged(this, state, output)
      ensures ret == 0 ==> inputs == old(inputs) + [Bits(input)[..inBitLen]]
      ensures ret == 0 ==>
        Bits(state[..]) == AbsorbBlock(f, old(Bits(state[..])), Marked(Bits(input)[..inBitLen], rate))
      ensures ret == 0 ==>
        (var c := (outBitLen + 7) / 8;
         Bits(output[..c]) == Bits(state[..])[..outBitLen] + Zero(8 * c - outBitLen))
      ensures ret == 0 ==> output[(outBitLen + 7) / 8..] == old(output[(outBitLen + 7) / 8..])
      ensures ret == 0 && 2 <= rate ==>
        (var sigma := Bits(input)[..inBitLen];
         && inBitLen + 2 <= rate
         && Bits(state[..]) == AbsorbBlock(f, old(Bits(state[..])), sigma + Pad(rate, inBitLen))
         && Bits(state[..])[..outBitLen] == SpongeOf(f, rate, Padded(rate, old(inputs)) + sigma, outBitLen))
    {
      hide Bits, AbsorbBlock, Padded, Pad, SpongeOf, And, Not, LowMask, Marked;
      if inBitLen > rho_max {
        return 1;
      }
      if inBitLen % 8 != 0 {
        var mask := Not(LowMask(inBitLen % 8));
        HighBitsClear(input[inBitLen / 8], inBitLen % 8);
        if And(input[inBitLen / 8], mask) != Zero(8) {
          return 1;
        }
      }
      if outBitLen > rate {
        return 1;
      }
      if 2 <= rate {
        DuplexingIsSponge(f, rate, inputs, Bits(input)[..inBitLen], outBitLen);
      }
      var block := AbsorbInput(input, inBitLen);
      Output(block, output, outBitLen);
      return 0;
    }

    // From KeccakExtract to the end.
    method Output(block: array<Byte>, output: array<Byte>, outBitLen: nat)
      requires state.Length == 200 && 0 < rate <= 1600 && outBitLen <= rate
      requires block.Length == 200 && block != output && state != block && state != output
      requires (outBitLen + 7) / 8 <= output.Length
      modifies block, output
      ensures var c := (outBitLen + 7) / 8; Bits(output[..c]) == Bits(state[..])[..outBitLen] + Zero(8 * c - outBitLen)
      ensures output[(outBitLen + 7) / 8..] == old(output[(outBitLen + 7) / 8..])
    {
      hide Bits;
      var laneCount := (rate + 63) / 64;
      BitsSlice(state[..], 0, 8 * laneCount);
      Memcpy(block, 0, state[..8 * laneCount]);
      assert block[..8 * laneCount] == state[..][0..8 * laneCount];
      Deliver(block, Bits(state[..]), 8 * laneCount, output, outBitLen);
    }

    // From the padding to KeccakAbsorb.
    method AbsorbInput(input: seq<Byte>, inBitLen: nat) returns (block: array<Byte>)
      requires Valid() && (if rate == 1 then inBitLen <= 64 else inBitLen + 2 <= rate)
      requires (inBitLen + 7) / 8 <= |input| && Aligned(input, inBitLen)
      modifies this`inputs, state
      ensures Valid() && inputs == old(inputs) + [Bits(input)[..inBitLen]]
      ensures Bits(state[..]) == AbsorbBlock(f, old(Bits(state[..])), Marked(Bits(input)[..inBitLen], rate))
      ensures 2 <= rate ==>
        Bits(state[..]) == AbsorbBlock(f, old(Bits(state[..])), Bits(input)[..inBitLen] + Pad(rate, inBitLen))
      ensures fresh(block) && block.Length == 200
    {
      hide Bits, AbsorbBlock, AbsorbBlocks, Padded, Pad, Aligned, Marked;
      ghost var sigma, S := Bits(input)[..inBitLen], Bits(state[..]);
      var laneCount := (rate + 63) / 64;
      block := PadBlock(input, inBitLen, rate);
      assert block[..8 * laneCount] == block[..][..8 * laneCount];
      KeccakAbsorb(f, state, block[..], laneCount);
      if 2 <= rate {
        MarkedIsPadded(f, S, sigma, rate);
        PaddedIsWhole(rate, inputs);
        OneMoreInput(rate, inputs, sigma);
        BlockAbsorbed(f, rate, Zero(1600), Padded(rate, inputs), sigma + Pad(rate, inBitLen));
      }
      inputs := inputs + [sigma];
    }
  }

  // The partial byte has no bit above position p.
  lemma HighBitsClear(b: Byte, p: nat)
    requires p < 8
    ensures And(b, Not(LowMask(p))) == Zero(8) <==> b[p..] == Zero(8 - p)
  {
    if And(b, Not(LowMask(p))) == Zero(8) {
      forall k | p <= k < 8 ensures !b[k] {
        assert And(b, Not(LowMask(p)))[k] == b[k];
      }
    }
    if b[p..] == Zero(8 - p) {
      forall k | p <= k < 8 ensures !b[k] {
        assert b[p..][k - p] == b[k];
      }
    }
  }

  lemma AlignedIs(input: seq<Byte>, n: nat)
    requires (n + 7) / 8 <= |input|
    ensures Aligned(input, n) <==> forall k :: n % 8 <= k < 8 && n % 8 != 0 ==> !input[n / 8][k]
  {
    if n % 8 != 0 {
      var b, p := input[n / 8], n % 8;
      if b[p..] == Zero(8 - p) {
        forall k | p <= k < 8 ensures !b[k] {
          assert b[p..][k - p] == b[k];
        }
      }
      if forall k :: p <= k < 8 ==> !b[k] {
        assert b[p..] == Zero(8 - p);
      }
    }
  }

  // The bits above inBitLen in the last byte are zero.
  predicate Aligned(input: seq<Byte>, inBitLen: nat)
    requires (inBitLen + 7) / 8 <= |input|
  {
    inBitLen % 8 != 0 ==> input[inBitLen / 8][inBitLen % 8..] == Zero(8 - inBitLen % 8)
  }

  lemma PadFits(r: nat, n: nat)
    requires n + 2 <= r
    ensures |Pad(r, n)| == r - n
  {}

  lemma OneMoreInput(r: nat, inputs: seq<Word>, sigma: Word)
    requires 0 < r
    ensures Padded(r, inputs + [sigma]) == Padded(r, inputs) + (sigma + Pad(r, |sigma|))
  {
    assert (inputs + [sigma])[..|inputs|] == inputs;
  }

  lemma XorOfZeros(f: Permutation, s: StateBits, B: Word, n: nat)
    requires |B| + n <= 1600
    ensures AbsorbBlock(f, s, B + Zero(n)) == AbsorbBlock(f, s, B)
  {
    assert XorAt(s, 0, B + Zero(n)) == XorAt(s, 0, B);
  }

  method PadBlock(input: seq<Byte>, inBitLen: nat, rate: nat) returns (block: array<Byte>)
    requires 0 < rate <= 1600 && (if rate == 1 then inBitLen <= 64 else inBitLen + 2 <= rate)
    requires (inBitLen + 7) / 8 <= |input| && Aligned(input, inBitLen)
    ensures fresh(block) && block.Length == 200
    ensures Bits(block[..8 * ((rate + 63) / 64)]) == Marked(Bits(input)[..inBitLen], rate)
  {
    hide Bits;
    var c, lanes := (inBitLen + 7) / 8, (rate + 63) / 64;
    block := new Byte[200];
    Memcpy(block, 0, input[..c]);
    ClearRest(block, input[..c], 8 * lanes, c);
    InputAndZeros(input, inBitLen, c, block[..8 * lanes]);
    SetBit(block, inBitLen, 8 * lanes);
    SetBit(block, rate - 1, 8 * lanes);
    MarkedInLanes(Bits(input)[..inBitLen], rate, 64 * lanes);
  }

  // Zeros behind what has been copied, up to n bytes
  method ClearRest(block: array<Byte>, ghost copied: seq<Byte>, n: nat, c: nat)
    requires c == |copied| <= n <= block.Length && block[..c] == copied
    modifies block
    ensures block[..n] == copied + ZeroFill(n - c)
  {
    hide Zero;
    forall i | c <= i < n {
      block[i] := Zero(8);
    }
    assert forall i :: 0 <= i < c ==> block[i] == copied[i];
  }

  lemma MarkedInLanes(sigma: Word, rate: nat, w: nat)
    requires 0 < rate <= 1600 && |sigma| < 1600 && w == 64 * ((rate + 63) / 64) && |sigma| <= w
    ensures var z := sigma + Zero(w - |sigma|);
      Marked(sigma, rate) == (if |sigma| < w then z[|sigma| := true] else z)[rate - 1 := true]
  {}

  lemma InputAndZeros(input: seq<Byte>, n: nat, c: nat, b: seq<Byte>)
    requires c == (n + 7) / 8 <= |input| && c <= |b|
    requires Aligned(input, n)
    requires b == input[..c] + ZeroFill(|b| - c)
    ensures Bits(b) == Bits(input)[..n] + Zero(8 * |b| - n)
  {
    hide Bits;
    BitsConcat(input[..c], ZeroFill(|b| - c));
    ZeroBytes(ZeroFill(|b| - c));
    BitsSlice(input, 0, c);
    assert input[0..c] == input[..c];
    if n % 8 != 0 {
      ByteAt(input, n / 8);
      assert Bits(input)[n..8 * c] == Bits(input)[8 * (n / 8)..8 * (n / 8) + 8][n % 8..];
    }
    assert Bits(input)[0..8 * c] == Bits(input)[..n] + Bits(input)[n..8 * c];
  }

  method Deliver(block: array<Byte>, ghost S: Word, n: nat, output: array<Byte>, outBitLen: nat)
    requires block != output && n <= block.Length && 8 * n <= |S| && Bits(block[..n]) == S[..8 * n]
    requires outBitLen <= 8 * n && (outBitLen + 7) / 8 <= output.Length
    modifies output
    ensures var c := (outBitLen + 7) / 8; Bits(output[..c]) == S[..outBitLen] + Zero(8 * c - outBitLen)
    ensures output[(outBitLen + 7) / 8..] == old(output[(outBitLen + 7) / 8..])
  {
    hide Bits, And, LowMask;
    var c := (outBitLen + 7) / 8;
    CopyBlock(block, S, n, output, c);
    if outBitLen % 8 != 0 {
      MaskLastByte(output, outBitLen);
    }
  }

  method CopyBlock(block: array<Byte>, ghost S: Word, n: nat, output: array<Byte>, c: nat)
    requires block != output && n <= block.Length && 8 * n <= |S| && Bits(block[..n]) == S[..8 * n]
    requires c <= n && c <= output.Length
    modifies output
    ensures Bits(output[..c]) == S[..8 * c] && output[c..] == old(output[c..])
  {
    hide Bits;
    Memcpy(output, 0, block[..c]);
    BitsSlice(block[..n], 0, c);
    assert block[..n][0..c] == output[..c];
  }

  method MaskLastByte(output: array<Byte>, n: nat)
    requires n % 8 != 0 && n / 8 < output.Length
    modifies output
    ensures var c := n / 8 + 1;
      && Bits(output[..c]) == old(Bits(output[..c]))[..n] + Zero(8 * c - n)
      && output[c..] == old(output[c..])
  {
    hide Bits, And, LowMask;
    ghost var b0 := output[..n / 8 + 1];
    var mask := LowMask(n % 8);
    output[n / 8] := And(output[n / 8], mask);
    assert output[..n / 8 + 1] == b0[n / 8 := And(b0[n / 8], mask)];
    LastByteMasked(b0, n, output[..n / 8 + 1]);
  }

  lemma LastByteMasked(b0: seq<Byte>, n: nat, b1: seq<Byte>)
    requires n % 8 != 0 && n / 8 + 1 == |b0|
    requires b1 == b0[n / 8 := And(b0[n / 8], LowMask(n % 8))]
    ensures Bits(b1) == Bits(b0)[..n] + Zero(8 * |b0| - n)
  {
    hide Bits, And, LowMask;
    var j := n / 8;
    MaskedByte(b0[j], n % 8);
    assert b0 == b0[..j] + [b0[j]] && b1 == b0[..j] + [b1[j]];
    BitsConcat(b0[..j], [b0[j]]);
    BitsConcat(b0[..j], [b1[j]]);
    OneByte(b0[j]);
    OneByte(b1[j]);
  }
}
