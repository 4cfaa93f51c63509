/** The bit-oriented sponge of KeccakSponge.c, with its queue, its whole-block path and its lazy squeezing. */
module KeccakSponge {
  import opened Words
  import opened BitStrings
  import opened Sponge
  import opened Arithmetic
  import opened KeccakInterface

  type UInt32 = n: nat | n < 0x1_0000_0000
  type UInt64 = n: nat | n < 0x1_0000_0000_0000_0000

  // (1 << k) - 1 as an unsigned char
  function LowMask(k: nat): Byte
  {
    seq(8, i => i < k)
  }

  // 1 << k as an unsigned char
  function OneAt(k: nat): Byte
    requires k < 8
  {
    Shl(One(8), k)
  }

  // How many of the remaining bits the queue takes, in the 32-bit arithmetic of the code.
  function PartialBlock(remaining: nat, bitsInQueue: nat, rate: nat): (p: nat)
    requires bitsInQueue <= rate
    ensures p <= remaining
  {
    var n := remaining % 0x1_0000_0000;
    if (n + bitsInQueue) % 0x1_0000_0000 > rate then rate - bitsInQueue else n
  }

  // The lengths that the queue path takes correctly when the queue is not empty.
  predicate QueueFits(databitlen: nat, bitsInQueue: nat, rate: nat)
  {
    var n := databitlen % 0x1_0000_0000;
    bitsInQueue == 0 ||
    (n + bitsInQueue < 0x1_0000_0000 && (databitlen < 0x1_0000_0000 || rate <= n + bitsInQueue))
  }

  function Min(a: nat, b: nat): nat
  {
    if a <= b then a else b
  }

  // The narrowing to 32 bits does no harm exactly when the length fits.
  lemma NarrowingExact(databitlen: nat, bitsInQueue: nat, rate: nat)
    requires 0 < bitsInQueue < rate <= 1536
    ensures PartialBlock(databitlen, bitsInQueue, rate) == Min(databitlen, rate - bitsInQueue)
      <==> QueueFits(databitlen, bitsInQueue, rate)
  {
    var n := databitlen % 0x1_0000_0000;
    if n + bitsInQueue >= 0x1_0000_0000 {
      assert (n + bitsInQueue) % 0x1_0000_0000 == n + bitsInQueue - 0x1_0000_0000;
    }
  }

  // What is left of the data and what is in the queue after n turns of the queue path.
  function AfterTurns(n: nat, remaining: nat, bitsInQueue: nat, rate: nat): (nat, nat)
  {
    if n == 0 || bitsInQueue > rate then (remaining, bitsInQueue)
    else
      var p := PartialBlock(remaining, bitsInQueue, rate);
      AfterTurns(n - 1, remaining - p, if bitsInQueue + p == rate then 0 else bitsInQueue + p, rate)
  }

  lemma {:induction false} TurnsTakeNothing(n: nat, remaining: nat, bitsInQueue: nat, rate: nat)
    requires bitsInQueue < rate && PartialBlock(remaining, bitsInQueue, rate) == 0
    ensures AfterTurns(n, remaining, bitsInQueue, rate) == (remaining, bitsInQueue)
  {
    if n > 0 {
      TurnsTakeNothing(n - 1, remaining, bitsInQueue, rate);
    }
  }

  // A turn keeps the queue within the block and ends with the data or a full queue, exactly when the length fits.
  lemma TurnExact(databitlen: nat, bitsInQueue: nat, rate: nat)
    requires 0 < bitsInQueue < rate <= 1536
    ensures var p := PartialBlock(databitlen, bitsInQueue, rate);
      (bitsInQueue + p <= rate && (p == databitlen || bitsInQueue + p == rate))
      <==> QueueFits(databitlen, bitsInQueue, rate)
  {
    hide QueueFits;
    NarrowingExact(databitlen, bitsInQueue, rate);
  }

  /** Otherwise the first turn copies beyond the block, or no later turn takes anything and the loop never ends. */
  lemma NarrowingFails(databitlen: nat, bitsInQueue: nat, rate: nat)
    requires 0 < bitsInQueue < rate <= 1536 && !QueueFits(databitlen, bitsInQueue, rate)
    ensures var p := PartialBlock(databitlen, bitsInQueue, rate);
      bitsInQueue + p > rate ||
      (p < databitlen && bitsInQueue + p < rate &&
       forall n: nat | n > 0 :: AfterTurns(n, databitlen, bitsInQueue, rate) == (databitlen - p, bitsInQueue + p))
  {
    var p := PartialBlock(databitlen, bitsInQueue, rate);
    TurnExact(databitlen, bitsInQueue, rate);
    if bitsInQueue + p <= rate {
      NothingMore(databitlen, bitsInQueue, rate);
      forall n: nat | n > 0
        ensures AfterTurns(n, databitlen, bitsInQueue, rate) == (databitlen - p, bitsInQueue + p)
      {
        TurnsTakeNothing(n - 1, databitlen - p, bitsInQueue + p, rate);
      }
    }
  }

  lemma NothingMore(databitlen: nat, bitsInQueue: nat, rate: nat)
    requires 0 < bitsInQueue < rate <= 1536 && !QueueFits(databitlen, bitsInQueue, rate)
    requires bitsInQueue + PartialBlock(databitlen, bitsInQueue, rate) <= rate
    ensures var p := PartialBlock(databitlen, bitsInQueue, rate);
      p < databitlen && bitsInQueue + p < rate && PartialBlock(databitlen - p, bitsInQueue + p, rate) == 0
  {
    var n := databitlen % 0x1_0000_0000;
    if n + bitsInQueue < 0x1_0000_0000 {
      assert PartialBlock(databitlen, bitsInQueue, rate) == n;
      assert (databitlen - n) % 0x1_0000_0000 == 0;
    }
  }

  // One byte waits in the queue and 2^32 more bits are offered: no number of turns takes any of them.
  lemma QueueStuck(n: nat)
    ensures !QueueFits(0x1_0000_0000, 8, 1088) && AfterTurns(n, 0x1_0000_0000, 8, 1088) == (0x1_0000_0000, 8)
  {
    TurnsTakeNothing(n, 0x1_0000_0000, 8, 1088);
  }

  class SpongeState {
    const f: Permutation
    const state: array<Byte>
    const dataQueue: array<Byte>
    var rate: nat
    var capacity: nat
    var bitsInQueue: nat
    var fixedOutputLength: nat
    var squeezing: bool
    var bitsAvailableForSqueezing: nat

    ghost var M: Word    // the message absorbed so far
    ghost var out: nat   // the number of bits squeezed so far

    constructor (f: Permutation)
      ensures this.f == f && fresh(state) && fresh(dataQueue)
      ensures Allocated()
    {
      this.f := f;
      state := new Byte[200];
      dataQueue := new Byte[192];
    }

    ghost predicate Allocated()
    {
      state.Length == 200 && dataQueue.Length == 192 && state != dataQueue
    }

    // The state and the queue after absorbing N.
    ghost predicate Absorbed(N: Word)
      reads this, state, dataQueue
      requires Allocated() && 0 < rate <= 1536
    {
      && Bits(state[..]) == AbsorbBlocks(f, rate, Zero(1600), N)
      && bitsInQueue == |Rest(rate, N)|
      && Bits(dataQueue[..])[..bitsInQueue] == Rest(rate, N)
      && (forall k :: bitsInQueue <= k < 8 * ((bitsInQueue + 7) / 8) ==> !Bits(dataQueue[..])[k])
    }

    ghost function Start(): StateBits
      reads this
      requires 0 < rate <= 1600
    {
      AbsorbBlocks(f, rate, Zero(1600), M + Pad(rate, |M|))
    }

    ghost predicate Squeezed()
      reads this, state, dataQueue
      requires Allocated() && 0 < rate <= 1536
    {
      && bitsInQueue == 0
      && bitsAvailableForSqueezing % 8 == 0
      && Bits(state[..]) == StateAfterRead(f, rate, Start(), rate, out)
      && bitsAvailableForSqueezing == LeftAfterRead(rate, rate, out)
      && Bits(dataQueue[..])[..rate] == Bits(state[..])[..rate]
    }

    ghost predicate Valid()
      reads this, state, dataQueue
    {
      && Allocated()
      && 0 < rate <= 1536 && rate % 64 == 0
      && if squeezing then Squeezed() else Absorbed(M) && out == 0
    }

    method InitSponge(rate: UInt32, capacity: UInt32) returns (ret: int)
      requires Allocated()
      modifies this, state, dataQueue
      ensures ret == 0 <==> 0 < rate < 1600 && rate % 64 == 0 && rate + capacity == 1600
      ensures ret == 0 ==> Valid() && !squeezing && M == [] && this.rate == rate && fixedOutputLength == 0
      ensures ret == 0 ==> Bits(state[..]) == Zero(1600) && this.capacity == capacity
      ensures ret == 0 ==> bitsInQueue == 0 && bitsAvailableForSqueezing == 0
      ensures ret != 0 ==> ret == 1 && unchanged(this, state, dataQueue)
    {
      if (rate + capacity) % 0x1_0000_0000 != 1600 {
        return 1;
      }
      if rate <= 0 || rate >= 1600 || rate % 64 != 0 {
        return 1;
      }
      this.rate := rate;
      this.capacity := capacity;
      fixedOutputLength := 0;
      forall i | 0 <= i < 200 {
        state[i] := Zero(8);
      }
      forall i | 0 <= i < 192 {
        dataQueue[i] := Zero(8);
      }
      bitsInQueue := 0;
      squeezing := false;
      bitsAvailableForSqueezing := 0;
      M := [];
      out := 0;
      ZeroBytes(state[..]);
      return 0;
    }

    // The queue holds a whole block.
    method AbsorbQueue()
      requires Allocated() && 0 < rate <= 1536 && rate % 64 == 0
      modifies this`bitsInQueue, state
      ensures Bits(state[..]) == AbsorbBlock(f, old(Bits(state[..])), Bits(dataQueue[..])[..rate])
      ensures bitsInQueue == 0
    {
      hide Bits, AbsorbBlock;
      KeccakAbsorb(f, state, dataQueue[..], rate / 64);
      BitsSlice(dataQueue[..], 0, rate / 8);
      assert dataQueue[..][0..rate / 8] == dataQueue[..][..8 * (rate / 64)];
      bitsInQueue := 0;
    }

    // The part of the queue path that moves whole bytes.
    method QueueBytes(src: seq<Byte>, ghost N: Word)
      requires Allocated() && 0 < rate <= 1536 && rate % 64 == 0
      requires Absorbed(N) && bitsInQueue % 8 == 0 && bitsInQueue + 8 * |src| <= rate
      modifies this`bitsInQueue, state, dataQueue
      ensures Absorbed(N + Bits(src)) && bitsInQueue % 8 == 0
      ensures bitsInQueue == if old(bitsInQueue) + 8 * |src| == rate then 0 else old(bitsInQueue) + 8 * |src|
    {
      hide Bits, AbsorbBlock, XorAt, AbsorbBlocks, Rest;
      ghost var q, queued := bitsInQueue / 8, dataQueue[..];
      Memcpy(dataQueue, bitsInQueue / 8, src);
      BytesQueued(queued, q, src, dataQueue[..]);
      AbsorbConcat(f, rate, Zero(1600), N, Bits(src));
      bitsInQueue := bitsInQueue + 8 * |src|;
      RestBlock(f, rate, Bits(state[..]), Rest(rate, N) + Bits(src));
      if bitsInQueue == rate {
        AbsorbQueue();
      }
    }

    // The part of the queue path that keeps the low bits of a last, partial byte.
    method QueuePartialByte(b: Byte, partialByte: nat, ghost N: Word)
      requires Allocated() && 0 < rate <= 1536 && rate % 64 == 0
      requires Absorbed(N) && bitsInQueue % 8 == 0
      requires 0 < partialByte < 8 && bitsInQueue + partialByte < rate
      modifies this`bitsInQueue, dataQueue
      ensures Absorbed(N + b[..partialByte]) && bitsInQueue == old(bitsInQueue) + partialByte
    {
      hide Bits, AbsorbBlock, XorAt, AbsorbBlocks, Rest, And, LowMask;
      ghost var queued := dataQueue[..];
      var mask := LowMask(partialByte);
      dataQueue[bitsInQueue / 8] := And(b, mask);
      MaskedByte(b, partialByte);
      ByteReplaced(queued, bitsInQueue / 8, And(b, mask), dataQueue[..]);
      AbsorbConcat(f, rate, Zero(1600), N, b[..partialByte]);
      RestBlock(f, rate, Bits(state[..]), Rest(rate, N) + b[..partialByte]);
      LastByte(Bits(dataQueue[..]), bitsInQueue, b[..partialByte]);
      bitsInQueue := bitsInQueue + partialByte;
    }

    // The path that absorbs whole blocks from the data, without the queue.
    method AbsorbWholeBlocks(data: seq<Byte>, from: nat, wholeBlocks: nat, ghost N: Word, ghost n: nat)
      requires Allocated() && 0 < rate <= 1536 && rate % 64 == 0
      requires Absorbed(N) && bitsInQueue == 0
      requires IsProduct(n, wholeBlocks, rate / 8) && from + n <= |data|
      modifies state
      ensures Absorbed(N + Bits(data[from..from + n]))
    {
      hide Bits, AbsorbBlock, XorAt, AbsorbBlocks, Rest, IsProduct;
      var blockLength := rate / 8;
      var curData := from;
      NoBytes(data, from);
      assert N + [] == N;
      FirstAndLastBlock(blockLength);
      for j := 0 to wholeBlocks
        invariant from <= curData <= from + n && IsProduct(curData - from, j, blockLength)
        invariant Absorbed(N + Bits(data[from..curData]))
      {
        NextBlock(curData - from, j, wholeBlocks, n, blockLength);
        var block := data[curData..curData + blockLength];
        assert data[curData..][..8 * (rate / 64)] == block;
        BlockAbsorbed(f, rate, Zero(1600), N + Bits(data[from..curData]), Bits(block));
        KeccakAbsorb(f, state, data[curData..], rate / 64);
        NextBytes(N, data, from, curData, blockLength);
        curData := curData + blockLength;
      }
    }

    // One turn of the loop when the queue is empty and a whole block remains.
    method AbsorbFromData(data: seq<Byte>, databitlen: UInt64, i: nat, ghost N: Word) returns (next: nat)
      requires Allocated() && 0 < rate <= 1536 && rate % 64 == 0
      requires Absorbed(N) && bitsInQueue == 0
      requires i % 8 == 0 && i + rate <= databitlen && (databitlen + 7) / 8 <= |data|
      modifies state
      ensures i < next <= databitlen && next % 8 == 0
      ensures Absorbed(N + Bits(data)[i..next])
    {
      hide Bits, AbsorbBlock, XorAt, AbsorbBlocks, Rest, IsProduct, Absorbed;
      ghost var n;
      var wholeBlocks, length;
      wholeBlocks, length, n := WholeBlocks(databitlen - i, rate);
      ghost var a := InData(i, length, n, databitlen, |data|);
      AbsorbWholeBlocks(data, i / 8, wholeBlocks, N, n);
      BitsSlice(data, a, a + n);
      next := i + length;
    }

    // The other turns: fill the queue.
    method AbsorbThroughQueue(data: seq<Byte>, databitlen: UInt64, i: nat, ghost N: Word) returns (next: nat)
      requires Allocated() && 0 < rate <= 1536 && rate % 64 == 0
      requires Absorbed(N) && bitsInQueue < rate && bitsInQueue % 8 == 0
      requires i % 8 == 0 && i < databitlen && (databitlen + 7) / 8 <= |data|
      requires QueueFits(databitlen - i, bitsInQueue, rate)
      requires bitsInQueue == 0 ==> databitlen - i < rate
      modifies this`bitsInQueue, state, dataQueue
      ensures i < next <= databitlen && Absorbed(N + Bits(data)[i..next])
      ensures next < databitlen ==> next % 8 == 0 && bitsInQueue == 0
    {
      hide Bits, AbsorbBlock, XorAt, AbsorbBlocks, Rest, PartialBlock, QueueFits, Absorbed;
      var partialBlock := PartialBlock(databitlen - i, bitsInQueue, rate);
      PartialBlockIs(databitlen - i, bitsInQueue, rate);
      var partialByte := partialBlock % 8;
      WholeBytes(i, partialBlock, bitsInQueue, rate);
      next := i + (partialBlock - partialByte);
      AbsorbBytes(data, i, next, N);
      if partialByte > 0 {
        AbsorbLastByte(data, i, next, partialByte, N);
        next := next + partialByte;
      }
    }

    method AbsorbBytes(data: seq<Byte>, i: nat, next: nat, ghost N: Word)
      requires Allocated() && 0 < rate <= 1536 && rate % 64 == 0
      requires Absorbed(N) && bitsInQueue % 8 == 0
      requires i % 8 == next % 8 == 0 && i <= next <= 8 * |data| && bitsInQueue + (next - i) <= rate
      modifies this`bitsInQueue, state, dataQueue
      ensures Absorbed(N + Bits(data)[i..next])
      ensures bitsInQueue == if old(bitsInQueue) + (next - i) == rate then 0 else old(bitsInQueue) + (next - i)
    {
      hide Bits, AbsorbBlock, XorAt, AbsorbBlocks, Rest, Absorbed;
      ghost var a, b := i / 8, next / 8;
      assert i == 8 * a && next == 8 * b;
      QueueBytes(data[i / 8..i / 8 + (next - i) / 8], N);
      BitsSlice(data, a, b);
    }

    method AbsorbLastByte(data: seq<Byte>, ghost i: nat, next: nat, partialByte: nat, ghost N: Word)
      requires Allocated() && 0 < rate <= 1536 && rate % 64 == 0
      requires i <= next && next % 8 == 0 && next + partialByte <= 8 * |data|
      requires Absorbed(N + Bits(data)[i..next]) && bitsInQueue % 8 == 0
      requires 0 < partialByte < 8 && bitsInQueue + partialByte < rate
      modifies this`bitsInQueue, dataQueue
      ensures Absorbed(N + Bits(data)[i..next + partialByte])
    {
      hide Bits, AbsorbBlock, XorAt, AbsorbBlocks, Rest, Absorbed;
      QueuePartialByte(data[next / 8], partialByte, N + Bits(data)[i..next]);
      ByteAt(data, next / 8);
      Appended(N, Bits(data), i, next, partialByte);
    }

    method Absorb(data: seq<Byte>, databitlen: UInt64) returns (ret: int)
      requires Valid() && (databitlen + 7) / 8 <= |data|
      requires bitsInQueue % 8 == 0 && !squeezing ==> QueueFits(databitlen, bitsInQueue, rate)
      modifies this, state, dataQueue
      ensures Valid() && rate == old(rate) && squeezing == old(squeezing) && out == old(out)
      ensures fixedOutputLength == old(fixedOutputLength)
      ensures ret == 0 <==> old(bitsInQueue) % 8 == 0 && !old(squeezing)
      ensures ret == 0 ==> M == old(M) + Bits(data)[..databitlen]
      ensures ret == 0 ==> Bits(state[..]) == AbsorbBlocks(f, rate, Zero(1600), M)
      ensures ret == 0 ==> bitsInQueue == |Rest(rate, M)| && Bits(dataQueue[..])[..bitsInQueue] == Rest(rate, M)
      ensures ret != 0 ==> ret == 1 && unchanged(this, state, dataQueue)
    {
      hide Bits, AbsorbBlock, XorAt, AbsorbBlocks, Rest;
      if bitsInQueue % 8 != 0 {
        return 1; // a partial byte ends the message
      }
      if squeezing {
        return 1; // the message has ended
      }
      ghost var D := Bits(data);
      var i := 0;
      assert M + D[..0] == M;
      while i < databitlen
        invariant 0 <= i <= databitlen && (i < databitlen ==> i % 8 == 0)
        invariant rate == old(rate) && !squeezing && out == old(out) && M == old(M)
        invariant fixedOutputLength == old(fixedOutputLength)
        invariant i == 0 ==> bitsInQueue == old(bitsInQueue)
        invariant 0 < i < databitlen ==> bitsInQueue == 0
        invariant Absorbed(M + D[..i])
      {
        var next;
        if bitsInQueue == 0 && databitlen >= rate && i <= databitlen - rate {
          next := AbsorbFromData(data, databitlen, i, M + D[..i]);
        } else {
          next := AbsorbThroughQueue(data, databitlen, i, M + D[..i]);
        }
        Appended(M, D, 0, i, next - i);
        i := next;
      }
      M := M + D[..databitlen];
      return 0;
    }

    method ClearQueue(from: nat, to: nat)
      requires Allocated() && from <= to <= 192
      modifies dataQueue
      ensures Bits(dataQueue[..])
        == old(Bits(dataQueue[..]))[..8 * from] + Zero(8 * (to - from)) + old(Bits(dataQueue[..]))[8 * to..]
    {
      hide Bits;
      ghost var before := dataQueue[..];
      forall i | from <= i < to {
        dataQueue[i] := Zero(8);
      }
      BytesCleared(before, from, to, dataQueue[..]);
    }

    // The first rate bits of the state, into the queue
    method Extract()
      requires Allocated() && 0 < rate <= 1536 && rate % 64 == 0
      modifies dataQueue
      ensures Bits(dataQueue[..])[..rate] == Bits(state[..])[..rate]
    {
      hide Bits;
      Memcpy(dataQueue, 0, state[..rate / 64 * 8]);
      BytesQueued(old(dataQueue[..]), 0, state[..rate / 8], dataQueue[..]);
      BitsSlice(state[..], 0, rate / 8);
    }

    // One bit is free: it takes the first bit of the padding, and the rest goes to a second block.
    method PadAcrossBlocks(ghost R: Word)
      requires Allocated() && 0 < rate <= 1536 && rate % 64 == 0
      requires bitsInQueue + 1 == rate && |R| == bitsInQueue && Bits(dataQueue[..])[..bitsInQueue] == R
      modifies this`bitsInQueue, state, dataQueue
      ensures AbsorbBlocks(f, rate, old(Bits(state[..])), R + Pad(rate, |R|))
        == AbsorbBlock(f, Bits(state[..]), Bits(dataQueue[..])[..rate][rate - 1 := true])
    {
      hide Bits, AbsorbBlock, AbsorbBlocks, Pad, Zero;
      ghost var S, D := Bits(state[..]), Bits(dataQueue[..]);
      SetBit(dataQueue, bitsInQueue, 192);
      ghost var first := Bits(dataQueue[..])[..rate];
      AbsorbQueue();
      ghost var E := Bits(dataQueue[..]);
      ClearQueue(0, rate / 8);
      PaddedAcross(f, rate, S, R, D, E, first, Bits(dataQueue[..]));
    }

    method PadWithinBlock(ghost R: Word)
      requires Allocated() && 0 < rate <= 1536 && rate % 64 == 0
      requires bitsInQueue + 2 <= rate && |R| == bitsInQueue && Bits(dataQueue[..])[..bitsInQueue] == R
      requires forall k :: bitsInQueue <= k < 8 * ((bitsInQueue + 7) / 8) ==> !Bits(dataQueue[..])[k]
      modifies dataQueue
      ensures AbsorbBlocks(f, rate, Bits(state[..]), R + Pad(rate, |R|))
        == AbsorbBlock(f, Bits(state[..]), Bits(dataQueue[..])[..rate][rate - 1 := true])
    {
      hide Bits, AbsorbBlock, AbsorbBlocks, Pad, Zero;
      ghost var D := Bits(dataQueue[..]);
      ClearQueue((bitsInQueue + 7) / 8, rate / 8);
      SetBit(dataQueue, bitsInQueue, 192);
      ClearedIsPadded(D, bitsInQueue, rate, R, Bits(dataQueue[..]));
      OneBlock(f, rate, Bits(state[..]), R, Bits(dataQueue[..])[..rate][rate - 1 := true]);
    }

    method PadAndSwitchToSqueezingPhase()
      requires Valid() && !squeezing
      modifies this, state, dataQueue
      ensures Valid() && squeezing && M == old(M) && out == 0
      ensures rate == old(rate) && fixedOutputLength == old(fixedOutputLength)
      ensures Bits(state[..]) == AbsorbBlocks(f, rate, Zero(1600), M + Pad(rate, |M|))
      ensures bitsInQueue == 0 && bitsAvailableForSqueezing == rate
      ensures Bits(dataQueue[..])[..rate] == Bits(state[..])[..rate]
    {
      hide Bits, AbsorbBlock, AbsorbBlocks, Rest, Pad;
      AbsorbConcat(f, rate, Zero(1600), M, Pad(rate, |M|));
      PadOfRest(rate, M);
      if bitsInQueue + 1 == rate {
        PadAcrossBlocks(Rest(rate, M));
      } else {
        PadWithinBlock(Rest(rate, M));
      }
      ghost var D := Bits(dataQueue[..]);
      SetBit(dataQueue, rate - 1, 192);
      assert D[rate - 1 := true][..rate] == D[..rate][rate - 1 := true];
      AbsorbQueue();
      Extract();
      bitsAvailableForSqueezing := rate;
      squeezing := true;
    }

    // The permutation runs only when every bit of the block has been read.
    method Refill()
      requires Valid() && squeezing
      modifies this`bitsAvailableForSqueezing, state, dataQueue
      ensures Bits(state[..])
        == if old(bitsAvailableForSqueezing) == 0 then f.apply(old(Bits(state[..]))) else old(Bits(state[..]))
      ensures bitsAvailableForSqueezing
        == if old(bitsAvailableForSqueezing) == 0 then rate else old(bitsAvailableForSqueezing)
      ensures Bits(dataQueue[..])[..rate] == Bits(state[..])[..rate]
    {
      hide Bits, AbsorbBlocks, Pad, StateAfterRead, LeftAfterRead;
      if bitsAvailableForSqueezing == 0 {
        KeccakPermutation(f, state);
        Extract();
        bitsAvailableForSqueezing := rate;
      }
    }

    // One turn of the squeezing loop: at most limit bits, to output[at..].
    method SqueezeSome(output: array<Byte>, at: nat, limit: nat) returns (partialBlock: nat)
      requires Valid() && squeezing && output != state && output != dataQueue
      requires 0 < limit && limit % 8 == 0 && at + limit / 8 <= output.Length
      modifies this`bitsAvailableForSqueezing, this`out, state, dataQueue, output
      ensures Valid() && 0 < partialBlock <= limit && partialBlock % 8 == 0
      ensures out == old(out) + partialBlock
      ensures output[..at] == old(output[..at])
      ensures output[at + partialBlock / 8..] == old(output[at + partialBlock / 8..])
      ensures Read(f, rate, Start(), rate, out)
        == Read(f, rate, Start(), rate, old(out)) + Bits(output[at..at + partialBlock / 8])
    {
      hide Bits, AbsorbBlock, AbsorbBlocks, Pad, Read, StateAfterRead, LeftAfterRead;
      ghost var s, a := Bits(state[..]), bitsAvailableForSqueezing;
      Refill();
      partialBlock := bitsAvailableForSqueezing;
      if partialBlock > limit {
        partialBlock := limit;
      }
      CopyOut(output, at, rate - bitsAvailableForSqueezing, partialBlock);
      Consume(partialBlock, s, a, Bits(output[at..at + partialBlock / 8]));
    }

    // partialBlock bits of the block, from bit p on, to output[at..].
    method CopyOut(output: array<Byte>, at: nat, p: nat, partialBlock: nat)
      requires Allocated() && output != state && output != dataQueue
      requires p % 8 == partialBlock % 8 == 0 && p + partialBlock <= rate <= 1536
      requires at + partialBlock / 8 <= output.Length
      requires Bits(dataQueue[..])[..rate] == Bits(state[..])[..rate]
      modifies output
      ensures output[..at] == old(output[..at])
      ensures output[at + partialBlock / 8..] == old(output[at + partialBlock / 8..])
      ensures Bits(output[at..at + partialBlock / 8]) == Bits(state[..])[p..p + partialBlock]
    {
      hide Bits;
      var from, n := p / 8, partialBlock / 8;
      assert 8 * from == p && 8 * n == partialBlock;
      Memcpy(output, at, dataQueue[from..from + n]);
      assert output[at..at + n] == dataQueue[from..from + n] == dataQueue[..][from..from + n];
      BitsSlice(dataQueue[..], from, from + n);
      SameSlice(Bits(dataQueue[..]), Bits(state[..]), rate, p, p + partialBlock);
    }

    method Consume(partialBlock: nat, ghost s: StateBits, ghost a: nat, ghost piece: Word)
      requires Allocated() && 0 < rate <= 1536 && rate % 64 == 0
      requires bitsInQueue == 0 && Bits(dataQueue[..])[..rate] == Bits(state[..])[..rate]
      requires s == StateAfterRead(f, rate, Start(), rate, out) && a == LeftAfterRead(rate, rate, out)
      requires if a == 0 then Bits(state[..]) == f.apply(s) && bitsAvailableForSqueezing == rate
               else Bits(state[..]) == s && bitsAvailableForSqueezing == a
      requires bitsAvailableForSqueezing % 8 == partialBlock % 8 == 0
      requires 0 < partialBlock <= bitsAvailableForSqueezing <= rate
      requires var p := rate - bitsAvailableForSqueezing; piece == Bits(state[..])[p..p + partialBlock]
      modifies this`bitsAvailableForSqueezing, this`out
      ensures Squeezed() && out == old(out) + partialBlock
      ensures Read(f, rate, Start(), rate, out) == Read(f, rate, Start(), rate, old(out)) + piece
    {
      hide Bits, AbsorbBlock, AbsorbBlocks, Pad, Read, StateAfterRead, LeftAfterRead;
      ReadOn(f, rate, Start(), rate, out, Bits(state[..]), bitsAvailableForSqueezing, partialBlock);
      bitsAvailableForSqueezing := bitsAvailableForSqueezing - partialBlock;
      out := out + partialBlock;
    }

    method Squeeze(output: array<Byte>, outputLength: UInt64) returns (ret: int)
      requires Valid() && output != state && output != dataQueue
      requires outputLength % 8 == 0 ==> outputLength / 8 <= output.Length
      modifies this, state, dataQueue, output
      ensures Valid() && squeezing && M == old(M)
      ensures rate == old(rate) && fixedOutputLength == old(fixedOutputLength)
      ensures ret == 0 <==> outputLength % 8 == 0
      ensures ret == 0 ==> out == old(out) + outputLength
      ensures ret == 0 ==> Bits(output[..outputLength / 8]) == SpongeOf(f, rate, M, out)[old(out)..]
      ensures ret == 0 ==> output[outputLength / 8..] == old(output[outputLength / 8..])
      ensures ret != 0 ==> ret == 1 && out == old(out) && output[..] == old(output[..])
    {
      hide Bits, AbsorbBlock, AbsorbBlocks, Pad, Read, StateAfterRead, LeftAfterRead, Squeezed, Absorbed;
      if !squeezing {
        PadAndSwitchToSqueezingPhase();
      }
      if outputLength % 8 != 0 {
        return 1; // whole bytes only
      }
      var i := 0;
      NoBytes(output[..], 0);
      while i < outputLength
        invariant 0 <= i <= outputLength && i % 8 == 0
        invariant Valid() && squeezing && M == old(M) && out == old(out) + i
        invariant rate == old(rate) && fixedOutputLength == old(fixedOutputLength)
        invariant Read(f, rate, Start(), rate, out)[old(out)..] == Bits(output[..i / 8])
        invariant output[outputLength / 8..] == old(output[outputLength / 8..])
      {
        ghost var z, written := Read(f, rate, Start(), rate, out), output[..i / 8];
        var partialBlock := SqueezeSome(output, i / 8, outputLength - i);
        var next := i + partialBlock;
        assert output[..next / 8] == written + output[i / 8..next / 8];
        BitsConcat(written, output[i / 8..next / 8]);
        assert (z + Bits(output[i / 8..next / 8]))[old(out)..] == z[old(out)..] + Bits(output[i / 8..next / 8]);
        i := next;
      }
      return 0;
    }
  }

  // Set bit k of a buffer of bytes; n is how much of the buffer matters.
  method SetBit(buffer: array<Byte>, k: nat, ghost n: nat)
    requires k < 8 * buffer.Length && n <= buffer.Length
    modifies buffer
    ensures Bits(buffer[..n]) == (if k < 8 * n then old(Bits(buffer[..n]))[k := true] else old(Bits(buffer[..n])))
    ensures n == buffer.Length ==> buffer[..n] == buffer[..] && old(buffer[..n]) == old(buffer[..])
    ensures forall i :: 0 <= i < buffer.Length && i != k / 8 ==> buffer[i] == old(buffer[i])
  {
    hide Bits, Or, OneAt;
    ghost var before := buffer[..n];
    if k < 8 * n {
      OrBit(before, k);
    }
    buffer[k / 8] := Or(buffer[k / 8], OneAt(k % 8));
    assert buffer[..n] == if k < 8 * n then before[k / 8 := buffer[k / 8]] else before;
  }

  // Before anything is absorbed, every length fits.
  lemma NothingQueued(s: SpongeState)
    requires s.Valid() && !s.squeezing && s.M == []
    ensures s.bitsInQueue == 0 && s.out == 0
    ensures forall n :: QueueFits(n, s.bitsInQueue, s.rate)
  {}

  lemma BytesQueued(before: seq<Byte>, at: nat, src: seq<Byte>, after: seq<Byte>)
    requires at + |src| <= |before|
    requires after == before[..at] + src + before[at + |src|..]
    ensures |after| == |before|
    ensures Bits(after)[..8 * (at + |src|)] == Bits(before)[..8 * at] + Bits(src)
  {
    hide Bits;
    BitsSlice(after, 0, at + |src|);
    BitsSlice(before, 0, at);
    assert after[0..at + |src|] == before[0..at] + src;
    BitsConcat(before[0..at], src);
  }

  lemma ByteReplaced(before: seq<Byte>, at: nat, b: Byte, after: seq<Byte>)
    requires at < |before| && after == before[at := b]
    ensures Bits(after)[..8 * at] == Bits(before)[..8 * at]
    ensures Bits(after)[8 * at..8 * at + 8] == b
  {
    hide Bits;
    BitsSlice(after, 0, at);
    BitsSlice(before, 0, at);
    assert after[0..at] == before[0..at];
    ByteAt(after, at);
  }

  lemma LastByte(D: Word, q: nat, bits: Word)
    requires q + 8 <= |D| && |bits| <= 8 && D[q..q + 8] == bits + Zero(8 - |bits|)
    ensures D[..q + |bits|] == D[..q] + bits
    ensures forall k :: q + |bits| <= k < q + 8 ==> !D[k]
  {
    assert D[..q + |bits|] == D[..q] + D[q..q + 8][..|bits|];
    forall k | q + |bits| <= k < q + 8 ensures !D[k] {
      assert D[k] == D[q..q + 8][k - q];
    }
  }

  lemma MaskedByte(b: Byte, k: nat)
    requires k <= 8
    ensures And(b, LowMask(k)) == b[..k] + Zero(8 - k)
  {}

  lemma NextBytes(N: Word, data: seq<Byte>, from: nat, at: nat, n: nat)
    requires from <= at && at + n <= |data|
    ensures N + Bits(data[from..at]) + Bits(data[at..at + n]) == N + Bits(data[from..at + n])
  {
    hide Bits;
    BitsConcat(data[from..at], data[at..at + n]);
    assert data[from..at] + data[at..at + n] == data[from..at + n];
  }

  lemma Appended(N: Word, D: Word, i: nat, j: nat, n: nat)
    requires i <= j && j + n <= |D|
    ensures N + D[i..j] + D[j..j + n] == N + D[i..j + n]
    ensures n <= 8 && j + 8 <= |D| ==> D[j..j + n] == D[j..j + 8][..n]
  {}

  lemma InData(i: nat, length: nat, n: nat, databitlen: nat, size: nat) returns (a: nat)
    requires i % 8 == 0 && length == 8 * n && i + length <= databitlen && (databitlen + 7) / 8 <= size
    ensures a == i / 8 && i == 8 * a && i + length == 8 * (a + n) && a + n <= size && (i + length) % 8 == 0
  {
    a := i / 8;
  }

  lemma WholeBytes(i: nat, p: nat, q: nat, rate: nat)
    requires i % 8 == q % 8 == rate % 8 == 0
    ensures (i + (p - p % 8)) % 8 == 0
    ensures (q + (p - p % 8)) % 8 == 0 && (q + (p - p % 8) == rate ==> q + p >= rate)
    ensures q + p <= rate && p % 8 > 0 ==> q + p < rate
  {}

  // The number of whole blocks in x bits, and their length in bits and in bytes.
  method WholeBlocks(x: nat, rate: nat) returns (wholeBlocks: nat, length: nat, ghost n: nat)
    requires rate % 8 == 0 && 0 < rate <= x
    ensures IsProduct(n, wholeBlocks, rate / 8) && IsProduct(length, wholeBlocks, rate) && length == 8 * n
    ensures 0 < length <= x
  {
    wholeBlocks := x / rate;
    length := wholeBlocks * rate;
    n := wholeBlocks * (rate / 8);
    InBytes(x, wholeBlocks, rate / 8);
  }

  lemma InBytes(x: nat, b: nat, k: nat)
    requires 0 < 8 * k <= x && b == x / (8 * k)
    ensures b * (8 * k) == 8 * (b * k) && 0 < b * (8 * k) <= x
  {
    assert x == b * (8 * k) + x % (8 * k);
  }

  lemma PartialBlockIs(remaining: nat, bitsInQueue: nat, rate: nat)
    requires bitsInQueue < rate <= 1536
    requires bitsInQueue == 0 ==> remaining < rate
    requires QueueFits(remaining, bitsInQueue, rate)
    ensures PartialBlock(remaining, bitsInQueue, rate) == Min(remaining, rate - bitsInQueue)
  {
    if bitsInQueue > 0 {
      NarrowingExact(remaining, bitsInQueue, rate);
    }
  }

  lemma OrBit(bytes: seq<Byte>, k: nat)
    requires k < 8 * |bytes|
    ensures Bits(bytes[k / 8 := Or(bytes[k / 8], OneAt(k % 8))]) == Bits(bytes)[k := true]
  {
    hide Bits, Or, OneAt;
    var j, b := k / 8, bytes[k / 8];
    var c := Or(b, OneAt(k % 8));
    OrOne(b, k % 8);
    assert bytes == bytes[..j] + [b] + bytes[j + 1..];
    assert bytes[j := c] == bytes[..j] + [c] + bytes[j + 1..];
    BitsConcat3(bytes[..j], b, bytes[j + 1..]);
    BitsConcat3(bytes[..j], c, bytes[j + 1..]);
  }

  lemma OrOne(b: Byte, k: nat)
    requires k < 8
    ensures Or(b, OneAt(k)) == b[k := true]
  {}

  lemma BytesCleared(before: seq<Byte>, from: nat, to: nat, after: seq<Byte>)
    requires from <= to <= |before| == |after|
    requires forall i :: 0 <= i < |after| ==> after[i] == if from <= i < to then Zero(8) else before[i]
    ensures Bits(after) == Bits(before)[..8 * from] + Zero(8 * (to - from)) + Bits(before)[8 * to..]
  {
    hide Bits;
    BitsSlice(before, 0, from);
    BitsSlice(before, to, |before|);
    ZeroBytes(after[from..to]);
    assert before[0..from] == after[..from] && before[to..|before|] == after[to..];
    assert after == after[..from] + (after[from..to] + after[to..]);
    BitsConcat(after[..from], after[from..to] + after[to..]);
    BitsConcat(after[from..to], after[to..]);
  }

  // pad10*1 in the block that the queue has begun.
  lemma ClearedIsPadded(D: Word, q: nat, rate: nat, R: Word, E: Word)
    requires rate % 8 == 0 && q + 2 <= rate <= |D| && |R| == q && D[..q] == R
    requires forall k :: q <= k < 8 * ((q + 7) / 8) ==> !D[k]
    requires var p := 8 * ((q + 7) / 8);
      E == (D[..p] + Zero(rate - p) + D[rate..])[q := true]
    ensures E[..rate][rate - 1 := true] == R + Pad(rate, q)
  {}

  lemma LastBlock(D: Word, E: Word, rate: nat, R: Word, first: Word, F: Word)
    requires rate % 8 == 0 && 0 < rate <= |D| == |E| && |R| == rate - 1 && D[..rate - 1] == R
    requires first == D[rate - 1 := true][..rate]
    requires F == E[..8 * 0] + Zero(8 * (rate / 8)) + E[8 * (rate / 8)..]
    ensures first == R + [true] && F[..rate][rate - 1 := true] == Zero(rate - 1) + [true]
  {}

  lemma OneBlock(f: Permutation, r: nat, s: StateBits, R: Word, block: Word)
    requires 0 < r <= 1600 && |block| == r && block == R + Pad(r, |R|)
    ensures AbsorbBlocks(f, r, s, R + Pad(r, |R|)) == AbsorbBlock(f, s, block)
  {
    RestBlock(f, r, s, block);
  }

  // When one bit of the block is free, the padding runs on into a second block.
  lemma TwoBlocks(f: Permutation, r: nat, s: StateBits, R: Word, first: Word, second: Word)
    requires 1 < r <= 1600 && |R| + 1 == r
    requires first == R + [true] && second == Zero(r - 1) + [true]
    ensures AbsorbBlocks(f, r, s, R + Pad(r, |R|)) == AbsorbBlock(f, AbsorbBlock(f, s, first), second)
  {
    hide AbsorbBlock;
    var P := R + Pad(r, |R|);
    SplitPad(r, R, first, second);
    assert P[..r] == first && P[r..] == second;
    RestBlock(f, r, AbsorbBlock(f, s, first), second);
  }

  lemma PaddedAcross(f: Permutation, r: nat, s: StateBits, R: Word, D: Word, E: Word, first: Word, F: Word)
    requires r % 8 == 0 && 1 < r <= 1536 && r <= |D| == |E| && |R| == r - 1 && D[..r - 1] == R
    requires first == D[r - 1 := true][..r]
    requires F == E[..8 * 0] + Zero(8 * (r / 8)) + E[8 * (r / 8)..]
    ensures AbsorbBlocks(f, r, s, R + Pad(r, |R|))
      == AbsorbBlock(f, AbsorbBlock(f, s, first), F[..r][r - 1 := true])
  {
    hide AbsorbBlock, AbsorbBlocks, Pad;
    LastBlock(D, E, r, R, first, F);
    TwoBlocks(f, r, s, R, first, F[..r][r - 1 := true]);
  }

  lemma SplitPad(r: nat, R: Word, first: Word, second: Word)
    requires 1 < r && |R| + 1 == r && first == R + [true] && second == Zero(r - 1) + [true]
    ensures R + Pad(r, |R|) == first + second
  {
    assert PadZeros(r, |R|) == r - 1;
    hide PadZeros, Zero;
  }

  lemma SameSlice(D: Word, S: Word, r: nat, lo: nat, hi: nat)
    requires lo <= hi <= r <= |D| && r <= |S| && D[..r] == S[..r]
    ensures D[lo..hi] == S[lo..hi]
  {
    forall k | lo <= k < hi ensures D[k] == S[k] {
      assert D[k] == D[..r][k] && S[k] == S[..r][k];
    }
  }
}
