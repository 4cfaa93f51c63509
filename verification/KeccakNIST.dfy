/** The NIST interface of KeccakNISTInterface.c: Init, Update, Final and Hash over the sponge. */
module KeccakNIST {
  import opened Words
  import opened BitStrings
  import opened Sponge
  import opened Arithmetic
  import opened KeccakSponge

  datatype HashReturn = SUCCESS | FAIL | BAD_HASHLEN

  function Returned(ret: int): HashReturn
  {
    if ret == 0 then SUCCESS else FAIL
  }

  // The n bits of the message: a last partial byte is aligned on its most significant bits.
  function MessageBits(data: seq<Byte>, n: nat): (s: Word)
    requires (n + 7) / 8 <= |data|
    ensures |s| == n
  {
    var p := n % 8;
    Bits(data)[..n - p] + if p == 0 then [] else data[n / 8][8 - p..]
  }

  lemma WholeMessage(data: seq<Byte>, n: nat)
    requires n % 8 == 0 && n / 8 <= |data|
    ensures MessageBits(data, n) == Bits(data)[..n]
  {}

  lemma PartialMessage(data: seq<Byte>, n: nat, p: nat)
    requires p == n % 8 > 0 && n / 8 < |data|
    ensures MessageBits(data, n) == Bits(data)[..n - p] + Bits([Shr(data[n / 8], 8 - p)])[..p]
  {
    OneByte(Shr(data[n / 8], 8 - p));
    assert Shr(data[n / 8], 8 - p)[..p] == data[n / 8][8 - p..];
  }

  lemma FewBitsFit(p: nat, q: nat, rate: nat)
    requires p < 8 && q < 1536
    ensures QueueFits(p, q, rate)
  {}

  // A queue that held whole bytes still does after more of them.
  lemma StillAligned(state: SpongeState, M: Word, D: Word)
    requires state.Valid() && !state.squeezing && state.M == M + D
    requires |Rest(state.rate, M)| % 8 == 0 && |D| % 8 == 0
    ensures state.bitsInQueue % 8 == 0 && state.bitsInQueue < 1536
  {
    hide Bits, AbsorbBlocks, Rest;
    RestAligned(state.rate, M);
    BothAligned(|M|, |D|);
    RestAligned(state.rate, M + D);
  }

  method Init(state: SpongeState, hashbitlen: int) returns (ret: HashReturn)
    requires state.Allocated()
    modifies state, state.state, state.dataQueue
    ensures ret == if hashbitlen in {0, 224, 256, 384, 512} then SUCCESS else BAD_HASHLEN
    ensures ret == SUCCESS ==> state.Valid() && !state.squeezing && state.M == []
    ensures ret == SUCCESS ==> Bits(state.state[..]) == Zero(1600) && state.bitsInQueue == 0
    ensures ret == SUCCESS ==> state.rate == if hashbitlen == 0 then 1024 else 1600 - 2 * hashbitlen
    ensures ret == SUCCESS ==> state.fixedOutputLength == hashbitlen
    ensures ret != SUCCESS ==> unchanged(state, state.state, state.dataQueue)
  {
    hide Bits, AbsorbBlocks, Rest;
    var r;
    match hashbitlen {
      case 0 => // output of any length
        r := state.InitSponge(1024, 576);
      case 224 =>
        r := state.InitSponge(1152, 448);
      case 256 =>
        r := state.InitSponge(1088, 512);
      case 384 =>
        r := state.InitSponge(832, 768);
      case 512 =>
        r := state.InitSponge(576, 1024);
      case _ =>
        return BAD_HASHLEN;
    }
    state.fixedOutputLength := hashbitlen;
    return SUCCESS;
  }

  method Update(state: SpongeState, data: seq<Byte>, databitlen: UInt64) returns (ret: HashReturn)
    requires state.Valid() && (databitlen + 7) / 8 <= |data|
    requires state.bitsInQueue % 8 == 0 && !state.squeezing ==>
      QueueFits(databitlen - databitlen % 8, state.bitsInQueue, state.rate)
    modifies state, state.state, state.dataQueue
    ensures state.Valid() && state.rate == old(state.rate) && state.squeezing == old(state.squeezing)
    ensures state.fixedOutputLength == old(state.fixedOutputLength) && state.out == old(state.out)
    ensures ret == if old(state.bitsInQueue) % 8 == 0 && !old(state.squeezing) then SUCCESS else FAIL
    ensures ret == SUCCESS ==> state.M == old(state.M) + MessageBits(data, databitlen)
    ensures ret == SUCCESS ==> Bits(state.state[..]) == AbsorbBlocks(state.f, state.rate, Zero(1600), state.M)
    ensures ret == SUCCESS ==> state.bitsInQueue == |Rest(state.rate, state.M)|
    ensures ret == SUCCESS ==> Bits(state.dataQueue[..])[..state.bitsInQueue] == Rest(state.rate, state.M)
    ensures ret == FAIL ==> unchanged(state, state.state, state.dataQueue)
  {
    hide Bits, AbsorbBlocks, Rest, MessageBits, QueueFits;
    var r;
    if databitlen % 8 == 0 {
      WholeMessage(data, databitlen);
      r := state.Absorb(data, databitlen);
      return Returned(r);
    } else {
      var p := databitlen % 8;
      r := state.Absorb(data, databitlen - p);
      ret := Returned(r);
      if ret == SUCCESS {
        // The queue takes the low bits of a byte.
        var lastByte := Shr(data[databitlen / 8], 8 - p);
        PartialMessage(data, databitlen, p);
        StillAligned(state, old(state.M), Bits(data)[..databitlen - p]);
        FewBitsFit(p, state.bitsInQueue, state.rate);
        r := state.Absorb([lastByte], p);
        return Returned(r);
      }
    }
  }

  method Final(state: SpongeState, hashval: array<Byte>) returns (ret: HashReturn)
    requires state.Valid() && hashval != state.state && hashval != state.dataQueue
    requires state.fixedOutputLength < 0x1_0000_0000_0000_0000
    requires state.fixedOutputLength % 8 == 0 ==> state.fixedOutputLength / 8 <= hashval.Length
    modifies state, state.state, state.dataQueue, hashval
    ensures state.Valid() && state.squeezing && state.M == old(state.M)
    ensures state.rate == old(state.rate) && state.fixedOutputLength == old(state.fixedOutputLength)
    ensures ret == if old(state.fixedOutputLength) % 8 == 0 then SUCCESS else FAIL
    ensures ret == SUCCESS ==> state.out == old(state.out) + old(state.fixedOutputLength)
    ensures var n := old(state.fixedOutputLength);
      ret == SUCCESS ==>
        Bits(hashval[..n / 8]) == SpongeOf(state.f, old(state.rate), state.M, state.out)[old(state.out)..]
  {
    hide Bits, AbsorbBlocks, Rest, SpongeOf;
    var r := state.Squeeze(hashval, state.fixedOutputLength);
    return Returned(r);
  }

  method Hash(f: Permutation, hashbitlen: int, data: seq<Byte>, databitlen: UInt64, hashval: array<Byte>)
    returns (ret: HashReturn)
    requires (databitlen + 7) / 8 <= |data|
    requires hashbitlen in {224, 256, 384, 512} ==> hashbitlen / 8 <= hashval.Length
    modifies hashval
    ensures ret == if hashbitlen in {224, 256, 384, 512} then SUCCESS else BAD_HASHLEN
    ensures ret == SUCCESS ==>
      Bits(hashval[..hashbitlen / 8]) == SpongeOf(f, 1600 - 2 * hashbitlen, MessageBits(data, databitlen), hashbitlen)
    ensures ret == BAD_HASHLEN ==> hashval[..] == old(hashval[..])
  {
    hide Bits, AbsorbBlocks, Rest, SpongeOf, MessageBits;
    if hashbitlen != 224 && hashbitlen != 256 && hashbitlen != 384 && hashbitlen != 512 {
      return BAD_HASHLEN;
    }
    var state := new SpongeState(f);
    ret := Init(state, hashbitlen);
    if ret != SUCCESS {
      return;
    }
    NothingQueued(state);
    ret := Update(state, data, databitlen);
    if ret != SUCCESS {
      return;
    }
    assert [] + MessageBits(data, databitlen) == MessageBits(data, databitlen);
    ret := Final(state, hashval);
  }
}
