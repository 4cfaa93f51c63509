/** The two code bases side by side: the byte-oriented functions and the bit-oriented queue give the same output. */
module Agreement {
  import opened Words
  import opened BitStrings
  import opened Sponge
  import opened OneShot
  import opened KeccakSponge
  import opened KeccakInterface
  import KeccakDuplex

  // Feed the queue-based sponge a message of whole bytes and k more bits, and squeeze n bytes.
  method QueueSponge(f: Permutation, rate: nat, input: seq<Byte>, last: Byte, k: nat, n: nat)
    returns (output: array<Byte>)
    requires 0 < rate < 1600 && rate % 64 == 0 && k < 8
    requires 8 * |input| < 0x1_0000_0000_0000_0000 && 8 * n < 0x1_0000_0000_0000_0000
    ensures output.Length == n
    ensures Bits(output[..]) == SpongeOf(f, rate, Bits(input) + last[..k], 8 * n)
  {
    hide Bits, SpongeOf, AbsorbBlocks, Pad, Rest, QueueFits;
    var sponge := new SpongeState(f);
    var ret := sponge.InitSponge(rate, 1600 - rate);
    NothingQueued(sponge);
    ret := sponge.Absorb(input, 8 * |input|);
    assert [] + Bits(input)[..8 * |input|] == Bits(input);
    AlignedQueue(sponge, Bits(input), k);
    OneByte(last);
    ret := sponge.Absorb([last], k);
    output := new Byte[n];
    ret := sponge.Squeeze(output, 8 * n);
    assert output[..n] == output[..];
    AllOf(f, rate, Bits(input) + last[..k], 8 * n);
  }

  lemma AlignedQueue(s: SpongeState, m: Word, k: nat)
    requires s.Valid() && !s.squeezing && s.M == m && |m| % 8 == 0 && k < 8
    ensures s.bitsInQueue % 8 == 0 && s.out == 0 && QueueFits(k, s.bitsInQueue, s.rate)
  {
    RestAligned(s.rate, m);
  }

  lemma AllOf(f: Permutation, r: nat, m: Word, d: nat)
    requires 0 < r <= 1600
    ensures SpongeOf(f, r, m, d)[0..] == SpongeOf(f, r, m, d)
  {}

  // The four bits 1111 in the low end of a byte, and the two bits 01.
  lemma LowBits()
    ensures Uint8(0x0F)[..4] == SHAKE_BITS && Uint8(0x02)[..2] == SHA3_BITS
  {
    hide BitsOf;
    NextBit(true, 0, 4);
    NextBit(true, 1, 5);
    NextBit(true, 3, 6);
    NextBit(true, 7, 7);
    NextBit(true, 0, 6);
    NextBit(false, 1, 7);
  }

  /** SHAKE128 and SHAKE256: for every message and every output length, both sponges give the same bytes. */
  method ShakeAgrees(f: Permutation, input: seq<Byte>, n: nat, wide: bool) returns (a: array<Byte>, b: array<Byte>)
    requires 8 * |input| < 0x1_0000_0000_0000_0000 && 8 * n < 0x1_0000_0000_0000_0000
    ensures Bits(a[..]) == SpongeOf(f, if wide then 1344 else 1088, Bits(input) + SHAKE_BITS, 8 * n)
    ensures a[..] == b[..] && a.Length == n
  {
    hide Bits, SpongeOf;
    LowBits();
    a := new Byte[n];
    if wide {
      Shake128(f, a, n, input);
      b := QueueSponge(f, 1344, input, Uint8(0x0F), 4, n);
    } else {
      Shake256(f, a, n, input);
      b := QueueSponge(f, 1088, input, Uint8(0x0F), 4, n);
    }
    assert a[..n] == a[..];
    BitsInjective(a[..], b[..]);
  }

  /** SHA3-256 and SHA3-512 */
  method Sha3Agrees(f: Permutation, input: seq<Byte>, wide: bool) returns (a: array<Byte>, b: array<Byte>)
    requires 8 * |input| < 0x1_0000_0000_0000_0000
    ensures Bits(a[..])
      == SpongeOf(f, if wide then 576 else 1088, Bits(input) + SHA3_BITS, if wide then 512 else 256)
    ensures a[..] == b[..] && a.Length == if wide then 64 else 32
  {
    hide Bits, SpongeOf;
    LowBits();
    var n := if wide then 64 else 32;
    a := new Byte[n];
    if wide {
      Sha3_512(f, a, input);
      b := QueueSponge(f, 576, input, Uint8(0x02), 2, n);
    } else {
      Sha3_256(f, a, input);
      b := QueueSponge(f, 1088, input, Uint8(0x02), 2, n);
    }
    assert a[..n] == a[..];
    BitsInjective(a[..], b[..]);
  }

  // The first n bits of the input, as its whole bytes and the low bits of one more.
  lemma WholeAndPartial(input: seq<Byte>, n: nat, last: Byte)
    requires (n + 7) / 8 <= |input| && (n % 8 != 0 ==> last == input[n / 8])
    ensures Bits(input)[..n] == Bits(input[..n / 8]) + last[..n % 8]
  {
    hide Bits;
    var q := n / 8;
    BitsSlice(input, 0, q);
    assert input[0..q] == input[..q];
    if n % 8 != 0 {
      ByteAt(input, q);
      assert Bits(input)[..n] == Bits(input)[0..8 * q] + Bits(input)[8 * q..8 * q + 8][..n % 8];
    } else {
      assert Bits(input)[..n] == Bits(input)[0..8 * q];
    }
  }

  lemma PaddedIsBytes(r: nat, inputs: seq<Word>)
    requires 2 <= r <= 1600 && r % 8 == 0 && KeccakDuplex.Short(r, inputs)
    ensures |KeccakDuplex.Padded(r, inputs)| % 8 == 0
  {
    KeccakDuplex.PaddedIsWhole(r, inputs);
    RestAligned(r, KeccakDuplex.Padded(r, inputs));
  }

  // The bytes of what the duplex object has taken in so far.
  function History(r: nat, inputs: seq<Word>): (h: seq<Byte>)
    requires 2 <= r <= 1600 && r % 8 == 0 && KeccakDuplex.Short(r, inputs)
    ensures Bits(h) == KeccakDuplex.Padded(r, inputs)
  {
    PaddedIsBytes(r, inputs);
    ToBytesIs(KeccakDuplex.Padded(r, inputs));
    ToBytes(KeccakDuplex.Padded(r, inputs))
  }

  /** An accepted duplexing call returns what the queue squeezes after the earlier padded inputs and this one. */
  method DuplexAgrees(d: KeccakDuplex.DuplexState, inputs: seq<Word>, input: seq<Byte>, inBitLen: UInt32, n: nat)
    returns (a: array<Byte>, b: array<Byte>)
    requires d.Valid() && d.inputs == inputs && d.rate % 64 == 0 && d.rate < 1600
    requires inBitLen + 2 <= d.rate && 8 * n <= d.rate
    requires (inBitLen + 7) / 8 <= |input| && KeccakDuplex.Aligned(input, inBitLen)
    requires 8 * (|History(d.rate, inputs)| + |input|) < 0x1_0000_0000_0000_0000
    modifies d, d.state
    ensures d.Valid() && d.inputs == inputs + [Bits(input)[..inBitLen]]
    ensures Bits(a[..]) == Bits(d.state[..])[..8 * n]
    ensures Bits(b[..]) == SpongeOf(d.f, d.rate, KeccakDuplex.Padded(d.rate, inputs) + Bits(input)[..inBitLen], 8 * n)
    ensures a[..] == b[..] && a.Length == n
  {
    hide Bits, SpongeOf, KeccakDuplex.Padded, KeccakDuplex.Aligned, AbsorbBlocks, Pad, KeccakDuplex.Marked;
    var rate := d.rate;
    a := new Byte[n];
    var ret := d.Duplexing(input, inBitLen, a, 8 * n);
    b := QueueDuplex(d.f, rate, inputs, input, inBitLen, n);
    assert a[..n] == a[..];
    assert Zero(0) == [];
    BitsInjective(a[..], b[..]);
  }

  // The earlier inputs, padded, then the whole bytes of this one and the bits of its last.
  method QueueDuplex(f: Permutation, rate: nat, inputs: seq<Word>, input: seq<Byte>, inBitLen: UInt32, n: nat)
    returns (b: array<Byte>)
    requires rate % 64 == 0 && 0 < rate < 1600 && KeccakDuplex.Short(rate, inputs) && 8 * n <= rate
    requires (inBitLen + 7) / 8 <= |input|
    requires 8 * (|History(rate, inputs)| + |input|) < 0x1_0000_0000_0000_0000
    ensures b.Length == n
    ensures Bits(b[..]) == SpongeOf(f, rate, KeccakDuplex.Padded(rate, inputs) + Bits(input)[..inBitLen], 8 * n)
  {
    hide Bits, SpongeOf, KeccakDuplex.Padded, KeccakDuplex.Short;
    var q, k := inBitLen / 8, inBitLen % 8;
    var earlier := History(rate, inputs);
    var last := if k != 0 then input[q] else Zero(8);
    b := QueueSponge(f, rate, earlier + input[..q], last, k, n);
    BitsConcat(earlier, input[..q]);
    WholeAndPartial(input, inBitLen, last);
    assert Bits(earlier) + Bits(input[..q]) + last[..k] == Bits(earlier) + Bits(input)[..inBitLen];
  }
}
