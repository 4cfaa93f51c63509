/** The hand-written padding of the VHDL vector writer in mainReference.c. */
module VhdlVectors {
  import opened Words
  import opened BitStrings
  import opened Sponge
  import opened KeccakInterface
  import opened KeccakSponge
  import opened KeccakNIST
  import opened Numerals
  import opened GenKat

  const RATE: nat := 1024
  const BUFFER: nat := 4000

  // From 31737 bits on, a buffer of 4000 bytes is too short for the zeros that are written behind the message.
  const LONGEST: nat := 31736

  method AlignLastByteOnLSB(input: seq<Byte>, output: array<Byte>, length: nat)
    requires (length + 7) / 8 <= |input| && (length + 7) / 8 <= output.Length
    modifies output
    ensures var n := (length + 7) / 8;
      && Bits(output[..n]) == MessageBits(input, length) + Zero(8 * n - length)
      && output[n..] == old(output[n..])
  {
    hide Bits, Shr;
    var lengthInBytes := (length + 7) / 8;
    Memcpy(output, 0, input[..lengthInBytes]);
    ghost var copied := output[..lengthInBytes];
    if length % 8 != 0 {
      output[lengthInBytes - 1] := Shr(output[lengthInBytes - 1], 8 - length % 8);
      AlignedPartial(input, length, output[..lengthInBytes]);
    } else {
      WholeMessage(input, length);
      BitsSlice(input, 0, lengthInBytes);
      assert input[0..lengthInBytes] == output[..lengthInBytes];
    }
  }

  lemma AlignedPartial(input: seq<Byte>, n: nat, b: seq<Byte>)
    requires n % 8 != 0 && n / 8 < |input| && |b| == n / 8 + 1
    requires b[..n / 8] == input[..n / 8] && b[n / 8] == Shr(input[n / 8], 8 - n % 8)
    ensures Bits(b) == MessageBits(input, n) + Zero(8 * |b| - n)
  {
    hide Bits;
    var p, last := n % 8, Shr(input[n / 8], 8 - n % 8);
    assert last == input[n / 8][8 - p..] + Zero(8 - p);
    assert b == b[..n / 8] + [last];
    BitsConcat(b[..n / 8], [last]);
    OneByte(last);
    BitsSlice(input, 0, n / 8);
    assert input[0..n / 8] == b[..n / 8];
  }

  // Zeros written over zeros
  method Clear(buffer: array<Byte>, from: nat, count: nat)
    requires from + count <= buffer.Length
    requires forall i :: from <= i < from + count ==> buffer[i] == Zero(8)
    modifies buffer
    ensures buffer[..] == old(buffer[..])
  {
    for i := 0 to count
      invariant buffer[..] == old(buffer[..])
    {
      buffer[from + i] := Zero(8);
    }
  }

  lemma BlockCount(m: nat, T: nat)
    requires T == m + |Pad(RATE, m)|
    ensures T < m + 2 + RATE
    ensures (m + 1) % RATE == 0 ==> T == RATE * ((m + 1 + RATE) / RATE) == 8 * ((m + RATE) / 8) + 8
    ensures (m + 1) % RATE != 0 ==>
      T == RATE * ((m + (RATE - m % RATE)) / RATE) == 8 * ((m + (RATE - m % RATE)) / 8)
  {
    hide PadZeros;
    var q := PadBlocks(RATE, m);
    PaddedBlocks(m, T, q);
  }

  lemma PaddedBlocks(m: nat, T: nat, q: nat)
    requires m + 2 <= T < m + 2 + 1024 && T == 1024 * q
    ensures (m + 1) % 1024 == 0 ==> T == 1024 * ((m + 1 + 1024) / 1024) == 8 * ((m + 1024) / 8) + 8
    ensures (m + 1) % 1024 != 0 ==>
      T == 1024 * ((m + (1024 - m % 1024)) / 1024) == 8 * ((m + (1024 - m % 1024)) / 8)
  {
    if T == m + 1025 {
      OneBitFree(m, q - 1);
    } else {
      MoreBitsFree(m, q - 1, m - 1024 * (q - 1));
    }
  }

  lemma OneBitFree(m: nat, k: nat)
    requires m + 1 == 1024 * k
    ensures (m + 1) % 1024 == 0
    ensures 1024 * (k + 1) == 1024 * ((m + 1 + 1024) / 1024) == 8 * ((m + 1024) / 8) + 8
  {
    By1024(m + 1, k);
    By1024(m + 1 + 1024, k + 1);
    By8(m + 1024, 128 * k + 127);
  }

  lemma MoreBitsFree(m: nat, k: nat, p: nat)
    requires m == 1024 * k + p && p < 1023
    ensures (m + 1) % 1024 != 0 && m % 1024 == p
    ensures 1024 * (k + 1) == 1024 * ((m + (1024 - p)) / 1024) == 8 * ((m + (1024 - p)) / 8)
  {
    By1024(m + 1, k);
    By1024(m, k);
    By1024(m + (1024 - p), k + 1);
    By8(m + (1024 - p), 128 * (k + 1));
  }

  lemma By1024(x: nat, q: nat)
    requires 1024 * q <= x < 1024 * q + 1024
    ensures x / 1024 == q && x % 1024 == x - 1024 * q
  {}

  lemma By8(x: nat, q: nat)
    requires 8 * q <= x < 8 * q + 8
    ensures x / 8 == q
  {}

  // Everything that is written for a message of m bits stays in the buffer, exactly up to that length.
  predicate InBuffer(m: nat)
  {
    if (m + 1) % RATE == 0 then m / 8 + 1 + RATE / 8 <= BUFFER
    else m / 8 + 1 + (RATE / 8 - ((m + 7) % RATE) / 8) <= BUFFER
  }

  lemma LongestExact(m: nat)
    ensures InBuffer(m) <==> m <= LONGEST
  {}

  lemma WholeBuffer(b: seq<Byte>, n: nat, M: Word)
    requires n <= |b| && |M| <= 8 * n
    requires Bits(b[..n]) == M + Zero(8 * n - |M|) && forall i :: n <= i < |b| ==> b[i] == Zero(8)
    ensures Bits(b) == M + Zero(8 * |b| - |M|)
  {
    hide Bits;
    BitsConcat(b[..n], b[n..]);
    assert b == b[..n] + b[n..];
    ZeroBytes(b[n..]);
  }

  lemma PaddedBuffer(b: seq<Byte>, M: Word, blocks: nat)
    requires |M| + |Pad(RATE, |M|)| == 1024 * blocks <= 8 * |b|
    requires Bits(b) == (M + Zero(8 * |b| - |M|))[|M| := true][1024 * blocks - 1 := true]
    ensures Bits(b[..128 * blocks]) == M + Pad(RATE, |M|)
  {
    hide Bits, Pad, Zero;
    PadInZeros(RATE, M, 8 * |b|);
    BitsSlice(b, 0, 128 * blocks);
    assert b[0..128 * blocks] == b[..128 * blocks];
  }

  // The last bit of a block is free: it takes the first bit of the padding, and a whole block follows.
  method AddCompleteBlock(padded: array<Byte>, m: nat) returns (blocks: nat)
    requires padded.Length == BUFFER && m <= LONGEST && (m + 1) % RATE == 0
    requires forall i :: (m + 7) / 8 <= i < BUFFER ==> padded[i] == Zero(8)
    modifies padded
    ensures 1024 * blocks == m + |Pad(RATE, m)| <= 8 * BUFFER
    ensures Bits(padded[..]) == old(Bits(padded[..]))[m := true][1024 * blocks - 1 := true]
  {
    hide Bits, Pad, Zero;
    BlockCount(m, m + |Pad(RATE, m)|);
    SetBit(padded, m, BUFFER);
    Clear(padded, m / 8 + 1, RATE / 8);
    SetBit(padded, 8 * ((m + RATE) / 8) + (RATE - 1) % 8, BUFFER);
    blocks := (m + 1 + RATE) / RATE;
  }

  method PadLastBlock(padded: array<Byte>, m: nat) returns (blocks: nat)
    requires padded.Length == BUFFER && m <= LONGEST && (m + 1) % RATE != 0
    requires forall i :: (m + 7) / 8 <= i < BUFFER ==> padded[i] == Zero(8)
    modifies padded
    ensures 1024 * blocks == m + |Pad(RATE, m)| <= 8 * BUFFER
    ensures Bits(padded[..]) == old(Bits(padded[..]))[m := true][1024 * blocks - 1 := true]
  {
    hide Bits, Pad, Zero;
    BlockCount(m, m + |Pad(RATE, m)|);
    Clear(padded, m / 8 + 1, RATE / 8 - ((m + 7) % RATE) / 8);
    SetBit(padded, m, BUFFER);
    SetBit(padded, 8 * ((m + (RATE - m % RATE)) / 8 - 1) + (RATE - 1) % 8, BUFFER);
    blocks := (m + (RATE - m % RATE)) / RATE;
  }

  // The message in a buffer of zeros
  method AlignedMessage(message: seq<Byte>, messageLength: nat) returns (padded: array<Byte>)
    requires (messageLength + 7) / 8 <= |message| && messageLength <= LONGEST
    ensures fresh(padded) && padded.Length == BUFFER
    ensures Bits(padded[..]) == MessageBits(message, messageLength) + Zero(8 * BUFFER - messageLength)
    ensures forall i :: (messageLength + 7) / 8 <= i < BUFFER ==> padded[i] == Zero(8)
  {
    hide Bits, MessageBits, Zero;
    padded := new Byte[BUFFER](_ => Zero(8));
    ghost var n := (messageLength + 7) / 8;
    ghost var fill := padded[n..];
    AlignLastByteOnLSB(message, padded, messageLength);
    assert forall i :: n <= i < BUFFER ==> padded[i] == padded[n..][i - n] == fill[i - n] == Zero(8);
    assert padded[..][..n] == padded[..n];
    WholeBuffer(padded[..], n, MessageBits(message, messageLength));
  }

  /** The padded message and the number of blocks that are written out. */
  method PadMessage(message: seq<Byte>, messageLength: nat) returns (padded: array<Byte>, blocks: nat)
    requires (messageLength + 7) / 8 <= |message| && messageLength <= LONGEST
    ensures padded.Length == BUFFER && 128 * blocks <= BUFFER
    ensures Bits(padded[..128 * blocks]) == MessageBits(message, messageLength) + Pad(RATE, messageLength)
  {
    hide Bits, MessageBits, Pad, Zero;
    padded := AlignedMessage(message, messageLength);
    if (messageLength + 1) % RATE == 0 {
      blocks := AddCompleteBlock(padded, messageLength);
    } else {
      blocks := PadLastBlock(padded, messageLength);
    }
    PaddedBuffer(padded[..], MessageBits(message, messageLength), blocks);
    assert padded[..][..128 * blocks] == padded[..128 * blocks];
  }

  // ---- one line for each lane: sixteen digits, the last byte first

  function Reversed(b: seq<Byte>): (r: seq<Byte>)
    ensures |r| == |b|
  {
    if b == [] then [] else Reversed(b[1..]) + [b[0]]
  }

  function Lines(b: seq<Byte>, lanes: nat): Text
    requires 8 * lanes <= |b|
  {
    if lanes == 0 then [] else Lines(b, lanes - 1) + (HexText(Reversed(b[8 * lanes - 8..8 * lanes])) + "\n")
  }

  lemma ByteFirst(b: Byte, w: Word)
    ensures Value(b + w) == Value(b) + 256 * Value(w)
  {
    hide Value;
    Nibbles(b[..4], b[4..]);
    FourBits(b[..4], b[4..] + w);
    FourBits(b[4..], w);
    FourBits(b[4..], []);
    FourBits(b[..4], []);
    NoValue();
    assert b[..4] + [] == b[..4] && b[4..] + [] == b[4..];
    assert b == b[..4] + b[4..];
    assert b + w == b[..4] + (b[4..] + w);
  }

  lemma NoValue()
    ensures Value([]) == 0
  {}

  lemma {:induction false} BigReversed(b: seq<Byte>)
    ensures Big(Reversed(b)) == Value(Bits(b))
  {
    hide Bits, Value;
    if b == [] {
      NoBytes(b, 0);
      NoValue();
      assert b[0..0] == b;
    } else {
      var rest := b[1..];
      BigReversed(rest);
      ByteFirst(b[0], Bits(rest));
      BitsConcat([b[0]], rest);
      OneByte(b[0]);
      assert b == [b[0]] + rest;
      hide Big, Reversed;
      LastByteValue(Reversed(rest), b[0]);
    }
  }

  /** A line is the number whose bits are the lane. */
  lemma LineIsLane(b: seq<Byte>, k: nat, after: Text)
    requires 8 * k + 8 <= |b|
    ensures Magnitude(HexText(Reversed(b[8 * k..8 * k + 8])) + "\n" + after, 16, 0)
      == Value(Bits(b)[64 * k..64 * k + 64])
  {
    hide Bits, Value, HexText, Reversed, Pow256, Behind, Big;
    var lane := b[8 * k..8 * k + 8];
    var tail: Text := "\n" + after;
    HexTextRead(Reversed(lane), tail, 0);
    BehindNothing(Pow256(|Reversed(lane)|), Big(Reversed(lane)));
    BigReversed(lane);
    BitsSlice(b, 8 * k, 8 * k + 8);
    assert HexText(Reversed(lane)) + "\n" + after == HexText(Reversed(lane)) + tail;
  }

  lemma {:induction false} ReversedAt(b: seq<Byte>, k: nat)
    requires k < |b|
    ensures Reversed(b)[k] == b[|b| - 1 - k]
  {
    if k < |b| - 1 {
      ReversedAt(b[1..], k);
    }
  }

  method WriteLine(f: File, padded: array<Byte>, at: nat)
    requires f.Valid() && f.pos == |f.text| && at + 8 <= padded.Length
    modifies f
    ensures f.Valid() && f.pos == |f.text|
    ensures f.text == old(f.text) + (HexText(Reversed(padded[at..at + 8])) + "\n")
  {
    hide HexText, Hex2, Reversed;
    ghost var lane := Reversed(padded[at..at + 8]);
    NoText(lane);
    for k := 0 to 8
      invariant f.Valid() && f.pos == |f.text| && f.text == old(f.text) + HexText(lane[..k])
    {
      ReversedAt(padded[at..at + 8], k);
      MoreText(lane, k);
      f.Fprint(Hex2(padded[at + (7 - k)]));
    }
    assert lane[..8] == lane;
    f.Fprint("\n");
  }

  lemma NoText(a: seq<Byte>)
    ensures HexText(a[..0]) == []
  {}

  lemma MoreText(a: seq<Byte>, k: nat)
    requires k < |a|
    ensures HexText(a[..k + 1]) == HexText(a[..k]) + Hex2(a[k])
  {
    assert a[..k + 1][..k] == a[..k];
  }

  lemma NoLines(b: seq<Byte>)
    ensures Lines(b, 0) == []
  {}

  lemma MoreLines(b: seq<Byte>, k: nat)
    requires 8 * k + 8 <= |b|
    ensures Lines(b, k + 1) == Lines(b, k) + (HexText(Reversed(b[8 * k..8 * k + 8])) + "\n")
  {}

  method WriteBlocks(f: File, padded: array<Byte>, blocks: nat)
    requires f.Valid() && f.pos == |f.text| && 128 * blocks <= padded.Length
    modifies f
    ensures f.Valid() && f.pos == |f.text|
    ensures f.text == old(f.text) + Lines(padded[..], 16 * blocks)
  {
    hide HexText, Reversed, Lines;
    NoLines(padded[..]);
    for j := 0 to blocks
      invariant f.Valid() && f.pos == |f.text|
      invariant f.text == old(f.text) + Lines(padded[..], 16 * j)
    {
      for i := 0 to RATE / 64
        invariant f.Valid() && f.pos == |f.text|
        invariant f.text == old(f.text) + Lines(padded[..], 16 * j + i)
      {
        WriteLine(f, padded, j * (8 * RATE / 64) + i * 8);
        MoreLines(padded[..], 16 * j + i);
        assert padded[..][8 * (16 * j + i)..8 * (16 * j + i) + 8] == padded[128 * j + 8 * i..128 * j + 8 * i + 8];
      }
    }
  }

  /** One test vector: the padded blocks as text, and the first 256 bits that the sponge squeezes. */
  method WriteVector(p: Permutation, f: File, message: seq<Byte>, messageLength: nat, MD: array<Byte>)
    returns (ghost padded: seq<Byte>, blocks: nat)
    requires f.Valid() && f.pos == |f.text| && MD.Length == 64
    requires (messageLength + 7) / 8 <= |message| && messageLength <= LONGEST
    modifies f, MD
    ensures 128 * blocks == |padded| && f.text == old(f.text) + Lines(padded, 16 * blocks) + "-\n"
    ensures Bits(padded) == MessageBits(message, messageLength) + Pad(RATE, messageLength)
    ensures Bits(MD[..32]) == Read(p, RATE, AbsorbBlocks(p, RATE, Zero(1600), Bits(padded)), RATE, 256)
  {
    hide Bits, MessageBits, Pad, Zero, AbsorbBlocks, Rest, Read, Lines, SpongeOf;
    var buffer;
    buffer, blocks := PadMessage(message, messageLength);
    padded := buffer[..128 * blocks];
    WriteBlocks(f, buffer, blocks);
    LinesOf(buffer[..], padded, 16 * blocks);
    f.Fprint("-\n");
    var state := new SpongeState(p);
    var ret := Init(state, 0);
    NothingQueued(state);
    ret := Update(state, message, messageLength);
    assert [] + MessageBits(message, messageLength) == MessageBits(message, messageLength);
    ret := Final(state, MD);
    var r := state.Squeeze(MD, 256);
    FirstBits(p, MessageBits(message, messageLength), 256);
  }

  lemma FirstBits(p: Permutation, M: Word, d: nat)
    ensures SpongeOf(p, RATE, M, d)[0..]
      == Read(p, RATE, AbsorbBlocks(p, RATE, Zero(1600), M + Pad(RATE, |M|)), RATE, d)
  {}

  lemma {:induction false} LinesOf(b: seq<Byte>, c: seq<Byte>, lanes: nat)
    requires 8 * lanes <= |c| && c <= b
    ensures Lines(b, lanes) == Lines(c, lanes)
  {
    hide HexText, Reversed;
    if lanes > 0 {
      LinesOf(b, c, lanes - 1);
      assert b[8 * lanes - 8..8 * lanes] == c[8 * lanes - 8..8 * lanes];
    }
  }
}
