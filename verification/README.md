# Keccak and SHAKE, verified

This project models the two C implementations of Keccak in the repository, the known-answer-test files and the small
printf core beside them, and proves in Dafny that they do what they are written for.

- **The permutation.** `KeccakP` defines the five step mappings on 25 words and says what each does to a bit, in the
  terms of section 3.2 of FIPS 202. `KeccakF1600` (unrolled, constants from a table) and `KeccakReference` (step by
  step, constants from an LFSR, offsets from a walk) are both proved equal to the same 24 rounds. `Bijection` proves
  that these rounds have an inverse. For theta it works in the ring of column patterns: a map that adds two shifted
  column parities squares to a map of the same kind, because the cross terms cancel; six doublings reach distance 64,
  where the rotations vanish, and the rest is arithmetic modulo x^5 = 1.
- **The sponge.** `Sponge` defines one function over any permutation f of 1600 bits: pad, absorb the blocks, read the
  stream. The bit-oriented code (`KeccakSponge`, `KeccakNIST`, `KeccakDuplex`) and the byte-oriented code (`Fips202`,
  `OneShot`, `Incremental`, `CShake`) are classes and methods proved against it. `Runs` and `Incremental` state it for
  any cut of input and output, and `Agreement` puts the two code bases side by side. A value of type `Permutation` is any
  map, or Keccak-f marked as implemented: then the permutation calls of the byte-oriented code run the unrolled permutation,
  and those of the bit-oriented code the reference permutation. `KeccakFunctions` states the results for the functions
  of FIPS 202 and SP 800-185 on this whole stack, and `StrayState` what becomes of sha3_384.
- **Text and numbers.** `Qprintf` has the division by ten without division and the integer printer, `GenKat` the marker
  search, the hexadecimal reader and its printer, `KatRoundTrip` which markers bring printed arrays back, `VhdlVectors`
  the hand-written padding of the test vector writer.

- **Laws.** `WordLaws`, `PermutationLaws`, `SpongeLaws`, `InterfaceLaws` and `TextLaws` say what each definition on which
  a result rests comes to in bits, bytes, characters and numbers. `SpongeLaws` does it with a second sponge, block by
  block and bit by bit as in FIPS 202, and proves that the two are the same.

Machine words are strings of bits, least significant bit first (`Words`), so that words, bytes and the bit strings of
the standard are one type and `&`, `|`, `^`, `<<` and `>>` are defined bit by bit. Ghost fields record the message
absorbed and the amount squeezed; they only serve the contracts.

## Where the code departs from its documentation or from the standard

- `sha3_384` declares its state without clearing it (fips202.c:687; sha3_256 and sha3_512 clear theirs at 568 and 719).
  It is modelled on an arbitrary array. Over Keccak-f and for every message, the absorbed state is right exactly when the
  array was zero (`StrayState.StateExact`), some array gives a wrong digest (`WrongDigest`), and in fact any digest comes
  out of some array (`AnyDigest`). The digest shows only 384 of the 1600 bits, so that some array other than zero gives
  the right one (`LuckyDigest`); the exact condition on the digest (`DigestExact`) is therefore over all injective maps.
  `keccak_absorb` does not clear the state either, although its comment says so (fips202.c:26).
- `Absorb` narrows the length to 32 bits on its queue path (KeccakSponge.c:173-175). `QueueFits` is the exact condition
  under which that does no harm; it holds whenever the queue is empty or length and rate together stay below 2^32.
  Outside it the copy leaves the block or the loop never ends (`KeccakSponge.NarrowingFails`).
- `InitDuplex` accepts rate 1, for which `rate - 2` wraps around (KeccakDuplex.c:30). `KeccakDuplex.RhoMaxExact` shows
  that the bound is right exactly from rate 2 on. `Duplexing` is specified for rate 1 too, as long as the buffer
  arithmetic of line 50 does not go negative. There it is not the duplex construction: `DuplexExact`, and for Keccak-f
  the states for which a call for no input differs, `RateOneKeccak`.
- `Squeeze` pads and switches the phase before it checks the requested length (KeccakSponge.c:233-236), so a request for
  a broken byte fails but still ends absorbing. Its contract says so.
- `FindMarker` compares a char with EOF. A signed char is modelled; with it the character 255 ends the search early. The
  theorem is stated for all files, and `GenKat.SeenWhenReadable` gives the exact condition.
- A marker of 50 characters or more is cut to 49 (genKAT.c:611), and its rest is read as part of the field. That does no
  harm exactly when the rest holds nothing but skipped characters, or skipped characters and then digits up to its end:
  `KatRoundTrip.RoundTripExact`. `LongMarkerMisread` has a marker with which it does.
- With both padding flags, `qprinti` fills zeros in on the right of the number (qprintf.c:103-106), which changes its
  value. `Qprintf.PrintedReadsBack` says exactly when.
- The zeros that the VHDL vector writer puts behind a message can reach past its 4000-byte buffer from 31737 bits on
  (mainReference.c:377); the lengths it uses are below 1300.

## Model

| member | source | states |
|---|---|---|
| `KeccakF1600.StatePermute` | pulpino_clean/COMPILE/src/keccak/keccakf1600.c:60-325 | The unrolled loop, two rounds a turn with its fixed rotations and its constant table, leaves 24 rounds of theta, rho, pi, chi and iota of the 25 words, for every state |
| `KeccakF1600.ThetaRhoPiChiIota` | pulpino_clean/COMPILE/src/keccak/keccakf1600.c:106-199 | One half of the loop body is exactly one round with the given constant |
| `PermutationLaws.TwentyFourRounds` | pulpino_clean/COMPILE/src/keccak/keccakf1600.c:12-104 | Keccak-f is 24 rounds, on words and on bits |
| `PermutationLaws.RoundsLaw` | pulpino_clean/COMPILE/src/keccak/keccakf1600.c:104-200 | Round n is theta, rho, pi, chi and iota in this order with constant n of the table |
| `PermutationLaws.Constants0To8` | pulpino_clean/COMPILE/src/keccak/keccakf1600.c:15-40 | Constants 0 to 7 of the table, as numbers |
| `PermutationLaws.Constants8To16` | pulpino_clean/COMPILE/src/keccak/keccakf1600.c:15-40 | Constants 8 to 15 |
| `PermutationLaws.Constants16To24` | pulpino_clean/COMPILE/src/keccak/keccakf1600.c:15-40 | Constants 16 to 23 |
| `RoundConstants.TableIsLfsr` | pulpino_clean/COMPILE/src/keccak/keccakf1600.c:15-40 | Each of the 24 constants of the table is what the LFSR of the reference code produces |
| `KeccakReference.Permutation.KeccakPermutationOnWords` | KeccakVHDL-3.1/3.1/new_test_vector/Sources/KeccakF-1600-reference.c:82-106 | The five step methods in turn, with the computed tables, are the same 24 rounds |
| `KeccakReference.ThetaStep` | KeccakVHDL-3.1/3.1/new_test_vector/Sources/KeccakF-1600-reference.c:111-126 | In place, theta |
| `KeccakReference.RhoStep` | KeccakVHDL-3.1/3.1/new_test_vector/Sources/KeccakF-1600-reference.c:128-134 | In place, rho with the given offsets |
| `KeccakReference.PiStep` | KeccakVHDL-3.1/3.1/new_test_vector/Sources/KeccakF-1600-reference.c:136-145 | Through a copy, pi: the write index of the code and the read index of the definition are inverse |
| `KeccakReference.ChiStep` | KeccakVHDL-3.1/3.1/new_test_vector/Sources/KeccakF-1600-reference.c:147-158 | Plane by plane through five words, chi: no lane is overwritten before its last use |
| `KeccakReference.InitializeRhoOffsets` | KeccakVHDL-3.1/3.1/new_test_vector/Sources/KeccakF-1600-reference.c:191-205 | The walk through the lane plane meets every lane once and computes the offset the unrolled code hard-codes |
| `KeccakReference.InitializeRoundConstants` | KeccakVHDL-3.1/3.1/new_test_vector/Sources/KeccakF-1600-reference.c:176-189 | The LFSR run over 24 rounds of seven steps gives the constants of the definition |
| `KeccakP.ThetaBit` | KeccakVHDL-3.1/3.1/new_test_vector/Sources/KeccakF-1600-reference.c:111-126 | Bit (x, y, z) of theta is the bit plus the parities of columns (x - 1, z) and (x + 1, z - 1), section 3.2.1 of FIPS 202 |
| `PermutationLaws.ParityLaw` | KeccakVHDL-3.1/3.1/new_test_vector/Sources/KeccakF-1600-reference.c:115-119 | The parity of a column is the exclusive or of its five bits, at words x, x + 5, x + 10, x + 15 and x + 20 |
| `PermutationLaws.Offsets` | KeccakVHDL-3.1/3.1/new_test_vector/Sources/KeccakF-1600-reference.c:191-205 | The 25 rotation offsets, as numbers |
| `PermutationLaws.RhoLaw` | KeccakVHDL-3.1/3.1/new_test_vector/Sources/KeccakF-1600-reference.c:128-134 | Rho moves bit z of word i to z plus offset i modulo 64 |
| `PermutationLaws.PiLaw` | KeccakVHDL-3.1/3.1/new_test_vector/Sources/KeccakF-1600-reference.c:136-145 | Word x + 5y of pi is word (x + 3y) mod 5 + 5x |
| `KeccakP.ChiBit` | KeccakVHDL-3.1/3.1/new_test_vector/Sources/KeccakF-1600-reference.c:147-158 | Bit (x, y, z) of chi is the bit plus (not its right neighbour, and the next), section 3.2.4 |
| `PermutationLaws.ChiLaw` | KeccakVHDL-3.1/3.1/new_test_vector/Sources/KeccakF-1600-reference.c:147-158 | The same in words and remainders |
| `PermutationLaws.IotaLaw` | KeccakVHDL-3.1/3.1/new_test_vector/Sources/KeccakF-1600-reference.c:160-163 | Iota changes word 0 by the constant, and nothing else |
| `Bijection.ThetaOrder` | KeccakVHDL-3.1/3.1/new_test_vector/Sources/KeccakF-1600-reference.c:111-126 | Theta applied 192 times is the identity on every state |
| `Bijection.ThetaMultiple` | KeccakVHDL-3.1/3.1/new_test_vector/Sources/KeccakF-1600-reference.c:111-126 | A power of theta whose exponent is a multiple of 192 is the identity |
| `Bijection.ThetaOther` | KeccakVHDL-3.1/3.1/new_test_vector/Sources/KeccakF-1600-reference.c:111-126 | Every other power changes some state |
| `Bijection.MixSquare` | KeccakVHDL-3.1/3.1/new_test_vector/Sources/KeccakF-1600-reference.c:111-126 | The square of a map of theta's shape has the same shape with doubled distances: the cross terms cancel |
| `Bijection.ChiOrder` | KeccakVHDL-3.1/3.1/new_test_vector/Sources/KeccakF-1600-reference.c:147-158 | Chi applied four times is the identity on every state |
| `Bijection.ChiTwice` | KeccakVHDL-3.1/3.1/new_test_vector/Sources/KeccakF-1600-reference.c:147-158 | Chi applied twice changes some state |
| `Bijection.RhoUndone` | KeccakVHDL-3.1/3.1/new_test_vector/Sources/KeccakF-1600-reference.c:128-134 | Rotating by 64 minus the offsets undoes rho, on both sides |
| `Bijection.PiUndone` | KeccakVHDL-3.1/3.1/new_test_vector/Sources/KeccakF-1600-reference.c:136-145 | The inverse permutation of the lanes undoes pi, on both sides |
| `Bijection.KeccakFIsBijective` | KeccakVHDL-3.1/3.1/new_test_vector/Sources/KeccakF-1600-reference.c:82-106 | The 24 rounds map A to B exactly when the explicit inverse maps B to A |
| `Keccak.KeccakIsBijective` | KeccakVHDL-3.1/3.1/new_test_vector/Sources/KeccakF-1600-reference.c:56-71 | The same on strings of 1600 bits |
| `Keccak.StatePermuteWords` | pulpino_clean/COMPILE/src/keccak/keccakf1600.c:60-325 | On the bits of its words, the unrolled code is Keccak-f[1600]: the f of the byte-oriented sponge |
| `Keccak.KeccakPermutationBytes` | KeccakVHDL-3.1/3.1/new_test_vector/Sources/KeccakF-1600-reference.c:56-71 | On the bits of its 200 bytes, the reference code is the same f: the f of the bit-oriented sponge |
| `Keccak.FromBytesToWords` | KeccakVHDL-3.1/3.1/new_test_vector/Sources/KeccakF-1600-reference.c:36-45 | The words hold the same 1600 bits as the bytes |
| `Keccak.FromWordsToBytes` | KeccakVHDL-3.1/3.1/new_test_vector/Sources/KeccakF-1600-reference.c:47-54 | The bytes hold the same 1600 bits as the words |
| `Keccak.ViewsAreInverse` | KeccakVHDL-3.1/3.1/new_test_vector/Sources/KeccakF-1600-reference.c:36-54 | Bytes and words with the same bits determine each other, so each conversion undoes the other |
| `ByteView.StateXORBytes` | pulpino_clean/COMPILE/src/keccak/keccakf1600.c:51-58 | The state changes by exclusive or with the bytes at the offset, and nowhere else |
| `ByteView.StateExtractBytes` | pulpino_clean/COMPILE/src/keccak/keccakf1600.c:42-49 | The bytes are the slice of the state's bits; the rest of the buffer stays |
| `ByteView.ReadAfterXor` | pulpino_clean/COMPILE/src/keccak/keccakf1600.c:42-58 | What is extracted after an exclusive or is the exclusive or of what is extracted, and unchanged outside |
| `WordLaws.BitOfBytes` | pulpino_clean/COMPILE/src/keccak/keccakf1600.c:42-58 | Bit i of byte j is bit 8j + i of the string |
| `WordLaws.BitOfLanes` | pulpino_clean/COMPILE/src/keccak/keccakf1600.c:42-58 | Bit i of word j is bit 64j + i of the string |
| `WordLaws.BinaryDigit` | pulpino_clean/COMPILE/src/keccak/keccakf1600.c:15-40 | Bit i of a number is its binary digit of weight 2^i |
| `WordLaws.RotationIsLeft` | pulpino_clean/COMPILE/src/keccak/keccakf1600.c:13-13 | A rotation by k moves bit z to (z + k) mod 64 |
| `BitStrings.XorAtConcat` | pulpino_clean/COMPILE/src/keccak/keccakf1600.c:51-58 | An exclusive or splits over concatenation |
| `Sponge.AbsorbConcat` | KeccakVHDL-3.1/3.1/new_test_vector/Sources/KeccakSponge.c:80-192 | The state after P and Q depends only on the state after P, the bits of P left over, and Q |
| `Sponge.ReadConcat` | KeccakVHDL-3.1/3.1/new_test_vector/Sources/KeccakSponge.c:229-266 | Reading d and then e bits is reading d + e bits of one stream |
| `Sponge.ReadPrefix` | KeccakVHDL-3.1/3.1/new_test_vector/Sources/KeccakSponge.c:229-266 | A shorter request is a prefix of a longer one |
| `Sponge.PadIsFips` | KeccakVHDL-3.1/3.1/new_test_vector/Sources/KeccakSponge.c:194-227 | The number of zeros is (-m - 2) mod r and the padded length is a multiple of r, section 5.1 of FIPS 202 |
| `Sponge.PadInjective` | KeccakVHDL-3.1/3.1/new_test_vector/Sources/KeccakSponge.c:194-227 | Messages with the same padded string are the same |
| `SpongeLaws.SpongeIsReference` | KeccakVHDL-3.1/3.1/new_test_vector/Sources/KeccakSponge.c:80-266 | Bit by bit, the sponge is Algorithm 8 of FIPS 202 written over a plain function: start from zeros, exclusive or and f for each block of M 1 0* 1, then rate bits for each further f |
| `SpongeLaws.AbsorbIs` | KeccakVHDL-3.1/3.1/new_test_vector/Sources/KeccakSponge.c:80-192 | Absorbing whole blocks is that loop |
| `SpongeLaws.ReadIs` | KeccakVHDL-3.1/3.1/new_test_vector/Sources/KeccakSponge.c:229-266 | Bit i of what is read is bit i mod r after i / r applications of f |
| `SpongeLaws.PositionIs` | KeccakVHDL-3.1/3.1/new_test_vector/Sources/KeccakSponge.c:236-263 | After q * r + t bits the permutation has run q times and r - t bits are left |
| `SpongeLaws.RestLaw` | KeccakVHDL-3.1/3.1/new_test_vector/Sources/KeccakSponge.c:171-189 | What waits in the queue are the last |P| mod r bits |
| `KeccakInterface.KeccakPermutationAfterXor` | KeccakVHDL-3.1/3.1/new_test_vector/Sources/KeccakF-1600-reference.c:73-80 | XOR of the data into the first bytes, and then f |
| `KeccakSponge.SpongeState.InitSponge` | KeccakVHDL-3.1/3.1/new_test_vector/Sources/KeccakSponge.c:21-38 | Accepts exactly the rates that are positive multiples of 64 below 1600 with rate + capacity = 1600, and starts with nothing absorbed |
| `KeccakSponge.NarrowingExact` | KeccakVHDL-3.1/3.1/new_test_vector/Sources/KeccakSponge.c:173-176 | The arithmetic in 32 bits takes what fits into the queue if and only if QueueFits holds of the length and the queue |
| `InterfaceLaws.PartialBlockLaw` | KeccakVHDL-3.1/3.1/new_test_vector/Sources/KeccakSponge.c:173-175 | The count that a turn takes, in remainders modulo 2^32 |
| `InterfaceLaws.OrdinaryLengthsFit` | KeccakVHDL-3.1/3.1/new_test_vector/Sources/KeccakSponge.c:173-175 | Lengths below 2^32 - 1536 fit any queue, and every length an empty one |
| `KeccakSponge.TurnExact` | KeccakVHDL-3.1/3.1/new_test_vector/Sources/KeccakSponge.c:172-188 | A turn keeps to the block and ends with the data or with a full queue if and only if QueueFits holds |
| `KeccakSponge.NarrowingFails` | KeccakVHDL-3.1/3.1/new_test_vector/Sources/KeccakSponge.c:89-190 | Otherwise the first turn copies beyond the block, or every later turn takes nothing and the loop never ends |
| `KeccakSponge.QueueStuck` | KeccakVHDL-3.1/3.1/new_test_vector/Sources/KeccakSponge.c:172-188 | With one byte queued and 2^32 bits to absorb, no number of turns takes anything |
| `KeccakSponge.SpongeState.Absorb` | KeccakVHDL-3.1/3.1/new_test_vector/Sources/KeccakSponge.c:80-192 | Accepts exactly when the queue holds whole bytes and nothing has been squeezed; then state and queue are those of the longer message, by whichever path, and the loop ends; otherwise nothing changes |
| `KeccakSponge.SpongeState.AbsorbFromData` | KeccakVHDL-3.1/3.1/new_test_vector/Sources/KeccakSponge.c:90-169 | The whole-block path absorbs exactly the bits it passes over |
| `KeccakSponge.SpongeState.AbsorbThroughQueue` | KeccakVHDL-3.1/3.1/new_test_vector/Sources/KeccakSponge.c:171-189 | So does the queue path, with the low bits of a last partial byte |
| `KeccakSponge.SpongeState.PadAndSwitchToSqueezingPhase` | KeccakVHDL-3.1/3.1/new_test_vector/Sources/KeccakSponge.c:194-227 | The state becomes that of message and padding, for every number of queued bits; bits left in the queue do not leak in |
| `KeccakSponge.TwoBlocks` | KeccakVHDL-3.1/3.1/new_test_vector/Sources/KeccakSponge.c:202-214 | With one free bit in the block, the padding is a one at its end, and a block of zeros ending in a one |
| `KeccakSponge.SpongeState.Squeeze` | KeccakVHDL-3.1/3.1/new_test_vector/Sources/KeccakSponge.c:229-266 | Each call returns the next bits of the sponge's output for the message; only whole bytes are accepted, but a refused first call has padded already |
| `KeccakSponge.SpongeState.Refill` | KeccakVHDL-3.1/3.1/new_test_vector/Sources/KeccakSponge.c:237-255 | The permutation runs exactly when no bit is left to squeeze |
| `KeccakNIST.Init` | KeccakVHDL-3.1/3.1/new_test_vector/Sources/KeccakNISTInterface.c:18-41 | The five accepted lengths and their rates; any other leaves the state unchanged |
| `KeccakNIST.Update` | KeccakVHDL-3.1/3.1/new_test_vector/Sources/KeccakNISTInterface.c:43-58 | Absorbs the bits of the message, the last ones from the high end of the last byte |
| `InterfaceLaws.MessageBit` | KeccakVHDL-3.1/3.1/new_test_vector/Sources/KeccakNISTInterface.c:43-58 | Bit by bit: whole bytes from bit 0 on, the bits of a last partial byte from its high end |
| `KeccakNIST.Final` | KeccakVHDL-3.1/3.1/new_test_vector/Sources/KeccakNISTInterface.c:60-63 | Returns the next fixedOutputLength bits of the sponge's output |
| `KeccakNIST.Hash` | KeccakVHDL-3.1/3.1/new_test_vector/Sources/KeccakNISTInterface.c:65-80 | For 224, 256, 384 and 512 bits the sponge of capacity twice that length; for any other length BAD_HASHLEN, with the buffer as it was |
| `Runs.SpongeInPieces` | KeccakVHDL-3.1/3.1/new_test_vector/Sources/KeccakSponge.c:80-266 | Any cut of the message into whole bytes and a last piece of bits, each piece fitting the queue it meets, and any cut of the output, gives the sponge function |
| `KeccakDuplex.DuplexState.InitDuplex` | KeccakVHDL-3.1/3.1/new_test_vector/Sources/KeccakDuplex.c:21-33 | Accepts exactly 0 < rate <= 1600 with rate + capacity = 1600 |
| `KeccakDuplex.RhoMaxExact` | KeccakVHDL-3.1/3.1/new_test_vector/Sources/KeccakDuplex.c:30 | rho_max, computed without sign, bounds the inputs that leave room for the padding if and only if rate >= 2 |
| `KeccakDuplex.DuplexState.Duplexing` | KeccakVHDL-3.1/3.1/new_test_vector/Sources/KeccakDuplex.c:35-68 | Accepts exactly the inputs, alignments and output lengths allowed; XORs the input with a one behind it and a one at the end of the rate, and returns the first bits of the new state, zero-filled to whole bytes; from rate 2 on that is input, 1, 0*, 1 with nothing in the capacity, and the sponge's output for all inputs so far |
| `KeccakDuplex.DuplexExact` | KeccakVHDL-3.1/3.1/new_test_vector/Sources/KeccakDuplex.c:30-61 | Every accepted input is absorbed as one block with its padding, whatever the map and the state, if and only if the rate is at least 2 |
| `KeccakDuplex.OnePaddedBlock` | KeccakVHDL-3.1/3.1/new_test_vector/Sources/KeccakDuplex.c:49-58 | From rate 2 on, every input of at most rate - 2 bits is absorbed as one block with its padding |
| `KeccakDuplex.RateOneDiffers` | KeccakVHDL-3.1/3.1/new_test_vector/Sources/KeccakDuplex.c:49-58 | At rate 1 there are a map and a state for which a call for no input leaves another state than the sponge |
| `KeccakDuplex.RateOneExact` | KeccakVHDL-3.1/3.1/new_test_vector/Sources/KeccakDuplex.c:49-58 | At rate 1, for an injective map: a call for no input leaves the sponge's state if and only if the map takes the state with its first bit flipped to the state |
| `KeccakDuplex.RateOneKeccak` | KeccakVHDL-3.1/3.1/new_test_vector/Sources/KeccakDuplex.c:49-58 | The same over Keccak-f |
| `KeccakDuplex.DuplexingIsSponge` | KeccakVHDL-3.1/3.1/new_test_vector/Sources/KeccakDuplex.c:35-68 | The duplexing-sponge lemma: a call returns what the sponge returns for the earlier padded inputs and the new one |
| `InterfaceLaws.History` | KeccakVHDL-3.1/3.1/new_test_vector/Sources/KeccakDuplex.c:21-58 | The history of the object starts empty and grows by each input and its padding |
| `InterfaceLaws.MarkedBit` | KeccakVHDL-3.1/3.1/new_test_vector/Sources/KeccakDuplex.c:49-58 | Bit by bit: the input, a one behind it, a one at the end of the rate, and zeros |
| `KeccakDuplex.HighBitsClear` | KeccakVHDL-3.1/3.1/new_test_vector/Sources/KeccakDuplex.c:41-45 | The mask test is zero exactly when no bit stands above the input's last one |
| `Fips202.KeccakAbsorb` | pulpino_clean/COMPILE/src/keccak/fips202.c:34-58 | Every message from every starting state: whole blocks absorbed, the rest with the suffix XORed in |
| `Fips202.SuffixIsPad` | pulpino_clean/COMPILE/src/keccak/fips202.c:50-57 | The domain byte, the zeros and the 128 are the appended bits and pad10*1, also where they share one byte |
| `Fips202.FinalizedIsPadded` | pulpino_clean/COMPILE/src/keccak/fips202.c:34-58 | One permutation later the state is that of message, appended bits and padding |
| `Fips202.KeccakSqueezeBlocks` | pulpino_clean/COMPILE/src/keccak/fips202.c:72-83 | The next whole blocks of the output stream |
| `OneShot.Shake128` | pulpino_clean/COMPILE/src/keccak/fips202.c:443-477 | The sponge of rate 1344 for the message and 1111, for every message and output length |
| `OneShot.Shake256` | pulpino_clean/COMPILE/src/keccak/fips202.c:517-552 | The same at rate 1088 |
| `OneShot.Sha3_256` | pulpino_clean/COMPILE/src/keccak/fips202.c:563-584 | The sponge of rate 1088 for the message and 01 |
| `OneShot.Sha3_512` | pulpino_clean/COMPILE/src/keccak/fips202.c:714-735 | The same at rate 576 |
| `InterfaceLaws.AppendedBits` | pulpino_clean/COMPILE/src/keccak/fips202.c:443-584 | 1111, 01 and 00 are appended for SHAKE, SHA3 and cSHAKE |
| `InterfaceLaws.FinalizedLaw` | pulpino_clean/COMPILE/src/keccak/fips202.c:34-58 | The state with the rest of the message and the suffix in it |
| `OneShot.Sha3_384` | pulpino_clean/COMPILE/src/keccak/fips202.c:682-704 | The result as a function of whatever the uncleared state array holds |
| `OneShot.Sha3_384Cleared` | pulpino_clean/COMPILE/src/keccak/fips202.c:687-690 | From an all-zero state it is SHA3-384 |
| `StrayState.StateExact` | pulpino_clean/COMPILE/src/keccak/fips202.c:687-690 | Over Keccak-f, for every message: the absorbed state is the right one if and only if the array was zero |
| `Sponge.KeccakInjective` | KeccakVHDL-3.1/3.1/new_test_vector/Sources/KeccakF-1600-reference.c:56-71 | Keccak-f[1600] takes different states to different states |
| `StrayState.DigestExact` | pulpino_clean/COMPILE/src/keccak/fips202.c:682-704 | The digest is right for every injective map and every message if and only if the array was zero |
| `StrayState.AnyDigest` | pulpino_clean/COMPILE/src/keccak/fips202.c:682-704 | Over Keccak-f, for every message: each string of 384 bits is the digest from some content of the array |
| `StrayState.WrongDigest` | pulpino_clean/COMPILE/src/keccak/fips202.c:682-704 | Over Keccak-f, for every message: there is a content of the array that gives a wrong digest |
| `StrayState.LuckyDigest` | pulpino_clean/COMPILE/src/keccak/fips202.c:682-704 | Over Keccak-f, for every message: there is also a content other than zero that gives the right digest |
| `Incremental.Context.constructor` | pulpino_clean/COMPILE/src/keccak/fips202.c:95-104 | Nothing absorbed, cursor 0 |
| `Incremental.Context.Absorb` | pulpino_clean/COMPILE/src/keccak/fips202.c:119-136 | State and cursor are those of the longer message, with cursor < r, for every piece |
| `Incremental.Context.Finalize` | pulpino_clean/COMPILE/src/keccak/fips202.c:151-164 | The state is the one that keccak_absorb leaves for everything absorbed so far |
| `Incremental.Context.Squeeze` | pulpino_clean/COMPILE/src/keccak/fips202.c:179-215 | The next bytes of the stream, with cursor < r after every call |
| `Incremental.ShakeFinalize` | pulpino_clean/COMPILE/src/keccak/fips202.c:241-251 | After it the stream is the output of SHAKE for everything absorbed |
| `Incremental.Sha3Finalize` | pulpino_clean/COMPILE/src/keccak/fips202.c:609-671 | The digest is that of SHA3 for everything absorbed |
| `Incremental.ShakeInPieces` | pulpino_clean/COMPILE/src/keccak/fips202.c:217-263 | Any cut of the input and any cut of the output give what the one-shot function gives |
| `CShake.CShakeSimple` | pulpino_clean/COMPILE/src/keccak/fips202.c:320-392 | The sponge with suffix 00 for bytepad(encode_string("") || encode_string(cstm), r) || input, for every cstm, input and output length |
| `CShake.SeparatorIsPrefix` | pulpino_clean/COMPILE/src/keccak/fips202.c:331-343 | The eight bytes of the code, with zeros to the end of the block, are the encoding of sections 2.3 and 3.3 of SP 800-185 |
| `InterfaceLaws.CustomizationLaw` | pulpino_clean/COMPILE/src/keccak/fips202.c:339-340 | The two customization bytes are its 16 bits, the least significant first |
| `InterfaceLaws.PrefixBytes` | pulpino_clean/COMPILE/src/keccak/fips202.c:331-343 | The prefix of cSHAKE128 and of cSHAKE256 byte by byte: 1, the rate, 1, 0, 1, 16, the customization, zeros |
| `InterfaceLaws.Base256Law` | pulpino_clean/COMPILE/src/keccak/fips202.c:331-338 | The digits of left_encode are below 256, have the value and do not start with zero |
| `InterfaceLaws.BytePadLaw` | pulpino_clean/COMPILE/src/keccak/fips202.c:331-343 | bytepad puts left_encode of the width in front and the fewest zeros behind |
| `CShake.SeparatorAbsorbed` | pulpino_clean/COMPILE/src/keccak/fips202.c:331-347 | Absorbing the eight bytes alone is absorbing that whole block |
| `Agreement.ShakeAgrees` | pulpino_clean/COMPILE/src/keccak/fips202.c:443-552 | SHAKE128 and SHAKE256 of the byte-oriented code, and the bit-oriented queue fed the message and 1111, both give the sponge's output for the message and 1111, for every message and output length |
| `Agreement.Sha3Agrees` | pulpino_clean/COMPILE/src/keccak/fips202.c:563-735 | The same for SHA3-256 and SHA3-512 with 01 |
| `Agreement.DuplexAgrees` | KeccakVHDL-3.1/3.1/new_test_vector/Sources/KeccakDuplex.c:35-68 | At every rate that is a multiple of 64, an accepted call of whole output bytes returns the first bits of the new state, and these are what the queue-based sponge squeezes for the earlier padded inputs and this one |
| `Fips202.StatePermute` | pulpino_clean/COMPILE/src/keccak/keccakf1600.c:60-325 | The permutation call of the byte-oriented code: over Keccak-f it runs the unrolled code |
| `KeccakInterface.KeccakPermutation` | KeccakVHDL-3.1/3.1/new_test_vector/Sources/KeccakF-1600-reference.c:56-71 | The permutation call of the bit-oriented code: over Keccak-f it runs the reference code through words |
| `KeccakFunctions.SameSponge` | KeccakVHDL-3.1/3.1/new_test_vector/Sources/KeccakSponge.c:80-266 | The sponge over the definition of Keccak-f is the sponge over its implementations |
| `InterfaceLaws.FunctionsLaw` | pulpino_clean/COMPILE/src/keccak/fips202.c:443-735 | SHAKE128, SHAKE256, SHA3-256 and SHA3-512 with their rates, appended bits and lengths as literals |
| `InterfaceLaws.CShakeLaw` | pulpino_clean/COMPILE/src/keccak/fips202.c:320-392 | The same for cSHAKE128 and cSHAKE256 |
| `KeccakFunctions.Shake128` | pulpino_clean/COMPILE/src/keccak/fips202.c:443-477 | On the unrolled permutation: SHAKE128 of section 6.2 of FIPS 202 |
| `KeccakFunctions.Shake256` | pulpino_clean/COMPILE/src/keccak/fips202.c:517-552 | On the unrolled permutation: SHAKE256 |
| `KeccakFunctions.Sha3_256` | pulpino_clean/COMPILE/src/keccak/fips202.c:563-584 | On the unrolled permutation: SHA3-256 of section 6.1 of FIPS 202 |
| `KeccakFunctions.Sha3_512` | pulpino_clean/COMPILE/src/keccak/fips202.c:714-735 | On the unrolled permutation: SHA3-512 |
| `KeccakFunctions.CShake128` | pulpino_clean/COMPILE/src/keccak/fips202.c:320-392 | On the unrolled permutation: cSHAKE128 of SP 800-185 with a customization of 16 bits |
| `KeccakFunctions.CShake256` | pulpino_clean/COMPILE/src/keccak/fips202.c:782-852 | On the unrolled permutation: cSHAKE256 |
| `KeccakFunctions.QueueShake` | KeccakVHDL-3.1/3.1/new_test_vector/Sources/KeccakSponge.c:80-266 | On the reference permutation: the queue fed the message and 1111 squeezes SHAKE128 and SHAKE256 |
| `KeccakFunctions.QueueSha3` | KeccakVHDL-3.1/3.1/new_test_vector/Sources/KeccakSponge.c:80-266 | On the reference permutation: the queue fed the message and 01 squeezes SHA3-256 and SHA3-512 |
| `KeccakFunctions.Hash` | KeccakVHDL-3.1/3.1/new_test_vector/Sources/KeccakNISTInterface.c:65-80 | On the reference permutation: KECCAK[2n] of section 5.2 of FIPS 202 with n bits of output |
| `VhdlVectors.PadMessage` | KeccakVHDL-3.1/3.1/new_test_vector/Sources/mainReference.c:364-398 | The hand-written padding and block count give message and pad10*1, whole and with nothing behind it, for every length that fits the buffers |
| `VhdlVectors.LongestExact` | KeccakVHDL-3.1/3.1/new_test_vector/Sources/mainReference.c:372-377 | The zeros stay inside the buffer of 4000 bytes if and only if the message has at most 31736 bits |
| `VhdlVectors.AlignLastByteOnLSB` | KeccakVHDL-3.1/3.1/new_test_vector/Sources/mainReference.c:67-75 | The copy holds the bits that Update takes from the message, and zeros up to the byte |
| `VhdlVectors.WriteVector` | KeccakVHDL-3.1/3.1/new_test_vector/Sources/mainReference.c:364-425 | The blocks that are printed are the blocks that Init, Update, Final and Squeeze absorb for the same message |
| `VhdlVectors.LineIsLane` | KeccakVHDL-3.1/3.1/new_test_vector/Sources/mainReference.c:388-393 | A printed line reads as the number whose bits are the lane |
| `TextLaws.LinesLaw` | KeccakVHDL-3.1/3.1/new_test_vector/Sources/mainReference.c:386-393 | A line holds the eight bytes of a lane, the last first, and an end of line |
| `Qprintf.DivU10` | pulpino_clean/COMPILE/string_lib/qprintf.c:40-51 | n / 10 for every 32-bit n |
| `Qprintf.RemU10` | pulpino_clean/COMPILE/string_lib/qprintf.c:58-61 | n mod 10 for every 32-bit n, through the wrapped multiplication and the table |
| `Qprintf.TableEntry` | pulpino_clean/COMPILE/string_lib/qprintf.c:53-61 | In every case the error of the multiplication stays short of the next wrong table entry |
| `Qprintf.Qprints` | pulpino_clean/COMPILE/string_lib/qprintf.c:80-108 | The string filled on the left or on the right; the count returned is the longer of width and string |
| `TextLaws.JustifiedLaw` | pulpino_clean/COMPILE/string_lib/qprintf.c:16-17 | Flags 0 to 3: blanks on the left, blanks on the right, zeros on the left, zeros on the right |
| `Qprintf.Qprinti` | pulpino_clean/COMPILE/string_lib/qprintf.c:110-166 | The padded numeral; the count is the longer of width and numeral; the buffer is never left at either end and both loops end |
| `TextLaws.MeaningLaw` | pulpino_clean/COMPILE/string_lib/qprintf.c:110-128 | What is printed agrees with the argument modulo 2^32, and is negative exactly for a negative argument of %d |
| `TextLaws.RadixLaw` | pulpino_clean/COMPILE/string_lib/qprintf.c:133-151 | Base 16 is printed in base 16, every other in base 10 |
| `TextLaws.DigitsInCase` | pulpino_clean/COMPILE/string_lib/qprintf.c:135-145 | The digits are letters only in base 16 and only in the case of letbase |
| `TextLaws.FirstDigit` | pulpino_clean/COMPILE/string_lib/qprintf.c:133-151 | There is no leading zero |
| `TextLaws.PrintedLaw` | pulpino_clean/COMPILE/string_lib/qprintf.c:153-165 | The sign stands in front of padding zeros and behind padding blanks |
| `Qprintf.PrintedReadsBack` | pulpino_clean/COMPILE/string_lib/qprintf.c:110-166 | The text reads back as the number, if and only if the number is 0 or no zeros were filled in on the right |
| `Qprintf.ElevenDigits` | pulpino_clean/COMPILE/string_lib/qprintf.c:130-162 | A 32-bit number has at most eleven digits, so that the sign fits too |
| `GenKat.FindMarker` | KeccakVHDL-3.1/3.1/new_test_vector/Sources/genKAT.c:603-631 | Found if and only if the marker's first 49 characters occur; the file stands behind the first occurrence, or where reading stopped |
| `TextLaws.SoughtLaw` | KeccakVHDL-3.1/3.1/new_test_vector/Sources/genKAT.c:609-611 | A marker of at most 49 characters is looked for as a whole, a longer one by its first 49 |
| `TextLaws.StopsLaw` | KeccakVHDL-3.1/3.1/new_test_vector/Sources/genKAT.c:613-627 | A failed search stops at the end of the file or behind the first character 255 |
| `GenKat.SeenWhenReadable` | KeccakVHDL-3.1/3.1/new_test_vector/Sources/genKAT.c:614-627 | An occurrence is seen if and only if no character 255 stands in front of its end |
| `GenKat.AsciiReadable` | KeccakVHDL-3.1/3.1/new_test_vector/Sources/genKAT.c:614-627 | In an ASCII file every occurrence is seen |
| `GenKat.MarkerMissed` | KeccakVHDL-3.1/3.1/new_test_vector/Sources/genKAT.c:614-627 | A file with a character 255, in which a marker that is there is not seen |
| `GenKat.ReadHex` | KeccakVHDL-3.1/3.1/new_test_vector/Sources/genKAT.c:636-676 | The array as a big-endian number is the field's value modulo 256^Length; zeros and 0 without a marker |
| `TextLaws.FieldReadLaw` | KeccakVHDL-3.1/3.1/new_test_vector/Sources/genKAT.c:648-672 | For such a marker: the field behind the whole marker |
| `TextLaws.SkipLaw` | KeccakVHDL-3.1/3.1/new_test_vector/Sources/genKAT.c:650-657 | What is skipped are all characters up to the first digit or end of line |
| `TextLaws.RunLaw` | KeccakVHDL-3.1/3.1/new_test_vector/Sources/genKAT.c:650-672 | What is read are all digits from there, and the character behind them |
| `GenKat.ShiftDigit` | KeccakVHDL-3.1/3.1/new_test_vector/Sources/genKAT.c:669-671 | The loop shifts the whole array by one digit |
| `GenKat.ShiftInValue` | KeccakVHDL-3.1/3.1/new_test_vector/Sources/genKAT.c:669-671 | That is sixteen times the number plus the digit, less what falls off on the left |
| `GenKat.FprintBstr` | KeccakVHDL-3.1/3.1/new_test_vector/Sources/genKAT.c:678-691 | Label, two upper-case digits a byte, 00 for none, end of line |
| `TextLaws.HexTextLaw` | KeccakVHDL-3.1/3.1/new_test_vector/Sources/genKAT.c:685-686 | Two digits for each byte, the high one first |
| `TextLaws.HexTextInCase` | KeccakVHDL-3.1/3.1/new_test_vector/Sources/genKAT.c:685-686 | Every character is a digit or a letter from A to F, in upper case |
| `GenKat.PrintedField` | KeccakVHDL-3.1/3.1/new_test_vector/Sources/genKAT.c:678-691 | The printed digits are a field of the array's value, up to the end of the line |
| `KatRoundTrip.ReadBack` | KeccakVHDL-3.1/3.1/new_test_vector/Sources/genKAT.c:636-691 | Reading what was printed restores the array and stops behind its line, whatever stands before and after, for every marker that meets the condition Restores |
| `KatRoundTrip.RoundTripExact` | KeccakVHDL-3.1/3.1/new_test_vector/Sources/genKAT.c:603-691 | All arrays of a length come back if and only if the first 49 characters of the marker hold no character 255 and what the reader does not skip of the rest is digits only |
| `KatRoundTrip.ShortMarker` | KeccakVHDL-3.1/3.1/new_test_vector/Sources/genKAT.c:609-611 | For markers of at most 49 characters that condition is only that they hold no character 255 |
| `TextLaws.RestoresLaw` | KeccakVHDL-3.1/3.1/new_test_vector/Sources/genKAT.c:609-672 | The condition with the number 49 written out |
| `KatRoundTrip.LongMarkerMisread` | KeccakVHDL-3.1/3.1/new_test_vector/Sources/genKAT.c:610-611 | A marker of 51 characters with which an array of one zero does not come back |
| `KatRoundTrip.PrintAndRead` | KeccakVHDL-3.1/3.1/new_test_vector/Sources/genKAT.c:636-691 | fprintBstr and then ReadHex on the same file copy the array, for every such marker |

## Left out

- The accelerator's RTL and VHDL, the hardware driver `shake128_hw`, and the peripherals, startup code and simulators:
  the hardware that they drive is not described by the code.
- `KeccakPermutationIntermediateValuesForVHDL` and all display, profiling and file-opening code: output only.
- The two global tables of the reference permutation: the code fills them once, the model at every call.
- The 25 words of new_test_vector/perm_ref_out.txt: the rounds are specified bit by bit but not evaluated on numbers.
- The branches for fixed rates in KeccakSponge.c and the reference code: they differ from the general path only in a
  constant block size.
- The second half of the unrolled loop (keccakf1600.c:201-294): it is the first with the names A and E exchanged and the
  next constant. One method models both and is called twice.
- The 26th word of the incremental context: a separate field for the cursor. The pointers into the message and the
  output are positions in sequences and arrays, and the generator of random messages in the vector writer is a parameter.
- The view of the state as bytes through a pointer cast (KeccakF-1600-reference.c:56-71 on little-endian machines): the
  conversion through words, which the other machines use, is modelled.
- Messages of 2^64 bits and more, and sizes beyond what memory holds: lengths are natural numbers in the byte-oriented
  functions.
- `-i` for the smallest 32-bit integer in `qprinti`: undefined in C, so `Qprintf.Qprinti` excludes it.
- The format interpreter `qprint`, variable arguments and `putchar`: only the integer and the string printer matter here.
- The incremental SHA3 wrappers and cSHAKE's block-wise interface beyond what the rows above name: they add only calls.
- StrayState.DigestExact: ranges over all injective maps; that no array but zero is right for all messages over Keccak-f alone would be a statement about its strength.
- Cryptographic strength, timing and memory use: not statements about values.
