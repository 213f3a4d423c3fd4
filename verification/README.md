# Hydro LoRa shield: cipher, packets and radio, verified in Dafny

This project models the backend of the Hydro LoRa shield: the AES-128 library with its CBC and CTR modes, the
packet handler that encrypts, fragments, frames, reassembles and decrypts messages, and the driver of the SX1276
radio with its receive and transmit modes. In-place code stays in place: buffers are arrays, contexts and handlers
are classes whose methods change their fields, and each such method is proved equal to a function of the old state.
The laws are then proved about those functions.

`dafny verify dfyconfig.toml` checks everything.

## How the modules build on each other

- `Bytes`, `Gf256`, `SubstitutionBox`: bytes as numbers, the field GF(2^8), the two tables against FIPS 197.
- `Fips197`, `KeySchedule`: the cipher, its inverse and the key expansion as functions; InvCipher undoes Cipher; the
  schedule runs backwards.
- `Counter`, `Modes`: the 128-bit counter, CTR and CBC as functions with their laws (SP 800-38A).
- `AesBlock`, `AesContext`: the in-place routines and the context class, proved equal to those functions.
- `KnownAnswers`: the example of FIPS 197 appendix C.1, key expansion and encryption round by round.
- `Endianness`, `Frames`, `Padding`, `Fragments`: words in memory, frames and checksum, padding, cutting and joining.
- `Receiving`, `Conservation`, `Delivery`: the receiver as a state machine over received buffers, polls and its own
  sends, and what every run of it keeps.
- `EndToEnd`, `Sessions`: from payload to callback, over any order of arrival and amid any other traffic; the handshake.
- `Handler`: the packet handler class; its methods are the steps of that machine and the sender's half.
- `Modem`, `Sx1276`, `LoRa`: packed configuration registers, the driver over the register file, the mode flag. Each
  driver call is proved equal to a function of the whole register file; lemmas say what those functions mean.

Beside each function that a method is proved equal to stand laws that do not mention it: on the bytes, on the bits, on
literal registers, or for a published example.

A function is hidden in a proof (`hide`) where its definition would only burden the solver.

## Where the code departs from what one would expect

- A message that fills whole blocks gets no padding block. `Padding.StripUndoesPad` gives the exact condition under
  which the padding comes off again: the message's length is no multiple of 16, or its last byte is not 1..15. Below such
  a message is called recoverable. `Padding.UnrecoverableIsCutOrRejected` says what happens otherwise, and
  `Padding.CutMessageExample` is an input that is cut short.
- Packet indices and totals are single bytes. `Fragments.FragmentsMakeMessage` shows that they fit exactly up to
  30345 padded bytes, that is payloads of up to 30336 bytes. The bound is exact: `EndToEnd.PayloadDelivered` up to it, for
  recoverable payloads, `EndToEnd.LongPayloadNeverDelivered` beyond it. At 256 packets the total is 0 and the id is blocked
  (`Conservation.TotalOfZeroBlocks`).
- Duplicates are kept. `Delivery.PutTogetherRight` and `Delivery.PutTogetherExactly` give the exact condition under which
  a message is put together all the same: the packets of it that wait are as many as it has and no two have the same
  fragment id, which nothing checks before line 313 of `lib/packethandler.cpp` adds a packet. `Delivery.DuplicateStandsIn`
  is a run in which it fails, with the frames of a real text; `Conservation.OverfullExactly` says when a duplicate makes
  a group that stays for ever.
- The handshake shares the message's id and announces one packet. The next packet of that id blocks it exactly if no poll
  has come in between (`Sessions.UnpolledHandshakeBlocks`); `Sessions.SomeBlockedExchange` is such a run.
- The sender keys its context with byte-reversed key words, `init` with the words as they lie in memory; the receiver
  installs an IV whose words are byte-reversed with respect to the sender's. Two copies of this program therefore agree
  after a handshake exactly under the condition of `Sessions.HandshakeAgreement`, and never while the receiver has only
  run `init` (`Sessions.NoAgreementBeforeSend`). `Sessions.FramesReachCallback` takes equal contexts as its assumption, as
  between this program and a peer that reverses the words. `Sessions.ExchangeReachesCallback` starts from the handshake's
  frame and shows when two copies understand each other: exactly if the drawn IV words read the same from both ends and
  the padding of the payload comes off. The runs that these theorems speak of exist for every payload
  (`Sessions.SomeDelivery`, `Sessions.SomeExchange`).
- There is one context for both directions and all messages. Another text, another handshake or a send of one's own moves
  its counter. `Sessions.FramesReachCallbackExactly` says, amid any such traffic, when the payload still arrives: exactly
  if the counter at the moment its message is processed is the sender's and the padding comes off.
  `Sessions.SomeSpoiledDelivery` is a run in which a send just before the poll spoils it.
- Frames that are handed to the radio one after the other go out in full exactly if the chip finishes each before the next
  is handed over (`LoRa.TransmittedExactly`); a refused call gives the frame in transmission up, and `send_pkt` repeats
  the new one only.
- The preamble setter cuts the low byte to four bits, so it sets the length given exactly if that byte is below 16
  (`Sx1276.PreambleExactly`).
- The coding-rate constants are shifted twice and fall on the bandwidth field (`Modem.CodingRateMisses`), although
  `lib/lora_sx1276.h:149-152` presents them as the values to pass. In both presets those bits are set already, so
  bandwidth and spreading factor are the intended ones and the coding rate is not changed.
- A send while the chip is still sending puts the radio back to receiving (`LoRa.SendWhileSending`).

## Model

| member | source | states |
|---|---|---|
| Gf256.XtimeIsTimesX | lib/aes.c:294-297 | the shift-and-mask doubling is multiplication by x modulo x^8+x^4+x^3+x+1, and only zero doubles to zero |
| Gf256.MultiplyIsFieldProduct | lib/aes.c:315-336 | `Multiply` is the product in GF(2^8) for multipliers below 32, and for a nonzero factor only for those |
| Gf256.CoefficientLinear | lib/aes.c:350-366 | multiplication by 9, 11, 13 and 14 distributes over sums |
| Gf256.MatrixProduct | lib/aes.c:300-366 | the product of the inverse matrix and the matrix of MixColumns is the identity, entry by entry |
| Gf256.InvMixedUndoesMixed | lib/aes.c:300-366 | the inverse matrix recovers every byte of every mixed column |
| SubstitutionBox.SboxIsStandard | lib/aes.c:79-96 | each of the 256 entries of `sbox` is the affine image of the multiplicative inverse of its index (FIPS 197 section 5.1.1) |
| SubstitutionBox.InvSboxUndoesSbox | lib/aes.c:79-115 | `rsbox[sbox[x]]` is x for all 256 bytes |
| Fips197.AddRoundKeyByte | lib/aes.c:237-247 | byte i of the state is combined with byte 16 * round + i of the round keys |
| Fips197.AddRoundKeyTwice | lib/aes.c:237-247 | adding a round key twice changes nothing |
| Fips197.InvSubBytesUndoes | lib/aes.c:371-381 | the inverse substitution undoes the substitution on every block |
| Fips197.InvShiftRowsUndoes | lib/aes.c:383-409 | the inverse row shift undoes the row shift on every block |
| Fips197.InvMixColumnsUndoes | lib/aes.c:350-366 | InvMixColumns undoes MixColumns on every block |
| Fips197.InvRoundsUndo | lib/aes.c:439-461 | the inverse cipher, entering its round r with the state that round r+1 of the cipher had after its row shift, ends at the plaintext |
| Fips197.InvCipherUndoesCipher | lib/aes.c:413-461 | InvCipher undoes Cipher for every block and every 176 bytes of round keys |
| Fips197.CipherInjective | lib/aes.c:413-436 | under one round-key array different blocks have different ciphertexts |
| KnownAnswers.RoundColumn | lib/aes.c:413-436 | column c of the state after any of the rounds 1 to 9 is the matrix product of the substituted bytes on the diagonal from c, plus word 4 * round + c of the key schedule |
| KnownAnswers.ExampleCiphertext | lib/aes.c:146-436 | the key 00..0f takes the plaintext 00 11 .. ff to 69c4e0d86a7b0430d8cdb78070b4c55a, with all 44 words and every round as in FIPS 197 appendix C.1 |
| KeySchedule.RecurrenceOnBytes | lib/aes.c:146-217 | each word from the fifth on is the bytewise sum of the words one and four before it; for every fourth one the word before is rotated, substituted, and its first byte given a round constant |
| KeySchedule.RoundConstants | lib/aes.c:120-121 | the ten round constants in figures |
| KeySchedule.StepBack | lib/aes.c:161-216 | a word of the schedule and its predecessor give back the word four places earlier |
| KeySchedule.RewindRecoversKey | lib/aes.c:146-217 | any four consecutive words of the schedule lead back to the key |
| KeySchedule.RoundKeyDeterminesKey | lib/aes.c:146-217 | two keys that agree on one of the eleven round keys are equal |
| KeySchedule.KeyExpansionInjective | lib/aes.c:146-217 | different keys have different schedules |
| Counter.IncrementedAddsOne | lib/aes.c:553-563 | the byte-carry loop is addition of one to the big-endian number, wrapping from all 255s to all zeros |
| Counter.FromBytesJoined | lib/aes.c:553-563 | in the number of a counter the bytes before the last n count 256^n times |
| Counter.CounterExample | lib/aes.c:553-563 | the step from f0..feff to f0..ff00, the first two counters of SP 800-38A appendix F.5.1 |
| Counter.NextCounterBlock | lib/aes.c:552-563 | incrementing steps from each counter block to the next, modulo 2^128 |
| Counter.CountersDistinct | lib/aes.c:552-563 | counter blocks repeat only after 2^128 steps |
| Modes.XcryptByte | lib/aes.c:538-569 | byte i is combined with byte i mod 16 of the cipher of the counter whose number is that of the IV plus i div 16, modulo 2^128 |
| Modes.XcryptBlock | lib/aes.c:538-569 | full block k is combined with the cipher of the counter whose number is that of the IV plus k |
| Modes.XcryptLastBlock | lib/aes.c:538-569 | a last block of n < 16 bytes is combined with the first n bytes of the cipher of its counter |
| Modes.CounterAfter | lib/aes.c:549-566 | data that takes k blocks, the last full or not, moves the counter by k modulo 2^128 |
| Modes.XcryptTwice | lib/aes.c:538-569 | CTR applied twice with the same starting counter gives the data back, for every length |
| Modes.XcryptUndoneExactly | lib/aes.c:538-569 | a second call recovers data of a block or more exactly if it starts from the same counter |
| Modes.XcryptSplits | lib/aes.c:538-569 | a CTR call on a++b equals a call on a and then on b when a fills whole blocks, with the same final counter |
| Modes.KeystreamDistinct | lib/aes.c:546-565 | no two of 2^128 consecutive keystream blocks are equal |
| Modes.CbcEncryptBlock | lib/aes.c:501-514 | each ciphertext block is the cipher of its plaintext block plus the ciphertext block before it, or the IV |
| Modes.CbcDecryptBlock | lib/aes.c:516-529 | each plaintext block is the deciphered ciphertext block plus the ciphertext block before it, or the IV |
| Modes.CbcDecryptUndoesEncrypt | lib/aes.c:501-529 | CBC decryption undoes CBC encryption for every number of blocks |
| Modes.CbcEncryptSplits | lib/aes.c:501-514 | consecutive CBC encryption calls equal one call on the concatenation, chaining value included |
| Modes.CbcDecryptSplits | lib/aes.c:516-529 | the same for decryption |
| AesBlock.AddRoundKeyInPlace | lib/aes.c:237-247 | the nested loops add the round key of that number to the block and touch nothing else |
| AesBlock.SubBytesInPlace | lib/aes.c:251-261 | the row-by-row loops substitute every byte of the block |
| AesBlock.InvSubBytesInPlace | lib/aes.c:371-381 | the same with the inverse table |
| AesBlock.ShiftRowsInPlace | lib/aes.c:266-292 | the moves through one temporary shift row r left by r columns |
| AesBlock.InvShiftRowsInPlace | lib/aes.c:383-409 | the moves shift row r right by r columns |
| AesBlock.ShortcutIsMatrix | lib/aes.c:306-311 | the column sum and one doubling give the byte of the {02,03,01,01} matrix product |
| AesBlock.MixColumnInPlace | lib/aes.c:306-311 | one turn of the loop mixes one column in place, although later bytes are computed after earlier ones are overwritten |
| AesBlock.MixColumnsInPlace | lib/aes.c:300-313 | the loop mixes all four columns |
| AesBlock.InverseRows | lib/aes.c:361-364 | the four sums of `Multiply` terms are the rows of the inverse matrix |
| AesBlock.InvMixColumnsInPlace | lib/aes.c:350-366 | the loop applies the inverse matrix to all four columns |
| AesBlock.CipherInPlace | lib/aes.c:413-436 | the round loop computes Cipher of the block at its place in a larger buffer |
| AesBlock.InvCipherInPlace | lib/aes.c:439-461 | the round loop computes InvCipher of the block |
| AesContext.RconIsRoundConstant | lib/aes.c:120-121 | the table holds the powers of x |
| AesContext.ExpandKey | lib/aes.c:146-217 | the loops write the schedule of FIPS 197 section 5.2, all 44 words: the key first, then every four bytes from the sixteen before them as the recurrence with the two tables says, byte by byte |
| AesContext.AesCtx.InitCtx | lib/aes.c:219-222 | the context gets the expanded key |
| AesContext.AesCtx.InitCtxIv | lib/aes.c:224-228 | the context gets the expanded key and the IV |
| AesContext.AesCtx.SetIv | lib/aes.c:229-232 | the first sixteen bytes become the chaining value |
| AesContext.AesCtx.IncrementIv | lib/aes.c:553-563 | the carry loop leaves the incremented counter |
| AesContext.AesCtx.CtrXcryptBuffer | lib/aes.c:538-569 | for every length the loop combines byte i with byte i mod 16 of the cipher of the counter whose number is that of the IV plus i div 16, leaves the rest of the buffer alone, and ends with the counter that is, as a number, as many further as blocks were begun |
| AesContext.AesCtx.CbcEncryptBuffer | lib/aes.c:501-514 | in spite of the pointer into the buffer being written, the result is CBC encryption, and the context ends with the last ciphertext block, the sixteen bytes at the end of the output |
| AesContext.AesCtx.CbcDecryptBuffer | lib/aes.c:516-529 | in-place CBC decryption; the context ends with the last ciphertext block, the sixteen bytes at the end of the input |
| AesContext.XorWithIv | lib/aes.c:492-499 | one block is added to another that does not overlap it |
| Endianness.SwapReversesBytes | lib/packethandler.cpp:25-28 | the masks and shifts reverse the four bytes of a word |
| Endianness.ReversedBytes | lib/packethandler.cpp:22-30 | each of the first words has its four bytes in the opposite order, and the bytes after them stay |
| Endianness.ReversedTwice | lib/packethandler.cpp:22-30 | reversing the words is its own inverse for any word count |
| Endianness.ReversedFixesPalindromes | lib/packethandler.cpp:22-30 | reversing leaves the bytes unchanged exactly when every word reads the same from both ends |
| Endianness.SwapEndianness | lib/packethandler.cpp:22-30 | the loop reverses the first words in place and keeps the bytes after them |
| Endianness.U32ToBytes | lib/packethandler.cpp:162-169 | four words are printed most significant byte first |
| Frames.ComputeChecksum | lib/packethandler.cpp:340-349 | the loop over the 16-bit accumulator, which never overflows for up to 255 bytes, returns 255 minus the sum modulo 256 |
| Frames.SumJoined | lib/packethandler.cpp:340-349 | the sum of joined data is the sum of the sums, so every byte counts once (with Frames.SumOfOne) |
| Frames.SumOfOne | lib/packethandler.cpp:340-349 | one byte counts its value |
| Frames.FrameExample | lib/packethandler.cpp:316-328 | the frame of a text packet of two bytes in full, up to the byte that is never written |
| Frames.AcceptedExactly | lib/packethandler.cpp:351-355 | a checksum byte is accepted exactly if data sum plus byte is 255 modulo 256 |
| Frames.OneChangeDetected | lib/packethandler.cpp:340-355 | changing exactly one data byte changes the checksum |
| Frames.PrintFrame | lib/packethandler.cpp:316-328 | the frame layout, with one byte that is never written |
| Frames.ParseUndoesPrint | lib/packethandler.cpp:273-328 | every packet of at most 119 bytes is read back from its frame, which fits the receive buffer, whatever the unwritten byte and the rest of the buffer hold |
| Frames.OnlyFramesParse | lib/packethandler.cpp:283-304 | an accepted buffer begins with a frame of the packet it is read as |
| Frames.DamagedFrameRejected | lib/packethandler.cpp:300-304 | a frame with exactly one wrong data byte is dropped |
| Padding.PaddedSizeIsLeast | lib/packethandler.cpp:217-218 | the padded size is the least multiple of 16 not below the size |
| Padding.PaddingValueIsDifference | lib/packethandler.cpp:221-223 | the mixed-width padding value is the number of padding bytes |
| Padding.PaddedBytes | lib/packethandler.cpp:217-225 | the message is followed by fewer than sixteen bytes that all say how many they are, up to whole blocks |
| Padding.ValidatePadding | lib/packethandler.cpp:75-104 | the checks over the decrypted buffer compute the length passed to the callback, or reject, including the wrap-around of the start index |
| Padding.StripExactly | lib/packethandler.cpp:75-104 | for every buffer of every length and every n, when n is the length passed on: a proper prefix, the whole buffer, or a wrapped-around length |
| Padding.StripUndoesPad | lib/packethandler.cpp:76-225 | for a non-empty message the padding comes off exactly if the length is not a multiple of 16 or the last byte is outside 1..15 |
| Padding.UnrecoverableIsCutOrRejected | lib/packethandler.cpp:76-104 | otherwise the message loses as many bytes as its last byte says, or is rejected |
| Padding.CutMessageExample | lib/packethandler.cpp:76-225 | sixteen bytes ending in 1 are delivered as fifteen |
| Fragments.FragmentAt | lib/packethandler.cpp:241-264 | packet k holds the k-th slice of 119 bytes, with index and total cut to one byte |
| Fragments.FragmentFields | lib/packethandler.cpp:235-264 | the number of packets and all fields of the k-th in figures |
| Fragments.FragmentSizes | lib/packethandler.cpp:241-264 | all packets but the last are full and the last is not empty |
| Fragments.FragmentsJoin | lib/packethandler.cpp:235-264 | the packets' data, joined in order, is the message |
| Fragments.FragmentsMakeMessage | lib/packethandler.cpp:235-250 | the packets are numbered from 0 and carry their number exactly up to 255 packets; beyond that the total is wrong |
| Receiving.SortIsUnique | lib/packethandler.cpp:41-43 | packets with distinct fragment ids have only one sorted order, so the library's sort has no choice |
| Receiving.HandshakeBytes | lib/packethandler.cpp:110-117 | the counter becomes the first sixteen bytes with each word reversed, the IV words take as many of them as the first packet was long, and nothing else changes |
| Receiving.RestartedFields | lib/packethandler.cpp:171-230 | after a send the counter is, as a number, the printed IV plus the padded message's blocks; IV words and round keys are the new ones, and calls stay |
| Receiving.SenderKeyBytes | lib/packethandler.cpp:162-184 | the sender's key bytes are the key words as they are written in the program |
| Conservation.EveryRunConserves | lib/packethandler.cpp:32-145 | over every run, with any frames, polls and sends, groups are non-empty and hold packets of their id only, and each packet is held or freed exactly as often as it was accepted |
| Conservation.OverfullExactly | lib/packethandler.cpp:306-313 | a packet makes its group overfull exactly if the group was so already, was complete and unpolled, or is new with an announced total of 0 |
| Conservation.TotalOfZeroBlocks | lib/packethandler.cpp:237-238 | a message of 256 packets, or a multiple, is never put together, whichever packet comes first |
| Conservation.OverfullForever | lib/packethandler.cpp:34-37 | a group that has outgrown the total of its first packet stays for ever |
| Delivery.CompleteMeansAll | lib/packethandler.cpp:37 | with one delivery per packet a group is complete exactly if all packets of its message have arrived |
| Delivery.HandledAreMessages | lib/packethandler.cpp:37-62 | what a poll puts together is the message, packet for packet, whatever the order of arrival |
| Delivery.EveryRunOnTrack | lib/packethandler.cpp:32-145 | at every point of every such run each message either waits with what has arrived or has been put together once from all of it |
| Delivery.NotBeforeTheLast | lib/packethandler.cpp:37-62 | no message is put together before its last packet has arrived, nor twice |
| Delivery.EveryMessageDelivered | lib/packethandler.cpp:32-145 | when all packets are in and a poll has followed, nothing is held and each message has been put together exactly once |
| Delivery.PutTogetherRight | lib/packethandler.cpp:37-62 | a complete group of a message's packets, duplicates or not, is put together as the message exactly if no two of them have the same fragment id |
| Delivery.HandledExactly | lib/packethandler.cpp:34-62 | the same for every group a poll handles |
| Delivery.PollPutsTogether | lib/packethandler.cpp:34-62 | a poll puts a message together exactly if it finds as many packets of it as it has, no two with the same id |
| Delivery.GroupIsHeld | lib/packethandler.cpp:32-313 | over every run what waits under an id is determined by the receptions and polls: the packets accepted since a poll last found enough of them |
| Delivery.PutTogetherExactly | lib/packethandler.cpp:32-313 | over every run, however often and in whatever order packets arrive, a message is put together once for each poll that finds its packets intact, and at no other time |
| Delivery.EveryReassembly | lib/packethandler.cpp:32-145 | whatever is put together has as many packets as its message and only packets of it, and is the message exactly if no two share an id |
| Delivery.MessageInFlight | lib/packethandler.cpp:32-313 | over every run, whatever else arrives: as long as the packets of one message are accepted at most once, its group holds what has arrived, and a poll handles it exactly if all has arrived, once, in fragment order |
| Delivery.MessageDelivered | lib/packethandler.cpp:32-313 | if the packets of one message are accepted once each and a poll follows, exactly one poll puts it together and nothing of it stays, whatever other ids do |
| Delivery.NothingElseHeld | lib/packethandler.cpp:32-313 | a receiver that held nothing and accepted packets of one id only holds nothing when nothing of that id is left |
| Delivery.DuplicateStandsIn | lib/packethandler.cpp:306-313 | for every text of two packets there is a run in which the first, accepted twice, takes the place of the second |
| EndToEnd.OtherKindsDropped | lib/packethandler.cpp:64-138 | a message of another kind, or a text while no callback is set, changes nothing |
| EndToEnd.EveryRunEndpoint | lib/packethandler.cpp:64-188 | if the other messages put together are of inert kinds, context and callbacks change exactly by sends and by the one poll that puts the message together |
| EndToEnd.EveryRunRoundKey | lib/packethandler.cpp:13-188 | over every run the round keys are the initial ones until the first send and those of the byte-reversed key from then on |
| EndToEnd.EveryRunCalls | lib/packethandler.cpp:64-138 | over every run calls are only added |
| EndToEnd.ProcessRecoversPayload | lib/packethandler.cpp:64-271 | decrypting and unpadding the packets of a payload with the sender's context moves the counter behind it and hands exactly the payload to the callback, if and only if the payload is recoverable (no multiple of 16 in length, or not ending in 1..15) |
| EndToEnd.ProcessExactly | lib/packethandler.cpp:64-271 | with the sender's round keys the callback gets the payload exactly if the counter too is the sender's and the payload is recoverable |
| EndToEnd.PayloadDelivered | lib/packethandler.cpp:32-271 | over every run in which the packets of a payload of 1 to 30336 bytes are accepted once each, nothing is sent and what else is put together is inert, the context ends behind the payload, and exactly the payload reaches the callback if and only if it is recoverable |
| EndToEnd.PayloadDeliveredExactly | lib/packethandler.cpp:32-271 | amid any traffic (other texts and handshakes, duplicates, sends of the receiver) one poll processes the payload, and makes the call with it exactly if the counter at that moment is the one it was encrypted with and the payload is recoverable |
| EndToEnd.PayloadAmongInert | lib/packethandler.cpp:32-271 | among inert messages and sends, the payload and nothing else reaches the callback exactly if the sends before that poll leave the counter it was encrypted with and it is recoverable |
| EndToEnd.EveryCallFits | lib/packethandler.cpp:32-138 | over every run, whatever arrives, no call is made with more than 30345 bytes |
| EndToEnd.LongPayloadNeverDelivered | lib/packethandler.cpp:205-271 | a payload of more than 30336 bytes never reaches the callback in its padded form |
| Sessions.FramesReachCallback | lib/packethandler.cpp:32-335 | the frames of a payload, received once each in any order, among anything that puts only inert messages together and without sends, by a receiver with equal context and any history: the contexts agree again at the end, and exactly the payload reaches the callback if and only if it is recoverable |
| Sessions.FramesReachCallbackExactly | lib/packethandler.cpp:32-335 | amid any traffic one poll makes the call with the payload exactly if the receiver's counter at that moment is the sender's and the payload is recoverable |
| Sessions.FramesAmongInert | lib/packethandler.cpp:32-335 | the same for the whole run and all calls, when what else is put together is inert and sends may come between |
| Sessions.HandshakeFrameReceived | lib/packethandler.cpp:190-304 | the handshake's frame is read as the handshake packet |
| Sessions.HandshakeFrameBytes | lib/packethandler.cpp:190-203 | the 25 bytes of a handshake's frame but the one never written: header, kind 1, id, index 0 of 1, length 16, the IV words most significant byte first, checksum |
| Sessions.HandshakeWords | lib/packethandler.cpp:110-117 | the receiver's IV words become the sender's, its context's counter their wordwise byte reversal |
| Sessions.HandshakeAgreement | lib/packethandler.cpp:171-203 | after a handshake two copies of the program have equal contexts exactly if the receiver has expanded the byte-reversed key and the IV words are palindromes |
| Sessions.InitNeverAgrees | lib/packethandler.cpp:13-16 | with the compiled-in key a receiver that has only run init never has the sender's round keys |
| Sessions.NoAgreementBeforeSend | lib/packethandler.cpp:13-188 | after init the round keys are a sender's exactly from the first send on |
| Sessions.HandshakeThenPoll | lib/packethandler.cpp:110-140 | a handshake followed by a poll, before any other packet of its id and with only inert messages put together beside it, is processed and leaves nothing behind |
| Sessions.HandshakeHeld | lib/packethandler.cpp:193-313 | until another packet of its id arrives, whatever else happens, the handshake is held exactly as long as there is no poll |
| Sessions.UnpolledHandshakeBlocks | lib/packethandler.cpp:193-313 | the next packet of the handshake's id, whatever comes between, makes a group that never completes exactly if no poll came first (or it announces 0 packets) |
| Sessions.ExchangeReachesCallback | lib/packethandler.cpp:32-335 | handshake frame, poll, frames in any order and a last poll, among anything that puts only inert messages together, between two copies with the same round keys: exactly the payload reaches the callback if and only if the IV words are palindromes and the payload is recoverable |
| Sessions.SomeDelivery | lib/packethandler.cpp:32-335 | for every payload of 1 to 30336 bytes, receiver and counter there are frames and a run as the delivery theorems ask for, and in it the payload arrives exactly if the counters agree and it is recoverable |
| Sessions.SomeSpoiledDelivery | lib/packethandler.cpp:171-188 | for every such payload there is a run with a send just before the poll, and in it the payload arrives only if the send leaves the counter where it was |
| Sessions.SomeBlockedExchange | lib/packethandler.cpp:193-313 | for every such payload there is a run in which its first packet follows the handshake without a poll, and its group is overfull from then on |
| Sessions.SomeExchange | lib/packethandler.cpp:32-335 | for every such payload and random bytes there is a run of the whole exchange, and in it the payload arrives exactly if the IV words are palindromes and it is recoverable |
| Handler.PacketHandler.Init | lib/packethandler.cpp:13-16 | the context gets the key words and IV words as they lie in memory |
| Handler.PacketHandler.EncryptionHandshake | lib/packethandler.cpp:171-203 | new IV words, context with byte-reversed key and IV, and one handshake frame |
| Handler.PacketHandler.Pad | lib/packethandler.cpp:217-225 | the buffer holds the message and the padding bytes |
| Handler.PacketHandler.SplitIntoPackets | lib/packethandler.cpp:235-264 | the loop queues exactly the packets of the message with their checksums, for every size |
| Handler.PacketHandler.Transmit | lib/packethandler.cpp:268-270 | one frame for each queued packet, in order |
| Handler.PacketHandler.Send | lib/packethandler.cpp:205-271 | handshake, encryption, queueing and transmission as one new state of the handler, which is the step Send of its receiving side |
| Handler.QueuedEntries | lib/packethandler.cpp:258-270 | the packets, each with its checksum, come after those pending under the id, and no other entry changes |
| Handler.PacketHandler.ReadPacket | lib/packethandler.cpp:283-304 | header and checksum decide; the fields are read back |
| Handler.PacketHandler.Receive | lib/packethandler.cpp:273-314 | a failed reception changes nothing; an accepted packet joins the group of its id |
| Handler.PacketHandler.Reassemble | lib/packethandler.cpp:45-62 | the copy loops produce the concatenation of the sorted packets |
| Handler.PacketHandler.ProcessGroup | lib/packethandler.cpp:64-138 | decrypt, check and call back for a text; install the IV for a handshake; nothing for the rest |
| Handler.PacketHandler.Poll | lib/packethandler.cpp:32-145 | all complete groups, each once and in an arbitrary order, are sorted, processed, freed and erased; the others stay |
| Handler.SendReachesCallback | lib/packethandler.cpp:32-335 | what Send leaves and emits under a fresh id reaches the callback of a receiver with the sender's context exactly if the payload is recoverable, under the conditions of Sessions.FramesReachCallback |
| Handler.SentExchangeReachesCallback | lib/packethandler.cpp:32-335 | all that Send emits, the handshake's frame first, reaches the callback of a second copy that has sent before exactly if the drawn IV words are palindromes and the payload is recoverable, under the conditions of Sessions.ExchangeReachesCallback |
| Modem.LowDataRateBits | lib/lora_sx1276.cpp:186-202 | the third configuration register is 0x0c if the second is 0xb0 or more and the first has 7 in its upper nibble, else 0x04 |
| Modem.ClampedIsNearest | lib/lora_sx1276.cpp:353-361 | spreading factors 6 to 12 stay, lower ones become 6 and higher ones 12 |
| Modem.BandwidthField | lib/lora_sx1276.cpp:339-351 | the setter changes the bandwidth field and no other, cutting any value to four bits |
| Modem.SpreadingFactorField | lib/lora_sx1276.cpp:353-377 | the setter changes the spreading factor, clamped to 6..12, and no other field |
| Modem.CrcField | lib/lora_sx1276.cpp:379-392 | the setter changes the checksum bit only |
| Modem.HeaderField | lib/lora_sx1276.cpp:242-258 | the setters change the header mode only |
| Modem.CodingRateField | lib/lora_sx1276.cpp:394-403 | for every rate: the low three bits are added to the coding rate, the next four to the bandwidth, and no other field changes |
| Modem.CodingRateMisses | lib/lora_sx1276.cpp:394-403 | no coding-rate constant reaches its field; the call has the intended effect exactly if the rate was set already and the bandwidth covers the stray bits |
| Modem.EveryRunOfSetters | lib/lora_sx1276.cpp:186-392 | after any sequence of setter calls each field holds the value set last, the other fields are untouched, the low-data-rate bit is set exactly for spreading factor 11 and up at 125 kHz, and the detection registers match whether the factor is 6 |
| Sx1276.Radio.WriteRegister | lib/lora_sx1276.cpp:108-118 | one register takes the value, a one written to an interrupt flag clears it, and no other register changes |
| Sx1276.WrittenBits | lib/lora_sx1276.cpp:108-118 | a write to the flags clears exactly the bits of the value; a write elsewhere is read back |
| Sx1276.Radio.SetLowDataRateOptimization | lib/lora_sx1276.cpp:186-202 | the third configuration register follows bandwidth and spreading factor; nothing else changes |
| Sx1276.Radio.SetSignalBandwidth | lib/lora_sx1276.cpp:339-351 | read-modify-write of the bandwidth nibble; nothing outside the modem's registers changes |
| Sx1276.Radio.SetSpreading | lib/lora_sx1276.cpp:353-377 | detection registers and spreading-factor nibble |
| Sx1276.Radio.SetCrcMode | lib/lora_sx1276.cpp:379-392 | read-modify-write of the checksum bit |
| Sx1276.Radio.SetImplicitHeader | lib/lora_sx1276.cpp:242-258 | read-modify-write of the header bit |
| Sx1276.Radio.ModeReceiveContinuous | lib/lora_sx1276.cpp:211-221 | OP_MODE 0x85, receive flags cleared, base address set, all else kept |
| Sx1276.ListeningFields | lib/lora_sx1276.cpp:211-221 | reception in literal register values |
| Sx1276.Radio.SendPacket | lib/lora_sx1276.cpp:429-462 | busy leaves everything alone; otherwise the packet lies in the packet memory from the base address, its length is set and OP_MODE is TX |
| Sx1276.SendingFields | lib/lora_sx1276.cpp:429-462 | transmission in literal register values, with the pointer behind the packet |
| Sx1276.Radio.ReceivePacket | lib/lora_sx1276.cpp:545-595 | on the bits of the flags: timeout if bit 7 is set; else good if bits 6 and 4 are set and 5 is not, checksum error if all three are, invalid header if 6 is set and 4 is not, empty if 6 is not; a good packet is copied from where the chip put it, and the four receive flags are cleared |
| Sx1276.StatusOnBits | lib/lora_sx1276.cpp:556-582 | the driver's tests in their order give one answer for each pattern of the four receive flags |
| Sx1276.FetchedFields | lib/lora_sx1276.cpp:552-582 | a fetch clears the four receive flags; the pointer moves behind a good packet and not otherwise; no other register changes |
| Sx1276.Radio.AwaitPacket | lib/lora_sx1276.cpp:612-621 | the wait ends at once for a packet that is there, else with the first reception, else without one |
| Sx1276.Radio.ReceivePacketBlocking | lib/lora_sx1276.cpp:607-624 | what is fetched is the packet that was there, or the first one received during the wait, byte for byte, or nothing; the answer is on the bits of the flags as for a single fetch |
| Sx1276.Radio.SetTxPower | lib/lora_sx1276.cpp:260-307 | both output pins: amplifier mode, current limit and level for 2..20 dBm, or the level alone |
| Sx1276.BoostPowerSet | lib/lora_sx1276.cpp:260-307 | on PA_BOOST the level plus what the amplifier mode adds is the requested power held to 2..20 dBm |
| Sx1276.RfoPowerSet | lib/lora_sx1276.cpp:260-275 | on RFO the level is the requested power held to 15 |
| Sx1276.Radio.SetPreambleLength | lib/lora_sx1276.cpp:405-411 | high byte and low four bits of the length |
| Sx1276.PreambleSet | lib/lora_sx1276.cpp:405-411 | the registers hold the length without bits 4 to 7 |
| Sx1276.PreambleExactly | lib/lora_sx1276.cpp:405-411 | the two registers hold the length exactly if its low byte is below 16 |
| Sx1276.Radio.SetFrequency | lib/lora_sx1276.cpp:309-319 | the three frequency registers |
| Sx1276.FrequencyProgrammed | lib/lora_sx1276.cpp:314-318 | they hold the frequency word modulo 2^24 |
| Sx1276.FrequencyWithinOneStep | lib/lora_sx1276.cpp:313-314 | the programmed frequency is less than one step of 32 MHz / 2^19 below the requested one |
| Sx1276.FrequencyExample | lib/lora_sx1276.cpp:309-319 | 868 MHz is D9 00 00 in the three registers |
| Sx1276.Radio.LoraInit | lib/lora_sx1276.cpp:653-695 | a wrong version changes nothing; otherwise the whole register file after start-up |
| Sx1276.StartUpFields | lib/lora_sx1276.cpp:673-692 | start-up means standby, the given frequency, spreading factor 7, explicit header, preamble 10, boosted receive amplifier, 17 dBm and derived registers that fit, whatever the chip held before |
| Sx1276.StartUpRegisters | lib/lora_sx1276.cpp:673-692 | all 128 registers after start-up at 868 MHz, by address and value |
| LoRa.EveryRunAgrees | lib/lora.cpp:9-116 | over every run of presets, sends, interrupts and the chip's own step the mode flag agrees with OP_MODE and DIO mapping |
| LoRa.InterruptRestoresReceive | lib/lora.cpp:9-13 | an interrupt at the end of any run leaves the radio receiving |
| LoRa.SendWhileSending | lib/lora.cpp:86-99 | a send is refused exactly while the chip is sending, and then puts the radio back to receiving |
| LoRa.SecondTrySucceeds | lib/packethandler.cpp:330-335 | repeating a send succeeds at the second call at the latest, and the frame in transmission before is given up |
| LoRa.TransmittedExactly | lib/packethandler.cpp:268-337 | of frames handed over one after the other, exactly those go out in full, in order, that the chip finishes before the next is handed over |
| LoRa.LongRangeSet | lib/lora.cpp:52-67 | the long-range preset means spreading factor 8, 62.5 kHz, checksum on, 20 dBm, preamble 10, other fields kept, receiving |
| LoRa.ShortRangeSet | lib/lora.cpp:69-84 | the short-range preset means spreading factor 7, 125 kHz, checksum off, 10 dBm, preamble 5, other fields kept, receiving |
| LoRa.LongRangeRegisters | lib/lora.cpp:52-67 | all 128 registers after the long-range preset, by address and value |
| LoRa.ShortRangeRegisters | lib/lora.cpp:69-84 | all 128 registers after the short-range preset, by address and value |
| LoRa.LowByteOf | lib/lora_sx1276.cpp:429-431 | a length below 256 is handed to the driver as it is, and 256 more make no difference |
| LoRa.NothingThereYet | lib/lora.cpp:9-19 | after a transmission no packet can be there when the interrupt routine begins to wait |
| LoRa.LoRaShield.SetReceiveMode | lib/lora.cpp:107-111 | flag, OP_MODE 0x85 and DIO mapping 0x00 |
| LoRa.LoRaShield.SetTransmitMode | lib/lora.cpp:113-116 | flag and DIO mapping 0x40 |
| LoRa.LoRaShield.Init | lib/lora.cpp:25-50 | a failed GPIO set-up leaves the radio alone; otherwise, whatever lora_init returns, the radio ends up receiving |
| LoRa.LoRaShield.SetLongRange | lib/lora.cpp:52-67 | the register file after the long-range preset, receiving |
| LoRa.LoRaShield.SetShortRange | lib/lora.cpp:69-84 | the register file after the short-range preset, receiving |
| LoRa.LoRaShield.SendFrame | lib/lora.cpp:86-99 | success exactly if the chip is not sending; the control state is that of the step Send; of up to 255 bytes all are in the packet memory with the length register at their number, and longer ones have their length cut to one byte |
| LoRa.LoRaShield.SendUntilAccepted | lib/packethandler.cpp:330-335 | the loop ends after one call, or two if the chip was sending, with the frame in the packet memory and in transmission; of up to 255 bytes all of it |
| LoRa.LoRaShield.HandleInterrupt | lib/lora.cpp:9-19 | a finished transmission gives way to reception; a packet that is there, or the first one received within 500 ms, is fetched, with the answer on the bits of the flags |

## Left out

- Sockets, threads, command dispatch and `main`: payload bytes are inputs.
- `rand()` and `time()`: message ids and IV bytes are inputs of `Send`; expiry and `PacketHandler::clean` are not modelled.
- Hash-table internals: `received` and `messages` are maps by message id. In the source equality ignores the expiration
  but the hash does not; the model takes entries with equal ids to be found.
- Interleaving inside one operation: receive, poll, send and the radio calls are whole steps.
- SPI transfers, GPIO registration, sleeps and wall-clock time; the wait of the blocking send, which nothing calls.
- The allocator: `malloc` and `new` succeed, and `free` is recorded as the packets leaving a group.
- `static` IV words: one handler per process, so the words are a field of the handler.
- AES-192 and AES-256, which `lib/aes.h` does not select, and the DMA transfer mode, whose completion calls throw.
- Handler.PacketHandler.Receive: a length byte above 119 would overrun the packet's data array, so buffers with the
  header and such a length are excluded.
- Handler.PacketHandler.ReadPacket: likewise.
- Handler.PacketHandler.Poll: an empty text message, or a handshake of fewer than 16 bytes or with a first packet of more
  than 16, would be read or written out of bounds, so complete groups of these kinds are excluded. The first packet's
  length is read after it is freed; the model uses its value from before.
- Handler.PacketHandler.ProcessGroup: likewise.
- Sx1276.Radio.ReceivePacket: a packet of 255 bytes would wrap the one-byte transfer length around and be copied out of
  bounds, and the buffer's size is ignored by the source; packets of these lengths are excluded.
- Sx1276.Radio.ReceivePacketBlocking: the same lengths are excluded, also of packets received during the wait.
- LoRa.LoRaShield.HandleInterrupt: likewise.
- Sx1276.Radio.AwaitPacket: one look at the flags and one step of the chip per millisecond stand for the wait.
- Handler.PacketHandler.SendPkt: records the frame handed to the radio; what becomes of it there is LoRa.TransmittedExactly.
- Handler.PacketHandler.Send: messages within 128 bytes of 2^32 are excluded, since the 32-bit sizes would wrap around.
- AesContext.AesCtx.CbcEncryptBuffer: lengths are whole blocks, as `lib/aes.h:69` demands; likewise for decryption.
- `lora_set_rx_symbol_timeout`, `lora_packet_rssi`, `lora_packet_snr`, single receive mode and the register dump.
