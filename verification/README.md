# Models of the access-control library's byte-level core

This project models four groups of routines of the library and proves what they are for.

* **DES, triple DES and the CRCs** (`Fips46`, `Des`, `DesComplement`, `DesBlocks`, `DesCipher`, `Crc`). `Fips46` states
  the cipher of FIPS 46-3 bit by bit. `Des` and `DesBlocks` say what the word-level code computes and prove that it is
  that cipher, that deciphering undoes enciphering, the complementation property and the laws of EDE. `DesCipher` has
  the routines with their loops and in-place arrays. `Crc` compares four CRC routines with one bit-by-bit division.
* **Secure messaging and CMAC** (`SecureMessaging`, `SecureRuns`, `SecureChannel`, `SecureSession`, `Cmac`,
  `CmacMac`, `CmacUnits`). The block cipher, the MAC and the key derivation are parameters. Against a card that follows
  sections 5.2.2.2 and 6 of ISO/IEC 7816-4, the theorems say for every APDU whether the card reads what was sent, and
  what holds over whole runs of a session on a wire that loses, repeats, reorders and brings in messages. The CMAC code
  is compared with sections 6.1 and 6.2 of NIST SP 800-38B.
* **The serial port** (`SerialSteps`, `SerialPort`): a machine of atomic steps, whose laws hold in all interleavings,
  and the object whose methods are those steps.
* **Codecs** (`TlvTrees`, `TlvObjects`, `Ndef`, `NdefTlv`, `NdefObjects`, `PositionSearch`, `Base64`, `Base64Loops`):
  each a writer and a reader, with the exact condition under which reading undoes writing.

`Arithmetic`, `BitStrings` and `Bytes` hold what they share. Where the source updates objects, buffers or loop
variables, a class or a method with a loop does the same and is proved against a function; the theorems are about the
functions. A read or pop outside a buffer, which the source does not check, is an outcome of its own (`Undefined`,
`OutOfBounds` or `Outside`).

Where code and intent part, the model follows the code and a theorem says exactly where they part:

* `encrypt_apdu` keeps the Lc byte in the plaintext when an APDU has both data and Le, and takes a lone Le of zero for
  data (`SecureMessaging.CommandSurvives`).
* `encrypt_apdu` and `decrypt_rapdu` take one raw byte for the length of a data object, which is the length of section
  5.2.2.2 of ISO/IEC 7816-4 only up to 127. The card refuses every command with a longer data object, and
  responses with a longer one are not read under every cipher and MAC (`SecureMessaging.CommandSurvives`,
  `SecureMessaging.ReplySurvivesExactlyWhen`).
* An empty write can put two writes in flight (`SerialSteps.ConservedExactlyWhen`).
* `TLV::compute` writes lengths above 0x80 in one byte, which `parse_tlvs` takes for the long form
  (`TlvTrees.RoundTripExactlyWhenShort`).
* NDEF ids are written after the payload and read before it, long lengths are written big-endian and read
  little-endian with one more byte skipped, and a record must start with four bytes (`Ndef.RoundTripExactlyWhen`).
* The strict switch of `parse_tlvs` does not notice a last node that is cut right behind its length
  (`TlvTrees.StrictExactlyWhen`).
* A null TLV of one byte is skipped together with the byte after it (`NdefTlv.FoundBehindNullsExactlyWhen`), and the
  search need not end in large areas (`NdefTlv.EndsExactlyWhen`, `NdefTlv.RestartBySize`).
* A padding unit of several blocks, and a forced K2, can give another MAC than the standard's
  (`CmacUnits.StandardExactlyWhen`, `CmacUnits.TwoBlockUnits`).
* `reset()` leaves the session keys and the counter usable (`SecureSession.WrapAfterReset`).

`dafny verify dfyconfig.toml` checks the whole project.

## Model

| member | source | states |
|---|---|---|
| Des.IpLookupsAreSwaps | plugins/logicalaccess/plugins/crypto/des.cpp:2380-2409 | for every block, the exclusive-or of eight table lookups equals the masked-swap form of the initial permutation, when each table row holds the images of lone bytes |
| Des.FpLookupsAreSwaps | plugins/logicalaccess/plugins/crypto/des.cpp:2431-2456 | the same for the final permutation |
| Des.SwapsAreIp | plugins/logicalaccess/plugins/crypto/des.cpp:2380-2401 | the masked swaps are the initial permutation IP of FIPS 46-3, each half coming out rotated left by one bit |
| Des.SwapsAreFp | plugins/logicalaccess/plugins/crypto/des.cpp:2431-2461 | the final swaps on the rotated halves, with the exchange of the two block words, are the final permutation of FIPS 46-3 |
| Fips46.PermutationsInvert | plugins/logicalaccess/plugins/crypto/des.cpp:2380-2456 | the initial and final permutation of the standard, as written down bit by bit, are inverse; the two laws below rest on it |
| Des.IpUndoesFp | plugins/logicalaccess/plugins/crypto/des.cpp:2380-2461 | the initial swaps undo the final ones up to the exchange of the words |
| Des.FpUndoesIp | plugins/logicalaccess/plugins/crypto/des.cpp:2380-2461 | the final swaps undo the initial ones up to the exchange of the words |
| Des.RoundIsF | plugins/logicalaccess/plugins/crypto/des.cpp:2413-2428 | one half-round on a rotated half and a cooked key is the cipher function f(R, K) of FIPS 46-3, rotated; for every half, every round key and any S-boxes the tables combine |
| Des.LookupsAreP | plugins/logicalaccess/plugins/crypto/des.cpp:2416-2420 | the exclusive-or of the eight table words is the permutation P of the eight S-box outputs |
| Des.XoredGroups | plugins/logicalaccess/plugins/crypto/des.cpp:2415-2418 | the bits used as table indices are the six-bit groups B1..B8 of E(R) xor K |
| Des.KeyBitsAgree | plugins/logicalaccess/plugins/crypto/des.cpp:2268-2273 | the mask test on a key byte reads the bit the standard numbers from the left |
| Des.RotationsAgree | plugins/logicalaccess/plugins/crypto/des.cpp:2286-2310 | reading once at the total rotation gives the halves C and D that the standard reaches by successive shifts |
| Des.ChoicesAgree | plugins/logicalaccess/plugins/crypto/des.cpp:2311-2321 | the 48 bits chosen in round i are the standard's permuted choice of C and D after i + 1 shifts |
| Des.RawWordIsOctets | plugins/logicalaccess/plugins/crypto/des.cpp:2311-2321 | or-ing in one mask per set bit writes exactly the three octets that the 24 chosen bits spell |
| Des.RoundPairIsRoundKey | plugins/logicalaccess/plugins/crypto/des.cpp:2268-2357 | each cooked pair of words holds the standard's round key, for every key |
| Des.ScheduleIsStandard | plugins/logicalaccess/plugins/crypto/des.cpp:2262-2325 | EN0 gives the sixteen round keys of FIPS 46-3 in order and DE1 the same keys in the opposite order, cooked |
| Des.SchedulesMirror | plugins/logicalaccess/plugins/crypto/des.cpp:2276-2283 | the DE1 schedule is the EN0 schedule with its sixteen word pairs reversed, and conversely |
| Des.RoundsAreFeistel | plugins/logicalaccess/plugins/crypto/des.cpp:2413-2428 | n half-rounds are n rounds of the standard's Feistel network |
| Des.DesfuncIsStandard | plugins/logicalaccess/plugins/crypto/des.cpp:2369-2462 | the whole block routine is the standard's transformation under the same sixteen keys |
| Des.RoundsRetrace | plugins/logicalaccess/plugins/crypto/des.cpp:2413-2428 | from the exchanged final halves, m rounds with the mirrored keys lead back to the exchanged halves after 16 - m rounds |
| Des.DesfuncUndone | plugins/logicalaccess/plugins/crypto/des.cpp:2369-2462 | with mirrored keys the block routine undoes itself, whatever the tables hold |
| DesComplement.ComplementOfRound | plugins/logicalaccess/plugins/crypto/des.cpp:2415-2420 | a complemented half against a complemented round key selects the same table words |
| DesComplement.ComplementOfRounds | plugins/logicalaccess/plugins/crypto/des.cpp:2413-2428 | rounds from complemented halves under complemented keys give complemented halves |
| DesComplement.ComplementOfDesfunc | plugins/logicalaccess/plugins/crypto/des.cpp:2369-2462 | the block routine on the complemented block under a complemented schedule gives the complemented result |
| DesComplement.ComplementOfSchedule | plugins/logicalaccess/plugins/crypto/des.cpp:2262-2357 | complementing every key bit complements all the key bits that reach the rounds, through selection, rotation, choice and cooking, in both directions |
| DesBlocks.DecryptUndoesEncrypt | plugins/logicalaccess/plugins/crypto/des.cpp:2554-2587 | for every 8-byte key, block and table contents, deciphering undoes enciphering and enciphering undoes deciphering |
| DesBlocks.LoadIsNumber | plugins/logicalaccess/plugins/crypto/des.cpp:2560-2561 | the two loaded words are the block as the number the standard works on, its first byte the most significant |
| DesBlocks.CipherIsStandard | plugins/logicalaccess/plugins/crypto/des.cpp:2554-2587 | with tables combined from S-boxes, enciphering and deciphering a block are those of FIPS 46-3 on the 64-bit number its bytes spell |
| DesBlocks.Complementation | plugins/logicalaccess/plugins/crypto/des.cpp:2554-2587 | complementing key and block complements the result, both ways |
| DesBlocks.Ecb3IsThreeEcb | plugins/logicalaccess/plugins/crypto/des.cpp:2596-2634 | three passes over the loaded words equal three single-block operations |
| DesBlocks.TripleIsEde | plugins/logicalaccess/plugins/crypto/des.cpp:2509-2634 | for single keys k1, k2, k3: under the 24 bytes k1 k2 k3 the triple operations are encrypt-decrypt-encrypt and its reverse, section 3 of SP 800-67; under the 16 bytes k1 k2 the third key is k1 again |
| DesBlocks.Decrypt3UndoesEncrypt3 | plugins/logicalaccess/plugins/crypto/des.cpp:2596-2634 | triple deciphering undoes triple enciphering and conversely, for every 16- and 24-byte key |
| DesBlocks.EqualKeysCollapse | plugins/logicalaccess/plugins/crypto/des.cpp:2509-2634 | two equal adjacent keys cancel and leave single DES under the remaining one, both ways |
| DesBlocks.TripleComplementation | plugins/logicalaccess/plugins/crypto/des.cpp:2596-2611 | complementation for triple DES |
| DesCipher.SelectBits | plugins/logicalaccess/plugins/crypto/des.cpp:2268-2273 | the loop leaves the 56 selected key bits in pc1m |
| DesCipher.ReadKeyBit | plugins/logicalaccess/plugins/crypto/des.cpp:2270-2272 | the mask test reads the numbered bit of the key that starts at the given place |
| DesCipher.RotateInto | plugins/logicalaccess/plugins/crypto/des.cpp:2288-2310 | the two loops leave both halves rotated by the total rotation, the halves not mixing |
| DesCipher.MarkBit | plugins/logicalaccess/plugins/crypto/des.cpp:2313-2320 | one word gains the mask when the bit is set; the other words stay |
| DesCipher.ChooseInto | plugins/logicalaccess/plugins/crypto/des.cpp:2287-2321 | the loop writes the two raw words of a round and nothing else in kn |
| DesCipher.CookFirst | plugins/logicalaccess/plugins/crypto/des.cpp:2347-2350 | the four or-assignments build the first cooked word |
| DesCipher.CookSecond | plugins/logicalaccess/plugins/crypto/des.cpp:2351-2354 | the four or-assignments build the second cooked word |
| DesCipher.Cookey | plugins/logicalaccess/plugins/crypto/des.cpp:2338-2358 | every output pair is the rearrangement of its raw pair; the raw words stay |
| DesCipher.Deskey | plugins/logicalaccess/plugins/crypto/des.cpp:2262-2325 | the output array holds the schedule of the eight key bytes at the given place, for either direction |
| DesCipher.DesfuncInPlace | plugins/logicalaccess/plugins/crypto/des.cpp:2369-2462 | the two words of the block become what the standard-proved function gives; the keys stay |
| DesCipher.LoadInto | plugins/logicalaccess/plugins/crypto/des.cpp:2560-2561 | the eight bytes become two big-endian words |
| DesCipher.StoreFrom | plugins/logicalaccess/plugins/crypto/des.cpp:2563-2564 | the two words become eight big-endian bytes |
| DesCipher.EcbPass | plugins/logicalaccess/plugins/crypto/des.cpp:2554-2587 | load, one pass of desfunc and store give the single-block operation |
| DesCipher.DesKey.constructor | plugins/logicalaccess/plugins/crypto/des.cpp:2480-2499 | a key object with arrays of its own |
| DesCipher.Des3Key.constructor | plugins/logicalaccess/plugins/crypto/des.cpp:2509-2545 | a key object with six arrays of its own |
| DesCipher.DesKey.Setup | plugins/logicalaccess/plugins/crypto/des.cpp:2480-2499 | refuses round counts other than 0 and 16 and key lengths other than 8, in that order and without touching the schedules; otherwise both schedules belong to the key |
| DesCipher.DesKey.EcbEncrypt | plugins/logicalaccess/plugins/crypto/des.cpp:2554-2566 | the output buffer holds the enciphered block, also when it is the input buffer |
| DesCipher.DesKey.EcbDecrypt | plugins/logicalaccess/plugins/crypto/des.cpp:2575-2587 | the output buffer holds the deciphered block, also when it is the input buffer |
| DesCipher.Des3Key.Setup | plugins/logicalaccess/plugins/crypto/des.cpp:2509-2545 | accepts 16 and 24 bytes; the six schedules belong to the three key parts, the third being the first for 16 bytes |
| DesCipher.Des3Key.EcbEncrypt | plugins/logicalaccess/plugins/crypto/des.cpp:2596-2611 | the output buffer holds the triple-enciphered block |
| DesCipher.Des3Key.EcbDecrypt | plugins/logicalaccess/plugins/crypto/des.cpp:2620-2634 | the output buffer holds the triple-deciphered block |
| DesCipher.RoundTrip | plugins/logicalaccess/plugins/crypto/des.cpp:2554-2587 | a buffer enciphered and then deciphered in place is what it was |
| Crc.UpdateIsDivision | plugins/logicalaccess/plugins/crypto/des.cpp:2965-2972 | the byte-wise update is eight steps of the bit-by-bit division by 0x8408, for every state and byte |
| Crc.UpdateCrcSteps | plugins/logicalaccess/plugins/crypto/des.cpp:2965-2972 | the statements of UpdateCrc, which change the byte and then the state, compute that update |
| Crc.TableStep | plugins/logicalaccess/plugins/crypto/des.cpp:3041-3052 | one table lookup and a shift divide by a byte, for every state and byte |
| Crc.KermitTable.InitTable | plugins/logicalaccess/plugins/crypto/des.cpp:2943-2963 | the loops fill entry i with the remainder of byte i |
| Crc.KermitTable.Update | plugins/logicalaccess/plugins/crypto/des.cpp:3041-3052 | the table-driven update, filling the table on first use, divides by the bits of the byte |
| Crc.KermitTable.ComputeCrcKermit | plugins/logicalaccess/plugins/crypto/des.cpp:3024-3039 | the two bytes sent are the remainder of the whole message from state 0 |
| Crc.ComputeCrc | plugins/logicalaccess/plugins/crypto/des.cpp:2974-3002 | CRC_A is the remainder from 0x6363, CRC_B the complemented remainder from 0xFFFF, each low byte first; other types leave the outputs alone |
| Crc.DivisionOfConcat | plugins/logicalaccess/plugins/crypto/des.cpp:2989-2993 | dividing by a concatenation is dividing by its parts in turn, so byte-wise updates divide whole messages |
| Crc.ReversedSteps | plugins/logicalaccess/plugins/crypto/des.cpp:3010-3017 | the MSB-first steps by 0x1021 are the reversed image of the LSB-first steps by 0x8408 |
| Crc.CcittIsReversedDivision | plugins/logicalaccess/plugins/crypto/des.cpp:3004-3022 | over whole messages the CCITT routine is the same division under reversal of every byte and of the state |
| Crc.ComputeCrcCcitt | plugins/logicalaccess/plugins/crypto/des.cpp:3004-3022 | the nested loops compute the CCITT remainder from the given state |
| Crc.Residues | plugins/logicalaccess/plugins/crypto/des.cpp:2974-3002 | from any state, a message followed by its own check bytes leaves 0; followed by complemented check bytes, as for CRC_B, it leaves 0xF0B8 |
| Crc.CheckReceivedA | plugins/logicalaccess/plugins/crypto/des.cpp:2974-3002 | recomputing CRC_A over a nonempty message and its check bytes gives two zero bytes |
| Crc.AnnexBExamples | plugins/logicalaccess/plugins/crypto/des.cpp:2974-3002 | the examples of Annex B of ISO/IEC 14443-3: the transmitted pairs for two messages with CRC_A and two with CRC_B |
| Crc.StatesThatMeet | plugins/logicalaccess/plugins/crypto/des.cpp:2965-2972 | two states brought together by at most 16 bits differ exactly by what those bits spell |
| Crc.BurstIsDetected | plugins/logicalaccess/plugins/crypto/des.cpp:2974-3002 | messages that differ only within 16 consecutive bits have the same remainder if and only if they are equal |
| Crc.BurstChangesCheckBytes | plugins/logicalaccess/plugins/crypto/des.cpp:2974-3002 | such a change in a byte message always changes the transmitted pair |
| SecureMessaging.UnpadUndoesPad | plugins/logicalaccess/plugins/crypto/iso24727crypto.cpp:250-272 | unpad returns what pad was given, for every byte string and every block length |
| SecureMessaging.PadFillsBlocks | plugins/logicalaccess/plugins/crypto/iso24727crypto.cpp:250-258 | the padded length is a positive multiple of the block length and grows by at most a block |
| SecureMessaging.PadIsInjective | plugins/logicalaccess/plugins/crypto/iso24727crypto.cpp:250-258 | different strings have different paddings |
| SecureMessaging.PadIsMethod2 | plugins/logicalaccess/plugins/crypto/iso24727crypto.cpp:250-258 | pad gives the data, one 0x80 and the fewest zeros that fill a block, padding method 2 of ISO/IEC 9797-1, and nothing else is that |
| SecureMessaging.UnpadExactlyWhen | plugins/logicalaccess/plugins/crypto/iso24727crypto.cpp:260-272 | for every byte string, padded or not: unpad gives what stands before the last 0x80, and runs out exactly when there is no 0x80 |
| SecureMessaging.IncrementCounts | plugins/logicalaccess/plugins/crypto/iso24727crypto.cpp:274-288 | the incremented counter spells the number plus one modulo 2^64 |
| SecureMessaging.IncrementCarries | plugins/logicalaccess/plugins/crypto/iso24727crypto.cpp:274-288 | on the bytes: the last byte below 0xFF goes up by one and the 0xFF bytes behind it become zero; eight bytes 0xFF become zeros |
| SecureMessaging.BerLengthIsRead | plugins/logicalaccess/plugins/crypto/iso24727crypto.cpp:206-221 | what the standard requires where the code puts one byte: a length below 2^32 in its shortest BER form is read back by the rules of section 5.2.2.2 of ISO/IEC 7816-4 |
| SecureMessaging.CardReadsWhatWasSeen | plugins/logicalaccess/plugins/crypto/iso24727crypto.cpp:173-243 | for every APDU of at least four bytes, a card that unwraps by sections 5.2.2.2 and 6 of ISO/IEC 7816-4 accepts the wrapped command if and only if it has no data object or the length of that object is at most 127, and then reads header, data and Le as the code classified them |
| SecureMessaging.LongIsRefusedEverywhere | plugins/logicalaccess/plugins/crypto/iso24727crypto.cpp:206-221 | a command with a longer data object is refused by the card at every counter, whatever the keys, the cipher and the MAC |
| SecureMessaging.SecureClaSetsTwoBits | plugins/logicalaccess/plugins/crypto/iso24727crypto.cpp:185 | bits 3 and 4 of the class byte are set and no other bit changes, for every byte |
| SecureMessaging.CommandMacInput | plugins/logicalaccess/plugins/crypto/iso24727crypto.cpp:223-243 | the MAC of a command is taken over the counter plus one as eight bytes, the padded header and the data objects, all of it padded |
| SecureMessaging.SeenSpelledOut | plugins/logicalaccess/plugins/crypto/iso24727crypto.cpp:149-202 | for every APDU, whether its Lc tells the truth or not: header, data and Le as classified, by the fifth byte and the number of bytes behind it |
| SecureMessaging.ShortObjectSpelledOut | plugins/logicalaccess/plugins/crypto/iso24727crypto.cpp:206-213 | and the lengths at which the data object, padded and with its indicator, has more than 127 bytes |
| SecureMessaging.TooShortExactlyWhen | plugins/logicalaccess/plugins/crypto/iso24727crypto.cpp:177-178 | exactly the APDUs of fewer than four bytes are refused |
| SecureMessaging.Classification | plugins/logicalaccess/plugins/crypto/iso24727crypto.cpp:149-202 | what the classification makes of every short APDU: right for two shapes, the Lc byte kept in front of data when there is also Le, and a lone Le of zero lost |
| SecureMessaging.CommandSurvives | plugins/logicalaccess/plugins/crypto/iso24727crypto.cpp:152-243 | for block sizes 8 and 16 the card recovers header (its class byte with bits 3 and 4 set and the others kept), data and Le of a short APDU if and only if it has no data together with Le, is no lone Le of zero, and the length of its data object is at most 127 |
| SecureMessaging.DataWithLeIsMisread | plugins/logicalaccess/plugins/crypto/iso24727crypto.cpp:191-198 | a concrete SELECT with one data byte and Le reaches the card with its length byte in front of the data |
| SecureMessaging.ReplySurvives | plugins/logicalaccess/plugins/crypto/iso24727crypto.cpp:290-357 | decrypt_rapdu returns data followed by status for every response a card wraps at the same counter with a data object of at most 127 bytes: DO87, DO85 or no data |
| SecureMessaging.LongReplyFails | plugins/logicalaccess/plugins/crypto/iso24727crypto.cpp:300-357 | for every longer data object, whose length the card writes as 0x81 or above and further bytes, there are a cipher and a MAC under which decrypt_rapdu refuses the genuine response |
| SecureMessaging.ReplySurvivesExactlyWhen | plugins/logicalaccess/plugins/crypto/iso24727crypto.cpp:290-357 | for block sizes 8 and 16: decrypt_rapdu returns data and status under all ciphers and MACs if and only if the length of the response's data object is at most 127 |
| SecureMessaging.ResponseMacInput | plugins/logicalaccess/plugins/crypto/iso24727crypto.cpp:332-343 | the MAC of a response is taken over the counter plus one and the two objects, padded |
| SecureMessaging.SplitsExactlyWhen | plugins/logicalaccess/plugins/crypto/iso24727crypto.cpp:300-331 | for every byte string, how decrypt_rapdu cuts it: a data object if it begins with one, four bytes, ten bytes, and at least two left over |
| SecureMessaging.SplitFailures | plugins/logicalaccess/plugins/crypto/iso24727crypto.cpp:300-331 | and what happens to every other byte string: an exception by its length, or a read outside the buffer |
| SecureMessaging.ReturnsExactlyWhen | plugins/logicalaccess/plugins/crypto/iso24727crypto.cpp:300-357 | for every byte string: what decrypt_rapdu returns, if and only if the pieces are there, the MAC is the one over the first two, and the cryptogram is whole blocks that decipher to data, a 0x80 and none after it |
| SecureMessaging.BadChecksumExactlyWhen | plugins/logicalaccess/plugins/crypto/iso24727crypto.cpp:343-345 | the checksum exception, exactly when the pieces are there and the MAC is another one |
| SecureRuns.HandshakeAgrees | plugins/logicalaccess/plugins/crypto/iso24727crypto.cpp:30-104 | honest parties with the same keys accept each other and derive the same session keys and counter |
| SecureRuns.Step1Bytes | plugins/logicalaccess/plugins/crypto/iso24727crypto.cpp:51-64 | the 40 bytes of the challenge answer: the enciphered randoms in their order and the MAC over them with their padding spelled out |
| SecureRuns.Step2AcceptsExactlyWhen | plugins/logicalaccess/plugins/crypto/iso24727crypto.cpp:66-104 | for every answer: accepted if and only if 40 bytes are there, the MAC over the first 32 is right and these decipher to the random of step1 in its place; and what the keys are derived from |
| SecureRuns.AnswerMatchesChallenge | plugins/logicalaccess/plugins/crypto/iso24727crypto.cpp:66-104 | step2 accepts a genuine card answer if and only if it answers the random of this step1 |
| SecureRuns.CounterCounts | plugins/logicalaccess/plugins/crypto/iso24727crypto.cpp:359-373 | over every run the counter is its start plus the calls that returned, modulo 2^64; calls that throw leave it, and the keys never change |
| SecureRuns.CountersApart | plugins/logicalaccess/plugins/crypto/iso24727crypto.cpp:359-373 | two points of a run with between 1 and 2^64 - 1 returned calls between them have different counters |
| SecureRuns.ResponseReplayNeedsCollision | plugins/logicalaccess/plugins/crypto/iso24727crypto.cpp:300-357 | one response accepted at two different counters yields two different MAC inputs with one MAC |
| SecureRuns.ReplayNeedsCollision | plugins/logicalaccess/plugins/crypto/iso24727crypto.cpp:300-373 | the same over any run of calls with fewer than 2^64 returned calls between the two points |
| SecureRuns.CommandReplayNeedsCollision | plugins/logicalaccess/plugins/crypto/iso24727crypto.cpp:223-243 | one wrapped command accepted by the card at two counters yields two different messages with the same MAC |
| SecureChannel.SentCommandAt | plugins/logicalaccess/plugins/crypto/iso24727crypto.cpp:173-243 | at the count it was sent at a wrapped command is accepted exactly when its data object, if any, has at most 127 bytes, and is read as classified; at any other count it is refused or the MAC collides |
| SecureChannel.RepliedAt | plugins/logicalaccess/plugins/crypto/iso24727crypto.cpp:300-357 | a reply whose data object has at most 127 bytes is read at the count it was sent at; at any other count it is refused or the MAC collides |
| SecureChannel.ReplyIsNoCommand | plugins/logicalaccess/plugins/crypto/iso24727crypto.cpp:173-243 | a reply brought back to the card is never accepted as a command, whatever the MAC |
| SecureChannel.RunIsLogged | plugins/logicalaccess/plugins/crypto/iso24727crypto.cpp:359-373 | in every run each end is where its count says, and the log of each end holds what it sent at which count, in order |
| SecureChannel.ChannelIsFaithful | plugins/logicalaccess/plugins/crypto/iso24727crypto.cpp:173-373 | in every run over a wire that loses, delays, repeats, reorders and brings in messages, where bytes that neither end ever sent, and replies with data objects above 127 bytes, are refused: each command read and each reply received is the one sent at that count, at most once and in order; or some delivery of the run shows two of its MAC inputs with one MAC |
| SecureChannel.ExchangeKeepsStep | plugins/logicalaccess/plugins/crypto/iso24727crypto.cpp:359-373 | from equal counts an exchange whose two messages arrive, with data objects of at most 127 bytes, is read and received and moves both counts by two |
| SecureChannel.ExchangesArrive | plugins/logicalaccess/plugins/crypto/iso24727crypto.cpp:173-373 | with anything brought to either end between whole exchanges, old messages included, the ends stay in step and all commands and replies with data objects of at most 127 bytes arrive, in order and once |
| SecureChannel.LostReplyCostsOneCommand | plugins/logicalaccess/plugins/crypto/iso24727crypto.cpp:359-373 | after a lost reply the next command is refused, or the MAC collides, and then the ends are in step again |
| SecureChannel.LostCommandStopsTheCard | plugins/logicalaccess/plugins/crypto/iso24727crypto.cpp:359-365 | once a command is lost the card accepts nothing for the rest of the run, whatever is sent or brought in, or the MAC collides |
| SecureSession.PadLoop | plugins/logicalaccess/plugins/crypto/iso24727crypto.cpp:250-258 | the push_back loop computes the padding function |
| SecureSession.UnpadLoop | plugins/logicalaccess/plugins/crypto/iso24727crypto.cpp:260-272 | the pop_back loop computes the unpadding function, with popping an empty buffer as the undefined outcome |
| SecureSession.IncrementSscLoop | plugins/logicalaccess/plugins/crypto/iso24727crypto.cpp:274-288 | the two byte loops around a wrapping 64-bit counter compute the big-endian increment |
| SecureSession.EncryptApduSteps | plugins/logicalaccess/plugins/crypto/iso24727crypto.cpp:173-243 | the statements of encrypt_apdu compute the wrapping function or its exception |
| SecureSession.DecryptRapduSteps | plugins/logicalaccess/plugins/crypto/iso24727crypto.cpp:290-357 | the iterator walk of decrypt_rapdu computes the unwrapping function, each exception, or a read outside the buffer |
| SecureSession.Iso24727Crypto.Step1 | plugins/logicalaccess/plugins/crypto/iso24727crypto.cpp:30-64 | exactly the right lengths are accepted; then the randoms are fixed and the authenticated challenge is returned, else nothing changes |
| SecureSession.Iso24727Crypto.constructor | plugins/logicalaccess/plugins/crypto/iso24727crypto.cpp:15-20 | a session that has not succeeded |
| SecureSession.Iso24727Crypto.Step2 | plugins/logicalaccess/plugins/crypto/iso24727crypto.cpp:66-104 | exactly the answers the handshake accepts succeed and set the session; any other changes nothing |
| SecureSession.Iso24727Crypto.GetSendSessionCounter | plugins/logicalaccess/plugins/crypto/iso24727crypto.cpp:126-134 | the counter is given out only after a successful step2 |
| SecureSession.Iso24727Crypto.EncryptApdu | plugins/logicalaccess/plugins/crypto/iso24727crypto.cpp:359-365 | for any eight-byte counter, also after reset: the call is one step of a run, its result and a counter that moves only when it returns |
| SecureSession.Iso24727Crypto.DecryptRapdu | plugins/logicalaccess/plugins/crypto/iso24727crypto.cpp:367-373 | likewise: a refused response leaves the counter alone |
| SecureSession.Iso24727Crypto.Reset | plugins/logicalaccess/plugins/crypto/iso24727crypto.cpp:375-380 | takes the flag down and empties the enciphering key; the MAC key, the session keys and the counter are not touched, so the old session stays usable |
| SecureSession.WrapAfterReset | plugins/logicalaccess/plugins/crypto/iso24727crypto.cpp:359-380 | a command wrapped after reset is the one the old session would have wrapped |
| SecureSession.AuthenticateAndExchange | plugins/logicalaccess/plugins/crypto/iso24727crypto.cpp:30-373 | the object, driven through both steps against an honest card and one exchange with data objects of at most 127 bytes, returns the reply |
| Cmac.ShiftString | plugins/logicalaccess/plugins/crypto/cmac.cpp:172-191 | the in-place loop computes the string shifted left by one bit, with the last byte xored |
| Cmac.ShiftIsDoubling | plugins/logicalaccess/plugins/crypto/cmac.cpp:172-191 | shifting is doubling modulo 256^n for every nonempty buffer |
| Cmac.SubkeyIsStandard | plugins/logicalaccess/plugins/crypto/cmac.cpp:69-105 | on bit strings, the subkey step is that of section 6.1 of SP 800-38B, for both block sizes |
| Cmac.MakeSubkey | plugins/logicalaccess/plugins/crypto/cmac.cpp:87-105 | the conditional call computes the subkey |
| Cmac.SubkeyInjective | plugins/logicalaccess/plugins/crypto/cmac.cpp:87-105 | two strings of one length have the same subkey if and only if they are equal |
| Cmac.SubkeysDiffer | plugins/logicalaccess/plugins/crypto/cmac.cpp:87-105 | K1 equals K2 if and only if L is zero |
| CmacMac.PaddedLength | plugins/logicalaccess/plugins/crypto/cmac.cpp:107-126 | the padded length is a positive multiple of the unit, and is the length rounded up |
| CmacMac.CbcIsChain | plugins/logicalaccess/plugins/crypto/cmac.cpp:107-170 | the last CBC block of the prepared message is the standard's recursion over message blocks, from any chaining value |
| CmacMac.MacIsStandard | plugins/logicalaccess/plugins/crypto/cmac.cpp:43-170 | for every message, with padding_size 0 or one block, cmac is the MAC of section 6.2 of SP 800-38B |
| CmacMac.SubkeysExactlyWhen | plugins/logicalaccess/plugins/crypto/cmac.cpp:69-105 | for both block sizes, exactly the code's K1 and K2 are the subkeys of section 6.1 of SP 800-38B on bits: K1 from the enciphered zero block and K2 from K1 |
| CmacMac.MacIsSection62 | plugins/logicalaccess/plugins/crypto/cmac.cpp:43-170 | so for every message and any two subkeys of section 6.1, cmac is the chain of section 6.2 from the zero block |
| CmacMac.MacIsChain | plugins/logicalaccess/plugins/crypto/cmac.cpp:43-170 | for every IV, unit of whole blocks and choice of forced K2: cmac is that chain over the message filled up to units, with K1 on the last block when nothing was filled up and K2 is not forced, and K2 otherwise |
| CmacMac.MacFailsExactlyWhen | plugins/logicalaccess/plugins/crypto/cmac.cpp:107-170 | for every unit at all: when the subkey reaches in front of the buffer, and when the cipher refuses |
| CmacMac.MacFromIv | plugins/logicalaccess/plugins/crypto/cmac.cpp:149-170 | with an IV given, cmac is the standard's recursion started from that IV |
| CmacMac.ForcedK2 | plugins/logicalaccess/plugins/crypto/cmac.cpp:128-145 | forcing K2 changes the blocks fed to the cipher if and only if the message is a nonempty whole number of units and L is not zero |
| CmacMac.LargerUnits | plugins/logicalaccess/plugins/crypto/cmac.cpp:43-170 | with a unit of several blocks a MAC always comes out, and the blocks fed to the cipher are the standard's if and only if rounding to units and to blocks gives the same length |
| CmacUnits.StandardExactlyWhen | plugins/logicalaccess/plugins/crypto/cmac.cpp:43-170 | for every message, unit of whole blocks and choice of forced K2: cmac gives the standard's MAC under all functions on blocks if and only if rounding the length to units and to blocks comes to the same and K2 is not forced on a message of whole units |
| CmacUnits.PartialBlockDiffers | plugins/logicalaccess/plugins/crypto/cmac.cpp:107-145 | for an empty message or a partial last block and lengths that round differently, a block function whose two tags differ |
| CmacUnits.WholeBlocksDiffer | plugins/logicalaccess/plugins/crypto/cmac.cpp:107-145 | the same for a nonempty message of whole blocks |
| CmacUnits.ForcedK2Differs | plugins/logicalaccess/plugins/crypto/cmac.cpp:128-145 | a block function whose tags under K1 and under a forced K2 differ, for every message of whole units |
| CmacUnits.FlipTells | plugins/logicalaccess/plugins/cards/desfire/nxpav2keydiversification.cpp:92-123 | for the two-block unit of the key diversification: a permutation of the blocks whose tag differs from the standard's for every odd number of blocks, and for every message of whole units with K2 forced |
| CmacUnits.FlipsLastIsPermutation | plugins/logicalaccess/plugins/crypto/cmac.cpp:43-67 | that function is a permutation of the blocks, as a cipher under a key is |
| CmacUnits.TwoBlockUnits | plugins/logicalaccess/plugins/cards/desfire/nxpav2keydiversification.cpp:92-123 | for the two-block unit of the key diversification, with or without forced K2: cmac gives the standard's MAC under all permutations of the blocks if and only if the number of blocks, counting a partial one, is even and K2 is not forced on a message of whole units |
| CmacUnits.EmptyMessageDiffers | plugins/logicalaccess/plugins/crypto/cmac.cpp:107-126 | a concrete block function with 8-byte blocks: over the empty message with a unit of 16 the tag is zero and the standard's is not |
| CmacMac.PadLoop | plugins/logicalaccess/plugins/crypto/cmac.cpp:111-126 | the loop appends one 0x80 and the right number of zeros |
| CmacMac.XorTailLoop | plugins/logicalaccess/plugins/crypto/cmac.cpp:128-145 | the loop xors the subkey into the last bytes and nothing else |
| CmacMac.PrepareLoop | plugins/logicalaccess/plugins/crypto/cmac.cpp:107-145 | padding and choice of subkey; a subkey longer than the padded data is the undefined outcome |
| CmacMac.CutToBlock | plugins/logicalaccess/plugins/crypto/cmac.cpp:165-169 | the result is cut to the last block |
| CmacMac.ComputeCmac | plugins/logicalaccess/plugins/crypto/cmac.cpp:43-170 | the statements of cmac compute the function the theorems are about |
| CmacMac.ComputeCmacIks | plugins/logicalaccess/plugins/crypto/cmac.cpp:193-268 | with a remote encryption that is CBC under the same key, cmac_iks gives the MAC of cmac for every message, 16-byte IV and padding unit that is a multiple of 16 |
| SerialSteps.DoWriteKeepsOneInFlight | src/readerproviders/serialport.cpp:233-239 | running a posted write keeps exactly one write in flight if and only if it or the buffer is nonempty |
| SerialSteps.ConservedExactlyWhen | src/readerproviders/serialport.cpp:224-261 | in every interleaving, device bytes, unsent buffer and posted buffers are the submitted bytes in order with one write in flight exactly when the buffer is nonempty, all along the run if and only if no step appends an empty write to an empty buffer |
| SerialSteps.StartedWritesTakeAll | src/readerproviders/serialport.cpp:241-261 | a write that starts covers all the bytes then in the buffer, and a write in flight goes on as it was started |
| SerialSteps.WritesAreConserved | src/readerproviders/serialport.cpp:224-261 | in particular in every run whose writes so far are nonempty, as send guarantees |
| SerialSteps.QuiescentMeansWritten | src/readerproviders/serialport.cpp:224-261 | when nothing is posted or in flight, and no step appended nothing to nothing, the device has exactly what was submitted |
| SerialSteps.WritingIsNeverStuck | src/readerproviders/serialport.cpp:224-261 | while submitted bytes have not reached the device, a posted handler can run, the device can take a byte, or a write can complete |
| SerialSteps.EmptyWriteDuplicates | src/readerproviders/serialport.cpp:233-261 | a concrete run with an empty write puts two writes in flight and the device receives a byte twice |
| SerialSteps.ReadsAreOrdered | src/readerproviders/serialport.cpp:160-222 | in every interleaving a cleared flag means an empty ring, the ring never exceeds 256 bytes, what left it and what is in it are the bytes that arrived in order, and only more than half a ring is ever dropped |
| SerialSteps.DropsExactlyWhen | src/readerproviders/serialport.cpp:195-214 | in every run a read handler drops something if and only if what waits and what has come are more than 256 bytes, and then it drops all that waits and keeps all that has come |
| SerialSteps.RingFills | src/readerproviders/serialport.cpp:24-42 | a run that fills the ring with 256 bytes and one in which a byte more drops them |
| SerialSteps.FlagMeansArrival | src/readerproviders/serialport.cpp:24-42 | the flag is down at first, and up only in runs in which a read handler has run |
| SerialSteps.WaitingBytesAreDelivered | include/logicalaccess/readerproviders/serialport.hpp:180-188 | whenever bytes wait in the ring, the waiter is enabled and its callback delivers all of them |
| SerialSteps.SecondCallbackSleeps | src/readerproviders/serialportdatatransport.cpp:91-103 | a callback that follows another one with no read handler between them finds an empty ring and leaves the flag down |
| SerialSteps.CallbackKeepsFlagExactlyWhen | src/readerproviders/serialportdatatransport.cpp:91-103 | in every run the callback takes the ring whole and leaves the flag up exactly when it took something |
| SerialSteps.LossOnlyAtOverflow | src/readerproviders/serialport.cpp:195-214 | delivered and waiting bytes are all that arrived if and only if every read handler found room |
| SerialPort.Port.Write | src/readerproviders/serialport.cpp:224-231 | posts the handler and returns the size; one Submit step |
| SerialPort.Port.constructor | src/readerproviders/serialport.cpp:19-33 | starts in the initial state of the machine |
| SerialPort.Port.RunDoWrite | src/readerproviders/serialport.cpp:233-239 | one DoWrite step |
| SerialPort.Port.WriteStart | src/readerproviders/serialport.cpp:241-247 | one more asynchronous write over the whole buffer |
| SerialPort.Port.RunWriteComplete | src/readerproviders/serialport.cpp:249-261 | one WriteComplete step |
| SerialPort.Port.RunDoRead | src/readerproviders/serialport.cpp:195-214 | one DoRead step, with the ring emptied when the bytes do not fit |
| SerialPort.Port.Read | src/readerproviders/serialport.cpp:160-178 | takes the whole ring |
| SerialPort.Port.DataConsumed | src/readerproviders/serialport.cpp:268-271 | clears the flag and nothing else |
| SerialPort.Port.WaitAndRead | include/logicalaccess/readerproviders/serialport.hpp:180-188 | one LockedRead step when the flag is up; otherwise nothing changes |
| SerialPort.Send | src/readerproviders/serialportdatatransport.cpp:75-82 | an empty write is never posted, so the condition of write conservation is kept |
| SerialPort.RunArrivals | src/readerproviders/serialport.cpp:180-222 | read handlers take in what arrives, deliver nothing by themselves, keep the read invariant and raise the flag |
| SerialPort.WaitOnce | src/readerproviders/serialportdatatransport.cpp:95-102 | one round of the loop delivers its result; an empty result means that nothing was waiting and nothing came |
| SerialPort.Receive | src/readerproviders/serialportdatatransport.cpp:84-108 | whatever arrives before each wait, the result is exactly what was delivered meanwhile; the loop waits until there is a byte or the time is over and not longer, and an empty result means that the ring is empty and the flag is down |
| TlvTrees.RoundTripExactlyWhenShort | src/tlv.cpp:76-183 | reading the written form of a list of nodes gives back the same tags and values in order if and only if every value has at most 0x80 bytes; and then everything is consumed, also under the strict switch |
| TlvTrees.ReadsAll | src/tlv.cpp:89-136 | a list of short nodes is read back wherever it stands in a buffer, and reading goes on behind it |
| TlvTrees.LongFormsTakeMore | src/tlv.cpp:99-116 | nodes read with a value above 0x80 bytes came from a longer form than the writer's |
| TlvTrees.ReadsShortForm | src/tlv.cpp:117-127 | whoever wrote it: a length byte up to 0x80 counts the value; what happens when the value or the length byte is missing |
| TlvTrees.ReadsLongForm | src/tlv.cpp:99-128 | a length byte of 0x80 + k is followed by k bytes of length, most significant first, in 64 bits, and a single one replaces the size tag |
| TlvTrees.CutLongForm | src/tlv.cpp:103-126 | where a node in the long form stops the reading when it is not all there |
| TlvTrees.StrictExactlyWhen | src/tlv.cpp:171-183 | for every buffer the strict switch lets it pass if and only if its nodes reach the end, or the first that is not whole ends right behind its length |
| TlvTrees.IncompleteTailExactly | src/tlv.cpp:89-183 | behind short nodes an incomplete one is dropped without an error, and under the strict switch is an error if and only if at least one byte of its value is there |
| TlvTrees.WrittenNodeIsCut | src/tlv.cpp:76-87 | what is read of any written node whose length modulo 256 is at most 0x80: that many bytes of its value |
| TlvTrees.WrittenValueIsTakenForLength | src/tlv.cpp:76-116 | and above 0x80: the first bytes of its value are taken for the length |
| TlvTrees.CompleteIsWhatWasRead | src/tlv.cpp:153-169 | the complete form of a node just read is the bytes it was read from if and only if its length byte was not 0x81 |
| TlvTrees.FirstWithExactlyWhen | src/tlv.cpp:196-206 | the lookup gives the first node with the tag asked for, and the error exactly when no node has it |
| TlvTrees.ChildExactlyWhen | src/tlv.cpp:185-194 | a child has the tag asked for and is the first such child; no child means no such tag |
| TlvTrees.SpelledChildExactlyWhen | src/tlv.cpp:185-194 | the same where the node holds the bytes of short nodes, the last of which may be incomplete and then is never a child |
| TlvTrees.BuiltAgreesWithParsed | src/tlv.cpp:185-205 | a node with children and the bytes it spells have the same child for every tag, or the same failure |
| TlvTrees.PathsAgree | src/tlv.cpp:185-205 | two trees of one tag and value, whose children have short values, lead to the same places along every path of tags |
| TlvTrees.TreeSurvives | src/tlv.cpp:32-45 | a tree whose value has at most 0x80 bytes is read back as one node, and no path of tags tells the two apart |
| TlvTrees.ChildrenAreShort | src/tlv.cpp:32-45 | a value is longer than that of each child, so in such a tree every child has a short value too |
| TlvObjects.Node.SetContent | src/tlv.cpp:57-61 | sets the bytes and drops the children |
| TlvObjects.Node.constructor | src/tlv.cpp:17-20 | a node with its tag and nothing else |
| TlvObjects.Node.SetTag | src/tlv.cpp:27-30 | replaces the tag and nothing else |
| TlvObjects.Node.SetFlag | src/tlv.cpp:47-50 | sets one byte, 1 or 0, and drops the children |
| TlvObjects.Node.SetSizeTag | src/tlv.cpp:143-146 | replaces the size tag and nothing else |
| TlvObjects.Node.SetChild | src/tlv.cpp:63-69 | the value becomes the wire form of the one child |
| TlvObjects.Node.SetChildren | src/tlv.cpp:71-74 | the children are replaced and the old bytes stay behind them |
| TlvObjects.Node.SetSizeVector | src/tlv.cpp:153-158 | a one-byte vector also replaces the size tag |
| TlvObjects.Node.GetValue | src/tlv.cpp:32-45 | the loop over the children computes the value of the tree |
| TlvObjects.Node.ComputeBytes | src/tlv.cpp:76-87 | computes the wire form of the tree |
| TlvObjects.Node.GetComplete | src/tlv.cpp:160-169 | computes the complete form |
| TlvObjects.Node.Child | src/tlv.cpp:185-194 | the child object has the tag asked for, is one of the children when there are any, and is the root of the child tree the lookup gives; the content is parsed when there are no children |
| TlvObjects.LengthOf | src/tlv.cpp:111-116 | the loop from the last length byte, in wrapping 64-bit arithmetic, computes the big-endian length modulo 2^64 |
| TlvObjects.ReadNode | src/tlv.cpp:96-132 | one round makes the node the reading function gives, stops where it stops, or leaves the buffer where it does |
| TlvObjects.ParseConsuming | src/tlv.cpp:89-136 | the loop returns new nodes for exactly the parsed list and the count of consumed bytes |
| TlvObjects.ParseNodes | src/tlv.cpp:171-183 | the strict switch turns unconsumed bytes into the exception |
| TlvObjects.FirstNodeWith | src/tlv.cpp:196-206 | the first node with the tag, or the exception exactly when no node has it |
| Ndef.RoundTripExactlyWhen | src/services/nfctag/ndefmessage.cpp:20-165 | parsing the encoding of a record list gives it back if and only if every record has lengths of at most 255, a payload its type accepts and an id that commutes with the payload, and the last record takes at least four bytes |
| Ndef.TrailingBytesAreIgnored | src/services/nfctag/ndefmessage.cpp:94-96 | such a message is read back whatever bytes follow it |
| Ndef.ReadsEncoded | src/services/nfctag/ndefmessage.cpp:24-92 | what one round reads of any record with single-byte lengths: the id taken from the front of payload and id, or the check or read that fails |
| Ndef.SizeOfEncoding | src/services/nfctag/ndefrecord.cpp:13-26 | getEncodedSize is the length of the encoding, for every record |
| Ndef.FlagsRead | src/services/nfctag/ndefrecord.cpp:65-82 | the first byte of a record has the format and the flags MB, ME, SR and IL where section 3.2 of NFC Forum NDEF puts them, and never the chunk flag |
| Ndef.PayloadLengthIsBigEndian | src/services/nfctag/ndefrecord.cpp:44-52 | payload lengths below 2^32 are written most significant byte first, in one byte or four |
| Ndef.LengthFieldsAreCut | src/services/nfctag/ndefrecord.cpp:37-63 | types and ids of any length: where their length fields stand and that they hold the length modulo 256 |
| Ndef.CutRecordFails | src/services/nfctag/ndefmessage.cpp:26-77 | a written record cut anywhere: which of the numbered checks throws, by where the cut is |
| Ndef.LongRecordRead | src/services/nfctag/ndefmessage.cpp:44-92 | for every long record: its four length bytes are taken the wrong way round, the byte behind them is skipped, and lengths from 2^31 on count as negative and are refused or lead out of the buffer |
| Ndef.CutLongRecord | src/services/nfctag/ndefmessage.cpp:26-65 | where a long record is cut inside its lengths |
| Ndef.NamesOfTypes | src/services/nfctag/ndefmessage.cpp:78-92 | the two types that are read in a way of their own, when their payload is too short for it, and the numbers of the formats |
| Ndef.ReadingTakesRoom | src/services/nfctag/ndefmessage.cpp:24-97 | the parser never uses fewer bytes for its records than the writer would |
| Ndef.ReadRecordAdvances | src/services/nfctag/ndefmessage.cpp:44-77 | each round consumes at least the encoded size of what it read, and more when the payload was read in the long form |
| Ndef.EmptyRecordIsTooSmall | src/services/nfctag/ndefmessage.cpp:26-27 | the encoding of one empty record is refused by the parser |
| Ndef.WithoutIdIsReadable | src/services/nfctag/ndefrecord.cpp:37-63 | records without an id, with short lengths and a fitting payload, satisfy the condition |
| Ndef.TextComesBack | src/services/nfctag/textrecord.cpp:11-23 | a text payload as built is always well formed; its language and text are recovered if and only if the language has fewer than 64 characters, and then the top bit of the first byte says UTF-16 |
| NdefTlv.PairRoundTripExactlyWhen | src/services/nfctag/ndefmessage.cpp:203-250 | reading the TLV pair of a message gives the message if and only if its encoding has at most 255 bytes and comes back by itself; what follows the pair does not matter |
| NdefTlv.PairBytes | src/services/nfctag/ndefmessage.cpp:241-250 | the pair byte for byte: 0x03, the length modulo 256, the encoding, 0xFE |
| NdefTlv.MessageIsTaken | src/services/nfctag/ndefmessage.cpp:218-228 | a message block ends the search with what its bytes parse to, or with nothing when they are not all there |
| NdefTlv.OtherTagsAreSkipped | src/services/nfctag/ndefmessage.cpp:207-237 | tags 0x01, 0x02 and 0xFD are skipped with their values, 0xFE ends the search, any other but 0x03 is skipped with one more byte |
| NdefTlv.FoundBehindBlocks | src/services/nfctag/ndefmessage.cpp:207-239 | such a message is found behind any number of lock, memory control and proprietary blocks |
| NdefTlv.TerminatorEnds | src/services/nfctag/ndefmessage.cpp:229-232 | nothing is found behind a terminator |
| NdefTlv.NullsGoInPairs | src/services/nfctag/ndefmessage.cpp:211-212 | null bytes are skipped in pairs: an odd number of them takes the next byte along |
| NdefTlv.FoundBehindNullsExactlyWhen | src/services/nfctag/ndefmessage.cpp:203-250 | a message behind k null bytes is found if and only if k is even, its encoding has at most 255 bytes and it comes back by itself |
| NdefTlv.TailHidesTheMessage | src/services/nfctag/ndefmessage.cpp:207-239 | the bytes behind the tag of a message never lead to the message |
| NdefTlv.OneNullHidesTheMessage | src/services/nfctag/ndefmessage.cpp:209-237 | a concrete message that is found, and is not found behind one null byte |
| NdefTlv.SearchAhead | src/services/nfctag/ndefmessage.cpp:203-239 | what the search finds depends only on the bytes ahead of it |
| NdefObjects.GetTnfByte | src/services/nfctag/ndefrecord.cpp:65-82 | or-ing in the four flags gives the first byte of the record |
| NdefObjects.EncodeRecordSteps | src/services/nfctag/ndefrecord.cpp:37-63 | byte after byte, the encoding of the record, long payload lengths most significant byte first |
| NdefObjects.Message.EncodeMessage | src/services/nfctag/ndefmessage.cpp:153-165 | the loop marks the first and the last record and concatenates |
| NdefObjects.Message.constructor | src/services/nfctag/ndefmessage.cpp:16-18 | a message without records |
| NdefObjects.Message.AddTextRecord | src/services/nfctag/ndefmessage.cpp:118-132 | appends a text record, which the parser reads back by itself if and only if language and text have fewer than 255 bytes together |
| NdefObjects.Message.AddUriRecord | src/services/nfctag/ndefmessage.cpp:134-144 | appends a URI record, which is readable if and only if the URI has fewer than 255 bytes |
| NdefObjects.Message.AddMimeMediaRecord | src/services/nfctag/ndefmessage.cpp:100-111 | appends the record without an id |
| NdefObjects.Message.AddEmptyRecord | src/services/nfctag/ndefmessage.cpp:147-152 | appends an empty record |
| NdefObjects.Message.RemoveRecord | src/services/nfctag/ndefmessage.cpp:113-116 | takes out one record and keeps the others in order |
| NdefObjects.FromBytes | src/services/nfctag/ndefmessage.cpp:20-97 | the parsing loop throws or makes a message of exactly the records read |
| NdefObjects.MessageToTlv | src/services/nfctag/ndefmessage.cpp:241-250 | computes the TLV pair |
| NdefTlv.SmallAreasAreSearched | src/services/nfctag/ndefmessage.cpp:206-238 | up to 0xFF00 bytes the loop with its 16-bit index ends, within as many rounds as there are bytes, with what the search finds |
| NdefTlv.LargeAreasNeverEnd | src/services/nfctag/ndefmessage.cpp:206-238 | above 0x10000 bytes the loop never ends normally, however many rounds it gets: it runs on or throws |
| NdefTlv.NextIndexIs | src/services/nfctag/ndefmessage.cpp:206-238 | where the 16-bit index goes in one round, by the tag, modulo 2^16 |
| NdefTlv.EndsExactlyWhen | src/services/nfctag/ndefmessage.cpp:206-238 | for areas of any size, the loop ends with a given result if and only if its index falls off the end without meeting a message or a terminator, and the result is nothing; or the first one it meets gives that result without throwing, and from where the index goes behind it the index falls off the end |
| NdefTlv.RestartBySize | src/services/nfctag/ndefmessage.cpp:219-232 | behind a message or a terminator the index is off the end below 0xFFFF bytes; at 0xFFFF bytes it is at the front again, so that a message is never returned; at 0x10000 bytes it is at the second byte; above, it never falls off |
| NdefObjects.SearchRound | src/services/nfctag/ndefmessage.cpp:209-236 | one round of the switch moves the 16-bit index and keeps or replaces the message |
| NdefObjects.TlvToMessage | src/services/nfctag/ndefmessage.cpp:203-239 | for areas of any size, the loop does what its 16-bit index makes it do, round by round; up to 0xFF00 bytes that is the search |
| PositionSearch.ControlTlv.CalculatePosition | src/services/nfctag/lockcontroltlv.cpp:71-95 | the descending loop finds a position whenever any page below 16, page size and offset below 16 make up the address; it has the greatest page and for it the least offset; otherwise the fields stay |
| PositionSearch.ControlTlv.constructor | src/services/nfctag/lockcontroltlv.cpp:11-15 | the fields before a search |
| PositionSearch.CandidateIsBest | src/services/nfctag/memorycontroltlv.cpp:61-84 | for each page the floor of the binary logarithm gives a fitting exponent whenever there is one, with the least offset |
| PositionSearch.FloorLog2 | src/services/nfctag/lockcontroltlv.cpp:81-84 | the exponent is the true floor of the binary logarithm |
| PositionSearch.PositionExactlyWhen | src/services/nfctag/lockcontroltlv.cpp:71-95 | for every address from 15 there is a position if and only if, below the top four bits, only the four lowest bits are set; so there always is one up to 255 |
| Base64.EncodeIsStandard | src/bufferhelper.cpp:143-167 | for every byte string the encoding is that of section 4 of RFC 4648, stated on bits: six-bit groups, zero fill, padding |
| Base64.AlphabetIsStandard | src/bufferhelper.cpp:26-34 | the letters are those of table 1 of RFC 4648 at their places and no others, and the padding is its equals sign |
| Base64.DecodeUndoesEncode | src/bufferhelper.cpp:143-192 | fromBase64 returns what toBase64 was given, for every byte string |
| Base64.EncodeUndoesDecodeExactlyWhen | src/bufferhelper.cpp:143-192 | for a text fromBase64 accepts, encoding the decoded bytes gives the text back if and only if nothing stands behind a padded block and the bits its bytes do not use are zero |
| Base64.AcceptedExactlyWhen | src/bufferhelper.cpp:43-192 | for every text, which of the checks fails; it is accepted if and only if it is whole blocks, all letters or all letters up to a block that ends in one equals sign or two |
| Base64.DecodersAgree | src/utils.cpp:228-279 | on every string fromBase64 accepts, base64_decode returns the same bytes |
| Base64.AccumulateExactly | src/utils.cpp:228-279 | on every string at all base64_decode returns the whole bytes in the bits of the letters before the first other character, six bits each |
| Base64.AccumulateUndoesEncode | src/utils.cpp:180-279 | base64_decode returns what either encoder was given |
| Base64.BlocksAgree | src/utils.cpp:241-256 | a block of four characters contributes the same bytes to both decoders, and ends both at its padding |
| Base64.EncodeSize | src/bufferhelper.cpp:145-146 | the size reserved beforehand is the size of the encoding |
| Base64Loops.ToBase64 | src/bufferhelper.cpp:143-167 | the loop fills the reserved buffer with exactly the encoding |
| Base64Loops.EncodeBlockInto | src/bufferhelper.cpp:24-35 | four characters are written at their place and the rest of the buffer stays |
| Base64Loops.DecodeBlockSteps | src/bufferhelper.cpp:43-124 | the checks, the byte count and the in-place mapping compute the block decoding or its exception |
| Base64Loops.ValueSteps | src/bufferhelper.cpp:81-119 | the nested range tests map a character to its value |
| Base64Loops.FromBase64 | src/bufferhelper.cpp:169-192 | the loop, which stops after a padded block, computes the decoding or its exception |
| Base64Loops.Base64Encode | src/utils.cpp:180-226 | the three-byte accumulator writes the same string as the block encoder |
| Base64Loops.Base64Decode | src/utils.cpp:228-279 | the four-letter accumulator, up to the first character that is no letter, computes its decoding |
| Base64Loops.FindFour | src/utils.cpp:244-246 | the letters are replaced in place by their places in the alphabet |
| Base64Loops.SumsAreOrs | src/utils.cpp:193-198 | the sums of the accumulator are the ors of the block encoder |

## Left out

- The contents of SP1 to SP8 and of the 4096 literals of des_ip and des_fp: the first are arbitrary tables, or tables combined from arbitrary S-boxes where FIPS 46-3 is compared; the others are modelled as the images of lone bytes under the masked swaps, whose branch leaves the variable `work` undeclared.
- The union of single and triple DES keys: two classes with arrays of their own. The DES self-tests and test vectors.
- OpenSSL, random bytes, compute_mac and compute_session_keys: parameters, of which "deciphering undoes enciphering and keeps the length of whole blocks" and "a MAC has eight bytes" are assumed. `SecureRuns.HandshakeAgrees` and the wrapping theorems rest on these.
- CmacUnits.StandardExactlyWhen: the block function ranges over all functions from blocks to blocks; for units of more than two blocks nothing is said about permutations only. CmacUnits.TwoBlockUnits is about permutations.
- SecureChannel.ChannelIsFaithful: assumes that bytes neither end ever sent are refused, and that the reader refuses as a reply the bytes it sent itself (decrypt_rapdu checks no tags) and genuine replies with a data object above 127 bytes, which it splits in the wrong places; no MAC of eight bytes is injective, so a replay is stated as a collision of two named MAC inputs of the run rather than as impossible.
- The two status bytes after the MAC of a response are dropped, as in the code; data objects have one-byte tags.
- reset() clears k_enc_ twice and leaves k_mac_; SecureSession.Iso24727Crypto.Reset does the same.
- SecureSession.Iso24727Crypto.Step2: its assertion that no session is open is a precondition, and so is that of increment_ssc on eight bytes, which before the first step2 the empty counter fails.
- Crc.ComputeCrc: a message of length zero with CRC_A or CRC_B, for which the source reads a byte that is not there and then counts the length down from zero; Crc.KermitTable.ComputeCrcKermit likewise.
- CmacMac.ComputeCmac: a nonempty IV of another size than a block, which the key classes refuse.
- Serial port errors, closing, end of file, baud rate and port options; asio itself is the set of enabled steps. Reallocation of the write buffer under an asynchronous write and boost's ring as memory are not visible at this level. Only the default parser, or none, which takes the whole ring.
- Liveness: that an enabled step is eventually taken, and the clock, which is an arbitrary sequence of expirations.
- TLV: cyclic nodes and children changed behind their parent's back (a node owns what is below it in TlvObjects); the debug assertion on 255 bytes, without which the length is cut to a byte, as modelled.
- NDEF records are values in NdefObjects.Message, not shared objects; the language and text fields of text records are a function of the payload. XML serialization, URI prefixes as text.
- NdefObjects.TlvToMessage: follows the loop for a given number of rounds, since in areas above 0xFF00 bytes it need not end; NdefTlv.EndsExactlyWhen says when it does.
- PositionSearch.ControlTlv.CalculatePosition: addresses below 15, for which the source takes the logarithm of zero; and floating point: the logarithm is an integer floor, which a correctly rounded float logarithm agrees with for addresses below 2097151 (2^21 - 1), where it rounds up to 21. Packing of control TLVs into bytes and tlvToData, where the packed position is read back as a plain address.
- Base64 characters are bytes of ASCII; isalnum is that of the C locale. The alphabet literals are given by the ranges they list.
- Card services, reader protocols, formats, key storage, PKCS#11, TCP and UDP transports, logging and settings.
