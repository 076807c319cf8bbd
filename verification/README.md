# A verified model of fidelius

This project models the parts of the repository whose correctness rests on more than one function, and proves what
they are for. Every module states first what a component means, then carries the component itself in the form the
source has it (classes whose methods change their fields, loops over arrays, or functions), and proves one against
the other.

* **Dataflow (hpda).** `StreamOps` gives one call of each operator, `Dataflow` what an operator computes on complete
  streams, `Schedule` the invariant of the scheduler, `HpdaEngine` the engine with its queue and stack.
  `OperatorMeaning` and `OrderedSets` say what filter, concat and the ordered set operators compute, `SetResults`
  what the set operators show, key by key and column by column, and `Programs` runs the engine on graphs of them.
* **base58.** `Positional` is about positional number systems, `Base58` about the two conversions in buffers sized by
  a rational bound, and `Base58Meaning` says which texts stand for which bytes.
* **GmSSL primitives.** `Gf2Polynomials`, `Gf128` and `Ghash` for GF(2^128) and GHASH; `AesTables`, `AesField` and
  `AesCipher` for AES; `AesModes` for what the modes mean and `AesModesInPlace` for the functions on buffers;
  `Sha256Compression` and `Sha256`; `DerSpec` for DER encodings as byte strings, and `DerCodec` for the encoders and
  decoders with their pointers and lengths. `Bytes` holds words and bytes as bits. What these modules compute is
  stated in the terms of the standards, bit by bit and byte by byte, in `SBoxMeaning`, `AesMeaning`, `ModesMeaning`,
  `Sha256Meaning` and `DerMeaning`: the S-box from its definition in GF(2^8), the constants of SHA-256 from the roots
  of the primes, a round of AES as a formula on columns.
* **Tree boosting.** `Forest` and `TreeModels` are the node pool, `TreeWalk` the walk at prediction, `PruneSpec` and
  `Pruner` the pruning. `TreeGrowth`, `TreeLevels`, `ReachingRows`, `LeafWeights` and `LevelWeights` are shared by
  `ColTreeMakers` and `RowTreeMakers`; `Training` joins growing and pruning. `SplitCuts` says what a cut of a sorted
  column gains, `CutArrangements` that its order among equal values does not matter, `NodeColumns` how the columns of a
  node are built and `NodeSplits` what the best split of a node is; `SplitScans` is EnumerateSplit of both makers, and
  `OwnColumns` how one column serves all nodes. `SvdfSplits`, `SvdfTasks`, `SvdfWeights`, `SvdfGrowth` and
  `SvdfTrees` are the updater that grows depth first and prunes at once. `TreeMeaning` says what a step of a walk, a
  collapse, a weight and a cut are. `Csr` and `FMatrix` are the matrices, `GbmBases` the cached predictions.
* **CSV lines.** `ReadAhead` is the protocol between the reader and its thread as a state machine over all
  interleavings, `CsvLines` and `CsvMeaning` say what the lines of a text are, `CsvReader` is the sliding window.
* **Sealed block files.** `BlockFormat`, `BlockFiles` and `FileMeaning` for the file, `Sealing` and `SealingMeaning`
  for the sealer, the parser and the provider in the enclave.

`Lists`, `KeySets`, `Sorting`, `Options` and `OctetStrings` are shared helpers.

Some results are not what one would expect, and are stated as they are:

* A value that two functors share is lost to the second one once the first has taken it, which is why every functor
  has to feed one successor.
* DER: the comment on the decoders (asn1.c:812) promises that a decoder that does not succeed leaves its input alone.
  `FailureKeepsInput` says exactly when each does. asn1_int_to_der writes negative numbers as zero or not at all, so
  `SequenceThereAndBack` says exactly which lists come back, and `OidRoundTrip` which object identifiers.
* CSV: a second finish_read after the end has been collected waits for ever; `MayCollect` gives the exact condition,
  `EndCollectedTwice` a client that meets it, and LineReader never does.
* Block files: the end of a sealed stream arises because the first word behind the data, the start of the first block
  info, is zero, and reads as an empty item.
* The counters of CTR and GCM count modulo 2^120, as byte 0 is left alone.
* ghash reads bytes without reflecting their bits, so the field is that of gf128.c, in its own bit order.
* EnumerateSplit of the column and the row maker drops the gradients of rows without a hessian at the start of a
  column, and may then miss the best cut (`GradientsMet`, `CutMissed`). When such rows have no gradient either, it
  never does.
* asn1_object_identifier_from_octets accepts 33 nodes (`OneNodeTooMany`).
* A root that no row reaches keeps the value zero it started with, where the other leaves get their weights.

Memory is modelled by arrays and indices, numbers that wrap around are reduced where the source reduces them, and
floating point by real numbers. `dafny verify dfyconfig.toml` checks the whole project.

## Model

| member | source | states |
|---|---|---|
| HpdaEngine.Engine.Run | hpda/src/engine/engine.cpp:33-110 | terminates on every forest of functors that ends in memory_outputs; it fails exactly when there is no functor; afterwards every memory_output holds what it held followed by `Future`: the composition of all operators behind it, each run on complete streams |
| HpdaEngine.Engine.BreadthFirst | hpda/src/engine/engine.cpp:48-72 | emptying the queue keeps the scheduler invariant: queue and stack list exactly the functors of their status, each stacked functor has a value, an end or a request for every input, and nothing owed to an output is lost |
| HpdaEngine.Engine.Unwind | hpda/src/engine/engine.cpp:73-98 | unwinding the stack keeps the same invariant, stops only with an empty stack or a queued request, and lowers a measure whenever anything happens |
| HpdaEngine.Engine.Call | hpda/src/engine/engine.cpp:75-79 | process() runs on a functor without a value only when every predecessor has a value or is over, and does exactly the step of its operator |
| Schedule.TopIsReady | hpda/src/engine/engine.cpp:73-79 | on an empty queue the functor on top of the stack has no value, and each predecessor has one or is over |
| Schedule.CallKeepsOwed | hpda/src/engine/engine.cpp:75-91 | a call moves rows from what a functor owes to what it holds and changes what no other functor owes; a call without progress means it owes nothing more |
| HpdaEngine.Engine.ProcessUnion | include/hpda/processor/set/union.h:29-68 | the two loops take the least key from every stream that shows it, and show the first row with it |
| HpdaEngine.Engine.ProcessIntersection | include/hpda/processor/set/intersection.h:29-79 | with every stream present takes the least key everywhere and shows a row when all carry it; otherwise consumes nothing |
| HpdaEngine.Engine.ProcessDifference | include/hpda/processor/set/difference.h:29-68 | with the first stream present takes the least key everywhere and shows a row when only the first stream carries it |
| HpdaEngine.Engine.ProcessConcat | include/hpda/processor/transform/concat.h:23-37 | advances to the first upstream with a value from the index on, takes and shows its row |
| HpdaEngine.Engine.ProcessFilter | include/hpda/processor/query/filter.h:22-32 | takes its input, and shows that row exactly when the predicate holds of it |
| HpdaEngine.Engine.ProcessRawData | include/hpda/extractor/raw_data.h:20-31 | shows the rows one by one, then answers false |
| HpdaEngine.Engine.ProcessMemoryOutput | include/hpda/output/memory_output.h:19-30 | appends its input to the collected rows |
| OperatorMeaning.ConcatFlattens | include/hpda/processor/transform/concat.h:23-37 | the whole run of concat: its input streams one after the other, from the index it stands at |
| OperatorMeaning.FilterOverConcatMeans | include/hpda/processor/query/filter.h:22-32 | what an output on a filter on a concat of fresh sources is owed: the rows of the lists, in order, that pass the filter |
| OrderedSets.SetOperatorByKey | include/hpda/processor/set/union.h:29-68 | on strictly ascending streams union, intersection and difference (union.h, intersection.h, difference.h) show exactly the sorted union, intersection, and first-minus-rest of the keys, for any number of streams from two on |
| OrderedSets.RowAgrees | include/hpda/processor/set/intersection.h:29-60 | one row for each of these keys, which agrees with the rows that carry the key on their columns |
| OrderedSets.SetOverSourcesMeans | include/hpda/processor/set/difference.h:29-68 | what an output on a set operator on fresh sources is owed through the engine: one row per wanted key, ascending |
| Programs.RunFilterOverConcat | hpda/src/engine/engine.cpp:33-110 | running the engine on that graph leaves in the output, place by place, the rows of the sources that pass the filter: every one that passes, no other, in the order of the sources and of their rows |
| Programs.RunSetOperator | hpda/src/engine/engine.cpp:33-110 | running the engine on a set operator over sources leaves one row for every key that some, all, or only the first of the sources carry, in ascending order of the keys, with the columns their rows give it |
| Base58.EncoderBufferSuffices | ypc/common/byte/base58.cpp:90-92 | 256^n <= 58^(n*138/100+1) for every n, so the buffer never overflows |
| Base58.DecoderBufferSuffices | ypc/common/byte/base58.cpp:42-47 | 58^n <= 256^(n*733/1000+1) for every n |
| Base58.MulAdd | ypc/common/byte/base58.cpp:94-108 | one round of either conversion: the value of the buffer becomes value*mul+carry, the asserted carry == 0 holds, and digits beyond `length` stay zero |
| Base58.EncodeBase58 | ypc/common/byte/base58.cpp:81-120 | the in-place conversion yields one 1 per leading zero byte and then the shortest base-58 digits of the rest |
| Base58.DecodeBase58 | ypc/common/byte/base58.cpp:30-80 | accepts exactly the texts of base-58 digits between optional spaces, and returns the bytes they stand for |
| Base58Meaning.AlphabetAscends | ypc/common/byte/base58.cpp:11-12 | the digits ascend with their characters |
| Base58Meaning.AlphabetIs | ypc/common/byte/base58.cpp:11-28 | exactly the digits and letters but 0, I, O and l are base-58 digits, and map_base58 inverts the alphabet |
| Base58Meaning.EncodedMeans | ypc/common/byte/base58.cpp:81-120 | the text of a byte string: one 1 for each zero byte in front, then digits, the first not zero, of the same number in base 58 |
| Base58Meaning.DecodedMeans | ypc/common/byte/base58.cpp:30-80 | a text between spaces is accepted exactly when all of it is digits, and gives a zero byte for each 1 in front and then the shortest bytes of the same number |
| Base58Meaning.UpToNul | ypc/common/byte/base58.cpp:30-80 | nothing behind a NUL counts |
| Positional.ValueIs | ypc/common/byte/base58.cpp:94-108 | a digit counts for the power of the base of the digits behind it |
| Base58.EncodeThenDecode | ypc/common/byte/base58.cpp:30-120 | decoding an encoded byte string succeeds and returns it, leading zeros included |
| Base58.DecodeThenEncode | ypc/common/byte/base58.cpp:30-120 | encoding what was decoded gives the accepted text back, without the spaces around it |
| Gf2Polynomials.ModulusIs | ypc/stbox/src/gmssl/gf128.c:152-165 | the modulus has the coefficients of x^128, x^7, x^2, x and 1, and no others |
| Gf128.GfMul | ypc/stbox/src/gmssl/gf128.c:109-150 | the loop over two 64-bit words computes the product in GF(2^128) |
| Gf128.GfMul2 | ypc/stbox/src/gmssl/gf128.c:152-165 | is the product with x |
| Gf2Polynomials.Division | ypc/stbox/src/gmssl/gf128.c:109-150 | a*x^128 is modulus times quotient plus remainder, for the modulus x^128+x^7+x^2+x+1 |
| Gf2Polynomials.RemainderIsUnique | ypc/stbox/src/gmssl/gf128.c:109-150 | that remainder is the only one of degree below 128 |
| Gf2Polynomials.ProductIsRemainder | ypc/stbox/src/gmssl/gf128.c:109-150 | the product is the remainder of the carryless product of the polynomials |
| Gf2Polynomials.Commutative | ypc/stbox/src/gmssl/gf128.c:109-150 | the product is commutative |
| Gf2Polynomials.Associative | ypc/stbox/src/gmssl/gf128.c:109-150 | the product is associative |
| Gf2Polynomials.RightLinear | ypc/stbox/src/gmssl/gf128.c:101-150 | it distributes over gf128_add, commutes with doubling, and has one as its unit |
| Ghash.AbsorbIsSum | ypc/stbox/src/gmssl/gcm.c:71-116 | the block recursion of section 6.4 of NIST SP 800-38D equals the sum of block i times H^(k+1-i) |
| Ghash.BlocksAre | ypc/stbox/src/gmssl/gcm.c:80-110 | the blocks are the bytes of the data with zeros behind the end |
| Ghash.AllBlocksAre | ypc/stbox/src/gmssl/gcm.c:71-116 | the blocks of the AAD, those of C, and a last one whose first 64 bits are 8 times the length of the AAD and whose last 64 bits are 8 times the length of C, for lengths below 2^61 |
| Ghash.GhashSteps | ypc/stbox/src/gmssl/gcm.c:71-116 | ghash by the recursion of section 6.4 of NIST SP 800-38D: from zero, add a block, multiply by H |
| Ghash.GhashInto | ypc/stbox/src/gmssl/gcm.c:71-116 | ghash, also with h and out in one array, computes that sum over zero-padded AAD, zero-padded C and the length block |
| SBoxMeaning.SBoxIs | ypc/stbox/src/gmssl/aes.c:58-76 | section 5.1.1 of FIPS 197: for every byte but zero its product with the inverse affine image of its S-box entry is one in GF(2^8), and for zero that image is zero |
| SBoxMeaning.ProductLaws | ypc/stbox/src/gmssl/aes.c:310-320 | that product is linear, doubling a factor by x2 doubles it, and one is neutral, which determines it |
| AesMeaning.ConstantsAre | ypc/stbox/src/gmssl/aes.c:316-343 | x2, x3, x9, xb, xd and xe multiply by 2, 3, 9, 11, 13 and 14 |
| AesMeaning.RconIs | ypc/stbox/src/gmssl/aes.c:96-98 | the round constants are 1 and then always the double of the one before |
| AesField.SBoxInverse | ypc/stbox/src/gmssl/aes.c:58-94 | S_inv undoes S for all 256 bytes |
| AesField.MixInverse | ypc/stbox/src/gmssl/aes.c:318-391 | inv_mix_columns undoes mix_columns over GF(2^8) |
| AesCipher.AesKey.SetEncryptKey | ypc/stbox/src/gmssl/aes.c:128-174 | writes the key expansion of section 5.2 of FIPS 197 for keys of 16, 24 and 32 bytes, and fails for any other |
| AesCipher.AesKey.SetDecryptKey | ypc/stbox/src/gmssl/aes.c:176-202 | writes the round keys in reverse order |
| AesMeaning.KeyScheduleIs | ypc/stbox/src/gmssl/aes.c:128-156 | the expanded key has four words a round and four more, and starts with the bytes of the key |
| AesMeaning.KeyWordAdds | ypc/stbox/src/gmssl/aes.c:157-168 | every later word is the one a key length before it plus the word before it, which is rotated, substituted and given a round constant at the start of a key length, and only substituted in the middle of a 32-byte one |
| AesMeaning.DecryptKeyIs | ypc/stbox/src/gmssl/aes.c:186-191 | the round keys of decryption are those of encryption, the last one first |
| AesMeaning.FirstState | ypc/stbox/src/gmssl/aes.c:403-417 | section 5.1 of FIPS 197 on columns of bytes: the first state is the block plus the first round key |
| AesMeaning.NextState | ypc/stbox/src/gmssl/aes.c:419-425 | a round takes one byte each of four columns through the S-box, multiplies them by the matrix of 2 3 1 1 and adds the round key |
| AesMeaning.LastState | ypc/stbox/src/gmssl/aes.c:427-440 | the last round does the same without the matrix and gives the output bytes |
| AesCipher.AesEncrypt | ypc/stbox/src/gmssl/aes.c:403-441 | the in-place rounds write the cipher of the block, and touch nothing else of the output |
| AesCipher.AesDecrypt | ypc/stbox/src/gmssl/aes.c:443-481 | the same for the inverse cipher |
| AesCipher.RoundsUndone | ypc/stbox/src/gmssl/aes.c:403-481 | after n rounds of decryption the state is that of encryption n rounds before its end |
| AesCipher.DecryptUndoesEncrypt | ypc/stbox/src/gmssl/aes.c:128-481 | for every key of 16, 24 or 32 bytes and every block decryption undoes encryption |
| AesModesInPlace.CbcPaddingEncrypt | ypc/stbox/src/gmssl/aes_modes.c:82-102 | writes the CBC encryption of the text padded as in section 6.3 of RFC 5652, and nothing else |
| AesModesInPlace.CbcPaddingDecrypt | ypc/stbox/src/gmssl/aes_modes.c:104-131 | answers 0, -1 or 1 with the text as `PaddingDecrypted` says, for every input |
| AesModes.PaddingRoundTrip | ypc/stbox/src/gmssl/aes_modes.c:82-131 | decryption gives back every text that was padded and encrypted |
| AesModesInPlace.CtrIncr | ypc/stbox/src/gmssl/aes_modes.c:133-140 | steps the counter in place |
| AesModes.IncrementCounts | ypc/stbox/src/gmssl/aes_modes.c:133-140 | bytes 1 to i count modulo 256^i, and byte 0 is left alone |
| AesModes.CounterSteps | ypc/stbox/src/gmssl/aes_modes.c:133-156 | block j uses the start counter plus j modulo 2^120 in bytes 1 to 15 |
| AesModesInPlace.CtrEncrypt | ypc/stbox/src/gmssl/aes_modes.c:142-156 | adds the stream of those counter blocks to the text, and leaves the counter behind the last block used |
| AesModesInPlace.GcmEncrypt | ypc/stbox/src/gmssl/aes_modes.c:158-195 | writes the ciphertext and the tag over AAD and ciphertext, and nothing else |
| AesModesInPlace.GcmDecrypt | ypc/stbox/src/gmssl/aes_modes.c:197-235 | answers 1 with the text when the tag is right, else -1 with the output untouched |
| ModesMeaning.CbcMeans | ypc/stbox/src/gmssl/aes_modes.c:58-67 | block i of a CBC encryption is the encryption of block i of the text plus the block before it, or the initialization vector |
| ModesMeaning.PaddedMeans | ypc/stbox/src/gmssl/aes_modes.c:82-102 | the padding is 1 to 16 bytes up to a multiple of 16, each holding their number |
| ModesMeaning.AnswerMeans | ypc/stbox/src/gmssl/aes_modes.c:104-131 | decryption of the encryption of any text drops as many bytes as its last byte says, from 1 to 16, and answers -1 otherwise; 0 for no input and -1 for lengths that are no multiple of 16 |
| ModesMeaning.CounterMeans | ypc/stbox/src/gmssl/aes_modes.c:133-140 | the counter block j steps on has the same byte 0 and, in the other fifteen, the number plus j modulo 2^120 |
| ModesMeaning.NumberMeans | ypc/stbox/src/gmssl/aes_modes.c:133-140 | the number in the counter is big-endian |
| ModesMeaning.StreamMeans | ypc/stbox/src/gmssl/aes_modes.c:142-156 | byte k of a stream is that of the text plus byte k % 16 of the encrypted counter block k / 16 steps on |
| ModesMeaning.FirstCounterMeans | ypc/stbox/src/gmssl/aes_modes.c:171-177 | a 12-byte iv is followed by 0, 0, 0, 1; any other one is hashed without AAD |
| ModesMeaning.GcmMeans | ypc/stbox/src/gmssl/aes_modes.c:181-190 | the text is encrypted with the counter blocks behind the first |
| ModesMeaning.TagMeans | ypc/stbox/src/gmssl/aes_modes.c:168-193 | byte k of the tag is that of the hash of AAD and ciphertext, under the encryption of zeros, plus that of the encrypted first counter block |
| AesModes.GcmRoundTrip | ypc/stbox/src/gmssl/aes_modes.c:158-235 | for any iv, AAD, text and tag length up to 16, decryption of the ciphertext accepts exactly the tag of encryption, and then returns the text |
| Sha256Compression.CompressBlocks | ypc/stbox/src/gmssl/sha256.c:80-137 | the compression of section 6.2.2 of FIPS 180-4, folded over the blocks |
| Sha256Meaning.RoundConstants0 | ypc/stbox/src/gmssl/sha256.c:62-63 | section 4.2.2 of FIPS 180-4: the round constants 0 to 7 are the first 32 bits of the fractional parts of the cube roots of the primes 2 to 19 |
| Sha256Meaning.RoundConstants1 | ypc/stbox/src/gmssl/sha256.c:64-65 | the same for 8 to 15 and the primes 23 to 53 |
| Sha256Meaning.RoundConstants2 | ypc/stbox/src/gmssl/sha256.c:66-67 | the same for 16 to 23 and the primes 59 to 89 |
| Sha256Meaning.RoundConstants3 | ypc/stbox/src/gmssl/sha256.c:68-69 | the same for 24 to 31 and the primes 97 to 131 |
| Sha256Meaning.RoundConstants4 | ypc/stbox/src/gmssl/sha256.c:70-71 | the same for 32 to 39 and the primes 137 to 173 |
| Sha256Meaning.RoundConstants5 | ypc/stbox/src/gmssl/sha256.c:72-73 | the same for 40 to 47 and the primes 179 to 223 |
| Sha256Meaning.RoundConstants6 | ypc/stbox/src/gmssl/sha256.c:74-75 | the same for 48 to 55 and the primes 227 to 263 |
| Sha256Meaning.RoundConstants7 | ypc/stbox/src/gmssl/sha256.c:76-77 | the same for 56 to 63 and the primes 269 to 311 |
| Sha256Meaning.InitialConstants256 | ypc/stbox/src/gmssl/sha256.c:139-150 | the initial words are the first 32 bits of the fractional parts of the square roots of the first eight primes |
| Sha256Meaning.InitialConstants224 | ypc/stbox/src/gmssl/sha256.c:219-230 | those of SHA-224 are the second 32 bits for the ninth to sixteenth prime |
| Sha256Meaning.SumIs | ypc/stbox/src/gmssl/sha256.c:80-137 | additions are modulo 2^32 |
| Sha256Meaning.FunctionsAre | ypc/stbox/src/gmssl/sha256.c:54-55 | bit by bit, Ch chooses and Maj is the majority |
| Sha256Meaning.BigSigmasAre | ypc/stbox/src/gmssl/sha256.c:56-57 | the bits of both big sigma functions by index |
| Sha256Meaning.SmallSigmasAre | ypc/stbox/src/gmssl/sha256.c:58-59 | the bits of both small ones |
| Sha256Meaning.ScheduleMeans | ypc/stbox/src/gmssl/sha256.c:106-112 | the message schedule: the bits of the block, big-endian, and the recurrence of section 6.2.2 behind them |
| Sha256Meaning.RoundMeans | ypc/stbox/src/gmssl/sha256.c:97-125 | what a round makes of the eight working variables |
| Sha256Meaning.CompressMeans | ypc/stbox/src/gmssl/sha256.c:127-134 | the variables after 64 rounds are added to the state |
| Sha256Meaning.PaddingMeans | ypc/stbox/src/gmssl/sha256.c:184-200 | the padded message: the message, the byte 0x80, zeros, and the length in bits as a number of 64 bits |
| Sha256Meaning.FoldMeans | ypc/stbox/src/gmssl/sha256.c:80-137 | the blocks are compressed one after the other, 64 bytes each |
| Sha256Meaning.DigestMeans | ypc/stbox/src/gmssl/sha256.c:201-207 | bit by bit, the digest is the state words in order, big-endian |
| Sha256.GapIsSmallest | ypc/stbox/src/gmssl/sha256.c:184-200 | the zeros of the padding are the fewest that give whole blocks (section 5.1.1 of FIPS 180-4) |
| Sha256.PadIsInjective | ypc/stbox/src/gmssl/sha256.c:184-200 | different messages of up to 2^64 bits are padded differently |
| Sha256.Sha256Ctx.Update | ypc/stbox/src/gmssl/sha256.c:152-182 | a context that has taken m has afterwards taken m and the new data |
| Sha256.Sha256Ctx.Finish | ypc/stbox/src/gmssl/sha256.c:184-207 | the digest of all that was taken, for totals below 2^61 bytes |
| Sha256.DigestOfPieces | ypc/stbox/src/gmssl/sha256.c:139-207 | however a message is cut into updates, the digest is the one of the whole |
| Sha256.Sha256Digest | ypc/stbox/src/gmssl/sha256.c:209-217 | the compression folded over the padded message |
| Sha256.Sha224Digest | ypc/stbox/src/gmssl/sha256.c:219-252 | the first 28 bytes of the same from the other initial state |
| DerSpec.LengthRoundTrip | ypc/stbox/src/gmssl/asn1.c:178-278 | a length comes back exactly when it is below 2^32 |
| DerSpec.LengthIsShortest | ypc/stbox/src/gmssl/asn1.c:178-204 | no encoding the decoder accepts for a length is shorter (section 10.1 of ITU-T X.690) |
| DerMeaning.LengthMeans | ypc/stbox/src/gmssl/asn1.c:178-204 | a length below 128 is one octet; others have 128 plus their number of octets first, and then the number, big-endian without leading zeros, cut to 32 bits |
| DerMeaning.IntegerMeans | ypc/stbox/src/gmssl/asn1.c:432-465 | an integer is its tag, a length and contents of the same number that are not negative and whose first nine bits are not all zero (section 8.3 of X.690) |
| DerMeaning.IntMeans | ypc/stbox/src/gmssl/asn1.c:467-487 | an int is tag 2, one octet of length and such contents |
| DerMeaning.NodeMeans | ypc/stbox/src/gmssl/asn1.c:557-580 | a node is its base-128 digits, with the high bit on all octets but the last |
| DerMeaning.OidMeans | ypc/stbox/src/gmssl/asn1.c:611-627 | the first two nodes share an octet, the others follow one by one, behind tag 6 and a length |
| DerMeaning.LengthReads | ypc/stbox/src/gmssl/asn1.c:239-278 | what is read as a length: an octet below 128, or 128 + k and k octets, k from 1 to 4; nothing else is |
| DerMeaning.IntegerReads | ypc/stbox/src/gmssl/asn1.c:840-876 | contents that are negative are refused with -255, none, or two zero octets in front of others, with -1, and one zero octet in front is dropped |
| DerMeaning.IntReads | ypc/stbox/src/gmssl/asn1.c:878-902 | up to eight octets are read as a number and brought into the range of 32 bits, modulo 2^32 |
| DerMeaning.NodeReads | ypc/stbox/src/gmssl/asn1.c:582-609 | a node is read up to the first octet below 128, of at most five, the first of five holding four bits |
| DerMeaning.ContentsMean | ypc/stbox/src/gmssl/asn1.c:1108-1126 | a sequence is tag 0x30, a length and the encodings of its ints in order, a negative one as zero |
| DerMeaning.TypeReads | ypc/stbox/src/gmssl/asn1.c:320-336 | a tag, a length and that many octets are read, whatever follows; another tag leaves the input, a bad length only takes the tag |
| DerMeaning.TooShort | ypc/stbox/src/gmssl/asn1.c:320-336 | a length greater than what is left is refused with -1 |
| DerMeaning.NoNode | ypc/stbox/src/gmssl/asn1.c:582-609 | without an octet below 128 among the first five there is no node |
| DerMeaning.OidReads | ypc/stbox/src/gmssl/asn1.c:629-668 | the first octet gives two nodes and every further node one, as long as no more than 32 have been read before |
| DerSpec.FailureKeepsInput | ypc/stbox/src/gmssl/asn1.c:808-816 | the comment says a decoder that does not succeed leaves the input alone: asn1_integer_from_der does; asn1_type_from_der and the decoders of sequences and object identifiers do exactly when the tag is not there; asn1_int_from_der but for integers of more than 8 octets |
| DerSpec.InputsLost | ypc/stbox/src/gmssl/asn1.c:808-816 | inputs that are consumed although decoding fails |
| DerSpec.IntegerRoundTrip | ypc/stbox/src/gmssl/asn1.c:432-465 | a magnitude comes back without its leading zeros |
| DerSpec.SequenceRoundTrip | ypc/stbox/src/gmssl/asn1.c:1108-1150 | an encoded list of non-negative ints comes back and what follows it is left |
| DerSpec.NodeRoundTrip | ypc/stbox/src/gmssl/asn1.c:557-609 | every 32-bit node comes back from base 128, in at most five octets and without a leading 0x80 (section 8.19 of X.690) |
| DerSpec.OneNodeTooMany | ypc/stbox/src/gmssl/asn1.c:629-668 | the count is tested before a node is stored, so exactly the identifiers of up to 33 nodes are accepted, one more than ASN1_OID_MAX_NODES |
| DerSpec.OidRoundTrip | ypc/stbox/src/gmssl/asn1.c:611-668 | an object identifier comes back exactly when its second node is below 40 and the first octet fits |
| DerCodec.LengthToDer | ypc/stbox/src/gmssl/asn1.c:178-204 | a real run writes exactly the length octets at the position; a dry run (out == NULL) adds exactly their number to outlen |
| DerCodec.TypeToDer | ypc/stbox/src/gmssl/asn1.c:304-318 | the same for tag, length and data |
| DerCodec.IntegerToDer | ypc/stbox/src/gmssl/asn1.c:432-465 | the same for an integer; nothing is written or counted when it answers -1 |
| DerCodec.IntToDer | ypc/stbox/src/gmssl/asn1.c:467-487 | the same for an int: nothing for -1, zero for other negative numbers |
| DerCodec.SequenceOfIntToDer | ypc/stbox/src/gmssl/asn1.c:1108-1126 | the dry pass over the numbers counts what the second pass writes, so both modes agree with the encoded sequence |
| DerCodec.NodeToDer | ypc/stbox/src/gmssl/asn1.c:557-580 | the loops over the local buffer write, or count, the base-128 octets of a node |
| DerCodec.OidToDer | ypc/stbox/src/gmssl/asn1.c:670-681 | the same for an object identifier of at most 32 octets |
| DerCodec.LengthFromDer | ypc/stbox/src/gmssl/asn1.c:239-278 | the cursor advances over the length octets, with -1 for none and -2 for more than is left |
| DerCodec.TypeFromDer | ypc/stbox/src/gmssl/asn1.c:320-336 | the cursor agrees with the decoder as a function, result, rest and data, for every input |
| DerCodec.IntegerFromDer | ypc/stbox/src/gmssl/asn1.c:840-876 | the same; the pointers are stored only on success |
| DerCodec.IntFromDer | ypc/stbox/src/gmssl/asn1.c:878-902 | the same, with the value reduced to 32 bits as the shifts do |
| DerCodec.SequenceOfIntFromDer | ypc/stbox/src/gmssl/asn1.c:1128-1150 | the same for a sequence of ints |
| DerCodec.OidFromDer | ypc/stbox/src/gmssl/asn1.c:1001-1018 | the same for an object identifier |
| DerCodec.SequenceThereAndBack | ypc/stbox/src/gmssl/asn1.c:1108-1150 | any list of ints: it is refused exactly when it holds -1; otherwise a dry run sizes a buffer, a real run fills it exactly, and decoding leaves what follows and gives the list back, with zeros for negative numbers, so the list itself exactly when it has none |
| DerCodec.OidThereAndBack | ypc/stbox/src/gmssl/asn1.c:611-687 | the same for object identifiers that fit |
| TreeModels.TreeModel.InitModel | include/xgboost/booster/tree/xgboost_tree_model.h:232-241 | a fresh model is a forest of num_roots leaves of value zero |
| TreeModels.TreeModel.AddChilds | include/xgboost/booster/tree/xgboost_tree_model.h:277-287 | two nodes not in use, recycled before new ones, become the children; links stay mutually consistent and every other node is as it was |
| TreeModels.TreeModel.ChangeToLeaf | include/xgboost/booster/tree/xgboost_tree_model.h:189-197 | both leaves go to the list of deleted nodes, num_deleted is its length, and exactly the deleted non-roots have no parent |
| TreeModels.TreeModel.CollapseToLeaf | include/xgboost/booster/tree/xgboost_tree_model.h:203-214 | everything below the node is deleted and nothing else changes |
| TreeModels.TreeModel.GetDepth | include/xgboost/booster/tree/xgboost_tree_model.h:299-308 | ends, as the forest has no cycle, with the level of the node |
| TreeModels.SaveThenLoad | include/xgboost/booster/tree/xgboost_tree_model.h:245-275 | loading what was saved is accepted and rebuilds the same forest and the same free set |
| TreeMeaning.CollapsesAll | include/xgboost/booster/tree/xgboost_base_treemaker.hpp:94-127 | when a node collapses, every split at or below it gains too little and nothing there is open |
| TreeMeaning.KeptBy | include/xgboost/booster/tree/xgboost_base_treemaker.hpp:94-127 | when it does not, some split at or below it gains enough, or something is open |
| PruneSpec.PrunedIsMaximal | include/xgboost/booster/tree/xgboost_base_treemaker.hpp:94-127 | no split with two leaf children and too little gain is left |
| Pruner.BaseTreeMaker.DoPrune | include/xgboost/booster/tree/xgboost_base_treemaker.hpp:112-127 | on a tree whose child ids exceed their parents the result is the maximal collapse from below: it counts every leaf child once, returns the growth of num_deleted, and a collapsed split is a leaf with its base weight times the learning rate |
| TreeMeaning.WalkMeans | include/xgboost/booster/tree/xgboost_tree.hpp:279-289 | a step of a walk: left for an entry below the split condition, right for any other entry of the feature, the default branch for none, and an end at a node without children |
| TreeWalk.GetLeafIndex | include/xgboost/booster/tree/xgboost_tree.hpp:137-148 | returns the leaf the walk by GetNext leads to |
| TreeWalk.Predict | include/xgboost/booster/tree/xgboost_tree.hpp:130-136 | returns the value of that leaf, and the scratch vectors are all unknown again |
| TreeWalk.OneLeaf | include/xgboost/booster/tree/xgboost_tree.hpp:137-148 | a walk leads to one leaf only |
| TreeMeaning.WeighedMeans | include/xgboost/booster/tree/xgboost_base_treemaker.hpp:94-110 | a leaf holds the learning rate times, and a split stores, what CalcWeight gives for the sums over its rows and the weight of the parent, zero for a root |
| TreeMeaning.CutMeans | include/xgboost/booster/tree/xgboost_svdf_tree.hpp:219-290 | a cut that is looked at: its values are more than 2e-5 apart, both sides heavy enough, its gain the scores of both sides above that of the node, and no cut before it has one side heavy enough and the other not |
| TreeMeaning.CutFound | include/xgboost/booster/tree/xgboost_svdf_tree.hpp:219-290 | every such cut is one of those that are looked at |
| ColTreeMakers.ColTreeMaker.InitNewNode | include/xgboost/booster/tree/xgboost_col_treemaker.hpp:78-116 | one pass over the rows gives every node of the level the weight of exactly the rows whose walk is there |
| ColTreeMakers.ColTreeMaker.ResetPosition | include/xgboost/booster/tree/xgboost_col_treemaker.hpp:221-272 | whatever the order of split features, every position takes one step of the walk, or becomes -1 at a leaf |
| CutArrangements.AnyArrangement | include/xgboost/booster/tree/xgboost_svdf_tree.hpp:357-371 | however std::sort arranges equal values, the cuts of a column and their gains are the same, so what is best does not depend on it |
| SplitScans.GradientsMet | include/xgboost/booster/tree/xgboost_col_treemaker.hpp:140-165 | while the hessians met add up to zero every entry replaces those before it, so the gradients recorded are the true ones exactly when the dropped ones add up to zero |
| SplitScans.CutMissed | include/xgboost/booster/tree/xgboost_col_treemaker.hpp:140-181 | a column whose first row has no hessian: no split is found, though a cut gains 50 |
| SplitScans.PassedIsBest | include/xgboost/booster/tree/xgboost_row_treemaker.hpp:141-190 | when rows without a hessian have no gradient and a child needs some weight, a pass of the row maker, whether it gives up early or not, finds the best cut of the column |
| OwnColumns.OwnSearched | include/xgboost/booster/tree/xgboost_col_treemaker.hpp:122-183 | a search among the entries of a column whose rows stand at a node finds what a search of the sorted column of the rows of the node would |
| ColTreeMakers.ColTreeMaker.EnumerateSplit | include/xgboost/booster/tree/xgboost_col_treemaker.hpp:122-183 | one pass over a column does for every node of the level what a pass over its own entries would |
| ColTreeMakers.ColTreeMaker.SearchLevel | include/xgboost/booster/tree/xgboost_col_treemaker.hpp:186-219 | every node of the level gets the best of all cuts of all features of its rows, with its gain |
| LevelWeights.SplitIsBest | include/xgboost/booster/tree/xgboost_col_treemaker.hpp:186-219 | what Make of either maker leaves behind: a node above the deepest level is split exactly when some cut gains more than rt_eps, and then at a cut that attains the maximum, of the lowest feature with such a cut, half way between the values beside it |
| ColTreeMakers.ColTreeMaker.Make | include/xgboost/booster/tree/xgboost_col_treemaker.hpp:35-58 | a node above the deepest level is split exactly when the best split found gains enough, which is the best of all cuts of all features when rows without a hessian have no gradient; every leaf holds the learning rate times the weight of exactly the rows led to it; positions agree with GetLeafIndex |
| RowTreeMakers.RowTreeMaker.WithRoots | include/xgboost/booster/tree/xgboost_row_treemaker.hpp:341-385 | the builder groups the rows by root, in order |
| RowTreeMakers.RowTreeMaker.MakeSplit | include/xgboost/booster/tree/xgboost_row_treemaker.hpp:213-250 | the range of a node is divided stably between its children, and every other range stays |
| RowTreeMakers.RowTreeMaker.InitNewNode | include/xgboost/booster/tree/xgboost_row_treemaker.hpp:109-136 | the ranges give every node of the level the weight of exactly the rows whose walk is there |
| RowTreeMakers.RowTreeMaker.EnumerateSplit | include/xgboost/booster/tree/xgboost_row_treemaker.hpp:141-190 | the loop with its early return: the whole pass, or the pass up to the first gap behind which too little is left |
| RowTreeMakers.RowTreeMaker.SearchSplit | include/xgboost/booster/tree/xgboost_row_treemaker.hpp:253-327 | the columns built from the rows of the node, sorted and searched in both directions, give the best of all cuts of all features, and tmp_rptr is zero again |
| RowTreeMakers.RowTreeMaker.Make | include/xgboost/booster/tree/xgboost_row_treemaker.hpp:41-58 | the same shape, splits and leaf values; the range of a node holds, in order, exactly the rows led to it, ranges are disjoint, and every row that takes part stands in the range of one leaf and no other |
| RowTreeMakers.RowsCovered | include/xgboost/booster/tree/xgboost_row_treemaker.hpp:213-250 | with nothing left to decide the leaf ranges cover all rows that take part, each row in the one leaf its walk leads to |
| Training.PrunedWalk | include/xgboost/booster/tree/xgboost_base_treemaker.hpp:112-127 | after pruning a row is led to the first node on its walk that collapses: the nearest survivor above its leaf |
| Training.PrunedWeighed | include/xgboost/booster/tree/xgboost_base_treemaker.hpp:94-110 | a node that survives holds the weight of exactly the rows that come to it after pruning |
| Training.MakeByColumn | include/xgboost/booster/tree/xgboost_col_treemaker.hpp:35-58 | Make with its DoPrune: shape, splits, pruning, leaf values and the walks of all rows together |
| Training.MakeByRow | include/xgboost/booster/tree/xgboost_row_treemaker.hpp:41-62 | the same for the row maker |
| Csr.Builder.SegmentIs | include/xgboost/utils/xgboost_matrix_csr.h:51-113 | in both modes, once all announced elements are pushed the segment of a row is exactly the elements pushed to it, in order |
| Csr.Builder.Finish | include/xgboost/utils/xgboost_matrix_csr.h:115-127 | after Cleanup rptr is all zero again |
| FMatrix.FMatrixS.AddRow | include/xgboost/booster/xgboost_data.h:221-234 | appends one row: the entries whose feature lies in the range asked for, in order |
| FMatrix.FMatrixS.InitData | include/xgboost/booster/xgboost_data.h:273-293 | builds columns sorted by value that hold exactly the entries of the rows |
| FMatrix.FMatrixS.ColumnMatchesRows | include/xgboost/booster/xgboost_data.h:258-293 | (r, v) stands in column f exactly when row r has value v for feature f |
| FMatrix.ForwardEntries | include/xgboost/booster/xgboost_data.h:154-171 | a loop over ColIter meets the column in order |
| FMatrix.BackwardEntries | include/xgboost/booster/xgboost_data.h:174-185 | a loop over ColBackIter meets it in reverse |
| SvdfSplits.EnumerateSplit | include/xgboost/booster/tree/xgboost_svdf_tree.hpp:219-290 | the interval chosen holds exactly the entries GetNext sends to the child that is not the default one; it is cut at a gap, half way between both values, or 1e-5 beyond the last one, leaves both children heavy enough, and its recorded gain is the gain of that cut; no admissible cut of the column that the search reaches gains more |
| SvdfTasks.RemoveAndAppend | include/xgboost/booster/tree/xgboost_svdf_tree.hpp:184-202 | the in-place merge leaves the range without the chosen rows, in order, then the chosen rows |
| SvdfTrees.IntervalTakes | include/xgboost/booster/tree/xgboost_svdf_tree.hpp:233-290 | the rows of the interval are exactly the rows of the node that leave the default branch |
| SvdfTrees.RTreeUpdater.Grouped | include/xgboost/booster/tree/xgboost_svdf_tree.hpp:390-440 | init_tasks with group ids: the rows with a hessian that is not negative, grouped by root, one range per group that is not empty |
| SvdfTrees.RTreeUpdater.MakeSplit | include/xgboost/booster/tree/xgboost_svdf_tree.hpp:172-216 | both parts go onto the stack, sorted, disjoint from all other ranges, with the rows that walk to each child |
| SvdfTrees.RTreeUpdater.TryPruneLeaf | include/xgboost/booster/tree/xgboost_svdf_tree.hpp:137-152 | pruning while growing keeps stack, counts and weights in order, and every leaf stands for something grown from its rows in which every split gains too little |
| SvdfTrees.RTreeUpdater.Expand | include/xgboost/booster/tree/xgboost_svdf_tree.hpp:298-386 | a node is split exactly when it may be and some cut that the search reaches gains more than rt_eps; then the split is such a cut, its condition half way between the values beside it, the stored loss_chg is its gain, and no cut of any feature that is reached gains more |
| SvdfTrees.GainOfChildren | include/xgboost/booster/tree/xgboost_svdf_tree.hpp:219-290 | the gain stored for a split is the score of the rows of its left child plus that of the right one, above the score of the node, and both children are heavy enough |
| NodeSplits.NoSplitMissed | include/xgboost/booster/tree/xgboost_svdf_tree.hpp:219-290 | the search may give up early; without negative hessians among the rows of the node it misses nothing, so no admissible cut of any feature gains more |
| SvdfTrees.RTreeUpdater.DoBoost | include/xgboost/booster/tree/xgboost_svdf_tree.hpp:447-457 | ends; every row is led to a leaf, and every node that is left holds the weight of exactly the rows led to it, a split is at a best cut of them, and a leaf stands for what growing them on would give and pruning take away: splits that all gain less than min_split_loss |
| SvdfGrowth.CutStands | include/xgboost/booster/tree/xgboost_svdf_tree.hpp:137-152 | a split between two leaves, each standing for splits that gain too little, stands for them and itself once it is pruned |
| SvdfTrees.HeldRows | include/xgboost/booster/tree/xgboost_svdf_tree.hpp:390-457 | at any time a stacked range holds exactly the rows whose walk comes to its node |
| SvdfTrees.EveryRowOnce | include/xgboost/booster/tree/xgboost_svdf_tree.hpp:447-457 | at any time every row of the initial idset is led to a finished leaf or held by exactly one stacked range, never both |
| GbmBases.GBMBase.Predict | include/xgboost/booster/xgboost_gbmbase.h:202-225 | buffered prediction equals the sum from scratch over all boosters, in that order, for an addition that need not be associative; the buffer invariant stays |
| GbmBases.GBMBase.DoBoost | include/xgboost/booster/xgboost_gbmbase.h:188-196 | a new booster keeps every buffered sum valid |
| GbmBases.SlotsDistinct | include/xgboost/regression/xgboost_reg.h:45-80 | rows of the training data and the evaluation sets never share a slot |
| GbmBases.RegBoostLearner.UpdateOneIter | include/xgboost/regression/xgboost_reg.h:153-160 | the booster is trained on predictions equal to those from scratch |
| GbmBases.RegBoostLearner.EvalOneIter | include/xgboost/regression/xgboost_reg.h:164-175 | so are all evaluations |
| GbmBases.UpdateInteract | include/xgboost/regression/xgboost_reg.h:193-218 | over reals: the booster is trained again on the predictions of all others, and afterwards every slot is the sum of all boosters |
| ReadAhead.InvAlways | include/toolkit/plugins/csv/csv.h:206-276 | the protocol invariant holds in every interleaving |
| ReadAhead.FinishReadIsServed | include/toolkit/plugins/csv/csv.h:210-266 | whenever finish_read waits, the worker is neither gone nor asleep, and its next turn answers and wakes it |
| ReadAhead.JoinEnds | include/toolkit/plugins/csv/csv.h:267-276 | the destructor never hangs |
| ReadAhead.ReadsOnlyWhileOpen | include/toolkit/plugins/csv/csv.h:218-240 | the worker touches its block only between start_read and the return of its finish_read |
| ReadAhead.MayCollect | include/toolkit/plugins/csv/csv.h:253-266 | entering finish_read hangs for ever exactly when the end has been collected and no error is pending |
| ReadAhead.EndCollectedTwice | include/toolkit/plugins/csv/csv.h:245-266 | a run that gets there: read to the end, collect it, start another read |
| ReadAhead.StuckForever | include/toolkit/plugins/csv/csv.h:253-266 | such a wait never ends, whatever follows |
| CsvReader.AsynchronousReader.FinishRead | include/toolkit/plugins/csv/csv.h:253-266 | returns the next block of the source while the two blocks of the window stay untouched |
| CsvReader.AsynchronousReader.Interleave | include/toolkit/plugins/csv/csv.h:210-240 | any number of worker turns at any time change nothing a client can see |
| CsvReader.LineReader.NextLine | include/toolkit/plugins/csv/csv.h:446-495 | for every text: the next line as a C string, without one trailing carriage return, never cut at a block edge; or the too-long answer exactly for lines of block_len and more; or the end |
| CsvReader.ReadAll | include/toolkit/plugins/csv/csv.h:349-495 | reading to the end gives exactly the lines of the file behind a byte order mark, up to the first that is too long |
| CsvMeaning.LinesMean | include/toolkit/plugins/csv/csv.h:446-495 | the first line is what is before the first newline, or all of the text; the others are the lines of what is behind that newline; reading stops at a line that reaches the limit |
| CsvMeaning.LineMeans | include/toolkit/plugins/csv/csv.h:479-494 | what is seen of a line is what is before its first NUL, without one carriage return at its end |
| CsvMeaning.TextMeans | include/toolkit/plugins/csv/csv.h:349-364 | a byte order mark EF BB BF in front is skipped |
| CsvLines.LinesOfWritten | include/toolkit/plugins/csv/csv.h:446-495 | lines written with either line ending come back as they were |
| CsvLines.LastNewlineOptional | include/toolkit/plugins/csv/csv.h:446-495 | the newline of a last line that is not empty may be missing |
| BlockFiles.BlockFile.AppendItem | include/ypc/corecommon/blockfile/blockfile_base_r.h:75-114 | the item and its length go behind the data; the block infos go on tiling items and bytes, every block but the last exactly full |
| BlockFiles.BlockFile.Close | include/ypc/corecommon/blockfile/blockfile_base_r.h:153-167 | the file is the packed items, then the block infos, then the header |
| FileMeaning.FileMeans | include/ypc/corecommon/blockfile/blockfile_base_r.h:153-167 | the bytes of a closed file: each item behind its length, 32 bytes for each block info, 64 bytes of header |
| FileMeaning.LeMeans | include/ypc/corecommon/blockfile/blockfile_base_r.h:75-114 | a stored number is its digits of base 256, the lowest first |
| FileMeaning.TilesMean | include/ypc/corecommon/blockfile/blockfile_base_r.h:86-107 | block k holds the items from k times the block size on, that many or up to the end, and the bytes they take |
| FileMeaning.HeaderMeans | include/ypc/corecommon/blockfile/blockfile_base_r.h:153-167 | the header: magic number, version, number of blocks, number of items, 8 bytes each, and 32 bytes of hash |
| FileMeaning.InfoMeans | include/ypc/corecommon/blockfile/blockfile_base_r.h:153-167 | a block info: first item, item behind the last, first byte, byte behind the last, 8 bytes each |
| BlockFiles.BlockFile.OpenForRead | include/ypc/corecommon/blockfile/blockfile_base_r.h:46-56 | reopening such a file restores header and block infos |
| BlockFiles.BlockFile.NextItem | include/ypc/corecommon/blockfile/blockfile_base_r.h:123-144 | returns the items in order; a buffer that is too small leaves the cursor on the same item; behind the last one the answer is an empty item |
| BlockFiles.ReadItems | include/ypc/corecommon/blockfile/blockfile_base_r.h:123-151 | item_number() calls of next_item return exactly the items, in order |
| BlockFiles.WriteThenRead | include/ypc/corecommon/blockfile/blockfile_base_r.h:46-167 | items appended to a fresh file, closed and opened again, come back as they were, for every file below 2^64 bytes |
| BlockFiles.SizesFit | include/ypc/corecommon/blockfile/blockfile_base_r.h:173-212 | files below 2^64 bytes keep all stored numbers in 64 bits |
| BlockFormat.TilesGrow | include/ypc/corecommon/blockfile/blockfile_base_r.h:86-107 | the block arithmetic of append_item keeps the tiling |
| Sealing.SealFile | toolkit/datahub/main.cpp:72-128 | fails exactly on an item that is too long; otherwise the batches hold exactly the items read, each below 2*max_item_size and all but the last at least max_item_size, and data_hash is the chain over the items |
| SealingMeaning.TakenMeans | toolkit/datahub/main.cpp:84-117 | the items sealed are those in front, up to the limit, the end or the first empty one |
| SealingMeaning.OversizeFound | toolkit/datahub/main.cpp:84-117 | sealing fails for an item above 2^16 bytes behind items that are sealed, even when it is the one behind the limit |
| SealingMeaning.OversizeAt | toolkit/datahub/main.cpp:84-117 | and only for such an item |
| SealingMeaning.BatchedMeans | toolkit/datahub/main.cpp:97-104 | a batch ends as soon as it has 2^16 bytes |
| SealingMeaning.ChainMeans | toolkit/datahub/main.cpp:81-108 | the hash starts from that of the eight letters Fidelius and takes the items one by one |
| SealingMeaning.CiphersMean | toolkit/analyzer/parsers/parser.cpp:253-274 | the items of the sealed file are ciphertexts of the batches in order, and those up to the first that is empty or above 2^24 bytes are handed out |
| Sealing.Parser.NextDataBatch | toolkit/analyzer/parsers/parser.cpp:253-274 | hands out the next ciphertext that fits, and end of stream behind the last |
| Sealing.SealedDataProvider.Process | include/ypc/core_t/analyzer/sealed_data_provider.h:30-86 | hands out the items of the batches one by one, hashing each batch once |
| Sealing.ProvideAll | include/ypc/core_t/analyzer/sealed_data_provider.h:30-86 | a client that reads to the end gets the items of all batches that were handed out |
| Sealing.SealThenProvide | toolkit/datahub/main.cpp:72-128 | end to end: what comes out is the items of the batches whose ciphertexts fit, in order, and the sealer's hash is the hash computed there extended by the rest; with every ciphertext fitting, all items come out and the hashes are equal, whatever the batching |

## Left out

- HpdaEngine.Engine.Run: only graphs in which every functor feeds one successor and the functors without successor are memory_outputs; with two successors the rows are divided between them in an order that depends on the hash table of functors (`OperatorMeaning.SharedValueIsTaken`), so there is no composition to state.
- OrderedSets.SetOperatorByKey: streams with strictly ascending keys, as the operators are documented; what they do on other streams is not stated.
- Sealing.SealThenProvide: sources with at least one item before the end.
- ColTreeMakers.ColTreeMaker.Make: that the split is the best of all cuts, for nodes among whose rows those without a hessian have no gradient, and a positive min_child_weight; otherwise the code itself does not find it: it records other gains (`SplitScans.GradientsMet`), or offers a cut at a value left over from another feature.
- RowTreeMakers.RowTreeMaker.Make: the same.
- DerCodec.OidToDer: object identifiers of at most 32 octets, the size of the local buffer the source fills without a check.
- Sha256.Sha256Ctx.Finish: the digest for totals below 2^61 bytes; beyond, the length field wraps around.
- Pruner.BaseTreeMaker.DoPrune: trees whose child ids exceed their parents; `Training` proves it of every tree the makers grow.
- GbmBases.UpdateInteract: over reals, since taking a summand out again needs subtraction to undo addition.
- hpda: functor pointers are ids in one list, in which every functor is registered once; remove_functor, group, split and kmeans; rows are maps from columns to numbers.
- AES and GCM: iv and AAD are values; memcpy and memset are assignments of ranges; overlapping buffers other than those the functions themselves use; gcm_encrypt and gcm_decrypt of gcm.c, and the block_cipher tables.
- SHA-256: streaming sha224 other than init, one update and finish.
- DER: NULL input pointers, boolean, bit string, character string and time types, and decoders with a default.
- Trees: AddRightChild and the pass_rchild option, MaxDepth, dumping as text; LoadModel answers false where the source asserts.
- Tree makers: subsampling and constraints on features; CalcWeight and CalcGain are functions about which nothing is assumed; the shuffled order of features is the parameter `featIndex`; OpenMP loops run one after the other; Expand and Collapse of RowTreeMaker for interactive updates.
- Svdf: random subsampling is the parameter `sampled`; the sorting of columns and rows is insertion sort instead of std::sort; for columns any sorted arrangement would do (`CutArrangements.AnyArrangement`).
- Boosters: DelteBooster, the linear booster, loading and saving of boosters, gradients and transformations as parameters.
- CSV: a source that reads fully until its end in LineReader (the protocol covers read errors); opening of files, columns, quotes and the parsing of numbers.
- Block files: files without items, null buffers, use of one object for a second file; one data source for a parser.
- Sealing: encryption, hash and marshalling are functions with decryption and unmarshalling as their inverses; a failing encryption ends the program in the source and does not happen here.
- Enclave calls, key management, channels, command lines, JSON, SM2, SM3, SM4 and secp256k1.
