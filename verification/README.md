# ODR-DabMux: the protected transport chain and the frame budgets

This project models, in Dafny, the part of the DAB multiplexer that has to be right to the last bit,
and proves what it promises.

* **Reed-Solomon.** `Gf256` builds the field from the shift register that fills the log tables;
  `Codewords`, `Locators`, `KeyEquation` and `Forney` hold the algebra (minimum distance, the
  recursion for errors and erasures, error values); `Generator` and `RsCodec` are the generator
  polynomial, the tables and the encoder; `RsDecoder` is the decoder with its arrays. Its main
  result covers errors and erasures together: every codeword within 2 errors + erasures <= 48 is
  restored. `SparseWords` and `Confusions` build the codewords that show where this ends; `LastSyndrome`,
  `Completions` and `Ties` follow the recursion one symbol beyond.
* **PFT.** `PftGeometry` and `PftLosses` hold the sizes and the spreading of losses; `PftSender` cuts,
  protects, interleaves and frames; `PftFragment`, `PftBuilder`, `PftBlock` and `PftAfBuilder` parse,
  collect, deinterleave and decode; `PftRecovery`, `PftEndToEnd`, `PftShortChunks` and `PftPlain` say
  what comes back. The promise "m fragments that can be recovered if lost" is proved with its exact
  condition.
* **Receiver runs.** `PftReceiver` is the object with one builder per sequence number, `PftRuns` the
  invariant, order and bounded blocking of all runs, `PftOutgoing` and `PftDelivery` safety and timely
  delivery under losses, duplicates and reordering, `PftInOrder` exactly-once delivery through the wrap,
  `PftRounds` safety through any number of wraps and the fate of late fragments, `PftRestart` and
  `PftResumption` what a packet lost entirely costs and how delivery resumes. `PftDamage` says which damage
  the header CRC catches.
* **Streams of AF packets.** `TagPackets` packs and walks TAG items, `TagDispatching` reframes a byte
  stream and dispatches them; streaming equals batch. `Resynchronising` finds the next packet behind other
  bytes and behind damage, and `AfDamage` says which damage is always caught.
  `EdiChain` puts both layers together: the handlers get the items that were sent.
* **Fast forms.** `Crc`, `Crc16Table`, `CrcBurst` and `CrcResidue` (tables against the serial register,
  the table as written out, burst detection), `Interleaving` (one ring buffer for both directions),
  `Prbs` (table step against serial shifts).
* **Budgets.** `MuxElements` and `Multiplexing` allocate capacity units and lay out the ETI frame;
  `FigFilling`, `Fig01` and `Fig02` fill FIG 0/1 and FIG 0/2 under arbitrary byte budgets.

Classes and arrays stand where the source updates objects and buffers; each method is proved against
a function, and the lemmas are about those functions. Exceptions, assertions and error returns are
values (`Fault`, `Thrown`, `Raised`, `None`, `-1`, `false`). Integers are unbounded, with 14-, 16- and
32-bit widths written out where they matter. Bytes are numbers below 256 and exclusive or works digit
by digit.

Seven places where the code does less than its names or comments suggest are kept as they are:

* From m = 10 on there are packet lengths for which some losses of m fragments are beyond the decoder
  (`PftEndToEnd.RecoveryExact`, `PftEndToEnd.TenLossesNotRecovered`).
* For chunks shorter than 207 bytes erasure offsets are taken before the parity is moved to 207
  (lib/edi/PFT.cpp:385-387, lib/edi/PFT.cpp:416-421), so a lost parity byte is listed where none lies and
  its true place, unlisted, costs the decoder two more. This concerns the defaults k = 207 and m = 3 of
  lib/edioutput/PFT.h:69-70: only lengths from 206 c + 1 to 207 c give c full chunks. A packet of 500 bytes
  travels in three chunks of 167 bytes and 18 fragments; losing fragments 5, 6 and 7 costs 36 + 2 * 9 = 54,
  and some packets of that length are then not rebuilt (`PftShortChunks.DefaultsNotPromised`). With several
  chunks of at least 48 bytes, and no more fragments than bytes in a chunk, the promise holds for a length
  exactly when no loss of m fragments costs more than 48 (`PftShortChunks.PromiseExact`).
* A fragment that arrives more than ten sequence numbers late opens a builder that stays, short of a restart,
  until the numbers come round again (lib/edi/PFT.cpp:545-556, lib/edi/PFT.cpp:644-651), and then stands in
  the way of new fragments (`PftRounds.LateStays`).
* The CRC of a PFT header is not checked without FEC (`PftDamage.CrcUnchecked`).
* Packets of a single fragment are never rebuilt, so short packets sent with m = 0 are lost
  (`PftPlain.PlainRecoveredIff`).
* A last TAG item without value and without padding behind it is not seen
  (`TagPackets.EmptyLastUnseen`).
* Whether a configuration is accepted depends on the last sub-channel only, and 16-bit start addresses
  can wrap (`Multiplexing.WrapAccepted`).

## Model

| member | source | states |
|---|---|---|
| Gf256.MulAddL | lib/fec/init_rs.h:48-59 | multiplication modulo 0x11d distributes over exclusive or |
| Gf256.MulComm | lib/fec/init_rs.h:48-59 | multiplication modulo 0x11d commutes |
| Gf256.MulAssoc | lib/fec/init_rs.h:48-59 | multiplication modulo 0x11d is associative |
| Gf256.OrderIs255 | lib/fec/init_rs.h:51-67 | no power of x below 255 is 1: the polynomial is primitive, which the comparison of sr with 1 after 255 steps alone does not show |
| Gf256.ExpSurjective | lib/fec/init_rs.h:51-59 | every non-zero symbol is a power of x below 255, so the table loop reaches each exactly once |
| Gf256.NoZeroDivisors | lib/fec/init_rs.h:48-59 | a product of non-zero symbols is not zero |
| Gf256.LogMul | lib/fec/rs-common.h:20-26 | adding logarithms modulo 255 multiplies the symbols |
| RsCodec.ModNN | lib/fec/rs-common.h:20-26 | the shift-and-mask loop terminates for every x >= 0 and returns x mod 255 |
| RsCodec.RsControl.FillTables | lib/fec/init_rs.h:48-59 | alpha_to holds the powers of x and index_of the logarithms, with 255 standing for log 0 |
| RsCodec.RsControl.FormGenerator | lib/fec/init_rs.h:87-103 | genpoly becomes the index form of the product of (x + x^i), i = 1..48 |
| RsCodec.RsControl.MultiplyRoot | lib/fec/init_rs.h:88-99 | one round multiplies the polynomial built so far by (x + root) in place |
| RsCodec.RsControl.constructor | lib/fec/init_rs.h:43-103 | for the parameters both users pass, a new control block has correct tables and generator |
| Generator.GenPolyCoefficients | lib/fec/init_rs.h:87-103 | no coefficient of the product of (x + x^i), i = 1..n, is zero for n <= 48, so the encoder needs no test for log 0 |
| RsCodec.RsControl.Encode | lib/fec/encode_rs.h:37-57 | parity becomes the remainder of data times x^48 by the generator |
| RsCodec.RsControl.EncodeSymbol | lib/fec/encode_rs.h:39-57 | one symbol updates the shift register to the next remainder |
| RsCodec.RsControl.AddFeedback | lib/fec/encode_rs.h:48-49 | the feedback symbol times the generator is added to the register |
| Generator.EncodedIsCodeword | lib/fec/encode_rs.h:33-58 | data followed by its parity has all 48 syndromes zero |
| Generator.CodewordIsEncoded | lib/fec/encode_rs.h:33-58 | conversely every codeword is its own first 207 bytes followed by their parity |
| Codewords.Vandermonde | lib/fec/decode_rs.h:81-93 | a word that vanishes outside n positions and evaluates to zero at n consecutive powers of x is zero |
| Codewords.MinimumDistance | lib/fec/decode_rs.h:81-93 | two distinct words whose 48 syndromes are all zero differ in at least 49 positions |
| RsDecoder.FormSyndromes | lib/fec/decode_rs.h:81-93 | the Horner loops give the values of the received polynomial at x^1..x^48 |
| RsDecoder.SyndromesToIndexForm | lib/fec/decode_rs.h:95-100 | index form of the syndromes, and whether any is non-zero |
| RsDecoder.ErasureLocator | lib/fec/decode_rs.h:109-122 | lambda starts as the product of (1 + X x) over the listed erasures |
| RsDecoder.Discrepancy | lib/fec/decode_rs.h:170-177 | the discrepancy is the coefficient of lambda(x) s(x) at the current step |
| RsDecoder.NextLambda | lib/fec/decode_rs.h:184-190 | the next lambda is lambda(x) - discrepancy x b(x) |
| RsDecoder.DivideLambda | lib/fec/decode_rs.h:197-198 | the saved polynomial becomes lambda divided by the discrepancy |
| RsDecoder.BerlekampMassey | lib/fec/decode_rs.h:160-206 | whatever the errors, lambda ends monic, vanishes at the erasures, annihilates all syndromes from its length on, and its length is at most erasures plus other errors; one syndrome short it jumps to a known length and last coefficient |
| KeyEquation.StepZero | lib/fec/decode_rs.h:178-181 | a zero discrepancy keeps the recursion invariant |
| KeyEquation.StepKeep | lib/fec/decode_rs.h:182-204 | a correction without growth cancels the discrepancy and keeps the recursion invariant |
| KeyEquation.StepGrow | lib/fec/decode_rs.h:191-198 | a correction that lengthens lambda keeps the recursion invariant with lambda / discrepancy as the saved polynomial |
| KeyEquation.LengthBound | lib/fec/decode_rs.h:191-192 | a non-zero discrepancy proves that more errors happened than the current length allows |
| KeyEquation.FinalLocator | lib/fec/decode_rs.h:160-206 | with 2 errors + erasures <= 48 the recursion ends with the locator of exactly these positions |
| LastSyndrome.PathGrow | lib/fec/decode_rs.h:191-198 | with 49 = erasures + 2 u and u - 1 zero discrepancies before the first other one, the length jumps once to erasures + u, and its coefficient there is that discrepancy times the last one of the erasure locator |
| RsDecoder.LambdaDegree | lib/fec/decode_rs.h:208-214 | index form and degree of lambda |
| RsDecoder.ChienRound | lib/fec/decode_rs.h:219-225 | one round evaluates lambda at the next power of x and advances the registers |
| RsDecoder.ChienSearch | lib/fec/decode_rs.h:215-239 | the roots found are roots, ascending and distinct, and none is missed unless as many as the degree are known |
| Locators.LocatorRoots | lib/fec/decode_rs.h:215-239 | lambda of a position list is zero at exactly the inverse locators of its positions |
| RsDecoder.FormEvaluator | lib/fec/decode_rs.h:248-260 | omega is s(x) lambda(x) modulo x^deg(lambda) |
| RsDecoder.EvaluateDerivative | lib/fec/decode_rs.h:275-279 | den is the formal derivative of lambda at the root |
| Forney.EvaluatorValue | lib/fec/decode_rs.h:262-271 | at the inverse locator of a position the evaluator is the symbol value times the product of the other factors |
| Forney.DerTimes | lib/fec/decode_rs.h:273-279 | product rule at a root: the derivative of (1 + a x) p at 1/a is a p(1/a) |
| Forney.ErrorValue | lib/fec/decode_rs.h:266-291 | evaluator divided by derivative is the error value |
| Completions.Explained | lib/fec/decode_rs.h:248-291 | when the locator of the roots found annihilates the syndromes from its degree on, some errors at just these positions explain all 48 syndromes, even beyond the guaranteed reach |
| RsDecoder.CorrectErrors | lib/fec/decode_rs.h:266-291 | the error value is added at every located position and nothing else changes |
| RsDecoder.Repair | lib/fec/decode_rs.h:248-291 | the error values then complete the word to a codeword, and no other position changes |
| RsDecoder.LocateAndCorrect | lib/fec/decode_rs.h:109-291 | from non-zero syndromes to the corrected word, the count and the located positions, also one syndrome short of what can be corrected |
| RsDecoder.DecodeRs | lib/fec/decode_rs.h:81-297 | whenever a codeword lies within 2 errors + erasures <= 48, with any listed erasures, data becomes that codeword, the exact number of corrected positions is returned and eras_pos lists exactly them; -1 leaves data unchanged; any other return has listed and changed at most 48 positions together; and one syndrome short it can only be a codeword at positions whose locator has a known last coefficient |
| RsDecoder.ErasuresLocated | lib/fec/decode_rs.h:215-246 | when lambda has as many roots as its degree, every listed erasure is among the located positions |
| RsDecoder.ReturnedWithinReach | lib/fec/decode_rs.h:215-291 | a codeword can only be returned if erasures and other errors together are at most 48 |
| SparseWords.SparseWord | lib/fec/decode_rs.h:81-93 | any n + 1 positions carry a word, non-zero on each of them, that is zero at n consecutive powers of x, so the minimum distance 49 is attained everywhere |
| Confusions.Confusable | lib/edi/PFT.cpp:385-421 | once listed erasures plus twice the lost parity that is not listed reach 50, some codeword with zero padding is taken for another one that differs in its data |
| Ties.TieMisleads | lib/edi/PFT.cpp:385-421 | at 49 exactly some codeword with zero padding and non-zero lost parity sends the recursion astray: whatever codeword comes back is wrong at a given listed data symbol |
| Ties.NoneInReach | lib/edi/PFT.cpp:385-421 | no codeword at all is within reach of the words received for it |
| RsDecoder.ZeroSyndromes | lib/fec/decode_rs.h:102-108 | a word with zero syndromes is itself the only codeword within reach, so returning 0 without changes is right |
| RsDecoder.CorrectsUnique | lib/fec/decode_rs.h:81-297 | at most one codeword is within reach |
| RsDecoder.NearestIs | lib/fec/decode_rs.h:81-297 | the codeword within reach, as a function of the received word and the set of erasures |
| Crc.InitTab | lib/crc.c:171-234 | for every polynomial and widths 8, 16, 32, an all-ones start value fills the table with eight serial steps from each byte |
| Crc.EntryFromOnes | lib/crc.c:178-188 | with an all-ones start value the inverted index and the final mask cancel |
| Crc.TableStep | lib/crc.c:251-252 | one look-up equals eight single-bit steps of the shift register |
| Crc.TableCrc | lib/crc.c:237-266 | crc8, crc16 and crc32 equal the one-bit-at-a-time register on every message and start value |
| Crc16Table.ShippedTable | lib/crc.c:68-101 | each of the 256 entries of the crc16 table that is written out equals eight serial steps with 0x1021 |
| Crc16Table.Crc16 | lib/crc.c:247-255 | crc16 with that table is the serial CRC |
| Crc.SerialConcat | lib/crc.c:247-255 | the CRC of a + b is the CRC of b started from the CRC of a |
| CrcBurst.BurstDetected | lib/crc.c:247-255 | with an odd polynomial, equal-length messages that differ only inside w consecutive bits never have the same w-bit CRC |
| CrcResidue.CheckedResidue | lib/edi/PFT.cpp:42-51 | every message whose CRC field is right leaves the register, run over message and field, in one fixed state |
| AfDamage.BurstRejected | lib/edi/PFT.cpp:42-51 | a message with a right CRC field never passes after a burst of at most 16 bits, which may reach into that field |
| AfDamage.DamagedPayloadIsError | lib/edi/common.cpp:335-346 | an AF packet that suffered such a burst behind its header, in payload or CRC, is consumed as an error and no handler sees any of it |
| Wire.ReadBe16 | lib/edi/buffer_unpack.hpp:27-34 | read_16b reads back what the packet writers push high byte first |
| Wire.ReadBe24 | lib/edi/buffer_unpack.hpp:36-44 | the same for read_24b |
| Wire.ReadBe32 | lib/edi/buffer_unpack.hpp:46-55 | the same for read_32b |
| Wire.WithCrcChecks | lib/edi/PFT.cpp:42-51 | a message followed by its inverted CRC passes checkCRC |
| Crc16Table.CheckCrcField | lib/edi/PFT.cpp:42-51 | checkCRC, computed with the table, says whether the last two bytes are the inverted serial CRC of the others |
| PftGeometry.PaddingBounds | lib/edioutput/PFT.cpp:78-99 | the padding is below both the number of chunks and the chunk length, so it fits RSz and lies in the last chunk |
| PftGeometry.FragmentBounds | lib/edioutput/PFT.cpp:162-171 | there are at least m + 2 fragments and at most as many as bytes in a chunk, m + 1 payloads never exceed the parity, and fragment padding is shorter than one round |
| PftGeometry.ReceiverChunks | lib/edi/PFT.cpp:302-304 | the receiver derives exactly the number of chunks in spite of fragment padding |
| PftGeometry.ReceiverThreshold | lib/edi/PFT.cpp:306-310 | rxmin never underflows and never exceeds Fcount - m - 1 |
| PftLosses.LossBound | lib/edioutput/PFT.cpp:177-190 | no loss of at most m fragments takes more than floor(w/f) m + min(w mod f, m) of w consecutive bytes |
| PftLosses.LossReached | lib/edioutput/PFT.cpp:177-190 | m consecutive fragments reach that bound |
| PftLosses.SpreadExact | lib/edioutput/PFT.cpp:177-190 | all losses of m fragments leave at most 48 erasures per chunk exactly when the worst one does |
| PftLosses.NineAreBearable | lib/edioutput/PFT.cpp:162-190 | for every AF length, chunk limit 1..207 and m <= 9 the worst loss is at most 48 bytes per chunk |
| PftLosses.TenAreNot | lib/edioutput/PFT.cpp:162-190 | with m = 10 and 11 chunks of 207 bytes, ten losses erase 50 bytes of one chunk |
| PftSender.Sender.Protect | lib/edioutput/PFT.cpp:74-139 | the RS block is every chunk of the zero-padded packet followed by the parity of that chunk padded to 207, for every m |
| PftSender.BlockAt | lib/edioutput/PFT.cpp:120-136 | where each chunk and its parity lie in the block |
| PftSender.ChunkCodewordIsCodeword | lib/edioutput/PFT.cpp:120-136 | chunk, padding and parity form a codeword |
| PftSender.Sender.ProtectAndFragment | lib/edioutput/PFT.cpp:141-225 | fragments are the interleaved block, or consecutive pieces of the packet without protection |
| PftSender.Sender.Gather | lib/edioutput/PFT.cpp:179-190 | payload i takes every fcount-th byte of the block from i on, zero beyond its end |
| PftSender.Sender.Assemble | lib/edioutput/PFT.cpp:227-319 | one PFT packet per fragment with its header, CRC and payload; the sequence number moves on modulo 2^16 |
| PftFragment.LoadAssembled | lib/edi/PFT.cpp:111-197 | every packet that Assemble builds loads as the fragment it was built from |
| PftDamage.DamagedHeaderRefused | lib/edi/PFT.cpp:111-197 | a protected fragment whose header suffered a burst of at most 16 bits is never taken for a valid one while its FEC flag survives |
| PftDamage.CrcUnchecked | lib/edi/PFT.cpp:166-173 | without FEC the CRC field of the header has no effect |
| PftBuilder.PushKeepsConsistency | lib/edi/PFT.cpp:208-261 | comparing with one stored fragment keeps all stored fragments consistent with each other |
| PftBuilder.PushDecides | lib/edi/PFT.cpp:208-261 | a fragment is stored exactly when it has the right Fcount, its Findex is new and no stored fragment differs in Fcount, FEC, RSk, RSz or, with FEC, Plen |
| PftBuilder.NeverFaults | lib/edi/PFT.cpp:264-314 | with consistent fragments in the sender's format canAttemptToDecode never throws or asserts |
| PftBlock.ReadBlock | lib/edi/PFT.cpp:342-390 | deinterleaving puts every received byte back and lists exactly the bytes of missing fragments per chunk |
| PftBlock.FillColumn | lib/edi/PFT.cpp:366-373 | one payload fills its column of the block, zeros behind it |
| PftBlock.EraseColumn | lib/edi/PFT.cpp:375-389 | a missing fragment zeroes its column and records each of its bytes |
| PftBlock.ErasureCount | lib/edi/PFT.cpp:380-397 | the erasures listed for a chunk are its bytes in lost fragments |
| PftAfBuilder.AfBuilder.PushPftFrag | lib/edi/PFT.cpp:208-235 | a fragment is stored unless it is a duplicate, has another Fcount or disagrees |
| PftAfBuilder.AfBuilder.CanAttemptToDecode | lib/edi/PFT.cpp:263-316 | yes, maybe, no or a fault, in 32-bit arithmetic |
| PftAfBuilder.AfBuilder.ExtractAf | lib/edi/PFT.cpp:318-484 | what extraction returns for every set of fragments, wherever the outcome of the decoder is determined; a packet is only returned with at least 12 bytes and a right CRC |
| PftAfBuilder.ExtractFec | lib/edi/PFT.cpp:335-437 | the protected branch for every RSk of one byte: too many erasures give nothing, chunks within reach give the corrected data without padding, and a returned packet is cut from chunks each of which is what the decoder may return for its word |
| PftAfBuilder.FecRaises | lib/edi/PFT.cpp:342-450 | the protected branch raises only without fragments, for sizes beyond its types or for padding beyond the data |
| PftAfBuilder.ExcessPadding | lib/edi/PFT.cpp:449 | padding beyond the data raises once the chunks are decoded |
| PftAfBuilder.DecodeChunks | lib/edi/PFT.cpp:412-435 | chunks are decoded one after the other; each one within reach comes out corrected, also when others are not, and the others as something the decoder may return |
| PftAfBuilder.OutcomeExists | lib/edi/PFT.cpp:318-484 | the description of the outcome can always be met |
| PftAfBuilder.AfBuilder.ExtractPlain | lib/edi/PFT.cpp:438-456 | without protection the payloads are joined, a missing one is an error |
| PftRecovery.AttemptOf | lib/edi/PFT.cpp:263-316 | what the receiver decides about any subset of a packet's fragments |
| PftRecovery.RecoveredWithin | lib/edi/PFT.cpp:318-484 | damage and losses together: if every chunk is within 2 errors + erasures <= 48, extraction returns exactly the packet sent |
| PftRecovery.DifferencesAreErased | lib/edi/PFT.cpp:342-421 | with undamaged fragments a word differs from its codeword only in bytes of lost fragments |
| PftRecovery.FullChunkCost | lib/edi/PFT.cpp:385-421 | in chunks of 207 bytes every lost byte is listed where it lies |
| PftRecovery.BudgetSuffices | lib/edi/PFT.cpp:385-421 | a chunk of any length is within reach when its listed erasures plus twice its lost parity that is not listed are at most 48 |
| PftEndToEnd.LossRecovered | lib/edi/PFT.cpp:318-484 | at most m losses with every chunk within its budget are repaired |
| PftEndToEnd.CostTurned | lib/edi/PFT.cpp:385-421 | what a loss costs a chunk is what the loss turned by the position of that chunk costs the first one |
| PftEndToEnd.AffordedRecovered | lib/edi/PFT.cpp:318-484 | for any chunk length, any q <= m losses are repaired when no loss of q fragments costs more than 48 in the first chunk |
| PftEndToEnd.WorstBudgetAffords | lib/edi/PFT.cpp:318-484 | a bound without search: worst loss of the chunk plus, below 207 bytes, twice that of its parity |
| PftEndToEnd.NineLossesRecovered | lib/edioutput/PFT.h:70 | with chunks of 207 bytes any m <= 9 lost fragments are recovered |
| PftEndToEnd.LosslessRecovered | lib/edi/PFT.cpp:318-484 | without losses the packet comes back for every chunk limit and every m |
| PftEndToEnd.RecoveryNeedsSpread | lib/edioutput/PFT.h:70 | for any chunk length, m losses that are always recovered need floor(w/f) m + min(w mod f, m) <= 48 for w = chunk length + 48 |
| PftEndToEnd.RecoveryExact | lib/edioutput/PFT.h:70 | with chunks of 207 bytes the m promised holds for every loss exactly when floor(255/f) m + min(255 mod f, m) <= 48 |
| PftShortChunks.ReceivedResembles | lib/edi/PFT.cpp:342-421 | from undamaged fragments the word of a chunk is right outside the listed erasures, with zeros for the lost parity that is not listed |
| PftShortChunks.CostlyLossNotRecovered | lib/edi/PFT.cpp:385-435 | a loss that costs more than 48 keeps some packet of that length, with a right CRC, from being rebuilt; 49 included, where no other codeword need be within reach |
| PftShortChunks.PromiseExact | lib/edioutput/PFT.h:70 | packets of several chunks of any length: every packet of l bytes survives every loss of m fragments exactly when no such loss costs more than 48 |
| PftShortChunks.SeveralChunksAreRoomy | lib/edioutput/PFT.cpp:78-171 | with a chunk limit of 96 or more and m up to 23 every packet longer than one chunk meets the premises of PromiseExact |
| PftShortChunks.DefaultsNotPromised | lib/edioutput/PFT.h:69-70 | at the defaults k = 207 and m = 3 some packet of 500 bytes does not survive the loss of fragments 5, 6 and 7, while all survive any two losses |
| PftEndToEnd.TenLossesNotRecovered | lib/edioutput/PFT.h:70 | a packet of 2277 bytes sent with m = 10 does not survive every loss of ten fragments |
| PftEndToEnd.GatheredFrom | lib/edi/PFT.cpp:208-235 | any order of arrival, with duplicates, leaves exactly the fragments that arrived |
| PftEndToEnd.EndToEnd | lib/edioutput/PFT.cpp:227-319 | Assemble, deliver all but at most m packets in any order with duplicates, parse, collect, extract: the AF packet comes back whenever m losses are affordable |
| PftPlain.PiecesJoin | lib/edioutput/PFT.cpp:194-224 | the pieces of an unprotected packet join to the packet |
| PftPlain.PlainLoads | lib/edioutput/PFT.cpp:194-224 | every packet sent without protection loads as its piece, if the piece has at least two bytes |
| PftPlain.OneByteIsTooShort | lib/edi/PFT.cpp:139-147 | a piece of one byte is never received |
| PftPlain.PlainRecoveredIff | lib/edi/PFT.cpp:318-484 | without protection a complete packet is rebuilt exactly when it is longer than 1400 bytes, because extraction throws on packets of one fragment |
| PftReceiver.PftReceiver.PushPftFrag | lib/edi/PFT.cpp:532-569 | one builder per sequence number, started with lifetime Fcount max_delay; an empty receiver starts from this number |
| PftReceiver.PftReceiver.GetNextAfPacket | lib/edi/PFT.cpp:572-632 | restart, wait, emit or give up, with the whole new state |
| PftReceiver.PftReceiver.IncrementNextPseq | lib/edi/PFT.cpp:644-651 | the builder ten places back is dropped and the number moves on modulo 2^16 |
| PftReceiver.PftReceiver.PushPacket | lib/edi/common.cpp:253-262 | the PFT branch: parse, collect if valid, then ask for the next packet |
| EdiChain.PushPacket | lib/edi/common.cpp:236-278 | push_packet: AF packets are decoded, PFT packets collected and what they complete decoded at once, anything else refused |
| PftRuns.RunSound | lib/edi/PFT.cpp:532-632 | in every run with fragments in the sender's format the builders stay consistent and nothing is ever raised |
| PftRuns.RestartCause | lib/edi/PFT.cpp:572-582 | builders are dropped altogether only when none exists for the next number and more than max_delay wait |
| PftRestart.PollWithoutBuilder | lib/edi/PFT.cpp:576-582 | a poll without a builder for the next number drops all builders if more than max_delay wait, and otherwise changes nothing |
| PftRestart.LostPacketRestarts | lib/edi/PFT.cpp:572-582 | while nothing of the awaited packet arrives the receiver waits silently and loses nothing, exactly until a poll finds more than max_delay builders; then it drops them all |
| PftRestart.NewBuilder | lib/edi/PFT.cpp:545-556 | a new builder lives Fcount max_delay polls |
| PftRestart.FirstArrival | lib/edi/PFT.cpp:532-569 | into an empty receiver the first fragment brings its own number |
| PftRestart.WaitsItsLifetime | lib/edi/PFT.cpp:599-630 | an incomplete packet is waited for silently, exactly as many polls as its builder lives, and with the last of them the receiver moves on |
| PftResumption.BacklogDrains | lib/edi/PFT.cpp:572-598 | complete packets that wait in sequence come out one per poll, in order, whatever arrives meanwhile |
| PftResumption.MovesPast | lib/edi/PFT.cpp:576-630 | after starting over with packet q the receiver moves past it within Fcount max_delay polls |
| PftResumption.ResumesAfterLoss | lib/edi/PFT.cpp:532-651 | after a packet is lost entirely: once more than max_delay builders wait the receiver starts over with the packet q that arrives next, and behind it all packets that arrived completely come out in order, one per poll |
| PftRuns.EmissionsAdvance | lib/edi/PFT.cpp:572-651 | between restarts the emitted numbers strictly advance modulo 2^16 and none repeats within a round |
| PftRuns.MovesOn | lib/edi/PFT.cpp:599-630 | once the builder of the next number exists the receiver moves on within its lifetime in polls, whatever arrives or is lost |
| PftRuns.PatienceBound | lib/edi/PFT.cpp:545-556 | that lifetime never exceeds Fcount max_delay |
| PftOutgoing.ProtectedOutcome | lib/edi/PFT.cpp:318-484 | from undamaged fragments of a protected packet, whatever its chunk length: if no chunk costs more than 48, or some list has more, extraction returns that packet or nothing, and exactly when |
| PftOutgoing.NeverWrong | lib/edi/PFT.cpp:318-484 | from undamaged fragments of a packet, protected in chunks of any length or longer than 1400 bytes and unprotected, extraction returns the packet or nothing, and exactly when, unless a chunk with at most 48 listed erasures costs more than 48 |
| PftOutgoing.FullChunksNotOverdrawn | lib/edi/PFT.cpp:385-397 | chunks of 207 bytes never do |
| PftDelivery.OnlySentIsEmitted | lib/edi/PFT.cpp:532-651 | over whole runs with drops, duplicates and reordering, what is emitted under a number is the packet sent with it, unless the fragments stored for it overdraw one of its chunks |
| PftDelivery.NotMisled | lib/edi/PFT.cpp:318-484 | for packets in chunks of 207 bytes and for unprotected ones it is the packet sent |
| PftRounds.HonestMoves | lib/edi/PFT.cpp:644-651 | dropping the builder ten places back before moving on keeps packets of different rounds of the sequence number apart |
| PftRounds.EveryRoundSafe | lib/edi/PFT.cpp:532-651 | through any number of rounds: when no fragment arrives more than ten packets late, or so early that its number means a packet ten back, every emission is the packet waited for, counted without wrap |
| PftRounds.LateStays | lib/edi/PFT.cpp:545-651 | a builder more than ten numbers behind stays, whatever arrives short of a restart, until the receiver comes round to its number, and a new fragment whose index it holds is then discarded |
| PftDelivery.TimelyDelivery | lib/edi/PFT.cpp:572-632 | once at most q fragments of the awaited packet are missing and no loss of q fragments costs more than 48, that packet is emitted within its lifetime in polls, whatever other packets arrive |
| PftInOrder.OnePacket | lib/edi/PFT.cpp:532-632 | a complete packet in any fragment order: silence until its last fragment, then exactly one emission |
| PftInOrder.InOrder | lib/edi/common.cpp:253-271 | packets arriving complete one after the other are emitted once each and in order through the wrap, and only the last ten keep builders |
| PftInOrder.ProtectedCompletes | lib/edioutput/PFT.cpp:227-319 | all fragments of a protected packet in any order satisfy the assumptions of in-order delivery, for every k and m |
| PftInOrder.PlainCompletes | lib/edioutput/PFT.cpp:227-319 | so do the fragments of an unprotected packet that needs more than one |
| Interleaving.DelayFacts | src/Interleaver.cpp:26-34 | every delay fits a ring of N I - 1 slots, and a byte is read with the delay it was written with |
| Interleaving.StreamDelays | src/Interleaver.cpp:58-95 | the interleaver delays the byte at t by (t mod I) I M bytes, the deinterleaver by (I - 1 - t mod I) I M |
| Interleaving.PendingWrite | src/Interleaver.cpp:64-74 | storing a byte in the slot of the time it is due overwrites nothing still needed |
| Interleaving.Interleaver.constructor | src/Interleaver.cpp:26-34 | a new interleaver has empty delay lines |
| Interleaving.Interleaver.Reset | src/Interleaver.cpp:44-49 | reset empties the delay lines |
| Interleaving.Interleaver.ShiftReverse | src/Interleaver.cpp:64-75 | one byte in, the byte delayed by (I - 1 - j) N out |
| Interleaving.Interleaver.ShiftForward | src/Interleaver.cpp:77-94 | one byte in, the byte delayed by j N out |
| Interleaving.Interleaver.Encode | src/Interleaver.cpp:58-95 | the output buffer receives the next part of the delayed stream, also when it is the input buffer |
| Interleaving.RoundTrip | src/Interleaver.cpp:58-95 | deinterleaving the interleaved stream gives (I - 1) I M zeros followed by the stream |
| Interleaving.FlushedRoundTrip | src/Interleaver.cpp:58-95 | after as many flushing bytes the whole input is back |
| Interleaving.CutsDoNotMatter | src/Interleaver.cpp:58-95 | any way of cutting the stream into calls gives the same output |
| TagPackets.TagPacket.Assemble | lib/edioutput/TagPacket.cpp:41-76 | the items one after the other with padding or a dummy item, or the raw bytes, or an error when both are used |
| TagPackets.PaddingIs | lib/edioutput/TagPacket.cpp:58-75 | alignment 8 fills up with zeros to a multiple of eight bytes, larger ones append a *dmy item of that size, smaller ones nothing |
| TagPackets.AfPacketiser.Assemble | lib/edioutput/AFPacket.cpp:47-93 | header, payload and CRC; the 16-bit counter moves on |
| TagPackets.AfFields | lib/edi/common.cpp:286-340 | what the receiver reads back from an AF packet, whatever follows it |
| TagPackets.WalkItem | lib/edi/common.cpp:380-412 | an item at the front reaches its handlers if anything follows its header |
| TagPackets.SeesAllIff | lib/edi/common.cpp:374-440 | every packed item reaches its handlers in order exactly when something follows the header of the last one |
| TagPackets.CallsAre | lib/edi/common.cpp:407-417 | exactly the handlers whose name of one to four bytes begins the tag are called |
| TagPackets.WalkStopsAt | lib/edi/common.cpp:374-440 | at an item that no handler takes the walk ends quietly, at one that its handlers refuse with an error; the items before were handled, those behind are not |
| TagPackets.WalkStopsAtBadLength | lib/edi/common.cpp:385-399 | a length that is no multiple of eight bits or reaches beyond the packet ends the walk quietly |
| TagDispatching.TagDispatcher.DecodeTagPacket | lib/edi/common.cpp:374-440 | the loop makes exactly the calls of the walk over the packet |
| TagDispatching.TagDispatcher.CallHandlers | lib/edi/common.cpp:407-417 | every handler whose name matches is called, all must succeed |
| TagDispatching.TagDispatcher.DecodeAfPacket | lib/edi/common.cpp:286-361 | one AF packet at the start of the data: missing data, error or success, bytes consumed, callbacks |
| TagDispatching.TagDispatcher.PushBytes | lib/edi/common.cpp:143-182 | appends and processes all complete AF packets, skipping bytes that start none; no bytes reset the stream |
| TagDispatching.StreamingIsBatch | lib/edi/common.cpp:143-182 | any cutting of a stream of accepted packets into non-empty pushes gives their callbacks in order, one completion each, and an empty buffer |
| Resynchronising.JunkIsSkipped | lib/edi/common.cpp:143-234 | bytes that start no packet, in front of packets and a beginning of another, change nothing, for every cutting into pushes; only a beginning of less than two bytes keeps up to two of them in front of it |
| Resynchronising.DamageCostsOne | lib/edi/common.cpp:143-182 | a packet damaged behind its header costs exactly that packet: those before come out at once, those behind with the next pushes |
| Resynchronising.WithoutCrcIsDropped | lib/edi/common.cpp:286-361 | an AF packet that announces no CRC is skipped, as long as it is without one |
| Resynchronising.OtherProtocolIsDropped | lib/edi/common.cpp:286-361 | an AF packet of another protocol is skipped whole |
| TagDispatching.PackedIsAccepted | lib/edioutput/TagPacket.cpp:41-76 | packed items with handled names make an accepted packet whose callbacks are those of its items |
| EdiChain.ItemsSurviveLosses | lib/edi/common.cpp:253-271 | items packed, protected, sent with up to m affordable losses in any order: the handlers get exactly the items |
| EdiChain.ItemsArriveDirectly | lib/edi/common.cpp:236-252 | an AF packet of packed items handed over directly: the handlers get exactly the items |
| EdiChain.ItemsStreamed | lib/edi/common.cpp:253-271 | a stream of item lists through AF and PFT packets, the wire packets of each in any order: the handlers are called for exactly the items sent, in order, through both wraps |
| MuxElements.CuPerBitrate | src/MuxElements.cpp:828-879 | on every defined branch, UEP table included, 15 capacity units carry at most 32 kbit/s |
| MuxElements.EepSizes | src/MuxElements.cpp:828-879 | 8 n kbit/s take 12 n, 8 n, 6 n and 4 n units at levels 1 to 4 of profile A, 32 n take 27 n, 21 n, 18 n and 15 n of profile B |
| MuxElements.TableRow | src/MuxElements.cpp:37-46 | each of the 64 rows holds a bitrate, a level and the size that exists for them, by a table written by bitrate |
| MuxElements.RowExists | src/MuxElements.h:46-79 | each size that exists has its row |
| Multiplexing.Multiplexer.PrepareSubchannels | src/DabMultiplexer.cpp:301-313 | succeeds exactly when no sub-channel id is used twice |
| Multiplexing.Multiplexer.FindUep | src/DabMultiplexer.cpp:447-456 | a request for UEP stays UEP exactly when some row has its bitrate and level, with the greatest such row and the size of the standard; otherwise it becomes EEP |
| Multiplexing.ProtectedIsDecided | src/DabMultiplexer.cpp:447-456 | the same about the function that preparation is proved against |
| Multiplexing.Multiplexer.PrepareDataInputs | src/DabMultiplexer.cpp:415-472 | start addresses, bitrates and protection of all sub-channels, and exactly when it fails |
| Multiplexing.Multiplexer.Prepare | src/DabMultiplexer.cpp:205-217 | which configurations are accepted and what they become |
| Multiplexing.PrepareExact | src/DabMultiplexer.cpp:205-217 | below 2^16 exact units a configuration is accepted exactly when there is a sub-channel, no id repeats, bitrates are positive and multiples of 32 under profile B, and at most 864 units are used |
| Multiplexing.PreparedIsChained | src/DabMultiplexer.cpp:424-429 | each sub-channel starts where the one before it ends, in 16 bits |
| Multiplexing.PreparedIsDefined | src/DabMultiplexer.cpp:447-472 | sizes are computed on defined branches exactly when no EEP level above 3 remains |
| Multiplexing.AllocationSound | src/DabMultiplexer.cpp:424-429 | all sub-channels lie inside the 864 units exactly when their exact sizes add up to at most 864, and then they are disjoint |
| Multiplexing.AcceptedIsSound | src/DabMultiplexer.cpp:212-217 | the comparison on the last sub-channel decides that, as long as the exact sizes stay below 2^16 |
| Multiplexing.AcceptedExact | src/DabMultiplexer.cpp:212-217 | an accepted configuration lies inside the frame exactly when its exact sizes stay below 2^16 |
| Multiplexing.WrapAccepted | src/DabMultiplexer.cpp:205-217 | beyond that three sub-channels of 32768, 32768 and 8 kbit/s pass all checks of preparation and overlap |
| Multiplexing.AcceptedGivesSound | src/DabMultiplexer.cpp:205-217 | an accepted configuration of at most 64 sub-channels is disjoint, inside the frame and gives well-formed ETI frames exactly when its exact sizes stay below 2^16 |
| Multiplexing.RateBound | src/DabMultiplexer.cpp:666-670 | the bitrates then add up to at most 1843 kbit/s |
| Multiplexing.Multiplexer.DataRegions | src/DabMultiplexer.cpp:783-803 | the data regions follow each other without gap |
| Multiplexing.Multiplexer.MuxFrameLayout | src/DabMultiplexer.cpp:660-875 | header, FIC, data, end of frame and time stamp tile the frame, FL fits 11 bits and the frame 6144 bytes |
| Fig01.EntryFields | src/fig/FIG0_1.cpp:165-215 | identifier, start address, form, size or table index can be read back from an entry |
| Fig01.WithinBudget | src/fig/FIG0_1.cpp:94-236 | bytes written never exceed the budget and Length is the bytes written minus one |
| Fig01.FillsUp | src/fig/FIG0_1.cpp:128-163 | a call that leaves a sub-channel over has no room for its entry |
| Fig01.FigRead | src/fig/FIG0_1.cpp:128-216 | a receiver reads from the bytes of a FIG exactly the sub-channels put into it, in order |
| Fig01.CarriedIsWritten | src/fig/FIG0_1.cpp:128-216 | the bytes of a call are the FIG of the sub-channels it carries |
| Fig01.CycleCarriesAll | src/fig/FIG0_1.cpp:109-233 | under any budgets a completed cycle has carried every sub-channel exactly once: sub-channel i of the ensemble in place i, or counted from the end, by the watermark bit; the next cycle takes the next bit |
| Fig01.CycleCompletes | src/fig/FIG0_1.cpp:109-233 | every call with at least six bytes carries an entry, so as many such calls as sub-channels complete the cycle |
| Fig01.Fig0_1.FillBuffer | src/fig/FIG0_1.cpp:94-236 | one call: new state, bytes in the buffer, rest of the buffer untouched |
| Fig01.Fig0_1.WriteEntries | src/fig/FIG0_1.cpp:126-216 | the loop stops at the first sub-channel that does not fit |
| Fig02.GetComponent | src/MuxElements.cpp:409-430 | the next component of the service, none skipped |
| Fig02.ComponentsInOrder | src/MuxElements.cpp:409-430 | the components of a service are all of them, no others, in the order of the ensemble |
| Fig02.WithinBudget | src/fig/FIG0_2.cpp:99-332 | bytes written never exceed the budget and Length is the bytes written minus one |
| Fig02.FillsUp | src/fig/FIG0_2.cpp:160-200 | a call that leaves a service over has no room for its entry |
| Fig02.FigRead | src/fig/FIG0_2.cpp:160-317 | a receiver reads from a FIG its kind and exactly the services put into it, in order, with their component bytes |
| Fig02.EntryFields | src/fig/FIG0_2.cpp:202-317 | identifier in two or four bytes by the type of the first component, number of components, and for each its transport, type and sub-channel or SCId; the PS bit marks exactly the first |
| Fig02.NoMix | src/fig/FIG0_2.cpp:114-185 | a FIG carries services of one kind only and its P/D bit tells which |
| Fig02.CycleCarriesAll | src/fig/FIG0_2.cpp:114-331 | under any budgets a completed cycle has carried every programme service and then every data service, once each, and announced as many programmes as there are |
| Fig02.SelectedInOrder | src/fig/FIG0_2.cpp:114-145 | the services of a kind are all of them, no others, in the order of the ensemble |
| Fig02.CycleCompletes | src/fig/FIG0_2.cpp:114-331 | as many calls with room for any entry as there are services complete the cycle, plus one for a kind without services, whose empty pass takes a call |
| Fig02.Fig0_2.FillBuffer | src/fig/FIG0_2.cpp:99-332 | one call: new state, bytes in the buffer, rest of the buffer untouched |
| Fig02.Fig0_2.ServiceEntry | src/fig/FIG0_2.cpp:202-317 | the bytes of a service, from which identifier, number of components and every component can be read, the first alone marked primary |
| Prbs.PrbsGenerator.constructor | src/PrbsGenerator.cpp:42-48 | a new generator has a correct table and an empty register |
| Prbs.PrbsGenerator.ParityCheck | src/PrbsGenerator.cpp:31-40 | the exclusive or of all 32 digits |
| Prbs.PrbsGenerator.GenPrbsTable | src/PrbsGenerator.cpp:64-77 | entry j of table i is what eight serial shifts feed back when only byte j at place i is set |
| Prbs.TableStepIsEightShifts | src/PrbsGenerator.cpp:79-86 | the register moved up by a byte plus what its bytes feed back is the register after eight shifts, for every polynomial |
| Prbs.PrbsGenerator.UpdatePrbs | src/PrbsGenerator.cpp:79-86 | the table step equals eight single-bit parity-feedback shifts |
| Prbs.PrbsGenerator.Step | src/PrbsGenerator.cpp:50-54 | the register advances eight shifts and its low byte is returned |
| Prbs.EmitsSerialSequence | src/PrbsGenerator.cpp:50-86 | digit t of the byte of call n is the digit the serial register feeds back at shift 8 n + t |
| Prbs.PrbsGenerator.Rewind | src/PrbsGenerator.cpp:56-62 | terminates from every register within 32 shifts, at the first value not below the polynomial |

## Left out

- PftShortChunks.PromiseExact: leaves open packets of one chunk, because the codeword that is confused would have to have its own CRC field right, and chunks with more fragments than data bytes or fewer than 48 data bytes, which need limits below 96 or m above 23; there only the directions of AffordedAlwaysRecovered and RecoveryNeedsSpread are proved.
- PftEndToEnd.RecoveryExact: chunks of 207 bytes; PromiseExact is the statement for shorter ones.
- PftEndToEnd.NineLossesRecovered: chunks of 207 bytes, because the promise fails for some lengths with shorter ones.
- PftOutgoing.NeverWrong: what extraction makes of an overdrawn chunk is not determined; it can be another codeword (Confusions.Confusable), and then only the 16-bit CRC stands between it and the output.
- PftRounds.EveryRoundSafe: fragments that arrive more than ten packets late are excluded, because a builder can then mix packets of two rounds.
- RsDecoder.DecodeRs: when no codeword is within reach, data is only known to differ in few positions, except one syndrome short with a quiet start; the code may then return another codeword, or a word that is none.
- PftAfBuilder.ExtractFec: for RSk above 207 an erasure listed at 255 or beyond makes the decoder of the source read outside its tables; the outcome is left open there. Fcount 0 and Fcount Plen of 2^32 or more count as thrown.
- RsCodec.RsControl.constructor: one set of parameters, that of both PFT users: 8-bit symbols, polynomial 0x11d, first root 1, 48 roots, no padding; so the range checks and allocation failures are not modelled.
- PftSender.Sender.ProtectAndFragment: settings with m of 48 or more whose payload size would be zero for the packet, by which it would then divide.
- PftFragment.LoadData: the transport (Addr) header is recognised but its fragments are not followed further; the sender never emits it.
- TagDispatching.TagDispatcher.PushBytes: stops at PFT data inside a byte stream; PFT packets are modelled through push_packet. Handlers are a function from the call to success.
- Fig02.Fig0_2.FillBuffer: assumes what prepare_services_components establishes (components for every service, existing sub-channels, at most 255 components), so the branch for services without components, which getType would leave by an exception, is not modelled; the ensemble does not change during a cycle.
- Fig01.Fig0_1.FillBuffer: the watermark bits, built from the program version, are a parameter.
- Multiplexing.Multiplexer.PrepareDataInputs: the bitrates that inputs accept are parameters; the shared storage of UEP and EEP fields is modelled as separate fields, so for a UEP input the profile stands for what the shared bytes read as.
- Multiplexing.Multiplexer.MuxFrameLayout: offsets and sizes only; the FIC is taken to fill exactly 4 FICL bytes and field contents are not written.
- Interleaving.Interleaver.constructor: I M fits an int and is at least 2.
- Prbs.PrbsGenerator.constructor: the table of byte weights, which only error counting uses.
- The scratch arrays of the Reed-Solomon decoder are sequences.
- The tables of crc8 and crc32 that are written out are not compared entry by entry; the packet layers use crc16.
- Sockets, ZeroMQ, web and remote control, logging, configuration parsing, file outputs: input and output only.
- Interleaver::sync, PrbsGenerator error counting and gen_sequence, STIDecoder, the individual TAG items' contents, the FIG carousel and other FIGs, time stamps.
