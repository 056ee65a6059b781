# The JPEG codec's entropy coders and controllers

Dafny models of the parts of libjpeg-turbo (in `app/src/main/outerlib/libjpeg-turbo`) whose correctness cannot be seen
from one function body: the arithmetic and Huffman entropy coders with their decoders, the decompression main controller
with context rows, the reciprocal quantizer, and the compressor's scripts, passes and coefficient controllers.

`dafny verify dfyconfig.toml` checks everything.

The state that the C code changes in place is modelled by classes, arrays and loops with the same branches, constants
and error exits; an error exit is a failure result. Each such method is proved against specification functions, and
the laws of the system are proved about those. Ghost parameters and fields say what a stream is meant to hold: `owed`,
`pending` or `more` are the decisions, tokens or items still to come.

### Arithmetic coding

`CodeInterval` is the coder over unbounded numbers: an interval for each sequence of decisions, with the probability
states of `ProbabilityTable`. `ArithEncoder` is the real one, with a 27-bit register, stacked 0xFF bytes, pending zeros
and one byte still open to a carry; its invariant is that written bytes, held bytes and register are the exact code.
`ArithDecoder` has the other register layout, with a floating cut point. `ArithModel` says which decisions
Rec. ITU-T T.81 sections F.1.4 and G.1.3 make of MCUs, `ArithMcuEncoder` and `ArithMcuDecoder` are the MCU routines,
`ArithIntervals` cuts scans into restart intervals, and `ArithProgressive` runs whole progressive scripts.

A decoder gives up on a DC difference of magnitude over 2^15, which 16-bit coefficients can have although
12-bit samples never give it. The round trips say exactly when this happens (`McuFits`, `Arrives`, `PassFollows`) and
what is lost then, `UnfollowedInstance` shows two such blocks, and `SmallScanFollows` says when it cannot happen.

### Huffman coding

`OptimalTable` builds length-limited codes in place over the linked `others` chains; `HuffmanForest` holds the chain,
Kraft and Fibonacci arguments, `LeastCost` the proof that no prefix code costs less before lengths are limited, and
`LengthCounts` the arguments about limiting them. `HuffmanTables` derives the encoder's and the
decoder's tables, `HuffmanWriter` and `HuffmanReader` are the bit buffers, and `HuffmanScans` has the round trip with
restart markers over both decoding paths; `HuffmanOptimized` is the two-pass form. For progressive AC scans, `EobRuns`
is the coefficient-by-coefficient specification, `ProgressiveEncoder` the bit-mask walks with pending runs and
buffered correction bits, `ProgressiveDecoder` the decoder of `jdphuff.c`, and `ProgressivePasses` both passes and
the decoder over a scan in restart intervals.

The magnitudes that `encode_mcu_AC_refine_prepare` stores are 16-bit words (jcphuff.c:806-808), in which 2^15 turns
negative. The walk then finds `temp > 1` false and sends the coefficient as a new one. So a refinement with Al=0 of a
band with the coefficient -0x8000, which no image of 8-bit samples has but transcoding can bring, is not sent as Rec.
ITU-T T.81 says. `SentItems` is what the code sends, `ScanDiffers` and `RefinableExactly` say exactly when that is what
the standard says, and `RefusedInstance` is a block for which it is not.

### Context rows

`ContextBuffer` has the workspace and the two aliasing pointer lists of one component, `MainController` the resumable
state machine, `RowContext` what a row group and its context must look like.

The comment at jdmainct.c:55-65 promises true or duplicated rows for a whole row group above and below. That is not what
always happens: the last row group before the last iMCU row is shown before the bottom pointers are set, so when the
last iMCU row has less than one full row group of a component, padding rows of the decoder stand in its context,
behind the first row below. `ContextTrueExactly` gives the exact condition, `PaddingShowsInstance` an image, and
`NearestRowsTrue` what always holds, which is all that the existing upsamplers look at (jdmainct.c:65-67).

### Quantizer, scripts, passes and controllers

`ReciprocalDivision` proves multiply-and-shift equal to rounded division for both word sizes. `ScanScript`,
`ScriptValidator` and `SimpleProgression` are script rules, their check, and the default script. `PassControl` runs
the passes of a compression to the end and specifies the events of every run. `BlockLayout` and `McuAssembly` say which
blocks an MCU has, real and dummy; `CoefController` and `TransController` are the three coefficient controllers,
and `ControllerRuns` proves that they agree under any suspensions.

## Model

| member | source | states |
|---|---|---|
| ProbabilityTable.PackedFields | app/src/main/outerlib/libjpeg-turbo/jaricom.c:32-33 | The packing macro V() loses nothing: the coder's shifts and masks give back the Qe value, both next states and the switch bit of every entry |
| ProbabilityTable.FixedStateStays | app/src/main/outerlib/libjpeg-turbo/jaricom.c:152-156 | The state used for equiprobable bits adapts to itself whatever is coded |
| ByteStream.ValueCarry | app/src/main/outerlib/libjpeg-turbo/jcarith.c:274-289 | A carry into a byte below 0xFF followed by stacked 0xFF bytes is that byte plus one followed by zeros, as numbers |
| ByteStream.PrefixIgnoresFinalZeros | app/src/main/outerlib/libjpeg-turbo/jcarith.c:185-198 | Dropping final zero bytes does not change what a decoder that reads zeros past the end sees |
| ByteStream.ReadAhead | app/src/main/outerlib/libjpeg-turbo/jdarith.c:128-146 | Where the next data byte stands in a stuffed stream with fill bytes, and that the first other code after 0xFF is the marker that ends it |
| CodeInterval.NestedRun | app/src/main/outerlib/libjpeg-turbo/jcarith.c:240-271 | The final code value lies in the interval of every earlier moment of a run of decisions |
| CodeInterval.PartsDisjoint | app/src/main/outerlib/libjpeg-turbo/jcarith.c:240-263 | The two parts of an interval exclude each other, so a value inside one tells the decision |
| CodeInterval.ValueDeterminesDecisions | app/src/main/outerlib/libjpeg-turbo/jcarith.c:224-317 | One code value cannot stand for two different decision sequences over the same bins |
| CodeRegister.NoCarryIntoNothing | app/src/main/outerlib/libjpeg-turbo/jcarith.c:273-289 | While only 0xFF bytes have been shifted out the register cannot overflow, so a carry always has a byte to go into |
| CodeRegister.ShiftOut | app/src/main/outerlib/libjpeg-turbo/jcarith.c:271-315 | Moving the top byte and a possible carry out of the register keeps the exact code and restores the spacer bits |
| CodeRegister.FinalInside | app/src/main/outerlib/libjpeg-turbo/jcarith.c:146-198 | The digits written at termination, with or without final zeros, name a value inside the last interval |
| ArithEncoder.Encoder.ResolveCarry | app/src/main/outerlib/libjpeg-turbo/jcarith.c:274-289 | A carry goes into the held byte and turns the stacked 0xFF bytes into pending zeros; the digits are the old ones plus one, and the new held byte is not 0xFF |
| ArithEncoder.Encoder.PushByte | app/src/main/outerlib/libjpeg-turbo/jcarith.c:272-314 | One byte leaves the register: overflow, 0xFF stacking and plain output all append exactly that digit, with its carry, to the digits written and held |
| ArithEncoder.Encoder.Renormalize | app/src/main/outerlib/libjpeg-turbo/jcarith.c:267-316 | Doubling the interval, with bytes leaving the register, is renormalization of the exact interval |
| ArithEncoder.Encoder.Encode | app/src/main/outerlib/libjpeg-turbo/jcarith.c:224-317 | Keeps Valid(): the digits written, the pending zeros, the held byte, the stacked 0xFF bytes and the register together are the exact code of all decisions so far, and the statistics are those of the exact run |
| ArithEncoder.Encoder.Finish | app/src/main/outerlib/libjpeg-turbo/jcarith.c:138-199 | The terminated segment is stuffed data without a final zero byte whose value lies inside the final interval |
| ArithEncoder.Encoder.Restart | app/src/main/outerlib/libjpeg-turbo/jcarith.c:333-358 | Behind the finished segment a marker, then a segment of its own with fresh registers and statistics |
| ArithDecoder.CutDecides | app/src/main/outerlib/libjpeg-turbo/jdarith.c:165-188 | Comparing the register with the shifted cut tells which part of the interval the code value is in |
| ArithDecoder.Decoder.NextDataByte | app/src/main/outerlib/libjpeg-turbo/jdarith.c:126-147 | Byte input removes stuffing, swallows fill bytes, and gives zeros once a marker is hit |
| ArithDecoder.Decoder.LoadAndRenormalize | app/src/main/outerlib/libjpeg-turbo/jdarith.c:122-155 | Loading the first two bytes and renormalizing bring the floating-cut-point registers to the exact interval |
| ArithDecoder.Decoder.Decode | app/src/main/outerlib/libjpeg-turbo/jdarith.c:114-191 | On a segment whose value lies inside the final interval of the decisions to come, the next decision is returned and the bins adapt as in the exact run |
| ArithDecoder.Decoder.NextMarker | app/src/main/outerlib/libjpeg-turbo/jdmarker.c:890-934 | Whatever data of a segment is still unread is skipped, stuffed bytes included, up to the marker that ends it |
| ArithDecoder.Decoder.Restart | app/src/main/outerlib/libjpeg-turbo/jdarith.c:198-230 | Passes the restart marker of the expected number, read already or not, and is ready for the decisions of the next segment |
| ArithScans.DecisionRoundTrip | app/src/main/outerlib/libjpeg-turbo/jcarith.c:138-317 | For every sequence of bins and bits, the decoder reads back from the finished segment what was encoded, and both sides end with the same statistics |
| Zigzag.NaturalOrderIsZigzag | app/src/main/outerlib/libjpeg-turbo/jutils.c:56-67 | The table of natural order is the diagonal walk over the block, hence one-to-one |
| Zigzag.ZigzagOf | app/src/main/outerlib/libjpeg-turbo/jutils.c:56-67 | Every position of a block has a step in zigzag order |
| SuccessiveApproximation.StageBefore | app/src/main/outerlib/libjpeg-turbo/jcarith.c:618-629 | One more bit of point transform halves magnitudes and keeps signs of what remains |
| SuccessiveApproximation.HalfFacts | app/src/main/outerlib/libjpeg-turbo/jdarith.c:467-485 | A coefficient known one bit less exactly is zero just when its magnitude is below two, keeps its sign, and becomes exact by adding its correction bit |
| SuccessiveApproximation.RefinedDc | app/src/main/outerlib/libjpeg-turbo/jdarith.c:416-425 | Setting the next bit of a two's complement DC value completes it to one more bit, for negative values too |
| ArithModel.StageBeforeBand | app/src/main/outerlib/libjpeg-turbo/jdarith.c:461-468 | The end-of-band limit EOBx that a decoder finds in its own coefficients agrees with the encoder's question at every place in the band |
| ArithModel.FitsInCategory | app/src/main/outerlib/libjpeg-turbo/jdarith.c:288-298 | A magnitude stays within the decoder's 15 doubling steps just when it is below 2^15 |
| ArithMcuEncoder.McuEncoder.EncodeMcu | app/src/main/outerlib/libjpeg-turbo/jcarith.c:685-820 | A sequential MCU is coded as the decision tree of Rec. ITU-T T.81 section F.1.4, block by block, and moves predictions and contexts on |
| ArithMcuEncoder.McuEncoder.EncodeMcuDcFirst | app/src/main/outerlib/libjpeg-turbo/jcarith.c:367-450 | A first DC scan codes the differences of the shifted DC values |
| ArithMcuEncoder.McuEncoder.EncodeMcuAcFirst | app/src/main/outerlib/libjpeg-turbo/jcarith.c:458-550 | A first AC scan codes the band of the shifted magnitudes up to its last nonzero one |
| ArithMcuEncoder.McuEncoder.EncodeMcuDcRefine | app/src/main/outerlib/libjpeg-turbo/jcarith.c:557-585 | A DC refinement scan codes bit Al of each DC value in the fixed bin |
| ArithMcuEncoder.McuEncoder.EncodeMcuAcRefine | app/src/main/outerlib/libjpeg-turbo/jcarith.c:592-678 | An AC refinement scan codes new ones with signs, and correction bits, with the end-of-band question asked only beyond the stage before |
| ArithMcuEncoder.McuEncoder.LastNonzero | app/src/main/outerlib/libjpeg-turbo/jcarith.c:484-495 | The loop over the band finds its last coefficient that is not zero after the point transform |
| ArithMcuDecoder.McuDecoder.DecodeMcu | app/src/main/outerlib/libjpeg-turbo/jdarith.c:504-624 | On the decisions of an MCU the decoder restores its blocks, predictions and contexts; it reports failure just when some DC difference is out of its range |
| ArithMcuDecoder.McuDecoder.DecodeMcuDcFirst | app/src/main/outerlib/libjpeg-turbo/jdarith.c:249-320 | After a first DC scan each block holds its DC value down to bit Al, or failure is reported as above; only DC values are ever changed |
| ArithMcuDecoder.McuDecoder.DecodeMcuAcFirst | app/src/main/outerlib/libjpeg-turbo/jdarith.c:328-395 | A first AC scan raises every coefficient of the band from unknown to known down to bit Al, and leaves the others |
| ArithMcuDecoder.McuDecoder.DecodeMcuDcRefine | app/src/main/outerlib/libjpeg-turbo/jdarith.c:402-428 | A DC refinement scan raises the DC values from bit Al+1 to bit Al |
| ArithMcuDecoder.McuDecoder.DecodeMcuAcRefine | app/src/main/outerlib/libjpeg-turbo/jdarith.c:435-497 | An AC refinement scan raises every coefficient of the band from bit Al+1 to bit Al |
| ArithIntervals.ScanEncoder.EmitRestart | app/src/main/outerlib/libjpeg-turbo/jcarith.c:324-359 | The finished interval is in the file as a segment that holds exactly its decisions, then the restart marker; predictions and statistics start afresh |
| ArithIntervals.ScanEncoder.EncodeMcu | app/src/main/outerlib/libjpeg-turbo/jcarith.c:695-709 | An MCU joins the current interval, or starts a new one exactly when the interval is full; markers are numbered modulo 8 |
| ArithIntervals.EncodeScan | app/src/main/outerlib/libjpeg-turbo/jcarith.c:685-820 | The file of a scan is the segments of its intervals between numbered restart markers |
| ArithIntervals.ScanDecoder.ProcessRestart | app/src/main/outerlib/libjpeg-turbo/jdarith.c:198-230 | At a restart the next interval is decoded from its own beginning, whatever happened in the one before |
| ArithIntervals.ScanDecoder.DecodeMcu | app/src/main/outerlib/libjpeg-turbo/jdarith.c:514-523 | Decodes the next MCU by the routine of the scan; it fails exactly when some DC difference of the interval so far cannot be followed, and after a failure of a progressive scan all but the DC values still holds |
| ArithIntervals.SequentialRoundTrip | app/src/main/outerlib/libjpeg-turbo/jcarith.c:685-820 | For every sequence of MCUs and every restart interval: each MCU comes back as it was, except those from a DC difference a decoder cannot follow up to the end of its restart interval; a warning is given exactly when there are any |
| ArithIntervals.UnfollowedInstance | app/src/main/outerlib/libjpeg-turbo/jdarith.c:545-556 | DC values 0x7FFF and then -0x8000 of one component: the second block cannot be followed, in a sequential scan and in a first DC scan |
| ArithScans.SmallScanFollows | app/src/main/outerlib/libjpeg-turbo/jdarith.c:545-556 | DC values of magnitude up to 2^14, the most that 12-bit samples give, never make a decoder fail |
| ArithProgressive.DecodePass | app/src/main/outerlib/libjpeg-turbo/jdarith.c:249-497 | Each scan of an accepted script, in restart intervals of its own, lifts the blocks it visits to what the scans so far have sent, and touches nothing else; a DC difference that cannot be followed loses just the DC values up to the end of its interval |
| ArithProgressive.ProgressiveRoundTrip | app/src/main/outerlib/libjpeg-turbo/jcarith.c:367-678 | For every accepted progressive script and every picture: at the end each AC coefficient is sign(v)*((\|v\|>>Al)<<Al) and each DC value (v>>Al)<<Al at the last Al sent for it, exact where that is 0, except DC values lost by a difference that cannot be followed, or behind it in its restart interval; a warning is given exactly when there is one |
| ArithProgressive.DefaultScriptSendsAll | app/src/main/outerlib/libjpeg-turbo/jcparam.c:467-539 | The default script is accepted and sends every bit of every coefficient, so pictures come back exactly |
| ArithBins.McuWithin | app/src/main/outerlib/libjpeg-turbo/jcarith.c:716-818 | Every AC bin index is below 245, and every DC bin index below 49 in MCUs that a decoder can follow, below 50 in any others |
| ScriptValidator.ValidateScript | app/src/main/outerlib/libjpeg-turbo/jcmaster.c:178-310 | Accepts exactly the scripts whose scans each follow the rules and that send all DC data; a rejection names the first bad scan |
| ScriptValidator.CheckProgressiveScan | app/src/main/outerlib/libjpeg-turbo/jcmaster.c:230-275 | The last_bitpos table always shows the last Al sent of each coefficient, so a scan passes just when it continues every coefficient correctly |
| ScriptValidator.CheckSequentialScan | app/src/main/outerlib/libjpeg-turbo/jcmaster.c:277-288 | A sequential scan passes just when it is whole blocks of components not sent before |
| ScanScript.EachBitOnce | app/src/main/outerlib/libjpeg-turbo/jcmaster.c:259-274 | In an accepted progressive script the Al values sent for any coefficient descend one by one, so each bit is sent once |
| SimpleProgression.JpegSimpleProgression | app/src/main/outerlib/libjpeg-turbo/jcparam.c:467-539 | Writes exactly num_scans entries of the default script, reusing the old space only when it is large enough |
| SimpleProgression.FillDcScans | app/src/main/outerlib/libjpeg-turbo/jcparam.c:439-459 | One interleaved DC scan, or one per component when there are too many |
| SimpleProgression.DefaultScriptOk | app/src/main/outerlib/libjpeg-turbo/jcparam.c:467-539 | For any component count the default script is valid and ends with every coefficient at Al=0 |
| HuffmanCode.PrefixFree | app/src/main/outerlib/libjpeg-turbo/jchuff.c:263-281 | No code of an accepted table is a prefix of another |
| HuffmanCode.NotAllOnes | app/src/main/outerlib/libjpeg-turbo/jchuff.c:274-278 | No code of an accepted table is all ones |
| HuffmanTables.GenerateCodes | app/src/main/outerlib/libjpeg-turbo/jchuff.c:263-281 | The canonical codes of Annex C of Rec. ITU-T T.81; fails just when they do not fit below the all-ones code |
| HuffmanTables.MakeEncoderTable | app/src/main/outerlib/libjpeg-turbo/jchuff.c:220-306 | Accepts exactly the tables whose codes fit and whose symbols are distinct and in range, and then has each symbol's code and size |
| HuffmanTables.LengthTables | app/src/main/outerlib/libjpeg-turbo/jdhuff.c:222-238 | maxcode and valoffset decide for every length whether a bit string is a code of that length, and which |
| HuffmanTables.LookaheadTable | app/src/main/outerlib/libjpeg-turbo/jdhuff.c:240-261 | Every 8-bit entry names the code of at most 8 bits that begins it, or says too long when a longer code begins with it or none of the short ones does |
| HuffmanTables.MakeDecoderTable | app/src/main/outerlib/libjpeg-turbo/jdhuff.c:157-276 | Accepts exactly the decodable tables, and then decides codes by length and by lookahead |
| HuffmanTables.AcceptableDecodable | app/src/main/outerlib/libjpeg-turbo/jdhuff.c:263-276 | Every table that the encoder accepts is accepted by the decoder |
| HuffmanForest.ChainsStep | app/src/main/outerlib/libjpeg-turbo/jchuff.c:943-961 | Chaining one tree onto another keeps all chains acyclic, disjoint, and a partition of the used symbols |
| HuffmanForest.DepthsStep | app/src/main/outerlib/libjpeg-turbo/jchuff.c:943-961 | After a merge every live tree still has Kraft sum 1 |
| HuffmanForest.HeavyStep | app/src/main/outerlib/libjpeg-turbo/jchuff.c:917-945 | After merging the two smallest counts, every tree of height h weighs at least Fib(h+2) and every other live tree at least Fib(h+1) |
| LengthCounts.ShortenedComplete | app/src/main/outerlib/libjpeg-turbo/jchuff.c:987-998 | Moving a pair of longest codes up conserves both the number of symbols and the Kraft sum |
| LengthCounts.ShorterExists | app/src/main/outerlib/libjpeg-turbo/jchuff.c:989-991 | The search for a shorter length always finds one of at least 1 |
| OptimalTable.FindSmallest | app/src/main/outerlib/libjpeg-turbo/jchuff.c:917-937 | Finds the smallest nonzero count, the larger symbol in case of ties |
| OptimalTable.Merge | app/src/main/outerlib/libjpeg-turbo/jchuff.c:943-961 | Merges two counts and two chains of codesize and others in place; chains, depths and weights stay consistent |
| OptimalTable.GrowTree | app/src/main/outerlib/libjpeg-turbo/jchuff.c:916-962 | The merge loop ends with code sizes of one complete tree over the used symbols, at most as deep as the Fibonacci bound allows, and no code lengths cost less in all |
| LeastCost.MergeSaves | app/src/main/outerlib/libjpeg-turbo/jchuff.c:917-945 | For any code lengths there are lengths for the counts merged in the two smallest ones that cost less by at least their sum |
| LeastCost.BoundStep | app/src/main/outerlib/libjpeg-turbo/jchuff.c:943-962 | A merge keeps it that any code costs what has been spent and the cost of some lengths for the trees left |
| LeastCost.CostStep | app/src/main/outerlib/libjpeg-turbo/jchuff.c:943-962 | Deepening the symbols of two trees adds the two trees' counts to the cost |
| LeastCost.Kraft | app/src/main/outerlib/libjpeg-turbo/jchuff.c:890-962 | Codewords of which none begins another satisfy Kraft's inequality, below every common beginning |
| LeastCost.LeastOfPrefixCodes | app/src/main/outerlib/libjpeg-turbo/jchuff.c:890-962 | No prefix code of any kind gives a shorter output than the code sizes found |
| OptimalTable.NoOverflow | app/src/main/outerlib/libjpeg-turbo/jchuff.c:964-974 | If the total count with the pseudo-symbol is below the 35th Fibonacci number, no code is longer than MAX_CLEN |
| OptimalTable.CountLengths | app/src/main/outerlib/libjpeg-turbo/jchuff.c:964-974 | Counts how many symbols have each code size; fails exactly when one is over MAX_CLEN |
| OptimalTable.LimitLengths | app/src/main/outerlib/libjpeg-turbo/jchuff.c:976-998 | Brings all lengths down to 16 bits, keeping the number of symbols and Kraft sum 1; changes nothing when there are none over 16 |
| OptimalTable.RemovePseudo | app/src/main/outerlib/libjpeg-turbo/jchuff.c:1000-1003 | Takes back one of the longest codes, which leaves Kraft sum 1-2^-L |
| OptimalTable.ListSymbols | app/src/main/outerlib/libjpeg-turbo/jchuff.c:1013-1021 | The symbols sorted by code length, each used one once |
| OptimalTable.GenOptimalTable | app/src/main/outerlib/libjpeg-turbo/jchuff.c:890-1025 | Makes a table with one entry per used symbol, lengths 1 to 16 and Kraft sum 1-2^-L, its symbols in order of code sizes of least cost and, unless one was over 16, with just those sizes but for that of the pseudo-symbol; cannot fail while the total count is below the 35th Fibonacci number |
| OptimalTable.TableAcceptable | app/src/main/outerlib/libjpeg-turbo/jchuff.c:292-305 | Such a table is accepted by jpeg_make_c_derived_tbl, for DC when its symbols are at most 15 |
| HuffmanTokens.ExtendExtra | app/src/main/outerlib/libjpeg-turbo/jdhuff.c:498-499 | HUFF_EXTEND inverts the complemented-magnitude code |
| HuffmanTokens.ExtraMask | app/src/main/outerlib/libjpeg-turbo/jchuff.c:533-554 | The masked bits of a value, or of its complement when negative, are the extra bits of Rec. ITU-T T.81 section F.1.2 |
| HuffmanWriter.BitWriter.EmitBits | app/src/main/outerlib/libjpeg-turbo/jchuff.c:410-413 | Adds exactly the given bits; every byte written is stuffed and at most 15 bits stay behind |
| HuffmanWriter.BitWriter.FlushBits | app/src/main/outerlib/libjpeg-turbo/jchuff.c:466-486 | Fills the last byte with fewer than 8 ones and leaves the register empty |
| HuffmanEncoder.BlockEncoder.EncodeOneBlock | app/src/main/outerlib/libjpeg-turbo/jchuff.c:508-614 | The unrolled walk emits exactly the tokens of the block: DC difference, zero runs with values, end of block |
| HuffmanEncoder.ScanEncoder.EncodeMcu | app/src/main/outerlib/libjpeg-turbo/jchuff.c:646-710 | Encodes an MCU, after a restart marker and reset predictions when one is due |
| HuffmanEncoder.ScanEncoder.FinishPass | app/src/main/outerlib/libjpeg-turbo/jchuff.c:717-737 | Ends the last segment of the scan |
| HuffmanReader.BitReader.FillBitBuffer | app/src/main/outerlib/libjpeg-turbo/jdhuff.c:301-399 | Reads ahead without changing the logical bits; past a marker it supplies zeros and notes the lack of data |
| HuffmanReader.BitReader.SlowDecode | app/src/main/outerlib/libjpeg-turbo/jdhuff.c:450-486 | On a stream that starts with a symbol's code, takes exactly that code and returns the symbol |
| HuffmanReader.BitReader.LookFinds | app/src/main/outerlib/libjpeg-turbo/jdhuff.h:191-212 | The lookahead entry of the next 8 bits is the size and symbol of a code of at most 8 bits, and too long otherwise |
| HuffmanReader.BitReader.Decode | app/src/main/outerlib/libjpeg-turbo/jdhuff.h:191-212 | HUFF_DECODE returns the symbol of the code ahead, by lookahead or bit by bit, also near the end of the data |
| HuffmanReader.BitReader.FastFill | app/src/main/outerlib/libjpeg-turbo/jdhuff.c:406-442 | FILL_BIT_BUFFER_FAST has at least 16 bits, the same logical bits, and shows it when a marker was met |
| HuffmanReader.BitReader.FastDecode | app/src/main/outerlib/libjpeg-turbo/jdhuff.h:214-232 | HUFF_DECODE_FAST returns the same symbol, reading at most 4 bytes |
| HuffmanReader.BitReader.PassMarker | app/src/main/outerlib/libjpeg-turbo/jdhuff.c:526-557 | Discards the bits left over and passes the expected restart marker |
| HuffmanDecoder.BlockDecoder.DecodeBlocks | app/src/main/outerlib/libjpeg-turbo/jdhuff.c:573-656 | On the tokens of an MCU the blocks and the DC predictions come back, in the slow form and in the fast form |
| HuffmanScans.ScanDecoder.DecodeMcuSlow | app/src/main/outerlib/libjpeg-turbo/jdhuff.c:560-658 | Returns the MCU that the bits ahead stand for and moves exactly past it |
| HuffmanScans.ScanDecoder.DecodeMcuFast | app/src/main/outerlib/libjpeg-turbo/jdhuff.c:661-745 | When it succeeds it gives the blocks, predictions and bit position of the slow form; when it gives up, permanent state is unchanged; it never reads beyond 512 bytes a block |
| HuffmanScans.ScanDecoder.ProcessRestart | app/src/main/outerlib/libjpeg-turbo/jdhuff.c:526-557 | At the end of an interval the next interval starts at its own first bit with reset predictions |
| HuffmanScans.ScanDecoder.DecodeMcu | app/src/main/outerlib/libjpeg-turbo/jdhuff.c:765-801 | Returns the next MCU of the scan, restarting just where an interval ends |
| HuffmanScans.HuffmanRoundTrip | app/src/main/outerlib/libjpeg-turbo/jdhuff.c:765-801 | For any MCUs whose symbols have codes, any restart interval and either decoding path: what is decoded is what was encoded |
| HuffmanStatistics.Gatherer.HtestOneBlock | app/src/main/outerlib/libjpeg-turbo/jchuff.c:756-821 | Counts exactly the symbols of the block's tokens; fails just when a value is out of range |
| HuffmanStatistics.Gatherer.EncodeMcuGather | app/src/main/outerlib/libjpeg-turbo/jchuff.c:829-858 | Counts the tokens of an MCU with the predictions the output pass will use, restarts included |
| HuffmanStatistics.GatherScan | app/src/main/outerlib/libjpeg-turbo/jchuff.c:829-858 | Over a whole scan, the counts are those of the tokens that the output pass emits |
| HuffmanOptimized.CountsUsable | app/src/main/outerlib/libjpeg-turbo/jchuff.c:829-858 | The counts of a scan within range are such as jpeg_gen_optimal_table expects, and their sum is the number of tokens of the table |
| HuffmanOptimized.FinishPassGather | app/src/main/outerlib/libjpeg-turbo/jchuff.c:1032-1067 | Makes each table that a component uses, once; can fail only when one of them has about nine million symbols |
| HuffmanOptimized.OptimizedRoundTrip | app/src/main/outerlib/libjpeg-turbo/jchuff.c:829-1067 | Two-pass coding: accepted only when all values are in range, and then also rejected only if some table has at least Fib(35)-1 symbols; when accepted, every symbol of the output pass has a code in the made tables, and the scan comes back as it was |
| EobRuns.RunStaysOk | app/src/main/outerlib/libjpeg-turbo/jcphuff.c:982-994 | Between MCUs a run is shorter than 0x7FFF blocks with at most 937 correction bits, bits only with a run; at the moment of sending never over 0x7FFF blocks or 1000 bits |
| BandMask.CountZeroes | app/src/main/outerlib/libjpeg-turbo/jcphuff.c:169-190 | Skips to the next set bit of the mask, over exactly the clear ones |
| BandMask.MaskBound | app/src/main/outerlib/libjpeg-turbo/jcphuff.c:584-613 | The mask of up to 64 flags fits the word that holds it |
| ProgressiveWriter.JustifiedWriter.EmitBits | app/src/main/outerlib/libjpeg-turbo/jcphuff.c:327-363 | The left-justified 24-bit buffer adds exactly the given bits and keeps at most 7; a code of size 0 is refused |
| ProgressiveWriter.JustifiedWriter.FlushBits | app/src/main/outerlib/libjpeg-turbo/jcphuff.c:366-372 | Fills the last byte with fewer than 8 ones |
| ProgressiveEncoder.BandEncoder.EmitSymbol | app/src/main/outerlib/libjpeg-turbo/jcphuff.c:379-388 | Emits the code of a symbol, or counts it in a statistics pass |
| ProgressiveEncoder.BandEncoder.EmitBufferedBits | app/src/main/outerlib/libjpeg-turbo/jcphuff.c:395-407 | Emits the buffered correction bits in order; they are not counted |
| ProgressiveEncoder.BandEncoder.EmitEobrun | app/src/main/outerlib/libjpeg-turbo/jcphuff.c:414-436 | Emits a pending run with its length and its correction bits; the guard against a run that is too long is never taken |
| ProgressiveEncoder.BandEncoder.PrepareFirst | app/src/main/outerlib/libjpeg-turbo/jcphuff.c:559-613 | The mask of the band's nonzero coefficients, and their magnitudes and output bits as 16-bit words hold them |
| ProgressiveEncoder.BandEncoder.EncodeCoefs | app/src/main/outerlib/libjpeg-turbo/jcphuff.c:620-650 | The bit-mask walk emits what the coefficient-by-coefficient reading of Rec. ITU-T T.81 section G.1.2.2 gives; fails just when a value has over 10 bits |
| ProgressiveEncoder.BandEncoder.EncodeMcuAcFirst | app/src/main/outerlib/libjpeg-turbo/jcphuff.c:652-735 | A band sent for the first time adds exactly its items and leaves exactly the pending run of the specification |
| ProgressiveEncoder.BandEncoder.PrepareRefine | app/src/main/outerlib/libjpeg-turbo/jcphuff.c:791-854 | The masks of nonzero and of positive coefficients, the magnitudes as 16-bit words hold them, and the place of the last new coefficient |
| ProgressiveEncoder.BandEncoder.WalkBand | app/src/main/outerlib/libjpeg-turbo/jcphuff.c:861-914 | The refinement walk, with correction bits put off behind the pending run, follows Rec. ITU-T T.81 section G.1.2.3 coefficient by coefficient, taking a magnitude whose 16-bit word is negative for a new coefficient |
| ProgressiveEncoder.BandEncoder.EncodeMcuAcRefine | app/src/main/outerlib/libjpeg-turbo/jcphuff.c:916-1010 | A refined band adds exactly its items and leaves exactly the pending run of the specification, unless a coefficient of magnitude 2^15 is in it; then exactly those of the band that has a new coefficient in its place |
| StoredMagnitudes.SentDiffers | app/src/main/outerlib/libjpeg-turbo/jcphuff.c:791-813 | What is sent for a block is what Rec. ITU-T T.81 section G.1.2 says just when it is no refinement, or has no magnitude of 2^15 |
| StoredMagnitudes.ScanDiffers | app/src/main/outerlib/libjpeg-turbo/jcphuff.c:861-914 | The same over the blocks of a whole scan: one such block anywhere makes what is sent differ |
| StoredMagnitudes.RefinableExactly | app/src/main/outerlib/libjpeg-turbo/jcphuff.c:791-813 | Such a magnitude is met just by a refinement with Al=0 of a band that has the coefficient -0x8000 |
| StoredMagnitudes.RefusedInstance | app/src/main/outerlib/libjpeg-turbo/jcphuff.c:861-914 | A block whose only coefficient is -0x8000, already sent but for bit 0: a new coefficient with its sign is sent instead of one correction bit |
| ProgressiveEncoder.BandEncoder.FinishPass | app/src/main/outerlib/libjpeg-turbo/jcphuff.c:1017-1031 | The last run of a segment or pass goes out; the output is the stuffed bits of its items, or the counts are those of all items |
| ProgressiveEncoder.BandEncoder.EmitRestart | app/src/main/outerlib/libjpeg-turbo/jcphuff.c:443-465 | The pending run goes out and nothing stays pending; in an output pass the segment holds exactly the interval's items, and the marker follows |
| RunsAhead.RunAhead | app/src/main/outerlib/libjpeg-turbo/jdphuff.c:426-434 | A pending run is sent with the number of quiet bands that follow and all their correction bits, as far as it goes |
| RunsAhead.FirstAhead | app/src/main/outerlib/libjpeg-turbo/jdphuff.c:412-437 | What a decoder meets next in a first scan: a value behind up to 15 zeros, sixteen zeros, or the end of the band |
| RunsAhead.RefineAhead | app/src/main/outerlib/libjpeg-turbo/jdphuff.c:554-608 | What a decoder meets next in a refinement scan: a new coefficient, sixteen zeros, or the end of the band, and the correction bits on the way |
| ProgressiveDecoder.BandDecoder.NextRunLength | app/src/main/outerlib/libjpeg-turbo/jdphuff.c:426-432 | EOBn: the run length from its symbol and extra bits |
| ProgressiveDecoder.BandDecoder.DecodeMcuAcFirst | app/src/main/outerlib/libjpeg-turbo/jdphuff.c:374-450 | Inside or outside a run, the band of the block becomes the values sent, shifted by Al |
| ProgressiveDecoder.BandDecoder.Advance | app/src/main/outerlib/libjpeg-turbo/jdphuff.c:579-600 | Passes coefficients, correcting those already nonzero, up to the zero behind the given number of others |
| ProgressiveDecoder.BandDecoder.DecodeMcuAcRefine | app/src/main/outerlib/libjpeg-turbo/jdphuff.c:508-651 | Inside or outside a run, the band of the block is refined from bit Al+1 to bit Al |
| ProgressivePasses.ScanEncoder.EncodeMcu | app/src/main/outerlib/libjpeg-turbo/jcphuff.c:669-735 | A block is encoded in its restart interval, as the encoder's 16-bit words have it; fails exactly when a first-scan value has over 10 bits |
| ProgressivePasses.ScanEncoder.FinishScan | app/src/main/outerlib/libjpeg-turbo/jcphuff.c:1017-1078 | The counts are those of all items sent in all intervals, or the file holds each interval as a segment between its markers |
| ProgressivePasses.ScanDecoder.ProcessRestart | app/src/main/outerlib/libjpeg-turbo/jdphuff.c:241-274 | Passes the restart marker; the next interval starts without a pending run |
| ProgressivePasses.ScanDecoder.DecodeMcu | app/src/main/outerlib/libjpeg-turbo/jdphuff.c:374-450 | A block rises to the level of the scan, also across restarts |
| ProgressiveScans.SizedScan | app/src/main/outerlib/libjpeg-turbo/jcphuff.c:652-1010 | Every symbol of a scan within range is below 256 and announces at most 10 bits, and every field of bits fits its size |
| ProgressiveScans.BandCountsUsable | app/src/main/outerlib/libjpeg-turbo/jcphuff.c:1038-1078 | The statistics of a scan within range are such as jpeg_gen_optimal_table expects, with a sum of at most the number of its symbols |
| ProgressivePasses.BandRoundTrip | app/src/main/outerlib/libjpeg-turbo/jcphuff.c:652-1078 | Statistics pass, optimal table, output pass and decoding of any AC scan, with any restart interval: goes through when first-scan values have at most 10 bits, no refinement with Al=0 meets -0x8000, and there are less than Fib(35)-1 symbols, and beyond that only if the first two hold; then every block rises from the level before the scan to bit Al, so successive scans compose |
| RowGroups.PlaneGroups | app/src/main/outerlib/libjpeg-turbo/jdmainct.c:229-237 | Every component has the same number of real row groups, whatever its sampling factor |
| RowGroups.LastRows | app/src/main/outerlib/libjpeg-turbo/jdmainct.c:225-237 | rows_left and the row groups that are left in the last iMCU row agree for every component |
| ContextBuffer.ComponentBuffer.MakeFunnyPointers | app/src/main/outerlib/libjpeg-turbo/jdmainct.c:169-209 | Both pointer lists: usual order, last four row groups swapped, and the rows above the image duplicating the first one |
| ContextBuffer.ComponentBuffer.SetWraparoundPointers | app/src/main/outerlib/libjpeg-turbo/jdmainct.h:46-71 | The lists wrap around at both ends, and still show the two row groups kept from the first iMCU row |
| ContextBuffer.ComponentBuffer.SetBottomPointers | app/src/main/outerlib/libjpeg-turbo/jdmainct.c:212-246 | The rows below the last real one all show it, for a row group of context |
| ContextBuffer.ComponentBuffer.LoadNext | app/src/main/outerlib/libjpeg-turbo/jdmainct.c:336-343 | Loading an iMCU row through its list never overwrites the two row groups that are still needed |
| ContextBuffer.ComponentBuffer.PostponedVisible | app/src/main/outerlib/libjpeg-turbo/jdmainct.c:384-394 | Once the next iMCU row is there, the postponed row group stands between its neighbours in the other list |
| MainController.ContextController.PostProcess | app/src/main/outerlib/libjpeg-turbo/jdmainct.c:351-383 | Every row group handed to the postprocessor comes in order with its context, however few it takes at a time |
| MainController.ContextController.BottomPointers | app/src/main/outerlib/libjpeg-turbo/jdmainct.c:364-372 | In the last iMCU row exactly the real row groups are offered, in context, and counted once for all components |
| MainController.ContextController.ProcessData | app/src/main/outerlib/libjpeg-turbo/jdmainct.c:330-396 | Whatever the source and the postprocessor do, a call keeps the controller consistent, delivers only the next row groups, and makes progress when both sides can |
| MainController.ProcessImage | app/src/main/outerlib/libjpeg-turbo/jdmainct.c:330-396 | For every image height, M>=2, suspension pattern and way of consuming: row groups are delivered exactly once and in order in their context, and all of them once enough calls made progress |
| RowContext.NearestRowsTrue | app/src/main/outerlib/libjpeg-turbo/jdmainct.c:55-65 | The row group, the rows above it and the first row below it are always true, or duplicates of the first or last real row at the edges |
| RowContext.ContextTrueExactly | app/src/main/outerlib/libjpeg-turbo/jdmainct.c:55-65 | All of the row group below is true for every image content exactly when the last iMCU row has a full row group of the component or is the only one; otherwise padding rows show there |
| RowContext.PaddingShowsInstance | app/src/main/outerlib/libjpeg-turbo/jdmainct.c:351-363 | An image of 17 rows whose full-height component shows a padding row below row group 7 |
| ReciprocalDivision.Flss | app/src/main/outerlib/libjpeg-turbo/jcdctmgr.c:82-110 | The binary search gives the highest set bit |
| ReciprocalDivision.ApproximateDivides | app/src/main/outerlib/libjpeg-turbo/jcdctmgr.c:192-217 | Reciprocal and correction fit their words, no sum or product overflows, and multiply-and-shift is rounded division for every magnitude of the word |
| ReciprocalDivision.PowerDivisor | app/src/main/outerlib/libjpeg-turbo/jcdctmgr.c:200-203 | A remainder of zero occurs only for powers of two |
| ReciprocalDivision.ComputeReciprocal | app/src/main/outerlib/libjpeg-turbo/jcdctmgr.c:172-221 | For word sizes 16 and 32 and every divisor the table entry divides exactly; vector code is excluded just for divisors 1 and, in short words, 2 |
| ReciprocalDivision.QuantizeOne | app/src/main/outerlib/libjpeg-turbo/jcdctmgr.c:421-437 | One coefficient becomes sign(x)*((\|x\| + d/2) / d) without overflow of any step |
| ReciprocalDivision.QuantizeBlock | app/src/main/outerlib/libjpeg-turbo/jcdctmgr.c:407-438 | With the tables of a pass, quantization of a block is rounded division by 8 times its table, converted to a coefficient |
| ReciprocalDivision.QuotientFits | app/src/main/outerlib/libjpeg-turbo/jcdctmgr.c:437-437 | In short words the quotient always fits a coefficient |
| PassControl.Master.PerScanSetup | app/src/main/outerlib/libjpeg-turbo/jcmaster.c:355-437 | The MCU consists of each component's blocks in order; fails just when it has too many components or blocks |
| PassControl.Master.PrepareForPass | app/src/main/outerlib/libjpeg-turbo/jcmaster.c:448-523 | Puts the parameters of the right scan in force, writes exactly the headers due, skips the statistics pass of DC refinement, and sets is_last_pass exactly for the last pass |
| PassControl.Master.FinishPass | app/src/main/outerlib/libjpeg-turbo/jcmaster.c:550-583 | The state after a pass is that before the next one |
| PassControl.Compress | app/src/main/outerlib/libjpeg-turbo/jcapimin.c:161-196 | For every number of scans, optimized or not, full or transcoding: the run ends, is completed just when every scan has a permitted MCU and arithmetic coding is not to be optimized, and then has the events of the specification |
| PassControl.EachScanOnce | app/src/main/outerlib/libjpeg-turbo/jcmaster.c:557-580 | The data of each scan is output exactly once, in script order |
| PassControl.HeadersFirst | app/src/main/outerlib/libjpeg-turbo/jcmaster.c:504-511 | The frame header is written once, before any scan header, and data only right after the header of its own scan |
| PassControl.StatisticsFirst | app/src/main/outerlib/libjpeg-turbo/jcmaster.c:480-494 | Over all events of a run: the output of each scan that needs a table comes after a statistics pass of that scan with only headers between, and each statistics pass is followed so; DC refinement has none |
| BlockLayout.Extent | app/src/main/outerlib/libjpeg-turbo/jcmaster.c:149-172 | The component sizes fit the number of MCU rows and columns exactly |
| BlockLayout.ColReal | app/src/main/outerlib/libjpeg-turbo/jcmaster.c:413-416 | last_col_width says which blocks of the last MCU in a row are real |
| BlockLayout.RowReal | app/src/main/outerlib/libjpeg-turbo/jcmaster.c:417-419 | last_row_height says which block rows of the last iMCU row are real |
| McuAssembly.DummyRight | app/src/main/outerlib/libjpeg-turbo/jccoefct.c:179-187 | Right of the real blocks each dummy has the DC value of the block before it |
| McuAssembly.DummyBelow | app/src/main/outerlib/libjpeg-turbo/jccoefct.c:296-319 | Below the real rows each dummy of an MCU has the DC value of the last block in the row above |
| CoefController.CoefController.RealRow | app/src/main/outerlib/libjpeg-turbo/jccoefct.c:173-187 | A block row of an MCU: real blocks, then right-edge dummies |
| CoefController.CoefController.DummyRow | app/src/main/outerlib/libjpeg-turbo/jccoefct.c:188-196 | A block row below the image: dummies with the DC value of the block before them |
| CoefController.CoefController.CompressData | app/src/main/outerlib/libjpeg-turbo/jccoefct.c:140-218 | Keeps Valid(), which says that what has been sent is the beginning of the scan's MCUs up to the counters; sends as many as there is room for and resumes exactly there |
| CoefController.CoefController.LoadComponent | app/src/main/outerlib/libjpeg-turbo/jccoefct.c:258-320 | The virtual array of a component gets its real blocks and all dummies, right, bottom and corner |
| CoefController.CoefController.CompressFirstPass | app/src/main/outerlib/libjpeg-turbo/jccoefct.c:244-327 | Stores an iMCU row of all components and sends the scan's MCUs; repeating it after a suspension changes nothing |
| CoefController.CoefController.CompressOutput | app/src/main/outerlib/libjpeg-turbo/jccoefct.c:340-395 | The same for any scan from the stored arrays |
| TransController.TransController.TransRow | app/src/main/outerlib/libjpeg-turbo/jctrans.c:324-346 | A block row of an MCU in transcoding: real blocks of the coefficient array, dummies made on the fly |
| TransController.TransController.CompressOutput | app/src/main/outerlib/libjpeg-turbo/jctrans.c:289-363 | The same from unpadded coefficient arrays |
| ControllerRuns.SinglePass | app/src/main/outerlib/libjpeg-turbo/jccoefct.c:140-218 | Under any suspensions what has been sent is the beginning of the scan's MCUs, and all of them after enough calls |
| ControllerRuns.TwoPasses | app/src/main/outerlib/libjpeg-turbo/jccoefct.c:244-395 | The same for a first pass, and for a later pass of any scan over what the first one stored |
| ControllerRuns.Transcoding | app/src/main/outerlib/libjpeg-turbo/jctrans.c:289-363 | The same for transcoding |
| ControllerRuns.ControllersAgree | app/src/main/outerlib/libjpeg-turbo/jccoefct.c:140-395 | The three controllers hand the same MCUs to the entropy encoder, whatever suspensions each of them met |

## Left out

- Corrupt streams: every decoder is given a stream that the encoder wrote, as a ghost fact. Resynchronization, codes that are in no table, spectral overflow, running out of data and the warnings for them are only the branches where a proof shows they are not taken.
- ArithDecoder.Decoder.Decode: assumes a segment whose value lies in the interval of the decisions to come, as `Finish` leaves it.
- ArithDecoder.Decoder.Restart: the branch that calls resync_to_restart is not modelled, because the marker met is always the expected one.
- HuffmanReader.BitReader.PassMarker: likewise.
- HuffmanReader.BitReader.Decode: assumes that a code of the table is ahead; a code of 17 bits is not modelled.
- ProgressiveDecoder.BandDecoder.DecodeMcuAcRefine: undoing a suspended MCU is not modelled, because data never runs short here.
- Statistics areas are a map from bins to states that starts empty, which stands for zeroed memory; a restart forgets all bins, where the source clears the tables of the scan and the fixed bin keeps its one state.
- ScanScript.EachBitOnce: MAX_AH_AL is 10, that of the build for 8-bit samples; other builds allow 13.
- Suspension inside the entropy coders (working copies of the state, committed for each MCU): the destination and the source always have room or data. Suspension is modelled where whole MCUs or iMCU rows are refused, in the coefficient and main controllers.
- The 64-bit emission macros, the local output buffer of encode_one_block, and all SIMD code. The `scale` column that only vector code reads is written but not interpreted.
- HuffmanWriter.BitWriter.EmitBits: shifting and or-ing bits that are clear is written as multiplication and addition, and the register as the number of its pending bits.
- Decoding without storing coefficients (dc_needed, ac_needed), and the DNL marker.
- Progressive DC scans with Huffman codes: jcphuff.c sends them like the DC part of a sequential block, and single bits.
- OptimalTable.GenOptimalTable: needs 1 to 254 used symbols and a total count below 10^9, as its callers give; an empty histogram is not modelled. Sizes over 16 are not claimed to be limited at the least cost; the procedure does not aim at that.
- HuffmanOptimized.OptimizedRoundTrip: for less than 10^9 symbols of each table, more than which GenOptimalTable does not take either.
- ProgressivePasses.BandRoundTrip: likewise. A scan with a coefficient that cannot be refined is encoded but not decoded here: its stream is not one of the specification.
- ProgressivePasses.ScanEncoder.EncodeMcu: requires that the symbols sent have places in the count arrays, or codes in the table, as they have whenever all coefficients of the scan are ones the standard can express.
- ProgressiveEncoder.BandEncoder.PrepareFirst: the bit length of a value is computed as by counting leading zeros, not from the table of JPEG_NBITS (jcphuff.c:59-68).
- ReciprocalDivision.QuantizeOne: magnitudes up to 2^(w-1) - 1; the one value without a positive counterpart, and divisors of zero, are excluded.
- ReciprocalDivision.QuantizeBlock: only the divisors of the slow integer DCT; those of the fast one are a scaled product, and floating point is not modelled. In words of 32 bits the quotient is cut to a coefficient as the C cast does.
- MainController.ProcessImage: the coefficient controller's rows, with its padding below the image, are taken as given, and so is how many row groups the postprocessor takes. The modes without context rows and of two-pass color quantization are not modelled.
- CoefController.CoefController.CompressData: forward_DCT is whatever blocks the image is said to have, and the entropy encoder is how many MCUs it takes.
- CoefController.CoefController.LoadComponent: the virtual arrays are sequences of block rows; the memory manager's access windows are not modelled.
- PassControl.Compress: marker contents, the progress monitor and restart intervals given in rows are left out, and optimizing an arithmetic-coded file is just the failure it is.
- ScriptValidator.ValidateScript: image-level checks of the number and sampling factors of components are made elsewhere and not modelled.
- Command-line programs, source and destination managers, DCTs, color conversion, up- and downsampling, and the application's own native code.
