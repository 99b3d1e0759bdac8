# RPLAY: the codecs and the data structures under the sound daemon

RPLAY plays sounds over a network. The parts of it whose correctness is not obvious are the speech
codecs, their bit streams, and a few structures updated in place. This Dafny project models those parts
with the branches, constants, word widths and error returns of the C code, and proves what the code and
its comments promise about them. `dafny verify dfyconfig.toml` checks everything.

**GSM 06.10, integer build** (`gsm/`). `word` is 16 bits and `longword` 32; every store that may truncate
is a `ToWord`, every macro that saturates is modelled with its own overflow test.

- `FixedPoint` - the arithmetic macros, `gsm_norm`, `gsm_div`. `Runs` - runs of a step function.
- `GsmState` - `struct gsm_state` as a class with its invariant.
- `Preprocess`, `Lpc`, `ShortTerm`, `LongTerm`, `Rpe` - one module a source file: imperative methods on
  the arrays and the codec object, each equal to a function on sequences, and theorems about the functions.
- `PredictionGain` - the long term gain code against the plain, unscaled signal.
- `GsmCodec` - `Gsm_Coder` and `Gsm_Decoder`; their lockstep over whole runs of frames.
- `GsmLimits` - inputs from the initial state at which the coder meets the limits stated exactly elsewhere.
- `FrameFormat`, `GsmWire` - the 33-byte frame, and the lockstep with real frames in between.

**G.721 and G.723 ADPCM** (`adpcm/`).

- `G72x` - the adaptive predictor and quantizer: `update()` on the mutable state and as a function, and the
  coupled bounds it keeps. `Adpcm` - the three coders and decoders and their lockstep.
- `Adaptation` - which way and how far `update()` moves each quantity. `Quantizer` - the encoder's error against its
  input. `Prediction` - the floating point products, and what the predictor predicts.
- `BitPacking` - the stream of 3, 4 or 5 bit codes. `AdpcmFile` - `encode.c` and `decode.c` as whole filters.
- `Streaming`, `GsmStreaming` - decoding a compressed sound buffer by buffer in the daemon.

**Structures updated in place**: `HashTable` (`lib/hash.c`), `Getopt` (`lib/getopt.c`), `Packet` and
`Packing` (`librplay/rplay.c`: the format, and the buffer it is written into), `EventQueue`
(`rplayd/connection.c`). `Types` holds what several modules share.

## Where the code does not do what it seems to promise

Each of these is proved with its exact condition.

- `s << scalauto` at the end of `Autocorrelation` does not restore a sample of 32760 or more
  (`Lpc.RescalingIsFaithfulIff`), and a run of input samples leads there (`GsmLimits.RescalingTurnsOver`).
- A lattice stage whose sum saturates is not undone by the decoder (`ShortTerm.RetracesIffNoClipping`). In the
  first stage the sample is always lost (`ShortTerm.FirstStageClipLosesSample`, `ShortTerm.ClippedPairIsLost`),
  and the coder does it on its own codes and samples (`GsmLimits.ClippingLosesSample`); in a later
  stage the saturating differences may absorb the error (`ShortTerm.ClippingMayCancel`), stage by stage
  exactly as `ShortTerm.StageRecoversIff` says.
- `rp->len` may exceed what is allocated behind `rp->buf`: a refused `COPY` has already raised `rp->size` and
  nothing lowers it, so the next `rplay_pack` neither grows the buffer nor refuses. It stays inside exactly
  when no earlier pack was refused or its bytes fit (`Packing.PackStaysInsideIff`, `Packing.RunStaysInsideIff`,
  `Packing.RefusedThenOutside`).
- A difference reconstructed at 40 kbit/s need not code back to its own code (`Adpcm.UnstableCode`; exactly when,
  in `Adpcm.CodesAreStableIff`). At 24 and 32 kbit/s it always does (`Adpcm.EmittedCodesAreStable`).
- In ADPCM a difference of -32768 is coded as zero (`Quantizer.ExtremeDifferenceIsCodedAsZero`), a signal of -32768
  is remembered as zero (`Prediction.SignalDenotes`), and a predictor zero near an extreme wraps
  (`Adaptation.ZeroMovesIff`).
- An empty input of `encode.c` reaches the flush loop with a `resid` that was never set (`AdpcmFile.EncodeFile`).
- De-emphasis is one too high when 28180/32768 of the previous sample is halfway between two integers
  (`GsmCodec.EmphasisUndoneIff`).
- The G.721 encoder halves the sum of the predictors before cutting it to 16 bits and the decoder after;
  they stay in step exactly while the sum fits (`Adpcm.RunLockstep`, `Adpcm.LoudStateFallsOutOfStep`).
- `hash.c` promises that symbols may be deleted and added arbitrarily, but a search stops at a deleted slot
  (`HashTable.LookupsAfterDeleteIff`, `HashTable.DeletionHidesCollidingSymbol`).
- `gsm_uncompress` means to carry a partial frame over to the next buffer but copies every piece to the
  start of the frame (`rplayd/sound.c`, line 2393), so a frame cut by a buffer boundary is lost
  (`GsmStreaming.SplitIsHarmlessIffAligned`).
- `rplay_unpack` ends the packet at the first attribute set, after the first one, that is all defaults, and
  a packet whose random sound is out of range has no second `RPLAY_NULL` to end it (`Packet.UnpackPack`).
- A spool's flow that is paused and continued may not come back to where it was
  (`EventQueue.ContinueUndoesPauseIff`).
- In `Calculation_of_the_LTP_parameters` an all-zero block sets `scal = 0` and the next statement overwrites
  it with 6. The model keeps the 6; nothing depends on it.

## How the imperative code is modelled

Loops that update arrays or fields are methods with loops. A method of the source that is long is cut into
several, in source order, so that each has its own contract. Unrolled `STEP` macros over an index are loops
over that index. Right shifts are floor divisions, masks are remainders, and `|` or `<<` into empty bits is
addition. Pointer arithmetic into an array is an index.

## Model

| member | source | states |
|---|---|---|
| `FixedPoint.GsmAdd` | gsm/private.h:110-114 | the unsigned-comparison form of the saturating sum is the sum clamped to 16 bits, for all operands |
| `FixedPoint.GsmSub` | gsm/private.h:116-118 | the macro's difference is the difference clamped to 16 bits |
| `FixedPoint.GsmLAdd` | gsm/private.h:97-102 | overflow detection on one's complements is clamping to 32 bits |
| `FixedPoint.GsmLSub` | gsm/add.c:78-94 | the saturating 32-bit difference is the clamped difference |
| `FixedPoint.MultRFits` | gsm/private.h:88-89 | the rounded product fits a word exactly when the operands are not both MIN_WORD, the side condition written beside the macro |
| `FixedPoint.NormNormalises` | gsm/add.c:117-151 | gsm_norm brings every positive value into [2^30, 2^31) and every negative one into [-2^31, -2^30] |
| `FixedPoint.GsmDiv` | gsm/add.c:206-235 | the bit-by-bit loop computes Div |
| `FixedPoint.DivIsCappedQuotient` | gsm/add.c:196-235 | Div is min(32767, floor(num * 2^15 / denum)) for all 0 <= num <= denum |
| `Runs.RunConcat` | gsm/code.c:70-98 | a run over a concatenation is the run over the parts with the state handed on |
| `GsmState.Codec.constructor` | gsm/gsm_create.c:34-45 | a fresh codec: all memories zero, last lag 40, and the codec invariant |
| `Preprocess.OffsetStaysBounded` | gsm/preprocess.c:61-106 | L_z2 - z1 * 2^15 never leaves [-(16380 * 2^15 + 497), 2^29 + 497] |
| `Preprocess.CompensateIsExact` | gsm/preprocess.c:68-99 | no store truncates, no GSM_L_ADD clips, abs(L_z2) < 2^30: the fixed-point filter is the exact integer recurrence |
| `Preprocess.RunStaysBounded` | gsm/preprocess.c:52-112 | the bound holds after every run of samples |
| `Preprocess.GsmPreprocess` | gsm/preprocess.c:34-113 | the loop is the run of the per-sample step, state written back |
| `Lpc.RescalingIsFaithfulIff` | gsm/lpc.c:45-144 | after scaling down and `s << scalauto` a sample is within half a step of itself exactly when it is below 32760; otherwise it becomes -32768 |
| `GsmLimits.RescalingTurnsOver` | gsm/preprocess.c:61-106 | from a coder just created, frames of -32768 until the offset compensation has followed and then 32767: pre-processing puts out 32760 or more, and `s << scalauto` makes it -32768 |
| `Lpc.CorrBelowEnergy` | gsm/lpc.c:91-136 | abs(L_ACF[k]) <= L_ACF[0] for every lag and every prefix of the signal |
| `Lpc.CorrFits` | gsm/lpc.c:91-136 | no partial sum nor its double leaves 32 bits on a scaled signal |
| `Lpc.Autocorrelation` | gsm/lpc.c:26-145 | the nine values are the plain doubled correlations of the scaled signal, and `s` is left rescaled |
| `Lpc.NormalisingFits` | gsm/lpc.c:198-207 | the answer to the source's overflow question: every L_ACF[i] << gsm_norm(L_ACF[0]) fits 32 bits, its top half fits a word, and the first is at least 2^14 |
| `Lpc.EnergyDecreases` | gsm/lpc.c:213-233 | P[0] stays non-negative and never grows, so every gsm_div is called with 0 <= num <= denum |
| `Lpc.ReflectionCoefficients` | gsm/lpc.c:177-242 | the in-place recursion computes the Schur recursion on sequences, including the early exits that zero the rest |
| `Lpc.SchurUpdate` | gsm/lpc.c:229-240 | one in-place round on P and K equals the round on the old values |
| `Lpc.SchurRoundIsLatticeStage` | gsm/lpc.c:229-240 | a round passes the correlations through the stage of the analysis lattice its coefficient is for, P[m + 1] as signal and K[m] as memory word |
| `Lpc.ReflectionCancels` | gsm/lpc.c:213-233 | the coefficient makes that stage cancel the first correlation: at most one unit of P[1] is left, and the energy neither grows nor turns negative |
| `Lpc.LarRoundTripIff` | gsm/lpc.c:246-283 | the decoder's LARp_to_rp undoes the transformation exactly when r is even or at least 22118 in magnitude, and is off by at most one |
| `Lpc.TransformationToLogAreaRatios` | gsm/lpc.c:246-283 | the in-place loop maps every coefficient |
| `Lpc.CodesAreStable` | gsm/lpc.c:287-323 | decoding a transmitted log area ratio and quantizing it again gives the same code, for all codes of all eight coefficients |
| `Lpc.CodeIsNearest` | gsm/lpc.c:302-318 | A times the ratio plus B is within half a step of its code, unless the code is the end of the row on that side |
| `Lpc.DecodedRatioIsNear` | gsm/short_term.c:36-49 | for every ratio whose code is not an end of its row the decoded ratio is within half a step of it, and the rounding of the decoder |
| `Lpc.QuantizationAndCoding` | gsm/lpc.c:287-323 | the eight inlined steps are the table-driven quantizer |
| `Lpc.DecodingFits` | gsm/short_term.c:36-49 | neither the sum nor the shift by ten wraps for a code in range |
| `Lpc.GsmLpcAnalysis` | gsm/lpc.c:326-341 | the stages composed; `s` is left rescaled |
| `ShortTerm.DecodingOfTheCodedLogAreaRatios` | gsm/short_term.c:23-71 | the inlined steps decode all eight codes |
| `ShortTerm.Coefficients` | gsm/short_term.c:91-178 | interpolation and LARp_to_rp of one of the four zones, in place: the coefficients that `RatioInForce` describes |
| `ShortTerm.RatioInForce` | gsm/short_term.c:91-140 | at sample k the ratio is ((3 - z) * previous + (1 + z) * current) / 4, rounded down by at most 2 and exact for z = 3, with z = 0, 1, 2, 3 from the samples 0, 13, 27 and 40 |
| `ShortTerm.InterpolationDoesNotSaturate` | gsm/short_term.c:91-134 | none of the interpolating sums saturates, whatever the ratios |
| `ShortTerm.ZoneTapsProper` | gsm/short_term.c:144-178 | no interpolated coefficient is MIN_WORD, so the products of the lattice fit |
| `ShortTerm.StageInverse` | gsm/short_term.c:211-219 | one lattice stage is undone by its mirror image exactly when its sum was not clipped |
| `ShortTerm.RetracesIffNoClipping` | gsm/short_term.c:205-303 | the synthesis filter retraces every intermediate value of the analysis filter if and only if none of the eight sums is clipped |
| `ShortTerm.SampleInverse` | gsm/short_term.c:205-303 | one sample comes back and the memories stay equal when nothing is clipped |
| `ShortTerm.StageRecoversIff` | gsm/short_term.c:205-303 | a value comes back exactly when its sum was not clipped and the later value came back or the saturating difference absorbs the error; stage 0 is the sample itself |
| `ShortTerm.FirstStageClipLosesSample` | gsm/short_term.c:205-223 | a sum clipped in the first stage always loses the sample |
| `ShortTerm.ClippedPairIsLost` | gsm/short_term.c:205-303 | whatever the memories, the other coefficients and the residual: if the first sum of a sample clips, no residual makes the synthesis filter return it and the sample before it |
| `ShortTerm.ClippedFrameIsLost` | gsm/short_term.c:354-428 | the same for a frame with its interpolated coefficients |
| `GsmLimits.ClippingLosesSample` | gsm/short_term.c:205-303 | the first frame of a coder just created, 146 silent samples and 14 at full scale: with its own codes and samples the first sum of sample 147 clips, and no residual brings the frame back |
| `GsmLimits.HandedIsTheCoders` | gsm/code.c:66-68 | the codes and samples of that frame are what Gsm_Coder hands to the lattice |
| `ShortTerm.ClippingMayCancel` | gsm/short_term.c:205-303 | with the coefficients of the codes 0 a sum clipped in stage 2 leaves wrong inner values and yet the sample comes back |
| `ShortTerm.RunInverse` | gsm/short_term.c:183-305 | over any run with any coefficients that are not MIN_WORD the samples come back and the memories stay equal |
| `ShortTerm.FramesInverse` | gsm/short_term.c:346-429 | over any run of frames, coefficients changing and interpolated, Gsm_Short_Term_Synthesis_Filter returns the input of Gsm_Short_Term_Analysis_Filter |
| `ShortTerm.ShortTermAnalysisFiltering` | gsm/short_term.c:183-223 | the in-place loop over samples and stages is the run of the lattice |
| `ShortTerm.ShortTermSynthesisFiltering` | gsm/short_term.c:265-305 | likewise for the decoder's lattice |
| `ShortTerm.GsmShortTermAnalysisFilter` | gsm/short_term.c:346-386 | the frame driver: decoded ratios, toggled row, four zones, signal replaced by residual |
| `ShortTerm.GsmShortTermSynthesisFilter` | gsm/short_term.c:388-429 | the decoder's frame driver |
| `LongTerm.ScaledSampleFits` | gsm/long_term.c:171-196 | after scaling by scal every sample is in -512..511 |
| `LongTerm.CrossFits` | gsm/long_term.c:200-240 | every partial cross-correlation of 40 terms fits 32 bits, also doubled |
| `LongTerm.SearchFindsFirstMaximum` | gsm/long_term.c:200-238 | the search returns the smallest lag with the greatest positive correlation, or lag 40 |
| `LongTerm.PowerFits` | gsm/long_term.c:249-260 | the power sum fits 32 bits |
| `LongTerm.NormalisedGainFits` | gsm/long_term.c:262-286 | both normalised values stay within 32 bits when R is compared with S |
| `LongTerm.CalculationOfTheLtpParameters` | gsm/long_term.c:156-287 | the imperative search returns the specified lag and gain code |
| `LongTerm.GsmLongTermPredictor` | gsm/long_term.c:834-902 | lag, gain, estimate and residual; the estimate lands where the reconstruction will go although it shares the array with the history; residual and estimate are those of `ResidualIsDifference` and `EstimateIsScaledHistory` |
| `LongTerm.ResidualIsDifference` | gsm/long_term.c:851-857 | the residual is the block less the estimate, saturated; adding the estimate gives the block back exactly where the difference fits a word |
| `LongTerm.EstimateIsScaledHistory` | gsm/long_term.c:855 | the estimate is QLB / 32768 times the word Nc samples back, to the nearest integer |
| `PredictionGain.GainBracketsOperands` | gsm/long_term.c:262-286 | the code brackets L_max / L_power between the decision levels, to 2 / 32768, whatever gsm_norm did |
| `PredictionGain.GainIsTheRatio` | gsm/long_term.c:171-286 | the code brackets the ratio of the plain correlation of block and history to the plain power of the history, up to the bits that the shifts by scal and by 3 lose |
| `PredictionGain.PredictionLowersEnergy` | gsm/long_term.c:156-287 | for every code but 0 the block less the coded gain times the lagged words has no more energy than the block, up to the same bits |
| `LongTerm.GsmLongTermSynthesisFiltering` | gsm/long_term.c:905-949 | forty reconstructed words behind the history, the history shifted in place, nrp updated or kept |
| `Rpe.CommentedSumIsPlain` | gsm/rpe.c:62-69 | no partial sum of the commented L_MULT and L_ADD loop over gsm_H saturates: it is the doubled plain sum, within 2 * 32768 * 24798 |
| `Rpe.SingleSumIsWeighted` | gsm/rpe.c:62-109 | the single undoubled sum from 4096, shifted by 13 and clamped, is the commented filter of section 4.2.13: two saturating doublings and the upper 16 bits |
| `Rpe.WeightingFilter` | gsm/rpe.c:22-110 | the loop with the nine inlined taps computes the commented filter for all 40 samples; its sum never leaves 32 bits |
| `Rpe.CommentedEnergyIsPlain` | gsm/rpe.c:137-160 | the saturating sum of the commented loop never saturates: it is the plain doubled energy |
| `Rpe.SelectionIsFirstMaximum` | gsm/rpe.c:137-160 | the selected grid is the first with the greatest energy |
| `Rpe.RpeGridSelection` | gsm/rpe.c:134-219 | the optimised code, sharing the common sum of grids 0 and 3, picks the grid of the commented loop |
| `Rpe.XmaxcToExpMant` | gsm/rpe.c:223-254 | the loop form computes the exponent and mantissa of all 64 codes |
| `Rpe.MaxCodeBrackets` | gsm/rpe.c:271-301 | xmaxc is in 0..63 and is the bracket the block maximum lies in |
| `Rpe.CeilingIncreases` | gsm/rpe.c:281-301 | the brackets are ordered, so the code is unique |
| `Rpe.NormalisedSampleInRow` | gsm/rpe.c:307-333 | xM << (6 - exp) stays within 16 bits for every sample of the block |
| `Rpe.RowsFit` | gsm/table.c:54-63 | for every mantissa the NRFAC and FAC rows fit together: code in 0..7, decoded value within an eighth of the row |
| `Rpe.PulseRoundTrip` | gsm/rpe.c:307-382 | quantizing and decoding a sample moves it by at most an eighth of the block maximum plus one |
| `Rpe.ApcmQuantization` | gsm/rpe.c:256-345 | the imperative quantizer: xmaxc in 0..63, every code in 0..7, nothing wraps |
| `Rpe.ApcmInverseQuantization` | gsm/rpe.c:349-383 | the imperative inverse |
| `Rpe.PositionedAt` | gsm/rpe.c:414-421 | where the commented loop puts the pulses, and zeros elsewhere |
| `Rpe.RpeGridPositioning` | gsm/rpe.c:387-422 | the switch into the do-while writes exactly 40 words, those of the commented loop |
| `Rpe.GsmRpeEncoding` | gsm/rpe.c:449-468 | e becomes the residual a decoder will reconstruct from the returned parameters |
| `Rpe.GsmRpeDecoding` | gsm/rpe.c:472-488 | the decoder's residual |
| `GsmCodec.SegmentLockstep` | gsm/code.c:70-92 | on any sub-segment coder and decoder reconstruct the same forty words and the same history |
| `GsmCodec.CodingErrorIsPulseError` | gsm/code.c:70-92 | what the RPE coder gets is the block less the estimate, and where neither sum saturates the reconstruction misses the block by the error of the RPE coder alone |
| `GsmCodec.DecoderUsesLastValidLag` | gsm/long_term.c:925-927 | over any run, whatever lags arrive, the decoder predicts with the last one in 40..120 |
| `GsmCodec.FramesLockstep` | gsm/decode.c:36-63 | from equal windows coder and decoder have equal windows and equal decoded log area ratios after every run of frames |
| `GsmCodec.FreshLockstep` | gsm/gsm_create.c:34-45 | from two codecs just created the windows and ratios are equal after every run of frames |
| `GsmCodec.Create` | gsm/gsm_create.c:34-45 | the fresh codec is in the initial state of coder and decoder |
| `GsmCodec.CodedFrameFitsFormat` | gsm/code.c:27-98 | every parameter of every coded frame fits its field of the frame format |
| `GsmCodec.EmphasisUndoneIff` | gsm/decode.c:28-32 | de-emphasis returns the sample before pre-emphasis under an exact condition, for all samples |
| `GsmCodec.OutputIsDoubled` | gsm/decode.c:29-31 | the output is a multiple of 8 in the last eight up to twice the de-emphasised value, saturated; of a sample s downscaled by the coder it is s without its last three bits |
| `GsmCodec.EmphasisChain` | gsm/preprocess.c:36-112 | pre-processing and post-processing of one sample: de-emphasis finds the offset-compensated sample exactly under that condition, and where the compensation changed nothing the output is the input without its last three bits |
| `GsmCodec.CodeSegment` | gsm/code.c:70-92 | one pass of the coder's loop on the sliding pointers |
| `GsmCodec.GsmCoder` | gsm/code.c:27-99 | the whole coder on the mutable state is EncodeFrame |
| `GsmCodec.DecodeStored` | gsm/decode.c:53-59 | one pass of the decoder's loop on the shifted window |
| `GsmCodec.Postprocessing` | gsm/decode.c:19-34 | the in-place loop is the run of de-emphasis, doubling and truncation of `OutputIsDoubled` |
| `GsmCodec.GsmDecoder` | gsm/decode.c:36-63 | the whole decoder on the mutable state is DecodeFrame |
| `FrameFormat.UnpackPack` | gsm/gsm_implode.c:21-105 | the generic high-bit-first writer is undone by the generic reader, for any widths |
| `FrameFormat.PackUnpack` | gsm/gsm_explode.c:17-194 | and the reader by the writer |
| `FrameFormat.WrittenIsFrame` | gsm/gsm_implode.c:105-279 | the hand-written byte expressions are the generic writer over 4,6,6,5,5,4,4,3,3,(7,2,2,6,13 x 3) x 4, for all 16-bit parameters |
| `FrameFormat.ReadIsFrameFields` | gsm/gsm_explode.c:17-194 | the hand-written reader is the generic reader |
| `FrameFormat.ReaderUndoesWriter` | gsm/gsm_decode.c:20-120 | reading a written frame returns all in-range fields |
| `FrameFormat.WriterUndoesReader` | gsm/gsm_encode.c:107-206 | the generic writer undoes the generic reader on all 33-byte frames |
| `FrameFormat.ExplodeUndoesImplode` | gsm/gsm_implode.c:105-279 | explode returns what implode was given, cut to the widths; all of it when in range |
| `FrameFormat.ImplodeUndoesExplodeIff` | gsm/gsm_implode.c:105-279 | the parameters read from a frame are written back as the same 33 bytes exactly when it has the magic number; without it no parameters are written as these bytes |
| `FrameFormat.ExplodeThenImplode` | gsm/gsm_explode.c:17-194 | the two procedures one after the other copy every frame that explode accepts |
| `FrameFormat.WriteHeader` | gsm/gsm_encode.c:107-118 | the first five bytes |
| `FrameFormat.WriteSegment` | gsm/gsm_encode.c:119-140 | the seven bytes of a sub-segment, nothing else touched |
| `FrameFormat.Implode` | gsm/gsm_implode.c:21-280 | all 33 assignments |
| `FrameFormat.ReadSegment` | gsm/gsm_decode.c:33-54 | the parameters of a sub-segment, nothing else touched |
| `FrameFormat.Explode` | gsm/gsm_explode.c:13-197 | -1 and no change without the magic number, else the 76 fields |
| `GsmWire.FrameCarriesCoded` | gsm/gsm_encode.c:107-206 | a coded frame survives its 33 bytes |
| `GsmWire.WireIsTransparent` | gsm/gsm_decode.c:14-125 | through the bytes of any coded frame the decoder does what it does on the parameters |
| `GsmWire.EncodeWritesWhatDecodeReadIff` | gsm/gsm_decode.c:20-120 | what gsm_decode reads, the writer of gsm_encode writes back as the same 33 bytes exactly when the frame has the magic number |
| `GsmWire.ReadThenWrite` | gsm/gsm_encode.c:107-206 | the two assignment lists one after the other copy every frame with the magic number |
| `GsmWire.WireLockstep` | gsm/gsm_decode.c:14-125 | the lockstep of the two codecs over whole runs with real frames between them |
| `GsmWire.FreshWireLockstep` | gsm/gsm_create.c:34-45 | the same with real frames between two codecs just created |
| `GsmWire.GsmEncode` | gsm/gsm_encode.c:13-207 | gsm_encode on the mutable state |
| `GsmWire.GsmDecode` | gsm/gsm_decode.c:14-125 | gsm_decode on the mutable state, with its error return |
| `G72x.FindQuan` | adpcm/g72x.c:46-58 | the loop returns the first entry above the value |
| `G72x.BitLengthBrackets` | adpcm/g72x.c:34-58 | against the powers of two quan() is the bit length |
| `G72x.FloatMagnitudeRange` | adpcm/g72x.c:401-424 | FLOAT A and FLOAT B always give a mantissa of 32..63 and an exponent of 4 bits |
| `G72x.Fmult` | adpcm/g72x.c:67-87 | the product is never MIN_WORD, so its negation fits, and no shift count is negative |
| `G72x.StepSizeRange` | adpcm/g72x.c:155-175 | in the invariant the step size is in [544, 5120] |
| `Adaptation.StepSizeIsWeighted` | adpcm/g72x.c:155-175 | the step size is the slow scale factor at ap < 4, the fast one from ap = 256, and in between each weighted by ap / 4 of 64, rounded towards the slow one |
| `Adaptation.StepSizeTendsToFast` | adpcm/g72x.c:155-175 | the greater ap, the nearer the step size is to the fast scale factor |
| `G72x.ThresholdDoesNotWrap` | adpcm/g72x.c:292-297 | the threshold shift fits 16 bits except at yl = 327680, where it is not used |
| `G72x.YlStaysInRange` | adpcm/g72x.c:319-321 | 34816 <= yl <= 327680 is kept |
| `G72x.PolesStayStable` | adpcm/g72x.c:336-382 | LIMC and LIMD keep abs(a[1]) <= 12288 and abs(a[0]) <= 15360 - a[1] |
| `G72x.AveragesStayInRange` | adpcm/g72x.c:440-441 | 0 <= dms <= 3584 and 0 <= dml <= 14336 are kept |
| `G72x.SpeedStaysInRange` | adpcm/g72x.c:443-453 | 0 <= ap <= 512 is kept |
| `G72x.UpdateKeepsInv` | adpcm/g72x.c:267-454 | update() keeps all coupled bounds, whatever the code and the signal |
| `G72x.G72xState.constructor` | adpcm/g72x.c:96-116 | the initial state |
| `G72x.G72xState.SumZeros` | adpcm/g72x.c:124-135 | the six-term loop is the predictor sum |
| `G72x.G72xState.Mix` | adpcm/g72x.c:155-175 | step_size() on the mutable state |
| `G72x.G72xState.Adapt` | adpcm/g72x.c:267-454 | update() on the mutable state is the function Update, field by field, whose movements module Adaptation states |
| `Adaptation.ScalesMove` | adpcm/g72x.c:309-321 | after every code of every rate yu has moved a 32nd of the way from the step size to the multiplier of the code, unless the limit 544 or 5120 on that side stops it, and yl a 64th of the way to 64 yu |
| `Adaptation.ScaleFollowsLevel` | adpcm/g72x.c:309-317 | a code of the outermost level raises yu above the step size, a code of level 0 lowers it, unless the limit is reached |
| `Adaptation.ScaleIsMonotone` | adpcm/g721.c:61-63 | of two codes the one of the greater level never leaves the smaller scale factors |
| `Adaptation.SpeedMoves` | adpcm/g72x.c:438-453 | dms and dml move towards the activity of the code, and ap towards 512 while the signal is unsettled, towards 0 otherwise, to 256 on a transition |
| `Adaptation.ActivityIncreases` | adpcm/g721.c:69-70 | the activity does not decrease from level to level |
| `Adaptation.ThresholdIsAntilog` | adpcm/g72x.c:292-298 | the transition threshold is three quarters of a line through the powers of two at yl / 2^15, in steps of 1 / 32 |
| `Adaptation.TransitionResets` | adpcm/g72x.c:299-331 | after a tone a difference above the threshold clears the predictor and the detector; otherwise the detector watches the second pole |
| `Adaptation.SecondPoleIsClamped` | adpcm/g72x.c:338-366 | UPA2 and LIMC are a plain sum clamped to 12288: leak, 128 with the sign correlation over two samples, up to 256 of the first pole against that over one |
| `Adaptation.FirstPoleIsClamped` | adpcm/g72x.c:368-382 | UPA1 and LIMD are a plain sum clamped to 15360 - a[1]: leak, and 192 with the sign correlation over one sample |
| `Adaptation.CodeMovesPoles` | adpcm/g72x.c:336-382 | off transitions, in terms of the code alone: both poles follow the signs of the partial signals now and one and two samples ago |
| `Adaptation.ZeroMovesIff` | adpcm/g72x.c:384-396 | a predictor zero leaks and moves by 128 with or against the sign correlation; the store wraps exactly when the sum leaves 16 bits |
| `Adaptation.CodeMovesZeros` | adpcm/g72x.c:384-396 | off transitions every zero follows the sign of its difference against the one just decoded, with the slower leak at 40 kbit/s |
| `Adaptation.PoleDifferenceIsPartialSignal` | adpcm/g721.c:119 | dqsez is half the zeros' prediction plus the decoded difference; the estimate cancels out |
| `Adaptation.DelayLinesMove` | adpcm/g72x.c:398-427 | the new difference, signal and sign enter their delay lines |
| `Prediction.SignalDenotes` | adpcm/g72x.c:412-423 | FLOAT B stands for the signal, its magnitude cut to six bits; -32768 is remembered as zero |
| `Prediction.DifferenceDenotes` | adpcm/g72x.c:401-410 | FLOAT A likewise stands for the difference |
| `Prediction.FmultIsProduct` | adpcm/g72x.c:67-87 | fmult() is the product of the numbers, over 2^11, to a sixteenth and 16 units, as long as 15 bits hold it |
| `Prediction.DecoderRemembers` | adpcm/g72x.c:398-423 | after any codes the delay lines stand for the decoder's last two outputs and the differences of the last six codes |
| `Prediction.DecoderPredictsLinearly` | adpcm/g72x.c:124-148 | after any codes the decoder's estimate is, to that accuracy, the poles times its last two outputs plus the zeros times the last six differences |
| `Adpcm.DecoderKeepsInv` | adpcm/g721.c:135-173 | no sequence of codes, valid or not, takes any of the three decoders out of the invariant |
| `Adpcm.RunsStayInInv` | adpcm/g72x.c:95-120 | so from g72x_init_state on no decoder and no encoder ever leaves it |
| `Adpcm.EncoderKeepsInv` | adpcm/g721.c:78-124 | nor any sequence of samples an encoder |
| `Adpcm.ShiftCountsAreNonNegative` | adpcm/g72x.c:249-256 | reconstruct() never shifts by a negative count, for any code and reachable step size |
| `Adpcm.MaskLosesNothing` | adpcm/g721.c:157 | masking with 0x3FFF (0x7FFF at 40 kbit/s) keeps the whole magnitude: the signal is the estimate plus or minus the antilog |
| `Adpcm.SampleLockstep` | adpcm/g721.c:105-169 | encoder and decoder agree on signal and state unless the G.721 predictor sum leaves 16 bits, and then on neither |
| `Adpcm.RunLockstep` | adpcm/g723_24.c:66-158 | over any run the decoder's output is the encoder's own reconstruction exactly when no sum is cut, and then the states are equal |
| `Adpcm.G723NeverCut` | adpcm/g723_40.c:112-166 | G.723 never cuts a sum differently, so its lockstep is unconditional |
| `Adpcm.LoudStateFallsOutOfStep` | adpcm/g721.c:107 | one state inside the invariant where the G.721 encoder and decoder differ on every sample |
| `Adpcm.LogOfAntilog` | adpcm/g72x.c:200-208 | the logarithm of quantize() undoes the antilogarithm of reconstruct() up to the mantissa bits shifted out, exactly from seven whole bits on |
| `Adpcm.LevelInItsInterval` | adpcm/g721.c:31-40 | every reconstruction level of the three tables lies in its own decision interval |
| `Adpcm.CodesAreStableIff` | adpcm/g72x.c:187-258 | coding a reconstructed difference again gives the same code exactly when the mantissa bits shifted out are fewer than the distance of the level from the threshold below; with a negative logarithm only the code of zero |
| `Adpcm.EmittedCodesAreStable` | adpcm/g72x.c:187-258 | at 24 and 32 kbit/s every code an encoder emits is stable, at every step size |
| `Adpcm.LongCodesAreStable` | adpcm/g72x.c:187-258 | at 40 kbit/s too, from seven whole bits of logarithm on |
| `Quantizer.LogBrackets` | adpcm/g72x.c:195-208 | LOG, read backwards, brackets its argument between neighbouring points of the line through the powers of two |
| `Quantizer.AntilogIsLine` | adpcm/g72x.c:252-256 | ANTILOG is that line, rounded down |
| `Quantizer.FittingSumsGiveFittingDifferences` | adpcm/g721.c:99-109 | the difference from the estimate fits 16 bits whenever the predictor sum does, and always in G.723 |
| `Quantizer.CodeOfSample` | adpcm/g721.c:97-114 | for every sample whose difference fits: the code has the sign of the difference, and its level is the interval of the table that holds the logarithm less the step size |
| `Quantizer.ExtremeDifferenceIsCodedAsZero` | adpcm/g72x.c:195-232 | the one difference whose magnitude is not a word, -32768, is coded as zero |
| `Quantizer.SignalIsNear` | adpcm/g723_24.c:79-109 | the encoder's own signal misses the 14-bit sample by at most the width of the interval its code names; on the outermost level both magnitudes lie above its threshold |
| `Quantizer.OutputIsNear` | adpcm/g723_40.c:98-166 | so in lockstep the decoder's output misses the sample by at most four times that width and the two bits not coded |
| `Adpcm.UnstableCode` | adpcm/g72x.c:187-258 | below it fails at 40 kbit/s: at step size 600 a difference of 2 is sent as code 1, whose reconstruction is coded as zero |
| `Adpcm.Encode` | adpcm/g721.c:79-124 | the three encoders on the mutable state: the code that `Quantizer.CodeOfSample` describes, and the state after it |
| `Adpcm.Decode` | adpcm/g721.c:136-173 | the three decoders on the mutable state |
| `BitPacking.WordsOfBitsOf` | adpcm/decode.c:25-36 | cutting a stream undoes joining it |
| `BitPacking.PackingRoundTrip` | adpcm/encode.c:25-33 | for 3, 4 and 5 bit codes the codes come back followed by at most seven zero codes |
| `BitPacking.FlushStep` | adpcm/encode.c:115-117 | each flush turn brings the residue closer to a byte boundary |
| `BitPacking.PaddedFillsBytes` | adpcm/encode.c:115-117 | the flush ends on a byte boundary |
| `BitPacking.Flush` | adpcm/encode.c:115-117 | the flush loop terminates and leaves the packed form |
| `BitPacking.Packer.PackOutput` | adpcm/encode.c:17-34 | the stream grows by exactly the bits of the code; the result says whether bits are pending |
| `BitPacking.Unpacker.UnpackInput` | adpcm/decode.c:17-37 | the code is the head of the stream; -1 exactly when fewer bits are left |
| `AdpcmFile.EncodeFile` | adpcm/encode.c:107-117 | the packed codes of the run; for an empty file, depending on the resid that was never set, nothing or one flushed zero code |
| `AdpcmFile.DecodeFile` | adpcm/decode.c:102-111 | the main loop writes the decoded samples of the unpacked codes |
| `AdpcmFile.FileRoundTrip` | adpcm/decode.c:102-111 | a file encoded and decoded again is the encoder's own reconstruction, then at most seven samples |
| `Streaming.SplitIndependence` | rplayd/sound.c:2303-2330 | the codes unpacked do not depend on how the bytes were split into buffers |
| `Streaming.ExpansionFits` | rplayd/sound.c:2446-2455 | a full buffer, with bits carried over, expands to exactly BUFFER_SIZE and a shorter one to no more |
| `Streaming.ExpansionIsTight` | rplayd/sound.c:2446-2455 | one byte more would overflow |
| `Streaming.Sindex.AdpcmUnpack` | rplayd/sound.c:2303-2330 | the code is the head of the carried and buffered bits; -1 only at the end of the buffer, carried bits kept |
| `Streaming.DecodedConcat` | rplayd/sound.c:2341-2369 | decoding some bytes and then more is decoding all of them, state, samples and carried bits |
| `Streaming.AdpcmDecode` | rplayd/sound.c:2332-2370 | the buffer loop: up to the first empty buffer, the samples of the concatenation, no buffer beyond BUFFER_SIZE |
| `Streaming.StreamedIsDecodedFile` | rplayd/sound.c:2332-2370 | streamed samples are what decode.c writes for the whole file |
| `GsmStreaming.AlignedIsCut` | rplayd/sound.c:2389-2406 | aligned buffers give the frames of the unsplit stream |
| `GsmStreaming.PiecedFrameLosesMagic` | rplayd/sound.c:2392-2393 | a frame pieced together from two buffers starts with the first byte of its last piece, because every piece is copied to the start |
| `GsmStreaming.SplitIsHarmlessIffAligned` | rplayd/sound.c:2374-2420 | the frames are those of the unsplit stream for all contents exactly when no buffer boundary lies inside a frame that is completed later |
| `GsmStreaming.GsmFixedBufferSize` | rplayd/sound.c:2457-2469 | the loop finds the greatest multiple of the frame size |
| `GsmStreaming.GsmExpansionFits` | rplayd/sound.c:2457-2469 | 825 bytes and any carried bytes give at most 8000 of 8192 bytes |
| `GsmStreaming.FullBuffersAreAligned` | rplayd/sound.c:2457-2469 | buffers filled to that size are aligned |
| `GsmStreaming.FrameAssembler.GsmUncompress` | rplayd/sound.c:2383-2418 | the do-while on the mutable frame hands over the specified frames |
| `HashTable.AskStops` | lib/hash.c:681-752 | a table with a slot that is not live stops every probe before the wall, on the second pass at the latest |
| `HashTable.RunKeepsCounts` | lib/hash.c:343-584 | after any calls, deletions included, STAT_USED counts the live slots, the table is at most one over half full, every probe stops before the wall, and no probe path has a gap |
| `HashTable.FoundIffNoDeletedBefore` | lib/hash.c:698-724 | a key is found exactly when it is in a slot with no deleted slot before it on its probe path |
| `HashTable.FindAgrees` | lib/hash.c:657-669 | hash_find agrees with the map the table represents |
| `HashTable.GrowRefines` | lib/hash.c:494-584 | hash_grow keeps the map |
| `HashTable.StepRefines` | lib/hash.c:379-480 | each call is its map operation |
| `HashTable.RunRefines` | lib/hash.c:343-584 | over whole runs the table is the map as long as no deletion breaks a probe path |
| `HashTable.DeleteFreeRunIsMap` | lib/hash.c:411-480 | from hash_new on, after any inserts, jams and replaces, hash_find is map lookup |
| `HashTable.DeleteRefinesIffUnpassed` | lib/hash.c:343-369 | a deletion keeps the table a settled picture of the map exactly when no other symbol's search passes through the slot |
| `HashTable.LookupsAfterDeleteIff` | lib/hash.c:343-369 | after a deletion hash_find agrees with the map for every symbol exactly when no other symbol's search passes through the slot |
| `HashTable.DeletionHidesCollidingSymbol` | lib/hash.c:698-724 | any two symbols with the same code: deleting the first hides the second, and inserting the second again stores it twice |
| `HashTable.HashControl.constructor` | lib/hash.c:249-279 | 2048 vacant slots |
| `HashTable.HashControl.HashAsk` | lib/hash.c:681-752 | the two probe loops on the array |
| `HashTable.HashControl.HashFind` | lib/hash.c:657-669 | lookup |
| `HashTable.HashControl.HashInsert` | lib/hash.c:410-439 | grows when over half full, refuses an existing symbol, writes and counts a new one |
| `HashTable.HashControl.HashJam` | lib/hash.c:455-480 | grows, replaces or inserts |
| `HashTable.HashControl.HashGrow` | lib/hash.c:493-584 | doubles and rehashes; terminates because the hash_jam it calls never grows again |
| `HashTable.HashControl.HashReplace` | lib/hash.c:379-400 | replaces a value, or leaves the table alone |
| `HashTable.HashControl.HashDelete` | lib/hash.c:343-369 | marks the slot deleted and counts down |
| `Getopt.SwapBottom` | lib/getopt.c:238-253 | swapping the short bottom block to the far end leaves a smaller rotation to do |
| `Getopt.SwapTop` | lib/getopt.c:254-269 | likewise for the short top block |
| `Getopt.Exchange` | lib/getopt.c:223-270 | exchange() rotates the two blocks in place, keeps order in each and touches nothing else |
| `Getopt.PartitionIsStable` | lib/getopt.c:386-433 | options with their arguments, and operands, are a stable partition of the arguments |
| `Getopt.Scanner.ExchangeBlocks` | lib/getopt.c:223-276 | exchange() with the indices moved |
| `Getopt.Scanner.SkipToOption` | lib/getopt.c:386-402 | exchange and skip keep all options and all operands in order |
| `Getopt.Scanner.Advance` | lib/getopt.c:384-433 | the head of the scan: either at an option, or at EOF with options first and operands from optind on |
| `Getopt.ScanAll` | lib/getopt.c:384-433 | a program that calls getopt until EOF finds argv permuted into options and operands, "--" included |
| `Packet.UnpackPack` | librplay/rplay.c:199-520 | what rplay_unpack gives for every object rplay_pack can print, random sound and empty lists included |
| `Packet.RoundTripIff` | librplay/rplay.c:199-520 | the object is restored exactly when it has a set, no random sound is picked, and no set but the first is all defaults |
| `Packet.KeptAllIff` | librplay/rplay.c:493-509 | the sets that survive are all of them exactly under that condition |
| `Packet.ParseAttrs` | librplay/rplay.c:271-354 | one packed set reads back as itself |
| `Packing.CopiesAreThePacket` | librplay/rplay.c:199-366 | the COPYs of rplay_pack, one after the other, are the packet |
| `Packing.SoundCopies` | librplay/rplay.c:167-190 | packing into an object that was never refused stays inside what is allocated, succeeds exactly when the packet in steps of 128 fits MAX_PACKET, and a refusal leaves rp->size above MAX_PACKET |
| `Packing.BrokenCopies` | librplay/rplay.c:167-190 | after a refusal nothing is allocated again: a pack leaves the allocation exactly when the bytes it copies exceed it |
| `Packing.RunSoundIffNeverRefused` | librplay/rplay.c:167-190 | over all runs of packs rp->size stays within what is allocated exactly as long as no pack was refused |
| `Packing.PackStaysInsideIff` | librplay/rplay.c:199-366 | after any run, a pack stays inside what is allocated exactly when no earlier one was refused or the bytes it copies fit |
| `Packing.WholePacketStaysInsideIff` | librplay/rplay.c:199-366 | for a packet no larger than rp->size those bytes are the packet |
| `Packing.RunStaysInsideIff` | librplay/rplay.c:199-366 | a whole run stays inside exactly when every pack after a refusal fits |
| `Packing.RefusalIsForEver` | librplay/rplay.c:167-190 | whatever is packed after a refusal, what is allocated never changes |
| `Packing.RefusedThenOutside` | librplay/rplay.c:167-190 | for every MAX_PACKET from 256: data of that size is refused, and 200 bytes of data then leave the 128 bytes allocated |
| `Packing.PacketBuffer.Copy` | librplay/rplay.c:167-190 | the COPY macro from any state: the bytes appended, or a refusal that changes rp->size and nothing else, or a write past what is allocated |
| `Packing.PacketBuffer.RplayPack` | librplay/rplay.c:199-366 | from any state of the buffer: the outcome of the list of COPYs and the new sizes, and on success exactly the packet |
| `Packet.RplayUnpack` | librplay/rplay.c:374-520 | the parser loop, with its two error returns |
| `EventQueue.Connection.UpdateFdset` | rplayd/connection.c:826-873 | the masks hold the connection as its head event wants; other connections are untouched |
| `EventQueue.Connection.EventFirst` | rplayd/connection.c:2211-2237 | puts one event in front |
| `EventQueue.Connection.EventInsert` | rplayd/connection.c:2288-2311 | appends through ep |
| `EventQueue.Connection.EventInsertBefore` | rplayd/connection.c:2240-2285 | inserts before the first event of a kind in the mask |
| `EventQueue.Connection.EventReplace` | rplayd/connection.c:2315-2338 | replaces the head |
| `EventQueue.Connection.EventDelete` | rplayd/connection.c:2342-2387 | deletes the head; an empty client queue gets its idle event back |
| `EventQueue.Connection.ChangeFlow` | rplayd/connection.c:1634-1645 | pausing or continuing one connection's flow |
| `EventQueue.ChangeFlows` | rplayd/connection.c:1623-1677 | pausing or continuing a spool's flow in all connections; every connection's masks follow its head |
| `EventQueue.PerformAll` | rplayd/connection.c:2211-2387 | after any run of operations the list is the abstract sequence, ep the last slot, and the masks follow the head |
| `EventQueue.ContinueUndoesPauseIff` | rplayd/connection.c:1623-1677 | continuing undoes pausing exactly when no event of the spool waits ahead of the first that reads |

## Left out

- Floating point: `USE_FLOAT_MUL`, `FAST` and `LTP_CUT` variants, `native.c`, `flange.c`; `max_per_buffer` is computed exactly instead of in `float`.
- A-law and u-law input and output, `tandem_adjust_alaw` and `tandem_adjust_ulaw`: samples are 16-bit linear, the finite tables of `g711.c` are not part of this model.
- The six ADPCM routines are two, indexed by the rate, because their bodies differ only in tables, one mask and one line; that line is kept.
- The predictor zeros `b[]` of ADPCM wrap at 16 bits as in the code; no tighter bound is claimed for them.
- Prediction.DecoderPredictsLinearly: where `fmult()` cuts a product to 15 bits nothing is said of the estimate's accuracy.
- Adpcm.LoudStateFallsOutOfStep: the state is one the invariant allows; that a run of samples from `g72x_init_state` reaches a state whose predictor sum is cut is not proved.
- Stereo streaming (the channel is a local of `adpcm_decode`), the `skip` path and the three readers of `sound_fill`: only their buffer sizes are used.
- Streaming.AdpcmDecode: buffers are byte sequences in and sample sequences out; that the source decodes into the same memory through a copy is not modelled.
- `gsm_decode` writes a stale sample block when the magic number is missing; `GsmStreaming` stops at the frames handed over.
- String comparison and `hash_code` itself: keys are values with equality and the hash function is arbitrary; access and collision statistics, `hash_apply`, `hash_say` and `hash_die` are not modelled.
- `REQUIRE_ORDER` and `RETURN_IN_ORDER`, long options, messages and `nextchar` in getopt: between two elements only the one or two elements an option uses up matter, and which options use two is an arbitrary function.
- Memory exhaustion (`malloc` and `realloc` returning NULL) everywhere; `MAX_PACKET` is a parameter.
- Packing.PacketBuffer.Copy: a write past what is allocated has no meaning in C; the model stops there with `Outside` and changes nothing more.
- Packet.RplayUnpack: the source has no packet length and would read past the end; the model reports an overrun.
- `rplay_set`, `rplay_get`, the conversion of old packets, and sending: not needed for the packet.
- Event chains longer than one event, `event_destroy`, the contents of events beyond type and spool, and the monitor variants of pause and continue.
- `event_update`, sockets, select, spools, the RPTP commands, mapping and caching of sounds, and everything else of the daemon: foreign calls without an inner property.
