/** The frame loops of the coder and the decoder (gsm/code.c, gsm/decode.c).

  The coder predicts each sub-segment from the residual a decoder would have reconstructed so far, and
  keeps that residual in a window that it slides by moving a pointer and copying once per frame.  The
  decoder rebuilds the same residual from the transmitted parameters and shifts its window in place.
  The main result is that the two windows are equal after every sub-segment of every run.
 */
module GsmCodec {
  import opened FixedPoint
  import opened GsmState
  import opened Runs
  import opened Rpe
  import opened LongTerm
  import Lpc
  import Pre = Preprocess
  import ShortTerm

  // ----- one sub-segment

  /** The transmitted parameters of one sub-segment. */
  datatype RawSegment = Segment(nc: Word, bc: Word, rpe: RpeParams)

  /** Parameters of the transmitted bit widths: 7, 2, 6, 2 and thirteen times 3. */
  type Segment = g: RawSegment | 0 <= g.nc <= 127 && 0 <= g.bc <= 3 && Transmittable(g.rpe)
    witness Segment(40, 0, RpeParams(0, 0, [0, 0, 0, 0, 0, 0, 0, 0, 0, 0, 0, 0, 0]))

  const MARGIN: seq<Word> := [0, 0, 0, 0, 0]

  /** One pass of the loop of Gsm_Coder: the next history and what is sent for the block `d`. */
  function EncodeSegment(hist: History, d: Block): (r: (History, Segment))
    ensures 40 <= r.1.nc <= 120
  {
    hide LtpParameters, Estimate, Residual, RpeEncode, RpeDecode, Reconstruct;
    var (nc, bc) := LtpParameters(d, hist);
    var dpp := Estimate(hist, nc, bc);
    var q := RpeEncode(MARGIN + Residual(d, dpp) + MARGIN);
    (Slide(hist, Reconstruct(RpeDecode(q), dpp)), Segment(nc, bc, q))
  }

  datatype LtpState = LtpState(hist: History, nrp: Lag)

  type Lag = n: Word | 40 <= n <= 120 witness 40

  /** One pass of the loop of Gsm_Decoder: the next history and the reconstructed residual. */
  function DecodeSegment(st: LtpState, g: Segment): (LtpState, Block)
  {
    var nr := EffectiveLag(g.nc, st.nrp);
    var drp := Reconstruct(RpeDecode(g.rpe), Estimate(st.hist, nr, g.bc));
    (LtpState(Slide(st.hist, drp), nr), drp)
  }

  /** Coder and decoder take the same step, and the decoder's forty words are the coder's. */
  lemma SegmentLockstep(hist: History, nrp: Lag, d: Block)
    ensures var (hist1, g) := EncodeSegment(hist, d);
            var (st1, drp) := DecodeSegment(LtpState(hist, nrp), g);
            st1.hist == hist1 && drp == hist1[80..] && st1.nrp == g.nc
  {
    hide LtpParameters;
    hide RpeEncode;
    hide RpeDecode;
    hide Reconstruct;
    hide Estimate;
    hide Residual;
  }

  /** The loop is closed: what is coded is the block less the estimate, and where neither that difference nor
      the reconstructing sum saturates, the reconstruction misses the block by the error of the RPE coder
      alone.  `dpp` is the estimate, `x` the difference word by word. */
  lemma CodingErrorIsPulseError(hist: History, d: Block, dpp: Block, x: Block)
    requires var g := EncodeSegment(hist, d).1; dpp == Estimate(hist, g.nc, g.bc)
    requires forall k :: 0 <= k < 40 ==> x[k] == Saturate((d[k] as int) - dpp[k])
    ensures EncodeSegment(hist, d).1.rpe == RpeEncode(MARGIN + x + MARGIN)
    ensures var ep := RpeDecode(EncodeSegment(hist, d).1.rpe);
            forall k :: 0 <= k < 40 ==> Closed(d[k], dpp[k], x[k], ep[k], EncodeSegment(hist, d).0[80 + k])
  {
    hide LtpParameters, Estimate, RpeEncode, RpeDecode, Residual;
    EncodedIs(hist, d);
    hide EncodeSegment;
    forall k | 0 <= k < 40 ensures Residual(d, dpp)[k] == x[k] {
      ResidualIsDifference(d, dpp, k);
    }
    assert Residual(d, dpp) == x;
  }

  /** For one word: sample, estimate, residual, decoded residual and reconstruction. */
  predicate Closed(d: int, p: int, x: int, e: int, r: int) {
    MIN_WORD <= d - p <= MAX_WORD && MIN_WORD <= e + p <= MAX_WORD ==> x == d - p && r - d == e - x
  }

  /** Over any run of sub-segments, whatever the signal, the decoder's window equals the coder's, and
      every block of residual the decoder hands to its short term filter is the one the coder
      predicted from. */
  lemma {:induction false} SegmentsLockstep(hist: History, nrp: Lag, d: seq<Block>)
    ensures var (hist1, g) := Run(EncodeSegment, hist, d);
            var (st1, drp) := Run(DecodeSegment, LtpState(hist, nrp), g);
            && st1.hist == hist1
            && forall k :: 0 < k <= |d| ==> drp[k - 1] == Run(EncodeSegment, hist, d[..k]).0[80..]
  {
    hide EncodeSegment;
    hide DecodeSegment;
    if d != [] {
      var n := |d| - 1;
      SegmentsLockstep(hist, nrp, d[..n]);
      var (hist0, g0) := Run(EncodeSegment, hist, d[..n]);
      var g := Run(EncodeSegment, hist, d).1;
      assert g[..n] == g0;
      SegmentLockstep(hist0, Run(DecodeSegment, LtpState(hist, nrp), g0).0.nrp, d[n]);
      assert d[..n + 1] == d;
      assert forall k :: 0 < k <= n ==> d[..n][..k] == d[..k];
    }
  }

  /** The last lag in 40..120 that was received; `before` when there was none. */
  function LastValidLag(before: Lag, g: seq<Segment>): Lag {
    if g == [] then before
    else
      var nc := g[|g| - 1].nc;
      if 40 <= nc <= 120 then nc else LastValidLag(before, g[..|g| - 1])
  }

  /** Whatever lags arrive, the decoder predicts with the last valid one. */
  lemma {:induction false} DecoderUsesLastValidLag(st: LtpState, g: seq<Segment>)
    ensures Run(DecodeSegment, st, g).0.nrp == LastValidLag(st.nrp, g)
  {
    hide RpeDecode, Estimate, Reconstruct, Slide;
    if g != [] {
      DecoderUsesLastValidLag(st, g[..|g| - 1]);
    }
  }

  // ----- frames

  type Samples = ShortTerm.Samples

  /** A coded frame. */
  datatype RawCoded = Coded(larc: ShortTerm.Taps, segments: seq<Segment>)
  type Coded = c: RawCoded | |c.segments| == 4
    witness Coded([0, 0, 0, 0, 0, 0, 0, 0],
      [Segment(40, 0, RpeParams(0, 0, [0, 0, 0, 0, 0, 0, 0, 0, 0, 0, 0, 0, 0])),
       Segment(40, 0, RpeParams(0, 0, [0, 0, 0, 0, 0, 0, 0, 0, 0, 0, 0, 0, 0])),
       Segment(40, 0, RpeParams(0, 0, [0, 0, 0, 0, 0, 0, 0, 0, 0, 0, 0, 0, 0])),
       Segment(40, 0, RpeParams(0, 0, [0, 0, 0, 0, 0, 0, 0, 0, 0, 0, 0, 0, 0]))])

  /** The four sub-segments of a frame. */
  function Blocks(d: Samples): (b: seq<Block>)
    ensures |b| == 4
  {
    [d[0..40], d[40..80], d[80..120], d[120..160]]
  }

  datatype CoderState = CoderState(pre: Pre.Memory, lattice: ShortTerm.AnalysisState, hist: History)
  datatype DecoderState = DecoderState(ltp: LtpState, lattice: ShortTerm.SynthesisState, msr: Word)

  /** Gsm_Coder on one frame. */
  function EncodeFrame(st: CoderState, s: Samples): (CoderState, Coded)
  {
    var (pre, so) := Run(Pre.Step, st.pre, s);
    var larc := Lpc.LpcCodes(so);
    var (lattice, d) := ShortTerm.AnalyseFrame(st.lattice, ShortTerm.Frame(larc, Lpc.Rescaled(so)));
    var (hist, segments) := Run(EncodeSegment, st.hist, Blocks(d));
    (CoderState(pre, lattice, hist), Coded(larc, segments))
  }

  function WholeFrame(b: seq<Block>): Samples
    requires |b| == 4
  {
    var b0: seq<Word> := b[0];
    b0 + b[1] + b[2] + b[3]
  }

  /** One sample of Postprocessing: de-emphasis, doubling, truncation to 13 bits. */
  function Deemphasise(msr: Word, s: Word): (Word, Word)
  {
    var msr1 := GsmAdd(s, GsmMultR(msr, 28180));
    (msr1, ToWord(GsmAdd(msr1, msr1) / 8 * 8 % 0x1_0000))
  }

  /** The condition under which de-emphasis finds `mp` again. */
  predicate Undone(prev: Word, mp: Word) {
    var sum := mp + GsmMultR(prev, -28180);
    if prev % 0x2000 != 0x1000 then MIN_WORD <= sum <= MAX_WORD
    else sum == MAX_WORD + 1 || (mp == MAX_WORD && MIN_WORD <= sum <= MAX_WORD)
  }

  /** De-emphasis undoes pre-emphasis exactly when the pre-emphasised sum is not clipped.  When
      28180/32768 of the previous sample is halfway between two integers, both products round upwards and
      the result is one too high, so then the sum must be clipped by one, or the sample be the largest. */
  lemma EmphasisUndoneIff(prev: Word, mp: Word)
    ensures Deemphasise(prev, GsmAdd(mp, GsmMultR(prev, -28180))).0 == mp <==> Undone(prev, mp)
  {
    if prev % 0x2000 == 0x1000 {
      HalfwayRemainder(prev);
    } else if prev * 28180 % 0x8000 == 0x4000 {
      HalfwayOnly(prev);
      assert false;
    }
    EmphasisProducts(prev);
    hide GsmMultR;
  }

  lemma HalfwayRemainder(a: int)
    requires a % 0x2000 == 0x1000
    ensures a * 28180 % 0x8000 == 0x4000
  {
    var q := a / 0x2000;
    assert a == 0x2000 * q + 0x1000;
    assert a * 28180 == 0x8000 * (7045 * q + 3522) + 0x4000;
  }

  lemma EmphasisProducts(prev: Word)
    ensures prev * 28180 % 0x8000 != 0x4000 ==> GsmMultR(prev, 28180) == 0 - GsmMultR(prev, -28180)
    ensures prev * 28180 % 0x8000 == 0x4000 ==> GsmMultR(prev, 28180) == 1 - GsmMultR(prev, -28180)
  {
    var t := prev * 28180;
    RoundedPair(t);
    assert MultR(prev, 28180) == (t + 0x4000) / 0x8000;
    assert MultR(prev, -28180) == (-t + 0x4000) / 0x8000;
    hide MultR;
  }

  lemma RoundedPair(t: int)
    ensures (t + 0x4000) / 0x8000 + (-t + 0x4000) / 0x8000 == if t % 0x8000 == 0x4000 then 1 else 0
  {
    var q, r := t / 0x8000, t % 0x8000;
    assert (t + 0x4000) / 0x8000 == if r < 0x4000 then q else q + 1;
    assert (-t + 0x4000) / 0x8000 == if r <= 0x4000 then -q else -q - 1;
  }

  /** 7045 is invertible modulo 8192. */
  lemma HalfwayOnly(a: int)
    requires a * 28180 % 0x8000 == 0x4000
    ensures a % 0x2000 == 0x1000
  {
    var m := a * 28180 / 0x8000;
    assert a * 28180 == 0x8000 * m + 0x4000;
    assert a * 7045 == 0x2000 * m + 0x1000;
    assert a == 1357 * (0x2000 * m + 0x1000) - 0x2000 * (1167 * a);
    assert a == 0x2000 * (1357 * m + 678 - 1167 * a) + 0x1000;
  }

  /** Truncation and upscaling: the output is a multiple of 8 in the last eight up to twice the de-emphasised
      value, saturated; from a sample downscaled by the coder it is the sample without its last three bits. */
  lemma OutputIsDoubled(msr: Word, x: Word)
    ensures var (m, out) := Deemphasise(msr, x);
            && out % 8 == 0 && Saturate(2 * m) - 7 <= out <= Saturate(2 * m)
            && forall s: Word :: m == s / 8 * 4 ==> out == s / 8 * 8
  {
    hide GsmMultR;
    var m: int := Deemphasise(msr, x).0;
    LastBitsCleared(Saturate(2 * m));
    forall s: Word | m == s / 8 * 4 ensures Deemphasise(msr, x).1 == s / 8 * 8 {
      UpscalingUndoesDownscaling(s);
    }
  }

  lemma LastBitsCleared(g: Word)
    ensures var out := ToWord(g / 8 * 8 % 0x1_0000);
            out == g / 8 * 8 && out % 8 == 0 && g - 7 <= out <= g
  {
    assert MIN_WORD <= g / 8 * 8 <= g;
  }

  lemma UpscalingUndoesDownscaling(s: Word)
    ensures var g := Saturate(2 * (s / 8 * 4)); g == s / 8 * 8 && g / 8 * 8 == s / 8 * 8
  {
  }

  /** The whole chain on one sample: when the decoder enters it with the coder's `mp`, de-emphasis finds the
      offset-compensated sample again exactly under the condition above; the output is then twice that sample
      up to the three bits, and where the offset compensation changed nothing, the input without its last
      three bits. */
  lemma EmphasisChain(m: Pre.Memory, s: Word)
    requires OffsetBounded(m.z1, m.lz2)
    ensures var (m1, x) := Pre.Step(m, s);
            var (msr, out) := Deemphasise(m.mp, x);
            && m1.mp == (Pre.ExactOffset(m.z1, m.lz2, s / 8 * 4) + 16384) / 0x8000
            && (msr == m1.mp <==> Undone(m.mp, m1.mp))
            && (Undone(m.mp, m1.mp) ==> out % 8 == 0 && Saturate(2 * m1.mp) - 7 <= out <= Saturate(2 * m1.mp))
            && (Undone(m.mp, m1.mp) && m1.mp == s / 8 * 4 ==> out == s / 8 * 8)
  {
    hide Deemphasise, Undone, GsmMultR, GsmAdd, MultR, Pre.Step, Pre.ExactOffset, OffsetBounded, Saturate;
    var (m1, x) := Pre.Step(m, s);
    Pre.CompensateIsExact(m.z1, m.lz2, s);
    MultRFits(m.mp, -28180);
    RoundedFits(s / 8 * 4, Pre.ExactOffset(m.z1, m.lz2, s / 8 * 4));
    var mp: Word := (Pre.ExactOffset(m.z1, m.lz2, s / 8 * 4) + 16384) / 0x8000;
    Pre.StepIs(m, s, Pre.ExactOffset(m.z1, m.lz2, s / 8 * 4), mp, MultR(m.mp, -28180), Saturate(mp + MultR(m.mp, -28180)));
    Pre.ProductIs(m.mp, MultR(m.mp, -28180));
    EmphasisUndoneIff(m.mp, mp);
    OutputIsDoubled(m.mp, x);
  }

  lemma RoundedFits(so: int, lz2: int)
    requires -0x4000 <= so <= 0x3FFC && OffsetBounded(so, lz2)
    ensures MIN_WORD <= (lz2 + 16384) / 0x8000 <= MAX_WORD
  {
  }

  /** Gsm_Decoder on one frame. */
  function DecodeFrame(st: DecoderState, c: Coded): (DecoderState, Samples)
  {
    var (ltp, drp) := Run(DecodeSegment, st.ltp, c.segments);
    var (lattice, s) := ShortTerm.SynthesiseFrame(st.lattice, ShortTerm.Frame(c.larc, WholeFrame(drp)));
    var (msr, out) := Run(Deemphasise, st.msr, s);
    (DecoderState(ltp, lattice, msr), out)
  }

  /** What stays equal between a coder and the decoder that follows it. */
  ghost predicate InStep(a: CoderState, b: DecoderState) {
    a.hist == b.ltp.hist && a.lattice.prev == b.lattice.prev
  }

  lemma FrameLockstep(a: CoderState, b: DecoderState, s: Samples)
    requires InStep(a, b)
    ensures var (a1, c) := EncodeFrame(a, s); InStep(a1, DecodeFrame(b, c).0)
  {
    hide Pre.Step;
    hide Lpc.LpcCodes;
    hide Lpc.Rescaled;
    hide ShortTerm.Analyse;
    hide ShortTerm.Synthesise;
    hide EncodeSegment;
    hide DecodeSegment;
    hide Deemphasise;
    hide ShortTerm.FrameTaps;
    var so := Run(Pre.Step, a.pre, s).1;
    var d := ShortTerm.AnalyseFrame(a.lattice, ShortTerm.Frame(Lpc.LpcCodes(so), Lpc.Rescaled(so))).1;
    SegmentsLockstep(a.hist, b.ltp.nrp, Blocks(d));
  }

  /** Two codecs that start in step stay in step over every run of frames: after each frame the
      reconstruction windows and the decoded log area ratios are equal. */
  lemma {:induction false} FramesLockstep(a: CoderState, b: DecoderState, frames: seq<Samples>)
    requires InStep(a, b)
    ensures var (a1, c) := Run(EncodeFrame, a, frames);
            InStep(a1, Run(DecodeFrame, b, c).0)
  {
    hide EncodeFrame;
    hide DecodeFrame;
    hide InStep;
    if frames != [] {
      var n := |frames| - 1;
      FramesLockstep(a, b, frames[..n]);
      var (a0, c0) := Run(EncodeFrame, a, frames[..n]);
      var c := Run(EncodeFrame, a, frames).1;
      assert c[..n] == c0;
      FrameLockstep(a0, Run(DecodeFrame, b, c0).0, frames[n]);
    }
  }

  // ----- fresh codecs

  const NO_HISTORY: History := seq(120, _ => 0)
  const FRESH_CODER: CoderState :=
    CoderState(Pre.Memory(0, 0, 0), ShortTerm.AnalysisState(ShortTerm.QUIET, ShortTerm.QUIET), NO_HISTORY)
  const FRESH_DECODER: DecoderState :=
    DecoderState(LtpState(NO_HISTORY, 40), ShortTerm.SynthesisState(ShortTerm.QUIET, ShortTerm.QUIET9), 0)

  /** From two codecs just created, coder and decoder have equal windows and ratios after every run of frames. */
  lemma FreshLockstep(frames: seq<Samples>)
    ensures var (a, c) := Run(EncodeFrame, FRESH_CODER, frames);
            InStep(a, Run(DecodeFrame, FRESH_DECODER, c).0)
  {
    assert InStep(FRESH_CODER, FRESH_DECODER);
    FramesLockstep(FRESH_CODER, FRESH_DECODER, frames);
    hide *;
  }

  /** Every parameter of every coded frame fits the bit field the frame format gives it. */
  predicate FitsFormat(c: Coded) {
    && (forall i :: 0 <= i < 8 ==> 0 <= c.larc[i] <= Lpc.TABLE_MAC[i] - ShortTerm.TABLE_MIC[i])
    && (forall k :: 0 <= k < 4 ==> 40 <= c.segments[k].nc <= 120)
  }

  lemma CodedFrameFitsFormat(a: CoderState, s: Samples)
    ensures FitsFormat(EncodeFrame(a, s).1)
  {
    hide Pre.Step;
    hide Lpc.Rescaled;
    hide Lpc.LpcCodes;
    hide EncodeSegment;
    var so := Run(Pre.Step, a.pre, s).1;
    var d := ShortTerm.AnalyseFrame(a.lattice, ShortTerm.Frame(Lpc.LpcCodes(so), Lpc.Rescaled(so))).1;
    hide ShortTerm.AnalyseFrame;
    LagsFit(a.hist, Blocks(d));
  }

  lemma {:induction false} LagsFit(hist: History, d: seq<Block>)
    ensures forall k :: 0 <= k < |d| ==> 40 <= Run(EncodeSegment, hist, d).1[k].nc <= 120
  {
    hide EncodeSegment;
    if d != [] {
      LagsFit(hist, d[..|d| - 1]);
    }
  }

  // ----- the imperative frame loops

  /** The local arrays of gsm_encode and gsm_decode that carry one coded frame. */
  class FrameBuffers {
    const larc: array<Word>
    const nc: array<Word>
    const bc: array<Word>
    const mc: array<Word>
    const xmaxc: array<Word>
    const xMc: array<Word>

    ghost predicate Valid() {
      && larc.Length == 8 && nc.Length == 4 && bc.Length == 4 && mc.Length == 4 && xmaxc.Length == 4 && xMc.Length == 52
      && larc != nc && larc != bc && larc != mc && larc != xmaxc && larc != xMc
      && nc != bc && nc != mc && nc != xmaxc && nc != xMc
      && bc != mc && bc != xmaxc && bc != xMc && mc != xmaxc && mc != xMc && xmaxc != xMc
    }

    ghost function Arrays(): set<object> {
      {larc, nc, bc, mc, xmaxc, xMc}
    }

    constructor ()
      ensures Valid() && fresh(this) && fresh(Arrays())
    {
      larc := new Word[8];
      nc := new Word[4];
      bc := new Word[4];
      mc := new Word[4];
      xmaxc := new Word[4];
      xMc := new Word[52];
    }

    /** The first |g| sub-segments stored in the arrays are `g`. */
    ghost predicate Stores(g: seq<Segment>)
      requires Valid() && |g| <= 4
      reads nc, bc, mc, xmaxc, xMc
    {
      forall k :: 0 <= k < |g| ==> StoresAt(k, g[k])
    }

    ghost predicate StoresAt(k: nat, g: Segment)
      requires Valid() && k < 4
      reads nc, bc, mc, xmaxc, xMc
    {
      && nc[k] == g.nc && bc[k] == g.bc
      && mc[k] == g.rpe.mc && xmaxc[k] == g.rpe.xmaxc
      && xMc[13 * k..13 * k + 13] == g.rpe.xMc
    }
  }

  /** One pass of the loop of Gsm_Coder, with dp and dpp at dp0[dp].  The words behind the history
      become the reconstructed residual. */
  method CodeSegment(S: Codec, so: array<Word>, e: array<Word>, b: FrameBuffers, k: nat, ghost g: seq<Segment>)
    requires S.Valid() && b.Valid() && k < 4 && so.Length == 160 && e.Length == 50
    requires so !in S.Repr() + b.Arrays() && e !in S.Repr() + b.Arrays() && so != e && S.Repr() !! b.Arrays()
    requires e[..5] == MARGIN && e[45..] == MARGIN
    requires |g| == k && b.Stores(g)
    modifies S.dp0, e, b.nc, b.bc, b.mc, b.xmaxc, b.xMc
    ensures e[..5] == MARGIN && e[45..] == MARGIN
    ensures var r := EncodeSegment(old(S.dp0[40 * k..40 * k + 120]), so[40 * k..40 * k + 40]);
            && S.dp0[40 * k + 40..40 * k + 160] == r.0
            && b.Stores(g + [r.1])
  {
    hide LtpParameters, RpeEncode, RpeDecode, Estimate, Residual, EncodeSegment, Reconstruct, Slide;
    hide FrameBuffers.Stores, FrameBuffers.StoresAt, OffsetBounded;
    var dp := 120 + 40 * k;
    ghost var hist: History, d: Block := S.dp0[40 * k..40 * k + 120], so[40 * k..40 * k + 40];
    ghost var dpp := Estimate(hist, LtpParameters(d, hist).0, LtpParameters(d, hist).1);
    var nck, bck := GsmLongTermPredictor(so, 40 * k, S.dp0, dp, e);
    assert e[..] == MARGIN + Residual(d, dpp) + MARGIN;
    ghost var q := RpeEncode(MARGIN + Residual(d, dpp) + MARGIN);
    var xmaxck, mck := EncodePulses(e, b, k, g, q);
    StoreSegment(b, k, nck, bck, mck, xmaxck, g, Segment(nck, bck, q));
    assert S.dp0[40 * k..40 * k + 120] == hist;
    assert S.dp0[dp..dp + 40] == dpp;
    ghost var w := S.dp0[..];
    AddResidual(S.dp0, dp, e);
    WindowSlides(w, S.dp0[..], k, hist, Reconstruct(RpeDecode(q), dpp));
    EncodedIs(hist, d);
  }

  /** Forty words behind the history make the next history. */
  lemma WindowSlides(w0: seq<Word>, w1: seq<Word>, k: nat, hist: History, drp: Block)
    requires |w0| == |w1| == 280 && k < 4 && w0[40 * k..40 * k + 120] == hist
    requires w1[..120 + 40 * k] == w0[..120 + 40 * k] && w1[120 + 40 * k..160 + 40 * k] == drp
    ensures w1[40 * k + 40..40 * k + 160] == Slide(hist, drp)
  {
    var n := 40 * k;
    assert w1[n + 40..n + 120] == w1[..120 + n][n + 40..] == w0[..120 + n][n + 40..] == hist[40..];
    assert w1[n + 40..n + 160] == w1[n + 40..n + 120] + w1[120 + n..160 + n];
  }

  /** Gsm_RPE_Encoding into the pulses of sub-segment `k`. */
  method EncodePulses(e: array<Word>, b: FrameBuffers, k: nat, ghost g: seq<Segment>, ghost q: Rpe.RpeParams) returns (xmaxc: Word, mc: Word)
    requires b.Valid() && k < 4 && e.Length == 50 && e !in b.Arrays() && |g| == k && b.Stores(g)
    requires e[..5] == MARGIN && e[45..] == MARGIN && q == RpeEncode(e[..])
    modifies e, b.xMc
    ensures e[..5] == MARGIN && e[45..] == MARGIN && e[5..45] == RpeDecode(q)
    ensures b.Stores(g) && xmaxc == q.xmaxc && mc == q.mc && b.xMc[13 * k..13 * k + 13] == q.xMc
  {
    hide RpeEncode, RpeDecode;
    ghost var xMc0 := b.xMc[..];
    xmaxc, mc := GsmRpeEncoding(e, b.xMc, 13 * k);
    SlicesKept(xMc0, b.xMc[..], k, q.xMc);
  }

  /** The four single codes of sub-segment `k`; its pulses are in place already. */
  method StoreSegment(b: FrameBuffers, k: nat, nc: Word, bc: Word, mc: Word, xmaxc: Word, ghost g: seq<Segment>, ghost r: Segment)
    requires b.Valid() && k < 4 && |g| == k && b.Stores(g) && b.xMc[13 * k..13 * k + 13] == r.rpe.xMc
    requires r.nc == nc && r.bc == bc && r.rpe.mc == mc && r.rpe.xmaxc == xmaxc
    modifies b.nc, b.bc, b.mc, b.xmaxc
    ensures b.Stores(g + [r])
  {
    assert forall j :: 0 <= j < k ==> b.StoresAt(j, g[j]);
    b.nc[k], b.bc[k] := nc, bc;
    b.mc[k], b.xmaxc[k] := mc, xmaxc;
    assert b.StoresAt(k, r);
  }

  lemma EncodedIs(hist: History, d: Block)
    ensures var (nc, bc) := LtpParameters(d, hist);
            var dpp := Estimate(hist, nc, bc);
            var q := RpeEncode(MARGIN + Residual(d, dpp) + MARGIN);
            EncodeSegment(hist, d) == (Slide(hist, Reconstruct(RpeDecode(q), dpp)), Segment(nc, bc, q))
  {
    hide LtpParameters;
    hide RpeEncode;
    hide RpeDecode;
    hide Estimate;
    hide Residual;
  }

  /** Writing the codes of sub-segment `k` leaves those of the earlier ones alone. */
  lemma SlicesKept(a: seq<Word>, b: seq<Word>, k: nat, c: seq<Word>)
    requires |a| == 52 && k < 4 && |c| == 13 && b == a[..13 * k] + c + a[13 * k + 13..]
    ensures |b| == 52 && b[13 * k..13 * k + 13] == c
    ensures forall j {:trigger b[13 * j..13 * j + 13]} :: 0 <= j < k ==> b[13 * j..13 * j + 13] == a[13 * j..13 * j + 13]
  {
  }

  /** The inlined Gsm_Update_of_reconstructed_short_time_residual_signal. */
  method AddResidual(dp0: array<Word>, dp: nat, e: array<Word>)
    requires 120 <= dp && dp + 40 <= dp0.Length && e.Length == 50 && dp0 != e
    modifies dp0
    ensures dp0[dp..dp + 40] == Reconstruct(e[5..45], old(dp0[dp..dp + 40]))
    ensures dp0[..dp] == old(dp0[..dp]) && dp0[dp + 40..] == old(dp0[dp + 40..])
  {
    ghost var dpp := dp0[dp..dp + 40];
    for i := 0 to 40
      invariant forall j :: 0 <= j < i ==> dp0[dp + j] == GsmAdd(e[5 + j], dpp[j])
      invariant forall j :: dp + i <= j < dp0.Length ==> dp0[j] == old(dp0[j])
      invariant forall j :: 0 <= j < dp ==> dp0[j] == old(dp0[j])
    {
      dp0[dp + i] := GsmAdd(e[5 + i], dp0[dp + i]);
    }
  }

  /** The sub-segment loop of Gsm_Coder and the copy that ends the frame. */
  method CodeSegments(S: Codec, so: array<Word>, e: array<Word>, b: FrameBuffers) returns (ghost g: seq<Segment>)
    requires S.Valid() && b.Valid() && so.Length == 160 && e.Length == 50
    requires so !in S.Repr() + b.Arrays() && e !in S.Repr() + b.Arrays() && so != e && S.Repr() !! b.Arrays()
    requires e[..5] == MARGIN && e[45..] == MARGIN
    modifies S.dp0, e, b.nc, b.bc, b.mc, b.xmaxc, b.xMc
    ensures e[..5] == MARGIN && e[45..] == MARGIN
    ensures (S.dp0[..120], g) == Run<History, Block, Segment>(EncodeSegment, old(S.dp0[..120]), Blocks(so[..]))
    ensures |g| == 4 && b.Stores(g)
  {
    hide EncodeSegment, FrameBuffers.StoresAt, Run, OffsetBounded;
    ghost var hist0: History, blocks := S.dp0[..120], Blocks(so[..]);
    g := [];
    RunNothing<History, Block, Segment>(EncodeSegment, hist0);
    assert blocks[..0] == [] && S.dp0[0..120] == hist0;
    for k := 0 to 4
      invariant e[..5] == MARGIN && e[45..] == MARGIN
      invariant so[..] == old(so[..])
      invariant (S.dp0[40 * k..40 * k + 120], g) == Run<History, Block, Segment>(EncodeSegment, hist0, blocks[..k])
      invariant |g| == k && b.Stores(g)
    {
      RunSnoc(EncodeSegment, hist0, blocks, k);
      assert blocks[k] == so[40 * k..40 * k + 40];
      ghost var r := EncodeSegment(S.dp0[40 * k..40 * k + 120], so[40 * k..40 * k + 40]);
      CodeSegment(S, so, e, b, k, g);
      g := g + [r.1];
    }
    assert blocks[..4] == blocks == Blocks(so[..]);
    ghost var r := Run<History, Block, Segment>(EncodeSegment, hist0, blocks);
    assert S.dp0[160..280] == r.0 && g == r.1;
    ghost var last := S.dp0[160..280];
    forall i | 0 <= i < 120 {
      S.dp0[i] := S.dp0[160 + i];
    }
    assert S.dp0[..120] == last == r.0;
    assert so[..] == old(so[..]);
  }

  ghost function CoderView(S: Codec): CoderState
    requires S.Valid()
    reads S, S.dp0, S.u, S.larpp0, S.larpp1
  {
    CoderState(Pre.Memory(S.z1, S.lz2, S.mp), ShortTerm.AnalysisView(S), S.dp0[..120])
  }

  ghost function DecoderView(S: Codec): DecoderState
    requires S.Valid()
    reads S, S.dp0, S.v, S.larpp0, S.larpp1
  {
    DecoderState(LtpView(S), ShortTerm.SynthesisView(S), S.msr)
  }

  /** gsm_create. */
  method Create() returns (S: Codec)
    ensures S.Valid() && fresh(S) && fresh(S.Repr() - {S})
    ensures CoderView(S) == FRESH_CODER && DecoderView(S) == FRESH_DECODER
  {
    S := new Codec();
    assert S.dp0[..120] == NO_HISTORY;
    assert S.u[..] == ShortTerm.QUIET && S.v[..] == ShortTerm.QUIET9;
    assert S.larpp0[..] == ShortTerm.QUIET && S.larpp1[..] == ShortTerm.QUIET;
  }

  /** Gsm_Coder.  `e` is the static work array, whose margins are zero and stay zero. */
  method GsmCoder(S: Codec, s: array<Word>, e: array<Word>, b: FrameBuffers) returns (ghost g: seq<Segment>)
    requires S.Valid() && b.Valid() && s.Length == 160 && e.Length == 50
    requires e !in S.Repr() + b.Arrays() && S.Repr() !! b.Arrays()
    requires e[..5] == MARGIN && e[45..] == MARGIN
    modifies S, S.dp0, S.u, S.larpp0, S.larpp1, e, b.Arrays()
    ensures S.Valid()
    ensures e[..5] == MARGIN && e[45..] == MARGIN
    ensures |g| == 4 && b.Stores(g)
    ensures (CoderView(S), Coded(b.larc[..], g)) == EncodeFrame(old(CoderView(S)), old(s[..]))
  {
    hide Pre.Step;
    hide Lpc.LpcCodes;
    hide Lpc.Rescaled;
    hide ShortTerm.AnalyseFrame;
    hide EncodeSegment;
    hide Run;
    var so := new Word[160];
    ghost var v0: CoderState := CoderView(S);
    ghost var s0: Samples := s[..];
    Pre.GsmPreprocess(S, s, so);
    ghost var so0 := so[..];
    Lpc.GsmLpcAnalysis(so, b.larc);
    assert ShortTerm.AnalysisView(S) == v0.lattice;
    ShortTerm.GsmShortTermAnalysisFilter(S, b.larc, so);
    ghost var larc := b.larc[..];
    ghost var d := so[..];
    assert S.dp0[..120] == v0.hist;
    g := CodeSegments(S, so, e, b);
    assert b.larc[..] == larc;
  }

  /** Postprocessing, in place. */
  method Postprocessing(S: Codec, s: array<Word>)
    requires S.Valid() && s.Length == 160 && s !in S.Repr()
    modifies S`msr, s
    ensures S.Valid()
    ensures (S.msr, s[..]) == Run<Word, Word, Word>(Deemphasise, old(S.msr), old(s[..]))
  {
    hide GsmMultR;
    ghost var s0 := s[..];
    var msr := S.msr;
    assert s0[..0] == [] && s[..0] == [];
    for k := 0 to 160
      invariant (msr, s[..k]) == Run<Word, Word, Word>(Deemphasise, S.msr, s0[..k])
      invariant s[k..] == s0[k..]
      invariant S.msr == old(S.msr)
    {
      RunSnoc(Deemphasise, S.msr, s0, k);
      assert s[k] == s[k..][0];
      var tmp := GsmMultR(msr, 28180);
      msr := GsmAdd(s[k], tmp);
      s[k] := ToWord(GsmAdd(msr, msr) / 8 * 8 % 0x1_0000);
      assert s[..k + 1] == s[..k] + [s[k]];
      assert s[k + 1..] == s0[k..][1..];
    }
    assert s0[..160] == s0 && s[..160] == s[..];
    S.msr := msr;
  }

  /** What the long term filter remembers. */
  ghost function LtpView(S: Codec): LtpState
    requires S.Valid()
    reads S, S.dp0
  {
    LtpState(S.dp0[..120], S.nrp)
  }

  /** The sub-segment loop of Gsm_Decoder: the residual of the frame is collected in `wt`. */
  method DecodeSegments(S: Codec, b: FrameBuffers, wt: array<Word>, ghost g: seq<Segment>)
    requires S.Valid() && b.Valid() && wt.Length == 160 && wt !in S.Repr() + b.Arrays() && S.Repr() !! b.Arrays()
    requires |g| == 4 && b.Stores(g)
    modifies S`nrp, S.dp0, wt
    ensures S.Valid()
    ensures var r := Run<LtpState, Segment, Block>(DecodeSegment, old(LtpView(S)), g);
            LtpView(S) == r.0 && wt[..] == WholeFrame(r.1)
  {
    hide DecodeSegment, LtpView, FrameBuffers.Stores, Flat, WholeFrame, Run, OffsetBounded;
    ghost var st := LtpView(S);
    var erp := new Word[40];
    ghost var drp: seq<Block> := [];
    RunNothing<LtpState, Segment, Block>(DecodeSegment, st);
    FlatNothing();
    assert g[..0] == [];
    for j := 0 to 4
      invariant S.Valid() && b.Stores(g)
      invariant (LtpView(S), drp) == Run<LtpState, Segment, Block>(DecodeSegment, st, g[..j])
      invariant wt[..40 * j] == Flat(drp)
    {
      RunSnoc(DecodeSegment, st, g, j);
      ghost var block := DecodeStored(S, b, wt, erp, j, g);
      FlatSnoc(drp, block);
      drp := drp + [block];
    }
    assert g[..4] == g;
    assert wt[..] == wt[..160];
    FlatIsWhole(drp);
  }

  function Flat(b: seq<Block>): seq<Word> {
    if b == [] then [] else Flat(b[..|b| - 1]) + b[|b| - 1]
  }

  lemma FlatNothing()
    ensures Flat([]) == []
  {
  }

  lemma FlatSnoc(b: seq<Block>, x: Block)
    ensures Flat(b + [x]) == Flat(b) + x
  {
    assert (b + [x])[..|b|] == b;
  }

  lemma FlatIsWhole(b: seq<Block>)
    requires |b| == 4
    ensures Flat(b) == WholeFrame(b)
  {
    assert b == [] + [b[0]] + [b[1]] + [b[2]] + [b[3]];
    FlatSnoc([], b[0]);
    FlatSnoc([] + [b[0]], b[1]);
    FlatSnoc([] + [b[0]] + [b[1]], b[2]);
    FlatSnoc([] + [b[0]] + [b[1]] + [b[2]], b[3]);
    hide Flat;
  }

  /** One pass of the loop of Gsm_Decoder on the stored parameters. */
  method DecodeStored(S: Codec, b: FrameBuffers, wt: array<Word>, erp: array<Word>, j: nat, ghost g: seq<Segment>) returns (ghost block: Block)
    requires S.Valid() && b.Valid() && wt.Length == 160 && wt !in S.Repr() + b.Arrays() && S.Repr() !! b.Arrays()
    requires erp.Length == 40 && erp !in S.Repr() + b.Arrays() && erp != wt && j < 4 && |g| == 4 && b.Stores(g)
    modifies S`nrp, S.dp0, wt, erp
    ensures S.Valid() && b.Stores(g)
    ensures (LtpView(S), block) == DecodeSegment(old(LtpView(S)), g[j])
    ensures wt[..40 * j + 40] == old(wt[..40 * j]) + block && wt[40 * j + 40..] == old(wt[40 * j + 40..])
  {
    hide RpeDecode;
    hide Estimate;
    assert b.StoresAt(j, g[j]);
    forall i | 13 * j <= i < 13 * j + 13 ensures 0 <= b.xMc[i] <= 7 {
      assert b.xMc[i] == g[j].rpe.xMc[i - 13 * j];
    }
    GsmRpeDecoding(b.xmaxc[j], b.mc[j], b.xMc, 13 * j, erp);
    GsmLongTermSynthesisFiltering(S, b.nc[j], b.bc[j], erp);
    CopyBlock(S.dp0, wt, 40 * j);
    block := S.dp0[120..160];
  }

  method CopyBlock(dp0: array<Word>, wt: array<Word>, start: nat)
    requires dp0.Length == 280 && wt.Length == 160 && start + 40 <= 160 && wt != dp0
    modifies wt
    ensures wt[..] == old(wt[..start]) + dp0[120..160] + old(wt[start + 40..])
  {
    ghost var before := wt[..start];
    for k := 0 to 40
      invariant wt[..start] == before && wt[start..start + k] == dp0[120..120 + k]
      invariant wt[start + k..] == old(wt[start + k..])
    {
      wt[start + k] := dp0[120 + k];
    }
    assert wt[..] == wt[..start] + wt[start..start + 40] + wt[start + 40..];
  }

  /** Gsm_Decoder. */
  method GsmDecoder(S: Codec, b: FrameBuffers, s: array<Word>, ghost g: seq<Segment>)
    requires S.Valid() && b.Valid() && s.Length == 160 && s !in S.Repr() + b.Arrays() && S.Repr() !! b.Arrays()
    requires |g| == 4 && b.Stores(g)
    modifies S, S.dp0, S.v, S.larpp0, S.larpp1, s
    ensures S.Valid()
    ensures (DecoderView(S), s[..]) == DecodeFrame(old(DecoderView(S)), Coded(b.larc[..], g))
  {
    hide ShortTerm.SynthesiseFrame;
    hide DecodeSegment;
    hide Deemphasise;
    hide Run;
    var wt := new Word[160];
    ghost var v0 := DecoderView(S);
    DecodeSegments(S, b, wt, g);
    assert ShortTerm.SynthesisView(S) == v0.lattice;
    ShortTerm.GsmShortTermSynthesisFilter(S, b.larc, wt, s);
    assert S.msr == v0.msr;
    ghost var st, lattice := LtpView(S), ShortTerm.SynthesisView(S);
    Postprocessing(S, s);
    assert LtpView(S) == st && ShortTerm.SynthesisView(S) == lattice;
  }
}
