/** The short term filters (gsm/short_term.c, sections 4.2.8 to 4.2.10 and 4.3.4 of GSM 06.10).

  Analysis and synthesis are the two directions of one eight-stage lattice.  The main results say
  that synthesis undoes analysis exactly, with truncated products and saturating sums, for every
  sequence of coefficients and over any number of frames, as long as no forward sum saturates.
 */
module ShortTerm {
  import opened FixedPoint
  import opened GsmState
  import opened Runs

  /** Eight coefficients, or the eight memory words of the analysis filter. */
  type Taps = s: seq<Word> | |s| == 8 witness [0, 0, 0, 0, 0, 0, 0, 0]

  /** The nine memory words of the synthesis filter. */
  type Memory9 = s: seq<Word> | |s| == 9 witness [0, 0, 0, 0, 0, 0, 0, 0, 0]

  /** A sample together with the reflection coefficients in force when it is filtered. */
  datatype Tapped = Tapped(rp: Taps, s: Word)

  // ----- the lattice on one sample

  /** The pair (di, sav) of the analysis filter on entry to stage `i`. */
  function Forward(rp: Taps, u: Taps, s: Word, i: nat): (r: (Word, Word))
    requires i <= 8
  {
    if i == 0 then (s, s)
    else
      var (di, sav) := Forward(rp, u, s, i - 1);
      var ui := u[i - 1];
      (GsmAdd(di, GsmMultR(rp[i - 1], ui)), GsmAdd(ui, GsmMultR(rp[i - 1], di)))
  }

  /** One sample through the analysis filter: the new memory and the residual. */
  function Analyse(u: Taps, x: Tapped): (Taps, Word)
  {
    (seq(8, i requires 0 <= i < 8 => Forward(x.rp, u, x.s, i).1), Forward(x.rp, u, x.s, 8).0)
  }

  /** The guarded rounding product of the synthesis filter (gsm/short_term.c:286-298). */
  function GuardedMultR(a: Word, b: Word): Word
  {
    if a == MIN_WORD && b == MIN_WORD then MAX_WORD else ToWord(MultR(a, b) % 0x1_0000)
  }

  /** The value `sri` of the synthesis filter once stages 7 down to `i` are done. */
  function Backward(rp: Taps, v: Memory9, wt: Word, i: nat): Word
    requires i <= 8
    decreases 8 - i
  {
    if i == 8 then wt
    else GsmSub(Backward(rp, v, wt, i + 1), GuardedMultR(rp[i], v[i]))
  }

  /** The word the synthesis filter leaves in v[i]. */
  function Remembered(rp: Taps, v: Memory9, wt: Word, i: nat): Word
    requires i <= 8
  {
    if i == 0 then Backward(rp, v, wt, 0)
    else GsmAdd(v[i - 1], GuardedMultR(rp[i - 1], Backward(rp, v, wt, i - 1)))
  }

  /** One sample through the synthesis filter: the new memory and the reconstructed sample. */
  function Synthesise(v: Memory9, x: Tapped): (Memory9, Word)
  {
    (seq(9, i requires 0 <= i < 9 => Remembered(x.rp, v, x.s, i)), Backward(x.rp, v, x.s, 0))
  }

  // ----- synthesis undoes analysis

  /** Coefficients for which the unguarded and the guarded product agree. */
  predicate Proper(rp: Taps) {
    forall i :: 0 <= i < 8 ==> rp[i] != MIN_WORD
  }

  /** The sum `di + zzz` of stage `i` fits a word, so GSM_ADD does not clip it. */
  predicate StageFits(u: Taps, x: Tapped, i: nat)
    requires i < 8
  {
    MIN_WORD <= Forward(x.rp, u, x.s, i).0 + GsmMultR(x.rp[i], u[i]) <= MAX_WORD
  }

  predicate NoClipping(u: Taps, x: Tapped) {
    forall i :: 0 <= i < 8 ==> StageFits(u, x, i)
  }

  lemma GuardIsIdle(a: Word, b: Word)
    requires a != MIN_WORD
    ensures GuardedMultR(a, b) == GsmMultR(a, b)
  {
    MultRFits(a, b);
  }

  /** One stage of the lattice is undone by its mirror image exactly when its sum was not clipped. */
  lemma StageInverse(di: Word, z: Word)
    ensures GsmSub(GsmAdd(di, z), z) == di <==> MIN_WORD <= di + z <= MAX_WORD
  {
  }

  /** From stage 8 down to stage `i` the synthesis filter runs through the values the analysis
      filter ran through, if the sums of those stages were not clipped. */
  lemma {:induction false} Retrace(u: Taps, v: Memory9, x: Tapped, i: nat)
    requires Proper(x.rp) && v[..8] == u && i <= 8
    requires forall k :: i <= k < 8 ==> StageFits(u, x, k)
    ensures Backward(x.rp, v, Analyse(u, x).1, i) == Forward(x.rp, u, x.s, i).0
    decreases 8 - i
  {
    if i < 8 {
      Retrace(u, v, x, i + 1);
      GuardIsIdle(x.rp[i], u[i]);
      assert v[i] == v[..8][i];
      assert StageFits(u, x, i);
      StageInverse(Forward(x.rp, u, x.s, i).0, GsmMultR(x.rp[i], u[i]));
    }
  }

  /** The synthesis filter retraces every intermediate value of the analysis filter if and only if
      none of the eight forward sums is clipped. */
  lemma RetracesIffNoClipping(u: Taps, v: Memory9, x: Tapped)
    requires Proper(x.rp) && v[..8] == u
    ensures (forall i :: 0 <= i <= 8 ==> Backward(x.rp, v, Analyse(u, x).1, i) == Forward(x.rp, u, x.s, i).0)
       <==> NoClipping(u, x)
  {
    if NoClipping(u, x) {
      forall i | 0 <= i <= 8
        ensures Backward(x.rp, v, Analyse(u, x).1, i) == Forward(x.rp, u, x.s, i).0
      {
        Retrace(u, v, x, i);
      }
    } else {
      var i :| 0 <= i < 8 && !StageFits(u, x, i);
      ClippedStageIsLost(u, v, x, i);
    }
  }

  lemma ClippedStageIsLost(u: Taps, v: Memory9, x: Tapped, i: nat)
    requires Proper(x.rp) && v[..8] == u && i < 8 && !StageFits(u, x, i)
    ensures Backward(x.rp, v, Analyse(u, x).1, i + 1) != Forward(x.rp, u, x.s, i + 1).0
         || Backward(x.rp, v, Analyse(u, x).1, i) != Forward(x.rp, u, x.s, i).0
  {
    hide GsmMultR;
    hide GuardedMultR;
    hide Analyse;
    GuardIsIdle(x.rp[i], u[i]);
    assert v[i] == v[..8][i];
    StageInverse(Forward(x.rp, u, x.s, i).0, GsmMultR(x.rp[i], u[i]));
  }

  /** One sample: the original comes back, and the two memories stay equal. */
  lemma SampleInverse(u: Taps, v: Memory9, x: Tapped)
    requires Proper(x.rp) && v[..8] == u && NoClipping(u, x)
    ensures var (u1, d) := Analyse(u, x);
            var (v1, s) := Synthesise(v, Tapped(x.rp, d));
            s == x.s && v1[..8] == u1
  {
    var (u1, d) := Analyse(u, x);
    var (v1, s) := Synthesise(v, Tapped(x.rp, d));
    forall i | 0 <= i < 8 ensures v1[i] == u1[i] {
      Retrace(u, v, x, i);
      if i > 0 {
        Retrace(u, v, x, i - 1);
        GuardIsIdle(x.rp[i - 1], x.s);
        GuardIsIdle(x.rp[i - 1], Forward(x.rp, u, x.s, i - 1).0);
        assert v[i - 1] == v[..8][i - 1];
      }
    }
    Retrace(u, v, x, 0);
  }

  /** What the synthesis filter subtracts in stage `i` lands on the extreme the analysis filter was at. */
  predicate Absorbed(u: Taps, v: Memory9, x: Tapped, i: nat)
    requires i < 8
  {
    var f, d := Forward(x.rp, u, x.s, i).0, Backward(x.rp, v, Analyse(u, x).1, i + 1) - GsmMultR(x.rp[i], u[i]);
    (f == MAX_WORD && d >= MAX_WORD) || (f == MIN_WORD && d <= MIN_WORD)
  }

  /** Stage by stage: a value comes back exactly when its sum was not clipped and the value after it came
      back or the saturating difference absorbs its error.  For `i == 0` that is the sample itself. */
  lemma StageRecoversIff(u: Taps, v: Memory9, x: Tapped, i: nat)
    requires Proper(x.rp) && v[..8] == u && i < 8
    ensures Backward(x.rp, v, Analyse(u, x).1, i) == Forward(x.rp, u, x.s, i).0 <==>
            StageFits(u, x, i)
            && (Backward(x.rp, v, Analyse(u, x).1, i + 1) == Forward(x.rp, u, x.s, i + 1).0 || Absorbed(u, v, x, i))
  {
    hide GsmMultR, GuardedMultR, Analyse;
    GuardIsIdle(x.rp[i], u[i]);
    assert v[i] == v[..8][i];
    var d := Analyse(u, x).1;
    assert Forward(x.rp, u, x.s, i + 1).0 == GsmAdd(Forward(x.rp, u, x.s, i).0, GsmMultR(x.rp[i], u[i]));
    assert Backward(x.rp, v, d, i) == GsmSub(Backward(x.rp, v, d, i + 1), GsmMultR(x.rp[i], u[i]));
    hide Forward, Backward;
  }

  /** A sum clipped in the first stage always loses the sample, whatever the later stages do. */
  lemma FirstStageClipLosesSample(u: Taps, v: Memory9, x: Tapped)
    requires Proper(x.rp) && v[..8] == u && !StageFits(u, x, 0)
    ensures Synthesise(v, Tapped(x.rp, Analyse(u, x).1)).1 != x.s
  {
    StageRecoversIff(u, v, x, 0);
    hide StageFits, Analyse, GsmMultR, GuardedMultR;
  }

  lemma NothingRemembered(a: Word)
    ensures GsmMultR(a, 0) == 0 && GuardedMultR(a, 0) == 0
  {
    assert MultR(a, 0) == 0 by { assert a * 0 == 0; }
  }

  // ----- runs of samples

  /** Pairs each sample with its coefficients. */
  function Zip(rps: seq<Taps>, s: seq<Word>): (r: seq<Tapped>)
    requires |rps| == |s|
    ensures |r| == |s|
    ensures forall k :: 0 <= k < |s| ==> r[k] == Tapped(rps[k], s[k])
  {
    seq(|s|, k requires 0 <= k < |s| => Tapped(rps[k], s[k]))
  }

  /** No forward sum is clipped while `xs` is analysed from memory `u`. */
  ghost predicate RunFits(u: Taps, xs: seq<Tapped>) {
    xs != [] ==>
      var n := |xs| - 1;
      RunFits(u, xs[..n]) && NoClipping(Run(Analyse, u, xs[..n]).0, xs[n])
  }

  /** The input of the inverse filter: the same coefficients, with the residual as samples. */
  function WithSamples(xs: seq<Tapped>, d: seq<Word>): (r: seq<Tapped>)
    requires |xs| == |d|
    ensures |r| == |xs|
    ensures forall k :: 0 <= k < |xs| ==> r[k] == Tapped(xs[k].rp, d[k])
  {
    seq(|xs|, k requires 0 <= k < |xs| => Tapped(xs[k].rp, d[k]))
  }

  /** Whatever the coefficients do from sample to sample, filtering and inverse filtering with the
      same ones returns the samples and leaves equal memories. */
  lemma {:induction false} RunInverse(u: Taps, v: Memory9, xs: seq<Tapped>)
    requires v[..8] == u && RunFits(u, xs)
    requires forall k :: 0 <= k < |xs| ==> Proper(xs[k].rp)
    ensures var (u1, d) := Run(Analyse, u, xs);
            var (v1, r) := Run(Synthesise, v, WithSamples(xs, d));
            v1[..8] == u1 && forall k :: 0 <= k < |xs| ==> r[k] == xs[k].s
  {
    hide Analyse;
    hide Synthesise;
    hide NoClipping;
    hide Proper;
    if xs != [] {
      var n := |xs| - 1;
      RunInverse(u, v, xs[..n]);
      var (u0, d0) := Run(Analyse, u, xs[..n]);
      var d := Run(Analyse, u, xs).1;
      assert WithSamples(xs, d)[..n] == WithSamples(xs[..n], d0);
      SampleInverse(u0, Run(Synthesise, v, WithSamples(xs[..n], d0)).0, xs[n]);
    }
  }

  // ----- coefficients

  const TABLE_B: seq<Word> := [0, 0, 2048, -2560, 94, -1792, -341, -1144]
  const TABLE_MIC: seq<Word> := [-32, -32, -16, -16, -8, -8, -4, -4]
  const TABLE_INVA: seq<Word> := [13107, 13107, 13107, 13107, 19223, 17476, 31454, 29708]

  /** One STEP of Decoding_of_the_coded_Log_Area_Ratios. */
  function DecodeLar(larc: Word, b: Word, mic: Word, inva: Word): Word
  {
    var temp := ToWord(GsmAdd(larc, mic) * 1024);
    var temp2 := GsmSub(temp, ToWord(b * 2));
    var temp3 := GsmMultR(inva, temp2);
    GsmAdd(temp3, temp3)
  }

  function DecodeLars(larc: Taps): Taps
  {
    seq(8, i requires 0 <= i < 8 => DecodeLar(larc[i], TABLE_B[i], TABLE_MIC[i], TABLE_INVA[i]))
  }

  /** Which of the four interpolation zones of a frame holds sample `k`. */
  function Zone(k: nat): (z: nat)
    requires k < 160
  {
    if k < 13 then 0 else if k < 27 then 1 else if k < 40 then 2 else 3
  }

  /** Coefficients_0_12, _13_26, _27_39 and _40_159 on one word. */
  function Interpolate(prev: Word, cur: Word, zone: nat): Word
  {
    if zone == 0 then GsmAdd(GsmAdd(prev / 4, cur / 4), prev / 2)
    else if zone == 1 then GsmAdd(prev / 2, cur / 2)
    else if zone == 2 then GsmAdd(GsmAdd(prev / 4, cur / 4), cur / 2)
    else cur
  }

  /** The magnitude part of LARp_to_rp. */
  function Expand(temp: Word): (r: Word)
    requires 0 <= temp
    ensures 0 <= r
  {
    if temp < 11059 then temp * 2
    else if temp < 20070 then temp + 11059
    else GsmAdd(temp / 4, 26112)
  }

  /** LARp_to_rp on one word. */
  function LarToRp(lar: Word): Word
  {
    if lar < 0 then
      var temp := if lar == MIN_WORD then MAX_WORD else -lar;
      -Expand(temp)
    else
      Expand(lar)
  }

  /** The reflection coefficients in force in one zone of a frame. */
  function ZoneTaps(prev: Taps, cur: Taps, zone: nat): Taps
  {
    seq(8, i requires 0 <= i < 8 => LarToRp(Interpolate(prev[i], cur[i], zone)))
  }

  function FrameTaps(prev: Taps, cur: Taps): (r: seq<Taps>)
    ensures |r| == 160
  {
    seq(160, k requires 0 <= k < 160 => ZoneTaps(prev, cur, Zone(k)))
  }

  /** Coefficients made by LARp_to_rp are never MIN_WORD, so every product in the lattice fits. */
  lemma ZoneTapsProper(prev: Taps, cur: Taps, zone: nat)
    ensures Proper(ZoneTaps(prev, cur, zone))
  {
  }

  /** The three sums of the interpolation are far from saturating: each zone is plain arithmetic. */
  lemma InterpolationDoesNotSaturate(prev: Word, cur: Word)
    ensures Interpolate(prev, cur, 0) == prev / 4 + cur / 4 + prev / 2
    ensures Interpolate(prev, cur, 1) == prev / 2 + cur / 2
    ensures Interpolate(prev, cur, 2) == prev / 4 + cur / 4 + cur / 2
  {
    hide GsmAdd;
  }

  /** At sample `k` of a frame the ratio in force is the mean of the frame before and this one, with weights
      that go from 3 : 1 over 2 : 2 and 1 : 3 to 0 : 4 at the samples 13, 27 and 40, rounded down by less than
      two and a quarter. */
  lemma RatioInForce(prev: Taps, cur: Taps, k: nat, i: nat)
    requires k < 160 && i < 8
    ensures var z := if k < 13 then 0 else if k < 27 then 1 else if k < 40 then 2 else 3;
            var r := Interpolate(prev[i], cur[i], z);
            && FrameTaps(prev, cur)[k][i] == LarToRp(r)
            && 0 <= (3 - z) * prev[i] + (1 + z) * cur[i] - 4 * r <= if z == 3 then 0 else 8
  {
    hide LarToRp;
    assert FrameTaps(prev, cur)[k][i] == LarToRp(Interpolate(prev[i], cur[i], Zone(k)));
    InterpolationDoesNotSaturate(prev[i], cur[i]);
    WeightedQuarters(prev[i], cur[i]);
    assert Interpolate(prev[i], cur[i], 3) == cur[i];
    hide Interpolate, FrameTaps;
  }

  lemma WeightedQuarters(a: int, b: int)
    ensures 0 <= 3 * a + b - 4 * (a / 4 + b / 4 + a / 2) <= 8
    ensures 0 <= 2 * a + 2 * b - 4 * (a / 2 + b / 2) <= 8
    ensures 0 <= a + 3 * b - 4 * (a / 4 + b / 4 + b / 2) <= 8
  {
  }

  // ----- runs of frames

  type Samples = s: seq<Word> | |s| == 160 witness seq(160, _ => 0)

  /** What the filters keep between frames: the last decoded log area ratios and the lattice memory. */
  datatype AnalysisState = AnalysisState(prev: Taps, u: Taps)
  datatype SynthesisState = SynthesisState(prev: Taps, v: Memory9)

  datatype Frame = Frame(larc: Taps, s: Samples)

  function AnalyseFrame(st: AnalysisState, f: Frame): (AnalysisState, Samples)
  {
    var cur := DecodeLars(f.larc);
    var (u, d) := Run(Analyse, st.u, Zip(FrameTaps(st.prev, cur), f.s));
    (AnalysisState(cur, u), d)
  }

  function SynthesiseFrame(st: SynthesisState, f: Frame): (SynthesisState, Samples)
  {
    var cur := DecodeLars(f.larc);
    var (v, s) := Run(Synthesise, st.v, Zip(FrameTaps(st.prev, cur), f.s));
    (SynthesisState(cur, v), s)
  }

  /** No forward sum is clipped in frame `f`. */
  ghost predicate FrameFits(st: AnalysisState, f: Frame) {
    RunFits(st.u, Zip(FrameTaps(st.prev, DecodeLars(f.larc)), f.s))
  }

  /** No forward sum is clipped in any frame of the run. */
  ghost predicate AllFit(st: AnalysisState, frames: seq<Frame>) {
    frames != [] ==>
      var n := |frames| - 1;
      AllFit(st, frames[..n]) && FrameFits(Run(AnalyseFrame, st, frames[..n]).0, frames[n])
  }

  ghost predicate SameMemory(a: AnalysisState, s: SynthesisState) {
    a.prev == s.prev && s.v[..8] == a.u
  }

  /** The frames the decoder sees: the same codes, with the residual in place of the signal. */
  function Received(frames: seq<Frame>, d: seq<Samples>): (r: seq<Frame>)
    requires |frames| == |d|
    ensures |r| == |frames|
    ensures forall k :: 0 <= k < |d| ==> r[k] == Frame(frames[k].larc, d[k])
  {
    seq(|d|, k requires 0 <= k < |d| => Frame(frames[k].larc, d[k]))
  }

  lemma FrameInverse(a: AnalysisState, b: SynthesisState, f: Frame)
    requires SameMemory(a, b) && FrameFits(a, f)
    ensures var (a1, d) := AnalyseFrame(a, f);
            var (b1, s) := SynthesiseFrame(b, Frame(f.larc, d));
            s == f.s && SameMemory(a1, b1)
  {
    hide Analyse;
    hide Synthesise;
    hide NoClipping;
    hide ZoneTaps;
    hide DecodeLars;
    var cur := DecodeLars(f.larc);
    var xs := Zip(FrameTaps(a.prev, cur), f.s);
    forall k | 0 <= k < 160 ensures Proper(xs[k].rp) {
      ZoneTapsProper(a.prev, cur, Zone(k));
    }
    hide Proper;
    RunInverse(a.u, b.v, xs);
    var d := Run(Analyse, a.u, xs).1;
    assert WithSamples(xs, d) == Zip(FrameTaps(a.prev, cur), d);
  }

  /** Over any run of frames, with the coefficients changing from frame to frame and interpolated
      inside each, the decoder's short term filter returns the encoder's input signal. */
  lemma {:induction false} FramesInverse(a: AnalysisState, b: SynthesisState, frames: seq<Frame>)
    requires SameMemory(a, b)
    requires AllFit(a, frames)
    ensures var (a1, d) := Run(AnalyseFrame, a, frames);
            var (b1, s) := Run(SynthesiseFrame, b, Received(frames, d));
            && SameMemory(a1, b1)
            && forall k :: 0 <= k < |frames| ==> s[k] == frames[k].s
  {
    hide AnalyseFrame;
    hide SynthesiseFrame;
    hide FrameFits;
    hide SameMemory;
    if frames != [] {
      var n := |frames| - 1;
      FramesInverse(a, b, frames[..n]);
      var (a0, d0) := Run(AnalyseFrame, a, frames[..n]);
      var d := Run(AnalyseFrame, a, frames).1;
      assert Received(frames, d)[..n] == Received(frames[..n], d0);
      var b0 := Run(SynthesiseFrame, b, Received(frames[..n], d0)).0;
      FrameInverse(a0, b0, frames[n]);
    }
  }

  // ----- clipping

  const QUIET: Taps := [0, 0, 0, 0, 0, 0, 0, 0]
  const QUIET9: Memory9 := [0, 0, 0, 0, 0, 0, 0, 0, 0]

  /** The first sum of a sample, from the sample before it: u[0] is always the last sample. */
  predicate FirstSumFits(x: Tapped, before: Word) {
    MIN_WORD <= x.s + GsmMultR(x.rp[0], before) <= MAX_WORD
  }

  /** Both filters keep the last sample in the first word of their memory. */
  lemma LastSampleRemembered(u: Taps, v: Memory9, x: Tapped)
    ensures Analyse(u, x).0[0] == x.s && Synthesise(v, x).0[0] == Synthesise(v, x).1
  {
    hide Backward;
  }

  lemma FirstSumDecides(u: Taps, v: Memory9, x: Tapped, wt: Word)
    requires Proper(x.rp) && !FirstSumFits(x, u[0])
    ensures !NoClipping(u, x)
    ensures v[0] == u[0] ==> Synthesise(v, Tapped(x.rp, wt)).1 != x.s
  {
    hide GsmMultR, GuardedMultR;
    GuardIsIdle(x.rp[0], u[0]);
    assert Forward(x.rp, u, x.s, 0).0 == x.s && !StageFits(u, x, 0);
    assert Synthesise(v, Tapped(x.rp, wt)).1 == GsmSub(Backward(x.rp, v, wt, 1), GuardedMultR(x.rp[0], v[0]));
    hide Forward, Backward, Proper;
  }

  /** A clipped first sum is a real loss, whatever the memories, the other coefficients and the residual are:
      no residual at all makes the synthesis filter return this sample and the one before it. */
  lemma ClippedPairIsLost(u: Taps, v: Memory9, xs: seq<Tapped>, d: seq<Word>, k: nat)
    requires 1 <= k < |xs| == |d| && Proper(xs[k].rp) && !FirstSumFits(xs[k], xs[k - 1].s)
    ensures !RunFits(u, xs)
    ensures var r := Run(Synthesise, v, WithSamples(xs, d)).1; r[k - 1] != xs[k - 1].s || r[k] != xs[k].s
  {
    hide Analyse, Synthesise, Proper, FirstSumFits, NoClipping, Run;
    var ys := WithSamples(xs, d);
    var u1, v1 := Run(Analyse, u, xs[..k - 1]).0, Run(Synthesise, v, ys[..k - 1]).0;
    TwoSteps(Analyse, u, xs, k);
    TwoSteps(Synthesise, v, ys, k);
    LastSampleRemembered(u1, v1, xs[k - 1]);
    LastSampleRemembered(u1, v1, ys[k - 1]);
    FirstSumDecides(Analyse(u1, xs[k - 1]).0, Synthesise(v1, ys[k - 1]).0, xs[k], d[k]);
    assert ys[k] == Tapped(xs[k].rp, d[k]);
    assert xs[..k + 1][..k] == xs[..k];
    LastMisfits(u, xs[..k + 1]);
    PrefixMisfits(u, xs, k + 1);
  }

  lemma LastMisfits(u: Taps, xs: seq<Tapped>)
    requires xs != [] && !NoClipping(Run(Analyse, u, xs[..|xs| - 1]).0, xs[|xs| - 1])
    ensures !RunFits(u, xs)
  {
    hide NoClipping, Analyse, Run;
  }

  /** Steps k - 1 and k of a run. */
  lemma TwoSteps<M>(step: (M, Tapped) -> (M, Word), m: M, xs: seq<Tapped>, k: nat)
    requires 1 <= k < |xs|
    ensures var m0 := Run(step, m, xs[..k - 1]).0;
            var (m1, o) := step(m0, xs[k - 1]);
            && Run(step, m, xs[..k]).0 == m1
            && Run(step, m, xs).1[k - 1] == o && Run(step, m, xs).1[k] == step(m1, xs[k]).1
  {
    hide Run;
    assert xs[..k + 1] + xs[k + 1..] == xs;
    RunSnoc(step, m, xs, k - 1);
    RunSnoc(step, m, xs, k);
    RunConcat(step, m, xs[..k + 1], xs[k + 1..]);
  }

  /** The same for a whole frame, with the coefficients of its zones. */
  lemma ClippedFrameIsLost(a: AnalysisState, b: SynthesisState, f: Frame, d: Samples, k: nat)
    requires a.prev == b.prev && 1 <= k < 160
    requires !FirstSumFits(Tapped(FrameTaps(a.prev, DecodeLars(f.larc))[k], f.s[k]), f.s[k - 1])
    ensures !FrameFits(a, f) && SynthesiseFrame(b, Frame(f.larc, d)).1 != f.s
  {
    hide DecodeLars, ZoneTaps, FirstSumFits, RunFits, Run, Analyse, Synthesise;
    var cur := DecodeLars(f.larc);
    var rps := FrameTaps(a.prev, cur);
    ZoneTapsProper(a.prev, cur, Zone(k));
    assert rps[k] == ZoneTaps(a.prev, cur, Zone(k));
    hide FrameTaps, Proper, Zone;
    var xs := Zip(rps, f.s);
    assert WithSamples(xs, d) == Zip(rps, d);
    ClippedPairIsLost(a.u, b.v, xs, d, k);
  }

  lemma {:induction false} PrefixMisfits(u: Taps, xs: seq<Tapped>, k: nat)
    requires k <= |xs| && !RunFits(u, xs[..k])
    ensures !RunFits(u, xs)
  {
    hide NoClipping, Analyse;
    if k < |xs| {
      var n := |xs| - 1;
      assert xs[..n][..k] == xs[..k];
      PrefixMisfits(u, xs[..n], k);
    } else {
      assert xs[..k] == xs;
    }
  }

  lemma ZeroCodesDecoded(larc: Taps)
    requires larc[0] == larc[1] == larc[2] == 0
    ensures DecodeLars(larc)[0] == DecodeLars(larc)[1] == -26214 && DecodeLars(larc)[2] == -16384
  {
    ZeroCodeRatios();
    hide DecodeLar;
  }

  /** The coefficients of the codes 0, once they are in force. */
  lemma ZeroCodes(prev: Taps, larc: Taps)
    requires larc[0] == larc[1] == larc[2] == 0
    ensures var rp := ZoneTaps(prev, DecodeLars(larc), 3); rp[0] == rp[1] == -32665 && rp[2] == -27443
  {
    ZeroCodesDecoded(larc);
    hide DecodeLars;
    CoefficientsOfZeroCodes(prev, DecodeLars(larc));
  }

  lemma CoefficientsOfZeroCodes(prev: Taps, cur: Taps)
    requires cur[0] == cur[1] == -26214 && cur[2] == -16384
    ensures var rp := ZoneTaps(prev, cur, 3); rp[0] == rp[1] == -32665 && rp[2] == -27443
  {
    ZeroCodeCoefficients();
    hide LarToRp;
  }

  lemma ZeroCodeCoefficients()
    ensures LarToRp(-26214) == -32665 && LarToRp(-16384) == -27443
  {
  }

  lemma ZeroCodeRatios()
    ensures DecodeLar(0, 0, -32, 13107) == -26214 && DecodeLar(0, 2048, -16, 13107) == -16384
  {
    assert MultR(13107, -32768) == -13107 && MultR(13107, -20480) == -8192;
    assert GsmMultR(13107, -32768) == -13107 && GsmMultR(13107, -20480) == -8192;
    hide GsmMultR;
    assert GsmAdd(0, -32) == -32 && ToWord(-32 * 1024) == -32768 && GsmSub(-32768, ToWord(0)) == -32768;
    assert GsmAdd(0, -16) == -16 && ToWord(-16 * 1024) == -16384 && GsmSub(-16384, ToWord(4096)) == -20480;
  }

  lemma CancellingProducts()
    ensures GsmMultR(-32665, 32767) == -32664 && GsmMultR(-27443, 32767) == -27442
  {
    assert MultR(-32665, 32767) == -32664 && MultR(-27443, 32767) == -27442;
  }

  /** Clipping in a later stage need not lose the sample: in the last zone of a frame whose first three codes
      are 0, from a full-scale memory, stage 2 clips and stages 2 and 1 give back wrong values, and the
      saturating difference of stage 0 absorbs the error. */
  lemma ClippingMayCancel(prev: Taps, larc: Taps, u: Taps, v: Memory9)
    requires larc[0] == larc[1] == larc[2] == 0 && u == [32767, 32767, 32767, 0, 0, 0, 0, 0] && v[..8] == u
    ensures var x := Tapped(ZoneTaps(prev, DecodeLars(larc), 3), 32767);
            && !StageFits(u, x, 2)
            && Backward(x.rp, v, Analyse(u, x).1, 1) != Forward(x.rp, u, x.s, 1).0
            && Synthesise(v, Tapped(x.rp, Analyse(u, x).1)).1 == x.s
  {
    ZeroCodes(prev, larc);
    ZoneTapsProper(prev, DecodeLars(larc), 3);
    hide ZoneTaps, DecodeLars;
    Cancelling(u, v, Tapped(ZoneTaps(prev, DecodeLars(larc), 3), 32767));
  }

  lemma Cancelling(u: Taps, v: Memory9, x: Tapped)
    requires x.rp[0] == x.rp[1] == -32665 && x.rp[2] == -27443 && Proper(x.rp) && x.s == 32767
    requires u == [32767, 32767, 32767, 0, 0, 0, 0, 0] && v[..8] == u
    ensures !StageFits(u, x, 2)
    ensures Backward(x.rp, v, Analyse(u, x).1, 1) != Forward(x.rp, u, x.s, 1).0
    ensures Backward(x.rp, v, Analyse(u, x).1, 0) == x.s
  {
    CancellingProducts();
    var rp := x.rp;
    hide GsmMultR, GuardedMultR;
    assert Forward(rp, u, 32767, 0).0 == 32767;
    assert Forward(rp, u, 32767, 1).0 == 103;
    assert Forward(rp, u, 32767, 2).0 == -32561;
    assert Forward(rp, u, 32767, 3).0 == -32768;
    QuietStages(u, v, x, 3);
    hide Forward;
    BackwardThree(rp, v, Analyse(u, x).1);
  }

  lemma BackwardThree(rp: Taps, v: Memory9, d: Word)
    requires rp[0] == -32665 && rp[1] == -32665 && rp[2] == -27443 && v[0] == v[1] == v[2] == 32767
    requires Backward(rp, v, d, 3) == -32768
    ensures Backward(rp, v, d, 1) == 27338 && Backward(rp, v, d, 0) == 32767
  {
    CancellingProducts();
    GuardIsIdle(-32665, 32767);
    GuardIsIdle(-27443, 32767);
    hide GsmMultR, GuardedMultR;
    assert Backward(rp, v, d, 2) == -5326;
  }

  /** Stages whose memory is zero pass the signal through in both directions. */
  lemma {:induction false} QuietStages(u: Taps, v: Memory9, x: Tapped, i: nat)
    requires i <= 8 && v[..8] == u && forall k :: i <= k < 8 ==> u[k] == 0
    ensures Backward(x.rp, v, Analyse(u, x).1, i) == Forward(x.rp, u, x.s, i).0
    decreases 8 - i
  {
    hide GsmMultR, GuardedMultR;
    if i < 8 {
      QuietStages(u, v, x, i + 1);
      NothingRemembered(x.rp[i]);
      assert v[i] == v[..8][i];
    }
  }

  // ----- the procedures of short_term.c

  /** Decoding_of_the_coded_Log_Area_Ratios, with the constants inlined as in the source. */
  method DecodingOfTheCodedLogAreaRatios(larc: array<Word>, larpp: array<Word>)
    requires larc.Length == 8 && larpp.Length == 8 && larc != larpp
    modifies larpp
    ensures larpp[..] == DecodeLars(larc[..])
  {
    hide DecodeLar;
    larpp[0] := DecodeLar(larc[0], 0, -32, 13107);
    larpp[1] := DecodeLar(larc[1], 0, -32, 13107);
    larpp[2] := DecodeLar(larc[2], 2048, -16, 13107);
    larpp[3] := DecodeLar(larc[3], -2560, -16, 13107);
    larpp[4] := DecodeLar(larc[4], 94, -8, 19223);
    larpp[5] := DecodeLar(larc[5], -1792, -8, 17476);
    larpp[6] := DecodeLar(larc[6], -341, -4, 31454);
    larpp[7] := DecodeLar(larc[7], -1144, -4, 29708);
  }

  /** Coefficients_* followed by LARp_to_rp: the coefficients of one zone, computed in place in `larp`. */
  method Coefficients(prev: array<Word>, cur: array<Word>, zone: nat, larp: array<Word>)
    requires prev.Length == 8 && cur.Length == 8 && larp.Length == 8 && larp != prev && larp != cur
    modifies larp
    ensures larp[..] == ZoneTaps(prev[..], cur[..], zone)
  {
    hide LarToRp;
    for i := 0 to 8
      invariant forall k :: 0 <= k < i ==> larp[k] == Interpolate(prev[k], cur[k], zone)
    {
      if zone == 0 {
        larp[i] := GsmAdd(prev[i] / 4, cur[i] / 4);
        larp[i] := GsmAdd(larp[i], prev[i] / 2);
      } else if zone == 1 {
        larp[i] := GsmAdd(prev[i] / 2, cur[i] / 2);
      } else if zone == 2 {
        larp[i] := GsmAdd(prev[i] / 4, cur[i] / 4);
        larp[i] := GsmAdd(larp[i], cur[i] / 2);
      } else {
        larp[i] := cur[i];
      }
    }
    LarpToRp(larp);
  }

  method LarpToRp(larp: array<Word>)
    requires larp.Length == 8
    modifies larp
    ensures forall k :: 0 <= k < 8 ==> larp[k] == LarToRp(old(larp[k]))
  {
    for i := 0 to 8
      invariant forall k :: 0 <= k < i ==> larp[k] == LarToRp(old(larp[k]))
      invariant forall k :: i <= k < 8 ==> larp[k] == old(larp[k])
    {
      if larp[i] < 0 {
        var temp: Word := if larp[i] == MIN_WORD then MAX_WORD else -larp[i];
        larp[i] := -(if temp < 11059 then temp * 2
                     else if temp < 20070 then temp + 11059
                     else GsmAdd(temp / 4, 26112));
      } else {
        var temp := larp[i];
        larp[i] := if temp < 11059 then temp * 2
                   else if temp < 20070 then temp + 11059
                   else GsmAdd(temp / 4, 26112);
      }
    }
  }

  function Constant(rp: Taps, n: nat): (r: seq<Taps>)
    ensures |r| == n
    ensures forall k :: 0 <= k < n ==> r[k] == rp
  {
    seq(n, _ => rp)
  }

  /** The inner loop of the analysis filter: one sample through the eight stages, u[] updated in place. */
  method AnalysisStages(S: Codec, rp: array<Word>, s: Word) returns (di: Word)
    requires S.Valid() && rp.Length == 8 && rp != S.u
    modifies S.u
    ensures (S.u[..], di) == Analyse(old(S.u[..]), Tapped(rp[..], s))
  {
    hide GsmMultR;
    ghost var u0: Taps := S.u[..];
    ghost var r: Taps := rp[..];
    di := s;
    var sav := s;
    for i := 0 to 8
      invariant (di, sav) == Forward(r, u0, s, i)
      invariant rp[..] == r
      invariant forall k :: 0 <= k < i ==> S.u[k] == Forward(r, u0, s, k).1
      invariant forall k :: i <= k < 8 ==> S.u[k] == u0[k]
    {
      var ui := S.u[i];
      var rpi := rp[i];
      S.u[i] := sav;
      var zzz := GsmMultR(rpi, di);
      sav := GsmAdd(ui, zzz);
      zzz := GsmMultR(rpi, ui);
      di := GsmAdd(di, zzz);
      assert Forward(r, u0, s, i + 1) == (di, sav);
    }
    assert S.u[..] == Analyse(u0, Tapped(r, s)).0;
  }

  /** `s` filtered with constant coefficients. */
  function Filtered<M>(step: (M, Tapped) -> (M, Word), m: M, rp: Taps, s: seq<Word>): (r: (M, seq<Word>))
    ensures |r.1| == |s|
  {
    Run(step, m, Zip(Constant(rp, |s|), s))
  }

  /** Short_term_analysis_filtering on the `n` samples of `s` from `start`. */
  method ShortTermAnalysisFiltering(S: Codec, rp: array<Word>, n: nat, s: array<Word>, start: nat)
    requires S.Valid() && rp.Length == 8 && start + n <= s.Length
    requires rp !in S.Repr() && s !in S.Repr() && rp != s
    modifies S.u, s
    ensures var r := Filtered<Taps>(Analyse, old(S.u[..]), rp[..], old(s[start..start + n]));
            S.u[..] == r.0 && s[..] == old(s[..start]) + r.1 + old(s[start + n..])
  {
    hide Analyse, Run, Filtered, Zip, Constant, OffsetBounded;
    ghost var xs := Zip(Constant(rp[..], n), s[start..start + n]);
    ghost var u0: Taps := S.u[..];
    ghost var s0 := s[..];
    ghost var d: seq<Word> := [];
    assert xs[..0] == [];
    RunNothing<Taps, Tapped, Word>(Analyse, u0);
    for k := 0 to n
      invariant |d| == k && (S.u[..], d) == Run<Taps, Tapped, Word>(Analyse, u0, xs[..k])
      invariant forall j :: 0 <= j < k ==> s[start + j] == d[j]
      invariant forall j :: 0 <= j < start || start + k <= j < s.Length ==> s[j] == s0[j]
      invariant rp[..] == old(rp[..])
    {
      RunSnoc(Analyse, u0, xs, k);
      assert xs[k] == Tapped(rp[..], s[start + k]);
      s[start + k] := AnalysisStages(S, rp, s[start + k]);
      d := d + [s[start + k]];
    }
    assert xs[..n] == xs;
    FilteredIs(Analyse, u0, rp[..], s0[start..start + n]);
    assert s[..] == s0[..start] + d + s0[start + n..];
  }

  lemma FilteredIs<M>(step: (M, Tapped) -> (M, Word), m: M, rp: Taps, s: seq<Word>)
    ensures Filtered(step, m, rp, s) == Run(step, m, Zip(Constant(rp, |s|), s))
  {
  }

  lemma StageBack(rp: Taps, v: Memory9, wt: Word, i: nat)
    requires i < 8
    ensures Backward(rp, v, wt, 8) == wt
    ensures Backward(rp, v, wt, i) == GsmSub(Backward(rp, v, wt, i + 1), GuardedMultR(rp[i], v[i]))
    ensures Remembered(rp, v, wt, i + 1) == GsmAdd(v[i], GuardedMultR(rp[i], Backward(rp, v, wt, i)))
    ensures Remembered(rp, v, wt, 0) == Backward(rp, v, wt, 0)
  {
  }

  /** The inner loop of the synthesis filter. */
  method SynthesisStages(S: Codec, rrp: array<Word>, wt: Word) returns (sri: Word)
    requires S.Valid() && rrp.Length == 8 && rrp != S.v
    modifies S.v
    ensures (S.v[..], sri) == Synthesise(old(S.v[..]), Tapped(rrp[..], wt))
  {
    hide GuardedMultR;
    hide Remembered;
    hide Backward;
    hide GsmAdd;
    hide GsmSub;
    ghost var v0: Memory9 := S.v[..];
    ghost var r: Taps := rrp[..];
    sri := wt;
    var i := 8;
    StageBack(r, v0, wt, 0);
    while i > 0
      invariant 0 <= i <= 8
      invariant sri == Backward(r, v0, wt, i)
      invariant rrp[..] == r
      invariant forall k :: i < k < 9 ==> S.v[k] == Remembered(r, v0, wt, k)
      invariant forall k :: 0 <= k <= i ==> S.v[k] == v0[k]
    {
      i := i - 1;
      StageBack(r, v0, wt, i);
      var tmp1 := rrp[i];
      var tmp2 := GuardedMultR(tmp1, S.v[i]);
      sri := GsmSub(sri, tmp2);
      tmp1 := GuardedMultR(tmp1, sri);
      S.v[i + 1] := GsmAdd(S.v[i], tmp1);
    }
    S.v[0] := sri;
    assert S.v[..] == Synthesise(v0, Tapped(r, wt)).0;
  }

  /** Short_term_synthesis_filtering: `n` residual words of `wt` to `n` samples of `sr`, both from `start`. */
  method ShortTermSynthesisFiltering(S: Codec, rrp: array<Word>, n: nat, wt: array<Word>, sr: array<Word>, start: nat)
    requires S.Valid() && rrp.Length == 8 && start + n <= wt.Length && start + n <= sr.Length
    requires rrp !in S.Repr() && wt !in S.Repr() && sr !in S.Repr() && rrp != sr && wt != sr
    modifies S.v, sr
    ensures var r := Filtered<Memory9>(Synthesise, old(S.v[..]), rrp[..], wt[start..start + n]);
            S.v[..] == r.0 && sr[..] == old(sr[..start]) + r.1 + old(sr[start + n..])
  {
    hide Synthesise, Run, Filtered, Zip, Constant, OffsetBounded;
    ghost var xs := Zip(Constant(rrp[..], n), wt[start..start + n]);
    ghost var v0: Memory9 := S.v[..];
    ghost var sr0, w := sr[..], wt[..];
    ghost var d: seq<Word> := [];
    assert xs[..0] == [];
    RunNothing<Memory9, Tapped, Word>(Synthesise, v0);
    for k := 0 to n
      invariant |d| == k && (S.v[..], d) == Run<Memory9, Tapped, Word>(Synthesise, v0, xs[..k])
      invariant forall j :: 0 <= j < k ==> sr[start + j] == d[j]
      invariant forall j :: 0 <= j < start || start + k <= j < sr.Length ==> sr[j] == sr0[j]
      invariant rrp[..] == old(rrp[..]) && wt[..] == w
    {
      RunSnoc(Synthesise, v0, xs, k);
      assert xs[k] == Tapped(rrp[..], w[start + k]) && wt[start + k] == w[start + k];
      sr[start + k] := SynthesisStages(S, rrp, wt[start + k]);
      d := d + [sr[start + k]];
    }
    assert xs[..n] == xs;
    FilteredIs(Synthesise, v0, rrp[..], w[start..start + n]);
    assert sr[..] == sr0[..start] + d + sr0[start + n..];
  }

  /** The decoded log area ratios of the previous frame: the row that the next frame will not overwrite. */
  ghost function PreviousRow(S: Codec): Taps
    requires S.Valid()
    reads S, S.larpp0, S.larpp1
  {
    if S.j == 0 then S.larpp1[..] else S.larpp0[..]
  }

  ghost function AnalysisView(S: Codec): AnalysisState
    requires S.Valid()
    reads S, S.larpp0, S.larpp1, S.u
  {
    AnalysisState(PreviousRow(S), S.u[..])
  }

  ghost function SynthesisView(S: Codec): SynthesisState
    requires S.Valid()
    reads S, S.larpp0, S.larpp1, S.v
  {
    SynthesisState(PreviousRow(S), S.v[..])
  }

  /** A frame filtered zone by zone, each zone with constant coefficients. */
  function FilteredInZones<M>(step: (M, Tapped) -> (M, Word), m: M, prev: Taps, cur: Taps, s: Samples): (r: (M, seq<Word>))
  {
    var r0 := Filtered(step, m, ZoneTaps(prev, cur, 0), s[0..13]);
    var r1 := Filtered(step, r0.0, ZoneTaps(prev, cur, 1), s[13..27]);
    var r2 := Filtered(step, r1.0, ZoneTaps(prev, cur, 2), s[27..40]);
    var r3 := Filtered(step, r2.0, ZoneTaps(prev, cur, 3), s[40..160]);
    (r3.0, r0.1 + r1.1 + r2.1 + r3.1)
  }

  lemma FrameInZones<M>(step: (M, Tapped) -> (M, Word), m: M, prev: Taps, cur: Taps, s: Samples)
    ensures FilteredInZones(step, m, prev, cur, s) == Run(step, m, Zip(FrameTaps(prev, cur), s))
  {
    hide ZoneTaps;
    hide Run;
    var z0 := Zip(Constant(ZoneTaps(prev, cur, 0), 13), s[0..13]);
    var z1 := Zip(Constant(ZoneTaps(prev, cur, 1), 14), s[13..27]);
    var z2 := Zip(Constant(ZoneTaps(prev, cur, 2), 13), s[27..40]);
    var z3 := Zip(Constant(ZoneTaps(prev, cur, 3), 120), s[40..160]);
    assert Zip(FrameTaps(prev, cur), s) == z0 + z1 + z2 + z3;
    RunFour(step, m, z0, z1, z2, z3);
  }

  /** Replacing s[start..end] keeps what lies behind it. */
  lemma PieceKept<T>(s: seq<T>, t: seq<T>, start: nat, end: nat, a: seq<T>, lo: nat, hi: nat)
    requires start <= end <= lo <= hi <= |s| && |a| == end - start
    requires t == s[..start] + a + s[end..]
    ensures |t| == |s| && t[lo..hi] == s[lo..hi]
  {
  }

  /** Four in-place updates of adjacent pieces rewrite the whole. */
  lemma FourPieces<T>(s0: seq<T>, s1: seq<T>, s2: seq<T>, s3: seq<T>, s4: seq<T>, a: seq<T>, b: seq<T>, c: seq<T>, d: seq<T>)
    requires |s0| == 160 && |a| == 13 && |b| == 14 && |c| == 13 && |d| == 120
    requires s1 == s0[..0] + a + s0[13..]
    requires s2 == s1[..13] + b + s1[27..]
    requires s3 == s2[..27] + c + s2[40..]
    requires s4 == s3[..40] + d + s3[160..]
    ensures s1[13..27] == s0[13..27] && s2[27..40] == s0[27..40] && s3[40..160] == s0[40..160]
    ensures s4 == a + b + c + d
  {
    assert s1 == a + s0[13..];
    assert s2 == a + b + s0[27..];
    assert s3 == a + b + c + s0[40..];
  }

  /** Gsm_Short_Term_Analysis_Filter: the signal in `s` is replaced by the residual. */
  method GsmShortTermAnalysisFilter(S: Codec, larc: array<Word>, s: array<Word>)
    requires S.Valid() && larc.Length == 8 && s.Length == 160 && larc != s
    requires larc !in S.Repr() && s !in S.Repr()
    modifies S`j, S.larpp0, S.larpp1, S.u, s
    ensures S.Valid()
    ensures (AnalysisView(S), s[..]) == AnalyseFrame(old(AnalysisView(S)), Frame(larc[..], old(s[..])))
  {
    hide DecodeLars;
    hide FilteredInZones;
    hide FrameTaps;
    hide Run;
    var larppJ := if S.j == 0 then S.larpp0 else S.larpp1;
    S.j := 1 - S.j;
    var larppJ1 := if S.j == 0 then S.larpp0 else S.larpp1;
    ghost var prev: Taps := larppJ1[..];
    ghost var u0: Taps := S.u[..];
    ghost var s0 := s[..];
    DecodingOfTheCodedLogAreaRatios(larc, larppJ);
    ghost var cur: Taps := larppJ[..];
    AnalyseZones(S, larppJ1, larppJ, s);
    FrameInZones<Taps>(Analyse, u0, prev, cur, s0);
  }

  /** The four zones of Gsm_Short_Term_Analysis_Filter. */
  method AnalyseZones(S: Codec, prev: array<Word>, cur: array<Word>, s: array<Word>)
    requires S.Valid() && {prev, cur} == {S.larpp0, S.larpp1} && s.Length == 160 && s !in S.Repr()
    modifies S.u, s
    ensures (S.u[..], s[..]) == FilteredInZones<Taps>(Analyse, old(S.u[..]), prev[..], cur[..], old(s[..]))
  {
    hide ZoneTaps;
    hide Analyse;
    hide Filtered;
    var larp := new Word[8];
    ghost var p: Taps, c: Taps := prev[..], cur[..];
    ghost var s0, m0: Taps := s[..], S.u[..];
    ghost var r0 := Filtered<Taps>(Analyse, m0, ZoneTaps(p, c, 0), s0[0..13]);
    Coefficients(prev, cur, 0, larp);
    ShortTermAnalysisFiltering(S, larp, 13, s, 0);
    ghost var s1 := s[..];
    PieceKept(s0, s1, 0, 13, r0.1, 13, 27);
    ghost var r1 := Filtered<Taps>(Analyse, r0.0, ZoneTaps(p, c, 1), s0[13..27]);
    Coefficients(prev, cur, 1, larp);
    ShortTermAnalysisFiltering(S, larp, 14, s, 13);
    ghost var s2 := s[..];
    PieceKept(s0, s1, 0, 13, r0.1, 27, 40);
    PieceKept(s1, s2, 13, 27, r1.1, 27, 40);
    ghost var r2 := Filtered<Taps>(Analyse, r1.0, ZoneTaps(p, c, 2), s0[27..40]);
    Coefficients(prev, cur, 2, larp);
    ShortTermAnalysisFiltering(S, larp, 13, s, 27);
    ghost var s3 := s[..];
    PieceKept(s0, s1, 0, 13, r0.1, 40, 160);
    PieceKept(s1, s2, 13, 27, r1.1, 40, 160);
    PieceKept(s2, s3, 27, 40, r2.1, 40, 160);
    ghost var r3 := Filtered<Taps>(Analyse, r2.0, ZoneTaps(p, c, 3), s0[40..160]);
    Coefficients(prev, cur, 3, larp);
    ShortTermAnalysisFiltering(S, larp, 120, s, 40);
    ghost var s4 := s[..];
    FourPieces(s0, s1, s2, s3, s4, r0.1, r1.1, r2.1, r3.1);
  }

  /** Gsm_Short_Term_Synthesis_Filter: the residual in `wt` is turned into the signal in `s`. */
  method GsmShortTermSynthesisFilter(S: Codec, larcr: array<Word>, wt: array<Word>, s: array<Word>)
    requires S.Valid() && larcr.Length == 8 && wt.Length == 160 && s.Length == 160 && wt != s && larcr != s
    requires larcr !in S.Repr() && wt !in S.Repr() && s !in S.Repr()
    modifies S`j, S.larpp0, S.larpp1, S.v, s
    ensures S.Valid()
    ensures (SynthesisView(S), s[..]) == SynthesiseFrame(old(SynthesisView(S)), Frame(larcr[..], wt[..]))
  {
    hide DecodeLars;
    hide FilteredInZones;
    hide FrameTaps;
    hide Run;
    var larppJ := if S.j == 0 then S.larpp0 else S.larpp1;
    S.j := 1 - S.j;
    var larppJ1 := if S.j == 0 then S.larpp0 else S.larpp1;
    ghost var prev: Taps := larppJ1[..];
    ghost var v0: Memory9 := S.v[..];
    ghost var w := wt[..];
    DecodingOfTheCodedLogAreaRatios(larcr, larppJ);
    ghost var cur: Taps := larppJ[..];
    SynthesiseZones(S, larppJ1, larppJ, wt, s);
    FrameInZones<Memory9>(Synthesise, v0, prev, cur, w);
  }

  /** The four zones of Gsm_Short_Term_Synthesis_Filter. */
  method SynthesiseZones(S: Codec, prev: array<Word>, cur: array<Word>, wt: array<Word>, s: array<Word>)
    requires S.Valid() && {prev, cur} == {S.larpp0, S.larpp1} && wt.Length == 160 && s.Length == 160 && wt != s
    requires wt !in S.Repr() && s !in S.Repr()
    modifies S.v, s
    ensures (S.v[..], s[..]) == FilteredInZones<Memory9>(Synthesise, old(S.v[..]), prev[..], cur[..], wt[..])
  {
    hide ZoneTaps;
    hide Synthesise;
    hide Filtered;
    var larp := new Word[8];
    ghost var p: Taps, c: Taps := prev[..], cur[..];
    ghost var s0, m0: Memory9 := s[..], S.v[..];
    ghost var w := wt[..];
    ghost var r0 := Filtered<Memory9>(Synthesise, m0, ZoneTaps(p, c, 0), w[0..13]);
    Coefficients(prev, cur, 0, larp);
    ShortTermSynthesisFiltering(S, larp, 13, wt, s, 0);
    ghost var s1 := s[..];
    ghost var r1 := Filtered<Memory9>(Synthesise, r0.0, ZoneTaps(p, c, 1), w[13..27]);
    Coefficients(prev, cur, 1, larp);
    ShortTermSynthesisFiltering(S, larp, 14, wt, s, 13);
    ghost var s2 := s[..];
    ghost var r2 := Filtered<Memory9>(Synthesise, r1.0, ZoneTaps(p, c, 2), w[27..40]);
    Coefficients(prev, cur, 2, larp);
    ShortTermSynthesisFiltering(S, larp, 13, wt, s, 27);
    ghost var s3 := s[..];
    ghost var r3 := Filtered<Memory9>(Synthesise, r2.0, ZoneTaps(p, c, 3), w[40..160]);
    Coefficients(prev, cur, 3, larp);
    ShortTermSynthesisFiltering(S, larp, 120, wt, s, 40);
    ghost var s4 := s[..];
    FourPieces(s0, s1, s2, s3, s4, r0.1, r1.1, r2.1, r3.1);
  }
}
