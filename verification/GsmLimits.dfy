/** Inputs at which the GSM coder meets the limits that the other modules state exact conditions for: a frame
    whose first lattice sum clips (gsm/short_term.c), and one whose last sample the rescaling of gsm/lpc.c
    turns over.  Both start from a coder just created. */
module GsmLimits {
  import opened FixedPoint
  import opened GsmState
  import opened Runs
  import opened ShortTerm
  import GsmCodec
  import Lpc
  import Pre = Preprocess

  // ----- a frame whose first sum clips

  /** The end of the frame, after 146 silent samples. */
  const TAIL: seq<Word> :=
    [-32768, 32767, 32767, 0, -32768, -32768, 0, 32767, 32767, 0, -32768, -32768, 0, 32767]

  /** The tail after pre-processing, after scaling down, and after scaling up again. */
  const TAIL_OUT: seq<Word> :=
    [-16384, 30487, 2279, -14104, -16385, -2280, 14107, 16382, 2279, -14104, -16385, -2280, 14107, 16382]
  const TAIL_SCALED: seq<Word> :=
    [-1024, 1905, 142, -881, -1024, -142, 882, 1024, 142, -881, -1024, -142, 882, 1024]

  const LOUD_FRAME: GsmCodec.Samples := Pre.Silent(146) + TAIL

  lemma NextStep(k: nat, m: Pre.Memory, lz2: int, mp: Word, p: Word)
    requires k < 14 && Run(Pre.Step, Pre.SILENCE, TAIL[..k]) == (m, TAIL_OUT[..k]) && OffsetBounded(m.z1, m.lz2)
    requires lz2 == Pre.ExactOffset(m.z1, m.lz2, TAIL[k] / 8 * 4)
    requires mp == (lz2 + 16384) / 0x8000 && p == MultR(m.mp, -28180) && TAIL_OUT[k] == Saturate(mp + p)
    ensures MIN_LONGWORD <= lz2 <= MAX_LONGWORD && OffsetBounded(TAIL[k] / 8 * 4, lz2)
    ensures Run(Pre.Step, Pre.SILENCE, TAIL[..k + 1]) == (Pre.Memory(TAIL[k] / 8 * 4, lz2, mp), TAIL_OUT[..k + 1])
  {
    hide TAIL, TAIL_OUT, Pre.SILENCE, Pre.Step, Run, Pre.ExactOffset, MultR, OffsetBounded, Saturate;
    assert |TAIL| == 14 && |TAIL_OUT| == 14 by { TailLengths(); }
    Pre.StepIs(m, TAIL[k], lz2, mp, p, TAIL_OUT[k]);
    RunSnoc(Pre.Step, Pre.SILENCE, TAIL, k);
    assert TAIL_OUT[..k + 1] == TAIL_OUT[..k] + [TAIL_OUT[k]];
  }

  lemma TailLengths()
    ensures |TAIL| == 14 && |TAIL_OUT| == 14 && |TAIL_SCALED| == 14
  {
  }

  lemma FirstStep()
    requires Run(Pre.Step, Pre.SILENCE, TAIL[..0]) == (Pre.Memory(0, 0, 0), TAIL_OUT[..0]) && OffsetBounded(0, 0)
    ensures Run(Pre.Step, Pre.SILENCE, TAIL[..1]) == (Pre.Memory(-16384, -536870912, -16384), TAIL_OUT[..1])
    ensures OffsetBounded(-16384, -536870912)
  {
    hide Run, OffsetBounded, Pre.ExactOffset, MultR;
    Pre.SilentProduct();
    Pre.FirstOffset(-16384);
    assert TAIL[0] / 8 * 4 == -16384;
    NextStep(0, Pre.Memory(0, 0, 0), -536870912, -16384, 0);
  }

  lemma FirstPart()
    requires Run(Pre.Step, Pre.SILENCE, TAIL[..0]) == (Pre.Memory(0, 0, 0), TAIL_OUT[..0]) && OffsetBounded(0, 0)
    ensures Run(Pre.Step, Pre.SILENCE, TAIL[..3]) == (Pre.Memory(16380, 536739428, 16380), TAIL_OUT[..3]) && OffsetBounded(16380, 536739428)
  {
    hide Run;
    FirstStep();
    NextStep(1, Pre.Memory(-16384, -536870912, -16384), 537280512, 16397, 14090);
    NextStep(2, Pre.Memory(16380, 537280512, 16397), 536739428, 16380, -14101);
  }

  lemma SecondPart()
    requires Run(Pre.Step, Pre.SILENCE, TAIL[..3]) == (Pre.Memory(16380, 536739428, 16380), TAIL_OUT[..3]) && OffsetBounded(16380, 536739428)
    ensures Run(Pre.Step, Pre.SILENCE, TAIL[..6]) == (Pre.Memory(-16384, -536870103, -16384), TAIL_OUT[..6]) && OffsetBounded(-16384, -536870103)
  {
    hide Run;
    NextStep(3, Pre.Memory(16380, 536739428, 16380), -540952, -17, -14087);
    NextStep(4, Pre.Memory(0, -540952, -17), -537411319, -16400, 15);
    NextStep(5, Pre.Memory(-16384, -537411319, -16400), -536870103, -16384, 14104);
  }

  lemma ThirdPart()
    requires Run(Pre.Step, Pre.SILENCE, TAIL[..6]) == (Pre.Memory(-16384, -536870103, -16384), TAIL_OUT[..6]) && OffsetBounded(-16384, -536870103)
    ensures Run(Pre.Step, Pre.SILENCE, TAIL[..10]) == (Pre.Memory(0, -540690, -17), TAIL_OUT[..10]) && OffsetBounded(0, -540690)
  {
    hide Run;
    NextStep(6, Pre.Memory(-16384, -536870103, -16384), 541480, 17, 14090);
    NextStep(7, Pre.Memory(0, 541480, 17), 537280775, 16397, -15);
    NextStep(8, Pre.Memory(16380, 537280775, 16397), 536739690, 16380, -14101);
    NextStep(9, Pre.Memory(16380, 536739690, 16380), -540690, -17, -14087);
  }

  lemma FourthPart()
    requires Run(Pre.Step, Pre.SILENCE, TAIL[..10]) == (Pre.Memory(0, -540690, -17), TAIL_OUT[..10]) && OffsetBounded(0, -540690)
    ensures Run(Pre.Step, Pre.SILENCE, TAIL[..14]) == (Pre.Memory(16380, 537281036, 16397), TAIL_OUT[..14]) && OffsetBounded(16380, 537281036)
  {
    hide Run;
    NextStep(10, Pre.Memory(0, -540690, -17), -537411057, -16400, 15);
    NextStep(11, Pre.Memory(-16384, -537411057, -16400), -536869841, -16384, 14104);
    NextStep(12, Pre.Memory(-16384, -536869841, -16384), 541742, 17, 14090);
    NextStep(13, Pre.Memory(0, 541742, 17), 537281036, 16397, -15);
  }

  lemma TailPreprocessed()
    ensures Run(Pre.Step, Pre.SILENCE, TAIL).1 == TAIL_OUT
  {
    hide Run, OffsetBounded, Pre.SILENCE;
    EmptyTail();
    FirstPart();
    SecondPart();
    ThirdPart();
    FourthPart();
    WholeTail();
  }

  lemma EmptyTail()
    ensures Run(Pre.Step, Pre.SILENCE, TAIL[..0]) == (Pre.Memory(0, 0, 0), TAIL_OUT[..0]) && OffsetBounded(0, 0)
  {
    hide Run, OffsetBounded;
    Pre.SilentBound();
    Pre.SilentProduct();
    RunNothing(Pre.Step, Pre.SILENCE);
    assert TAIL[..0] == [] && TAIL_OUT[..0] == [];
  }

  lemma WholeTail()
    ensures TAIL[..14] == TAIL && TAIL_OUT[..14] == TAIL_OUT
  {
  }

  /** The frame after pre-processing. */
  lemma FramePreprocessed()
    ensures Run(Pre.Step, Pre.SILENCE, LOUD_FRAME).1 == Pre.Silent(146) + TAIL_OUT
  {
    Pre.SilenceIsKept(146);
    TailPreprocessed();
    RunConcat(Pre.Step, Pre.SILENCE, Pre.Silent(146), TAIL);
    hide Run, Pre.SILENCE;
  }

  // ----- its first log area ratio

  /** Behind silence a correlation is that of the tail alone. */
  lemma {:induction false} CorrBehindSilence(z: seq<Word>, t: seq<Word>, k: nat, n: nat)
    requires k <= |z| && n <= |t| && forall i :: 0 <= i < |z| ==> z[i] == 0
    ensures Lpc.Corr(z + t, k, |z| + n) == Lpc.Corr(t, k, n)
  {
    hide Lpc.Product;
    if n > 0 {
      CorrBehindSilence(z, t, k, n - 1);
      SilentProducts((z + t)[|z| + n - 1], (z + t)[|z| + n - 1 - k]);
    } else {
      CorrOfSilence(z + t, k, |z|);
    }
  }

  lemma {:induction false} CorrOfSilence(s: seq<Word>, k: nat, n: nat)
    requires n <= |s| && forall i :: 0 <= i < n ==> s[i] == 0
    ensures Lpc.Corr(s, k, n) == 0
  {
    if n > k {
      CorrOfSilence(s, k, n - 1);
      SilentProducts(s[n - 1], s[n - 1 - k]);
    }
  }

  lemma SilentProducts(a: int, b: int)
    ensures a == 0 || b == 0 ==> Lpc.Product(a, b) == 0
  {
  }

  lemma CorrNext(t: seq<Word>, k: nat, n: nat, c: int)
    requires k <= n < |t| && Lpc.Corr(t, k, n) == c
    ensures Lpc.Corr(t, k, n + 1) == c + Lpc.Product(t[n], t[n - k])
  {
    hide Lpc.Product;
  }

  lemma TailEnergy()
    ensures Lpc.Corr(TAIL_SCALED, 0, 14) == 12060731
  {
    hide Lpc.Corr;
    NoCorr(TAIL_SCALED, 0);
    CorrNext(TAIL_SCALED, 0, 0, 0);
    CorrNext(TAIL_SCALED, 0, 1, 1048576);
    CorrNext(TAIL_SCALED, 0, 2, 4677601);
    CorrNext(TAIL_SCALED, 0, 3, 4697765);
    CorrNext(TAIL_SCALED, 0, 4, 5473926);
    CorrNext(TAIL_SCALED, 0, 5, 6522502);
    CorrNext(TAIL_SCALED, 0, 6, 6542666);
    CorrNext(TAIL_SCALED, 0, 7, 7320590);
    CorrNext(TAIL_SCALED, 0, 8, 8369166);
    CorrNext(TAIL_SCALED, 0, 9, 8389330);
    CorrNext(TAIL_SCALED, 0, 10, 9165491);
    CorrNext(TAIL_SCALED, 0, 11, 10214067);
    CorrNext(TAIL_SCALED, 0, 12, 10234231);
    CorrNext(TAIL_SCALED, 0, 13, 11012155);
  }

  lemma TailLag()
    ensures Lpc.Corr(TAIL_SCALED, 1, 14) == 1865946
  {
    hide Lpc.Corr;
    NoCorr(TAIL_SCALED, 1);
    CorrNext(TAIL_SCALED, 1, 1, 0);
    CorrNext(TAIL_SCALED, 1, 2, -1950720);
    CorrNext(TAIL_SCALED, 1, 3, -1680210);
    CorrNext(TAIL_SCALED, 1, 4, -1805312);
    CorrNext(TAIL_SCALED, 1, 5, -903168);
    CorrNext(TAIL_SCALED, 1, 6, -757760);
    CorrNext(TAIL_SCALED, 1, 7, -883004);
    CorrNext(TAIL_SCALED, 1, 8, 20164);
    CorrNext(TAIL_SCALED, 1, 9, 165572);
    CorrNext(TAIL_SCALED, 1, 10, 40470);
    CorrNext(TAIL_SCALED, 1, 11, 942614);
    CorrNext(TAIL_SCALED, 1, 12, 1088022);
    CorrNext(TAIL_SCALED, 1, 13, 962778);
  }

  lemma NoCorr(t: seq<Word>, k: nat)
    requires k <= |t|
    ensures Lpc.Corr(t, k, k) == 0
  {
  }

  /** Dynamic scaling of the frame: by four bits, because it has a sample beyond 2^14. */
  lemma FrameScaled()
    ensures Lpc.ScaleFactor(MaxAbs(Pre.Silent(146) + TAIL_OUT)) == 4
    ensures Lpc.ScaledSignal(Pre.Silent(146) + TAIL_OUT) == Pre.Silent(146) + TAIL_SCALED
  {
    var s := Pre.Silent(146) + TAIL_OUT;
    assert s[147] == 30487 && GsmAbs(s[147]) == 30487;
    hide MaxAbs, Lpc.ScaleDown, Lpc.ScaleFactor, GsmAbs;
    Lpc.ScaleFactorRange(MaxAbs(s));
    var t := Lpc.ScaledSignal(s);
    forall i | 0 <= i < 160 ensures t[i] == (Pre.Silent(146) + TAIL_SCALED)[i] {
      Lpc.ScaleDownRounds(s[i], 4);
      if i < 146 {
        assert s[i] == 0;
      } else {
        assert s[i] == TAIL_OUT[i - 146];
        TailRounds(i - 146);
      }
    }
  }

  lemma TailRounds(i: nat)
    requires i < 14
    ensures (TAIL_OUT[i] + 8) / 16 == TAIL_SCALED[i]
  {
  }

  /** The first two correlations of the frame. */
  lemma FrameLags()
    ensures Lpc.LagsOf(Pre.Silent(146) + TAIL_OUT)[0] == 24121462 && Lpc.LagsOf(Pre.Silent(146) + TAIL_OUT)[1] == 3731892
  {
    FrameScaled();
    TailEnergy();
    TailLag();
    hide Lpc.Corr, Lpc.ScaledSignal;
    CorrBehindSilence(Pre.Silent(146), TAIL_SCALED, 0, 14);
    CorrBehindSilence(Pre.Silent(146), TAIL_SCALED, 1, 14);
    assert |TAIL_SCALED| == 14;
  }

  /** They give the first code 29: a small positive correlation. */
  lemma FirstCode(s: seq<Word>)
    requires |s| == 160 && Lpc.LagsOf(s)[0] == 24121462 && Lpc.LagsOf(s)[1] == 3731892
    ensures Lpc.LpcCodes(s)[0] == 29
  {
    hide Lpc.LagsOf;
    var acf := Lpc.LagsOf(s);
    NormalisedFirstTwo(acf);
    ReflectsTo();
    FirstRatioCode();
    FirstCoefficient(acf);
    hide Lpc.NormalisedLags, Lpc.ReflectionCoefficientsOf, Lpc.RpToLar, Lpc.Quantise;
  }

  lemma NormalisedFirstTwo(acf: Lpc.Lags)
    requires acf[0] == 24121462 && acf[1] == 3731892
    ensures Lpc.NormalisedLags(acf)[0] == 23556 && Lpc.NormalisedLags(acf)[1] == 3644
  {
    assert GsmNorm(24121462) == 6;
    hide GsmNorm;
    assert Pow2(6) == 64;
    hide Pow2;
  }

  lemma ReflectsTo()
    ensures Lpc.Reflect(23556, 3644) == -5069
  {
    DivUnique(3644 * 0x8000, 23556, 5069);
  }

  lemma FirstCoefficient(acf: Lpc.Lags)
    requires acf[0] != 0 && GsmAbs(Lpc.NormalisedLags(acf)[1]) <= Lpc.NormalisedLags(acf)[0]
    ensures Lpc.ReflectionCoefficientsOf(acf)[0] == Lpc.Reflect(Lpc.NormalisedLags(acf)[0], Lpc.NormalisedLags(acf)[1])
  {
    hide Lpc.NormalisedLags, Lpc.Reflect, Lpc.SchurP, Lpc.SchurK;
  }

  lemma FirstRatioCode()
    ensures Lpc.RpToLar(-5069) == -2534 && Lpc.QuantiseAt(-2534, 0) == 29
  {
    assert Mult(20480, -2534) == -1584;
  }

  // ----- the sum that clips

  lemma FirstRatioDecoded()
    ensures DecodeLar(29, 0, -32, 13107) == -2458 && LarToRp(-2458) == -4916
  {
    assert MultR(13107, -3072) == -1229;
    assert GsmMultR(13107, -3072) == -1229;
    hide GsmMultR, MultR;
    assert GsmAdd(29, -32) == -3 && ToWord(-3 * 1024) == -3072 && GsmSub(-3072, ToWord(0)) == -3072;
  }

  /** The first coefficient in force at sample 147, in the last zone. */
  lemma FirstTap(larc: Taps)
    requires larc[0] == 29
    ensures FrameTaps(QUIET, DecodeLars(larc))[147][0] == -4916
  {
    FirstRatioDecoded();
    hide DecodeLar, LarToRp;
    assert DecodeLars(larc)[0] == -2458;
    hide DecodeLars;
  }

  /** The two samples as the lattice gets them. */
  lemma RescaledPair()
    ensures var t := Lpc.Rescaled(Pre.Silent(146) + TAIL_OUT); |t| == 160 && t[146] == -16384 && t[147] == 30480
  {
    hide MaxAbs, Lpc.ScaleFactor, Lpc.ScaledSignal, Lpc.Rescaled;
    FrameScaled();
    var s := Pre.Silent(146) + TAIL_OUT;
    assert s[146] == -16384 && s[147] == 30487;
    hide TAIL_OUT;
    RescaledAt(s, 146, -16384);
    RescaledAt(s, 147, 30487);
  }

  /** Rescaling by four bits, in 16-bit arithmetic. */
  lemma RescaledAt(s: seq<Word>, i: nat, x: int)
    requires i < |s| && s[i] == x && Lpc.ScaleFactor(MaxAbs(s)) == 4
    ensures Lpc.Rescaled(s)[i] == ToWord((x + 8) / 16 * 16)
  {
    hide MaxAbs, Lpc.ScaleFactor, Lpc.ScaleDown, ToWord;
    Lpc.ScaleDownRounds(s[i], 4);
  }

  lemma PairClips(x: Tapped)
    requires x.s == 30480 && x.rp[0] == -4916
    ensures !FirstSumFits(x, -16384)
  {
    assert MultR(-4916, -16384) == 2458;
  }

  /** What the coder hands to the lattice for its first frame. */
  function Handed(s: GsmCodec.Samples): ShortTerm.Frame {
    var so := Run(Pre.Step, GsmCodec.FRESH_CODER.pre, s).1;
    Frame(Lpc.LpcCodes(so), Lpc.Rescaled(so))
  }

  lemma HandedIsTheCoders(s: GsmCodec.Samples)
    ensures var (st, c) := GsmCodec.EncodeFrame(GsmCodec.FRESH_CODER, s);
            c.larc == Handed(s).larc && st.lattice == AnalyseFrame(GsmCodec.FRESH_CODER.lattice, Handed(s)).0
  {
    hide Pre.Step, Lpc.LpcCodes, Lpc.Rescaled, AnalyseFrame, GsmCodec.EncodeSegment, Run;
  }

  /** A real loss, from the first frame of a coder just created: 146 silent samples and 14 at full scale.
      After pre-processing and analysis the first sum of sample 147 clips, and no residual whatever makes the
      decoder's filter return the frame that the coder filtered. */
  lemma ClippingLosesSample(d: ShortTerm.Samples)
    ensures var f := Handed(LOUD_FRAME);
            && !FrameFits(GsmCodec.FRESH_CODER.lattice, f)
            && SynthesiseFrame(GsmCodec.FRESH_DECODER.lattice, Frame(f.larc, d)).1 != f.s
  {
    FramePreprocessed();
    FrameLags();
    RescaledPair();
    var so: seq<Word> := Pre.Silent(146) + TAIL_OUT;
    assert Handed(LOUD_FRAME) == Frame(Lpc.LpcCodes(so), Lpc.Rescaled(so));
    hide Lpc.LpcCodes, Lpc.LagsOf, Lpc.Rescaled, Run, DecodeLars, FrameTaps, FrameFits, SynthesiseFrame, Handed, TAIL_OUT, LOUD_FRAME;
    FirstCode(so);
    var larc := Lpc.LpcCodes(so);
    FirstTap(larc);
    PairClips(Tapped(FrameTaps(QUIET, DecodeLars(larc))[147], 30480));
    hide FirstSumFits;
    ClippedFrameIsLost(GsmCodec.FRESH_CODER.lattice, GsmCodec.FRESH_DECODER.lattice, Frame(larc, Lpc.Rescaled(so)), d, 147);
  }

  // ----- a sample that rescaling turns over

  /** The loudest negative input for so long that the offset compensation follows it. */
  function Loud(n: nat): (z: seq<Word>)
    ensures |z| == n && forall i :: 0 <= i < n ==> z[i] == -32768
  {
    seq(n, _ => -32768)
  }

  /** A memory on the way there: the compensated signal is negative and tends to nothing. */
  ghost predicate Settling(m: Pre.Memory) {
    && m.z1 == -16384 && -0x4000_0000 < m.lz2 <= 0 && m.mp == (m.lz2 + 16384) / 0x8000
    && OffsetBounded(m.z1, m.lz2)
  }

  /** Where the compensation has all but followed. */
  ghost predicate Settled(m: Pre.Memory) {
    Settling(m) && m.lz2 >= -0x8000
  }

  /** One more loud sample moves the recursive filter towards zero, by at least 33 until it is settled. */
  lemma LeakTowardsZero(l: int)
    requires -0x4000_0000 < l <= 0
    ensures var n := Pre.ExactOffset(-16384, l, -16384);
            n <= 0 && (l < -0x8000 ==> n >= l + 33) && (l >= -0x8000 ==> n >= -0x8000)
  {
    var q, t := l / 0x8000, l % 0x8000;
    Pre.RoundedLeak(t);
    assert (t * 32735 + 16384) / 0x8000 <= 32735;
  }

  lemma LoudStep(m: Pre.Memory)
    requires Settling(m)
    ensures var n := Pre.Step(m, -32768).0;
            Settling(n) && (Settled(m) ==> Settled(n)) && (!Settled(m) ==> n.lz2 >= m.lz2 + 33)
  {
    Pre.CompensateIsExact(m.z1, m.lz2, -32768);
    LeakTowardsZero(m.lz2);
    hide Pre.Compensate, Pre.ExactOffset, OffsetBounded, Pre.FitsRegisters;
    Pre.RoundingIs(Pre.ExactOffset(-16384, m.lz2, -16384), (Pre.ExactOffset(-16384, m.lz2, -16384) + 16384) / 0x8000);
    hide ToWord, GsmLAdd, GsmMultR, GsmAdd;
  }

  lemma LoudPrefix(m: Pre.Memory, n: nat)
    requires n > 0
    ensures Run(Pre.Step, m, Loud(n)).0 == Run(Pre.Step, Pre.Step(m, -32768).0, Loud(n - 1)).0
  {
    hide Pre.Step;
    assert Loud(n) == [-32768] + Loud(n - 1);
    RunConcat(Pre.Step, m, [-32768], Loud(n - 1));
    assert [-32768][..0] == [];
  }

  /** Enough loud samples settle the filter. */
  lemma {:induction false} LoudSettles(m: Pre.Memory) returns (n: nat)
    requires Settling(m)
    ensures Settled(Run(Pre.Step, m, Loud(n)).0)
    decreases -m.lz2
  {
    hide Pre.Step, Run;
    if Settled(m) {
      n := 0;
      RunNothing(Pre.Step, m);
      assert Loud(0) == [];
    } else {
      LoudStep(m);
      n := LoudSettles(Pre.Step(m, -32768).0);
      n := n + 1;
      LoudPrefix(m, n);
    }
  }

  lemma {:induction false} LoudStaysSettled(m: Pre.Memory, n: nat)
    requires Settled(m)
    ensures Settled(Run(Pre.Step, m, Loud(n)).0)
    decreases n
  {
    hide Pre.Step, Settling;
    if n > 0 {
      LoudStaysSettled(m, n - 1);
      assert Loud(n)[..n - 1] == Loud(n - 1);
      assert Settling(Run(Pre.Step, m, Loud(n - 1)).0);
      LoudStep(Run(Pre.Step, m, Loud(n - 1)).0);
    }
  }

  /** From a settled memory the loudest positive sample comes out of pre-processing at full scale. */
  lemma FullScaleOut(m: Pre.Memory)
    requires Settled(m)
    ensures Pre.Step(m, 32767).1 >= 32760
  {
    var lz2 := Pre.ExactOffset(-16384, m.lz2, 16380);
    SettledJump(m.lz2);
    SettledEmphasis(m.mp);
    var mp := (lz2 + 16384) / 0x8000;
    hide OffsetBounded, Pre.ExactOffset, MultR, Pre.Step;
    Pre.StepIs(m, 32767, lz2, mp, MultR(m.mp, -28180), Saturate(mp + MultR(m.mp, -28180)));
  }

  lemma SettledJump(l: int)
    requires -0x8000 <= l <= 0
    ensures 32763 <= (Pre.ExactOffset(-16384, l, 16380) + 16384) / 0x8000 <= 32764
  {
    Pre.RoundedLeak(l % 0x8000);
  }

  lemma SettledEmphasis(mp: Word)
    requires -1 <= mp <= 0
    ensures 0 <= MultR(mp, -28180) <= 1
  {
  }

  lemma LoudParts(a: nat, b: nat)
    ensures Loud(a + b) == Loud(a) + Loud(b)
  {
  }

  lemma FirstLoudStep()
    ensures Settling(Pre.Step(Pre.SILENCE, -32768).0)
  {
    Pre.SilentBound();
    Pre.FirstOffset(-16384);
    Pre.SilentProduct();
    hide Pre.Step, Pre.ExactOffset, MultR;
    Pre.StepIs(Pre.SILENCE, -32768, -16384 * 0x8000, -16384, 0, -16384);
  }

  /** From a codec just created, some whole number of frames less one sample settles the filter. */
  lemma LoudFramesSettle() returns (k: nat)
    ensures k > 0 && Settled(Run(Pre.Step, Pre.SILENCE, Loud(160 * k - 1)).0)
  {
    hide Pre.Step, Settling, Run, Pre.SILENCE;
    FirstLoudStep();
    var m := Pre.Step(Pre.SILENCE, -32768).0;
    var n := LoudSettles(m);
    k := n / 160 + 1;
    var more := 160 * k - 2 - n;
    if more < 0 {
      k := k + 1;
      more := more + 160;
    }
    LoudPrefix(Pre.SILENCE, 160 * k - 1);
    LoudParts(n, more);
    RunConcat(Pre.Step, m, Loud(n), Loud(more));
    LoudStaysSettled(Run(Pre.Step, m, Loud(n)).0, more);
  }

  /** A frame the coder receives and `s << scalauto` does not restore: loud samples for some frames, then one of
      32767 at the end of the last.  Pre-processing puts it out at 32760 or more, and rescaling makes it -32768. */
  lemma RescalingTurnsOver() returns (k: nat)
    ensures k > 0
    ensures var so := Run(Pre.Step, Pre.SILENCE, Loud(160 * k - 1) + [32767]).1;
            var frame := so[160 * k - 160..];
            |frame| == 160 && frame[159] >= 32760 && Lpc.Rescaled(frame)[159] == MIN_WORD
  {
    hide Pre.Step, Run, Pre.SILENCE;
    k := LoudFramesSettle();
    var input := Loud(160 * k - 1) + [32767];
    var so := Run(Pre.Step, Pre.SILENCE, input).1;
    var m := Run(Pre.Step, Pre.SILENCE, Loud(160 * k - 1)).0;
    assert input[..160 * k - 1] == Loud(160 * k - 1) && input[..160 * k] == input;
    RunSnoc(Pre.Step, Pre.SILENCE, input, 160 * k - 1);
    FullScaleOut(m);
    TurnedOver(so[160 * k - 160..], 159);
  }

  lemma TurnedOver(frame: seq<Word>, i: nat)
    requires i < |frame| && frame[i] >= 32760
    ensures Lpc.Rescaled(frame)[i] == MIN_WORD
  {
    Lpc.RescalingIsFaithfulIff(frame[i], MaxAbs(frame));
    hide MaxAbs, Lpc.ScaleFactor, Lpc.ScaleDown, Lpc.ScaleUp;
  }
}
