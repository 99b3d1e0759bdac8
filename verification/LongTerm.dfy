/** Long term prediction (gsm/long_term.c, integer version; sections 4.2.11, 4.2.12 and 4.3.2 of
    GSM 06.10). */
module LongTerm {
  import opened FixedPoint
  import opened GsmState
  import opened Rpe

  /** The last 120 words of the reconstructed residual: dp[-120..-1]. */
  type History = s: seq<Word> | |s| == 120 witness seq(120, _ => 0)

  const DLB: seq<Word> := [6554, 16384, 26214, 32767]
  const QLB: seq<Word> := [3277, 11469, 21299, 32767]

  // ----- 4.2.11 search for lag and gain

  /** `scal`.  A block of zeros gets 6, because `temp` is 0 when the norm is skipped. */
  function ScaleShift(dmax: Word): (scal: nat)
    requires 0 <= dmax
    ensures scal <= 6
  {
    var temp := if dmax == 0 then 0 else GsmNorm(dmax * 0x1_0000);
    NormOfMaximum(dmax);
    if temp > 6 then 0 else 6 - temp
  }

  lemma NormOfMaximum(dmax: Word)
    requires 0 <= dmax
    ensures dmax > 0 ==> 0 <= GsmNorm(dmax * 0x1_0000)
  {
    if dmax > 0 {
      NormOfPositive(dmax * 0x1_0000);
    }
  }

  /** wt[k] = SASR( d[k], scal ). */
  function WorkingBlock(d: Block): (wt: Block)
    ensures TenBit(wt)
  {
    var scal := ScaleShift(MaxAbs(d));
    forall k | 0 <= k < 40 ensures -512 <= Sasr(d[k], scal) <= 511 {
      ScaledSampleFits(d[k], MaxAbs(d));
    }
    hide Sasr;
    hide ScaleShift;
    seq(40, k requires 0 <= k < 40 => Sasr(d[k], scal))
  }

  lemma ScaleShiftTable(dmax: Word)
    requires 0 <= dmax
    ensures 0 < dmax < 512 ==> ScaleShift(dmax) == 0
    ensures 512 <= dmax < 1024 ==> ScaleShift(dmax) == 1
    ensures 1024 <= dmax < 2048 ==> ScaleShift(dmax) == 2
    ensures 2048 <= dmax < 4096 ==> ScaleShift(dmax) == 3
    ensures 4096 <= dmax < 8192 ==> ScaleShift(dmax) == 4
    ensures 8192 <= dmax < 16384 ==> ScaleShift(dmax) == 5
    ensures 16384 <= dmax || dmax == 0 ==> ScaleShift(dmax) == 6
  {
  }

  /** After the dynamic scaling ten bits are enough for every sample. */
  lemma ScaledSampleFits(x: Word, dmax: Word)
    requires GsmAbs(x) <= dmax
    ensures -512 <= Sasr(x, ScaleShift(dmax)) <= 511
  {
    ScaleShiftTable(dmax);
    hide ScaleShift;
    assert Pow2(0) == 1 && Pow2(1) == 2 && Pow2(2) == 4 && Pow2(3) == 8 && Pow2(4) == 16 && Pow2(5) == 32 && Pow2(6) == 64;
    hide Pow2;
  }

  /** The 40-term cross-correlation at lag `lambda`, first `n` terms. */
  function Cross(wt: Block, hist: History, lambda: nat, n: nat): int
    requires 40 <= lambda <= 120 && n <= 40
  {
    if n == 0 then 0 else Cross(wt, hist, lambda, n - 1) + Step(wt[n - 1], hist[120 + n - 1 - lambda])
  }

  predicate TenBit(wt: Block) {
    forall k :: 0 <= k < 40 ==> -512 <= wt[k] <= 511
  }

  /** Every partial sum of the correlation, and its double, fits 32 bits. */
  lemma {:induction false} CrossFits(wt: Block, hist: History, lambda: nat, n: nat)
    requires 40 <= lambda <= 120 && n <= 40 && TenBit(wt)
    ensures -(n * 0x100_0000) <= Cross(wt, hist, lambda, n) <= n * 0x100_0000
  {
    if n > 0 {
      CrossFits(wt, hist, lambda, n - 1);
      ProductBound(wt[n - 1], hist[120 + n - 1 - lambda], 512, 0x8000);
    }
  }

  /** The search loop over the lags 40 to `upto` - 1: (Nc, L_max). */
  function Search(wt: Block, hist: History, upto: nat): (r: (int, int))
    requires 40 <= upto <= 121
    ensures 40 <= r.0 <= 120 && (upto > 40 ==> r.0 < upto) && 0 <= r.1
  {
    if upto == 40 then (40, 0)
    else
      var (nc, lMax) := Search(wt, hist, upto - 1);
      var lResult := Cross(wt, hist, upto - 1, 40);
      if lResult > lMax then (upto - 1, lResult) else (nc, lMax)
  }

  /** What the search finds: the smallest lag with the greatest positive correlation, or lag 40 and
      zero when no correlation is positive. */
  lemma {:induction false} SearchFindsFirstMaximum(wt: Block, hist: History, upto: nat)
    requires 40 <= upto <= 121
    ensures var (nc, lMax) := Search(wt, hist, upto);
            && (forall l :: 40 <= l < upto ==> Cross(wt, hist, l, 40) <= lMax)
            && (lMax > 0 ==> Cross(wt, hist, nc, 40) == lMax
                             && forall l :: 40 <= l < nc ==> Cross(wt, hist, l, 40) < lMax)
            && (lMax == 0 ==> nc == 40)
  {
    hide Cross;
    if upto > 40 {
      SearchFindsFirstMaximum(wt, hist, upto - 1);
    }
  }

  lemma {:induction false} SearchFits(wt: Block, hist: History, upto: nat)
    requires 40 <= upto <= 121 && TenBit(wt)
    ensures Search(wt, hist, upto).1 <= 40 * 0x100_0000
  {
    hide Cross;
    if upto > 40 {
      SearchFits(wt, hist, upto - 1);
      CrossFits(wt, hist, upto - 1, 40);
    }
  }

  /** sum of (dp[k - Nc] >> 3)^2 over the first `n` samples. */
  function Power(hist: History, nc: int, n: nat): int
    requires 40 <= nc <= 120 && n <= 40
  {
    if n == 0 then 0 else Power(hist, nc, n - 1) + Square(hist[120 + n - 1 - nc] / 8)
  }

  lemma {:induction false} PowerFits(hist: History, nc: int, n: nat)
    requires 40 <= nc <= 120 && n <= 40
    ensures 0 <= Power(hist, nc, n) <= n * 0x100_0000
  {
    if n > 0 {
      PowerFits(hist, nc, n - 1);
      var t := hist[120 + n - 1 - nc] / 8;
      ProductBound(t, t, 4096, 4096);
    }
  }

  /** The coded gain: the number of decision levels, times the normalised power, that the
      normalised correlation exceeds. */
  function GainCode(r: Word, s: Word): (bc: Word)
    ensures 0 <= bc <= 3
    ensures forall b :: 0 <= b < bc ==> r > GsmMult(s, DLB[b])
    ensures bc < 3 ==> r <= GsmMult(s, DLB[bc])
  {
    hide GsmMult;
    if r <= GsmMult(s, DLB[0]) then 0
    else if r <= GsmMult(s, DLB[1]) then 1
    else if r <= GsmMult(s, DLB[2]) then 2
    else 3
  }

  /** The gain code from the rescaled maximum and the power. */
  function Gain(lMax: int, lPower: int): (bc: Word)
    requires 0 <= lPower <= MAX_LONGWORD
    ensures 0 <= bc <= 3
  {
    if lMax <= 0 then 0
    else if lMax >= lPower then 3
    else
      var temp := GsmNorm(lPower);
      NormOfPositive(lPower);
      GainCode(ToWord(lMax * Pow2(temp) / 0x1_0000), ToWord(lPower * Pow2(temp) / 0x1_0000))
  }

  /** Both normalised values are words: the correlation is the smaller, and the power fits. */
  lemma NormalisedGainFits(lMax: int, lPower: LongWord)
    requires 0 < lMax < lPower
    ensures 0 <= GsmNorm(lPower) <= 30
    ensures 0 <= lMax * Pow2(GsmNorm(lPower)) <= lPower * Pow2(GsmNorm(lPower)) <= MAX_LONGWORD
  {
    NormOfPositive(lPower);
    hide GsmNorm;
    MulMono(lMax, lPower, Pow2(GsmNorm(lPower)));
    MulMono(0, lMax, Pow2(GsmNorm(lPower)));
  }

  /** Lag and gain code for a block `d` against the history. */
  function LtpParameters(d: Block, hist: History): (r: (Word, Word))
    ensures 40 <= r.0 <= 120 && 0 <= r.1 <= 3
  {
    var wt := WorkingBlock(d);
    var (nc, lMax) := Search(wt, hist, 121);
    PowerFits(hist, nc, 40);
    var scal := ScaleShift(MaxAbs(d));
    (nc, Gain(Sasr(lMax * 2, 6 - scal), Power(hist, nc, 40) * 2))
  }

  /** Calculation_of_the_LTP_parameters for the block d[start..start + 40], with dp pointing at `dp0[dp]`. */
  method CalculationOfTheLtpParameters(d: array<Word>, start: nat, dp0: array<Word>, dp: nat) returns (bc: Word, nc: Word)
    requires start + 40 <= d.Length && 120 <= dp <= dp0.Length
    ensures (nc, bc) == LtpParameters(d[start..start + 40], dp0[dp - 120..dp])
  {
    hide Sasr;
    hide Gain;
    hide Search;
    hide Power;
    var wt := new Word[40];
    var scal := ScaleBlock(d, start, wt);
    ghost var w: Block, hist: History := wt[..], dp0[dp - 120..dp];
    var lMax;
    nc, lMax := SearchLag(wt, dp0, dp);
    SearchFits(w, hist, 121);
    lMax := lMax * 2;
    SasrShrinks(lMax, 6 - scal);
    lMax := Sasr(lMax, 6 - scal);
    PowerFits(hist, nc, 40);
    var lPower := PowerOf(dp0, dp, nc);
    bc := CodeGain(lMax, lPower);
  }

  /** The dynamic scaling and the initialization of the working array. */
  method ScaleBlock(d: array<Word>, start: nat, wt: array<Word>) returns (scal: nat)
    requires start + 40 <= d.Length && wt.Length == 40 && wt != d
    modifies wt
    ensures scal == ScaleShift(MaxAbs(d[start..start + 40]))
    ensures wt[..] == WorkingBlock(d[start..start + 40])
  {
    ghost var block: Block := d[start..start + 40];
    var dmax := MaximumOf(d, start);
    scal := ScaleShift(dmax);
    hide ScaleShift;
    hide Sasr;
    for k := 0 to 40
      invariant d[start..start + 40] == block
      invariant forall j :: 0 <= j < k ==> wt[j] == Sasr(block[j], scal)
    {
      assert d[start + k] == block[k];
      ScaledSampleFits(block[k], dmax);
      wt[k] := Sasr(d[start + k], scal);
    }
  }

  lemma SasrShrinks(x: LongWord, n: nat)
    requires 0 <= x
    ensures 0 <= Sasr(x, n) <= x
  {
    QuotientBetween(x, Pow2(n), 0, x + 1) by {
      MulMono(1, Pow2(n), x + 1);
    }
  }

  method MaximumOf(d: array<Word>, start: nat) returns (dmax: Word)
    requires start + 40 <= d.Length
    ensures dmax == MaxAbs(d[start..start + 40])
  {
    ghost var block := d[start..start + 40];
    dmax := 0;
    for k := 0 to 40
      invariant dmax == MaxAbs(block[..k])
    {
      assert block[..k + 1][..k] == block[..k];
      var temp := GsmAbs(d[start + k]);
      if temp > dmax { dmax := temp; }
    }
    assert block[..40] == block;
  }

  /** The search loop; the 40 STEPs of the source are the inner loop. */
  method SearchLag(wt: array<Word>, dp0: array<Word>, dp: nat) returns (nc: Word, lMax: LongWord)
    requires wt.Length == 40 && 120 <= dp <= dp0.Length && TenBit(wt[..])
    ensures (nc, lMax) == Search(wt[..], dp0[dp - 120..dp], 121)
  {
    ghost var w: Block, hist: History := wt[..], dp0[dp - 120..dp];
    lMax, nc := 0, 40;
    for lambda := 40 to 121
      invariant (nc, lMax) == Search(w, hist, lambda)
    {
      var lResult: LongWord := 0;
      for k := 0 to 40
        invariant lResult == Cross(w, hist, lambda, k)
      {
        CrossFits(w, hist, lambda, k + 1);
        assert dp0[dp + k - lambda] == hist[120 + k - lambda];
        lResult := lResult + Step(wt[k], dp0[dp + k - lambda]);
      }
      if lResult > lMax {
        nc := lambda;
        lMax := lResult;
      }
    }
  }

  method PowerOf(dp0: array<Word>, dp: nat, nc: Word) returns (lPower: LongWord)
    requires 120 <= dp <= dp0.Length && 40 <= nc <= 120
    ensures lPower == Power(dp0[dp - 120..dp], nc, 40) * 2
  {
    ghost var hist: History := dp0[dp - 120..dp];
    lPower := 0;
    for k := 0 to 40
      invariant lPower == Power(hist, nc, k)
    {
      PowerFits(hist, nc, k + 1);
      assert dp0[dp + k - nc] == hist[120 + k - nc];
      lPower := lPower + Square(dp0[dp + k - nc] / 8);
    }
    PowerFits(hist, nc, 40);
    lPower := lPower * 2;
  }

  /** Normalization and coding of the gain. */
  method CodeGain(lMax: LongWord, lPower: LongWord) returns (bc: Word)
    requires 0 <= lPower
    ensures bc == Gain(lMax, lPower)
  {
    hide GsmMult;
    if lMax <= 0 {
      return 0;
    }
    if lMax >= lPower {
      return 3;
    }
    NormalisedGainFits(lMax, lPower);
    var temp := GsmNorm(lPower);
    hide GsmNorm;
    var shiftedMax: LongWord := lMax * Pow2(temp);
    var shiftedPower: LongWord := lPower * Pow2(temp);
    var r: Word := shiftedMax / 0x1_0000;
    var s: Word := shiftedPower / 0x1_0000;
    bc := 0;
    while bc <= 2
      invariant 0 <= bc <= 3
      invariant forall b :: 0 <= b < bc ==> r > GsmMult(s, DLB[b])
      decreases 3 - bc
    {
      if r <= GsmMult(s, DLB[bc]) { break; }
      bc := bc + 1;
    }
    assert bc == GainCode(r, s);
  }

  // ----- 4.2.12 analysis, 4.3.2 synthesis

  /** The estimate dpp[0..39] that lag and gain make from the history. */
  function Estimate(hist: History, nc: Word, bc: Word): Block
    requires 40 <= nc <= 120 && 0 <= bc <= 3
  {
    seq(40, k requires 0 <= k < 40 => EstimateAt(hist, nc, bc, k))
  }

  function EstimateAt(hist: History, nc: Word, bc: Word, k: nat): Word
    requires 40 <= nc <= 120 && 0 <= bc <= 3 && k < 40
  {
    GsmMultR(QLB[bc], hist[120 + k - nc])
  }

  /** The residual left to code. */
  function Residual(d: Block, dpp: Block): Block
  {
    seq(40, k requires 0 <= k < 40 => GsmSub(d[k], dpp[k]))
  }

  /** The reconstructed residual: decoded pulses plus estimate, in GSM_ADD arithmetic. */
  function Reconstruct(ep: Block, dpp: Block): Block
  {
    seq(40, k requires 0 <= k < 40 => GsmAdd(ep[k], dpp[k]))
  }

  /** The residual handed to the RPE coder is what the estimate leaves of the block: adding the estimate
      again gives the block back exactly where the difference fits a word. */
  lemma ResidualIsDifference(d: Block, dpp: Block, k: nat)
    requires k < 40
    ensures var x := (d[k] as int) - dpp[k];
            && Residual(d, dpp)[k] == Saturate(x)
            && (GsmAdd(Residual(d, dpp)[k], dpp[k]) == d[k] <==> MIN_WORD <= x <= MAX_WORD)
  {
  }

  /** The estimate is the coded gain times the word `nc` samples back, to the nearest integer. */
  lemma EstimateIsScaledHistory(hist: History, nc: Word, bc: Word, k: nat)
    requires 40 <= nc <= 120 && 0 <= bc <= 3 && k < 40
    ensures var w := hist[120 - nc + k];
            Step(QLB[bc], w) - 16384 < 32768 * Estimate(hist, nc, bc)[k] <= Step(QLB[bc], w) + 16384
  {
    var w := hist[120 - nc + k];
    MultRFits(QLB[bc], w);
    assert Estimate(hist, nc, bc)[k] == MultR(QLB[bc], w);
    RoundedProduct(QLB[bc], w);
    hide Estimate, MultR, Step;
  }

  lemma RoundedProduct(a: Word, b: Word)
    ensures Step(a, b) - 16384 < 32768 * MultR(a, b) <= Step(a, b) + 16384
  {
  }

  /** Gsm_Long_Term_Predictor.  `dpp` and `dp` are the same pointer: the estimate is written where the
      reconstructed residual will go, and no lag is short enough to read it back. */
  method GsmLongTermPredictor(d: array<Word>, start: nat, dp0: array<Word>, dp: nat, e: array<Word>) returns (nc: Word, bc: Word)
    requires start + 40 <= d.Length && 120 <= dp && dp + 40 <= dp0.Length && e.Length == 50
    requires d != dp0 && d != e && dp0 != e
    modifies dp0, e
    ensures (nc, bc) == LtpParameters(d[start..start + 40], old(dp0[dp - 120..dp]))
    ensures var dpp := Estimate(old(dp0[dp - 120..dp]), nc, bc);
            && dp0[..] == old(dp0[..dp]) + dpp + old(dp0[dp + 40..])
            && e[..] == old(e[..5]) + Residual(d[start..start + 40], dpp) + old(e[45..])
  {
    hide LtpParameters;
    bc, nc := CalculationOfTheLtpParameters(d, start, dp0, dp);
    LongTermAnalysisFiltering(bc, nc, dp0, dp, d, start, e);
  }

  /** Long_term_analysis_filtering. */
  method LongTermAnalysisFiltering(bc: Word, nc: Word, dp0: array<Word>, dp: nat, d: array<Word>, start: nat, e: array<Word>)
    requires start + 40 <= d.Length && 120 <= dp && dp + 40 <= dp0.Length && e.Length == 50
    requires 40 <= nc <= 120 && 0 <= bc <= 3
    requires d != dp0 && d != e && dp0 != e
    modifies dp0, e
    ensures var dpp := Estimate(old(dp0[dp - 120..dp]), nc, bc);
            && dp0[..] == old(dp0[..dp]) + dpp + old(dp0[dp + 40..])
            && e[..] == old(e[..5]) + Residual(d[start..start + 40], dpp) + old(e[45..])
  {
    hide GsmMultR;
    ghost var hist: History, h0, e0 := dp0[dp - 120..dp], dp0[..], e[..];
    ghost var dpp := Estimate(hist, nc, bc);
    var bp: Word := if bc == 0 then 3277 else if bc == 1 then 11469 else if bc == 2 then 21299 else 32767;
    for k := 0 to 40
      invariant forall j :: 0 <= j < k ==> dp0[dp + j] == dpp[j] && e[5 + j] == GsmSub(d[start + j], dpp[j])
      invariant forall j :: 0 <= j < dp || dp + 40 <= j < dp0.Length ==> dp0[j] == h0[j]
      invariant forall j :: 0 <= j < 5 || 45 <= j < 50 ==> e[j] == e0[j]
    {
      assert dp0[dp + k - nc] == hist[120 + k - nc];
      dp0[dp + k] := GsmMultR(bp, dp0[dp + k - nc]);
      e[5 + k] := GsmSub(d[start + k], dp0[dp + k]);
    }
    assert dp0[..] == h0[..dp] + dpp + h0[dp + 40..];
    assert e[..] == e0[..5] + Residual(d[start..start + 40], dpp) + e0[45..];
  }

  /** The lag the decoder uses: an invalid one is replaced by the last valid one. */
  function EffectiveLag(ncr: Word, nrp: Word): Word
  {
    if ncr < 40 || ncr > 120 then nrp else ncr
  }

  /** The history after forty more words. */
  function Slide(hist: History, drp: Block): History
  {
    hist[40..] + drp
  }

  /** Gsm_Long_Term_Synthesis_Filtering: forty words are reconstructed behind the history, which is
      then shifted down in place. */
  method GsmLongTermSynthesisFiltering(S: Codec, ncr: Word, bcr: Word, erp: array<Word>)
    requires S.Valid() && 0 <= bcr <= 3 && erp.Length == 40 && erp !in S.Repr()
    modifies S`nrp, S.dp0
    ensures S.Valid()
    ensures S.nrp == EffectiveLag(ncr, old(S.nrp))
    ensures var drp := Reconstruct(erp[..], Estimate(old(S.dp0[..120]), S.nrp, bcr));
            S.dp0[120..160] == drp && S.dp0[..120] == Slide(old(S.dp0[..120]), drp)
  {
    hide GsmMultR;
    var nr := if ncr < 40 || ncr > 120 then S.nrp else ncr;
    S.nrp := nr;
    var brp := QLB[bcr];
    ghost var hist: History := S.dp0[..120];
    ghost var drp := Reconstruct(erp[..], Estimate(hist, nr, bcr));
    for k := 0 to 40
      invariant S.nrp == nr
      invariant forall j :: 0 <= j < k ==> S.dp0[120 + j] == drp[j]
      invariant forall j :: 0 <= j < 120 ==> S.dp0[j] == hist[j]
    {
      var drpp := GsmMultR(brp, S.dp0[120 + k - nr]);
      S.dp0[120 + k] := GsmAdd(erp[k], drpp);
    }
    hide Reconstruct, Estimate;
    assert S.dp0[..160] == hist + drp;
    ShiftHistory(S.dp0);
  }

  /** The second loop: the last 120 of the 160 words move to the front. */
  method ShiftHistory(dp0: array<Word>)
    requires dp0.Length == 280
    modifies dp0
    ensures dp0[..120] == old(dp0[40..160]) && dp0[120..160] == old(dp0[120..160])
  {
    ghost var w := dp0[..160];
    for k := 0 to 120
      invariant forall j :: 0 <= j < k ==> dp0[j] == w[j + 40]
      invariant forall j :: k <= j < 160 ==> dp0[j] == w[j]
    {
      dp0[k] := dp0[k + 40];
    }
  }
}
