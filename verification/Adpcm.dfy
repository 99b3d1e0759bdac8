/** The G.721 and G.723 coders and decoders (adpcm/g721.c, g723_24.c, g723_40.c).

  The six routines differ only in their tables, in one mask, and in one line: the G.721 encoder halves
  the sum of the two predictors before it is cut to 16 bits, all the others after.  Samples are 16-bit
  linear PCM (AUDIO_ENCODING_LINEAR).
 */
module Adpcm {
  import opened FixedPoint
  import opened G72x
  import opened Runs

  datatype Rate = G721 | G723_24 | G723_40

  // ----- tables

  const QTAB_721: seq<Word> := [-124, 80, 178, 246, 300, 349, 400]
  const QTAB_723_24: seq<Word> := [8, 218, 331]
  const QTAB_723_40: seq<Word> := [-122, -16, 68, 139, 198, 250, 298, 339, 378, 413, 445, 475, 502, 528, 553]

  const DQLN_721: seq<Word> :=
    [-2048, 4, 135, 213, 273, 323, 373, 425, 425, 373, 323, 273, 213, 135, 4, -2048]
  const DQLN_723_24: seq<Word> := [-2048, 135, 273, 373, 373, 273, 135, -2048]
  const DQLN_723_40: seq<Word> :=
    [-2048, -66, 28, 104, 169, 224, 274, 318, 358, 395, 429, 459, 488, 514, 539, 566,
     566, 539, 514, 488, 459, 429, 395, 358, 318, 274, 224, 169, 104, 28, -66, -2048]

  const WI_721: seq<Word> := [-12, 18, 41, 64, 112, 198, 355, 1122, 1122, 355, 198, 112, 64, 41, 18, -12]
  const WI_723_24: seq<Word> := [-128, 960, 4384, 18624, 18624, 4384, 960, -128]
  const WI_723_40: seq<Word> :=
    [448, 448, 768, 1248, 1280, 1312, 1856, 3200, 4512, 5728, 7008, 8960, 11456, 14080, 16928, 22272,
     22272, 16928, 14080, 11456, 8960, 7008, 5728, 4512, 3200, 1856, 1312, 1280, 1248, 768, 448, 448]

  const FI_721: seq<Word> :=
    [0, 0, 0, 0x200, 0x200, 0x200, 0x600, 0xE00, 0xE00, 0x600, 0x200, 0x200, 0x200, 0, 0, 0]
  const FI_723_24: seq<Word> := [0, 0x200, 0x400, 0xE00, 0xE00, 0x400, 0x200, 0]
  const FI_723_40: seq<Word> :=
    [0, 0, 0, 0, 0, 0x200, 0x200, 0x200, 0x200, 0x200, 0x400, 0x600, 0x800, 0xA00, 0xC00, 0xC00,
     0xC00, 0xC00, 0xA00, 0x800, 0x600, 0x400, 0x200, 0x200, 0x200, 0x200, 0x200, 0, 0, 0, 0, 0]

  function CodeSize(rate: Rate): int {
    match rate case G721 => 4 case G723_24 => 3 case G723_40 => 5
  }

  /** The sign bit of a code, 1 << (CodeSize - 1). */
  function SignBit(rate: Rate): (n: int)
    ensures n > 0
  {
    match rate case G721 => 8 case G723_24 => 4 case G723_40 => 16
  }

  function QTable(rate: Rate): (t: seq<Word>)
    ensures |t| == SignBit(rate) - 1
  {
    match rate case G721 => QTAB_721 case G723_24 => QTAB_723_24 case G723_40 => QTAB_723_40
  }

  predicate IsCode(rate: Rate, i: int) {
    0 <= i < 2 * SignBit(rate)
  }

  function Dqln(rate: Rate, i: int): (d: Word)
    requires IsCode(rate, i)
    ensures -2048 <= d <= (if rate.G723_40? then 566 else 425)
  {
    match rate case G721 => DQLN_721[i] case G723_24 => DQLN_723_24[i] case G723_40 => DQLN_723_40[i]
  }

  /** The scale factor multiplier, in the unit update() expects. */
  function Wi(rate: Rate, i: int): int
    requires IsCode(rate, i)
  {
    match rate case G721 => WI_721[i] * 32 case G723_24 => WI_723_24[i] as int case G723_40 => WI_723_40[i] as int
  }

  function Fi(rate: Rate, i: int): (f: int)
    requires IsCode(rate, i)
    ensures 0 <= f <= 0xE00
  {
    match rate case G721 => FI_721[i] as int case G723_24 => FI_723_24[i] as int case G723_40 => FI_723_40[i] as int
  }

  /** dq & 0x3FFF, or dq & 0x7FFF in the 40 kbit/s coder. */
  function Masked(rate: Rate, dq: Word): (m: int)
    ensures m >= 0
  {
    if rate.G723_40? then dq % 0x8000 else dq % 0x4000
  }

  // ----- the common half of encoder and decoder

  /** The predictor sum before it is cut to 16 bits. */
  function PredictorSum(s: Memory): int {
    ToWord(PredictorZero(s)) + PredictorPole(s)
  }

  predicate SumFits(s: Memory) {
    MIN_WORD <= PredictorSum(s) <= MAX_WORD
  }

  function EncoderEstimate(rate: Rate, s: Memory): Word {
    if rate.G721? then ToWord(PredictorSum(s) / 2) else ToWord(PredictorSum(s)) / 2
  }

  function DecoderEstimate(s: Memory): Word {
    ToWord(PredictorSum(s)) / 2
  }

  function Difference(rate: Rate, s: Memory, i: int): Word
    requires IsCode(rate, i)
  {
    ToWord(G72x.Reconstruct(i >= SignBit(rate), Dqln(rate, i), StepSize(s)))
  }

  /** ADDB. */
  function Signal(rate: Rate, se: Word, dq: Word): Word {
    if dq < 0 then ToWord(se - Masked(rate, dq)) else ToWord(se + dq)
  }

  /** ADDC: dqsez. */
  function PoleDifference(s: Memory, sr: Word, se: Word): Word {
    ToWord(sr + ToWord(PredictorZero(s)) / 2 - se)
  }

  /** What a code does to the state, given the estimate `se`: the new state and the reconstructed signal. */
  function Absorb(rate: Rate, s: Memory, se: Word, i: int): (Memory, Word)
    requires IsCode(rate, i)
  {
    var dq := Difference(rate, s, i);
    var sr := Signal(rate, se, dq);
    (Update(CodeSize(rate), StepSize(s), Wi(rate, i), Fi(rate, i), dq, sr, PoleDifference(s, sr, se), s), sr)
  }

  function EncoderCode(rate: Rate, s: Memory, sl: Word): (i: int)
    ensures 1 <= i < 2 * SignBit(rate)
  {
    Quantize(ToWord(sl / 4 - EncoderEstimate(rate, s)), StepSize(s), QTable(rate))
  }

  /** g721_encoder, g723_24_encoder, g723_40_encoder: the new state, and the code with the encoder's own
      reconstruction. */
  function EncodeStep(rate: Rate, s: Memory, sl: Word): (r: (Memory, (int, Word)))
    ensures 1 <= r.1.0 < 2 * SignBit(rate)
  {
    var i := EncoderCode(rate, s, sl);
    var (t, sr) := Absorb(rate, s, EncoderEstimate(rate, s), i);
    (t, (i, sr))
  }

  /** g721_decoder, g723_24_decoder, g723_40_decoder: the new state and the linear output. */
  function DecodeStep(rate: Rate, s: Memory, i: int): (Memory, int)
  {
    var (t, sr) := Absorb(rate, s, DecoderEstimate(s), i % (2 * SignBit(rate)));
    (t, sr * 4)
  }

  // ----- the invariant over all codes and samples

  lemma AbsorbKeepsInv(rate: Rate, s: Memory, se: Word, i: int)
    requires Inv(s) && IsCode(rate, i)
    ensures Inv(Absorb(rate, s, se, i).0)
  {
    hide CodeSize, Difference, Fi, Inv, IsCode, PoleDifference, Signal, StepSize, Update, Wi;
    var dq := Difference(rate, s, i);
    var sr := Signal(rate, se, dq);
    UpdateKeepsInv(CodeSize(rate), StepSize(s), Wi(rate, i), Fi(rate, i), dq, sr, PoleDifference(s, sr, se), s);
  }

  /** No sequence of codes, valid or not, takes a decoder out of the invariant. */
  lemma {:induction false} DecoderKeepsInv(rate: Rate, s: Memory, codes: seq<int>)
    requires Inv(s)
    ensures Inv(Run(Decoder(rate), s, codes).0)
  {
    hide Inv;
    hide Absorb;
    hide DecoderEstimate;
    hide SignBit;
    if codes != [] {
      var t := Run(Decoder(rate), s, codes[..|codes| - 1]).0;
      DecoderKeepsInv(rate, s, codes[..|codes| - 1]);
      AbsorbKeepsInv(rate, t, DecoderEstimate(t), codes[|codes| - 1] % (2 * SignBit(rate)));
    }
  }

  /** Nor does any sequence of samples take an encoder out of it. */
  lemma {:induction false} EncoderKeepsInv(rate: Rate, s: Memory, samples: seq<Word>)
    requires Inv(s)
    ensures Inv(Run(Encoder(rate), s, samples).0)
  {
    hide Inv;
    hide Absorb;
    hide EncoderEstimate;
    hide EncoderCode;
    if samples != [] {
      var t := Run(Encoder(rate), s, samples[..|samples| - 1]).0;
      EncoderKeepsInv(rate, s, samples[..|samples| - 1]);
      var sl := samples[|samples| - 1];
      AbsorbKeepsInv(rate, t, EncoderEstimate(rate, t), EncoderCode(rate, t, sl));
    }
  }

  /** From the initial state no run of codes or samples ever leaves the invariant. */
  lemma RunsStayInInv(rate: Rate, codes: seq<int>, samples: seq<Word>)
    ensures Inv(Run(Decoder(rate), START, codes).0)
    ensures Inv(Run(Encoder(rate), START, samples).0)
  {
    assert Inv(START);
    DecoderKeepsInv(rate, START, codes);
    EncoderKeepsInv(rate, START, samples);
    hide *;
  }

  // ----- what the invariant buys: no negative shift, no lost bit

  /** The log magnitude of a code at step size `y`, ADDA. */
  function LogMagnitude(rate: Rate, y: int, i: int): int
    requires IsCode(rate, i)
  {
    Dqln(rate, i) + y / 4
  }

  /** reconstruct() never shifts by a negative count. */
  lemma ShiftCountsAreNonNegative(rate: Rate, s: Memory, i: int)
    requires Inv(s) && IsCode(rate, i)
    ensures var dql := LogMagnitude(rate, StepSize(s), i);
            ToWord(dql) == dql && dql / 128 <= (if rate.G723_40? then 14 else 13)
  {
    StepSizeRange(s);
    hide StepSize;
  }

  /** ANTILOG; 0 when the log is negative. */
  function Antilog(dql: int): int {
    if 0 <= dql < 1920 then (128 + dql % 128) * 128 / Pow2(14 - dql / 128) else 0
  }

  lemma AntilogRange(dql: int)
    requires 0 <= dql < 1920
    ensures Pow2(dql / 128) <= Antilog(dql) < Pow2(dql / 128 + 1) <= 0x8000
  {
    var e := dql / 128;
    Pow2Add(e, 14 - e);
    Pow2Add(e + 1, 14 - e);
    Pow2Monotonic(e + 1, 15);
    Pow2Values();
    hide Pow2;
    QuotientBetween((128 + dql % 128) * 128, Pow2(14 - e), Pow2(e), Pow2(e + 1));
  }

  /** In the invariant, reconstruct() is sign and antilog. */
  lemma ReconstructIsAntilog(sign: bool, dqln: Word, y: int)
    requires 544 <= y <= 5120 && -2048 <= dqln <= 566
    ensures var m := Antilog(dqln + y / 4);
            && 0 <= m < 0x8000 && (dqln <= 425 ==> m < 0x4000)
            && G72x.Reconstruct(sign, dqln, y) == if sign then m - 0x8000 else m
  {
    var dql := dqln + y / 4;
    if dql >= 0 {
      AntilogRange(dql);
      Pow2Values();
      if dqln <= 425 {
        Pow2Monotonic(dql / 128 + 1, 14);
      }
      hide Pow2;
      SmallExponent(dql);
    }
  }

  lemma SmallExponent(dql: int)
    requires 0 <= dql < 1920
    ensures dql / 128 % 16 == dql / 128 <= 14
  {
  }

  lemma MaskedIsMagnitude(rate: Rate, m: int)
    requires 0 <= m < 0x8000 && (!rate.G723_40? ==> m < 0x4000)
    ensures Masked(rate, m - 0x8000) == m
  {
  }

  lemma SignalOf(rate: Rate, se: Word, sign: bool, m: int)
    requires 0 <= m < 0x8000 && (!rate.G723_40? ==> m < 0x4000)
    ensures Signal(rate, se, if sign then m - 0x8000 else m) == ToWord(if sign then se - m else se + m)
  {
    MaskedIsMagnitude(rate, m);
    hide Masked;
  }

  /** The mask keeps the whole magnitude: the signal is the estimate plus or minus the antilog. */
  lemma MaskLosesNothing(rate: Rate, s: Memory, se: Word, i: int)
    requires Inv(s) && IsCode(rate, i)
    ensures var m := Antilog(LogMagnitude(rate, StepSize(s), i));
            Signal(rate, se, Difference(rate, s, i)) == ToWord(if i >= SignBit(rate) then se - m else se + m)
  {
    var sign := i >= SignBit(rate);
    var m := Antilog(LogMagnitude(rate, StepSize(s), i));
    hide *;
    assert 0 <= m < 0x8000 && (!rate.G723_40? ==> m < 0x4000) && Difference(rate, s, i) == if sign then m - 0x8000 else m by {
      DifferenceIsAntilog(rate, s, i);
    }
    SignalOf(rate, se, sign, m);
  }

  lemma DifferenceIsAntilog(rate: Rate, s: Memory, i: int)
    requires Inv(s) && IsCode(rate, i)
    ensures var m := Antilog(LogMagnitude(rate, StepSize(s), i));
            && 0 <= m < 0x8000 && (!rate.G723_40? ==> m < 0x4000)
            && Difference(rate, s, i) == if i >= SignBit(rate) then m - 0x8000 else m
  {
    hide Antilog, Dqln, Inv, IsCode, Reconstruct, SignBit, StepSize, ToWord;
    var m := Antilog(LogMagnitude(rate, StepSize(s), i));
    StepSizeRange(s);
    ReconstructIsAntilog(i >= SignBit(rate), Dqln(rate, i), StepSize(s));
    WordOfWord(m);
    WordOfWord(m - 0x8000);
  }

  lemma WordOfWord(x: int)
    requires -0x8000 <= x < 0x8000
    ensures ToWord(x) == x
  {
  }

  // ----- lockstep

  /** The signal follows the estimate around the 16-bit circle. */
  lemma SignalTurns(rate: Rate, se: Word, te: Word, dq: Word)
    requires (se - te) % 0x1_0000 == 0x8000
    ensures (Signal(rate, se, dq) < 0) != (Signal(rate, te, dq) < 0)
    ensures (Signal(rate, se, dq) - Signal(rate, te, dq)) % 0x1_0000 == 0x8000
  {
    hide Masked, ToWord;
    var m := if dq < 0 then -Masked(rate, dq) else dq as int;
    assert (se + m) - (te + m) == se - te;
    Turned(se + m, te + m);
    assert Signal(rate, se, dq) == ToWord(se + m) && Signal(rate, te, dq) == ToWord(te + m);
  }

  lemma Turned(x: int, y: int)
    requires (x - y) % 0x1_0000 == 0x8000
    ensures (ToWord(x) < 0) != (ToWord(y) < 0)
    ensures (ToWord(x) - ToWord(y)) % 0x1_0000 == 0x8000
  {
  }

  /** Halving before or after the cut agrees exactly when nothing is cut. */
  lemma HalvesAgreeIffFits(sum: int)
    requires -0x1_8000 <= sum < 0x1_8000
    ensures MIN_WORD <= sum <= MAX_WORD ==> ToWord(sum / 2) == ToWord(sum) / 2
    ensures !(MIN_WORD <= sum <= MAX_WORD) ==> (ToWord(sum / 2) - ToWord(sum) / 2) % 0x1_0000 == 0x8000
  {
    if sum < MIN_WORD {
      assert ToWord(sum) == sum + 0x1_0000;
    } else if sum > MAX_WORD {
      assert ToWord(sum) == sum - 0x1_0000;
    }
  }

  /** One sample: encoder and decoder agree, on the signal and on the whole state, unless the G.721
      encoder's predictor sum leaves 16 bits; then they disagree on both. */
  lemma SampleLockstep(rate: Rate, s: Memory, sl: Word)
    ensures var e := EncodeStep(rate, s, sl);
            var d := DecodeStep(rate, s, e.1.0);
            && (d.1 == 4 * e.1.1 <==> !rate.G721? || SumFits(s))
            && (d.0 == e.0 <==> !rate.G721? || SumFits(s))
  {
    hide Absorb, DecoderEstimate, EncoderCode, EncoderEstimate, SignBit, SumFits;
    var i := EncoderCode(rate, s, sl);
    SmallRemainder(i, 2 * SignBit(rate));
    EstimatesAgreeIffFits(rate, s);
    if !(!rate.G721? || SumFits(s)) {
      AbsorbTellsEstimatesApart(rate, s, EncoderEstimate(rate, s), DecoderEstimate(s), i);
    }
  }

  lemma EstimatesAgreeIffFits(rate: Rate, s: Memory)
    ensures !rate.G721? || SumFits(s) ==> EncoderEstimate(rate, s) == DecoderEstimate(s)
    ensures !(!rate.G721? || SumFits(s)) ==> (EncoderEstimate(rate, s) - DecoderEstimate(s)) % 0x1_0000 == 0x8000
  {
    hide PredictorSum, ToWord;
    if rate.G721? {
      SumIsModest(s);
      HalvesAgreeIffFits(PredictorSum(s));
    }
  }

  lemma AbsorbTellsEstimatesApart(rate: Rate, s: Memory, se: Word, te: Word, i: int)
    requires IsCode(rate, i) && (se - te) % 0x1_0000 == 0x8000
    ensures Absorb(rate, s, se, i).1 != Absorb(rate, s, te, i).1
    ensures Absorb(rate, s, se, i).0 != Absorb(rate, s, te, i).0
  {
    hide CodeSize, Delayed, Difference, Fi, FloatDq, FloatSr, IsCode, IsFloat, Leak, NextA0, NextA1;
    hide NextAp, NextDml, NextDms, NextTd, NextYl, NextYu, NextZeros, Pair, PoleDifference, Signal;
    hide StepSize, Transition, Wi;
    var dq := Difference(rate, s, i);
    SignalTurns(rate, se, te, dq);
    SrIsFloat(Signal(rate, se, dq));
    SrIsFloat(Signal(rate, te, dq));
    assert Absorb(rate, s, se, i).0.sr[0] == FloatSr(Signal(rate, se, dq));
    assert Absorb(rate, s, te, i).0.sr[0] == FloatSr(Signal(rate, te, dq));
  }

  lemma SumIsModest(s: Memory)
    ensures -0x1_8000 <= PredictorSum(s) < 0x1_8000
  {
    hide Fmult;
  }

  function Encoder(rate: Rate): (Memory, Word) -> (Memory, (int, Word)) {
    (s: Memory, sl: Word) => EncodeStep(rate, s, sl)
  }

  function Decoder(rate: Rate): (Memory, int) -> (Memory, int) {
    (s: Memory, i: int) => DecodeStep(rate, s, i)
  }

  function Codes(outs: seq<(int, Word)>): (codes: seq<int>)
    ensures |codes| == |outs|
  {
    seq(|outs|, k requires 0 <= k < |outs| => outs[k].0)
  }

  /** The encoder's own reconstruction, in the decoder's 16-bit range. */
  function Signals(outs: seq<(int, Word)>): (signals: seq<int>)
    ensures |signals| == |outs|
  {
    seq(|outs|, k requires 0 <= k < |outs| => 4 * (outs[k].1 as int))
  }

  /** The predictor sum fits 16 bits before every sample of the run; only G.721 asks. */
  predicate NeverCut(rate: Rate, s: Memory, samples: seq<Word>) {
    samples == [] ||
    var before := samples[..|samples| - 1];
    NeverCut(rate, s, before) && (!rate.G721? || SumFits(Run(Encoder(rate), s, before).0))
  }

  /** Over a whole run from equal states the decoder's output is the encoder's own reconstruction exactly
      when no predictor sum is cut, and then the states are equal too. */
  lemma {:induction false} RunLockstep(rate: Rate, s: Memory, samples: seq<Word>)
    ensures var (t, outs) := Run(Encoder(rate), s, samples);
            var (d, signals) := Run(Decoder(rate), s, Codes(outs));
            && (signals == Signals(outs) <==> NeverCut(rate, s, samples))
            && (NeverCut(rate, s, samples) ==> d == t)
  {
    hide Decoder, Encoder, SumFits;
    if samples != [] {
      var n := |samples| - 1;
      var (t, outs) := Run(Encoder(rate), s, samples[..n]);
      RunLockstep(rate, s, samples[..n]);
      StepLockstep(rate, t, samples[n]);
      var o := Encoder(rate)(t, samples[n]).1;
      assert Codes(outs + [o])[..n] == Codes(outs) && Codes(outs + [o])[n] == o.0;
      assert Signals(outs + [o]) == Signals(outs) + [4 * (o.1 as int)];
      var (d, signals) := Run(Decoder(rate), s, Codes(outs));
      var last := Decoder(rate)(d, o.0).1;
      assert (signals + [last])[..n] == signals && (signals + [last])[n] == last;
      assert Signals(outs + [o])[..n] == Signals(outs) && Signals(outs + [o])[n] == 4 * (o.1 as int);
    }
  }

  lemma StepLockstep(rate: Rate, s: Memory, sl: Word)
    ensures var e := Encoder(rate)(s, sl);
            var d := Decoder(rate)(s, e.1.0);
            && (d.1 == 4 * (e.1.1 as int) <==> !rate.G721? || SumFits(s))
            && (d.0 == e.0 <==> !rate.G721? || SumFits(s))
  {
    SampleLockstep(rate, s, sl);
    hide DecodeStep, EncodeStep, SumFits;
  }

  /** G.723 is in lockstep whatever the samples. */
  lemma {:induction false} G723NeverCut(rate: Rate, s: Memory, samples: seq<Word>)
    requires !rate.G721?
    ensures NeverCut(rate, s, samples)
  {
    if samples != [] {
      G723NeverCut(rate, s, samples[..|samples| - 1]);
    }
  }

  // ----- the routines on the mutable state

  /** The shared tail: reconstruct the difference, form the signal, and adapt. */
  method AbsorbCode(rate: Rate, S: G72xState, se: Word, sez: Word, y: int, i: int) returns (sr: Word)
    requires S.Valid() && IsCode(rate, i)
    requires sez == ToWord(PredictorZero(S.View())) / 2 && y == StepSize(S.View())
    modifies S.Repr()
    ensures (S.View(), sr) == Absorb(rate, old(S.View()), se, i)
  {
    hide CodeSize, Dqln, Fi, G72xState.Repr, G72xState.Valid, G72xState.View, IsCode, Masked;
    hide PredictorZero, Reconstruct, SignBit, StepSize, ToWord, Update, Wi, Absorb;
    ghost var s := S.View();
    var dq := ToWord(G72x.Reconstruct(i >= SignBit(rate), Dqln(rate, i), y));
    sr := if dq < 0 then ToWord(se - Masked(rate, dq)) else ToWord(se + dq);
    var dqsez := ToWord(sr + sez - se);
    AbsorbIs(rate, s, se, i, dq, sr, dqsez);
    S.Adapt(CodeSize(rate), y, Wi(rate, i), Fi(rate, i), dq, sr, dqsez);
  }

  lemma AbsorbIs(rate: Rate, s: Memory, se: Word, i: int, dq: Word, sr: Word, dqsez: Word)
    requires IsCode(rate, i) && dq == Difference(rate, s, i) && sr == Signal(rate, se, dq) && dqsez == PoleDifference(s, sr, se)
    ensures Absorb(rate, s, se, i) == (Update(CodeSize(rate), StepSize(s), Wi(rate, i), Fi(rate, i), dq, sr, dqsez, s), sr)
  {
    hide Difference, Signal, PoleDifference, Update, IsCode, StepSize, Wi, Fi, CodeSize;
  }

  /** g721_encoder, g723_24_encoder, g723_40_encoder. */
  method Encode(rate: Rate, S: G72xState, sl: Word) returns (i: int)
    requires S.Valid()
    modifies S.Repr()
    ensures S.View() == EncodeStep(rate, old(S.View()), sl).0
    ensures i == EncodeStep(rate, old(S.View()), sl).1.0
  {
    hide Absorb, G72xState.Valid, G72xState.View, PredictorPole, PredictorZero, QTable, Quantize;
    hide SignBit, StepSize, ToWord;
    var sum := S.SumZeros();
    var pole := S.SumPoles();
    var y := S.Mix();
    var sezi := ToWord(sum);
    var se := if rate.G721? then ToWord((sezi + pole) / 2) else ToWord(sezi + pole) / 2;
    i := Quantize(ToWord(sl / 4 - se), y, QTable(rate));
    var _ := AbsorbCode(rate, S, se, sezi / 2, y, i);
  }

  /** g721_decoder, g723_24_decoder, g723_40_decoder. */
  method Decode(rate: Rate, S: G72xState, code: int) returns (sl: int)
    requires S.Valid()
    modifies S.Repr()
    ensures (S.View(), sl) == DecodeStep(rate, old(S.View()), code)
  {
    hide Absorb, G72xState.Valid, G72xState.View, PredictorPole, PredictorZero, SignBit, StepSize;
    hide ToWord;
    var i := code % (2 * SignBit(rate));
    var sum := S.SumZeros();
    var pole := S.SumPoles();
    var y := S.Mix();
    var sezi := ToWord(sum);
    var se := ToWord(sezi + pole) / 2;
    var sr := AbsorbCode(rate, S, se, sezi / 2, y, i);
    sl := (sr as int) * 4;
  }

  // ----- a state of G.721 whose sum is cut

  /** Inside the invariant, and its predictor sum is 30208 + 28416. */
  const LOUD: Memory := INITIAL.(a := [15360, 0], b := [32767, 0, 0, 0, 0, 0], dq := [1023, 32, 32, 32, 32, 32], sr := [1023, 32])

  lemma BitLengthIs(x: int, n: nat)
    requires 1 <= n <= 15 && Pow2(n - 1) <= x < Pow2(n) && x < 0x8000
    ensures BitLength(x) == n
  {
    var m := BitLength(x);
    BitLengthBrackets(x);
    if m < n {
      Pow2Monotonic(m, n - 1);
    } else if m > n {
      Pow2Monotonic(n, m - 1);
    }
  }

  lemma ZeroTimesFloat()
    ensures Fmult(0, 32) == 0
  {
    assert BitLength(0) == 0 by { BitLengthBrackets(0); }
    assert Pow2(19) > 67 by { Pow2HighValues(); }
    hide BitLength;
    assert Product(32, 32) == 67;
    assert Pow2(6) == 64 by { Pow2Values(); }
    DivUnique(67, Pow2(19), 0);
  }

  lemma LoudProducts()
    ensures Fmult(8191, 1023) == 30208 && Fmult(3840, 1023) == 28416
  {
    Pow2Values();
    BitLengthIs(8191, 13);
    BitLengthIs(3840, 12);
    hide BitLength;
    assert SixBits(8191) == 63 && SixBits(3840) == 60;
    hide SixBits;
    assert Product(63, 63) == 251 && Product(60, 63) == 239;
    hide Product;
  }

  /** The lockstep of G.721 is not unconditional on the states that the invariant allows. */
  lemma LoudStateFallsOutOfStep(sl: Word)
    ensures Inv(LOUD) && PredictorSum(LOUD) == 58624
    ensures var e := EncodeStep(G721, LOUD, sl);
            DecodeStep(G721, LOUD, e.1.0).1 != 4 * e.1.1
  {
    SampleLockstep(G721, LOUD, sl);
    ZeroTimesFloat();
    LoudProducts();
    hide Fmult;
    hide EncodeStep;
    hide DecodeStep;
    assert ZeroSum(LOUD, 1) == 30208;
    assert ZeroSum(LOUD, 2) == 30208;
    assert ZeroSum(LOUD, 3) == 30208;
    assert ZeroSum(LOUD, 4) == 30208;
    assert ZeroSum(LOUD, 5) == 30208;
  }

  // ----- a code decoded and quantized again

  /** The least bit of a logarithm that the antilogarithm keeps: below seven whole bits, mantissa bits are
      shifted out. */
  function KeptUnit(dql: int): (p: int)
    ensures p > 0
  {
    if 0 <= dql < 896 then Pow2(7 - dql / 128) else 1
  }

  /** LOG undoes ANTILOG up to the mantissa bits shifted out, so exactly from seven whole bits on. */
  lemma LogOfAntilog(dql: int)
    requires 0 <= dql < 1920
    ensures 0 < Antilog(dql) < 0x8000
    ensures Log(Antilog(dql)) == dql - dql % KeptUnit(dql)
  {
    hide Antilog, BitLength, Pow2, ToWord;
    if dql >= 896 {
      ExponentOfAntilog(dql);
      MantissaOfAntilog(dql);
      Pow2Values();
      WordOfWord(dql);
    } else {
      LogOfShortAntilog(dql);
    }
  }

  lemma LogOfShortAntilog(dql: int)
    requires 0 <= dql < 896
    ensures 0 < Antilog(dql) < 0x8000
    ensures Log(Antilog(dql)) == dql - dql % Pow2(7 - dql / 128)
  {
    var e, m := dql / 128, dql % 128;
    var p := Pow2(7 - e);
    ShortAntilog(e, m);
    ShortBitLength(dql);
    Pow2Add(7 - e, e);
    Pow2Values();
    hide Antilog, BitLength, Pow2;
    var q := (128 + m) / p;
    MantissaOfShort(m, p, Pow2(e), q);
    RemainderAboveOctaves(e, m, p, Pow2(e));
    WordOfWord(e * 128 + (m - m % p));
  }

  lemma ShortAntilog(e: int, m: int)
    requires 0 <= e < 7 && 0 <= m < 128
    ensures Antilog(e * 128 + m) == (128 + m) / Pow2(7 - e)
  {
    assert (e * 128 + m) / 128 == e && (e * 128 + m) % 128 == m;
    Pow2Add(7 - e, 7);
    assert Pow2(7) == 128 by { Pow2Values(); }
    hide Pow2;
    assert Antilog(e * 128 + m) == (128 + m) * 128 / Pow2(14 - e);
    hide Antilog;
    QuotientOfMultiples(128 + m, Pow2(7 - e));
  }

  lemma QuotientOfMultiples(x: int, p: int)
    requires p > 0
    ensures x * 128 / (p * 128) == x / p
  {
    QuotientBrackets(x, p);
    DivUnique(x * 128, p * 128, x / p);
  }

  lemma ShortBitLength(dql: int)
    requires 0 <= dql < 896
    ensures 0 < Antilog(dql) < 0x8000 && BitLength(Antilog(dql) / 2) == dql / 128
  {
    var e := dql / 128;
    AntilogRange(dql);
    Pow2Values();
    hide Antilog;
    if e > 0 {
      Pow2Add(1, e - 1);
      Pow2Add(1, e);
      Pow2Monotonic(e + 1, 8);
      hide Pow2;
      HalfBrackets(Antilog(dql), Pow2(e - 1));
      BitLengthIs(Antilog(dql) / 2, e);
    } else {
      BitLengthBrackets(0);
    }
  }

  /** What is left of the mantissa after shifting right by `p` and back. */
  lemma MantissaOfShort(m: int, p: int, d: int, q: int)
    requires 0 <= m < 128 && p > 0 && d > 0 && p * d == 128 && q == (128 + m) / p
    ensures q * 128 / d == 128 + m - (128 + m) % p
    ensures q * 128 / d % 128 == m - (128 + m) % p
  {
    ShiftedBack(128 + m, p, d, q);
    QuotientBrackets(128 + m, p);
    var r := (128 + m) % p;
    assert 0 <= r < p <= 128 by { MulMono(1, d, p); }
    hide *;
    AboveTheOne(m, p, d, r);
  }

  lemma ShiftedBack(x: int, p: int, d: int, q: int)
    requires p > 0 && d > 0 && p * d == 128 && q == x / p
    ensures q * 128 / d == x - x % p
  {
    MulAssoc(q, p, d);
    DivUnique(q * 128, d, q * p);
  }

  /** The part kept is at least 128, because `p` divides 128. */
  lemma AboveTheOne(m: int, p: int, d: int, r: int)
    requires 0 <= m < 128 && 0 < p && p * d == 128 && r == (128 + m) % p
    ensures (128 + m - r) % 128 == m - r
  {
    RemainderOfShifted(m, p, d);
    QuotientBrackets(m, p);
    assert 0 <= m - r < 128 by { RemainderBelow(m, p); }
  }

  lemma RemainderBelow(m: int, p: int)
    requires 0 <= m && 0 < p
    ensures 0 <= m % p <= m
  {
    if m < p {
      DivUnique(m, p, 0);
    }
  }

  /** 128 and every multiple of it are multiples of `p`. */
  lemma RemainderAboveOctaves(e: int, m: int, p: int, d: int)
    requires p > 0 && p * d == 128
    ensures (128 + m) % p == m % p && (e * 128 + m) % p == m % p
  {
    RemainderOfShifted(m, p, d);
    MulAssoc(e, d, p);
    RemainderOfShifted(m, p, e * d);
  }

  lemma RemainderOfShifted(m: int, p: int, k: int)
    requires p > 0
    ensures (k * p + m) % p == m % p
  {
    QuotientBrackets(m, p);
    Distribute(k, m / p, p);
    DivUnique(k * p + m, p, k + m / p);
  }

  lemma ExponentOfAntilog(dql: int)
    requires 896 <= dql < 1920
    ensures 128 <= Antilog(dql) < 0x8000 && BitLength(Antilog(dql) / 2) == dql / 128
  {
    hide *;
    var e := dql / 128;
    AntilogRange(dql);
    Pow2Values();
    Pow2Monotonic(7, e);
    Pow2Add(1, e - 1);
    Pow2Add(1, e);
    HalfBrackets(Antilog(dql), Pow2(e - 1));
    BitLengthIs(Antilog(dql) / 2, e);
  }

  lemma MantissaOfAntilog(dql: int)
    requires 896 <= dql < 1920
    ensures Antilog(dql) * 128 / Pow2(dql / 128) == 128 + dql % 128
  {
    hide *;
    var e := dql / 128;
    var m := dql % 128;
    AntilogIsShift(e, m);
    assert Pow2(7) == 128 by { Pow2Values(); }
    Pow2Add(e - 7, 7);
    MulAssoc(128 + m, Pow2(e - 7), 128);
    DivUnique(Antilog(dql) * 128, Pow2(e), 128 + m);
  }

  lemma HalfBrackets(x: int, p: int)
    requires 2 * p <= x < 4 * p
    ensures p <= x / 2 < 2 * p
  {
  }

  lemma AntilogIsShift(e: int, m: int)
    requires 7 <= e <= 14 && 0 <= m < 128
    ensures Antilog(e * 128 + m) == (128 + m) * Pow2(e - 7)
  {
    Pow2Add(e - 7, 14 - e);
    assert Pow2(7) == 128 by { Pow2Values(); }
    assert (e * 128 + m) / 128 == e && (e * 128 + m) % 128 == m;
    hide Pow2;
    MulAssoc(128 + m, Pow2(e - 7), Pow2(14 - e));
    DivUnique((128 + m) * 128, Pow2(14 - e), (128 + m) * Pow2(e - 7));
  }

  /** The magnitude part of a code: negative codes are complemented. */
  function Level(rate: Rate, i: int): (j: int)
    requires IsCode(rate, i)
    ensures 0 <= j <= |QTable(rate)|
  {
    if i >= SignBit(rate) then 2 * SignBit(rate) - 1 - i else i
  }

  lemma QuanIs(val: int, table: seq<Word>, j: nat)
    requires j <= |table|
    requires j > 0 ==> table[j - 1] <= val
    requires j < |table| ==> val < table[j]
    requires forall k, l :: 0 <= k < l < |table| ==> table[k] < table[l]
    ensures Quan(val, table) == j
  {
    assert Quan(val, table) <= |table|;
  }

  lemma TablesIncrease(rate: Rate, k: nat, l: nat)
    requires k < l < |QTable(rate)|
    ensures QTable(rate)[k] < QTable(rate)[l]
  {
    if l > k + 1 {
      TablesIncrease(rate, k, l - 1);
    }
  }

  /** Every reconstruction level lies in its own decision interval. */
  lemma LevelInItsInterval(rate: Rate, i: int)
    requires IsCode(rate, i)
    ensures Quan(Dqln(rate, i), QTable(rate)) == Level(rate, i)
  {
    hide *;
    LevelBrackets(rate, i);
    forall k: nat, l: nat | k < l < |QTable(rate)| ensures QTable(rate)[k] < QTable(rate)[l] {
      TablesIncrease(rate, k, l);
    }
    QuanIs(Dqln(rate, i), QTable(rate), Level(rate, i));
  }

  lemma LevelBrackets(rate: Rate, i: int)
    requires IsCode(rate, i)
    ensures var j := Level(rate, i);
            && (j > 0 ==> QTable(rate)[j - 1] <= Dqln(rate, i))
            && (j < |QTable(rate)| ==> Dqln(rate, i) < QTable(rate)[j])
  {
    match rate
    case G721 => Brackets721(i);
    case G723_24 => Brackets24(i);
    case G723_40 => Brackets40(i);
  }

  lemma Brackets721(i: int)
    requires 0 <= i < 16
    ensures var j := if i >= 8 then 15 - i else i;
            (j > 0 ==> QTAB_721[j - 1] <= DQLN_721[i]) && (j < 7 ==> DQLN_721[i] < QTAB_721[j])
  {
  }

  lemma Brackets24(i: int)
    requires 0 <= i < 8
    ensures var j := if i >= 4 then 7 - i else i;
            (j > 0 ==> QTAB_723_24[j - 1] <= DQLN_723_24[i]) && (j < 3 ==> DQLN_723_24[i] < QTAB_723_24[j])
  {
  }

  lemma Brackets40(i: int)
    requires 0 <= i < 32
    ensures var j := if i >= 16 then 31 - i else i;
            (j > 0 ==> QTAB_723_40[j - 1] <= DQLN_723_40[i]) && (j < 15 ==> DQLN_723_40[i] < QTAB_723_40[j])
  {
  }

  /** The code of the reconstructed difference of code `i` at step size `y`. */
  function Recoded(rate: Rate, y: int, i: int): int
    requires 544 <= y <= 5120 && IsCode(rate, i)
  {
    var m := Antilog(LogMagnitude(rate, y, i));
    Quantize(ToWord(if i >= SignBit(rate) then -m else m), y, QTable(rate))
  }

  /** Coding a reconstructed difference again gives the same code exactly when the mantissa bits that the
      antilogarithm shifts out are less than the distance of the level from the threshold below it; where
      the logarithm is negative nothing is left, and only the code of zero comes back. */
  lemma CodesAreStableIff(rate: Rate, y: int, i: int)
    requires 544 <= y <= 5120 && IsCode(rate, i)
    ensures var dql := LogMagnitude(rate, y, i);
            && (dql >= 0 ==> Level(rate, i) > 0)
            && (Recoded(rate, y, i) == i <==>
                if dql < 0 then i == 2 * SignBit(rate) - 1
                else dql % KeptUnit(dql) <= Dqln(rate, i) - QTable(rate)[Level(rate, i) - 1])
  {
    var dql := LogMagnitude(rate, y, i);
    if dql < 0 {
      NothingRecoded(rate, y, i);
    } else {
      SomethingRecoded(rate, y, i);
    }
  }

  lemma NothingRecoded(rate: Rate, y: int, i: int)
    requires 544 <= y <= 5120 && IsCode(rate, i) && LogMagnitude(rate, y, i) < 0
    ensures Recoded(rate, y, i) == 2 * SignBit(rate) - 1
  {
    ZeroLog();
    hide Log;
    assert Quan(0 - y / 4, QTable(rate)) == 0;
    hide Quan;
    WordOfWord(0);
    WordOfWord(0 - y / 4);
  }

  lemma ZeroLog()
    ensures Log(0) == 0
  {
    BitLengthBrackets(0);
    assert Pow2(0) == 1;
  }

  lemma SomethingRecoded(rate: Rate, y: int, i: int)
    requires 544 <= y <= 5120 && IsCode(rate, i) && LogMagnitude(rate, y, i) >= 0
    ensures Level(rate, i) > 0
    ensures var dql := LogMagnitude(rate, y, i);
            Recoded(rate, y, i) == i <==> dql % KeptUnit(dql) <= Dqln(rate, i) - QTable(rate)[Level(rate, i) - 1]
  {
    hide Antilog, Dqln, IsCode, KeptUnit, Log, QTable, Quan, Quantize, SignBit, ToWord;
    var dql := LogMagnitude(rate, y, i);
    var m, lost := Antilog(dql), dql % KeptUnit(dql);
    assert dql == Dqln(rate, i) + y / 4 && dql < 1920;
    LogOfAntilog(dql);
    LostIsSmall(dql);
    WordOfWord(m);
    WordOfWord(-m);
    QuantizeByLog(m, dql - lost, y, i >= SignBit(rate), QTable(rate));
    WordOfWord(Dqln(rate, i) - lost);
    NegativeLevels(rate, y, i);
    LowerByLost(rate, i, lost);
  }

  lemma LostIsSmall(dql: int)
    requires 0 <= dql < 1920
    ensures 0 <= dql % KeptUnit(dql) < 128
  {
    Pow2Values();
    if dql < 896 {
      Pow2Monotonic(7 - dql / 128, 7);
    }
    hide Pow2;
  }

  /** Lowering a level by `lost` keeps it in its interval exactly when the threshold below allows it. */
  lemma LowerByLost(rate: Rate, i: int, lost: int)
    requires IsCode(rate, i) && 0 <= lost && Level(rate, i) > 0
    ensures Quan(Dqln(rate, i) - lost, QTable(rate)) == Level(rate, i)
       <==> lost <= Dqln(rate, i) - QTable(rate)[Level(rate, i) - 1]
  {
    hide *;
    var val, j := Dqln(rate, i) - lost, Level(rate, i);
    LevelBrackets(rate, i);
    if QTable(rate)[j - 1] <= val {
      forall k: nat, l: nat | k < l < |QTable(rate)| ensures QTable(rate)[k] < QTable(rate)[l] {
        TablesIncrease(rate, k, l);
      }
      QuanIs(val, QTable(rate), j);
    } else {
      assert Quan(val, QTable(rate)) != j;
    }
  }

  /** At 24 and 32 kbit/s every code that an encoder emits is stable, at every step size: the thresholds leave
      more room below each level than the antilogarithm can lose. */
  lemma EmittedCodesAreStable(rate: Rate, y: int, i: int)
    requires 544 <= y <= 5120 && IsCode(rate, i) && i > 0 && !rate.G723_40?
    ensures Recoded(rate, y, i) == i
  {
    CodesAreStableIff(rate, y, i);
    var dql := LogMagnitude(rate, y, i);
    hide Recoded;
    if dql < 0 {
      LowestLevel(rate, y, i);
    } else {
      RoomBelowLevel(rate, y, i);
    }
  }

  lemma LowestLevel(rate: Rate, y: int, i: int)
    requires 544 <= y <= 5120 && IsCode(rate, i) && i > 0 && LogMagnitude(rate, y, i) < 0
    ensures i == 2 * SignBit(rate) - 1
  {
  }

  lemma RoomBelowLevel(rate: Rate, y: int, i: int)
    requires 544 <= y <= 5120 && IsCode(rate, i) && !rate.G723_40? && LogMagnitude(rate, y, i) >= 0
    ensures Level(rate, i) > 0
    ensures var dql := LogMagnitude(rate, y, i);
            dql % KeptUnit(dql) <= Dqln(rate, i) - QTable(rate)[Level(rate, i) - 1]
  {
    var dql := LogMagnitude(rate, y, i);
    NegativeLevels(rate, y, i);
    LostBelow(dql);
    hide KeptUnit;
    Rooms(rate, i);
    hide Dqln, QTable, Level;
  }

  /** The room below a level: all of the mantissa for the lowest level above zero, five bits up to 272, four
      bits above. */
  lemma Rooms(rate: Rate, i: int)
    requires IsCode(rate, i) && !rate.G723_40? && Level(rate, i) > 0
    ensures var d, room := Dqln(rate, i), Dqln(rate, i) - QTable(rate)[Level(rate, i) - 1];
            (d >= 4 && room >= 127) || (d >= 135 && room >= 31) || (d >= 273 && room >= 15)
  {
  }

  lemma LostBelow(dql: int)
    requires 0 <= dql
    ensures dql % KeptUnit(dql) <= 127
    ensures dql >= 256 ==> dql % KeptUnit(dql) <= 31
    ensures dql >= 384 ==> dql % KeptUnit(dql) <= 15
  {
    Pow2Values();
    if dql < 896 {
      Pow2Monotonic(7 - dql / 128, 7);
      if dql >= 256 { Pow2Monotonic(7 - dql / 128, 5); }
      if dql >= 384 { Pow2Monotonic(7 - dql / 128, 4); }
    }
    hide Pow2;
  }

  /** At all three rates every code is stable from seven whole bits of logarithm on. */
  lemma LongCodesAreStable(rate: Rate, y: int, i: int)
    requires 544 <= y <= 5120 && IsCode(rate, i) && LogMagnitude(rate, y, i) >= 896
    ensures Recoded(rate, y, i) == i
  {
    CodesAreStableIff(rate, y, i);
    LevelBrackets(rate, i);
    hide Recoded, Dqln, QTable, IsCode, Level;
  }

  /** At 40 kbit/s codes are lost: at step size 600 the encoder sends 1 for a difference of 2, which decodes
      to 1, and 1 is coded as zero. */
  lemma UnstableCode()
    ensures Quantize(2, 600, QTable(G723_40)) == 1
    ensures Recoded(G723_40, 600, 1) == 31
  {
    LogOfOneAndTwo();
    AntilogOfUnstable();
    hide Log, Antilog;
    assert Quan(-22, QTAB_723_40) == 1 && Quan(-150, QTAB_723_40) == 0;
    hide Quan;
  }

  lemma LogOfOneAndTwo()
    ensures Log(1) == 0 && Log(2) == 128
  {
    hide BitLength, Pow2, Log, ToWord;
    assert Pow2(0) == 1 && Pow2(1) == 2 by { Pow2Values(); }
    BitLengthBrackets(0);
    BitLengthIs(1, 1);
    LogIs(1, 0, 128);
    LogIs(2, 1, 128);
    WordOfWord(0);
    WordOfWord(128);
  }

  lemma LogIs(x: Word, e: nat, q: int)
    requires x >= 0 && BitLength(x / 2) == e && x * 128 / Pow2(e) == q
    ensures Log(x) == ToWord(e * 128 + q % 128)
  {
    hide BitLength, Pow2, ToWord;
  }

  lemma AntilogOfUnstable()
    ensures LogMagnitude(G723_40, 600, 1) == 84 && Antilog(84) == 1
  {
    Pow2Values();
  }

  /** Code 0, and its complement, are the only ones on level 0, and their logarithm is negative. */
  lemma NegativeLevels(rate: Rate, y: int, i: int)
    requires y <= 5120 && IsCode(rate, i) && LogMagnitude(rate, y, i) >= 0
    ensures Level(rate, i) != 0
  {
  }

  lemma QuantizeByLog(m: Word, dl: int, y: int, sign: bool, table: seq<Word>)
    requires m > 0 && Log(m) == dl
    ensures var j := Quan(ToWord(dl - y / 4), table);
            Quantize(if sign then -m else m, y, table)
            == if sign then 2 * |table| + 1 - j else if j == 0 then 2 * |table| + 1 else j
  {
    hide Log;
    hide Quan;
  }
}
