/** How far the ADPCM encoders may miss the sample they are given (adpcm/g72x.c, quantize() and
    reconstruct(); adpcm/g721.c, g723_24.c and g723_40.c).

  The lockstep theorems of module Adpcm compare the decoder with the encoder's own signal.  Here that signal
  is compared with the input: the code names the interval of the logarithm of the difference, the decoded
  magnitude lies in the same interval, so the signal misses the sample by at most its width.
 */
module Quantizer {
  import opened FixedPoint
  import opened G72x
  import opened Adpcm
  import opened Types

  // ----- logarithm and antilogarithm

  /** 128 times the line through the powers of two at T / 128. */
  function Line(t: nat): (g: nat)
    ensures g >= 128
  {
    MulMono(1, Pow2(t / 128), 128 + t % 128);
    (128 + t % 128) * Pow2(t / 128)
  }

  lemma LineStep(t: nat)
    ensures Line(t + 1) == Line(t) + Pow2(t / 128)
  {
    if t % 128 == 127 {
      assert (t + 1) / 128 == t / 128 + 1 && (t + 1) % 128 == 0;
    } else {
      assert (t + 1) / 128 == t / 128 && (t + 1) % 128 == t % 128 + 1;
    }
    Distribute(128 + t % 128, 1, Pow2(t / 128));
  }

  lemma {:induction false} LineIncreases(t: nat, u: nat)
    requires t <= u
    ensures Line(t) <= Line(u)
    decreases u
  {
    hide Line;
    if t < u {
      LineIncreases(t, u - 1);
      LineStep(u - 1);
    }
  }

  /** LOG, the other way round: 128 x lies between the lines at Log(x) and one step above. */
  lemma LogBrackets(x: Word)
    requires x > 0
    ensures 0 <= Log(x) < 1920
    ensures Line(Log(x)) <= 128 * x < Line(Log(x) + 1)
  {
    hide BitLength, Log, Line, ToWord;
    var e := BitLength(x / 2);
    ExponentBrackets(x, e);
    var q := x * 128 / Pow2(e);
    QuotientBetween(x * 128, Pow2(e), 128, 256) by {
      assert 128 * Pow2(e) <= x * 128 < 256 * Pow2(e);
    }
    LogIs(x, e, q);
    WordOfWord(e * 128 + (q - 128));
    assert Log(x) == e * 128 + (q - 128);
    OctaveOf(e, q - 128);
    LineIs(Log(x), e, q - 128);
    LineStep(Log(x));
    QuotientBrackets(x * 128, Pow2(e));
    Distribute(q, 1, Pow2(e));
  }

  lemma ExponentBrackets(x: Word, e: nat)
    requires x > 0 && e == BitLength(x / 2)
    ensures e <= 14 && Pow2(e) <= x < 2 * Pow2(e)
  {
    BitLengthBrackets(x / 2);
    hide BitLength;
    Pow2Values();
    if e > 0 {
      assert Pow2(e) == 2 * Pow2(e - 1);
    }
  }

  lemma OctaveOf(e: nat, m: nat)
    requires m < 128
    ensures (e * 128 + m) / 128 == e && (e * 128 + m) % 128 == m
  {
  }

  lemma LineIs(t: nat, e: nat, m: nat)
    requires t / 128 == e && t % 128 == m
    ensures Line(t) == (128 + m) * Pow2(e)
  {
    hide Pow2;
  }

  /** ANTILOG is the line, rounded down. */
  lemma AntilogIsLine(t: nat)
    requires t < 1920
    ensures Antilog(t) == Line(t) / 128
  {
    var e, x := t / 128, 128 + t % 128;
    Pow2Add(14 - e, e);
    assert Pow2(14) == 128 * 128 by { Pow2Values(); }
    hide Pow2;
    SameQuotient(x, Pow2(14 - e), Pow2(e));
  }

  lemma SameQuotient(x: int, p: int, q: int)
    requires p > 0 && q > 0 && p * q == 128 * 128
    ensures x * 128 / p == x * q / 128
  {
    var k := x * q / 128;
    QuotientBrackets(x * q, 128);
    MulMono(k * 128, x * q, p);
    MulMono(x * q + 1, (k + 1) * 128, p);
    Distribute(x * q, 1, p);
    MulAssoc(x, q, p);
    MulAssoc(k, 128, p);
    MulAssoc(k + 1, 128, p);
    Distribute(k, 1, p);
    assert q * p == 128 * 128;
    DivUnique(x * 128, p, k);
  }

  // ----- a threshold on the logarithm is a threshold on the magnitude

  lemma AntilogIncreases(t: int, u: int)
    requires t <= u < 1920
    ensures Antilog(t) <= Antilog(u)
  {
    if t >= 0 {
      AntilogIsLine(t);
      AntilogIsLine(u);
      LineIncreases(t, u);
      hide Antilog, Line;
      QuotientsOrdered(Line(t), Line(u));
    }
  }

  lemma QuotientsOrdered(a: int, b: int)
    requires a <= b
    ensures a / 128 <= b / 128
  {
  }

  lemma AtLeastAntilog(x: Word, t: int)
    requires x >= 0 && 0 < t <= Log(x)
    ensures Antilog(t) <= x
  {
    hide Antilog, Line, Log;
    if x == 0 {
      ZeroLog();
    } else {
      LogBrackets(x);
      AntilogIsLine(t);
      LineIncreases(t, Log(x));
      assert Line(t) <= 128 * x;
    }
  }

  lemma AtMostAntilog(x: Word, t: int)
    requires x >= 0 && Log(x) < t < 1920
    ensures x <= Antilog(t)
  {
    hide Antilog, Line, Log;
    if x > 0 {
      LogBrackets(x);
      AntilogIsLine(t);
      LineIncreases(Log(x) + 1, t);
      assert 128 * x < Line(t);
    } else if t >= 0 {
      AntilogIsLine(t);
    } else {
      ZeroLog();
    }
  }

  // ----- the code of a difference

  lemma QuanBrackets(rate: Rate, val: int)
    ensures var j := Quan(val, QTable(rate));
            && (j > 0 ==> QTable(rate)[j - 1] <= val) && (j < |QTable(rate)| ==> val < QTable(rate)[j])
  {
    hide QTable;
  }

  /** The magnitude of a difference, where the code computes it without wrap-around. */
  function Magnitude(d: Word): (m: Word)
    requires d != MIN_WORD
    ensures 0 <= m
  {
    if d < 0 then -d else d
  }

  lemma LogRange(x: Word)
    requires x >= 0
    ensures 0 <= Log(x) < 1920
  {
    hide Log;
    if x == 0 {
      ZeroLog();
    } else {
      LogBrackets(x);
    }
  }

  /** quantize(): the code's sign is that of the difference, except on level 0, which has one code only, and
      its level is the interval of the table that holds the logarithm less the step size. */
  lemma CodeOfDifference(rate: Rate, y: int, d: Word)
    requires 544 <= y <= 5120 && d != MIN_WORD
    ensures var i := Quantize(d, y, QTable(rate));
            && IsCode(rate, i)
            && var j, l := Level(rate, i), Log(Magnitude(d));
               && (if j == 0 then i == 2 * SignBit(rate) - 1 else i >= SignBit(rate) <==> d < 0)
               && (j > 0 ==> QTable(rate)[j - 1] + y / 4 <= l)
               && (j < |QTable(rate)| ==> l < QTable(rate)[j] + y / 4)
  {
    hide Log, QTable, Quan;
    var l := Log(Magnitude(d));
    LogRange(Magnitude(d));
    WordOfWord(Magnitude(d));
    WordOfWord(l - y / 4);
    QuanBrackets(rate, l - y / 4);
    hide ToWord;
    var q := Quan(l - y / 4, QTable(rate));
    assert Quantize(d, y, QTable(rate))
      == if d < 0 then 2 * |QTable(rate)| + 1 - q else if q == 0 then 2 * |QTable(rate)| + 1 else q;
  }

  // ----- the code of a sample

  /** What the encoder has to code: the sample in 14 bits, less the estimate. */
  function InputDifference(rate: Rate, s: Memory, sl: Word): int {
    sl / 4 - EncoderEstimate(rate, s)
  }

  predicate DifferenceFits(rate: Rate, s: Memory, sl: Word) {
    MIN_WORD < InputDifference(rate, s, sl) <= MAX_WORD
  }

  /** It fits whenever the predictor sum does, and always in G.723. */
  lemma FittingSumsGiveFittingDifferences(rate: Rate, s: Memory, sl: Word)
    requires !rate.G721? || SumFits(s)
    ensures DifferenceFits(rate, s, sl)
  {
    hide PredictorSum, ToWord;
    EstimateInHalf(rate, s);
  }

  lemma EstimateInHalf(rate: Rate, s: Memory)
    requires !rate.G721? || SumFits(s)
    ensures -0x4000 <= EncoderEstimate(rate, s) < 0x4000
  {
    hide PredictorSum, ToWord;
    if rate.G721? {
      HalfOfWord(PredictorSum(s));
      WordOfWord(PredictorSum(s) / 2);
    } else {
      HalfOfWord(ToWord(PredictorSum(s)));
    }
  }

  lemma HalfOfWord(x: Word)
    ensures -0x4000 <= x / 2 < 0x4000
  {
  }

  /** Which code a sample gets, from the sample itself: sign and logarithmic interval of its difference. */
  lemma CodeOfSample(rate: Rate, s: Memory, sl: Word)
    requires Inv(s) && DifferenceFits(rate, s, sl)
    ensures var d: Word, i := InputDifference(rate, s, sl), EncoderCode(rate, s, sl);
            var j, l, y := Level(rate, i), Log(Magnitude(d)), StepSize(s);
            && (if j == 0 then i == 2 * SignBit(rate) - 1 else i >= SignBit(rate) <==> d < 0)
            && (j > 0 ==> QTable(rate)[j - 1] <= l - y / 4)
            && (j < |QTable(rate)| ==> l - y / 4 < QTable(rate)[j])
  {
    hide EncoderEstimate, Inv, Log, QTable, Quantize, StepSize, ToWord;
    StepSizeRange(s);
    WordOfWord(InputDifference(rate, s, sl));
    CodeOfDifference(rate, StepSize(s), InputDifference(rate, s, sl));
  }

  /** The one difference whose magnitude is not a word is coded as zero. */
  lemma ExtremeDifferenceIsCodedAsZero(rate: Rate, s: Memory, sl: Word)
    requires Inv(s) && InputDifference(rate, s, sl) == MIN_WORD
    ensures EncoderCode(rate, s, sl) == 2 * SignBit(rate) - 1
  {
    hide EncoderEstimate, Inv, Log, QTable, Quan, StepSize, ToWord;
    StepSizeRange(s);
    WordOfWord(MIN_WORD);
    LogOfExtreme();
    NothingBelowThresholds(rate, StepSize(s));
    WordOfWord(0 - StepSize(s) / 4);
  }

  lemma NothingBelowThresholds(rate: Rate, y: int)
    requires 544 <= y <= 5120
    ensures Quan(0 - y / 4, QTable(rate)) == 0
  {
    QuanBrackets(rate, 0 - y / 4);
    hide Quan;
  }

  lemma LogOfExtreme()
    ensures ToWord(0x8000) == MIN_WORD && Log(MIN_WORD) == 0
  {
    BitLengthBrackets(MIN_WORD / 2);
    assert Pow2(0) == 1;
  }

  /** Every threshold, raised by a step size, is a positive logarithm of a word. */
  lemma ThresholdRange(rate: Rate, y: int, k: nat)
    requires 544 <= y <= 5120 && k < |QTable(rate)|
    ensures 0 < QTable(rate)[k] + y / 4 < 1920
  {
  }

  // ----- the signal against the sample

  /** The least magnitude of level `j` at step size `y`. */
  function Lower(rate: Rate, y: int, j: nat): int
    requires j <= |QTable(rate)|
  {
    if j == 0 then 0 else Antilog(QTable(rate)[j - 1] + y / 4)
  }

  /** The greatest; the outermost level has none. */
  function Upper(rate: Rate, y: int, j: nat): int
    requires j < |QTable(rate)|
  {
    Antilog(QTable(rate)[j] + y / 4)
  }

  /** The decoded magnitude of a code. */
  function Decoded(rate: Rate, y: int, i: int): int
    requires IsCode(rate, i)
  {
    Antilog(LogMagnitude(rate, y, i))
  }

  lemma DecodedInInterval(rate: Rate, y: int, i: int)
    requires 544 <= y <= 5120 && IsCode(rate, i)
    ensures var j, m := Level(rate, i), Decoded(rate, y, i);
            && Lower(rate, y, j) <= m && 0 <= m <= 23296 && (j == 0 ==> m == 0)
            && (j < |QTable(rate)| ==> m <= Upper(rate, y, j))
  {
    hide Antilog, Dqln, IsCode, Level, QTable, SignBit;
    var j, t := Level(rate, i), LogMagnitude(rate, y, i);
    LevelBrackets(rate, i);
    AntilogIncreases(t, 1846);
    GreatestAntilog();
    NoNegativeAntilog(t);
    if j == 0 {
      ZeroLevel(rate, y, i);
    } else {
      AntilogIncreases(QTable(rate)[j - 1] + y / 4, t);
    }
    if j < |QTable(rate)| {
      ThresholdRange(rate, y, j);
      AntilogIncreases(t, QTable(rate)[j] + y / 4);
    }
  }

  lemma NoNegativeAntilog(t: int)
    ensures 0 <= Antilog(t)
  {
    if 0 <= t < 1920 {
      AntilogRange(t);
      hide Antilog;
    }
  }

  lemma GreatestAntilog()
    ensures Antilog(1846) == 23296
  {
    AntilogIsShift(14, 54);
    Pow2Values();
    hide Antilog;
  }

  lemma ZeroLevel(rate: Rate, y: int, i: int)
    requires 544 <= y <= 5120 && IsCode(rate, i) && Level(rate, i) == 0
    ensures Antilog(LogMagnitude(rate, y, i)) == 0
  {
  }

  /** The coded difference lies in the interval of its code. */
  lemma CodedInInterval(rate: Rate, s: Memory, sl: Word)
    requires Inv(s) && DifferenceFits(rate, s, sl)
    ensures var d: Word, j := InputDifference(rate, s, sl), Level(rate, EncoderCode(rate, s, sl));
            && Lower(rate, StepSize(s), j) <= Magnitude(d)
            && (j < |QTable(rate)| ==> Magnitude(d) <= Upper(rate, StepSize(s), j))
  {
    hide Antilog, EncoderCode, EncoderEstimate, Inv, Level, Log, Lower, QTable, StepSize, ToWord, Upper;
    var d: Word, j := InputDifference(rate, s, sl), Level(rate, EncoderCode(rate, s, sl));
    StepSizeRange(s);
    CodeOfSample(rate, s, sl);
    if j > 0 {
      ThresholdRange(rate, StepSize(s), j - 1);
      AtLeastAntilog(Magnitude(d), QTable(rate)[j - 1] + StepSize(s) / 4);
    }
    if j < |QTable(rate)| {
      ThresholdRange(rate, StepSize(s), j);
      AtMostAntilog(Magnitude(d), QTable(rate)[j] + StepSize(s) / 4);
    }
    LowerIs(rate, StepSize(s), j);
  }

  lemma LowerIs(rate: Rate, y: int, j: nat)
    requires j <= |QTable(rate)|
    ensures j == 0 ==> Lower(rate, y, j) == 0
    ensures j > 0 ==> Lower(rate, y, j) == Antilog(QTable(rate)[j - 1] + y / 4)
    ensures j < |QTable(rate)| ==> Upper(rate, y, j) == Antilog(QTable(rate)[j] + y / 4)
  {
  }

  /** A level above zero is never so far out that the signal wraps: the estimate is on the other side of the
      sample. */
  lemma SignalOfLevel(rate: Rate, s: Memory, sl: Word)
    requires Inv(s) && DifferenceFits(rate, s, sl)
    ensures var d, i, sr := InputDifference(rate, s, sl), EncoderCode(rate, s, sl), EncodeStep(rate, s, sl).1.1;
            var m := Decoded(rate, StepSize(s), i);
            sr == EncoderEstimate(rate, s) + if d < 0 then -m else m
  {
    hide Antilog, EncoderCode, EncoderEstimate, Inv, IsCode, Level, Log, LogMagnitude, Lower, QTable, Quan, SignBit;
    hide Signal, StepSize, ToWord, Upper, Difference, Update, PoleDifference;
    var i := EncoderCode(rate, s, sl);
    StepSizeRange(s);
    EmittedIsCode(rate, s, sl);
    MaskLosesNothing(rate, s, EncoderEstimate(rate, s), i);
    DecodedInInterval(rate, StepSize(s), i);
    CodeOfSample(rate, s, sl);
    var se, m := EncoderEstimate(rate, s), Decoded(rate, StepSize(s), i);
    WordOfWord(se + if se > sl / 4 then -m else m);
  }

  lemma EmittedIsCode(rate: Rate, s: Memory, sl: Word)
    ensures IsCode(rate, EncoderCode(rate, s, sl))
  {
    hide EncoderCode;
  }

  /** The encoder's own signal misses the 14-bit sample by at most the width of the interval its code names.  On
      the outermost level, which has no end, both magnitudes lie above its threshold. */
  lemma SignalIsNear(rate: Rate, s: Memory, sl: Word)
    requires Inv(s) && DifferenceFits(rate, s, sl)
    ensures var d: Word, (i, sr), y := InputDifference(rate, s, sl), EncodeStep(rate, s, sl).1, StepSize(s);
            IsCode(rate, i) &&
            var j := Level(rate, i);
            if j < |QTable(rate)| then Distance(sr, sl / 4) <= Upper(rate, y, j) - Lower(rate, y, j)
            else && Magnitude(d) >= Lower(rate, y, j) && Decoded(rate, y, i) >= Lower(rate, y, j)
                 && Distance(sr, sl / 4) == Distance(Magnitude(d), Decoded(rate, y, i))
  {
    hide Decoded, EncoderCode, EncoderEstimate, Inv, IsCode, Level, Lower, QTable, SignBit, StepSize, Upper, Absorb;
    EmittedIsCode(rate, s, sl);
    StepSizeRange(s);
    CodedInInterval(rate, s, sl);
    DecodedInInterval(rate, StepSize(s), EncoderCode(rate, s, sl));
    SignalOfLevel(rate, s, sl);
  }

  /** So the decoder's output misses the sample by at most four times that width, and the two bits not coded. */
  lemma OutputIsNear(rate: Rate, s: Memory, sl: Word)
    requires Inv(s) && (!rate.G721? || SumFits(s))
    ensures var i, y := EncodeStep(rate, s, sl).1.0, StepSize(s);
            IsCode(rate, i) &&
            var j, out := Level(rate, i), DecodeStep(rate, s, i).1;
            j < |QTable(rate)| ==> Distance(out, sl) <= 4 * (Upper(rate, y, j) - Lower(rate, y, j)) + 3
  {
    hide Inv, IsCode, Level, Lower, QTable, SignBit, StepSize, Upper, EncodeStep, DecodeStep, SumFits;
    FittingSumsGiveFittingDifferences(rate, s, sl);
    SignalIsNear(rate, s, sl);
    SampleLockstep(rate, s, sl);
    hide DifferenceFits, InputDifference, Magnitude, Decoded;
  }
}
