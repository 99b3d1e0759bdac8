/** What update() does to the state, in plain arithmetic (adpcm/g72x.c, lines 267 to 454).

  Module G72x gives each sub-block as the code computes it and proves the ranges it keeps.  Here is which
  way each quantity moves and how far: without stored words, without the functions of the sub-blocks.
 */
module Adaptation {
  import opened FixedPoint
  import opened G72x
  import opened Adpcm
  import opened Types

  // ----- the scale factors

  /** `b` is `a` moved one `n`-th of the way to `target`, rounded down. */
  predicate Moves(a: int, b: int, target: int, n: int) {
    target - a - n < n * (b - a) <= target - a
  }

  /** FUNCTW, FILTD and LIMB: the fast scale factor moves a 32nd of the way from the step size to the
      multiplier, unless a limit on that side stops it. */
  lemma FastScaleMoves(y: int, wi: int)
    requires 544 <= y <= 5120 && -0x8_0000 <= wi <= 0x8_0000
    ensures var yu := NextYu(y, wi);
            || Moves(y, yu, wi, 32)
            || (yu == 5120 && 32 * (5120 - y) <= wi - y)
            || (yu == 544 && wi - y - 32 < 32 * (544 - y))
  {
  }

  /** Of two multipliers the greater never gives the smaller scale factor. */
  lemma FastScaleIsMonotone(y: int, wi: int, wj: int)
    requires 544 <= y <= 5120 && -0x8_0000 <= wi <= wj <= 0x8_0000
    ensures NextYu(y, wi) <= NextYu(y, wj)
  {
  }

  /** FILTE: the slow scale factor moves a 64th of the way to 64 times the new fast one. */
  lemma SlowScaleMoves(yl: int, yu: Word)
    ensures Moves(yl, NextYl(yl, yu), 64 * yu, 64)
  {
  }

  lemma MultiplierRange(rate: Rate, i: int)
    requires IsCode(rate, i)
    ensures -4096 <= Wi(rate, i) <= 35904
  {
  }

  /** Complemented codes share a multiplier. */
  lemma MultiplierOfLevel(rate: Rate, i: int)
    requires IsCode(rate, i)
    ensures IsCode(rate, Level(rate, i)) && Wi(rate, i) == Wi(rate, Level(rate, i))
  {
  }

  lemma NextMultiplier(rate: Rate, j: int)
    requires 0 <= j < |QTable(rate)|
    ensures IsCode(rate, j) && IsCode(rate, j + 1) && Wi(rate, j) <= Wi(rate, j + 1)
  {
  }

  lemma {:induction false} LevelsIncrease(rate: Rate, j: int, k: int)
    requires 0 <= j <= k <= |QTable(rate)|
    ensures IsCode(rate, j) && IsCode(rate, k) && Wi(rate, j) <= Wi(rate, k)
    decreases k
  {
    hide Wi, QTable;
    if j < k {
      NextMultiplier(rate, k - 1);
      LevelsIncrease(rate, j, k - 1);
    }
  }

  /** The multipliers do not decrease from level to level. */
  lemma MultipliersIncrease(rate: Rate, i: int, j: int)
    requires IsCode(rate, i) && IsCode(rate, j) && Level(rate, i) <= Level(rate, j)
    ensures Wi(rate, i) <= Wi(rate, j)
  {
    hide *;
    MultiplierOfLevel(rate, i);
    MultiplierOfLevel(rate, j);
    LevelsIncrease(rate, Level(rate, i), Level(rate, j));
  }

  /** Above the whole range of step sizes on the outermost level, below it on level 0. */
  lemma OuterMultipliers(rate: Rate, i: int)
    requires IsCode(rate, i)
    ensures Level(rate, i) == |QTable(rate)| ==> Wi(rate, i) >= 5120 + 32
    ensures Level(rate, i) == 0 ==> Wi(rate, i) < 544
  {
  }

  /** The scale factors after a code. */
  lemma AbsorbedScales(rate: Rate, s: Memory, se: Word, i: int)
    requires IsCode(rate, i)
    ensures var t := Absorb(rate, s, se, i).0;
            t.yu == NextYu(StepSize(s), Wi(rate, i)) && t.yl == NextYl(s.yl, t.yu)
  {
    hide Delayed, Difference, Fi, FloatDq, FloatSr, IsCode, Leak, NextA0, NextA1, NextAp, NextDml, NextDms, NextTd;
    hide NextYl, NextYu, NextZeros, Pair, PoleDifference, Signal, StepSize, Transition, Wi;
  }

  /** After every code of every rate the fast scale factor has moved towards the multiplier of the code and
      the slow one towards the fast one. */
  lemma ScalesMove(rate: Rate, s: Memory, se: Word, i: int)
    requires Inv(s) && IsCode(rate, i)
    ensures var t, y, wi := Absorb(rate, s, se, i).0, StepSize(s), Wi(rate, i);
            && (|| Moves(y, t.yu, wi, 32)
                || (t.yu == 5120 && 32 * (5120 - y) <= wi - y)
                || (t.yu == 544 && wi - y - 32 < 32 * (544 - y)))
            && Moves(s.yl, t.yl, 64 * t.yu, 64)
  {
    hide *;
    StepSizeRange(s);
    MultiplierRange(rate, i);
    AbsorbedScales(rate, s, se, i);
    FastScaleMoves(StepSize(s), Wi(rate, i));
    SlowScaleMoves(s.yl, NextYu(StepSize(s), Wi(rate, i)));
  }

  /** The step follows the signal: a code of the outermost level raises the scale factor above the step size
      it was coded with, a code of level 0 lowers it, unless the limit is reached. */
  lemma ScaleFollowsLevel(rate: Rate, s: Memory, se: Word, i: int)
    requires Inv(s) && IsCode(rate, i)
    ensures var yu := Absorb(rate, s, se, i).0.yu;
            && (Level(rate, i) == |QTable(rate)| ==> yu > StepSize(s) || yu == 5120)
            && (Level(rate, i) == 0 ==> yu < StepSize(s) || yu == 544)
  {
    hide *;
    StepSizeRange(s);
    OuterMultipliers(rate, i);
    ScalesMove(rate, s, se, i);
    MovesAre(StepSize(s), Absorb(rate, s, se, i).0.yu, Wi(rate, i), 32);
  }

  lemma MovesAre(a: int, b: int, target: int, n: int)
    requires n > 0
    ensures Moves(a, b, target, n) && target >= a + n ==> b > a
    ensures Moves(a, b, target, n) && target < a ==> b < a
  {
    if b <= a {
      MulMono(b - a, 0, n);
    } else {
      MulMono(1, b - a, n);
    }
  }

  /** Of two codes at the same state the one of the greater level never leaves the smaller scale factors. */
  lemma ScaleIsMonotone(rate: Rate, s: Memory, se: Word, te: Word, i: int, j: int)
    requires Inv(s) && IsCode(rate, i) && IsCode(rate, j) && Level(rate, i) <= Level(rate, j)
    ensures var t, u := Absorb(rate, s, se, i).0, Absorb(rate, s, te, j).0;
            t.yu <= u.yu && t.yl <= u.yl
  {
    hide *;
    StepSizeRange(s);
    MultiplierRange(rate, i);
    MultiplierRange(rate, j);
    MultipliersIncrease(rate, i, j);
    FastScaleIsMonotone(StepSize(s), Wi(rate, i), Wi(rate, j));
    AbsorbedScales(rate, s, se, i);
    AbsorbedScales(rate, s, te, j);
    SlowScaleIsMonotone(s.yl, NextYu(StepSize(s), Wi(rate, i)), NextYu(StepSize(s), Wi(rate, j)));
  }

  lemma SlowScaleIsMonotone(yl: int, yu: Word, yv: Word)
    requires yu <= yv
    ensures NextYl(yl, yu) <= NextYl(yl, yv)
  {
  }

  // ----- the step size

  /** The slow scale factor, in the unit of the fast one, at ap < 4; the fast one from ap == 256 on; in between
      the slow one moved ap / 4 64ths of the way. */
  lemma StepSizeIsWeighted(s: Memory)
    requires Inv(s)
    ensures var y, slow, al := StepSize(s), s.yl / 64, s.ap / 4;
            && (s.ap >= 256 ==> y == s.yu)
            && (s.ap < 4 ==> y == slow)
            && (s.ap < 256 && s.yu >= slow ==> (s.yu - slow) * al - 64 < 64 * (y - slow) <= (s.yu - slow) * al)
            && (s.ap < 256 && s.yu <= slow ==> (slow - s.yu) * al - 64 < 64 * (slow - y) <= (slow - s.yu) * al)
  {
    hide PredictorInRange;
    var slow, al := s.yl / 64, s.ap / 4;
    Distribute(s.yu - slow, 0, al);
  }

  /** The greater the speed control, the nearer the step size is to the fast scale factor. */
  lemma StepSizeTendsToFast(s: Memory, t: Memory)
    requires Inv(s) && Inv(t) && s.yu == t.yu && s.yl == t.yl && s.ap <= t.ap
    ensures s.yl / 64 <= s.yu ==> StepSize(s) <= StepSize(t) <= s.yu
    ensures s.yu <= s.yl / 64 ==> s.yu <= StepSize(t) <= StepSize(s)
  {
    hide PredictorInRange;
    var slow := s.yl / 64;
    if s.ap < 256 {
      WeightedMean(slow, s.yu, s.ap / 4);
      if t.ap < 256 {
        WeightedMean(slow, s.yu, t.ap / 4);
        SharesOrdered(s.yu - slow, s.ap / 4, t.ap / 4);
      }
    }
  }

  lemma SharesOrdered(dif: int, al: int, bl: int)
    requires 0 <= al <= bl
    ensures dif >= 0 ==> dif * al / 64 <= dif * bl / 64
    ensures dif <= 0 ==> (dif * bl + 0x3F) / 64 <= (dif * al + 0x3F) / 64
  {
    if dif >= 0 {
      MulMono(al, bl, dif);
    } else {
      MulMono(al, bl, -dif);
      Distribute(dif, 0, al);
      Distribute(dif, 0, bl);
    }
  }

  // ----- the speed control

  /** FILTA, FILTB, SUBTC and FILTC on the whole state: the two averages move towards the level of the code,
      and the speed control towards 512 while the signal is unsettled, towards 0 otherwise. */
  lemma SpeedMoves(codeSize: int, y: int, wi: int, fi: int, dq: Word, sr: Word, dqsez: Word, s: Memory)
    requires Inv(s) && 0 <= fi <= 0xE00
    ensures var u := Update(codeSize, y, wi, fi, dq, sr, dqsez, s);
            && Moves(s.dms, u.dms, fi, 32)
            && Moves(s.dml, u.dml, 4 * fi, 128)
            && (if Transition(s.yl, s.td, dq % 0x8000) then u.ap == 256
                else if y < 1536 || u.td == 1 || 8 * Distance(4 * u.dms, u.dml) > u.dml - 8
                then Moves(s.ap, u.ap, 512, 16) && (u.ap > s.ap || s.ap > 496)
                else Moves(s.ap, u.ap, 0, 16) && (u.ap < s.ap || s.ap == 0))
  {
    var pk0: Word := if dqsez < 0 then 1 else 0;
    var tr := Transition(s.yl, s.td, dq % 0x8000);
    var td := NextTd(tr, NextA1(s.a, s.pk, pk0, dqsez));
    UpdatedSpeed(codeSize, y, wi, fi, dq, sr, dqsez, s);
    AveragesMove(s.dms, s.dml, fi);
    SpeedFollows(tr, y, td, NextDms(s.dms, fi), NextDml(s.dml, fi), s.ap);
    hide Update, Transition, NextTd, NextA1, NextDms, NextDml, NextAp, Moves, PredictorInRange;
  }

  lemma UpdatedSpeed(codeSize: int, y: int, wi: int, fi: int, dq: Word, sr: Word, dqsez: Word, s: Memory)
    ensures var u := Update(codeSize, y, wi, fi, dq, sr, dqsez, s);
            var pk0: Word := if dqsez < 0 then 1 else 0;
            var tr := Transition(s.yl, s.td, dq % 0x8000);
            && u.dms == NextDms(s.dms, fi) && u.dml == NextDml(s.dml, fi)
            && u.td == NextTd(tr, NextA1(s.a, s.pk, pk0, dqsez))
            && u.ap == NextAp(tr, y, u.td, u.dms, u.dml, s.ap)
  {
    hide FloatDq, FloatSr, Leak, NextA0, NextA1, NextAp, NextDml, NextDms, NextTd, NextYl, NextYu, NextZeros, Transition;
  }

  lemma AveragesMove(dms: Word, dml: Word, fi: int)
    requires 0 <= dms <= 3584 && 0 <= dml <= 14336 && 0 <= fi <= 0xE00
    ensures Moves(dms, NextDms(dms, fi), fi, 32) && Moves(dml, NextDml(dml, fi), 4 * fi, 128)
  {
  }

  lemma SpeedFollows(tr: bool, y: int, td: int, dms: Word, dml: Word, ap: Word)
    requires 0 <= ap <= 512
    ensures var ap1 := NextAp(tr, y, td, dms, dml, ap);
            if tr then ap1 == 256
            else if y < 1536 || td == 1 || 8 * Distance(4 * dms, dml) > dml - 8
            then Moves(ap, ap1, 512, 16) && (ap1 > ap || ap > 496)
            else Moves(ap, ap1, 0, 16) && (ap1 < ap || ap == 0)
  {
  }

  /** The activity of the codes does not decrease from level to level either. */
  lemma ActivityIncreases(rate: Rate, i: int, j: int)
    requires IsCode(rate, i) && IsCode(rate, j) && Level(rate, i) <= Level(rate, j)
    ensures Fi(rate, i) <= Fi(rate, j)
  {
    hide *;
    ActivityOfLevel(rate, i);
    ActivityOfLevel(rate, j);
    ActivityOfLevels(rate, Level(rate, i), Level(rate, j));
  }

  lemma ActivityOfLevel(rate: Rate, i: int)
    requires IsCode(rate, i)
    ensures IsCode(rate, Level(rate, i)) && Fi(rate, i) == Fi(rate, Level(rate, i))
  {
  }

  lemma NextActivity(rate: Rate, j: int)
    requires 0 <= j < |QTable(rate)|
    ensures IsCode(rate, j) && IsCode(rate, j + 1) && Fi(rate, j) <= Fi(rate, j + 1)
  {
  }

  lemma {:induction false} ActivityOfLevels(rate: Rate, j: int, k: int)
    requires 0 <= j <= k <= |QTable(rate)|
    ensures IsCode(rate, j) && IsCode(rate, k) && Fi(rate, j) <= Fi(rate, k)
    decreases k
  {
    hide Fi, QTable;
    if j < k {
      NextActivity(rate, k - 1);
      ActivityOfLevels(rate, j, k - 1);
    }
  }

  // ----- the tone and transition detector

  /** The threshold is three quarters, rounded down, of a line through the powers of two: 1024 times its
      four thirds lies below (2^15 + yl mod 2^15) * 2^(yl / 2^15) by less than 2^10 * 2^(yl / 2^15). */
  lemma ThresholdIsAntilog(yl: int)
    requires 34816 <= yl < 327680
    ensures var p, t := Pow2(yl / 0x8000), (32 + yl % 0x8000 / 1024) * Pow2(yl / 0x8000);
            && (0x8000 + yl % 0x8000) * p - 1024 * p < 1024 * t <= (0x8000 + yl % 0x8000) * p
            && 3 * t - 3 <= 4 * DqThreshold(yl) <= 3 * t
  {
    ThresholdDoesNotWrap(yl);
    var p, f := Pow2(yl / 0x8000), yl % 0x8000;
    MantissaOfThreshold(yl);
    hide *;
    var t := (32 + f / 1024) * p;
    ThresholdIs(yl, t);
    LineThroughPowers(p, f);
  }

  lemma MantissaOfThreshold(yl: int)
    ensures yl / 0x400 % 32 == yl % 0x8000 / 1024
  {
  }

  lemma ThresholdIs(yl: int, t: int)
    requires 34816 <= yl < 327680 && t == (32 + yl / 0x400 % 32) * Pow2(yl / 0x8000) && 0 <= t < 0x8000
    ensures 3 * t - 3 <= 4 * DqThreshold(yl) <= 3 * t
  {
    hide Pow2;
  }

  lemma LineThroughPowers(p: int, f: int)
    requires p > 0 && 0 <= f < 0x8000
    ensures (0x8000 + f) * p - 1024 * p < 1024 * ((32 + f / 1024) * p) <= (0x8000 + f) * p
  {
    var x, y := 1024 * (32 + f / 1024), 0x8000 + f;
    MulMono(x, y, p);
    MulMono(y + 1, x + 1024, p);
    Distribute(y, 1, p);
    Distribute(x, 1024, p);
    MulAssoc(1024, 32 + f / 1024, p);
  }

  /** After a tone, a difference above the threshold resets the predictor and the detector. */
  lemma TransitionResets(codeSize: int, y: int, wi: int, fi: int, dq: Word, sr: Word, dqsez: Word, s: Memory)
    ensures var u := Update(codeSize, y, wi, fi, dq, sr, dqsez, s);
            if s.td != 0 && dq % 0x8000 > DqThreshold(s.yl)
            then u.a == [0, 0] && u.b == NOTHING && u.td == 0 && u.ap == 256
            else u.td == if u.a[1] < -11776 then 1 else 0
  {
    hide FloatDq, FloatSr, Leak, NextA0, NextA1, NextDml, NextDms, NextYl, NextYu, NextZeros, DqThreshold;
  }

  // ----- the predictor coefficients

  function Clamp(x: int, limit: int): int {
    if x < -limit then -limit else if x > limit then limit else x
  }

  /** UPA2: the second pole leaks, follows the sign correlation over two samples by 128, and takes up to 256
      of the first pole, against the sign correlation over one. */
  function SecondPole(a0: int, a1: int, same0: bool, same1: bool): int {
    var f := if same0 then -a0 else a0;
    a1 - a1 / 128 + (if f < -8191 then -256 else if f > 8191 then 255 else f / 32) + (if same1 then 128 else -128)
  }

  /** The odd thresholds of LIMC are a clamp to three quarters, and no store of the sub-block wraps. */
  lemma SecondPoleIsClamped(a: seq<Word>, pk: seq<Word>, pk0: Word, dqsez: int)
    requires PolesStable(a) && |pk| == 2
    ensures NextA1(a, pk, pk0, dqsez)
         == if dqsez == 0 then a[1] - a[1] / 128
            else Clamp(SecondPole(a[0], a[1], pk0 == pk[0], pk0 == pk[1]), 12288)
  {
    hide LimC, TowardsPole, Clamp;
    var f: Word := if pk0 != pk[0] then a[0] else 0 - a[0];
    if dqsez != 0 {
      LimitOfSecondPole(a[1] - a[1] / 128, f, pk0 != pk[1]);
    }
  }

  lemma LimitOfSecondPole(leaked: Word, f: Word, differs: bool)
    requires -12288 <= leaked <= 12288
    ensures LimC(TowardsPole(leaked, f), differs)
         == Clamp(leaked + (if f < -8191 then -256 else if f > 8191 then 255 else f / 32)
                  + (if differs then -128 else 128), 12288)
  {
  }

  /** UPA1 and LIMD: the first pole leaks, follows the sign correlation over one sample by 192, and is kept
      within what the second one leaves of 15360. */
  lemma FirstPoleIsClamped(a0: Word, a2p: Word, pks1: bool, dqsez: int)
    requires -28672 <= a0 <= 28672 && -12288 <= a2p <= 12288
    ensures NextA0(a0, a2p, pks1, dqsez)
         == Clamp(a0 - a0 / 256 + (if dqsez == 0 then 0 else if pks1 then -192 else 192), 15360 - a2p)
  {
  }

  /** UPB and XOR: a zero leaks and follows the sign of its difference against the new one by 128. */
  function Zero(leak: int, b: int, dq: int, negative: bool): int
    requires leak > 0
  {
    b - b / leak + (if dq % 0x8000 == 0 then 0 else if (dq < 0) == negative then 128 else -128)
  }

  /** The store of a zero wraps exactly when the sum leaves 16 bits, which takes a zero within 66 of an extreme. */
  lemma ZeroMovesIff(leak: int, b: Word, dq: int, dqk: Word)
    requires leak == 256 || leak == 512
    ensures var moved := Zero(leak, b, dq, dqk < 0);
            && NextB(leak, b, dq, dqk) == ToWord(moved)
            && (NextB(leak, b, dq, dqk) == moved <==> MIN_WORD <= moved <= MAX_WORD)
            && (moved > MAX_WORD ==> b > 0x7FFF - 66) && (moved < MIN_WORD ==> b < -0x8000 + 66)
  {
    LeakFits(leak, b);
    var leaked := b - b / leak;
    assert NextB(leak, b, dq, dqk)
      == if dq % 0x8000 == 0 then leaked else ToWord(leaked + if (dq < 0) == (dqk < 0) then 128 else -128);
    hide NextB;
  }

  lemma LeakFits(leak: int, b: Word)
    requires leak == 256 || leak == 512
    ensures MIN_WORD <= b - b / leak <= MAX_WORD && ToWord(b - b / leak) == b - b / leak
    ensures b - b / leak > MAX_WORD - 128 ==> b > 0x7FFF - 66
    ensures b - b / leak < MIN_WORD + 128 ==> b < -0x8000 + 66
  {
  }

  /** The new difference and the new signal enter their delay lines as float words of the same sign. */
  lemma DelayLinesMove(codeSize: int, y: int, wi: int, fi: int, dq: Word, sr: Word, dqsez: Word, s: Memory)
    ensures var u := Update(codeSize, y, wi, fi, dq, sr, dqsez, s);
            && u.dq[1..] == s.dq[..5] && (u.dq[0] < 0 <==> dq < 0)
            && u.sr[1] == s.sr[0] && (u.sr[0] < 0 <==> sr < 0)
            && u.pk[1] == s.pk[0] && u.pk[0] == if dqsez < 0 then 1 else 0
  {
    UpdatedPredictor(codeSize, y, wi, fi, dq, sr, dqsez, s);
    DqIsFloat(dq);
    SrIsFloat(sr);
    hide Update, FloatDq, FloatSr, NextA0, NextA1;
  }

  /** Off transitions both poles move by the sign correlations, within their limits. */
  lemma PolesMove(codeSize: int, y: int, wi: int, fi: int, dq: Word, sr: Word, dqsez: Word, s: Memory)
    requires Inv(s) && !Transition(s.yl, s.td, dq % 0x8000)
    ensures var u := Update(codeSize, y, wi, fi, dq, sr, dqsez, s);
            var same0, same1 := u.pk[0] == s.pk[0], u.pk[0] == s.pk[1];
            && u.a[1] == (if dqsez == 0 then s.a[1] - s.a[1] / 128
                          else Clamp(SecondPole(s.a[0], s.a[1], same0, same1), 12288))
            && u.a[0] == Clamp(s.a[0] - s.a[0] / 256 + (if dqsez == 0 then 0 else if same0 then 192 else -192),
                               15360 - u.a[1])
  {
    hide *;
    var pk0: Word := if dqsez < 0 then 1 else 0;
    InvBoundsPoles(s);
    var a1 := NextA1(s.a, s.pk, pk0, dqsez);
    LimCRange(s.a, s.pk, pk0, dqsez);
    SecondPoleIsClamped(s.a, s.pk, pk0, dqsez);
    FirstPoleIsClamped(s.a[0], a1, pk0 != s.pk[0], dqsez);
    UpdatedCoefficients(codeSize, y, wi, fi, dq, sr, dqsez, s);
    DelayLinesMove(codeSize, y, wi, fi, dq, sr, dqsez, s);
  }

  lemma InvBoundsPoles(s: Memory)
    requires Inv(s)
    ensures |s.a| == 2 && |s.pk| == 2 && PolesStable(s.a) && -28672 <= s.a[0] <= 28672
  {
  }

  /** And so do the zeros, each in 16 bits. */
  lemma ZerosMove(codeSize: int, y: int, wi: int, fi: int, dq: Word, sr: Word, dqsez: Word, s: Memory, k: nat)
    requires k < 6 && !Transition(s.yl, s.td, dq % 0x8000)
    ensures Update(codeSize, y, wi, fi, dq, sr, dqsez, s).b[k]
         == ToWord(Zero(if codeSize == 5 then 512 else 256, s.b[k], dq, s.dq[k] < 0))
  {
    UpdatedCoefficients(codeSize, y, wi, fi, dq, sr, dqsez, s);
    ZeroMovesIff(Leak(codeSize), s.b[k], dq, s.dq[k]);
    hide Update, NextB, ToWord, Zero, Transition;
  }

  lemma UpdatedCoefficients(codeSize: int, y: int, wi: int, fi: int, dq: Word, sr: Word, dqsez: Word, s: Memory)
    requires !Transition(s.yl, s.td, dq % 0x8000)
    ensures var u := Update(codeSize, y, wi, fi, dq, sr, dqsez, s);
            var pk0: Word := if dqsez < 0 then 1 else 0;
            && u.a[1] == NextA1(s.a, s.pk, pk0, dqsez) && u.a[0] == NextA0(s.a[0], u.a[1], pk0 != s.pk[0], dqsez)
            && forall k :: 0 <= k < 6 ==> u.b[k] == NextB(Leak(codeSize), s.b[k], dq, s.dq[k])
  {
    hide FloatDq, FloatSr, Leak, NextA0, NextA1, NextAp, NextB, NextDml, NextDms, NextTd, NextYl, NextYu, Transition;
  }

  /** ADDC: what drives the poles is the reconstructed difference plus half the prediction of the zeros; the
      poles' own prediction is in neither, up to multiples of 2^16. */
  lemma PoleDifferenceIsPartialSignal(rate: Rate, s: Memory, se: Word, i: int)
    requires Inv(s) && IsCode(rate, i)
    ensures var m := Antilog(LogMagnitude(rate, StepSize(s), i));
            var half := ToWord(PredictorZero(s)) / 2;
            PoleDifference(s, Signal(rate, se, Difference(rate, s, i)), se)
            == ToWord(half + if i >= SignBit(rate) then -m else m)
  {
    hide *;
    MaskLosesNothing(rate, s, se, i);
    var m := Antilog(LogMagnitude(rate, StepSize(s), i));
    PartialOf(s, se, if i >= SignBit(rate) then -m else m);
  }

  lemma PartialOf(s: Memory, se: Word, d: int)
    ensures PoleDifference(s, ToWord(se + d), se) == ToWord(ToWord(PredictorZero(s)) / 2 + d)
  {
    hide PredictorZero;
    var half := ToWord(PredictorZero(s)) / 2;
    WrappedTwice(se + d, half - se);
  }

  lemma WrappedTwice(x: int, y: int)
    ensures ToWord(ToWord(x) + y) == ToWord(x + y)
  {
  }

  /** The sum of half the zeros' prediction and the decoded difference: what the sign correlations are of. */
  function PartialSignal(rate: Rate, s: Memory, i: int): Word
    requires IsCode(rate, i)
  {
    var m := Antilog(LogMagnitude(rate, StepSize(s), i));
    ToWord(ToWord(PredictorZero(s)) / 2 + if i >= SignBit(rate) then -m else m)
  }

  /** The arguments of update() for one code. */
  lemma AbsorbedDifference(rate: Rate, s: Memory, se: Word, i: int)
    requires Inv(s) && IsCode(rate, i)
    ensures var dq := Difference(rate, s, i);
            && Absorb(rate, s, se, i).0
               == Update(CodeSize(rate), StepSize(s), Wi(rate, i), Fi(rate, i), dq,
                         Signal(rate, se, dq), PartialSignal(rate, s, i), s)
            && dq % 0x8000 == Antilog(LogMagnitude(rate, StepSize(s), i))
            && (dq < 0 <==> i >= SignBit(rate))
  {
    hide Antilog, CodeSize, Difference, Fi, Inv, IsCode, LogMagnitude, PoleDifference, PredictorZero;
    hide SignBit, Signal, StepSize, ToWord, Update, Wi, Absorb;
    var dq := Difference(rate, s, i);
    var sr := Signal(rate, se, dq);
    PoleDifferenceIsPartialSignal(rate, s, se, i);
    AbsorbIs(rate, s, se, i, dq, sr, PoleDifference(s, sr, se));
    DifferenceIsAntilog(rate, s, i);
    SmallMagnitude(Antilog(LogMagnitude(rate, StepSize(s), i)));
  }

  lemma SmallMagnitude(m: int)
    requires 0 <= m < 0x8000
    ensures m % 0x8000 == m && (m - 0x8000) % 0x8000 == m
  {
  }

  /** What one code does to the poles, off transitions, in terms of the code alone: both follow the signs of
      the partial signals, now and one and two samples ago. */
  lemma CodeMovesPoles(rate: Rate, s: Memory, se: Word, i: int)
    requires Inv(s) && IsCode(rate, i) && !Transition(s.yl, s.td, Antilog(LogMagnitude(rate, StepSize(s), i)))
    ensures var t, partial := Absorb(rate, s, se, i).0, PartialSignal(rate, s, i);
            var same0, same1 := partial < 0 <==> s.pk[0] == 1, partial < 0 <==> s.pk[1] == 1;
            && t.a[1] == (if partial == 0 then s.a[1] - s.a[1] / 128
                          else Clamp(SecondPole(s.a[0], s.a[1], same0, same1), 12288))
            && t.a[0] == Clamp(s.a[0] - s.a[0] / 256 + (if partial == 0 then 0 else if same0 then 192 else -192),
                               15360 - t.a[1])
  {
    hide *;
    var dq := Difference(rate, s, i);
    AbsorbedDifference(rate, s, se, i);
    PartialSigns(s);
    PolesMove(CodeSize(rate), StepSize(s), Wi(rate, i), Fi(rate, i), dq, Signal(rate, se, dq),
              PartialSignal(rate, s, i), s);
    DelayLinesMove(CodeSize(rate), StepSize(s), Wi(rate, i), Fi(rate, i), dq, Signal(rate, se, dq),
                   PartialSignal(rate, s, i), s);
  }

  lemma PartialSigns(s: Memory)
    requires Inv(s)
    ensures |s.pk| == 2 && 0 <= s.pk[0] <= 1 && 0 <= s.pk[1] <= 1
  {
  }

  /** And to a zero: it follows the sign of its difference against the one just decoded, with a slower leak at
      40 kbit/s. */
  lemma CodeMovesZeros(rate: Rate, s: Memory, se: Word, i: int, k: nat)
    requires Inv(s) && IsCode(rate, i) && k < 6
    requires !Transition(s.yl, s.td, Antilog(LogMagnitude(rate, StepSize(s), i)))
    ensures var m := Antilog(LogMagnitude(rate, StepSize(s), i));
            Absorb(rate, s, se, i).0.b[k]
            == ToWord((s.b[k] as int) - s.b[k] / (if rate.G723_40? then 512 else 256)
                      + if m == 0 then 0 else if i >= SignBit(rate) <==> s.dq[k] < 0 then 128 else -128)
  {
    hide Absorb, Antilog, Difference, Fi, Inv, IsCode, LogMagnitude, PartialSignal;
    hide SignBit, Signal, StepSize, ToWord, Transition, Update, Wi;
    var dq := Difference(rate, s, i);
    AbsorbedDifference(rate, s, se, i);
    ZerosMove(CodeSize(rate), StepSize(s), Wi(rate, i), Fi(rate, i), dq, Signal(rate, se, dq),
              PartialSignal(rate, s, i), s, k);
  }
}
