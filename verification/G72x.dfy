/** The adaptive predictor and quantizer shared by G.721 and G.723 (adpcm/g72x.c).

  `short` is the 16-bit `Word`; every store into a short that may truncate is written with `ToWord`.
  Shifts are multiplications and floor divisions by powers of two, masks are remainders.
 */
module G72x {
  import opened FixedPoint
  import opened Types

  const POWER2: seq<Word> := [1, 2, 4, 8, 0x10, 0x20, 0x40, 0x80, 0x100, 0x200, 0x400, 0x800, 0x1000, 0x2000, 0x4000]

  // ----- quan

  /** The index of the first entry of table[from..] above `val`, or the size. */
  function QuanFrom(val: int, table: seq<Word>, from: nat): (i: nat)
    requires from <= |table|
    ensures from <= i <= |table|
    ensures forall k :: from <= k < i ==> table[k] <= val
    ensures i < |table| ==> val < table[i]
    decreases |table| - from
  {
    if from == |table| || val < table[from] then from else QuanFrom(val, table, from + 1)
  }

  function Quan(val: int, table: seq<Word>): (i: nat)
    ensures i <= |table|
    ensures forall k :: 0 <= k < i ==> table[k] <= val
    ensures i < |table| ==> val < table[i]
  {
    QuanFrom(val, table, 0)
  }

  /** quan(). */
  method FindQuan(val: int, table: seq<Word>) returns (i: nat)
    ensures i == Quan(val, table)
  {
    i := 0;
    while i < |table|
      invariant i <= |table|
      invariant QuanFrom(val, table, i) == Quan(val, table)
    {
      if val < table[i] { break; }
      i := i + 1;
    }
  }

  /** Against the powers of two, quan() is the bit length. */
  function BitLength(x: int): (n: nat)
    ensures n <= 15
  {
    Quan(x, POWER2)
  }

  lemma BitLengthBrackets(x: int)
    requires x < 0x8000
    ensures x <= 0 ==> BitLength(x) == 0
    ensures x > 0 ==> BitLength(x) > 0 && Pow2(BitLength(x) - 1) <= x < Pow2(BitLength(x))
  {
    Pow2Values();
    var n := BitLength(x);
    if n > 0 {
      assert POWER2[n - 1] == Pow2(n - 1);
    }
    if n < 15 {
      assert POWER2[n] == Pow2(n);
    }
  }

  // ----- the 4-bit exponent, 6-bit mantissa form

  /** A `dq` or `sr` word: exponent in 0..15 above a mantissa in 32..63, negative ones lowered by 0x400. */
  predicate IsFloat(x: int) {
    -0x400 <= x < 0x400 && x % 64 >= 32
  }

  /** FLOAT A and FLOAT B on a non-zero magnitude. */
  function FloatMagnitude(mag: int): int
    requires 0 < mag < 0x8000
  {
    BitLength(mag) * 64 + mag * 64 / Pow2(BitLength(mag))
  }

  lemma FloatMagnitudeRange(mag: int)
    requires 0 < mag < 0x8000
    ensures 32 <= FloatMagnitude(mag) < 0x400 && FloatMagnitude(mag) % 64 >= 32
  {
    BitLengthBrackets(mag);
    var n := BitLength(mag);
    assert Pow2(n) == 2 * Pow2(n - 1);
    hide Pow2;
    hide BitLength;
    QuotientBetween(mag * 64, Pow2(n), 32, 64);
    RemainderOfSum(n, mag * 64 / Pow2(n));
  }

  lemma RemainderOfSum(n: int, q: int)
    requires 0 <= q < 64
    ensures (n * 64 + q) % 64 == q
  {
  }

  /** FLOAT A: the new dq[0]. */
  function FloatDq(dq: Word): Word
  {
    var mag := dq % 0x8000;
    if mag == 0 then (if dq >= 0 then 0x20 else ToWord(0xFC20))
    else if dq >= 0 then ToWord(FloatMagnitude(mag))
    else ToWord(FloatMagnitude(mag) - 0x400)
  }

  /** FLOAT B: the new sr[0]. */
  function FloatSr(sr: Word): Word
  {
    if sr == 0 then 0x20
    else if sr > 0 then ToWord(FloatMagnitude(sr))
    else if sr > -0x8000 then ToWord(FloatMagnitude(-(sr as int)) - 0x400)
    else ToWord(0xFC20)
  }

  lemma DqIsFloat(dq: Word)
    ensures IsFloat(FloatDq(dq)) && (FloatDq(dq) < 0 <==> dq < 0)
  {
    var mag := dq % 0x8000;
    if mag != 0 {
      FloatMagnitudeRange(mag);
      SignedFloat(FloatMagnitude(mag));
    }
    hide FloatMagnitude;
  }

  lemma SrIsFloat(sr: Word)
    ensures IsFloat(FloatSr(sr)) && (FloatSr(sr) < 0 <==> sr < 0)
  {
    if sr != 0 && sr != -0x8000 {
      var mag := if sr > 0 then sr else 0 - sr;
      FloatMagnitudeRange(mag);
      SignedFloat(FloatMagnitude(mag));
    }
    hide FloatMagnitude;
  }

  lemma SignedFloat(f: int)
    requires 32 <= f < 0x400 && f % 64 >= 32
    ensures ToWord(f) == f && IsFloat(f)
    ensures ToWord(f - 0x400) == f - 0x400 && IsFloat(f - 0x400)
  {
  }

  /** `anmant`: the magnitude brought to six bits. */
  function SixBits(anmag: int): (m: int)
    requires 0 <= anmag < 0x2000
    ensures 32 <= m <= 63
  {
    if anmag == 0 then 32 else
    SixBitsRange(anmag);
    var anexp := BitLength(anmag) - 6;
    if anexp >= 0 then anmag / Pow2(anexp) else anmag * Pow2(-anexp)
  }

  lemma SixBitsRange(anmag: int)
    requires 0 < anmag < 0x2000
    ensures var anexp := BitLength(anmag) - 6;
            32 <= (if anexp >= 0 then anmag / Pow2(anexp) else anmag * Pow2(-anexp)) <= 63
  {
    var n := BitLength(anmag);
    BitLengthBrackets(anmag);
    Pow2Values();
    hide BitLength;
    if n >= 6 {
      Pow2Add(5, n - 6);
      Pow2Add(6, n - 6);
      QuotientBetween(anmag, Pow2(n - 6), 32, 64);
    } else {
      Pow2Add(n - 1, 6 - n);
      Pow2Add(n, 6 - n);
      MulMono(Pow2(n - 1), anmag, Pow2(6 - n));
      MulMono(anmag + 1, Pow2(n), Pow2(6 - n));
      Distribute(anmag, 1, Pow2(6 - n));
    }
  }

  /** fmult(): a 14-bit integer times a float word. */
  function Fmult(an: int, srn: Word): (r: Word)
    requires -0x2000 <= an < 0x2000
    ensures r != MIN_WORD
  {
    var anmag := if an > 0 then an else -an % 0x2000;
    var anexp := BitLength(anmag) - 6;
    var anmant := SixBits(anmag);
    var wanexp := anexp + srn / 64 % 16 - 13;
    var wanmant := Product(anmant, srn % 64);
    var retval := if wanexp >= 0 then wanmant * Pow2(wanexp) % 0x8000 else ShiftRight(wanmant, -wanexp);
    if (an < 0) != (srn < 0) then -retval else retval
  }

  /** ( anmant * ( srn & 077 ) + 0x30 ) >> 4. */
  function Product(anmant: int, srmant: int): (w: int)
    requires 32 <= anmant <= 63 && 0 <= srmant <= 63
    ensures 3 <= w <= 251
  {
    ProductBound(anmant, srmant, 63, 63);
    MulMono(0, srmant, anmant);
    (anmant * srmant + 0x30) / 16
  }

  function ShiftRight(x: int, n: nat): (r: int)
    requires 0 <= x
    ensures 0 <= r <= x
  {
    MulMono(1, Pow2(n), x + 1);
    QuotientBetween(x, Pow2(n), 0, x + 1);
    x / Pow2(n)
  }

  // ----- state

  /** struct g72x_state. */
  datatype State = State(
    yl: int, yu: Word, dms: Word, dml: Word, ap: Word,
    a: seq<Word>, b: seq<Word>, pk: seq<Word>, dq: seq<Word>, sr: seq<Word>, td: int)

  predicate WellFormed(s: State) {
    |s.a| == 2 && |s.b| == 6 && |s.pk| == 2 && |s.dq| == 6 && |s.sr| == 2
  }

  /** g72x_init_state(). */
  const INITIAL := State(34816, 544, 0, 0, 0, [0, 0], [0, 0, 0, 0, 0, 0], [0, 0], [32, 32, 32, 32, 32, 32], [32, 32], 0)

  /** The bounds that the CCITT sub-blocks LIMB, LIMC, LIMD, FILTA, FILTB, FILTE, FLOAT A and FLOAT B
      are there to keep. */
  predicate Inv(s: State) {
    WellFormed(s) && ScalesInRange(s) && PredictorInRange(s)
  }

  predicate ScalesInRange(s: State) {
    && 544 <= s.yu <= 5120
    && 34816 <= s.yl <= 327680
    && 0 <= s.ap <= 512
    && 0 <= s.dms <= 3584
    && 0 <= s.dml <= 14336
  }

  predicate PredictorInRange(s: State) {
    && PolesStable(s.a)
    && (forall k :: 0 <= k < |s.pk| ==> 0 <= s.pk[k] <= 1)
    && AllFloats(s.dq) && AllFloats(s.sr)
    && 0 <= s.td <= 1
  }

  predicate PolesStable(a: seq<Word>) {
    && |a| == 2
    && -12288 <= a[1] <= 12288
    && -(15360 - a[1]) <= a[0] <= 15360 - a[1]
  }

  predicate AllFloats(f: seq<Word>) {
    forall k :: 0 <= k < |f| ==> IsFloat(f[k])
  }

  type Memory = s: State | WellFormed(s) witness INITIAL

  const START: Memory := INITIAL

  /** predictor_zero(), up to the first `n` terms. */
  function ZeroSum(s: Memory, n: nat): int
    requires n <= 6
  {
    if n == 0 then 0 else ZeroSum(s, n - 1) + Fmult(s.b[n - 1] / 4, s.dq[n - 1])
  }

  function PredictorZero(s: Memory): int {
    ZeroSum(s, 6)
  }

  /** predictor_pole(). */
  function PredictorPole(s: Memory): int {
    Fmult(s.a[1] / 4, s.sr[1]) + Fmult(s.a[0] / 4, s.sr[0]) as int
  }

  /** step_size(). */
  function StepSize(s: Memory): int
  {
    if s.ap >= 256 then s.yu
    else
      var y := s.yl / 64;
      var dif := s.yu - y;
      var al := s.ap / 4;
      if dif > 0 then y + dif * al / 64
      else if dif < 0 then y + (dif * al + 0x3F) / 64
      else y
  }

  /** The step size is a weighted mean of the two scale factors, so it inherits their range. */
  lemma StepSizeRange(s: Memory)
    requires Inv(s)
    ensures 544 <= StepSize(s) <= 5120
  {
    if s.ap < 256 {
      WeightedMean(s.yl / 64, s.yu, s.ap / 4);
    }
  }

  lemma WeightedMean(y: int, yu: int, al: int)
    requires 0 <= al <= 63
    ensures yu - y > 0 ==> y <= y + (yu - y) * al / 64 <= yu
    ensures yu - y < 0 ==> yu <= y + ((yu - y) * al + 0x3F) / 64 <= y
  {
    var dif := yu - y;
    if dif > 0 {
      MulMono(0, al, dif);
      MulMono(al, 63, dif);
    } else if dif < 0 {
      MulMono(0, al, -dif);
      MulMono(al, 63, -dif);
      Distribute(dif, 0, al);
    }
  }

  /** LOG: the base 2 logarithm of a magnitude, 7 fractional bits. */
  function Log(dqm: Word): Word {
    var exp := BitLength(dqm / 2);
    var mant := dqm * 128 / Pow2(exp) % 128;
    ToWord(exp * 128 + mant)
  }

  /** quantize(). */
  function Quantize(d: Word, y: int, table: seq<Word>): (i: int)
    ensures 1 <= i <= 2 * |table| + 1
  {
    var dl := Log(ToWord(if d < 0 then 0 - d else d));
    var dln := ToWord(dl - y / 4);
    var i := Quan(dln, table);
    if d < 0 then 2 * |table| + 1 - i
    else if i == 0 then 2 * |table| + 1
    else i
  }

  /** reconstruct(). */
  function Reconstruct(sign: bool, dqln: Word, y: int): int
  {
    var dql := ToWord(dqln + y / 4);
    if dql < 0 then (if sign then -0x8000 else 0)
    else
      var dex := dql / 128 % 16;
      var dqt := 128 + dql % 128;
      var dq := if dex <= 14 then ToWord(dqt * 128 / Pow2(14 - dex)) else ToWord(dqt * 128 * 2);
      if sign then dq - 0x8000 else dq
  }

  // ----- update(), sub-block by sub-block

  /** TRANS: has a tone already been seen, and is this difference large against the slow scale factor? */
  predicate Transition(yl: int, td: int, mag: int) {
    td != 0 && mag > DqThreshold(yl)
  }

  function DqThreshold(yl: int): int {
    var ylint := yl / 0x8000;
    var ylfrac := yl / 0x400 % 32;
    var thr2 := if ylint > 9 then 31 * 0x400 else ToWord((32 + ylfrac) * TwoTo(ylint));
    (thr2 + thr2 / 2) / 2
  }

  /** `1 << n` for the shift counts that yl can give. */
  function TwoTo(n: int): int {
    if 0 <= n <= 15 then Pow2(n) else 0
  }

  /** FUNCTW, FILTD and LIMB. */
  function NextYu(y: int, wi: int): (yu: Word)
    ensures 544 <= yu <= 5120
  {
    var yu := ToWord(y + (wi - y) / 32);
    if yu < 544 then 544 else if yu > 5120 then 5120 else yu
  }

  /** FILTE. */
  function NextYl(yl: int, yu: Word): int {
    yl + (yu + -yl / 64)
  }

  /** UPA2 and LIMC: a2p. */
  function NextA1(a: seq<Word>, pk: seq<Word>, pk0: Word, dqsez: int): Word
    requires |a| == 2 && |pk| == 2
  {
    var a2p := ToWord(a[1] - a[1] / 128);
    if dqsez == 0 then a2p
    else LimC(TowardsPole(a2p, if pk0 != pk[0] then a[0] else ToWord(-(a[0] as int))), pk0 != pk[1])
  }

  function TowardsPole(a2p: Word, fa1: Word): Word {
    if fa1 < -8191 then ToWord(a2p - 0x100)
    else if fa1 > 8191 then ToWord(a2p + 0xFF)
    else ToWord(a2p + fa1 / 32)
  }

  function LimC(a2p: Word, differs: bool): Word {
    if differs then
      if a2p <= -12160 then -12288 else if a2p >= 12416 then 12288 else ToWord(a2p - 0x80)
    else
      if a2p <= -12416 then -12288 else if a2p >= 12160 then 12288 else ToWord(a2p + 0x80)
  }

  /** UPA1 and LIMD. */
  function NextA0(a0: Word, a2p: Word, pks1: bool, dqsez: int): Word {
    var leaked := ToWord(a0 - a0 / 256);
    var moved := if dqsez == 0 then leaked else if pks1 then ToWord(leaked - 192) else ToWord(leaked + 192);
    var a1ul := ToWord(15360 - a2p);
    if moved < 0 - a1ul then ToWord(0 - a1ul) else if moved > a1ul then a1ul else moved
  }

  /** UPB and XOR: one predictor zero. It may wrap. */
  function NextB(leak: int, b: Word, dq: int, dqk: Word): Word
    requires leak > 0
  {
    var leaked := ToWord(b - b / leak);
    if dq % 0x8000 == 0 then leaked
    else if (dq < 0) == (dqk < 0) then ToWord(leaked + 128)
    else ToWord(leaked - 128)
  }

  function NextZeros(leak: int, b: seq<Word>, dq: int, dqs: seq<Word>): (r: seq<Word>)
    requires leak > 0 && |b| == |dqs|
    ensures |r| == |b|
  {
    seq(|b|, k requires 0 <= k < |b| => NextB(leak, b[k], dq, dqs[k]))
  }

  /** FILTA and FILTB. */
  function NextDms(dms: Word, fi: int): Word { ToWord(dms + (fi - dms) / 32) }

  function NextDml(dml: Word, fi: int): Word { ToWord(dml + (fi * 4 - dml) / 128) }

  /** SUBTC and FILTC: the speed control moves towards 0x200 or towards 0. */
  function NextAp(tr: bool, y: int, td: int, dms: Word, dml: Word, ap: Word): Word {
    if tr then 256
    else if y < 1536 || td == 1 || Distance(dms * 4, dml) >= dml / 8 then ToWord(ap + (0x200 - ap) / 16)
    else ToWord(ap + (0 - ap) / 16)
  }

  /** TONE. */
  function NextTd(tr: bool, a2p: Word): int {
    if tr then 0 else if a2p < -11776 then 1 else 0
  }

  /** The leak of the predictor zeros: 9 bits in the 40 kbit/s coder, 8 in the others. */
  function Leak(codeSize: int): (leak: int)
    ensures leak > 0
  {
    if codeSize == 5 then 512 else 256
  }

  /** update() as one function of the state. */
  function Update(codeSize: int, y: int, wi: int, fi: int, dq: Word, sr: Word, dqsez: Word, s: Memory): Memory
  {
    var pk0: Word := if dqsez < 0 then 1 else 0;
    var tr := Transition(s.yl, s.td, dq % 0x8000);
    var yu := NextYu(y, wi);
    var a1 := NextA1(s.a, s.pk, pk0, dqsez);
    var a0 := NextA0(s.a[0], a1, pk0 != s.pk[0], dqsez);
    var td := NextTd(tr, a1);
    var dms := NextDms(s.dms, fi);
    var dml := NextDml(s.dml, fi);
    State(NextYl(s.yl, yu), yu, dms, dml, NextAp(tr, y, td, dms, dml, s.ap),
          Pair(if tr then 0 else a0, if tr then 0 else a1),
          if tr then NOTHING else NextZeros(Leak(codeSize), s.b, dq, s.dq),
          Pair(pk0, s.pk[0]),
          Delayed(FloatDq(dq), s.dq),
          Pair(FloatSr(sr), s.sr[0]),
          td)
  }

  const NOTHING: seq<Word> := [0, 0, 0, 0, 0, 0]

  function Pair(x: Word, y: Word): (p: seq<Word>)
    ensures p == [x, y]
  {
    [x, y]
  }

  /** The delay line of differences after a new one. */
  function Delayed(f: Word, dq: seq<Word>): (r: seq<Word>)
    requires |dq| == 6
    ensures r == [f] + dq[..5]
  {
    [f] + dq[..5]
  }

  // ----- what update() keeps

  /** The threshold that wraps, at yl = 327680, is the one that is not used. */
  lemma ThresholdDoesNotWrap(yl: int)
    requires 34816 <= yl <= 327680
    ensures yl / 0x8000 <= 9 ==> 0 <= (32 + yl / 0x400 % 32) * Pow2(yl / 0x8000) < 0x8000
    ensures yl / 0x8000 > 9 ==> yl == 327680
  {
    Pow2Values();
    var n := yl / 0x8000;
    if n <= 9 {
      Pow2Add(n, 9 - n);
      MulMono(1, Pow2(9 - n), Pow2(n));
      ProductBound(32 + yl / 0x400 % 32, Pow2(n), 63, 512);
      MulMono(0, Pow2(n), 32 + yl / 0x400 % 32);
    }
  }

  lemma YlStaysInRange(yl: int, yu: Word)
    requires 34816 <= yl <= 327680 && 544 <= yu <= 5120
    ensures 34816 <= NextYl(yl, yu) <= 327680
  {
  }

  lemma PolesStayStable(a: seq<Word>, pk: seq<Word>, pk0: Word, dqsez: int)
    requires PolesStable(a) && |pk| == 2
    ensures PolesStable([NextA0(a[0], NextA1(a, pk, pk0, dqsez), pk0 != pk[0], dqsez), NextA1(a, pk, pk0, dqsez)])
  {
    LimCRange(a, pk, pk0, dqsez);
    hide NextA1;
  }

  lemma LimCRange(a: seq<Word>, pk: seq<Word>, pk0: Word, dqsez: int)
    requires PolesStable(a) && |pk| == 2
    ensures -12288 <= NextA1(a, pk, pk0, dqsez) <= 12288
  {
  }

  lemma AveragesStayInRange(dms: Word, dml: Word, fi: int)
    requires 0 <= dms <= 3584 && 0 <= dml <= 14336 && 0 <= fi <= 0xE00
    ensures 0 <= NextDms(dms, fi) <= 3584 && 0 <= NextDml(dml, fi) <= 14336
  {
  }

  lemma SpeedStaysInRange(tr: bool, y: int, td: int, dms: Word, dml: Word, ap: Word)
    requires 0 <= ap <= 512
    ensures 0 <= NextAp(tr, y, td, dms, dml, ap) <= 512
  {
  }

  lemma UpdateKeepsScales(codeSize: int, y: int, wi: int, fi: int, dq: Word, sr: Word, dqsez: Word, s: Memory)
    requires ScalesInRange(s) && 0 <= fi <= 0xE00
    ensures ScalesInRange(Update(codeSize, y, wi, fi, dq, sr, dqsez, s))
  {
    var pk0: Word := if dqsez < 0 then 1 else 0;
    var tr := Transition(s.yl, s.td, dq % 0x8000);
    var td := NextTd(tr, NextA1(s.a, s.pk, pk0, dqsez));
    YlStaysInRange(s.yl, NextYu(y, wi));
    AveragesStayInRange(s.dms, s.dml, fi);
    SpeedStaysInRange(tr, y, td, NextDms(s.dms, fi), NextDml(s.dml, fi), s.ap);
    hide Delayed, FloatDq, FloatSr, Leak, NextA0, NextA1, NextAp, NextDml, NextDms, NextTd, NextYl;
    hide NextYu, NextZeros, Pair, Transition;
  }

  lemma DelayLine(f: Word, dq: seq<Word>)
    requires IsFloat(f) && |dq| == 6 && AllFloats(dq)
    ensures AllFloats([f] + dq[..5])
  {
    hide IsFloat;
  }

  lemma UpdateKeepsPredictor(codeSize: int, y: int, wi: int, fi: int, dq: Word, sr: Word, dqsez: Word, s: Memory)
    requires PredictorInRange(s)
    ensures PredictorInRange(Update(codeSize, y, wi, fi, dq, sr, dqsez, s))
  {
    hide Delayed, FloatDq, FloatSr, IsFloat, Leak, NextA0, NextA1, Pair, Transition, Update;
    var pk0: Word := if dqsez < 0 then 1 else 0;
    PolesStayStable(s.a, s.pk, pk0, dqsez);
    DqIsFloat(dq);
    SrIsFloat(sr);
    DelayLine(FloatDq(dq), s.dq);
    UpdatedPredictor(codeSize, y, wi, fi, dq, sr, dqsez, s);
    var u := Update(codeSize, y, wi, fi, dq, sr, dqsez, s);
    assert PolesStable(u.a);
    assert AllFloats(u.sr);
  }

  /** The parts of the state that the predictor uses, after update(). */
  lemma UpdatedPredictor(codeSize: int, y: int, wi: int, fi: int, dq: Word, sr: Word, dqsez: Word, s: Memory)
    ensures var u := Update(codeSize, y, wi, fi, dq, sr, dqsez, s);
            var pk0: Word := if dqsez < 0 then 1 else 0;
            && u.dq == [FloatDq(dq)] + s.dq[..5] && u.pk == [pk0, s.pk[0]] && u.sr == [FloatSr(sr), s.sr[0]]
            && 0 <= u.td <= 1
            && var a1 := NextA1(s.a, s.pk, pk0, dqsez);
               (u.a == [0, 0] || u.a == [NextA0(s.a[0], a1, pk0 != s.pk[0], dqsez), a1])
  {
    hide FloatDq, FloatSr, Leak, NextA0, NextA1, NextAp, NextDml, NextDms, NextYl, NextYu, NextZeros, Transition;
  }

  /** Every call of update() keeps the invariant, whatever the code was. */
  lemma UpdateKeepsInv(codeSize: int, y: int, wi: int, fi: int, dq: Word, sr: Word, dqsez: Word, s: Memory)
    requires Inv(s) && 0 <= fi <= 0xE00
    ensures Inv(Update(codeSize, y, wi, fi, dq, sr, dqsez, s))
  {
    UpdateKeepsScales(codeSize, y, wi, fi, dq, sr, dqsez, s);
    UpdateKeepsPredictor(codeSize, y, wi, fi, dq, sr, dqsez, s);
    hide Update;
    hide ScalesInRange;
    hide PredictorInRange;
  }

  // ----- struct g72x_state, updated in place

  class G72xState {
    var yl: int
    var yu: Word
    var dms: Word
    var dml: Word
    var ap: Word
    const a: array<Word>
    const b: array<Word>
    const pk: array<Word>
    const dq: array<Word>
    const sr: array<Word>
    var td: int

    ghost predicate Valid() {
      && a.Length == 2 && b.Length == 6 && pk.Length == 2 && dq.Length == 6 && sr.Length == 2
      && a != b && a != pk && a != dq && a != sr && b != pk && b != dq && b != sr
      && pk != dq && pk != sr && dq != sr
    }

    ghost function Repr(): set<object> {
      {this, a, b, pk, dq, sr}
    }

    ghost function View(): Memory
      requires Valid()
      reads Repr()
    {
      State(yl, yu, dms, dml, ap, a[..], b[..], pk[..], dq[..], sr[..], td)
    }

    /** g72x_init_state(). */
    constructor ()
      ensures Valid() && fresh(Repr())
      ensures View() == INITIAL
    {
      yl, yu, dms, dml, ap, td := 34816, 544, 0, 0, 0, 0;
      a := new Word[2](_ => 0);
      pk := new Word[2](_ => 0);
      sr := new Word[2](_ => 32);
      b := new Word[6](_ => 0);
      dq := new Word[6](_ => 32);
      new;
      assert a[..] == [0, 0] && pk[..] == [0, 0] && sr[..] == [32, 32];
      assert b[..] == [0, 0, 0, 0, 0, 0] && dq[..] == [32, 32, 32, 32, 32, 32];
    }

    /** predictor_zero(). */
    method SumZeros() returns (sezi: int)
      requires Valid()
      ensures sezi == PredictorZero(View())
    {
      hide Fmult;
      ghost var s := View();
      sezi := Fmult(b[0] / 4, dq[0]);
      assert sezi == ZeroSum(s, 1) by {
        assert ZeroSum(s, 0) == 0;
      }
      var i := 1;
      while i < 6
        invariant 1 <= i <= 6
        invariant sezi == ZeroSum(s, i)
      {
        sezi := sezi + Fmult(b[i] / 4, dq[i]);
        i := i + 1;
      }
    }

    /** predictor_pole(). */
    method SumPoles() returns (p: int)
      requires Valid()
      ensures p == PredictorPole(View())
    {
      hide Fmult;
      p := Fmult(a[1] / 4, sr[1]) as int + Fmult(a[0] / 4, sr[0]) as int;
    }

    /** step_size(). */
    method Mix() returns (y: int)
      requires Valid()
      ensures y == StepSize(View())
    {
      if ap >= 256 { return yu; }
      y := yl / 64;
      var dif := yu - y;
      var al := ap / 4;
      if dif > 0 {
        y := y + dif * al / 64;
      } else if dif < 0 {
        y := y + (dif * al + 0x3F) / 64;
      }
    }

    /** FUNCTW, FILTD, LIMB and FILTE. */
    method AdaptScales(y: int, wi: int)
      requires Valid()
      modifies this`yu, this`yl
      ensures yu == NextYu(y, wi) && yl == NextYl(old(yl), yu)
    {
      yu := ToWord(y + (wi - y) / 32);
      if yu < 544 {
        yu := 544;
      } else if yu > 5120 {
        yu := 5120;
      }
      yl := yl + (yu + -yl / 64);
    }

    /** UPA2 and LIMC: the new a[1]. */
    method LimitedPole(pk0: Word, dqsez: Word) returns (a2p: Word)
      requires Valid()
      ensures a2p == NextA1(a[..], pk[..], pk0, dqsez)
    {
      hide ToWord;
      a2p := ToWord(a[1] - a[1] / 128);
      if dqsez != 0 {
        var fa1 := if pk0 != pk[0] then a[0] else ToWord(-(a[0] as int));
        if fa1 < -8191 {
          a2p := ToWord(a2p - 0x100);
        } else if fa1 > 8191 {
          a2p := ToWord(a2p + 0xFF);
        } else {
          a2p := ToWord(a2p + fa1 / 32);
        }
        if pk0 != pk[1] {
          a2p := if a2p <= -12160 then -12288 else if a2p >= 12416 then 12288 else ToWord(a2p - 0x80);
        } else if a2p <= -12416 {
          a2p := -12288;
        } else if a2p >= 12160 {
          a2p := 12288;
        } else {
          a2p := ToWord(a2p + 0x80);
        }
      }
    }

    /** UPA1 and LIMD: the new a[0]. */
    method UpdateA0(pks1: bool, a2p: Word, dqsez: Word)
      requires Valid()
      modifies a
      ensures a[0] == NextA0(old(a[0]), a2p, pks1, dqsez) && a[1] == old(a[1])
    {
      hide ToWord;
      a[0] := ToWord(a[0] - a[0] / 256);
      if dqsez != 0 {
        if !pks1 {
          a[0] := ToWord((a[0] as int) + 192);
        } else {
          a[0] := ToWord((a[0] as int) - 192);
        }
      }
      var a1ul := ToWord(15360 - a2p);
      if a[0] < -(a1ul as int) {
        a[0] := ToWord(-(a1ul as int));
      } else if a[0] > a1ul {
        a[0] := a1ul;
      }
    }

    /** UPB. */
    method UpdateZeros(codeSize: int, d: Word)
      requires Valid()
      modifies b
      ensures b[..] == NextZeros(Leak(codeSize), old(b[..]), d, dq[..])
    {
      var cnt := 0;
      while cnt < 6
        invariant 0 <= cnt <= 6
        invariant forall k :: 0 <= k < cnt ==> b[k] == NextB(Leak(codeSize), old(b[k]), d, dq[k])
        invariant forall k :: cnt <= k < 6 ==> b[k] == old(b[k])
      {
        b[cnt] := ToWord(b[cnt] - b[cnt] / Leak(codeSize));
        if d % 0x8000 != 0 {
          if (d < 0) == (dq[cnt] < 0) {
            b[cnt] := ToWord((b[cnt] as int) + 128);
          } else {
            b[cnt] := ToWord((b[cnt] as int) - 128);
          }
        }
        cnt := cnt + 1;
      }
    }

    /** The delay line of differences, with FLOAT A at its head. */
    method DelayDq(d: Word)
      requires Valid()
      modifies dq
      ensures dq[..] == [FloatDq(d)] + old(dq[..])[..5]
    {
      hide FloatDq;
      var cnt := 5;
      while cnt > 0
        invariant 0 <= cnt <= 5
        invariant forall k :: 0 <= k <= cnt ==> dq[k] == old(dq[k])
        invariant forall k :: cnt < k < 6 ==> dq[k] == old(dq[k - 1])
      {
        dq[cnt] := dq[cnt - 1];
        cnt := cnt - 1;
      }
      dq[0] := FloatDq(d);
    }

    /** FILTA, FILTB, SUBTC and FILTC. */
    method AdaptSpeed(tr: bool, y: int, fi: int)
      requires Valid()
      modifies this`dms, this`dml, this`ap
      ensures dms == NextDms(old(dms), fi) && dml == NextDml(old(dml), fi)
      ensures ap == NextAp(tr, y, td, dms, dml, old(ap))
    {
      dms := ToWord(dms + (fi - dms) / 32);
      dml := ToWord(dml + (fi * 4 - dml) / 128);
      if tr {
        ap := 256;
      } else if y < 1536 {
        ap := ToWord(ap + (0x200 - ap) / 16);
      } else if td == 1 {
        ap := ToWord(ap + (0x200 - ap) / 16);
      } else if Distance(dms * 4, dml) >= dml / 8 {
        ap := ToWord(ap + (0x200 - ap) / 16);
      } else {
        ap := ToWord(ap + (0 - ap) / 16);
      }
    }

    /** The coefficients of the predictor: reset on a transition, adapted otherwise. */
    method AdaptPredictor(tr: bool, pk0: Word, codeSize: int, d: Word, dqsez: Word) returns (a2p: Word)
      requires Valid()
      modifies a, b
      ensures var a1 := NextA1(old(a[..]), pk[..], pk0, dqsez);
              && a2p == (if tr then 0 else a1)
              && a[..] == (if tr then [0, 0] else [NextA0(old(a[0]), a1, pk0 != pk[0], dqsez), a1])
      ensures b[..] == if tr then NOTHING else NextZeros(Leak(codeSize), old(b[..]), d, dq[..])
    {
      hide Leak, NextA0, NextA1, NextZeros;
      a2p := 0;
      if tr {
        forall k | 0 <= k < 2 { a[k] := 0; }
        forall k | 0 <= k < 6 { b[k] := 0; }
        assert a[..] == [0, 0] && b[..] == [0, 0, 0, 0, 0, 0];
      } else {
        a2p := LimitedPole(pk0, dqsez);
        a[1] := a2p;
        UpdateA0(pk0 != pk[0], a2p, dqsez);
        UpdateZeros(codeSize, d);
      }
    }

    /** update(). */
    method Adapt(codeSize: int, y: int, wi: int, fi: int, d: Word, r: Word, dqsez: Word)
      requires Valid()
      modifies Repr()
      ensures View() == Update(codeSize, y, wi, fi, d, r, dqsez, old(View()))
    {
      hide Delayed, FloatDq, FloatSr, Leak, NextA0, NextA1, NextAp, NextDml, NextDms, NextYl, NextYu;
      hide NextZeros, Pair, Transition;
      var pk0: Word := if dqsez < 0 then 1 else 0;
      var tr := Transition(yl, td, d % 0x8000);
      AdaptScales(y, wi);
      var a2p := AdaptPredictor(tr, pk0, codeSize, d, dqsez);
      DelayDq(d);
      sr[1] := sr[0];
      sr[0] := FloatSr(r);
      pk[1] := pk[0];
      pk[0] := pk0;
      td := if tr then 0 else if a2p < -11776 then 1 else 0;
      AdaptSpeed(tr, y, fi);
    }
  }
}
