/** LPC analysis (gsm/lpc.c, integer versions; sections 4.2.4 to 4.2.7 of GSM 06.10). */
module Lpc {
  import opened FixedPoint
  import opened ShortTerm
  import opened Types

  // ----- 4.2.4 autocorrelation

  /** `scalauto`. */
  function ScaleFactor(smax: Word): int
    requires 0 <= smax
  {
    if smax == 0 then 0 else 4 - GsmNorm(smax * 0x1_0000)
  }

  lemma ScaleFactorRange(smax: Word)
    requires 0 <= smax
    ensures ScaleFactor(smax) <= 4
    ensures ScaleFactor(smax) == 4 <==> smax >= 0x4000
    ensures ScaleFactor(smax) == 3 <==> 0x2000 <= smax < 0x4000
    ensures ScaleFactor(smax) == 2 <==> 0x1000 <= smax < 0x2000
    ensures ScaleFactor(smax) == 1 <==> 0x800 <= smax < 0x1000
    ensures ScaleFactor(smax) <= 0 <==> smax < 0x800
  {
  }

  /** SCALE(n) on one sample. */
  function ScaleDown(x: Word, n: int): Word
    requires n <= 4
  {
    if n == 1 then GsmMultR(x, 16384)
    else if n == 2 then GsmMultR(x, 8192)
    else if n == 3 then GsmMultR(x, 4096)
    else if n == 4 then GsmMultR(x, 2048)
    else x
  }

  /** `*s <<= scalauto`, in 16 bits. */
  function ScaleUp(x: Word, n: int): Word
    requires n <= 4
  {
    if n == 1 then ToWord(x * 2)
    else if n == 2 then ToWord(x * 4)
    else if n == 3 then ToWord(x * 8)
    else if n == 4 then ToWord(x * 16)
    else x
  }

  /** Dynamic scaling brings every sample into [-2048, 2048]. */
  lemma ScaledSampleBound(x: Word, smax: Word)
    requires GsmAbs(x) <= smax
    ensures ScaleFactor(smax) <= 4 && -2048 <= ScaleDown(x, ScaleFactor(smax)) <= 2048
  {
    ScaleFactorRange(smax);
  }

  /** Scaling down is division by 2^n, rounded to nearest. */
  lemma ScaleDownRounds(x: Word, n: int)
    requires 1 <= n <= 4
    ensures n == 1 ==> ScaleDown(x, n) == (x + 1) / 2
    ensures n == 2 ==> ScaleDown(x, n) == (x + 2) / 4
    ensures n == 3 ==> ScaleDown(x, n) == (x + 4) / 8
    ensures n == 4 ==> ScaleDown(x, n) == (x + 8) / 16
  {
  }

  /** The rescaling at the end of Autocorrelation brings a sample back to within half a scaling step
      if and only if it was below 32760: a sample of 32760 or more comes back as -32768. */
  lemma RescalingIsFaithfulIff(x: Word, smax: Word)
    requires GsmAbs(x) <= smax
    ensures ScaleFactor(smax) <= 4
    ensures var n := ScaleFactor(smax);
            Near(ScaleUp(ScaleDown(x, n), n), x, n) <==> x < 32760
    ensures x >= 32760 ==> ScaleUp(ScaleDown(x, ScaleFactor(smax)), ScaleFactor(smax)) == MIN_WORD
  {
    hide ScaleDown;
    hide ScaleFactor;
    ScaleFactorRange(smax);
    var n := ScaleFactor(smax);
    if n > 0 {
      ScaleDownRounds(x, n);
      var y := ScaleDown(x, n);
      if n == 4 {
        RoundedBy16(x, y);
      } else {
        RoundedByLess(x, y, n);
      }
    } else {
      NoScaling([x], n);
      assert [x][0] == x;
    }
  }

  /** Two samples differ by at most half of 2^n (of nothing when there was no scaling). */
  predicate Near(y: Word, x: Word, n: int) {
    var half := if n == 4 then 8 else if n == 3 then 4 else if n == 2 then 2 else if n == 1 then 1 else 0;
    -half <= y - x <= half
  }

  lemma RoundedBy16(x: Word, y: int)
    requires y == (x + 8) / 16
    ensures -8 <= 16 * y - x <= 8
    ensures ToWord(16 * y) == if x >= 32760 then MIN_WORD else 16 * y
  {
  }

  lemma RoundedByLess(x: Word, y: int, n: int)
    requires 0 - 0x4000 < x < 0x4000 && 1 <= n <= 3
    requires y == if n == 1 then (x + 1) / 2 else if n == 2 then (x + 2) / 4 else (x + 4) / 8
    ensures n == 1 ==> -1 <= 2 * y - x <= 1 && ToWord(2 * y) == 2 * y
    ensures n == 2 ==> -2 <= 4 * y - x <= 2 && ToWord(4 * y) == 4 * y
    ensures n == 3 ==> -4 <= 8 * y - x <= 4 && ToWord(8 * y) == 8 * y
  {
  }

  // ----- the correlation sums

  function Product(a: int, b: int): int {
    a * b
  }

  /** sum of s[i] * s[i-k] for k <= i < n. */
  function Corr(s: seq<Word>, k: nat, n: nat): int
    requires n <= |s|
  {
    if n <= k then 0 else Corr(s, k, n - 1) + Product(s[n - 1], s[n - 1 - k])
  }

  /** Every sample is within the range the dynamic scaling guarantees. */
  predicate Scaled(s: seq<Word>) {
    forall i :: 0 <= i < |s| ==> -2048 <= s[i] <= 2048
  }

  lemma SquareBound(x: int, b: int)
    requires -b <= x <= b
    ensures 0 <= x * x <= b * b
  {
    if x >= 0 {
      MulMono(x, b, x);
      MulMono(x, b, b);
    } else {
      MulMono(-x, b, -x);
      MulMono(-x, b, b);
    }
  }

  lemma ProductBelowSquares(x: int, y: int)
    ensures -(x * x + y * y) <= 2 * (x * y) <= x * x + y * y
  {
    SquareBound(x - y, if x - y < 0 then y - x else x - y);
    SquareBound(x + y, if x + y < 0 then -x - y else x + y);
    assert (x - y) * (x - y) == x * x - 2 * (x * y) + y * y;
    assert (x + y) * (x + y) == x * x + 2 * (x * y) + y * y;
  }

  /** The energy of a prefix is non-negative, grows with the prefix and, for scaled samples, is at
      most 2^22 per sample. */
  lemma {:induction false} EnergyBounds(s: seq<Word>, m: nat, n: nat)
    requires m <= n <= |s|
    ensures 0 <= Corr(s, 0, m) <= Corr(s, 0, n)
    ensures Scaled(s) ==> Corr(s, 0, n) <= n * 0x40_0000
  {
    if n > 0 {
      EnergyBounds(s, if m < n then m else n - 1, n - 1);
      SquareBound(s[n - 1], 0x8000);
      if Scaled(s) {
        SquareBound(s[n - 1], 2048);
      }
    }
  }

  lemma {:induction false} CorrBelowEnergies(s: seq<Word>, k: nat, n: nat)
    requires k <= n <= |s|
    ensures -(Corr(s, 0, n) + Corr(s, 0, n - k)) <= 2 * Corr(s, k, n) <= Corr(s, 0, n) + Corr(s, 0, n - k)
  {
    if n > k {
      CorrBelowEnergies(s, k, n - 1);
      ProductBelowSquares(s[n - 1], s[n - 1 - k]);
    } else {
      EnergyBounds(s, 0, n);
    }
  }

  /** |L_ACF[k]| <= L_ACF[0], for every lag and every prefix of the signal. */
  lemma CorrBelowEnergy(s: seq<Word>, k: nat, n: nat)
    requires n <= |s|
    ensures -Corr(s, 0, n) <= Corr(s, k, n) <= Corr(s, 0, n)
  {
    EnergyBounds(s, 0, n);
    if k <= n {
      CorrBelowEnergies(s, k, n);
      EnergyBounds(s, n - k, n);
    }
  }

  /** No partial sum, nor its double, leaves 32 bits. */
  lemma CorrFits(s: seq<Word>, k: nat, n: nat)
    requires n <= |s| <= 160 && Scaled(s)
    ensures MIN_LONGWORD <= 2 * Corr(s, k, n) <= MAX_LONGWORD
  {
    CorrBelowEnergy(s, k, n);
    EnergyBounds(s, 0, n);
  }

  function ScaledSignal(s: seq<Word>): (t: seq<Word>)
    ensures |t| == |s|
    ensures Scaled(t)
  {
    var smax := MaxAbs(s);
    ScaleFactorRange(smax);
    forall i | 0 <= i < |s| ensures -2048 <= ScaleDown(s[i], ScaleFactor(smax)) <= 2048 {
      ScaledSampleBound(s[i], smax);
    }
    hide ScaleDown;
    seq(|s|, i requires 0 <= i < |s| => ScaleDown(s[i], ScaleFactor(smax)))
  }

  /** Autocorrelation.  The sums are the plain ones of the scaled signal, and `s` is left rescaled. */
  method Autocorrelation(s: array<Word>, lAcf: array<LongWord>)
    requires s.Length == 160 && lAcf.Length == 9 && s as object != lAcf
    modifies s, lAcf
    ensures forall k :: 0 <= k <= 8 ==> lAcf[k] == 2 * Corr(ScaledSignal(old(s[..])), k, 160)
    ensures var n := ScaleFactor(MaxAbs(old(s[..])));
            n <= 4 && forall i :: 0 <= i < 160 ==> s[i] == ScaleUp(ScaleDown(old(s[i]), n), n)
  {
    hide ScaleDown;
    hide ScaleUp;
    ghost var s0 := s[..];
    var smax := 0;
    for k := 0 to 160
      invariant smax == MaxAbs(s0[..k])
    {
      assert s0[..k + 1][..k] == s0[..k];
      var temp := GsmAbs(s[k]);
      if temp > smax { smax := temp; }
    }
    assert s0[..160] == s0;
    ScaleFactorRange(smax);
    var scalauto := ScaleFactor(smax);
    if scalauto > 0 {
      for k := 0 to 160
        invariant forall i :: 0 <= i < k ==> s[i] == ScaleDown(s0[i], scalauto)
        invariant forall i :: k <= i < 160 ==> s[i] == s0[i]
      {
        s[k] := ScaleDown(s[k], scalauto);
      }
    } else {
      NoScaling(s0, scalauto);
    }
    ghost var t := ScaledSignal(s0);
    assert forall i :: 0 <= i < 160 ==> t[i] == ScaleDown(s0[i], scalauto);
    assert s[..] == t;
    SumProducts(s, lAcf);
    if scalauto > 0 {
      for k := 0 to 160
        invariant forall i :: 0 <= i <= 8 ==> lAcf[i] == 2 * Corr(t, i, 160)
        invariant forall i :: 0 <= i < k ==> s[i] == ScaleUp(t[i], scalauto)
        invariant forall i :: k <= i < 160 ==> s[i] == t[i]
      {
        s[k] := ScaleUp(s[k], scalauto);
      }
    }
  }

  lemma NoScaling(s: seq<Word>, n: int)
    requires n <= 0
    ensures forall i :: 0 <= i < |s| ==> ScaleDown(s[i], n) == s[i] && ScaleUp(s[i], n) == s[i]
  {
  }

  /** The summation of Autocorrelation: every product is added as its sample arrives. */
  method SumProducts(s: array<Word>, lAcf: array<LongWord>)
    requires s.Length == 160 && lAcf.Length == 9 && s as object != lAcf && Scaled(s[..])
    modifies lAcf
    ensures forall k :: 0 <= k <= 8 ==> lAcf[k] == 2 * Corr(s[..], k, 160)
  {
    ghost var t := s[..];
    for k := 0 to 9
      invariant forall j :: 0 <= j < k ==> lAcf[j] == 0
    {
      lAcf[k] := 0;
    }
    for i := 0 to 160
      invariant forall j :: 0 <= j <= 8 ==> lAcf[j] == Corr(t, j, i)
    {
      var lags := if i < 8 then i + 1 else 9;
      for k := 0 to lags
        invariant forall j :: 0 <= j < k ==> lAcf[j] == Corr(t, j, i + 1)
        invariant forall j :: k <= j <= 8 ==> lAcf[j] == Corr(t, j, i)
      {
        CorrFits(t, k, i + 1);
        lAcf[k] := lAcf[k] + Product(s[i], s[i - k]);
      }
    }
    for k := 0 to 9
      invariant forall j :: 0 <= j < k ==> lAcf[j] == 2 * Corr(t, j, 160)
      invariant forall j :: k <= j <= 8 ==> lAcf[j] == Corr(t, j, 160)
    {
      CorrFits(t, k, 160);
      lAcf[k] := lAcf[k] * 2;
    }
  }

  // ----- 4.2.5 Schur recursion

  type Lags = s: seq<LongWord> | |s| == 9 witness [0, 0, 0, 0, 0, 0, 0, 0, 0]

  /** The bound that autocorrelation values satisfy and the normalising shift relies on. */
  predicate Dominated(acf: Lags) {
    forall k :: 0 <= k <= 8 ==> Within(acf[k], acf[0])
  }

  predicate Within(x: int, bound: int) {
    -bound <= x <= bound
  }

  /** ACF[i] = SASR( L_ACF[i] << temp, 16 ). */
  function Normalised(x: int, temp: nat): Word
  {
    ToWord(x * Pow2(temp) / 0x1_0000)
  }

  /** The answer to the source's "? overflow ?": shifting every lag by gsm_norm(L_ACF[0]) stays
      within 32 bits, the top half is a word, and lag 0 becomes at least 2^14. */
  lemma NormalisingFits(acf: Lags, k: nat)
    requires Dominated(acf) && acf[0] != 0 && k <= 8
    ensures var temp := GsmNorm(acf[0]);
            && 0 <= temp < 32
            && MIN_LONGWORD <= acf[k] * Pow2(temp) <= MAX_LONGWORD
            && Normalised(acf[k], temp) == acf[k] * Pow2(temp) / 0x1_0000
            && Normalised(acf[0], temp) >= 0x4000
  {
    hide GsmNorm;
    assert Within(acf[0], acf[0]) && Within(acf[k], acf[0]);
    NormOfPositive(acf[0]);
    var p := Pow2(GsmNorm(acf[0]));
    MulMono(acf[k], acf[0], p);
    MulMono(-acf[0], acf[k], p);
    assert -acf[0] * p == -(acf[0] * p);
  }

  /** One coefficient of the recursion: minus the sign of P[1] times |P[1]| / P[0] in Q15. */
  function Reflect(p0: Word, p1: Word): (r: Word)
    requires GsmAbs(p1) <= p0
    ensures r != MIN_WORD
  {
    var q := Div(GsmAbs(p1), p0);
    if p1 > 0 then -q else q
  }

  /** The update of P[] and K[] in round `n`, all entries from their old values. */
  function SchurP(p: Memory9, k: Memory9, n: nat, r: Word): Memory9
    requires 1 <= n <= 8
  {
    seq(9, m requires 0 <= m < 9 =>
      if m == 0 then GsmAdd(p[0], GsmMultR(p[1], r))
      else if m <= 8 - n then GsmAdd(p[m + 1], GsmMultR(k[m], r))
      else p[m])
  }

  function SchurK(p: Memory9, k: Memory9, n: nat, r: Word): Memory9
    requires 1 <= n <= 8
  {
    seq(9, m requires 0 <= m < 9 =>
      if 1 <= m <= 8 - n then GsmAdd(k[m], GsmMultR(p[m + 1], r)) else k[m])
  }

  function Zeros(n: nat): (z: seq<Word>)
    ensures |z| == n
    ensures forall i :: 0 <= i < n ==> z[i] == 0
  {
    seq(n, _ => 0)
  }

  /** The coefficients from round `n` on; an unstable round ends the list with zeros. */
  function Schur(p: Memory9, k: Memory9, n: nat): (r: seq<Word>)
    requires 1 <= n <= 9
    ensures |r| == 9 - n
    ensures forall i :: 0 <= i < |r| ==> r[i] != MIN_WORD
    decreases 9 - n
  {
    if n == 9 then []
    else if p[0] < GsmAbs(p[1]) then Zeros(9 - n)
    else
      var r := Reflect(p[0], p[1]);
      [r] + Schur(SchurP(p, k, n, r), SchurK(p, k, n, r), n + 1)
  }

  /** The prediction error energy P[0] stays non-negative and never grows, so each later division
      meets the precondition of gsm_div. */
  lemma EnergyDecreases(p0: Word, p1: Word)
    requires GsmAbs(p1) <= p0
    ensures 0 <= GsmAdd(p0, GsmMultR(p1, Reflect(p0, p1))) <= p0
  {
    var r, x: int := Reflect(p0, p1), p1;
    ReflectSign(p0, p1);
    hide Reflect;
    if x > 0 {
      MulMono(-0x7FFF, r, x);
      MulMono(r, 0, x);
      RoundedFraction(r * x, x);
    } else {
      MulMono(r, 0x7FFF, -x);
      MulMono(0, r, -x);
      assert r * x == -(r * -x);
      RoundedFraction(r * x, -x);
    }
    assert p1 * r == r * x;
  }

  lemma RoundedFraction(t: int, x: int)
    requires 0 <= x <= 0x8000 && -0x7FFF * x <= t <= 0
    ensures -x <= (t + 16384) / 0x8000 <= 0
  {
  }

  lemma ReflectSign(p0: Word, p1: Word)
    requires GsmAbs(p1) <= p0
    ensures p1 > 0 ==> Reflect(p0, p1) <= 0
    ensures p1 <= 0 ==> Reflect(p0, p1) >= 0
  {
  }

  /** A round of the recursion passes the correlations through the stage of the analysis lattice that its
      coefficient is for: P[m + 1] as the signal, K[m] as the memory word. */
  lemma SchurRoundIsLatticeStage(p: Memory9, k: Memory9, n: nat, r: Word, m: nat, rp: Taps, u: Taps)
    requires 1 <= n <= 8 && 1 <= m <= 8 - n && rp[0] == r && u[0] == k[m]
    ensures Forward(rp, u, p[m + 1], 1) == (SchurP(p, k, n, r)[m], SchurK(p, k, n, r)[m])
  {
    SchurAt(p, k, n, r, m);
    FirstStage(rp, u, p[m + 1]);
    ProductCommutes(k[m], r);
    ProductCommutes(p[m + 1], r);
    hide GsmAdd, GsmMultR, SchurP, SchurK, Forward;
  }

  lemma FirstStage(rp: Taps, u: Taps, s: Word)
    ensures Forward(rp, u, s, 1) == (GsmAdd(s, GsmMultR(rp[0], u[0])), GsmAdd(u[0], GsmMultR(rp[0], s)))
  {
    hide GsmAdd, GsmMultR;
    assert Forward(rp, u, s, 0) == (s, s);
  }

  lemma ProductCommutes(a: Word, b: Word)
    ensures GsmMultR(a, b) == GsmMultR(b, a)
  {
    assert a * b == b * a;
  }

  /** And the coefficient is the one that makes the stage cancel the first correlation: of P[1] the stage
      leaves at most one unit, and of the energy P[0] what EnergyDecreases says. */
  lemma ReflectionCancels(p: Memory9, k: Memory9, rp: Taps, u: Taps)
    requires GsmAbs(p[1]) <= p[0] && p[1] != MIN_WORD && rp[0] == Reflect(p[0], p[1]) && u[0] == p[1]
    ensures var (energy, left) := Forward(rp, u, p[0], 1);
            -1 <= left <= 1 && energy == SchurP(p, k, 1, rp[0])[0] && 0 <= energy <= p[0]
  {
    EnergyDecreases(p[0], p[1]);
    SchurEnds(p, k, 1, rp[0]);
    FirstStage(rp, u, p[0]);
    ProductCommutes(p[1], rp[0]);
    CoefficientCancels(p[0], p[1]);
    hide GsmMultR, SchurP, Forward, Reflect;
  }

  lemma CoefficientCancels(p0: Word, p1: Word)
    requires GsmAbs(p1) <= p0 && p1 != MIN_WORD
    ensures -1 <= GsmAdd(p1, GsmMultR(Reflect(p0, p1), p0)) <= 1
  {
    var num: int := GsmAbs(p1);
    var q := Div(num, p0);
    QuotientCancels(num, p0);
    MultRFits(Reflect(p0, p1), p0);
    Distribute(q, 0, p0);
    assert MultR(Reflect(p0, p1), p0) == if p1 > 0 then (-(q * p0) + 16384) / 32768 else (q * p0 + 16384) / 32768;
    hide Div, MultR, Reflect;
    RoundedAway(num, q * p0);
  }

  lemma QuotientCancels(num: int, p0: Word)
    requires 0 <= num <= p0
    ensures 0 <= 32768 * num - Div(num, p0) * p0 <= p0
  {
    if 0 < num < p0 {
      QuotientBrackets(num * 0x8000, p0);
      Distribute(num * 0x8000 / p0, 1, p0);
    }
  }

  lemma RoundedAway(num: int, t: int)
    requires 0 <= 32768 * num - t <= 0x7FFF
    ensures -1 <= num + (-t + 16384) / 32768 <= 1 && -1 <= (t + 16384) / 32768 - num <= 1
  {
  }

  function NormalisedLags(acf: Lags): Memory9
    requires acf[0] != 0
  {
    NormNormalises(acf[0]);
    seq(9, i requires 0 <= i < 9 => Normalised(acf[i], GsmNorm(acf[0])))
  }

  function ReflectionCoefficientsOf(acf: Lags): (r: Taps)
    ensures forall i :: 0 <= i < 8 ==> r[i] != MIN_WORD
  {
    if acf[0] == 0 then Zeros(8)
    else
      var p := NormalisedLags(acf);
      Schur(p, p, 1)
  }

  /** Reflection_coefficients. */
  method ReflectionCoefficients(lAcf: array<LongWord>, r: array<Word>)
    requires lAcf.Length == 9 && r.Length == 8 && lAcf as object != r && Dominated(lAcf[..])
    modifies r
    ensures r[..] == ReflectionCoefficientsOf(lAcf[..])
  {
    ghost var a: Lags := lAcf[..];
    if lAcf[0] == 0 {
      for i := 0 to 8
        invariant forall j :: 0 <= j < i ==> r[j] == 0
      {
        r[i] := 0;
      }
      return;
    }
    NormNormalises(lAcf[0]);
    var temp := GsmNorm(lAcf[0]);
    hide GsmNorm;
    hide Normalised;
    var p := new Word[9](_ => 0);
    var k := new Word[9](_ => 0);
    for i := 0 to 9
      invariant forall j :: 0 <= j < i ==> p[j] == k[j] == Normalised(a[j], temp)
    {
      NormalisingFits(a, i);
      var shifted: LongWord := lAcf[i] * Pow2(temp);
      p[i] := shifted / 0x1_0000;
      k[i] := p[i];
    }
    assert p[..] == k[..] == NormalisedLags(a);
    SchurRecursion(p, k, r);
  }

  /** The recursion proper, in place on P[], K[] and r[]. */
  method SchurRecursion(p: array<Word>, k: array<Word>, r: array<Word>)
    requires p.Length == 9 && k.Length == 9 && r.Length == 8 && p != k && p != r && k != r
    modifies p, k, r
    ensures r[..] == Schur(old(p[..]), old(k[..]), 1)
  {
    hide Reflect;
    hide Div;
    hide SchurP;
    hide SchurK;
    hide Schur;
    var n := 1;
    while n <= 8
      invariant 1 <= n <= 9
      invariant r[..n - 1] + Schur(p[..], k[..], n) == Schur(old(p[..]), old(k[..]), 1)
    {
      ghost var p0: Memory9, k0: Memory9, r0 := p[..], k[..], r[..n - 1];
      SchurRound(p0, k0, n);
      var temp := GsmAbs(p[1]);
      if p[0] < temp {
        FillZeros(r, n);
        return;
      }
      r[n - 1] := Coefficient(p[0], p[1]);
      assert r[..n] == r0 + [r[n - 1]];
      if n == 8 {
        assert r[..] == r[..8];
        return;
      }
      SchurUpdate(p, k, n, r[n - 1]);
      assert r0 + [r[n - 1]] + Schur(p[..], k[..], n + 1) == r0 + Schur(p0, k0, n);
      n := n + 1;
    }
    assert r[..] == r[..8];
  }

  lemma SchurRound(p: Memory9, k: Memory9, n: nat)
    requires 1 <= n <= 8
    ensures p[0] < GsmAbs(p[1]) ==> Schur(p, k, n) == Zeros(9 - n)
    ensures GsmAbs(p[1]) <= p[0] ==>
      var r := Reflect(p[0], p[1]);
      && Schur(p, k, n) == [r] + Schur(SchurP(p, k, n, r), SchurK(p, k, n, r), n + 1)
      && (n == 8 ==> Schur(p, k, n) == [r])
  {
  }

  /** The tail of `r` once a round turns out unstable. */
  method FillZeros(r: array<Word>, n: nat)
    requires r.Length == 8 && 1 <= n <= 8
    modifies r
    ensures r[..] == old(r[..n - 1]) + Zeros(9 - n)
  {
    for i := n to 9
      invariant r[..n - 1] == old(r[..n - 1])
      invariant forall j :: n - 1 <= j < i - 1 ==> r[j] == 0
    {
      r[i - 1] := 0;
    }
    assert r[..] == old(r[..n - 1]) + Zeros(9 - n);
  }

  /** The coefficient of a stable round. */
  method Coefficient(p0: Word, p1: Word) returns (r: Word)
    requires GsmAbs(p1) <= p0
    ensures r == Reflect(p0, p1)
  {
    hide Div;
    r := GsmDiv(GsmAbs(p1), p0);
    if p1 > 0 {
      r := -r;
    }
  }

  /** One round of the recursion. */
  method SchurUpdate(p: array<Word>, k: array<Word>, n: nat, r: Word)
    requires p.Length == 9 && k.Length == 9 && p != k && 1 <= n < 8
    modifies p, k
    ensures p[..] == SchurP(old(p[..]), old(k[..]), n, r)
    ensures k[..] == SchurK(old(p[..]), old(k[..]), n, r)
  {
    hide GsmMultR, GsmAdd;
    ghost var p0: Memory9, k0: Memory9 := p[..], k[..];
    ghost var p1, k1 := SchurP(p0, k0, n, r), SchurK(p0, k0, n, r);
    SchurEnds(p0, k0, n, r);
    hide SchurP, SchurK;
    var temp := GsmMultR(p[1], r);
    p[0] := GsmAdd(p[0], temp);
    for m := 1 to 9 - n
      invariant p[0] == p1[0] && k[0] == k0[0]
      invariant forall j :: 1 <= j < m ==> p[j] == p1[j] && k[j] == k1[j]
      invariant forall j :: m <= j < 9 ==> p[j] == p0[j] && k[j] == k0[j]
    {
      SchurAt(p0, k0, n, r, m);
      SchurStep(p, k, m, r);
    }
    assert p[..] == p1 && k[..] == k1;
  }

  /** The body of the inner loop. */
  method SchurStep(p: array<Word>, k: array<Word>, m: nat, r: Word)
    requires p.Length == 9 && k.Length == 9 && p != k && 1 <= m < 8
    modifies p, k
    ensures p[m] == GsmAdd(old(p[m + 1]), GsmMultR(old(k[m]), r))
    ensures k[m] == GsmAdd(old(k[m]), GsmMultR(old(p[m + 1]), r))
    ensures forall j :: 0 <= j < 9 && j != m ==> p[j] == old(p[j]) && k[j] == old(k[j])
  {
    var temp := GsmMultR(k[m], r);
    p[m] := GsmAdd(p[m + 1], temp);
    temp := GsmMultR(p[m + 1], r);
    k[m] := GsmAdd(k[m], temp);
  }

  lemma SchurAt(p: Memory9, k: Memory9, n: nat, r: Word, m: nat)
    requires 1 <= n <= 8 && 1 <= m <= 8 - n
    ensures SchurP(p, k, n, r)[m] == GsmAdd(p[m + 1], GsmMultR(k[m], r))
    ensures SchurK(p, k, n, r)[m] == GsmAdd(k[m], GsmMultR(p[m + 1], r))
  {
    hide GsmAdd, GsmMultR;
  }

  lemma SchurEnds(p: Memory9, k: Memory9, n: nat, r: Word)
    requires 1 <= n <= 8
    ensures SchurP(p, k, n, r)[0] == GsmAdd(p[0], GsmMultR(p[1], r)) && SchurK(p, k, n, r)[0] == k[0]
    ensures forall j :: 9 - n <= j < 9 ==> SchurP(p, k, n, r)[j] == p[j] && SchurK(p, k, n, r)[j] == k[j]
  {
    hide GsmAdd, GsmMultR;
  }

  // ----- 4.2.6 log area ratios

  /** Transformation_to_Log_Area_Ratios on one word. */
  function RpToLar(r: Word): (lar: Word)
    ensures lar != MIN_WORD
  {
    var temp := GsmAbs(r);
    var lar := if temp < 22118 then temp / 2 else if temp < 31130 then temp - 11059 else (temp - 26112) * 4;
    if r < 0 then -lar else lar
  }

  /** The decoder's LARp_to_rp inverts the encoder's transformation up to the bit the first branch
      shifts out: exactly when the coefficient is even or at least 22118 in magnitude. */
  lemma LarRoundTripIff(r: Word)
    requires r != MIN_WORD
    ensures LarToRp(RpToLar(r)) == r <==> (GsmAbs(r) >= 22118 || r % 2 == 0)
    ensures -1 <= GsmAbs(LarToRp(RpToLar(r))) - GsmAbs(r) <= 0
  {
    MagnitudeRoundTrip(GsmAbs(r));
    hide Expand;
  }

  lemma MagnitudeRoundTrip(t: Word)
    requires 0 <= t
    ensures RpToLar(t) >= 0 && Expand(RpToLar(t)) == if t < 22118 then t - t % 2 else t
  {
  }

  // ----- 4.2.7 quantization and coding

  const TABLE_A: seq<Word> := [20480, 20480, 20480, 20480, 13964, 15360, 8534, 9036]
  const TABLE_MAC: seq<Word> := [31, 31, 15, 15, 7, 7, 3, 3]

  /** STEP of Quantization_and_coding. */
  function Quantise(lar: Word, a: Word, b: Word, mac: Word, mic: Word): Word
    requires -32 <= mic <= 0 <= mac <= 31
  {
    var temp := ToWord(Mult(a, lar));
    var temp1 := GsmAdd(GsmAdd(temp, b), 256);
    var temp2 := temp1 / 512;
    if temp2 > mac then mac - mic else if temp2 < mic then 0 else temp2 - mic
  }

  function QuantiseAt(lar: Word, i: nat): (c: Word)
    requires i < 8
    ensures 0 <= c <= TABLE_MAC[i] - TABLE_MIC[i]
  {
    Quantise(lar, TABLE_A[i], TABLE_B[i], TABLE_MAC[i], TABLE_MIC[i])
  }

  /** A coded log area ratio survives decoding and coding again: all codes of all eight coefficients
      are fixed points, although A * INVA is not exactly one. */
  lemma CodesAreStable(c: Word, i: nat)
    requires i < 8 && 0 <= c <= TABLE_MAC[i] - TABLE_MIC[i]
    ensures QuantiseAt(DecodeLar(c, TABLE_B[i], TABLE_MIC[i], TABLE_INVA[i]), i) == c
  {
    hide Quantise;
    hide DecodeLar;
    if i < 2 {
      FirstRowsStable(c);
    } else if i == 2 {
      ThirdRowStable(c);
    } else if i == 3 {
      FourthRowStable(c);
    } else if i == 4 {
      FifthRowStable(c);
    } else if i == 5 {
      SixthRowStable(c);
    } else if i == 6 {
      SeventhRowStable(c);
    } else {
      EighthRowStable(c);
    }
  }

  lemma FirstRowsStable(c: Word)
    requires 0 <= c <= 63
    ensures Quantise(DecodeLar(c, 0, -32, 13107), 20480, 0, 31, -32) == c
  {
  }

  lemma ThirdRowStable(c: Word)
    requires 0 <= c <= 31
    ensures Quantise(DecodeLar(c, 2048, -16, 13107), 20480, 2048, 15, -16) == c
  {
  }

  lemma FourthRowStable(c: Word)
    requires 0 <= c <= 31
    ensures Quantise(DecodeLar(c, -2560, -16, 13107), 20480, -2560, 15, -16) == c
  {
  }

  lemma FifthRowStable(c: Word)
    requires 0 <= c <= 15
    ensures Quantise(DecodeLar(c, 94, -8, 19223), 13964, 94, 7, -8) == c
  {
  }

  lemma SixthRowStable(c: Word)
    requires 0 <= c <= 15
    ensures Quantise(DecodeLar(c, -1792, -8, 17476), 15360, -1792, 7, -8) == c
  {
  }

  lemma SeventhRowStable(c: Word)
    requires 0 <= c <= 7
    ensures Quantise(DecodeLar(c, -341, -4, 31454), 8534, -341, 3, -4) == c
  {
  }

  lemma EighthRowStable(c: Word)
    requires 0 <= c <= 7
    ensures Quantise(DecodeLar(c, -1144, -4, 29708), 9036, -1144, 3, -4) == c
  {
  }

  function DecodeAt(c: Word, i: nat): Word
    requires i < 8
  {
    DecodeLar(c, TABLE_B[i], TABLE_MIC[i], TABLE_INVA[i])
  }

  /** The middle of the step of a code, less B. */
  function Middle(c: int, i: nat): int
    requires i < 8
  {
    512 * (c + TABLE_MIC[i]) - TABLE_B[i]
  }

  /** The code is the nearest one: in units of 1 / 32768 of a step of 512, A times the ratio plus B is within
      half a step of the code, unless the code is the end of the row on that side. */
  lemma CodeIsNearest(lar: Word, i: nat)
    requires i < 8
    ensures var c := QuantiseAt(lar, i);
            var off := Product(TABLE_A[i], lar) - 32768 * Middle(c, i);
            (c > 0 ==> -256 * 32768 <= off) && (c < TABLE_MAC[i] - TABLE_MIC[i] ==> off < 256 * 32768)
  {
    hide Quantise, Product;
    NearestStep(lar, TABLE_A[i], TABLE_B[i], TABLE_MAC[i], TABLE_MIC[i]);
  }

  lemma NearestStep(lar: Word, a: Word, b: Word, mac: Word, mic: Word)
    requires -32 <= mic <= 0 <= mac <= 31 && 0 < a <= 20480 && -2560 <= b <= 2560
    ensures var c := Quantise(lar, a, b, mac, mic);
            var off := Product(a, lar) + 32768 * (b - 512 * (c + mic));
            (c > 0 ==> -256 * 32768 <= off) && (c < mac - mic ==> off < 256 * 32768)
  {
    var x := Product(a, lar);
    ProductBound(lar, a, 0x8000, 20480);
    assert Mult(a, lar) == x / 32768;
    QuotientBetween(x, 32768, -20480, 20481);
    assert ToWord(x / 32768) == x / 32768;
    hide Product, Mult, ToWord;
    assert GsmAdd(GsmAdd(x / 32768, b), 256) == x / 32768 + b + 256 by { hide Quantise; }
    hide GsmAdd;
    StepBounds(x, b, (x / 32768 + b + 256) / 512);
  }

  lemma StepBounds(x: int, b: int, t: int)
    requires t == (x / 32768 + b + 256) / 512
    ensures -256 * 32768 <= x + 32768 * (b - 512 * t) < 256 * 32768
  {
  }

  /** A times the decoded ratio is the middle of the code's step less B, up to A and half of 32768: 4 * A * INVA is
      2^30 to within 2^15. */
  lemma DecodedIsMiddle(c: Word, i: nat)
    requires i < 8 && 0 <= c <= TABLE_MAC[i] - TABLE_MIC[i]
    ensures Distance(Product(TABLE_A[i], DecodeAt(c, i)), 32768 * Middle(c, i)) <= (TABLE_A[i] as int) + 16384
  {
    hide DecodeLar, Product, Distance;
    var x := Middle(c, i);
    RowsInRange(c, i);
    InverseFits(i, x);
    DecodedRounds(c, TABLE_B[i], TABLE_MIC[i], TABLE_INVA[i], x);
    InverseTable(i);
    MiddleOfStep(DecodeLar(c, TABLE_B[i], TABLE_MIC[i], TABLE_INVA[i]), TABLE_A[i], TABLE_INVA[i], x);
  }

  lemma RowsInRange(c: Word, i: nat)
    requires i < 8 && 0 <= c <= TABLE_MAC[i] - TABLE_MIC[i]
    ensures -32 <= TABLE_MIC[i] <= c + TABLE_MIC[i] <= TABLE_MAC[i] <= 31
    ensures -16384 <= Middle(c, i) < 16384 && -2560 <= TABLE_B[i] <= 2560
    ensures i >= 4 ==> -5376 <= Middle(c, i) <= 5376
  {
  }

  lemma InverseTable(i: nat)
    requires i < 8
    ensures 0 < TABLE_INVA[i] && 0 < TABLE_A[i] && Distance(4 * Product(TABLE_A[i], TABLE_INVA[i]), 0x4000_0000) <= 0x8000
  {
  }

  lemma InverseFits(i: nat, x: int)
    requires i < 8 && -16384 <= x <= 16384 && (i >= 4 ==> -5376 <= x <= 5376)
    ensures -(16383 * 32768) <= Product(TABLE_INVA[i], 2 * x) <= 16383 * 32768
  {
    if i < 4 {
      ProductBound(TABLE_INVA[i], 2 * x, 13107, 32768);
    } else {
      ProductBound(TABLE_INVA[i], 2 * x, 31454, 10752);
    }
  }

  /** Decoding of a code in range: nothing saturates, and one product is rounded. */
  lemma DecodedRounds(c: Word, b: Word, mic: Word, inva: Word, x: int)
    requires -32 <= c + mic <= 31 && -32 <= mic <= 0 && -2560 <= b <= 2560 && 0 < inva
    requires x == 512 * (c + mic) - b && -16384 <= x < 16384
    requires -(16383 * 32768) <= Product(inva, 2 * x) <= 16383 * 32768
    ensures Distance(32768 * DecodeLar(c, b, mic, inva), 4 * Product(inva, x)) <= 32768
  {
    hide Product, Distance, GsmAdd, GsmSub, GsmMultR, MultR, ToWord, Saturate;
    DifferenceOfCode(c, b, mic, x);
    assert DecodeLar(c, b, mic, inva) == GsmAdd(GsmMultR(inva, 2 * x), GsmMultR(inva, 2 * x));
    hide DecodeLar;
    DoubledProduct(inva, x);
  }

  lemma DifferenceOfCode(c: Word, b: Word, mic: Word, x: int)
    requires -32 <= c + mic <= 31 && -32 <= mic <= 0 && -2560 <= b <= 2560
    requires x == 512 * (c + mic) - b && -16384 <= x < 16384
    ensures GsmSub(ToWord(GsmAdd(c, mic) * 1024), ToWord(b * 2)) == 2 * x
  {
  }

  lemma DoubledProduct(inva: Word, x: int)
    requires 0 < inva && -16384 <= x < 16384 && -(16383 * 32768) <= Product(inva, 2 * x) <= 16383 * 32768
    ensures var y := GsmMultR(inva, 2 * x); Distance(32768 * GsmAdd(y, y), 4 * Product(inva, x)) <= 32768
  {
    var p := Product(inva, 2 * x);
    assert p == 2 * Product(inva, x);
    assert MultR(inva, 2 * x) == (p + 16384) / 32768;
    hide MultR, Product;
    QuotientBetween(p + 16384, 32768, -16383, 16384);
    MultRFits(inva, 2 * x);
    hide GsmMultR;
  }

  lemma MiddleOfStep(lar: int, a: int, inva: int, x: int)
    requires 0 < a && Distance(32768 * lar, 4 * Product(inva, x)) <= 32768 && -16384 <= x <= 16384
    requires Distance(4 * Product(a, inva), 0x4000_0000) <= 0x8000
    ensures Distance(Product(a, lar), 32768 * x) <= a + 16384
  {
    var u, v := 32768 * lar - 4 * (inva * x), 4 * (a * inva) - 0x4000_0000;
    ProductBound(a, u, a, 32768);
    ProductBound(v, x, 0x8000, 16384);
    assert a * u == 32768 * (a * lar) - 4 * (a * inva * x) by { ThreeFactors(a, lar, inva, x); }
    assert v * x == 4 * (a * inva * x) - 0x4000_0000 * x;
  }

  lemma ThreeFactors(a: int, lar: int, inva: int, x: int)
    ensures a * (32768 * lar - 4 * (inva * x)) == 32768 * (a * lar) - 4 * (a * inva * x)
  {
    MulAssoc(a, inva, x);
    assert a * (32768 * lar) == 32768 * (a * lar);
    assert a * (4 * (inva * x)) == 4 * (a * (inva * x));
  }

  /** What the decoder uses for a ratio is within half a step of it, and the rounding of the decoder, unless the
      code is an end of its row. */
  lemma DecodedRatioIsNear(lar: Word, i: nat)
    requires i < 8 && 0 < QuantiseAt(lar, i) < TABLE_MAC[i] - TABLE_MIC[i]
    ensures var back := DecodeAt(QuantiseAt(lar, i), i);
            Distance(Product(TABLE_A[i], back), Product(TABLE_A[i], lar)) <= 256 * 32768 + 16384 + (TABLE_A[i] as int)
  {
    hide Product, DecodeAt, QuantiseAt, Middle;
    CodeIsNearest(lar, i);
    DecodedIsMiddle(QuantiseAt(lar, i), i);
  }

  function LarCodes(lar: Taps): (c: Taps)
    ensures forall i :: 0 <= i < 8 ==> 0 <= c[i] <= TABLE_MAC[i] - TABLE_MIC[i]
  {
    seq(8, i requires 0 <= i < 8 => QuantiseAt(lar[i], i))
  }

  /** Decoding a code of the coder never wraps: the shift by ten of the source fits 16 bits. */
  lemma DecodingFits(c: Word, i: nat)
    requires i < 8 && 0 <= c <= TABLE_MAC[i] - TABLE_MIC[i]
    ensures GsmAdd(c, TABLE_MIC[i]) == c + TABLE_MIC[i]
    ensures ToWord(GsmAdd(c, TABLE_MIC[i]) * 1024) == (c + TABLE_MIC[i]) * 1024
  {
  }

  /** What the coder transmits for a frame of (pre-processed) signal. */
  function LpcCodes(s: seq<Word>): (c: Taps)
    requires |s| == 160
    ensures forall i :: 0 <= i < 8 ==> 0 <= c[i] <= TABLE_MAC[i] - TABLE_MIC[i]
  {
    var r := ReflectionCoefficientsOf(LagsOf(s));
    LarCodes(seq(8, i requires 0 <= i < 8 => RpToLar(r[i])))
  }

  function LagsOf(s: seq<Word>): (acf: Lags)
    requires |s| == 160
    ensures Dominated(acf)
  {
    var t := ScaledSignal(s);
    assert forall k :: 0 <= k < 9 ==> Within(2 * Corr(t, k, 160), 2 * Corr(t, 0, 160)) by {
      forall k | 0 <= k < 9 ensures Within(2 * Corr(t, k, 160), 2 * Corr(t, 0, 160)) {
        CorrBelowEnergy(t, k, 160);
      }
    }
    assert forall k :: 0 <= k < 9 ==> MIN_LONGWORD <= 2 * Corr(t, k, 160) <= MAX_LONGWORD by {
      forall k | 0 <= k < 9 ensures MIN_LONGWORD <= 2 * Corr(t, k, 160) <= MAX_LONGWORD {
        CorrFits(t, k, 160);
      }
    }
    seq(9, k requires 0 <= k < 9 => 2 * Corr(t, k, 160))
  }

  /** Transformation_to_Log_Area_Ratios, in place. */
  method TransformationToLogAreaRatios(r: array<Word>)
    requires r.Length == 8
    modifies r
    ensures forall i :: 0 <= i < 8 ==> r[i] == RpToLar(old(r[i]))
  {
    for i := 0 to 8
      invariant forall j :: 0 <= j < i ==> r[j] == RpToLar(old(r[j]))
      invariant forall j :: i <= j < 8 ==> r[j] == old(r[j])
    {
      var temp := GsmAbs(r[i]);
      if temp < 22118 {
        temp := temp / 2;
      } else if temp < 31130 {
        temp := temp - 11059;
      } else {
        temp := temp - 26112;
        temp := temp * 4;
      }
      r[i] := if r[i] < 0 then -temp else temp;
    }
  }

  lemma LarCodesAre(lar: Taps)
    ensures LarCodes(lar)
         == [Quantise(lar[0], 20480, 0, 31, -32), Quantise(lar[1], 20480, 0, 31, -32),
             Quantise(lar[2], 20480, 2048, 15, -16), Quantise(lar[3], 20480, -2560, 15, -16),
             Quantise(lar[4], 13964, 94, 7, -8), Quantise(lar[5], 15360, -1792, 7, -8),
             Quantise(lar[6], 8534, -341, 3, -4), Quantise(lar[7], 9036, -1144, 3, -4)]
  {
    hide Quantise;
  }

  /** Quantization_and_coding, in place, with the constants inlined as in the source. */
  method QuantizationAndCoding(lar: array<Word>)
    requires lar.Length == 8
    modifies lar
    ensures lar[..] == LarCodes(old(lar[..]))
  {
    hide Quantise;
    LarCodesAre(lar[..]);
    hide LarCodes;
    lar[0] := Quantise(lar[0], 20480, 0, 31, -32);
    lar[1] := Quantise(lar[1], 20480, 0, 31, -32);
    lar[2] := Quantise(lar[2], 20480, 2048, 15, -16);
    lar[3] := Quantise(lar[3], 20480, -2560, 15, -16);
    lar[4] := Quantise(lar[4], 13964, 94, 7, -8);
    lar[5] := Quantise(lar[5], 15360, -1792, 7, -8);
    lar[6] := Quantise(lar[6], 8534, -341, 3, -4);
    lar[7] := Quantise(lar[7], 9036, -1144, 3, -4);
  }

  /** Gsm_LPC_Analysis: eight codes for the frame, which is left rescaled. */
  method GsmLpcAnalysis(s: array<Word>, larc: array<Word>)
    requires s.Length == 160 && larc.Length == 8 && s != larc
    modifies s, larc
    ensures larc[..] == LpcCodes(old(s[..]))
    ensures s[..] == Rescaled(old(s[..]))
  {
    hide RpToLar;
    hide LarCodes;
    hide ReflectionCoefficientsOf;
    hide ScaleUp;
    hide ScaleDown;
    ghost var s0 := s[..];
    var lAcf := new LongWord[9];
    Autocorrelation(s, lAcf);
    assert lAcf[..] == LagsOf(s0);
    assert s[..] == Rescaled(s0);
    ReflectionCoefficients(lAcf, larc);
    ghost var r: Taps := larc[..];
    TransformationToLogAreaRatios(larc);
    assert larc[..] == seq(8, i requires 0 <= i < 8 => RpToLar(r[i]));
    QuantizationAndCoding(larc);
  }

  /** The signal as Autocorrelation leaves it for the short term filter. */
  function Rescaled(s: seq<Word>): (t: seq<Word>)
    ensures |t| == |s|
  {
    var n := ScaleFactor(MaxAbs(s));
    ScaleFactorRange(MaxAbs(s));
    seq(|s|, i requires 0 <= i < |s| => ScaleUp(ScaleDown(s[i], n), n))
  }
}
