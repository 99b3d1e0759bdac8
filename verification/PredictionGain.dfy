/** What the long term predictor's gain code means on the signal itself (gsm/long_term.c, lines 156 to 287).

  The source finds the code from samples shifted right by `scal`, a history shifted right by 3, a maximum
  rescaled by `6 - scal`, and two words normalised by gsm_norm.  The results compare the code with the ratio
  of the plain correlation of block and history to the plain power of the history, in unscaled integers.
 */
module PredictionGain {
  import opened FixedPoint
  import opened Rpe
  import opened LongTerm

  // ----- plain sums

  /** The plain correlation of two blocks, first `n` terms. */
  function Dot(x: seq<int>, y: seq<int>, n: nat): int
    requires n <= |x| && n <= |y|
  {
    if n == 0 then 0 else Dot(x, y, n - 1) + Step(x[n - 1], y[n - 1])
  }

  function Magnitude(x: int): (m: int)
    ensures m >= 0
  {
    if x < 0 then -x else x
  }

  /** The sum of the magnitudes. */
  function Amount(x: seq<int>, n: nat): (a: int)
    requires n <= |x|
    ensures a >= 0
  {
    if n == 0 then 0 else Amount(x, n - 1) + Magnitude(x[n - 1])
  }

  /** The forty words that begin `nc` samples before the block. */
  function Lagged(hist: History, nc: int): Block
    requires 40 <= nc <= 120
  {
    hist[120 - nc..160 - nc]
  }

  lemma {:induction false} CrossIsDot(wt: Block, hist: History, nc: int, n: nat)
    requires 40 <= nc <= 120 && n <= 40
    ensures Cross(wt, hist, nc, n) == Dot(wt, Lagged(hist, nc), n)
  {
    hide Step;
    if n > 0 {
      CrossIsDot(wt, hist, nc, n - 1);
      assert Lagged(hist, nc)[n - 1] == hist[120 - nc + (n - 1)];
    }
  }

  // ----- the normalised comparison

  /** The product by a decision level is the fraction rounded down. */
  lemma LevelProduct(s: Word, d: Word)
    requires s >= 0 && 0 <= d
    ensures 32768 * GsmMult(s, d) <= Step(s, d) < 32768 * GsmMult(s, d) + 32768
  {
    MultFits(s, d);
    assert GsmMult(s, d) == Mult(s, d);
    hide GsmMult;
  }

  /** For R = L * t and S = P * t normalised, and their upper words r and s, on the side r > s * D / 2^15. */
  lemma AboveLevel(l: int, p: int, t: int, d: int, r: int, s: int)
    requires t > 0 && 0 <= d <= 0x7FFF && p * t >= 0x4000_0000
    requires r == l * t / 0x1_0000 && s == p * t / 0x1_0000 && Step(s, d) < 32768 * r
    ensures Step(d - 2, p) < 32768 * l
  {
    var x, y := l * t, p * t;
    MulMono(0, d, y - 0x1_0000 * s);
    MulMono(y - 0x1_0000 * s, 0x1_0000, d);
    var z := y * d;
    assert z - 0x1_0000 * d <= 0x1_0000 * Step(s, d) by { WholePart(y, s, d); }
    assert 32768 * x > z - 2 * y;
    BackFrom(l, p, t, d - 2);
  }

  lemma WholePart(y: int, s: int, d: int)
    requires 0 <= d && y < 0x1_0000 * s + 0x1_0000
    ensures y * d - 0x1_0000 * d <= 0x1_0000 * Step(s, d)
  {
    MulMono(y, 0x1_0000 * s + 0x1_0000, d);
    Distribute(0x1_0000 * s, 0x1_0000, d);
    MulAssoc(0x1_0000, s, d);
  }

  /** And on the other. */
  lemma BelowLevel(l: int, p: int, t: int, d: int, r: int, s: int)
    requires t > 0 && 0 <= d <= 0x7FFF && p * t >= 0x4000_0000
    requires r == l * t / 0x1_0000 && s == p * t / 0x1_0000 && 32768 * r <= Step(s, d)
    ensures 32768 * l < Step(d + 2, p)
  {
    var x, y := l * t, p * t;
    MulMono(0x1_0000 * s, y, d);
    MulAssoc(0x1_0000, s, d);
    assert x < 0x1_0000 * r + 0x1_0000;
    assert 32768 * x < y * d + 2 * y;
    BackTo(l, p, t, d + 2);
  }

  lemma BackFrom(l: int, p: int, t: int, d: int)
    requires t > 0 && p * t * d < 32768 * (l * t)
    ensures Step(d, p) < 32768 * l
  {
    MulAssoc(d, p, t);
    MulAssoc(32768, l, t);
    assert p * t * d == d * (p * t);
    Cancel(d * p, 32768 * l, t);
  }

  lemma BackTo(l: int, p: int, t: int, d: int)
    requires t > 0 && 32768 * (l * t) < p * t * d
    ensures 32768 * l < Step(d, p)
  {
    MulAssoc(d, p, t);
    MulAssoc(32768, l, t);
    assert p * t * d == d * (p * t);
    Cancel(32768 * l, d * p, t);
  }

  /** The code brackets the ratio of its two 32-bit operands between the decision levels, to 2 / 32768. */
  lemma GainBracketsOperands(lMax: LongWord, lPower: LongWord)
    requires 0 <= lPower
    ensures var bc := Gain(lMax, lPower);
            && (bc > 0 ==> Step(DLB[bc - 1] - 2, lPower) < 32768 * lMax && lMax > 0)
            && (bc < 3 ==> 32768 * lMax <= Step(DLB[bc] + 2, lPower))
  {
    hide Gain, GainCode, GsmMult, GsmNorm, Pow2, Step;
    GainIs(lMax, lPower);
    if lMax <= 0 {
      NotNegative(DLB[0] + 2, lPower);
    } else if lMax >= lPower {
      LevelBelowOne(DLB[2] - 2, lMax, lPower);
    } else {
      NormOfPositive(lPower);
      var t := Pow2(GsmNorm(lPower));
      NormalisedGainFits(lMax, lPower);
      var r, s := lMax * t / 0x1_0000, lPower * t / 0x1_0000;
      var bc := GainCode(r, s);
      if bc > 0 {
        LevelProduct(s, DLB[bc - 1]);
        assert r > GsmMult(s, DLB[bc - 1]);
        AboveLevel(lMax, lPower, t, DLB[bc - 1], r, s);
      }
      if bc < 3 {
        LevelProduct(s, DLB[bc]);
        assert r <= GsmMult(s, DLB[bc]);
        BelowLevel(lMax, lPower, t, DLB[bc], r, s);
      }
    }
  }

  lemma GainIs(lMax: LongWord, lPower: LongWord)
    requires 0 <= lPower
    ensures lMax <= 0 ==> Gain(lMax, lPower) == 0
    ensures lMax > 0 && lMax >= lPower ==> Gain(lMax, lPower) == 3
    ensures 0 < lMax < lPower ==>
              var t := (NormOfPositive(lPower); Pow2(GsmNorm(lPower)));
              var r, s := lMax * t / 0x1_0000, lPower * t / 0x1_0000;
              0 <= r <= MAX_WORD && 0 <= s <= MAX_WORD && Gain(lMax, lPower) == GainCode(r, s)
  {
    hide GainCode, GsmNorm, Pow2;
    if 0 < lMax < lPower {
      NormOfPositive(lPower);
      NormalisedGainFits(lMax, lPower);
    }
  }

  lemma NotNegative(d: int, p: int)
    requires 0 <= d && 0 <= p
    ensures 0 <= Step(d, p)
  {
    MulMono(0, d, p);
  }

  lemma LevelBelowOne(d: int, l: int, p: int)
    requires 0 <= d < 32768 && 0 <= p <= l && 0 < l
    ensures Step(d, p) < 32768 * l
  {
    MulMono(p, l, d);
    MulMono(d, 32767, l);
  }

  // ----- the scaled operands

  /** `lMax` against the plain correlation, for p = 2^scal. */
  lemma {:induction false} ScaledCorrelation(d: Block, wt: Block, h: Block, p: int, n: nat)
    requires n <= 40 && p > 0 && forall k :: 0 <= k < 40 ==> wt[k] == d[k] / p
    ensures Magnitude(Dot(d, h, n) - p * Dot(wt, h, n)) <= (p - 1) * Amount(h, n)
  {
    hide Step, Magnitude;
    if n > 0 {
      ScaledCorrelation(d, wt, h, p, n - 1);
      var i := n - 1;
      ScaledTerm(d[i], wt[i], h[i], p);
      OneMore(Dot(d, h, i), Dot(wt, h, i), Amount(h, i), Step(d[i], h[i]), Step(wt[i], h[i]), Magnitude(h[i]), p);
    } else {
      NoTerms(d, wt, h, p);
    }
  }

  lemma NoTerms(d: Block, wt: Block, h: Block, p: int)
    ensures Magnitude(Dot(d, h, 0) - p * Dot(wt, h, 0)) <= (p - 1) * Amount(h, 0)
  {
  }

  lemma OneMore(x: int, y: int, a: int, x1: int, y1: int, a1: int, p: int)
    requires Magnitude(x - p * y) <= (p - 1) * a && Magnitude(x1 - p * y1) <= (p - 1) * a1
    ensures Magnitude(x + x1 - p * (y + y1)) <= (p - 1) * (a + a1)
  {
    Triangle(x - p * y, x1 - p * y1);
    assert p * (y + y1) == p * y + p * y1;
    assert (p - 1) * (a + a1) == (p - 1) * a + (p - 1) * a1;
    hide Magnitude;
  }

  lemma Triangle(x: int, y: int)
    ensures Magnitude(x + y) <= Magnitude(x) + Magnitude(y)
  {
  }

  lemma ScaledTerm(d: int, w: int, h: int, p: int)
    requires p > 0 && w == d / p
    ensures Magnitude(Step(d, h) - p * Step(w, h)) <= (p - 1) * Magnitude(h)
  {
    QuotientBrackets(d, p);
    var r := d - p * w;
    RemainderTimes(d, w, h, p);
    BoundedTimes(r, h, p - 1);
  }

  lemma RemainderTimes(d: int, w: int, h: int, p: int)
    ensures Step(d, h) - p * Step(w, h) == (d - p * w) * h
  {
    Distribute(d, p * w, h);
    MulAssoc(p, w, h);
  }

  lemma BoundedTimes(r: int, h: int, b: int)
    requires 0 <= r <= b
    ensures Magnitude(r * h) <= b * Magnitude(h)
  {
    var m := Magnitude(h);
    MulMono(r, b, m);
    MulMono(0, r, m);
    assert h < 0 ==> r * h == -(r * m);
  }

  /** The power, undoing the shift by 3. */
  lemma {:induction false} ScaledPower(hist: History, nc: int, n: nat)
    requires 40 <= nc <= 120 && n <= 40
    ensures var h, q := Lagged(hist, nc), 64 * Power(hist, nc, n);
            q - 14 * Amount(h, n) - 49 * n <= Dot(h, h, n) <= q + 14 * Amount(h, n)
  {
    hide Step, Square, Magnitude;
    if n > 0 {
      ScaledPower(hist, nc, n - 1);
      assert Lagged(hist, nc)[n - 1] == hist[120 + n - 1 - nc];
      ScaledSquare(hist[120 + n - 1 - nc]);
    }
  }

  lemma ScaledSquare(h: int)
    ensures var q := 64 * Square(h / 8);
            q - 14 * Magnitude(h) - 49 <= Step(h, h) <= q + 14 * Magnitude(h)
  {
    var a, r := h / 8, h % 8;
    assert h == 8 * a + r;
    assert Square(a) == a * a;
    assert h * h == 64 * (a * a) + r * (2 * h - r);
    if r == 0 {} else if r == 1 {} else if r == 2 {} else if r == 3 {}
    else if r == 4 {} else if r == 5 {} else if r == 6 {} else {}
  }

  /** The maximum rescaled by `6 - scal`: 32 times it is the plain correlation up to the rounding. */
  lemma RescaledMaximum(x: int, scal: nat, l: int)
    requires scal <= 6 && l == Sasr(x * 2, 6 - scal)
    ensures 32 * l <= Pow2(scal) * x < 32 * l + 32
  {
    var p, q := Pow2(scal), Pow2(6 - scal);
    Pow2Add(scal, 6 - scal);
    assert p * q == 64 by { Pow2Values(); }
    QuotientBrackets(x * 2, q);
    hide Pow2;
    TimesDivisor(x * 2, q, l, p);
    TwiceProduct(x, p);
  }

  lemma TwiceProduct(x: int, p: int)
    ensures x * 2 * p == 2 * (p * x)
  {
  }

  lemma TimesDivisor(y: int, q: int, l: int, p: int)
    requires p > 0 && p * q == 64 && l * q <= y < (l + 1) * q
    ensures 64 * l <= y * p < 64 * l + 64
  {
    MulMono(l * q, y, p);
    ScaledBelow(y, (l + 1) * q, p);
    MulAssoc(l, q, p);
    MulAssoc(l + 1, q, p);
    assert q * p == 64;
  }

  lemma ScaledBelow(x: int, y: int, p: int)
    requires x < y && p > 0
    ensures x * p < y * p
  {
    MulMono(x + 1, y, p);
    Distribute(x, 1, p);
  }

  // ----- the code and the signal

  /** The code brackets the ratio of plain correlation to plain power: up to 2 / 32768, up to what the shift of
      the block by `scal` loses of the correlation and the shift of the history by 3 of the power. */
  lemma GainIsTheRatio(d: Block, hist: History)
    ensures var (nc, bc) := LtpParameters(d, hist);
            var h, p := Lagged(hist, nc), Pow2(ScaleShift(MaxAbs(d)));
            var c, e, a := Dot(d, h, 40), Dot(h, h, 40), Amount(h, 40);
            && (bc > 0 ==> Step(DLB[bc - 1] - 2, e - 14 * a) < 32768 * (c + (p - 1) * a) && c + (p - 1) * a > 0)
            && (bc < 3 ==> 32768 * (c - (p - 1) * a - 32) <= Step(DLB[bc] + 2, e + 14 * a + 1960))
  {
    hide Cross, Dot, Gain, GsmAbs, Lagged, MaxAbs, Pow2, Power, Sasr, ScaleShift, Search, Step;
    hide Amount, Magnitude, WorkingBlock;
    var wt, scal := WorkingBlock(d), ScaleShift(MaxAbs(d));
    var (nc, bc) := LtpParameters(d, hist);
    var lMax := Search(wt, hist, 121).1;
    var h, p := Lagged(hist, nc), Pow2(scal);
    WorkingIs(d);
    SearchFindsFirstMaximum(wt, hist, 121);
    SearchFits(wt, hist, 121);
    SasrShrinks(lMax * 2, 6 - scal);
    PowerFits(hist, nc, 40);
    var l, power := Sasr(lMax * 2, 6 - scal), Power(hist, nc, 40) * 2;
    GainBracketsOperands(l, power);
    RescaledMaximum(lMax, scal, l);
    CrossIsDot(wt, hist, nc, 40);
    ScaledCorrelation(d, wt, h, p, 40);
    ScaledPower(hist, nc, 40);
    assert Cross(wt, hist, nc, 40) <= lMax && (lMax > 0 ==> Cross(wt, hist, nc, 40) == lMax);
    Combined(Dot(d, h, 40), Dot(h, h, 40), Amount(h, 40), p, Cross(wt, hist, nc, 40), lMax, l, power, bc);
  }

  lemma WorkingIs(d: Block)
    ensures forall k :: 0 <= k < 40 ==> WorkingBlock(d)[k] == d[k] / Pow2(ScaleShift(MaxAbs(d)))
  {
    hide ScaleShift, MaxAbs, Pow2;
  }

  lemma Combined(c: int, e: int, a: int, p: int, x: int, lMax: int, l: int, power: int, bc: Word)
    requires p > 0 && a >= 0 && 0 <= bc <= 3 && 0 <= lMax && x <= lMax && (lMax > 0 ==> x == lMax)
    requires Magnitude(c - p * x) <= (p - 1) * a
    requires 32 * power - 14 * a - 1960 <= e <= 32 * power + 14 * a
    requires 32 * l <= p * lMax < 32 * l + 32 && 0 <= l
    requires bc > 0 ==> Step(DLB[bc - 1] - 2, power) < 32768 * l && l > 0
    requires bc < 3 ==> 32768 * l <= Step(DLB[bc] + 2, power)
    ensures bc > 0 ==> Step(DLB[bc - 1] - 2, e - 14 * a) < 32768 * (c + (p - 1) * a) && c + (p - 1) * a > 0
    ensures bc < 3 ==> 32768 * (c - (p - 1) * a - 32) <= Step(DLB[bc] + 2, e + 14 * a + 1960)
  {
    MulMono(x, lMax, p);
    if bc > 0 {
      assert lMax > 0 by { assert lMax == 0 ==> p * lMax == 0; }
      var k := DLB[bc - 1] - 2;
      MulMono(e - 14 * a, 32 * power, k);
    }
    if bc < 3 {
      var k := DLB[bc] + 2;
      MulMono(32 * power, e + 14 * a + 1960, k);
    }
  }

  /** The energy of 2^15 times the block less the coded gain times the lagged words, first `n` terms. */
  function ResidualEnergy(d: seq<int>, h: seq<int>, q: int, n: nat): int
    requires n <= |d| && n <= |h|
  {
    if n == 0 then 0 else ResidualEnergy(d, h, q, n - 1) + Square(32768 * d[n - 1] - q * h[n - 1])
  }

  lemma {:induction false} EnergyExpands(d: seq<int>, h: seq<int>, q: int, n: nat)
    requires n <= |d| && n <= |h|
    ensures ResidualEnergy(d, h, q, n) == 0x4000_0000 * Dot(d, d, n) - q * (65536 * Dot(d, h, n) - q * Dot(h, h, n))
  {
    hide Step, Square;
    if n > 0 {
      var i := n - 1;
      EnergyExpands(d, h, q, i);
      SquareExpands(d[i], h[i], q);
      SumExpands(Dot(d, h, i), Step(d[i], h[i]), Dot(h, h, i), Step(h[i], h[i]), q);
    } else {
      NoEnergy(d, h, q);
    }
  }

  lemma NoEnergy(d: seq<int>, h: seq<int>, q: int)
    ensures ResidualEnergy(d, h, q, 0) == 0x4000_0000 * Dot(d, d, 0) - q * (65536 * Dot(d, h, 0) - q * Dot(h, h, 0))
  {
  }

  lemma SquareExpands(x: int, y: int, q: int)
    ensures Square(32768 * x - q * y) == 0x4000_0000 * Step(x, x) - q * (65536 * Step(x, y) - q * Step(y, y))
  {
    var a, b := 32768 * x, q * y;
    assert Square(a - b) == (a - b) * (a - b) == a * a - 2 * (a * b) + b * b;
    assert a * a == 0x4000_0000 * (x * x);
    assert a * b == q * (32768 * (x * y));
    assert b * b == q * (q * (y * y));
  }

  lemma SumExpands(c: int, c1: int, e: int, e1: int, q: int)
    ensures q * (65536 * (c + c1) - q * (e + e1)) == q * (65536 * c - q * e) + q * (65536 * c1 - q * e1)
  {
    assert q * (e + e1) == q * e + q * e1;
    Distribute(65536 * c - q * e, 65536 * c1 - q * e1, q);
  }

  /** Why the gain is coded at all: for every code but 0 the prediction with the coded gain does not raise the
      energy of the block, up to the two shifts. */
  lemma PredictionLowersEnergy(d: Block, hist: History)
    requires LtpParameters(d, hist).1 > 0
    ensures var (nc, bc) := LtpParameters(d, hist);
            var h, p, q := Lagged(hist, nc), Pow2(ScaleShift(MaxAbs(d))), QLB[bc];
            ResidualEnergy(d, h, q, 40)
            <= 0x4000_0000 * Dot(d, d, 40) + q * (65536 * (p - 1) * Amount(h, 40) + 14 * q * Amount(h, 40))
  {
    hide Dot, Lagged, LtpParameters, MaxAbs, Pow2, ScaleShift, Step, Amount, ResidualEnergy;
    var (nc, bc) := LtpParameters(d, hist);
    var h, p, q := Lagged(hist, nc), Pow2(ScaleShift(MaxAbs(d))), QLB[bc];
    GainIsTheRatio(d, hist);
    EnergyExpands(d, h, q, 40);
    GainBelowTwiceLevel(bc);
    NotAbove(Dot(d, h, 40), Dot(h, h, 40), Amount(h, 40), p, q, DLB[bc - 1] - 2);
    hide *;
  }

  lemma GainBelowTwiceLevel(bc: Word)
    requires 0 < bc <= 3
    ensures var q: int, k: int := QLB[bc], DLB[bc - 1]; 0 < q <= 2 * (k - 2)
  {
  }

  lemma NotAbove(c: int, e: int, a: int, p: int, q: int, k: int)
    requires 0 < q <= 2 * k && Step(k, e - 14 * a) < 32768 * (c + (p - 1) * a) && c + (p - 1) * a > 0
    ensures -(q * (65536 * c - q * e)) <= q * (65536 * (p - 1) * a + 14 * q * a)
  {
    var z, s := e - 14 * a, (p - 1) * a;
    if z >= 0 {
      MulMono(q, 2 * k, z);
      MulAssoc(2, k, z);
    } else {
      MulMono(z, 0, q);
    }
    assert q * z < 65536 * (c + s);
    assert q * z == q * e - 14 * q * a;
    MulAssoc(65536, p - 1, a);
    MulMono(q * e - 65536 * c, 65536 * s + 14 * q * a, q);
    Distribute(65536 * c - q * e, 0, q);
  }
}
