/** What the ADPCM predictor predicts (adpcm/g72x.c, fmult(), predictor_zero() and predictor_pole()).

  Products are formed on short floating point words: four bits of exponent and six of mantissa, the two
  delay lines being kept in that form.  The results compare them with the products of the numbers they stand
  for: each is right to a sixteenth and 16 units, so the predictor is, to that accuracy, the linear
  prediction from the last two signals and the last six differences.
 */
module Prediction {
  import opened FixedPoint
  import opened Runs
  import opened G72x
  import opened Adpcm
  import opened Types

  // ----- what a float word stands for

  /** Twice the magnitude; zero counts as a half. */
  function Doubled(x: int): (n: int)
    ensures n > 0
  {
    if x == 0 then 1 else if x < 0 then -2 * x else 2 * x
  }

  /** The word `w` is the number `v`, its magnitude cut to six bits. */
  predicate Denotes(w: Word, v: int) {
    && IsFloat(w)
    && w % 64 * Pow2(w / 64 % 16) <= 32 * Doubled(v) < (w % 64 + 1) * Pow2(w / 64 % 16)
    && (v != 0 ==> (w < 0 <==> v < 0))
  }

  lemma MagnitudeDenotes(mag: int, negative: bool)
    requires 0 < mag < 0x8000
    ensures var w := FloatMagnitude(mag) - (if negative then 0x400 else 0);
            ToWord(w) == w && Denotes(w, if negative then -mag else mag)
  {
    hide BitLength, Denotes, FloatMagnitude, IsFloat, Pow2, ToWord;
    var n := BitLength(mag);
    var q := mag * 64 / Pow2(n);
    FloatMagnitudeRange(mag);
    SignedFloat(FloatMagnitude(mag));
    MantissaRange(mag);
    FloatParts(mag);
    QuotientBrackets(mag * 64, Pow2(n));
    Fields(n, q, negative);
    if negative {
      FieldsDenote(FloatMagnitude(mag) - 0x400, -mag, n, q);
    } else {
      FieldsDenote(FloatMagnitude(mag), mag, n, q);
    }
  }

  lemma FieldsDenote(w: Word, v: int, n: nat, q: int)
    requires IsFloat(w) && w % 64 == q && w / 64 % 16 == n && v != 0 && (w < 0 <==> v < 0)
    requires q * Pow2(n) <= 32 * Doubled(v) < (q + 1) * Pow2(n)
    ensures Denotes(w, v)
  {
    hide IsFloat, Pow2;
  }

  lemma FloatParts(mag: int)
    requires 0 < mag < 0x8000
    ensures FloatMagnitude(mag) == BitLength(mag) * 64 + mag * 64 / Pow2(BitLength(mag))
  {
    hide BitLength, Pow2;
  }

  lemma MantissaRange(mag: int)
    requires 0 < mag < 0x8000
    ensures 32 <= mag * 64 / Pow2(BitLength(mag)) < 64
  {
    BitLengthBrackets(mag);
    var n := BitLength(mag);
    assert Pow2(n) == 2 * Pow2(n - 1);
    hide Pow2, BitLength;
    QuotientBetween(mag * 64, Pow2(n), 32, 64);
  }

  lemma Fields(n: nat, q: int, negative: bool)
    requires n <= 15 && 32 <= q < 64
    ensures var w := n * 64 + q - (if negative then 0x400 else 0);
            w % 64 == q && w / 64 % 16 == n
  {
  }

  /** FLOAT B; the most negative signal is remembered as zero. */
  function Kept(sr: Word): int {
    if sr == MIN_WORD then 0 else sr
  }

  lemma SignalDenotes(sr: Word)
    ensures Denotes(FloatSr(sr), Kept(sr))
  {
    hide Denotes, FloatMagnitude, ToWord;
    if sr == 0 || sr == MIN_WORD {
      ZeroDenotes(sr != 0);
      NegativeZero();
    } else {
      var mag := if sr > 0 then sr else 0 - sr;
      MagnitudeDenotes(mag, sr < 0);
    }
  }

  lemma ZeroDenotes(negative: bool)
    ensures Denotes(if negative then -992 else 0x20, 0)
  {
    Fields(0, 32, negative);
    assert Pow2(0) == 1;
    hide Pow2;
  }

  lemma NegativeZero()
    ensures ToWord(0xFC20) == -992
  {
  }

  /** FLOAT A on a difference in sign and magnitude. */
  lemma DifferenceDenotes(m: int, negative: bool)
    requires 0 <= m < 0x8000
    ensures Denotes(FloatDq(if negative then m - 0x8000 else m), if negative then -m else m)
  {
    hide Denotes, FloatMagnitude, ToWord;
    MagnitudeOfDifference(m, negative);
    if m == 0 {
      ZeroDenotes(negative);
      NegativeZero();
    } else {
      MagnitudeDenotes(m, negative);
    }
  }

  lemma MagnitudeOfDifference(m: int, negative: bool)
    requires 0 <= m < 0x8000
    ensures (if negative then m - 0x8000 else m) % 0x8000 == m
  {
  }

  // ----- fmult()

  /** The product of two six-bit mantissas is right to 3 / 64 above and, in terms of the whole first factor,
      to 1 / 32 below. */
  lemma MantissaProduct(a: int, m: int)
    requires 32 <= a <= 63 && 32 <= m <= 63
    ensures 31 * ((a + 1) * m) < 512 * G72x.Product(a, m) && 1024 * G72x.Product(a, m) <= 67 * (a * m)
  {
    ProductIs(a, m);
    MulMono(32, a, m);
    Distribute(a, 1, m);
    hide *;
    SixteenthBounds(a * m, m);
  }

  lemma ProductIs(a: int, m: int)
    requires 32 <= a <= 63 && 32 <= m <= 63
    ensures G72x.Product(a, m) == (a * m + 0x30) / 16
  {
  }

  lemma SixteenthBounds(x: int, m: int)
    requires 32 <= m && 32 * m <= x
    ensures 31 * (x + m) < 512 * ((x + 0x30) / 16) && 1024 * ((x + 0x30) / 16) <= 67 * x
  {
  }

  /** SixBits brings a factor to 32..63 by a power of two. */
  lemma SixBitsBrackets(mag: int)
    requires 0 <= mag < 0x2000
    ensures SixBits(mag) * Pow2(BitLength(mag)) <= 32 * Doubled(mag) < (SixBits(mag) + 1) * Pow2(BitLength(mag))
  {
    hide BitLength, SixBits;
    BitLengthBrackets(mag);
    if mag == 0 {
      assert SixBits(0) == 32 && Pow2(0) == 1 by { SixBitsOfZero(); }
    } else {
      SixBitsIs(mag);
      if BitLength(mag) >= 6 {
        ShiftedDown(mag, BitLength(mag), SixBits(mag));
      } else {
        ShiftedUp(mag, BitLength(mag), SixBits(mag));
      }
    }
  }

  lemma SixBitsOfZero()
    ensures SixBits(0) == 32 && Pow2(0) == 1
  {
    hide BitLength;
  }

  lemma SixBitsIs(mag: int)
    requires 0 < mag < 0x2000
    ensures var n := BitLength(mag);
            SixBits(mag) == if n >= 6 then mag / Pow2(n - 6) else mag * Pow2(6 - n)
  {
    hide BitLength, Pow2;
  }

  lemma ShiftedDown(mag: int, n: nat, q: int)
    requires 0 < mag && n >= 6 && q == mag / Pow2(n - 6)
    ensures q * Pow2(n) <= 64 * mag < (q + 1) * Pow2(n)
  {
    var p := Pow2(n - 6);
    Pow2Add(n - 6, 6);
    assert Pow2(n) == p * 64 by { Pow2Values(); }
    hide Pow2;
    QuotientBrackets(mag, p);
    MulAssoc(q, p, 64);
    MulAssoc(q + 1, p, 64);
  }

  lemma ShiftedUp(mag: int, n: nat, q: int)
    requires 0 < mag && n < 6 && q == mag * Pow2(6 - n)
    ensures q * Pow2(n) <= 64 * mag < (q + 1) * Pow2(n)
  {
    Pow2Add(6 - n, n);
    assert Pow2(6) == 64 by { Pow2Values(); }
    hide Pow2;
    MulAssoc(mag, Pow2(6 - n), Pow2(n));
    Distribute(q, 1, Pow2(n));
  }

  /** A product of mantissas put back in its place, rounded down. */
  function Placed(w: int, k: int): int {
    if k >= 0 then w * Pow2(k) else w / Pow2(-k)
  }

  lemma PlacedBrackets(w: int, n: nat, e: nat)
    ensures var r, pq := Placed(w, n + e - 19), Pow2(n) * Pow2(e);
            0x8_0000 * r <= w * pq < 0x8_0000 * (r + 1)
  {
    hide Placed, Pow2;
    var k, pq := n + e - 19, Pow2(n) * Pow2(e);
    Pow2Add(n, e);
    assert Pow2(19) == 0x8_0000 by { Pow2HighValues(); }
    if k >= 0 {
      Pow2Add(k, 19);
      PlacedUp(w, k, pq);
    } else {
      Pow2Add(-k, n + e);
      PlacedDown(w, -k, pq);
    }
  }

  lemma PlacedUp(w: int, k: nat, pq: int)
    requires pq == Pow2(k) * 0x8_0000
    ensures 0x8_0000 * Placed(w, k) == w * pq
  {
    hide Pow2;
    MulAssoc(w, Pow2(k), 0x8_0000);
  }

  lemma PlacedDown(w: int, j: int, pq: int)
    requires j > 0 && pq > 0 && Pow2(j) * pq == 0x8_0000
    ensures 0x8_0000 * Placed(w, -j) <= w * pq < 0x8_0000 * (Placed(w, -j) + 1)
  {
    hide Pow2;
    BelowPlace(w, Pow2(j), pq);
  }

  lemma BelowPlace(w: int, p: int, q: int)
    requires p > 0 && q > 0
    ensures w / p * (p * q) <= w * q < (w / p + 1) * (p * q)
  {
    var r := w / p;
    QuotientBrackets(w, p);
    MulMono(r * p, w, q);
    MulMono(w + 1, (r + 1) * p, q);
    Distribute(w, 1, q);
    MulAssoc(r, p, q);
    MulAssoc(r + 1, p, q);
  }

  lemma Interchange(a: int, m: int, p: int, q: int)
    ensures a * m * (p * q) == a * p * (m * q)
  {
    MulAssoc(a * m, p, q);
    MulAssoc(a, m, p);
    MulAssoc(a, p, m);
    MulAssoc(a * p, m, q);
  }

  /** The error of a product, from those of its mantissas. */
  lemma ProductError(a: int, m: int, w: int, p: int, q: int, n: int, v: int, r: int)
    requires 32 <= m && p > 0 && q > 0 && n > 0 && v > 0
    requires a * p <= 32 * n < (a + 1) * p && m * q <= 32 * v < (m + 1) * q
    requires 31 * ((a + 1) * m) < 512 * w && 1024 * w <= 67 * (a * m)
    requires 0x8_0000 * r <= w * (p * q) < 0x8_0000 * (r + 1)
    ensures 0x8_0000 * r <= 67 * (n * v)
    ensures 31 * (n * v) < 33 * 0x2000 * (r + 1)
  {
    MulMono(1, p, q);
    var x, y := w * (p * q), m * q;
    ErrorAbove(a, m, w, p, q, n, v);
    ErrorBelow(a, m, w, p, q, n, v);
    hide *;
    assert x <= 67 * (n * v) && 31 * 64 * (n * v) < 33 * x;
  }

  lemma ErrorAbove(a: int, m: int, w: int, p: int, q: int, n: int, v: int)
    requires 32 <= m && p > 0 && q > 0 && p * q > 0 && n > 0 && v > 0
    requires a * p <= 32 * n && m * q <= 32 * v && 1024 * w <= 67 * (a * m)
    ensures w * (p * q) <= 67 * (n * v)
  {
    MulMono(1024 * w, 67 * (a * m), p * q);
    MulAssoc(1024, w, p * q);
    MulAssoc(67, a * m, p * q);
    Interchange(a, m, p, q);
    MulMono(0, m, q);
    MulMono(a * p, 32 * n, m * q);
    MulMono(m * q, 32 * v, 32 * n);
    MulAssoc(32, n, m * q);
    assert m * q * (32 * n) == 32 * n * (m * q);
    assert 32 * v * (32 * n) == 1024 * (n * v) by { MulAssoc(32, v, 32 * n); MulAssoc(v, 32, n); }
  }

  lemma ErrorBelow(a: int, m: int, w: int, p: int, q: int, n: int, v: int)
    requires 32 <= m && p > 0 && q > 0 && p * q > 0 && n > 0 && v > 0
    requires 32 * n < (a + 1) * p && 32 * v < (m + 1) * q && 31 * ((a + 1) * m) < 512 * w
    ensures 31 * 64 * (n * v) < 33 * (w * (p * q))
  {
    var x, y := w * (p * q), m * q;
    MulMono(32, m, q);
    Distribute(m, 1, q);
    assert 33 * y >= 1024 * v;
    ScaledProducts(31 * ((a + 1) * m) + 1, 512 * w, p * q);
    Interchange(a + 1, m, p, q);
    MulMono(32 * n, (a + 1) * p, y);
    FactorsOut(a, m, w, p, q, n, v);
    MulMono(1024 * v, 33 * y, n);
  }

  lemma ScaledProducts(a: int, b: int, c: int)
    requires a <= b && c > 0
    ensures a * c <= b * c && (a - 1) * c < b * c
  {
    MulMono(a, b, c);
    Distribute(a, 1, c);
  }

  lemma FactorsOut(a: int, m: int, w: int, p: int, q: int, n: int, v: int)
    ensures 31 * ((a + 1) * m) * (p * q) == 31 * ((a + 1) * m * (p * q))
    ensures 512 * w * (p * q) == 512 * (w * (p * q))
    ensures 32 * n * (m * q) == 32 * (n * (m * q))
    ensures 1024 * v * n == 1024 * (n * v) && 33 * (m * q) * n == 33 * (n * (m * q))
  {
    MulAssoc(31, (a + 1) * m, p * q);
    MulAssoc(512, w, p * q);
    MulAssoc(32, n, m * q);
    MulAssoc(1024, v, n);
    MulAssoc(33, m * q, n);
  }

  /** fmult() where nothing is cut off above: sign and placed product. */
  lemma FmultIs(an: int, srn: Word, r: int)
    requires -0x2000 < an < 0x2000 && IsFloat(srn)
    requires var mag := if an < 0 then -an else an;
             r == Placed(G72x.Product(SixBits(mag), srn % 64), BitLength(mag) + srn / 64 % 16 - 19) && 0 <= r < 0x8000
    ensures Fmult(an, srn) == if (an < 0) != (srn < 0) then -r else r
  {
    hide BitLength, Pow2, G72x.Product, SixBits;
    var mag := if an < 0 then -an else an;
    NegatedMagnitude(an);
    var w, k := G72x.Product(SixBits(mag), srn % 64), BitLength(mag) + srn / 64 % 16 - 19;
    assert k < 0 ==> ShiftRight(w, -k) == r;
    if k >= 0 {
      SmallRemainder(r, 0x8000);
    }
  }

  lemma NegatedMagnitude(an: int)
    requires -0x2000 < an < 0x2000
    ensures (if an > 0 then an else -an % 0x2000) == if an < 0 then -an else an
  {
    if an <= 0 {
      SmallRemainder(-an, 0x2000);
    }
  }

  /** The product is right to a sixteenth and 16 units, on the scale of 2^11 that is left to the caller: as
      long as the numbers' product is below fifteen sixteenths of what 15 bits hold, nothing is cut off. */
  lemma FmultIsProduct(an: int, srn: Word, v: int)
    requires -0x2000 < an < 0x2000 && -0x8000 < v < 0x8000 && Denotes(srn, v)
    requires 16 * Distance(an * v, 0) <= 15 * 0x400_0000
    ensures 16 * Distance(2048 * Fmult(an, srn), an * v) <= Distance(an * v, 0) + 16 * 16 * 2048
  {
    hide BitLength, Denotes, Fmult, IsFloat, Placed, Pow2, G72x.Product, SixBits;
    var mag, e, m := if an < 0 then -an else an, srn / 64 % 16, srn % 64;
    FieldsOf(srn, v);
    SixBitsBrackets(mag);
    var a, n := SixBits(mag), BitLength(mag);
    var w := G72x.Product(a, m);
    var r := Placed(w, n + e - 19);
    MantissaProduct(a, m);
    PlacedBrackets(w, n, e);
    ProductError(a, m, w, Pow2(n), Pow2(e), Doubled(an), Doubled(v), r);
    DoubledProduct(an, v);
    RoundedSize(an * v, Doubled(an) * Doubled(v), r);
    FmultIs(an, srn, r);
  }

  lemma FieldsOf(w: Word, v: int)
    requires Denotes(w, v)
    ensures IsFloat(w) && 32 <= w % 64 <= 63 && 0 <= w / 64 % 16 <= 15
    ensures w % 64 * Pow2(w / 64 % 16) <= 32 * Doubled(v) < (w % 64 + 1) * Pow2(w / 64 % 16)
    ensures v != 0 ==> (w < 0 <==> v < 0)
  {
    hide Pow2;
  }

  lemma DoubledProduct(x: int, y: int)
    requires -0x8000 < x < 0x8000 && -0x8000 < y < 0x8000
    ensures var z := Doubled(x) * Doubled(y);
            && 0 < z && (x == 0 || y == 0 ==> z <= 0x1_0000)
            && (x != 0 && y != 0 ==> z == 4 * Distance(x * y, 0) && (x * y < 0 <==> (x < 0) != (y < 0)))
  {
    MulMono(1, Doubled(x), Doubled(y));
    if x != 0 && y != 0 {
      var a, b := (if x < 0 then -x else x), (if y < 0 then -y else y);
      assert Doubled(x) == 2 * a && Doubled(y) == 2 * b;
      MulMono(1, a, b);
      SignsOfProduct(a, b);
      assert 2 * a * (2 * b) == 4 * (a * b);
    }
  }

  lemma SignsOfProduct(a: int, b: int)
    ensures (-a) * b == -(a * b) && a * -b == -(a * b) && (-a) * -b == a * b
  {
  }

  /** From the two one-sided errors to the distance. */
  lemma RoundedSize(p: int, z: int, r: int)
    requires 0x8_0000 * r <= 67 * z && 31 * z < 33 * 0x2000 * (r + 1)
    requires 0 < z && (z == 4 * Distance(p, 0) || (p == 0 && z <= 0x1_0000))
    requires 16 * Distance(p, 0) <= 15 * 0x400_0000
    ensures 0 <= r < 0x8000
    ensures 16 * Distance(2048 * r, Distance(p, 0)) <= Distance(p, 0) + 16 * 16 * 2048
    ensures p == 0 ==> r <= 8
  {
  }

  // ----- the delay lines

  /** The delay lines of `s` stand for the last two signals and the last six differences. */
  ghost predicate Remembers(s: Memory, r: seq<int>, d: seq<int>) {
    && |r| == 2 && |d| == 6
    && (forall k :: 0 <= k < 2 ==> Denotes(s.sr[k], r[k]))
    && (forall k :: 0 <= k < 6 ==> Denotes(s.dq[k], d[k]))
  }

  const SILENCE: seq<int> := [0, 0, 0, 0, 0, 0]

  lemma StartRemembersSilence()
    ensures Remembers(START, [0, 0], SILENCE)
  {
    ZeroDenotes(false);
    hide Denotes;
  }

  /** The difference that a code stands for. */
  function SignedDifference(rate: Rate, s: Memory, i: int): int
    requires IsCode(rate, i)
  {
    var m := Antilog(LogMagnitude(rate, StepSize(s), i));
    if i >= SignBit(rate) then -m else m
  }

  /** A code enters its difference and its signal into the delay lines. */
  lemma AbsorbRemembers(rate: Rate, s: Memory, se: Word, i: int, r: seq<int>, d: seq<int>)
    requires Inv(s) && IsCode(rate, i) && Remembers(s, r, d)
    ensures var (t, sr) := Absorb(rate, s, se, i);
            Remembers(t, [Kept(sr), r[0]], [SignedDifference(rate, s, i)] + d[..5])
  {
    hide Antilog, CodeSize, Denotes, Difference, Fi, FloatDq, FloatSr, Inv, IsCode, LogMagnitude, NextA0, NextA1;
    hide PoleDifference, SignBit, Signal, StepSize, Update, Wi, Kept;
    var dq := Difference(rate, s, i);
    var sr := Signal(rate, se, dq);
    var dqsez := PoleDifference(s, sr, se);
    UpdatedPredictor(CodeSize(rate), StepSize(s), Wi(rate, i), Fi(rate, i), dq, sr, dqsez, s);
    DifferenceIsAntilog(rate, s, i);
    DifferenceDenotes(Antilog(LogMagnitude(rate, StepSize(s), i)), i >= SignBit(rate));
    SignalDenotes(sr);
  }

  /** The last signal but `j`, 0 before the first. */
  function LastSignal(outs: seq<int>, j: nat): int {
    if |outs| <= j then 0
    else
      var sr := outs[|outs| - 1 - j] / 4;
      if sr == MIN_WORD then 0 else sr
  }

  /** The difference of the last code but `j`, 0 before the first. */
  function LastDifference(rate: Rate, codes: seq<int>, j: nat): int {
    if |codes| <= j then 0
    else
      var n := |codes| - 1 - j;
      SignedDifference(rate, Run(Decoder(rate), START, codes[..n]).0, codes[n] % (2 * SignBit(rate)))
  }

  function LastDifferences(rate: Rate, codes: seq<int>): (d: seq<int>)
    ensures |d| == 6
    ensures forall k :: 0 <= k < 6 ==> d[k] == LastDifference(rate, codes, k)
  {
    seq(6, k requires 0 <= k < 6 => LastDifference(rate, codes, k))
  }

  /** After any codes the delay lines of a decoder stand for its last two outputs, in 14 bits, and the
      differences of the last six codes. */
  lemma {:induction false} DecoderRemembers(rate: Rate, codes: seq<int>)
    ensures var (t, outs) := Run(Decoder(rate), START, codes);
            Remembers(t, [LastSignal(outs, 0), LastSignal(outs, 1)], LastDifferences(rate, codes))
  {
    hide Absorb, Remembers, Inv, SignBit, SignedDifference, DecoderEstimate;
    if codes == [] {
      StartRemembersSilence();
      assert LastDifferences(rate, []) == SILENCE;
    } else {
      var n := |codes| - 1;
      var (s, outs) := Run(Decoder(rate), START, codes[..n]);
      DecoderRemembers(rate, codes[..n]);
      assert Inv(START) by { StartInInv(); }
      DecoderKeepsInv(rate, START, codes[..n]);
      var i := codes[n] % (2 * SignBit(rate));
      var before := LastDifferences(rate, codes[..n]);
      AbsorbRemembers(rate, s, DecoderEstimate(s), i, [LastSignal(outs, 0), LastSignal(outs, 1)], before);
      LaterDifferences(rate, codes);
      var sr := Absorb(rate, s, DecoderEstimate(s), i).1;
      var all := Run(Decoder(rate), START, codes).1;
      assert all == outs + [sr * 4];
      assert LastSignal(all, 0) == Kept(sr) && LastSignal(all, 1) == LastSignal(outs, 0);
    }
  }

  lemma StartInInv()
    ensures Inv(START)
  {
  }

  lemma LaterDifferences(rate: Rate, codes: seq<int>)
    requires codes != []
    ensures var n := |codes| - 1;
            LastDifferences(rate, codes)
            == [SignedDifference(rate, Run(Decoder(rate), START, codes[..n]).0, codes[n] % (2 * SignBit(rate)))]
               + LastDifferences(rate, codes[..n])[..5]
  {
    hide SignedDifference, Run, Decoder, SignBit;
    var n := |codes| - 1;
    forall k | 0 <= k < 5 ensures LastDifference(rate, codes, k + 1) == LastDifference(rate, codes[..n], k) {
      if k < n {
        assert codes[..n][..n - 1 - k] == codes[..n - 1 - k] && codes[..n][n - 1 - k] == codes[n - 1 - k];
      }
    }
  }

  // ----- linear prediction

  /** A coefficient and a number whose product fmult() forms without cutting it off. */
  predicate TapFits(c: int, v: int) {
    -0x2000 < c < 0x2000 && -0x8000 < v < 0x8000 && 16 * Distance(Times(c, v), 0) <= 15 * 0x400_0000
  }

  function Times(c: int, v: int): int {
    c * v
  }

  /** The error allowed to a product `p`, 16 times: a sixteenth and 16 units of 2^11. */
  function Slack(p: int): int {
    Distance(p, 0) + 16 * 16 * 2048
  }

  lemma TapIsProduct(c: int, w: Word, v: int)
    requires TapFits(c, v) && Denotes(w, v)
    ensures 16 * Distance(2048 * Fmult(c, w), Times(c, v)) <= Slack(Times(c, v))
  {
    hide Denotes, Fmult;
    FmultIsProduct(c, w, v);
  }

  /** predictor_pole(): the two-pole prediction from the last two signals. */
  lemma PolePrediction(s: Memory, r: seq<int>, d: seq<int>)
    requires Remembers(s, r, d) && TapFits(s.a[0] / 4, r[0]) && TapFits(s.a[1] / 4, r[1])
    ensures var p0, p1 := Times(s.a[0] / 4, r[0]), Times(s.a[1] / 4, r[1]);
            16 * Distance(2048 * PredictorPole(s), p0 + p1) <= Slack(p0) + Slack(p1)
  {
    TapIsProduct(s.a[0] / 4, s.sr[0], r[0]);
    TapIsProduct(s.a[1] / 4, s.sr[1], r[1]);
    hide TapFits, Denotes, Fmult, Times;
  }

  /** The exact sum over the first `n` differences, and the error allowed to it, 16 times. */
  function ZeroTaps(b: seq<Word>, d: seq<int>, n: nat): int
    requires |b| == |d| == 6 && n <= 6
  {
    if n == 0 then 0 else ZeroTaps(b, d, n - 1) + Times(b[n - 1] / 4, d[n - 1])
  }

  function ZeroSlack(b: seq<Word>, d: seq<int>, n: nat): int
    requires |b| == |d| == 6 && n <= 6
  {
    if n == 0 then 0 else ZeroSlack(b, d, n - 1) + Slack(Times(b[n - 1] / 4, d[n - 1]))
  }

  lemma {:induction false} ZeroSums(s: Memory, r: seq<int>, d: seq<int>, n: nat)
    requires Remembers(s, r, d) && n <= 6 && forall k :: 0 <= k < n ==> TapFits(s.b[k] / 4, d[k])
    ensures 16 * Distance(2048 * ZeroSum(s, n), ZeroTaps(s.b, d, n)) <= ZeroSlack(s.b, d, n)
  {
    hide TapFits, Denotes, Fmult, Times;
    if n > 0 {
      ZeroSums(s, r, d, n - 1);
      TapIsProduct(s.b[n - 1] / 4, s.dq[n - 1], d[n - 1]);
    }
  }

  /** predictor_zero(): the six-zero prediction from the last six differences. */
  lemma ZeroPrediction(s: Memory, r: seq<int>, d: seq<int>)
    requires Remembers(s, r, d) && forall k :: 0 <= k < 6 ==> TapFits(s.b[k] / 4, d[k])
    ensures 16 * Distance(2048 * PredictorZero(s), ZeroTaps(s.b, d, 6)) <= ZeroSlack(s.b, d, 6)
  {
    ZeroSums(s, r, d, 6);
    hide TapFits, Denotes, Fmult, Remembers, ZeroSum, ZeroTaps, ZeroSlack;
  }

  /** After any codes from the initial state: what the decoder predicts next is, on a scale of 2^12, the sum
      of the poles times its own last two outputs and the zeros times the differences of the last six codes,
      if the sum fits 16 bits and no product is cut off. */
  lemma DecoderPredictsLinearly(rate: Rate, codes: seq<int>)
    ensures var (t, outs) := Run(Decoder(rate), START, codes);
            var d := LastDifferences(rate, codes);
            var a0, r0, a1, r1 := t.a[0] / 4, LastSignal(outs, 0), t.a[1] / 4, LastSignal(outs, 1);
            TapFits(a0, r0) && TapFits(a1, r1) && (forall k :: 0 <= k < 6 ==> TapFits(t.b[k] / 4, d[k]))
            && MIN_WORD <= PredictorZero(t) <= MAX_WORD && SumFits(t) ==>
              16 * Distance(4096 * DecoderEstimate(t), Times(a0, r0) + Times(a1, r1) + ZeroTaps(t.b, d, 6))
              <= Slack(Times(a0, r0)) + Slack(Times(a1, r1)) + ZeroSlack(t.b, d, 6) + 16 * 2048
  {
    hide TapFits, Remembers, Fmult, Times, Slack, ZeroSum, ZeroTaps, ZeroSlack, Decoder, LastSignal, PredictorZero;
    hide PredictorPole, ToWord;
    var (t, outs) := Run(Decoder(rate), START, codes);
    var d := LastDifferences(rate, codes);
    var r := [LastSignal(outs, 0), LastSignal(outs, 1)];
    DecoderRemembers(rate, codes);
    if TapFits(t.a[0] / 4, r[0]) && TapFits(t.a[1] / 4, r[1]) && (forall k :: 0 <= k < 6 ==> TapFits(t.b[k] / 4, d[k]))
       && MIN_WORD <= PredictorZero(t) <= MAX_WORD && SumFits(t) {
      PolePrediction(t, r, d);
      ZeroPrediction(t, r, d);
      EstimateOfSum(t);
    }
  }

  lemma EstimateOfSum(s: Memory)
    requires MIN_WORD <= PredictorZero(s) <= MAX_WORD && SumFits(s)
    ensures 2 * DecoderEstimate(s) <= PredictorZero(s) + PredictorPole(s) <= 2 * DecoderEstimate(s) + 1
  {
    hide PredictorZero, PredictorPole;
  }
}
