/** Regular pulse excitation coding (gsm/rpe.c, sections 4.2.13 to 4.2.17 of GSM 06.10). */
module Rpe {
  import opened FixedPoint

  // ----- 4.2.13 weighting filter

  /** The macro STEP( i, H ). */
  function Step(e: int, h: int): int {
    e * h
  }

  /** Table 4.4. */
  const H: seq<Word> := [-134, -374, 0, 2054, 5741, 8192, 5741, 2054, 0, -374, -134]

  /** GSM_L_MULT( wt[k + i], gsm_H[i] ). */
  function Tap(e: Word, i: nat): LongWord
    requires i < 11
  {
    TapFits(e, i);
    2 * Step(e, H[i])
  }

  function Magnitude(i: nat): nat
    requires i < 11
  {
    if H[i] < 0 then 0 - H[i] else H[i]
  }

  lemma TapFits(e: Word, i: nat)
    requires i < 11
    ensures Magnitude(i) <= 8192 && -(32768 * Magnitude(i)) <= Step(e, H[i]) <= 32768 * Magnitude(i)
  {
    ProductBound(e, H[i], 32768, Magnitude(i));
  }

  /** The loop kept in a comment, as section 4.2.13 has it: the sum starts at 8192, products are doubled,
      additions saturate. */
  function CommentedSum(e: seq<Word>, k: nat, n: nat): LongWord
    requires |e| == 50 && k < 40 && n <= 11
  {
    if n == 0 then 8192 else GsmLAdd(CommentedSum(e, k, n - 1), Tap(e[k + n - 1], n - 1))
  }

  /** The filtered sample `k` of the 50 words `e` (five words of margin on both sides): the commented loop,
      two doublings that saturate, and the upper 16 bits. */
  function Weighted(e: seq<Word>, k: nat): Word
    requires |e| == 50 && k < 40
  {
    var lResult := CommentedSum(e, k, 11);
    var twice := GsmLAdd(lResult, lResult);
    GsmLAdd(twice, twice) / 0x1_0000
  }

  /** The plain sum of products. */
  function PlainSum(e: seq<Word>, k: nat, n: nat): int
    requires |e| == 50 && k < 40 && n <= 11
  {
    if n == 0 then 0 else PlainSum(e, k, n - 1) + Step(e[k + n - 1], H[n - 1])
  }

  function Magnitudes(n: nat): nat
    requires n <= 11
  {
    if n == 0 then 0 else Magnitudes(n - 1) + Magnitude(n - 1)
  }

  /** No sum of the commented loop saturates. */
  lemma {:induction false} CommentedSumIsPlain(e: seq<Word>, k: nat, n: nat)
    requires |e| == 50 && k < 40 && n <= 11
    ensures CommentedSum(e, k, n) == 8192 + 2 * PlainSum(e, k, n)
    ensures -(32768 * Magnitudes(n)) <= PlainSum(e, k, n) <= 32768 * Magnitudes(n)
    ensures Magnitudes(n) <= 24798
  {
    AllMagnitudes(n);
    if n > 0 {
      CommentedSumIsPlain(e, k, n - 1);
      TapFits(e[k + n - 1], n - 1);
      hide Step, H, Magnitude;
      var a, t, m := PlainSum(e, k, n - 1), Step(e[k + n - 1], H[n - 1]), Magnitude(n - 1);
      assert PlainSum(e, k, n) == a + t && Magnitudes(n) == Magnitudes(n - 1) + m;
      assert CommentedSum(e, k, n) == GsmLAdd(8192 + 2 * a, 2 * t);
      hide CommentedSum, PlainSum, Magnitudes;
    }
  }

  lemma AllMagnitudes(n: nat)
    requires n <= 11
    ensures Magnitudes(n) <= 24798
  {
    assert Magnitudes(5) == 134 + 374 + 2054 + 5741;
    assert Magnitudes(11) == 24798;
    MagnitudesGrow(n, 11);
  }

  lemma {:induction false} MagnitudesGrow(m: nat, n: nat)
    requires m <= n <= 11
    ensures Magnitudes(m) <= Magnitudes(n)
  {
    if m < n {
      MagnitudesGrow(m, n - 1);
    }
  }

  /** The single sum without doublings, shifted by 13 and clamped, is the commented filter. */
  lemma SingleSumIsWeighted(e: seq<Word>, k: nat)
    requires |e| == 50 && k < 40
    ensures Weighted(e, k) == Saturate((4096 + PlainSum(e, k, 11)) / 8192)
    ensures -0x8000_0000 <= 4096 + PlainSum(e, k, 11) <= 0x7FFF_FFFF
  {
    CommentedSumIsPlain(e, k, 11);
    var s := PlainSum(e, k, 11);
    hide CommentedSum, PlainSum, Magnitudes;
    var l: LongWord := 8192 + 2 * s;
    UpperHalfOfFour(l, 4096 + s);
  }

  lemma UpperHalfOfFour(l: LongWord, s: int)
    requires l == 2 * s
    ensures GsmLAdd(GsmLAdd(l, l), GsmLAdd(l, l)) / 0x1_0000 == Saturate(s / 8192)
  {
  }

  /** The nine products the code writes out. */
  lemma NineProducts(e: seq<Word>, k: nat)
    requires |e| == 50 && k < 40
    ensures PlainSum(e, k, 11)
         == Step(e[k], -134) + Step(e[k + 1], -374) + Step(e[k + 3], 2054) + Step(e[k + 4], 5741) + Step(e[k + 5], 8192)
            + Step(e[k + 6], 5741) + Step(e[k + 7], 2054) + Step(e[k + 9], -374) + Step(e[k + 10], -134)
  {
    assert PlainSum(e, k, 0) == 0;
    NextProduct(e, k, 1, -134);
    NextProduct(e, k, 2, -374);
    NextProduct(e, k, 3, 0);
    NextProduct(e, k, 4, 2054);
    NextProduct(e, k, 5, 5741);
    NextProduct(e, k, 6, 8192);
    NextProduct(e, k, 7, 5741);
    NextProduct(e, k, 8, 2054);
    NextProduct(e, k, 9, 0);
    NextProduct(e, k, 10, -374);
    NextProduct(e, k, 11, -134);
    hide PlainSum;
    assert Step(e[k + 2], 0) == Step(e[k + 8], 0) == 0;
    hide Step;
  }

  lemma NextProduct(e: seq<Word>, k: nat, n: nat, h: Word)
    requires |e| == 50 && k < 40 && 0 < n <= 11 && h == H[n - 1]
    ensures PlainSum(e, k, n) == PlainSum(e, k, n - 1) + Step(e[k + n - 1], h)
  {
  }

  type Block = s: seq<Word> | |s| == 40 witness seq(40, _ => 0)
  type Pulses = s: seq<Word> | |s| == 13 witness seq(13, _ => 0)

  function WeightedBlock(e: seq<Word>): Block
    requires |e| == 50
  {
    seq(40, k requires 0 <= k < 40 => Weighted(e, k))
  }

  method WeightingFilter(e: array<Word>, x: array<Word>)
    requires e.Length == 50 && x.Length == 40 && e != x
    modifies x
    ensures x[..] == WeightedBlock(e[..])
  {
    hide Weighted, PlainSum, Step;
    for k := 0 to 40
      invariant forall j :: 0 <= j < k ==> x[j] == Weighted(e[..], j)
    {
      NineProducts(e[..], k);
      SingleSumIsWeighted(e[..], k);
      var lResult: LongWord := 4096;
      lResult := lResult + (Step(e[k], -134) + Step(e[k + 1], -374) + Step(e[k + 3], 2054) + Step(e[k + 4], 5741) + Step(e[k + 5], 8192)
                            + Step(e[k + 6], 5741) + Step(e[k + 7], 2054) + Step(e[k + 9], -374) + Step(e[k + 10], -134));
      lResult := lResult / 8192;
      x[k] := if lResult < MIN_WORD then MIN_WORD else if lResult > MAX_WORD then MAX_WORD else lResult;
    }
  }

  // ----- 4.2.14 grid selection

  function Square(t: int): (r: int)
    ensures r >= 0
  {
    if t >= 0 then MulMono(0, t, t); t * t else MulMono(0, -t, -t); t * t
  }

  /** sum of (x[m + 3*i] >> 2)^2 for lo <= i < hi. */
  function Energy(x: Block, m: nat, lo: nat, hi: nat): (s: int)
    requires m + 3 * hi <= 42
    ensures lo >= hi ==> s == 0
  {
    if hi <= lo then 0 else Energy(x, m, lo, hi - 1) + Square(x[m + 3 * (hi - 1)] / 4)
  }

  /** The saturating loop that the source keeps in a comment: L_MULT doubles, L_ADD saturates. */
  function CommentedEnergy(x: Block, m: nat, n: nat): LongWord
    requires m <= 3 && n <= 13
  {
    if n == 0 then 0
    else
      var temp1 := x[m + 3 * (n - 1)] / 4;
      SquareFits(temp1);
      GsmLAdd(2 * Square(temp1), CommentedEnergy(x, m, n - 1))
  }

  /** The commented selection over the grids 0 to m - 1: (Mc, EM). */
  function CommentedSelection(x: Block, m: nat): (r: (nat, LongWord))
    requires m <= 4
    ensures r.0 <= 3 && r.1 >= 0
  {
    if m == 0 then (0, 0)
    else
      var (mc, em) := CommentedSelection(x, m - 1);
      var lResult := CommentedEnergy(x, m - 1, 13);
      if lResult > em then (m - 1, lResult) else (mc, em)
  }

  lemma SquareFits(t: int)
    requires -8192 <= t <= 8191
    ensures Square(t) <= 0x400_0000
  {
    ProductBound(t, t, 8192, 8192);
  }

  /** Thirteen doubled squares stay below 2^31, so the saturating sum is the plain one. */
  lemma {:induction false} CommentedEnergyIsPlain(x: Block, m: nat, n: nat)
    requires m <= 3 && n <= 13
    ensures CommentedEnergy(x, m, n) == 2 * Energy(x, m, 0, n)
    ensures 0 <= Energy(x, m, 0, n) <= n * 0x400_0000
  {
    if n > 0 {
      CommentedEnergyIsPlain(x, m, n - 1);
      SquareFits(x[m + 3 * (n - 1)] / 4);
      hide Square;
    }
  }

  /** Grids 0 and 3 share the samples 3, 6, ..., 36. */
  lemma {:induction false} CommonPart(x: Block, n: nat)
    requires 1 <= n <= 13
    ensures Energy(x, 0, 0, n) == Square(x[0] / 4) + Energy(x, 0, 1, n)
    ensures Energy(x, 3, 0, n - 1) == Energy(x, 0, 1, n)
  {
    hide Square;
    if n > 1 {
      CommonPart(x, n - 1);
      assert 3 + 3 * (n - 2) == 0 + 3 * (n - 1);
    } else {
      assert Energy(x, 0, 0, 0) == 0;
      assert x[0 + 3 * 0] == x[0];
    }
  }

  /** The doubled sums the optimised code compares, in terms of the part it shares. */
  lemma SharedEnergies(x: Block)
    ensures CommentedEnergy(x, 0, 13) == 2 * (Energy(x, 0, 1, 13) + Square(x[0] / 4))
    ensures CommentedEnergy(x, 1, 13) == 2 * Energy(x, 1, 0, 13)
    ensures CommentedEnergy(x, 2, 13) == 2 * Energy(x, 2, 0, 13)
    ensures CommentedEnergy(x, 3, 13) == 2 * (Energy(x, 0, 1, 13) + Square(x[39] / 4))
    ensures forall m :: 0 <= m <= 3 ==> 0 <= CommentedEnergy(x, m, 13) <= 26 * 0x400_0000
  {
    hide Square;
    forall m | 0 <= m <= 3
      ensures CommentedEnergy(x, m, 13) == 2 * Energy(x, m, 0, 13)
      ensures 0 <= Energy(x, m, 0, 13) <= 13 * 0x400_0000
    {
      CommentedEnergyIsPlain(x, m, 13);
    }
    CommonPart(x, 13);
    assert Energy(x, 3, 0, 13) == Energy(x, 3, 0, 12) + Square(x[39] / 4);
  }

  /** What is selected: the first grid whose energy no other grid exceeds. */
  lemma {:induction false} SelectionIsFirstMaximum(x: Block, n: nat)
    requires 1 <= n <= 4
    ensures var (mc, em) := CommentedSelection(x, n);
            && mc < n && em == 2 * Energy(x, mc, 0, 13)
            && (forall m :: 0 <= m < n ==> Energy(x, m, 0, 13) <= Energy(x, mc, 0, 13))
            && (forall m :: 0 <= m < mc ==> Energy(x, m, 0, 13) < Energy(x, mc, 0, 13))
  {
    CommentedEnergyIsPlain(x, n - 1, 13);
    hide CommentedEnergy;
    hide Energy;
    if n > 1 {
      SelectionIsFirstMaximum(x, n - 1);
    } else {
      assert CommentedSelection(x, 0) == (0, 0);
    }
  }

  /** RPE_grid_selection.  The optimised code, which computes the common part of grids 0 and 3 once
      and never saturates, picks the grid of the commented loop. */
  method RpeGridSelection(x: array<Word>, xM: array<Word>) returns (mc: Word)
    requires x.Length == 40 && xM.Length == 13 && x != xM
    modifies xM
    ensures mc == CommentedSelection(x[..], 4).0
    ensures 0 <= mc <= 3 && forall i :: 0 <= i < 13 ==> xM[i] == x[mc + 3 * i]
  {
    ghost var s: Block := x[..];
    mc := SelectGrid(x);
    for i := 0 to 13
      invariant forall j :: 0 <= j < i ==> xM[j] == x[mc + 3 * j]
      invariant x[..] == s
    {
      xM[i] := x[mc + 3 * i];
    }
  }

  /** The four energy blocks of RPE_grid_selection. */
  method SelectGrid(x: array<Word>) returns (mc: Word)
    requires x.Length == 40
    ensures mc == CommentedSelection(x[..], 4).0
  {
    ghost var s: Block := x[..];
    SharedEnergies(s);
    hide Square;
    hide Energy;
    hide CommentedEnergy;
    mc := 0;
    var lCommon03 := Steps(x, 0, 1, 13);
    var lTemp: LongWord := x[0] / 4;
    var lResult: LongWord := (lCommon03 + Square(lTemp)) * 2;
    var em := lResult;
    assert CommentedSelection(s, 1) == (0, em);

    lResult := Steps(x, 1, 0, 13);
    lResult := lResult * 2;
    if lResult > em {
      mc := 1;
      em := lResult;
    }
    assert CommentedSelection(s, 2) == (mc, em);

    lResult := Steps(x, 2, 0, 13);
    lResult := lResult * 2;
    if lResult > em {
      mc := 2;
      em := lResult;
    }
    assert CommentedSelection(s, 3) == (mc, em);

    lTemp := x[39] / 4;
    lResult := (lCommon03 + Square(lTemp)) * 2;
    if lResult > em {
      mc := 3;
      em := lResult;
    }
    assert CommentedSelection(s, 4) == (mc, em);
  }

  /** A row of STEP( m, i ) macros for lo <= i < hi. */
  method Steps(x: array<Word>, m: nat, lo: nat, hi: nat) returns (lResult: LongWord)
    requires x.Length == 40 && m <= 3 && lo <= hi <= 13 && m + 3 * hi <= 42
    ensures lResult == Energy(x[..], m, lo, hi)
  {
    hide Square;
    lResult := 0;
    for i := lo to hi
      invariant lResult == Energy(x[..], m, lo, i) && 0 <= lResult <= (i - lo) * 0x400_0000
    {
      var lTemp := x[m + 3 * i] / 4;
      SquareFits(lTemp);
      lResult := lResult + Square(lTemp);
    }
  }

  // ----- 4.2.15 APCM quantization

  const NRFAC: seq<Word> := [29128, 26215, 23832, 21846, 20165, 18725, 17476, 16384]
  const FAC: seq<Word> := [18431, 20479, 22527, 24575, 26623, 28671, 30719, 32767]

  /** The normalising loop `mant = mant << 1 | 1; exp--`. */
  function Normalise(exp: int, mant: int): (r: (int, int))
    requires 1 <= mant <= 15
    ensures 0 <= r.1 <= 7
    ensures exp - (if mant == 1 then 3 else if mant <= 3 then 2 else if mant <= 7 then 1 else 0) <= r.0 <= exp
    decreases 8 - mant
  {
    if mant <= 7 then Normalise(exp - 1, mant * 2 + 1) else (exp, mant - 8)
  }

  /** Exponent and mantissa of a coded maximum. */
  function ExpMant(xmaxc: Word): (r: (int, int))
    requires 0 <= xmaxc <= 63
    ensures -4 <= r.0 <= 6 && 0 <= r.1 <= 7
  {
    var exp := if xmaxc > 15 then xmaxc / 8 - 1 else 0;
    var mant := xmaxc - exp * 8;
    if mant == 0 then (-4, 7) else Normalise(exp, mant)
  }

  /** APCM_quantization_xmaxc_to_exp_mant. */
  method XmaxcToExpMant(xmaxc: Word) returns (exp: Word, mant: Word)
    requires 0 <= xmaxc <= 63
    ensures (exp, mant) == ExpMant(xmaxc)
  {
    exp := 0;
    if xmaxc > 15 { exp := xmaxc / 8 - 1; }
    mant := xmaxc - exp * 8;
    if mant == 0 {
      exp := -4;
      mant := 7;
    } else {
      ghost var e0, m0 := exp, mant;
      while mant <= 7
        invariant 1 <= mant <= 15 && -4 <= exp <= e0
        invariant Normalise(exp, mant) == Normalise(e0, m0)
        invariant exp - 3 <= Normalise(e0, m0).0
        decreases 8 - mant
      {
        mant := mant * 2 + 1;
        exp := exp - 1;
      }
      mant := mant - 8;
    }
  }

  /** The decoded maximum plus one: every block maximum with code `c` is below it. */
  function Ceiling(c: Word): (d: nat)
    requires 0 <= c <= 63
  {
    var (exp, mant) := ExpMant(c);
    Span(exp, mant)
  }

  function Span(exp: int, mant: int): (d: nat)
    requires -4 <= exp <= 6 && 0 <= mant <= 7
  {
    (9 + mant) * Pow2(exp + 5)
  }

  lemma CeilingValues(c: Word)
    requires 0 <= c <= 63
    ensures c < 16 ==> Ceiling(c) == 32 * (c + 1)
    ensures c >= 16 ==> Ceiling(c) == (9 + c % 8) * Pow2(c / 8 + 4) && ExpMant(c) == (c / 8 - 1, c % 8)
  {
    assert Pow2(1) == 2 && Pow2(2) == 4 && Pow2(3) == 8 && Pow2(4) == 16 && Pow2(5) == 32;
    if 8 <= c < 16 {
      assert ExpMant(c) == (0, c - 8);
    } else if c == 0 {
      assert ExpMant(c) == (-4, 7);
    } else if c == 1 {
      assert Normalise(0, 1) == Normalise(-1, 3) == Normalise(-2, 7) == Normalise(-3, 15);
    } else if c <= 3 {
      assert Normalise(0, c) == Normalise(-1, 2 * c + 1) == Normalise(-2, 4 * c + 3);
    } else if c <= 7 {
      assert Normalise(0, c) == Normalise(-1, 2 * c + 1);
    }
  }

  /** The exponent loop of APCM_quantization after `i` rounds: (exp, temp, itest). */
  function ExpLoop(xmax: Word, i: nat): (r: (int, int, bool))
    requires 0 <= xmax
    ensures 0 <= r.0 <= i
  {
    if i == 0 then (0, xmax / 512, false)
    else
      var (exp, temp, itest) := ExpLoop(xmax, i - 1);
      var itest1 := itest || temp <= 0;
      (if itest1 then exp else exp + 1, temp / 2, itest1)
  }

  /** `xmaxc`, the six-bit code of a block maximum. */
  function MaxCode(xmax: Word): Word
    requires 0 <= xmax
  {
    var exp := ExpLoop(xmax, 6).0;
    GsmAdd(ToWord(Sasr(xmax, exp + 5)), exp * 8)
  }

  /** The loop finds the bit length of xmax / 512. */
  lemma ExpLoopIsBitLength(xmax: Word)
    requires 0 <= xmax
    ensures var e := ExpLoop(xmax, 6).0;
            0 <= e <= 6 && xmax < Pow2(9 + e) && (e > 0 ==> Pow2(8 + e) <= xmax)
  {
    assert ExpLoop(xmax, 1).1 == xmax / 1024;
    assert ExpLoop(xmax, 2).1 == xmax / 2048;
    assert ExpLoop(xmax, 3).1 == xmax / 4096;
    assert ExpLoop(xmax, 4).1 == xmax / 8192;
    assert ExpLoop(xmax, 5).1 == xmax / 16384;
    Pow2Values();
  }

  /** The ceilings, octave by octave. */
  lemma CeilingTable(c: Word)
    requires 0 <= c <= 63
    ensures c < 16 ==> Ceiling(c) == 32 * (c + 1)
    ensures 16 <= c < 24 ==> Ceiling(c) == 64 * (c - 7)
    ensures 24 <= c < 32 ==> Ceiling(c) == 128 * (c - 15)
    ensures 32 <= c < 40 ==> Ceiling(c) == 256 * (c - 23)
    ensures 40 <= c < 48 ==> Ceiling(c) == 512 * (c - 31)
    ensures 48 <= c < 56 ==> Ceiling(c) == 1024 * (c - 39)
    ensures 56 <= c ==> Ceiling(c) == 2048 * (c - 47)
  {
    CeilingValues(c);
    Pow2Values();
    hide Ceiling;
    hide ExpMant;
  }

  /** The codes, octave by octave. */
  lemma MaxCodeTable(xmax: Word)
    requires 0 <= xmax
    ensures xmax < 512 ==> MaxCode(xmax) == xmax / 32
    ensures 512 <= xmax < 1024 ==> MaxCode(xmax) == xmax / 64 + 8
    ensures 1024 <= xmax < 2048 ==> MaxCode(xmax) == xmax / 128 + 16
    ensures 2048 <= xmax < 4096 ==> MaxCode(xmax) == xmax / 256 + 24
    ensures 4096 <= xmax < 8192 ==> MaxCode(xmax) == xmax / 512 + 32
    ensures 8192 <= xmax < 16384 ==> MaxCode(xmax) == xmax / 1024 + 40
    ensures 16384 <= xmax ==> MaxCode(xmax) == xmax / 2048 + 48
  {
    MaxCodeIs(xmax);
    var e := ExpLoop(xmax, 6).0;
    hide ExpLoop, MaxCode;
    OctaveEnds(e);
    hide Pow2;
  }

  lemma OctaveEnds(e: int)
    requires 0 <= e <= 6
    ensures Pow2(e + 5) == if e == 0 then 32 else if e == 1 then 64 else if e == 2 then 128 else if e == 3 then 256
                           else if e == 4 then 512 else if e == 5 then 1024 else 2048
    ensures Pow2(8 + e) == 8 * Pow2(e + 5) && Pow2(9 + e) == 16 * Pow2(e + 5)
  {
    Pow2Values();
  }

  /** The code: the quotient by the step of its octave, plus eight an octave. */
  lemma MaxCodeIs(xmax: Word)
    requires 0 <= xmax
    ensures var e := ExpLoop(xmax, 6).0;
            && 0 <= e <= 6 && xmax < Pow2(9 + e) && (e > 0 ==> Pow2(8 + e) <= xmax)
            && MaxCode(xmax) == xmax / Pow2(e + 5) + 8 * e
  {
    ExpLoopIsBitLength(xmax);
    var e := ExpLoop(xmax, 6).0;
    hide ExpLoop;
    Pow2Add(4, 5 + e);
    Pow2Values();
    hide Pow2;
    QuotientBetween(xmax, Pow2(e + 5), 0, 16);
  }

  /** The code of a block maximum is the bracket it lies in: `xmaxc` is in 0..63 and
      Ceiling(xmaxc - 1) <= xmax < Ceiling(xmaxc). */
  lemma MaxCodeBrackets(xmax: Word)
    requires 0 <= xmax
    ensures var c := MaxCode(xmax);
            && 0 <= c <= 63
            && xmax < Ceiling(c)
            && (c > 0 ==> Ceiling(c - 1) <= xmax)
  {
    MaxCodeTable(xmax);
    hide MaxCode;
    hide Ceiling;
    var c := MaxCode(xmax);
    CeilingTable(c);
    if c > 0 { CeilingTable(c - 1); }
  }

  /** Brackets do not overlap, so the code is the only one that fits. */
  lemma CeilingIncreases(c: Word)
    requires 1 <= c <= 63
    ensures Ceiling(c - 1) < Ceiling(c)
  {
    CeilingTable(c - 1);
    CeilingTable(c);
    hide Ceiling;
  }

  /** `xM[i] << temp1`. */
  function Normal(x: int, exp: int): int
    requires -4 <= exp <= 6
  {
    x * Pow2(6 - exp)
  }

  /** One RPE sample: normalised by the exponent, multiplied by the inverse mantissa, cut to 3 bits. */
  function PulseCode(x: Word, exp: int, mant: int): Word
    requires -4 <= exp <= 6 && 0 <= mant <= 7
  {
    var temp := ToWord(Normal(x, exp));
    var temp2 := ToWord(Mult(temp, NRFAC[mant]));
    ToWord(temp2 / 4096 + 4)
  }

  /** APCM_inverse_quantization on one code. */
  function PulseValue(c: Word, exp: int, mant: int): Word
    requires 0 <= c <= 7 && -4 <= exp <= 6 && 0 <= mant <= 7
  {
    var temp2 := 6 - exp;
    var temp3 := if temp2 == 0 then 0 else ToWord(Pow2(temp2 - 1));
    var temp := GsmMultR(FAC[mant], ToWord((c * 2 - 7) * 4096));
    ToWord(Sasr(GsmAdd(temp, temp3), temp2))
  }

  /** A normalised sample within the range of its mantissa. */
  predicate InRow(t: int, mant: int) {
    0 <= mant <= 7 && -((9 + mant) * 2048) <= t < (9 + mant) * 2048 && (t == -((9 + mant) * 2048) ==> mant == 7)
  }

  function RowCode(t: int, nrfac: int): int {
    t * nrfac / 0x8000 / 4096 + 4
  }

  function RowValue(c: int, fac: int): int {
    (fac * ((c * 2 - 7) * 4096) + 16384) / 0x8000
  }

  /** A decoded row value brought back to the scale of the sample, rounding halves up. */
  function Rounded(v: int, exp: int): int
    requires -4 <= exp <= 6
  {
    (v + Pow2(6 - exp) / 2) / Pow2(6 - exp)
  }

  /** The two tables fit together: the 3-bit code is in range, and its decoded value is within an
      eighth of the row (plus one) of the normalised sample. */
  lemma RowsFit(t: int, mant: int)
    requires InRow(t, mant)
    ensures var c := RowCode(t, NRFAC[mant]);
            && 0 <= c <= 7
            && -(9 + mant) * 256 - 1 <= RowValue(c, FAC[mant]) - t <= (9 + mant) * 256 + 1
  {
    if mant < 4 {
      LowRowsFit(t, mant);
    } else {
      HighRowsFit(t, mant);
    }
  }

  lemma LowRowsFit(t: int, mant: int)
    requires InRow(t, mant) && mant < 4
    ensures var c := RowCode(t, NRFAC[mant]);
            && 0 <= c <= 7
            && -(9 + mant) * 256 - 1 <= RowValue(c, FAC[mant]) - t <= (9 + mant) * 256 + 1
  {
    if mant == 0 {
      assert 0 <= RowCode(t, 29128) <= 7;
    } else if mant == 1 {
      assert 0 <= RowCode(t, 26215) <= 7;
    } else if mant == 2 {
      assert 0 <= RowCode(t, 23832) <= 7;
    } else {
      assert 0 <= RowCode(t, 21846) <= 7;
    }
  }

  lemma HighRowsFit(t: int, mant: int)
    requires InRow(t, mant) && mant >= 4
    ensures var c := RowCode(t, NRFAC[mant]);
            && 0 <= c <= 7
            && -(9 + mant) * 256 - 1 <= RowValue(c, FAC[mant]) - t <= (9 + mant) * 256 + 1
  {
    if mant == 4 {
      assert 0 <= RowCode(t, 20165) <= 7;
    } else if mant == 5 {
      assert 0 <= RowCode(t, 18725) <= 7;
    } else if mant == 6 {
      assert 0 <= RowCode(t, 17476) <= 7;
    } else {
      assert 0 <= RowCode(t, 16384) <= 7;
    }
  }

  /** Normalising by the exponent of its own block never pushes a sample out of 16 bits. */
  lemma NormalisedSampleInRow(x: Word, xmax: Word)
    requires GsmAbs(x) <= xmax
    ensures 0 <= MaxCode(xmax) <= 63
    ensures var (exp, mant) := ExpMant(MaxCode(xmax)); InRow(Normal(x, exp), mant)
  {
    MaxCodeBrackets(xmax);
    var c := MaxCode(xmax);
    var (exp, mant) := ExpMant(c);
    if x == MIN_WORD {
      LargestMaximum(xmax);
    } else {
      hide MaxCode;
      hide ExpMant;
      BelowSpanInRow(x, exp, mant);
    }
  }

  /** A full-scale negative sample only occurs with the largest exponent and mantissa. */
  lemma LargestMaximum(xmax: Word)
    requires xmax == MAX_WORD
    ensures MaxCode(xmax) == 63 && ExpMant(63) == (6, 7) && Pow2(0) == 1
  {
    MaxCodeTable(xmax);
    CeilingValues(63);
    hide MaxCode;
  }

  lemma BelowSpanInRow(x: int, exp: int, mant: int)
    requires -4 <= exp <= 6 && 0 <= mant <= 7 && 0 - Span(exp, mant) < x < Span(exp, mant)
    ensures InRow(Normal(x, exp), mant)
  {
    Pow2Add(exp + 5, 6 - exp);
    Pow2Values();
    hide Pow2;
    ScaleIntoRow(x, mant, Pow2(exp + 5), Pow2(6 - exp));
  }

  lemma ScaleIntoRow(x: int, mant: int, d: int, s: int)
    requires 0 <= mant <= 7 && s > 0 && d * s == 2048
    requires -((9 + mant) * d) < x < (9 + mant) * d
    ensures -((9 + mant) * 2048) < x * s < (9 + mant) * 2048
  {
    MulMono(x + 1, (9 + mant) * d, s);
    MulMono(-((9 + mant) * d) + 1, x, s);
    assert (9 + mant) * d * s == (9 + mant) * (d * s);
    assert (-((9 + mant) * d) + 1) * s == -((9 + mant) * d * s) + s;
  }

  /** No truncation happens on the way to the code. */
  lemma CodeIsRow(x: Word, exp: int, mant: int)
    requires -4 <= exp <= 6 && 0 <= mant <= 7 && InRow(Normal(x, exp), mant)
    ensures PulseCode(x, exp, mant) == RowCode(Normal(x, exp), NRFAC[mant])
    ensures 0 <= PulseCode(x, exp, mant) <= 7
  {
    var t := Normal(x, exp);
    RowsFit(t, mant);
    hide Normal, Pow2;
    RowCodeFits(t, NRFAC[mant]);
    hide RowCode, Mult, ToWord;
  }

  lemma RowCodeFits(t: Word, nrfac: Word)
    requires 0 <= RowCode(t, nrfac) <= 7
    ensures ToWord(ToWord(Mult(t, nrfac)) / 4096 + 4) == RowCode(t, nrfac)
  {
  }

  /** No truncation and no saturation happens on the way back. */
  lemma ValueIsRow(c: Word, exp: int, mant: int)
    requires 0 <= c <= 7 && -4 <= exp <= 6 && 0 <= mant <= 7
    ensures PulseValue(c, exp, mant) == Rounded(RowValue(c, FAC[mant]), exp)
  {
    RowValueFits(c, mant);
    HalfStepFits(exp);
    var s := Pow2(6 - exp);
    RoundedFits(RowValue(c, FAC[mant]), s / 2, s);
    hide RowValue, GsmMultR, GsmAdd, ToWord, Pow2;
  }

  /** The rounding constant of 4.2.16 is half a step, or nothing where a step is one. */
  lemma HalfStepFits(exp: int)
    requires -4 <= exp <= 6
    ensures (if 6 - exp == 0 then 0 else ToWord(Pow2(6 - exp - 1))) == Pow2(6 - exp) / 2
    ensures 0 <= Pow2(6 - exp) / 2 <= 512
  {
    Pow2Values();
    Pow2Monotonic(6 - exp, 10);
    if exp < 6 {
      var h := Pow2(5 - exp);
      assert Pow2(6 - exp) == 2 * h;
      hide Pow2;
      assert 2 * h / 2 == h <= 512;
    }
  }

  lemma RoundedFits(v: Word, h: int, s: int)
    requires -28672 <= v <= 28672 && 0 <= h <= 512 && s > 0
    ensures GsmAdd(v, h) == v + h
    ensures ToWord((v + h) / s) == (v + h) / s
  {
    hide GsmAdd, ToWord;
    MulMono(1, s, 28672);
    MulMono(1, s, 29185);
    QuotientBetween(v + h, s, -28672, 29185);
  }

  lemma RowValueFits(c: Word, mant: int)
    requires 0 <= c <= 7 && 0 <= mant <= 7
    ensures GsmMultR(FAC[mant], ToWord((c * 2 - 7) * 4096)) == RowValue(c, FAC[mant])
    ensures -28672 <= RowValue(c, FAC[mant]) <= 28672
  {
    var fac: Word, d: Word := FAC[mant], (c * 2 - 7) * 4096;
    ProductBound(fac, d, 0x7FFF, 28672);
    hide FAC;
    RoundedProductFits(fac, d);
    hide RowValue, GsmMultR;
  }

  lemma RoundedProductFits(fac: Word, d: Word)
    requires -28672 * 0x7FFF <= fac * d <= 28672 * 0x7FFF
    ensures ToWord(d) == d && GsmMultR(fac, d) == (fac * d + 16384) / 0x8000
    ensures -28672 <= (fac * d + 16384) / 0x8000 <= 28672
  {
  }

  lemma RoundBack(x: int, s: int, t: int, v: int, d: int, h: int)
    requires s > 0 && (s == 1 || s == 2 * (s / 2))
    requires t == x * s && d * s == 8 * h && -(h + 1) <= v - t <= h + 1
    ensures -(d + 8) <= 8 * ((v + s / 2) / s - x) <= d + 8
  {
    var half := s / 2;
    var r := (v + half) / s;
    QuotientBrackets(v + half, s);
    Distribute(r, 1, s);
    Distribute(r, x, s);
    Distribute(r - x, 0, s);
    Distribute(d, 9, s);
    Distribute(d + 9, 0, s);
    Cancel(8 * (r - x), d + 9, s);
    Cancel(-(d + 9), 8 * (r - x), s);
  }

  /** Quantising a sample against the maximum of its block and decoding it again moves it by at most
      an eighth of the decoded maximum, plus one; the three-bit code is always in range. */
  lemma PulseRoundTrip(x: Word, xmax: Word)
    requires GsmAbs(x) <= xmax
    ensures 0 <= MaxCode(xmax) <= 63
    ensures var (exp, mant) := ExpMant(MaxCode(xmax));
            var c := PulseCode(x, exp, mant);
            && 0 <= c <= 7
            && -(Ceiling(MaxCode(xmax)) + 8) <= 8 * (PulseValue(c, exp, mant) - x) <= Ceiling(MaxCode(xmax)) + 8
  {
    NormalisedSampleInRow(x, xmax);
    var (exp, mant) := ExpMant(MaxCode(xmax));
    hide MaxCode;
    hide ExpMant;
    CodedPulseError(x, exp, mant);
  }

  lemma CodedPulseError(x: Word, exp: int, mant: int)
    requires -4 <= exp <= 6 && 0 <= mant <= 7 && InRow(Normal(x, exp), mant)
    ensures var c := PulseCode(x, exp, mant);
            0 <= c <= 7 && 0 - Span(exp, mant) - 8 <= 8 * (PulseValue(c, exp, mant) - x) <= Span(exp, mant) + 8
  {
    CodeIsRow(x, exp, mant);
    hide PulseCode, PulseValue;
    ValueIsRow(PulseCode(x, exp, mant), exp, mant);
    RowsFit(Normal(x, exp), mant);
    hide Normal, Pow2, InRow, RowCode, RowValue, Span, Rounded;
    RoundingError(x, exp, mant, RowValue(PulseCode(x, exp, mant), FAC[mant]));
  }

  lemma RoundingError(x: int, exp: int, mant: int, v: int)
    requires -4 <= exp <= 6 && 0 <= mant <= 7
    requires -(9 + mant) * 256 - 1 <= v - Normal(x, exp) <= (9 + mant) * 256 + 1
    ensures 0 - Span(exp, mant) - 8 <= 8 * (Rounded(v, exp) - x) <= Span(exp, mant) + 8
  {
    ScaledSpan(x, exp, mant);
    hide Pow2;
    hide Span;
    hide Normal;
    RoundBack(x, Pow2(6 - exp), Normal(x, exp), v, Span(exp, mant), (9 + mant) * 256);
  }

  /** The span of a row, and a sample, in normalised units. */
  lemma ScaledSpan(x: int, exp: int, mant: int)
    requires -4 <= exp <= 6 && 0 <= mant <= 7
    ensures Span(exp, mant) * Pow2(6 - exp) == 8 * ((9 + mant) * 256)
    ensures Normal(x, exp) == x * Pow2(6 - exp)
    ensures Pow2(6 - exp) == 1 || Pow2(6 - exp) == 2 * (Pow2(6 - exp) / 2)
  {
    Pow2Add(exp + 5, 6 - exp);
    Pow2Values();
    HalfOfPow2(6 - exp);
    hide Pow2;
    MulAssoc(9 + mant, Pow2(exp + 5), Pow2(6 - exp));
  }

  lemma HalfOfPow2(n: nat)
    ensures n > 0 ==> Pow2(n) == 2 * (Pow2(n) / 2)
    ensures Pow2(n) == 1 <==> n == 0
  {
    if n > 0 {
      var h := Pow2(n - 1);
      assert Pow2(n) == 2 * h;
      hide Pow2;
    }
  }

  /** Thirteen 3-bit codes. */
  type Codes = s: seq<Word> | |s| == 13 && forall i :: 0 <= i < 13 ==> 0 <= s[i] <= 7
    witness [0, 0, 0, 0, 0, 0, 0, 0, 0, 0, 0, 0, 0]

  /** The thirteen samples of a block against their maximum. */
  function PulseCodes(xM: Pulses): Codes
  {
    var xmax := MaxAbs(xM);
    MaxCodeBrackets(xmax);
    var (exp, mant) := ExpMant(MaxCode(xmax));
    forall i | 0 <= i < 13 ensures 0 <= PulseCode(xM[i], exp, mant) <= 7 {
      PulseRoundTrip(xM[i], xmax);
    }
    hide PulseCode;
    seq(13, i requires 0 <= i < 13 => PulseCode(xM[i], exp, mant))
  }

  /** APCM_quantization, with the codes written to xMc[at..at + 13].  `xmaxc` fits six bits, every code three, and no intermediate value wraps. */
  method ApcmQuantization(xM: array<Word>, xMc: array<Word>, at: nat) returns (mant: Word, exp: Word, xmaxc: Word)
    requires xM.Length == 13 && at + 13 <= xMc.Length && xM != xMc
    modifies xMc
    ensures xmaxc == MaxCode(MaxAbs(xM[..])) && 0 <= xmaxc <= 63
    ensures (exp, mant) == ExpMant(xmaxc)
    ensures xMc[..] == old(xMc[..at]) + PulseCodes(xM[..]) + old(xMc[at + 13..])
  {
    ghost var xMc0 := xMc[..];
    ghost var s: Pulses := xM[..];
    var xmax := 0;
    for i := 0 to 13
      invariant xmax == MaxAbs(s[..i])
    {
      assert s[..i + 1][..i] == s[..i];
      var temp := GsmAbs(xM[i]);
      if temp > xmax { xmax := temp; }
    }
    assert s[..13] == s;
    xmaxc := CodeMaximum(xmax);
    hide MaxCode;
    exp, mant := XmaxcToExpMant(xmaxc);
    hide ExpMant;
    var temp1 := 6 - exp;
    var temp2 := NRFAC[mant];
    for i := 0 to 13
      invariant forall j :: 0 <= j < i ==> xMc[at + j] == PulseCodes(s)[j]
      invariant xMc[..at] == xMc0[..at] && xMc[at + 13..] == xMc0[at + 13..]
    {
      xMc[at + i] := CodePulse(xM[i], temp1, temp2, xmax, exp, mant);
      assert xMc[at + i] == PulseCodes(s)[i];
    }
    assert xMc[at..at + 13] == PulseCodes(s);
    assert xMc[..] == xMc[..at] + xMc[at..at + 13] + xMc[at + 13..];
  }

  /** Quantising and coding of xmax. */
  method CodeMaximum(xmax: Word) returns (xmaxc: Word)
    requires 0 <= xmax
    ensures xmaxc == MaxCode(xmax) && 0 <= xmaxc <= 63
  {
    var exp: Word := 0;
    var temp: Word := xmax / 512;
    var itest := false;
    for i := 0 to 6
      invariant (exp, temp, itest) == ExpLoop(xmax, i)
    {
      itest := itest || temp <= 0;
      temp := temp / 2;
      if !itest { exp := exp + 1; }
    }
    MaxCodeBrackets(xmax);
    ExpLoopIsBitLength(xmax);
    QuotientBetween(xmax, Pow2(exp + 5), 0, 0x8000) by { MulMono(1, Pow2(exp + 5), 0x8000); }
    xmaxc := GsmAdd(Sasr(xmax, exp + 5), exp * 8);
  }

  /** The body of the quantising loop, with the value stored in `temp` proved to fit each time. */
  method CodePulse(x: Word, temp1: Word, temp2: Word, ghost xmax: Word, ghost exp: int, ghost mant: int) returns (c: Word)
    requires GsmAbs(x) <= xmax && 0 <= MaxCode(xmax) <= 63 && (exp, mant) == ExpMant(MaxCode(xmax))
    requires temp1 == 6 - exp && temp2 == NRFAC[mant]
    ensures c == PulseCode(x, exp, mant)
  {
    NormalisedSampleInRow(x, xmax);
    hide MaxCode;
    hide ExpMant;
    RowsFit(Normal(x, exp), mant);
    CodeIsRow(x, exp, mant);
    var temp: Word := x * Pow2(temp1);
    temp := Mult(temp, temp2);
    temp := temp / 4096;
    c := temp + 4;
  }

  // ----- 4.2.16 inverse quantization

  function PulseValues(c: Codes, xmaxc: Word): Pulses
    requires 0 <= xmaxc <= 63
  {
    var (exp, mant) := ExpMant(xmaxc);
    seq(13, i requires 0 <= i < 13 => PulseValue(c[i], exp, mant))
  }

  /** gsm_asl and gsm_asr for the shift counts that occur here. */
  function GsmAsl(a: Word, n: int): Word
    requires -1 <= n <= 15
  {
    if n < 0 then ToWord(Sasr(a, -n)) else ToWord(a * Pow2(n))
  }

  /** The three numbers the decoding loop works with fit the block. */
  predicate Decoding(temp1: Word, temp2: Word, temp3: Word, exp: int, mant: int)
    requires -4 <= exp <= 6 && 0 <= mant <= 7
  {
    temp1 == FAC[mant] && temp2 == 6 - exp && temp3 == if temp2 == 0 then 0 else ToWord(Pow2(temp2 - 1))
  }

  /** `gsm_asl(1, gsm_sub(temp2, 1))` shifts right when there is nothing to shift. */
  lemma StepsFrom(exp: Word, mant: Word)
    requires -4 <= exp <= 6 && 0 <= mant <= 7
    ensures GsmSub(6, exp) == 6 - exp
    ensures Decoding(FAC[mant], GsmSub(6, exp), GsmAsl(1, GsmSub(GsmSub(6, exp), 1)), exp, mant)
  {
    assert Pow2(1) == 2;
  }

  /** APCM_inverse_quantization of the codes in xMc[at..at + 13]. */
  method ApcmInverseQuantization(xMc: array<Word>, at: nat, mant: Word, exp: Word, xMp: array<Word>, ghost xmaxc: Word)
    requires at + 13 <= xMc.Length && xMp.Length == 13 && xMc != xMp
    requires 0 <= xmaxc <= 63 && (exp as int, mant as int) == ExpMant(xmaxc)
    requires forall i :: at <= i < at + 13 ==> 0 <= xMc[i] <= 7
    modifies xMp
    ensures xMp[..] == PulseValues(xMc[at..at + 13], xmaxc)
  {
    hide ExpMant;
    var temp1 := FAC[mant];
    var temp2 := GsmSub(6, exp);
    var temp3 := GsmAsl(1, GsmSub(temp2, 1));
    StepsFrom(exp, mant);
    hide GsmAsl, GsmSub, Decoding, FAC;
    DecodePulses(xMc, at, temp1, temp2, temp3, xMp, exp, mant);
    hide PulseValue;
    assert xMp[..] == PulseValues(xMc[at..at + 13], xmaxc);
  }

  /** The decoding loop. */
  method DecodePulses(xMc: array<Word>, at: nat, temp1: Word, temp2: Word, temp3: Word, xMp: array<Word>,
                      ghost exp: int, ghost mant: int)
    requires at + 13 <= xMc.Length && xMp.Length == 13 && xMc != xMp
    requires forall i :: at <= i < at + 13 ==> 0 <= xMc[i] <= 7
    requires -4 <= exp <= 6 && 0 <= mant <= 7 && Decoding(temp1, temp2, temp3, exp, mant)
    modifies xMp
    ensures forall j :: 0 <= j < 13 ==> xMp[j] == PulseValue(xMc[at + j], exp, mant)
  {
    hide PulseValue, Decoding;
    for i := 0 to 13
      invariant forall j :: 0 <= j < i ==> xMp[j] == PulseValue(xMc[at + j], exp, mant)
    {
      xMp[i] := DecodePulse(xMc[at + i], temp1, temp2, temp3, exp, mant);
    }
  }

  /** The body of the decoding loop. */
  method DecodePulse(c: Word, temp1: Word, temp2: Word, temp3: Word, ghost exp: int, ghost mant: int) returns (x: Word)
    requires 0 <= c <= 7 && -4 <= exp <= 6 && 0 <= mant <= 7 && Decoding(temp1, temp2, temp3, exp, mant)
    ensures x == PulseValue(c, exp, mant)
  {
    hide FAC, GsmMultR, GsmAdd, Sasr, Pow2;
    var temp: Word := c * 2 - 7;
    temp := temp * 4096;
    temp := GsmMultR(temp1, temp);
    temp := GsmAdd(temp, temp3);
    x := ToWord(Sasr(temp, temp2));
  }

  // ----- 4.2.17 grid positioning

  /** The loop kept in a comment: zero everything, then place the first `n` pulses. */
  function CommentedPositioning(mc: Word, xMp: Pulses, n: nat): Block
    requires 0 <= mc <= 3 && n <= 13
  {
    if n == 0 then seq(40, _ => 0)
    else CommentedPositioning(mc, xMp, n - 1)[mc + 3 * (n - 1) := xMp[n - 1]]
  }

  /** Where the pulses end up. */
  lemma {:induction false} PositionedAt(mc: Word, xMp: Pulses, n: nat, k: nat)
    requires 0 <= mc <= 3 && n <= 13 && k < 40
    ensures (k < mc || k >= mc + 3 * n || (k - mc) % 3 != 0) ==> CommentedPositioning(mc, xMp, n)[k] == 0
    ensures mc <= k < mc + 3 * n && (k - mc) % 3 == 0 ==> CommentedPositioning(mc, xMp, n)[k] == xMp[(k - mc) / 3]
  {
    if n > 0 {
      PositionedAt(mc, xMp, n - 1, k);
    }
  }

  /** The words `c` are in place from `start` up to `p`, and nothing outside the 40 words changed. */
  ghost predicate Written(ep: array<Word>, ep0: seq<Word>, c: Block, start: nat, p: nat)
    reads ep
  {
    && ep.Length == |ep0| && start <= p <= start + 40 <= ep.Length
    && (forall k :: start <= k < p ==> ep[k] == c[k - start])
    && (forall k :: 0 <= k < start || start + 40 <= k < ep.Length ==> ep[k] == ep0[k])
  }

  /** RPE_grid_positioning.  The switch jumps into the middle of a do-while loop; the first, partial
      round is written out here.  Exactly 40 words are written, and they are those of the commented loop. */
  method RpeGridPositioning(mc: Word, xMp: array<Word>, ep: array<Word>, start: nat)
    requires 0 <= mc <= 3 && xMp.Length == 13 && start + 40 <= ep.Length && xMp != ep
    modifies ep
    ensures ep[..] == old(ep[..start]) + CommentedPositioning(mc, xMp[..], 13) + old(ep[start + 40..])
  {
    ghost var c := CommentedPositioning(mc, xMp[..], 13);
    ghost var s: Pulses := xMp[..];
    ghost var ep0 := ep[..];
    var p := FirstRound(mc, xMp, ep, start);
    hide CommentedPositioning;
    p := FullRounds(mc, xMp, ep, start, p, s, ep0);
    p := LastRound(mc, ep, start, p, s, ep0);
    WrittenWhole(ep, ep0, c, start);
  }

  /** The do-while loop: two zeros and a pulse a round. */
  method FullRounds(mc: Word, xMp: array<Word>, ep: array<Word>, start: nat, first: nat, ghost s: Pulses, ghost ep0: seq<Word>)
    returns (p: nat)
    requires 0 <= mc <= 3 && xMp.Length == 13 && xMp != ep && s == xMp[..] && first == start + mc + 1
    requires Written(ep, ep0, CommentedPositioning(mc, s, 13), start, first)
    modifies ep
    ensures p == start + mc + 37 && Written(ep, ep0, CommentedPositioning(mc, s, 13), start, p)
  {
    hide CommentedPositioning;
    ghost var c := CommentedPositioning(mc, s, 13);
    p := first;
    var i := 12;
    while i > 0
      invariant 0 <= i <= 12 && p == start + mc + 1 + 3 * (12 - i)
      invariant Written(ep, ep0, c, start, p) && s == xMp[..]
    {
      RoundAt(mc, s, p - start, 13 - i);
      ep[p] := 0;
      ep[p + 1] := 0;
      ep[p + 2] := xMp[13 - i];
      p := p + 3;
      i := i - 1;
    }
  }

  lemma RoundAt(mc: Word, s: Pulses, k: nat, i: nat)
    requires 0 <= mc <= 3 && 1 <= i <= 12 && k == mc + 1 + 3 * (i - 1)
    ensures var c := CommentedPositioning(mc, s, 13); c[k] == 0 && c[k + 1] == 0 && c[k + 2] == s[i]
  {
    PositionedAt(mc, s, 13, k);
    PositionedAt(mc, s, 13, k + 1);
    PositionedAt(mc, s, 13, k + 2);
    hide CommentedPositioning;
  }

  /** The zeros behind the last pulse. */
  method LastRound(mc: Word, ep: array<Word>, start: nat, first: nat, ghost s: Pulses, ghost ep0: seq<Word>) returns (p: nat)
    requires 0 <= mc <= 3 && first == start + mc + 37
    requires Written(ep, ep0, CommentedPositioning(mc, s, 13), start, first)
    modifies ep
    ensures p == start + 40 && Written(ep, ep0, CommentedPositioning(mc, s, 13), start, p)
  {
    hide CommentedPositioning;
    ghost var c := CommentedPositioning(mc, s, 13);
    p := first;
    var m := mc + 1;
    while m < 4
      invariant mc + 1 <= m <= 4 && p == start + 36 + m
      invariant Written(ep, ep0, c, start, p)
    {
      PositionedAt(mc, s, 13, p - start);
      ep[p] := 0;
      p := p + 1;
      m := m + 1;
    }
  }

  lemma WrittenWhole(ep: array<Word>, ep0: seq<Word>, c: Block, start: nat)
    requires Written(ep, ep0, c, start, start + 40)
    ensures ep[..] == ep0[..start] + c + ep0[start + 40..]
  {
  }

  /** The switch and what is left of the first round after the jump. */
  method FirstRound(mc: Word, xMp: array<Word>, ep: array<Word>, start: nat) returns (p: nat)
    requires 0 <= mc <= 3 && xMp.Length == 13 && start + 40 <= ep.Length && xMp != ep
    modifies ep
    ensures p == start + mc + 1
    ensures Written(ep, old(ep[..]), CommentedPositioning(mc, xMp[..], 13), start, p)
  {
    forall k | 0 <= k <= mc
      ensures CommentedPositioning(mc, xMp[..], 13)[k] == if k == mc then xMp[0] else 0
    {
      PositionedAt(mc, xMp[..], 13, k);
    }
    hide CommentedPositioning;
    p := start;
    if mc == 3 {
      ep[p] := 0;
      p := p + 1;
    }
    if mc >= 2 {
      ep[p] := 0;
      p := p + 1;
    }
    if mc >= 1 {
      ep[p] := 0;
      p := p + 1;
    }
    ep[p] := xMp[0];
    p := p + 1;
  }

  // ----- the two drivers

  /** What is transmitted for one sub-segment. */
  datatype RpeParams = RpeParams(xmaxc: Word, mc: Word, xMc: Codes)

  predicate Transmittable(q: RpeParams) {
    0 <= q.xmaxc <= 63 && 0 <= q.mc <= 3
  }

  /** The samples of grid `mc`. */
  function Grid(x: Block, mc: nat): Pulses
    requires mc <= 3
  {
    seq(13, i requires 0 <= i < 13 => x[mc + 3 * i])
  }

  /** The parameters the encoder chooses for the residual in the 50-word work array `e`. */
  function RpeEncode(e: seq<Word>): (q: RpeParams)
    requires |e| == 50
    ensures Transmittable(q)
  {
    var x := WeightedBlock(e);
    var mc := CommentedSelection(x, 4).0;
    var xM := Grid(x, mc);
    MaxCodeBrackets(MaxAbs(xM));
    RpeParams(MaxCode(MaxAbs(xM)), mc, PulseCodes(xM))
  }

  /** The residual the parameters stand for. */
  function RpeDecode(q: RpeParams): Block
    requires Transmittable(q)
  {
    CommentedPositioning(q.mc, PulseValues(q.xMc, q.xmaxc), 13)
  }

  /** Gsm_RPE_Encoding.  The residual in e[5..45] is replaced by the one a decoder will reconstruct
      from the parameters; the codes go to xMc[at..at + 13]. */
  method GsmRpeEncoding(e: array<Word>, xMc: array<Word>, at: nat) returns (xmaxc: Word, mc: Word)
    requires e.Length == 50 && at + 13 <= xMc.Length && e != xMc
    modifies e, xMc
    ensures var q := RpeEncode(old(e[..]));
            && q.xmaxc == xmaxc && q.mc == mc
            && xMc[..] == old(xMc[..at]) + q.xMc + old(xMc[at + 13..])
            && e[..] == old(e[..5]) + RpeDecode(q) + old(e[45..])
  {
    hide PulseCodes;
    hide PulseValues;
    hide CommentedPositioning;
    hide WeightedBlock;
    hide CommentedSelection;
    var x := new Word[40];
    var xM := new Word[13];
    var xMp := new Word[13];
    ghost var e0 := e[..];
    WeightingFilter(e, x);
    mc := RpeGridSelection(x, xM);
    assert xM[..] == Grid(WeightedBlock(e0), mc);
    var mant, exp;
    mant, exp, xmaxc := ApcmQuantization(xM, xMc, at);
    assert xMc[at..at + 13] == PulseCodes(xM[..]);
    forall i | at <= i < at + 13 ensures 0 <= xMc[i] <= 7 {
      assert xMc[i] == xMc[at..at + 13][i - at];
    }
    ApcmInverseQuantization(xMc, at, mant, exp, xMp, xmaxc);
    RpeGridPositioning(mc, xMp, e, 5);
  }

  /** Gsm_RPE_Decoding of the codes in xMcr[at..at + 13]. */
  method GsmRpeDecoding(xmaxcr: Word, mcr: Word, xMcr: array<Word>, at: nat, erp: array<Word>)
    requires 0 <= xmaxcr <= 63 && 0 <= mcr <= 3 && at + 13 <= xMcr.Length && erp.Length == 40 && erp != xMcr
    requires forall i :: at <= i < at + 13 ==> 0 <= xMcr[i] <= 7
    modifies erp
    ensures erp[..] == RpeDecode(RpeParams(xmaxcr, mcr, xMcr[at..at + 13]))
  {
    hide PulseValues;
    hide CommentedPositioning;
    var xMp := new Word[13];
    var exp, mant := XmaxcToExpMant(xmaxcr);
    ApcmInverseQuantization(xMcr, at, mant, exp, xMp, xmaxcr);
    RpeGridPositioning(mcr, xMp, erp, 0);
    assert erp[..] == CommentedPositioning(mcr, xMp[..], 13);
  }
}
