/** The saturating 16/32-bit arithmetic of the GSM 06.10 codec (gsm/private.h, gsm/add.c).

  C values are modelled by mathematical integers.  A `Word` is what fits the 16-bit `word`, a
  `LongWord` what fits the 32-bit `longword`; because these are subset types, every place where a
  result is stored in one of them carries a proof that the value fits.  Where the source relies on
  wrap-around, the wrap is written out with `ToWord` or `ToULong`.
 */
module FixedPoint {

  const MIN_WORD := -0x8000
  const MAX_WORD := 0x7FFF
  const MIN_LONGWORD := -0x8000_0000
  const MAX_LONGWORD := 0x7FFF_FFFF

  type Word = x: int | -0x8000 <= x <= 0x7FFF
  type LongWord = x: int | -0x8000_0000 <= x <= 0x7FFF_FFFF

  /** Conversion of an integer to the 16-bit `word` type: two's complement wrap-around. */
  function ToWord(x: int): (w: Word)
    ensures -0x8000 <= x <= 0x7FFF ==> w == x
    ensures (x - w) % 0x1_0000 == 0
  {
    (x + 0x8000) % 0x1_0000 - 0x8000
  }

  /** Conversion of an integer to the 32-bit `ulongword` type. */
  function ToULong(x: int): (u: int)
    ensures 0 <= u < 0x1_0000_0000
  {
    x % 0x1_0000_0000
  }

  function Pow2(n: nat): (p: nat)
    ensures p > 0
  {
    if n == 0 then 1 else 2 * Pow2(n - 1)
  }

  /** Arithmetic shift right: division rounding towards minus infinity. */
  function Sasr(x: int, n: nat): int
  {
    x / Pow2(n)
  }

  /** The nearest 16-bit value: what GSM 06.10 means by saturation. */
  function Saturate(x: int): Word
  {
    if x < MIN_WORD then MIN_WORD else if x > MAX_WORD then MAX_WORD else x
  }

  function SaturateLong(x: int): LongWord
  {
    if x < MIN_LONGWORD then MIN_LONGWORD else if x > MAX_LONGWORD then MAX_LONGWORD else x
  }

  /** GSM_ADD, the "nonportable, but faster" macro: one unsigned comparison decides overflow. */
  function GsmAdd(a: Word, b: Word): (r: Word)
    ensures r == Saturate(a + b)
  {
    var ltmp := a + b;
    if ToULong(ltmp - MIN_WORD) > MAX_WORD - MIN_WORD then
      if ltmp > 0 then MAX_WORD else MIN_WORD
    else
      ltmp
  }

  /** GSM_SUB. */
  function GsmSub(a: Word, b: Word): (r: Word)
    ensures r == Saturate(a - b)
  {
    var ltmp := a - b;
    if ltmp >= MAX_WORD then MAX_WORD else if ltmp <= MIN_WORD then MIN_WORD else ltmp
  }

  /** GSM_ABS. */
  function GsmAbs(a: Word): (r: Word)
    ensures r == Saturate(if a < 0 then 0 - a else a)
    ensures 0 <= r
  {
    if a < 0 then (if a == MIN_WORD then MAX_WORD else -a) else a
  }

  /** The maximum magnitude of a signal, by GSM_ABS. */
  function MaxAbs(s: seq<Word>): (m: Word)
    ensures 0 <= m
    ensures forall i :: 0 <= i < |s| ==> GsmAbs(s[i]) <= m
  {
    if s == [] then 0
    else
      var m := MaxAbs(s[..|s| - 1]);
      var temp := GsmAbs(s[|s| - 1]);
      assert forall i :: 0 <= i < |s| - 1 ==> s[i] == s[..|s| - 1][i];
      if temp > m then temp else m
  }

  /** GSM_MULT_R before the result is stored in a word. */
  function MultR(a: Word, b: Word): int
  {
    (a * b + 16384) / 0x8000
  }

  /** GSM_MULT_R stored in a word. */
  function GsmMultR(a: Word, b: Word): Word
  {
    ToWord(MultR(a, b))
  }

  /** GSM_MULT before the result is stored in a word. */
  function Mult(a: Word, b: Word): int
  {
    (a * b) / 0x8000
  }

  /** gsm_mult, the function form that guards the one overflowing pair. */
  function GsmMult(a: Word, b: Word): (r: Word)
    ensures r == Saturate(Mult(a, b))
  {
    ProductBound(a, b, 0x8000, 0x8000);
    if a == MIN_WORD && b == MIN_WORD then MAX_WORD
    else
      MultFits(a, b);
      Mult(a, b)
  }

  /** GSM_L_ADD: overflow is detected on unsigned sums of the one's complements. */
  function GsmLAdd(a: LongWord, b: LongWord): (r: LongWord)
    ensures r == SaturateLong(a + b)
  {
    if a < 0 then
      if b >= 0 then a + b
      else
        var utmp := ToULong(-(a + 1) + -(b + 1));
        if utmp >= MAX_LONGWORD then MIN_LONGWORD else -utmp - 2
    else if b <= 0 then a + b
    else
      var utmp := ToULong(a + b);
      if utmp >= MAX_LONGWORD then MAX_LONGWORD else utmp
  }

  /** gsm_L_sub. */
  function GsmLSub(a: LongWord, b: LongWord): (r: LongWord)
    ensures r == SaturateLong(a - b)
  {
    if a >= 0 then
      if b >= 0 then a - b
      else
        var u := ToULong(a + -(b + 1));
        if u >= MAX_LONGWORD then MAX_LONGWORD else u + 1
    else if b <= 0 then a - b
    else
      var u := ToULong(-(a + 1) + b);
      if u >= MAX_LONGWORD then MIN_LONGWORD else -u - 1
  }

  lemma MulMono(a: int, b: int, c: int)
    requires a <= b && 0 <= c
    ensures a * c <= b * c
  {
    assert (b - a) * c >= 0;
  }

  lemma Cancel(a: int, b: int, c: int)
    requires c > 0 && a * c < b * c
    ensures a < b
  {
    if a >= b {
      MulMono(b, a, c);
    }
  }

  lemma Distribute(a: int, b: int, c: int)
    ensures (a + b) * c == a * c + b * c
    ensures (a - b) * c == a * c - b * c
    ensures (8 * a) * c == 8 * (a * c)
    ensures (-a) * c == -(a * c)
  {
  }

  lemma MulAssoc(a: int, b: int, c: int)
    ensures a * b * c == a * (b * c)
  {
  }

  lemma ProductBound(a: int, b: int, m: int, n: int)
    requires -m <= a <= m && -n <= b <= n
    ensures -(m * n) <= a * b <= m * n
  {
    var x, y := (if a < 0 then -a else a), (if b < 0 then -b else b);
    MulMono(x, m, y);
    MulMono(y, n, m);
    assert a * b == x * y || a * b == -(x * y);
  }

  lemma MultFits(a: Word, b: Word)
    requires a != MIN_WORD || b != MIN_WORD
    ensures MIN_WORD <= Mult(a, b) <= MAX_WORD
  {
    if a != MIN_WORD {
      ProductBound(a, b, 0x7FFF, 0x8000);
    } else {
      ProductBound(a, b, 0x8000, 0x7FFF);
    }
  }

  /** The rounded product fits a word exactly when it is not MIN_WORD * MIN_WORD: the side
      condition written beside GSM_MULT_R. */
  lemma MultRFits(a: Word, b: Word)
    ensures MIN_WORD <= MultR(a, b) <= MAX_WORD <==> !(a == MIN_WORD && b == MIN_WORD)
  {
    if a == MIN_WORD && b == MIN_WORD {
      assert MultR(a, b) == 0x8000;
    } else if a != MIN_WORD {
      ProductBound(a, b, 0x7FFF, 0x8000);
    } else {
      ProductBound(a, b, 0x8000, 0x7FFF);
    }
  }

  // ----- powers of two and shifts

  lemma {:induction false} Pow2Add(m: nat, n: nat)
    ensures Pow2(m + n) == Pow2(m) * Pow2(n)
  {
    if m > 0 {
      Pow2Add(m - 1, n);
      assert Pow2(m + n) == 2 * Pow2(m - 1 + n);
      DoubleProduct(Pow2(m - 1), Pow2(n));
    }
  }

  lemma DoubleProduct(a: int, b: int)
    ensures 2 * a * b == 2 * (a * b)
  {
  }

  lemma {:induction false} Pow2Monotonic(m: nat, n: nat)
    requires m <= n
    ensures Pow2(m) <= Pow2(n)
  {
    if m < n {
      Pow2Monotonic(m, n - 1);
    }
  }

  lemma Pow2Values()
    ensures Pow2(0) == 1 && Pow2(1) == 2 && Pow2(2) == 4 && Pow2(3) == 8 && Pow2(4) == 0x10
    ensures Pow2(5) == 0x20 && Pow2(6) == 0x40 && Pow2(7) == 0x80 && Pow2(8) == 0x100
    ensures Pow2(9) == 0x200 && Pow2(10) == 0x400 && Pow2(11) == 0x800 && Pow2(12) == 0x1000
    ensures Pow2(13) == 0x2000 && Pow2(14) == 0x4000 && Pow2(15) == 0x8000 && Pow2(16) == 0x1_0000
  {
  }

  lemma Pow2HighValues()
    ensures Pow2(17) == 0x2_0000 && Pow2(18) == 0x4_0000 && Pow2(19) == 0x8_0000
    ensures Pow2(20) == 0x10_0000 && Pow2(21) == 0x20_0000 && Pow2(22) == 0x40_0000
    ensures Pow2(23) == 0x80_0000 && Pow2(24) == 0x100_0000 && Pow2(25) == 0x200_0000
    ensures Pow2(26) == 0x400_0000 && Pow2(27) == 0x800_0000 && Pow2(28) == 0x1000_0000
    ensures Pow2(29) == 0x2000_0000 && Pow2(30) == 0x4000_0000 && Pow2(31) == 0x8000_0000
  {
    Pow2Values();
    assert Pow2(17) == 0x2_0000 && Pow2(18) == 0x4_0000 && Pow2(19) == 0x8_0000;
    assert Pow2(20) == 0x10_0000 && Pow2(21) == 0x20_0000 && Pow2(22) == 0x40_0000;
    assert Pow2(23) == 0x80_0000 && Pow2(24) == 0x100_0000 && Pow2(25) == 0x200_0000;
    assert Pow2(26) == 0x400_0000 && Pow2(27) == 0x800_0000 && Pow2(28) == 0x1000_0000;
  }

  lemma SmallRemainder(x: int, n: int)
    requires 0 <= x < n
    ensures x % n == x
  {
  }

  lemma QuotientBetween(x: int, p: int, a: int, b: int)
    requires p > 0 && a * p <= x < b * p
    ensures a <= x / p < b
  {
    var q := x / p;
    assert q * p <= x < q * p + p;
    if q < a {
      MulMono(q + 1, a, p);
    } else if q >= b {
      MulMono(b, q, p);
    }
  }

  lemma QuotientBrackets(x: int, p: int)
    requires p > 0
    ensures x / p * p <= x < (x / p + 1) * p
  {
  }

  /** The quotient is the only integer q with q*d <= n < (q+1)*d. */
  lemma DivUnique(n: int, d: int, q: int)
    requires d > 0 && q * d <= n < q * d + d
    ensures n / d == q
  {
    var t := n / d;
    assert t * d <= n < t * d + d;
    if t < q {
      MulMono(t + 1, q, d);
    } else if t > q {
      MulMono(q + 1, t, d);
    }
  }

  // ----- gsm_norm

  /** The table `bitoff[256]`: 8 minus the bit length of its index. */
  function Bitoff(b: int): Word
    requires 0 <= b < 256
  {
    if b == 0 then 8 else if b < 2 then 7 else if b < 4 then 6 else if b < 8 then 5
    else if b < 16 then 4 else if b < 32 then 3 else if b < 64 then 2 else if b < 128 then 1 else 0
  }

  /** gsm_norm: the left shift that normalises a non-zero 32-bit value. */
  function GsmNorm(a: LongWord): Word
    requires a != 0
  {
    if a < 0 && a <= -0x4000_0000 then 0
    else
      var a := if a < 0 then -a - 1 else a;
      if a / 0x1_0000 % 0x1_0000 != 0 then
        if a / 0x100_0000 % 0x100 != 0 then -1 + Bitoff(a / 0x100_0000 % 0x100)
        else 7 + Bitoff(a / 0x1_0000 % 0x100)
      else if a / 0x100 % 0x100 != 0 then 15 + Bitoff(a / 0x100 % 0x100)
      else 23 + Bitoff(a % 0x100)
  }

  lemma NormOfPositive(a: LongWord)
    requires a > 0
    ensures 0 <= GsmNorm(a) <= 30
    ensures 0x4000_0000 <= a * Pow2(GsmNorm(a)) <= MAX_LONGWORD
  {
    NormReadsLeadingByte(a);
    hide Pow2, Bitoff, GsmNorm;
    if a >= 0x100_0000 {
      assert Pow2(24) == 0x100_0000 by { Pow2HighValues(); }
      NormOfByte(a, 24, a / 0x100_0000);
    } else if a >= 0x1_0000 {
      assert Pow2(16) == 0x1_0000 by { Pow2Values(); }
      NormOfByte(a, 16, a / 0x1_0000);
    } else if a >= 0x100 {
      assert Pow2(8) == 0x100 by { Pow2Values(); }
      NormOfByte(a, 8, a / 0x100);
    } else {
      assert Pow2(0) == 1 by { Pow2Values(); }
      NormOfByte(a, 0, a);
    }
  }

  lemma NormReadsLeadingByte(a: LongWord)
    requires a > 0
    ensures a >= 0x100_0000 ==> GsmNorm(a) == -1 + Bitoff(a / 0x100_0000)
    ensures 0x1_0000 <= a < 0x100_0000 ==> GsmNorm(a) == 7 + Bitoff(a / 0x1_0000)
    ensures 0x100 <= a < 0x1_0000 ==> GsmNorm(a) == 15 + Bitoff(a / 0x100)
    ensures a < 0x100 ==> GsmNorm(a) == 23 + Bitoff(a)
  {
    hide Bitoff;
  }

  /** One byte of the scan: the leading byte `b` of `a` sits `k` bits up. */
  lemma NormOfByte(a: LongWord, k: nat, b: int)
    requires k <= 24 && 0 < b < 256 && (k == 24 ==> b < 128)
    requires b * Pow2(k) <= a < (b + 1) * Pow2(k)
    ensures var n := 23 - k + Bitoff(b);
            0 <= n <= 30 && 0x4000_0000 <= a * Pow2(n) <= MAX_LONGWORD
  {
    var m := Bitoff(b);
    var n := 23 - k + m;
    assert k + n == 23 + m;
    Pow2Add(k, n);
    Pow2Add(23, m);
    Pow2HighValues();
    assert 0 <= m <= 7;
    BitoffNormalises(b);
    ScaleBounds(a, b, Pow2(k), Pow2(n), Pow2(m));
  }

  lemma BitoffNormalises(b: int)
    requires 0 < b < 256
    ensures Bitoff(b) >= 0
    ensures 128 <= b * Pow2(Bitoff(b)) && (b + 1) * Pow2(Bitoff(b)) <= 256
  {
    Pow2Values();
  }

  lemma ScaleBounds(a: int, b: int, k: int, p: int, m: int)
    requires p > 0 && b * k <= a < (b + 1) * k && k * p == 0x80_0000 * m
    requires 128 <= b * m && (b + 1) * m <= 256
    ensures 0x4000_0000 <= a * p <= MAX_LONGWORD
  {
    MulMono(b * k, a, p);
    MulMono(a + 1, (b + 1) * k, p);
    assert b * k * p == b * (k * p) == 0x80_0000 * (b * m);
    assert (b + 1) * k * p == (b + 1) * (k * p) == 0x80_0000 * ((b + 1) * m);
  }

  /** The documented meaning of gsm_norm: it is the one shift count that brings a positive value
      into [2^30, 2^31) and a negative one into [-2^31, -2^30]. */
  lemma NormNormalises(a: LongWord)
    requires a != 0
    ensures 0 <= GsmNorm(a) <= 31
    ensures a > 0 ==> 0x4000_0000 <= a * Pow2(GsmNorm(a)) <= MAX_LONGWORD
    ensures a < 0 ==> MIN_LONGWORD <= a * Pow2(GsmNorm(a)) <= -0x4000_0000
  {
    Pow2Values();
    Pow2HighValues();
    if a > 0 {
      NormOfPositive(a);
    } else if a == -1 {
      assert GsmNorm(a) == 31;
    } else if a > -0x4000_0000 {
      var c := -a - 1;
      assert GsmNorm(a) == GsmNorm(c);
      NormOfPositive(c);
      NormOfComplement(c, GsmNorm(c));
    }
  }

  lemma NormOfComplement(c: int, n: nat)
    requires c > 0 && n <= 30 && 0x4000_0000 <= c * Pow2(n) <= MAX_LONGWORD
    ensures MIN_LONGWORD <= (-c - 1) * Pow2(n) <= -0x4000_0000
  {
    Pow2Add(n, 31 - n);
    Pow2HighValues();
    ComplementBounds(c, Pow2(n), Pow2(31 - n));
  }

  lemma ComplementBounds(c: int, p: int, q: int)
    requires p > 0 && p * q == 0x8000_0000 && 0x4000_0000 <= c * p <= MAX_LONGWORD
    ensures MIN_LONGWORD <= (-c - 1) * p <= -0x4000_0000
  {
    if c >= q {
      MulMono(q, c, p);
    } else {
      MulMono(c + 1, q, p);
      assert (-c - 1) * p == -(c * p) - p;
    }
  }

  // ----- gsm_div

  /** What the 15-step long division computes: the quotient in Q15, capped at MAX_WORD. */
  function Div(num: Word, denum: Word): (r: Word)
    requires 0 <= num <= denum
    ensures 0 <= r
  {
    if num == 0 then 0
    else if num == denum then MAX_WORD
    else
      DivFits(num, denum);
      num * 0x8000 / denum
  }

  lemma DivFits(num: int, denum: int)
    requires 0 <= num < denum
    ensures 0 <= num * 0x8000 / denum <= MAX_WORD
  {
    var q := num * 0x8000 / denum;
    assert q * denum <= num * 0x8000 < q * denum + denum;
    if q >= 0x8000 {
      MulMono(0x8000, q, denum);
    } else if q < 0 {
      MulMono(q + 1, 0, denum);
    }
  }

  /** The capped quotient is the minimum of 32767 and floor(num * 2^15 / denum). */
  lemma DivIsCappedQuotient(num: Word, denum: Word)
    requires 0 <= num <= denum && denum > 0
    ensures Div(num, denum) == Saturate(num * 0x8000 / denum)
  {
    if num == denum {
      DivUnique(num * 0x8000, denum, 0x8000);
    } else if num == 0 {
      DivUnique(0, denum, 0);
    }
  }

  /** gsm_div.  Each round doubles the remainder and subtracts the divisor when it fits. */
  method GsmDiv(num: Word, denum: Word) returns (div: Word)
    requires 0 <= num <= denum
    ensures div == Div(num, denum)
  {
    var lNum: LongWord := num;
    var lDenum: LongWord := denum;
    div := 0;
    var k := 15;
    if num == 0 {
      return 0;
    }
    while k > 0
      invariant 0 <= k <= 15
      invariant num * Pow2(15 - k) == div * denum + lNum
      invariant 0 <= lNum <= lDenum && 0 <= div < Pow2(15 - k)
      invariant num < denum ==> lNum < lDenum
      invariant num == denum ==> lNum == lDenum && div == Pow2(15 - k) - 1
    {
      Pow2Values();
      Pow2Monotonic(15 - k, 14);
      DoubleStep(num, denum, div, lNum, Pow2(15 - k));
      k := k - 1;
      div := div * 2;
      lNum := lNum * 2;
      if lNum >= lDenum {
        lNum := lNum - lDenum;
        div := div + 1;
      }
    }
    Pow2Values();
    if num < denum {
      DivUnique(num * 0x8000, denum, div);
    }
  }

  lemma DoubleStep(num: int, denum: int, div: int, rest: int, scale: int)
    requires num * scale == div * denum + rest
    ensures num * (2 * scale) == (2 * div) * denum + 2 * rest
    ensures num * (2 * scale) == (2 * div + 1) * denum + (2 * rest - denum)
  {
  }
}
