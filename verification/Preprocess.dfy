/** Downscaling, offset compensation and pre-emphasis (gsm/preprocess.c, sections 4.2.1 to 4.2.3
    of GSM 06.10). */
module Preprocess {
  import opened FixedPoint
  import opened GsmState
  import opened Runs

  /** The part of the codec state that Gsm_Preprocess carries from sample to sample. */
  datatype Memory = Memory(z1: Word, lz2: LongWord, mp: Word)

  ghost predicate Bounded(m: Memory) {
    OffsetBounded(m.z1, m.lz2)
  }

  /** Conversion to the 32-bit `longword`. */
  function ToLong(x: int): (l: LongWord)
    ensures -0x8000_0000 <= x <= 0x7FFF_FFFF ==> l == x
  {
    (x + 0x8000_0000) % 0x1_0000_0000 - 0x8000_0000
  }

  /** Sections 4.2.1 and 4.2.2 as the source computes them on one sample: 16-bit stores truncate,
      GSM_L_ADD saturates. */
  function Compensate(z1: Word, lz2: LongWord, s: Word): (r: (Word, LongWord))
  {
    var so := ToWord(s / 8 * 4);
    var s1 := ToWord(so - z1);
    var msp := ToWord(lz2 / 0x8000);
    var lsp := ToWord(lz2 - msp * 0x8000);
    (so, GsmLAdd(ToLong(msp * 32735), ToLong(s1 * 0x8000 + MultR(lsp, 32735))))
  }

  /** Rounding and section 4.2.3: the new `mp` and the output sample. */
  function Emphasise(mp: Word, lz2: LongWord): (r: (Word, Word))
  {
    var mp1 := ToWord(GsmLAdd(lz2, 16384) / 0x8000);
    (mp1, GsmAdd(mp1, GsmMultR(mp, -28180)))
  }

  function Step(m: Memory, s: Word): (r: (Memory, Word))
  {
    var (z1, lz2) := Compensate(m.z1, m.lz2, s);
    var (mp, out) := Emphasise(m.mp, lz2);
    (Memory(z1, lz2, mp), out)
  }

  /** The same sample in unbounded integer arithmetic: the filter the standard describes. */
  function ExactOffset(z1: int, lz2: int, so: int): int
  {
    var msp := lz2 / 0x8000;
    var lsp := lz2 % 0x8000;
    msp * 32735 + (so - z1) * 0x8000 + (lsp * 32735 + 16384) / 0x8000
  }

  /** The heart of the invariant, for lz2 == 0x8000 * q + t and any `r` within 33 of `t`: the distance
      between the filter memory and the scaled sample never leaves its interval. */
  lemma OffsetArithmetic(z1: int, q: int, t: int, r: int, so: int)
    requires 0 <= t < 0x8000 && t - 33 <= r <= t
    requires OffsetBounded(z1, q * 0x8000 + t) && IsDownscaled(so)
    ensures -0x8000 < so - z1 <= 0x7FFF && -0x8000 <= q <= 0x7FFF
    ensures -0x8000_0000 <= (so - z1) * 0x8000 + r <= 0x7FFF_FFFF
    ensures -0x4000_0000 < q * 32735 + (so - z1) * 0x8000 + r < 0x4000_0000
    ensures OffsetBounded(so, q * 32735 + (so - z1) * 0x8000 + r)
  {
  }

  lemma RoundedLeak(t: int)
    requires 0 <= t < 0x8000
    ensures t - 33 <= (t * 32735 + 16384) / 0x8000 <= t
  {
  }

  lemma OffsetStaysBounded(z1: int, lz2: int, so: int)
    requires OffsetBounded(z1, lz2) && IsDownscaled(so)
    ensures OffsetBounded(so, ExactOffset(z1, lz2, so))
  {
    var q, t := lz2 / 0x8000, lz2 % 0x8000;
    RoundedLeak(t);
    OffsetArithmetic(z1, q, t, (t * 32735 + 16384) / 0x8000, so);
  }

  /** Every value the source stores while compensating fits the register it is stored in. */
  predicate FitsRegisters(z1: Word, lz2: LongWord, so: int) {
    && MIN_WORD < so - z1 <= MAX_WORD
    && MIN_WORD <= lz2 / 0x8000 <= MAX_WORD
    && MIN_LONGWORD <= (so - z1) * 0x8000 + (lz2 % 0x8000 * 32735 + 16384) / 0x8000 <= MAX_LONGWORD
  }

  /** Nothing in the filter saturates or truncates: on every bounded memory and every sample, the
      saturating 16/32-bit computation is the exact integer recurrence, and memory stays bounded. */
  lemma CompensateIsExact(z1: Word, lz2: LongWord, s: Word)
    requires OffsetBounded(z1, lz2)
    ensures var so := s / 8 * 4;
            && FitsRegisters(z1, lz2, so)
            && -0x4000_0000 < ExactOffset(z1, lz2, so) < 0x4000_0000
            && Compensate(z1, lz2, s) == (so, ExactOffset(z1, lz2, so))
            && OffsetBounded(so, ExactOffset(z1, lz2, so))
  {
    var so := s / 8 * 4;
    var q, t := lz2 / 0x8000, lz2 % 0x8000;
    var r := (t * 32735 + 16384) / 0x8000;
    assert IsDownscaled(so);
    RoundedLeak(t);
    OffsetArithmetic(z1, q, t, r, so);
    assert FitsRegisters(z1, lz2, so);
    hide Compensate, FitsRegisters, IsDownscaled, OffsetBounded;
    assert ExactOffset(z1, lz2, so) == q * 32735 + (so - z1) * 0x8000 + r;
    CompensateByParts(z1, lz2, s, so, q, t, r);
  }

  lemma CompensateByParts(z1: Word, lz2: LongWord, s: Word, so: int, q: int, t: int, r: int)
    requires so == s / 8 * 4 && q == lz2 / 0x8000 && t == lz2 % 0x8000 && r == (t * 32735 + 16384) / 0x8000
    requires -0x8000 < so - z1 <= 0x7FFF && -0x8000 <= so <= 0x7FFF && -0x8000 <= q <= 0x7FFF
    requires -0x8000_0000 <= (so - z1) * 0x8000 + r <= 0x7FFF_FFFF
    requires -0x4000_0000 < q * 32735 + (so - z1) * 0x8000 + r < 0x4000_0000
    ensures Compensate(z1, lz2, s) == (so, q * 32735 + (so - z1) * 0x8000 + r)
  {
    hide GsmLAdd, ToLong, ToWord;
    assert ToWord(so) == so && ToWord(so - z1) == so - z1 && ToWord(q) == q;
    assert lz2 - q * 0x8000 == t && ToWord(t) == t;
    assert MultR(t, 32735) == r;
    assert ToLong(q * 32735) == q * 32735 && ToLong((so - z1) * 0x8000 + r) == (so - z1) * 0x8000 + r;
    LAddExact(q * 32735, (so - z1) * 0x8000 + r);
  }

  lemma LAddExact(a: LongWord, b: LongWord)
    requires -0x8000_0000 <= a + b <= 0x7FFF_FFFF
    ensures GsmLAdd(a, b) == a + b
  {
  }

  /** From a bounded memory (the initial one is) the memory is bounded after any run. */
  lemma RunStaysBounded(m: Memory, s: seq<Word>)
    requires Bounded(m)
    ensures Bounded(Run(Step, m, s).0)
  {
    forall t, i | Bounded(t) ensures Bounded(Step(t, i).0) {
      CompensateIsExact(t.z1, t.lz2, i);
    }
    RunKeeps(Step, t => Bounded(t), m, s);
  }

  const SILENCE: Memory := Memory(0, 0, 0)

  function Silent(n: nat): (z: seq<Word>)
    ensures |z| == n && forall i :: 0 <= i < n ==> z[i] == 0
  {
    seq(n, _ => 0)
  }

  // ----- from a codec just created

  /** One step of Gsm_Preprocess in plain arithmetic. */
  lemma StepIs(m: Memory, s: Word, lz2: int, mp: Word, p: Word, out: Word)
    requires OffsetBounded(m.z1, m.lz2) && lz2 == ExactOffset(m.z1, m.lz2, s / 8 * 4)
    requires mp == (lz2 + 16384) / 0x8000 && p == MultR(m.mp, -28180) && out == Saturate(mp + p)
    ensures MIN_LONGWORD <= lz2 <= MAX_LONGWORD
    ensures Step(m, s) == (Memory(s / 8 * 4, lz2, mp), out) && OffsetBounded(s / 8 * 4, lz2)
  {
    CompensateIsExact(m.z1, m.lz2, s);
    hide Compensate, ExactOffset, OffsetBounded, MultR, FitsRegisters;
    RoundingIs(lz2, mp);
    ProductIs(m.mp, p);
    hide ToWord, GsmLAdd, GsmMultR, GsmAdd;
  }

  lemma RoundingIs(lz2: int, mp: Word)
    requires -0x4000_0000 < lz2 < 0x4000_0000 && mp == (lz2 + 16384) / 0x8000
    ensures ToWord(GsmLAdd(lz2, 16384) / 0x8000) == mp
  {
  }

  lemma ProductIs(mp: Word, p: Word)
    requires p == MultR(mp, -28180)
    ensures GsmMultR(mp, -28180) == p
  {
    hide MultR;
  }

  lemma SilentStep()
    ensures Step(SILENCE, 0) == (SILENCE, 0)
  {
    hide Step, OffsetBounded, ExactOffset, MultR;
    SilentBound();
    SilentOffset();
    SilentProduct();
    StepIs(SILENCE, 0, 0, 0, 0, 0);
  }

  lemma SilentBound()
    ensures OffsetBounded(0, 0)
  {
  }

  lemma SilentOffset()
    ensures ExactOffset(0, 0, 0) == 0
  {
  }

  lemma FirstOffset(so: int)
    ensures ExactOffset(0, 0, so) == so * 0x8000
  {
  }

  lemma SilentProduct()
    ensures MultR(0, -28180) == 0
  {
  }

  /** Silence stays silent. */
  lemma {:induction false} SilenceIsKept(n: nat)
    ensures Run(Step, SILENCE, Silent(n)) == (SILENCE, Silent(n))
  {
    hide Step, SILENCE;
    if n > 0 {
      SilenceIsKept(n - 1);
      SilentStep();
      assert Silent(n)[..n - 1] == Silent(n - 1) && Silent(n) == Silent(n - 1) + [0];
    }
  }

  /** The loop body of Gsm_Preprocess.  Each 16- or 32-bit local is assigned a value proved to fit. */
  method FilterSample(m: Memory, s: Word) returns (n: Memory, out: Word)
    requires Bounded(m)
    ensures (n, out) == Step(m, s)
    ensures Bounded(n)
  {
    CompensateIsExact(m.z1, m.lz2, s);
    var so: Word := s / 8 * 4;
    ghost var q, t := m.lz2 / 0x8000, m.lz2 % 0x8000;
    RoundedLeak(t);
    OffsetArithmetic(m.z1, q, t, (t * 32735 + 16384) / 0x8000, so);
    hide OffsetBounded, GsmMultR, GsmAdd, GsmLAdd, Compensate, ToWord, ToLong;
    var s1: Word := so - m.z1;
    var ls2: LongWord := s1 * 0x8000;
    var msp: Word := m.lz2 / 0x8000;
    var lsp: Word := m.lz2 - msp * 0x8000;
    ls2 := ls2 + MultR(lsp, 32735);
    var lTemp: LongWord := msp * 32735;
    LAddExact(lTemp, ls2);
    var lz2 := GsmLAdd(lTemp, ls2);
    assert lz2 == ExactOffset(m.z1, m.lz2, so);
    var mp, o := RoundAndEmphasise(m.mp, lz2);
    n, out := Memory(so, lz2, mp), o;
  }

  /** Rounding and pre-emphasis in FilterSample. */
  method RoundAndEmphasise(mp: Word, lz2: LongWord) returns (mp1: Word, out: Word)
    ensures (mp1, out) == Emphasise(mp, lz2)
  {
    hide GsmMultR, GsmAdd;
    var lTemp := GsmLAdd(lz2, 16384);
    var msp := GsmMultR(mp, -28180);
    mp1 := ToWord(lTemp / 0x8000);
    out := GsmAdd(mp1, msp);
  }

  /** Gsm_Preprocess. */
  method GsmPreprocess(S: Codec, s: array<Word>, so: array<Word>)
    requires S.Valid() && s.Length == 160 && so.Length == 160
    requires so !in S.Repr()
    modifies S`z1, S`lz2, S`mp, so
    ensures S.Valid()
    ensures var r := Run(Step, Memory(old(S.z1), old(S.lz2), old(S.mp)), old(s[..]));
            Memory(S.z1, S.lz2, S.mp) == r.0 && so[..] == r.1
  {
    hide Step;
    var m := Memory(S.z1, S.lz2, S.mp);
    ghost var start := m;
    ghost var input := s[..];
    var k := 0;
    while k < 160
      invariant 0 <= k <= 160
      invariant Run(Step, start, input[..k]) == (m, so[..k])
      invariant Bounded(m)
      invariant forall i :: k <= i < 160 ==> s[i] == input[i]
    {
      RunSnoc(Step, start, input, k);
      var out;
      m, out := FilterSample(m, s[k]);
      so[k] := out;
      assert so[..k + 1] == so[..k] + [out];
      k := k + 1;
    }
    assert input[..160] == input;
    S.z1, S.lz2, S.mp := m.z1, m.lz2, m.mp;
  }
}
