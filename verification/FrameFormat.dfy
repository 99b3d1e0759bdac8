/** The 33-byte GSM frame (gsm/gsm_encode.c, gsm_decode.c, gsm_implode.c, gsm_explode.c).

  A frame is the magic number and 76 parameters written high bit first, so it is one 264-bit number: the
  fields are its digits for the parameter widths, the bytes its digits for the width 8.
 */
module FrameFormat {
  import opened FixedPoint
  import opened Types

  const GSM_MAGIC := 13

  // The parameter widths, cut where a field ends on a byte boundary.
  const HEAD_A: seq<nat> := [4, 6, 6]
  const HEAD_B: seq<nat> := [5, 5, 4, 4, 3, 3]
  const SEG_A: seq<nat> := [7, 2, 2, 6, 3, 3, 3, 3, 3]
  const SEG_B: seq<nat> := [3, 3, 3, 3, 3, 3, 3, 3]
  const HEADER: seq<nat> := HEAD_A + HEAD_B
  const SEGMENT: seq<nat> := SEG_A + SEG_B
  const WIDTHS: seq<nat> := HEADER + SEGMENT + SEGMENT + SEGMENT + SEGMENT

  function Eights(n: nat): (w: seq<nat>)
    ensures |w| == n
  {
    seq(n, _ => 8)
  }

  // ----- the generic writer and reader

  function Sum(widths: seq<nat>): nat {
    if widths == [] then 0 else Sum(widths[..|widths| - 1]) + widths[|widths| - 1]
  }

  /** The number whose fields, high bits first, are `fields`. */
  function Pack(fields: seq<nat>, widths: seq<nat>): nat
    requires |fields| == |widths|
  {
    if fields == [] then 0
    else
      var n := |fields| - 1;
      Append(Pack(fields[..n], widths[..n]), widths[n], fields[n])
  }

  /** hi << w | lo. */
  function Append(hi: nat, w: nat, lo: nat): nat {
    MulMono(0, hi, Pow2(w));
    hi * Pow2(w) + lo
  }

  /** The fields of the low Sum(widths) bits of a number. */
  function Unpack(x: nat, widths: seq<nat>): (fields: seq<nat>)
    ensures |fields| == |widths|
    decreases |widths|
  {
    if widths == [] then []
    else
      var n := |widths| - 1;
      Unpack(High(x, widths[n]), widths[..n]) + [Low(x, widths[n])]
  }

  function High(x: nat, w: nat): nat {
    MulMono(1, Pow2(w), x + 1);
    QuotientBetween(x, Pow2(w), 0, x + 1);
    x / Pow2(w)
  }

  function Low(x: int, w: nat): (r: nat)
    ensures r < Pow2(w)
  {
    x % Pow2(w)
  }

  predicate InRange(fields: seq<nat>, widths: seq<nat>)
    requires |fields| == |widths|
  {
    forall k :: 0 <= k < |fields| ==> fields[k] < Pow2(widths[k])
  }

  lemma AppendSplit(hi: nat, w: nat, lo: nat)
    requires lo < Pow2(w)
    ensures High(Append(hi, w, lo), w) == hi && Low(Append(hi, w, lo), w) == lo
  {
    DivUnique(hi * Pow2(w) + lo, Pow2(w), hi);
  }

  lemma SplitAppend(x: nat, w: nat)
    ensures Append(High(x, w), w, Low(x, w)) == x
  {
  }

  /** Reading undoes writing. */
  lemma {:induction false} UnpackPack(fields: seq<nat>, widths: seq<nat>)
    requires |fields| == |widths| && InRange(fields, widths)
    ensures Unpack(Pack(fields, widths), widths) == fields
  {
    if fields != [] {
      var n := |fields| - 1;
      UnpackPack(fields[..n], widths[..n]);
      AppendSplit(Pack(fields[..n], widths[..n]), widths[n], fields[n]);
      hide Append, High, Low;
    }
  }

  /** Writing undoes reading. */
  lemma {:induction false} PackUnpack(x: nat, widths: seq<nat>)
    requires x < Pow2(Sum(widths))
    ensures Pack(Unpack(x, widths), widths) == x && InRange(Unpack(x, widths), widths)
    decreases |widths|
  {
    hide Append, High, Low;
    if widths == [] {
    } else {
      var n := |widths| - 1;
      var w, hi := widths[n], High(x, widths[n]);
      assert Sum(widths) == Sum(widths[..n]) + w;
      assert hi < Pow2(Sum(widths[..n])) by { HighRange(x, w, Sum(widths[..n])); }
      PackUnpack(hi, widths[..n]);
      var fields := Unpack(x, widths);
      assert fields == Unpack(hi, widths[..n]) + [Low(x, w)];
      assert fields[..n] == Unpack(hi, widths[..n]);
      assert Pack(fields, widths) == Append(Pack(fields[..n], widths[..n]), w, fields[n]);
      assert Append(hi, w, fields[n]) == x by { SplitAppend(x, w); }
      assert InRange(fields, widths);
    }
  }

  lemma HighRange(x: nat, w: nat, rest: nat)
    requires x < Pow2(rest + w)
    ensures High(x, w) < Pow2(rest)
  {
    Pow2Add(rest, w);
    QuotientBetween(x, Pow2(w), 0, Pow2(rest));
  }

  lemma {:induction false} PackRange(fields: seq<nat>, widths: seq<nat>)
    requires |fields| == |widths| && InRange(fields, widths)
    ensures Pack(fields, widths) < Pow2(Sum(widths))
  {
    if fields == [] {
      assert Pow2(0) == 1;
    } else {
      var n := |fields| - 1;
      PackRange(fields[..n], widths[..n]);
      AppendRange(Pack(fields[..n], widths[..n]), widths[n], fields[n], Sum(widths[..n]));
    }
  }

  lemma AppendRange(hi: nat, w: nat, lo: nat, rest: nat)
    requires hi < Pow2(rest) && lo < Pow2(w)
    ensures Append(hi, w, lo) < Pow2(rest + w)
  {
    Pow2Add(rest, w);
    MulMono(hi + 1, Pow2(rest), Pow2(w));
    Distribute(hi, 1, Pow2(w));
  }

  // ----- frames

  /** The bytes of the fields, and the fields of the bytes. */
  function FrameBytes(fields: seq<nat>): (bytes: seq<nat>)
    requires |fields| == 77
    ensures |bytes| == 33
  {
    Unpack(Pack(fields, WIDTHS), Eights(33))
  }

  function FrameFields(bytes: seq<nat>): (fields: seq<nat>)
    requires |bytes| == 33
    ensures |fields| == 77
  {
    Unpack(Pack(bytes, Eights(33)), WIDTHS)
  }

  lemma {:induction false} SumConcat(a: seq<nat>, b: seq<nat>)
    ensures Sum(a + b) == Sum(a) + Sum(b)
  {
    if b == [] {
      assert a + b == a;
    } else {
      assert (a + b)[..|a + b| - 1] == a + b[..|b| - 1];
      SumConcat(a, b[..|b| - 1]);
    }
  }

  lemma {:induction false} SumOfEights(n: nat)
    ensures Sum(Eights(n)) == 8 * n
  {
    if n > 0 {
      SumOfEights(n - 1);
      assert Eights(n)[..n - 1] == Eights(n - 1);
    }
  }

  lemma SumNext(widths: seq<nat>, k: nat)
    requires k < |widths|
    ensures Sum(widths[..k + 1]) == Sum(widths[..k]) + widths[k]
  {
    assert widths[..k + 1][..k] == widths[..k];
  }

  lemma SumOfThree(a: nat, b: nat, c: nat)
    ensures Sum([a, b, c]) == a + b + c
  {
    assert [a, b, c][..0] == [];
    assert [a, b, c][..3] == [a, b, c];
    SumNext([a, b, c], 0);
    SumNext([a, b, c], 1);
    SumNext([a, b, c], 2);
  }

  lemma SumOfParts()
    ensures Sum(HEAD_A) == 16 && Sum(HEAD_B) == 24 && Sum(SEG_A) == 32 && Sum(SEG_B) == 24
  {
    SumOfThree(4, 6, 6);
    SumOfThree(5, 5, 4);
    SumOfThree(4, 3, 3);
    SumOfThree(7, 2, 2);
    SumOfThree(6, 3, 3);
    SumOfThree(3, 3, 3);
    assert Sum([3, 3]) == 6 by { SumNext([3, 3, 0], 2); SumOfThree(3, 3, 0); assert [3, 3, 0][..2] == [3, 3] && [3, 3, 0][..3] == [3, 3, 0]; }
    hide Sum;
    SumConcat([5, 5, 4], [4, 3, 3]);
    SumConcat([7, 2, 2], [6, 3, 3]);
    SumConcat([7, 2, 2] + [6, 3, 3], [3, 3, 3]);
    SumConcat([3, 3, 3], [3, 3, 3]);
    SumConcat([3, 3, 3] + [3, 3, 3], [3, 3]);
    assert HEAD_B == [5, 5, 4] + [4, 3, 3] && SEG_A == [7, 2, 2] + [6, 3, 3] + [3, 3, 3];
    assert SEG_B == [3, 3, 3] + [3, 3, 3] + [3, 3];
  }

  lemma SumOfWidths()
    ensures Sum(HEAD_A) == 16 && Sum(HEAD_B) == 24 && Sum(SEG_A) == 32 && Sum(SEG_B) == 24
    ensures Sum(HEADER) == 40 && Sum(SEGMENT) == 56 && Sum(WIDTHS) == 264
  {
    SumOfParts();
    hide Sum, HEAD_A, HEAD_B, SEG_A, SEG_B;
    SumConcat(HEAD_A, HEAD_B);
    SumConcat(SEG_A, SEG_B);
    SumConcat(HEADER, SEGMENT);
    SumConcat(HEADER + SEGMENT, SEGMENT);
    SumConcat(HEADER + SEGMENT + SEGMENT, SEGMENT);
    SumConcat(HEADER + SEGMENT + SEGMENT + SEGMENT, SEGMENT);
  }

  /** A frame that was written reads back as the same parameters. */
  lemma ReaderUndoesWriter(fields: seq<nat>)
    requires |fields| == 77 && InRange(fields, WIDTHS)
    ensures FrameFields(FrameBytes(fields)) == fields && InRange(FrameBytes(fields), Eights(33))
  {
    SumOfWidths();
    SumOfEights(33);
    hide Pack, Unpack, Sum, Pow2;
    PackRange(fields, WIDTHS);
    PackUnpack(Pack(fields, WIDTHS), Eights(33));
    UnpackPack(fields, WIDTHS);
  }

  /** A frame that was read is written back as the same 33 bytes. */
  lemma WriterUndoesReader(bytes: seq<nat>)
    requires |bytes| == 33 && InRange(bytes, Eights(33))
    ensures FrameBytes(FrameFields(bytes)) == bytes && InRange(FrameFields(bytes), WIDTHS)
  {
    SumOfWidths();
    SumOfEights(33);
    hide Pack, Unpack, Sum, Pow2;
    PackRange(bytes, Eights(33));
    PackUnpack(Pack(bytes, Eights(33)), WIDTHS);
    UnpackPack(bytes, Eights(33));
  }

  // ----- fields and bytes that spell the same bits

  /** The fields and the bytes are the same string of bits, cut in two ways. */
  predicate SameBits(fields: seq<nat>, widths: seq<nat>, bytes: seq<nat>)
    requires |fields| == |widths|
  {
    && InRange(fields, widths) && InRange(bytes, Eights(|bytes|))
    && Sum(widths) == 8 * |bytes|
    && Pack(fields, widths) == Pack(bytes, Eights(|bytes|))
  }

  lemma AppendAppend(hi: nat, v: nat, mid: nat, w: nat, lo: nat)
    ensures Append(Append(hi, v, mid), w, lo) == Append(hi, v + w, Append(mid, w, lo))
  {
    Pow2Add(v, w);
    MulAssoc(hi, Pow2(v), Pow2(w));
    Distribute(hi * Pow2(v), mid, Pow2(w));
  }

  lemma {:induction false} PackConcat(a: seq<nat>, v: seq<nat>, b: seq<nat>, w: seq<nat>)
    requires |a| == |v| && |b| == |w|
    ensures Pack(a + b, v + w) == Append(Pack(a, v), Sum(w), Pack(b, w))
  {
    if b == [] {
      assert a + b == a && v + w == v;
      assert Append(Pack(a, v), 0, 0) == Pack(a, v);
    } else {
      var n := |b| - 1;
      assert (a + b)[..|a| + n] == a + b[..n] && (v + w)[..|a| + n] == v + w[..n];
      PackConcat(a, v, b[..n], w[..n]);
      AppendAppend(Pack(a, v), Sum(w[..n]), Pack(b[..n], w[..n]), w[n], b[n]);
      hide Append;
    }
  }

  lemma SameBitsConcat(a: seq<nat>, v: seq<nat>, x: seq<nat>, b: seq<nat>, w: seq<nat>, y: seq<nat>)
    requires |a| == |v| && |b| == |w| && SameBits(a, v, x) && SameBits(b, w, y)
    ensures SameBits(a + b, v + w, x + y)
  {
    hide Pack, Append, Pow2, Sum;
    assert Eights(|x + y|) == Eights(|x|) + Eights(|y|);
    SumConcat(v, w);
    SumOfEights(|y|);
    PackConcat(a, v, b, w);
    PackConcat(x, Eights(|x|), y, Eights(|y|));
  }

  /** Same bits: each cut is the other's writer or reader. */
  lemma SameBitsIsFrame(fields: seq<nat>, bytes: seq<nat>)
    requires |fields| == 77 && |bytes| == 33 && SameBits(fields, WIDTHS, bytes)
    ensures FrameBytes(fields) == bytes && FrameFields(bytes) == fields
  {
    UnpackPack(fields, WIDTHS);
    UnpackPack(bytes, Eights(33));
  }

  lemma PackNext(f: seq<nat>, w: seq<nat>, k: nat)
    requires |f| == |w| && k < |f|
    ensures Pack(f[..k + 1], w[..k + 1]) == Append(Pack(f[..k], w[..k]), w[k], f[k])
  {
    assert f[..k + 1][..k] == f[..k] && w[..k + 1][..k] == w[..k];
  }

  lemma AppendIs(hi: nat, w: nat, lo: nat, m: nat)
    requires m == Pow2(w)
    ensures Append(hi, w, lo) == m * hi + lo
  {
  }

  /** One more field, as a number. */
  lemma PackValue(f: seq<nat>, w: seq<nat>, k: nat, m: nat)
    requires |f| == |w| && k < |f| && 2 <= w[k] <= 8 && m == Pow2(w[k])
    ensures Pack(f[..k + 1], w[..k + 1]) == m * Pack(f[..k], w[..k]) + f[k]
  {
    PackNext(f, w, k);
    AppendIs(Pack(f[..k], w[..k]), w[k], f[k], m);
    hide *;
  }

  lemma PackHeadA(f: seq<nat>, w: seq<nat>)
    requires |f| == |w| == 3 && w == [4, 6, 6]
    ensures Pack(f, w) == (f[0] * 64 + f[1]) * 64 + f[2]
  {
    Pow2Values();
    hide Append, Pow2;
    PackValue(f, w, 0, 16);
    PackValue(f, w, 1, 64);
    PackValue(f, w, 2, 64);
    assert Pack(f[..0], w[..0]) == 0;
    assert f[..3] == f && w[..3] == w;
  }

  lemma PackHeadB(f: seq<nat>, w: seq<nat>)
    requires |f| == |w| == 6 && w == [5, 5, 4, 4, 3, 3]
    ensures Pack(f, w) == ((((f[0] * 32 + f[1]) * 16 + f[2]) * 16 + f[3]) * 8 + f[4]) * 8 + f[5]
  {
    Pow2Values();
    hide Append, Pow2;
    PackValue(f, w, 0, 32);
    PackValue(f, w, 1, 32);
    PackValue(f, w, 2, 16);
    PackValue(f, w, 3, 16);
    PackValue(f, w, 4, 8);
    PackValue(f, w, 5, 8);
    assert Pack(f[..0], w[..0]) == 0;
    assert f[..6] == f && w[..6] == w;
  }

  lemma PackSegA(f: seq<nat>, w: seq<nat>)
    requires |f| == |w| == 9 && w == [7, 2, 2, 6, 3, 3, 3, 3, 3]
    ensures Pack(f, w) == (((((((f[0] * 4 + f[1]) * 4 + f[2]) * 64 + f[3]) * 8 + f[4]) * 8 + f[5]) * 8 + f[6]) * 8 + f[7]) * 8 + f[8]
  {
    Pow2Values();
    assert Pack(f[..0], w[..0]) == 0;
    hide Append, Pow2, Pack;
    PackValue(f, w, 0, 128);
    PackValue(f, w, 1, 4);
    PackValue(f, w, 2, 4);
    PackValue(f, w, 3, 64);
    PackValue(f, w, 4, 8);
    PackValue(f, w, 5, 8);
    PackValue(f, w, 6, 8);
    PackValue(f, w, 7, 8);
    PackValue(f, w, 8, 8);
    assert f[..9] == f && w[..9] == w;
  }

  lemma PackSegB(f: seq<nat>, w: seq<nat>)
    requires |f| == |w| == 8 && w == [3, 3, 3, 3, 3, 3, 3, 3]
    ensures Pack(f, w) == ((((((f[0] * 8 + f[1]) * 8 + f[2]) * 8 + f[3]) * 8 + f[4]) * 8 + f[5]) * 8 + f[6]) * 8 + f[7]
  {
    Pow2Values();
    assert Pack(f[..0], w[..0]) == 0;
    hide Append, Pow2, Pack;
    PackValue(f, w, 0, 8);
    PackValue(f, w, 1, 8);
    PackValue(f, w, 2, 8);
    PackValue(f, w, 3, 8);
    PackValue(f, w, 4, 8);
    PackValue(f, w, 5, 8);
    PackValue(f, w, 6, 8);
    PackValue(f, w, 7, 8);
    assert f[..8] == f && w[..8] == w;
  }

  lemma PackTwoBytes(f: seq<nat>, w: seq<nat>)
    requires |f| == |w| == 2 && w == [8, 8]
    ensures Pack(f, w) == f[0] * 256 + f[1]
  {
    Pow2Values();
    hide Append, Pow2;
    PackValue(f, w, 0, 256);
    PackValue(f, w, 1, 256);
    assert Pack(f[..0], w[..0]) == 0;
    assert f[..2] == f && w[..2] == w;
  }

  lemma PackThreeBytes(f: seq<nat>, w: seq<nat>)
    requires |f| == |w| == 3 && w == [8, 8, 8]
    ensures Pack(f, w) == (f[0] * 256 + f[1]) * 256 + f[2]
  {
    Pow2Values();
    hide Append, Pow2;
    PackValue(f, w, 0, 256);
    PackValue(f, w, 1, 256);
    PackValue(f, w, 2, 256);
    assert Pack(f[..0], w[..0]) == 0;
    assert f[..3] == f && w[..3] == w;
  }

  lemma PackFourBytes(f: seq<nat>, w: seq<nat>)
    requires |f| == |w| == 4 && w == [8, 8, 8, 8]
    ensures Pack(f, w) == ((f[0] * 256 + f[1]) * 256 + f[2]) * 256 + f[3]
  {
    Pow2Values();
    hide Append, Pow2;
    PackValue(f, w, 0, 256);
    PackValue(f, w, 1, 256);
    PackValue(f, w, 2, 256);
    PackValue(f, w, 3, 256);
    assert Pack(f[..0], w[..0]) == 0;
    assert f[..4] == f && w[..4] == w;
  }

  // ----- the layout as written: one function for each group of bytes

  function HeadABytes(l0: Word, l1: Word): (bytes: seq<nat>)
    ensures |bytes| == 2
  {
    [GSM_MAGIC * 16 + l0 / 4 % 16, l0 % 4 * 64 + l1 % 64]
  }

  function HeadBBytes(l2: Word, l3: Word, l4: Word, l5: Word, l6: Word, l7: Word): (bytes: seq<nat>)
    ensures |bytes| == 3
  {
    [l2 % 32 * 8 + l3 / 4 % 8, l3 % 4 * 64 + l4 % 16 * 4 + l5 / 4 % 4, l5 % 4 * 64 + l6 % 8 * 8 + l7 % 8]
  }

  function SegABytes(nc: Word, bc: Word, mc: Word, xmaxc: Word, x: seq<Word>): (bytes: seq<nat>)
    requires |x| == 13
    ensures |bytes| == 4
  {
    [nc % 128 * 2 + bc / 2 % 2, bc % 2 * 128 + mc % 4 * 32 + xmaxc / 2 % 32,
     xmaxc % 2 * 128 + x[0] % 8 * 16 + x[1] % 8 * 2 + x[2] / 4 % 2, x[2] % 4 * 64 + x[3] % 8 * 8 + x[4] % 8]
  }

  function SegBBytes(x: seq<Word>): (bytes: seq<nat>)
    requires |x| == 13
    ensures |bytes| == 3
  {
    [x[5] % 8 * 32 + x[6] % 8 * 4 + x[7] / 2 % 4, x[7] % 2 * 128 + x[8] % 8 * 16 + x[9] % 8 * 2 + x[10] / 4 % 2,
     x[10] % 4 * 64 + x[11] % 8 * 8 + x[12] % 8]
  }

  lemma FieldHalves(x: Word)
    ensures x % 64 == x / 4 % 16 * 4 + x % 4 && x % 32 == x / 4 % 8 * 4 + x % 4 && x % 16 == x / 4 % 4 * 4 + x % 4
    ensures x % 8 == x / 4 % 2 * 4 + x % 4
    ensures x % 4 == x / 2 % 2 * 2 + x % 2 && x % 64 == x / 2 % 32 * 2 + x % 2 && x % 8 == x / 2 % 4 * 2 + x % 2
  {
    var q: int := x / 4;
    Quarters(x, q);
    var h: int := x / 2;
    Halves(x, h);
  }

  lemma Quarters(x: int, q: int)
    requires q == x / 4
    ensures x % 64 == q % 16 * 4 + x % 4 && x % 32 == q % 8 * 4 + x % 4 && x % 16 == q % 4 * 4 + x % 4
    ensures x % 8 == q % 2 * 4 + x % 4
  {
    DivUnique(x, 64, q / 16);
    DivUnique(x, 32, q / 8);
    DivUnique(x, 16, q / 4);
    DivUnique(x, 8, q / 2);
  }

  lemma Halves(x: int, h: int)
    requires h == x / 2
    ensures x % 4 == h % 2 * 2 + x % 2 && x % 64 == h % 32 * 2 + x % 2 && x % 8 == h % 4 * 2 + x % 2
  {
    DivUnique(x, 4, h / 2);
    DivUnique(x, 64, h / 32);
    DivUnique(x, 8, h / 4);
  }

  lemma HeadASame(l0: Word, l1: Word)
    ensures SameBits([GSM_MAGIC, l0 % 64, l1 % 64], HEAD_A, HeadABytes(l0, l1))
  {
    var f, b := [GSM_MAGIC, l0 % 64, l1 % 64], HeadABytes(l0, l1);
    FieldHalves(l0);
    SumOfWidths();
    PackHeadA(f, HEAD_A);
    assert Eights(2) == [8, 8];
    PackTwoBytes(b, [8, 8]);
    Pow2Values();
    hide Pack, Sum, Pow2;
  }

  lemma HeadBSame(l2: Word, l3: Word, l4: Word, l5: Word, l6: Word, l7: Word)
    ensures SameBits([l2 % 32, l3 % 32, l4 % 16, l5 % 16, l6 % 8, l7 % 8], HEAD_B, HeadBBytes(l2, l3, l4, l5, l6, l7))
  {
    var f, b := [l2 % 32, l3 % 32, l4 % 16, l5 % 16, l6 % 8, l7 % 8], HeadBBytes(l2, l3, l4, l5, l6, l7);
    FieldHalves(l3);
    FieldHalves(l5);
    SumOfWidths();
    PackHeadB(f, HEAD_B);
    assert Eights(3) == [8, 8, 8];
    PackThreeBytes(b, [8, 8, 8]);
    Pow2Values();
    hide Pack, Sum, Pow2;
  }

  function SegAFields(nc: Word, bc: Word, mc: Word, xmaxc: Word, x: seq<Word>): (f: seq<nat>)
    requires |x| == 13
    ensures |f| == 9
  {
    [nc % 128, bc % 4, mc % 4, xmaxc % 64, x[0] % 8, x[1] % 8, x[2] % 8, x[3] % 8, x[4] % 8]
  }

  function SegBFields(x: seq<Word>): (f: seq<nat>)
    requires |x| == 13
    ensures |f| == 8
  {
    [x[5] % 8, x[6] % 8, x[7] % 8, x[8] % 8, x[9] % 8, x[10] % 8, x[11] % 8, x[12] % 8]
  }

  lemma SegASame(nc: Word, bc: Word, mc: Word, xmaxc: Word, x: seq<Word>)
    requires |x| == 13
    ensures SameBits(SegAFields(nc, bc, mc, xmaxc, x), SEG_A, SegABytes(nc, bc, mc, xmaxc, x))
  {
    var f, b := SegAFields(nc, bc, mc, xmaxc, x), SegABytes(nc, bc, mc, xmaxc, x);
    FieldHalves(bc);
    FieldHalves(xmaxc);
    FieldHalves(x[2]);
    SumOfWidths();
    PackSegA(f, SEG_A);
    assert Eights(4) == [8, 8, 8, 8];
    PackFourBytes(b, [8, 8, 8, 8]);
    Pow2Values();
    hide Pack, Sum, Pow2;
  }

  lemma SegBSame(x: seq<Word>)
    requires |x| == 13
    ensures SameBits(SegBFields(x), SEG_B, SegBBytes(x))
  {
    var f, b := SegBFields(x), SegBBytes(x);
    FieldHalves(x[7]);
    FieldHalves(x[10]);
    SumOfWidths();
    PackSegB(f, SEG_B);
    assert Eights(3) == [8, 8, 8];
    PackThreeBytes(b, [8, 8, 8]);
    Pow2Values();
    hide Pack, Sum, Pow2;
  }

  // ----- whole frames: eight log area ratios, then four times Nc, bc, Mc, xmaxc and thirteen pulses

  type Params = s: seq<Word> | |s| == 76 witness seq(76, _ => 0)

  function HeadFields(l: seq<Word>): (f: seq<nat>)
    requires |l| == 8
    ensures |f| == 9 && f[0] == GSM_MAGIC
  {
    [GSM_MAGIC, l[0] % 64, l[1] % 64] + [l[2] % 32, l[3] % 32, l[4] % 16, l[5] % 16, l[6] % 8, l[7] % 8]
  }

  function HeadBytes(l: seq<Word>): (b: seq<nat>)
    requires |l| == 8
    ensures |b| == 5
  {
    HeadABytes(l[0], l[1]) + HeadBBytes(l[2], l[3], l[4], l[5], l[6], l[7])
  }

  function SegFields(p: seq<Word>): (f: seq<nat>)
    requires |p| == 17
    ensures |f| == 17
  {
    SegAFields(p[0], p[1], p[2], p[3], p[4..]) + SegBFields(p[4..])
  }

  function SegBytes(p: seq<Word>): (b: seq<nat>)
    requires |p| == 17
    ensures |b| == 7
  {
    SegABytes(p[0], p[1], p[2], p[3], p[4..]) + SegBBytes(p[4..])
  }

  /** The parameters of sub-segment `k`. */
  function SegParams(s: Params, k: nat): (p: seq<Word>)
    requires k < 4
    ensures |p| == 17
  {
    s[8 + 17 * k..25 + 17 * k]
  }

  /** The magic number and the parameters, each cut to its width. */
  function MaskedFields(s: Params): (f: seq<nat>)
    ensures |f| == 77
  {
    HeadFields(s[..8]) + SegFields(SegParams(s, 0)) + SegFields(SegParams(s, 1)) + SegFields(SegParams(s, 2)) + SegFields(SegParams(s, 3))
  }

  function WrittenBytes(s: Params): (b: seq<nat>)
    ensures |b| == 33
  {
    HeadBytes(s[..8]) + SegBytes(SegParams(s, 0)) + SegBytes(SegParams(s, 1)) + SegBytes(SegParams(s, 2)) + SegBytes(SegParams(s, 3))
  }

  lemma HeadSame(l: seq<Word>)
    requires |l| == 8
    ensures SameBits(HeadFields(l), HEADER, HeadBytes(l))
  {
    hide SameBits, HeadABytes, HeadBBytes;
    HeadASame(l[0], l[1]);
    HeadBSame(l[2], l[3], l[4], l[5], l[6], l[7]);
    SameBitsConcat([GSM_MAGIC, l[0] % 64, l[1] % 64], HEAD_A, HeadABytes(l[0], l[1]),
                   [l[2] % 32, l[3] % 32, l[4] % 16, l[5] % 16, l[6] % 8, l[7] % 8], HEAD_B, HeadBBytes(l[2], l[3], l[4], l[5], l[6], l[7]));
  }

  lemma SegSame(p: seq<Word>)
    requires |p| == 17
    ensures SameBits(SegFields(p), SEGMENT, SegBytes(p))
  {
    hide SameBits, SegABytes, SegBBytes, SegAFields, SegBFields;
    SegASame(p[0], p[1], p[2], p[3], p[4..]);
    SegBSame(p[4..]);
    SameBitsConcat(SegAFields(p[0], p[1], p[2], p[3], p[4..]), SEG_A, SegABytes(p[0], p[1], p[2], p[3], p[4..]),
                   SegBFields(p[4..]), SEG_B, SegBBytes(p[4..]));
  }

  lemma FiveSame(h: seq<nat>, x: seq<nat>, f: seq<seq<nat>>, y: seq<seq<nat>>)
    requires |h| == 9 && |f| == |y| == 4 && SameBits(h, HEADER, x)
    requires forall k :: 0 <= k < 4 ==> |f[k]| == 17 && SameBits(f[k], SEGMENT, y[k])
    ensures SameBits(h + f[0] + f[1] + f[2] + f[3], WIDTHS, x + y[0] + y[1] + y[2] + y[3])
  {
    hide SameBits;
    SameBitsConcat(h, HEADER, x, f[0], SEGMENT, y[0]);
    SameBitsConcat(h + f[0], HEADER + SEGMENT, x + y[0], f[1], SEGMENT, y[1]);
    SameBitsConcat(h + f[0] + f[1], HEADER + SEGMENT + SEGMENT, x + y[0] + y[1], f[2], SEGMENT, y[2]);
    SameBitsConcat(h + f[0] + f[1] + f[2], HEADER + SEGMENT + SEGMENT + SEGMENT, x + y[0] + y[1] + y[2], f[3], SEGMENT, y[3]);
  }

  /** The hand-written layout is the generic writer on the masked parameters. */
  lemma WrittenIsFrame(s: Params)
    ensures WrittenBytes(s) == FrameBytes(MaskedFields(s)) && FrameFields(WrittenBytes(s)) == MaskedFields(s)
  {
    hide SameBits, HeadFields, HeadBytes, SegFields, SegBytes, SegParams, FrameBytes, FrameFields;
    HeadSame(s[..8]);
    SegSame(SegParams(s, 0));
    SegSame(SegParams(s, 1));
    SegSame(SegParams(s, 2));
    SegSame(SegParams(s, 3));
    FiveSame(HeadFields(s[..8]), HeadBytes(s[..8]),
             [SegFields(SegParams(s, 0)), SegFields(SegParams(s, 1)), SegFields(SegParams(s, 2)), SegFields(SegParams(s, 3))],
             [SegBytes(SegParams(s, 0)), SegBytes(SegParams(s, 1)), SegBytes(SegParams(s, 2)), SegBytes(SegParams(s, 3))]);
    SameBitsIsFrame(MaskedFields(s), WrittenBytes(s));
  }

  // ----- the writers

  /** The first five bytes. */
  method WriteHeader(l: array<Word>, c: array<Byte>)
    requires l.Length >= 8 && c.Length == 33
    modifies c
    ensures c[..5] == HeadBytes(l[..8]) && c[5..] == old(c[5..])
  {
    c[0] := GSM_MAGIC * 16 + l[0] / 4 % 16;
    c[1] := l[0] % 4 * 64 + l[1] % 64;
    c[2] := l[2] % 32 * 8 + l[3] / 4 % 8;
    c[3] := l[3] % 4 * 64 + l[4] % 16 * 4 + l[5] / 4 % 4;
    c[4] := l[5] % 4 * 64 + l[6] % 8 * 8 + l[7] % 8;
  }

  /** The seven bytes of one sub-segment, at `at`; the pulses are x[from..from + 13]. */
  method WriteSegment(nc: Word, bc: Word, mc: Word, xmaxc: Word, x: array<Word>, from: nat, c: array<Byte>, at: nat)
    requires from + 13 <= x.Length && at + 7 <= c.Length
    modifies c
    ensures c[at..at + 7] == SegBytes([nc, bc, mc, xmaxc] + x[from..from + 13])
    ensures c[..at] == old(c[..at]) && c[at + 7..] == old(c[at + 7..])
  {
    ghost var p := [nc, bc, mc, xmaxc] + x[from..from + 13];
    assert p[4..] == x[from..from + 13];
    c[at] := nc % 128 * 2 + bc / 2 % 2;
    c[at + 1] := bc % 2 * 128 + mc % 4 * 32 + xmaxc / 2 % 32;
    c[at + 2] := xmaxc % 2 * 128 + x[from] % 8 * 16 + x[from + 1] % 8 * 2 + x[from + 2] / 4 % 2;
    c[at + 3] := x[from + 2] % 4 * 64 + x[from + 3] % 8 * 8 + x[from + 4] % 8;
    c[at + 4] := x[from + 5] % 8 * 32 + x[from + 6] % 8 * 4 + x[from + 7] / 2 % 4;
    c[at + 5] := x[from + 7] % 2 * 128 + x[from + 8] % 8 * 16 + x[from + 9] % 8 * 2 + x[from + 10] / 4 % 2;
    c[at + 6] := x[from + 10] % 4 * 64 + x[from + 11] % 8 * 8 + x[from + 12] % 8;
    assert c[at..at + 7] == SegABytes(nc, bc, mc, xmaxc, p[4..]) + SegBBytes(p[4..]);
  }

  /** The sub-segment written from source[at..at + 17]. */
  method WriteSource(source: array<Word>, at: nat, c: array<Byte>, to: nat)
    requires at + 17 <= source.Length && to + 7 <= c.Length
    modifies c
    ensures c[to..to + 7] == SegBytes(source[at..at + 17])
    ensures c[..to] == old(c[..to])
  {
    hide SegBytes;
    assert [source[at], source[at + 1], source[at + 2], source[at + 3]] + source[at + 4..at + 17] == source[at..at + 17];
    WriteSegment(source[at], source[at + 1], source[at + 2], source[at + 3], source, at + 4, c, to);
  }

  /** gsm_implode(). */
  method Implode(source: array<Word>, c: array<Byte>)
    requires source.Length == 76 && c.Length == 33
    modifies c
    ensures c[..] == FrameBytes(MaskedFields(source[..]))
  {
    hide HeadBytes, SegBytes, FrameBytes, MaskedFields;
    ghost var s: Params := source[..];
    WriteHeader(source, c);
    ghost var b := c[..5];
    WriteSource(source, 8, c, 5);
    ghost var b0 := c[5..12];
    assert c[..12] == b + b0;
    WriteSource(source, 25, c, 12);
    ghost var b1 := c[12..19];
    assert c[..19] == b + b0 + b1;
    WriteSource(source, 42, c, 19);
    ghost var b2 := c[19..26];
    assert c[..26] == b + b0 + b1 + b2;
    WriteSource(source, 59, c, 26);
    assert c[..] == c[..26] + c[26..33];
    WrittenIsFrame(s);
  }

  // ----- the layout as read

  function HeadARead(b: seq<Byte>): (f: seq<nat>)
    requires |b| == 2
    ensures |f| == 3
  {
    [b[0] / 16 % 16, b[0] % 16 * 4 + b[1] / 64 % 4, b[1] % 64]
  }

  function HeadBRead(b: seq<Byte>): (f: seq<nat>)
    requires |b| == 3
    ensures |f| == 6
  {
    [b[0] / 8 % 32, b[0] % 8 * 4 + b[1] / 64 % 4, b[1] / 4 % 16, b[1] % 4 * 4 + b[2] / 64 % 4, b[2] / 8 % 8, b[2] % 8]
  }

  function SegARead(b: seq<Byte>): (f: seq<nat>)
    requires |b| == 4
    ensures |f| == 9
  {
    [b[0] / 2 % 128, b[0] % 2 * 2 + b[1] / 128 % 2, b[1] / 32 % 4, b[1] % 32 * 2 + b[2] / 128 % 2,
     b[2] / 16 % 8, b[2] / 2 % 8, b[2] % 2 * 4 + b[3] / 64 % 4, b[3] / 8 % 8, b[3] % 8]
  }

  function SegBRead(b: seq<Byte>): (f: seq<nat>)
    requires |b| == 3
    ensures |f| == 8
  {
    [b[0] / 32 % 8, b[0] / 4 % 8, b[0] % 4 * 2 + b[1] / 128 % 2, b[1] / 16 % 8, b[1] / 2 % 8,
     b[1] % 2 * 4 + b[2] / 64 % 4, b[2] / 8 % 8, b[2] % 8]
  }

  lemma ByteCuts(b: Byte)
    ensures b / 64 % 4 == b / 64 && b / 128 % 2 == b / 128 && b / 32 % 8 == b / 32 && b / 16 % 16 == b / 16
    ensures b / 8 % 32 == b / 8 && b / 2 % 128 == b / 2
    ensures b == b / 64 * 64 + b / 8 % 8 * 8 + b % 8 && b == b / 64 * 64 + b / 4 % 16 * 4 + b % 4
    ensures b == b / 128 * 128 + b / 32 % 4 * 32 + b % 32 && b == b / 32 * 32 + b / 4 % 8 * 4 + b % 4
    ensures b == b / 128 * 128 + b / 16 % 8 * 16 + b / 2 % 8 * 2 + b % 2
  {
    ByteTops(b);
    ByteCutsInThree(b);
    ByteCutsInFour(b);
  }

  lemma ByteTops(b: Byte)
    ensures b / 64 % 4 == b / 64 && b / 128 % 2 == b / 128 && b / 32 % 8 == b / 32 && b / 16 % 16 == b / 16
    ensures b / 8 % 32 == b / 8 && b / 2 % 128 == b / 2
  {
    SmallRemainder(b / 64, 4);
    SmallRemainder(b / 128, 2);
    SmallRemainder(b / 32, 8);
    SmallRemainder(b / 16, 16);
    SmallRemainder(b / 8, 32);
    SmallRemainder(b / 2, 128);
  }

  lemma ByteCutsInThree(b: Byte)
    ensures b == b / 64 * 64 + b / 8 % 8 * 8 + b % 8 && b == b / 64 * 64 + b / 4 % 16 * 4 + b % 4
    ensures b == b / 128 * 128 + b / 32 % 4 * 32 + b % 32 && b == b / 32 * 32 + b / 4 % 8 * 4 + b % 4
  {
    DivUnique(b, 64, b / 8 / 8);
    DivUnique(b, 64, b / 4 / 16);
    DivUnique(b, 128, b / 32 / 4);
    DivUnique(b, 32, b / 4 / 8);
  }

  lemma ByteCutsInFour(b: Byte)
    ensures b == b / 128 * 128 + b / 16 % 8 * 16 + b / 2 % 8 * 2 + b % 2
  {
    DivUnique(b, 128, b / 16 / 8);
    DivUnique(b, 16, b / 2 / 8);
  }

  lemma HeadAReadSame(b: seq<Byte>)
    requires |b| == 2
    ensures SameBits(HeadARead(b), HEAD_A, b)
  {
    var f := HeadARead(b);
    ByteCuts(b[0]);
    ByteCuts(b[1]);
    SumOfWidths();
    PackHeadA(f, HEAD_A);
    assert Eights(2) == [8, 8];
    PackTwoBytes(b, [8, 8]);
    Pow2Values();
    hide Pack, Sum, Pow2;
  }

  lemma HeadBReadSame(b: seq<Byte>)
    requires |b| == 3
    ensures SameBits(HeadBRead(b), HEAD_B, b)
  {
    var f := HeadBRead(b);
    ByteCuts(b[0]);
    ByteCuts(b[1]);
    ByteCuts(b[2]);
    SumOfWidths();
    PackHeadB(f, HEAD_B);
    assert Eights(3) == [8, 8, 8];
    PackThreeBytes(b, [8, 8, 8]);
    Pow2Values();
    hide Pack, Sum, Pow2;
  }

  lemma SegAReadSame(b: seq<Byte>)
    requires |b| == 4
    ensures SameBits(SegARead(b), SEG_A, b)
  {
    var f := SegARead(b);
    ByteCuts(b[0]);
    ByteCuts(b[1]);
    ByteCuts(b[2]);
    ByteCuts(b[3]);
    SumOfWidths();
    PackSegA(f, SEG_A);
    assert Eights(4) == [8, 8, 8, 8];
    PackFourBytes(b, [8, 8, 8, 8]);
    Pow2Values();
    hide Pack, Sum, Pow2;
  }

  lemma SegBReadSame(b: seq<Byte>)
    requires |b| == 3
    ensures SameBits(SegBRead(b), SEG_B, b)
  {
    var f := SegBRead(b);
    ByteCuts(b[0]);
    ByteCuts(b[1]);
    ByteCuts(b[2]);
    SumOfWidths();
    PackSegB(f, SEG_B);
    assert Eights(3) == [8, 8, 8];
    PackThreeBytes(b, [8, 8, 8]);
    Pow2Values();
    hide Pack, Sum, Pow2;
  }

  function HeadRead(b: seq<Byte>): (f: seq<nat>)
    requires |b| == 5
    ensures |f| == 9
  {
    HeadARead(b[..2]) + HeadBRead(b[2..])
  }

  function SegRead(b: seq<Byte>): (f: seq<nat>)
    requires |b| == 7
    ensures |f| == 17
  {
    SegARead(b[..4]) + SegBRead(b[4..])
  }

  lemma HeadReadSame(b: seq<Byte>)
    requires |b| == 5
    ensures SameBits(HeadRead(b), HEADER, b)
  {
    hide SameBits, HeadARead, HeadBRead;
    HeadAReadSame(b[..2]);
    HeadBReadSame(b[2..]);
    SameBitsConcat(HeadARead(b[..2]), HEAD_A, b[..2], HeadBRead(b[2..]), HEAD_B, b[2..]);
    assert b[..2] + b[2..] == b;
  }

  lemma SegReadSame(b: seq<Byte>)
    requires |b| == 7
    ensures SameBits(SegRead(b), SEGMENT, b)
  {
    hide SameBits, SegARead, SegBRead;
    SegAReadSame(b[..4]);
    SegBReadSame(b[4..]);
    SameBitsConcat(SegARead(b[..4]), SEG_A, b[..4], SegBRead(b[4..]), SEG_B, b[4..]);
    assert b[..4] + b[4..] == b;
  }

  type Bytes33 = b: seq<Byte> | |b| == 33 witness seq(33, _ => 0)

  function ReadFields(b: Bytes33): (f: seq<nat>)
    ensures |f| == 77
  {
    HeadRead(b[..5]) + SegRead(b[5..12]) + SegRead(b[12..19]) + SegRead(b[19..26]) + SegRead(b[26..33])
  }

  /** The hand-written reader is the generic one. */
  lemma ReadIsFrameFields(b: Bytes33)
    ensures ReadFields(b) == FrameFields(b) && InRange(ReadFields(b), WIDTHS)
  {
    hide SameBits, HeadRead, SegRead, FrameBytes, FrameFields;
    HeadReadSame(b[..5]);
    SegReadSame(b[5..12]);
    SegReadSame(b[12..19]);
    SegReadSame(b[19..26]);
    SegReadSame(b[26..33]);
    FiveSame(HeadRead(b[..5]), b[..5], [SegRead(b[5..12]), SegRead(b[12..19]), SegRead(b[19..26]), SegRead(b[26..33])],
             [b[5..12], b[12..19], b[19..26], b[26..33]]);
    assert b == b[..5] + b[5..12] + b[12..19] + b[19..26] + b[26..33];
    SameBitsIsFrame(ReadFields(b), b);
    SameBitsInRange(ReadFields(b), b);
  }

  lemma SameBitsInRange(fields: seq<nat>, bytes: seq<nat>)
    requires |fields| == 77 && SameBits(fields, WIDTHS, bytes)
    ensures InRange(fields, WIDTHS)
  {
  }

  // ----- the readers

  /** The eight log area ratios. */
  method ReadHeader(c: array<Byte>, l: array<Word>)
    requires l.Length >= 8 && c.Length == 33
    modifies l
    ensures l[..8] == HeadRead(c[..5])[1..] && l[8..] == old(l[8..])
  {
    HeadAreas(c[..5]);
    hide HeadRead;
    ReadFirstFour(c, l);
    ReadLastFour(c, l);
    assert l[..8] == l[..4] + l[4..8];
  }

  method ReadFirstFour(c: array<Byte>, l: array<Word>)
    requires l.Length >= 8 && c.Length == 33
    modifies l
    ensures l[..4] == [c[0] % 16 * 4 + c[1] / 64 % 4, c[1] % 64, c[2] / 8 % 32, c[2] % 8 * 4 + c[3] / 64 % 4]
    ensures l[4..] == old(l[4..])
  {
    l[0] := c[0] % 16 * 4;
    l[0] := l[0] + c[1] / 64 % 4;
    l[1] := c[1] % 64;
    l[2] := c[2] / 8 % 32;
    l[3] := c[2] % 8 * 4;
    l[3] := l[3] + c[3] / 64 % 4;
  }

  method ReadLastFour(c: array<Byte>, l: array<Word>)
    requires l.Length >= 8 && c.Length == 33
    modifies l
    ensures l[4..8] == [c[3] / 4 % 16, c[3] % 4 * 4 + c[4] / 64 % 4, c[4] / 8 % 8, c[4] % 8]
    ensures l[..4] == old(l[..4]) && l[8..] == old(l[8..])
  {
    l[4] := c[3] / 4 % 16;
    l[5] := c[3] % 4 * 4;
    l[5] := l[5] + c[4] / 64 % 4;
    l[6] := c[4] / 8 % 8;
    l[7] := c[4] % 8;
  }

  lemma HeadAreas(b: seq<Byte>)
    requires |b| == 5
    ensures HeadRead(b)[1..]
         == [b[0] % 16 * 4 + b[1] / 64 % 4, b[1] % 64, b[2] / 8 % 32, b[2] % 8 * 4 + b[3] / 64 % 4, b[3] / 4 % 16,
             b[3] % 4 * 4 + b[4] / 64 % 4, b[4] / 8 % 8, b[4] % 8]
  {
    assert b[..2] == [b[0], b[1]] && b[2..] == [b[2], b[3], b[4]];
  }

  /** The parameters of one sub-segment, from the seven bytes at `at`; the pulses go to x[to..to + 13]. */
  method ReadSegment(c: array<Byte>, at: nat, x: array<Word>, to: nat) returns (nc: Word, bc: Word, mc: Word, xmaxc: Word)
    requires at + 7 <= c.Length && to + 13 <= x.Length
    modifies x
    ensures [nc, bc, mc, xmaxc] + x[to..to + 13] == SegRead(c[at..at + 7])
    ensures x[..to] == old(x[..to]) && x[to + 13..] == old(x[to + 13..])
  {
    nc, bc, mc, xmaxc := ReadFourBytes(c, at, x, to);
    ghost var first := x[to..to + 5];
    ReadThreeBytes(c, at + 4, x, to + 5);
    hide SegARead, SegBRead;
    assert c[at..at + 7][..4] == c[at..at + 4] && c[at..at + 7][4..] == c[at + 4..at + 7];
    assert x[to..to + 13] == x[..to + 5][to..] + x[to + 5..to + 13];
    assert x[..to + 5][to..] == first;
    assert x[..to] == x[..to + 5][..to];
  }

  method ReadFourBytes(c: array<Byte>, at: nat, x: array<Word>, to: nat) returns (nc: Word, bc: Word, mc: Word, xmaxc: Word)
    requires at + 4 <= c.Length && to + 5 <= x.Length
    modifies x
    ensures [nc, bc, mc, xmaxc] + x[to..to + 5] == SegARead(c[at..at + 4])
    ensures x[..to] == old(x[..to]) && x[to + 5..] == old(x[to + 5..])
  {
    nc := c[at] / 2 % 128;
    bc := c[at] % 2 * 2;
    bc := bc + c[at + 1] / 128 % 2;
    mc := c[at + 1] / 32 % 4;
    xmaxc := c[at + 1] % 32 * 2;
    xmaxc := xmaxc + c[at + 2] / 128 % 2;
    x[to] := c[at + 2] / 16 % 8;
    x[to + 1] := c[at + 2] / 2 % 8;
    x[to + 2] := c[at + 2] % 2 * 4;
    x[to + 2] := x[to + 2] + c[at + 3] / 64 % 4;
    x[to + 3] := c[at + 3] / 8 % 8;
    x[to + 4] := c[at + 3] % 8;
    ghost var b := c[at..at + 4];
    assert b[0] == c[at] && b[1] == c[at + 1] && b[2] == c[at + 2] && b[3] == c[at + 3];
    assert x[to..to + 5] == [x[to], x[to + 1], x[to + 2], x[to + 3], x[to + 4]];
  }

  method ReadThreeBytes(c: array<Byte>, at: nat, x: array<Word>, to: nat)
    requires at + 3 <= c.Length && to + 8 <= x.Length
    modifies x
    ensures x[to..to + 8] == SegBRead(c[at..at + 3])
    ensures x[..to] == old(x[..to]) && x[to + 8..] == old(x[to + 8..])
  {
    x[to] := c[at] / 32 % 8;
    x[to + 1] := c[at] / 4 % 8;
    x[to + 2] := c[at] % 4 * 2;
    x[to + 2] := x[to + 2] + c[at + 1] / 128 % 2;
    x[to + 3] := c[at + 1] / 16 % 8;
    x[to + 4] := c[at + 1] / 2 % 8;
    x[to + 5] := c[at + 1] % 2 * 4;
    x[to + 5] := x[to + 5] + c[at + 2] / 64 % 4;
    x[to + 6] := c[at + 2] / 8 % 8;
    x[to + 7] := c[at + 2] % 8;
    ghost var b := c[at..at + 3];
    assert b[0] == c[at] && b[1] == c[at + 1] && b[2] == c[at + 2];
  }

  /** The sub-segment read into target[to..to + 17]. */
  method ReadTarget(c: array<Byte>, at: nat, target: array<Word>, to: nat)
    requires at + 7 <= c.Length && to + 17 <= target.Length
    modifies target
    ensures target[to..to + 17] == SegRead(c[at..at + 7])
    ensures target[..to] == old(target[..to])
  {
    hide SegRead;
    target[to], target[to + 1], target[to + 2], target[to + 3] := ReadSegment(c, at, target, to + 4);
    assert target[to..to + 17] == [target[to], target[to + 1], target[to + 2], target[to + 3]] + target[to + 4..to + 17];
  }

  /** gsm_explode(): -1 and nothing read without the magic number. */
  method Explode(c: array<Byte>, target: array<Word>) returns (rc: int)
    requires c.Length == 33 && target.Length == 76
    modifies target
    ensures rc == if FrameFields(c[..])[0] == GSM_MAGIC then 0 else -1
    ensures rc == 0 ==> target[..] == FrameFields(c[..])[1..]
    ensures rc != 0 ==> target[..] == old(target[..])
  {
    ghost var b: Bytes33 := c[..];
    ReadIsFrameFields(b);
    assert FrameFields(b)[0] == c[0] / 16 % 16;
    hide *;
    if c[0] / 16 % 16 != GSM_MAGIC {
      return -1;
    }
    ReadHeader(c, target);
    ghost var h := target[..8];
    ReadTargets(c, target);
    FieldsAfterMagic(b, h, SegRead(b[5..12]), SegRead(b[12..19]), SegRead(b[19..26]), SegRead(b[26..33]));
    return 0;
  }

  /** The four sub-segments, behind the log area ratios. */
  method ReadTargets(c: array<Byte>, target: array<Word>)
    requires c.Length == 33 && target.Length == 76
    modifies target
    ensures target[..] == old(target[..8]) + SegRead(old(c[5..12])) + SegRead(old(c[12..19])) + SegRead(old(c[19..26]))
                       + SegRead(old(c[26..33]))
  {
    hide SegRead;
    ghost var h := target[..8];
    ReadTarget(c, 5, target, 8);
    ghost var s0 := target[8..25];
    assert target[..25] == h + s0;
    ReadTarget(c, 12, target, 25);
    ghost var s1 := target[25..42];
    assert target[..42] == h + s0 + s1;
    ReadTarget(c, 19, target, 42);
    ghost var s2 := target[42..59];
    assert target[..59] == h + s0 + s1 + s2;
    ReadTarget(c, 26, target, 59);
    assert target[..] == target[..59] + target[59..76];
  }

  lemma FieldsAfterMagic(b: Bytes33, h: seq<Word>, s0: seq<Word>, s1: seq<Word>, s2: seq<Word>, s3: seq<Word>)
    requires h == HeadRead(b[..5])[1..] && s0 == SegRead(b[5..12]) && s1 == SegRead(b[12..19])
    requires s2 == SegRead(b[19..26]) && s3 == SegRead(b[26..33])
    ensures ReadFields(b)[1..] == h + s0 + s1 + s2 + s3
  {
    hide HeadRead, SegRead;
  }

  // ----- the two undo each other

  predicate InWidth(p: seq<Word>, w: seq<nat>)
    requires |p| == |w|
  {
    forall k :: 0 <= k < |p| ==> 0 <= p[k] < Pow2(w[k])
  }

  predicate ParamsFit(s: Params) {
    && InWidth(s[..8], HEADER[1..]) && InWidth(SegParams(s, 0), SEGMENT) && InWidth(SegParams(s, 1), SEGMENT)
    && InWidth(SegParams(s, 2), SEGMENT) && InWidth(SegParams(s, 3), SEGMENT)
  }

  lemma HeadUnmasked(l: seq<Word>)
    requires |l| == 8 && InWidth(l, HEADER[1..])
    ensures HeadFields(l) == [GSM_MAGIC] + l
  {
    Pow2Values();
    hide Pow2;
  }

  lemma SegUnmasked(p: seq<Word>)
    requires |p| == 17 && InWidth(p, SEGMENT)
    ensures SegFields(p) == p
  {
    Pow2Values();
    hide Pow2;
    SegAUnmasked(p[0], p[1], p[2], p[3], p[4..]);
    SegBUnmasked(p[4..]);
    hide SegAFields, SegBFields;
    assert p == [p[0], p[1], p[2], p[3]] + p[4..][..5] + p[4..][5..];
  }

  lemma SegAUnmasked(nc: Word, bc: Word, mc: Word, xmaxc: Word, x: seq<Word>)
    requires |x| == 13 && 0 <= nc < 128 && 0 <= bc < 4 && 0 <= mc < 4 && 0 <= xmaxc < 64
    requires forall i :: 0 <= i < 13 ==> 0 <= x[i] < 8
    ensures SegAFields(nc, bc, mc, xmaxc, x) == [nc, bc, mc, xmaxc] + x[..5]
  {
  }

  lemma SegBUnmasked(x: seq<Word>)
    requires |x| == 13 && forall i :: 0 <= i < 13 ==> 0 <= x[i] < 8
    ensures SegBFields(x) == x[5..]
  {
  }

  /** Parameters in range are not cut. */
  lemma FittingUnmasked(s: Params)
    requires ParamsFit(s)
    ensures MaskedFields(s) == [GSM_MAGIC] + s
  {
    hide SegFields, HeadFields, InWidth;
    HeadUnmasked(s[..8]);
    SegUnmasked(SegParams(s, 0));
    SegUnmasked(SegParams(s, 1));
    SegUnmasked(SegParams(s, 2));
    SegUnmasked(SegParams(s, 3));
    assert s == s[..8] + SegParams(s, 0) + SegParams(s, 1) + SegParams(s, 2) + SegParams(s, 3);
  }

  /** What gsm_implode wrote, gsm_explode reads: the parameters cut to their widths, so all of them when
      they are in range. */
  lemma ExplodeUndoesImplode(s: Params)
    ensures FrameFields(FrameBytes(MaskedFields(s))) == MaskedFields(s) && MaskedFields(s)[0] == GSM_MAGIC
    ensures ParamsFit(s) ==> FrameFields(FrameBytes(MaskedFields(s))) == [GSM_MAGIC] + s
  {
    WrittenIsFrame(s);
    if ParamsFit(s) {
      FittingUnmasked(s);
    }
    hide FrameFields, FrameBytes, SegFields, HeadFields, InWidth;
  }

  lemma SliceFits(f: seq<nat>, w: seq<nat>, i: nat, j: nat, p: seq<Word>, v: seq<nat>)
    requires |f| == |w| && InRange(f, w) && i <= j <= |f| && p == f[i..j] && v == w[i..j]
    ensures |p| == |v| && InWidth(p, v)
  {
  }

  lemma NarrowFields(f: seq<nat>, w: seq<nat>)
    requires |f| == |w| && InRange(f, w) && forall k :: 0 <= k < |w| ==> w[k] <= 7
    ensures forall k :: 0 <= k < |f| ==> f[k] < 0x80
  {
    Pow2Values();
    forall k | 0 <= k < |f| ensures f[k] < 0x80 {
      Pow2Monotonic(w[k], 7);
    }
  }

  lemma FieldsAreParams(f: seq<nat>, s: Params)
    requires |f| == 77 && InRange(f, WIDTHS) && s == f[1..]
    ensures ParamsFit(s)
  {
    hide InRange, InWidth;
    assert WIDTHS[1..9] == HEADER[1..] && WIDTHS[9..26] == WIDTHS[26..43] == WIDTHS[43..60] == WIDTHS[60..77] == SEGMENT;
    hide WIDTHS, HEADER, SEGMENT;
    SliceFits(f, WIDTHS, 1, 9, s[..8], HEADER[1..]);
    SliceFits(f, WIDTHS, 9, 26, s[8..25], SEGMENT);
    SliceFits(f, WIDTHS, 26, 43, s[25..42], SEGMENT);
    SliceFits(f, WIDTHS, 43, 60, s[42..59], SEGMENT);
    SliceFits(f, WIDTHS, 60, 77, s[59..76], SEGMENT);
  }

  /** Every field read is within its width, so the 76 behind the magic number are parameters in range. */
  lemma FieldsFit(b: Bytes33)
    ensures InRange(FrameFields(b), WIDTHS) && forall k :: 0 <= k < 77 ==> FrameFields(b)[k] < 0x80
  {
    ReadIsFrameFields(b);
    hide FrameFields, ReadFields, InRange;
    NarrowFields(FrameFields(b), WIDTHS);
  }

  /** The 76 parameters gsm_explode stores. */
  function ReadParams(b: Bytes33): (s: Params)
    ensures ParamsFit(s)
  {
    FieldsFit(b);
    var s: Params := FrameFields(b)[1..];
    FieldsAreParams(FrameFields(b), s);
    s
  }

  /** What was read from a frame is written back as the same 33 bytes exactly when the frame has the magic
      number; without it no parameters at all are written as these bytes. */
  lemma ImplodeUndoesExplodeIff(b: Bytes33)
    ensures FrameBytes(MaskedFields(ReadParams(b))) == b <==> FrameFields(b)[0] == GSM_MAGIC
    ensures forall s: Params :: FrameBytes(MaskedFields(s)) == b ==> FrameFields(b)[0] == GSM_MAGIC
  {
    var f, s := FrameFields(b), ReadParams(b);
    FittingUnmasked(s);
    if f[0] == GSM_MAGIC {
      BytesInRange(b);
      WriterUndoesReader(b);
      assert f == [GSM_MAGIC] + f[1..];
    }
    hide FrameFields, FrameBytes, ParamsFit, MaskedFields;
    forall t: Params | FrameBytes(MaskedFields(t)) == b ensures FrameFields(b)[0] == GSM_MAGIC {
      ExplodeUndoesImplode(t);
    }
  }

  lemma BytesInRange(b: Bytes33)
    ensures InRange(b, Eights(33))
  {
    Pow2Values();
  }

  /** gsm_explode, then gsm_implode: the same 33 bytes, whenever the first accepts them. */
  method ExplodeThenImplode(c: array<Byte>, params: array<Word>, d: array<Byte>) returns (rc: int)
    requires c.Length == 33 && params.Length == 76 && d.Length == 33
    modifies params, d
    ensures rc == if FrameFields(old(c[..]))[0] == GSM_MAGIC then 0 else -1
    ensures rc == 0 ==> d[..] == old(c[..])
  {
    ghost var b: Bytes33 := c[..];
    rc := Explode(c, params);
    if rc == 0 {
      ImplodeUndoesExplodeIff(b);
      hide FrameFields, FrameBytes, MaskedFields;
      Implode(params, d);
    }
  }
}
