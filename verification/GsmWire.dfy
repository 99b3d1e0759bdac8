/** gsm_encode and gsm_decode: the codec with its 33-byte frames (gsm/gsm_encode.c, gsm/gsm_decode.c). */
module GsmWire {
  import opened FixedPoint
  import opened GsmState
  import opened Runs
  import opened FrameFormat
  import opened GsmCodec
  import opened Types
  import Rpe

  /** The parameters of a coded frame in transmission order. */
  function SegmentWords(g: Segment): (p: seq<Word>)
    ensures |p| == 17
  {
    [g.nc, g.bc, g.rpe.mc, g.rpe.xmaxc] + g.rpe.xMc
  }

  function CodedParams(c: Coded): Params {
    c.larc + SegmentWords(c.segments[0]) + SegmentWords(c.segments[1]) + SegmentWords(c.segments[2]) + SegmentWords(c.segments[3])
  }

  /** The fields of a frame as parameters; each is below two to its width, so the cuts change nothing. */
  function SegmentOf(f: seq<nat>): Segment
    requires |f| == 17
  {
    Segment(f[0] % 128, f[1] % 4, Rpe.RpeParams(f[3] % 64, f[2] % 4, seq(13, i requires 0 <= i < 13 => f[4 + i] % 8)))
  }

  function CodedOf(f: seq<nat>): Coded
    requires |f| == 77
  {
    Coded(seq(8, i requires 0 <= i < 8 => f[1 + i] % 64),
          [SegmentOf(f[9..26]), SegmentOf(f[26..43]), SegmentOf(f[43..60]), SegmentOf(f[60..77])])
  }

  type Frame33 = b: seq<nat> | |b| == 33 witness seq(33, _ => 0)

  function SendFrame(st: CoderState, s: Samples): (CoderState, Frame33) {
    var (st1, c) := EncodeFrame(st, s);
    (st1, FrameBytes(MaskedFields(CodedParams(c))))
  }

  function ReceiveFrame(st: DecoderState, b: Frame33): (DecoderState, Samples) {
    DecodeFrame(st, CodedOf(FrameFields(b)))
  }

  lemma SegmentRoundTrip(g: Segment, f: seq<nat>)
    requires f == SegmentWords(g)
    ensures SegmentOf(f) == g
  {
  }

  lemma SegmentFits(g: Segment)
    ensures InWidth(SegmentWords(g), SEGMENT)
  {
    Pow2Values();
    hide Pow2;
  }

  lemma ParamsSlices(c: Coded)
    ensures var p := CodedParams(c);
            p[..8] == c.larc && forall k :: 0 <= k < 4 ==> SegParams(p, k) == SegmentWords(c.segments[k])
  {
    hide SegmentWords;
  }

  lemma LarFits(c: Coded)
    requires FitsFormat(c)
    ensures InWidth(c.larc, HEADER[1..]) && forall i :: 0 <= i < 8 ==> 0 <= c.larc[i] < 64
  {
    Pow2Values();
    hide Pow2;
  }

  lemma LarUncut(l: seq<Word>, f: seq<nat>)
    requires |l| == 8 && |f| == 77 && f[1..9] == l && forall i :: 0 <= i < 8 ==> 0 <= l[i] < 64
    ensures seq(8, i requires 0 <= i < 8 => f[1 + i] % 64) == l
  {
  }

  /** A coded frame that fits the format survives the trip through its bytes. */
  lemma FrameCarriesCoded(c: Coded)
    requires FitsFormat(c)
    ensures CodedOf(FrameFields(FrameBytes(MaskedFields(CodedParams(c))))) == c
  {
    hide *;
    var p := CodedParams(c);
    CodedParamsFit(c);
    ExplodeUndoesImplode(p);
    var f: seq<nat> := FrameFields(FrameBytes(MaskedFields(p)));
    assert f[1..] == p;
    CodedOfParams(c, f);
  }

  lemma CodedParamsFit(c: Coded)
    requires FitsFormat(c)
    ensures ParamsFit(CodedParams(c))
  {
    ParamsSlices(c);
    LarFits(c);
    SegmentFits(c.segments[0]);
    SegmentFits(c.segments[1]);
    SegmentFits(c.segments[2]);
    SegmentFits(c.segments[3]);
    hide CodedParams, FitsFormat, InWidth, SegParams, SegmentWords;
  }

  lemma CodedOfParams(c: Coded, f: seq<nat>)
    requires FitsFormat(c) && |f| == 77 && f[1..] == CodedParams(c)
    ensures CodedOf(f) == c
  {
    var p := CodedParams(c);
    ParamsSlices(c);
    LarFits(c);
    hide CodedParams, FitsFormat, InWidth, SegmentOf, SegmentWords;
    assert f[9..26] == f[1..][8..25] && f[26..43] == f[1..][25..42] && f[43..60] == f[1..][42..59] && f[60..77] == f[1..][59..76];
    assert f[9..26] == SegParams(p, 0) && f[26..43] == SegParams(p, 1) && f[43..60] == SegParams(p, 2) && f[60..77] == SegParams(p, 3) by {
    }
    SegmentRoundTrip(c.segments[0], f[9..26]);
    SegmentRoundTrip(c.segments[1], f[26..43]);
    SegmentRoundTrip(c.segments[2], f[43..60]);
    SegmentRoundTrip(c.segments[3], f[60..77]);
    assert f[1..9] == f[1..][..8];
    LarUncut(c.larc, f);
  }

  /** Through the bytes of any frame that the coder makes, the decoder does what it does on the parameters. */
  lemma WireIsTransparent(a: CoderState, b: DecoderState, s: Samples)
    ensures var (a1, bytes) := SendFrame(a, s);
            var (a2, c) := EncodeFrame(a, s);
            a1 == a2 && ReceiveFrame(b, bytes) == DecodeFrame(b, c)
  {
    CodedFrameFitsFormat(a, s);
    FrameCarriesCoded(EncodeFrame(a, s).1);
    hide CodedOf, CodedParams, DecodeFrame, EncodeFrame, FitsFormat, FrameBytes, FrameFields;
    hide MaskedFields;
  }

  /** The lockstep of the two codecs over whole runs, with 33-byte frames between them. */
  lemma {:induction false} WireLockstep(a: CoderState, b: DecoderState, frames: seq<Samples>)
    requires InStep(a, b)
    ensures var (a1, sent) := Run(SendFrame, a, frames);
            InStep(a1, Run(ReceiveFrame, b, sent).0)
  {
    RunsAgree(a, b, frames);
    FramesLockstep(a, b, frames);
    hide *;
  }

  /** From two codecs just created, with real frames between them. */
  lemma FreshWireLockstep(frames: seq<Samples>)
    ensures var (a, sent) := Run(SendFrame, FRESH_CODER, frames);
            InStep(a, Run(ReceiveFrame, FRESH_DECODER, sent).0)
  {
    assert InStep(FRESH_CODER, FRESH_DECODER);
    WireLockstep(FRESH_CODER, FRESH_DECODER, frames);
    hide *;
  }

  lemma {:induction false} RunsAgree(a: CoderState, b: DecoderState, frames: seq<Samples>)
    ensures var (a1, sent) := Run(SendFrame, a, frames);
            var (a2, coded) := Run(EncodeFrame, a, frames);
            a1 == a2 && Run(ReceiveFrame, b, sent) == Run(DecodeFrame, b, coded)
  {
    hide DecodeFrame, EncodeFrame, ReceiveFrame, SendFrame;
    if frames != [] {
      var n := |frames| - 1;
      RunsAgree(a, b, frames[..n]);
      var (a1, sent) := Run(SendFrame, a, frames[..n]);
      var coded := Run(EncodeFrame, a, frames[..n]).1;
      var b1 := Run(DecodeFrame, b, coded).0;
      WireIsTransparent(a1, b1, frames[n]);
      assert Run(SendFrame, a, frames).1[..n] == sent && Run(EncodeFrame, a, frames).1[..n] == coded;
    }
  }

  // ----- gsm_encode and gsm_decode

  /** gsm_encode(). */
  method GsmEncode(S: Codec, source: array<Word>, e: array<Word>, c: array<Byte>)
    requires S.Valid() && source.Length == 160 && e.Length == 50 && c.Length == 33
    requires e !in S.Repr() && e[..5] == MARGIN && e[45..] == MARGIN
    modifies S, S.dp0, S.u, S.larpp0, S.larpp1, e, c
    ensures S.Valid() && e[..5] == MARGIN && e[45..] == MARGIN
    ensures (CoderView(S), c[..]) == SendFrame(old(CoderView(S)), old(source[..]))
  {
    hide Codec.Valid, CodedParams, CoderView, EncodeFrame, FrameBuffers.Arrays, FrameBuffers.Stores;
    hide FrameBuffers.Valid, FrameBytes, MaskedFields;
    var b := new FrameBuffers();
    ghost var g := GsmCoder(S, source, e, b);
    WriteFrame(b, c, g);
  }

  /** The 33 assignments of gsm_encode. */
  method WriteFrame(b: FrameBuffers, c: array<Byte>, ghost g: seq<Segment>)
    requires b.Valid() && c.Length == 33 && |g| == 4 && b.Stores(g)
    modifies c
    ensures c[..] == FrameBytes(MaskedFields(CodedParams(Coded(b.larc[..], g))))
  {
    hide HeadBytes, SegBytes, FrameBytes, MaskedFields;
    ghost var p := CodedParams(Coded(b.larc[..], g));
    ParamsSlices(Coded(b.larc[..], g));
    WriteHeader(b.larc, c);
    ghost var h := c[..5];
    WriteStored(b, 0, c, g);
    ghost var b0 := c[5..12];
    assert c[..12] == h + b0;
    WriteStored(b, 1, c, g);
    ghost var b1 := c[12..19];
    assert c[..19] == h + b0 + b1;
    WriteStored(b, 2, c, g);
    ghost var b2 := c[19..26];
    assert c[..26] == h + b0 + b1 + b2;
    WriteStored(b, 3, c, g);
    assert c[..] == c[..26] + c[26..33];
    assert b.larc[..8] == b.larc[..];
    WrittenIsFrame(p);
  }

  /** The seven bytes of sub-segment `k`. */
  method WriteStored(b: FrameBuffers, k: nat, c: array<Byte>, ghost g: seq<Segment>)
    requires b.Valid() && c.Length == 33 && k < 4 && |g| == 4 && b.Stores(g)
    modifies c
    ensures c[5 + 7 * k..12 + 7 * k] == SegBytes(SegmentWords(g[k])) && c[..5 + 7 * k] == old(c[..5 + 7 * k])
  {
    hide SegBytes;
    WriteSegment(b.nc[k], b.bc[k], b.mc[k], b.xmaxc[k], b.xMc, 13 * k, c, 5 + 7 * k);
    assert b.StoresAt(k, g[k]);
  }

  lemma MagicField(c: Bytes33)
    ensures ReadFields(c)[0] == c[0] / 16 % 16
  {
  }

  /** The parameters of sub-segment `k`, into the arrays. */
  method ReadStored(c: array<Byte>, b: FrameBuffers, k: nat, ghost g: seq<Segment>) returns (ghost next: Segment)
    requires b.Valid() && c.Length == 33 && k < 4 && |g| == k && b.Stores(g)
    modifies b.nc, b.bc, b.mc, b.xmaxc, b.xMc
    ensures next == SegmentOf(SegRead(c[5 + 7 * k..12 + 7 * k])) && b.Stores(g + [next])
  {
    hide SegRead, SegmentOf;
    ghost var x := b.xMc[..13 * k];
    ghost var f := SegRead(c[5 + 7 * k..12 + 7 * k]);
    SegmentReads(c[5 + 7 * k..12 + 7 * k]);
    next := SegmentOf(f);
    b.nc[k], b.bc[k], b.mc[k], b.xmaxc[k] := ReadSegment(c, 5 + 7 * k, b.xMc, 13 * k);
    ghost var w := SegmentWords(next);
    assert [b.nc[k], b.bc[k], b.mc[k], b.xmaxc[k]] + b.xMc[13 * k..13 * k + 13] == w;
    assert b.xMc[13 * k..13 * k + 13] == w[4..];
    assert b.StoresAt(k, next);
    forall l | 0 <= l < k ensures b.StoresAt(l, g[l]) {
      assert b.xMc[13 * l..13 * l + 13] == x[13 * l..13 * l + 13];
    }
  }

  lemma SegmentReads(c: seq<Byte>)
    requires |c| == 7
    ensures SegmentWords(SegmentOf(SegRead(c))) == SegRead(c)
  {
    SegReadRange(c);
    hide SegRead;
    WordsOfSegment(SegRead(c));
  }

  lemma WordsOfSegment(f: seq<nat>)
    requires |f| == 17 && f[0] < 128 && f[1] < 4 && f[2] < 4 && f[3] < 64 && forall i :: 4 <= i < 17 ==> f[i] < 8
    ensures SegmentWords(SegmentOf(f)) == f
  {
    var x := seq(13, i requires 0 <= i < 13 => f[4 + i] % 8);
    assert x == f[4..] by {
      forall i | 0 <= i < 13 ensures x[i] == f[4..][i] {
        SmallRemainder(f[4 + i], 8);
      }
    }
    SmallRemainder(f[0], 128);
    SmallRemainder(f[1], 4);
    SmallRemainder(f[2], 4);
    SmallRemainder(f[3], 64);
    assert f == [f[0], f[1], f[2], f[3]] + f[4..];
  }

  lemma SegReadRange(c: seq<Byte>)
    requires |c| == 7
    ensures var f := SegRead(c);
            f[0] < 128 && f[1] < 4 && f[2] < 4 && f[3] < 64 && forall i :: 4 <= i < 17 ==> f[i] < 8
  {
  }

  /** The assignments of gsm_decode. */
  method ReadFrame(c: array<Byte>, b: FrameBuffers) returns (ghost g: seq<Segment>)
    requires b.Valid() && c.Length == 33
    modifies b.Arrays()
    ensures |g| == 4 && b.Stores(g)
    ensures Coded(b.larc[..], g) == CodedOf(FrameFields(c[..]))
  {
    hide Codec.Valid, CodedOf, FrameBuffers.StoresAt, FrameFields, HeadRead, InRange, ReadFields;
    hide SegRead, SegmentOf;
    ghost var bytes: Bytes33 := c[..];
    assert b.larc.Length == 8;
    assert b.Arrays() == {b.larc, b.nc, b.bc, b.mc, b.xmaxc, b.xMc};
    ReadHeader(c, b.larc);
    ghost var l := b.larc[..];
    assert l == b.larc[..8];
    assert b.Stores([]);
    ghost var g0 := ReadStored(c, b, 0, []);
    assert [] + [g0] == [g0];
    ghost var g1 := ReadStored(c, b, 1, [g0]);
    assert [g0] + [g1] == [g0, g1];
    ghost var g2 := ReadStored(c, b, 2, [g0, g1]);
    assert [g0, g1] + [g2] == [g0, g1, g2];
    ghost var g3 := ReadStored(c, b, 3, [g0, g1, g2]);
    assert [g0, g1, g2] + [g3] == [g0, g1, g2, g3];
    g := [g0, g1, g2, g3];
    ReadIsFrameFields(bytes);
    assert b.larc[..] == l;
    CodedOfRead(bytes, l);
  }

  lemma CodedOfRead(c: Bytes33, l: seq<Word>)
    requires |l| == 8 && l == HeadRead(c[..5])[1..]
    ensures CodedOf(ReadFields(c)) == Coded(l, [SegmentOf(SegRead(c[5..12])), SegmentOf(SegRead(c[12..19])),
                                                SegmentOf(SegRead(c[19..26])), SegmentOf(SegRead(c[26..33]))])
  {
    var f := ReadFields(c);
    HeadReadRange(c[..5]);
    assert f[..9] == HeadRead(c[..5]);
    assert f[9..26] == SegRead(c[5..12]) && f[26..43] == SegRead(c[12..19]) && f[43..60] == SegRead(c[19..26]) && f[60..77] == SegRead(c[26..33]);
    hide HeadRead, SegRead, SegmentOf, ReadFields;
    assert f[1..9] == l;
    LarUncut(l, f);
  }

  lemma HeadReadRange(c: seq<Byte>)
    requires |c| == 5
    ensures forall i :: 0 <= i < 9 ==> 0 <= HeadRead(c)[i] < 64
  {
  }

  /** The bit fields of gsm_decode lose nothing: the parameters are the fields read. */
  lemma FieldsUncut(b: Bytes33)
    ensures CodedParams(CodedOf(FrameFields(b))) == ReadParams(b)
  {
    var h := HeadRead(b[..5]);
    HeadReadRange(b[..5]);
    var l: seq<Word> := h[1..];
    CodedOfRead(b, l);
    SegmentReads(b[5..12]);
    SegmentReads(b[12..19]);
    SegmentReads(b[19..26]);
    SegmentReads(b[26..33]);
    FieldsAfterMagic(b, l, SegRead(b[5..12]), SegRead(b[12..19]), SegRead(b[19..26]), SegRead(b[26..33]));
    ReadIsFrameFields(b);
    hide HeadRead, SegRead, SegmentOf, SegmentWords, CodedOf, FrameFields, ReadFields;
  }

  /** What gsm_decode reads from a frame, the writer of gsm_encode writes back as the same 33 bytes, exactly
      when the frame has the magic number. */
  lemma EncodeWritesWhatDecodeReadIff(b: Bytes33)
    ensures FrameBytes(MaskedFields(CodedParams(CodedOf(FrameFields(b))))) == b <==> FrameFields(b)[0] == GSM_MAGIC
  {
    FieldsUncut(b);
    ImplodeUndoesExplodeIff(b);
    hide FrameBytes, FrameFields, MaskedFields, CodedOf, CodedParams, ReadParams;
  }

  /** The two together, on the arrays. */
  method ReadThenWrite(c: array<Byte>, b: FrameBuffers, d: array<Byte>)
    requires b.Valid() && c.Length == 33 && d.Length == 33 && FrameFields(c[..])[0] == GSM_MAGIC
    modifies b.Arrays(), d
    ensures d[..] == old(c[..])
  {
    hide FrameBytes, FrameFields, MaskedFields, CodedOf, CodedParams, FrameBuffers.Stores;
    EncodeWritesWhatDecodeReadIff(c[..]);
    ghost var g := ReadFrame(c, b);
    WriteFrame(b, d, g);
  }

  /** gsm_decode(): -1 and no change without the magic number. */
  method GsmDecode(S: Codec, c: array<Byte>, target: array<Word>) returns (rc: int)
    requires S.Valid() && c.Length == 33 && target.Length == 160 && target !in S.Repr()
    modifies S, S.dp0, S.v, S.larpp0, S.larpp1, target
    ensures S.Valid()
    ensures rc == if FrameFields(c[..])[0] == GSM_MAGIC then 0 else -1
    ensures rc == 0 ==> (DecoderView(S), target[..]) == ReceiveFrame(old(DecoderView(S)), c[..])
    ensures rc != 0 ==> DecoderView(S) == old(DecoderView(S)) && target[..] == old(target[..])
  {
    hide Codec.Valid, CodedOf, DecodeFrame, DecoderView, FrameBuffers.Stores, FrameBuffers.Valid;
    hide FrameFields, InRange, ReadFields;
    ghost var bytes: Bytes33 := c[..];
    ReadIsFrameFields(bytes);
    MagicField(bytes);
    if c[0] / 16 % 16 != GSM_MAGIC {
      return -1;
    }
    ghost var v := DecoderView(S);
    var b := new FrameBuffers();
    ghost var g := ReadFrame(c, b);
    assert DecoderView(S) == v && c[..] == bytes;
    GsmDecoder(S, b, target, g);
    return 0;
  }
}
