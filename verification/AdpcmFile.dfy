/** The two filters built on the ADPCM coder: encode.c turns samples into packed bytes, decode.c turns
    them back (16-bit linear samples, options -l with -3, -4 or -5). */
module AdpcmFile {
  import opened FixedPoint
  import opened Runs
  import opened G72x
  import opened Adpcm
  import opened BitPacking

  function Width(rate: Rate): nat {
    CodeSize(rate)
  }

  lemma CodesFit(rate: Rate, i: int)
    requires IsCode(rate, i)
    ensures IsCodeSize(Width(rate)) && 0 <= i < Pow2(Width(rate))
  {
    Pow2Values();
  }

  lemma WidthIsCodeSize(rate: Rate)
    ensures IsCodeSize(Width(rate))
  {
  }

  /** The codes of a run, as the non-negative numbers the packer takes. */
  function CodesOf(rate: Rate, samples: seq<Word>): (codes: seq<nat>)
    ensures |codes| == |samples|
  {
    hide EncodeStep, SignBit;
    var outs := Run(Encoder(rate), START, samples).1;
    seq(|samples|, k requires 0 <= k < |samples| => if outs[k].0 >= 0 then outs[k].0 else 0)
  }

  lemma CodesSnoc(rate: Rate, samples: seq<Word>, k: nat)
    requires k < |samples|
    ensures var e := EncodeStep(rate, Run(Encoder(rate), START, samples[..k]).0, samples[k]);
            && Run(Encoder(rate), START, samples[..k + 1]).0 == e.0
            && CodesOf(rate, samples[..k + 1]) == CodesOf(rate, samples[..k]) + [e.1.0]
  {
    hide EncodeStep;
    RunSnoc(Encoder(rate), START, samples, k);
  }

  /** One turn of the main loop of encode.c. */
  method EncodeOne(rate: Rate, S: G72xState, packer: Packer, sample: Word, ghost codes: seq<nat>)
    returns (resid: bool, code: nat)
    requires S.Valid() && packer.Valid() && packer !in S.Repr()
    requires packer.Stream() == BitsOf(codes, Width(rate)) && Fit(codes, Width(rate))
    requires packer.outBits == |codes| * Width(rate) % 8
    modifies S.Repr(), packer
    ensures packer.Valid()
    ensures S.View() == EncodeStep(rate, old(S.View()), sample).0
    ensures code == EncodeStep(rate, old(S.View()), sample).1.0
    ensures packer.Stream() == BitsOf(codes + [code], Width(rate)) && Fit(codes + [code], Width(rate))
    ensures packer.outBits == (|codes| + 1) * Width(rate) % 8 && resid == (packer.outBits > 0)
  {
    hide Bits, BitsOf, EncodeStep, G72xState.Valid, G72xState.View, IsCodeSize, Packer.Stream;
    hide Packer.Valid, Pow2, SignBit, Unpacker.Valid, Width;
    var i := Encode(rate, S, sample);
    code := i;
    CodesFit(rate, code);
    resid := packer.PackOutput(code, Width(rate));
    BitsOfConcat(codes, [code], Width(rate));
    BitsOfOne(code, Width(rate));
    NextPending(|codes|, Width(rate));
  }

  lemma ZeroCodeFits(rate: Rate)
    ensures 0 < Pow2(Width(rate)) && Fit([0], Width(rate)) && BitsOf([0], Width(rate)) == Bits(0, Width(rate))
    ensures 0 < Width(rate) < 8
  {
    BitsOfOne(0, Width(rate));
  }

  /** encode.c.  For an empty file the flush loop starts on a `resid` that was never set; it is a parameter,
      and where it is not zero one zero code is packed before the flush. */
  method EncodeFile(rate: Rate, samples: seq<Word>, unset: bool) returns (bytes: seq<nat>)
    ensures bytes == Packed(if samples == [] && unset then [0] else CodesOf(rate, samples), Width(rate))
  {
    hide Bits, CodesOf, EncodeStep, G72xState.Valid, G72xState.View, IsCodeSize, Packed, Packer.Stream;
    hide Packer.Valid, Pow2, Unpacker.Valid, Width;
    var S := new G72xState();
    var packer := new Packer();
    WidthIsCodeSize(rate);
    assert packer !in S.Repr();
    var resid := EncodeSamples(rate, S, packer, samples, unset);
    ghost var codes := CodesOf(rate, samples);
    if samples == [] && resid {
      ZeroCodeFits(rate);
      assert BitsOf(codes, Width(rate)) == [];
      resid := packer.PackOutput(0, Width(rate));
      codes := [0];
    }
    Flush(packer, resid, Width(rate), codes);
    bytes := packer.output;
  }

  lemma NothingEncoded(rate: Rate)
    ensures Run(Encoder(rate), START, []).0 == INITIAL
    ensures CodesOf(rate, []) == [] && BitsOf([], Width(rate)) == [] && Fit([], Width(rate))
  {
  }

  /** The main loop of encode.c. */
  method EncodeSamples(rate: Rate, S: G72xState, packer: Packer, samples: seq<Word>, unset: bool) returns (resid: bool)
    requires S.Valid() && packer.Valid() && packer !in S.Repr() && S.View() == INITIAL
    requires packer.Stream() == [] && packer.outBits == 0
    modifies S.Repr(), packer
    ensures packer.Valid() && Fit(CodesOf(rate, samples), Width(rate))
    ensures packer.Stream() == BitsOf(CodesOf(rate, samples), Width(rate))
    ensures packer.outBits == |samples| * Width(rate) % 8
    ensures resid == if samples == [] then unset else packer.outBits > 0
  {
    hide Bits, EncodeStep, Encoder, G72xState.Valid, G72xState.View, IsCodeSize, Packed, Packer.Stream;
    hide Packer.Valid, Pow2, Unpacker.Valid, Width, CodesOf, BitsOf, Run;
    resid := unset;
    var k := 0;
    NothingEncoded(rate);
    assert samples[..0] == [];
    while k < |samples|
      invariant k <= |samples| && S.Valid() && packer.Valid()
      invariant S.View() == Run(Encoder(rate), START, samples[..k]).0
      invariant packer.Stream() == BitsOf(CodesOf(rate, samples[..k]), Width(rate))
      invariant Fit(CodesOf(rate, samples[..k]), Width(rate))
      invariant packer.outBits == k * Width(rate) % 8 && resid == if k == 0 then unset else packer.outBits > 0
    {
      CodesSnoc(rate, samples, k);
      var code;
      resid, code := EncodeOne(rate, S, packer, samples[k], CodesOf(rate, samples[..k]));
      k := k + 1;
    }
    assert samples[..k] == samples;
  }

  /** The codes decode.c reads, and the 16-bit samples it writes for them. */
  function DecodedFile(rate: Rate, bytes: seq<nat>): seq<Word> {
    WidthIsCodeSize(rate);
    Shorts(Run<Memory, int, int>(Decoder(rate), START, Unpacked(bytes, Width(rate))).1)
  }

  function Shorts(outs: seq<int>): (r: seq<Word>)
    ensures |r| == |outs|
  {
    seq(|outs|, k requires 0 <= k < |outs| => ToWord(outs[k]))
  }

  lemma DecodedSnoc(rate: Rate, s: Memory, codes: seq<nat>, i: nat)
    ensures var r := Run<Memory, int, int>(Decoder(rate), s, codes);
            var d := DecodeStep(rate, r.0, i);
            var t := Run<Memory, int, int>(Decoder(rate), s, codes + [i]);
            t.0 == d.0 && Shorts(t.1) == Shorts(r.1) + [ToWord(d.1)]
  {
    hide DecodeStep;
    hide ToWord;
    assert (codes + [i])[..|codes|] == codes;
  }

  /** One turn of the main loop of decode.c; false at the end of the input. */
  method DecodeOne(rate: Rate, S: G72xState, unpacker: Unpacker, ghost codes: seq<nat>)
    returns (more: bool, sample: Word, ghost code: nat)
    requires S.Valid() && unpacker.Valid() && unpacker !in S.Repr()
    modifies S.Repr(), unpacker
    ensures unpacker.Valid()
    ensures more == (|old(unpacker.Rest())| >= Width(rate))
    ensures !more ==> unpacker.Rest() == old(unpacker.Rest()) && S.View() == old(S.View())
    ensures more ==> code < Pow2(Width(rate)) && old(unpacker.Rest()) == Bits(code, Width(rate)) + unpacker.Rest()
    ensures more ==> S.View() == DecodeStep(rate, old(S.View()), code).0
                     && sample == ToWord(DecodeStep(rate, old(S.View()), code).1)
  {
    hide Bits, DecodeStep, G72xState.Valid, G72xState.View, IsCodeSize, Packer.Valid, Pow2, ToWord;
    hide Unpacker.Rest, Unpacker.Valid, Width;
    WidthIsCodeSize(rate);
    sample := 0;
    var status, c := unpacker.UnpackInput(Width(rate));
    code := c;
    more := status >= 0;
    if more {
      var sl := Decode(rate, S, c);
      sample := ToWord(sl);
    }
  }

  lemma TakeCode(codes: seq<nat>, code: nat, w: nat, rest: seq<bool>)
    ensures BitsOf(codes + [code], w) + rest == BitsOf(codes, w) + (Bits(code, w) + rest)
  {
    hide *;
    BitsOfConcat(codes, [code], w);
    BitsOfOne(code, w);
  }

  lemma AllCodesTaken(codes: seq<nat>, w: nat, rest: seq<bool>, bytes: seq<nat>)
    requires Fit(codes, w) && |rest| < w && BitsOf(codes, w) + rest == BitsOf(bytes, 8)
    ensures Unpacked(bytes, w) == codes
  {
    hide BitsOf, Fit, Words;
    WordsOfBitsOf(codes, w, rest);
  }

  /** decode.c. */
  method DecodeFile(rate: Rate, bytes: seq<nat>) returns (samples: seq<Word>)
    requires Fit(bytes, 8)
    ensures samples == DecodedFile(rate, bytes)
  {
    hide Bits, DecodeStep, Decoder, G72xState.Valid, G72xState.View, IsCodeSize, Packer.Valid, Pow2;
    hide ToWord, Unpacked, Unpacker.Rest, Unpacker.Valid, Width;
    WidthIsCodeSize(rate);
    var S := new G72xState();
    var unpacker := new Unpacker(bytes);
    samples := [];
    ghost var codes: seq<nat> := [];
    assert S.View() == Run<Memory, int, int>(Decoder(rate), START, codes).0;
    assert samples == Shorts(Run<Memory, int, int>(Decoder(rate), START, codes).1);
    assert unpacker !in S.Repr();
    assert BitsOf(codes, Width(rate)) + unpacker.Rest() == BitsOf(bytes, 8);
    var more := true;
    while more
      invariant S.Valid() && unpacker.Valid() && fresh(S.Repr()) && fresh(unpacker) && unpacker !in S.Repr()
      invariant Fit(codes, Width(rate)) && BitsOf(codes, Width(rate)) + unpacker.Rest() == BitsOf(bytes, 8)
      invariant S.View() == Run<Memory, int, int>(Decoder(rate), START, codes).0
      invariant samples == Shorts(Run<Memory, int, int>(Decoder(rate), START, codes).1)
      invariant !more ==> |unpacker.Rest()| < Width(rate)
      decreases more, |unpacker.Rest()|
    {
      var sample;
      ghost var code;
      more, sample, code := DecodeOne(rate, S, unpacker, codes);
      if more {
        samples := samples + [sample];
        DecodedSnoc(rate, START, codes, code);
        TakeCode(codes, code, Width(rate), unpacker.Rest());
        codes := codes + [code];
      }
    }
    AllCodesTaken(codes, Width(rate), unpacker.Rest(), bytes);
  }

  /** A file encoded and decoded again: the encoder's reconstruction of every sample, then at most seven
      samples for the zero codes of the flush. */
  lemma FileRoundTrip(rate: Rate, samples: seq<Word>)
    requires NeverCut(rate, START, samples)
    ensures var sent := Packed(CodesOf(rate, samples), Width(rate));
            var back := DecodedFile(rate, sent);
            && |samples| <= |back| <= |samples| + 7
            && back[..|samples|] == Shorts(Signals(Run(Encoder(rate), START, samples).1))
  {
    hide Codes, CodesOf, Decoder, Encoder, Fit, FlushCount, IsCodeSize, NeverCut, Packed, Run, Signals;
    hide ToWord, Unpacked, Width, ZeroCodes;
    var codes := CodesOf(rate, samples);
    var outs := Run(Encoder(rate), START, samples).1;
    WidthIsCodeSize(rate);
    CodesAreCodes(rate, samples);
    PackingRoundTrip(codes, Width(rate));
    var zeros: seq<int> := ZeroCodes(FlushCount(|codes| * Width(rate) % 8, Width(rate)));
    RunLockstep(rate, START, samples);
    var ints: seq<int> := codes;
    assert ints == Codes(outs);
    var r := Run<Memory, int, int>(Decoder(rate), START, ints);
    RunConcat(Decoder(rate), START, ints, zeros);
    var all := Run<Memory, int, int>(Decoder(rate), START, ints + zeros).1;
    assert r.1 == Signals(outs) && all[..|samples|] == r.1;
    assert Shorts(all)[..|samples|] == Shorts(all[..|samples|]);
  }

  lemma {:induction false} OutputIsCode(rate: Rate, samples: seq<Word>, k: nat)
    requires k < |samples|
    ensures IsCode(rate, Run(Encoder(rate), START, samples).1[k].0)
  {
    hide EncodeStep, SignBit;
    if k < |samples| - 1 {
      OutputIsCode(rate, samples[..|samples| - 1], k);
    }
  }

  lemma CodesAreCodes(rate: Rate, samples: seq<Word>)
    ensures CodesOf(rate, samples) == Codes(Run(Encoder(rate), START, samples).1)
    ensures Fit(CodesOf(rate, samples), Width(rate))
  {
    hide Encoder, IsCode, IsCodeSize, Pow2, Run, Width;
    var outs := Run(Encoder(rate), START, samples).1;
    forall k | 0 <= k < |samples| ensures 0 <= outs[k].0 < Pow2(Width(rate)) {
      OutputIsCode(rate, samples, k);
      CodesFit(rate, outs[k].0);
    }
  }
}
