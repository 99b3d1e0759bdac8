/** Decoding a compressed sound buffer by buffer (adpcm_unpack, adpcm_decode, gsm_uncompress and the buffer
    sizes of sound_fill in rplayd/sound.c). */
module Streaming {
  import opened FixedPoint
  import opened Runs
  import opened BitPacking
  import opened G72x
  import opened Adpcm
  import opened AdpcmFile

  const BUFFER_SIZE := 8192

  // ----- ADPCM: what a cut of the stream leaves over

  function Flatten<T>(bufs: seq<seq<T>>): seq<T> {
    if bufs == [] then [] else bufs[0] + Flatten(bufs[1..])
  }

  /** The bits behind the last complete code. */
  function Leftover(bits: seq<bool>, w: nat): (r: seq<bool>)
    requires w > 0
    ensures |r| < w
  {
    if |bits| < w then bits else Leftover(bits[w..], w)
  }

  /** Cutting a stream into codes may stop anywhere and go on with the bits left over. */
  lemma {:induction false} WordsResume(a: seq<bool>, b: seq<bool>, w: nat)
    requires w > 0
    ensures Words(a + b, w) == Words(a, w) + Words(Leftover(a, w) + b, w)
    ensures Leftover(a + b, w) == Leftover(Leftover(a, w) + b, w)
  {
    if |a| >= w {
      WordsResume(a[w..], b, w);
      assert (a + b)[..w] == a[..w] && (a + b)[w..] == a[w..] + b;
    }
  }

  /** The codes that the buffers give one after the other, from some bits left over. */
  function Chunks(rest: seq<bool>, bufs: seq<seq<nat>>, w: nat): (r: (seq<seq<nat>>, seq<bool>))
    requires w > 0
    ensures |r.0| == |bufs|
    decreases |bufs|
  {
    if bufs == [] then ([], rest)
    else
      var stream := rest + BitsOf(bufs[0], 8);
      var (codes, last) := Chunks(Leftover(stream, w), bufs[1..], w);
      ([Words(stream, w)] + codes, last)
  }

  /** The codes do not depend on how the bytes were split into buffers. */
  lemma {:induction false} SplitIndependence(rest: seq<bool>, bufs: seq<seq<nat>>, w: nat)
    requires w > 0 && |rest| < w
    ensures var (codes, last) := Chunks(rest, bufs, w);
            var stream := rest + BitsOf(Flatten(bufs), 8);
            Flatten(codes) == Words(stream, w) && last == Leftover(stream, w)
    decreases |bufs|
  {
    hide Bits, Value;
    if bufs == [] {
      assert BitsOf([], 8) == [];
      assert rest + [] == rest;
    } else {
      var first := rest + BitsOf(bufs[0], 8);
      var later := BitsOf(Flatten(bufs[1..]), 8);
      var (codes, last) := Chunks(Leftover(first, w), bufs[1..], w);
      SplitIndependence(Leftover(first, w), bufs[1..], w);
      WordsResume(first, later, w);
      assert first + later == rest + BitsOf(Flatten(bufs), 8) by {
        BitsOfConcat(bufs[0], Flatten(bufs[1..]), 8);
      }
      FlattenCons(Words(first, w), codes);
      assert Chunks(rest, bufs, w) == ([Words(first, w)] + codes, last);
    }
  }

  lemma FlattenCons<T>(a: seq<T>, rest: seq<seq<T>>)
    ensures Flatten([a] + rest) == a + Flatten(rest)
  {
    assert ([a] + rest)[1..] == rest;
  }

  lemma {:induction false} WordCount(bits: seq<bool>, w: nat)
    requires w > 0
    ensures |Words(bits, w)| == |bits| / w && |Leftover(bits, w)| == |bits| % w
  {
    if |bits| >= w {
      WordCount(bits[w..], w);
      OneWordLess(|bits|, w);
    } else {
      DivUnique(|bits|, w, 0);
    }
  }

  lemma OneWordLess(n: nat, w: nat)
    requires 0 < w <= n
    ensures n / w == (n - w) / w + 1 && n % w == (n - w) % w
  {
    QuotientBrackets(n - w, w);
    Distribute((n - w) / w, 1, w);
    DivUnique(n, w, (n - w) / w + 1);
  }

  // ----- the size of a buffer before it is expanded

  /** BUFFER_SIZE * bit_factor for a mapped sound of `w` bits a sample. */
  function AdpcmBufferSize(w: nat): nat {
    BUFFER_SIZE * w / 16
  }

  /** With up to one code less one bit carried over, the 16-bit samples of a full buffer fill BUFFER_SIZE and
      no more. */
  lemma ExpansionFits(rest: seq<bool>, buf: seq<nat>, w: nat)
    requires IsCodeSize(w) && |rest| < w && |buf| <= AdpcmBufferSize(w)
    ensures 2 * |Words(rest + BitsOf(buf, 8), w)| <= BUFFER_SIZE
    ensures |buf| == AdpcmBufferSize(w) ==> 2 * |Words(rest + BitsOf(buf, 8), w)| == BUFFER_SIZE
  {
    hide Words, BitsOf;
    WordCount(rest + BitsOf(buf, 8), w);
    CodesInBuffer(|rest|, |buf|, w);
  }

  /** How many codes of `w` bits there are in `r` bits and `n` bytes. */
  lemma CodesInBuffer(r: nat, n: nat, w: nat)
    requires IsCodeSize(w) && r < w
    ensures n <= AdpcmBufferSize(w) ==> 2 * ((r + n * 8) / w) <= BUFFER_SIZE
    ensures n == AdpcmBufferSize(w) ==> 2 * ((r + n * 8) / w) == BUFFER_SIZE
    ensures n > AdpcmBufferSize(w) ==> 2 * ((r + n * 8) / w) > BUFFER_SIZE
  {
    if w == 3 {
    } else if w == 4 {
    } else {
    }
  }

  /** Two more bits a sample, or one byte more, would not fit. */
  lemma ExpansionIsTight(rest: seq<bool>, buf: seq<nat>, w: nat)
    requires IsCodeSize(w) && |rest| < w && |buf| == AdpcmBufferSize(w) + 1
    ensures 2 * |Words(rest + BitsOf(buf, 8), w)| > BUFFER_SIZE
  {
    hide Words, BitsOf;
    WordCount(rest + BitsOf(buf, 8), w);
    CodesInBuffer(|rest|, |buf|, w);
  }

  lemma {:induction false} LeftoverOfBitsOf(words: seq<nat>, w: nat, tail: seq<bool>)
    requires w > 0 && |tail| < w
    ensures Leftover(BitsOf(words, w) + tail, w) == tail
  {
    hide BitsOf, Bits;
    if words == [] {
      BitsOfNothing(w, tail);
    } else {
      var rest := words[1..];
      assert words == [words[0]] + rest;
      BitsOfConcat([words[0]], rest, w);
      BitsOfOne(words[0], w);
      LeftoverOfBitsOf(rest, w, tail);
      assert (BitsOf(words, w) + tail)[w..] == BitsOf(rest, w) + tail;
    }
  }

  // ----- the decoder's part of SINDEX

  class Sindex {
    var adpcmInBuffer: nat
    var adpcmInBits: nat
    const adpcmState: G72xState
    const rate: Rate

    ghost predicate Valid()
      reads this
    {
      adpcmState.Valid() && adpcmInBits < 8 && adpcmInBuffer < Pow2(adpcmInBits)
    }

    ghost function Repr(): set<object> {
      {this} + adpcmState.Repr()
    }

    /** The bits carried over to the next buffer. */
    ghost function Carried(): (bits: seq<bool>)
      reads this
      ensures |bits| == adpcmInBits
    {
      Bits(adpcmInBuffer, adpcmInBits)
    }

    constructor (rate: Rate)
      ensures Valid() && fresh(Repr()) && this.rate == rate
      ensures Carried() == [] && adpcmState.View() == START
    {
      adpcmInBuffer, adpcmInBits := 0, 0;
      adpcmState := new G72xState();
      this.rate := rate;
      new;
      assert Pow2(0) == 1;
    }

    /** adpcm_unpack(): the next code of a buffer, or -1 at its end.  `offset` is b->offset. */
    method AdpcmUnpack(b: seq<nat>, offset: nat) returns (code: int, next: nat)
      requires Valid() && offset <= |b| && Fit(b, 8)
      modifies this
      ensures Valid() && offset <= next <= |b|
      ensures code == -1 ==> Carried() == old(Carried()) && next == offset == |b| && adpcmInBits < Width(rate)
      ensures code != -1 ==> 0 <= code < Pow2(Width(rate))
      ensures code != -1 ==> old(Carried()) + BitsOf(b[offset..], 8) == Bits(code, Width(rate)) + (Carried() + BitsOf(b[next..], 8))
    {
      hide Bits, BitsOf, G72xState.Valid, Packer.Valid, Pow2, Shl, Unpacker.Valid, Width;
      WidthIsCodeSize(rate);
      var w := Width(rate);
      next := offset;
      if adpcmInBits < w {
        if offset == |b| {
          return -1, offset;
        }
        LoadByte(adpcmInBuffer, adpcmInBits, b, offset);
        adpcmInBuffer := adpcmInBuffer + Shl(b[offset], adpcmInBits);
        adpcmInBits := adpcmInBits + 8;
        next := offset + 1;
      }
      CutBuffer(adpcmInBuffer, adpcmInBits, w);
      code := adpcmInBuffer % Pow2(w);
      adpcmInBuffer := adpcmInBuffer / Pow2(w);
      adpcmInBits := adpcmInBits - w;
    }

    /** One turn of the inner loop of adpcm_decode; false at the end of the buffer. */
    method DecodeNext(b: seq<nat>, offset: nat, ghost codes: seq<nat>)
      returns (more: bool, sample: Word, next: nat, ghost code: nat)
      requires Valid() && offset <= |b| && Fit(b, 8) && Fit(codes, Width(rate))
      modifies Repr()
      ensures Valid() && offset <= next <= |b|
      ensures !more ==> next == |b| && adpcmInBits < Width(rate)
      ensures !more ==> Carried() + BitsOf(b[next..], 8) == old(Carried() + BitsOf(b[offset..], 8))
      ensures !more ==> adpcmState.View() == old(adpcmState.View())
      ensures more ==> Fit(codes + [code], Width(rate))
      ensures more ==> BitsOf(codes + [code], Width(rate)) + (Carried() + BitsOf(b[next..], 8))
                       == BitsOf(codes, Width(rate)) + old(Carried() + BitsOf(b[offset..], 8))
      ensures more ==> |Carried() + BitsOf(b[next..], 8)| < old(|Carried() + BitsOf(b[offset..], 8)|)
      ensures more ==> adpcmState.View() == DecodeStep(rate, old(adpcmState.View()), code).0
      ensures more ==> sample == ToWord(DecodeStep(rate, old(adpcmState.View()), code).1)
    {
      hide Bits, BitsOf, Carried, DecodeStep, G72xState.Valid, G72xState.View, Packer.Valid, Pow2, ToWord;
      hide Unpacker.Valid, Width;
      WidthIsCodeSize(rate);
      sample, code := 0, 0;
      var c;
      c, next := AdpcmUnpack(b, offset);
      more := c != -1;
      if more {
        code := c;
        TakeCode(codes, code, Width(rate), Carried() + BitsOf(b[next..], 8));
        assert Fit(codes + [code], Width(rate));
        var sl := Decode(rate, adpcmState, c);
        sample := ToWord(sl);
      }
    }

    /** The loop of adpcm_decode over one buffer. */
    method DecodeBuffer(b: seq<nat>) returns (out: seq<Word>)
      requires Valid() && Fit(b, 8)
      modifies Repr()
      ensures Valid() && adpcmInBits < Width(rate)
      ensures var stream := old(Carried()) + BitsOf(b, 8);
              var r := Run<Memory, int, int>(Decoder(rate), old(adpcmState.View()), Words(stream, Width(rate)));
              && adpcmState.View() == r.0 && out == Shorts(r.1)
              && Carried() == Leftover(stream, Width(rate))
    {
      hide BitsOf, Carried, DecodeStep, Decoder, Fit, G72xState.Repr, G72xState.Valid, G72xState.View;
      hide Leftover, Packer.Valid, Pow2, Run, Shorts, ToWord, Unpacker.Valid, Width, Words;
      WidthIsCodeSize(rate);
      var w := Width(rate);
      ghost var s := adpcmState.View();
      ghost var stream := Carried() + BitsOf(b, 8);
      ghost var codes: seq<nat> := [];
      out := [];
      var offset, more := 0, true;
      assert b[0..] == b;
      StartDecoding(rate, s, w);
      assert [] + stream == stream;
      while more
        invariant Valid() && offset <= |b| && Fit(codes, w)
        invariant adpcmState.View() == Run<Memory, int, int>(Decoder(rate), s, codes).0
        invariant out == Shorts(Run<Memory, int, int>(Decoder(rate), s, codes).1)
        invariant BitsOf(codes, w) + (Carried() + BitsOf(b[offset..], 8)) == stream
        invariant !more ==> offset == |b| && adpcmInBits < w
        decreases more, |Carried() + BitsOf(b[offset..], 8)|
      {
        var sample;
        ghost var code;
        more, sample, offset, code := DecodeNext(b, offset, codes);
        if more {
          out := out + [sample];
          DecodedSnoc(rate, s, codes, code);
          codes := codes + [code];
        }
      }
      AllDecoded(codes, w, Carried(), b, stream);
    }
  }

  /** The buffers adpcm_decode takes: those before the first empty one. */
  function Data(bufs: seq<seq<nat>>): (d: seq<seq<nat>>)
    ensures d <= bufs
  {
    if bufs == [] || bufs[0] == [] then [] else [bufs[0]] + Data(bufs[1..])
  }

  /** The state, the output and the bits carried over, after some bytes from a given start. */
  datatype Progress = Progress(state: Memory, samples: seq<Word>, carried: seq<bool>)

  function Decoded(rate: Rate, s: Memory, rest: seq<bool>, bytes: seq<nat>): Progress {
    WidthIsCodeSize(rate);
    var stream := rest + BitsOf(bytes, 8);
    var r := Run<Memory, int, int>(Decoder(rate), s, Words(stream, Width(rate)));
    Progress(r.0, Shorts(r.1), Leftover(stream, Width(rate)))
  }

  /** Decoding some bytes and then some more is decoding all of them. */
  lemma DecodedConcat(rate: Rate, s: Memory, rest: seq<bool>, a: seq<nat>, b: seq<nat>)
    ensures var p := Decoded(rate, s, rest, a);
            var q := Decoded(rate, p.state, p.carried, b);
            Decoded(rate, s, rest, a + b) == Progress(q.state, p.samples + q.samples, q.carried)
  {
    hide BitsOf, Decoder, Leftover, Run, Shorts, Width, Words;
    WidthIsCodeSize(rate);
    var w := Width(rate);
    assert w > 0;
    var first := rest + BitsOf(a, 8);
    var carried := Leftover(first, w);
    BitsOfConcat(a, b, 8);
    assert rest + (BitsOf(a, 8) + BitsOf(b, 8)) == first + BitsOf(b, 8);
    WordsResume(first, BitsOf(b, 8), w);
    var x: seq<int>, y: seq<int> := Words(first, w), Words(carried + BitsOf(b, 8), w);
    RunConcat<Memory, int, int>(Decoder(rate), s, x, y);
    var rx := Run<Memory, int, int>(Decoder(rate), s, x);
    ShortsConcat(rx.1, Run<Memory, int, int>(Decoder(rate), rx.0, y).1);
  }

  lemma ShortsConcat(a: seq<int>, b: seq<int>)
    ensures Shorts(a + b) == Shorts(a) + Shorts(b)
  {
    hide ToWord;
  }

  lemma {:induction false} FlattenSnoc<T>(a: seq<seq<T>>, b: seq<T>)
    ensures Flatten(a + [b]) == Flatten(a) + b
  {
    if a == [] {
      assert [b][1..] == [] && b + [] == b;
    } else {
      FlattenSnoc(a[1..], b);
      assert (a + [b])[1..] == a[1..] + [b];
    }
  }

  lemma {:induction false} DataPrefix(bufs: seq<seq<nat>>, k: nat)
    requires k <= |bufs| && forall j :: 0 <= j < k ==> bufs[j] != []
    requires k < |bufs| ==> bufs[k] == []
    ensures Data(bufs) == bufs[..k]
  {
    if k > 0 {
      var rest := bufs[1..];
      forall j | 0 <= j < k - 1 ensures rest[j] != [] {
        assert rest[j] == bufs[j + 1];
      }
      DataPrefix(rest, k - 1);
      assert bufs[..k] == [bufs[0]] + rest[..k - 1];
    }
  }

  /** adpcm_decode(), mono: every buffer up to the first empty one is replaced by its samples.  However the
      bytes are split, the samples are those of the bytes in one piece, and a buffer of the size that
      sound_fill allows never expands beyond BUFFER_SIZE. */
  method AdpcmDecode(si: Sindex, bufs: seq<seq<nat>>) returns (outs: seq<seq<Word>>)
    requires si.Valid() && si.adpcmInBits < Width(si.rate) && forall k :: 0 <= k < |bufs| ==> Fit(bufs[k], 8)
    modifies si.Repr()
    ensures si.Valid() && si.adpcmInBits < Width(si.rate)
    ensures Progress(si.adpcmState.View(), Flatten(outs), si.Carried())
         == Decoded(si.rate, old(si.adpcmState.View()), old(si.Carried()), Flatten(Data(bufs)))
    ensures |outs| == |Data(bufs)|
    ensures forall k :: 0 <= k < |outs| && |bufs[k]| <= AdpcmBufferSize(Width(si.rate)) ==> 2 * |outs[k]| <= BUFFER_SIZE
  {
    hide AdpcmBufferSize, BitsOf, Data, Decoded, Decoder, Fit, Flatten, G72xState.Repr, G72xState.Valid;
    hide G72xState.View, Leftover, Packer.Valid, Pow2, Run, Shorts, Sindex.Carried, Unpacker.Valid;
    hide Width, Words;
    ghost var s, rest := si.adpcmState.View(), si.Carried();
    outs := [];
    var k := 0;
    NothingDecoded(si.rate, s, rest);
    while k < |bufs| && bufs[k] != []
      invariant 0 <= k <= |bufs| && |outs| == k && si.Valid() && si.adpcmInBits < Width(si.rate)
      invariant forall j :: 0 <= j < k ==> bufs[j] != []
      invariant Progress(si.adpcmState.View(), Flatten(outs), si.Carried()) == Decoded(si.rate, s, rest, Flatten(bufs[..k]))
      invariant forall j :: 0 <= j < k && |bufs[j]| <= AdpcmBufferSize(Width(si.rate)) ==> 2 * |outs[j]| <= BUFFER_SIZE
    {
      ghost var t, carried := si.adpcmState.View(), si.Carried();
      var out := si.DecodeBuffer(bufs[k]);
      OneBuffer(si.rate, t, carried, bufs[k], out, si.adpcmState.View(), si.Carried());
      DecodedConcat(si.rate, s, rest, Flatten(bufs[..k]), bufs[k]);
      assert bufs[..k + 1] == bufs[..k] + [bufs[k]];
      FlattenSnoc(bufs[..k], bufs[k]);
      FlattenSnoc(outs, out);
      outs := outs + [out];
      k := k + 1;
    }
    DataPrefix(bufs, k);
  }

  lemma NothingDecoded(rate: Rate, s: Memory, rest: seq<bool>)
    requires |rest| < Width(rate)
    ensures Decoded(rate, s, rest, Flatten<nat>([])) == Progress(s, Flatten<Word>([]), rest)
  {
    assert rest + [] == rest;
  }

  lemma OneBuffer(rate: Rate, t: Memory, carried: seq<bool>, b: seq<nat>, out: seq<Word>, u: Memory, left: seq<bool>)
    requires |carried| < Width(rate)
    requires var stream := carried + BitsOf(b, 8);
             Width(rate) > 0 &&
             var r := Run<Memory, int, int>(Decoder(rate), t, Words(stream, Width(rate)));
             u == r.0 && out == Shorts(r.1) && left == Leftover(stream, Width(rate))
    ensures Decoded(rate, t, carried, b) == Progress(u, out, left)
    ensures |b| <= AdpcmBufferSize(Width(rate)) ==> 2 * |out| <= BUFFER_SIZE
  {
    WidthIsCodeSize(rate);
    hide AdpcmBufferSize, BitsOf, Decoder, IsCodeSize, Leftover, Run, Shorts, Width, Words;
    if |b| <= AdpcmBufferSize(Width(rate)) {
      ExpansionFits(carried, b, Width(rate));
    }
  }

  /** From a fresh start, the streamed samples are what decode.c writes for the whole file. */
  lemma StreamedIsDecodedFile(rate: Rate, bufs: seq<seq<nat>>)
    ensures Decoded(rate, START, [], Flatten(bufs)).samples == DecodedFile(rate, Flatten(bufs))
  {
    assert [] + BitsOf(Flatten(bufs), 8) == BitsOf(Flatten(bufs), 8);
  }

  lemma AllDecoded(codes: seq<nat>, w: nat, carried: seq<bool>, b: seq<nat>, stream: seq<bool>)
    requires Fit(codes, w) && |carried| < w && BitsOf(codes, w) + (carried + BitsOf(b[|b|..], 8)) == stream
    ensures Words(stream, w) == codes && Leftover(stream, w) == carried
  {
    hide Bits, Fit, Leftover, Words;
    assert BitsOf(b[|b|..], 8) == [];
    assert carried + [] == carried;
    WordsOfBitsOf(codes, w, carried);
    LeftoverOfBitsOf(codes, w, carried);
  }

  lemma StartDecoding(rate: Rate, s: Memory, w: nat)
    ensures Run<Memory, int, int>(Decoder(rate), s, []) == (s, []) && Shorts([]) == [] && BitsOf([], w) == [] && Fit([], w)
  {
  }
}
