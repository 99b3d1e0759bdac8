/** Assembling 33-byte GSM frames from a stream of buffers (gsm_uncompress and sound_fill in
  rplayd/sound.c).

  A frame that begins in one buffer and ends in a later one is not put together: every piece is copied to
  the start of the frame, not behind the pieces before it (line 2393).  The results say exactly for which
  buffer sizes that matters.
 */
module GsmStreaming {
  import opened FixedPoint
  import opened FrameFormat
  import opened Types
  import Streaming

  const FRAME := 33
  const BUFFER_SIZE := Streaming.BUFFER_SIZE

  /** gsm_bit_frame and gsm_bit_frame_bytes. */
  datatype RawAssembly = Assembly(frame: Bytes, n: nat)
  type Assembly = a: RawAssembly | |a.frame| == FRAME && a.n < FRAME witness Assembly(seq(FRAME, _ => 0), 0)

  function Min(a: nat, b: nat): nat {
    if a < b then a else b
  }

  /** memcpy of a piece, to the start of the frame. */
  function Filled(frame: Bytes, piece: Bytes): (r: Bytes)
    requires |piece| <= |frame|
    ensures |r| == |frame|
  {
    piece + frame[|piece|..]
  }

  /** gsm_uncompress on one buffer: what is left in the frame, and the frames handed to gsm_decode. */
  function Uncompress(st: Assembly, b: Bytes): (r: (Assembly, seq<Bytes>))
    decreases |b|
  {
    if b == [] then (st, [])
    else
      var nbytes := Min(|b|, FRAME - st.n);
      var frame := Filled(st.frame, b[..nbytes]);
      if st.n + nbytes == FRAME then
        var (last, frames) := Uncompress(Assembly(frame, 0), b[nbytes..]);
        (last, [frame] + frames)
      else (Assembly(frame, st.n + nbytes), [])
  }

  function UncompressAll(st: Assembly, bufs: seq<Bytes>): (Assembly, seq<Bytes>)
    decreases |bufs|
  {
    if bufs == [] then (st, [])
    else
      var (next, frames) := Uncompress(st, bufs[0]);
      var (last, later) := UncompressAll(next, bufs[1..]);
      (last, frames + later)
  }

  /** What the frames should be: the bytes cut every 33. */
  function Cuts(bytes: Bytes): seq<Bytes> {
    if |bytes| < FRAME then [] else [bytes[..FRAME]] + Cuts(bytes[FRAME..])
  }

  function Sizes(bufs: seq<Bytes>): (sizes: seq<nat>)
    ensures |sizes| == |bufs|
  {
    seq(|bufs|, k requires 0 <= k < |bufs| => |bufs[k]|)
  }

  /** No buffer boundary inside a frame that is completed later; `n` bytes of a frame precede. */
  predicate Aligned(n: nat, sizes: seq<nat>)
    decreases |sizes|
  {
    sizes == [] || ((n > 0 ==> n + sizes[0] < FRAME) && Aligned((n + sizes[0]) % FRAME, sizes[1..]))
  }

  // ----- aligned buffers are decoded as one stream

  lemma {:induction false} WholeFrames(st: Assembly, b: Bytes)
    requires st.n == 0
    ensures Uncompress(st, b).1 == Cuts(b) && Uncompress(st, b).0.n == |b| % FRAME
    decreases |b|
  {
    if |b| >= FRAME {
      var frame := b[..FRAME] + st.frame[FRAME..];
      assert frame == b[..FRAME];
      WholeFrames(Assembly(frame, 0), b[FRAME..]);
    }
  }

  lemma {:induction false} CutsOfLonger(b: Bytes, rest: Bytes)
    requires |b| % FRAME + |rest| < FRAME
    ensures Cuts(b + rest) == Cuts(b)
  {
    if |b| >= FRAME {
      CutsOfLonger(b[FRAME..], rest);
      assert (b + rest)[..FRAME] == b[..FRAME] && (b + rest)[FRAME..] == b[FRAME..] + rest;
    }
  }

  lemma {:induction false} CutsConcat(b: Bytes, rest: Bytes)
    requires |b| % FRAME == 0
    ensures Cuts(b + rest) == Cuts(b) + Cuts(rest)
  {
    if |b| >= FRAME {
      CutsConcat(b[FRAME..], rest);
      assert (b + rest)[..FRAME] == b[..FRAME] && (b + rest)[FRAME..] == b[FRAME..] + rest;
    } else {
      assert b + rest == rest;
    }
  }

  lemma {:induction false} PartialStaysPartial(st: Assembly, bufs: seq<Bytes>)
    requires st.n > 0 && Aligned(st.n, Sizes(bufs))
    ensures UncompressAll(st, bufs).1 == [] && st.n + |Streaming.Flatten(bufs)| < FRAME
    decreases |bufs|
  {
    if bufs != [] {
      assert Sizes(bufs)[1..] == Sizes(bufs[1..]);
      PartialStaysPartial(Uncompress(st, bufs[0]).0, bufs[1..]);
    }
  }

  lemma {:induction false} AlignedIsCut(st: Assembly, bufs: seq<Bytes>)
    requires st.n == 0 && Aligned(0, Sizes(bufs))
    ensures UncompressAll(st, bufs).1 == Cuts(Streaming.Flatten(bufs))
    decreases |bufs|
  {
    if bufs != [] {
      assert Sizes(bufs)[1..] == Sizes(bufs[1..]);
      var next := Uncompress(st, bufs[0]).0;
      WholeFrames(st, bufs[0]);
      if next.n == 0 {
        AlignedIsCut(next, bufs[1..]);
        CutsConcat(bufs[0], Streaming.Flatten(bufs[1..]));
      } else {
        PartialStaysPartial(next, bufs[1..]);
        CutsOfLonger(bufs[0], Streaming.Flatten(bufs[1..]));
      }
    }
  }

  // ----- other buffers lose a frame

  /** A stream whose frames begin with the magic number, and nothing else; from `n` bytes into a frame. */
  function Marked(n: nat, sizes: seq<nat>): (bufs: seq<Bytes>)
    ensures |bufs| == |sizes|
    decreases |sizes|
  {
    if sizes == [] then []
    else [seq(sizes[0], i requires 0 <= i => if (n + i) % FRAME == 0 then GSM_MAGIC * 16 else 0)]
         + Marked((n + sizes[0]) % FRAME, sizes[1..])
  }

  lemma {:induction false} MarkedSizes(n: nat, sizes: seq<nat>)
    ensures Sizes(Marked(n, sizes)) == sizes
    decreases |sizes|
  {
    if sizes != [] {
      MarkedSizes((n + sizes[0]) % FRAME, sizes[1..]);
    }
  }

  lemma {:induction false} NextFill(st: Assembly, b: Bytes)
    ensures Uncompress(st, b).0.n == (st.n + |b|) % FRAME
    decreases |b|
  {
    if b != [] && st.n + Min(|b|, FRAME - st.n) == FRAME {
      var nbytes := FRAME - st.n;
      NextFill(Assembly(Filled(st.frame, b[..nbytes]), 0), b[nbytes..]);
      assert (st.n + |b|) % FRAME == |b[nbytes..]| % FRAME;
    }
  }

  /** Where a frame is pieced together, its first byte is the first of the last piece, not the magic number. */
  lemma {:induction false} PiecedFrameLosesMagic(st: Assembly, sizes: seq<nat>) returns (k: nat)
    requires !Aligned(st.n, sizes)
    ensures var frames := UncompressAll(st, Marked(st.n, sizes)).1;
            k < |frames| && |frames[k]| > 0 && frames[k][0] == 0
    decreases |sizes|
  {
    var bufs := Marked(st.n, sizes);
    var (next, frames) := Uncompress(st, bufs[0]);
    if st.n > 0 && st.n + sizes[0] >= FRAME {
      k := 0;
    } else {
      NextFill(st, bufs[0]);
      assert bufs[1..] == Marked(next.n, sizes[1..]);
      k := PiecedFrameLosesMagic(next, sizes[1..]);
      k := k + |frames|;
    }
  }

  lemma RemainderOfPart(x: nat, y: nat)
    ensures (x % FRAME + y) % FRAME == (x + y) % FRAME
  {
  }

  lemma {:induction false} MarkedAt(n: nat, sizes: seq<nat>, p: nat)
    requires p < |Streaming.Flatten(Marked(n, sizes))|
    ensures Streaming.Flatten(Marked(n, sizes))[p] == if (n + p) % FRAME == 0 then GSM_MAGIC * 16 else 0
    decreases |sizes|
  {
    if p >= sizes[0] {
      var q := p - sizes[0];
      MarkedAt((n + sizes[0]) % FRAME, sizes[1..], q);
      RemainderOfPart(n + sizes[0], q);
      hide Marked;
    }
  }

  lemma {:induction false} CutStartsAt(b: Bytes, k: nat)
    requires k < |Cuts(b)|
    ensures FRAME * k + FRAME <= |b| && |Cuts(b)[k]| == FRAME && Cuts(b)[k][0] == b[FRAME * k]
  {
    if k > 0 {
      CutStartsAt(b[FRAME..], k - 1);
    }
  }

  lemma MarkedDiffers(st: Assembly, sizes: seq<nat>)
    requires st.n == 0 && !Aligned(0, sizes)
    ensures UncompressAll(st, Marked(0, sizes)).1 != Cuts(Streaming.Flatten(Marked(0, sizes)))
  {
    hide UncompressAll, Cuts, Marked, Aligned, Streaming.Flatten;
    var bytes := Streaming.Flatten(Marked(0, sizes));
    var k := PiecedFrameLosesMagic(st, sizes);
    if k < |Cuts(bytes)| {
      CutStartsAt(bytes, k);
      MarkedAt(0, sizes, FRAME * k);
      DivUnique(FRAME * k, FRAME, k);
    }
  }

  /** The frames are those of the unsplit stream, whatever the bytes, exactly for the buffer sizes that never
      put a boundary inside a completed frame. */
  lemma SplitIsHarmlessIffAligned(st: Assembly, sizes: seq<nat>)
    requires st.n == 0
    ensures (forall bufs: seq<Bytes> :: Sizes(bufs) == sizes ==> UncompressAll(st, bufs).1 == Cuts(Streaming.Flatten(bufs)))
            <==> Aligned(0, sizes)
  {
    hide UncompressAll, Cuts, Marked, Aligned, Sizes;
    if Aligned(0, sizes) {
      forall bufs: seq<Bytes> | Sizes(bufs) == sizes ensures UncompressAll(st, bufs).1 == Cuts(Streaming.Flatten(bufs)) {
        AlignedIsCut(st, bufs);
      }
    } else {
      MarkedSizes(0, sizes);
      MarkedDiffers(st, sizes);
    }
  }

  // ----- the sizes sound_fill asks for

  /** max_per_buffer of a mapped GSM sound: 8192 * 1.65 / 16. */
  const MAX_PER_BUFFER: nat := BUFFER_SIZE * 165 / 1600

  /** The loop that makes it a multiple of the frame size. */
  method GsmFixedBufferSize(maxPerBuffer: nat) returns (size: nat)
    ensures size % FRAME == 0 && size <= maxPerBuffer < size + FRAME
  {
    size := maxPerBuffer;
    while size % FRAME != 0
      invariant maxPerBuffer - maxPerBuffer % FRAME <= size <= maxPerBuffer
    {
      size := size - 1;
    }
  }

  lemma {:induction false} FrameCount(st: Assembly, b: Bytes)
    ensures |Uncompress(st, b).1| == (st.n + |b|) / FRAME
    decreases |b|
  {
    if b != [] && st.n + Min(|b|, FRAME - st.n) == FRAME {
      var nbytes := FRAME - st.n;
      FrameCount(Assembly(Filled(st.frame, b[..nbytes]), 0), b[nbytes..]);
    }
  }

  /** 825 bytes, and up to 32 carried over, give at most 25 frames: 8000 of the 8192 bytes of a buffer. */
  lemma GsmExpansionFits(st: Assembly, b: Bytes)
    requires |b| <= MAX_PER_BUFFER - MAX_PER_BUFFER % FRAME
    ensures MAX_PER_BUFFER - MAX_PER_BUFFER % FRAME == 825
    ensures 320 * |Uncompress(st, b).1| <= 8000 < BUFFER_SIZE
  {
    FrameCount(st, b);
  }

  /** Buffers that are all full, the last one perhaps not, are aligned. */
  lemma {:induction false} FullBuffersAreAligned(sizes: seq<nat>)
    requires forall k :: 0 <= k < |sizes| - 1 ==> sizes[k] % FRAME == 0
    ensures Aligned(0, sizes)
    decreases |sizes|
  {
    if |sizes| > 1 {
      FullBuffersAreAligned(sizes[1..]);
    }
  }

  // ----- gsm_uncompress() on the mutable frame

  class FrameAssembler {
    const bitFrame: array<Byte>
    var bitFrameBytes: nat

    ghost predicate Valid()
      reads this
    {
      bitFrame.Length == FRAME && bitFrameBytes < FRAME
    }

    ghost function View(): Assembly
      requires Valid()
      reads this, bitFrame
    {
      Assembly(bitFrame[..], bitFrameBytes)
    }

    constructor ()
      ensures Valid() && fresh(bitFrame) && bitFrameBytes == 0
    {
      bitFrame := new Byte[33](_ => 0);
      bitFrameBytes := 0;
    }

    /** memcpy to the start of the frame. */
    method CopyToStart(b: Bytes, offset: nat, nbytes: nat)
      requires Valid() && offset + nbytes <= |b| && nbytes <= FRAME
      modifies bitFrame
      ensures bitFrame[..] == b[offset..offset + nbytes] + old(bitFrame[nbytes..])
    {
      var i := 0;
      while i < nbytes
        invariant 0 <= i <= nbytes
        invariant forall j :: 0 <= j < i ==> bitFrame[j] == b[offset + j]
        invariant forall j :: i <= j < FRAME ==> bitFrame[j] == old(bitFrame[j])
      {
        bitFrame[i] := b[offset + i];
        i := i + 1;
      }
      assert bitFrame[..nbytes] == b[offset..offset + nbytes] && bitFrame[nbytes..] == old(bitFrame[nbytes..]);
      assert bitFrame[..] == bitFrame[..nbytes] + bitFrame[nbytes..];
    }

    /** gsm_uncompress() on one buffer; returns the frames it hands to gsm_decode. */
    method GsmUncompress(b: Bytes) returns (frames: seq<Bytes>)
      requires Valid()
      modifies this, bitFrame
      ensures Valid() && (View(), frames) == Uncompress(old(View()), b)
    {
      ghost var st := View();
      frames := [];
      var offset := 0;
      var more := true;
      assert b[0..] == b && [] + Uncompress(st, b).1 == Uncompress(st, b).1;
      while more
        invariant Valid() && offset <= |b|
        invariant offset == |b| || more
        invariant Uncompress(st, b) == (Uncompress(View(), b[offset..]).0, frames + Uncompress(View(), b[offset..]).1)
        decreases more, |b| - offset
      {
        ghost var before, rest := View(), b[offset..];
        var nbytes := if |b| - offset < FRAME - bitFrameBytes then |b| - offset else FRAME - bitFrameBytes;
        CopyToStart(b, offset, nbytes);
        assert bitFrame[..] == Filled(before.frame, rest[..nbytes]);
        assert b[offset..offset + nbytes] == rest[..nbytes] && b[offset + nbytes..] == rest[nbytes..];
        Piece(before, rest, nbytes, bitFrame[..]);
        ghost var done := frames;
        offset := offset + nbytes;
        bitFrameBytes := bitFrameBytes + nbytes;
        if bitFrameBytes == FRAME {
          frames := frames + [bitFrame[..]];
          bitFrameBytes := 0;
          ghost var later := Uncompress(View(), b[offset..]).1;
          assert done + ([bitFrame[..]] + later) == frames + later;
        }
        more := offset < |b|;
      }
      assert frames + [] == frames;
    }
  }

  /** One piece: a completed frame, or all that the buffer has. */
  lemma Piece(st: Assembly, b: Bytes, nbytes: nat, frame: Bytes)
    requires nbytes == Min(|b|, FRAME - st.n) && frame == Filled(st.frame, b[..nbytes])
    ensures st.n + nbytes == FRAME ==>
      Uncompress(st, b) == (Uncompress(Assembly(frame, 0), b[nbytes..]).0, [frame] + Uncompress(Assembly(frame, 0), b[nbytes..]).1)
    ensures st.n + nbytes < FRAME ==>
      b[nbytes..] == [] && Uncompress(st, b) == (Assembly(frame, st.n + nbytes), [])
    ensures b == [] ==> frame == st.frame
  {
    hide Filled, Uncompress;
    if b == [] {
      NothingFilled(st.frame);
      assert b[..nbytes] == [] && Assembly(frame, st.n + nbytes) == st;
      EmptyBuffer(st);
    } else {
      OnePiece(st, b, nbytes);
    }
  }

  lemma EmptyBuffer(st: Assembly)
    ensures Uncompress(st, []) == (st, [])
  {
  }

  lemma OnePiece(st: Assembly, b: Bytes, nbytes: nat)
    requires b != [] && nbytes == Min(|b|, FRAME - st.n)
    ensures Uncompress(st, b)
         == if st.n + nbytes == FRAME then
              (Uncompress(Assembly(Filled(st.frame, b[..nbytes]), 0), b[nbytes..]).0,
               [Filled(st.frame, b[..nbytes])] + Uncompress(Assembly(Filled(st.frame, b[..nbytes]), 0), b[nbytes..]).1)
            else (Assembly(Filled(st.frame, b[..nbytes]), st.n + nbytes), [])
  {
    hide Filled;
  }

  lemma NothingFilled(frame: Bytes)
    ensures Filled(frame, []) == frame
  {
  }
}
