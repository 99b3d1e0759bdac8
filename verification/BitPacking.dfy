/** The bit stream of ADPCM codes (pack_output in adpcm/encode.c, unpack_input in adpcm/decode.c).

  Codes of 3, 4 or 5 bits are packed into bytes with the first code in the low bits.  A buffer that
  holds `n` bits is a number below 2^n, so `buffer |= x << n` is the addition of x * 2^n.
 */
module BitPacking {
  import opened FixedPoint

  // ----- words and bits

  /** The low `n` bits of `x`, lowest first. */
  function Bits(x: nat, n: nat): (bits: seq<bool>)
    ensures |bits| == n
  {
    if n == 0 then [] else [x % 2 == 1] + Bits(x / 2, n - 1)
  }

  function Value(bits: seq<bool>): nat {
    if bits == [] then 0 else (if bits[0] then 1 else 0) + 2 * Value(bits[1..])
  }

  /** c << n. */
  function Shl(c: nat, n: nat): nat {
    MulMono(0, c, Pow2(n));
    c * Pow2(n)
  }

  /** The words as one stream of `w`-bit fields. */
  function BitsOf(words: seq<nat>, w: nat): (bits: seq<bool>)
    ensures |bits| == |words| * w
  {
    if words == [] then []
    else
      var n := |words| - 1;
      Distribute(n, 1, w);
      BitsOf(words[..n], w) + Bits(words[n], w)
  }

  /** A stream cut into `w`-bit words; an incomplete last word is dropped. */
  function Words(bits: seq<bool>, w: nat): seq<nat>
    requires w > 0
  {
    if |bits| < w then [] else [Value(bits[..w])] + Words(bits[w..], w)
  }

  predicate Fit(words: seq<nat>, w: nat) {
    forall k :: 0 <= k < |words| ==> words[k] < Pow2(w)
  }

  lemma {:induction false} BitsAppend(x: nat, n: nat, c: nat, m: nat)
    requires x < Pow2(n)
    ensures Bits(x + Shl(c, n), n + m) == Bits(x, n) + Bits(c, m)
  {
    if n == 0 {
      assert Pow2(0) == 1;
    } else {
      var y := Shl(c, n - 1);
      assert Shl(c, n) == 2 * y by {
        MulAssoc(c, 2, Pow2(n - 1));
        MulAssoc(2, c, Pow2(n - 1));
      }
      hide Shl;
      BitsAppend(x / 2, n - 1, c, m);
      assert (x + 2 * y) % 2 == x % 2 && (x + 2 * y) / 2 == x / 2 + y;
    }
  }

  lemma {:induction false} ValueOfBits(x: nat, n: nat)
    requires x < Pow2(n)
    ensures Value(Bits(x, n)) == x
  {
    if n > 0 {
      ValueOfBits(x / 2, n - 1);
    }
  }

  lemma {:induction false} BitsOfConcat(a: seq<nat>, b: seq<nat>, w: nat)
    ensures BitsOf(a + b, w) == BitsOf(a, w) + BitsOf(b, w)
  {
    hide Bits, BitsOf;
    if b == [] {
      assert a + b == a;
      BitsOfNothing(w, []);
    } else {
      var n := |b| - 1;
      BitsOfConcat(a, b[..n], w);
      BitsOfLast(a + b, w);
      BitsOfLast(b, w);
      assert (a + b)[..|a + b| - 1] == a + b[..n];
      Regroup(BitsOf(a, w), BitsOf(b[..n], w), Bits(b[n], w));
    }
  }

  lemma BitsOfLast(words: seq<nat>, w: nat)
    requires words != []
    ensures BitsOf(words, w) == BitsOf(words[..|words| - 1], w) + Bits(words[|words| - 1], w)
  {
  }

  lemma BitsOfFirst(words: seq<nat>, w: nat, k: nat)
    requires k < |words|
    ensures BitsOf(words[k..], w) == Bits(words[k], w) + BitsOf(words[k + 1..], w)
  {
    BitsOfOne(words[k], w);
    BitsOfConcat([words[k]], words[k + 1..], w);
    hide Bits, BitsOf;
    assert [words[k]] + words[k + 1..] == words[k..];
  }

  lemma BitsOfOne(x: nat, w: nat)
    ensures BitsOf([x], w) == Bits(x, w)
  {
    assert [x][..0] == [];
  }

  lemma BitsOfNothing(w: nat, tail: seq<bool>)
    ensures BitsOf([], w) + tail == tail
  {
  }

  /** Cutting undoes joining. */
  lemma {:induction false} WordsOfBitsOf(words: seq<nat>, w: nat, tail: seq<bool>)
    requires w > 0 && Fit(words, w) && |tail| < w
    ensures Words(BitsOf(words, w) + tail, w) == words
  {
    hide Bits, BitsOf, Value, Pow2;
    if words == [] {
      BitsOfNothing(w, tail);
    } else {
      var rest := words[1..];
      assert words == [words[0]] + rest;
      BitsOfConcat([words[0]], rest, w);
      BitsOfOne(words[0], w);
      ValueOfBits(words[0], w);
      WordsOfBitsOf(rest, w, tail);
      var bits := BitsOf(words, w) + tail;
      assert bits[..w] == Bits(words[0], w);
      assert bits[w..] == BitsOf(rest, w) + tail;
    }
  }

  // ----- the packed form of a list of codes

  predicate IsCodeSize(bits: nat) {
    3 <= bits <= 5
  }

  /** How many zero codes the flush loop adds when `pending` bits are left over. */
  function FlushCount(pending: nat, bits: nat): (k: nat)
    ensures k <= 7
  {
    if bits == 4 then pending / 4 % 2 else pending * (8 - bits) % 8
  }

  function ZeroCodes(k: nat): (z: seq<nat>)
    ensures |z| == k
  {
    seq(k, _ => 0)
  }

  /** The codes with the zero codes that the flush adds. */
  function Padded(codes: seq<nat>, bits: nat): seq<nat> {
    codes + ZeroCodes(FlushCount(|codes| * bits % 8, bits))
  }

  /** What encode.c writes for the codes, and what decode.c reads from the bytes. */
  function Packed(codes: seq<nat>, bits: nat): seq<nat> {
    Words(BitsOf(Padded(codes, bits), bits), 8)
  }

  function Unpacked(bytes: seq<nat>, bits: nat): seq<nat>
    requires bits > 0
  {
    Words(BitsOf(bytes, 8), bits)
  }

  lemma {:induction false} BitsOfValue(bits: seq<bool>)
    ensures Value(bits) < Pow2(|bits|) && Bits(Value(bits), |bits|) == bits
  {
    if bits != [] {
      BitsOfValue(bits[1..]);
      assert bits == [bits[0]] + bits[1..];
    }
  }

  /** Joining undoes cutting when nothing is dropped. */
  lemma {:induction false} BitsOfWords(bits: seq<bool>, w: nat)
    requires w > 0 && |bits| % w == 0
    ensures BitsOf(Words(bits, w), w) == bits && Fit(Words(bits, w), w)
  {
    hide Value;
    hide Bits;
    hide BitsOf;
    hide Pow2;
    if |bits| >= w {
      DropOneWord(|bits|, w);
      BitsOfWords(bits[w..], w);
      BitsOfValue(bits[..w]);
      var rest := Words(bits[w..], w);
      assert Words(bits, w) == [Value(bits[..w])] + rest;
      BitsOfConcat([Value(bits[..w])], rest, w);
      BitsOfOne(Value(bits[..w]), w);
      assert bits == bits[..w] + bits[w..];
    } else {
      assert BitsOf([], w) == [];
      ShorterThanAWord(|bits|, w);
    }
  }

  lemma ShorterThanAWord(n: nat, w: nat)
    requires n < w && n % w == 0
    ensures n == 0
  {
  }

  lemma DropOneWord(n: nat, w: nat)
    requires 0 < w <= n && n % w == 0
    ensures (n - w) % w == 0
  {
    var q := n / w;
    Distribute(q, 1, w);
    RemainderOfMultiple(q - 1, w);
  }

  lemma RemainderOfMultiple(q: int, w: nat)
    requires w > 0
    ensures q * w % w == 0
  {
    DivUnique(q * w, w, q);
  }

  /** The flush always reaches a byte boundary. */
  lemma PaddedFillsBytes(n: nat, bits: nat)
    requires IsCodeSize(bits)
    ensures (n + FlushCount(n * bits % 8, bits)) * bits % 8 == 0
  {
    var k := FlushCount(n * bits % 8, bits);
    if bits == 4 { PendingOfFour(n); }
    FlushReachesByte(n * bits % 8, bits);
    hide FlushCount;
    Distribute(n, k, bits);
    AddModulo(n * bits, k * bits);
  }

  lemma FlushReachesByte(pending: nat, bits: nat)
    requires IsCodeSize(bits) && pending < 8 && (bits == 4 ==> pending % 4 == 0)
    ensures (pending + FlushCount(pending, bits) * bits) % 8 == 0
  {
  }

  /** The round trip of encode.c and decode.c: the codes come back, followed by at most seven zero codes. */
  lemma PackingRoundTrip(codes: seq<nat>, bits: nat)
    requires IsCodeSize(bits) && Fit(codes, bits)
    ensures Unpacked(Packed(codes, bits), bits) == codes + ZeroCodes(FlushCount(|codes| * bits % 8, bits))
    ensures Fit(Packed(codes, bits), 8)
  {
    var padded := Padded(codes, bits);
    PaddedFillsBytes(|codes|, bits);
    assert Pow2(bits) > 0;
    BitsOfWords(BitsOf(padded, bits), 8);
    WordsOfBitsOf(padded, bits, []);
    assert BitsOf(padded, bits) + [] == BitsOf(padded, bits);
  }

  // ----- pack_output

  class Packer {
    var outBuffer: nat
    var outBits: nat
    var output: seq<nat>   // the bytes written so far

    ghost predicate Valid()
      reads this
    {
      outBits < 8 && outBuffer < Pow2(outBits) && Fit(output, 8)
    }

    /** Every bit packed so far, written or pending. */
    ghost function Stream(): seq<bool>
      reads this
    {
      BitsOf(output, 8) + Bits(outBuffer, outBits)
    }

    constructor ()
      ensures Valid() && output == [] && outBits == 0 && Stream() == []
    {
      outBuffer, outBits, output := 0, 0, [];
      new;
      assert BitsOf([], 8) == [];
    }

    method PackOutput(code: nat, bits: nat) returns (resid: bool)
      requires Valid() && IsCodeSize(bits) && code < Pow2(bits)
      modifies this
      ensures Valid() && Stream() == old(Stream()) + Bits(code, bits)
      ensures outBits == (old(outBits) + bits) % 8 && resid == (outBits > 0)
    {
      hide Bits, BitsOf, Fit, Pow2, Shl, Unpacker.Valid;
      BitsAppend(outBuffer, outBits, code, bits);
      BufferRange(outBuffer, outBits, code, bits);
      outBuffer := outBuffer + Shl(code, outBits);
      outBits := outBits + bits;
      assert Stream() == old(Stream()) + Bits(code, bits);
      if outBits >= 8 {
        EmitByte(output, outBuffer, outBits);
        output := output + [outBuffer % 0x100];
        outBits := outBits - 8;
        outBuffer := outBuffer / 0x100;
      }
      return outBits > 0;
    }
  }

  /** Moving the low byte of the buffer to the output keeps the stream. */
  lemma EmitByte(output: seq<nat>, buffer: nat, n: nat)
    requires n >= 8 && buffer < Pow2(n) && Fit(output, 8)
    ensures BitsOf(output + [buffer % 0x100], 8) + Bits(buffer / 0x100, n - 8) == BitsOf(output, 8) + Bits(buffer, n)
    ensures buffer / 0x100 < Pow2(n - 8) && Fit(output + [buffer % 0x100], 8)
  {
    hide Bits;
    hide BitsOf;
    assert Pow2(8) == 0x100 by { Pow2Values(); }
    CutBuffer(buffer, n, 8);
    hide Pow2;
    BitsOfConcat(output, [buffer % 0x100], 8);
    BitsOfOne(buffer % 0x100, 8);
  }

  lemma BufferRange(x: nat, n: nat, c: nat, m: nat)
    requires x < Pow2(n) && c < Pow2(m)
    ensures x + Shl(c, n) < Pow2(n + m)
  {
    Pow2Add(m, n);
    MulMono(c + 1, Pow2(m), Pow2(n));
    Distribute(c, 1, Pow2(n));
    MulMono(0, c, Pow2(n));
  }

  lemma NextPending(k: nat, bits: nat)
    ensures (k * bits % 8 + bits) % 8 == (k + 1) * bits % 8
  {
    Distribute(k, 1, bits);
    AddModulo(k * bits, bits);
  }

  lemma AddModulo(x: nat, y: nat)
    ensures (x % 8 + y) % 8 == (x + y) % 8
  {
  }

  lemma FlushStep(pending: nat, bits: nat)
    requires IsCodeSize(bits) && 0 < pending < 8 && (bits == 4 ==> pending % 4 == 0)
    ensures FlushCount((pending + bits) % 8, bits) == FlushCount(pending, bits) - 1
  {
  }

  lemma PendingOfFour(k: nat)
    ensures k * 4 % 8 % 4 == 0
  {
  }

  lemma NothingPending(bits: nat)
    ensures FlushCount(0, bits) == 0
  {
  }

  /** The flush loop of encode.c: zero codes until nothing is pending. */
  method Flush(packer: Packer, pending: bool, bits: nat, ghost codes: seq<nat>)
    requires packer.Valid() && IsCodeSize(bits) && Fit(codes, bits)
    requires packer.Stream() == BitsOf(codes, bits) && packer.outBits == |codes| * bits % 8
    requires pending == (packer.outBits > 0)
    modifies packer
    ensures packer.output == Packed(codes, bits)
  {
    hide Pow2, Bits, BitsOf, Words, FlushCount;
    var resid := pending;
    ghost var j := 0;
    assert codes + ZeroCodes(0) == codes;
    while resid
      invariant packer.Valid()
      invariant packer.Stream() == BitsOf(codes + ZeroCodes(j), bits)
      invariant packer.outBits == (|codes| + j) * bits % 8 && resid == (packer.outBits > 0)
      invariant j + FlushCount(packer.outBits, bits) == FlushCount(|codes| * bits % 8, bits)
      decreases FlushCount(packer.outBits, bits)
    {
      if bits == 4 { PendingOfFour(|codes| + j); }
      FlushStep(packer.outBits, bits);
      NextPending(|codes| + j, bits);
      resid := packer.PackOutput(0, bits);
      BitsOfConcat(codes + ZeroCodes(j), [0], bits);
      BitsOfOne(0, bits);
      assert codes + ZeroCodes(j) + [0] == codes + ZeroCodes(j + 1);
      j := j + 1;
    }
    NothingPending(bits);
    assert Bits(packer.outBuffer, 0) == [];
    assert packer.Stream() == BitsOf(packer.output, 8) + [];
    WordsOfBitsOf(packer.output, 8, []);
  }

  // ----- unpack_input

  class Unpacker {
    var inBuffer: nat
    var inBits: nat
    var position: nat
    const input: seq<nat>

    ghost predicate Valid()
      reads this
    {
      position <= |input| && inBuffer < Pow2(inBits) && Fit(input, 8)
    }

    /** The bits not yet handed out. */
    ghost function Rest(): seq<bool>
      requires Valid()
      reads this
    {
      Bits(inBuffer, inBits) + BitsOf(input[position..], 8)
    }

    constructor (bytes: seq<nat>)
      requires Fit(bytes, 8)
      ensures Valid() && input == bytes && Rest() == BitsOf(bytes, 8)
      ensures inBits == 0
    {
      inBuffer, inBits, position, input := 0, 0, 0, bytes;
      new;
      assert bytes[0..] == bytes;
    }

    /** -1 at the end of the input, else whether bits are left over.  The codes are the stream, cut. */
    method UnpackInput(bits: nat) returns (status: int, code: nat)
      requires Valid() && IsCodeSize(bits)
      modifies this
      ensures Valid()
      ensures status == -1 <==> |old(Rest())| < bits
      ensures status == -1 ==> Rest() == old(Rest()) && code == 0
      ensures status != -1 ==> code < Pow2(bits) && old(Rest()) == Bits(code, bits) + Rest()
      ensures status != -1 ==> status == if inBits > 0 then 1 else 0
    {
      hide Bits, BitsOf, Packer.Valid, Pow2, Shl;
      if inBits < bits {
        if position == |input| {
          assert BitsOf([], 8) == [];
          return -1, 0;
        }
        LoadByte(inBuffer, inBits, input, position);
        inBuffer := inBuffer + Shl(input[position], inBits);
        inBits := inBits + 8;
        position := position + 1;
        assert Rest() == old(Rest());
      }
      CutBuffer(inBuffer, inBits, bits);
      code := inBuffer % Pow2(bits);
      inBuffer := inBuffer / Pow2(bits);
      inBits := inBits - bits;
      status := if inBits > 0 then 1 else 0;
    }
  }

  /** Moving the next byte of the input above the buffer keeps the rest of the stream. */
  lemma LoadByte(buffer: nat, n: nat, input: seq<nat>, k: nat)
    requires buffer < Pow2(n) && k < |input| && Fit(input, 8)
    ensures var loaded := buffer + Shl(input[k], n);
            && loaded < Pow2(n + 8)
            && Bits(loaded, n + 8) + BitsOf(input[k + 1..], 8) == Bits(buffer, n) + BitsOf(input[k..], 8)
  {
    hide Bits, BitsOf, Pow2, Shl;
    var c := input[k];
    BufferRange(buffer, n, c, 8);
    BitsAppend(buffer, n, c, 8);
    BitsOfFirst(input, 8, k);
    Regroup(Bits(buffer, n), Bits(c, 8), BitsOf(input[k + 1..], 8));
  }

  lemma Regroup(a: seq<bool>, b: seq<bool>, c: seq<bool>)
    ensures a + b + c == a + (b + c)
  {
  }

  lemma CutBuffer(x: nat, n: nat, m: nat)
    requires m <= n && x < Pow2(n)
    ensures 0 <= x % Pow2(m) < Pow2(m) && 0 <= x / Pow2(m) < Pow2(n - m)
    ensures Bits(x, n) == Bits(x % Pow2(m), m) + Bits(x / Pow2(m), n - m)
  {
    var p := Pow2(m);
    hide Pow2;
    QuotientBrackets(x, p);
    Pow2Add(n - m, m);
    QuotientBetween(x, p, 0, Pow2(n - m));
    assert x % p == x - x / p * p;
    BitsAppend(x % p, m, x / p, n - m);
  }
}
