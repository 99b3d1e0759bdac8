/** The codec state `struct gsm_state` (gsm/private.h:18-38, gsm/gsm_create.c). */
module GsmState {
  import opened FixedPoint

  /** Range of the down-scaled samples, asserted at gsm/preprocess.c:40-41. */
  predicate IsDownscaled(x: int) {
    -0x4000 <= x <= 0x3FFC
  }

  /** The recursive filter memory stays within a fixed distance of the last sample. */
  predicate OffsetBounded(z1: int, lz2: int) {
    && IsDownscaled(z1)
    && -(16380 * 0x8000 + 497) <= lz2 - z1 * 0x8000 <= 0x2000_0000 + 497
  }

  class Codec {
    const dp0: array<Word>      // reconstructed residual window, 280 words
    var z1: Word                // offset compensation
    var lz2: LongWord
    var mp: Word                // pre-emphasis
    const u: array<Word>        // short term analysis memory, 8 words
    const larpp0: array<Word>   // LARpp[0] and LARpp[1], 8 words each
    const larpp1: array<Word>
    var j: int                  // which LARpp row receives the next frame
    var nrp: Word               // last valid lag
    const v: array<Word>        // short term synthesis memory, 9 words
    var msr: Word               // de-emphasis

    ghost predicate Valid()
      reads this
    {
      && dp0.Length == 280 && u.Length == 8 && v.Length == 9
      && larpp0.Length == 8 && larpp1.Length == 8
      && dp0 != u && dp0 != v && dp0 != larpp0 && dp0 != larpp1
      && u != v && u != larpp0 && u != larpp1
      && v != larpp0 && v != larpp1 && larpp0 != larpp1
      && 0 <= j <= 1
      && 40 <= nrp <= 120
      && OffsetBounded(z1, lz2)
    }

    /** The objects a codec call may change. */
    ghost function Repr(): set<object> {
      {this, dp0, u, v, larpp0, larpp1}
    }

    /** gsm_create: everything zero, except the lag. */
    constructor ()
      ensures Valid() && fresh(Repr() - {this})
      ensures z1 == 0 && lz2 == 0 && mp == 0 && j == 0 && nrp == 40 && msr == 0
      ensures dp0[..] == seq(280, _ => 0) && u[..] == seq(8, _ => 0) && v[..] == seq(9, _ => 0)
      ensures larpp0[..] == seq(8, _ => 0) && larpp1[..] == seq(8, _ => 0)
    {
      dp0 := new Word[280](_ => 0);
      u := new Word[8](_ => 0);
      v := new Word[9](_ => 0);
      larpp0 := new Word[8](_ => 0);
      larpp1 := new Word[8](_ => 0);
      z1, lz2, mp, j, nrp, msr := 0, 0, 0, 0, 40, 0;
    }
  }
}
