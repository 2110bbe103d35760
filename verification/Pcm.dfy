/** What the ADPCM codecs share about 16-bit, channel-interleaved samples. */
module Pcm {
  import opened Bits

  function Clamp16(x: int): (r: int)
    ensures IsInt16(r)
  {
    if x > 32767 then 32767 else if x < -32768 then -32768 else x
  }

  /** The nearest 16-bit value. */
  lemma ClampNearest(x: int, y: int)
    requires IsInt16(y)
    ensures Abs(x - Clamp16(x)) <= Abs(x - y)
  {
  }

  predicate AllInt16(s: seq<int>) { forall i :: 0 <= i < |s| ==> IsInt16(s[i]) }

  /** The channel of sample `k`. */
  function Chan(ch: int, k: int): (c: int)
    requires ch == 1 || ch == 2
    ensures 0 <= c < ch
  {
    if ch > 1 then k % 2 else 0
  }
}
