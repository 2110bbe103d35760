/** The ALAC block coder as a pair of functions, and what a list of packets means. */
module AlacStream {
  import opened Bits
  import opened Chunks
  import opened AlacTable

  /** What the block buffer and the callers' buffers hold. */
  type Sample = x: int | IsInt32(x)

  const MAX_FRAME_SIZE := 8192
  const BYTE_BUFFER_SIZE := 8 * 0x2_0000

  /** The block coder. What the encoder makes of a block may depend on the blocks before it; the
      decoder starts afresh on every packet. `channels` samples make a frame. */
  datatype BlockCodec = BlockCodec(channels: int,
                                   encode: (seq<seq<Sample>>, seq<Sample>) -> seq<Byte>,
                                   decode: seq<Byte> -> seq<Sample>) {

    /** Samples in so many frames. */
    function Flat(frames: int): int { frames * channels }

    /** What encoder and decoder are handed fits their buffers. */
    ghost predicate Valid()
    {
      && 1 <= channels <= 8
      && (forall h, b :: Codable(b) ==> 0 < |encode(h, b)| <= BYTE_BUFFER_SIZE)
      && (forall p :: |decode(p)| <= Flat(FRAME_LENGTH) && Aligned(|decode(p)|))
    }

    predicate Aligned(n: int)
      requires 1 <= channels
    {
      n % channels == 0
    }

    predicate Codable(b: seq<Sample>)
      requires 1 <= channels
    {
      0 < |b| <= Flat(FRAME_LENGTH) && Aligned(|b|)
    }

    lemma FlatSum(a: int, b: int)
      ensures Flat(a + b) == Flat(a) + Flat(b) && Flat(a - b) == Flat(a) - Flat(b)
    {
    }

    lemma FlatOrder(a: int, b: int)
      requires 1 <= channels
      ensures a < b ==> Flat(a) + channels <= Flat(b)
      ensures a == b <==> Flat(a) == Flat(b)
      ensures a <= b <==> Flat(a) <= Flat(b)
    {
      if a < b { MulMono(b - a - 1); FlatSum(b, a); FlatSum(b - a, 1); }
      if b < a { MulMono(a - b - 1); FlatSum(a, b); FlatSum(a - b, 1); }
    }

    lemma MulMono(n: int)
      requires 1 <= channels && n >= 0
      ensures Flat(n) >= 0
      decreases n
    {
      if n > 0 { MulMono(n - 1); FlatSum(n, 1); }
    }

    lemma NoFrames(n: nat)
      requires 1 <= channels
      ensures Flat(0) == 0 <= Flat(n)
    {
      MulMono(n);
    }

    /** Whole frames and back. */
    lemma FlatQuotient(n: int)
      requires 1 <= channels && Aligned(n)
      ensures Flat(n / channels) == n
    {
    }

    lemma AlignedFlat(f: int)
      requires 1 <= channels
      ensures Aligned(Flat(f)) && Flat(f) / channels == f
    {
      DivUnique(Flat(f), channels, f, 0);
    }

    lemma AlignedSum(a: int, b: int)
      requires 1 <= channels && Aligned(a) && Aligned(b)
      ensures Aligned(a + b) && Aligned(a - b)
    {
      FlatQuotient(a);
      FlatQuotient(b);
      FlatSum(a / channels, b / channels);
      AlignedFlat(a / channels + b / channels);
      AlignedFlat(a / channels - b / channels);
    }
  }

  /** The packets of a run of blocks. */
  function Packets(codec: BlockCodec, blocks: seq<seq<Sample>>): (r: seq<seq<Byte>>)
    ensures |r| == |blocks|
  {
    if blocks == [] then []
    else
      var before := blocks[..|blocks| - 1];
      Packets(codec, before) + [codec.encode(before, blocks[|blocks| - 1])]
  }

  lemma {:induction false} PacketsAt(codec: BlockCodec, blocks: seq<seq<Sample>>, k: nat)
    requires k < |blocks|
    ensures Packets(codec, blocks)[k] == codec.encode(blocks[..k], blocks[k])
    decreases |blocks|
  {
    var last := |blocks| - 1;
    if k < last {
      PacketsAt(codec, blocks[..last], k);
      assert blocks[..last][..k] == blocks[..k];
    }
  }

  predicate Sized(packets: seq<seq<Byte>>) { forall k :: 0 <= k < |packets| ==> 0 < |packets[k]| <= BYTE_BUFFER_SIZE }

  function Lengths(packets: seq<seq<Byte>>): (r: seq<Word32>)
    requires Sized(packets)
    ensures |r| == |packets| && forall k :: 0 <= k < |r| ==> r[k] == |packets[k]|
  {
    seq(|packets|, k requires 0 <= k < |packets| => |packets[k]|)
  }

  ghost predicate AllCodable(codec: BlockCodec, blocks: seq<seq<Sample>>)
    requires 1 <= codec.channels
  {
    forall k :: 0 <= k < |blocks| ==> codec.Codable(blocks[k])
  }

  /** The sizes in the table add up to the bytes of the packets. */
  lemma {:induction false} SumOfLengths(packets: seq<seq<Byte>>)
    requires Sized(packets)
    ensures Sum(Lengths(packets)) == |Flatten(packets)|
  {
    if packets != [] {
      var last := |packets| - 1;
      SumOfLengths(packets[..last]);
      assert Lengths(packets[..last]) == Lengths(packets)[..last];
      assert Lengths(packets)[..last + 1] == Lengths(packets);
      SumOneMore(Lengths(packets), last);
    }
  }
}
