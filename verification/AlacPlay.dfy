/** What a packet table and a file deliver when the packets are decoded one after another, and
    where in that stream the blocks begin. */
module AlacPlay {
  import opened Bits
  import opened Chunks
  import opened AlacTable
  import opened AlacStream

  /** The packet is in the table, fits the byte buffer and lies within the file. */
  predicate Playable(sizes: seq<Word32>, file: seq<Byte>, cur: nat, pos: nat)
  {
    cur < |sizes| && 0 < sizes[cur] <= BYTE_BUFFER_SIZE && pos + sizes[cur] <= |file|
  }

  /** In numbers: a packet of 1 MiB is the longest. */
  lemma LongestPacket(size: Word32, file: seq<Byte>, pos: nat)
    ensures Playable([size], file, 0, pos) <==> 0 < size <= 1024 * 1024 && pos + size <= |file|
  {
  }

  /** All samples from packet `cur`, which starts at byte `pos`, to the first one that fails. */
  function Stream(codec: BlockCodec, sizes: seq<Word32>, file: seq<Byte>, cur: nat, pos: nat): (r: seq<Sample>)
    decreases |sizes| - cur
  {
    if Playable(sizes, file, cur, pos) then
      codec.decode(file[pos..pos + sizes[cur]]) + Stream(codec, sizes, file, cur + 1, pos + sizes[cur])
    else []
  }

  /** A table that describes the file: every packet within it, a 0 at most at the end. */
  predicate Intact(sizes: seq<Word32>, file: seq<Byte>, offset: nat)
  {
    && (forall k :: 0 <= k < |sizes| ==> sizes[k] <= BYTE_BUFFER_SIZE && (sizes[k] == 0 ==> k == |sizes| - 1))
    && offset + Sum(sizes) <= |file|
  }

  /** The packets of an intact table. */
  function PacketCount(sizes: seq<Word32>): (n: nat)
    ensures |sizes| - 1 <= n <= |sizes|
  {
    if sizes != [] && sizes[|sizes| - 1] == 0 then |sizes| - 1 else |sizes|
  }

  /** Where packet `k` starts. */
  function At(sizes: seq<Word32>, offset: nat, k: nat): nat
    requires k <= |sizes|
  {
    offset + Sum(sizes[..k])
  }

  lemma AtNext(sizes: seq<Word32>, file: seq<Byte>, offset: nat, k: nat)
    requires Intact(sizes, file, offset) && k <= |sizes|
    ensures At(sizes, offset, k) <= |file|
    ensures k < |sizes| ==> At(sizes, offset, k + 1) == At(sizes, offset, k) + sizes[k] <= |file|
    ensures Playable(sizes, file, k, At(sizes, offset, k)) <==> k < PacketCount(sizes)
  {
    SumMonotone(sizes, k);
    if k < |sizes| {
      SumOneMore(sizes, k);
      SumMonotone(sizes, k + 1);
    }
  }

  /** The samples of packet `k`. */
  function BlockAt(codec: BlockCodec, sizes: seq<Word32>, file: seq<Byte>, offset: nat, k: nat): seq<Sample>
    requires Intact(sizes, file, offset) && k < PacketCount(sizes)
  {
    AtNext(sizes, file, offset, k);
    codec.decode(file[At(sizes, offset, k)..At(sizes, offset, k) + sizes[k]])
  }

  function StreamFrom(codec: BlockCodec, sizes: seq<Word32>, file: seq<Byte>, offset: nat, k: nat): seq<Sample>
    requires k <= |sizes|
  {
    Stream(codec, sizes, file, k, At(sizes, offset, k))
  }

  lemma StreamNext(codec: BlockCodec, sizes: seq<Word32>, file: seq<Byte>, offset: nat, k: nat)
    requires Intact(sizes, file, offset) && k <= |sizes|
    ensures k < PacketCount(sizes) ==>
              StreamFrom(codec, sizes, file, offset, k)
              == BlockAt(codec, sizes, file, offset, k) + StreamFrom(codec, sizes, file, offset, k + 1)
    ensures k >= PacketCount(sizes) ==> StreamFrom(codec, sizes, file, offset, k) == []
  {
    hide At, Intact, Playable, PacketCount;
    AtNext(sizes, file, offset, k);
    PlayableInTable(sizes, file, k, At(sizes, offset, k));
  }

  lemma PlayableInTable(sizes: seq<Word32>, file: seq<Byte>, cur: nat, pos: nat)
    ensures Playable(sizes, file, cur, pos) ==> cur < |sizes| && pos + sizes[cur] <= |file|
  {
  }

  /** Every block but the last is `fpb` frames long, the last one at most that. */
  predicate Regular(codec: BlockCodec, sizes: seq<Word32>, file: seq<Byte>, offset: nat, fpb: nat)
    requires Intact(sizes, file, offset)
  {
    forall k :: 0 <= k < PacketCount(sizes) ==>
      var n := |BlockAt(codec, sizes, file, offset, k)|;
      0 < n <= codec.Flat(fpb) && (k < PacketCount(sizes) - 1 ==> n == codec.Flat(fpb))
  }

  /** Block `j` begins at frame j * fpb. */
  lemma {:induction false} SkipBlocks(codec: BlockCodec, sizes: seq<Word32>, file: seq<Byte>, offset: nat, fpb: nat,
                                      j: nat)
    requires 1 <= codec.channels && Intact(sizes, file, offset) && Regular(codec, sizes, file, offset, fpb)
    requires j < PacketCount(sizes)
    ensures 0 <= codec.Flat(j * fpb) <= |StreamFrom(codec, sizes, file, offset, 0)|
    ensures StreamFrom(codec, sizes, file, offset, 0)[codec.Flat(j * fpb)..]
     == StreamFrom(codec, sizes, file, offset, j)
    decreases j
  {
    hide Intact, PacketCount, StreamFrom, BlockAt, BlockCodec.Flat;
    codec.FlatSum(0, 0);
    if j > 0 {
      SkipBlocks(codec, sizes, file, offset, fpb, j - 1);
      StreamNext(codec, sizes, file, offset, j - 1);
      assert (j - 1) * fpb + fpb == j * fpb;
      codec.FlatSum((j - 1) * fpb, fpb);
      DropTwice(StreamFrom(codec, sizes, file, offset, 0), codec.Flat((j - 1) * fpb),
                BlockAt(codec, sizes, file, offset, j - 1), StreamFrom(codec, sizes, file, offset, j));
    }
  }

  lemma DropTwice<T>(s: seq<T>, i: nat, a: seq<T>, b: seq<T>)
    requires i <= |s| && s[i..] == a + b
    ensures i + |a| <= |s| && s[i + |a|..] == b
  {
    assert s[i + |a|..] == s[i..][|a|..];
  }

  /** The whole stream, measured. */
  lemma {:induction false} StreamLength(codec: BlockCodec, sizes: seq<Word32>, file: seq<Byte>, offset: nat, fpb: nat)
    requires 1 <= codec.channels && Intact(sizes, file, offset) && Regular(codec, sizes, file, offset, fpb)
    ensures PacketCount(sizes) == 0 ==> StreamFrom(codec, sizes, file, offset, 0) == []
    ensures PacketCount(sizes) > 0 ==>
              var last := PacketCount(sizes) - 1;
              |StreamFrom(codec, sizes, file, offset, 0)|
              == codec.Flat(last * fpb) + |BlockAt(codec, sizes, file, offset, last)|
  {
    hide Intact, StreamFrom, BlockAt, BlockCodec.Flat;
    var last := PacketCount(sizes) - 1;
    if last < 0 {
      StreamNext(codec, sizes, file, offset, 0);
    } else {
      SkipBlocks(codec, sizes, file, offset, fpb, last);
      StreamNext(codec, sizes, file, offset, last);
      StreamNext(codec, sizes, file, offset, last + 1);
    }
  }
}
