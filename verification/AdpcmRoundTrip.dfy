/** ADPCM from samples to file and back, through the buffered writer and reader. */
module AdpcmRoundTrip {
  import opened Bits
  import opened Chunks
  import opened Pcm
  import opened AdpcmStream
  import opened AdpcmLevel
  import opened AdpcmFile

  /** How many whole blocks of `n` samples there are. */
  function BlockCount(n: int, s: seq<int>): (k: nat)
    requires n >= 1
    decreases |s|
  {
    if |s| < n then 0 else BlockCount(n, s[n..]) + 1
  }

  lemma {:induction false} StreamLength(codec: Codec, index: seq<int>, s: seq<int>)
    requires codec.Writable() && AllInt16(s) && codec.ValidCarry(index)
    ensures |EncodeStream(codec, index, s)| == Times(BlockCount(codec.BlockSamples(), s), codec.size)
    ensures |ReconstructStream(codec, index, s)| == |s| - |Leftover(codec.BlockSamples(), s)|
    decreases |s|
  {
    hide Codec.Encoded, Codec.Carry, Codec.BlockSamples, Codec.Reconstructed;
    var n := codec.BlockSamples();
    if |s| >= n { StreamLength(codec, codec.Carry(s[..n], index), s[n..]); }
  }

  predicate ValidChunks(codec: Codec, chunks: seq<seq<int>>)
    requires codec.Valid()
  {
    forall k :: 0 <= k < |chunks| ==> AllInt16(chunks[k]) && codec.Aligned(|chunks[k]|)
  }

  lemma EmptyStream(codec: Codec, index: seq<int>)
    requires codec.Writable() && codec.ValidCarry(index)
    ensures EncodeStream(codec, index, []) == [] && CarryStream(codec, index, []) == index
    ensures Leftover(codec.BlockSamples(), []) == []
  {
  }

  /** What fills up the last block: the buffer behind the started samples, where there are any, as
      the block before left it. */
  ghost function Padding(codec: Codec, all: seq<int>): (r: seq<int>)
    requires codec.Writable() && AllInt16(all)
    ensures |r| < codec.BlockSamples()
  {
    var n := codec.BlockSamples();
    var at := |Leftover(n, all)|;
    if at == 0 then [] else Residue(codec, StartCarry(codec), seq(n, _ => 0), all)[at..]
  }

  /** For one channel the whole buffer is cleared after every block. */
  lemma {:induction false} MonoResidue(codec: Codec, index: seq<int>, all: seq<int>)
    requires codec.Writable() && AllInt16(all) && codec.ValidCarry(index) && codec.channels == 1
    ensures var zeros: seq<int> := seq(codec.BlockSamples(), _ => 0); Residue(codec, index, zeros, all) == zeros
    decreases |all|
  {
    hide Codec.Carry, Codec.Worked, Codec.BlockSamples;
    var n := codec.BlockSamples();
    if |all| >= n {
      assert codec.AfterBlock(all[..n], index) == seq(n, _ => 0);
      MonoResidue(codec, codec.Carry(all[..n], index), all[n..]);
    }
  }

  lemma MonoPadding(codec: Codec, all: seq<int>)
    requires codec.Writable() && AllInt16(all) && codec.channels == 1
    ensures Padding(codec, all) == seq(|Padding(codec, all)|, _ => 0)
  {
    hide Codec.BlockSamples, Residue, Leftover;
    MonoResidue(codec, StartCarry(codec), all);
  }

  /** Any sequence of write calls, then close: the file holds the blocks of the joined samples and
      of what fills up the last one. For one channel that is silence. */
  method WriteAll(codec: Codec, chunks: seq<seq<int>>) returns (file: seq<Byte>)
    requires codec.Writable() && ValidChunks(codec, chunks)
    ensures AllInt16(Flatten(chunks)) && AllInt16(Flatten(chunks) + Padding(codec, Flatten(chunks)))
    ensures file == EncodeStream(codec, StartCarry(codec), Flatten(chunks) + Padding(codec, Flatten(chunks)))
    ensures Leftover(codec.BlockSamples(), Flatten(chunks) + Padding(codec, Flatten(chunks))) == []
    ensures codec.channels == 1 ==> Padding(codec, Flatten(chunks)) == seq(|Padding(codec, Flatten(chunks))|, _ => 0)
  {
    hide Codec.BlockSamples, Codec.Aligned, Codec.Encoded, EncodeStream, CarryStream, Leftover, DecodeStream, Residue,
         Adpcm.HoldsBehind;
    var w := new Adpcm.Writer(codec);
    ghost var index0, zeros := StartCarry(codec), seq(codec.BlockSamples(), _ => 0);
    assert w.stepindx == index0;
    EmptyStream(codec, index0);
    ResidueNone(codec, index0, zeros, []);
    var k := 0;
    while k < |chunks|
      invariant k <= |chunks| && fresh(w) && fresh(w.block) && fresh(w.samples) && w.codec == codec && w.WriterValid()
      invariant AllInt16(Flatten(chunks[..k]))
      invariant w.file == EncodeStream(codec, index0, Flatten(chunks[..k]))
      invariant w.stepindx == CarryStream(codec, index0, Flatten(chunks[..k]))
      invariant w.Pending() == Leftover(codec.BlockSamples(), Flatten(chunks[..k]))
      invariant w.HoldsBehind(Residue(codec, index0, zeros, Flatten(chunks[..k])))
    {
      FlattenOneMore(chunks, k);
      StreamSplit(codec, index0, Flatten(chunks[..k]), chunks[k]);
      ResidueSplit(codec, index0, zeros, Flatten(chunks[..k]), chunks[k]);
      var total := w.WriteBlock(chunks[k], Residue(codec, index0, zeros, Flatten(chunks[..k])));
      k := k + 1;
    }
    assert chunks[..k] == chunks;
    ghost var started := w.Pending();
    w.FlatOrder(0, w.samplecount);
    w.FlatLinear(w.samplecount);
    ghost var at := w.Flat(w.samplecount);
    w.HeldBehind(Residue(codec, index0, zeros, Flatten(chunks)));
    var last := w.Close();
    file := w.file;
    ghost var pad := if at == 0 then [] else last[at..];
    assert pad == Padding(codec, Flatten(chunks));
    Filled(codec, index0, Flatten(chunks), started, last, pad);
  }

  /** Filling up the last block. */
  lemma Filled(codec: Codec, index: seq<int>, all: seq<int>, started: seq<int>, last: seq<int>, pad: seq<int>)
    requires codec.Writable() && AllInt16(all) && codec.ValidCarry(index) && codec.ValidBlock(last)
    requires started == Leftover(codec.BlockSamples(), all) && |started| < |last| && last[..|started|] == started
    requires pad == if started == [] then [] else last[|started|..]
    ensures AllInt16(all + pad) && Leftover(codec.BlockSamples(), all + pad) == [] && |pad| < codec.BlockSamples()
    ensures EncodeStream(codec, index, all + pad)
         == EncodeStream(codec, index, all) +
            if started == [] then [] else codec.Encoded(last, CarryStream(codec, index, all))
  {
    hide Codec.BlockSamples, Codec.Encoded, EncodeStream, CarryStream, Leftover;
    var carry := CarryStream(codec, index, all);
    if started == [] {
      EmptyLast(all, pad);
      EmptyLast(EncodeStream(codec, index, all), []);
    } else {
      StreamSplit(codec, index, all, pad);
      assert started + pad == last;
      BlockFirst(codec, carry, last, []);
      EmptyLast(last, []);
      EmptyStream(codec, codec.Carry(last, carry));
      EmptyLast(codec.Encoded(last, carry), []);
    }
  }

  /** Any sequence of read calls delivers the decoded stream, in order. */
  method ReadAll(codec: Codec, file: seq<Byte>, count: nat, sizes: seq<nat>) returns (back: seq<int>)
    requires codec.Valid() && |file| == Times(count, codec.size) && count > 0
    requires forall k :: 0 <= k < |sizes| ==> codec.Aligned(sizes[k])
    requires Sum(sizes) <= |DecodeStream(codec, file)|
    ensures back == DecodeStream(codec, file)[..Sum(sizes)]
  {
    hide Codec.BlockSamples, Codec.Aligned, DecodeStream, Times;
    var r := new Adpcm.Reader(codec, file, count);
    ghost var all := DecodeStream(codec, file);
    back := [];
    var k := 0;
    assert all[0..] == all;
    while k < |sizes|
      invariant k <= |sizes| && fresh(r) && fresh(r.block) && fresh(r.samples) && r.codec == codec && r.ReaderValid()
      invariant Sum(sizes[..k]) <= |all| && back == all[..Sum(sizes[..k])] && r.Remaining() == all[Sum(sizes[..k])..]
    {
      SumOneMore(sizes, k);
      SumMonotone(sizes, k + 1);
      var at, n := Sum(sizes[..k]), sizes[k];
      SliceStep(all, at, n);
      var ptr, total := r.ReadBlock(sizes[k]);
      back := back + ptr;
      k := k + 1;
    }
    assert sizes[..k] == sizes;
  }

  /** The whole journey: however writes and reads are cut, the reader gets what the encoder
      reconstructed of every sample written, those of the last block included. For the IMA codec
      it does not matter what fills up the last block. Silence comes back as it was, and so does a
      level signal unless the last Microsoft block is filled up. */
  method RoundTrip(codec: Codec, chunks: seq<seq<int>>, sizes: seq<nat>) returns (back: seq<int>)
    requires codec.Writable() && ValidChunks(codec, chunks)
    requires forall k :: 0 <= k < |sizes| ==> codec.Aligned(sizes[k])
    requires Sum(sizes) <= |Flatten(chunks)|
    ensures AllInt16(Flatten(chunks)) && AllInt16(Flatten(chunks) + Padding(codec, Flatten(chunks)))
    ensures codec.channels == 1 ==> Padding(codec, Flatten(chunks)) == seq(|Padding(codec, Flatten(chunks))|, _ => 0)
    ensures StepsFitStream(codec, Flatten(chunks) + Padding(codec, Flatten(chunks))) ==>
              var all := ReconstructStream(codec, StartCarry(codec), Flatten(chunks) + Padding(codec, Flatten(chunks)));
              Sum(sizes) <= |Flatten(chunks)| <= |all| && back == all[..Sum(sizes)]
    ensures codec.WavIma? ==>
              var all := Flatten(chunks) + seq(|Padding(codec, Flatten(chunks))|, _ => 0);
              && AllInt16(all) && Sum(sizes) <= |ReconstructStream(codec, StartCarry(codec), all)|
              && back == ReconstructStream(codec, StartCarry(codec), all)[..Sum(sizes)]
    ensures Level(codec.channels, Flatten(chunks)) && (codec.WavIma? || Padding(codec, Flatten(chunks)) == []) ==>
              back == Flatten(chunks)[..Sum(sizes)]
    ensures Silent(Flatten(chunks)) ==> back == Flatten(chunks)[..Sum(sizes)]
  {
    hide Codec.BlockSamples, Codec.Aligned, EncodeStream, DecodeStream, ReconstructStream, StepsFitStream, Leftover,
         Times, Padding, Level, Silent;
    var file := WriteAll(codec, chunks);
    ghost var pad := Padding(codec, Flatten(chunks));
    ghost var all := Flatten(chunks) + pad;
    StreamLength(codec, StartCarry(codec), all);
    if StepsFitStream(codec, all) { StreamRoundTrip(codec, StartCarry(codec), all); }
    var count := |file| / codec.size;
    WholeBlocks(count, BlockCount(codec.BlockSamples(), all), |file|, codec.size);
    SomeBlocks(codec, all);
    DecodeLength(codec, file, count);
    if codec.WavIma? { AsIfSilence(codec, Flatten(chunks), pad, Sum(sizes)); }
    FlattenAligned(codec, chunks);
    if (Level(codec.channels, Flatten(chunks)) && (codec.WavIma? || pad == [])) || Silent(Flatten(chunks)) {
      LevelBack(codec, Flatten(chunks), pad);
    }
    if count == 0 {
      return [];
    }
    back := ReadAll(codec, file, count, sizes);
  }

  /** A level signal in front of what fills up the last block. */
  lemma {:induction false} LevelBack(codec: Codec, all: seq<int>, pad: seq<int>)
    requires codec.Writable() && AllInt16(all) && AllInt16(all + pad)
    requires codec.Aligned(|all|) && pad == Padding(codec, all)
    requires Leftover(codec.BlockSamples(), all + pad) == []
    requires (Level(codec.channels, all) && (codec.WavIma? || pad == [])) || Silent(all)
    ensures var r := ReconstructStream(codec, StartCarry(codec), all + pad); |all| <= |r| && r[..|all|] == all
    ensures codec.MsAdpcm? ==> StepsFitStream(codec, all + pad)
  {
    hide ReconstructStream, StepsFitStream, Leftover, Codec.BlockSamples, Codec.Aligned, Padding, StartCarry, Level,
         Silent;
    if Silent(all) {
      SilentPadding(codec, all);
      LevelStream(codec, all + pad);
    } else if pad == [] {
      EmptyLast(all, pad);
      LevelStream(codec, all);
    } else {
      StreamLength(codec, StartCarry(codec), all + pad);
      WholeFrame(codec, all, pad);
      var level := Extended(codec.channels, all, |pad|);
      ExtendedLevel(codec.channels, all, |pad|);
      SameLeftover(codec.BlockSamples(), all + pad, level);
      LevelStream(codec, level);
      PrefixSuffix(all, pad);
      ImaCausal(codec, StartCarry(codec), all + pad, level, |all|);
    }
  }

  lemma WholeFrame(codec: Codec, all: seq<int>, pad: seq<int>)
    requires codec.Valid() && codec.Aligned(|all|) && Leftover(codec.BlockSamples(), all + pad) == []
    requires |pad| < codec.BlockSamples() && pad != []
    ensures |all| >= codec.channels
  {
    hide Codec.BlockSamples;
    if all == [] { EmptyFirst(all, pad); }
    SomeFrame(codec.channels, |all|);
  }

  lemma SomeFrame(ch: int, n: nat)
    requires ch >= 1 && n % ch == 0
    ensures n > 0 ==> n >= ch
  {
  }

  lemma {:induction false} SameLeftover(n: int, s: seq<int>, t: seq<int>)
    requires n >= 1 && |s| == |t|
    ensures |Leftover(n, s)| == |Leftover(n, t)|
    decreases |s|
  {
    if |s| >= n { SameLeftover(n, s[n..], t[n..]); }
  }

  /** Silence is filled up with silence. */
  lemma {:induction false} SilentPadding(codec: Codec, all: seq<int>)
    requires codec.Writable() && AllInt16(all) && Silent(all)
    ensures Silent(all + Padding(codec, all)) && Level(codec.channels, all + Padding(codec, all))
  {
    hide Codec.BlockSamples, Residue, Leftover, StartCarry;
    SilentResidue(codec, all);
  }

  lemma {:induction false} FlattenAligned(codec: Codec, chunks: seq<seq<int>>)
    requires codec.Valid() && ValidChunks(codec, chunks)
    ensures codec.Aligned(|Flatten(chunks)|)
  {
    if chunks != [] {
      FlattenAligned(codec, chunks[..|chunks| - 1]);
      codec.AlignedSum(|Flatten(chunks[..|chunks| - 1])|, |chunks[|chunks| - 1]|);
    }
  }

  lemma AsIfSilence(codec: Codec, all: seq<int>, pad: seq<int>, m: nat)
    requires codec.WavIma? && codec.Writable() && AllInt16(all + pad) && m <= |all|
    requires |all| <= |ReconstructStream(codec, StartCarry(codec), all + pad)|
    ensures StepsFitStream(codec, all + pad) && AllInt16(all + seq(|pad|, _ => 0))
    ensures var r := ReconstructStream(codec, StartCarry(codec), all + seq(|pad|, _ => 0));
            m <= |r| && r[..m] == ReconstructStream(codec, StartCarry(codec), all + pad)[..m]
  {
    hide ReconstructStream, Codec.BlockSamples;
    var silence: seq<int> := seq(|pad|, _ => 0);
    assert forall i :: 0 <= i < |all| ==> (all + pad)[i] == all[i];
    StepsAlwaysFit(codec, all + pad);
    assert (all + pad)[..m] == (all + silence)[..m];
    ImaCausal(codec, StartCarry(codec), all + pad, all + silence, m);
  }

  lemma {:induction false} StepsAlwaysFit(codec: Codec, s: seq<int>)
    requires codec.WavIma? && codec.Writable() && AllInt16(s)
    ensures StepsFitStream(codec, s)
    decreases |s|
  {
    hide Codec.BlockSamples;
    var n := codec.BlockSamples();
    if |s| >= n { StepsAlwaysFit(codec, s[n..]); }
  }

  /** Whole blocks only: as many samples as blocks make, and none without a block. */
  lemma {:induction false} SomeBlocks(codec: Codec, s: seq<int>)
    requires codec.Valid() && Leftover(codec.BlockSamples(), s) == []
    ensures |s| == Times(BlockCount(codec.BlockSamples(), s), codec.BlockSamples())
    ensures BlockCount(codec.BlockSamples(), s) == 0 ==> s == []
    decreases |s|
  {
    hide Codec.BlockSamples;
    var n := codec.BlockSamples();
    if |s| >= n { SomeBlocks(codec, s[n..]); }
  }

  lemma WholeBlocks(count: int, k: nat, length: int, size: int)
    requires size > 0 && length == Times(k, size) && count == length / size
    ensures count == k
  {
    TimesIsProduct(k, size);
    DivUnique(length, size, k, 0);
  }
}
