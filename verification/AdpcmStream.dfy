/** Block codecs as functions on whole sample streams: the simple sequential meaning that the
    buffered readers and writers are measured against. */
module AdpcmStream {
  import opened Bits
  import opened Pcm
  import ImaCode
  import ImaBlock
  import MsCode
  import MsBlock

  /** The codec whose decode_block and encode_block are in use. `size` is the block length in bytes. */
  datatype Codec = WavIma(channels: int, size: int) | MsAdpcm(channels: int, size: int) {
    predicate Valid()
    {
      if WavIma? then ImaBlock.ValidShape(channels, size) else MsBlock.ReadShape(channels, size)
    }

    /** A writer of Microsoft blocks needs some frames to choose the predictor. */
    predicate Writable()
    {
      Valid() && (MsAdpcm? ==> MsBlock.ValidShape(channels, size))
    }

    /** Samples of all channels in a block. */
    function BlockSamples(): (n: int)
      requires Valid()
      ensures n >= channels >= 1 && channels <= 2 && size > 0
    {
      if WavIma? then ImaBlock.SamplesPerBlock(channels, size) else MsBlock.SamplesPerBlock(channels, size)
    }

    /** Frames in a block: samplesperblock. */
    function BlockFrames(): (f: int)
      requires Valid()
      ensures f >= 1 && f * channels == BlockSamples()
    {
      BlockSamples() / channels
    }

    /** A sample count that is whole frames. */
    predicate Aligned(n: int)
      requires Valid()
    {
      n % channels == 0
    }

    lemma AlignedSum(a: int, b: int)
      requires Valid() && Aligned(a) && Aligned(b)
      ensures Aligned(a + b)
    {
      if channels == 2 { assert (a + b) % 2 == 0; }
    }

    lemma AlignedDifference(a: int, b: int)
      requires Valid() && Aligned(a) && Aligned(b)
      ensures Aligned(a - b)
    {
      if channels == 2 { assert (a - b) % 2 == 0; }
    }

    /** Step indices are carried from block to block by the IMA encoder only. */
    predicate ValidCarry(index: seq<int>)
    {
      if WavIma? then (channels == 1 || channels == 2) && ImaBlock.ValidIndices(channels, index) else index == []
    }

    predicate ValidBlock(s: seq<int>)
      requires Valid()
    {
      |s| == BlockSamples() && AllInt16(s)
    }

    ghost function Encoded(s: seq<int>, index: seq<int>): (r: seq<Byte>)
      requires Writable() && ValidBlock(s) && ValidCarry(index)
      ensures |r| == size
    {
      if WavIma? then ImaBlock.EncodedBlock(channels, size, s, index) else MsBlock.EncodedBlock(channels, size, s)
    }

    ghost function Carry(s: seq<int>, index: seq<int>): (r: seq<int>)
      requires Writable() && ValidBlock(s) && ValidCarry(index)
      ensures ValidCarry(r)
    {
      if WavIma? then ImaBlock.NextIndices(channels, s, index) else []
    }

    ghost function Decoded(block: seq<Byte>): (r: seq<int>)
      requires Valid() && |block| == size
      ensures |r| == BlockSamples()
    {
      if WavIma? then ImaBlock.DecodedBlock(channels, size, block) else MsBlock.DecodedBlock(channels, block)
    }

    /** What the encoder itself reconstructs while coding a block. */
    ghost function Reconstructed(s: seq<int>, index: seq<int>): (r: seq<int>)
      requires Writable() && ValidBlock(s) && ValidCarry(index)
      ensures |r| == BlockSamples()
    {
      if WavIma? then
        seq(|s|, k requires 0 <= k < |s| => ImaBlock.EncoderAt(channels, s, index, k).sample)
      else
        seq(|s|, k requires 0 <= k < |s| => if k < channels then s[k] else MsBlock.EncoderAt(channels, s, k).cur)
    }

    /** What coding a block makes of the samples in their buffer: the codes for IMA, the encoder's own
        reconstruction for Microsoft ADPCM. */
    ghost function Worked(s: seq<int>, index: seq<int>): (r: seq<int>)
      requires Writable() && ValidBlock(s) && ValidCarry(index)
      ensures |r| == |s|
    {
      if WavIma? then
        seq(|s|, k requires 0 <= k < |s| => if k < channels then s[k] else ImaBlock.CodeAt(channels, s, index, k))
      else Reconstructed(s, index)
    }

    /** What stays in the buffer: as many entries are cleared as a block has frames. */
    ghost function AfterBlock(s: seq<int>, index: seq<int>): (r: seq<int>)
      requires Writable() && ValidBlock(s) && ValidCarry(index)
      ensures |r| == |s|
    {
      FramesFit();
      seq(BlockFrames(), _ => 0) + Worked(s, index)[BlockFrames()..]
    }

    lemma FramesFit()
      requires Valid()
      ensures BlockFrames() <= BlockSamples()
    {
    }

    /** The encoder's steps fit the decoder's 16-bit variable throughout the block. */
    ghost predicate StepsFit(s: seq<int>)
      requires Writable() && ValidBlock(s)
    {
      MsAdpcm? ==> MsBlock.DeltasFit(channels, s, |s| - 1)
    }
  }

  /** Behind a block of two channels, the second half of the buffer keeps the encoder's samples. */
  lemma {:induction false} MsLeftBehind()
    ensures MsBlock.ValidInput(2, 17, MsCode.STEREO)
    ensures MsAdpcm(2, 17).AfterBlock(MsCode.STEREO, []) == [0, 0, 0, 0, 0, 886, 400, 1381, 500, 724]
  {
    hide MsBlock.EncoderAt, MsBlock.CodeAt;
    MsBlock.StereoCodes();
  }

  /** Or the codes, for IMA. */
  lemma {:induction false} ImaLeftBehind()
    ensures ImaBlock.ValidInput(2, 16, ImaBlock.BESIDE, [0, 0])
    ensures WavIma(2, 16).AfterBlock(ImaBlock.BESIDE, [0, 0])
         == [0, 0, 0, 0, 0, 0, 0, 0, 0] + [0, 2, 0, 9, 0, 7, 0, 7, 0]
  {
    hide ImaBlock.EncoderAt, ImaBlock.CodeAt, ImaBlock.ChannelOf;
    ImaBlock.BesideInput();
    BesideCodes();
  }

  lemma BesideCodes()
    ensures ImaBlock.ValidInput(2, 16, ImaBlock.BESIDE, [0, 0])
    ensures var s, i := ImaBlock.BESIDE, [0, 0];
            && ImaBlock.CodeAt(2, s, i, 9) == 0 && ImaBlock.CodeAt(2, s, i, 10) == 2
            && ImaBlock.CodeAt(2, s, i, 11) == 0 && ImaBlock.CodeAt(2, s, i, 12) == 9
            && ImaBlock.CodeAt(2, s, i, 13) == 0 && ImaBlock.CodeAt(2, s, i, 14) == 7
            && ImaBlock.CodeAt(2, s, i, 15) == 0 && ImaBlock.CodeAt(2, s, i, 16) == 7
            && ImaBlock.CodeAt(2, s, i, 17) == 0
  {
    hide ImaBlock.EncoderAt, ImaBlock.CodeAt, ImaBlock.ChannelOf, ImaBlock.BESIDE, ImaBlock.WAVE, ImaBlock.ValidInput;
    ImaBlock.BesideInput();
    ImaBlock.WaveCodes();
    forall k | 5 <= k < 9
      ensures ImaBlock.CodeAt(2, ImaBlock.BESIDE, [0, 0], 2 * k) == ImaBlock.CodeAt(1, ImaBlock.WAVE, [0], k)
    {
      ImaBlock.ChannelsApart(ImaBlock.BESIDE, [0, 0], 0, ImaBlock.WAVE, k);
    }
    ImaBlock.BesideLevel(4);
    ImaBlock.BesideLevel(5);
    ImaBlock.BesideLevel(6);
    ImaBlock.BesideLevel(7);
    ImaBlock.BesideLevel(8);
  }

  /** Decoding one encoded block gives the encoder's reconstruction. */
  lemma {:induction false} BlockRoundTrip(codec: Codec, s: seq<int>, index: seq<int>)
    requires codec.Writable() && codec.ValidBlock(s) && codec.ValidCarry(index) && codec.StepsFit(s)
    ensures codec.Decoded(codec.Encoded(s, index)) == codec.Reconstructed(s, index)
  {
    match codec
    case WavIma(_, _) => ImaRoundTrip(codec, s, index);
    case MsAdpcm(_, _) => MsRoundTrip(codec, s, index);
  }

  lemma {:induction false} ImaRoundTrip(codec: Codec, s: seq<int>, index: seq<int>)
    requires codec.WavIma? && codec.Writable() && codec.ValidBlock(s) && codec.ValidCarry(index)
    ensures codec.Decoded(codec.Encoded(s, index)) == codec.Reconstructed(s, index)
  {
    hide ImaBlock.EncoderAt, ImaBlock.DecoderAt, ImaBlock.EncodedBlock;
    var ch, size := codec.channels, codec.size;
    forall k | 0 <= k < |s|
      ensures codec.Decoded(codec.Encoded(s, index))[k] == codec.Reconstructed(s, index)[k]
    {
      ImaBlock.BlockLockstep(ch, size, s, index, k);
    }
  }

  lemma {:induction false} MsRoundTrip(codec: Codec, s: seq<int>, index: seq<int>)
    requires codec.MsAdpcm? && codec.Writable() && codec.ValidBlock(s) && codec.ValidCarry(index) && codec.StepsFit(s)
    ensures codec.Decoded(codec.Encoded(s, index)) == codec.Reconstructed(s, index)
  {
    hide MsBlock.DecodedSample, MsBlock.InStep, MsBlock.DeltasFit, MsBlock.EncoderAt, MsBlock.EncodedBlock;
    var ch, size := codec.channels, codec.size;
    MsBlock.BlockLockstep(ch, size, s, |s| - 1);
    forall k | 0 <= k < |s|
      ensures codec.Decoded(codec.Encoded(s, index))[k] == codec.Reconstructed(s, index)[k]
    {
      MsBlock.SampleInStep(ch, size, s, k);
    }
  }

  // ----- Streams -----

  /** What a fresh encoder carries. */
  function StartCarry(codec: Codec): (r: seq<int>)
    requires codec.Valid()
    ensures codec.ValidCarry(r)
  {
    if codec.WavIma? then seq(codec.channels, _ => 0) else []
  }

  /** All whole blocks of a sample stream, encoded in order. */
  ghost function EncodeStream(codec: Codec, index: seq<int>, s: seq<int>): seq<Byte>
    requires codec.Writable() && AllInt16(s) && codec.ValidCarry(index)
    decreases |s|
  {
    var n := codec.BlockSamples();
    if |s| < n then []
    else codec.Encoded(s[..n], index) + EncodeStream(codec, codec.Carry(s[..n], index), s[n..])
  }

  ghost function CarryStream(codec: Codec, index: seq<int>, s: seq<int>): (r: seq<int>)
    requires codec.Writable() && AllInt16(s) && codec.ValidCarry(index)
    ensures codec.ValidCarry(r)
    decreases |s|
  {
    var n := codec.BlockSamples();
    if |s| < n then index else CarryStream(codec, codec.Carry(s[..n], index), s[n..])
  }

  /** The samples behind the last whole block. */
  function Leftover(n: int, s: seq<int>): (r: seq<int>)
    requires n >= 1
    ensures |r| < n && |r| <= |s|
    decreases |s|
  {
    if |s| < n then s else Leftover(n, s[n..])
  }

  ghost function ReconstructStream(codec: Codec, index: seq<int>, s: seq<int>): seq<int>
    requires codec.Writable() && AllInt16(s) && codec.ValidCarry(index)
    decreases |s|
  {
    var n := codec.BlockSamples();
    if |s| < n then []
    else codec.Reconstructed(s[..n], index) + ReconstructStream(codec, codec.Carry(s[..n], index), s[n..])
  }

  /** What the buffer of samples holds when the blocks of `s` are coded, if it held `buffer` before. */
  ghost function Residue(codec: Codec, index: seq<int>, buffer: seq<int>, s: seq<int>): (r: seq<int>)
    requires codec.Writable() && AllInt16(s) && codec.ValidCarry(index) && |buffer| == codec.BlockSamples()
    ensures |r| == codec.BlockSamples()
    decreases |s|
  {
    var n := codec.BlockSamples();
    if |s| < n then buffer
    else Residue(codec, codec.Carry(s[..n], index), codec.AfterBlock(s[..n], index), s[n..])
  }

  ghost predicate StepsFitStream(codec: Codec, s: seq<int>)
    requires codec.Writable() && AllInt16(s)
    decreases |s|
  {
    var n := codec.BlockSamples();
    |s| < n || (codec.StepsFit(s[..n]) && StepsFitStream(codec, s[n..]))
  }

  /** All whole blocks of a file, decoded in order. */
  ghost function DecodeStream(codec: Codec, data: seq<Byte>): seq<int>
    requires codec.Valid()
    decreases |data|
  {
    if |data| < codec.size then []
    else
      var n := codec.BlockSamples();
      codec.Decoded(data[..codec.size]) + DecodeStream(codec, data[codec.size..])
  }

  lemma DecodeFirst(codec: Codec, data: seq<Byte>)
    requires codec.Valid() && |data| >= codec.size
    ensures DecodeStream(codec, data) == codec.Decoded(data[..codec.size]) + DecodeStream(codec, data[codec.size..])
  {
    hide Codec.Decoded, Codec.BlockSamples;
  }

  lemma BlockFirst(codec: Codec, index: seq<int>, s: seq<int>, rest: seq<int>)
    requires codec.Writable() && codec.ValidBlock(s) && AllInt16(rest) && codec.ValidCarry(index)
    ensures AllInt16(s + rest)
    ensures EncodeStream(codec, index, s + rest)
         == codec.Encoded(s, index) + EncodeStream(codec, codec.Carry(s, index), rest)
    ensures CarryStream(codec, index, s + rest) == CarryStream(codec, codec.Carry(s, index), rest)
    ensures Leftover(codec.BlockSamples(), s + rest) == Leftover(codec.BlockSamples(), rest)
  {
    assert (s + rest)[..|s|] == s && (s + rest)[|s|..] == rest;
  }

  lemma ResidueFirst(codec: Codec, index: seq<int>, buffer: seq<int>, s: seq<int>, rest: seq<int>)
    requires codec.Writable() && codec.ValidBlock(s) && AllInt16(rest) && codec.ValidCarry(index)
    requires |buffer| == codec.BlockSamples() && AllInt16(s + rest)
    ensures Residue(codec, index, buffer, s + rest)
         == Residue(codec, codec.Carry(s, index), codec.AfterBlock(s, index), rest)
  {
    hide Codec.Carry, Codec.AfterBlock, Codec.BlockSamples;
    assert (s + rest)[..|s|] == s && (s + rest)[|s|..] == rest;
  }

  lemma ResidueNone(codec: Codec, index: seq<int>, buffer: seq<int>, s: seq<int>)
    requires codec.Writable() && AllInt16(s) && codec.ValidCarry(index) && |buffer| == codec.BlockSamples() > |s|
    ensures Residue(codec, index, buffer, s) == buffer
  {
  }

  /** Coding in two steps, the leftover of the first in front of the second. */
  lemma {:induction false} ResidueSplit(codec: Codec, index: seq<int>, buffer: seq<int>, a: seq<int>, b: seq<int>)
    requires codec.Writable() && AllInt16(a) && AllInt16(b) && codec.ValidCarry(index)
    requires |buffer| == codec.BlockSamples()
    ensures AllInt16(a + b) && AllInt16(Leftover(codec.BlockSamples(), a) + b)
    ensures Residue(codec, index, buffer, a + b)
         == Residue(codec, CarryStream(codec, index, a), Residue(codec, index, buffer, a),
                    Leftover(codec.BlockSamples(), a) + b)
    decreases |a|
  {
    hide Codec.Carry, Codec.AfterBlock, Codec.BlockSamples;
    var n := codec.BlockSamples();
    if |a| >= n {
      var s, rest := a[..n], a[n..];
      ResidueSplit(codec, codec.Carry(s, index), codec.AfterBlock(s, index), rest, b);
      assert a + b == s + (rest + b);
      ResidueFirst(codec, index, buffer, s, rest + b);
    }
  }

  /** Run of blocks: decoding a written stream gives the encoder's reconstruction throughout. */
  lemma {:induction false} StreamRoundTrip(codec: Codec, index: seq<int>, s: seq<int>)
    requires codec.Writable() && AllInt16(s) && codec.ValidCarry(index) && StepsFitStream(codec, s)
    ensures DecodeStream(codec, EncodeStream(codec, index, s)) == ReconstructStream(codec, index, s)
    decreases |s|
  {
    var n := codec.BlockSamples();
    if |s| >= n {
      var block := codec.Encoded(s[..n], index);
      var rest := EncodeStream(codec, codec.Carry(s[..n], index), s[n..]);
      StreamRoundTrip(codec, codec.Carry(s[..n], index), s[n..]);
      BlockRoundTrip(codec, s[..n], index);
      assert (block + rest)[..codec.size] == block && (block + rest)[codec.size..] == rest;
    }
  }

  lemma {:induction false} SameLength(codec: Codec, i: seq<int>, j: seq<int>, s: seq<int>, t: seq<int>)
    requires codec.Writable() && AllInt16(s) && AllInt16(t) && codec.ValidCarry(i) && codec.ValidCarry(j) && |s| == |t|
    ensures |ReconstructStream(codec, i, s)| == |ReconstructStream(codec, j, t)| <= |s|
    decreases |s|
  {
    hide Codec.Carry, Codec.BlockSamples, Codec.Reconstructed;
    var n := codec.BlockSamples();
    if |s| >= n { SameLength(codec, codec.Carry(s[..n], i), codec.Carry(t[..n], j), s[n..], t[n..]); }
  }

  /** What the IMA encoder reconstructs of a block's first samples does not depend on the others. */
  lemma BlockCausal(codec: Codec, index: seq<int>, s: seq<int>, t: seq<int>, m: nat)
    requires codec.WavIma? && codec.Writable() && codec.ValidBlock(s) && codec.ValidBlock(t) && codec.ValidCarry(index)
    requires m <= |s| && s[..m] == t[..m]
    ensures codec.Reconstructed(s, index)[..m] == codec.Reconstructed(t, index)[..m]
  {
    hide ImaBlock.EncoderAt;
    forall k | 0 <= k < m ensures codec.Reconstructed(s, index)[k] == codec.Reconstructed(t, index)[k] {
      assert s[..k + 1] == s[..m][..k + 1] && t[..k + 1] == t[..m][..k + 1];
      ImaBlock.EncoderCausal(codec.channels, s, t, index, k);
    }
  }

  /** Nor does it over a run of blocks. */
  lemma {:induction false} ImaCausal(codec: Codec, index: seq<int>, s: seq<int>, t: seq<int>, m: nat)
    requires codec.WavIma? && codec.Writable() && AllInt16(s) && AllInt16(t) && codec.ValidCarry(index) && |s| == |t|
    requires m <= |s| && s[..m] == t[..m] && m <= |ReconstructStream(codec, index, s)|
    ensures m <= |ReconstructStream(codec, index, t)|
    ensures ReconstructStream(codec, index, t)[..m] == ReconstructStream(codec, index, s)[..m]
    decreases |s|
  {
    hide Codec.Carry, Codec.BlockSamples, Codec.Reconstructed;
    SameLength(codec, index, index, s, t);
    var n := codec.BlockSamples();
    if |s| >= n {
      if m >= n {
        assert s[..n] == s[..m][..n] && t[..n] == t[..m][..n];
        assert s[n..][..m - n] == s[..m][n..] && t[n..][..m - n] == t[..m][n..];
        ImaCausal(codec, codec.Carry(s[..n], index), s[n..], t[n..], m - n);
      } else {
        assert s[..n][..m] == s[..m] && t[..n][..m] == t[..m];
        BlockCausal(codec, index, s[..n], t[..n], m);
      }
    }
  }

  /** Cutting a stream anywhere: the first part's leftover goes in front of the second. */
  lemma {:induction false} StreamSplit(codec: Codec, index: seq<int>, a: seq<int>, b: seq<int>)
    requires codec.Writable() && AllInt16(a) && AllInt16(b) && codec.ValidCarry(index)
    ensures AllInt16(a + b) && AllInt16(Leftover(codec.BlockSamples(), a) + b)
    ensures var left := Leftover(codec.BlockSamples(), a) + b;
            var index' := CarryStream(codec, index, a);
            EncodeStream(codec, index, a + b) == EncodeStream(codec, index, a) + EncodeStream(codec, index', left)
            && CarryStream(codec, index, a + b) == CarryStream(codec, index', left)
            && Leftover(codec.BlockSamples(), a + b) == Leftover(codec.BlockSamples(), left)
    decreases |a|
  {
    hide Codec.Encoded, Codec.Carry, Codec.BlockSamples;
    var n := codec.BlockSamples();
    if |a| >= n {
      var s, rest := a[..n], a[n..];
      StreamSplit(codec, codec.Carry(s, index), rest, b);
      BlockFirst(codec, index, s, rest + b);
      assert a + b == s + (rest + b);
      ConcatAssoc(codec.Encoded(s, index), EncodeStream(codec, codec.Carry(s, index), rest),
                  EncodeStream(codec, CarryStream(codec, index, a), Leftover(n, a) + b));
    }
  }

  /** k times x, as a sum. */
  function Times(k: nat, x: nat): nat
  {
    if k == 0 then 0 else Times(k - 1, x) + x
  }

  lemma {:induction false} TimesIsProduct(k: nat, x: nat)
    ensures Times(k, x) == k * x
  {
    if k > 0 { TimesIsProduct(k - 1, x); }
  }

  /** Skipping whole blocks of the file skips whole blocks of samples. */
  lemma {:induction false} SkipBlocks(codec: Codec, data: seq<Byte>, k: nat)
    requires codec.Valid() && Times(k, codec.size) <= |data|
    ensures Times(k, codec.BlockSamples()) <= |DecodeStream(codec, data)|
    ensures DecodeStream(codec, data)[Times(k, codec.BlockSamples())..]
         == DecodeStream(codec, data[Times(k, codec.size)..])
    decreases k
  {
    hide Codec.Decoded, Codec.BlockSamples;
    if k == 0 {
      assert data[0..] == data;
    } else {
      var n, size := codec.BlockSamples(), codec.size;
      SkipBlocks(codec, data[size..], k - 1);
      SkipTwice(data, size, Times(k - 1, size));
      SkipFirst(codec.Decoded(data[..size]), DecodeStream(codec, data[size..]), Times(k - 1, n));
    }
  }

  lemma SkipFirst<T>(first: seq<T>, rest: seq<T>, i: nat)
    requires i <= |rest|
    ensures (first + rest)[i + |first|..] == rest[i..]
  {
  }

  lemma SkipTwice<T>(s: seq<T>, a: nat, b: nat)
    requires a + b <= |s|
    ensures s[a..][b..] == s[a + b..]
  {
  }

  lemma {:induction false} DecodeLength(codec: Codec, data: seq<Byte>, k: nat)
    requires codec.Valid() && |data| == Times(k, codec.size)
    ensures |DecodeStream(codec, data)| == Times(k, codec.BlockSamples())
  {
    SkipBlocks(codec, data, k);
    assert data[|data|..] == [];
  }
}
