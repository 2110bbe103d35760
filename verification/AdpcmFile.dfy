/** The block buffers of the two ADPCM codecs: ima_read_block / ima_write_block, their Microsoft
    twins, and the seeks, over one object per open file. */
module AdpcmFile {
  import opened Bits
  import opened Pcm
  import opened AdpcmStream
  import Ima
  import ImaBlock
  import Ms
  import MsBlock

  class Adpcm {
    const codec: Codec
    /** Frames in a block. */
    const samplesPerBlock: int
    var blocks: int
    var blockcount: int
    var samplecount: int
    var stepindx: seq<int>
    const block: array<Byte>
    const samples: array<int>
    /** psf->sf.frames */
    var frames: int
    /** The data section of the file and the position in it. */
    var file: seq<Byte>
    var pos: nat

    predicate Shaped()
    {
      && codec.Valid() && block.Length == codec.size && samples.Length == codec.BlockSamples()
      && samplesPerBlock * codec.channels == codec.BlockSamples() && block as object != samples as object
    }

    /** Samples of all channels in so many frames. */
    function Flat(frames: int): int
    {
      frames * codec.channels
    }

    lemma FlatLinear(a: int)
      requires Shaped()
      ensures codec.channels == 1 ==> Flat(a) == a
      ensures codec.channels == 2 ==> Flat(a) == 2 * a
      ensures Flat(samplesPerBlock) == codec.BlockSamples()
    {
      hide Codec.BlockSamples;
    }

    lemma FlatPlus(a: int, count: nat)
      requires Shaped() && codec.Aligned(count)
      ensures Flat(a + count / codec.channels) == Flat(a) + count
    {
      FlatLinear(a);
      FlatLinear(a + count / codec.channels);
    }

    lemma FlatOrder(a: int, b: int)
      requires Shaped()
      ensures Flat(b - a) == Flat(b) - Flat(a) && (a < b <==> Flat(a) < Flat(b)) && codec.Aligned(Flat(a))
    {
      FlatLinear(a);
      FlatLinear(b);
      FlatLinear(b - a);
    }

    // ----- Writing -----

    /** Behind the pending samples the buffer holds what `buffer` does. */
    ghost predicate HoldsBehind(buffer: seq<int>)
      reads `samplecount, samples
    {
      && codec.Valid() && |buffer| == samples.Length == codec.BlockSamples()
      && 0 <= Flat(samplecount) <= samples.Length && samples[Flat(samplecount)..] == buffer[Flat(samplecount)..]
    }

    /** Samples waiting for their block to fill. */
    ghost function Pending(): seq<int>
      requires 0 <= Flat(samplecount) <= samples.Length
      reads `samplecount, samples
    {
      samples[..Flat(samplecount)]
    }

    /** The file holds the blocks counted. */
    ghost predicate Counted()
      reads `blockcount, `file
    {
      0 <= blockcount && 0 <= codec.size && |file| == Times(blockcount, codec.size)
    }

    /** The buffer may be full for a moment; between writes it is not. */
    ghost predicate BufferValid()
      reads `samplecount, `stepindx, `blockcount, `file, samples
    {
      && Shaped() && codec.Writable() && codec.ValidCarry(stepindx) && AllInt16(samples[..]) && Counted()
      && 0 <= samplecount <= samplesPerBlock && 0 <= Flat(samplecount) <= samples.Length
      && (codec.channels == 1 ==> forall i :: samplecount <= i < samples.Length ==> samples[i] == 0)
    }

    ghost predicate WriterValid()
      reads `samplecount, `stepindx, `blockcount, `file, samples
    {
      BufferValid() && samplecount < samplesPerBlock && Flat(samplecount) < samples.Length
    }

    constructor Writer(codec: Codec)
      requires codec.Writable()
      ensures WriterValid() && this.codec == codec && file == [] && Pending() == [] && fresh(block) && fresh(samples)
      ensures codec.WavIma? ==> stepindx == seq(codec.channels, _ => 0)
      ensures HoldsBehind(seq(codec.BlockSamples(), _ => 0))
    {
      hide Codec.BlockFrames, Codec.BlockSamples;
      this.codec := codec;
      samplesPerBlock := codec.BlockFrames();
      blocks, blockcount, samplecount, frames := 0, 0, 0, 0;
      stepindx := if codec.WavIma? then seq(codec.channels, _ => 0) else [];
      block := new Byte[codec.size](_ => 0);
      samples := new int[codec.BlockSamples()](_ => 0);
      file, pos := [], 0;
    }

    /** encode_block: one block goes to the file, the first samplesPerBlock entries of samples[]
        are cleared. With two channels that is only half of them. */
    method EncodeBlock()
      requires Shaped() && codec.Writable() && codec.ValidCarry(stepindx) && AllInt16(samples[..]) && Counted()
      modifies this`stepindx, this`samplecount, this`blockcount, this`file, block, samples
      ensures WriterValid() && samplecount == 0 && blockcount == old(blockcount) + 1
      ensures file == old(file) + codec.Encoded(old(samples[..]), old(stepindx))
      ensures stepindx == codec.Carry(old(samples[..]), old(stepindx))
      ensures HoldsBehind(codec.AfterBlock(old(samples[..]), old(stepindx)))
    {
      hide Codec.Encoded, Codec.Carry, Codec.Worked, Codec.BlockSamples;
      ghost var s, index := samples[..], stepindx;
      CodeSamples();
      file := file + block[..];
      ClearFrames(codec.Worked(s, index));
      samplecount := 0;
      blockcount := blockcount + 1;
    }

    /** encode_block up to the write. */
    method CodeSamples()
      requires Shaped() && codec.Writable() && codec.ValidCarry(stepindx) && AllInt16(samples[..])
      modifies this`stepindx, block, samples
      ensures block[..] == codec.Encoded(old(samples[..]), old(stepindx))
      ensures stepindx == codec.Carry(old(samples[..]), old(stepindx))
      ensures samples[..] == codec.Worked(old(samples[..]), old(stepindx)) && AllInt16(samples[..])
    {
      hide ImaBlock.EncodedBlock, ImaBlock.NextIndices, ImaBlock.EncoderAt, ImaBlock.CodeAt;
      hide MsBlock.EncodedBlock, MsBlock.EncoderAt;
      ghost var s := samples[..];
      if codec.WavIma? {
        EncodeIma();
      } else {
        Ms.EncodeBlock(codec.channels, block, samples);
        MsLeavesInt16(codec.channels, s, samples[..]);
      }
    }

    /** The memset behind it. */
    method ClearFrames(ghost worked: seq<int>)
      requires Shaped() && codec.Valid() && samples[..] == worked && AllInt16(worked)
      modifies samples
      ensures samplesPerBlock == codec.BlockFrames() <= samples.Length
      ensures samples[..] == seq(codec.BlockFrames(), _ => 0) + worked[codec.BlockFrames()..]
      ensures AllInt16(samples[..]) && (codec.channels == 1 ==> forall i :: 0 <= i < samples.Length ==> samples[i] == 0)
    {
      hide Codec.BlockSamples;
      var n := samplesPerBlock;
      FlatLinear(n);
      SameFrames();
      forall i | 0 <= i < n { samples[i] := 0; }
      assert samples[n..] == worked[n..];
    }

    lemma SameFrames()
      requires Shaped()
      ensures samplesPerBlock == codec.BlockFrames() <= codec.BlockSamples()
    {
      hide Codec.BlockSamples;
      codec.FramesFit();
    }

    /** The memcpy of the write loop: as much of `ptr` as the block still takes. */
    method CopyIn(ptr: seq<int>, indx: nat, ghost held: seq<int>) returns (count: nat)
      requires WriterValid() && AllInt16(ptr) && indx < |ptr| && codec.Aligned(|ptr| - indx) && HoldsBehind(held)
      modifies this`samplecount, samples
      ensures BufferValid() && 0 < count <= |ptr| - indx && codec.Aligned(count)
      ensures Pending() == old(Pending()) + ptr[indx..indx + count]
      ensures samplecount < samplesPerBlock ==> Flat(samplecount) < samples.Length && indx + count == |ptr|
      ensures samplecount == samplesPerBlock ==> Pending() == samples[..]
      ensures HoldsBehind(held)
    {
      hide Codec.BlockSamples, Codec.Aligned, Adpcm.Flat, Adpcm.HoldsBehind;
      ghost var before, from := samples[..], Flat(samplecount);
      FlatLinear(samplesPerBlock);
      FlatLinear(samplecount);
      FlatOrder(samplecount, samplesPerBlock);
      FlatOrder(samplesPerBlock - samplecount, 0);
      var at := Flat(samplecount);
      count := Flat(samplesPerBlock - samplecount);
      if count > |ptr| - indx {
        count := |ptr| - indx;
      }
      var frames := count / codec.channels;
      FlatPlus(samplecount, count);
      FlatOrder(samplesPerBlock, samplecount + frames);
      FlatOrder(samplecount + frames, samplesPerBlock);
      FlatOrder(samplecount, samplecount + frames);
      FlatLinear(samplecount + frames);
      HeldBehind(held);
      Copy(at, ptr[indx..indx + count]);
      samplecount := samplecount + frames;
      StillHeld(held, before, from);
    }

    lemma HeldBehind(held: seq<int>)
      requires HoldsBehind(held)
      ensures codec.Valid() && |held| == samples.Length == codec.BlockSamples()
      ensures 0 <= Flat(samplecount) <= samples.Length && samples[Flat(samplecount)..] == held[Flat(samplecount)..]
    {
    }

    /** What changes in front of the samples held does not touch them. */
    lemma StillHeld(held: seq<int>, before: seq<int>, from: nat)
      requires codec.Valid() && |held| == |before| == samples.Length == codec.BlockSamples()
      requires from <= Flat(samplecount) <= samples.Length && before[from..] == held[from..]
      requires forall i :: Flat(samplecount) <= i < samples.Length ==> samples[i] == before[i]
      ensures HoldsBehind(held)
    {
      var at := Flat(samplecount);
      forall i | at <= i < samples.Length ensures samples[i] == held[i] {
        assert before[from..][i - from] == held[from..][i - from];
      }
      assert samples[at..] == held[at..];
    }

    method Copy(at: nat, part: seq<int>)
      requires Shaped() && AllInt16(samples[..]) && AllInt16(part) && at + |part| <= samples.Length
      modifies samples
      ensures samples[..at + |part|] == old(samples[..at]) + part && AllInt16(samples[..])
      ensures forall i :: at + |part| <= i < samples.Length ==> samples[i] == old(samples[i])
    {
      hide Codec.BlockSamples, Codec.Valid;
      ghost var before := samples[..];
      forall i | 0 <= i < |part| { samples[at + i] := part[i]; }
      assert samples[..at] == before[..at];
      assert samples[at..at + |part|] == part;
      forall i | 0 <= i < samples.Length ensures IsInt16(samples[i]) {
        if at <= i < at + |part| { assert samples[i] == part[i - at]; } else { assert samples[i] == before[i]; }
      }
    }

    /** ima_write_block and msadpcm_write_block: however the samples arrive, the file gets the
        whole blocks of the joined stream and the buffer what is left. */
    method WriteBlock(ptr: seq<int>, ghost base: seq<int>) returns (total: nat)
      requires WriterValid() && AllInt16(ptr) && codec.Aligned(|ptr|) && HoldsBehind(base)
      modifies this`stepindx, this`samplecount, this`blockcount, this`file, block, samples
      ensures WriterValid() && total == |ptr|
      ensures var all := old(Pending()) + ptr;
              AllInt16(all) && file == old(file) + EncodeStream(codec, old(stepindx), all)
              && stepindx == CarryStream(codec, old(stepindx), all) && Pending() == Leftover(codec.BlockSamples(), all)
              && HoldsBehind(Residue(codec, old(stepindx), base, all))
    {
      hide Codec.BlockSamples, Codec.Aligned, Codec.Encoded, Codec.Carry, Balanced, EncodeStream, CarryStream, Leftover,
           Residue, Codec.AfterBlock, Adpcm.HoldsBehind;
      ghost var index0, all, held := stepindx, Pending() + ptr, base;
      ghost var done: seq<Byte> := [];
      var indx := 0;
      assert ptr[0..] == ptr;
      HeldBehind(base);
      BalancedStart(codec, index0, base, all);
      while indx < |ptr|
        invariant indx <= |ptr| && codec.Aligned(|ptr| - indx) && WriterValid()
        invariant file == old(file) + done && HoldsBehind(held) && |held| == codec.BlockSamples()
        invariant Balanced(codec, index0, base, all, done, stepindx, held, Pending() + ptr[indx..])
      {
        ghost var before, rest := Pending(), ptr[indx..];
        var count := CopyIn(ptr, indx, held);
        assert rest == ptr[indx..indx + count] + ptr[indx + count..];
        ConcatAssoc(before, ptr[indx..indx + count], ptr[indx + count..]);
        codec.AlignedDifference(|ptr| - indx, count);
        indx := indx + count;
        if samplecount >= samplesPerBlock {
          ghost var bytes := codec.Encoded(samples[..], stepindx);
          BalancedBlock(codec, index0, base, all, done, stepindx, held, samples[..], ptr[indx..]);
          ConcatAssoc(old(file), done, bytes);
          held := codec.AfterBlock(samples[..], stepindx);
          EncodeBlock();
          done := done + bytes;
          EmptyFirst(Pending(), ptr[indx..]);
        }
      }
      total := indx;
      EmptyLast(Pending(), ptr[indx..]);
      BalancedEnd(codec, index0, base, all, done, stepindx, held, Pending());
    }

    /** ima_close and msadpcm_close: a started block is filled up with whatever samples[] holds
        behind it. For one channel that is silence. The IMA codec then sets the frame count of the
        file, and divides by the channels what is counted in frames already. */
    method Close() returns (last: seq<int>)
      requires WriterValid()
      modifies this`stepindx, this`samplecount, this`blockcount, this`file, this`frames, block, samples
      ensures last == old(samples[..]) && codec.ValidBlock(last) && last[..Flat(old(samplecount))] == old(Pending())
      ensures codec.channels == 1 ==> forall i :: old(samplecount) <= i < |last| ==> last[i] == 0
      ensures file == old(file) + if old(samplecount) > 0 then codec.Encoded(last, old(stepindx)) else []
      ensures codec.WavIma? ==> (Flat(frames) == |DecodeStream(codec, file)| <==> codec.channels == 1 || file == [])
      ensures !codec.WavIma? ==> frames == old(frames)
    {
      hide Codec.BlockSamples, Codec.Encoded, Codec.Carry, DecodeStream, Times;
      last := samples[..];
      if samplecount != 0 && samplecount < samplesPerBlock {
        EncodeBlock();
      }
      if codec.WavIma? {
        frames := samplesPerBlock * blockcount / codec.channels;
        FrameField(frames);
      }
    }

    lemma FrameField(frames: int)
      requires Shaped() && Counted() && frames == samplesPerBlock * blockcount / codec.channels
      ensures Flat(frames) == |DecodeStream(codec, file)| <==> codec.channels == 1 || file == []
    {
      hide Codec.BlockSamples, DecodeStream;
      var n, spb := codec.BlockSamples(), samplesPerBlock;
      DecodeLength(codec, file, blockcount);
      TimesIsProduct(blockcount, n);
      TimesIsProduct(blockcount, codec.size);
      MulAssoc(blockcount, spb, codec.channels);
      FlatLinear(frames);
      if blockcount > 0 {
        MulLess(0, blockcount, spb);
        MulLess(0, blockcount, codec.size);
      }
    }

    method EncodeIma()
      requires Shaped() && codec.WavIma? && codec.ValidCarry(stepindx) && AllInt16(samples[..])
      modifies this`stepindx, block, samples
      ensures samples[..] == codec.Worked(old(samples[..]), old(stepindx))
      ensures block[..] == codec.Encoded(old(samples[..]), old(stepindx))
      ensures stepindx == codec.Carry(old(samples[..]), old(stepindx))
      ensures AllInt16(samples[..])
    {
      var _, index := Ima.EncodeBlock(codec.channels, block, samples, stepindx);
      stepindx := index;
    }

    // ----- Reading -----

    ghost predicate ReaderValid()
      reads `blocks, `blockcount, `samplecount, `file, `pos
    {
      && Shaped() && 0 <= samplecount <= samplesPerBlock && 0 <= Flat(samplecount) <= samples.Length
      && 0 <= blockcount && 0 <= blocks && |file| == Times(blocks, codec.size)
      && pos == Times(if blockcount < blocks then blockcount else blocks, codec.size) <= |file|
    }

    /** All that reading will still deliver. */
    ghost function Remaining(): seq<int>
      requires ReaderValid()
      reads `blocks, `blockcount, `samplecount, `file, `pos, samples
    {
      samples[Flat(samplecount)..] + DecodeStream(codec, file[pos..])
    }

    /** ima_reader_init and wavlike_msadpcm_init on a file of whole blocks; the first is decoded. */
    constructor Reader(codec: Codec, data: seq<Byte>, count: nat)
      requires codec.Valid() && |data| == Times(count, codec.size)
      ensures ReaderValid() && this.codec == codec && file == data && blocks == count && blockcount == 1
      ensures samplecount == 0 && fresh(block) && fresh(samples)
      ensures count > 0 ==> Remaining() == DecodeStream(codec, data)
    {
      hide Codec.BlockFrames, Codec.BlockSamples;
      this.codec := codec;
      samplesPerBlock := codec.BlockFrames();
      blocks, blockcount, samplecount, frames := count, 0, 0, 0;
      stepindx := [];
      block := new Byte[codec.size](_ => 0);
      samples := new int[codec.BlockSamples()](_ => 0);
      file, pos := data, 0;
      new;
      assert file[0..] == data;
      DecodeBlock();
    }

    /** decode_block: the next block, or past the last one a cleared buffer. */
    method DecodeBlock()
      requires ReaderValid()
      modifies this`blockcount, this`samplecount, this`pos, block, samples
      ensures ReaderValid() && samplecount == 0 && blockcount == old(blockcount) + 1
      ensures old(blockcount) < blocks ==> Remaining() == DecodeStream(codec, old(file[pos..]))
      ensures old(blockcount) >= blocks ==> |Remaining()| == codec.BlockSamples()
      ensures old(blockcount) >= blocks ==> Cleared(samples[..], old(samples[..]))
    {
      hide Codec.BlockSamples, Codec.Decoded, Adpcm.Cleared, DecodeStream;
      blockcount := blockcount + 1;
      samplecount := 0;
      if blockcount > blocks {
        ClearSamples();
        NothingBehind();
        return;
      }
      TimesStep(blockcount, blocks, codec.size);
      ghost var data := file[pos..];
      FillBlock();
      pos := pos + codec.size;
      assert file[pos..] == data[codec.size..];
      Decode();
      DecodeFirst(codec, data);
      assert samples[0..] == samples[..];
    }

    lemma NothingBehind()
      requires ReaderValid() && blockcount > blocks
      ensures DecodeStream(codec, file[pos..]) == []
    {
      hide Codec.BlockSamples, Codec.Decoded;
      assert file[pos..] == [];
    }

    /** What a read past the last block leaves: silence, for the Microsoft codec only in the first
        half. */
    ghost predicate Cleared(after: seq<int>, before: seq<int>)
    {
      && |after| == |before|
      && (forall i :: 0 <= i < |after| ==> after[i] == if codec.WavIma? || i < |after| / 2 then 0 else before[i])
    }

    /** The byte count of the Microsoft codec's clearing is a sample count: half the buffer. */
    method ClearSamples()
      modifies samples
      ensures Cleared(samples[..], old(samples[..]))
    {
      var n := if codec.WavIma? then samples.Length else samples.Length / 2;
      forall i | 0 <= i < n { samples[i] := 0; }
    }

    /** fread of one block. */
    method FillBlock()
      requires block.Length == codec.size && pos + codec.size <= |file|
      modifies block
      ensures block[..] == file[pos..][..codec.size]
    {
      forall i | 0 <= i < block.Length { block[i] := file[pos + i]; }
    }

    method Decode()
      requires Shaped()
      modifies samples
      ensures samples[..] == codec.Decoded(block[..])
    {
      hide ImaBlock.DecodedBlock, MsBlock.DecodedBlock;
      if codec.WavIma? {
        Ima.DecodeBlock(codec.channels, block, samples);
      } else {
        Ms.DecodeBlock(codec.channels, block, samples);
      }
    }

    /** ima_read_block and msadpcm_read_block: the next `len` samples, zeros past the end. */
    method ReadBlock(len: nat) returns (ptr: seq<int>, total: nat)
      requires ReaderValid() && codec.Aligned(len)
      modifies this`blockcount, this`samplecount, this`pos, block, samples
      ensures ReaderValid()
      ensures total == if len <= |old(Remaining())| then len else |old(Remaining())|
      ensures |ptr| == len && ptr[..total] == old(Remaining())[..total] && Remaining() == old(Remaining())[total..]
      ensures forall i :: total <= i < len ==> ptr[i] == 0
    {
      hide Codec.BlockSamples, Codec.Aligned, Codec.Valid, DecodeStream, Remaining;
      ghost var all := Remaining();
      ptr := [];
      while |ptr| < len
        invariant |ptr| <= len && codec.Aligned(len - |ptr|) && ReaderValid()
        invariant all == ptr + Remaining()
        decreases len - |ptr|, samplesPerBlock - samplecount
      {
        if blockcount >= blocks && samplecount >= samplesPerBlock {
          NothingRemains();
          PrefixSuffix(ptr, Remaining());
          total := |ptr|;
          ptr := ptr + seq(len - |ptr|, _ => 0);
          return;
        }
        if samplecount >= samplesPerBlock {
          NextBlockRemains();
          DecodeBlock();
        }
        var part := CopyOut(len - |ptr|);
        codec.AlignedDifference(len - |ptr|, |part|);
        ConcatAssoc(ptr, part, Remaining());
        ptr := ptr + part;
      }
      PrefixSuffix(ptr, Remaining());
      total := |ptr|;
    }

    lemma NothingRemains()
      requires ReaderValid() && blockcount >= blocks && samplecount >= samplesPerBlock
      ensures Remaining() == []
    {
      hide Codec.BlockSamples;
      FlatLinear(samplecount);
      assert file[pos..] == [];
    }

    lemma NextBlockRemains()
      requires ReaderValid() && samplecount >= samplesPerBlock
      ensures Remaining() == DecodeStream(codec, file[pos..])
    {
      hide Codec.BlockSamples, DecodeStream;
      FlatLinear(samplecount);
    }

    /** The memcpy of the read loop. */
    method CopyOut(wanted: nat) returns (part: seq<int>)
      requires ReaderValid() && samplecount < samplesPerBlock && wanted > 0 && codec.Aligned(wanted)
      modifies this`samplecount
      ensures ReaderValid() && 0 < |part| <= wanted && codec.Aligned(|part|)
      ensures old(Remaining()) == part + Remaining()
    {
      hide Codec.BlockSamples, Codec.Aligned, DecodeStream, Adpcm.Flat;
      FlatLinear(samplesPerBlock);
      FlatOrder(0, samplecount);
      FlatOrder(samplecount, samplesPerBlock);
      FlatOrder(samplesPerBlock - samplecount, 0);
      var at := Flat(samplecount);
      var count := Flat(samplesPerBlock - samplecount);
      if wanted <= count {
        count := wanted;
      }
      var frames := count / codec.channels;
      FlatPlus(samplecount, count);
      FlatOrder(samplesPerBlock, samplecount + frames);
      FlatOrder(samplecount, samplecount + frames);
      part := samples[at..at + count];
      samplecount := samplecount + frames;
      assert samples[at..] == part + samples[at + count..];
      ConcatAssoc(part, samples[at + count..], DecodeStream(codec, file[pos..]));
    }

    /** wavlike_ima_seek and msadpcm_seek of a reader: -1 and no change when out of range, else the
        stream goes on at frame `offset`, except at the very end, where a cleared block follows. */
    method Seek(offset: int) returns (result: int)
      requires ReaderValid()
      modifies this`blockcount, this`samplecount, this`pos, block, samples
      ensures ReaderValid()
      ensures offset < 0 || offset > blocks * samplesPerBlock ==> result == -1 && Remaining() == old(Remaining())
      ensures 0 <= offset <= blocks * samplesPerBlock ==>
                result == offset && 0 <= Flat(offset) <= |DecodeStream(codec, file)|
                && (Remaining() == DecodeStream(codec, file)[Flat(offset)..] <==> offset < blocks * samplesPerBlock)
    {
      hide Codec.BlockSamples, Codec.Valid, DecodeStream, Adpcm.Flat, Times;
      if offset == 0 {
        SeekPosition(0, 0, 0);
        pos, blockcount := 0, 0;
        DecodeBlock();
        FlatLinear(0);
        samplecount := 0;
        return 0;
      }
      if offset < 0 || offset > blocks * samplesPerBlock {
        return -1;
      }
      var newblock, newsample := offset / samplesPerBlock, offset % samplesPerBlock;
      SeekPosition(offset, newblock, newsample);
      pos := newblock * codec.size;
      blockcount := newblock;
      StartBlock(newsample);
      if newblock < blocks {
        SkipTwice(DecodeStream(codec, file), Times(newblock, codec.BlockSamples()), Flat(newsample));
      }
      FlatLinear(0);
      result := newblock * samplesPerBlock + newsample;
    }

    /** Decode the block at the position and move into it. */
    method StartBlock(newsample: int)
      requires ReaderValid() && 0 <= newsample < samplesPerBlock
      modifies this`blockcount, this`samplecount, this`pos, block, samples
      ensures ReaderValid() && 0 <= Flat(newsample)
      ensures old(blockcount) < blocks ==> Flat(newsample) <= |DecodeStream(codec, file[old(pos)..])|
      ensures old(blockcount) < blocks ==> Remaining() == DecodeStream(codec, file[old(pos)..])[Flat(newsample)..]
      ensures old(blockcount) >= blocks ==> |Remaining()| == codec.BlockSamples() - Flat(newsample)
    {
      hide Codec.BlockSamples, Codec.Valid, DecodeStream, Adpcm.Flat, Times;
      DecodeBlock();
      RemainingSkipped(newsample);
      ghost var whole := Remaining();
      samplecount := newsample;
      assert Remaining() == whole[Flat(newsample)..];
    }

    /** Where a seek lands, in bytes of the file and samples of the stream. */
    lemma SeekPosition(offset: int, newblock: int, newsample: int)
      requires Shaped() && 0 <= blocks && |file| == Times(blocks, codec.size)
      requires 0 <= offset <= blocks * samplesPerBlock
      requires offset == newblock * samplesPerBlock + newsample && 0 <= newsample < samplesPerBlock
      ensures 0 <= newblock <= blocks && newblock * codec.size == Times(newblock, codec.size) <= |file|
      ensures offset < blocks * samplesPerBlock <==> newblock < blocks
      ensures newblock == blocks ==> newsample == 0
      ensures 0 <= Flat(offset) == Times(newblock, codec.BlockSamples()) + Flat(newsample)
      ensures Flat(offset) <= |DecodeStream(codec, file)| == Times(blocks, codec.BlockSamples())
      ensures DecodeStream(codec, file)[Times(newblock, codec.BlockSamples())..]
           == DecodeStream(codec, file[Times(newblock, codec.size)..])
    {
      hide Codec.BlockSamples, DecodeStream;
      var n, spb := codec.BlockSamples(), samplesPerBlock;
      BlockRange(newblock, newsample, blocks, spb);
      TimesIsProduct(newblock, codec.size);
      TimesIsProduct(newblock, n);
      TimesIsProduct(blocks, n);
      TimesMonotone(newblock, blocks, codec.size);
      DecodeLength(codec, file, blocks);
      SkipBlocks(codec, file, newblock);
      FlatSum(newblock, newsample);
      FlatOrder(0, offset);
      FlatOrder(blocks * spb, offset);
      FlatSum(blocks, 0);
    }

    lemma FlatSum(b: int, r: int)
      requires Shaped()
      ensures Flat(b * samplesPerBlock + r) == b * codec.BlockSamples() + Flat(r)
    {
      hide Codec.BlockSamples;
      var n, spb, ch := codec.BlockSamples(), samplesPerBlock, codec.channels;
      assert (b * spb + r) * ch == (b * spb) * ch + r * ch;
      MulAssoc(b, spb, ch);
    }

    /** Moving samplecount forward inside a block drops that many samples. */
    lemma RemainingSkipped(newsample: int)
      requires ReaderValid() && samplecount == 0 && 0 <= newsample <= samplesPerBlock
      ensures 0 <= Flat(newsample) <= samples.Length && Flat(newsample) <= |Remaining()|
      ensures samples[Flat(newsample)..] + DecodeStream(codec, file[pos..]) == Remaining()[Flat(newsample)..]
    {
      hide Codec.BlockSamples, DecodeStream;
      FlatLinear(0);
      FlatLinear(newsample);
      FlatLinear(samplesPerBlock);
      FlatOrder(samplesPerBlock, newsample);
      FlatOrder(0, newsample);
      var rest := DecodeStream(codec, file[pos..]);
      assert samples[0..] == samples[..];
      DropInFirst(samples[..], rest, Flat(newsample));
    }
  }

  lemma DropInFirst<T>(a: seq<T>, b: seq<T>, i: nat)
    requires i <= |a|
    ensures (a + b)[i..] == a[i..] + b
  {
  }

  lemma BlockRange(b: int, r: int, n: int, spb: int)
    requires spb > 0 && 0 <= r < spb && n >= 0 && 0 <= b * spb + r <= n * spb
    ensures 0 <= b <= n && (b * spb + r < n * spb <==> b < n) && (b == n ==> r == 0)
  {
    MulLess(b, 0, spb);
    MulLess(n, b, spb);
    MulLess(b, n, spb);
  }

  lemma {:induction false} TimesMonotone(k: nat, n: nat, x: nat)
    requires k <= n
    ensures Times(k, x) <= Times(n, x)
    decreases n
  {
    if k < n { TimesMonotone(k, n - 1, x); }
  }

  lemma {:induction false} TimesStep(k: nat, n: nat, x: nat)
    requires 0 < k <= n
    ensures Times(k, x) == Times(k - 1, x) + x && Times(k, x) <= Times(n, x)
    decreases n
  {
    if k < n { TimesStep(k, n - 1, x); }
  }

  /** Bytes `done` and a coder at `index` whose buffer holds `held`, with `rest` to come, amount to
      coding `all` from `index0` and `base`. */
  ghost predicate Balanced(codec: Codec, index0: seq<int>, base: seq<int>, all: seq<int>, done: seq<Byte>,
                           index: seq<int>, held: seq<int>, rest: seq<int>)
    requires codec.Writable() && codec.ValidCarry(index0) && codec.ValidCarry(index)
    requires |base| == |held| == codec.BlockSamples()
  {
    && AllInt16(all) && AllInt16(rest)
    && EncodeStream(codec, index0, all) == done + EncodeStream(codec, index, rest)
    && CarryStream(codec, index0, all) == CarryStream(codec, index, rest)
    && Leftover(codec.BlockSamples(), all) == Leftover(codec.BlockSamples(), rest)
    && Residue(codec, index0, base, all) == Residue(codec, index, held, rest)
  }

  lemma BalancedStart(codec: Codec, index0: seq<int>, base: seq<int>, all: seq<int>)
    requires codec.Writable() && codec.ValidCarry(index0) && AllInt16(all) && |base| == codec.BlockSamples()
    ensures Balanced(codec, index0, base, all, [], index0, base, all)
  {
    hide EncodeStream, CarryStream, Leftover, Residue, Codec.BlockSamples;
    EmptyFirst([], EncodeStream(codec, index0, all));
  }

  lemma BalancedBlock(codec: Codec, index0: seq<int>, base: seq<int>, all: seq<int>, done: seq<Byte>, index: seq<int>,
                      held: seq<int>, s: seq<int>, rest: seq<int>)
    requires codec.Writable() && codec.ValidCarry(index0) && codec.ValidCarry(index) && codec.ValidBlock(s)
    requires |base| == |held| == codec.BlockSamples()
    requires AllInt16(rest) && Balanced(codec, index0, base, all, done, index, held, s + rest)
    ensures Balanced(codec, index0, base, all, done + codec.Encoded(s, index), codec.Carry(s, index),
                     codec.AfterBlock(s, index), rest)
  {
    hide Codec.BlockSamples, Codec.Encoded, Codec.Carry, Codec.AfterBlock, EncodeStream, CarryStream, Leftover, Residue;
    BlockFirst(codec, index, s, rest);
    ResidueFirst(codec, index, held, s, rest);
    ConcatAssoc(done, codec.Encoded(s, index), EncodeStream(codec, codec.Carry(s, index), rest));
  }

  lemma BalancedEnd(codec: Codec, index0: seq<int>, base: seq<int>, all: seq<int>, done: seq<Byte>, index: seq<int>,
                    held: seq<int>, rest: seq<int>)
    requires codec.Writable() && codec.ValidCarry(index0) && codec.ValidCarry(index)
    requires |base| == |held| == codec.BlockSamples() > |rest|
    requires Balanced(codec, index0, base, all, done, index, held, rest)
    ensures AllInt16(all) && EncodeStream(codec, index0, all) == done
    ensures CarryStream(codec, index0, all) == index && Leftover(codec.BlockSamples(), all) == rest
    ensures Residue(codec, index0, base, all) == held
  {
    hide Codec.BlockSamples, Codec.Encoded, Codec.Carry, Codec.AfterBlock;
    EmptyLast(done, EncodeStream(codec, index, rest));
  }

  lemma MsLeavesInt16(ch: int, s: seq<int>, now: seq<int>)
    requires (ch == 1 || ch == 2) && |s| >= 5 * ch && |now| == |s| && AllInt16(s) && Ms.CodedTo(ch, s, now, |s|)
    ensures AllInt16(now)
  {
    forall k | 0 <= k < |s| ensures IsInt16(now[k]) {
      if k >= ch { MsBlock.EncoderStep(ch, s, k); }
    }
  }
}
