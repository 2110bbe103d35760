/** alac_read_i, alac_decode_block, alac_seek and alac_reader_calc_frames over one object per
    open file. */
module AlacReader {
  import opened Bits
  import opened Chunks
  import opened AlacTable
  import opened AlacStream
  import opened AlacPlay

  const WORD := 0x1_0000_0000

  class Reader {
    const codec: BlockCodec
    const framesPerBlock: nat
    const file: seq<Byte>
    const dataOffset: nat
    const pakt: PacketTable
    const buffer: array<Sample>
    var framesThisBlock: nat
    var partialBlockFrames: nat
    var inputDataPos: nat
    /** psf->sf.frames */
    var frames: nat
    /** The table's sizes, which reading never changes. */
    ghost const sizes: seq<Word32>

    /** alac_reader_init on a `pakt` chunk of `paktSize` bytes. */
    constructor Open(codec: BlockCodec, framesPerBlock: nat, chunk: array<Byte>, paktSize: nat, file: seq<Byte>,
                     dataOffset: nat)
      requires codec.Valid() && framesPerBlock <= FRAME_LENGTH && chunk.Length == paktSize + 5
      ensures Valid() && fresh(pakt) && fresh(pakt.packetSize) && fresh(buffer)
      ensures this.codec == codec && this.framesPerBlock == framesPerBlock && this.file == file
      ensures this.dataOffset == dataOffset
      ensures sizes == Parse(chunk[..paktSize], HEADER_SIZE) && Remaining() == Stream(codec, sizes, file, 0, dataOffset)
      ensures WellFormed() ==>
                (codec.Flat(frames) == |StreamFrom(codec, sizes, file, dataOffset, 0)|
                 <==> |sizes| * framesPerBlock < WORD)
    {
      this.codec, this.framesPerBlock, this.file, this.dataOffset := codec, framesPerBlock, file, dataOffset;
      pakt := new PacketTable.ReadDecode(chunk, paktSize);
      codec.FlatOrder(0, MAX_FRAME_SIZE);
      buffer := new Sample[codec.Flat(MAX_FRAME_SIZE)](_ => 0);
      framesThisBlock, partialBlockFrames, inputDataPos, frames := 0, 0, 0, 0;
      sizes := Parse(chunk[..paktSize], HEADER_SIZE);
      new;
      frames := CalcFrames();
      var start := Seek(0);
    }

    ghost predicate Shaped()
      reads `framesThisBlock, pakt, pakt.packetSize
    {
      && codec.Valid() && 1 <= codec.channels && framesPerBlock <= FRAME_LENGTH
      && pakt.Valid() && pakt.Sizes() == sizes && pakt.packetSize as object != buffer as object
      && buffer.Length == codec.Flat(MAX_FRAME_SIZE)
      && 0 <= codec.Flat(framesThisBlock) <= buffer.Length && framesThisBlock <= FRAME_LENGTH
    }

    /** The input position agrees with the table. */
    ghost predicate Tracks()
      requires pakt.current <= |sizes|
      reads `inputDataPos, pakt`current
    {
      Intact(sizes, file, dataOffset) ==> inputDataPos == At(sizes, dataOffset, pakt.current)
    }

    ghost predicate Valid()
      reads this, pakt, pakt.packetSize
    {
      Shaped() && Tracks()
    }

    /** What is left of the decoded block. */
    ghost function Unplayed(): seq<Sample>
      requires Shaped()
      reads this, pakt, pakt.packetSize, buffer
    {
      Part(buffer[..], partialBlockFrames, framesThisBlock)
    }

    /** Frames `from` to `to` of `samples`. */
    ghost function Part(samples: seq<Sample>, from: nat, to: nat): seq<Sample>
    {
      if from < to && 0 <= codec.Flat(from) <= codec.Flat(to) <= |samples| then
        samples[codec.Flat(from)..codec.Flat(to)]
      else []
    }

    /** All that reading will still deliver. */
    ghost function Remaining(): seq<Sample>
      requires Shaped()
      reads this, pakt, pakt.packetSize, buffer
    {
      Unplayed() + Stream(codec, sizes, file, pakt.current, inputDataPos)
    }

    /** The buffer holds just these samples. */
    ghost predicate Holds(samples: seq<Sample>)
      reads `framesThisBlock, buffer
    {
      codec.Flat(framesThisBlock) == |samples| <= buffer.Length && buffer[..|samples|] == samples
    }

    /** alac_decode_block */
    method DecodeBlock() returns (ok: bool)
      requires Shaped()
      modifies this`framesThisBlock, this`partialBlockFrames, this`inputDataPos, pakt`current, buffer
      ensures Shaped() && ok == Playable(sizes, file, old(pakt.current), old(inputDataPos))
      ensures ok ==> pakt.current == old(pakt.current) + 1 <= |sizes| && partialBlockFrames == 0
      ensures ok ==> inputDataPos == old(inputDataPos) + sizes[old(pakt.current)] <= |file|
      ensures ok ==> Holds(codec.decode(file[old(inputDataPos)..inputDataPos]))
      ensures !ok ==> inputDataPos == old(inputDataPos) && framesThisBlock == old(framesThisBlock)
      ensures !ok ==> partialBlockFrames == old(partialBlockFrames) && buffer[..] == old(buffer[..])
      ensures !ok ==> pakt.current == if old(pakt.current) < |sizes| then old(pakt.current) + 1 else old(pakt.current)
    {
      hide BlockCodec.Flat;
      var packetSize := pakt.NextPacketSize();
      if packetSize == 0 {
        return false;
      }
      if packetSize > BYTE_BUFFER_SIZE {
        return false;
      }
      if inputDataPos + packetSize > |file| {
        return false;
      }
      var samples := codec.decode(file[inputDataPos..inputDataPos + packetSize]);
      inputDataPos := inputDataPos + packetSize;
      Take(samples);
      partialBlockFrames := 0;
      codec.FlatSum(0, 0);
      codec.FlatOrder(0, framesThisBlock);
      ok := true;
    }

    /** alac_decode leaves its frames at the front of the buffer. */
    method Take(samples: seq<Sample>)
      requires Shaped() && codec.Aligned(|samples|) && |samples| <= codec.Flat(FRAME_LENGTH)
      modifies this`framesThisBlock, buffer
      ensures Shaped() && Holds(samples)
    {
      hide BlockCodec.Flat, BlockCodec.Valid;
      codec.FlatOrder(FRAME_LENGTH, MAX_FRAME_SIZE);
      codec.FlatQuotient(|samples|);
      codec.FlatOrder(|samples| / codec.channels, FRAME_LENGTH);
      forall k | 0 <= k < |samples| { buffer[k] := samples[k]; }
      framesThisBlock := |samples| / codec.channels;
    }

    /** A successful decode moves on by one packet of the stream. */
    lemma NextBlock(cur: nat, pos: nat)
      requires Playable(sizes, file, cur, pos)
      ensures Stream(codec, sizes, file, cur, pos)
           == codec.decode(file[pos..pos + sizes[cur]]) + Stream(codec, sizes, file, cur + 1, pos + sizes[cur])
    {
    }

    /** In step with an intact table, decoding stays in step and only fails at the end for good. */
    lemma StaysInStep(cur: nat, pos: nat)
      requires cur <= |sizes| && Intact(sizes, file, dataOffset) && pos == At(sizes, dataOffset, cur)
      ensures Playable(sizes, file, cur, pos) ==> cur < |sizes| && pos + sizes[cur] == At(sizes, dataOffset, cur + 1)
      ensures !Playable(sizes, file, cur, pos) && cur < |sizes| ==> pos == At(sizes, dataOffset, cur + 1)
      ensures !Playable(sizes, file, cur, pos) ==> Stream(codec, sizes, file, cur, pos) == []
      ensures !Playable(sizes, file, cur, pos) && cur < |sizes| ==> Stream(codec, sizes, file, cur + 1, pos) == []
    {
      AtNext(sizes, file, dataOffset, cur);
      if cur < |sizes| { AtNext(sizes, file, dataOffset, cur + 1); }
    }

    /** alac_decode_block as a step of the stream. */
    method NextInStream() returns (ok: bool)
      requires Valid()
      modifies this`framesThisBlock, this`partialBlockFrames, this`inputDataPos, pakt`current, buffer
      ensures Valid() && ok == Playable(sizes, file, old(pakt.current), old(inputDataPos))
      ensures ok ==> Remaining() == Stream(codec, sizes, file, old(pakt.current), old(inputDataPos))
      ensures ok ==>
                |sizes| > old(pakt.current) && inputDataPos == old(inputDataPos) + sizes[old(pakt.current)] <= |file|
      ensures ok ==> Holds(codec.decode(file[old(inputDataPos)..inputDataPos]))
      ensures old(pakt.current) <= pakt.current <= |sizes| &&
              (ok ==> pakt.current == old(pakt.current) + 1 && partialBlockFrames == 0)
      ensures !ok ==> Stream(codec, sizes, file, old(pakt.current), old(inputDataPos)) == []
      ensures !ok ==> framesThisBlock == old(framesThisBlock) && partialBlockFrames == old(partialBlockFrames)
      ensures !ok ==> buffer[..] == old(buffer[..])
      ensures !ok && Intact(sizes, file, dataOffset) ==> Stream(codec, sizes, file, pakt.current, inputDataPos) == []
    {
      hide BlockCodec.Flat, BlockCodec.Valid, Intact, Playable, Stream, At, Reader.Part, Reader.From;
      ghost var cur, pos := pakt.current, inputDataPos;
      ok := DecodeBlock();
      if ok {
        NextBlock(cur, pos);
        HeldPart(codec.decode(file[pos..inputDataPos]), 0);
      } else {
        NothingFrom(cur, pos);
      }
      if Intact(sizes, file, dataOffset) { StaysInStep(cur, pos); }
    }

    /** What `from` frames into a held block is left of it. */
    lemma HeldPart(samples: seq<Sample>, from: nat)
      requires Shaped() && Holds(samples)
      ensures Part(buffer[..], from, framesThisBlock) == From(samples, from)
      ensures From(samples, 0) == samples
    {
      hide BlockCodec.Flat;
      codec.FlatSum(0, 0);
      codec.FlatOrder(from, framesThisBlock);
      codec.FlatOrder(0, from);
    }

    lemma NothingFrom(cur: nat, pos: nat)
      requires !Playable(sizes, file, cur, pos)
      ensures Stream(codec, sizes, file, cur, pos) == []
    {
    }

    /** alac_read_i: the next `len` samples, or as many as are left. */
    method Read(len: nat) returns (ptr: seq<Sample>)
      requires Valid() && codec.Aligned(len)
      modifies this`framesThisBlock, this`partialBlockFrames, this`inputDataPos, pakt`current, buffer
      ensures Valid()
      ensures |ptr| == if len <= |old(Remaining())| then len else |old(Remaining())|
      ensures ptr == old(Remaining())[..|ptr|]
      ensures |ptr| == len ==> Remaining() == old(Remaining())[len..]
      ensures |ptr| < len && Intact(sizes, file, dataOffset) ==> Remaining() == []
    {
      hide BlockCodec.Flat, BlockCodec.Valid, BlockCodec.Aligned, Intact, Stream, Playable, Reader.Shaped, Reader.Part;
      ghost var all := Remaining();
      ptr := [];
      ShapedFacts();
      while |ptr| < len
        invariant |ptr| <= len && Valid() && 1 <= codec.channels && codec.Aligned(len - |ptr|)
        invariant pakt.current <= |sizes| && all == ptr + Remaining()
        decreases |sizes| - pakt.current, len - |ptr|
      {
        if partialBlockFrames >= framesThisBlock {
          NothingUnplayed();
          var ok := NextInStream();
          if !ok {
            assert ptr + [] == ptr;
            NothingUnplayed();
            return;
          }
        }
        if partialBlockFrames < framesThisBlock {
          var part := CopyOut(len - |ptr|);
          ConcatAssoc(ptr, part, Remaining());
          codec.AlignedSum(len - |ptr|, |part|);
          ptr := ptr + part;
        }
      }
      PrefixSuffix(ptr, Remaining());
    }

    lemma ShapedFacts()
      requires Shaped()
      ensures 1 <= codec.channels && pakt.current <= |sizes|
    {
    }

    lemma NothingUnplayed()
      requires Shaped() && partialBlockFrames >= framesThisBlock
      ensures Unplayed() == [] && Remaining() == Stream(codec, sizes, file, pakt.current, inputDataPos)
    {
    }

    /** The copy of the read loop: as much as the decoded block still has. */
    method CopyOut(len: nat) returns (part: seq<Sample>)
      requires Valid() && 0 < len && codec.Aligned(len) && partialBlockFrames < framesThisBlock
      modifies this`partialBlockFrames
      ensures Valid() && 0 < |part| <= len && codec.Aligned(|part|)
      ensures old(Remaining()) == part + Remaining()
    {
      hide BlockCodec.Flat, BlockCodec.Valid, BlockCodec.Aligned, Intact, Stream, Playable, Reader.Part;
      RoomOut(partialBlockFrames, framesThisBlock, len);
      var readcount := codec.Flat(framesThisBlock - partialBlockFrames);
      readcount := if readcount > len then len else readcount;
      NextPart(readcount);
      var at := codec.Flat(partialBlockFrames);
      part := buffer[at..][..readcount];
      partialBlockFrames := partialBlockFrames + readcount / codec.channels;
    }

    /** The next `n` samples of a decoded block, and what is ahead behind them. */
    lemma NextPart(n: nat)
      requires Shaped() && partialBlockFrames < framesThisBlock && codec.Flat(n / codec.channels) == n
      requires partialBlockFrames + n / codec.channels <= framesThisBlock
      ensures 0 <= codec.Flat(partialBlockFrames) <= codec.Flat(partialBlockFrames) + n <= buffer.Length
      ensures Remaining()
           == buffer[codec.Flat(partialBlockFrames)..][..n]
              + (Part(buffer[..], partialBlockFrames + n / codec.channels, framesThisBlock)
                 + Stream(codec, sizes, file, pakt.current, inputDataPos))
    {
      hide BlockCodec.Flat, BlockCodec.Valid, BlockCodec.Aligned, Stream, Reader.Part;
      PartSplit(buffer[..], partialBlockFrames, n / codec.channels, framesThisBlock);
      ConcatAssoc(buffer[codec.Flat(partialBlockFrames)..][..n],
                  Part(buffer[..], partialBlockFrames + n / codec.channels, framesThisBlock),
                  Stream(codec, sizes, file, pakt.current, inputDataPos));
    }

    /** How much of `len` samples the frames `from` to `to` give. */
    lemma RoomOut(from: nat, to: nat, len: nat)
      requires 1 <= codec.channels && from < to && 0 < len && codec.Aligned(len)
      ensures 0 <= codec.Flat(from)
      ensures var room := codec.Flat(to - from);
              var n := if room > len then len else room;
              0 < n <= len && codec.Aligned(n) && from + n / codec.channels <= to
              && codec.Flat(n / codec.channels) == n && codec.Flat(from) + n <= codec.Flat(to)
    {
      hide BlockCodec.Flat, BlockCodec.Aligned;
      codec.FlatSum(0, 0);
      codec.FlatSum(to, from);
      codec.FlatOrder(from, to);
      codec.FlatOrder(0, from);
      codec.AlignedFlat(to - from);
      codec.FlatQuotient(len);
      codec.FlatOrder(len / codec.channels, to - from);
    }

    lemma PartSplit(samples: seq<Sample>, from: nat, n: nat, to: nat)
      requires 1 <= codec.channels && from + n <= to && 0 <= codec.Flat(to) <= |samples| && from < to
      ensures 0 <= codec.Flat(from) <= codec.Flat(from) + codec.Flat(n) <= |samples| && 0 <= codec.Flat(n)
      ensures Part(samples, from, to) == samples[codec.Flat(from)..][..codec.Flat(n)] + Part(samples, from + n, to)
    {
      hide BlockCodec.Flat;
      codec.FlatSum(0, 0);
      codec.FlatSum(from, n);
      codec.FlatOrder(0, from);
      codec.FlatOrder(0, n);
      codec.FlatOrder(from + n, to);
    }

    /** The frames of `all` from `offset` on. */
    ghost function From(all: seq<Sample>, offset: nat): seq<Sample>
    {
      if 0 <= codec.Flat(offset) <= |all| then all[codec.Flat(offset)..] else []
    }

    /** A position inside the packets of a well-formed file. */
    ghost predicate Inside(offset: int)
    {
      && 1 <= codec.channels && 1 <= framesPerBlock && 0 <= offset <= |sizes| * framesPerBlock % WORD
      && Intact(sizes, file, dataOffset) && Regular(codec, sizes, file, dataOffset, framesPerBlock)
      && offset / framesPerBlock < PacketCount(sizes)
    }

    /** An accepted position behind the last packet of a well-formed file. */
    ghost predicate Past(offset: int)
    {
      && 1 <= codec.channels && 1 <= framesPerBlock && 0 < offset <= |sizes| * framesPerBlock % WORD
      && Intact(sizes, file, dataOffset) && Regular(codec, sizes, file, dataOffset, framesPerBlock)
      && offset / framesPerBlock >= PacketCount(sizes)
    }

    /** Frame `offset` is next, and its block is in the buffer. */
    ghost predicate Landed(offset: nat)
      requires Shaped() && Inside(offset)
      reads this, pakt, pakt.packetSize, buffer
    {
      var k := offset / framesPerBlock;
      && Remaining() == From(StreamFrom(codec, sizes, file, dataOffset, 0), offset)
      && (offset == 0 ==> pakt.current == 0 && framesThisBlock == 0)
      && (offset > 0 ==> pakt.current == k + 1
                          && codec.Flat(framesThisBlock) == |BlockAt(codec, sizes, file, dataOffset, k)|)
    }

    /** alac_seek in read mode. A position is refused if and only if it is negative or behind the full
        blocks of the table, counted by a product of 32-bit unsigned numbers: in a well-formed file
        that this product does not overflow, every frame before the end can be sought, and what
        follows is the stream from there. Past the packets nothing is decoded and the block decoded
        last stays. */
    method Seek(offset: int) returns (result: int)
      requires Shaped()
      modifies this`framesThisBlock, this`partialBlockFrames, this`inputDataPos, pakt`current, buffer
      ensures Shaped()
      ensures result == -1 <==> offset < 0 || offset > |sizes| * framesPerBlock % WORD
      ensures result == -1 ==> unchanged(this) && unchanged(pakt) && unchanged(buffer)
      ensures result != -1 ==> result == offset && Tracks()
      ensures offset == 0 ==> Remaining() == Stream(codec, sizes, file, 0, dataOffset)
      ensures Inside(offset) ==> Landed(offset)
      ensures WellFormed() && |sizes| * framesPerBlock < WORD && offset >= 0 ==>
                var all := StreamFrom(codec, sizes, file, dataOffset, 0);
                codec.Flat(offset) < |all| ==>
                  result == offset && codec.Flat(offset) >= 0 && Remaining() == all[codec.Flat(offset)..]
      ensures Past(offset) ==> Remaining() == Part(old(buffer[..]), offset % framesPerBlock, old(framesThisBlock))
    {
      hide BlockCodec.Flat, BlockCodec.Valid, Intact, Stream, Playable, PacketCount, Regular, BlockAt, StreamFrom,
           From, Part, At;
      if offset >= 0 { BeforeTheEnd(offset); }
      if offset == 0 {
        codec.NoFrames(MAX_FRAME_SIZE);
        framesThisBlock := 0;
        inputDataPos := dataOffset;
        pakt.current := 0;
        Rewound();
        return 0;
      }
      if offset < 0 || offset > pakt.count * framesPerBlock % WORD {
        return -1;
      }
      SomeFrames(offset);
      var newblock, newsample := offset / framesPerBlock, offset % framesPerBlock;
      BlockInTable(offset, newblock);
      StartBlock(newblock, newsample);
      if Intact(sizes, file, dataOffset) { InsidePlayable(newblock); }
      if Inside(offset) { SeekLands(newblock, newsample, offset); }
      result := newblock * framesPerBlock + newsample;
    }

    /** A frame of the stream is inside the packets. */
    lemma BeforeTheEnd(offset: nat)
      ensures WellFormed() && |sizes| * framesPerBlock < WORD
              && codec.Flat(offset) < |StreamFrom(codec, sizes, file, dataOffset, 0)| ==>
                var all := StreamFrom(codec, sizes, file, dataOffset, 0);
                Inside(offset) && codec.Flat(offset) >= 0 && From(all, offset) == all[codec.Flat(offset)..]
    {
      hide BlockCodec.Flat, StreamFrom, BlockAt, At, Intact;
      var all := StreamFrom(codec, sizes, file, dataOffset, 0);
      if WellFormed() && |sizes| * framesPerBlock < WORD && codec.Flat(offset) < |all| {
        StreamLength(codec, sizes, file, dataOffset, framesPerBlock);
        codec.FlatSum(0, 0);
        codec.FlatOrder(0, offset);
        var blocks := PacketCount(sizes);
        codec.FlatSum((blocks - 1) * framesPerBlock, framesPerBlock);
        assert (blocks - 1) * framesPerBlock + framesPerBlock == blocks * framesPerBlock;
        codec.FlatOrder(blocks * framesPerBlock, offset);
        MulLess(blocks - 1, |sizes|, framesPerBlock);
        MulLess(offset / framesPerBlock, blocks, framesPerBlock);
      }
    }

    /** In a well-formed file the blocks that can be decoded are the packets of the table. */
    lemma InsidePlayable(k: nat)
      requires Intact(sizes, file, dataOffset) && k <= |sizes|
      ensures Playable(sizes, file, k, At(sizes, dataOffset, k)) <==> k < PacketCount(sizes)
      ensures k < PacketCount(sizes) ==>
                var pos := At(sizes, dataOffset, k);
                pos + sizes[k] <= |file|
                && BlockAt(codec, sizes, file, dataOffset, k) == codec.decode(file[pos..pos + sizes[k]])
                && StreamFrom(codec, sizes, file, dataOffset, k + 1)
                   == Stream(codec, sizes, file, k + 1, pos + sizes[k])
    {
      hide Stream;
      AtNext(sizes, file, dataOffset, k);
    }

    lemma Rewound()
      requires Shaped() && framesThisBlock == 0 && pakt.current == 0 && inputDataPos == dataOffset
      ensures Tracks() && Remaining() == Stream(codec, sizes, file, 0, dataOffset)
      ensures StreamFrom(codec, sizes, file, dataOffset, 0) == Stream(codec, sizes, file, 0, dataOffset)
      ensures From(StreamFrom(codec, sizes, file, dataOffset, 0), 0) == StreamFrom(codec, sizes, file, dataOffset, 0)
    {
      hide Stream, Intact;
      codec.FlatSum(0, 0);
      assert sizes[..0] == [];
    }

    /** Blocks of no frames leave no position but 0. */
    lemma SomeFrames(offset: int)
      requires 0 < offset <= |sizes| * framesPerBlock % WORD
      ensures 1 <= framesPerBlock
    {
      var p := |sizes| * framesPerBlock;
      assert framesPerBlock == 0 ==> p == 0;
    }

    lemma BlockInTable(offset: int, newblock: int)
      requires 1 <= framesPerBlock && 0 <= offset <= |sizes| * framesPerBlock % WORD
      requires newblock == offset / framesPerBlock
      ensures 0 <= newblock <= |sizes|
    {
      var n, p := |sizes|, |sizes| * framesPerBlock;
      assert p % WORD <= p by { MulLess(-1, n, framesPerBlock); }
      assert newblock * framesPerBlock <= offset;
      MulLess(n, newblock, framesPerBlock);
      MulLess(newblock, 0, framesPerBlock);
    }

    /** Decode block `newblock` and move into it by `newsample` frames. */
    method StartBlock(newblock: nat, newsample: nat)
      requires Shaped() && newblock <= |sizes|
      modifies this`framesThisBlock, this`partialBlockFrames, this`inputDataPos, pakt`current, buffer
      ensures Valid()
      ensures var pos := At(sizes, dataOffset, newblock);
              Playable(sizes, file, newblock, pos) ==>
                var d := codec.decode(file[pos..pos + sizes[newblock]]);
                pakt.current == newblock + 1 && codec.Flat(framesThisBlock) == |d|
                && Remaining() == From(d, newsample) + Stream(codec, sizes, file, newblock + 1, pos + sizes[newblock])
      ensures !Playable(sizes, file, newblock, At(sizes, dataOffset, newblock)) && Intact(sizes, file, dataOffset)
              ==> Remaining() == Part(old(buffer[..]), newsample, old(framesThisBlock))
    {
      hide BlockCodec.Flat, BlockCodec.Valid, Intact, Stream, Playable;
      ghost var pos := At(sizes, dataOffset, newblock);
      var before := pakt.BlockOffset(newblock);
      inputDataPos := dataOffset + before;
      pakt.current := newblock;
      var ok := NextInStream();
      partialBlockFrames := newsample;
      if ok {
        HeldPart(codec.decode(file[pos..inputDataPos]), newsample);
      } else {
        EmptyLast(Unplayed(), Stream(codec, sizes, file, pakt.current, inputDataPos));
      }
    }

    /** The rest of a block and the blocks after it are the stream from there. */
    lemma SeekLands(newblock: nat, newsample: nat, offset: nat)
      requires 1 <= codec.channels && Intact(sizes, file, dataOffset)
      requires Regular(codec, sizes, file, dataOffset, framesPerBlock)
      requires newblock < PacketCount(sizes) && offset == newblock * framesPerBlock + newsample
      requires newsample < framesPerBlock
      ensures From(BlockAt(codec, sizes, file, dataOffset, newblock), newsample)
              + StreamFrom(codec, sizes, file, dataOffset, newblock + 1)
           == From(StreamFrom(codec, sizes, file, dataOffset, 0), offset)
    {
      hide BlockCodec.Flat, Intact, StreamFrom, BlockAt, PacketCount;
      var all, block := StreamFrom(codec, sizes, file, dataOffset, 0),
          BlockAt(codec, sizes, file, dataOffset, newblock);
      SkipBlocks(codec, sizes, file, dataOffset, framesPerBlock, newblock);
      StreamNext(codec, sizes, file, dataOffset, newblock);
      StreamNext(codec, sizes, file, dataOffset, newblock + 1);
      codec.FlatSum(newblock * framesPerBlock, newsample);
      codec.FlatOrder(newsample, framesPerBlock);
      codec.FlatSum(0, 0);
      codec.FlatOrder(0, newsample);
      DropInto(all, codec.Flat(newblock * framesPerBlock), block,
               StreamFrom(codec, sizes, file, dataOffset, newblock + 1), codec.Flat(newsample));
    }

    /** A file whose table describes it: a header, then packets of full blocks and a last one. */
    ghost predicate WellFormed()
    {
      && 1 <= codec.channels && 1 <= framesPerBlock && dataOffset > 0 && Intact(sizes, file, dataOffset)
      && Regular(codec, sizes, file, dataOffset, framesPerBlock)
    }

    /** alac_reader_calc_frames: every frame is counted, unless the 32-bit product of table length
        and block length overflows. */
    method CalcFrames() returns (frames: nat)
      requires Shaped() && framesThisBlock == 0
      modifies this`framesThisBlock, this`partialBlockFrames, this`inputDataPos, pakt`current, buffer
      ensures Shaped()
      ensures WellFormed() ==>
                (codec.Flat(frames) == |StreamFrom(codec, sizes, file, dataOffset, 0)|
                 <==> |sizes| * framesPerBlock < WORD)
    {
      hide BlockCodec.Flat, BlockCodec.Valid, Stream, Playable, Regular, BlockAt, StreamFrom, From, Part, At, Intact;
      var blocks := CountBlocks();
      if blocks == 0 {
        NoBlocks();
        return 0;
      }
      frames := framesPerBlock * (blocks - 1) % WORD;
      if WellFormed() { Products(blocks, |sizes|, framesPerBlock); }
      var last := LastBlock(blocks, frames);
      frames := frames + last;
      pakt.current := 0;
      if WellFormed() { FrameCount(frames, last); }
    }

    /** The seek to the last block and the decoding of what is there. */
    method LastBlock(blocks: nat, frames: nat) returns (last: nat)
      requires Shaped() && framesThisBlock == 0 && blocks > 0 && frames == framesPerBlock * (blocks - 1) % WORD
      requires WellFormed() ==> blocks == PacketCount(sizes) && pakt.current == |sizes|
      modifies this`framesThisBlock, this`partialBlockFrames, this`inputDataPos, pakt`current, buffer
      ensures Shaped() && last <= FRAME_LENGTH
      ensures WellFormed() && |sizes| * framesPerBlock < WORD ==>
                codec.Flat(last) == |BlockAt(codec, sizes, file, dataOffset, blocks - 1)|
      ensures WellFormed() && frames > |sizes| * framesPerBlock % WORD ==> last == 0
    {
      hide BlockCodec.Flat, BlockCodec.Valid, Stream, Playable, Regular, BlockAt, StreamFrom, From, Part, At, Intact,
           PacketCount;
      if WellFormed() { Products(blocks, |sizes|, framesPerBlock); }
      var sought := Seek(frames);
      ghost var cur, pos := pakt.current, inputDataPos;
      var ok := DecodeBlock();
      last := framesThisBlock;
      if WellFormed() {
        InsidePlayable(0);
        InsidePlayable(blocks);
        NotPlayable(cur, pos);
      }
    }

    lemma NotPlayable(cur: nat, pos: nat)
      ensures cur >= |sizes| ==> !Playable(sizes, file, cur, pos)
    {
    }

    /** The loop of alac_reader_calc_frames over the table. */
    method CountBlocks() returns (blocks: nat)
      requires Shaped() && framesThisBlock == 0
      modifies pakt`current
      ensures Shaped()
      ensures WellFormed() ==> blocks == PacketCount(sizes) && (blocks > 0 ==> pakt.current == |sizes|)
    {
      hide BlockCodec.Flat, BlockCodec.Valid, Regular, Intact;
      pakt.current := 0;
      var currentPos := 1;
      blocks := 0;
      while currentPos < |file| && currentPos > 0
        invariant Shaped() && currentPos >= 0
        invariant WellFormed() && currentPos == 0 ==> pakt.current == |sizes| && blocks == PacketCount(sizes)
        invariant WellFormed() && currentPos > 0 ==> blocks == pakt.current <= PacketCount(sizes)
        invariant WellFormed() && currentPos > 0 ==>
                  currentPos == if pakt.current == 0 then 1 else sizes[pakt.current - 1]
        decreases currentPos > 0, |sizes| - pakt.current
      {
        if WellFormed() { SizeAt(pakt.current); }
        currentPos := pakt.NextPacketSize();
        blocks := if currentPos > 0 then blocks + 1 else blocks;
      }
      if WellFormed() { SizeAt(0); if pakt.current > 0 { SizeAt(pakt.current - 1); } }
    }

    lemma SizeAt(k: nat)
      requires WellFormed() && k <= |sizes|
      ensures k < PacketCount(sizes) ==> 0 < sizes[k] < |file|
      ensures PacketCount(sizes) <= k < |sizes| ==> sizes[k] == 0 && k + 1 == |sizes|
    {
      AtNext(sizes, file, dataOffset, k);
    }

    lemma NoBlocks()
      requires framesPerBlock <= FRAME_LENGTH
      ensures WellFormed() && PacketCount(sizes) == 0 ==>
                StreamFrom(codec, sizes, file, dataOffset, 0) == []
                && codec.Flat(0) == 0 && |sizes| * framesPerBlock < WORD
    {
      hide StreamFrom, BlockCodec.Flat, Regular;
      if WellFormed() && PacketCount(sizes) == 0 {
        codec.NoFrames(0);
        assert |sizes| == 0 || |sizes| == 1;
        StreamLength(codec, sizes, file, dataOffset, framesPerBlock);
      }
    }

    /** Which counts are the length of the stream. */
    lemma FrameCount(frames: nat, last: nat)
      requires WellFormed() && PacketCount(sizes) > 0
      ensures var base := framesPerBlock * (PacketCount(sizes) - 1);
              && (frames == base + last
                  && codec.Flat(last) == |BlockAt(codec, sizes, file, dataOffset, PacketCount(sizes) - 1)|
                  ==> codec.Flat(frames) == |StreamFrom(codec, sizes, file, dataOffset, 0)|)
              && (frames <= base ==> codec.Flat(frames) < |StreamFrom(codec, sizes, file, dataOffset, 0)|)
    {
      hide StreamFrom, BlockCodec.Flat, Intact, BlockAt, PacketCount;
      var base := framesPerBlock * (PacketCount(sizes) - 1);
      StreamLength(codec, sizes, file, dataOffset, framesPerBlock);
      codec.FlatSum(base, last);
      codec.FlatOrder(frames, base);
    }
  }

  // ----- A table that is too long to count -----

  /** 2^20 packets of one byte, each a block of silence. */
  const MANY := 0x10_0000

  function Silence(): (c: BlockCodec)
    ensures c.Valid()
  {
    BlockCodec(1, (h, b) => [0], p => seq(FRAME_LENGTH, _ => 0))
  }

  function OnePacketSizes(): (sizes: seq<Word32>) { seq(MANY, _ => 1) }

  function OnePacketFile(): (file: seq<Byte>) { seq(1 + MANY, _ => 0) }

  lemma {:induction false} SumOfOnes(n: nat)
    ensures Sum(seq(n, _ => 1)) == n
  {
    if n > 0 {
      SumOfOnes(n - 1);
      assert seq(n, _ => 1)[1..] == seq(n - 1, _ => 1);
    }
  }

  /** They make 2^32 frames. */
  lemma SilentStream()
    ensures Intact(OnePacketSizes(), OnePacketFile(), 1)
    ensures Regular(Silence(), OnePacketSizes(), OnePacketFile(), 1, FRAME_LENGTH)
    ensures |StreamFrom(Silence(), OnePacketSizes(), OnePacketFile(), 1, 0)| == WORD
  {
    hide Stream, At;
    SumOfOnes(MANY);
    StreamLength(Silence(), OnePacketSizes(), OnePacketFile(), 1, FRAME_LENGTH);
  }

  /** The chunk that holds their sizes, and what it parses to. */
  function OnePacketChunk(): (chunk: seq<Byte>)
    ensures |chunk| == HEADER_SIZE + MANY && Parse(chunk, HEADER_SIZE) == OnePacketSizes()
  {
    OnePacketParsed();
    Encoded(OnePacketSizes(), WORD, 0).bytes
  }

  lemma OnePacketParsed()
    ensures Encoded(OnePacketSizes(), WORD, 0).Table?
    ensures var chunk := Encoded(OnePacketSizes(), WORD, 0).bytes;
            |chunk| == HEADER_SIZE + MANY && Parse(chunk, HEADER_SIZE) == OnePacketSizes()
  {
    hide AlacTable.Header, Entries, Parse, Excess;
    var sizes := OnePacketSizes();
    SameSizes(1, MANY);
    RoomForEntries(sizes, WORD, 0);
    EntriesLength(sizes);
    NonZeroTableRoundTrip(sizes, WORD, 0);
    EmptyLast(sizes, []);
    EmptyLast(Encoded(sizes, WORD, 0).bytes, seq(0, _ => 0));
  }

  /** A file of 2^32 frames, a day of sound, whose frame count is another. */
  method DayMiscounted() returns (frames: nat)
    ensures |StreamFrom(Silence(), OnePacketSizes(), OnePacketFile(), 1, 0)| == WORD && frames != WORD
  {
    hide Parse, Stream, StreamFrom, Intact, Regular, OnePacketSizes, OnePacketFile, OnePacketChunk, Silence,
         BlockCodec.Valid;
    var bytes := OnePacketChunk();
    var chunk := new Byte[|bytes| + 5](i => if 0 <= i < |bytes| then bytes[i] else 0);
    assert chunk[..|bytes|] == bytes;
    SilentStream();
    var r := new Reader.Open(Silence(), FRAME_LENGTH, chunk, |bytes|, OnePacketFile(), 1);
    frames := r.frames;
    OneChannel();
  }

  lemma OneChannel()
    ensures Silence().channels == 1 && forall n :: Silence().Flat(n) == n
    ensures |OnePacketSizes()| == MANY
  {
  }

  /** How the 32-bit products of calc_frames and seek relate, for `blocks` packets in a table of
      `count` entries. */
  lemma Products(blocks: nat, count: nat, fpb: nat)
    requires 1 <= fpb <= FRAME_LENGTH && 1 <= blocks <= count <= blocks + 1
    ensures var base := fpb * (blocks - 1);
            && 0 <= base
            && (count * fpb < WORD ==> base % WORD == base <= count * fpb % WORD && base / fpb == blocks - 1)
            && (count * fpb >= WORD && base < WORD ==> base % WORD > count * fpb % WORD)
            && (base >= WORD ==> base % WORD <= base - WORD)
            && (base < WORD ==> base % WORD == base)
            && (base >= WORD ==> count * fpb >= WORD)
  {
    var base := fpb * (blocks - 1);
    assert count * fpb == base + fpb * (count - blocks + 1);
    assert fpb * (count - blocks + 1) == fpb || fpb * (count - blocks + 1) == fpb + fpb;
    DivUnique(base, fpb, blocks - 1, 0);
    MulLess(-1, blocks - 1, fpb);
  }

  lemma DropInto<T>(s: seq<T>, i: nat, a: seq<T>, b: seq<T>, k: nat)
    requires i <= |s| && s[i..] == a + b && (k > |a| ==> b == [])
    ensures k <= |a| ==> i + k <= |s| && s[i + k..] == a[k..] + b
    ensures k > |a| ==> i + k > |s|
  {
    if k <= |a| { assert s[i + k..] == s[i..][k..]; }
  }
}
