/** alac_write_i, alac_encode_block and alac_close: samples are gathered into blocks, packets go
    to the temporary file and their sizes to the packet table. */
module AlacWriter {
  import opened Bits
  import opened Chunks
  import opened AlacTable
  import opened AlacStream

  /** What the packets of `blocks` leave in the table and the temporary file. */
  ghost predicate Recorded(codec: BlockCodec, blocks: seq<seq<Sample>>, sizes: seq<Word32>, bytes: seq<Byte>)
    requires codec.Valid()
  {
    && AllCodable(codec, blocks)
    && Sized(Packets(codec, blocks))
    && sizes == Lengths(Packets(codec, blocks))
    && bytes == Flatten(Packets(codec, blocks))
  }

  lemma RecordedOneMore(codec: BlockCodec, blocks: seq<seq<Sample>>, sizes: seq<Word32>, bytes: seq<Byte>,
                        b: seq<Sample>)
    requires codec.Valid() && Recorded(codec, blocks, sizes, bytes) && codec.Codable(b)
    ensures var p := codec.encode(blocks, b);
            |p| <= BYTE_BUFFER_SIZE && Recorded(codec, blocks + [b], sizes + [|p|], bytes + p)
  {
    hide BlockCodec.Codable, Packets, Flatten;
    var packets, p := Packets(codec, blocks), codec.encode(blocks, b);
    PacketsOneMore(codec, blocks, b);
    PacketFits(codec, blocks, b);
    assert (packets + [p])[..|packets|] == packets && (packets + [p])[..|packets| + 1] == packets + [p];
    FlattenOneMore(packets + [p], |packets|);
    assert Lengths(packets + [p]) == sizes + [|p|];
  }

  lemma PacketsOneMore(codec: BlockCodec, blocks: seq<seq<Sample>>, b: seq<Sample>)
    ensures Packets(codec, blocks + [b]) == Packets(codec, blocks) + [codec.encode(blocks, b)]
  {
    assert (blocks + [b])[..|blocks|] == blocks;
  }

  lemma PacketFits(codec: BlockCodec, h: seq<seq<Sample>>, b: seq<Sample>)
    requires codec.Valid() && codec.Codable(b)
    ensures 0 < |codec.encode(h, b)| <= BYTE_BUFFER_SIZE
  {
  }

  /** Every block is full. */
  ghost predicate Full(codec: BlockCodec, blocks: seq<seq<Sample>>)
  {
    forall k :: 0 <= k < |blocks| ==> |blocks[k]| == codec.Flat(FRAME_LENGTH)
  }

  class Writer {
    const codec: BlockCodec
    const buffer: array<Sample>
    const pakt: PacketTable
    var partialBlockFrames: nat
    /** The temporary file. */
    var enctmp: seq<Byte>
    /** The encoder's state: the blocks it has coded. */
    var coded: seq<seq<Sample>>

    ghost predicate Stored()
      reads `coded, `enctmp, pakt, pakt.packetSize
    {
      && codec.Valid() && 1 <= codec.channels && pakt.Valid() && pakt.packetSize.Length >= 2
      && Recorded(codec, coded, pakt.Sizes(), enctmp)
    }

    ghost predicate Valid()
      reads this, pakt, pakt.packetSize
    {
      && Stored() && pakt.packetSize as object != buffer as object && buffer.Length == codec.Flat(MAX_FRAME_SIZE)
      && partialBlockFrames < FRAME_LENGTH
      && 0 <= codec.Flat(partialBlockFrames) <= codec.Flat(FRAME_LENGTH) <= buffer.Length && Full(codec, coded)
    }

    /** Samples waiting for their block to fill. */
    ghost function Pending(): seq<Sample>
      requires 0 <= codec.Flat(partialBlockFrames) <= buffer.Length
      reads `partialBlockFrames, buffer
    {
      buffer[..codec.Flat(partialBlockFrames)]
    }

    /** Everything written so far. */
    ghost function Written(): seq<Sample>
      requires 0 <= codec.Flat(partialBlockFrames) <= buffer.Length
      reads `partialBlockFrames, `coded, buffer
    {
      Flatten(coded) + Pending()
    }

    /** alac_writer_init */
    constructor (codec: BlockCodec)
      requires codec.Valid()
      ensures Valid() && this.codec == codec && coded == [] && Written() == []
      ensures fresh(buffer) && fresh(pakt) && fresh(pakt.packetSize)
    {
      codec.MulMono(MAX_FRAME_SIZE);
      codec.MulMono(FRAME_LENGTH);
      this.codec := codec;
      partialBlockFrames, enctmp, coded := 0, [], [];
      buffer := new Sample[codec.Flat(MAX_FRAME_SIZE)](_ => 0);
      pakt := new PacketTable.Alloc(2000);
      new;
      codec.FlatOrder(FRAME_LENGTH, MAX_FRAME_SIZE);
    }

    /** alac_encode_block */
    method EncodeBlock()
      requires Stored() && 0 <= codec.Flat(partialBlockFrames) <= buffer.Length && codec.Codable(Pending())
      modifies this`partialBlockFrames, this`enctmp, this`coded, pakt, pakt.packetSize
      ensures Stored() && partialBlockFrames == 0 && coded == old(coded) + [old(Pending())]
      ensures pakt.packetSize == old(pakt.packetSize) || fresh(pakt.packetSize)
    {
      hide Recorded, BlockCodec.Flat, BlockCodec.Codable;
      var block := buffer[..codec.Flat(partialBlockFrames)];
      var bytes := codec.encode(coded, block);
      RecordedOneMore(codec, coded, pakt.Sizes(), enctmp, block);
      enctmp := enctmp + bytes;
      pakt.Append(|bytes|);
      coded := coded + [block];
      partialBlockFrames := 0;
    }

    /** The copy of the write loop: as much of `ptr` as the block still takes. */
    method CopyIn(ptr: seq<Sample>, indx: nat) returns (writecount: nat)
      requires codec.Valid() && Valid() && indx < |ptr| && codec.Aligned(|ptr| - indx)
      modifies this`partialBlockFrames, buffer
      ensures Stored() && 0 < writecount <= |ptr| - indx && codec.Aligned(writecount)
      ensures partialBlockFrames <= FRAME_LENGTH
      ensures 0 <= codec.Flat(partialBlockFrames) <= codec.Flat(FRAME_LENGTH) && codec.Aligned(|Pending()|)
      ensures Pending() == old(Pending()) + ptr[indx..indx + writecount]
      ensures partialBlockFrames < FRAME_LENGTH ==> indx + writecount == |ptr|
    {
      hide Writer.Stored, Full, Flatten, BlockCodec.Flat, BlockCodec.Aligned, BlockCodec.Valid, Writer.Pending,
           Writer.Valid;
      ValidFacts();
      Room(partialBlockFrames, |ptr| - indx);
      writecount := codec.Flat(FRAME_LENGTH - partialBlockFrames);
      writecount := if writecount == 0 || writecount > |ptr| - indx then |ptr| - indx else writecount;
      Gather(ptr[indx..indx + writecount]);
    }

    /** memcpy behind what is pending, and the count of its frames. */
    method Gather(part: seq<Sample>)
      requires Valid() && codec.Aligned(|part|)
      requires codec.Flat(partialBlockFrames) + |part| <= codec.Flat(FRAME_LENGTH)
      modifies this`partialBlockFrames, buffer
      ensures Stored() && partialBlockFrames <= FRAME_LENGTH
      ensures 0 <= codec.Flat(partialBlockFrames) <= codec.Flat(FRAME_LENGTH) && codec.Aligned(|Pending()|)
      ensures Pending() == old(Pending()) + part
      ensures partialBlockFrames < FRAME_LENGTH
         <==> old(codec.Flat(partialBlockFrames)) + |part| < codec.Flat(FRAME_LENGTH)
    {
      hide Writer.Stored, Full, Flatten, BlockCodec.Flat, BlockCodec.Aligned, BlockCodec.Valid, Writer.Pending,
           Writer.Valid;
      ValidFacts();
      var at := codec.Flat(partialBlockFrames);
      PendingIs(at);
      CountFrames(partialBlockFrames, |part|);
      Copy(at, part);
      assert Stored();
      partialBlockFrames := partialBlockFrames + |part| / codec.channels;
      PendingIs(at + |part|);
    }

    lemma ValidFacts()
      requires Valid()
      ensures Stored() && codec.Valid() && 1 <= codec.channels && pakt.packetSize as object != buffer as object
      ensures partialBlockFrames < FRAME_LENGTH
      ensures 0 <= codec.Flat(partialBlockFrames) <= codec.Flat(FRAME_LENGTH) <= buffer.Length
    {
    }

    lemma PendingIs(n: nat)
      requires codec.Flat(partialBlockFrames) == n <= buffer.Length
      ensures Pending() == buffer[..n]
    {
    }

    /** How much of `left` samples still goes into the block. */
    lemma Room(frames: nat, left: nat)
      requires codec.Valid() && frames < FRAME_LENGTH && 0 < left && codec.Aligned(left)
      ensures var room := codec.Flat(FRAME_LENGTH - frames);
              var n := if room == 0 || room > left then left else room;
              1 <= codec.channels && 0 <= room && 0 < n <= left && codec.Aligned(n) && 0 <= codec.Flat(frames)
              && codec.Flat(frames) + n <= codec.Flat(FRAME_LENGTH)
              && (codec.Flat(frames) + n < codec.Flat(FRAME_LENGTH) ==> n == left)
    {
      hide BlockCodec.Flat, BlockCodec.Aligned;
      codec.FlatSum(FRAME_LENGTH, frames);
      codec.FlatOrder(frames, FRAME_LENGTH);
      codec.FlatOrder(0, frames);
      codec.FlatSum(0, 0);
      codec.AlignedFlat(FRAME_LENGTH - frames);
    }

    /** What adding `n` samples to `frames` frames gives. */
    lemma CountFrames(frames: nat, n: nat)
      requires 1 <= codec.channels && codec.Aligned(n) && codec.Flat(frames) + n <= codec.Flat(FRAME_LENGTH)
      ensures codec.Flat(frames + n / codec.channels) == codec.Flat(frames) + n && codec.Aligned(codec.Flat(frames) + n)
      ensures frames + n / codec.channels <= FRAME_LENGTH
      ensures frames + n / codec.channels < FRAME_LENGTH <==> codec.Flat(frames) + n < codec.Flat(FRAME_LENGTH)
    {
      hide BlockCodec.Flat, BlockCodec.Aligned;
      codec.FlatQuotient(n);
      codec.FlatSum(frames, n / codec.channels);
      codec.FlatOrder(frames + n / codec.channels, FRAME_LENGTH);
      codec.FlatOrder(FRAME_LENGTH, frames + n / codec.channels);
      codec.AlignedFlat(frames + n / codec.channels);
    }

    method Copy(at: nat, part: seq<Sample>)
      requires at + |part| <= buffer.Length
      modifies buffer
      ensures buffer[..at + |part|] == old(buffer[..at]) + part
    {
      ghost var before := buffer[..at];
      forall k | 0 <= k < |part| { buffer[at + k] := part[k]; }
      assert buffer[..at] == before;
      assert buffer[at..at + |part|] == part;
    }

    /** alac_write_i: however the samples arrive, full blocks go to the coder and what is left
        over waits. */
    method Write(ptr: seq<Sample>) returns (total: nat)
      requires Valid() && codec.Aligned(|ptr|)
      modifies this`partialBlockFrames, this`enctmp, this`coded, buffer, pakt, pakt.packetSize
      ensures Valid() && total == |ptr| && Written() == old(Written()) + ptr
      ensures pakt.packetSize == old(pakt.packetSize) || fresh(pakt.packetSize)
    {
      hide Recorded, Full, Flatten, Packets, BlockCodec.Flat, BlockCodec.Aligned, BlockCodec.Codable, BlockCodec.Valid;
      ghost var all := Written() + ptr;
      total := 0;
      assert ptr[0..] == ptr;
      while total < |ptr|
        invariant total <= |ptr| && codec.Aligned(|ptr| - total) && Valid()
        invariant Written() + ptr[total..] == all
        invariant pakt.packetSize == old(pakt.packetSize) || fresh(pakt.packetSize)
      {
        ghost var before, pending := Flatten(coded), Pending();
        var writecount := CopyIn(ptr, total);
        Regroup(before, pending, ptr, total, writecount);
        codec.AlignedSum(|ptr| - total, writecount);
        total := total + writecount;
        if partialBlockFrames >= FRAME_LENGTH {
          FullIsCodable();
          FullOneMore(codec, coded, Pending());
          FlattenLast(coded, Pending());
          EncodeBlock();
          ZeroFrames();
        }
        assert Written() + ptr[total..] == all;
      }
      assert Written() + ptr[total..] == Written();
    }

    lemma ZeroFrames()
      requires codec.Valid() && partialBlockFrames == 0 && buffer.Length == codec.Flat(MAX_FRAME_SIZE)
      ensures 0 == codec.Flat(partialBlockFrames) <= codec.Flat(FRAME_LENGTH) <= buffer.Length
      ensures Pending() == [] && Written() == Flatten(coded)
    {
      hide Flatten;
      codec.FlatOrder(0, FRAME_LENGTH);
      codec.FlatOrder(FRAME_LENGTH, MAX_FRAME_SIZE);
    }

    lemma FullIsCodable()
      requires codec.Valid() && partialBlockFrames == FRAME_LENGTH
      requires 0 <= codec.Flat(partialBlockFrames) <= buffer.Length
      ensures codec.Codable(Pending()) && |Pending()| == codec.Flat(FRAME_LENGTH)
    {
      codec.FlatOrder(0, FRAME_LENGTH);
      codec.AlignedFlat(FRAME_LENGTH);
    }

    /** alac_close: the started block becomes the last packet, then table and packets go to the
        file. `frames` is the frame count kept by the caller. The remainder in the table's header,
        a block less the started frames, completes the last packet unless that was a full one. */
    method Close(frames: int) returns (table: TableBytes, data: seq<Byte>)
      requires Valid()
      modifies this`partialBlockFrames, this`enctmp, this`coded, pakt, pakt.packetSize
      ensures codec.Valid() && Cut(codec, coded, old(Written())) && Sized(Packets(codec, coded))
      ensures Recorded(codec, coded, Lengths(Packets(codec, coded)), data)
      ensures table == Saved(Encoded(Lengths(Packets(codec, coded)), frames, old(partialBlockFrames)))
      ensures Encodable(Lengths(Packets(codec, coded)))
      ensures table.Table? <==> Excess(Lengths(Packets(codec, coded))) <= 76
      ensures table.Overrun? <==> Excess(Lengths(Packets(codec, coded))) > 76
      ensures codec.Flat(|coded| * FRAME_LENGTH)
              == |old(Written())| + codec.Flat(FRAME_LENGTH - old(partialBlockFrames))
              <==> old(partialBlockFrames) != 0
    {
      hide Recorded, Full, Flatten, Packets, BlockCodec.Flat, BlockCodec.Codable, BlockCodec.Valid, Encoded, Header,
           Padded, Excess;
      var saved := partialBlockFrames;
      Remainder();
      if partialBlockFrames != 0 && partialBlockFrames < FRAME_LENGTH {
        StartedIsCodable();
        CutEnd(codec, coded, pakt.Sizes(), enctmp, Pending());
        EncodeBlock();
      } else {
        ZeroFrames();
        CutFull(codec, coded, pakt.Sizes(), enctmp);
        assert Flatten(coded) + [] == Flatten(coded);
      }
      partialBlockFrames := saved;
      SizesEncodable(codec, coded, pakt.Sizes(), enctmp);
      RoomForEntries(pakt.Sizes(), frames, saved);
      var made := pakt.Encode(frames, saved);
      table := Saved(made);
      data := enctmp;
    }

    /** The frames written, what is missing from the last block, and the packets it will take. */
    lemma Remainder()
      requires Valid()
      ensures var n := |coded| + if partialBlockFrames != 0 then 1 else 0;
              codec.Flat(n * FRAME_LENGTH) == |Written()| + codec.Flat(FRAME_LENGTH - partialBlockFrames)
              <==> partialBlockFrames != 0
    {
      hide BlockCodec.Flat, Recorded, Flatten;
      FullLength(codec, coded);
      codec.FlatSum(|coded| * FRAME_LENGTH, partialBlockFrames);
      codec.FlatSum(|coded| * FRAME_LENGTH + partialBlockFrames, FRAME_LENGTH - partialBlockFrames);
      codec.FlatOrder(0, FRAME_LENGTH);
      codec.NoFrames(0);
    }

    lemma StartedIsCodable()
      requires Valid() && 0 < partialBlockFrames
      ensures codec.Codable(Pending())
    {
      codec.FlatOrder(0, partialBlockFrames);
      codec.FlatOrder(partialBlockFrames, FRAME_LENGTH);
      codec.AlignedFlat(partialBlockFrames);
    }
  }

  lemma {:induction false} FullLength(codec: BlockCodec, blocks: seq<seq<Sample>>)
    requires Full(codec, blocks)
    ensures |Flatten(blocks)| == codec.Flat(|blocks| * FRAME_LENGTH)
  {
    hide BlockCodec.Flat;
    if blocks == [] {
      codec.FlatSum(0, 0);
    } else {
      FullLength(codec, blocks[..|blocks| - 1]);
      codec.FlatSum((|blocks| - 1) * FRAME_LENGTH, FRAME_LENGTH);
    }
  }

  lemma FullOneMore(codec: BlockCodec, blocks: seq<seq<Sample>>, b: seq<Sample>)
    requires Full(codec, blocks) && |b| == codec.Flat(FRAME_LENGTH)
    ensures Full(codec, blocks + [b])
  {
  }

  /** `blocks` are `all`, cut into full blocks and a rest of at least a frame. */
  ghost predicate Cut(codec: BlockCodec, blocks: seq<seq<Sample>>, all: seq<Sample>)
    requires 1 <= codec.channels
  {
    && Flatten(blocks) == all
    && AllCodable(codec, blocks)
    && (blocks != [] ==> Full(codec, blocks[..|blocks| - 1]))
  }

  lemma FlattenLast(blocks: seq<seq<Sample>>, b: seq<Sample>)
    ensures Flatten(blocks + [b]) == Flatten(blocks) + b
  {
    assert (blocks + [b])[..|blocks|] == blocks;
  }

  lemma CutFull(codec: BlockCodec, blocks: seq<seq<Sample>>, sizes: seq<Word32>, bytes: seq<Byte>)
    requires codec.Valid() && Full(codec, blocks) && Recorded(codec, blocks, sizes, bytes)
    ensures Cut(codec, blocks, Flatten(blocks))
  {
  }

  lemma CutEnd(codec: BlockCodec, blocks: seq<seq<Sample>>, sizes: seq<Word32>, bytes: seq<Byte>, b: seq<Sample>)
    requires codec.Valid() && Full(codec, blocks) && Recorded(codec, blocks, sizes, bytes) && codec.Codable(b)
    ensures Cut(codec, blocks + [b], Flatten(blocks) + b)
  {
    hide BlockCodec.Codable, Packets;
    FlattenLast(blocks, b);
    assert (blocks + [b])[..|blocks|] == blocks;
  }

  lemma SizesEncodable(codec: BlockCodec, blocks: seq<seq<Sample>>, sizes: seq<Word32>, bytes: seq<Byte>)
    requires codec.Valid() && Recorded(codec, blocks, sizes, bytes)
    ensures AllCodable(codec, blocks) && Sized(Packets(codec, blocks))
    ensures Encodable(sizes) && sizes == Lengths(Packets(codec, blocks))
  {
    hide Packets, Flatten;
  }

  /** Moving the copied part from the input to the buffer keeps the whole. */
  lemma Regroup(before: seq<Sample>, pending: seq<Sample>, ptr: seq<Sample>, at: nat, n: nat)
    requires at + n <= |ptr|
    ensures (before + (pending + ptr[at..at + n])) + ptr[at + n..] == (before + pending) + ptr[at..]
  {
    assert ptr[at..] == ptr[at..at + n] + ptr[at + n..];
  }
}
