/** ALAC from samples to file and back, around any block coder. */
module AlacRoundTrip {
  import opened Bits
  import opened Chunks
  import opened AlacTable
  import opened AlacStream
  import opened AlacPlay
  import opened AlacWriter
  import opened AlacReader
  import opened Endian
  import opened Wrappers
  import opened HeaderRoom
  import opened HeaderFormat
  import opened Header
  import opened CafLayout
  import opened CafReader
  import opened CafStrings
  import CafInfo
  import CafWriter

  /** Decoding a packet gives as many samples as went into it. */
  ghost predicate KeepsFrames(codec: BlockCodec)
    requires codec.Valid()
  {
    forall h, b :: codec.Codable(b) ==> |codec.decode(codec.encode(h, b))| == |b|
  }

  /** Samples of so many bits, in the high bits of a word. */
  predicate Words(bits: nat, s: seq<Sample>)
    requires bits <= 32
  {
    forall i :: 0 <= i < |s| ==> s[i] % Pow2(32 - bits) == 0
  }

  /** Decoding a packet gives the samples that went into it, as long as they have no more bits than
      the coder keeps. */
  ghost predicate Lossless(codec: BlockCodec, bits: nat)
    requires codec.Valid() && bits <= 32
  {
    forall h, b :: codec.Codable(b) && Words(bits, b) ==> codec.decode(codec.encode(h, b)) == b
  }

  // ----- Blocks -----

  lemma {:induction false} FlattenFirst<T>(chunks: seq<seq<T>>)
    requires chunks != []
    ensures Flatten(chunks) == chunks[0] + Flatten(chunks[1..])
    decreases |chunks|
  {
    var last := |chunks| - 1;
    if last == 0 {
      assert chunks[..0] == [] && chunks[1..] == [];
      assert Flatten(chunks) == [] + chunks[0];
      EmptyFirst([], chunks[0]);
      EmptyLast(chunks[0], []);
    } else {
      FlattenFirst(chunks[..last]);
      assert chunks[..last][1..] == chunks[1..][..last - 1];
      ConcatAssoc(chunks[0], Flatten(chunks[1..][..last - 1]), chunks[last]);
    }
  }

  /** There is only one way to cut: how the samples were split into calls leaves no trace. */
  lemma {:induction false} CutUnique(codec: BlockCodec, a: seq<seq<Sample>>, b: seq<seq<Sample>>, all: seq<Sample>)
    requires codec.Valid() && Cut(codec, a, all) && Cut(codec, b, all)
    ensures a == b
    decreases |a|
  {
    hide BlockCodec.Valid, BlockCodec.Flat;
    if a == [] || b == [] {
      if a != [] { FlattenFirst(a); }
      if b != [] { FlattenFirst(b); }
    } else {
      CutFirst(codec, a, all);
      CutFirst(codec, b, all);
      CutUnique(codec, a[1..], b[1..], all[|a[0]|..]);
      ConsSplit(a);
      ConsSplit(b);
    }
  }

  lemma CutFirst(codec: BlockCodec, blocks: seq<seq<Sample>>, all: seq<Sample>)
    requires codec.Valid() && Cut(codec, blocks, all) && blocks != []
    ensures var n := codec.Flat(FRAME_LENGTH);
            |blocks[0]| == (if |all| > n then n else |all|) && |blocks[0]| <= |all| && blocks[0] == all[..|blocks[0]|]
            && Cut(codec, blocks[1..], all[|blocks[0]|..])
  {
    hide BlockCodec.Valid, BlockCodec.Flat, BlockCodec.Aligned;
    FlattenFirst(blocks);
    PrefixSuffix(blocks[0], Flatten(blocks[1..]));
    if |blocks| > 1 {
      assert blocks[..|blocks| - 1][0] == blocks[0];
      FlattenFirst(blocks[1..]);
      assert blocks[1..][0] == blocks[1];
      assert blocks[1..][..|blocks| - 2] == blocks[..|blocks| - 1][1..];
    }
  }

  // ----- The written table describes the written file -----

  /** The table the reader gets back: one size a packet, and a 0 where the chunk was padded. */
  predicate TableOf(sizes: seq<Word32>, packets: seq<seq<Byte>>)
    requires Sized(packets)
  {
    sizes == Lengths(packets) || sizes == Lengths(packets) + [0]
  }

  lemma {:induction false} SumSplit(ns: seq<nat>, x: nat)
    ensures Sum(ns + [x]) == Sum(ns) + x
  {
    assert (ns + [x])[..|ns|] == ns && (ns + [x])[..|ns| + 1] == ns + [x];
    SumOneMore(ns + [x], |ns|);
  }

  lemma TableIntact(sizes: seq<Word32>, packets: seq<seq<Byte>>, header: seq<Byte>, tail: seq<Byte>)
    requires Sized(packets) && TableOf(sizes, packets)
    ensures Intact(sizes, header + Flatten(packets) + tail, |header|) && PacketCount(sizes) == |packets|
  {
    SumOfLengths(packets);
    SumSplit(Lengths(packets), 0);
  }

  /** Packet `k` lies where the table puts it. */
  lemma PacketInFile(sizes: seq<Word32>, packets: seq<seq<Byte>>, header: seq<Byte>, tail: seq<Byte>, k: nat)
    requires Sized(packets) && TableOf(sizes, packets) && k < |packets|
    ensures sizes[k] == |packets[k]|
    ensures var file, at := header + Flatten(packets) + tail, At(sizes, |header|, k);
            at + sizes[k] <= |file| && file[at..at + sizes[k]] == packets[k]
  {
    FlattenPrefix(packets, k);
    SumOfLengths(packets[..k]);
    assert Lengths(packets[..k]) == sizes[..k];
    var at := |Flatten(packets[..k])|;
    SliceBehind(header, Flatten(packets), tail, at, |packets[k]|);
  }

  lemma SliceBehind<T>(a: seq<T>, b: seq<T>, tail: seq<T>, i: nat, n: nat)
    requires i + n <= |b|
    ensures (a + b + tail)[|a| + i..|a| + i + n] == b[i..i + n]
  {
  }

  function Decoded(codec: BlockCodec, blocks: seq<seq<Sample>>): (r: seq<seq<Sample>>)
    ensures |r| == |blocks| && forall k :: 0 <= k < |r| ==> r[k] == codec.decode(codec.encode(blocks[..k], blocks[k]))
  {
    seq(|blocks|, k requires 0 <= k < |blocks| => codec.decode(codec.encode(blocks[..k], blocks[k])))
  }

  lemma BlockInFile(codec: BlockCodec, blocks: seq<seq<Sample>>, sizes: seq<Word32>,
                      header: seq<Byte>, tail: seq<Byte>, k: nat)
    requires codec.Valid() && AllCodable(codec, blocks) && k < |blocks|
    requires Sized(Packets(codec, blocks)) && TableOf(sizes, Packets(codec, blocks))
    ensures var file := header + Flatten(Packets(codec, blocks)) + tail;
            && Intact(sizes, file, |header|) && k < PacketCount(sizes)
            && BlockAt(codec, sizes, file, |header|, k) == Decoded(codec, blocks)[k]
  {
    hide Packets, Flatten, BlockCodec.Valid, At, Intact, PacketCount, TableOf;
    TableIntact(sizes, Packets(codec, blocks), header, tail);
    PacketInFile(sizes, Packets(codec, blocks), header, tail, k);
    PacketsAt(codec, blocks, k);
  }

  /** What the reader streams is the decoded packets in order. */
  lemma {:induction false} StreamIsDecoded(codec: BlockCodec, blocks: seq<seq<Sample>>, sizes: seq<Word32>,
                                           header: seq<Byte>, tail: seq<Byte>, k: nat)
    requires codec.Valid() && AllCodable(codec, blocks) && k <= |blocks|
    requires Sized(Packets(codec, blocks)) && TableOf(sizes, Packets(codec, blocks))
    ensures var file := header + Flatten(Packets(codec, blocks)) + tail;
            StreamFrom(codec, sizes, file, |header|, 0)
            == Flatten(Decoded(codec, blocks)[..k]) + StreamFrom(codec, sizes, file, |header|, k)
    decreases k
  {
    hide Packets, BlockCodec.Valid, StreamFrom, BlockAt, Intact, PacketCount, TableOf, Decoded;
    var file := header + Flatten(Packets(codec, blocks)) + tail;
    if k == 0 {
      EmptyFirst(Flatten(Decoded(codec, blocks)[..0]), StreamFrom(codec, sizes, file, |header|, 0));
    } else {
      StreamIsDecoded(codec, blocks, sizes, header, tail, k - 1);
      BlockInFile(codec, blocks, sizes, header, tail, k - 1);
      TableLength(sizes, Packets(codec, blocks));
      StreamNext(codec, sizes, file, |header|, k - 1);
      FlattenOneMore(Decoded(codec, blocks), k - 1);
      ConcatAssoc(Flatten(Decoded(codec, blocks)[..k - 1]), Decoded(codec, blocks)[k - 1],
                  StreamFrom(codec, sizes, file, |header|, k));
    }
  }

  lemma TableLength(sizes: seq<Word32>, packets: seq<seq<Byte>>)
    requires Sized(packets) && TableOf(sizes, packets)
    ensures |packets| <= |sizes| <= |packets| + 1
  {
  }

  lemma WholeStream(codec: BlockCodec, blocks: seq<seq<Sample>>, sizes: seq<Word32>, header: seq<Byte>, tail: seq<Byte>)
    requires codec.Valid() && AllCodable(codec, blocks)
    requires Sized(Packets(codec, blocks)) && TableOf(sizes, Packets(codec, blocks))
    ensures var file := header + Flatten(Packets(codec, blocks)) + tail;
            StreamFrom(codec, sizes, file, |header|, 0) == Flatten(Decoded(codec, blocks))
  {
    hide Packets, BlockCodec.Valid, StreamFrom, BlockAt, TableOf, Decoded, Flatten;
    var file, n := header + Flatten(Packets(codec, blocks)) + tail, |blocks|;
    StreamIsDecoded(codec, blocks, sizes, header, tail, n);
    TableIntact(sizes, Packets(codec, blocks), header, tail);
    TableLength(sizes, Packets(codec, blocks));
    StreamNext(codec, sizes, file, |header|, n);
    assert Decoded(codec, blocks)[..n] == Decoded(codec, blocks);
    EmptyLast(Flatten(Decoded(codec, blocks)), StreamFrom(codec, sizes, file, |header|, n));
  }

  /** With a coder that keeps frame counts the file is one of full blocks and a last one. */
  lemma WrittenIsRegular(codec: BlockCodec, blocks: seq<seq<Sample>>, all: seq<Sample>,
                           sizes: seq<Word32>, header: seq<Byte>, tail: seq<Byte>)
    requires codec.Valid() && KeepsFrames(codec) && Cut(codec, blocks, all)
    requires Sized(Packets(codec, blocks)) && TableOf(sizes, Packets(codec, blocks))
    ensures var file := header + Flatten(Packets(codec, blocks)) + tail;
            Intact(sizes, file, |header|) && Regular(codec, sizes, file, |header|, FRAME_LENGTH)
  {
    hide Packets, Flatten, BlockAt, TableOf, BlockCodec.Flat, Intact;
    var file := header + Flatten(Packets(codec, blocks)) + tail;
    TableIntact(sizes, Packets(codec, blocks), header, tail);
    forall k | 0 <= k < PacketCount(sizes)
      ensures var n := |BlockAt(codec, sizes, file, |header|, k)|;
              0 < n <= codec.Flat(FRAME_LENGTH) && (k < PacketCount(sizes) - 1 ==> n == codec.Flat(FRAME_LENGTH))
    {
      BlockInFile(codec, blocks, sizes, header, tail, k);
      assert codec.Codable(blocks[k]);
      if k < |blocks| - 1 { assert blocks[..|blocks| - 1][k] == blocks[k]; }
    }
  }

  /** As many samples come out as went in. */
  lemma {:induction false} SameLength(codec: BlockCodec, blocks: seq<seq<Sample>>)
    requires codec.Valid() && KeepsFrames(codec) && AllCodable(codec, blocks)
    ensures |Flatten(Decoded(codec, blocks))| == |Flatten(blocks)|
  {
    hide BlockCodec.Valid, BlockCodec.Codable;
    if blocks != [] {
      var last := |blocks| - 1;
      SameLength(codec, blocks[..last]);
      assert Decoded(codec, blocks[..last]) == Decoded(codec, blocks)[..last] by {
        forall k | 0 <= k < last ensures Decoded(codec, blocks[..last])[k] == Decoded(codec, blocks)[k] {
          assert blocks[..last][..k] == blocks[..k];
        }
      }
    }
  }

  lemma SameSamples(codec: BlockCodec, bits: nat, blocks: seq<seq<Sample>>)
    requires codec.Valid() && bits <= 32 && Lossless(codec, bits) && AllCodable(codec, blocks)
    requires Words(bits, Flatten(blocks))
    ensures Decoded(codec, blocks) == blocks
  {
    hide BlockCodec.Valid, BlockCodec.Codable, Words, Lossless;
    forall k | 0 <= k < |blocks| ensures Decoded(codec, blocks)[k] == blocks[k] {
      BlockWords(bits, blocks, k);
      OneBlock(codec, bits, blocks[..k], blocks[k]);
    }
  }

  lemma OneBlock(codec: BlockCodec, bits: nat, h: seq<seq<Sample>>, b: seq<Sample>)
    requires codec.Valid() && bits <= 32 && Lossless(codec, bits) && codec.Codable(b) && Words(bits, b)
    ensures codec.decode(codec.encode(h, b)) == b
  {
    hide BlockCodec.Codable, Words;
  }

  lemma BlockWords(bits: nat, blocks: seq<seq<Sample>>, k: nat)
    requires bits <= 32 && k < |blocks| && Words(bits, Flatten(blocks))
    ensures Words(bits, blocks[k])
  {
    hide Flatten, Pow2;
    FlattenPrefix(blocks, k);
    var at := |Flatten(blocks[..k])|;
    forall i | 0 <= i < |blocks[k]| ensures blocks[k][i] == Flatten(blocks)[at + i] {
      assert Flatten(blocks)[at..at + |blocks[k]|][i] == Flatten(blocks)[at + i];
    }
  }

  // ----- Long tables -----

  /** 25588 packets of 128 bytes make the longest table of two-byte entries that a header takes;
      with one more it is announced, but not printed. */
  lemma LongTableDenied(frames: int, partial: int)
    ensures var table := Encoded(seq(25588, _ => 0x80), frames, partial);
            table.Table? && |Printed(Piece(PAKT_MARKER, Padded(table.bytes)))| == 12 + CAP / 2
    ensures var table := Encoded(seq(25589, _ => 0x80), frames, partial);
            table.Table? && |Printed(Piece(PAKT_MARKER, Padded(table.bytes)))| == 12
  {
    hide AlacTable.Header, Entries, Excess, Start;
    forall n: nat ensures Encodable(seq(n, _ => 0x80)) && |Entries(seq(n, _ => 0x80))| == 2 * n
                  ensures Encoded(seq(n, _ => 0x80), frames, partial).Table? {
      SameSizes(0x80, n);
      EntriesLength(seq(n, _ => 0x80));
      RoomForEntries(seq(n, _ => 0x80), frames, partial);
    }
  }

  // ----- The journey -----

  predicate AllAligned(codec: BlockCodec, chunks: seq<seq<Sample>>)
    requires 1 <= codec.channels
  {
    forall k :: 0 <= k < |chunks| ==> codec.Aligned(|chunks[k]|)
  }

  /** A length, filled up to a multiple of four. */
  predicate PaddedTo(n: nat, all: nat) { all % 4 == 0 && n <= all < n + 4 }

  /** Any sequence of write calls, then close: the packets, and their table unless it would run
      past the buffer allocated for it. */
  method WriteFile(codec: BlockCodec, chunks: seq<seq<Sample>>, frames: int)
    returns (table: TableBytes, data: seq<Byte>, blocks: seq<seq<Sample>>)
    requires codec.Valid() && AllAligned(codec, chunks)
    ensures Cut(codec, blocks, Flatten(chunks)) && Sized(Packets(codec, blocks))
    ensures data == Flatten(Packets(codec, blocks)) && Encodable(Lengths(Packets(codec, blocks)))
    ensures table.Table? <==> Excess(Lengths(Packets(codec, blocks))) <= 76
    ensures table.Overrun? <==> Excess(Lengths(Packets(codec, blocks))) > 76
    ensures table.Table? ==> TableOf(Parse(table.bytes, HEADER_SIZE), Packets(codec, blocks))
    ensures table.Table? ==> PaddedTo(HEADER_SIZE + |Entries(Lengths(Packets(codec, blocks)))|, |table.bytes|)
    ensures table.Table? ==> HEADER_SIZE + |blocks| <= |table.bytes| && (|blocks| < Pow256(7) ==> table.bytes[0] == 0)
    ensures table.Table? ==> FromBig(table.bytes[..8]) == |blocks| % Pow256(8)
    ensures table.Table? ==> FromBig(table.bytes[8..16]) == frames % Pow256(8)
  {
    hide BlockCodec.Valid, Flatten, Packets, Full, Padded, Parse, Encoded, Writer.Pending, Excess, Encodable, Pow256,
         FromBig, Entries, PaddedTo;
    var w := new Writer(codec);
    var k := 0;
    assert chunks[..0] == [];
    FlattenNone<Sample>();
    while k < |chunks|
      invariant k <= |chunks| && w.codec == codec && fresh(w) && fresh(w.buffer) && fresh(w.pakt)
      invariant fresh(w.pakt.packetSize)
      invariant w.Valid() && w.Written() == Flatten(chunks[..k])
    {
      FlattenOneMore(chunks, k);
      var total := w.Write(chunks[k]);
      k := k + 1;
    }
    assert chunks[..k] == chunks;
    ghost var partial := w.partialBlockFrames;
    table, data := w.Close(frames);
    blocks := w.coded;
    if table.Table? { WrittenTable(Packets(codec, blocks), frames, partial); }
  }

  /** The table of packets that hold something: its size, its first byte, the number of packets and
      of frames, and what it parses to. */
  lemma WrittenTable(packets: seq<seq<Byte>>, frames: int, partial: int)
    requires Sized(packets) && Encoded(Lengths(packets), frames, partial).Table?
    ensures var bytes := Padded(Encoded(Lengths(packets), frames, partial).bytes);
            && TableOf(Parse(bytes, HEADER_SIZE), packets) && HEADER_SIZE + |packets| <= |bytes|
            && Encodable(Lengths(packets)) && PaddedTo(HEADER_SIZE + |Entries(Lengths(packets))|, |bytes|)
            && (|packets| < Pow256(7) ==> bytes[0] == 0)
            && FromBig(bytes[..8]) == |packets| % Pow256(8) && FromBig(bytes[8..16]) == frames % Pow256(8)
  {
    hide AlacTable.Header, Entries, Parse, Pow256, Padded, HasRoom, Encodable, TableOf, FromBig;
    var sizes := Lengths(packets);
    var bytes := Encoded(sizes, frames, partial).bytes;
    NonZeroTableRoundTrip(sizes, frames, partial);
    TableParsed(packets, if |bytes| % 4 != 0 then [0] else []);
    EntriesAtLeast(sizes);
    CountAndFrames(|sizes|, frames, partial, Entries(sizes), Padded(bytes));
  }

  /** The first two fields of a table. */
  lemma CountAndFrames(count: nat, frames: int, partial: int, rest: seq<Byte>, bytes: seq<Byte>)
    requires AlacTable.Header(count, frames, partial) + rest <= bytes
    ensures |bytes| >= 16 && FromBig(bytes[..8]) == count % Pow256(8) && FromBig(bytes[8..16]) == frames % Pow256(8)
    ensures count < Pow256(7) ==> bytes[0] == 0
  {
    hide AlacTable.Header, BigEndian, Pow256, FromBig;
    var all := AlacTable.Header(count, frames, partial) + rest;
    HeaderParts(count, frames, partial, rest);
    BigEndianFirst(count, 8);
    BigEndianBack(count, 8);
    BigEndianBack(frames, 8);
    PrefixOf(bytes, all, 0, 8);
    PrefixOf(bytes, all, 8, 16);
    assert bytes[..8][0] == bytes[0];
  }

  lemma PrefixOf<T>(all: seq<T>, part: seq<T>, i: nat, j: nat)
    requires part <= all && i <= j <= |part|
    ensures all[i..j] == part[i..j]
  {
  }

  lemma TableParsed(packets: seq<seq<Byte>>, pad: seq<Word32>)
    requires Sized(packets) && (pad == [] || pad == [0])
    ensures TableOf(Lengths(packets) + pad, packets)
  {
    EmptyLast(Lengths(packets), pad);
  }

  lemma {:induction false} EntriesAtLeast(sizes: seq<Word32>)
    requires Encodable(sizes)
    ensures |sizes| <= |Entries(sizes)|
  {
    if sizes != [] { EntriesAtLeast(sizes[..|sizes| - 1]); }
  }

  /** Any sequence of read calls delivers the stream in order. */
  method ReadAll(r: Reader, lens: seq<nat>) returns (back: seq<Sample>)
    requires r.Valid() && Sum(lens) <= |r.Remaining()|
    requires forall k :: 0 <= k < |lens| ==> r.codec.Aligned(lens[k])
    modifies r, r.pakt, r.buffer
    ensures r.Valid() && back == old(r.Remaining())[..Sum(lens)]
  {
    hide BlockCodec.Valid, BlockCodec.Aligned, BlockCodec.Flat, Stream, Intact, Reader.Shaped, Reader.Remaining;
    ghost var all := r.Remaining();
    back := [];
    var k := 0;
    assert all[0..] == all;
    while k < |lens|
      invariant k <= |lens| && r.Valid()
      invariant Sum(lens[..k]) <= |all| && back == all[..Sum(lens[..k])] && r.Remaining() == all[Sum(lens[..k])..]
    {
      SumOneMore(lens, k);
      SumMonotone(lens, k + 1);
      SliceStep(all, Sum(lens[..k]), lens[k]);
      var ptr := r.Read(lens[k]);
      back := back + ptr;
      k := k + 1;
    }
    assert lens[..k] == lens;
  }

  /** The bytes of packets within their size. */
  lemma {:induction false} PacketBytes(packets: seq<seq<Byte>>)
    requires Sized(packets)
    ensures |Flatten(packets)| <= |packets| * BYTE_BUFFER_SIZE
  {
    hide Flatten;
    FlattenSplit(packets);
    if packets != [] { PacketBytes(packets[..|packets| - 1]); }
  }

  lemma FlattenSplit<T>(chunks: seq<seq<T>>)
    ensures chunks == [] ==> Flatten(chunks) == []
    ensures chunks != [] ==> |Flatten(chunks)| == |Flatten(chunks[..|chunks| - 1])| + |chunks[|chunks| - 1]|
  {
  }

  /** The samples of coded blocks within their size. */
  lemma {:induction false} BlockSamples(codec: BlockCodec, blocks: seq<seq<Sample>>)
    requires codec.Valid() && AllCodable(codec, blocks)
    ensures |Flatten(blocks)| <= |blocks| * 0x8000
  {
    hide BlockCodec.Flat, Flatten, BlockCodec.Aligned;
    FlattenSplit(blocks);
    if blocks != [] {
      assert codec.Codable(blocks[|blocks| - 1]);
      BlockBound(codec);
      BlockSamples(codec, blocks[..|blocks| - 1]);
    }
  }

  lemma BlockBound(codec: BlockCodec)
    requires 1 <= codec.channels <= 8
    ensures codec.Flat(FRAME_LENGTH) <= 0x8000
  {
  }

  /** The settings of an ALAC file: its description, and of the caller's own chunks (and the magic
      cookie) none that the reader handles by name. */
  predicate Settings(codec: BlockCodec, d: Description, entries: seq<CafInfo.Entry>, tag: int, custom: seq<Piece>)
  {
    && Storable(d) && d.formatId == ALAC_MARKER && d.framesPerPacket == FRAME_LENGTH && d.channels == codec.channels
    && FrontFits(CafWriter.FrontOf(entries, tag, custom))
    && (forall k :: 0 <= k < |custom| ==> Plain(custom[k].marker) && 0 < custom[k].marker < 0x1_0000_0000)
  }

  /** What opening a file finds: the header, then the bytes of the packet table. They are the ones
      that were written if and only if the header had room for them. */
  method OpenFile(file: seq<Byte>, turns: nat, ghost l: Image)
    returns (caf: Caf, found: bool, table: array<Byte>, size: nat)
    ensures table.Length == size + 5
    ensures l.Valid() && file == l.File() && turns >= |l.front| + 2 && |l.table| <= CAP / 2 ==>
              && found && table[..size] == l.table && caf.formatId == l.d.formatId
              && caf.framesPerPacket == l.d.framesPerPacket && caf.dataLength == |l.data|
              && caf.dataOffset == |HeaderBytes(l.d, l.front, l.table, |l.data|)| && caf.FieldsRead(l)
    ensures l.Valid() && file == l.File() && found && l.table[0] == 0 && |l.table| > CAP / 2 ==>
              table[..size] != l.table
  {
    hide CafLayout.Place, FileBytes, HeaderBytes, FrontFits, Storable, CafReader.Here, Clear, TableListed, Image.File;
    caf := new Caf(file);
    FreshRoom(caf.h);
    DataInFile(l.d, l.front, l.table, l.data, l.tail);
    var status := caf.ReadHeader(turns, l);
    found, size := false, 0;
    if status != Done {
      table := new Byte[5];
      return;
    }
    found, table, size := caf.FindTable([0, 0, 0], [0, 0, 0], l);
    if found && size > 0 { assert table[..size][0] == table[0]; }
  }

  lemma FreshRoom(h: HeaderBuffer)
    requires h.Valid() && h.Coherent() && h.indx == h.end == 0 && h.ptr.Length == INITIAL_HEADER_SIZE
    ensures CafReader.Here(h, []) && Clear(h.ptr.Length, CAP)
  {
  }

  /** Reading a file whose table came back. */
  method PlayFile(codec: BlockCodec, fpb: int, file: seq<Byte>, dataOffset: int, table: array<Byte>, size: nat,
                  lens: seq<nat>, ghost bits: nat, ghost blocks: seq<seq<Sample>>, ghost all: seq<Sample>,
                  ghost header: seq<Byte>, ghost tail: seq<Byte>)
    returns (frames: nat, back: seq<Sample>)
    requires codec.Valid() && bits <= 32 && KeepsFrames(codec)
    requires Cut(codec, blocks, all) && Sized(Packets(codec, blocks))
    requires file == header + Flatten(Packets(codec, blocks)) + tail
             && |header| == dataOffset > 0 && fpb == FRAME_LENGTH
    requires table.Length == size + 5 && TableOf(Parse(table[..size], HEADER_SIZE), Packets(codec, blocks))
    requires |blocks| < 0x1_0000
    requires Sum(lens) <= |all| && forall k :: 0 <= k < |lens| ==> codec.Aligned(lens[k])
    ensures |Flatten(Decoded(codec, blocks))| == |all| && back == Flatten(Decoded(codec, blocks))[..Sum(lens)]
    ensures Lossless(codec, bits) && Words(bits, all) ==> back == all[..Sum(lens)]
    ensures codec.Flat(frames) == |all|
  {
    hide BlockCodec.Valid, BlockCodec.Flat, BlockCodec.Aligned, Flatten, Packets, Parse, Intact, Regular, Stream,
         Lossless, Words, KeepsFrames,
         TableOf, Cut, AllCodable, Decoded, Reader.Shaped, Reader.Remaining, Reader.Tracks;
    ghost var sizes := Parse(table[..size], HEADER_SIZE);
    CutFacts(codec, blocks, all);
    SameLength(codec, blocks);
    if Lossless(codec, bits) && Words(bits, all) { SameSamples(codec, bits, blocks); }
    WholeStream(codec, blocks, sizes, header, tail);
    WrittenIsRegular(codec, blocks, all, sizes, header, tail);
    TableLength(sizes, Packets(codec, blocks));
    var r := new Reader.Open(codec, fpb, table, size, file, dataOffset);
    frames := r.frames;
    assert sizes[..0] == [];
    back := ReadAll(r, lens);
  }

  /** The whole journey with a coder that keeps frame counts: write calls, close, header, packets,
      header again, then a reader that looks for the table and read calls. The table is made unless
      it overruns its buffer, and comes back if and only if it is no longer than half the header's
      cap. Then, however writes and reads were cut, the decoded blocks come back in order, a
      lossless coder's samples unchanged, and the frame count is the number of frames written; so
      does the one in the table, and the strings as far as they fitted their chunk. */
  method RoundTrip(codec: BlockCodec, h: HeaderBuffer, d: Description, entries: seq<CafInfo.Entry>, tag: int,
                   custom: seq<Piece>, chunks: seq<seq<Sample>>, lens: seq<nat>, ghost bits: nat)
    returns (table: TableBytes, tableRead: Option<seq<Byte>>, frames: nat, back: seq<Sample>, blocks: seq<seq<Sample>>,
             validFrames: int, strings: seq<(Tag, Text)>)
    requires codec.Valid() && bits <= 32 && KeepsFrames(codec) && AllAligned(codec, chunks)
    requires Settings(codec, d, entries, tag, custom)
    requires h.Valid() && h.ptr.Length <= CAP / 2
    requires Sum(lens) <= |Flatten(chunks)| && forall k :: 0 <= k < |lens| ==> codec.Aligned(lens[k])
    modifies h, h.ptr
    ensures Cut(codec, blocks, Flatten(chunks)) && Sized(Packets(codec, blocks))
    ensures Encodable(Lengths(Packets(codec, blocks))) && !table.Refused?
    ensures table.Overrun? <==> Excess(Lengths(Packets(codec, blocks))) > 76
    ensures table.Table? ==> PaddedTo(HEADER_SIZE + |Entries(Lengths(Packets(codec, blocks)))|, |table.bytes|)
    ensures table.Table? && |table.bytes| < 0x1_0000_0000 ==>
              (tableRead == Some(table.bytes) <==> |table.bytes| <= CAP / 2)
    ensures table.Table? && |table.bytes| <= CAP / 2 ==>
              && |Flatten(Decoded(codec, blocks))| == |Flatten(chunks)|
              && back == Flatten(Decoded(codec, blocks))[..Sum(lens)]
              && (Lossless(codec, bits) && Words(bits, Flatten(chunks)) ==> back == Flatten(chunks)[..Sum(lens)])
              && codec.Flat(frames) == codec.Flat(validFrames) == |Flatten(chunks)|
              && strings == StringsBack(entries)
  {
    hide BlockCodec.Valid, BlockCodec.Flat, BlockCodec.Aligned, Flatten, Packets, Lossless, Words, KeepsFrames,
         Cut, Decoded, Excess, Encodable, Entries, PaddedTo, StringsBack, OnDisk, Settings, AllAligned,
         AllCodable, Caf.FieldsRead;
    ghost var l;
    var file;
    table, file, blocks, l := SaveFile(codec, h, d, entries, tag, custom, chunks);
    tableRead, frames, back, validFrames, strings := None, 0, [], 0, [];
    if !table.Table? {
      return;
    }
    var caf;
    tableRead, caf, frames, back := LoadFile(codec, file, |custom| + 4, table.bytes, lens, bits, l, blocks,
                                             Flatten(chunks));
    validFrames, strings := caf.validFrames, caf.strings;
    WholeFrames(codec, chunks);
    CutFacts(codec, blocks, Flatten(chunks));
    if |table.bytes| <= CAP / 2 {
      FieldsBack(codec, caf, l, file, blocks, |Flatten(chunks)| / codec.channels, entries);
    }
  }

  /** A closed file: the image `l` with the packets of `blocks`, and with a table that says so. */
  ghost predicate OnDisk(codec: BlockCodec, l: Image, file: seq<Byte>, blocks: seq<seq<Sample>>, frames: int)
  {
    && Sized(Packets(codec, blocks)) && l.data == Flatten(Packets(codec, blocks)) && l.d.framesPerPacket == FRAME_LENGTH
    && file == l.File() == HeaderBytes(l.d, l.front, l.table, |l.data|) + l.data + l.tail
    && HeaderBytes(l.d, l.front, l.table, |l.data|) != []
    && HEADER_SIZE + |blocks| <= |l.table| && TableOf(Parse(l.table, HEADER_SIZE), Packets(codec, blocks))
    && FromBig(l.table[8..16]) == frames % Pow256(8)
    && (|l.table| < 0x1_0000_0000 ==> l.Valid() && l.table[0] == 0)
  }

  /** The writer's half of the journey. */
  method SaveFile(codec: BlockCodec, h: HeaderBuffer, d: Description, entries: seq<CafInfo.Entry>, tag: int,
                  custom: seq<Piece>, chunks: seq<seq<Sample>>)
    returns (table: TableBytes, file: seq<Byte>, blocks: seq<seq<Sample>>, ghost l: Image)
    requires codec.Valid() && AllAligned(codec, chunks) && Settings(codec, d, entries, tag, custom)
    requires h.Valid() && h.ptr.Length <= CAP / 2
    modifies h, h.ptr
    ensures Cut(codec, blocks, Flatten(chunks)) && Sized(Packets(codec, blocks))
    ensures Encodable(Lengths(Packets(codec, blocks))) && !table.Refused?
    ensures table.Overrun? <==> Excess(Lengths(Packets(codec, blocks))) > 76
    ensures table.Table? ==> PaddedTo(HEADER_SIZE + |Entries(Lengths(Packets(codec, blocks)))|, |table.bytes|)
    ensures table.Table? ==>
              && OnDisk(codec, l, file, blocks, |Flatten(chunks)| / codec.channels) && l.table == table.bytes
              && l.pairs == CafWriter.FrontPairs(entries) && |l.front| <= |custom| + 2
  {
    hide BlockCodec.Valid, Flatten, Packets, Parse, TableOf, Cut, Excess, Encodable, Entries, PaddedTo,
         HeaderBytes, FileBytes, Clear, FrontFits, FromBig, Pow256, CafWriter.FrontOf, CafWriter.FrontPairs,
         Image.Valid, Image.File, Settings, AllAligned, End, HeaderBuffer.Valid, OnDisk;
    WholeFrames(codec, chunks);
    var data;
    table, data, blocks := WriteFile(codec, chunks, |Flatten(chunks)| / codec.channels);
    file := [];
    ghost var front := CafWriter.FrontOf(entries, tag, custom);
    if !table.Table? {
      l := Image(d, [], [], [], [], []);
      return;
    }
    SettingsFit(codec, d, entries, tag, custom);
    ShortBuffer(h, front, table.bytes);
    var tail;
    file, tail := CafWriter.WriteFile(h, d, entries, tag, custom, table.bytes, data);
    l := Image(d, CafWriter.FrontPairs(entries), front, table.bytes, data, tail);
    FrontLength(entries, tag, custom);
    ClosedFile(codec, l, blocks, |Flatten(chunks)| / codec.channels, entries, tag, custom);
  }

  lemma ClosedFile(codec: BlockCodec, l: Image, blocks: seq<seq<Sample>>, frames: int, entries: seq<CafInfo.Entry>,
                   tag: int, custom: seq<Piece>)
    requires codec.Valid() && Settings(codec, l.d, entries, tag, custom) && Sized(Packets(codec, blocks))
    requires l.front == CafWriter.FrontOf(entries, tag, custom) && l.pairs == CafWriter.FrontPairs(entries)
    requires l.data == Flatten(Packets(codec, blocks)) && l.tail in {[], [0]}
    requires HEADER_SIZE + |blocks| <= |l.table| && TableOf(Parse(l.table, HEADER_SIZE), Packets(codec, blocks))
    requires |blocks| < Pow256(7) ==> l.table[0] == 0
    requires FromBig(l.table[8..16]) == frames % Pow256(8)
    ensures OnDisk(codec, l, FileBytes(l.d, l.front, l.table, l.data, l.tail), blocks, frames)
  {
    hide BlockCodec.Valid, Flatten, Packets, Parse, TableOf, HeaderBytes, FileBytes, FromBig, Pow256,
         CafWriter.FrontOf, CafWriter.FrontPairs, Image.Valid, Settings;
    if |l.table| < 0x1_0000_0000 { ImageValid(codec, Packets(codec, blocks), l, entries, tag, custom); }
    WholeFile(l.d, l.front, l.table, l.data, l.tail);
    ConcatAssoc(HeaderBytes(l.d, l.front, l.table, |l.data|), l.data, l.tail);
    SettingsFit(codec, l.d, entries, tag, custom);
  }

  /** The reader's half of the journey. */
  method LoadFile(codec: BlockCodec, file: seq<Byte>, turns: nat, written: seq<Byte>, lens: seq<nat>, ghost bits: nat,
                  ghost l: Image, ghost blocks: seq<seq<Sample>>, ghost all: seq<Sample>)
    returns (tableRead: Option<seq<Byte>>, caf: Caf, frames: nat, back: seq<Sample>)
    requires codec.Valid() && bits <= 32 && KeepsFrames(codec) && Cut(codec, blocks, all)
    requires OnDisk(codec, l, file, blocks, |all| / codec.channels) && l.table == written
    requires turns >= |l.front| + 2
    requires Sum(lens) <= |all| && forall k :: 0 <= k < |lens| ==> codec.Aligned(lens[k])
    ensures |written| < 0x1_0000_0000 ==> (tableRead == Some(written) <==> |written| <= CAP / 2)
    ensures |written| <= CAP / 2 ==>
              && |Flatten(Decoded(codec, blocks))| == |all| && back == Flatten(Decoded(codec, blocks))[..Sum(lens)]
              && (Lossless(codec, bits) && Words(bits, all) ==> back == all[..Sum(lens)])
              && codec.Flat(frames) == |all| && caf.FieldsRead(l)
  {
    hide BlockCodec.Valid, BlockCodec.Flat, BlockCodec.Aligned, Flatten, Packets, Parse, Lossless, Words,
         KeepsFrames, TableOf, Cut, Decoded, HeaderBytes, FileBytes, Image.Valid, Image.File, Caf.FieldsRead,
         FromBig, Pow256;
    tableRead, frames, back := None, 0, [];
    var found, bytes, size;
    caf, found, bytes, size := OpenFile(file, turns, l);
    if found { tableRead := Some(bytes[..size]); }
    if |written| <= CAP / 2 {
      frames, back := PlayFile(codec, caf.framesPerPacket, file, caf.dataOffset, bytes, size, lens, bits, blocks, all,
                               HeaderBytes(l.d, l.front, l.table, |l.data|), l.tail);
    }
  }

  /** The tag and text of every string set to go in front, as far as their pairs fitted. */
  function StringsBack(entries: seq<CafInfo.Entry>): seq<(Tag, Text)>
  {
    CafInfo.Values(CafWriter.FrontPairs(entries), CafInfo.FittingTags(entries, CafWriter.LOCATE_START, |entries|))
  }

  lemma SettingsFit(codec: BlockCodec, d: Description, entries: seq<CafInfo.Entry>, tag: int, custom: seq<Piece>)
    requires Settings(codec, d, entries, tag, custom)
    ensures FrontFits(CafWriter.FrontOf(entries, tag, custom)) && d.framesPerPacket == FRAME_LENGTH
  {
    hide FrontFits, CafWriter.FrontOf;
  }

  lemma WholeFrames(codec: BlockCodec, chunks: seq<seq<Sample>>)
    requires codec.Valid() && AllAligned(codec, chunks)
    ensures 1 <= codec.channels && codec.Flat(|Flatten(chunks)| / codec.channels) == |Flatten(chunks)|
    ensures 0 <= |Flatten(chunks)| / codec.channels <= |Flatten(chunks)|
  {
    hide BlockCodec.Flat, Flatten;
    AlignedAll(codec, chunks);
    codec.FlatQuotient(|Flatten(chunks)|);
    FewerFrames(codec, |Flatten(chunks)| / codec.channels);
  }

  /** Frames have a sample at least. */
  lemma {:induction false} FewerFrames(codec: BlockCodec, frames: int)
    requires 1 <= codec.channels && 0 <= codec.Flat(frames)
    ensures 0 <= frames <= codec.Flat(frames)
    decreases if frames < 0 then 0 else frames
  {
    hide BlockCodec.Flat;
    codec.FlatSum(0, 0);
    codec.FlatOrder(frames, 0);
    codec.FlatOrder(0, frames);
    if frames > 0 {
      codec.FlatOrder(frames - 1, frames);
      codec.FlatOrder(0, frames - 1);
      FewerFrames(codec, frames - 1);
    }
  }

  lemma {:induction false} AlignedAll(codec: BlockCodec, chunks: seq<seq<Sample>>)
    requires 1 <= codec.channels && AllAligned(codec, chunks)
    ensures codec.Aligned(|Flatten(chunks)|)
  {
    if chunks != [] {
      var last := |chunks| - 1;
      AlignedAll(codec, chunks[..last]);
      codec.AlignedSum(|Flatten(chunks[..last])|, |chunks[last]|);
    }
  }

  /** The strings and the frame count in the table are those that were written. */
  lemma FieldsBack(codec: BlockCodec, caf: Caf, l: Image, file: seq<Byte>, blocks: seq<seq<Sample>>, written: nat,
                   entries: seq<CafInfo.Entry>)
    requires codec.Valid() && AllCodable(codec, blocks) && written <= |Flatten(blocks)|
    requires caf.FieldsRead(l) && OnDisk(codec, l, file, blocks, written) && |l.table| <= CAP / 2
    requires l.pairs == CafWriter.FrontPairs(entries)
    ensures caf.validFrames == written && caf.strings == StringsBack(entries)
  {
    hide Flatten, FromBig, Fitting, CafInfo.Tagged, CafInfo.FittingTags, Packed, CafInfo.Known, Scan, Packets, Parse,
         TableOf, HeaderBytes, Image.Valid, Image.File;
    BlockSamples(codec, blocks);
    Int64Residue(written);
    var tags := CafInfo.FittingTags(entries, CafWriter.LOCATE_START, |entries|);
    PairsRoundTrip(CafInfo.Tagged(entries, CafWriter.LOCATE_START, |entries|));
    CafInfo.KnownByTag(l.pairs, tags);
  }

  lemma FrontLength(entries: seq<CafInfo.Entry>, tag: int, custom: seq<Piece>)
    ensures |CafWriter.FrontOf(entries, tag, custom)| <= |custom| + 2
  {
    hide Fitting, CafInfo.Tagged;
  }

  lemma ShortBuffer(h: HeaderBuffer, front: seq<Piece>, table: seq<Byte>)
    requires h.Valid() && h.ptr.Length <= CAP / 2
    ensures Clear(h.ptr.Length, End(front, table))
  {
    hide Flatten;
  }

  lemma ImageValid(codec: BlockCodec, packets: seq<seq<Byte>>, l: Image, entries: seq<CafInfo.Entry>, tag: int,
                   custom: seq<Piece>)
    requires codec.Valid() && Settings(codec, l.d, entries, tag, custom) && Sized(packets) && l.data == Flatten(packets)
    requires l.front == CafWriter.FrontOf(entries, tag, custom) && l.pairs == CafWriter.FrontPairs(entries)
    requires HEADER_SIZE + |packets| <= |l.table| < 0x1_0000_0000 && |l.tail| <= 1
    ensures l.Valid() && |packets| < Pow256(7)
  {
    hide Flatten, FrontFits, Storable, Fitting, CafInfo.Tagged, Packed, StringsBody, MapBody, Image.Passed;
    PacketBytes(packets);
    assert Pow256(3) == 0x100_0000;
    assert Pow256(5) == 0x100_0000_0000;
    assert Pow256(7) == 0x100_0000_0000_0000;
    forall k | 0 <= k < |l.front| ensures l.Passed(k) { FrontPassed(l, tag, custom, k); }
  }

  /** The reader passes over all chunks in front. */
  lemma FrontPassed(l: Image, tag: int, custom: seq<Piece>, k: nat)
    requires l.front == Front(l.pairs, tag, custom) && k < |l.front|
    requires forall i :: 0 <= i < |custom| ==> Plain(custom[i].marker) && 0 < custom[i].marker < 0x1_0000_0000
    ensures l.Passed(k)
  {
    hide Packed, StringsBody, MapBody, Plain;
    var n, m := |StringsLead(l.pairs)|, |Lead(l.pairs, tag)|;
    if k >= m {
      assert l.front[k] == custom[k - m];
    } else if k >= n {
      assert l.front[k] == MapLead(tag)[k - n];
    } else {
      assert l.front[k] == StringsLead(l.pairs)[k];
    }
  }

  lemma CutFacts(codec: BlockCodec, blocks: seq<seq<Sample>>, all: seq<Sample>)
    requires codec.Valid() && Cut(codec, blocks, all)
    ensures 1 <= codec.channels && AllCodable(codec, blocks) && Flatten(blocks) == all
  {
  }
}
