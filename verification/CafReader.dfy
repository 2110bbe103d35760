/** caf_read_header as a loop over chunks, and the chunk an ALAC reader takes its table from. */
module CafReader {
  import opened Bits
  import opened Endian
  import opened Wrappers
  import opened HeaderRoom
  import opened HeaderFormat
  import opened Header
  import opened CafLayout
  import opened CafStrings
  import opened ChunkIterator
  import HeaderPrint
  import CafInfo

  datatype Error = NotCaf | NoDesc | Malformed | BadPeak

  /** Whether the loop over chunks goes on. */
  datatype Status = More | Done | Failed(error: Error)

  // ----- The position in the file -----

  /** These bytes are next, and the cache ends at the position. */
  ghost predicate Here(h: HeaderBuffer, bytes: seq<Byte>)
    reads h, h.ptr
  {
    && h.Valid() && h.Coherent() && h.indx == h.end && h.indx + |bytes| <= |h.file|
    && h.file[h.indx..h.indx + |bytes|] == bytes
  }

  /** A format is next, and its room is granted. */
  ghost predicate Ready(h: HeaderBuffer, items: seq<Item>, end: nat)
    reads h, h.ptr
  {
    && Here(h, Print(items, h.bigEndian)) && Clear(h.ptr.Length, end)
    && Granted(items, h.indx, |Print(items, h.bigEndian)|, end)
  }

  /** One call of binheader_readf. */
  method Get(h: HeaderBuffer, fields: seq<Field>, ghost items: seq<Item>, ghost end: nat)
    returns (count: nat, got: seq<Item>)
    requires h.Valid()
    modifies h`ptr, h`indx, h`end, h`pos, h`bigEndian, h.ptr
    ensures h.Valid() && (h.ptr == old(h.ptr) || fresh(h.ptr))
    ensures old(Ready(h, items, end)) && fields == Fields(items) ==>
              && got == AllKept(items) && h.indx == old(h.indx) + count && Here(h, [])
              && count == |Print(items, old(h.bigEndian))|
              && h.bigEndian == OrderAfter(items, old(h.bigEndian)) && Clear(h.ptr.Length, end)
  {
    hide Print, OrderAfter, RoomAfter, Clear, Size, Granted;
    if Ready(h, items, end) { SmallRoom(items, h.indx, h.ptr.Length, h.bigEndian, false, end); }
    count, got := HeaderPrint.Readf(h, fields, items);
  }

  /** A chunk's marker and size are next. */
  ghost predicate StartReady(h: HeaderBuffer, marker: int, size: int, end: nat)
    reads h, h.ptr
  {
    && Here(h, Start(marker, size)) && 0 <= marker < 0x1_0000_0000 && 0 <= size < 0x8000_0000_0000_0000
    && Clear(h.ptr.Length, end) && h.indx + 12 <= end && (end <= h.indx + 100 || h.indx + 28 <= CAP / 4)
  }

  method ReadStart(h: HeaderBuffer, ghost marker: int, ghost size: int, ghost end: nat) returns (m: int, n: int)
    requires h.Valid()
    modifies h`ptr, h`indx, h`end, h`pos, h`bigEndian, h.ptr
    ensures h.Valid() && (h.ptr == old(h.ptr) || fresh(h.ptr))
    ensures old(StartReady(h, marker, size, end)) ==>
              m == marker && n == size && h.indx == old(h.indx) + 12 && Here(h, []) && Clear(h.ptr.Length, end)
  {
    hide Print, OrderAfter, Clear, LittleEndian, BigEndian;
    PrintStart(marker, size, h.bigEndian);
    StartKept(marker, size);
    var _, got := Get(h, [Tag, Order(true), Digit(8)], StartItems(marker, size), end);
    m, n := HeaderPrint.MarkerAt(got, 0), HeaderPrint.NumberAt(got, 2);
  }

  lemma StartKept(marker: int, size: int)
    ensures Fields(StartItems(marker, size)) == [Tag, Order(true), Digit(8)]
    ensures 0 <= marker < 0x1_0000_0000 && 0 <= size < 0x8000_0000_0000_0000 ==>
              AllKept(StartItems(marker, size)) == StartItems(marker, size)
  {
    assert Pow256(4) == 0x1_0000_0000 by { assert Pow256(2) == 0x1_0000; }
  }

  /** binheader_seekf forward over `n` bytes that lie in the file. */
  method Skip(h: HeaderBuffer, n: int, ghost end: nat)
    requires h.Valid()
    modifies h`ptr, h`indx, h`end, h`pos, h.ptr
    ensures h.Valid() && (h.ptr == old(h.ptr) || fresh(h.ptr))
    ensures old(Here(h, []) && Clear(h.ptr.Length, CAP)) && 0 <= n <= |h.file| - old(h.indx)
            && (old(h.indx) + n + 16 <= CAP / 4
                || (old(h.indx) <= FRONT_LIMIT + 36 && n <= CAP / 2 - 24 && end == old(h.indx) + n + 16)) ==>
              Here(h, []) && h.indx == old(h.indx) + n && Clear(h.ptr.Length, end)
  {
    hide LenAfter, Refused;
    if Here(h, []) && Clear(h.ptr.Length, CAP) && 0 <= n
       && (h.indx + n + 16 <= CAP / 4 || (h.indx <= FRONT_LIMIT + 36 && n <= CAP / 2 - 24 && end == h.indx + n + 16)) {
      SkipRoom(h.indx, h.ptr.Length, n, end);
    }
    h.SeekCur(n);
  }

  // ----- The header -----

  class Caf {
    const h: HeaderBuffer
    const rchunks: ChunkIterator.ChunkList
    /** Of the description. */
    var formatId: int
    var framesPerPacket: int
    var channels: int
    /** Of the packet table. */
    var packets: int
    var validFrames: int
    var primingFrames: int
    var remainderFrames: int
    /** What is stored of the strings. */
    var strings: seq<(Tag, Text)>
    /** Of the data section. */
    var haveData: bool
    var dataOffset: int
    var dataLength: int

    ghost predicate Valid()
      reads h, rchunks
    {
      h.Valid() && rchunks.Valid()
    }

    constructor (file: seq<Byte>)
      ensures Valid() && fresh(h) && fresh(h.ptr) && fresh(rchunks) && fresh(rchunks.storage)
      ensures h.file == file && h.Coherent() && h.indx == h.end == 0 && h.ptr.Length == INITIAL_HEADER_SIZE
      ensures rchunks.Stored() == [] && !haveData && strings == []
    {
      h := new HeaderBuffer(file);
      rchunks := new ChunkIterator.ChunkList();
      formatId, framesPerPacket, channels := 0, 0, 0;
      packets, validFrames, primingFrames, remainderFrames := 0, 0, 0, 0;
      haveData, dataOffset, dataLength, strings := false, 0, 0, [];
    }

    /** The `peak` branch. */
    method Peak(size: int) returns (status: Status)
      requires Valid()
      modifies h`ptr, h`indx, h`end, h`pos, h`bigEndian, h.ptr
      ensures Valid() && (h.ptr == old(h.ptr) || fresh(h.ptr))
    {
      if size != 4 + channels * 12 {
        h.SeekCur(size);
        return Failed(BadPeak);
      }
      var _, got := HeaderPrint.Readf(h, [Order(true), Digit(4)], []);
      var k := 0;
      while k < channels
        invariant Valid() && (h.ptr == old(h.ptr) || fresh(h.ptr))
      {
        var _, peak := HeaderPrint.Readf(h, [Order(true), Digit(4), Digit(8)], []);
        k := k + 1;
      }
      status := More;
    }

    /** The `chan` branch with caf_read_chanmap. */
    method ChannelMap(size: int, ghost body: seq<Byte>)
      requires Valid()
      modifies h`ptr, h`indx, h`end, h`pos, h`bigEndian, h.ptr
      ensures Valid() && (h.ptr == old(h.ptr) || fresh(h.ptr))
      ensures old(Early(h, body)) && |body| == size == 12 ==>
                Here(h, []) && h.indx == old(h.indx) + size && Clear(h.ptr.Length, CAP)
    {
      hide Print, Clear, OrderAfter, MapItemsRead, Granted;
      if size < 12 {
        h.SeekCur(size);
        return;
      }
      ghost var items := if |body| == 12 then MapItemsRead(body) else [];
      if |body| == 12 {
        PrintMapRead(body, h.bigEndian);
        MapFields(body);
        EarlyGranted(items, h.indx, 12);
      }
      var count, got := Get(h, [Order(true), Digit(4), Digit(4), Digit(4)], items, CAP);
      if count < size {
        h.SeekCur(size - count);
      }
    }

    /** The `info` branch. */
    method Info(size: int, ghost pairs: seq<Pair>) returns (status: Status)
      requires Valid()
      modifies this`strings, h`ptr, h`indx, h`end, h`pos, h`bigEndian, h.ptr
      ensures Valid() && (h.ptr == old(h.ptr) || fresh(h.ptr))
      ensures old(Early(h, StringsBody(pairs))) && pairs != [] && size == |StringsBody(pairs)| ==>
                && status == More && Here(h, []) && h.indx == old(h.indx) + size && Clear(h.ptr.Length, CAP)
                && strings == old(strings) + StoredOf(pairs)
    {
      hide Print, Clear, OrderAfter, RoomAfter, Packed, StoredOf, BigEndian, CafInfo.BodyItems;
      if size < 4 || size > |h.file| - h.indx {
        return Failed(Malformed);
      }
      CafInfo.PrintBody(pairs, h.bigEndian);
      StoredIs(pairs);
      if pairs != [] { CafInfo.PackedNonEmpty(pairs); }
      if size > 4 {
        if Early(h, StringsBody(pairs)) {
          FrontRoom(CafInfo.BodyItems(pairs), h.indx, h.ptr.Length, h.bigEndian, false, CAP);
        }
        var more := CafInfo.ReadBody(h, size - 4, pairs);
        strings := strings + more;
      }
      status := More;
    }

    /** The `pakt` branch: four fields, and on to the end of the chunk. */
    method Table(size: int, ghost table: seq<Byte>) returns (status: Status)
      requires Valid()
      modifies this`packets, this`validFrames, this`primingFrames, this`remainderFrames
      modifies h`ptr, h`indx, h`end, h`pos, h`bigEndian, h.ptr
      ensures Valid() && (h.ptr == old(h.ptr) || fresh(h.ptr))
      ensures old(Here(h, table) && Clear(h.ptr.Length, CAP) && h.indx <= FRONT_LIMIT + 12)
              && 24 <= |table| == size <= CAP / 2 ==>
                && status == More && Here(h, []) && h.indx == old(h.indx) + size && Clear(h.ptr.Length, h.indx + 16)
                && packets == Int64(FromBig(table[..8])) && validFrames == Int64(FromBig(table[8..16]))
    {
      hide Print, Clear, FromBig, OrderAfter, TableItems, Kept, Int64, Granted;
      if size < 24 || size > |h.file| - h.indx {
        return Failed(Malformed);
      }
      ghost var items := if |table| >= 24 then TableItems(table) else [];
      if |table| >= 24 {
        PrintTable(table, h.bigEndian);
        TableFields(table);
        AtPrefix(h, table, 24);
        EarlyGranted(items, h.indx, 24);
      }
      var _, got := Get(h, [Order(true), Digit(8), Digit(8), Digit(4), Digit(4)], items, CAP);
      packets, validFrames := HeaderPrint.NumberAt(got, 1), HeaderPrint.NumberAt(got, 2);
      primingFrames, remainderFrames := HeaderPrint.NumberAt(got, 3), HeaderPrint.NumberAt(got, 4);
      Skip(h, size - 24, h.indx + (size - 24) + 16);
      status := More;
    }

    /** The `data` branch. */
    method Data(size: int, ghost length: nat)
      requires Valid()
      modifies this`haveData, this`dataOffset, this`dataLength
      modifies h`ptr, h`indx, h`end, h`pos, h`bigEndian, h.ptr
      ensures Valid() && (h.ptr == old(h.ptr) || fresh(h.ptr)) && haveData
      ensures old(Here(h, BigEndian(0, 4)) && Clear(h.ptr.Length, h.indx + 4)) && size == length + 4
              && old(h.indx) + 4 + length <= |h.file| ==>
                dataOffset == old(h.indx) + 4 && dataLength == length && h.pos == dataOffset + length
    {
      hide Print, Clear, LenAfter, Refused, OrderAfter;
      PrintEdit(h.bigEndian);
      EditFields();
      var _, got := Get(h, [Order(true), Digit(4)], EditItems(), h.indx + 4);
      dataLength := if size > |h.file| - h.indx + 10 then |h.file| - h.indx - 8 else size - 4;
      dataOffset := h.indx;
      h.SeekCur(dataLength);
      haveData := true;
    }

    /** The switch over the marker. `body` and `pairs` are what the chunk is expected to hold. */
    method Handle(marker: int, size: int, ghost body: seq<Byte>, ghost pairs: seq<Pair>, ghost length: nat)
      returns (status: Status)
      requires Valid()
      modifies this`packets, this`validFrames, this`primingFrames, this`remainderFrames, this`strings
      modifies this`haveData, this`dataOffset, this`dataLength
      modifies h`ptr, h`indx, h`end, h`pos, h`bigEndian, h.ptr
      ensures Valid() && (h.ptr == old(h.ptr) || fresh(h.ptr))
      ensures marker != DATA_MARKER ==> haveData == old(haveData)
      ensures marker != CafInfo.INFO_MARKER ==> strings == old(strings)
      ensures marker != PAKT_MARKER ==> packets == old(packets) && validFrames == old(validFrames)
      ensures old(Early(h, body)) && |body| == size && PassedOver(marker, body, pairs) ==>
                && status == More && Here(h, []) && h.indx == old(h.indx) + size && Clear(h.ptr.Length, CAP)
                && (marker == CafInfo.INFO_MARKER ==> strings == old(strings) + StoredOf(pairs))
      ensures old(Here(h, body) && Clear(h.ptr.Length, CAP) && h.indx <= FRONT_LIMIT + 12)
              && 24 <= |body| == size <= CAP / 2
              && marker == PAKT_MARKER ==>
                && status == More && Here(h, []) && h.indx == old(h.indx) + size && Clear(h.ptr.Length, h.indx + 16)
                && packets == Int64(FromBig(body[..8])) && validFrames == Int64(FromBig(body[8..16]))
      ensures old(Here(h, BigEndian(0, 4)) && Clear(h.ptr.Length, h.indx + 4)) && size == length + 4
              && old(h.indx) + 4 + length <= |h.file| && marker == DATA_MARKER ==>
                && status == More && haveData && dataOffset == old(h.indx) + 4 && dataLength == length
                && h.pos == dataOffset + length
    {
      hide Clear, Here, BigEndian, FromBig, Int64, Early, StoredOf, StringsBody, Packed;
      status := More;
      if marker == PEAK_MARKER {
        status := Peak(size);
      } else if marker == CHAN_MARKER {
        ChannelMap(size, body);
      } else if marker == DATA_MARKER {
        Data(size, length);
      } else if marker == PAKT_MARKER {
        status := Table(size, body);
      } else if marker == CafInfo.INFO_MARKER {
        status := Info(size, pairs);
      } else {
        if Early(h, body) { EarlyFacts(h, body); }
        Skip(h, size, CAP);
      }
    }

    /** Marker and size of the next chunk, and its entry in the list, unless reading ends here. */
    method Announce(ghost marker: int, ghost size: int, ghost end: nat) returns (go: bool, m: int, n: int)
      requires Valid()
      modifies h`ptr, h`indx, h`end, h`pos, h`bigEndian, h.ptr, rchunks`storage, rchunks`used, rchunks.storage
      ensures Valid() && (h.ptr == old(h.ptr) || fresh(h.ptr))
      ensures rchunks.storage == old(rchunks.storage) || fresh(rchunks.storage)
      ensures old(rchunks.Stored()) <= rchunks.Stored()
      ensures !go ==> rchunks.Stored() == old(rchunks.Stored())
      ensures old(StartReady(h, marker, size, end)) ==>
                && m == marker && n == size && (go <==> marker != 0 && size <= |h.file|)
                && h.indx == old(h.indx) + 12 && Here(h, []) && Clear(h.ptr.Length, end)
      ensures old(StartReady(h, marker, size, end)) && go ==>
                rchunks.Stored() == old(rchunks.Stored()) + [Recorded(marker, old(h.indx) + 12, size)]
    {
      hide Clear, Here, Start, Recorded, ChunkIterator.ChunkList.Stored;
      m, n := ReadStart(h, marker, size, end);
      go := !(m == 0 || n < 0 || n > |h.file|);
      if go {
        Arrived(h, []);
        rchunks.Store(Recorded(m, h.pos, n));
      }
    }

    /** The switch and the tests behind it. */
    method Treat(m: int, n: int, ghost body: seq<Byte>, ghost pairs: seq<Pair>, ghost length: nat)
      returns (status: Status)
      requires Valid()
      modifies this`packets, this`validFrames, this`primingFrames, this`remainderFrames, this`strings
      modifies this`haveData, this`dataOffset, this`dataLength
      modifies h`ptr, h`indx, h`end, h`pos, h`bigEndian, h.ptr
      ensures Valid() && (h.ptr == old(h.ptr) || fresh(h.ptr))
      ensures m != DATA_MARKER ==> haveData == old(haveData)
      ensures m != CafInfo.INFO_MARKER ==> strings == old(strings)
      ensures m != PAKT_MARKER ==> packets == old(packets) && validFrames == old(validFrames)
      ensures old(Early(h, body) && h.indx + n + 8 < |h.file|) && |body| == n && PassedOver(m, body, pairs) ==>
                && status == More && Here(h, []) && h.indx == old(h.indx) + n && Clear(h.ptr.Length, CAP)
                && (m == CafInfo.INFO_MARKER ==> strings == old(strings) + StoredOf(pairs))
      ensures old(Here(h, body) && Clear(h.ptr.Length, CAP) && h.indx <= FRONT_LIMIT + 12 && h.indx + n + 8 < |h.file|)
              && 24 <= |body| == n <= CAP / 2 && m == PAKT_MARKER ==>
                && status == More && Here(h, []) && h.indx == old(h.indx) + n && Clear(h.ptr.Length, h.indx + 16)
                && packets == Int64(FromBig(body[..8])) && validFrames == Int64(FromBig(body[8..16]))
      ensures old(Here(h, BigEndian(0, 4)) && Clear(h.ptr.Length, h.indx + 4)) && n == length + 4 && m == DATA_MARKER
              && old(h.indx) + 4 + length <= |h.file| <= old(h.indx) + 12 + length ==>
                status == Done && haveData && dataOffset == old(h.indx) + 4 && dataLength == length
    {
      hide Clear, Here, BigEndian, FromBig, Int64, Early, PassedOver, StoredOf;
      EarlyIs(h, body);
      status := Handle(m, n, body, pairs, length);
      Arrived(h, []);
      if !status.More? {
        return;
      }
      if (m != DATA_MARKER && n >= 0xFFFF_FF00) || h.pos >= |h.file| - 8 {
        status := Done;
      }
    }

    /** One turn of the loop over chunks. */
    method NextChunk(ghost marker: int, ghost size: int, ghost end: nat, ghost body: seq<Byte>, ghost pairs: seq<Pair>,
                     ghost length: nat)
      returns (status: Status)
      requires Valid()
      modifies this`packets, this`validFrames, this`primingFrames, this`remainderFrames, this`strings
      modifies this`haveData, this`dataOffset, this`dataLength
      modifies h`ptr, h`indx, h`end, h`pos, h`bigEndian, h.ptr, rchunks`storage, rchunks`used, rchunks.storage
      ensures Valid() && (h.ptr == old(h.ptr) || fresh(h.ptr))
      ensures rchunks.storage == old(rchunks.storage) || fresh(rchunks.storage)
      ensures old(rchunks.Stored()) <= rchunks.Stored()
      ensures old(StartReady(h, marker, size, end)) && size > |h.file| ==>
                status == Done && haveData == old(haveData) && rchunks.Stored() == old(rchunks.Stored())
      ensures old(StartReady(h, marker, size, end)) && marker != 0 && size <= |h.file| ==>
                rchunks.Stored() == old(rchunks.Stored()) + [Recorded(marker, old(h.indx) + 12, size)]
      ensures old(StartReady(h, marker, size, end)) ==>
                && (marker != DATA_MARKER ==> haveData == old(haveData))
                && (marker != CafInfo.INFO_MARKER ==> strings == old(strings))
                && (marker != PAKT_MARKER ==> packets == old(packets) && validFrames == old(validFrames))
      ensures old(StartReady(h, marker, size, CAP) && Behind(h, 12, body)
                  && h.indx + 12 + size + 16 <= CAP / 4 && h.indx + 12 + size + 8 < |h.file|)
              && PassedOver(marker, body, pairs) && |body| == size && end == CAP ==>
                && status == More && Here(h, []) && h.indx == old(h.indx) + 12 + size && Clear(h.ptr.Length, CAP)
                && (marker == CafInfo.INFO_MARKER ==> strings == old(strings) + StoredOf(pairs))
      ensures old(StartReady(h, marker, size, CAP) && Behind(h, 12, body) && h.indx <= FRONT_LIMIT
                  && h.indx + 12 + size + 8 < |h.file|)
              && 24 <= |body| == size <= CAP / 2 && marker == PAKT_MARKER && end == CAP ==>
                && status == More && Here(h, []) && h.indx == old(h.indx) + 12 + size
                && Clear(h.ptr.Length, h.indx + 16)
                && packets == Int64(FromBig(body[..8])) && validFrames == Int64(FromBig(body[8..16]))
      ensures old(StartReady(h, marker, size, end) && Behind(h, 12, BigEndian(0, 4)) && end == h.indx + 16)
              && size == length + 4 && marker == DATA_MARKER
              && old(h.indx) + 16 + length <= |h.file| <= old(h.indx) + 24 + length ==>
                status == Done && haveData && dataOffset == old(h.indx) + 16 && dataLength == length
    {
      hide Clear, Here, BigEndian, FromBig, Int64, Start, StartReady, Recorded, ChunkIterator.ChunkList.Stored, Early,
           PassedOver, StoredOf;
      var go, m, n := Announce(marker, size, end);
      if PassedOver(marker, body, pairs) { NotZero(marker, body, pairs); }
      if !go {
        return Done;
      }
      Arrived(h, body);
      Arrived(h, BigEndian(0, 4));
      EarlyIs(h, body);
      status := Treat(m, n, body, pairs, length);
    }

    /** The start of the file and the description chunk. */
    method ReadHead(ghost d: Description) returns (status: Status)
      requires Valid()
      modifies this`formatId, this`framesPerPacket, this`channels
      modifies h`ptr, h`indx, h`end, h`pos, h`bigEndian, h.ptr
      ensures Valid() && (h.ptr == old(h.ptr) || fresh(h.ptr))
      ensures status != Done
      ensures Storable(d) && old(Here(h, Head(d)) && h.indx == 0 && Clear(h.ptr.Length, CAP))
              && d.channels <= MAX_CHANNELS ==>
                && status == More && h.indx == HEAD_SIZE && Here(h, []) && Clear(h.ptr.Length, CAP)
                && formatId == d.formatId && framesPerPacket == d.framesPerPacket && channels == d.channels
    {
      hide Print, Clear, FileStart, Start, Here, Head, FormatItems;
      ghost var expected := Storable(d) && Here(h, Head(d)) && h.indx == 0 && Clear(h.ptr.Length, CAP);
      Rewind();
      if expected { HeadParts(h, d); }
      var caff := ReadFileStart(h);
      if caff != CAFF_MARKER {
        return Failed(NotCaf);
      }
      if expected { Arrived(h, Start(DESC_MARKER, DESC_SIZE) + d.rate); }
      var desc, size := ReadDescStart(h, d.rate);
      if desc != DESC_MARKER {
        return Failed(NoDesc);
      }
      if size < DESC_SIZE {
        return Failed(Malformed);
      }
      if expected { Arrived(h, Print(FormatItems(d), true)); }
      formatId, framesPerPacket, channels := ReadFormat(h, d);
      if channels > MAX_CHANNELS {
        return Failed(Malformed);
      }
      if size > DESC_SIZE {
        h.SeekCur(size - DESC_SIZE);
      }
      status := More;
    }

    /** binheader_seekf to the start of the file. */
    method Rewind()
      requires Valid()
      modifies h`ptr, h`indx, h`end, h`pos, h.ptr
      ensures Valid() && (h.ptr == old(h.ptr) || fresh(h.ptr))
      ensures forall bytes, end :: old(Here(h, bytes) && h.indx == 0 && Clear(h.ptr.Length, end)) ==>
                Here(h, bytes) && h.indx == 0 && Clear(h.ptr.Length, end)
    {
      h.SeekSet(0);
    }

    /** Before chunk `k` of a file as it is written: the chunks so far are listed, none of them the
        packet table. */
    ghost predicate Before(l: Image, k: nat)
      reads this, h, h.ptr, rchunks, rchunks.storage
    {
      && Valid() && !haveData && h.file == l.File() && k <= |l.front| && h.indx == Place(l.front, l.table, k)
      && Here(h, []) && Clear(h.ptr.Length, CAP) && |rchunks.Stored()| == k && NoTable(rchunks.Stored(), k)
      && strings == if k == 0 || l.pairs == [] then [] else StoredOf(l.pairs)
    }

    /** What the chunks in front and the fields of the table say. */
    ghost predicate FieldsRead(l: Image)
      reads `strings, `packets, `validFrames
    {
      && strings == (if l.pairs == [] then [] else StoredOf(l.pairs)) && |l.table| >= 24
      && packets == Int64(FromBig(l.table[..8])) && validFrames == Int64(FromBig(l.table[8..16]))
    }

    /** Behind the table, if it was granted. */
    ghost predicate BeforeData(l: Image)
      reads this, h, h.ptr, rchunks, rchunks.storage
    {
      && Valid() && !haveData && h.file == l.File() && h.indx == Place(l.front, l.table, |l.front| + 1)
      && Here(h, []) && Clear(h.ptr.Length, h.indx + 16) && TableListed(rchunks.Stored(), l) && FieldsRead(l)
    }

    /** Turn `k` on a file as it is written. */
    method Turn(ghost l: Image, ghost k: nat) returns (status: Status)
      requires Valid()
      modifies this`packets, this`validFrames, this`primingFrames, this`remainderFrames, this`strings
      modifies this`haveData, this`dataOffset, this`dataLength
      modifies h`ptr, h`indx, h`end, h`pos, h`bigEndian, h.ptr, rchunks`storage, rchunks`used, rchunks.storage
      ensures Valid() && (h.ptr == old(h.ptr) || fresh(h.ptr))
      ensures rchunks.storage == old(rchunks.storage) || fresh(rchunks.storage)
      ensures old(rchunks.Stored()) <= rchunks.Stored()
      ensures l.Valid() && k < |l.front| && old(Before(l, k)) ==> status == More && Before(l, k + 1)
      ensures l.Valid() && k == |l.front| && old(Before(l, k)) ==>
                TableListed(rchunks.Stored(), l) || (status == Done && !haveData)
      ensures l.Valid() && k == |l.front| && old(Before(l, k)) && |l.table| <= CAP / 2 ==>
                status == More && BeforeData(l)
      ensures l.Valid() && k == |l.front| + 1 && old(BeforeData(l)) ==>
                status == Done && DataFound(l)
    {
      hide Clear, Here, FromBig, Int64, Start, Place, Behind, FileBytes, Image.File, BigEndian, PassedOver, StoredOf,
           StringsLead, FrontFits, Storable, Image.Passed, Packed;
      ghost var marker, size, end := 0, 0, CAP;
      ghost var body: seq<Byte> := [];
      if l.Valid() && k <= |l.front| && Before(l, k) {
        var p := Pieces(l.front, l.table)[k];
        marker, size, body := p.marker, |p.body|, p.body;
        Upcoming(h, l, k);
        if k < |l.front| { NextPassed(l, k); }
        StringsFirst(l);
        EmptyFirst([], StoredOf(l.pairs));
      } else if l.Valid() && BeforeData(l) {
        marker, size, end := DATA_MARKER, |l.data| + 4, h.indx + 16;
        UpcomingData(h, l);
      }
      status := NextChunk(marker, size, end, body, l.pairs, |l.data|);
    }

    /** After `k` turns on a file as it is written. */
    ghost predicate Progress(l: Image, k: nat, status: Status)
      reads this, h, h.ptr, rchunks, rchunks.storage
    {
      var n := |l.front|;
      && rchunks.Valid()
      && (k <= n ==> status == More && Before(l, k))
      && (k > n ==> TableListed(rchunks.Stored(), l) || (status == Done && !haveData))
      && (|l.table| <= CAP / 2 && k == n + 1 ==> status == More && BeforeData(l))
      && (|l.table| <= CAP / 2 && k > n + 1 ==> status == Done && DataFound(l))
    }

    /** The data section is where the writer put the packets. */
    ghost predicate DataFound(l: Image)
      reads `haveData, `dataOffset, `dataLength, `strings, `packets, `validFrames
    {
      && haveData && dataOffset == Place(l.front, l.table, |l.front| + 1) + 16 && dataLength == |l.data|
      && FieldsRead(l)
    }

    method Step(ghost l: Image, ghost k: nat) returns (status: Status)
      requires Valid()
      modifies this`packets, this`validFrames, this`primingFrames, this`remainderFrames, this`strings
      modifies this`haveData, this`dataOffset, this`dataLength
      modifies h`ptr, h`indx, h`end, h`pos, h`bigEndian, h.ptr, rchunks`storage, rchunks`used, rchunks.storage
      ensures Valid() && (h.ptr == old(h.ptr) || fresh(h.ptr))
      ensures rchunks.storage == old(rchunks.storage) || fresh(rchunks.storage)
      ensures l.Valid() && old(Progress(l, k, More)) ==> Progress(l, k + 1, status)
    {
      hide Clear, Here, Place, FileBytes, Image.File, Image.Valid, TableListed, Caf.Before, Caf.BeforeData;
      ghost var chunks := rchunks.Stored();
      status := Turn(l, k);
      if TableListed(chunks, l) { Listed(chunks, rchunks.Stored(), l); }
    }

    /** The loop over the chunks behind the description, for at most `turns` of them. */
    method ReadChunks(turns: nat, ghost l: Image) returns (status: Status)
      requires Valid()
      modifies this`packets, this`validFrames, this`primingFrames, this`remainderFrames, this`strings
      modifies this`haveData, this`dataOffset, this`dataLength
      modifies h`ptr, h`indx, h`end, h`pos, h`bigEndian, h.ptr, rchunks`storage, rchunks`used, rchunks.storage
      ensures Valid()
      ensures l.Valid() && old(Before(l, 0)) && status == Done && haveData ==> TableListed(rchunks.Stored(), l)
      ensures l.Valid() && old(Before(l, 0)) && |l.table| <= CAP / 2 && turns >= |l.front| + 2 ==>
                status == Done && DataFound(l)
    {
      hide Image.Valid, TableListed, Caf.Before, Caf.BeforeData, Caf.DataFound;
      ghost var known := l.Valid() && Before(l, 0);
      status := More;
      var k := 0;
      if known { FirstProgress(l); }
      while k < turns && status.More?
        invariant Valid() && (h.ptr == old(h.ptr) || fresh(h.ptr))
        invariant rchunks.storage == old(rchunks.storage) || fresh(rchunks.storage)
        invariant known ==> Progress(l, k, status)
        decreases turns - k
      {
        status := Step(l, k);
        k := k + 1;
      }
    }

    lemma FirstProgress(l: Image)
      requires Before(l, 0)
      ensures Progress(l, 0, More)
    {
    }

    lemma AtFirst(l: Image)
      requires Valid() && l.Valid() && h.file == l.File() && h.indx == HEAD_SIZE
               && Here(h, []) && Clear(h.ptr.Length, CAP)
      requires !haveData && rchunks.Stored() == [] && strings == []
      ensures Before(l, 0)
    {
      hide Here, Clear, FileBytes;
    }

    /** caf_read_header, for at most `turns` chunks. */
    method ReadHeader(turns: nat, ghost l: Image) returns (status: Status)
      requires Valid() && h.indx == 0 && !haveData && rchunks.Stored() == [] && strings == []
      modifies this, h, h.ptr, rchunks`storage, rchunks`used, rchunks.storage
      ensures Valid()
      ensures l.Valid() && old(Here(h, []) && Clear(h.ptr.Length, CAP)) && h.file == l.File() && status == Done ==>
                TableListed(rchunks.Stored(), l)
      ensures l.Valid() && old(Here(h, []) && Clear(h.ptr.Length, CAP)) && h.file == l.File()
              && |l.table| <= CAP / 2 && turns >= |l.front| + 2 ==>
                && status == Done && DataFound(l)
                && formatId == l.d.formatId && framesPerPacket == l.d.framesPerPacket && channels == l.d.channels
    {
      hide Clear, Here, FileBytes, Image.File, TableListed, Caf.Before, Caf.DataFound, FrontFits, Storable;
      ghost var known := l.Valid() && Here(h, []) && h.file == l.File() && Clear(h.ptr.Length, CAP);
      if known { UpcomingHead(h, l); }
      status := ReadHead(l.d);
      if status.Failed? {
        return;
      }
      if known { AtFirst(l); }
      status := ReadChunks(turns, l);
      if status == Done && !haveData {
        NoData(l);
        status := Failed(Malformed);
      }
    }

    lemma NoData(l: Image)
      requires !haveData
      ensures !DataFound(l)
    {
    }

    /** caf_get_chunk_data into a buffer with room for five bytes more. */
    method ReadAt(offset: int, length: nat) returns (data: array<Byte>)
      ensures fresh(data) && data.Length == length + 5
      ensures 0 <= offset && offset + length <= |h.file| ==> data[..length] == h.file[offset..offset + length]
      ensures 0 <= offset < |h.file| && length > 0 ==> data[0] == h.file[offset]
    {
      data := new Byte[length + 5];
      forall i | 0 <= i < length && 0 <= offset && offset + i < |h.file| { data[i] := h.file[offset + i]; }
    }

    /** Where the list says the table is, the file holds it, or the data section if the header
        took only its size. */
    lemma TableAt(l: Image)
      requires l.Valid() && h.file == l.File()
      ensures var at := Place(l.front, l.table, |l.front|) + 12;
              && at < |h.file| && Recorded(PAKT_MARKER, at, |l.table|) == Chunk(PAKT_MARKER, PAKT_MARKER, at, |l.table|)
              && (|l.table| <= CAP / 2 ==> at + |l.table| <= |h.file| && h.file[at..at + |l.table|] == l.table)
              && (|l.table| > CAP / 2 ==> h.file[at] == DATA_MARKER % 256)
    {
      hide Place, FileBytes, Printed, FrontFits, Storable, DataStart, Start, Image.File;
      var n, p := |l.front|, Pieces(l.front, l.table)[|l.front|];
      Offsets(l, n);
      DataSlice(l);
      PrintedParts(p);
      var at := Place(l.front, l.table, n);
      if |l.table| <= CAP / 2 {
        TailSlice(h.file, at, Start(p.marker, |p.body|), p.body);
      } else {
        DataFirst(|l.data|);
        assert h.file[at + 12] == h.file[at + 12..at + 28][0];
      }
    }

    /** The first chunk of the name `pakt`. */
    method Locate(stale: Stale, kept: Stale, ghost l: Image) returns (c: Option<Chunk>)
      requires Valid()
      modifies rchunks`current, rchunks`hash
      ensures Valid() && rchunks.Stored() == old(rchunks.Stored())
      ensures c.Some? ==> rchunks.current < rchunks.used
      ensures TableListed(rchunks.Stored(), l) ==> c == Some(rchunks.Stored()[|l.front|])
    {
      hide MarkerHash, Place;
      PaktHash(stale);
      var found := rchunks.Get(Some(PAKT_NAME), stale, kept);
      if TableListed(rchunks.Stored(), l) { assert rchunks.Stored()[|l.front|].hash == PAKT_MARKER; }
      c := if found then Some(rchunks.storage[rchunks.current]) else None;
    }

    /** Iterating to the end, so that nothing is left of the search. */
    method Finish()
      requires Valid() && rchunks.current < rchunks.used
      modifies rchunks`current, rchunks`hash
      ensures Valid() && rchunks.Stored() == old(rchunks.Stored()) && rchunks.hash == 0
    {
      var more := true;
      while more
        invariant Valid() && rchunks.Stored() == old(rchunks.Stored())
        invariant if more then rchunks.current < rchunks.used else rchunks.hash == 0
        decreases if more then rchunks.used - rchunks.current else 0
      {
        more := rchunks.Next();
      }
    }

    /** What alac_pakt_read_decode asks the list of chunks for: the bytes of the first `pakt` chunk,
        in a buffer of five bytes more. What the file does not hold stays as it was allocated. */
    method FindTable(stale: Stale, kept: Stale, ghost l: Image) returns (found: bool, data: array<Byte>, size: nat)
      requires Valid()
      modifies rchunks`current, rchunks`hash
      ensures Valid() && rchunks.Stored() == old(rchunks.Stored()) && fresh(data) && data.Length == size + 5
      ensures l.Valid() && TableListed(rchunks.Stored(), l) && h.file == l.File() && |l.table| <= CAP / 2 ==>
                found && data[..size] == l.table
      ensures l.Valid() && TableListed(rchunks.Stored(), l) && h.file == l.File() && |l.table| > CAP / 2 ==>
                found && size == |l.table| && data[0] == DATA_MARKER % 256
    {
      hide Place, FileBytes, Image.File, Recorded, ChunkIterator.ChunkList.Stored, FrontFits, Storable;
      if l.Valid() && h.file == l.File() { TableAt(l); }
      var c := Locate(stale, kept, l);
      found := c.Some?;
      if !found {
        size, data := 0, new Byte[5];
        return;
      }
      Finish();
      size := c.value.length;
      data := ReadAt(c.value.offset, size);
    }
  }

  const PAKT_NAME: seq<Byte> := [0x70, 0x61, 0x6B, 0x74]

  lemma PaktHash(stale: Stale)
    ensures MarkerHash(PAKT_NAME, stale) == PAKT_MARKER
  {
    HashOfMarker(PAKT_NAME, stale);
    assert PAKT_NAME[1..] == [0x61, 0x6B, 0x74] && PAKT_NAME[1..][1..] == [0x6B, 0x74];
    assert FromLittle([0x74]) == 0x74;
    assert FromLittle([0x6B, 0x74]) == 0x746B;
    assert FromLittle([0x61, 0x6B, 0x74]) == 0x74_6B61;
  }

  lemma DataFirst(length: int)
    ensures DataStart(length)[0] == DATA_MARKER % 256
  {
    hide BigEndian;
  }

  lemma TailSlice(file: seq<Byte>, at: nat, a: seq<Byte>, b: seq<Byte>)
    requires at + |a + b| <= |file| && file[at..at + |a + b|] == a + b
    ensures file[at + |a|..at + |a| + |b|] == b
  {
    assert file[at + |a|..at + |a| + |b|] == file[at..at + |a + b|][|a|..];
  }

  /** None of the first chunks is a packet table. */
  predicate NoTable(chunks: seq<Chunk>, n: nat)
    requires n <= |chunks|
  {
    forall i :: 0 <= i < n ==> chunks[i].hash != PAKT_MARKER
  }

  /** The chunk behind those in front is the packet table, and the first of that name. */
  predicate TableListed(chunks: seq<Chunk>, l: Image)
  {
    var n := |l.front|;
    && |chunks| > n && NoTable(chunks, n)
    && chunks[n] == Recorded(PAKT_MARKER, Place(l.front, l.table, n) + 12, |l.table|)
  }

  /** What is listed stays so. */
  lemma Listed(before: seq<Chunk>, after: seq<Chunk>, l: Image)
    requires before <= after && TableListed(before, l)
    ensures TableListed(after, l)
  {
  }

  lemma UpcomingHead(h: HeaderBuffer, l: Image)
    requires l.Valid() && h.indx == 0 && Here(h, []) && h.file == l.File()
    ensures Here(h, Head(l.d))
  {
    hide Head;
    DataInFile(l.d, l.front, l.table, l.data, l.tail);
    HeadLength(l.d);
  }

  lemma UpcomingData(h: HeaderBuffer, l: Image)
    requires l.Valid() && h.file == l.File() && h.indx == Place(l.front, l.table, |l.front| + 1) && Here(h, [])
    requires Clear(h.ptr.Length, h.indx + 16)
    ensures StartReady(h, DATA_MARKER, |l.data| + 4, h.indx + 16) && Behind(h, 12, BigEndian(0, 4))
    ensures |h.file| == h.indx + 16 + |l.data| + |l.tail|
  {
    hide Place, FileBytes, Here, Clear, Start, BigEndian, Storable, FrontFits;
    DataInFile(l.d, l.front, l.table, l.data, l.tail);
    Arrived(h, DataStart(|l.data|));
    AtPrefix(h, DataStart(|l.data|), 12);
    SuffixBehind(h, Start(DATA_MARKER, |l.data| + 4), BigEndian(0, 4));
  }

  /** At the start of chunk `k` its marker and size are next. */
  lemma Upcoming(h: HeaderBuffer, l: Image, k: nat)
    requires l.Valid() && k <= |l.front| && h.file == l.File() && h.indx == Place(l.front, l.table, k) && Here(h, [])
    requires Clear(h.ptr.Length, CAP)
    ensures var p := Pieces(l.front, l.table)[k];
            && StartReady(h, p.marker, |p.body|, CAP) && h.indx <= FRONT_LIMIT
            && (|p.body| <= CAP / 2 ==> h.indx + 12 + |p.body| == Place(l.front, l.table, k + 1) <= |h.file| - 16)
            && (|p.body| <= CAP / 2 ==> Behind(h, 12, p.body))
            && (k < |l.front| ==> |p.body| <= CAP / 2 && h.indx + 12 + |p.body| + 16 <= CAP / 4)
  {
    hide Start, Place, FileBytes, Here, Clear, Pieces, Printed, Image.Valid, Image.File;
    var p := Pieces(l.front, l.table)[k];
    Offsets(l, k);
    Arrived(h, Printed(p));
    AtPrefix(h, Printed(p), 12);
    PrintedParts(p);
    if |p.body| <= CAP / 2 { SuffixBehind(h, Start(p.marker, |p.body|), p.body); }
  }

  lemma DataSlice(l: Image)
    ensures var file, at := l.File(), Place(l.front, l.table, |l.front| + 1);
            at + 16 <= |file| && file[at..at + 16] == DataStart(|l.data|)
    ensures Place(l.front, l.table, |l.front| + 1)
         == Place(l.front, l.table, |l.front|) + |Printed(Piece(PAKT_MARKER, l.table))|
  {
    hide Place, FileBytes, Printed, DataStart;
    PieceInFile(l.d, l.front, l.table, l.data, l.tail, |l.front|);
    DataInFile(l.d, l.front, l.table, l.data, l.tail);
  }

  lemma Offsets(l: Image, k: nat)
    requires l.Valid() && k <= |l.front|
    ensures var file, at, p := l.File(), Place(l.front, l.table, k), Pieces(l.front, l.table)[k];
            && 0 <= p.marker < 0x1_0000_0000 && |p.body| < 0x1_0000_0000 && at <= FRONT_LIMIT
            && at + |Printed(p)| <= |file| && file[at..at + |Printed(p)|] == Printed(p)
            && (|p.body| <= CAP / 2 ==> at + 12 + |p.body| == Place(l.front, l.table, k + 1) <= |file| - 16)
            && (k < |l.front| ==> |p.body| <= CAP / 2 && at + 12 + |p.body| + 16 <= CAP / 4)
  {
    hide Place, FileBytes, Printed, FrontFits, Storable, StringsLead, Packed, Image.Passed, Image.Valid, Image.File;
    PieceSize(l, k);
    PieceEnds(l, k);
  }

  /** Marker and size of a chunk fit their fields. */
  lemma PieceSize(l: Image, k: nat)
    requires l.Valid() && k <= |l.front|
    ensures var at, p := Place(l.front, l.table, k), Pieces(l.front, l.table)[k];
            && 0 <= p.marker < 0x1_0000_0000 && |p.body| < 0x1_0000_0000 && at <= FRONT_LIMIT
            && (k < |l.front| ==> |p.body| <= CAP / 2 && at + 12 + |p.body| + 16 <= CAP / 4)
  {
    hide Place, FrontFits, Storable, StringsLead, Packed, Image.Passed;
    if k < |l.front| { NextPassed(l, k); }
    PlaceInFront(l.front, l.table, k);
  }

  /** Where it lies and where it ends. */
  lemma PieceEnds(l: Image, k: nat)
    requires k <= |l.front|
    ensures var file, at, p := l.File(), Place(l.front, l.table, k), Pieces(l.front, l.table)[k];
            && at + |Printed(p)| <= |file| && file[at..at + |Printed(p)|] == Printed(p)
            && (|p.body| <= CAP / 2 ==> at + 12 + |p.body| == Place(l.front, l.table, k + 1) <= |file| - 16)
  {
    hide Place, FileBytes, Printed;
    PieceInFile(l.d, l.front, l.table, l.data, l.tail, k);
    DataInFile(l.d, l.front, l.table, l.data, l.tail);
  }

  lemma PrintedParts(p: Piece)
    requires |p.body| < 0x1_0000_0000
    ensures Printed(p)[..12] == Start(p.marker, |p.body|)
    ensures |p.body| <= CAP / 2 ==> Printed(p) == Start(p.marker, |p.body|) + p.body
  {
    hide Start;
  }

  /** These bytes are next and end in the first 25 KiB, and the buffer may still grow. */
  ghost predicate Early(h: HeaderBuffer, bytes: seq<Byte>)
    reads h, h.ptr
  {
    Here(h, bytes) && Clear(h.ptr.Length, CAP) && h.indx + |bytes| + 16 <= CAP / 4
  }

  lemma EarlyIs(h: HeaderBuffer, bytes: seq<Byte>)
    ensures Early(h, bytes) <==> Here(h, bytes) && Clear(h.ptr.Length, CAP) && h.indx + |bytes| + 16 <= CAP / 4
  {
  }

  lemma EarlyFacts(h: HeaderBuffer, bytes: seq<Byte>)
    requires Early(h, bytes)
    ensures Here(h, []) && Clear(h.ptr.Length, CAP) && h.indx + |bytes| + 16 <= CAP / 4
    ensures |bytes| <= |h.file| - h.indx
  {
  }

  lemma EarlyGranted(items: seq<Item>, at: nat, n: nat)
    ensures at + n + 16 <= CAP / 4 ==> Granted(items, at, n, CAP)
  {
  }

  /** What is stored of the pairs in a chunk. */
  function StoredOf(pairs: seq<Pair>): seq<(Tag, Text)>
  {
    CafInfo.Known(Scan(Packed(pairs) + [0], 0))
  }

  lemma StoredIs(pairs: seq<Pair>)
    ensures StoredOf(pairs) == CafInfo.Known(Scan(Packed(pairs) + [0], 0))
  {
  }

  /** A chunk that leaves the reader behind it: the strings, a channel map, or one of another name. */
  predicate PassedOver(marker: int, body: seq<Byte>, pairs: seq<Pair>)
  {
    || Plain(marker)
    || (marker == CHAN_MARKER && |body| == 12)
    || (marker == CafInfo.INFO_MARKER && pairs != [] && body == StringsBody(pairs))
  }

  lemma NotZero(marker: int, body: seq<Byte>, pairs: seq<Pair>)
    requires PassedOver(marker, body, pairs)
    ensures marker != 0 && marker != DATA_MARKER && marker != PAKT_MARKER
  {
  }

  /** So are all chunks in front, and only the first holds strings. */
  lemma NextPassed(l: Image, k: nat)
    requires l.Valid() && k < |l.front|
    ensures PassedOver(l.front[k].marker, l.front[k].body, l.pairs) && 0 < l.front[k].marker < 0x1_0000_0000
    ensures l.front[k].marker != DATA_MARKER && l.front[k].marker != PAKT_MARKER
    ensures l.front[k].marker == CafInfo.INFO_MARKER <==> k == 0 && l.pairs != []
  {
    hide FrontFits, Storable, StringsBody, Packed;
    assert l.Passed(k);
    if l.pairs != [] { assert StringsLead(l.pairs)[0] == l.front[0]; }
  }

  lemma StringsFirst(l: Image)
    requires l.Valid()
    ensures l.pairs != [] ==> l.front != []
  {
    hide FrontFits, Storable, StringsBody, Packed;
    if l.pairs != [] { assert |StringsLead(l.pairs)| == 1; }
  }

  lemma MapFields(body: seq<Byte>)
    requires |body| == 12
    ensures Fields(MapItemsRead(body)) == [Order(true), Digit(4), Digit(4), Digit(4)]
  {
    hide FromBig;
  }

  /** The physical position is the logical one, and what lies there is next. */
  lemma Arrived(h: HeaderBuffer, bytes: seq<Byte>)
    ensures Here(h, []) ==> h.pos == h.indx && (Behind(h, 0, bytes) ==> Here(h, bytes))
  {
  }

  /** psf_store_read_chunk_u32: lengths are 32 bits. */
  function Recorded(marker: int, offset: int, size: int): Chunk
  {
    Chunk(if marker < 0 then 0 else marker, if marker < 0 then 0 else marker, offset, size % 0x1_0000_0000)
  }

  /** These bytes lie `n` bytes ahead. */
  ghost predicate Behind(h: HeaderBuffer, n: nat, bytes: seq<Byte>)
    reads h
  {
    h.indx + n + |bytes| <= |h.file| && h.file[h.indx + n..h.indx + n + |bytes|] == bytes
  }

  lemma TableFields(table: seq<Byte>)
    requires |table| >= 24
    ensures Fields(TableItems(table)) == [Order(true), Digit(8), Digit(8), Digit(4), Digit(4)]
    ensures var kept := AllKept(TableItems(table));
            kept[1] == Number(8, Int64(FromBig(table[..8]))) && kept[2] == Number(8, Int64(FromBig(table[8..16])))
    ensures forall k :: 0 <= k < |TableItems(table)| ==> Size(TableItems(table)[k]) <= 8
  {
    hide FromBig;
  }

  method ReadFileStart(h: HeaderBuffer) returns (marker: int)
    requires h.Valid()
    modifies h`ptr, h`indx, h`end, h`pos, h`bigEndian, h.ptr
    ensures h.Valid() && (h.ptr == old(h.ptr) || fresh(h.ptr))
    ensures old(Here(h, FileStart()) && h.indx == 0 && Clear(h.ptr.Length, CAP)) ==>
              marker == CAFF_MARKER && h.indx == 8 && Here(h, []) && Clear(h.ptr.Length, CAP)
  {
    hide Print, OrderAfter, Clear, FileStart, Here;
    PrintFileRead(h.bigEndian);
    FileFields();
    var _, got := Get(h, [Tag, Order(true), Digit(2), Order(true), Digit(2)], FileItemsRead(), CAP);
    marker := HeaderPrint.MarkerAt(got, 0);
  }

  lemma FileFields()
    ensures Fields(FileItemsRead()) == [Tag, Order(true), Digit(2), Order(true), Digit(2)]
    ensures AllKept(FileItemsRead())[0] == Marker(CAFF_MARKER)
  {
    assert Pow256(4) == 0x1_0000_0000 by { assert Pow256(2) == 0x1_0000; }
  }

  method ReadDescStart(h: HeaderBuffer, ghost rate: Rate) returns (marker: int, size: int)
    requires h.Valid()
    modifies h`ptr, h`indx, h`end, h`pos, h`bigEndian, h.ptr
    ensures h.Valid() && (h.ptr == old(h.ptr) || fresh(h.ptr))
    ensures old(Here(h, Start(DESC_MARKER, DESC_SIZE) + rate) && h.indx <= 100 && Clear(h.ptr.Length, CAP)) ==>
              && marker == DESC_MARKER && size == DESC_SIZE && h.indx == old(h.indx) + 20 && Here(h, [])
              && Clear(h.ptr.Length, CAP)
  {
    hide Print, OrderAfter, Clear, Start, Here;
    PrintDescRead(rate, h.bigEndian);
    DescFields(rate);
    var _, got := Get(h, [Tag, Order(true), Digit(8), Block(8)], DescItemsRead(rate), CAP);
    marker, size := HeaderPrint.MarkerAt(got, 0), HeaderPrint.NumberAt(got, 2);
  }

  lemma DescFields(rate: Rate)
    ensures Fields(DescItemsRead(rate)) == [Tag, Order(true), Digit(8), Block(8)]
    ensures var kept := AllKept(DescItemsRead(rate));
            kept[0] == Marker(DESC_MARKER) && kept[2] == Number(8, DESC_SIZE)
  {
    assert Pow256(4) == 0x1_0000_0000 by { assert Pow256(2) == 0x1_0000; }
  }

  method ReadFormat(h: HeaderBuffer, ghost d: Description) returns (formatId: int, framesPerPacket: int, channels: int)
    requires h.Valid()
    modifies h`ptr, h`indx, h`end, h`pos, h`bigEndian, h.ptr
    ensures h.Valid() && (h.ptr == old(h.ptr) || fresh(h.ptr))
    ensures old(Here(h, Print(FormatItems(d), true)) && h.indx <= 100 && Clear(h.ptr.Length, CAP)) && Storable(d) ==>
              && formatId == d.formatId && framesPerPacket == d.framesPerPacket && channels == d.channels
              && h.indx == old(h.indx) + 24 && Here(h, []) && Clear(h.ptr.Length, CAP)
  {
    hide Print, OrderAfter, Clear, Here, FormatItems;
    PrintFormat(d, h.bigEndian);
    PrintFormat(d, true);
    FormatFields(d);
    var _, got := Get(h, [Tag, Order(true), Digit(4), Digit(4), Digit(4), Digit(4), Digit(4)], FormatItems(d), CAP);
    formatId, framesPerPacket := HeaderPrint.MarkerAt(got, 0), HeaderPrint.NumberAt(got, 4);
    channels := HeaderPrint.NumberAt(got, 5);
  }

  lemma FormatFields(d: Description)
    ensures Fields(FormatItems(d)) == [Tag, Order(true), Digit(4), Digit(4), Digit(4), Digit(4), Digit(4)]
    ensures Storable(d) ==> AllKept(FormatItems(d)) == FormatItems(d)
    ensures FormatItems(d)[0] == Marker(d.formatId) && FormatItems(d)[4] == Number(4, d.framesPerPacket)
    ensures FormatItems(d)[5] == Number(4, d.channels)
    ensures forall k :: 0 <= k < |FormatItems(d)| ==> Size(FormatItems(d)[k]) <= 8
  {
    assert Pow256(4) == 0x1_0000_0000 by { assert Pow256(2) == 0x1_0000; }
  }

  /** The three formats lie at the start of the file one after the other. */
  lemma HeadParts(h: HeaderBuffer, d: Description)
    requires Here(h, Head(d)) && h.indx == 0
    ensures Here(h, FileStart()) && |h.file| >= HEAD_SIZE
    ensures h.file[8..28] == Start(DESC_MARKER, DESC_SIZE) + d.rate
    ensures h.file[28..HEAD_SIZE] == Print(FormatItems(d), true) && |Print(FormatItems(d), true)| == 24
  {
    hide Print, FileStart, Start, FormatItems, HeaderBuffer.Cached;
    HeadLength(d);
    PrintFormat(d, true);
    var all := h.file[..HEAD_SIZE];
    assert all == Head(d);
    assert all[..8] == FileStart() && all[8..28] == Start(DESC_MARKER, DESC_SIZE) + d.rate;
    assert all[28..] == Print(FormatItems(d), true);
  }

  lemma EditFields()
    ensures Fields(EditItems()) == [Order(true), Digit(4)]
  {
  }

  /** What is next begins with its first bytes. */
  lemma AtPrefix(h: HeaderBuffer, bytes: seq<Byte>, n: nat)
    requires n <= |bytes|
    ensures Here(h, bytes) ==> Here(h, bytes[..n])
  {
    if Here(h, bytes) { assert h.file[h.indx..h.indx + n] == h.file[h.indx..h.indx + |bytes|][..n]; }
  }

  /** The second part of what is next lies behind the first. */
  lemma SuffixBehind(h: HeaderBuffer, a: seq<Byte>, b: seq<Byte>)
    requires Here(h, a + b)
    ensures Behind(h, |a|, b)
  {
    assert h.file[h.indx + |a|..h.indx + |a| + |b|] == h.file[h.indx..h.indx + |a + b|][|a|..];
  }
}
