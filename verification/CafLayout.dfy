/** The bytes of a CAF header around an ALAC stream: the formats its writer prints and its reader
    asks for, and the buffer room they need. */
module CafLayout {
  import opened Bits
  import opened Chunks
  import opened Endian
  import opened HeaderRoom
  import opened HeaderFormat
  import HeaderPrint
  import opened CafStrings
  import CafInfo

  const CAFF_MARKER := 0x6666_6163
  const DESC_MARKER := 0x6373_6564
  const DATA_MARKER := 0x6174_6164
  const PAKT_MARKER := 0x746B_6170
  const ALAC_MARKER := 0x6361_6C61
  const PEAK_MARKER := 0x6B61_6570
  const CHAN_MARKER := 0x6E61_6863

  /** A sample rate as the eight bytes of a double. */
  type Rate = s: seq<Byte> | |s| == 8 witness [0, 0, 0, 0, 0, 0, 0, 0]

  /** struct DESC_CHUNK */
  datatype Description = Description(rate: Rate, formatId: int, formatFlags: int, packetBytes: int,
                                     framesPerPacket: int, channels: int, bitsPerChannel: int)

  /** The fields hold 32 bits. */
  predicate Storable(d: Description)
  {
    && 0 <= d.formatId < 0x1_0000_0000 && 0 <= d.formatFlags < 0x1_0000_0000
    && 0 <= d.packetBytes < 0x1_0000_0000 && 0 <= d.framesPerPacket < 0x1_0000_0000
    && 0 <= d.channels < 0x1_0000_0000 && 0 <= d.bitsPerChannel < 0x1_0000_0000
  }

  /** A chunk handed to the writer: WRITE_CHUNK. */
  datatype Piece = Piece(marker: int, body: seq<Byte>)

  const DESC_SIZE := 32
  const MAX_CHANNELS := 1024
  /** The bytes in front of the first chunk behind the description. */
  const HEAD_SIZE := 8 + 12 + DESC_SIZE
  /** How long the header may get before the packet table. */
  const FRONT_LIMIT := CAP / 4 - 128

  // ----- Bytes -----

  function FileStart(): (r: seq<Byte>)
    ensures |r| == 8
  {
    LittleEndian(CAFF_MARKER, 4) + BigEndian(1, 2) + BigEndian(0, 2)
  }

  /** Marker and size of a chunk. */
  function Start(marker: int, size: int): (r: seq<Byte>)
    ensures |r| == 12
  {
    LittleEndian(marker, 4) + BigEndian(size, 8)
  }

  /** What the header takes of a chunk: the body of a long one is denied. */
  function Printed(piece: Piece): (r: seq<Byte>)
    ensures |r| == 12 + if |piece.body| <= CAP / 2 then |piece.body| else 0
  {
    Start(piece.marker, |piece.body| % 0x1_0000_0000) + if |piece.body| <= CAP / 2 then piece.body else []
  }

  function Layout(pieces: seq<Piece>): (r: seq<seq<Byte>>)
    ensures |r| == |pieces| && forall k :: 0 <= k < |r| ==> r[k] == Printed(pieces[k])
  {
    seq(|pieces|, k requires 0 <= k < |pieces| => Printed(pieces[k]))
  }

  function DataStart(length: int): (r: seq<Byte>)
    ensures |r| == 16
  {
    Start(DATA_MARKER, length + 4) + BigEndian(0, 4)
  }

  function Head(d: Description): (r: seq<Byte>)
  {
    FileStart() + (Start(DESC_MARKER, DESC_SIZE) + d.rate) + Print(FormatItems(d), true)
  }

  /** The chunks to write, the packet table last. */
  function Pieces(front: seq<Piece>, table: seq<Byte>): (r: seq<Piece>)
    ensures |r| == |front| + 1 && r[|front|] == Piece(PAKT_MARKER, table)
    ensures forall k :: 0 <= k < |front| ==> r[k] == front[k]
  {
    front + [Piece(PAKT_MARKER, table)]
  }

  /** Everything in front of the packets. */
  function HeaderBytes(d: Description, front: seq<Piece>, table: seq<Byte>, length: int): (r: seq<Byte>)
  {
    Head(d) + Flatten(Layout(Pieces(front, table))) + DataStart(length)
  }

  /** Where chunk `k` begins, or what follows the last one. */
  function Place(front: seq<Piece>, table: seq<Byte>, k: nat): nat
    requires k <= |front| + 1
  {
    HEAD_SIZE + |Flatten(Layout(Pieces(front, table))[..k])|
  }

  /** A whole file: the header, the packets, and a byte to make the length even or none. */
  function FileBytes(d: Description, front: seq<Piece>, table: seq<Byte>, data: seq<Byte>, tail: seq<Byte>): seq<Byte>
  {
    HeaderBytes(d, front, table, |data|) + (data + tail)
  }

  lemma WholeFile(d: Description, front: seq<Piece>, table: seq<Byte>, data: seq<Byte>, tail: seq<Byte>)
    ensures FileBytes(d, front, table, data, tail) == HeaderBytes(d, front, table, |data|) + (data + tail)
    ensures HeaderBytes(d, front, table, |data|) != []
  {
    hide Flatten, Head, DataStart;
  }

  /** The string chunk behind its size: the number of pairs and the pairs. */
  function StringsBody(pairs: seq<Pair>): (r: seq<Byte>)
    ensures |r| == 4 + |Packed(pairs)|
  {
    BigEndian(|pairs|, 4) + Packed(pairs)
  }

  /** The channel map behind its size: a layout tag, no bitmap, no descriptions. */
  function MapBody(tag: int): (r: seq<Byte>)
    ensures |r| == 12
  {
    BigEndian(tag, 4) + BigEndian(0, 4) + BigEndian(0, 4)
  }

  function StringsLead(pairs: seq<Pair>): seq<Piece>
  {
    if pairs == [] then [] else [Piece(CafInfo.INFO_MARKER, StringsBody(pairs))]
  }

  function MapLead(tag: int): seq<Piece>
  {
    if tag == 0 then [] else [Piece(CHAN_MARKER, MapBody(tag))]
  }

  /** The chunks in front of the custom ones: strings and channel map, where there are any. */
  function Lead(pairs: seq<Pair>, tag: int): (r: seq<Piece>) { StringsLead(pairs) + MapLead(tag) }

  /** All chunks in front of the table. */
  function Front(pairs: seq<Pair>, tag: int, custom: seq<Piece>): (r: seq<Piece>) { Lead(pairs, tag) + custom }

  /** Markers whose chunks are skipped. */
  predicate Plain(marker: int)
  {
    marker !in {0, PEAK_MARKER, CHAN_MARKER, DATA_MARKER, PAKT_MARKER, CafInfo.INFO_MARKER}
  }

  /** A file as it is written. */
  datatype Image = Image(d: Description, pairs: seq<Pair>, front: seq<Piece>, table: seq<Byte>, data: seq<Byte>,
                         tail: seq<Byte>) {
    function File(): seq<Byte>
    {
      FileBytes(d, front, table, data, tail)
    }

    /** Chunk `k` in front is one the reader passes over: the strings, a channel map, or one whose
        name it does not know. */
    predicate Passed(k: nat)
      requires k < |front|
    {
      var p := front[k];
      && 0 < p.marker < 0x1_0000_0000
      && (Plain(p.marker) || (p.marker == CHAN_MARKER && |p.body| == 12) || (k == 0 && StringsLead(pairs) == [p]))
    }

    /** What the writer takes, and no chunk in front that the reader would not pass over. */
    predicate Valid()
    {
      && Storable(d) && d.channels <= MAX_CHANNELS && FrontFits(front)
      && (forall k :: 0 <= k < |front| ==> Passed(k))
      && StringsLead(pairs) <= front && |Packed(pairs)| < CAPACITY
      && 24 <= |table| < 0x1_0000_0000 && |data| < 0x7FFF_FFFF_FFFF_FFF0 && |tail| <= 1
    }
  }

  /** Each chunk lies in the file where the chunks before it end. */
  lemma PieceInFile(d: Description, front: seq<Piece>, table: seq<Byte>, data: seq<Byte>, tail: seq<Byte>, k: nat)
    requires k <= |front|
    ensures var file, at, bytes := FileBytes(d, front, table, data, tail), Place(front, table, k),
                Printed(Pieces(front, table)[k]);
            && Place(front, table, k + 1) == at + |bytes|
            && at + |bytes| <= Place(front, table, |front| + 1) <= |file| && file[at..at + |bytes|] == bytes
  {
    hide Flatten, Printed, DataStart, Head, Print;
    var parts := Layout(Pieces(front, table));
    assert parts[..|front| + 1] == parts;
    HeadLength(d);
    FlattenOneMore(parts, k);
    FlattenPrefix(parts, k);
    FlattenGrows(parts, k + 1, |front| + 1);
    Inside(Head(d), Flatten(parts), DataStart(|data|), data + tail,
           |Flatten(parts[..k])|, Printed(Pieces(front, table)[k]));
  }

  lemma Inside(a: seq<Byte>, b: seq<Byte>, c: seq<Byte>, rest: seq<Byte>, i: nat, part: seq<Byte>)
    requires i + |part| <= |b| && b[i..i + |part|] == part
    ensures var all := a + b + c + rest;
            |a| + i + |part| <= |all| && all[|a| + i..|a| + i + |part|] == part
  {
    var all := a + b + c + rest;
    forall j | 0 <= j < |part| ensures all[|a| + i + j] == part[j] { assert b[i..i + |part|][j] == b[i + j]; }
  }

  lemma HeadLength(d: Description)
    ensures |Head(d)| == HEAD_SIZE
  {
    hide Print;
    PrintFormat(d, true);
  }

  /** The chunks in front, and the start of the table, lie in the first 25 KiB. */
  lemma PlaceInFront(front: seq<Piece>, table: seq<Byte>, k: nat)
    requires FrontFits(front) && k <= |front|
    ensures var at, body := Place(front, table, k), Pieces(front, table)[k].body;
            && at <= FRONT_LIMIT
            && (k < |front| ==> |body| <= CAP / 2 && at + 12 + |body| <= FRONT_LIMIT)
            && (k < |front| ==> at + 12 + |body| <= Place(front, table, |front|))
            && Place(front, table, |front|) == HEAD_SIZE + |Flatten(Layout(front))|
  {
    hide Flatten;
    var parts := Layout(Pieces(front, table));
    assert parts[..|front|] == Layout(front);
    FlattenGrows(parts, k, |front|);
    if k < |front| {
      FlattenOneMore(parts, k);
      FlattenGrows(parts, k + 1, |front|);
    }
  }

  /** And the data section behind the last one. */
  lemma DataInFile(d: Description, front: seq<Piece>, table: seq<Byte>, data: seq<Byte>, tail: seq<Byte>)
    ensures var file, at := FileBytes(d, front, table, data, tail), Place(front, table, |front| + 1);
            && |HeaderBytes(d, front, table, |data|)| == at + 16 && |file| == at + 16 + |data| + |tail|
            && file[at..at + 16] == DataStart(|data|) && file[..HEAD_SIZE] == Head(d)
            && file[at + 16..at + 16 + |data|] == data
  {
    hide Flatten, Printed, DataStart, Head, Print;
    var parts := Layout(Pieces(front, table));
    assert parts[..|front| + 1] == parts;
    HeadLength(d);
    Ends(Head(d), Flatten(parts), DataStart(|data|), data, tail);
  }

  lemma Ends(a: seq<Byte>, b: seq<Byte>, c: seq<Byte>, data: seq<Byte>, tail: seq<Byte>)
    ensures var all := a + b + c + (data + tail);
            var at := |a| + |b|;
            && all[at..at + |c|] == c && all[..|a|] == a && all[at + |c|..at + |c| + |data|] == data
  {
  }

  /** The chunks in front of the table are short, alone and together. */
  predicate FrontFits(front: seq<Piece>)
  {
    && (forall k :: 0 <= k < |front| ==> |front[k].body| <= CAP / 2)
    && HEAD_SIZE + |Flatten(Layout(front))| <= FRONT_LIMIT
  }

  /** Where the header ends, as far as the room for it is concerned: past every buffer, if its
      table is to be denied. */
  function End(front: seq<Piece>, table: seq<Byte>): nat
  {
    if |table| <= CAP / 2 then HEAD_SIZE + |Flatten(Layout(front))| + 12 + |table| + 16 else CAP
  }

  // ----- Formats of the writer -----

  function FileItems(): seq<Item> { [Switch(true), Marker(CAFF_MARKER), Number(2, 1), Number(2, 0)] }

  function DescItems(): seq<Item> { [Switch(true), Marker(DESC_MARKER), Number(8, DESC_SIZE)] }

  /** The format of the description, for writer and reader alike. */
  function FormatItems(d: Description): (r: seq<Item>)
    ensures |r| == 7
  {
    [Marker(d.formatId), Switch(true), Number(4, d.formatFlags), Number(4, d.packetBytes), Number(4, d.framesPerPacket),
     Number(4, d.channels), Number(4, d.bitsPerChannel)]
  }

  function PieceItems(p: Piece): (r: seq<Item>)
    ensures |r| == 4
  {
    [Marker(p.marker), Number(4, 0), Number(4, |p.body|), Raw(p.body)]
  }

  function MapItems(tag: int): (r: seq<Item>)
    ensures |r| == 6
  {
    [Switch(true), Marker(CHAN_MARKER), Number(8, 12), Number(4, tag), Number(4, 0), Number(4, 0)]
  }

  function DataItems(length: int): seq<Item>
  {
    [Switch(true), Marker(DATA_MARKER), Number(8, length + 4), Number(4, 0)]
  }

  // ----- Formats of the reader -----

  function FileItemsRead(): seq<Item>
  {
    [Marker(CAFF_MARKER), Switch(true), Number(2, 1), Switch(true), Number(2, 0)]
  }

  function DescItemsRead(rate: Rate): seq<Item>
  {
    [Marker(DESC_MARKER), Switch(true), Number(8, DESC_SIZE), Raw(rate)]
  }

  function StartItems(marker: int, size: int): seq<Item> { [Marker(marker), Switch(true), Number(8, size)] }

  /** The three numbers of a channel map. */
  function MapItemsRead(body: seq<Byte>): (r: seq<Item>)
    requires |body| == 12
    ensures |r| == 4
  {
    [Switch(true), Number(4, FromBig(body[..4])), Number(4, FromBig(body[4..8])), Number(4, FromBig(body[8..]))]
  }

  function EditItems(): seq<Item> { [Switch(true), Number(4, 0)] }

  function FieldItems(packets: int, frames: int, priming: int, remainder: int): (r: seq<Item>)
    ensures |r| == 5
  {
    [Switch(true), Number(8, packets), Number(8, frames), Number(4, priming), Number(4, remainder)]
  }

  /** The four fields in front of a packet table. */
  function TableItems(table: seq<Byte>): (r: seq<Item>)
    requires |table| >= 24
    ensures |r| == 5
  {
    FieldItems(FromBig(table[..8]), FromBig(table[8..16]), FromBig(table[16..20]), FromBig(table[20..24]))
  }

  // ----- What they print -----

  lemma PrintFile(big: bool)
    ensures Print(FileItems(), big) == FileStart() && OrderAfter(FileItems(), big)
  {
    hide Print, OrderAfter, BigEndian, LittleEndian;
    assert FileItems()[..4] == FileItems();
    HeaderPrint.PrintFour(FileItems(), big);
    EmptyFirst([], LittleEndian(CAFF_MARKER, 4));
  }

  lemma PrintFileRead(big: bool)
    ensures Print(FileItemsRead(), big) == FileStart() && OrderAfter(FileItemsRead(), big)
  {
    hide Print, OrderAfter, BigEndian, LittleEndian;
    var items := FileItemsRead();
    assert items[..5] == items;
    HeaderPrint.PrintFour(items, big);
    EmptyLast(LittleEndian(CAFF_MARKER, 4), []);
    EmptyLast(LittleEndian(CAFF_MARKER, 4) + BigEndian(1, 2), []);
    OneMoreItem(items, 0, 0, big, true, 4);
  }

  lemma PrintDesc(big: bool)
    ensures Print(DescItems(), big) == Start(DESC_MARKER, DESC_SIZE) && OrderAfter(DescItems(), big)
  {
    hide Print, OrderAfter, BigEndian, LittleEndian;
    assert DescItems()[..3] == DescItems();
    HeaderPrint.PrintThree(DescItems(), big);
    EmptyFirst([], LittleEndian(DESC_MARKER, 4));
  }

  lemma PrintRaw(data: seq<Byte>, big: bool)
    ensures Print([Raw(data)], big) == data && OrderAfter([Raw(data)], big) == big
  {
    hide RoomAfter, Print, OrderAfter;
    var items := [Raw(data)];
    HeaderPrint.PrintNothing(items, 0, 0, big);
    OneMoreItem(items, 0, 0, big, true, 0);
    assert items[..1] == items;
    EmptyFirst([], data);
  }

  lemma PrintDescRead(rate: Rate, big: bool)
    ensures Print(DescItemsRead(rate), big) == Start(DESC_MARKER, DESC_SIZE) + rate
    ensures OrderAfter(DescItemsRead(rate), big)
  {
    hide Print, OrderAfter, BigEndian, LittleEndian;
    assert DescItemsRead(rate)[..4] == DescItemsRead(rate);
    HeaderPrint.PrintFour(DescItemsRead(rate), big);
    EmptyLast(LittleEndian(DESC_MARKER, 4), []);
  }

  lemma PrintStart(marker: int, size: int, big: bool)
    ensures Print(StartItems(marker, size), big) == Start(marker, size) && OrderAfter(StartItems(marker, size), big)
  {
    hide Print, OrderAfter, BigEndian, LittleEndian;
    assert StartItems(marker, size)[..3] == StartItems(marker, size);
    HeaderPrint.PrintThree(StartItems(marker, size), big);
    EmptyLast(LittleEndian(marker, 4), []);
  }

  /** The writer's format for strings prints them as a chunk. */
  lemma PrintStrings(pairs: seq<Pair>, big: bool)
    requires |Packed(pairs)| < CAPACITY
    ensures Print(CafInfo.InfoItems(pairs), big) == Printed(Piece(CafInfo.INFO_MARKER, StringsBody(pairs)))
    ensures OrderAfter(CafInfo.InfoItems(pairs), big)
  {
    hide Print, OrderAfter, BigEndian, LittleEndian, Packed, CafInfo.InfoItems;
    CafInfo.PrintInfo(pairs, big);
    ConcatAssoc(Start(CafInfo.INFO_MARKER, |Packed(pairs)| + 4), BigEndian(|pairs|, 4), Packed(pairs));
  }

  /** And for a channel map. */
  lemma PrintMap(tag: int, big: bool)
    ensures Print(MapItems(tag), big) == Printed(Piece(CHAN_MARKER, MapBody(tag))) && OrderAfter(MapItems(tag), big)
  {
    hide Print, OrderAfter, RoomAfter, Room, BigEndian, LittleEndian;
    var items := MapItems(tag);
    assert items[..6] == items;
    HeaderPrint.PrintFour(items, big);
    EmptyFirst([], LittleEndian(CHAN_MARKER, 4));
    OneMoreItem(items, 0, 0, big, true, 4);
    OneMoreItem(items, 0, 0, big, true, 5);
    ThreeBehind(Start(CHAN_MARKER, 12), BigEndian(tag, 4), BigEndian(0, 4), BigEndian(0, 4));
  }

  lemma ThreeBehind<T>(a: seq<T>, b: seq<T>, c: seq<T>, d: seq<T>)
    ensures a + b + c + d == a + (b + c + d)
  {
    ConcatAssoc(a, b, c);
    ConcatAssoc(a, b + c, d);
  }

  lemma PrintMapRead(body: seq<Byte>, big: bool)
    requires |body| == 12
    ensures Print(MapItemsRead(body), big) == body && OrderAfter(MapItemsRead(body), big)
  {
    hide BigEndian, FromBig;
    FromBigBack(body[..4]);
    FromBigBack(body[4..8]);
    FromBigBack(body[8..]);
    PrintNumbers(FromBig(body[..4]), FromBig(body[4..8]), FromBig(body[8..]), big);
    assert body == body[..4] + body[4..8] + body[8..];
  }

  lemma PrintNumbers(x: int, y: int, z: int, big: bool)
    ensures Print([Switch(true), Number(4, x), Number(4, y), Number(4, z)], big)
         == BigEndian(x, 4) + BigEndian(y, 4) + BigEndian(z, 4)
    ensures OrderAfter([Switch(true), Number(4, x), Number(4, y), Number(4, z)], big)
  {
    hide Print, OrderAfter, BigEndian;
    var items := [Switch(true), Number(4, x), Number(4, y), Number(4, z)];
    assert items[..4] == items;
    HeaderPrint.PrintFour(items, big);
    EmptyFirst([], BigEndian(x, 4));
  }

  lemma PrintEdit(big: bool)
    ensures Print(EditItems(), big) == BigEndian(0, 4) && OrderAfter(EditItems(), big)
  {
    hide RoomAfter, Print, OrderAfter, BigEndian;
    var items := EditItems();
    HeaderPrint.PrintNothing(items, 0, 0, big);
    OneMoreItem(items, 0, 0, big, true, 0);
    OneMoreItem(items, 0, 0, big, true, 1);
    assert items[..2] == items;
    EmptyFirst([], BigEndian(0, 4));
    EmptyFirst<Byte>([], []);
  }

  lemma PrintData(length: int, big: bool)
    ensures Print(DataItems(length), big) == DataStart(length) && OrderAfter(DataItems(length), big)
  {
    hide Print, OrderAfter, BigEndian, LittleEndian;
    assert DataItems(length)[..4] == DataItems(length);
    HeaderPrint.PrintFour(DataItems(length), big);
    EmptyFirst([], LittleEndian(DATA_MARKER, 4));
  }

  lemma PrintFields(packets: int, frames: int, priming: int, remainder: int, big: bool)
    ensures Print(FieldItems(packets, frames, priming, remainder), big)
         == BigEndian(packets, 8) + BigEndian(frames, 8) + BigEndian(priming, 4) + BigEndian(remainder, 4)
    ensures OrderAfter(FieldItems(packets, frames, priming, remainder), big)
  {
    hide Print, OrderAfter, BigEndian;
    var items := FieldItems(packets, frames, priming, remainder);
    assert items[..5] == items;
    HeaderPrint.PrintFour(items, big);
    EmptyFirst([], BigEndian(packets, 8));
    OneMoreItem(items, 0, 0, big, true, 4);
  }

  lemma PrintTable(table: seq<Byte>, big: bool)
    requires |table| >= 24
    ensures Print(TableItems(table), big) == table[..24] && OrderAfter(TableItems(table), big)
  {
    hide Print, OrderAfter, BigEndian, FromBig, FieldItems;
    PrintFields(FromBig(table[..8]), FromBig(table[8..16]), FromBig(table[16..20]), FromBig(table[20..24]), big);
    FromBigBack(table[..8]);
    FromBigBack(table[8..16]);
    FromBigBack(table[16..20]);
    FromBigBack(table[20..24]);
    assert table[..24] == table[..8] + table[8..16] + table[16..20] + table[20..24];
  }

  lemma PrintFormat(d: Description, big: bool)
    ensures Print(FormatItems(d), big) == Print(FormatItems(d), true) && |Print(FormatItems(d), big)| == 24
    ensures OrderAfter(FormatItems(d), big)
  {
    hide Print, OrderAfter, BigEndian, LittleEndian;
    PrintFormatSteps(d, big);
    PrintFormatSteps(d, true);
  }

  lemma PrintFormatSteps(d: Description, big: bool)
    ensures OrderAfter(FormatItems(d), big) && |Print(FormatItems(d), big)| == 24
    ensures Print(FormatItems(d), big)
         == LittleEndian(d.formatId, 4) + [] + BigEndian(d.formatFlags, 4) + BigEndian(d.packetBytes, 4)
            + BigEndian(d.framesPerPacket, 4) + BigEndian(d.channels, 4) + BigEndian(d.bitsPerChannel, 4)
  {
    hide Print, OrderAfter, RoomAfter, Room, BigEndian, LittleEndian;
    var items := FormatItems(d);
    assert items[..7] == items;
    HeaderPrint.PrintFour(items, big);
    OneMoreItem(items, 0, 0, big, true, 4);
    OneMoreItem(items, 0, 0, big, true, 5);
    OneMoreItem(items, 0, 0, big, true, 6);
  }

  /** The writer's two 32-bit numbers are the reader's 64-bit size. */
  lemma PrintPiece(p: Piece)
    ensures Print(PieceItems(p)[..3], true) == Start(p.marker, |p.body| % 0x1_0000_0000)
    ensures Print(PieceItems(p), true) == Start(p.marker, |p.body| % 0x1_0000_0000) + p.body
    ensures OrderAfter(PieceItems(p)[..3], true) && OrderAfter(PieceItems(p), true)
  {
    hide Print, OrderAfter, BigEndian, LittleEndian;
    var items := PieceItems(p);
    assert items[..4] == items;
    HeaderPrint.PrintFour(items, true);
    HeaderPrint.PrintThree(items, true);
    WideSize(|p.body|);
    ConcatAssoc(LittleEndian(p.marker, 4), BigEndian(0, 4), BigEndian(|p.body|, 4));
  }

  lemma WideSize(n: nat)
    ensures BigEndian(0, 4) + BigEndian(n, 4) == BigEndian(n % 0x1_0000_0000, 8)
  {
    hide BigEndian;
    var low := n % 0x1_0000_0000;
    assert Pow256(2) == 0x1_0000;
    assert Pow256(4) == 0x1_0000_0000;
    LowBytes(n, 4);
    BigEndianJoin(0, low, 4);
  }

  lemma {:induction false} LowBytes(n: nat, count: nat)
    ensures BigEndian(n % Pow256(count), count) == BigEndian(n, count)
    decreases count
  {
    if count > 0 {
      var p := Pow256(count - 1);
      Mod256(n, p);
      var h, l := n / 256 % p, n % 256;
      assert (256 * h + l) / 256 == h && (256 * h + l) % 256 == l;
      LowBytes(n / 256, count - 1);
    }
  }

  // ----- Room -----

  /** A format in the first 25 KiB is granted its room, and the buffer stays clear. */
  lemma FrontRoom(items: seq<Item>, at: nat, len: nat, big: bool, writing: bool, end: nat)
    requires at + |Print(items, big)| + 16 <= CAP / 4 && Clear(len, end) && at + |Print(items, big)| <= end
    ensures var room := RoomAfter(items, at, len, big, writing);
            room.Some? && Clear(room.value, end) && len <= room.value
            && (at <= len ==> at + |Print(items, big)| <= room.value)
  {
    hide RoomAfter, Print;
    if len <= CAP / 2 {
      ShortFormatsFit(items, at, len, big, writing, CAP / 2);
    } else {
      NoGrowth(items, at, len, big, writing);
    }
  }

  /** The table is granted its room behind a short front if and only if it is no longer than half
      the cap; either way the buffer is as clear as before. */
  lemma TableRoom(table: seq<Byte>, at: nat, len: nat, end: nat)
    requires at <= FRONT_LIMIT + 12 && at <= len && Clear(len, end)
    requires end == if |table| <= CAP / 2 then at + |table| + 16 else CAP
    ensures var room := WriteRoom(Raw(table), at, len);
            && (room.Some? <==> |table| <= CAP / 2)
            && (room.Some? ==> Clear(room.value, end) && at + |table| <= room.value)
            && (room.None? ==> Clear(HeaderPrint.RoomLeft(at, len), end))
  {
  }

  /** Formats of small letters anywhere in a clear buffer, others in the first 25 KiB. */
  predicate Granted(items: seq<Item>, at: nat, n: nat, end: nat)
  {
    at + n <= end && (at + n + 16 <= CAP / 4
                      || (end <= at + 100 && forall k :: 0 <= k < |items| ==> Size(items[k]) <= 8))
  }

  lemma SmallRoom(items: seq<Item>, at: nat, len: nat, big: bool, writing: bool, end: nat)
    requires at <= len && Clear(len, end) && Granted(items, at, |Print(items, big)|, end)
    ensures var room := RoomAfter(items, at, len, big, writing);
            room.Some? && at + |Print(items, big)| <= room.value && len <= room.value && Clear(room.value, end)
  {
    hide RoomAfter, Print, Clear, Size;
    if at + |Print(items, big)| + 16 <= CAP / 4 {
      FrontRoom(items, at, len, big, writing, end);
    } else {
      SmallFormatsFit(items, at, len, big, writing, end);
    }
  }

  /** Skipping over a short chunk, or over a table that the writer was granted. */
  lemma SkipRoom(at: nat, len: nat, n: nat, end: nat)
    requires at <= len && INITIAL_HEADER_SIZE <= len <= CAP / 2
    requires at + n + 16 <= CAP / 4 || (at <= FRONT_LIMIT + 36 && n <= CAP / 2 - 24 && end == at + n + 16)
    ensures var l := LenAfter(len, at + n, n); at + n <= l && len <= l && Clear(l, end)
    ensures at < LenAfter(len, at + n, n)
  {
  }

  /** The first 52 bytes of a file of two channels at 44100 Hz. */
  lemma {:induction false} HeadWritten()
    ensures Head(Description([0x40, 0xE5, 0x88, 0x80, 0, 0, 0, 0], ALAC_MARKER, 3, 0, 4096, 2, 0))
         == [99, 97, 102, 102] + [0, 1] + [0, 0] + [100, 101, 115, 99] + [0, 0, 0, 0, 0, 0, 0, 32]
            + [0x40, 0xE5, 0x88, 0x80, 0, 0, 0, 0] + [97, 108, 97, 99] + [0, 0, 0, 3] + [0, 0, 0, 0] + [0, 0, 16, 0]
            + [0, 0, 0, 2] + [0, 0, 0, 0]
  {
    hide Print, BigEndian, LittleEndian;
    PrintFormatSteps(Description([0x40, 0xE5, 0x88, 0x80, 0, 0, 0, 0], ALAC_MARKER, 3, 0, 4096, 2, 0), true);
    HeadMarkers();
    HeadNumbers();
  }

  lemma HeadMarkers()
    ensures LittleEndian(CAFF_MARKER, 4) == [99, 97, 102, 102] && LittleEndian(DESC_MARKER, 4) == [100, 101, 115, 99]
    ensures LittleEndian(ALAC_MARKER, 4) == [97, 108, 97, 99]
  {
    hide LittleEndian;
    LittleFour(CAFF_MARKER);
    LittleFour(DESC_MARKER);
    LittleFour(ALAC_MARKER);
  }

  /** The other markers. */
  lemma ChunkMarkers()
    ensures LittleEndian(PAKT_MARKER, 4) == [112, 97, 107, 116] && LittleEndian(DATA_MARKER, 4) == [100, 97, 116, 97]
    ensures LittleEndian(CHAN_MARKER, 4) == [99, 104, 97, 110]
  {
    hide LittleEndian;
    LittleFour(PAKT_MARKER);
    LittleFour(DATA_MARKER);
    LittleFour(CHAN_MARKER);
  }

  lemma HeadNumbers()
    ensures BigEndian(1, 2) == [0, 1] && BigEndian(0, 2) == [0, 0] && BigEndian(32, 8) == [0, 0, 0, 0, 0, 0, 0, 32]
    ensures BigEndian(3, 4) == [0, 0, 0, 3] && BigEndian(0, 4) == [0, 0, 0, 0] && BigEndian(2, 4) == [0, 0, 0, 2]
    ensures BigEndian(4096, 4) == [0, 0, 16, 0]
  {
  }
}
