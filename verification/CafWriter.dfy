/** caf_write_header, as far as an ALAC file takes it. */
module CafWriter {
  import opened Bits
  import opened Chunks
  import opened Endian
  import opened Wrappers
  import opened HeaderRoom
  import opened HeaderFormat
  import opened Header
  import opened HeaderPrint
  import opened CafLayout
  import opened CafStrings
  import CafInfo

  // ----- Writing -----

  /** One call of binheader_writef that is granted its room. */
  method Put(h: HeaderBuffer, items: seq<Item>)
    requires h.Valid() && RoomAfter(items, h.indx, h.ptr.Length, h.bigEndian, true).Some?
    modifies h`ptr, h`indx, h`bigEndian, h.ptr
    ensures h.Valid() && (h.ptr == old(h.ptr) || fresh(h.ptr))
    ensures Written(h) == old(Written(h)) + Print(items, old(h.bigEndian))
    ensures h.indx == old(h.indx) + |Print(items, old(h.bigEndian))|
    ensures h.bigEndian == OrderAfter(items, old(h.bigEndian))
    ensures Some(h.ptr.Length) == RoomAfter(items, old(h.indx), old(h.ptr.Length), old(h.bigEndian), true)
  {
    hide Print, OrderAfter, RoomAfter, RoomLeft;
    var count, done := Writef(h, items);
    assert items[..done] == items;
  }

  /** SF_STR_LOCATE_START */
  const LOCATE_START := 0x0400

  /** The start of the file and the description chunk. */
  method WriteHead(h: HeaderBuffer, d: Description, ghost end: nat)
    requires h.Valid() && h.indx == 0 && Clear(h.ptr.Length, end) && HEAD_SIZE <= end
    modifies h`ptr, h`indx, h`bigEndian, h.ptr
    ensures h.Valid() && (h.ptr == old(h.ptr) || fresh(h.ptr))
    ensures Written(h) == Head(d) && h.indx == HEAD_SIZE && h.bigEndian && Clear(h.ptr.Length, end)
  {
    hide Print, OrderAfter, RoomAfter, Clear;
    PrintFile(h.bigEndian);
    FrontRoom(FileItems(), h.indx, h.ptr.Length, h.bigEndian, true, end);
    EmptyFirst(Written(h), FileStart());
    Put(h, FileItems());
    PrintDesc(h.bigEndian);
    FrontRoom(DescItems(), h.indx, h.ptr.Length, h.bigEndian, true, end);
    Put(h, DescItems());
    PrintRaw(d.rate, h.bigEndian);
    FrontRoom([Raw(d.rate)], h.indx, h.ptr.Length, h.bigEndian, true, end);
    Put(h, [Raw(d.rate)]);
    ConcatAssoc(FileStart(), Start(DESC_MARKER, DESC_SIZE), d.rate);
    PrintFormat(d, h.bigEndian);
    FrontRoom(FormatItems(d), h.indx, h.ptr.Length, h.bigEndian, true, end);
    Put(h, FormatItems(d));
  }

  /** One turn of the loop over the chunks to write. */
  method WritePiece(h: HeaderBuffer, p: Piece, ghost end: nat)
    requires h.Valid() && h.bigEndian && h.indx <= FRONT_LIMIT && Clear(h.ptr.Length, end) && h.indx + 12 <= end
    requires (|p.body| <= CAP / 2 && h.indx + 12 + |p.body| <= FRONT_LIMIT && h.indx + 12 + |p.body| <= end)
             || end == (if |p.body| <= CAP / 2 then h.indx + 12 + |p.body| + 16 else CAP)
    modifies h`ptr, h`indx, h`bigEndian, h.ptr
    ensures h.Valid() && (h.ptr == old(h.ptr) || fresh(h.ptr)) && h.bigEndian
    ensures Written(h) == old(Written(h)) + Printed(p) && h.indx == old(h.indx) + |Printed(p)|
    ensures Clear(h.ptr.Length, end)
  {
    hide Print, OrderAfter, RoomAfter, Clear, RoomLeft, WriteRoom, Start;
    var items := PieceItems(p);
    ghost var at, len := h.indx, h.ptr.Length;
    PrintPiece(p);
    FrontRoom(items[..3], at, len, true, true, end);
    OneMoreItem(items, at, len, true, true, 3);
    assert items[..4] == items;
    if |p.body| <= CAP / 2 && at + 12 + |p.body| <= FRONT_LIMIT && at + 12 + |p.body| <= end {
      FrontRoom(items, at, len, true, true, end);
    } else {
      TableRoom(p.body, at + 12, RoomAfter(items[..3], at, len, true, true).value, end);
    }
    var count, done := Writef(h, items);
    if done < 3 {
      assert items[..3][..done + 1] == items[..done + 1];
      DeniedForGood(items[..3], at, len, true, true, done + 1);
    }
    EmptyLast(Start(p.marker, |p.body| % 0x1_0000_0000), []);
  }

  /** The chunks in front of the custom ones: a channel map has a tag that is not 0. */
  method WriteLead(h: HeaderBuffer, entries: seq<CafInfo.Entry>, tag: int, ghost pairs: seq<Pair>, ghost end: nat)
    requires h.Valid() && h.bigEndian && Clear(h.ptr.Length, end)
    requires pairs == Fitting(CafInfo.Tagged(entries, LOCATE_START, |entries|))
    requires h.indx + |Flatten(Layout(Lead(pairs, tag)))| <= FRONT_LIMIT
    requires h.indx + |Flatten(Layout(Lead(pairs, tag)))| <= end
    modifies h`ptr, h`indx, h`bigEndian, h.ptr
    ensures h.Valid() && (h.ptr == old(h.ptr) || fresh(h.ptr)) && h.bigEndian && Clear(h.ptr.Length, end)
    ensures var bytes := Flatten(Layout(Lead(pairs, tag)));
            Written(h) == old(Written(h)) + bytes && h.indx == old(h.indx) + |bytes|
  {
    hide Clear, Flatten, Print, RoomAfter, OrderAfter, Printed, Fitting, CafInfo.Tagged, Packed, CafInfo.InfoItems;
    ghost var before := Written(h);
    LeadBytes(pairs, tag);
    PrintStrings(pairs, h.bigEndian);
    var items := CafInfo.WriteStrings(entries, LOCATE_START);
    EmptyLast(before, []);
    if pairs != [] { FrontRoom(items, h.indx, h.ptr.Length, h.bigEndian, true, end); }
    NothingToPrint(h.indx, h.ptr.Length, h.bigEndian);
    Put(h, items);
    ghost var strings := Written(h);
    EmptyLast(strings, []);
    if tag != 0 {
      PrintMap(tag, h.bigEndian);
      FrontRoom(MapItems(tag), h.indx, h.ptr.Length, h.bigEndian, true, end);
      Put(h, MapItems(tag));
      ConcatAssoc(before, strings[|before|..], Printed(Piece(CHAN_MARKER, MapBody(tag))));
    }
  }

  /** The custom chunks, the packet table last. `base` is what lies in front of all chunks, `lead`
      are those printed already. */
  method WritePieces(h: HeaderBuffer, custom: seq<Piece>, table: seq<Byte>, ghost base: seq<Byte>,
                     ghost lead: seq<Piece>, ghost end: nat)
    requires h.Valid() && h.bigEndian && |base| == HEAD_SIZE && FrontFits(lead + custom)
    requires end == End(lead + custom, table) && Clear(h.ptr.Length, end)
    requires Written(h) == base + Flatten(Layout(lead))
    modifies h`ptr, h`indx, h`bigEndian, h.ptr
    ensures h.Valid() && (h.ptr == old(h.ptr) || fresh(h.ptr)) && h.bigEndian && Clear(h.ptr.Length, end)
    ensures Written(h) == base + Flatten(Layout(Pieces(lead + custom, table)))
  {
    hide Clear, Flatten, Printed, FrontFits;
    var pieces := Pieces(custom, table);
    ghost var parts := Layout(Pieces(lead + custom, table));
    assert parts[..|lead|] == Layout(lead);
    var uk := 0;
    while uk < |pieces|
      invariant uk <= |pieces| && h.Valid() && (h.ptr == old(h.ptr) || fresh(h.ptr)) && h.bigEndian
      invariant Clear(h.ptr.Length, end)
      invariant Written(h) == base + Flatten(parts[..|lead| + uk])
    {
      FlattenOneMore(parts, |lead| + uk);
      ConcatAssoc(base, Flatten(parts[..|lead| + uk]), parts[|lead| + uk]);
      PieceFits(lead + custom, table, |lead| + uk);
      WritePiece(h, pieces[uk], end);
      uk := uk + 1;
    }
    assert parts[..|lead| + uk] == parts;
  }

  lemma PieceFits(front: seq<Piece>, table: seq<Byte>, k: nat)
    requires FrontFits(front) && k <= |front|
    ensures var at, end, body := Place(front, table, k), End(front, table), Pieces(front, table)[k].body;
            && at <= FRONT_LIMIT && at + 12 <= end
            && ((|body| <= CAP / 2 && at + 12 + |body| <= FRONT_LIMIT && at + 12 + |body| <= end)
                || end == (if |body| <= CAP / 2 then at + 12 + |body| + 16 else CAP))
  {
    hide Flatten, Place;
    PlaceInFront(front, table, k);
  }

  /** The pairs of strings that go in front. */
  function FrontPairs(entries: seq<CafInfo.Entry>): seq<Pair>
  {
    Fitting(CafInfo.Tagged(entries, LOCATE_START, |entries|))
  }

  /** All chunks in front of the table. */
  function FrontOf(entries: seq<CafInfo.Entry>, tag: int, custom: seq<Piece>): seq<Piece>
  {
    Front(FrontPairs(entries), tag, custom)
  }

  /** caf_write_header */
  method WriteHeader(h: HeaderBuffer, d: Description, entries: seq<CafInfo.Entry>, tag: int, custom: seq<Piece>,
                     table: seq<Byte>, length: nat)
    requires h.Valid() && FrontFits(FrontOf(entries, tag, custom))
    requires Clear(h.ptr.Length, End(FrontOf(entries, tag, custom), table))
    modifies h`ptr, h`indx, h`bigEndian, h.ptr
    ensures h.Valid() && (h.ptr == old(h.ptr) || fresh(h.ptr))
    ensures Clear(h.ptr.Length, End(FrontOf(entries, tag, custom), table))
    ensures Written(h) == HeaderBytes(d, FrontOf(entries, tag, custom), table, length)
  {
    hide Clear, Flatten, Print, RoomAfter, OrderAfter, FrontFits, Fitting, CafInfo.Tagged, Lead, Head;
    ghost var pairs, front := FrontPairs(entries), FrontOf(entries, tag, custom);
    ghost var end := End(front, table);
    h.ptr[0] := 0;
    h.indx := 0;
    HeaderLength(front, table);
    LeadLength(Lead(pairs, tag), custom, table);
    WriteHead(h, d, end);
    WriteLead(h, entries, tag, pairs, end);
    WritePieces(h, custom, table, Head(d), Lead(pairs, tag), end);
    PrintData(length, h.bigEndian);
    if |table| <= CAP / 2 {
      SmallFormatsFit(DataItems(length), h.indx, h.ptr.Length, h.bigEndian, true, end);
    } else {
      FrontRoom(DataItems(length), h.indx, h.ptr.Length, h.bigEndian, true, end);
    }
    Put(h, DataItems(length));
  }

  /** The chunks that lead are part of the front. */
  lemma LeadLength(lead: seq<Piece>, custom: seq<Piece>, table: seq<Byte>)
    requires FrontFits(lead + custom)
    ensures HEAD_SIZE + |Flatten(Layout(lead))| <= FRONT_LIMIT
    ensures HEAD_SIZE + |Flatten(Layout(lead))| <= End(lead + custom, table)
  {
    hide Flatten;
    var parts := Layout(lead + custom);
    assert parts[..|lead|] == Layout(lead) && parts[..|parts|] == parts;
    FlattenGrows(parts, |lead|, |parts|);
  }

  /** Where the start of the data section is printed. */
  lemma HeaderLength(front: seq<Piece>, table: seq<Byte>)
    requires FrontFits(front)
    ensures HEAD_SIZE <= End(front, table)
    ensures var n := HEAD_SIZE + |Flatten(Layout(Pieces(front, table)))|;
            if |table| <= CAP / 2 then n + 16 == End(front, table) else n + 32 <= CAP / 4 && n + 16 <= End(front, table)
  {
    hide Flatten;
    var parts := Layout(Pieces(front, table));
    FlattenOneMore(parts, |front|);
    assert parts[..|front|] == Layout(front) && parts[..|front| + 1] == parts;
  }

  /** What alac_close and caf_close leave in the file: the header, the packets behind it, a byte to
      make the length even, and the header once more, now with the length of the packets. */
  method WriteFile(h: HeaderBuffer, d: Description, entries: seq<CafInfo.Entry>, tag: int, custom: seq<Piece>,
                   table: seq<Byte>, data: seq<Byte>)
    returns (file: seq<Byte>, tail: seq<Byte>)
    requires h.Valid() && FrontFits(FrontOf(entries, tag, custom))
    requires Clear(h.ptr.Length, End(FrontOf(entries, tag, custom), table))
    modifies h`ptr, h`indx, h`bigEndian, h.ptr
    ensures h.Valid() && (h.ptr == old(h.ptr) || fresh(h.ptr))
    ensures file == FileBytes(d, FrontOf(entries, tag, custom), table, data, tail)
    ensures |file| % 2 == 0 && tail in {[], [0]}
  {
    hide Clear, FrontFits, HeaderBytes, FileBytes, FrontOf;
    WriteHeader(h, d, entries, tag, custom, table, 0);
    var dataOffset := h.indx;
    file, tail := h.ptr[..h.indx] + data, [];
    var dataEnd := |file|;
    if dataEnd % 2 == 1 {
      file, tail := file + [0], [0];
    }
    Behind(Written(h), data, tail);
    WriteHeader(h, d, entries, tag, custom, table, dataEnd - dataOffset);
    SameLength(d, FrontOf(entries, tag, custom), table, 0, |data|);
    file := h.ptr[..h.indx] + file[h.indx..];
    WholeFile(d, FrontOf(entries, tag, custom), table, data, tail);
  }

  lemma Behind(header: seq<Byte>, data: seq<Byte>, tail: seq<Byte>)
    ensures (header + data + tail)[|header|..] == data + tail && header + data + [] == header + data
  {
  }

  /** The length of the packets does not change that of the header. */
  lemma SameLength(d: Description, front: seq<Piece>, table: seq<Byte>, m: int, n: int)
    ensures |HeaderBytes(d, front, table, m)| == |HeaderBytes(d, front, table, n)|
  {
    hide Flatten, Print;
  }

  lemma NothingToPrint(at: nat, len: nat, big: bool)
    ensures RoomAfter([], at, len, big, true) == Some(len) && Print([], big) == [] && OrderAfter([], big) == big
  {
  }

  /** What the strings and the channel map take, one behind the other. */
  lemma LeadBytes(pairs: seq<Pair>, tag: int)
    ensures Flatten(Layout(Lead(pairs, tag)))
         == (if pairs == [] then [] else Printed(Piece(CafInfo.INFO_MARKER, StringsBody(pairs))))
            + (if tag == 0 then [] else Printed(Piece(CHAN_MARKER, MapBody(tag))))
  {
    hide Printed, Packed;
    var parts := Layout(Lead(pairs, tag));
    FlattenNone<Byte>();
    assert parts[..0] == [] && parts[..|parts|] == parts;
    if |parts| >= 1 { FlattenOneMore(parts, 0); }
    if |parts| == 2 { FlattenOneMore(parts, 1); }
    if |parts| >= 1 { EmptyFirst([], parts[0]); EmptyLast(parts[0], []); }
  }
}
