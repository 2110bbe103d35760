/** binheader_writef and binheader_readf: the header buffer as a printer and a parser. */
module HeaderPrint {
  import opened Bits
  import opened Endian
  import opened HeaderRoom
  import opened HeaderFormat
  import opened Header
  import opened Wrappers

  /** What has been printed so far. */
  ghost function Written(h: HeaderBuffer): seq<Byte>
    requires h.Valid()
    reads h, h.ptr
  {
    h.ptr[..h.indx]
  }

  /** header_put_byte */
  method PutByte(h: HeaderBuffer, x: int)
    requires h.Valid() && h.indx < h.ptr.Length
    modifies h`indx, h.ptr
    ensures h.Valid() && h.indx == old(h.indx) + 1 && Written(h) == old(Written(h)) + [x % 256]
  {
    ghost var before := h.ptr[..h.indx];
    h.ptr[h.indx] := x % 256;
    assert h.ptr[..h.indx] == before;
    h.indx := h.indx + 1;
  }

  /** header_put_be_short, header_put_be_3byte, header_put_be_int and header_put_be_8byte: the
      highest byte first, then the rest. */
  method PutBig(h: HeaderBuffer, x: int, width: nat)
    requires h.Valid() && h.indx + width <= h.ptr.Length
    modifies h`indx, h.ptr
    ensures h.Valid() && h.indx == old(h.indx) + width && Written(h) == old(Written(h)) + BigEndian(x, width)
  {
    if width > 0 {
      BigEndianFirst(x, width);
      ConcatAssoc(Written(h), [x / Pow256(width - 1) % 256], BigEndian(x, width - 1));
      PutByte(h, x / Pow256(width - 1));
      PutBig(h, x, width - 1);
    }
  }

  /** header_put_marker, header_put_le_short and their kin: the lowest byte first. */
  method PutLittle(h: HeaderBuffer, x: int, width: nat)
    requires h.Valid() && h.indx + width <= h.ptr.Length
    modifies h`indx, h.ptr
    ensures h.Valid() && h.indx == old(h.indx) + width && Written(h) == old(Written(h)) + LittleEndian(x, width)
    decreases width
  {
    if width > 0 {
      ConcatAssoc(Written(h), [x % 256], LittleEndian(x / 256, width - 1));
      PutByte(h, x);
      PutLittle(h, x / 256, width - 1);
    }
  }

  method PutRaw(h: HeaderBuffer, data: seq<Byte>)
    requires h.Valid() && h.indx + |data| <= h.ptr.Length
    modifies h`indx, h.ptr
    ensures h.Valid() && h.indx == old(h.indx) + |data| && Written(h) == old(Written(h)) + data
  {
    ghost var before := h.ptr[..h.indx];
    forall k | 0 <= k < |data| { h.ptr[h.indx + k] := data[k]; }
    assert h.ptr[..h.indx] == before;
    assert h.ptr[h.indx..h.indx + |data|] == data;
    h.indx := h.indx + |data|;
  }

  /** The `b` letter: a second check for the whole block. */
  method PutBlock(h: HeaderBuffer, data: seq<Byte>) returns (denied: bool)
    requires h.Valid()
    modifies h`ptr, h`indx, h.ptr
    ensures h.Valid() && (h.ptr == old(h.ptr) || fresh(h.ptr))
    ensures var room := Ensured(old(h.ptr.Length), old(h.indx) + |data| > old(h.ptr.Length), |data|);
            denied == room.None? && h.ptr.Length == if denied then old(h.ptr.Length) else room.value
    ensures Written(h) == old(Written(h)) + (if denied then [] else data)
    ensures h.indx == old(h.indx) + (if denied then 0 else |data|)
  {
    denied := false;
    EmptyLast(Written(h), []);
    if h.indx + |data| > h.ptr.Length {
      ghost var whole := h.ptr[..];
      denied := h.Bump(|data|);
      assert denied || h.ptr[..h.indx] == whole[..h.indx];
      if denied {
        return;
      }
    }
    PutRaw(h, data);
  }

  /** The length a denied item leaves: the check in front of it may have been granted. */
  function RoomLeft(at: nat, len: nat): nat
  {
    match Ensured(len, at + 16 >= len, 16)
    case None => len
    case Some(l) => l
  }

  /** One letter of binheader_writef. */
  method WriteItem(h: HeaderBuffer, item: Item) returns (denied: bool)
    requires h.Valid()
    modifies h`ptr, h`indx, h`bigEndian, h.ptr
    ensures h.Valid() && (h.ptr == old(h.ptr) || fresh(h.ptr))
    ensures denied == WriteRoom(item, old(h.indx), old(h.ptr.Length)).None?
    ensures denied ==> Written(h) == old(Written(h)) && h.indx == old(h.indx) && h.bigEndian == old(h.bigEndian)
    ensures denied ==> h.ptr.Length == RoomLeft(old(h.indx), old(h.ptr.Length))
    ensures !denied ==> h.ptr.Length == WriteRoom(item, old(h.indx), old(h.ptr.Length)).value
    ensures !denied ==>
              Written(h) == old(Written(h)) + Bytes(item, old(h.bigEndian)) && h.indx == old(h.indx) + Size(item)
    ensures !denied ==> h.bigEndian == NextOrder(item, old(h.bigEndian))
  {
    hide BigEndian, LittleEndian;
    ghost var before := Written(h);
    denied := h.MakeRoom(16);
    assert Written(h) == before;
    if denied {
      return;
    }
    match item {
      case Switch(big) => h.bigEndian := big;
      case Marker(x) => PutLittle(h, x, 4);
      case Number(width, x) =>
        if h.bigEndian {
          PutBig(h, x, width);
        } else {
          PutLittle(h, x, width);
        }
      case Raw(data) =>
        denied := PutBlock(h, data);
    }
    EmptyLast(before, []);
  }

  /** binheader_writef: the format is printed up to the item whose room is denied, if any. */
  method Writef(h: HeaderBuffer, items: seq<Item>) returns (count: nat, ghost done: nat)
    requires h.Valid()
    modifies h`ptr, h`indx, h`bigEndian, h.ptr
    ensures h.Valid() && (h.ptr == old(h.ptr) || fresh(h.ptr)) && done <= |items|
    ensures done == |items| <==> RoomAfter(items, old(h.indx), old(h.ptr.Length), old(h.bigEndian), true).Some?
    ensures count == |Print(items[..done], old(h.bigEndian))| && h.indx == old(h.indx) + count
    ensures Written(h) == old(Written(h)) + Print(items[..done], old(h.bigEndian))
    ensures h.bigEndian == OrderAfter(items[..done], old(h.bigEndian))
    ensures done < |items| ==>
              RoomAfter(items[..done + 1], old(h.indx), old(h.ptr.Length), old(h.bigEndian), true).None?
    ensures var room := RoomAfter(items[..done], old(h.indx), old(h.ptr.Length), old(h.bigEndian), true);
            && room.Some?
            && h.ptr.Length == if done == |items| then room.value else RoomLeft(h.indx, room.value)
  {
    hide Print, OrderAfter, RoomAfter, WriteRoom, RoomLeft, NextOrder, Bytes;
    ghost var at, len, big, before := h.indx, h.ptr.Length, h.bigEndian, Written(h);
    count := 0;
    var k := 0;
    PrintNothing(items, at, len, big);
    EmptyLast(before, []);
    while k < |items|
      invariant k <= |items| && h.Valid() && (h.ptr == old(h.ptr) || fresh(h.ptr))
      invariant RoomAfter(items[..k], at, len, big, true) == Some(h.ptr.Length)
      invariant h.bigEndian == OrderAfter(items[..k], big) && count == |Print(items[..k], big)| && h.indx == at + count
      invariant Written(h) == before + Print(items[..k], big)
    {
      OneMoreItem(items, at, len, big, true, k);
      ConcatAssoc(before, Print(items[..k], big), Bytes(items[k], h.bigEndian));
      var denied := WriteItem(h, items[k]);
      if denied {
        DeniedForGood(items, at, len, big, true, k + 1);
        done := k;
        return;
      }
      count := count + Size(items[k]);
      k := k + 1;
    }
    assert items[..k] == items;
    done := k;
  }

  lemma PrintNothing(items: seq<Item>, at: nat, len: nat, big: bool)
    ensures Print(items[..0], big) == [] && OrderAfter(items[..0], big) == big
    ensures forall writing :: RoomAfter(items[..0], at, len, big, writing) == Some(len)
  {
  }

  /** A format is printed letter by letter: its first three. */
  lemma PrintThree(items: seq<Item>, big: bool)
    requires |items| >= 3
    ensures var o1 := NextOrder(items[0], big);
            var o2 := NextOrder(items[1], o1);
            && Print(items[..3], big) == Bytes(items[0], big) + Bytes(items[1], o1) + Bytes(items[2], o2)
            && OrderAfter(items[..3], big) == NextOrder(items[2], o2)
  {
    hide Bytes, NextOrder, RoomAfter, Room, Print, OrderAfter;
    PrintNothing(items, 0, 0, big);
    OneMoreItem(items, 0, 0, big, true, 0);
    OneMoreItem(items, 0, 0, big, true, 1);
    OneMoreItem(items, 0, 0, big, true, 2);
    EmptyFirst([], Bytes(items[0], big));
  }

  /** And its fourth. */
  lemma PrintFour(items: seq<Item>, big: bool)
    requires |items| >= 4
    ensures var o1 := NextOrder(items[0], big);
            var o2 := NextOrder(items[1], o1);
            var o3 := NextOrder(items[2], o2);
            && Print(items[..4], big)
               == Bytes(items[0], big) + Bytes(items[1], o1) + Bytes(items[2], o2) + Bytes(items[3], o3)
            && OrderAfter(items[..4], big) == NextOrder(items[3], o3)
  {
    hide Bytes, NextOrder, RoomAfter, Room, Print, OrderAfter;
    PrintThree(items, big);
    OneMoreItem(items, 0, 0, big, true, 3);
  }

  // ----- Reading -----

  /** The bytes of the item lie at the logical position. */
  ghost predicate BytesAhead(h: HeaderBuffer, item: Item)
    reads h, h.ptr
  {
    && h.Valid() && h.Coherent() && h.indx + Size(item) <= |h.file|
    && h.file[h.indx..h.indx + Size(item)] == Bytes(item, h.bigEndian)
  }

  /** And its room is granted. */
  ghost predicate Ahead(h: HeaderBuffer, item: Item)
    reads h, h.ptr
  {
    BytesAhead(h, item) && ReadRoom(item, h.indx, h.ptr.Length).Some?
  }

  /** The bytes a field takes. */
  function Length(field: Field): nat
  {
    match field
    case Order(_) => 0
    case Tag => 4
    case Digit(w) => w
    case Block(n) => n
  }

  /** The marker an argument holds, 0 where reading stopped before it. */
  function MarkerAt(got: seq<Item>, k: nat): int
  {
    if k < |got| && got[k].Marker? then got[k].x else 0
  }

  /** The same for numbers. */
  function NumberAt(got: seq<Item>, k: nat): int
  {
    if k < |got| && got[k].Number? then got[k].x else 0
  }

  /** One letter of binheader_readf. */
  method ReadField(h: HeaderBuffer, field: Field, ghost item: Item) returns (stop: bool, got: Item, count: nat)
    requires h.Valid()
    modifies h`ptr, h`indx, h`end, h`pos, h`bigEndian, h.ptr
    ensures h.Valid() && (h.ptr == old(h.ptr) || fresh(h.ptr))
    ensures old(Ahead(h, item)) && field == FieldOf(item) ==>
              && !stop && got == Kept(item) && count == Size(item) && h.indx == old(h.indx) + count && h.Coherent()
              && h.bigEndian == NextOrder(item, old(h.bigEndian))
              && Some(h.ptr.Length) == ReadRoom(item, old(h.indx), old(h.ptr.Length))
              && (old(h.indx) == old(h.end) ==> h.indx == h.end)
  {
    hide Bytes, Kept, Refused, LenAfter, ReadRoom, HeaderBuffer.Cached;
    ghost var expected := Ahead(h, item) && field == FieldOf(item);
    got, count := Switch(false), 0;
    if expected { TwoSteps(item, h.indx, h.ptr.Length); }
    stop := h.MakeRoom(16);
    if stop {
      return;
    }
    if field.Order? {
      h.bigEndian := field.big;
      got := Switch(field.big);
      if expected { KeptSwitch(item); }
      return;
    }
    got, count := ReadValue(h, field, item);
  }

  /** A letter that reads bytes. Where header_read delivers nothing the argument is zero, but for
      three and eight bytes it is whatever the local buffer held. */
  method ReadValue(h: HeaderBuffer, field: Field, ghost item: Item) returns (got: Item, count: nat)
    requires h.Valid() && !field.Order?
    modifies h`ptr, h`indx, h`end, h`pos, h.ptr
    ensures h.Valid() && (h.ptr == old(h.ptr) || fresh(h.ptr))
    ensures old(BytesAhead(h, item)) && field == FieldOf(item)
            && !Refused(old(h.ptr.Length), old(h.indx) + Size(item), Size(item)) ==>
              && got == Kept(item) && count == Size(item) && h.indx == old(h.indx) + count && h.Coherent()
              && h.ptr.Length == LenAfter(old(h.ptr.Length), old(h.indx) + Size(item), Size(item))
              && (old(h.indx) == old(h.end) ==> h.indx == h.end)
  {
    hide Bytes, Parsed, Kept, Refused, LenAfter;
    var data;
    count, data := h.Read(Length(field));
    if count == Length(field) == |data| {
      got := Parsed(field, data, h.bigEndian);
      if old(BytesAhead(h, item)) && field == FieldOf(item) { ParsedBack(item, h.bigEndian); }
    } else {
      var junk: int := *;
      got := if field == Digit(3) || field == Digit(8) then Number(field.width, junk)
             else Parsed(field, seq(Length(field), _ => 0), h.bigEndian);
    }
  }

  /** The room of an item that is read: for the check in front and for its bytes. */
  lemma TwoSteps(item: Item, at: nat, len: nat)
    requires ReadRoom(item, at, len).Some?
    ensures !Refused(len, at + 16, 16)
    ensures var l := LenAfter(len, at + 16, 16);
            if item.Switch? then ReadRoom(item, at, len) == Some(l)
            else !Refused(l, at + Size(item), Size(item))
                 && ReadRoom(item, at, len) == Some(LenAfter(l, at + Size(item), Size(item)))
  {
  }

  lemma KeptSwitch(item: Item)
    ensures item.Switch? ==> Kept(item) == item
  {
  }

  /** The items lie in the file at the logical position, and every growth is granted. */
  ghost predicate AllAhead(h: HeaderBuffer, items: seq<Item>)
    reads h, h.ptr
  {
    && h.Valid() && h.Coherent() && h.indx + |Print(items, h.bigEndian)| <= |h.file|
    && h.file[h.indx..h.indx + |Print(items, h.bigEndian)|] == Print(items, h.bigEndian)
    && RoomAfter(items, h.indx, h.ptr.Length, h.bigEndian, false).Some?
  }

  /** binheader_readf. `items` are what the file is expected to hold. */
  method Readf(h: HeaderBuffer, fields: seq<Field>, ghost items: seq<Item>) returns (byteCount: nat, got: seq<Item>)
    requires h.Valid()
    modifies h`ptr, h`indx, h`end, h`pos, h`bigEndian, h.ptr
    ensures h.Valid() && (h.ptr == old(h.ptr) || fresh(h.ptr))
    ensures old(AllAhead(h, items)) && fields == Fields(items) ==>
              && got == AllKept(items) && byteCount == |Print(items, old(h.bigEndian))|
              && h.indx == old(h.indx) + byteCount && h.Coherent()
              && Some(h.ptr.Length) == RoomAfter(items, old(h.indx), old(h.ptr.Length), old(h.bigEndian), false)
              && h.bigEndian == OrderAfter(items, old(h.bigEndian)) && (old(h.indx) == old(h.end) ==> h.indx == h.end)
  {
    hide Print, OrderAfter, RoomAfter, ReadRoom, NextOrder, Bytes, Kept;
    ghost var expected := AllAhead(h, items) && fields == Fields(items);
    ghost var at, len, big := h.indx, h.ptr.Length, h.bigEndian;
    byteCount, got := 0, [];
    var lastCount: nat, k := 0, 0;
    PrintNothing(items, at, len, big);
    while k < |fields|
      invariant k <= |fields| && h.Valid() && (h.ptr == old(h.ptr) || fresh(h.ptr))
      invariant expected ==> h.Coherent() && got == AllKept(items[..k])
      invariant expected ==> byteCount == |Print(items[..k], big)| && h.indx == at + byteCount
      invariant expected ==> h.bigEndian == OrderAfter(items[..k], big) && (at == old(h.end) ==> h.indx == h.end)
      invariant expected ==> RoomAfter(items[..k], at, len, big, false) == Some(h.ptr.Length)
    {
      ghost var item := if expected then items[k] else Switch(false);
      if expected { NextAhead(h, items, at, len, big, k); }
      var stop, value, count := ReadField(h, fields[k], item);
      if stop {
        byteCount := lastCount;
        return;
      }
      lastCount := if fields[k].Block? then fields[k].length else lastCount;
      byteCount := byteCount + count;
      got := got + [value];
      k := k + 1;
    }
    if expected { assert items[..k] == items; }
  }

  /** After `k` items the next one is ahead. */
  lemma NextAhead(h: HeaderBuffer, items: seq<Item>, at: nat, len: nat, big: bool, k: nat)
    requires k < |items| && h.Valid() && h.Coherent() && h.indx == at + |Print(items[..k], big)|
    requires h.bigEndian == OrderAfter(items[..k], big)
    requires at + |Print(items, big)| <= |h.file| && h.file[at..at + |Print(items, big)|] == Print(items, big)
    requires RoomAfter(items, at, len, big, false).Some?
    requires RoomAfter(items[..k], at, len, big, false) == Some(h.ptr.Length)
    ensures Ahead(h, items[k])
    ensures OrderAfter(items[..k + 1], big) == NextOrder(items[k], h.bigEndian)
    ensures |Print(items[..k + 1], big)| == |Print(items[..k], big)| + Size(items[k])
    ensures RoomAfter(items[..k + 1], at, len, big, false) == ReadRoom(items[k], h.indx, h.ptr.Length)
    ensures AllKept(items[..k + 1]) == AllKept(items[..k]) + [Kept(items[k])]
  {
    hide Print, OrderAfter, RoomAfter, ReadRoom, NextOrder, Bytes, Kept;
    OneMoreItem(items, at, len, big, false, k);
    if RoomAfter(items[..k + 1], at, len, big, false).None? { DeniedForGood(items, at, len, big, false, k + 1); }
    PrintPrefix(items, big, k + 1);
    var n := |Print(items[..k], big)|;
    PrefixEnd(Print(items[..k], big), Bytes(items[k], h.bigEndian), Print(items, big));
    SamePart(h.file, Print(items, big), at, n, Bytes(items[k], h.bigEndian));
  }

  lemma SamePart<T>(file: seq<T>, all: seq<T>, at: nat, n: nat, part: seq<T>)
    requires at + |all| <= |file| && file[at..at + |all|] == all
    requires n + |part| <= |all| && all[n..n + |part|] == part
    ensures file[at + n..at + n + |part|] == part
  {
    forall k | 0 <= k < |part| ensures file[at + n + k] == part[k] {
      assert file[at..at + |all|][n + k] == all[n..n + |part|][k];
    }
  }

  lemma {:induction false} PrintPrefix(items: seq<Item>, big: bool, k: nat)
    requires k <= |items|
    ensures Print(items[..k], big) <= Print(items, big)
    decreases |items| - k
  {
    hide Print, Bytes;
    if k < |items| {
      PrintPrefix(items, big, k + 1);
      OneMoreItem(items, 0, 0, big, true, k);
    } else {
      assert items[..k] == items;
    }
  }

  lemma PrefixEnd<T>(a: seq<T>, b: seq<T>, all: seq<T>)
    requires a + b <= all
    ensures all[|a|..|a| + |b|] == b
  {
    assert all[|a|..|a| + |b|] == (a + b)[|a|..];
  }

  /** A header printed to a file and parsed with the same format gives back every argument, as its
      type holds it, unless the parser's buffer is denied room. */
  method RoundTrip(items: seq<Item>, rest: seq<Byte>) returns (written: nat, ghost done: nat, count: nat,
                   got: seq<Item>)
    ensures done == |items| <==> RoomAfter(items, 0, INITIAL_HEADER_SIZE, false, true).Some?
    ensures done == |items| && RoomAfter(items, 0, INITIAL_HEADER_SIZE, false, false).Some? ==>
              got == AllKept(items) && count == written == |Print(items, false)|
    ensures |Print(items, false)| + 16 <= CAP / 2 ==> got == AllKept(items) && count == written == |Print(items, false)|
  {
    hide Print, RoomAfter, AllKept;
    var w := new HeaderBuffer([]);
    written, done := Writef(w, items);
    var file := w.ptr[..w.indx] + rest;
    var r := new HeaderBuffer(file);
    if done == |items| {
      assert items[..done] == items;
      PrefixSuffix(w.ptr[..w.indx], rest);
    }
    if |Print(items, false)| + 16 <= CAP / 2 {
      ShortFormatsFit(items, 0, INITIAL_HEADER_SIZE, false, true, CAP);
      ShortFormatsFit(items, 0, INITIAL_HEADER_SIZE, false, false, CAP);
    }
    count, got := Readf(r, Fields(items), items);
  }
}
