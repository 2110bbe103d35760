/** The items of a header format string: the bytes each one prints, the value it reads back, and
    the buffer room both sides ask for. */
module HeaderFormat {
  import opened Bits
  import opened Endian
  import opened HeaderRoom
  import opened Wrappers

  /** The digits of the format: how many bytes a number takes. */
  type Width = w: nat | w == 1 || w == 2 || w == 3 || w == 4 || w == 8 witness 1

  /** A format letter: `E` and `e`, `m`, a digit, `b` with its length. */
  datatype Field = Order(big: bool) | Tag | Digit(width: Width) | Block(length: nat)

  /** A letter with the argument it consumes. */
  datatype Item = Switch(big: bool) | Marker(x: int) | Number(width: Width, x: int) | Raw(data: seq<Byte>)

  function FieldOf(item: Item): Field
  {
    match item
    case Switch(big) => Order(big)
    case Marker(_) => Tag
    case Number(w, _) => Digit(w)
    case Raw(data) => Block(|data|)
  }

  function Fields(items: seq<Item>): (r: seq<Field>)
    ensures |r| == |items| && forall k :: 0 <= k < |r| ==> r[k] == FieldOf(items[k])
  {
    seq(|items|, k requires 0 <= k < |items| => FieldOf(items[k]))
  }

  function Size(item: Item): nat
  {
    match item
    case Switch(_) => 0
    case Marker(_) => 4
    case Number(w, _) => w
    case Raw(data) => |data|
  }

  function InOrder(x: int, width: nat, big: bool): (r: seq<Byte>)
    ensures |r| == width
  {
    if big then BigEndian(x, width) else LittleEndian(x, width)
  }

  /** The bytes of an item under the current byte order. Markers are in host order, low byte first. */
  function Bytes(item: Item, big: bool): (r: seq<Byte>)
    ensures |r| == Size(item)
  {
    match item
    case Switch(_) => []
    case Marker(x) => LittleEndian(x, 4)
    case Number(w, x) => InOrder(x, w, big)
    case Raw(data) => data
  }

  function NextOrder(item: Item, big: bool): bool
  {
    if item.Switch? then item.big else big
  }

  function OrderAfter(items: seq<Item>, big: bool): bool
  {
    if items == [] then big else NextOrder(items[|items| - 1], OrderAfter(items[..|items| - 1], big))
  }

  /** What a whole format prints. */
  function Print(items: seq<Item>, big: bool): (r: seq<Byte>)
  {
    if items == [] then []
    else
      var before := items[..|items| - 1];
      Print(before, big) + Bytes(items[|items| - 1], OrderAfter(before, big))
  }

  // ----- Room -----

  function Ensured(len: nat, crowded: bool, needed: nat): Option<nat>
  {
    if !crowded then Some(len) else if Denied(len, needed) then None else Some(NewLen(len, needed))
  }

  /** The buffer length after binheader_writef has made room for an item at `at`. */
  function WriteRoom(item: Item, at: nat, len: nat): Option<nat>
  {
    match Ensured(len, at + 16 >= len, 16)
    case None => None
    case Some(l) => if item.Raw? then Ensured(l, at + Size(item) > l, Size(item)) else Some(l)
  }

  /** The same for binheader_readf and its header_read. */
  function ReadRoom(item: Item, at: nat, len: nat): Option<nat>
  {
    match Ensured(len, at + 16 >= len, 16)
    case None => None
    case Some(l) => if item.Switch? then Some(l) else Ensured(l, at + Size(item) >= l, Size(item))
  }

  function Room(item: Item, at: nat, len: nat, writing: bool): Option<nat>
  {
    if writing then WriteRoom(item, at, len) else ReadRoom(item, at, len)
  }

  /** The buffer length after a whole format starting at `at`, if no growth was denied on the way. */
  function RoomAfter(items: seq<Item>, at: nat, len: nat, big: bool, writing: bool): Option<nat>
  {
    if items == [] then Some(len)
    else
      var before := items[..|items| - 1];
      match RoomAfter(before, at, len, big, writing)
      case None => None
      case Some(l) => Room(items[|items| - 1], at + |Print(before, big)|, l, writing)
  }

  lemma {:induction false} OneMoreItem(items: seq<Item>, at: nat, len: nat, big: bool, writing: bool, k: nat)
    requires k < |items|
    ensures OrderAfter(items[..k + 1], big) == NextOrder(items[k], OrderAfter(items[..k], big))
    ensures Print(items[..k + 1], big) == Print(items[..k], big) + Bytes(items[k], OrderAfter(items[..k], big))
    ensures RoomAfter(items[..k + 1], at, len, big, writing)
         == match RoomAfter(items[..k], at, len, big, writing)
            case None => None
            case Some(l) => Room(items[k], at + |Print(items[..k], big)|, l, writing)
  {
    assert items[..k + 1][..k] == items[..k];
  }

  /** A denial is final. */
  lemma {:induction false} DeniedForGood(items: seq<Item>, at: nat, len: nat, big: bool, writing: bool, k: nat)
    requires k <= |items| && RoomAfter(items[..k], at, len, big, writing).None?
    ensures RoomAfter(items, at, len, big, writing).None?
    decreases |items| - k
  {
    if k < |items| {
      OneMoreItem(items, at, len, big, writing, k);
      DeniedForGood(items, at, len, big, writing, k + 1);
    } else {
      assert items[..k] == items;
    }
  }

  /** Formats that end 16 bytes short of half a cap are granted their room on both sides, and the
      buffer stays below that cap; with the cap of the code, formats up to 50 KiB. */
  lemma {:induction false} ShortFormatsFit(items: seq<Item>, at: nat, len: nat, big: bool, writing: bool, cap: nat)
    requires at + |Print(items, big)| + 16 <= cap / 2 && INITIAL_HEADER_SIZE <= len <= cap <= CAP
    ensures RoomAfter(items, at, len, big, writing).Some?
    ensures len <= RoomAfter(items, at, len, big, writing).value <= cap
    ensures at <= len ==> at + |Print(items, big)| <= RoomAfter(items, at, len, big, writing).value
  {
    hide Room;
    if items != [] {
      var before := items[..|items| - 1];
      ShortFormatsFit(before, at, len, big, writing, cap);
      RoomGranted(items[|items| - 1], at + |Print(before, big)|,
                  RoomAfter(before, at, len, big, writing).value, writing, cap);
    }
  }

  lemma RoomGranted(item: Item, at: nat, len: nat, writing: bool, cap: nat)
    requires at + Size(item) + 16 <= cap / 2 && INITIAL_HEADER_SIZE <= len <= cap <= CAP
    ensures Room(item, at, len, writing).Some? && len <= Room(item, at, len, writing).value <= cap
    ensures at <= len ==> at + Size(item) <= Room(item, at, len, writing).value
  {
  }

  /** A buffer that is long enough does not grow. */
  lemma {:induction false} NoGrowth(items: seq<Item>, at: nat, len: nat, big: bool, writing: bool)
    requires at + |Print(items, big)| + 16 < len
    ensures RoomAfter(items, at, len, big, writing) == Some(len)
  {
    hide Bytes;
    if items != [] { NoGrowth(items[..|items| - 1], at, len, big, writing); }
  }

  /** A buffer that can still double, or reaches 16 bytes past `end` already. */
  predicate Clear(len: nat, end: nat) { INITIAL_HEADER_SIZE <= len <= CAP && (len <= CAP / 2 || end + 16 < len) }

  /** Letters of at most eight bytes are granted in a clear buffer, and leave it clear. */
  lemma {:induction false} SmallFormatsFit(items: seq<Item>, at: nat, len: nat, big: bool, writing: bool, end: nat)
    requires forall k :: 0 <= k < |items| ==> Size(items[k]) <= 8
    requires at <= len && Clear(len, end) && at + |Print(items, big)| <= end <= at + 100
    ensures var room := RoomAfter(items, at, len, big, writing);
            room.Some? && at + |Print(items, big)| <= room.value && len <= room.value && Clear(room.value, end)
  {
    hide Room, Clear, Size, OrderAfter, NextOrder;
    if items != [] {
      var before, last := items[..|items| - 1], items[|items| - 1];
      assert before + [last] == items;
      SmallFormatsFit(before, at, len, big, writing, end);
      SmallItemFits(last, at + |Print(before, big)|, RoomAfter(before, at, len, big, writing).value, writing, end);
    }
  }

  lemma SmallItemFits(item: Item, at: nat, len: nat, writing: bool, end: nat)
    requires Size(item) <= 8 && at <= len && Clear(len, end) && at + Size(item) <= end <= at + 100
    ensures var room := Room(item, at, len, writing);
            room.Some? && at + Size(item) <= room.value && len <= room.value && Clear(room.value, end)
  {
  }

  /** Not every header that can be printed can be read: the last byte of the buffer is the
      writer's alone. */
  lemma FullBuffer(big: bool)
    ensures var half := Raw(seq(CAP / 2, _ => 0));
            RoomAfter([half, half], 0, INITIAL_HEADER_SIZE, big, true).Some?
            && RoomAfter([half, half], 0, INITIAL_HEADER_SIZE, big, false).None?
  {
    var half := Raw(seq(CAP / 2, _ => 0));
    var items := [half, half];
    assert items[..0] == [] && items[..1] == [half] && items[..2] == items;
    OneMoreItem(items, 0, INITIAL_HEADER_SIZE, big, true, 0);
    OneMoreItem(items, 0, INITIAL_HEADER_SIZE, big, true, 1);
    OneMoreItem(items, 0, INITIAL_HEADER_SIZE, big, false, 0);
    OneMoreItem(items, 0, INITIAL_HEADER_SIZE, big, false, 1);
  }

  /** When a block of bytes is denied: if the buffer is crowded and may not double, or if the
      block does not fit behind the index and either it or the buffer is longer than half the cap. */
  lemma BlockDenied(data: seq<Byte>, at: nat, len: nat)
    requires at <= len && INITIAL_HEADER_SIZE <= len <= CAP
    ensures var crowded := at + 16 >= len;
            var room := if crowded then 2 * len else len;
            WriteRoom(Raw(data), at, len).None?
            <==> (crowded && len > CAP / 2) || (at + |data| > room && (|data| > CAP / 2 || room > CAP / 2))
  {
  }

  // ----- Reading back -----

  /** The value as the argument's type holds it: unsigned, but signed for eight bytes. */
  function Kept(item: Item): Item
  {
    match item
    case Marker(x) => Marker(x % Pow256(4))
    case Number(w, x) => Number(w, if w == 8 then Int64(x) else x % Pow256(w))
    case _ => item
  }

  function AllKept(items: seq<Item>): (r: seq<Item>)
    ensures |r| == |items| && forall k :: 0 <= k < |r| ==> r[k] == Kept(items[k])
  {
    seq(|items|, k requires 0 <= k < |items| => Kept(items[k]))
  }

  /** Just what the type can hold is kept as it is. */
  lemma KeptAsIs(item: Item)
    ensures Kept(item) == item
       <==> match item
            case Marker(x) => 0 <= x < 0x1_0000_0000
            case Number(w, x) =>
              if w == 8 then -0x8000_0000_0000_0000 <= x < 0x8000_0000_0000_0000 else 0 <= x < Pow256(w)
            case _ => true
  {
    assert Pow256(4) == 0x1_0000_0000 by { assert Pow256(2) == 0x1_0000; }
  }

  /** What a field makes of its bytes. */
  function Parsed(field: Field, bytes: seq<Byte>, big: bool): Item
  {
    match field
    case Order(b) => Switch(b)
    case Tag => Marker(FromLittle(bytes))
    case Digit(w) =>
      var v := if big then FromBig(bytes) else FromLittle(bytes);
      Number(w, if w == 8 then Int64(v) else v)
    case Block(_) => Raw(bytes)
  }

  lemma {:induction false} ParsedBack(item: Item, big: bool)
    ensures Parsed(FieldOf(item), Bytes(item, big), big) == Kept(item)
  {
    match item
    case Switch(_) =>
    case Marker(x) => LittleEndianBack(x, 4);
    case Number(w, x) =>
      BigEndianBack(x, w);
      LittleEndianBack(x, w);
      if w == 8 { Int64Residue(x); }
    case Raw(_) =>
  }

  lemma Int64Residue(x: int)
    ensures Pow256(8) == 0x1_0000_0000_0000_0000 && Int64(x % Pow256(8)) == Int64(x)
  {
    assert Pow256(4) == 0x1_0000_0000;
    assert Pow256(8) == 0x1_0000_0000_0000_0000;
    var p := 0x1_0000_0000_0000_0000;
    assert x == p * (x / p) + x % p;
  }

  // ----- A format written out -----

  /** Letters of every kind. */
  const LETTERS: seq<Item> := [Switch(true), Marker(0x6666_6163), Number(2, 0x102), Number(3, 0x4_0506), Number(1, 300),
                               Switch(false), Number(4, 0x102_0304), Number(8, -2), Raw([9, 8])]

  /** The order in force is that of the last `E` or `e`; markers keep their own. */
  lemma {:induction false} PrintedFormat()
    ensures Print(LETTERS, false)
         == [0x63, 0x61, 0x66, 0x66] + [1, 2] + [4, 5, 6] + [44] + [4, 3, 2, 1]
            + [254, 255, 255, 255, 255, 255, 255, 255] + [9, 8]
  {
    hide Print, OrderAfter, Bytes, Room, RoomAfter;
    FirstLetters();
    LittleNumbers();
    OneMoreItem(LETTERS, 0, 0, false, true, 5);
    OneMoreItem(LETTERS, 0, 0, false, true, 6);
    OneMoreItem(LETTERS, 0, 0, false, true, 7);
    OneMoreItem(LETTERS, 0, 0, false, true, 8);
    assert LETTERS[..9] == LETTERS;
  }

  lemma {:induction false} FirstLetters()
    ensures Print(LETTERS[..5], false) == [0x63, 0x61, 0x66, 0x66] + [1, 2] + [4, 5, 6] + [44]
    ensures OrderAfter(LETTERS[..5], false)
  {
    hide Print, OrderAfter, Bytes, Room, RoomAfter;
    BigNumbers();
    FormatStart(LETTERS);
    OneMoreItem(LETTERS, 0, 0, false, true, 0);
    OneMoreItem(LETTERS, 0, 0, false, true, 1);
    OneMoreItem(LETTERS, 0, 0, false, true, 2);
    OneMoreItem(LETTERS, 0, 0, false, true, 3);
    OneMoreItem(LETTERS, 0, 0, false, true, 4);
  }

  lemma FormatStart(items: seq<Item>)
    ensures Print(items[..0], false) == [] && !OrderAfter(items[..0], false)
  {
  }

  lemma BigNumbers()
    ensures Bytes(Switch(true), false) == [] && Bytes(Marker(0x6666_6163), true) == [0x63, 0x61, 0x66, 0x66]
    ensures Bytes(Number(2, 0x102), true) == [1, 2] && Bytes(Number(3, 0x4_0506), true) == [4, 5, 6]
    ensures Bytes(Number(1, 300), true) == [44]
  {
  }

  lemma LittleNumbers()
    ensures Bytes(Switch(false), true) == [] && Bytes(Number(4, 0x102_0304), false) == [4, 3, 2, 1]
    ensures Bytes(Number(8, -2), false) == [254, 255, 255, 255, 255, 255, 255, 255]
    ensures Bytes(Raw([9, 8]), false) == [9, 8]
  {
  }
}
