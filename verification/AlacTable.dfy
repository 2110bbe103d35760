/** The ALAC packet table: PAKT_INFO in memory, and its base-128 form in the `pakt` chunk. */
module AlacTable {
  import opened Bits
  import opened Chunks
  import opened Endian
  import opened Wrappers

  type Word32 = w: nat | w < 0x1_0000_0000

  // ----- The chunk as bytes -----

  const HEADER_SIZE := 24
  const ENCODABLE := 0x1000_0000
  /** ALAC_FRAME_LENGTH and kALACDefaultFramesPerPacket */
  const FRAME_LENGTH := 4096

  function Header(count: nat, frames: int, partial: int): (r: seq<Byte>)
    ensures |r| == HEADER_SIZE
  {
    BigEndian(count, 8) + BigEndian(frames, 8) + BigEndian(0, 4) + BigEndian(FRAME_LENGTH - partial, 4)
  }

  /** Seven bits a byte, high group first, the top bit set on all but the last. */
  function Groups(v: nat): (r: seq<Byte>)
    requires v < ENCODABLE
    ensures 1 <= |r| <= 4
  {
    if v < 0x80 then [v]
    else if v < 0x4000 then [v / 0x80 + 0x80, v % 0x80]
    else if v < 0x20_0000 then [v / 0x4000 + 0x80, v / 0x80 % 0x80 + 0x80, v % 0x80]
    else [v / 0x20_0000 + 0x80, v / 0x4000 % 0x80 + 0x80, v / 0x80 % 0x80 + 0x80, v % 0x80]
  }

  predicate Encodable(sizes: seq<Word32>) { forall k :: 0 <= k < |sizes| ==> sizes[k] < ENCODABLE }

  function Entries(sizes: seq<Word32>): (r: seq<Byte>)
    requires Encodable(sizes)
  {
    if sizes == [] then [] else Entries(sizes[..|sizes| - 1]) + Groups(sizes[|sizes| - 1])
  }

  lemma {:induction false} EntriesOneMore(sizes: seq<Word32>, k: nat)
    requires k < |sizes| && Encodable(sizes)
    ensures Encodable(sizes[..k]) && Encodable(sizes[..k + 1])
    ensures Entries(sizes[..k + 1]) == Entries(sizes[..k]) + Groups(sizes[k])
  {
    assert sizes[..k + 1][..k] == sizes[..k];
  }

  lemma {:induction false} EntriesFirst(sizes: seq<Word32>)
    requires sizes != [] && Encodable(sizes)
    ensures Entries(sizes) == Groups(sizes[0]) + Entries(sizes[1..])
    decreases |sizes|
  {
    hide Groups;
    var last := |sizes| - 1;
    if last == 0 {
      assert sizes[..0] == [] && sizes[1..] == [];
      assert Entries(sizes) == [] + Groups(sizes[0]);
    } else {
      EntriesFirst(sizes[..last]);
      assert sizes[..last][1..] == sizes[1..][..last - 1];
      ConcatAssoc(Groups(sizes[0]), Entries(sizes[1..][..last - 1]), Groups(sizes[last]));
    }
  }

  // ----- Reading it back -----

  /** One value: where the scan stands after `count` bytes that made up `value`. A value that
      runs past five bytes or past the chunk reads as 0. */
  function GroupsFrom(data: seq<Byte>, at: nat, count: nat, value: Word32): (r: (Word32, nat))
    requires count <= 5
    ensures count < r.1 <= 6
    decreases 6 - count
  {
    if at + count >= |data| then (0, count + 1)
    else
      var byte := data[at + count];
      var v := (value * 128 + byte % 128) % 0x1_0000_0000;
      if count == 5 then (0, 6)
      else if byte >= 128 then GroupsFrom(data, at, count + 1, v)
      else (v, count + 1)
  }

  /** The table the reader builds: values up to the end of the chunk or the first 0. */
  function Parse(data: seq<Byte>, at: nat): (r: seq<Word32>)
    decreases |data| - at
  {
    if at >= |data| then []
    else
      var g := GroupsFrom(data, at, 0, 0);
      [g.0] + if g.0 == 0 then [] else Parse(data, at + g.1)
  }

  lemma {:induction false} GroupsBack(data: seq<Byte>, at: nat, v: Word32)
    requires v < ENCODABLE && at + |Groups(v)| <= |data| && data[at..at + |Groups(v)|] == Groups(v)
    ensures GroupsFrom(data, at, 0, 0) == (v, |Groups(v)|)
  {
    hide GroupsFrom;
    var g := Groups(v);
    assert data[at] == data[at..at + |g|][0] == g[0];
    if v < 0x80 {
      GroupsStep(data, at, 0, 0, v, false);
    } else if v < 0x4000 {
      assert data[at + 1] == data[at..at + |g|][1] == g[1];
      GroupsStep(data, at, 0, 0, v / 0x80, true);
      GroupsStep(data, at, 1, v / 0x80, v % 0x80, false);
    } else if v < 0x20_0000 {
      assert data[at + 1] == data[at..at + |g|][1] == g[1];
      assert data[at + 2] == data[at..at + |g|][2] == g[2];
      GroupsStep(data, at, 0, 0, v / 0x4000, true);
      GroupsStep(data, at, 1, v / 0x4000, v / 0x80 % 0x80, true);
      DivDiv128(v);
      GroupsStep(data, at, 2, v / 0x80, v % 0x80, false);
    } else {
      assert data[at + 1] == data[at..at + |g|][1] == g[1];
      assert data[at + 2] == data[at..at + |g|][2] == g[2];
      assert data[at + 3] == data[at..at + |g|][3] == g[3];
      DivDiv128(v);
      DivDiv128(v / 0x80);
      GroupsStep(data, at, 0, 0, v / 0x20_0000, true);
      GroupsStep(data, at, 1, v / 0x20_0000, v / 0x4000 % 0x80, true);
      GroupsStep(data, at, 2, v / 0x4000, v / 0x80 % 0x80, true);
      GroupsStep(data, at, 3, v / 0x80, v % 0x80, false);
    }
  }

  lemma DivDiv128(v: nat)
    ensures v / 0x4000 == v / 0x80 / 0x80 && v / 0x20_0000 == v / 0x80 / 0x4000
  {
  }

  /** One turn of the scan over a byte holding the seven bits `d`. */
  lemma GroupsStep(data: seq<Byte>, at: nat, count: nat, value: nat, d: nat, more: bool)
    requires count < 5 && at + count < |data| && value < 0x20_0000 && d < 128
    requires data[at + count] == if more then d + 128 else d
    ensures value * 128 + d < ENCODABLE
    ensures GroupsFrom(data, at, count, value)
         == if more then GroupsFrom(data, at, count + 1, value * 128 + d) else (value * 128 + d, count + 1)
  {
    hide GroupsFrom;
    SevenBits(value, d, data[at + count]);
    GroupsUnfold(data, at, count, value);
  }

  lemma SevenBits(value: nat, d: nat, byte: Byte)
    requires value < 0x20_0000 && d < 128 && (byte == d || byte == d + 128)
    ensures byte % 128 == d && value * 128 + d < ENCODABLE
    ensures (value * 128 + byte % 128) % 0x1_0000_0000 == value * 128 + d
  {
  }

  lemma GroupsUnfold(data: seq<Byte>, at: nat, count: nat, value: Word32)
    requires count < 5 && at + count < |data|
    ensures var byte := data[at + count];
            var v := (value * 128 + byte % 128) % 0x1_0000_0000;
            GroupsFrom(data, at, count, value)
            == if byte >= 128 then GroupsFrom(data, at, count + 1, v) else (v, count + 1)
  {
  }

  /** The values up to the first 0, which is kept. */
  function CutAfterZero(s: seq<Word32>): (r: seq<Word32>)
  {
    if s == [] then [] else [s[0]] + if s[0] == 0 then [] else CutAfterZero(s[1..])
  }

  lemma {:induction false} NothingCut(s: seq<Word32>)
    requires forall k :: 0 <= k < |s| - 1 ==> s[k] != 0
    ensures CutAfterZero(s) == s
  {
    if |s| > 1 {
      NothingCut(s[1..]);
      ConsSplit(s);
    } else if |s| == 1 {
      assert s[1..] == [];
      ConsSplit(s);
    }
  }

  /** psf_memdup fills a chunk up to a multiple of four with zero bytes. */
  function Padded(data: seq<Byte>): (r: seq<Byte>)
    ensures |r| % 4 == 0 && |data| <= |r| < |data| + 4 && r[..|data|] == data
    ensures forall i :: |data| <= i < |r| ==> r[i] == 0
  {
    data + seq((4 - |data| % 4) % 4, _ => 0)
  }

  /** Parsing where a table of entries lies, followed by zero bytes or nothing. */
  lemma {:induction false} ParseEntries(data: seq<Byte>, at: nat, sizes: seq<Word32>)
    requires Encodable(sizes) && at + |Entries(sizes)| <= |data|
    requires data[at..at + |Entries(sizes)|] == Entries(sizes)
    requires forall i :: at + |Entries(sizes)| <= i < |data| ==> data[i] == 0
    ensures Parse(data, at) == CutAfterZero(sizes + if at + |Entries(sizes)| < |data| then [0] else [])
    decreases |sizes|
  {
    hide GroupsFrom, Groups, Entries;
    var pad: seq<Word32> := if at + |Entries(sizes)| < |data| then [0] else [];
    if sizes == [] {
      EntriesNone();
      assert [] + pad == pad;
      if pad != [] { ParseZero(data, at); }
    } else {
      EntriesFirst(sizes);
      var n, rest := |Groups(sizes[0])|, Entries(sizes[1..]);
      FirstPart(data, at, Groups(sizes[0]), rest);
      GroupsBack(data, at, sizes[0]);
      ParseEntries(data, at + n, sizes[1..]);
      assert (sizes + pad)[1..] == sizes[1..] + pad;
    }
  }

  lemma EntriesNone()
    ensures Entries([]) == []
  {
  }

  lemma ParseZero(data: seq<Byte>, at: nat)
    requires at < |data| && data[at] == 0
    ensures Parse(data, at) == [0] == CutAfterZero([0])
  {
    assert GroupsFrom(data, at, 0, 0) == (0, 1);
  }

  lemma FirstPart<T>(data: seq<T>, at: nat, a: seq<T>, b: seq<T>)
    requires at + |a + b| <= |data| && data[at..at + |a + b|] == a + b
    ensures data[at..at + |a|] == a && data[at + |a|..at + |a| + |b|] == b
  {
    assert data[at..at + |a|] == data[at..at + |a + b|][..|a|];
    assert data[at + |a|..at + |a| + |b|] == data[at..at + |a + b|][|a|..];
  }

  // ----- What alac_pakt_encode makes of it -----

  /** The bytes of a table, padding included or not; no table, where a size needs more than 28
      bits; or a write past the end of the buffer that was allocated for it. */
  datatype TableBytes = Table(bytes: seq<Byte>) | Refused | Overrun

  /** The bytes allocated for a table. */
  function Allocated(count: nat): nat { 100 + 2 * count }

  /** The sizes in front of the first that needs more than 28 bits. */
  function EncodablePart(sizes: seq<Word32>): (r: seq<Word32>)
    ensures Encodable(r) && r <= sizes && (|r| < |sizes| ==> sizes[|r|] >= ENCODABLE)
  {
    if Encodable(sizes) then sizes else EncodablePart(sizes[..|sizes| - 1])
  }

  /** The buffer has room for that part behind the header. */
  predicate HasRoom(sizes: seq<Word32>)
  {
    HEADER_SIZE + |Entries(EncodablePart(sizes))| <= Allocated(|sizes|)
  }

  function Encoded(sizes: seq<Word32>, frames: int, partial: int): (r: TableBytes)
  {
    if !HasRoom(sizes) then Overrun
    else if !Encodable(sizes) then Refused
    else Table(Header(|sizes|, frames, partial) + Entries(sizes))
  }

  /** As it is saved: filled up to a multiple of four. */
  function Saved(table: TableBytes): TableBytes
  {
    if table.Table? then Table(Padded(table.bytes)) else table
  }

  lemma {:induction false} EntriesGrow(sizes: seq<Word32>, k: nat)
    requires k <= |sizes| && Encodable(sizes)
    ensures |Entries(sizes[..k])| <= |Entries(sizes)|
    decreases |sizes| - k
  {
    hide Entries;
    if k < |sizes| {
      EntriesOneMore(sizes, k);
      EntriesGrow(sizes, k + 1);
    } else {
      assert sizes[..k] == sizes;
    }
  }

  /** An encodable prefix is shorter than that part or is part of it. */
  lemma PartLength(sizes: seq<Word32>, k: nat)
    requires k <= |sizes| && Encodable(sizes[..k])
    ensures k <= |EncodablePart(sizes)| && EncodablePart(sizes)[..k] == sizes[..k]
    ensures k < |sizes| && sizes[k] >= ENCODABLE ==> EncodablePart(sizes) == sizes[..k]
  {
    var part := EncodablePart(sizes);
    forall i | 0 <= i < k ensures sizes[i] < ENCODABLE { assert sizes[..k][i] == sizes[i]; }
    if k < |part| { assert part[k] == sizes[k]; }
  }

  /** How many bytes more than two each the entries take, together. */
  function Excess(sizes: seq<Word32>): int
    requires Encodable(sizes)
  {
    if sizes == [] then 0 else Excess(sizes[..|sizes| - 1]) + |Groups(sizes[|sizes| - 1])| - 2
  }

  lemma {:induction false} EntriesLength(sizes: seq<Word32>)
    requires Encodable(sizes)
    ensures |Entries(sizes)| == 2 * |sizes| + Excess(sizes)
  {
    if sizes != [] { EntriesLength(sizes[..|sizes| - 1]); }
  }

  /** No entry is longer than four bytes. */
  lemma {:induction false} ExcessBound(sizes: seq<Word32>)
    requires Encodable(sizes)
    ensures Excess(sizes) <= 2 * |sizes|
  {
    if sizes != [] { ExcessBound(sizes[..|sizes| - 1]); }
  }

  /** Encodable sizes overrun the buffer exactly when those of three and four bytes, less those of
      one, exceed two bytes each by more than 76. */
  lemma RoomForEntries(sizes: seq<Word32>, frames: int, partial: int)
    requires Encodable(sizes)
    ensures Encoded(sizes, frames, partial).Table? <==> Excess(sizes) <= 76
    ensures Encoded(sizes, frames, partial).Overrun? <==> Excess(sizes) > 76
  {
    hide Entries, Header;
    EntriesLength(sizes);
  }

  /** Packets of one size. */
  lemma {:induction false} SameSizes(v: Word32, n: nat)
    requires v < ENCODABLE
    ensures Encodable(seq(n, _ => v)) && Excess(seq(n, _ => v)) == n * (|Groups(v)| - 2)
  {
    hide Groups;
    var sizes: seq<Word32> := seq(n, _ => v);
    if n > 0 {
      SameSizes(v, n - 1);
      assert sizes[..n - 1] == seq(n - 1, _ => v);
      OneMoreTimes(n, |Groups(v)| - 2);
    }
  }

  lemma OneMoreTimes(n: nat, x: int)
    ensures n * x == (n - 1) * x + x
  {
  }

  /** 76 packets of 16 KiB still fit, 77 do not. */
  lemma LongTableOverruns(frames: int, partial: int)
    ensures Encoded(seq(76, _ => 0x4000), frames, partial).Table?
    ensures Encoded(seq(77, _ => 0x4000), frames, partial) == Overrun
  {
    hide Encoded, Excess;
    SameSizes(0x4000, 76);
    SameSizes(0x4000, 77);
    RoomForEntries(seq(76, _ => 0x4000), frames, partial);
    RoomForEntries(seq(77, _ => 0x4000), frames, partial);
  }

  /** The table survives the chunk: every size comes back, up to a size of 0, and the padding,
      where there is any, adds one 0 at the end. */
  lemma {:induction false} TableRoundTrip(sizes: seq<Word32>, frames: int, partial: int)
    requires Encoded(sizes, frames, partial).Table?
    ensures var chunk := Encoded(sizes, frames, partial).bytes;
            Parse(Padded(chunk), HEADER_SIZE) == CutAfterZero(sizes + if |chunk| % 4 != 0 then [0] else [])
  {
    hide Header, Entries, Parse;
    var header, entries := Header(|sizes|, frames, partial), Entries(sizes);
    var data := Padded(header + entries);
    assert data[24..24 + |entries|] == entries;
    ParseEntries(data, HEADER_SIZE, sizes);
  }

  /** For the sizes a coder produces: nothing is lost. */
  lemma {:induction false} NonZeroTableRoundTrip(sizes: seq<Word32>, frames: int, partial: int)
    requires Encoded(sizes, frames, partial).Table? && forall k :: 0 <= k < |sizes| ==> sizes[k] != 0
    ensures var chunk := Encoded(sizes, frames, partial).bytes;
            Parse(Padded(chunk), HEADER_SIZE) == sizes + if |chunk| % 4 != 0 then [0] else []
  {
    hide Encoded, Parse;
    TableRoundTrip(sizes, frames, partial);
    NothingCut(sizes);
    NothingCut(sizes + [0]);
    assert sizes + [] == sizes;
  }

  /** The fields of the chunk's header as a reader of the header finds them. */
  lemma {:induction false} HeaderFields(sizes: seq<Word32>, frames: nat, partial: nat)
    requires Encoded(sizes, frames, partial).Table? && partial <= FRAME_LENGTH
    requires |sizes| < Pow256(8) && frames < Pow256(8)
    ensures var chunk := Encoded(sizes, frames, partial).bytes;
            && FromBig(chunk[..8]) == |sizes| && FromBig(chunk[8..16]) == frames
            && FromBig(chunk[16..20]) == 0 && FromBig(chunk[20..24]) == FRAME_LENGTH - partial
  {
    hide Entries, Header, FromBig, BigEndian, Pow256, HasRoom, Encodable;
    HeaderParts(|sizes|, frames, partial, Entries(sizes));
    BigEndianBack(|sizes|, 8);
    BigEndianBack(frames, 8);
    SmallMod(|sizes|, Pow256(8));
    SmallMod(frames, Pow256(8));
    Field32(0);
    Field32(FRAME_LENGTH - partial);
  }

  lemma SmallMod(x: nat, p: int)
    requires x < p
    ensures x % p == x
  {
  }

  lemma Field32(x: nat)
    requires x < 0x1_0000_0000
    ensures FromBig(BigEndian(x, 4)) == x
  {
    BigEndianBack(x, 4);
    Bytes4(x);
  }

  lemma HeaderParts(count: nat, frames: int, partial: int, rest: seq<Byte>)
    ensures var all := Header(count, frames, partial) + rest;
            && all[..8] == BigEndian(count, 8) && all[8..16] == BigEndian(frames, 8)
            && all[16..20] == BigEndian(0, 4) && all[20..24] == BigEndian(FRAME_LENGTH - partial, 4)
  {
    hide BigEndian;
    FourParts(BigEndian(count, 8), BigEndian(frames, 8), BigEndian(0, 4),
              BigEndian(FRAME_LENGTH - partial, 4), rest);
  }

  lemma FourParts(a: seq<Byte>, b: seq<Byte>, c: seq<Byte>, d: seq<Byte>, rest: seq<Byte>)
    requires |a| == |b| == 8 && |c| == |d| == 4
    ensures var all := a + b + c + d + rest;
            all[..8] == a && all[8..16] == b && all[16..20] == c && all[20..24] == d
  {
  }

  // ----- PAKT_INFO -----

  class PacketTable {
    var packetSize: array<Word32>
    var count: nat
    var current: nat

    ghost predicate Valid()
      reads this
    {
      current <= count <= packetSize.Length
    }

    ghost function Sizes(): (r: seq<Word32>)
      requires count <= packetSize.Length
      reads `count, `packetSize, packetSize
      ensures |r| == count
    {
      packetSize[..count]
    }

    /** alac_pakt_alloc */
    constructor Alloc(initialCount: nat)
      ensures Valid() && Sizes() == [] && current == 0 && packetSize.Length == initialCount && fresh(packetSize)
    {
      packetSize := new Word32[initialCount](_ => 0);
      count, current := 0, 0;
    }

    /** alac_pakt_append. Growing by half gains room only from two entries on; tables are
        allocated with more. */
    method Append(value: Word32)
      requires Valid() && (count < packetSize.Length || packetSize.Length >= 2)
      modifies this, packetSize
      ensures Valid() && Sizes() == old(Sizes()) + [value] && current == old(current)
      ensures packetSize.Length >= old(packetSize.Length) && (packetSize == old(packetSize) || fresh(packetSize))
    {
      if count >= packetSize.Length {
        var newcount := packetSize.Length + packetSize.Length / 2;
        var old_size := packetSize;
        var temp := new Word32[newcount](i => 0);
        forall i | 0 <= i < old_size.Length { temp[i] := old_size[i]; }
        assert temp[..count] == packetSize[..count];
        packetSize := temp;
      }
      ghost var before := packetSize[..count];
      packetSize[count] := value;
      assert packetSize[..count] == before;
      count := count + 1;
    }

    /** alac_reader_next_packet_size: 0 past the end. */
    method NextPacketSize() returns (size: Word32)
      requires Valid()
      modifies this`current
      ensures Valid()
      ensures old(current) < count ==> size == Sizes()[old(current)] && current == old(current) + 1
      ensures old(current) >= count ==> size == 0 && current == old(current)
    {
      if current >= count {
        return 0;
      }
      size := packetSize[current];
      current := current + 1;
    }

    /** alac_pakt_block_offset: the bytes before packet `block`. */
    method BlockOffset(block: nat) returns (offset: nat)
      requires Valid() && block <= count
      ensures offset == Sum(Sizes()[..block])
    {
      offset := 0;
      var k := 0;
      assert Sizes()[..0] == [];
      while k < block
        invariant k <= block && offset == Sum(Sizes()[..k])
      {
        SumOneMore(Sizes(), k);
        offset := offset + packetSize[k];
        k := k + 1;
      }
    }

    /** alac_pakt_encode */
    method Encode(frames: int, partial: int) returns (table: TableBytes)
      requires Valid()
      ensures table == Encoded(Sizes(), frames, partial)
    {
      hide Header, Entries, Groups;
      ghost var sizes := Sizes();
      var header := Header(count, frames, partial);
      var data := new Byte[Allocated(count)](i => if 0 <= i < HEADER_SIZE then header[i] else 0);
      var paktSize: nat, k: nat := HEADER_SIZE, 0;
      EntriesNone();
      assert data[..paktSize] == header + [];
      while k < count
        invariant k <= count && Encodable(sizes[..k]) && paktSize <= data.Length
        invariant data[..paktSize] == header + Entries(sizes[..k])
      {
        var value := packetSize[k];
        assert value == sizes[k] && paktSize == |header| + |Entries(sizes[..k])|;
        PartLength(sizes, k);
        EntriesGrow(EncodablePart(sizes), k);
        if value >= ENCODABLE {
          return Refused;
        }
        NextEntry(sizes, header, k);
        var fits, next := StoreGroups(value, data, paktSize);
        if !fits {
          PartLength(sizes, k + 1);
          EntriesGrow(EncodablePart(sizes), k + 1);
          return Overrun;
        }
        paktSize, k := next, k + 1;
      }
      assert sizes[..k] == sizes;
      table := Table(data[..paktSize]);
    }

    /** alac_pakt_read_decode on a chunk of `paktSize` bytes. The buffer is five bytes longer and
        what lies in those does not matter. */
    constructor ReadDecode(data: array<Byte>, paktSize: nat)
      requires data.Length == paktSize + 5
      ensures Valid() && Sizes() == Parse(data[..paktSize], HEADER_SIZE) && current == 0 && fresh(packetSize)
    {
      packetSize := new Word32[paktSize / 4](_ => 0);
      count, current := 0, 0;
      new;
      ReadEntries(data, paktSize);
    }

    method ReadEntries(data: array<Byte>, paktSize: nat)
      requires Valid() && data.Length == paktSize + 5 && packetSize.Length == paktSize / 4 && count == 0
      requires data as object != packetSize as object
      modifies this, packetSize
      ensures Valid() && Sizes() == Parse(data[..paktSize], HEADER_SIZE) && current == old(current)
      ensures packetSize == old(packetSize) || fresh(packetSize)
    {
      hide GroupsFrom, Parse, Scanned;
      ghost var bytes := data[..paktSize];
      var bcount, value: Word32 := 24, 1;
      ScanStart(bytes);
      while bcount < paktSize && value != 0
        invariant Valid() && (packetSize == old(packetSize) || fresh(packetSize)) && current == old(current)
        invariant data[..paktSize] == bytes && (bcount < paktSize ==> packetSize.Length >= 2)
        invariant Scanned(bytes, Sizes(), value, bcount)
        decreases paktSize - bcount
      {
        ghost var before := Sizes();
        var n;
        ScanNext(bytes, before, value, bcount);
        value, n := ReadGroups(data, paktSize, bcount);
        bcount := bcount + n;
        Append(value);
      }
      ScanEnd(bytes, Sizes(), value, bcount);
    }
  }

  /** The sizes so far are what parsing gives before `at`; a value of 0 ends it. */
  predicate Scanned(data: seq<Byte>, sizes: seq<Word32>, value: Word32, at: nat)
  {
    Parse(data, HEADER_SIZE) == sizes + if value == 0 then [] else Parse(data, at)
  }

  lemma ScanStart(data: seq<Byte>)
    ensures Scanned(data, [], 1, HEADER_SIZE)
  {
    hide Parse;
    EmptyFirst([], Parse(data, HEADER_SIZE));
  }

  lemma ScanNext(data: seq<Byte>, sizes: seq<Word32>, value: Word32, at: nat)
    requires Scanned(data, sizes, value, at) && value != 0 && at < |data|
    ensures var g := GroupsFrom(data, at, 0, 0); Scanned(data, sizes + [g.0], g.0, at + g.1)
  {
    hide GroupsFrom, Parse;
    var g := GroupsFrom(data, at, 0, 0);
    ParseNext(data, at);
    ConcatAssoc(sizes, [g.0], if g.0 == 0 then [] else Parse(data, at + g.1));
  }

  lemma ParseNext(data: seq<Byte>, at: nat)
    requires at < |data|
    ensures var g := GroupsFrom(data, at, 0, 0);
            Parse(data, at) == [g.0] + if g.0 == 0 then [] else Parse(data, at + g.1)
  {
    hide GroupsFrom;
  }

  lemma ScanEnd(data: seq<Byte>, sizes: seq<Word32>, value: Word32, at: nat)
    requires Scanned(data, sizes, value, at) && (at >= |data| || value == 0)
    ensures Parse(data, HEADER_SIZE) == sizes
  {
    EmptyLast(sizes, []);
  }

  lemma NextEntry(sizes: seq<Word32>, header: seq<Byte>, k: nat)
    requires k < |sizes| && Encodable(sizes[..k]) && sizes[k] < ENCODABLE
    ensures Encodable(sizes[..k + 1])
    ensures header + Entries(sizes[..k + 1]) == header + Entries(sizes[..k]) + Groups(sizes[k])
  {
    hide Entries, Groups;
    assert sizes[..k + 1][..k] == sizes[..k] && sizes[..k + 1][..k + 1] == sizes[..k + 1];
    EntriesOneMore(sizes[..k + 1], k);
    ConcatAssoc(header, Entries(sizes[..k]), Groups(sizes[k]));
  }

  /** The four branches of alac_pakt_encode for one size, as far as the buffer reaches. */
  method StoreGroups(value: Word32, data: array<Byte>, at: nat) returns (fits: bool, next: nat)
    requires value < ENCODABLE && at <= data.Length
    modifies data
    ensures fits == (at + |Groups(value)| <= data.Length)
    ensures fits ==> next == at + |Groups(value)|
    ensures fits ==> data[..at + |Groups(value)|] == old(data[..at]) + Groups(value)
  {
    if value < 0x80 {
      next := at + 1;
      fits := next <= data.Length;
      if fits { data[at] := value; }
    } else if value < 0x4000 {
      next := at + 2;
      fits := next <= data.Length;
      if fits { data[at], data[at + 1] := value / 0x80 + 0x80, value % 0x80; }
    } else if value < 0x20_0000 {
      next := at + 3;
      fits := next <= data.Length;
      if fits {
        data[at], data[at + 1], data[at + 2] := value / 0x4000 + 0x80, value / 0x80 % 0x80 + 0x80, value % 0x80;
      }
    } else {
      next := at + 4;
      fits := next <= data.Length;
      if fits {
        data[at], data[at + 1] := value / 0x20_0000 + 0x80, value / 0x4000 % 0x80 + 0x80;
        data[at + 2], data[at + 3] := value / 0x80 % 0x80 + 0x80, value % 0x80;
      }
    }
  }

  /** The inner loop of alac_pakt_read_decode. */
  method ReadGroups(data: array<Byte>, paktSize: nat, bcount: nat) returns (value: Word32, count: nat)
    requires data.Length == paktSize + 5 && bcount < paktSize
    ensures (value, count) == GroupsFrom(data[..paktSize], bcount, 0, 0)
    ensures 0 < count <= 6
  {
    ghost var bytes := data[..paktSize];
    value, count := 0, 0;
    while true
      invariant count <= 5 && bcount + count <= paktSize
      invariant GroupsFrom(bytes, bcount, 0, 0) == GroupsFrom(bytes, bcount, count, value)
      decreases 6 - count
    {
      var byte := data[bcount + count];
      value := (value * 128 + byte % 128) % 0x1_0000_0000;
      count := count + 1;
      if count > 5 || bcount + count > paktSize {
        value := 0;
        return;
      }
      if byte < 128 {
        return;
      }
    }
  }

  /** One size of each length. */
  lemma {:induction false} FourSizes()
    ensures Entries([100, 200, 20000, 3000000])
         == [0x64] + [0x81, 0x48] + [0x81, 0x9C, 0x20] + [0x81, 0xB7, 0x8D, 0x40]
  {
    hide Entries, Groups;
    var sizes: seq<Word32> := [100, 200, 20000, 3000000];
    SizeGroups();
    NoEntries();
    EntriesOneMore(sizes, 0);
    EntriesOneMore(sizes, 1);
    EntriesOneMore(sizes, 2);
    EntriesOneMore(sizes, 3);
    assert sizes[..0] == [] && sizes[..4] == sizes;
  }

  lemma NoEntries()
    ensures Entries([]) == []
  {
  }

  lemma SizeGroups()
    ensures Groups(100) == [0x64] && Groups(200) == [0x81, 0x48] && Groups(20000) == [0x81, 0x9C, 0x20]
    ensures Groups(3000000) == [0x81, 0xB7, 0x8D, 0x40]
  {
  }
}
