/** put_key_value, caf_write_strings and caf_read_strings. */
module CafInfo {
  import opened Bits
  import opened Wrappers
  import opened CafStrings
  import opened HeaderRoom
  import opened HeaderFormat
  import opened Header
  import opened Endian
  import HeaderPrint

  /** struct put_buffer */
  class PutBuffer {
    var index: nat
    const s: array<Byte>

    ghost predicate Valid()
      reads this
    {
      s.Length == CAPACITY && index < CAPACITY
    }

    ghost function Contents(): seq<Byte>
      requires Valid()
      reads this, s
    {
      s[..index]
    }

    constructor ()
      ensures Valid() && Contents() == [] && fresh(s)
    {
      s := new Byte[CAPACITY](_ => 0);
      index := 0;
    }

    /** snprintf behind the index: what does not fit in front of the terminator is cut off. */
    method Print(text: seq<Byte>) returns (written: nat)
      requires Valid()
      modifies s
      ensures written == |text| && Contents() == old(Contents())
      ensures index + |text| < CAPACITY ==> s[index..index + |text|] == text
    {
      ghost var before := s[..index];
      var n := if index + |text| < CAPACITY then |text| else CAPACITY - index - 1;
      forall k | 0 <= k < n { s[index + k] := text[k]; }
      assert s[..index] == before;
      assert s[index..index + n] == text[..n];
      s[index + n] := 0;
      assert s[..index] == before;
      assert n == |text| ==> s[index..index + n] == text[..n] == text;
      written := |text|;
    }

    /** put_key_value */
    method PutKeyValue(key: Text, value: Text) returns (count: nat)
      requires Valid()
      modifies this`index, s
      ensures Valid()
      ensures if |old(Contents())| + |PairBytes(Pair(key, value))| < CAPACITY
              then count == 1 && Contents() == old(Contents()) + PairBytes(Pair(key, value))
              else count == 0 && Contents() == old(Contents())
    {
      if index + |key| + |value| + 2 > CAPACITY {
        return 0;
      }
      var written := Print(key + [0] + value + [0]);
      if index + written >= CAPACITY {
        return 0;
      }
      assert s[..index + written] == s[..index] + s[index..index + written];
      index := index + written;
      count := 1;
    }
  }

  // ----- The writer -----

  /** A string set on the file, with where in the file it belongs. */
  datatype Entry = Entry(tag: Tag, location: int, text: Text)

  /** get_string: the first entry of that type, wherever it belongs. */
  function Lookup(entries: seq<Entry>, tag: Tag): (r: Option<Text>)
    ensures (exists k :: 0 <= k < |entries| && entries[k].tag == tag) ==> r.Some?
  {
    if entries == [] then None
    else if entries[0].tag == tag then Some(entries[0].text)
    else LookupRest(entries, tag); Lookup(entries[1..], tag)
  }

  lemma LookupRest(entries: seq<Entry>, tag: Tag)
    requires entries != [] && entries[0].tag != tag
    ensures (exists k :: 0 <= k < |entries| && entries[k].tag == tag)
            ==> (exists k :: 0 <= k < |entries[1..]| && entries[1..][k].tag == tag)
  {
    if k :| 0 <= k < |entries| && entries[k].tag == tag {
      assert entries[1..][k - 1].tag == tag;
    }
  }

  /** What is found is the text of the first entry with that tag, and nothing only if there is none. */
  lemma {:induction false} LookupFirst(entries: seq<Entry>, tag: Tag, k: nat)
    requires k <= |entries| && forall j :: 0 <= j < k ==> entries[j].tag != tag
    requires k < |entries| ==> entries[k].tag == tag
    ensures Lookup(entries, tag) == if k < |entries| then Some(entries[k].text) else None
    decreases k
  {
    if k > 0 {
      forall j | 0 <= j < k - 1 ensures entries[1..][j].tag != tag { assert entries[1..][j] == entries[j + 1]; }
      LookupFirst(entries[1..], tag, k - 1);
    }
  }

  function KeyOf(tag: Tag): (r: Text)
  {
    KeyIsText(tag);
    Ascii(KeyString(tag))
  }

  lemma KeyIsText(tag: Tag)
    ensures 0 !in Ascii(KeyString(tag))
  {
    var s := KeyString(tag);
    forall i | 0 <= i < |s| ensures 0 < s[i] as int < 128 {
    }
  }

  /** The pairs for one location, of the first `n` entries. */
  function Tagged(entries: seq<Entry>, location: int, n: nat): (r: seq<Pair>)
    requires n <= |entries|
  {
    if n == 0 then []
    else
      var before, e := Tagged(entries, location, n - 1), entries[n - 1];
      if e.location == location then before + [Pair(KeyOf(e.tag), Lookup(entries, e.tag).value)] else before
  }

  const INFO_MARKER := 0x6F66_6E69

  /** The chunk as format items: marker, size, count, pairs. */
  function InfoItems(pairs: seq<Pair>): (r: seq<Item>)
  {
    [Switch(true), Marker(INFO_MARKER), Number(8, |Packed(pairs)| + 4), Number(4, |pairs|), Raw(Packed(pairs))]
  }

  /** caf_write_strings: nothing at all when no pair is kept. */
  method WriteStrings(entries: seq<Entry>, location: int) returns (items: seq<Item>)
    ensures var pairs := Fitting(Tagged(entries, location, |entries|));
            items == if pairs == [] then [] else InfoItems(pairs)
  {
    hide Packed, KeyString, Ascii, Lookup, PairBytes, Tagged, Fitting, KeyOf;
    var buf := new PutBuffer();
    var stringCount, k := 0, 0;
    NothingPacked();
    NothingTagged(entries, location);
    while k < |entries|
      invariant k <= |entries| && fresh(buf) && fresh(buf.s) && buf.Valid()
      invariant buf.Contents() == Packed(Fitting(Tagged(entries, location, k)))
      invariant stringCount == |Fitting(Tagged(entries, location, k))|
    {
      TaggedOneMore(entries, location, k);
      if entries[k].location == location {
        var text := Lookup(entries, entries[k].tag).value;
        ghost var before, p := Tagged(entries, location, k), Pair(KeyOf(entries[k].tag), text);
        FittingOneMore(before, p);
        PackedOneMore(Fitting(before), p);
        var n := buf.PutKeyValue(KeyOf(entries[k].tag), text);
        stringCount := stringCount + n;
      }
      k := k + 1;
    }
    ghost var pairs := Fitting(Tagged(entries, location, |entries|));
    if pairs != [] { PackedNonEmpty(pairs); }
    if stringCount == 0 || buf.index == 0 {
      return [];
    }
    items := [Switch(true), Marker(INFO_MARKER), Number(8, buf.index + 4),
              Number(4, stringCount), Raw(buf.s[..buf.index])];
  }

  lemma NothingTagged(entries: seq<Entry>, location: int)
    ensures Fitting(Tagged(entries, location, 0)) == []
  {
  }

  /** Strings for another place stay out of the chunk: leaving them away changes nothing. */
  lemma {:induction false} OtherPlaces(entries: seq<Entry>, location: int, n: nat)
    requires n <= |entries| && forall k :: 0 <= k < n ==> entries[k].location != location
    ensures Tagged(entries, location, n) == []
  {
    if n > 0 { OtherPlaces(entries, location, n - 1); }
  }

  lemma TaggedOneMore(entries: seq<Entry>, location: int, k: nat)
    requires k < |entries|
    ensures Tagged(entries, location, k + 1)
         == if entries[k].location != location then Tagged(entries, location, k)
            else Tagged(entries, location, k) + [Pair(KeyOf(entries[k].tag), Lookup(entries, entries[k].tag).value)]
  {
    hide KeyOf, Lookup;
  }

  lemma FittingOneMore(before: seq<Pair>, p: Pair)
    ensures Fitting(before + [p])
         == if |Packed(Fitting(before))| + |PairBytes(p)| < CAPACITY then Fitting(before) + [p] else Fitting(before)
  {
    assert (before + [p])[..|before|] == before;
  }

  lemma PackedNonEmpty(pairs: seq<Pair>)
    requires pairs != []
    ensures |Packed(pairs)| >= 2
  {
  }

  // ----- The reader -----

  /** strlen */
  method StrLen(buf: array<Byte>, at: nat) returns (n: nat)
    requires buf.Length > 0 && buf[buf.Length - 1] == 0 && at < buf.Length
    ensures n == Length(buf[..], at) && at + n < buf.Length
  {
    n := 0;
    while buf[at + n] != 0
      invariant at + n < buf.Length && Length(buf[..], at) == n + Length(buf[..], at + n)
      decreases buf.Length - n
    {
      n := n + 1;
    }
  }

  /** What the reader's switch stores: the values of the keys it knows, by tag. */
  function Known(pairs: seq<Pair>): (r: seq<(Tag, Text)>)
  {
    if pairs == [] then []
    else
      var p := pairs[|pairs| - 1];
      Known(pairs[..|pairs| - 1])
      + match TagOfHash(Hash(p.key, |p.key|)) case None => [] case Some(tag) => [(tag, p.value)]
  }

  /** One turn of the reader's loop, up to the move to the next key. */
  method NextPair(buf: array<Byte>, key: nat) returns (found: bool, p: Pair, next: nat)
    requires buf.Length > 0 && buf[buf.Length - 1] == 0 && key < buf.Length - 1
    ensures found ==> key < next && Scan(buf[..], key) == [p] + Scan(buf[..], next)
    ensures !found ==> Scan(buf[..], key) == []
  {
    hide Length, Scan, TextAt;
    var n := StrLen(buf, key);
    var value := key + n + 1;
    ScanStep(buf[..], key);
    p, next := Pair([], []), value;
    if value > buf.Length - 1 {
      return false, p, next;
    }
    var m := StrLen(buf, value);
    TextSlice(buf[..], key, n);
    TextSlice(buf[..], value, m);
    SameSlices(buf, key, n);
    SameSlices(buf, value, m);
    p := Pair(buf[key..key + n], buf[value..value + m]);
    next := value + m + 1;
    found := true;
  }

  lemma ScanStep(s: seq<Byte>, key: nat)
    requires s != [] && s[|s| - 1] == 0 && key < |s| - 1
    ensures var value := key + Length(s, key) + 1;
            if value > |s| - 1 then Scan(s, key) == []
            else Scan(s, key) == [Pair(TextAt(s, key), TextAt(s, value))] + Scan(s, value + Length(s, value) + 1)
  {
    hide Length, TextAt;
  }

  lemma TextSlice(s: seq<Byte>, at: nat, n: nat)
    requires at <= |s| && n == Length(s, at)
    ensures TextAt(s, at) == s[at..at + n]
  {
    hide Length;
  }

  lemma SameSlices(buf: array<Byte>, at: nat, n: nat)
    requires at + n <= buf.Length
    ensures buf[at..at + n] == buf[..][at..at + n]
  {
  }

  /** caf_read_strings on a chunk body. */
  method ReadStrings(data: seq<Byte>) returns (stored: seq<(Tag, Text)>)
    ensures stored == Known(Scan(data + [0], 0))
  {
    hide Scan, Hash, TagOfHash, Known;
    var chunkSize := |data|;
    var buf := new Byte[chunkSize + 1](i => if 0 <= i < |data| then data[i] else 0);
    ghost var s := data + [0];
    assert buf[..] == s;
    var key := 0;
    stored := [];
    ghost var pairs: seq<Pair> := [];
    EmptyFirst([], Scan(s, 0));
    NothingKnown();
    while key < chunkSize
      invariant buf[..] == s && Scan(s, 0) == pairs + Scan(s, key) && stored == Known(pairs)
      decreases chunkSize - key
    {
      var found, p, next := NextPair(buf, key);
      if !found {
        EmptyLast(pairs, Scan(s, key));
        return;
      }
      ConcatAssoc(pairs, [p], Scan(s, next));
      KnownOneMore(pairs, p);
      match TagOfHash(Hash(p.key, |p.key|)) {
        case Some(tag) => stored := stored + [(tag, p.value)];
        case None => EmptyLast(stored, []);
      }
      pairs := pairs + [p];
      key := next;
    }
    ScanEnds(s, key);
    EmptyLast(pairs, Scan(s, key));
  }

  lemma ScanEnds(s: seq<Byte>, key: nat)
    requires s != [] && s[|s| - 1] == 0 && key >= |s| - 1
    ensures Scan(s, key) == []
  {
  }

  lemma NothingKnown()
    ensures Known([]) == []
  {
  }

  lemma KnownOneMore(pairs: seq<Pair>, p: Pair)
    ensures Known(pairs + [p])
         == Known(pairs) + match TagOfHash(Hash(p.key, |p.key|)) case None => [] case Some(tag) => [(tag, p.value)]
  {
    assert (pairs + [p])[..|pairs|] == pairs;
  }

  // ----- There and back -----

  /** The tag and text of every entry for one location, as far as their pairs fit. */
  function Values(pairs: seq<Pair>, tags: seq<Tag>): (r: seq<(Tag, Text)>)
    requires |pairs| == |tags|
  {
    seq(|pairs|, k requires 0 <= k < |pairs| => (tags[k], pairs[k].value))
  }

  /** Pairs under the library's own keys are all known to the reader, each by its tag. */
  lemma {:induction false} KnownByTag(pairs: seq<Pair>, tags: seq<Tag>)
    requires |pairs| == |tags| && forall k :: 0 <= k < |pairs| ==> pairs[k].key == KeyOf(tags[k])
    ensures Known(pairs) == Values(pairs, tags)
  {
    hide Hash, TagOfHash, KeyString, Ascii;
    if pairs != [] {
      var last := |pairs| - 1;
      KnownByTag(pairs[..last], tags[..last]);
      TagBack(tags[last]);
      AsciiLength(KeyString(tags[last]));
      assert Values(pairs, tags) == Values(pairs[..last], tags[..last]) + [(tags[last], pairs[last].value)];
    }
  }

  lemma AsciiLength(s: string)
    ensures |Ascii(s)| == |s|
  {
  }

  /** The tags of the pairs that fit. */
  function FittingTags(entries: seq<Entry>, location: int, n: nat): (r: seq<Tag>)
    requires n <= |entries|
    ensures |r| == |Fitting(Tagged(entries, location, n))|
    ensures forall k :: 0 <= k < |r| ==> Fitting(Tagged(entries, location, n))[k].key == KeyOf(r[k])
  {
    hide Packed, PairBytes, Lookup, KeyOf, Fitting, Tagged;
    NothingTagged(entries, location);
    if n == 0 then []
    else
      TaggedOneMore(entries, location, n - 1);
      var before, e := FittingTags(entries, location, n - 1), entries[n - 1];
      if e.location != location then before
      else
        var p := Pair(KeyOf(e.tag), Lookup(entries, e.tag).value);
        FittingOneMore(Tagged(entries, location, n - 1), p);
        if |Packed(Fitting(Tagged(entries, location, n - 1)))| + |PairBytes(p)| < CAPACITY
        then before + [e.tag] else before
  }

  /** No tag twice, and all for one location. */
  predicate Distinct(entries: seq<Entry>, location: int)
  {
    && (forall k :: 0 <= k < |entries| ==> entries[k].location == location)
    && (forall j, k :: 0 <= j < k < |entries| ==> entries[j].tag != entries[k].tag)
  }

  /** Bytes of the first `n` texts with their keys and terminators. */
  function TextSize(entries: seq<Entry>, n: nat): nat
    requires n <= |entries|
  {
    if n == 0 then 0 else TextSize(entries, n - 1) + |KeyString(entries[n - 1].tag)| + |entries[n - 1].text| + 2
  }

  function Plain(entries: seq<Entry>, n: nat): seq<(Tag, Text)>
    requires n <= |entries|
  {
    seq(n, k requires 0 <= k < n => (entries[k].tag, entries[k].text))
  }

  /** Of such entries nothing is changed: the pairs that fit are the tags and texts themselves, in
      order, and they all fit if they take less than the whole buffer. */
  lemma {:induction false} PlainStrings(entries: seq<Entry>, location: int, n: nat)
    requires n <= |entries| && Distinct(entries, location) && TextSize(entries, n) < CAPACITY
    ensures |Packed(Tagged(entries, location, n))| == TextSize(entries, n)
    ensures Fitting(Tagged(entries, location, n)) == Tagged(entries, location, n)
    ensures Values(Fitting(Tagged(entries, location, n)), FittingTags(entries, location, n)) == Plain(entries, n)
    decreases n
  {
    hide Lookup, KeyOf, KeyString, Fitting, Packed, PairBytes, Tagged, FittingTags, Values, Plain, Distinct;
    if n == 0 {
      NothingTagged(entries, location);
      NoText(entries, location);
    } else {
      PlainStrings(entries, location, n - 1);
      TaggedOneMore(entries, location, n - 1);
      OwnText(entries, location, n - 1);
      var before, e := Tagged(entries, location, n - 1), entries[n - 1];
      var p := Pair(KeyOf(e.tag), e.text);
      KeyLength(e.tag);
      PackedOneMore(before, p);
      FittingOneMore(before, p);
      FittingTagsOneMore(entries, location, n - 1);
      ValuesOneMore(before, FittingTags(entries, location, n - 1), p, e.tag);
      PlainOneMore(entries, n - 1);
    }
  }

  lemma OwnText(entries: seq<Entry>, location: int, k: nat)
    requires k < |entries| && Distinct(entries, location)
    ensures entries[k].location == location && Lookup(entries, entries[k].tag) == Some(entries[k].text)
  {
    LookupFirst(entries, entries[k].tag, k);
  }

  lemma ValuesOneMore(pairs: seq<Pair>, tags: seq<Tag>, p: Pair, tag: Tag)
    requires |pairs| == |tags|
    ensures Values(pairs + [p], tags + [tag]) == Values(pairs, tags) + [(tag, p.value)]
  {
  }

  lemma PlainOneMore(entries: seq<Entry>, n: nat)
    requires n < |entries|
    ensures Plain(entries, n + 1) == Plain(entries, n) + [(entries[n].tag, entries[n].text)]
  {
  }

  lemma NoText(entries: seq<Entry>, location: int)
    ensures Tagged(entries, location, 0) == [] && Packed([]) == [] && FittingTags(entries, location, 0) == []
    ensures Values([], []) == [] && Plain(entries, 0) == []
  {
  }

  lemma KeyLength(tag: Tag)
    ensures |KeyOf(tag)| == |KeyString(tag)|
  {
  }

  lemma FittingTagsOneMore(entries: seq<Entry>, location: int, n: nat)
    requires n < |entries| && entries[n].location == location
    ensures var p := Pair(KeyOf(entries[n].tag), Lookup(entries, entries[n].tag).value);
            FittingTags(entries, location, n + 1)
            == if |Packed(Fitting(Tagged(entries, location, n)))| + |PairBytes(p)| < CAPACITY
               then FittingTags(entries, location, n) + [entries[n].tag] else FittingTags(entries, location, n)
  {
    hide Packed, PairBytes, Lookup, KeyOf, Fitting, Tagged;
  }

  // ----- The chunk in the header -----

  /** What the reader of chunks asks for first: marker and size. */
  function SizeItems(pairs: seq<Pair>): (r: seq<Item>)
  {
    [Marker(INFO_MARKER), Switch(true), Number(8, |Packed(pairs)| + 4)]
  }

  /** And then: the number of pairs and their bytes. */
  function BodyItems(pairs: seq<Pair>): (r: seq<Item>)
  {
    [Switch(true), Number(4, |pairs|), Raw(Packed(pairs))]
  }

  lemma PrintSize(pairs: seq<Pair>, big: bool)
    ensures Print(SizeItems(pairs), big) == LittleEndian(INFO_MARKER, 4) + BigEndian(|Packed(pairs)| + 4, 8)
  {
    hide Packed, Print, OrderAfter, BigEndian, LittleEndian;
    assert SizeItems(pairs)[..3] == SizeItems(pairs);
    HeaderPrint.PrintThree(SizeItems(pairs), big);
    EmptyLast(LittleEndian(INFO_MARKER, 4), []);
  }

  lemma PrintBody(pairs: seq<Pair>, big: bool)
    ensures Print(BodyItems(pairs), big) == BigEndian(|pairs|, 4) + Packed(pairs) && OrderAfter(BodyItems(pairs), big)
  {
    hide Packed, Print, OrderAfter, BigEndian, LittleEndian;
    assert BodyItems(pairs)[..3] == BodyItems(pairs);
    HeaderPrint.PrintThree(BodyItems(pairs), big);
    EmptyFirst([], BigEndian(|pairs|, 4));
  }

  lemma PrintInfo(pairs: seq<Pair>, big: bool)
    ensures OrderAfter(InfoItems(pairs), big)
    ensures Print(InfoItems(pairs), big)
         == LittleEndian(INFO_MARKER, 4) + BigEndian(|Packed(pairs)| + 4, 8) + BigEndian(|pairs|, 4) + Packed(pairs)
  {
    hide Packed, Print, OrderAfter, RoomAfter, Room, BigEndian, LittleEndian;
    var items := InfoItems(pairs);
    assert items[..5] == items;
    HeaderPrint.PrintThree(items, big);
    EmptyFirst([], LittleEndian(INFO_MARKER, 4));
    OneMoreItem(items, 0, 0, big, true, 3);
    OneMoreItem(items, 0, 0, big, true, 4);
  }

  /** The writer's one format prints what the reader's two formats expect, in any byte order. */
  lemma SplitFormat(pairs: seq<Pair>, big1: bool, big2: bool)
    ensures Print(InfoItems(pairs), false) == Print(SizeItems(pairs), big1) + Print(BodyItems(pairs), big2)
    ensures |Print(SizeItems(pairs), big1)| == 12 && |Print(BodyItems(pairs), big2)| == 4 + |Packed(pairs)|
  {
    hide Packed, Print, InfoItems, SizeItems, BodyItems, BigEndian, LittleEndian;
    PrintInfo(pairs, false);
    PrintSize(pairs, big1);
    PrintBody(pairs, big2);
    ConcatAssoc(LittleEndian(INFO_MARKER, 4) + BigEndian(|Packed(pairs)| + 4, 8), BigEndian(|pairs|, 4), Packed(pairs));
  }

  /** The file holds the chunk at the logical position, within the first 50 KiB. */
  ghost predicate InfoAhead(h: HeaderBuffer, pairs: seq<Pair>)
    reads h, h.ptr
  {
    var bytes := Print(InfoItems(pairs), false);
    && h.Valid() && h.Coherent() && |Packed(pairs)| < CAPACITY && h.indx + |bytes| <= |h.file|
    && h.file[h.indx..h.indx + |bytes|] == bytes && h.indx + |bytes| + 16 <= CAP / 2
  }

  /** The `info` branch of caf_read_header with caf_read_strings behind it. `pairs` are what the
      chunk is expected to hold. */
  method ReadInfo(h: HeaderBuffer, ghost pairs: seq<Pair>) returns (stored: Option<seq<(Tag, Text)>>)
    requires h.Valid()
    modifies h`ptr, h`indx, h`end, h`pos, h`bigEndian, h.ptr
    ensures h.Valid() && (h.ptr == old(h.ptr) || fresh(h.ptr))
    ensures old(InfoAhead(h, pairs)) && pairs != [] ==> stored == Some(Known(Scan(Packed(pairs) + [0], 0)))
  {
    hide Print, RoomAfter, AllKept, Packed, InfoItems, SizeItems, BodyItems, Known, Scan;
    ghost var expected := InfoAhead(h, pairs) && pairs != [];
    if expected {
      PackedNonEmpty(pairs);
      SizeAhead(h, pairs);
    }
    SizeFields(pairs);
    var n, head := HeaderPrint.Readf(h, [Tag, Order(true), Digit(8)], SizeItems(pairs));
    if |head| != 3 || !head[0].Marker? || !head[2].Number? || head[0].x != INFO_MARKER {
      return None;
    }
    var chunkSize := head[2].x;
    if chunkSize < 4 || chunkSize > |h.file| - h.indx {
      return None;
    }
    if chunkSize == 4 {
      return Some([]);
    }
    if expected { BodyAhead(h, pairs, old(h.indx)); }
    var strings := ReadBody(h, chunkSize - 4, pairs);
    stored := Some(strings);
  }

  /** caf_read_strings: the number of pairs and their bytes, and what is stored of them. */
  method ReadBody(h: HeaderBuffer, size: nat, ghost pairs: seq<Pair>) returns (stored: seq<(Tag, Text)>)
    requires h.Valid()
    modifies h`ptr, h`indx, h`end, h`pos, h`bigEndian, h.ptr
    ensures h.Valid() && (h.ptr == old(h.ptr) || fresh(h.ptr))
    ensures old(HeaderPrint.AllAhead(h, BodyItems(pairs))) && size == |Packed(pairs)| ==>
              && stored == Known(Scan(Packed(pairs) + [0], 0)) && h.Coherent()
              && h.indx == old(h.indx) + |Print(BodyItems(pairs), old(h.bigEndian))|
              && Some(h.ptr.Length)
                 == RoomAfter(BodyItems(pairs), old(h.indx), old(h.ptr.Length), old(h.bigEndian), false)
              && h.bigEndian == OrderAfter(BodyItems(pairs), old(h.bigEndian))
              && (old(h.indx) == old(h.end) ==> h.indx == h.end)
  {
    hide Print, RoomAfter, OrderAfter, AllKept, Packed, BodyItems, Known, Scan;
    BodyFields(pairs);
    var _, body := HeaderPrint.Readf(h, [Order(true), Digit(4), Block(size)], BodyItems(pairs));
    if |body| != 3 || !body[2].Raw? {
      return [];
    }
    stored := ReadStrings(body[2].data);
  }

  lemma SizeFields(pairs: seq<Pair>)
    ensures Fields(SizeItems(pairs)) == [Tag, Order(true), Digit(8)]
    ensures |Packed(pairs)| < CAPACITY ==> AllKept(SizeItems(pairs)) == SizeItems(pairs)
    ensures SizeItems(pairs)[0] == Marker(INFO_MARKER) && SizeItems(pairs)[2] == Number(8, |Packed(pairs)| + 4)
    ensures |SizeItems(pairs)| == 3
  {
    hide Packed;
    assert Pow256(4) == 0x1_0000_0000 by { assert Pow256(2) == 0x1_0000; }
  }

  lemma BodyFields(pairs: seq<Pair>)
    ensures Fields(BodyItems(pairs)) == [Order(true), Digit(4), Block(|Packed(pairs)|)]
    ensures |AllKept(BodyItems(pairs))| == 3 && AllKept(BodyItems(pairs))[2] == Raw(Packed(pairs))
  {
    hide Packed;
  }

  /** The size of the chunk comes first. */
  lemma SizeAhead(h: HeaderBuffer, pairs: seq<Pair>)
    requires InfoAhead(h, pairs)
    ensures HeaderPrint.AllAhead(h, SizeItems(pairs)) && |Print(SizeItems(pairs), h.bigEndian)| == 12
    ensures h.indx + 16 + |Packed(pairs)| <= |h.file|
  {
    hide Print, RoomAfter, InfoItems, SizeItems, BodyItems, Packed;
    var all, part := Print(InfoItems(pairs), false), Print(SizeItems(pairs), h.bigEndian);
    SplitFormat(pairs, h.bigEndian, true);
    PrefixSuffix(part, Print(BodyItems(pairs), true));
    SubSlice(h.file, h.indx, all, 0, part);
    ShortFormatsFit(SizeItems(pairs), h.indx, h.ptr.Length, h.bigEndian, false, CAP);
  }

  /** The pairs come behind it. */
  lemma BodyAhead(h: HeaderBuffer, pairs: seq<Pair>, at: nat)
    requires h.Valid() && h.Coherent() && h.indx == at + 12 && |Packed(pairs)| < CAPACITY
    requires var bytes := Print(InfoItems(pairs), false);
             at + |bytes| <= |h.file| && h.file[at..at + |bytes|] == bytes && at + |bytes| + 16 <= CAP / 2
    ensures HeaderPrint.AllAhead(h, BodyItems(pairs))
  {
    hide Print, RoomAfter, InfoItems, SizeItems, BodyItems, Packed;
    var all, part := Print(InfoItems(pairs), false), Print(BodyItems(pairs), h.bigEndian);
    SplitFormat(pairs, true, h.bigEndian);
    PrefixSuffix(Print(SizeItems(pairs), true), part);
    SubSlice(h.file, at, all, 12, part);
    ShortFormatsFit(BodyItems(pairs), h.indx, h.ptr.Length, h.bigEndian, false, CAP);
  }

  lemma SubSlice<T>(file: seq<T>, at: nat, all: seq<T>, i: nat, part: seq<T>)
    requires at + |all| <= |file| && file[at..at + |all|] == all && i + |part| <= |all| && all[i..][..|part|] == part
    ensures file[at + i..at + i + |part|] == part
  {
    forall k | 0 <= k < |part| ensures file[at + i + k] == part[k] {
      assert file[at..at + |all|][i + k] == all[i..][k] == part[k];
    }
  }

  /** Strings set on a file, printed into a header, parsed and scanned: the reader stores the tag
      and text of every pair that fitted, in order; of distinct tags whose texts take less than the
      whole buffer, every one. */
  method RoundTrip(entries: seq<Entry>, location: int, rest: seq<Byte>) returns (stored: seq<(Tag, Text)>)
    ensures stored == Values(Fitting(Tagged(entries, location, |entries|)), FittingTags(entries, location, |entries|))
    ensures Distinct(entries, location) && TextSize(entries, |entries|) < CAPACITY ==>
              |stored| == |entries|
              && forall k :: 0 <= k < |entries| ==> stored[k] == (entries[k].tag, entries[k].text)
  {
    hide Fitting, Tagged, FittingTags, Known, Scan, Packed, RoomAfter, Print, Distinct, TextSize;
    if Distinct(entries, location) && TextSize(entries, |entries|) < CAPACITY {
      PlainStrings(entries, location, |entries|);
    }
    ghost var pairs := Fitting(Tagged(entries, location, |entries|));
    var items := WriteStrings(entries, location);
    if items == [] {
      return [];
    }
    InfoFits(pairs);
    var w := new HeaderBuffer([]);
    ShortFormatsFit(items, 0, INITIAL_HEADER_SIZE, false, true, CAP);
    var count, done := HeaderPrint.Writef(w, items);
    assert items[..done] == items;
    var h := new HeaderBuffer(w.ptr[..w.indx] + rest);
    PrefixSuffix(w.ptr[..w.indx], rest);
    var read := ReadInfo(h, pairs);
    stored := read.value;
    PairsRoundTrip(Tagged(entries, location, |entries|));
    KnownByTag(pairs, FittingTags(entries, location, |entries|));
  }

  lemma InfoFits(pairs: seq<Pair>)
    requires |Packed(pairs)| < CAPACITY
    ensures |Print(InfoItems(pairs), false)| + 16 <= CAP / 2
  {
    hide Packed, Print;
    SplitFormat(pairs, false, true);
  }

  /** A chunk that says that the title is "A". */
  lemma {:induction false} TitleChunk()
    ensures Print(InfoItems([Pair(KeyOf(Title), [65])]), false)
         == [105, 110, 102, 111] + [0, 0, 0, 0, 0, 0, 0, 12] + [0, 0, 0, 1] + [116, 105, 116, 108, 101, 0, 65, 0]
  {
    hide Print, InfoItems, Packed, PairBytes, KeyOf, BigEndian, LittleEndian;
    var p := Pair(KeyOf(Title), [65]);
    PrintInfo([p], false);
    NothingPacked();
    PackedOneMore([], p);
    assert [] + [p] == [p];
    EmptyFirst([], PairBytes(p));
    TitleBytes(p);
    ChunkNumbers();
  }

  lemma TitleBytes(p: Pair)
    requires p == Pair(KeyOf(Title), [65])
    ensures PairBytes(p) == [116, 105, 116, 108, 101, 0, 65, 0]
  {
    assert KeyString(Title) == "title";
    assert Ascii("title") == [116, 105, 116, 108, 101];
  }

  lemma ChunkNumbers()
    ensures LittleEndian(INFO_MARKER, 4) == [105, 110, 102, 111] && BigEndian(1, 4) == [0, 0, 0, 1]
    ensures BigEndian(12, 8) == [0, 0, 0, 0, 0, 0, 0, 12]
  {
  }
}
