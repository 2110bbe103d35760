/** The `info` chunk of a CAF file: string tags as NUL-terminated pairs, packed by the writer and
    scanned by the reader. */
module CafStrings {
  import opened Bits
  import opened Wrappers

  /** A C string without its terminator. */
  type Text = s: seq<Byte> | 0 !in s witness []

  datatype Pair = Pair(key: Text, value: Text)

  const CAPACITY := 16 * 1024

  // ----- What is written -----

  /** The pair as it lies in the buffer. */
  function PairBytes(p: Pair): (r: seq<Byte>)
    ensures |r| == |p.key| + |p.value| + 2
  {
    p.key + [0] + p.value + [0]
  }

  function Packed(pairs: seq<Pair>): (r: seq<Byte>)
  {
    if pairs == [] then [] else Packed(pairs[..|pairs| - 1]) + PairBytes(pairs[|pairs| - 1])
  }

  /** The pairs that still find room, in order. Room is strict: a pair that would fill the buffer
      to its last byte is left out. */
  function Fitting(pairs: seq<Pair>): (r: seq<Pair>)
    ensures |Packed(r)| < CAPACITY && |r| <= |pairs|
  {
    if pairs == [] then []
    else
      var before, p := Fitting(pairs[..|pairs| - 1]), pairs[|pairs| - 1];
      if |Packed(before)| + |PairBytes(p)| < CAPACITY then PackedOneMore(before, p); before + [p] else before
  }

  lemma PackedOneMore(pairs: seq<Pair>, p: Pair)
    ensures Packed(pairs + [p]) == Packed(pairs) + PairBytes(p)
  {
    assert (pairs + [p])[..|pairs|] == pairs;
  }

  /** Nothing is lost when everything fits. */
  lemma {:induction false} AllFitting(pairs: seq<Pair>)
    ensures Fitting(pairs) == pairs <==> |Packed(pairs)| < CAPACITY
  {
    if pairs != [] {
      var last := |pairs| - 1;
      AllFitting(pairs[..last]);
      assert pairs == pairs[..last] + [pairs[last]];
    }
  }

  // ----- What is read -----

  /** strlen from `at` on, as far as `s` goes. */
  function Length(s: seq<Byte>, at: nat): (n: nat)
    ensures at <= |s| ==> at + n <= |s|
    decreases |s| - at
  {
    if at >= |s| || s[at] == 0 then 0 else 1 + Length(s, at + 1)
  }

  lemma {:induction false} LengthIsText(s: seq<Byte>, at: nat)
    requires at <= |s|
    ensures 0 !in s[at..at + Length(s, at)] && (at + Length(s, at) < |s| ==> s[at + Length(s, at)] == 0)
    decreases |s| - at
  {
    if at < |s| && s[at] != 0 {
      LengthIsText(s, at + 1);
      assert s[at..at + Length(s, at)] == [s[at]] + s[at + 1..at + 1 + Length(s, at + 1)];
    }
  }

  function TextAt(s: seq<Byte>, at: nat): Text
    requires at <= |s|
  {
    LengthIsText(s, at);
    s[at..at + Length(s, at)]
  }

  /** The reader's walk over `s`, whose last byte is the terminator it puts there. */
  function Scan(s: seq<Byte>, key: nat): (r: seq<Pair>)
    requires s != [] && s[|s| - 1] == 0
    decreases |s| - key
  {
    if key >= |s| - 1 then []
    else
      var value := key + Length(s, key) + 1;
      if value > |s| - 1 then []
      else [Pair(TextAt(s, key), TextAt(s, value))] + Scan(s, value + Length(s, value) + 1)
  }

  lemma {:induction false} LengthOfText(s: seq<Byte>, at: nat, t: Text)
    requires at + |t| < |s| && s[at..at + |t|] == t && s[at + |t|] == 0
    ensures Length(s, at) == |t|
    decreases |t|
  {
    if t != [] {
      assert s[at] == s[at..at + |t|][0] == t[0] && t[0] in t;
      assert s[at + 1..at + |t|] == s[at..at + |t|][1..] == t[1..];
      LengthOfText(s, at + 1, t[1..]);
    }
  }

  /** Where a pair lies, the walk takes it whole and stands behind it. */
  lemma {:induction false} ScanPair(s: seq<Byte>, at: nat, p: Pair)
    requires s != [] && s[|s| - 1] == 0 && at + |PairBytes(p)| < |s| && s[at..at + |PairBytes(p)|] == PairBytes(p)
    ensures Scan(s, at) == [p] + Scan(s, at + |PairBytes(p)|)
  {
    hide Length, PairBytes;
    PairLies(s, at, p);
    LengthOfText(s, at, p.key);
    LengthOfText(s, at + |p.key| + 1, p.value);
  }

  lemma PairLies(s: seq<Byte>, at: nat, p: Pair)
    requires at + |PairBytes(p)| < |s| && s[at..at + |PairBytes(p)|] == PairBytes(p)
    ensures s[at..at + |p.key|] == p.key && s[at + |p.key|] == 0
    ensures var value := at + |p.key| + 1;
            s[value..value + |p.value|] == p.value && s[value + |p.value|] == 0
  {
    var k, v := |p.key|, |p.value|;
    var b := PairBytes(p);
    PartOf(s, at, b, 0, k);
    PartOf(s, at, b, k + 1, v);
    assert b[0..k] == p.key && b[k + 1..k + 1 + v] == p.value;
    assert s[at..at + |b|][k] == 0 && s[at..at + |b|][k + 1 + v] == 0;
  }

  lemma PartOf<T>(s: seq<T>, at: nat, b: seq<T>, i: nat, n: nat)
    requires at + |b| <= |s| && s[at..at + |b|] == b && i + n <= |b|
    ensures s[at + i..at + i + n] == b[i..i + n]
  {
    forall j | i <= j < i + n ensures s[at + j] == b[j] {
      assert s[at..at + |b|][j] == b[j];
    }
  }

  lemma {:induction false} PackedFirst(pairs: seq<Pair>)
    requires pairs != []
    ensures Packed(pairs) == PairBytes(pairs[0]) + Packed(pairs[1..])
    decreases |pairs|
  {
    hide PairBytes;
    var last := |pairs| - 1;
    if last == 0 {
      assert pairs[..0] == [] && pairs[1..] == [];
      EmptyFirst(Packed([]), PairBytes(pairs[0]));
      EmptyLast(PairBytes(pairs[0]), Packed([]));
    } else {
      PackedFirst(pairs[..last]);
      assert pairs[..last][1..] == pairs[1..][..last - 1];
      ConcatAssoc(PairBytes(pairs[0]), Packed(pairs[1..][..last - 1]), PairBytes(pairs[last]));
    }
  }

  /** The walk over packed pairs yields just them and ends at the end of the chunk. */
  lemma {:induction false} ScanPacked(s: seq<Byte>, at: nat, pairs: seq<Pair>)
    requires at + |Packed(pairs)| + 1 == |s| && s[at..at + |Packed(pairs)|] == Packed(pairs) && s[|s| - 1] == 0
    ensures Scan(s, at) == pairs
    decreases |pairs|
  {
    hide Packed, PairBytes, Length;
    if pairs == [] {
      NothingPacked();
    } else {
      PackedFirst(pairs);
      var n := |PairBytes(pairs[0])|;
      PrefixSuffix(PairBytes(pairs[0]), Packed(pairs[1..]));
      PartOf(s, at, Packed(pairs), 0, n);
      PartOf(s, at, Packed(pairs), n, |Packed(pairs[1..])|);
      ScanPair(s, at, pairs[0]);
      ScanPacked(s, at + n, pairs[1..]);
      ConsSplit(pairs);
    }
  }

  lemma NothingPacked()
    ensures Packed([]) == []
  {
  }

  /** Writer to reader: the pairs that found room, in order. */
  lemma {:induction false} PairsRoundTrip(pairs: seq<Pair>)
    ensures Scan(Packed(Fitting(pairs)) + [0], 0) == Fitting(pairs)
  {
    var packed := Packed(Fitting(pairs));
    PrefixSuffix(packed, [0]);
    ScanPacked(packed + [0], 0, Fitting(pairs));
  }

  // ----- Keys -----

  /** The tags the library knows. */
  datatype Tag = Title | Software | Copyright | Artist | Genre | Comment | TrackNumber | Date | Album | License

  function Ascii(s: string): (r: seq<Byte>)
    ensures |r| == |s|
  {
    seq(|s|, i requires 0 <= i < |s| => s[i] as int % 256)
  }

  function KeyString(tag: Tag): string
  {
    match tag
    case Title => "title"
    case Software => "software"
    case Copyright => "copyright"
    case Artist => "artist"
    case Genre => "genre"
    case Comment => "comment"
    case TrackNumber => "tracknumber"
    case Date => "date"
    case Album => "album"
    case License => "license"
  }

  /** string_hash32 of the first `n` bytes. */
  function Hash(s: seq<Byte>, n: nat): (h: nat)
    requires n <= |s|
  {
    if n == 0 then 0x8765_4321 else (Hash(s, n - 1) * 333 + s[n - 1]) % 0x1_0000_0000
  }

  /** The reader's switch over key hashes. */
  function TagOfHash(h: nat): Option<Tag>
  {
    if h == 0xC486_1943 then Some(Title)
    else if h == 0xAD47_A394 then Some(Software)
    else if h == 0x5D17_8E2A then Some(Copyright)
    else if h == 0x60E4_D0C8 then Some(Artist)
    else if h == 0x83B5_D16A then Some(Genre)
    else if h == 0x15E5_FC88 || h == 0x7C29_7D5B then Some(Comment)
    else if h == 0x24A7_C347 then Some(TrackNumber)
    else if h == 0x50A3_1EB7 then Some(Date)
    else if h == 0x6583_545A then Some(Album)
    else if h == 0xE7C6_4B6C then Some(License)
    else None
  }

  lemma TitleHash()
    ensures Hash(Ascii("title"), 5) == 0xC486_1943
  {
    var s := Ascii("title");
    assert Hash(s, 1) == 0x1EB8_5261;
    assert Hash(s, 2) == 0xF5C3_2896;
    assert Hash(s, 3) == 0xAEDB_CB92;
    assert Hash(s, 4) == 0x73E7_CD56;
  }

  lemma SoftwareHash()
    ensures Hash(Ascii("software"), 8) == 0xAD47_A394
  {
    var s := Ascii("software");
    assert Hash(s, 1) == 0x1EB8_5260;
    assert Hash(s, 2) == 0xF5C3_274F;
    assert Hash(s, 3) == 0xAEDA_2229;
    assert Hash(s, 4) == 0x71BE_6FC9;
    assert Hash(s, 5) == 0xF4B7_68EC;
    assert Hash(s, 6) == 0x5293_7B5D;
    assert Hash(s, 7) == 0x69D7_786B;
  }

  lemma CopyrightHash()
    ensures Hash(Ascii("copyright"), 9) == 0x5D17_8E2A
  {
    var s := Ascii("copyright");
    assert Hash(s, 1) == 0x1EB8_5250;
    assert Hash(s, 2) == 0xF5C3_127F;
    assert Hash(s, 3) == 0xAEBF_0FA3;
    assert Hash(s, 4) == 0x4E87_5780;
    assert Hash(s, 5) == 0x260C_D1F2;
    assert Hash(s, 6) == 0x7EAD_1833;
    assert Hash(s, 7) == 0xC728_7ABE;
    assert Hash(s, 8) == 0x0FA7_A98E;
  }

  lemma ArtistHash()
    ensures Hash(Ascii("artist"), 6) == 0x60E4_D0C8
  {
    var s := Ascii("artist");
    assert Hash(s, 1) == 0x1EB8_524E;
    assert Hash(s, 2) == 0xF5C3_0FE8;
    assert Hash(s, 3) == 0xAEBB_B13C;
    assert Hash(s, 4) == 0x4A25_8B75;
    assert Hash(s, 5) == 0x72D6_67A4;
  }

  lemma GenreHash()
    ensures Hash(Ascii("genre"), 5) == 0x83B5_D16A
  {
    var s := Ascii("genre");
    assert Hash(s, 1) == 0x1EB8_5254;
    assert Hash(s, 2) == 0xF5C3_17A9;
    assert Hash(s, 3) == 0xAEC5_C743;
    assert Hash(s, 4) == 0x5744_3299;
  }

  lemma CommentHash()
    ensures Hash(Ascii("comment"), 7) == 0x15E5_FC88
  {
    var s := Ascii("comment");
    assert Hash(s, 1) == 0x1EB8_5250;
    assert Hash(s, 2) == 0xF5C3_127F;
    assert Hash(s, 3) == 0xAEBF_0FA0;
    assert Hash(s, 4) == 0x4E87_538D;
    assert Hash(s, 5) == 0x2607_AECE;
    assert Hash(s, 6) == 0x77FE_6264;
  }

  /** A key of other writers, for the same tag. */
  lemma CommentsHash()
    ensures TagOfHash(Hash(Ascii("comments"), 8)) == Some(Comment)
  {
    var s := Ascii("comments");
    assert Hash(s, 1) == 0x1EB8_5250;
    assert Hash(s, 2) == 0xF5C3_127F;
    assert Hash(s, 3) == 0xAEBF_0FA0;
    assert Hash(s, 4) == 0x4E87_538D;
    assert Hash(s, 5) == 0x2607_AECE;
    assert Hash(s, 6) == 0x77FE_6264;
    assert Hash(s, 7) == 0x15E5_FC88;
    assert Hash(s, 8) == 0x7C29_7D5B;
  }

  lemma TrackNumberHash()
    ensures Hash(Ascii("tracknumber"), 11) == 0x24A7_C347
  {
    var s := Ascii("tracknumber");
    assert Hash(s, 1) == 0x1EB8_5261;
    assert Hash(s, 2) == 0xF5C3_289F;
    assert Hash(s, 3) == 0xAEDB_D734;
    assert Hash(s, 4) == 0x73F6_EF07;
    assert Hash(s, 5) == 0xD834_EC86;
    assert Hash(s, 6) == 0x3CD7_AABC;
    assert Hash(s, 7) == 0x2489_1701;
    assert Hash(s, 8) == 0x8652_ECBA;
    assert Hash(s, 9) == 0xB9DD_EE54;
    assert Hash(s, 10) == 0xC5AF_03A9;
  }

  lemma DateHash()
    ensures Hash(Ascii("date"), 4) == 0x50A3_1EB7
  {
    var s := Ascii("date");
    assert Hash(s, 1) == 0x1EB8_5251;
    assert Hash(s, 2) == 0xF5C3_13BE;
    assert Hash(s, 3) == 0xAEC0_AE9A;
  }

  lemma AlbumHash()
    ensures Hash(Ascii("album"), 5) == 0x6583_545A
  {
    var s := Ascii("album");
    assert Hash(s, 1) == 0x1EB8_524E;
    assert Hash(s, 2) == 0xF5C3_0FE2;
    assert Hash(s, 3) == 0xAEBB_A95C;
    assert Hash(s, 4) == 0x4A1B_4D21;
  }

  lemma LicenseHash()
    ensures Hash(Ascii("license"), 7) == 0xE7C6_4B6C
  {
    var s := Ascii("license");
    assert Hash(s, 1) == 0x1EB8_5259;
    assert Hash(s, 2) == 0xF5C3_1E2E;
    assert Hash(s, 3) == 0xAECE_4239;
    assert Hash(s, 4) == 0x624C_248A;
    assert Hash(s, 5) == 0xDD0B_87F0;
    assert Hash(s, 6) == 0x87FF_D3A3;
  }

  /** Every tag's key hashes to that tag. */
  lemma TagBack(tag: Tag)
    ensures TagOfHash(Hash(Ascii(KeyString(tag)), |KeyString(tag)|)) == Some(tag)
  {
    hide Hash;
    match tag
    case Title => TitleHash();
    case Software => SoftwareHash();
    case Copyright => CopyrightHash();
    case Artist => ArtistHash();
    case Genre => GenreHash();
    case Comment => CommentHash();
    case TrackNumber => TrackNumberHash();
    case Date => DateHash();
    case Album => AlbumHash();
    case License => LicenseHash();
  }
}
