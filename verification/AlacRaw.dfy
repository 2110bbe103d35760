/** A block coder that stores the high bytes of every sample as they are, in the manner of the library's
    coder for blocks that it cannot make shorter. It meets every hypothesis made about a coder. */
module AlacRaw {
  import opened Bits
  import opened Chunks
  import opened Endian
  import opened AlacTable
  import opened AlacStream
  import opened AlacWriter
  import opened AlacRoundTrip
  import opened Header
  import opened CafLayout

  /** The bytes of a sample that are stored: 1 to 4. */
  function SampleBytes(width: nat, x: Sample): (r: seq<Byte>)
    requires width <= 4
    ensures |r| == width
  {
    BigEndian(x / Pow256(4 - width), width)
  }

  /** And the sample they make. */
  function SampleOf(width: nat, bytes: seq<Byte>): Sample
    requires width <= 4
  {
    Int32(FromBig(bytes) * Pow256(4 - width))
  }

  function Stored(width: nat, b: seq<Sample>): (r: seq<Byte>)
    requires width <= 4
    ensures |r| == width * |b|
  {
    if b == [] then []
    else
      OneMore(width, |b|);
      Stored(width, b[..|b| - 1]) + SampleBytes(width, b[|b| - 1])
  }

  lemma OneMore(width: nat, n: nat)
    ensures width * n == width * (n - 1) + width
  {
  }

  function Loaded(width: nat, bytes: seq<Byte>): (r: seq<Sample>)
    requires 1 <= width <= 4 && |bytes| % width == 0
    ensures |r| == |bytes| / width
    decreases |bytes|
  {
    if bytes == [] then []
    else
      LastPart(width, |bytes|);
      Loaded(width, bytes[..|bytes| - width]) + [SampleOf(width, bytes[|bytes| - width..])]
  }

  lemma LastPart(width: nat, n: nat)
    requires 1 <= width <= 4 && n > 0 && n % width == 0
    ensures n >= width && (n - width) % width == 0 && (n - width) / width == n / width - 1
  {
  }

  /** The decoder refuses what is not a block. */
  function Raw(channels: int, width: nat): (c: BlockCodec)
    requires 1 <= channels <= 8 && 1 <= width <= 4
  {
    BlockCodec(channels, (h, b) => Stored(width, b),
               p => if |p| % width == 0 && |p| / width <= channels * FRAME_LENGTH && |p| / width % channels == 0
                    then Loaded(width, p) else [])
  }

  /** A sample comes back if the bits that are not stored are zero. */
  lemma {:induction false} SampleBack(width: nat, x: Sample)
    requires 1 <= width <= 4 && x % Pow256(4 - width) == 0
    ensures SampleOf(width, SampleBytes(width, x)) == x
  {
    hide BigEndian, FromBig, Pow256, Int32;
    BigEndianBack(x / Pow256(4 - width), width);
    WordSize(width);
    HighPart(x, Pow256(4 - width), Pow256(width));
  }

  /** The high part of a word, put back. */
  lemma HighPart(x: Sample, p: int, m: int)
    requires p >= 1 && m >= 1 && m * p == 0x1_0000_0000 && x % p == 0
    ensures Int32(x / p % m * p) == x
  {
    hide Int32;
    var q := x / p;
    var k, r := q / m, q % m;
    assert x == p * q;
    assert q == m * k + r;
    Scaled(r, m, k, p);
    WholeTurns(x, k);
  }

  lemma WordSize(width: nat)
    requires 1 <= width <= 4
    ensures Pow256(width) * Pow256(4 - width) == 0x1_0000_0000
    ensures Pow256(4 - width) == Pow2(32 - 8 * width)
  {
    assert Pow256(1) == 256;
    assert Pow256(2) == 0x1_0000;
    assert Pow256(3) == 0x100_0000;
    assert Pow256(4) == 0x1_0000_0000;
    Pow2Table();
  }

  lemma Scaled(r: int, m: int, k: int, p: int)
    requires m * p == 0x1_0000_0000
    ensures r * p == p * (m * k + r) - 0x1_0000_0000 * k
  {
    assert p * (m * k + r) == p * (m * k) + p * r;
    MulAssoc(p, m, k);
  }

  lemma WholeTurns(x: int, k: int)
    requires IsInt32(x)
    ensures Int32(x - 0x1_0000_0000 * k) == x
  {
    DivUnique(x - 0x1_0000_0000 * k + 0x8000_0000, 0x1_0000_0000, -k, x + 0x8000_0000);
  }

  lemma {:induction false} BlockBack(width: nat, b: seq<Sample>)
    requires 1 <= width <= 4 && Words(8 * width, b)
    ensures |Stored(width, b)| % width == 0 && Loaded(width, Stored(width, b)) == b
  {
    hide SampleBytes, SampleOf, Pow2;
    WholeParts(width, |b|);
    if b != [] {
      var last := |b| - 1;
      BlockBack(width, b[..last]);
      WordSize(width);
      SampleBack(width, b[last]);
      PrefixSuffix(Stored(width, b[..last]), SampleBytes(width, b[last]));
    }
  }

  lemma WholeParts(width: nat, n: nat)
    requires 1 <= width
    ensures width * n % width == 0 && width * n / width == n
  {
    DivUnique(width * n, width, n, 0);
  }

  lemma {:induction false} RawValid(channels: int, width: nat)
    requires 1 <= channels <= 8 && 1 <= width <= 4
    ensures Raw(channels, width).Valid()
  {
    hide Stored, Loaded;
    var c := Raw(channels, width);
    forall h, b | c.Codable(b) ensures 0 < |c.encode(h, b)| <= BYTE_BUFFER_SIZE { BlockSize(channels, width, |b|); }
    forall p ensures |c.decode(p)| <= c.Flat(FRAME_LENGTH) && c.Aligned(|c.decode(p)|) {
      LoadedSize(channels, width, p);
    }
  }

  lemma BlockSize(channels: int, width: nat, n: int)
    requires 1 <= channels <= 8 && 1 <= width <= 4 && 0 < n <= FRAME_LENGTH * channels
    ensures 0 < width * n <= BYTE_BUFFER_SIZE
  {
  }

  lemma LoadedSize(channels: int, width: nat, p: seq<Byte>)
    requires 1 <= channels <= 8 && 1 <= width <= 4
    ensures var c := Raw(channels, width); |c.decode(p)| <= c.Flat(FRAME_LENGTH) && c.Aligned(|c.decode(p)|)
  {
    hide Loaded;
  }

  /** What it stores of a block has as many samples. */
  lemma {:induction false} RawKeepsFrames(channels: int, width: nat)
    requires 1 <= channels <= 8 && 1 <= width <= 4
    ensures Raw(channels, width).Valid() && KeepsFrames(Raw(channels, width))
  {
    hide Stored, Loaded, BlockCodec.Valid;
    RawValid(channels, width);
    var c := Raw(channels, width);
    forall h, b | c.Codable(b) ensures |c.decode(c.encode(h, b))| == |b| { WholeParts(width, |b|); }
  }

  /** And the samples themselves, if they have no more bits than it stores. */
  lemma {:induction false} RawIsLossless(channels: int, width: nat)
    requires 1 <= channels <= 8 && 1 <= width <= 4
    ensures Raw(channels, width).Valid() && Lossless(Raw(channels, width), 8 * width)
  {
    hide Stored, Loaded, BlockCodec.Valid, Words;
    RawValid(channels, width);
    var c := Raw(channels, width);
    forall h, b | c.Codable(b) && Words(8 * width, b) ensures c.decode(c.encode(h, b)) == b {
      WholeParts(width, |b|);
      BlockBack(width, b);
    }
  }

  // ----- The journey with it -----

  /** Blocks of which the tables never overrun their buffer, whatever the packets. */
  const FEW := 38

  /** So many samples make so many blocks. */
  lemma FewBlocks(codec: BlockCodec, blocks: seq<seq<Sample>>, all: seq<Sample>)
    requires codec.Valid() && Cut(codec, blocks, all) && |all| <= codec.Flat(FEW * FRAME_LENGTH)
    ensures |blocks| <= FEW
  {
    hide BlockCodec.Flat, BlockCodec.Valid;
    CutFacts(codec, blocks, all);
    if blocks != [] {
      var last := |blocks| - 1;
      FullLength(codec, blocks[..last]);
      assert codec.Codable(blocks[last]);
      codec.FlatOrder(FEW * FRAME_LENGTH, last * FRAME_LENGTH);
    }
  }

  lemma FewEntries(packets: seq<seq<Byte>>)
    requires Sized(packets) && Encodable(Lengths(packets)) && |packets| <= FEW
    ensures Excess(Lengths(packets)) <= 76 && |Entries(Lengths(packets))| <= 4 * FEW
  {
    ExcessBound(Lengths(packets));
    EntriesLength(Lengths(packets));
  }

  /** Up to 38 blocks of samples in any write calls, any read calls: with this coder the samples come
      back, and so does their number. */
  method Journey(channels: int, width: nat, rate: Rate, chunks: seq<seq<Sample>>, lens: seq<nat>)
    returns (frames: nat, back: seq<Sample>)
    requires 1 <= channels <= 8 && 1 <= width <= 4 && AllAligned(Raw(channels, width), chunks)
    requires |Flatten(chunks)| <= Raw(channels, width).Flat(FEW * FRAME_LENGTH) && Words(8 * width, Flatten(chunks))
    requires Sum(lens) <= |Flatten(chunks)|
    requires forall k :: 0 <= k < |lens| ==> Raw(channels, width).Aligned(lens[k])
    ensures back == Flatten(chunks)[..Sum(lens)] && Raw(channels, width).Flat(frames) == |Flatten(chunks)|
  {
    hide BlockCodec.Valid, BlockCodec.Flat, BlockCodec.Aligned, Words, Lossless, KeepsFrames, Flatten, Cut, Packets,
         Excess, Encodable, Entries, StringsBack, AllAligned, Settings;
    var codec := Raw(channels, width);
    RawKeepsFrames(channels, width);
    RawIsLossless(channels, width);
    var h := new HeaderBuffer([]);
    var d := Description(rate, ALAC_MARKER, 4, 0, FRAME_LENGTH, channels, 0);
    PlainSettings(codec, d);
    var table, tableRead, n, samples, blocks, validFrames, strings :=
      RoundTrip(codec, h, d, [], 0, [], chunks, lens, 8 * width);
    FewBlocks(codec, blocks, Flatten(chunks));
    FewEntries(Packets(codec, blocks));
    frames, back := n, samples;
  }

  /** No chunks in front of the table. */
  lemma PlainSettings(codec: BlockCodec, d: Description)
    requires Storable(d) && d.formatId == ALAC_MARKER
    requires d.framesPerPacket == FRAME_LENGTH && d.channels == codec.channels
    ensures Settings(codec, d, [], 0, [])
  {
  }
}
