/** One WAV IMA block: header, nibble layout and the recurrences of both sides over it. */
module ImaBlock {
  import opened Bits
  import opened ImaCode
  import opened Pcm

  /** One or two channels, and whole groups of eight frames. */
  predicate ValidShape(ch: int, size: int)
  {
    (ch == 1 && size >= 4 && size % 4 == 0) || (ch == 2 && size >= 8 && size % 8 == 0)
  }

  /** samplesperblock of ima_writer_init and ima_reader_init. */
  function FramesPerBlock(ch: int, size: int): int
    requires ValidShape(ch, size)
  {
    2 * (size - 4 * ch) / ch + 1
  }

  /** Samples of all channels in one block: two for each byte behind the headers, and the headers'. */
  function SamplesPerBlock(ch: int, size: int): (n: int)
    requires ValidShape(ch, size)
    ensures n >= ch && n == FramesPerBlock(ch, size) * ch
  {
    2 * (size - 4 * ch) + ch
  }

  // ----- Nibble layout -----

  /** The sample whose code is the low nibble of byte `b`; the high nibble is one frame later. */
  function Slot(ch: int, b: int): int
  {
    if ch == 1 then 1 + 2 * (b - 4)
    else
      var u := b - 8;
      2 + 16 * (u / 8) + u % 8 / 4 + 4 * (u % 4)
  }

  /** The byte that carries the code of sample `k`. */
  function ByteOf(ch: int, k: int): int
  {
    if ch == 1 then 4 + (k - 1) / 2
    else
      var t := k - 2;
      8 + 8 * (t / 16) + t % 2 * 4 + t % 16 / 4
  }

  /** Whether it is the high nibble of that byte. */
  predicate IsHigh(ch: int, k: int)
  {
    if ch == 1 then (k - 1) % 2 == 1 else (k - 2) / 2 % 2 == 1
  }

  lemma {:induction false} StereoLayout(g: int, c: int, j: int, h: int)
    requires 0 <= c < 2 && 0 <= j < 4 && 0 <= h < 2
    ensures Slot(2, 8 + 8 * g + 4 * c + j) == 2 + 16 * g + 4 * j + c
    ensures var k := 2 + 16 * g + 4 * j + 2 * h + c;
            ByteOf(2, k) == 8 + 8 * g + 4 * c + j && (IsHigh(2, k) <==> h == 1)
  {
    DivUnique(8 * g + 4 * c + j, 8, g, 4 * c + j);
    DivUnique(4 * c + j, 4, c, j);
    DivUnique(8 * g + 4 * c + j, 4, 2 * g + c, j);
    var t := 16 * g + 4 * j + 2 * h + c;
    DivUnique(t, 16, g, 4 * j + 2 * h + c);
    DivUnique(4 * j + 2 * h + c, 4, j, 2 * h + c);
    DivUnique(t, 2, 8 * g + 2 * j + h, c);
    DivUnique(8 * g + 2 * j + h, 2, 4 * g + j, h);
  }

  /** Byte to samples and back. */
  lemma {:induction false} SlotInverse(ch: int, size: int, b: int)
    requires ValidShape(ch, size) && 4 * ch <= b < size
    ensures ch <= Slot(ch, b) && Slot(ch, b) + ch < SamplesPerBlock(ch, size)
    ensures ByteOf(ch, Slot(ch, b)) == b && !IsHigh(ch, Slot(ch, b))
    ensures ByteOf(ch, Slot(ch, b) + ch) == b && IsHigh(ch, Slot(ch, b) + ch)
  {
    if ch == 2 { StereoSlotInverse(size, b); }
  }

  lemma {:induction false} StereoSlotInverse(size: int, b: int)
    requires ValidShape(2, size) && 8 <= b < size
    ensures 2 <= Slot(2, b) && Slot(2, b) + 2 < SamplesPerBlock(2, size)
    ensures ByteOf(2, Slot(2, b)) == b && !IsHigh(2, Slot(2, b))
    ensures ByteOf(2, Slot(2, b) + 2) == b && IsHigh(2, Slot(2, b) + 2)
  {
    hide Slot, ByteOf, IsHigh;
    var g, r := (b - 8) / 8, (b - 8) % 8;
    var c, j := r / 4, r % 4;
    assert b == 8 + 8 * g + 4 * c + j;
    StereoLayout(g, c, j, 0);
    StereoLayout(g, c, j, 1);
    EightBound(size, b, g);
  }

  /** Sample to byte and back: every code has exactly one place. */
  lemma {:induction false} ByteInverse(ch: int, size: int, k: int)
    requires ValidShape(ch, size) && ch <= k < SamplesPerBlock(ch, size)
    ensures 4 * ch <= ByteOf(ch, k) < size
    ensures Slot(ch, ByteOf(ch, k)) == if IsHigh(ch, k) then k - ch else k
  {
    if ch == 2 { StereoByteInverse(size, k); }
  }

  lemma {:induction false} StereoByteInverse(size: int, k: int)
    requires ValidShape(2, size) && 2 <= k < SamplesPerBlock(2, size)
    ensures 8 <= ByteOf(2, k) < size
    ensures Slot(2, ByteOf(2, k)) == if IsHigh(2, k) then k - 2 else k
  {
    hide Slot, ByteOf, IsHigh;
    var g, r := (k - 2) / 16, (k - 2) % 16;
    var j, q := r / 4, r % 4;
    var h, c := q / 2, q % 2;
    assert k == 2 + 16 * g + 4 * j + 2 * h + c;
    StereoLayout(g, c, j, h);
    EightBound(size, 8 + 8 * g, g);
  }

  /** Below a multiple of 8, a group of eight lies wholly below it. */
  lemma EightBound(size: int, b: int, g: int)
    requires size % 8 == 0 && 8 + 8 * g <= b < size
    ensures 8 + 8 * g + 8 <= size
  {
    assert size == 8 * (size / 8);
  }

  function NibbleAt(block: seq<Byte>, ch: int, k: int): (code: int)
    requires 0 <= ByteOf(ch, k) < |block|
    ensures 0 <= code < 16
  {
    if IsHigh(ch, k) then block[ByteOf(ch, k)] / 16 else block[ByteOf(ch, k)] % 16
  }

  // ----- Encoder -----

  predicate ValidIndices(ch: int, index: seq<int>)
  {
    |index| == ch && forall c :: 0 <= c < ch ==> ValidIndex(index[c])
  }

  /** Samples of one block and the step indices it starts from. */
  predicate ValidInput(ch: int, size: int, s: seq<int>, index: seq<int>)
  {
    ValidShape(ch, size) && |s| == SamplesPerBlock(ch, size) && AllInt16(s) && ValidIndices(ch, index)
  }

  /** previous[chan] and stepindx[chan] of the encoder once sample `k` is coded. */
  ghost function EncoderAt(ch: int, s: seq<int>, index: seq<int>, k: int): (p: Predictor)
    requires (ch == 1 || ch == 2) && AllInt16(s) && ValidIndices(ch, index) && 0 <= k < |s|
    ensures ValidPredictor(p)
    decreases k
  {
    if k < ch then Predictor(s[k], index[k])
    else
      var p := EncoderAt(ch, s, index, k - ch);
      QuantiserLockstep(p, s[k]);
      Reconstruct(p, s[k])
  }

  lemma EncoderStep(ch: int, s: seq<int>, index: seq<int>, k: int)
    requires (ch == 1 || ch == 2) && AllInt16(s) && ValidIndices(ch, index) && 0 <= k < |s|
    ensures k < ch ==> EncoderAt(ch, s, index, k) == Predictor(s[k], index[k])
    ensures k >= ch ==> EncoderAt(ch, s, index, k) == Reconstruct(EncoderAt(ch, s, index, k - ch), s[k])
  {
  }

  /** The encoder looks at no sample behind the one it codes. */
  lemma {:induction false} EncoderCausal(ch: int, s: seq<int>, t: seq<int>, index: seq<int>, k: int)
    requires (ch == 1 || ch == 2) && AllInt16(s) && AllInt16(t) && ValidIndices(ch, index)
    requires 0 <= k < |s| && k < |t| && s[..k + 1] == t[..k + 1]
    ensures EncoderAt(ch, s, index, k) == EncoderAt(ch, t, index, k)
    decreases k
  {
    hide EncoderAt, Reconstruct;
    EncoderStep(ch, s, index, k);
    EncoderStep(ch, t, index, k);
    assert s[k] == s[..k + 1][k] && t[k] == t[..k + 1][k];
    if k >= ch {
      assert s[..k - ch + 1] == s[..k + 1][..k - ch + 1] && t[..k - ch + 1] == t[..k + 1][..k - ch + 1];
      EncoderCausal(ch, s, t, index, k - ch);
    }
  }

  ghost function CodeAt(ch: int, s: seq<int>, index: seq<int>, k: int): (code: int)
    requires (ch == 1 || ch == 2) && AllInt16(s) && ValidIndices(ch, index) && ch <= k < |s|
    ensures 0 <= code < 16
  {
    CodeFor(EncoderAt(ch, s, index, k - ch), s[k])
  }

  function HeaderByte(s: seq<int>, index: seq<int>, b: int): Byte
    requires 0 <= b < 4 * |index| && |index| <= |s|
    requires forall c :: 0 <= c < |index| ==> ValidIndex(index[c])
  {
    var c := b / 4;
    assert ValidIndex(index[c]);
    if b % 4 == 0 then s[c] % 256
    else if b % 4 == 1 then s[c] / 256 % 256
    else if b % 4 == 2 then index[c]
    else 0
  }

  ghost function EncodedByte(ch: int, size: int, s: seq<int>, index: seq<int>, b: int): Byte
    requires ValidInput(ch, size, s, index) && 0 <= b < size
  {
    if b < 4 * ch then HeaderByte(s, index, b)
    else
      SlotInverse(ch, size, b);
      CodeAt(ch, s, index, Slot(ch, b)) + 16 * CodeAt(ch, s, index, Slot(ch, b) + ch)
  }

  ghost function EncodedBlock(ch: int, size: int, s: seq<int>, index: seq<int>): (r: seq<Byte>)
    requires ValidInput(ch, size, s, index)
    ensures |r| == size
  {
    seq(size, b requires 0 <= b < size => EncodedByte(ch, size, s, index, b))
  }

  /** The step indices the next block starts from. */
  ghost function NextIndices(ch: int, s: seq<int>, index: seq<int>): (r: seq<int>)
    requires (ch == 1 || ch == 2) && AllInt16(s) && ValidIndices(ch, index) && |s| >= ch
    ensures ValidIndices(ch, r)
  {
    if ch == 1 then [EncoderAt(1, s, index, |s| - 1).index]
    else [EncoderAt(2, s, index, |s| - 2).index, EncoderAt(2, s, index, |s| - 1).index]
  }

  // ----- Decoder -----

  function HeaderPredictor(block: seq<Byte>, c: int): Predictor
    requires 0 <= c && 4 * c + 3 < |block|
  {
    Predictor(Word16(block[4 * c], block[4 * c + 1]), ClampIndex(block[4 * c + 2]))
  }

  /** The nibble a block holds for sample `k`. */
  ghost function CodeIn(ch: int, block: seq<Byte>, k: int): (code: int)
    requires ValidShape(ch, |block|) && ch <= k < SamplesPerBlock(ch, |block|)
    ensures 0 <= code < 16
  {
    ByteInverse(ch, |block|, k);
    NibbleAt(block, ch, k)
  }

  /** The decoder's sample `k` and the step index behind it. */
  ghost function DecoderAt(ch: int, size: int, block: seq<Byte>, k: int): (p: Predictor)
    requires ValidShape(ch, size) && |block| == size && 0 <= k < SamplesPerBlock(ch, size)
    ensures ValidPredictor(p)
    decreases k
  {
    if k < ch then HeaderPredictor(block, k)
    else
      Advance(DecoderAt(ch, size, block, k - ch), CodeIn(ch, block, k))
  }

  lemma DecoderStep(ch: int, size: int, block: seq<Byte>, k: int)
    requires ValidShape(ch, size) && |block| == size && 0 <= k < SamplesPerBlock(ch, size)
    ensures k < ch ==> DecoderAt(ch, size, block, k) == HeaderPredictor(block, k)
    ensures k >= ch ==> DecoderAt(ch, size, block, k)
                        == Advance(DecoderAt(ch, size, block, k - ch), CodeIn(ch, block, k))
  {
  }

  ghost function DecodedBlock(ch: int, size: int, block: seq<Byte>): (r: seq<int>)
    requires ValidShape(ch, size) && |block| == size
    ensures |r| == SamplesPerBlock(ch, size)
  {
    seq(SamplesPerBlock(ch, size), k requires 0 <= k < SamplesPerBlock(ch, size) =>
        DecoderAt(ch, size, block, k).sample)
  }

  /** A step index behind the table's end is read as the last one. */
  lemma {:induction false} StrayIndex(ch: int, block: seq<Byte>, c: int, k: int)
    requires ValidShape(ch, |block|) && 0 <= c < ch && block[4 * c + 2] > LAST_INDEX
    requires 0 <= k < SamplesPerBlock(ch, |block|)
    ensures DecoderAt(ch, |block|, block[4 * c + 2 := LAST_INDEX], k) == DecoderAt(ch, |block|, block, k)
    decreases k
  {
    hide DecoderAt, Advance, CodeIn;
    var read := block[4 * c + 2 := LAST_INDEX];
    DecoderStep(ch, |block|, block, k);
    DecoderStep(ch, |block|, read, k);
    if k >= ch {
      StrayIndex(ch, block, c, k - ch);
      SameCode(ch, block, read, k);
    }
  }

  lemma SameCode(ch: int, a: seq<Byte>, b: seq<Byte>, k: int)
    requires ValidShape(ch, |a|) && |b| == |a| && ch <= k < SamplesPerBlock(ch, |a|)
    requires forall i :: 4 * ch <= i < |a| ==> a[i] == b[i]
    ensures CodeIn(ch, a, k) == CodeIn(ch, b, k)
  {
    hide ByteOf, IsHigh;
    ByteInverse(ch, |a|, k);
  }

  // ----- Lockstep -----

  /** Packing and unpacking are inverse: the nibble found for a sample is the code sent for it. */
  lemma {:induction false} PackedNibble(ch: int, size: int, s: seq<int>, index: seq<int>, k: int)
    requires ValidInput(ch, size, s, index) && ch <= k < |s|
    ensures CodeIn(ch, EncodedBlock(ch, size, s, index), k) == CodeAt(ch, s, index, k)
  {
    hide CodeAt, ByteOf, Slot, IsHigh;
    ByteInverse(ch, size, k);
    SlotInverse(ch, size, ByteOf(ch, k));
    assert EncodedBlock(ch, size, s, index)[ByteOf(ch, k)] == EncodedByte(ch, size, s, index, ByteOf(ch, k));
  }

  /** The decoder reproduces the encoder's reconstruction at every sample. */
  lemma {:induction false} BlockLockstep(ch: int, size: int, s: seq<int>, index: seq<int>, k: int)
    requires ValidInput(ch, size, s, index) && 0 <= k < |s|
    ensures DecoderAt(ch, size, EncodedBlock(ch, size, s, index), k) == EncoderAt(ch, s, index, k)
    decreases k
  {
    hide CodeIn, EncodedBlock, Advance, Reconstruct, CodeFor;
    var block := EncodedBlock(ch, size, s, index);
    if k < ch {
      HeaderDecoded(ch, size, s, index, k);
    } else {
      BlockLockstep(ch, size, s, index, k - ch);
      PackedNibble(ch, size, s, index, k);
      QuantiserLockstep(EncoderAt(ch, s, index, k - ch), s[k]);
    }
  }

  lemma HeaderBytes(s: seq<int>, index: seq<int>, c: int)
    requires 0 <= c < |index| <= |s| && forall i :: 0 <= i < |index| ==> ValidIndex(index[i])
    ensures HeaderByte(s, index, 4 * c) == s[c] % 256 && HeaderByte(s, index, 4 * c + 1) == s[c] / 256 % 256
    ensures HeaderByte(s, index, 4 * c + 2) == index[c] && HeaderByte(s, index, 4 * c + 3) == 0
  {
  }

  lemma {:induction false} HeaderDecoded(ch: int, size: int, s: seq<int>, index: seq<int>, c: int)
    requires ValidInput(ch, size, s, index) && 0 <= c < ch
    ensures HeaderPredictor(EncodedBlock(ch, size, s, index), c) == Predictor(s[c], index[c])
  {
    hide EncodedBlock, HeaderByte, Word16;
    HeaderBytes(s, index, c);
    HeaderInBlock(ch, size, s, index, 4 * c);
    HeaderInBlock(ch, size, s, index, 4 * c + 1);
    HeaderInBlock(ch, size, s, index, 4 * c + 2);
    Word16Bytes(s[c]);
  }

  lemma HeaderInBlock(ch: int, size: int, s: seq<int>, index: seq<int>, b: int)
    requires ValidInput(ch, size, s, index) && 0 <= b < 4 * ch
    ensures EncodedBlock(ch, size, s, index)[b] == HeaderByte(s, index, b)
  {
    hide CodeAt, HeaderByte;
    assert EncodedBlock(ch, size, s, index)[b] == EncodedByte(ch, size, s, index, b);
  }

  // ----- Two channels and one -----

  /** `t` is channel `c` of the two in `s`. */
  predicate ChannelOf(s: seq<int>, c: int, t: seq<int>)
  {
    0 <= c < 2 && |s| == 2 * |t| && forall k :: 0 <= k < |t| ==> t[k] == s[2 * k + c]
  }

  /** Either channel of two is coded as it would be alone. */
  lemma {:induction false} ChannelsApart(s: seq<int>, index: seq<int>, c: int, t: seq<int>, k: int)
    requires AllInt16(s) && AllInt16(t) && ValidIndices(2, index) && ChannelOf(s, c, t) && 0 <= k < |t|
    ensures EncoderAt(2, s, index, 2 * k + c) == EncoderAt(1, t, [index[c]], k)
    ensures k > 0 ==> CodeAt(2, s, index, 2 * k + c) == CodeAt(1, t, [index[c]], k)
    decreases k
  {
    hide EncoderAt, Reconstruct, CodeFor;
    EncoderStep(2, s, index, 2 * k + c);
    EncoderStep(1, t, [index[c]], k);
    if k > 0 { ChannelsApart(s, index, c, t, k - 1); }
  }

  /** Nine samples of one channel whose codes differ. */
  const WAVE: seq<int> := [1000, 1004, 1010, 1005, 960, 1005, 1000, 1300, 1300]

  lemma {:induction false} WaveSteps()
    ensures var p := Predictor(1000, 0); CodeFor(p, 1004) == 3 && Reconstruct(p, 1004) == Predictor(1004, 0)
    ensures var p := Predictor(1004, 0); CodeFor(p, 1010) == 3 && Reconstruct(p, 1010) == Predictor(1008, 0)
    ensures var p := Predictor(1008, 0); CodeFor(p, 1005) == 10 && Reconstruct(p, 1005) == Predictor(1005, 0)
    ensures var p := Predictor(1005, 0); CodeFor(p, 960) == 15 && Reconstruct(p, 960) == Predictor(994, 8)
  {
    hide Greedy;
    GreedySteps(4, 7);
    GreedySteps(6, 7);
    GreedySteps(3, 7);
    GreedySteps(45, 7);
  }

  lemma {:induction false} WaveLaterSteps()
    ensures var p := Predictor(994, 8); CodeFor(p, 1005) == 2 && Reconstruct(p, 1005) == Predictor(1004, 7)
    ensures var p := Predictor(1004, 7); CodeFor(p, 1000) == 9 && Reconstruct(p, 1000) == Predictor(1000, 6)
    ensures var p := Predictor(1000, 6); CodeFor(p, 1300) == 7 && Reconstruct(p, 1300) == Predictor(1023, 14)
    ensures CodeFor(Predictor(1023, 14), 1300) == 7
  {
    hide Greedy;
    GreedySteps(11, 16);
    GreedySteps(4, 14);
    GreedySteps(300, 13);
    GreedySteps(277, 28);
  }

  lemma {:induction false} WaveCodes()
    ensures ValidIndices(1, [0]) && AllInt16(WAVE)
    ensures CodeAt(1, WAVE, [0], 1) == 3 && CodeAt(1, WAVE, [0], 2) == 3 && CodeAt(1, WAVE, [0], 3) == 10
    ensures CodeAt(1, WAVE, [0], 4) == 15 && CodeAt(1, WAVE, [0], 5) == 2 && CodeAt(1, WAVE, [0], 6) == 9
    ensures CodeAt(1, WAVE, [0], 7) == 7 && CodeAt(1, WAVE, [0], 8) == 7
  {
    hide EncoderAt, Reconstruct, CodeFor;
    WaveSteps();
    WaveLaterSteps();
    EncoderStep(1, WAVE, [0], 0);
    EncoderStep(1, WAVE, [0], 1);
    EncoderStep(1, WAVE, [0], 2);
    EncoderStep(1, WAVE, [0], 3);
    EncoderStep(1, WAVE, [0], 4);
    EncoderStep(1, WAVE, [0], 5);
    EncoderStep(1, WAVE, [0], 6);
    EncoderStep(1, WAVE, [0], 7);
  }

  /** Their block, byte for byte. */
  lemma {:induction false} WaveBlock()
    ensures ValidInput(1, 8, WAVE, [0])
    ensures EncodedBlock(1, 8, WAVE, [0]) == [232, 3, 0, 0, 0x33, 0xFA, 0x92, 0x77]
  {
    hide CodeAt;
    WaveCodes();
  }

  /** The same on the left of a level right channel: the codes of one channel fill four bytes. */
  const BESIDE: seq<int> :=
    [1000, -5, 1004, -5, 1010, -5, 1005, -5, 960, -5, 1005, -5, 1000, -5, 1300, -5, 1300, -5]

  lemma BesideInput()
    ensures ValidInput(2, 16, BESIDE, [0, 0]) && AllInt16(WAVE) && ChannelOf(BESIDE, 0, WAVE)
    ensures |WAVE| == 9 && forall k :: 0 <= k < 9 ==> BESIDE[2 * k + 1] == -5
  {
  }

  lemma {:induction false} BesideLevel(k: int)
    requires 0 <= k < 9
    ensures ValidInput(2, 16, BESIDE, [0, 0])
    ensures EncoderAt(2, BESIDE, [0, 0], 2 * k + 1) == Predictor(-5, 0)
    ensures k > 0 ==> CodeAt(2, BESIDE, [0, 0], 2 * k + 1) == 0
    decreases k
  {
    hide EncoderAt, Reconstruct, CodeFor, ValidInput, BESIDE, ChannelOf;
    BesideInput();
    EncoderStep(2, BESIDE, [0, 0], 2 * k + 1);
    if k > 0 {
      BesideLevel(k - 1);
      LevelKept(-5);
    }
  }

  /** The byte behind the headers that holds two codes of channel `c`. */
  lemma BesideByte(c: int, j: int)
    requires 0 <= c < 2 && 0 <= j < 4
    ensures ValidInput(2, 16, BESIDE, [0, 0])
    ensures EncodedByte(2, 16, BESIDE, [0, 0], 8 + 4 * c + j)
         == CodeAt(2, BESIDE, [0, 0], 2 * (1 + 2 * j) + c) + 16 * CodeAt(2, BESIDE, [0, 0], 2 * (2 + 2 * j) + c)
  {
    hide CodeAt, Slot, ByteOf, IsHigh, ValidInput, BESIDE, ChannelOf;
    BesideInput();
    StereoLayout(0, c, j, 0);
  }

  lemma BesideLeft(j: int)
    requires 0 <= j < 4
    ensures ValidInput(2, 16, BESIDE, [0, 0]) && AllInt16(WAVE)
    ensures EncodedByte(2, 16, BESIDE, [0, 0], 8 + j)
         == CodeAt(1, WAVE, [0], 1 + 2 * j) + 16 * CodeAt(1, WAVE, [0], 2 + 2 * j)
    ensures EncodedByte(2, 16, BESIDE, [0, 0], 12 + j) == 0
  {
    hide CodeAt, EncodedByte, EncoderAt, BESIDE, WAVE, ValidInput, ChannelOf;
    BesideInput();
    BesideByte(0, j);
    BesideByte(1, j);
    ChannelsApart(BESIDE, [0, 0], 0, WAVE, 1 + 2 * j);
    ChannelsApart(BESIDE, [0, 0], 0, WAVE, 2 + 2 * j);
    BesideLevel(1 + 2 * j);
    BesideLevel(2 + 2 * j);
  }

  lemma {:induction false} WaveBeside()
    ensures ValidInput(2, 16, BESIDE, [0, 0])
    ensures EncodedBlock(2, 16, BESIDE, [0, 0])
         == [232, 3, 0, 0, 251, 255, 0, 0, 0x33, 0xFA, 0x92, 0x77, 0, 0, 0, 0]
  {
    hide CodeAt, EncoderAt, EncodedByte;
    WaveCodes();
    BesideLeft(0);
    BesideLeft(1);
    BesideLeft(2);
    BesideLeft(3);
    BesideHeader();
  }

  lemma BesideHeader()
    ensures ValidInput(2, 16, BESIDE, [0, 0])
    ensures forall b :: 0 <= b < 8 ==> EncodedByte(2, 16, BESIDE, [0, 0], b) == HeaderByte(BESIDE, [0, 0], b)
  {
    hide HeaderByte;
  }
}
