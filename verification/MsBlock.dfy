/** One Microsoft ADPCM block: header, nibbles and the recurrences of both sides over it. */
module MsBlock {
  import opened Bits
  import opened Pcm
  import opened MsCode

  /** One or two channels and a whole header: what a reader takes. */
  predicate ReadShape(ch: int, size: int)
  {
    (ch == 1 || ch == 2) && size >= 7 * ch
  }

  /** And at least the five frames the predictor choice looks at, for a writer. */
  predicate ValidShape(ch: int, size: int)
  {
    (ch == 1 || ch == 2) && 2 * (size - 7 * ch) >= 3 * ch
  }

  /** Samples of all channels in one block: two a byte behind the header, two frames in it. */
  function SamplesPerBlock(ch: int, size: int): (n: int)
    requires ReadShape(ch, size)
    ensures n >= 2 * ch && (ValidShape(ch, size) ==> n >= 5 * ch)
  {
    2 * ch + 2 * (size - 7 * ch)
  }

  /** samplesperblock of wavlike_msadpcm_init, writer's and reader's formula. */
  lemma FramesPerBlock(ch: int, size: int)
    requires ReadShape(ch, size)
    ensures SamplesPerBlock(ch, size) == (2 + 2 * (size - 7 * ch) / ch) * ch
    ensures SamplesPerBlock(ch, size) == 2 * (size - 6 * ch) / ch * ch
  {
  }

  predicate ValidInput(ch: int, size: int, s: seq<int>)
  {
    ValidShape(ch, size) && |s| == SamplesPerBlock(ch, size) && AllInt16(s)
  }

  // ----- Encoder -----

  /** The encoder's state of channel `k % ch` once sample `k` is coded. */
  ghost function EncoderAt(ch: int, s: seq<int>, k: int): (st: MsState)
    requires (ch == 1 || ch == 2) && |s| >= 5 * ch && ch <= k < |s|
    ensures st.idelta >= 16
    decreases k
  {
    if k < 2 * ch then MsState(s[k], s[k - ch], BestDelta(s, ch))
    else EncoderNext(BestPredictor(s, ch), EncoderAt(ch, s, k - ch), s[k])
  }

  lemma EncoderStep(ch: int, s: seq<int>, k: int)
    requires (ch == 1 || ch == 2) && |s| >= 5 * ch && ch <= k < |s|
    ensures k < 2 * ch ==> EncoderAt(ch, s, k) == MsState(s[k], s[k - ch], BestDelta(s, ch))
    ensures k >= 2 * ch ==> EncoderAt(ch, s, k) == EncoderNext(BestPredictor(s, ch), EncoderAt(ch, s, k - ch), s[k])
  {
  }

  ghost function CodeAt(ch: int, s: seq<int>, k: int): (code: int)
    requires (ch == 1 || ch == 2) && |s| >= 5 * ch && 2 * ch <= k < |s|
    ensures 0 <= code < 16
  {
    NibbleOf(ErrorDelta(BestPredictor(s, ch), EncoderAt(ch, s, k - ch), s[k]))
  }

  /** Predictors, then steps, then the second frame, then the first; 16-bit values low byte first. */
  function HeaderByte(ch: int, s: seq<int>, b: int): Byte
    requires (ch == 1 || ch == 2) && |s| >= 5 * ch && 0 <= b < 7 * ch
  {
    if b < ch then BestPredictor(s, ch)
    else
      var v := if b < 3 * ch then BestDelta(s, ch)
               else if b < 5 * ch then s[ch + (b - 3 * ch) / 2] else s[(b - 5 * ch) / 2];
      if (b - ch) % 2 == 0 then v % 256 else v / 256 % 256
  }

  ghost function EncodedByte(ch: int, size: int, s: seq<int>, b: int): Byte
    requires ValidInput(ch, size, s) && 0 <= b < size
  {
    if b < 7 * ch then HeaderByte(ch, s, b)
    else 16 * CodeAt(ch, s, 2 * ch + 2 * (b - 7 * ch)) + CodeAt(ch, s, 2 * ch + 2 * (b - 7 * ch) + 1)
  }

  ghost function EncodedBlock(ch: int, size: int, s: seq<int>): (r: seq<Byte>)
    requires ValidInput(ch, size, s)
    ensures |r| == size
  {
    seq(size, b requires 0 <= b < size => EncodedByte(ch, size, s, b))
  }

  // ----- Decoder -----

  /** msadpcm_get_bpred: out-of-range predictors read as 0. */
  function ReadPredictor(value: int): (p: int)
    requires value >= 0
    ensures ValidPredictor(p)
  {
    if value >= 7 then 0 else value
  }

  function HeaderWord(block: seq<Byte>, b: int): int
    requires 0 <= b && b + 1 < |block|
  {
    Word16(block[b], block[b + 1])
  }

  function HeaderState(ch: int, block: seq<Byte>, c: int): MsState
    requires (ch == 1 || ch == 2) && 0 <= c < ch && |block| >= 7 * ch
  {
    MsState(HeaderWord(block, 3 * ch + 2 * c), HeaderWord(block, 5 * ch + 2 * c), HeaderWord(block, ch + 2 * c))
  }

  /** The nibble a block holds for sample `k`: high nibble first. */
  function CodeIn(ch: int, block: seq<Byte>, k: int): (code: int)
    requires ReadShape(ch, |block|) && 2 * ch <= k < SamplesPerBlock(ch, |block|)
    ensures 0 <= code < 16
  {
    var b := block[7 * ch + (k - 2 * ch) / 2];
    if k % 2 == 0 then b / 16 else b % 16
  }

  ghost function DecoderAt(ch: int, block: seq<Byte>, k: int): (st: MsState)
    requires ReadShape(ch, |block|) && ch <= k < SamplesPerBlock(ch, |block|)
    decreases k
  {
    if k < 2 * ch then HeaderState(ch, block, k - ch)
    else DecoderNext(ReadPredictor(block[Chan(ch, k)]), DecoderAt(ch, block, k - ch), CodeIn(ch, block, k))
  }

  lemma DecoderStep(ch: int, block: seq<Byte>, k: int)
    requires ReadShape(ch, |block|) && ch <= k < SamplesPerBlock(ch, |block|)
    ensures k < 2 * ch ==> DecoderAt(ch, block, k) == HeaderState(ch, block, k - ch)
    ensures k >= 2 * ch ==>
              DecoderAt(ch, block, k)
              == DecoderNext(ReadPredictor(block[Chan(ch, k)]), DecoderAt(ch, block, k - ch), CodeIn(ch, block, k))
  {
  }

  ghost function DecodedSample(ch: int, block: seq<Byte>, k: int): int
    requires ReadShape(ch, |block|) && 0 <= k < SamplesPerBlock(ch, |block|)
  {
    if k < ch then HeaderState(ch, block, k).prev else DecoderAt(ch, block, k).cur
  }

  ghost function DecodedBlock(ch: int, block: seq<Byte>): (r: seq<int>)
    requires ReadShape(ch, |block|)
    ensures |r| == SamplesPerBlock(ch, |block|)
  {
    seq(SamplesPerBlock(ch, |block|), k requires 0 <= k < SamplesPerBlock(ch, |block|) => DecodedSample(ch, block, k))
  }

  /** A predictor that is none of the seven is read as the first. */
  lemma {:induction false} StrayPredictor(ch: int, block: seq<Byte>, c: int, k: int)
    requires ReadShape(ch, |block|) && 0 <= c < ch && block[c] >= 7 && ch <= k < SamplesPerBlock(ch, |block|)
    ensures DecoderAt(ch, block[c := 0], k) == DecoderAt(ch, block, k)
    decreases k
  {
    hide DecoderAt, DecoderNext;
    var read := block[c := 0];
    DecoderStep(ch, block, k);
    DecoderStep(ch, read, k);
    if k >= 2 * ch { StrayPredictor(ch, block, c, k - ch); }
  }

  // ----- Lockstep -----

  lemma HeaderFields(ch: int, s: seq<int>, c: int)
    requires (ch == 1 || ch == 2) && |s| >= 5 * ch && 0 <= c < ch
    ensures HeaderByte(ch, s, c) == BestPredictor(s, ch)
    ensures HeaderByte(ch, s, ch + 2 * c) == BestDelta(s, ch) % 256
    ensures HeaderByte(ch, s, ch + 2 * c + 1) == BestDelta(s, ch) / 256 % 256
    ensures HeaderByte(ch, s, 3 * ch + 2 * c) == s[ch + c] % 256
    ensures HeaderByte(ch, s, 3 * ch + 2 * c + 1) == s[ch + c] / 256 % 256
    ensures HeaderByte(ch, s, 5 * ch + 2 * c) == s[c] % 256
    ensures HeaderByte(ch, s, 5 * ch + 2 * c + 1) == s[c] / 256 % 256
  {
    hide BestPredictor, BestDelta;
  }

  lemma {:induction false} HeaderReadBack(ch: int, size: int, s: seq<int>, c: int)
    requires ValidInput(ch, size, s) && 0 <= c < ch
    ensures var block := EncodedBlock(ch, size, s);
            HeaderState(ch, block, c) == MsState(s[ch + c], s[c], BestDelta(s, ch))
            && ReadPredictor(block[c]) == BestPredictor(s, ch)
  {
    hide EncodedBlock, BestDelta, BestPredictor, HeaderByte, HeaderWord;
    BestDeltaFits(s, ch);
    HeaderFields(ch, s, c);
    var block := EncodedBlock(ch, size, s);
    HeaderWordReadBack(ch, size, s, ch + 2 * c, BestDelta(s, ch));
    HeaderWordReadBack(ch, size, s, 3 * ch + 2 * c, s[ch + c]);
    HeaderWordReadBack(ch, size, s, 5 * ch + 2 * c, s[c]);
    HeaderInBlock(ch, size, s, c);
  }

  lemma HeaderInBlock(ch: int, size: int, s: seq<int>, b: int)
    requires ValidInput(ch, size, s) && 0 <= b < 7 * ch
    ensures EncodedBlock(ch, size, s)[b] == HeaderByte(ch, s, b)
  {
    hide CodeAt, HeaderByte;
    assert EncodedBlock(ch, size, s)[b] == EncodedByte(ch, size, s, b);
  }

  lemma {:induction false} HeaderWordReadBack(ch: int, size: int, s: seq<int>, b: int, v: int)
    requires ValidInput(ch, size, s) && ch <= b && b + 1 < 7 * ch && IsInt16(v)
    requires HeaderByte(ch, s, b) == v % 256 && HeaderByte(ch, s, b + 1) == v / 256 % 256
    ensures HeaderWord(EncodedBlock(ch, size, s), b) == v
  {
    hide EncodedBlock, HeaderByte, Word16;
    HeaderInBlock(ch, size, s, b);
    HeaderInBlock(ch, size, s, b + 1);
    Word16Bytes(v);
  }

  lemma {:induction false} CodeReadBack(ch: int, size: int, s: seq<int>, k: int)
    requires ValidInput(ch, size, s) && 2 * ch <= k < |s|
    ensures CodeIn(ch, EncodedBlock(ch, size, s), k) == CodeAt(ch, s, k)
  {
    hide CodeAt;
    var b := 7 * ch + (k - 2 * ch) / 2;
    assert EncodedBlock(ch, size, s)[b] == EncodedByte(ch, size, s, b);
  }

  /** The encoder's steps up to sample `k` all fit 16 bits. */
  ghost predicate DeltasFit(ch: int, s: seq<int>, k: int)
    requires (ch == 1 || ch == 2) && |s| >= 5 * ch && k < |s|
  {
    forall j :: ch <= j <= k ==> EncoderAt(ch, s, j).idelta <= 32767
  }

  /** The decoder has followed the encoder up to sample `k`. */
  ghost predicate InStep(ch: int, size: int, s: seq<int>, k: int)
    requires ValidInput(ch, size, s) && k < |s|
  {
    forall j :: ch <= j <= k ==> DecoderAt(ch, EncodedBlock(ch, size, s), j) == EncoderAt(ch, s, j)
  }

  /** Decoding an encoded block reproduces the encoder's samples and steps, exactly up to the
      first step of the encoder that does not fit 16 bits. */
  lemma {:induction false} BlockLockstep(ch: int, size: int, s: seq<int>, k: int)
    requires ValidInput(ch, size, s) && k < |s|
    ensures InStep(ch, size, s, k) <==> DeltasFit(ch, s, k)
    decreases k
  {
    hide EncoderAt, DecoderAt, EncodedBlock, BestDelta, BestPredictor, CodeIn;
    if k >= ch {
      BlockLockstep(ch, size, s, k - 1);
      if DeltasFit(ch, s, k - 1) { NextInStep(ch, size, s, k); }
    }
  }

  lemma {:induction false} NextInStep(ch: int, size: int, s: seq<int>, k: int)
    requires ValidInput(ch, size, s) && ch <= k < |s| && InStep(ch, size, s, k - 1)
    ensures DecoderAt(ch, EncodedBlock(ch, size, s), k) == EncoderAt(ch, s, k)
       <==> EncoderAt(ch, s, k).idelta <= 32767
  {
    hide EncoderAt, DecoderAt, EncodedBlock, BestDelta, BestPredictor, CodeIn, EncoderNext, DecoderNext, HeaderState;
    var block := EncodedBlock(ch, size, s);
    EncoderStep(ch, s, k);
    DecoderStep(ch, block, k);
    HeaderReadBack(ch, size, s, Chan(ch, k));
    if k < 2 * ch {
      BestDeltaFits(s, ch);
      assert Chan(ch, k) == k - ch;
    } else {
      CodeReadBack(ch, size, s, k);
      StepLockstep(BestPredictor(s, ch), EncoderAt(ch, s, k - ch), s[k]);
    }
  }

  lemma SampleInStep(ch: int, size: int, s: seq<int>, k: int)
    requires ValidInput(ch, size, s) && 0 <= k < |s| && InStep(ch, size, s, |s| - 1)
    ensures DecodedSample(ch, EncodedBlock(ch, size, s), k) == if k < ch then s[k] else EncoderAt(ch, s, k).cur
  {
    hide EncoderAt, DecoderAt, EncodedBlock, HeaderState, ReadPredictor, BestDelta;
    if k < ch { HeaderReadBack(ch, size, s, k); }
  }

  /** If the predictor in the block's header is a calm one, every step fits: no two 16-bit samples
      are further apart than the steps can follow. */
  lemma {:induction false} CalmStepsFit(ch: int, s: seq<int>, k: int)
    requires (ch == 1 || ch == 2) && |s| >= 5 * ch && AllInt16(s) && k < |s| && Calm(BestPredictor(s, ch))
    ensures DeltasFit(ch, s, k)
    decreases k
  {
    hide EncoderAt, BestDelta, BestPredictor, EncoderNext, Predict;
    if k >= ch {
      CalmStepsFit(ch, s, k - 1);
      EncoderStep(ch, s, k);
      if k < 2 * ch {
        BestDeltaFits(s, ch);
      } else {
        var st := EncoderAt(ch, s, k - ch);
        EncoderSamples(ch, s, k - ch);
        CalmRange(BestPredictor(s, ch), st.cur, st.prev);
        StepFits(BestPredictor(s, ch), st, s[k]);
      }
    }
  }

  lemma EncoderSamples(ch: int, s: seq<int>, k: int)
    requires (ch == 1 || ch == 2) && |s| >= 5 * ch && AllInt16(s) && ch <= k < |s|
    ensures IsInt16(EncoderAt(ch, s, k).cur) && IsInt16(EncoderAt(ch, s, k).prev)
  {
    hide EncoderAt, BestDelta, BestPredictor, Predict, ErrorDelta, AdaptedDelta, Clamp16;
    EncoderStep(ch, s, k);
    if k >= 2 * ch { EncoderStep(ch, s, k - ch); }
  }

  /** So a block whose header names one is decoded as the encoder reconstructed it. */
  lemma {:induction false} CalmBlockInStep(ch: int, size: int, s: seq<int>)
    requires ValidInput(ch, size, s) && Calm(ReadPredictor(EncodedBlock(ch, size, s)[0]))
    ensures InStep(ch, size, s, |s| - 1)
  {
    hide EncoderAt, DecoderAt, EncodedBlock, BestDelta, BestPredictor, DeltasFit, InStep;
    HeaderReadBack(ch, size, s, 0);
    CalmStepsFit(ch, s, |s| - 1);
    BlockLockstep(ch, size, s, |s| - 1);
  }

  /** Eight samples of one channel on which the encoder's step outgrows 16 bits. */
  const LOUD: seq<int> := [-32768, -32768, -16000, 32767, 32767, -32768, 32767, 16000]

  lemma {:induction false} LoudCosts()
    ensures Cost(LOUD, 1, 0) == 5461 && Cost(LOUD, 1, 1) == 8127 && Cost(LOUD, 1, 2) == 6794
  {
  }

  lemma {:induction false} LoudLaterCosts()
    ensures Cost(LOUD, 1, 3) == 6826 && Cost(LOUD, 1, 4) == 5377 && Cost(LOUD, 1, 5) == 7521 && Cost(LOUD, 1, 6) == 5329
  {
  }

  lemma {:induction false} LoudPredictor()
    ensures BestPredictor(LOUD, 1) == 6 && BestDelta(LOUD, 1) == 5329
  {
    hide Cost;
    LoudCosts();
    LoudLaterCosts();
    assert Cheapest(LOUD, 1, 2) == 0;
    assert Cheapest(LOUD, 1, 4) == 0;
    assert Cheapest(LOUD, 1, 6) == 4;
  }

  /** The encoder's steps on it, one by one. */
  lemma {:induction false} LoudSteps()
    ensures EncoderNext(6, MsState(-32768, -32768, 5329), -16000) == MsState(-20480, -32768, 4787)
    ensures EncoderNext(6, MsState(-20480, -32768, 4787), 32767) == MsState(31845, -20480, 11481)
    ensures EncoderNext(6, MsState(31845, -20480, 11481), 32767) == MsState(32767, 31845, 10314)
    ensures EncoderNext(6, MsState(32767, 31845, 10314), -32768) == MsState(-30256, 32767, 16478)
    ensures EncoderNext(6, MsState(-30256, 32767, 16478), 32767) == MsState(22843, -30256, 32956)
    ensures EncoderNext(6, MsState(22843, -30256, 32956), 16000).cur == 29441
    ensures ErrorDelta(6, MsState(-30256, 32767, 16478), 32767) == 6
    ensures ErrorDelta(6, MsState(22843, -30256, 32956), 16000) == -1
  {
  }

  lemma {:induction false} LoudEncoder()
    ensures DeltasFit(1, LOUD, 5) && EncoderAt(1, LOUD, 5) == MsState(-30256, 32767, 16478)
    ensures EncoderAt(1, LOUD, 6) == MsState(22843, -30256, 32956) && CodeAt(1, LOUD, 6) == 6
    ensures EncoderAt(1, LOUD, 7).cur == 29441 && CodeAt(1, LOUD, 7) == 15
  {
    hide Cost, BestDelta, BestPredictor, EncoderAt, EncoderNext, ErrorDelta;
    LoudPredictor();
    LoudSteps();
    EncoderStep(1, LOUD, 1);
    EncoderStep(1, LOUD, 2);
    EncoderStep(1, LOUD, 3);
    EncoderStep(1, LOUD, 4);
    EncoderStep(1, LOUD, 5);
    EncoderStep(1, LOUD, 6);
    EncoderStep(1, LOUD, 7);
  }

  /** On it the decoder leaves the encoder: it clips where the encoder reconstructed 29441. */
  lemma {:induction false} LoudBlockDiffers()
    ensures ValidInput(1, 10, LOUD) && InStep(1, 10, LOUD, 5) && !InStep(1, 10, LOUD, 6)
    ensures EncoderAt(1, LOUD, 7).cur == 29441
    ensures DecodedSample(1, EncodedBlock(1, 10, LOUD), 7) == 32767
  {
    hide Cost, BestDelta, BestPredictor, EncoderAt, DecoderAt, EncodedBlock, CodeIn, CodeAt;
    LoudEncoder();
    LoudPredictor();
    BlockLockstep(1, 10, LOUD, 5);
    BlockLockstep(1, 10, LOUD, 6);
    var block := EncodedBlock(1, 10, LOUD);
    HeaderReadBack(1, 10, LOUD, 0);
    DecoderStep(1, block, 6);
    CodeReadBack(1, 10, LOUD, 6);
    assert DecoderNext(6, MsState(-30256, 32767, 16478), 6) == MsState(22843, -30256, 16);
    DecoderStep(1, block, 7);
    CodeReadBack(1, 10, LOUD, 7);
    assert DecoderNext(6, MsState(22843, -30256, 16), 15).cur == 32767;
  }

  /** A block of two channels, byte for byte: predictors, steps, second frame, first frame, then the
      codes of a frame in one byte, left one in its high half. */
  lemma {:induction false} StereoBlock()
    ensures ValidInput(2, 17, STEREO)
    ensures EncodedBlock(2, 17, STEREO) == [1, 1, 16, 0, 16, 0, 200, 0, 7, 0, 100, 0, 24, 252, 0x08, 0x08, 0x08]
  {
    hide BestPredictor, BestDelta, EncodedByte, EncoderAt, CodeAt, HeaderByte;
    StereoHeader();
    StereoCodes();
    InCodes(STEREO, 14);
    InCodes(STEREO, 15);
    InCodes(STEREO, 16);
    forall b | 0 <= b < 14 ensures EncodedByte(2, 17, STEREO, b) == HeaderByte(2, STEREO, b) { InHeader(STEREO, b); }
  }

  lemma InHeader(s: seq<int>, b: int)
    requires ValidInput(2, 17, s) && 0 <= b < 14
    ensures EncodedByte(2, 17, s, b) == HeaderByte(2, s, b)
  {
    hide HeaderByte, BestPredictor, BestDelta;
  }

  lemma InCodes(s: seq<int>, b: int)
    requires ValidInput(2, 17, s) && 14 <= b < 17
    ensures EncodedByte(2, 17, s, b) == 16 * CodeAt(2, s, 2 * b - 24) + CodeAt(2, s, 2 * b - 23)
  {
    hide CodeAt;
  }

  lemma {:induction false} StereoHeader()
    ensures var h := seq(14, b requires 0 <= b < 14 => HeaderByte(2, STEREO, b) as int);
            h == [1, 1, 16, 0, 16, 0, 200, 0, 7, 0, 100, 0, 24, 252]
  {
    hide HeaderByte, BestPredictor, BestDelta;
    StereoWitness();
    HeaderFields(2, STEREO, 0);
    HeaderFields(2, STEREO, 1);
  }

  lemma {:induction false} StereoCodes()
    ensures CodeAt(2, STEREO, 4) == 0 && CodeAt(2, STEREO, 6) == 0 && CodeAt(2, STEREO, 8) == 0
    ensures CodeAt(2, STEREO, 5) == 8 && CodeAt(2, STEREO, 7) == 8 && CodeAt(2, STEREO, 9) == 8
    ensures EncoderAt(2, STEREO, 5).cur == 886 && EncoderAt(2, STEREO, 6).cur == 400
    ensures EncoderAt(2, STEREO, 7).cur == 1381 && EncoderAt(2, STEREO, 8).cur == 500
    ensures EncoderAt(2, STEREO, 9).cur == 724
  {
    hide BestPredictor, BestDelta, EncoderAt, EncoderNext, ErrorDelta;
    StereoWitness();
    StereoSteps();
    EncoderStep(2, STEREO, 2);
    EncoderStep(2, STEREO, 3);
    EncoderStep(2, STEREO, 4);
    EncoderStep(2, STEREO, 5);
    EncoderStep(2, STEREO, 6);
    EncoderStep(2, STEREO, 7);
    EncoderStep(2, STEREO, 8);
    EncoderStep(2, STEREO, 9);
  }

  /** The steps of either channel. */
  lemma {:induction false} StereoSteps()
    ensures var st := MsState(200, 100, 16);
            ErrorDelta(1, st, 300) == 0 && EncoderNext(1, st, 300) == MsState(300, 200, 16)
    ensures var st := MsState(300, 200, 16);
            ErrorDelta(1, st, 400) == 0 && EncoderNext(1, st, 400) == MsState(400, 300, 16)
    ensures var st := MsState(400, 300, 16);
            ErrorDelta(1, st, 500) == 0 && EncoderNext(1, st, 500) == MsState(500, 400, 16)
    ensures var st := MsState(7, -1000, 16);
            ErrorDelta(1, st, -1000) == -8 && EncoderNext(1, st, -1000) == MsState(886, 7, 48)
    ensures var st := MsState(886, 7, 48);
            ErrorDelta(1, st, 7) == -8 && EncoderNext(1, st, 7) == MsState(1381, 886, 144)
    ensures var st := MsState(1381, 886, 144);
            ErrorDelta(1, st, -1000) == -8 && EncoderNext(1, st, -1000) == MsState(724, 1381, 432)
  {
  }
}
