/** msadpcm_encode_block, msadpcm_decode_block and choose_predictor, in place on the codec's arrays. */
module Ms {
  import opened Bits
  import opened Pcm
  import opened MsCode
  import opened MsBlock

  /** idelta_sum of one predictor. */
  method TrialCost(ch: int, data: array<int>, bpred: int) returns (ideltaSum: int)
    requires (ch == 1 || ch == 2) && data.Length >= 5 * ch && ValidPredictor(bpred)
    ensures ideltaSum == Cost(data[..], ch, bpred)
  {
    hide Predict;
    ghost var s := data[..];
    ideltaSum := 0;
    var k := 2;
    while k < 5
      invariant 2 <= k <= 5
      invariant ideltaSum == (if k > 2 then Miss(s, ch, bpred, 2) else 0) + (if k > 3 then Miss(s, ch, bpred, 3) else 0)
                           + (if k > 4 then Miss(s, ch, bpred, 4) else 0)
    {
      assert 0 <= (k - 2) * ch && k * ch < data.Length;
      ideltaSum := ideltaSum + Abs(data[k * ch] - Predict(bpred, data[(k - 1) * ch], data[(k - 2) * ch]));
      k := k + 1;
    }
    ideltaSum := ideltaSum / 12;
  }

  /** The trial loop for one channel: the first predictor of least cost, and a step of at least 16. */
  method ChooseForChannel(ch: int, data: array<int>) returns (bestBpred: int, bestIdelta: int)
    requires (ch == 1 || ch == 2) && data.Length >= 5 * ch && AllInt16(data[..])
    ensures bestBpred == BestPredictor(data[..], ch) && bestIdelta == BestDelta(data[..], ch)
  {
    hide Cost;
    ghost var s := data[..];
    bestBpred, bestIdelta := 0, 0;
    var bpred := 0;
    while bpred < 7
      invariant 0 <= bpred <= 7
      invariant bpred > 0 ==> bestBpred == Cheapest(s, ch, bpred) && bestIdelta == Cost(s, ch, bestBpred) > 0
    {
      var ideltaSum := TrialCost(ch, data, bpred);
      if bpred == 0 || ideltaSum < bestIdelta {
        bestBpred, bestIdelta := bpred, ideltaSum;
      }
      assert bestBpred == Cheapest(s, ch, bpred + 1);
      if ideltaSum == 0 {
        FreeIsCheapest(s, ch, bpred + 1, 7);
        bestBpred, bestIdelta := bpred, 16;
        break;
      }
      bpred := bpred + 1;
    }
    if bestIdelta < 16 {
      bestIdelta := 16;
    }
  }

  /** Once a predictor costs nothing, no later one is cheaper. */
  lemma {:induction false} FreeIsCheapest(s: seq<int>, ch: int, m: int, n: int)
    requires (ch == 1 || ch == 2) && |s| >= 5 * ch && 1 <= m <= n <= 7
    requires Cost(s, ch, m - 1) == 0
    ensures Cheapest(s, ch, n) == Cheapest(s, ch, m) && Cost(s, ch, Cheapest(s, ch, m)) == 0
    decreases n
  {
    hide Cost;
    if n > m { FreeIsCheapest(s, ch, m, n - 1); }
  }

  /** Predictor and step of the first `n` channels are the best ones. */
  predicate Chosen(ch: int, s: seq<int>, bpred: seq<int>, idelta: seq<int>, n: int)
    requires (ch == 1 || ch == 2) && |s| >= 5 * ch && n <= |bpred| && n <= |idelta|
  {
    forall c :: 0 <= c < n ==> bpred[c] == BestPredictor(s, ch) && idelta[c] == BestDelta(s, ch)
  }

  method ChoosePredictor(ch: int, data: array<int>) returns (blockPred: seq<int>, idelta: seq<int>)
    requires (ch == 1 || ch == 2) && data.Length >= 5 * ch && AllInt16(data[..])
    ensures |blockPred| == ch == |idelta|
    ensures Chosen(ch, data[..], blockPred, idelta, ch)
  {
    hide BestPredictor, BestDelta;
    blockPred, idelta := [], [];
    var chan := 0;
    while chan < ch
      invariant 0 <= chan <= ch && |blockPred| == chan == |idelta|
      invariant Chosen(ch, data[..], blockPred, idelta, chan)
    {
      var p, d := ChooseForChannel(ch, data);
      blockPred, idelta := blockPred + [p], idelta + [d];
      chan := chan + 1;
    }
  }

  /** The header of a block of one channel. */
  method EncodeMonoHeader(block: array<Byte>, samples: array<int>, p: int, idelta: int)
    requires block.Length >= 7 && samples.Length >= 5 && ValidPredictor(p) && 0 <= idelta <= 32767
    requires block as object != samples as object
    modifies block
    ensures block[..7] == [p, idelta % 256, idelta / 256 % 256,
                           samples[1] % 256, samples[1] / 256 % 256, samples[0] % 256, samples[0] / 256 % 256]
  {
    block[0] := p;
    block[1] := idelta % 256;
    block[2] := idelta / 256 % 256;
    block[3] := samples[1] % 256;
    block[4] := samples[1] / 256 % 256;
    block[5] := samples[0] % 256;
    block[6] := samples[0] / 256 % 256;
  }

  /** The header of a block of two channels. */
  method EncodeStereoHeader(block: array<Byte>, samples: array<int>, p: seq<int>, idelta: seq<int>)
    requires block.Length >= 14 && samples.Length >= 10 && |p| == 2 == |idelta|
    requires ValidPredictor(p[0]) && ValidPredictor(p[1]) && 0 <= idelta[0] <= 32767 && 0 <= idelta[1] <= 32767
    requires block as object != samples as object
    modifies block
    ensures block[..14] == [p[0], p[1],
                            idelta[0] % 256, idelta[0] / 256 % 256, idelta[1] % 256, idelta[1] / 256 % 256,
                            samples[2] % 256, samples[2] / 256 % 256, samples[3] % 256, samples[3] / 256 % 256,
                            samples[0] % 256, samples[0] / 256 % 256, samples[1] % 256, samples[1] / 256 % 256]
  {
    block[0] := p[0];
    block[1] := p[1];
    block[2] := idelta[0] % 256;
    block[3] := idelta[0] / 256 % 256;
    block[4] := idelta[1] % 256;
    block[5] := idelta[1] / 256 % 256;
    block[6] := samples[2] % 256;
    block[7] := samples[2] / 256 % 256;
    block[8] := samples[3] % 256;
    block[9] := samples[3] / 256 % 256;
    block[10] := samples[0] % 256;
    block[11] := samples[0] / 256 % 256;
    block[12] := samples[1] % 256;
    block[13] := samples[1] / 256 % 256;
  }

  /** The fields of the mono header in order. */
  lemma MonoHeaderBytes(s: seq<int>, header: seq<Byte>)
    requires |s| >= 5 && AllInt16(s) && BestDelta(s, 1) <= 32767
    requires var p, d := BestPredictor(s, 1), BestDelta(s, 1);
             header == [p, d % 256, d / 256 % 256, s[1] % 256, s[1] / 256 % 256, s[0] % 256, s[0] / 256 % 256]
    ensures forall b :: 0 <= b < 7 ==> header[b] == HeaderByte(1, s, b)
  {
    hide BestPredictor, BestDelta, HeaderByte;
    HeaderFields(1, s, 0);
  }

  /** The fields of the stereo header in order. */
  lemma StereoHeaderBytes(s: seq<int>, header: seq<Byte>)
    requires |s| >= 10 && AllInt16(s) && BestDelta(s, 2) <= 32767
    requires var p, d := BestPredictor(s, 2), BestDelta(s, 2);
             header == [p, p, d % 256, d / 256 % 256, d % 256, d / 256 % 256,
                        s[2] % 256, s[2] / 256 % 256, s[3] % 256, s[3] / 256 % 256,
                        s[0] % 256, s[0] / 256 % 256, s[1] % 256, s[1] / 256 % 256]
    ensures forall b :: 0 <= b < 14 ==> header[b] == HeaderByte(2, s, b)
  {
    hide BestPredictor, BestDelta, HeaderByte;
    HeaderFields(2, s, 0);
    HeaderFields(2, s, 1);
  }

  /** The block header: one layout for one channel, another for two. */
  method EncodeHeader(ch: int, block: array<Byte>, samples: array<int>, bpred: seq<int>, idelta: seq<int>)
    requires (ch == 1 || ch == 2) && block.Length >= 7 * ch && samples.Length >= 5 * ch && AllInt16(samples[..])
    requires block as object != samples as object && |bpred| == ch == |idelta|
    requires Chosen(ch, samples[..], bpred, idelta, ch) && BestDelta(samples[..], ch) <= 32767
    modifies block
    ensures forall b :: 0 <= b < 7 * ch ==> block[b] == HeaderByte(ch, samples[..], b)
  {
    hide BestPredictor, BestDelta, HeaderByte;
    ghost var s := samples[..];
    if ch == 1 {
      EncodeMonoHeader(block, samples, bpred[0], idelta[0]);
      MonoHeaderBytes(s, block[..7]);
    } else {
      EncodeStereoHeader(block, samples, bpred, idelta);
      StereoHeaderBytes(s, block[..14]);
    }
    ghost var header := block[..7 * ch];
    assert forall b :: 0 <= b < 7 * ch ==> block[b] == header[b];
  }

  /** The arithmetic of the coding loop: nibble, new sample, new step. */
  method CodeSample(p: int, ghost st: MsState, cur: int, prev: int, idelta: int, sample: int)
      returns (nibble: int, newsamp: int, idelta': int)
    requires ValidPredictor(p) && st == MsState(cur, prev, idelta) && idelta > 0
    ensures nibble == NibbleOf(ErrorDelta(p, st, sample))
    ensures EncoderNext(p, st, sample) == MsState(newsamp, cur, idelta')
  {
    hide Predict, CDiv, Adaptation;
    var predict := Predict(p, cur, prev);
    var errordelta := CDiv(sample - predict, idelta);
    if errordelta < -8 {
      errordelta := -8;
    } else if errordelta > 7 {
      errordelta := 7;
    }
    newsamp := predict + idelta * errordelta;
    if newsamp > 32767 {
      newsamp := 32767;
    } else if newsamp < -32768 {
      newsamp := -32768;
    }
    if errordelta < 0 {
      errordelta := errordelta + 0x10;
    }
    nibble := errordelta;
    idelta' := idelta * Adaptation(errordelta) / 256;
    if idelta' < 16 {
      idelta' := 16;
    }
  }

  /** The step of channel `k % ch` is the encoder's after sample `k`. */
  ghost predicate Holds(ch: int, s: seq<int>, k: int, idelta: seq<int>)
    requires (ch == 1 || ch == 2) && |s| >= 5 * ch && ch <= k < |s| && |idelta| == ch
  {
    idelta[Chan(ch, k)] == EncoderAt(ch, s, k).idelta
  }

  /** What samples[] holds while coding: reconstructions below `k`, input from there on. */
  ghost predicate CodedTo(ch: int, s: seq<int>, now: seq<int>, k: int)
    requires (ch == 1 || ch == 2) && |s| >= 5 * ch && |now| == |s| && ch <= k <= |s|
  {
    && (forall j :: 0 <= j < ch ==> now[j] == s[j])
    && (forall j :: ch <= j < k ==> now[j] == EncoderAt(ch, s, j).cur)
    && (forall j :: k <= j < |s| ==> now[j] == s[j])
  }

  lemma {:induction false} StateFromSamples(ch: int, s: seq<int>, now: seq<int>, k: int)
    requires (ch == 1 || ch == 2) && |s| >= 5 * ch && |now| == |s| && 2 * ch <= k < |s|
    requires CodedTo(ch, s, now, k)
    ensures var st := EncoderAt(ch, s, k - ch); now[k - ch] == st.cur && now[k - 2 * ch] == st.prev && now[k] == s[k]
  {
    hide EncoderAt, EncoderNext, BestPredictor, BestDelta;
    EncoderStep(ch, s, k - ch);
    if k >= 3 * ch { NextPrev(BestPredictor(s, ch), EncoderAt(ch, s, k - 2 * ch), s[k - ch]); }
  }

  lemma NextPrev(p: int, st: MsState, s: int)
    requires ValidPredictor(p) && st.idelta > 0
    ensures EncoderNext(p, st, s).prev == st.cur
  {
  }

  /** The two coding loops of the source, one for each channel count, as one: both write a byte
      at every odd sample, high nibble first. */
  method EncodeSamples(ch: int, block: array<Byte>, samples: array<int>, bpred: seq<int>, idelta0: seq<int>)
    requires ValidInput(ch, block.Length, samples[..]) && block as object != samples as object
    requires |bpred| == ch == |idelta0|
    requires Chosen(ch, samples[..], bpred, idelta0, ch)
    modifies block, samples
    ensures forall b :: 0 <= b < 7 * ch ==> block[b] == old(block[b])
    ensures forall b :: 7 * ch <= b < block.Length ==>
              block[b] == EncodedByte(ch, block.Length, old(samples[..]), b)
    ensures CodedTo(ch, old(samples[..]), samples[..], samples.Length)
  {
    hide EncoderAt, CodeAt, BestPredictor, BestDelta, EncoderNext, ErrorDelta, EncodedByte, CodedTo, Holds;
    ghost var s := samples[..];
    ghost var size := block.Length;
    var idelta := idelta0;
    var blockindx, byte := 7 * ch, 0;
    var k := 2 * ch;
    CodingStarts(ch, s, idelta);
    while k < samples.Length
      invariant 2 * ch <= k <= samples.Length && |idelta| == ch
      invariant blockindx == 7 * ch + (k - 2 * ch) / 2
      invariant byte == if k % 2 == 1 then CodeAt(ch, s, k - 1) else 0
      invariant CodedTo(ch, s, samples[..], k)
      invariant Holds(ch, s, k - 1, idelta) && (ch == 2 ==> Holds(ch, s, k - 2, idelta))
      invariant forall b :: 0 <= b < 7 * ch ==> block[b] == old(block[b])
      invariant forall b :: 7 * ch <= b < blockindx ==> block[b] == EncodedByte(ch, size, s, b)
    {
      var chan := Chan(ch, k);
      ghost var now := samples[..];
      SampleStep(ch, s, now, k, idelta);
      ghost var st := EncoderAt(ch, s, k - ch);
      var nibble, newsamp, next :=
        CodeSample(bpred[chan], st, samples[k - ch], samples[k - 2 * ch], idelta[chan], samples[k]);
      CodedStep(ch, s, now, k, newsamp);
      HoldsStep(ch, s, k, idelta, next);
      byte := (byte * 16 + nibble) % 256;
      if k % 2 == 1 {
        CodedByte(ch, size, s, k);
        block[blockindx] := byte;
        blockindx := blockindx + 1;
        byte := 0;
      }
      idelta := idelta[chan := next];
      samples[k] := newsamp;
      assert samples[..] == now[k := newsamp];
      k := k + 1;
    }
  }

  lemma CodingStarts(ch: int, s: seq<int>, idelta: seq<int>)
    requires (ch == 1 || ch == 2) && |s| >= 5 * ch && |idelta| == ch
    requires forall c :: 0 <= c < ch ==> idelta[c] == BestDelta(s, ch)
    ensures CodedTo(ch, s, s, 2 * ch)
    ensures Holds(ch, s, 2 * ch - 1, idelta) && (ch == 2 ==> Holds(ch, s, 2, idelta))
  {
    hide EncoderAt, BestDelta, BestPredictor;
    EncoderStep(ch, s, ch);
    EncoderStep(ch, s, 2 * ch - 1);
  }

  /** What the loop finds before coding sample `k`, and what coding it must give. */
  lemma SampleStep(ch: int, s: seq<int>, now: seq<int>, k: int, idelta: seq<int>)
    requires (ch == 1 || ch == 2) && |s| >= 5 * ch && |now| == |s| && 2 * ch <= k < |s| && |idelta| == ch
    requires CodedTo(ch, s, now, k)
    requires Holds(ch, s, k - 1, idelta) && (ch == 2 ==> Holds(ch, s, k - 2, idelta))
    ensures EncoderAt(ch, s, k - ch) == MsState(now[k - ch], now[k - 2 * ch], idelta[Chan(ch, k)]) && now[k] == s[k]
    ensures EncoderAt(ch, s, k) == EncoderNext(BestPredictor(s, ch), EncoderAt(ch, s, k - ch), s[k])
    ensures CodeAt(ch, s, k) == NibbleOf(ErrorDelta(BestPredictor(s, ch), EncoderAt(ch, s, k - ch), s[k]))
  {
    hide EncoderAt, CodeAt, EncoderNext, BestPredictor, BestDelta, CodedTo, ErrorDelta;
    EncoderStep(ch, s, k);
    StateFromSamples(ch, s, now, k);
    CodeIs(ch, s, k);
    assert Holds(ch, s, k - ch, idelta);
  }

  lemma CodedStep(ch: int, s: seq<int>, now: seq<int>, k: int, newsamp: int)
    requires (ch == 1 || ch == 2) && |s| >= 5 * ch && |now| == |s| && 2 * ch <= k < |s|
    requires CodedTo(ch, s, now, k) && newsamp == EncoderAt(ch, s, k).cur
    ensures CodedTo(ch, s, now[k := newsamp], k + 1)
  {
    hide EncoderAt;
  }

  lemma HoldsStep(ch: int, s: seq<int>, k: int, idelta: seq<int>, next: int)
    requires (ch == 1 || ch == 2) && |s| >= 5 * ch && 2 * ch <= k < |s| && |idelta| == ch
    requires Holds(ch, s, k - 1, idelta) && next == EncoderAt(ch, s, k).idelta
    ensures Holds(ch, s, k, idelta[Chan(ch, k) := next])
            && (ch == 2 ==> Holds(ch, s, k - 1, idelta[Chan(ch, k) := next]))
  {
    hide EncoderAt;
  }

  lemma CodedByte(ch: int, size: int, s: seq<int>, k: int)
    requires ValidInput(ch, size, s) && 2 * ch < k < |s| && k % 2 == 1
    ensures var b := 7 * ch + (k - 2 * ch) / 2;
            7 * ch <= b < size && EncodedByte(ch, size, s, b) == 16 * CodeAt(ch, s, k - 1) + CodeAt(ch, s, k)
  {
    hide CodeAt;
  }

  lemma CodeIs(ch: int, s: seq<int>, k: int)
    requires (ch == 1 || ch == 2) && |s| >= 5 * ch && 2 * ch <= k < |s|
    ensures CodeAt(ch, s, k) == NibbleOf(ErrorDelta(BestPredictor(s, ch), EncoderAt(ch, s, k - ch), s[k]))
  {
  }

  /** msadpcm_encode_block up to the write: samples[] is left holding the reconstruction. */
  method EncodeBlock(ch: int, block: array<Byte>, samples: array<int>)
    requires ValidInput(ch, block.Length, samples[..]) && block as object != samples as object
    modifies block, samples
    ensures block[..] == EncodedBlock(ch, block.Length, old(samples[..]))
    ensures CodedTo(ch, old(samples[..]), samples[..], samples.Length)
  {
    hide EncoderAt, CodeAt, BestPredictor, BestDelta, HeaderByte;
    ghost var s := samples[..];
    var bpred, idelta := ChoosePredictor(ch, samples);
    BestDeltaFits(s, ch);
    EncodeHeader(ch, block, samples, bpred, idelta);
    EncodeSamples(ch, block, samples, bpred, idelta);
  }

  // ----- Decoding -----

  /** The first two frames and the steps were taken from the header. */
  ghost predicate HeaderRead(ch: int, bytes: seq<Byte>, now: seq<int>, chanIdelta: seq<int>)
    requires (ch == 1 || ch == 2) && |bytes| >= 7 * ch && |now| >= 2 * ch && |chanIdelta| == ch
  {
    && HeaderState(ch, bytes, 0) == MsState(now[ch], now[0], chanIdelta[0])
    && (ch == 2 ==> HeaderState(ch, bytes, 1) == MsState(now[3], now[1], chanIdelta[1]))
  }

  /** Predictors, steps and the first two frames: one layout for one channel, another for two. */
  method DecodeHeader(ch: int, block: array<Byte>, samples: array<int>) returns (bpred: seq<int>, chanIdelta: seq<int>)
    requires ReadShape(ch, block.Length) && samples.Length == SamplesPerBlock(ch, block.Length)
    requires block as object != samples as object
    modifies samples
    ensures |bpred| == ch == |chanIdelta|
    ensures forall c :: 0 <= c < ch ==> bpred[c] == ReadPredictor(block[c])
    ensures HeaderRead(ch, block[..], samples[..], chanIdelta)
  {
    hide Word16;
    if ch == 1 {
      bpred := [ReadPredictor(block[0])];
      chanIdelta := [Word16(block[1], block[2])];
      samples[1] := Word16(block[3], block[4]);
      samples[0] := Word16(block[5], block[6]);
    } else {
      bpred := [ReadPredictor(block[0]), ReadPredictor(block[1])];
      chanIdelta := [Word16(block[2], block[3]), Word16(block[4], block[5])];
      samples[2] := Word16(block[6], block[7]);
      samples[3] := Word16(block[8], block[9]);
      samples[0] := Word16(block[10], block[11]);
      samples[1] := Word16(block[12], block[13]);
    }
  }

  method UnpackNibbles(ch: int, block: array<Byte>, samples: array<int>)
    requires ReadShape(ch, block.Length) && samples.Length == SamplesPerBlock(ch, block.Length)
    requires block as object != samples as object
    modifies samples
    ensures forall k :: 0 <= k < 2 * ch ==> samples[k] == old(samples[k])
    ensures forall k :: 2 * ch <= k < samples.Length ==> samples[k] == CodeIn(ch, block[..], k)
  {
    ghost var bytes := block[..];
    var blockindx, sampleindx := 7 * ch, 2 * ch;
    while blockindx < block.Length
      invariant 7 * ch <= blockindx <= block.Length && sampleindx == 2 * ch + 2 * (blockindx - 7 * ch)
      invariant block[..] == bytes
      invariant forall k :: 0 <= k < 2 * ch ==> samples[k] == old(samples[k])
      invariant forall k :: 2 * ch <= k < sampleindx ==> samples[k] == CodeIn(ch, bytes, k)
    {
      NibblesOfByte(ch, bytes, blockindx);
      var bytecode := block[blockindx];
      blockindx := blockindx + 1;
      samples[sampleindx] := bytecode / 16 % 16;
      sampleindx := sampleindx + 1;
      samples[sampleindx] := bytecode % 16;
      sampleindx := sampleindx + 1;
    }
  }

  lemma NibblesOfByte(ch: int, bytes: seq<Byte>, b: int)
    requires ReadShape(ch, |bytes|) && 7 * ch <= b < |bytes|
    ensures var k := 2 * ch + 2 * (b - 7 * ch);
            2 * ch <= k && k + 1 < SamplesPerBlock(ch, |bytes|)
            && CodeIn(ch, bytes, k) == bytes[b] / 16 % 16 && CodeIn(ch, bytes, k + 1) == bytes[b] % 16
  {
  }

  /** The arithmetic of the decode loop. */
  method ExpandSample(p: int, ghost st: MsState, cur: int, prev: int, idelta: int, nibble: int)
      returns (current: int, chanIdelta: int)
    requires ValidPredictor(p) && st == MsState(cur, prev, idelta) && 0 <= nibble < 16
    ensures DecoderNext(p, st, nibble) == MsState(current, cur, chanIdelta)
  {
    hide Predict, Adaptation;
    chanIdelta := Int16(Adaptation(nibble) * idelta / 256);
    if chanIdelta < 16 {
      chanIdelta := 16;
    }
    var bytecode := nibble;
    if bytecode >= 8 {
      bytecode := bytecode - 0x10;
    }
    var predict := Predict(p, cur, prev);
    current := bytecode * idelta + predict;
    if current > 32767 {
      current := 32767;
    } else if current < -32768 {
      current := -32768;
    }
  }

  ghost predicate Tracks(ch: int, bytes: seq<Byte>, k: int, chanIdelta: seq<int>)
    requires ReadShape(ch, |bytes|) && ch <= k < SamplesPerBlock(ch, |bytes|) && |chanIdelta| == ch
  {
    chanIdelta[Chan(ch, k)] == DecoderAt(ch, bytes, k).idelta
  }

  /** samples[] while decoding: decoded below `k`, nibbles from there on. */
  ghost predicate DecodedTo(ch: int, bytes: seq<Byte>, now: seq<int>, k: int)
    requires ReadShape(ch, |bytes|) && |now| == SamplesPerBlock(ch, |bytes|) && 2 * ch <= k <= |now|
  {
    && (forall j :: 0 <= j < k ==> now[j] == DecodedSample(ch, bytes, j))
    && (forall j :: k <= j < |now| ==> now[j] == CodeIn(ch, bytes, j))
  }

  lemma {:induction false} StateFromDecoded(ch: int, bytes: seq<Byte>, now: seq<int>, k: int)
    requires ReadShape(ch, |bytes|) && |now| == SamplesPerBlock(ch, |bytes|) && 2 * ch <= k < |now|
    requires DecodedTo(ch, bytes, now, k)
    ensures var st := DecoderAt(ch, bytes, k - ch); now[k - ch] == st.cur && now[k - 2 * ch] == st.prev
  {
    hide DecoderAt, DecoderNext, CodeIn, HeaderState, SamplesPerBlock;
    DecoderStep(ch, bytes, k - ch);
    if k >= 3 * ch {
      DecoderNextPrev(ReadPredictor(bytes[Chan(ch, k - ch)]),
                      DecoderAt(ch, bytes, k - 2 * ch), CodeIn(ch, bytes, k - ch));
    }
  }

  lemma DecoderNextPrev(p: int, st: MsState, code: int)
    requires ValidPredictor(p) && 0 <= code < 16
    ensures DecoderNext(p, st, code).prev == st.cur
  {
  }

  method DecodeSamples(ch: int, ghost bytes: seq<Byte>, samples: array<int>, bpred: seq<int>, chanIdelta0: seq<int>)
    requires ReadShape(ch, |bytes|) && samples.Length == SamplesPerBlock(ch, |bytes|)
    requires |bpred| == ch == |chanIdelta0|
    requires forall c :: 0 <= c < ch ==> bpred[c] == ReadPredictor(bytes[c])
    requires HeaderRead(ch, bytes, samples[..], chanIdelta0)
    requires forall k :: 2 * ch <= k < samples.Length ==> samples[k] == CodeIn(ch, bytes, k)
    modifies samples
    ensures samples[..] == DecodedBlock(ch, bytes)
  {
    hide DecoderAt, DecoderNext, CodeIn, HeaderState, SamplesPerBlock;
    var chanIdelta := chanIdelta0;
    var k := 2 * ch;
    DecoderStep(ch, bytes, ch);
    DecoderStep(ch, bytes, 2 * ch - 1);
    while k < samples.Length
      invariant 2 * ch <= k <= samples.Length && |chanIdelta| == ch
      invariant Tracks(ch, bytes, k - 1, chanIdelta) && (ch == 2 ==> Tracks(ch, bytes, k - 2, chanIdelta))
      invariant DecodedTo(ch, bytes, samples[..], k)
    {
      var chan := Chan(ch, k);
      DecoderStep(ch, bytes, k);
      StateFromDecoded(ch, bytes, samples[..], k);
      assert Tracks(ch, bytes, k - ch, chanIdelta);
      ghost var st := DecoderAt(ch, bytes, k - ch);
      var current, next := ExpandSample(bpred[chan], st, samples[k - ch], samples[k - 2 * ch],
                                        chanIdelta[chan], samples[k] % 16);
      chanIdelta := chanIdelta[chan := next];
      samples[k] := current;
      k := k + 1;
    }
  }

  /** msadpcm_decode_block behind the read. */
  method DecodeBlock(ch: int, block: array<Byte>, samples: array<int>)
    requires ReadShape(ch, block.Length) && samples.Length == SamplesPerBlock(ch, block.Length)
    requires block as object != samples as object
    modifies samples
    ensures samples[..] == DecodedBlock(ch, block[..])
  {
    hide HeaderState, CodeIn, DecodedBlock, ReadPredictor;
    ghost var bytes := block[..];
    var bpred, chanIdelta := DecodeHeader(ch, block, samples);
    UnpackNibbles(ch, block, samples);
    DecodeSamples(ch, bytes, samples, bpred, chanIdelta);
  }
}
