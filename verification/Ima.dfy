/** wavlike_ima_encode_block and wavlike_ima_decode_block, in place on the codec's two arrays. */
module Ima {
  import opened Bits
  import opened ImaCode
  import opened ImaBlock
  import opened Pcm

  /** The body of the encode loop: nibble, new previous value, new step index. */
  method Quantise(previous: int, stepindx: int, sample: int) returns (bytecode: int, previous': int, stepindx': int)
    requires ValidPredictor(Predictor(previous, stepindx)) && IsInt16(sample)
    ensures bytecode == CodeFor(Predictor(previous, stepindx), sample)
    ensures Predictor(previous', stepindx') == Reconstruct(Predictor(previous, stepindx), sample)
  {
    hide StepSize, IndexAdjust, Clamp16, ClampIndex, Greedy;
    ghost var p := Predictor(previous, stepindx);
    var diff := sample - previous;
    bytecode := 0;
    var step: int := StepSize(stepindx);
    var vpdiff := step / 8;
    if diff < 0 {
      bytecode := 8;
      diff := -diff;
    }
    ghost var sign, base := bytecode, vpdiff;
    var mask := 4;
    while mask != 0
      invariant mask >= 0
      invariant var g := Greedy(diff, step, mask);
                SearchFor(p, sample) == Search(bytecode - sign + g.code, vpdiff - base + g.covered)
      decreases mask
    {
      GreedyUnfold(diff, step, mask);
      if diff >= step {
        bytecode := bytecode + mask;
        diff := diff - step;
        vpdiff := vpdiff + step;
      }
      step := step / 2;
      mask := mask / 2;
    }
    GreedyUnfold(diff, step, mask);
    previous' := Clamp16(if bytecode >= 8 then previous - vpdiff else previous + vpdiff);
    GreedyCode(Abs(sample - previous), StepSize(stepindx));
    stepindx' := ClampIndex(stepindx + IndexAdjust(bytecode));
  }

  /** Header bytes and previous[] from the first frame. */
  method EncodeHeader(ch: int, block: array<Byte>, samples: array<int>, stepindx: seq<int>) returns (previous: seq<int>)
    requires (ch == 1 || ch == 2) && 4 * ch <= block.Length && ch <= samples.Length
    requires ValidIndices(ch, stepindx)
    modifies block
    ensures |previous| == ch && forall c :: 0 <= c < ch ==> previous[c] == samples[c]
    ensures forall b :: 0 <= b < 4 * ch ==> block[b] == HeaderByte(samples[..], stepindx, b)
  {
    previous := [];
    var chan := 0;
    while chan < ch
      invariant 0 <= chan <= ch && |previous| == chan
      invariant forall c :: 0 <= c < chan ==> previous[c] == samples[c]
      invariant forall b :: 0 <= b < 4 * chan ==> block[b] == HeaderByte(samples[..], stepindx, b)
    {
      hide HeaderByte;
      HeaderBytes(samples[..], stepindx, chan);
      assert ValidIndex(stepindx[chan]);
      block[chan * 4] := samples[chan] % 256;
      block[chan * 4 + 1] := samples[chan] / 256 % 256;
      block[chan * 4 + 2] := stepindx[chan];
      block[chan * 4 + 3] := 0;
      previous := previous + [samples[chan]];
      chan := chan + 1;
    }
  }

  /** previous[] and stepindx[] of channel `k % ch` are the encoder's after sample `k`. */
  ghost predicate Holds(ch: int, s: seq<int>, index: seq<int>, k: int, previous: seq<int>, stepindx: seq<int>)
    requires (ch == 1 || ch == 2) && AllInt16(s) && ValidIndices(ch, index) && 0 <= k < |s|
    requires |previous| == ch == |stepindx|
  {
    Predictor(previous[Chan(ch, k)], stepindx[Chan(ch, k)]) == EncoderAt(ch, s, index, k)
  }

  method EncodeSamples(ch: int, samples: array<int>, previous0: seq<int>, index: seq<int>)
      returns (previous: seq<int>, stepindx: seq<int>)
    requires (ch == 1 || ch == 2) && ch <= samples.Length && samples.Length % ch == 0
    requires AllInt16(samples[..]) && ValidIndices(ch, index)
    requires |previous0| == ch && forall c :: 0 <= c < ch ==> previous0[c] == samples[c]
    modifies samples
    ensures forall k :: 0 <= k < ch ==> samples[k] == old(samples[k])
    ensures forall k :: ch <= k < samples.Length ==> samples[k] == CodeAt(ch, old(samples[..]), index, k)
    ensures |previous| == ch && stepindx == NextIndices(ch, old(samples[..]), index)
    ensures forall k :: samples.Length - ch <= k < samples.Length ==>
              previous[Chan(ch, k)] == EncoderAt(ch, old(samples[..]), index, k).sample
  {
    hide CodeFor, Reconstruct, EncoderAt;
    ghost var s := samples[..];
    previous, stepindx := previous0, index;
    var k := ch;
    EncoderStep(ch, s, index, 0);
    EncoderStep(ch, s, index, ch - 1);
    while k < samples.Length
      invariant ch <= k <= samples.Length && |previous| == ch == |stepindx|
      invariant Holds(ch, s, index, k - 1, previous, stepindx)
      invariant ch == 2 ==> Holds(ch, s, index, k - 2, previous, stepindx)
      invariant forall j :: 0 <= j < ch ==> samples[j] == s[j]
      invariant forall j :: ch <= j < k ==> samples[j] == CodeAt(ch, s, index, j)
      invariant forall j :: k <= j < samples.Length ==> samples[j] == s[j]
    {
      var chan := Chan(ch, k);
      EncoderStep(ch, s, index, k);
      assert Holds(ch, s, index, k - ch, previous, stepindx);
      ghost var p := EncoderAt(ch, s, index, k - ch);
      assert Predictor(previous[chan], stepindx[chan]) == p;
      var bytecode, previous', stepindx' := Quantise(previous[chan], stepindx[chan], samples[k]);
      previous, stepindx := previous[chan := previous'], stepindx[chan := stepindx'];
      samples[k] := bytecode;
      k := k + 1;
    }
    assert Holds(ch, s, index, |s| - 1, previous, stepindx);
    if ch == 2 {
      assert |s| - 1 == 2 * (|s| / 2 - 1) + 1;
      assert Holds(ch, s, index, |s| - 2, previous, stepindx);
    }
  }

  // ----- Packing -----

  function PackedByte(ch: int, codes: seq<int>, b: int): Byte
    requires 0 <= Slot(ch, b) < |codes| && 0 <= Slot(ch, b) + ch < |codes|
  {
    codes[Slot(ch, b)] % 16 + codes[Slot(ch, b) + ch] % 16 * 16
  }

  /** Byte `b` is the first of a group of four bytes per channel, sample `k` the first it codes. */
  predicate GroupStart(ch: int, size: int, b: int, k: int)
  {
    if ch == 1 then 4 <= b <= size && b % 4 == 0 && k == 2 * b - 7
    else 8 <= b <= size && b % 8 == 0 && k == 2 * b - 14
  }

  /** The sample coded by the low nibble of byte `j` of channel `chan` in a group. */
  function GroupSample(ch: int, first: int, chan: int, j: int): int
  {
    if ch == 1 then first + 2 * j else first + chan + 4 * j
  }

  lemma {:induction false} SlotInGroup(ch: int, size: int, start: int, first: int, chan: int, j: int)
    requires ValidShape(ch, size) && GroupStart(ch, size, start, first) && start < size
    requires 0 <= chan < ch && 0 <= j < 4
    ensures var b := start + 4 * chan + j;
            4 * ch <= b < size && Slot(ch, b) == GroupSample(ch, first, chan, j)
    ensures GroupSample(ch, first, chan, j) + 2 * ch == GroupSample(ch, first, chan, j + 1)
  {
    if ch == 2 {
      var g := start / 8 - 1;
      StereoLayout(g, chan, j, 0);
      EightBound(size, start, g);
    }
  }

  lemma NextGroup(ch: int, size: int, start: int, first: int)
    requires ValidShape(ch, size) && GroupStart(ch, size, start, first) && start < size
    ensures GroupStart(ch, size, start + 4 * ch, first + 8 * ch)
  {
    if ch == 2 { EightBound(size, start, start / 8 - 1); }
  }

  /** All bytes of a block have room for their two samples. */
  predicate SlotsFit(ch: int, size: int, n: int)
  {
    forall b :: 4 * ch <= b < size ==> 0 <= Slot(ch, b) < n && 0 <= Slot(ch, b) + ch < n
  }

  lemma SlotsFitBlock(ch: int, size: int)
    requires ValidShape(ch, size)
    ensures SlotsFit(ch, size, SamplesPerBlock(ch, size))
  {
    forall b | 4 * ch <= b < size
      ensures 0 <= Slot(ch, b) && Slot(ch, b) + ch < SamplesPerBlock(ch, size)
    { SlotInverse(ch, size, b); }
  }

  /** The bytes below `upto` carry the codes of their samples. */
  ghost predicate PackedTo(ch: int, codes: seq<int>, bytes: seq<Byte>, upto: int)
    requires SlotsFit(ch, |bytes|, |codes|) && upto <= |bytes| && ch >= 0
  {
    forall b :: 4 * ch <= b < upto ==> bytes[b] == PackedByte(ch, codes, b)
  }

  /** The innermost loop: four bytes of one channel. */
  method PackFour(ch: int, block: array<Byte>, samples: array<int>, start: int, first: int, chan: int)
    requires ValidShape(ch, block.Length) && samples.Length == SamplesPerBlock(ch, block.Length)
    requires block as object != samples as object && SlotsFit(ch, block.Length, samples.Length)
    requires GroupStart(ch, block.Length, start, first) && start < block.Length && 0 <= chan < ch
    requires PackedTo(ch, samples[..], block[..], start + 4 * chan)
    modifies block
    ensures forall b :: 0 <= b < 4 * ch ==> block[b] == old(block[b])
    ensures start + 4 * chan + 4 <= block.Length && PackedTo(ch, samples[..], block[..], start + 4 * chan + 4)
  {
    hide Slot, SamplesPerBlock, GroupStart, GroupSample;
    SlotInGroup(ch, block.Length, start, first, chan, 0);
    SlotInGroup(ch, block.Length, start, first, chan, 3);
    ghost var codes := samples[..];
    var blockindx := start + 4 * chan;
    var indx := GroupSample(ch, first, chan, 0);
    var k := 0;
    while k < 4
      invariant 0 <= k <= 4 && blockindx == start + 4 * chan + k && indx == GroupSample(ch, first, chan, k)
      invariant samples[..] == codes
      invariant forall b :: 0 <= b < 4 * ch ==> block[b] == old(block[b])
      invariant PackedTo(ch, codes, block[..], blockindx)
    {
      SlotInGroup(ch, block.Length, start, first, chan, k);
      assert 0 <= Slot(ch, blockindx) && Slot(ch, blockindx) + ch < samples.Length;
      block[blockindx] := samples[indx] % 16;
      indx := indx + ch;
      block[blockindx] := block[blockindx] + samples[indx] % 16 * 16;
      indx := indx + ch;
      blockindx := blockindx + 1;
      k := k + 1;
    }
  }

  method PackNibbles(ch: int, block: array<Byte>, samples: array<int>)
    requires ValidShape(ch, block.Length) && samples.Length == SamplesPerBlock(ch, block.Length)
    requires block as object != samples as object
    modifies block
    ensures forall b :: 0 <= b < 4 * ch ==> block[b] == old(block[b])
    ensures SlotsFit(ch, block.Length, samples.Length) && PackedTo(ch, samples[..], block[..], block.Length)
  {
    hide Slot, SamplesPerBlock;
    SlotsFitBlock(ch, block.Length);
    ghost var codes := samples[..];
    var blockindx, indxstart := 4 * ch, ch;
    while blockindx < block.Length
      invariant GroupStart(ch, block.Length, blockindx, indxstart) && samples[..] == codes
      invariant forall b :: 0 <= b < 4 * ch ==> block[b] == old(block[b])
      invariant PackedTo(ch, codes, block[..], blockindx)
    {
      NextGroup(ch, block.Length, blockindx, indxstart);
      var chan := 0;
      while chan < ch
        invariant 0 <= chan <= ch && samples[..] == codes
        invariant forall b :: 0 <= b < 4 * ch ==> block[b] == old(block[b])
        invariant PackedTo(ch, codes, block[..], blockindx + 4 * chan)
      {
        PackFour(ch, block, samples, blockindx, indxstart, chan);
        chan := chan + 1;
      }
      blockindx := blockindx + 4 * ch;
      indxstart := indxstart + 8 * ch;
    }
  }

  /** wavlike_ima_encode_block up to the write: the block is what the recurrences say, and
      previous[] and stepindx[] are the reconstruction and indices the next block goes on from. */
  method EncodeBlock(ch: int, block: array<Byte>, samples: array<int>, index: seq<int>)
      returns (previous: seq<int>, stepindx: seq<int>)
    requires ValidInput(ch, block.Length, samples[..], index) && block as object != samples as object
    modifies block, samples
    ensures block[..] == EncodedBlock(ch, block.Length, old(samples[..]), index)
    ensures |previous| == ch && stepindx == NextIndices(ch, old(samples[..]), index)
    ensures forall k :: samples.Length - ch <= k < samples.Length ==>
              previous[Chan(ch, k)] == EncoderAt(ch, old(samples[..]), index, k).sample
    ensures forall k :: 0 <= k < ch ==> samples[k] == old(samples[k])
    ensures forall k :: ch <= k < samples.Length ==> samples[k] == CodeAt(ch, old(samples[..]), index, k)
    ensures AllInt16(samples[..])
  {
    hide CodeAt, EncoderAt, NextIndices, HeaderByte, SlotsFit, PackedTo, EncodedBlock;
    ghost var s := samples[..];
    previous := EncodeHeader(ch, block, samples, stepindx := index);
    ghost var header := block[..];
    previous, stepindx := EncodeSamples(ch, samples, previous, index);
    PackNibbles(ch, block, samples);
    BlockBytes(ch, s, index, samples[..], block[..]);
  }

  lemma {:induction false} BlockBytes(ch: int, s: seq<int>, index: seq<int>, codes: seq<int>, bytes: seq<Byte>)
    requires ValidInput(ch, |bytes|, s, index) && |codes| == |s|
    requires forall k :: ch <= k < |s| ==> codes[k] == CodeAt(ch, s, index, k)
    requires forall b :: 0 <= b < 4 * ch ==> bytes[b] == HeaderByte(s, index, b)
    requires SlotsFit(ch, |bytes|, |codes|) && PackedTo(ch, codes, bytes, |bytes|)
    ensures bytes == EncodedBlock(ch, |bytes|, s, index)
  {
    hide CodeAt, EncoderAt, Slot, HeaderByte, SamplesPerBlock, PackedByte, EncodedByte;
    forall b | 0 <= b < |bytes|
      ensures bytes[b] == EncodedByte(ch, |bytes|, s, index, b)
    {
      BlockByte(ch, |bytes|, s, index, codes, b);
    }
  }

  lemma {:induction false} BlockByte(ch: int, size: int, s: seq<int>, index: seq<int>, codes: seq<int>, b: int)
    requires ValidInput(ch, size, s, index) && |codes| == |s| && 0 <= b < size
    requires forall k :: ch <= k < |s| ==> codes[k] == CodeAt(ch, s, index, k)
    ensures b < 4 * ch ==> EncodedByte(ch, size, s, index, b) == HeaderByte(s, index, b)
    ensures b >= 4 * ch ==> 0 <= Slot(ch, b) && Slot(ch, b) + ch < |codes|
                            && EncodedByte(ch, size, s, index, b) == PackedByte(ch, codes, b)
  {
    hide CodeAt, EncoderAt, Slot, ByteOf, IsHigh, HeaderByte, SamplesPerBlock;
    if b >= 4 * ch {
      SlotInverse(ch, size, b);
      var k := Slot(ch, b);
      NibbleFits(codes[k], codes[k + ch]);
    }
  }

  lemma NibbleFits(low: int, high: int)
    requires 0 <= low < 16 && 0 <= high < 16
    ensures low % 16 + high % 16 * 16 == low + 16 * high
  {
  }

  // ----- Unpacking -----

  /** The samples coded by bytes below `upto` hold their nibbles. */
  ghost predicate UnpackedTo(ch: int, bytes: seq<Byte>, samples: seq<int>, upto: int)
    requires ValidShape(ch, |bytes|) && |samples| == SamplesPerBlock(ch, |bytes|)
  {
    forall k :: ch <= k < |samples| && ByteOf(ch, k) < upto ==>
      samples[k] == CodeIn(ch, bytes, k)
  }

  method UnpackFour(ch: int, block: array<Byte>, samples: array<int>, start: int, first: int, chan: int)
    requires ValidShape(ch, block.Length) && samples.Length == SamplesPerBlock(ch, block.Length)
    requires block as object != samples as object
    requires GroupStart(ch, block.Length, start, first) && start < block.Length && 0 <= chan < ch
    requires UnpackedTo(ch, block[..], samples[..], start + 4 * chan)
    modifies samples
    ensures forall c :: 0 <= c < ch ==> samples[c] == old(samples[c])
    ensures UnpackedTo(ch, block[..], samples[..], start + 4 * chan + 4)
  {
    hide Slot, SamplesPerBlock, GroupStart, GroupSample, ByteOf, CodeIn;
    ghost var bytes := block[..];
    SlotInGroup(ch, block.Length, start, first, chan, 0);
    var blockindx := start + 4 * chan;
    var indx := GroupSample(ch, first, chan, 0);
    var k := 0;
    while k < 4
      invariant 0 <= k <= 4 && blockindx == start + 4 * chan + k && indx == GroupSample(ch, first, chan, k)
      invariant block[..] == bytes
      invariant forall c :: 0 <= c < ch ==> samples[c] == old(samples[c])
      invariant UnpackedTo(ch, bytes, samples[..], blockindx)
    {
      ghost var before := samples[..];
      SlotInGroup(ch, block.Length, start, first, chan, k);
      SlotInverse(ch, block.Length, blockindx);
      var bytecode := block[blockindx];
      samples[indx] := bytecode % 16;
      indx := indx + ch;
      samples[indx] := bytecode / 16 % 16;
      UnpackOne(ch, bytes, before, samples[..], blockindx);
      indx := indx + ch;
      blockindx := blockindx + 1;
      k := k + 1;
    }
  }

  lemma {:induction false} UnpackOne(ch: int, bytes: seq<Byte>, before: seq<int>, after: seq<int>, b: int)
    requires ValidShape(ch, |bytes|) && |before| == |after| == SamplesPerBlock(ch, |bytes|)
    requires 4 * ch <= b < |bytes| && UnpackedTo(ch, bytes, before, b)
    requires 0 <= Slot(ch, b) && Slot(ch, b) + ch < |before|
    requires after == before[Slot(ch, b) := bytes[b] % 16][Slot(ch, b) + ch := bytes[b] / 16 % 16]
    ensures UnpackedTo(ch, bytes, after, b + 1)
  {
    hide Slot, SamplesPerBlock, ByteOf, IsHigh;
    forall k | ch <= k < |after| && ByteOf(ch, k) < b + 1
      ensures after[k] == CodeIn(ch, bytes, k)
    {
      ByteInverse(ch, |bytes|, k);
      SlotInverse(ch, |bytes|, b);
      if ByteOf(ch, k) == b {
        assert k == Slot(ch, b) || k == Slot(ch, b) + ch;
      } else {
        assert before[k] == CodeIn(ch, bytes, k);
      }
    }
  }

  method UnpackNibbles(ch: int, block: array<Byte>, samples: array<int>)
    requires ValidShape(ch, block.Length) && samples.Length == SamplesPerBlock(ch, block.Length)
    requires block as object != samples as object
    modifies samples
    ensures forall c :: 0 <= c < ch ==> samples[c] == old(samples[c])
    ensures UnpackedTo(ch, block[..], samples[..], block.Length)
  {
    hide SamplesPerBlock, ByteOf, CodeIn;
    ghost var bytes := block[..];
    forall k | ch <= k < samples.Length ensures ByteOf(ch, k) >= 4 * ch { ByteInverse(ch, block.Length, k); }
    var blockindx, indxstart := 4 * ch, ch;
    while blockindx < block.Length
      invariant GroupStart(ch, block.Length, blockindx, indxstart) && block[..] == bytes
      invariant forall c :: 0 <= c < ch ==> samples[c] == old(samples[c])
      invariant UnpackedTo(ch, bytes, samples[..], blockindx)
    {
      NextGroup(ch, block.Length, blockindx, indxstart);
      var chan := 0;
      while chan < ch
        invariant 0 <= chan <= ch && block[..] == bytes
        invariant forall c :: 0 <= c < ch ==> samples[c] == old(samples[c])
        invariant UnpackedTo(ch, bytes, samples[..], blockindx + 4 * chan)
      {
        UnpackFour(ch, block, samples, blockindx, indxstart, chan);
        chan := chan + 1;
      }
      blockindx := blockindx + 4 * ch;
      indxstart := indxstart + 8 * ch;
    }
  }

  /** The first frame and the step indices were taken from the header. */
  ghost predicate HeaderRead(ch: int, bytes: seq<Byte>, now: seq<int>, stepindx: seq<int>)
    requires (ch == 1 || ch == 2) && |bytes| >= 4 * ch && |now| >= ch && |stepindx| == ch
  {
    && HeaderPredictor(bytes, 0) == Predictor(now[0], stepindx[0])
    && (ch == 2 ==> HeaderPredictor(bytes, 1) == Predictor(now[1], stepindx[1]))
  }

  method DecodeHeader(ch: int, block: array<Byte>, samples: array<int>) returns (stepindx: seq<int>)
    requires (ch == 1 || ch == 2) && 4 * ch <= block.Length && ch <= samples.Length
    requires block as object != samples as object
    modifies samples
    ensures |stepindx| == ch && HeaderRead(ch, block[..], samples[..], stepindx)
  {
    hide Int16, ClampIndex;
    stepindx := [];
    var chan := 0;
    while chan < ch
      invariant 0 <= chan <= ch && |stepindx| == chan && block[..] == old(block[..])
      invariant forall c :: 0 <= c < chan ==> Predictor(samples[c], stepindx[c]) == HeaderPredictor(block[..], c)
    {
      stepindx := stepindx + [ClampIndex(block[chan * 4 + 2])];
      samples[chan] := Word16(block[chan * 4], block[chan * 4 + 1]);
      chan := chan + 1;
    }
  }

  /** The body of the decode loop. */
  method Expand(stepindx: int, predictor: int, bytecode: int) returns (sample: int, stepindx': int)
    requires ValidPredictor(Predictor(predictor, stepindx)) && 0 <= bytecode < 16
    ensures Predictor(sample, stepindx') == Advance(Predictor(predictor, stepindx), bytecode)
  {
    hide StepSize, IndexAdjust, Clamp16, ClampIndex;
    var step: int := StepSize(stepindx);
    var diff := step / 8;
    if bytecode % 2 == 1 {
      diff := diff + step / 4;
    }
    if bytecode / 2 % 2 == 1 {
      diff := diff + step / 2;
    }
    if bytecode / 4 % 2 == 1 {
      diff := diff + step;
    }
    if bytecode >= 8 {
      diff := -diff;
    }
    sample := Clamp16(predictor + diff);
    stepindx' := ClampIndex(stepindx + IndexAdjust(bytecode));
  }

  /** stepindx[] of channel `k % ch` is the decoder's behind sample `k`. */
  ghost predicate Tracks(ch: int, bytes: seq<Byte>, k: int, stepindx: seq<int>)
    requires ValidShape(ch, |bytes|) && 0 <= k < SamplesPerBlock(ch, |bytes|) && |stepindx| == ch
  {
    stepindx[Chan(ch, k)] == DecoderAt(ch, |bytes|, bytes, k).index
  }

  /** samples[] while decoding: decoded below `k`, nibbles from there on. */
  ghost predicate DecodedTo(ch: int, bytes: seq<Byte>, now: seq<int>, k: int)
    requires ValidShape(ch, |bytes|) && |now| == SamplesPerBlock(ch, |bytes|) && ch <= k <= |now|
  {
    && (forall j :: 0 <= j < k ==> now[j] == DecoderAt(ch, |bytes|, bytes, j).sample)
    && (forall j :: k <= j < |now| ==> now[j] == CodeIn(ch, bytes, j))
  }

  method DecodeSamples(ch: int, ghost bytes: seq<Byte>, samples: array<int>, stepindx0: seq<int>)
    requires ValidShape(ch, |bytes|) && samples.Length == SamplesPerBlock(ch, |bytes|) && |stepindx0| == ch
    requires HeaderRead(ch, bytes, samples[..], stepindx0)
    requires forall k :: ch <= k < samples.Length ==> samples[k] == CodeIn(ch, bytes, k)
    modifies samples
    ensures samples[..] == DecodedBlock(ch, |bytes|, bytes)
  {
    hide Advance, DecoderAt, CodeIn, SamplesPerBlock, Tracks, DecodedTo, DecodedBlock, HeaderRead;
    var n := samples.Length;
    var stepindx := stepindx0;
    var k := ch;
    DecodeStarts(ch, bytes, samples[..], stepindx);
    while k < n
      invariant ch <= k <= n && |stepindx| == ch
      invariant Tracks(ch, bytes, k - 1, stepindx) && (ch == 2 ==> Tracks(ch, bytes, k - 2, stepindx))
      invariant DecodedTo(ch, bytes, samples[..], k)
    {
      ghost var now := samples[..];
      DecodeStep(ch, bytes, now, k, stepindx);
      var chan := Chan(ch, k);
      var sample, index := Expand(stepindx[chan], samples[k - ch], samples[k] % 16);
      stepindx := stepindx[chan := index];
      samples[k] := sample;
      assert samples[..] == now[k := sample];
      k := k + 1;
    }
    DecodeEnds(ch, bytes, samples[..]);
  }

  lemma DecodeStarts(ch: int, bytes: seq<Byte>, now: seq<int>, stepindx: seq<int>)
    requires ValidShape(ch, |bytes|) && |now| == SamplesPerBlock(ch, |bytes|) && |stepindx| == ch
    requires HeaderRead(ch, bytes, now, stepindx) && forall k :: ch <= k < |now| ==> now[k] == CodeIn(ch, bytes, k)
    ensures Tracks(ch, bytes, ch - 1, stepindx) && (ch == 2 ==> Tracks(ch, bytes, 0, stepindx))
    ensures DecodedTo(ch, bytes, now, ch)
  {
    hide DecoderAt, HeaderPredictor, CodeIn, SamplesPerBlock;
    DecoderStep(ch, |bytes|, bytes, 0);
    DecoderStep(ch, |bytes|, bytes, ch - 1);
  }

  /** One turn: the next sample and step index are those the decoder advances to. */
  lemma DecodeStep(ch: int, bytes: seq<Byte>, now: seq<int>, k: int, stepindx: seq<int>)
    requires ValidShape(ch, |bytes|) && |now| == SamplesPerBlock(ch, |bytes|) && ch <= k < |now| && |stepindx| == ch
    requires DecodedTo(ch, bytes, now, k) && Tracks(ch, bytes, k - 1, stepindx)
    requires ch == 2 ==> Tracks(ch, bytes, k - 2, stepindx)
    ensures ValidPredictor(Predictor(now[k - ch], stepindx[Chan(ch, k)])) && 0 <= now[k] < 16
    ensures var p := Advance(Predictor(now[k - ch], stepindx[Chan(ch, k)]), now[k]);
            var after := stepindx[Chan(ch, k) := p.index];
            && DecodedTo(ch, bytes, now[k := p.sample], k + 1) && Tracks(ch, bytes, k, after)
            && (ch == 2 ==> Tracks(ch, bytes, k - 1, after))
  {
    hide Advance, DecoderAt, CodeIn, SamplesPerBlock;
    DecoderStep(ch, |bytes|, bytes, k);
    assert Tracks(ch, bytes, k - ch, stepindx);
    assert Predictor(now[k - ch], stepindx[Chan(ch, k)]) == DecoderAt(ch, |bytes|, bytes, k - ch);
  }

  lemma DecodeEnds(ch: int, bytes: seq<Byte>, now: seq<int>)
    requires ValidShape(ch, |bytes|) && |now| == SamplesPerBlock(ch, |bytes|) && DecodedTo(ch, bytes, now, |now|)
    ensures now == DecodedBlock(ch, |bytes|, bytes)
  {
    hide DecoderAt, CodeIn, SamplesPerBlock;
  }

  lemma UnpackedAll(ch: int, bytes: seq<Byte>, samples: seq<int>)
    requires ValidShape(ch, |bytes|) && |samples| == SamplesPerBlock(ch, |bytes|)
    requires UnpackedTo(ch, bytes, samples, |bytes|)
    ensures forall k :: ch <= k < |samples| ==> samples[k] == CodeIn(ch, bytes, k)
  {
    forall k | ch <= k < |samples| ensures samples[k] == CodeIn(ch, bytes, k) { ByteInverse(ch, |bytes|, k); }
  }

  /** wavlike_ima_decode_block behind the read: samples[] is what the recurrence over the block says. */
  method DecodeBlock(ch: int, block: array<Byte>, samples: array<int>)
    requires ValidShape(ch, block.Length) && samples.Length == SamplesPerBlock(ch, block.Length)
    requires block as object != samples as object
    modifies samples
    ensures samples[..] == DecodedBlock(ch, block.Length, block[..])
  {
    hide HeaderPredictor, UnpackedTo, DecodedBlock, CodeIn;
    ghost var bytes := block[..];
    var stepindx := DecodeHeader(ch, block, samples);
    UnpackNibbles(ch, block, samples);
    UnpackedAll(ch, bytes, samples[..]);
    DecodeSamples(ch, bytes, samples, stepindx);
  }
}
