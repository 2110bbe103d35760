/** The DWVW coder as the C code runs it: a 32-bit reservoir and a 256-byte buffer in front
    of the file, one object per open file. */
module Dwvw {
  import opened Bits
  import opened DwvwCode
  import opened DwvwFile

  const BUFFER_SIZE := 256

  method HighestBit(x: nat) returns (count: nat)
    ensures count == BitLength(x)
  {
    var y := x;
    count := 0;
    while y != 0
      invariant count + BitLength(y) == BitLength(x)
    {
      count := count + 1;
      y := y / 2;
    }
  }

  /** The word of `w` bits held in the high end of a 32-bit sample. */
  function WordOf(w: nat, sample: int): int
    requires w <= 32
  {
    ShiftRight(sample, 32 - w)
  }

  function Words(w: nat, ptr: seq<int>): (ws: seq<int>)
    requires w <= 32
    ensures |ws| == |ptr| && forall i :: 0 <= i < |ptr| ==> ws[i] == WordOf(w, ptr[i])
  {
    seq(|ptr|, i requires 0 <= i < |ptr| => WordOf(w, ptr[i]))
  }

  /** A word justified to the most significant bit, as decoded samples are stored. */
  function Justified(w: nat, word: int): int
    requires w <= 32
  {
    ShiftLeft(word, 32 - w)
  }

  class Coder32 {
    const bitWidth: nat
    const dwmMaxsize: int
    const maxDelta: int
    const span: int
    var sampleCount: int
    var bitCount: int
    var bits: int
    var lastDeltaWidth: int
    var lastSample: int
    var index: nat
    var end: nat
    const buffer: array<Byte>
    /** The data section of the file and the read position in it. */
    var file: seq<Byte>
    var pos: nat
    /** Whether a read has met the end of the file. */
    ghost var metEnd: bool

    /** What dwvw_init derives from the word width. */
    predicate Configured()
    {
      && ValidWidth(bitWidth)
      && dwmMaxsize == DwmMax(bitWidth) && maxDelta == MaxDelta(bitWidth) && span == Span(bitWidth)
      && buffer.Length == BUFFER_SIZE
    }

    ghost function State(): Coder
      reads `lastSample, `lastDeltaWidth
    {
      Coder(lastSample, lastDeltaWidth)
    }

    ghost predicate StateValid()
      reads `lastSample, `lastDeltaWidth
    {
      Configured() && ValidCoder(bitWidth, State())
    }

    /** Fields after dwvw_init; `data` is what a reader finds and [] for a writer. */
    constructor (width: nat, data: seq<Byte>)
      requires ValidWidth(width)
      ensures StateValid() && bitWidth == width && State() == START && file == data && fresh(buffer)
      ensures data == [] ==> WriterValid() && Stream() == []
      ensures ReaderValid() && Src() == OpenFile(data)
    {
      bitWidth := width;
      dwmMaxsize := width / 2;
      maxDelta := Pow2(width - 1);
      span := Pow2(width);
      sampleCount, bitCount, bits, lastDeltaWidth, lastSample := 0, 0, 0, 0, 0;
      index, end, pos := 0, 0, 0;
      buffer := new Byte[BUFFER_SIZE](_ => 0);
      file := data;
      metEnd := false;
      new;
      assert Unread() == data;
    }

    // ----- Writing -----

    ghost predicate WriterValid()
      reads `bitCount, `index
    {
      Configured() && 0 <= bitCount < 8 && index <= BUFFER_SIZE - 4
    }

    /** Every bit stored so far: file, buffer, reservoir. */
    ghost function Stream(): seq<Bit>
      requires index <= buffer.Length && bitCount >= 0
      reads `bits, `bitCount, `index, `file, buffer
    {
      BytesToBits(file + buffer[..index]) + ToBits(bits, bitCount)
    }

    /** The whole bytes of the reservoir move to the buffer. */
    method TransferBytes(ghost start: seq<Bit>)
      requires Configured() && 0 <= bitCount < 32 && index + bitCount / 8 < BUFFER_SIZE
      requires Stream() == start
      modifies this`bitCount, this`index, buffer
      ensures 0 <= bitCount < 8 && index <= old(index) + old(bitCount) / 8
      ensures Stream() == start
    {
      while bitCount >= 8
        invariant 0 <= bitCount < 32 && index + bitCount / 8 == old(index) + old(bitCount) / 8
        invariant Stream() == start
        decreases bitCount
      {
        ghost var before := buffer[..index];
        var byte := ShiftRight(bits, bitCount - 8);
        ByteLeavesReservoir(file, before, bits, bitCount, byte % 256);
        bitCount := bitCount - 8;
        buffer[index] := byte % 256;
        index := index + 1;
        assert buffer[..index] == before + [byte % 256];
      }
    }

    method StoreBits(data: int, newBits: nat)
      requires WriterValid() && newBits <= 24
      modifies this`bits, this`bitCount, this`index, this`file, buffer
      ensures WriterValid()
      ensures Stream() == old(Stream()) + ToBits(data, newBits)
    {
      ghost var start := Stream();
      ghost var bytes := BytesToBits(file + buffer[..index]);
      ShiftInBits(bits, bitCount, data, newBits);
      ConcatAssoc(bytes, ToBits(bits, bitCount), ToBits(data, newBits));
      // The shift leaves the low bits zero, so `|` adds.
      bits := ShiftLeft(bits, newBits) + data % Pow2(newBits);
      bitCount := bitCount + newBits;
      TransferBytes(start + ToBits(data, newBits));
      if index > BUFFER_SIZE - 4 {
        file := file + buffer[..index];
        index := 0;
        assert file + buffer[..0] == file;
      }
    }

    /** Fold the difference to the last sample: magnitude, sign and extra bit (-1 for none). */
    method Fold(word: int) returns (delta: int, deltaNegative: int, extraBit: int)
      requires Configured()
      ensures Delta(delta, deltaNegative == 1, extraBit) == FoldDelta(bitWidth, word - lastSample)
    {
      delta := word - lastSample;
      extraBit, deltaNegative := -1, 0;
      if delta < -maxDelta {
        delta := maxDelta + CRem(delta, maxDelta);
      } else if delta == -maxDelta {
        extraBit, deltaNegative := 1, 1;
        delta := maxDelta - 1;
      } else if delta > maxDelta {
        deltaNegative := 1;
        delta := span - delta;
        delta := Abs(delta);
      } else if delta == maxDelta {
        extraBit := 1;
        delta := maxDelta - 1;
      } else if delta < 0 {
        deltaNegative := 1;
        delta := Abs(delta);
      }
      if delta == maxDelta - 1 && extraBit == -1 {
        extraBit := 0;
      }
    }

    /** The modular change of word width. */
    method ChooseModifier(deltaWidth: int) returns (modifier: int)
      requires Configured()
      ensures modifier == Modifier(bitWidth, deltaWidth, lastDeltaWidth)
    {
      modifier := CRem(deltaWidth - lastDeltaWidth, bitWidth);
      if modifier > dwmMaxsize {
        modifier := modifier - bitWidth;
      }
      if modifier < -dwmMaxsize {
        modifier := modifier + bitWidth;
      }
    }

    /** The body of the encode loop: one word becomes one codeword. */
    method EncodeWord(word: int)
      requires WriterValid() && StateValid() && InRange(bitWidth, word)
      modifies this`bits, this`bitCount, this`index, this`file, this`lastSample, this`lastDeltaWidth, buffer
      ensures WriterValid() && StateValid()
      ensures Stream() == old(Stream()) + Codeword(bitWidth, old(State()), word)
      ensures State() == Next(bitWidth, old(State()), word)
    {
      hide FoldDelta, Modifier, ModifierBits, DeltaBits, CRem, WrapSample, MaxDelta;
      var delta, deltaNegative, extraBit := Fold(word);
      FieldsUndone(bitWidth, State(), word);
      NextValid(bitWidth, State(), word);
      FoldUnfold(bitWidth, lastSample, word);
      var deltaWidth := HighestBit(delta);
      var modifier := ChooseModifier(deltaWidth);
      ghost var dbits := DeltaBits(deltaWidth, Delta(delta, deltaNegative == 1, extraBit));
      ConcatAssoc(Stream(), ModifierBits(bitWidth, modifier), dbits);
      StoreModifier(modifier);
      StoreDelta(delta, deltaWidth, deltaNegative, extraBit);
      lastSample := word;
      lastDeltaWidth := deltaWidth;
    }

    method StoreModifier(modifier: int)
      requires WriterValid() && Abs(modifier) <= dwmMaxsize
      modifies this`bits, this`bitCount, this`index, this`file, buffer
      ensures WriterValid()
      ensures Stream() == old(Stream()) + ModifierBits(bitWidth, modifier)
    {
      var zeros: nat := Abs(modifier);
      ghost var start, code := Stream(), Zeros(zeros);
      ZeroBits(zeros);
      OneBits();
      StoreBits(0, zeros);
      ConcatAssoc(start, code, StopBits(bitWidth, modifier));
      if Abs(modifier) != dwmMaxsize {
        StoreBits(1, 1);
      }
      assert Stream() == start + (code + StopBits(bitWidth, modifier));
      code := code + StopBits(bitWidth, modifier);
      ConcatAssoc(start, code, SignBits(modifier));
      if modifier < 0 {
        StoreBits(1, 1);
      }
      if modifier > 0 {
        StoreBits(0, 1);
      }
      assert Stream() == start + (code + SignBits(modifier));
    }

    method StoreDelta(delta: nat, deltaWidth: nat, deltaNegative: int, extraBit: int)
      requires WriterValid() && deltaWidth <= 24 && -1 <= extraBit <= 1
      modifies this`bits, this`bitCount, this`index, this`file, buffer
      ensures WriterValid()
      ensures Stream() == old(Stream()) + DeltaBits(deltaWidth, Delta(delta, deltaNegative == 1, extraBit))
    {
      hide ToBits;
      ghost var start := Stream();
      ghost var code: seq<Bit> := [];
      OneBits();
      if deltaWidth != 0 {
        code := ToBits(delta, deltaWidth - 1) + [deltaNegative == 1];
        ConcatAssoc(start, ToBits(delta, deltaWidth - 1), [deltaNegative == 1]);
        StoreBits(delta, deltaWidth - 1);
        StoreBits(if deltaNegative == 1 then 1 else 0, 1);
      }
      assert Stream() == start + code;
      ConcatAssoc(start, code, if extraBit >= 0 then [extraBit == 1] else []);
      if extraBit >= 0 {
        StoreBits(extraBit, 1);
      }
    }

    method EncodeData(ptr: seq<int>) returns (count: nat)
      requires WriterValid() && StateValid() && forall i :: 0 <= i < |ptr| ==> IsInt32(ptr[i])
      modifies this, buffer
      ensures WriterValid() && StateValid() && count == |ptr| && sampleCount == old(sampleCount) + count
      ensures Stream() == old(Stream()) + Encode(bitWidth, old(State()), Words(bitWidth, ptr))
      ensures State() == EncodeState(bitWidth, old(State()), Words(bitWidth, ptr))
    {
      ghost var words := Words(bitWidth, ptr);
      ghost var start, c := Stream(), State();
      ghost var code: seq<Bit> := [];
      count := 0;
      while count < |ptr|
        invariant count <= |ptr| && WriterValid() && StateValid() && sampleCount == old(sampleCount)
        invariant Stream() == start + code && code == Encode(bitWidth, c, words[..count])
        invariant State() == EncodeState(bitWidth, c, words[..count])
      {
        var word := WordOf(bitWidth, ptr[count]);
        WordInRange(bitWidth, ptr[count]);
        EncodeOneMore(bitWidth, c, words, count);
        ghost var codeword := Codeword(bitWidth, State(), word);
        ConcatAssoc(start, code, codeword);
        EncodeWord(word);
        code := code + codeword;
        count := count + 1;
      }
      assert words[..count] == words;
      sampleCount := sampleCount + count;
    }

    /** dwvw_close for a writer: twelve zero samples, then what the buffer still holds. */
    method Close(ghost ss: seq<int>)
      requires WriterValid() && StateValid() && Stream() == Encode(bitWidth, START, ss)
      requires State() == EncodeState(bitWidth, START, ss)
      modifies this, buffer
      ensures ClosedFile(bitWidth, ss, file)
    {
      hide Pow2, MaxDelta, Span, Encode, EncodeState, ToBits;
      var lastValues := seq(12, _ => 0);
      EncodeConcat(bitWidth, START, ss, Flush());
      assert Words(bitWidth, lastValues) == Flush() by { ZeroWords(bitWidth); }
      var count := EncodeData(lastValues);
      ghost var all := Encode(bitWidth, START, ss + Flush());
      file := file + buffer[..index];
      assert all[..8 * |file|] == BytesToBits(file);
    }

    // ----- Reading -----

    ghost predicate ReaderValid()
      reads `bitCount, `index, `end, `pos, `file, `metEnd
    {
      && Configured() && 0 <= bitCount < 32 && index <= end <= BUFFER_SIZE && pos <= |file|
      && (metEnd ==> end == 0 && pos == |file|)
      && (end == 0 && !metEnd ==> bitCount == 0 && pos == 0)
    }

    ghost function PhaseNow(): Phase
      reads `end, `metEnd
    {
      if end > 0 then Streaming else if metEnd then Dry else Fresh
    }

    /** The bytes no load has put into the reservoir yet. */
    ghost function Unread(): seq<Byte>
      requires ReaderValid()
      reads `bitCount, `index, `end, `pos, `file, `metEnd, buffer
    {
      buffer[index..end] + file[pos..]
    }

    ghost function Src(): Source
      requires ReaderValid()
      reads `bits, `bitCount, `index, `end, `pos, `file, `metEnd, buffer
    {
      Source(ToBits(bits, bitCount) + BytesToBits(Unread()), PhaseNow())
    }

    /** dwvw_read_reset after a seek to the start: the only seek a reader allows. */
    method SeekStart()
      requires ReaderValid()
      modifies this, buffer
      ensures ReaderValid() && StateValid() && State() == START && file == old(file) && Src() == OpenFile(file)
    {
      pos := 0;
      sampleCount, bitCount, bits, lastDeltaWidth, lastSample := 0, 0, 0, 0, 0;
      index, end := 0, 0;
      metEnd := false;
      forall i | 0 <= i < buffer.Length { buffer[i] := 0; }
      StartValid(bitWidth);
      assert Unread() == file;
    }

    /** psf->fread into the buffer, when it is used up. */
    method Refill()
      requires ReaderValid()
      modifies this`index, this`end, this`pos, this`metEnd, buffer
      ensures ReaderValid() && Unread() == old(Unread()) && Src().avail == old(Src().avail)
      ensures PhaseNow() == if Unread() == [] then Dry else Streaming
      ensures (index == end <==> Unread() == []) && (end == 0 <==> Unread() == [])
    {
      hide Pow2, MaxDelta, Span, ToBits, BytesToBits;
      if index >= end {
        ghost var before := file[pos..];
        EmptyFirst(buffer[index..end], before);
        end := if |file| - pos < BUFFER_SIZE then |file| - pos else BUFFER_SIZE;
        index := 0;
        ReadBuffer(end);
        pos := pos + end;
        TakeFirst(file, pos - end, end);
        metEnd := end == 0;
        assert Unread() == before;
      }
    }

    /** fread into the buffer. */
    method ReadBuffer(n: nat)
      requires n <= buffer.Length && pos + n <= |file|
      modifies buffer
      ensures buffer[0..n] == file[pos..pos + n]
    {
      forall i | 0 <= i < n { buffer[i] := file[pos + i]; }
    }

    /** One byte enters the reservoir: the next of the input, or zero when there is none. */
    method LoadByte() returns (ghost found: bool)
      requires ReaderValid() && bitCount < 24 && !PhaseNow().Fresh? && (index == end ==> Unread() == [])
      modifies this`bits, this`bitCount, this`index
      ensures ReaderValid() && bitCount == old(bitCount) + 8
      ensures Src() == old(Src()).(avail := if found then old(Src().avail) else old(Src().avail) + Zeros(8))
      ensures found <==> old(Unread()) != []
      ensures !found ==> |old(Src().avail)| == old(bitCount)
    {
      hide Pow2, MaxDelta, Span, ToBits, BytesToBits, ShiftLeft, DwmMax, Coder32.Src,
           Coder32.Unread, Coder32.PhaseNow;
      SourceNow();
      ghost var u := Unread();
      if index < end {
        NextUnread(buffer[..], index, end, file[pos..]);
        ByteEntersReservoir(bits, bitCount, u);
        bits := ShiftLeft(bits, 8) + buffer[index];
        index := index + 1;
        found := true;
      } else {
        ZerosEnterReservoir(bits, bitCount);
        bits := ShiftLeft(bits, 8);
        found := false;
      }
      bitCount := bitCount + 8;
      SourceNow();
    }

    lemma SourceNow()
      requires ReaderValid()
      ensures Src() == Source(ToBits(bits, bitCount) + BytesToBits(Unread()), PhaseNow())
      ensures Unread() == buffer[index..end] + file[pos..] && (PhaseNow().Fresh? <==> end == 0 && !metEnd)
    {
      hide ToBits, BytesToBits;
    }

    /** Bring the reservoir to `n` bits; `ok` is false when a short request met the end. */
    method LoadReservoir(n: nat) returns (ok: bool)
      requires ReaderValid() && n <= 24
      modifies this`bits, this`bitCount, this`index, this`end, this`pos, this`metEnd, buffer
      ensures ReaderValid() && Src() == Fill(old(Src()), n)
      ensures ok <==> |Src().avail| >= n
      ensures ok ==> bitCount >= n
      ensures n > 0 || old(!PhaseNow().Fresh?) ==> !PhaseNow().Fresh?
    {
      hide Fill, Pow2, MaxDelta, Span, ToBits, BytesToBits;
      ghost var target := Fill(Src(), n);
      while bitCount < n
        invariant ReaderValid() && Fill(Src(), n) == target
        invariant old(!PhaseNow().Fresh?) ==> !PhaseNow().Fresh?
        decreases n + 8 - bitCount
      {
        FillAfterRefill(Src(), n);
        Refill();
        if n < 8 && end == 0 {
          FillDone(Src(), n);
          return false;
        }
        ghost var src := Src();
        ghost var found := LoadByte();
        if !found { FillAfterPad(src, n); }
      }
      FillDone(Src(), n);
      ok := true;
    }

    /** dwvw_decode_load_bits with a count: take that many bits, -1 at the end of input. */
    method LoadBits(count: nat) returns (output: int)
      requires ReaderValid() && count <= 24
      modifies this`bits, this`bitCount, this`index, this`end, this`pos, this`metEnd, buffer
      ensures ReaderValid() && Loaded(output, Src()) == Load(old(Src()), count)
      ensures old(!PhaseNow().Fresh?) ==> !PhaseNow().Fresh?
    {
      hide Fill, FromBits, ToBits, BytesToBits, Pow2, MaxDelta, Span;
      var ok := LoadReservoir(count);
      if !ok {
        return -1;
      }
      FieldLeavesReservoir(bits, bitCount, count, BytesToBits(Unread()));
      output := ShiftRight(bits, bitCount - count) % Pow2(count);
      bitCount := bitCount - count;
    }

    /** dwvw_decode_load_bits with -1: count zeros up to the limit, drop the one behind them. */
    method LoadModifierBits() returns (output: int)
      requires ReaderValid()
      modifies this`bits, this`bitCount, this`index, this`end, this`pos, this`metEnd, buffer
      ensures ReaderValid() && Loaded(output, Src()) == LoadModifier(bitWidth, old(Src()))
      ensures output <= dwmMaxsize && !PhaseNow().Fresh?
    {
      hide LeadingZeros, AfterZeros, Fill, MaxDelta, Span, ValidCoder, ToBits, BytesToBits, Pow2;
      var ok := LoadReservoir(dwmMaxsize);
      if !ok {
        return -1;
      }
      ghost var f := Src();
      output := 0;
      while output < dwmMaxsize
        invariant ReaderValid() && 0 <= output <= dwmMaxsize <= bitCount + output
        invariant Src().phase == f.phase && |Src().avail| >= dwmMaxsize - output
        invariant LeadingZeros(f.avail, dwmMaxsize) == output + LeadingZeros(Src().avail, dwmMaxsize - output)
        invariant AfterZeros(f.avail, dwmMaxsize) == AfterZeros(Src().avail, dwmMaxsize - output)
      {
        ZerosStep(Src().avail, dwmMaxsize - output);
        var one := TakeBit();
        if one {
          return;
        }
        output := output + 1;
      }
      ZerosDone(Src().avail);
    }

    /** `bit_count -= 1` and the test of the bit it now points at. */
    method TakeBit() returns (one: bool)
      requires ReaderValid() && bitCount > 0
      modifies this`bitCount
      ensures ReaderValid() && bitCount == old(bitCount) - 1
      ensures |old(Src().avail)| > 0 && one == old(Src().avail)[0]
      ensures Src() == old(Src()).(avail := old(Src().avail)[1..])
    {
      BitLeavesReservoir(bits, bitCount, BytesToBits(Unread()));
      bitCount := bitCount - 1;
      one := ShiftRight(bits, bitCount) % 2 == 1;
    }

    /** The delta of a turn, once its width is known. */
    method LoadDelta(deltaWidth: nat) returns (delta: int)
      requires ReaderValid() && deltaWidth <= 24
      modifies this`bits, this`bitCount, this`index, this`end, this`pos, this`metEnd, buffer
      ensures ReaderValid() && Loaded(delta, Src()) == DecodeDelta(bitWidth, deltaWidth, old(Src()))
      ensures old(!PhaseNow().Fresh?) ==> !PhaseNow().Fresh?
    {
      hide Load, Pow2, ToBits, BytesToBits;
      delta := 0;
      if deltaWidth != 0 {
        delta := LoadBits(deltaWidth - 1);
        delta := OrTopBit(delta, deltaWidth - 1);
        var deltaNegative := LoadBits(1);
        if delta == maxDelta - 1 {
          var extra := LoadBits(1);
          delta := delta + extra;
        }
        if deltaNegative != 0 {
          delta := -delta;
        }
      }
    }

    /** The body of the decode loop up to the store; `stop` says the loop is left. */
    method DecodeTurn(c: Coder, first: bool) returns (stop: bool, c': Coder)
      requires ReaderValid() && ValidCoder(bitWidth, c)
      modifies this`bits, this`bitCount, this`index, this`end, this`pos, this`metEnd, buffer
      ensures ReaderValid() && (stop ==> c' == c) && ValidCoder(bitWidth, c') && !PhaseNow().Fresh?
      ensures DecodeStep(bitWidth, c, old(Src()), first) == if stop then Stop(Src()) else Got(c', Src())
    {
      hide AfterModifier, LoadModifier, Pow2, ToBits, BytesToBits;
      var modifier := LoadModifierBits();
      if modifier < 0 || (end == 0 && first) {
        return true, c;
      }
      c' := DecodeRest(c, modifier);
      stop := false;
    }

    method DecodeRest(c: Coder, modifier: int) returns (c': Coder)
      requires ReaderValid() && ValidCoder(bitWidth, c) && 0 <= modifier <= dwmMaxsize && !PhaseNow().Fresh?
      modifies this`bits, this`bitCount, this`index, this`end, this`pos, this`metEnd, buffer
      ensures ReaderValid() && ValidCoder(bitWidth, c') && !PhaseNow().Fresh?
      ensures AfterModifier(bitWidth, c, modifier, old(Src())) == Got(c', Src())
    {
      hide Load, DecodeDelta, MaxDelta, Span, CRem, Pow2, ToBits, BytesToBits;
      AfterModifierSafe(bitWidth, c, modifier, Src());
      var signed := modifier;
      if modifier != 0 {
        var negative := LoadBits(1);
        if negative != 0 {
          signed := -modifier;
        }
      }
      var deltaWidth := CRem(c.width + signed + bitWidth, bitWidth);
      var delta := LoadDelta(deltaWidth);
      var sample := c.sample + delta;
      if sample >= maxDelta {
        sample := sample - span;
      } else if sample < -maxDelta {
        sample := sample + span;
      }
      c' := Coder(sample, deltaWidth);
    }

    /** The loop's test for the end of input. */
    lemma AtEnd()
      requires ReaderValid() && !PhaseNow().Fresh?
      ensures Src().phase == PhaseNow()
      ensures end == 0 && bitCount == 0 <==> !Src().phase.Streaming? && Src().avail == []
    {
    }

    /** dwvw_decode_data: on every input it computes what the bit-level decoder says. `ptr` is
        the part of the caller's array that the call counts. */
    method DecodeData(len: nat) returns (ptr: seq<int>)
      requires ReaderValid() && StateValid()
      modifies this`bits, this`bitCount, this`index, this`end, this`pos, this`metEnd, buffer
      modifies this`lastSample, this`lastDeltaWidth, this`sampleCount
      ensures ReaderValid() && StateValid() && sampleCount == old(sampleCount) + |ptr|
      ensures var d := Decode(bitWidth, old(State()), old(Src()), len);
              Decoded(d.samples, State(), Src()) == d && ptr == JustifiedAll(bitWidth, d.samples)
    {
      hide DecodeStep, DecodeFrom, ValidCoder, Continue, ToBits, BytesToBits, Pow2, MaxDelta, Span, Prepend,
           JustifiedAll, Justified, Coder32.Src;
      JustifiedNone(bitWidth);
      var c := Coder(lastSample, lastDeltaWidth);
      ghost var want := Decode(bitWidth, c, Src(), len);
      PrependNone(want);
      ptr := [];
      ghost var done: seq<int> := [];
      while |ptr| < len
        invariant |ptr| == |done| <= len && ReaderValid() && ValidCoder(bitWidth, c)
        invariant sampleCount == old(sampleCount) && ptr == JustifiedAll(bitWidth, done)
        invariant want == Prepend(done, DecodeFrom(bitWidth, c, Src(), len - |done|, done == []))
      {
        ghost var before, src := c, Src();
        var stop, next := DecodeTurn(c, |ptr| == 0);
        Turned(bitWidth, want, done, before, src, len - |done|, if stop then Stop(Src()) else Got(next, Src()));
        c := next;
        AtEnd();
        if stop || (end == 0 && bitCount == 0) {
          break;
        }
        JustifiedOne(bitWidth, done, c.sample);
        done := done + [c.sample];
        ptr := ptr + [Justified(bitWidth, c.sample)];
      }
      Ended(bitWidth, want, done, c, Src(), len - |done|);
      lastDeltaWidth := c.width;
      lastSample := c.sample;
      sampleCount := sampleCount + |ptr|;
    }
  }

  /** One turn of a call: it is over with the samples so far, or goes on behind one more. */
  lemma Turned(w: nat, want: Decoded, done: seq<int>, c: Coder, src: Source, n: nat, turn: Outcome)
    requires w >= 1 && n >= 1 && turn == DecodeStep(w, c, src, done == [])
    requires want == Prepend(done, DecodeFrom(w, c, src, n, done == []))
    ensures turn.Stop? ==> want == Decoded(done, c, turn.left)
    ensures turn.Got? && !turn.left.phase.Streaming? && turn.left.avail == [] ==>
              want == Decoded(done, turn.coder, turn.left)
    ensures turn.Got? && (turn.left.phase.Streaming? || turn.left.avail != []) ==>
              want == Prepend(done + [turn.coder.sample], DecodeFrom(w, turn.coder, turn.left, n - 1, false))
  {
    hide DecodeStep, DecodeFrom, Continue;
    DecodeUnfold(w, c, src, n, done == []);
    ContinueUnfold(w, c, turn, n);
    EmptyLast(done, []);
    if turn.Got? { PrependOne(done, turn.coder.sample, DecodeFrom(w, turn.coder, turn.left, n - 1, false)); }
  }

  /** And over when nothing more is asked for. */
  lemma Ended(w: nat, want: Decoded, done: seq<int>, c: Coder, src: Source, n: nat)
    requires w >= 1
    ensures n == 0 && want == Prepend(done, DecodeFrom(w, c, src, n, done == [])) ==> want == Decoded(done, c, src)
  {
    hide DecodeFrom;
    DecodeNone(w, c, src, done == []);
    EmptyLast(done, []);
  }

  lemma TakeFirst<T>(s: seq<T>, at: nat, n: nat)
    requires at + n <= |s|
    ensures s[at..] == s[at..at + n] + s[at + n..]
  {
  }

  lemma JustifiedNone(w: nat)
    requires w <= 32
    ensures JustifiedAll(w, []) == []
  {
  }

  lemma JustifiedOne(w: nat, done: seq<int>, s: int)
    requires w <= 32
    ensures JustifiedAll(w, done + [s]) == JustifiedAll(w, done) + [Justified(w, s)]
  {
  }

  function JustifiedAll(w: nat, words: seq<int>): (r: seq<int>)
    requires w <= 32
    ensures |r| == |words| && forall i :: 0 <= i < |r| ==> r[i] == Justified(w, words[i])
  {
    seq(|words|, i requires 0 <= i < |words| => Justified(w, words[i]))
  }

  function Prepend(done: seq<int>, d: Decoded): Decoded { d.(samples := done + d.samples) }

  lemma PrependNone(d: Decoded)
    ensures Prepend([], d) == d
  {
  }

  lemma PrependOne(done: seq<int>, s: int, d: Decoded)
    ensures Prepend(done, d.(samples := [s] + d.samples)) == Prepend(done + [s], d)
  {
    ConcatAssoc(done, [s], d.samples);
  }

  lemma {:induction false} FieldLeavesReservoir(bits: int, bitCount: nat, n: nat, tail: seq<Bit>)
    requires n <= bitCount
    ensures var avail := ToBits(bits, bitCount) + tail;
            FromBits(avail[..n]) == ShiftRight(bits, bitCount - n) % Pow2(n)
            && avail[n..] == ToBits(bits, bitCount - n) + tail
  {
    TopField(bits, bitCount, n);
    var bs := ToBits(bits, bitCount);
    assert (bs + tail)[..n] == bs[..n];
    assert (bs + tail)[n..] == bs[n..] + tail;
  }

  lemma {:induction false} BitLeavesReservoir(bits: int, bitCount: nat, tail: seq<Bit>)
    requires bitCount > 0
    ensures var avail := ToBits(bits, bitCount) + tail;
            avail[0] == (ShiftRight(bits, bitCount - 1) % 2 == 1)
            && avail[1..] == ToBits(bits, bitCount - 1) + tail
  {
    TopField(bits, bitCount, 1);
    var bs := ToBits(bits, bitCount);
    assert bs[..1] == [ShiftRight(bits, bitCount - 1) % 2 == 1];
    assert (bs + tail)[0] == bs[..1][0];
    assert (bs + tail)[1..] == bs[1..] + tail;
  }

  lemma FillDone(src: Source, n: nat)
    ensures |src.avail| >= n && (n > 0 ==> !src.phase.Fresh?) ==> Fill(src, n) == src
    ensures |src.avail| < n < 8 && src.phase.Dry? ==> Fill(src, n) == src
  {
    assert src.avail + [] == src.avail;
  }

  lemma FillAfterRefill(src: Source, n: nat)
    requires n > 0
    ensures |src.avail| < n ==> Fill(src.(phase := Dry), n) == Fill(src, n)
    ensures !src.phase.Dry? ==> Fill(src.(phase := Streaming), n) == Fill(src, n)
  {
  }

  lemma {:induction false} FillAfterPad(src: Source, n: nat)
    requires 8 <= n && |src.avail| < n
    ensures Fill(Source(src.avail + Zeros(8), Dry), n) == Fill(src, n)
  {
    var h := |src.avail|;
    if h + 8 < n {
      assert Padding(h, n) == 8 + Padding(h + 8, n);
      assert Zeros(8) + Zeros(Padding(h + 8, n)) == Zeros(Padding(h, n));
      ConcatAssoc(src.avail, Zeros(8), Zeros(Padding(h + 8, n)));
    }
  }

  lemma LowByte(x: int)
    ensures ToBits(x % 256, 8) == ToBits(x, 8)
  {
    Pow2Table();
    ToBitsResidue(x, 8);
  }

  lemma {:induction false} ByteLeavesReservoir(file: seq<Byte>, buffered: seq<Byte>, bits: int, bitCount: nat,
                                               byte: Byte)
    requires bitCount >= 8 && byte == ShiftRight(bits, bitCount - 8) % 256
    ensures BytesToBits(file + buffered) + ToBits(bits, bitCount)
         == BytesToBits(file + (buffered + [byte])) + ToBits(bits, bitCount - 8)
  {
    ConcatAssoc(file, buffered, [byte]);
    BytesToBitsConcat(file + buffered, [byte]);
    BytesToBitsOne(byte);
    LowByte(ShiftRight(bits, bitCount - 8));
    ToBitsSplit(bits, 8, bitCount - 8);
    ConcatAssoc(BytesToBits(file + buffered), ToBits(byte, 8), ToBits(bits, bitCount - 8));
  }

  lemma {:induction false} ZeroBits(n: nat)
    ensures ToBits(0, n) == Zeros(n)
  {
    if n > 0 { ZeroBits(n - 1); }
  }

  lemma OneBits()
    ensures ToBits(0, 1) == [false] && ToBits(1, 1) == [true]
  {
  }

  lemma {:induction false} ZeroWords(w: nat)
    requires w <= 24
    ensures WordOf(w, 0) == 0
  {
  }

  lemma {:induction false} WordInRange(w: nat, sample: int)
    requires ValidWidth(w) && IsInt32(sample)
    ensures InRange(w, WordOf(w, sample))
  {
    var p, m := Pow2(32 - w), Pow2(w - 1);
    Pow2Add(w - 1, 32 - w);
    Pow2Table();
    QuotientRange(sample, p, m);
  }

  lemma {:induction false} QuotientRange(x: int, p: int, m: int)
    requires p > 0 && -(m * p) <= x < m * p
    ensures -m <= x / p < m
  {
    var q := x / p;
    assert q * p <= x < q * p + p;
    SameProduct(m, q, p);
    if q >= m { SmallerFactor(m, q, p); }
    if q < -m { SmallerFactor(q + 1, -m, p); }
  }

  lemma SameProduct(m: int, q: int, p: int)
    ensures (-m) * p == -(m * p) && (q + 1) * p == q * p + p
  {
  }

  lemma SmallerFactor(a: int, b: int, p: int)
    requires a <= b && p > 0
    ensures a * p <= b * p
  {
    assert (b - a) * p >= 0;
  }

  lemma {:induction false} EncodeOneMore(w: nat, c: Coder, ss: seq<int>, k: nat)
    requires w >= 1 && k < |ss|
    ensures Encode(w, c, ss[..k + 1]) == Encode(w, c, ss[..k]) + Codeword(w, EncodeState(w, c, ss[..k]), ss[k])
    ensures EncodeState(w, c, ss[..k + 1]) == Next(w, EncodeState(w, c, ss[..k]), ss[k])
  {
    assert ss[..k + 1] == ss[..k] + [ss[k]];
    EncodeConcat(w, c, ss[..k], [ss[k]]);
    EncodeOne(w, EncodeState(w, c, ss[..k]), ss[k]);
  }

  lemma EncodeOne(w: nat, c: Coder, s: int)
    requires w >= 1
    ensures Encode(w, c, [s]) == Codeword(w, c, s) && EncodeState(w, c, [s]) == Next(w, c, s)
  {
    assert [s][1..] == [];
  }

  lemma {:induction false} ZerosEnterReservoir(bits: int, bitCount: nat)
    requires bitCount + 8 <= 32
    ensures ToBits(ShiftLeft(bits, 8), bitCount + 8) + BytesToBits([])
         == ToBits(bits, bitCount) + BytesToBits([]) + Zeros(8)
  {
    ShiftInBits(bits, bitCount, 0, 8);
    ZeroBits(8);
  }

  lemma NextUnread(buffer: seq<Byte>, index: nat, end: nat, rest: seq<Byte>)
    requires index < end <= |buffer|
    ensures (buffer[index..end] + rest)[0] == buffer[index]
    ensures (buffer[index..end] + rest)[1..] == buffer[index + 1..end] + rest
  {
  }

  lemma {:induction false} ByteEntersReservoir(bits: int, bitCount: nat, u: seq<Byte>)
    requires bitCount + 8 <= 32 && u != []
    ensures ToBits(ShiftLeft(bits, 8) + u[0], bitCount + 8) + BytesToBits(u[1..])
         == ToBits(bits, bitCount) + BytesToBits(u)
  {
    assert u[0] % Pow2(8) == u[0] by { Pow2Table(); }
    ShiftInBits(bits, bitCount, u[0], 8);
    ConcatAssoc(ToBits(bits, bitCount), ToBits(u[0], 8), BytesToBits(u[1..]));
  }
}
