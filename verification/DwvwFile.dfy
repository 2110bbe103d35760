/** Whole files: what a run of encode calls followed by close leaves on disk, and what any
    sequence of decode calls finds there. */
module DwvwFile {
  import opened Bits
  import opened Chunks
  import opened DwvwCode

  lemma {:induction false} CodewordNonEmpty(w: nat, c: Coder, s: int)
    requires ValidWidth(w)
    ensures |Codeword(w, c, s)| >= 1
  {
  }

  lemma {:induction false} EncodeLength(w: nat, c: Coder, ss: seq<int>)
    requires ValidWidth(w)
    ensures |Encode(w, c, ss)| >= |ss|
    decreases |ss|
  {
    if ss != [] {
      CodewordNonEmpty(w, c, ss[0]);
      EncodeLength(w, Next(w, c, ss[0]), ss[1..]);
    }
  }

  lemma {:induction false} EncodeConcat(w: nat, c: Coder, a: seq<int>, b: seq<int>)
    requires w >= 1
    ensures Encode(w, c, a + b) == Encode(w, c, a) + Encode(w, EncodeState(w, c, a), b)
    ensures EncodeState(w, c, a + b) == EncodeState(w, EncodeState(w, c, a), b)
    decreases |a|
  {
    if a == [] {
      assert a + b == b;
    } else {
      assert (a + b)[1..] == a[1..] + b;
      EncodeConcat(w, Next(w, c, a[0]), a[1..], b);
    }
  }

  lemma {:induction false} EncodeStateValid(w: nat, c: Coder, ss: seq<int>)
    requires ValidWidth(w) && ValidCoder(w, c) && AllInRange(w, ss)
    ensures ValidCoder(w, EncodeState(w, c, ss))
    decreases |ss|
  {
    if ss != [] {
      NextValid(w, c, ss[0]);
      EncodeStateValid(w, Next(w, c, ss[0]), ss[1..]);
    }
  }

  lemma {:induction false} TurnDecoded(w: nat, c: Coder, s: int, src: Source, tail: seq<Bit>, first: bool)
    requires ValidWidth(w) && ValidCoder(w, c) && InRange(w, s)
    requires src.avail == Codeword(w, c, s) + tail && |src.avail| >= DwmMax(w) && !src.phase.Dry?
    ensures DecodeStep(w, c, src, first) == Got(Next(w, c, s), Source(tail, Streaming))
  {
    CodewordDecoded(w, c, s, src, tail);
    assert tail + [] == tail;
  }

  lemma ContinueOne(w: nat, c: Coder, src: Source, first: bool, c': Coder, left: Source, n: nat, d: Decoded)
    requires w >= 1 && n >= 1 && (left.phase.Streaming? || left.avail != [])
    requires DecodeStep(w, c, src, first) == Got(c', left) && DecodeFrom(w, c', left, n - 1, false) == d
    ensures DecodeFrom(w, c, src, n, first) == Decoded([c'.sample] + d.samples, d.coder, d.left)
  {
    assert DecodeFrom(w, c, src, n, first) == Continue(w, c, Got(c', left), n);
  }

  /** Lossless: with D - 1 further bits behind them, encoded samples are decoded exactly, the
      decoder ends in the encoder's state and in front of what follows. */
  lemma {:induction false} EncodedIsDecoded(w: nat, c: Coder, ss: seq<int>, src: Source, rest: seq<Bit>, first: bool)
    requires ValidWidth(w) && ValidCoder(w, c) && AllInRange(w, ss)
    requires src.avail == Encode(w, c, ss) + rest && !src.phase.Dry?
    requires |rest| + 1 >= DwmMax(w)
    ensures DecodeFrom(w, c, src, |ss|, first)
         == Decoded(ss, EncodeState(w, c, ss), Source(rest, if ss == [] then src.phase else Streaming))
    decreases |ss|
  {
    hide DecodeStep, DecodeFrom, Codeword, Next, ValidCoder, InRange;
    if ss == [] {
      DecodeNone(w, c, src, first);
      assert src.avail == rest;
    } else {
      var c' := Next(w, c, ss[0]);
      NextSample(w, c, ss[0]);
      var tail := Encode(w, c', ss[1..]) + rest;
      assert src.avail == Codeword(w, c, ss[0]) + tail;
      CodewordNonEmpty(w, c, ss[0]);
      TurnDecoded(w, c, ss[0], src, tail, first);
      NextValid(w, c, ss[0]);
      EncodedIsDecoded(w, c', ss[1..], Source(tail, Streaming), rest, false);
      ContinueOne(w, c, src, first, c', Source(tail, Streaming), |ss|,
                  Decoded(ss[1..], EncodeState(w, c', ss[1..]), Source(rest, Streaming)));
      ConsSplit(ss);
    }
  }

  /** So many bits of the input are still ahead; once it ran dry, fewer than a modifier takes. */
  predicate Remains(w: nat, src: Source, bits: int)
  {
    if src.phase.Dry? then bits < DwmMax(w) else |src.avail| == bits
  }

  /** Words of 16 bits and more: zero padding at the end of input stands in for missing bits,
      once the first modifier of the call was read from real data. */
  lemma {:induction false} EncodedIsDecodedAtEnd(w: nat, c: Coder, ss: seq<int>, src: Source, rest: seq<Bit>,
                                                 bits: int, first: bool)
      returns (out: Decoded)
    requires ValidWidth(w) && w >= 16 && ValidCoder(w, c) && AllInRange(w, ss) && Remains(w, src, bits)
    requires src.avail == Encode(w, c, ss) + rest && |rest| >= 1
    requires first ==> !src.phase.Dry? && |src.avail| >= DwmMax(w)
    ensures DecodeFrom(w, c, src, |ss|, first) == out && out.samples == ss && out.coder == EncodeState(w, c, ss)
    ensures rest <= out.left.avail && Remains(w, out.left, bits - |Encode(w, c, ss)|)
    decreases |ss|
  {
    hide DecodeStep, DecodeFrom, Codeword, Next, ValidCoder, InRange, Remains;
    if ss == [] {
      DecodeNone(w, c, src, first);
      out := Decoded([], c, src);
    } else {
      var c' := Next(w, c, ss[0]);
      NextSample(w, c, ss[0]);
      ConcatAssoc(Codeword(w, c, ss[0]), Encode(w, c', ss[1..]), rest);
      var pad, phase := TurnDecodedAtEnd(w, c, ss[0], src, Encode(w, c', ss[1..]) + rest, bits, first);
      NextValid(w, c, ss[0]);
      var left := Source(Encode(w, c', ss[1..]) + (rest + pad), phase);
      ConcatAssoc(Encode(w, c', ss[1..]), rest, pad);
      var d := EncodedIsDecodedAtEnd(w, c', ss[1..], left, rest + pad, bits - |Codeword(w, c, ss[0])|, false);
      ContinueOne(w, c, src, first, c', left, |ss|, d);
      out := Decoded([ss[0]] + d.samples, d.coder, d.left);
      ConsSplit(ss);
    }
  }

  lemma {:induction false} TurnDecodedAtEnd(w: nat, c: Coder, s: int, src: Source, tail: seq<Bit>,
                                            bits: int, first: bool)
      returns (pad: seq<Bit>, phase: Phase)
    requires ValidWidth(w) && w >= 16 && ValidCoder(w, c) && InRange(w, s) && Remains(w, src, bits)
    requires src.avail == Codeword(w, c, s) + tail
    requires first ==> !src.phase.Dry? && |src.avail| >= DwmMax(w)
    ensures DecodeStep(w, c, src, first) == Got(Next(w, c, s), Source(tail + pad, phase))
    ensures Remains(w, Source(tail + pad, phase), bits - |Codeword(w, c, s)|)
  {
    hide DecodeStep, Codeword, Next, ValidCoder, InRange;
    CodewordDecoded(w, c, s, src, tail);
    pad, phase := PaddingFor(w, src), PhaseAfter(w, src);
  }

  /** Successive decode calls of the given sizes, results joined. */
  function DecodeCalls(w: nat, c: Coder, src: Source, sizes: seq<nat>): seq<int>
    requires w >= 1
    decreases |sizes|
  {
    if sizes == [] then []
    else
      var d := Decode(w, c, src, sizes[0]);
      d.samples + DecodeCalls(w, d.coder, d.left, sizes[1..])
  }

  /** How a reader cuts its requests does not matter. */
  lemma {:induction false} CallSizesIrrelevant(w: nat, c: Coder, ss: seq<int>, src: Source, rest: seq<Bit>,
                                               sizes: seq<nat>)
    requires ValidWidth(w) && ValidCoder(w, c) && AllInRange(w, ss)
    requires src.avail == Encode(w, c, ss) + rest && !src.phase.Dry?
    requires |rest| + 1 >= DwmMax(w)
    requires Sum(sizes) == |ss|
    ensures DecodeCalls(w, c, src, sizes) == ss
    decreases |sizes|
  {
    if sizes != [] {
      var n := sizes[0];
      var a, b := ss[..n], ss[n..];
      assert a + b == ss;
      var tail := CallDecoded(w, c, a, b, src, rest);
      EncodeStateValid(w, c, a);
      CallSizesIrrelevant(w, EncodeState(w, c, a), b, Source(tail, if a == [] then src.phase else Streaming),
                          rest, sizes[1..]);
    }
  }

  lemma {:induction false} CallDecoded(w: nat, c: Coder, a: seq<int>, b: seq<int>, src: Source, rest: seq<Bit>)
      returns (tail: seq<Bit>)
    requires ValidWidth(w) && ValidCoder(w, c) && AllInRange(w, a)
    requires src.avail == Encode(w, c, a + b) + rest && !src.phase.Dry?
    requires |rest| + 1 >= DwmMax(w)
    ensures tail == Encode(w, EncodeState(w, c, a), b) + rest
    ensures DecodeFrom(w, c, src, |a|, true)
         == Decoded(a, EncodeState(w, c, a), Source(tail, if a == [] then src.phase else Streaming))
  {
    EncodeConcat(w, c, a, b);
    tail := Encode(w, EncodeState(w, c, a), b) + rest;
    ConcatAssoc(Encode(w, c, a), Encode(w, EncodeState(w, c, a), b), rest);
    EncodedIsDecoded(w, c, a, src, tail, true);
  }

  // ----- Closed files -----

  /** The twelve zero samples that close writes. */
  function Flush(): (z: seq<int>)
    ensures |z| == 12 && forall i :: 0 <= i < 12 ==> z[i] == 0
  {
    seq(12, _ => 0)
  }

  /** The bytes a closed file holds: the code of all samples and of twelve zero samples, less
      the last bits that do not fill a byte. */
  predicate ClosedFile(w: nat, ss: seq<int>, file: seq<Byte>)
    requires w >= 1
  {
    var all := Encode(w, START, ss + Flush());
    8 * |file| <= |all| < 8 * |file| + 8 && BytesToBits(file) == all[..8 * |file|]
  }

  lemma StartValid(w: nat)
    requires ValidWidth(w)
    ensures ValidCoder(w, START)
  {
  }

  lemma {:induction false} FlushLength(w: nat, ss: seq<int>) returns (tail: seq<Bit>)
    requires ValidWidth(w)
    ensures Encode(w, START, ss + Flush()) == Encode(w, START, ss) + tail && |tail| >= 12
  {
    var flush := Flush();
    EncodeConcat(w, START, ss, flush);
    EncodeLength(w, EncodeState(w, START, ss), flush);
    tail := Encode(w, EncodeState(w, START, ss), flush);
  }

  /** Close pushes every bit of every real sample to the file, and at least five more. */
  lemma {:induction false} CloseFlushes(w: nat, ss: seq<int>, file: seq<Byte>) returns (rest: seq<Bit>)
    requires ValidWidth(w) && ClosedFile(w, ss, file)
    ensures BytesToBits(file) == Encode(w, START, ss) + rest && |rest| >= 5
  {
    var code := Encode(w, START, ss);
    var tail := FlushLength(w, ss);
    rest := tail[..8 * |file| - |code|];
    assert (code + tail)[..8 * |file|] == code + rest;
  }

  function OpenFile(file: seq<Byte>): Source { Source(BytesToBits(file), Fresh) }

  /** Files of words up to 13 bits are read back exactly, whatever the call sizes. */
  lemma {:induction false} NarrowFileLossless(w: nat, ss: seq<int>, file: seq<Byte>, sizes: seq<nat>)
    requires 2 <= w <= 13 && AllInRange(w, ss) && ClosedFile(w, ss, file)
    requires Sum(sizes) == |ss|
    ensures DecodeCalls(w, START, OpenFile(file), sizes) == ss
  {
    StartValid(w);
    var rest := CloseFlushes(w, ss, file);
    CallSizesIrrelevant(w, START, ss, OpenFile(file), rest, sizes);
  }

  /** The bits of a closed file: whole bytes only. */
  function FileBits(w: nat, ss: seq<int>): int
    requires w >= 1
  {
    |Encode(w, START, ss + Flush())| / 8 * 8
  }

  // ----- Words up to 15 bits: no padding stands in for a modifier -----

  /** Every sample starts where a whole modifier is left of the input. */
  predicate SamplesInTime(w: nat, c: Coder, ss: seq<int>, bits: int)
    requires w >= 1
    decreases |ss|
  {
    ss == [] ||
    (bits >= DwmMax(w) && SamplesInTime(w, Next(w, c, ss[0]), ss[1..], bits - |Codeword(w, c, ss[0])|))
  }

  lemma {:induction false} InTimeSplit(w: nat, c: Coder, a: seq<int>, b: seq<int>, bits: int)
    requires w >= 1
    ensures SamplesInTime(w, c, a + b, bits)
       <==> SamplesInTime(w, c, a, bits) && SamplesInTime(w, EncodeState(w, c, a), b, bits - |Encode(w, c, a)|)
    decreases |a|
  {
    hide Codeword, Next;
    if a == [] {
      assert a + b == b;
    } else {
      assert (a + b)[0] == a[0] && (a + b)[1..] == a[1..] + b;
      InTimeSplit(w, Next(w, c, a[0]), a[1..], b, bits - |Codeword(w, c, a[0])|);
    }
  }

  /** Too little is left for a modifier: the call ends without a sample, and so will the next. */
  lemma StarvedStep(w: nat, c: Coder, src: Source, first: bool)
    requires 2 <= w <= 15 && |src.avail| < DwmMax(w)
    ensures DecodeStep(w, c, src, first) == Stop(Source(src.avail, Dry))
  {
    assert src.avail + [] == src.avail;
  }

  lemma {:induction false} StarvedCalls(w: nat, c: Coder, src: Source, sizes: seq<nat>)
    requires 2 <= w <= 15 && |src.avail| < DwmMax(w)
    ensures DecodeCalls(w, c, src, sizes) == []
    decreases |sizes|
  {
    hide DecodeStep, DecodeFrom;
    if sizes != [] {
      if sizes[0] == 0 {
        DecodeNone(w, c, src, true);
        StarvedCalls(w, c, src, sizes[1..]);
      } else {
        StarvedStep(w, c, src, true);
        DecodeUnfold(w, c, src, sizes[0], true);
        StarvedCalls(w, c, Source(src.avail, Dry), sizes[1..]);
      }
    }
  }

  /** One call: all samples, or fewer and nothing behind them. */
  lemma {:induction false} NarrowRun(w: nat, c: Coder, ss: seq<int>, src: Source, rest: seq<Bit>, first: bool)
    requires ValidWidth(w) && w <= 15 && ValidCoder(w, c) && AllInRange(w, ss)
    requires src.avail == Encode(w, c, ss) + rest && !src.phase.Dry?
    ensures var d := DecodeFrom(w, c, src, |ss|, first);
            if SamplesInTime(w, c, ss, |src.avail|)
            then d == Decoded(ss, EncodeState(w, c, ss), Source(rest, if ss == [] then src.phase else Streaming))
            else |d.samples| < |ss| && |d.left.avail| < DwmMax(w)
    decreases |ss|
  {
    hide DecodeStep, DecodeFrom, Codeword, Next, ValidCoder, InRange;
    if ss == [] {
      DecodeNone(w, c, src, first);
      EmptyFirst([], rest);
    } else if |src.avail| < DwmMax(w) {
      StarvedStep(w, c, src, first);
      DecodeUnfold(w, c, src, |ss|, first);
    } else {
      var c' := Next(w, c, ss[0]);
      NextSample(w, c, ss[0]);
      var tail := Encode(w, c', ss[1..]) + rest;
      ConcatAssoc(Codeword(w, c, ss[0]), Encode(w, c', ss[1..]), rest);
      TurnDecoded(w, c, ss[0], src, tail, first);
      NextValid(w, c, ss[0]);
      NarrowRun(w, c', ss[1..], Source(tail, Streaming), rest, false);
      ContinueOne(w, c, src, first, c', Source(tail, Streaming), |ss|,
                  DecodeFrom(w, c', Source(tail, Streaming), |ss| - 1, false));
      ConsSplit(ss);
    }
  }

  /** Any calls: the samples come back exactly if each of them starts in time. */
  lemma {:induction false} NarrowCalls(w: nat, c: Coder, ss: seq<int>, src: Source, rest: seq<Bit>, sizes: seq<nat>)
    requires ValidWidth(w) && w <= 15 && ValidCoder(w, c) && AllInRange(w, ss) && Sum(sizes) == |ss|
    requires src.avail == Encode(w, c, ss) + rest && !src.phase.Dry?
    ensures SamplesInTime(w, c, ss, |src.avail|) ==> DecodeCalls(w, c, src, sizes) == ss
    ensures !SamplesInTime(w, c, ss, |src.avail|) ==> |DecodeCalls(w, c, src, sizes)| < |ss|
    decreases |sizes|
  {
    hide DecodeFrom, ValidCoder, InRange, Encode, EncodeState, SamplesInTime;
    if sizes == [] {
      AllInTime(w, c, |src.avail|);
    } else {
      var a, b := ss[..sizes[0]], ss[sizes[0]..];
      assert a + b == ss;
      EncodeConcat(w, c, a, b);
      InTimeSplit(w, c, a, b, |src.avail|);
      var more := Encode(w, EncodeState(w, c, a), b) + rest;
      ConcatAssoc(Encode(w, c, a), Encode(w, EncodeState(w, c, a), b), rest);
      NarrowRun(w, c, a, src, more, true);
      var d := Decode(w, c, src, sizes[0]);
      if SamplesInTime(w, c, a, |src.avail|) {
        EncodeStateValid(w, c, a);
        NarrowCalls(w, EncodeState(w, c, a), b, d.left, rest, sizes[1..]);
      } else {
        StarvedCalls(w, d.coder, d.left, sizes[1..]);
        EmptyLast(d.samples, DecodeCalls(w, d.coder, d.left, sizes[1..]));
      }
    }
  }

  lemma AllInTime(w: nat, c: Coder, bits: int)
    requires w >= 1
    ensures SamplesInTime(w, c, [], bits)
  {
  }

  /** So it is for a closed file of words up to 15 bits; up to 13 bits the samples always do. */
  lemma {:induction false} NarrowFileCalls(w: nat, ss: seq<int>, file: seq<Byte>, sizes: seq<nat>)
    requires 2 <= w <= 15 && AllInRange(w, ss) && ClosedFile(w, ss, file) && Sum(sizes) == |ss|
    ensures SamplesInTime(w, START, ss, FileBits(w, ss)) ==> DecodeCalls(w, START, OpenFile(file), sizes) == ss
    ensures !SamplesInTime(w, START, ss, FileBits(w, ss)) ==> |DecodeCalls(w, START, OpenFile(file), sizes)| < |ss|
    ensures w <= 13 ==> SamplesInTime(w, START, ss, FileBits(w, ss))
  {
    hide Encode, DecodeFrom, SamplesInTime;
    StartValid(w);
    var rest := CloseFlushes(w, ss, file);
    assert FileBits(w, ss) == 8 * |file|;
    NarrowCalls(w, START, ss, OpenFile(file), rest, sizes);
    if w <= 13 { NarrowFileLossless(w, ss, file, sizes); }
  }

  /** Three zero samples of 14 bits fill a byte with what follows them, and the third of them starts
      six bits from its end. */
  lemma SilenceTooLate()
    ensures FileBits(14, [0, 0, 0]) == 8 && !SamplesInTime(14, START, [0, 0, 0], FileBits(14, [0, 0, 0]))
  {
    hide Codeword, Next;
    SilenceLength(14, [0, 0, 0] + Flush());
    ZeroCodeword(14);
    assert [0, 0, 0][1..] == [0, 0] && [0, 0][1..] == [0];
    assert !SamplesInTime(14, START, [0], 6);
    assert !SamplesInTime(14, START, [0, 0], 7);
  }

  /** A file so short that the first modifier request of an 18-bit or wider word meets its end. */
  predicate TooShort(w: nat, ss: seq<int>)
  {
    w >= 18 && 1 <= |ss| <= 3 && forall i :: 0 <= i < |ss| ==> ss[i] == 0
  }

  /** Files of 16 to 24 bit words, read in one call: exact, except for one to three zero
      samples of 18 bits or more, of which nothing is read. */
  lemma {:induction false} WideFileLossless(w: nat, ss: seq<int>, file: seq<Byte>)
    requires 16 <= w <= 24 && AllInRange(w, ss) && ClosedFile(w, ss, file)
    ensures Decode(w, START, OpenFile(file), |ss|).samples == ss <==> !TooShort(w, ss)
    ensures TooShort(w, ss) ==> Decode(w, START, OpenFile(file), |ss|).samples == []
  {
    StartValid(w);
    var rest := CloseFlushes(w, ss, file);
    var src := OpenFile(file);
    if TooShort(w, ss) {
      ShortFileUnread(w, ss, file);
    } else if ss != [] {
      FileLongEnough(w, ss, file);
      var _ := EncodedIsDecodedAtEnd(w, START, ss, src, rest, 8 * |file|, true);
    }
  }

  /** Every call that asks for samples starts where a whole modifier is left of the input. */
  predicate CallsInTime(w: nat, c: Coder, ss: seq<int>, bits: int, sizes: seq<nat>)
    requires w >= 1 && Sum(sizes) == |ss|
    decreases |sizes|
  {
    sizes == [] ||
    var n := sizes[0];
    && (n > 0 ==> bits >= DwmMax(w))
    && CallsInTime(w, EncodeState(w, c, ss[..n]), ss[n..], bits - |Encode(w, c, ss[..n])|, sizes[1..])
  }

  lemma {:induction false} CallsShort(w: nat, c: Coder, src: Source, sizes: seq<nat>)
    requires ValidWidth(w) && ValidCoder(w, c)
    ensures |DecodeCalls(w, c, src, sizes)| <= Sum(sizes)
    decreases |sizes|
  {
    hide DecodeFrom, ValidCoder;
    if sizes != [] {
      DecodeSafe(w, c, src, sizes[0], true);
      CallsShort(w, Decode(w, c, src, sizes[0]).coder, Decode(w, c, src, sizes[0]).left, sizes[1..]);
    }
  }

  /** Nothing comes of a call that starts where less is left. */
  lemma {:induction false} LateCall(w: nat, c: Coder, ss: seq<int>, src: Source, rest: seq<Bit>, bits: int, n: nat)
    requires ValidWidth(w) && w >= 16 && ValidCoder(w, c) && AllInRange(w, ss) && Remains(w, src, bits)
    requires src.avail == Encode(w, c, ss) + rest && 0 < n <= |ss| && bits < DwmMax(w)
    ensures Decode(w, c, src, n).samples == [] && Decode(w, c, src, n).coder == c
  {
    hide DecodeStep, Codeword, Next, ValidCoder, InRange;
    var tail := Encode(w, Next(w, c, ss[0]), ss[1..]) + rest;
    ConcatAssoc(Codeword(w, c, ss[0]), Encode(w, Next(w, c, ss[0]), ss[1..]), rest);
    CodewordDecoded(w, c, ss[0], src, tail);
    assert PhaseAfter(w, src) == Dry;
    DecodeUnfold(w, c, src, n, true);
  }

  /** Words of 16 to 24 bits read in several calls: the samples come back exactly if no call that
      asks for any starts where the rest of the input is shorter than a modifier. */
  lemma {:induction false} WideCalls(w: nat, c: Coder, ss: seq<int>, src: Source, rest: seq<Bit>, bits: int,
                                     sizes: seq<nat>)
    requires ValidWidth(w) && w >= 16 && ValidCoder(w, c) && AllInRange(w, ss) && Remains(w, src, bits)
    requires src.avail == Encode(w, c, ss) + rest && |rest| >= 1 && Sum(sizes) == |ss|
    ensures CallsInTime(w, c, ss, bits, sizes) ==> DecodeCalls(w, c, src, sizes) == ss
    ensures !CallsInTime(w, c, ss, bits, sizes) ==> |DecodeCalls(w, c, src, sizes)| < |ss|
    decreases |sizes|
  {
    hide DecodeFrom, ValidCoder, InRange, Encode, EncodeState, Remains;
    if sizes != [] {
      var n := sizes[0];
      var a, b := ss[..n], ss[n..];
      var d := Decode(w, c, src, n);
      if n == 0 {
        DecodeNone(w, c, src, true);
        NoCode(w, c);
        assert a == [] && b == ss;
        WideCalls(w, c, ss, src, rest, bits, sizes[1..]);
      } else if bits < DwmMax(w) {
        LateCall(w, c, ss, src, rest, bits, n);
        CallsShort(w, d.coder, d.left, sizes[1..]);
      } else {
        assert a + b == ss;
        TimelyCall(w, c, a, b, src, rest, bits);
        EncodeStateValid(w, c, a);
        var left := Encode(w, EncodeState(w, c, a), b);
        var more := d.left.avail[|left|..];
        WideCalls(w, EncodeState(w, c, a), b, d.left, more, bits - |Encode(w, c, a)|, sizes[1..]);
      }
    }
  }

  lemma NoCode(w: nat, c: Coder)
    requires w >= 1
    ensures Encode(w, c, []) == [] && EncodeState(w, c, []) == c
  {
  }

  lemma {:induction false} TimelyCall(w: nat, c: Coder, a: seq<int>, b: seq<int>, src: Source, rest: seq<Bit>,
                                      bits: int)
    requires ValidWidth(w) && w >= 16 && ValidCoder(w, c) && AllInRange(w, a) && AllInRange(w, b)
             && Remains(w, src, bits)
    requires src.avail == Encode(w, c, a + b) + rest && |rest| >= 1 && bits >= DwmMax(w)
    ensures var d, left := Decode(w, c, src, |a|), Encode(w, EncodeState(w, c, a), b);
            && d.samples == a && d.coder == EncodeState(w, c, a) && Remains(w, d.left, bits - |Encode(w, c, a)|)
            && left + rest <= d.left.avail
  {
    hide DecodeFrom, ValidCoder, InRange, Encode, EncodeState;
    EncodeConcat(w, c, a, b);
    var left := Encode(w, EncodeState(w, c, a), b);
    ConcatAssoc(Encode(w, c, a), left, rest);
    var d := EncodedIsDecodedAtEnd(w, c, a, src, left + rest, bits, true);
  }

  /** So it is for a closed file: all samples, or fewer. */
  lemma {:induction false} WideFileCalls(w: nat, ss: seq<int>, file: seq<Byte>, sizes: seq<nat>)
    requires 16 <= w <= 24 && AllInRange(w, ss) && ClosedFile(w, ss, file) && Sum(sizes) == |ss|
    ensures CallsInTime(w, START, ss, FileBits(w, ss), sizes) ==> DecodeCalls(w, START, OpenFile(file), sizes) == ss
    ensures !CallsInTime(w, START, ss, FileBits(w, ss), sizes) ==> |DecodeCalls(w, START, OpenFile(file), sizes)| < |ss|
  {
    hide Encode, DecodeFrom;
    StartValid(w);
    var rest := CloseFlushes(w, ss, file);
    assert FileBits(w, ss) == 8 * |file|;
    WideCalls(w, START, ss, OpenFile(file), rest, 8 * |file|, sizes);
  }

  lemma {:induction false} ShortFileUnread(w: nat, ss: seq<int>, file: seq<Byte>)
    requires w <= 24 && TooShort(w, ss) && ClosedFile(w, ss, file)
    ensures Decode(w, START, OpenFile(file), |ss|).samples == []
  {
    SilenceLength(w, ss + Flush());
    assert |file| == 1;
    assert LoadModifier(w, OpenFile(file)).left.phase == Dry;
  }

  lemma {:induction false} ZeroCodeword(w: nat)
    requires ValidWidth(w)
    ensures Next(w, START, 0) == START && |Codeword(w, START, 0)| == 1
  {
    Pow2Mono(1, w - 1);
    assert FoldDelta(w, 0).magnitude == 0;
  }

  lemma {:induction false} SilenceLength(w: nat, ss: seq<int>)
    requires ValidWidth(w) && forall i :: 0 <= i < |ss| ==> ss[i] == 0
    ensures |Encode(w, START, ss)| == |ss|
    decreases |ss|
  {
    if ss != [] {
      ZeroCodeword(w);
      SilenceLength(w, ss[1..]);
    }
  }

  /** The first sample that is not zero costs at least four bits. */
  lemma {:induction false} SoundLength(w: nat, ss: seq<int>, i: nat)
    requires ValidWidth(w) && w >= 4 && AllInRange(w, ss) && i < |ss| && ss[i] != 0
    ensures |Encode(w, START, ss)| >= 4
    decreases |ss|
  {
    if ss[0] == 0 {
      ZeroCodeword(w);
      SoundLength(w, ss[1..], i - 1);
    } else {
      StartValid(w);
      FoldUnfold(w, 0, ss[0]);
      var width := Next(w, START, ss[0]).width;
      NextValid(w, START, ss[0]);
      ModifierUndone(w, width, 0);
      BitLengthRange(FoldDelta(w, ss[0]).magnitude);
      assert width > 0;
    }
  }

  lemma {:induction false} FileLongEnough(w: nat, ss: seq<int>, file: seq<Byte>)
    requires 16 <= w <= 24 && AllInRange(w, ss) && ClosedFile(w, ss, file)
    requires ss != [] && !TooShort(w, ss)
    ensures 8 * |file| >= DwmMax(w)
  {
    var tail := FlushLength(w, ss);
    EncodeLength(w, START, ss);
    if w >= 18 && |ss| <= 3 {
      var i :| 0 <= i < |ss| && ss[i] != 0;
      SoundLength(w, ss, i);
    }
  }
}
