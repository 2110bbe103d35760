/** DWVW from samples to file and back, through the coder objects. */
module DwvwRoundTrip {
  import opened Bits
  import opened Chunks
  import opened DwvwCode
  import opened DwvwFile
  import opened Dwvw

  predicate AllInt32(ptr: seq<int>) { forall i :: 0 <= i < |ptr| ==> IsInt32(ptr[i]) }

  lemma WordsConcat(w: nat, a: seq<int>, b: seq<int>)
    requires w <= 32
    ensures Words(w, a + b) == Words(w, a) + Words(w, b)
  {
  }

  lemma WordsInRange(w: nat, ptr: seq<int>)
    requires ValidWidth(w) && AllInt32(ptr)
    ensures AllInRange(w, Words(w, ptr))
  {
    forall i | 0 <= i < |ptr| ensures InRange(w, Words(w, ptr)[i]) { WordInRange(w, ptr[i]); }
  }

  /** Open for writing, write in any pieces, close: the file depends on the joined samples only. */
  method WriteFile(w: nat, chunks: seq<seq<int>>) returns (file: seq<Byte>)
    requires ValidWidth(w) && forall k :: 0 <= k < |chunks| ==> AllInt32(chunks[k])
    ensures ClosedFile(w, Words(w, Flatten(chunks)), file)
  {
    hide ClosedFile, Encode, EncodeState, Words, Flatten, Coder32.Stream;
    var coder := new Coder32(w, []);
    EncodeNothing(w);
    var k := 0;
    while k < |chunks|
      invariant k <= |chunks| && fresh(coder) && fresh(coder.buffer) && coder.bitWidth == w
      invariant coder.WriterValid() && coder.StateValid()
      invariant coder.Stream() == Encode(w, START, Words(w, Flatten(chunks[..k])))
      invariant coder.State() == EncodeState(w, START, Words(w, Flatten(chunks[..k])))
    {
      FlattenOneMore(chunks, k);
      WordsConcat(w, Flatten(chunks[..k]), chunks[k]);
      EncodeConcat(w, START, Words(w, Flatten(chunks[..k])), Words(w, chunks[k]));
      var count := coder.EncodeData(chunks[k]);
      k := k + 1;
    }
    assert chunks[..k] == chunks;
    coder.Close(Words(w, Flatten(chunks)));
    file := coder.file;
  }

  lemma EncodeNothing(w: nat)
    requires 1 <= w <= 32
    ensures Encode(w, START, Words(w, Flatten([]))) == []
    ensures EncodeState(w, START, Words(w, Flatten([]))) == START
  {
  }

  /** Open for reading and read in calls of the given sizes. */
  method ReadFile(w: nat, file: seq<Byte>, sizes: seq<nat>) returns (back: seq<int>)
    requires ValidWidth(w)
    ensures back == JustifiedAll(w, DecodeCalls(w, START, OpenFile(file), sizes))
  {
    hide Decode, DecodeFrom;
    var coder := new Coder32(w, file);
    ghost var done: seq<int> := [];
    back := [];
    var k := 0;
    while k < |sizes|
      invariant k <= |sizes| && fresh(coder) && fresh(coder.buffer) && coder.bitWidth == w
      invariant coder.ReaderValid() && coder.StateValid()
      invariant DecodeCalls(w, START, OpenFile(file), sizes)
             == done + DecodeCalls(w, coder.State(), coder.Src(), sizes[k..])
      invariant back == JustifiedAll(w, done)
    {
      ghost var d := Decode(w, coder.State(), coder.Src(), sizes[k]);
      assert sizes[k..][1..] == sizes[k + 1..];
      ConcatAssoc(done, d.samples, DecodeCalls(w, d.coder, d.left, sizes[k + 1..]));
      var ptr := coder.DecodeData(sizes[k]);
      JustifiedConcat(w, done, d.samples);
      back, done := back + ptr, done + d.samples;
      k := k + 1;
    }
    assert done + [] == done;
  }

  lemma JustifiedConcat(w: nat, a: seq<int>, b: seq<int>)
    requires w <= 32
    ensures JustifiedAll(w, a + b) == JustifiedAll(w, a) + JustifiedAll(w, b)
  {
  }

  /** What survives of 32-bit samples: each of them less its bits below the word. */
  predicate Survives(w: nat, ptr: seq<int>, back: seq<int>)
    requires w <= 32
  {
    |back| == |ptr| && forall i :: 0 <= i < |ptr| ==> back[i] == ptr[i] - ptr[i] % Pow2(32 - w)
  }

  /** The word of a sample, and what it makes when it is justified again: the next multiple of the
      word's lowest bit downward, of negative samples too. */
  lemma {:induction false} WordBack(w: nat, x: int)
    requires 1 <= w <= 32 && IsInt32(x)
    ensures WordOf(w, x) * Pow2(32 - w) == x - x % Pow2(32 - w)
    ensures Justified(w, WordOf(w, x)) == x - x % Pow2(32 - w)
  {
    hide Pow2;
    var p, m := Pow2(32 - w), Pow2(w - 1);
    assert m * p == 0x8000_0000 by { HalfRange(w); }
    FloorBound(x, p, m);
    Int32Id((x / p) * p);
  }

  /** So a sample survives exactly when the bits below its word are zero. */
  lemma {:induction false} SampleSurvives(w: nat, x: int)
    requires 1 <= w <= 32 && IsInt32(x)
    ensures Justified(w, WordOf(w, x)) == x <==> x % Pow2(32 - w) == 0
  {
    hide Pow2, Justified, WordOf;
    WordBack(w, x);
  }

  lemma WordsBack(w: nat, ptr: seq<int>, back: seq<int>)
    requires ValidWidth(w) && AllInt32(ptr)
    ensures Survives(w, ptr, back) <==> back == JustifiedAll(w, Words(w, ptr))
  {
    hide Pow2, Justified, WordOf;
    forall i | 0 <= i < |ptr|
      ensures Justified(w, Words(w, ptr)[i]) == ptr[i] - ptr[i] % Pow2(32 - w)
    {
      WordBack(w, ptr[i]);
    }
  }

  lemma HalfRange(w: nat)
    requires 1 <= w <= 32
    ensures Pow2(w - 1) * Pow2(32 - w) == 0x8000_0000
  {
    Pow2Add(w - 1, 32 - w);
    Pow2Table();
  }

  lemma Int32Id(x: int)
    requires IsInt32(x)
    ensures Int32(x) == x
  {
  }

  lemma {:induction false} FloorBound(x: int, p: int, m: int)
    requires p > 0 && -(m * p) <= x < m * p
    ensures -(m * p) <= (x / p) * p <= x && x == (x / p) * p + x % p
  {
    QuotientRange(x, p, m);
    assert x == p * (x / p) + x % p;
    assert (x / p + m) * p >= 0;
  }

  /** The whole journey. Words of up to 13 bits come back whatever the write and read sizes, words
      of 14 and 15 bits exactly if every sample starts where a whole modifier is left of the file.
      Words of 16 to 24 bits come back exactly if no read call that asks for samples starts where
      less than a modifier is left of the file; from a single call, unless it is one of the files
      of one to three zero samples of 18 bits or more. */
  method RoundTrip(w: nat, chunks: seq<seq<int>>, sizes: seq<nat>) returns (back: seq<int>)
    requires ValidWidth(w) && forall k :: 0 <= k < |chunks| ==> AllInt32(chunks[k])
    ensures w <= 13 && Sum(sizes) == |Flatten(chunks)| ==> Survives(w, Flatten(chunks), back)
    ensures w <= 15 && Sum(sizes) == |Flatten(chunks)| ==>
              var ss := Words(w, Flatten(chunks));
              Survives(w, Flatten(chunks), back) <==> SamplesInTime(w, START, ss, FileBits(w, ss))
    ensures w >= 16 && Sum(sizes) == |Flatten(chunks)| ==>
              var ss := Words(w, Flatten(chunks));
              Survives(w, Flatten(chunks), back) <==> CallsInTime(w, START, ss, FileBits(w, ss), sizes)
    ensures w >= 16 && sizes == [|Flatten(chunks)|] ==>
              (Survives(w, Flatten(chunks), back) <==> !TooShort(w, Words(w, Flatten(chunks))))
  {
    hide DecodeCalls, CallsInTime, SamplesInTime, Encode, Flatten, TooShort, FileBits, Survives;
    var file := WriteFile(w, chunks);
    back := ReadFile(w, file, sizes);
    FlattenInt32(chunks);
    ghost var ss := Words(w, Flatten(chunks));
    WordsInRange(w, Flatten(chunks));
    WordsBack(w, Flatten(chunks), back);
    if w <= 15 && Sum(sizes) == |ss| {
      NarrowFileCalls(w, ss, file, sizes);
    }
    if w >= 16 && Sum(sizes) == |ss| {
      WideFileCalls(w, ss, file, sizes);
    }
    if w >= 16 && sizes == [|ss|] {
      OneCall(w, OpenFile(file), |ss|);
      WideFileLossless(w, ss, file);
    }
  }

  lemma OneCall(w: nat, src: Source, n: nat)
    requires w >= 1
    ensures DecodeCalls(w, START, src, [n]) == Decode(w, START, src, n).samples
  {
    hide Decode;
    assert [n][1..] == [];
  }

  lemma {:induction false} FlattenInt32(chunks: seq<seq<int>>)
    requires forall k :: 0 <= k < |chunks| ==> AllInt32(chunks[k])
    ensures AllInt32(Flatten(chunks))
  {
    if chunks != [] { FlattenInt32(chunks[..|chunks| - 1]); }
  }
}
