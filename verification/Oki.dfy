/** The IMA/OKI coder object: adpcm_decode, adpcm_encode and the block functions over its buffers. */
module Oki {
  import opened Bits
  import opened Pcm
  import opened OkiCode

  const CODE_LEN := 256
  const PCM_LEN := 512

  class Coder {
    const kind: Kind
    var lastOutput: int
    var stepIndex: int
    var errors: nat
    var codeCount: nat
    var pcmCount: nat
    const codes: array<Byte>
    const pcm: array<int>

    ghost predicate Valid()
      reads this
    {
      && ValidState(kind, State()) && codes.Length == CODE_LEN && pcm.Length == PCM_LEN
      && codes as object != pcm as object
      && codeCount <= CODE_LEN && pcmCount <= PCM_LEN
    }

    function State(): State
      reads `lastOutput, `stepIndex, `errors
    {
      OkiCode.State(lastOutput, stepIndex, errors)
    }

    /** ima_oki_adpcm_init */
    constructor (kind: Kind)
      ensures Valid() && this.kind == kind && State() == START && codeCount == 0 && pcmCount == 0
      ensures fresh(codes) && fresh(pcm)
    {
      this.kind := kind;
      lastOutput, stepIndex, errors, codeCount, pcmCount := 0, 0, 0, 0, 0;
      codes := new Byte[CODE_LEN](_ => 0);
      pcm := new int[PCM_LEN](_ => 0);
    }

    /** adpcm_decode */
    method Decode(code: nat) returns (s: int)
      requires Valid()
      modifies this`lastOutput, this`stepIndex, this`errors
      ensures Valid() && State() == OkiCode.Decode(kind, old(State()), code) && s == lastOutput
    {
      hide StepAt, Masked;
      var step := StepAt(kind, stepIndex);
      s := code % 8 * 2 + 1;
      s := Masked(kind, step * s / 8);
      if code / 8 % 2 == 1 {
        s := -s;
      }
      s := s + lastOutput;
      if s < MIN_SAMPLE || s > MAX_SAMPLE {
        var grace := Masked(kind, step / 8);
        if s < MIN_SAMPLE - grace || s > MAX_SAMPLE + grace {
          errors := errors + 1;
        }
        s := if s < MIN_SAMPLE then MIN_SAMPLE else MAX_SAMPLE;
      }
      stepIndex := stepIndex + STEP_CHANGES[code % 8];
      stepIndex :=
        if stepIndex < 0 then 0 else if stepIndex > MaxStepIndex(kind) then MaxStepIndex(kind) else stepIndex;
      lastOutput := s;
    }

    /** adpcm_encode */
    method Encode(sample: int) returns (code: nat)
      requires Valid()
      modifies this`lastOutput, this`stepIndex, this`errors
      ensures Valid() && code == CodeFor(kind, old(State()), sample) < 16
      ensures State() == OkiCode.Encode(kind, old(State()), sample)
    {
      hide StepAt, OkiCode.Decode;
      var delta, sign := sample - lastOutput, 0;
      if delta < 0 {
        sign := 8;
        delta := -delta;
      }
      assert delta == Abs(sample - lastOutput);
      QuotientSign(4 * delta, StepAt(kind, stepIndex));
      code := 4 * delta / StepAt(kind, stepIndex);
      code := sign + if code < 7 then code else 7;
      var _ := Decode(code);
    }

    /** The samples of a block, made even. */
    ghost function Padded(): (r: seq<int>)
      requires Valid()
      reads this, pcm
      ensures |r| % 2 == 0 && |r| <= PCM_LEN
    {
      pcm[..pcmCount] + if pcmCount % 2 == 1 then [0] else []
    }

    /** ima_oki_adpcm_encode_block */
    method EncodeBlock()
      requires Valid() && AllInt16(pcm[..pcmCount])
      modifies this, codes, pcm
      ensures Valid() && pcm[..pcmCount] == old(Padded()) && codeCount == pcmCount / 2
      ensures Packs(kind, old(State()), old(Padded()), codes[..codeCount])
      ensures State() == EncodeAt(kind, old(State()), old(Padded()), pcmCount)
    {
      hide StepAt, OkiCode.Encode, CodeFor, Nibble, CodeAt;
      ghost var samples, st := Padded(), State();
      if pcmCount % 2 == 1 {
        pcm[pcmCount] := 0;
        pcmCount := pcmCount + 1;
      }
      assert pcm[..pcmCount] == samples;
      var k := 0;
      while k < pcmCount / 2
        invariant k <= pcmCount / 2 && Valid() && pcmCount == |samples| && pcm[..pcmCount] == samples
        invariant State() == EncodeAt(kind, st, samples, 2 * k)
        invariant CodedTo(codes[..], st, samples, k)
      {
        assert pcm[2 * k] == samples[2 * k] && pcm[2 * k + 1] == samples[2 * k + 1];
        var high := Encode(pcm[2 * k]);
        var low := Encode(pcm[2 * k + 1]);
        TwoSteps(st, samples, 2 * k);
        ghost var before := codes[..];
        codes[k] := high * 16 + low;
        assert codes[..] == before[k := high * 16 + low];
        PackPair(before, st, samples, k, high, low);
        k := k + 1;
      }
      codeCount := k;
      PackedAll(codes[..], st, samples, k);
    }

    /** The first `k` bytes hold their two codes. */
    ghost predicate CodedTo(bytes: seq<Byte>, st: OkiCode.State, samples: seq<int>, k: nat)
      requires ValidState(kind, st)
    {
      2 * k <= |samples| && k <= |bytes|
      && forall i :: 0 <= i < 2 * k ==> Nibble(bytes, i) == CodeAt(kind, st, samples, i)
    }

    lemma TwoSteps(st: OkiCode.State, samples: seq<int>, k: nat)
      requires ValidState(kind, st) && k + 2 <= |samples|
      ensures var e := EncodeAt(kind, st, samples, k);
              var f := OkiCode.Encode(kind, e, samples[k]);
              && CodeAt(kind, st, samples, k) == CodeFor(kind, e, samples[k])
              && CodeAt(kind, st, samples, k + 1) == CodeFor(kind, f, samples[k + 1])
              && EncodeAt(kind, st, samples, k + 2) == OkiCode.Encode(kind, f, samples[k + 1])
    {
      hide CodeFor, OkiCode.Encode;
      assert EncodeAt(kind, st, samples, k + 1) == OkiCode.Encode(kind, EncodeAt(kind, st, samples, k), samples[k]);
    }

    lemma PackPair(before: seq<Byte>, st: OkiCode.State, samples: seq<int>, k: nat, high: nat, low: nat)
      requires ValidState(kind, st) && CodedTo(before, st, samples, k) && 2 * k + 2 <= |samples| && k < |before|
      requires high == CodeAt(kind, st, samples, 2 * k) < 16 && low == CodeAt(kind, st, samples, 2 * k + 1) < 16
      ensures CodedTo(before[k := high * 16 + low], st, samples, k + 1)
    {
      hide CodeAt;
      var after := before[k := high * 16 + low];
      forall i | 0 <= i < 2 * k + 2 ensures Nibble(after, i) == CodeAt(kind, st, samples, i) {
        if i < 2 * k { assert Nibble(after, i) == Nibble(before, i); }
      }
    }

    lemma PackedAll(bytes: seq<Byte>, st: OkiCode.State, samples: seq<int>, k: nat)
      requires ValidState(kind, st) && CodedTo(bytes, st, samples, k) && |samples| == 2 * k
      ensures Packs(kind, st, samples, bytes[..k])
    {
      hide CodeAt;
      forall i | 0 <= i < 2 * k ensures Nibble(bytes[..k], i) == CodeAt(kind, st, samples, i) {
        assert Nibble(bytes[..k], i) == Nibble(bytes, i);
      }
    }

    /** ima_oki_adpcm_decode_block. A byte is passed on whole: decoding looks at its low nibble. */
    method DecodeBlock()
      requires Valid()
      modifies this, pcm
      ensures Valid() && pcmCount == 2 * codeCount && codeCount == old(codeCount)
      ensures forall k {:trigger pcm[k]} :: 0 <= k < pcmCount ==>
                pcm[k] == DecodeAt(kind, old(State()), codes[..codeCount], k + 1).lastOutput
      ensures State() == DecodeAt(kind, old(State()), codes[..codeCount], pcmCount)
    {
      hide OkiCode.Decode, Nibble, DecodeAt;
      ghost var st, bytes := State(), codes[..codeCount];
      var k := 0;
      DecodeNothing(st, bytes);
      while k < codeCount
        invariant k <= codeCount == old(codeCount) && Valid() && codes[..codeCount] == bytes
        invariant State() == DecodeAt(kind, st, bytes, 2 * k)
        invariant forall i {:trigger pcm[i]} :: 0 <= i < 2 * k ==> pcm[i] == DecodeAt(kind, st, bytes, i + 1).lastOutput
      {
        var code := codes[k];
        assert code == bytes[k];
        DecodePair(st, bytes, k);
        var first := Decode(code / 16);
        pcm[2 * k] := first;
        var second := Decode(code);
        pcm[2 * k + 1] := second;
        k := k + 1;
      }
      pcmCount := 2 * k;
    }

    lemma DecodeNothing(st: OkiCode.State, bytes: seq<Byte>)
      requires ValidState(kind, st)
      ensures DecodeAt(kind, st, bytes, 0) == st
    {
    }

    lemma DecodePair(st: OkiCode.State, bytes: seq<Byte>, k: nat)
      requires ValidState(kind, st) && k < |bytes|
      ensures var d := DecodeAt(kind, st, bytes, 2 * k);
              && DecodeAt(kind, st, bytes, 2 * k + 1) == OkiCode.Decode(kind, d, bytes[k] / 16)
              && DecodeAt(kind, st, bytes, 2 * k + 2)
                 == OkiCode.Decode(kind, DecodeAt(kind, st, bytes, 2 * k + 1), bytes[k])
    {
      hide OkiCode.Decode, Nibble, DecodeAt;
      NibblePair(bytes, k);
      DecodeOneMore(st, bytes, 2 * k);
      DecodeOneMore(st, bytes, 2 * k + 1);
      LowNibble(DecodeAt(kind, st, bytes, 2 * k + 1), bytes[k]);
    }

    lemma NibblePair(bytes: seq<Byte>, k: nat)
      requires k < |bytes|
      ensures Nibble(bytes, 2 * k) == bytes[k] / 16 && Nibble(bytes, 2 * k + 1) == bytes[k] % 16
    {
    }

    lemma DecodeOneMore(st: OkiCode.State, bytes: seq<Byte>, k: nat)
      requires ValidState(kind, st) && k < 2 * |bytes|
      ensures DecodeAt(kind, st, bytes, k + 1) == OkiCode.Decode(kind, DecodeAt(kind, st, bytes, k), Nibble(bytes, k))
    {
      hide OkiCode.Decode, Nibble;
    }

    lemma LowNibble(st: OkiCode.State, code: nat)
      requires ValidState(kind, st)
      ensures OkiCode.Decode(kind, st, code % 16) == OkiCode.Decode(kind, st, code)
    {
      hide StepAt, Masked;
      SameDigits(code);
    }
  }

  lemma SameDigits(code: nat)
    ensures code % 16 % 8 == code % 8 && code % 16 / 8 % 2 == code / 8 % 2
  {
    var q, r := code / 16, code % 16;
    DivUnique(code, 8, 2 * q + r / 8, r % 8);
    DivUnique(2 * q + r / 8, 2, q, r / 8);
  }

  /** A block through one coder and back through another in the same state: the second ends in the
      first one's state, delivers its outputs and, for IMA, counts no error. */
  method RoundTrip(coder: Coder, decoder: Coder)
    requires coder.Valid() && decoder.Valid() && coder.kind == decoder.kind && coder.State() == decoder.State()
    requires AllInt16(coder.pcm[..coder.pcmCount]) && coder != decoder
    requires {coder.pcm as object, coder.codes} !! {decoder.pcm as object, decoder.codes}
    modifies coder, coder.codes, coder.pcm, decoder, decoder.codes, decoder.pcm
    ensures coder.Valid() && decoder.Valid() && decoder.State() == coder.State() && decoder.pcmCount == coder.pcmCount
    ensures coder.pcm[..coder.pcmCount] == old(coder.Padded())
    ensures forall k {:trigger decoder.pcm[k]} :: 0 <= k < decoder.pcmCount ==>
              decoder.pcm[k] == EncodeAt(coder.kind, old(coder.State()), old(coder.Padded()), k + 1).lastOutput
    ensures coder.kind.Ima? ==> decoder.errors == old(decoder.errors)
  {
    hide EncodeAt, DecodeAt, CodeAt, Nibble;
    ghost var st, samples := coder.State(), coder.Padded();
    coder.EncodeBlock();
    ghost var bytes := coder.codes[..coder.codeCount];
    assert Packs(coder.kind, st, samples, bytes);
    forall k | 0 <= k < coder.codeCount { decoder.codes[k] := coder.codes[k]; }
    decoder.codeCount := coder.codeCount;
    assert decoder.codes[..decoder.codeCount] == bytes;
    decoder.DecodeBlock();
    assert decoder.codes[..decoder.codeCount] == bytes;
    forall k | 0 <= k <= |samples|
      ensures 2 * |bytes| == |samples| && DecodeAt(coder.kind, st, bytes, k) == EncodeAt(coder.kind, st, samples, k)
    {
      Lockstep(coder.kind, st, samples, bytes, k);
    }
    if coder.kind.Ima? { StreamErrors(coder.kind, st, samples, |samples|); }
  }
}
