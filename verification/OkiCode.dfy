/** The IMA/OKI ADPCM of raw streams: one step of the decoder, the encoder's choice, and what the
    choice guarantees. */
module OkiCode {
  import opened Bits
  import opened Pcm
  import ImaCode

  datatype Kind = Ima | Oki

  type OkiStep = s: int | 256 <= s <= 24832 && s % 16 == 0 witness 256

  const OKI_STEPS: seq<OkiStep> :=
    [256, 272, 304, 336, 368, 400, 448, 496, 544, 592, 656, 720, 800]
    + [880, 960, 1056, 1168, 1280, 1408, 1552, 1712, 1888, 2080, 2288, 2512, 2768]
    + [3040, 3344, 3680, 4048, 4464, 4912, 5392, 5936, 6528, 7184, 7904, 8704, 9568]
    + [10528, 11584, 12736, 14016, 15408, 16960, 18656, 20512, 22576, 24832]

  const STEP_CHANGES: seq<int> := [-1, -1, -1, -1, 2, 4, 6, 8]

  const MIN_SAMPLE := -0x8000
  const MAX_SAMPLE := 0x7fff

  function MaxStepIndex(kind: Kind): nat { if kind.Ima? then ImaCode.LAST_INDEX else |OKI_STEPS| - 1 }

  function StepAt(kind: Kind, index: int): (s: ImaCode.Step)
    requires 0 <= index <= MaxStepIndex(kind)
    ensures kind.Oki? ==> s % 16 == 0
  {
    if kind.Ima? then ImaCode.STEP_SIZE[index] else var s: OkiStep := OKI_STEPS[index]; s
  }

  /** `& mask` on a non-negative number: all bits for IMA, not the low four for OKI. */
  function Masked(kind: Kind, x: nat): nat { if kind.Ima? then x else x / 16 * 16 }

  datatype State = State(lastOutput: int, stepIndex: int, errors: nat)

  predicate ValidState(kind: Kind, st: State) { IsInt16(st.lastOutput) && 0 <= st.stepIndex <= MaxStepIndex(kind) }

  const START := State(0, 0, 0)

  /** How far a code moves the output. */
  function Move(kind: Kind, step: nat, code: nat): nat { Masked(kind, step * (code % 8 * 2 + 1) / 8) }

  function Grace(kind: Kind, step: nat): nat { Masked(kind, step / 8) }

  function NextIndex(kind: Kind, index: int, code: nat): (r: int)
    ensures 0 <= r <= MaxStepIndex(kind)
  {
    var i := index + STEP_CHANGES[code % 8];
    if i < 0 then 0 else if i > MaxStepIndex(kind) then MaxStepIndex(kind) else i
  }

  /** Codes of a magnitude below 4 shorten the step by one entry, the others lengthen it by 2 to 8, as
      far as the table goes; the sign does not matter. */
  lemma NextIndexMoves(kind: Kind, index: int, code: nat)
    requires 0 <= index <= MaxStepIndex(kind)
    ensures var i := index + if code % 8 < 4 then -1 else 2 * (code % 8 - 3);
            NextIndex(kind, index, code)
            == if i < 0 then 0 else if i > MaxStepIndex(kind) then MaxStepIndex(kind) else i
    ensures code % 8 < 4 ==> NextIndex(kind, index, code) <= index
    ensures code % 8 >= 4 ==> NextIndex(kind, index, code) >= index
  {
  }

  /** Each OKI step is a tenth larger than the one before, to within 0.8 of 16. */
  lemma {:induction false} OkiStepsGrow(i: int)
    requires 0 <= i < 48
    ensures StepAt(Oki, 0) == 256 && StepAt(Oki, 48) == 24832 && MaxStepIndex(Oki) == 48
    ensures StepAt(Oki, i) < StepAt(Oki, i + 1)
    ensures -128 <= 10 * StepAt(Oki, i + 1) - 11 * StepAt(Oki, i) <= 128
  {
  }

  /** Past the range by more than the grace: this counts as an error. */
  predicate Astray(s: int, grace: nat) { s < MIN_SAMPLE - grace || s > MAX_SAMPLE + grace }

  /** adpcm_decode. Only the low four bits of the code matter. */
  function Decode(kind: Kind, st: State, code: nat): (r: State)
    requires ValidState(kind, st)
    ensures ValidState(kind, r)
  {
    var step := StepAt(kind, st.stepIndex);
    var move: int := Move(kind, step, code);
    var s := st.lastOutput + if code / 8 % 2 == 1 then -move else move;
    State(Clamp16(s), NextIndex(kind, st.stepIndex, code), st.errors + if Astray(s, Grace(kind, step)) then 1 else 0)
  }

  /** The three magnitude bits: the quarters of a step in the difference, at most seven. */
  function Quarters(d: nat, step: int): (c: nat)
    requires step > 0
    ensures c < 8
  {
    QuotientSign(4 * d, step);
    if 4 * d / step < 7 then 4 * d / step else 7
  }

  lemma QuotientSign(x: nat, d: int)
    requires d > 0
    ensures x / d >= 0
  {
  }

  /** adpcm_encode's code. */
  function CodeFor(kind: Kind, st: State, sample: int): (code: nat)
    requires ValidState(kind, st)
    ensures code < 16
  {
    (if sample < st.lastOutput then 8 else 0) + Quarters(Abs(sample - st.lastOutput), StepAt(kind, st.stepIndex))
  }

  function Encode(kind: Kind, st: State, sample: int): (r: State)
    requires ValidState(kind, st)
    ensures ValidState(kind, r)
  {
    Decode(kind, st, CodeFor(kind, st, sample))
  }

  // ----- What the choice guarantees -----

  /** Before masking, the code's distance is at most an eighth of a step too far, and unless the
      largest code falls short, at most that much too near. */
  lemma {:induction false} Distance(d: nat, step: int)
    requires step > 0
    ensures var u := step * (Quarters(d, step) * 2 + 1) / 8;
            && 0 <= u <= d + step / 8 && (d < 2 * step ==> d <= u + step / 8 + 1)
            && (step % 16 == 0 ==> u % 2 == 0 && (d < 2 * step ==> d <= u + step / 8 - 1))
  {
    hide Quarters, Close;
    QuartersOf(d, step);
    var q := 4 * d / step;
    if q < 7 {
      DistanceNear(d, step, q, 4 * d % step);
    } else {
      SevenTimes(4 * d, step, q, 4 * d % step);
      Fifteen(step);
      DistanceFar(d, step);
    }
    CloseMeans(d, step, step * (Quarters(d, step) * 2 + 1) / 8);
  }

  predicate Close(d: nat, step: int, u: int)
  {
    && 0 <= u <= d + step / 8 && (d < 2 * step ==> d <= u + step / 8 + 1)
    && (step % 16 == 0 ==> u % 2 == 0 && (d < 2 * step ==> d <= u + step / 8 - 1))
  }

  lemma CloseMeans(d: nat, step: int, u: int)
    requires Close(d, step, u)
    ensures 0 <= u <= d + step / 8 && (d < 2 * step ==> d <= u + step / 8 + 1)
    ensures step % 16 == 0 ==> u % 2 == 0 && (d < 2 * step ==> d <= u + step / 8 - 1)
  {
  }

  lemma Fifteen(step: int)
    ensures step * (7 * 2 + 1) == 15 * step
  {
  }

  lemma DistanceNear(d: nat, step: int, q: int, r: int)
    requires step > 0 && q >= 0 && 0 <= r < step && 4 * d == step * q + r
    ensures Close(d, step, step * (q * 2 + 1) / 8)
  {
    OddTimes(step, q);
    if step % 16 == 0 { Multiple16(step / 16, q, step); }
    MulLess(-1, q, step);
    DistanceWithin(d, step, step * q, r);
  }

  lemma OddTimes(step: int, q: int)
    ensures step * (q * 2 + 1) == 2 * (step * q) + step
  {
  }

  lemma QuartersOf(d: nat, step: int)
    requires step > 0
    ensures 0 <= 4 * d / step && Quarters(d, step) == if 4 * d / step < 7 then 4 * d / step else 7
  {
    QuotientSign(4 * d, step);
  }

  lemma DistanceFar(d: nat, step: int)
    requires step > 0 && 4 * d >= 7 * step
    ensures Close(d, step, 15 * step / 8)
  {
    if step % 16 == 0 {
      var m := step / 16;
      assert step == 16 * m;
      assert 15 * step / 8 == 30 * m;
    }
  }

  lemma Multiple16(m: int, q: int, step: int)
    requires step == 16 * m
    ensures step * q % 16 == 0
  {
    MulAssoc(16, m, q);
    DivUnique(step * q, 16, m * q, 0);
  }

  lemma DistanceWithin(d: nat, step: int, p: int, r: int)
    requires 0 <= r < step && 4 * d == p + r && p >= 0 && (step % 16 == 0 ==> p % 16 == 0)
    ensures var u := (2 * p + step) / 8; 0 <= u <= d + step / 8 && d <= u + step / 8 + 1
    ensures step % 16 == 0 ==> (2 * p + step) / 8 % 2 == 0 && d <= (2 * p + step) / 8 + step / 8 - 1
  {
    Eighth(2 * p + step);
    Eighth(step);
    WithinOne(d, step, p, r, (2 * p + step) / 8, step / 8);
    if step % 16 == 0 { WholeSixteenths(d, step, p, r); }
  }

  lemma Eighth(x: int)
    ensures 8 * (x / 8) <= x < 8 * (x / 8) + 8
  {
  }

  lemma WholeSixteenths(d: nat, step: int, p: int, r: int)
    requires 0 <= r < step && 4 * d == p + r && step % 16 == 0 && p % 16 == 0
    ensures (2 * p + step) / 8 % 2 == 0 && d <= (2 * p + step) / 8 + step / 8 - 1
  {
    var m, n := step / 16, p / 16;
    assert step == 16 * m && p == 16 * n;
    Sixteenths(m, n, d, r);
    DivUnique(2 * (2 * n + m), 2, 2 * n + m, 0);
  }

  lemma WithinOne(d: nat, step: int, p: int, r: int, u: int, e: int)
    requires 0 <= r < step && 4 * d == p + r && p >= 0
    requires 8 * u <= 2 * p + step < 8 * u + 8 && 8 * e <= step < 8 * e + 8
    ensures 0 <= u <= d + e && d <= u + e + 1
  {
  }

  lemma Sixteenths(m: int, n: int, d: int, r: int)
    requires r < 16 * m && 4 * d == 16 * n + r
    ensures (32 * n + 16 * m) / 8 == 2 * (2 * n + m) && d <= 4 * n + 4 * m - 1 && 16 * m / 8 == 2 * m
  {
  }

  lemma MaskLoss(kind: Kind, x: nat)
    requires kind.Oki? ==> x % 2 == 0
    ensures Masked(kind, x) <= x <= Masked(kind, x) + (if kind.Ima? then 0 else 14)
  {
    var q, h := x / 16, x / 2;
    assert kind.Oki? ==> x - 16 * q == 2 * (h - 8 * q);
  }

  /** The code's distance overshoots the difference by no more than an eighth of a step. */
  lemma {:induction false} EncoderDistance(kind: Kind, d: nat, step: int)
    requires 7 <= step && (kind.Oki? ==> step % 16 == 0)
    ensures var move := Move(kind, step, Quarters(d, step));
            && move <= d + step / 8 <= d + Grace(kind, step) + (if kind.Ima? then 0 else 14)
            && (d < 2 * step ==> d <= move + step / 8 + (if kind.Ima? then 1 else 13))
  {
    hide Quarters, Masked;
    Distance(d, step);
    var c := Quarters(d, step);
    var u := step * (c * 2 + 1) / 8;
    assert c % 8 == c;
    EvenEighth(step);
    MaskLoss(kind, u);
    MaskLoss(kind, step / 8);
  }

  lemma EvenEighth(step: int)
    ensures step % 16 == 0 ==> step / 8 % 2 == 0
  {
    var m := step / 16;
    assert step % 16 == 0 ==> step / 8 == 2 * m;
  }

  /** Coding with the IMA steps never counts an error; with the OKI steps it does only within 14
      of the ends of the range. */
  lemma {:induction false} EncoderErrors(kind: Kind, st: State, sample: int)
    requires ValidState(kind, st) && IsInt16(sample)
    ensures kind.Ima? || MIN_SAMPLE + 14 <= sample <= MAX_SAMPLE - 14 ==> Encode(kind, st, sample).errors == st.errors
  {
    hide StepAt, Move, Grace, Quarters;
    var d, step := Abs(sample - st.lastOutput), StepAt(kind, st.stepIndex);
    EncoderDistance(kind, d, step);
    CodeParts(kind, st, sample);
  }

  lemma CodeParts(kind: Kind, st: State, sample: int)
    requires ValidState(kind, st)
    ensures var step := StepAt(kind, st.stepIndex);
            && Move(kind, step, CodeFor(kind, st, sample))
               == Move(kind, step, Quarters(Abs(sample - st.lastOutput), step))
            && (CodeFor(kind, st, sample) / 8 % 2 == 1 <==> sample < st.lastOutput)
  {
    hide StepAt, Masked, Quarters;
  }

  /** Room between the output and the end of the range on the sample's side. */
  function Headroom(st: State, sample: int): int
  {
    if sample < st.lastOutput then st.lastOutput - MIN_SAMPLE else MAX_SAMPLE - st.lastOutput
  }

  /** For either kind: an error is counted exactly when the chosen distance exceeds the room left on
      that side by more than the grace. */
  lemma {:induction false} EncoderErrorsExactly(kind: Kind, st: State, sample: int)
    requires ValidState(kind, st) && IsInt16(sample)
    ensures var step := StepAt(kind, st.stepIndex);
            Encode(kind, st, sample).errors == st.errors + 1
            <==> Move(kind, step, Quarters(Abs(sample - st.lastOutput), step))
                 > Headroom(st, sample) + Grace(kind, step)
  {
    hide StepAt, Move, Grace, Quarters;
    CodeParts(kind, st, sample);
  }

  /** Below two steps the output misses the sample by little more than an eighth of a step. */
  lemma {:induction false} EncoderBound(kind: Kind, st: State, sample: int)
    requires ValidState(kind, st) && IsInt16(sample) && Abs(sample - st.lastOutput) < 2 * StepAt(kind, st.stepIndex)
    ensures Abs(Encode(kind, st, sample).lastOutput - sample)
         <= StepAt(kind, st.stepIndex) / 8 + (if kind.Ima? then 1 else 13)
  {
    hide StepAt, Move, Grace, Quarters;
    EncoderDistance(kind, Abs(sample - st.lastOutput), StepAt(kind, st.stepIndex));
    CodeParts(kind, st, sample);
  }

  /** The code saturates from seven quarters of a step on. */
  lemma {:induction false} EncoderSaturates(kind: Kind, st: State, sample: int)
    requires ValidState(kind, st)
    ensures CodeFor(kind, st, sample) % 8 == 7 <==> 4 * Abs(sample - st.lastOutput) >= 7 * StepAt(kind, st.stepIndex)
  {
    hide StepAt, Quarters;
    SevenQuarters(Abs(sample - st.lastOutput), StepAt(kind, st.stepIndex));
  }

  lemma SevenQuarters(d: nat, step: int)
    requires step > 0
    ensures Quarters(d, step) == 7 <==> 4 * d >= 7 * step
  {
    hide Quarters;
    QuartersOf(d, step);
    SevenTimes(4 * d, step, 4 * d / step, 4 * d % step);
  }

  lemma SevenTimes(x: int, step: int, q: int, r: int)
    requires step > 0 && x == step * q + r && 0 <= r < step
    ensures q >= 7 <==> x >= 7 * step
  {
    MulLess(q, 7, step);
    MulLess(6, q, step);
  }

  /** Coding as long as `samples` lasts. */
  function EncodeAt(kind: Kind, st: State, samples: seq<int>, k: nat): (r: State)
    requires ValidState(kind, st) && k <= |samples|
    ensures ValidState(kind, r)
  {
    if k == 0 then st else Encode(kind, EncodeAt(kind, st, samples, k - 1), samples[k - 1])
  }

  function CodeAt(kind: Kind, st: State, samples: seq<int>, k: nat): (code: nat)
    requires ValidState(kind, st) && k < |samples|
    ensures code < 16
  {
    CodeFor(kind, EncodeAt(kind, st, samples, k), samples[k])
  }

  /** Nibble `k` of the packed codes, high nibble first. */
  function Nibble(codes: seq<Byte>, k: nat): (n: nat)
    requires k < 2 * |codes|
    ensures n < 16
  {
    if k % 2 == 0 then codes[k / 2] / 16 else codes[k / 2] % 16
  }

  function DecodeAt(kind: Kind, st: State, codes: seq<Byte>, k: nat): (r: State)
    requires ValidState(kind, st) && k <= 2 * |codes|
    ensures ValidState(kind, r)
  {
    if k == 0 then st else Decode(kind, DecodeAt(kind, st, codes, k - 1), Nibble(codes, k - 1))
  }

  /** The bytes hold the codes of the samples. */
  predicate Packs(kind: Kind, st: State, samples: seq<int>, codes: seq<Byte>)
    requires ValidState(kind, st)
  {
    2 * |codes| == |samples| && forall k :: 0 <= k < |samples| ==> Nibble(codes, k) == CodeAt(kind, st, samples, k)
  }

  /** A decoder fed the encoder's bytes passes through the encoder's own states. */
  lemma {:induction false} Lockstep(kind: Kind, st: State, samples: seq<int>, codes: seq<Byte>, k: nat)
    requires ValidState(kind, st) && Packs(kind, st, samples, codes) && k <= |samples|
    ensures DecodeAt(kind, st, codes, k) == EncodeAt(kind, st, samples, k)
  {
    hide Nibble, Decode, CodeFor;
    if k > 0 { Lockstep(kind, st, samples, codes, k - 1); }
  }

  /** No stream the IMA encoder makes counts an error; an OKI stream counts none while its samples
      keep clear of the ends of the range. */
  lemma {:induction false} StreamErrors(kind: Kind, st: State, samples: seq<int>, k: nat)
    requires ValidState(kind, st) && AllInt16(samples) && k <= |samples|
    requires kind.Ima? || forall i :: 0 <= i < |samples| ==> MIN_SAMPLE + 14 <= samples[i] <= MAX_SAMPLE - 14
    ensures EncodeAt(kind, st, samples, k).errors == st.errors
  {
    hide Encode;
    if k > 0 {
      StreamErrors(kind, st, samples, k - 1);
      EncoderErrors(kind, EncodeAt(kind, st, samples, k - 1), samples[k - 1]);
    }
  }

  /** Near the ends it can: seven samples into a stream the OKI encoder counts an error of its own. */
  lemma OkiCountsAnError()
    ensures EncodeAt(Oki, START, [384, 1200, 2928, 5640, 11208, 18112, 32760], 7).errors == 1
  {
    hide Encode;
    var s := [384, 1200, 2928, 5640, 11208, 18112, 32760];
    OkiStepsUp();
    OkiStepsOn();
    assert EncodeAt(Oki, START, s, 1) == State(416, 6, 0);
    assert EncodeAt(Oki, START, s, 2) == State(1248, 14, 0);
    assert EncodeAt(Oki, START, s, 3) == State(3040, 22, 0);
    assert EncodeAt(Oki, START, s, 4) == State(5888, 26, 0);
    assert EncodeAt(Oki, START, s, 5) == State(11584, 34, 0);
    assert EncodeAt(Oki, START, s, 6) == State(18928, 36, 0);
  }

  /** An upward step of the OKI encoder by known step and code. */
  lemma OkiUp(st: State, sample: int, step: int, c: nat)
    requires ValidState(Oki, st) && StepAt(Oki, st.stepIndex) == step && sample >= st.lastOutput
    requires Quarters(sample - st.lastOutput, step) == c
    ensures var s := st.lastOutput + step * (c * 2 + 1) / 8 / 16 * 16;
            Encode(Oki, st, sample)
            == State(Clamp16(s), NextIndex(Oki, st.stepIndex, c),
                     st.errors + if Astray(s, step / 8 / 16 * 16) then 1 else 0)
  {
    hide StepAt, Quarters, NextIndex;
    assert c % 8 == c && c / 8 == 0;
    CodeParts(Oki, st, sample);
    assert Abs(sample - st.lastOutput) == sample - st.lastOutput;
    assert CodeFor(Oki, st, sample) == c;
  }

  lemma OkiTable()
    ensures StepAt(Oki, 0) == 256 && StepAt(Oki, 6) == 448 && StepAt(Oki, 14) == 960 && StepAt(Oki, 22) == 2080
    ensures StepAt(Oki, 26) == 3040 && StepAt(Oki, 34) == 6528 && StepAt(Oki, 36) == 7904
  {
    assert OKI_STEPS[0] == 256 && OKI_STEPS[6] == 448 && OKI_STEPS[14] == 960 && OKI_STEPS[22] == 2080;
    assert OKI_STEPS[26] == 3040 && OKI_STEPS[34] == 6528 && OKI_STEPS[36] == 7904;
  }

  lemma OkiStepsUp()
    ensures Encode(Oki, START, 384) == State(416, 6, 0)
    ensures Encode(Oki, State(416, 6, 0), 1200) == State(1248, 14, 0)
    ensures Encode(Oki, State(1248, 14, 0), 2928) == State(3040, 22, 0)
    ensures Encode(Oki, State(3040, 22, 0), 5640) == State(5888, 26, 0)
  {
    hide StepAt, Encode;
    OkiTable();
    OkiUp(START, 384, 256, 6);
    OkiUp(State(416, 6, 0), 1200, 448, 7);
    OkiUp(State(1248, 14, 0), 2928, 960, 7);
    OkiUp(State(3040, 22, 0), 5640, 2080, 5);
  }

  lemma OkiStepsOn()
    ensures Encode(Oki, State(5888, 26, 0), 11208) == State(11584, 34, 0)
    ensures Encode(Oki, State(11584, 34, 0), 18112) == State(18928, 36, 0)
    ensures Encode(Oki, State(18928, 36, 0), 32760).errors == 1
  {
    hide StepAt, Encode;
    OkiTable();
    OkiUp(State(5888, 26, 0), 11208, 3040, 7);
    OkiUp(State(11584, 34, 0), 18112, 6528, 4);
    OkiUp(State(18928, 36, 0), 32760, 7904, 7);
  }

  /** The codes of the first four of these samples, two in a byte, the earlier one high; and a step
      that shortens again where the signal stays. */
  lemma OkiBytes()
    ensures Packs(Oki, START, [384, 1200, 2928, 5640], [0x67, 0x75])
    ensures Encode(Oki, State(416, 6, 0), 416) == State(464, 5, 0)
  {
    hide Encode, StepAt, CodeFor;
    var s := [384, 1200, 2928, 5640];
    OkiStepsUp();
    OkiCodes();
    assert EncodeAt(Oki, START, s, 1) == State(416, 6, 0);
    assert EncodeAt(Oki, START, s, 2) == State(1248, 14, 0);
    assert EncodeAt(Oki, START, s, 3) == State(3040, 22, 0);
    OkiTable();
    OkiUp(State(416, 6, 0), 416, 448, 0);
  }

  lemma OkiCodes()
    ensures CodeFor(Oki, START, 384) == 6 && CodeFor(Oki, State(416, 6, 0), 1200) == 7
    ensures CodeFor(Oki, State(1248, 14, 0), 2928) == 7 && CodeFor(Oki, State(3040, 22, 0), 5640) == 5
  {
    hide StepAt;
    OkiTable();
  }

  /** Silence is coded as silence with the IMA steps. With the OKI steps, whose smallest moves are
      multiples of 16, it swings between 32 and 0. */
  lemma {:induction false} Silence(kind: Kind, samples: seq<int>, k: nat)
    requires k <= |samples| && forall i :: 0 <= i < |samples| ==> samples[i] == 0
    ensures EncodeAt(kind, START, samples, k) == State(if kind.Oki? && k % 2 == 1 then 32 else 0, 0, 0)
    ensures k < |samples| ==> CodeAt(kind, START, samples, k) == if kind.Oki? && k % 2 == 1 then 8 else 0
  {
    hide Encode, CodeFor;
    SilentSteps(kind);
    if k > 0 { Silence(kind, samples, k - 1); }
  }

  lemma SilentSteps(kind: Kind)
    ensures CodeFor(kind, START, 0) == 0 && Encode(kind, START, 0) == State(if kind.Oki? then 32 else 0, 0, 0)
    ensures CodeFor(Oki, State(32, 0, 0), 0) == 8 && Encode(Oki, State(32, 0, 0), 0) == START
  {
    assert StepAt(Oki, 0) == 256 && StepAt(Ima, 0) == 7;
  }
}
