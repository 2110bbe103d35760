/** The IMA quantiser and the WAV block layout: what each nibble means, where it lies, and that
    the decoder's arithmetic reproduces the encoder's reconstruction. */
module ImaCode {
  import opened Bits
  import opened Pcm

  type Step = s: int | 7 <= s <= 32767 witness 7

  const STEP_SIZE: seq<Step> :=
    [7, 8, 9, 10, 11, 12, 13, 14, 16, 17, 19, 21, 23]
    + [25, 28, 31, 34, 37, 41, 45, 50, 55, 60, 66, 73, 80]
    + [88, 97, 107, 118, 130, 143, 157, 173, 190, 209, 230, 253, 279]
    + [307, 337, 371, 408, 449, 494, 544, 598, 658, 724, 796, 876, 963]
    + [1060, 1166, 1282, 1411, 1552, 1707, 1878, 2066, 2272, 2499, 2749, 3024, 3327]
    + [3660, 4026, 4428, 4871, 5358, 5894, 6484, 7132, 7845, 8630, 9493, 10442, 11487]
    + [12635, 13899, 15289, 16818, 18500, 20350, 22385, 24623, 27086, 29794, 32767]

  const INDEX_ADJUST: seq<int> := [-1, -1, -1, -1, 2, 4, 6, 8, -1, -1, -1, -1, 2, 4, 6, 8]

  const LAST_INDEX := 88

  predicate ValidIndex(i: int) { 0 <= i <= LAST_INDEX }

  function StepSize(i: int): Step
    requires ValidIndex(i)
  {
    STEP_SIZE[i]
  }

  function IndexAdjust(code: int): int
    requires 0 <= code < 16
  {
    INDEX_ADJUST[code]
  }

  function ClampIndex(i: int): (r: int)
    ensures ValidIndex(r)
  {
    if i < 0 then 0 else if i > LAST_INDEX then LAST_INDEX else i
  }

  /** The nearest valid index. */
  lemma ClampNearest(i: int, j: int)
    requires ValidIndex(j)
    ensures Abs(i - ClampIndex(i)) <= Abs(i - j)
  {
  }

  /** Codes below 4 shorten the step by one entry of the table, the others lengthen it by two for
      each quarter of a step; the sign does not matter. */
  lemma IndexMoves(code: int)
    requires 0 <= code < 16
    ensures IndexAdjust(code) == if code % 8 < 4 then -1 else 2 * (code % 8 - 3)
  {
  }

  /** Each entry of the table is a tenth larger than the one before, to within 0.8; the last one is
      the largest 16-bit number. */
  lemma {:induction false} StepsGrow(i: int)
    requires 0 <= i < LAST_INDEX
    ensures StepSize(0) == 7 && StepSize(LAST_INDEX) == 32767 && StepSize(i) < StepSize(i + 1)
    ensures i < LAST_INDEX - 1 ==> -8 <= 10 * StepSize(i + 1) - 11 * StepSize(i) <= 8
  {
    hide StepSize, STEP_SIZE;
    Ends();
    if i < 22 { GrowTo22(i); } else if i < 44 { GrowTo44(i); } else if i < 66 { GrowTo66(i); } else { GrowTo88(i); }
  }

  lemma Ends()
    ensures StepSize(0) == 7 && StepSize(LAST_INDEX) == 32767
  {
  }

  predicate Grown(step: int, next: int, last: bool)
  {
    step < next && (last || -8 <= 10 * next - 11 * step <= 8)
  }

  lemma GrowTo22(i: int)
    requires 0 <= i < 22
    ensures Grown(StepSize(i), StepSize(i + 1), false)
  {
  }

  lemma GrowTo44(i: int)
    requires 22 <= i < 44
    ensures Grown(StepSize(i), StepSize(i + 1), false)
  {
  }

  lemma GrowTo66(i: int)
    requires 44 <= i < 66
    ensures Grown(StepSize(i), StepSize(i + 1), false)
  {
  }

  lemma GrowTo88(i: int)
    requires 66 <= i < 88
    ensures Grown(StepSize(i), StepSize(i + 1), i == 87)
  {
  }

  /** What both sides carry per channel. */
  datatype Predictor = Predictor(sample: int, index: int)

  predicate ValidPredictor(p: Predictor) { IsInt16(p.sample) && ValidIndex(p.index) }

  // ----- Decoder: shift and add -----

  function DecodedDiff(step: int, code: int): int
    requires 0 <= code < 16
  {
    var d := step / 8
           + (if code % 2 == 1 then step / 4 else 0)
           + (if code / 2 % 2 == 1 then step / 2 else 0)
           + (if code / 4 % 2 == 1 then step else 0);
    if code >= 8 then -d else d
  }

  function Advance(p: Predictor, code: int): (r: Predictor)
    requires ValidPredictor(p) && 0 <= code < 16
    ensures ValidPredictor(r)
  {
    Predictor(Clamp16(p.sample + DecodedDiff(StepSize(p.index), code)), ClampIndex(p.index + IndexAdjust(code)))
  }

  // ----- Encoder: greedy search over the masks 4, 2, 1 -----

  /** Bits chosen and amount covered. */
  datatype Search = Search(code: int, covered: int)

  function Greedy(diff: int, step: int, mask: nat): Search
    decreases mask, step
  {
    if mask == 0 then Search(0, 0)
    else if diff >= step then
      var s := Greedy(diff - step, step / 2, mask / 2);
      Search(mask + s.code, step + s.covered)
    else Greedy(diff, step / 2, mask / 2)
  }

  lemma GreedyUnfold(diff: int, step: int, mask: nat)
    ensures mask == 0 ==> Greedy(diff, step, mask) == Search(0, 0)
    ensures mask > 0 && diff < step ==> Greedy(diff, step, mask) == Greedy(diff, step / 2, mask / 2)
    ensures mask > 0 && diff >= step ==>
              var s := Greedy(diff - step, step / 2, mask / 2);
              Greedy(diff, step, mask) == Search(mask + s.code, step + s.covered)
  {
  }

  function SearchFor(p: Predictor, s: int): Search
    requires ValidIndex(p.index)
  {
    Greedy(Abs(s - p.sample), StepSize(p.index), 4)
  }

  lemma GreedyCode(diff: int, step: int)
    ensures 0 <= Greedy(diff, step, 4).code < 8
    ensures var g := Greedy(diff, step, 4);
            g.covered == (if g.code % 2 == 1 then step / 4 else 0)
                       + (if g.code / 2 % 2 == 1 then step / 2 else 0)
                       + (if g.code / 4 % 2 == 1 then step else 0)
  {
    hide Greedy;
    GreedySteps(diff, step);
  }

  /** The search written out: three comparisons against step, half and quarter. */
  lemma GreedySteps(diff: int, step: int)
    ensures var d1 := if diff >= step then diff - step else diff;
            var d2 := if d1 >= step / 2 then d1 - step / 2 else d1;
            Greedy(diff, step, 4) == Search(
              (if diff >= step then 4 else 0) + (if d1 >= step / 2 then 2 else 0) + (if d2 >= step / 4 then 1 else 0),
              (if diff >= step then step else 0) + (if d1 >= step / 2 then step / 2 else 0)
              + (if d2 >= step / 4 then step / 4 else 0))
  {
    hide Greedy;
    var half, quarter := step / 2, step / 4;
    assert half / 2 == quarter;
    var d1 := if diff >= step then diff - step else diff;
    var d2 := if d1 >= half then d1 - half else d1;
    var d3 := if d2 >= quarter then d2 - quarter else d2;
    GreedyUnfold(d3, quarter / 2, 0);
    GreedyUnfold(d2, quarter, 1);
    GreedyUnfold(d1, half, 2);
    GreedyUnfold(diff, step, 4);
  }

  /** The nibble the encoder chooses. */
  function CodeFor(p: Predictor, s: int): (code: int)
    requires ValidPredictor(p)
    ensures 0 <= code < 16
  {
    hide Greedy;
    GreedyCode(Abs(s - p.sample), StepSize(p.index));
    (if s < p.sample then 8 else 0) + SearchFor(p, s).code
  }

  /** The encoder's own reconstruction. */
  function Reconstruct(p: Predictor, s: int): Predictor
    requires ValidPredictor(p)
  {
    var vpdiff := StepSize(p.index) / 8 + SearchFor(p, s).covered;
    Predictor(Clamp16(if s < p.sample then p.sample - vpdiff else p.sample + vpdiff),
              ClampIndex(p.index + IndexAdjust(CodeFor(p, s))))
  }

  /** Greedy search and shift-add meet in the same value. */
  lemma {:induction false} QuantiserLockstep(p: Predictor, s: int)
    requires ValidPredictor(p)
    ensures Advance(p, CodeFor(p, s)) == Reconstruct(p, s)
  {
    hide Greedy, StepSize, IndexAdjust, Clamp16, ClampIndex;
    GreedyCode(Abs(s - p.sample), StepSize(p.index));
  }

  /** At the least step, a sample like the one before is reconstructed without error and the step
      stays the least. */
  lemma {:induction false} LevelKept(x: int)
    requires IsInt16(x)
    ensures CodeFor(Predictor(x, 0), x) == 0 && Reconstruct(Predictor(x, 0), x) == Predictor(x, 0)
  {
    hide Greedy;
    GreedySteps(0, StepSize(0));
  }

  /** Below two steps the reconstruction misses by at most an eighth of a step and two. */
  lemma {:induction false} QuantiserBound(p: Predictor, s: int)
    requires ValidPredictor(p) && IsInt16(s) && Abs(s - p.sample) < 2 * StepSize(p.index)
    ensures Abs(Reconstruct(p, s).sample - s) <= StepSize(p.index) / 8 + 2
  {
    hide Greedy, StepSize;
    GreedyResidue(Abs(s - p.sample), StepSize(p.index));
  }

  lemma {:induction false} GreedyResidue(diff: int, step: int)
    requires 0 <= diff < 2 * step
    ensures 0 <= diff - Greedy(diff, step, 4).covered <= step / 4 + 1
  {
    hide Greedy;
    GreedySteps(diff, step);
  }

  /** Differences past the reach of the nibble saturate it. */
  lemma {:induction false} QuantiserSaturates(p: Predictor, s: int)
    requires ValidPredictor(p)
    ensures var step := StepSize(p.index);
            CodeFor(p, s) % 8 == 7 <==> Abs(s - p.sample) >= step + step / 2 + step / 4
  {
    hide Greedy, StepSize;
    GreedySteps(Abs(s - p.sample), StepSize(p.index));
  }
}
