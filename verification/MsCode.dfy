/** Microsoft ADPCM: one step of each side, the block layout, and where the two sides agree. */
module MsCode {
  import opened Bits
  import opened Pcm

  const ADAPTATION: seq<int> := [230, 230, 230, 230, 307, 409, 512, 614, 768, 614, 512, 409, 307, 230, 230, 230]

  const ADAPT_COEFF1: seq<int> := [256, 512, 0, 192, 240, 460, 392]

  const ADAPT_COEFF2: seq<int> := [0, -256, 0, 64, 0, -208, -232]

  function Adaptation(code: int): (a: int)
    requires 0 <= code < 16
    ensures 230 <= a <= 768
  {
    ADAPTATION[code]
  }

  predicate ValidPredictor(p: int) { 0 <= p < 7 }

  /** What both sides carry per channel: the last two samples and the step. */
  datatype MsState = MsState(cur: int, prev: int, idelta: int)

  function Predict(p: int, cur: int, prev: int): int
    requires ValidPredictor(p)
  {
    (cur * ADAPT_COEFF1[p] + prev * ADAPT_COEFF2[p]) / 256
  }

  // ----- Encoder -----

  function ErrorDelta(p: int, st: MsState, s: int): (e: int)
    requires ValidPredictor(p) && st.idelta > 0
    ensures -8 <= e <= 7
  {
    var e := CDiv(s - Predict(p, st.cur, st.prev), st.idelta);
    if e < -8 then -8 else if e > 7 then 7 else e
  }

  /** The nibble of an error in -8..7. */
  function NibbleOf(e: int): (code: int)
    requires -8 <= e <= 7
    ensures 0 <= code < 16
  {
    if e < 0 then e + 16 else e
  }

  function AdaptedDelta(idelta: int, code: int): (d: int)
    requires 0 <= code < 16
    ensures d >= 16
  {
    var d := idelta * Adaptation(code) / 256;
    if d < 16 then 16 else d
  }

  /** The encoder's state after coding `s`: its own reconstruction and step, in full ints. */
  function EncoderNext(p: int, st: MsState, s: int): (r: MsState)
    requires ValidPredictor(p) && st.idelta > 0
    ensures IsInt16(r.cur) && r.idelta >= 16
  {
    var e := ErrorDelta(p, st, s);
    MsState(Clamp16(Predict(p, st.cur, st.prev) + st.idelta * e), st.cur, AdaptedDelta(st.idelta, NibbleOf(e)))
  }

  // ----- Decoder -----

  function SignedNibble(code: int): int { if code >= 8 then code - 16 else code }

  /** The decoder's state after a nibble: its step lives in a 16-bit variable. */
  function DecoderNext(p: int, st: MsState, code: int): (r: MsState)
    requires ValidPredictor(p) && 0 <= code < 16
    ensures IsInt16(r.cur) && 16 <= r.idelta <= 32767
  {
    var d := Int16(Adaptation(code) * st.idelta / 256);
    MsState(Clamp16(SignedNibble(code) * st.idelta + Predict(p, st.cur, st.prev)), st.cur, if d < 16 then 16 else d)
  }

  /** One step: both sides meet exactly as long as the encoder's new step fits 16 bits. */
  lemma {:induction false} StepLockstep(p: int, st: MsState, s: int)
    requires ValidPredictor(p) && st.idelta > 0
    ensures var code := NibbleOf(ErrorDelta(p, st, s));
            DecoderNext(p, st, code) == EncoderNext(p, st, s) <==> EncoderNext(p, st, s).idelta <= 32767
  {
    hide Predict, CDiv, Adaptation, Clamp16;
    var e := ErrorDelta(p, st, s);
    var code := NibbleOf(e);
    assert SignedNibble(code) == e;
    MulCommutes(e, st.idelta);
    MulCommutes(Adaptation(code), st.idelta);
    assert st.idelta * Adaptation(code) >= 0 by { MulNonNegative(st.idelta, Adaptation(code)); }
  }

  lemma MulCommutes(a: int, b: int)
    ensures a * b == b * a
  {
  }

  lemma MulNonNegative(a: int, b: int)
    requires a >= 0 && b >= 0
    ensures a * b >= 0
  {
  }

  // ----- Choosing the predictor -----

  /** Prediction error of predictor `b` at sample k; the code looks at channel 0 for every channel. */
  function Miss(s: seq<int>, ch: int, b: int, k: int): (m: int)
    requires (ch == 1 || ch == 2) && ValidPredictor(b) && 2 <= k < 5 && |s| >= 5 * ch
    ensures m >= 0
  {
    Abs(s[k * ch] - Predict(b, s[(k - 1) * ch], s[(k - 2) * ch]))
  }

  function Cost(s: seq<int>, ch: int, b: int): (c: int)
    requires (ch == 1 || ch == 2) && ValidPredictor(b) && |s| >= 5 * ch
    ensures c >= 0
  {
    (Miss(s, ch, b, 2) + Miss(s, ch, b, 3) + Miss(s, ch, b, 4)) / 12
  }

  /** The first of the predictors below `n` with the least cost. */
  function Cheapest(s: seq<int>, ch: int, n: int): (p: int)
    requires (ch == 1 || ch == 2) && 1 <= n <= 7 && |s| >= 5 * ch
    ensures 0 <= p < n
    decreases n
  {
    if n == 1 then 0
    else
      var m := Cheapest(s, ch, n - 1);
      if Cost(s, ch, n - 1) < Cost(s, ch, m) then n - 1 else m
  }

  lemma {:induction false} CheapestIsFirstLeast(s: seq<int>, ch: int, n: int)
    requires (ch == 1 || ch == 2) && 1 <= n <= 7 && |s| >= 5 * ch
    ensures var p := Cheapest(s, ch, n);
            && (forall q :: 0 <= q < n ==> Cost(s, ch, p) <= Cost(s, ch, q))
            && (forall q :: 0 <= q < p ==> Cost(s, ch, p) < Cost(s, ch, q))
    decreases n
  {
    hide Cost;
    if n > 1 { CheapestIsFirstLeast(s, ch, n - 1); }
  }

  function BestPredictor(s: seq<int>, ch: int): (p: int)
    requires (ch == 1 || ch == 2) && |s| >= 5 * ch
    ensures ValidPredictor(p)
  {
    Cheapest(s, ch, 7)
  }

  function BestDelta(s: seq<int>, ch: int): (d: int)
    requires (ch == 1 || ch == 2) && |s| >= 5 * ch
    ensures d >= 16
  {
    var c := Cost(s, ch, BestPredictor(s, ch));
    if c < 16 then 16 else c
  }

  /** Of two channels the choice looks at the left one, as it would look at that one alone. */
  predicate LeftOf(s: seq<int>, left: seq<int>)
  {
    |s| >= 10 && |left| >= 5 && forall i :: 0 <= i < 5 ==> left[i] == s[2 * i]
  }

  lemma {:induction false} StereoCost(s: seq<int>, left: seq<int>, b: int)
    requires LeftOf(s, left) && ValidPredictor(b)
    ensures Cost(s, 2, b) == Cost(left, 1, b)
  {
    hide Predict;
    assert left[0] == s[2 * 0] && left[1] == s[2 * 1] && left[2] == s[2 * 2];
    assert left[3] == s[2 * 3] && left[4] == s[2 * 4];
  }

  lemma {:induction false} StereoCheapest(s: seq<int>, left: seq<int>, n: int)
    requires LeftOf(s, left) && 1 <= n <= 7
    ensures Cheapest(s, 2, n) == Cheapest(left, 1, n)
    decreases n
  {
    hide Cost;
    if n > 1 {
      StereoCheapest(s, left, n - 1);
      StereoCost(s, left, n - 1);
      StereoCost(s, left, Cheapest(left, 1, n - 1));
    }
  }

  lemma {:induction false} StereoChoice(s: seq<int>, left: seq<int>)
    requires LeftOf(s, left)
    ensures BestPredictor(s, 2) == BestPredictor(left, 1) && BestDelta(s, 2) == BestDelta(left, 1)
  {
    hide Cost;
    StereoCheapest(s, left, 7);
    StereoCost(s, left, BestPredictor(left, 1));
  }

  /** The first predictor holds a level, the second one follows a line. */
  lemma PredictLine(x: int, d: int)
    ensures Predict(0, x, x + d) == x && Predict(1, x + d, x) == x + 2 * d
  {
    assert ADAPT_COEFF1[0] == 256 && ADAPT_COEFF2[0] == 0 && ADAPT_COEFF1[1] == 512 && ADAPT_COEFF2[1] == -256;
    DivUnique(x * 256, 256, x, 0);
    DivUnique((x + d) * 512 + x * -256, 256, x + 2 * d, 0);
  }

  /** So five samples on a line cost nothing, with predictor 0 if and only if they are level. */
  lemma {:induction false} LineChoice(s: seq<int>, ch: int, a: int, d: int)
    requires (ch == 1 || ch == 2) && |s| >= 5 * ch && forall i :: 0 <= i < 5 ==> s[i * ch] == a + i * d
    ensures BestDelta(s, ch) == 16 && Cost(s, ch, BestPredictor(s, ch)) == 0 && BestPredictor(s, ch) <= 1
    ensures -4 < d < 4 <==> BestPredictor(s, ch) == 0
  {
    hide Predict, Cost;
    LineCosts(s, ch, a, d);
    CheapestIsFirstLeast(s, ch, 7);
  }

  lemma {:induction false} LineCosts(s: seq<int>, ch: int, a: int, d: int)
    requires (ch == 1 || ch == 2) && |s| >= 5 * ch && forall i :: 0 <= i < 5 ==> s[i * ch] == a + i * d
    ensures Cost(s, ch, 0) == Abs(d) / 4 && Cost(s, ch, 1) == 0
  {
    hide Predict;
    assert s[0 * ch] == a && s[1 * ch] == a + d && s[2 * ch] == a + 2 * d;
    assert s[3 * ch] == a + 3 * d && s[4 * ch] == a + 4 * d;
    PredictLine(a + d, -d);
    PredictLine(a + 2 * d, -d);
    PredictLine(a + 3 * d, -d);
    PredictLine(a, d);
    PredictLine(a + d, d);
    PredictLine(a + 2 * d, d);
  }

  /** Two channels that differ: a line on the left, anything on the right. */
  const STEREO: seq<int> := [100, -1000, 200, 7, 300, -1000, 400, 7, 500, -1000]

  lemma {:induction false} StereoWitness()
    ensures Cost(STEREO, 2, 0) == 25 && Cost(STEREO, 2, 1) == 0 && Cost(STEREO, 2, 2) == 100
    ensures BestPredictor(STEREO, 2) == 1 && BestDelta(STEREO, 2) == 16
  {
    hide BestPredictor, BestDelta;
    assert STEREO[0] == 100 && STEREO[2] == 200 && STEREO[4] == 300 && STEREO[6] == 400 && STEREO[8] == 500;
    LineChoice(STEREO, 2, 100, 100);
  }

  /** A level is kept by the first predictor at the least step. */
  lemma LevelKept(x: int)
    requires IsInt16(x)
    ensures EncoderNext(0, MsState(x, x, 16), x) == MsState(x, x, 16)
  {
    hide Predict;
    PredictLine(x, 0);
  }

  /** The factors of the step: 0.9 for errors of up to 3 steps, then 1.2, 1.6, 2, 2.4 and 3, in
      parts of 256, the same for both signs but for -8, which has no counterpart. */
  lemma {:induction false} Factors(e: int)
    requires -8 <= e <= 7
    ensures var tenths := if Abs(e) <= 3 then 9 else if Abs(e) == 4 then 12 else if Abs(e) == 5 then 16
                          else if Abs(e) == 6 then 20 else if Abs(e) == 7 then 24 else 30;
            Adaptation(NibbleOf(e)) == 256 * tenths / 10
  {
  }

  lemma {:induction false} PredictRange(p: int, cur: int, prev: int)
    requires ValidPredictor(p) && IsInt16(cur) && IsInt16(prev)
    ensures -98303 <= Predict(p, cur, prev) <= 98302
  {
  }

  /** Predictors that stay within the range of the two samples they look at. */
  predicate Calm(p: int) { p == 0 || p == 2 || p == 3 || p == 4 }

  lemma CalmRange(p: int, cur: int, prev: int)
    requires Calm(p) && IsInt16(cur) && IsInt16(prev)
    ensures IsInt16(Predict(p, cur, prev))
  {
  }

  /** A step outgrows 16 bits only if the sample misses its prediction by more than 65535: a large
      factor takes a large error, and the error is that many steps. */
  lemma {:induction false} StepFits(p: int, st: MsState, s: int)
    requires ValidPredictor(p) && 0 < st.idelta <= 32767 && -65535 <= s - Predict(p, st.cur, st.prev) <= 65535
    ensures EncoderNext(p, st, s).idelta <= 32767
  {
    hide Predict, Clamp16;
    var d, e := s - Predict(p, st.cur, st.prev), ErrorDelta(p, st, s);
    ErrorSteps(d, st.idelta, e);
    FactorBound(st.idelta, e);
  }

  /** As many steps as the error says lie within the difference. */
  lemma ErrorSteps(d: int, step: int, e: int)
    requires step > 0 && -65535 <= d <= 65535
    requires var q := CDiv(d, step); e == if q < -8 then -8 else if q > 7 then 7 else q
    ensures -65535 <= e * step <= 65535
  {
    hide CDiv;
    var q := CDiv(d, step);
    QuotientSteps(d, step);
    if q < -8 { MulOrder(-8, 0, step); MulOrder(q, -8, step); }
    if q > 7 { MulOrder(0, 7, step); MulOrder(7, q, step); }
  }

  lemma QuotientSteps(d: int, step: int)
    requires step > 0
    ensures d >= 0 ==> 0 <= CDiv(d, step) * step <= d
    ensures d < 0 ==> d <= CDiv(d, step) * step <= 0
  {
    var a: int := Abs(d);
    var q, r := a / step, a % step;
    assert a == step * q + r;
    MulCommutes(q, step);
    MulNonNegative(q, step);
    NegatedFactor(q, step);
  }

  lemma NegatedFactor(q: int, step: int)
    ensures (-q) * step == -(q * step)
  {
  }

  lemma MulOrder(a: int, b: int, x: int)
    requires a <= b && x > 0
    ensures a * x <= b * x
  {
    MulNonNegative(b - a, x);
    assert (b - a) * x == b * x - a * x;
  }

  lemma FactorBound(step: int, e: int)
    requires 0 < step <= 32767 && -8 <= e <= 7 && -65535 <= e * step <= 65535
    ensures AdaptedDelta(step, NibbleOf(e)) <= 32767
  {
    assert e >= 4 ==> e == 4 || e == 5 || e == 6 || e == 7;
    assert e <= -4 ==> e == -4 || e == -5 || e == -6 || e == -7 || e == -8;
  }

  /** The step chosen for a block always fits the 16-bit header field. */
  lemma {:induction false} BestDeltaFits(s: seq<int>, ch: int)
    requires (ch == 1 || ch == 2) && |s| >= 5 * ch && AllInt16(s)
    ensures 16 <= BestDelta(s, ch) <= 32767
  {
    hide Miss, Cheapest;
    var p := BestPredictor(s, ch);
    MissBound(s, ch, p, 2);
    MissBound(s, ch, p, 3);
    MissBound(s, ch, p, 4);
  }

  lemma {:induction false} MissBound(s: seq<int>, ch: int, p: int, k: int)
    requires (ch == 1 || ch == 2) && |s| >= 5 * ch && AllInt16(s) && ValidPredictor(p) && 2 <= k < 5
    ensures Miss(s, ch, p, k) <= 131070
  {
    hide Predict;
    assert 0 <= k * ch < |s| && 0 <= (k - 1) * ch && 0 <= (k - 2) * ch;
    PredictRange(p, s[(k - 1) * ch], s[(k - 2) * ch]);
  }
}
