/** The DWVW code as a relation between samples and bit strings: what the encoder writes
    for one sample, what the decoder takes from a bit source, and that the second undoes
    the first. */
module DwvwCode {
  import opened Bits

  /** Word widths for which the half-width modifier code is meaningful; 24 is the cap of dwvw_init. */
  predicate ValidWidth(w: int) { 2 <= w <= 24 }

  function MaxDelta(w: nat): int requires w >= 1 { Pow2(w - 1) }

  function Span(w: nat): int { Pow2(w) }

  function DwmMax(w: nat): (d: int) ensures d >= 0 { w / 2 }

  /** The two values both sides carry from sample to sample. */
  datatype Coder = Coder(sample: int, width: int)

  const START := Coder(0, 0)

  predicate InRange(w: nat, s: int) requires w >= 1 { -MaxDelta(w) <= s < MaxDelta(w) }

  predicate ValidCoder(w: nat, c: Coder)
    requires w >= 1
  {
    InRange(w, c.sample) && 0 <= c.width < w
  }

  // ----- Encoding -----

  /** `extra` is -1 when no extra bit is sent. */
  datatype Delta = Delta(magnitude: int, negative: bool, extra: int)

  /** Fold a difference into magnitude, sign and extra bit. */
  function FoldDelta(w: nat, delta: int): Delta
    requires w >= 1
  {
    var m := MaxDelta(w);
    var d :=
      if delta < -m then Delta(m + CRem(delta, m), false, -1)
      else if delta == -m then Delta(m - 1, true, 1)
      else if delta > m then Delta(Abs(Span(w) - delta), true, -1)
      else if delta == m then Delta(m - 1, false, 1)
      else if delta < 0 then Delta(Abs(delta), true, -1)
      else Delta(delta, false, -1);
    if d.magnitude == m - 1 && d.extra == -1 then d.(extra := 0) else d
  }

  function Modifier(w: nat, width: int, last: int): int
    requires w >= 1
  {
    var m := CRem(width - last, w);
    var m1 := if m > DwmMax(w) then m - w else m;
    if m1 < -DwmMax(w) then m1 + w else m1
  }

  function StopBits(w: nat, m: int): seq<Bit> { if Abs(m) != DwmMax(w) then [true] else [] }

  function SignBits(m: int): seq<Bit> { if m < 0 then [true] else if m > 0 then [false] else [] }

  function ModifierBits(w: nat, m: int): seq<Bit>
  {
    Zeros(Abs(m)) + StopBits(w, m) + SignBits(m)
  }

  function DeltaBits(width: nat, d: Delta): seq<Bit>
  {
    (if width != 0 then ToBits(d.magnitude, width - 1) + [d.negative] else [])
    + (if d.extra >= 0 then [d.extra == 1] else [])
  }

  function Next(w: nat, c: Coder, s: int): Coder
    requires w >= 1
  {
    Coder(s, BitLength(Abs(FoldDelta(w, s - c.sample).magnitude)))
  }

  /** The codeword of sample `s`, `w` bits wide, after state `c`. */
  function Codeword(w: nat, c: Coder, s: int): seq<Bit>
    requires w >= 1
  {
    var width := Next(w, c, s).width;
    ModifierBits(w, Modifier(w, width, c.width)) + DeltaBits(width, FoldDelta(w, s - c.sample))
  }

  lemma NextSample(w: nat, c: Coder, s: int)
    requires w >= 1
    ensures Next(w, c, s).sample == s
  {
  }

  function Encode(w: nat, c: Coder, ss: seq<int>): seq<Bit>
    requires w >= 1
    decreases |ss|
  {
    if ss == [] then [] else Codeword(w, c, ss[0]) + Encode(w, Next(w, c, ss[0]), ss[1..])
  }

  function EncodeState(w: nat, c: Coder, ss: seq<int>): Coder
    requires w >= 1
    decreases |ss|
  {
    if ss == [] then c else EncodeState(w, Next(w, c, ss[0]), ss[1..])
  }

  predicate AllInRange(w: nat, ss: seq<int>)
    requires w >= 1
  {
    forall i :: 0 <= i < |ss| ==> InRange(w, ss[i])
  }

  // ----- Decoding -----

  /** Fresh: nothing was read yet. Streaming: every read found data. Dry: a read met the end. */
  datatype Phase = Fresh | Streaming | Dry

  /** Bits the decoder can still reach (reservoir, buffer and file), and how reading went so far. */
  datatype Source = Source(avail: seq<Bit>, phase: Phase)

  /** Bits of zero padding that bring `have` to at least `n` in whole bytes. */
  function Padding(have: nat, n: nat): nat
    requires have < n
  {
    (n - have + 7) / 8 * 8
  }

  /** Make `n` bits available. Requests of 8 bits or more are padded with zeros at the end of
      input, shorter ones are not. */
  function Fill(src: Source, n: nat): Source
  {
    if n == 0 then src
    else if |src.avail| >= n then src.(phase := if src.phase.Dry? then Dry else Streaming)
    else Source(src.avail + (if n < 8 then [] else Zeros(Padding(|src.avail|, n))), Dry)
  }

  /** A loaded value, -1 when the input ended, and the source after it. */
  datatype Loaded = Loaded(value: int, left: Source)

  function Load(src: Source, n: nat): Loaded
  {
    var f := Fill(src, n);
    if |f.avail| < n then Loaded(-1, f) else Loaded(FromBits(f.avail[..n]), f.(avail := f.avail[n..]))
  }

  function LeadingZeros(bs: seq<Bit>, max: nat): (z: nat)
    requires max <= |bs|
    ensures z <= max
  {
    if max == 0 || bs[0] then 0 else 1 + LeadingZeros(bs[1..], max - 1)
  }

  /** What follows the zeros and the one that closes them below the limit. */
  function AfterZeros(bs: seq<Bit>, max: nat): seq<Bit>
    requires max <= |bs|
  {
    var z := LeadingZeros(bs, max);
    bs[if z < max then z + 1 else z..]
  }

  lemma ZerosStep(bs: seq<Bit>, max: nat)
    requires 0 < max <= |bs|
    ensures LeadingZeros(bs, max) == if bs[0] then 0 else 1 + LeadingZeros(bs[1..], max - 1)
    ensures AfterZeros(bs, max) == if bs[0] then bs[1..] else AfterZeros(bs[1..], max - 1)
  {
  }

  lemma ZerosDone(bs: seq<Bit>)
    ensures LeadingZeros(bs, 0) == 0 && AfterZeros(bs, 0) == bs
  {
  }

  /** Count zeros up to the limit and drop the closing one if there is one. */
  function LoadModifier(w: nat, src: Source): Loaded
  {
    var f := Fill(src, DwmMax(w));
    if |f.avail| < DwmMax(w) then Loaded(-1, f)
    else
      Loaded(LeadingZeros(f.avail, DwmMax(w)), f.(avail := AfterZeros(f.avail, DwmMax(w))))
  }

  /** `x | (1 << k)` for a field of k bits or the -1 of a failed load. */
  function OrTopBit(x: int, k: nat): int { if x < 0 then x else x + Pow2(k) }

  function DecodeDelta(w: nat, width: nat, src: Source): Loaded
    requires w >= 1
  {
    if width == 0 then Loaded(0, src)
    else
      var Loaded(low, s1) := Load(src, width - 1);
      var mag := OrTopBit(low, width - 1);
      var Loaded(neg, s2) := Load(s1, 1);
      var Loaded(extra, s3) := if mag == MaxDelta(w) - 1 then Load(s2, 1) else Loaded(0, s2);
      Loaded(if neg != 0 then -(mag + extra) else mag + extra, s3)
  }

  function WrapSample(w: nat, s: int): int
    requires w >= 1
  {
    if s >= MaxDelta(w) then s - Span(w) else if s < -MaxDelta(w) then s + Span(w) else s
  }

  datatype Outcome = Stop(left: Source) | Got(coder: Coder, left: Source)

  /** One turn of the decode loop; `first` is true for the first sample of a call. */
  function DecodeStep(w: nat, c: Coder, src: Source, first: bool): Outcome
    requires w >= 1
  {
    var Loaded(z, s1) := LoadModifier(w, src);
    if z < 0 || (first && !s1.phase.Streaming?) then Stop(s1)
    else AfterModifier(w, c, z, s1)
  }

  /** The turn after its modifier was counted: sign, width, delta, sample. */
  function AfterModifier(w: nat, c: Coder, z: int, s1: Source): Outcome
    requires w >= 1
  {
    var Loaded(sign, s2) := if z != 0 then Load(s1, 1) else Loaded(0, s1);
    var width := CRem(c.width + (if sign != 0 then -z else z) + w, w);
    var Loaded(delta, s3) := DecodeDelta(w, Abs(width), s2);
    Got(Coder(WrapSample(w, c.sample + delta), width), s3)
  }

  /** Result of one decode call: the samples it counts, and the state it leaves. */
  datatype Decoded = Decoded(samples: seq<int>, coder: Coder, left: Source)

  function DecodeFrom(w: nat, c: Coder, src: Source, n: nat, first: bool): Decoded
    requires w >= 1
    decreases n, 1
  {
    if n == 0 then Decoded([], c, src) else Continue(w, c, DecodeStep(w, c, src, first), n)
  }

  /** Count the sample of one turn, unless the turn ended the call, and go on. */
  function Continue(w: nat, c: Coder, turn: Outcome, n: nat): Decoded
    requires w >= 1 && n >= 1
    decreases n, 0
  {
    match turn
    case Stop(left) => Decoded([], c, left)
    case Got(c', left) =>
      if !left.phase.Streaming? && left.avail == [] then Decoded([], c', left)
      else
        var d := DecodeFrom(w, c', left, n - 1, false);
        d.(samples := [c'.sample] + d.samples)
  }

  function Decode(w: nat, c: Coder, src: Source, n: nat): Decoded
    requires w >= 1
  {
    DecodeFrom(w, c, src, n, true)
  }

  lemma DecodeNone(w: nat, c: Coder, src: Source, first: bool)
    requires w >= 1
    ensures DecodeFrom(w, c, src, 0, first) == Decoded([], c, src)
  {
  }

  lemma DecodeUnfold(w: nat, c: Coder, src: Source, n: nat, first: bool)
    requires w >= 1 && n >= 1
    ensures DecodeFrom(w, c, src, n, first) == Continue(w, c, DecodeStep(w, c, src, first), n)
  {
  }

  lemma ContinueUnfold(w: nat, c: Coder, turn: Outcome, n: nat)
    requires w >= 1 && n >= 1
    ensures turn.Stop? ==> Continue(w, c, turn, n) == Decoded([], c, turn.left)
    ensures turn.Got? && !turn.left.phase.Streaming? && turn.left.avail == []
        ==> Continue(w, c, turn, n) == Decoded([], turn.coder, turn.left)
    ensures turn.Got? && (turn.left.phase.Streaming? || turn.left.avail != [])
        ==> var d := DecodeFrom(w, turn.coder, turn.left, n - 1, false);
            Continue(w, c, turn, n) == d.(samples := [turn.coder.sample] + d.samples)
  {
  }

  // ----- Decoding undoes encoding -----

  /** The signed difference that a folded delta stands for on the decoder's side. */
  function Unfold(w: nat, d: Delta): int
    requires w >= 1
  {
    var v := d.magnitude + (if d.extra == 1 then 1 else 0);
    if d.negative then -v else v
  }

  predicate WellFolded(w: nat, d: Delta)
    requires w >= 1
  {
    0 <= d.magnitude < MaxDelta(w) && -1 <= d.extra <= 1
    && (d.extra >= 0 <==> d.magnitude == MaxDelta(w) - 1)
    && (d.magnitude == 0 ==> !d.negative)
  }

  /** Folding loses nothing: the decoder's wrap finds the sample again. */
  lemma {:induction false} FoldUnfold(w: nat, last: int, s: int)
    requires ValidWidth(w) && InRange(w, last) && InRange(w, s)
    ensures var d := FoldDelta(w, s - last);
            WellFolded(w, d) && WrapSample(w, last + Unfold(w, d)) == s
  {
    var m := MaxDelta(w);
    var delta := s - last;
    assert Span(w) == 2 * m;
    if delta < -m {
      assert (-delta) % m == -delta - m by { DivUnique(-delta, m, 1, -delta - m); }
    }
  }

  lemma {:induction false} NextValid(w: nat, c: Coder, s: int)
    requires ValidWidth(w) && ValidCoder(w, c) && InRange(w, s)
    ensures ValidCoder(w, Next(w, c, s))
  {
    FoldUnfold(w, c.sample, s);
    BitLengthBound(FoldDelta(w, s - c.sample).magnitude, w - 1);
  }

  /** The modifier stays within half the word width and is undone modulo the width. */
  lemma {:induction false} ModifierUndone(w: nat, width: int, last: int)
    requires ValidWidth(w) && 0 <= width < w && 0 <= last < w
    ensures var m := Modifier(w, width, last);
            Abs(m) <= DwmMax(w) && CRem(last + m + w, w) == width
            && (m == 0 <==> width == last)
  {
    var d := width - last;
    assert CRem(d, w) == d by { DivUnique(Abs(d), w, 0, Abs(d)); }
    var m := Modifier(w, width, last);
    assert m == d || m == d - w || m == d + w;
    if m == d { DivUnique(last + m + w, w, 1, width); }
    else if m == d - w { DivUnique(last + m + w, w, 0, width); }
    else { DivUnique(last + m + w, w, 2, width); }
  }

  lemma {:induction false} LeadingZerosOf(n: nat, max: nat, rest: seq<Bit>)
    requires n <= max <= n + |rest|
    requires n < max ==> rest[0]
    ensures LeadingZeros(Zeros(n) + rest, max) == n
    decreases n
  {
    var bs := Zeros(n) + rest;
    if n > 0 {
      assert bs[1..] == Zeros(n - 1) + rest;
      LeadingZerosOf(n - 1, max - 1, rest);
    }
  }

  /** What the padding of the first load leaves of a source. */
  function PaddingFor(w: nat, src: Source): seq<Bit>
  {
    if |src.avail| >= DwmMax(w) || DwmMax(w) < 8 then [] else Zeros(Padding(|src.avail|, DwmMax(w)))
  }

  function PhaseAfter(w: nat, src: Source): Phase
  {
    if src.phase.Dry? || |src.avail| < DwmMax(w) then Dry else Streaming
  }

  lemma {:induction false} ZerosScanned(w: nat, m: int, f: Source, tail: seq<Bit>)
    requires ValidWidth(w) && Abs(m) <= DwmMax(w)
    requires f.avail == Zeros(Abs(m)) + (StopBits(w, m) + tail)
    requires DwmMax(w) <= |f.avail|
    ensures LeadingZeros(f.avail, DwmMax(w)) == Abs(m) && AfterZeros(f.avail, DwmMax(w)) == tail
  {
    LeadingZerosOf(Abs(m), DwmMax(w), StopBits(w, m) + tail);
    assert f.avail[Abs(m)..] == StopBits(w, m) + tail;
  }

  lemma {:induction false} ModifierLoaded(w: nat, m: int, src: Source, rest: seq<Bit>)
    requires ValidWidth(w) && Abs(m) <= DwmMax(w)
    requires src.avail == ModifierBits(w, m) + rest
    requires |src.avail| >= DwmMax(w) || DwmMax(w) >= 8
    ensures LoadModifier(w, src)
         == Loaded(Abs(m), Source(SignBits(m) + (rest + PaddingFor(w, src)), PhaseAfter(w, src)))
  {
    var pad := PaddingFor(w, src);
    var f := Source(src.avail + pad, PhaseAfter(w, src));
    assert Fill(src, DwmMax(w)) == f;
    var tail := SignBits(m) + (rest + pad);
    assert f.avail == Zeros(Abs(m)) + (StopBits(w, m) + tail);
    ZerosScanned(w, m, f, tail);
  }

  /** A field of the codeword is loaded back. */
  lemma {:induction false} FieldLoaded(src: Source, field: seq<Bit>, rest: seq<Bit>)
    requires src.avail == field + rest && !src.phase.Fresh?
    ensures Load(src, |field|) == Loaded(FromBits(field), src.(avail := rest))
  {
    assert src.avail[..|field|] == field && src.avail[|field|..] == rest;
  }

  lemma {:induction false} BitLoaded(src: Source, b: Bit, rest: seq<Bit>)
    requires src.avail == [b] + rest && !src.phase.Fresh?
    ensures Load(src, 1) == Loaded(if b then 1 else 0, src.(avail := rest))
  {
    FieldLoaded(src, [b], rest);
    assert FromBits([b]) == (if b then 1 else 0) by { assert [b][..0] == []; assert FromBits([]) == 0; }
  }

  lemma {:induction false} MagnitudeField(mag: nat)
    requires mag > 0
    ensures var k := BitLength(mag) - 1; k >= 0 && OrTopBit(FromBits(ToBits(mag, k)), k) == mag
  {
    BitLengthRange(mag);
    var k := BitLength(mag) - 1;
    FromToBits(mag, k);
    DivUnique(mag, Pow2(k), 1, mag - Pow2(k));
  }

  lemma BitLengthZero(x: nat)
    ensures BitLength(x) == 0 <==> x == 0
  {
  }

  lemma MaxDeltaSize(w: nat)
    requires w >= 2
    ensures MaxDelta(w) >= 2 && Span(w) == 2 * MaxDelta(w)
  {
  }

  lemma {:induction false} DeltaLoaded(w: nat, d: Delta, src: Source, rest: seq<Bit>)
    requires ValidWidth(w) && WellFolded(w, d)
    requires !src.phase.Fresh? && src.avail == DeltaBits(BitLength(d.magnitude), d) + rest
    ensures DecodeDelta(w, BitLength(d.magnitude), src) == Loaded(Unfold(w, d), src.(avail := rest))
  {
    hide Load, ToBits, FromBits, Pow2, BitLength;
    BitLengthZero(d.magnitude);
    var width := BitLength(d.magnitude);
    if width == 0 {
      MaxDeltaSize(w);
      assert d.extra == -1 && DeltaBits(width, d) == [];
      assert src.avail == rest;
    } else {
      var field := ToBits(d.magnitude, width - 1);
      var sign := d.negative;
      var extra: seq<Bit> := if d.extra >= 0 then [d.extra == 1] else [];
      assert src.avail == field + ([sign] + (extra + rest));
      FieldLoaded(src, field, [sign] + (extra + rest));
      MagnitudeField(d.magnitude);
      var s1 := src.(avail := [sign] + (extra + rest));
      BitLoaded(s1, sign, extra + rest);
      var s2 := src.(avail := extra + rest);
      if d.extra >= 0 { BitLoaded(s2, d.extra == 1, rest); } else { assert extra + rest == rest; }
    }
  }

  lemma {:induction false} SignLoaded(m: int, s2: Source)
    requires !s2.phase.Fresh?
    ensures var s1 := s2.(avail := SignBits(m) + s2.avail);
            (if m != 0 then Load(s1, 1) else Loaded(0, s1)) == Loaded(if m < 0 then 1 else 0, s2)
  {
    var s1 := s2.(avail := SignBits(m) + s2.avail);
    if m == 0 {
      assert s1.avail == s2.avail;
    } else {
      BitLoaded(s1, m < 0, s2.avail);
    }
  }

  /** The decoder's arithmetic on the fields of a codeword. */
  lemma {:induction false} FieldsUndone(w: nat, c: Coder, s: int)
    requires ValidWidth(w) && ValidCoder(w, c) && InRange(w, s)
    ensures var d := FoldDelta(w, s - c.sample);
            var width := BitLength(Abs(d.magnitude));
            var m := Modifier(w, width, c.width);
            0 <= d.magnitude < MaxDelta(w) && width == BitLength(d.magnitude)
            && Next(w, c, s) == Coder(s, width)
            && Abs(m) <= DwmMax(w) && CRem(c.width + m + w, w) == width
            && WrapSample(w, c.sample + Unfold(w, d)) == s
  {
    hide FoldDelta, Modifier, CRem, WrapSample;
    FoldUnfold(w, c.sample, s);
    NextValid(w, c, s);
    ModifierUndone(w, Next(w, c, s).width, c.width);
  }

  lemma {:induction false} FieldsDecoded(w: nat, c: Coder, m: int, d: Delta, phase: Phase, tail: seq<Bit>)
    requires ValidWidth(w) && WellFolded(w, d) && !phase.Fresh?
    requires CRem(c.width + m + w, w) == BitLength(d.magnitude)
    ensures AfterModifier(w, c, Abs(m), Source(SignBits(m) + (DeltaBits(BitLength(d.magnitude), d) + tail), phase))
         == Got(Coder(WrapSample(w, c.sample + Unfold(w, d)), BitLength(d.magnitude)), Source(tail, phase))
  {
    hide Load, DecodeDelta, DeltaBits, WrapSample, MaxDelta, CRem, BitLength;
    var s2 := Source(DeltaBits(BitLength(d.magnitude), d) + tail, phase);
    SignLoaded(m, s2);
    DeltaLoaded(w, d, s2, tail);
  }

  /** One codeword at the head of any source is decoded to its sample; what follows stays. */
  lemma {:induction false} CodewordDecoded(w: nat, c: Coder, s: int, src: Source, rest: seq<Bit>)
    requires ValidWidth(w) && ValidCoder(w, c) && InRange(w, s)
    requires src.avail == Codeword(w, c, s) + rest
    requires |src.avail| >= DwmMax(w) || DwmMax(w) >= 8
    ensures DecodeStep(w, c, src, false)
         == Got(Next(w, c, s), Source(rest + PaddingFor(w, src), PhaseAfter(w, src)))
    ensures DecodeStep(w, c, src, true)
         == if PhaseAfter(w, src).Streaming? then DecodeStep(w, c, src, false)
            else Stop(LoadModifier(w, src).left)
  {
    hide FoldDelta, Modifier, ModifierBits, DeltaBits, CRem, WrapSample, MaxDelta, AfterModifier, LoadModifier;
    FieldsUndone(w, c, s);
    var width := Next(w, c, s).width;
    var m := Modifier(w, width, c.width);
    var dbits := DeltaBits(width, FoldDelta(w, s - c.sample));
    var pad := PaddingFor(w, src);
    assert src.avail == ModifierBits(w, m) + (dbits + rest);
    ModifierLoaded(w, m, src, dbits + rest);
    assert (dbits + rest) + pad == dbits + (rest + pad);
    FoldUnfold(w, c.sample, s);
    FieldsDecoded(w, c, m, FoldDelta(w, s - c.sample), PhaseAfter(w, src), rest + pad);
  }

  // ----- Any input -----

  lemma {:induction false} LoadRange(src: Source, n: nat)
    ensures -1 <= Load(src, n).value < Pow2(n)
  {
    var f := Fill(src, n);
    if |f.avail| >= n { ToFromBits(f.avail[..n]); }
  }

  lemma {:induction false} DeltaRange(w: nat, width: nat, src: Source)
    requires ValidWidth(w) && width < w
    ensures -MaxDelta(w) <= DecodeDelta(w, width, src).value <= MaxDelta(w)
  {
    if width > 0 {
      LoadRange(src, width - 1);
      var Loaded(low, s1) := Load(src, width - 1);
      var s2 := Load(s1, 1).left;
      LoadRange(s2, 1);
      Pow2Mono(width, w - 1);
      Pow2Mono(1, w - 1);
    }
  }

  lemma WrapRange(w: nat, s: int, delta: int)
    requires ValidWidth(w) && InRange(w, s) && -MaxDelta(w) <= delta <= MaxDelta(w)
    ensures InRange(w, WrapSample(w, s + delta))
  {
    assert Span(w) == 2 * MaxDelta(w);
  }

  /** Whatever the bits are, one turn keeps the decoder's state in range. */
  lemma {:induction false} DecodeStepSafe(w: nat, c: Coder, src: Source, first: bool)
    requires ValidWidth(w) && ValidCoder(w, c)
    ensures var r := DecodeStep(w, c, src, first); r.Got? ==> ValidCoder(w, r.coder)
  {
    var Loaded(z, s1) := LoadModifier(w, src);
    if z >= 0 { AfterModifierSafe(w, c, z, s1); }
  }

  lemma {:induction false} AfterModifierSafe(w: nat, c: Coder, z: int, s1: Source)
    requires ValidWidth(w) && ValidCoder(w, c) && 0 <= z <= DwmMax(w)
    ensures AfterModifier(w, c, z, s1).Got? && ValidCoder(w, AfterModifier(w, c, z, s1).coder)
  {
    hide Load, DecodeDelta, WrapSample, MaxDelta, Fill;
    var Loaded(sign, s2) := if z != 0 then Load(s1, 1) else Loaded(0, s1);
    var sum := c.width + (if sign != 0 then -z else z) + w;
    assert sum >= 0;
    var width := CRem(sum, w);
    assert 0 <= width < w;
    DeltaRange(w, width, s2);
    WrapRange(w, c.sample, DecodeDelta(w, width, s2).value);
  }

  /** Whatever the bits are, samples and state stay in range through a whole call. */
  lemma {:induction false} DecodeSafe(w: nat, c: Coder, src: Source, n: nat, first: bool)
    requires ValidWidth(w) && ValidCoder(w, c)
    ensures var d := DecodeFrom(w, c, src, n, first);
            ValidCoder(w, d.coder) && AllInRange(w, d.samples) && |d.samples| <= n
    decreases n, 1
  {
    if n > 0 {
      DecodeStepSafe(w, c, src, first);
      ContinueSafe(w, c, DecodeStep(w, c, src, first), n);
    }
  }

  lemma {:induction false} ContinueSafe(w: nat, c: Coder, turn: Outcome, n: nat)
    requires ValidWidth(w) && ValidCoder(w, c) && n >= 1
    requires turn.Got? ==> ValidCoder(w, turn.coder)
    ensures var d := Continue(w, c, turn, n);
            ValidCoder(w, d.coder) && AllInRange(w, d.samples) && |d.samples| <= n
    decreases n, 0
  {
    hide DecodeFrom, MaxDelta;
    if turn.Got? { DecodeSafe(w, turn.coder, turn.left, n - 1, false); }
  }

  // ----- A code written out -----

  /** Three words of four bits: a width change that wraps, a difference that wraps, and one with an
      extra bit. The first eight bits are those of the byte 0x6A. */
  lemma {:induction false} ThreeWords()
    ensures Encode(4, START, [5, -6, 1])
         == [false, true, true, false, true, false, true, false, true, false, true, true, true, false, false]
    ensures BytesToBits([0x6A]) == Encode(4, START, [5, -6, 1])[..8]
  {
    hide Codeword, Next, Encode, BytesToBits;
    EncodeThree(4, START, 5, -6, 1);
    FirstWord();
    SecondWord();
    ThirdWord();
    ByteBits();
  }

  lemma EncodeThree(w: nat, c: Coder, x: int, y: int, z: int)
    requires w >= 1
    ensures var d := Next(w, c, x);
            Encode(w, c, [x, y, z]) == Codeword(w, c, x) + (Codeword(w, d, y) + Codeword(w, Next(w, d, y), z))
  {
    hide Codeword, Next;
    var d := Next(w, c, x);
    var e := Next(w, d, y);
    assert [x, y, z][1..] == [y, z] && [y, z][1..] == [z] && [z][1..] == [];
    assert Encode(w, e, [z]) == Codeword(w, e, z) + Encode(w, Next(w, e, z), []);
    EmptyLast(Codeword(w, e, z), []);
    assert Encode(w, d, [y, z]) == Codeword(w, d, y) + Encode(w, e, [z]);
  }

  lemma FirstWord()
    ensures Next(4, START, 5) == Coder(5, 3)
    ensures Codeword(4, START, 5) == [false, true, true, false, true, false]
  {
    assert MaxDelta(4) == 8 && FoldDelta(4, 5) == Delta(5, false, -1) && BitLength(5) == 3;
    assert Modifier(4, 3, 0) == -1;
    assert ToBits(5, 2) == [false, true];
  }

  lemma SecondWord()
    ensures Next(4, Coder(5, 3), -6) == Coder(-6, 3)
    ensures Codeword(4, Coder(5, 3), -6) == [true, false, true, false]
  {
    assert MaxDelta(4) == 8 && FoldDelta(4, -11) == Delta(5, false, -1) && BitLength(5) == 3;
    assert Modifier(4, 3, 3) == 0;
    assert ToBits(5, 2) == [false, true];
  }

  lemma ThirdWord()
    ensures Codeword(4, Coder(-6, 3), 1) == [true, true, true, false, false]
  {
    assert MaxDelta(4) == 8 && FoldDelta(4, 7) == Delta(7, false, 0) && BitLength(7) == 3;
    assert Modifier(4, 3, 3) == 0;
    assert ToBits(7, 2) == [true, true];
  }

  lemma ByteBits()
    ensures BytesToBits([0x6A]) == [false, true, true, false, true, false, true, false]
  {
    assert ToBits(0x6A, 8) == [false, true, true, false, true, false, true, false];
    assert [0x6A][1..] == [];
  }
}
