/** double64_be_read, double64_le_read and their write twins over exact numbers. The 52-bit fraction
    is handled as 28 upper and 24 lower bits. */
module Double {
  import opened Bits
  import opened Endian
  import opened Dyadic

  const UPPER := 0x1000_0000
  const LOWER := 0x100_0000

  /** 1.fraction as a number in [1, 2). */
  function Significand(upper: nat, lower: nat): real
  {
    ((UPPER + upper) as real + lower as real / LOWER as real) / UPPER as real
  }

  /** The number of sign, exponent and fraction. */
  function Value(negative: bool, exponent: int, upper: nat, lower: nat): real
  {
    var v := Significand(upper, lower) * Two(exponent);
    if negative then -v else v
  }

  predicate Normal(exponent: int, upper: nat, lower: nat)
  {
    -1022 <= exponent <= 1023 && upper < UPPER && lower < LOWER
  }

  /** The double-precision format: sign, exponent plus 1023, fraction. */
  function Code(negative: bool, exponent: int, upper: nat, lower: nat): (c: nat)
    requires Normal(exponent, upper, lower)
  {
    (if negative then 0x8000_0000_0000_0000 else 0) + (exponent + 1023) * 0x10_0000_0000_0000 + upper * LOWER + lower
  }

  // ----- Writing -----

  /** The eight bytes, high first, of a biased exponent and the two parts of a mantissa. */
  function Packed(negative: bool, biased: int, upper: nat, lower: nat): (r: seq<Byte>)
    requires lower < LOWER
    ensures |r| == 8
  {
    [(if negative then 128 else 0) + biased / 16 % 128,
     biased % 16 * 16 + upper / 0x100_0000 % 16,
     upper / 0x1_0000 % 256,
     upper / 0x100 % 256,
     upper % 256,
     lower / 0x1_0000,
     lower / 0x100 % 256,
     lower % 256]
  }

  /** The mantissa scaled to 29 bits in front of the point. */
  function Scale29(x: real): (m: real)
    requires x > 0.0
    ensures m >= 0.0
  {
    FrexpPositive(x);
    Frexp(x).0 * 536870912.0
  }

  lemma {:induction false} FrexpPositive(x: real)
    requires x > 0.0
    ensures 0.5 <= Frexp(x).0 < 1.0
    decreases Dyadic.Distance(x)
  {
    DistanceShrinks(x);
    if x >= 1.0 { FrexpPositive(x / 2.0); } else if x < 0.5 { FrexpPositive(2.0 * x); }
  }

  function UpperPart(m: real): (u: nat)
    requires m >= 0.0
  {
    m.Floor
  }

  /** fmod by 1, scaled to 24 bits. */
  function LowerPart(m: real): (l: nat)
    requires m >= 0.0
    ensures l < LOWER
  {
    ((m - m.Floor as real) * LOWER as real).Floor
  }

  /** double64_be_write as a function. */
  function Written(x: real): (r: seq<Byte>)
    ensures |r| == 8
  {
    var a := Magnitude(x);
    if a < TINY then [0, 0, 0, 0, 0, 0, 0, 0]
    else Packed(x < 0.0, Frexp(a).1 + 1022, UpperPart(Scale29(a)), LowerPart(Scale29(a)))
  }

  function Reversed(b: seq<Byte>): (r: seq<Byte>)
    requires |b| == 8
    ensures |r| == 8
  {
    [b[7], b[6], b[5], b[4], b[3], b[2], b[1], b[0]]
  }

  /** double64_be_write */
  method WriteBig(x: real, out: array<Byte>)
    requires out.Length == 8
    modifies out
    ensures out[..] == Written(x)
  {
    hide Frexp, Scale29, UpperPart, LowerPart, Packed;
    Clear(out);
    if Magnitude(x) < TINY {
      return;
    }
    var a := if x < 0.0 then -x else x;
    var m := Scale29(a);
    PutBig(x < 0.0, Frexp(a).1 + 1022, UpperPart(m), LowerPart(m), out);
  }

  /** double64_le_write */
  method WriteLittle(x: real, out: array<Byte>)
    requires out.Length == 8
    modifies out
    ensures out[..] == Reversed(Written(x))
  {
    hide Frexp, Scale29, UpperPart, LowerPart, Packed;
    Clear(out);
    if Magnitude(x) < TINY {
      return;
    }
    var a := if x < 0.0 then -x else x;
    var m := Scale29(a);
    PutLittle(x < 0.0, Frexp(a).1 + 1022, UpperPart(m), LowerPart(m), out);
  }

  /** memset */
  method Clear(out: array<Byte>)
    requires out.Length == 8
    modifies out
    ensures out[..] == [0, 0, 0, 0, 0, 0, 0, 0]
  {
    forall k | 0 <= k < 8 { out[k] := 0; }
  }

  /** The parts or-ed into cleared bytes, high byte first. */
  method PutBig(negative: bool, exponent: int, upper: nat, lower: nat, out: array<Byte>)
    requires out.Length == 8 && lower < LOWER && out[..] == [0, 0, 0, 0, 0, 0, 0, 0]
    modifies out
    ensures out[..] == Packed(negative, exponent, upper, lower)
  {
    out[0] := (if negative then 128 else 0) + exponent / 16 % 128;
    out[1] := exponent % 16 * 16;
    out[1] := out[1] + upper / 0x100_0000 % 16;
    out[2], out[3], out[4] := upper / 0x1_0000 % 256, upper / 0x100 % 256, upper % 256;
    LowerByte(lower);
    out[5], out[6], out[7] := lower / 0x1_0000 % 256, lower / 0x100 % 256, lower % 256;
  }

  /** The same in the other order. */
  method PutLittle(negative: bool, exponent: int, upper: nat, lower: nat, out: array<Byte>)
    requires out.Length == 8 && lower < LOWER && out[..] == [0, 0, 0, 0, 0, 0, 0, 0]
    modifies out
    ensures out[..] == Reversed(Packed(negative, exponent, upper, lower))
  {
    out[7] := (if negative then 128 else 0) + exponent / 16 % 128;
    out[6] := exponent % 16 * 16;
    out[6] := out[6] + upper / 0x100_0000 % 16;
    out[5], out[4], out[3] := upper / 0x1_0000 % 256, upper / 0x100 % 256, upper % 256;
    LowerByte(lower);
    out[2], out[1], out[0] := lower / 0x1_0000 % 256, lower / 0x100 % 256, lower % 256;
  }

  lemma LowerByte(lower: nat)
    requires lower < LOWER
    ensures lower / 0x1_0000 % 256 == lower / 0x1_0000
  {
  }

  // ----- Reading -----

  /** What double64_be_read and double64_le_read do with the parts. */
  function Assembled(negative: bool, biased: nat, upper: nat, lower: nat): real
  {
    if biased == 0 && upper == 0 && lower == 0 then 0.0
    else
      var v := (upper as real + lower as real / LOWER as real + UPPER as real) / UPPER as real;
      Scaled(if negative then -v else v, biased - 0x3FF)
  }

  /** double64_be_read */
  function ReadBig(b: seq<Byte>): real
    requires |b| == 8
  {
    var b0: int, b1: int, b2: int, b3: int := b[0], b[1], b[2], b[3];
    var b4: int, b5: int, b6: int, b7: int := b[4], b[5], b[6], b[7];
    Assembled(b0 >= 128, b0 % 128 * 16 + b1 / 16,
              b1 % 16 * 0x100_0000 + b2 * 0x1_0000 + b3 * 0x100 + b4, b5 * 0x1_0000 + b6 * 0x100 + b7)
  }

  /** double64_le_read */
  function ReadLittle(b: seq<Byte>): real
    requires |b| == 8
  {
    var b0: int, b1: int, b2: int, b3: int := b[7], b[6], b[5], b[4];
    var b4: int, b5: int, b6: int, b7: int := b[3], b[2], b[1], b[0];
    Assembled(b0 >= 128, b0 % 128 * 16 + b1 / 16,
              b1 % 16 * 0x100_0000 + b2 * 0x1_0000 + b3 * 0x100 + b4, b5 * 0x1_0000 + b6 * 0x100 + b7)
  }

  // ----- The format -----

  lemma SignificandRange(upper: nat, lower: nat)
    requires upper < UPPER && lower < LOWER
    ensures 1.0 <= Significand(upper, lower) < 2.0
    ensures Significand(upper, lower) * UPPER as real == (UPPER + upper) as real + lower as real / LOWER as real
  {
    var q := lower as real / LOWER as real;
    assert 0.0 <= q < 1.0;
  }

  lemma ValueSize(negative: bool, exponent: int, upper: nat, lower: nat)
    requires upper < UPPER && lower < LOWER
    ensures Magnitude(Value(negative, exponent, upper, lower)) == Significand(upper, lower) * Two(exponent) > 0.0
    ensures Value(negative, exponent, upper, lower) < 0.0 <==> negative
  {
    hide Two, Significand;
    SignificandRange(upper, lower);
    Product(Significand(upper, lower), Two(exponent));
  }

  /** frexp takes a number of the format apart. */
  lemma Apart(exponent: int, upper: nat, lower: nat, a: real)
    requires upper < UPPER && lower < LOWER && a == Significand(upper, lower) * Two(exponent)
    ensures a > 0.0 && Frexp(a).1 == exponent + 1
    ensures UpperPart(Scale29(a)) == UPPER + upper && LowerPart(Scale29(a)) == lower
  {
    hide Two, Frexp, Significand;
    SignificandRange(upper, lower);
    var s, t := Significand(upper, lower), Two(exponent);
    TwoNext(exponent);
    HalfDouble(s, t);
    FrexpUnique(a, s / 2.0, exponent + 1);
    assert s / 2.0 * 536870912.0 == s * UPPER as real;
    Parts(Scale29(a), UPPER + upper, lower);
  }

  lemma Parts(m: real, whole: nat, lower: nat)
    requires lower < LOWER && m == whole as real + lower as real / LOWER as real
    ensures UpperPart(m) == whole && LowerPart(m) == lower
  {
    var q := lower as real / LOWER as real;
    assert 0.0 <= q < 1.0;
    assert m.Floor == whole;
    assert q * LOWER as real == lower as real;
  }

  lemma PackedIsCode(negative: bool, exponent: int, upper: nat, lower: nat)
    requires Normal(exponent, upper, lower)
    ensures Packed(negative, exponent + 1023, UPPER + upper, lower)
         == BigEndian(Code(negative, exponent, upper, lower), 8)
  {
    hide Packed, BigEndian;
    PackedDigits(negative, exponent + 1023, upper, lower);
  }

  lemma PackedDigits(negative: bool, biased: nat, upper: nat, lower: nat)
    requires biased < 2048 && upper < UPPER && lower < LOWER
    ensures Packed(negative, biased, UPPER + upper, lower)
         == BigEndian((if negative then 0x8000_0000_0000_0000 else 0) + biased * 0x10_0000_0000_0000 + upper * LOWER
                      + lower, 8)
  {
    hide BigEndian;
    var c := (if negative then 0x8000_0000_0000_0000 else 0) + biased * 0x10_0000_0000_0000 + upper * LOWER + lower;
    var high := (if negative then 0x8000_0000 else 0) + biased * 0x10_0000 + upper / 256;
    var low := upper % 256 * LOWER + lower;
    assert c == high * 0x1_0000_0000 + low;
    HighHalf(negative, biased, upper, high);
    LowHalf(upper, lower, low);
    Halves(high, low);
  }

  lemma Halves(high: nat, low: nat)
    requires low < 0x1_0000_0000
    ensures BigEndian(high * 0x1_0000_0000 + low, 8) == BigEndian(high, 4) + BigEndian(low, 4)
  {
    BigEndianJoin(high, low, 4);
    assert Pow256(2) == 0x1_0000;
    assert Pow256(4) == 0x1_0000_0000;
  }

  lemma HighHalf(negative: bool, biased: nat, upper: nat, high: nat)
    requires biased < 2048 && upper < UPPER
    requires high == (if negative then 0x8000_0000 else 0) + biased * 0x10_0000 + upper / 256
    ensures BigEndian(high, 4) == Packed(negative, biased, UPPER + upper, 0)[..4]
  {
    hide BigEndian;
    var top := (if negative then 128 else 0) + biased / 16;
    var second := biased % 16 * 16 + upper / 0x100_0000;
    HighDigits(negative, biased, upper, high);
    UpperDigits(upper);
    WithLeadingBit(upper);
    Digits4(top, second, upper / 0x1_0000 % 256, upper / 0x100 % 256);
  }

  /** The digits of the high half, put together. */
  lemma HighDigits(negative: bool, biased: nat, upper: nat, high: nat)
    requires high == (if negative then 0x8000_0000 else 0) + biased * 0x10_0000 + upper / 256
    ensures var top := (if negative then 128 else 0) + biased / 16;
            high == 256 * (256 * (256 * top + (biased % 16 * 16 + upper / 0x100_0000)) + upper / 0x1_0000 % 256)
                  + upper / 0x100 % 256
  {
    var u, v := upper / 256, upper / 0x1_0000;
    assert v == u / 256 && upper / 0x100_0000 == v / 256;
    var e, f := biased / 16, biased % 16;
    assert biased == 16 * e + f;
    assert u == 0x1_0000 * (v / 256) + 256 * (v % 256) + u % 256;
  }

  /** The leading bit of the mantissa falls outside the fields. */
  lemma WithLeadingBit(upper: nat)
    requires upper < UPPER
    ensures (UPPER + upper) / 0x100_0000 % 16 == upper / 0x100_0000
    ensures (UPPER + upper) / 0x1_0000 % 256 == upper / 0x1_0000 % 256
    ensures (UPPER + upper) / 0x100 % 256 == upper / 0x100 % 256 && (UPPER + upper) % 256 == upper % 256
  {
    WholeShift(upper, 0x100_0000, 16);
    WholeShift(upper, 0x1_0000, 0x1000);
    WholeShift(upper, 0x100, 0x10_0000);
    var a, b, c := upper / 0x100_0000, upper / 0x1_0000, upper / 0x100;
    assert (16 + a) % 16 == a;
    assert (0x1000 + b) % 256 == b % 256 && (0x10_0000 + c) % 256 == c % 256;
  }

  lemma WholeShift(x: nat, d: nat, k: nat)
    requires d > 0 && UPPER == d * k
    ensures (UPPER + x) / d == k + x / d
  {
    assert UPPER + x == d * (k + x / d) + x % d by { assert d * (k + x / d) == d * k + d * (x / d); }
    DivUnique(UPPER + x, d, k + x / d, x % d);
  }

  lemma LowHalf(upper: nat, lower: nat, low: nat)
    requires upper < UPPER && lower < LOWER && low == upper % 256 * LOWER + lower
    ensures BigEndian(low, 4) == Packed(false, 0, UPPER + upper, lower)[4..]
  {
    var l := lower / 256;
    assert lower / 0x1_0000 == l / 256;
    assert low == 256 * (256 * (256 * (upper % 256) + l / 256) + l % 256) + lower % 256;
    WithLeadingBit(upper);
    Digits4(upper % 256, l / 256, l % 256, lower % 256);
  }

  /** A normal number is written as its code in the format, unless it is tiny. */
  lemma {:induction false} WrittenIsCode(negative: bool, exponent: int, upper: nat, lower: nat)
    requires Normal(exponent, upper, lower)
    ensures var x := Value(negative, exponent, upper, lower);
            Written(x) == if Magnitude(x) < TINY then [0, 0, 0, 0, 0, 0, 0, 0]
                          else BigEndian(Code(negative, exponent, upper, lower), 8)
  {
    hide Value, Packed, Code, Frexp, UpperPart, LowerPart, Scale29, Magnitude, BigEndian;
    var x := Value(negative, exponent, upper, lower);
    ValueSize(negative, exponent, upper, lower);
    Apart(exponent, upper, lower, Magnitude(x));
    PackedIsCode(negative, exponent, upper, lower);
  }

  /** The bytes of a code are read as the number it stands for. */
  lemma {:induction false} CodeIsRead(negative: bool, exponent: int, upper: nat, lower: nat)
    requires Normal(exponent, upper, lower)
    ensures ReadBig(BigEndian(Code(negative, exponent, upper, lower), 8)) == Value(negative, exponent, upper, lower)
  {
    hide Code, Two, Scaled, ReadBig, Packed, Significand, BigEndian;
    PackedIsCode(negative, exponent, upper, lower);
    Unpacked(negative, exponent + 1023, upper, lower);
    var s := Significand(upper, lower);
    AssembledNormal(negative, exponent, upper, lower);
    ScaledIsProduct(if negative then -s else s, exponent);
    Negated(s, Two(exponent));
  }

  lemma AssembledNormal(negative: bool, exponent: int, upper: nat, lower: nat)
    requires Normal(exponent, upper, lower)
    ensures var s := Significand(upper, lower);
            Assembled(negative, exponent + 1023, upper, lower) == Scaled(if negative then -s else s, exponent)
  {
    hide Scaled;
  }

  lemma Unpacked(negative: bool, biased: nat, upper: nat, lower: nat)
    requires biased < 2048 && upper < UPPER && lower < LOWER
    ensures ReadBig(Packed(negative, biased, UPPER + upper, lower)) == Assembled(negative, biased, upper, lower)
  {
    hide Assembled;
    WithLeadingBit(upper);
    UpperDigits(upper);
    LowerDigits(lower);
    assert biased / 16 * 16 + biased % 16 == biased;
  }

  lemma UpperDigits(x: nat)
    requires x < UPPER
    ensures x / 0x100_0000 < 16
    ensures x / 0x100_0000 * 0x100_0000 + x / 0x1_0000 % 256 * 0x1_0000 + x / 0x100 % 256 * 0x100 + x % 256 == x
  {
    var u, v := x / 256, x / 0x1_0000;
    assert v == u / 256 && x / 0x100_0000 == v / 256;
  }

  lemma LowerDigits(x: nat)
    requires x < LOWER
    ensures x / 0x1_0000 * 0x1_0000 + x / 0x100 % 256 * 0x100 + x % 256 == x
  {
    assert x / 0x1_0000 == x / 256 / 256;
  }

  /** A normal double survives writing and reading exactly when it is not tiny. */
  lemma {:induction false} DoubleRoundTrip(negative: bool, exponent: int, upper: nat, lower: nat)
    requires Normal(exponent, upper, lower)
    ensures var x := Value(negative, exponent, upper, lower);
            ReadBig(Written(x)) == x <==> Magnitude(x) >= TINY
  {
    hide Value, Code, BigEndian, Two, Scaled, Written;
    WrittenIsCode(negative, exponent, upper, lower);
    CodeIsRead(negative, exponent, upper, lower);
    ValueSize(negative, exponent, upper, lower);
  }

  /** A smaller number, 0 or a denormal one among them, is written as zero bytes, which are read as 0. */
  lemma TinyIsZero(x: real)
    requires Magnitude(x) < TINY
    ensures Written(x) == [0, 0, 0, 0, 0, 0, 0, 0] && ReadBig(Written(x)) == 0.0
  {
  }

  lemma AssembledSign(negative: bool, biased: nat, upper: nat, lower: nat)
    requires biased != 0 || upper != 0 || lower != 0
    ensures var x := Assembled(negative, biased, upper, lower); if negative then x < 0.0 else x > 0.0
  {
    hide Scaled, Two;
    var v := (upper as real + lower as real / LOWER as real + UPPER as real) / UPPER as real;
    ScaledIsProduct(if negative then -v else v, biased - 0x3FF);
    Product(v, Two(biased - 0x3FF));
    Negated(v, Two(biased - 0x3FF));
  }

  /** Only the two zeros of the format are read as 0. */
  lemma {:induction false} ZeroRead(b: seq<Byte>)
    requires |b| == 8
    ensures ReadBig(b) == 0.0 <==> b[0] % 128 == 0 && forall i :: 1 <= i < 8 ==> b[i] == 0
  {
    hide Assembled;
    var b0: int, b1: int, b2: int, b3: int := b[0], b[1], b[2], b[3];
    var b4: int, b5: int, b6: int, b7: int := b[4], b[5], b[6], b[7];
    var biased, upper, lower := b0 % 128 * 16 + b1 / 16, b1 % 16 * 0x100_0000 + b2 * 0x1_0000 + b3 * 0x100 + b4,
                                b5 * 0x1_0000 + b6 * 0x100 + b7;
    assert b1 == 0 <==> b1 / 16 == 0 && b1 % 16 == 0;
    if biased != 0 || upper != 0 || lower != 0 {
      AssembledSign(b0 >= 128, biased, upper, lower);
    } else {
      AssembledZero(b0 >= 128);
    }
  }

  lemma AssembledZero(negative: bool)
    ensures Assembled(negative, 0, 0, 0) == 0.0
  {
  }

  /** What the format means by an exponent field of 0: no leading one, and 2^-1022. */
  function Denormal(negative: bool, upper: nat, lower: nat): real
  {
    var v := (upper as real + lower as real / LOWER as real) / UPPER as real * Two(-1022);
    if negative then -v else v
  }

  /** The reader adds the leading one and takes the exponent for -1023: no denormal number is read as
      what it is. */
  lemma {:induction false} DenormalMisread(negative: bool, upper: nat, lower: nat)
    requires upper < UPPER && lower < LOWER && (upper > 0 || lower > 0)
    ensures var back := ReadBig(BigEndian((if negative then 0x8000_0000_0000_0000 else 0) + upper * LOWER + lower, 8));
            back == Value(negative, -1023, upper, lower) && back != Denormal(negative, upper, lower)
  {
    hide Packed, BigEndian, ReadBig, Two, Significand, Scaled, Assembled;
    PackedDigits(negative, 0, upper, lower);
    Unpacked(negative, 0, upper, lower);
    AssembledDenormal(negative, upper, lower);
    var s, t := Significand(upper, lower), Two(-1023);
    ScaledIsProduct(if negative then -s else s, -1023);
    Negated(s, t);
    TwoNext(-1023);
    Halved(upper, lower, t);
  }

  lemma AssembledDenormal(negative: bool, upper: nat, lower: nat)
    requires upper > 0 || lower > 0
    ensures var s := Significand(upper, lower);
            Assembled(negative, 0, upper, lower) == Scaled(if negative then -s else s, -1023)
  {
    hide Scaled;
  }

  /** The fraction is less than one, so that it does not make up for the leading one. */
  lemma Halved(upper: nat, lower: nat, t: real)
    requires upper < UPPER && lower < LOWER && t > 0.0
    ensures (upper as real + lower as real / LOWER as real) / UPPER as real * (2.0 * t) != Significand(upper, lower) * t
  {
    var f := (upper as real + lower as real / LOWER as real) / UPPER as real;
    assert lower as real / LOWER as real < 1.0;
    assert f < 1.0 && Significand(upper, lower) == 1.0 + f;
    Product(1.0 - f, t);
    assert (1.0 + f) * t - f * (2.0 * t) == (1.0 - f) * t;
  }

  /** The little-endian reader undoes the reversal. */
  lemma LittleIsReversed(b: seq<Byte>)
    requires |b| == 8
    ensures ReadLittle(Reversed(b)) == ReadBig(b)
  {
  }

  /** Two numbers and their bytes. */
  lemma {:induction false} OneAndMinusSixAndAHalf()
    ensures var b := [0x3F, 0xF0, 0, 0, 0, 0, 0, 0]; Written(1.0) == b && ReadBig(b) == 1.0
    ensures var b := [0xC0, 0x1A, 0, 0, 0, 0, 0, 0]; Written(-6.5) == b && ReadBig(b) == -6.5
  {
    hide Written, ReadBig, BigEndian;
    assert Value(false, 0, 0, 0) == 1.0 by { TwoZero(); }
    assert Two(2) == 4.0 by { assert Pow2(2) == 4; }
    assert Value(true, 2, 0xA00_0000, 0) == -6.5;
    WrittenIsCode(false, 0, 0, 0);
    WrittenIsCode(true, 2, 0xA00_0000, 0);
    CodeIsRead(false, 0, 0, 0);
    CodeIsRead(true, 2, 0xA00_0000, 0);
    Halves(0x3FF0_0000, 0);
    Halves(0xC01A_0000, 0);
    Bytes4(0x3FF0_0000);
    Bytes4(0xC01A_0000);
    Bytes4(0);
  }
}
