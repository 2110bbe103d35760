/** float32_be_read, float32_le_read and their write twins over exact numbers: every operation on
    the way is a scaling by a power of two or exact in 24 bits. */
module Single {
  import opened Bits
  import opened Endian
  import opened Dyadic

  const ONE := 0x80_0000

  /** 1.fraction as a number in [1, 2). */
  function Significand(fraction: nat): real { (ONE + fraction) as real / ONE as real }

  /** The number of sign, exponent and 23-bit fraction. */
  function Value(negative: bool, exponent: int, fraction: nat): real
  {
    var v := Significand(fraction) * Two(exponent);
    if negative then -v else v
  }

  predicate Normal(exponent: int, fraction: nat) { -126 <= exponent <= 127 && fraction < ONE }

  /** The single-precision format: sign, exponent plus 127, fraction. */
  function Code(negative: bool, exponent: int, fraction: nat): (c: nat)
    requires Normal(exponent, fraction)
    ensures c < 0x1_0000_0000
  {
    (if negative then 0x8000_0000 else 0) + (exponent + 127) * ONE + fraction
  }

  // ----- Writing -----

  /** The four bytes, high first, of a biased exponent and a mantissa. */
  function Packed(negative: bool, biased: int, mantissa: nat): (r: seq<Byte>)
    requires mantissa < ONE
    ensures |r| == 4
  {
    [(if negative then 128 else 0) + biased / 2 % 128,
     (if biased % 2 == 1 then 128 else 0) + mantissa / 0x1_0000,
     mantissa / 0x100 % 256,
     mantissa % 256]
  }

  function Mantissa(x: real): (m: nat)
    requires x > 0.0
    ensures m < ONE
  {
    (Frexp(x).0 * 16777216.0).Floor % ONE
  }

  /** float32_be_write as a function. */
  function Written(x: real): (r: seq<Byte>)
    ensures |r| == 4
  {
    var a := Magnitude(x);
    if a < TINY then [0, 0, 0, 0] else Packed(x < 0.0, Frexp(a).1 + 126, Mantissa(a))
  }

  function Reversed(b: seq<Byte>): (r: seq<Byte>)
    requires |b| == 4
    ensures |r| == 4
  {
    [b[3], b[2], b[1], b[0]]
  }

  /** float32_be_write: the bytes are cleared and then filled by or-ing the parts in. */
  method WriteBig(x: real, out: array<Byte>)
    requires out.Length == 4
    modifies out
    ensures out[..] == Written(x)
  {
    hide Frexp;
    out[0], out[1], out[2], out[3] := 0, 0, 0, 0;
    if Magnitude(x) < TINY {
      return;
    }
    var a := x;
    var negative := false;
    if x < 0.0 {
      a := -x;
      negative := true;
    }
    var exponent := Frexp(a).1 + 126;
    var mantissa := Mantissa(a);
    if negative { out[0] := out[0] + 128; }
    if exponent % 2 == 1 { out[1] := out[1] + 128; }
    out[3] := mantissa % 256;
    out[2] := mantissa / 0x100 % 256;
    out[1] := out[1] + mantissa / 0x1_0000;
    out[0] := out[0] + exponent / 2 % 128;
  }

  /** float32_le_write */
  method WriteLittle(x: real, out: array<Byte>)
    requires out.Length == 4
    modifies out
    ensures out[..] == Reversed(Written(x))
  {
    hide Frexp;
    out[0], out[1], out[2], out[3] := 0, 0, 0, 0;
    if Magnitude(x) < TINY {
      return;
    }
    var a := x;
    var negative := false;
    if x < 0.0 {
      a := -x;
      negative := true;
    }
    var exponent := Frexp(a).1 + 126;
    var mantissa := Mantissa(a);
    if negative { out[3] := out[3] + 128; }
    if exponent % 2 == 1 { out[2] := out[2] + 128; }
    out[0] := mantissa % 256;
    out[1] := mantissa / 0x100 % 256;
    out[2] := out[2] + mantissa / 0x1_0000;
    out[3] := out[3] + exponent / 2 % 128;
  }

  // ----- Reading -----

  /** What float32_be_read and float32_le_read do with the parts. */
  function Assembled(negative: bool, biased: nat, mantissa: nat): real
  {
    if biased == 0 && mantissa == 0 then 0.0
    else
      var v := (ONE + mantissa) as real / ONE as real;
      Scaled(if negative then -v else v, if biased != 0 then biased - 127 else 0)
  }

  /** float32_be_read */
  function ReadBig(b: seq<Byte>): real
    requires |b| == 4
  {
    var b0: int, b1: int, b2: int, b3: int := b[0], b[1], b[2], b[3];
    Assembled(b0 >= 128, b0 % 128 * 2 + b1 / 128, b1 % 128 * 0x1_0000 + b2 * 0x100 + b3)
  }

  /** float32_le_read */
  function ReadLittle(b: seq<Byte>): real
    requires |b| == 4
  {
    var b0: int, b1: int, b2: int, b3: int := b[0], b[1], b[2], b[3];
    Assembled(b3 >= 128, b3 % 128 * 2 + b2 / 128, b2 % 128 * 0x1_0000 + b1 * 0x100 + b0)
  }

  // ----- The format -----

  lemma SignificandRange(fraction: nat)
    requires fraction < ONE
    ensures 1.0 <= Significand(fraction) < 2.0 && Significand(fraction) * ONE as real == (ONE + fraction) as real
  {
  }

  lemma ValueSize(negative: bool, exponent: int, fraction: nat)
    requires fraction < ONE
    ensures Magnitude(Value(negative, exponent, fraction)) == Significand(fraction) * Two(exponent) > 0.0
    ensures Value(negative, exponent, fraction) < 0.0 <==> negative
  {
    hide Two, Significand;
    SignificandRange(fraction);
    Product(Significand(fraction), Two(exponent));
  }

  /** frexp takes a number of the format apart. */
  lemma Apart(exponent: int, fraction: nat, a: real)
    requires fraction < ONE && a == Significand(fraction) * Two(exponent)
    ensures a > 0.0 && Frexp(a).1 == exponent + 1 && Mantissa(a) == fraction
  {
    hide Two, Frexp, Significand;
    SignificandRange(fraction);
    var s, t := Significand(fraction), Two(exponent);
    TwoNext(exponent);
    HalfDouble(s, t);
    FrexpUnique(a, s / 2.0, exponent + 1);
    WholeMantissa(s, fraction);
  }

  lemma WholeMantissa(s: real, fraction: nat)
    requires fraction < ONE && s * ONE as real == (ONE + fraction) as real
    ensures (s / 2.0 * 16777216.0).Floor % ONE == fraction
  {
    assert s / 2.0 * 16777216.0 == (ONE + fraction) as real;
    assert ((ONE + fraction) as real).Floor == ONE + fraction;
  }

  lemma PackedIsCode(negative: bool, exponent: int, fraction: nat)
    requires Normal(exponent, fraction)
    ensures Packed(negative, exponent + 127, fraction) == BigEndian(Code(negative, exponent, fraction), 4)
  {
    hide Packed, BigEndian;
    PackedDigits(negative, exponent + 127, fraction);
  }

  lemma PackedDigits(negative: bool, biased: nat, fraction: nat)
    requires biased < 256 && fraction < ONE
    ensures Packed(negative, biased, fraction)
         == BigEndian((if negative then 0x8000_0000 else 0) + biased * ONE + fraction, 4)
  {
    hide BigEndian;
    var top, f := (if negative then 128 else 0) + biased / 2, fraction / 256;
    Regrouped(negative, biased, fraction);
    Digits4(top, 0x80 * (biased % 2) + fraction / 0x1_0000, f % 256, fraction % 256);
  }

  lemma Regrouped(negative: bool, biased: nat, fraction: nat)
    ensures var top := (if negative then 128 else 0) + biased / 2;
            (if negative then 0x8000_0000 else 0) + biased * ONE + fraction
            == 256 * (256 * (256 * top + (0x80 * (biased % 2) + fraction / 0x1_0000)) + fraction / 256 % 256)
             + fraction % 256
  {
    var h, r, f, g := biased / 2, biased % 2, fraction / 256, fraction / 0x1_0000;
    assert biased == 2 * h + r && f / 256 == g && f == 256 * g + f % 256 && fraction == 256 * f + fraction % 256;
  }

  /** A normal number is written as its code in the format, unless it is tiny. */
  lemma {:induction false} WrittenIsCode(negative: bool, exponent: int, fraction: nat)
    requires Normal(exponent, fraction)
    ensures var x := Value(negative, exponent, fraction);
            Written(x) == if Magnitude(x) < TINY then [0, 0, 0, 0] else BigEndian(Code(negative, exponent, fraction), 4)
  {
    hide Value, Packed, Code, Frexp, Mantissa, Magnitude;
    var x := Value(negative, exponent, fraction);
    ValueSize(negative, exponent, fraction);
    Apart(exponent, fraction, Magnitude(x));
    PackedIsCode(negative, exponent, fraction);
  }

  /** The bytes of a code are read as the number it stands for. */
  lemma {:induction false} CodeIsRead(negative: bool, exponent: int, fraction: nat)
    requires Normal(exponent, fraction)
    ensures ReadBig(BigEndian(Code(negative, exponent, fraction), 4)) == Value(negative, exponent, fraction)
  {
    hide Code, Two, Scaled, ReadBig, Packed, Significand, BigEndian;
    PackedIsCode(negative, exponent, fraction);
    Unpacked(negative, exponent + 127, fraction);
    var s := Significand(fraction);
    AssembledNormal(negative, exponent, fraction);
    ScaledIsProduct(if negative then -s else s, exponent);
    Negated(s, Two(exponent));
  }

  lemma AssembledNormal(negative: bool, exponent: int, fraction: nat)
    requires Normal(exponent, fraction)
    ensures var s := Significand(fraction);
            Assembled(negative, exponent + 127, fraction) == Scaled(if negative then -s else s, exponent)
  {
    hide Scaled;
  }

  lemma Unpacked(negative: bool, biased: nat, fraction: nat)
    requires biased < 256 && fraction < ONE
    ensures ReadBig(Packed(negative, biased, fraction)) == Assembled(negative, biased, fraction)
  {
    hide Assembled;
    var b := Packed(negative, biased, fraction);
    var b0: int, b1: int, b2: int, b3: int := b[0], b[1], b[2], b[3];
    assert b0 % 128 == biased / 2 && b1 / 128 == biased % 2 && b1 % 128 == fraction / 0x1_0000;
    var q := fraction / 0x100;
    assert q / 0x100 == fraction / 0x1_0000;
    assert q == q / 0x100 * 0x100 + q % 0x100;
  }

  /** A normal single survives writing and reading exactly when it is not tiny. */
  lemma {:induction false} SingleRoundTrip(negative: bool, exponent: int, fraction: nat)
    requires Normal(exponent, fraction)
    ensures var x := Value(negative, exponent, fraction);
            ReadBig(Written(x)) == x <==> Magnitude(x) >= TINY
  {
    hide Value, Code, BigEndian, Two, Scaled, Written;
    WrittenIsCode(negative, exponent, fraction);
    CodeIsRead(negative, exponent, fraction);
    ValueSize(negative, exponent, fraction);
  }

  /** A smaller number, 0 or a denormal one among them, is written as zero bytes, which are read as 0. */
  lemma TinyIsZero(x: real)
    requires Magnitude(x) < TINY
    ensures Written(x) == [0, 0, 0, 0] && ReadBig(Written(x)) == 0.0
  {
  }

  lemma AssembledSign(negative: bool, biased: nat, mantissa: nat)
    requires biased != 0 || mantissa != 0
    ensures var x := Assembled(negative, biased, mantissa); if negative then x < 0.0 else x > 0.0
  {
    hide Scaled, Two;
    var v, e := (ONE + mantissa) as real / ONE as real, if biased != 0 then biased - 127 else 0;
    ScaledIsProduct(if negative then -v else v, e);
    Product(v, Two(e));
    Negated(v, Two(e));
  }

  /** Only the two zeros of the format are read as 0. */
  lemma {:induction false} ZeroRead(b: seq<Byte>)
    requires |b| == 4
    ensures ReadBig(b) == 0.0 <==> b[0] % 128 == 0 && b[1] == 0 && b[2] == 0 && b[3] == 0
  {
    hide Assembled;
    var b0: int, b1: int, b2: int, b3: int := b[0], b[1], b[2], b[3];
    var biased, mantissa := b0 % 128 * 2 + b1 / 128, b1 % 128 * 0x1_0000 + b2 * 0x100 + b3;
    if biased != 0 || mantissa != 0 { AssembledSign(b0 >= 128, biased, mantissa); } else { AssembledZero(b0 >= 128); }
  }

  lemma AssembledZero(negative: bool)
    ensures Assembled(negative, 0, 0) == 0.0
  {
  }

  /** What the format means by an exponent field of 0: no leading one, and 2^-126. */
  function Denormal(negative: bool, fraction: nat): real
  {
    var v := fraction as real / ONE as real * Two(-126);
    if negative then -v else v
  }

  /** The reader takes it for an exponent of 0 and adds the leading one: no denormal number is read
      as what it is. */
  lemma {:induction false} DenormalMisread(negative: bool, fraction: nat)
    requires 0 < fraction < ONE
    ensures var back := ReadBig(BigEndian((if negative then 0x8000_0000 else 0) + fraction, 4));
            back == (if negative then -Significand(fraction) else Significand(fraction))
            && back != Denormal(negative, fraction)
  {
    hide Packed, BigEndian, ReadBig, Two, Significand;
    PackedDigits(negative, 0, fraction);
    Unpacked(negative, 0, fraction);
    AssembledDenormal(negative, fraction);
    SignificandRange(fraction);
    SmallPower();
    Below(fraction as real / ONE as real, Two(-126));
  }

  lemma AssembledDenormal(negative: bool, fraction: nat)
    requires fraction > 0
    ensures Assembled(negative, 0, fraction) == if negative then -Significand(fraction) else Significand(fraction)
  {
  }

  lemma SmallPower()
    ensures Two(-126) <= 1.0
  {
    var p := Pow2(126) as real;
    assert p >= 1.0 && 1.0 / p <= 1.0;
  }

  lemma Below(a: real, b: real)
    requires 0.0 < a < 1.0 && 0.0 < b <= 1.0
    ensures 0.0 < a * b < 1.0
  {
    Product(a, b);
    assert a * b <= a;
  }

  /** The little-endian reader undoes the reversal. */
  lemma LittleIsReversed(b: seq<Byte>)
    requires |b| == 4
    ensures ReadLittle(Reversed(b)) == ReadBig(b)
  {
  }

  /** Two numbers and their bytes. */
  lemma {:induction false} OneAndMinusSixAndAHalf()
    ensures Written(1.0) == [0x3F, 0x80, 0, 0] && ReadBig([0x3F, 0x80, 0, 0]) == 1.0
    ensures Written(-6.5) == [0xC0, 0xD0, 0, 0] && ReadBig([0xC0, 0xD0, 0, 0]) == -6.5
  {
    hide Written, ReadBig, BigEndian;
    assert Value(false, 0, 0) == 1.0 by { TwoZero(); }
    assert Two(2) == 4.0 by { assert Pow2(2) == 4; }
    assert Value(true, 2, 0x50_0000) == -6.5;
    WrittenIsCode(false, 0, 0);
    WrittenIsCode(true, 2, 0x50_0000);
    CodeIsRead(false, 0, 0);
    CodeIsRead(true, 2, 0x50_0000);
    Bytes4(0x3F80_0000);
    Bytes4(0xC0D0_0000);
  }
}
