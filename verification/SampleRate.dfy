/** The sample rate of an AIFF file: a positive integer as an 80-bit IEEE extended number. */
module SampleRate {
  import opened Bits
  import opened Endian

  const TOO_BIG := 0x4000_0000

  /** uint2tenbytefloat as a function of the ten bytes it is given. */
  function Extended(num: nat, before: seq<Byte>): (r: seq<Byte>)
    requires |before| == 10
    ensures |r| == 10
  {
    if num <= 1 then [0x3F, 0xFF, 0x80] + before[3..]
    else if num >= TOO_BIG then [0x40, 0x1D] + before[2..]
    else
      LeadingBit(num);
      var top := BitLength(num) - 1;
      [0x40, top - 1] + BigEndian(num * Pow2(31 - top), 4) + before[6..]
  }

  /** The highest set bit of a number the format is used for. */
  lemma LeadingBit(num: nat)
    requires 2 <= num < TOO_BIG
    ensures var top := BitLength(num) - 1;
            1 <= top <= 29 && Pow2(top) <= num < 2 * Pow2(top)
            && Pow2(31) <= num * Pow2(31 - top) < Pow2(32)
  {
    hide BitLength, Pow2;
    TopRange(num);
    var top := BitLength(num) - 1;
    Pow2Add(top, 31 - top);
    ScaleOrder(Pow2(top), num, Pow2(31 - top));
    ScaleOrder(num + 1, 2 * Pow2(top), Pow2(31 - top));
    MulAssoc(2, Pow2(top), Pow2(31 - top));
    Pow2Table();
    assert (num + 1) * Pow2(31 - top) == num * Pow2(31 - top) + Pow2(31 - top);
  }

  lemma TopRange(num: nat)
    requires 2 <= num < TOO_BIG
    ensures var top := BitLength(num) - 1;
            1 <= top <= 29 && Pow2(top) <= num < 2 * Pow2(top)
  {
    hide BitLength;
    BitLengthRange(num);
    Pow2Table();
    assert Pow2(31) == 2 * Pow2(30);
    BitLengthBound(num, 30);
    if BitLength(num) <= 1 { assert Pow2(1) == 2; Pow2Mono(BitLength(num), 1); }
    assert Pow2(BitLength(num)) == 2 * Pow2(BitLength(num) - 1);
  }

  lemma ScaleOrder(a: nat, b: nat, p: int)
    requires a <= b && p > 0
    ensures a * p <= b * p
  {
    MulLess(a, b, p);
  }

  /** tenbytefloat2int */
  function Rate(bytes: seq<Byte>): int
    requires |bytes| == 10
  {
    if bytes[0] >= 0x80 then 0
    else if bytes[0] <= 0x3F then 1
    else if bytes[0] > 0x40 then 0x400_0000
    else if bytes[1] > 0x1C then 800000000
    else
      var b2: int, b3: int, b4: int, b5: int := bytes[2], bytes[3], bytes[4], bytes[5];
      ShiftRight(b2 * 0x80_0000 + b3 * 0x8000 + b4 * 0x80 + b5 / 2, 29 - bytes[1])
  }

  /** The exponent is that of the highest bit and the mantissa the number with that bit in front. */
  lemma {:induction false} ExtendedForm(num: nat, before: seq<Byte>)
    requires |before| == 10 && 2 <= num < TOO_BIG
    ensures var r := Extended(num, before);
            var exponent := FromBig(r[..2]) - 16383;
            && 0 <= exponent <= 31 && Pow2(exponent) <= num < 2 * Pow2(exponent)
            && r[2] >= 128 && FromBig(r[2..6]) * Pow2(exponent) == num * Pow2(31)
  {
    hide Extended, BitLength, Pow2, BigEndian, FromBig;
    LeadingBit(num);
    ExtendedParts(num, before);
    var top := BitLength(num) - 1;
    var m := num * Pow2(31 - top);
    TwoBytes(top - 1);
    BigEndianBack(m, 4);
    Pow2Table();
    Bytes4(m);
    TopByte(Extended(num, before)[2..6], m);
    Pow2Add(31 - top, top);
    MulAssoc(num, Pow2(31 - top), Pow2(top));
  }

  lemma ExtendedParts(num: nat, before: seq<Byte>)
    requires |before| == 10 && 2 <= num < TOO_BIG
    ensures var r, top := Extended(num, before), BitLength(num) - 1;
            1 <= top <= 29 && r[..2] == [0x40, top - 1] && r[2..6] == BigEndian(num * Pow2(31 - top), 4)
            && r[2] == r[2..6][0]
  {
    hide BitLength, Pow2, BigEndian;
    LeadingBit(num);
  }

  lemma TwoBytes(x: Byte)
    ensures FromBig([0x40, x]) == 0x4000 + x as int
  {
    assert [0x40, x][..1] == [0x40];
    assert FromBig([0x40]) == 0x40;
  }

  lemma TopByte(bytes: seq<Byte>, m: int)
    requires |bytes| == 4 && 0x8000_0000 <= m < 0x1_0000_0000
    requires bytes == [m / 0x100_0000, m / 0x1_0000 % 256, m / 256 % 256, m % 256]
    ensures bytes[0] >= 128
  {
  }

  /** What is read is what was written, exactly for the rates from 1 to 2^30 - 1. */
  lemma {:induction false} RateRoundTrip(num: nat, before: seq<Byte>)
    requires |before| == 10
    ensures Rate(Extended(num, before)) == num <==> 1 <= num < 0x4000_0000
    ensures num == 0 ==> Rate(Extended(num, before)) == 1
    ensures num >= 0x4000_0000 ==> Rate(Extended(num, before)) == 800000000
  {
    hide BitLength, Pow2, BigEndian;
    if 2 <= num < TOO_BIG { MiddleBack(num, before); }
  }

  lemma MiddleBack(num: nat, before: seq<Byte>)
    requires |before| == 10 && 2 <= num < TOO_BIG
    ensures Rate(Extended(num, before)) == num
  {
    hide BitLength, Pow2, BigEndian, Rate;
    LeadingBit(num);
    var top := BitLength(num) - 1;
    var m := num * Pow2(31 - top);
    Pow2Table();
    RateOf(Extended(num, before), m);
    HalfScaled(num, 30 - top);
  }

  lemma RateOf(r: seq<Byte>, m: nat)
    requires |r| == 10 && m < 0x1_0000_0000 && r[0] == 0x40 && r[1] <= 0x1C && r[2..6] == BigEndian(m, 4)
    ensures Rate(r) == m / 2 / Pow2(29 - r[1])
  {
    hide Pow2, BigEndian;
    Bytes4(m);
    Halved(m);
    assert r[2] == r[2..6][0] && r[3] == r[2..6][1] && r[4] == r[2..6][2] && r[5] == r[2..6][3];
  }

  lemma HalfScaled(num: nat, k: nat)
    ensures num * Pow2(k + 1) / 2 / Pow2(k) == num
  {
    Pow2Double(k);
    MulAssoc(num, 2, Pow2(k));
    DivUnique(num * Pow2(k), Pow2(k), num, 0);
  }

  lemma Pow2Double(k: nat)
    ensures Pow2(k + 1) == 2 * Pow2(k)
  {
  }

  lemma Halved(m: nat)
    ensures m / 0x100_0000 * 0x80_0000 + m / 0x1_0000 % 256 * 0x8000 + m / 256 % 256 * 0x80 + m % 256 / 2 == m / 2
  {
    var a := m / 256;
    var b := a / 256;
    assert m / 0x1_0000 == b && m / 0x100_0000 == b / 256;
  }

  /** uint2tenbytefloat: the mask walks down to the highest bit. */
  method Put(num: nat, bytes: array<Byte>)
    requires bytes.Length == 10 && num < 0x1_0000_0000
    modifies bytes
    ensures bytes[..] == Extended(num, old(bytes[..]))
  {
    hide Extended, BitLength, Pow2, BigEndian;
    ghost var before := bytes[..];
    if num <= 1 {
      bytes[0], bytes[1], bytes[2] := 0x3F, 0xFF, 0x80;
      SmallForm(num, before, bytes[..]);
      return;
    }
    bytes[0] := 0x40;
    var mask := TOO_BIG;
    if num >= mask {
      bytes[1] := 0x1D;
      BigForm(num, before, bytes[..]);
      return;
    }
    LeadingBit(num);
    var count := FirstBit(num, mask);
    var shifted := num * Pow2(count + 1);
    Pow2Table();
    Bytes4(shifted);
    bytes[1] := 29 - count;
    bytes[2], bytes[3], bytes[4], bytes[5] :=
      shifted / 0x100_0000 % 256, shifted / 0x1_0000 % 256, shifted / 256 % 256, shifted % 256;
    MiddleForm(num, before, bytes[..]);
  }

  /** The search loop: `num & mask` for a mask that is halved each turn. */
  method FirstBit(num: nat, mask0: nat) returns (count: nat)
    requires 2 <= num < TOO_BIG && mask0 == TOO_BIG
    ensures count == 31 - BitLength(num)
  {
    hide BitLength, Pow2;
    var mask := mask0;
    count := 0;
    TopMask();
    LeadingBit(num);
    while count < 32
      invariant count <= 30 && mask == Pow2(30 - count) && num < 2 * mask
    {
      if num / mask % 2 == 1 {
        break;
      }
      HalfMask(num, 30 - count);
      mask := mask / 2;
      count := count + 1;
    }
    TopUnique(num, 30 - count);
  }

  lemma TopMask()
    ensures Pow2(30) == TOO_BIG
  {
    Pow2Table();
  }

  /** Where the bit under the mask is not set, the next mask is half of it. */
  lemma HalfMask(num: nat, k: nat)
    requires 2 <= num < 2 * Pow2(k) && num / Pow2(k) % 2 != 1
    ensures k > 0 && Pow2(k) == 2 * Pow2(k - 1) && num < Pow2(k)
  {
    var mask := Pow2(k);
    DivUnique(num, mask, if num < mask then 0 else 1, if num < mask then num else num - mask);
  }

  lemma TopUnique(num: nat, k: nat)
    requires num < 2 * Pow2(k) && num / Pow2(k) % 2 == 1
    ensures BitLength(num) == k + 1
  {
    assert num >= Pow2(k) by { if num < Pow2(k) { DivUnique(num, Pow2(k), 0, num); } }
    BitLengthRange(num);
    BitLengthBound(num, k + 1);
    if BitLength(num) <= k { Pow2Mono(BitLength(num), k); }
  }

  lemma SmallForm(num: nat, before: seq<Byte>, after: seq<Byte>)
    requires |before| == 10 && num <= 1 && after == before[0 := 0x3F][1 := 0xFF][2 := 0x80]
    ensures after == Extended(num, before)
  {
  }

  lemma BigForm(num: nat, before: seq<Byte>, after: seq<Byte>)
    requires |before| == 10 && num >= TOO_BIG && after == before[0 := 0x40][1 := 0x1D]
    ensures after == Extended(num, before)
  {
  }

  lemma MiddleForm(num: nat, before: seq<Byte>, after: seq<Byte>)
    requires |before| == 10 == |after| && 2 <= num < TOO_BIG && after[6..] == before[6..]
    requires var top := BitLength(num) - 1;
             top >= 1 && top <= 31 && after[..2] == [0x40, top - 1] && after[2..6] == BigEndian(num * Pow2(31 - top), 4)
    ensures after == Extended(num, before)
  {
    assert after == after[..2] + after[2..6] + after[6..];
  }

  /** What other writers may have left there: a negative number, one below 1, and one beyond 2^257. */
  lemma OddRates(bytes: seq<Byte>)
    requires |bytes| == 10
    ensures bytes[0] >= 128 ==> Rate(bytes) == 0
    ensures bytes[0] < 0x40 ==> Rate(bytes) == 1
    ensures 0x40 < bytes[0] < 128 ==> Rate(bytes) == 67108864
  {
  }

  /** The rate of a compact disc. */
  lemma {:induction false} CompactDisc(before: seq<Byte>)
    requires |before| == 10
    ensures Extended(44100, before) == [0x40, 0x0E, 0xAC, 0x44, 0, 0] + before[6..]
  {
    hide BigEndian, BitLength;
    assert Pow2(8) == 256;
    Pow2Add(8, 8);
    assert Pow2(16) == 2 * Pow2(15);
    BitLengthBound(44100, 16);
    BitLengthRange(44100);
    if BitLength(44100) < 16 { Pow2Mono(BitLength(44100), 15); }
    Bytes4(0xAC44_0000);
  }
}
