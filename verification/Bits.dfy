/** Bit strings, most significant bit first, and the integer operations of the C code
    (shifts, masks, truncating division, 32-bit and 16-bit stores) stated over `int`. */
module Bits {

  type Bit = bool
  type Byte = b: int | 0 <= b < 256

  function Pow2(n: nat): (p: int)
    ensures p >= 1
  {
    if n == 0 then 1 else 2 * Pow2(n - 1)
  }

  /** The low `n` bits of the two's complement form of `x`. */
  function ToBits(x: int, n: nat): (bs: seq<Bit>)
    ensures |bs| == n
    decreases n, x
  {
    if n == 0 then [] else ToBits(x / 2, n - 1) + [x % 2 == 1]
  }

  function FromBits(bs: seq<Bit>): (v: nat)
  {
    if bs == [] then 0 else 2 * FromBits(bs[..|bs| - 1]) + (if bs[|bs| - 1] then 1 else 0)
  }

  function BytesToBits(bs: seq<Byte>): (r: seq<Bit>)
    ensures |r| == 8 * |bs|
  {
    if bs == [] then [] else ToBits(bs[0], 8) + BytesToBits(bs[1..])
  }

  function Zeros(n: nat): (z: seq<Bit>)
    ensures |z| == n && forall i :: 0 <= i < n ==> !z[i]
  {
    seq(n, _ => false)
  }

  /** C's remainder: the sign follows the dividend. */
  function CRem(a: int, b: int): int
    requires b > 0
  {
    if a >= 0 then a % b else -((-a) % b)
  }

  /** C's quotient, rounded toward zero. */
  function CDiv(a: int, b: int): int
    requires b > 0
  {
    if a >= 0 then a / b else -((-a) / b)
  }

  /** Quotient and remainder go together: the quotient is never larger in size than the exact one. */
  lemma {:induction false} CDivision(a: int, b: int)
    requires b > 0
    ensures a == b * CDiv(a, b) + CRem(a, b) && Abs(CRem(a, b)) < b
    ensures (a >= 0 ==> CRem(a, b) >= 0) && (a <= 0 ==> CRem(a, b) <= 0)
  {
    if a < 0 { assert -a == b * (-a / b) + -a % b; }
  }

  function Abs(x: int): (r: nat) { if x < 0 then -x else x }

  /** A store to a 32-bit signed integer. */
  function Int32(x: int): (r: int)
    ensures -0x8000_0000 <= r < 0x8000_0000
  {
    (x + 0x8000_0000) % 0x1_0000_0000 - 0x8000_0000
  }

  /** A store to a 16-bit signed integer. */
  function Int16(x: int): (r: int)
    ensures -0x8000 <= r < 0x8000
  {
    (x + 0x8000) % 0x1_0000 - 0x8000
  }

  /** Stores change a value by whole turns of the type. */
  lemma StoresWrap(x: int)
    ensures (Int32(x) - x) % 0x1_0000_0000 == 0 && (Int16(x) - x) % 0x1_0000 == 0
    ensures (IsInt32(x) ==> Int32(x) == x) && (IsInt16(x) ==> Int16(x) == x)
  {
    WrapTurns(x, 0x8000_0000);
    WrapTurns(x, 0x8000);
  }

  lemma WrapTurns(x: int, h: int)
    requires h > 0
    ensures ((x + h) % (2 * h) - h - x) % (2 * h) == 0 && (-h <= x < h ==> (x + h) % (2 * h) - h == x)
  {
    var m := 2 * h;
    var q, r := (x + h) / m, (x + h) % m;
    assert x + h == m * q + r;
    assert m * -q == -(m * q);
    DivUnique(r - h - x, m, -q, 0);
    if -h <= x < h { DivUnique(x + h, m, 0, x + h); }
  }

  /** Two bytes, low first, read as a signed 16-bit value. */
  function Word16(lo: int, hi: int): (r: int)
    ensures IsInt16(r)
  {
    Int16(lo + 256 * hi)
  }

  lemma Word16Bytes(x: int)
    requires IsInt16(x)
    ensures Word16(x % 256, x / 256 % 256) == x
  {
    var q := x / 256;
    assert q % 256 == if q < 0 then q + 256 else q;
  }

  predicate IsInt32(x: int) { -0x8000_0000 <= x < 0x8000_0000 }

  predicate IsInt16(x: int) { -0x8000 <= x < 0x8000 }

  /** `arith_shift_left` (src/shift.h): shift the 32-bit pattern, drop what leaves it. */
  function ShiftLeft(x: int, n: nat): int { Int32(x * Pow2(n)) }

  /** `x >> n` on a signed integer: the floor of x / 2^n. */
  function ShiftRight(x: int, n: nat): int { x / Pow2(n) }

  lemma {:induction false} DivDiv(x: int, p: int)
    requires p > 0
    ensures x / (2 * p) == (x / 2) / p
  {
    var q := (x / 2) / p;
    var r := (x / 2) % p;
    assert x == 2 * (p * q + r) + x % 2;
    assert x == (2 * p) * q + (2 * r + x % 2);
    DivUnique(x, 2 * p, q, 2 * r + x % 2);
  }

  lemma {:induction false} DivUnique(x: int, d: int, q: int, r: int)
    requires d > 0 && 0 <= r < d && x == d * q + r
    ensures x / d == q && x % d == r
  {
    var k := x / d - q;
    assert d * k == r - x % d by {
      assert x == d * (x / d) + x % d;
      assert d * (x / d) - d * q == d * k;
    }
    assert -d < d * k < d;
    assert k == 0;
  }

  lemma {:induction false} Pow2Add(a: nat, b: nat)
    ensures Pow2(a + b) == Pow2(a) * Pow2(b)
  {
    if a != 0 {
      Pow2Add(a - 1, b);
      MulAssoc(2, Pow2(a - 1), Pow2(b));
    }
  }

  lemma {:induction false} Pow2Mono(a: nat, b: nat)
    requires a <= b
    ensures Pow2(a) <= Pow2(b)
  {
    if a < b { Pow2Mono(a, b - 1); }
  }

  /** Bits split where a shift splits them. */
  lemma {:induction false} ToBitsSplit(x: int, n: nat, k: nat)
    ensures ToBits(x, n + k) == ToBits(x / Pow2(k), n) + ToBits(x, k)
    decreases k
  {
    if k == 0 {
      assert ToBits(x, 0) == [];
    } else {
      ToBitsSplit(x / 2, n, k - 1);
      DivDiv(x, Pow2(k - 1));
      assert ToBits(x, n + k) == ToBits(x / 2, n + k - 1) + [x % 2 == 1];
      assert ToBits(x, k) == ToBits(x / 2, k - 1) + [x % 2 == 1];
    }
  }

  /** Only the residue modulo 2^n matters to the low n bits. */
  lemma {:induction false} ToBitsMod(x: int, c: int, n: nat)
    ensures ToBits(x + c * Pow2(n), n) == ToBits(x, n)
    decreases n
  {
    if n != 0 {
      var y := x + c * Pow2(n);
      assert c * Pow2(n) == 2 * (c * Pow2(n - 1));
      assert y / 2 == x / 2 + c * Pow2(n - 1) && y % 2 == x % 2;
      ToBitsMod(x / 2, c, n - 1);
    }
  }

  lemma {:induction false} ToBitsResidue(x: int, n: nat)
    ensures ToBits(x % Pow2(n), n) == ToBits(x, n)
  {
    var p := Pow2(n);
    assert x == x % p + (x / p) * p;
    ToBitsMod(x % p, x / p, n);
  }

  /** A store to 32 bits keeps the low 32 bits, whatever is then added below. */
  lemma {:induction false} ToBitsInt32(x: int, r: int, n: nat)
    requires n <= 32
    ensures ToBits(Int32(x) + r, n) == ToBits(x + r, n)
  {
    var c := -((x + 0x8000_0000) / 0x1_0000_0000);
    assert Int32(x) == x + c * 0x1_0000_0000;
    Pow2Table();
    Pow2Add(32 - n, n);
    MulAssoc(c, Pow2(32 - n), Pow2(n));
    ToBitsMod(x + r, c * Pow2(32 - n), n);
  }

  /** Shifting a reservoir of `count` bits left by `n` and filling in the low `n` bits of `d`
      appends them. */
  lemma {:induction false} ShiftInBits(b: int, count: nat, d: int, n: nat)
    requires count + n <= 32
    ensures ToBits(ShiftLeft(b, n) + d % Pow2(n), count + n) == ToBits(b, count) + ToBits(d, n)
  {
    var p, r := Pow2(n), d % Pow2(n);
    ToBitsInt32(b * p, r, count + n);
    ToBitsSplit(b * p + r, count, n);
    DivUnique(b * p + r, p, b, r);
    ToBitsResidue(b * p + r, n);
    ToBitsResidue(d, n);
  }

  /** The top `n` of `count` bits, as C's shift and mask read them. */
  lemma {:induction false} TopField(b: int, count: nat, n: nat)
    requires n <= count
    ensures var bs := ToBits(b, count);
            FromBits(bs[..n]) == ShiftRight(b, count - n) % Pow2(n)
            && bs[n..] == ToBits(b, count - n)
            && bs[..n] == ToBits(ShiftRight(b, count - n), n)
  {
    ToBitsSplit(b, n, count - n);
    FromToBits(ShiftRight(b, count - n), n);
  }

  /** HIGHEST_BIT: the number of shifts that empty `x`. */
  function BitLength(x: nat): nat
  {
    if x == 0 then 0 else 1 + BitLength(x / 2)
  }

  lemma {:induction false} BitLengthRange(x: nat)
    ensures x > 0 ==> BitLength(x) > 0 && Pow2(BitLength(x) - 1) <= x
    ensures x < Pow2(BitLength(x))
  {
    if x > 1 { BitLengthRange(x / 2); }
  }

  lemma {:induction false} BitLengthBound(x: nat, n: nat)
    requires x < Pow2(n)
    ensures BitLength(x) <= n
  {
    BitLengthRange(x);
    if BitLength(x) > n { Pow2Mono(n, BitLength(x) - 1); }
  }

  lemma ConcatAssoc<T>(a: seq<T>, b: seq<T>, c: seq<T>)
    ensures (a + b) + c == a + (b + c)
  {}

  lemma PrefixSuffix<T>(a: seq<T>, b: seq<T>)
    ensures (a + b)[..|a|] == a && (a + b)[|a|..] == b
  {}

  lemma EmptyFirst<T>(a: seq<T>, b: seq<T>)
    ensures a == [] ==> a + b == b
  {}

  lemma EmptyLast<T>(a: seq<T>, b: seq<T>)
    ensures b == [] ==> a + b == a
  {}

  lemma ConsSplit<T>(s: seq<T>)
    requires s != []
    ensures [s[0]] + s[1..] == s
  {}

  lemma MulAssoc(a: int, b: int, c: int)
    ensures a * (b * c) == (a * b) * c
  {}

  lemma Pow2Table()
    ensures Pow2(3) == 8 && Pow2(8) == 256 && Pow2(16) == 0x1_0000
    ensures Pow2(24) == 0x100_0000 && Pow2(31) == 0x8000_0000 && Pow2(32) == 0x1_0000_0000
  {
    assert Pow2(4) == 16;
    assert Pow2(8) == 256;
    Pow2Add(8, 8); Pow2Add(16, 8); Pow2Add(16, 16);
  }

  lemma {:induction false} FromToBits(x: int, n: nat)
    ensures FromBits(ToBits(x, n)) == x % Pow2(n)
    decreases n
  {
    if n != 0 {
      assert ToBits(x, n)[..n - 1] == ToBits(x / 2, n - 1);
      FromToBits(x / 2, n - 1);
      ModDouble(x, Pow2(n - 1));
    }
  }

  lemma MulLess(a: int, b: int, x: int)
    requires x > 0
    ensures a < b ==> a * x + x <= b * x
    decreases b - a
  {
    if a < b {
      assert b * x == (b - 1) * x + x;
      MulLess(a, b - 1, x);
    }
  }

  lemma {:induction false} ModDouble(x: int, p: int)
    requires p > 0
    ensures x % (2 * p) == 2 * ((x / 2) % p) + x % 2
  {
    var h := x / 2;
    var q, r := h / p, h % p;
    assert h == p * q + r;
    assert (2 * p) * q == 2 * (p * q);
    DivUnique(x, 2 * p, q, 2 * r + x % 2);
  }

  lemma {:induction false} ToFromBits(bs: seq<Bit>)
    ensures ToBits(FromBits(bs), |bs|) == bs
    ensures FromBits(bs) < Pow2(|bs|)
  {
    if bs != [] {
      ToFromBits(bs[..|bs| - 1]);
      assert bs == bs[..|bs| - 1] + [bs[|bs| - 1]];
    }
  }

  lemma {:induction false} BytesToBitsConcat(a: seq<Byte>, b: seq<Byte>)
    ensures BytesToBits(a + b) == BytesToBits(a) + BytesToBits(b)
  {
    if a == [] {
      assert a + b == b;
    } else {
      assert (a + b)[1..] == a[1..] + b;
      BytesToBitsConcat(a[1..], b);
    }
  }

  lemma {:induction false} BytesToBitsOne(b: Byte)
    ensures BytesToBits([b]) == ToBits(b, 8)
  {
    assert [b][1..] == [];
  }
}
