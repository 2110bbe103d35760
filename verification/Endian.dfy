/** Integers as bytes in either order: the header_put functions, psf_put and psf_get. */
module Endian {
  import opened Bits

  /** The low `count` bytes of `x`, high byte first. */
  function BigEndian(x: int, count: nat): (r: seq<Byte>)
    ensures |r| == count
    decreases count, x
  {
    if count == 0 then [] else BigEndian(x / 256, count - 1) + [x % 256]
  }

  /** The low `count` bytes of `x`, low byte first. */
  function LittleEndian(x: int, count: nat): (r: seq<Byte>)
    ensures |r| == count
    decreases count, x
  {
    if count == 0 then [] else [x % 256] + LittleEndian(x / 256, count - 1)
  }

  function FromBig(bs: seq<Byte>): (v: nat)
  {
    if bs == [] then 0 else 256 * FromBig(bs[..|bs| - 1]) + bs[|bs| - 1]
  }

  function FromLittle(bs: seq<Byte>): (v: nat)
  {
    if bs == [] then 0 else bs[0] + 256 * FromLittle(bs[1..])
  }

  /** The values `count` bytes can hold. */
  function Pow256(count: nat): (p: int)
    ensures p >= 1
  {
    if count == 0 then 1 else 256 * Pow256(count - 1)
  }

  lemma Mod256(x: int, p: int)
    requires p > 0
    ensures x % (256 * p) == 256 * (x / 256 % p) + x % 256
  {
    var h := x / 256;
    assert h == p * (h / p) + h % p;
    assert (256 * p) * (h / p) == 256 * (p * (h / p));
    DivUnique(x, 256 * p, h / p, 256 * (h % p) + x % 256);
  }

  lemma {:induction false} BigEndianBack(x: int, count: nat)
    ensures FromBig(BigEndian(x, count)) == x % Pow256(count)
    decreases count
  {
    if count > 0 {
      BigEndianBack(x / 256, count - 1);
      Mod256(x, Pow256(count - 1));
      assert BigEndian(x, count)[..count - 1] == BigEndian(x / 256, count - 1);
    }
  }

  lemma {:induction false} LittleEndianBack(x: int, count: nat)
    ensures FromLittle(LittleEndian(x, count)) == x % Pow256(count)
    decreases count
  {
    if count > 0 {
      LittleEndianBack(x / 256, count - 1);
      Mod256(x, Pow256(count - 1));
      assert LittleEndian(x, count)[1..] == LittleEndian(x / 256, count - 1);
    }
  }

  /** Bytes are the big-endian form of the number they make. */
  lemma {:induction false} FromBigBack(bs: seq<Byte>)
    ensures BigEndian(FromBig(bs), |bs|) == bs
  {
    if bs != [] {
      var high: nat, low: int := FromBig(bs[..|bs| - 1]), bs[|bs| - 1];
      assert (256 * high + low) / 256 == high && (256 * high + low) % 256 == low;
      FromBigBack(bs[..|bs| - 1]);
    }
  }

  /** The first byte of the big-endian form is the highest. */
  lemma {:induction false} BigEndianFirst(x: int, count: nat)
    requires count > 0
    ensures BigEndian(x, count) == [x / Pow256(count - 1) % 256] + BigEndian(x, count - 1)
    decreases count
  {
    if count > 1 {
      BigEndianFirst(x / 256, count - 1);
      DivDiv256(x, Pow256(count - 2));
    }
  }

  /** Two numbers side by side. */
  lemma {:induction false} BigEndianJoin(high: int, low: nat, count: nat)
    requires low < Pow256(count)
    ensures BigEndian(high * Pow256(count) + low, 4 + count) == BigEndian(high, 4) + BigEndian(low, count)
    decreases count
  {
    if count == 0 {
      assert high * 1 + low == high;
      EmptyLast(BigEndian(high, 4), BigEndian(low, 0));
    } else {
      var p := Pow256(count - 1);
      var h := high * p;
      assert high * Pow256(count) == 256 * h;
      assert (256 * h + low) / 256 == h + low / 256 && (256 * h + low) % 256 == low % 256;
      BigEndianJoin(high, low / 256, count - 1);
      ConcatAssoc(BigEndian(high, 4), BigEndian(low / 256, count - 1), [low % 256]);
    }
  }

  lemma DivDiv256(x: int, p: int)
    requires p > 0
    ensures x / 256 / p == x / (256 * p)
  {
    var h := x / 256;
    assert h == p * (h / p) + h % p;
    assert (256 * p) * (h / p) == 256 * (p * (h / p));
    DivUnique(x, 256 * p, h / p, 256 * (h % p) + x % 256);
  }

  /** The two orders are reversals of each other. */
  lemma {:induction false} EndianReversed(x: int, count: nat, k: nat)
    requires k < count
    ensures BigEndian(x, count)[k] == LittleEndian(x, count)[count - 1 - k]
    decreases count
  {
    if k < count - 1 { EndianReversed(x / 256, count - 1, k); }
  }

  /** Byte `k` from the low end is the digit of weight 256^k. */
  lemma {:induction false} EndianDigits(x: int, count: nat, k: nat)
    requires k < count
    ensures LittleEndian(x, count)[k] == x / Pow256(k) % 256
    ensures BigEndian(x, count)[count - 1 - k] == x / Pow256(k) % 256
    decreases count
  {
    if k > 0 {
      EndianDigits(x / 256, count - 1, k - 1);
      DivDiv256(x, Pow256(k - 1));
    }
  }

  /** And counts that much in what is read. */
  lemma {:induction false} FromEndianDigits(bs: seq<Byte>, b: Byte)
    ensures FromBig([b] + bs) == b * Pow256(|bs|) + FromBig(bs)
    ensures FromLittle(bs + [b]) == b * Pow256(|bs|) + FromLittle(bs)
  {
    BigFirst(bs, b);
    LittleLast(bs, b);
  }

  lemma {:induction false} BigFirst(bs: seq<Byte>, b: Byte)
    ensures FromBig([b] + bs) == b * Pow256(|bs|) + FromBig(bs)
  {
    var all := [b] + bs;
    if bs == [] {
      assert all[..0] == [];
    } else {
      assert all[..|all| - 1] == [b] + bs[..|bs| - 1];
      BigFirst(bs[..|bs| - 1], b);
    }
  }

  lemma {:induction false} LittleLast(bs: seq<Byte>, b: Byte)
    ensures FromLittle(bs + [b]) == b * Pow256(|bs|) + FromLittle(bs)
  {
    var all := bs + [b];
    if bs == [] {
      assert all[1..] == [];
    } else {
      assert all[1..] == bs[1..] + [b];
      LittleLast(bs[1..], b);
    }
  }

  /** Four bytes spelled out. */
  lemma Bytes4(m: nat)
    requires m < 0x1_0000_0000
    ensures BigEndian(m, 4) == [m / 0x100_0000, m / 0x1_0000 % 256, m / 256 % 256, m % 256] && m % Pow256(4) == m
  {
    assert Pow256(2) == 0x1_0000;
    assert Pow256(4) == 0x1_0000_0000;
    var a := m / 256;
    var b := a / 256;
    assert m / 0x1_0000 == b && m / 0x100_0000 == b / 256;
    assert BigEndian(b, 2) == [b / 256, b % 256] by {
      assert BigEndian(b / 256, 1) == [b / 256];
    }
    assert BigEndian(a, 3) == BigEndian(b, 2) + [a % 256];
    assert BigEndian(m, 4) == BigEndian(a, 3) + [m % 256];
  }

  lemma LittleFour(m: nat)
    ensures LittleEndian(m, 4) == [m % 256, m / 256 % 256, m / 256 / 256 % 256, m / 256 / 256 / 256 % 256]
  {
    var a := m / 256;
    var b := a / 256;
    assert LittleEndian(b / 256, 1) == [b / 256 % 256];
    assert LittleEndian(b, 2) == [b % 256] + LittleEndian(b / 256, 1);
    assert LittleEndian(a, 3) == [a % 256] + LittleEndian(b, 2);
  }

  /** Four digits put together and taken apart. */
  lemma Digits4(a: Byte, b: Byte, c: Byte, d: Byte)
    ensures BigEndian(256 * (256 * (256 * a + b) + c) + d, 4) == [a, b, c, d]
  {
    var x, y, z: int := 256 * a + b, 256 * (256 * a + b) + c, 256 * (256 * (256 * a + b) + c) + d;
    assert z / 256 == y && z % 256 == d && y / 256 == x && y % 256 == c && x / 256 == a && x % 256 == b;
    assert BigEndian(a, 1) == [a];
    assert BigEndian(x, 2) == [a, b];
    assert BigEndian(y, 3) == [a, b, c];
  }

  /** A store to a 64-bit signed integer. */
  function Int64(x: int): (r: int)
    ensures -0x8000_0000_0000_0000 <= r < 0x8000_0000_0000_0000
  {
    (x + 0x8000_0000_0000_0000) % 0x1_0000_0000_0000_0000 - 0x8000_0000_0000_0000
  }
}
