/** 32-bit words, bytes, and the order of a word's bytes in memory. */
module Words {

  type word = x: int | 0 <= x < 0x1_0000_0000
  type byte = x: int | 0 <= x < 0x100

  /** The value kept by a uint32_t. */
  function Wrap(x: int): word {
    x % 0x1_0000_0000
  }

  function Plus(x: int, y: int): word {
    Wrap(x + y)
  }

  function Minus(x: int, y: int): word {
    Wrap(x - y)
  }

  function Negate(x: int): word {
    Wrap(-x)
  }

  /** Bit i of x, as (x >> i) & 1. */
  predicate Bit(x: nat, i: nat) {
    if i == 0 then x % 2 == 1 else Bit(x / 2, i - 1)
  }

  /** The lowest eight bits, by division. */
  lemma {:induction false} LowBit(x: nat, i: nat)
    requires i <= 7
    ensures Bit(x, i) == (x / [1, 2, 4, 8, 16, 32, 64, 128][i] % 2 == 1)
    decreases i
  {
    if i > 0 {
      LowBit(x / 2, i - 1);
      assert [1, 2, 4, 8, 16, 32, 64, 128][i] == 2 * [1, 2, 4, 8, 16, 32, 64, 128][i - 1];
    }
  }

  function Pow2(n: nat): (p: nat)
    ensures p > 0
  {
    if n == 0 then 1 else 2 * Pow2(n - 1)
  }

  lemma DivisionIsUnique(v: nat, d: nat, x: nat, r: nat)
    requires v == x * d + r && r < d
    ensures v / d == x && v % d == r
  {
    var y := v / d - x;
    assert y * d == r - v % d;
    SmallMultiple(y, d, r - v % d);
  }

  lemma SmallMultiple(y: int, d: nat, z: int)
    requires y * d == z && z < d && 0 < z + d
    ensures y == 0
  {
  }

  /** Bit i is the digit of weight 2^i. */
  lemma {:induction false} BitIsDigit(x: nat, i: nat)
    ensures Bit(x, i) <==> x / Pow2(i) % 2 == 1
    decreases i
  {
    if i > 0 {
      BitIsDigit(x / 2, i - 1);
      HalveFirst(x, Pow2(i - 1));
    }
  }

  lemma HalveFirst(x: nat, p: nat)
    requires p > 0
    ensures x / (2 * p) == x / 2 / p
  {
    var y := x / 2;
    var q, r := y / p, y % p;
    assert y == q * p + r;
    assert x == q * (2 * p) + (2 * r + x % 2);
    DivisionIsUnique(x, 2 * p, q, 2 * r + x % 2);
  }

  /** The bits of two fields side by side. */
  lemma {:induction false} BitSplit(hi: nat, lo: nat, w: nat, i: nat)
    requires lo < Pow2(w)
    ensures Bit(hi * Pow2(w) + lo, i) == if i < w then Bit(lo, i) else Bit(hi, i - w)
    decreases w
  {
    if w > 0 {
      var p := Pow2(w - 1);
      assert hi * Pow2(w) == 2 * (hi * p);
      if i > 0 {
        assert (hi * Pow2(w) + lo) / 2 == hi * p + lo / 2;
        BitSplit(hi, lo / 2, w - 1, i - 1);
      }
    }
  }

  /** The lowest bit of the upper field. */
  lemma FieldBit(ins: nat, hi: nat, lo: nat, w: nat)
    requires ins == hi * Pow2(w) + lo && lo < Pow2(w)
    ensures Bit(ins, w) == (hi % 2 == 1)
  {
    BitSplit(hi, lo, w, w);
  }

  lemma PowersOf16()
    ensures Pow2(12) == 0x1000 && Pow2(16) == 0x1_0000 && Pow2(20) == 0x10_0000
  {
    assert Pow2(4) == 0x10 && Pow2(8) == 0x10 * Pow2(4) && Pow2(12) == 0x10 * Pow2(8);
    assert Pow2(16) == 0x10 * Pow2(12) && Pow2(20) == 0x10 * Pow2(16);
  }

  /** Bit 20 + i of an instruction whose bits 31 .. 20 are hi. */
  lemma HighBit(ins: nat, hi: nat, lo: nat, i: nat)
    requires ins == hi * 0x10_0000 + lo && lo < 0x10_0000
    ensures Bit(ins, 20 + i) == Bit(hi, i)
  {
    PowersOf16();
    BitSplit(hi, lo, 20, 20 + i);
  }

  /** Bits 20 .. 26 of an instruction whose bits 31 .. 20 are hi. */
  lemma HighBits(ins: nat, hi: nat, lo: nat)
    requires ins == hi * 0x10_0000 + lo && lo < 0x10_0000
    ensures Bit(ins, 20) == Bit(hi, 0) && Bit(ins, 21) == Bit(hi, 1) && Bit(ins, 22) == Bit(hi, 2)
    ensures Bit(ins, 23) == Bit(hi, 3) && Bit(ins, 24) == Bit(hi, 4)
    ensures Bit(ins, 25) == Bit(hi, 5) && Bit(ins, 26) == Bit(hi, 6)
  {
    HighBit(ins, hi, lo, 0);
    HighBit(ins, hi, lo, 1);
    HighBit(ins, hi, lo, 2);
    HighBit(ins, hi, lo, 3);
    HighBit(ins, hi, lo, 4);
    HighBit(ins, hi, lo, 5);
    HighBit(ins, hi, lo, 6);
  }

  /** x << i, before truncation. */
  function Shl(x: nat, i: nat): nat {
    x * Pow2(i)
  }

  /** The four bytes of v at ascending addresses. */
  function Bytes(big: bool, v: word): (b: seq<byte>)
    ensures |b| == 4
  {
    var b3, b2, b1, b0 := v / 0x100_0000, v / 0x1_0000 % 0x100, v / 0x100 % 0x100, v % 0x100;
    if big then [b3, b2, b1, b0] else [b0, b1, b2, b3]
  }

  /** The word whose bytes at ascending addresses are b0 .. b3. */
  function FromBytes(big: bool, b0: byte, b1: byte, b2: byte, b3: byte): word {
    if big then b0 * 0x100_0000 + b1 * 0x1_0000 + b2 * 0x100 + b3
    else b3 * 0x100_0000 + b2 * 0x1_0000 + b1 * 0x100 + b0
  }

  function HalfFromBytes(big: bool, b0: byte, b1: byte): (h: word)
    ensures h < 0x1_0000
  {
    if big then b0 * 0x100 + b1 else b1 * 0x100 + b0
  }

  lemma BytesRoundTrip(big: bool, v: word)
    ensures var b := Bytes(big, v); FromBytes(big, b[0], b[1], b[2], b[3]) == v
  {
    assert v / 0x100 == v / 0x1_0000 * 0x100 + v / 0x100 % 0x100;
    assert v / 0x1_0000 == v / 0x100_0000 * 0x100 + v / 0x1_0000 % 0x100;
  }

  /** The base-256 digits of a word. */
  lemma Digits(d3: byte, d2: byte, d1: byte, d0: byte)
    ensures var v := d3 * 0x100_0000 + d2 * 0x1_0000 + d1 * 0x100 + d0;
            v / 0x100_0000 == d3 && v / 0x1_0000 % 0x100 == d2 && v / 0x100 % 0x100 == d1 && v % 0x100 == d0
  {
    var v := d3 * 0x100_0000 + d2 * 0x1_0000 + d1 * 0x100 + d0;
    assert v / 0x100 == d3 * 0x1_0000 + d2 * 0x100 + d1;
    assert v / 0x1_0000 == d3 * 0x100 + d2;
  }

  lemma FromBytesRoundTrip(big: bool, b0: byte, b1: byte, b2: byte, b3: byte)
    ensures Bytes(big, FromBytes(big, b0, b1, b2, b3)) == [b0, b1, b2, b3]
  {
    if big {
      Digits(b0, b1, b2, b3);
    } else {
      Digits(b3, b2, b1, b0);
    }
  }

  /** Truncating part of a sum early changes nothing. */
  lemma WrapAdd(x: int, y: int)
    ensures Wrap(Wrap(x) + y) == Wrap(x + y)
  {
  }

  lemma WrapMultiple(m: int, x: int)
    ensures Wrap(m * 0x1_0000_0000 + x) == Wrap(x)
  {
  }

  lemma WrapNegate(x: int)
    ensures Negate(Wrap(x)) == Negate(x)
  {
    var q := x / 0x1_0000_0000;
    assert x == q * 0x1_0000_0000 + Wrap(x);
    WrapMultiple(q, -x);
  }

  /** A step and the step back, with anything y on top. */
  lemma WrapBack(a: word, x: int, y: int)
    ensures Wrap(Wrap(a + x) - x + y) == Wrap(a + y)
    ensures Wrap(Wrap(a + x) - x) == a
  {
    WrapAdd(a + x, -x + y);
    WrapAdd(a + x, -x);
  }

  /** Truncated values of numbers less than 2^32 apart differ. */
  lemma WrapDistinct(x: int, y: int)
    requires x < y < x + 0x1_0000_0000
    ensures Wrap(x) != Wrap(y)
  {
  }
}
