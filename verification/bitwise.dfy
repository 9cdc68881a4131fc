/** Bytes as integers in 0..255 and Go's bitwise AND on them, with bits numbered both from the
    least significant end (`LowBit`) and from the most significant end (`Bit`, the numbering of the
    prefix notation in section 2.3 of RFC 4291). */
module Bitwise {
  type Byte = x: int | 0 <= x < 256

  function Pow2(n: nat): (p: nat)
    ensures p >= 1
  {
    if n == 0 then 1 else 2 * Pow2(n - 1)
  }

  /** Bit `i` of `x`, 0 being the least significant. */
  predicate LowBit(x: nat, i: nat)
  {
    if i == 0 then x % 2 == 1 else LowBit(x / 2, i - 1)
  }

  /** Bit `j` of a byte, 0 being the most significant. */
  predicate Bit(x: Byte, j: nat)
    requires j < 8
  {
    LowBit(x, 7 - j)
  }

  /** Go's `x & y` on non-negative integers. */
  function And(x: nat, y: nat): nat
  {
    if x == 0 || y == 0 then 0 else 2 * And(x / 2, y / 2) + (if x % 2 == 1 && y % 2 == 1 then 1 else 0)
  }

  /** `And` works bit by bit. */
  lemma {:induction false} AndBit(x: nat, y: nat, i: nat)
    ensures LowBit(And(x, y), i) <==> LowBit(x, i) && LowBit(y, i)
  {
    if x == 0 || y == 0 {
      ZeroHasNoBits(i);
    } else if i > 0 {
      AndBit(x / 2, y / 2, i - 1);
    }
  }

  lemma {:induction false} ZeroHasNoBits(i: nat)
    ensures !LowBit(0, i)
  {
    if i > 0 {
      ZeroHasNoBits(i - 1);
    }
  }

  /** `And` never exceeds its first operand, so the AND of two bytes is a byte. */
  lemma {:induction false} AndBound(x: nat, y: nat)
    ensures And(x, y) <= x
  {
    if x != 0 && y != 0 {
      AndBound(x / 2, y / 2);
    }
  }

  function AndByte(x: Byte, y: Byte): (r: Byte)
    ensures forall i :: 0 <= i < 8 ==> (Bit(r, i) <==> Bit(x, i) && Bit(y, i))
  {
    AndBound(x, y);
    forall i | 0 <= i < 8 ensures Bit(And(x, y), i) <==> Bit(x, i) && Bit(y, i) {
      AndBit(x, y, 7 - i);
    }
    And(x, y)
  }

  /** Two numbers below `2^n` are equal exactly when their low `n` bits agree. */
  lemma {:induction false} BitsDetermine(x: nat, y: nat, n: nat)
    requires x < Pow2(n) && y < Pow2(n)
    requires forall i :: 0 <= i < n ==> LowBit(x, i) == LowBit(y, i)
    ensures x == y
  {
    if n > 0 {
      forall i | 0 <= i < n - 1 ensures LowBit(x / 2, i) == LowBit(y / 2, i) {
        assert LowBit(x, i + 1) == LowBit(y, i + 1);
      }
      BitsDetermine(x / 2, y / 2, n - 1);
      assert LowBit(x, 0) == LowBit(y, 0);
    }
  }

  /** Two bytes are equal exactly when all eight bits agree. */
  lemma ByteBitsDetermine(x: Byte, y: Byte)
    ensures x == y <==> forall j :: 0 <= j < 8 ==> Bit(x, j) == Bit(y, j)
  {
    if forall j :: 0 <= j < 8 ==> Bit(x, j) == Bit(y, j) {
      forall i | 0 <= i < 8 ensures LowBit(x, i) == LowBit(y, i) {
        assert Bit(x, 7 - i) == Bit(y, 7 - i);
      }
      assert Pow2(8) == 256;
      BitsDetermine(x, y, 8);
    }
  }

  /** The `n`-bit number whose top `r` bits are set (all of them when `r >= n`, none when
      `r <= 0`). */
  function HighOnes(n: nat, r: int): (x: nat)
    ensures x < Pow2(n)
  {
    if n == 0 then 0 else 2 * HighOnes(n - 1, r) + (if r >= n then 1 else 0)
  }

  lemma {:induction false} HighOnesBits(n: nat, r: int, i: nat)
    requires i < n
    ensures LowBit(HighOnes(n, r), i) <==> n - r <= i
  {
    if i > 0 {
      HighOnesBits(n - 1, r, i - 1);
    }
  }

  lemma {:induction false} HighOnesEnds(n: nat, r: int)
    ensures r <= 0 ==> HighOnes(n, r) == 0
    ensures r >= n ==> HighOnes(n, r) == Pow2(n) - 1
  {
    if n > 0 {
      HighOnesEnds(n - 1, r);
    }
  }

  /** Byte `i` of Go's `CIDRMask(ones, 8 * bytes)` for `r = ones - 8 * i`: its first `r` bits
      set. */
  function MaskByte(r: int): (m: Byte)
    ensures forall j :: 0 <= j < 8 ==> (Bit(m, j) <==> j < r)
  {
    assert Pow2(8) == 256;
    forall j | 0 <= j < 8 ensures Bit(HighOnes(8, r), j) <==> j < r {
      HighOnesBits(8, r, 7 - j);
    }
    HighOnes(8, r)
  }

  /** The masks are the bytes Go computes as `^byte(0xff >> r)`: none set for `r <= 0`, all for
      `r >= 8`, ... */
  lemma MaskByteEnds(r: int)
    ensures r <= 0 ==> MaskByte(r) == 0x00
    ensures r >= 8 ==> MaskByte(r) == 0xFF
  {
    HighOnesEnds(8, r);
  }

  /** ... and 0x80, 0xC0, ..., 0xFE in between. */
  lemma MaskByteTable()
    ensures MaskByte(1) == 0x80 && MaskByte(2) == 0xC0 && MaskByte(3) == 0xE0 && MaskByte(4) == 0xF0
    ensures MaskByte(5) == 0xF8 && MaskByte(6) == 0xFC && MaskByte(7) == 0xFE
  {
  }

  /** Masking two bytes with the mask for `r` gives equal results exactly when their first `r`
      bits agree. */
  lemma MaskedEqualIffBits(x: Byte, y: Byte, r: int)
    ensures AndByte(x, MaskByte(r)) == AndByte(y, MaskByte(r)) <==>
      forall j :: 0 <= j < 8 && j < r ==> Bit(x, j) == Bit(y, j)
  {
    var m := MaskByte(r);
    ByteBitsDetermine(AndByte(x, m), AndByte(y, m));
    if forall j :: 0 <= j < 8 && j < r ==> Bit(x, j) == Bit(y, j) {
      forall j | 0 <= j < 8 ensures Bit(AndByte(x, m), j) == Bit(AndByte(y, m), j) {
      }
    }
  }

  /** Masking twice with the same mask is masking once. */
  lemma AndByteIdempotent(x: Byte, m: Byte)
    ensures AndByte(AndByte(x, m), m) == AndByte(x, m)
  {
    ByteBitsDetermine(AndByte(AndByte(x, m), m), AndByte(x, m));
  }

  /** Masking with zero clears every bit. */
  lemma AndByteZero(x: Byte)
    ensures AndByte(x, 0) == 0
  {
  }
}
