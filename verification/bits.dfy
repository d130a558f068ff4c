/**
 The C bit operators the driver uses, on non-negative integers.

 The driver works on `unsigned char` values (its `byte` type) and on 32-bit
 register words, all of which are non-negative.  `<<` and `>>` on such values
 are multiplication and division by a power of two, `&` and `|` act digit by
 digit on the binary expansion, and assigning an `int` to a `byte` keeps the
 value modulo 256.  The lemmas connect the bitwise definitions to ordinary
 arithmetic, which is what the codec and framing proofs need.
 */
module Bits {

  /** An 8-bit unsigned value: the driver's `byte`. */
  type Byte = x: int | 0 <= x < 0x100

  /** A 32-bit register word as read or written by the bus interface. */
  type Word = x: int | 0 <= x < 0x1_0000_0000

  function Pow2(k: nat): (r: nat)
    ensures r >= 1
  {
    if k == 0 then 1 else 2 * Pow2(k - 1)
  }

  /** `x << k` */
  function Shl(x: nat, k: nat): nat {
    x * Pow2(k)
  }

  /** `x >> k`, one bit at a time. */
  function Shr(x: nat, k: nat): nat {
    if k == 0 then x else Shr(x / 2, k - 1)
  }

  /** `a & b`, one binary digit at a time from the least significant end. */
  function BitAnd(a: nat, b: nat): nat
    decreases a
  {
    if a == 0 || b == 0 then 0
    else 2 * BitAnd(a / 2, b / 2) + (if a % 2 == 1 && b % 2 == 1 then 1 else 0)
  }

  /** `a | b`, one binary digit at a time from the least significant end. */
  function BitOr(a: nat, b: nat): nat
    decreases a + b
  {
    if a == 0 then b
    else if b == 0 then a
    else 2 * BitOr(a / 2, b / 2) + (if a % 2 == 1 || b % 2 == 1 then 1 else 0)
  }

  /** The implicit conversion of a non-negative `int` to `unsigned char`. */
  function ToByte(x: nat): (b: Byte)
    ensures x < 0x100 ==> b == x
  {
    x % 0x100
  }

  /** A positive multiple of a positive number is at least that number. */
  lemma MulAtLeast(d: int, x: int)
    requires d > 0 && x >= 1
    ensures d * x >= d
  {
    assert d * x == d * (x - 1) + d;
    assert d * (x - 1) >= 0;
  }

  /** Division with remainder has exactly one answer. */
  lemma DivModUnique(a: int, d: int, q: int, r: int)
    requires 0 < d && 0 <= r < d && a == d * q + r
    ensures a / d == q && a % d == r
  {
    var q', r' := a / d, a % d;
    assert a == d * q' + r';
    if q' < q {
      assert d * (q - q') == r' - r;
      MulAtLeast(d, q - q');
    } else if q' > q {
      assert d * (q' - q) == r - r';
      MulAtLeast(d, q' - q);
    }
  }

  /** Halving and then dividing by `p` is dividing by `2 * p`, and the remainders match up. */
  lemma DivModDouble(a: nat, p: nat)
    requires p > 0
    ensures a / (2 * p) == (a / 2) / p
    ensures a % (2 * p) == 2 * ((a / 2) % p) + a % 2
  {
    var h, q, r := a / 2, (a / 2) / p, (a / 2) % p;
    assert a == 2 * h + a % 2;
    assert h == p * q + r;
    assert 2 * (p * q) == (2 * p) * q;
    assert a == (2 * p) * q + (2 * r + a % 2);
    DivModUnique(a, 2 * p, q, 2 * r + a % 2);
  }

  /** Shifting right by `k` is dividing by `2^k`. */
  lemma {:induction false} ShrDiv(x: nat, k: nat)
    ensures Shr(x, k) == x / Pow2(k)
  {
    if k > 0 {
      ShrDiv(x / 2, k - 1);
      DivModDouble(x, Pow2(k - 1));
    }
  }

  /** Or-ing a value below `2^k` into a value shifted left by `k` is addition. */
  lemma {:induction false} OrShifted(hi: nat, lo: nat, k: nat)
    requires lo < Pow2(k)
    ensures BitOr(Shl(hi, k), lo) == Shl(hi, k) + lo
  {
    var a := hi * Pow2(k);
    if k == 0 {
    } else if a == 0 || lo == 0 {
    } else {
      var p := Pow2(k - 1);
      assert a == 2 * (hi * p);
      assert a / 2 == hi * p && a % 2 == 0;
      OrShifted(hi, lo / 2, k - 1);
      assert BitOr(a / 2, lo / 2) == hi * p + lo / 2;
    }
  }

  /** And-ing with the mask of the low `k` bits keeps the value modulo `2^k`. */
  lemma {:induction false} AndLowMask(a: nat, k: nat)
    ensures BitAnd(a, Pow2(k) - 1) == a % Pow2(k)
  {
    if k > 0 {
      var p := Pow2(k - 1);
      assert Pow2(k) == 2 * p;
      AndLowMask(a / 2, k - 1);
      AndLowMaskStep(a, p);
    }
  }

  lemma AndLowMaskStep(a: nat, p: nat)
    requires p > 0 && BitAnd(a / 2, p - 1) == (a / 2) % p
    ensures BitAnd(a, 2 * p - 1) == a % (2 * p)
  {
    if a == 0 {
      DivModUnique(0, 2 * p, 0, 0);
    } else {
      AndOddMask(a, p);
      DivModDouble(a, p);
    }
  }

  /** One step of `&` against a mask whose lowest bit is set. */
  lemma AndOddMask(a: nat, p: nat)
    requires a > 0 && p > 0
    ensures BitAnd(a, 2 * p - 1) == 2 * BitAnd(a / 2, p - 1) + a % 2
  {
    var m := 2 * p - 1;
    assert m / 2 == p - 1 && m % 2 == 1;
  }

  /** And-ing with the single bit `2^k` leaves that bit of `a` and nothing else. */
  lemma {:induction false} AndSingleBit(a: nat, k: nat)
    ensures BitAnd(a, Pow2(k)) == Pow2(k) * ((a / Pow2(k)) % 2)
  {
    if k == 0 {
      if a > 0 {
        assert BitAnd(a / 2, 0) == 0;
      }
    } else {
      var p := Pow2(k - 1);
      assert Pow2(k) == 2 * p;
      AndSingleBit(a / 2, k - 1);
      AndSingleBitStep(a, p);
    }
  }

  lemma AndSingleBitStep(a: nat, p: nat)
    requires p > 0 && BitAnd(a / 2, p) == p * ((a / 2 / p) % 2)
    ensures BitAnd(a, 2 * p) == (2 * p) * ((a / (2 * p)) % 2)
  {
    var t := (a / 2 / p) % 2;
    assert (2 * p) * t == 2 * (p * t);
    if a > 0 {
      AndEvenMask(a, p);
      DivModDouble(a, p);
    } else {
      DivModUnique(0, 2 * p, 0, 0);
    }
  }

  /** One step of `&` against a mask whose lowest bit is clear. */
  lemma AndEvenMask(a: nat, p: nat)
    requires a > 0 && p > 0
    ensures BitAnd(a, 2 * p) == 2 * BitAnd(a / 2, p)
  {
    assert (2 * p) / 2 == p && (2 * p) % 2 == 0;
  }

  /** `w & 0xFF` is the low byte. */
  lemma LowByte(w: nat)
    ensures BitAnd(w, 0xFF) == w % 0x100
  {
    assert Pow2(8) == 0x100;
    AndLowMask(w, 8);
  }

  /** `x & 0x7F` keeps the low seven bits. */
  lemma LowSeven(x: nat)
    ensures BitAnd(x, 0x7F) == x % 0x80
  {
    assert Pow2(7) == 0x80;
    AndLowMask(x, 7);
  }

  /** The `>> 4` and `& 0x0F` of a byte are its two decimal-digit nibbles. */
  lemma Nibbles(b: nat)
    ensures Shr(b, 4) == b / 16
    ensures BitAnd(b, 0x0F) == b % 16
  {
    ShrDiv(b, 4);
    AndLowMask(b, 4);
  }

  /** A value below 16, or-ed into a value shifted left by 4, lands in the low nibble. */
  lemma NibblePair(hi: nat, lo: nat)
    requires lo < 16
    ensures BitOr(Shl(hi, 4), lo) == 16 * hi + lo
    ensures (16 * hi + lo) / 16 == hi && (16 * hi + lo) % 16 == lo
  {
    OrShifted(hi, lo, 4);
    DivModUnique(16 * hi + lo, 16, hi, lo);
  }
}
