/**
 The byte conversions of the driver: the binary-coded-decimal encoding of the
 seven time fields written by `set_rtc_time`, the decoding applied by
 `get_rtc_time`, and the two's-complement temperature decoding of
 `get_rtc_temp`.  The driver validates nothing, so every byte is accepted and
 the contracts say what comes out of out-of-range and malformed input too.
 */
module Codec {
  import opened Bits

  /** A byte whose two nibbles are both decimal digits. */
  predicate IsBcd(b: Byte) {
    b / 16 <= 9 && b % 16 <= 9
  }

  /** The decimal number a well-formed BCD byte stands for. */
  function BcdValue(b: Byte): nat
    requires IsBcd(b)
  {
    10 * (b / 16) + b % 16
  }

  /**
   `((v / 10) << 4) | (v % 10)` assigned to a `byte`.  Below 100 this is the
   BCD byte of `v`; from 100 to 159 the tens digit overflows into a nibble
   value 10..15; from 160 on the shifted tens no longer fit in a byte and
   lose 256 when stored.
   */
  function ToBcd(v: Byte): (r: Byte)
    ensures v < 100 ==> IsBcd(r) && BcdValue(r) == v
    ensures v < 160 ==> r / 16 == v / 10 && r % 16 == v % 10
    ensures v >= 160 ==> r == 16 * (v / 10) + v % 10 - 0x100
  {
    var tens, ones := v / 10, v % 10;
    NibblePair(tens, ones);
    var x := 16 * tens + ones;
    assert v == 10 * tens + ones;
    var carry := if v >= 160 then 1 else 0;
    DivModUnique(x, 0x100, carry, x - 0x100 * carry);
    ToByte(BitOr(Shl(tens, 4), ones))
  }

  /**
   `((raw >> 4) * 10) + (raw & 0x0F)` assigned to a `byte`: ten times the high
   nibble plus the low nibble.  The sum is at most 15 * 10 + 15, so storing it
   never wraps, and nibbles above 9 are decoded as they are, not rejected.
   */
  function FromBcd(raw: Byte): (r: Byte)
    ensures r == 10 * (raw / 16) + raw % 16
    ensures r <= 165
    ensures IsBcd(raw) ==> r == BcdValue(raw) && r < 100
  {
    Nibbles(raw);
    ToByte(Shr(raw, 4) * 10 + BitAnd(raw, 0x0F))
  }

  /** Encoding then decoding gives the value back exactly when it is below 160;
      above that it comes back 160 short. */
  lemma BcdRoundTrip(v: Byte)
    ensures FromBcd(ToBcd(v)) == (if v < 160 then v else v - 160)
    ensures v < 100 ==> FromBcd(ToBcd(v)) == v
  {
    var r := ToBcd(v);
    if v >= 160 {
      DivModUnique(r, 16, v / 10 - 16, v % 10);
    }
  }

  /** Decoding then encoding gives back every well-formed BCD byte. */
  lemma BcdInverse(b: Byte)
    requires IsBcd(b)
    ensures ToBcd(FromBcd(b)) == b
  {
    var d := FromBcd(b);
    DivModUnique(d, 10, b / 16, b % 16);
    DivModUnique(b, 16, b / 16, b % 16);
  }

  /** Boundary and malformed cases: 59 and 99 are stored as 0x59 and 0x99, the
      malformed byte 0x6A decodes to 70, and 160 is stored as 0x00. */
  lemma BcdExamples()
    ensures ToBcd(59) == 0x59 && FromBcd(0x59) == 59
    ensures ToBcd(99) == 0x99 && FromBcd(0x99) == 99
    ensures !IsBcd(0x6A) && FromBcd(0x6A) == 70
    ensures ToBcd(160) == 0x00 && FromBcd(ToBcd(160)) == 0
  {
    BcdInverse(0x59);
    BcdInverse(0x99);
    assert 0x6A / 16 == 6 && 0x6A % 16 == 10;
  }

  /** The value of a byte read as an 8-bit two's-complement number. */
  function Signed8(b: Byte): int {
    if b < 128 then b else b - 256
  }

  /** `(hi & 0x80) ? hi - 256 : hi`: the whole degrees of the temperature. */
  function TempWhole(hi: Byte): (ti: int)
    ensures ti == Signed8(hi)
    ensures -128 <= ti <= 127 && (ti + 256) % 256 == hi
  {
    SignBit(hi);
    var ti := if BitAnd(hi, 0x80) != 0 then hi - 256 else hi;
    DivModUnique(ti + 256, 256, if hi < 128 then 1 else 0, hi);
    ti
  }

  /** `hi & 0x80` is set exactly for the bytes from 128 up. */
  lemma SignBit(hi: Byte)
    ensures (BitAnd(hi, 0x80) != 0) == (hi >= 128)
  {
    assert Pow2(7) == 0x80;
    AndSingleBit(hi, 7);
    DivModUnique(hi, 0x80, if hi < 128 then 0 else 1, if hi < 128 then hi else hi - 128);
  }

  /** `(lo >> 6) & 0x03`: the quarter degrees, taken from the top two bits of `lo`. */
  function TempQuarter(lo: Byte): (f: nat)
    ensures f == lo / 64 && f <= 3
  {
    ShrDiv(lo, 6);
    AndLowMask(Shr(lo, 6), 2);
    BitAnd(Shr(lo, 6), 0x03)
  }

  /**
   The temperature `get_rtc_temp` computes from the two temperature registers,
   as a whole number of quarter degrees: `ti + frac * 0.25` times four.
   */
  function TempQuarters(hi: Byte, lo: Byte): (q: int)
    ensures q == 4 * Signed8(hi) + lo / 64
    ensures -512 <= q <= 511
  {
    4 * TempWhole(hi) + TempQuarter(lo)
  }

  /** The register pair that holds a temperature of `q` quarter degrees: the
      10-bit two's-complement value, high byte first, fraction in bits 7:6. */
  function TempRegisters(q: int): (Byte, Byte)
    requires -512 <= q <= 511
  {
    ((q / 4) % 256, (q % 4) * 64)
  }

  /** Every temperature the registers can express decodes back to itself. */
  lemma TempRoundTrip(q: int)
    requires -512 <= q <= 511
    ensures TempQuarters(TempRegisters(q).0, TempRegisters(q).1) == q
  {
    var (hi, lo) := TempRegisters(q);
    var d, f := q / 4, q % 4;
    assert q == 4 * d + f && -128 <= d < 128;
    DivModUnique(lo, 64, f, 0);
    var wrap := if d < 0 then -1 else 0;
    DivModUnique(d, 256, wrap, d - 256 * wrap);
    assert Signed8(hi) == d;
  }

  /** Two register pairs decode to the same temperature exactly when their high
      bytes agree and the top two bits of their low bytes agree: the low six
      bits of `lo` are ignored and nothing else is. */
  lemma TempDecodeInjective(hi1: Byte, lo1: Byte, hi2: Byte, lo2: Byte)
    ensures TempQuarters(hi1, lo1) == TempQuarters(hi2, lo2)
        <==> hi1 == hi2 && lo1 / 64 == lo2 / 64
  {
    if TempQuarters(hi1, lo1) == TempQuarters(hi2, lo2) {
      var q := TempQuarters(hi1, lo1);
      DivModUnique(q, 4, Signed8(hi1), lo1 / 64);
      DivModUnique(q, 4, Signed8(hi2), lo2 / 64);
    }
  }

  /** 0x19 0x40 is 25.25 degrees and 0xE7 0x00 is -25 degrees. */
  lemma TempExamples()
    ensures TempQuarters(0x19, 0x40) == 101
    ensures TempQuarters(0xE7, 0x00) == -100
  {
  }
}
