/**
 Register offsets, bit masks and DS3231 register numbers of the driver's
 header, and the layout of the WRITE register word.
 */
module Registers {
  import opened Bits

  /** Base address of the Avalon I2C controller; offsets below are relative to it. */
  const I2cBase: nat := 0x81000

  const ControlRegister: nat := 0x00
  const WriteRegister: nat := 0x04
  const StatusRegister: nat := 0x08
  const ReadRegister: nat := 0x0C

  // Bits of the CONTROL register
  const EnableBit: Byte := 0x01
  const StopBit: Byte := 0x02
  const RwBit: Byte := 0x04
  const ContinueBit: Byte := 0x08

  // Bits of the STATUS register
  const ReadyBit: Byte := 0x08
  const AckErrorBit: Byte := 0x04
  const DoneBit: Byte := 0x01
  /** BUSY is named only in the header's description of STATUS; the driver never tests it. */
  const BusyBit: Byte := 0x02

  /** 7-bit I2C address of the DS3231 */
  const RtcAddress: Byte := 0x68

  // DS3231 register numbers
  const RegSeconds: Byte := 0x00
  const RegMinutes: Byte := 0x01
  const RegHours: Byte := 0x02
  const RegWeekday: Byte := 0x03
  const RegDay: Byte := 0x04
  const RegMonth: Byte := 0x05
  const RegYear: Byte := 0x06
  const RegTempHigh: Byte := 0x11
  const RegTempLow: Byte := 0x12

  /** The seven time registers in the order the driver visits them. */
  const TimeRegisters: seq<Byte> :=
    [RegSeconds, RegMinutes, RegHours, RegWeekday, RegDay, RegMonth, RegYear]

  /** Bits [14:8] of a WRITE register word, as the controller reads them: the slave address. */
  function SlaveField(w: nat): nat {
    (w / 0x100) % 0x80
  }

  /** Bits [7:0] of a WRITE (or READ) register word: the data byte. */
  function DataField(w: nat): Byte {
    w % 0x100
  }

  /** The two fields are what the masks `(w >> 8) & 0x7F` and `w & 0xFF` select. */
  lemma FieldValues(w: nat)
    ensures SlaveField(w) == BitAnd(Shr(w, 8), 0x7F)
    ensures DataField(w) == BitAnd(w, 0xFF)
  {
    assert Pow2(8) == 0x100;
    ShrDiv(w, 8);
    LowSeven(w / 0x100);
    LowByte(w);
  }

  /** `(RTC_ADDRESS << 8) | b`: the WRITE register word that sends `b` to the clock chip. */
  function AddressedByte(b: Byte): (w: Word)
    ensures SlaveField(w) == RtcAddress && DataField(w) == b
    ensures w < Pow2(15)
  {
    assert Pow2(8) == 0x100 && Pow2(15) == 0x8000;
    OrShifted(RtcAddress, b, 8);
    var w := BitOr(Shl(RtcAddress, 8), b);
    DivModUnique(w, 0x100, 0x68, b);
    w
  }

  /** A 15-bit WRITE word is fixed by its two fields, so the framing is the only one. */
  lemma AddressedByteUnique(w: nat, b: Byte)
    requires w < Pow2(15) && SlaveField(w) == RtcAddress && DataField(w) == b
    ensures w == AddressedByte(b)
  {
    FieldsDetermine(w, b);
    FieldsDetermine(AddressedByte(b), b);
  }

  lemma FieldsDetermine(w: nat, b: Byte)
    requires w < Pow2(15) && SlaveField(w) == RtcAddress && DataField(w) == b
    ensures w == 0x100 * RtcAddress + b
  {
    assert Pow2(15) == 0x8000;
    var hi := w / 0x100;
    assert w == 0x100 * hi + w % 0x100;
    assert hi < 0x80;
    assert hi % 0x80 == hi;
  }

  /** The two combined control words the driver writes. */
  lemma ControlWords()
    ensures BitOr(EnableBit, StopBit) == 0x03 && BitOr(EnableBit, RwBit) == 0x05
  {
  }

  /** CONTINUE, RW, STOP and ENABLE are the single bits 3, 2, 1 and 0. */
  lemma ControlBitPositions()
    ensures EnableBit == Pow2(0) && StopBit == Pow2(1)
    ensures RwBit == Pow2(2) && ContinueBit == Pow2(3)
  {
  }

  /** READY, ACKERROR, BUSY and DONE are the single bits 3, 2, 1 and 0; the two wait masks
      `READY|ACKERROR` and `DONE|ACKERROR` overlap in ACKERROR alone. */
  lemma StatusBitPositions()
    ensures ReadyBit == Pow2(3) && AckErrorBit == Pow2(2) && DoneBit == Pow2(0)
    ensures BusyBit == Pow2(1)
    ensures BitAnd(BitOr(ReadyBit, AckErrorBit), BitOr(DoneBit, AckErrorBit)) == AckErrorBit
  {
  }

  /** The four controller registers are distinct, word-aligned offsets, and their
      absolute addresses from the controller's base are word-aligned too. */
  lemma ControllerOffsets()
    ensures |{ControlRegister, WriteRegister, StatusRegister, ReadRegister}| == 4
    ensures ControlRegister % 4 == 0 && WriteRegister % 4 == 0
    ensures StatusRegister % 4 == 0 && ReadRegister % 4 == 0
    ensures (I2cBase + ControlRegister) % 4 == 0 && (I2cBase + WriteRegister) % 4 == 0
    ensures (I2cBase + StatusRegister) % 4 == 0 && (I2cBase + ReadRegister) % 4 == 0
  {
  }

  /** The time registers are 0x00..0x06 in order; the temperature registers lie outside them. */
  lemma ClockRegisterMap()
    ensures |TimeRegisters| == 7
    ensures forall k :: 0 <= k < |TimeRegisters| ==> TimeRegisters[k] == k
    ensures RegTempHigh !in TimeRegisters && RegTempLow !in TimeRegisters
    ensures RegTempHigh != RegTempLow
    ensures RtcAddress < Pow2(7)
  {
  }
}
