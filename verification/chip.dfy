/**
 An ideal DS3231 behind an ideal I2C controller, used as the hardware the
 driver talks to when the model proves that a time written can be read back.
 It is a test double, not part of the driver: it always acknowledges, and it
 reacts to the register writes of the driver as follows.
 - CONTROL <- 0 starts a new transfer; the next byte sent through WRITE is the
   register pointer.
 - WRITE <- a word addressed to the clock (bits [14:8] = 0x68) sets the pointer
   if a transfer has just started, and otherwise stores its data byte at the
   pointer, which then advances as on the real chip.
 - CONTROL <- a word with both ENABLE and RW set reads the register at the
   pointer into the READ register and advances the pointer.
 Every other write leaves it unchanged.  STATUS is not modelled here: the
 values it shows are a separate script (see module Bus).
 */
module IdealChip {
  import opened Bits
  import opened Registers

  /** `latch` is the whole READ register word; this chip only ever puts a byte in it. */
  datatype Chip = Chip(regs: map<Byte, Byte>, pointer: Byte, addressing: bool, latch: Word)

  /** Contents of register `r`; registers never written read as zero. */
  function RegAt(c: Chip, r: Byte): Byte {
    if r in c.regs then c.regs[r] else 0
  }

  function Next(p: Byte): Byte {
    (p + 1) % 0x100
  }

  /** ENABLE, bit 0 of a CONTROL word. */
  predicate Enables(w: nat) {
    w % 2 == 1
  }

  /** RW, bit 2 of a CONTROL word. */
  predicate Reads(w: nat) {
    (w / 4) % 2 == 1
  }

  function ChipWrite(c: Chip, offset: nat, value: Word): Chip {
    if offset == ControlRegister then
      if value == 0 then c.(addressing := true)
      else if Enables(value) && Reads(value) then
        c.(latch := RegAt(c, c.pointer), pointer := Next(c.pointer))
      else c
    else if offset == WriteRegister && SlaveField(value) == RtcAddress then
      if c.addressing then c.(pointer := DataField(value), addressing := false)
      else c.(regs := c.regs[c.pointer := DataField(value)], pointer := Next(c.pointer))
    else c
  }

  /** How the chip reacts to the three control words of the driver. */
  lemma ControlEffects(c: Chip)
    ensures ChipWrite(c, ControlRegister, EnableBit) == c
    ensures ChipWrite(c, ControlRegister, BitOr(EnableBit, StopBit)) == c
    ensures ChipWrite(c, ControlRegister, BitOr(EnableBit, RwBit))
         == c.(latch := RegAt(c, c.pointer), pointer := Next(c.pointer))
  {
    ControlWords();
  }
}
