/**
 The single-byte I2C transactions `write_byte` and `read_byte`: the exact
 sequence of controller register accesses each issues, and their effect on the
 ideal chip.  Neither looks at whether a wait ended on ACKERROR: both carry on
 with the next phase regardless.
 */
module Transactions {
  import opened Bits
  import opened Registers
  import opened IdealChip
  import opened Bus

  /** The pointer phase both transactions start with: reset the controller,
      send the register number to the clock, enable. */
  function PointerPhase(reg: Byte): seq<Event> {
    [Wr(ControlRegister, 0), Wr(WriteRegister, AddressedByte(reg)), Wr(ControlRegister, EnableBit)]
  }

  function SelectRegister(io: Io, reg: Byte): (r: Io)
    ensures r.status == io.status
    ensures r.trace == io.trace + PointerPhase(reg)
    ensures r.chip == io.chip.(pointer := reg, addressing := false)
  {
    var io1 := IoWrite(io, ControlRegister, 0);
    var io2 := IoWrite(io1, WriteRegister, AddressedByte(reg));
    assert io2.chip == io.chip.(pointer := reg, addressing := false);
    ControlEffects(io2.chip);
    IoWrite(io2, ControlRegister, EnableBit)
  }

  /** The accesses of the data phase of `write_byte`, as a list of events: the
      framed byte to WRITE, then ENABLE|STOP to CONTROL. */
  function DataPhase(data: Byte): seq<Event> {
    [Wr(WriteRegister, AddressedByte(data)), Wr(ControlRegister, BitOr(EnableBit, StopBit))]
  }

  /** `write_byte(reg, data)`: on the ideal chip, register `reg` then holds `data`. */
  function WriteByte(io: Io, reg: Byte, data: Byte): (r: Step<()>)
    ensures r.Done? ==>
      r.io.chip == io.chip.(regs := io.chip.regs[reg := data], pointer := Next(reg), addressing := false)
  {
    var io1 := SelectRegister(io, reg);
    match WaitReady(io1)
    case Blocked => Blocked
    case Done(_, io2) =>
      var io3 := SendData(io2, data);
      match WaitDone(io3)
      case Blocked => Blocked
      case Done(_, io4) => Done((), io4)
  }

  /** Carrying out the data phase on `io`: the status script is untouched, the
      trace grows by `DataPhase(data)`, and a chip past its pointer phase stores
      `data` at its pointer. */
  function SendData(io: Io, data: Byte): (r: Io)
    ensures r.status == io.status
    ensures r.trace == io.trace + DataPhase(data)
    ensures !io.chip.addressing ==>
      r.chip == io.chip.(regs := io.chip.regs[io.chip.pointer := data], pointer := Next(io.chip.pointer))
  {
    var io1 := IoWrite(io, WriteRegister, AddressedByte(data));
    ControlEffects(io1.chip);
    IoWrite(io1, ControlRegister, BitOr(EnableBit, StopBit))
  }

  /** The accesses `write_byte` makes: the pointer phase, `wait_ready`, the data
      phase, `wait_done`, whether or not either wait ended on ACKERROR. */
  lemma WriteByteEvents(io: Io, reg: Byte, data: Byte)
    requires WriteByte(io, reg, data).Done?
    ensures var r := WriteByte(io, reg, data);
      exists v1, v2 ::
      && PolledUntil(v1, ReadyBit) && PolledUntil(v2, DoneBit)
      && io.status == v1 + v2 + r.io.status
      && r.io.trace == io.trace + PointerPhase(reg) + WaitTrace(v1) + DataPhase(data) + WaitTrace(v2)
  {
    var a := WaitReady(SelectRegister(io, reg));
    var b := WaitDone(SendData(a.io, data));
    WaitReadyBehaves(SelectRegister(io, reg));
    WaitDoneBehaves(SendData(a.io, data));
    assert WriteByte(io, reg, data) == Done((), b.io);
    assert io.status == a.value + (b.value + b.io.status);
    SplitThree(io.status, a.value, b.value, b.io.status);
    assert PolledUntil(a.value, ReadyBit) && PolledUntil(b.value, DoneBit);
  }

  /** Write a control word, then `wait_done`. */
  function ControlThenWait(io: Io, control: Word): (r: Step<seq<Word>>)
    ensures r.Done? ==> r.io.chip == ChipWrite(io.chip, ControlRegister, control)
  {
    WaitDone(IoWrite(io, ControlRegister, control))
  }

  /** The accesses of a control write and the wait after it. */
  lemma ControlThenWaitSpec(io: Io, control: Word)
    requires ControlThenWait(io, control).Done?
    ensures var r := ControlThenWait(io, control);
      && PolledUntil(r.value, DoneBit)
      && io.status == r.value + r.io.status
      && r.io.trace == io.trace + [Wr(ControlRegister, control)] + WaitTrace(r.value)
  {
    WaitDoneBehaves(IoWrite(io, ControlRegister, control));
  }

  /** `read_byte(reg)`: the byte returned is the READ register word kept to its low byte. */
  function ReadByte(io: Io, reg: Byte): (r: Step<Byte>)
    ensures r.Done? ==> r.value == RegAt(io.chip, reg)
    ensures r.Done? ==>
      r.io.chip == io.chip.(pointer := Next(reg), addressing := false, latch := RegAt(io.chip, reg))
  {
    var io1 := SelectRegister(io, reg);
    match WaitReady(io1)
    case Blocked => Blocked
    case Done(v1, io2) =>
      ControlEffects(io1.chip);
      match ControlThenWait(io2, BitOr(EnableBit, StopBit))
      case Blocked => Blocked
      case Done(v2, io4) =>
        assert io4.chip == io1.chip;
        match ControlThenWait(io4, BitOr(EnableBit, RwBit))
        case Blocked => Blocked
        case Done(v3, io6) =>
          assert io6.chip == io1.chip.(latch := RegAt(io.chip, reg), pointer := Next(reg));
          var (w, io7) := ReadData(io6);
          assert w == RegAt(io.chip, reg) && ToByte(w) == w;
          Done(ToByte(w), io7)
  }

  /** The accesses `read_byte` makes: the pointer phase, ENABLE|STOP to end the
      pointer write, ENABLE|RW to fetch the byte, each followed by its wait, and
      one read of READ; the byte returned is the low byte of that read. */
  lemma ReadByteEvents(io: Io, reg: Byte)
    requires ReadByte(io, reg).Done?
    ensures var r := ReadByte(io, reg);
      exists v1, v2, v3, w: Word ::
      && PolledUntil(v1, ReadyBit) && PolledUntil(v2, DoneBit) && PolledUntil(v3, DoneBit)
      && io.status == v1 + v2 + v3 + r.io.status
      && r.io.trace == io.trace + PointerPhase(reg) + WaitTrace(v1)
                       + [Wr(ControlRegister, BitOr(EnableBit, StopBit))] + WaitTrace(v2)
                       + [Wr(ControlRegister, BitOr(EnableBit, RwBit))] + WaitTrace(v3)
                       + [Rd(ReadRegister, w)]
      && r.value == ToByte(w)
  {
    var io1 := SelectRegister(io, reg);
    var a := WaitReady(io1);
    var b := ControlThenWait(a.io, BitOr(EnableBit, StopBit));
    var c := ControlThenWait(b.io, BitOr(EnableBit, RwBit));
    assert a.Done? && b.Done? && c.Done?;
    WaitReadyBehaves(io1);
    ControlThenWaitSpec(a.io, BitOr(EnableBit, StopBit));
    ControlThenWaitSpec(b.io, BitOr(EnableBit, RwBit));
    var (w, io7) := ReadData(c.io);
    assert ReadByte(io, reg) == Done(ToByte(w), io7);
    var t1 := io.trace + PointerPhase(reg) + WaitTrace(a.value);
    var t2 := t1 + [Wr(ControlRegister, BitOr(EnableBit, StopBit))] + WaitTrace(b.value);
    var t3 := t2 + [Wr(ControlRegister, BitOr(EnableBit, RwBit))] + WaitTrace(c.value);
    assert a.io.trace == t1 && b.io.trace == t2 && c.io.trace == t3;
    assert io7.trace == t3 + [Rd(ReadRegister, w)];
    assert io7.status == c.io.status;
    SplitFour(io.status, a.value, b.value, c.value, io7.status);
    assert PolledUntil(a.value, ReadyBit) && PolledUntil(b.value, DoneBit) && PolledUntil(c.value, DoneBit);
  }

  lemma SplitThree<T>(s: seq<T>, a: seq<T>, b: seq<T>, c: seq<T>)
    requires s == a + (b + c)
    ensures s == a + b + c
  {
  }

  lemma SplitFour<T>(s: seq<T>, a: seq<T>, b: seq<T>, c: seq<T>, d: seq<T>)
    requires s == a + (b + (c + d))
    ensures s == a + b + c + d
  {
  }

  /** `write_byte` returns after two polls when the first status word shows
      READY (or ACKERROR) and the second DONE (or ACKERROR). */
  lemma WriteByteCompletes(io: Io, reg: Byte, data: Byte)
    requires |io.status| >= 2 && Stops(io.status[0], ReadyBit) && Stops(io.status[1], DoneBit)
    ensures WriteByte(io, reg, data).Done?
    ensures WriteByte(io, reg, data).io.status == io.status[2..]
  {
    var io1 := SelectRegister(io, reg);
    WaitPrompt(io1, ReadyBit);
    var io3 := SendData(WaitReady(io1).io, data);
    assert io3.status == io.status[1..];
    WaitPrompt(io3, DoneBit);
  }

  /** `read_byte` returns after three polls when the status words show READY,
      DONE and DONE (each or ACKERROR). */
  lemma ReadByteCompletes(io: Io, reg: Byte)
    requires |io.status| >= 3 && Stops(io.status[0], ReadyBit)
    requires Stops(io.status[1], DoneBit) && Stops(io.status[2], DoneBit)
    ensures ReadByte(io, reg).Done?
    ensures ReadByte(io, reg).io.status == io.status[3..]
  {
    var io1 := SelectRegister(io, reg);
    WaitPrompt(io1, ReadyBit);
    var io2 := WaitReady(io1).io;
    var io3 := IoWrite(io2, ControlRegister, BitOr(EnableBit, StopBit));
    WaitPrompt(io3, DoneBit);
    var io4 := WaitDone(io3).io;
    var io5 := IoWrite(io4, ControlRegister, BitOr(EnableBit, RwBit));
    WaitPrompt(io5, DoneBit);
  }

  lemma WrittenSingle(e: Event, offset: nat)
    ensures Written([e], offset) == if e.Wr? && e.offset == offset then [e.value] else []
  {
    assert [e][1..] == [];
  }

  /** The WRITE register receives exactly the two framed bytes of `write_byte`:
      register number, then data, both addressed to the clock. */
  lemma WriteByteSends(io: Io, reg: Byte, data: Byte)
    requires WriteByte(io, reg, data).Done?
    ensures Written(WriteByte(io, reg, data).io.trace, WriteRegister)
         == Written(io.trace, WriteRegister) + [AddressedByte(reg), AddressedByte(data)]
  {
    var io1 := SelectRegister(io, reg);
    var a := WaitReady(io1);
    var io3 := SendData(a.io, data);
    var b := WaitDone(io3);
    assert WriteByte(io, reg, data) == Done((), b.io);
    SelectSends(io, reg);
    WaitReadyBehaves(io1);
    WaitKeepsWritten(io1, ReadyBit, a);
    SendDataSends(a.io, data);
    WaitDoneBehaves(io3);
    WaitKeepsWritten(io3, DoneBit, b);
  }

  /** The WRITE register receives exactly one framed byte in `read_byte`: the
      register number. */
  lemma ReadByteSends(io: Io, reg: Byte)
    requires ReadByte(io, reg).Done?
    ensures Written(ReadByte(io, reg).io.trace, WriteRegister)
         == Written(io.trace, WriteRegister) + [AddressedByte(reg)]
  {
    var io1 := SelectRegister(io, reg);
    var a := WaitReady(io1);
    var b := ControlThenWait(a.io, BitOr(EnableBit, StopBit));
    var c := ControlThenWait(b.io, BitOr(EnableBit, RwBit));
    assert a.Done? && b.Done? && c.Done?;
    var (w, io7) := ReadData(c.io);
    assert ReadByte(io, reg) == Done(ToByte(w), io7);
    SelectSends(io, reg);
    WaitReadyBehaves(io1);
    WaitKeepsWritten(io1, ReadyBit, a);
    ControlKeepsWritten(a.io, BitOr(EnableBit, StopBit));
    ControlKeepsWritten(b.io, BitOr(EnableBit, RwBit));
    WrittenSingle(Rd(ReadRegister, w), WriteRegister);
    WrittenAppend(c.io.trace, [Rd(ReadRegister, w)], WriteRegister);
  }

  lemma SelectSends(io: Io, reg: Byte)
    ensures Written(SelectRegister(io, reg).trace, WriteRegister)
         == Written(io.trace, WriteRegister) + [AddressedByte(reg)]
  {
    PointerPhaseSends(reg);
    WrittenAppend(io.trace, PointerPhase(reg), WriteRegister);
  }

  lemma SendDataSends(io: Io, data: Byte)
    ensures Written(SendData(io, data).trace, WriteRegister)
         == Written(io.trace, WriteRegister) + [AddressedByte(data)]
  {
    DataPhaseSends(data);
    WrittenAppend(io.trace, DataPhase(data), WriteRegister);
  }

  /** A wait writes nothing to WRITE, whether or not it clears ACKERROR. */
  lemma WaitKeepsWritten(io: Io, target: Byte, r: Step<seq<Word>>)
    requires r.Done? && WaitBehaves(io, target, r)
    ensures Written(r.io.trace, WriteRegister) == Written(io.trace, WriteRegister)
  {
    WaitWrites(r.value, WriteRegister);
    WrittenAppend(io.trace, WaitTrace(r.value), WriteRegister);
  }

  lemma ControlKeepsWritten(io: Io, control: Word)
    requires ControlThenWait(io, control).Done?
    ensures Written(ControlThenWait(io, control).io.trace, WriteRegister) == Written(io.trace, WriteRegister)
  {
    var io1 := IoWrite(io, ControlRegister, control);
    WrittenSingle(Wr(ControlRegister, control), WriteRegister);
    WrittenAppend(io.trace, [Wr(ControlRegister, control)], WriteRegister);
    WaitDoneBehaves(io1);
    WaitKeepsWritten(io1, DoneBit, WaitDone(io1));
  }

  lemma PointerPhaseSends(reg: Byte)
    ensures Written(PointerPhase(reg), WriteRegister) == [AddressedByte(reg)]
  {
    var p := PointerPhase(reg);
    assert p == [p[0]] + [p[1]] + [p[2]];
    WrittenSingle(p[0], WriteRegister);
    WrittenSingle(p[1], WriteRegister);
    WrittenSingle(p[2], WriteRegister);
    WrittenAppend([p[0]], [p[1]], WriteRegister);
    WrittenAppend([p[0]] + [p[1]], [p[2]], WriteRegister);
  }

  lemma DataPhaseSends(data: Byte)
    ensures Written(DataPhase(data), WriteRegister) == [AddressedByte(data)]
  {
    var p := DataPhase(data);
    assert p == [p[0]] + [p[1]];
    WrittenSingle(p[0], WriteRegister);
    WrittenSingle(p[1], WriteRegister);
    WrittenAppend([p[0]], [p[1]], WriteRegister);
  }

  /** An ACK error during the pointer phase is cleared and otherwise ignored:
      `write_byte` still sends the data, and the ideal chip stores it. */
  lemma WriteByteIgnoresAck(io: Io, reg: Byte, data: Byte)
    requires |io.status| >= 2 && io.status[0] == AckErrorBit && io.status[1] == DoneBit
    ensures WriteByte(io, reg, data).Done?
    ensures WriteByte(io, reg, data).io.trace
         == io.trace + PointerPhase(reg)
            + [Rd(StatusRegister, AckErrorBit), Wr(StatusRegister, AckErrorBit)]
            + DataPhase(data) + [Rd(StatusRegister, DoneBit)]
    ensures RegAt(WriteByte(io, reg, data).io.chip, reg) == data
    ensures WriteByte(io, reg, data).io.status == io.status[2..]
  {
    assert Stops(AckErrorBit, ReadyBit) && AckSeen(AckErrorBit);
    assert Stops(DoneBit, DoneBit) && !AckSeen(DoneBit);
    var io1 := SelectRegister(io, reg);
    WaitPrompt(io1, ReadyBit);
    WaitReadyBehaves(io1);
    var a := WaitReady(io1);
    assert a.value == [AckErrorBit];
    var io3 := SendData(a.io, data);
    assert io3.status == io.status[1..];
    WaitPrompt(io3, DoneBit);
    WaitDoneBehaves(io3);
    var b := WaitDone(io3);
    assert b.value == [DoneBit];
    assert WriteByte(io, reg, data) == Done((), b.io);
    assert WaitTrace(a.value) == [Rd(StatusRegister, AckErrorBit), Wr(StatusRegister, AckErrorBit)];
    assert WaitTrace(b.value) == [Rd(StatusRegister, DoneBit)];
    assert b.io.trace == io.trace + PointerPhase(reg) + WaitTrace(a.value) + DataPhase(data) + WaitTrace(b.value);
  }
}
