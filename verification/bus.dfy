/**
 Register access and the two status-wait loops of the driver.

 `IORD_32DIRECT`/`IOWR_32DIRECT` on the controller become operations on an
 `Io` value: every access is appended to a trace of register events, reads of
 STATUS take the next value of a finite script, and writes are also passed to
 the chip behind the controller.  A wait loop that runs out of script is
 `Blocked`: on the hardware it would keep polling forever.
 */
module Bus {
  import opened Bits
  import opened Registers
  import opened IdealChip

  /** One access to a controller register, with the word written or read. */
  datatype Event = Wr(offset: nat, value: Word) | Rd(offset: nat, value: Word)

  /** The values STATUS will show on successive polls, the chip, and the accesses so far. */
  datatype Io = Io(status: seq<Word>, chip: Chip, trace: seq<Event>)

  /** Outcome of a driver operation: it completed with a value, or it hangs. */
  datatype Step<T> = Blocked | Done(value: T, io: Io)

  /** `IOWR_32DIRECT(I2C_0_BASE, offset, value)` */
  function IoWrite(io: Io, offset: nat, value: Word): Io {
    io.(chip := ChipWrite(io.chip, offset, value), trace := io.trace + [Wr(offset, value)])
  }

  /** `read_status`: one poll of STATUS, kept to its low byte. */
  function ReadStatus(io: Io): (r: (Byte, Io))
    requires io.status != []
    ensures r.0 == io.status[0] % 0x100
    ensures io.status[0] < 0x100 ==> r.0 == io.status[0]
    ensures r.1.status == io.status[1..] && r.1.chip == io.chip
    ensures r.1.trace == io.trace + [Rd(StatusRegister, io.status[0])]
  {
    var w := io.status[0];
    (ToByte(w), io.(status := io.status[1..], trace := io.trace + [Rd(StatusRegister, w)]))
  }

  /** `clear_status_bits`: write-1-to-clear of the given STATUS bits. */
  function ClearStatusBits(io: Io, bits: Byte): (r: Io)
    ensures r.status == io.status && r.chip == io.chip
    ensures r.trace == io.trace + [Wr(StatusRegister, bits)]
  {
    IoWrite(io, StatusRegister, bits)
  }

  /** `IORD_32DIRECT(I2C_0_BASE, READ_REGISTER)` */
  function ReadData(io: Io): (Word, Io) {
    (io.chip.latch, io.(trace := io.trace + [Rd(ReadRegister, io.chip.latch)]))
  }

  /** The words written to one register, in order. */
  function Written(t: seq<Event>, offset: nat): seq<Word> {
    if t == [] then []
    else (if t[0].Wr? && t[0].offset == offset then [t[0].value] else []) + Written(t[1..], offset)
  }

  lemma {:induction false} WrittenAppend(a: seq<Event>, b: seq<Event>, offset: nat)
    ensures Written(a + b, offset) == Written(a, offset) + Written(b, offset)
  {
    if a == [] {
      assert a + b == b;
    } else {
      var c := a + b;
      assert c[0] == a[0] && c[1..] == a[1..] + b;
      var h := if a[0].Wr? && a[0].offset == offset then [a[0].value] else [];
      assert Written(c, offset) == h + Written(a[1..] + b, offset);
      WrittenAppend(a[1..], b, offset);
    }
  }

  /** A polled status word ends a wait for `target`: `status & (target | ACKERROR_BIT)`. */
  predicate Stops(w: Word, target: Byte) {
    BitAnd(ToByte(w), BitOr(target, AckErrorBit)) != 0
  }

  /** `status & ACKERROR_BIT` */
  predicate AckSeen(w: Word) {
    BitAnd(ToByte(w), AckErrorBit) != 0
  }

  /** `v` is what a wait for `target` polls: words that do not stop it, then one that does. */
  predicate PolledUntil(v: seq<Word>, target: Byte) {
    && |v| > 0
    && Stops(v[|v| - 1], target)
    && forall j :: 0 <= j < |v| - 1 ==> !Stops(v[j], target)
  }

  /** One STATUS read per polled word. */
  function Polls(v: seq<Word>): seq<Event> {
    if v == [] then [] else [Rd(StatusRegister, v[0])] + Polls(v[1..])
  }

  /** The accesses of a wait that polled `v`: the reads, then a clear of ACKERROR if the last word had it. */
  function WaitTrace(v: seq<Word>): seq<Event>
    requires |v| > 0
  {
    Polls(v) + (if AckSeen(v[|v| - 1]) then [Wr(StatusRegister, AckErrorBit)] else [])
  }

  /**
   The loop shared by `wait_ready` and `wait_done`: poll STATUS until a word
   has `target` or ACKERROR set, then clear ACKERROR if that word has it.
   Whether the wait ended on the target or on the error is not reported; the
   words polled are returned so that the model can talk about them.
   */
  function WaitFor(io: Io, target: Byte): (r: Step<seq<Word>>)
    ensures r.Done? ==> r.value != [] && |r.io.status| < |io.status|
    decreases |io.status|
  {
    if io.status == [] then Blocked
    else
      var (st, io1) := ReadStatus(io);
      if BitAnd(st, BitOr(target, AckErrorBit)) == 0 then
        match WaitFor(io1, target)
        case Blocked => Blocked
        case Done(v, io2) => Done([io.status[0]] + v, io2)
      else if BitAnd(st, AckErrorBit) != 0 then
        Done([io.status[0]], ClearStatusBits(io1, AckErrorBit))
      else
        Done([io.status[0]], io1)
  }

  /** What a wait for `target` does, given the script it starts from.  It hangs
      exactly when no scripted word stops it.  When it returns it has polled up
      to and including the first stopping word and no further, the chip is
      untouched, and the accesses are one STATUS read per poll plus one clear
      of ACKERROR if and only if the last word had it. */
  predicate WaitBehaves(io: Io, target: Byte, r: Step<seq<Word>>) {
    && (r.Blocked? <==> forall i :: 0 <= i < |io.status| ==> !Stops(io.status[i], target))
    && (r.Done? ==>
      && PolledUntil(r.value, target)
      && io.status == r.value + r.io.status
      && r.io.chip == io.chip
      && r.io.trace == io.trace + WaitTrace(r.value))
  }

  lemma {:induction false} WaitForSpec(io: Io, target: Byte)
    ensures WaitBehaves(io, target, WaitFor(io, target))
    decreases |io.status|
  {
    if io.status != [] {
      if Stops(io.status[0], target) {
        WaitStopsNow(io, target);
      } else {
        WaitForSpec(ReadStatus(io).1, target);
        WaitPollsOn(io, target);
      }
    }
  }

  lemma WaitStopsNow(io: Io, target: Byte)
    requires io.status != [] && Stops(io.status[0], target)
    ensures WaitBehaves(io, target, WaitFor(io, target))
  {
    var w := io.status[0];
    assert io.status == [w] + io.status[1..];
    assert [w][1..] == [] && Polls([w]) == [Rd(StatusRegister, w)];
  }

  lemma WaitPollsOn(io: Io, target: Byte)
    requires io.status != [] && !Stops(io.status[0], target)
    requires WaitBehaves(ReadStatus(io).1, target, WaitFor(ReadStatus(io).1, target))
    ensures WaitBehaves(io, target, WaitFor(io, target))
  {
    var io1 := ReadStatus(io).1;
    match WaitFor(io1, target)
    case Blocked =>
      assert WaitFor(io, target) == Blocked;
      WaitHangsOn(io, target);
    case Done(v, io2) =>
      assert WaitFor(io, target) == Done([io.status[0]] + v, io2);
      WaitReturnsLater(io, target, v, io2);
  }

  lemma WaitHangsOn(io: Io, target: Byte)
    requires io.status != [] && !Stops(io.status[0], target)
    requires forall i :: 0 <= i < |io.status| - 1 ==> !Stops(io.status[1..][i], target)
    ensures forall i :: 0 <= i < |io.status| ==> !Stops(io.status[i], target)
  {
    forall i | 0 <= i < |io.status|
      ensures !Stops(io.status[i], target)
    {
      if i > 0 {
        assert io.status[i] == io.status[1..][i - 1];
      }
    }
  }

  lemma WaitReturnsLater(io: Io, target: Byte, v: seq<Word>, io2: Io)
    requires io.status != [] && !Stops(io.status[0], target)
    requires PolledUntil(v, target) && io.status[1..] == v + io2.status
    requires io2.chip == io.chip
    requires io2.trace == io.trace + [Rd(StatusRegister, io.status[0])] + WaitTrace(v)
    ensures WaitBehaves(io, target, Done([io.status[0]] + v, io2))
  {
    var w := io.status[0];
    PolledMore(w, v, target);
    assert io.status == [w] + (v + io2.status) == ([w] + v) + io2.status;
    assert io.status[|v|] == v[|v| - 1];
  }

  /** A word that does not stop the wait, followed by a completed wait, is a completed wait. */
  lemma PolledMore(w: Word, v: seq<Word>, target: Byte)
    requires !Stops(w, target) && PolledUntil(v, target)
    ensures PolledUntil([w] + v, target)
    ensures WaitTrace([w] + v) == [Rd(StatusRegister, w)] + WaitTrace(v)
  {
    var u := [w] + v;
    assert u[1..] == v && u[|u| - 1] == v[|v| - 1];
    forall j | 0 <= j < |u| - 1
      ensures !Stops(u[j], target)
    {
      if j > 0 {
        assert u[j] == v[j - 1];
      }
    }
  }

  /** `wait_ready` */
  function WaitReady(io: Io): (r: Step<seq<Word>>)
    ensures r.Done? ==> r.io.chip == io.chip
  {
    WaitForSpec(io, ReadyBit);
    WaitFor(io, ReadyBit)
  }

  lemma WaitReadyBehaves(io: Io)
    ensures WaitBehaves(io, ReadyBit, WaitReady(io))
  {
    WaitForSpec(io, ReadyBit);
  }

  /** `wait_done` */
  function WaitDone(io: Io): (r: Step<seq<Word>>)
    ensures r.Done? ==> r.io.chip == io.chip
  {
    WaitForSpec(io, DoneBit);
    WaitFor(io, DoneBit)
  }

  lemma WaitDoneBehaves(io: Io)
    ensures WaitBehaves(io, DoneBit, WaitDone(io))
  {
    WaitForSpec(io, DoneBit);
  }

  /** A wait writes nothing but one clear of ACKERROR to STATUS, and only when the
      word that ended it has ACKERROR set. */
  lemma {:induction false} WaitWrites(v: seq<Word>, offset: nat)
    requires |v| > 0
    ensures Written(WaitTrace(v), offset)
         == if offset == StatusRegister && AckSeen(v[|v| - 1]) then [AckErrorBit] else []
  {
    PollsWriteNothing(v, offset);
    WrittenAppend(Polls(v), if AckSeen(v[|v| - 1]) then [Wr(StatusRegister, AckErrorBit)] else [], offset);
  }

  lemma {:induction false} PollsWriteNothing(v: seq<Word>, offset: nat)
    ensures Written(Polls(v), offset) == []
  {
    if v != [] {
      PollsWriteNothing(v[1..], offset);
      assert ([Rd(StatusRegister, v[0])] + Polls(v[1..]))[1..] == Polls(v[1..]);
    }
  }

  /** A wait consumes the script up to its first stopping word and nothing more. */
  lemma WaitStopsAtFirst(io: Io, target: Byte, i: nat)
    requires i < |io.status| && Stops(io.status[i], target)
    requires forall j :: 0 <= j < i ==> !Stops(io.status[j], target)
    ensures WaitFor(io, target).Done?
    ensures WaitFor(io, target).value == io.status[..i + 1]
    ensures WaitFor(io, target).io.status == io.status[i + 1..]
  {
    WaitForSpec(io, target);
    var r := WaitFor(io, target);
    var v := r.value;
    assert io.status[..|v|] == v;
  }

  /** A status that answers at once: the wait polls exactly once. */
  lemma WaitPrompt(io: Io, target: Byte)
    requires io.status != [] && Stops(io.status[0], target)
    ensures WaitFor(io, target).Done? && WaitFor(io, target).io.status == io.status[1..]
  {
    WaitStopsAtFirst(io, target, 0);
  }

  /** Error recovery: ACKERROR on the first poll, then a clear status. The wait
      polls once, clears ACKERROR once, and returns. */
  lemma AckRecovery(c: Chip)
    ensures WaitReady(Io([AckErrorBit, 0], c, [])).Done?
    ensures WaitReady(Io([AckErrorBit, 0], c, [])).io.trace
         == [Rd(StatusRegister, AckErrorBit), Wr(StatusRegister, AckErrorBit)]
    ensures WaitReady(Io([AckErrorBit, 0], c, [])).io.status == [0]
  {
    var io := Io([AckErrorBit, 0], c, []);
    assert BitOr(ReadyBit, AckErrorBit) == 12 && BitAnd(AckErrorBit, 12) == AckErrorBit;
    assert Stops(AckErrorBit, ReadyBit) && AckSeen(AckErrorBit);
    WaitPrompt(io, ReadyBit);
    assert WaitFor(io, ReadyBit).value == [AckErrorBit];
  }
}
