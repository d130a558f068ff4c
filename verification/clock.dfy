/**
 The three public operations of the driver: `set_rtc_time`, `get_rtc_time` and
 `get_rtc_temp`.  The seven time fields travel in register order, seconds
 first; each is one `write_byte` or one `read_byte`.  Run against the ideal
 chip of module IdealChip, a time written is read back exactly when every
 field is below 160 (in particular, for every clock time and date).
 */
module Clock {
  import opened Bits
  import opened Registers
  import opened Codec
  import opened IdealChip
  import opened Bus
  import opened Transactions

  /** The arguments of `set_rtc_time` and the results of `get_rtc_time`. */
  datatype Time = Time(second: Byte, minute: Byte, hour: Byte, weekday: Byte,
                       day: Byte, month: Byte, year: Byte)

  /** The fields in the order of the registers that hold them. */
  function Fields(t: Time): (f: seq<Byte>)
    ensures |f| == |TimeRegisters|
  {
    [t.second, t.minute, t.hour, t.weekday, t.day, t.month, t.year]
  }

  function FromFields(f: seq<Byte>): (t: Time)
    requires |f| == |TimeRegisters|
    ensures Fields(t) == f
  {
    Time(f[0], f[1], f[2], f[3], f[4], f[5], f[6])
  }

  /** A time is determined by its fields. */
  lemma FieldsInjective(t: Time, u: Time)
    ensures Fields(t) == Fields(u) <==> t == u
  {
    if Fields(t) == Fields(u) {
      assert Fields(t)[0] == Fields(u)[0] && Fields(t)[1] == Fields(u)[1];
      assert Fields(t)[2] == Fields(u)[2] && Fields(t)[3] == Fields(u)[3];
      assert Fields(t)[4] == Fields(u)[4] && Fields(t)[5] == Fields(u)[5];
      assert Fields(t)[6] == Fields(u)[6];
    }
  }

  predicate Distinct(regs: seq<Byte>) {
    forall i, j :: 0 <= i < j < |regs| ==> regs[i] != regs[j]
  }

  /** `write_byte(regs[k], vals[k])` for each `k` in turn; blocked as soon as one
      of them is.  With distinct registers each ends up holding its value and
      no other register changes. */
  function WriteAll(io: Io, regs: seq<Byte>, vals: seq<Byte>): (r: Step<()>)
    requires |regs| == |vals|
    ensures r.Done? && Distinct(regs) ==>
      forall k :: 0 <= k < |regs| ==> RegAt(r.io.chip, regs[k]) == vals[k]
    ensures r.Done? ==> forall x :: x !in regs ==> RegAt(r.io.chip, x) == RegAt(io.chip, x)
    decreases |regs|
  {
    if regs == [] then Done((), io)
    else
      match WriteByte(io, regs[0], vals[0])
      case Blocked => Blocked
      case Done(_, io1) =>
        var r := WriteAll(io1, regs[1..], vals[1..]);
        assert RegAt(io1.chip, regs[0]) == vals[0];
        assert forall x :: x != regs[0] ==> RegAt(io1.chip, x) == RegAt(io.chip, x);
        assert forall k :: 1 <= k < |regs| ==> regs[k] == regs[1..][k - 1];
        assert Distinct(regs) ==> regs[0] !in regs[1..];
        r
  }

  /** `read_byte(regs[k])` for each `k` in turn; the bytes read are the
      registers' contents, and reading changes no register. */
  function ReadAll(io: Io, regs: seq<Byte>): (r: Step<seq<Byte>>)
    ensures r.Done? ==> |r.value| == |regs|
    ensures r.Done? ==> forall k :: 0 <= k < |regs| ==> r.value[k] == RegAt(io.chip, regs[k])
    ensures r.Done? ==> r.io.chip.regs == io.chip.regs
    decreases |regs|
  {
    if regs == [] then Done([], io)
    else
      match ReadByte(io, regs[0])
      case Blocked => Blocked
      case Done(b, io1) =>
        match ReadAll(io1, regs[1..])
        case Blocked => Blocked
        case Done(bs, io2) =>
          assert forall k :: 1 <= k < |regs| ==> regs[k] == regs[1..][k - 1];
          Done([b] + bs, io2)
  }

  /** The BCD bytes `set_rtc_time` writes, in register order. */
  function Encoded(t: Time): seq<Byte> {
    seq(|TimeRegisters|, k requires 0 <= k < |TimeRegisters| => ToBcd(Fields(t)[k]))
  }

  /** `set_rtc_time`: every time register holds the BCD encoding of its field,
      and every other register is as it was. */
  function SetTime(io: Io, t: Time): (r: Step<()>)
    ensures r.Done? ==>
      forall k :: 0 <= k < |TimeRegisters| ==> RegAt(r.io.chip, TimeRegisters[k]) == ToBcd(Fields(t)[k])
    ensures r.Done? ==>
      forall x :: x !in TimeRegisters ==> RegAt(r.io.chip, x) == RegAt(io.chip, x)
  {
    TimeRegistersDistinct();
    WriteAll(io, TimeRegisters, Encoded(t))
  }

  lemma TimeRegistersDistinct()
    ensures Distinct(TimeRegisters)
  {
    ClockRegisterMap();
  }

  /** `get_rtc_time`: every field is the BCD decoding of its register; no
      register changes. */
  function GetTime(io: Io): (r: Step<Time>)
    ensures r.Done? ==>
      forall k :: 0 <= k < |TimeRegisters| ==> Fields(r.value)[k] == FromBcd(RegAt(io.chip, TimeRegisters[k]))
    ensures r.Done? ==> r.io.chip.regs == io.chip.regs
  {
    match ReadAll(io, TimeRegisters)
    case Blocked => Blocked
    case Done(raw, io1) =>
      Done(FromFields(seq(|TimeRegisters|, k requires 0 <= k < |TimeRegisters| => FromBcd(raw[k]))), io1)
  }

  /** `get_rtc_temp`, in quarter degrees: the high register is read first, then
      the low one, and the pair is decoded; no register changes. */
  function GetTemp(io: Io): (r: Step<int>)
    ensures r.Done? ==> r.value == 4 * Signed8(RegAt(io.chip, RegTempHigh)) + RegAt(io.chip, RegTempLow) / 64
    ensures r.Done? ==> -512 <= r.value <= 511
    ensures r.Done? ==> r.io.chip.regs == io.chip.regs
  {
    match ReadAll(io, [RegTempHigh, RegTempLow])
    case Blocked => Blocked
    case Done(raw, io1) => Done(TempQuarters(raw[0], raw[1]), io1)
  }

  /** The WRITE words of a run of `write_byte` calls: register, then data, per call. */
  function Frames(regs: seq<Byte>, vals: seq<Byte>): seq<Word>
    requires |regs| == |vals|
    decreases |regs|
  {
    if regs == [] then []
    else [AddressedByte(regs[0]), AddressedByte(vals[0])] + Frames(regs[1..], vals[1..])
  }

  /** The WRITE words of a run of `read_byte` calls: one register number per call. */
  function Pointers(regs: seq<Byte>): seq<Word>
    decreases |regs|
  {
    if regs == [] then [] else [AddressedByte(regs[0])] + Pointers(regs[1..])
  }

  lemma {:induction false} WriteAllSends(io: Io, regs: seq<Byte>, vals: seq<Byte>)
    requires |regs| == |vals| && WriteAll(io, regs, vals).Done?
    ensures Written(WriteAll(io, regs, vals).io.trace, WriteRegister)
         == Written(io.trace, WriteRegister) + Frames(regs, vals)
    decreases |regs|
  {
    if regs != [] {
      var io1 := WriteByte(io, regs[0], vals[0]).io;
      WriteByteSends(io, regs[0], vals[0]);
      WriteAllSends(io1, regs[1..], vals[1..]);
    }
  }

  lemma {:induction false} ReadAllSends(io: Io, regs: seq<Byte>)
    requires ReadAll(io, regs).Done?
    ensures Written(ReadAll(io, regs).io.trace, WriteRegister)
         == Written(io.trace, WriteRegister) + Pointers(regs)
    decreases |regs|
  {
    if regs != [] {
      var io1 := ReadByte(io, regs[0]).io;
      ReadByteSends(io, regs[0]);
      ReadAllSends(io1, regs[1..]);
    }
  }

  /** `set_rtc_time` sends, through WRITE, each register number followed by its
      BCD byte, seconds first and year last. */
  lemma SetTimeSends(io: Io, t: Time)
    requires SetTime(io, t).Done?
    ensures Written(SetTime(io, t).io.trace, WriteRegister) == Written(io.trace, WriteRegister) +
      [ AddressedByte(RegSeconds), AddressedByte(ToBcd(t.second))
      , AddressedByte(RegMinutes), AddressedByte(ToBcd(t.minute))
      , AddressedByte(RegHours), AddressedByte(ToBcd(t.hour))
      , AddressedByte(RegWeekday), AddressedByte(ToBcd(t.weekday))
      , AddressedByte(RegDay), AddressedByte(ToBcd(t.day))
      , AddressedByte(RegMonth), AddressedByte(ToBcd(t.month))
      , AddressedByte(RegYear), AddressedByte(ToBcd(t.year)) ]
  {
    WriteAllSends(io, TimeRegisters, Encoded(t));
    SetTimeFrames(t);
  }

  lemma SetTimeFrames(t: Time)
    ensures Frames(TimeRegisters, Encoded(t)) ==
      [ AddressedByte(RegSeconds), AddressedByte(ToBcd(t.second))
      , AddressedByte(RegMinutes), AddressedByte(ToBcd(t.minute))
      , AddressedByte(RegHours), AddressedByte(ToBcd(t.hour))
      , AddressedByte(RegWeekday), AddressedByte(ToBcd(t.weekday))
      , AddressedByte(RegDay), AddressedByte(ToBcd(t.day))
      , AddressedByte(RegMonth), AddressedByte(ToBcd(t.month))
      , AddressedByte(RegYear), AddressedByte(ToBcd(t.year)) ]
  {
    var e := Encoded(t);
    assert e[0] == ToBcd(t.second) && e[1] == ToBcd(t.minute) && e[2] == ToBcd(t.hour);
    assert e[3] == ToBcd(t.weekday) && e[4] == ToBcd(t.day);
    assert e[5] == ToBcd(t.month) && e[6] == ToBcd(t.year);
    FramesOfSeven(TimeRegisters, e);
  }

  lemma FramesOfSeven(regs: seq<Byte>, vals: seq<Byte>)
    requires |regs| == 7 && |vals| == 7
    ensures Frames(regs, vals) ==
      [ AddressedByte(regs[0]), AddressedByte(vals[0]), AddressedByte(regs[1]), AddressedByte(vals[1])
      , AddressedByte(regs[2]), AddressedByte(vals[2]), AddressedByte(regs[3]), AddressedByte(vals[3])
      , AddressedByte(regs[4]), AddressedByte(vals[4]), AddressedByte(regs[5]), AddressedByte(vals[5])
      , AddressedByte(regs[6]), AddressedByte(vals[6]) ]
  {
    var r, v := regs, vals;
    assert Frames(r[6..], v[6..]) == [AddressedByte(r[6]), AddressedByte(v[6])] + Frames(r[7..], v[7..]);
    assert Frames(r[5..], v[5..]) == [AddressedByte(r[5]), AddressedByte(v[5])] + Frames(r[6..], v[6..]);
    assert Frames(r[4..], v[4..]) == [AddressedByte(r[4]), AddressedByte(v[4])] + Frames(r[5..], v[5..]);
    assert Frames(r[3..], v[3..]) == [AddressedByte(r[3]), AddressedByte(v[3])] + Frames(r[4..], v[4..]);
    assert Frames(r[2..], v[2..]) == [AddressedByte(r[2]), AddressedByte(v[2])] + Frames(r[3..], v[3..]);
    assert Frames(r[1..], v[1..]) == [AddressedByte(r[1]), AddressedByte(v[1])] + Frames(r[2..], v[2..]);
    assert Frames(r, v) == [AddressedByte(r[0]), AddressedByte(v[0])] + Frames(r[1..], v[1..]);
  }

  /** `get_rtc_time` sends, through WRITE, the seven register numbers in order. */
  lemma GetTimeSends(io: Io)
    requires GetTime(io).Done?
    ensures Written(GetTime(io).io.trace, WriteRegister) == Written(io.trace, WriteRegister) +
      [ AddressedByte(RegSeconds), AddressedByte(RegMinutes), AddressedByte(RegHours)
      , AddressedByte(RegWeekday), AddressedByte(RegDay), AddressedByte(RegMonth)
      , AddressedByte(RegYear) ]
  {
    ReadAllSends(io, TimeRegisters);
    PointersOfSeven(TimeRegisters);
  }

  lemma PointersOfSeven(regs: seq<Byte>)
    requires |regs| == 7
    ensures Pointers(regs) ==
      [ AddressedByte(regs[0]), AddressedByte(regs[1]), AddressedByte(regs[2]), AddressedByte(regs[3])
      , AddressedByte(regs[4]), AddressedByte(regs[5]), AddressedByte(regs[6]) ]
  {
    var r := regs;
    assert Pointers(r[6..]) == [AddressedByte(r[6])] + Pointers(r[7..]);
    assert Pointers(r[5..]) == [AddressedByte(r[5])] + Pointers(r[6..]);
    assert Pointers(r[4..]) == [AddressedByte(r[4])] + Pointers(r[5..]);
    assert Pointers(r[3..]) == [AddressedByte(r[3])] + Pointers(r[4..]);
    assert Pointers(r[2..]) == [AddressedByte(r[2])] + Pointers(r[3..]);
    assert Pointers(r[1..]) == [AddressedByte(r[1])] + Pointers(r[2..]);
  }

  /** `get_rtc_temp` reads the high temperature register before the low one. */
  lemma GetTempSends(io: Io)
    requires GetTemp(io).Done?
    ensures Written(GetTemp(io).io.trace, WriteRegister)
         == Written(io.trace, WriteRegister) + [AddressedByte(RegTempHigh), AddressedByte(RegTempLow)]
  {
    ReadAllSends(io, [RegTempHigh, RegTempLow]);
    PointersOfTwo([RegTempHigh, RegTempLow]);
  }

  lemma PointersOfTwo(regs: seq<Byte>)
    requires |regs| == 2
    ensures Pointers(regs) == [AddressedByte(regs[0]), AddressedByte(regs[1])]
  {
    assert Pointers(regs[1..]) == [AddressedByte(regs[1])] + Pointers(regs[2..]);
  }

  /** The wait the `i`-th poll of a run of `write_byte` calls belongs to:
      `wait_ready` after the pointer phase, then `wait_done` after the data. */
  function WriteWait(i: nat): Byte {
    if i % 2 == 0 then ReadyBit else DoneBit
  }

  /** The wait the `i`-th poll of a run of `read_byte` calls belongs to:
      `wait_ready`, then `wait_done` after STOP, then `wait_done` after RW. */
  function ReadWait(i: nat): Byte {
    if i % 3 == 0 then ReadyBit else DoneBit
  }

  /** A script whose first `2 * n` words each end the wait they are polled in
      by `n` successive `write_byte` calls. */
  predicate WriteScript(s: seq<Word>, n: nat) {
    2 * n <= |s| && forall i :: 0 <= i < 2 * n ==> Stops(s[i], WriteWait(i))
  }

  /** A script whose first `3 * n` words each end the wait they are polled in
      by `n` successive `read_byte` calls. */
  predicate ReadScript(s: seq<Word>, n: nat) {
    3 * n <= |s| && forall i :: 0 <= i < 3 * n ==> Stops(s[i], ReadWait(i))
  }

  /** What a healthy controller shows while `set_rtc_time` and then
      `get_rtc_time` run: READY to every `wait_ready`, DONE to every
      `wait_done`, and never both bits in one word. */
  function HealthyScript(): seq<Word> {
    seq(35, i requires 0 <= i < 35 => if i < 14 then WriteWait(i) else ReadWait(i - 14))
  }

  /** The healthy script meets the completion conditions below. */
  lemma HealthyScriptFits()
    ensures WriteScript(HealthyScript(), 7) && ReadScript(HealthyScript()[14..], 7)
    ensures forall i :: 0 <= i < 35 ==> HealthyScript()[i] == ReadyBit || HealthyScript()[i] == DoneBit
  {
    assert Stops(ReadyBit, ReadyBit) && Stops(DoneBit, DoneBit);
  }

  /** When every poll ends its wait, `n` writes take exactly `2 * n` polls. */
  lemma {:induction false} WriteAllCompletes(io: Io, regs: seq<Byte>, vals: seq<Byte>)
    requires |regs| == |vals| && WriteScript(io.status, |regs|)
    ensures WriteAll(io, regs, vals).Done?
    ensures WriteAll(io, regs, vals).io.status == io.status[2 * |regs|..]
    decreases |regs|
  {
    if regs != [] {
      assert WriteWait(0) == ReadyBit && WriteWait(1) == DoneBit;
      WriteByteCompletes(io, regs[0], vals[0]);
      var io1 := WriteByte(io, regs[0], vals[0]).io;
      assert io1.status == io.status[2..];
      forall i | 0 <= i < 2 * |regs[1..]|
        ensures Stops(io1.status[i], WriteWait(i))
      {
        assert io1.status[i] == io.status[i + 2] && WriteWait(i + 2) == WriteWait(i);
      }
      WriteAllCompletes(io1, regs[1..], vals[1..]);
    }
  }

  /** When every poll ends its wait, `n` reads take exactly `3 * n` polls. */
  lemma {:induction false} ReadAllCompletes(io: Io, regs: seq<Byte>)
    requires ReadScript(io.status, |regs|)
    ensures ReadAll(io, regs).Done?
    ensures ReadAll(io, regs).io.status == io.status[3 * |regs|..]
    decreases |regs|
  {
    if regs != [] {
      assert ReadWait(0) == ReadyBit && ReadWait(1) == DoneBit && ReadWait(2) == DoneBit;
      ReadByteCompletes(io, regs[0]);
      var io1 := ReadByte(io, regs[0]).io;
      assert io1.status == io.status[3..];
      forall i | 0 <= i < 3 * |regs[1..]|
        ensures Stops(io1.status[i], ReadWait(i))
      {
        assert io1.status[i] == io.status[i + 3] && ReadWait(i + 3) == ReadWait(i);
      }
      ReadAllCompletes(io1, regs[1..]);
      var rest := ReadAll(io1, regs[1..]);
      assert ReadAll(io, regs) == Done([ReadByte(io, regs[0]).value] + rest.value, rest.io);
    }
  }

  /** Reading a time back after setting it, on the ideal chip: each field comes
      back as its encoding decodes, which is the field itself exactly when it
      is below 160, so the whole time comes back exactly when all fields are. */
  lemma SetThenGet(io: Io, t: Time)
    requires SetTime(io, t).Done? && GetTime(SetTime(io, t).io).Done?
    ensures var u := GetTime(SetTime(io, t).io).value;
      forall k :: 0 <= k < |TimeRegisters| ==>
        Fields(u)[k] == (if Fields(t)[k] < 160 then Fields(t)[k] else Fields(t)[k] - 160)
    ensures GetTime(SetTime(io, t).io).value == t
        <==> forall k :: 0 <= k < |TimeRegisters| ==> Fields(t)[k] < 160
  {
    var u := GetTime(SetTime(io, t).io).value;
    forall k | 0 <= k < |TimeRegisters|
      ensures Fields(u)[k] == (if Fields(t)[k] < 160 then Fields(t)[k] else Fields(t)[k] - 160)
    {
      BcdRoundTrip(Fields(t)[k]);
    }
    FieldsInjective(u, t);
  }

  /** When the 14 polls of the seven writes each end their wait, `set_rtc_time`
      returns, two polls per write. */
  lemma SetTimeCompletes(io: Io, t: Time)
    requires WriteScript(io.status, 7)
    ensures SetTime(io, t).Done? && SetTime(io, t).io.status == io.status[14..]
  {
    WriteAllCompletes(io, TimeRegisters, Encoded(t));
  }

  /** When the 21 polls of the seven reads each end their wait, `get_rtc_time`
      returns, three polls per read. */
  lemma GetTimeCompletes(io: Io)
    requires ReadScript(io.status, 7)
    ensures GetTime(io).Done? && GetTime(io).io.status == io.status[21..]
  {
    ReadAllCompletes(io, TimeRegisters);
  }

  /** When the 14 polls of the seven writes and then the 21 polls of the seven
      reads each end their wait, setting and then getting the time both return,
      and a time whose fields are all below 100 comes back unchanged. */
  lemma SetThenGetCompletes(io: Io, t: Time)
    requires WriteScript(io.status, 7) && ReadScript(io.status[14..], 7)
    ensures SetTime(io, t).Done?
    ensures GetTime(SetTime(io, t).io).Done?
    ensures GetTime(SetTime(io, t).io).io.status == io.status[35..]
    ensures (forall k :: 0 <= k < |TimeRegisters| ==> Fields(t)[k] < 100) ==>
      GetTime(SetTime(io, t).io).value == t
  {
    SetTimeCompletes(io, t);
    var io1 := SetTime(io, t).io;
    GetTimeCompletes(io1);
    SetThenGet(io, t);
  }

  /** The time the example application sets, 12:00:00 on Wednesday 1 January
      2025, comes back unchanged. */
  lemma AppTime(io: Io)
    requires WriteScript(io.status, 7) && ReadScript(io.status[14..], 7)
    ensures var t := Time(0, 0, 12, 3, 1, 1, 25);
      SetTime(io, t).Done? && GetTime(SetTime(io, t).io).Done? && GetTime(SetTime(io, t).io).value == t
  {
    var t := Time(0, 0, 12, 3, 1, 1, 25);
    SetThenGetCompletes(io, t);
  }

  /** When the six polls of the two reads each end their wait, `get_rtc_temp`
      returns, and its value is the temperature the register pair stands for. */
  lemma GetTempCompletes(io: Io, q: int)
    requires ReadScript(io.status, 2) && -512 <= q <= 511
    requires RegAt(io.chip, RegTempHigh) == TempRegisters(q).0
    requires RegAt(io.chip, RegTempLow) == TempRegisters(q).1
    ensures GetTemp(io).Done? && GetTemp(io).value == q
    ensures GetTemp(io).io.status == io.status[6..]
  {
    ReadAllCompletes(io, [RegTempHigh, RegTempLow]);
    TempRoundTrip(q);
  }
}
