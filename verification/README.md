# DS3231 real-time-clock driver: a Dafny model

This project models the I2C driver for a DS3231 real-time clock that sits behind
an Avalon-I2C bus controller in an FPGA soft-core system
(`Software/Interface/rtc_driver.c` and `rtc_driver.h`). The driver does four things:

- it sets and reads the seven time fields (seconds to year), stored on the
  chip in binary-coded decimal;
- it reads the chip's temperature registers and decodes their
  two's-complement value;
- it busy-polls the controller's STATUS register until READY or DONE shows up,
  clearing ACKERROR (write-1-to-clear) when it has been raised;
- it frames every single-byte transfer as CONTROL/WRITE/READ register accesses.

The model is functional:

- `Bits` gives the C operators `&`, `|`, `<<`, `>>` and the assignment to
  `unsigned char` on unbounded naturals, with lemmas relating them to
  arithmetic.
- `Registers` holds the header's offsets, bit masks, chip address and register
  map, and the framing of a WRITE word `(RTC_ADDRESS << 8) | b`.
- `Codec` holds the BCD encode and decode and the temperature decode. The
  temperature is a whole number of quarter degrees.
- `Bus` holds the register accesses and the `wait_ready`/`wait_done` loop.
  - Each access is one event in a trace.
  - STATUS values come from a finite script, and a wait that runs out of
    script is `Blocked`: on the hardware it would poll forever.
- `IdealChip` is a fake that stands for the controller plus the clock chip.
  - A WRITE just after CONTROL←0 sets the register pointer.
  - A later WRITE stores a byte at the pointer and advances it.
  - CONTROL←ENABLE|RW latches the byte at the pointer into READ and advances
    the pointer.
- `Transactions` holds `write_byte` and `read_byte`, with their exact event
  sequences and their effect on the ideal chip.
- `Clock` holds `set_rtc_time`, `get_rtc_time` and `get_rtc_temp`, the order of
  their transfers, and the set-then-get theorem.

The encoding is meant for values 0–99, and larger values give a malformed
nibble pair. The code is more precise than that:

- from 100 to 159 the tens digit lands in the high nibble as 10–15, and decoding
  still gives the value back;
- from 160 on, the shifted tens do not fit in a byte, the stored value loses
  256, and the value comes back 160 short.

The model states this exact behaviour (`Codec.ToBcd`, `Codec.BcdRoundTrip`,
`Clock.SetThenGet`).

## Model

| member | source | states |
|---|---|---|
| Codec.ToBcd | Software/Interface/rtc_driver.c:73-85 | below 100 the stored byte is well-formed BCD of the field; below 160 its nibbles are the tens and units digits; from 160 on it is the same pair less 256 (truncation to `byte`) |
| Codec.FromBcd | Software/Interface/rtc_driver.c:93-105 | any byte decodes to ten times its high nibble plus its low nibble, at most 165, with no wrap; a well-formed BCD byte decodes to its decimal value below 100 |
| Codec.BcdRoundTrip | Software/Interface/rtc_driver.c:73-93 | decoding the encoding of `v` gives `v` for every `v` below 160 and `v - 160` above; in particular every value 0–99 comes back |
| Codec.BcdInverse | Software/Interface/rtc_driver.c:73-93 | encoding the decoding of a well-formed BCD byte gives the byte back |
| Codec.BcdExamples | Software/Interface/rtc_driver.c:93 | 59 and 99 are stored as 0x59 and 0x99 and come back; malformed 0x6A decodes to 70 rather than being rejected; 160 is stored as 0x00 |
| Codec.TempWhole | Software/Interface/rtc_driver.c:111 | the whole degrees are the high register read as a signed 8-bit number, in -128..127, congruent to the register modulo 256 |
| Codec.SignBit | Software/Interface/rtc_driver.c:111 | `hi & 0x80` is non-zero exactly for bytes from 128 up |
| Codec.TempQuarter | Software/Interface/rtc_driver.c:112 | `(lo >> 6) & 0x03` is the top two bits of `lo`, at most 3 |
| Codec.TempQuarters | Software/Interface/rtc_driver.c:111-112 | the temperature in quarter degrees is 4 × signed(hi) + lo / 64, in -512..511 |
| Codec.TempRoundTrip | Software/Interface/rtc_driver.c:111-112 | every quarter-degree value from -512 to 511, stored as high byte and fraction bits, decodes to itself |
| Codec.TempDecodeInjective | Software/Interface/rtc_driver.c:111-112 | two register pairs decode alike if and only if the high bytes are equal and the top two bits of the low bytes are equal (the low six bits are ignored) |
| Codec.TempExamples | Software/Interface/rtc_driver.c:111-112 | (0x19, 0x40) is 25.25 degrees and (0xE7, 0x00) is -25 degrees |
| Registers.AddressedByte | Software/Interface/rtc_driver.c:39 | `(RTC_ADDRESS << 8) \| b` carries 0x68 in bits 14:8 and `b` in bits 7:0, and fits in 15 bits |
| Registers.AddressedByteUnique | Software/Interface/rtc_driver.h:14 | a 15-bit WRITE word with slave field 0x68 and data field `b` is exactly `(RTC_ADDRESS << 8) \| b` |
| Registers.FieldValues | Software/Interface/rtc_driver.h:14 | the slave-address and data fields of a WRITE word are `(w >> 8) & 0x7F` and `w & 0xFF` |
| Registers.ControlWords | Software/Interface/rtc_driver.c:60-64 | ENABLE\|STOP is 0x03 and ENABLE\|RW is 0x05 |
| Registers.ControlBitPositions | Software/Interface/rtc_driver.h:19-22 | ENABLE, STOP, RW and CONTINUE are the single bits 0, 1, 2 and 3 |
| Registers.StatusBitPositions | Software/Interface/rtc_driver.h:15-27 | READY, ACKERROR, BUSY and DONE are the single bits 3, 2, 1 and 0, and the masks READY\|ACKERROR and DONE\|ACKERROR share ACKERROR only |
| Registers.ControllerOffsets | Software/Interface/rtc_driver.h:12-16 | CONTROL, WRITE, STATUS and READ are four distinct word-aligned offsets, and each lies at a word-aligned address from the controller base 0x81000 |
| Registers.ClockRegisterMap | Software/Interface/rtc_driver.h:30-39 | the time registers are 0x00..0x06 in order, the two temperature registers are distinct and outside them, and the chip address fits in 7 bits |
| Bus.ReadStatus | Software/Interface/rtc_driver.c:4-6 | one poll of STATUS consumes exactly one scripted word, records one STATUS read of the whole 32-bit word, leaves the chip alone, and returns that word truncated to a `byte` (unchanged when it is below 256) |
| Bus.ClearStatusBits | Software/Interface/rtc_driver.c:9-11 | clearing STATUS bits is one write of those bits to STATUS: it consumes no status word and does not affect the chip |
| Bus.WaitFor | Software/Interface/rtc_driver.c:16-21 | the polling loop shared by both waits: a completed wait has polled at least one word and consumed script; its full behaviour is `Bus.WaitForSpec` |
| Bus.WaitForSpec | Software/Interface/rtc_driver.c:14-33 | the wait hangs exactly when no scripted word has the target bit or ACKERROR. Otherwise it polls up to the first word that does, consumes exactly those words, leaves the chip alone, and its events are those reads followed by one clear of ACKERROR if that last word had ACKERROR |
| Bus.WaitReadyBehaves | Software/Interface/rtc_driver.c:14-22 | `wait_ready` behaves as the wait loop with target READY |
| Bus.WaitDoneBehaves | Software/Interface/rtc_driver.c:24-33 | `wait_done` behaves as the wait loop with target DONE |
| Bus.WaitStopsAtFirst | Software/Interface/rtc_driver.c:16-18 | when word `i` is the first to stop the wait, the wait returns the words 0..i and leaves the rest of the script |
| Bus.WaitPrompt | Software/Interface/rtc_driver.c:16-18 | a first status word that stops the wait is the only one polled |
| Bus.WaitWrites | Software/Interface/rtc_driver.c:19-21 | a wait writes no register except STATUS, and writes ACKERROR to STATUS once if the word that ended it had ACKERROR, else not at all |
| Bus.AckRecovery | Software/Interface/rtc_driver.c:14-22 | on script [ACKERROR, 0] `wait_ready` reads STATUS once, writes ACKERROR back once, returns, and leaves [0] |
| Transactions.SelectRegister | Software/Interface/rtc_driver.c:38-40 | the pointer phase writes CONTROL←0, WRITE←(0x68<<8)\|reg, CONTROL←ENABLE and leaves the chip pointing at `reg` |
| Transactions.SendData | Software/Interface/rtc_driver.c:44-45 | the data phase writes WRITE←(0x68<<8)\|data and CONTROL←ENABLE\|STOP, storing `data` at the pointer |
| Transactions.WriteByte | Software/Interface/rtc_driver.c:36-47 | after `write_byte(reg, data)` register `reg` holds `data`, no other register changes, and the pointer is just past `reg` |
| Transactions.WriteByteEvents | Software/Interface/rtc_driver.c:36-47 | the events are exactly pointer phase, `wait_ready`, data phase, `wait_done`, for whatever the two waits polled (ACKERROR included) |
| Transactions.WriteByteSends | Software/Interface/rtc_driver.c:39-44 | WRITE receives exactly two words: the framed register number, then the framed data |
| Transactions.WriteByteCompletes | Software/Interface/rtc_driver.c:41-46 | with a stopping word for each wait, `write_byte` returns after exactly two polls |
| Transactions.WriteByteIgnoresAck | Software/Interface/rtc_driver.c:38-46 | an ACK error on the `wait_ready` poll does not stop `write_byte`: the events are the pointer phase, one STATUS read of ACKERROR and its clear, then the data phase and one STATUS read of DONE. The ideal chip stores the byte because it ignores the scripted NACK; that storage is the fake's behaviour, not a promise of the driver |
| Transactions.ControlThenWaitSpec | Software/Interface/rtc_driver.c:60-65 | a control write followed by `wait_done` produces that write, then the wait's events |
| Transactions.ReadByte | Software/Interface/rtc_driver.c:50-68 | `read_byte(reg)` returns the contents of `reg`, changes no register, and leaves the pointer just past `reg` |
| Transactions.ReadByteEvents | Software/Interface/rtc_driver.c:50-68 | the events are exactly pointer phase, `wait_ready`, CONTROL←ENABLE\|STOP, `wait_done`, CONTROL←ENABLE\|RW, `wait_done`, one read of READ; the byte returned is the low byte of that read |
| Transactions.ReadByteSends | Software/Interface/rtc_driver.c:53-56 | WRITE receives exactly one word, the framed register number |
| Transactions.ReadByteCompletes | Software/Interface/rtc_driver.c:57-66 | with a stopping word for each of the three waits, `read_byte` returns after exactly three polls |
| Clock.WriteAll | Software/Interface/rtc_driver.c:70-87 | after a run of `write_byte` calls to distinct registers each holds its value and no other register changes |
| Clock.ReadAll | Software/Interface/rtc_driver.c:89-106 | a run of `read_byte` calls returns the contents of the registers, in order, and changes none |
| Clock.SetTime | Software/Interface/rtc_driver.c:70-87 | after `set_rtc_time` every time register 0x00..0x06 holds the BCD encoding of its field and every other register is unchanged |
| Clock.SetTimeSends | Software/Interface/rtc_driver.c:73-86 | WRITE receives register 0x00 and the encoded seconds, then 0x01 and the minutes, … then 0x06 and the year, in that order |
| Clock.WriteAllSends | Software/Interface/rtc_driver.c:70-87 | a run of `write_byte` calls sends, per call, the register then the value |
| Clock.GetTime | Software/Interface/rtc_driver.c:89-106 | each field returned by `get_rtc_time` is the BCD decoding of its register, and no register changes |
| Clock.GetTimeSends | Software/Interface/rtc_driver.c:92-104 | WRITE receives the register numbers 0x00..0x06 in that order |
| Clock.ReadAllSends | Software/Interface/rtc_driver.c:89-106 | a run of `read_byte` calls sends one register number per call, in order |
| Clock.GetTemp | Software/Interface/rtc_driver.c:108-113 | `get_rtc_temp` returns, in quarter degrees, 4 × signed(register 0x11) + register 0x12 / 64, within -512..511, and changes no register |
| Clock.GetTempSends | Software/Interface/rtc_driver.c:109-110 | the high temperature register is read before the low one |
| Clock.GetTempCompletes | Software/Interface/rtc_driver.c:108-113 | when each of the six polls ends its wait (READY, DONE, DONE per read), `get_rtc_temp` returns the temperature that the register pair encodes |
| Clock.WriteAllCompletes | Software/Interface/rtc_driver.c:70-87 | `n` writes take exactly `2n` polls when the polls alternate between ending a `wait_ready` (READY or ACKERROR) and a `wait_done` (DONE or ACKERROR) |
| Clock.ReadAllCompletes | Software/Interface/rtc_driver.c:89-106 | `n` reads take exactly `3n` polls when each read's three polls end its `wait_ready`, then its two `wait_done` calls |
| Clock.SetTimeCompletes | Software/Interface/rtc_driver.c:70-87 | `set_rtc_time` returns after 14 polls when each ends the wait it is polled in |
| Clock.GetTimeCompletes | Software/Interface/rtc_driver.c:89-106 | `get_rtc_time` returns after 21 polls when each ends the wait it is polled in |
| Clock.SetThenGet | Software/Interface/rtc_driver.c:70-106 | getting after setting returns each field as its BCD round trip gives it, so the time comes back unchanged if and only if every field is below 160 |
| Clock.SetThenGetCompletes | Software/Interface/rtc_driver.c:70-106 | when the 14 write polls and then the 21 read polls each end their wait, setting then getting both return, and a time with every field in 0..99 comes back unchanged |
| Clock.HealthyScriptFits | Software/Interface/rtc_driver.c:14-33 | the script a healthy controller shows (READY to every `wait_ready`, DONE to every `wait_done`, never both in one word) meets the completion conditions of setting then getting the time |
| Clock.AppTime | Software/Interface/rtc_app.c:9-10 | the example time (0, 0, 12, 3, 1, 1, 25) set and read back is unchanged, on any script whose polls each end their wait |

## Left out

- `main` in `rtc_app.c` and all `printf` output: it is a demonstration caller and console I/O. Only the time it sets appears, in `Clock.AppTime`.
- `IORD_32DIRECT`/`IOWR_32DIRECT`: memory-mapped I/O is replaced by the `Io` value.
  - Writes are recorded as events and passed to the ideal chip.
  - STATUS reads take the next word of a script.
  - `I2C_0_BASE` is kept as a constant. Events carry offsets relative to it, and `Registers.ControllerOffsets` states the absolute addresses.
- The STATUS script does not react to the driver's writes. Clearing ACKERROR is recorded but does not change later status words, because real status timing is hardware behaviour outside the driver.
- The ideal chip is an assumption about the controller and the DS3231, not part of the driver.
  - It always acknowledges, and it ignores the STOP/start framing beyond what its doc comment lists.
  - Its register file is a map over all 256 pointer values.
  - Every claim about register contents, the register pointer, or values read back depends on it. The event-sequence lemmas (the `…Events`, `…Sends` and `…Completes` lemmas other than `Clock.GetTempCompletes` and `Clock.SetThenGetCompletes`) hold whatever the chip does.
- Busy-waiting forever: a wait that finds no stopping word in the script is `Blocked`. The model does not represent an infinite run of polls.
- Floating point in `get_rtc_temp`: the result is an integer count of quarter degrees, which is four times the float the driver returns.
- The BUSY status bit appears only in a header comment and the driver never tests it. CONTINUE is defined but never written by the driver. Both appear only as bit positions (`Registers.StatusBitPositions`, `Registers.ControlBitPositions`).
- Burst (CONTINUE-framed) and verbose variants of the transactions live in test programs outside this core and are not modelled.
- Concurrency, atomicity of the seven transfers, and calendar validity of the fields are not modelled. The driver validates no ranges, and neither does the model.
- Bus.WaitReady, Bus.WaitDone: their own contracts state only that the chip is untouched. The full behaviour is stated by `Bus.WaitReadyBehaves` and `Bus.WaitDoneBehaves`, so that proofs about their callers stay small.
- Transactions.ControlThenWait: its own contract states only the chip effect. The events are stated by `Transactions.ControlThenWaitSpec`.
