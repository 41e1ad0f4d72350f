/** The AHT10 temperature and humidity driver (temp_humid.c).

    `main` opens the bus, binds address 0x38, sends the calibrate command,
    waits for the BUSY status bit to clear, checks the CALIBRATED bit, sends
    the trigger command, waits again, reads six bytes and unpacks two 20-bit
    fields from them. The soft-reset step and the exit on a failed calibrate
    command are compiled out in the source and are not part of this model. */
module Aht10 {
  import opened I2C
  import opened Bits
  import Polling

  const Address: Byte := 0x38
  const CalibrateCommand: Event := WriteBlockData(0xE1, [0x08, 0x00])
  const TriggerCommand: Event := WriteBlockData(0xAC, [0x33, 0x00])
  const StatusBusy: nat := 0x80
  const StatusCalibrated: nat := 0x08
  const Timeout10Ms: Byte := 10
  const Timeout20Ms: Byte := 20
  const BusyWaitRetries: Byte := 20
  const DataRegister: Byte := 0x00
  const DataLength: nat := 6

  /** getStatus: the status byte of one `i2c_smbus_read_byte`, read through
      an `int8_t`, so that a negative value (an error, or a byte with bit 7
      set) reads as 0xFF. */
  function Status(code: int): (s: Byte)
    ensures s == 0xFF || s < 0x80
    ensures 0 <= code < 0x80 ==> s == code
    ensures 0x80 <= code < 0x100 ==> s == 0xFF
    ensures -0x80 <= code < 0 ==> s == 0xFF
  {
    var v := Polling.Int8(code);
    if v < 0 then 0xFF else v
  }

  /** `status & AHTX0_STATUS_BUSY`, as a test of bit 7. */
  predicate Busy(s: Byte) {
    (s / StatusBusy) % 2 == 1
  }

  /** `status & AHTX0_STATUS_CALIBRATED`, as a test of bit 3. */
  predicate Calibrated(s: Byte) {
    (s / StatusCalibrated) % 2 == 1
  }

  /** The bit tests agree with the source's masks. */
  lemma StatusMasks(s: Byte)
    ensures Busy(s) <==> And(s, StatusBusy) != 0
    ensures Calibrated(s) <==> And(s, StatusCalibrated) != 0
  {
    Pow2Values();
    AndBit(s, 7);
    AndBit(s, 3);
  }

  /** This file's busy test, bit 7 of getStatus, holds exactly when the
      `int8_t` read is negative, the test temp_humid2.c writes out; so
      `Polling.BusyWait` models this file's busy_wait_limited too. */
  lemma BusyBitIsStillBusy(code: int)
    ensures Busy(Status(code)) <==> Polling.StillBusy(code)
  {
  }

  /** A failed status read reads as 0xFF, which has the CALIBRATED bit set. */
  lemma FailedReadLooksCalibrated(code: int)
    requires -0x80 <= code < 0
    ensures Status(code) == 0xFF && Calibrated(Status(code)) && Busy(Status(code))
  {
  }

  /** The decoded measurement: the two 20-bit fields and what they mean. */
  datatype Reading = Reading(humidityRaw: nat, temperatureRaw: nat, humidity: real, temperature: real)

  /** `uint32_t h`: bits 19-12 from byte 1, bits 11-4 from byte 2 and
      bits 3-0 from the top nibble of byte 3. */
  function HumidityRaw(data: seq<Byte>): (h: nat)
    requires |data| == 6
    ensures h < 0x100000
  {
    data[1] as int * 0x1000 + data[2] as int * 0x10 + data[3] as int / 0x10
  }

  /** `uint32_t tdata`: bits 19-16 from the low nibble of byte 3, bits 15-8
      from byte 4 and bits 7-0 from byte 5. */
  function TemperatureRaw(data: seq<Byte>): (t: nat)
    requires |data| == 6
    ensures t < 0x100000
  {
    (data[3] as int % 0x10) * 0x10000 + data[4] as int * 0x100 + data[5] as int
  }

  /** The shifts and ors the source writes for `h`. */
  function HumidityBits(data: seq<Byte>): nat
    requires |data| == 6
  {
    var h0 := data[1];
    var h1 := Or(Shl32(h0, 8), data[2]);
    Or(Shl32(h1, 4), Shr(data[3], 4))
  }

  /** The mask, shifts and ors the source writes for `tdata`. */
  function TemperatureBits(data: seq<Byte>): nat
    requires |data| == 6
  {
    var t0 := And(data[3], 0x0F);
    var t1 := Or(Shl32(t0, 8), data[4]);
    Or(Shl32(t1, 8), data[5])
  }

  /** No bit of one byte lands on another's: the source's construction of
      `h` is the field `HumidityRaw` describes. */
  lemma HumidityBitsValue(data: seq<Byte>)
    requires |data| == 6
    ensures HumidityBits(data) == HumidityRaw(data)
  {
    Pow2Values();
    var d1: nat, d2: nat, d3: nat := data[1], data[2], data[3];
    ShlExact(d1, 8);
    OrDisjoint(d1, d2, 8);
    var h1 := d1 * 0x100 + d2;
    assert Or(Shl32(d1, 8), d2) == h1;
    ShlExact(h1, 4);
    ShrValue(d3, 4);
    OrDisjoint(h1, d3 / 0x10, 4);
  }

  /** The source's construction of `tdata` is the field `TemperatureRaw`
      describes. */
  lemma TemperatureBitsValue(data: seq<Byte>)
    requires |data| == 6
    ensures TemperatureBits(data) == TemperatureRaw(data)
  {
    Pow2Values();
    var d3: nat, d4: nat, d5: nat := data[3], data[4], data[5];
    AndLowMask(d3, 4);
    var t0: nat := d3 % 0x10;
    assert And(d3, 0x0F) == t0;
    ShlExact(t0, 8);
    OrDisjoint(t0, d4, 8);
    var t1 := t0 * 0x100 + d4;
    assert Or(Shl32(t0, 8), d4) == t1;
    ShlExact(t1, 8);
    OrDisjoint(t1, d5, 8);
  }

  /** Relative humidity in percent, `h * 100 / 2^20`. */
  function Humidity(data: seq<Byte>): (humidity: real)
    requires |data| == 6
    ensures 0.0 <= humidity < 100.0
  {
    HumidityRaw(data) as real * 100.0 / 1048576.0
  }

  /** Temperature in degrees Celsius, `tdata * 200 / 2^20 - 50`. */
  function Temperature(data: seq<Byte>): (temperature: real)
    requires |data| == 6
    ensures -50.0 <= temperature < 150.0
  {
    TemperatureRaw(data) as real * 200.0 / 1048576.0 - 50.0
  }

  function Decode(data: seq<Byte>): Reading
    requires |data| == 6
  {
    Reading(HumidityRaw(data), TemperatureRaw(data), Humidity(data), Temperature(data))
  }

  /** Bytes 0x00 0x80 0x00 0x00 0x00 0x00 read as half humidity at -50 C. */
  lemma HalfHumidity()
    ensures Decode([0x00, 0x80, 0x00, 0x00, 0x00, 0x00]) == Reading(0x80000, 0, 50.0, -50.0)
  {
  }

  /** Byte 0, the status byte of the reply, affects neither reading. */
  lemma StatusByteIgnored(data: seq<Byte>, b: Byte)
    requires |data| == 6
    ensures Decode(data[0 := b]) == Decode(data)
  {
  }

  // ---------------------------------------------------------------------
  // The run of `main`, as a function of the transport's replies. Replies
  // 0, 1 and 2 answer the open, the address bind and the calibrate command;
  // the first poll starts with reply 3.

  /** Busy statuses in a row the wait after the calibrate command sees;
      21 means it timed out. */
  function CalibrateBusy(s: seq<Reply>): nat {
    Polling.BusyRun(s, 3, BusyWaitRetries + 1)
  }

  /** The reply to the status read that checks the CALIBRATED bit. */
  function StatusPos(s: seq<Reply>): nat {
    3 + CalibrateBusy(s) + 1
  }

  /** The reply to the trigger command. */
  function TriggerPos(s: seq<Reply>): nat {
    StatusPos(s) + 1
  }

  /** The reply to the first poll of the wait after the trigger command. */
  function MeasureStart(s: seq<Reply>): nat {
    TriggerPos(s) + 1
  }

  /** Busy statuses in a row the wait after the trigger command sees. */
  function MeasureBusy(s: seq<Reply>): nat {
    Polling.BusyRun(s, MeasureStart(s), BusyWaitRetries + 1)
  }

  /** The reply to the six-byte block read when the wait before it starts
      with reply `p`. */
  function ReadAt(s: seq<Reply>, p: nat): nat {
    p + Polling.BusyRun(s, p, BusyWaitRetries + 1) + 1
  }

  /** The reply to the six-byte block read. */
  function ReadPos(s: seq<Reply>): nat {
    ReadAt(s, MeasureStart(s))
  }

  /** Where a run ends, named after the source's error messages. */
  datatype Stage =
    | OpenFailed | BindFailed | CalibrateTimeout | NotCalibrated
    | TriggerFailed | MeasureTimeout | ReadFailed | Measured

  function Stop(s: seq<Reply>): Stage {
    if CodeAt(s, 0) < 0 then OpenFailed
    else if CodeAt(s, 1) != 0 then BindFailed
    else if CalibrateBusy(s) > BusyWaitRetries then CalibrateTimeout
    else if !Calibrated(Status(CodeAt(s, StatusPos(s)))) then NotCalibrated
    else if CodeAt(s, TriggerPos(s)) < 0 then TriggerFailed
    else MeasureStop(s, MeasureStart(s))
  }

  /** Where the end of main, from the wait after the trigger command on,
      stops when that wait's first poll gets reply `p`. */
  function MeasureStop(s: seq<Reply>, p: nat): Stage {
    if Polling.BusyRun(s, p, BusyWaitRetries + 1) > BusyWaitRetries then MeasureTimeout
    else if CodeAt(s, ReadAt(s, p)) < 0 then ReadFailed
    else Measured
  }

  // The calls of a run. They depend on the replies only through the stage
  // where the run stops and the busy rounds of its two waits.

  /** Open, bind, and the calibrate command. */
  function Setup(): seq<Event> {
    [OpenBus(I2cBus), SetSlaveAddr(Address), CalibrateCommand]
  }

  /** ... then `a` busy rounds of the wait after the calibrate command. */
  function Calibrating(a: nat): seq<Event> {
    Setup() + Polling.Polls(a, Timeout10Ms)
  }

  /** ... then the wait's last status read, the CALIBRATED check and the
      trigger command. */
  function Triggered(a: nat): seq<Event> {
    Calibrating(a) + [ReadByte, ReadByte, TriggerCommand]
  }

  /** The calls after the trigger command: `b` busy rounds of the second
      wait, its last status read and the block read, and the close when
      the block read succeeds. */
  function MeasureCalls(stop: Stage, b: nat): seq<Event> {
    var polls := Polling.Polls(b, Timeout20Ms);
    match stop
    case MeasureTimeout => polls
    case ReadFailed => polls + [ReadByte, ReadBlockData(DataRegister, DataLength)]
    case _ => polls + [ReadByte, ReadBlockData(DataRegister, DataLength), Close]
  }

  /** How the end of main, its first poll getting reply `p`, ends. */
  function MeasureResult(s: seq<Reply>, p: nat): Outcome<Reading> {
    Ending(MeasureStop(s, p), ReplyAt(s, ReadAt(s, p)))
  }

  /** The calls the end of main makes, its first poll getting reply `p`. */
  function MeasureTrace(s: seq<Reply>, p: nat): seq<Event> {
    MeasureCalls(MeasureStop(s, p), Polling.BusyRun(s, p, BusyWaitRetries + 1))
  }

  /** The calls of a run that stops at `stop`, its waits having seen `a` and
      `b` busy statuses in a row. */
  function Calls(stop: Stage, a: nat, b: nat): seq<Event> {
    match stop
    case OpenFailed => [OpenBus(I2cBus)]
    case BindFailed => [OpenBus(I2cBus), SetSlaveAddr(Address)]
    case CalibrateTimeout => Calibrating(a)
    case NotCalibrated => Calibrating(a) + [ReadByte, ReadByte]
    case TriggerFailed => Triggered(a)
    case _ => Triggered(a) + MeasureCalls(stop, b)
  }

  /** How a run that stops at `stop` ends, `read` being the reply to its
      block read: exit status 1 when the bus cannot be set up, 2 on a later
      failure, and otherwise the decoded block. */
  function Ending(stop: Stage, read: Reply): Outcome<Reading> {
    match stop
    case OpenFailed => Exit(1)
    case BindFailed => Exit(1)
    case Measured => Done(Decode(Received(read, DataLength)))
    case _ => Exit(2)
  }

  /** The calls a run makes. */
  function Log(s: seq<Reply>): seq<Event> {
    Calls(Stop(s), CalibrateBusy(s), MeasureBusy(s))
  }

  /** How a run ends. */
  function Result(s: seq<Reply>): Outcome<Reading> {
    Ending(Stop(s), ReplyAt(s, ReadPos(s)))
  }

  /** main: opens the bus and binds the address, then `Calibrate` runs
      the rest. */
  method Run(script: seq<Reply>) returns (out: Outcome<Reading>, log: seq<Event>)
    ensures out == Result(script) && log == Log(script)
  {
    var bus := Start(script);
    var file := Next(bus).code;
    bus := Answer(bus, OpenBus(I2cBus));
    if file < 0 {
      assert Stop(script) == OpenFailed;
      return Exit(1), bus.trace;
    }
    var bound := Next(bus).code;
    bus := Answer(bus, SetSlaveAddr(Address));
    if bound != 0 {
      assert Stop(script) == BindFailed;
      return Exit(1), bus.trace;
    }
    // the result of the calibrate command is not looked at
    bus := Answer(bus, CalibrateCommand);
    assert bus.script == script && bus.pos == 3 && bus.trace == Setup();
    out, log := Calibrate(bus);
  }

  /** main, from the wait after the calibrate command to the trigger
      command; `Measure` does the rest. */
  method Calibrate(bus: Bus) returns (out: Outcome<Reading>, log: seq<Event>)
    requires CodeAt(bus.script, 0) >= 0 && CodeAt(bus.script, 1) == 0
    requires bus.pos == 3 && bus.trace == Setup()
    ensures out == Result(bus.script) && log == Log(bus.script)
  {
    var s := bus.script;
    var waited, b := CalibrationWait(bus);
    if waited < 0 {
      EndsAt(s, CalibrateTimeout);
      return Exit(2), b.trace;
    }
    var status := Status(Next(b).code);
    b := Answer(b, ReadByte);
    if !Calibrated(status) {
      EndsAt(s, NotCalibrated);
      return Exit(2), b.trace;
    }
    var sent := Next(b).code;
    b := Answer(b, TriggerCommand);
    if sent < 0 {
      EndsAt(s, TriggerFailed);
      return Exit(2), b.trace;
    }
    assert b.script == s && b.pos == MeasureStart(s);
    assert b.trace == Triggered(CalibrateBusy(s));
    var after;
    out, after := Measure(b);
    Triggering(s);
    log := after.trace;
  }

  /** A run that stops before the trigger command is sent ends with exit
      status 2 and the calls `Calls` gives that stage. */
  lemma EndsAt(s: seq<Reply>, stop: Stage)
    requires stop.CalibrateTimeout? || stop.NotCalibrated? || stop.TriggerFailed?
    requires Stop(s) == stop
    ensures Result(s) == Exit(2) && Log(s) == Calls(stop, CalibrateBusy(s), 0)
  {
  }

  /** The wait after the calibrate command, where main makes it: it gives
      up after 21 busy statuses and otherwise leaves the bus at the
      CALIBRATED check. */
  method CalibrationWait(bus: Bus) returns (waited: int, after: Bus)
    requires bus.pos == 3 && bus.trace == Setup()
    ensures waited < 0 <==> CalibrateBusy(bus.script) > BusyWaitRetries
    ensures waited < 0 ==> after.trace == Calibrating(CalibrateBusy(bus.script))
    ensures after.script == bus.script
    ensures waited >= 0 ==> after.pos == StatusPos(bus.script)
    ensures waited >= 0 ==> after.trace == Calibrating(CalibrateBusy(bus.script)) + [ReadByte]
  {
    waited, after := Polling.BusyWait(bus, Timeout10Ms, BusyWaitRetries);
  }

  /** The end of main: the wait after the trigger command, the block read,
      the decoding and the close. */
  method Measure(bus: Bus) returns (out: Outcome<Reading>, after: Bus)
    ensures out == MeasureResult(bus.script, bus.pos)
    ensures after.trace == bus.trace + MeasureTrace(bus.script, bus.pos)
  {
    var waited;
    waited, after := Polling.BusyWait(bus, Timeout20Ms, BusyWaitRetries);
    if waited < 0 {
      return Exit(2), after;
    }
    var reply := Next(after);
    after := Answer(after, ReadBlockData(DataRegister, DataLength));
    if reply.code < 0 {
      return Exit(2), after;
    }
    var reading := Decode(Received(reply, DataLength));
    after := Note(after, Close);
    return Done(reading), after;
  }

  // ---------------------------------------------------------------------
  // What a run does, as properties of `Calls`, `Log` and `Result`.

  /** The stages in which the trigger command has been sent. */
  predicate PastTrigger(stop: Stage) {
    stop.TriggerFailed? || stop.MeasureTimeout? || stop.ReadFailed? || stop.Measured?
  }

  /** Each stage's calls begin those of a run that fails nowhere: the calls
      come in one order, and a run stops at the first that fails. */
  lemma CallsArePrefix(stop: Stage, a: nat, b: nat)
    ensures Calls(stop, a, b) <= Calls(Measured, a, b)
  {
    var tail := MeasureCalls(Measured, b);
    assert Calls(Measured, a, b) == Setup() + Polling.Polls(a, Timeout10Ms) + [ReadByte, ReadByte, TriggerCommand] + tail;
    assert Setup() == [OpenBus(I2cBus), SetSlaveAddr(Address)] + [CalibrateCommand];
    assert MeasureCalls(MeasureTimeout, b) <= tail && MeasureCalls(ReadFailed, b) <= tail;
  }

  /** The device is closed only by a run that fails nowhere. */
  lemma CallsClose(stop: Stage, a: nat, b: nat)
    ensures Close in Calls(stop, a, b) <==> stop == Measured
  {
    Polling.PollsEvents(a, Timeout10Ms);
    Polling.PollsEvents(b, Timeout20Ms);
    assert Close !in Triggered(a);
  }

  /** The trigger command is sent only by a run that got past the CALIBRATED
      check. */
  lemma CallsTrigger(stop: Stage, a: nat, b: nat)
    ensures TriggerCommand in Calls(stop, a, b) <==> PastTrigger(stop)
  {
    Polling.PollsEvents(a, Timeout10Ms);
    assert TriggerCommand !in Calibrating(a) + [ReadByte, ReadByte];
    assert TriggerCommand in Triggered(a);
  }

  /** The wait after the calibrate command sleeps 10 ms per busy round, and
      nothing else up to the trigger command sleeps. */
  lemma TriggeredSleep(a: nat)
    ensures Slept(Calibrating(a)) == a * 10000
    ensures Slept(Calibrating(a) + [ReadByte, ReadByte]) == a * 10000
    ensures Slept(Triggered(a)) == a * 10000
  {
    var middle := [ReadByte, ReadByte, TriggerCommand];
    SleptNoSleep(Setup());
    SleptNoSleep(middle);
    SleptNoSleep(middle[..2]);
    assert middle[..2] == [ReadByte, ReadByte];
    Polling.SleptPolls(a, Timeout10Ms);
    SleptAppend(Setup(), Polling.Polls(a, Timeout10Ms));
    SleptAppend(Calibrating(a), middle[..2]);
    SleptAppend(Calibrating(a), middle);
  }

  /** The wait after the trigger command sleeps 20 ms per busy round, and
      nothing after it sleeps. */
  lemma MeasureCallsSleep(stop: Stage, b: nat)
    ensures Slept(MeasureCalls(stop, b)) == b * 20000
  {
    var polls := Polling.Polls(b, Timeout20Ms);
    var tail := [ReadByte, ReadBlockData(DataRegister, DataLength), Close];
    Polling.SleptPolls(b, Timeout20Ms);
    SleptNoSleep(tail);
    SleptNoSleep(tail[..2]);
    SleptAppend(polls, tail);
    SleptAppend(polls, tail[..2]);
    assert tail[..2] == [ReadByte, ReadBlockData(DataRegister, DataLength)];
  }

  /** A run sleeps 10 ms per busy round of the first wait once the calibrate
      command is sent, and 20 ms per busy round of the second once the
      trigger command is sent, and at no other time. */
  lemma CallsSleep(stop: Stage, a: nat, b: nat)
    ensures Slept(Calls(stop, a, b)) ==
              (if stop.OpenFailed? || stop.BindFailed? then 0 else a * 10000)
              + (if stop.MeasureTimeout? || stop.ReadFailed? || stop.Measured? then b * 20000 else 0)
  {
    match stop
    case OpenFailed =>
      SleptNoSleep([OpenBus(I2cBus)]);
    case BindFailed =>
      SleptNoSleep([OpenBus(I2cBus), SetSlaveAddr(Address)]);
    case CalibrateTimeout =>
      TriggeredSleep(a);
    case NotCalibrated =>
      TriggeredSleep(a);
    case TriggerFailed =>
      TriggeredSleep(a);
    case _ =>
      TriggeredSleep(a);
      MeasureCallsSleep(stop, b);
      SleptAppend(Triggered(a), MeasureCalls(stop, b));
  }

  /** Once the trigger command is sent, the end of main decides the run. */
  lemma Triggering(s: seq<Reply>)
    requires CodeAt(s, 0) >= 0 && CodeAt(s, 1) == 0 && CalibrateBusy(s) <= BusyWaitRetries
    requires Calibrated(Status(CodeAt(s, StatusPos(s)))) && CodeAt(s, TriggerPos(s)) >= 0
    ensures Stop(s) == MeasureStop(s, MeasureStart(s)) && PastTrigger(Stop(s))
    ensures Result(s) == MeasureResult(s, MeasureStart(s))
    ensures Log(s) == Triggered(CalibrateBusy(s)) + MeasureTrace(s, MeasureStart(s))
  {
    var stop := MeasureStop(s, MeasureStart(s));
    assert stop.MeasureTimeout? || stop.ReadFailed? || stop.Measured?;
    assert Stop(s) == stop;
  }

  /** A run makes the calls of one that fails nowhere, in order, and stops
      at the first that fails; only a run that fails nowhere closes the
      device. */
  lemma LogIsPrefix(s: seq<Reply>)
    ensures Log(s) <= Calls(Measured, CalibrateBusy(s), MeasureBusy(s))
    ensures Close in Log(s) <==> Stop(s) == Measured
  {
    CallsArePrefix(Stop(s), CalibrateBusy(s), MeasureBusy(s));
    CallsClose(Stop(s), CalibrateBusy(s), MeasureBusy(s));
  }

  /** The trigger command is sent exactly when the bus is set up, the first
      wait ends in time and the CALIBRATED check passes. */
  lemma TriggeredOnlyWhenCalibrated(s: seq<Reply>)
    ensures TriggerCommand in Log(s) <==>
              && CodeAt(s, 0) >= 0 && CodeAt(s, 1) == 0
              && CalibrateBusy(s) <= BusyWaitRetries
              && Calibrated(Status(CodeAt(s, StatusPos(s))))
  {
    CallsTrigger(Stop(s), CalibrateBusy(s), MeasureBusy(s));
  }

  /** A status read that fails, or that returns a byte with bit 7 set, reads
      as 0xFF through getStatus and so passes the CALIBRATED check. */
  lemma UnreadableStatusPasses(s: seq<Reply>)
    requires CodeAt(s, 0) >= 0 && CodeAt(s, 1) == 0 && CalibrateBusy(s) <= BusyWaitRetries
    requires Polling.StillBusy(CodeAt(s, StatusPos(s)))
    ensures Stop(s) != NotCalibrated
  {
  }

  /** The first wait times out exactly when its 21 status reads all say busy. */
  lemma CalibrateTimeoutMeansBusy(s: seq<Reply>)
    ensures Stop(s) == CalibrateTimeout <==>
              && CodeAt(s, 0) >= 0 && CodeAt(s, 1) == 0
              && forall j :: 3 <= j < 24 ==> Polling.StillBusy(CodeAt(s, j))
  {
    Polling.FullRun(s, 3, BusyWaitRetries + 1);
  }

  /** A run sleeps at most what its two bounded waits allow: 21 rounds of
      10 ms and 21 rounds of 20 ms. */
  lemma BoundedSleep(s: seq<Reply>)
    ensures Slept(Log(s)) <= 21 * 10000 + 21 * 20000
  {
    CallsSleep(Stop(s), CalibrateBusy(s), MeasureBusy(s));
    assert CalibrateBusy(s) <= 21 && MeasureBusy(s) <= 21;
  }

  /** Two scripts that agree on the replies to the open and the bind and
      on those from the first poll on. */
  ghost predicate SameReplies(s: seq<Reply>, t: seq<Reply>) {
    && CodeAt(t, 0) == CodeAt(s, 0) && CodeAt(t, 1) == CodeAt(s, 1)
    && forall j :: j >= 3 ==> ReplyAt(t, j) == ReplyAt(s, j)
  }

  /** Such scripts put every reply main looks at in the same place, and
      give the same replies there. */
  lemma PositionsFrame(s: seq<Reply>, t: seq<Reply>)
    requires SameReplies(s, t)
    ensures CalibrateBusy(t) == CalibrateBusy(s) && MeasureBusy(t) == MeasureBusy(s)
    ensures CodeAt(t, StatusPos(s)) == CodeAt(s, StatusPos(s))
    ensures CodeAt(t, TriggerPos(s)) == CodeAt(s, TriggerPos(s))
    ensures ReplyAt(t, ReadPos(s)) == ReplyAt(s, ReadPos(s))
  {
    Polling.BusyRunFrame(s, t, 3, BusyWaitRetries + 1);
    assert MeasureStart(t) == MeasureStart(s);
    Polling.BusyRunFrame(s, t, MeasureStart(s), BusyWaitRetries + 1);
  }

  /** Where a run stops depends on the replies through these values only. */
  lemma StopFrame(s: seq<Reply>, t: seq<Reply>)
    requires CodeAt(t, 0) == CodeAt(s, 0) && CodeAt(t, 1) == CodeAt(s, 1)
    requires CalibrateBusy(t) == CalibrateBusy(s) && MeasureBusy(t) == MeasureBusy(s)
    requires CodeAt(t, StatusPos(s)) == CodeAt(s, StatusPos(s))
    requires CodeAt(t, TriggerPos(s)) == CodeAt(s, TriggerPos(s))
    requires CodeAt(t, ReadPos(s)) == CodeAt(s, ReadPos(s))
    ensures Stop(t) == Stop(s)
  {
    assert StatusPos(t) == StatusPos(s) && TriggerPos(t) == TriggerPos(s);
    var p := MeasureStart(s);
    assert MeasureStart(t) == p && ReadAt(t, p) == ReadAt(s, p);
    assert MeasureStop(t, p) == MeasureStop(s, p);
  }

  /** A run looks at the replies to the open and the bind, and at those
      from the first poll on, and at no others. */
  lemma RunFrame(s: seq<Reply>, t: seq<Reply>)
    requires SameReplies(s, t)
    ensures Stop(t) == Stop(s) && Result(t) == Result(s) && Log(t) == Log(s)
  {
    PositionsFrame(s, t);
    StopFrame(s, t);
    assert ReadPos(t) == ReadPos(s);
  }

  /** What the calibrate command gets back does not change the run. */
  lemma CalibrateReplyIgnored(s: seq<Reply>, r: Reply)
    requires |s| > 2
    ensures Result(s[2 := r]) == Result(s) && Log(s[2 := r]) == Log(s)
  {
    var t := s[2 := r];
    assert forall j :: j != 2 ==> ReplyAt(t, j) == ReplyAt(s, j);
    assert SameReplies(s, t);
    RunFrame(s, t);
  }
}
