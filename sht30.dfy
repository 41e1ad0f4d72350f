/** The SHT30 temperature and humidity driver (temp_humid2.c).

    `main` opens the bus, binds address 0x44, sends the single-shot measure
    command, sleeps 20 ms, reads six bytes and converts two 16-bit words into
    degrees Celsius and relative humidity; the CRC byte after each word is not
    looked at. The file's busy_wait_limited, which `main` does not call, is
    `Polling.BusyWait`. */
module Sht30 {
  import opened I2C

  const Address: Byte := 0x44
  /** `i2c_smbus_write_byte_data(file, SHT30_CMD_MEASURE1, 0x00)`. */
  const MeasureCommand: Event := WriteByteData(0x24, 0x00)
  const SettleMicros: nat := 20 * 1000
  const DataRegister: Byte := 0x00
  const DataLength: nat := 6

  /** The decoded measurement: the two words and what they mean. */
  datatype Reading = Reading(temperatureWord: nat, humidityWord: nat, temperature: real, humidity: real)

  /** `hi * 256 + lo`: the big-endian word of two bytes. */
  function Word(hi: Byte, lo: Byte): (w: nat)
    ensures w < 0x10000
  {
    hi as int * 256 + lo as int
  }

  /** The word gives its two bytes back. */
  lemma WordBytes(hi: Byte, lo: Byte)
    ensures Word(hi, lo) / 256 == hi && Word(hi, lo) % 256 == lo
  {
    var w := Word(hi, lo);
    assert w == 256 * hi + lo;
  }

  /** Degrees Celsius of a temperature word, `-45 + 175 * w / 65535`. */
  function TemperatureOf(w: nat): (t: real)
    requires w < 0x10000
    ensures -45.0 <= t <= 130.0
  {
    -45.0 + 175.0 * w as real / 65535.0
  }

  /** Relative humidity in percent of a humidity word, `100 * w / 65535`. */
  function HumidityOf(w: nat): (h: real)
    requires w < 0x10000
    ensures 0.0 <= h <= 100.0
  {
    100.0 * w as real / 65535.0
  }

  /** The smallest and the largest word give the ends of the sensor's range. */
  lemma Extremes()
    ensures TemperatureOf(0) == -45.0 && TemperatureOf(0xFFFF) == 130.0
    ensures HumidityOf(0) == 0.0 && HumidityOf(0xFFFF) == 100.0
  {
  }

  /** A larger temperature word reads as a higher temperature, and only a
      larger one does: two words read alike only when they are equal. */
  lemma TemperatureOrder(v: nat, w: nat)
    requires v < 0x10000 && w < 0x10000
    ensures v < w <==> TemperatureOf(v) < TemperatureOf(w)
  {
    if v < w {
      assert (w - v) as real > 0.0;
      assert TemperatureOf(w) - TemperatureOf(v) == 175.0 * (w - v) as real / 65535.0;
    } else {
      assert (v - w) as real >= 0.0;
      assert TemperatureOf(v) - TemperatureOf(w) == 175.0 * (v - w) as real / 65535.0;
    }
  }

  /** A larger humidity word reads as a higher humidity, and only a larger
      one does. */
  lemma HumidityOrder(v: nat, w: nat)
    requires v < 0x10000 && w < 0x10000
    ensures v < w <==> HumidityOf(v) < HumidityOf(w)
  {
    if v < w {
      assert (w - v) as real > 0.0;
      assert HumidityOf(w) - HumidityOf(v) == 100.0 * (w - v) as real / 65535.0;
    } else {
      assert (v - w) as real >= 0.0;
      assert HumidityOf(v) - HumidityOf(w) == 100.0 * (v - w) as real / 65535.0;
    }
  }

  /** Bytes 0-1 are the temperature word, bytes 3-4 the humidity word. */
  function Decode(data: seq<Byte>): (r: Reading)
    requires |data| == 6
    ensures -45.0 <= r.temperature <= 130.0 && 0.0 <= r.humidity <= 100.0
  {
    var t := Word(data[0], data[1]);
    var h := Word(data[3], data[4]);
    Reading(t, h, TemperatureOf(t), HumidityOf(h))
  }

  /** For example, a full-scale temperature word and a humidity word of
      0x8000 read as 130 degrees and just over 50 percent. */
  lemma Example()
    ensures Decode([0xFF, 0xFF, 0x00, 0x80, 0x00, 0x00]) == Reading(0xFFFF, 0x8000, 130.0, 3276800.0 / 65535.0)
    ensures 50.0 < 3276800.0 / 65535.0 < 50.001
  {
  }

  /** Bytes 2 and 5, the CRC of each word, change nothing: no checksum is
      checked. */
  lemma CrcBytesIgnored(data: seq<Byte>, b: Byte, c: Byte)
    requires |data| == 6
    ensures Decode(data[2 := b][5 := c]) == Decode(data)
  {
  }

  // ---------------------------------------------------------------------
  // The run of `main`, as a function of the transport's replies: replies
  // 0, 1, 2 and 3 answer the open, the address bind, the measure command
  // and the block read.

  /** Where a run ends, named after the source's error messages. */
  datatype Stage = OpenFailed | BindFailed | CommandFailed | ReadFailed | Measured

  function Stop(s: seq<Reply>): Stage {
    if CodeAt(s, 0) < 0 then OpenFailed
    else if CodeAt(s, 1) != 0 then BindFailed
    else if CodeAt(s, 2) < 0 then CommandFailed
    else if CodeAt(s, 3) < 0 then ReadFailed
    else Measured
  }

  /** The calls of a run that stops at `stop`. */
  function Calls(stop: Stage): seq<Event> {
    var setup := [OpenBus(I2cBus), SetSlaveAddr(Address)];
    var measure := setup + [MeasureCommand, Sleep(SettleMicros), ReadBlockData(DataRegister, DataLength)];
    match stop
    case OpenFailed => [OpenBus(I2cBus)]
    case BindFailed => setup
    case CommandFailed => setup + [MeasureCommand]
    case ReadFailed => measure
    case Measured => measure + [Close]
  }

  /** How a run that stops at `stop` ends, `read` being the reply to its
      block read. */
  function Ending(stop: Stage, read: Reply): Outcome<Reading> {
    match stop
    case OpenFailed => Exit(1)
    case BindFailed => Exit(1)
    case Measured => Done(Decode(Received(read, DataLength)))
    case _ => Exit(2)
  }

  /** The calls a run makes. */
  function Log(s: seq<Reply>): seq<Event> {
    Calls(Stop(s))
  }

  /** How a run ends. */
  function Result(s: seq<Reply>): Outcome<Reading> {
    Ending(Stop(s), ReplyAt(s, 3))
  }

  /** main, from the bus open to the decoding. */
  method Run(script: seq<Reply>) returns (out: Outcome<Reading>, log: seq<Event>)
    ensures out == Result(script) && log == Log(script)
  {
    var bus := Start(script);
    var file := Next(bus).code;
    bus := Answer(bus, OpenBus(I2cBus));
    if file < 0 {
      return Exit(1), bus.trace;
    }
    var bound := Next(bus).code;
    bus := Answer(bus, SetSlaveAddr(Address));
    if bound != 0 {
      return Exit(1), bus.trace;
    }
    var sent := Next(bus).code;
    bus := Answer(bus, MeasureCommand);
    if sent < 0 {
      return Exit(2), bus.trace;
    }
    bus := Note(bus, Sleep(SettleMicros));
    var reply := Next(bus);
    bus := Answer(bus, ReadBlockData(DataRegister, DataLength));
    if reply.code < 0 {
      return Exit(2), bus.trace;
    }
    bus := Note(bus, Close);
    var reading := Decode(Received(reply, DataLength));
    return Done(reading), bus.trace;
  }

  // ---------------------------------------------------------------------
  // What a run does, as properties of `Calls`, `Log` and `Result`.

  /** The measure command was accepted: the bus is set up and the command
      write did not fail. */
  predicate CommandSent(s: seq<Reply>) {
    CodeAt(s, 0) >= 0 && CodeAt(s, 1) == 0 && CodeAt(s, 2) >= 0
  }

  /** Each stage's calls begin those of a run that fails nowhere: a run
      stops at the first step that fails. */
  lemma CallsArePrefix(stop: Stage)
    ensures Calls(stop) <= Calls(Measured)
  {
  }

  /** Exit status 1 exactly when the bus cannot be set up, a reading exactly
      when every step succeeds, and exit status 2 otherwise. */
  lemma ExitStatus(s: seq<Reply>)
    ensures Result(s) == Exit(1) <==> CodeAt(s, 0) < 0 || CodeAt(s, 1) != 0
    ensures Result(s).Done? <==> CommandSent(s) && CodeAt(s, 3) >= 0
    ensures Result(s) == Exit(2) <==>
              CodeAt(s, 0) >= 0 && CodeAt(s, 1) == 0 && (CodeAt(s, 2) < 0 || CodeAt(s, 3) < 0)
  {
  }

  /** A run sleeps, and reads the data, exactly when the measure command is
      accepted; then it sleeps once, 20 ms, right before the block read. */
  lemma SleepsBeforeRead(s: seq<Reply>)
    ensures ReadBlockData(DataRegister, DataLength) in Log(s) <==> CommandSent(s)
    ensures Slept(Log(s)) == if CommandSent(s) then SettleMicros else 0
    ensures CommandSent(s) ==> Log(s)[3..5] == [Sleep(SettleMicros), ReadBlockData(DataRegister, DataLength)]
  {
    var log := Log(s);
    if CommandSent(s) {
      var measure := [OpenBus(I2cBus), SetSlaveAddr(Address), MeasureCommand];
      var rest := [Sleep(SettleMicros), ReadBlockData(DataRegister, DataLength)];
      var tail := if Stop(s) == Measured then [Close] else [];
      assert log == measure + rest + tail;
      SleptNoSleep(measure);
      SleptNoSleep(tail);
      SleptAppend(measure + rest, tail);
      SleptAppend(measure, rest);
      assert rest == [Sleep(SettleMicros)] + [ReadBlockData(DataRegister, DataLength)];
      SleptAppend([Sleep(SettleMicros)], [ReadBlockData(DataRegister, DataLength)]);
      SleptNoSleep([ReadBlockData(DataRegister, DataLength)]);
    } else {
      SleptNoSleep(log);
    }
  }

  /** The device is closed only by a run that fails nowhere, as its last
      call, right after the block read. */
  lemma CloseOnlyOnSuccess(s: seq<Reply>)
    ensures Close in Log(s) <==> Stop(s) == Measured
    ensures Stop(s) == Measured ==> |Log(s)| == 6 && Log(s)[5] == Close && Log(s)[4].ReadBlockData?
  {
  }

  /** A run looks at the replies to its first four calls and at no others. */
  lemma RunFrame(s: seq<Reply>, t: seq<Reply>)
    requires forall j :: 0 <= j < 4 ==> ReplyAt(t, j) == ReplyAt(s, j)
    ensures Result(t) == Result(s) && Log(t) == Log(s)
  {
    assert ReplyAt(t, 0) == ReplyAt(s, 0) && ReplyAt(t, 1) == ReplyAt(s, 1);
    assert ReplyAt(t, 2) == ReplyAt(s, 2) && ReplyAt(t, 3) == ReplyAt(s, 3);
  }
}
