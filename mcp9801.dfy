/** The MCP9801 room temperature driver (room_temp.c).

    `main` opens the bus, binds address 0x4F, reads the configuration
    register and rewrites it with 0x60 (12-bit resolution) when it holds
    anything else, then reads the 16-bit ambient temperature register,
    closes the device and converts the word into degrees Celsius. */
module Mcp9801 {
  import opened I2C
  import opened Bits

  const Address: Byte := 0x4F
  const TemperatureRegister: Byte := 0
  const ConfigRegister: Byte := 1
  const ConfigValue: Byte := 0x60
  /** The time the chip gets after a configuration change, in microseconds. */
  const SettleMicros: nat := 330 * 1000

  /** The decoded measurement: the word as read and what it means. */
  datatype Reading = Reading(raw: nat, celsius: real)

  /** `(res & 0xff) + (double)(res >> 12) / 16`, as the source writes it. */
  function CelsiusBits(w: nat): real {
    And(w, 0xFF) as real + Shr(w, 12) as real / 16.0
  }

  /** The whole degrees from the low byte of the word, and sixteenths of a
      degree from its top nibble. */
  function Celsius(w: nat): (c: real)
    ensures c >= 0.0
  {
    (w % 0x100) as real + (w / 0x1000) as real / 16.0
  }

  /** The source's mask and shift are the byte and the nibble `Celsius`
      takes. */
  lemma CelsiusBitsValue(w: nat)
    ensures CelsiusBits(w) == Celsius(w)
  {
    Pow2Values();
    AndLowMask(w, 8);
    ShrValue(w, 12);
  }

  /** A word the transport can deliver reads between 0 and 255 + 15/16
      degrees. */
  lemma CelsiusRange(w: nat)
    requires w < 0x10000
    ensures 0.0 <= Celsius(w) <= 255.0 + 15.0 / 16.0
  {
    assert w / 0x1000 < 16;
  }

  /** Bits 8-11 of the word are never looked at. */
  lemma MiddleNibbleIgnored(w: nat, n: nat)
    requires n < 0x10
    ensures Celsius((w / 0x1000) * 0x1000 + n * 0x100 + w % 0x100) == Celsius(w)
  {
    var q, r := w / 0x1000, w % 0x100;
    var v := q * 0x1000 + n * 0x100 + r;
    assert v == 0x1000 * q + (n * 0x100 + r);
    DivModUnique(v, 0x1000, q, n * 0x100 + r);
    assert v == 0x100 * (q * 0x10 + n) + r;
    DivModUnique(v, 0x100, q * 0x10 + n, r);
  }

  /** For example, 0x1850 reads as 80 and 1/16 degrees. */
  lemma Example()
    ensures Celsius(0x1850) == 80.0625
  {
  }

  /** The reading of a word; `CelsiusBitsValue` ties it to the source's
      expression. */
  function Decode(w: nat): Reading {
    Reading(w, Celsius(w))
  }

  // ---------------------------------------------------------------------
  // The run of `main`, as a function of the transport's replies: replies
  // 0, 1 and 2 answer the open, the address bind and the configuration
  // read; when the configuration is rewritten, reply 3 answers that write,
  // and the temperature read gets the reply after it.

  /** Where a run ends. */
  datatype Stage = OpenFailed | BindFailed | ConfigReadFailed | WordRead

  function Stop(s: seq<Reply>): Stage {
    if CodeAt(s, 0) < 0 then OpenFailed
    else if CodeAt(s, 1) != 0 then BindFailed
    else if CodeAt(s, 2) < 0 then ConfigReadFailed
    else WordRead
  }

  /** The configuration register read does not hold 0x60. */
  predicate Rewrites(s: seq<Reply>) {
    CodeAt(s, 2) != ConfigValue as int
  }

  /** The reply to the temperature read. */
  function WordPos(s: seq<Reply>): nat {
    if Rewrites(s) then 4 else 3
  }

  /** The calls of a run that stops at `stop`, `fix` telling whether it
      rewrites the configuration. */
  function Calls(stop: Stage, fix: bool): seq<Event> {
    var setup := [OpenBus(I2cBus), SetSlaveAddr(Address)];
    var config := setup + [ReadByteData(ConfigRegister)];
    var write := if fix then [WriteByteData(ConfigRegister, ConfigValue), Sleep(SettleMicros)] else [];
    match stop
    case OpenFailed => [OpenBus(I2cBus)]
    case BindFailed => setup
    case ConfigReadFailed => config
    case WordRead => config + write + [ReadWordData(TemperatureRegister), Close]
  }

  /** How a run that stops at `stop` ends, `word` being what its temperature
      read returned. */
  function Ending(stop: Stage, word: int): Outcome<Reading> {
    match stop
    case OpenFailed => Exit(1)
    case BindFailed => Exit(1)
    case ConfigReadFailed => Exit(2)
    case WordRead => if word < 0 then Exit(2) else Done(Decode(word))
  }

  /** The calls a run makes. */
  function Log(s: seq<Reply>): seq<Event> {
    Calls(Stop(s), Rewrites(s))
  }

  /** How a run ends. */
  function Result(s: seq<Reply>): Outcome<Reading> {
    Ending(Stop(s), CodeAt(s, WordPos(s)))
  }

  /** main, from the bus open to the decoding. */
  method Run(script: seq<Reply>) returns (out: Outcome<Reading>, log: seq<Event>)
    ensures out == Result(script) && log == Log(script)
  {
    var bus := Start(script);
    var file := Next(bus).code;
    bus := Answer(bus, OpenBus(I2cBus));
    if file < 0 {
      return Exit(1), bus.trace;
    }
    var bound := Next(bus).code;
    bus := Answer(bus, SetSlaveAddr(Address));
    if bound != 0 {
      return Exit(1), bus.trace;
    }
    var res := Next(bus).code;
    bus := Answer(bus, ReadByteData(ConfigRegister));
    if res < 0 {
      return Exit(2), bus.trace;
    }
    if ConfigValue as int != res {
      // the result of the write is not looked at
      bus := Answer(bus, WriteByteData(ConfigRegister, ConfigValue));
      bus := Note(bus, Sleep(SettleMicros));
    }
    assert bus.pos == WordPos(script);
    res := Next(bus).code;
    bus := Answer(bus, ReadWordData(TemperatureRegister));
    bus := Note(bus, Close);
    if res < 0 {
      return Exit(2), bus.trace;
    }
    return Done(Decode(res)), bus.trace;
  }

  // ---------------------------------------------------------------------
  // What a run does, as properties of `Calls`, `Log` and `Result`.

  /** The bus is set up and the configuration register read succeeds. */
  predicate ConfigRead(s: seq<Reply>) {
    CodeAt(s, 0) >= 0 && CodeAt(s, 1) == 0 && CodeAt(s, 2) >= 0
  }

  /** A failed open or bind exits with status 1 before any register is
      read or written. */
  lemma SetupFailure(s: seq<Reply>)
    ensures Result(s) == Exit(1) <==> CodeAt(s, 0) < 0 || CodeAt(s, 1) != 0
    ensures Result(s) == Exit(1) ==>
              forall e :: e in Log(s) ==> e.OpenBus? || e.SetSlaveAddr?
  {
  }

  /** A failed configuration read exits with status 2, with no write and
      no temperature read. */
  lemma ConfigReadFailure(s: seq<Reply>)
    requires CodeAt(s, 0) >= 0 && CodeAt(s, 1) == 0 && CodeAt(s, 2) < 0
    ensures Result(s) == Exit(2)
    ensures forall e :: e in Log(s) ==> !e.WriteByteData? && !e.ReadWordData?
  {
  }

  /** A run writes the configuration register at most once, as its fourth
      call, exactly when the register read succeeds with a value other than
      0x60, always with 0x60, and then sleeps 330 ms; it sleeps at no other
      time. */
  lemma ConfigWriteRule(s: seq<Reply>)
    ensures WriteByteData(ConfigRegister, ConfigValue) in Log(s) <==> ConfigRead(s) && Rewrites(s)
    ensures forall e :: e in Log(s) && e.WriteByteData? ==> e == WriteByteData(ConfigRegister, ConfigValue)
    ensures forall i :: 0 <= i < |Log(s)| && Log(s)[i].WriteByteData? ==>
              i == 3 && Log(s)[i + 1] == Sleep(SettleMicros)
    ensures Slept(Log(s)) == if ConfigRead(s) && Rewrites(s) then SettleMicros else 0
  {
    var log := Log(s);
    var setup := [OpenBus(I2cBus), SetSlaveAddr(Address), ReadByteData(ConfigRegister)];
    var tail := [ReadWordData(TemperatureRegister), Close];
    if ConfigRead(s) && Rewrites(s) {
      var write := [WriteByteData(ConfigRegister, ConfigValue)];
      assert log == setup + (write + [Sleep(SettleMicros)]) + tail;
      SleptNoSleep(setup);
      SleptNoSleep(tail);
      SleptNoSleep(write);
      SleptAppend(setup + (write + [Sleep(SettleMicros)]), tail);
      SleptAppend(setup, write + [Sleep(SettleMicros)]);
      SleptAppend(write, [Sleep(SettleMicros)]);
    } else {
      SleptNoSleep(log);
    }
  }

  /** What the configuration write gets back changes nothing. */
  lemma WriteResultIgnored(s: seq<Reply>, r: Reply)
    requires ConfigRead(s) && Rewrites(s) && |s| > 3
    ensures Result(s[3 := r]) == Result(s) && Log(s[3 := r]) == Log(s)
  {
    var t := s[3 := r];
    assert ReplyAt(t, 0) == ReplyAt(s, 0) && ReplyAt(t, 1) == ReplyAt(s, 1);
    assert ReplyAt(t, 2) == ReplyAt(s, 2) && ReplyAt(t, 4) == ReplyAt(s, 4);
  }

  /** Once the configuration is read, the device is closed right after the
      temperature read, as the last call, whether or not that read failed;
      a failed temperature read then exits with status 2. */
  lemma ClosedAfterWordRead(s: seq<Reply>)
    ensures Close in Log(s) <==> ConfigRead(s)
    ensures ConfigRead(s) ==>
              && |Log(s)| >= 5 && Log(s)[|Log(s)| - 1] == Close
              && Log(s)[|Log(s)| - 2] == ReadWordData(TemperatureRegister)
    ensures ConfigRead(s) ==> (Result(s) == Exit(2) <==> CodeAt(s, WordPos(s)) < 0)
  {
  }

  /** A successful run reports the word its temperature read returned. */
  lemma ReadingIsWord(s: seq<Reply>)
    requires Result(s).Done?
    ensures ConfigRead(s) && Result(s).reading.raw == CodeAt(s, WordPos(s))
    ensures Result(s).reading.celsius == Celsius(CodeAt(s, WordPos(s)))
  {
  }
}
