/** `busy_wait_limited`, the bounded status poll of the AHT10 driver
    (temp_humid.c) and of the SHT30 driver (temp_humid2.c).

    Both files define the same loop: read a status byte, and while it says
    busy, sleep `loop_delay_ms` and count a retry, giving up once the count
    exceeds `max_retries`. temp_humid2.c tests `(int8_t)status < 0`;
    temp_humid.c tests bit 7 of its own `getStatus`, and
    `Aht10.BusyBitIsStillBusy` shows that the two tests agree, so one method
    models both. */
module Polling {
  import opened I2C

  /** The C conversion of an `int` to `int8_t`: two's complement truncation. */
  function Int8(v: int): (r: int)
    ensures -0x80 <= r < 0x80
  {
    if -0x80 <= v < 0x80 then v
    else if 0x80 <= v < 0x100 then v - 0x100
    else (v + 0x80) % 0x100 - 0x80
  }

  /** `Int8` keeps the value modulo 2^8, so it is the truncation a
      conversion to `int8_t` performs. */
  lemma Int8Truncates(v: int)
    ensures (v - Int8(v)) % 0x100 == 0
  {
  }

  /** The loop test of both busy waits on one `i2c_smbus_read_byte` result. */
  predicate StillBusy(code: int) {
    Int8(code) < 0
  }

  /** How many busy statuses the script holds in a row from position `from`,
      looking at no more than `n` of them. */
  function BusyRun(script: seq<Reply>, from: nat, n: nat): (k: nat)
    ensures k <= n
    ensures k < n ==> !StillBusy(CodeAt(script, from + k))
    decreases n
  {
    if n == 0 || !StillBusy(CodeAt(script, from)) then 0
    else 1 + BusyRun(script, from + 1, n - 1)
  }

  /** Every status the run counts says busy. */
  lemma {:induction false} BusyBefore(script: seq<Reply>, from: nat, n: nat, j: int)
    ensures from <= j < from + BusyRun(script, from, n) ==> StillBusy(CodeAt(script, j))
    decreases n
  {
    if n > 0 && j > from {
      BusyBefore(script, from + 1, n - 1, j);
    }
  }

  /** The calls of `n` busy rounds of a poll: a status read, then a sleep of
      `delayMs` milliseconds. */
  function Polls(n: nat, delayMs: Byte): (p: seq<Event>)
    ensures |p| == 2 * n
  {
    if n == 0 then [] else Polls(n - 1, delayMs) + [ReadByte, Sleep(delayMs * 1000)]
  }

  /** A poll makes no calls but status reads and sleeps of its delay. */
  lemma {:induction false} PollsEvents(n: nat, delayMs: Byte)
    ensures forall e :: e in Polls(n, delayMs) ==> e == ReadByte || e == Sleep(delayMs * 1000)
  {
    if n > 0 {
      PollsEvents(n - 1, delayMs);
    }
  }

  /** `n` busy rounds sleep `n` times the delay. */
  lemma {:induction false} SleptPolls(n: nat, delayMs: Byte)
    ensures Slept(Polls(n, delayMs)) == n * delayMs * 1000
  {
    if n > 0 {
      var round := [ReadByte, Sleep(delayMs * 1000)];
      SleptPolls(n - 1, delayMs);
      SleptAppend(Polls(n - 1, delayMs), round);
      assert round[..1] == [ReadByte] && [ReadByte][..0] == [];
    }
  }

  /** The run is as long as it may be exactly when every status it looks at
      says busy. */
  lemma FullRun(script: seq<Reply>, from: nat, n: nat)
    ensures BusyRun(script, from, n) == n <==> forall j :: from <= j < from + n ==> StillBusy(CodeAt(script, j))
  {
    var k := BusyRun(script, from, n);
    assert k < n ==> !StillBusy(CodeAt(script, from + k));
    forall j | from <= j < from + k {
      BusyBefore(script, from, n, j);
    }
  }

  /** The run depends on the replies from `from` on and on no others. */
  lemma {:induction false} BusyRunFrame(script: seq<Reply>, other: seq<Reply>, from: nat, n: nat)
    requires forall j :: from <= j ==> CodeAt(script, j) == CodeAt(other, j)
    ensures BusyRun(script, from, n) == BusyRun(other, from, n)
    decreases n
  {
    if n > 0 {
      BusyRunFrame(script, other, from + 1, n - 1);
    }
  }

  /** What a busy wait promises: with `k` busy statuses in a row ahead, it
      returns 0 after `k` sleeps and `k + 1` status reads when `k` is within
      the budget, and -1 after `maxRetries + 1` reads and as many sleeps when
      the status never clears in time. */
  predicate Waited(bus: Bus, delayMs: Byte, maxRetries: Byte, r: int, after: Bus) {
    var k := BusyRun(bus.script, bus.pos, maxRetries + 1);
    && after.script == bus.script
    && if k <= maxRetries then
         && r == 0
         && after.pos == bus.pos + k + 1
         && after.trace == bus.trace + Polls(k, delayMs) + [ReadByte]
       else
         && r == -1
         && after.pos == bus.pos + maxRetries + 1
         && after.trace == bus.trace + Polls(maxRetries + 1, delayMs)
  }

  /** The state of a poll after `n` busy rounds: `code` is the status its
      last read got, and every earlier read said busy. */
  predicate Polled(bus: Bus, delayMs: Byte, n: nat, code: int, after: Bus) {
    && after.script == bus.script
    && after.pos == bus.pos + n + 1
    && after.trace == bus.trace + Polls(n, delayMs) + [ReadByte]
    && code == CodeAt(bus.script, bus.pos + n)
    && forall j :: bus.pos <= j < bus.pos + n ==> StillBusy(CodeAt(bus.script, j))
  }

  /** The first status read of a poll. */
  lemma FirstRound(bus: Bus, delayMs: Byte)
    ensures Polled(bus, delayMs, 0, Next(bus).code, Answer(bus, ReadByte))
  {
  }

  /** A busy status makes one more round: a sleep, then another read. */
  lemma NextRound(bus: Bus, delayMs: Byte, n: nat, code: int, after: Bus)
    requires Polled(bus, delayMs, n, code, after) && StillBusy(code)
    ensures var slept := Note(after, Sleep(delayMs * 1000));
            && slept.trace == bus.trace + Polls(n + 1, delayMs)
            && Polled(bus, delayMs, n + 1, Next(slept).code, Answer(slept, ReadByte))
  {
    var p := Polls(n, delayMs);
    assert Polls(n + 1, delayMs) == p + [ReadByte, Sleep(delayMs * 1000)];
    assert bus.trace + p + [ReadByte] + [Sleep(delayMs * 1000)] == bus.trace + (p + [ReadByte, Sleep(delayMs * 1000)]);
  }

  /** A poll that saw `maxRetries + 1` busy statuses has timed out. */
  lemma GaveUp(bus: Bus, delayMs: Byte, maxRetries: Byte, after: Bus)
    requires forall j :: bus.pos <= j <= bus.pos + maxRetries ==> StillBusy(CodeAt(bus.script, j))
    requires after.script == bus.script && after.pos == bus.pos + maxRetries + 1
    requires after.trace == bus.trace + Polls(maxRetries + 1, delayMs)
    ensures Waited(bus, delayMs, maxRetries, -1, after)
  {
    var k := BusyRun(bus.script, bus.pos, maxRetries + 1);
    assert k <= maxRetries ==> StillBusy(CodeAt(bus.script, bus.pos + k));
  }

  /** A poll whose status clears on its read `k + 1`, within the budget, has
      succeeded. */
  lemma ClearedAt(bus: Bus, delayMs: Byte, maxRetries: Byte, k: nat, after: Bus)
    requires k <= maxRetries
    requires forall j :: bus.pos <= j < bus.pos + k ==> StillBusy(CodeAt(bus.script, j))
    requires !StillBusy(CodeAt(bus.script, bus.pos + k))
    requires after.script == bus.script && after.pos == bus.pos + k + 1
    requires after.trace == bus.trace + Polls(k, delayMs) + [ReadByte]
    ensures Waited(bus, delayMs, maxRetries, 0, after)
  {
    var n := BusyRun(bus.script, bus.pos, maxRetries + 1);
    assert n < k ==> StillBusy(CodeAt(bus.script, bus.pos + n));
    BusyBefore(bus.script, bus.pos, maxRetries + 1, bus.pos + k);
  }

  /** busy_wait_limited, with a retry counter that cannot wrap around. */
  method BusyWait(bus: Bus, delayMs: Byte, maxRetries: Byte) returns (r: int, after: Bus)
    ensures Waited(bus, delayMs, maxRetries, r, after)
  {
    var retries: nat := 0;
    FirstRound(bus, delayMs);
    var code := Next(bus).code;
    after := Answer(bus, ReadByte);
    while StillBusy(code)
      invariant retries <= maxRetries
      invariant Polled(bus, delayMs, retries, code, after)
      decreases maxRetries - retries
    {
      NextRound(bus, delayMs, retries, code, after);
      after := Note(after, Sleep(delayMs * 1000));
      retries := retries + 1;
      if retries > maxRetries {
        GaveUp(bus, delayMs, maxRetries, after);
        r := -1;
        return;
      }
      code := Next(after).code;
      after := Answer(after, ReadByte);
    }
    ClearedAt(bus, delayMs, maxRetries, retries, after);
    r := 0;
  }

  /** busy_wait_limited exactly as the source writes it, with its `uint8_t`
      retry counter, run for at most `fuel` rounds of its loop; `finished` is
      false when the loop is still going after `fuel` rounds. */
  method BusyWaitAsWritten(bus: Bus, delayMs: Byte, maxRetries: Byte, fuel: nat)
    returns (finished: bool, r: int, after: Bus)
    ensures maxRetries < 0xFF && fuel > maxRetries ==> finished && Waited(bus, delayMs, maxRetries, r, after)
    ensures maxRetries == 0xFF && (forall j :: bus.pos <= j <= bus.pos + fuel ==> StillBusy(CodeAt(bus.script, j)))
            ==> !finished
    ensures var k := BusyRun(bus.script, bus.pos, fuel + 1);
            maxRetries == 0xFF && k < fuel ==>
              && finished && r == 0
              && after.script == bus.script && after.pos == bus.pos + k + 1
              && after.trace == bus.trace + Polls(k, delayMs) + [ReadByte]
  {
    var retries: Byte := 0;
    var rounds: nat := 0;
    FirstRound(bus, delayMs);
    var code := Next(bus).code;
    after := Answer(bus, ReadByte);
    while rounds < fuel && StillBusy(code)
      invariant rounds <= fuel
      invariant maxRetries < 0xFF ==> retries == rounds <= maxRetries
      invariant Polled(bus, delayMs, rounds, code, after)
    {
      NextRound(bus, delayMs, rounds, code, after);
      after := Note(after, Sleep(delayMs * 1000));
      retries := (retries + 1) % 0x100;
      rounds := rounds + 1;
      if retries > maxRetries {
        GaveUp(bus, delayMs, maxRetries, after);
        finished, r := true, -1;
        return;
      }
      code := Next(after).code;
      after := Answer(after, ReadByte);
    }
    var k := BusyRun(bus.script, bus.pos, fuel + 1);
    assert rounds <= k;
    BusyBefore(bus.script, bus.pos, fuel + 1, bus.pos + rounds);
    finished := !StillBusy(code);
    r := 0;
    if finished && maxRetries < 0xFF {
      ClearedAt(bus, delayMs, maxRetries, rounds, after);
    }
  }
}
