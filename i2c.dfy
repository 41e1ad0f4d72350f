/** The I2C transport the three drivers talk to, as a scripted bus.

    The real transport (open_i2c_dev, set_slave_addr, the i2c_smbus_* calls,
    usleep and close) is foreign code. Here it is a script of replies, one per
    call that returns a value, and a trace that records every call the driver
    makes, in order. A driver run is then determined by its script. */
module I2C {

  /** An unsigned 8-bit value (`uint8_t`). */
  type Byte = x: int | 0 <= x < 0x100

  /** The I2C bus every driver opens (`I2CBUS`). */
  const I2cBus: nat := 1

  /** What the transport answers to one call: the C return value, negative
      for an error, and for a block read the bytes it delivered. */
  datatype Reply = Reply(code: int, block: seq<Byte>)

  /** What a transport whose script has run out answers: -EIO. */
  const Exhausted := Reply(-5, [])

  /** One call into the transport. */
  datatype Event =
    | OpenBus(bus: nat)                                  // open_i2c_dev
    | SetSlaveAddr(address: Byte)                        // set_slave_addr
    | ReadByte                                           // i2c_smbus_read_byte
    | ReadByteData(register: Byte)                       // i2c_smbus_read_byte_data
    | ReadWordData(register: Byte)                       // i2c_smbus_read_word_data
    | WriteByteData(register: Byte, value: Byte)         // i2c_smbus_write_byte_data
    | WriteBlockData(command: Byte, payload: seq<Byte>)  // i2c_smbus_write_i2c_block_data
    | ReadBlockData(register: Byte, length: nat)         // i2c_smbus_read_i2c_block_data
    | Sleep(micros: nat)                                 // usleep
    | Close                                              // close

  /** The bus as a driver sees it: the replies still to come start at
      `script[pos]`, and `trace` holds the calls made so far. */
  datatype Bus = Bus(script: seq<Reply>, pos: nat, trace: seq<Event>)

  /** How a program run ends: a non-zero exit code, or a reading. */
  datatype Outcome<R> = Exit(code: nat) | Done(reading: R)

  /** The bus at the start of `main`. */
  function Start(script: seq<Reply>): Bus {
    Bus(script, 0, [])
  }

  /** The reply to the `i`-th value-returning call of a run. */
  function ReplyAt(script: seq<Reply>, i: int): Reply {
    if 0 <= i < |script| then script[i] else Exhausted
  }

  /** The C return value of the `i`-th value-returning call of a run. */
  function CodeAt(script: seq<Reply>, i: int): int {
    ReplyAt(script, i).code
  }

  /** The reply the next value-returning call receives. */
  function Next(b: Bus): Reply {
    ReplyAt(b.script, b.pos)
  }

  /** The bus after a call that consumes a reply. */
  function Answer(b: Bus, e: Event): Bus {
    b.(pos := b.pos + 1, trace := b.trace + [e])
  }

  /** The bus after a call whose result the drivers never look at and that
      takes no reply from the script (usleep, close). */
  function Note(b: Bus, e: Event): Bus {
    b.(trace := b.trace + [e])
  }

  /** The `uint8_t data[n] = {0}` buffer after a block read that delivered
      `r.block`: the delivered bytes first, zeros after them. */
  function Received(r: Reply, n: nat): (data: seq<Byte>)
    ensures |data| == n
  {
    seq(n, i => if 0 <= i < |r.block| then r.block[i] else 0)
  }

  /** Microseconds a trace spends in `usleep`. */
  function Slept(t: seq<Event>): nat {
    if t == [] then 0
    else Slept(t[..|t| - 1]) + (if t[|t| - 1].Sleep? then t[|t| - 1].micros else 0)
  }

  /** Sleeping is additive over consecutive parts of a trace. */
  lemma {:induction false} SleptAppend(t: seq<Event>, u: seq<Event>)
    ensures Slept(t + u) == Slept(t) + Slept(u)
    decreases |u|
  {
    if u != [] {
      var v := u[..|u| - 1];
      assert (t + u)[..|t + u| - 1] == t + v;
      SleptAppend(t, v);
    } else {
      assert t + u == t;
    }
  }

  /** A trace sleeps no longer than any trace it begins. */
  lemma SleptPrefix(t: seq<Event>, u: seq<Event>)
    requires t <= u
    ensures Slept(t) <= Slept(u)
  {
    assert u == t + u[|t|..];
    SleptAppend(t, u[|t|..]);
  }

  /** A trace without a sleep sleeps for no time. */
  lemma {:induction false} SleptNoSleep(t: seq<Event>)
    requires forall i :: 0 <= i < |t| ==> !t[i].Sleep?
    ensures Slept(t) == 0
    decreases |t|
  {
    if t != [] {
      SleptNoSleep(t[..|t| - 1]);
    }
  }
}
