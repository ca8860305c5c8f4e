/** The I2C bus as the driver sees it. Every transaction the driver builds
    (start, bytes, stop, then one blocking execute) is a single step against
    a scripted bus: the script fixes, in order, how each transaction turns
    out, and the bus keeps a log of the transactions it was asked for. */
module I2c {
  import opened Esp
  import opened Device

  /** The outcome of one transaction: completed, with the bytes the device
      drove for a read, or failed with the platform's error code. */
  datatype Reply = Done(data: seq<byte>) | Failed(code: ErrCode)

  /** A transaction as issued: a write of `bytes` (the first one is the
      addressing byte), or a read of `count` bytes after the addressing
      byte `header`. */
  datatype Event = Write(bytes: seq<byte>) | Read(header: byte, count: nat)

  /** The scripted bus: the outcomes, the number already consumed, and the
      transactions issued so far. */
  datatype Bus = Bus(script: seq<Reply>, pos: nat, log: seq<Event>)

  /** The outcome of transaction number `i`; a bus whose script has run out
      times out. */
  function At(script: seq<Reply>, i: nat): Reply
  {
    if i < |script| then script[i] else Failed(ErrTimeout)
  }

  /** The bytes a completed read of `n` bytes stores: what the device sent,
      cut to `n` bytes, or filled with 0xFF (the released data line) when it
      sent fewer. */
  function Fit(data: seq<byte>, n: nat): (r: seq<byte>)
    ensures |r| == n
  {
    if |data| >= n then data[..n] else data + seq(n - |data|, k => 0xFF)
  }

  /** Byte `k` of a fitted read is the device's byte `k` when it sent one,
      and 0xFF otherwise; a read of exactly the requested size is stored
      unchanged. */
  lemma FitContent(data: seq<byte>, n: nat)
    ensures forall k :: 0 <= k < n ==> Fit(data, n)[k] == (if k < |data| then data[k] else 0xFF)
    ensures |data| == n ==> Fit(data, n) == data
  {
  }

  /** A bus after one transaction, with that transaction's reply. */
  datatype Exchange = Exchange(bus: Bus, reply: Reply)

  /** Issues one transaction: it consumes the next scripted outcome and is
      appended to the log; nothing else about the bus changes. */
  function Transact(bus: Bus, e: Event): (r: Exchange)
    ensures r.reply == At(bus.script, bus.pos)
    ensures r.bus == Bus(bus.script, bus.pos + 1, bus.log + [e])
  {
    Exchange(Bus(bus.script, bus.pos + 1, bus.log + [e]), At(bus.script, bus.pos))
  }

  /** A driver call that returns an `esp_err_t`: the bus afterwards and the
      result. */
  datatype Step<+T> = Step(bus: Bus, result: Result<T>)

  /** A driver call that may also abort the program. */
  datatype Run<+T> = Run(bus: Bus, exit: Exit<T>)

  /** Logs grow by appending; these two facts regroup appended pieces. */
  lemma EmptyPrefix<T>(s: seq<T>)
    ensures [] + s == s
  {
  }

  lemma AppendAssoc<T>(a: seq<T>, b: seq<T>, c: seq<T>)
    ensures a + b + c == a + (b + c)
  {
  }
}
