/** Commands to the chip: the frame a command travels in, sending it to a
    freshly woken chip, and the zone read built on top (send, receive the
    35-byte response, idle, check, copy). */
module Comm {
  import opened Esp
  import opened Device
  import opened Crc
  import opened Util
  import opened I2c
  import opened Receiver
  import opened Power

  /** A command: opcode, the two parameters and the optional data. */
  datatype Command = Command(opcode: byte, param1: byte, param2: bv16, data: seq<byte>)

  /** The count byte: the frame length without the leading word-address
      byte, computed in 8-bit arithmetic as the driver does (total length
      `8 + n` truncated to a byte, minus one, truncated again). */
  function CountByte(n: nat): byte
  {
    (((8 + n) % 256 + 255) % 256) as byte
  }

  /** Word address, count, opcode, first parameter, second parameter low
      byte first. */
  function Header(c: Command): (r: seq<byte>)
    ensures |r| == 6
  {
    [WordCommand, CountByte(|c.data|), c.opcode, c.param1] + LittleEndian(c.param2)
  }

  /** The frame checksum, accumulated in two update calls: the header
      without its word-address byte, then the data. */
  function FrameCrc(c: Command): bv16
  {
    End(Update(Update(Begin(), Header(c)[1..]), c.data))
  }

  /** The bytes written after the address byte. */
  function Frame(c: Command): (r: seq<byte>)
    ensures |r| == 8 + |c.data|
    ensures r[0] == WordCommand && r[2] == c.opcode && r[3] == c.param1
    ensures r[4..6] == LittleEndian(c.param2)
    ensures r[6..|r| - 2] == c.data
  {
    Header(c) + c.data + LittleEndian(FrameCrc(c))
  }

  /** The count byte equals the frame length minus its word-address byte
      exactly when the data is at most 248 bytes; beyond that the 8-bit
      arithmetic wraps. */
  lemma CountByteExact(c: Command)
    ensures (CountByte(|c.data|) as int == |Frame(c)| - 1) <==> |c.data| <= 248
  {
    var n := |c.data|;
    ByteRoundTrip(((8 + n) % 256 + 255) % 256);
    if n <= 248 {
      CountArithmetic(n);
    }
  }

  /** Everything after the word-address byte is a sealed response in the
      sense of the response check: the checksum covers the count byte
      through the end of the data. */
  lemma FrameSealed(c: Command)
    ensures Frame(c)[1..] == Seal(Frame(c)[1..|Frame(c)| - 2])
    ensures CheckCrc(Frame(c)[1..]) == Ok(())
  {
    var f := Frame(c);
    StreamingSplit(Begin(), Header(c)[1..], c.data);
    assert f[1..|f| - 2] == Header(c)[1..] + c.data;
    assert f[1..] == Header(c)[1..] + c.data + LittleEndian(FrameCrc(c));
    SealAccepted(f[1..|f| - 2]);
  }

  datatype Option<+T> = None | Some(value: T)

  /** Reads a command back from its frame: the word address, a count byte
      that matches the length, and a valid checksum are required. */
  function DecodeFrame(f: seq<byte>): (r: Option<Command>)
  {
    if |f| < 8 || f[0] != WordCommand || f[1] as int != |f| - 1 || CheckCrc(f[1..]).Err? then None
    else Some(Command(f[2], f[3], StoredCrc(f[4..6]), f[6..|f| - 2]))
  }

  /** Every frame of a command with at most 248 data bytes decodes to that
      command. */
  lemma DecodeEncode(c: Command)
    requires |c.data| <= 248
    ensures DecodeFrame(Frame(c)) == Some(c)
  {
    var f := Frame(c);
    CountByteExact(c);
    FrameSealed(c);
    LittleEndianRoundTrip(c.param2);
  }

  /** Whatever decodes is exactly the frame of the command it decodes to. */
  lemma EncodeDecode(f: seq<byte>)
    requires DecodeFrame(f).Some?
    ensures Frame(DecodeFrame(f).value) == f
  {
    var c := DecodeFrame(f).value;
    var body := f[1..|f| - 2];
    assert CheckCrc(f[1..]).Ok?;
    assert f[1..][..|f[1..]| - 2] == body;
    assert f[1..] == Seal(body);
    HeaderOfDecoded(f);
    assert Header(c)[1..] + c.data == body;
    StreamingSplit(Begin(), Header(c)[1..], c.data);
    assert FrameCrc(c) == Checksum(body);
    assert f[|f| - 2..] == Seal(body)[|body|..];
    assert f == f[..6] + f[6..|f| - 2] + f[|f| - 2..];
  }

  lemma HeaderOfDecoded(f: seq<byte>)
    requires DecodeFrame(f).Some?
    ensures Header(DecodeFrame(f).value) == f[..6]
    ensures DecodeFrame(f).value.data == f[6..|f| - 2]
  {
    var c := DecodeFrame(f).value;
    var n := |c.data|;
    assert CountByte(n) == f[1] by {
      assert f[1] as int == 7 + n;
      CountArithmetic(n);
      ByteOfValue(f[1], 7 + n);
    }
    assert Header(c) == f[..6] by {
      assert LittleEndian(c.param2) == f[4..6];
      assert Header(c) == [f[0], f[1], f[2], f[3]] + f[4..6];
      assert f[..6] == [f[0], f[1], f[2], f[3]] + f[4..6];
    }
  }

  /** Below the wrap-around the driver's 8-bit count arithmetic is plain
      subtraction. */
  lemma CountArithmetic(n: nat)
    requires n <= 248
    ensures ((8 + n) % 256 + 255) % 256 == 7 + n
  {
  }

  /** Sends a command: wakes the chip, then writes address byte and frame
      in one transaction. A failed wake is returned before anything is
      written; a failed write is returned unchanged. */
  function SendCommand(bus: Bus, c: Command): (r: Step<()>)
    ensures var w := WakeUp(bus);
      w.result.Err? ==> r == Step(w.bus, Err(w.result.code))
    ensures var w := WakeUp(bus);
      w.result.Ok? ==>
        && r.bus == Bus(bus.script, w.bus.pos + 1, w.bus.log + [Write([WriteHeader] + Frame(c))])
        && (r.result.Ok? <==> At(bus.script, w.bus.pos).Done?)
        && (r.result.Err? ==> r.result.code == At(bus.script, w.bus.pos).code)
  {
    var w := WakeUp(bus);
    if w.result.Err? then Step(w.bus, Err(w.result.code))
    else
      var x := Transact(w.bus, Write([WriteHeader] + Frame(c)));
      if x.reply.Failed? then Step(x.bus, Err(x.reply.code)) else Step(x.bus, Ok(()))
  }

  /** Bytes received for every read, whatever its mode: count byte,
      32 data bytes, checksum. */
  const ReadResponseLength: nat := 35

  /** The zone byte of a read: bit 7 set for a 32-byte read, cleared for a
      4-byte read, other bits kept; any other length is an invalid
      argument. */
  function ZoneByte(zone: byte, length: nat): (r: Result<byte>)
    ensures r.Err? <==> length != 4 && length != 32
    ensures r.Err? ==> r.code == ErrInvalidArg
  {
    if length == 32 then Ok(zone | 0x80)
    else if length == 4 then Ok(zone & 0x7F)
    else Err(ErrInvalidArg)
  }

  /** The mode bit of an accepted zone byte tells a 32-byte read from a
      4-byte read; the other seven bits are the caller's zone. */
  lemma ZoneByteBits(zone: byte, length: nat)
    requires ZoneByte(zone, length).Ok?
    ensures ZoneByte(zone, length).value & 0x7F == zone & 0x7F
    ensures ZoneByte(zone, length).value & 0x80 != 0 <==> length == 32
  {
  }

  /** The common part of every read: send the read command, receive the
      full 35-byte response, put the chip to idle, then check the response's
      checksum. */
  function ReadResponse(bus: Bus, zoneByte: byte, address: bv16): (r: Step<seq<byte>>)
    ensures r.result.Ok? ==> |r.result.value| == ReadResponseLength && CheckCrc(r.result.value) == Ok(())
    ensures r.bus.script == bus.script
    ensures var s := SendCommand(bus, Command(OpRead, zoneByte, address, []));
      s.result.Err? ==> r == Step(s.bus, Err(s.result.code))
    ensures var s := SendCommand(bus, Command(OpRead, zoneByte, address, []));
      var rc := Receive(s.bus, ReadResponseLength);
      s.result.Ok? && rc.result.Err? ==> r == Step(rc.bus, Err(Fail))
    ensures var s := SendCommand(bus, Command(OpRead, zoneByte, address, []));
      var rc := Receive(s.bus, ReadResponseLength);
      s.result.Ok? && rc.result.Ok? ==>
        && r.bus == Idle(rc.bus).bus
        && r.result == (if Idle(rc.bus).result.Err? then Err(Idle(rc.bus).result.code)
                        else if CheckCrc(rc.result.value).Err? then Err(ErrInvalidCrc)
                        else Ok(rc.result.value))
  {
    var s := SendCommand(bus, Command(OpRead, zoneByte, address, []));
    if s.result.Err? then Step(s.bus, Err(s.result.code))
    else
      var resp := Receive(s.bus, ReadResponseLength);
      ReceiveOutcome(s.bus, ReadResponseLength);
      if resp.result.Err? then Step(resp.bus, Err(resp.result.code))
      else
        var i := Idle(resp.bus);
        if i.result.Err? then Step(i.bus, Err(i.result.code))
        else if CheckCrc(resp.result.value).Err? then Step(i.bus, Err(ErrInvalidCrc))
        else Step(i.bus, Ok(resp.result.value))
  }

  /** Reads `length` bytes of `zone` at word address `address`: bytes 1 to
      `length` of the checked response. The result is copied out only after
      every step succeeded, so a failure leaves the caller's buffer as it
      was. */
  function Read(bus: Bus, zone: byte, address: bv16, length: nat): (r: Step<seq<byte>>)
    ensures ZoneByte(zone, length).Err? ==> r == Step(bus, Err(ErrInvalidArg))
    ensures r.result.Ok? ==> |r.result.value| == length
    ensures r.bus.script == bus.script
    ensures ZoneByte(zone, length).Ok? ==>
      var s := ReadResponse(bus, ZoneByte(zone, length).value, address);
      && r.bus == s.bus
      && (s.result.Err? ==> r.result == Err(s.result.code))
      && (s.result.Ok? ==> r.result == Ok(s.result.value[1..1 + length]))
  {
    match ZoneByte(zone, length)
    case Err(e) => Step(bus, Err(e))
    case Ok(z) =>
      var s := ReadResponse(bus, z, address);
      if s.result.Err? then Step(s.bus, Err(s.result.code))
      else Step(s.bus, Ok(s.result.value[1..1 + length]))
  }

  /** The transactions that send a read command: wake pulse, wake
      acknowledgement and the command itself. */
  function CommandLog(zoneByte: byte, address: bv16): seq<Event>
  {
    [Write([0x00]), Event.Read(ReadHeader, 4),
     Write([WriteHeader] + Frame(Command(OpRead, zoneByte, address, [])))]
  }

  /** The transactions of a read that goes through: the command, the
      response in a 32-byte and a 3-byte read, and the idle write. */
  function ReadLog(zoneByte: byte, address: bv16): seq<Event>
  {
    CommandLog(zoneByte, address) +
    [Event.Read(ReadHeader, 32), Event.Read(ReadHeader, 3), Write([WriteHeader, WordIdle])]
  }

  lemma AppendThree(log: seq<Event>, prefix: seq<Event>, x: Event, y: Event, z: Event)
    ensures log + prefix + [x, y] + [z] == log + (prefix + [x, y, z])
  {
  }

  /** A script in which, from position `pos` on, every transaction of a
      read completes, with a chip that acknowledges the wake and answers
      with `resp`. */
  predicate ReadScripted(script: seq<Reply>, pos: nat, resp: seq<byte>)
  {
    && |resp| == ReadResponseLength
    && At(script, pos).Done?
    && At(script, pos + 1) == Done(WakeResponse)
    && At(script, pos + 2).Done?
    && At(script, pos + 3) == Done(resp[..32])
    && At(script, pos + 4) == Done(resp[32..])
    && At(script, pos + 5).Done?
  }

  /** The command half of a read that goes through: pulse, acknowledgement
      and the command write. */
  lemma SendReadCommand(bus: Bus, zoneByte: byte, address: bv16, resp: seq<byte>)
    requires ReadScripted(bus.script, bus.pos, resp)
    ensures SendCommand(bus, Command(OpRead, zoneByte, address, [])) ==
      Step(Bus(bus.script, bus.pos + 3, bus.log + CommandLog(zoneByte, address)), Ok(()))
  {
    WakeSucceeds(bus);
    var c := Command(OpRead, zoneByte, address, []);
    AppendAssoc(bus.log, [Write([0x00]), Event.Read(ReadHeader, 4)], [Write([WriteHeader] + Frame(c))]);
    assert [Write([0x00]), Event.Read(ReadHeader, 4)] + [Write([WriteHeader] + Frame(c))] == CommandLog(zoneByte, address);
  }

  /** The response half: the 35 bytes arrive in two reads, the idle write
      goes out, and the response is returned exactly when its checksum
      holds. */
  lemma ReadResponseOutcome(bus: Bus, zoneByte: byte, address: bv16, resp: seq<byte>)
    requires ReadScripted(bus.script, bus.pos, resp)
    ensures ReadResponse(bus, zoneByte, address) ==
      Step(Bus(bus.script, bus.pos + 6, bus.log + ReadLog(zoneByte, address)),
           if CheckCrc(resp).Ok? then Ok(resp) else Err(ErrInvalidCrc))
  {
    SendReadCommand(bus, zoneByte, address, resp);
    var s := SendCommand(bus, Command(OpRead, zoneByte, address, []));
    ReceiveWhole(s.bus, resp);
    var rc := Receive(s.bus, ReadResponseLength);
    var sent := bus.log + CommandLog(zoneByte, address);
    var tail := [Event.Read(ReadHeader, 32), Event.Read(ReadHeader, 3)];
    assert rc.bus.log == sent + tail;
    AppendThree(bus.log, CommandLog(zoneByte, address), tail[0], tail[1], Write([WriteHeader, WordIdle]));
    assert Idle(rc.bus).result == Ok(());
  }

  /** When every transaction completes, a read issues exactly its six
      transactions and returns bytes 1 to `length` of the chip's response if
      the response carries its own checksum, and a checksum error otherwise;
      the checksum always covers all 35 bytes, whichever the length. */
  lemma ReadOutcome(bus: Bus, zone: byte, address: bv16, length: nat, resp: seq<byte>)
    requires length == 4 || length == 32
    requires ReadScripted(bus.script, bus.pos, resp)
    ensures var r := Read(bus, zone, address, length);
      && r.bus == Bus(bus.script, bus.pos + 6, bus.log + ReadLog(ZoneByte(zone, length).value, address))
      && r.result == (if resp == Seal(resp[..33]) then Ok(resp[1..1 + length]) else Err(ErrInvalidCrc))
  {
    ReadResponseOutcome(bus, ZoneByte(zone, length).value, address, resp);
  }

  lemma ReadChecked(bus: Bus, zone: byte, address: bv16, length: nat, resp: seq<byte>)
    requires length == 4 || length == 32
    requires ReadScripted(bus.script, bus.pos, resp) && CheckCrc(resp).Ok?
    ensures Read(bus, zone, address, length) ==
      Step(Bus(bus.script, bus.pos + 6, bus.log + ReadLog(ZoneByte(zone, length).value, address)), Ok(resp[1..1 + length]))
  {
    ReadResponseOutcome(bus, ZoneByte(zone, length).value, address, resp);
  }

  /** A chip answering with a sealed 33-byte payload has bytes 1 to
      `length` of that payload read out. */
  lemma ReadSealed(bus: Bus, zone: byte, address: bv16, length: nat, payload: seq<byte>)
    requires length == 4 || length == 32
    requires |payload| == 33 && ReadScripted(bus.script, bus.pos, Seal(payload))
    ensures Read(bus, zone, address, length) ==
      Step(Bus(bus.script, bus.pos + 6, bus.log + ReadLog(ZoneByte(zone, length).value, address)), Ok(payload[1..1 + length]))
  {
    SealAccepted(payload);
    ReadChecked(bus, zone, address, length, Seal(payload));
    SealSlice(payload, 1, 1 + length);
  }
  /** A single bit inverted anywhere in a sealed response fails the read
      with a checksum error, and nothing is read out. */
  lemma ReadCorruptionRejected(bus: Bus, zone: byte, address: bv16, length: nat, payload: seq<byte>, i: nat, j: nat)
    requires length == 4 || length == 32
    requires |payload| == 33 && i < 35 && j < 8
    requires ReadScripted(bus.script, bus.pos, Flip(Seal(payload), i, j))
    ensures Read(bus, zone, address, length).result == Err(ErrInvalidCrc)
  {
    var resp := Flip(Seal(payload), i, j);
    BitFlipRejected(payload, i, j);
    assert resp != Seal(resp[..33]);
    ReadOutcome(bus, zone, address, length, resp);
  }

  /** A failed wake pulse ends a read right there: its error is returned
      and only the pulse was issued. */
  lemma ReadWakeFails(bus: Bus, zone: byte, address: bv16, length: nat)
    requires length == 4 || length == 32
    requires At(bus.script, bus.pos).Failed?
    ensures Read(bus, zone, address, length) ==
      Step(Bus(bus.script, bus.pos + 1, bus.log + [Write([0x00])]), Err(At(bus.script, bus.pos).code))
  {
  }
}
