/** Power transitions of the chip: the wake pulse with the validation of the
    chip's four-byte acknowledgement, and the one-byte writes that send it to
    idle or to sleep. */
module Power {
  import opened Esp
  import opened Device
  import opened Crc
  import opened Util
  import opened I2c
  import opened Receiver

  /** Length of the wake acknowledgement: count byte, status, checksum. */
  const WakeResponseLength: nat := 4

  /** The acknowledgement a freshly woken chip sends: count 4, status 0x11,
      checksum 0x4333 low byte first. */
  const WakeResponse: seq<byte> := [0x04, 0x11, 0x33, 0x43]

  /** A four-byte response the wake check accepts: it carries its own
      checksum and the wake status. */
  predicate WakeAccepted(resp: seq<byte>)
  {
    |resp| == WakeResponseLength && resp == Seal(resp[..2]) && resp[1] == StatusWake
  }

  /** The wake pulse is a single zero byte between start and stop (the data
      line held low long enough wakes the chip); then the acknowledgement is
      received and checked, checksum first, status byte second. A failed
      pulse ends the call before any read. */
  function WakeUp(bus: Bus): (r: Step<()>)
    ensures |r.bus.log| > |bus.log| && r.bus.log[..|bus.log| + 1] == bus.log + [Write([0x00])]
    ensures At(bus.script, bus.pos).Failed? ==>
      r == Step(Bus(bus.script, bus.pos + 1, bus.log + [Write([0x00])]), Err(At(bus.script, bus.pos).code))
    ensures var ack := Receive(Bus(bus.script, bus.pos + 1, bus.log + [Write([0x00])]), WakeResponseLength);
      r.result.Ok? <==> At(bus.script, bus.pos).Done? && ack.result.Ok? && WakeAccepted(ack.result.value)
    ensures var ack := Receive(Bus(bus.script, bus.pos + 1, bus.log + [Write([0x00])]), WakeResponseLength);
      At(bus.script, bus.pos).Done? && ack.result.Err? ==> r == Step(ack.bus, Err(Fail))
    ensures var ack := Receive(Bus(bus.script, bus.pos + 1, bus.log + [Write([0x00])]), WakeResponseLength);
      At(bus.script, bus.pos).Done? && ack.result.Ok? ==>
        && r.bus == ack.bus
        && r.result == (if CheckCrc(ack.result.value).Err? then Err(ErrInvalidCrc)
                        else if ack.result.value[1] != StatusWake then Err(Fail)
                        else Ok(()))
  {
    var x := Transact(bus, Write([0x00]));
    if x.reply.Failed? then Step(x.bus, Err(x.reply.code))
    else
      var ack := Receive(x.bus, WakeResponseLength);
      ReceiveRequests(x.bus, WakeResponseLength);
      ReceiveOutcome(x.bus, WakeResponseLength);
      if ack.result.Err? then Step(ack.bus, Err(ack.result.code))
      else
        var resp := ack.result.value;
        match CheckCrc(resp)
        case Err(e) => Step(ack.bus, Err(e))
        case Ok(_) =>
          if resp[1] != StatusWake then Step(ack.bus, Err(Fail))
          else Step(ack.bus, Ok(()))
  }

  /** The acknowledgement a chip sends, given as its count byte and status:
      the response the wake check accepts are exactly the sealed ones with
      the wake status, whatever the count byte says. */
  lemma WakeAcceptedForm(resp: seq<byte>)
    requires |resp| == WakeResponseLength
    ensures WakeAccepted(resp) <==> resp == Seal([resp[0], StatusWake])
  {
    assert resp[..2] == [resp[0], resp[1]];
  }

  /** The chip's acknowledgement 04 11 33 43 passes the check. */
  lemma WakeResponseAccepted()
    ensures WakeAccepted(WakeResponse)
  {
    WakeVector();
    assert Seal([0x04, 0x11]) == [0x04, 0x11] + LittleEndian(0x4333);
  }

  /** Pulse completed and acknowledgement delivered in one read: the outcome
      is decided by the acknowledgement alone. A checksum mismatch is
      reported as such whatever the status byte holds; a consistent
      acknowledgement with another status is `ESP_FAIL`. */
  lemma WakeOutcome(bus: Bus, ack: seq<byte>)
    requires At(bus.script, bus.pos).Done?
    requires At(bus.script, bus.pos + 1) == Done(ack) && |ack| == WakeResponseLength
    ensures var r := WakeUp(bus);
      && r.bus == Bus(bus.script, bus.pos + 2, bus.log + [Write([0x00]), Read(ReadHeader, 4)])
      && r.result == (if ack != Seal(ack[..2]) then Err(ErrInvalidCrc)
                      else if ack[1] != StatusWake then Err(Fail)
                      else Ok(()))
  {
    var b1 := Bus(bus.script, bus.pos + 1, bus.log + [Write([0x00])]);
    ReceiveShortResponse(b1, WakeResponseLength, ack);
    FitContent(ack, WakeResponseLength);
  }

  /** A woken chip answering 04 11 33 43 is woken successfully with one
      pulse and one read. */
  lemma WakeSucceeds(bus: Bus)
    requires At(bus.script, bus.pos).Done?
    requires At(bus.script, bus.pos + 1) == Done(WakeResponse)
    ensures WakeUp(bus) ==
      Step(Bus(bus.script, bus.pos + 2, bus.log + [Write([0x00]), Read(ReadHeader, 4)]), Ok(()))
  {
    WakeResponseAccepted();
    WakeOutcome(bus, WakeResponse);
  }

  /** Any single bit inverted in the acknowledgement 04 11 33 43 is caught
      by the checksum before the status is looked at. */
  lemma WakeCorruptionRejected(bus: Bus, i: nat, j: nat)
    requires i < WakeResponseLength && j < 8
    requires At(bus.script, bus.pos).Done?
    requires At(bus.script, bus.pos + 1) == Done(Flip(WakeResponse, i, j))
    ensures WakeUp(bus).result == Err(ErrInvalidCrc)
  {
    WakeResponseAccepted();
    var ack := Flip(WakeResponse, i, j);
    assert WakeResponse == Seal([0x04, 0x11]);
    BitFlipRejected([0x04, 0x11], i, j);
    assert ack != Seal(ack[..2]);
    WakeOutcome(bus, ack);
  }

  /** A one-byte mode write addressed to the chip: start, address byte with
      the write bit, the word byte, stop. */
  function ModeWrite(bus: Bus, word: byte): (r: Step<()>)
  {
    var x := Transact(bus, Write([WriteHeader, word]));
    if x.reply.Done? then Step(x.bus, Ok(())) else Step(x.bus, Err(x.reply.code))
  }

  /** Idle writes exactly C0 02 and reads nothing; it succeeds exactly when
      that transaction does and otherwise returns the bus error unchanged. */
  function Idle(bus: Bus): (r: Step<()>)
    ensures r.bus == Bus(bus.script, bus.pos + 1, bus.log + [Write([0xC0, 0x02])])
    ensures r.result == (match At(bus.script, bus.pos)
                         case Done(_) => Ok(())
                         case Failed(e) => Err(e))
  {
    ModeWrite(bus, WordIdle)
  }

  /** Sleep writes exactly C0 01 and reads nothing; it succeeds exactly when
      that transaction does and otherwise returns the bus error unchanged. */
  function Sleep(bus: Bus): (r: Step<()>)
    ensures r.bus == Bus(bus.script, bus.pos + 1, bus.log + [Write([0xC0, 0x01])])
    ensures r.result == (match At(bus.script, bus.pos)
                         case Done(_) => Ok(())
                         case Failed(e) => Err(e))
  {
    ModeWrite(bus, WordSleep)
  }
}
