/** The lock operation as the driver performs it. The driver does not send
    the lock command itself: it waits, collects the chip's four-byte status
    response, puts the chip to idle and checks the response. */
module Sec {
  import opened Esp
  import opened Device
  import opened Crc
  import opened Util
  import opened I2c
  import opened Receiver
  import opened Power

  /** Length of a status response: count byte, status, checksum. */
  const LockResponseLength: nat := 4

  /** A status response that reports success: it carries its own checksum
      and the status byte is zero. */
  predicate LockConfirmed(resp: seq<byte>)
  {
    |resp| == LockResponseLength && resp == Seal(resp[..2]) && resp[1] == StatusSuccess
  }

  /** Collects the status response (a failed receive stops the program),
      puts the chip to idle (a failure is returned), then checks the
      checksum and the status byte. The zone argument (a lock mode such
      as 0x80 for the configuration zone) takes no part. */
  function Lock(bus: Bus, zone: byte): (r: Run<()>)
    ensures r.bus.script == bus.script
    ensures var rc := Receive(bus, LockResponseLength);
      rc.result.Err? ==> r == Run(rc.bus, Aborted(rc.result.code))
    ensures var rc := Receive(bus, LockResponseLength);
      rc.result.Ok? ==> r.exit.Returned? && r.bus == Idle(rc.bus).bus
    ensures var rc := Receive(bus, LockResponseLength);
      r.exit == Returned(Ok(())) <==>
        rc.result.Ok? && Idle(rc.bus).result.Ok? && LockConfirmed(rc.result.value)
    ensures var rc := Receive(bus, LockResponseLength);
      rc.result.Ok? ==>
        r.exit.result == (if Idle(rc.bus).result.Err? then Err(Idle(rc.bus).result.code)
                          else if CheckCrc(rc.result.value).Err? then Err(ErrInvalidCrc)
                          else if rc.result.value[1] != StatusSuccess then Err(ErrInvalidResponse)
                          else Ok(()))
  {
    var rc := Receive(bus, LockResponseLength);
    if rc.result.Err? then Run(rc.bus, Aborted(rc.result.code))
    else
      var i := Idle(rc.bus);
      if i.result.Err? then Run(i.bus, Returned(Err(i.result.code)))
      else
        var resp := rc.result.value;
        match CheckCrc(resp)
        case Err(e) => Run(i.bus, Returned(Err(e)))
        case Ok(_) =>
          if resp[1] != StatusSuccess then Run(i.bus, Returned(Err(ErrInvalidResponse)))
          else Run(i.bus, Returned(Ok(())))
  }

  /** The outcome does not depend on the lock mode asked for. */
  lemma LockIgnoresZone(bus: Bus, z1: byte, z2: byte)
    ensures Lock(bus, z1) == Lock(bus, z2)
  {
  }

  /** With the response delivered in one read and the idle write
      completed, the call takes exactly these two transactions, writes no
      command, and reports a checksum mismatch before looking at the
      status byte. */
  lemma LockOutcome(bus: Bus, zone: byte, resp: seq<byte>)
    requires |resp| == LockResponseLength
    requires At(bus.script, bus.pos) == Done(resp) && At(bus.script, bus.pos + 1).Done?
    ensures Lock(bus, zone) ==
      Run(Bus(bus.script, bus.pos + 2, bus.log + [Read(ReadHeader, 4), Write([WriteHeader, WordIdle])]),
          Returned(if resp != Seal(resp[..2]) then Err(ErrInvalidCrc)
                   else if resp[1] != StatusSuccess then Err(ErrInvalidResponse)
                   else Ok(())))
  {
    ReceiveShortResponse(bus, LockResponseLength, resp);
    FitContent(resp, LockResponseLength);
  }

  /** A failed idle write is reported even when the response itself was
      bad: idle comes before the checks. */
  lemma LockIdleFailure(bus: Bus, zone: byte, resp: seq<byte>)
    requires |resp| == LockResponseLength
    requires At(bus.script, bus.pos) == Done(resp) && At(bus.script, bus.pos + 1).Failed?
    ensures Lock(bus, zone).exit == Returned(Err(At(bus.script, bus.pos + 1).code))
  {
    ReceiveShortResponse(bus, LockResponseLength, resp);
  }

  /** The success response 04 00 03 40 is confirmed. */
  lemma SuccessResponseConfirmed()
    ensures LockConfirmed([0x04, 0x00, 0x03, 0x40])
  {
    SuccessVector();
    assert Seal([0x04, 0x00]) == [0x04, 0x00] + LittleEndian(0x4003);
  }

  /** A chip answering 04 00 03 40 has the lock reported as done. */
  lemma LockSucceeds(bus: Bus, zone: byte)
    requires At(bus.script, bus.pos) == Done([0x04, 0x00, 0x03, 0x40]) && At(bus.script, bus.pos + 1).Done?
    ensures Lock(bus, zone).exit == Returned(Ok(()))
  {
    SuccessResponseConfirmed();
    LockOutcome(bus, zone, [0x04, 0x00, 0x03, 0x40]);
  }

  /** A single bit inverted anywhere in a sealed status response makes the
      call report a checksum error, whatever the status byte says. */
  lemma LockCorruptionRejected(bus: Bus, zone: byte, p: seq<byte>, i: nat, j: nat)
    requires |p| == 2 && i < LockResponseLength && j < 8
    requires At(bus.script, bus.pos) == Done(Flip(Seal(p), i, j)) && At(bus.script, bus.pos + 1).Done?
    ensures Lock(bus, zone).exit == Returned(Err(ErrInvalidCrc))
  {
    var resp := Flip(Seal(p), i, j);
    BitFlipRejected(p, i, j);
    assert resp != Seal(resp[..2]);
    LockOutcome(bus, zone, resp);
  }
}
