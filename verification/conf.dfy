/** The driver's copy of the chip's configuration zone: the 128 bytes read
    in four 32-byte blocks, and the lock-status query answered from that
    copy. */
module Config {
  import opened Esp
  import opened Device
  import opened Util
  import opened I2c
  import opened Comm

  /** Size of the configuration zone and of one block read. */
  const ConfigSize: nat := 128
  const BlockSize: nat := 32

  /** The driver's 128-byte copy of the configuration zone. It is a
      zero-initialised global, so before the first read it holds zeros. */
  type Snapshot = s: seq<byte> | |s| == ConfigSize witness seq(128, _ => 0)

  /** Byte offsets of the lock fields in the configuration zone. */
  const LockValue: nat := 86
  const LockConfig: nat := 87
  const SlotLocked: nat := 88

  /** The data and OTP zones are locked: the lock byte reads 0x00
      (0x55 while unlocked). */
  predicate DataZoneLocked(c: Snapshot)
  {
    c[LockValue] == 0x00
  }

  /** The configuration zone itself is locked. */
  predicate ConfigZoneLocked(c: Snapshot)
  {
    c[LockConfig] == 0x00
  }

  /** Slot 0 is locked: its lock bit, the lowest bit of byte 88, is
      cleared, so the byte's value is even. */
  predicate Slot0Locked(c: Snapshot)
  {
    (c[SlotLocked] as int) % 2 == 0
  }

  /** Appends the next 32-byte block to a read still in progress. A block
      read that fails stops the program with its code, as `ESP_ERROR_CHECK`
      does; a run already stopped is left alone. */
  function ReadBlock(run: Run<seq<byte>>, address: bv16): (r: Run<seq<byte>>)
    requires run.exit.Returned? ==> run.exit.result.Ok?
    ensures r.exit.Returned? ==> r.exit.result.Ok?
    ensures !run.exit.Returned? ==> r == run
    ensures run.exit.Returned? ==>
      var b := Comm.Read(run.bus, ZoneConfig, address, BlockSize);
      && r.bus == b.bus
      && (b.result.Err? ==> r.exit == Aborted(b.result.code))
      && (b.result.Ok? ==> r.exit == Returned(Ok(run.exit.result.value + b.result.value)))
  {
    if run.exit.Aborted? then run
    else
      var b := Comm.Read(run.bus, ZoneConfig, address, BlockSize);
      if b.result.Err? then Run(b.bus, Aborted(b.result.code))
      else Run(b.bus, Returned(Ok(run.exit.result.value + b.result.value)))
  }

  /** Reads the blocks at `addresses` in order, each appended to the copy;
      the first failure stops the program and no later block is requested. */
  function ReadBlocks(run: Run<seq<byte>>, addresses: seq<bv16>): (r: Run<seq<byte>>)
    requires run.exit.Returned? ==> run.exit.result.Ok?
    ensures r.bus.script == run.bus.script
    ensures !run.exit.Returned? ==> r == run
    ensures r.exit.Returned? ==>
      && run.exit.Returned?
      && r.exit.result.Ok?
      && |r.exit.result.value| == |run.exit.result.value| + BlockSize * |addresses|
    decreases |addresses|
  {
    if |addresses| == 0 then run
    else ReadBlocks(ReadBlock(run, addresses[0]), addresses[1..])
  }

  /** Word addresses of the four 32-byte blocks of the configuration zone. */
  const ConfigAddresses: seq<bv16> := [ConfigBlock0, ConfigBlock1, ConfigBlock2, ConfigBlock3]

  /** Reads the whole configuration zone, block 0 to block 3, each at its
      word address. Any failed block read stops the program; the call never
      returns an error, and when it returns the copy is complete. */
  function ReadConfigZone(bus: Bus): (r: Run<seq<byte>>)
    ensures r.bus.script == bus.script
    ensures r.exit.Returned? ==> r.exit.result.Ok? && |r.exit.result.value| == ConfigSize
  {
    ReadBlocks(Run(bus, Returned(Ok([]))), ConfigAddresses)
  }

  /** The config-zone answer: 1 when the data and OTP zones, the
      configuration zone and slot 0 are all locked, 0 otherwise. The query
      always succeeds. */
  function IsConfigured(c: Snapshot): (r: Result<byte>)
    ensures r.Ok? && (r.value == 0 || r.value == 1)
  {
    if c[LockValue] == 0x00 && c[LockConfig] == 0x00 && c[SlotLocked] & 1 == 0x00 then Ok(1) else Ok(0)
  }

  /** The query answers 1 exactly when the data and OTP zones, the
      configuration zone and slot 0 are all locked. */
  lemma IsConfiguredMeaning(c: Snapshot)
    ensures IsConfigured(c).value == 1 <==>
      DataZoneLocked(c) && ConfigZoneLocked(c) && Slot0Locked(c)
  {
    LowBit(c[SlotLocked]);
  }

  /** Bit 0 of a byte is clear exactly when its value is even. */
  lemma LowBit(b: byte)
    ensures b & 1 == 0 <==> (b as int) % 2 == 0
  {
  }

  /** The answer depends on the three lock bytes 86 to 88 only. */
  lemma IsConfiguredLocal(c1: Snapshot, c2: Snapshot)
    requires c1[LockValue..SlotLocked + 1] == c2[LockValue..SlotLocked + 1]
    ensures IsConfigured(c1) == IsConfigured(c2)
  {
    assert c1[86] == c1[LockValue..SlotLocked + 1][0] == c2[86];
    assert c1[87] == c1[LockValue..SlotLocked + 1][1] == c2[87];
    assert c1[88] == c1[LockValue..SlotLocked + 1][2] == c2[88];
  }

  /** A chip fresh from the factory, with either zone lock byte still at
      0x55, is reported as not configured. */
  lemma UnlockedNotConfigured(c: Snapshot)
    requires c[LockValue] == Unlocked || c[LockConfig] == Unlocked
    ensures IsConfigured(c) == Ok(0)
  {
  }

  /** The copy before any read is all zeros, and it reads as configured:
      the query trusts whatever the copy holds. */
  lemma ZeroCopyConfigured()
    ensures IsConfigured(seq(ConfigSize, _ => 0)) == Ok(1)
  {
    var c: Snapshot := seq(ConfigSize, _ => 0);
    assert c[86] == 0 && c[87] == 0 && c[88] == 0;
  }

  /** What the chip sends back for a block read, checksum aside: the count
      byte and the block's 32 data bytes. */
  type Payload = p: seq<byte> | |p| == 33 witness seq(33, _ => 0)

  /** From position `pos` on, the script completes every transaction of a
      block read, with a chip answering the sealed 33-byte payload `p`:
      count byte, then the block's 32 data bytes. */
  predicate BlockAnswered(script: seq<Reply>, pos: nat, p: seq<byte>)
  {
    |p| == 33 && ReadScripted(script, pos, Seal(p))
  }

  /** From position `pos` on, the script completes the block reads one
      after the other, the chip answering the payloads `ps` in order. */
  predicate ChipAnswers(script: seq<Reply>, pos: nat, ps: seq<Payload>)
    decreases |ps|
  {
    |ps| == 0 || (BlockAnswered(script, pos, ps[0]) && ChipAnswers(script, pos + 6, ps[1..]))
  }

  /** The transactions of reading the blocks at `addresses`. */
  function BlocksLog(addresses: seq<bv16>): seq<Event>
    decreases |addresses|
  {
    if |addresses| == 0 then []
    else ReadLog(ZoneByte(ZoneConfig, BlockSize).value, addresses[0]) + BlocksLog(addresses[1..])
  }

  /** The data bytes of the payloads `ps`, count bytes dropped, laid end
      to end. */
  function Blocks(ps: seq<Payload>): seq<byte>
    decreases |ps|
  {
    if |ps| == 0 then [] else ps[0][1..33] + Blocks(ps[1..])
  }

  /** A chip answering each of the block reads with its data block has the
      blocks appended to the copy in order, six transactions per block. */
  lemma {:induction false} BlocksFromChip(run: Run<seq<byte>>, addresses: seq<bv16>, ds: seq<Payload>)
    requires run.exit.Returned? && run.exit.result.Ok?
    requires |ds| == |addresses|
    requires ChipAnswers(run.bus.script, run.bus.pos, ds)
    ensures ReadBlocks(run, addresses) ==
      Run(Bus(run.bus.script, run.bus.pos + 6 * |addresses|, run.bus.log + BlocksLog(addresses)),
          Returned(Ok(run.exit.result.value + Blocks(ds))))
    decreases |addresses|
  {
    if |addresses| == 0 {
      assert run.bus.log + [] == run.bus.log;
      assert run.exit.result.value + [] == run.exit.result.value;
    } else {
      var z := ZoneByte(ZoneConfig, BlockSize).value;
      var next := Run(Bus(run.bus.script, run.bus.pos + 6, run.bus.log + ReadLog(z, addresses[0])),
                      Returned(Ok(run.exit.result.value + ds[0][1..33])));
      assert ReadBlocks(run, addresses) == ReadBlocks(next, addresses[1..]) by {
        BlockFromChip(run, addresses[0], ds[0]);
      }
      BlocksFromChip(next, addresses[1..], ds[1..]);
      assert BlocksLog(addresses) == ReadLog(z, addresses[0]) + BlocksLog(addresses[1..]);
      AppendAssoc(run.bus.log, ReadLog(z, addresses[0]), BlocksLog(addresses[1..]));
      assert Blocks(ds) == ds[0][1..33] + Blocks(ds[1..]);
      AppendAssoc(run.exit.result.value, ds[0][1..33], Blocks(ds[1..]));
    }
  }

  /** A chip answering the four block reads with sealed payloads has its
      configuration zone copied block after block, six transactions per
      block; the copy holds the payloads' data bytes in block order. */
  lemma ConfigFromChip(bus: Bus, ps: seq<Payload>)
    requires |ps| == |ConfigAddresses| && ChipAnswers(bus.script, bus.pos, ps)
    ensures ReadConfigZone(bus).exit == Returned(Ok(Blocks(ps)))
    ensures ReadConfigZone(bus).bus.pos == bus.pos + 24
  {
    BlocksFromChip(Run(bus, Returned(Ok([]))), ConfigAddresses, ps);
    EmptyPrefix(Blocks(ps));
  }

  /** Block `k` of the copy is bytes 1 to 32 of payload `k`. */
  lemma {:induction false} BlockPlacement(ps: seq<Payload>, k: nat)
    requires k < |ps|
    ensures |Blocks(ps)| == BlockSize * |ps|
    ensures Blocks(ps)[BlockSize * k..BlockSize * (k + 1)] == ps[k][1..33]
    decreases |ps|
  {
    if k == 0 {
      if |ps| > 1 {
        BlockPlacement(ps[1..], 0);
      }
    } else {
      BlockPlacement(ps[1..], k - 1);
      assert ps[1..][k - 1] == ps[k];
    }
  }

  /** One block read against a chip answering the sealed payload `p`
      appends bytes 1 to 32 of `p` to the copy. */
  lemma BlockFromChip(run: Run<seq<byte>>, address: bv16, p: seq<byte>)
    requires run.exit.Returned? && run.exit.result.Ok?
    requires BlockAnswered(run.bus.script, run.bus.pos, p)
    ensures ReadBlock(run, address) ==
      Run(Bus(run.bus.script, run.bus.pos + 6, run.bus.log + ReadLog(ZoneByte(ZoneConfig, BlockSize).value, address)),
          Returned(Ok(run.exit.result.value + p[1..33])))
  {
    ReadSealed(run.bus, ZoneConfig, address, BlockSize, p);
  }

  /** A failed first block read stops the program at once with that read's
      code: no later block is requested. */
  lemma ConfigFirstBlockFails(bus: Bus)
    requires Comm.Read(bus, ZoneConfig, ConfigBlock0, BlockSize).result.Err?
    ensures var b := Comm.Read(bus, ZoneConfig, ConfigBlock0, BlockSize);
      ReadConfigZone(bus) == Run(b.bus, Aborted(b.result.code))
  {
  }
}
