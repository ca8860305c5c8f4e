/** Constants of the ATECC508A chip as the driver's headers declare them:
    bus address, status codes, zones, config-zone block addresses and opcodes. */
module Device {
  import opened Esp

  /** 7-bit I2C address of the chip. */
  const Address: byte := 0x60

  /** First byte of a write transaction (address, R/W bit clear) and of a
      read transaction (R/W bit set); `HeaderBytes` derives them from the
      address. */
  const WriteHeader: byte := 0xC0
  const ReadHeader: byte := 0xC1

  /** Status codes returned by the chip in byte 1 of a short response. */
  const StatusSuccess: byte := 0x00
  const StatusWake: byte := 0x11
  /** Lock-status byte value of an unlocked zone in the config snapshot. */
  const Unlocked: byte := 0x55

  /** Zone selector of the configuration zone. */
  const ZoneConfig: byte := 0x00

  /** Word addresses of the four 32-byte blocks of the config zone. */
  const ConfigBlock0: bv16 := 0x0000
  const ConfigBlock1: bv16 := 0x0008
  const ConfigBlock2: bv16 := 0x0010
  const ConfigBlock3: bv16 := 0x0018

  /** Opcode of the read command. */
  const OpRead: byte := 0x02

  /** Word-address bytes that select what a write to the chip means. */
  const WordCommand: byte := 0x03
  const WordSleep: byte := 0x01
  const WordIdle: byte := 0x02

  lemma HeaderBytes()
    ensures WriteHeader == (Address << 1) | 0
    ensures ReadHeader == (Address << 1) | 1
  {
  }
}
