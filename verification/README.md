# ATECC508A command transport, modelled in Dafny

This project models the command transport of an ESP-IDF driver for the
ATECC508A secure element, and proves properties of the model. The transport
covers six pieces:

- **checksum engine.** The chip's CRC-16 has polynomial 0x8005 and zero
  initial value, is fed least-significant bit first, and comes in streaming
  and one-shot form.
- **response check.** It compares the trailing little-endian checksum with
  the checksum of the bytes before it.
- **commands.** This covers the command frame, sending a command to a woken
  chip, the chunked receive with its attempt budget, and the zone read.
- **power transitions.** Wake pulse with validation of the acknowledgement;
  idle and sleep writes.
- **configuration zone.** The 128-byte copy read in four blocks, and the
  lock-status query answered from it.
- **lock.** The status-response check of the lock call.

The I2C bus is a scripted oracle (`I2c.Bus`):

- Its script fixes, in order, how each transaction turns out: completed with
  the bytes the chip drove, or failed with an `esp_err_t` code.
- A bus whose script has run out times out.
- The bus keeps a log of the transactions it was asked for, so contracts can
  say exactly what went over the wire.

Driver calls are total functions from a bus to a `Step` (the bus afterwards
and an `Esp.Result`). `ESP_CHECK_RET` becomes an early `Err` return.
`ESP_ERROR_CHECK`, which aborts the program, becomes the `Aborted` exit of a
`Run`.

Modules follow the driver's files:

| module | file |
|---|---|
| `Esp` | error codes and results |
| `Device` | header constants |
| `Crc` | src/atecc508a_crc.c |
| `Util` | src/atecc508a_util.c |
| `I2c` | the bus |
| `Receiver` | receive loop of src/atecc508a_comm.c |
| `Power` | src/atecc508a_pwr.c |
| `Comm` | framing, send and read of src/atecc508a_comm.c |
| `Config` | src/atecc508a_conf.c |
| `Sec` | src/atecc508a_sec.c |

## Behaviour of the driver worth knowing

- **Receive budget.** A receive that never completes makes 21 bus reads.
  `retries++ >= 20` is tested after each read, successful or not
  (src/atecc508a_comm.c:143-146).
- **Last attempt.** The read made with the counter at 20 fails the call
  even when it completed the response (src/atecc508a_comm.c:137-146).
- **Wake check order.** The wake check tests the checksum first and the
  status byte 0x11 second (src/atecc508a_pwr.c:47-53).
- **Count byte.** The count byte is exact for up to 248 data bytes. It is
  computed as `(uint8_t)(8 + n) - 1` and stored in a byte
  (src/atecc508a_comm.c:36,40). For `n = 248` the total wraps to 0, and
  0 - 1 stored in a byte is 255 = 7 + 248.
- **Full-size receive.** A read receives and checks 35 bytes whatever its
  length, 4 or 32 (src/atecc508a_comm.c:178-184).
- **Zeroed copy.** The lock-status query answers from a zero-initialised
  global (src/atecc508a_conf.c:12). Before any read of the configuration
  zone it reports "configured".

## Model

| member | source | states |
|---|---|---|
| Crc.ShiftIsSourceStep | src/atecc508a_crc.c:19-23 | the branch-free register step equals the driver's step: remember bit 15, shift left within 16 bits, xor 0x8005 exactly when the data bit differs from the remembered bit |
| Crc.ShiftRegisterMask | src/atecc508a_crc.c:17-19 | the byte loop's 8-bit mask becomes zero exactly after the eighth shift, so each byte takes eight steps; testing the byte against the mask at step `i` reads bit `i`, least significant first |
| Crc.Checksum | src/atecc508a_crc.c:8-11 | the checksum of the empty message is 0x0000, the reset value of the accumulator |
| Crc.Update | src/atecc508a_crc.c:13-26 | an update over no bytes leaves the context as it was (the byte loop runs zero times) |
| Crc.FeedAppend | src/atecc508a_crc.c:13-26 | feeding `a` and then `b` to the register gives the same register as feeding `a + b` |
| Crc.StreamingSplit | src/atecc508a_crc.c:13-26 | two update calls from a context give the same context as one update over the concatenation |
| Crc.StreamingAnySplit | src/atecc508a_crc.c:33-41 | splitting the input across any number of update calls gives the same checksum as the one-shot checksum of the concatenation |
| Crc.WakeVector | src/atecc508a_crc.c:13-26 | the checksum of 04 11 is 0x4333, so the wake acknowledgement 04 11 33 43 is self-consistent |
| Crc.SuccessVector | src/atecc508a_crc.c:13-26 | the checksum of 04 00 is 0x4003 |
| Crc.FeedBitsLinear | src/atecc508a_crc.c:17-24 | the bit loop is linear over GF(2): feeding the xor of two registers and two bytes gives the xor of the separate results |
| Crc.FeedLinear | src/atecc508a_crc.c:13-26 | with zero initial value and no final xor, the register after a message is linear in the register and the message |
| Crc.ChecksumLinear | src/atecc508a_crc.c:33-41 | the checksum of the bytewise xor of two equal-length messages is the xor of their checksums |
| Crc.FeedZeros | src/atecc508a_crc.c:19-23 | feeding zero bytes keeps a zero register at zero and a non-zero register non-zero |
| Crc.SingleBitErrorDetected | src/atecc508a_crc.c:33-41 | inverting any single bit of any message changes its checksum |
| Util.StoredCrc | src/atecc508a_util.c:31 | the stored checksum is the 16-bit value whose little-endian bytes are the response's last two bytes |
| Util.LittleEndianRoundTrip | src/atecc508a_util.c:31 | reading back a 16-bit value written low byte first gives the value again |
| Util.CheckCrc | src/atecc508a_util.c:29-38 | the check accepts a response exactly when it equals its first n-2 bytes followed by their checksum, and otherwise gives `ESP_ERR_INVALID_CRC`; there is no third outcome |
| Util.SealAccepted | src/atecc508a_util.c:31-37 | any payload followed by its own little-endian checksum is accepted |
| Util.TrailerDecides | src/atecc508a_util.c:31-37 | for a fixed payload exactly one trailer is accepted; any other 16-bit trailer is a checksum error |
| Util.BitFlipRejected | src/atecc508a_util.c:29-38 | inverting any single bit of a sealed response, in the payload or in the trailer, is rejected as a checksum error |
| I2c.FitContent | src/atecc508a_comm.c:124-128 | a completed read of `n` bytes stores the chip's bytes, 0xFF past what the chip drove, and a reply of exactly `n` bytes unchanged |
| Receiver.Receive | src/atecc508a_comm.c:106-153 | a successful receive returns exactly `length` bytes, and the bus outcomes are only consumed, never changed |
| Receiver.ReceiveOutcome | src/atecc508a_comm.c:106-153 | a receive succeeds exactly when the response is empty or the completed reads among the next 20 cover it; otherwise it returns `ESP_FAIL` after exactly 21 reads |
| Receiver.ReceiveCovered | src/atecc508a_comm.c:111-146 | a successful receive makes at most 20 reads, and the completed ones among them cover the response |
| Receiver.ReceiveStops | src/atecc508a_comm.c:111-141 | a successful receive stops right after the read that completed the response |
| Receiver.ReceiveRequests | src/atecc508a_comm.c:111-141 | each read asks for the smaller of 32 and what is still missing, a completed read shortens what is missing, and nothing else is logged |
| Receiver.ReceiveContent | src/atecc508a_comm.c:113-141 | the bytes received are the data of the completed reads laid out chunk after chunk |
| Receiver.ReceiveNothing | src/atecc508a_comm.c:111 | a receive of zero bytes succeeds without touching the bus |
| Receiver.ReceiveReadResponse | src/atecc508a_comm.c:111-141 | a 35-byte response whose reads complete takes exactly two reads, of 32 and 3 bytes |
| Receiver.ReceiveShortResponse | src/atecc508a_comm.c:111-141 | a response of at most 32 bytes whose read completes takes exactly one read |
| Receiver.LateSuccessFails | src/atecc508a_comm.c:143-146 | twenty failed reads followed by one that delivers the whole response still give `ESP_FAIL` after 21 reads |
| Receiver.ReceiveLoop | src/atecc508a_comm.c:106-153 | the driver's while loop over bus, buffer, missing length and counter computes exactly the recursive receive; on failure it returns `ESP_FAIL` after 21 reads |
| Power.WakeUp | src/atecc508a_pwr.c:13-56 | the first transaction is the bare zero-byte pulse, and a failed pulse is returned before any read; a failed 4-byte receive returns its `ESP_FAIL`; a received acknowledgement gives `ESP_ERR_INVALID_CRC` when its checksum is wrong, else `ESP_FAIL` when its status is not 0x11, else success |
| Power.WakeAcceptedForm | src/atecc508a_pwr.c:47-53 | the accepted acknowledgements are exactly the sealed ones with status 0x11, whatever their count byte |
| Power.WakeResponseAccepted | src/atecc508a_pwr.c:47-55 | the acknowledgement 04 11 33 43 is accepted |
| Power.WakeOutcome | src/atecc508a_pwr.c:20-55 | with the pulse completed and the acknowledgement delivered, the call takes the pulse and one 4-byte read; a checksum mismatch is `ESP_ERR_INVALID_CRC` whatever byte 1 holds, a consistent acknowledgement with another status is `ESP_FAIL` |
| Power.WakeSucceeds | src/atecc508a_pwr.c:13-56 | a chip answering 04 11 33 43 is woken with one pulse and one read |
| Power.WakeCorruptionRejected | src/atecc508a_pwr.c:47 | any single bit inverted in 04 11 33 43 is caught by the checksum before the status is looked at |
| Power.Idle | src/atecc508a_pwr.c:82-104 | idle issues exactly the write C0 02 and no read, and returns the bus error unchanged |
| Power.Sleep | src/atecc508a_pwr.c:58-80 | sleep issues exactly the write C0 01 and no read, and returns the bus error unchanged |
| Device.HeaderBytes | include/atecc508a.h:5 | the write and read addressing bytes C0 and C1 are the 7-bit address 0x60 shifted left with the R/W bit |
| Comm.Frame | src/atecc508a_comm.c:36-80 | the frame is 8 bytes longer than the data, starts with word address 0x03, carries opcode, first parameter and second parameter low byte first, then the data |
| Comm.CountByteExact | src/atecc508a_comm.c:36-40 | the count byte equals the frame length minus the word-address byte exactly when the data is at most 248 bytes |
| Comm.FrameSealed | src/atecc508a_comm.c:48-55 | the checksum computed in two update calls covers the count byte through the data and skips 0x03, so the frame after its first byte passes the response check |
| Comm.DecodeEncode | src/atecc508a_comm.c:36-80 | the frame of any command with at most 248 data bytes decodes back to that command |
| Comm.EncodeDecode | src/atecc508a_comm.c:36-80 | whatever decodes is exactly the frame of the command it decodes to |
| Comm.SendCommand | src/atecc508a_comm.c:30-97 | a failed wake is returned before anything is written; otherwise one write carries C0 and the frame, and its bus error is returned unchanged |
| Comm.ZoneByte | src/atecc508a_comm.c:161-172 | only lengths 4 and 32 are accepted; any other is `ESP_ERR_INVALID_ARG` |
| Comm.ZoneByteBits | src/atecc508a_comm.c:161-168 | bit 7 of the zone byte is set exactly for a 32-byte read; the other seven bits are the caller's |
| Comm.Read | src/atecc508a_comm.c:155-190 | an invalid length fails with no bus activity; otherwise any failure of the response is returned unchanged, and success returns bytes 1 to `length` of the checked response |
| Comm.ReadResponse | src/atecc508a_comm.c:174-184 | a failed send is returned; a receive that runs out of attempts returns `ESP_FAIL` with no idle written; otherwise idle is written, a failed idle is returned before the checksum is tested, a bad checksum is `ESP_ERR_INVALID_CRC`, and a returned response is 35 bytes that pass the check |
| Comm.SendReadCommand | src/atecc508a_comm.c:30-97 | against a chip that acknowledges the wake, sending a read command takes pulse, acknowledgement and one write of the read frame |
| Comm.ReadResponseOutcome | src/atecc508a_comm.c:174-184 | with every transaction completing, the 35 bytes come in reads of 32 and 3, idle is written, and the response is returned exactly when its checksum holds |
| Comm.ReadOutcome | src/atecc508a_comm.c:155-190 | with every transaction completing, a read of 4 or 32 bytes issues exactly its six transactions and returns bytes 1 to `length` of the response when the checksum over all 35 bytes holds, and a checksum error otherwise |
| Comm.ReadChecked | src/atecc508a_comm.c:184-187 | a response that passes the check has bytes 1 to `length` copied out |
| Comm.ReadSealed | src/atecc508a_comm.c:155-190 | a chip answering a sealed 33-byte payload has bytes 1 to `length` of it read out |
| Comm.ReadCorruptionRejected | src/atecc508a_comm.c:184 | a single bit inverted anywhere in a sealed response fails the read with a checksum error |
| Comm.ReadWakeFails | src/atecc508a_comm.c:174 | a failed wake pulse ends a read with that error after the pulse alone |
| Config.ReadBlock | src/atecc508a_conf.c:16 | a failed block read aborts with its code; a successful one appends its 32 bytes; a run already aborted is left alone |
| Config.ReadBlocks | src/atecc508a_conf.c:16-22 | a run that returns has appended 32 bytes per block; an aborted run stays aborted |
| Config.ReadConfigZone | src/atecc508a_conf.c:14-28 | the call never returns an error, and when it returns the copy holds 128 bytes |
| Config.BlocksFromChip | src/atecc508a_conf.c:16-22 | a chip answering each block read with a sealed payload has the payloads' data bytes appended in order, with six transactions per block, logged as the read of each address in turn |
| Config.ConfigFromChip | src/atecc508a_conf.c:14-28 | a chip answering the four block reads has its configuration zone copied as the four data blocks in order, after 24 transactions |
| Config.BlockPlacement | src/atecc508a_conf.c:16-22 | block `k` of the copy is at bytes 32k to 32k+31 |
| Config.ConfigFirstBlockFails | src/atecc508a_conf.c:16 | a failed first block read aborts at once with its code, and no later block is requested |
| Config.IsConfigured | src/atecc508a_conf.c:30-50 | the query always succeeds and answers 0 or 1 |
| Config.IsConfiguredMeaning | src/atecc508a_conf.c:40-47 | the answer is 1 exactly when the data and OTP zones and the configuration zone are locked (bytes 86 and 87 hold 0x00) and slot 0 is locked (byte 88 is even) |
| Config.IsConfiguredLocal | src/atecc508a_conf.c:40 | the answer depends on bytes 86 to 88 of the copy only |
| Config.UnlockedNotConfigured | src/atecc508a_conf.c:37-47 | the unlocked marker 0x55 in byte 86 or 87 gives "not configured" |
| Config.ZeroCopyConfigured | src/atecc508a_conf.c:12 | the all-zero copy held before any read answers "configured" |
| Sec.Lock | src/atecc508a_sec.c:12-32 | a failed receive aborts; otherwise idle is written, and the result is, in this order: the idle write's own error, `ESP_ERR_INVALID_CRC` for a bad checksum, `ESP_ERR_INVALID_RESPONSE` for a status other than 0x00, else success |
| Sec.LockIgnoresZone | src/atecc508a_sec.c:12-14 | the outcome does not depend on the lock mode |
| Sec.LockOutcome | src/atecc508a_sec.c:12-32 | with both transactions completing, the call is one 4-byte read and the idle write, with no command frame; a checksum mismatch is `ESP_ERR_INVALID_CRC` before any status test, another status is `ESP_ERR_INVALID_RESPONSE` |
| Sec.LockIdleFailure | src/atecc508a_sec.c:22 | a failed idle write is returned even when the response is bad |
| Sec.SuccessResponseConfirmed | src/atecc508a_sec.c:24-31 | the response 04 00 03 40 is a confirmed success |
| Sec.LockSucceeds | src/atecc508a_sec.c:12-32 | a chip answering 04 00 03 40 has the lock reported as done |
| Sec.LockCorruptionRejected | src/atecc508a_sec.c:24 | a single bit inverted anywhere in a sealed status response is reported as a checksum error, whatever the status byte says |

## Left out

- I2C plumbing is left out: command links, the 1000 ms timeout and driver installation. Each transaction is one step of the scripted bus. ACK/NACK bits are not modelled, and a completed read delivers exactly the requested count.
- Delays (`atecc508a_delay`, `vTaskDelay`) and the wake timing constraints take no time in the model; they have no observable effect on the bus log.
- Logging is left out.
- src/atecc508a.c is an older duplicate revision and is not part of this model.
- The stubs that only return `ESP_OK` are not modelled: `atecc508a_write`, `atecc508a_write_config`, `atecc508a_configure` and `atecc508a_create_key_pair`.
- I2c.FitContent: the 0xFF padding of a read that delivers fewer bytes than requested is the scripted bus's own convention. The driver always stores exactly the requested count, and what a short transfer leaves in the buffer depends on the I2C hardware, which is not modelled.
- Caller buffers are not modelled as memory. A read's result is the copied bytes, and a failure returns no bytes. The driver copies last, so a failed read leaves the caller's buffer untouched.
- The host byte order of the frame checksum is taken to be little-endian, as on the ESP32.
- The global copy of the configuration zone is a `Snapshot` value that is passed in. The query does not fetch it.
- Config.ConfigFromChip: states the copy and the transaction count but not the log. Writing the log out for the four literal addresses makes the solver evaluate every frame checksum bit by bit. `Config.BlocksFromChip` states the log for any list of addresses.
- Comm.ReadOutcome: assumes a chip that answers every read with 35 bytes, the size the driver always receives. Shorter answers are covered only by the general `Receiver` lemmas.
