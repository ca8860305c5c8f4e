/** Error codes and result types of the ESP-IDF platform the driver runs on.
    Every driver call returns an `esp_err_t`; zero means success and any
    other value is an error code that callers pass upward unchanged. */
module Esp {

  /** One byte on the wire. */
  type byte = bv8

  /** Storing a value that fits in a byte and reading it back gives the
      value again. */
  lemma ByteRoundTrip(x: int)
    requires 0 <= x < 256
    ensures (x as byte) as int == x
  {
    // Splitting the range keeps the solver's bit-vector conversion cheap.
    if x < 128 {
      if x < 64 {} else {}
    } else {
      if x < 192 {} else {}
    }
  }

  /** Storing a byte's value as a byte gives the byte again. */
  lemma ByteOfValue(b: byte, x: int)
    requires b as int == x
    ensures x as byte == b
  {
  }

  /** ESP-IDF error codes used by the driver (values of esp_err.h). */
  const Fail: int := -1
  const ErrInvalidArg: int := 0x102
  const ErrTimeout: int := 0x107
  const ErrInvalidResponse: int := 0x108
  const ErrInvalidCrc: int := 0x109

  /** A non-zero `esp_err_t`: zero is `ESP_OK` and is never an error. */
  type ErrCode = c: int | c != 0 witness -1

  /** What an `esp_err_t`-returning call produces: success with a value,
      or the error code it returned early with. */
  datatype Result<+T> = Ok(value: T) | Err(code: ErrCode)

  /** How a call ends when it may also stop the program: `ESP_ERROR_CHECK`
      aborts on any non-zero code instead of returning it. */
  datatype Exit<+T> = Returned(result: Result<T>) | Aborted(code: ErrCode)
}
