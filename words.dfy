/** Bytes, 16-bit Modbus registers and the integer helpers the decoders share. */
module Words {

  type Byte = b: int | 0 <= b < 0x100

  /** One Modbus holding register. */
  type Word = w: int | 0 <= w < 0x1_0000

  function Min(a: int, b: int): int { if a <= b then a else b }

  /** The two's-complement reading of an unsigned value `v` of a width whose sign bit is `half`:
      what `struct.unpack` returns for the signed formats `h` (half = 2^15) and `i` (half = 2^31). */
  function Signed(v: int, half: nat): (s: int)
    requires 0 <= v < 2 * half
    ensures -(half as int) <= s < half
    ensures s == v || s == v - 2 * half
  {
    if v < half then v else v - 2 * half
  }
}

/** What can go wrong while one register is handled; each stands for an exception of the source. */
module Failures {

  datatype Failure =
    | TransportFailure  // read_holding_registers raised
    | MissingSlug       // r["slug"] is absent: KeyError
    | MissingRegisters  // the response is an error response without `registers`: AttributeError
    | ShortPayload      // struct.error: the payload holds fewer bytes than the decode reads
    | InvalidUtf8       // UnicodeDecodeError from bytes.decode("UTF-8")
    | UnknownMetric     // self.metrics[slug] is absent: KeyError
    | WrongMetricKind   // labels() called with names the metric was not declared with: ValueError
    | LogFormatError    // TypeError raised by the `%` in the except handler of read_register
}
