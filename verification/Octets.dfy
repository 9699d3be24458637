/** Bytes as numbers, and the telnet bytes that more than one module looks for. */
module Octets {
  type Byte = b: int | 0 <= b < 256

  const SB: Byte := 250
  const IAC: Byte := 255
  const OPT_NAWS: Byte := 31
}
