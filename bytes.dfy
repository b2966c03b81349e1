/** Octets, the unit both RFC 3629 (UTF-8) and RFC 4648 (Base64) work on. */
module Bytes {

  /** A byte is an integer in 0..255. */
  type byte = x: int | 0 <= x < 0x100
}
