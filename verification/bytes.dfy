/** Octets, as the C code's `uint8_t`. */
module Bytes {

  /** One octet. */
  type byte = bv8
}
