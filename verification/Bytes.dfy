/** The octets of files and streams. */
module Bytes {

  type byte = b: int | 0 <= b < 0x100
}
