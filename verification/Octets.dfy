/** The bytes of texts and files. */
module Octets {

  type Byte = b: int | 0 <= b < 256
}
