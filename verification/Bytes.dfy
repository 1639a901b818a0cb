// u_char, lzo_byte: the elements of every buffer.

module Bytes {
  type Byte = x: int | 0 <= x < 256
}
