/** The octet both codecs work on. */
module Bytes {
  type byte = x: int | 0 <= x < 256
}
