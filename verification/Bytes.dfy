/**
 The bytes of messages and files.  (Flash has its own, on which the driver's code does
 arithmetic.)
 */
module Bytes {
  newtype Byte = b: int | 0 <= b < 256
}
