/** Bytes, byte strings and the option type shared by every component. */
module Bytes {
  type byte = i: int | 0 <= i < 256

  // Keys, patterns, members and payloads are all byte strings: the engine looks
  // identifiers up, orders them and matches them bytewise.
  type bytes = seq<byte>

  datatype Option<+T> = None | Some(value: T)
}
