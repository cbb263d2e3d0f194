/** Bytes, and C strings as the sequence of their characters. */
module Text {
  type Byte = b: nat | b < 256

  type Str = seq<nat>
}
