/** Go strings are byte sequences: `len` counts bytes and `s[:n]` cuts after n bytes,
    whatever the UTF-8 structure of the text. */
module ByteStrings {

  newtype uint8 = x: int | 0 <= x < 256

  type Bytes = seq<uint8>
}
