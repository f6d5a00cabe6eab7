/** Bytes, and C strings made of them. */
module Bytes {

  type Byte = x: int | 0 <= x < 256

  /** A C string, without its NUL. */
  type Text = seq<Byte>

  /** No NUL inside. */
  predicate IsText(t: Text) {
    forall k :: 0 <= k < |t| ==> t[k] != 0
  }

  /** The character at `i`, or the NUL after the text. */
  function ByteAt(t: Text, i: nat): Byte {
    if i < |t| then t[i] else 0
  }
}
