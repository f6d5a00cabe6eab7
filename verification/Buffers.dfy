/** The text buffers that are edited in place (libutils/bprintf/bprintf.c). */
module Buffers {

  /** A `BPRINTF_BUFFER`: `text` is the part of the buffer in use, `|text|` its `bindex`. */
  class TextBuffer {
    var text: string

    constructor (contents: string)
      ensures text == contents
    {
      text := contents;
    }

    /** `bprintf_delete_range`, for a range inside the buffer. */
    method DeleteRange(start: nat, end: nat)
      requires start <= end <= |text|
      modifies this
      ensures text == old(text[..start] + text[end..])
    {
      text := text[..start] + text[end..];
    }

    /** `bprintf_insert_text`. */
    method InsertText(point: nat, what: string)
      requires point <= |text|
      modifies this
      ensures text == old(text[..point]) + what + old(text[point..])
    {
      text := text[..point] + what + text[point..];
    }
  }
}
