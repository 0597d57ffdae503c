/** Bytes as the editor reads them from the terminal, the lines it keeps, and
    the few key codes it recognises. */
module Basics {

  /** One byte of terminal input; the editor reads each key into a `char`. */
  newtype byte = x: int | 0 <= x < 256

  /** One line of the buffer: the bytes of one `std::string`. */
  type Line = seq<byte>

  const LF: byte := 10          // '\n', the Enter key in raw mode
  const ESC: byte := 27         // '\033', the start of an escape sequence
  const CSI: byte := 91         // '[', second byte of an arrow key's sequence
  const KEY_UP: byte := 65      // 'A'
  const KEY_DOWN: byte := 66    // 'B'
  const KEY_RIGHT: byte := 67   // 'C'
  const KEY_LEFT: byte := 68    // 'D'

  function Min(a: int, b: int): int {
    if a <= b then a else b
  }

  function Max(a: int, b: int): int {
    if a >= b then a else b
  }

  predicate IsAscii(s: string) {
    forall i :: 0 <= i < |s| ==> s[i] < 128 as char
  }

  /** The bytes of a string literal written with ASCII characters only. */
  function Ascii(s: string): (r: Line)
    requires IsAscii(s)
    ensures |r| == |s|
    ensures forall i :: 0 <= i < |s| ==> r[i] as int == s[i] as int
  {
    seq(|s|, i requires 0 <= i < |s| => s[i] as int as byte)
  }
}
