/** Small value wrappers shared by the other modules. */
module Wrappers {

  /** A value that may be absent (Python's `None`). */
  datatype Option<+T> = None | Some(value: T)

  /**
   * The outcome of an interactive prompt loop that reads from a script of
   * input lines: either it produced `value` and left the lines `rest`
   * unread, or the script ran out while it was still asking (in the
   * program, `input()` raising `EOFError`).
   */
  datatype Dialog<+T> = Answered(value: T, rest: seq<string>) | EndOfInput
}
