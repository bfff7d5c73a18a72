/** The terminal as the core sees it: a size and a stream of output actions.
    Every write the editor performs is recorded as one `Action`, so rendering
    becomes a pure function from state to a trace of actions. */
module Terminal {
  import opened Usize
  import opened Bytes

  /** The terminal's size in columns and rows */
  datatype Size = Size(width: usize, height: usize)

  datatype Action =
    | EnableRawMode
    | DisableRawMode
    | ClearAll                      // Clear(ClearType::All)
    | ClearLine                     // clear the line the caret is on
    | MoveTo(column: u16, row: u16) // move the caret
    | Print(text: seq<byte>)        // write bytes at the caret
}
