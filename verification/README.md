# hecto (early snapshot) in Dafny

A model of the core of *hecto*, a small terminal text editor written in Rust, at an
early stage of its development.

The running editor (editor.rs) does the following:

- it enters raw mode, clears the screen and draws a tilde at the start of every row;
- it reads terminal events one at a time, matching them itself;
- it quits on Ctrl+Q, saying goodbye.

Its only state is that quit flag.

The source tree also holds four files that editor.rs does not yet declare as modules
or call. They are not compiled into the running program, but each is modelled as written:

- editor/view/line.rs: `Line`, a string sliced by byte ranges;
- editor/view/buffer.rs: `Buffer`, the lines of a file split the way Rust's
  `str::lines` splits;
- editor/editorcommand.rs: `EditorCommand`, a decoder from terminal events to a closed
  command set of move, resize and quit;
- editor/view.rs: `View::render`, which paints a static screen. It puts a centred
  welcome banner on row height/3, "Hello, world!" on row 0, and a tilde on every
  other row.

`Editors.Run`'s trace therefore holds the tilde column of `draw_rows`, not the layout
of `Views.Render`. editor/view.rs also calls `Terminal::clear_line` and
`Terminal::print`, which editor/terminal.rs does not define.

Everything is modelled by immutable datatypes and side-effect-free functions and
methods. Terminal output is a returned trace of `Terminal.Action` values. Terminal
input is a given sequence of `Events.Event` values. The contents of a file read are
a given `Result`.

Modules, one per source file or shared concept:

| module | file | models |
|---|---|---|
| `Wrappers` | wrappers.dfy | `Option`, `Result` |
| `Usize` | usize.dfy | `usize`/`u16` ranges, `saturating_sub`, `saturating_add` |
| `Bytes` | bytes.dfy | UTF-8 bytes, ASCII literals, `" ".repeat(n)` |
| `Terminal` | terminal.dfy | terminal `Size` and output `Action`s (abstract) |
| `Events` | events.dfy | key codes, modifiers and events of the terminal library |
| `Lines` | line.dfy | editor/view/line.rs |
| `Buffers` | buffer.dfy | editor/view/buffer.rs |
| `Commands` | editorcommand.dfy | editor/editorcommand.rs |
| `Views` | view.dfy | editor/view.rs |
| `Editors` | editor.dfy | editor.rs |

Modelling decisions:

- Strings are their UTF-8 bytes (`seq<byte>`), so every length is a byte length, as
  `String::len` is. A character boundary follows Rust's `str::is_char_boundary`.
  Offset 0 and the end are boundaries. An offset past the end is not. An offset
  inside the string is a boundary unless its byte is a continuation byte (0x80–0xBF).
- `str::lines` follows current Rust. The text is cut after each '\n'. The '\n' is
  removed, then one '\r' directly before it. A last line without '\n' keeps a
  trailing '\r'.
- `usize` is 64 bits wide. A resize event's `u16` fields widen to `usize` without
  change.
- Modifiers are a set of flags. "Exactly CONTROL" is the set `{Control}`.
- The version string is a build-time constant. It is a parameter of the view.

The editor's later design (graphemes, cursor, scrolling, a dirty flag, a truncating
welcome message) is not in this code. The model follows the code:

- `Line::length` counts bytes, not grapheme clusters.
- `Line::get` clamps only the end bound. It falls back to "" instead of clamping the start.
- The welcome line is never truncated. At widths up to the banner's length it is one
  byte longer than the banner, not a lone marker. At width 0 it is the same.
- `Buffer::load` returns the read error and builds no buffer. Nothing in this version
  calls `Buffer::load`.

## Model

| member | source | states |
|---|---|---|
| Lines.StrGet | editor/view/line.rs:17 | the checked slice exists exactly when the range is ordered and both ends are character boundaries within the string; it is then the bytes between them |
| Lines.From | editor/view/line.rs:8-12 | a line built from a text has the text's byte length, and reading the range 0..length gives the text back |
| Lines.Length | editor/view/line.rs:20-22 | the byte length of the line's text; `Lines.From` states it equals the length of the text the line was built from |
| Lines.Get | editor/view/line.rs:14-18 | never fails; a non-empty result is the contiguous slice from start to min(end, length), at most length and end - start bytes long; reversed or out-of-range ranges and ranges whose ends are not character boundaries give "" |
| Lines.GetClampsEnd | editor/view/line.rs:16 | an end past the line reads exactly as an end at the line's length |
| Lines.GetEmptyRange | editor/view/line.rs:15-17 | an empty range start..start always gives "" |
| Lines.GetAdjacent | editor/view/line.rs:14-18 | slices a..b and b..c on character boundaries concatenate to the slice a..c |
| Buffers.Default | editor/view/buffer.rs:5-8 | the default buffer is empty, and it is the only buffer with no lines |
| Buffers.IsEmpty | editor/view/buffer.rs:21-23 | true exactly when the buffer holds no lines; `Buffers.Default` and `Buffers.Load` state when that is so |
| Buffers.SplitLines | editor/view/buffer.rs:15 | no line holds '\n'; there is one line per '\n', plus one for a non-empty last line without a terminator |
| Buffers.Load | editor/view/buffer.rs:11-19 | a failed read is returned as the same error with no buffer; otherwise the lines are the split of the file, none holds '\n', and the buffer is empty exactly when the file is |
| Buffers.SplitFirstLine | editor/view/buffer.rs:15 | the first line is the text before the first '\n', less one '\r', and the rest is split in order |
| Buffers.CRLFTerminatorRemoved | editor/view/buffer.rs:15 | a "\r\n" terminator is removed whole, leaving no trailing '\r' from it |
| Buffers.SplitJoinLF | editor/view/buffer.rs:13-18 | lines without '\n' and not ending in '\r', written each followed by "\n", load back as the same lines in the same order |
| Buffers.SplitJoinCRLF | editor/view/buffer.rs:13-18 | lines without '\n', written each followed by "\r\n", load back as the same lines in the same order |
| Buffers.JoinSplitLF | editor/view/buffer.rs:13-18 | a text that is empty or ends in '\n', and in which no '\r' directly precedes a '\n', is rebuilt by writing each loaded line followed by "\n" |
| Buffers.FinalTerminatorOptional | editor/view/buffer.rs:15 | a final '\n' after a last line not ending in '\r' adds no empty trailing line |
| Commands.TryFrom | editor/editorcommand.rs:22-42 | Ctrl+Q with exactly CONTROL decodes to Quit and nothing else does; arrow keys decode to Move in their direction, whatever the modifiers; resize events, and only they, decode to Resize with the size kept; every other key is rejected naming its code, and every other event is rejected naming the event |
| Commands.DecodeEncode | editor/editorcommand.rs:19-42 | every command with a size fitting in u16 is decoded from some event: its canonical event |
| Commands.ArrowIgnoresModifiers | editor/editorcommand.rs:28-31 | an arrow key decodes the same whatever modifiers are held |
| Commands.QuitNeedsExactlyControl | editor/editorcommand.rs:27-32 | 'q' with any modifier set other than exactly CONTROL is rejected |
| Views.NameAndVersion | editor/view.rs:42-43 | the banner is "Hecto -- version " followed by the version, and its byte length is the sum of the two |
| Views.WelcomeLine | editor/view.rs:40-48 | the line is a tilde, then spaces, then "Hecto -- version " and the version; it fits the width exactly when the width exceeds the banner's length, is the banner plus one byte otherwise, and when there is room the banner is centred with at most one more free column on the right |
| Views.RowText | editor/view.rs:16-24 | row height/3 shows the welcome line, taking precedence over row 0; row 0 shows "Hello, world!" exactly when height/3 is not 0; every other row, and only those, shows "~" |
| Views.Render | editor/view.rs:11-33 | exactly height rows are each cleared and drawn, in order; "\r\n" follows every row but the last, so height 0 gives nothing and height h gives 3h - 1 actions |
| Editors.Default | editor.rs:12-14 | a new editor is not quitting |
| Editors.EvaluateEvent | editor.rs:51-63 | Ctrl+Q sets the quit flag; every other key event and every non-key event leaves the editor unchanged; the flag is never cleared |
| Editors.QuitAgreesWithCommand | editor.rs:57 | the event loop quits on exactly the events the command decoder turns into Quit |
| Editors.EvaluateAllQuits | editor.rs:51-63 | after any run of events the flag is set exactly when it started set or some event was Ctrl+Q |
| Editors.RefreshScreen | editor.rs:65-71 | a clear followed by "Goodbye.\r\n" when quitting, nothing otherwise |
| Editors.DrawRows | editor.rs:73-85 | each row in order gets a caret move to its column 0 and a "~", then the caret returns to (0, 0) |
| Editors.Repl | editor.rs:38-49 | events are processed in order up to and including the first Ctrl+Q, and none after it; without one, all available events are processed and the loop keeps waiting; the goodbye is written once, at the end, and only when the loop stops |
| Editors.Run | editor.rs:16-36 | a session enters raw mode and clears the screen, then draws each row's caret move and "~" in order and returns the caret home; when some event was Ctrl+Q the loop's clear and "Goodbye.\r\n" follow and the session leaves raw mode; otherwise nothing follows, since the session is still waiting in raw mode |

## Left out

- editor/terminal.rs: raw mode, screen clearing, caret moves and size queries are I/O. They appear only as `Terminal.Action` values and a `Terminal.Size` parameter. `Terminal::clear_line`, `Terminal::print` and a `Size`-returning `Terminal::size` are used by editor/view.rs but are not in editor/terminal.rs as it stands, so they are abstract actions here.
- main.rs: an entry point with lint settings only.
- File reading, blocking on input and writing to stdout: the read's outcome, the event sequence and the action trace stand in for them.
- I/O errors propagated with `?` inside `initialize`, `render`, `draw_rows`, `repl` and `refresh_screen`, and the panics of `unwrap` in `run` and `draw_rows`: every terminal call is taken to succeed.
- Views.Render: `draw_welcome_message` queries the terminal size a second time. The model assumes both queries return the same size.
- Commands.TryFrom: the event kind and state fields of a key event, which the decoder ignores, are not modelled. The error messages are kept as data (the key code or the event), not as formatted text.
- Editors.Repl: the input is finite. A run that exhausts it without Ctrl+Q stands for a loop still blocked on the next read; `Editors.Run` then never reaches `terminate` and stays in raw mode.
- UTF-8 validity of file contents and lines is not required. It does not affect where the split falls, since '\n' and '\r' never occur inside a multi-byte character.
