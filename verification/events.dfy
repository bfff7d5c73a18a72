/** The part of the terminal library's input events the editor inspects: key
    events (a key code and the set of held modifiers) and resize events. All
    other event kinds, and all other key codes, are kept opaque. */
module Events {
  import opened Usize

  datatype Modifier = Shift | Control | Alt | Super | Hyper | Meta

  datatype KeyCode =
    | Char(c: char)
    | Up
    | Left
    | Right
    | Down
    | OtherKey(id: nat)   // Backspace, Enter, function keys, ...

  datatype Event =
    | Key(code: KeyCode, modifiers: set<Modifier>)
    | Resize(columns: u16, rows: u16)
    | OtherEvent(id: nat) // focus, mouse and paste events

  /** Ctrl+Q: the character 'q' with exactly the CONTROL modifier held */
  predicate IsQuitChord(code: KeyCode, modifiers: set<Modifier>) {
    code == Char('q') && modifiers == {Control}
  }

  predicate IsQuitEvent(event: Event) {
    event.Key? && IsQuitChord(event.code, event.modifiers)
  }
}
