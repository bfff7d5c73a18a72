/** The editor's command set and its decoding from input events
    (editor/editorcommand.rs). Ctrl+Q quits, the four arrow keys move
    whatever modifiers are held, a resize event carries the new size, and
    everything else is rejected with an error. */
module Commands {
  import opened Wrappers
  import opened Terminal
  import opened Events

  datatype Direction = Up | Left | Right | Down

  datatype EditorCommand = Move(direction: Direction) | Resize(size: Size) | Quit

  /** Why an event was not decoded; carries what the error message names */
  datatype DecodeError = KeyCodeNotRecognized(code: KeyCode) | EventNotSupported(event: Event)

  /** The direction an arrow key stands for; None for every other key */
  function ArrowDirection(code: KeyCode): Option<Direction> {
    match code
    case Up => Some(Direction.Up)
    case Left => Some(Direction.Left)
    case Right => Some(Direction.Right)
    case Down => Some(Direction.Down)
    case _ => None
  }

  /** `EditorCommand::try_from(event)` */
  function TryFrom(event: Event): (r: Result<EditorCommand, DecodeError>)
    ensures r == Success(Quit) <==> IsQuitEvent(event)
    ensures r.Success? && r.value.Move? <==> event.Key? && ArrowDirection(event.code).Some?
    ensures r.Success? && r.value.Move? ==> ArrowDirection(event.code) == Some(r.value.direction)
    ensures r.Success? && r.value.Resize? <==> event.Resize?
    ensures r.Success? && r.value.Resize? ==>
      r.value.size.width == event.columns && r.value.size.height == event.rows
    ensures r.Failure? && event.Key? ==> r.error == KeyCodeNotRecognized(event.code)
    ensures r.Failure? && !event.Key? ==> r.error == EventNotSupported(event)
    ensures event.OtherEvent? ==> r.Failure?
  {
    match event
    case Key(code, modifiers) =>
      if IsQuitChord(code, modifiers) then Success(Quit)
      else if ArrowDirection(code).Some? then Success(Move(ArrowDirection(code).value))
      else Failure(KeyCodeNotRecognized(code))
    case Resize(width, height) =>
      // u16 -> usize widening keeps the value
      Success(EditorCommand.Resize(Size(width, height)))
    case OtherEvent(_) =>
      Failure(EventNotSupported(event))
  }

  /** A command fits in an event when its size fits the event's u16 fields */
  predicate Encodable(cmd: EditorCommand) {
    cmd.Resize? ==> cmd.size.width < 0x1_0000 && cmd.size.height < 0x1_0000
  }

  /** A canonical event producing `cmd`: Ctrl+Q, an unmodified arrow key, or a
      resize to the command's size */
  function Encode(cmd: EditorCommand): Event
    requires Encodable(cmd)
  {
    match cmd
    case Quit => Key(Char('q'), {Control})
    case Move(d) =>
      Key(match d
          case Up => KeyCode.Up
          case Left => KeyCode.Left
          case Right => KeyCode.Right
          case Down => KeyCode.Down, {})
    case Resize(size) => Event.Resize(size.width, size.height)
  }

  /** Every command is reachable: decoding its canonical event gives it back */
  lemma DecodeEncode(cmd: EditorCommand)
    requires Encodable(cmd)
    ensures TryFrom(Encode(cmd)) == Success(cmd)
  {
  }

  /** Arrow keys move whatever modifiers are held */
  lemma ArrowIgnoresModifiers(code: KeyCode, m1: set<Modifier>, m2: set<Modifier>)
    requires ArrowDirection(code).Some?
    ensures TryFrom(Key(code, m1)) == TryFrom(Key(code, m2))
  {
  }

  /** 'q' quits only with exactly CONTROL held; with any other modifier set it is rejected */
  lemma QuitNeedsExactlyControl(modifiers: set<Modifier>)
    requires modifiers != {Control}
    ensures TryFrom(Key(Char('q'), modifiers)).Failure?
  {
  }
}
