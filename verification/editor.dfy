/** The editor's event loop (editor.rs). The only state is the quit flag: it
    starts false, Ctrl+Q sets it, and nothing clears it. The loop reads one
    event at a time, updates the flag, refreshes the screen, and stops right
    after the first event that leaves the flag set. Input is given as the
    sequence of events the terminal will deliver; output is the trace of
    terminal actions. */
module Editors {
  import opened Usize
  import opened Bytes
  import opened Terminal
  import opened Events
  import Views
  import Commands
  import Wrappers

  datatype Editor = Editor(shouldQuit: bool)

  const GOODBYE: seq<byte> := Ascii("Goodbye.\r\n")

  /** `Editor::default` */
  function Default(): (ed: Editor)
    ensures !ed.shouldQuit
  {
    Editor(false)
  }

  /** `evaluate_events`: Ctrl+Q sets the quit flag; every other event,
      including other key events, leaves the editor as it was. */
  function EvaluateEvent(ed: Editor, event: Event): (next: Editor)
    ensures IsQuitEvent(event) ==> next.shouldQuit
    ensures !IsQuitEvent(event) ==> next == ed
    ensures ed.shouldQuit ==> next.shouldQuit
  {
    if event.Key? && IsQuitChord(event.code, event.modifiers) then
      Editor(shouldQuit := true)
    else
      ed
  }

  /** The loop's quit test and the command decoder agree on what quits */
  lemma QuitAgreesWithCommand(event: Event)
    ensures EvaluateEvent(Default(), event).shouldQuit <==>
            Commands.TryFrom(event) == Wrappers.Success(Commands.Quit)
  {
  }

  /** The editor after evaluating `events` in order */
  function EvaluateAll(ed: Editor, events: seq<Event>): Editor
    decreases |events|
  {
    if |events| == 0 then ed else EvaluateAll(EvaluateEvent(ed, events[0]), events[1..])
  }

  /** Over any run of events the flag ends set exactly when it started set or
      some event was Ctrl+Q: it never goes back to false. */
  lemma {:induction false} EvaluateAllQuits(ed: Editor, events: seq<Event>)
    ensures EvaluateAll(ed, events).shouldQuit <==>
            ed.shouldQuit || exists i :: 0 <= i < |events| && IsQuitEvent(events[i])
    decreases |events|
  {
    if |events| > 0 {
      EvaluateAllQuits(EvaluateEvent(ed, events[0]), events[1..]);
      if exists i :: 0 <= i < |events[1..]| && IsQuitEvent(events[1..][i]) {
        var i :| 0 <= i < |events[1..]| && IsQuitEvent(events[1..][i]);
        assert IsQuitEvent(events[i + 1]);
      }
      if exists i :: 0 <= i < |events| && IsQuitEvent(events[i]) {
        var i :| 0 <= i < |events| && IsQuitEvent(events[i]);
        if i > 0 {
          assert IsQuitEvent(events[1..][i - 1]);
        }
      }
    }
  }

  /** `refresh_screen`: once quitting, clear the screen and say goodbye;
      otherwise write nothing. */
  function RefreshScreen(ed: Editor): (trace: seq<Action>)
    ensures trace != [] <==> ed.shouldQuit
    ensures ed.shouldQuit ==> trace == [ClearAll, Print(GOODBYE)]
  {
    if ed.shouldQuit then [ClearAll, Print(GOODBYE)] else []
  }

  /** `draw_rows`: a tilde at column 0 of each row, then the caret goes home.
      Row `r` occupies positions 2r (caret move) and 2r+1 (tilde). */
  method DrawRows(rows: u16) returns (trace: seq<Action>)
    ensures |trace| == 2 * rows + 1
    ensures forall i :: 0 <= i < 2 * rows ==>
      trace[i] == if i % 2 == 0 then MoveTo(0, i / 2) else Print(Views.TILDE)
    ensures trace[2 * rows] == MoveTo(0, 0)
  {
    trace := [];
    var row: u16 := 0;
    while row < rows
      invariant row <= rows
      invariant |trace| == 2 * row
      invariant forall i :: 0 <= i < 2 * row ==>
        trace[i] == if i % 2 == 0 then MoveTo(0, i / 2) else Print(Views.TILDE)
    {
      trace := trace + [MoveTo(0, row), Print(Views.TILDE)];
      row := row + 1;
    }
    trace := trace + [MoveTo(0, 0)];
  }

  /** `repl`: processes events until the first one after which the editor is
      quitting, then stops without reading further. If the input runs out
      first, every event has been processed and the loop is still waiting.
      Only the final refresh writes anything: the goodbye, once. */
  method Repl(ed: Editor, events: seq<Event>)
    returns (stopped: bool, final: Editor, consumed: nat, trace: seq<Action>)
    ensures consumed <= |events|
    ensures final == EvaluateAll(ed, events[..consumed])
    ensures stopped <==>
      (|events| > 0 && ed.shouldQuit) || exists i :: 0 <= i < |events| && IsQuitEvent(events[i])
    ensures stopped ==> consumed > 0 && (ed.shouldQuit || IsQuitEvent(events[consumed - 1]))
    ensures forall i :: 0 <= i < consumed - 1 ==> !ed.shouldQuit && !IsQuitEvent(events[i])
    ensures !stopped ==> consumed == |events|
    ensures final.shouldQuit <==> stopped || ed.shouldQuit
    ensures trace == if stopped then [ClearAll, Print(GOODBYE)] else []
  {
    stopped := false;
    final := ed;
    consumed := 0;
    trace := [];
    while consumed < |events|
      invariant consumed <= |events|
      invariant final == EvaluateAll(ed, events[..consumed])
      invariant consumed > 0 ==> !final.shouldQuit
      invariant forall i :: 0 <= i < consumed ==> !ed.shouldQuit && !IsQuitEvent(events[i])
      invariant trace == []
    {
      var event := events[consumed];
      EvaluateAllSnoc(ed, events[..consumed], event);
      assert events[..consumed + 1] == events[..consumed] + [event];
      final := EvaluateEvent(final, event);
      consumed := consumed + 1;
      trace := trace + RefreshScreen(final);
      if final.shouldQuit {
        stopped := true;
        break;
      }
    }
    EvaluateAllQuits(ed, events[..consumed]);
  }

  lemma {:induction false} EvaluateAllSnoc(ed: Editor, events: seq<Event>, event: Event)
    ensures EvaluateAll(ed, events + [event]) == EvaluateEvent(EvaluateAll(ed, events), event)
    decreases |events|
  {
    if |events| > 0 {
      assert (events + [event])[1..] == events[1..] + [event];
      EvaluateAllSnoc(EvaluateEvent(ed, events[0]), events[1..], event);
    }
  }

  /** `Editor::run` on a terminal with `rows` rows: enter raw mode, clear the
      screen, draw the tilde column, run the loop, and leave raw mode once the
      loop returns. Without a Ctrl+Q the loop is still blocked on its next
      read, so the session never leaves raw mode. */
  method Run(rows: u16, events: seq<Event>) returns (trace: seq<Action>)
    ensures |trace| >= 2 * rows + 3
    ensures trace[..2] == [EnableRawMode, ClearAll]
    ensures forall i :: 0 <= i < 2 * rows ==>
      trace[2 + i] == if i % 2 == 0 then MoveTo(0, i / 2) else Print(Views.TILDE)
    ensures trace[2 * rows + 2] == MoveTo(0, 0)
    ensures trace[2 * rows + 3..] ==
      if exists i :: 0 <= i < |events| && IsQuitEvent(events[i])
      then [ClearAll, Print(GOODBYE), DisableRawMode]
      else []
    ensures Print(GOODBYE) in trace <==> exists i :: 0 <= i < |events| && IsQuitEvent(events[i])
    ensures DisableRawMode in trace <==> exists i :: 0 <= i < |events| && IsQuitEvent(events[i])
  {
    var drawn := DrawRows(rows);
    var stopped, _, _, said := Repl(Default(), events);
    assert Print(GOODBYE) !in drawn by {
      assert |GOODBYE| != |Views.TILDE|;
    }
    // `terminate` runs only after `repl` has returned
    trace := [EnableRawMode, ClearAll] + drawn + said + (if stopped then [DisableRawMode] else []);
  }
}
