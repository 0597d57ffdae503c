/** The editing step with Up and Down kept inside the buffer: the row stops
    at the first and last line, and the column is pulled back to the end of
    the line the cursor lands on.  Every other event is the step of
    `Editor`. */
module Clamped {
  import opened Basics
  import opened Input
  import Editor

  type State = Editor.State

  /** Puts the cursor on row `r`, keeping its column when that line is long
      enough and moving it to the line's end otherwise. */
  function MoveToRow(s: State, r: int): (t: State)
    requires Editor.Valid(s) && 1 <= r <= |s.text|
    ensures Editor.Valid(t) && t.text == s.text && t.row == r
    ensures t.col <= s.col
    ensures t.col == s.col <==> s.col <= |s.text[r - 1]| + 1
    ensures s.col > |s.text[r - 1]| + 1 ==> t.col == |s.text[r - 1]| + 1
  {
    Editor.State(s.text, r, Min(s.col, |s.text[r - 1]| + 1))
  }

  /** One step of the editor with vertical moves clamped.  It keeps every
      valid state valid, whatever the event. */
  function Step(s: State, e: Event): (t: State)
    requires Editor.Valid(s)
    ensures Editor.Valid(t)
    ensures !e.Up? && !e.Down? ==> Editor.Step(s, e) == Editor.Next(t)
    ensures e.Up? || e.Down? ==> t.text == s.text
    ensures e.Up? ==> t.row == Max(1, s.row - 1)
    ensures e.Down? ==> t.row == Min(|s.text|, s.row + 1)
    ensures e.Up? || e.Down? ==> t.col == Min(s.col, |s.text[t.row - 1]| + 1)
  {
    match e
    case Up => MoveToRow(s, Max(1, s.row - 1))
    case Down => MoveToRow(s, Min(|s.text|, s.row + 1))
    case _ =>
      Editor.StepKeepsValid(s, e);
      Editor.Step(s, e).state
  }

  /** The clamped step differs from the step as written exactly where the
      latter leaves the cursor outside the buffer. */
  lemma AgreesWhenValid(s: State, e: Event)
    requires Editor.Valid(s)
    ensures Editor.Step(s, e).Next?
    ensures Editor.Valid(Editor.Step(s, e).state) <==> Step(s, e) == Editor.Step(s, e).state
  {
    if !e.Up? && !e.Down? {
      Editor.StepKeepsValid(s, e);
    }
  }
}
