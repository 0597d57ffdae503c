# Bento editing core, in Dafny

Bento is a small terminal text editor. Its whole behaviour lives in the main
loop of `main.cpp`. Each turn reads one byte from the terminal in raw mode.
The byte is decoded into one event: a literal character, Enter, or an arrow
key sent as `ESC [ A/B/C/D`. The event is then applied to a buffer of lines
and a 1-based cursor `(row, col)`, and the screen is repainted.

This project models that loop with the terminal I/O stripped away:

- `basics.dfy` (`Basics`): bytes, lines and the key codes the loop compares against.
- `input.dfy` (`Input`): the decoder. `Decode` handles one byte plus the
  follow-up bytes read after an escape. `DecodeNext` and `DecodeAll` run it
  over a byte stream. `Encode` is its partner: the bytes a terminal sends for
  each event.
- `lines.dfy` (`Lines`): character insertion and line splitting on a single
  line. `SplitLoop` is the split loop of the Enter handler, written as a
  loop. `Flat` gives the bytes a buffer stands for: each line followed by a
  line feed, as the repaint loop writes them.
- `editor.dfy` (`Editor`): the start state and `Step`, with the same branches
  as the loop, plus per-event lemmas.
  - Reading `text[cursorRow-1]` with a row outside the buffer is undefined
    behaviour in C++. `Step` returns it as the outcome `RowOutOfRange`, so no
    precondition hides it.
  - Under the `Flat` view the buffer acts as one text. Enter and a character
    insert the byte they were typed as at the cursor. Left and Right move the
    cursor one byte back or forward.
- `clamped.dfy` (`Clamped`): the step with Up and Down kept inside the buffer
  (see Findings).
- `session.dfy` (`Session`): the loop over a whole byte stream, and counting
  laws over a session.

The model follows the code. A conventional editor, and the buffer-and-cursor invariant stated below, would differ in these points:

- The code starts with one line `Hello, Bento!` and the cursor at (1, 14),
  not with an empty line at (1, 1).
- Down does not bound the row; Up stops at row 1; neither clamps the column.
- Enter puts no indentation on the new line.
- Backspace (127, 8) and Tab (9) are ordinary characters that get inserted.

Two invariants are kept apart:

- `WellFormed`: the buffer is non-empty and row and column are at least 1.
  Every reachable state satisfies it, and `Step` preserves it.
- `Valid`: the cursor is an insertion point of the buffer. Every event except
  Up and Down preserves it.

## Model

| member | source | states |
|---|---|---|
| `Input.Decode` | main.cpp:60-112 | an escape byte followed by `[` and `A`..`D` gives the matching arrow, LF gives Enter, any other byte gives that character; the event returned is exactly the one whose encoding equals the bytes consumed, and no event comes back exactly when those bytes encode no event |
| `Input.UnknownEscape` | main.cpp:62-89 | an escape whose follow-up bytes are not `[` plus an arrow letter, or whose follow-up reads came up short, encodes no event, so it is dropped |
| `Input.LiteralBytes` | main.cpp:112-114 | every byte other than ESC and LF is a literal character, Backspace (127, 8) and Tab (9) included |
| `Input.DecodeNext` | main.cpp:54-62 | one turn of the loop uses one byte, or after an escape three bytes (fewer when the input runs out); an event it yields is encoded by exactly the bytes it used, and it yields nothing only for an escape |
| `Input.DecodeNextEncode` | main.cpp:60-90 | decoding an event's own bytes gives back that event and uses exactly those bytes, whatever follows |
| `Input.DecodeAll` | main.cpp:53-62 | the events decoded from a stream are all events the decoder can produce, and there are no more of them than bytes |
| `Input.DecodeAllEncodeAll` | main.cpp:53-112 | decoding the bytes of any series of keys gives back that series (round trip) |
| `Lines.InsertAt` | main.cpp:113-120 | inserting a character makes the line one longer, puts the character at the cursor's index (the end when the column is past the end), and taking it out again restores the line |
| `Lines.SplitAt` | main.cpp:97-106 | the two parts of a split concatenate to the line, and the first is as long as the cursor's index |
| `Lines.SplitLoop` | main.cpp:97-106 | the character-by-character loop computes a split whose parts concatenate to the line, with the first as long as the cursor's index |
| `Editor.Initial` | main.cpp:37-43 | the start state is one line `Hello, Bento!` with the cursor at row 1, column 14, just past the end, which is a valid cursor |
| `Editor.Step` | main.cpp:63-123 | a step keeps the buffer non-empty and the cursor at row and column 1 or more; it never removes a line and adds at most one; arrows leave the buffer unchanged; it fails exactly for a character, Enter or Right with the row outside the buffer, or Left at column 1 with the line above missing |
| `Editor.StepKeepsValid` | main.cpp:63-123 | from a valid cursor every event other than Up and Down succeeds and leaves a valid cursor |
| `Editor.InsertChar` | main.cpp:112-123 | with the column at most one past the line's end, a character goes between the part before the cursor and the rest, the column grows by one, and the row, the line count and every other line are unchanged |
| `Editor.InsertPastEnd` | main.cpp:116-122 | with the column past the end of the line, the character is appended and the column still grows by one |
| `Editor.EnterAtEnd` | main.cpp:91-95 | Enter at the end of a line inserts an empty line right after it, moves the cursor to (row+1, 1) and keeps all existing lines |
| `Editor.EnterMidLine` | main.cpp:96-111 | Enter inside a line leaves the prefix before the cursor on the line and puts the suffix on a new next line; prefix plus suffix is the old line, the line count grows by one, the other lines keep their places, and the cursor goes to (row+1, 1) |
| `Editor.EnterSplits` | main.cpp:90-111 | both Enter branches are one split at the cursor's index: the end-of-line branch is the split with an empty suffix |
| `Editor.RightArrow` | main.cpp:69-77 | Right is a no-op at the end of the last line, wraps to (row+1, 1) at the end of any other line, and otherwise moves one column right |
| `Editor.LeftArrow` | main.cpp:78-86 | Left is a no-op at (1, 1), wraps to just past the end of the line above at column 1, and otherwise moves one column left; this holds for any row up to one below the buffer and any column, so it covers the states Down and Up can leave |
| `Editor.UpDown` | main.cpp:64-68 | Up sets the row to the larger of 1 and row-1, Down adds one to the row, and neither changes the column or the buffer |
| `Editor.DownLeavesBuffer` | main.cpp:66-68 | Down on the last line takes the row out of the buffer, and a following Enter then reads a missing line |
| `Editor.UpKeepsColumn` | main.cpp:64-65 | Up onto a line shorter than the column leaves the cursor past that line's end, so the cursor is no longer valid |
| `Editor.OffsetDeterminesCursor` | main.cpp:126-129 | on one buffer, two valid cursors at the same byte position are the same cursor |
| `Editor.TypingInsertsAtCursor` | main.cpp:90-123 | Enter and a character insert the bytes they were typed as (LF, or the character) into the buffer's bytes at the cursor, and move the cursor one byte forward |
| `Editor.RightMovesForward` | main.cpp:69-77 | Right moves the cursor one byte forward in the buffer's bytes, line ends included, and does nothing at the end of the buffer |
| `Editor.LeftMovesBack` | main.cpp:78-86 | Left moves the cursor one byte back in the buffer's bytes, line starts included, and does nothing at the start |
| `Clamped.MoveToRow` | main.cpp:64-68 | the corrected vertical move lands on the requested row, keeps the column when that line is long enough and otherwise moves it back to the line's end |
| `Clamped.Step` | main.cpp:63-123 | the corrected step keeps every valid state valid for every event, equals the step as written for everything but Up and Down, and for those stops the row at the first and last line and pulls the column back to the end of a shorter destination line |
| `Clamped.AgreesWhenValid` | main.cpp:63-123 | the corrected step and the step as written agree exactly when the latter keeps the cursor valid |
| `Session.Steps` | main.cpp:53-123 | applying a series of events keeps the state well formed and never shrinks the line count |
| `Session.Run` | main.cpp:53-131 | the loop over a byte stream keeps the state well formed and never shrinks the line count |
| `Session.RunIsStepsOfDecoded` | main.cpp:53-123 | running the loop over bytes is applying, in order, the events they decode to |
| `Session.RunEncoded` | main.cpp:53-123 | typing the keys of a series of events acts as applying those events |
| `Session.UnknownEscapeIgnored` | main.cpp:60-89 | an escape followed by two bytes that are not `[` plus an arrow letter leaves buffer and cursor unchanged |
| `Session.StepCounts` | main.cpp:90-123 | one event adds a line exactly when it is Enter, and one byte to the buffer's bytes exactly when it is not an arrow |
| `Session.StepsCounts` | main.cpp:53-123 | over a session the line count grows by the number of Enters, and the buffer's bytes by the number of typed keys |
| `Session.ClampedSteps` | main.cpp:53-123 | applying events with the corrected step keeps a valid state valid and never shrinks the line count |
| `Session.RunClamped` | main.cpp:53-131 | the loop with the corrected step keeps a valid state valid over any byte stream |
| `Session.RunClampedIsStepsOfDecoded` | main.cpp:53-123 | the corrected loop over bytes applies, in order, the events they decode to |
| `Session.RunClampedEncoded` | main.cpp:53-123 | the corrected loop over the keys of a series of events acts as applying those events |
| `Session.HorizontalSessionsAgree` | main.cpp:69-123 | from a valid state, a session with no Up or Down never faults, and gives the same result as the corrected loop |
| `Session.DownThenTypeFaults` | main.cpp:66-68 | from the start state, the bytes `ESC [ B x` make the loop read line 2 of a one-line buffer, while the corrected loop appends `x` |
| `Session.UpKeepsColumnFromStart` | main.cpp:64-65 | from the start state, Enter, Up, Enter, Down, Left, Up leave the cursor at column 14 of an empty line; the corrected loop puts it at column 1 |

## Left out

- Raw-mode terminal control (main.cpp:9-33): `tcgetattr`/`tcsetattr`, `perror` and `exit` are operating-system plumbing with no editing logic.
- Screen output (main.cpp:45-51, 125-130): the clear-screen and cursor-position escape codes are not modelled. `Lines.Flat` models only the line bytes the repaint loop writes.
- A failing main read (main.cpp:55-58) ends the loop. The model takes the bytes already read, and the session ends when they run out.
- A main read that returns 0 at end of file is not checked by the source. It leaves `input` uninitialised, which is undefined behaviour and has no model.
- A follow-up read that fails in the middle of an otherwise open input is modelled as the end of the input. `Decode` itself accepts any shorter set of follow-up bytes.
- Editor.UpDown: `cursorRow` and `cursorCol` are 32-bit `int`s, and both can grow without bound: the row by repeated Down, and the column by repeated Right once Up has left it past the line's end (Right then never meets `size()+1`). Their overflow after 2^31 presses is undefined behaviour and is not modelled; rows and columns are unbounded integers.
- Auto-indent, bracket pairing, Backspace and Tab handling, substring search, the prefix index, keyword highlighting, autocomplete and saving are not in main.cpp, so they are not modelled.

## Findings

| source | as written | input that shows it | evidently intended | confidence | as-written member | corrected member |
|---|---|---|---|---|---|---|
| main.cpp:66-68 | Down adds one to the row with no upper bound | from the start state, bytes `ESC [ B` then any character: the insert indexes `text[1]` of a one-line buffer | Down stops at the last line | high, not executed | `Session.DownThenTypeFaults` | `Clamped.Step` |
| main.cpp:64-65 | Up keeps the column even when the line above is shorter | from the start state, Enter, Up, Enter, Down, Left, Up: the cursor ends at column 14 of an empty line | the column is pulled back to the end of the destination line | medium, not executed | `Session.UpKeepsColumnFromStart` | `Clamped.Step` |
