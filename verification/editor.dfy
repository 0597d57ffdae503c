/** The editing state of the main loop, a buffer of lines and a 1-based
    cursor, and the step it takes for each event, as the loop's branches
    compute it. */
module Editor {
  import opened Basics
  import opened Input
  import opened Lines

  /** The buffer and the cursor `(row, col)`, both counted from 1 as in the
      source's `cursorRow` and `cursorCol`. */
  datatype State = State(text: seq<Line>, row: int, col: int)

  /** What every reachable state satisfies: the buffer is never empty and
      the cursor never goes above row 1 or left of column 1.  Nothing keeps
      the cursor inside the buffer. */
  predicate WellFormed(s: State) {
    |s.text| >= 1 && s.row >= 1 && s.col >= 1
  }

  /** The cursor row names a line of the buffer. */
  predicate RowInRange(s: State) {
    1 <= s.row <= |s.text|
  }

  /** The cursor denotes an insertion point of the buffer: a line, and a
      column from 1 up to one past the line's end. */
  predicate Valid(s: State) {
    WellFormed(s) && RowInRange(s) && s.col <= |s.text[s.row - 1]| + 1
  }

  /** The line under the cursor. */
  function CurrentLine(s: State): Line
    requires RowInRange(s)
  {
    s.text[s.row - 1]
  }

  /** A step either yields the next state or reads a line the buffer does
      not have, which is undefined behaviour in the source. */
  datatype Outcome = Next(state: State) | RowOutOfRange(row: int)

  /** The state the editor starts in: one line, and the cursor just past
      its end. */
  function Initial(): (s: State)
    ensures Valid(s)
    ensures |s.text| == 1 && |s.text[0]| == 13 && s.row == 1 && s.col == 14
    ensures s.col == |CurrentLine(s)| + 1
    ensures s.text[0] == Ascii("Hello, Bento!")
  {
    var text := [Ascii("Hello, Bento!")];
    State(text, 1, |text[0]| + 1)
  }

  /** Applies one event to the state, branch for branch as the main loop does.
      The events that read the cursor's line fail when the row is outside the
      buffer, and only they; the rest keep the state well formed, never drop
      a line, and an arrow never touches the buffer. */
  function Step(s: State, e: Event): (o: Outcome)
    requires WellFormed(s)
    ensures o.Next? ==> WellFormed(o.state)
    ensures o.Next? ==> |s.text| <= |o.state.text| <= |s.text| + 1
    ensures o.Next? && e.IsArrow() ==> o.state.text == s.text
    ensures o.RowOutOfRange? <==>
      !RowInRange(s) && (e.Char? || e.Enter? || e.Right? || (e.Left? && s.col == 1 && s.row - 1 > |s.text|))
  {
    match e
    case Up =>
      Next(s.(row := Max(1, s.row - 1)))
    case Down =>
      Next(s.(row := s.row + 1))
    case Right =>
      if !RowInRange(s) then RowOutOfRange(s.row)
      else if s.col == |CurrentLine(s)| + 1 then
        if s.row < |s.text| then Next(s.(row := s.row + 1, col := 1)) else Next(s)
      else Next(s.(col := s.col + 1))
    case Left =>
      if s.col == 1 then
        if s.row != 1 then
          if s.row - 1 > |s.text| then RowOutOfRange(s.row - 1)
          else Next(State(s.text, s.row - 1, |s.text[s.row - 2]| + 1))
        else Next(s)
      else Next(s.(col := s.col - 1))
    case Enter =>
      if !RowInRange(s) then RowOutOfRange(s.row)
      else if s.col == |CurrentLine(s)| + 1 then
        Next(State(s.text[..s.row] + [[]] + s.text[s.row..], s.row + 1, 1))
      else
        var (before, after) := SplitAt(CurrentLine(s), s.col);
        Next(State(s.text[..s.row - 1] + [before, after] + s.text[s.row..], s.row + 1, 1))
    case Char(c) =>
      if !RowInRange(s) then RowOutOfRange(s.row)
      else Next(State(s.text[s.row - 1 := InsertAt(CurrentLine(s), s.col, c)], s.row, s.col + 1))
  }

  /** From a valid state every event other than Up and Down succeeds and
      leaves the cursor at an insertion point of the new buffer. */
  lemma StepKeepsValid(s: State, e: Event)
    requires Valid(s)
    requires !e.Up? && !e.Down?
    ensures Step(s, e).Next? && Valid(Step(s, e).state)
  {
    if e.Enter? && s.col != |CurrentLine(s)| + 1 {
      var (before, after) := SplitAt(CurrentLine(s), s.col);
      var text := s.text[..s.row - 1] + [before, after] + s.text[s.row..];
      assert text[s.row] == after;
    } else if e.Enter? {
      assert (s.text[..s.row] + [[]] + s.text[s.row..])[s.row] == [];
    }
  }

  /** Typing `c` with the cursor inside the line or just past its end puts
      `c` at the cursor and moves the cursor one column right; the row, the
      line count and every other line stay as they were. */
  lemma InsertChar(s: State, c: byte)
    requires WellFormed(s) && RowInRange(s)
    requires s.col <= |CurrentLine(s)| + 1
    ensures Step(s, Char(c)).Next?
    ensures var t := Step(s, Char(c)).state;
      && t.text[s.row - 1] == CurrentLine(s)[..s.col - 1] + [c] + CurrentLine(s)[s.col - 1..]
      && t.row == s.row && t.col == s.col + 1
      && |t.text| == |s.text|
      && forall i :: 0 <= i < |s.text| && i != s.row - 1 ==> t.text[i] == s.text[i]
  {
    var line := CurrentLine(s);
    if s.col == |line| + 1 {
      assert line[s.col - 1..] == [];
      assert line[..s.col - 1] == line;
    }
  }

  /** Typing with the cursor past the end of its line (possible after Up)
      appends `c` to the line and still moves the column one right. */
  lemma InsertPastEnd(s: State, c: byte)
    requires WellFormed(s) && RowInRange(s)
    requires s.col > |CurrentLine(s)|
    ensures Step(s, Char(c)).Next?
    ensures var t := Step(s, Char(c)).state;
      t.text == s.text[s.row - 1 := CurrentLine(s) + [c]] && t.row == s.row && t.col == s.col + 1
  {
  }

  /** Enter at the end of a line opens an empty line right after it, moves
      the cursor to the start of that line and keeps every existing line. */
  lemma EnterAtEnd(s: State)
    requires WellFormed(s) && RowInRange(s)
    requires s.col == |CurrentLine(s)| + 1
    ensures Step(s, Enter).Next?
    ensures var t := Step(s, Enter).state;
      && |t.text| == |s.text| + 1
      && t.text[..s.row] == s.text[..s.row]
      && t.text[s.row] == []
      && t.text[s.row + 1..] == s.text[s.row..]
      && t.row == s.row + 1 && t.col == 1
  {
    var t := Step(s, Enter).state;
    assert t.text == s.text[..s.row] + [[]] + s.text[s.row..];
    assert t.text[s.row + 1..] == s.text[s.row..];
  }

  /** Enter inside a line cuts it at the cursor: the line keeps the part
      before the cursor, a new line after it holds the rest, the two parts
      make the old line again, and the cursor goes to the new line's start. */
  lemma EnterMidLine(s: State)
    requires WellFormed(s) && RowInRange(s)
    requires s.col <= |CurrentLine(s)|
    ensures Step(s, Enter).Next?
    ensures var t := Step(s, Enter).state;
      && |t.text| == |s.text| + 1
      && t.text[s.row - 1] == CurrentLine(s)[..s.col - 1]
      && t.text[s.row] == CurrentLine(s)[s.col - 1..]
      && t.text[s.row - 1] + t.text[s.row] == CurrentLine(s)
      && t.text[..s.row - 1] == s.text[..s.row - 1]
      && t.text[s.row + 1..] == s.text[s.row..]
      && t.row == s.row + 1 && t.col == 1
  {
    var t := Step(s, Enter).state;
    var (before, after) := SplitAt(CurrentLine(s), s.col);
    assert t.text == s.text[..s.row - 1] + [before, after] + s.text[s.row..];
    assert t.text[s.row + 1..] == s.text[s.row..];
  }

  /** Both Enter branches are one split at the cursor: the end-of-line branch
      is the split whose second part is empty, and a column past the end
      (possible after Up) splits off nothing either. */
  lemma EnterSplits(s: State)
    requires WellFormed(s) && RowInRange(s)
    ensures Step(s, Enter).Next?
    ensures var t := Step(s, Enter).state;
      var k := Index(CurrentLine(s), s.col);
      t == State(s.text[..s.row - 1] + [CurrentLine(s)[..k], CurrentLine(s)[k..]] + s.text[s.row..], s.row + 1, 1)
  {
    var line := CurrentLine(s);
    if s.col == |line| + 1 {
      assert line[..|line|] == line && line[|line|..] == [];
      assert s.text[..s.row] == s.text[..s.row - 1] + [line];
    }
  }

  /** Right moves one column on within a line, wraps from a line's end to
      the start of the next line, and stays put at the end of the last line. */
  lemma RightArrow(s: State)
    requires WellFormed(s) && RowInRange(s)
    ensures Step(s, Right).Next?
    ensures var t := Step(s, Right).state;
      && (s.col == |CurrentLine(s)| + 1 && s.row == |s.text| ==> t == s)
      && (s.col == |CurrentLine(s)| + 1 && s.row < |s.text| ==> t == s.(row := s.row + 1, col := 1))
      && (s.col != |CurrentLine(s)| + 1 ==> t == s.(col := s.col + 1))
  {
  }

  /** Left stays put at the first column of the first line, wraps from a
      line's first column to just past the end of the line above, and
      otherwise moves one column back.  This holds also one row below the
      buffer (after Down) and with the column past the line's end (after Up). */
  lemma LeftArrow(s: State)
    requires WellFormed(s) && s.row <= |s.text| + 1
    ensures Step(s, Left).Next?
    ensures var t := Step(s, Left).state;
      && (s.row == 1 && s.col == 1 ==> t == s)
      && (s.row > 1 && s.col == 1 ==> t == s.(row := s.row - 1, col := |s.text[s.row - 2]| + 1))
      && (s.col > 1 ==> t == s.(col := s.col - 1))
  {
  }

  /** Up moves one row toward the top, never above row 1, and Down one row
      toward the bottom with no limit; neither touches the column. */
  lemma UpDown(s: State)
    requires WellFormed(s)
    ensures Step(s, Up) == Next(s.(row := if s.row > 1 then s.row - 1 else 1))
    ensures Step(s, Down) == Next(s.(row := s.row + 1))
  {
  }

  /** Down from the last line takes the cursor out of the buffer. */
  lemma DownLeavesBuffer(s: State)
    requires Valid(s) && s.row == |s.text|
    ensures !RowInRange(Step(s, Down).state)
    ensures Step(Step(s, Down).state, Enter).RowOutOfRange?
  {
  }

  /** Up onto a shorter line keeps a column that lies past that line's end. */
  lemma UpKeepsColumn(s: State)
    requires Valid(s) && s.row > 1 && s.col > |s.text[s.row - 2]| + 1
    ensures !Valid(Step(s, Up).state)
  {
  }

  /** Where the cursor lies in the bytes of the buffer, counted from 0. */
  function Offset(s: State): (k: nat)
    requires Valid(s)
    ensures k < |Flat(s.text)|
  {
    FlatAround(s.text, s.row - 1);
    |Flat(s.text[..s.row - 1])| + s.col - 1
  }

  /** On one buffer a position in its bytes tells the cursor: two valid
      cursors at the same offset are the same cursor. */
  lemma OffsetDeterminesCursor(s: State, t: State)
    requires Valid(s) && Valid(t) && s.text == t.text
    requires Offset(s) == Offset(t)
    ensures s == t
  {
    if s.row < t.row {
      RowBefore(s, t);
    } else if t.row < s.row {
      RowBefore(t, s);
    }
  }

  lemma RowBefore(s: State, t: State)
    requires Valid(s) && Valid(t) && s.text == t.text && s.row < t.row
    ensures Offset(s) < Offset(t)
  {
    FlatPrefixStep(s.text, s.row - 1);
    FlatPrefixGrows(s.text, s.row, t.row - 1);
  }

  /** Enter and every literal character put the bytes they were typed as
      into the buffer's bytes at the cursor, and move the cursor past them:
      the buffer behaves as one text with line feeds between lines. */
  lemma TypingInsertsAtCursor(s: State, e: Event)
    requires Valid(s)
    requires Decodable(e) && (e.Char? || e.Enter?)
    ensures Step(s, e).Next? && Valid(Step(s, e).state)
    ensures var t := Step(s, e).state;
      && Flat(t.text) == Flat(s.text)[..Offset(s)] + Encode(e) + Flat(s.text)[Offset(s)..]
      && Offset(t) == Offset(s) + 1
  {
    if e.Enter? {
      EnterInsertsAtCursor(s);
    } else {
      CharInsertsAtCursor(s, e.c);
    }
  }

  lemma EnterInsertsAtCursor(s: State)
    requires Valid(s)
    ensures Step(s, Enter).Next? && Valid(Step(s, Enter).state)
    ensures var t := Step(s, Enter).state;
      && Flat(t.text) == Flat(s.text)[..Offset(s)] + [LF] + Flat(s.text)[Offset(s)..]
      && Offset(t) == Offset(s) + 1
  {
    StepKeepsValid(s, Enter);
    var t := Step(s, Enter).state;
    var r := s.row - 1;
    var line := CurrentLine(s);
    var pre, post := s.text[..r], s.text[r + 1..];
    var k := s.col - 1;
    FlatAround(s.text, r);
    EnterSplits(s);
    assert t.text == pre + [line[..k], line[k..]] + post;
    assert t.text[..t.row - 1] == pre + [line[..k]];
    FlatSplitLine(pre, line, k, post);
  }

  lemma CharInsertsAtCursor(s: State, c: byte)
    requires Valid(s)
    ensures Step(s, Char(c)).Next? && Valid(Step(s, Char(c)).state)
    ensures var t := Step(s, Char(c)).state;
      && Flat(t.text) == Flat(s.text)[..Offset(s)] + [c] + Flat(s.text)[Offset(s)..]
      && Offset(t) == Offset(s) + 1
  {
    StepKeepsValid(s, Char(c));
    var r := s.row - 1;
    var line := CurrentLine(s);
    var k := s.col - 1;
    var nl := line[..k] + [c] + line[k..];
    assert InsertAt(line, s.col, c) == nl;
    FlatAround(s.text, r);
    UpdateParts(s.text, r, nl);
    FlatInsertByte(s.text[..r], line, k, c, s.text[r + 1..]);
  }

  /** Splitting line `line` at index `k` puts a line feed into the buffer's
      bytes at that point. */
  lemma FlatSplitLine(pre: seq<Line>, line: Line, k: nat, post: seq<Line>)
    requires k <= |line|
    ensures var bytes := Flat(pre) + line + [LF] + Flat(post);
      && Flat(pre + [line[..k], line[k..]] + post) == bytes[..|Flat(pre)| + k] + [LF] + bytes[|Flat(pre)| + k..]
      && |Flat(pre + [line[..k]])| == |Flat(pre)| + k + 1
  {
    var a, b := line[..k], line[k..];
    assert pre + [a, b] + post == pre + ([a] + ([b] + post));
    FlatAppend(pre, [a] + ([b] + post));
    FlatSingle(a, [b] + post);
    FlatSingle(b, post);
    FlatAppend(pre, [a]);
    FlatSingle(a, []);
    assert [a] + [] == [a];
    var bytes := Flat(pre) + line + [LF] + Flat(post);
    assert bytes[..|Flat(pre)| + k] == Flat(pre) + a;
    assert bytes[|Flat(pre)| + k..] == b + [LF] + Flat(post);
  }

  /** Inserting byte `c` at index `k` of line `line` inserts it at the same
      point of the buffer's bytes. */
  lemma FlatInsertByte(pre: seq<Line>, line: Line, k: nat, c: byte, post: seq<Line>)
    requires k <= |line|
    ensures var bytes := Flat(pre) + line + [LF] + Flat(post);
      Flat(pre + [line[..k] + [c] + line[k..]] + post) == bytes[..|Flat(pre)| + k] + [c] + bytes[|Flat(pre)| + k..]
  {
    var nl := line[..k] + [c] + line[k..];
    assert pre + [nl] + post == pre + ([nl] + post);
    FlatAppend(pre, [nl] + post);
    FlatSingle(nl, post);
    var bytes := Flat(pre) + line + [LF] + Flat(post);
    assert bytes[..|Flat(pre)| + k] == Flat(pre) + line[..k];
    assert bytes[|Flat(pre)| + k..] == line[k..] + [LF] + Flat(post);
  }

  /** Right moves the cursor one byte forward in the buffer's bytes, and
      does nothing when the cursor is at the last line's end. */
  lemma RightMovesForward(s: State)
    requires Valid(s)
    ensures Step(s, Right).Next? && Valid(Step(s, Right).state)
    ensures Offset(s) + 1 < |Flat(s.text)| ==> Offset(Step(s, Right).state) == Offset(s) + 1
    ensures Offset(s) + 1 == |Flat(s.text)| ==> Step(s, Right).state == s
  {
    StepKeepsValid(s, Right);
    var t := Step(s, Right).state;
    FlatAround(s.text, s.row - 1);
    var post := s.text[s.row..];
    if s.col == |CurrentLine(s)| + 1 && s.row < |s.text| {
      FlatPrefixStep(s.text, s.row - 1);
      assert |Flat(post)| >= 1;
    } else if s.col == |CurrentLine(s)| + 1 {
      assert post == [];
    }
  }

  /** Left moves the cursor one byte back in the buffer's bytes, and does
      nothing at the start of the buffer. */
  lemma LeftMovesBack(s: State)
    requires Valid(s)
    ensures Step(s, Left).Next? && Valid(Step(s, Left).state)
    ensures Offset(s) > 0 ==> Offset(Step(s, Left).state) == Offset(s) - 1
    ensures Offset(s) == 0 ==> Step(s, Left).state == s
  {
    StepKeepsValid(s, Left);
    if s.col == 1 && s.row > 1 {
      FlatPrefixStep(s.text, s.row - 2);
    } else if s.col == 1 {
      assert s.text[..0] == [];
    }
    if s.row > 1 {
      FlatPrefixGrows(s.text, 0, s.row - 1);
    }
  }
}
