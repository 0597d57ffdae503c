/** The main loop: bytes from the terminal, decoded and applied one event
    at a time until the input ends. */
module Session {
  import opened Basics
  import opened Input
  import opened Lines
  import opened Editor
  import Clamped

  /** Applies events in order, stopping at the first one that reads a line
      outside the buffer.  No event removes a line. */
  function Steps(s: State, es: seq<Event>): (o: Outcome)
    requires WellFormed(s)
    ensures o.Next? ==> WellFormed(o.state) && |o.state.text| >= |s.text|
    decreases |es|
  {
    if |es| == 0 then Next(s)
    else
      match Step(s, es[0])
      case RowOutOfRange(r) => RowOutOfRange(r)
      case Next(t) => Steps(t, es[1..])
  }

  /** The main loop over the bytes the terminal delivers: each turn reads one
      byte, and after ESC two more; an escape that is not an arrow is
      dropped, and the session ends when the input does. */
  function Run(s: State, input: seq<byte>): (o: Outcome)
    requires WellFormed(s)
    ensures o.Next? ==> WellFormed(o.state) && |o.state.text| >= |s.text|
    decreases |input|
  {
    if |input| == 0 then Next(s)
    else
      var (e, n) := DecodeNext(input);
      if e.None? then Run(s, input[n..])
      else
        match Step(s, e.value)
        case RowOutOfRange(r) => RowOutOfRange(r)
        case Next(t) => Run(t, input[n..])
  }

  /** Running the loop over bytes is applying the events they decode to. */
  lemma {:induction false} RunIsStepsOfDecoded(s: State, input: seq<byte>)
    requires WellFormed(s)
    ensures Run(s, input) == Steps(s, DecodeAll(input))
    decreases |input|
  {
    if |input| > 0 {
      var (e, n) := DecodeNext(input);
      var rest := DecodeAll(input[n..]);
      RunIsStepsOfDecoded(s, input[n..]);
      if e.Some? {
        assert DecodeAll(input) == [e.value] + rest;
        assert ([e.value] + rest)[1..] == rest;
        match Step(s, e.value)
        case RowOutOfRange(r) =>
        case Next(t) => RunIsStepsOfDecoded(t, input[n..]);
      } else {
        assert DecodeAll(input) == rest;
      }
    }
  }

  /** Typing a series of keys acts as applying their events in order. */
  lemma RunEncoded(s: State, es: seq<Event>)
    requires WellFormed(s) && AllDecodable(es)
    ensures Run(s, EncodeAll(es)) == Steps(s, es)
  {
    RunIsStepsOfDecoded(s, EncodeAll(es));
    DecodeAllEncodeAll(es);
  }

  /** An escape whose next two bytes are not `[` and an arrow letter changes
      nothing: the loop goes on with the bytes after it. */
  lemma UnknownEscapeIgnored(s: State, x: byte, y: byte, rest: seq<byte>)
    requires WellFormed(s)
    requires !(x == CSI && KEY_UP <= y <= KEY_LEFT)
    ensures Run(s, [ESC, x, y] + rest) == Run(s, rest)
  {
    var input := [ESC, x, y] + rest;
    assert input[1..3] == [x, y];
    assert input[3..] == rest;
  }

  /** How many events in a series are Enter. */
  function Breaks(es: seq<Event>): (n: nat)
    ensures n <= |es|
  {
    if |es| == 0 then 0 else (if es[0].Enter? then 1 else 0) + Breaks(es[1..])
  }

  /** How many events in a series type a byte, Enter or a character. */
  function Typed(es: seq<Event>): (n: nat)
    ensures Breaks(es) <= n <= |es|
  {
    if |es| == 0 then 0 else (if es[0].IsArrow() then 0 else 1) + Typed(es[1..])
  }

  /** One event adds a line exactly when it is Enter, and a byte to the
      buffer's bytes exactly when it is not an arrow. */
  lemma StepCounts(s: State, e: Event)
    requires WellFormed(s) && Step(s, e).Next?
    ensures |Step(s, e).state.text| == |s.text| + (if e.Enter? then 1 else 0)
    ensures |Flat(Step(s, e).state.text)| == |Flat(s.text)| + (if e.IsArrow() then 0 else 1)
  {
    var t := Step(s, e).state;
    if e.Enter? {
      EnterSplits(s);
      var r := s.row - 1;
      var line := CurrentLine(s);
      var k := Index(line, s.col);
      FlatAround(s.text, r);
      assert s.text[..r] + [line] + s.text[r + 1..] == s.text;
      FlatSplitLine(s.text[..r], line, k, s.text[r + 1..]);
    } else if e.Char? {
      var r := s.row - 1;
      var line := CurrentLine(s);
      var k := Index(line, s.col);
      var nl := InsertAt(line, s.col, e.c);
      assert nl == line[..k] + [e.c] + line[k..];
      assert t.text == s.text[..r] + [nl] + s.text[r + 1..];
      FlatAround(s.text, r);
      FlatInsertByte(s.text[..r], line, k, e.c, s.text[r + 1..]);
    }
  }

  /** Over a whole session the buffer gains one line per Enter and one byte
      per typed key, and loses none. */
  lemma {:induction false} StepsCounts(s: State, es: seq<Event>)
    requires WellFormed(s) && Steps(s, es).Next?
    ensures |Steps(s, es).state.text| == |s.text| + Breaks(es)
    ensures |Flat(Steps(s, es).state.text)| == |Flat(s.text)| + Typed(es)
    decreases |es|
  {
    if |es| > 0 {
      var t := Step(s, es[0]).state;
      StepCounts(s, es[0]);
      StepsCounts(t, es[1..]);
    }
  }

  /** Applies events in order with vertical moves clamped. */
  function ClampedSteps(s: State, es: seq<Event>): (t: State)
    requires Valid(s)
    ensures Valid(t) && |t.text| >= |s.text|
    decreases |es|
  {
    if |es| == 0 then s
    else
      Clamped.AgreesWhenValid(s, es[0]);
      ClampedSteps(Clamped.Step(s, es[0]), es[1..])
  }

  /** The loop with vertical moves clamped; it never leaves the buffer. */
  function RunClamped(s: State, input: seq<byte>): (t: State)
    requires Valid(s)
    ensures Valid(t) && |t.text| >= |s.text|
    decreases |input|
  {
    if |input| == 0 then s
    else
      var (e, n) := DecodeNext(input);
      if e.None? then RunClamped(s, input[n..])
      else
        Clamped.AgreesWhenValid(s, e.value);
        RunClamped(Clamped.Step(s, e.value), input[n..])
  }

  lemma {:induction false} RunClampedIsStepsOfDecoded(s: State, input: seq<byte>)
    requires Valid(s)
    ensures RunClamped(s, input) == ClampedSteps(s, DecodeAll(input))
    decreases |input|
  {
    if |input| > 0 {
      var (e, n) := DecodeNext(input);
      var rest := DecodeAll(input[n..]);
      if e.Some? {
        assert DecodeAll(input) == [e.value] + rest;
        assert ([e.value] + rest)[1..] == rest;
        Clamped.AgreesWhenValid(s, e.value);
        RunClampedIsStepsOfDecoded(Clamped.Step(s, e.value), input[n..]);
      } else {
        assert DecodeAll(input) == rest;
        RunClampedIsStepsOfDecoded(s, input[n..]);
      }
    }
  }

  lemma RunClampedEncoded(s: State, es: seq<Event>)
    requires Valid(s) && AllDecodable(es)
    ensures RunClamped(s, EncodeAll(es)) == ClampedSteps(s, es)
  {
    RunClampedIsStepsOfDecoded(s, EncodeAll(es));
    DecodeAllEncodeAll(es);
  }

  /** A session of characters, Enter, Left and Right from a valid state
      never leaves the buffer, and there the clamped loop does the same. */
  lemma {:induction false} HorizontalSessionsAgree(s: State, es: seq<Event>)
    requires Valid(s)
    requires forall i :: 0 <= i < |es| ==> !es[i].Up? && !es[i].Down?
    ensures Steps(s, es) == Next(ClampedSteps(s, es))
    decreases |es|
  {
    if |es| > 0 {
      StepKeepsValid(s, es[0]);
      Clamped.AgreesWhenValid(s, es[0]);
      HorizontalSessionsAgree(Step(s, es[0]).state, es[1..]);
    }
  }

  /** From the start state, Down and then any typed character reads a line
      past the end of the buffer; the clamped loop appends the character. */
  lemma DownThenTypeFaults(c: byte)
    requires c != ESC && c != LF
    ensures Run(Initial(), [ESC, CSI, KEY_DOWN, c]) == RowOutOfRange(2)
    ensures RunClamped(Initial(), [ESC, CSI, KEY_DOWN, c]).text == [Initial().text[0] + [c]]
  {
    var es := [Down, Char(c)];
    assert EncodeAll(es) == [ESC, CSI, KEY_DOWN, c];
    RunEncoded(Initial(), es);
    RunClampedEncoded(Initial(), es);
    var s1 := Clamped.Step(Initial(), Down);
    assert s1 == Initial();
    Clamped.AgreesWhenValid(s1, Char(c));
    assert ClampedSteps(s1, es[1..]) == Clamped.Step(s1, Char(c));
  }

  /** From the start state, the keys Enter, Up, Enter, Down, Left, Up leave
      the cursor at column 14 of an empty first line; the clamped loop puts
      it at column 1. */
  lemma UpKeepsColumnFromStart()
    ensures var input := [LF, ESC, CSI, KEY_UP, LF, ESC, CSI, KEY_DOWN, ESC, CSI, KEY_LEFT, ESC, CSI, KEY_UP];
      && Run(Initial(), input) == Next(State([[], Initial().text[0], []], 1, 14))
      && !Valid(Run(Initial(), input).state)
      && RunClamped(Initial(), input) == State([[], Initial().text[0], []], 1, 1)
  {
    var es := [Enter, Up, Enter, Down, Left, Up];
    var input := [LF, ESC, CSI, KEY_UP, LF, ESC, CSI, KEY_DOWN, ESC, CSI, KEY_LEFT, ESC, CSI, KEY_UP];
    assert EncodeAll(es) == input;
    RunEncoded(Initial(), es);
    RunClampedEncoded(Initial(), es);
    StartTrace(es);
    StartTraceClamped(es);
  }

  /** The states the keys of `UpKeepsColumnFromStart` pass through. */
  lemma StartTrace(es: seq<Event>)
    requires es == [Enter, Up, Enter, Down, Left, Up]
    ensures Steps(Initial(), es) == Next(State([[], Initial().text[0], []], 1, 14))
  {
    var h := Initial().text[0];
    var s0 := Initial();
    var s1 := State([h, []], 2, 1);
    var s2 := State([h, []], 1, 1);
    var s3 := State([[], h, []], 2, 1);
    var s4 := State([[], h, []], 3, 1);
    var s5 := State([[], h, []], 2, 14);
    var s6 := State([[], h, []], 1, 14);
    assert Step(s0, Enter) == Next(s1);
    assert Step(s1, Up) == Next(s2);
    EnterSplits(s2);
    assert Step(s2, Enter) == Next(s3);
    assert Step(s3, Down) == Next(s4);
    assert Step(s4, Left) == Next(s5);
    assert Step(s5, Up) == Next(s6);
    assert Steps(s5, es[5..]) == Next(s6);
    assert Steps(s4, es[4..]) == Next(s6);
    assert Steps(s3, es[3..]) == Next(s6);
    assert Steps(s2, es[2..]) == Next(s6);
    assert Steps(s1, es[1..]) == Next(s6);
  }

  lemma StartTraceClamped(es: seq<Event>)
    requires es == [Enter, Up, Enter, Down, Left, Up]
    ensures ClampedSteps(Initial(), es) == State([[], Initial().text[0], []], 1, 1)
  {
    var h := Initial().text[0];
    var s0 := Initial();
    var s1 := State([h, []], 2, 1);
    var s2 := State([h, []], 1, 1);
    var s3 := State([[], h, []], 2, 1);
    var s4 := State([[], h, []], 3, 1);
    var s5 := State([[], h, []], 2, 14);
    var c6 := State([[], h, []], 1, 1);
    assert Clamped.Step(s0, Enter) == s1;
    assert Clamped.Step(s1, Up) == s2;
    EnterSplits(s2);
    assert Clamped.Step(s2, Enter) == s3;
    assert Clamped.Step(s3, Down) == s4;
    assert Clamped.Step(s4, Left) == s5;
    assert Clamped.Step(s5, Up) == c6;
    assert ClampedSteps(s5, es[5..]) == c6;
    assert ClampedSteps(s4, es[4..]) == c6;
    assert ClampedSteps(s3, es[3..]) == c6;
    assert ClampedSteps(s2, es[2..]) == c6;
    assert ClampedSteps(s1, es[1..]) == c6;
  }
}
