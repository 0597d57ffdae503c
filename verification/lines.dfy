/** Operations on single lines, and the byte stream a buffer of lines stands
    for. */
module Lines {
  import opened Basics

  /** The index in `line` that cursor column `col` (1-based) edits at:
      columns past the end of the line act at the end. */
  function Index(line: Line, col: int): (k: nat)
    requires col >= 1
    ensures k <= |line|
    ensures k == col - 1 || (k == |line| && col - 1 > |line|)
  {
    Min(col - 1, |line|)
  }

  /** Inserting character `c` at column `col`: a column past the end of the
      line appends, any other shifts the rest of the line right.  The result
      holds `c` at the cursor's index and is the old line once `c` is taken
      out again. */
  function InsertAt(line: Line, col: int, c: byte): (r: Line)
    requires col >= 1
    ensures |r| == |line| + 1
    ensures r[Index(line, col)] == c
    ensures r[..Index(line, col)] + r[Index(line, col) + 1..] == line
  {
    if col > |line| then line + [c]
    else line[..col - 1] + [c] + line[col - 1..]
  }

  /** Splitting a line at column `col`: the part before the cursor and the
      part from the cursor on, which concatenate back to the line. */
  function SplitAt(line: Line, col: int): (r: (Line, Line))
    requires col >= 1
    ensures r.0 + r.1 == line
    ensures |r.0| == Index(line, col)
  {
    var k := Index(line, col);
    (line[..k], line[k..])
  }

  /** The split as the Enter handler computes it: one pass over the line,
      sending each character before the cursor to `before` and every other
      to `after`. */
  method SplitLoop(line: Line, col: int) returns (before: Line, after: Line)
    requires col >= 1
    ensures before + after == line
    ensures |before| == Index(line, col)
  {
    before := [];
    after := [];
    var i := 0;
    while i < |line|
      invariant 0 <= i <= |line|
      invariant before + after == line[..i]
      invariant |before| == Min(i, col - 1)
    {
      if i < col - 1 {
        before := before + [line[i]];
      } else {
        after := after + [line[i]];
      }
      assert line[..i + 1] == line[..i] + [line[i]];
      i := i + 1;
    }
    assert line[..i] == line;
  }

  /** The bytes a buffer stands for: every line followed by a line feed, as
      the repaint loop writes them. */
  function Flat(text: seq<Line>): (bs: seq<byte>)
    ensures |bs| >= |text|
  {
    if |text| == 0 then [] else text[0] + [LF] + Flat(text[1..])
  }

  lemma {:induction false} FlatAppend(a: seq<Line>, b: seq<Line>)
    ensures Flat(a + b) == Flat(a) + Flat(b)
  {
    if |a| > 0 {
      assert (a + b)[1..] == a[1..] + b;
      FlatAppend(a[1..], b);
    } else {
      assert a + b == b;
    }
  }

  /** The bytes of a buffer around its line `k`. */
  lemma FlatAround(text: seq<Line>, k: nat)
    requires k < |text|
    ensures Flat(text) == Flat(text[..k]) + text[k] + [LF] + Flat(text[k + 1..])
  {
    Decompose(text, k);
    FlatParts(text[..k], text[k], text[k + 1..]);
  }

  lemma Decompose<T>(s: seq<T>, k: nat)
    requires k < |s|
    ensures s[..k] + [s[k]] + s[k + 1..] == s
  {
  }

  lemma UpdateParts<T>(s: seq<T>, k: nat, x: T)
    requires k < |s|
    ensures s[k := x] == s[..k] + [x] + s[k + 1..]
    ensures s[k := x][..k] == s[..k]
  {
  }

  lemma FlatParts(pre: seq<Line>, line: Line, post: seq<Line>)
    ensures Flat(pre + [line] + post) == Flat(pre) + line + [LF] + Flat(post)
  {
    assert pre + [line] + post == pre + ([line] + post);
    FlatAppend(pre, [line] + post);
    FlatSingle(line, post);
  }

  lemma FlatSingle(line: Line, post: seq<Line>)
    ensures Flat([line] + post) == line + [LF] + Flat(post)
  {
    assert ([line] + post)[1..] == post;
  }

  /** How many bytes the first `k` lines take: a prefix of the buffer grows
      by a line and its line feed at a time. */
  lemma FlatPrefixStep(text: seq<Line>, k: nat)
    requires k < |text|
    ensures |Flat(text[..k + 1])| == |Flat(text[..k])| + |text[k]| + 1
  {
    assert text[..k + 1] == text[..k] + [text[k]];
    FlatAppend(text[..k], [text[k]]);
    FlatSingle(text[k], []);
    assert [text[k]] + [] == [text[k]];
  }

  /** Longer prefixes of a buffer take more bytes, at least one per line. */
  lemma FlatPrefixGrows(text: seq<Line>, i: nat, j: nat)
    requires i <= j <= |text|
    ensures |Flat(text[..j])| >= |Flat(text[..i])| + (j - i)
  {
    assert text[..j] == text[..i] + text[i..j];
    FlatAppend(text[..i], text[i..j]);
  }
}
