/** The input decoder of the main loop: one byte read from the terminal, and
    for an escape byte the two bytes read after it, become at most one
    logical event. */
module Input {
  import opened Basics

  datatype Option<T> = None | Some(value: T)

  /** The events the editing loop acts on. */
  datatype Event = Char(c: byte) | Enter | Up | Down | Left | Right {
    predicate IsArrow() {
      Up? || Down? || Left? || Right?
    }
  }

  /** The events the decoder can produce: ESC and LF never reach the buffer
      as literal characters. */
  predicate Decodable(e: Event) {
    e.Char? ==> e.c != ESC && e.c != LF
  }

  /** The last byte of the sequence `ESC [ x` a terminal sends for an arrow. */
  function ArrowKey(e: Event): byte
    requires e.IsArrow()
  {
    if e.Up? then KEY_UP
    else if e.Down? then KEY_DOWN
    else if e.Right? then KEY_RIGHT
    else KEY_LEFT
  }

  /** The bytes a terminal sends for an event: the partner of `Decode`. */
  function Encode(e: Event): (bs: seq<byte>)
    requires Decodable(e)
    ensures 1 <= |bs| <= 3
    ensures bs[0] == ESC <==> e.IsArrow()
  {
    match e
    case Char(c) => [c]
    case Enter => [LF]
    case _ => [ESC, CSI, ArrowKey(e)]
  }

  /** Different events have different encodings, so decoding is well defined. */
  lemma EncodeInjective(e1: Event, e2: Event)
    requires Decodable(e1) && Decodable(e2)
    requires Encode(e1) == Encode(e2)
    ensures e1 == e2
  {
    if e1.IsArrow() {
      assert Encode(e1)[2] == Encode(e2)[2];
    } else {
      assert Encode(e1)[0] == Encode(e2)[0];
    }
  }

  /** The bytes one decoding step consumes: `b`, and after an escape byte the
      bytes the follow-up reads delivered. */
  function Consumed(b: byte, follow: seq<byte>): seq<byte> {
    if b == ESC then [b] + follow else [b]
  }

  /** Decodes the byte `b` read by the main loop.  When `b` is ESC the loop
      reads two more bytes; `follow` holds the ones those reads delivered, so
      fewer than two means a read failed (a failed first read skips the
      second).  The result is the event whose encoding is exactly the bytes
      consumed, and nothing when no event is encoded that way. */
  function Decode(b: byte, follow: seq<byte>): (e: Option<Event>)
    requires |follow| <= 2
    ensures e.Some? ==> Decodable(e.value) && Encode(e.value) == Consumed(b, follow)
    ensures e.None? <==> b == ESC && forall ev :: Decodable(ev) ==> Encode(ev) != Consumed(b, follow)
  {
    if b == ESC then
      if |follow| == 2 && follow[0] == CSI && follow[1] == KEY_UP then Some(Up)
      else if |follow| == 2 && follow[0] == CSI && follow[1] == KEY_DOWN then Some(Down)
      else if |follow| == 2 && follow[0] == CSI && follow[1] == KEY_RIGHT then Some(Right)
      else if |follow| == 2 && follow[0] == CSI && follow[1] == KEY_LEFT then Some(Left)
      else
        UnknownEscape(follow);
        None
    else if b == LF then Some(Enter)
    else Some(Char(b))
  }

  /** An escape whose follow-up bytes are not `[` and one of `A`..`D` is
      the encoding of no event. */
  lemma UnknownEscape(follow: seq<byte>)
    requires !(|follow| == 2 && follow[0] == CSI && KEY_UP <= follow[1] <= KEY_LEFT)
    ensures forall ev :: Decodable(ev) ==> Encode(ev) != [ESC] + follow
  {
    forall ev | Decodable(ev)
      ensures Encode(ev) != [ESC] + follow
    {
      if ev.IsArrow() {
        assert Encode(ev)[1..] == [CSI, ArrowKey(ev)];
      }
    }
  }

  /** Every byte other than ESC and LF is a literal character, Backspace
      (127 and 8) and Tab (9) included. */
  lemma LiteralBytes(b: byte)
    requires b != ESC && b != LF
    ensures Decode(b, []) == Some(Char(b))
  {
  }

  /** One turn of the main loop over the bytes still to come: the byte it
      reads, then for ESC the up to two bytes it reads next.  When the input
      runs out during the follow-up reads, the reads fail and the escape is
      dropped.  The result is the event, if any, and how many bytes were used. */
  function DecodeNext(s: seq<byte>): (r: (Option<Event>, nat))
    requires |s| > 0
    ensures 1 <= r.1 <= |s|
    ensures r.0.Some? ==> Decodable(r.0.value) && s[..r.1] == Encode(r.0.value)
    ensures r.0.None? ==> s[0] == ESC
    ensures s[0] == ESC ==> r.1 == Min(3, |s|)
    ensures s[0] != ESC ==> r.1 == 1
  {
    if s[0] == ESC then
      var n := Min(3, |s|);
      (Decode(ESC, s[1..n]), n)
    else
      (Decode(s[0], []), 1)
  }

  /** Decoding an event's own encoding gives back that event, and uses
      exactly its bytes, whatever follows them. */
  lemma DecodeNextEncode(e: Event, rest: seq<byte>)
    requires Decodable(e)
    ensures DecodeNext(Encode(e) + rest) == (Some(e), |Encode(e)|)
  {
    var s := Encode(e) + rest;
    var r := DecodeNext(s);
    if e.IsArrow() {
      assert s[1..3] == Encode(e)[1..];
      assert r.1 == 3;
    } else {
      assert r.1 == 1;
    }
    assert s[..r.1] == Encode(e);
    EncodeInjective(r.0.value, e);
  }

  /** All events in a byte stream, in arrival order. */
  function DecodeAll(s: seq<byte>): (es: seq<Event>)
    ensures forall i :: 0 <= i < |es| ==> Decodable(es[i])
    ensures |es| <= |s|
    decreases |s|
  {
    if |s| == 0 then []
    else
      var (e, n) := DecodeNext(s);
      (if e.Some? then [e.value] else []) + DecodeAll(s[n..])
  }

  predicate AllDecodable(es: seq<Event>) {
    forall i :: 0 <= i < |es| ==> Decodable(es[i])
  }

  /** The bytes a terminal sends for a series of events. */
  function EncodeAll(es: seq<Event>): (bs: seq<byte>)
    requires AllDecodable(es)
    ensures |es| <= |bs| <= 3 * |es|
  {
    if |es| == 0 then [] else Encode(es[0]) + EncodeAll(es[1..])
  }

  /** Round trip: the decoder recovers every series of keys from the bytes. */
  lemma {:induction false} DecodeAllEncodeAll(es: seq<Event>)
    requires AllDecodable(es)
    ensures DecodeAll(EncodeAll(es)) == es
  {
    if |es| > 0 {
      var s := EncodeAll(es);
      DecodeNextEncode(es[0], EncodeAll(es[1..]));
      assert s[|Encode(es[0])|..] == EncodeAll(es[1..]);
      DecodeAllEncodeAll(es[1..]);
      assert DecodeAll(s) == [es[0]] + es[1..];
    }
  }
}
