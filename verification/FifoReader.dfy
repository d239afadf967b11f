/** The message pipe of a running shell function: NUL-terminated commands cut out of arbitrary reads. */
module FifoReader {
  import opened Prelude

  type Byte = x: int | 0 <= x < 256

  type Bytes = seq<Byte>

  /** What a message makes the logger do; an unknown command is only warned about. */
  datatype Event =
    | Plain(text: string)
    | Note(text: string)
    | VerbNote(text: string)
    | Warn(text: string)
    | Error(text: string, forcelog: bool)
    | Debug(level: int, text: string)
    | Unrecognised(cmd: string)

  /** UTF-8 decoding and Python's `int()`; each may raise. */
  datatype Codec = Codec(decode: Bytes -> Option<string>, toInt: string -> Option<int>)

  // ---- One message -------------------------------------------------------------------------

  function IndexOf<T(==)>(s: seq<T>, x: T): (i: nat)
    ensures i <= |s| && x !in s[..i] && (i < |s| ==> s[i] == x)
  {
    if s == [] || s[0] == x then 0
    else
      var i := IndexOf(s[1..], x) + 1;
      assert s[..i] == [s[0]] + s[1..][..i - 1];
      i
  }

  /** `split(sep, 1)` */
  function Split1<T(==)>(s: seq<T>, sep: T): (seq<T>, Option<seq<T>>) {
    var i := IndexOf(s, sep);
    if i == |s| then (s, None) else (s[..i], Some(s[i + 1..]))
  }

  function Dispatch(c: Codec, message: Bytes): Result<Event> {
    var (head, tail) := Split1(message, 32);
    match (c.decode(head), if tail.Some? then c.decode(tail.value) else Some(""))
    case (Some(cmd), Some(value)) => Command(c, cmd, value)
    case _ => Failure
  }

  function Command(c: Codec, cmd: string, value: string): Result<Event> {
    if cmd == "bbplain" then Success(Plain(value))
    else if cmd == "bbnote" then Success(Note(value))
    else if cmd == "bbverbnote" then Success(VerbNote(value))
    else if cmd == "bbwarn" then Success(Warn(value))
    else if cmd == "bberror" then Success(Error(value, false))
    else if cmd == "bbfatal" then Success(Error(value, false))
    else if cmd == "bbfatal_log" then Success(Error(value, true))
    else if cmd == "bbdebug" then
      var (level, text) := Split1(value, ' ');
      match (c.toInt(level), text)
      case (Some(n), Some(t)) => Success(Debug(n, t))
      case _ => Failure
    else Success(Unrecognised(cmd))
  }

  // ---- The framing of a stream ---------------------------------------------------------------

  /** The NUL-terminated segments of a stream, without their terminators. */
  function Segments(s: Bytes): seq<Bytes>
    decreases |s|
  {
    var i := IndexOf(s, 0);
    if i == |s| then [] else [s[..i]] + Segments(s[i + 1..])
  }

  /** What follows the last terminator. */
  function Tail(s: Bytes): Bytes
    decreases |s|
  {
    var i := IndexOf(s, 0);
    if i == |s| then s else Tail(s[i + 1..])
  }

  /** The events of the segments before the first malformed one. */
  function EventsOf(c: Codec, segments: seq<Bytes>): seq<Event> {
    if segments == [] then []
    else
      match Dispatch(c, segments[0])
      case Success(e) => [e] + EventsOf(c, segments[1..])
      case Failure => []
  }

  predicate AllWellFormed(c: Codec, segments: seq<Bytes>) {
    forall i | 0 <= i < |segments| :: Dispatch(c, segments[i]).Success?
  }

  // ---- The reader ----------------------------------------------------------------------------

  /** The buffer left over, the events dispatched, and whether no message raised. */
  datatype Outcome = Outcome(buffer: Bytes, events: seq<Event>, ok: bool)

  /** The loop over a buffer; a message that raises stays in it. */
  function Drain(c: Codec, buffer: Bytes): Outcome
    decreases |buffer|
  {
    var i := IndexOf(buffer, 0);
    if i == |buffer| then Outcome(buffer, [], true)
    else
      match Dispatch(c, buffer[..i])
      case Failure => Outcome(buffer, [], false)
      case Success(e) =>
        var o := Drain(c, buffer[i + 1..]);
        o.(events := [e] + o.events)
  }

  lemma EventMoves(before: seq<Event>, events: seq<Event>, e: Event, rest: seq<Event>)
    requires before <= events
    ensures events[|before|..] + ([e] + rest) == (events + [e])[|before|..] + rest
  {
  }

  class Reader {
    var fifobuffer: Bytes
    var events: seq<Event>
    const codec: Codec

    constructor (codec: Codec)
      ensures this.codec == codec && fifobuffer == [] && events == []
    {
      this.codec, fifobuffer, events := codec, [], [];
    }

    /** False means a message raised. */
    method ReadFifo(data: Bytes) returns (ok: bool)
      modifies this
      ensures old(events) <= events
      ensures Drain(codec, old(fifobuffer) + data) == Outcome(fifobuffer, events[|old(events)|..], ok)
    {
      fifobuffer := fifobuffer + data;
      ghost var all := fifobuffer;
      ghost var before := events;
      while fifobuffer != []
        invariant before <= events
        invariant var o := Drain(codec, fifobuffer);
                  Drain(codec, all) == o.(events := events[|before|..] + o.events)
        decreases |fifobuffer|
      {
        var i := IndexOf(fifobuffer, 0);
        if i == |fifobuffer| {
          break;
        }
        var e := Dispatch(codec, fifobuffer[..i]);
        if e.Failure? {
          return false;
        }
        EventMoves(before, events, e.value, Drain(codec, fifobuffer[i + 1..]).events);
        events := events + [e.value];
        fifobuffer := fifobuffer[i + 1..];
      }
      assert events[|before|..] + [] == events[|before|..];
      ok := true;
    }
  }

  // ---- Reading does not depend on how the stream is cut ----------------------------------------

  lemma IndexOfAppend<T>(s: seq<T>, t: seq<T>, x: T)
    ensures x in s ==> IndexOf(s + t, x) == IndexOf(s, x) < |s|
    ensures x !in s ==> IndexOf(s + t, x) == |s| + IndexOf(t, x) && IndexOf(s, x) == |s|
  {
    if s == [] {
      assert s + t == t;
    } else if s[0] != x {
      assert (s + t)[1..] == s[1..] + t;
      IndexOfAppend(s[1..], t, x);
    }
  }

  lemma DrainFirst(c: Codec, s: Bytes, i: nat, e: Event, rest: Bytes)
    requires i == IndexOf(s, 0) < |s| && Dispatch(c, s[..i]) == Success(e) && rest == s[i + 1..]
    ensures Drain(c, s) == Outcome(Drain(c, rest).buffer, [e] + Drain(c, rest).events, Drain(c, rest).ok)
  {
  }

  /** The drain of `b` and new data `d`, continued from the drain `r` of `b`. */
  function Continue(c: Codec, r: Outcome, d: Bytes): Outcome {
    if r.ok then
      var q := Drain(c, r.buffer + d);
      Outcome(q.buffer, r.events + q.events, q.ok)
    else Outcome(r.buffer + d, r.events, false)
  }

  lemma ContinueFirst(c: Codec, r: Outcome, d: Bytes, e: Event)
    ensures var o := Continue(c, r, d);
            Continue(c, Outcome(r.buffer, [e] + r.events, r.ok), d) == Outcome(o.buffer, [e] + o.events, o.ok)
  {
    var q := Drain(c, r.buffer + d);
    assert [e] + (r.events + q.events) == ([e] + r.events) + q.events;
  }

  /** Draining what is left over together with new data continues where the first drain stopped. */
  lemma {:induction false} DrainAppend(c: Codec, b: Bytes, d: Bytes)
    ensures Drain(c, b + d) == Continue(c, Drain(c, b), d)
    decreases |b|
  {
    var i := IndexOf(b, 0);
    IndexOfAppend(b, d, 0);
    if i == |b| {
      var q := Drain(c, b + d);
      assert [] + q.events == q.events;
    } else {
      assert b[i] in b;
      var rest := b[i + 1..];
      assert (b + d)[..i] == b[..i] && (b + d)[i + 1..] == rest + d;
      match Dispatch(c, b[..i])
      case Failure =>
      case Success(e) =>
        DrainAppend(c, rest, d);
        DrainFirst(c, b, i, e, rest);
        DrainFirst(c, b + d, i, e, rest + d);
        ContinueFirst(c, Drain(c, rest), d, e);
    }
  }

  /** A drained buffer holds exactly the unterminated tail, and the events are those of the segments. */
  lemma {:induction false} DrainIsFraming(c: Codec, s: Bytes)
    ensures var o := Drain(c, s);
            && o.events == EventsOf(c, Segments(s))
            && (o.ok <==> AllWellFormed(c, Segments(s)))
            && (o.ok ==> o.buffer == Tail(s) && |o.events| == |Segments(s)|)
    decreases |s|
  {
    var i := IndexOf(s, 0);
    if i < |s| {
      DrainIsFraming(c, s[i + 1..]);
      var rest := Segments(s[i + 1..]);
      var all := Segments(s);
      assert all == [s[..i]] + rest && all[1..] == rest;
      assert forall k | 0 <= k < |rest| :: rest[k] == all[k + 1];
      assert AllWellFormed(c, all) <==> Dispatch(c, all[0]).Success? && AllWellFormed(c, rest) by {
        assert forall k | 0 < k < |all| :: all[k] == rest[k - 1];
      }
    }
  }

  function Concat(chunks: seq<Bytes>): Bytes {
    if chunks == [] then [] else Concat(chunks[..|chunks| - 1]) + chunks[|chunks| - 1]
  }

  /** Reading chunk after chunk; after an exception nothing more is read. */
  function ReadAll(c: Codec, chunks: seq<Bytes>): Outcome {
    if chunks == [] then Outcome([], [], true)
    else
      var r := ReadAll(c, chunks[..|chunks| - 1]);
      if !r.ok then r
      else
        var q := Drain(c, r.buffer + chunks[|chunks| - 1]);
        q.(events := r.events + q.events)
  }

  lemma {:induction false} ReadAllIsDrain(c: Codec, chunks: seq<Bytes>)
    ensures var r, d := ReadAll(c, chunks), Drain(c, Concat(chunks));
            r.events == d.events && r.ok == d.ok && (r.ok ==> r.buffer == d.buffer)
  {
    if chunks != [] {
      var front, last := chunks[..|chunks| - 1], chunks[|chunks| - 1];
      ReadAllIsDrain(c, front);
      DrainAppend(c, Concat(front), last);
    }
  }

  /**
   However the stream is cut into reads: the events are those of its NUL-terminated segments in
   order, up to the first malformed one; it raises exactly if there is one; and otherwise the buffer
   holds exactly the unterminated tail.
   */
  lemma ChunkIndependent(c: Codec, chunks: seq<Bytes>)
    ensures var r, s := ReadAll(c, chunks), Concat(chunks);
            && r.events == EventsOf(c, Segments(s))
            && (r.ok <==> AllWellFormed(c, Segments(s)))
            && (r.ok ==> r.buffer == Tail(s) && |r.events| == |Segments(s)|)
  {
    ReadAllIsDrain(c, chunks);
    DrainIsFraming(c, Concat(chunks));
  }

  /** The segments and the tail are the stream: nothing is dropped. */
  function Framed(segments: seq<Bytes>, tail: Bytes): Bytes {
    if segments == [] then tail else segments[0] + [0] + Framed(segments[1..], tail)
  }

  lemma {:induction false} FramingIsLossless(s: Bytes)
    ensures Framed(Segments(s), Tail(s)) == s
    decreases |s|
  {
    var i := IndexOf(s, 0);
    if i < |s| {
      var rest := s[i + 1..];
      FramingIsLossless(rest);
      FramedMore(s[..i], Segments(rest), Tail(rest));
      assert s == s[..i] + [0] + rest;
    }
  }

  lemma FramedMore(first: Bytes, segments: seq<Bytes>, tail: Bytes)
    ensures Framed([first] + segments, tail) == first + [0] + Framed(segments, tail)
  {
    assert ([first] + segments)[1..] == segments;
  }

  /** Neither a segment nor the tail holds a terminator. */
  lemma {:induction false} NoTerminatorInside(s: Bytes)
    ensures 0 !in Tail(s) && forall p | p in Segments(s) :: 0 !in p
    decreases |s|
  {
    var i := IndexOf(s, 0);
    if i == |s| {
      assert s[..i] == s;
    } else {
      NoTerminatorInside(s[i + 1..]);
    }
  }

  /** A whole run on the heap. */
  method ReadChunks(c: Codec, chunks: seq<Bytes>) returns (reader: Reader, ok: bool)
    ensures reader.events == EventsOf(c, Segments(Concat(chunks)))
    ensures ok <==> AllWellFormed(c, Segments(Concat(chunks)))
    ensures ok ==> reader.fifobuffer == Tail(Concat(chunks))
  {
    reader := new Reader(c);
    ok := true;
    var i := 0;
    while i < |chunks| && ok
      invariant 0 <= i <= |chunks| && fresh(reader) && reader.codec == c
      invariant ReadAll(c, chunks[..i]) == Outcome(reader.fifobuffer, reader.events, ok)
    {
      assert chunks[..i + 1][..i] == chunks[..i];
      ghost var before := reader.events;
      ok := reader.ReadFifo(chunks[i]);
      assert before + reader.events[|before|..] == reader.events;
      i := i + 1;
    }
    ReadAllStops(c, chunks, i);
    ChunkIndependent(c, chunks);
  }

  lemma {:induction false} ReadAllStops(c: Codec, chunks: seq<Bytes>, i: nat)
    requires i <= |chunks| && (i == |chunks| || !ReadAll(c, chunks[..i]).ok)
    ensures ReadAll(c, chunks) == ReadAll(c, chunks[..i])
    decreases |chunks|
  {
    if i == |chunks| {
      assert chunks[..i] == chunks;
    } else {
      var front := chunks[..|chunks| - 1];
      assert front[..i] == chunks[..i];
      if i == |front| {
        assert front[..i] == front;
      } else {
        ReadAllStops(c, front, i);
      }
    }
  }
}
