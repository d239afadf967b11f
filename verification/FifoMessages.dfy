/** What the shell's logging functions write to the FIFO, and that the reader reports exactly that, in order. */
module FifoMessages {
  import opened Prelude
  import opened FifoReader

  /** A call of a logging function in a shell task. */
  datatype Call =
    | BbPlain(text: string)
    | BbNote(text: string)
    | BbVerbNote(text: string)
    | BbWarn(text: string)
    | BbError(text: string)
    | BbFatal(text: string)
    | BbFatalLog(text: string)
    | BbDebug(level: string, text: string)

  /** The name of the function, and what it prints behind it. */
  function Printed(call: Call): (string, string) {
    match call
    case BbPlain(t) => ("bbplain", t)
    case BbNote(t) => ("bbnote", t)
    case BbVerbNote(t) => ("bbverbnote", t)
    case BbWarn(t) => ("bbwarn", t)
    case BbError(t) => ("bberror", t)
    case BbFatal(t) => ("bbfatal", t)
    case BbFatalLog(t) => ("bbfatal_log", t)
    case BbDebug(level, t) => ("bbdebug", level + " " + t)
  }

  /** What the call is meant to report; only `bbfatal_log` keeps its log from being suppressed. */
  function Meant(call: Call, level: int): Event {
    match call
    case BbPlain(t) => Plain(t)
    case BbNote(t) => Note(t)
    case BbVerbNote(t) => VerbNote(t)
    case BbWarn(t) => Warn(t)
    case BbError(t) => Error(t, false)
    case BbFatal(t) => Error(t, false)
    case BbFatalLog(t) => Error(t, true)
    case BbDebug(_, t) => Debug(level, t)
  }

  /** How text becomes bytes: UTF-8 reads back, keeps a space as a space, and makes no others and no NUL. */
  ghost predicate Encodes(c: Codec, enc: string -> Bytes) {
    && (forall s :: c.decode(enc(s)) == Some(s))
    && (forall s, t :: enc(s + " " + t) == enc(s) + [32] + enc(t))
    && (forall s | ' ' !in s :: 32 !in enc(s))
    && (forall s | '\0' !in s :: 0 !in enc(s))
  }

  function Line(call: Call): string {
    Printed(call).0 + " " + Printed(call).1
  }

  /** The level of a debug message is a number, without a space. */
  predicate LevelOk(c: Codec, call: Call) {
    call.BbDebug? ==> c.toInt(call.level).Some? && ' ' !in call.level
  }

  function Reported(c: Codec, call: Call): Event {
    Meant(call, if call.BbDebug? then c.toInt(call.level).GetOr(0) else 0)
  }

  lemma FirstPart<T>(s: seq<T>, sep: T, t: seq<T>)
    requires sep !in s
    ensures Split1(s + [sep] + t, sep) == (s, Some(t))
  {
    var all := s + [sep] + t;
    IndexOfAppend(s, [sep] + t, sep);
    assert all == s + ([sep] + t) && ([sep] + t)[0] == sep;
    assert all[..|s|] == s && all[|s| + 1..] == t;
  }

  lemma NamesHaveNoSpace(call: Call)
    ensures ' ' !in Printed(call).0
  {
  }

  /** One message is dispatched to what was meant by it. */
  lemma CallRead(c: Codec, enc: string -> Bytes, call: Call)
    requires Encodes(c, enc) && LevelOk(c, call)
    ensures Dispatch(c, enc(Line(call))) == Success(Reported(c, call))
  {
    var (cmd, value) := Printed(call);
    NamesHaveNoSpace(call);
    assert enc(cmd + " " + value) == enc(cmd) + [32] + enc(value);
    FirstPart(enc(cmd), 32, enc(value));
    if call.BbDebug? {
      FirstPart(call.level, ' ', call.text);
    }
    NamesDiffer(c, call);
  }

  /** Each name selects its own case. */
  lemma NamesDiffer(c: Codec, call: Call)
    requires LevelOk(c, call)
    requires call.BbDebug? ==> Split1(Printed(call).1, ' ') == (call.level, Some(call.text))
    ensures Command(c, Printed(call).0, Printed(call).1) == Success(Reported(c, call))
  {
  }

  /** Anything else is reported as unrecognised. */
  lemma OthersUnrecognised(c: Codec, cmd: string, value: string)
    requires forall call: Call :: Printed(call).0 != cmd
    ensures Command(c, cmd, value) == Success(Unrecognised(cmd))
  {
    assert Printed(BbPlain("")).0 != cmd && Printed(BbNote("")).0 != cmd && Printed(BbVerbNote("")).0 != cmd;
    assert Printed(BbWarn("")).0 != cmd && Printed(BbError("")).0 != cmd && Printed(BbFatal("")).0 != cmd;
    assert Printed(BbFatalLog("")).0 != cmd && Printed(BbDebug("", "")).0 != cmd;
  }

  // ---- A whole task --------------------------------------------------------------------------------

  /** What the calls write, each with a NUL behind it. */
  function Written(enc: string -> Bytes, calls: seq<Call>): Bytes {
    if calls == [] then [] else enc(Line(calls[0])) + [0] + Written(enc, calls[1..])
  }

  predicate NoNul(call: Call) {
    '\0' !in Line(call)
  }

  lemma MessageFirst(c: Codec, enc: string -> Bytes, call: Call, rest: Bytes)
    requires Encodes(c, enc) && LevelOk(c, call) && NoNul(call)
    ensures var o := Drain(c, rest);
            Drain(c, enc(Line(call)) + [0] + rest) == Outcome(o.buffer, [Reported(c, call)] + o.events, o.ok)
  {
    var m := enc(Line(call));
    var s := m + [0] + rest;
    IndexOfAppend(m, [0] + rest, 0);
    assert s == m + ([0] + rest) && ([0] + rest)[0] == 0;
    assert s[..|m|] == m && s[|m| + 1..] == rest;
    CallRead(c, enc, call);
    DrainFirst(c, s, |m|, Reported(c, call), rest);
  }

  /** The events of the calls. */
  function AllReported(c: Codec, calls: seq<Call>): seq<Event> {
    seq(|calls|, i requires 0 <= i < |calls| => Reported(c, calls[i]))
  }

  lemma ReportedFirst(c: Codec, calls: seq<Call>)
    requires calls != []
    ensures AllReported(c, calls) == [Reported(c, calls[0])] + AllReported(c, calls[1..])
  {
  }

  lemma OkRest(c: Codec, calls: seq<Call>)
    requires calls != [] && AllOk(c, calls)
    ensures LevelOk(c, calls[0]) && NoNul(calls[0]) && AllOk(c, calls[1..])
  {
    assert calls[0] in calls && forall call | call in calls[1..] :: call in calls;
  }

  ghost predicate AllOk(c: Codec, calls: seq<Call>) {
    forall call | call in calls :: LevelOk(c, call) && NoNul(call)
  }

  /** However the FIFO is read, the reader reports every call, in order, and nothing is left over. */
  lemma {:induction false} CallsRead(c: Codec, enc: string -> Bytes, calls: seq<Call>)
    requires Encodes(c, enc) && AllOk(c, calls)
    ensures Drain(c, Written(enc, calls)) == Outcome([], AllReported(c, calls), true)
  {
    if calls != [] {
      var first, rest := calls[0], calls[1..];
      OkRest(c, calls);
      CallsRead(c, enc, rest);
      MessageFirst(c, enc, first, Written(enc, rest));
      ReportedFirst(c, calls);
    }
  }

  /** On the heap, for every way of cutting what was written into reads. */
  method ReportAll(c: Codec, ghost enc: string -> Bytes, ghost calls: seq<Call>, chunks: seq<Bytes>)
    returns (reader: Reader, ok: bool)
    requires Encodes(c, enc) && AllOk(c, calls) && Concat(chunks) == Written(enc, calls)
    ensures ok && reader.fifobuffer == [] && reader.events == AllReported(c, calls)
  {
    CallsRead(c, enc, calls);
    DrainIsFraming(c, Concat(chunks));
    reader, ok := ReadChunks(c, chunks);
  }
}
