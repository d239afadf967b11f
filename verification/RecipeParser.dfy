/**
 The parallel recipe parser: worker processes with their own job lists, one result queue, and a
 server generator that reaps, polls and counts.  The protocol is a transition system over single
 steps of any worker or of the server; `Chunkify` and `ParseNext` are the server's own code.
 */
module RecipeParser {
  import opened Prelude

  datatype Job = Job(mc: string, filename: string, appends: seq<string>, layer: string)

  /** A queue entry: the infos of a parsed recipe (only their number matters), or an exception. */
  datatype Msg = Msg(job: Job, infos: Option<nat>)

  // ---- Distributing the jobs -------------------------------------------------------------

  /** `lst[i::n]` */
  function Slice(lst: seq<Job>, i: nat, n: nat): seq<Job>
    requires n > 0
    decreases |lst| - i
  {
    if i >= |lst| then [] else [lst[i]] + Slice(lst, i + n, n)
  }

  function Slices(lst: seq<Job>, n: nat): seq<seq<Job>>
    requires n > 0
  {
    seq(n, i requires 0 <= i => Slice(lst, i, n))
  }

  /** How often `j` occurs. */
  function Occ(jobs: seq<Job>, j: Job): nat {
    if jobs == [] then 0 else (if jobs[0] == j then 1 else 0) + Occ(jobs[1..], j)
  }

  lemma {:induction false} OccConcat(a: seq<Job>, b: seq<Job>, j: Job)
    ensures Occ(a + b, j) == Occ(a, j) + Occ(b, j)
  {
    if a == [] {
      assert a + b == b;
    } else {
      assert (a + b)[1..] == a[1..] + b;
      OccConcat(a[1..], b, j);
    }
  }

  lemma {:induction false} OccMultiset(jobs: seq<Job>, j: Job)
    ensures multiset(jobs)[j] == Occ(jobs, j)
  {
    if jobs != [] {
      OccMultiset(jobs[1..], j);
      assert jobs == [jobs[0]] + jobs[1..];
    }
  }

  function Flat(chunks: seq<seq<Job>>): seq<Job> {
    if chunks == [] then [] else chunks[0] + Flat(chunks[1..])
  }

  method Chunkify(lst: seq<Job>, n: nat) returns (chunks: seq<seq<Job>>)
    ensures |chunks| == n && (n > 0 ==> chunks == Slices(lst, n))
  {
    chunks := [];
    for i := 0 to n
      invariant |chunks| == i && forall j | 0 <= j < i :: chunks[j] == Slice(lst, j, n)
    {
      var chunk: seq<Job> := [];
      var k := i;
      while k < |lst|
        invariant chunk + Slice(lst, k, n) == Slice(lst, i, n)
        decreases |lst| - k
      {
        assert chunk + ([lst[k]] + Slice(lst, k + n, n)) == (chunk + [lst[k]]) + Slice(lst, k + n, n);
        chunk := chunk + [lst[k]];
        k := k + n;
      }
      assert chunk + [] == chunk;
      chunks := chunks + [chunk];
    }
  }

  lemma {:induction false} SliceTail(lst: seq<Job>, i: nat, n: nat)
    requires n > 0 && lst != []
    ensures Slice(lst, i + 1, n) == Slice(lst[1..], i, n)
    decreases |lst| - i
  {
    if i + 1 < |lst| {
      SliceTail(lst, i + n, n);
    }
  }

  lemma {:induction false} OccFlatSnoc(chunks: seq<seq<Job>>, c: seq<Job>, j: Job)
    ensures Occ(Flat(chunks + [c]), j) == Occ(Flat(chunks), j) + Occ(c, j)
  {
    if chunks == [] {
      assert [] + [c] == [c] && Flat([c]) == c + [] == c;
    } else {
      assert (chunks + [c])[1..] == chunks[1..] + [c];
      OccFlatSnoc(chunks[1..], c, j);
      OccConcat(chunks[0], Flat(chunks[1..] + [c]), j);
      OccConcat(chunks[0], Flat(chunks[1..]), j);
    }
  }

  lemma {:induction false} FlatOfEmpties(chunks: seq<seq<Job>>)
    requires forall c | c in chunks :: c == []
    ensures Flat(chunks) == []
  {
    if chunks != [] {
      assert chunks[0] in chunks && forall c | c in chunks[1..] :: c in chunks;
      FlatOfEmpties(chunks[1..]);
    }
  }

  /** Dealing one more job in front rotates the slices by one. */
  lemma SlicesRotate(lst: seq<Job>, n: nat)
    requires n > 0 && lst != []
    ensures var t := Slices(lst[1..], n); Slices(lst, n) == [[lst[0]] + t[n - 1]] + t[..n - 1]
  {
    var s, t := Slices(lst, n), Slices(lst[1..], n);
    SliceTail(lst, n - 1, n);
    forall i | 1 <= i < n ensures s[i] == t[i - 1] {
      SliceTail(lst, i - 1, n);
    }
  }

  /** Chunking deals out every job exactly once, whatever the number of processes. */
  lemma {:induction false} SlicesPartition(lst: seq<Job>, n: nat, j: Job)
    requires n > 0
    ensures Occ(Flat(Slices(lst, n)), j) == Occ(lst, j)
    decreases |lst|
  {
    if lst == [] {
      FlatOfEmpties(Slices(lst, n));
    } else {
      var t := Slices(lst[1..], n);
      SlicesPartition(lst[1..], n, j);
      SlicesRotate(lst, n);
      var front, last := t[..n - 1], t[n - 1];
      assert t == front + [last];
      OccFlatSnoc(front, last, j);
      var first := [lst[0]] + last;
      assert Flat([first] + front) == first + Flat(front) by { assert ([first] + front)[1..] == front; }
      OccConcat(first, Flat(front), j);
      assert first[1..] == last;
    }
  }

  // ---- Counting: parse_next --------------------------------------------------------------

  datatype Counters = Counters(parsed: nat, cached: nat, error: nat, current: nat, virtuals: nat)

  /** What `next(self.results)` does. */
  datatype Fetched = Recipe(fromWorker: bool, infos: nat) | Nothing | Raises | Stops

  /** The account after one call: a delivered recipe counts once, on the side it came from. */
  function Tally(c: Counters, f: Fetched): Counters {
    match f
    case Recipe(true, k) => c.(parsed := c.parsed + 1, current := c.current + 1, virtuals := c.virtuals + k)
    case Recipe(false, k) => c.(cached := c.cached + 1, current := c.current + 1, virtuals := c.virtuals + k)
    case Raises => c.(error := c.error + 1)
    case _ => c
  }

  class CookerParser {
    var parsed: nat
    var cached: nat
    var error: nat
    var current: nat
    var virtuals: nat
    var haveShutdown: bool
    var clean: bool
    const toparse: nat

    constructor (toparse: nat)
      ensures this.toparse == toparse && Account() == Counters(0, 0, 0, 0, 0) && !haveShutdown
    {
      this.toparse := toparse;
      parsed, cached, error, current, virtuals := 0, 0, 0, 0, 0;
      haveShutdown, clean := false, true;
    }

    function Account(): Counters
      reads this
    {
      Counters(parsed, cached, error, current, virtuals)
    }

    method Shutdown(isClean: bool)
      modifies this`haveShutdown, this`clean
      ensures toparse == 0 || old(haveShutdown) ==> haveShutdown == old(haveShutdown) && clean == old(clean)
      ensures toparse > 0 && !old(haveShutdown) ==> haveShutdown && clean == isClean
    {
      if toparse == 0 || haveShutdown {
        return;
      }
      haveShutdown, clean := true, isClean;
    }

    /** The result says whether the main loop should come back. */
    method ParseNext(f: Fetched) returns (more: bool)
      modifies this
      ensures Account() == Tally(old(Account()), f)
      ensures more <==> f.Recipe? || f.Nothing?
      ensures more ==> haveShutdown == old(haveShutdown) && clean == old(clean)
      ensures !more && toparse > 0 && !old(haveShutdown) ==> haveShutdown && clean == f.Stops?
    {
      match f {
        case Nothing => return true;
        case Stops =>
          Shutdown(true);
          return false;
        case Raises =>
          error := error + 1;
          Shutdown(false);
          return false;
        case Recipe(fromWorker, infos) =>
          current := current + 1;
          virtuals := virtuals + infos;
          if fromWorker {
            parsed := parsed + 1;
          } else {
            cached := cached + 1;
          }
          return true;
      }
    }
  }

  // ---- The protocol ----------------------------------------------------------------------

  datatype WorkerAt = Top | Popping | Parsing(job: Job) | Putting | Closing | Exited | Dead

  /** `buffer` is the part of the queue still inside the worker, before its feeder thread sends it. */
  datatype Worker = Worker(at: WorkerAt, jobs: seq<Job>, havejobs: bool, pending: seq<Msg>, buffer: seq<Msg>) {

    predicate Alive() {
      !at.Exited? && !at.Dead?
    }

    /** Every job this process still holds, or held when it died. */
    function Holdings(): seq<Job> {
      jobs + (if at.Parsing? then [at.job] else []) + JobsOf(pending) + JobsOf(buffer)
    }
  }

  function JobsOf(msgs: seq<Msg>): seq<Job> {
    seq(|msgs|, i requires 0 <= i < |msgs| => msgs[i].job)
  }

  /** Where the server is; `Halted`, `Incomplete` and `Finished` are the three ways parsing ends. */
  datatype ServerAt =
    | LoadingCached(left: seq<Job>)
    | Looping
    | Reaping(todo: seq<nat>)
    | Checking
    | Getting
    | Halted
    | Incomplete
    | Finished
    | Interrupted

  datatype Config = Config(fromcache: seq<Job>, willparse: seq<Job>, processes: nat)

  datatype State = State(workers: seq<Worker>, pipe: seq<Msg>, quit: bool,
                         server: ServerAt, alive: seq<nat>, empty: bool, count: Counters,
                         cachedOut: seq<Job>, parsedOut: seq<Job>, failed: seq<Job>)

  datatype Step =
    | LoopTop(w: nat)
    | Pop(w: nat)
    | Parse(w: nat, infos: Option<nat>)
    | Put(w: nat)
    | PutFull(w: nat)
    | Feed(w: nat)
    | Exit(w: nat)
    | Die(w: nat)
    | LoadCached(infos: Option<nat>)
    | StartParsing
    | LoopTest
    | Reap
    | CheckParsed
    | Get
    | Timeout
    | Interrupt
    | SetQuit

  /** There are never more processes than jobs; a thread setting of zero or below gives none at all. */
  predicate ValidConfig(c: Config) {
    c.processes <= |c.willparse|
  }

  /** Somebody is there to parse, if there is something to parse. */
  predicate Manned(c: Config) {
    c.willparse != [] ==> c.processes > 0
  }

  /** The jobs that are handed to some process. */
  function Dealt(c: Config): seq<Job> {
    if c.processes == 0 then [] else c.willparse
  }

  function Init(c: Config): State
    requires ValidConfig(c)
  {
    var chunks := if c.processes == 0 then [] else Slices(c.willparse, c.processes);
    State(seq(|chunks|, i requires 0 <= i < |chunks| => Worker(Top, chunks[i], true, [], [])), [], false,
          LoadingCached(c.fromcache), seq(|chunks|, i => i), false, Counters(0, 0, 0, 0, 0), [], [], [])
  }

  /** One step of worker `x`, with the message it sends to the queue, if any. */
  function WorkerStep(x: Worker, step: Step, quit: bool): Option<(Worker, seq<Msg>)> {
    match step
    case LoopTop(_) =>
      if !x.at.Top? then None
      else if quit || (!x.havejobs && x.pending == []) then Some((x.(at := Closing), []))
      else Some((x.(at := Popping), []))
    case Pop(_) =>
      if !x.at.Popping? then None
      else if x.jobs == [] then Some((x.(at := Putting, havejobs := false), []))
      else
        var n := |x.jobs| - 1;
        Some((x.(at := Parsing(x.jobs[n]), jobs := x.jobs[..n]), []))
    case Parse(_, infos) =>
      if !x.at.Parsing? then None
      else Some((x.(at := Putting, pending := x.pending + [Msg(x.at.job, infos)]), []))
    case Put(_) =>
      if !x.at.Putting? then None
      else if x.pending == [] then Some((x.(at := Top), []))
      else
        var n := |x.pending| - 1;
        Some((x.(at := Top, pending := x.pending[..n], buffer := x.buffer + [x.pending[n]]), []))
    case PutFull(_) =>
      if !x.at.Putting? || x.pending == [] then None else Some((x.(at := Top), []))
    case Feed(_) =>
      if !x.Alive() || x.buffer == [] then None
      else Some((x.(buffer := x.buffer[1..]), [x.buffer[0]]))
    case Exit(_) =>
      if !x.at.Closing? || x.buffer != [] then None else Some((x.(at := Exited), []))
    case Die(_) =>
      if !x.Alive() then None
      else
        // The job in hand dies with the process; it stays on the record of what was held.
        var jobs := if x.at.Parsing? then x.jobs + [x.at.job] else x.jobs;
        Some((x.(at := Dead, jobs := jobs), []))
    case _ => None
  }

  /** The server side: the generators under `self.results`, driven by `parse_next`. */
  function ServerStep(c: Config, s: State, step: Step): Option<State> {
    match step
    case LoadCached(infos) =>
      if !s.server.LoadingCached? || s.server.left == [] then None
      else
        match infos {
          case Some(k) =>
            Some(s.(server := LoadingCached(s.server.left[1..]), cachedOut := s.cachedOut + [s.server.left[0]],
                    count := Tally(s.count, Recipe(false, k))))
          case None => Some(s.(server := Halted, count := Tally(s.count, Raises)))
        }
    case StartParsing =>
      if s.server != LoadingCached([]) then None
      else Some(s.(server := if c.willparse == [] then Finished else Looping))
    case LoopTest =>
      if !s.server.Looping? then None
      else if s.alive != [] || !s.empty then Some(s.(server := Reaping(s.alive)))
      else if s.count.parsed >= |c.willparse| then Some(s.(server := Finished))
      else Some(s.(server := Incomplete, count := Tally(s.count, Raises)))
    case Reap =>
      if !s.server.Reaping? then None
      else if s.server.todo == [] then Some(s.(server := Checking))
      else
        var p := s.server.todo[0];
        var gone := p < |s.workers| && !s.workers[p].Alive();
        Some(s.(server := Reaping(s.server.todo[1..]), alive := if gone then Discard(s.alive, p) else s.alive))
    case CheckParsed =>
      if !s.server.Checking? then None
      else Some(s.(server := if s.count.parsed >= |c.willparse| then Finished else Getting))
    case Get =>
      if !s.server.Getting? || s.pipe == [] then None
      else
        var m := s.pipe[0];
        var s' := s.(pipe := s.pipe[1..], empty := false);
        match m.infos {
          case Some(k) =>
            Some(s'.(server := Looping, parsedOut := s.parsedOut + [m.job], count := Tally(s.count, Recipe(true, k))))
          case None => Some(s'.(server := Halted, failed := s.failed + [m.job], count := Tally(s.count, Raises)))
        }
    case Timeout =>
      if !s.server.Getting? || s.pipe != [] then None
      else Some(s.(server := Looping, empty := true, count := Tally(s.count, Nothing)))
    case Interrupt =>
      if Ended(s) then None else Some(s.(server := Interrupted))
    case SetQuit =>
      if Ended(s) then Some(s.(quit := true)) else None
    case _ => None
  }

  /** `list.remove` */
  function Discard(xs: seq<nat>, x: nat): (r: seq<nat>)
    ensures forall y | y in r :: y in xs
    ensures forall y | y in xs && y != x :: y in r
  {
    if xs == [] then [] else if xs[0] == x then xs[1..] else [xs[0]] + Discard(xs[1..], x)
  }

  predicate Ended(s: State) {
    s.server.Halted? || s.server.Incomplete? || s.server.Finished? || s.server.Interrupted?
  }

  predicate IsWorkerStep(step: Step) {
    step.LoopTop? || step.Pop? || step.Parse? || step.Put? || step.PutFull? || step.Feed? || step.Exit? || step.Die?
  }

  function Next(c: Config, s: State, step: Step): Option<State> {
    if !IsWorkerStep(step) then ServerStep(c, s, step)
    else if step.w >= |s.workers| then None
    else
      match WorkerStep(s.workers[step.w], step, s.quit)
      case None => None
      case Some((x, sent)) => Some(s.(workers := s.workers[step.w := x], pipe := s.pipe + sent))
  }

  /** Where an interleaving of steps leads, if every step is enabled when it is taken. */
  function Exec(c: Config, steps: seq<Step>): Option<State>
    requires ValidConfig(c)
  {
    if steps == [] then Some(Init(c))
    else
      match Exec(c, steps[..|steps| - 1])
      case None => None
      case Some(s) => Next(c, s, steps[|steps| - 1])
  }

  predicate Reaches(c: Config, steps: seq<Step>, s: State)
    requires ValidConfig(c)
  {
    Exec(c, steps) == Some(s)
  }

  // ---- Conservation: no job is lost or duplicated on its way --------------------------------

  function Held(workers: seq<Worker>): seq<Job> {
    if workers == [] then [] else workers[0].Holdings() + Held(workers[1..])
  }

  function Everything(s: State): seq<Job> {
    Held(s.workers) + (JobsOf(s.pipe) + (s.parsedOut + s.failed))
  }

  /** How often a message about `j` occurs. */
  function OccMsgs(msgs: seq<Msg>, j: Job): nat {
    if msgs == [] then 0 else (if msgs[0].job == j then 1 else 0) + OccMsgs(msgs[1..], j)
  }

  lemma {:induction false} OccJobsOf(msgs: seq<Msg>, j: Job)
    ensures Occ(JobsOf(msgs), j) == OccMsgs(msgs, j)
  {
    if msgs != [] {
      OccJobsOf(msgs[1..], j);
      assert JobsOf(msgs)[1..] == JobsOf(msgs[1..]);
    }
  }

  lemma {:induction false} OccMsgsConcat(a: seq<Msg>, b: seq<Msg>, j: Job)
    ensures OccMsgs(a + b, j) == OccMsgs(a, j) + OccMsgs(b, j)
  {
    if a == [] {
      assert a + b == b;
    } else {
      assert (a + b)[1..] == a[1..] + b;
      OccMsgsConcat(a[1..], b, j);
    }
  }

  lemma OccMsgsSnoc(msgs: seq<Msg>, m: Msg, j: Job)
    ensures OccMsgs(msgs + [m], j) == OccMsgs(msgs, j) + if m.job == j then 1 else 0
  {
    OccMsgsConcat(msgs, [m], j);
    assert [m][1..] == [];
  }

  lemma OccSnoc(jobs: seq<Job>, x: Job, j: Job)
    ensures Occ(jobs + [x], j) == Occ(jobs, j) + if x == j then 1 else 0
  {
    OccConcat(jobs, [x], j);
    assert [x][1..] == [];
  }

  /** How often a worker holds `j`. */
  function OccHeld(x: Worker, j: Job): nat {
    Occ(x.jobs, j) + (if x.at == Parsing(j) then 1 else 0) + OccMsgs(x.pending, j) + OccMsgs(x.buffer, j)
  }

  lemma OccParts(x: Worker, j: Job)
    ensures Occ(x.Holdings(), j) == OccHeld(x, j)
  {
    var hand := if x.at.Parsing? then [x.at.job] else [];
    OccConcat(x.jobs, hand, j);
    OccConcat(x.jobs + hand, JobsOf(x.pending), j);
    OccConcat(x.jobs + hand + JobsOf(x.pending), JobsOf(x.buffer), j);
    OccJobsOf(x.pending, j);
    OccJobsOf(x.buffer, j);
    assert Occ(hand, j) == if x.at == Parsing(j) then 1 else 0 by { if x.at.Parsing? { assert hand[1..] == []; } }
  }

  lemma OccEverything(s: State, j: Job)
    ensures Occ(Everything(s), j)
         == Occ(Held(s.workers), j) + OccMsgs(s.pipe, j) + Occ(s.parsedOut, j) + Occ(s.failed, j)
  {
    OccConcat(s.parsedOut, s.failed, j);
    OccConcat(JobsOf(s.pipe), s.parsedOut + s.failed, j);
    OccConcat(Held(s.workers), JobsOf(s.pipe) + (s.parsedOut + s.failed), j);
    OccJobsOf(s.pipe, j);
  }

  lemma {:induction false} HeldUpdate(workers: seq<Worker>, i: nat, x: Worker, j: Job)
    requires i < |workers|
    ensures Occ(Held(workers[i := x]), j) + Occ(workers[i].Holdings(), j)
            == Occ(Held(workers), j) + Occ(x.Holdings(), j)
  {
    var workers' := workers[i := x];
    OccConcat(workers[0].Holdings(), Held(workers[1..]), j);
    OccConcat(workers'[0].Holdings(), Held(workers'[1..]), j);
    if i > 0 {
      HeldUpdate(workers[1..], i - 1, x, j);
      assert workers'[1..] == workers[1..][i - 1 := x];
    } else {
      assert workers'[1..] == workers[1..];
    }
  }

  /** A worker's step only moves jobs between its own places and the queue. */
  lemma WorkerConserves(x: Worker, step: Step, quit: bool, j: Job)
    requires WorkerStep(x, step, quit).Some?
    ensures var (x', sent) := WorkerStep(x, step, quit).value; OccHeld(x', j) + OccMsgs(sent, j) == OccHeld(x, j)
  {
    if step.Pop? && x.jobs != [] {
      var n := |x.jobs| - 1;
      assert x.jobs == x.jobs[..n] + [x.jobs[n]];
      OccSnoc(x.jobs[..n], x.jobs[n], j);
    } else if step.Parse? {
      OccMsgsSnoc(x.pending, Msg(x.at.job, step.infos), j);
    } else if step.Put? && x.pending != [] {
      var n := |x.pending| - 1;
      assert x.pending == x.pending[..n] + [x.pending[n]];
      OccMsgsSnoc(x.pending[..n], x.pending[n], j);
      OccMsgsSnoc(x.buffer, x.pending[n], j);
    } else if step.Feed? {
      assert [x.buffer[0]][1..] == [];
    } else if step.Die? && x.at.Parsing? {
      OccSnoc(x.jobs, x.at.job, j);
    }
  }

  lemma WorkersConserve(c: Config, s: State, step: Step, j: Job)
    requires Next(c, s, step).Some? && IsWorkerStep(step)
    ensures var s' := Next(c, s, step).value;
            Occ(Held(s'.workers), j) + OccMsgs(s'.pipe, j) == Occ(Held(s.workers), j) + OccMsgs(s.pipe, j)
  {
    var x := s.workers[step.w];
    var (x', sent) := WorkerStep(x, step, s.quit).value;
    WorkerConserves(x, step, s.quit, j);
    OccParts(x, j);
    OccParts(x', j);
    HeldUpdate(s.workers, step.w, x', j);
    OccMsgsConcat(s.pipe, sent, j);
  }

  lemma ServerConserves(c: Config, s: State, step: Step, j: Job)
    requires ServerStep(c, s, step).Some?
    ensures var s' := ServerStep(c, s, step).value;
            && s'.workers == s.workers
            && OccMsgs(s'.pipe, j) + Occ(s'.parsedOut, j) + Occ(s'.failed, j)
            == OccMsgs(s.pipe, j) + Occ(s.parsedOut, j) + Occ(s.failed, j)
  {
    if step.Get? {
      OccSnoc(s.parsedOut, s.pipe[0].job, j);
      OccSnoc(s.failed, s.pipe[0].job, j);
    }
  }

  lemma StepConserves(c: Config, s: State, step: Step, j: Job)
    requires Next(c, s, step).Some?
    ensures Occ(Everything(Next(c, s, step).value), j) == Occ(Everything(s), j)
  {
    OccEverything(s, j);
    OccEverything(Next(c, s, step).value, j);
    if IsWorkerStep(step) {
      WorkersConserve(c, s, step, j);
    } else {
      ServerConserves(c, s, step, j);
    }
  }

  // ---- The invariant ---------------------------------------------------------------------

  ghost predicate WorkerOk(x: Worker, quit: bool) {
    && (!x.havejobs ==> x.jobs == [] || x.at.Dead?)
    && (x.at.Parsing? ==> x.havejobs)
    && (!quit && (x.at.Closing? || x.at.Exited?) ==> x.jobs == [] && x.pending == [])
    && (x.at.Exited? ==> x.buffer == [])
  }

  /** Every process not in the server's list has ended. */
  ghost predicate Reaped(s: State) {
    forall i | 0 <= i < |s.workers| && i !in s.alive :: !s.workers[i].Alive()
  }

  /** Each job that was dealt is in exactly one place, as often as it was in the work list. */
  ghost predicate Conserved(c: Config, s: State) {
    forall j :: Occ(Everything(s), j) == Occ(Dealt(c), j)
  }

  ghost predicate Inv(c: Config, s: State) {
    && (forall i | 0 <= i < |s.workers| :: WorkerOk(s.workers[i], s.quit))
    && Reaped(s)
    && (s.quit ==> Ended(s))
    && s.count.parsed == |s.parsedOut| && s.count.cached == |s.cachedOut|
    && s.count.current == s.count.parsed + s.count.cached
    && (s.count.error == 0 ==> s.failed == [] && !s.server.Halted? && !s.server.Incomplete?)
    && s.count.error <= 1 && (!Ended(s) ==> s.count.error == 0)
    && (if s.server.LoadingCached? then s.cachedOut + s.server.left == c.fromcache
        else s.server.Halted? || s.server.Interrupted? || s.cachedOut == c.fromcache)
    && (s.server.LoadingCached? ==> s.parsedOut == [] && !s.empty)
    && (s.server.Looping? && s.empty && s.alive == [] ==> s.pipe == [])
    && (s.server.Getting? ==> s.count.parsed < |c.willparse|)
    && (s.server.Finished? ==> |s.parsedOut| >= |c.willparse| && s.count.error == 0)
    && (s.server.Incomplete? ==> |s.parsedOut| < |c.willparse| && s.alive == [] && s.pipe == [] && s.failed == [])
  }

  lemma {:induction false} HeldAtStart(workers: seq<Worker>, chunks: seq<seq<Job>>)
    requires |workers| == |chunks|
    requires forall i | 0 <= i < |workers| :: workers[i] == Worker(Top, chunks[i], true, [], [])
    ensures Held(workers) == Flat(chunks)
  {
    if workers != [] {
      HeldAtStart(workers[1..], chunks[1..]);
      assert workers[0].Holdings() == chunks[0];
    }
  }

  lemma InitInv(c: Config)
    requires ValidConfig(c)
    ensures Inv(c, Init(c)) && Conserved(c, Init(c))
  {
    var s := Init(c);
    var chunks := if c.processes == 0 then [] else Slices(c.willparse, c.processes);
    HeldAtStart(s.workers, chunks);
    forall j ensures Occ(Everything(s), j) == Occ(Dealt(c), j) {
      if c.processes > 0 {
        SlicesPartition(c.willparse, c.processes, j);
      }
      OccEverything(s, j);
    }
    forall i | 0 <= i < |s.workers| ensures i in s.alive {
      assert s.alive[i] == i;
    }
  }

  lemma WorkerStepOk(x: Worker, step: Step, quit: bool)
    requires WorkerOk(x, quit) && WorkerStep(x, step, quit).Some?
    ensures WorkerOk(WorkerStep(x, step, quit).value.0, quit)
    ensures !x.Alive() ==> !WorkerStep(x, step, quit).value.0.Alive() && WorkerStep(x, step, quit).value.1 == []
  {
  }

  lemma WorkersKeepInv(c: Config, s: State, step: Step)
    requires Inv(c, s) && IsWorkerStep(step) && Next(c, s, step).Some?
    ensures Inv(c, Next(c, s, step).value)
  {
    WorkerStepOk(s.workers[step.w], step, s.quit);
  }

  lemma ServerKeepsInv(c: Config, s: State, step: Step)
    requires Inv(c, s) && ServerStep(c, s, step).Some?
    ensures Inv(c, ServerStep(c, s, step).value)
  {
    if step.LoadCached? {
      assert s.cachedOut + s.server.left == (s.cachedOut + [s.server.left[0]]) + s.server.left[1..];
    }
  }

  lemma StepInv(c: Config, s: State, step: Step)
    requires Inv(c, s) && Next(c, s, step).Some?
    ensures Inv(c, Next(c, s, step).value)
  {
    if IsWorkerStep(step) {
      WorkersKeepInv(c, s, step);
    } else {
      ServerKeepsInv(c, s, step);
    }
  }

  lemma {:induction false} RunInv(c: Config, steps: seq<Step>, s: State)
    requires ValidConfig(c) && Reaches(c, steps, s)
    ensures Inv(c, s) && Conserved(c, s)
  {
    if steps == [] {
      InitInv(c);
    } else {
      var s0 := Exec(c, steps[..|steps| - 1]).value;
      RunInv(c, steps[..|steps| - 1], s0);
      StepInv(c, s0, steps[|steps| - 1]);
      forall j ensures Occ(Everything(s), j) == Occ(Dealt(c), j) {
        StepConserves(c, s0, steps[|steps| - 1], j);
      }
    }
  }

  // ---- What every run promises -----------------------------------------------------------

  predicate NoRepeats(jobs: seq<Job>) {
    jobs != [] ==> jobs[0] !in jobs[1..] && NoRepeats(jobs[1..])
  }

  lemma {:induction false} OccIn(jobs: seq<Job>, j: Job)
    ensures Occ(jobs, j) > 0 <==> j in jobs
  {
    if jobs != [] {
      OccIn(jobs[1..], j);
    }
  }

  lemma {:induction false} NoRepeatsOcc(jobs: seq<Job>, j: Job)
    requires NoRepeats(jobs)
    ensures Occ(jobs, j) <= 1
  {
    if jobs != [] {
      NoRepeatsOcc(jobs[1..], j);
      OccIn(jobs[1..], j);
    }
  }

  lemma {:induction false} OccNoRepeats(jobs: seq<Job>)
    requires forall j :: Occ(jobs, j) <= 1
    ensures NoRepeats(jobs)
  {
    if jobs != [] {
      forall j ensures Occ(jobs[1..], j) <= 1 {
        assert Occ(jobs, j) <= 1;
      }
      OccNoRepeats(jobs[1..]);
      OccIn(jobs[1..], jobs[0]);
      assert Occ(jobs, jobs[0]) <= 1;
    }
  }

  /** Every recipe result is delivered at most once, in every reachable state of every interleaving. */
  lemma DeliveredAtMostOnce(c: Config, steps: seq<Step>, s: State)
    requires ValidConfig(c) && Reaches(c, steps, s) && NoRepeats(c.willparse)
    ensures NoRepeats(s.parsedOut) && forall j | j in s.parsedOut :: j in c.willparse
  {
    RunInv(c, steps, s);
    forall j ensures Occ(s.parsedOut, j) <= Occ(c.willparse, j) {
      OccEverything(s, j);
      assert Occ(Everything(s), j) == Occ(Dealt(c), j);
    }
    AtMostOnce(s.parsedOut, c.willparse);
  }

  lemma AtMostOnce(out: seq<Job>, jobs: seq<Job>)
    requires NoRepeats(jobs) && forall j :: Occ(out, j) <= Occ(jobs, j)
    ensures NoRepeats(out) && forall j | j in out :: j in jobs
  {
    forall j ensures Occ(out, j) <= 1 {
      NoRepeatsOcc(jobs, j);
    }
    OccNoRepeats(out);
    forall j | j in out ensures j in jobs {
      OccIn(out, j);
      OccIn(jobs, j);
    }
  }

  /** Equal counts mean equal lengths. */
  lemma SameMultiset(a: seq<Job>, b: seq<Job>)
    requires forall j :: Occ(a, j) == Occ(b, j)
    ensures multiset(a) == multiset(b) && |a| == |b|
  {
    forall j ensures multiset(a)[j] == multiset(b)[j] {
      OccMultiset(a, j);
      OccMultiset(b, j);
    }
    assert |multiset(a)| == |a| && |multiset(b)| == |b|;
  }

  lemma Whereabouts(c: Config, s: State)
    requires Conserved(c, s)
    ensures multiset(Everything(s)) == multiset(Dealt(c))
    ensures |Dealt(c)| == |Held(s.workers)| + |s.pipe| + |s.parsedOut| + |s.failed|
  {
    SameMultiset(Everything(s), Dealt(c));
  }

  /** Every recipe was delivered exactly once, the cached ones in order, and all are counted. */
  predicate AllDelivered(c: Config, s: State) {
    && multiset(s.parsedOut) == multiset(c.willparse) && s.cachedOut == c.fromcache
    && s.count.parsed == |c.willparse| && s.count.cached == |c.fromcache|
    && s.count.current == |c.willparse| + |c.fromcache|
  }

  /** Parsing that ends without being interrupted has no error iff it finished, and then it delivered everything. */
  lemma CleanFinish(c: Config, steps: seq<Step>, s: State)
    requires ValidConfig(c) && Reaches(c, steps, s) && Ended(s) && !s.server.Interrupted?
    ensures s.count.error == 0 <==> s.server.Finished?
    ensures s.count.error == 0 ==> AllDelivered(c, s)
  {
    RunInv(c, steps, s);
    Whereabouts(c, s);
    if s.server.Finished? {
      assert Everything(s) == s.parsedOut;
    }
  }

  /** What `next(self.results)` hands to `parse_next` in a step of the server, if the step gets that far. */
  function FetchedBy(s: State, s': State, step: Step): Option<Fetched> {
    if s'.server.Finished? then Some(Stops)
    else if s'.server.Halted? || s'.server.Incomplete? then Some(Raises)
    else if step.LoadCached? && step.infos.Some? then Some(Recipe(false, step.infos.value))
    else if step.Get? && s.pipe != [] && s.pipe[0].infos.Some? then Some(Recipe(true, s.pipe[0].infos.value))
    else if step.Timeout? then Some(Nothing)
    else None
  }

  /** Each server step counts as `parse_next` does, and the run is over when `parse_next` says so. */
  lemma StepIsFetch(c: Config, s: State, step: Step)
    requires ServerStep(c, s, step).Some? && !Ended(s) && !step.Interrupt?
    ensures var s' := ServerStep(c, s, step).value;
            var f := FetchedBy(s, s', step);
            && s'.count == (match f case Some(g) => Tally(s.count, g) case None => s.count)
            && (Ended(s') <==> f.Some? && !f.value.Recipe? && !f.value.Nothing?)
  {
  }

  lemma {:induction false} HolderExists(workers: seq<Worker>) returns (i: nat)
    requires Held(workers) != []
    ensures i < |workers| && workers[i].Holdings() != []
  {
    if workers[0].Holdings() != [] {
      i := 0;
    } else {
      i := HolderExists(workers[1..]);
      i := i + 1;
    }
  }

  /** "Not all recipes parsed" is raised only when a worker died while it still held a recipe, or there was none. */
  lemma IncompleteMeansDeath(c: Config, steps: seq<Step>, s: State)
    requires ValidConfig(c) && Reaches(c, steps, s) && s.server.Incomplete? && !s.quit
    ensures !Manned(c) || exists i | 0 <= i < |s.workers| :: s.workers[i].at.Dead? && s.workers[i].Holdings() != []
  {
    RunInv(c, steps, s);
    Whereabouts(c, s);
    if Manned(c) {
      var i := HolderExists(s.workers);
      assert WorkerOk(s.workers[i], s.quit);
    }
  }

  predicate Deathless(steps: seq<Step>) {
    forall st | st in steps :: !st.Die?
  }

  predicate NobodyDead(s: State) {
    forall i | 0 <= i < |s.workers| :: !s.workers[i].at.Dead?
  }

  lemma DeathStep(c: Config, s: State, step: Step)
    requires NobodyDead(s) && Next(c, s, step).Some? && !step.Die?
    ensures NobodyDead(Next(c, s, step).value)
  {
    if IsWorkerStep(step) {
      var x := WorkerStep(s.workers[step.w], step, s.quit).value.0;
      assert !s.workers[step.w].at.Dead? && !x.at.Dead?;
    }
  }

  lemma {:induction false} NoDeathNoDead(c: Config, steps: seq<Step>, s: State)
    requires ValidConfig(c) && Reaches(c, steps, s) && Deathless(steps)
    ensures NobodyDead(s)
  {
    if steps != [] {
      var front, last := steps[..|steps| - 1], steps[|steps| - 1];
      assert last in steps && forall st | st in front :: st in steps;
      NoDeathNoDead(c, front, Exec(c, front).value);
      DeathStep(c, Exec(c, front).value, last);
    }
  }

  lemma {:induction false} DeathNeeded(c: Config, steps: seq<Step>, s: State)
    requires ValidConfig(c) && Manned(c) && Reaches(c, steps, s) && Deathless(steps)
    ensures !s.server.Incomplete?
  {
    if steps != [] {
      var front, last := steps[..|steps| - 1], steps[|steps| - 1];
      var s0 := Exec(c, front).value;
      assert forall st | st in front :: st in steps;
      DeathNeeded(c, front, s0);
      RunInv(c, front, s0);
      if s.server.Incomplete? {
        assert last == LoopTest && !s.quit;
        IncompleteMeansDeath(c, steps, s);
        NoDeathNoDead(c, steps, s);
      }
    }
  }

  lemma Extend(c: Config, steps: seq<Step>, s: State, step: Step, s': State)
    requires ValidConfig(c) && Reaches(c, steps, s) && Next(c, s, step) == Some(s')
    ensures Reaches(c, steps + [step], s')
  {
    assert (steps + [step])[..|steps|] == steps;
  }

  /** The cached recipes can be loaded from any point of loading on. */
  lemma {:induction false} LoadAll(c: Config, steps: seq<Step>, s: State) returns (all: seq<Step>, s': State)
    requires ValidConfig(c) && Reaches(c, steps, s) && Deathless(steps) && s.server.LoadingCached?
    ensures Reaches(c, all, s') && Deathless(all) && s'.server == LoadingCached([])
    ensures s'.workers == s.workers && s'.alive == s.alive && s'.pipe == s.pipe && s'.empty == s.empty
    ensures s'.count.parsed == s.count.parsed
    decreases |if s.server.LoadingCached? then s.server.left else []|
  {
    if s.server.left == [] {
      all, s' := steps, s;
    } else {
      var next := ServerStep(c, s, LoadCached(Some(0))).value;
      Extend(c, steps, s, LoadCached(Some(0)), next);
      all, s' := LoadAll(c, steps + [LoadCached(Some(0))], next);
    }
  }

  /** Without a process the first empty look at the queue ends the loop, and the error is raised. */
  lemma UnmannedFails(c: Config) returns (steps: seq<Step>, s: State)
    requires ValidConfig(c) && !Manned(c)
    ensures Reaches(c, steps, s) && Deathless(steps) && s.server.Incomplete?
  {
    steps, s := LoadAll(c, [], Init(c));
    var rest := [StartParsing, LoopTest, Reap, CheckParsed, Timeout, LoopTest];
    for k := 0 to |rest|
      invariant Reaches(c, steps, s) && Deathless(steps)
      invariant s.workers == [] && s.alive == [] && s.pipe == [] && s.count.parsed == 0
      invariant s.empty == (k > 4)
      invariant s.server == [LoadingCached([]), Looping, Reaping([]), Checking, Getting, Looping, Incomplete][k]
    {
      var s' := ServerStep(c, s, rest[k]).value;
      Extend(c, steps, s, rest[k], s');
      steps, s := steps + [rest[k]], s';
    }
  }

  /** Without a process nothing is ever parsed and parsing never finishes. */
  lemma UnmannedParsesNothing(c: Config, steps: seq<Step>, s: State)
    requires ValidConfig(c) && !Manned(c) && Reaches(c, steps, s)
    ensures s.parsedOut == [] && !s.server.Finished?
  {
    RunInv(c, steps, s);
    Whereabouts(c, s);
  }

  /** "Not all recipes parsed" can be raised without a death exactly if recipes are to be parsed by no process. */
  lemma DeathlessErrorExactly(c: Config)
    requires ValidConfig(c)
    ensures (exists steps, s :: Reaches(c, steps, s) && Deathless(steps) && s.server.Incomplete?) <==> !Manned(c)
  {
    if Manned(c) {
      forall steps, s | Reaches(c, steps, s) && Deathless(steps) ensures !s.server.Incomplete? {
        DeathNeeded(c, steps, s);
      }
    } else {
      var steps, s := UnmannedFails(c);
    }
  }

  // ---- The account of a run ---------------------------------------------------------------

  function TallyAll(c: Counters, fs: seq<Fetched>): Counters {
    if fs == [] then c else Tally(TallyAll(c, fs[..|fs| - 1]), fs[|fs| - 1])
  }

  /** How many of the fetched results are recipes parsed, recipes loaded, and exceptions. */
  function HowMany(fs: seq<Fetched>, kind: Fetched -> bool): nat {
    if fs == [] then 0 else HowMany(fs[..|fs| - 1], kind) + if kind(fs[|fs| - 1]) then 1 else 0
  }

  /** The infos of all recipes. */
  function InfosOf(fs: seq<Fetched>): nat {
    if fs == [] then 0
    else InfosOf(fs[..|fs| - 1]) + if fs[|fs| - 1].Recipe? then fs[|fs| - 1].infos else 0
  }

  /**
   Whatever is fetched in whatever order: each recipe counts as parsed or as cached and as current, its infos as
   virtual recipes, an exception as an error, and nothing else counts.
   */
  lemma {:induction false} AccountIs(fs: seq<Fetched>)
    ensures var c := TallyAll(Counters(0, 0, 0, 0, 0), fs);
            && c.parsed == HowMany(fs, (f: Fetched) => f.Recipe? && f.fromWorker)
            && c.cached == HowMany(fs, (f: Fetched) => f.Recipe? && !f.fromWorker)
            && c.current == HowMany(fs, (f: Fetched) => f.Recipe?)
            && c.error == HowMany(fs, (f: Fetched) => f.Raises?)
            && c.virtuals == InfosOf(fs)
  {
    if fs != [] {
      AccountIs(fs[..|fs| - 1]);
    }
  }

  /** What the server fetches in the course of a run. */
  function FetchedIn(c: Config, steps: seq<Step>): seq<Fetched>
    requires ValidConfig(c)
  {
    if steps == [] then []
    else
      var front := FetchedIn(c, steps[..|steps| - 1]);
      match (Exec(c, steps[..|steps| - 1]), Exec(c, steps))
      case (Some(s), Some(s')) =>
        var step := steps[|steps| - 1];
        if IsWorkerStep(step) || step.Interrupt? || Ended(s) then front
        else
          (match FetchedBy(s, s', step)
           case Some(f) => front + [f]
           case None => front)
      case _ => front
  }

  lemma FetchedLast(c: Config, steps: seq<Step>, s0: State, s: State)
    requires ValidConfig(c) && steps != [] && Exec(c, steps[..|steps| - 1]) == Some(s0) && Reaches(c, steps, s)
    ensures var front, step := FetchedIn(c, steps[..|steps| - 1]), steps[|steps| - 1];
            FetchedIn(c, steps)
            == if IsWorkerStep(step) || step.Interrupt? || Ended(s0) then front
               else front + (match FetchedBy(s0, s, step) case Some(f) => [f] case None => [])
  {
    var front := FetchedIn(c, steps[..|steps| - 1]);
    assert front + [] == front;
  }

  lemma TallyOneMore(c: Counters, fs: seq<Fetched>, f: Fetched)
    ensures TallyAll(c, fs + [f]) == Tally(TallyAll(c, fs), f) && fs + [] == fs
  {
    assert (fs + [f])[..|fs|] == fs;
  }

  /** A step that fetches nothing leaves the account as it is. */
  lemma CountsStay(c: Config, s: State, step: Step)
    requires Next(c, s, step).Some? && (IsWorkerStep(step) || step.Interrupt? || Ended(s))
    ensures Next(c, s, step).value.count == s.count
  {
  }

  /** So the counters of every reachable state are the account of what was fetched on the way there. */
  lemma {:induction false} CountersAreAccount(c: Config, steps: seq<Step>, s: State)
    requires ValidConfig(c) && Reaches(c, steps, s)
    ensures s.count == TallyAll(Counters(0, 0, 0, 0, 0), FetchedIn(c, steps))
  {
    if steps != [] {
      var front, step := steps[..|steps| - 1], steps[|steps| - 1];
      var s0 := Exec(c, front).value;
      CountersAreAccount(c, front, s0);
      FetchedLast(c, steps, s0, s);
      if IsWorkerStep(step) || step.Interrupt? || Ended(s0) {
        CountsStay(c, s0, step);
      } else {
        StepIsFetch(c, s0, step);
        var f := FetchedBy(s0, s, step);
        TallyOneMore(Counters(0, 0, 0, 0, 0), FetchedIn(c, front), f.GetOr(Nothing));
      }
    }
  }

  // ---- Telling the workers to quit ----------------------------------------------------------

  /** How far a worker that is told to quit is from its end. */
  function ToQuit(x: Worker): nat {
    |x.buffer| + match x.at
                 case Popping => 7
                 case Parsing(_) => 6
                 case Putting => 5
                 case Top => 3
                 case Closing => 2
                 case _ => 0
  }

  /**
   Once the workers are told to quit, every step of a worker brings it closer to its end, timed-out puts included;
   between two jobs it takes no further one.
   */
  lemma QuitStops(x: Worker, step: Step)
    requires WorkerStep(x, step, true).Some?
    ensures ToQuit(WorkerStep(x, step, true).value.0) < ToQuit(x)
    ensures x.at.Top? && step.LoopTop? ==> WorkerStep(x, step, true).value.0 == x.(at := Closing)
  {
  }

  /** A worker that has something to do and is not told to quit goes on; one that has nothing left ends. */
  lemma LoopTopExactly(x: Worker, w: nat, quit: bool)
    requires x.at.Top?
    ensures var y := WorkerStep(x, LoopTop(w), quit).value.0;
            (y.at.Closing? <==> quit || (!x.havejobs && x.pending == [])) && (y.at.Popping? <==> !y.at.Closing?)
            && y == x.(at := y.at)
  {
  }
}
