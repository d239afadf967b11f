/**
 The parser protocol does not get stuck: from every reachable state in which nothing has gone wrong,
 some continuation ends cleanly. Together with `RecipeParser.CleanFinish` this delivers every recipe.
 */
module ParserProgress {
  import opened Prelude
  import opened RecipeParser

  predicate Good(msgs: seq<Msg>) {
    forall m | m in msgs :: m.infos.Some?
  }

  predicate WorkerHealthy(x: Worker) {
    !x.at.Dead? && Good(x.pending) && Good(x.buffer)
  }

  /** Parsing goes on, no worker died, and no parse that failed is on its way. */
  predicate Healthy(s: State) {
    !Ended(s) && Good(s.pipe) && forall i | 0 <= i < |s.workers| :: WorkerHealthy(s.workers[i])
  }

  // ---- A worker can always go on ---------------------------------------------------------------

  /** A bound on the steps a worker still takes, if its puts do not time out. */
  function Left(x: Worker): nat {
    var at := match x.at
      case Top => 3
      case Popping => if x.havejobs || x.pending != [] then 2 else 5
      case Parsing(_) => 8
      case Putting => if x.pending == [] then 4 else 1
      case Closing => 1
      case _ => 0;
    10 * |x.jobs| + 4 * |x.pending| + |x.buffer| + (if x.havejobs then 5 else 0) + at
  }

  function WorkerNext(x: Worker, w: nat): Step
    requires x.Alive()
  {
    match x.at
    case Top => LoopTop(w)
    case Popping => Pop(w)
    case Parsing(_) => Parse(w, Some(0))
    case Putting => Put(w)
    case Closing => if x.buffer == [] then Exit(w) else Feed(w)
  }

  lemma WorkerProgress(x: Worker, w: nat)
    requires WorkerHealthy(x) && x.Alive()
    ensures var r := WorkerStep(x, WorkerNext(x, w), false);
            r.Some? && WorkerHealthy(r.value.0) && Good(r.value.1) && Left(r.value.0) < Left(x)
  {
  }

  function Total(workers: seq<Worker>): nat {
    if workers == [] then 0 else Left(workers[0]) + Total(workers[1..])
  }

  lemma {:induction false} TotalUpdate(workers: seq<Worker>, i: nat, x: Worker)
    requires i < |workers|
    ensures Total(workers[i := x]) == Total(workers) - Left(workers[i]) + Left(x)
    ensures Total(workers) >= Left(workers[i])
  {
    var after := workers[i := x];
    if i > 0 {
      TotalUpdate(workers[1..], i - 1, x);
      assert after[1..] == workers[1..][i - 1 := x];
    } else {
      assert after[1..] == workers[1..];
    }
  }

  // ---- When all workers have ended, the server can go on ---------------------------------------

  function ServerNext(s: State): Step
    requires !Ended(s)
  {
    match s.server
    case LoadingCached(left) => if left == [] then StartParsing else LoadCached(Some(0))
    case Looping => LoopTest
    case Reaping(_) => Reap
    case Checking => CheckParsed
    case Getting => Get
  }

  function Loading(s: State): nat {
    if s.server.LoadingCached? then |s.server.left| + 1 else 0
  }

  /** Where in its loop the server is. */
  function Position(s: State): nat {
    match s.server
    case Looping => |s.alive| + 4
    case Reaping(todo) => |todo| + 3
    case Checking => 2
    case Getting => 1
    case _ => 0
  }

  predicate Fewer(s': State, s: State) {
    || Loading(s') < Loading(s)
    || (Loading(s') == Loading(s) && |s'.pipe| < |s.pipe|)
    || (Loading(s') == Loading(s) && |s'.pipe| == |s.pipe| && Position(s') < Position(s))
  }

  ghost predicate AllExited(s: State) {
    forall i | 0 <= i < |s.workers| :: s.workers[i].at.Exited?
  }

  lemma {:induction false} NothingHeld(workers: seq<Worker>)
    requires forall i | 0 <= i < |workers| :: WorkerOk(workers[i], false) && workers[i].at.Exited?
    ensures Held(workers) == []
  {
    if workers != [] {
      assert workers[0].Holdings() == [];
      NothingHeld(workers[1..]);
    }
  }

  lemma ServerStepDown(c: Config, s: State)
    requires Healthy(s) && (s.server.Getting? ==> s.pipe != [])
    requires s.server.Looping? && s.alive == [] && s.empty ==> s.count.parsed >= |c.willparse|
    ensures var r := ServerStep(c, s, ServerNext(s));
            r.Some? && r.value.workers == s.workers
            && (r.value.server.Finished? || (Healthy(r.value) && Fewer(r.value, s)))
  {
  }

  /** Then every recipe is in the queue or was delivered, so the server never waits for one in vain. */
  lemma ServerProgress(c: Config, s: State)
    requires Inv(c, s) && Conserved(c, s) && Manned(c) && Healthy(s) && AllExited(s)
    ensures var r := ServerStep(c, s, ServerNext(s));
            r.Some? && r.value.workers == s.workers
            && (r.value.server.Finished? || (Healthy(r.value) && Fewer(r.value, s)))
  {
    NothingHeld(s.workers);
    Whereabouts(c, s);
    ServerStepDown(c, s);
  }

  // ---- The run ------------------------------------------------------------------------------------

  /** One step of some worker that has not ended. */
  lemma SomeWorkerProgress(c: Config, s: State, i: nat) returns (step: Step, s': State)
    requires Healthy(s) && !s.quit && i < |s.workers| && s.workers[i].Alive()
    ensures Next(c, s, step) == Some(s') && !step.Die? && Healthy(s') && Total(s'.workers) < Total(s.workers)
  {
    var x := s.workers[i];
    step := WorkerNext(x, i);
    WorkerProgress(x, i);
    var (x', sent) := WorkerStep(x, step, false).value;
    TotalUpdate(s.workers, i, x');
    s' := s.(workers := s.workers[i := x'], pipe := s.pipe + sent);
  }

  predicate Smaller(s': State, s: State) {
    Total(s'.workers) < Total(s.workers) || (Total(s'.workers) == Total(s.workers) && Fewer(s', s))
  }

  lemma OneStep(c: Config, steps: seq<Step>, s: State) returns (step: Step, s': State)
    requires ValidConfig(c) && Manned(c) && Reaches(c, steps, s) && Healthy(s)
    ensures Reaches(c, steps + [step], s') && !step.Die? && (s'.server.Finished? || (Healthy(s') && Smaller(s', s)))
  {
    RunInv(c, steps, s);
    if i :| 0 <= i < |s.workers| && s.workers[i].Alive() {
      step, s' := SomeWorkerProgress(c, s, i);
    } else {
      assert AllExited(s);
      ServerProgress(c, s);
      step := ServerNext(s);
      s' := ServerStep(c, s, step).value;
    }
    Extend(c, steps, s, step, s');
  }

  /** From every reachable healthy state a clean finish can be reached, without a death on the way. */
  lemma {:induction false} CanFinish(c: Config, steps: seq<Step>, s: State) returns (more: seq<Step>, f: State)
    requires ValidConfig(c) && Manned(c) && Reaches(c, steps, s) && Healthy(s)
    ensures Reaches(c, steps + more, f) && f.server.Finished? && Deathless(more)
    decreases Total(s.workers), Loading(s), |s.pipe|, Position(s)
  {
    var step, s' := OneStep(c, steps, s);
    if s'.server.Finished? {
      more, f := [step], s';
    } else {
      var rest;
      rest, f := CanFinish(c, steps + [step], s');
      more := [step] + rest;
      assert steps + more == steps + [step] + rest;
    }
  }

  /** A configuration has a run that delivers all its recipes exactly if somebody is there to parse them. */
  lemma CleanRunExists(c: Config)
    requires ValidConfig(c)
    ensures (exists steps, s :: Reaches(c, steps, s) && s.server.Finished? && AllDelivered(c, s)) <==> Manned(c)
  {
    if Manned(c) {
      var steps, f := CanFinish(c, [], Init(c));
      assert [] + steps == steps;
      CleanFinish(c, steps, f);
    } else {
      forall steps, s | Reaches(c, steps, s) ensures !s.server.Finished? {
        UnmannedParsesNothing(c, steps, s);
      }
    }
  }
}
