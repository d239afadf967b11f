/**
 `tasksbetween`: a depth-first walk that records every task on a chain from the start task to the
 end task, and stops fatally when a chain closes on itself.
 */
module TaskChain {

  type Task = string

  /** The recipe's tasks and their `deps` flags. */
  datatype Graph = Graph(tasks: seq<Task>, deps: map<Task, seq<Task>>) {

    /** Every task has a `deps` flag, as `addtask` sets it. */
    predicate Valid() {
      forall t | t in tasks :: t in deps
    }

    /** The walk steps from `a` to `b`. */
    predicate Edge(a: Task, b: Task)
      requires Valid()
    {
      b in tasks && b != a && a in deps[b]
    }

    ghost predicate IsWalk(q: seq<Task>)
      requires Valid()
    {
      q != [] && forall k | 0 <= k < |q| - 1 :: Edge(q[k], q[k + 1])
    }

    /** A walk from `task` that does not go on once it has met `end`. */
    ghost predicate Stops(q: seq<Task>, task: Task, end: Task)
      requires Valid()
    {
      IsWalk(q) && q[0] == task && forall k | 0 <= k < |q| - 1 :: q[k] != end
    }

    /** Such a walk that does meet `end`. */
    ghost predicate Arrives(q: seq<Task>, task: Task, end: Task)
      requires Valid()
    {
      Stops(q, task, end) && q[|q| - 1] == end
    }

    /** Such a walk that closes on itself or on the chain before it. */
    ghost predicate Closes(q: seq<Task>, chain: seq<Task>, task: Task, end: Task)
      requires Valid()
    {
      Stops(q, task, end) && q[|q| - 1] in chain + q[..|q| - 1]
    }

    ghost predicate HasOther(task: Task) {
      exists t | t in tasks :: t != task
    }

    ghost predicate Acyclic()
      requires Valid()
    {
      forall q | IsWalk(q) && |q| > 1 :: q[0] != q[|q| - 1]
    }
  }

  predicate NoDups(s: seq<Task>) {
    forall i, j | 0 <= i < j < |s| :: s[i] != s[j]
  }

  function Elements(s: seq<Task>): set<Task> {
    set t | t in s
  }

  // ---- Walks step by step ----------------------------------------------------------------

  lemma WalkCons(g: Graph, task: Task, other: Task, q: seq<Task>, end: Task)
    requires g.Valid() && g.Edge(task, other) && task != end && g.Stops(q, other, end)
    ensures g.Stops([task] + q, task, end)
  {
    var p := [task] + q;
    forall k | 0 <= k < |p| - 1 ensures g.Edge(p[k], p[k + 1]) && p[k] != end {
      if k > 0 {
        assert p[k] == q[k - 1] && p[k + 1] == q[k];
      }
    }
  }

  lemma WalkTail(g: Graph, q: seq<Task>, task: Task, end: Task)
    requires g.Valid() && g.Stops(q, task, end) && |q| > 1
    ensures g.Edge(task, q[1]) && task != end && g.Stops(q[1..], q[1], end)
  {
    assert g.Edge(q[0], q[1]);
    var r := q[1..];
    forall k | 0 <= k < |r| - 1 ensures g.Edge(r[k], r[k + 1]) && r[k] != end {
      assert r[k] == q[k + 1] && r[k + 1] == q[k + 2];
    }
  }

  /** `h` is `g`, except that tasks may depend on themselves in one and not in the other. */
  ghost predicate SameButSelf(g: Graph, h: Graph)
    requires g.Valid() && h.Valid()
  {
    && g.tasks == h.tasks
    && forall a, b | b in g.tasks && a != b :: a in g.deps[b] <==> a in h.deps[b]
  }

  /** A task that depends on itself is no chain: no walk, and so neither the result nor the fatal error, changes. */
  lemma SelfDependencyIgnored(g: Graph, h: Graph, q: seq<Task>, chain: seq<Task>, task: Task, end: Task)
    requires g.Valid() && h.Valid() && SameButSelf(g, h)
    ensures g.Arrives(q, task, end) <==> h.Arrives(q, task, end)
    ensures g.Closes(q, chain, task, end) <==> h.Closes(q, chain, task, end)
    ensures g.IsWalk(q) ==> forall k | 0 <= k < |q| - 1 :: q[k] != q[k + 1]
  {
    assert forall a, b :: g.Edge(a, b) <==> h.Edge(a, b);
    assert g.IsWalk(q) <==> h.IsWalk(q);
  }

  /** On an acyclic graph no walk closes on itself, so the fatal error is unreachable. */
  lemma AcyclicNeverCloses(g: Graph, q: seq<Task>, task: Task, end: Task)
    requires g.Valid() && g.Acyclic() && g.Stops(q, task, end)
    ensures !g.Closes(q, [], task, end)
  {
    if g.Closes(q, [], task, end) {
      var n := |q| - 1;
      assert q[n] in q[..n];
      var i :| 0 <= i < n && q[..n][i] == q[n];
      RepeatMeansCycle(g, q, i);
    }
  }

  lemma RepeatMeansCycle(g: Graph, q: seq<Task>, i: nat)
    requires g.Valid() && g.IsWalk(q) && i < |q| - 1 && q[i] == q[|q| - 1]
    ensures !g.Acyclic()
  {
    var cycle := q[i..];
    forall k | 0 <= k < |cycle| - 1 ensures g.Edge(cycle[k], cycle[k + 1]) {
      assert cycle[k] == q[i + k] && cycle[k + 1] == q[i + k + 1];
    }
    assert g.IsWalk(cycle) && cycle[0] == cycle[|cycle| - 1];
  }

  /** On an acyclic graph a walk that ends at `end` cannot have met it before. */
  lemma AcyclicArrives(g: Graph, q: seq<Task>, task: Task, end: Task)
    requires g.Valid() && g.Acyclic() && g.IsWalk(q) && q[0] == task && q[|q| - 1] == end
    ensures g.Arrives(q, task, end)
  {
    forall k | 0 <= k < |q| - 1 ensures q[k] != end {
      var rest := q[k..];
      forall i | 0 <= i < |rest| - 1 ensures g.Edge(rest[i], rest[i + 1]) {
        assert rest[i] == q[k + i] && rest[i + 1] == q[k + i + 1];
      }
      assert g.IsWalk(rest);
    }
  }

  // ---- The walk --------------------------------------------------------------------------

  /** `x` is recorded: it is on `chain` or on an arriving walk after it. */
  ghost predicate OnChain(g: Graph, chain: seq<Task>, task: Task, end: Task, x: Task)
    requires g.Valid()
  {
    g.HasOther(end) && exists q :: g.Arrives(q, task, end) && x in chain + q
  }

  /** The same for walks whose second task is one of `via`. */
  ghost predicate OnChainVia(g: Graph, chain: seq<Task>, task: Task, end: Task, via: seq<Task>, x: Task)
    requires g.Valid()
  {
    g.HasOther(end) && exists q :: g.Arrives(q, task, end) && |q| > 1 && q[1] in via && x in chain + q
  }

  ghost predicate Records(g: Graph, chain: seq<Task>, task: Task, end: Task, was: seq<Task>, now: seq<Task>)
    requires g.Valid()
  {
    forall x :: x in now <==> (x in was || OnChain(g, chain, task, end, x))
  }

  /** No walk that steps into one of `via` closes, and those that arrive are recorded. */
  ghost predicate Followed(g: Graph, chain: seq<Task>, task: Task, end: Task, via: seq<Task>, was: seq<Task>,
                           now: seq<Task>)
    requires g.Valid()
  {
    && (forall q :: g.Closes(q, chain, task, end) && |q| > 1 ==> q[1] !in via)
    && forall x :: x in now <==> (x in was || OnChainVia(g, chain, task, end, via, x))
  }

  lemma ClosesCons(g: Graph, q: seq<Task>, chain: seq<Task>, task: Task, other: Task, end: Task)
    requires g.Valid() && g.Edge(task, other) && task != end && g.Closes(q, chain + [task], other, end)
    ensures g.Closes([task] + q, chain, task, end)
  {
    WalkCons(g, task, other, q, end);
    assert chain + ([task] + q)[..|q|] == (chain + [task]) + q[..|q| - 1];
  }

  lemma ClosesTail(g: Graph, q: seq<Task>, chain: seq<Task>, task: Task, end: Task)
    requires g.Valid() && g.Closes(q, chain, task, end) && |q| > 1
    ensures g.Closes(q[1..], chain + [task], q[1], end)
  {
    WalkTail(g, q, task, end);
    var r := q[1..];
    assert chain + q[..|q| - 1] == (chain + [task]) + r[..|r| - 1];
  }

  /** Stepping into `other` records exactly the arriving walks that go through it. */
  lemma OnChainStep(g: Graph, chain: seq<Task>, task: Task, other: Task, end: Task, x: Task)
    requires g.Valid() && g.Edge(task, other) && task != end
    ensures OnChain(g, chain + [task], other, end, x) <==> OnChainVia(g, chain, task, end, [other], x)
  {
    if OnChain(g, chain + [task], other, end, x) {
      var q :| g.Arrives(q, other, end) && x in chain + [task] + q;
      WalkCons(g, task, other, q, end);
      assert chain + ([task] + q) == chain + [task] + q;
      assert g.Arrives([task] + q, task, end);
    }
    if OnChainVia(g, chain, task, end, [other], x) {
      var q :| g.Arrives(q, task, end) && |q| > 1 && q[1] in [other] && x in chain + q;
      WalkTail(g, q, task, end);
      assert chain + q == chain + [task] + q[1..];
      assert g.Arrives(q[1..], other, end);
    }
  }

  lemma OnChainMore(g: Graph, chain: seq<Task>, task: Task, end: Task, via: seq<Task>, other: Task, x: Task)
    requires g.Valid()
    ensures OnChainVia(g, chain, task, end, via + [other], x) <==>
            (OnChainVia(g, chain, task, end, via, x) || OnChainVia(g, chain, task, end, [other], x))
  {
  }

  lemma OnChainViaEdge(g: Graph, chain: seq<Task>, task: Task, end: Task, other: Task, x: Task)
    requires g.Valid() && OnChainVia(g, chain, task, end, [other], x)
    ensures g.Edge(task, other)
  {
    var q :| g.Arrives(q, task, end) && |q| > 1 && q[1] in [other] && x in chain + q;
    WalkTail(g, q, task, end);
  }

  class ChainWalk {
    const g: Graph
    const endTask: Task
    var chain: seq<Task>
    var outTasks: seq<Task>

    constructor (g: Graph, endTask: Task)
      ensures this.g == g && this.endTask == endTask && chain == [] && outTasks == []
    {
      this.g, this.endTask := g, endTask;
      chain, outTasks := [], [];
    }

    method AddChain()
      requires NoDups(outTasks)
      modifies this`outTasks
      ensures NoDups(outTasks) && Elements(outTasks) == old(Elements(outTasks)) + Elements(chain)
    {
      for i := 0 to |chain|
        invariant NoDups(outTasks) && Elements(outTasks) == old(Elements(outTasks)) + Elements(chain[..i])
      {
        assert chain[..i + 1] == chain[..i] + [chain[i]];
        ghost var was := outTasks;
        if chain[i] !in outTasks {
          outTasks := outTasks + [chain[i]];
        }
        assert Elements(outTasks) == Elements(was) + {chain[i]};
      }
      assert chain[..|chain|] == chain;
    }

    /** False is the fatal "Circular task dependencies". */
    method FollowChain(task: Task, ghost universe: set<Task>) returns (ok: bool)
      requires g.Valid() && Elements(g.tasks) <= universe && task in universe
      requires NoDups(chain) && Elements(chain) <= universe && NoDups(outTasks)
      modifies this
      ensures NoDups(outTasks) && (ok ==> chain == old(chain))
      ensures !ok ==> exists q :: g.Closes(q, old(chain), task, endTask)
      ensures ok ==> forall q :: !g.Closes(q, old(chain), task, endTask)
      ensures ok ==> Records(g, old(chain), task, endTask, old(outTasks), outTasks)
      decreases |universe - Elements(chain)|
    {
      if task in chain {
        assert g.Closes([task], chain, task, endTask);
        return false;
      }
      ghost var before := chain;
      ghost var out := outTasks;
      chain := chain + [task];
      assert Elements(chain) == Elements(before) + {task};
      if task == endTask {
        ok := AtEnd(before, out);
      } else {
        ok := Descend(task, before, out, universe);
      }
      if ok {
        chain := chain[..|chain| - 1];
        assert chain == before;
      }
    }

    /** The chain has arrived; it is recorded once for each other task there is. */
    method AtEnd(ghost before: seq<Task>, ghost out: seq<Task>) returns (ok: bool)
      requires g.Valid() && chain == before + [endTask] && endTask !in before && outTasks == out && NoDups(out)
      modifies this`outTasks
      ensures ok && NoDups(outTasks)
      ensures forall q :: !g.Closes(q, before, endTask, endTask)
      ensures Records(g, before, endTask, endTask, out, outTasks)
    {
      var found := false;
      for i := 0 to |g.tasks|
        invariant NoDups(outTasks)
        invariant found ==> g.HasOther(endTask)
        invariant !found ==> forall k | 0 <= k < i :: g.tasks[k] == endTask
        invariant Elements(outTasks) == Elements(out) + if found then Elements(chain) else {}
      {
        if g.tasks[i] != endTask {
          assert g.tasks[i] in g.tasks;
          AddChain();
          found := true;
        }
      }
      ok := true;
      assert found <==> g.HasOther(endTask);
      assert g.Arrives([endTask], endTask, endTask);
      assert forall q :: g.Stops(q, endTask, endTask) ==> q == [endTask];
      forall x ensures x in outTasks <==> (x in out || OnChain(g, before, endTask, endTask, x)) {
        assert x in outTasks <==> x in Elements(outTasks);
      }
    }

    /** The dependants of a task before the end are followed in turn. */
    method Descend(task: Task, ghost before: seq<Task>, ghost out: seq<Task>, ghost universe: set<Task>)
        returns (ok: bool)
      requires g.Valid() && Elements(g.tasks) <= universe && task in universe && task != endTask
      requires chain == before + [task] && task !in before && NoDups(chain) && Elements(chain) <= universe
               && outTasks == out && NoDups(out)
      modifies this
      ensures NoDups(outTasks) && (ok ==> chain == old(chain))
      ensures !ok ==> exists q :: g.Closes(q, before, task, endTask)
      ensures ok ==> forall q :: !g.Closes(q, before, task, endTask)
      ensures ok ==> Records(g, before, task, endTask, out, outTasks)
      decreases |universe - Elements(chain)| + 1, 0
    {
      for i := 0 to |g.tasks|
        invariant NoDups(outTasks) && chain == before + [task]
        invariant Followed(g, before, task, endTask, g.tasks[..i], out, outTasks)
      {
        var other := g.tasks[i];
        assert g.tasks[..i + 1] == g.tasks[..i] + [other];
        if g.Edge(task, other) {
          ghost var mid := outTasks;
          ok := FollowChain(other, universe);
          if !ok {
            ghost var q :| g.Closes(q, before + [task], other, endTask);
            ClosesCons(g, q, before, task, other, endTask);
            return;
          }
          StepDone(task, other, before, g.tasks[..i], out, mid, outTasks);
        } else {
          StepSkipped(task, other, before, g.tasks[..i], out, outTasks);
        }
      }
      assert g.tasks[..|g.tasks|] == g.tasks;
      ok := true;
      AllFollowed(task, before, out, outTasks);
    }

    /** After following `other`, the walks through it are accounted for. */
    lemma StepDone(task: Task, other: Task, before: seq<Task>, via: seq<Task>, out: seq<Task>, mid: seq<Task>,
                   now: seq<Task>)
      requires g.Valid() && g.Edge(task, other) && task != endTask
      requires forall q :: !g.Closes(q, before + [task], other, endTask)
      requires Followed(g, before, task, endTask, via, out, mid)
      requires Records(g, before + [task], other, endTask, mid, now)
      ensures Followed(g, before, task, endTask, via + [other], out, now)
    {
      forall q | g.Closes(q, before, task, endTask) && |q| > 1 ensures q[1] !in via + [other] {
        ClosesTail(g, q, before, task, endTask);
      }
      forall x ensures x in now <==> (x in out || OnChainVia(g, before, task, endTask, via + [other], x)) {
        OnChainStep(g, before, task, other, endTask, x);
        OnChainMore(g, before, task, endTask, via, other, x);
      }
    }

    lemma StepSkipped(task: Task, other: Task, before: seq<Task>, via: seq<Task>, out: seq<Task>, now: seq<Task>)
      requires g.Valid() && !g.Edge(task, other)
      requires Followed(g, before, task, endTask, via, out, now)
      ensures Followed(g, before, task, endTask, via + [other], out, now)
    {
      forall q | g.Closes(q, before, task, endTask) && |q| > 1 ensures q[1] !in via + [other] {
        WalkTail(g, q, task, endTask);
      }
      forall x ensures x in now <==> (x in out || OnChainVia(g, before, task, endTask, via + [other], x)) {
        OnChainMore(g, before, task, endTask, via, other, x);
        if OnChainVia(g, before, task, endTask, [other], x) {
          OnChainViaEdge(g, before, task, endTask, other, x);
        }
      }
    }

    /** Once every task has been tried, nothing is missing: a longer walk steps into some task first. */
    lemma AllFollowed(task: Task, before: seq<Task>, out: seq<Task>, now: seq<Task>)
      requires g.Valid() && task != endTask && task !in before
      requires Followed(g, before, task, endTask, g.tasks, out, now)
      ensures forall q :: !g.Closes(q, before, task, endTask)
      ensures Records(g, before, task, endTask, out, now)
    {
      forall q ensures !g.Closes(q, before, task, endTask) {
        if g.Stops(q, task, endTask) && |q| > 1 {
          WalkTail(g, q, task, endTask);
        }
      }
      forall x ensures OnChain(g, before, task, endTask, x) <==> OnChainVia(g, before, task, endTask, g.tasks, x) {
        forall q | g.Arrives(q, task, endTask) ensures |q| > 1 && q[1] in g.tasks {
          if |q| > 1 {
            WalkTail(g, q, task, endTask);
          }
        }
      }
    }
  }

  // ---- tasksbetween ------------------------------------------------------------------------

  /** `x` lies on some walk from `start` to `end`. */
  ghost predicate Between(g: Graph, start: Task, end: Task, x: Task)
    requires g.Valid()
  {
    exists q :: g.IsWalk(q) && q[0] == start && q[|q| - 1] == end && x in q
  }

  /**
   Fatal exactly when some chain from the start closes on itself before the end; otherwise the
   result has no duplicates and, if there is any task besides the end, holds exactly the tasks on
   a chain from start to end.
   */
  method TasksBetween(g: Graph, start: Task, end: Task) returns (ok: bool, outTasks: seq<Task>)
    requires g.Valid()
    ensures ok <==> forall q :: !g.Closes(q, [], start, end)
    ensures NoDups(outTasks)
    ensures ok ==> forall x :: x in outTasks <==> OnChain(g, [], start, end, x)
    ensures g.Acyclic() ==> ok
    ensures g.Acyclic() && g.HasOther(end) ==> forall x :: x in outTasks <==> Between(g, start, end, x)
  {
    var walk := new ChainWalk(g, end);
    ok := walk.FollowChain(start, Elements(g.tasks) + {start});
    outTasks := walk.outTasks;
    if g.Acyclic() {
      forall q ensures !g.Closes(q, [], start, end) {
        if g.Stops(q, start, end) {
          AcyclicNeverCloses(g, q, start, end);
        }
      }
      if g.HasOther(end) {
        forall x ensures OnChain(g, [], start, end, x) <==> Between(g, start, end, x) {
          BetweenIsOnChain(g, start, end, x);
        }
      }
    }
  }

  lemma BetweenIsOnChain(g: Graph, start: Task, end: Task, x: Task)
    requires g.Valid() && g.Acyclic() && g.HasOther(end)
    ensures OnChain(g, [], start, end, x) <==> Between(g, start, end, x)
  {
    if OnChain(g, [], start, end, x) {
      var q :| g.Arrives(q, start, end) && x in [] + q;
      assert [] + q == q;
    }
    if Between(g, start, end, x) {
      var q :| g.IsWalk(q) && q[0] == start && q[|q| - 1] == end && x in q;
      AcyclicArrives(g, q, start, end);
      assert [] + q == q;
    }
  }
}
