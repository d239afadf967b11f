/** The disk space monitor: warnings with hysteresis, and at most one stop of the run queue per directory. */
module DiskMonitor {
  import opened Prelude

  datatype Action = WARN | STOPTASKS | HALT

  /** The key of `devDict`: a path and what to do when it fills up. */
  datatype Key = Key(path: string, action: Action)

  /** What one `statvfs` says. */
  datatype Stat = Stat(freeSpace: nat, files: nat, freeInode: int)

  datatype Config = Config(spaceInterval: nat, inodeInterval: nat)

  /** The monitor's variables for one key; a minimum of None, or 0, is not monitored. */
  datatype KeyState =
    KeyState(minSpace: Option<nat>, minInode: Option<nat>, preFreeS: nat, preFreeI: int, checked: bool)

  /** `Finish(immediate)` is `rq.finish_runqueue`. */
  datatype Out = WarnSpace(space: nat) | WarnInode(inodes: int) | Finish(immediate: bool)

  // ---- One key, one sample -----------------------------------------------------------------

  predicate SpaceLow(ks: KeyState, st: Stat) {
    ks.minSpace.Some? && ks.minSpace.value != 0 && st.freeSpace < ks.minSpace.value
  }

  predicate InodeBelow(ks: KeyState, st: Stat) {
    ks.minInode.Some? && ks.minInode.value != 0 && st.freeInode < ks.minInode.value
  }

  /** Some file systems have no inode limit; they report 0 files or -1 free inodes. */
  predicate Dynamic(st: Stat) {
    st.files == 0 || st.freeInode == -1
  }

  /** The queue is finished the first time, unless the action is only to warn. */
  function Act(action: Action, ks: KeyState): (r: (KeyState, seq<Out>)) {
    if action.WARN? || ks.checked then (ks, []) else (ks.(checked := true), [Finish(action.HALT?)])
  }

  function CheckSpace(c: Config, action: Action, ks: KeyState, st: Stat): (r: (KeyState, seq<Out>)) {
    if !SpaceLow(ks, st) then (ks, [])
    else
      var warn := ks.preFreeS == 0 || (ks.preFreeS - st.freeSpace > c.spaceInterval && !ks.checked);
      var ks1 := if warn then ks.(preFreeS := st.freeSpace) else ks;
      var (ks2, outs) := Act(action, ks1);
      (ks2, (if warn then [WarnSpace(st.freeSpace)] else []) + outs)
  }

  function CheckInode(c: Config, action: Action, ks: KeyState, st: Stat): (r: (KeyState, seq<Out>)) {
    if !InodeBelow(ks, st) then (ks, [])
    else if Dynamic(st) then (ks.(minInode := None), [])
    else
      var warn := ks.preFreeI == 0 || (ks.preFreeI - st.freeInode > c.inodeInterval && !ks.checked);
      var ks1 := if warn then ks.(preFreeI := st.freeInode) else ks;
      var (ks2, outs) := Act(action, ks1);
      (ks2, (if warn then [WarnInode(st.freeInode)] else []) + outs)
  }

  function CheckKey(c: Config, action: Action, ks: KeyState, st: Stat): (r: (KeyState, seq<Out>)) {
    var (ks1, outs1) := CheckSpace(c, action, ks, st);
    var (ks2, outs2) := CheckInode(c, action, ks1, st);
    (ks2, outs1 + outs2)
  }

  /** A run of samples for one key. */
  function RunKey(c: Config, action: Action, ks: KeyState, stats: seq<Stat>): (r: (KeyState, seq<Out>)) {
    if stats == [] then (ks, [])
    else
      var (ks1, outs1) := RunKey(c, action, ks, stats[..|stats| - 1]);
      var (ks2, outs2) := CheckKey(c, action, ks1, stats[|stats| - 1]);
      (ks2, outs1 + outs2)
  }

  lemma RunKeySnoc(c: Config, action: Action, ks: KeyState, front: seq<Stat>, last: Stat)
    ensures var r1 := RunKey(c, action, ks, front); var r2 := CheckKey(c, action, r1.0, last);
            RunKey(c, action, ks, front + [last]) == (r2.0, r1.1 + r2.1)
  {
    var stats := front + [last];
    assert stats[..|stats| - 1] == front;
  }

  // ---- The class ---------------------------------------------------------------------------

  class Monitor {
    const c: Config
    const keys: seq<Key>
    var minSpace: map<Key, Option<nat>>
    var minInode: map<Key, Option<nat>>
    var preFreeS: map<Key, nat>
    var preFreeI: map<Key, int>
    var checked: map<Key, bool>
    ghost var log: map<Key, seq<Out>>

    ghost predicate Valid()
      reads this
    {
      && (forall i, j | 0 <= i < j < |keys| :: keys[i] != keys[j])
      && forall k | k in keys ::
           k in minSpace && k in minInode && k in preFreeS && k in preFreeI && k in checked && k in log
    }

    ghost function State(k: Key): KeyState
      requires Valid() && k in keys
      reads this
    {
      KeyState(minSpace[k], minInode[k], preFreeS[k], preFreeI[k], checked[k])
    }

    constructor (c: Config, keys: seq<Key>, minimum: map<Key, (Option<nat>, Option<nat>)>)
      requires (forall i, j | 0 <= i < j < |keys| :: keys[i] != keys[j]) && forall k | k in keys :: k in minimum
      ensures Valid() && this.c == c && this.keys == keys
      ensures forall k | k in keys :: State(k) == KeyState(minimum[k].0, minimum[k].1, 0, 0, false) && log[k] == []
    {
      this.c, this.keys := c, keys;
      minSpace := map k | k in keys :: minimum[k].0;
      minInode := map k | k in keys :: minimum[k].1;
      preFreeS := map k | k in keys :: 0;
      preFreeI := map k | k in keys :: 0;
      checked := map k | k in keys :: false;
      log := map k | k in keys :: [];
    }

    /** `checked` stops the messages; the run queue is told once. */
    method TakeAction(k: Key)
      requires Valid() && k in keys
      modifies this`log, this`checked
      ensures Valid() && State(k) == Act(k.action, old(State(k))).0
              && Extends(old(log), k, Act(k.action, old(State(k))).1)
      ensures forall j | j in keys && j != k :: State(j) == old(State(j))
    {
      if k.action.STOPTASKS? && !checked[k] {
        checked := checked[k := true];
        log := log[k := log[k] + [Finish(false)]];
      } else if k.action.HALT? && !checked[k] {
        checked := checked[k := true];
        log := log[k := log[k] + [Finish(true)]];
      } else {
        assert log[k] + [] == log[k];
      }
    }

    /** The log grew by `outs` for `k`, and for no other key. */
    ghost predicate Extends(was: map<Key, seq<Out>>, k: Key, outs: seq<Out>)
      reads this`log
    {
      k in was && k in log && log[k] == was[k] + outs && forall j | j in was && j != k :: j in log && log[j] == was[j]
    }

    method CheckSpaceOf(k: Key, st: Stat)
      requires Valid() && k in keys
      modifies this`log, this`checked, this`preFreeS
      ensures Valid() && State(k) == CheckSpace(c, k.action, old(State(k)), st).0
      ensures Extends(old(log), k, CheckSpace(c, k.action, old(State(k)), st).1)
      ensures forall j | j in keys && j != k :: State(j) == old(State(j))
    {
      var min := minSpace[k];
      ghost var was := log;
      if min.Some? && min.value != 0 && st.freeSpace < min.value {
        if preFreeS[k] == 0 || (preFreeS[k] - st.freeSpace > c.spaceInterval && !checked[k]) {
          log := log[k := log[k] + [WarnSpace(st.freeSpace)]];
          preFreeS := preFreeS[k := st.freeSpace];
        }
        ghost var mid, ks := log, State(k);
        TakeAction(k);
        Chain(was, mid, k, Act(k.action, ks).1);
      } else {
        assert was[k] + [] == was[k];
      }
    }

    method CheckInodeOf(k: Key, st: Stat)
      requires Valid() && k in keys
      modifies this`log, this`checked, this`preFreeI, this`minInode
      ensures Valid() && State(k) == CheckInode(c, k.action, old(State(k)), st).0
      ensures Extends(old(log), k, CheckInode(c, k.action, old(State(k)), st).1)
      ensures forall j | j in keys && j != k :: State(j) == old(State(j))
    {
      var min := minInode[k];
      ghost var was := log;
      if min.Some? && min.value != 0 && st.freeInode < min.value {
        if st.files == 0 || st.freeInode == -1 {
          minInode := minInode[k := None];
          assert was[k] + [] == was[k];
          return;
        }
        if preFreeI[k] == 0 || (preFreeI[k] - st.freeInode > c.inodeInterval && !checked[k]) {
          log := log[k := log[k] + [WarnInode(st.freeInode)]];
          preFreeI := preFreeI[k := st.freeInode];
        }
        ghost var mid, ks := log, State(k);
        TakeAction(k);
        Chain(was, mid, k, Act(k.action, ks).1);
      } else {
        assert was[k] + [] == was[k];
      }
    }

    /** Two extensions of the log in a row are one. */
    lemma Chain(was: map<Key, seq<Out>>, mid: map<Key, seq<Out>>, k: Key, outs: seq<Out>)
      requires k in was && k in mid && was[k] <= mid[k] && Extends(mid, k, outs)
      requires forall j | j in was && j != k :: j in mid && mid[j] == was[j]
      ensures Extends(was, k, mid[k][|was[k]|..] + outs)
    {
      assert was[k] + (mid[k][|was[k]|..] + outs) == mid[k] + outs;
    }

    /** `check`: one sample of every monitored directory. */
    method Check(stats: map<Key, Stat>)
      requires Valid() && forall k | k in keys :: k in stats
      modifies this
      ensures Valid()
      ensures forall k | k in keys :: Sampled(c, k, old(State(k)), old(log)[k], stats[k], State(k), log[k])
    {
      for i := 0 to |keys|
        invariant Valid()
        invariant forall j | i <= j < |keys| ::
                  State(keys[j]) == old(State(keys[j])) && log[keys[j]] == old(log)[keys[j]]
        invariant forall j | 0 <= j < i :: var k := keys[j];
                    Sampled(c, k, old(State(k)), old(log)[k], stats[k], State(k), log[k])
      {
        CheckOne(keys[i], stats[keys[i]]);
      }
    }

    method CheckOne(k: Key, st: Stat)
      requires Valid() && k in keys
      modifies this
      ensures Valid() && State(k) == CheckKey(c, k.action, old(State(k)), st).0
      ensures Extends(old(log), k, CheckKey(c, k.action, old(State(k)), st).1)
      ensures forall j | j in keys && j != k :: State(j) == old(State(j))
    {
      ghost var was, ks := log, State(k);
      CheckSpaceOf(k, st);
      ghost var mid, ks1 := log, State(k);
      CheckInodeOf(k, st);
      ghost var outs := CheckInode(c, k.action, ks1, st).1;
      Chain(was, mid, k, outs);
      assert mid[k][|was[k]|..] == CheckSpace(c, k.action, ks, st).1;
    }

    /** A whole run of samples. */
    method Run(samples: seq<map<Key, Stat>>)
      requires Valid() && forall i | 0 <= i < |samples| :: forall k | k in keys :: k in samples[i]
      modifies this
      ensures Valid()
      ensures forall k | k in keys :: Ran(c, k, old(State(k)), old(log)[k], samples, State(k), log[k])
    {
      ghost var log0, ks0 := log, map k | k in keys :: State(k);
      forall k | k in keys ensures Ran(c, k, ks0[k], log0[k], [], State(k), log[k]) {
        assert log[k] + [] == log[k];
      }
      for i := 0 to |samples|
        invariant Valid()
        invariant forall k | k in keys :: Ran(c, k, ks0[k], log0[k], samples[..i], State(k), log[k])
      {
        ghost var was, ks := log, map k | k in keys :: State(k);
        Check(samples[i]);
        assert samples[..i + 1] == samples[..i] + [samples[i]];
        forall k | k in keys ensures Ran(c, k, ks0[k], log0[k], samples[..i + 1], State(k), log[k]) {
          RanMore(c, k, ks0[k], log0[k], samples[..i], ks[k], was[k], samples[i], State(k), log[k]);
        }
      }
      assert samples[..|samples|] == samples;
    }
  }

  /** From `ks` the samples of `k` lead to `now`, and add to its log what the run puts out. */
  ghost predicate Ran(c: Config, k: Key, ks: KeyState, was: seq<Out>, samples: seq<map<Key, Stat>>, now: KeyState,
                      log: seq<Out>) {
    && (forall i | 0 <= i < |samples| :: k in samples[i])
    && var r := RunKey(c, k.action, ks, StatsOf(samples, k));
       now == r.0 && log == was + r.1
  }

  /** The same for one sample. */
  ghost predicate Sampled(c: Config, k: Key, ks: KeyState, was: seq<Out>, st: Stat, now: KeyState, log: seq<Out>) {
    var r := CheckKey(c, k.action, ks, st);
    now == r.0 && log == was + r.1
  }

  lemma RanMore(c: Config, k: Key, ks: KeyState, was: seq<Out>, samples: seq<map<Key, Stat>>, mid: KeyState,
                midLog: seq<Out>,
                sample: map<Key, Stat>, now: KeyState, log: seq<Out>)
    requires Ran(c, k, ks, was, samples, mid, midLog) && k in sample && Sampled(c, k, mid, midLog, sample[k], now, log)
    ensures Ran(c, k, ks, was, samples + [sample], now, log)
  {
    StatsOfSnoc(samples, sample, k);
    RunKeySnoc(c, k.action, ks, StatsOf(samples, k), sample[k]);
    Associate(was, RunKey(c, k.action, ks, StatsOf(samples, k)).1, CheckKey(c, k.action, mid, sample[k]).1);
  }

  lemma StatsOfSnoc(samples: seq<map<Key, Stat>>, sample: map<Key, Stat>, k: Key)
    requires (forall i | 0 <= i < |samples| :: k in samples[i]) && k in sample
    ensures StatsOf(samples + [sample], k) == StatsOf(samples, k) + [sample[k]]
  {
  }

  lemma Associate(a: seq<Out>, b: seq<Out>, c: seq<Out>)
    ensures a + (b + c) == (a + b) + c
  {
  }

  /** The samples of one key. */
  function StatsOf(samples: seq<map<Key, Stat>>, k: Key): seq<Stat>
    requires forall i | 0 <= i < |samples| :: k in samples[i]
  {
    seq(|samples|, i requires 0 <= i < |samples| => samples[i][k])
  }

  // ---- The run queue is stopped at most once -----------------------------------------------

  function Finishes(outs: seq<Out>): nat {
    if outs == [] then 0 else (if outs[0].Finish? then 1 else 0) + Finishes(outs[1..])
  }

  function SpaceWarnings(outs: seq<Out>): nat {
    if outs == [] then 0 else (if outs[0].WarnSpace? then 1 else 0) + SpaceWarnings(outs[1..])
  }

  lemma {:induction false} CountsAdd(a: seq<Out>, b: seq<Out>)
    ensures Finishes(a + b) == Finishes(a) + Finishes(b) && SpaceWarnings(a + b) == SpaceWarnings(a) + SpaceWarnings(b)
  {
    if a == [] {
      assert a + b == b;
    } else {
      assert (a + b)[1..] == a[1..] + b;
      CountsAdd(a[1..], b);
    }
  }

  lemma CountsOne(o: Out)
    ensures Finishes([o]) == (if o.Finish? then 1 else 0) && SpaceWarnings([o]) == if o.WarnSpace? then 1 else 0
  {
    assert [o][1..] == [];
  }

  /** A sample whose free space or (limited) inodes are below the minimum in force. */
  predicate Critical(ks: KeyState, st: Stat) {
    SpaceLow(ks, st) || (InodeBelow(ks, st) && !Dynamic(st))
  }

  lemma ActCounts(action: Action, ks: KeyState)
    ensures var (ks', outs) := Act(action, ks);
            Finishes(outs) == (if action.WARN? || ks.checked then 0 else 1) && SpaceWarnings(outs) == 0
  {
    if !action.WARN? && !ks.checked {
      CountsOne(Finish(action.HALT?));
    }
  }

  lemma StepCounts(c: Config, action: Action, ks: KeyState, st: Stat)
    ensures var (ks', outs) := CheckKey(c, action, ks, st);
            && Finishes(outs) == (if Critical(ks, st) && !action.WARN? && !ks.checked then 1 else 0)
            && (ks'.checked <==> ks.checked || (Critical(ks, st) && !action.WARN?))
            && SpaceWarnings(outs) == if SpaceLow(ks, st) && (ks.preFreeS == 0
                 || (ks.preFreeS - st.freeSpace > c.spaceInterval && !ks.checked)) then 1 else 0
  {
    SpaceCounts(c, action, ks, st);
    var (ks1, outs1) := CheckSpace(c, action, ks, st);
    InodeCounts(c, action, ks1, st);
    CountsAdd(outs1, CheckInode(c, action, ks1, st).1);
  }

  lemma SpaceCounts(c: Config, action: Action, ks: KeyState, st: Stat)
    ensures var (ks', outs) := CheckSpace(c, action, ks, st);
            && Finishes(outs) == (if SpaceLow(ks, st) && !action.WARN? && !ks.checked then 1 else 0)
            && (ks'.checked <==> ks.checked || (SpaceLow(ks, st) && !action.WARN?))
            && ks'.minInode == ks.minInode
            && SpaceWarnings(outs) == if SpaceLow(ks, st) && (ks.preFreeS == 0
                 || (ks.preFreeS - st.freeSpace > c.spaceInterval && !ks.checked)) then 1 else 0
  {
    if SpaceLow(ks, st) {
      var warn := ks.preFreeS == 0 || (ks.preFreeS - st.freeSpace > c.spaceInterval && !ks.checked);
      var ks1 := if warn then ks.(preFreeS := st.freeSpace) else ks;
      ActCounts(action, ks1);
      CountsOne(WarnSpace(st.freeSpace));
      CountsAdd(if warn then [WarnSpace(st.freeSpace)] else [], Act(action, ks1).1);
    }
  }

  lemma InodeCounts(c: Config, action: Action, ks: KeyState, st: Stat)
    ensures var (ks', outs) := CheckInode(c, action, ks, st);
            && Finishes(outs) == (if InodeBelow(ks, st) && !Dynamic(st) && !action.WARN? && !ks.checked then 1 else 0)
            && (ks'.checked <==> ks.checked || (InodeBelow(ks, st) && !Dynamic(st) && !action.WARN?))
            && SpaceWarnings(outs) == 0 && ks'.preFreeS == ks.preFreeS && ks'.minSpace == ks.minSpace
  {
    if InodeBelow(ks, st) && !Dynamic(st) {
      var warn := ks.preFreeI == 0 || (ks.preFreeI - st.freeInode > c.inodeInterval && !ks.checked);
      var ks1 := if warn then ks.(preFreeI := st.freeInode) else ks;
      ActCounts(action, ks1);
      CountsOne(WarnInode(st.freeInode));
      CountsAdd(if warn then [WarnInode(st.freeInode)] else [], Act(action, ks1).1);
    }
  }

  /** Some sample of the run was critical when it was taken. */
  ghost predicate EverCritical(c: Config, action: Action, ks: KeyState, stats: seq<Stat>) {
    exists i | 0 <= i < |stats| :: Critical(RunKey(c, action, ks, stats[..i]).0, stats[i])
  }

  lemma EverCriticalSnoc(c: Config, action: Action, ks: KeyState, front: seq<Stat>, last: Stat)
    ensures EverCritical(c, action, ks, front + [last]) <==>
            EverCritical(c, action, ks, front) || Critical(RunKey(c, action, ks, front).0, last)
  {
    var stats := front + [last];
    assert stats[..|front|] == front && stats[|front|] == last;
    forall i | 0 <= i < |front| ensures front[..i] == stats[..i] && front[i] == stats[i] {}
    if EverCritical(c, action, ks, front) {
      var i :| 0 <= i < |front| && Critical(RunKey(c, action, ks, front[..i]).0, front[i]);
      assert Critical(RunKey(c, action, ks, stats[..i]).0, stats[i]);
    }
    if EverCritical(c, action, ks, stats) {
      var i :| 0 <= i < |stats| && Critical(RunKey(c, action, ks, stats[..i]).0, stats[i]);
      assert i < |front| ==> Critical(RunKey(c, action, ks, front[..i]).0, front[i]);
    }
  }

  /**
   Over a whole run, and over the space and inode branches together, the run queue is stopped
   exactly once if some sample was critical and the action is not just to warn, and never otherwise.
   */
  lemma {:induction false} FinishedAtMostOnce(c: Config, action: Action, ks: KeyState, stats: seq<Stat>)
    requires !ks.checked
    ensures Finishes(RunKey(c, action, ks, stats).1)
            == if EverCritical(c, action, ks, stats) && !action.WARN? then 1 else 0
    ensures RunKey(c, action, ks, stats).0.checked <==> EverCritical(c, action, ks, stats) && !action.WARN?
  {
    if stats != [] {
      var front, last := stats[..|stats| - 1], stats[|stats| - 1];
      assert stats == front + [last];
      FinishedAtMostOnce(c, action, ks, front);
      EverCriticalSnoc(c, action, ks, front, last);
      RunKeySnoc(c, action, ks, front, last);
      var r := RunKey(c, action, ks, front);
      StepCounts(c, action, r.0, last);
      CountsAdd(r.1, CheckKey(c, action, r.0, last).1);
    }
  }

  // ---- Hysteresis ------------------------------------------------------------------------------

  /** `n` warnings so far, the last one at `pre`. */
  ghost predicate Spent(c: Config, n: nat, pre: nat, min: Option<nat>) {
    && (n == 0 <==> pre == 0)
    && (n > 0 ==> min.Some? && pre + (n - 1) * (c.spaceInterval + 1) < min.value)
  }

  lemma SpentMore(c: Config, n: nat, pre: nat, free: nat, min: Option<nat>)
    requires Spent(c, n, pre, min) && min.Some? && 0 < free < min.value
    requires pre == 0 || pre - free > c.spaceInterval
    ensures Spent(c, n + 1, free, min)
  {
    assert n * (c.spaceInterval + 1) == (n - 1) * (c.spaceInterval + 1) + c.spaceInterval + 1;
  }

  lemma SpentStep(c: Config, action: Action, ks: KeyState, st: Stat, n: nat)
    requires Spent(c, n, ks.preFreeS, ks.minSpace) && st.freeSpace > 0
    ensures var r := CheckKey(c, action, ks, st);
            r.0.minSpace == ks.minSpace && Spent(c, n + SpaceWarnings(r.1), r.0.preFreeS, ks.minSpace)
  {
    StepCounts(c, action, ks, st);
    PreFreeAfter(c, action, ks, st);
    if SpaceLow(ks, st) && (ks.preFreeS == 0 || (ks.preFreeS - st.freeSpace > c.spaceInterval && !ks.checked)) {
      SpentMore(c, n, ks.preFreeS, st.freeSpace, ks.minSpace);
    }
  }

  /** As long as some space is left, each warning needs a further drop by more than the interval. */
  lemma {:induction false} SpaceWarningsBounded(c: Config, action: Action, ks: KeyState, stats: seq<Stat>)
    requires ks.preFreeS == 0 && forall i | 0 <= i < |stats| :: stats[i].freeSpace > 0
    ensures var r := RunKey(c, action, ks, stats);
            r.0.minSpace == ks.minSpace && Spent(c, SpaceWarnings(r.1), r.0.preFreeS, ks.minSpace)
  {
    if stats != [] {
      var front, last := stats[..|stats| - 1], stats[|stats| - 1];
      SpaceWarningsBounded(c, action, ks, front);
      var r := RunKey(c, action, ks, front);
      SpentStep(c, action, r.0, last, SpaceWarnings(r.1));
      CountsAdd(r.1, CheckKey(c, action, r.0, last).1);
    }
  }

  lemma PreFreeAfter(c: Config, action: Action, ks: KeyState, st: Stat)
    ensures var ks' := CheckKey(c, action, ks, st).0;
            && ks'.minSpace == ks.minSpace
            && ks'.preFreeS == if SpaceLow(ks, st) && (ks.preFreeS == 0
                 || (ks.preFreeS - st.freeSpace > c.spaceInterval && !ks.checked)) then st.freeSpace else ks.preFreeS
  {
    InodeCounts(c, action, CheckSpace(c, action, ks, st).0, st);
  }

  /** The warning bound, as a caller reads it. */
  lemma WarningBound(c: Config, action: Action, minSpace: nat, minInode: Option<nat>, stats: seq<Stat>)
    requires forall i | 0 <= i < |stats| :: stats[i].freeSpace > 0
    ensures var n := SpaceWarnings(RunKey(c, action, KeyState(Some(minSpace), minInode, 0, 0, false), stats).1);
            n > 0 ==> (n - 1) * (c.spaceInterval + 1) < minSpace
  {
    SpaceWarningsBounded(c, action, KeyState(Some(minSpace), minInode, 0, 0, false), stats);
  }

  /** The samples that found no space at all. */
  function Zeros(stats: seq<Stat>): nat {
    if stats == [] then 0 else Zeros(stats[..|stats| - 1]) + if stats[|stats| - 1].freeSpace == 0 then 1 else 0
  }

  /** `k` steps of more than the interval make up the minimum. */
  ghost predicate MadeUp(c: Config, min: nat, k: nat) {
    min <= k * (c.spaceInterval + 1)
  }

  /** `m` warnings came after the last sample with no space left. */
  ghost predicate Since(c: Config, ks: KeyState, min: nat, m: nat, k: nat) {
    ks.minSpace == Some(min) && Spent(c, m, ks.preFreeS, Some(min)) && m <= k && MadeUp(c, min, k)
  }

  lemma ZeroStep(c: Config, action: Action, ks: KeyState, st: Stat, min: nat, m: nat, k: nat) returns (m': nat)
    requires Since(c, ks, min, m, k)
    ensures var r := CheckKey(c, action, ks, st);
            Since(c, r.0, min, m', k) && m + SpaceWarnings(r.1) <= m' + Allowed(st, k)
  {
    StepCounts(c, action, ks, st);
    PreFreeAfter(c, action, ks, st);
    var warns := SpaceWarnings(CheckKey(c, action, ks, st).1);
    if st.freeSpace > 0 {
      SpentStep(c, action, ks, st, m);
      m' := m + warns;
      SpentBound(c, m', CheckKey(c, action, ks, st).0.preFreeS, min, k);
    } else {
      m' := if warns == 0 then m else 0;
    }
  }

  lemma SpentBound(c: Config, n: nat, pre: nat, min: nat, k: nat)
    requires Spent(c, n, pre, Some(min)) && MadeUp(c, min, k)
    ensures n <= k
  {
    if n > k {
      MoreIntervals(k, n - 1, c.spaceInterval + 1);
    }
  }

  lemma MoreIntervals(a: nat, b: nat, step: nat)
    requires a <= b
    ensures a * step <= b * step
  {
  }

  /** `k + 1` warnings for each sample with no space left. */
  function Allowance(stats: seq<Stat>, k: nat): nat {
    if stats == [] then 0 else Allowance(stats[..|stats| - 1], k) + Allowed(stats[|stats| - 1], k)
  }

  function Allowed(st: Stat, k: nat): nat {
    if st.freeSpace == 0 then k + 1 else 0
  }

  lemma {:induction false} AllowanceIs(stats: seq<Stat>, k: nat)
    ensures Allowance(stats, k) == Zeros(stats) * (k + 1)
  {
    if stats != [] {
      var front := stats[..|stats| - 1];
      AllowanceIs(front, k);
      assert (Zeros(front) + 1) * (k + 1) == Zeros(front) * (k + 1) + (k + 1);
    }
  }

  lemma {:induction false} ZerosBound(c: Config, action: Action, ks: KeyState, stats: seq<Stat>, min: nat, k: nat)
      returns (m: nat)
    requires Since(c, ks, min, 0, k)
    ensures var r := RunKey(c, action, ks, stats);
            Since(c, r.0, min, m, k) && SpaceWarnings(r.1) <= m + Allowance(stats, k)
  {
    m := 0;
    if stats != [] {
      var front, last := stats[..|stats| - 1], stats[|stats| - 1];
      var m0 := ZerosBound(c, action, ks, front, min, k);
      var r := RunKey(c, action, ks, front);
      assert stats == front + [last];
      RunKeySnoc(c, action, ks, front, last);
      m := ZeroStep(c, action, r.0, last, min, m0, k);
      CountsAdd(r.1, CheckKey(c, action, r.0, last).1);
    }
  }

  /**
   The bound for every run: if the minimum is at most `k` steps of more than the interval, there are at most `k`
   warnings, and `k + 1` more for each sample that found no space at all.
   */
  lemma WarningsBounded(c: Config, action: Action, minSpace: nat, minInode: Option<nat>, stats: seq<Stat>, k: nat)
    requires MadeUp(c, minSpace, k)
    ensures SpaceWarnings(RunKey(c, action, KeyState(Some(minSpace), minInode, 0, 0, false), stats).1)
         <= k + Zeros(stats) * (k + 1)
  {
    var m := ZerosBound(c, action, KeyState(Some(minSpace), minInode, 0, 0, false), stats, minSpace, k);
    AllowanceIs(stats, k);
  }

  /** On a full disk there is no bound: a remembered 0 reads as "never warned", so every sample warns. */
  lemma {:induction false} FullDiskWarnsForever(c: Config, action: Action, minSpace: nat, st: Stat, n: nat)
    requires minSpace > 0 && st.freeSpace == 0
    ensures var r := RunKey(c, action, KeyState(Some(minSpace), None, 0, 0, false), seq(n, _ => st));
            SpaceWarnings(r.1) == n && r.0.preFreeS == 0 && r.0.minSpace == Some(minSpace)
  {
    if n > 0 {
      var front := seq(n - 1, _ => st);
      assert seq(n, _ => st) == front + [st];
      FullDiskWarnsForever(c, action, minSpace, st, n - 1);
      var ks := KeyState(Some(minSpace), None, 0, 0, false);
      RunKeySnoc(c, action, ks, front, st);
      var r := RunKey(c, action, ks, front);
      StepCounts(c, action, r.0, st);
      PreFreeAfter(c, action, r.0, st);
      CountsAdd(r.1, CheckKey(c, action, r.0, st).1);
    }
  }

  // ---- How the queue is stopped, and when warnings come -----------------------------------------

  ghost predicate StopsRight(action: Action, outs: seq<Out>) {
    forall o | o in outs && o.Finish? :: action == if o.immediate then HALT else STOPTASKS
  }

  /** STOPTASKS lets the running tasks finish, HALT does not, and WARN stops nothing. */
  lemma {:induction false} StopsAsConfigured(c: Config, action: Action, ks: KeyState, stats: seq<Stat>)
    ensures StopsRight(action, RunKey(c, action, ks, stats).1)
  {
    if stats != [] {
      StopsAsConfigured(c, action, ks, stats[..|stats| - 1]);
    }
  }

  /** The free space of each space warning, and the free inodes of each inode warning. */
  function SpacesWarned(outs: seq<Out>): seq<int> {
    if outs == [] then []
    else (if outs[0].WarnSpace? then [outs[0].space] else []) + SpacesWarned(outs[1..])
  }

  function InodesWarned(outs: seq<Out>): seq<int> {
    if outs == [] then []
    else (if outs[0].WarnInode? then [outs[0].inodes] else []) + InodesWarned(outs[1..])
  }

  lemma {:induction false} SpacesAdd(a: seq<Out>, b: seq<Out>)
    ensures SpacesWarned(a + b) == SpacesWarned(a) + SpacesWarned(b)
  {
    if a == [] {
      assert a + b == b;
    } else {
      assert (a + b)[1..] == a[1..] + b;
      SpacesAdd(a[1..], b);
      var first := if a[0].WarnSpace? then [a[0].space as int] else [];
      assert first + (SpacesWarned(a[1..]) + SpacesWarned(b)) == (first + SpacesWarned(a[1..])) + SpacesWarned(b);
    }
  }

  lemma {:induction false} InodesAdd(a: seq<Out>, b: seq<Out>)
    ensures InodesWarned(a + b) == InodesWarned(a) + InodesWarned(b)
  {
    if a == [] {
      assert a + b == b;
    } else {
      assert (a + b)[1..] == a[1..] + b;
      InodesAdd(a[1..], b);
      var first := if a[0].WarnInode? then [a[0].inodes] else [];
      assert first + (InodesWarned(a[1..]) + InodesWarned(b)) == (first + InodesWarned(a[1..])) + InodesWarned(b);
    }
  }

  lemma WarnedAdd(a: seq<Out>, b: seq<Out>)
    ensures SpacesWarned(a + b) == SpacesWarned(a) + SpacesWarned(b)
    ensures InodesWarned(a + b) == InodesWarned(a) + InodesWarned(b)
  {
    SpacesAdd(a, b);
    InodesAdd(a, b);
  }

  /** After the first, each warning that did not follow one at 0 is for a drop by more than the interval. */
  ghost predicate Drops(ws: seq<int>, interval: nat) {
    forall i | 0 <= i < |ws| - 1 :: ws[i] == 0 || ws[i] - ws[i + 1] > interval
  }

  /** What is remembered is the last warning, 0 before the first. */
  predicate Remembers(ws: seq<int>, pre: int) {
    pre == if ws == [] then 0 else ws[|ws| - 1]
  }

  lemma DropsMore(ws: seq<int>, pre: int, w: int, interval: nat)
    requires Drops(ws, interval) && Remembers(ws, pre) && (pre == 0 || pre - w > interval)
    ensures Drops(ws + [w], interval) && Remembers(ws + [w], w)
  {
  }

  lemma OneWarned(o: Out)
    ensures SpacesWarned([o]) == (if o.WarnSpace? then [o.space as int] else [])
    ensures InodesWarned([o]) == if o.WarnInode? then [o.inodes] else []
  {
    assert [o][1..] == [];
  }

  /** What one sample adds. */
  lemma StepWarned(c: Config, action: Action, ks: KeyState, st: Stat)
    ensures var (ks', outs) := CheckKey(c, action, ks, st);
            var low, few := SpaceLow(ks, st), InodeBelow(ks, st) && !Dynamic(st);
            var stopped := ks.checked || (low && !action.WARN?);
            var space := low && (ks.preFreeS == 0 || (ks.preFreeS - st.freeSpace > c.spaceInterval && !ks.checked));
            var inode := few && (ks.preFreeI == 0 || (ks.preFreeI - st.freeInode > c.inodeInterval && !stopped));
            && SpacesWarned(outs) == (if space then [st.freeSpace] else [])
            && InodesWarned(outs) == (if inode then [st.freeInode] else [])
            && ks'.preFreeS == (if space then st.freeSpace else ks.preFreeS)
            && ks'.preFreeI == (if inode then st.freeInode else ks.preFreeI)
            && ks'.checked == (stopped || (few && !action.WARN?))
  {
    var (ks1, outs1) := CheckSpace(c, action, ks, st);
    var (ks2, outs2) := CheckInode(c, action, ks1, st);
    WarnedAdd(outs1, outs2);
    OneWarned(WarnSpace(st.freeSpace));
    OneWarned(WarnInode(st.freeInode));
    OneWarned(Finish(action.HALT?));
    WarnedAdd([WarnSpace(st.freeSpace)], [Finish(action.HALT?)]);
    WarnedAdd([WarnInode(st.freeInode)], [Finish(action.HALT?)]);
    WarnedAdd([WarnSpace(st.freeSpace)], []);
    WarnedAdd([WarnInode(st.freeInode)], []);
    assert [] + outs2 == outs2;
  }

  /** Over any run, for space and for inodes: each warning needs a further drop, unless the last one was at 0. */
  lemma {:induction false} WarningsDrop(c: Config, action: Action, ks: KeyState, stats: seq<Stat>)
    requires ks.preFreeS == 0 && ks.preFreeI == 0
    ensures var (ks', outs) := RunKey(c, action, ks, stats);
            && Drops(SpacesWarned(outs), c.spaceInterval) && Remembers(SpacesWarned(outs), ks'.preFreeS)
            && Drops(InodesWarned(outs), c.inodeInterval) && Remembers(InodesWarned(outs), ks'.preFreeI)
  {
    if stats != [] {
      var (ks1, outs1) := RunKey(c, action, ks, stats[..|stats| - 1]);
      var last := stats[|stats| - 1];
      WarningsDrop(c, action, ks, stats[..|stats| - 1]);
      StepWarned(c, action, ks1, last);
      WarnedAdd(outs1, CheckKey(c, action, ks1, last).1);
      if ks1.preFreeS == 0 || ks1.preFreeS - last.freeSpace > c.spaceInterval {
        DropsMore(SpacesWarned(outs1), ks1.preFreeS, last.freeSpace, c.spaceInterval);
      }
      if ks1.preFreeI == 0 || ks1.preFreeI - last.freeInode > c.inodeInterval {
        DropsMore(InodesWarned(outs1), ks1.preFreeI, last.freeInode, c.inodeInterval);
      }
      Nothing(SpacesWarned(outs1));
      Nothing(InodesWarned(outs1));
    }
  }

  lemma Nothing(ws: seq<int>)
    ensures ws + [] == ws
  {
  }

  /** Once the queue was stopped there are no further warnings, unless the last one was at 0. */
  lemma {:induction false} SilentAfterStop(c: Config, action: Action, ks: KeyState, stats: seq<Stat>)
    requires ks.checked
    ensures var (ks', outs) := RunKey(c, action, ks, stats);
            && ks'.checked
            && (ks.preFreeS != 0 ==> SpacesWarned(outs) == [] && ks'.preFreeS == ks.preFreeS)
            && (ks.preFreeI != 0 ==> InodesWarned(outs) == [] && ks'.preFreeI == ks.preFreeI)
  {
    if stats != [] {
      var (ks1, outs1) := RunKey(c, action, ks, stats[..|stats| - 1]);
      var last := stats[|stats| - 1];
      SilentAfterStop(c, action, ks, stats[..|stats| - 1]);
      StepWarned(c, action, ks1, last);
      WarnedAdd(outs1, CheckKey(c, action, ks1, last).1);
    }
  }

  /** A file system that once reported that it has no inode limit is not asked for inodes again. */
  lemma {:induction false} NoLimitNoInodes(c: Config, action: Action, ks: KeyState, stats: seq<Stat>)
    requires ks.minInode == None
    ensures var (ks', outs) := RunKey(c, action, ks, stats); ks'.minInode == None && InodesWarned(outs) == []
  {
    if stats != [] {
      var (ks1, outs1) := RunKey(c, action, ks, stats[..|stats| - 1]);
      var last := stats[|stats| - 1];
      NoLimitNoInodes(c, action, ks, stats[..|stats| - 1]);
      StepWarned(c, action, ks1, last);
      WarnedAdd(outs1, CheckKey(c, action, ks1, last).1);
    }
  }

  lemma LimitLifted(c: Config, action: Action, ks: KeyState, st: Stat)
    ensures CheckKey(c, action, ks, st).0.minInode
         == if InodeBelow(ks, st) && (st.files == 0 || st.freeInode == -1) then None else ks.minInode
  {
  }

  /** Without a minimum, or with 0, there are no warnings and nothing is stopped. */
  lemma {:induction false} NotMonitored(c: Config, action: Action, ks: KeyState, stats: seq<Stat>)
    requires ks.minSpace.GetOr(0) == 0 && ks.minInode.GetOr(0) == 0
    ensures RunKey(c, action, ks, stats) == (ks, [])
  {
    if stats != [] {
      NotMonitored(c, action, ks, stats[..|stats| - 1]);
      var none: seq<Out> := [];
      assert !SpaceLow(ks, stats[|stats| - 1]) && !InodeBelow(ks, stats[|stats| - 1]) && none + none == none;
    }
  }
}
