/**
 `MultiProcessCache`: many processes save their extra entries to numbered files under a shared lock,
 one process merges all those files into its cache under the exclusive lock.
 */
module ExtrasMerge {
  import opened Prelude

  /** One dictionary per table of the cache; every cache of a version has the same number of tables. */
  type Data = seq<map<string, nat>>

  // ---- Merging ---------------------------------------------------------------------------

  /** Entries of `dest` win. */
  function Merge(source: Data, dest: Data): (r: Data)
    requires |source| == |dest|
    ensures |r| == |dest|
  {
    seq(|dest|, j requires 0 <= j < |dest| => source[j] + dest[j])
  }

  class MultiProcessCache {
    var cachedata: Data

    constructor (width: nat)
      ensures |cachedata| == width && forall j | 0 <= j < width :: cachedata[j] == map[]
    {
      cachedata := seq(width, _ => map[]);
    }

    method MergeData(source: Data)
      requires |source| == |cachedata|
      modifies this
      ensures cachedata == Merge(source, old(cachedata))
    {
      for j := 0 to |cachedata|
        invariant |cachedata| == |source| == |old(cachedata)|
        invariant forall i | 0 <= i < j :: cachedata[i] == source[i] + old(cachedata)[i]
        invariant forall i | j <= i < |cachedata| :: cachedata[i] == old(cachedata)[i]
      {
        ghost var was := cachedata[j];
        var todo := source[j].Keys;
        while todo != {}
          invariant |cachedata| == |source| && todo <= source[j].Keys
          invariant forall i | 0 <= i < |cachedata| && i != j :: cachedata[i] == old(cachedata)[i] || i < j
          invariant forall i | 0 <= i < j :: cachedata[i] == source[i] + old(cachedata)[i]
          invariant cachedata[j].Keys == was.Keys + (source[j].Keys - todo)
          invariant forall k | k in cachedata[j] :: cachedata[j][k] == if k in was then was[k] else source[j][k]
          decreases todo
        {
          var h :| h in todo;
          todo := todo - {h};
          if h !in cachedata[j] {
            cachedata := cachedata[j := cachedata[j][h := source[j][h]]];
          }
        }
        assert cachedata[j] == source[j] + was;
      }
    }
  }

  function MergeAll(sources: seq<Data>, dest: Data): (r: Data)
    requires forall s | s in sources :: |s| == |dest|
    ensures |r| == |dest|
  {
    if sources == [] then dest else MergeAll(sources[1..], Merge(sources[0], dest))
  }

  /** Equal keys carry equal values, unless the cache already has the key. */
  ghost predicate Compatible(a: Data, b: Data, dest: Data)
    requires |a| == |b| == |dest|
  {
    forall j | 0 <= j < |dest| :: forall k | k in a[j] && k in b[j] && k !in dest[j] :: a[j][k] == b[j][k]
  }

  /** Two files may be merged in either order exactly when they are compatible. */
  lemma OrderExact(a: Data, b: Data, dest: Data)
    requires |a| == |b| == |dest|
    ensures Merge(a, Merge(b, dest)) == Merge(b, Merge(a, dest)) <==> Compatible(a, b, dest)
  {
    var ab, ba := Merge(a, Merge(b, dest)), Merge(b, Merge(a, dest));
    if ab == ba {
      forall j, k | 0 <= j < |dest| && k in a[j] && k in b[j] && k !in dest[j] ensures a[j][k] == b[j][k] {
        assert ab[j] == ba[j] && ab[j][k] == b[j][k] && ba[j][k] == a[j][k];
      }
    }
    if Compatible(a, b, dest) {
      forall j | 0 <= j < |dest| ensures ab[j] == ba[j] {
        assert ab[j] == a[j] + (b[j] + dest[j]) && ba[j] == b[j] + (a[j] + dest[j]);
      }
    }
  }

  /** Entry by entry: the cache's own value, else the value of the first file that has the key. */
  lemma {:induction false} MergeAllAt(sources: seq<Data>, dest: Data, j: nat, k: string)
    requires j < |dest| && forall s | s in sources :: |s| == |dest|
    ensures k in MergeAll(sources, dest)[j] <==> k in dest[j] || exists s | s in sources :: k in s[j]
    ensures k in dest[j] ==> MergeAll(sources, dest)[j][k] == dest[j][k]
    ensures k in MergeAll(sources, dest)[j] && k !in dest[j] ==>
              exists s | s in sources :: k in s[j] && MergeAll(sources, dest)[j][k] == s[j][k]
  {
    if sources != [] {
      MergeAllAt(sources[1..], Merge(sources[0], dest), j, k);
      assert sources[0] in sources && forall s | s in sources[1..] :: s in sources;
      assert forall s | s in sources :: s == sources[0] || s in sources[1..];
    }
  }

  /** With pairwise compatible files, the merged cache depends only on which files there are. */
  lemma MergeOrderIrrelevant(xs: seq<Data>, ys: seq<Data>, dest: Data)
    requires forall s | s in xs :: |s| == |dest|
    requires forall s :: s in xs <==> s in ys
    requires forall a, b | a in xs && b in xs :: Compatible(a, b, dest)
    ensures MergeAll(xs, dest) == MergeAll(ys, dest)
  {
    var x, y := MergeAll(xs, dest), MergeAll(ys, dest);
    forall j | 0 <= j < |dest| ensures x[j] == y[j] {
      forall k ensures k in x[j] <==> k in y[j] {
        MergeAllAt(xs, dest, j, k);
        MergeAllAt(ys, dest, j, k);
      }
      forall k | k in x[j] ensures x[j][k] == y[j][k] {
        MergeAllAt(xs, dest, j, k);
        MergeAllAt(ys, dest, j, k);
        if k !in dest[j] {
          var a :| a in xs && k in a[j] && x[j][k] == a[j][k];
          var b :| b in ys && k in b[j] && y[j][k] == b[j][k];
          assert Compatible(a, b, dest);
        }
      }
    }
  }

  // ---- The locking protocol ----------------------------------------------------------------

  const VERSION: nat := 0

  /** What an extras file holds; `Partial` is opened but not yet completely written. */
  datatype Content = Partial | Whole(data: Data, version: nat)

  /** Where a saving process is in `save_extras`; from `Probing` on it holds the shared lock. */
  datatype SaverAt =
    | Idle
    | Probing(i: nat)
    | Locked(i: nat)
    | Clear(i: nat)
    | Created(i: nat)
    | Written(i: nat)
    | Unlocked

  datatype Saver = Saver(at: SaverAt, pid: nat, extras: Data) {

    /** It holds the lock of extras file `i`. */
    predicate Locks(i: nat) {
      match at
      case Locked(k) => k == i
      case Clear(k) => k == i
      case Created(k) => k == i
      case Written(k) => k == i
      case _ => false
    }
  }

  /** Where the merging process is in `save_merge`; except when resting it holds the exclusive lock. */
  datatype MergerAt = Resting | Holding | Merging(todo: seq<nat>, have: bool)

  /** `data` is the merging process's memory, `disk` its cache file; `completed` records finished saves. */
  datatype State = State(savers: seq<Saver>, files: map<nat, Content>, merger: MergerAt,
                         data: Data, disk: Data, completed: seq<Data>)

  datatype Step =
    | Start(s: nat, extras: Data)
    | TryLock(s: nat)
    | CheckExists(s: nat)
    | Open(s: nat)
    | Write(s: nat)
    | UnlockFile(s: nat)
    | UnlockShared(s: nat)
    | Acquire
    | List(order: seq<nat>)
    | MergeOne
    | Finish

  predicate LockedByOther(savers: seq<Saver>, s: nat, i: nat) {
    exists t | 0 <= t < |savers| :: t != s && savers[t].Locks(i)
  }

  function At(st: State, s: nat, at: SaverAt): State
    requires s < |st.savers|
  {
    st.(savers := st.savers[s := st.savers[s].(at := at)])
  }

  function SaverStep(st: State, step: Step): Option<State>
    requires SaverOf(step).Some? && SaverOf(step).value < |st.savers|
  {
    var s := SaverOf(step).value;
    var x := st.savers[s];
    match step
    case Start(_, extras) =>
      if !x.at.Idle? || !st.merger.Resting? || |extras| != |st.data| then None
      else if forall d | d in extras :: d == map[] then Some(st)
      else Some(st.(savers := st.savers[s := x.(at := Probing(x.pid), extras := extras)]))
    case TryLock(_) =>
      if !x.at.Probing? then None
      else Some(At(st, s, if LockedByOther(st.savers, s, x.at.i) then Probing(x.at.i + 1) else Locked(x.at.i)))
    case CheckExists(_) =>
      if !x.at.Locked? then None
      else Some(At(st, s, if x.at.i in st.files then Probing(x.at.i + 1) else Clear(x.at.i)))
    case Open(_) =>
      if !x.at.Clear? then None
      else Some(At(st, s, Created(x.at.i)).(files := st.files[x.at.i := Partial]))
    case Write(_) =>
      if !x.at.Created? then None
      else Some(At(st, s, Written(x.at.i)).(files := st.files[x.at.i := Whole(x.extras, VERSION)],
                                           completed := st.completed + [x.extras]))
    case UnlockFile(_) => if !x.at.Written? then None else Some(At(st, s, Unlocked))
    case _ => if !x.at.Unlocked? then None else Some(At(st, s, Idle))
  }

  function SaverOf(step: Step): Option<nat> {
    match step
    case Start(s, _) => Some(s)
    case TryLock(s) => Some(s)
    case CheckExists(s) => Some(s)
    case Open(s) => Some(s)
    case Write(s) => Some(s)
    case UnlockFile(s) => Some(s)
    case UnlockShared(s) => Some(s)
    case _ => None
  }

  predicate NoDups(xs: seq<nat>) {
    forall i, j | 0 <= i < j < |xs| :: xs[i] != xs[j]
  }

  function MergerStep(st: State, step: Step): Option<State> {
    match step
    case Acquire =>
      if !st.merger.Resting? || exists x | x in st.savers :: !x.at.Idle? then None
      else Some(st.(merger := Holding))
    case List(order) =>
      if !st.merger.Holding? || !NoDups(order) || (set i | i in order) != st.files.Keys then None
      else Some(st.(merger := Merging(order, false)))
    case MergeOne =>
      if !st.merger.Merging? || st.merger.todo == [] || st.merger.todo[0] !in st.files then None
      else
        var f, rest := st.merger.todo[0], st.merger.todo[1..];
        match st.files[f] {
          case Whole(data, version) =>
            if version != VERSION then
              Some(st.(merger := Merging(rest, st.merger.have), files := st.files - {f}))
            else if |data| != |st.data| then None
            else
              Some(st.(merger := Merging(rest, true), data := Merge(data, st.data), files := st.files - {f}))
          case Partial => Some(st.(merger := Merging(rest, st.merger.have), files := st.files - {f}))
        }
    case Finish =>
      if !st.merger.Merging? || st.merger.todo != [] then None
      else Some(st.(merger := Resting, disk := if st.merger.have then st.data else st.disk))
    case _ => None
  }

  function Next(st: State, step: Step): Option<State> {
    match SaverOf(step)
    case None => MergerStep(st, step)
    case Some(s) => if s >= |st.savers| then None else SaverStep(st, step)
  }

  /** Nobody is saving or merging yet; files of earlier runs may be lying about, even broken ones. */
  predicate Init(st: State) {
    && (forall x | x in st.savers :: x.at.Idle?)
    && st.merger.Resting? && st.disk == st.data && st.completed == []
    && forall i | i in st.files :: CurrentWidth(st.files[i], |st.data|)
  }

  /** A complete file of the current version has as many tables as the cache. */
  predicate CurrentWidth(c: Content, width: nat) {
    c.Whole? && c.version == VERSION ==> |c.data| == width
  }

  function Exec(st: State, steps: seq<Step>): Option<State> {
    if steps == [] then Some(st)
    else
      match Exec(st, steps[..|steps| - 1])
      case None => None
      case Some(s) => Next(s, steps[|steps| - 1])
  }

  // ---- The invariant ---------------------------------------------------------------------

  /** The key is in the merging process's cache, or waits in a complete file of the current version. */
  ghost predicate Safe(st: State, j: nat, k: string) {
    j < |st.data| &&
    (k in st.data[j] || exists i | i in st.files :: Waits(st.files[i], |st.data|, j, k))
  }

  predicate Waits(c: Content, width: nat, j: nat, k: string) {
    c.Whole? && c.version == VERSION && |c.data| == width && j < width && k in c.data[j]
  }

  ghost predicate AllSafe(st: State) {
    forall d | d in st.completed :: |d| == |st.data| && forall j | 0 <= j < |d| :: forall k | k in d[j] ::
        Safe(st, j, k)
  }

  ghost predicate SaverOk(st: State, x: Saver) {
    match x.at
    case Idle => true
    case Clear(i) => i !in st.files && |x.extras| == |st.data|
    case Created(i) => i in st.files && st.files[i] == Partial && |x.extras| == |st.data|
    case Written(i) => i in st.files && st.files[i] == Whole(x.extras, VERSION) && |x.extras| == |st.data|
    case _ => |x.extras| == |st.data|
  }

  ghost predicate SaversOk(st: State) {
    forall s | 0 <= s < |st.savers| :: SaverOk(st, st.savers[s])
  }

  /** No two processes hold the lock of the same extras file. */
  ghost predicate LocksExclusive(savers: seq<Saver>) {
    forall s, t, i | 0 <= s < |savers| && 0 <= t < |savers| && s != t && savers[s].Locks(i) :: !savers[t].Locks(i)
  }

  ghost predicate AllIdle(savers: seq<Saver>) {
    forall s | 0 <= s < |savers| :: savers[s].at.Idle?
  }

  ghost predicate MergerOk(st: State) {
    && |st.disk| == |st.data|
    && (forall i | i in st.files :: CurrentWidth(st.files[i], |st.data|))
    && (!(st.merger.Merging? && st.merger.have) ==> st.disk == st.data)
    && (st.merger.Merging? ==> NoDups(st.merger.todo) && (set i | i in st.merger.todo) == st.files.Keys)
  }

  ghost predicate Inv(st: State) {
    && SaversOk(st) && LocksExclusive(st.savers) && MergerOk(st)
    && (!st.merger.Resting? ==> AllIdle(st.savers))
  }

  lemma SaverKeepsInv(st: State, step: Step)
    requires Inv(st) && SaverOf(step).Some? && Next(st, step).Some?
    ensures Inv(Next(st, step).value)
  {
    var st', s := Next(st, step).value, SaverOf(step).value;
    var x := st.savers[s];
    forall t | 0 <= t < |st'.savers| ensures SaverOk(st', st'.savers[t]) {
      if t != s && (step.Open? || step.Write?) {
        assert x.Locks(x.at.i) && !st.savers[t].Locks(x.at.i);
      }
    }
  }

  lemma MergerKeepsOk(st: State, step: Step)
    requires MergerOk(st) && MergerStep(st, step).Some?
    ensures MergerOk(MergerStep(st, step).value)
  {
    if step.MergeOne? {
      var todo := st.merger.todo;
      assert todo[0] !in todo[1..];
      assert (set i | i in todo[1..]) == (set i | i in todo) - {todo[0]};
    }
  }

  lemma MergerKeepsInv(st: State, step: Step)
    requires Inv(st) && SaverOf(step).None? && Next(st, step).Some?
    ensures Inv(Next(st, step).value)
  {
    MergerKeepsOk(st, step);
    var st' := Next(st, step).value;
    assert st'.savers == st.savers && (step.Acquire? || AllIdle(st.savers));
    assert |st'.data| == |st.data|;
  }

  lemma SafeKept(st: State, step: Step, j: nat, k: string)
    requires Inv(st) && Next(st, step).Some? && Safe(st, j, k)
    ensures Safe(Next(st, step).value, j, k)
  {
    var st' := Next(st, step).value;
    if k !in st.data[j] {
      var i :| i in st.files && Waits(st.files[i], |st.data|, j, k);
      if step.MergeOne? && i == st.merger.todo[0] {
        assert k in st'.data[j];
      } else {
        assert i in st'.files && st'.files[i] == st.files[i];
      }
    }
  }

  lemma WriteIsSafe(st: State, s: nat)
    requires Inv(st) && Next(st, Write(s)).Some?
    ensures var st', x := Next(st, Write(s)).value, st.savers[s].extras;
            |x| == |st'.data| && forall j | 0 <= j < |x| :: forall k | k in x[j] :: Safe(st', j, k)
  {
    var st', x := Next(st, Write(s)).value, st.savers[s].extras;
    var i := st.savers[s].at.i;
    forall j, k | 0 <= j < |x| && k in x[j] ensures Safe(st', j, k) {
      assert Waits(st'.files[i], |st'.data|, j, k);
    }
  }

  lemma StepKeepsSafe(st: State, step: Step)
    requires Inv(st) && AllSafe(st) && Next(st, step).Some?
    ensures AllSafe(Next(st, step).value)
  {
    var st' := Next(st, step).value;
    forall d | d in st'.completed
      ensures |d| == |st'.data| && forall j | 0 <= j < |d| :: forall k | k in d[j] :: Safe(st', j, k)
    {
      if d in st.completed {
        forall j, k | 0 <= j < |d| && k in d[j] ensures Safe(st', j, k) {
          SafeKept(st, step, j, k);
        }
      } else {
        WriteIsSafe(st, step.s);
      }
    }
  }

  lemma {:induction false} ExecInv(st: State, steps: seq<Step>)
    requires Init(st) && Exec(st, steps).Some?
    ensures Inv(Exec(st, steps).value) && AllSafe(Exec(st, steps).value)
  {
    if steps != [] {
      var front, step := steps[..|steps| - 1], steps[|steps| - 1];
      ExecInv(st, front);
      var s := Exec(st, front).value;
      StepKeepsSafe(s, step);
      if SaverOf(step).Some? {
        SaverKeepsInv(s, step);
      } else {
        MergerKeepsInv(s, step);
      }
    }
  }

  // ---- What every run promises -----------------------------------------------------------

  /** A saver never opens a file that exists: no unmerged file is overwritten. */
  lemma NeverOverwrites(st: State, steps: seq<Step>, s: nat)
    requires Init(st) && Exec(st, steps).Some?
    requires var now := Exec(st, steps).value; s < |now.savers| && now.savers[s].at.Clear?
    ensures var now := Exec(st, steps).value; now.savers[s].at.i !in now.files
  {
    ExecInv(st, steps);
  }

  /** While the merging process works, no saver is half-way: it can only meet broken files left from earlier runs. */
  lemma MergerSeesNoSaver(st: State, steps: seq<Step>)
    requires Init(st) && Exec(st, steps).Some? && !Exec(st, steps).value.merger.Resting?
    ensures forall x | x in Exec(st, steps).value.savers :: x.at.Idle?
  {
    ExecInv(st, steps);
  }

  /** No key of a completed save is ever lost, and after a finished merge all of them are in the cache file. */
  lemma NothingLost(st: State, steps: seq<Step>, d: Data, j: nat, k: string)
    requires Init(st) && Exec(st, steps).Some?
    requires d in Exec(st, steps).value.completed && j < |d| && k in d[j]
    ensures Safe(Exec(st, steps).value, j, k)
    ensures Next(Exec(st, steps).value, Finish).Some? ==>
              var done := Next(Exec(st, steps).value, Finish).value; j < |done.disk| && k in done.disk[j]
  {
    ExecInv(st, steps);
    var now := Exec(st, steps).value;
    assert Safe(now, j, k);
    if Next(now, Finish).Some? {
      assert now.files.Keys == {};
    }
  }

  /** The merging process never gets stuck on a file: it merges or discards every one it listed. */
  lemma MergeNeverStuck(st: State, steps: seq<Step>)
    requires Init(st) && Exec(st, steps).Some?
    requires var m := Exec(st, steps).value.merger; m.Merging? && m.todo != []
    ensures Next(Exec(st, steps).value, MergeOne).Some?
  {
    ExecInv(st, steps);
    var now := Exec(st, steps).value;
    assert now.merger.todo[0] in (set i | i in now.merger.todo);
  }

  /** Existing entries win: no step changes or drops an entry of the merging process's cache. */
  lemma EntriesWin(st: State, step: Step, j: nat, k: string)
    requires Inv(st) && Next(st, step).Some? && j < |st.data| && k in st.data[j]
    ensures var st' := Next(st, step).value;
            |st'.data| == |st.data| && k in st'.data[j] && st'.data[j][k] == st.data[j][k]
  {
  }

  // ---- What a merge computes ---------------------------------------------------------------

  /** The complete contents of the current version among the listed files, in the order of the list. */
  function Usable(files: map<nat, Content>, todo: seq<nat>): (r: seq<Data>) {
    if todo == [] then []
    else
      var rest := Usable(files, todo[1..]);
      if todo[0] in files && files[todo[0]].Whole?
          && files[todo[0]].version == VERSION then [files[todo[0]].data] + rest else rest
  }

  function Merges(n: nat): seq<Step> {
    seq(n, _ => MergeOne)
  }

  lemma {:induction false} ExecCons(st: State, step: Step, rest: seq<Step>)
    requires Next(st, step).Some?
    ensures Exec(st, [step] + rest) == Exec(Next(st, step).value, rest)
    decreases |rest|
  {
    var steps := [step] + rest;
    if rest == [] {
      assert steps[..0] == [] && Exec(st, steps[..0]) == Some(st);
    } else {
      assert steps[..|steps| - 1] == [step] + rest[..|rest| - 1];
      ExecCons(st, step, rest[..|rest| - 1]);
    }
  }

  lemma {:induction false} UsableWithout(files: map<nat, Content>, f: nat, todo: seq<nat>)
    requires f !in todo
    ensures Usable(files - {f}, todo) == Usable(files, todo)
  {
    if todo != [] {
      UsableWithout(files, f, todo[1..]);
    }
  }

  lemma {:induction false} UsableWidth(files: map<nat, Content>, todo: seq<nat>, width: nat)
    requires forall i | i in files :: CurrentWidth(files[i], width)
    ensures forall d | d in Usable(files, todo) :: |d| == width
  {
    if todo != [] {
      UsableWidth(files, todo[1..], width);
    }
  }

  /** While the merging process is at its list, nothing happens but its own steps. */
  lemma OnlyMerges(st: State, step: Step)
    requires Inv(st) && st.merger.Merging? && Next(st, step).Some?
    ensures if st.merger.todo == [] then step == Finish else step == MergeOne
  {
    if SaverOf(step).Some? {
      NoSaverStep(st, step);
    }
  }

  lemma NoSaverStep(st: State, step: Step)
    requires AllIdle(st.savers) && !st.merger.Resting? && SaverOf(step).Some?
    ensures Next(st, step).None?
  {
  }

  /** What is still to come of the merge, and whether anything was merged by its end. */
  ghost predicate Coming(st: State, data: Data, have: bool) {
    && Inv(st) && st.merger.Merging?
    && (forall d | d in Usable(st.files, st.merger.todo) :: |d| == |st.data|)
    && data == MergeAll(Usable(st.files, st.merger.todo), st.data)
    && (have <==> st.merger.have || Usable(st.files, st.merger.todo) != [])
  }

  /** One file of the list: merged if it is usable, else dropped. */
  lemma MergesFirst(st: State, data: Data, have: bool) returns (st': State)
    requires Coming(st, data, have) && st.merger.todo != []
    ensures Next(st, MergeOne) == Some(st') && Coming(st', data, have)
    ensures st'.disk == st.disk && st'.merger.todo == st.merger.todo[1..]
  {
    var f, rest := st.merger.todo[0], st.merger.todo[1..];
    assert f in (set i | i in st.merger.todo);
    assert CurrentWidth(st.files[f], |st.data|);
    st' := Next(st, MergeOne).value;
    MergerKeepsInv(st, MergeOne);
    UsableWithout(st.files, f, rest);
    UsableTail(st.files, st.merger.todo);
  }

  lemma UsableTail(files: map<nat, Content>, todo: seq<nat>)
    requires todo != [] && todo[0] in files
    ensures var f, rest := files[todo[0]], Usable(files, todo[1..]);
            if f.Whole? && f.version == VERSION then
              Usable(files, todo) != [] && Usable(files, todo)[0] == f.data && Usable(files, todo)[1..] == rest
            else Usable(files, todo) == rest
  {
  }

  /** The steps over the list leave the merge of all usable contents, in the order of the list. */
  lemma {:induction false} MergesAll(st: State, data: Data, have: bool) returns (done: State)
    requires Coming(st, data, have)
    ensures Exec(st, Merges(|st.merger.todo|)) == Some(done)
    ensures done.data == data && done.disk == st.disk && done.merger == Merging([], have)
    decreases |st.merger.todo|
  {
    if st.merger.todo == [] {
      done := st;
    } else {
      var st' := MergesFirst(st, data, have);
      done := MergesAll(st', data, have);
      assert Merges(|st.merger.todo|) == [MergeOne] + Merges(|st'.merger.todo|);
      ExecCons(st, MergeOne, Merges(|st'.merger.todo|));
    }
  }

  /** A whole merge, once the exclusive lock is held. */
  function WholeMerge(order: seq<nat>): seq<Step> {
    [List(order)] + (Merges(|order|) + [Finish])
  }

  lemma WholeMergeIs(st: State, order: seq<nat>) returns (done: State)
    requires Inv(st) && Next(st, List(order)).Some?
    ensures forall d | d in Usable(st.files, order) :: |d| == |st.data|
    ensures Exec(st, WholeMerge(order)) == Some(done)
    ensures done.disk == if Usable(st.files, order) == [] then st.disk else MergeAll(Usable(st.files, order), st.data)
  {
    var listed := Next(st, List(order)).value;
    MergerKeepsInv(st, List(order));
    UsableWidth(st.files, order, |st.data|);
    var merged := MergesAll(listed, MergeAll(Usable(st.files, order), st.data), Usable(st.files, order) != []);
    done := Next(merged, Finish).value;
    ExecSnoc(listed, Merges(|order|), merged, Finish);
    ExecCons(st, List(order), Merges(|order|) + [Finish]);
  }

  lemma ExecSnoc(st: State, steps: seq<Step>, mid: State, last: Step)
    requires Exec(st, steps) == Some(mid)
    ensures Exec(st, steps + [last]) == Next(mid, last)
  {
    assert (steps + [last])[..|steps|] == steps;
  }

  lemma {:induction false} UsableMembers(files: map<nat, Content>, todo: seq<nat>, d: Data)
    ensures d in Usable(files, todo) <==> exists i | i in todo :: i in files && files[i] == Whole(d, VERSION)
  {
    if todo != [] {
      UsableMembers(files, todo[1..], d);
      assert forall i :: i in todo <==> i == todo[0] || i in todo[1..];
    }
  }

  lemma SameUsable(files: map<nat, Content>, xs: seq<nat>, ys: seq<nat>)
    requires (set i | i in xs) == (set i | i in ys)
    ensures forall d :: d in Usable(files, xs) <==> d in Usable(files, ys)
    ensures Usable(files, xs) == [] <==> Usable(files, ys) == []
  {
    var ux, uy := Usable(files, xs), Usable(files, ys);
    var sx, sy := set i | i in xs, set i | i in ys;
    assert forall i :: i in xs <==> i in sx;
    assert forall i :: i in ys <==> i in sy;
    forall d ensures d in ux <==> d in uy {
      UsableMembers(files, xs, d);
      UsableMembers(files, ys, d);
    }
    assert (ux != [] ==> ux[0] in uy) && (uy != [] ==> uy[0] in ux);
  }

  /**
   If the usable contents are compatible, the cache file does not depend on the order in which the files are listed.
   */
  lemma DiskOrderIrrelevant(st: State, xs: seq<nat>, ys: seq<nat>)
    requires Inv(st) && Next(st, List(xs)).Some? && Next(st, List(ys)).Some?
    requires forall d | d in Usable(st.files, xs) :: |d| == |st.data|
    requires forall a, b | a in Usable(st.files, xs) && b in Usable(st.files, xs) :: Compatible(a, b, st.data)
    ensures Exec(st, WholeMerge(xs)).Some? && Exec(st, WholeMerge(ys)).Some?
    ensures Exec(st, WholeMerge(xs)).value.disk == Exec(st, WholeMerge(ys)).value.disk
  {
    var dx := WholeMergeIs(st, xs);
    var dy := WholeMergeIs(st, ys);
    SameUsable(st.files, xs, ys);
    MergeOrderIrrelevant(Usable(st.files, xs), Usable(st.files, ys), st.data);
  }

  /** The cache file after a whole merge in the given order. */
  function DiskAfter(st: State, order: seq<nat>): Option<Data> {
    match Exec(st, WholeMerge(order))
    case None => None
    case Some(done) => Some(done.disk)
  }

  ghost predicate AllCompatible(usable: seq<Data>, dest: Data)
    requires forall d | d in usable :: |d| == |dest|
  {
    forall a, b | a in usable && b in usable :: Compatible(a, b, dest)
  }

  /** The list with `f` moved to its front. */
  function First(order: seq<nat>, f: nat): seq<nat> {
    [f] + Without(order, f)
  }

  function Without(order: seq<nat>, f: nat): seq<nat> {
    if order == [] then [] else if order[0] == f then Without(order[1..], f) else [order[0]] + Without(order[1..], f)
  }

  lemma {:induction false} WithoutIs(order: seq<nat>, f: nat)
    requires NoDups(order)
    ensures NoDups(Without(order, f)) && forall i :: i in Without(order, f) <==> i in order && i != f
  {
    if order != [] {
      var x, rest := order[0], order[1..];
      assert order == [x] + rest;
      forall i, j | 0 <= i < j < |rest| ensures rest[i] != rest[j] {
        assert order[i + 1] != order[j + 1];
      }
      WithoutIs(rest, f);
      assert x !in Without(rest, f) by {
        assert forall j | 0 <= j < |rest| :: rest[j] == order[j + 1] && order[0] != order[j + 1];
      }
      ConsNoDups(x, Without(rest, f));
    }
  }

  lemma ConsNoDups(x: nat, xs: seq<nat>)
    requires NoDups(xs) && x !in xs
    ensures NoDups([x] + xs)
  {
    assert forall j | 0 <= j < |xs| :: ([x] + xs)[j + 1] == xs[j];
  }

  /** The moved list may be what the directory lists. */
  lemma FirstListed(st: State, order: seq<nat>, f: nat)
    requires Next(st, List(order)).Some? && f in order
    ensures Next(st, List(First(order, f))).Some?
  {
    WithoutIs(order, f);
    var moved := First(order, f);
    ConsNoDups(f, Without(order, f));
    assert forall i :: i in moved <==> i in order;
    assert (set i | i in moved) == (set i | i in order);
  }

  /** The contents listed first give all their entries that the cache does not have. */
  lemma FirstWins(st: State, order: seq<nat>, f: nat, a: Data, j: nat, k: string)
    requires Inv(st) && Next(st, List(order)).Some? && f in order && st.files[f] == Whole(a, VERSION)
    requires |a| == |st.data| && j < |a| && k in a[j] && k !in st.data[j]
    ensures var disk := DiskAfter(st, First(order, f));
            disk.Some? && |disk.value| == |st.data| && k in disk.value[j] && disk.value[j][k] == a[j][k]
  {
    FirstListed(st, order, f);
    var moved := First(order, f);
    var done := WholeMergeIs(st, moved);
    var rest := Usable(st.files, moved[1..]);
    assert Usable(st.files, moved) == [a] + rest;
    assert Usable(st.files, moved)[1..] == rest && forall d | d in rest :: d in Usable(st.files, moved);
    MergeAllAt(rest, Merge(a, st.data), j, k);
  }

  /** All listings give the same cache file exactly if the usable contents are compatible. */
  lemma DiskOrderExactly(st: State, order: seq<nat>)
    requires Inv(st) && Next(st, List(order)).Some?
    ensures forall d | d in Usable(st.files, order) :: |d| == |st.data|
    ensures (forall other | Next(st, List(other)).Some? :: DiskAfter(st, other) == DiskAfter(st, order)) <==>
            AllCompatible(Usable(st.files, order), st.data)
  {
    var done := WholeMergeIs(st, order);
    if AllCompatible(Usable(st.files, order), st.data) {
      forall other | Next(st, List(other)).Some? ensures DiskAfter(st, other) == DiskAfter(st, order) {
        DiskOrderIrrelevant(st, order, other);
      }
    } else {
      var a, b :| a in Usable(st.files, order) && b in Usable(st.files, order) && !Compatible(a, b, st.data);
      var j, k :| 0 <= j < |st.data| && k in a[j] && k in b[j] && k !in st.data[j] && a[j][k] != b[j][k];
      UsableMembers(st.files, order, a);
      UsableMembers(st.files, order, b);
      var f :| f in order && f in st.files && st.files[f] == Whole(a, VERSION);
      var g :| g in order && g in st.files && st.files[g] == Whole(b, VERSION);
      FirstWins(st, order, f, a, j, k);
      FirstWins(st, order, g, b, j, k);
      FirstListed(st, order, f);
      FirstListed(st, order, g);
      assert DiskAfter(st, First(order, f)) != DiskAfter(st, First(order, g));
    }
  }

  // ---- Which files a process writes ------------------------------------------------------

  /** The file a saver is at. */
  function FileOf(x: Saver): Option<nat> {
    match x.at
    case Probing(i) => Some(i)
    case Locked(i) => Some(i)
    case Clear(i) => Some(i)
    case Created(i) => Some(i)
    case Written(i) => Some(i)
    case _ => None
  }

  predicate FromPid(x: Saver) {
    FileOf(x).Some? ==> FileOf(x).value >= x.pid
  }

  /** A process starts looking at the file of its own number and goes on upwards, in every interleaving. */
  lemma {:induction false} StartsAtPid(st: State, steps: seq<Step>, s: nat)
    requires Init(st) && Exec(st, steps).Some? && s < |st.savers|
    ensures var st' := Exec(st, steps).value;
            |st'.savers| == |st.savers| && st'.savers[s].pid == st.savers[s].pid && FromPid(st'.savers[s])
  {
    if steps != [] {
      var front, step := steps[..|steps| - 1], steps[|steps| - 1];
      StartsAtPid(st, front, s);
      SaverStays(Exec(st, front).value, step, s);
    } else {
      assert st.savers[s] in st.savers;
    }
  }

  lemma SaverStays(st: State, step: Step, s: nat)
    requires Next(st, step).Some? && s < |st.savers| && FromPid(st.savers[s])
    ensures var st' := Next(st, step).value;
            |st'.savers| == |st.savers| && st'.savers[s].pid == st.savers[s].pid && FromPid(st'.savers[s])
  {
  }

  /** A process that has something to save and finds its own file free starts there. */
  lemma OwnFileFirst(st: State, s: nat, extras: Data)
    requires Next(st, Start(s, extras)).Some? && exists d :: d in extras && d != map[]
    ensures Next(st, Start(s, extras)).value.savers[s].at == Probing(st.savers[s].pid)
  {
  }
}
