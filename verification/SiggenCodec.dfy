/**
 The deduplicating record stream of `SiggenRecipeInfo`.  A writer process sends each distinct value
 once, with a number, and afterwards only the number; a reader keeps one number table per writer pid.
 */
module SiggenCodec {
  import opened Prelude

  /** One dependency: its name and, unless it is None, its (hashable) value. */
  datatype Dep<V> = Dep(name: string, fs: Option<V>)

  /** One encoded dependency `(dep, fs, mapnum)`. */
  datatype Cell<V> = Cell(name: string, fs: Option<V>, num: Option<nat>)

  /** The dictionary whose items, in iteration order, are `deps`. */
  function AsMap<V>(deps: seq<Dep<V>>): map<string, Option<V>> {
    if deps == [] then map[]
    else AsMap(deps[..|deps| - 1])[deps[|deps| - 1].name := deps[|deps| - 1].fs]
  }

  // ---- One stream, as functions ----------------------------------------------------------

  /** The writer's class variables: `save_map` and `save_count`. */
  datatype Sender<V> = Sender(saveMap: map<V, nat>, saveCount: nat) {

    predicate Valid() {
      forall v | v in saveMap :: saveMap[v] < saveCount
    }
  }

  function Fresh<V>(): Sender<V> {
    Sender(map[], 1)
  }

  function SaveOne<V>(w: Sender<V>, d: Dep<V>): (r: (Sender<V>, Cell<V>)) {
    match d.fs
    case None => (w, Cell(d.name, None, None))
    case Some(v) =>
      if v in w.saveMap then (w, Cell(d.name, None, Some(w.saveMap[v])))
      else (Sender(w.saveMap[v := w.saveCount], w.saveCount + 1), Cell(d.name, Some(v), Some(w.saveCount)))
  }

  function SaveAll<V>(w: Sender<V>, deps: seq<Dep<V>>): (r: (Sender<V>, seq<Cell<V>>))
    ensures |r.1| == |deps|
  {
    if deps == [] then (w, [])
    else
      var (w1, cells) := SaveAll(w, deps[..|deps| - 1]);
      var (w2, cell) := SaveOne(w1, deps[|deps| - 1]);
      (w2, cells + [cell])
  }

  /** The value a cell stands for, and the number table after it; a missing number is a KeyError. */
  function RestoreOne<V>(m: map<nat, V>, c: Cell<V>): Result<(map<nat, V>, Option<V>)> {
    match (c.fs, c.num)
    case (None, None) => Success((m, None))
    case (None, Some(n)) => if n in m then Success((m, Some(m[n]))) else Failure
    case (Some(v), Some(n)) => Success((m[n := v], Some(v)))
    case (Some(v), None) => Success((m, Some(v)))
  }

  function RestoreAll<V>(m: map<nat, V>, cells: seq<Cell<V>>): Result<(map<nat, V>, map<string, Option<V>>)> {
    if cells == [] then Success((m, map[]))
    else
      var r :- RestoreAll(m, cells[..|cells| - 1]);
      var c := cells[|cells| - 1];
      var r' :- RestoreOne(r.0, c);
      Success((r'.0, r.1[c.name := r'.1]))
  }

  // ---- The classes -----------------------------------------------------------------------

  class Writer<V(==)> {
    var saveMap: map<V, nat>
    var saveCount: nat

    constructor ()
      ensures State() == Fresh()
    {
      saveMap, saveCount := map[], 1;
    }

    function State(): Sender<V>
      reads this
    {
      Sender(saveMap, saveCount)
    }

    method Reset()
      modifies this
      ensures State() == Fresh()
    {
      saveMap, saveCount := map[], 1;
    }

    method Save(deps: seq<Dep<V>>) returns (ret: seq<Cell<V>>)
      modifies this
      ensures SaveAll(old(State()), deps) == (State(), ret)
    {
      ret := [];
      for i := 0 to |deps|
        invariant SaveAll(old(State()), deps[..i]) == (State(), ret)
      {
        assert deps[..i + 1][..i] == deps[..i];
        var d := deps[i];
        if d.fs.None? {
          ret := ret + [Cell(d.name, None, None)];
        } else if d.fs.value in saveMap {
          ret := ret + [Cell(d.name, None, Some(saveMap[d.fs.value]))];
        } else {
          saveMap := saveMap[d.fs.value := saveCount];
          ret := ret + [Cell(d.name, d.fs, Some(saveCount))];
          saveCount := saveCount + 1;
        }
      }
      assert deps[..|deps|] == deps;
    }
  }

  class Reader<V(==)> {
    var restoreMap: map<nat, map<nat, V>>

    constructor ()
      ensures restoreMap == map[]
    {
      restoreMap := map[];
    }

    function Table(pid: nat): map<nat, V>
      reads this
    {
      if pid in restoreMap then restoreMap[pid] else map[]
    }

    method Restore(cells: seq<Cell<V>>, pid: nat) returns (r: Result<map<string, Option<V>>>)
      modifies this
      ensures var spec := RestoreAll(old(Table(pid)), cells);
              if spec.Success? then r == Success(spec.value.1) && Table(pid) == spec.value.0 else r.Failure?
      ensures forall p | p != pid :: Table(p) == old(Table(p))
    {
      var ret: map<string, Option<V>> := map[];
      if pid !in restoreMap {
        restoreMap := restoreMap[pid := map[]];
      }
      for i := 0 to |cells|
        invariant pid in restoreMap
        invariant RestoreAll(old(Table(pid)), cells[..i]) == Success((restoreMap[pid], ret))
        invariant forall p | p != pid :: Table(p) == old(Table(p))
      {
        assert cells[..i + 1][..i] == cells[..i];
        var c := cells[i];
        if c.fs.None? && c.num.None? {
          ret := ret[c.name := None];
        } else if c.fs.None? {
          if c.num.value !in restoreMap[pid] {
            RestoreStuck(old(Table(pid)), cells, i + 1);
            return Failure;
          }
          ret := ret[c.name := Some(restoreMap[pid][c.num.value])];
        } else {
          if c.num.Some? {
            var table: map<nat, V> := restoreMap[pid];
            restoreMap := restoreMap[pid := table[c.num.value := c.fs.value]];
          }
          ret := ret[c.name := c.fs];
        }
      }
      assert cells[..|cells|] == cells;
      r := Success(ret);
    }
  }

  /** A prefix that cannot be restored stops the whole record. */
  lemma {:induction false} RestoreStuck<V>(m: map<nat, V>, cells: seq<Cell<V>>, i: nat)
    requires i <= |cells| && RestoreAll(m, cells[..i]).Failure?
    ensures RestoreAll(m, cells).Failure?
    decreases |cells|
  {
    if i < |cells| {
      var front := cells[..|cells| - 1];
      assert front[..i] == cells[..i];
      RestoreStuck(m, front, i);
    } else {
      assert cells[..i] == cells;
    }
  }

  // ---- Round trip of one record ----------------------------------------------------------

  /** Whatever the writer would abbreviate, the reader can look up. */
  ghost predicate Coherent<V(!new)>(w: Sender<V>, m: map<nat, V>) {
    w.Valid() && forall v | v in w.saveMap :: w.saveMap[v] in m && m[w.saveMap[v]] == v
  }

  lemma RoundTripOne<V(!new)>(w: Sender<V>, m: map<nat, V>, d: Dep<V>)
    requires Coherent(w, m)
    ensures var (w', cell) := SaveOne(w, d); var r := RestoreOne(m, cell);
            cell.name == d.name && r.Success? && r.value.1 == d.fs && Coherent(w', r.value.0)
  {
  }

  lemma {:induction false} RoundTrip<V(!new)>(w: Sender<V>, m: map<nat, V>, deps: seq<Dep<V>>)
    requires Coherent(w, m)
    ensures var (w', cells) := SaveAll(w, deps); var r := RestoreAll(m, cells);
            r.Success? && r.value.1 == AsMap(deps) && Coherent(w', r.value.0)
  {
    if deps != [] {
      var front := deps[..|deps| - 1];
      RoundTrip(w, m, front);
      var (w1, cells) := SaveAll(w, front);
      var m1 := RestoreAll(m, cells).value.0;
      RoundTripOne(w1, m1, deps[|deps| - 1]);
      var all := SaveAll(w, deps).1;
      assert all[..|all| - 1] == cells;
    }
  }

  /**
   A stream position decodes every record faithfully exactly when writer and reader are coherent:
   a writer with an inherited `save_map`, or a reader that reset alone, must lose some record.
   */
  lemma FaithfulExactly<V(!new)>(w: Sender<V>, m: map<nat, V>)
    requires w.Valid()
    ensures Coherent(w, m) <==>
            forall deps {:trigger SaveAll(w, deps)} ::
              var r := RestoreAll(m, SaveAll(w, deps).1); r.Success? && r.value.1 == AsMap(deps)
  {
    if Coherent(w, m) {
      forall deps ensures var r := RestoreAll(m, SaveAll(w, deps).1); r.Success? && r.value.1 == AsMap(deps) {
        RoundTrip(w, m, deps);
      }
    } else {
      var v :| v in w.saveMap && !(w.saveMap[v] in m && m[w.saveMap[v]] == v);
      Unfaithful(w, m, v);
      assert SaveAll(w, [Dep("d", Some(v))]) == SaveAll(w, [Dep("d", Some(v))]);
    }
  }

  lemma Unfaithful<V(!new)>(w: Sender<V>, m: map<nat, V>, v: V)
    requires v in w.saveMap && !(w.saveMap[v] in m && m[w.saveMap[v]] == v)
    ensures var deps := [Dep("d", Some(v))]; var r := RestoreAll(m, SaveAll(w, deps).1);
            !(r.Success? && r.value.1 == AsMap(deps))
  {
    var deps := [Dep("d", Some(v))];
    var cell := Cell("d", None, Some(w.saveMap[v]));
    assert deps[..0] == [] && SaveAll(w, deps[..0]) == (w, []);
    assert SaveOne(w, deps[0]) == (w, cell);
    assert SaveAll(w, deps).1 == [] + [cell] == [cell];
    assert [cell][..0] == [] && RestoreAll(m, [cell][..0]) == Success((m, map[]));
    assert AsMap(deps)["d"] == Some(v);
    assert RestoreOne(m, cell).Success? ==> RestoreAll(m, [cell]).value.1["d"] == Some(m[w.saveMap[v]]);
  }

  // ---- Any interleaving of streams -------------------------------------------------------

  /** The writers by pid, the records in flight with what was saved in them, and the reader's tables. */
  datatype System<V> = System(writers: map<nat, Sender<V>>,
                              flight: map<nat, seq<(seq<Dep<V>>, seq<Cell<V>>)>>,
                              tables: map<nat, map<nat, V>>)
  {
    function Writer(pid: nat): Sender<V> { if pid in writers then writers[pid] else Fresh() }
    function Flight(pid: nat): seq<(seq<Dep<V>>, seq<Cell<V>>)> { if pid in flight then flight[pid] else [] }
    function Table(pid: nat): map<nat, V> { if pid in tables then tables[pid] else map[] }
  }

  /** `Restart` covers both a `reset()` and a new process that reuses the pid. */
  datatype Step<V> = Save(pid: nat, deps: seq<Dep<V>>) | Restart(pid: nat) | Restore(pid: nat)

  function Next<V>(s: System<V>, step: Step<V>): System<V> {
    match step
    case Save(pid, deps) =>
      var (w, cells) := SaveAll(s.Writer(pid), deps);
      s.(writers := s.writers[pid := w], flight := s.flight[pid := s.Flight(pid) + [(deps, cells)]])
    case Restart(pid) => s.(writers := s.writers[pid := Fresh()])
    case Restore(pid) =>
      if s.Flight(pid) == [] then s
      else
        var r := RestoreAll(s.Table(pid), s.Flight(pid)[0].1);
        s.(flight := s.flight[pid := s.Flight(pid)[1..]],
           tables := if r.Success? then s.tables[pid := r.value.0] else s.tables)
  }

  function Exec<V>(steps: seq<Step<V>>): System<V> {
    if steps == [] then System(map[], map[], map[]) else Next(Exec(steps[..|steps| - 1]), steps[|steps| - 1])
  }

  /** Every record in flight will decode to what was saved, and the writer is coherent after the last one. */
  ghost predicate InSync<V(!new)>(w: Sender<V>, m: map<nat, V>, flight: seq<(seq<Dep<V>>, seq<Cell<V>>)>)
    decreases |flight|
  {
    if flight == [] then Coherent(w, m)
    else
      var r := RestoreAll(m, flight[0].1);
      r.Success? && r.value.1 == AsMap(flight[0].0) && InSync(w, r.value.0, flight[1..])
  }

  lemma {:induction false} SaveKeepsSync<V(!new)>(
      w: Sender<V>, m: map<nat, V>, flight: seq<(seq<Dep<V>>, seq<Cell<V>>)>, deps: seq<Dep<V>>)
    requires InSync(w, m, flight)
    ensures var (w', cells) := SaveAll(w, deps); InSync(w', m, flight + [(deps, cells)])
    decreases |flight|
  {
    var (w', cells) := SaveAll(w, deps);
    var last := (deps, cells);
    if flight == [] {
      RoundTrip(w, m, deps);
      assert [] + [last] == [last] && [last][1..] == [];
      assert InSync(w', RestoreAll(m, cells).value.0, []);
    } else {
      SaveKeepsSync(w, RestoreAll(m, flight[0].1).value.0, flight[1..], deps);
      assert (flight + [last])[1..] == flight[1..] + [last];
    }
  }

  lemma {:induction false} RestartKeepsSync<V(!new)>(
      w: Sender<V>, m: map<nat, V>, flight: seq<(seq<Dep<V>>, seq<Cell<V>>)>)
    requires InSync(w, m, flight)
    ensures InSync(Fresh(), m, flight)
    decreases |flight|
  {
    if flight != [] {
      RestartKeepsSync(w, RestoreAll(m, flight[0].1).value.0, flight[1..]);
    }
  }

  lemma {:induction false} AllInSync<V(!new)>(steps: seq<Step<V>>, pid: nat)
    ensures var s := Exec(steps); InSync(s.Writer(pid), s.Table(pid), s.Flight(pid))
  {
    if steps != [] {
      var front, step := steps[..|steps| - 1], steps[|steps| - 1];
      AllInSync(front, pid);
      var s := Exec(front);
      if step.Save? && step.pid == pid {
        SaveKeepsSync(s.Writer(pid), s.Table(pid), s.Flight(pid), step.deps);
      } else if step.Restart? && step.pid == pid {
        RestartKeepsSync(s.Writer(pid), s.Table(pid), s.Flight(pid));
      }
    }
  }

  /**
   In every interleaving of saves, writer resets, reused pids and in-order restores, the record that
   is restored next decodes to exactly the dictionary that was saved in it.
   */
  lemma EveryRestoreIsFaithful<V(!new)>(steps: seq<Step<V>>, pid: nat)
    requires Exec(steps).Flight(pid) != []
    ensures var s := Exec(steps); var (deps, cells) := s.Flight(pid)[0];
            RestoreAll(s.Table(pid), cells).Success? && RestoreAll(s.Table(pid), cells).value.1 == AsMap(deps)
  {
    AllInSync(steps, pid);
  }
}
