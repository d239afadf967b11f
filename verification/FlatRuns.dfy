/**
 A flat store with a memo of its own, and whole runs of writes and reads on it: what an eager deep copy of a
 store does.
 */
module FlatRuns {
  import opened Prelude
  import opened Text
  import opened Datastore
  import opened Evaluation
  import opened Memo
  import opened Coherence
  import opened ReadsRight

  /** The reads: `getVar` and `getVarFlag`, expanded or not. */
  datatype Probe =
    | Value(name: Name)
    | Unexpanded(name: Name)
    | FlagValue(name: Name, flag: string)
    | FlagText(name: Name, flag: string)

  /** What a read answers, and what it leaves in the memo. */
  function Reply(st: Store, ord: Order, c: Cache, p: Probe, depth: nat): After<Option<Text>> {
    match p
    case Value(v) => ReadValue(depth, st, ord, c, Var(v))
    case Unexpanded(v) => ReadUnexpanded(depth, st, ord, c, v)
    case FlagValue(v, f) => ReadValue(depth, st, ord, c, VarFlag(v, f))
    case FlagText(v, f) => After(Success(RawFlag(st, v, f)), c)
  }

  /** One thing a client does with a store. */
  datatype Act = Do(w: Write) | Ask(p: Probe, depth: nat)

  datatype Machine = Machine(store: Store, cache: Cache)

  /** `setVar` with the old syntax is fatal and changes nothing, not even the memo. */
  predicate Refused(w: Write) {
    match w
    case WSet(name, _) => OldSyntax(name)
    case WAppend(name, _) => OldSyntax(name + ["append"])
    case WPrepend(name, _) => OldSyntax(name + ["prepend"])
    case _ => false
  }

  ghost predicate Legal(a: Act) {
    a.Do? ==> a.w.Legal()
  }

  ghost predicate AllLegal(acts: seq<Act>) {
    forall i | 0 <= i < |acts| :: Legal(acts[i])
  }

  ghost function StoreAfter(st: Store, a: Act): Store
    requires Legal(a)
  {
    match a
    case Do(w) => Apply(st, w)
    case Ask(_, _) => st
  }

  ghost function Next(m: Machine, ord: Order, a: Act): (m': Machine)
    requires Legal(a)
    ensures m'.store == StoreAfter(m.store, a)
  {
    match a
    case Do(w) => Machine(Apply(m.store, w), if Refused(w) then m.cache else map[])
    case Ask(p, depth) => Machine(m.store, Reply(m.store, ord, m.cache, p, depth).cache)
  }

  function Answer(m: Machine, ord: Order, a: Act): Option<Result<Option<Text>>> {
    match a
    case Do(_) => None
    case Ask(p, depth) => Some(Reply(m.store, ord, m.cache, p, depth).result)
  }

  /** The store before act `i`, */
  ghost function StoreAt(st: Store, acts: seq<Act>, i: nat): Store
    requires AllLegal(acts) && i <= |acts|
  {
    if i == 0 then st else StoreAfter(StoreAt(st, acts, i - 1), acts[i - 1])
  }

  /** and the machine. */
  ghost function MachineAt(m: Machine, ord: Order, acts: seq<Act>, i: nat): (m': Machine)
    requires AllLegal(acts) && i <= |acts|
    ensures m'.store == StoreAt(m.store, acts, i)
  {
    if i == 0 then m else Next(MachineAt(m, ord, acts, i - 1), ord, acts[i - 1])
  }

  /** What every act of a run answers. */
  ghost function Answers(m: Machine, ord: Order, acts: seq<Act>): seq<Option<Result<Option<Text>>>>
    requires AllLegal(acts)
  {
    seq(|acts|, i requires 0 <= i < |acts| => Answer(MachineAt(m, ord, acts, i), ord, acts[i]))
  }

  lemma AnswersNext(m: Machine, ord: Order, acts: seq<Act>, i: nat)
    requires AllLegal(acts) && i < |acts|
    ensures Answers(m, ord, acts)[..i + 1]
            == Answers(m, ord, acts)[..i] + [Answer(MachineAt(m, ord, acts, i), ord, acts[i])]
  {
  }

  // ---- Cache-free answers ------------------------------------------------------------------------

  /** What the strict cache-free evaluation makes of a read within a recursion depth. */
  function CacheFree(st: Store, p: Probe, depth: nat): Result<Option<Text>> {
    match p
    case Value(v) => var r :- Eval(depth, st, true, true, Var(v)); Success(r.value)
    case Unexpanded(v) =>
      if depth == 0 then Failure
      else var r :- EvalVariant(depth - 1, st, true, v); Success(Raw(st, v, r.unexpanded))
    case FlagValue(v, f) => var r :- Eval(depth, st, true, true, VarFlag(v, f)); Success(r.value)
    case FlagText(v, f) => Success(RawFlag(st, v, f))
  }

  /** The value that some (lenient) cache-free evaluation gives, at any depth. */
  ghost predicate ValueOf(st: Store, p: Probe, value: Option<Text>) {
    match p
    case Value(v) => exists q :: EvalsTo(st, Var(v), q) && value == q.value
    case Unexpanded(v) => exists q :: VariantIs(st, v, q) && value == Raw(st, v, q.unexpanded)
    case FlagValue(v, f) => exists q :: EvalsTo(st, VarFlag(v, f), q) && value == q.value
    case FlagText(v, f) => value == RawFlag(st, v, f)
  }

  /** There is only one such value. */
  lemma ValueUnique(st: Store, p: Probe, x: Option<Text>, y: Option<Text>)
    requires ValueOf(st, p, x) && ValueOf(st, p, y)
    ensures x == y
  {
    match p {
      case Value(v) =>
        var q :| EvalsTo(st, Var(v), q) && x == q.value;
        var r :| EvalsTo(st, Var(v), r) && y == r.value;
        EvalUnique(st, Var(v), q, r);
      case Unexpanded(v) =>
        var q :| VariantIs(st, v, q) && x == Raw(st, v, q.unexpanded);
        var r :| VariantIs(st, v, r) && y == Raw(st, v, r.unexpanded);
        if Chosen(st, v).Some? {
          EvalUnique(st, Var(Chosen(st, v).value), q, r);
        }
      case FlagValue(v, f) =>
        var q :| EvalsTo(st, VarFlag(v, f), q) && x == q.value;
        var r :| EvalsTo(st, VarFlag(v, f), r) && y == r.value;
        EvalUnique(st, VarFlag(v, f), q, r);
      case FlagText(v, f) =>
    }
  }

  /** When the strict evaluation succeeds, it gives that value. */
  lemma CacheFreeIsValue(st: Store, p: Probe, depth: nat)
    requires CacheFree(st, p, depth).Success?
    ensures ValueOf(st, p, CacheFree(st, p, depth).value)
  {
    match p
    case Value(v) => StrictValue(st, Var(v), depth);
    case Unexpanded(v) =>
      if Chosen(st, v).Some? {
        var k := Var(Chosen(st, v).value);
        StrictIsLenient(depth - 1, st, false, k);
        assert EvalsTo(st, k, Eval(depth - 1, st, false, true, k).value);
      }
    case FlagValue(v, f) => StrictValue(st, VarFlag(v, f), depth);
    case FlagText(_, _) =>
  }

  lemma StrictValue(st: Store, k: Key, depth: nat)
    requires Eval(depth, st, true, true, k).Success?
    ensures exists q :: EvalsTo(st, k, q) && Eval(depth, st, true, true, k).value.value == q.value
  {
    StrictIsLenient(depth, st, true, k);
    assert EvalsTo(st, k, Eval(depth, st, false, true, k).value);
  }

  /**
   What a read may answer: a value is the cache-free one, and if the strict cache-free evaluation succeeds within the
   same recursion depth, the read succeeds with its value.
   */
  ghost predicate Answered(st: Store, p: Probe, depth: nat, answer: Result<Option<Text>>) {
    && (answer.Success? ==> ValueOf(st, p, answer.value))
    && (CacheFree(st, p, depth).Success? ==> answer == CacheFree(st, p, depth))
  }

  // ---- One read ----------------------------------------------------------------------------------

  lemma ValueRight(st: Store, ord: Order, c: Cache, k: Key, depth: nat)
    requires Ready(st, ord, c)
    ensures var a := ReadValue(depth, st, ord, c, k);
            && Right(st, a.cache)
            && (a.result.Success? ==> exists q :: EvalsTo(st, k, q) && a.result.value == q.value)
            && Succeeds(st, Eval(depth, st, true, true, k).Success?, a)
  {
    ReadRight(depth, st, ord, c, true, k);
    var a := Read(depth, st, ord, c, true, k);
    if a.result.Success? {
      assert EntryOk(st, k, a.cache[k]);
    }
  }

  lemma UnexpandedRight(st: Store, ord: Order, c: Cache, v: Name, n: nat)
    requires Ready(st, ord, c)
    ensures var a := ReadUnexpanded(n + 1, st, ord, c, v);
            && Right(st, a.cache)
            && (a.result.Success? ==> ValueOf(st, Unexpanded(v), a.result.value))
            && Succeeds(st, EvalVariant(n, st, true, v).Success?, a)
  {
    var m := ReadVariant(n, st, ord, c, v);
    var q := VariantRight(n, st, ord, c, v);
    if m.result.Success? && Truthy(Raw(st, v, m.result.value.unexpanded)) {
      GatherRight(st, m.cache, v, q, m.result.value.removes.Some?);
    }
  }

  /** On a harmless store a read answers with the cache-free value; and without exception, if nothing spills. */
  lemma ReplyRight(st: Store, ord: Order, c: Cache, p: Probe, depth: nat)
    requires Ready(st, ord, c)
    ensures var a := Reply(st, ord, c, p, depth);
            && Right(st, a.cache) && (a.result.Success? ==> ValueOf(st, p, a.result.value))
            && (NoSpill(st) ==> Answered(st, p, depth, a.result))
  {
    match p {
      case Value(v) => ValueRight(st, ord, c, Var(v), depth);
      case Unexpanded(v) =>
        if depth > 0 {
          UnexpandedRight(st, ord, c, v, depth - 1);
        }
      case FlagValue(v, f) => ValueRight(st, ord, c, VarFlag(v, f), depth);
      case FlagText(_, _) =>
    }
    var a := Reply(st, ord, c, p, depth);
    if NoSpill(st) && CacheFree(st, p, depth).Success? {
      CacheFreeIsValue(st, p, depth);
      ValueUnique(st, p, a.result.value, CacheFree(st, p, depth).value);
    }
  }

  // ---- Whole runs --------------------------------------------------------------------------------

  /** At every read the store is harmless. */
  ghost predicate ReadsHarmless(st: Store, acts: seq<Act>)
    requires AllLegal(acts)
  {
    forall i | 0 <= i < |acts| && acts[i].Ask? :: Harmless(StoreAt(st, acts, i))
  }

  ghost predicate ReadsSpillNothing(st: Store, acts: seq<Act>)
    requires AllLegal(acts)
  {
    forall i | 0 <= i < |acts| && acts[i].Ask? :: NoSpill(StoreAt(st, acts, i))
  }

  /** At every read the sharers of a variant agree on their removals. */
  ghost predicate ReadsAgree(st: Store, acts: seq<Act>)
    requires AllLegal(acts)
  {
    forall i | 0 <= i < |acts| && acts[i].Ask? :: SharersAgree(StoreAt(st, acts, i))
  }

  /** Every answer that is a value is the cache-free one, in the store of its time; */
  ghost predicate AllValues(st: Store, acts: seq<Act>, answers: seq<Option<Result<Option<Text>>>>)
    requires AllLegal(acts) && |answers| == |acts|
  {
    forall i | 0 <= i < |acts| && acts[i].Ask? && answers[i].Some? && answers[i].value.Success? ::
      ValueOf(StoreAt(st, acts, i), acts[i].p, answers[i].value.value)
  }

  /** and no read fails that would succeed without the memo. */
  ghost predicate AllAnswered(st: Store, acts: seq<Act>, answers: seq<Option<Result<Option<Text>>>>)
    requires AllLegal(acts) && |answers| == |acts|
  {
    forall i | 0 <= i < |acts| && acts[i].Ask? ::
      answers[i].Some? && Answered(StoreAt(st, acts, i), acts[i].p, acts[i].depth, answers[i].value)
  }

  lemma NothingWrong(st: Store)
    ensures Right(st, map[])
  {
  }

  /** The memo is empty, or was filled by reads of this store. */
  lemma {:induction false} MachineRight(m: Machine, ord: Order, acts: seq<Act>, i: nat)
    requires IsOrder(ord) && AllLegal(acts) && i <= |acts| && ReadsHarmless(m.store, acts) && Right(m.store, m.cache)
    ensures var m' := MachineAt(m, ord, acts, i); Right(m'.store, m'.cache)
    decreases i
  {
    if i > 0 {
      MachineRight(m, ord, acts, i - 1);
      var m0 := MachineAt(m, ord, acts, i - 1);
      match acts[i - 1]
      case Do(w) => NothingWrong(Apply(m0.store, w));
      case Ask(p, depth) => ReplyRight(m0.store, ord, m0.cache, p, depth);
    }
  }

  lemma RunRight(m: Machine, ord: Order, acts: seq<Act>)
    requires IsOrder(ord) && AllLegal(acts) && ReadsHarmless(m.store, acts) && Right(m.store, m.cache)
    ensures AllValues(m.store, acts, Answers(m, ord, acts))
    ensures ReadsSpillNothing(m.store, acts) ==> AllAnswered(m.store, acts, Answers(m, ord, acts))
  {
    forall i | 0 <= i < |acts| && acts[i].Ask?
      ensures var m' := MachineAt(m, ord, acts, i); var a := Reply(m'.store, ord, m'.cache, acts[i].p, acts[i].depth);
              && (a.result.Success? ==> ValueOf(m'.store, acts[i].p, a.result.value))
              && (NoSpill(m'.store) ==> Answered(m'.store, acts[i].p, acts[i].depth, a.result))
    {
      MachineRight(m, ord, acts, i);
      var m' := MachineAt(m, ord, acts, i);
      ReplyRight(m'.store, ord, m'.cache, acts[i].p, acts[i].depth);
    }
  }

  /** In any interleaving of writes and reads, all reads answer with the cache-free values, if nothing spills. */
  lemma SpillFreeRun(st: Store, ord: Order, acts: seq<Act>)
    requires IsOrder(ord) && AllLegal(acts) && ReadsSpillNothing(st, acts)
    ensures AllAnswered(st, acts, Answers(Machine(st, map[]), ord, acts))
  {
    forall i | 0 <= i < |acts| && acts[i].Ask? ensures Harmless(StoreAt(st, acts, i)) {
      NoSpillHarmless(StoreAt(st, acts, i));
    }
    NothingWrong(st);
    RunRight(Machine(st, map[]), ord, acts);
  }

  /** Values where the stores are harmless, and no other exceptions where nothing spills. */
  ghost predicate RightWhereHarmless(st: Store, ord: Order, acts: seq<Act>, answers: seq<Option<Result<Option<Text>>>>)
    requires AllLegal(acts) && |answers| == |acts|
  {
    IsOrder(ord) ==>
      && (ReadsHarmless(st, acts) ==> AllValues(st, acts, answers))
      && (ReadsSpillNothing(st, acts) ==> AllAnswered(st, acts, answers))
  }

  lemma HarmlessAnswers(st: Store, ord: Order, acts: seq<Act>)
    requires AllLegal(acts)
    ensures RightWhereHarmless(st, ord, acts, Answers(Machine(st, map[]), ord, acts))
  {
    NothingWrong(st);
    if IsOrder(ord) && ReadsHarmless(st, acts) {
      RunRight(Machine(st, map[]), ord, acts);
    }
    if IsOrder(ord) && ReadsSpillNothing(st, acts) {
      SpillFreeRun(st, ord, acts);
    }
  }

  lemma AgreeingRun(st: Store, ord: Order, acts: seq<Act>)
    requires IsOrder(ord) && AllLegal(acts) && ReadsAgree(st, acts)
    ensures AllAnswered(st, acts, Answers(Machine(st, map[]), ord, acts))
  {
    forall i | 0 <= i < |acts| && acts[i].Ask? ensures NoSpill(StoreAt(st, acts, i)) {
      AgreeNoSpill(StoreAt(st, acts, i));
    }
    SpillFreeRun(st, ord, acts);
  }
}
