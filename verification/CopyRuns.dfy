/**
 Whole runs on a copy: the copy behaves as an eager deep copy would, and nothing its parent
 shows is ever changed.
 */
module CopyRuns {
  import opened Prelude
  import opened Text
  import opened Overrides
  import opened Datastore
  import opened Evaluation
  import opened Memo
  import opened Coherence
  import opened ReadsRight
  import opened FlatRuns
  import opened SmartData

  // ---- Single-level names keep every variant under one owner -------------------------------

  /** Where a one- or two-component name is listed. */
  ghost predicate ListsShort(owner: Name, x: Variant) {
    if |x.name| == 1 then x.name[0] != "" && owner == [x.name[0][..|x.name[0]| - 1]]
    else |x.name| == 2 && owner == x.name[..1]
  }

  ghost predicate ShortListed(vs: Variants) {
    forall owner | owner in vs :: forall x | x in vs[owner] :: ListsShort(owner, x)
  }

  /** At most one override in the name that is written. */
  ghost predicate ShortTarget(name: Name) {
    match ParseTarget(name)
    case Plain => |name| <= 2
    case Operation(base, _, _) => |base| <= 2
  }

  ghost predicate ShortWrite(w: Write) {
    match w
    case WSet(name, _) => ShortTarget(name)
    case WAppend(name, _) => ShortTarget(name + ["append"])
    case WPrepend(name, _) => ShortTarget(name + ["prepend"])
    case WDel(_) => true
    case WSetFlag(name, _, _) => |name| <= 2
    case WDelFlag(_, _) => true
  }

  lemma RegisterShort(vs: Variants, name: Name)
    requires ShortListed(vs) && |name| <= 2
    ensures ShortListed(Register(vs, name))
  {
    if |name| == 2 && OverrideStart(name[1]) {
      var vs' := AddVariant(vs, name[..1], Variant(name, name[1..]));
      assert ShortListed(vs');
      assert RegisterFrom(vs', name, 0) == vs';
    }
  }

  lemma {:induction false} RemoveFirstSubset<T>(list: seq<T>, x: T)
    ensures forall y | y in RemoveFirst(list, x) :: y in list
  {
    if list != [] && list[0] != x {
      RemoveFirstSubset(list[1..], x);
    }
  }

  lemma {:induction false} UnregisterShort(vs: Variants, name: Name, k: nat)
    requires ShortListed(vs) && k < |name|
    ensures ShortListed(UnregisterFrom(vs, name, k))
    decreases k
  {
    if k > 0 && OverrideStart(name[k]) {
      var owner, x := name[..k], Variant(name, name[k..]);
      var vs' := if owner in vs then vs[owner := RemoveFirst(vs[owner], x)] else vs;
      if owner in vs {
        RemoveFirstSubset(vs[owner], x);
      }
      assert ShortListed(vs');
      UnregisterShort(vs', name, k - 1);
    }
  }

  lemma DelVarShort(st: Store, name: Name)
    requires ShortListed(st.variants)
    ensures ShortListed(DelVar(st, name).variants)
  {
    if |name| > 1 {
      UnregisterShort(st.variants - {name}, name, |name| - 1);
    }
  }

  lemma {:induction false} DelVarsShort(st: Store, names: seq<Name>)
    requires ShortListed(st.variants)
    ensures ShortListed(DelVars(st, names).variants)
  {
    if names != [] {
      DelVarsShort(st, names[..|names| - 1]);
      DelVarShort(DelVars(st, names[..|names| - 1]), names[|names| - 1]);
    }
  }

  lemma ForgetShort(st: Store, name: Name)
    requires ShortListed(st.variants)
    ensures ShortListed(Forget(st, name).variants)
  {
    if name in st.variants {
      DelVarsShort(st.Put(name, st.EntryOf(name).(items := map[])), ActiveNames(st.variants[name], st.overrides));
    }
  }

  lemma SetVarShort(st: Store, name: Name, value: Text, parsing: bool)
    requires ShortListed(st.variants) && ShortTarget(name)
    ensures ShortListed(SetVar(st, name, value, parsing).variants)
  {
    match ParseTarget(name)
    case Operation(base, _, _) => RegisterShort(st.variants, base);
    case Plain =>
      ForgetShort(st, name);
      RegisterShort((if parsing then st else Forget(st, name)).variants, name);
  }

  lemma ApplyShort(st: Store, w: Write)
    requires ShortListed(st.variants) && w.Legal() && ShortWrite(w)
    ensures ShortListed(Apply(st, w).variants)
  {
    match w
    case WSet(name, value) => SetVarShort(st, name, value, false);
    case WAppend(name, value) => SetVarShort(st, name + ["append"], value, true);
    case WPrepend(name, value) => SetVarShort(st, name + ["prepend"], value, true);
    case WDel(name) => DelVarShort(st, name);
    case WSetFlag(name, _, _) => RegisterShort(st.variants, name);
    case WDelFlag(_, _) =>
  }

  /** Single-level names make the carried-removal sharing harmless (`Coherence.CarriedRepaired`). */
  lemma ShortMeansUniqueOwner(st: Store)
    requires ShortListed(st.variants)
    ensures UniqueOwner(st)
  {
    forall o1, o2, name | Listed(st, o1, name) && Listed(st, o2, name) ensures o1 == o2 {
      var x1 :| x1 in st.variants[o1] && x1.name == name;
      var x2 :| x2 in st.variants[o2] && x2.name == name;
      assert ListsShort(o1, x1) && ListsShort(o2, x2);
    }
  }

  // ---- Runs on the heap --------------------------------------------------------------------

  method Perform(d: DataSmart, w: Write)
    requires d.Valid() && w.Legal()
    modifies d, d.dict
    ensures d.Valid() && d.View() == Apply(old(d.View()), w)
    ensures d.expandCache == if Refused(w) then old(d.expandCache) else map[]
  {
    match w
    case WSet(name, value) => var _ := d.SetVar(name, value, false);
    case WAppend(name, value) => var _ := d.SetVar(name + ["append"], value, true);
    case WPrepend(name, value) => var _ := d.SetVar(name + ["prepend"], value, true);
    case WDel(name) => d.DelVar(name);
    case WSetFlag(name, flag, value) => d.SetVarFlag(name, flag, value);
    case WDelFlag(name, flag) => d.DelVarFlag(name, flag);
  }

  method AskStore(d: DataSmart, ord: Order, p: Probe, depth: nat, ghost st: Store)
      returns (answer: Result<Option<Text>>)
    requires d.Shows(st)
    modifies d`expandCache
    ensures d.Shows(st) && After(answer, d.expandCache) == Reply(st, ord, old(d.expandCache), p, depth)
  {
    match p
    case Value(v) => answer := d.GetVar(depth, ord, v, st);
    case Unexpanded(v) => answer := d.GetVarUnexpanded(depth, ord, v, st);
    case FlagValue(v, f) => answer := d.GetVarFlag(depth, ord, v, f, st);
    case FlagText(v, f) =>
      var text := d.GetVarFlagUnexpanded(v, f, st);
      answer := Success(text);
  }

  /** The flat machine that a store on the heap is. */
  ghost function MachineOf(d: DataSmart): Machine
    requires d.dict.Linked()
    reads d, d.dict, d.dict.chain, d.dict.lists, d.overrideData.Values
  {
    Machine(d.View(), d.expandCache)
  }

  method Act1(d: DataSmart, ord: Order, a: Act) returns (answer: Option<Result<Option<Text>>>)
    requires d.Valid() && Legal(a)
    modifies d, d.dict
    ensures d.Valid() && MachineOf(d) == Next(old(MachineOf(d)), ord, a)
    ensures answer == Answer(old(MachineOf(d)), ord, a)
  {
    answer := None;
    match a
    case Do(w) => Perform(d, w);
    case Ask(p, depth) =>
      var r := AskStore(d, ord, p, depth, d.View());
      answer := Some(r);
  }

  method RunActs(d: DataSmart, ord: Order, acts: seq<Act>) returns (answers: seq<Option<Result<Option<Text>>>>)
    requires d.Valid() && AllLegal(acts)
    modifies d, d.dict
    ensures d.Valid() && MachineOf(d) == MachineAt(old(MachineOf(d)), ord, acts, |acts|)
    ensures answers == Answers(old(MachineOf(d)), ord, acts)
  {
    answers := [];
    ghost var m := MachineOf(d);
    ghost var all := Answers(m, ord, acts);
    for i := 0 to |acts|
      invariant d.Valid() && MachineOf(d) == MachineAt(m, ord, acts, i)
      invariant answers == all[..i]
    {
      AnswersNext(m, ord, acts, i);
      var answer := Act1(d, ord, acts[i]);
      answers := answers + [answer];
    }
  }

  method ForkAndRun(parent: DataSmart, ord: Order, acts: seq<Act>)
      returns (copy: DataSmart, answers: seq<Option<Result<Option<Text>>>>)
    requires parent.Valid() && AllLegal(acts)
    ensures MachineOf(parent) == old(MachineOf(parent)) && parent.Valid()
    ensures fresh(copy) && copy.Valid()
    ensures MachineOf(copy) == MachineAt(Machine(parent.View(), map[]), ord, acts, |acts|)
    ensures answers == Answers(Machine(parent.View(), map[]), ord, acts)
  {
    ghost var m := MachineOf(parent);
    copy := parent.CreateCopy();
    ghost var start := MachineOf(copy);
    assert start == Machine(m.store, map[]);
    answers := RunActs(copy, ord, acts);
    assert MachineOf(parent) == m;
  }

  /**
   Any interleaving of writes, to any names, and reads, at any depth, on a copy of any store. The copy shows, answers
   and keeps in its memo what a flat store would that was deep-copied at the start, and lists the same keys; the
   parent, its memo included, is unchanged. Where the stores of the run are harmless the values are the cache-free
   ones, and where nothing spills from one variable's removals to another's there are no exceptions without cause.
   */
  method RunOnCopy(parent: DataSmart, ord: Order, acts: seq<Act>)
    returns (copy: DataSmart, answers: seq<Option<Result<Option<Text>>>>, keys: set<Name>)
    requires parent.Valid() && AllLegal(acts)
    ensures MachineOf(parent) == old(MachineOf(parent)) && parent.Valid()
    ensures fresh(copy) && copy.Valid()
    ensures MachineOf(copy) == MachineAt(Machine(parent.View(), map[]), ord, acts, |acts|)
    ensures answers == Answers(Machine(parent.View(), map[]), ord, acts)
    ensures keys == Keys(copy.View())
    ensures RightWhereHarmless(parent.View(), ord, acts, answers)
  {
    copy, answers := ForkAndRun(parent, ord, acts);
    keys := copy.Iterate();
    HarmlessAnswers(parent.View(), ord, acts);
  }

  /** Writes alone. */
  method WritesOnCopy(parent: DataSmart, ord: Order, writes: seq<Write>) returns (copy: DataSmart, keys: set<Name>)
    requires parent.Valid() && forall w | w in writes :: w.Legal()
    ensures parent.View() == old(parent.View()) && parent.Valid()
    ensures fresh(copy) && copy.Valid() && copy.View() == Run(parent.View(), writes) && keys == Keys(copy.View())
  {
    var acts := seq(|writes|, i requires 0 <= i < |writes| => Do(writes[i]));
    OnlyWrites(parent.View(), acts, writes, |acts|);
    assert writes[..|writes|] == writes;
    var answers;
    copy, answers, keys := RunOnCopy(parent, ord, acts);
  }

  lemma {:induction false} OnlyWrites(st: Store, acts: seq<Act>, writes: seq<Write>, i: nat)
    requires |acts| == |writes| && (forall j | 0 <= j < |acts| :: acts[j] == Do(writes[j])) && i <= |acts|
    requires AllLegal(acts) && forall w | w in writes :: w.Legal()
    ensures StoreAt(st, acts, i) == Run(st, writes[..i])
    decreases i
  {
    if i > 0 {
      OnlyWrites(st, acts, writes, i - 1);
      assert writes[..i][..i - 1] == writes[..i - 1];
    }
  }

  // ---- Single-level names ----------------------------------------------------------------------

  ghost predicate AllShort(acts: seq<Act>) {
    forall j | 0 <= j < |acts| && acts[j].Do? :: ShortWrite(acts[j].w)
  }

  lemma NextShort(st: Store, a: Act)
    requires ShortListed(st.variants) && Legal(a) && (a.Do? ==> ShortWrite(a.w))
    ensures ShortListed(StoreAfter(st, a).variants)
  {
    if a.Do? {
      ApplyShort(st, a.w);
    }
  }

  lemma {:induction false} StoreShort(st: Store, acts: seq<Act>, i: nat)
    requires AllLegal(acts) && i <= |acts| && ShortListed(st.variants)
    requires AllShort(acts)
    ensures ShortListed(StoreAt(st, acts, i).variants)
    decreases i
  {
    if i > 0 {
      StoreShort(st, acts, i - 1);
      NextShort(StoreAt(st, acts, i - 1), acts[i - 1]);
    }
  }

  /** With single-level override names the sharers of a variant agree at every read, so nothing spills. */
  lemma ShortReadsAgree(st: Store, acts: seq<Act>)
    requires AllLegal(acts) && ShortListed(st.variants)
    requires AllShort(acts)
    ensures ReadsAgree(st, acts) && ReadsSpillNothing(st, acts)
  {
    forall i | 0 <= i < |acts| && acts[i].Ask?
      ensures SharersAgree(StoreAt(st, acts, i)) && NoSpill(StoreAt(st, acts, i))
    {
      StoreShort(st, acts, i);
      ShortMeansUniqueOwner(StoreAt(st, acts, i));
      UniqueOwnersAgree(StoreAt(st, acts, i));
      AgreeNoSpill(StoreAt(st, acts, i));
    }
  }
}
