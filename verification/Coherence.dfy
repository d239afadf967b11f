/**
 What a memoised parse should be: the cache-free evaluation of its key, except that the removals of a variant may
 hold those of variables it overrides, because `getVarFlag` adds them to the set object of the cached parse.
 */
module Coherence {
  import opened Prelude
  import opened Text
  import opened Overrides
  import opened Datastore
  import opened Evaluation
  import opened Memo

  ghost predicate Listed(st: Store, owner: Name, name: Name) {
    owner in st.variants && exists x :: x in st.variants[owner] && x.name == name
  }

  /** No variant name is listed under two variables; single-level override names guarantee it. */
  ghost predicate UniqueOwner(st: Store) {
    forall o1, o2, name | Listed(st, o1, name) && Listed(st, o2, name) :: o1 == o2
  }

  /** Variables that take their value from one variant have the same removals in force. */
  ghost predicate SharersAgree(st: Store) {
    forall o1, o2 | Chosen(st, o1).Some? && Chosen(st, o1) == Chosen(st, o2) ::
        ActiveRemoves(st, o1) == ActiveRemoves(st, o2)
  }

  ghost predicate SubsTo(st: Store, self: Option<Key>, s: Text, e: Text) {
    exists n: nat :: Sub(n, st, false, self, s) == Success(e)
  }

  ghost predicate ExpandsTo(st: Store, self: Option<Key>, raw: Option<Text>, e: Option<Text>) {
    if raw.None? then e.None? else e.Some? && SubsTo(st, self, raw.value, e.value)
  }

  // ---- Substitution, atom by atom --------------------------------------------------------

  lemma {:induction false} SubSnoc(n: nat, st: Store, strict: bool, self: Option<Key>, s: Text, a: Atom)
    requires Sub(n, st, strict, self, s).Success? && SubAtom(n, st, strict, self, a).Success?
    ensures Sub(n, st, strict, self, s + [a])
         == Success(Sub(n, st, strict, self, s).value + SubAtom(n, st, strict, self, a).value)
  {
    if s == [] {
      assert s + [a] == [a] && [a][1..] == [];
      var head := SubAtom(n, st, strict, self, a).value;
      assert Sub(n, st, strict, self, [a]) == Success(head + []);
      assert head + [] == [] + head;
    } else {
      assert (s + [a])[1..] == s[1..] + [a];
      SubSnoc(n, st, strict, self, s[1..], a);
      var head, rest := SubAtom(n, st, strict, self, s[0]).value, Sub(n, st, strict, self, s[1..]).value;
      var last := SubAtom(n, st, strict, self, a).value;
      assert head + (rest + last) == (head + rest) + last;
    }
  }

  lemma SubAtomMonoBy(n: nat, m: nat, st: Store, self: Option<Key>, a: Atom)
    requires n <= m && SubAtom(n, st, false, self, a).Success?
    ensures SubAtom(m, st, false, self, a) == SubAtom(n, st, false, self, a)
  {
    if a.Ref? {
      EvalMonoBy(n, m, st, false, true, Var(a.name));
    }
  }

  lemma SubsToSnoc(st: Store, self: Option<Key>, s: Text, e: Text, a: Atom, head: Text)
    requires SubsTo(st, self, s, e)
    requires exists n: nat :: SubAtom(n, st, false, self, a) == Success(head)
    ensures SubsTo(st, self, s + [a], e + head)
  {
    var n: nat :| Sub(n, st, false, self, s) == Success(e);
    var m: nat :| SubAtom(m, st, false, self, a) == Success(head);
    var max := if n < m then m else n;
    SubMonoBy(n, max, st, false, self, s);
    SubAtomMonoBy(m, max, st, self, a);
    SubSnoc(max, st, false, self, s, a);
  }

  lemma {:induction false} SubAtoms(n: nat, st: Store, strict: bool, self: Option<Key>, s: Text, i: nat)
    requires i < |s| && Sub(n, st, strict, self, s).Success?
    ensures SubAtom(n, st, strict, self, s[i]).Success?
  {
    if i > 0 {
      SubAtoms(n, st, strict, self, s[1..], i - 1);
    }
  }

  lemma SubsToUnique(st: Store, self: Option<Key>, s: Text, e: Text, e': Text)
    requires SubsTo(st, self, s, e) && SubsTo(st, self, s, e')
    ensures e == e'
  {
    var n: nat :| Sub(n, st, false, self, s) == Success(e);
    var m: nat :| Sub(m, st, false, self, s) == Success(e');
    if n < m { SubMonoBy(n, m, st, false, self, s); } else { SubMonoBy(m, n, st, false, self, s); }
  }

  // ---- The second pass of expandWithRefs changes nothing ---------------------------------

  lemma SubsToLeftover(st: Store, self: Option<Key>, s: Text, e: Text)
    requires SubsTo(st, self, s, e)
    ensures forall u | u in Refs(e) :: Unset(st, u)
  {
    var n: nat :| Sub(n, st, false, self, s) == Success(e);
    SubLeftover(n, st, false, self, s);
    forall u | u in Refs(e) ensures Unset(st, u) {
      assert EvalsTo(st, Var(u), Eval(n, st, false, true, Var(u)).value);
    }
  }

  lemma {:induction false} SubUnsetIdentity(n: nat, st: Store, self: Option<Key>, s: Text)
    requires Sub(n, st, false, self, s).Success? && forall u | u in Refs(s) :: Unset(st, u)
    ensures Sub(n, st, false, self, s).value == s
  {
    if s != [] {
      if s[0].Ref? {
        assert s[0].name in Refs(s);
        var p :| EvalsTo(st, Var(s[0].name), p) && p.value.None?;
        EvalUnique(st, Var(s[0].name), p, Eval(n, st, false, true, Var(s[0].name)).value);
      }
      SubUnsetIdentity(n, st, self, s[1..]);
    }
  }

  lemma SubsToIdentity(st: Store, self: Option<Key>, s: Text, e: Text)
    requires SubsTo(st, self, s, e) && forall u | u in Refs(s) :: Unset(st, u)
    ensures e == s
  {
    var n: nat :| Sub(n, st, false, self, s) == Success(e);
    SubUnsetIdentity(n, st, self, s);
  }

  lemma {:induction false} SubUnsetSucceeds(n: nat, st: Store, strict: bool, self: Option<Key>, s: Text)
    requires forall u | u in Refs(s) :: UnsetWithin(n, st, strict, u) && self != Some(Var(u))
    ensures Sub(n, st, strict, self, s) == Success(s)
  {
    if s != [] {
      assert s[0].Ref? ==> s[0].name in Refs(s);
      SubUnsetSucceeds(n, st, strict, self, s[1..]);
      assert SubAtom(n, st, strict, self, s[0]) == Success([s[0]]);
      assert [s[0]] + s[1..] == s;
    }
  }

  /** `self` is set, so it is never among the references left for the second pass. */
  ghost predicate NeverUnset(st: Store, self: Option<Key>) {
    self.Some? && self.value.Var? ==> !Unset(st, self.value.name)
  }

  lemma SecondPassSucceeds(n: nat, st: Store, self: Option<Key>, s: Text, e: Text)
    requires Sub(n, st, true, self, s).Success? && SubsTo(st, self, s, e) && NeverUnset(st, self)
    ensures Sub(n, st, true, self, e).Success?
  {
    SubLenient(n, st, self, s);
    SubsToUnique(st, self, s, e, Sub(n, st, true, self, s).value);
    SubLeftover(n, st, true, self, s);
    SubsToLeftover(st, self, s, e);
    SubUnsetSucceeds(n, st, true, self, e);
  }

  // ---- Putting an evaluation together ----------------------------------------------------

  ghost predicate VariantIs(st: Store, v: Name, q: Parse) {
    match Chosen(st, v)
    case None => q == NO_PARSE
    case Some(m) => EvalsTo(st, Var(m), q)
  }

  /** The removals in force for `v`, given the parse of its variant. */
  function InForce(st: Store, v: Name, q: Parse): set<Text> {
    q.Carried() + ActiveRemoves(st, v)
  }

  ghost predicate AllExpand(st: Store, removes: set<Text>) {
    forall r | r in removes :: exists x :: SubsTo(st, None, r, x)
  }

  /** A read of `m` as a variant gives its parse a removal set: it has text, and removals in force, which expand. */
  ghost predicate HasRemovals(st: Store, m: Name, q: Parse) {
    && VariantIs(st, m, q) && Truthy(Raw(st, m, q.unexpanded))
    && InForce(st, m, q) != {} && AllExpand(st, InForce(st, m, q))
  }

  ghost predicate Shareable(st: Store, m: Name) {
    exists q :: HasRemovals(st, m, q)
  }

  ghost predicate FillsFrom(st: Store, o: Name, m: Name, q: Parse) {
    Chosen(st, o) == Some(m) && EvalsTo(st, Var(m), q) && Truthy(Raw(st, o, q.unexpanded))
  }

  /** `o` takes its text from the variant `m` and has some, so a read of `o` fills the removal set of `m`. */
  ghost predicate Fills(st: Store, o: Name, m: Name) {
    exists q :: FillsFrom(st, o, m, q)
  }

  predicate FilledBy(st: Store, o: Name, removes: set<Text>, r: Text) {
    r in ActiveRemoves(st, o) && ActiveRemoves(st, o) <= removes
  }

  /** Reads of variables that take their text from `m` may have left `r` in `removes`, with all their removals. */
  ghost predicate MayHold(st: Store, m: Name, removes: set<Text>, r: Text) {
    exists o :: Fills(st, o, m) && FilledBy(st, o, removes, r)
  }

  ghost predicate IsVariant(st: Store, m: Name) {
    exists o :: Chosen(st, o) == Some(m)
  }

  /** The removal set of a variant's parse `p`, whose cache-free parse is `q`. */
  ghost predicate SetOk(st: Store, m: Name, p: Parse, q: Parse) {
    && (p.removes.Some? ==> Shareable(st, m))
    && forall r | r in p.Carried() :: r in q.Carried() || MayHold(st, m, p.Carried(), r)
  }

  ghost predicate Faithful(st: Store, k: Key, p: Parse, q: Parse) {
    && p.(removes := None) == q.(removes := None)
    && q.Carried() <= p.Carried()
    && (k.Var? && IsVariant(st, k.name) ==> SetOk(st, k.name, p, q))
  }

  ghost predicate EntryOk(st: Store, k: Key, p: Parse) {
    exists q :: EvalsTo(st, k, q) && Faithful(st, k, p, q)
  }

  ghost predicate Coherent(st: Store, cache: Cache) {
    forall k | k in cache :: EntryOk(st, k, cache[k])
  }

  ghost predicate WordsOk(st: Store, words: map<Text, set<Text>>) {
    forall r | r in words :: exists x :: SubsTo(st, None, r, x) && words[r] == Words(x)
  }

  lemma {:induction false} CommonDepth(st: Store, removes: set<Text>) returns (n: nat)
    requires forall r | r in removes :: exists x :: SubsTo(st, None, r, x)
    ensures forall r | r in removes :: Sub(n, st, false, None, r).Success?
    decreases |removes|
  {
    if removes == {} {
      n := 0;
    } else {
      var r :| r in removes;
      var x :| SubsTo(st, None, r, x);
      var m: nat :| Sub(m, st, false, None, r) == Success(x);
      var k := CommonDepth(st, removes - {r});
      n := if m < k then k else m;
      SubMonoBy(m, n, st, false, None, r);
      forall r' | r' in removes - {r} ensures Sub(n, st, false, None, r').Success? {
        SubMonoBy(k, n, st, false, None, r');
      }
    }
  }

  lemma WordsDetermined(n: nat, st: Store, words: map<Text, set<Text>>)
    requires WordsOk(st, words) && forall r | r in words :: Sub(n, st, false, None, r).Success?
    ensures RemoveMap(n, st, false, words.Keys) == Success(words)
  {
    forall r | r in words ensures words[r] == Words(Sub(n, st, false, None, r).value) {
      var x :| SubsTo(st, None, r, x) && words[r] == Words(x);
      SubsToUnique(st, None, r, x, Sub(n, st, false, None, r).value);
    }
    assert RemoveMap(n, st, false, words.Keys).value == words;
  }

  /** What reading a variable yields once its parts are known; `words` matters only if something is removed. */
  function Finished(raw: Option<Text>, e: Option<Text>, words: map<Text, set<Text>>): Parse {
    var references := RefsOf(raw) + RefsOf(e);
    if words == map[] || !Truthy(e) then Parse(raw, e, references, None)
    else Parse(raw, Some(RemoveWords(e.value, AllWords(words))), references, Some(Used(e.value, words)))
  }

  /** The depths the parts were evaluated at. */
  lemma PartDepth(st: Store, v: Name, q: Parse, raw: Option<Text>, e: Option<Text>, removes: set<Text>) returns (n: nat)
    requires VariantIs(st, v, q) && ExpandsTo(st, Some(Var(v)), raw, e)
    requires forall r | r in removes :: exists x :: SubsTo(st, None, r, x)
    ensures EvalVariant(n, st, false, v) == Success(q) && Expand(n, st, false, Some(Var(v)), raw) == Success(e)
    ensures forall r | r in removes :: Sub(n, st, false, None, r).Success?
  {
    var n1: nat, n2: nat := 0, 0;
    var c := Chosen(st, v);
    if c.Some? {
      n1 :| Eval(n1, st, false, true, Var(c.value)) == Success(q);
    }
    if raw.Some? {
      n2 :| Sub(n2, st, false, Some(Var(v)), raw.value) == Success(e.value);
    }
    var n3 := CommonDepth(st, removes);
    n := n1 + n2 + n3;
    if c.Some? {
      EvalMonoBy(n1, n, st, false, true, Var(c.value));
    }
    if raw.Some? {
      SubMonoBy(n2, n, st, false, Some(Var(v)), raw.value);
    }
    forall r | r in removes ensures Sub(n, st, false, None, r).Success? {
      SubMonoBy(n3, n, st, false, None, r);
    }
  }

  lemma ComposeVar(st: Store, v: Name, q: Parse, raw: Option<Text>, e: Option<Text>, words: map<Text, set<Text>>)
    requires VariantIs(st, v, q) && raw == Raw(st, v, q.unexpanded) && ExpandsTo(st, Some(Var(v)), raw, e)
    requires WordsOk(st, words)
    requires Truthy(e) ==> words.Keys == q.Carried() + ActiveRemoves(st, v)
    ensures EvalsTo(st, Var(v), Finished(raw, e, words))
  {
    var n := PartDepth(st, v, q, raw, e, words.Keys);
    WordsDetermined(n, st, words);
    var removes := q.Carried() + ActiveRemoves(st, v);
    assert EvalVar(n, st, false, true, v) == Finish(n, st, false, true, raw, e, removes);
    assert Finish(n, st, false, true, raw, e, removes) == Success(Finished(raw, e, words));
    assert Eval(n + 1, st, false, true, Var(v)) == Success(Finished(raw, e, words));
  }

  lemma ComposeFlag(st: Store, v: Name, f: string, raw: Option<Text>, e: Option<Text>)
    requires raw == RawFlag(st, v, f) && ExpandsTo(st, Some(VarFlag(v, f)), raw, e)
    ensures EvalsTo(st, VarFlag(v, f), Parse(raw, e, RefsOf(raw) + RefsOf(e), None))
  {
    var n: nat := 0;
    if raw.Some? {
      n :| Sub(n, st, false, Some(VarFlag(v, f)), raw.value) == Success(e.value);
    }
    assert EvalFlag(n, st, false, v, f) == Success(Parse(raw, e, RefsOf(raw) + RefsOf(e), None));
    assert Eval(n + 1, st, false, true, VarFlag(v, f)).Success?;
  }

  /** The unexpanded text does not depend on how the variable came to be evaluated. */
  lemma RawDetermined(st: Store, v: Name, q: Parse, p: Parse)
    requires VariantIs(st, v, q) && EvalsTo(st, Var(v), p)
    ensures p.unexpanded == Raw(st, v, q.unexpanded) && (p.value.None? <==> p.unexpanded.None?)
  {
    var n: nat :| Eval(n, st, false, true, Var(v)) == Success(p);
    var variant, raw, e, removes := EvalVarStages(n - 1, st, false, true, v);
    FinishShape(n - 1, st, false, true, raw, e, removes);
    if Chosen(st, v).Some? {
      EvalUnique(st, Var(Chosen(st, v).value), q, variant);
    }
  }

  lemma SetMeansNeverUnset(st: Store, v: Name, q: Parse)
    requires VariantIs(st, v, q) && Raw(st, v, q.unexpanded).Some?
    ensures NeverUnset(st, Some(Var(v)))
  {
    forall p | EvalsTo(st, Var(v), p) ensures p.value.Some? {
      RawDetermined(st, v, q, p);
    }
  }

  // ---- Shared removal sets ---------------------------------------------------------------

  lemma ChosenListed(st: Store, v: Name)
    requires Chosen(st, v).Some?
    ensures Listed(st, v, Chosen(st, v).value)
  {
    var vs := st.variants[v];
    var d := Collect(vs, st.overrides);
    CollectValues(vs, st.overrides);
    RoundsValues(Selection(d, None, true), st.overrides, d.vals.Values);
    var a :| a in d.vals && d.vals[a] == Chosen(st, v).value;
    assert Variant(d.vals[a], a) in vs;
  }

  lemma UniqueOwnersAgree(st: Store)
    requires UniqueOwner(st)
    ensures SharersAgree(st)
  {
    forall o1, o2 | Chosen(st, o1).Some? && Chosen(st, o1) == Chosen(st, o2) ensures o1 == o2 {
      ChosenListed(st, o1);
      ChosenListed(st, o2);
    }
  }

  /** A removal set that others filled is right for an owner that has all their removals in force itself. */
  lemma CarriedRepaired(st: Store, v: Name, m: Name, p: Parse, q: Parse)
    requires Chosen(st, v) == Some(m) && EvalsTo(st, Var(m), q) && EntryOk(st, Var(m), p)
    requires forall o | Fills(st, o, m) :: ActiveRemoves(st, o) <= InForce(st, v, q)
    ensures p.Carried() + ActiveRemoves(st, v) == InForce(st, v, q)
    ensures p.(removes := None) == q.(removes := None)
  {
    var q' :| EvalsTo(st, Var(m), q') && Faithful(st, Var(m), p, q');
    EvalUnique(st, Var(m), q, q');
    forall r | r in p.Carried() ensures r in InForce(st, v, q) {
      assert r in q.Carried() || MayHold(st, m, p.Carried(), r);
    }
  }

  /** Filling the set of a variant's parse keeps the entry acceptable. */
  lemma PollutedOk(st: Store, v: Name, m: Name, p: Parse)
    requires Fills(st, v, m) && EntryOk(st, Var(m), p) && p.removes.Some?
    ensures EntryOk(st, Var(m), p.(removes := Some(p.Carried() + ActiveRemoves(st, v))))
  {
    var q :| EvalsTo(st, Var(m), q) && Faithful(st, Var(m), p, q);
    var p' := p.(removes := Some(p.Carried() + ActiveRemoves(st, v)));
    assert Chosen(st, v) == Some(m) && SetOk(st, m, p, q);
    forall r | r in p'.Carried() ensures r in q.Carried() || MayHold(st, m, p'.Carried(), r) {
      if r in ActiveRemoves(st, v) {
        assert FilledBy(st, v, p'.Carried(), r);
      } else if r !in q.Carried() {
        var o :| Fills(st, o, m) && FilledBy(st, o, p.Carried(), r);
        assert FilledBy(st, o, p'.Carried(), r);
      }
    }
    assert Faithful(st, Var(m), p', q);
  }

  // ---- What a strict evaluation guarantees the memoising one ------------------------------

  lemma StrictVariant(n: nat, st: Store, v: Name, q: Parse)
    requires EvalVariant(n, st, true, v).Success? && VariantIs(st, v, q)
    ensures Same(EvalVariant(n, st, true, v).value, q)
  {
    var c := Chosen(st, v);
    if c.Some? {
      StrictIsLenient(n, st, false, Var(c.value));
      EvalUnique(st, Var(c.value), q, Eval(n, st, false, true, Var(c.value)).value);
    }
  }

  lemma StrictExpansion(n: nat, st: Store, expand: bool, v: Name, q: Parse)
    requires EvalVar(n, st, true, expand, v).Success? && VariantIs(st, v, q)
    ensures Expand(n, st, true, Some(Var(v)), Raw(st, v, q.unexpanded)).Success?
  {
    StrictVariant(n, st, v, q);
  }

  lemma StrictRemovals(n: nat, st: Store, expand: bool, v: Name, q: Parse, e: Option<Text>)
    requires EvalVar(n, st, true, expand, v).Success? && VariantIs(st, v, q)
    requires ExpandsTo(st, Some(Var(v)), Raw(st, v, q.unexpanded), e)
    ensures Truthy(if expand then e else Raw(st, v, q.unexpanded)) ==>
              RemoveMap(n, st, true, q.Carried() + ActiveRemoves(st, v)).Success?
  {
    StrictVariant(n, st, v, q);
    var variant, raw, e', removes := EvalVarStages(n, st, true, expand, v);
    ExpandLenient(n, st, Some(Var(v)), raw);
    if raw.Some? {
      SubsToUnique(st, Some(Var(v)), raw.value, e.value, e'.value);
    }
    assert removes != {} && Truthy(if expand then e else raw) ==>
        Finish(n, st, true, expand, raw, e', removes) == Failure || RemoveMap(n, st, true, removes).Success?;
  }

  lemma WordsAreWords(st: Store, words: map<Text, set<Text>>)
    requires WordsOk(st, words)
    ensures forall r | r in words :: forall w | w in words[r] :: IsWord(w)
  {
    forall r | r in words ensures forall w | w in words[r] :: IsWord(w) {
      var x :| SubsTo(st, None, r, x) && words[r] == Words(x);
    }
  }
}
