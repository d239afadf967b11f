/**
 Exactly when reads of one variable spoil another.  Sufficient is `ReadsRight.Harmless`; here is why it is needed:
 every word that it forbids is lost in two reads.
 */
module SharedRemovals {
  import opened Prelude
  import opened Text
  import opened Overrides
  import opened Datastore
  import opened Evaluation
  import opened Memo
  import opened Coherence
  import opened ReadsRight
  import opened FlatRuns

  // ---- The property ------------------------------------------------------------------------------

  /** A cache with cache-free parses, for some keys; a removal set only where a read may give one. */
  ghost predicate Exact(st: Store, c: Cache) {
    forall k | k in c :: ExactEntry(st, k, c[k])
  }

  ghost predicate ExactEntry(st: Store, k: Key, p: Parse) {
    && (exists q :: EvalsTo(st, k, q) && Same(p, q))
    && (k.Var? && p.removes.Some? ==> Shareable(st, k.name) || !IsVariant(st, k.name))
  }

  ghost predicate OnlyAsks(acts: seq<Act>) {
    forall a | a in acts :: a.Ask?
  }

  /** Reads only. */
  ghost predicate Reads(acts: seq<Act>) {
    OnlyAsks(acts) && AllLegal(acts)
  }

  ghost predicate RightFrom(st: Store, ord: Order, c: Cache, acts: seq<Act>)
    requires Reads(acts)
  {
    AllValues(st, acts, Answers(Machine(st, c), ord, acts))
  }

  /** From the cache-free parses of whatever has been read, reads in every order give the cache-free values. */
  ghost predicate RightInEveryOrder(st: Store) {
    forall ord: Order, c: Cache, acts: seq<Act> | IsOrder(ord) && Exact(st, c) && Reads(acts) ::
        RightFrom(st, ord, c, acts)
  }

  // ---- The condition suffices ----------------------------------------------------------------------

  lemma {:induction false} EvalRaw(n: nat, st: Store, v: Name)
    requires Eval(n, st, false, true, Var(v)).Success?
    ensures RawIs(st, v, Eval(n, st, false, true, Var(v)).value.unexpanded)
    ensures var p := Eval(n, st, false, true, Var(v)).value; p.value.None? <==> p.unexpanded.None?
  {
    var variant, raw, e, removes := EvalVarStages(n - 1, st, false, true, v);
    FinishShape(n - 1, st, false, true, raw, e, removes);
    if Chosen(st, v).Some? {
      EvalRaw(n - 1, st, Chosen(st, v).value);
    }
    RawStep(st, v, variant.unexpanded);
  }

  lemma UnsetBlank(n: nat, st: Store, u: Name)
    requires UnsetWithin(n, st, false, u)
    ensures Textless(st, u)
  {
    EvalRaw(n, st, u);
  }

  lemma EvalSound(n: nat, st: Store, k: Key)
    requires Eval(n, st, false, true, k).Success?
    ensures SoundEntry(st, k, Eval(n, st, false, true, k).value)
  {
    var p := Eval(n, st, false, true, k).value;
    EvalLeftover(n, st, false, true, k);
    forall u | u in RefsOf(p.value) ensures Textless(st, u) {
      UnsetBlank(n, st, u);
    }
    if k.Var? {
      EvalRaw(n, st, k.name);
    }
  }

  lemma ExactRight(st: Store, c: Cache)
    requires Exact(st, c)
    ensures Right(st, c)
  {
    forall k | k in c ensures SoundEntry(st, k, c[k]) && EntryOk(st, k, c[k]) {
      assert ExactEntry(st, k, c[k]);
      var q :| EvalsTo(st, k, q) && Same(c[k], q);
      var n: nat :| Eval(n, st, false, true, k) == Success(q);
      EvalSound(n, st, k);
      assert Faithful(st, k, c[k], q);
    }
  }

  lemma AsksKeepStore(st: Store, acts: seq<Act>, i: nat)
    requires OnlyAsks(acts) && AllLegal(acts) && i <= |acts|
    ensures StoreAt(st, acts, i) == st
    decreases i
  {
    if i > 0 {
      AsksKeepStore(st, acts, i - 1);
      assert acts[i - 1] in acts;
    }
  }

  lemma HarmlessSuffices(st: Store)
    requires Harmless(st)
    ensures RightInEveryOrder(st)
  {
    forall ord: Order, c: Cache, acts: seq<Act> | IsOrder(ord) && Exact(st, c) && Reads(acts)
      ensures RightFrom(st, ord, c, acts)
    {
      HarmlessRun(st, ord, c, acts);
    }
  }

  lemma HarmlessRun(st: Store, ord: Order, c: Cache, acts: seq<Act>)
    requires Harmless(st) && IsOrder(ord) && Exact(st, c) && Reads(acts)
    ensures RightFrom(st, ord, c, acts)
  {
    ExactRight(st, c);
    forall i | 0 <= i < |acts| && acts[i].Ask? ensures Harmless(StoreAt(st, acts, i)) {
      AsksKeepStore(st, acts, i);
    }
    RunRight(Machine(st, c), ord, acts);
  }

  // ---- Reading from a cache that has all that is referred to -----------------------------------------

  /** `u` is cached with its cache-free value. */
  ghost predicate CachedAs(st: Store, c: Cache, u: Name) {
    Var(u) in c && exists q :: EvalsTo(st, Var(u), q) && c[Var(u)].value == q.value
  }

  ghost predicate AllCached(st: Store, c: Cache, us: set<Name>) {
    forall u | u in us :: CachedAs(st, c, u)
  }

  lemma {:induction false} FlatSubstituted(n: nat, k: nat, st: Store, ord: Order, c: Cache, self: Option<Key>, s: Text)
    requires Sub(k, st, false, self, s).Success? && AllCached(st, c, Refs(s))
    ensures Substituted(n, st, ord, c, self, s) == After(Success(Sub(k, st, false, self, s).value), c)
    decreases |s|
  {
    if s != [] {
      var front, last := s[..|s| - 1], s[|s| - 1];
      assert s == front + [last];
      assert Refs(s) == Refs(front) + Refs([last]);
      SubSplit(k, st, false, self, front, last);
      FlatSubstituted(n, k, st, ord, c, self, front);
      FlatVarSub(n, k, st, ord, c, self, last);
      SubSnoc(k, st, false, self, front, last);
      SubstitutedSnoc(n, st, ord, c, self, front, last);
    }
  }

  lemma FlatVarSub(n: nat, k: nat, st: Store, ord: Order, c: Cache, self: Option<Key>, a: Atom)
    requires SubAtom(k, st, false, self, a).Success? && AllCached(st, c, Refs([a]))
    ensures VarSub(n, st, ord, c, self, a) == After(Success(SubAtom(k, st, false, self, a).value), c)
  {
    if a.Ref? {
      assert a.name in Refs([a]);
      var q :| EvalsTo(st, Var(a.name), q) && c[Var(a.name)].value == q.value;
      EvalUnique(st, Var(a.name), q, Eval(k, st, false, true, Var(a.name)).value);
    }
  }

  /** The second pass finds only unset variables, and changes nothing. */
  lemma {:induction false} FlatUnset(n: nat, st: Store, ord: Order, c: Cache, self: Option<Key>, s: Text)
    requires forall u | u in Refs(s) :: CachedAs(st, c, u) && Unset(st, u) && self != Some(Var(u))
    ensures Substituted(n, st, ord, c, self, s) == After(Success(s), c)
    decreases |s|
  {
    if s != [] {
      var front, last := s[..|s| - 1], s[|s| - 1];
      assert s == front + [last];
      assert Refs(s) == Refs(front) + Refs([last]);
      FlatUnset(n, st, ord, c, self, front);
      if last.Ref? {
        assert last.name in Refs([last]);
        var q :| EvalsTo(st, Var(last.name), q) && c[Var(last.name)].value == q.value;
        var p :| EvalsTo(st, Var(last.name), p) && p.value.None?;
        EvalUnique(st, Var(last.name), p, q);
      }
      SubstitutedSnoc(n, st, ord, c, self, front, last);
    }
  }

  lemma FlatExpanded(n: nat, st: Store, ord: Order, c: Cache, self: Option<Key>, s: Text, x: Text)
    requires SubsTo(st, self, s, x) && AllCached(st, c, Refs(s) + Refs(x)) && NeverUnset(st, self)
    ensures Expanded(n, st, ord, c, self, Some(s)) == After(Success(Some(x)), c)
  {
    var k: nat :| Sub(k, st, false, self, s) == Success(x);
    if Refs(s) == {} {
      SubUnsetSucceeds(k, st, false, self, s);
    } else {
      FlatSubstituted(n, k, st, ord, c, self, s);
      SubsToLeftover(st, self, s, x);
      FlatUnset(n, st, ord, c, self, x);
    }
  }

  ghost predicate Expands(st: Store, r: Text) {
    exists x :: SubsTo(st, None, r, x)
  }

  ghost function Expansion(st: Store, r: Text): (x: Text)
    ensures Expands(st, r) ==> SubsTo(st, None, r, x)
  {
    if Expands(st, r) then var x :| SubsTo(st, None, r, x); x else []
  }

  ghost function WordMap(st: Store, removes: set<Text>): map<Text, set<Text>> {
    map r | r in removes :: Words(Expansion(st, r))
  }

  lemma WordMapOk(st: Store, removes: set<Text>)
    requires AllExpand(st, removes)
    ensures WordsOk(st, WordMap(st, removes))
  {
    forall r | r in removes ensures SubsTo(st, None, r, Expansion(st, r)) {
      assert Expands(st, r);
    }
  }

  /** `r` expands, and all it refers to is cached. */
  ghost predicate FlatRemoval(st: Store, c: Cache, r: Text) {
    Expands(st, r) && AllCached(st, c, Refs(r) + Refs(Expansion(st, r)))
  }

  lemma {:induction false} FlatRemoves(n: nat, st: Store, ord: Order, c: Cache, held: Option<Name>, removes: set<Text>,
                                       todo: seq<Text>)
    requires !Grown(c, held, removes) && forall r | r in todo :: FlatRemoval(st, c, r)
    ensures ExpandRemoves(n, st, ord, c, held, removes, todo)
         == After(Success(WordMap(st, set r | r in todo)), c)
    decreases |todo|
  {
    if todo == [] {
      assert WordMap(st, {}) == map[];
    } else {
      var rest, last := todo[..|todo| - 1], todo[|todo| - 1];
      assert todo == rest + [last];
      FlatRemoves(n, st, ord, c, held, removes, rest);
      assert FlatRemoval(st, c, last);
      FlatExpanded(n, st, ord, c, None, last, Expansion(st, last));
      RemovesSnoc(n, st, ord, c, held, removes, rest, last);
      OneMoreWord(st, rest, last);
    }
  }

  lemma OneMoreWord(st: Store, rest: seq<Text>, last: Text)
    ensures WordMap(st, set r | r in rest)[last := Words(Expansion(st, last))]
         == WordMap(st, set r | r in rest + [last])
  {
    assert forall r :: r in rest + [last] <==> r in rest || r == last;
  }

  lemma FlatAll(n: nat, st: Store, ord: Order, c: Cache, held: Option<Name>, removes: set<Text>, v: Name)
    requires IsOrder(ord) && !Grown(c, held, removes) && forall r | r in removes :: FlatRemoval(st, c, r)
    ensures ExpandRemoves(n, st, ord, c, held, removes, ord(v, c, removes)) == After(Success(WordMap(st, removes)), c)
  {
    var todo := ord(v, c, removes);
    assert forall r :: r in todo <==> r in removes;
    assert (set r | r in todo) == removes;
    FlatRemoves(n, st, ord, c, held, removes, todo);
  }

  // ---- The condition is needed -----------------------------------------------------------------------

  /** Removals that would spoil a variable do not refer to it; if they do, reading it with them never ends. */
  ghost predicate NoCross(st: Store) {
    forall o, v, q, e, t, r | Spoils(st, o, v, q, e, t) && r in ActiveRemoves(st, o) :: v !in Refs(r)
  }

  /** No variant hands on, to what it is a variant of, removals that others left for it. */
  ghost predicate NoHandingOn(st: Store) {
    forall o, v, q :: !Spills(st, o, v, q)
  }

  /** For instance if no variant that gives a variable its text has a variant itself. */
  lemma NoChainsNoHandingOn(st: Store)
    requires forall v | Chosen(st, v).Some? :: !IsVariant(st, v)
    ensures NoHandingOn(st)
  {
  }

  /** A variable that evaluates is neither its own variant, nor referred to by a removal in force for it. */
  lemma {:induction false} NotOwnVariant(n: nat, st: Store, v: Name)
    requires Eval(n, st, false, true, Var(v)).Success?
    ensures Chosen(st, v) != Some(v)
  {
    var variant, raw, e, removes := EvalVarStages(n - 1, st, false, true, v);
    if Chosen(st, v) == Some(v) {
      NotOwnVariant(n - 1, st, v);
    }
  }

  lemma {:induction false} NotOwnRemoval(n: nat, st: Store, v: Name, q: Parse, e: Text, r: Text)
    requires Eval(n, st, false, true, Var(v)).Success? && TextIs(st, v, q, e) && e != [] && r in InForce(st, v, q)
    ensures v !in Refs(r)
  {
    if v in Refs(r) {
      var variant, raw, ex, removes := EvalVarStages(n - 1, st, false, true, v);
      SameParts(n - 1, st, v, q, e, variant, ex);
      assert RemoveMap(n - 1, st, false, removes).Success?;
      assert Sub(n - 1, st, false, None, r).Success?;
      var i :| 0 <= i < |r| && r[i] == Ref(v);
      SubAtoms(n - 1, st, false, None, r, i);
      NotOwnRemoval(n - 1, st, v, q, e, r);
    }
  }

  lemma SameParts(n: nat, st: Store, v: Name, q: Parse, e: Text, variant: Parse, ex: Option<Text>)
    requires TextIs(st, v, q, e) && EvalVariant(n, st, false, v) == Success(variant)
    requires Evaluation.Expand(n, st, false, Some(Var(v)), Raw(st, v, variant.unexpanded)) == Success(ex)
    ensures variant == q && ex == Some(e)
  {
    if Chosen(st, v).Some? {
      EvalUnique(st, Var(Chosen(st, v).value), q, variant);
    }
    var raw := Raw(st, v, q.unexpanded).value;
    SubsToUnique(st, Some(Var(v)), raw, e, Sub(n, st, false, Some(Var(v)), raw).value);
  }

  /** Everything a text refers to evaluates. */
  lemma RefsEvaluate(st: Store, self: Option<Key>, s: Text, x: Text)
    requires SubsTo(st, self, s, x)
    ensures forall u | u in Refs(s) + Refs(x) :: exists q :: EvalsTo(st, Var(u), q)
    ensures forall u | u in Refs(s) :: self != Some(Var(u))
  {
    var n: nat :| Sub(n, st, false, self, s) == Success(x);
    forall u | u in Refs(s) ensures (exists q :: EvalsTo(st, Var(u), q)) && self != Some(Var(u)) {
      var i :| 0 <= i < |s| && s[i] == Ref(u);
      SubAtoms(n, st, false, self, s, i);
      assert EvalsTo(st, Var(u), Eval(n, st, false, true, Var(u)).value);
    }
    SubsToLeftover(st, self, s, x);
  }

  lemma EvalShareable(n: nat, st: Store, v: Name)
    requires Eval(n, st, false, true, Var(v)).Success? && Eval(n, st, false, true, Var(v)).value.removes.Some?
    ensures Shareable(st, v)
  {
    var variant, raw, e, removes := EvalVarStages(n - 1, st, false, true, v);
    assert RemoveMap(n - 1, st, false, removes).Success? && removes != {} && Truthy(e);
    if Chosen(st, v).Some? {
      assert EvalsTo(st, Var(Chosen(st, v).value), variant);
    }
    forall r | r in removes ensures exists x :: SubsTo(st, None, r, x) {
      assert Sub(n - 1, st, false, None, r).Success?;
      assert SubsTo(st, None, r, Sub(n - 1, st, false, None, r).value);
    }
    assert HasRemovals(st, v, variant);
  }

  /** The cache-free parse of a key that has one. */
  ghost function ParseOf(st: Store, k: Key): (q: Parse)
    ensures (exists q :: EvalsTo(st, k, q)) ==> EvalsTo(st, k, q)
  {
    if exists q :: EvalsTo(st, k, q) then var q :| EvalsTo(st, k, q); q else NO_PARSE
  }

  lemma ParseExact(st: Store, u: Name)
    requires exists q :: EvalsTo(st, Var(u), q)
    ensures ExactEntry(st, Var(u), ParseOf(st, Var(u)))
  {
    var q := ParseOf(st, Var(u));
    var n: nat :| Eval(n, st, false, true, Var(u)) == Success(q);
    if q.removes.Some? {
      EvalShareable(n, st, u);
    }
    assert Same(q, q);
  }

  /** What a read of a text and of removals refers to. */
  ghost function Needed(st: Store, raw: Text, e: Text, removes: set<Text>): set<Name> {
    Refs(raw) + Refs(e) + set r, u | r in removes && u in Refs(r) + Refs(Expansion(st, r)) :: u
  }

  /** The cache with the parse `p` of the variant `m` and the cache-free parses of `us`. */
  ghost function CacheOf(st: Store, m: Name, p: Parse, us: set<Name>): Cache {
    (map k | k in (set u | u in us :: Var(u)) :: ParseOf(st, k))[Var(m) := p]
  }

  /** A cache in which `v` is still to be read, but everything is there that it needs. */
  ghost predicate Prepared(st: Store, c: Cache, v: Name, m: Name, q: Parse, raw: Text, e: Text, all: set<Text>) {
    && Var(v) !in c && Var(m) in c && c[Var(m)].(removes := None) == q.(removes := None) && c[Var(m)].removes.Some?
    && AllCached(st, c, Refs(raw) + Refs(e)) && forall r | r in all :: FlatRemoval(st, c, r)
  }

  lemma FillKeepsPrepared(st: Store, c: Cache, v: Name, m: Name, q: Parse, raw: Text, e: Text, all: set<Text>,
                          removes: set<Text>)
    requires Prepared(st, c, v, m, q, raw, e, all)
    ensures Prepared(st, WithSet(c, m, removes), v, m, q, raw, e, all)
  {
    var c1 := WithSet(c, m, removes);
    forall u | CachedAs(st, c, u) ensures CachedAs(st, c1, u) {
    }
    forall r | r in all ensures FlatRemoval(st, c1, r) {
      assert FlatRemoval(st, c, r);
    }
  }

  /** A read of `v` from there removes the words of all that was left in the set of its variant. */
  lemma PreparedRead(st: Store, ord: Order, c: Cache, v: Name, m: Name, q: Parse, e: Text, all: set<Text>)
    requires IsOrder(ord) && Chosen(st, v) == Some(m) && TextIs(st, v, q, e) && e != [] && all != {}
    requires Prepared(st, c, v, m, q, Raw(st, v, q.unexpanded).value, e, all)
    requires all == c[Var(m)].Carried() + ActiveRemoves(st, v)
    ensures Reply(st, ord, c, Value(v), 1).result == Success(Some(RemoveWords(e, AllWords(WordMap(st, all)))))
  {
    var raw := Raw(st, v, q.unexpanded);
    assert ReadVariant(0, st, ord, c, v) == After(Success(c[Var(m)]), c);
    SetMeansNeverUnset(st, v, q);
    FlatExpanded(0, st, ord, c, Some(Var(v)), raw.value, e);
    var c1 := Gather(st, c, v, true);
    assert Gathered(st, c, v, true) == all && c1 == WithSet(c, m, all);
    FillKeepsPrepared(st, c, v, m, q, raw.value, e, all, all);
    FlatAll(0, st, ord, c1, Some(m), all, v);
    assert RemovalWords(0, st, ord, c, true, v, true) == After(Success(WordMap(st, all)), c1);
    RestIs(0, st, ord, c, true, v, raw, Some(e), true, After(Success(WordMap(st, all)), c1));
    assert ReadText(0, st, ord, c, true, v, c[Var(m)]) == ReadRest(0, st, ord, c, true, v, raw, Some(e), true);
    assert WordMap(st, all).Keys == all;
  }

  /** An unexpanded read of `o` leaves its removals there. */
  lemma UnexpandedFills(st: Store, ord: Order, c: Cache, o: Name, m: Name, q: Parse)
    requires FillsFrom(st, o, m, q) && Var(m) in c && c[Var(m)].unexpanded == q.unexpanded && c[Var(m)].removes.Some?
    ensures Reply(st, ord, c, Unexpanded(o), 1).cache == WithSet(c, m, c[Var(m)].Carried() + ActiveRemoves(st, o))
  {
    assert ReadVariant(0, st, ord, c, o) == After(Success(c[Var(m)]), c);
  }

  /** All removals that meet in the set: those in force for `v`, and those of `o`. */
  ghost function Meeting(st: Store, o: Name, v: Name, q: Parse): set<Text> {
    InForce(st, v, q) + ActiveRemoves(st, o)
  }

  /** The cache the two reads start from. */
  ghost function Start(st: Store, o: Name, v: Name, q: Parse, e: Text): Cache
    requires Chosen(st, v).Some?
  {
    CacheOf(st, Chosen(st, v).value, q.(removes := Some(q.Carried())),
            Needed(st, Raw(st, v, q.unexpanded).GetOr([]), e, Meeting(st, o, v, q)))
  }

  /** All that is needed has a cache-free value, and `v` is not among it. */
  lemma NeededEvaluate(st: Store, o: Name, v: Name, q: Parse, e: Text, t: Text)
    requires Spoils(st, o, v, q, e, t) && forall r | r in ActiveRemoves(st, o) :: v !in Refs(r)
    ensures var raw := Raw(st, v, q.unexpanded).value;
            && v !in Needed(st, raw, e, Meeting(st, o, v, q))
            && forall u | u in Needed(st, raw, e, Meeting(st, o, v, q)) :: exists p :: EvalsTo(st, Var(u), p)
  {
    var raw := Raw(st, v, q.unexpanded).value;
    SetMeansNeverUnset(st, v, q);
    RefsEvaluate(st, Some(Var(v)), raw, e);
    SubsToLeftover(st, Some(Var(v)), raw, e);
    var n := SpoiledEvaluates(st, o, v, q, e, t);
    forall r | r in Meeting(st, o, v, q)
      ensures v !in Refs(r) + Refs(Expansion(st, r))
      ensures forall u | u in Refs(r) + Refs(Expansion(st, r)) :: exists p :: EvalsTo(st, Var(u), p)
    {
      assert Expands(st, r);
      RefsEvaluate(st, None, r, Expansion(st, r));
      SubsToLeftover(st, None, r, Expansion(st, r));
      if r in InForce(st, v, q) {
        NotOwnRemoval(n, st, v, q, e, r);
      }
    }
  }

  lemma TokenMeansText(st: Store, o: Name, v: Name, q: Parse, e: Text, t: Text)
    requires Spoils(st, o, v, q, e, t)
    ensures e != [] && ActiveRemoves(st, o) != {}
  {
    var r :| r in ActiveRemoves(st, o) && Removes(st, r, t);
    assert IsWord(t) && Tokens([]) == [[]];
  }

  /** The cache-free value of a spoiled variable. */
  lemma SpoiledValue(st: Store, o: Name, v: Name, q: Parse, e: Text, t: Text)
    requires Spoils(st, o, v, q, e, t)
    ensures EvalsTo(st, Var(v), Finished(Raw(st, v, q.unexpanded), Some(e), WordMap(st, InForce(st, v, q))))
  {
    WordMapOk(st, InForce(st, v, q));
    ComposeVar(st, v, q, Raw(st, v, q.unexpanded), Some(e), WordMap(st, InForce(st, v, q)));
  }

  lemma SpoiledEvaluates(st: Store, o: Name, v: Name, q: Parse, e: Text, t: Text) returns (n: nat)
    requires Spoils(st, o, v, q, e, t)
    ensures Eval(n, st, false, true, Var(v)).Success? && e != []
  {
    SpoiledValue(st, o, v, q, e, t);
    TokenMeansText(st, o, v, q, e, t);
    n :| Eval(n, st, false, true, Var(v))
      == Success(Finished(Raw(st, v, q.unexpanded), Some(e), WordMap(st, InForce(st, v, q))));
  }

  lemma StartIs(st: Store, o: Name, v: Name, q: Parse, e: Text, t: Text)
    requires Spoils(st, o, v, q, e, t) && forall r | r in ActiveRemoves(st, o) :: v !in Refs(r)
    ensures Exact(st, Start(st, o, v, q, e))
    ensures Prepared(st, Start(st, o, v, q, e), v, Chosen(st, v).value, q, Raw(st, v, q.unexpanded).value, e,
                     Meeting(st, o, v, q))
  {
    var m, raw, all := Chosen(st, v).value, Raw(st, v, q.unexpanded).value, Meeting(st, o, v, q);
    var us, c := Needed(st, raw, e, all), Start(st, o, v, q, e);
    NeededEvaluate(st, o, v, q, e, t);
    var n := SpoiledEvaluates(st, o, v, q, e, t);
    NotOwnVariant(n, st, v);
    StartExact(st, m, q.(removes := Some(q.Carried())), q, us);
    StartHas(st, m, q.(removes := Some(q.Carried())), q, us);
    forall r | r in all ensures FlatRemoval(st, c, r) {
      assert Expands(st, r);
      assert forall u | u in Refs(r) + Refs(Expansion(st, r)) :: u in us;
    }
  }

  lemma StartExact(st: Store, m: Name, p: Parse, q: Parse, us: set<Name>)
    requires EvalsTo(st, Var(m), q) && Same(p, q) && (IsVariant(st, m) ==> Shareable(st, m))
    requires forall u | u in us :: exists x :: EvalsTo(st, Var(u), x)
    ensures Exact(st, CacheOf(st, m, p, us))
  {
    var c := CacheOf(st, m, p, us);
    forall k | k in c ensures ExactEntry(st, k, c[k]) {
      if k != Var(m) {
        ParseExact(st, k.name);
      }
    }
  }

  lemma StartHas(st: Store, m: Name, p: Parse, q: Parse, us: set<Name>)
    requires EvalsTo(st, Var(m), q) && p.value == q.value && forall u | u in us :: exists x :: EvalsTo(st, Var(u), x)
    ensures AllCached(st, CacheOf(st, m, p, us), us)
  {
    var c := CacheOf(st, m, p, us);
    forall u | u in us ensures CachedAs(st, c, u) {
      if u != m {
        assert Var(u) in c && c[Var(u)] == ParseOf(st, Var(u));
      } else {
        assert EvalsTo(st, Var(m), q) && c[Var(m)].value == q.value;
      }
    }
  }

  lemma AllWordsOf(st: Store, a: set<Text>, b: set<Text>)
    ensures AllWords(WordMap(st, a + b)) == AllWords(WordMap(st, a)) + AllWords(WordMap(st, b))
  {
    forall t ensures t in AllWords(WordMap(st, a + b)) <==>
        t in AllWords(WordMap(st, a)) || t in AllWords(WordMap(st, b)) {
      InWords(st, a + b, t);
      InWords(st, a, t);
      InWords(st, b, t);
    }
  }

  lemma InWords(st: Store, removes: set<Text>, t: Text)
    ensures t in AllWords(WordMap(st, removes)) <==> exists r :: r in removes && t in Words(Expansion(st, r))
  {
    if r :| r in removes && t in Words(Expansion(st, r)) {
      assert t in WordMap(st, removes)[r];
    }
    if t in AllWords(WordMap(st, removes)) {
      var r :| r in WordMap(st, removes) && t in WordMap(st, removes)[r];
      assert r in removes;
    }
  }

  lemma RemovedByWords(st: Store, removes: set<Text>, t: Text)
    requires AllExpand(st, removes)
    ensures RemovedBy(st, removes, t) <==> t in AllWords(WordMap(st, removes))
  {
    WordMapOk(st, removes);
    forall r | r in removes ensures Removes(st, r, t) <==> t in WordMap(st, removes)[r] {
      WordsRemove(st, WordMap(st, removes), r, t);
    }
    InWords(st, removes, t);
  }

  /** With the removals of `o` a word is gone that the cache-free value has. */
  lemma SpoiledDiffers(st: Store, o: Name, v: Name, q: Parse, e: Text, t: Text)
    requires Spoils(st, o, v, q, e, t)
    ensures var own, all := WordMap(st, InForce(st, v, q)), WordMap(st, Meeting(st, o, v, q));
            Finished(Raw(st, v, q.unexpanded), Some(e), own).value != Some(RemoveWords(e, AllWords(all)))
  {
    var own, others := InForce(st, v, q), ActiveRemoves(st, o);
    AllWordsOf(st, own, others);
    RemovedByWords(st, own, t);
    RemovedByWords(st, others, t);
    WordMapOk(st, own);
    WordMapOk(st, others);
    WordsAreWords(st, WordMap(st, own));
    WordsAreWords(st, WordMap(st, others));
    WordGone(e, AllWords(WordMap(st, own)), AllWords(WordMap(st, others)), t);
    FinishedText(st, v, q, e, own);
    TokenMeansText(st, o, v, q, e, t);
  }

  lemma WordGone(e: Text, own: set<Text>, others: set<Text>, t: Text)
    requires (forall w | w in own :: IsWord(w)) && forall w | w in others :: IsWord(w)
    requires t in Tokens(e) && t in others && t !in own
    ensures RemoveWords(e, own + others) != RemoveWords(e, own)
  {
    RemoveMoreExact(e, own, others);
  }

  lemma FinishedText(st: Store, v: Name, q: Parse, e: Text, removes: set<Text>)
    ensures e != [] ==>
              Finished(Raw(st, v, q.unexpanded), Some(e), WordMap(st, removes)).value
              == Some(RemoveWords(e, AllWords(WordMap(st, removes))))
  {
    if WordMap(st, removes) == map[] {
      assert AllWords(WordMap(st, removes)) == {};
      RemoveNothing(e, {});
    }
  }

  /** Reading `o` unexpanded and then `v`. */
  function TwoReads(p: Probe, q: Probe, depth: nat): (acts: seq<Act>)
    ensures Reads(acts)
  {
    [Ask(p, depth), Ask(q, depth)]
  }

  /** The second of two reads answers with a value that is not the cache-free one. */
  lemma SecondWrong(st: Store, ord: Order, c: Cache, p: Probe, q: Probe, depth: nat, c1: Cache, x: Option<Text>)
    requires Reply(st, ord, c, p, depth).cache == c1 && Reply(st, ord, c1, q, depth).result == Success(x)
    requires !ValueOf(st, q, x)
    ensures !RightFrom(st, ord, c, TwoReads(p, q, depth))
  {
    var acts := TwoReads(p, q, depth);
    assert MachineAt(Machine(st, c), ord, acts, 0) == Machine(st, c);
    assert MachineAt(Machine(st, c), ord, acts, 1) == Machine(st, c1);
    AsksKeepStore(st, acts, 1);
    assert acts[1] == Ask(q, depth) && Answers(Machine(st, c), ord, acts)[1] == Some(Success(x));
  }

  /** The first of the two reads leaves a cache from which the second goes wrong. */
  lemma SpoiledFill(st: Store, ord: Order, o: Name, v: Name, q: Parse, e: Text, t: Text) returns (c1: Cache)
    requires Spoils(st, o, v, q, e, t) && forall r | r in ActiveRemoves(st, o) :: v !in Refs(r)
    ensures Exact(st, Start(st, o, v, q, e)) && Reply(st, ord, Start(st, o, v, q, e), Unexpanded(o), 1).cache == c1
    ensures Prepared(st, c1, v, Chosen(st, v).value, q, Raw(st, v, q.unexpanded).value, e, Meeting(st, o, v, q))
    ensures Meeting(st, o, v, q) == c1[Var(Chosen(st, v).value)].Carried() + ActiveRemoves(st, v)
  {
    var m, all, c := Chosen(st, v).value, Meeting(st, o, v, q), Start(st, o, v, q, e);
    StartIs(st, o, v, q, e, t);
    var p :| FillsFrom(st, o, m, p);
    EvalUnique(st, Var(m), p, q);
    UnexpandedFills(st, ord, c, o, m, q);
    var filled := c[Var(m)].Carried() + ActiveRemoves(st, o);
    c1 := WithSet(c, m, filled);
    FillKeepsPrepared(st, c, v, m, q, Raw(st, v, q.unexpanded).value, e, all, filled);
    assert all == c1[Var(m)].Carried() + ActiveRemoves(st, v);
  }

  /** The two reads give a wrong value. */
  lemma SpoiledRead(st: Store, ord: Order, o: Name, v: Name, q: Parse, e: Text, t: Text)
    requires Spoils(st, o, v, q, e, t) && IsOrder(ord) && forall r | r in ActiveRemoves(st, o) :: v !in Refs(r)
    ensures var c := Start(st, o, v, q, e);
            Exact(st, c) && !RightFrom(st, ord, c, TwoReads(Unexpanded(o), Value(v), 1))
  {
    var m, all := Chosen(st, v).value, Meeting(st, o, v, q);
    var c1 := SpoiledFill(st, ord, o, v, q, e, t);
    TokenMeansText(st, o, v, q, e, t);
    PreparedRead(st, ord, c1, v, m, q, e, all);
    WrongValue(st, o, v, q, e, t);
    var wrong := Some(RemoveWords(e, AllWords(WordMap(st, all))));
    SecondWrong(st, ord, Start(st, o, v, q, e), Unexpanded(o), Value(v), 1, c1, wrong);
  }

  lemma WrongValue(st: Store, o: Name, v: Name, q: Parse, e: Text, t: Text)
    requires Spoils(st, o, v, q, e, t)
    ensures !ValueOf(st, Value(v), Some(RemoveWords(e, AllWords(WordMap(st, Meeting(st, o, v, q))))))
  {
    SpoiledValue(st, o, v, q, e, t);
    SpoiledDiffers(st, o, v, q, e, t);
    var right := Finished(Raw(st, v, q.unexpanded), Some(e), WordMap(st, InForce(st, v, q)));
    forall p | EvalsTo(st, Var(v), p) ensures p == right {
      EvalUnique(st, Var(v), p, right);
    }
  }

  /** Some order of iteration, to have one. */
  ghost function ListOf(s: set<Text>): (l: seq<Text>)
    ensures forall r :: r in l <==> r in s
  {
    if s == {} then []
    else
      var x :| x in s;
      assert s == {x} + (s - {x});
      [x] + ListOf(s - {x})
  }

  ghost function SomeOrder(): (ord: Order)
    ensures IsOrder(ord)
  {
    (v, c, s) => ListOf(s)
  }

  lemma SpoiledMeansWrong(st: Store, o: Name, v: Name, q: Parse, e: Text, t: Text)
    requires Spoils(st, o, v, q, e, t) && forall r | r in ActiveRemoves(st, o) :: v !in Refs(r)
    ensures !RightInEveryOrder(st)
  {
    SpoiledRead(st, SomeOrder(), o, v, q, e, t);
  }

  // ---- Removals that refer to what they would spoil ----------------------------------------------------

  /** `r` refers to `v`, and all else it refers to is cached. */
  ghost predicate RefersTo(st: Store, c: Cache, v: Name, r: Text) {
    v in Refs(r) && Expands(st, r) && AllCached(st, c, Refs(r) - {v})
  }

  /** Everything is cached that a read of `v` needs, except `v`, to which a removal left in the set refers. */
  ghost predicate Crossed(st: Store, c: Cache, v: Name, m: Name, q: Parse, raw: Text, e: Text) {
    && Var(v) !in c && Var(m) in c && c[Var(m)].unexpanded == q.unexpanded && c[Var(m)].removes.Some?
    && AllCached(st, c, Refs(raw) + Refs(e))
    && (forall r | r in c[Var(m)].Carried() + ActiveRemoves(st, v) :: FlatRemoval(st, c, r) || RefersTo(st, c, v, r))
    && exists r :: r in c[Var(m)].Carried() && RefersTo(st, c, v, r)
  }

  lemma GatherKeepsCrossed(st: Store, c: Cache, v: Name, m: Name, q: Parse, raw: Text, e: Text)
    requires Chosen(st, v) == Some(m) && Crossed(st, c, v, m, q, raw, e)
    ensures Crossed(st, Gather(st, c, v, true), v, m, q, raw, e)
  {
    var c1 := Gather(st, c, v, true);
    assert c1 == WithSet(c, m, c[Var(m)].Carried() + ActiveRemoves(st, v));
    forall u | CachedAs(st, c, u) ensures CachedAs(st, c1, u) {
    }
    forall r ensures FlatRemoval(st, c, r) ==> FlatRemoval(st, c1, r)
      ensures RefersTo(st, c, v, r) ==> RefersTo(st, c1, v, r) {
    }
  }

  /** If `v` cannot be read, neither can anything that refers to it. */
  lemma {:induction false} CrossedSub(n: nat, k: nat, st: Store, ord: Order, c: Cache, v: Name, s: Text)
    requires Read(n, st, ord, c, true, Var(v)).result.Failure? && v in Refs(s)
    requires Sub(k, st, false, None, s).Success? && AllCached(st, c, Refs(s) - {v})
    ensures Substituted(n, st, ord, c, None, s).result.Failure?
    decreases |s|
  {
    var front, last := s[..|s| - 1], s[|s| - 1];
    assert s == front + [last];
    assert Refs(s) == Refs(front) + Refs([last]);
    SubSplit(k, st, false, None, front, last);
    SubstitutedSnoc(n, st, ord, c, None, front, last);
    if v in Refs(front) {
      CrossedSub(n, k, st, ord, c, v, front);
    } else {
      FlatSubstituted(n, k, st, ord, c, None, front);
      assert last == Ref(v);
    }
  }

  lemma {:induction false} CrossedRemoves(n: nat, st: Store, ord: Order, c: Cache, v: Name, held: Option<Name>,
                                          removes: set<Text>, todo: seq<Text>)
    requires Read(n, st, ord, c, true, Var(v)).result.Failure? && !Grown(c, held, removes)
    requires forall r | r in todo :: FlatRemoval(st, c, r) || RefersTo(st, c, v, r)
    requires exists r :: r in todo && RefersTo(st, c, v, r)
    ensures ExpandRemoves(n, st, ord, c, held, removes, todo).result.Failure?
    decreases |todo|
  {
    var rest, last := todo[..|todo| - 1], todo[|todo| - 1];
    assert todo == rest + [last];
    RemovesSnoc(n, st, ord, c, held, removes, rest, last);
    if exists r :: r in rest && RefersTo(st, c, v, r) {
      CrossedRemoves(n, st, ord, c, v, held, removes, rest);
    } else {
      var x :| SubsTo(st, None, last, x);
      var k: nat :| Sub(k, st, false, None, last) == Success(x);
      CrossedSub(n, k, st, ord, c, v, last);
      assert forall r | r in rest :: FlatRemoval(st, c, r);
      FlatRemoves(n, st, ord, c, held, removes, rest);
    }
  }

  lemma CrossedWords(n: nat, st: Store, ord: Order, c: Cache, v: Name, m: Name, q: Parse, raw: Text, e: Text)
    requires IsOrder(ord) && Chosen(st, v) == Some(m) && Crossed(st, c, v, m, q, raw, e)
    requires Read(n, st, ord, Gather(st, c, v, true), true, Var(v)).result.Failure?
    ensures RemovalWords(n, st, ord, c, true, v, true).result.Failure?
  {
    var c1, all := Gather(st, c, v, true), Gathered(st, c, v, true);
    GatherKeepsCrossed(st, c, v, m, q, raw, e);
    assert c1 == WithSet(c, m, all) && c1[Var(m)].Carried() == all;
    assert all == all + ActiveRemoves(st, v);
    CrossedRemoves(n, st, ord, c1, v, Some(m), all, ord(v, c1, all));
  }

  ghost predicate CrossedAt(st: Store, c: Cache, v: Name, m: Name, q: Parse, e: Text) {
    && Chosen(st, v) == Some(m) && TextIs(st, v, q, e) && e != [] && NeverUnset(st, Some(Var(v)))
    && Crossed(st, c, v, m, q, Raw(st, v, q.unexpanded).value, e)
  }

  lemma CrossedText(n: nat, st: Store, ord: Order, c: Cache, v: Name, m: Name, q: Parse, e: Text)
    requires CrossedAt(st, c, v, m, q, e) && RemovalWords(n, st, ord, c, true, v, true).result.Failure?
    ensures ReadVar(n, st, ord, c, true, v).result.Failure?
  {
    var raw := Raw(st, v, q.unexpanded);
    assert ReadVariant(n, st, ord, c, v) == After(Success(c[Var(m)]), c);
    FlatExpanded(n, st, ord, c, Some(Var(v)), raw.value, e);
    RestIs(n, st, ord, c, true, v, raw, Some(e), true, RemovalWords(n, st, ord, c, true, v, true));
    assert ReadText(n, st, ord, c, true, v, c[Var(m)]) == ReadRest(n, st, ord, c, true, v, raw, Some(e), true);
  }

  lemma CrossedStep(n: nat, st: Store, ord: Order, c: Cache, v: Name, m: Name, q: Parse, e: Text)
    requires IsOrder(ord) && CrossedAt(st, c, v, m, q, e)
    requires Read(n, st, ord, Gather(st, c, v, true), true, Var(v)).result.Failure?
    ensures ReadVar(n, st, ord, c, true, v).result.Failure?
  {
    CrossedWords(n, st, ord, c, v, m, q, Raw(st, v, q.unexpanded).value, e);
    CrossedText(n, st, ord, c, v, m, q, e);
  }

  lemma GatherKeepsAt(st: Store, c: Cache, v: Name, m: Name, q: Parse, e: Text)
    requires CrossedAt(st, c, v, m, q, e)
    ensures CrossedAt(st, Gather(st, c, v, true), v, m, q, e)
  {
    GatherKeepsCrossed(st, c, v, m, q, Raw(st, v, q.unexpanded).value, e);
  }

  /** Such a read raises, at every depth: it does not give a wrong value. */
  lemma {:induction false} CrossedRead(n: nat, st: Store, ord: Order, c: Cache, v: Name, m: Name, q: Parse, e: Text)
    requires IsOrder(ord) && CrossedAt(st, c, v, m, q, e)
    ensures Read(n, st, ord, c, true, Var(v)).result.Failure?
  {
    if n > 0 {
      var c1 := Gather(st, c, v, true);
      GatherKeepsAt(st, c, v, m, q, e);
      CrossedRead(n - 1, st, ord, c1, v, m, q, e);
      CrossedStep(n - 1, st, ord, c, v, m, q, e);
    }
  }

  lemma HarmlessNeeded(st: Store)
    requires RightInEveryOrder(st) && NoCross(st)
    ensures forall o, v, q, e, t :: !Spoils(st, o, v, q, e, t)
  {
    forall o, v, q, e, t ensures !Spoils(st, o, v, q, e, t) {
      if Spoils(st, o, v, q, e, t) {
        SpoiledMeansWrong(st, o, v, q, e, t);
      }
    }
  }

  /**
   If no variant hands on what was left for it, and removals that spoil a variable do not refer to it: reads in every
   order give the cache-free values exactly if no word of any variable's text is removed by the removals of another
   with the same variant alone.
   */
  lemma RightExactly(st: Store)
    requires NoCross(st) && NoHandingOn(st)
    ensures RightInEveryOrder(st) <==> forall o, v, q, e, t :: !Spoils(st, o, v, q, e, t)
  {
    if forall o, v, q, e, t :: !Spoils(st, o, v, q, e, t) {
      HarmlessSuffices(st);
    }
    if RightInEveryOrder(st) {
      HarmlessNeeded(st);
    }
  }
}
