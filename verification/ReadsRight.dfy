/**
 When reading with the memo gives the cache-free values.  The one thing that reads share is the removal set of a
 variant's parse, which every variable that takes its text from the variant fills.
 */
module ReadsRight {
  import opened Prelude
  import opened Text
  import opened Overrides
  import opened Datastore
  import opened Evaluation
  import opened Memo
  import opened Coherence

  // ---- The condition on a store --------------------------------------------------------------

  /** A read of `o` leaves its removals in the set that a read of `v` starts from. */
  ghost predicate Shares(st: Store, o: Name, v: Name) {
    Chosen(st, v).Some? && Fills(st, o, Chosen(st, v).value) && Shareable(st, Chosen(st, v).value)
  }

  /** The text of `v`, expanded, before removals; `q` is the parse of its variant. */
  ghost predicate TextIs(st: Store, v: Name, q: Parse, e: Text) {
    && VariantIs(st, v, q) && Raw(st, v, q.unexpanded).Some?
    && SubsTo(st, Some(Var(v)), Raw(st, v, q.unexpanded).value, e)
  }

  /** `t` is a word of what the removal `r` expands to. */
  ghost predicate Removes(st: Store, r: Text, t: Text) {
    exists x :: SubsTo(st, None, r, x) && t in Words(x)
  }

  ghost predicate RemovedBy(st: Store, removes: set<Text>, t: Text) {
    exists r :: r in removes && Removes(st, r, t)
  }

  /** The word `t` of the text of `v` is removed by the removals of `o`, and not by those in force for `v`. */
  ghost predicate Spoils(st: Store, o: Name, v: Name, q: Parse, e: Text, t: Text) {
    && Shares(st, o, v) && TextIs(st, v, q, e) && AllExpand(st, InForce(st, v, q))
    && AllExpand(st, ActiveRemoves(st, o))
    && t in Tokens(e) && RemovedBy(st, ActiveRemoves(st, o), t) && !RemovedBy(st, InForce(st, v, q), t)
  }

  /** `v` is itself read as a variant, and `o` leaves removals that are not in force for `v`. */
  ghost predicate Spills(st: Store, o: Name, v: Name, q: Parse) {
    && Shares(st, o, v) && VariantIs(st, v, q) && IsVariant(st, v)
    && AllExpand(st, ActiveRemoves(st, o)) && !(ActiveRemoves(st, o) <= InForce(st, v, q))
  }

  /** No word of a variable is removed by removals that only others have, and none of these is passed on. */
  ghost predicate Harmless(st: Store) {
    && (forall o, v, q, e, t :: !Spoils(st, o, v, q, e, t))
    && forall o, v, q :: !Spills(st, o, v, q)
  }

  /** All that others leave for a variable is in force for it anyway. */
  ghost predicate NoSpill(st: Store) {
    forall o, v, q | Shares(st, o, v) && VariantIs(st, v, q) :: ActiveRemoves(st, o) <= InForce(st, v, q)
  }

  lemma NoSpillHarmless(st: Store)
    requires NoSpill(st)
    ensures Harmless(st)
  {
    forall o, v, q, e, t ensures !Spoils(st, o, v, q, e, t) {
      if Shares(st, o, v) && VariantIs(st, v, q) {
        RemovedByMore(st, ActiveRemoves(st, o), InForce(st, v, q), t);
      }
    }
  }

  lemma RemovedByMore(st: Store, some: set<Text>, all: set<Text>, t: Text)
    requires some <= all
    ensures RemovedBy(st, some, t) ==> RemovedBy(st, all, t)
  {
    if r :| r in some && Removes(st, r, t) {
      assert r in all;
    }
  }

  lemma AgreeNoSpill(st: Store)
    requires SharersAgree(st)
    ensures NoSpill(st)
  {
  }

  // ---- The removals of one read ------------------------------------------------------------------

  ghost predicate Right(st: Store, c: Cache) {
    Sound(st, c) && Coherent(st, c)
  }

  /** `all` is what is in force for `v`, and possibly all that some variables left that share its variant. */
  ghost predicate Collected(st: Store, v: Name, q: Parse, all: set<Text>) {
    && InForce(st, v, q) <= all
    && forall r | r in all :: r in InForce(st, v, q) || Left(st, v, all, r)
  }

  ghost predicate Left(st: Store, v: Name, all: set<Text>, r: Text) {
    exists o :: Shares(st, o, v) && FilledBy(st, o, all, r)
  }

  lemma WordsExpand(st: Store, words: map<Text, set<Text>>, removes: set<Text>)
    requires WordsOk(st, words) && removes <= words.Keys
    ensures AllExpand(st, removes)
  {
  }

  lemma WordsRemove(st: Store, words: map<Text, set<Text>>, r: Text, t: Text)
    requires WordsOk(st, words) && r in words
    ensures t in words[r] <==> Removes(st, r, t)
  {
    var x :| SubsTo(st, None, r, x) && words[r] == Words(x);
    forall y | SubsTo(st, None, r, y) ensures y == x {
      SubsToUnique(st, None, r, x, y);
    }
  }

  /** On a harmless store nothing is left that is passed on, */
  lemma NothingSpilled(st: Store, v: Name, q: Parse, words: map<Text, set<Text>>)
    requires Harmless(st) && VariantIs(st, v, q) && Collected(st, v, q, words.Keys) && WordsOk(st, words)
    requires IsVariant(st, v) || NoSpill(st)
    ensures words.Keys == InForce(st, v, q)
  {
    forall r | r in words && Left(st, v, words.Keys, r) ensures r in InForce(st, v, q) {
      var o :| Shares(st, o, v) && FilledBy(st, o, words.Keys, r);
      WordsExpand(st, words, ActiveRemoves(st, o));
      assert !Spills(st, o, v, q);
    }
  }

  /** nor anything that removes a word. */
  lemma NothingSpoiled(st: Store, v: Name, q: Parse, e: Text, words: map<Text, set<Text>>, t: Text)
    requires Harmless(st) && TextIs(st, v, q, e) && Collected(st, v, q, words.Keys) && WordsOk(st, words)
    requires t in Tokens(e) && t in AllWords(words)
    ensures t in AllWords(map r | r in InForce(st, v, q) :: words[r])
  {
    var own := map r | r in InForce(st, v, q) :: words[r];
    var r :| r in words && t in words[r];
    WordsRemove(st, words, r, t);
    if r in InForce(st, v, q) {
      assert t in own[r];
    } else {
      var o :| Shares(st, o, v) && FilledBy(st, o, words.Keys, r);
      WordsExpand(st, words, ActiveRemoves(st, o));
      WordsExpand(st, words, InForce(st, v, q));
      assert RemovedBy(st, ActiveRemoves(st, o), t) && !Spoils(st, o, v, q, e, t);
      var r' :| r' in InForce(st, v, q) && Removes(st, r', t);
      WordsRemove(st, words, r', t);
      assert t in own[r'];
    }
  }

  lemma RemoveNothing(e: Text, words: set<Text>)
    requires forall t | t in Tokens(e) :: t !in words
    ensures RemoveWords(e, words) == e
  {
    KeepAll(Tokens(e), words);
    JoinTokens(e);
  }

  lemma {:induction false} KeepAll(ts: seq<Text>, words: set<Text>)
    requires forall t | t in ts :: t !in words
    ensures Keep(ts, words) == ts
  {
    if ts != [] {
      KeepAll(ts[1..], words);
    }
  }

  /** What the cache-free read removes is removed, and nothing else. */
  lemma SameValue(st: Store, v: Name, q: Parse, e: Text, words: map<Text, set<Text>>)
    requires Harmless(st) && TextIs(st, v, q, e) && e != []
    requires Collected(st, v, q, words.Keys) && WordsOk(st, words) && words != map[]
    ensures var own := map r | r in InForce(st, v, q) :: words[r];
            && Parsed(Raw(st, v, q.unexpanded), Some(e), words).value
               == Finished(Raw(st, v, q.unexpanded), Some(e), own).value
            && Used(e, own) <= Used(e, words)
  {
    var own := map r | r in InForce(st, v, q) :: words[r];
    forall t | t in Tokens(e) ensures t in AllWords(words) <==> t in AllWords(own) {
      if t in AllWords(words) {
        NothingSpoiled(st, v, q, e, words, t);
      }
      if t in AllWords(own) {
        var r :| r in own && t in own[r];
        assert t in words[r];
      }
    }
    KeepSame(Tokens(e), AllWords(own), AllWords(words));
    if own == map[] {
      assert AllWords(own) == {};
      RemoveNothing(e, AllWords(words));
    }
  }

  /** The finished parse of a variable, in either mode, is acceptable. */
  lemma FinishedOk(st: Store, v: Name, expand: bool, q: Parse, raw: Option<Text>, e: Option<Text>,
                   words: map<Text, set<Text>>)
    requires Harmless(st) && VariantIs(st, v, q) && raw == Raw(st, v, q.unexpanded)
             && ExpandsTo(st, Some(Var(v)), raw, e)
    requires raw == Some([]) ==> e == Some([])
    requires WordsOk(st, words)
    requires if Truthy(if expand then e else raw) then Collected(st, v, q, words.Keys) else words == map[]
    ensures EntryOk(st, Var(v), Parsed(raw, e, words))
  {
    if words == map[] {
      assert WordsOk(st, map[]);
      ComposeVar(st, v, q, raw, e, map[]);
      assert Faithful(st, Var(v), Parsed(raw, e, words), Finished(raw, e, map[]));
    } else {
      var own := map r | r in InForce(st, v, q) :: words[r];
      assert WordsOk(st, own);
      ComposeVar(st, v, q, raw, e, own);
      FinishedFaithful(st, v, q, raw, e, words, own);
    }
  }

  lemma FinishedFaithful(st: Store, v: Name, q: Parse, raw: Option<Text>, e: Option<Text>, words: map<Text, set<Text>>,
                         own: map<Text, set<Text>>)
    requires Harmless(st) && VariantIs(st, v, q) && raw == Raw(st, v, q.unexpanded)
             && ExpandsTo(st, Some(Var(v)), raw, e)
    requires Truthy(raw) && e.Some? && WordsOk(st, words) && Collected(st, v, q, words.Keys) && words != map[]
    requires own == map r | r in InForce(st, v, q) :: words[r]
    ensures Faithful(st, Var(v), Parsed(raw, e, words), Finished(raw, e, own))
  {
    var p, f := Parsed(raw, e, words), Finished(raw, e, own);
    if e == Some([]) {
      WordsAreWords(st, words);
      RemoveFromNothing(words);
    } else {
      SameValue(st, v, q, e.value, words);
    }
    if IsVariant(st, v) {
      PassedOn(st, v, q, raw, e, words, own);
    }
  }

  /** What a variant's parse passes on is what the cache-free one does. */
  lemma PassedOn(st: Store, v: Name, q: Parse, raw: Option<Text>, e: Option<Text>, words: map<Text, set<Text>>,
                 own: map<Text, set<Text>>)
    requires Harmless(st) && VariantIs(st, v, q) && raw == Raw(st, v, q.unexpanded) && Truthy(raw) && e.Some?
    requires WordsOk(st, words) && Collected(st, v, q, words.Keys) && words != map[] && IsVariant(st, v)
    requires own == map r | r in InForce(st, v, q) :: words[r]
    requires e == Some([]) ==> Used([], words) == {}
    ensures SetOk(st, v, Parsed(raw, e, words), Finished(raw, e, own))
  {
    NothingSpilled(st, v, q, words);
    assert own == words;
    WordsShareable(st, v, q, words);
  }

  lemma WordsShareable(st: Store, v: Name, q: Parse, words: map<Text, set<Text>>)
    requires VariantIs(st, v, q) && Truthy(Raw(st, v, q.unexpanded))
    requires WordsOk(st, words) && words.Keys == InForce(st, v, q) && words != map[]
    ensures Shareable(st, v)
  {
    WordsExpand(st, words, InForce(st, v, q));
    assert HasRemovals(st, v, q);
  }

  // ---- Every read, from every such cache ---------------------------------------------------------

  /** The set a read gathers is collected from what the cache holds for its variant. */
  lemma GatheredIs(st: Store, c: Cache, v: Name, q: Parse, shared: bool)
    requires Coherent(st, c) && Holds(st, c, v, shared) && VariantIs(st, v, q) && (!shared ==> q.Carried() == {})
    ensures Collected(st, v, q, Gathered(st, c, v, shared))
    ensures NoSpill(st) ==> Gathered(st, c, v, shared) == InForce(st, v, q)
  {
    if shared {
      var m := Chosen(st, v).value;
      var p, all := c[Var(m)], Gathered(st, c, v, shared);
      assert EntryOk(st, Var(m), p) && IsVariant(st, m);
      var q' :| EvalsTo(st, Var(m), q') && Faithful(st, Var(m), p, q');
      EvalUnique(st, Var(m), q, q');
      forall r | r in all ensures r in InForce(st, v, q) || Left(st, v, all, r) {
        if r in p.Carried() && r !in q.Carried() {
          var o :| Fills(st, o, m) && FilledBy(st, o, p.Carried(), r);
          assert Shares(st, o, v) && FilledBy(st, o, all, r);
        }
      }
      if NoSpill(st) {
        forall o | Fills(st, o, m) ensures ActiveRemoves(st, o) <= InForce(st, v, q) {
          assert Shares(st, o, v);
        }
        CarriedRepaired(st, v, m, p, q);
      }
    }
  }

  lemma GatherRight(st: Store, c: Cache, v: Name, q: Parse, shared: bool)
    requires Right(st, c) && Holds(st, c, v, shared) && VariantIs(st, v, q) && Truthy(Raw(st, v, q.unexpanded))
    ensures Right(st, Gather(st, c, v, shared))
  {
    GatherKeeps(st, c, v, shared);
    if shared {
      var m := Chosen(st, v).value;
      assert FillsFrom(st, v, m, q);
      assert EntryOk(st, Var(m), c[Var(m)]);
      PollutedOk(st, v, m, c[Var(m)]);
    }
  }

  /** A set that holds all that can be left in it does not grow any more. */
  lemma NotGrown(st: Store, c: Cache, v: Name, q: Parse, shared: bool)
    requires NoSpill(st) && Coherent(st, c) && Holds(st, c, v, shared) && VariantIs(st, v, q)
    requires InForce(st, v, q) <= if shared then SetOf(c, Chosen(st, v)) else InForce(st, v, q)
    ensures !Grown(c, if shared then Chosen(st, v) else None, InForce(st, v, q))
  {
    if shared {
      GatheredIs(st, c, v, q, shared);
    }
  }

  ghost predicate Ready(st: Store, ord: Order, c: Cache) {
    Harmless(st) && IsOrder(ord) && Right(st, c)
  }

  /** No exception, if none is due without the memo and nothing spills. */
  ghost predicate Succeeds<T>(st: Store, due: bool, a: After<T>) {
    NoSpill(st) && due ==> a.result.Success?
  }

  lemma {:induction false} ReadRight(n: nat, st: Store, ord: Order, c: Cache, expand: bool, k: Key)
    requires Ready(st, ord, c)
    ensures var a := Read(n, st, ord, c, expand, k);
            && Right(st, a.cache) && Stored(k, a)
            && Succeeds(st, Eval(n, st, true, expand, k).Success?, a)
    decreases n, 0, 0
  {
    ReadKeeps(n, st, ord, c, expand, k);
    if k !in c && n > 0 {
      match k
      case VarFlag(v, f) => FlagRight(n - 1, st, ord, c, v, f);
      case Var(v) => VarRight(n - 1, st, ord, c, expand, v);
    }
  }

  lemma {:induction false} FlagRight(n: nat, st: Store, ord: Order, c: Cache, v: Name, f: string)
    requires Ready(st, ord, c) && VarFlag(v, f) !in c
    ensures var a := ReadFlag(n, st, ord, c, v, f);
            && Coherent(st, a.cache)
            && Succeeds(st, EvalFlag(n, st, true, v, f).Success?, a)
    decreases n, 6, 0
  {
    var raw := RawFlag(st, v, f);
    ExpandedRight(n, st, ord, c, Some(VarFlag(v, f)), raw);
    var x := Expanded(n, st, ord, c, Some(VarFlag(v, f)), raw);
    if x.result.Success? {
      ComposeFlag(st, v, f, raw, x.result.value);
      var p := Parse(raw, x.result.value, RefsOf(raw) + RefsOf(x.result.value), None);
      assert Faithful(st, VarFlag(v, f), p, p);
    }
  }

  lemma {:induction false} VarRight(n: nat, st: Store, ord: Order, c: Cache, expand: bool, v: Name)
    requires Ready(st, ord, c) && Var(v) !in c
    ensures var a := ReadVar(n, st, ord, c, expand, v);
            && Coherent(st, a.cache)
            && Succeeds(st, EvalVar(n, st, true, expand, v).Success?, a)
    decreases n, 7, 0
  {
    var m := ReadVariant(n, st, ord, c, v);
    var q := VariantRight(n, st, ord, c, v);
    if m.result.Success? {
      TextRight(n, st, ord, m.cache, expand, v, m.result.value, q);
    }
  }

  /** The parse of the variant, and the cache-free one `q` it stands for. */
  ghost predicate StandsFor(st: Store, c: Cache, v: Name, variant: Parse, q: Parse) {
    && VariantIs(st, v, q) && variant.unexpanded == q.unexpanded
    && Holds(st, c, v, variant.removes.Some?) && (variant.removes.None? ==> q.Carried() == {})
  }

  lemma {:induction false} VariantRight(n: nat, st: Store, ord: Order, c: Cache, v: Name) returns (q: Parse)
    requires Ready(st, ord, c)
    ensures var a := ReadVariant(n, st, ord, c, v);
            && Right(st, a.cache)
            && (a.result.Success? ==> StandsFor(st, a.cache, v, a.result.value, q))
            && Succeeds(st, EvalVariant(n, st, true, v).Success?, a)
    decreases n, 4, 0
  {
    q := NO_PARSE;
    var c0 := Chosen(st, v);
    VariantKeeps(n, st, ord, c, v);
    if c0.Some? {
      ReadRight(n, st, ord, c, false, Var(c0.value));
      var a := Read(n, st, ord, c, false, Var(c0.value));
      if a.result.Success? {
        assert EntryOk(st, Var(c0.value), a.cache[Var(c0.value)]);
        q :| EvalsTo(st, Var(c0.value), q) && Faithful(st, Var(c0.value), a.result.value, q);
      }
    }
  }

  lemma {:induction false} TextRight(n: nat, st: Store, ord: Order, c: Cache, expand: bool, v: Name, variant: Parse,
                                     q: Parse)
    requires Ready(st, ord, c) && StandsFor(st, c, v, variant, q)
    ensures var a := ReadText(n, st, ord, c, expand, v, variant);
            && Coherent(st, a.cache)
            && Succeeds(st, EvalVar(n, st, true, expand, v).Success?, a)
    decreases n, 6, 0
  {
    var raw, shared := Raw(st, v, q.unexpanded), variant.removes.Some?;
    var x := Expanded(n, st, ord, c, Some(Var(v)), raw);
    RawExpandedRight(n, st, ord, c, expand, v, q, shared);
    if x.result.Success? {
      RestRight(n, st, ord, x.cache, expand, v, q, x.result.value, shared);
    }
    TextThenRest(n, st, ord, c, expand, v, variant, x);
  }

  lemma TextThenRest(n: nat, st: Store, ord: Order, c: Cache, expand: bool, v: Name, variant: Parse,
                     x: After<Option<Text>>)
    requires x == Expanded(n, st, ord, c, Some(Var(v)), Raw(st, v, variant.unexpanded))
    ensures ReadText(n, st, ord, c, expand, v, variant)
         == if x.result.Success? then
              ReadRest(n, st, ord, x.cache, expand, v, Raw(st, v, variant.unexpanded), x.result.value,
                       variant.removes.Some?)
            else After(Failure, x.cache)
  {
  }

  lemma {:induction false} RawExpandedRight(n: nat, st: Store, ord: Order, c: Cache, expand: bool, v: Name, q: Parse,
                                            shared: bool)
    requires Ready(st, ord, c) && VariantIs(st, v, q) && Holds(st, c, v, shared)
    ensures var raw := Raw(st, v, q.unexpanded);
            var x := Expanded(n, st, ord, c, Some(Var(v)), raw);
            && Right(st, x.cache) && Holds(st, x.cache, v, shared)
            && (x.result.Success? ==> ExpandsTo(st, Some(Var(v)), raw, x.result.value))
            && (x.result.Success? && raw == Some([]) ==> x.result.value == Some([]))
            && Succeeds(st, EvalVar(n, st, true, expand, v).Success?, x)
    decreases n, 5, 1
  {
    var raw := Raw(st, v, q.unexpanded);
    if raw.Some? {
      SetMeansNeverUnset(st, v, q);
    }
    if EvalVar(n, st, true, expand, v).Success? {
      StrictExpansion(n, st, expand, v, q);
    }
    ExpandedRight(n, st, ord, c, Some(Var(v)), raw);
    ExpandedKeeps(n, st, ord, c, Some(Var(v)), raw);
  }

  /** The removals in force expand without the memo, if they are needed. */
  ghost predicate Due(n: nat, st: Store, nonEmpty: bool, v: Name, q: Parse) {
    nonEmpty ==> RemoveMap(n, st, true, InForce(st, v, q)).Success?
  }

  lemma WordsDue(n: nat, st: Store, expand: bool, v: Name, q: Parse, e: Option<Text>)
    requires VariantIs(st, v, q) && ExpandsTo(st, Some(Var(v)), Raw(st, v, q.unexpanded), e)
    ensures EvalVar(n, st, true, expand, v).Success? ==>
              Due(n, st, Truthy(if expand then e else Raw(st, v, q.unexpanded)), v, q)
  {
    if EvalVar(n, st, true, expand, v).Success? {
      StrictRemovals(n, st, expand, v, q, e);
    }
  }

  lemma {:induction false} RestRight(n: nat, st: Store, ord: Order, c: Cache, expand: bool, v: Name, q: Parse,
                                     e: Option<Text>, shared: bool)
    requires Ready(st, ord, c) && VariantIs(st, v, q) && Holds(st, c, v, shared) && (!shared ==> q.Carried() == {})
    requires var raw := Raw(st, v, q.unexpanded);
             ExpandsTo(st, Some(Var(v)), raw, e) && (raw == Some([]) ==> e == Some([]))
    ensures var a := ReadRest(n, st, ord, c, expand, v, Raw(st, v, q.unexpanded), e, shared);
            && Coherent(st, a.cache)
            && Succeeds(st, EvalVar(n, st, true, expand, v).Success?, a)
    decreases n, 5, 0
  {
    var raw := Raw(st, v, q.unexpanded);
    var nonEmpty := Truthy(if expand then e else raw);
    WordsDue(n, st, expand, v, q, e);
    WordsRight(n, st, ord, c, nonEmpty, v, q, shared);
    var w := RemovalWords(n, st, ord, c, nonEmpty, v, shared);
    if w.result.Success? {
      FinishedOk(st, v, expand, q, raw, e, w.result.value);
      MemoisedOk(st, w.cache, Var(v), Parsed(raw, e, w.result.value));
    }
    RestIs(n, st, ord, c, expand, v, raw, e, shared, w);
  }

  lemma MemoisedOk(st: Store, c: Cache, k: Key, p: Parse)
    requires Coherent(st, c) && EntryOk(st, k, p)
    ensures Coherent(st, c[k := p])
  {
  }

  lemma {:induction false} WordsRight(n: nat, st: Store, ord: Order, c: Cache, nonEmpty: bool, v: Name, q: Parse,
                                      shared: bool)
    requires Ready(st, ord, c) && VariantIs(st, v, q) && Holds(st, c, v, shared) && (!shared ==> q.Carried() == {})
    requires nonEmpty ==> Truthy(Raw(st, v, q.unexpanded))
    ensures var a := RemovalWords(n, st, ord, c, nonEmpty, v, shared);
            && Coherent(st, a.cache)
            && (a.result.Success? ==> WordsOk(st, a.result.value))
            && (a.result.Success? ==> if nonEmpty then Collected(st, v, q, a.result.value.Keys)
               else a.result.value == map[])
            && Succeeds(st, Due(n, st, nonEmpty, v, q), a)
    decreases n, 4, 0
  {
    if nonEmpty {
      var removes, filled := Gathered(st, c, v, shared), Gather(st, c, v, shared);
      GatheredIs(st, c, v, q, shared);
      GatherRight(st, c, v, q, shared);
      GatherKeeps(st, c, v, shared);
      RemovesRight(n, st, ord, filled, v, q, shared, removes, ord(v, filled, removes));
    }
  }

  /** What the loop over the removals needs in order not to raise. */
  ghost predicate AllGoWell(n: nat, st: Store, c: Cache, v: Name, q: Parse, shared: bool, removes: set<Text>,
                            todo: seq<Text>) {
    && NoSpill(st) && removes == InForce(st, v, q) && (shared ==> removes <= SetOf(c, Chosen(st, v)))
    && forall r | r in todo :: Sub(n, st, true, None, r).Success?
  }

  lemma {:induction false} RemovesRight(n: nat, st: Store, ord: Order, c: Cache, v: Name, q: Parse, shared: bool,
                                        removes: set<Text>, todo: seq<Text>)
    requires Ready(st, ord, c) && VariantIs(st, v, q) && Holds(st, c, v, shared)
    ensures var a := ExpandRemoves(n, st, ord, c, if shared then Chosen(st, v) else None, removes, todo);
            && Right(st, a.cache) && Grows(c, a.cache)
            && (a.result.Success? ==> WordsOf(st, todo, a.result.value))
            && (AllGoWell(n, st, c, v, q, shared, removes, todo) ==> a.result.Success?)
    decreases n, 3, |todo|
  {
    if todo != [] {
      var held, rest, last := if shared then Chosen(st, v) else None, todo[..|todo| - 1], todo[|todo| - 1];
      var front := ExpandRemoves(n, st, ord, c, held, removes, rest);
      RemovesRight(n, st, ord, c, v, q, shared, removes, rest);
      if front.result.Success? {
        OneMoreRight(n, st, ord, c, front.cache, v, q, shared, removes, last, front.result.value, rest);
      }
      assert todo == rest + [last];
      if AllGoWell(n, st, c, v, q, shared, removes, todo) {
        GoWellFront(n, st, c, v, q, shared, removes, rest, last);
      }
      RemovesSnoc(n, st, ord, c, held, removes, rest, last);
    }
  }

  lemma GoWellFront(n: nat, st: Store, c: Cache, v: Name, q: Parse, shared: bool, removes: set<Text>, rest: seq<Text>,
                    last: Text)
    requires AllGoWell(n, st, c, v, q, shared, removes, rest + [last])
    ensures AllGoWell(n, st, c, v, q, shared, removes, rest)
  {
    assert forall r | r in rest :: r in rest + [last];
  }

  lemma RemovesSnoc(n: nat, st: Store, ord: Order, c: Cache, held: Option<Name>, removes: set<Text>, rest: seq<Text>,
                    last: Text)
    ensures var front := ExpandRemoves(n, st, ord, c, held, removes, rest);
            var x := Expanded(n, st, ord, front.cache, None, Some(last));
            ExpandRemoves(n, st, ord, c, held, removes, rest + [last])
            == if front.result.Failure? then front
               else if x.result.Failure? || Grown(x.cache, held, removes) then After(Failure, x.cache)
               else After(Success(front.result.value[last := Words(x.result.value.GetOr([]))]), x.cache)
  {
    assert (rest + [last])[..|rest|] == rest;
  }

  /** The words of the removals in `todo`. */
  ghost predicate WordsOf(st: Store, todo: seq<Text>, words: map<Text, set<Text>>) {
    WordsOk(st, words) && words.Keys == set r | r in todo
  }

  lemma {:induction false} OneMoreRight(n: nat, st: Store, ord: Order, c0: Cache, c: Cache, v: Name, q: Parse,
                                        shared: bool, removes: set<Text>, r: Text, words: map<Text, set<Text>>,
                                        rest: seq<Text>)
    requires Ready(st, ord, c) && VariantIs(st, v, q) && Holds(st, c0, v, shared) && Grows(c0, c)
    requires WordsOf(st, rest, words)
    ensures var x := Expanded(n, st, ord, c, None, Some(r));
            && Right(st, x.cache) && Grows(c0, x.cache)
            && (x.result.Success? ==> WordsOf(st, rest + [r], words[r := Words(x.result.value.GetOr([]))]))
            && (AllGoWell(n, st, c0, v, q, shared, removes, rest + [r]) ==>
                  x.result.Success? && !Grown(x.cache, if shared then Chosen(st, v) else None, removes))
    decreases n, 3, 0
  {
    ExpandedRight(n, st, ord, c, None, Some(r));
    ExpandedKeeps(n, st, ord, c, None, Some(r));
    var x := Expanded(n, st, ord, c, None, Some(r));
    assert forall y :: y in rest + [r] <==> y in rest || y == r;
    if AllGoWell(n, st, c0, v, q, shared, removes, rest + [r]) {
      assert Sub(n, st, true, None, r).Success?;
      NotGrown(st, x.cache, v, q, shared);
    }
  }

  lemma {:induction false} ExpandedRight(n: nat, st: Store, ord: Order, c: Cache, self: Option<Key>, raw: Option<Text>)
    requires Ready(st, ord, c) && (raw.Some? ==> NeverUnset(st, self))
    ensures var a := Expanded(n, st, ord, c, self, raw);
            && Right(st, a.cache)
            && (a.result.Success? ==> ExpandsTo(st, self, raw, a.result.value))
            && Succeeds(st, Evaluation.Expand(n, st, true, self, raw).Success?, a)
    decreases n, 2, 0
  {
    ExpandedKeeps(n, st, ord, c, self, raw);
    if RefsOf(raw) == {} {
      if raw.Some? {
        SubUnsetSucceeds(0, st, false, self, raw.value);
      }
    } else {
      SubstitutedRight(n, st, ord, c, self, raw.value);
      SubstitutedKeeps(n, st, ord, c, self, raw.value);
      var first := Substituted(n, st, ord, c, self, raw.value);
      if first.result.Success? && Some(first.result.value) != raw && Refs(first.result.value) != {} {
        SubstitutedRight(n, st, ord, first.cache, self, first.result.value);
        SecondPassKeeps(n, st, ord, c, self, raw.value);
        if Sub(n, st, true, self, raw.value).Success? {
          SecondPassSucceeds(n, st, self, raw.value, first.result.value);
        }
      }
    }
  }

  lemma {:induction false} SubSplit(n: nat, st: Store, strict: bool, self: Option<Key>, s: Text, a: Atom)
    requires Sub(n, st, strict, self, s + [a]).Success?
    ensures Sub(n, st, strict, self, s).Success? && SubAtom(n, st, strict, self, a).Success?
    decreases |s|
  {
    if s == [] {
      assert s + [a] == [a];
    } else {
      assert (s + [a])[1..] == s[1..] + [a];
      SubSplit(n, st, strict, self, s[1..], a);
    }
  }

  lemma {:induction false} SubstitutedRight(n: nat, st: Store, ord: Order, c: Cache, self: Option<Key>, s: Text)
    requires Ready(st, ord, c)
    ensures var a := Substituted(n, st, ord, c, self, s);
            && Right(st, a.cache)
            && (a.result.Success? ==> SubsTo(st, self, s, a.result.value))
            && Succeeds(st, Sub(n, st, true, self, s).Success?, a)
    decreases n, 1, |s|
  {
    if s == [] {
      assert Sub(0, st, false, self, []) == Success([]);
    } else {
      var front, last := s[..|s| - 1], s[|s| - 1];
      assert s == front + [last];
      if Sub(n, st, true, self, s).Success? {
        SubSplit(n, st, true, self, front, last);
      }
      SubstitutedRight(n, st, ord, c, self, front);
      var f := Substituted(n, st, ord, c, self, front);
      if f.result.Success? {
        VarSubRight(n, st, ord, f.cache, self, last);
        var x := VarSub(n, st, ord, f.cache, self, last);
        if x.result.Success? {
          SubsToSnoc(st, self, front, f.result.value, last, x.result.value);
        }
      }
    }
  }

  lemma {:induction false} VarSubRight(n: nat, st: Store, ord: Order, c: Cache, self: Option<Key>, a: Atom)
    requires Ready(st, ord, c)
    ensures var r := VarSub(n, st, ord, c, self, a);
            && Right(st, r.cache)
            && (r.result.Success? ==> exists m: nat :: SubAtom(m, st, false, self, a) == r.result)
            && Succeeds(st, SubAtom(n, st, true, self, a).Success?, r)
    decreases n, 0, 1
  {
    if a.Ch? {
      assert SubAtom(0, st, false, self, a) == Success([a]);
    } else if self != Some(Var(a.name)) {
      ReadRight(n, st, ord, c, true, Var(a.name));
      var r := Read(n, st, ord, c, true, Var(a.name));
      if r.result.Success? {
        assert EntryOk(st, Var(a.name), r.cache[Var(a.name)]);
        var q :| EvalsTo(st, Var(a.name), q) && Faithful(st, Var(a.name), r.result.value, q);
        var m: nat :| Eval(m, st, false, true, Var(a.name)) == Success(q);
        assert SubAtom(m, st, false, self, a) == Success(q.value.GetOr([a]));
      }
    }
  }
}
