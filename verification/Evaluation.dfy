/**
 Cache-free evaluation of variables on a flat store: what `getVarFlag` computes when
 nothing is memoised.  `n` is Python's remaining recursion depth; running out of it, or a
 direct self-reference, is an exception.
 */
module Evaluation {
  import opened Prelude
  import opened Text
  import opened Overrides
  import opened Datastore

  /** What is asked for: a variable's value or one of its flags; also the cache key. */
  datatype Key = Var(name: Name) | VarFlag(name: Name, flag: string)

  /** A `VariableParse`; `removes` is an attribute that may be missing. */
  datatype Parse = Parse(unexpanded: Option<Text>, value: Option<Text>, references: set<Name>,
                         removes: Option<set<Text>>)
  {
    function Carried(): set<Text> {
      removes.GetOr({})
    }
  }

  const NO_PARSE := Parse(None, None, {}, None)

  // ---- Assembling the unexpanded value ---------------------------------------------------

  /** The values of the items whose condition holds, in order. */
  function ActiveValues(items: seq<Item>, overrides: seq<string>): seq<Text> {
    if items == [] then []
    else
      var front := ActiveValues(items[..|items| - 1], overrides);
      var item := items[|items| - 1];
      if Active(item.cond, overrides) then front + [item.value] else front
  }

  function NewestFirst(vs: seq<Text>): seq<Text> {
    if vs == [] then [] else [vs[|vs| - 1]] + NewestFirst(vs[..|vs| - 1])
  }

  /** Prepends newest first, then the base, then appends oldest first. */
  function Assemble(base: Option<Text>, prepends: seq<Text>, appends: seq<Text>): Option<Text> {
    if base.None? && prepends == [] && appends == [] then None
    else Some(Join(NewestFirst(prepends)) + base.GetOr([]) + Join(appends))
  }

  lemma {:induction false} JoinSnoc(ts: seq<Text>, t: Text)
    ensures Join(ts + [t]) == Join(ts) + t
  {
    if ts == [] {
      assert [] + [t] == [t] && [t][1..] == [];
      assert Join([t]) == t + [] == t;
    } else {
      assert (ts + [t])[1..] == ts[1..] + [t];
      JoinSnoc(ts[1..], t);
      assert ts[0] + (Join(ts[1..]) + t) == ts[0] + Join(ts[1..]) + t;
    }
  }

  /** One more append goes to the right end, */
  lemma AppendStep(base: Option<Text>, prepends: seq<Text>, appends: seq<Text>, t: Text)
    ensures Assemble(base, prepends, appends + [t]) == Some(Assemble(base, prepends, appends).GetOr([]) + t)
  {
    JoinSnoc(appends, t);
    var left := Join(NewestFirst(prepends)) + base.GetOr([]);
    assert left + (Join(appends) + t) == left + Join(appends) + t;
    if base.None? && prepends == [] && appends == [] {
      assert [] + t == t && Join([]) == [] && Join(NewestFirst([])) == [];
    }
  }

  /** one more prepend to the left end. */
  lemma PrependStep(base: Option<Text>, prepends: seq<Text>, appends: seq<Text>, t: Text)
    ensures Assemble(base, prepends + [t], appends) == Some(t + Assemble(base, prepends, appends).GetOr([]))
  {
    var left := Join(NewestFirst(prepends)) + base.GetOr([]);
    assert (prepends + [t])[..|prepends|] == prepends;
    assert ([t] + NewestFirst(prepends))[1..] == NewestFirst(prepends);
    assert t + Join(NewestFirst(prepends)) + base.GetOr([]) + Join(appends) == t + (left + Join(appends));
    if base.None? && prepends == [] && appends == [] {
      assert t + [] == t && Join([]) == [] && Join(NewestFirst([])) == [];
    }
  }

  function Chosen(st: Store, v: Name): Option<Name> {
    if v in st.variants then Choose(st.variants[v], st.overrides) else None
  }

  function Base(st: Store, v: Name, variant: Option<Text>): Option<Text> {
    var e := st.EntryOf(v);
    if variant.Some? then variant else if e.content.Some? then e.content else e.defaultVal
  }

  /** The unexpanded value of `v`, given that of its chosen variant. */
  function Raw(st: Store, v: Name, variant: Option<Text>): Option<Text> {
    var e := st.EntryOf(v);
    Assemble(Base(st, v, variant),
             ActiveValues(e.ItemsOf(Prepend), st.overrides),
             ActiveValues(e.ItemsOf(Append), st.overrides))
  }

  function ActiveRemoves(st: Store, v: Name): set<Text> {
    set r | r in ActiveValues(st.EntryOf(v).ItemsOf(Remove), st.overrides)
  }

  // ---- Removal ---------------------------------------------------------------------------

  function AllWords(words: map<Text, set<Text>>): (ws: set<Text>) {
    set r, w | r in words && w in words[r] :: w
  }

  /** The removal items that removed something. */
  function Used(value: Text, words: map<Text, set<Text>>): set<Text> {
    set r | r in words && exists t | t in Tokens(value) :: t in words[r]
  }

  predicate Truthy(v: Option<Text>) {
    v.Some? && v.value != []
  }

  function RefsOf(v: Option<Text>): set<Name> {
    Refs(v.GetOr([]))
  }

  // ---- Evaluation ------------------------------------------------------------------------

  /** Every reference replaced by its value; references to unset variables stay. */
  function Sub(n: nat, st: Store, strict: bool, self: Option<Key>, s: Text): Result<Text>
    decreases n, 1, |s|
  {
    if s == [] then Success([])
    else
      var head :- SubAtom(n, st, strict, self, s[0]);
      var rest :- Sub(n, st, strict, self, s[1..]);
      Success(head + rest)
  }

  function SubAtom(n: nat, st: Store, strict: bool, self: Option<Key>, a: Atom): Result<Text>
    decreases n, 1, 0
  {
    match a
    case Ch(_) => Success([a])
    case Ref(name) =>
      if self == Some(Var(name)) then Failure
      else
        var p :- Eval(n, st, strict, true, Var(name));
        Success(p.value.GetOr([a]))
  }

  function Expand(n: nat, st: Store, strict: bool, self: Option<Key>, raw: Option<Text>): (r: Result<Option<Text>>)
    ensures r.Success? ==> (r.value.None? <==> raw.None?) && (raw == Some([]) ==> r.value == Some([]))
    decreases n, 2, 0
  {
    match raw
    case None => Success(None)
    case Some(s) => var e :- Sub(n, st, strict, self, s); Success(Some(e))
  }

  function RemoveMap(n: nat, st: Store, strict: bool, removes: set<Text>): (r: Result<map<Text, set<Text>>>)
    ensures r.Success? ==> r.value.Keys == removes
    decreases n, 2, 0
  {
    if forall r | r in removes :: Sub(n, st, strict, None, r).Success? then
      Success(map r | r in removes :: Words(Sub(n, st, strict, None, r).value))
    else Failure
  }

  function Finish(n: nat, st: Store, strict: bool, expand: bool, raw: Option<Text>, e: Option<Text>, removes: set<Text>)
    : (r: Result<Parse>)
    requires e.None? <==> raw.None?
    decreases n, 3, 0
  {
    var references := RefsOf(raw) + RefsOf(e);
    if removes == {} || !Truthy(if expand then e else raw) then Success(Parse(raw, e, references, None))
    else
      var words :- RemoveMap(n, st, strict, removes);
      Success(Parse(raw, Some(RemoveWords(e.value, AllWords(words))), references, Some(Used(e.value, words))))
  }

  /**
   `expand` only decides which text the emptiness test before word removal looks at.  The code
   reads a variant with `expand=False` (`strict`); reading it expanded instead, as a read of the
   variant by its own name does, can only raise less often (`StrictIsLenient`).
   */
  function Eval(n: nat, st: Store, strict: bool, expand: bool, k: Key): (r: Result<Parse>)
    decreases n, 0, 0
  {
    if n == 0 then Failure
    else
      match k
      case VarFlag(v, f) => EvalFlag(n - 1, st, strict, v, f)
      case Var(v) => EvalVar(n - 1, st, strict, expand, v)
  }

  function EvalFlag(n: nat, st: Store, strict: bool, v: Name, f: string): Result<Parse>
    decreases n, 4, 0
  {
    var raw := RawFlag(st, v, f);
    var e :- Expand(n, st, strict, Some(VarFlag(v, f)), raw);
    Success(Parse(raw, e, RefsOf(raw) + RefsOf(e), None))
  }

  function RawFlag(st: Store, v: Name, f: string): Option<Text> {
    var flags := st.EntryOf(v).flags;
    if f in flags then Some(flags[f]) else None
  }

  function EvalVar(n: nat, st: Store, strict: bool, expand: bool, v: Name): Result<Parse>
    decreases n, 4, 0
  {
    var variant :- EvalVariant(n, st, strict, v);
    var raw := Raw(st, v, variant.unexpanded);
    var e :- Expand(n, st, strict, Some(Var(v)), raw);
    Finish(n, st, strict, expand, raw, e, variant.Carried() + ActiveRemoves(st, v))
  }

  function EvalVariant(n: nat, st: Store, strict: bool, v: Name): Result<Parse>
    decreases n, 1, 0
  {
    match Chosen(st, v)
    case None => Success(NO_PARSE)
    case Some(m) => Eval(n, st, strict, !strict, Var(m))
  }

  /** Some recursion depth suffices for `k` to evaluate to `p`. */
  ghost predicate EvalsTo(st: Store, k: Key, p: Parse) {
    exists n: nat :: Eval(n, st, false, true, k) == Success(p)
  }

  // ---- The recursion depth does not matter -----------------------------------------------

  lemma {:induction false} SubMono(n: nat, st: Store, strict: bool, self: Option<Key>, s: Text)
    requires Sub(n, st, strict, self, s).Success?
    ensures Sub(n + 1, st, strict, self, s) == Sub(n, st, strict, self, s)
    decreases n, 1, |s|
  {
    if s != [] {
      if s[0].Ref? {
        EvalMono(n, st, strict, true, Var(s[0].name));
      }
      SubMono(n, st, strict, self, s[1..]);
    }
  }

  lemma {:induction false} ExpandMono(n: nat, st: Store, strict: bool, self: Option<Key>, raw: Option<Text>)
    requires Expand(n, st, strict, self, raw).Success?
    ensures Expand(n + 1, st, strict, self, raw) == Expand(n, st, strict, self, raw)
    decreases n, 2, 0
  {
    if raw.Some? {
      SubMono(n, st, strict, self, raw.value);
    }
  }

  lemma {:induction false} EvalMono(n: nat, st: Store, strict: bool, expand: bool, k: Key)
    requires Eval(n, st, strict, expand, k).Success?
    ensures Eval(n + 1, st, strict, expand, k) == Eval(n, st, strict, expand, k)
    decreases n, 0, 0
  {
    match k
    case VarFlag(v, f) => ExpandMono(n - 1, st, strict, Some(k), RawFlag(st, v, f));
    case Var(v) => EvalVarMono(n - 1, st, strict, expand, v);
  }

  lemma {:induction false} EvalVarMono(n: nat, st: Store, strict: bool, expand: bool, v: Name)
    requires EvalVar(n, st, strict, expand, v).Success?
    ensures EvalVar(n + 1, st, strict, expand, v) == EvalVar(n, st, strict, expand, v)
    decreases n, 4, 0
  {
    var c := Chosen(st, v);
    if c.Some? {
      EvalMono(n, st, strict, !strict, Var(c.value));
    }
    var variant := EvalVariant(n, st, strict, v).value;
    var raw := Raw(st, v, variant.unexpanded);
    ExpandMono(n, st, strict, Some(Var(v)), raw);
    var e := Expand(n, st, strict, Some(Var(v)), raw).value;
    FinishMono(n, st, strict, expand, raw, e, variant.Carried() + ActiveRemoves(st, v));
  }

  lemma {:induction false} FinishMono(n: nat, st: Store, strict: bool, expand: bool, raw: Option<Text>, e: Option<Text>,
                                      removes: set<Text>)
    requires (e.None? <==> raw.None?) && Finish(n, st, strict, expand, raw, e, removes).Success?
    ensures Finish(n + 1, st, strict, expand, raw, e, removes) == Finish(n, st, strict, expand, raw, e, removes)
    decreases n, 3, 0
  {
    if removes != {} && Truthy(if expand then e else raw) {
      RemoveMapMono(n, st, strict, removes);
    }
  }

  lemma {:induction false} RemoveMapMono(n: nat, st: Store, strict: bool, removes: set<Text>)
    requires RemoveMap(n, st, strict, removes).Success?
    ensures RemoveMap(n + 1, st, strict, removes) == RemoveMap(n, st, strict, removes)
    decreases n, 2, 0
  {
    forall r | r in removes ensures Sub(n + 1, st, strict, None, r) == Sub(n, st, strict, None, r) {
      SubMono(n, st, strict, None, r);
    }
    assert RemoveMap(n + 1, st, strict, removes).value == RemoveMap(n, st, strict, removes).value;
  }

  lemma {:induction false} EvalMonoBy(n: nat, m: nat, st: Store, strict: bool, expand: bool, k: Key)
    requires n <= m && Eval(n, st, strict, expand, k).Success?
    ensures Eval(m, st, strict, expand, k) == Eval(n, st, strict, expand, k)
    decreases m - n
  {
    if n < m {
      EvalMono(n, st, strict, expand, k);
      EvalMonoBy(n + 1, m, st, strict, expand, k);
    }
  }

  lemma {:induction false} SubMonoBy(n: nat, m: nat, st: Store, strict: bool, self: Option<Key>, s: Text)
    requires n <= m && Sub(n, st, strict, self, s).Success?
    ensures Sub(m, st, strict, self, s) == Sub(n, st, strict, self, s)
    decreases m - n
  {
    if n < m {
      SubMono(n, st, strict, self, s);
      SubMonoBy(n + 1, m, st, strict, self, s);
    }
  }

  lemma EvalUnique(st: Store, k: Key, p: Parse, q: Parse)
    requires EvalsTo(st, k, p) && EvalsTo(st, k, q)
    ensures p == q
  {
    var n: nat :| Eval(n, st, false, true, k) == Success(p);
    var m: nat :| Eval(m, st, false, true, k) == Success(q);
    if n < m {
      EvalMonoBy(n, m, st, false, true, k);
    } else {
      EvalMonoBy(m, n, st, false, true, k);
    }
  }

  /** The stages a successful evaluation went through. */
  lemma EvalVarStages(n: nat, st: Store, strict: bool, expand: bool, v: Name)
    returns (variant: Parse, raw: Option<Text>, e: Option<Text>, removes: set<Text>)
    requires EvalVar(n, st, strict, expand, v).Success?
    ensures EvalVariant(n, st, strict, v) == Success(variant)
    ensures raw == Raw(st, v, variant.unexpanded)
    ensures Expand(n, st, strict, Some(Var(v)), raw) == Success(e)
    ensures removes == variant.Carried() + ActiveRemoves(st, v)
    ensures EvalVar(n, st, strict, expand, v) == Finish(n, st, strict, expand, raw, e, removes)
  {
    variant := EvalVariant(n, st, strict, v).value;
    raw := Raw(st, v, variant.unexpanded);
    e := Expand(n, st, strict, Some(Var(v)), raw).value;
    removes := variant.Carried() + ActiveRemoves(st, v);
  }

  // ---- Strict and lenient evaluation agree -----------------------------------------------

  /** Equal, a missing `removes` counting as an empty one. */
  predicate Same(p: Parse, q: Parse) {
    p.(removes := None) == q.(removes := None) && p.Carried() == q.Carried()
  }

  lemma RemoveFromNothing(words: map<Text, set<Text>>)
    requires forall r | r in words :: forall w | w in words[r] :: IsWord(w)
    ensures RemoveWords([], AllWords(words)) == [] && Used([], words) == {}
  {
    assert Tokens([]) == [[]];
    assert forall r | r in words :: [] !in words[r];
    assert Keep([[]], AllWords(words)) == [[]] + Keep([], AllWords(words));
    assert Join([[]]) == [] + Join([]);
  }

  lemma WordsOfRemovals(n: nat, st: Store, strict: bool, removes: set<Text>)
    requires RemoveMap(n, st, strict, removes).Success?
    ensures forall w | w in AllWords(RemoveMap(n, st, strict, removes).value) :: IsWord(w)
    ensures forall w :: w in AllWords(RemoveMap(n, st, strict, removes).value) <==>
              exists r | r in removes :: w in Words(Sub(n, st, strict, None, r).value)
  {
    var words := RemoveMap(n, st, strict, removes).value;
    forall w | w in AllWords(words) ensures IsWord(w) && exists r | r in removes ::
        w in Words(Sub(n, st, strict, None, r).value) {
      var r :| r in words && w in words[r];
      assert words[r] == Words(Sub(n, st, strict, None, r).value);
    }
    forall w, r | r in removes && w in Words(Sub(n, st, strict, None, r).value) ensures w in AllWords(words) {
      assert w in words[r];
    }
  }

  /** `w` is a word of the expansion of some removal in force for `v`. */
  ghost predicate Removed(n: nat, st: Store, strict: bool, v: Name, variant: Parse, w: Text) {
    exists r | r in variant.Carried() + ActiveRemoves(st, v) ::
        Sub(n, st, strict, None, r).Success? && w in Words(Sub(n, st, strict, None, r).value)
  }

  /**
   What a read returns, token by token: the active prepends newest first, the base and the active appends
   oldest first, expanded; and in that, exactly the words of the removals in force blanked.
   */
  lemma ReadExact(n: nat, st: Store, strict: bool, v: Name) returns (variant: Parse, e: Text)
    requires EvalVar(n, st, strict, true, v).Success? && EvalVar(n, st, strict, true, v).value.value.Some?
    ensures EvalVariant(n, st, strict, v) == Success(variant)
    ensures var p := EvalVar(n, st, strict, true, v).value;
            var prepends := ActiveValues(st.EntryOf(v).ItemsOf(Prepend), st.overrides);
            var appends := ActiveValues(st.EntryOf(v).ItemsOf(Append), st.overrides);
            && p.unexpanded == Some(Join(NewestFirst(prepends)) + Base(st, v, variant.unexpanded).GetOr([])
               + Join(appends))
            && Sub(n, st, strict, Some(Var(v)), p.unexpanded.value) == Success(e)
            && |Tokens(p.value.value)| == |Tokens(e)|
            && forall i | 0 <= i < |Tokens(e)| ::
                 Tokens(p.value.value)[i] == if Removed(n, st, strict, v, variant, Tokens(e)[i]) then []
                     else Tokens(e)[i]
  {
    var raw, ex, removes;
    variant, raw, ex, removes := EvalVarStages(n, st, strict, true, v);
    FinishShape(n, st, strict, true, raw, ex, removes);
    e := ex.value;
    if removes == {} || e == [] {
      NothingRemoved(n, st, strict, v, variant, e);
    } else {
      var words := AllWords(RemoveMap(n, st, strict, removes).value);
      WordsOfRemovals(n, st, strict, removes);
      RemoveWordsBlanks(e, words);
      assert forall r | r in removes :: Sub(n, st, strict, None, r).Success?;
      assert forall w :: w in words <==> Removed(n, st, strict, v, variant, w);
    }
  }

  lemma NothingRemoved(n: nat, st: Store, strict: bool, v: Name, variant: Parse, e: Text)
    requires variant.Carried() + ActiveRemoves(st, v) == {} || e == []
    ensures forall i | 0 <= i < |Tokens(e)| :: Removed(n, st, strict, v, variant, Tokens(e)[i]) ==> Tokens(e)[i] == []
  {
    if e == [] {
      assert Tokens(e) == [[]];
    }
  }

  lemma {:induction false} SubLenient(n: nat, st: Store, self: Option<Key>, s: Text)
    requires Sub(n, st, true, self, s).Success?
    ensures Sub(n, st, false, self, s) == Sub(n, st, true, self, s)
    decreases n, 1, |s|
  {
    if s != [] {
      if s[0].Ref? {
        StrictIsLenient(n, st, true, Var(s[0].name));
      }
      SubLenient(n, st, self, s[1..]);
    }
  }

  lemma {:induction false} ExpandLenient(n: nat, st: Store, self: Option<Key>, raw: Option<Text>)
    requires Expand(n, st, true, self, raw).Success?
    ensures Expand(n, st, false, self, raw) == Expand(n, st, true, self, raw)
    decreases n, 2, 0
  {
    if raw.Some? {
      SubLenient(n, st, self, raw.value);
    }
  }

  lemma {:induction false} RemoveMapLenient(n: nat, st: Store, removes: set<Text>)
    requires RemoveMap(n, st, true, removes).Success?
    ensures RemoveMap(n, st, false, removes) == RemoveMap(n, st, true, removes)
    decreases n, 2, 0
  {
    forall r | r in removes ensures Sub(n, st, false, None, r) == Sub(n, st, true, None, r) {
      SubLenient(n, st, None, r);
    }
    assert RemoveMap(n, st, false, removes).value == RemoveMap(n, st, true, removes).value;
  }

  lemma {:induction false} FinishLenient(n: nat, st: Store, expand: bool, raw: Option<Text>, e: Option<Text>,
                                         removes: set<Text>)
    requires (e.None? <==> raw.None?) && (raw == Some([]) ==> e == Some([]))
    requires Finish(n, st, true, expand, raw, e, removes).Success?
    ensures Finish(n, st, false, true, raw, e, removes).Success?
    ensures Same(Finish(n, st, true, expand, raw, e, removes).value, Finish(n, st, false, true, raw, e, removes).value)
    decreases n, 3, 0
  {
    if removes != {} && Truthy(if expand then e else raw) {
      var words := RemoveMap(n, st, true, removes);
      assert words.Success?;
      RemoveMapLenient(n, st, removes);
      if !Truthy(e) {
        RemoveFromNothing(words.value);
      }
    }
  }

  /** When the code's own cache-free evaluation succeeds, in either mode, it is the lenient one. */
  lemma {:induction false} StrictIsLenient(n: nat, st: Store, expand: bool, k: Key)
    requires Eval(n, st, true, expand, k).Success?
    ensures Eval(n, st, false, true, k).Success?
    ensures Same(Eval(n, st, true, expand, k).value, Eval(n, st, false, true, k).value)
    decreases n, 0, 0
  {
    match k
    case VarFlag(v, f) =>
      ExpandLenient(n - 1, st, Some(k), RawFlag(st, v, f));
    case Var(v) => EvalVarLenient(n - 1, st, expand, v);
  }

  lemma {:induction false} EvalVarLenient(n: nat, st: Store, expand: bool, v: Name)
    requires EvalVar(n, st, true, expand, v).Success?
    ensures EvalVar(n, st, false, true, v).Success?
    ensures Same(EvalVar(n, st, true, expand, v).value, EvalVar(n, st, false, true, v).value)
    decreases n, 4, 0
  {
    var variant, raw, e, removes := EvalVarStages(n, st, true, expand, v);
    var c := Chosen(st, v);
    if c.Some? {
      StrictIsLenient(n, st, false, Var(c.value));
    }
    ExpandLenient(n, st, Some(Var(v)), raw);
    FinishLenient(n, st, expand, raw, e, removes);
    assert EvalVar(n, st, false, true, v) == Finish(n, st, false, true, raw, e, removes);
  }

  // ---- Expansion stops at unset variables -------------------------------------------------

  /** The unexpanded text is kept; the value is its expansion with words removed, if anything. */
  lemma FinishShape(n: nat, st: Store, strict: bool, expand: bool, raw: Option<Text>, e: Option<Text>,
                    removes: set<Text>)
    requires (e.None? <==> raw.None?) && Finish(n, st, strict, expand, raw, e, removes).Success?
    ensures var p := Finish(n, st, strict, expand, raw, e, removes).value;
            && p.unexpanded == raw && (p.value.None? <==> raw.None?)
            && RefsOf(p.value) <= RefsOf(e) && p.Carried() <= removes
  {
    if removes != {} && Truthy(if expand then e else raw) {
      var words := RemoveMap(n, st, strict, removes);
      assert words.Success?;
      RemoveWordsRefs(e.value, AllWords(words.value));
    }
  }

  lemma EvalShape(n: nat, st: Store, strict: bool, expand: bool, k: Key) returns (e: Option<Text>)
    requires Eval(n, st, strict, expand, k).Success?
    ensures var p := Eval(n, st, strict, expand, k).value;
            && (p.value.None? <==> p.unexpanded.None?)
            && Expand(n - 1, st, strict, Some(k), p.unexpanded) == Success(e)
            && RefsOf(p.value) <= RefsOf(e)
  {
    match k
    case VarFlag(v, f) => e := Expand(n - 1, st, strict, Some(k), RawFlag(st, v, f)).value;
    case Var(v) =>
      var variant, raw, e', removes := EvalVarStages(n - 1, st, strict, expand, v);
      FinishShape(n - 1, st, strict, expand, raw, e', removes);
      e := e';
  }

  ghost predicate Unset(st: Store, u: Name) {
    exists p :: EvalsTo(st, Var(u), p) && p.value.None?
  }

  /** Evaluates to nothing within `n` levels. */
  predicate UnsetWithin(n: nat, st: Store, strict: bool, u: Name) {
    var r := Eval(n, st, strict, true, Var(u));
    r.Success? && r.value.value.None?
  }

  lemma {:induction false} SubLeftover(n: nat, st: Store, strict: bool, self: Option<Key>, s: Text)
    requires Sub(n, st, strict, self, s).Success?
    ensures forall u | u in Refs(Sub(n, st, strict, self, s).value) :: UnsetWithin(n, st, strict, u)
    decreases n, 1, |s|
  {
    if s != [] {
      SubLeftover(n, st, strict, self, s[1..]);
      var head := SubAtom(n, st, strict, self, s[0]).value;
      if s[0].Ref? {
        EvalLeftover(n, st, strict, true, Var(s[0].name));
      }
      var rest := Sub(n, st, strict, self, s[1..]).value;
      assert Refs(head + rest) == Refs(head) + Refs(rest);
    }
  }

  lemma {:induction false} ExpandLeftover(n: nat, st: Store, strict: bool, self: Option<Key>, raw: Option<Text>)
    requires Expand(n, st, strict, self, raw).Success?
    ensures forall u | u in RefsOf(Expand(n, st, strict, self, raw).value) :: UnsetWithin(n, st, strict, u)
    decreases n, 2, 0
  {
    if raw.Some? {
      SubLeftover(n, st, strict, self, raw.value);
    }
  }

  /** Every reference left in an evaluated value names an unset variable: expanding again changes nothing. */
  lemma {:induction false} EvalLeftover(n: nat, st: Store, strict: bool, expand: bool, k: Key)
    requires Eval(n, st, strict, expand, k).Success?
    ensures forall u | u in RefsOf(Eval(n, st, strict, expand, k).value.value) :: UnsetWithin(n, st, strict, u)
    decreases n, 0, 0
  {
    var e := EvalShape(n, st, strict, expand, k);
    ExpandLeftover(n - 1, st, strict, Some(k), Eval(n, st, strict, expand, k).value.unexpanded);
    forall u | u in RefsOf(e) ensures UnsetWithin(n, st, strict, u) {
      EvalMono(n - 1, st, strict, true, Var(u));
    }
  }

  // ---- Acyclic stores always evaluate ----------------------------------------------------

  /** The names a text refers to all rank below `bound`. */
  predicate RefsBelow(s: Text, rank: Name -> nat, bound: nat) {
    forall a | a in s && a.Ref? :: rank(a.name) < bound
  }

  predicate ItemsBelow(items: seq<Item>, rank: Name -> nat, bound: nat) {
    forall i | i in items :: RefsBelow(i.value, rank, bound)
  }

  /** Every text a variable may contribute refers to lower-ranked names, and so do its variants. */
  ghost predicate Acyclic(st: Store, rank: Name -> nat) {
    && (forall v | v in st.vars ::
          var e := st.vars[v];
          && (e.content.Some? ==> RefsBelow(e.content.value, rank, rank(v)))
          && (e.defaultVal.Some? ==> RefsBelow(e.defaultVal.value, rank, rank(v)))
          && forall kw | kw in e.items :: ItemsBelow(e.items[kw], rank, rank(v)))
    && (forall v | v in st.variants :: forall x | x in st.variants[v] :: x.suffix != [] && rank(x.name) < rank(v))
  }

  lemma {:induction false} ActiveValuesFrom(items: seq<Item>, overrides: seq<string>)
    ensures forall t | t in ActiveValues(items, overrides) :: exists i | i in items :: i.value == t
  {
    if items != [] {
      ActiveValuesFrom(items[..|items| - 1], overrides);
      assert items == items[..|items| - 1] + [items[|items| - 1]];
    }
  }

  lemma {:induction false} JoinRefs(ts: seq<Text>, rank: Name -> nat, bound: nat)
    requires forall t | t in ts :: RefsBelow(t, rank, bound)
    ensures RefsBelow(Join(ts), rank, bound)
  {
    if ts != [] {
      assert RefsBelow(ts[0], rank, bound);
      JoinRefs(ts[1..], rank, bound);
      var rest := Join(ts[1..]);
      assert forall a | a in ts[0] + rest :: a in ts[0] || a in rest;
    }
  }

  lemma {:induction false} NewestFirstSame(vs: seq<Text>)
    ensures forall t :: t in NewestFirst(vs) <==> t in vs
  {
    if vs != [] {
      NewestFirstSame(vs[..|vs| - 1]);
      assert vs == vs[..|vs| - 1] + [vs[|vs| - 1]];
    }
  }

  lemma RawBelow(st: Store, rank: Name -> nat, v: Name, variant: Option<Text>)
    requires Acyclic(st, rank)
    requires variant.Some? ==> RefsBelow(variant.value, rank, rank(v))
    ensures var raw := Raw(st, v, variant); raw.Some? ==> RefsBelow(raw.value, rank, rank(v))
    ensures forall r | r in ActiveRemoves(st, v) :: RefsBelow(r, rank, rank(v))
  {
    var e := st.EntryOf(v);
    forall kw ensures forall t | t in ActiveValues(e.ItemsOf(kw), st.overrides) :: RefsBelow(t, rank, rank(v)) {
      ActiveValuesFrom(e.ItemsOf(kw), st.overrides);
    }
    var pre, app := ActiveValues(e.ItemsOf(Prepend), st.overrides), ActiveValues(e.ItemsOf(Append), st.overrides);
    NewestFirstSame(pre);
    JoinRefs(NewestFirst(pre), rank, rank(v));
    JoinRefs(app, rank, rank(v));
    var base := Base(st, v, variant).GetOr([]);
    assert RefsBelow(base, rank, rank(v));
  }

  lemma {:induction false} SubSucceeds(n: nat, st: Store, strict: bool, rank: Name -> nat, self: Option<Key>, s: Text)
    requires Acyclic(st, rank) && RefsBelow(s, rank, n)
    requires self.Some? && self.value.Var? ==> RefsBelow(s, rank, rank(self.value.name))
    ensures Sub(n, st, strict, self, s).Success?
    decreases n, 1, |s|
  {
    if s != [] {
      if s[0].Ref? {
        EvalSucceeds(n, st, strict, rank, true, s[0].name);
      }
      SubSucceeds(n, st, strict, rank, self, s[1..]);
    }
  }

  lemma FinishSucceeds(n: nat, st: Store, strict: bool, expand: bool, raw: Option<Text>, e: Option<Text>,
                       removes: set<Text>)
    requires (e.None? <==> raw.None?) && forall r | r in removes :: Sub(n, st, strict, None, r).Success?
    ensures Finish(n, st, strict, expand, raw, e, removes).Success?
  {
    assert RemoveMap(n, st, strict, removes).Success?;
  }

  /** On an acyclic reference graph a depth above the variable's rank suffices. */
  lemma {:induction false} EvalSucceeds(n: nat, st: Store, strict: bool, rank: Name -> nat, expand: bool, v: Name)
    requires Acyclic(st, rank) && rank(v) < n
    ensures Eval(n, st, strict, expand, Var(v)).Success?
    ensures TextsBelow(Eval(n, st, strict, expand, Var(v)).value, rank, rank(v))
    decreases n, 0, 0
  {
    var c := Chosen(st, v);
    if c.Some? {
      ChooseExact(st.variants[v], st.overrides);
      EvalSucceeds(n - 1, st, strict, rank, !strict, c.value);
    }
    EvalVarSucceeds(n - 1, st, strict, rank, expand, v, EvalVariant(n - 1, st, strict, v).value);
  }

  /** The texts a parse hands on to its reader. */
  predicate TextsBelow(p: Parse, rank: Name -> nat, bound: nat) {
    && (p.unexpanded.Some? ==> RefsBelow(p.unexpanded.value, rank, bound))
    && forall r | r in p.Carried() :: RefsBelow(r, rank, bound)
  }

  lemma {:induction false} EvalVarSucceeds(n: nat, st: Store, strict: bool, rank: Name -> nat, expand: bool, v: Name,
                                           variant: Parse)
    requires Acyclic(st, rank) && rank(v) <= n
    requires EvalVariant(n, st, strict, v) == Success(variant) && TextsBelow(variant, rank, rank(v))
    ensures EvalVar(n, st, strict, expand, v).Success?
    ensures TextsBelow(EvalVar(n, st, strict, expand, v).value, rank, rank(v))
    decreases n, 4, 0
  {
    var raw := Raw(st, v, variant.unexpanded);
    RawBelow(st, rank, v, variant.unexpanded);
    if raw.Some? {
      SubSucceeds(n, st, strict, rank, Some(Var(v)), raw.value);
    }
    var removes := variant.Carried() + ActiveRemoves(st, v);
    forall r | r in removes ensures RefsBelow(r, rank, rank(v)) && Sub(n, st, strict, None, r).Success? {
      SubSucceeds(n, st, strict, rank, None, r);
    }
    var e := Expand(n, st, strict, Some(Var(v)), raw).value;
    FinishSucceeds(n, st, strict, expand, raw, e, removes);
    FinishShape(n, st, strict, expand, raw, e, removes);
  }

  /** A flag's text needs one level more than the highest variable it refers to. */
  lemma FlagSucceeds(n: nat, st: Store, strict: bool, rank: Name -> nat, v: Name, f: string)
    requires Acyclic(st, rank) && n > 0
    requires RawFlag(st, v, f).Some? ==> RefsBelow(RawFlag(st, v, f).value, rank, n - 1)
    ensures Eval(n, st, strict, true, VarFlag(v, f)).Success?
  {
    if RawFlag(st, v, f).Some? {
      SubSucceeds(n - 1, st, strict, rank, Some(VarFlag(v, f)), RawFlag(st, v, f).value);
    }
    assert Expand(n - 1, st, strict, Some(VarFlag(v, f)), RawFlag(st, v, f)).Success?;
    assert EvalFlag(n - 1, st, strict, v, f).Success?;
  }
}
