/**
 The memo can hide an exception.  Reading a variant unexpanded can raise where its cached parse answers: when exactly,
 and on which stores.
 */
module CacheLimits {
  import opened Prelude
  import opened Text
  import opened Overrides
  import opened Datastore
  import opened Evaluation
  import opened Coherence
  import opened ReadsRight
  import Memo
  import SmartData

  // ---- When an unexpanded read raises where an expanded one does not ------------------------------

  /** Some removal in force for `v` does not expand within depth `n`. */
  ghost predicate RemovalStuck(n: nat, st: Store, v: Name, variant: Parse) {
    exists r | r in variant.Carried() + ActiveRemoves(st, v) :: Sub(n, st, true, None, r).Failure?
  }

  /** What a read of `v` has before removals: text that is not empty, but expands to nothing. */
  ghost predicate Vanishes(n: nat, st: Store, v: Name, variant: Parse) {
    var raw := Raw(st, v, variant.unexpanded);
    Truthy(raw) && Expand(n, st, true, Some(Var(v)), raw) == Success(Some([]))
  }

  /**
   If the expanded read of a variable succeeds, its unexpanded read raises exactly if the text is not
   empty, expands to the empty text, and some removal in force does not expand.
   */
  lemma UnexpandedRaisesExactly(n: nat, st: Store, v: Name)
    requires EvalVar(n, st, true, true, v).Success?
    ensures EvalVariant(n, st, true, v).Success?
    ensures var variant := EvalVariant(n, st, true, v).value;
            EvalVar(n, st, true, false, v).Failure? <==> Vanishes(n, st, v, variant) && RemovalStuck(n, st, v, variant)
  {
    var variant, raw, e, removes := EvalVarStages(n, st, true, true, v);
    assert EvalVar(n, st, true, false, v) == Finish(n, st, true, false, raw, e, removes);
    if RemoveMap(n, st, true, removes).Failure? {
      assert RemovalStuck(n, st, v, variant);
    } else {
      assert forall r | r in removes :: Sub(n, st, true, None, r).Success?;
    }
  }

  // ---- The stores on which fresh and cached reads succeed alike -----------------------------------

  ghost predicate ExpandsStrictly(st: Store, r: Text) {
    exists n: nat :: Sub(n, st, true, None, r).Success?
  }

  /** `q` is what the variant of `m` is, `m` has text that vanishes, and the removal `r` never expands. */
  ghost predicate BrittleBy(st: Store, m: Name, q: Parse, r: Text) {
    && VariantIs(st, m, q) && Truthy(Raw(st, m, q.unexpanded))
    && ExpandsTo(st, Some(Var(m)), Raw(st, m, q.unexpanded), Some([]))
    && r in q.Carried() + ActiveRemoves(st, m) && !ExpandsStrictly(st, r)
  }

  ghost predicate Brittle(st: Store, m: Name) {
    exists q, r :: BrittleBy(st, m, q, r)
  }

  /** No variable with a value takes it from a brittle variant. */
  ghost predicate Steady(st: Store) {
    forall v, p | EvalsTo(st, Var(v), p) && Chosen(st, v).Some? :: !Brittle(st, Chosen(st, v).value)
  }

  ghost predicate ReadsStrictly(st: Store, k: Key) {
    exists n: nat :: Eval(n, st, true, true, k).Success?
  }

  /** Whatever has a value at all also has it when variants are read the way the code reads them afresh. */
  ghost predicate FreshReadsSucceed(st: Store) {
    forall k, p | EvalsTo(st, k, p) :: ReadsStrictly(st, k)
  }

  /** An unexpanded read with success has expanded every removal in force, if there is any text. */
  lemma ReadExpands(n: nat, st: Store, m: Name, q: Parse, r: Text)
    requires EvalVar(n, st, true, false, m).Success? && VariantIs(st, m, q)
    requires Truthy(Raw(st, m, q.unexpanded)) && r in q.Carried() + ActiveRemoves(st, m)
    ensures ExpandsStrictly(st, r)
  {
    var variant, raw, e, removes := EvalVarStages(n, st, true, false, m);
    StrictVariant(n, st, m, q);
    assert Sub(n, st, true, None, r).Success?;
  }

  /** So a variant that can be read unexpanded is not brittle. */
  lemma ReadMeansNotBrittle(n: nat, st: Store, m: Name)
    requires EvalVar(n, st, true, false, m).Success?
    ensures !Brittle(st, m)
  {
    forall q, r ensures !BrittleBy(st, m, q, r) {
      if VariantIs(st, m, q) && Truthy(Raw(st, m, q.unexpanded)) && r in q.Carried() + ActiveRemoves(st, m) {
        ReadExpands(n, st, m, q, r);
      }
    }
  }

  lemma {:induction false} StrictDepth(st: Store, removes: set<Text>, n: nat) returns (m: nat)
    requires forall r | r in removes :: ExpandsStrictly(st, r)
    ensures m >= n && forall r | r in removes :: Sub(m, st, true, None, r).Success?
  {
    m := n;
    var todo := removes;
    while todo != {}
      invariant m >= n && todo <= removes
      invariant forall r | r in removes - todo :: Sub(m, st, true, None, r).Success?
      decreases todo
    {
      var r :| r in todo;
      var k: nat :| Sub(k, st, true, None, r).Success?;
      var m' := if k > m then k else m;
      forall x | x in removes - (todo - {r}) ensures Sub(m', st, true, None, x).Success? {
        if x == r {
          SubMonoBy(k, m', st, true, None, x);
        } else {
          SubMonoBy(m, m', st, true, None, x);
        }
      }
      m := m';
      todo := todo - {r};
    }
  }

  /** A variant that is not brittle and can be read expanded can be read unexpanded, if deep enough. */
  lemma SteadyVariant(st: Store, m: Name, n: nat) returns (d: nat)
    requires EvalVar(n, st, true, true, m).Success? && !Brittle(st, m)
    ensures d >= n && EvalVar(d, st, true, false, m).Success?
  {
    d := n;
    UnexpandedRaisesExactly(n, st, m);
    var variant := EvalVariant(n, st, true, m).value;
    if Vanishes(n, st, m, variant) {
      VanishingRemovals(n, st, m, variant);
      d := StrictDepth(st, variant.Carried() + ActiveRemoves(st, m), n);
      ReadDeeper(n, d, st, m);
      UnexpandedRaisesExactly(d, st, m);
    }
  }

  lemma VanishingRemovals(n: nat, st: Store, m: Name, variant: Parse)
    requires EvalVariant(n, st, true, m) == Success(variant) && !Brittle(st, m) && Vanishes(n, st, m, variant)
    ensures forall r | r in variant.Carried() + ActiveRemoves(st, m) :: ExpandsStrictly(st, r)
  {
    var q := StrictHasLenient(n, st, m);
    VanishingExpands(n, st, m, variant, q);
    forall r | r in variant.Carried() + ActiveRemoves(st, m) ensures ExpandsStrictly(st, r) {
      assert !BrittleBy(st, m, q, r);
    }
  }

  lemma ReadDeeper(n: nat, d: nat, st: Store, m: Name)
    requires n <= d && EvalVar(n, st, true, true, m).Success?
    ensures EvalVar(d, st, true, true, m).Success? && EvalVariant(n, st, true, m).Success?
    ensures EvalVariant(d, st, true, m) == EvalVariant(n, st, true, m)
  {
    EvalMonoBy(n + 1, d + 1, st, true, true, Var(m));
    assert Eval(n + 1, st, true, true, Var(m)) == EvalVar(n, st, true, true, m);
    assert Eval(d + 1, st, true, true, Var(m)) == EvalVar(d, st, true, true, m);
    VariantMono(n, d, st, m);
  }

  /** The lenient evaluation of the variant that a strict one stands for. */
  lemma StrictHasLenient(n: nat, st: Store, m: Name) returns (q: Parse)
    requires EvalVariant(n, st, true, m).Success?
    ensures VariantIs(st, m, q) && Same(EvalVariant(n, st, true, m).value, q)
  {
    q := NO_PARSE;
    var c := Chosen(st, m);
    if c.Some? {
      StrictIsLenient(n, st, false, Var(c.value));
      q := Eval(n, st, false, true, Var(c.value)).value;
    }
  }

  lemma VanishingExpands(n: nat, st: Store, m: Name, variant: Parse, q: Parse)
    requires Vanishes(n, st, m, variant) && Same(variant, q)
    ensures Truthy(Raw(st, m, q.unexpanded)) && ExpandsTo(st, Some(Var(m)), Raw(st, m, q.unexpanded), Some([]))
  {
    ExpandLenient(n, st, Some(Var(m)), Raw(st, m, q.unexpanded));
  }

  lemma VariantMono(n: nat, k: nat, st: Store, m: Name)
    requires n <= k && EvalVariant(n, st, true, m).Success?
    ensures EvalVariant(k, st, true, m) == EvalVariant(n, st, true, m)
  {
    if Chosen(st, m).Some? {
      EvalMonoBy(n, k, st, true, false, Var(Chosen(st, m).value));
    }
  }

  // ---- On steady stores every lenient evaluation has a strict one ---------------------------------

  lemma {:induction false} SubStrictToo(n: nat, st: Store, self: Option<Key>, s: Text) returns (d: nat)
    requires Steady(st) && Sub(n, st, false, self, s).Success?
    ensures Sub(d, st, true, self, s).Success?
    decreases n, 1, |s|
  {
    d := 0;
    if s != [] {
      var d1 := AtomStrictToo(n, st, self, s[0]);
      var d2 := SubStrictToo(n, st, self, s[1..]);
      d := if d1 > d2 then d1 else d2;
      AtomMono(d1, d, st, self, s[0]);
      SubMonoBy(d2, d, st, true, self, s[1..]);
    }
  }

  lemma {:induction false} AtomStrictToo(n: nat, st: Store, self: Option<Key>, a: Atom) returns (d: nat)
    requires Steady(st) && SubAtom(n, st, false, self, a).Success?
    ensures SubAtom(d, st, true, self, a).Success?
    decreases n, 1, 0
  {
    d := 0;
    if a.Ref? {
      d := StrictToo(n, st, Var(a.name));
    }
  }

  lemma AtomMono(n: nat, m: nat, st: Store, self: Option<Key>, a: Atom)
    requires n <= m && SubAtom(n, st, true, self, a).Success?
    ensures SubAtom(m, st, true, self, a) == SubAtom(n, st, true, self, a)
  {
    if a.Ref? {
      EvalMonoBy(n, m, st, true, true, Var(a.name));
    }
  }

  lemma {:induction false} StrictToo(n: nat, st: Store, k: Key) returns (d: nat)
    requires Steady(st) && Eval(n, st, false, true, k).Success?
    ensures Eval(d, st, true, true, k).Success?
    decreases n, 0, 0
  {
    match k
    case VarFlag(v, f) =>
      d := FlagStrictToo(n - 1, st, v, f);
      d := d + 1;
    case Var(v) =>
      d := VarStrictToo(n - 1, st, v);
      d := d + 1;
  }

  lemma {:induction false} FlagStrictToo(n: nat, st: Store, v: Name, f: string) returns (d: nat)
    requires Steady(st) && EvalFlag(n, st, false, v, f).Success?
    ensures EvalFlag(d, st, true, v, f).Success?
    decreases n, 4, 0
  {
    d := 0;
    var raw := RawFlag(st, v, f);
    if raw.Some? {
      assert Expand(n, st, false, Some(VarFlag(v, f)), raw).Success?;
      d := SubStrictToo(n, st, Some(VarFlag(v, f)), raw.value);
      assert Expand(d, st, true, Some(VarFlag(v, f)), raw).Success?;
    }
  }

  lemma {:induction false} VarStrictToo(n: nat, st: Store, v: Name) returns (d: nat)
    requires Steady(st) && EvalVar(n, st, false, true, v).Success?
    ensures EvalVar(d, st, true, true, v).Success?
    decreases n, 4, 0
  {
    var variant, raw, e, removes := EvalVarStages(n, st, false, true, v);
    var d1, strict := VariantStrictToo(n, st, v);
    var d2 := d1;
    if raw.Some? {
      d2 := SubStrictToo(n, st, Some(Var(v)), raw.value);
    }
    var d3 := d1;
    if removes != {} && Truthy(e) {
      forall r | r in removes ensures ExpandsStrictly(st, r) {
        assert RemoveMap(n, st, false, removes).Success?;
        var x := SubStrictToo(n, st, None, r);
      }
      d3 := StrictDepth(st, removes, d1);
    }
    d := if d1 > d2 then d1 else d2;
    d := if d > d3 then d else d3;
    PartsSuffice(d, d1, d2, d3, st, v, strict, raw, e, removes);
  }

  lemma {:induction false} VariantStrictToo(n: nat, st: Store, v: Name) returns (d: nat, strict: Parse)
    requires Steady(st) && EvalVar(n, st, false, true, v).Success?
    ensures EvalVariant(n, st, false, v).Success? && EvalVariant(d, st, true, v) == Success(strict)
    ensures Same(strict, EvalVariant(n, st, false, v).value)
    decreases n, 3, 0
  {
    d := 0;
    strict := NO_PARSE;
    var c := Chosen(st, v);
    if c.Some? {
      var k := StrictToo(n, st, Var(c.value));
      assert Eval(n + 1, st, false, true, Var(v)) == EvalVar(n, st, false, true, v);
      assert EvalsTo(st, Var(v), EvalVar(n, st, false, true, v).value);
      d, strict := ChosenStrictToo(n, st, v, c.value, k);
    }
  }

  lemma ChosenStrictToo(n: nat, st: Store, v: Name, c: Name, k: nat) returns (d: nat, strict: Parse)
    requires Chosen(st, v) == Some(c) && !Brittle(st, c)
    requires Eval(n, st, false, true, Var(c)).Success? && Eval(k, st, true, true, Var(c)).Success?
    ensures EvalVariant(d, st, true, v) == Success(strict) && Same(strict, Eval(n, st, false, true, Var(c)).value)
  {
    d := SteadyVariant(st, c, k - 1);
    d := d + 1;
    strict := Eval(d, st, true, false, Var(c)).value;
    StrictSame(n, d, st, Var(c));
  }

  lemma StrictSame(n: nat, d: nat, st: Store, k: Key)
    requires Eval(n, st, false, true, k).Success? && Eval(d, st, true, false, k).Success?
    ensures Same(Eval(d, st, true, false, k).value, Eval(n, st, false, true, k).value)
  {
    StrictIsLenient(d, st, false, k);
    EvalUnique(st, k, Eval(n, st, false, true, k).value, Eval(d, st, false, true, k).value);
  }

  /** The strict parts of a read, at their depths, make up a strict read at the largest of them. */
  lemma PartsSuffice(d: nat, d1: nat, d2: nat, d3: nat, st: Store, v: Name, strict: Parse, raw: Option<Text>,
                     e: Option<Text>,
                     removes: set<Text>)
    requires d1 <= d && d2 <= d && d3 <= d
    requires EvalVariant(d1, st, true, v) == Success(strict) && raw == Raw(st, v, strict.unexpanded)
    requires raw.Some? ==> Sub(d2, st, true, Some(Var(v)), raw.value).Success?
    requires removes == strict.Carried() + ActiveRemoves(st, v) && (e.Some? <==> raw.Some?)
    requires raw.Some? ==> SubsTo(st, Some(Var(v)), raw.value, e.value)
    requires removes != {} && Truthy(e) ==> forall r | r in removes :: Sub(d3, st, true, None, r).Success?
    ensures EvalVar(d, st, true, true, v).Success?
  {
    VariantMono(d1, d, st, v);
    if raw.Some? {
      SubMonoBy(d2, d, st, true, Some(Var(v)), raw.value);
      SubLenient(d, st, Some(Var(v)), raw.value);
      SubsToUnique(st, Some(Var(v)), raw.value, e.value, Sub(d, st, true, Some(Var(v)), raw.value).value);
    }
    if removes != {} && Truthy(e) {
      forall r | r in removes ensures Sub(d, st, true, None, r).Success? {
        SubMonoBy(d3, d, st, true, None, r);
      }
      FinishSucceeds(d, st, true, true, raw, e, removes);
    }
  }

  lemma SteadySucceeds(st: Store, k: Key, p: Parse)
    requires Steady(st) && EvalsTo(st, k, p)
    ensures ReadsStrictly(st, k)
  {
    var n: nat :| Eval(n, st, false, true, k) == Success(p);
    var d := StrictToo(n, st, k);
  }

  lemma ReadsMeanSteady(st: Store, v: Name)
    requires ReadsStrictly(st, Var(v)) && Chosen(st, v).Some?
    ensures !Brittle(st, Chosen(st, v).value)
  {
    var n: nat :| Eval(n, st, true, true, Var(v)).Success?;
    VariantNotBrittle(n - 1, st, v);
  }

  lemma VariantNotBrittle(n: nat, st: Store, v: Name)
    requires EvalVar(n, st, true, true, v).Success? && Chosen(st, v).Some?
    ensures !Brittle(st, Chosen(st, v).value)
  {
    VariantWasRead(n, st, v);
    ReadMeansNotBrittle(n - 1, st, Chosen(st, v).value);
  }

  lemma VariantWasRead(n: nat, st: Store, v: Name)
    requires EvalVar(n, st, true, true, v).Success? && Chosen(st, v).Some?
    ensures n > 0 && EvalVar(n - 1, st, true, false, Chosen(st, v).value).Success?
  {
    var variant, raw, e, removes := EvalVarStages(n, st, true, true, v);
  }

  /** Fresh reads succeed wherever there is a value exactly on the steady stores. */
  lemma FreshReadsExactly(st: Store)
    ensures FreshReadsSucceed(st) <==> Steady(st)
  {
    if Steady(st) {
      forall k, p | EvalsTo(st, k, p) ensures ReadsStrictly(st, k) {
        SteadySucceeds(st, k, p);
      }
    }
    if FreshReadsSucceed(st) {
      forall v, p | EvalsTo(st, Var(v), p) && Chosen(st, v).Some? ensures !Brittle(st, Chosen(st, v).value) {
        ReadsMeanSteady(st, v);
      }
    }
  }

  // ---- A store on which they do not ----------------------------------------------------------------

  const W: Name := ["W"]
  const WO: Name := ["W", "o"]

  /** `W:o = "${X}"` with `X` empty, `W:o:remove = "${C}"`, `C = "${C}"`, and `o` in OVERRIDES. */
  function Unsteady(): Store {
    var wo := Entry(Some([Ref(["X"])]), None, map[Remove := [Item([Ref(["C"])], [])]], map[]);
    var x := Entry(Some([]), None, map[], map[]);
    var c := Entry(Some([Ref(["C"])]), None, map[], map[]);
    Store(map[WO := wo, ["X"] := x, ["C"] := c], map[W := [Variant(WO, ["o"])]], ["o"])
  }

  lemma OnlyVariant(st: Store, v: Name, x: Variant)
    requires v in st.variants && st.variants[v] == [x] && x.suffix != [] && Active(x.suffix, st.overrides)
    ensures Chosen(st, v) == Some(x.name)
  {
    ChooseExact([x], st.overrides);
    assert x in [x];
  }

  lemma UnsteadyX(n: nat, strict: bool, expand: bool)
    ensures Eval(n + 1, Unsteady(), strict, expand, Var(["X"])) == Success(Parse(Some([]), Some([]), {}, None))
  {
    var st := Unsteady();
    assert Raw(st, ["X"], None) == Some([]) by { assert Join([]) + [] + Join([]) == []; }
    assert Sub(n, st, strict, Some(Var(["X"])), []) == Success([]);
    var empty: Option<Text> := Some([]);
    assert Expand(n, st, strict, Some(Var(["X"])), empty) == Success(empty);
    assert ActiveRemoves(st, ["X"]) == {} && RefsOf(empty) + RefsOf(empty) == {};
    Unchosen(n, st, strict, expand, ["X"]);
    assert Finish(n, st, strict, expand, empty, empty, {}) == Success(Parse(empty, empty, {}, None));
  }

  /** Evaluation of a variable that no variant overrides. */
  lemma Unchosen(n: nat, st: Store, strict: bool, expand: bool, v: Name)
    requires Chosen(st, v).None? && Expand(n, st, strict, Some(Var(v)), Raw(st, v, None)).Success?
    ensures var raw := Raw(st, v, None);
            EvalVar(n, st, strict, expand, v)
              == Finish(n, st, strict, expand, raw, Expand(n, st, strict, Some(Var(v)), raw).value,
                  ActiveRemoves(st, v))
  {
    assert EvalVariant(n, st, strict, v) == Success(NO_PARSE);
    assert {} + ActiveRemoves(st, v) == ActiveRemoves(st, v);
  }

  lemma UnsteadyC(n: nat)
    ensures Sub(n, Unsteady(), true, None, [Ref(["C"])]).Failure?
  {
    var st := Unsteady();
    assert SubAtom(n, st, true, None, Ref(["C"])).Failure? by {
      if n > 0 {
        var text: Text := [Ref(["C"])];
        assert Raw(st, ["C"], None) == Some(text) by { assert Join([]) + text + Join([]) == text; }
        assert SubAtom(n - 1, st, true, Some(Var(["C"])), Ref(["C"])).Failure?;
        assert Sub(n - 1, st, true, Some(Var(["C"])), text).Failure?;
        assert Expand(n - 1, st, true, Some(Var(["C"])), Some(text)).Failure?;
        assert EvalVar(n - 1, st, true, true, ["C"]).Failure?;
      }
    }
  }

  lemma UnsteadyText(n: nat, strict: bool)
    ensures var raw := Raw(Unsteady(), WO, None);
            Truthy(raw) && Expand(n + 1, Unsteady(), strict, Some(Var(WO)), raw) == Success(Some([]))
    ensures ActiveRemoves(Unsteady(), WO) == {[Ref(["C"])]}
  {
    var st := Unsteady();
    var text: Text := [Ref(["X"])];
    assert Raw(st, WO, None) == Some(text) by { assert Join([]) + text + Join([]) == text; }
    UnsteadyX(n, strict, true);
    assert SubAtom(n + 1, st, strict, Some(Var(WO)), Ref(["X"])) == Success([]);
    assert text[1..] == [] && Sub(n + 1, st, strict, Some(Var(WO)), []) == Success([]);
    var none: Text := [];
    assert none + none == none;
    assert Sub(n + 1, st, strict, Some(Var(WO)), text) == Success(none + none);
    var items := st.EntryOf(WO).ItemsOf(Remove);
    assert items[..0] == [];
    assert ActiveValues(items, ["o"]) == [[Ref(["C"])]];
  }

  /**
   Read by its own name `W:o` is the empty string. Read unexpanded, as the variant of `W`, its removal is
   expanded, which raises at every depth; so a fresh read of `W` always raises, though `W` has a value.
   */
  lemma FreshReadRaises(n: nat)
    ensures Chosen(Unsteady(), W) == Some(WO)
    ensures EvalVar(n + 1, Unsteady(), true, true, WO).Success?
    ensures EvalVar(n + 1, Unsteady(), true, true, WO).value.value == Some([])
    ensures EvalVariant(n, Unsteady(), true, W).Failure? && EvalVar(n, Unsteady(), true, true, W).Failure?
  {
    OnlyVariant(Unsteady(), W, Variant(WO, ["o"]));
    UnsteadyText(n, true);
    Unchosen(n + 1, Unsteady(), true, true, WO);
    VariantRaisesToo(n);
  }

  lemma VariantRaisesToo(n: nat)
    ensures EvalVariant(n, Unsteady(), true, W).Failure?
  {
    OnlyVariant(Unsteady(), W, Variant(WO, ["o"]));
    if n > 0 {
      VariantRaises(n - 1);
    }
  }

  lemma VariantRaises(n: nat)
    ensures EvalVar(n, Unsteady(), true, false, WO).Failure?
  {
    var st := Unsteady();
    if EvalVar(n, st, true, false, WO).Success? {
      var variant, raw, e, removes := EvalVarStages(n, st, true, false, WO);
      UnsteadyText(n, true);
      UnsteadyC(n);
      assert [Ref(["C"])] in removes;
      assert RemoveMap(n, st, true, removes).Failure?;
    }
  }

  /** A read is what its parts make of it. */
  lemma FromParts(n: nat, st: Store, strict: bool, expand: bool, v: Name, variant: Parse, raw: Option<Text>,
                  e: Option<Text>)
    requires EvalVariant(n, st, strict, v) == Success(variant) && raw == Raw(st, v, variant.unexpanded)
    requires Expand(n, st, strict, Some(Var(v)), raw) == Success(e)
    ensures Eval(n + 1, st, strict, expand, Var(v)) == EvalVar(n, st, strict, expand, v)
    ensures EvalVar(n, st, strict, expand, v)
            == Finish(n, st, strict, expand, raw, e, variant.Carried() + ActiveRemoves(st, v))
  {
  }

  lemma HasValue(n: nat, st: Store, k: Key, p: Parse)
    requires Eval(n, st, false, true, k) == Success(p)
    ensures EvalsTo(st, k, p)
  {
  }

  /** What `W:o` is when it is read by its own name. */
  function Vanished(): Parse {
    Parse(Some([Ref(["X"])]), Some([]), {["X"]}, None)
  }

  lemma VanishedIs(n: nat)
    ensures EvalVar(n + 1, Unsteady(), false, true, WO) == Success(Vanished())
  {
    var st := Unsteady();
    UnsteadyText(n, false);
    Unchosen(n + 1, st, false, true, WO);
    var empty: Option<Text> := Some([]);
    assert Raw(st, WO, None) == Some([Ref(["X"])]) by { assert Join([]) + [Ref(["X"])] + Join([]) == [Ref(["X"])]; }
    assert RefsOf(Some([Ref(["X"])])) + RefsOf(empty) == {["X"]};
  }

  lemma UnsteadyVariant(n: nat)
    ensures EvalVariant(n + 2, Unsteady(), false, W) == Success(Vanished())
  {
    OnlyVariant(Unsteady(), W, Variant(WO, ["o"]));
    VanishedIs(n);
    assert Eval(n + 2, Unsteady(), false, true, Var(WO)) == EvalVar(n + 1, Unsteady(), false, true, WO);
  }

  lemma UnsteadyW(n: nat)
    ensures Raw(Unsteady(), W, Some([Ref(["X"])])) == Some([Ref(["X"])])
    ensures Expand(n + 2, Unsteady(), false, Some(Var(W)), Some([Ref(["X"])])) == Success(Some([]))
  {
    var text: Text := [Ref(["X"])];
    assert Join([]) + text + Join([]) == text;
    UnsteadyX(n + 1, false, true);
    assert SubAtom(n + 2, Unsteady(), false, Some(Var(W)), Ref(["X"])) == Success([]);
    var none: Text := [];
    assert none + none == none && text[1..] == [] && Sub(n + 2, Unsteady(), false, Some(Var(W)), []) == Success([]);
  }

  lemma UnsteadyValue(n: nat) returns (p: Parse)
    ensures EvalsTo(Unsteady(), Var(W), p) && p.value == Some([])
  {
    UnsteadyVariant(n);
    UnsteadyW(n);
    var raw, empty: Option<Text> := Vanished().unexpanded, Some([]);
    FromParts(n + 2, Unsteady(), false, true, W, Vanished(), raw, empty);
    p := Parse(raw, empty, RefsOf(raw) + RefsOf(empty), None);
    HasValue(n + 3, Unsteady(), Var(W), p);
  }

  /** `W` has a value, the empty string, and no fresh read finds it. */
  lemma UnsteadyHasValue()
    ensures exists p :: EvalsTo(Unsteady(), Var(W), p) && p.value == Some([])
    ensures !ReadsStrictly(Unsteady(), Var(W)) && !Steady(Unsteady())
  {
    var d: nat :| true;
    var p := UnsteadyValue(d);
    forall n: nat ensures Eval(n, Unsteady(), true, true, Var(W)).Failure? {
      if n > 0 {
        FreshReadRaises(n - 1);
      }
    }
    FreshReadsExactly(Unsteady());
  }

  lemma UnsteadySharesNothing()
    ensures NoSpill(Unsteady())
  {
    var st := Unsteady();
    OnlyVariant(st, W, Variant(WO, ["o"]));
    forall o, v | Shares(st, o, v) ensures o == v {
      assert Chosen(st, o).Some? && Chosen(st, v).Some?;
    }
  }

  /** Once the variant was read by its own name, its cached parse answers where a fresh read raises, at any depth. */
  method ServedFromCache(d: SmartData.DataSmart, ord: Memo.Order, n: nat)
    returns (own: Result<Option<Text>>, variant: Result<Parse>)
    requires d.Shows(Unsteady()) && Coherent(Unsteady(), d.expandCache) && Memo.IsOrder(ord)
    modifies d`expandCache
    ensures own == Success(Some([])) && variant.Success? && EvalVariant(n, Unsteady(), true, W).Failure?
  {
    ghost var st, c := Unsteady(), d.expandCache;
    FreshReadRaises(1);
    FreshReadRaises(n);
    UnsteadySharesNothing();
    NoSpillHarmless(st);
    OwnRead(ord, c);
    own := d.GetVar(3, ord, WO, st);
    assert Var(WO) in d.expandCache;
    var chosen;
    variant, chosen := d.ReadVariant(n, ord, W, st);
  }

  /** Reading the variant by its own name. */
  lemma OwnRead(ord: Memo.Order, c: Memo.Cache)
    requires Ready(Unsteady(), ord, c) && NoSpill(Unsteady())
    ensures var a := Memo.ReadValue(3, Unsteady(), ord, c, Var(WO));
            a.result == Success(Some([])) && Var(WO) in a.cache
  {
    var st := Unsteady();
    FreshReadRaises(1);
    assert Eval(3, st, true, true, Var(WO)) == EvalVar(2, st, true, true, WO);
    ReadRight(3, st, ord, c, true, Var(WO));
    var a := Memo.Read(3, st, ord, c, true, Var(WO));
    assert EntryOk(st, Var(WO), a.cache[Var(WO)]);
    StrictIsLenient(3, st, true, Var(WO));
    var q :| EvalsTo(st, Var(WO), q) && Faithful(st, Var(WO), a.result.value, q);
    HasValue(3, st, Var(WO), Eval(3, st, false, true, Var(WO)).value);
    EvalUnique(st, Var(WO), q, Eval(3, st, false, true, Var(WO)).value);
  }

  /** The removal of `W:o` has no expansion. */
  lemma NeverExpands(x: Text)
    ensures !SubsTo(Unsteady(), None, [Ref(["C"])], x)
  {
    forall n: nat ensures Sub(n, Unsteady(), false, None, [Ref(["C"])]).Failure? {
      UnsteadyLenient(n);
    }
  }

  lemma UnsteadyLenient(n: nat)
    ensures Sub(n, Unsteady(), false, None, [Ref(["C"])]).Failure?
  {
    var st := Unsteady();
    assert SubAtom(n, st, false, None, Ref(["C"])).Failure? by {
      if n > 0 {
        var text: Text := [Ref(["C"])];
        assert Raw(st, ["C"], None) == Some(text) by { assert Join([]) + text + Join([]) == text; }
        assert SubAtom(n - 1, st, false, Some(Var(["C"])), Ref(["C"])).Failure?;
        assert Sub(n - 1, st, false, Some(Var(["C"])), text).Failure?;
        assert Expand(n - 1, st, false, Some(Var(["C"])), Some(text)).Failure?;
        assert EvalVar(n - 1, st, false, true, ["C"]).Failure?;
      }
    }
  }

  lemma FreshRemovals(n: nat, ord: Memo.Order, c: Memo.Cache)
    requires Ready(Unsteady(), ord, c)
    ensures Memo.RemovalWords(n, Unsteady(), ord, c, true, WO, false).result.Failure?
  {
    var st := Unsteady();
    UnsteadyText(0, true);
    WordsRight(n, st, ord, c, true, WO, NO_PARSE, false);
    var a := Memo.RemovalWords(n, st, ord, c, true, WO, false);
    if a.result.Success? {
      assert [Ref(["C"])] in InForce(st, WO, NO_PARSE);
      var x :| SubsTo(st, None, [Ref(["C"])], x);
      NeverExpands(x);
    }
  }

  /** Read as a variant, from an empty cache, `W:o` raises. */
  lemma FreshVariant(n: nat, ord: Memo.Order)
    requires Ready(Unsteady(), ord, map[])
    ensures Memo.Read(n, Unsteady(), ord, map[], false, Var(WO)).result.Failure?
  {
    if n > 0 {
      var st, m := Unsteady(), n - 1;
      UnsteadyText(0, true);
      var raw := Raw(st, WO, None);
      var x := Memo.Expanded(m, st, ord, map[], Some(Var(WO)), raw);
      RawExpandedRight(m, st, ord, map[], false, WO, NO_PARSE, false);
      TextThenRest(m, st, ord, map[], false, WO, NO_PARSE, x);
      assert Memo.ReadVar(m, st, ord, map[], false, WO) == Memo.ReadText(m, st, ord, map[], false, WO, NO_PARSE);
      if x.result.Success? {
        FreshRemovals(m, ord, x.cache);
        Memo.RestIs(m, st, ord, x.cache, false, WO, raw, x.result.value, false,
                    Memo.RemovalWords(m, st, ord, x.cache, true, WO, false));
      }
    }
  }

  /** A read raises if that of its variant does. */
  lemma VariantFails(n: nat, st: Store, ord: Memo.Order, c: Memo.Cache, v: Name, m: Name)
    requires Chosen(st, v) == Some(m) && Var(v) !in c && Memo.Read(n, st, ord, c, false, Var(m)).result.Failure?
    ensures Memo.ReadValue(n + 1, st, ord, c, Var(v)).result.Failure?
  {
    assert Memo.ReadVariant(n, st, ord, c, v) == Memo.Read(n, st, ord, c, false, Var(m));
    assert Memo.Read(n + 1, st, ord, c, true, Var(v)) == Memo.ReadVar(n, st, ord, c, true, v);
  }

  lemma FreshW(n: nat, ord: Memo.Order)
    requires Ready(Unsteady(), ord, map[])
    ensures Memo.ReadValue(n, Unsteady(), ord, map[], Var(W)).result.Failure?
  {
    var st := Unsteady();
    if n > 0 {
      FreshReadRaises(0);
      FreshVariant(n - 1, ord);
      VariantFails(n - 1, st, ord, map[], W, WO);
    }
  }

  /** On the heap: with an empty cache a read of `W` raises, at every depth. */
  method FreshOnHeap(d: SmartData.DataSmart, ord: Memo.Order, n: nat) returns (r: Result<Option<Text>>)
    requires d.Shows(Unsteady()) && d.expandCache == map[] && Memo.IsOrder(ord)
    modifies d`expandCache
    ensures r == Failure
  {
    ghost var st := Unsteady();
    UnsteadySharesNothing();
    NoSpillHarmless(st);
    Memo.NothingCached(st);
    FreshW(n, ord);
    r := d.GetVar(n, ord, W, st);
  }
}
