/**
 What the writes of the flat store mean to a reader: laws between each write and the reads
 after it, stated without naming how the write is carried out.
 */
module StoreLaws {
  import opened Prelude
  import opened Text
  import opened Overrides
  import opened Datastore
  import opened Evaluation

  // ---- Names ---------------------------------------------------------------------------------

  /**
   An operation keyword after a plain name is recognised with that name as its target; what follows it, if it
   has no capital letter, is the operation's condition.
   */
  lemma {:induction false} TargetOf(name: Name, c: string, cond: Suffix, i: nat)
    requires 0 < i <= |name| && ParseTarget(name, i) == Plain && ParseKeyword(c).Some? && NoUpper(cond)
    ensures ParseTarget(name + [c] + cond, i)
            == Operation(name, ParseKeyword(c).value, if cond == [""] then [] else cond)
    decreases |name| - i
  {
    var full := name + [c] + cond;
    if i == |name| {
      assert full[..i] == name && full[i + 1..] == cond;
    } else {
      assert full[i + 1..] == name[i + 1..] + ([c] + cond);
      if NoUpper(full[i + 1..]) {
        NoUpperPart(name[i + 1..], [c] + cond);
      }
      TargetOf(name, c, cond, i + 1);
    }
  }

  lemma NoUpperPart(add: Suffix, more: Suffix)
    requires NoUpper(add + more)
    ensures NoUpper(add)
  {
    forall x | x in add ensures x in add + more {}
  }

  // ---- The listing ------------------------------------------------------------------------------

  /** Listing a name under its owners never touches the list of the name itself. */
  lemma {:induction false} RegisterFromKeeps(vs: Variants, name: Name, k: nat, v: Name)
    requires k < |name| && |v| > k
    ensures var vs' := RegisterFrom(vs, name, k); (v in vs' <==> v in vs) && (v in vs ==> vs'[v] == vs[v])
    decreases k
  {
    if k > 0 && OverrideStart(name[k]) {
      assert |name[..k]| < |v|;
      var vs' := AddVariant(vs, name[..k], Variant(name, name[k..]));
      RegisterFromKeeps(vs', name, k - 1, v);
    }
  }

  lemma RegisterKeepsOwn(vs: Variants, name: Name)
    ensures var vs' := Register(vs, name); (name in vs' <==> name in vs) && (name in vs ==> vs'[name] == vs[name])
  {
    if |name| > 1 {
      RegisterFromKeeps(vs, name, |name| - 1, name);
    } else if OverrideStart(name[0]) {
      assert |[name[0][..|name[0]| - 1]][0]| < |name[0]|;
    }
  }

  // ---- Assignment ---------------------------------------------------------------------------------

  lemma {:induction false} DelVarsItems(st: Store, names: seq<Name>, v: Name)
    requires st.EntryOf(v).items == map[]
    ensures DelVars(st, names).EntryOf(v).items == map[] && DelVars(st, names).overrides == st.overrides
  {
    if names != [] {
      DelVarsItems(st, names[..|names| - 1], v);
    }
  }

  /**
   Set, then get: after a plain assignment outside the parser nothing that was pending or overriding is
   left, so the variable's unexpanded value is the assigned text.
   */
  lemma SetThenGet(st: Store, v: Name, value: Text)
    requires ParseTarget(v) == Plain
    ensures var st' := SetVar(st, v, value, false);
            && Chosen(st', v) == None && Raw(st', v, None) == Some(value) && ActiveRemoves(st', v) == {}
            && st'.overrides == st.overrides && v in Keys(st')
  {
    var st1 := st.Put(v, st.EntryOf(v).(items := map[]));
    if v in st1.variants {
      DelVarsItems(st1, ActiveNames(st1.variants[v], st1.overrides), v);
    }
    var st2 := Forget(st, v);
    assert v !in st2.variants && st2.EntryOf(v).items == map[] && st2.overrides == st.overrides;
    RegisterKeepsOwn(st2.variants, v);
    var st' := SetVar(st, v, value, false);
    assert st'.vars[v] == st2.EntryOf(v).(content := Some(value)) && v !in st'.variants;
    assert Join([]) == [] && NewestFirst([]) == [] && [] + value + [] == value;
  }

  /** Evaluation of a variable that no variant overrides. */
  lemma EvalUnchosen(n: nat, st: Store, strict: bool, expand: bool, v: Name)
    requires Chosen(st, v) == None
    ensures var raw := Raw(st, v, None); var e := Expand(n, st, strict, Some(Var(v)), raw);
            Eval(n + 1, st, strict, expand, Var(v)) ==
              if e.Failure? then Failure else Finish(n, st, strict, expand, raw, e.value, ActiveRemoves(st, v))
  {
    assert EvalVariant(n, st, strict, v) == Success(NO_PARSE);
    assert NO_PARSE.Carried() + ActiveRemoves(st, v) == ActiveRemoves(st, v);
    assert Eval(n + 1, st, strict, expand, Var(v)) == EvalVar(n, st, strict, expand, v);
  }

  lemma FinishNothing(n: nat, st: Store, strict: bool, expand: bool, raw: Option<Text>, e: Option<Text>)
    requires e.None? <==> raw.None?
    ensures Finish(n, st, strict, expand, raw, e, {}) == Success(Parse(raw, e, RefsOf(raw) + RefsOf(e), None))
  {
  }

  /** Read back through the whole evaluation: the expansion of the assigned text, nothing removed. */
  lemma SetThenRead(n: nat, st: Store, strict: bool, expand: bool, v: Name, value: Text)
    requires ParseTarget(v) == Plain
    ensures var st' := SetVar(st, v, value, false);
            var e := Sub(n, st', strict, Some(Var(v)), value);
            Eval(n + 1, st', strict, expand, Var(v)) ==
              if e.Failure? then Failure else Success(Parse(Some(value), Some(e.value), Refs(value) + Refs(e.value),
                  None))
  {
    SetThenGet(st, v, value);
    var st' := SetVar(st, v, value, false);
    EvalUnchosen(n, st', strict, expand, v);
    var e := Expand(n, st', strict, Some(Var(v)), Some(value));
    if e.Success? {
      FinishNothing(n, st', strict, expand, Some(value), e.value);
    }
  }

  /** Text without references reads back as itself, in any store. */
  lemma PlainTextReadsBack(st: Store, v: Name, value: Text, n: nat)
    requires ParseTarget(v) == Plain && forall a | a in value :: a.Ch?
    ensures var r := Eval(n + 1, SetVar(st, v, value, false), true, true, Var(v));
            r.Success? && r.value.value == Some(value)
  {
    SetThenRead(n, st, true, true, v, value);
    SubPlain(n, SetVar(st, v, value, false), Some(Var(v)), value);
  }

  lemma {:induction false} SubPlain(n: nat, st: Store, self: Option<Key>, s: Text)
    requires forall a | a in s :: a.Ch?
    ensures Sub(n, st, true, self, s) == Success(s)
    decreases |s|
  {
    if s != [] {
      SubPlain(n, st, self, s[1..]);
      assert [s[0]] + s[1..] == s;
    }
  }

  // ---- Operations ---------------------------------------------------------------------------------

  lemma ActiveValuesSnoc(items: seq<Item>, item: Item, overrides: seq<string>)
    ensures ActiveValues(items + [item], overrides)
         == ActiveValues(items, overrides) + if Active(item.cond, overrides) then [item.value] else []
  {
    assert (items + [item])[..|items|] == items;
  }

  /** What an operation item does to the unexpanded value. */
  function Operated(raw: Option<Text>, kw: Keyword, t: Text): Option<Text> {
    match kw
    case Append => Some(raw.GetOr([]) + t)
    case Prepend => Some(t + raw.GetOr([]))
    case Remove => raw
  }

  function NewValues(item: Item, overrides: seq<string>): seq<Text> {
    if Active(item.cond, overrides) then [item.value] else []
  }

  lemma OperationValues(st: Store, v: Name, kw: Keyword, item: Item, k: Keyword)
    ensures ActiveValues(AddItem(st, v, kw, item).EntryOf(v).ItemsOf(k), st.overrides)
         == ActiveValues(st.EntryOf(v).ItemsOf(k), st.overrides) + if k == kw then NewValues(item, st.overrides) else []
  {
    ActiveValuesSnoc(st.EntryOf(v).ItemsOf(kw), item, st.overrides);
  }

  lemma OperationRaw(st: Store, v: Name, kw: Keyword, item: Item, variant: Option<Text>)
    ensures Raw(AddItem(st, v, kw, item), v, variant)
         == if Active(item.cond, st.overrides) then Operated(Raw(st, v, variant), kw, item.value)
             else Raw(st, v, variant)
  {
    OperationValues(st, v, kw, item, Prepend);
    OperationValues(st, v, kw, item, Append);
    AssembleOperated(Base(st, v, variant), ActiveValues(st.EntryOf(v).ItemsOf(Prepend), st.overrides),
                     ActiveValues(st.EntryOf(v).ItemsOf(Append), st.overrides), kw, NewValues(item, st.overrides));
    assert Base(AddItem(st, v, kw, item), v, variant) == Base(st, v, variant);
  }

  lemma OperationRemoves(st: Store, v: Name, kw: Keyword, item: Item)
    ensures ActiveRemoves(AddItem(st, v, kw, item), v)
         == ActiveRemoves(st, v) + if Active(item.cond, st.overrides) && kw.Remove? then {item.value} else {}
  {
    OperationValues(st, v, kw, item, Remove);
  }

  /** An operation whose condition holds acts at its end of the value; any other leaves the value as it was. */
  lemma OperationThenGet(st: Store, v: Name, kw: Keyword, item: Item, variant: Option<Text>)
    ensures var st' := AddItem(st, v, kw, item); var holds := Active(item.cond, st.overrides);
            && Chosen(st', v) == Chosen(st, v)
            && Raw(st', v, variant) == (if holds then Operated(Raw(st, v, variant), kw, item.value)
               else Raw(st, v, variant))
            && ActiveRemoves(st', v) == ActiveRemoves(st, v) + if holds && kw.Remove? then {item.value} else {}
  {
    RegisterKeepsOwn(st.variants, v);
    OperationRaw(st, v, kw, item, variant);
    OperationRemoves(st, v, kw, item);
  }

  lemma AssembleOperated(base: Option<Text>, prepends: seq<Text>, appends: seq<Text>, kw: Keyword, new_: seq<Text>)
    requires |new_| <= 1
    ensures Assemble(base, prepends + (if kw.Prepend? then new_ else []), appends + if kw.Append? then new_ else [])
         == if new_ == [] then Assemble(base, prepends, appends)
             else Operated(Assemble(base, prepends, appends), kw, new_[0])
  {
    assert prepends + [] == prepends && appends + [] == appends;
    if new_ != [] {
      assert new_ == [new_[0]];
      AppendStep(base, prepends, appends, new_[0]);
      PrependStep(base, prepends, appends, new_[0]);
    }
  }

  lemma AppendIs(st: Store, v: Name, t: Text)
    requires ParseTarget(v) == Plain && !OldSyntax(v + ["append"])
    ensures Apply(st, WAppend(v, t)) == AddItem(st, v, Append, Item(t, []))
  {
    assert v + ["append"] + [] == v + ["append"];
    TargetOf(v, "append", [], 1);
  }

  lemma PrependIs(st: Store, v: Name, t: Text)
    requires ParseTarget(v) == Plain && !OldSyntax(v + ["prepend"])
    ensures Apply(st, WPrepend(v, t)) == AddItem(st, v, Prepend, Item(t, []))
  {
    assert v + ["prepend"] + [] == v + ["prepend"];
    TargetOf(v, "prepend", [], 1);
  }

  /** `appendVar` and `prependVar`, as a reader sees them. */
  lemma AppendThenGet(st: Store, v: Name, t: Text, variant: Option<Text>)
    requires ParseTarget(v) == Plain && !OldSyntax(v + ["append"]) && !OldSyntax(v + ["prepend"])
    ensures Raw(Apply(st, WAppend(v, t)), v, variant) == Some(Raw(st, v, variant).GetOr([]) + t)
    ensures Raw(Apply(st, WPrepend(v, t)), v, variant) == Some(t + Raw(st, v, variant).GetOr([]))
  {
    AppendIs(st, v, t);
    PrependIs(st, v, t);
    OperationRaw(st, v, Append, Item(t, []), variant);
    OperationRaw(st, v, Prepend, Item(t, []), variant);
  }

  // ---- Overrides ----------------------------------------------------------------------------------

  lemma RegisterOverride(vs: Variants, v: Name, o: string)
    requires OverrideStart(o)
    ensures v in Register(vs, v + [o]) && Register(vs, v + [o])[v] == AddVariant(vs, v, Variant(v + [o], [o]))[v]
  {
    var name := v + [o];
    var k := |v|;
    assert name[..k] == v && name[k..] == [o];
    RegisterFromKeeps(AddVariant(vs, v, Variant(name, [o])), name, k - 1, v);
  }

  /** No list gains anything. */
  ghost predicate Shrinks(vs: Variants, vs': Variants) {
    forall v, x | v in vs' && x in vs'[v] :: v in vs && x in vs[v]
  }

  lemma {:induction false} RemoveFirstKeeps(list: seq<Variant>, x: Variant, y: Variant)
    requires y in RemoveFirst(list, x)
    ensures y in list
  {
    if list[0] != x && y != list[0] {
      RemoveFirstKeeps(list[1..], x, y);
    }
  }

  lemma {:induction false} UnregisterShrinks(vs: Variants, name: Name, k: nat)
    requires k < |name|
    ensures Shrinks(vs, UnregisterFrom(vs, name, k))
    decreases k
  {
    if k > 0 && OverrideStart(name[k]) {
      var owner := name[..k];
      var vs' := if owner in vs then vs[owner := RemoveFirst(vs[owner], Variant(name, name[k..]))] else vs;
      forall v, x | v in vs' && x in vs'[v] ensures v in vs && x in vs[v] {
        if v == owner && owner in vs {
          RemoveFirstKeeps(vs[owner], Variant(name, name[k..]), x);
        }
      }
      UnregisterShrinks(vs', name, k - 1);
    }
  }

  lemma {:induction false} DelVarsShrinks(st: Store, names: seq<Name>)
    ensures Shrinks(st.variants, DelVars(st, names).variants)
  {
    if names != [] {
      var front, last := names[..|names| - 1], names[|names| - 1];
      DelVarsShrinks(st, front);
      if |last| > 1 {
        UnregisterShrinks(DelVars(st, front).variants - {last}, last, |last| - 1);
      }
    }
  }

  lemma ForgetShrinks(st: Store, name: Name)
    ensures Shrinks(st.variants, Forget(st, name).variants) && Forget(st, name).overrides == st.overrides
  {
    if name in st.variants {
      var st1 := st.Put(name, st.EntryOf(name).(items := map[]));
      DelVarsShrinks(st1, ActiveNames(st.variants[name], st.overrides));
      DelVarsOverrides(st1, ActiveNames(st.variants[name], st.overrides));
    }
  }

  /** In a list to which the variant for `overrides[i]` was added, it wins. */
  lemma AddedVariantWins(list: seq<Variant>, v: Name, overrides: seq<string>, i: int)
    requires FirstAt(overrides, i) && ActiveOneLevel(list, overrides)
    requires forall x | x in list && |x.suffix| == 1 :: x.name == v + x.suffix
    requires forall j | i < j < |overrides| && FirstAt(overrides, j) :: !Selects(list, overrides[j])
    ensures var x := Variant(v + [overrides[i]], [overrides[i]]);
            Choose(if x in list then list else list + [x], overrides) == Some(x.name)
  {
    var o := overrides[i];
    var x := Variant(v + [o], [o]);
    var list' := if x in list then list else list + [x];
    assert x in list' && forall y | y in list' :: y in list || y == x;
    forall j | i < j < |overrides| && FirstAt(overrides, j) ensures !Selects(list', overrides[j]) {
      assert overrides[..j][i] == o;
      assert [overrides[j]][0] != [o][0];
      assert !Selects(list, overrides[j]);
    }
    LastOverrideWins(list', overrides, i);
    assert Variant(Choose(list', overrides).value, [o]) in list';
  }

  /**
   In `list` nothing selected comes after `overrides[i]`, and one-component variants have the names they should have.
   */
  ghost predicate LastWord(list: seq<Variant>, v: Name, overrides: seq<string>, i: int) {
    && ActiveOneLevel(list, overrides)
    && (forall x | x in list && |x.suffix| == 1 :: x.name == v + x.suffix)
    && forall j | i < j < |overrides| && FirstAt(overrides, j) :: !Selects(list, overrides[j])
  }

  lemma LastWordShrinks(list: seq<Variant>, list': seq<Variant>, v: Name, overrides: seq<string>, i: int)
    requires LastWord(list, v, overrides, i) && forall x | x in list' :: x in list
    ensures LastWord(list', v, overrides, i)
  {
    forall j | i < j < |overrides| && FirstAt(overrides, j) ensures !Selects(list', overrides[j]) {
      assert !Selects(list, overrides[j]);
    }
  }

  /**
   Setting `V:o`, in the parser or not, when the override has the last word: if `o` is active and no other
   listed override first occurs later in OVERRIDES, then `V` takes its value from `V:o`.
   */
  lemma SetOverrideThenGet(st: Store, v: Name, i: int, value: Text, parsing: bool)
    requires FirstAt(st.overrides, i) && OverrideStart(st.overrides[i])
    requires ParseTarget(v + [st.overrides[i]]) == Plain
    requires v in st.variants ==> LastWord(st.variants[v], v, st.overrides, i)
    ensures Chosen(SetVar(st, v + [st.overrides[i]], value, parsing), v) == Some(v + [st.overrides[i]])
  {
    var name := v + [st.overrides[i]];
    var st1 := if parsing then st else Forget(st, name);
    ForgetShrinks(st, name);
    var list := if v in st1.variants then st1.variants[v] else [];
    if v in st1.variants && v in st.variants {
      LastWordShrinks(st.variants[v], list, v, st.overrides, i);
    } else {
      assert list != [] ==> list[0] in st1.variants[v];
    }
    RegisterOverride(st1.variants, v, st.overrides[i]);
    AddedVariantWins(list, v, st.overrides, i);
  }

  // ---- Names without a colon ------------------------------------------------------------------------

  /** The listings of `v` differ. */
  ghost predicate ListingChanged(vs: Variants, vs': Variants, v: Name) {
    !(v in vs <==> v in vs') || (v in vs && v in vs' && vs[v] != vs'[v])
  }

  /**
   An operation on a name without a colon changes the listing of another variable exactly if the name starts
   like an override and the variable is the name without its last character, unless it is listed there already.
   */
  lemma ColonFreeListsExactly(vs: Variants, u: string, v: Name)
    ensures ListingChanged(vs, Register(vs, [u]), v) <==>
            OverrideStart(u) && v == [u[..|u| - 1]] && !(v in vs && Variant([u], [u]) in vs[v])
  {
    if OverrideStart(u) && v == [u[..|u| - 1]] {
      var list := if v in vs then vs[v] else [];
      assert list + [Variant([u], [u])] != list;
    }
  }

  lemma CollectSnoc(list: seq<Variant>, x: Variant, overrides: seq<string>)
    requires !Active(x.suffix, overrides)
    ensures Choose(list + [x], overrides) == Choose(list, overrides)
  {
    assert (list + [x])[..|list|] == list;
  }

  /**
   A variant added to a list: without effect if it is not active, else the list has a choice, and alone it is the
   choice.
   */
  lemma AddedTakes(list: seq<Variant>, x: Variant, overrides: seq<string>)
    requires x.suffix != []
    ensures var list' := if x in list then list else list + [x];
            && (!Active(x.suffix, overrides) ==> Choose(list', overrides) == Choose(list, overrides))
            && (Active(x.suffix, overrides) && (forall y | y in list :: y.suffix != []) ==>
               Choose(list', overrides).Some?)
            && (list == [] ==> Choose(list', overrides) == if Active(x.suffix, overrides) then Some(x.name) else None)
  {
    var list' := if x in list then list else list + [x];
    assert x in list' && forall y | y in list' :: y in list || y == x;
    if !Active(x.suffix, overrides) {
      CollectSnoc(list, x, overrides);
    }
    if forall y | y in list :: y.suffix != [] {
      ChooseExact(list', overrides);
    }
    if list == [] {
      ChooseExact(list, overrides);
    }
  }

  /**
   The listing has an effect only if the name itself is in OVERRIDES; then the other variable takes a variant's
   value, and if it had no variant listed, the value of the name.
   */
  lemma ColonFreeTakesExactly(st: Store, u: string, kw: Keyword, item: Item)
    requires OverrideStart(u)
    ensures var st', v := AddItem(st, [u], kw, item), [u[..|u| - 1]];
            && (u !in st.overrides ==> Chosen(st', v) == Chosen(st, v))
            && (u in st.overrides && (v in st.variants ==> forall x | x in st.variants[v] :: x.suffix != []) ==>
               Chosen(st', v).Some?)
            && (v !in st.variants ==> Chosen(st', v) == if u in st.overrides then Some([u]) else None)
  {
    var v, x := [u[..|u| - 1]], Variant([u], [u]);
    var list := if v in st.variants then st.variants[v] else [];
    ListedAfter(st, u, kw, item);
    AddedTakes(list, x, st.overrides);
    assert Active([u], st.overrides) <==> u in st.overrides by { assert u in [u]; }
    if u !in st.overrides && v !in st.variants {
      ChooseExact([], st.overrides);
    }
  }

  /** What is chosen afterwards, from the list with the name added. */
  lemma ListedAfter(st: Store, u: string, kw: Keyword, item: Item)
    requires OverrideStart(u)
    ensures var v, x := [u[..|u| - 1]], Variant([u], [u]);
            var list := if v in st.variants then st.variants[v] else [];
            Chosen(AddItem(st, [u], kw, item), v) == Choose(if x in list then list else list + [x], st.overrides)
    ensures var v := [u[..|u| - 1]]; v !in st.variants ==> Chosen(st, v) == None
  {
  }

  /** Only the name itself is listed for its override, and for no other. */
  predicate ListsOnlyItself(list: seq<Variant>, u: string) {
    forall x | x in list :: x.suffix == [u] <==> x.name == [u]
  }

  /**
   If the other variable has active variants, of one component each, the name takes it over exactly if no override
   that selects one of them makes its first appearance in OVERRIDES later than the name does.
   */
  lemma ColonFreeWinsExactly(st: Store, u: string, kw: Keyword, item: Item, i: int)
    requires OverrideStart(u) && FirstAt(st.overrides, i) && st.overrides[i] == u
    requires var v := [u[..|u| - 1]];
             v in st.variants ==> ActiveOneLevel(st.variants[v], st.overrides) && ListsOnlyItself(st.variants[v], u)
    ensures var st', v := AddItem(st, [u], kw, item), [u[..|u| - 1]];
            var list := if v in st.variants then st.variants[v] else [];
            Chosen(st', v) == Some([u]) <==> NothingLater(list, st.overrides, i)
  {
    var v := [u[..|u| - 1]];
    ListedAfter(st, u, kw, item);
    AddedWinsExactly(if v in st.variants then st.variants[v] else [], u, st.overrides, i);
  }

  /** Nothing in the list is selected by an override that first appears after `overrides[i]`. */
  ghost predicate NothingLater(list: seq<Variant>, overrides: seq<string>, i: int) {
    forall j | i < j < |overrides| && FirstAt(overrides, j) :: !Selects(list, overrides[j])
  }

  lemma AddedWinsExactly(list: seq<Variant>, u: string, overrides: seq<string>, i: int)
    requires FirstAt(overrides, i) && overrides[i] == u && ActiveOneLevel(list, overrides) && ListsOnlyItself(list, u)
    ensures var x := Variant([u], [u]);
            Choose(if x in list then list else list + [x], overrides) == Some([u]) <==> NothingLater(list, overrides, i)
  {
    var x := Variant([u], [u]);
    var list' := if x in list then list else list + [x];
    assert x in list' && forall y :: y in list' <==> y in list || y == x;
    LaterSelects(list, list', overrides, i, x);
    var m := LatestFirstExists(list', overrides, i);
    LastOverrideWins(list', overrides, m);
    if m > i {
      assert overrides[..m][i] == u && [overrides[m]][0] != [u][0];
    }
  }

  /** Adding the variant for `overrides[i]` selects nothing later. */
  lemma LaterSelects(list: seq<Variant>, list': seq<Variant>, overrides: seq<string>, i: int, x: Variant)
    requires 0 <= i < |overrides| && x.suffix == [overrides[i]] && forall y :: y in list' <==> y in list || y == x
    ensures forall j | i < j < |overrides| && FirstAt(overrides, j) ::
              Selects(list', overrides[j]) <==> Selects(list, overrides[j])
  {
    forall j | i < j < |overrides| && FirstAt(overrides, j)
      ensures Selects(list', overrides[j]) <==> Selects(list, overrides[j])
    {
      assert overrides[..j][i] == overrides[i] && [overrides[j]][0] != [overrides[i]][0];
    }
  }

  lemma TooShort(s: string, part: string)
    requires |s| < |part|
    ensures !Contains(s, part)
  {
  }

  lemma AppendsToAbc()
    ensures ParseTarget(["abc"]) == Plain && !OldSyntax(["abc", "append"])
  {
    forall c | c in ["abc", "append"] ensures !Contains(c, "_append") && !Contains(c, "_prepend")
        && !Contains(c, "_remove") {
      TooShort(c, "_append");
      TooShort(c, "_prepend");
      TooShort(c, "_remove");
    }
  }

  /** `ab = x`, and OVERRIDES is `abc`. */
  function WithAb(x: Text): Store {
    Store(map[["ab"] := EMPTY.(content := Some(x))], map[], ["abc"])
  }

  lemma AbcTakesAb(x: Text, t: Text)
    ensures var st' := AddItem(WithAb(x), ["abc"], Append, Item(t, []));
            && Chosen(st', ["ab"]) == Some(["abc"]) && Chosen(st', ["abc"]) == None
            && st'.EntryOf(["ab"]) == WithAb(x).EntryOf(["ab"])
  {
    assert "abc"[..2] == "ab";
    ColonFreeTakesExactly(WithAb(x), "abc", Append, Item(t, []));
  }

  lemma PlainRaw(st: Store, v: Name, variant: Option<Text>)
    requires st.EntryOf(v).items == map[]
    ensures Raw(st, v, variant) == Base(st, v, variant)
  {
    var base := Base(st, v, variant);
    assert NewestFirst([]) == [] && (base.Some? ==> [] + base.value + [] == base.value);
  }

  /** With `abc` in OVERRIDES, appending to `abc` makes `ab` read as `abc` does. */
  lemma AppendOverridesOther(x: Text, t: Text)
    ensures Chosen(WithAb(x), ["ab"]) == None && Raw(WithAb(x), ["ab"], None) == Some(x)
    ensures var st' := Apply(WithAb(x), WAppend(["abc"], t));
            && Chosen(st', ["ab"]) == Some(["abc"]) && Chosen(st', ["abc"]) == None
            && Raw(st', ["abc"], None) == Some(t) && Raw(st', ["ab"], Some(t)) == Some(t)
  {
    var st := WithAb(x);
    AppendsToAbc();
    AppendIs(st, ["abc"], t);
    AbcTakesAb(x, t);
    OperationRaw(st, ["abc"], Append, Item(t, []), None);
    PlainRaw(st, ["abc"], None);
    PlainRaw(st, ["ab"], None);
    PlainRaw(AddItem(st, ["abc"], Append, Item(t, [])), ["ab"], Some(t));
    assert [] + t == t;
  }

  // ---- Deletion and flags ---------------------------------------------------------------------------

  lemma {:induction false} UnregisterKeeps(vs: Variants, name: Name, k: nat, v: Name)
    requires k < |name| && v !in vs
    ensures v !in UnregisterFrom(vs, name, k)
    decreases k
  {
    if k > 0 && OverrideStart(name[k]) {
      var owner := name[..k];
      var vs' := if owner in vs then vs[owner := RemoveFirst(vs[owner], Variant(name, name[k..]))] else vs;
      UnregisterKeeps(vs', name, k - 1, v);
    }
  }

  /** A deleted variable is unset, has no operations, no variants, and is no key. */
  lemma DelThenGet(st: Store, v: Name)
    ensures var st' := Datastore.DelVar(st, v);
            && Chosen(st', v) == None && Raw(st', v, None) == None && ActiveRemoves(st', v) == {} && v !in Keys(st')
  {
    if |v| > 1 {
      UnregisterKeeps(st.variants - {v}, v, |v| - 1, v);
    }
    assert NewestFirst([]) == [];
  }

  /** Flags: the written one reads back, a deleted one is gone, and the others and the value stay. */
  lemma FlagThenGet(st: Store, v: Name, f: string, value: Text, g: string, variant: Option<Text>)
    ensures var st' := Datastore.SetVarFlag(st, v, Other(f), value);
            && RawFlag(st', v, f) == Some(value) && (g != f ==> RawFlag(st', v, g) == RawFlag(st, v, g))
            && Chosen(st', v) == Chosen(st, v) && Raw(st', v, variant) == Raw(st, v, variant)
    ensures var st' := Datastore.DelVarFlag(st, v, Other(f));
            && RawFlag(st', v, f) == None && (g != f ==> RawFlag(st', v, g) == RawFlag(st, v, g))
            && Chosen(st', v) == Chosen(st, v) && Raw(st', v, variant) == Raw(st, v, variant)
  {
  }

  // ---- What a write leaves alone ----------------------------------------------------------------------

  /** The variable a write acts on. */
  function TargetName(name: Name): Name {
    match ParseTarget(name)
    case Operation(base, _, _) => base
    case Plain => name
  }

  function Written(w: Write): Name {
    match w
    case WSet(name, _) => TargetName(name)
    case WAppend(name, _) => TargetName(name + ["append"])
    case WPrepend(name, _) => TargetName(name + ["prepend"])
    case WDel(name) => name
    case WSetFlag(name, _, _) => name
    case WDelFlag(name, _) => name
  }

  lemma {:induction false} DelVarsFrame(st: Store, names: seq<Name>, u: Name)
    requires u !in names
    ensures DelVars(st, names).EntryOf(u) == st.EntryOf(u)
  {
    if names != [] {
      DelVarsFrame(st, names[..|names| - 1], u);
    }
  }

  /**
   A write changes the entry of one variable only, except that an assignment outside the parser also
   deletes the active variants of the variable.
   */
  lemma WriteKeepsOthers(st: Store, w: Write, u: Name)
    requires w.Legal() && u != Written(w)
    requires w.WSet? && w.name in st.variants ==> !IsActiveVariant(st.variants[w.name], st.overrides, u)
    ensures Apply(st, w).EntryOf(u) == st.EntryOf(u) && Apply(st, w).overrides == st.overrides
  {
    if w.WSet? && !OldSyntax(w.name) && ParseTarget(w.name) == Plain {
      var st1 := st.Put(w.name, st.EntryOf(w.name).(items := map[]));
      if w.name in st.variants {
        var names := ActiveNames(st.variants[w.name], st.overrides);
        ActiveNamesListed(st.variants[w.name], st.overrides);
        DelVarsFrame(st1, names, u);
        DelVarsOverrides(st1, names);
      }
    }
  }

  lemma {:induction false} DelVarsOverrides(st: Store, names: seq<Name>)
    ensures DelVars(st, names).overrides == st.overrides
  {
    if names != [] {
      DelVarsOverrides(st, names[..|names| - 1]);
    }
  }

  /** and each active variant really goes: it reads as unset afterwards. */
  lemma {:induction false} SetDropsVariants(st: Store, v: Name, value: Text, u: Name)
    requires ParseTarget(v) == Plain && v in st.variants && IsActiveVariant(st.variants[v], st.overrides, u) && u != v
    ensures SetVar(st, v, value, false).EntryOf(u) == EMPTY
  {
    var st1 := st.Put(v, st.EntryOf(v).(items := map[]));
    ActiveNamesListed(st.variants[v], st.overrides);
    DelVarsEmpties(st1, ActiveNames(st.variants[v], st.overrides), u);
  }

  lemma {:induction false} DelVarsEmpties(st: Store, names: seq<Name>, u: Name)
    requires u in names
    ensures DelVars(st, names).EntryOf(u) == EMPTY
  {
    var front := names[..|names| - 1];
    if u != names[|names| - 1] {
      assert u in front;
      DelVarsEmpties(st, front, u);
    }
  }
}
