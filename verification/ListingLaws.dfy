/**
 Which variables list a variant: a write lists it under every owner that the name allows, a deletion takes it off
 each of them again, and what is chosen, and what is a key, follows the lists.
 */
module ListingLaws {
  import opened Prelude
  import opened Text
  import opened Overrides
  import opened Datastore
  import opened Evaluation
  import opened OverrideRanks
  import opened StoreLaws

  // ---- One list ----------------------------------------------------------------------------------

  /** `x` is first at `i`. */
  predicate FirstPlace<T(==)>(list: seq<T>, x: T, i: int) {
    0 <= i < |list| && list[i] == x && x !in list[..i]
  }

  /** The first occurrence goes, and the others keep their order. */
  lemma {:induction false} RemoveFirstIs<T>(list: seq<T>, x: T, i: int)
    requires FirstPlace(list, x, i)
    ensures RemoveFirst(list, x) == list[..i] + list[i + 1..]
  {
    if i > 0 {
      var rest := list[1..];
      assert list[0] == list[..i][0];
      assert rest[..i - 1] == list[1..i] && list[..i] == [list[0]] + rest[..i - 1];
      RemoveFirstIs(rest, x, i - 1);
    }
  }

  lemma {:induction false} RemoveFirstCounts<T>(list: seq<T>, x: T)
    ensures x !in list ==> RemoveFirst(list, x) == list
    ensures multiset(RemoveFirst(list, x)) == multiset(list) - multiset{x}
  {
    if list != [] {
      var rest := list[1..];
      RemoveFirstCounts(rest, x);
      assert list == [list[0]] + rest;
      assert multiset(list) == multiset{list[0]} + multiset(rest);
      if list[0] != x {
        assert RemoveFirst(list, x) == [list[0]] + RemoveFirst(rest, x);
        assert multiset(RemoveFirst(list, x)) == multiset{list[0]} + multiset(RemoveFirst(rest, x));
      }
    }
  }

  // ---- The owners ----------------------------------------------------------------------------------

  /**
   `owner` is the beginning of the name, and the rest consists of overrides. The empty name is an owner only of a name
   of two components.
   */
  predicate Owns(owner: Name, name: Name) {
    && |owner| < |name| && owner == name[..|owner|]
    && (forall j | |owner| <= j < |name| :: OverrideStart(name[j]))
    && (owner == [""] ==> |name| == 2)
  }

  /** The list of `owner`. */
  function ListOf(vs: Variants, owner: Name): seq<Variant> {
    if owner in vs then vs[owner] else []
  }

  /** What the name is to its owner. */
  function Listing(name: Name, owner: Name): Variant
    requires |owner| < |name|
  {
    Variant(name, name[|owner|..])
  }

  function Including(list: seq<Variant>, x: Variant): seq<Variant> {
    if x in list then list else list + [x]
  }

  /** The walk has come to the split position `k`. */
  predicate WalkAt(name: Name, k: nat) {
    && 0 < k < |name| && (forall j | k < j < |name| :: OverrideStart(name[j]))
    && (name[..k] == [""] ==> |name| == 2)
  }

  lemma WalkOn(name: Name, k: nat)
    requires WalkAt(name, k) && k > 1 && OverrideStart(name[k]) && name[..k - 1] != [""]
    ensures WalkAt(name, k - 1)
  {
  }

  /** Where the walk ends, there is no owner further up. */
  lemma WalkEnds(name: Name, k: nat, owner: Name)
    requires WalkAt(name, k) && (!OverrideStart(name[k]) || k == 1 || name[..k - 1] == [""])
    requires Owns(owner, name) && |owner| <= k
    ensures |owner| == k && OverrideStart(name[k])
  {
    if k > 1 && name[..k - 1] == [""] {
      assert k == 2 && name[0] == "";
    }
  }

  lemma OneOwner(name: Name, k: nat, owner: Name)
    requires WalkAt(name, k) && OverrideStart(name[k])
    ensures Owns(name[..k], name)
    ensures |owner| == k && Owns(owner, name) <==> owner == name[..k]
  {
  }

  /** The walk from `k` leftwards lists the name under its owners up to `k`, once each, at the end of their lists. */
  lemma {:induction false} RegisterFromIs(vs: Variants, name: Name, k: nat, owner: Name)
    requires WalkAt(name, k)
    ensures ListOf(RegisterFrom(vs, name, k), owner)
         == if Owns(owner, name) && |owner| <= k then Including(ListOf(vs, owner), Listing(name, owner))
            else ListOf(vs, owner)
    decreases k
  {
    if OverrideStart(name[k]) {
      OneOwner(name, k, owner);
      var vs' := AddVariant(vs, name[..k], Variant(name, name[k..]));
      if k > 1 && name[..k - 1] != [""] {
        WalkOn(name, k);
        RegisterFromIs(vs', name, k - 1, owner);
      } else if Owns(owner, name) && |owner| <= k {
        WalkEnds(name, k, owner);
      }
    } else if Owns(owner, name) && |owner| <= k {
      WalkEnds(name, k, owner);
    }
  }

  /** A write to a name of several components lists it under every owner it has, and under nobody else. */
  lemma RegisterExactly(vs: Variants, name: Name, owner: Name)
    requires |name| > 1
    ensures ListOf(Register(vs, name), owner)
         == if Owns(owner, name) then Including(ListOf(vs, owner), Listing(name, owner)) else ListOf(vs, owner)
  {
    RegisterFromIs(vs, name, |name| - 1, owner);
  }

  /** Which writes list a name: operations and the parser's assignments list their target, and so does a default. */
  lemma WritesList(st: Store, name: Name, value: Text, flag: Flag, owner: Name)
    requires |name| > 1 && ParseTarget(name) == Plain && !flag.Op?
    ensures var listed := if Owns(owner, name) then Including(ListOf(st.variants, owner), Listing(name, owner))
                          else ListOf(st.variants, owner);
            && ListOf(SetVar(st, name, value, true).variants, owner) == listed
            && (forall kw, item :: ListOf(AddItem(st, name, kw, item).variants, owner) == listed)
            && ListOf(SetVarFlag(st, name, flag, value).variants, owner)
               == if flag.DefaultVal? then listed else ListOf(st.variants, owner)
  {
    RegisterExactly(st.variants, name, owner);
  }

  const LETTERS := "abcdefghijklmnopqrstuvwxyz"
  const DIGITS := "0123456789"

  lemma LetterIs(ch: char)
    ensures ch in LETTERS <==> 'a' <= ch <= 'z'
  {
    if 'a' <= ch <= 'z' {
      assert LETTERS[ch as int - 'a' as int] == ch;
    }
  }

  lemma DigitIs(ch: char)
    ensures ch in DIGITS <==> '0' <= ch <= '9'
  {
    if '0' <= ch <= '9' {
      assert DIGITS[ch as int - '0' as int] == ch;
    }
  }

  /** An override starts with a lower-case letter or a digit. */
  lemma OverrideStartExactly(c: string)
    ensures OverrideStart(c) <==> c != "" && (c[0] in LETTERS || c[0] in DIGITS)
  {
    if c != "" {
      LetterIs(c[0]);
      DigitIs(c[0]);
    }
  }

  lemma {:induction false} UnregisterFromIs(vs: Variants, name: Name, k: nat, owner: Name)
    requires WalkAt(name, k)
    ensures ListOf(UnregisterFrom(vs, name, k), owner)
         == if Owns(owner, name) && |owner| <= k then RemoveFirst(ListOf(vs, owner), Listing(name, owner))
            else ListOf(vs, owner)
    decreases k
  {
    if OverrideStart(name[k]) {
      OneOwner(name, k, owner);
      var o := name[..k];
      var vs' := if o in vs then vs[o := RemoveFirst(vs[o], Variant(name, name[k..]))] else vs;
      if k > 1 && name[..k - 1] != [""] {
        WalkOn(name, k);
        UnregisterFromIs(vs', name, k - 1, owner);
      } else if Owns(owner, name) && |owner| <= k {
        WalkEnds(name, k, owner);
      }
    } else if Owns(owner, name) && |owner| <= k {
      WalkEnds(name, k, owner);
    }
  }

  /** Without the first occurrence of `x`, and otherwise in the old order. */
  ghost predicate TakenOff(list: seq<Variant>, x: Variant, list': seq<Variant>) {
    && multiset(list') == multiset(list) - multiset{x}
    && (x !in list ==> list' == list)
    && forall i | FirstPlace(list, x, i) :: list' == list[..i] + list[i + 1..]
  }

  lemma RemoveFirstTakesOff(list: seq<Variant>, x: Variant)
    ensures TakenOff(list, x, RemoveFirst(list, x))
  {
    RemoveFirstCounts(list, x);
    forall i | FirstPlace(list, x, i) ensures RemoveFirst(list, x) == list[..i] + list[i + 1..] {
      RemoveFirstIs(list, x, i);
    }
  }

  /** Deleting a name takes it off the list of every owner it has, changes no other list, and drops its own. */
  lemma DelVarExactly(st: Store, name: Name, owner: Name)
    ensures var list, list' := ListOf(st.variants, owner), ListOf(DelVar(st, name).variants, owner);
            if owner == name then list' == []
            else if Owns(owner, name) then TakenOff(list, Listing(name, owner), list')
            else list' == list
  {
    if |name| > 1 {
      UnregisterFromIs(st.variants - {name}, name, |name| - 1, owner);
      if Owns(owner, name) {
        RemoveFirstTakesOff(ListOf(st.variants, owner), Listing(name, owner));
      }
    }
  }

  // ---- What is chosen then ---------------------------------------------------------------------------

  lemma ChosenFrom(st: Store, v: Name)
    ensures Chosen(st, v) == Choose(ListOf(st.variants, v), st.overrides)
  {
    if v !in st.variants {
      NothingToChoose(st.overrides);
    }
  }

  lemma NothingToChoose(overrides: seq<string>)
    ensures Choose([], overrides) == None
  {
    NothingLeft(None, false, overrides);
  }

  /** Only `x` has its name in the list, and it is there once. */
  predicate ListedOnce(list: seq<Variant>, x: Variant) {
    multiset(list)[x] == 1 && forall y | y in list && y.name == x.name :: y == x
  }

  /** The choice after a deletion is that of the list without the variant; the variant, if listed once, is out. */
  lemma DeletedIsNotChosen(st: Store, name: Name, owner: Name)
    requires Owns(owner, name)
    ensures exists list :: TakenOff(ListOf(st.variants, owner), Listing(name, owner), list)
                           && Chosen(DelVar(st, name), owner) == Choose(list, st.overrides)
    ensures ListedOnce(ListOf(st.variants, owner), Listing(name, owner))
            && (forall x | x in ListOf(st.variants, owner) :: x.suffix != [])
            ==> Chosen(DelVar(st, name), owner) != Some(name)
  {
    DelVarExactly(st, name, owner);
    ChosenFrom(DelVar(st, name), owner);
    var list, list', x := ListOf(st.variants, owner), ListOf(DelVar(st, name).variants, owner), Listing(name, owner);
    DelVarOverrides(st, name);
    assert TakenOff(list, x, list');
    if ListedOnce(list, x) && forall y | y in list :: y.suffix != [] {
      forall y | y in list' ensures y in list && y != x {
        assert multiset(list')[y] > 0;
      }
      ChooseExact(list', st.overrides);
    }
  }

  lemma DelVarOverrides(st: Store, name: Name)
    ensures DelVar(st, name).overrides == st.overrides
  {
  }

  /** With OVERRIDES `a:b`, deleting `V:b` makes `V` take `V:a`. */
  lemma DeletionUncovers(st: Store, va: Variant, vb: Variant)
    requires st.overrides == ["a", "b"] && va == Variant(["V", "a"], ["a"]) && vb == Variant(["V", "b"], ["b"])
    requires ListOf(st.variants, ["V"]) == [va, vb]
    ensures Chosen(st, ["V"]) == Some(["V", "b"]) && Chosen(DelVar(st, ["V", "b"]), ["V"]) == Some(["V", "a"])
  {
    var name, owner: Name := ["V", "b"], ["V"];
    assert name[..1] == owner && name[1..] == ["b"] && name != owner;
    DelVarExactly(st, name, owner);
    assert va != vb by { assert va.suffix[0] != vb.suffix[0]; }
    assert FirstPlace([va, vb], vb, 1) && [va, vb][..1] + [va, vb][2..] == [va];
    ChosenFrom(st, owner);
    ChosenFrom(DelVar(st, name), owner);
    DelVarOverrides(st, name);
    TwoSingles(va, vb, st.overrides);
  }

  lemma TwoSingles(va: Variant, vb: Variant, overrides: seq<string>)
    requires overrides == ["a", "b"] && va.suffix == ["a"] && vb.suffix == ["b"] && va.name != vb.name
    ensures Choose([va, vb], overrides) == Some(vb.name) && Choose([va], overrides) == Some(va.name)
  {
    assert overrides[0] == "a" && overrides[1] == "b" && va.suffix[0] != vb.suffix[0];
    assert [va, vb][0] == va && [va, vb][1] == vb;
    LastOverrideWins([va, vb], overrides, 1);
    assert va in [va] && !Selects([va], overrides[1]);
    LastOverrideWins([va], overrides, 0);
  }

  // ---- What is a key --------------------------------------------------------------------------------

  /** A variable is a key iff it has an entry that is not empty, or a value through an active variant. */
  lemma KeysExactly(st: Store, v: Name)
    requires forall x | x in ListOf(st.variants, v) :: x.suffix != []
    ensures v in Keys(st) <==> !st.EntryOf(v).IsEmpty() || Chosen(st, v).Some?
  {
    ChosenFrom(st, v);
    ChooseExact(ListOf(st.variants, v), st.overrides);
  }

  // ---- The default value ------------------------------------------------------------------------------

  /** A default is the value of a variable that has neither text nor an active variant, and of no other. */
  lemma DefaultThenGet(st: Store, v: Name, value: Text, variant: Option<Text>)
    ensures var st' := SetVarFlag(st, v, DefaultVal, value);
            Base(st', v, variant)
            == if variant.Some? then variant else if st.EntryOf(v).content.Some? then st.EntryOf(v).content
               else Some(value)
  {
  }

  /** Read through the whole evaluation, if nothing else was written to the variable. */
  lemma PlainDefaultReadsBack(st: Store, v: Name, value: Text, n: nat)
    requires st.EntryOf(v).content == None && st.EntryOf(v).items == map[] && ListOf(st.variants, v) == []
    requires forall a | a in value :: a.Ch?
    ensures var r := Eval(n + 1, SetVarFlag(st, v, DefaultVal, value), true, true, Var(v));
            r.Success? && r.value.value == Some(value)
  {
    var st' := SetVarFlag(st, v, DefaultVal, value);
    if |v| > 1 {
      RegisterExactly(st.variants, v, v);
    }
    ChosenFrom(st', v);
    NothingToChoose(st.overrides);
    assert Raw(st', v, None) == Some(value) by {
      assert Join([]) == [] && NewestFirst([]) == [] && [] + value + [] == value;
    }
    EvalUnchosen(n, st', true, true, v);
    SubPlain(n, st', Some(Var(v)), value);
    assert ActiveRemoves(st', v) == {};
    FinishNothing(n, st', true, true, Some(value), Some(value));
  }
}
