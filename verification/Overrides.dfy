/**
 How `getVarFlag` picks the override variant that supplies a variable's value.

 `overridedata[var]` lists variants: the full variant name together with the override
 suffix that selects it.  `active` is a Python dict, so it is modelled with its order.
 */
module Overrides {
  import opened Prelude
  import opened Text

  datatype Variant = Variant(name: Name, suffix: Suffix)

  /** Every override of the suffix is in OVERRIDES; also the test for a conditional append. */
  predicate Active(suffix: Suffix, overrides: seq<string>) {
    forall c | c in suffix :: c in overrides
  }

  // ---- Insertion-ordered dictionaries ----------------------------------------------------

  predicate Distinct(keys: seq<Suffix>) {
    forall i, j | 0 <= i < j < |keys| :: keys[i] != keys[j]
  }

  function Without(keys: seq<Suffix>, k: Suffix): (r: seq<Suffix>)
    ensures forall x :: x in r <==> x in keys && x != k
    ensures Distinct(keys) ==> Distinct(r)
  {
    if keys == [] then []
    else
      var rest := Without(keys[1..], k);
      assert Distinct(keys) ==> keys[0] !in rest;
      if keys[0] == k then rest else [keys[0]] + rest
  }

  function Weight(keys: seq<Suffix>): nat {
    if keys == [] then 0 else |keys[0]| + Weight(keys[1..])
  }

  lemma {:induction false} WeightWithout(keys: seq<Suffix>, k: Suffix)
    requires Distinct(keys)
    ensures Weight(Without(keys, k)) == Weight(keys) - if k in keys then |k| else 0
  {
    if keys != [] {
      WeightWithout(keys[1..], k);
      var rest := Without(keys[1..], k);
      if keys[0] != k {
        assert ([keys[0]] + rest)[1..] == rest;
      }
    }
  }

  lemma {:induction false} WeightSnoc(keys: seq<Suffix>, k: Suffix)
    ensures Weight(keys + [k]) == Weight(keys) + |k|
  {
    if keys == [] {
      assert keys + [k] == [k];
    } else {
      WeightSnoc(keys[1..], k);
      assert (keys + [k])[1..] == keys[1..] + [k];
    }
  }

  datatype Dict = Dict(keys: seq<Suffix>, vals: map<Suffix, Name>) {

    predicate Valid() {
      && Distinct(keys)
      && (forall k | k in keys :: k in vals)
      && (forall k | k in vals :: k in keys)
    }

    function Put(k: Suffix, v: Name): (d: Dict)
      requires Valid()
      ensures d.Valid() && d.vals == vals[k := v]
      ensures Weight(d.keys) == Weight(keys) + if k in vals then 0 else |k|
    {
      WeightSnoc(keys, k);
      Dict(if k in vals then keys else keys + [k], vals[k := v])
    }

    function Remove(k: Suffix): (d: Dict)
      requires Valid()
      ensures d.Valid() && d.vals == vals - {k}
      ensures Weight(d.keys) == Weight(keys) - if k in vals then |k| else 0
    {
      WeightWithout(keys, k);
      Dict(Without(keys, k), vals - {k})
    }
  }

  // ---- The selection loops as functions --------------------------------------------------

  /** The state of the `while mod` loop. */
  datatype Selection = Selection(active: Dict, chosen: Option<Name>, mod: bool)

  function Collect(variants: seq<Variant>, overrides: seq<string>): (d: Dict)
    ensures d.Valid()
  {
    if variants == [] then Dict([], map[])
    else
      var d := Collect(variants[..|variants| - 1], overrides);
      var v := variants[|variants| - 1];
      if Active(v.suffix, overrides) then d.Put(v.suffix, v.name) else d
  }

  /** `a.replace(":" + o, "")`: every component equal to `o` but the first one goes. */
  function Strip(a: Suffix, o: string): (r: Suffix)
    requires a != []
    ensures r != [] && |r| <= |a| && r[0] == a[0]
    ensures forall c | c in r :: c in a
    ensures |a| > 1 && a[|a| - 1] == o ==> |r| < |a|
  {
    if |a| == 1 then a
    else
      var r := Strip(a[..|a| - 1], o);
      if a[|a| - 1] == o then r else r + [a[|a| - 1]]
  }

  /** The suffix ends in `o`: it is either stripped of `o` or, being just `o`, matched. */
  predicate EndsWith(a: Suffix, o: string) {
    a != [] && a[|a| - 1] == o
  }

  function Visit(s: Selection, a: Suffix, o: string): (r: Selection)
    requires s.active.Valid() && a in s.active.vals
    ensures r.active.Valid()
    ensures Weight(r.active.keys) <= Weight(s.active.keys)
    ensures r.mod ==> s.mod || Weight(r.active.keys) < Weight(s.active.keys)
  {
    if !EndsWith(a, o) then s
    else if |a| > 1 then
      Selection(s.active.Remove(a).Put(Strip(a, o), s.active.vals[a]), s.chosen, true)
    else Selection(s.active.Remove(a), Some(s.active.vals[a]), s.mod)
  }

  /** `for a in active.copy()`, over the keys still to be visited. */
  function Sweep(s: Selection, keys: seq<Suffix>, o: string): (r: Selection)
    requires s.active.Valid() && Distinct(keys) && forall a | a in keys :: a in s.active.vals
    ensures r.active.Valid()
    ensures Weight(r.active.keys) <= Weight(s.active.keys)
    ensures r.mod ==> s.mod || Weight(r.active.keys) < Weight(s.active.keys)
    decreases |keys|
  {
    if keys == [] then s else Sweep(Visit(s, keys[0], o), keys[1..], o)
  }

  /** `for o in self.overrides` */
  function Round(s: Selection, overrides: seq<string>): (r: Selection)
    requires s.active.Valid()
    ensures r.active.Valid()
    ensures Weight(r.active.keys) <= Weight(s.active.keys)
    ensures r.mod ==> s.mod || Weight(r.active.keys) < Weight(s.active.keys)
    decreases |overrides|
  {
    if overrides == [] then s
    else Round(Sweep(s, s.active.keys, overrides[0]), overrides[1..])
  }

  /** `while mod` */
  function Rounds(s: Selection, overrides: seq<string>): Selection
    requires s.active.Valid()
    decreases Weight(s.active.keys)
  {
    var r := Round(s.(mod := false), overrides);
    if r.mod then Rounds(r, overrides) else r
  }

  function Choose(variants: seq<Variant>, overrides: seq<string>): Option<Name> {
    Rounds(Selection(Collect(variants, overrides), None, true), overrides).chosen
  }

  // ---- The loops themselves --------------------------------------------------------------

  /** The override block of `getVarFlag`. */
  method SelectVariant(variants: seq<Variant>, overrides: seq<string>) returns (chosen: Option<Name>)
    ensures chosen == Choose(variants, overrides)
  {
    var active := Dict([], map[]);
    for i := 0 to |variants|
      invariant active == Collect(variants[..i], overrides)
    {
      assert variants[..i + 1][..i] == variants[..i];
      if Active(variants[i].suffix, overrides) {
        active := active.Put(variants[i].suffix, variants[i].name);
      }
    }
    assert variants[..|variants|] == variants;

    chosen := None;
    var mod := true;
    ghost var start := Selection(active, None, true);
    while mod
      invariant active.Valid()
      invariant mod ==> Rounds(Selection(active, chosen, true), overrides) == Rounds(start, overrides)
      invariant !mod ==> Rounds(start, overrides) == Selection(active, chosen, false)
      decreases mod, Weight(active.keys)
    {
      ghost var before := Selection(active, chosen, true);
      ghost var round := Round(before.(mod := false), overrides);
      mod := false;
      for i := 0 to |overrides|
        invariant active.Valid()
        invariant Round(Selection(active, chosen, mod), overrides[i..]) == round
      {
        assert overrides[i..][1..] == overrides[i + 1..];
        active, chosen, mod := SweepActive(active, chosen, mod, overrides[i]);
      }
      assert overrides[|overrides|..] == [];
    }
  }

  method SweepActive(active0: Dict, chosen0: Option<Name>, mod0: bool, o: string)
    returns (active: Dict, chosen: Option<Name>, mod: bool)
    requires active0.Valid()
    ensures Selection(active, chosen, mod) == Sweep(Selection(active0, chosen0, mod0), active0.keys, o)
  {
    active, chosen, mod := active0, chosen0, mod0;
    var keys := active.keys;
    for j := 0 to |keys|
      invariant active.Valid()
      invariant forall i | j <= i < |keys| :: keys[i] in active.vals
      invariant Distinct(keys[j..]) && forall a | a in keys[j..] :: a in active.vals
      invariant Sweep(Selection(active, chosen, mod), keys[j..], o)
             == Sweep(Selection(active0, chosen0, mod0), keys, o)
    {
      var a := keys[j];
      ghost var s := Selection(active, chosen, mod);
      assert keys[j..][0] == a && keys[j..][1..] == keys[j + 1..];
      if EndsWith(a, o) {
        var t := active.vals[a];
        active := active.Remove(a);
        if |a| > 1 {
          active := active.Put(Strip(a, o), t);
          mod := true;
        } else {
          chosen := Some(t);
        }
      }
      assert Selection(active, chosen, mod) == Visit(s, a, o);
    }
    assert keys[|keys|..] == [];
  }

  // ---- What the selection promises -------------------------------------------------------

  /** Suffixes as the datastore records them: non-empty, and every component is in OVERRIDES. */
  ghost predicate Suffixes(d: Dict, overrides: seq<string>) {
    d.Valid() && forall a | a in d.vals :: a != [] && Active(a, overrides)
  }

  /** Progress is never lost: some value was chosen, or there is still a candidate. */
  ghost predicate Pending(s: Selection) {
    s.chosen.Some? || s.active.vals != map[]
  }

  lemma {:induction false} SweepKeepsPending(s: Selection, keys: seq<Suffix>, o: string, overrides: seq<string>)
    requires Distinct(keys) && forall a | a in keys :: a in s.active.vals
    requires Suffixes(s.active, overrides) && Pending(s)
    ensures var r := Sweep(s, keys, o); Suffixes(r.active, overrides) && Pending(r)
    decreases |keys|
  {
    if keys != [] {
      var a := keys[0];
      var s' := Visit(s, a, o);
      if EndsWith(a, o) && |a| > 1 {
        assert Strip(a, o) in s'.active.vals;
      }
      SweepKeepsPending(s', keys[1..], o, overrides);
    }
  }

  /** A sweep that changed nothing structurally leaves only suffixes not ending in `o`. */
  lemma {:induction false} QuietSweep(s: Selection, keys: seq<Suffix>, o: string)
    requires s.active.Valid() && Distinct(keys) && forall a | a in keys :: a in s.active.vals
    requires !Sweep(s, keys, o).mod
    ensures !s.mod
    ensures forall a | a in Sweep(s, keys, o).active.vals :: a in s.active.vals && (a in keys ==> !EndsWith(a, o))
    decreases |keys|
  {
    if keys != [] {
      QuietSweep(Visit(s, keys[0], o), keys[1..], o);
    }
  }

  lemma {:induction false} QuietRound(s: Selection, overrides: seq<string>)
    requires s.active.Valid() && !Round(s, overrides).mod
    ensures !s.mod
    ensures forall a | a in Round(s, overrides).active.vals ::
              a in s.active.vals && forall o | o in overrides :: !EndsWith(a, o)
    decreases |overrides|
  {
    if overrides != [] {
      var s' := Sweep(s, s.active.keys, overrides[0]);
      QuietRound(s', overrides[1..]);
      QuietSweep(s, s.active.keys, overrides[0]);
    }
  }

  lemma {:induction false} RoundKeepsPending(s: Selection, overrides: seq<string>, all: seq<string>)
    requires Suffixes(s.active, all) && Pending(s)
    ensures var r := Round(s, overrides); Suffixes(r.active, all) && Pending(r)
    decreases |overrides|
  {
    if overrides != [] {
      SweepKeepsPending(s, s.active.keys, overrides[0], all);
      RoundKeepsPending(Sweep(s, s.active.keys, overrides[0]), overrides[1..], all);
    }
  }

  lemma {:induction false} RoundsChoose(s: Selection, overrides: seq<string>)
    requires Suffixes(s.active, overrides) && Pending(s)
    ensures Rounds(s, overrides).chosen.Some?
    decreases Weight(s.active.keys)
  {
    var r := Round(s.(mod := false), overrides);
    RoundKeepsPending(s.(mod := false), overrides, overrides);
    if r.mod {
      RoundsChoose(r, overrides);
    } else {
      QuietRound(s.(mod := false), overrides);
      assert forall a | a in r.active.vals :: a != [] && a[|a| - 1] in overrides && !EndsWith(a, a[|a| - 1]);
    }
  }

  /** Values only move between keys: what is chosen was a candidate. */
  lemma {:induction false} RoundValues(s: Selection, overrides: seq<string>, names: set<Name>)
    requires s.active.Valid() && s.active.vals.Values <= names
    requires s.chosen.Some? ==> s.chosen.value in names
    ensures var r := Round(s, overrides);
            r.active.vals.Values <= names && (r.chosen.Some? ==> r.chosen.value in names)
    decreases |overrides|
  {
    if overrides != [] {
      SweepValues(s, s.active.keys, overrides[0], names);
      RoundValues(Sweep(s, s.active.keys, overrides[0]), overrides[1..], names);
    }
  }

  lemma {:induction false} SweepValues(s: Selection, keys: seq<Suffix>, o: string, names: set<Name>)
    requires s.active.Valid() && Distinct(keys) && forall a | a in keys :: a in s.active.vals
    requires s.active.vals.Values <= names && (s.chosen.Some? ==> s.chosen.value in names)
    ensures var r := Sweep(s, keys, o);
            r.active.vals.Values <= names && (r.chosen.Some? ==> r.chosen.value in names)
    decreases |keys|
  {
    if keys != [] {
      SweepValues(Visit(s, keys[0], o), keys[1..], o, names);
    }
  }

  lemma {:induction false} RoundsValues(s: Selection, overrides: seq<string>, names: set<Name>)
    requires s.active.Valid() && s.active.vals.Values <= names
    requires s.chosen.Some? ==> s.chosen.value in names
    ensures var r := Rounds(s, overrides); r.chosen.Some? ==> r.chosen.value in names
    decreases Weight(s.active.keys)
  {
    RoundValues(s.(mod := false), overrides, names);
    var r := Round(s.(mod := false), overrides);
    if r.mod {
      RoundsValues(r, overrides, names);
    }
  }

  ghost predicate IsActiveVariant(variants: seq<Variant>, overrides: seq<string>, name: Name) {
    exists v :: v in variants && v.name == name && Active(v.suffix, overrides)
  }

  lemma {:induction false} CollectValues(variants: seq<Variant>, overrides: seq<string>)
    ensures var d := Collect(variants, overrides);
            forall a | a in d.vals :: Variant(d.vals[a], a) in variants && Active(a, overrides)
    ensures forall v | v in variants && Active(v.suffix, overrides) :: v.suffix in Collect(variants, overrides).vals
  {
    if variants != [] {
      var n := |variants| - 1;
      CollectValues(variants[..n], overrides);
      assert variants == variants[..n] + [variants[n]];
    }
  }

  /**
   The selection terminates (its loops are total functions), finds a variant exactly when
   some listed variant is active, and what it finds is an active variant.
   */
  lemma ChooseExact(variants: seq<Variant>, overrides: seq<string>)
    requires forall v | v in variants :: v.suffix != []
    ensures Choose(variants, overrides).Some? <==> exists v :: v in variants && Active(v.suffix, overrides)
    ensures var c := Choose(variants, overrides); c.Some? ==> IsActiveVariant(variants, overrides, c.value)
  {
    var d := Collect(variants, overrides);
    CollectValues(variants, overrides);
    var s := Selection(d, None, true);
    RoundsValues(s, overrides, d.vals.Values);
    var c := Choose(variants, overrides);
    if c.Some? {
      var a :| a in d.vals && d.vals[a] == c.value;
      assert IsActiveVariant(variants, overrides, c.value) by {
        assert Variant(c.value, a) in variants;
      }
    }
    if v :| v in variants && Active(v.suffix, overrides) {
      assert v.suffix in d.vals;
      RoundsChoose(s, overrides);
    }
  }

  // ---- One-component overrides: the last one in OVERRIDES order wins ------------------------

  ghost predicate FirstAt(overrides: seq<string>, i: int) {
    0 <= i < |overrides| && overrides[i] !in overrides[..i]
  }

  /** `name` belongs to the candidate whose override first occurs latest in OVERRIDES. */
  ghost predicate LatestFirst(vals: map<Suffix, Name>, overrides: seq<string>, i: int) {
    && FirstAt(overrides, i)
    && [overrides[i]] in vals
    && forall j | i < j < |overrides| && FirstAt(overrides, j) :: [overrides[j]] !in vals
  }

  ghost predicate OneLevel(d: Dict) {
    d.Valid() && forall a | a in d.vals :: |a| == 1
  }

  lemma VisitOneLevel(s: Selection, a: Suffix, o: string)
    requires OneLevel(s.active) && a in s.active.vals
    ensures a != [o] ==> Visit(s, a, o) == s
    ensures a == [o] ==> Visit(s, a, o) == Selection(s.active.Remove(a), Some(s.active.vals[a]), s.mod)
  {
    assert a == [a[0]];
  }

  lemma {:induction false} SweepOneLevel(s: Selection, keys: seq<Suffix>, o: string)
    requires OneLevel(s.active) && Distinct(keys) && forall a | a in keys :: a in s.active.vals
    ensures [o] in keys ==> Sweep(s, keys, o) == Selection(s.active.Remove([o]), Some(s.active.vals[[o]]), s.mod)
    ensures [o] !in keys ==> Sweep(s, keys, o) == s
    decreases |keys|
  {
    if keys != [] {
      var a, rest := keys[0], keys[1..];
      VisitOneLevel(s, a, o);
      SweepOneLevel(Visit(s, a, o), rest, o);
      assert [o] in keys <==> a == [o] || [o] in rest;
      assert a == [o] ==> [o] !in rest;
    }
  }

  /** One override of the round, on one-component candidates. */
  lemma RoundStep(s: Selection, overrides: seq<string>) returns (s': Selection)
    requires OneLevel(s.active) && overrides != []
    ensures OneLevel(s'.active) && Round(s, overrides) == Round(s', overrides[1..]) && s'.mod == s.mod
    ensures s'.active.vals == s.active.vals - {[overrides[0]]}
    ensures s'.chosen == if [overrides[0]] in s.active.vals then Some(s.active.vals[[overrides[0]]]) else s.chosen
  {
    var o := overrides[0];
    s' := if [o] in s.active.vals then Selection(s.active.Remove([o]), Some(s.active.vals[[o]]), s.mod) else s;
    SweepAll(s, o);
    RoundUnfold(s, overrides, s');
  }

  lemma SweepAll(s: Selection, o: string)
    requires OneLevel(s.active)
    ensures Sweep(s, s.active.keys, o)
         == if [o] in s.active.vals then Selection(s.active.Remove([o]), Some(s.active.vals[[o]]), s.mod) else s
  {
    SweepOneLevel(s, s.active.keys, o);
  }

  lemma RoundUnfold(s: Selection, overrides: seq<string>, s': Selection)
    requires s.active.Valid() && overrides != [] && s' == Sweep(s, s.active.keys, overrides[0])
    ensures Round(s, overrides) == Round(s', overrides[1..])
  {
  }

  lemma {:induction false} RoundMisses(s: Selection, overrides: seq<string>)
    requires OneLevel(s.active) && forall i | 0 <= i < |overrides| :: [overrides[i]] !in s.active.vals
    ensures Round(s, overrides).mod == s.mod && Round(s, overrides).chosen == s.chosen
    decreases |overrides|
  {
    if overrides != [] {
      var s' := RoundStep(s, overrides);
      forall i | 0 <= i < |overrides| - 1 ensures [overrides[1..][i]] !in s'.active.vals {
        assert overrides[1..][i] == overrides[i + 1];
      }
      RoundMisses(s', overrides[1..]);
    }
  }

  lemma {:induction false} RoundPicks(s: Selection, overrides: seq<string>, i: int)
    requires OneLevel(s.active) && LatestFirst(s.active.vals, overrides, i)
    ensures Round(s, overrides).mod == s.mod && Round(s, overrides).chosen == Some(s.active.vals[[overrides[i]]])
    decreases |overrides|
  {
    if i > 0 {
      LatestFirstTail(s.active.vals, overrides, i);
      var s' := RoundStep(s, overrides);
      assert overrides[1..][i - 1] == overrides[i];
      assert [overrides[i]] in s'.active.vals;
      RoundPicks(s', overrides[1..], i - 1);
    } else {
      RoundPicksFirst(s, overrides);
    }
  }

  lemma RoundPicksFirst(s: Selection, overrides: seq<string>)
    requires OneLevel(s.active) && LatestFirst(s.active.vals, overrides, 0)
    ensures Round(s, overrides).mod == s.mod && Round(s, overrides).chosen == Some(s.active.vals[[overrides[0]]])
  {
    NoneLater(s.active.vals, overrides);
    var s' := RoundStep(s, overrides);
    RoundMisses(s', overrides[1..]);
  }

  lemma FirstAtTail(overrides: seq<string>, j: int)
    requires 0 < j < |overrides|
    ensures FirstAt(overrides, j) <==> FirstAt(overrides[1..], j - 1) && overrides[j] != overrides[0]
  {
    assert overrides[..j] == [overrides[0]] + overrides[1..][..j - 1];
  }

  lemma LatestFirstTail(vals: map<Suffix, Name>, overrides: seq<string>, i: int)
    requires i > 0 && LatestFirst(vals, overrides, i)
    ensures LatestFirst(vals - {[overrides[0]]}, overrides[1..], i - 1)
  {
    FirstAtTail(overrides, i);
    assert [overrides[i]][0] != [overrides[0]][0];
    forall j | i - 1 < j < |overrides| - 1 && FirstAt(overrides[1..], j)
      ensures [overrides[1..][j]] !in vals - {[overrides[0]]}
    {
      FirstAtTail(overrides, j + 1);
    }
  }

  /** If nothing active first occurs after position 0, the rest of OVERRIDES matches nothing new. */
  lemma NoneLater(vals: map<Suffix, Name>, overrides: seq<string>)
    requires LatestFirst(vals, overrides, 0)
    ensures forall i | 0 <= i < |overrides| - 1 :: [overrides[1..][i]] !in vals - {[overrides[0]]}
  {
    forall i | 0 < i < |overrides| && [overrides[i]] in vals ensures overrides[i] == overrides[0] {
      var k := FirstIndex(overrides, i);
      assert k > 0 ==> !FirstAt(overrides, k);
    }
  }

  lemma {:induction false} FirstIndex(overrides: seq<string>, i: int) returns (k: int)
    requires 0 <= i < |overrides|
    ensures 0 <= k <= i && FirstAt(overrides, k) && overrides[k] == overrides[i]
  {
    k := i;
    if overrides[i] in overrides[..i] {
      var j :| 0 <= j < i && overrides[..i][j] == overrides[i];
      k := FirstIndex(overrides, j);
    }
  }

  /** All active candidates have one component. */
  predicate ActiveOneLevel(variants: seq<Variant>, overrides: seq<string>) {
    forall v | v in variants && Active(v.suffix, overrides) :: |v.suffix| == 1
  }

  ghost predicate Selects(variants: seq<Variant>, o: string) {
    exists v :: v in variants && v.suffix == [o]
  }

  /**
   With one-component overrides the loop takes the candidate whose override first occurs
   latest in OVERRIDES; without repetitions in OVERRIDES that is simply the last one.
   */
  lemma LastOverrideWins(variants: seq<Variant>, overrides: seq<string>, i: int)
    requires ActiveOneLevel(variants, overrides)
    requires FirstAt(overrides, i) && Selects(variants, overrides[i])
    requires forall j | i < j < |overrides| && FirstAt(overrides, j) :: !Selects(variants, overrides[j])
    ensures Choose(variants, overrides).Some?
    ensures Variant(Choose(variants, overrides).value, [overrides[i]]) in variants
  {
    CollectValues(variants, overrides);
    var d := Collect(variants, overrides);
    var s := Selection(d, None, true);
    assert OneLevel(d);
    assert LatestFirst(d.vals, overrides, i) by {
      var v :| v in variants && v.suffix == [overrides[i]];
      assert Active(v.suffix, overrides);
    }
    RoundPicks(s.(mod := false), overrides, i);
  }

  lemma {:induction false} LatestFirstExists(variants: seq<Variant>, overrides: seq<string>, j: int) returns (m: int)
    requires FirstAt(overrides, j) && Selects(variants, overrides[j])
    ensures j <= m < |overrides| && FirstAt(overrides, m) && Selects(variants, overrides[m])
    ensures forall k | m < k < |overrides| && FirstAt(overrides, k) :: !Selects(variants, overrides[k])
    decreases |overrides| - j
  {
    m := j;
    if k :| j < k < |overrides| && FirstAt(overrides, k) && Selects(variants, overrides[k]) {
      m := LatestFirstExists(variants, overrides, k);
    }
  }

  /**
   The last active entry of OVERRIDES wins iff no other active override makes its first
   appearance after that entry's own first appearance.
   */
  lemma LastWinsExactly(variants: seq<Variant>, overrides: seq<string>, i: int)
    requires ActiveOneLevel(variants, overrides)
    requires forall v, w | v in variants && w in variants && v.name == w.name :: v.suffix == w.suffix
    requires 0 <= i < |overrides| && Selects(variants, overrides[i])
    requires forall j | i < j < |overrides| :: !Selects(variants, overrides[j])
    ensures (Choose(variants, overrides).Some?
            && Variant(Choose(variants, overrides).value, [overrides[i]]) in variants)
       <==> forall j | FirstAt(overrides, j) && overrides[i] in overrides[..j] :: !Selects(variants, overrides[j])
  {
    var k := FirstIndex(overrides, i);
    assert forall j | k < j < |overrides| :: overrides[..j][k] == overrides[i];
    if j :| FirstAt(overrides, j) && overrides[i] in overrides[..j] && Selects(variants, overrides[j]) {
      var m := LatestFirstExists(variants, overrides, j);
      LastOverrideWins(variants, overrides, m);
      NotAgain(overrides, i, j, m);
      assert [overrides[m]][0] != [overrides[i]][0];
    } else {
      LastOverrideWins(variants, overrides, k);
    }
  }

  lemma NotAgain(overrides: seq<string>, i: int, j: int, m: int)
    requires 0 <= i < |overrides| && 0 <= j <= m < |overrides| && overrides[i] in overrides[..j]
             && FirstAt(overrides, m)
    ensures overrides[m] != overrides[i]
  {
    var k :| 0 <= k < j && overrides[..j][k] == overrides[i];
    assert overrides[..m][k] == overrides[i];
  }

  /** "Last in OVERRIDES order" fails when OVERRIDES repeats an entry: here `a` comes last, `b` is taken. */
  lemma RepeatedOverrideLoses()
    ensures Choose([Variant(["V", "a"], ["a"]), Variant(["V", "b"], ["b"])], ["a", "b", "a"]) == Some(["V", "b"])
  {
    var variants := [Variant(["V", "a"], ["a"]), Variant(["V", "b"], ["b"])];
    var overrides := ["a", "b", "a"];
    assert overrides[1] == "b" && FirstAt(overrides, 1);
    assert variants[1].suffix == [overrides[1]];
    assert overrides[..2][0] == overrides[2] && !FirstAt(overrides, 2);
    LastOverrideWins(variants, overrides, 1);
  }
}
