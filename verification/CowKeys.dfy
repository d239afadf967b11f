/**
 Iterating over a copy-on-write dictionary: `dir` lists the attributes of the class and of all its bases, so a deleted
 key is listed as well, and a key with a plain value and a list comes twice.
 */
module CowKeys {
  import opened Prelude
  import opened CowDict

  /** An attribute of the class: a key, or the second name under which its list is stored. */
  datatype Attr = Own(key: string) | Mutable(key: string) {
    function Name(): string {
      if Own? then key else key + "__mutable__"
    }
  }

  /** Names with two leading underscores are skipped. */
  predicate Skipped(a: Attr) {
    "__" <= a.Name()
  }

  predicate HasAttr(c: Cow, a: Attr) {
    match a case Own(k) => k in c.plainKeys case Mutable(k) => k in c.listKeys
  }

  predicate Distinct(names: seq<Attr>) {
    names != [] ==> names[0] !in names[1..] && Distinct(names[1..])
  }

  /** What `dir` returns, in whatever order. */
  ghost predicate IsDir(c: Cow, names: seq<Attr>) {
    Distinct(names) && forall a :: a in names <==> HasAttr(c, a)
  }

  /** The keys that the attributes yield, and with each readable key its value. */
  function KeysIn(names: seq<Attr>): seq<string> {
    if names == [] then []
    else (if Skipped(names[0]) then [] else [names[0].key]) + KeysIn(names[1..])
  }

  function ItemsIn(names: seq<Attr>, d: map<string, Value>): seq<(string, Value)> {
    if names == [] then []
    else
      var k := names[0].key;
      (if Skipped(names[0]) || k !in d then [] else [(k, d[k])]) + ItemsIn(names[1..], d)
  }

  /** One attribute: unless it is read-only, the lookup copies an inherited list into the class. */
  method Visit(d: CowClass, a: Attr, readonly: bool) returns (keys: seq<string>, items: seq<(string, Value)>)
    requires d.Valid()
    modifies d
    ensures d.Valid() && fresh(d.Repr - old(d.Repr)) && fresh(d.lists.Values - old(d.lists.Values))
    ensures d.Abstract() == old(d.Abstract())
    ensures keys == KeysIn([a]) && items == ItemsIn([a], d.Abstract().contents)
  {
    keys, items := [], [];
    if Skipped(a) {
      return;
    }
    keys := [a.key];
    var value := LookUp(d, a.key, readonly);
    if value.Some? {
      items := [(a.key, value.value)];
    }
  }

  lemma OneMore(names: seq<Attr>, d: map<string, Value>, i: nat)
    requires i < |names|
    ensures KeysIn(names[..i + 1]) == KeysIn(names[..i]) + KeysIn([names[i]])
    ensures ItemsIn(names[..i + 1], d) == ItemsIn(names[..i], d) + ItemsIn([names[i]], d)
  {
    assert names[..i + 1] == names[..i] + [names[i]];
    KeysConcat(names[..i], [names[i]]);
    ItemsConcat(names[..i], [names[i]], d);
  }

  lemma {:induction false} KeysConcat(a: seq<Attr>, b: seq<Attr>)
    ensures KeysIn(a + b) == KeysIn(a) + KeysIn(b)
  {
    if a == [] {
      assert a + b == b;
    } else {
      assert (a + b)[1..] == a[1..] + b;
      KeysConcat(a[1..], b);
    }
  }

  lemma {:induction false} ItemsConcat(a: seq<Attr>, b: seq<Attr>, d: map<string, Value>)
    ensures ItemsIn(a + b, d) == ItemsIn(a, d) + ItemsIn(b, d)
  {
    if a == [] {
      assert a + b == b;
    } else {
      assert (a + b)[1..] == a[1..] + b;
      ItemsConcat(a[1..], b, d);
    }
  }

  /** `iter`, for the keys and for the items; it changes no reading. */
  method Iterate(d: CowClass, names: seq<Attr>, readonly: bool)
      returns (keys: seq<string>, items: seq<(string, Value)>)
    requires d.Valid() && IsDir(d.Abstract(), names)
    modifies d
    ensures d.Valid() && fresh(d.Repr - old(d.Repr)) && fresh(d.lists.Values - old(d.lists.Values))
    ensures d.Abstract() == old(d.Abstract())
    ensures keys == KeysIn(names) && items == ItemsIn(names, d.Abstract().contents)
  {
    keys, items := [], [];
    for i := 0 to |names|
      invariant d.Valid() && d.Abstract() == old(d.Abstract())
      invariant fresh(d.Repr - old(d.Repr)) && fresh(d.lists.Values - old(d.lists.Values))
      invariant keys == KeysIn(names[..i]) && items == ItemsIn(names[..i], old(d.Abstract()).contents)
    {
      OneMore(names, old(d.Abstract()).contents, i);
      var key, item := Visit(d, names[i], readonly);
      keys, items := keys + key, items + item;
    }
    assert names[..|names|] == names;
  }

  // ---- How often a key is listed -----------------------------------------------------------------

  function Once(b: bool): nat {
    if b then 1 else 0
  }

  /** How often iteration names `k`: once for each of its attributes that is not skipped. */
  function Times(names: seq<Attr>, k: string): nat {
    Once(Own(k) in names && !Skipped(Own(k))) + Once(Mutable(k) in names && !Skipped(Mutable(k)))
  }

  lemma {:induction false} KeyCount(names: seq<Attr>, k: string)
    requires Distinct(names)
    ensures multiset(KeysIn(names))[k] == Times(names, k)
  {
    if names != [] {
      KeyCount(names[1..], k);
      var first := if Skipped(names[0]) then [] else [names[0].key];
      assert multiset(KeysIn(names)) == multiset(first) + multiset(KeysIn(names[1..]));
      assert names[0] == Own(names[0].key) || names[0] == Mutable(names[0].key);
      assert forall a :: a in names <==> a == names[0] || a in names[1..];
    }
  }

  lemma {:induction false} ItemCount(names: seq<Attr>, d: map<string, Value>, k: string, v: Value)
    requires Distinct(names)
    ensures multiset(ItemsIn(names, d))[(k, v)] == if k in d && d[k] == v then Times(names, k) else 0
  {
    if names != [] {
      ItemCount(names[1..], d, k, v);
      var key := names[0].key;
      var first := if Skipped(names[0]) || key !in d then [] else [(key, d[key])];
      assert multiset(ItemsIn(names, d)) == multiset(first) + multiset(ItemsIn(names[1..], d));
      assert names[0] == Own(key) || names[0] == Mutable(key);
      assert forall a :: a in names <==> a == names[0] || a in names[1..];
    }
  }

  // ---- When iteration is that of an ordinary dictionary --------------------------------------------

  /** A key with two leading underscores. */
  predicate Hidden(k: string) {
    |k| >= 2 && k[0] == '_' && k[1] == '_'
  }

  /** A key that has two leading underscores only with the suffix of list names. */
  predicate Brief(k: string) {
    k == "" || k == "_"
  }

  /** Hidden keys are never listed, and the lists of brief ones are not. */
  lemma SkippedExactly(k: string)
    ensures Skipped(Own(k)) <==> Hidden(k)
    ensures Skipped(Mutable(k)) <==> Hidden(k) || Brief(k)
  {
    var name := Mutable(k).Name();
    assert name == k + "__mutable__" && |name| >= 2;
    assert |k| >= 2 ==> name[0] == k[0] && name[1] == k[1];
    if |k| == 1 {
      assert name[0] == k[0] && name[1] == '_';
      assert Brief(k) <==> k[0] == '_' by { assert k == [k[0]]; }
    }
  }

  /** Apart from hidden keys, the readable ones are listed, each once, and nothing else is. */
  ghost predicate KeysRight(c: Cow, names: seq<Attr>) {
    forall k :: multiset(KeysIn(names))[k] == Once(k in c.contents && !Hidden(k))
  }

  ghost predicate ItemsRight(c: Cow, names: seq<Attr>) {
    forall k, v :: multiset(ItemsIn(names, c.contents))[(k, v)]
                == Once(k in c.contents && c.contents[k] == v && !Hidden(k))
  }

  /** What holds of every dictionary: a readable key has an attribute, and a list is readable unless it is hidden. */
  ghost predicate Consistent(c: Cow) {
    && (forall k | k in c.contents :: k in c.plainKeys || k in c.listKeys)
    && (forall k | k in c.listKeys && k !in c.plainKeys :: k in c.contents)
  }

  /** How often iteration names a key: once for its plain value or deletion, and once for its list. */
  lemma ListedTimes(c: Cow, names: seq<Attr>, k: string)
    requires IsDir(c, names)
    ensures Times(names, k) == if Hidden(k) then 0 else Once(k in c.plainKeys) + Once(k in c.listKeys && !Brief(k))
  {
    SkippedExactly(k);
    assert HasAttr(c, Own(k)) <==> k in c.plainKeys;
    assert HasAttr(c, Mutable(k)) <==> k in c.listKeys;
  }

  /** The key has one attribute that is listed, and can be read. */
  predicate ListedRight(c: Cow, k: string) {
    if k in c.plainKeys then k in c.contents && (k in c.listKeys ==> Brief(k))
    else k in c.listKeys ==> !Brief(k)
  }

  /**
   The keys are listed right exactly if no deleted key is left behind, no key but the empty one and `_` has both a plain
   value and a list, and those two have no list alone.
   */
  lemma KeysExactly(c: Cow, names: seq<Attr>)
    requires Consistent(c) && IsDir(c, names)
    ensures KeysRight(c, names) <==> forall k | !Hidden(k) :: ListedRight(c, k)
  {
    forall k
      ensures multiset(KeysIn(names))[k]
           == if Hidden(k) then 0 else Once(k in c.plainKeys) + Once(k in c.listKeys && !Brief(k))
    {
      KeyCount(names, k);
      ListedTimes(c, names, k);
    }
    if KeysRight(c, names) {
      forall k | !Hidden(k) ensures ListedRight(c, k) {
        assert multiset(KeysIn(names))[k] == Once(k in c.contents && !Hidden(k));
      }
    }
  }

  /** The items show no deleted key; they are right exactly if the readable keys are listed right. */
  lemma ItemsExactly(c: Cow, names: seq<Attr>)
    requires Consistent(c) && IsDir(c, names)
    ensures ItemsRight(c, names) <==> forall k | !Hidden(k) && k in c.contents :: ListedRight(c, k)
  {
    forall k, v
      ensures multiset(ItemsIn(names, c.contents))[(k, v)]
           == if k !in c.contents || c.contents[k] != v || Hidden(k) then 0
              else Once(k in c.plainKeys) + Once(k in c.listKeys && !Brief(k))
    {
      ItemCount(names, c.contents, k, v);
      ListedTimes(c, names, k);
    }
    if ItemsRight(c, names) {
      forall k | !Hidden(k) && k in c.contents ensures ListedRight(c, k) {
        assert multiset(ItemsIn(names, c.contents))[(k, c.contents[k])] == 1;
      }
    }
  }

  // ---- Over runs -----------------------------------------------------------------------------------

  /** The keys that a run stores under their own name, and under the list's. */
  function PlainTouched(ops: seq<Op>): set<string> {
    set i | 0 <= i < |ops| && (ops[i].Set? || ops[i].Del?) :: ops[i].key
  }

  function ListTouched(ops: seq<Op>): set<string> {
    set i | 0 <= i < |ops| && ops[i].SetList? :: ops[i].key
  }

  predicate SetLater(ops: seq<Op>, i: nat, k: string) {
    exists j | i < j < |ops| :: ops[j].Set? && ops[j].key == k
  }

  predicate Undeleted(ops: seq<Op>, k: string) {
    forall i | 0 <= i < |ops| && ops[i] == Del(k) :: SetLater(ops, i, k)
  }

  lemma {:induction false} RunTouches(c: Cow, ops: seq<Op>)
    ensures Run(c, ops).plainKeys == c.plainKeys + PlainTouched(ops)
    ensures Run(c, ops).listKeys == c.listKeys + ListTouched(ops)
    ensures Consistent(c) ==> Consistent(Run(c, ops))
  {
    if ops != [] {
      var n := |ops| - 1;
      RunTouches(c, ops[..n]);
      TouchesSnoc(ops[..n], ops[n]);
      assert ops == ops[..n] + [ops[n]];
      assert Consistent(Run(c, ops[..n])) ==> Consistent(Apply(Run(c, ops[..n]), ops[n]));
    }
  }

  lemma TouchesSnoc(ops: seq<Op>, op: Op)
    ensures PlainTouched(ops + [op]) == PlainTouched(ops) + if op.Set? || op.Del? then {op.key} else {}
    ensures ListTouched(ops + [op]) == ListTouched(ops) + if op.SetList? then {op.key} else {}
  {
    var all := ops + [op];
    assert all[|ops|] == op && forall i | 0 <= i < |ops| :: all[i] == ops[i];
  }

  /** A deleted key that is not assigned again is not readable at the end. */
  lemma {:induction false} DeletionSticks(c: Cow, ops: seq<Op>, i: nat)
    requires i < |ops| && ops[i].Del? && !SetLater(ops, i, ops[i].key)
    ensures ops[i].key in Run(c, ops).plainKeys && ops[i].key !in Run(c, ops).contents
  {
    var n := |ops| - 1;
    if i < n {
      forall j | i < j < n ensures !(ops[..n][j].Set? && ops[..n][j].key == ops[i].key) {
        assert ops[..n][j] == ops[j];
      }
      DeletionSticks(c, ops[..n], i);
    }
  }

  /** A key that is assigned after its deletions is readable, if it has a plain value at all. */
  lemma {:induction false} AssignmentStays(c: Cow, ops: seq<Op>, k: string)
    requires (k in c.plainKeys ==> k in c.contents) && Undeleted(ops, k)
    ensures k in Run(c, ops).plainKeys ==> k in Run(c, ops).contents
  {
    if ops != [] {
      var n := |ops| - 1;
      if !(ops[n].Set? && ops[n].key == k) {
        forall i | 0 <= i < n && ops[..n][i] == Del(k) ensures SetLater(ops[..n], i, k) {
          assert SetLater(ops, i, k);
          var j :| i < j < |ops| && ops[j].Set? && ops[j].key == k;
          assert ops[..n][j] == ops[j];
        }
        AssignmentStays(c, ops[..n], k);
      }
    }
  }

  /** What the run must keep to for `k`. */
  ghost predicate KeyKept(c: Cow, ops: seq<Op>, k: string) {
    var plain, listed := k in c.plainKeys + PlainTouched(ops), k in c.listKeys + ListTouched(ops);
    if plain then Undeleted(ops, k) && (listed ==> Brief(k)) else listed ==> !Brief(k)
  }

  /**
   After a run on a dictionary whose keys are listed right, such as an empty one or a copy of one, they are listed right
   exactly if every deleted key is assigned again, no key is given both a plain value and a list, and the empty key and
   `_`, for which that does no harm, are not given a list alone.
   */
  lemma KeysAfterRun(c: Cow, names: seq<Attr>, ops: seq<Op>, after: seq<Attr>)
    requires Consistent(c) && IsDir(c, names) && KeysRight(c, names) && IsDir(Run(c, ops), after)
    ensures KeysRight(Run(c, ops), after) <==> forall k | !Hidden(k) :: KeyKept(c, ops, k)
  {
    RunTouches(c, ops);
    KeysExactly(c, names);
    KeysExactly(Run(c, ops), after);
    forall k | !Hidden(k) ensures KeyKept(c, ops, k) <==> ListedRight(Run(c, ops), k) {
      assert ListedRight(c, k);
      if k in c.plainKeys + PlainTouched(ops) {
        if Undeleted(ops, k) {
          AssignmentStays(c, ops, k);
        } else {
          var i :| 0 <= i < |ops| && ops[i] == Del(k) && !SetLater(ops, i, k);
          DeletionSticks(c, ops, i);
        }
      }
    }
  }

  /** The keys of a dictionary on the heap are those of its abstract value. */
  lemma AbstractConsistent(d: CowClass)
    requires d.Valid()
    ensures Consistent(d.Abstract())
  {
    forall k
      ensures k in d.Abstract().contents ==> k in d.Abstract().plainKeys || k in d.Abstract().listKeys
      ensures k in d.Abstract().listKeys && k !in d.Abstract().plainKeys ==> k in d.Abstract().contents
    {
      d.AbstractAt(k);
    }
  }
}
