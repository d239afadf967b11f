/**
 The copy-on-write dictionary.  A dictionary is a Python class; copying makes a subclass, lookup is
 attribute lookup along the bases.  Immutable values live under `key`, lists under a second name,
 and a list is copied into the subclass the first time it is handed out for writing.
 */
module CowDict {
  import opened Prelude

  /** A Python list, changed in place by whoever holds it. */
  class PyList {
    var items: seq<int>

    constructor (items: seq<int>)
      ensures this.items == items
    {
      this.items := items;
    }

    method Append(x: int)
      modifies this
      ensures items == old(items) + [x]
    {
      items := items + [x];
    }
  }

  /** An attribute stored under the key itself; `Deleted` is the class's marker. */
  datatype Plain = Immutable(v: int) | Deleted

  /** What a reader gets for a key. */
  datatype Value = Imm(v: int) | Lst(items: seq<int>)

  // ---- The dictionary as a value ---------------------------------------------------------

  /** The readable contents, and the keys with an attribute under their own name and under the list's. */
  datatype Cow = Cow(contents: map<string, Value>, plainKeys: set<string>, listKeys: set<string>)

  datatype Op =
    | Set(key: string, v: int)
    | SetList(key: string, xs: seq<int>)
    | Append(key: string, x: int)
    | Del(key: string)
    | Look(key: string, readonly: bool)

  /** The effect of one operation on a copy-on-write dictionary. */
  function Apply(c: Cow, op: Op): Cow {
    match op
    case Set(k, v) => c.(contents := c.contents[k := Imm(v)], plainKeys := c.plainKeys + {k})
    case Del(k) => c.(contents := c.contents - {k}, plainKeys := c.plainKeys + {k})
    case SetList(k, xs) =>
      c.(contents := if k in c.plainKeys then c.contents else c.contents[k := Lst(xs)], listKeys := c.listKeys + {k})
    case Append(k, x) =>
      if k in c.contents && c.contents[k].Lst? then c.(contents := c.contents[k := Lst(c.contents[k].items + [x])])
          else c
    case Look(_, _) => c
  }

  /** The same operation on an ordinary dictionary, such as an eager deep copy. */
  function ApplyDict(d: map<string, Value>, op: Op): map<string, Value> {
    match op
    case Set(k, v) => d[k := Imm(v)]
    case Del(k) => d - {k}
    case SetList(k, xs) => d[k := Lst(xs)]
    case Append(k, x) => if k in d && d[k].Lst? then d[k := Lst(d[k].items + [x])] else d
    case Look(_, _) => d
  }

  /** What an operation answers: a lookup the value or a KeyError, the others nothing. */
  function Answer(d: map<string, Value>, op: Op): Option<Value> {
    if op.Look? && op.key in d then Some(d[op.key]) else None
  }

  function Run(c: Cow, ops: seq<Op>): Cow {
    if ops == [] then c else Apply(Run(c, ops[..|ops| - 1]), ops[|ops| - 1])
  }

  function RunDict(d: map<string, Value>, ops: seq<Op>): map<string, Value> {
    if ops == [] then d else ApplyDict(RunDict(d, ops[..|ops| - 1]), ops[|ops| - 1])
  }

  /** What each operation of a run answers. */
  function Answers(c: Cow, ops: seq<Op>): seq<Option<Value>> {
    seq(|ops|, i requires 0 <= i < |ops| => Answer(Run(c, ops[..i]).contents, ops[i]))
  }

  function DictAnswers(d: map<string, Value>, ops: seq<Op>): seq<Option<Value>> {
    seq(|ops|, i requires 0 <= i < |ops| => Answer(RunDict(d, ops[..i]), ops[i]))
  }

  /** No list is stored under a key that has a plain value or was deleted. */
  ghost predicate KindsKept(c: Cow, ops: seq<Op>) {
    forall i | 0 <= i < |ops| && ops[i].SetList? :: ops[i].key !in Run(c, ops[..i]).plainKeys
  }

  /** After every step the run reads like the run on an eager deep copy. */
  ghost predicate LikeDeepCopy(c: Cow, ops: seq<Op>) {
    forall i | 0 <= i <= |ops| :: Run(c, ops[..i]).contents == RunDict(c.contents, ops[..i])
  }

  ghost predicate ListsUnhidden(c: Cow) {
    forall k | k in c.contents && c.contents[k].Lst? :: k !in c.plainKeys
  }

  lemma {:induction false} RunUnhidden(c: Cow, ops: seq<Op>)
    requires ListsUnhidden(c)
    ensures ListsUnhidden(Run(c, ops))
  {
    if ops != [] {
      RunUnhidden(c, ops[..|ops| - 1]);
    }
  }

  /** One list assignment acts as on an ordinary dictionary exactly when no plain attribute hides the key. */
  lemma SetListExact(c: Cow, k: string, xs: seq<int>)
    requires ListsUnhidden(c)
    ensures Apply(c, SetList(k, xs)).contents == ApplyDict(c.contents, SetList(k, xs)) <==> k !in c.plainKeys
  {
    assert k in c.plainKeys && k in c.contents ==> c.contents[k].Imm?;
    assert c.contents[k := Lst(xs)][k] == Lst(xs);
  }

  /** If every list assignment of a run is visible, the whole run reads like the run on an eager deep copy. */
  lemma {:induction false} RunLikeDeepCopy(c: Cow, ops: seq<Op>)
    requires KindsKept(c, ops)
    ensures Run(c, ops).contents == RunDict(c.contents, ops)
  {
    if ops != [] {
      var n := |ops| - 1;
      KindsKeptBefore(c, ops, n);
      RunLikeDeepCopy(c, ops[..n]);
    }
  }

  lemma KindsKeptBefore(c: Cow, ops: seq<Op>, n: nat)
    requires n <= |ops| && KindsKept(c, ops)
    ensures KindsKept(c, ops[..n])
  {
    forall i | 0 <= i < n ensures ops[..n][..i] == ops[..i] {}
  }

  /** A run reads like a run on a deep copy all along iff every list assignment is visible; then it answers alike. */
  lemma DeepCopyExactly(c: Cow, ops: seq<Op>)
    requires ListsUnhidden(c)
    ensures LikeDeepCopy(c, ops) <==> KindsKept(c, ops)
    ensures KindsKept(c, ops) ==> Answers(c, ops) == DictAnswers(c.contents, ops)
  {
    if KindsKept(c, ops) {
      forall i | 0 <= i <= |ops| ensures Run(c, ops[..i]).contents == RunDict(c.contents, ops[..i]) {
        KindsKeptBefore(c, ops, i);
        RunLikeDeepCopy(c, ops[..i]);
      }
    }
    if LikeDeepCopy(c, ops) {
      forall i | 0 <= i < |ops| && ops[i].SetList? ensures ops[i].key !in Run(c, ops[..i]).plainKeys {
        RunUnhidden(c, ops[..i]);
        SetListExact(Run(c, ops[..i]), ops[i].key, ops[i].xs);
        StepAlike(c, ops, i);
      }
    }
  }

  lemma StepAlike(c: Cow, ops: seq<Op>, i: nat)
    requires i < |ops| && LikeDeepCopy(c, ops)
    ensures Apply(Run(c, ops[..i]), ops[i]).contents == ApplyDict(Run(c, ops[..i]).contents, ops[i])
  {
    assert ops[..i + 1][..i] == ops[..i] && ops[..i + 1][i] == ops[i];
    assert Run(c, ops[..i + 1]).contents == RunDict(c.contents, ops[..i + 1]);
  }

  // ---- The classes -----------------------------------------------------------------------

  class CowClass {
    var plain: map<string, Plain>
    var lists: map<string, PyList>
    const base: CowClass?
    ghost var Repr: set<object>

    ghost predicate Valid()
      reads this, Repr
      decreases Repr
    {
      && this in Repr
      && (base != null ==> base in Repr && base.Repr < Repr && this !in base.Repr && base.Valid())
      && (forall k | k in lists :: lists[k] in Repr && lists[k] !in BaseRepr())
      && (forall j, k | j in lists && k in lists && j != k :: lists[j] != lists[k])
    }

    ghost function BaseRepr(): set<object>
      reads this, base
    {
      if base == null then {} else base.Repr
    }

    constructor ()
      ensures Valid() && fresh(Repr) && base == null && Abstract() == Cow(map[], {}, {})
    {
      plain, lists, base, Repr := map[], map[], null, {this};
    }

    constructor Sub(parent: CowClass)
      requires parent.Valid()
      ensures Valid() && base == parent && fresh(Repr - parent.Repr) && Abstract() == parent.Abstract()
    {
      plain, lists, base, Repr := map[], map[], parent, {this} + parent.Repr;
      new;
      forall k {
        parent.AbstractAt(k);
      }
      AbstractIs(parent.Abstract());
    }

    /** `getattr(cls, key)` */
    ghost function FindPlain(k: string): Option<Plain>
      requires Valid()
      reads this, Repr
      decreases Repr
    {
      if k in plain then Some(plain[k]) else if base == null then None else base.FindPlain(k)
    }

    /** `getattr(cls, key + MUTABLE)`, as the list's contents. */
    ghost function FindItems(k: string): Option<seq<int>>
      requires Valid()
      reads this, Repr
      decreases Repr
    {
      if k in lists then Some(lists[k].items) else if base == null then None else base.FindItems(k)
    }

    ghost function Names(): set<string>
      requires Valid()
      reads this, Repr
      decreases Repr
    {
      plain.Keys + lists.Keys + if base == null then {} else base.Names()
    }

    ghost function Get(k: string): Option<Value>
      requires Valid()
      reads this, Repr
    {
      match FindPlain(k)
      case Some(Immutable(v)) => Some(Imm(v))
      case Some(Deleted) => None
      case None => match FindItems(k) case Some(xs) => Some(Lst(xs)) case None => None
    }

    ghost function Abstract(): Cow
      requires Valid()
      reads this, Repr
    {
      Cow(map k | k in Names() && Get(k).Some? :: Get(k).value, set k | k in Names() && FindPlain(k).Some?,
          set k | k in Names() && FindItems(k).Some?)
    }

    lemma NamesCover(k: string)
      requires Valid()
      ensures FindPlain(k).Some? || FindItems(k).Some? ==> k in Names()
      decreases Repr
    {
      if base != null {
        base.NamesCover(k);
      }
    }

    /** The abstract dictionary, key by key. */
    lemma AbstractAt(k: string)
      requires Valid()
      ensures k in Abstract().contents <==> Get(k).Some?
      ensures k in Abstract().contents ==> Abstract().contents[k] == Get(k).value
      ensures k in Abstract().plainKeys <==> FindPlain(k).Some?
      ensures k in Abstract().listKeys <==> FindItems(k).Some?
    {
      NamesCover(k);
    }

    /** Two dictionaries that agree key by key are abstractly equal. */
    lemma AbstractIs(c: Cow)
      requires Valid()
      requires forall k :: (k in c.contents <==> Get(k).Some?) && (k in c.contents ==> c.contents[k] == Get(k).value)
      requires forall k :: k in c.plainKeys <==> FindPlain(k).Some?
      requires forall k :: k in c.listKeys <==> FindItems(k).Some?
      ensures Abstract() == c
    {
      forall k
        ensures k in Abstract().contents <==> k in c.contents
        ensures k in Abstract().plainKeys <==> k in c.plainKeys
        ensures k in Abstract().listKeys <==> k in c.listKeys
      {
        AbstractAt(k);
      }
      forall k | k in c.contents ensures Abstract().contents[k] == c.contents[k] {
        AbstractAt(k);
      }
      assert Abstract().contents == c.contents;
      assert Abstract().plainKeys == c.plainKeys && Abstract().listKeys == c.listKeys;
    }

    /** A list under a deleted or immutable key is never readable. */
    lemma Unhidden()
      requires Valid()
      ensures ListsUnhidden(Abstract())
    {
      forall k | k in Abstract().contents && Abstract().contents[k].Lst? ensures k !in Abstract().plainKeys {
        AbstractAt(k);
      }
    }

    // ---- Operations ------------------------------------------------------------------------

    /** `cow` / `copy`: nothing is copied yet. */
    method Copy() returns (c: CowClass)
      requires Valid()
      ensures c.Valid() && c.base == this && fresh(c) && fresh(c.Repr - Repr) && c.Abstract() == Abstract()
    {
      c := new CowClass.Sub(this);
    }

    /** `setattr(cls, key, p)` */
    method StorePlain(key: string, p: Plain)
      requires Valid()
      modifies this`plain
      ensures Valid() && FindPlain(key) == Some(p)
      ensures forall k | k != key :: FindPlain(k) == old(FindPlain(k))
      ensures forall k :: FindItems(k) == old(FindItems(k))
    {
      plain := plain[key := p];
    }

    /** `setattr(cls, key + MUTABLE, l)` */
    method StoreList(key: string, l: PyList)
      requires Valid() && l !in Repr
      modifies this`lists, this`Repr
      ensures Valid() && Repr == old(Repr) + {l} && lists == old(lists)[key := l]
      ensures FindItems(key) == Some(l.items)
      ensures forall k | k != key :: FindItems(k) == old(FindItems(k))
      ensures forall k :: FindPlain(k) == old(FindPlain(k))
    {
      lists := lists[key := l];
      Repr := Repr + {l};
    }

    method SetPlain(key: string, p: Plain)
      requires Valid()
      modifies this
      ensures Valid() && Repr == old(Repr) && lists == old(lists)
      ensures Abstract() == Apply(old(Abstract()), match p case Immutable(v) => Set(key, v) case Deleted => Del(key))
    {
      ghost var was := Abstract();
      forall k {
        AbstractAt(k);
      }
      StorePlain(key, p);
      AbstractIs(Apply(was, match p case Immutable(v) => Set(key, v) case Deleted => Del(key)));
    }

    /** `__setitem__` with an immutable value. */
    method SetItem(key: string, v: int)
      requires Valid()
      modifies this
      ensures Valid() && Repr == old(Repr) && lists == old(lists)
      ensures Abstract() == Apply(old(Abstract()), Set(key, v))
    {
      SetPlain(key, Immutable(v));
    }

    /** `__delitem__`: the marker is itself an immutable value. */
    method DelItem(key: string)
      requires Valid()
      modifies this
      ensures Valid() && Repr == old(Repr) && lists == old(lists)
      ensures Abstract() == Apply(old(Abstract()), Del(key))
    {
      SetPlain(key, Deleted);
    }

    /** `__setitem__` with a list the dictionary does not hold yet. */
    method SetListItem(key: string, l: PyList)
      requires Valid() && l !in Repr
      modifies this
      ensures Valid() && Repr == old(Repr) + {l} && lists == old(lists)[key := l]
      ensures Abstract() == Apply(old(Abstract()), SetList(key, l.items))
    {
      ghost var was := Abstract();
      forall k {
        AbstractAt(k);
      }
      StoreList(key, l);
      AbstractIs(Apply(was, SetList(key, l.items)));
    }

    /** Attribute lookup of the plain name. */
    method GetAttr(key: string) returns (r: Option<Plain>)
      requires Valid()
      ensures r == FindPlain(key)
    {
      var cls: CowClass? := this;
      while cls != null
        invariant cls != null ==> cls.Valid() && cls.Repr <= Repr && FindPlain(key) == cls.FindPlain(key)
        invariant cls == null ==> FindPlain(key) == None
        decreases if cls == null then {} else cls.Repr
      {
        if key in cls.plain {
          return Some(cls.plain[key]);
        }
        cls := cls.base;
      }
      r := None;
    }

    /** Attribute lookup of the list's name, starting above this class. */
    method GetInherited(key: string) returns (r: Option<PyList>)
      requires Valid() && key !in lists
      ensures r.None? <==> FindItems(key).None?
      ensures r.Some? ==> r.value in BaseRepr() && FindItems(key) == Some(r.value.items)
    {
      var cls: CowClass? := base;
      while cls != null
        invariant cls != null ==> cls.Valid() && cls.Repr <= BaseRepr() && FindItems(key) == cls.FindItems(key)
        invariant cls == null ==> FindItems(key) == None
        decreases if cls == null then {} else cls.Repr
      {
        if key in cls.lists {
          return Some(cls.lists[key]);
        }
        cls := cls.base;
      }
      r := None;
    }

    /** `__getmutable__`: an inherited list is copied into this class before it is handed out. */
    method GetMutable(key: string, readonly: bool) returns (r: Option<PyList>)
      requires Valid()
      modifies this
      ensures Valid() && fresh(Repr - old(Repr)) && Repr >= old(Repr)
      ensures Abstract() == old(Abstract()) && FindPlain(key) == old(FindPlain(key))
      ensures r.None? <==> FindItems(key).None?
      ensures r.Some? ==> FindItems(key) == Some(r.value.items)
      ensures r.Some? && !readonly ==> key in lists && lists[key] == r.value
      ensures fresh(lists.Values - old(lists.Values))
    {
      if key in lists {
        return Some(lists[key]);
      }
      r := GetInherited(key);
      if r.None? || readonly {
        return;
      }
      var copy := OwnCopy(key, r.value);
      r := Some(copy);
    }

    /** The copy of an inherited list becomes the class's own. */
    method OwnCopy(key: string, l: PyList) returns (copy: PyList)
      requires Valid() && key !in lists && FindItems(key) == Some(l.items)
      modifies this`lists, this`Repr
      ensures Valid() && fresh(copy) && Repr == old(Repr) + {copy} && lists == old(lists)[key := copy]
      ensures copy.items == l.items && Abstract() == old(Abstract()) && FindItems(key) == Some(copy.items)
      ensures FindPlain(key) == old(FindPlain(key))
    {
      ghost var was := Abstract();
      forall k {
        AbstractAt(k);
      }
      copy := new PyList(l.items);
      StoreList(key, copy);
      AbstractIs(was);
    }

    /** `__getitem__`; `None` is a KeyError. */
    method GetItem(key: string, readonly: bool) returns (v: Option<int>, l: Option<PyList>)
      requires Valid()
      modifies this
      ensures Valid() && fresh(Repr - old(Repr)) && Repr >= old(Repr) && Abstract() == old(Abstract())
      ensures fresh(lists.Values - old(lists.Values))
      ensures Get(key) == if v.Some? then Some(Imm(v.value)) else if l.Some? then Some(Lst(l.value.items)) else None
      ensures l.Some? ==> FindPlain(key).None?
      ensures l.Some? && !readonly ==> key in lists && lists[key] == l.value
    {
      v, l := None, None;
      var p := GetAttr(key);
      match p
      case Some(Immutable(x)) => v := Some(x);
      case Some(Deleted) =>
      case None => l := GetMutable(key, readonly);
    }

    /** `d[key].append(x)`; false when there is no list to append to. */
    method AppendTo(key: string, x: int) returns (ok: bool)
      requires Valid()
      modifies this, lists.Values
      ensures Valid() && fresh(Repr - old(Repr)) && Repr >= old(Repr)
      ensures fresh(lists.Values - old(lists.Values))
      ensures Abstract() == Apply(old(Abstract()), Append(key, x))
      ensures ok <==> key in old(Abstract()).contents && old(Abstract()).contents[key].Lst?
    {
      AbstractAt(key);
      var _, l := GetItem(key, false);
      ok := l.Some?;
      if ok {
        AppendOwn(key, x);
      }
    }

    method AppendOwn(key: string, x: int)
      requires Valid() && key in lists && FindPlain(key).None?
      modifies lists[key]
      ensures Valid() && Abstract() == Apply(old(Abstract()), Append(key, x))
    {
      ghost var was := Abstract();
      forall k {
        AbstractAt(k);
      }
      lists[key].Append(x);
      assert Valid();
      assert forall k :: FindPlain(k) == old(FindPlain(k));
      assert forall k :: FindItems(k) == if k == key then Some(lists[key].items) else old(FindItems(k));
      AbstractIs(Apply(was, Append(key, x)));
    }
  }

  // ---- Runs on a copy ----------------------------------------------------------------------

  method Perform(d: CowClass, op: Op) returns (answer: Option<Value>)
    requires d.Valid()
    modifies d, d.lists.Values
    ensures d.Valid() && fresh(d.Repr - old(d.Repr)) && fresh(d.lists.Values - old(d.lists.Values))
    ensures d.Abstract() == Apply(old(d.Abstract()), op) && answer == Answer(old(d.Abstract()).contents, op)
  {
    answer := None;
    match op
    case Set(k, v) => d.SetItem(k, v);
    case SetList(k, xs) =>
      var l := new PyList(xs);
      d.SetListItem(k, l);
    case Append(k, x) => var _ := d.AppendTo(k, x);
    case Del(k) => d.DelItem(k);
    case Look(k, readonly) => answer := LookUp(d, k, readonly);
  }

  method LookUp(d: CowClass, key: string, readonly: bool) returns (answer: Option<Value>)
    requires d.Valid()
    modifies d
    ensures d.Valid() && fresh(d.Repr - old(d.Repr)) && fresh(d.lists.Values - old(d.lists.Values))
    ensures d.Abstract() == old(d.Abstract()) && answer == Answer(d.Abstract().contents, Look(key, readonly))
    ensures answer == old(d.Get(key))
  {
    d.AbstractAt(key);
    var v, l := d.GetItem(key, readonly);
    answer := if v.Some? then Some(Imm(v.value)) else if l.Some? then Some(Lst(l.value.items)) else None;
    d.AbstractAt(key);
  }

  /**
   Any run of sets, deletes, in-place appends and lookups on a copy: the copied dictionary, all its ancestors and all
   their lists stay as they were, and the copy reads and answers as the run says.
   */
  method RunOnCopy(d: CowClass, ops: seq<Op>) returns (c: CowClass, answers: seq<Option<Value>>)
    requires d.Valid()
    ensures d.Valid() && d.Abstract() == old(d.Abstract())
    ensures fresh(c) && c.Valid() && c.Abstract() == Run(d.Abstract(), ops) && answers == Answers(d.Abstract(), ops)
    ensures KindsKept(d.Abstract(), ops) <==> LikeDeepCopy(d.Abstract(), ops)
    ensures KindsKept(d.Abstract(), ops) ==>
              c.Abstract().contents == RunDict(d.Abstract().contents, ops)
              && answers == DictAnswers(d.Abstract().contents, ops)
  {
    c := d.Copy();
    answers := [];
    ghost var start := d.Abstract();
    for i := 0 to |ops|
      invariant fresh(c) && fresh(c.lists.Values) && c.Valid()
      invariant c.Abstract() == Run(start, ops[..i]) && answers == Answers(start, ops[..i])
    {
      AnswersSnoc(start, ops, i);
      var answer := Perform(c, ops[i]);
      answers := answers + [answer];
    }
    assert ops[..|ops|] == ops;
    d.Unhidden();
    DeepCopyExactly(start, ops);
    if KindsKept(start, ops) {
      RunLikeDeepCopy(start, ops);
    }
  }

  lemma AnswersSnoc(c: Cow, ops: seq<Op>, i: nat)
    requires i < |ops|
    ensures Run(c, ops[..i + 1]) == Apply(Run(c, ops[..i]), ops[i])
    ensures Answers(c, ops[..i + 1]) == Answers(c, ops[..i]) + [Answer(Run(c, ops[..i]).contents, ops[i])]
  {
    var now, more := ops[..i], ops[..i + 1];
    assert more[..i] == now;
    forall j | 0 <= j < i ensures more[..j] == now[..j] && more[j] == now[j] {}
  }
}
