/**
 Layer priorities: explicit ones are kept, every other layer gets one more than the highest of
 its dependencies, computed by a recursion that writes its results into a shared table.
 */
module LayerPriority {
  import opened Prelude

  type Layer = string

  /** The enabled layers: explicit priorities (if set) and dependencies. */
  datatype Layers = Layers(explicit: map<Layer, Option<int>>, depends: map<Layer, seq<Layer>>) {

    /** Both tables cover the same layers, and dependencies are enabled layers. */
    ghost predicate Closed() {
      && explicit.Keys == depends.Keys
      && forall c | c in depends :: forall d | d in depends[c] :: d in depends
    }

    /** Dependencies have lower rank. */
    ghost predicate Acyclic(rank: Layer -> nat) {
      forall c | c in depends :: forall d | d in depends[c] :: rank(d) < rank(c)
    }

    /** A priority of 0 counts as unset. */
    predicate IsSet(c: Layer)
      requires c in explicit
    {
      explicit[c].Some? && explicit[c].value != 0
    }
  }

  // ---- The lowest explicit priority --------------------------------------------------------

  /** The loop over the collection list that computes `min_prio`. */
  function MinPrio(list: seq<Layer>, explicit: map<Layer, Option<int>>): int
    requires forall c | c in list :: c in explicit
  {
    if list == [] then 0
    else
      var m := MinPrio(list[..|list| - 1], explicit);
      match explicit[list[|list| - 1]]
      case None => m
      case Some(p) => if m == 0 || p < m then p else m
  }

  method MinimumPriority(list: seq<Layer>, explicit: map<Layer, Option<int>>) returns (min: int)
    requires forall c | c in list :: c in explicit
    ensures min == MinPrio(list, explicit)
  {
    min := 0;
    for i := 0 to |list|
      invariant min == MinPrio(list[..i], explicit)
    {
      assert list[..i + 1][..i] == list[..i];
      if explicit[list[i]].Some? {
        var prio := explicit[list[i]].value;
        if min == 0 || prio < min {
          min := prio;
        }
      }
    }
    assert list[..|list|] == list;
  }

  /** Some layer of the list has the explicit priority `v`. */
  ghost predicate Sets(list: seq<Layer>, explicit: map<Layer, Option<int>>, v: int)
    requires forall c | c in list :: c in explicit
  {
    exists c | c in list :: explicit[c] == Some(v)
  }

  ghost predicate SetsNegative(list: seq<Layer>, explicit: map<Layer, Option<int>>)
    requires forall c | c in list :: c in explicit
  {
    exists c | c in list :: explicit[c].Some? && explicit[c].value < 0
  }

  ghost predicate SetsPositive(list: seq<Layer>, explicit: map<Layer, Option<int>>)
    requires forall c | c in list :: c in explicit
  {
    exists c | c in list :: explicit[c].Some? && explicit[c].value > 0
  }

  /** Some explicit priority is 0, some is positive and none is negative. */
  ghost predicate Ambiguous(list: seq<Layer>, explicit: map<Layer, Option<int>>)
    requires forall c | c in list :: c in explicit
  {
    Sets(list, explicit, 0) && SetsPositive(list, explicit) && !SetsNegative(list, explicit)
  }

  /**
   With a negative priority it is the least one. Otherwise it is 0 or an explicit one, and without an
   explicit 0 it is the least of them, or 0 if there is none.
   */
  lemma {:induction false} MinPrioIsMinimum(list: seq<Layer>, explicit: map<Layer, Option<int>>)
    requires forall c | c in list :: c in explicit
    ensures var m := MinPrio(list, explicit);
            && (m != 0 ==> Sets(list, explicit, m))
            && (SetsNegative(list, explicit) <==> m < 0)
            && (m < 0 || !Sets(list, explicit, 0) ==>
               forall c | c in list && explicit[c].Some? :: m != 0 && m <= explicit[c].value)
  {
    if list != [] {
      var front, last := list[..|list| - 1], list[|list| - 1];
      assert list == front + [last];
      MinPrioIsMinimum(front, explicit);
      assert forall c :: c in list <==> c in front || c == last;
      assert forall v :: Sets(list, explicit, v) <==> Sets(front, explicit, v) || explicit[last] == Some(v);
      assert SetsNegative(list, explicit) <==>
             SetsNegative(front, explicit) || (explicit[last].Some? && explicit[last].value < 0);
    }
  }

  /** The same layers in another order. */
  ghost predicate Reorders(xs: seq<Layer>, ys: seq<Layer>) {
    multiset(xs) == multiset(ys) && forall c :: c in xs <==> c in ys
  }

  lemma MinPrioOrderIrrelevant(xs: seq<Layer>, ys: seq<Layer>, explicit: map<Layer, Option<int>>)
    requires forall c | c in xs :: c in explicit
    requires !Ambiguous(xs, explicit) && forall c :: c in xs <==> c in ys
    ensures MinPrio(xs, explicit) == MinPrio(ys, explicit)
  {
    MinPrioIsMinimum(xs, explicit);
    MinPrioIsMinimum(ys, explicit);
    assert SetsNegative(xs, explicit) <==> SetsNegative(ys, explicit);
    assert Sets(xs, explicit, 0) <==> Sets(ys, explicit, 0);
  }

  /** The list with the first `c` moved to its end. */
  function MoveLast(list: seq<Layer>, c: Layer): (r: seq<Layer>)
    requires c in list
    ensures multiset(r) == multiset(list) && r != [] && r[|r| - 1] == c
  {
    if list[0] == c then
      assert list == [c] + list[1..];
      list[1..] + [c]
    else
      assert list == [list[0]] + list[1..];
      [list[0]] + MoveLast(list[1..], c)
  }

  lemma SameMembers(xs: seq<Layer>, ys: seq<Layer>)
    requires multiset(xs) == multiset(ys)
    ensures Reorders(xs, ys)
  {
    forall c ensures c in xs <==> c in ys {
      assert c in xs <==> c in multiset(xs);
      assert c in ys <==> c in multiset(ys);
    }
  }

  lemma MovedLast(list: seq<Layer>, c: Layer)
    requires c in list
    ensures Reorders(list, MoveLast(list, c))
  {
    SameMembers(list, MoveLast(list, c));
  }

  /** With an explicit 0 last the minimum is 0; with a positive one behind that, it is that one. */
  lemma LastDecides(list: seq<Layer>, explicit: map<Layer, Option<int>>)
    requires (forall c | c in list :: c in explicit) && !SetsNegative(list, explicit) && list != []
    ensures var last, front := explicit[list[|list| - 1]], list[..|list| - 1];
            && (forall c | c in front :: c in explicit)
            && (last == Some(0) ==> MinPrio(list, explicit) == 0)
            && (last.Some? && last.value > 0 ==> MinPrio(list, explicit) > 0)
            && (last.Some? && last.value > 0 && MinPrio(front, explicit) == 0 ==> MinPrio(list, explicit) == last.value)
  {
    var front := list[..|list| - 1];
    assert forall c | c in front :: c in list;
    assert !SetsNegative(front, explicit);
    MinPrioIsMinimum(front, explicit);
  }

  /** Two orders of the list can give different minima exactly if the explicit priorities are ambiguous. */
  lemma MinPrioOrderExactly(xs: seq<Layer>, explicit: map<Layer, Option<int>>)
    requires forall c | c in xs :: c in explicit
    ensures (forall ys | Reorders(xs, ys) :: MinPrio(ys, explicit) == MinPrio(xs, explicit)) <==>
            !Ambiguous(xs, explicit)
  {
    if Ambiguous(xs, explicit) {
      var z :| z in xs && explicit[z] == Some(0);
      var p :| p in xs && explicit[p].Some? && explicit[p].value > 0;
      MovedLast(xs, z);
      MovedLast(xs, p);
      assert !SetsNegative(MoveLast(xs, z), explicit) && !SetsNegative(MoveLast(xs, p), explicit);
      LastDecides(MoveLast(xs, z), explicit);
      LastDecides(MoveLast(xs, p), explicit);
    } else {
      forall ys | Reorders(xs, ys) ensures MinPrio(ys, explicit) == MinPrio(xs, explicit) {
        MinPrioOrderIrrelevant(xs, ys, explicit);
      }
    }
  }

  // ---- What the priorities must be ---------------------------------------------------------

  function MaxOver(min: int, deps: seq<Layer>, p: map<Layer, int>): (m: int)
    requires forall d | d in deps :: d in p
    ensures m >= min && (forall d | d in deps :: m >= p[d])
    ensures m == min || exists d :: d in deps && m == p[d]
  {
    if deps == [] then min
    else
      var m := MaxOver(min, deps[..|deps| - 1], p);
      var d := deps[|deps| - 1];
      assert deps == deps[..|deps| - 1] + [d];
      if p[d] > m then p[d] else m
  }

  /** Every explicit priority is kept; every other is one above its dependencies' and the minimum. */
  ghost predicate Solves(ls: Layers, min: int, p: map<Layer, int>)
    requires ls.Closed()
  {
    p.Keys == ls.depends.Keys && forall c | c in p ::
      p[c] == if ls.IsSet(c) then ls.explicit[c].value else 1 + MaxOver(min, ls.depends[c], p)
  }

  lemma {:induction false} MaxOverSame(min: int, deps: seq<Layer>, p: map<Layer, int>, q: map<Layer, int>)
    requires forall d | d in deps :: d in p && d in q && p[d] == q[d]
    ensures MaxOver(min, deps, p) == MaxOver(min, deps, q)
  {
    if deps != [] {
      MaxOverSame(min, deps[..|deps| - 1], p, q);
    }
  }

  lemma {:induction false} SolutionUnique(ls: Layers, rank: Layer -> nat, min: int, p: map<Layer, int>,
                                          q: map<Layer, int>, c: Layer)
    requires ls.Closed() && ls.Acyclic(rank) && Solves(ls, min, p) && Solves(ls, min, q) && c in ls.depends
    ensures p[c] == q[c]
    decreases rank(c)
  {
    if !ls.IsSet(c) {
      forall d | d in ls.depends[c] ensures p[d] == q[d] {
        SolutionUnique(ls, rank, min, p, q, d);
      }
      MaxOverSame(min, ls.depends[c], p, q);
    }
  }

  // ---- The recursion -----------------------------------------------------------------------

  /** The solution, by recursion on the rank. */
  ghost function Priority(ls: Layers, rank: Layer -> nat, min: int, c: Layer): int
    requires ls.Closed() && ls.Acyclic(rank) && c in ls.depends
    decreases rank(c), 1, 0
  {
    if ls.IsSet(c) then ls.explicit[c].value else 1 + MaxPriority(ls, rank, min, c, |ls.depends[c]|)
  }

  ghost function MaxPriority(ls: Layers, rank: Layer -> nat, min: int, c: Layer, i: nat): int
    requires ls.Closed() && ls.Acyclic(rank) && c in ls.depends && i <= |ls.depends[c]|
    decreases rank(c), 0, i
  {
    if i == 0 then min
    else
      var m := MaxPriority(ls, rank, min, c, i - 1);
      var d := Priority(ls, rank, min, ls.depends[c][i - 1]);
      if d > m then d else m
  }

  lemma {:induction false} MaxPriorityIsMax(ls: Layers, rank: Layer -> nat, min: int, c: Layer, i: nat,
                                            p: map<Layer, int>)
    requires ls.Closed() && ls.Acyclic(rank) && c in ls.depends && i <= |ls.depends[c]|
    requires p.Keys == ls.depends.Keys && forall d | d in p :: p[d] == Priority(ls, rank, min, d)
    ensures MaxPriority(ls, rank, min, c, i) == MaxOver(min, ls.depends[c][..i], p)
    decreases i
  {
    if i > 0 {
      MaxPriorityIsMax(ls, rank, min, c, i - 1, p);
      assert ls.depends[c][..i][..i - 1] == ls.depends[c][..i - 1];
    }
  }

  class Priorities {
    const ls: Layers
    const min: int
    var table: map<Layer, Option<int>>

    constructor (ls: Layers, min: int)
      ensures this.ls == ls && this.min == min && table == ls.explicit
    {
      this.ls, this.min, table := ls, min, ls.explicit;
    }

    /** Each entry is still the explicit one or already the final one. */
    ghost predicate Consistent(rank: Layer -> nat)
      requires ls.Closed() && ls.Acyclic(rank)
      reads this`table
    {
      table.Keys == ls.depends.Keys && forall c | c in table ::
        table[c] == ls.explicit[c] || table[c] == Some(Priority(ls, rank, min, c))
    }

    /** The layers whose entry is final. */
    ghost function Final(rank: Layer -> nat): set<Layer>
      requires ls.Closed() && ls.Acyclic(rank) && table.Keys == ls.depends.Keys
      reads this`table
    {
      set c | c in table && table[c] == Some(Priority(ls, rank, min, c))
    }

    method CalcLayerPriority(c: Layer, ghost rank: Layer -> nat)
      requires ls.Closed() && ls.Acyclic(rank) && c in ls.depends && Consistent(rank)
      modifies this`table
      ensures Consistent(rank) && c in Final(rank) && old(Final(rank)) <= Final(rank)
      decreases rank(c)
    {
      if table[c].None? || table[c].value == 0 {
        var maxDep := min;
        for i := 0 to |ls.depends[c]|
          invariant Consistent(rank) && maxDep == MaxPriority(ls, rank, min, c, i)
          invariant old(Final(rank)) <= Final(rank)
        {
          var dep := ls.depends[c][i];
          CalcLayerPriority(dep, rank);
          var depPrio := table[dep].value;
          if depPrio > maxDep {
            maxDep := depPrio;
          }
        }
        UnsetOrDone(c, rank, old(table[c]));
        table := table[c := Some(maxDep + 1)];
      }
    }

    /** An entry that is None or 0 belongs to a layer without explicit priority. */
    lemma UnsetOrDone(c: Layer, rank: Layer -> nat, entry: Option<int>)
      requires ls.Closed() && ls.Acyclic(rank) && c in ls.depends
      requires entry == ls.explicit[c] || entry == Some(Priority(ls, rank, min, c))
      requires entry.None? || entry.value == 0
      ensures !ls.IsSet(c)
    {
    }

    method CalcAll(list: seq<Layer>, ghost rank: Layer -> nat) returns (p: map<Layer, int>)
      requires ls.Closed() && ls.Acyclic(rank) && table == ls.explicit && Lists(list, ls)
      modifies this`table
      ensures Solves(ls, min, p)
    {
      for i := 0 to |list|
        invariant Consistent(rank)
        invariant forall j | 0 <= j < i :: list[j] in Final(rank)
      {
        CalcLayerPriority(list[i], rank);
      }
      forall c | c in table ensures table[c] == Some(Priority(ls, rank, min, c)) {
        assert c in list && c in Final(rank);
      }
      p := map c | c in table :: table[c].GetOr(0);
      PrioritySolves(ls, rank, min, p);
    }
  }

  lemma PrioritySolves(ls: Layers, rank: Layer -> nat, min: int, p: map<Layer, int>)
    requires ls.Closed() && ls.Acyclic(rank) && p.Keys == ls.depends.Keys
    requires forall c | c in p :: p[c] == Priority(ls, rank, min, c)
    ensures Solves(ls, min, p)
  {
    forall c | c in p && !ls.IsSet(c) ensures p[c] == 1 + MaxOver(min, ls.depends[c], p) {
      MaxPriorityIsMax(ls, rank, min, c, |ls.depends[c]|, p);
      assert ls.depends[c][..|ls.depends[c]|] == ls.depends[c];
    }
  }

  /** The whole computation: on an acyclic, closed dependency relation the result solves the priority equations. */
  method HandleCollections(list: seq<Layer>, ls: Layers, ghost rank: Layer -> nat) returns (p: map<Layer, int>)
    requires ls.Closed() && ls.Acyclic(rank) && Lists(list, ls)
    ensures Solves(ls, MinPrio(list, ls.explicit), p)
  {
    var min := MinimumPriority(list, ls.explicit);
    var work := new Priorities(ls, min);
    p := work.CalcAll(list, rank);
  }

  lemma SolutionsEqual(ls: Layers, rank: Layer -> nat, min: int, p: map<Layer, int>, q: map<Layer, int>)
    requires ls.Closed() && ls.Acyclic(rank) && Solves(ls, min, p) && Solves(ls, min, q)
    ensures p == q
  {
    forall c | c in ls.depends ensures p[c] == q[c] {
      SolutionUnique(ls, rank, min, p, q, c);
    }
  }

  ghost predicate Lists(list: seq<Layer>, ls: Layers) {
    forall c :: c in list <==> c in ls.depends
  }

  /** Two orders of the same layers give the same priorities, unless the explicit ones are ambiguous. */
  lemma OrderIrrelevant(ls: Layers, rank: Layer -> nat, xs: seq<Layer>, p: map<Layer, int>, ys: seq<Layer>,
                        q: map<Layer, int>)
    requires ls.Closed() && ls.Acyclic(rank)
    requires Lists(xs, ls) && Lists(ys, ls) && !Ambiguous(xs, ls.explicit)
    requires Solves(ls, MinPrio(xs, ls.explicit), p) && Solves(ls, MinPrio(ys, ls.explicit), q)
    ensures p == q
  {
    MinPrioOrderIrrelevant(xs, ys, ls.explicit);
    SolutionsEqual(ls, rank, MinPrio(xs, ls.explicit), p, q);
  }

  // ---- When an ambiguous minimum changes a priority ------------------------------------------

  lemma {:induction false} MaxOverRaised(lo: int, hi: int, deps: seq<Layer>, p: map<Layer, int>)
    requires lo <= hi && forall d | d in deps :: d in p
    ensures MaxOver(hi, deps, p) == if MaxOver(lo, deps, p) > hi then MaxOver(lo, deps, p) else hi
  {
    if deps != [] {
      MaxOverRaised(lo, hi, deps[..|deps| - 1], p);
    }
  }

  /** Every layer without explicit priority comes out above `bound`. */
  ghost predicate AllAbove(ls: Layers, p: map<Layer, int>, bound: int)
    requires ls.Closed() && p.Keys == ls.depends.Keys
  {
    forall c | c in p && !ls.IsSet(c) :: p[c] > bound
  }

  /** Raising the minimum keeps a solution exactly if every calculated priority is already above the new minimum. */
  lemma RaisedExactly(ls: Layers, lo: int, hi: int, p: map<Layer, int>)
    requires ls.Closed() && Solves(ls, lo, p) && lo <= hi
    ensures Solves(ls, hi, p) <==> AllAbove(ls, p, hi)
  {
    forall c | c in p && !ls.IsSet(c)
      ensures p[c] == 1 + MaxOver(hi, ls.depends[c], p) <==> p[c] > hi
    {
      MaxOverRaised(lo, hi, ls.depends[c], p);
    }
  }

  /** The largest explicit priority of the list. */
  ghost predicate Top(list: seq<Layer>, explicit: map<Layer, Option<int>>, top: int)
    requires forall c | c in list :: c in explicit
  {
    Sets(list, explicit, top) && forall c | c in list && explicit[c].Some? :: explicit[c].value <= top
  }

  /** Some order of an ambiguous list makes its largest priority the minimum. */
  lemma TopReached(xs: seq<Layer>, explicit: map<Layer, Option<int>>, top: int) returns (ys: seq<Layer>)
    requires (forall c | c in xs :: c in explicit) && Ambiguous(xs, explicit) && Top(xs, explicit, top)
    ensures Reorders(xs, ys) && MinPrio(ys, explicit) == top
  {
    var z :| z in xs && explicit[z] == Some(0);
    var t :| t in xs && explicit[t] == Some(top);
    var zs := MoveLast(xs, z);
    MovedLast(xs, z);
    ys := MoveLast(zs, t);
    MovedLast(zs, t);
    SecondLast(zs, t);
    assert !SetsNegative(ys, explicit);
    LastDecides(ys, explicit);
    var front := ys[..|ys| - 1];
    assert forall c | c in front :: c in ys;
    assert !SetsNegative(front, explicit);
    LastDecides(front, explicit);
  }

  lemma {:induction false} SecondLast(list: seq<Layer>, c: Layer)
    requires c in list && list[|list| - 1] != c
    ensures |MoveLast(list, c)| > 1 && MoveLast(list, c)[|MoveLast(list, c)| - 2] == list[|list| - 1]
  {
    if list[0] != c {
      SecondLast(list[1..], c);
    }
  }

  /**
   On an ambiguous list the order matters to the result exactly if, with the minimum 0, some layer without
   explicit priority does not come out above the largest explicit one.
   */
  lemma OrderMattersExactly(ls: Layers, rank: Layer -> nat, xs: seq<Layer>, top: int, p: map<Layer, int>)
    requires ls.Closed() && ls.Acyclic(rank) && Lists(xs, ls)
    requires Ambiguous(xs, ls.explicit) && Top(xs, ls.explicit, top) && Solves(ls, 0, p)
    ensures (forall ys, q | Reorders(xs, ys) && Solves(ls, MinPrio(ys, ls.explicit), q) :: q == p) <==>
            AllAbove(ls, p, top)
  {
    if AllAbove(ls, p, top) {
      forall ys, q | Reorders(xs, ys) && Solves(ls, MinPrio(ys, ls.explicit), q) ensures q == p {
        KeptByAll(ls, rank, xs, top, p, ys, q);
      }
    } else {
      var ys := TopReached(xs, ls.explicit, top);
      var q := map c | c in ls.depends :: Priority(ls, rank, top, c);
      PrioritySolves(ls, rank, top, q);
      RaisedExactly(ls, 0, top, p);
      assert q != p;
    }
  }

  lemma KeptByAll(ls: Layers, rank: Layer -> nat, xs: seq<Layer>, top: int, p: map<Layer, int>, ys: seq<Layer>,
                  q: map<Layer, int>)
    requires ls.Closed() && ls.Acyclic(rank) && Lists(xs, ls)
    requires Ambiguous(xs, ls.explicit) && Top(xs, ls.explicit, top) && Solves(ls, 0, p) && AllAbove(ls, p, top)
    requires Reorders(xs, ys) && Solves(ls, MinPrio(ys, ls.explicit), q)
    ensures q == p
  {
    var m := MinPrio(ys, ls.explicit);
    MinPrioIsMinimum(ys, ls.explicit);
    assert !SetsNegative(ys, ls.explicit);
    assert 0 <= m <= top;
    RaisedExactly(ls, 0, m, p);
    SolutionsEqual(ls, rank, m, p, q);
  }

  /** With `a: 0` and `b: 5` the layer `a` gets 6 or 1, depending on which of them is listed last. */
  lemma ZeroMakesOrderMatter()
    ensures var ls := Layers(map["a" := Some(0), "b" := Some(5)], map["a" := [], "b" := []]);
            && MinPrio(["a", "b"], ls.explicit) == 5 && Solves(ls, 5, map["a" := 6, "b" := 5])
            && MinPrio(["b", "a"], ls.explicit) == 0 && Solves(ls, 0, map["a" := 1, "b" := 5])
  {
    var explicit := map["a" := Some(0), "b" := Some(5)];
    assert ["a", "b"][..1] == ["a"] && ["a"][..0] == [] && ["b", "a"][..1] == ["b"] && ["b"][..0] == [];
    assert MinPrio(["a"], explicit) == 0 && MinPrio(["b"], explicit) == 5;
  }
}
