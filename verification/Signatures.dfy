/**
 Variable dependencies and the base hash of a task: two worklists over the same dependency
 relation, the second one feeding a hash with the sorted closure.
 */
module Signatures {
  import opened Prelude

  type Key = string

  /** What `build_dependencies` finds for a key. */
  datatype Built = Built(deps: set<Key>, value: Option<string>)

  type Builder = Key -> Built

  // ---- The dependency relation -----------------------------------------------------------

  ghost predicate IsPath(deps: map<Key, set<Key>>, p: seq<Key>) {
    |p| > 1 && forall i | 0 <= i < |p| - 1 :: p[i] in deps && p[i + 1] in deps[p[i]]
  }

  /** `k` is reached from `task` in one or more steps. */
  ghost predicate Reaches(deps: map<Key, set<Key>>, task: Key, k: Key) {
    exists p :: IsPath(deps, p) && p[0] == task && p[|p| - 1] == k
  }

  /** Every key a table knows leads only to keys it knows. */
  ghost predicate Closed(deps: map<Key, set<Key>>) {
    forall k | k in deps :: deps[k] <= deps.Keys
  }

  lemma ReachesOne(deps: map<Key, set<Key>>, task: Key, k: Key)
    requires task in deps && k in deps[task]
    ensures Reaches(deps, task, k)
  {
    assert IsPath(deps, [task, k]);
  }

  lemma ReachesMore(deps: map<Key, set<Key>>, task: Key, j: Key, k: Key)
    requires Reaches(deps, task, j) && j in deps && k in deps[j]
    ensures Reaches(deps, task, k)
  {
    var p :| IsPath(deps, p) && p[0] == task && p[|p| - 1] == j;
    assert IsPath(deps, p + [k]);
  }

  /** A set that holds the task's dependencies and those of its members holds everything reachable. */
  lemma {:induction false} ReachInside(deps: map<Key, set<Key>>, p: seq<Key>, seen: set<Key>)
    requires IsPath(deps, p) && deps[p[0]] <= seen
    requires forall k | k in seen && k in deps :: deps[k] <= seen
    ensures p[|p| - 1] in seen
    decreases |p|
  {
    if |p| > 2 {
      var front := p[..|p| - 1];
      assert IsPath(deps, front);
      ReachInside(deps, front, seen);
      assert p[|p| - 1] in deps[front[|front| - 1]];
    }
  }

  /** `seen` is exactly the transitive closure of `task`. */
  ghost predicate IsClosure(deps: map<Key, set<Key>>, task: Key, seen: set<Key>) {
    forall k :: k in seen <==> Reaches(deps, task, k)
  }

  lemma ClosureFound(deps: map<Key, set<Key>>, task: Key, seen: set<Key>)
    requires task in deps && deps[task] <= seen
    requires forall k | k in seen :: Reaches(deps, task, k) && k in deps && deps[k] <= seen
    ensures IsClosure(deps, task, seen)
  {
    forall k | Reaches(deps, task, k) ensures k in seen {
      var p :| IsPath(deps, p) && p[0] == task && p[|p| - 1] == k;
      ReachInside(deps, p, seen);
    }
  }

  // ---- The first worklist ----------------------------------------------------------------

  /** A table of what the builder says, for some of the keys. */
  ghost predicate Tabulates(build: Builder, deps: map<Key, set<Key>>, values: map<Key, Option<string>>) {
    deps.Keys == values.Keys && forall k | k in deps :: deps[k] == build(k).deps && values[k] == build(k).value
  }

  /** `universe` is finite and the builder never leads out of it. */
  ghost predicate Universe(build: Builder, universe: set<Key>) {
    forall k | k in universe :: build(k).deps <= universe
  }

  /** A path in the builder's own relation. */
  ghost predicate Leads(build: Builder, p: seq<Key>, t: Key, k: Key) {
    |p| > 1 && p[0] == t && p[|p| - 1] == k && forall i | 0 <= i < |p| - 1 :: p[i + 1] in build(p[i]).deps
  }

  ghost predicate Reached(build: Builder, t: Key, k: Key) {
    exists p :: Leads(build, p, t, k)
  }

  ghost predicate Wanted(build: Builder, tasks: seq<Key>, k: Key) {
    k in tasks || exists t :: t in tasks && Reached(build, t, k)
  }

  lemma ReachedOne(build: Builder, t: Key, k: Key)
    requires k in build(t).deps
    ensures Reached(build, t, k)
  {
    assert Leads(build, [t, k], t, k);
  }

  lemma ReachedMore(build: Builder, t: Key, j: Key, k: Key)
    requires Reached(build, t, j) && k in build(j).deps
    ensures Reached(build, t, k)
  {
    var p :| Leads(build, p, t, j);
    assert Leads(build, p + [k], t, k);
  }

  method GenerateDependencies(tasklist: seq<Key>, build: Builder, ghost universe: set<Key>)
    returns (deps: map<Key, set<Key>>, values: map<Key, Option<string>>)
    requires Universe(build, universe) && forall t | t in tasklist :: t in universe
    ensures Tabulates(build, deps, values) && Closed(deps)
    ensures forall k :: k in deps <==> Wanted(build, tasklist, k)
  {
    deps, values := map[], map[];
    for i := 0 to |tasklist|
      invariant Tabulates(build, deps, values) && Closed(deps) && deps.Keys <= universe
      invariant forall j | 0 <= j < i :: tasklist[j] in deps
      invariant forall k | k in deps :: Wanted(build, tasklist, k)
    {
      ghost var deps0 := deps;
      deps, values := FollowTask(tasklist[i], build, deps, values, universe);
    }
    forall k | Wanted(build, tasklist, k) ensures k in deps {
      if k !in tasklist {
        var t :| t in tasklist && Reached(build, t, k);
        var p :| Leads(build, p, t, k);
        assert IsPath(deps, p) by { PathInside(build, deps, values, p, t, k); }
        ReachInside(deps, p, deps.Keys);
      }
    }
  }

  lemma {:induction false} PathInside(build: Builder, deps: map<Key, set<Key>>, values: map<Key, Option<string>>,
                                      p: seq<Key>, t: Key, k: Key)
    requires Tabulates(build, deps, values) && Closed(deps) && t in deps && Leads(build, p, t, k)
    ensures IsPath(deps, p) && k in deps
    decreases |p|
  {
    var front := p[..|p| - 1];
    if |p| > 2 {
      assert Leads(build, front, t, front[|front| - 1]);
      PathInside(build, deps, values, front, t, front[|front| - 1]);
    }
    assert p[|p| - 2] in deps && p[|p| - 1] in deps[p[|p| - 2]];
    forall i | 0 <= i < |p| - 1 ensures p[i] in deps && p[i + 1] in deps[p[i]] {
      assert i < |p| - 2 ==> front[i] == p[i] && front[i + 1] == p[i + 1];
    }
  }

  /** The inner loop: one wave of dependencies, tabulated where that is still missing. */
  method FollowWave(wave: set<Key>, build: Builder, deps0: map<Key, set<Key>>, values0: map<Key, Option<string>>)
    returns (deps: map<Key, set<Key>>, values: map<Key, Option<string>>, next: set<Key>)
    requires Tabulates(build, deps0, values0)
    ensures Tabulates(build, deps, values) && deps.Keys == deps0.Keys + wave
    ensures forall k :: k in next <==> exists dep :: dep in wave && k in build(dep).deps
  {
    deps, values, next := deps0, values0, {};
    var todo := wave;
    while todo != {}
      invariant todo <= wave && Tabulates(build, deps, values) && deps.Keys == deps0.Keys + (wave - todo)
      invariant forall k :: k in next <==> exists dep :: dep in wave - todo && k in build(dep).deps
      decreases todo
    {
      var dep :| dep in todo;
      assert wave - (todo - {dep}) == (wave - todo) + {dep};
      todo := todo - {dep};
      if dep !in deps {
        deps, values := deps[dep := build(dep).deps], values[dep := build(dep).value];
      }
      next := next + deps[dep];
    }
    assert wave - todo == wave;
  }

  method FollowTask(task: Key, build: Builder, deps0: map<Key, set<Key>>, values0: map<Key, Option<string>>,
                    ghost universe: set<Key>)
    returns (deps: map<Key, set<Key>>, values: map<Key, Option<string>>)
    requires Universe(build, universe) && task in universe
    requires Tabulates(build, deps0, values0) && Closed(deps0) && deps0.Keys <= universe
    ensures Tabulates(build, deps, values) && Closed(deps) && deps.Keys <= universe
    ensures deps0.Keys <= deps.Keys && task in deps
    ensures forall k | k in deps :: k in deps0 || k == task || Reached(build, task, k)
  {
    deps, values := deps0[task := build(task).deps], values0[task := build(task).value];
    var newdeps := deps[task];
    var seen: set<Key> := {};
    forall k | k in newdeps ensures Reached(build, task, k) {
      ReachedOne(build, task, k);
    }
    while newdeps != {}
      invariant Tabulates(build, deps, values) && deps.Keys == deps0.Keys + {task} + seen
      invariant seen + newdeps <= universe && newdeps !! seen && build(task).deps <= seen + newdeps
      invariant forall k | k in seen + newdeps :: Reached(build, task, k)
      invariant forall k | k in seen :: build(k).deps <= seen + newdeps
      decreases universe - seen
    {
      var nextdeps := newdeps;
      seen := seen + nextdeps;
      deps, values, newdeps := FollowWave(nextdeps, build, deps, values);
      forall k | k in newdeps ensures Reached(build, task, k) && k in universe {
        var dep :| dep in nextdeps && k in build(dep).deps;
        ReachedMore(build, task, dep, k);
      }
      newdeps := newdeps - seen;
    }
  }

  // ---- Sorting -----------------------------------------------------------------------------

  /** Python's order on strings. */
  predicate Leq(a: string, b: string) {
    a == "" || (b != "" && (a[0] < b[0] || (a[0] == b[0] && Leq(a[1..], b[1..]))))
  }

  lemma {:induction false} LeqTotal(a: string, b: string)
    ensures Leq(a, b) || Leq(b, a)
    ensures Leq(a, b) && Leq(b, a) ==> a == b
  {
    if a != "" && b != "" {
      LeqTotal(a[1..], b[1..]);
      assert a == [a[0]] + a[1..] && b == [b[0]] + b[1..];
    }
  }

  lemma {:induction false} LeqTrans(a: string, b: string, c: string)
    requires Leq(a, b) && Leq(b, c)
    ensures Leq(a, c)
  {
    if a != "" && a[0] == b[0] && b[0] == c[0] {
      LeqTrans(a[1..], b[1..], c[1..]);
    }
  }

  /** Character order: one is the beginning of the other, or the first difference decides. */
  lemma {:induction false} LeqExactly(a: string, b: string)
    ensures Leq(a, b) <==> a <= b || exists i | 0 <= i < |a| && i < |b| :: a[..i] == b[..i] && a[i] < b[i]
  {
    if a != "" && b != "" && a[0] == b[0] {
      LeqExactly(a[1..], b[1..]);
      forall i | 0 <= i < |a| - 1 && i < |b| - 1
        ensures a[1..][..i] == b[1..][..i] <==> a[..i + 1] == b[..i + 1]
      {
        assert a[..i + 1] == [a[0]] + a[1..][..i] && b[..i + 1] == [b[0]] + b[1..][..i];
        assert a[1..][..i] == a[..i + 1][1..] && b[1..][..i] == b[..i + 1][1..];
      }
      if i :| 0 <= i < |a| - 1 && i < |b| - 1 && a[1..][..i] == b[1..][..i] && a[1..][i] < b[1..][i] {
        assert a[..i + 1] == b[..i + 1] && a[i + 1] < b[i + 1];
      }
      if i :| 0 <= i < |a| && i < |b| && a[..i] == b[..i] && a[i] < b[i] {
        assert i > 0 && a[1..][..i - 1] == b[1..][..i - 1] && a[1..][i - 1] < b[1..][i - 1];
      }
      assert a <= b <==> a[1..] <= b[1..];
    } else if a != "" && b != "" {
      if i :| 0 <= i < |a| && i < |b| && a[..i] == b[..i] && a[i] < b[i] {
        if i > 0 {
          SameBeginning(a, b, i);
        }
      }
      if a[0] < b[0] {
        assert a[..0] == b[..0];
      }
    }
  }

  lemma SameBeginning(a: string, b: string, i: int)
    requires 0 < i <= |a| && i <= |b| && a[..i] == b[..i]
    ensures a[0] == b[0]
  {
    assert a[..i][0] == b[..i][0];
  }

  /** `xs` is `sorted(s)`. */
  ghost predicate IsSorted(xs: seq<Key>, s: set<Key>) {
    && (forall k :: k in xs <==> k in s)
    && forall i, j | 0 <= i < j < |xs| :: Leq(xs[i], xs[j]) && xs[i] != xs[j]
  }

  /** There is only one sorted list: iteration order cannot show. */
  lemma {:induction false} SortedUnique(xs: seq<Key>, ys: seq<Key>, s: set<Key>)
    requires IsSorted(xs, s) && IsSorted(ys, s)
    ensures xs == ys
    decreases |xs|
  {
    if xs != [] {
      Nonempty(ys, s, xs[0]);
    }
    if ys != [] {
      Nonempty(xs, s, ys[0]);
      SortedHead(xs, s, ys[0]);
      SortedHead(ys, s, xs[0]);
      LeqTotal(xs[0], ys[0]);
      SortedTail(xs, s);
      SortedTail(ys, s);
      SortedUnique(xs[1..], ys[1..], s - {xs[0]});
      assert xs == [xs[0]] + xs[1..] && ys == [ys[0]] + ys[1..];
    }
  }

  lemma Nonempty(xs: seq<Key>, s: set<Key>, k: Key)
    requires IsSorted(xs, s) && k in s
    ensures xs != []
  {
  }

  lemma SortedHead(xs: seq<Key>, s: set<Key>, k: Key)
    requires IsSorted(xs, s) && k in s
    ensures Leq(xs[0], k)
  {
    var i :| 0 <= i < |xs| && xs[i] == k;
    LeqTotal(k, k);
  }

  lemma SortedTail(xs: seq<Key>, s: set<Key>)
    requires IsSorted(xs, s) && xs != []
    ensures IsSorted(xs[1..], s - {xs[0]})
  {
    forall k ensures k in xs[1..] <==> k in s - {xs[0]} {
      if k in xs[1..] {
        var i :| 0 <= i < |xs| - 1 && xs[1..][i] == k;
        assert xs[0] != xs[i + 1];
      }
      assert k in xs <==> k == xs[0] || k in xs[1..];
    }
  }

  method Least(s: set<Key>) returns (m: Key)
    requires s != {}
    ensures m in s && forall k | k in s :: Leq(m, k)
  {
    m :| m in s;
    LeqTotal(m, m);
    var todo := s - {m};
    while todo != {}
      invariant m in s && todo <= s && forall k | k in s - todo :: Leq(m, k)
      decreases todo
    {
      var k :| k in todo;
      todo := todo - {k};
      LeqTotal(m, k);
      LeqTotal(k, k);
      if !Leq(m, k) {
        forall j | j in s - todo ensures Leq(k, j) {
          if j != k { LeqTrans(k, m, j); }
        }
        m := k;
      }
    }
  }

  method Sort(s: set<Key>) returns (xs: seq<Key>)
    ensures IsSorted(xs, s)
  {
    xs := [];
    var todo := s;
    while todo != {}
      invariant todo <= s && IsSorted(xs, s - todo)
      invariant forall x, k | x in xs && k in todo :: Leq(x, k)
      decreases todo
    {
      var m := Least(todo);
      assert forall x | x in xs :: Leq(x, m) && x != m;
      xs := xs + [m];
      todo := todo - {m};
    }
  }

  // ---- The second worklist ---------------------------------------------------------------

  /** The strings that are joined and hashed: the own value, then every closure name with its value. */
  function HashInput(own: Option<string>, names: seq<Key>, lookup: map<Key, Option<string>>): seq<string>
    requires forall k | k in names :: k in lookup
  {
    if names == [] then if own.Some? then [own.value] else []
    else
      var n := |names| - 1;
      var front := HashInput(own, names[..n], lookup) + [names[n]];
      if lookup[names[n]].Some? then front + [lookup[names[n]].value] else front
  }

  method Closure(task: Key, gendeps: map<Key, set<Key>>) returns (seen: set<Key>)
    requires task in gendeps && Closed(gendeps)
    ensures IsClosure(gendeps, task, seen) && seen <= gendeps.Keys
  {
    var newdeps := gendeps[task];
    seen := {};
    forall k | k in newdeps ensures Reaches(gendeps, task, k) { ReachesOne(gendeps, task, k); }
    while newdeps != {}
      invariant seen + newdeps <= gendeps.Keys && newdeps !! seen && gendeps[task] <= seen + newdeps
      invariant forall k | k in seen + newdeps :: Reaches(gendeps, task, k)
      invariant forall k | k in seen :: gendeps[k] <= seen + newdeps
      decreases gendeps.Keys - seen
    {
      var nextdeps := newdeps;
      ghost var seen0 := seen;
      seen := seen + nextdeps;
      newdeps := {};
      var todo := nextdeps;
      while todo != {}
        invariant todo <= nextdeps && newdeps <= gendeps.Keys
        invariant forall k | k in newdeps :: Reaches(gendeps, task, k)
        invariant forall k | k in nextdeps - todo :: gendeps[k] <= newdeps
        decreases todo
      {
        var dep :| dep in todo;
        todo := todo - {dep};
        forall k | k in gendeps[dep] ensures Reaches(gendeps, task, k) { ReachesMore(gendeps, task, dep, k); }
        newdeps := newdeps + gendeps[dep];
      }
      newdeps := newdeps - seen;
    }
    ClosureFound(gendeps, task, seen);
  }

  method DataOf(own: Option<string>, names: seq<Key>, lookup: map<Key, Option<string>>) returns (data: seq<string>)
    requires forall k | k in names :: k in lookup
    ensures data == HashInput(own, names, lookup)
  {
    data := if own.Some? then [own.value] else [];
    for i := 0 to |names|
      invariant data == HashInput(own, names[..i], lookup)
    {
      assert names[..i + 1][..i] == names[..i];
      data := data + [names[i]];
      var v := lookup[names[i]];
      if v.Some? {
        data := data + [v.value];
      }
    }
    assert names[..|names|] == names;
  }

  /** The result for one task: its closure, and the hash input over the sorted closure. */
  ghost predicate Signed(task: Key, gendeps: map<Key, set<Key>>, lookup: map<Key, Option<string>>, seen: set<Key>,
                         data: seq<string>)
    requires task in lookup && gendeps.Keys <= lookup.Keys
  {
    && IsClosure(gendeps, task, seen) && seen <= gendeps.Keys
    && exists names :: IsSorted(names, seen) && data == HashInput(lookup[task], names, lookup)
  }

  /** `generate_dependency_hash`, with the hashed list in place of its hash. */
  method GenerateDependencyHash(tasklist: seq<Key>, gendeps: map<Key, set<Key>>, lookup: map<Key, Option<string>>)
    returns (taskdeps: map<Key, set<Key>>, hashed: map<Key, seq<string>>)
    requires Closed(gendeps) && gendeps.Keys == lookup.Keys && forall t | t in tasklist :: t in gendeps
    ensures forall t | t in tasklist ::
              t in taskdeps && t in hashed && Signed(t, gendeps, lookup, taskdeps[t], hashed[t])
  {
    taskdeps, hashed := map[], map[];
    for i := 0 to |tasklist|
      invariant forall t | t in tasklist[..i] ::
                  t in taskdeps && t in hashed && Signed(t, gendeps, lookup, taskdeps[t], hashed[t])
    {
      var task := tasklist[i];
      var seen := Closure(task, gendeps);
      var names := Sort(seen);
      var data := DataOf(lookup[task], names, lookup);
      assert Signed(task, gendeps, lookup, seen, data);
      taskdeps, hashed := taskdeps[task := seen], hashed[task := data];
      assert tasklist[..i + 1] == tasklist[..i] + [task];
    }
    assert tasklist[..|tasklist|] == tasklist;
  }

  /** The two passes fit together: every lookup of the second is defined by the first. */
  method TaskSignatures(tasklist: seq<Key>, build: Builder, ghost universe: set<Key>)
    returns (gendeps: map<Key, set<Key>>, values: map<Key, Option<string>>,
             taskdeps: map<Key, set<Key>>, hashed: map<Key, seq<string>>)
    requires Universe(build, universe) && forall t | t in tasklist :: t in universe
    ensures Tabulates(build, gendeps, values) && Closed(gendeps) && forall t | t in tasklist :: t in gendeps
    ensures forall t | t in tasklist ::
              t in taskdeps && t in hashed && Signed(t, gendeps, values, taskdeps[t], hashed[t])
  {
    gendeps, values := GenerateDependencies(tasklist, build, universe);
    assert forall t | t in tasklist :: Wanted(build, tasklist, t);
    taskdeps, hashed := GenerateDependencyHash(tasklist, gendeps, values);
  }

  // ---- What the signature depends on -----------------------------------------------------

  lemma {:induction false} PathAgrees(d1: map<Key, set<Key>>, d2: map<Key, set<Key>>, seen: set<Key>, p: seq<Key>)
    requires IsPath(d1, p) && p[0] in d2 && d1[p[0]] == d2[p[0]]
    requires IsClosure(d1, p[0], seen) && forall k | k in seen && k in d1 :: k in d2 && d1[k] == d2[k]
    ensures IsPath(d2, p)
    decreases |p|
  {
    forall i | 0 <= i < |p| - 1 ensures p[i] in d2 && p[i + 1] in d2[p[i]] {
      if i > 0 {
        assert IsPath(d1, p[..i + 1]);
        assert Reaches(d1, p[0], p[i]);
      }
    }
  }

  lemma ClosureAgrees(d1: map<Key, set<Key>>, d2: map<Key, set<Key>>, task: Key, s1: set<Key>, s2: set<Key>)
    requires task in d1 && task in d2 && d1[task] == d2[task] && Closed(d1)
    requires IsClosure(d1, task, s1) && IsClosure(d2, task, s2)
    requires forall k | k in s1 :: k in d1 && k in d2 && d1[k] == d2[k]
    ensures s1 == s2
  {
    forall k | Reaches(d1, task, k) ensures Reaches(d2, task, k) {
      var p :| IsPath(d1, p) && p[0] == task && p[|p| - 1] == k;
      PathAgrees(d1, d2, s1, p);
    }
    forall k | Reaches(d2, task, k) ensures k in s1 {
      var p :| IsPath(d2, p) && p[0] == task && p[|p| - 1] == k;
      assert d2[task] <= s1 by {
        forall j | j in d1[task] ensures j in s1 { ReachesOne(d1, task, j); }
      }
      InsideAgreed(d1, d2, task, s1, p);
    }
  }

  lemma {:induction false} InsideAgreed(d1: map<Key, set<Key>>, d2: map<Key, set<Key>>, task: Key, s1: set<Key>,
                                        p: seq<Key>)
    requires IsClosure(d1, task, s1) && IsPath(d2, p) && p[0] == task && d2[task] <= s1
    requires forall k | k in s1 :: k in d1 && k in d2 && d1[k] == d2[k]
    ensures p[|p| - 1] in s1
    decreases |p|
  {
    if |p| > 2 {
      var front := p[..|p| - 1];
      assert IsPath(d2, front);
      InsideAgreed(d1, d2, task, s1, front);
      var j := front[|front| - 1];
      assert p[|p| - 1] in d2[j];
      ReachesMore(d1, task, j, p[|p| - 1]);
    }
  }

  lemma {:induction false} InputAgrees(own: Option<string>, names: seq<Key>, l1: map<Key, Option<string>>,
                                       l2: map<Key, Option<string>>)
    requires forall k | k in names :: k in l1 && k in l2 && l1[k] == l2[k]
    ensures HashInput(own, names, l1) == HashInput(own, names, l2)
  {
    if names != [] {
      InputAgrees(own, names[..|names| - 1], l1, l2);
    }
  }

  /**
   The hashed list depends only on the task's own value and dependencies and on those of the names
   it reaches: change anything else, and neither the closure nor the list changes.
   */
  lemma SignatureIsLocal(task: Key, d1: map<Key, set<Key>>, l1: map<Key, Option<string>>, s1: set<Key>,
                         data1: seq<string>,
                         d2: map<Key, set<Key>>, l2: map<Key, Option<string>>, s2: set<Key>, data2: seq<string>)
    requires Closed(d1) && d1.Keys == l1.Keys && d2.Keys == l2.Keys && task in d1 && task in d2
    requires d1[task] == d2[task] && l1[task] == l2[task]
    requires Signed(task, d1, l1, s1, data1) && Signed(task, d2, l2, s2, data2)
    requires forall k | k in s1 :: k in d2 && d1[k] == d2[k] && l1[k] == l2[k]
    ensures s1 == s2 && data1 == data2
  {
    ClosureAgrees(d1, d2, task, s1, s2);
    var n1 :| IsSorted(n1, s1) && data1 == HashInput(l1[task], n1, l1);
    var n2 :| IsSorted(n2, s2) && data2 == HashInput(l2[task], n2, l2);
    SortedUnique(n1, n2, s1);
    InputAgrees(l1[task], n1, l1, l2);
  }

  // ---- Where everything stands in the hashed list ------------------------------------------

  /** How many of the names have a value. */
  function WithValue(names: seq<Key>, lookup: map<Key, Option<string>>): nat
    requires forall k | k in names :: k in lookup
  {
    if names == [] then 0
    else WithValue(names[..|names| - 1], lookup) + if lookup[names[|names| - 1]].Some? then 1 else 0
  }

  /** The place of name `i`: after the own value, the names before it, and their values. */
  function PlaceOf(own: Option<string>, names: seq<Key>, lookup: map<Key, Option<string>>, i: nat): nat
    requires i <= |names| && forall k | k in names :: k in lookup
  {
    (if own.Some? then 1 else 0) + i + WithValue(names[..i], lookup)
  }

  lemma {:induction false} InputLength(own: Option<string>, names: seq<Key>, lookup: map<Key, Option<string>>)
    requires forall k | k in names :: k in lookup
    ensures |HashInput(own, names, lookup)| == PlaceOf(own, names, lookup, |names|)
  {
    assert names[..|names|] == names;
    if names != [] {
      var n := |names| - 1;
      InputLength(own, names[..n], lookup);
      assert names[..n][..n] == names[..n];
    }
  }

  lemma {:induction false} InputPrefix(own: Option<string>, names: seq<Key>, lookup: map<Key, Option<string>>, i: nat)
    requires i <= |names| && forall k | k in names :: k in lookup
    ensures HashInput(own, names[..i], lookup) <= HashInput(own, names, lookup)
    decreases |names|
  {
    if i == |names| {
      assert names[..i] == names;
    } else {
      var front := names[..|names| - 1];
      InputPrefix(own, front, lookup, i);
      assert front[..i] == names[..i];
    }
  }

  /**
   The own value stands first, if there is one; then comes each name, in order, and right after it its value, if it
   has one; and nothing else.
   */
  lemma InputIs(own: Option<string>, names: seq<Key>, lookup: map<Key, Option<string>>)
    requires forall k | k in names :: k in lookup
    ensures var data := HashInput(own, names, lookup);
            && |data| == PlaceOf(own, names, lookup, |names|)
            && (own.Some? ==> data != [] && data[0] == own.value)
            && forall i | 0 <= i < |names| ::
                 var p := PlaceOf(own, names, lookup, i);
                 && p < |data| && data[p] == names[i]
                 && (lookup[names[i]].Some? ==> p + 1 < |data| && data[p + 1] == lookup[names[i]].value)
  {
    InputLength(own, names, lookup);
    if own.Some? {
      InputPrefix(own, names, lookup, 0);
      assert HashInput(own, names[..0], lookup) == [own.value];
    }
    forall i | 0 <= i < |names|
      ensures var data, p := HashInput(own, names, lookup), PlaceOf(own, names, lookup, i);
              && p < |data| && data[p] == names[i]
              && (lookup[names[i]].Some? ==> p + 1 < |data| && data[p + 1] == lookup[names[i]].value)
    {
      NameAt(own, names, lookup, i);
    }
  }

  lemma NameAt(own: Option<string>, names: seq<Key>, lookup: map<Key, Option<string>>, i: nat)
    requires i < |names| && forall k | k in names :: k in lookup
    ensures var data, p := HashInput(own, names, lookup), PlaceOf(own, names, lookup, i);
            && p < |data| && data[p] == names[i]
            && (lookup[names[i]].Some? ==> p + 1 < |data| && data[p + 1] == lookup[names[i]].value)
  {
    var part := names[..i + 1];
    assert part[..i] == names[..i] && part[i] == names[i];
    InputPrefix(own, names, lookup, i + 1);
    InputLength(own, names[..i], lookup);
    assert names[..i][..i] == names[..i];
  }

  // ---- What changes the list -----------------------------------------------------------------

  /** The same names have a value, whatever it is. */
  predicate SamePattern(own1: Option<string>, own2: Option<string>, names: seq<Key>, l1: map<Key, Option<string>>,
                        l2: map<Key, Option<string>>)
  {
    && (own1.Some? <==> own2.Some?)
    && forall k | k in names :: k in l1 && k in l2 && (l1[k].Some? <==> l2[k].Some?)
  }

  lemma {:induction false} InputDetermines(own1: Option<string>, own2: Option<string>, names: seq<Key>,
                                           l1: map<Key, Option<string>>, l2: map<Key, Option<string>>)
    requires SamePattern(own1, own2, names, l1, l2) && HashInput(own1, names, l1) == HashInput(own2, names, l2)
    ensures own1 == own2 && forall k | k in names :: l1[k] == l2[k]
  {
    if names != [] {
      var n := |names| - 1;
      var front, k := names[..n], names[n];
      var x, y := HashInput(own1, front, l1), HashInput(own2, front, l2);
      var u := [k] + if l1[k].Some? then [l1[k].value] else [];
      var v := [k] + if l2[k].Some? then [l2[k].value] else [];
      assert HashInput(own1, names, l1) == x + u && HashInput(own2, names, l2) == y + v;
      assert |u| == |v| && x == (x + u)[..|x|] && y == (y + v)[..|y|] && u == (x + u)[|x|..] && v == (y + v)[|y|..];
      assert l1[k].Some? ==> u[1] == l1[k].value && v[1] == l2[k].value;
      InputDetermines(own1, own2, front, l1, l2);
    } else if own1.Some? {
      assert HashInput(own1, names, l1)[0] == own1.value && HashInput(own2, names, l2)[0] == own2.value;
    }
  }

  /** Fewer values, and a list that is shorter. */
  lemma {:induction false} FewerIsShorter(own1: Option<string>, own2: Option<string>, names: seq<Key>,
                                          l1: map<Key, Option<string>>, l2: map<Key, Option<string>>)
    requires forall k | k in names :: k in l1 && k in l2 && (l1[k].Some? ==> l2[k].Some?)
    requires own1.Some? ==> own2.Some?
    ensures |HashInput(own1, names, l1)| <= |HashInput(own2, names, l2)|
    ensures (own1.None? && own2.Some?) || (exists k :: k in names && l1[k].None? && l2[k].Some?) ==>
              |HashInput(own1, names, l1)| < |HashInput(own2, names, l2)|
  {
    if names != [] {
      FewerIsShorter(own1, own2, names[..|names| - 1], l1, l2);
    }
  }

  /** `l2` is `l1` with another value for `k`. */
  predicate OneChange(l1: map<Key, Option<string>>, l2: map<Key, Option<string>>, k: Key) {
    && l1.Keys == l2.Keys && k in l1 && l1[k] != l2[k] && forall j | j in l1 && j != k :: l1[j] == l2[j]
  }

  /**
   The other direction of `SignatureIsLocal`: a change of the task's own value, or of the value of a single name that it
   reaches, changes the hashed list. So does any number of changes from one value to another.
   */
  lemma ChangeShows(task: Key, deps: map<Key, set<Key>>, l1: map<Key, Option<string>>, l2: map<Key, Option<string>>,
                    seen: set<Key>, data1: seq<string>, data2: seq<string>)
    requires task in deps && deps.Keys == l1.Keys == l2.Keys
    requires Signed(task, deps, l1, seen, data1) && Signed(task, deps, l2, seen, data2)
    ensures (exists k :: k in seen + {task} && OneChange(l1, l2, k)) ==> data1 != data2
    ensures (forall k | k in seen + {task} :: l1[k].Some? <==> l2[k].Some?) ==>
              (data1 == data2 <==> forall k | k in seen + {task} :: l1[k] == l2[k])
  {
    var names :| IsSorted(names, seen) && data1 == HashInput(l1[task], names, l1);
    var names2 :| IsSorted(names2, seen) && data2 == HashInput(l2[task], names2, l2);
    SortedUnique(names, names2, seen);
    if (forall k | k in seen + {task} :: l1[k].Some? <==> l2[k].Some?) {
      if data1 == data2 {
        InputDetermines(l1[task], l2[task], names, l1, l2);
      }
      if forall k | k in seen + {task} :: l1[k] == l2[k] {
        InputAgrees(l1[task], names, l1, l2);
      }
    }
    if k :| k in seen + {task} && OneChange(l1, l2, k) {
      OneChangeShows(task, names, l1, l2, k);
    }
  }

  lemma OneChangeShows(task: Key, names: seq<Key>, l1: map<Key, Option<string>>, l2: map<Key, Option<string>>, k: Key)
    requires OneChange(l1, l2, k) && task in l1 && (k == task || k in names) && forall j | j in names :: j in l1
    ensures HashInput(l1[task], names, l1) != HashInput(l2[task], names, l2)
  {
    if l1[k].Some? && l2[k].Some? {
      if HashInput(l1[task], names, l1) == HashInput(l2[task], names, l2) {
        InputDetermines(l1[task], l2[task], names, l1, l2);
      }
    } else if l1[k].None? {
      FewerIsShorter(l1[task], l2[task], names, l1, l2);
    } else {
      FewerIsShorter(l2[task], l1[task], names, l2, l1);
    }
  }

  /** Two changes, one to and one from no value, can cancel: a value that is a name takes the place of that name. */
  lemma ChangesCancel(own: Option<string>)
    ensures var names := ["A", "B"];
            HashInput(own, names, map["A" := Some("B"), "B" := None])
            == HashInput(own, names, map["A" := None, "B" := Some("B")])
  {
    var names := ["A", "B"];
    var x := if own.Some? then [own.value] else [];
    assert names[..1] == ["A"] && ["A"][..0] == [];
    var l1: map<Key, Option<string>>, l2: map<Key, Option<string>>
      := map["A" := Some("B"), "B" := None], map["A" := None, "B" := Some("B")];
    assert HashInput(own, [], l1) == x == HashInput(own, [], l2);
    assert HashInput(own, ["A"], l1) == x + ["A"] + ["B"] && HashInput(own, ["A"], l2) == x + ["A"];
    assert HashInput(own, names, l1) == x + ["A"] + ["B"] + ["B"];
    assert HashInput(own, names, l2) == x + ["A"] + ["B"] + ["B"];
  }
}
