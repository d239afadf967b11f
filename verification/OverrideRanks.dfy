/**
 Which of several override variants the selection takes. The loop goes through OVERRIDES again and again. Each time it
 meets the last override of a candidate it takes it off, until only the first one is left; meeting that one, it
 matches. So every candidate has its moments, and what is matched last is taken.
 */
module OverrideRanks {
  import opened Prelude
  import opened Text
  import opened Overrides

  // ---- Moments -----------------------------------------------------------------------------------

  /** Entry `at` of OVERRIDES, in the given round. */
  datatype Moment = Moment(round: nat, at: nat) {
    predicate Before(m: Moment) {
      round < m.round || (round == m.round && at < m.at)
    }
  }

  /** The first place of `c` from entry `i` on, or the end. */
  function IndexFrom(overrides: seq<string>, c: string, i: nat): (j: nat)
    requires i <= |overrides|
    ensures i <= j <= |overrides| && c !in overrides[i..j] && (j < |overrides| ==> overrides[j] == c)
    decreases |overrides| - i
  {
    if i == |overrides| || overrides[i] == c then i
    else
      var j := IndexFrom(overrides, c, i + 1);
      assert overrides[i..j] == [overrides[i]] + overrides[i + 1..j];
      j
  }

  /** When `c` is met next, now included. */
  function Next(overrides: seq<string>, now: Moment, c: string): (m: Moment)
    requires c in overrides && now.at <= |overrides|
    ensures m.at < |overrides| && overrides[m.at] == c && !m.Before(now)
  {
    var j := IndexFrom(overrides, c, now.at);
    if j < |overrides| then Moment(now.round, j)
    else
      assert overrides[0..|overrides|] == overrides;
      Moment(now.round + 1, IndexFrom(overrides, c, 0))
  }

  function After(m: Moment): Moment {
    Moment(m.round, m.at + 1)
  }

  /** The moments of a candidate, the last one first: when it is matched, and before that, when it is stripped. */
  function Moments(overrides: seq<string>, now: Moment, a: Suffix): (ms: seq<Moment>)
    requires a != [] && Active(a, overrides) && now.at <= |overrides|
    ensures ms != [] && forall m | m in ms :: !m.Before(now)
    decreases |a|
  {
    var o := a[|a| - 1];
    var m := Next(overrides, now, o);
    if |a| == 1 then [m] else Moments(overrides, After(m), a[..|a| - 1]) + [m]
  }

  /** Lexicographic: the first difference decides, and a longer list comes after its beginnings. */
  predicate NotAfter(x: seq<Moment>, y: seq<Moment>) {
    x == [] || (y != [] && (x[0].Before(y[0]) || (x[0] == y[0] && NotAfter(x[1..], y[1..]))))
  }

  lemma {:induction false} NotAfterItself(x: seq<Moment>)
    ensures NotAfter(x, x)
  {
    if x != [] {
      NotAfterItself(x[1..]);
    }
  }

  /** An earlier moment at the end of the one list, and of the other, if it is another. */
  lemma {:induction false} NotAfterLonger(x: seq<Moment>, y: seq<Moment>, m: Moment)
    requires NotAfter(x, y) && forall k | k in y :: m.Before(k)
    ensures NotAfter(x, y + [m])
    ensures x != y ==> NotAfter(x + [m], y) && NotAfter(x + [m], y + [m])
    ensures x == y ==> NotAfter(x + [m], y + [m])
  {
    if x != [] && y != [] && x[0] == y[0] {
      NotAfterLonger(x[1..], y[1..], m);
      assert (x + [m])[1..] == x[1..] + [m] && (y + [m])[1..] == y[1..] + [m];
      assert x == [x[0]] + x[1..] && y == [y[0]] + y[1..];
    } else if x == [] {
      NotAfterItself([m]);
      assert y != [] ==> m.Before(y[0]) && (y + [m])[0] == y[0];
    } else {
      assert (x + [m])[0] == x[0] && (y + [m])[0] == y[0];
    }
  }

  // ---- One sweep -----------------------------------------------------------------------------------

  /** A suffix without repetitions. */
  predicate NoRepeats(a: Suffix) {
    a != [] && forall i, j | 0 <= i < j < |a| :: a[i] != a[j]
  }

  ghost predicate Clean(d: Dict, overrides: seq<string>) {
    d.Valid() && forall a | a in d.vals :: NoRepeats(a) && Active(a, overrides)
  }

  lemma {:induction false} NothingToStrip(a: Suffix, o: string)
    requires a != [] && o !in a[1..]
    ensures Strip(a, o) == a
    decreases |a|
  {
    if |a| > 1 {
      var front, last := a[..|a| - 1], a[|a| - 1];
      assert a[1..] == front[1..] + [last];
      assert last in a[1..];
      NothingToStrip(front, o);
    }
  }

  /** The components other than `o`. */
  function Others(a: seq<string>, o: string): seq<string> {
    if a == [] then [] else (if a[0] == o then [] else [a[0]]) + Others(a[1..], o)
  }

  lemma {:induction false} OthersSnoc(a: seq<string>, x: string, o: string)
    ensures Others(a + [x], o) == Others(a, o) + if x == o then [] else [x]
  {
    if a == [] {
      assert a + [x] == [x];
    } else {
      assert (a + [x])[1..] == a[1..] + [x];
      OthersSnoc(a[1..], x, o);
    }
  }

  /** In general every `o` but one in the first place goes, and the rest stays in order. */
  lemma {:induction false} StripExactly(a: Suffix, o: string)
    requires a != []
    ensures Strip(a, o) == [a[0]] + Others(a[1..], o)
    decreases |a|
  {
    if |a| > 1 {
      var front, last := a[..|a| - 1], a[|a| - 1];
      StripExactly(front, o);
      assert a[1..] == front[1..] + [last];
      OthersSnoc(front[1..], last, o);
    } else {
      assert a == [a[0]] + [] && a[1..] == [];
    }
  }

  /** The last override is taken off, and what is left does not end in it. */
  lemma StripClean(a: Suffix, o: string, overrides: seq<string>)
    requires NoRepeats(a) && Active(a, overrides) && EndsWith(a, o) && |a| > 1
    ensures var r := a[..|a| - 1]; Strip(a, o) == r && NoRepeats(r) && Active(r, overrides) && !EndsWith(r, o)
  {
    NothingToStrip(a[..|a| - 1], o);
  }

  /** A visit to `a` does something to it. */
  predicate Moves(a: Suffix, keys: seq<Suffix>, o: string) {
    a in keys && EndsWith(a, o)
  }

  predicate StripsTo(a: Suffix, keys: seq<Suffix>, o: string, b: Suffix) {
    Moves(a, keys, o) && |a| > 1 && Strip(a, o) == b
  }

  /** `a` after the sweep is `b` before it: it was stripped, or it stayed and nothing was stripped to it. */
  ghost predicate ComesFrom(d: Dict, keys: seq<Suffix>, o: string, a: Suffix, b: Suffix) {
    && b in d.vals
    && if Moves(b, keys, o) then StripsTo(b, keys, o, a)
       else b == a && forall x | x in d.vals :: !StripsTo(x, keys, o, a)
  }

  /** Every candidate is still there, stripped or not. */
  predicate Survive(d: Dict, d': Dict, keys: seq<Suffix>, o: string) {
    forall a | a in d.vals :: if Moves(a, keys, o) then |a| > 1 ==> Strip(a, o) in d'.vals else a in d'.vals
  }

  ghost predicate Source(d: Dict, d': Dict, keys: seq<Suffix>, o: string, a: Suffix, b: Suffix)
    requires a in d'.vals
  {
    ComesFrom(d, keys, o, a, b) && d'.vals[a] == d.vals[b]
  }

  ghost predicate Sourced(d: Dict, d': Dict, keys: seq<Suffix>, o: string) {
    forall a | a in d'.vals :: exists b :: Source(d, d', keys, o, a, b)
  }

  ghost predicate Swept(s: Selection, r: Selection, keys: seq<Suffix>, o: string) {
    && Survive(s.active, r.active, keys, o) && Sourced(s.active, r.active, keys, o)
    && ChosenIs(s, r, keys, o)
  }

  lemma VisitClean(s: Selection, a: Suffix, o: string, overrides: seq<string>)
    requires Clean(s.active, overrides) && a in s.active.vals
    ensures Clean(Visit(s, a, o).active, overrides)
  {
    if EndsWith(a, o) && |a| > 1 {
      StripClean(a, o, overrides);
    }
  }

  ghost predicate Ready(d: Dict, keys: seq<Suffix>, overrides: seq<string>) {
    Clean(d, overrides) && Distinct(keys) && forall a | a in keys :: a in d.vals
  }

  /** A sweep strips every candidate that ends in `o` and matches the one that is just `o`. */
  lemma {:induction false} SweepIs(s: Selection, keys: seq<Suffix>, o: string, overrides: seq<string>)
    requires Ready(s.active, keys, overrides)
    ensures Clean(Sweep(s, keys, o).active, overrides) && Swept(s, Sweep(s, keys, o), keys, o)
    decreases |keys|
  {
    if keys == [] {
      forall a | a in s.active.vals ensures Source(s.active, s.active, keys, o, a, a) {
      }
    } else {
      var s', rest := Visit(s, keys[0], o), keys[1..];
      VisitClean(s, keys[0], o, overrides);
      VisitReady(s, keys, o, overrides);
      SweepIs(s', rest, o, overrides);
      FirstVisit(s, Sweep(s', rest, o), keys, o, overrides);
    }
  }

  lemma VisitReady(s: Selection, keys: seq<Suffix>, o: string, overrides: seq<string>)
    requires Ready(s.active, keys, overrides) && keys != []
    ensures Ready(Visit(s, keys[0], o).active, keys[1..], overrides)
    ensures keys[0] !in keys[1..] && forall a :: a in keys <==> a == keys[0] || a in keys[1..]
  {
    VisitClean(s, keys[0], o, overrides);
  }

  /** The visit to the first key, and then the sweep over the others. */
  lemma FirstVisit(s: Selection, r: Selection, keys: seq<Suffix>, o: string, overrides: seq<string>)
    requires Ready(s.active, keys, overrides) && keys != []
    requires Swept(Visit(s, keys[0], o), r, keys[1..], o)
    ensures Swept(s, r, keys, o)
  {
    var k, s' := keys[0], Visit(s, keys[0], o);
    VisitReady(s, keys, o, overrides);
    if EndsWith(k, o) && |k| > 1 {
      StripClean(k, o, overrides);
    }
    ChosenStep(s, r, keys, o);
    if !EndsWith(k, o) {
      StaySourced(s.active, r.active, keys, o);
    } else if |k| == 1 {
      assert k == [o];
      MatchSourced(s.active, s'.active, r.active, keys, o);
    } else {
      StripSourced(s.active, s'.active, r.active, keys, o);
    }
  }

  predicate ChosenIs(s: Selection, r: Selection, keys: seq<Suffix>, o: string) {
    r.chosen == if [o] in keys && [o] in s.active.vals then Some(s.active.vals[[o]]) else s.chosen
  }

  lemma ChosenStep(s: Selection, r: Selection, keys: seq<Suffix>, o: string)
    requires s.active.Valid() && keys != [] && keys[0] in s.active.vals && keys[0] !in keys[1..]
    requires forall a :: a in keys <==> a == keys[0] || a in keys[1..]
    requires EndsWith(keys[0], o) && |keys[0]| > 1 ==> !EndsWith(Strip(keys[0], o), o)
    requires ChosenIs(Visit(s, keys[0], o), r, keys[1..], o)
    ensures ChosenIs(s, r, keys, o)
  {
    var k := keys[0];
    if EndsWith(k, o) && |k| == 1 {
      assert k == [o];
    } else if EndsWith(k, o) {
      assert Strip(k, o) != [o] && k != [o];
    }
  }

  lemma StaySourced(d: Dict, r: Dict, keys: seq<Suffix>, o: string)
    requires keys != [] && !EndsWith(keys[0], o) && Survive(d, r, keys[1..], o) && Sourced(d, r, keys[1..], o)
    ensures Survive(d, r, keys, o) && Sourced(d, r, keys, o)
  {
    assert forall a :: Moves(a, keys, o) <==> Moves(a, keys[1..], o);
    forall a | a in r.vals ensures exists b :: Source(d, r, keys, o, a, b) {
      var b :| Source(d, r, keys[1..], o, a, b);
      assert forall x :: StripsTo(x, keys, o, a) <==> StripsTo(x, keys[1..], o, a);
      assert Source(d, r, keys, o, a, b);
    }
  }

  lemma MatchSourced(d: Dict, d': Dict, r: Dict, keys: seq<Suffix>, o: string)
    requires keys != [] && keys[0] == [o] && d'.vals == d.vals - {[o]}
    requires Survive(d', r, keys[1..], o) && Sourced(d', r, keys[1..], o)
    ensures Survive(d, r, keys, o) && Sourced(d, r, keys, o)
  {
    assert forall a | a != [o] :: Moves(a, keys, o) <==> Moves(a, keys[1..], o);
    forall a | a in r.vals ensures exists b :: Source(d, r, keys, o, a, b) {
      var b :| Source(d', r, keys[1..], o, a, b);
      StripsToRest(d, keys, o, a);
      assert Source(d, r, keys, o, a, b);
    }
  }

  lemma StripsToRest(d: Dict, keys: seq<Suffix>, o: string, a: Suffix)
    requires keys != [] && keys[0] == [o]
    ensures forall x | x in d.vals && StripsTo(x, keys, o, a) :: x != [o] && StripsTo(x, keys[1..], o, a)
  {
  }

  lemma StripSourced(d: Dict, d': Dict, r: Dict, keys: seq<Suffix>, o: string)
    requires keys != [] && keys[0] in d.vals && EndsWith(keys[0], o) && |keys[0]| > 1
    requires !EndsWith(Strip(keys[0], o), o) && d'.vals == (d.vals - {keys[0]})[Strip(keys[0], o) := d.vals[keys[0]]]
    requires Survive(d', r, keys[1..], o) && Sourced(d', r, keys[1..], o)
    ensures Survive(d, r, keys, o) && Sourced(d, r, keys, o)
  {
    var k := keys[0];
    StripSurvive(d, d', r, keys, o);
    assert Strip(k, o) in d'.vals && !Moves(Strip(k, o), keys[1..], o);
    forall a | a in r.vals ensures exists b :: Source(d, r, keys, o, a, b) {
      var b :| Source(d', r, keys[1..], o, a, b);
      if b == Strip(k, o) {
        assert a == b && StripsTo(k, keys, o, a);
        assert Source(d, r, keys, o, a, k);
      } else {
        StayedOrStripped(d, d', keys, o, a, b);
        assert Source(d, r, keys, o, a, b);
      }
    }
  }

  lemma StripSurvive(d: Dict, d': Dict, r: Dict, keys: seq<Suffix>, o: string)
    requires keys != [] && keys[0] in d.vals && EndsWith(keys[0], o) && |keys[0]| > 1
    requires !EndsWith(Strip(keys[0], o), o) && d'.vals == (d.vals - {keys[0]})[Strip(keys[0], o) := d.vals[keys[0]]]
    requires Survive(d', r, keys[1..], o)
    ensures Survive(d, r, keys, o)
  {
    assert forall a | a != keys[0] :: Moves(a, keys, o) <==> Moves(a, keys[1..], o);
    assert Strip(keys[0], o) in d'.vals && !Moves(Strip(keys[0], o), keys[1..], o);
  }

  lemma StayedOrStripped(d: Dict, d': Dict, keys: seq<Suffix>, o: string, a: Suffix, b: Suffix)
    requires keys != [] && keys[0] in d.vals && EndsWith(keys[0], o) && |keys[0]| > 1 && b != Strip(keys[0], o)
    requires d'.vals == (d.vals - {keys[0]})[Strip(keys[0], o) := d.vals[keys[0]]] && ComesFrom(d', keys[1..], o, a, b)
    requires !EndsWith(Strip(keys[0], o), o)
    ensures ComesFrom(d, keys, o, a, b)
  {
    assert b != keys[0];
    assert Moves(b, keys, o) <==> Moves(b, keys[1..], o);
    if !Moves(b, keys, o) {
      forall x | x in d.vals ensures !StripsTo(x, keys, o, a) {
        if x != keys[0] {
          assert x in d'.vals && !StripsTo(x, keys[1..], o, a);
        }
      }
    }
  }

  // ---- The selection ---------------------------------------------------------------------------------

  lemma NextPasses(overrides: seq<string>, now: Moment, c: string)
    requires c in overrides && now.at < |overrides|
    ensures Next(overrides, now, c) == if c == overrides[now.at] then now else Next(overrides, After(now), c)
  {
  }

  /** Going on one entry changes nothing for a candidate that does not end in it; one that does has its moment. */
  lemma MomentPasses(overrides: seq<string>, now: Moment, a: Suffix)
    requires NoRepeats(a) && Active(a, overrides) && now.at < |overrides|
    ensures var o, later := overrides[now.at], After(now);
            if !EndsWith(a, o) then Moments(overrides, now, a) == Moments(overrides, later, a)
            else if |a| > 1 then Moments(overrides, now, a) == Moments(overrides, later, a[..|a| - 1]) + [now]
            else Moments(overrides, now, a) == [now]
  {
    NextPasses(overrides, now, a[|a| - 1]);
  }

  /** The moments spell the suffix. */
  lemma {:induction false} MomentsSpell(overrides: seq<string>, now: Moment, a: Suffix)
    requires a != [] && Active(a, overrides) && now.at <= |overrides|
    ensures var ms := Moments(overrides, now, a);
            |ms| == |a| && forall i | 0 <= i < |a| :: ms[i].at < |overrides| && overrides[ms[i].at] == a[i]
    decreases |a|
  {
    if |a| > 1 {
      MomentsSpell(overrides, After(Next(overrides, now, a[|a| - 1])), a[..|a| - 1]);
    }
  }

  /** So different suffixes have different moments. */
  lemma MomentsDiffer(overrides: seq<string>, now: Moment, a: Suffix, b: Suffix)
    requires a != [] && Active(a, overrides) && b != [] && Active(b, overrides) && now.at <= |overrides|
    requires Moments(overrides, now, a) == Moments(overrides, now, b)
    ensures a == b
  {
    MomentsSpell(overrides, now, a);
    MomentsSpell(overrides, now, b);
    forall i | 0 <= i < |a| ensures a[i] == b[i] {
      assert overrides[Moments(overrides, now, a)[i].at] == a[i];
    }
  }

  /** The end of a round is the beginning of the next. */
  lemma RoundEnds(overrides: seq<string>, r: nat, a: Suffix)
    requires NoRepeats(a) && Active(a, overrides)
    ensures Moments(overrides, Moment(r, |overrides|), a) == Moments(overrides, Moment(r + 1, 0), a)
  {
    assert overrides[0..|overrides|] == overrides;
  }

  ghost predicate Greatest(d: Dict, overrides: seq<string>, now: Moment, a: Suffix)
    requires Clean(d, overrides) && now.at <= |overrides|
  {
    a in d.vals && forall b | b in d.vals :: NotAfter(Moments(overrides, now, b), Moments(overrides, now, a))
  }

  /** What is chosen in the end: the candidate with the greatest moments, if there still is one. */
  ghost predicate Wins(s: Selection, overrides: seq<string>, now: Moment, chosen: Option<Name>)
    requires Clean(s.active, overrides) && now.at <= |overrides|
  {
    if s.active.vals == map[] then chosen == s.chosen
    else exists a :: Greatest(s.active, overrides, now, a) && chosen == Some(s.active.vals[a])
  }

  /** Seen from before a sweep, its winner is the same. */
  lemma SweepWins(s: Selection, r: Selection, overrides: seq<string>, now: Moment, chosen: Option<Name>)
    requires Clean(s.active, overrides) && Clean(r.active, overrides) && now.at < |overrides|
    requires Swept(s, r, s.active.keys, overrides[now.at]) && Wins(r, overrides, After(now), chosen)
    ensures Wins(s, overrides, now, chosen)
  {
    var o := overrides[now.at];
    if r.active.vals == map[] {
      OnlyMatched(s, r, overrides, now);
    } else {
      var a' :| Greatest(r.active, overrides, After(now), a') && chosen == Some(r.active.vals[a']);
      var a :| Source(s.active, r.active, s.active.keys, o, a', a);
      forall b | b in s.active.vals ensures NotAfter(Moments(overrides, now, b), Moments(overrides, now, a)) {
        StillGreatest(s, r, overrides, now, a', a, b);
      }
      assert Greatest(s.active, overrides, now, a);
    }
  }

  lemma OnlyMatched(s: Selection, r: Selection, overrides: seq<string>, now: Moment)
    requires Clean(s.active, overrides) && now.at < |overrides| && r.active.vals == map[]
    requires Swept(s, r, s.active.keys, overrides[now.at])
    ensures Wins(s, overrides, now, r.chosen)
  {
    var o := overrides[now.at];
    forall a | a in s.active.vals ensures a == [o] {
      assert Moves(a, s.active.keys, o);
    }
    if s.active.vals != map[] {
      var a :| a in s.active.vals;
      NotAfterItself(Moments(overrides, now, a));
      assert Greatest(s.active, overrides, now, [o]);
    }
  }

  lemma StillGreatest(s: Selection, r: Selection, overrides: seq<string>, now: Moment, a': Suffix, a: Suffix,
                      b: Suffix)
    requires Clean(s.active, overrides) && Clean(r.active, overrides) && now.at < |overrides|
    requires Swept(s, r, s.active.keys, overrides[now.at]) && Greatest(r.active, overrides, After(now), a')
    requires Source(s.active, r.active, s.active.keys, overrides[now.at], a', a) && b in s.active.vals
    ensures NotAfter(Moments(overrides, now, b), Moments(overrides, now, a))
  {
    SourceImage(s.active, r.active, overrides, now, a', a);
    if b == [overrides[now.at]] {
      MomentPasses(overrides, now, b);
      MatchedFirst(overrides, now, a, a');
    } else {
      ImageThere(s.active, r.active, overrides, now, b);
      if Image(overrides, now, b) == a' {
        SameImage(s.active, r.active, overrides, now, a', a, b);
        NotAfterItself(Moments(overrides, now, b));
      } else {
        OtherImage(overrides, now, a, a', b, Image(overrides, now, b));
      }
    }
  }

  lemma SourceImage(d: Dict, d': Dict, overrides: seq<string>, now: Moment, a': Suffix, a: Suffix)
    requires Clean(d, overrides) && now.at < |overrides| && a' in d'.vals
    requires Source(d, d', d.keys, overrides[now.at], a', a)
    ensures a' == Image(overrides, now, a)
  {
    if EndsWith(a, overrides[now.at]) {
      assert Moves(a, d.keys, overrides[now.at]);
      StripClean(a, overrides[now.at], overrides);
    }
  }

  /** If something was stripped to `a'`, it is what `a'` comes from. */
  lemma SameImage(d: Dict, d': Dict, overrides: seq<string>, now: Moment, a': Suffix, a: Suffix, b: Suffix)
    requires Clean(d, overrides) && now.at < |overrides| && a' in d'.vals && b in d.vals
    requires Source(d, d', d.keys, overrides[now.at], a', a)
    requires a' == Image(overrides, now, b) == Image(overrides, now, a)
    requires EndsWith(b, overrides[now.at]) ==> |b| > 1 && Strip(b, overrides[now.at]) == a'
    ensures NotAfter(Moments(overrides, now, b), Moments(overrides, now, a))
  {
    var o := overrides[now.at];
    NotAfterItself(Moments(overrides, now, b));
    if EndsWith(b, o) {
      assert StripsTo(b, d.keys, o, a') && Moves(a, d.keys, o);
      assert a == a' + [o] && b == a' + [o];
    } else if EndsWith(a, o) {
      MomentPasses(overrides, now, a);
      MomentPasses(overrides, now, b);
      var x := Moments(overrides, After(now), a');
      NotAfterItself(x);
      NotAfterLonger(x, x, now);
    }
  }

  /** What becomes of a candidate, other than that it is matched. */
  function Image(overrides: seq<string>, now: Moment, b: Suffix): Suffix
    requires now.at < |overrides|
  {
    if EndsWith(b, overrides[now.at]) then b[..|b| - 1] else b
  }

  lemma ImageThere(d: Dict, d': Dict, overrides: seq<string>, now: Moment, b: Suffix)
    requires Clean(d, overrides) && now.at < |overrides| && Survive(d, d', d.keys, overrides[now.at])
    requires b in d.vals && b != [overrides[now.at]]
    ensures Image(overrides, now, b) in d'.vals
    ensures EndsWith(b, overrides[now.at]) ==> |b| > 1 && Strip(b, overrides[now.at]) == Image(overrides, now, b)
  {
    if EndsWith(b, overrides[now.at]) {
      assert b == b[..|b| - 1] + [overrides[now.at]];
      StripClean(b, overrides[now.at], overrides);
      assert Moves(b, d.keys, overrides[now.at]);
    } else {
      assert !Moves(b, d.keys, overrides[now.at]);
    }
  }

  lemma MatchedFirst(overrides: seq<string>, now: Moment, a: Suffix, a': Suffix)
    requires now.at < |overrides| && NoRepeats(a) && Active(a, overrides) && NoRepeats(a') && Active(a', overrides)
    requires a' == Image(overrides, now, a)
    ensures NotAfter([now], Moments(overrides, now, a))
  {
    MomentPasses(overrides, now, a);
    LaterThan(Moments(overrides, After(now), a'), Moments(overrides, now, a), now);
  }

  lemma LaterThan(x: seq<Moment>, ms: seq<Moment>, now: Moment)
    requires x != [] && (ms == x || ms == x + [now]) && forall m | m in x :: !m.Before(After(now))
    ensures NotAfter([now], ms)
  {
    assert ms[0] == x[0] && x[0] in x && now.Before(x[0]);
  }

  lemma OtherImage(overrides: seq<string>, now: Moment, a: Suffix, a': Suffix, b: Suffix, b': Suffix)
    requires now.at < |overrides| && NoRepeats(a) && Active(a, overrides) && NoRepeats(a') && Active(a', overrides)
    requires NoRepeats(b) && Active(b, overrides) && NoRepeats(b') && Active(b', overrides)
    requires a' == Image(overrides, now, a) && b' == Image(overrides, now, b) && a' != b'
    requires NotAfter(Moments(overrides, After(now), b'), Moments(overrides, After(now), a'))
    ensures NotAfter(Moments(overrides, now, b), Moments(overrides, now, a))
  {
    var x, y := Moments(overrides, After(now), a'), Moments(overrides, After(now), b');
    MomentPasses(overrides, now, a);
    MomentPasses(overrides, now, b);
    if x == y {
      MomentsDiffer(overrides, After(now), a', b');
    }
    NotAfterLonger(y, x, now);
  }

  lemma {:induction false} RoundWins(s: Selection, overrides: seq<string>, now: Moment, chosen: Option<Name>)
    requires Clean(s.active, overrides) && now.at <= |overrides|
    requires var r := Round(s, overrides[now.at..]);
             Clean(r.active, overrides) ==> Wins(r, overrides, Moment(now.round, |overrides|), chosen)
    ensures Clean(Round(s, overrides[now.at..]).active, overrides) && Wins(s, overrides, now, chosen)
    decreases |overrides| - now.at
  {
    if now.at < |overrides| {
      var o := overrides[now.at];
      var r := Sweep(s, s.active.keys, o);
      assert overrides[now.at..][1..] == overrides[now.at + 1..];
      SweepIs(s, s.active.keys, o, overrides);
      RoundWins(r, overrides, After(now), chosen);
      SweepWins(s, r, overrides, now, chosen);
    }
  }

  lemma {:induction false} RoundsWin(s: Selection, overrides: seq<string>, r: nat)
    requires Clean(s.active, overrides)
    ensures Wins(s, overrides, Moment(r, 0), Rounds(s, overrides).chosen)
    decreases Weight(s.active.keys)
  {
    var s0 := s.(mod := false);
    var s1 := Round(s0, overrides);
    var chosen := Rounds(s, overrides).chosen;
    assert overrides[0..] == overrides;
    RoundClean(s0, overrides, overrides);
    if s1.mod {
      RoundsWin(s1, overrides, r + 1);
      forall a | a in s1.active.vals
        ensures Moments(overrides, Moment(r, |overrides|), a) == Moments(overrides, Moment(r + 1, 0), a)
      {
        RoundEnds(overrides, r, a);
      }
      if s1.active.vals != map[] {
        var a :| Greatest(s1.active, overrides, Moment(r + 1, 0), a) && chosen == Some(s1.active.vals[a]);
        assert Greatest(s1.active, overrides, Moment(r, |overrides|), a);
      }
    } else {
      QuietRound(s0, overrides);
      assert forall a | a in s1.active.vals :: a[|a| - 1] in overrides && !EndsWith(a, a[|a| - 1]);
    }
    RoundWins(s0, overrides, Moment(r, 0), chosen);
  }

  lemma {:induction false} RoundClean(s: Selection, rest: seq<string>, overrides: seq<string>)
    requires Clean(s.active, overrides)
    ensures Clean(Round(s, rest).active, overrides)
    decreases |rest|
  {
    if rest != [] {
      SweepIs(s, s.active.keys, rest[0], overrides);
      RoundClean(Sweep(s, s.active.keys, rest[0]), rest[1..], overrides);
    }
  }

  // ---- What is taken -----------------------------------------------------------------------------------

  /** Of an active suffix, the first override does not come again in it. */
  predicate NoneRepeats(variants: seq<Variant>, overrides: seq<string>) {
    forall v | v in variants && Active(v.suffix, overrides) :: NoRepeats(v.suffix)
  }

  const START := Moment(0, 0)

  /** `variants[i]` is active, and the last one listed with its suffix. */
  predicate LastListed(variants: seq<Variant>, overrides: seq<string>, i: int) {
    && 0 <= i < |variants| && Active(variants[i].suffix, overrides)
    && forall j | i < j < |variants| :: variants[j].suffix != variants[i].suffix
  }

  /** No active variant has its moments after those of `variants[i]`. */
  ghost predicate TakenLast(variants: seq<Variant>, overrides: seq<string>, i: int)
    requires 0 <= i < |variants| && NoneRepeats(variants, overrides) && Active(variants[i].suffix, overrides)
  {
    forall w | w in variants && Active(w.suffix, overrides) ::
      NotAfter(Moments(overrides, START, w.suffix), Moments(overrides, START, variants[i].suffix))
  }

  lemma {:induction false} CollectIs(variants: seq<Variant>, overrides: seq<string>, a: Suffix) returns (i: int)
    requires a in Collect(variants, overrides).vals
    ensures LastListed(variants, overrides, i)
    ensures variants[i] == Variant(Collect(variants, overrides).vals[a], a)
  {
    var n := |variants| - 1;
    var front := variants[..n];
    if Active(variants[n].suffix, overrides) && variants[n].suffix == a {
      i := n;
    } else {
      assert a in Collect(front, overrides).vals
             && Collect(front, overrides).vals[a] == Collect(variants, overrides).vals[a];
      i := CollectIs(front, overrides, a);
      assert front[i] == variants[i];
      LastOfLonger(variants, overrides, i);
    }
  }

  lemma LastOfLonger(variants: seq<Variant>, overrides: seq<string>, i: int)
    requires variants != [] && LastListed(variants[..|variants| - 1], overrides, i)
    requires variants[|variants| - 1].suffix != variants[i].suffix
    ensures LastListed(variants, overrides, i)
  {
    var front := variants[..|variants| - 1];
    forall j | i < j < |variants| ensures variants[j].suffix != variants[i].suffix {
      assert j < |front| ==> front[j] == variants[j];
    }
  }

  /** The active variant that is taken is one whose moments come after those of every other. */
  lemma ChooseTakesLast(variants: seq<Variant>, overrides: seq<string>) returns (i: int)
    requires NoneRepeats(variants, overrides) && exists v :: v in variants && Active(v.suffix, overrides)
    ensures LastListed(variants, overrides, i) && TakenLast(variants, overrides, i)
    ensures Choose(variants, overrides) == Some(variants[i].name)
  {
    CollectValues(variants, overrides);
    var d := Collect(variants, overrides);
    RoundsWin(Selection(d, None, true), overrides, 0);
    var v :| v in variants && Active(v.suffix, overrides);
    assert v.suffix in d.vals;
    var a :| Greatest(d, overrides, START, a) && Choose(variants, overrides) == Some(d.vals[a]);
    i := CollectIs(variants, overrides, a);
  }

  lemma {:induction false} NotAfterBoth(x: seq<Moment>, y: seq<Moment>)
    requires NotAfter(x, y) && NotAfter(y, x)
    ensures x == y
  {
    if x != [] && y != [] {
      NotAfterBoth(x[1..], y[1..]);
      assert x == [x[0]] + x[1..] && y == [y[0]] + y[1..];
    }
  }

  /** A variant is taken exactly if its moments come last: from the order of OVERRIDES alone. */
  lemma TakenExactly(variants: seq<Variant>, overrides: seq<string>, i: int)
    requires NoneRepeats(variants, overrides) && LastListed(variants, overrides, i)
    requires forall v, w | v in variants && w in variants && v.name == w.name :: v.suffix == w.suffix
    ensures Choose(variants, overrides) == Some(variants[i].name) <==> TakenLast(variants, overrides, i)
  {
    assert variants[i] in variants;
    var k := ChooseTakesLast(variants, overrides);
    var a, b := variants[i].suffix, variants[k].suffix;
    assert variants[k] in variants;
    if TakenLast(variants, overrides, i) {
      NotAfterBoth(Moments(overrides, START, a), Moments(overrides, START, b));
      MomentsDiffer(overrides, START, a, b);
    }
  }

  // ---- OVERRIDES without repetitions -----------------------------------------------------------------------

  predicate NoneTwice(overrides: seq<string>) {
    forall i, j | 0 <= i < j < |overrides| :: overrides[i] != overrides[j]
  }

  /** Where `c` stands in OVERRIDES. */
  function Place(overrides: seq<string>, c: string): nat {
    IndexFrom(overrides, c, 0)
  }

  lemma PlaceIs(overrides: seq<string>, c: string)
    requires c in overrides
    ensures Place(overrides, c) < |overrides| && overrides[Place(overrides, c)] == c
  {
    assert overrides[0..|overrides|] == overrides;
  }

  /** How many overrides of the suffix stand before the one that follows them in it. */
  function Ascents(overrides: seq<string>, a: Suffix): nat {
    if |a| <= 1 then 0
    else
      Ascents(overrides, a[..|a| - 1])
      + if Place(overrides, a[|a| - 2]) < Place(overrides, a[|a| - 1]) then 1 else 0
  }

  lemma NextIs(overrides: seq<string>, now: Moment, c: string)
    requires NoneTwice(overrides) && c in overrides && now.at <= |overrides|
    ensures var p := Place(overrides, c);
            Next(overrides, now, c) == if now.at <= p then Moment(now.round, p) else Moment(now.round + 1, p)
  {
    PlaceIs(overrides, c);
  }

  /** A candidate is matched where its first override stands, after as many rounds as it has ascents. */
  lemma {:induction false} MatchedAt(overrides: seq<string>, now: Moment, a: Suffix)
    requires NoneTwice(overrides) && NoRepeats(a) && Active(a, overrides) && now.at <= |overrides|
    ensures var last, first := Place(overrides, a[|a| - 1]), Place(overrides, a[0]);
            var round := now.round + Ascents(overrides, a) + if now.at <= last then 0 else 1;
            Moments(overrides, now, a)[0] == Moment(round, first)
    decreases |a|
  {
    var n := |a| - 1;
    NextIs(overrides, now, a[n]);
    if n > 0 {
      PlaceIs(overrides, a[n]);
      PlaceIs(overrides, a[n - 1]);
      assert a[n - 1] != a[n];
      MatchedAt(overrides, After(Next(overrides, now, a[n])), a[..n]);
    }
  }

  /** Fewer ascents; or as many, and a first override that stands further left. */
  predicate RanksBelow(overrides: seq<string>, a: Suffix, b: Suffix)
    requires a != [] && b != []
  {
    var x, y := Ascents(overrides, a), Ascents(overrides, b);
    x < y || (x == y && Place(overrides, a[0]) < Place(overrides, b[0]))
  }

  lemma RankDecides(overrides: seq<string>, a: Suffix, b: Suffix)
    requires NoneTwice(overrides) && NoRepeats(a) && Active(a, overrides) && NoRepeats(b) && Active(b, overrides)
    ensures var x, y := Moments(overrides, START, a), Moments(overrides, START, b);
            RanksBelow(overrides, a, b) ==> NotAfter(x, y) && !NotAfter(y, x)
  {
    MatchedAt(overrides, START, a);
    MatchedAt(overrides, START, b);
  }

  /** No active variant ranks above the one that is taken; so one that ranks above all others is taken. */
  lemma HighestRankWins(variants: seq<Variant>, overrides: seq<string>) returns (i: int)
    requires NoneTwice(overrides) && NoneRepeats(variants, overrides)
    requires exists v :: v in variants && Active(v.suffix, overrides)
    ensures LastListed(variants, overrides, i) && Choose(variants, overrides) == Some(variants[i].name)
    ensures forall w | w in variants && Active(w.suffix, overrides) ::
              !RanksBelow(overrides, variants[i].suffix, w.suffix)
  {
    i := ChooseTakesLast(variants, overrides);
    forall w | w in variants && Active(w.suffix, overrides)
      ensures !RanksBelow(overrides, variants[i].suffix, w.suffix)
    {
      assert variants[i] in variants;
      RankDecides(overrides, variants[i].suffix, w.suffix);
    }
  }

  /** Of the two candidates `p:q` and `k`, the first is taken iff `p` stands before `q`, or `k` before `p`. */
  lemma TwoAgainstOne(pq: Name, one: Name, p: string, q: string, k: string, overrides: seq<string>)
    requires NoneTwice(overrides) && p in overrides && q in overrides && k in overrides
    requires p != q && p != k && q != k && pq != one
    ensures var variants := [Variant(pq, [p, q]), Variant(one, [k])];
            Choose(variants, overrides) == Some(pq) <==>
            Place(overrides, p) < Place(overrides, q) || Place(overrides, k) < Place(overrides, p)
  {
    var variants := [Variant(pq, [p, q]), Variant(one, [k])];
    TwoRanks(p, q, k, overrides);
    assert variants[0] in variants && variants[1] in variants && Active([p, q], overrides) && Active([k], overrides);
    var i := HighestRankWins(variants, overrides);
    assert i == 0 || i == 1;
  }

  lemma TwoRanks(p: string, q: string, k: string, overrides: seq<string>)
    requires p in overrides && q in overrides && k in overrides && p != q && p != k && q != k
    ensures RanksBelow(overrides, [k], [p, q]) <==>
            Place(overrides, p) < Place(overrides, q) || Place(overrides, k) < Place(overrides, p)
    ensures RanksBelow(overrides, [p, q], [k]) <==> !RanksBelow(overrides, [k], [p, q])
    ensures NoRepeats([p, q]) && NoRepeats([k])
  {
    PlaceIs(overrides, p);
    PlaceIs(overrides, k);
    assert [p, q][..1] == [p];
    assert Ascents(overrides, [p, q]) == if Place(overrides, p) < Place(overrides, q) then 1 else 0;
  }

  /** With OVERRIDES `a:b:c` the variant for `a:b` beats the one for `c`. */
  lemma StrippedLater()
    ensures Choose([Variant(["V", "a", "b"], ["a", "b"]), Variant(["V", "c"], ["c"])], ["a", "b", "c"])
         == Some(["V", "a", "b"])
  {
    var overrides := ["a", "b", "c"];
    assert "a" != "b" && "a" != "c" && "b" != "c";
    assert overrides[0] == "a" && overrides[1] == "b" && overrides[2] == "c";
    assert |["V", "a", "b"]| != |["V", "c"]|;
    PlaceIs(overrides, "a");
    PlaceIs(overrides, "b");
    TwoAgainstOne(["V", "a", "b"], ["V", "c"], "a", "b", "c", overrides);
  }

  // ---- Suffixes with repetitions ---------------------------------------------------------------------------

  /** The candidates `o:o`, `o` and `p`. */
  datatype Three = Three(double: Name, single: Name, other: Name, o: string, p: string) {
    function Double(): Suffix { [o, o] }
    function Single(): Suffix { [o] }
    function Other(): Suffix { [p] }

    function Listed(doubleFirst: bool): seq<Variant> {
      var d, s := Variant(double, Double()), Variant(single, Single());
      if doubleFirst then [d, s, Variant(other, Other())] else [s, d, Variant(other, Other())]
    }

    lemma Shapes()
      requires o != p
      ensures Double() != Single() && Double() != Other() && Single() != Other()
      ensures Strip(Double(), o) == Single()
      ensures EndsWith(Double(), o) && EndsWith(Single(), o) && !EndsWith(Other(), o)
      ensures !EndsWith(Double(), p) && !EndsWith(Single(), p) && EndsWith(Other(), p)
    {
      assert |Double()| == 2 && |Single()| == 1 && Single()[0] != Other()[0];
      assert Double()[..1] == Single();
    }
  }

  lemma CollectSnoc(variants: seq<Variant>, v: Variant, overrides: seq<string>)
    requires Active(v.suffix, overrides)
    ensures Collect(variants + [v], overrides) == Collect(variants, overrides).Put(v.suffix, v.name)
  {
    assert (variants + [v])[..|variants|] == variants;
  }

  lemma PutNew(d: Dict, k: Suffix, n: Name)
    requires d.Valid() && k !in d.keys
    ensures d.Put(k, n) == Dict(d.keys + [k], d.vals[k := n])
  {
  }

  lemma CollectTwo(x: Variant, y: Variant, overrides: seq<string>)
    requires Active(x.suffix, overrides) && Active(y.suffix, overrides) && x.suffix != y.suffix
    ensures Collect([x, y], overrides) == Dict([x.suffix, y.suffix], map[x.suffix := x.name, y.suffix := y.name])
  {
    CollectSnoc([], x, overrides);
    PutNew(Dict([], map[]), x.suffix, x.name);
    CollectSnoc([x], y, overrides);
    PutNew(Dict([x.suffix], map[x.suffix := x.name]), y.suffix, y.name);
    assert [] + [x] == [x] && [x] + [y] == [x, y] && [x.suffix] + [y.suffix] == [x.suffix, y.suffix];
  }

  lemma CollectThree(x: Variant, y: Variant, z: Variant, overrides: seq<string>)
    requires Active(x.suffix, overrides) && Active(y.suffix, overrides) && Active(z.suffix, overrides)
    requires x.suffix != y.suffix && x.suffix != z.suffix && y.suffix != z.suffix
    ensures Collect([x, y, z], overrides)
         == Dict([x.suffix, y.suffix, z.suffix], map[x.suffix := x.name, y.suffix := y.name, z.suffix := z.name])
  {
    CollectTwo(x, y, overrides);
    CollectSnoc([x, y], z, overrides);
    PutNew(Collect([x, y], overrides), z.suffix, z.name);
    assert [x, y] + [z] == [x, y, z];
    assert [x.suffix, y.suffix] + [z.suffix] == [x.suffix, y.suffix, z.suffix];
  }

  lemma SweepOne(s: Selection, a: Suffix, o: string)
    requires s.active.Valid() && a in s.active.vals
    ensures Sweep(s, [a], o) == Visit(s, a, o)
  {
    assert [a][1..] == [];
  }

  lemma SweepTwo(s: Selection, a: Suffix, b: Suffix, o: string)
    requires s.active.Valid() && a in s.active.vals && b in s.active.vals && a != b && b in Visit(s, a, o).active.vals
    ensures Sweep(s, [a, b], o) == Visit(Visit(s, a, o), b, o)
  {
    assert [a, b][1..] == [b];
    SweepOne(Visit(s, a, o), b, o);
  }

  /** A round with two entries. */
  lemma RoundTwo(s: Selection, o: string, p: string)
    requires s.active.Valid()
    ensures var r := Sweep(s, s.active.keys, o); Round(s, [o, p]) == Sweep(r, r.active.keys, p)
  {
    assert [o, p][1..] == [p] && [p][1..] == [];
    var r := Sweep(s, s.active.keys, o);
    assert Round(r, [p]) == Round(Sweep(r, r.active.keys, p), []);
  }

  lemma NothingLeft(chosen: Option<Name>, mod: bool, overrides: seq<string>)
    ensures Round(Selection(Dict([], map[]), chosen, mod), overrides) == Selection(Dict([], map[]), chosen, mod)
  {
    if overrides != [] {
      NothingLeft(chosen, mod, overrides[1..]);
    }
  }

  lemma {:induction false} NotThere(keys: seq<Suffix>, k: Suffix)
    requires k !in keys
    ensures Without(keys, k) == keys
  {
    if keys != [] {
      NotThere(keys[1..], k);
    }
  }

  lemma RemoveHead(k: Suffix, keys: seq<Suffix>)
    requires k !in keys
    ensures Without([k] + keys, k) == keys
  {
    assert ([k] + keys)[1..] == keys;
    NotThere(keys, k);
  }

  /** A last sweep that matches the only candidate ends the selection. */
  lemma OneLeft(s: Selection, a: Suffix, n: Name, p: string)
    requires a == [p] && s.active == Dict([a], map[a := n])
    ensures Sweep(s, s.active.keys, p) == Selection(Dict([], map[]), Some(n), s.mod)
  {
    assert [a] == [a] + [];
    RemoveHead(a, []);
    SweepOne(s, a, p);
    assert map[a := n] - {a} == map[];
  }

  lemma RoundsEnd(s: Selection, r: Selection, overrides: seq<string>, chosen: Option<Name>)
    requires s.active.Valid() && r == Round(s.(mod := false), overrides)
    requires r == Selection(Dict([], map[]), chosen, true)
    ensures Rounds(s, overrides).chosen == chosen
  {
    NothingLeft(chosen, false, overrides);
    assert Rounds(r, overrides) == r.(mod := false);
  }

  /** If `o:o` is listed first, `o` is overwritten with it and matched in the first round, before `p`. */
  lemma DoubleFirst(c: Three)
    requires c.o != c.p
    ensures Choose(c.Listed(true), [c.o, c.p]) == Some(c.other)
  {
    c.Shapes();
    var dd, ss, pp := c.Double(), c.Single(), c.Other();
    CollectThree(Variant(c.double, dd), Variant(c.single, ss), Variant(c.other, pp), [c.o, c.p]);
    var d := Collect(c.Listed(true), [c.o, c.p]);
    var s0, s1 := Selection(d, None, false), Selection(Dict([pp], map[pp := c.other]), Some(c.double), true);
    FirstSweepDouble(c, s0);
    RoundTwo(s0, c.o, c.p);
    OneLeft(s1, pp, c.other, c.p);
    RoundsEnd(Selection(d, None, true), Selection(Dict([], map[]), Some(c.other), true), [c.o, c.p], Some(c.other));
  }

  lemma FirstSweepDouble(c: Three, s0: Selection)
    requires c.o != c.p && s0.chosen == None && !s0.mod
    requires var dd, ss, pp := c.Double(), c.Single(), c.Other();
             s0.active == Dict([dd, ss, pp], map[dd := c.double, ss := c.single, pp := c.other]) && s0.active.Valid()
    ensures Sweep(s0, s0.active.keys, c.o)
         == Selection(Dict([c.Other()], map[c.Other() := c.other]), Some(c.double), true)
  {
    c.Shapes();
    var dd, ss, pp := c.Double(), c.Single(), c.Other();
    Overwritten(s0, dd, ss, pp, c.o);
    var r := Visit(s0, dd, c.o);
    Matched(r, ss, pp, c.o);
    SweepTwo(r, ss, pp, c.o);
    assert [dd, ss, pp][1..] == [ss, pp];
  }

  lemma Overwritten(s: Selection, a: Suffix, b: Suffix, z: Suffix, o: string)
    requires s.active.Valid() && s.active.keys == [a, b, z] && EndsWith(a, o) && |a| > 1 && Strip(a, o) == b
    ensures var r := Visit(s, a, o);
            r.active.keys == [b, z] && r.active.vals == map[b := s.active.vals[a], z := s.active.vals[z]]
            && r.chosen == s.chosen && r.mod
  {
    assert [a, b, z] == [a] + [b, z];
    assert [a, b, z][0] == a && [a, b, z][1] == b && [a, b, z][2] == z;
    RemoveHead(a, [b, z]);
    KeysOfThree(s.active, a, b, z);
    PutSecond(s.active.Remove(a), b, z, s.active.vals[b], s.active.vals[z], s.active.vals[a]);
  }

  lemma PutSecond(d: Dict, b: Suffix, z: Suffix, m: Name, n: Name, k: Name)
    requires d.Valid() && d == Dict([b, z], map[b := m, z := n])
    ensures d.Put(b, k) == Dict([b, z], map[b := k, z := n])
  {
    assert [b, z][0] == b && [b, z][1] == z;
    assert map[b := m, z := n][b := k] == map[b := k, z := n];
  }

  lemma Matched(s: Selection, b: Suffix, z: Suffix, o: string)
    requires s.active.Valid() && s.active.keys == [b, z] && b == [o]
    ensures var r := Visit(s, b, o);
            r.active == Dict([z], map[z := s.active.vals[z]]) && r.chosen == Some(s.active.vals[b]) && r.mod == s.mod
  {
    assert [b, z] == [b] + [z];
    assert [b, z][0] == b && [b, z][1] == z;
    RemoveHead(b, [z]);
    assert s.active.vals.Keys == {b, z};
  }

  /** If `o` is listed first, it is matched, and `o:o` is left for the second round: the listing order decides. */
  lemma SingleFirst(c: Three)
    requires c.o != c.p
    ensures Choose(c.Listed(false), [c.o, c.p]) == Some(c.double)
  {
    c.Shapes();
    var dd, ss, pp := c.Double(), c.Single(), c.Other();
    CollectThree(Variant(c.single, ss), Variant(c.double, dd), Variant(c.other, pp), [c.o, c.p]);
    var s := Selection(Collect(c.Listed(false), [c.o, c.p]), None, true);
    var s1 := Selection(Dict([pp, ss], map[pp := c.other, ss := c.double]), Some(c.single), true);
    FirstSweepSingle(c, s.(mod := false));
    RoundTwo(s.(mod := false), c.o, c.p);
    Matched(s1, pp, ss, c.p);
    var s2 := Selection(Dict([ss], map[ss := c.double]), Some(c.other), true);
    SweepTwo(s1, pp, ss, c.p);
    assert Round(s.(mod := false), [c.o, c.p]) == s2;
    SecondRound(c, s2);
    assert Rounds(s, [c.o, c.p]) == Rounds(s2, [c.o, c.p]);
  }

  lemma FirstSweepSingle(c: Three, s: Selection)
    requires c.o != c.p && s.chosen == None && !s.mod
    requires var dd, ss, pp := c.Double(), c.Single(), c.Other();
             s.active == Dict([ss, dd, pp], map[ss := c.single, dd := c.double, pp := c.other]) && s.active.Valid()
    ensures Sweep(s, s.active.keys, c.o)
         == Selection(Dict([c.Other(), c.Single()], map[c.Other() := c.other, c.Single() := c.double]), Some(c.single),
                      true)
  {
    c.Shapes();
    var dd, ss, pp := c.Double(), c.Single(), c.Other();
    MatchedOfThree(s, ss, dd, pp, c.o);
    var r := Visit(s, ss, c.o);
    Moved(r, dd, ss, pp, c.o);
    SweepThree(s, ss, dd, pp, c.o);
  }

  lemma MatchedOfThree(s: Selection, b: Suffix, y: Suffix, z: Suffix, o: string)
    requires s.active.Valid() && s.active.keys == [b, y, z] && b == [o]
    ensures var r := Visit(s, b, o);
            r.active == Dict([y, z], map[y := s.active.vals[y], z := s.active.vals[z]])
            && r.chosen == Some(s.active.vals[b]) && r.mod == s.mod
  {
    assert [b, y, z] == [b] + [y, z];
    assert [b, y, z][0] == b && [b, y, z][1] == y && [b, y, z][2] == z;
    RemoveHead(b, [y, z]);
    KeysOfThree(s.active, b, y, z);
  }

  lemma KeysOfThree(d: Dict, b: Suffix, y: Suffix, z: Suffix)
    requires d.Valid() && d.keys == [b, y, z]
    ensures d.vals - {b} == map[y := d.vals[y], z := d.vals[z]]
  {
    assert d.vals.Keys == {b, y, z};
    assert [b, y, z][0] == b && [b, y, z][1] == y && [b, y, z][2] == z;
  }

  lemma SweepThree(s: Selection, a: Suffix, b: Suffix, z: Suffix, o: string)
    requires s.active.Valid() && a in s.active.vals && b in s.active.vals && z in s.active.vals && Distinct([a, b, z])
    requires Visit(s, a, o).active.keys == [b, z] && z in Visit(Visit(s, a, o), b, o).active.vals && !EndsWith(z, o)
    ensures Sweep(s, [a, b, z], o) == Visit(Visit(s, a, o), b, o)
  {
    assert [a, b, z][1..] == [b, z] && [a, b, z][1] == b && [a, b, z][2] == z;
    var r := Visit(s, a, o);
    assert [b, z][0] == b && [b, z][1] == z;
    SweepTwo(r, b, z, o);
  }

  lemma Moved(s: Selection, a: Suffix, b: Suffix, z: Suffix, o: string)
    requires s.active.Valid() && s.active.keys == [a, z] && EndsWith(a, o) && |a| > 1 && Strip(a, o) == b
    requires b != z && a != b
    ensures var r := Visit(s, a, o);
            r.active == Dict([z, b], map[z := s.active.vals[z], b := s.active.vals[a]])
            && r.chosen == s.chosen && r.mod
  {
    assert [a, z] == [a] + [z];
    assert [a, z][0] == a && [a, z][1] == z;
    RemoveHead(a, [z]);
    assert s.active.vals.Keys == {a, z};
    var d := s.active.Remove(a);
    assert d == Dict([z], map[z := s.active.vals[z]]);
    assert d.Put(b, s.active.vals[a]).keys == [z] + [b] == [z, b];
  }

  lemma SecondRound(c: Three, s: Selection)
    requires c.o != c.p && s.active == Dict([c.Single()], map[c.Single() := c.double]) && s.active.Valid()
    ensures Rounds(s, [c.o, c.p]).chosen == Some(c.double)
  {
    var s0 := s.(mod := false);
    RoundTwo(s0, c.o, c.p);
    OneLeft(s0, c.Single(), c.double, c.o);
  }
}
