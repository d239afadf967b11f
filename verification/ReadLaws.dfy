/** What a reader is promised of names, references, flags and pending operations, whatever carries it out. */
module ReadLaws {
  import opened Prelude
  import opened Text
  import opened Overrides
  import opened Datastore
  import opened Evaluation
  import opened Coherence
  import opened StoreLaws

  // ---- Which names are operations ------------------------------------------------------------------

  /** Component `i` is an operation keyword, and nothing after it has a capital letter. */
  predicate KeywordAt(name: Name, i: int) {
    0 < i < |name| && (name[i] == "append" || name[i] == "prepend" || name[i] == "remove") && NoUpper(name[i + 1..])
  }

  predicate NoKeywordBefore(name: Name, from: int, i: int) {
    forall j | from <= j < i :: !KeywordAt(name, j)
  }

  lemma {:induction false} TargetFrom(name: Name, from: nat, i: nat)
    requires 0 < from <= i <= |name| && NoKeywordBefore(name, from, i)
    ensures ParseTarget(name, from) == ParseTarget(name, i)
    decreases i - from
  {
    if from < i {
      assert !KeywordAt(name, from);
      TargetFrom(name, from + 1, i);
    }
  }

  /**
   A name is an operation exactly if it has a keyword behind its first component with no capital letter behind; then
   the first such keyword counts, what stands before it is the target, and what stands behind it the condition.
   */
  lemma TargetExactly(name: Name, i: int)
    ensures NoKeywordBefore(name, 1, |name|) <==> ParseTarget(name) == Plain
    ensures KeywordAt(name, i) && NoKeywordBefore(name, 1, i) ==>
              var kw := if name[i] == "append" then Append else if name[i] == "prepend" then Prepend else Remove;
              var cond := name[i + 1..];
              ParseTarget(name) == Operation(name[..i], kw, if cond == [""] then [] else cond)
  {
    if KeywordAt(name, i) && NoKeywordBefore(name, 1, i) {
      TargetFrom(name, 1, i);
    }
    if NoKeywordBefore(name, 1, |name|) {
      TargetFrom(name, 1, |name|);
    } else {
      var k := FirstKeyword(name, 1);
      TargetFrom(name, 1, k);
    }
  }

  lemma {:induction false} FirstKeyword(name: Name, from: int) returns (k: int)
    requires 0 < from <= |name| && !NoKeywordBefore(name, from, |name|)
    ensures from <= k && KeywordAt(name, k) && NoKeywordBefore(name, from, k)
    decreases |name| - from
  {
    k := from;
    if !KeywordAt(name, from) {
      k := FirstKeyword(name, from + 1);
    }
  }

  /** A keyword with an underscore anywhere in a component makes the name one that is refused. */
  lemma OldKeywordsRefused(name: Name, i: nat, before: string, after: string, kw: string)
    requires i < |name| && (kw == "_append" || kw == "_prepend" || kw == "_remove")
    requires name[i] == before + kw + after && !("__anon_" <= name[0])
    ensures OldSyntax(name)
  {
    assert name[i][|before|..] == kw + after;
    assert kw <= name[i][|before|..];
    assert Contains(name[i], kw) && name[i] in name;
  }

  lemma HasUnderscore(c: string, kw: string)
    requires Contains(c, kw) && kw != "" && kw[0] == '_'
    ensures '_' in c
  {
    var i :| 0 <= i <= |c| && kw <= c[i..];
    assert c[i..][0] == '_' && c[i] == '_';
  }

  /** A name without underscores, or of an anonymous function, is not refused. */
  lemma OthersAccepted(name: Name)
    requires "__anon_" <= name[0] || forall c | c in name :: '_' !in c
    ensures !OldSyntax(name)
  {
    forall c, kw | Contains(c, kw) && (kw == "_append" || kw == "_prepend" || kw == "_remove") ensures '_' in c {
      HasUnderscore(c, kw);
    }
  }

  // ---- Pending operations ------------------------------------------------------------------------------

  /** A removal is in force from then on; and it changes nothing else of the variable. */
  lemma RemoveThenGet(st: Store, v: Name, t: Text, variant: Option<Text>)
    requires ParseTarget(v) == Plain
    ensures var st' := SetVar(st, v + ["remove"], t, true);
            ActiveRemoves(st', v) == ActiveRemoves(st, v) + {t} && Raw(st', v, variant) == Raw(st, v, variant)
  {
    TargetOf(v, "remove", [], 1);
    assert v + ["remove"] + [] == v + ["remove"];
    var st' := SetVar(st, v + ["remove"], t, true);
    OperationThenGet(st, v, Remove, Item(t, []), variant);
    assert st' == AddItem(st, v, Remove, Item(t, []));
  }

  /** The parser's assignment keeps what is pending, and what it assigns is the base of the value. */
  lemma ParserKeepsPending(st: Store, v: Name, value: Text)
    requires ParseTarget(v) == Plain
    ensures var st', e := SetVar(st, v, value, true), st.EntryOf(v);
            && ActiveRemoves(st', v) == ActiveRemoves(st, v) && Chosen(st', v) == Chosen(st, v)
            && Raw(st', v, None) == Assemble(Some(value), ActiveValues(e.ItemsOf(Prepend), st.overrides),
                                             ActiveValues(e.ItemsOf(Append), st.overrides))
  {
    var st' := SetVar(st, v, value, true);
    if |v| > 1 {
      RegisterKeepsOwn(st.variants, v);
    }
    assert st'.EntryOf(v) == st.EntryOf(v).(content := Some(value));
  }

  // ---- References ------------------------------------------------------------------------------------

  /** What stands for an atom: itself, for a reference the value of the variable, if it has one. */
  ghost predicate StandsFor(st: Store, a: Atom, part: Text) {
    match a
    case Ch(_) => part == [a]
    case Ref(u) => exists p :: EvalsTo(st, Var(u), p) && part == p.value.GetOr([a])
  }

  /** One pass replaces each reference by the value of its variable and leaves the rest, in place and in order. */
  lemma {:induction false} ReferencesReplaced(n: nat, st: Store, self: Option<Key>, s: Text) returns (parts: seq<Text>)
    requires Sub(n, st, false, self, s).Success?
    ensures |parts| == |s| && Sub(n, st, false, self, s).value == Join(parts)
    ensures forall i | 0 <= i < |s| :: StandsFor(st, s[i], parts[i])
    decreases |s|
  {
    if s == [] {
      parts := [];
    } else {
      var head := SubAtom(n, st, false, self, s[0]).value;
      var rest := ReferencesReplaced(n, st, self, s[1..]);
      parts := [head] + rest;
      assert parts[1..] == rest && forall i | 0 < i < |s| :: s[i] == s[1..][i - 1];
      if s[0].Ref? {
        var p := Eval(n, st, false, true, Var(s[0].name)).value;
        assert EvalsTo(st, Var(s[0].name), p) && head == p.value.GetOr([s[0]]);
      }
    }
  }

  /** A variable with neither text nor variant nor pending operations is unset, and a reference to it stays. */
  lemma UnsetStays(n: nat, st: Store, strict: bool, self: Option<Key>, u: Name)
    requires st.EntryOf(u) == EMPTY && u !in st.variants && self != Some(Var(u))
    ensures Sub(n + 1, st, strict, self, [Ref(u)]) == Success([Ref(u)])
  {
    EvalUnchosen(n, st, strict, true, u);
    assert Raw(st, u, None) == None;
    assert ActiveRemoves(st, u) == {};
    FinishNothing(n, st, strict, true, None, None);
    assert [Ref(u)][1..] == [] && [Ref(u)] + [] == [Ref(u)];
  }

  /** A variable that refers to itself has no value. */
  lemma SelfReference(n: nat, st: Store, strict: bool, v: Name, s: Text)
    requires v in Refs(s)
    ensures Sub(n, st, strict, Some(Var(v)), s).Failure?
    decreases |s|
  {
    if s[0] != Ref(v) {
      assert v in Refs(s[1..]);
      SelfReference(n, st, strict, v, s[1..]);
    }
  }

  /** A flag is the expansion of its text, and is unset iff it was not written. */
  lemma FlagIs(st: Store, v: Name, f: string, p: Parse)
    requires EvalsTo(st, VarFlag(v, f), p)
    ensures p.unexpanded == RawFlag(st, v, f) && p.removes == None
    ensures match RawFlag(st, v, f)
            case None => p.value == None
            case Some(s) => p.value.Some? && SubsTo(st, Some(VarFlag(v, f)), s, p.value.value)
  {
    var n: nat :| Eval(n, st, false, true, VarFlag(v, f)) == Success(p);
    var raw := RawFlag(st, v, f);
    assert EvalFlag(n - 1, st, false, v, f) == Success(p);
    assert Expand(n - 1, st, false, Some(VarFlag(v, f)), raw) == Success(p.value);
    if raw.Some? {
      assert Sub(n - 1, st, false, Some(VarFlag(v, f)), raw.value) == Success(p.value.value);
    }
  }
}
