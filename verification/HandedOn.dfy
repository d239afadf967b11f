/**
 A store on which a variant hands on what another variable left for it. No removals of a direct sharer spoil any
 value there, and still the order of reads shows.
 */
module HandedOn {
  import opened Prelude
  import opened Text
  import opened Overrides
  import opened Datastore
  import opened Evaluation
  import opened Memo
  import opened Coherence
  import opened ReadsRight
  import opened FlatRuns
  import opened SharedRemovals
  import opened NestedOverrides
  import CacheLimits

  // ---- The store ---------------------------------------------------------------------------------

  /**
   `o` and `m` have the variant `n`, whose text is `x`, and `v` has the variant `m`. The text of `v` is `xw`, the words
   `x` and `w` with the blank `s` between them. `o` removes `xw`, `m` removes `x`, `n` removes `z`.
   */
  datatype Scene = Scene(st: Store, v: Name, m: Name, n: Name, o: Name, x: Text, w: Text, z: Text, s: Text, xw: Text)

  predicate Wording(a: Scene) {
    && IsWord(a.x) && IsWord(a.w) && IsWord(a.z) && a.x != a.w && a.x != a.z && !IsWord(a.s) && a.s != []
    && Literal(a.x) && Literal(a.z) && Literal(a.xw) && a.xw != [] && a.xw != a.x
    && Tokens(a.x) == [a.x] && Tokens(a.z) == [a.z] && Tokens(a.xw) == [a.x, a.s, a.w]
  }

  ghost predicate Choices(a: Scene) {
    && a.v != a.m && a.v != a.n && a.v != a.o && a.m != a.n && a.m != a.o && a.n != a.o
    && Chosen(a.st, a.v) == Some(a.m) && Chosen(a.st, a.m) == Some(a.n) && Chosen(a.st, a.o) == Some(a.n)
    && forall u | u != a.v && u != a.m && u != a.o :: Chosen(a.st, u) == None
  }

  predicate Texts(a: Scene) {
    && Raw(a.st, a.n, None) == Some(a.x) && Raw(a.st, a.m, Some(a.x)) == Some(a.x)
    && Raw(a.st, a.o, Some(a.x)) == Some(a.x) && Raw(a.st, a.v, Some(a.x)) == Some(a.xw)
  }

  predicate Removals(a: Scene) {
    && ActiveRemoves(a.st, a.n) == {a.z} && ActiveRemoves(a.st, a.m) == {a.x} && ActiveRemoves(a.st, a.o) == {a.xw}
    && ActiveRemoves(a.st, a.v) == {}
  }

  ghost predicate Layout(a: Scene) {
    Wording(a) && Choices(a) && Texts(a) && Removals(a)
  }

  /** The parses of `n` and `m`. */
  function ParseOfN(x: Text, removes: set<Text>): Parse {
    Parse(Some(x), Some(x), {}, Some(removes))
  }

  function ParseOfM(x: Text, removes: set<Text>): Parse {
    Parse(Some(x), Some([]), {}, Some(removes))
  }

  lemma WordsAre(a: Scene)
    requires Wording(a)
    ensures OwnWords({a.z}) == map[a.z := {a.z}] && OwnWords({a.x}) == map[a.x := {a.x}]
    ensures OwnWords({a.xw, a.x}) == map[a.xw := {a.x, a.w}, a.x := {a.x}]
  {
    assert forall t :: t in Tokens(a.xw) <==> t == a.x || t == a.s || t == a.w;
    assert Words(a.xw) == {a.x, a.w} && Words(a.x) == {a.x} && Words(a.z) == {a.z};
  }

  lemma TwoRemovals(r: Text, ws: set<Text>, r': Text, ws': set<Text>, e: Text)
    requires r != r' && ws' <= ws
    ensures AllWords(map[r := ws, r' := ws']) == ws
    ensures (exists t :: t in Tokens(e) && t in ws') ==> Used(e, map[r := ws, r' := ws']) == {r, r'}
  {
    var words := map[r := ws, r' := ws'];
    assert r in words && words[r] == ws && words[r'] == ws';
    if t :| t in Tokens(e) && t in ws' {
      assert t in ws;
      assert forall q :: q in Used(e, words) <==> q == r || q == r';
    }
  }

  /** What is left of the two texts. */
  lemma Remainders(a: Scene)
    requires Wording(a)
    ensures RemoveWords(a.x, {a.z}) == a.x && RemoveWords(a.x, {a.x}) == [] && RemoveWords(a.x, {a.x, a.w}) == []
    ensures RemoveWords(a.xw, {a.x}) == a.s + a.w && RemoveWords(a.xw, {a.x, a.w}) == a.s
  {
    KeepOne(a.x, {a.z});
    KeepOne(a.x, {a.x});
    KeepOne(a.x, {a.x, a.w});
    KeepThree(a, {a.x});
    KeepThree(a, {a.x, a.w});
  }

  lemma KeepThree(a: Scene, words: set<Text>)
    requires a.x in words && a.s !in words
    ensures Join(Keep([a.x, a.s, a.w], words)) == a.s + if a.w in words then [] else a.w
  {
    KeepOne(a.w, words);
    assert [a.x, a.s, a.w][1..] == [a.s, a.w] && [a.s, a.w][1..] == [a.w];
    var rest := Keep([a.w], words);
    assert Keep([a.s, a.w], words) == [a.s] + rest && ([a.s] + rest)[1..] == rest;
  }

  /** What a read makes of the text `x` with the removals of `n`, */
  lemma ParseWithN(a: Scene)
    requires Wording(a)
    ensures Parsed(Some(a.x), Some(a.x), OwnWords({a.z})) == ParseOfN(a.x, {})
  {
    PlainParsed(a.x, a.z);
  }

  /** and of `m`. */
  lemma ParseWithM(a: Scene)
    requires Wording(a)
    ensures Parsed(Some(a.x), Some(a.x), OwnWords({a.x})) == ParseOfM(a.x, {a.x})
  {
    PlainParsed(a.x, a.x);
  }

  /** The removals of `m` and `o` together, on a text that has the word `x`. */
  lemma BothParse(a: Scene, e: Text)
    requires Wording(a) && (e == a.x || e == a.xw)
    ensures Parsed(Some(e), Some(e), OwnWords({a.xw, a.x}))
         == Parse(Some(e), Some(if e == a.x then [] else a.s), {}, Some({a.xw, a.x}))
  {
    WordsAre(a);
    Remainders(a);
    assert a.x in Tokens(e);
    TwoRemovals(a.xw, {a.x, a.w}, a.x, {a.x}, e);
    assert a.x in OwnWords({a.xw, a.x});
    ParsedIs(e, OwnWords({a.xw, a.x}), {a.x, a.w});
  }

  /** The text of `v` with those of `m`. */
  lemma RightParse(a: Scene)
    requires Wording(a)
    ensures Parsed(Some(a.xw), Some(a.xw), OwnWords({a.x})).value == Some(a.s + a.w)
  {
    WordsAre(a);
    Remainders(a);
    OneRemoval(a.x, {a.x}, a.xw);
    assert a.x in OwnWords({a.x});
    ParsedIs(a.xw, OwnWords({a.x}), {a.x});
  }

  // ---- No direct sharer spoils anything ------------------------------------------------------------

  lemma ParseN(a: Scene)
    requires Layout(a)
    ensures EvalsTo(a.st, Var(a.n), ParseOfN(a.x, {}))
  {
    ParseWithN(a);
    ParseTo(a.st, a.n, NO_PARSE, a.x, {a.z});
  }

  lemma ParseM(a: Scene)
    requires Layout(a)
    ensures EvalsTo(a.st, Var(a.m), ParseOfM(a.x, {a.x}))
  {
    ParseN(a);
    ParseWithM(a);
    ParseTo(a.st, a.m, ParseOfN(a.x, {}), a.x, {a.x});
  }

  lemma CacheFreeValue(a: Scene)
    requires Layout(a)
    ensures forall p | EvalsTo(a.st, Var(a.v), p) :: p.value == Some(a.s + a.w)
  {
    ParseM(a);
    RightParse(a);
    var right := Parsed(Some(a.xw), Some(a.xw), OwnWords({a.x}));
    ParseTo(a.st, a.v, ParseOfM(a.x, {a.x}), a.xw, {a.x});
    forall p | EvalsTo(a.st, Var(a.v), p) ensures p == right {
      EvalUnique(a.st, Var(a.v), p, right);
    }
  }

  lemma NobodySpoils(a: Scene)
    requires Layout(a)
    ensures forall o, v, q, e, t :: !Spoils(a.st, o, v, q, e, t)
  {
    ParseN(a);
    forall o, v, q, e, t ensures !Spoils(a.st, o, v, q, e, t) {
      if Shares(a.st, o, v) && TextIs(a.st, v, q, e) && t in Tokens(e) {
        SharersAre(a, o, v);
        if v != a.v {
          EvalUnique(a.st, Var(a.n), q, ParseOfN(a.x, {}));
          LiteralTo(a.st, v, a.x);
          OwnRemoves(a, v);
        }
      }
    }
  }

  lemma SharersAre(a: Scene, o: Name, v: Name)
    requires Layout(a) && Shares(a.st, o, v)
    ensures if v == a.v then ActiveRemoves(a.st, o) == {} else v == a.m || v == a.o
  {
    var p :| FillsFrom(a.st, o, Chosen(a.st, v).value, p);
  }

  lemma OwnRemoves(a: Scene, v: Name)
    requires Layout(a) && (v == a.m || v == a.o)
    ensures RemovedBy(a.st, InForce(a.st, v, ParseOfN(a.x, {})), a.x)
  {
    var r := if v == a.m then a.x else a.xw;
    LiteralExpands(a.st, map[], r);
    assert a.x in Tokens(r);
    assert Removes(a.st, r, a.x) && r in InForce(a.st, v, ParseOfN(a.x, {}));
  }

  // ---- Two reads -----------------------------------------------------------------------------------

  /** The cache once `o` was read unexpanded. */
  function Filled(a: Scene): Cache {
    map[Var(a.n) := ParseOfN(a.x, {a.xw})]
  }

  /** A first read of a variable without a variant. */
  lemma ReadPlain(k: nat, st: Store, ord: Order, v: Name, t: Text, removes: set<Text>)
    requires IsOrder(ord) && Chosen(st, v) == None && Raw(st, v, None) == Some(t) && Literal(t) && t != []
    requires removes == ActiveRemoves(st, v) && AllLiteral(removes)
    ensures Read(k + 1, st, ord, map[], false, Var(v))
         == Memoised(Var(v), Parsed(Some(t), Some(t), OwnWords(removes)), map[])
  {
    assert ReadVariant(k, st, ord, map[], v) == After(Success(NO_PARSE), map[]);
    LiteralText(k, st, ord, map[], false, v, NO_PARSE, t);
    LiteralRest(k, st, ord, map[], false, v, t, false, removes);
  }

  /** A first read, unexpanded, fills the set of the variant's parse. */
  lemma FillFirst(k: nat, st: Store, ord: Order, o: Name, n: Name, p: Parse)
    requires Chosen(st, o) == Some(n) && p.removes.Some? && Truthy(Raw(st, o, p.unexpanded))
    requires Read(k, st, ord, map[], false, Var(n)) == After(Success(p), map[Var(n) := p])
    ensures Reply(st, ord, map[], Unexpanded(o), k + 1).cache
         == map[Var(n) := p.(removes := Some(p.Carried() + ActiveRemoves(st, o)))]
  {
    assert ReadVariant(k, st, ord, map[], o) == After(Success(p), map[Var(n) := p]);
  }

  /** An unexpanded read of `o` leaves its removal in the cached parse of `n`. */
  lemma FillsN(k: nat, a: Scene, ord: Order)
    requires IsOrder(ord) && Layout(a)
    ensures Reply(a.st, ord, map[], Unexpanded(a.o), k + 2).cache == Filled(a)
  {
    ParseWithN(a);
    ReadPlain(k, a.st, ord, a.n, a.x, {a.z});
    assert {} + ActiveRemoves(a.st, a.o) == {a.xw};
    FillFirst(k + 1, a.st, ord, a.o, a.n, ParseOfN(a.x, {}));
  }

  /** The cache once the parse of `m` has got it as well. */
  function Handed(a: Scene): Cache {
    map[Var(a.n) := ParseOfN(a.x, {a.xw, a.x}), Var(a.m) := ParseOfM(a.x, {a.xw, a.x})]
  }

  /** A read of `v` from a cache that has the parse of its variant, with a set. */
  lemma ReadFrom(k: nat, st: Store, ord: Order, c: Cache, expand: bool, v: Name, m: Name, t: Text, removes: set<Text>)
    requires IsOrder(ord) && Chosen(st, v) == Some(m) && Var(v) !in c && Var(m) in c && c[Var(m)].removes.Some?
    requires Raw(st, v, c[Var(m)].unexpanded) == Some(t) && Literal(t) && t != []
    requires removes == c[Var(m)].Carried() + ActiveRemoves(st, v) && AllLiteral(removes)
    ensures Read(k + 1, st, ord, c, expand, Var(v))
         == Memoised(Var(v), Parsed(Some(t), Some(t), OwnWords(removes)), WithSet(c, m, removes))
  {
    assert ReadVariant(k, st, ord, c, v) == After(Success(c[Var(m)]), c);
    LiteralText(k, st, ord, c, expand, v, c[Var(m)], t);
    LiteralRest(k, st, ord, c, expand, v, t, true, removes);
  }

  /** From a cache with the parse of the variant alone. */
  lemma ReadOver(k: nat, st: Store, ord: Order, n: Name, p: Parse, m: Name, t: Text, removes: set<Text>)
    requires IsOrder(ord) && Chosen(st, m) == Some(n) && m != n && p.removes.Some?
    requires Raw(st, m, p.unexpanded) == Some(t) && Literal(t) && t != []
    requires removes == p.Carried() + ActiveRemoves(st, m) && AllLiteral(removes)
    ensures var q := Parsed(Some(t), Some(t), OwnWords(removes));
            Read(k + 1, st, ord, map[Var(n) := p], false, Var(m))
            == After(Success(q), map[Var(n) := p.(removes := Some(removes)), Var(m) := q])
  {
    var c, q := map[Var(n) := p], Parsed(Some(t), Some(t), OwnWords(removes));
    ReadFrom(k, st, ord, c, false, m, n, t, removes);
    assert WithSet(c, n, removes)[Var(m) := q] == map[Var(n) := p.(removes := Some(removes)), Var(m) := q];
  }

  lemma MeetingAre(a: Scene)
    requires Layout(a)
    ensures {a.xw} + ActiveRemoves(a.st, a.m) == {a.xw, a.x} == {a.xw, a.x} + ActiveRemoves(a.st, a.v)
    ensures AllLiteral({a.xw, a.x})
  {
  }

  /** A read of `m` hands it on, */
  lemma HandsOn(k: nat, a: Scene, ord: Order)
    requires IsOrder(ord) && Layout(a)
    ensures Read(k + 1, a.st, ord, Filled(a), false, Var(a.m)) == After(Success(ParseOfM(a.x, {a.xw, a.x})), Handed(a))
  {
    BothParse(a, a.x);
    MeetingAre(a);
    ReadOver(k, a.st, ord, a.n, ParseOfN(a.x, {a.xw}), a.m, a.x, {a.xw, a.x});
  }

  lemma ReadValueFrom(k: nat, st: Store, ord: Order, c: Cache, v: Name, m: Name, p: Parse, t: Text, removes: set<Text>)
    requires IsOrder(ord) && Chosen(st, v) == Some(m) && Var(v) !in c && Var(m) in c
    requires c[Var(m)] == p && p.removes.Some?
    requires Raw(st, v, p.unexpanded) == Some(t) && Literal(t) && t != []
    requires removes == p.Carried() + ActiveRemoves(st, v) && AllLiteral(removes)
    ensures ReadValue(k + 1, st, ord, c, Var(v)).result == Success(Parsed(Some(t), Some(t), OwnWords(removes)).value)
  {
    ReadFrom(k, st, ord, c, true, v, m, t, removes);
  }

  lemma ReadHanded(k: nat, a: Scene, ord: Order)
    requires IsOrder(ord) && Layout(a)
    ensures ReadValue(k + 1, a.st, ord, Handed(a), Var(a.v)).result == Success(Some(a.s))
  {
    BothParse(a, a.xw);
    MeetingAre(a);
    ReadValueFrom(k, a.st, ord, Handed(a), a.v, a.m, ParseOfM(a.x, {a.xw, a.x}), a.xw, {a.xw, a.x});
  }

  /** and `v` loses a word to it. */
  lemma LosesWord(k: nat, a: Scene, ord: Order)
    requires IsOrder(ord) && Layout(a)
    ensures Reply(a.st, ord, Filled(a), Value(a.v), k + 2).result == Success(Some(a.s))
  {
    HandsOn(k, a, ord);
    ReadHanded(k + 1, a, ord);
    VariantFirst(k + 1, a.st, ord, Filled(a), Handed(a), a.v, a.m);
  }

  /** Reading from a cache is reading from the one that the read of the variant leaves. */
  lemma VariantFirst(k: nat, st: Store, ord: Order, c: Cache, c1: Cache, v: Name, m: Name)
    requires Chosen(st, v) == Some(m) && Var(v) !in c && Var(v) !in c1 && Var(m) in c1
    requires Read(k, st, ord, c, false, Var(m)) == After(Success(c1[Var(m)]), c1)
    ensures Read(k + 1, st, ord, c, true, Var(v)) == Read(k + 1, st, ord, c1, true, Var(v))
  {
    assert ReadVariant(k, st, ord, c, v) == After(Success(c1[Var(m)]), c1) == ReadVariant(k, st, ord, c1, v);
  }

  /** So where variants hand removals on, it is not enough that no direct sharer spoils anything. */
  lemma HandedOnWrong(a: Scene, k: nat)
    requires Layout(a)
    ensures (forall o, v, q, e, t :: !Spoils(a.st, o, v, q, e, t)) && !RightInEveryOrder(a.st)
  {
    NobodySpoils(a);
    var ord := SomeOrder();
    FillsN(k, a, ord);
    LosesWord(k, a, ord);
    CacheFreeValue(a);
    assert |a.s + a.w| != |a.s|;
    SecondWrong(a.st, ord, map[], Unexpanded(a.o), Value(a.v), k + 2, Filled(a), Some(a.s));
    assert Exact(a.st, map[]);
  }

  // ---- One such store --------------------------------------------------------------------------------

  const VName: Name := ["V"]
  const MName: Name := ["V", "a"]
  const NName: Name := ["V", "a", "b"]
  const OName: Name := ["O"]
  const WText: Text := [Ch('w')]
  const Blank: Text := [Ch(' ')]
  const Both: Text := [Ch('x'), Ch(' '), Ch('w')]

  function Removing(content: Option<Text>, r: Text): Entry {
    Entry(content, None, map[Remove := [Item(r, [])]], map[])
  }

  /** `N = "x"`, `N:remove = "z"`, `M:remove = "x"`, `O:remove = "x w"` and `V:append = " w"`. */
  function SceneStore(): Store {
    Store(map[VName := Entry(None, None, map[Append := [Item(Blank + WText, [])]], map[]),
              MName := Removing(None, X), NName := Removing(Some(X), Z), OName := Removing(None, Both)],
          map[VName := [Variant(MName, ["a"])], MName := [Variant(NName, ["b"])], OName := [Variant(NName, ["c"])]],
          ["a", "b", "c"])
  }

  function TheScene(): Scene {
    Scene(SceneStore(), VName, MName, NName, OName, X, WText, Z, Blank, Both)
  }

  lemma NamesApart()
    ensures VName != MName && VName != NName && VName != OName && MName != NName && MName != OName && NName != OName
  {
    assert |VName| == 1 && |MName| == 2 && |NName| == 3 && VName[0] != OName[0] && |OName| == 1;
  }

  lemma SceneChosen()
    ensures Chosen(SceneStore(), VName) == Some(MName) && Chosen(SceneStore(), MName) == Some(NName)
    ensures Chosen(SceneStore(), OName) == Some(NName)
  {
    NamesApart();
    CacheLimits.OnlyVariant(SceneStore(), VName, Variant(MName, ["a"]));
    CacheLimits.OnlyVariant(SceneStore(), MName, Variant(NName, ["b"]));
    CacheLimits.OnlyVariant(SceneStore(), OName, Variant(NName, ["c"]));
  }

  lemma NobodyElse(u: Name)
    requires u != VName && u != MName && u != OName
    ensures Chosen(SceneStore(), u) == None
  {
    assert u !in SceneStore().variants;
  }

  lemma SceneChoices()
    ensures Choices(TheScene())
  {
    NamesApart();
    SceneChosen();
    forall u | u != VName && u != MName && u != OName ensures Chosen(SceneStore(), u) == None {
      NobodyElse(u);
    }
  }

  lemma SceneWording()
    ensures Wording(TheScene())
  {
    assert X[0] != WText[0] && X[0] != Z[0] && |Both| == 3;
    assert IsSpace(Blank[0]);
    TokensOfWord(X);
    TokensOfWord(Z);
    TokensOfWord(WText);
    assert Both[1..][1..] == WText && Both[1..][0] == Ch(' ');
    assert Tokens(Both[1..]) == [[], Blank] + [WText];
    assert Tokens(Both) == [[Ch('x')] + []] + [Blank, WText];
  }

  lemma SceneRemovals()
    ensures Removals(TheScene())
  {
    NamesApart();
    OneItem(X, ["a", "b", "c"]);
    OneItem(Z, ["a", "b", "c"]);
    OneItem(Both, ["a", "b", "c"]);
  }

  lemma AppendedText(st: Store, v: Name, variant: Text, r: Text)
    requires st.EntryOf(v).ItemsOf(Prepend) == [] && st.EntryOf(v).ItemsOf(Append) == [Item(r, [])]
    ensures Raw(st, v, Some(variant)) == Some(variant + r)
  {
    OneItem(r, st.overrides);
    assert [r][1..] == [] && Join([r]) == r + [] && NewestFirst([]) == [];
    assert Base(st, v, Some(variant)) == Some(variant) && Join([]) + variant + Join([r]) == variant + r;
    assert ActiveValues([], st.overrides) == [];
  }

  lemma SceneTexts()
    ensures Texts(TheScene())
  {
    var st := SceneStore();
    NamesApart();
    OnlyBase(st, NName, None);
    OnlyBase(st, MName, Some(X));
    OnlyBase(st, OName, Some(X));
    AppendedText(st, VName, X, Blank + WText);
    assert st.EntryOf(NName).content == Some(X);
    assert X + (Blank + WText) == Both;
  }

  /** The condition on direct sharers alone does not make reads right in every order. */
  lemma SharersAreNotAll()
    ensures (forall o, v, q, e, t :: !Spoils(SceneStore(), o, v, q, e, t)) && !RightInEveryOrder(SceneStore())
  {
    SceneWording();
    SceneChoices();
    SceneTexts();
    SceneRemovals();
    HandedOnWrong(TheScene(), 0);
  }
}
