/** A store with two-level overrides on which reading one variable first changes another. */
module NestedOverrides {
  import opened Prelude
  import opened Text
  import opened Overrides
  import opened Datastore
  import opened Evaluation
  import opened Memo
  import opened Coherence
  import opened ReadsRight
  import opened FlatRuns
  import opened SharedRemovals
  import CacheLimits
  import SmartData

  const X: Text := [Ch('x')]
  const Z: Text := [Ch('z')]
  const V: Name := ["V"]
  const VA: Name := ["V", "a"]
  const VAB: Name := ["V", "a", "b"]

  /** `V:a:b = "x"`, `V:remove = "x"`, and OVERRIDES is `a:b`; and, if `noisy`, `V:a:b:remove = "z"`. */
  function StoreWith(noisy: bool): Store {
    var vab := Entry(Some(X), None, if noisy then map[Remove := [Item(Z, [])]] else map[], map[]);
    var v := Entry(None, None, map[Remove := [Item(X, [])]], map[]);
    Store(map[VAB := vab, V := v],
          map[V := [Variant(VAB, ["a", "b"])], VA := [Variant(VAB, ["b"])]], ["a", "b"])
  }

  function Nested(): Store {
    StoreWith(true)
  }

  lemma OneItem(r: Text, overrides: seq<string>)
    ensures ActiveValues([Item(r, [])], overrides) == [r]
  {
    assert [Item(r, [])][..0] == [];
  }

  lemma RemovesAre(noisy: bool)
    ensures ActiveRemoves(StoreWith(noisy), V) == {X} && ActiveRemoves(StoreWith(noisy), VA) == {}
    ensures ActiveRemoves(StoreWith(noisy), VAB) == if noisy then {Z} else {}
  {
    OneItem(X, ["a", "b"]);
    OneItem(Z, ["a", "b"]);
  }

  lemma ChosenAre(noisy: bool)
    ensures Chosen(StoreWith(noisy), V) == Chosen(StoreWith(noisy), VA) == Some(VAB)
    ensures forall v | v != V && v != VA :: Chosen(StoreWith(noisy), v) == None
  {
    CacheLimits.OnlyVariant(StoreWith(noisy), V, Variant(VAB, ["a", "b"]));
    CacheLimits.OnlyVariant(StoreWith(noisy), VA, Variant(VAB, ["b"]));
  }

  /** The variant has two owners, which do not agree on what is to be removed. */
  lemma NestedShares(noisy: bool)
    ensures Listed(StoreWith(noisy), V, VAB) && Listed(StoreWith(noisy), VA, VAB) && !UniqueOwner(StoreWith(noisy))
    ensures !SharersAgree(StoreWith(noisy))
  {
    var st := StoreWith(noisy);
    RemovesAre(noisy);
    ChosenAre(noisy);
    ChosenListed(st, V);
    ChosenListed(st, VA);
    assert X in ActiveRemoves(st, V) && X !in ActiveRemoves(st, VA);
  }

  /** Without a removal of its own the shared variant has no set to fill, and all reads are right. */
  lemma QuietSpillsNothing()
    ensures NoSpill(StoreWith(false)) && !SharersAgree(StoreWith(false))
  {
    var st := StoreWith(false);
    RemovesAre(false);
    ChosenAre(false);
    NestedShares(false);
    forall o, v ensures !Shares(st, o, v) {
      if Chosen(st, v).Some? {
        forall q ensures !HasRemovals(st, VAB, q) {
          assert InForce(st, VAB, NO_PARSE) == {};
        }
      }
    }
  }

  // ---- Texts without references ----------------------------------------------------------------

  predicate Literal(w: Text) {
    forall a | a in w :: a.Ch?
  }

  lemma LiteralExpands(st: Store, c: Cache, w: Text)
    requires Literal(w)
    ensures Refs(w) == {} && SubsTo(st, None, w, w) && FlatRemoval(st, c, w) && Expansion(st, w) == w
  {
    SubUnsetSucceeds(0, st, false, None, w);
    assert SubsTo(st, None, w, w);
    SubsToUnique(st, None, w, w, Expansion(st, w));
  }

  lemma LiteralTo(st: Store, v: Name, w: Text)
    requires Literal(w)
    ensures SubsTo(st, Some(Var(v)), w, w) && forall e | SubsTo(st, Some(Var(v)), w, e) :: e == w
  {
    assert Refs(w) == {};
    SubUnsetSucceeds(0, st, false, Some(Var(v)), w);
    forall e | SubsTo(st, Some(Var(v)), w, e) ensures e == w {
      SubsToUnique(st, Some(Var(v)), w, w, e);
    }
  }

  function OwnWords(removes: set<Text>): map<Text, set<Text>> {
    map r | r in removes :: Words(r)
  }

  predicate AllLiteral(removes: set<Text>) {
    forall r | r in removes :: Literal(r)
  }

  lemma LiteralWords(st: Store, removes: set<Text>)
    requires AllLiteral(removes)
    ensures WordMap(st, removes) == OwnWords(removes) && WordsOk(st, OwnWords(removes))
  {
    forall r | r in removes ensures SubsTo(st, None, r, r) && Expansion(st, r) == r {
      LiteralExpands(st, map[], r);
    }
  }

  /** The rest of a read of `v`, whose text is `w`, with the removals `removes`. */
  lemma LiteralRest(n: nat, st: Store, ord: Order, c: Cache, expand: bool, v: Name, w: Text, shared: bool,
                    removes: set<Text>)
    requires IsOrder(ord) && Literal(w) && w != [] && AllLiteral(removes)
    requires Gathered(st, c, v, shared) == removes && Holds(st, c, v, shared)
    ensures ReadRest(n, st, ord, c, expand, v, Some(w), Some(w), shared)
         == Memoised(Var(v), Parsed(Some(w), Some(w), OwnWords(removes)), Gather(st, c, v, shared))
  {
    var c1, held := Gather(st, c, v, shared), if shared then Chosen(st, v) else None;
    forall r | r in removes ensures FlatRemoval(st, c1, r) {
      LiteralExpands(st, c1, r);
    }
    FlatAll(n, st, ord, c1, held, removes, v);
    LiteralWords(st, removes);
    RestIs(n, st, ord, c, expand, v, Some(w), Some(w), shared, After(Success(OwnWords(removes)), c1));
  }

  lemma LiteralText(n: nat, st: Store, ord: Order, c: Cache, expand: bool, v: Name, variant: Parse, w: Text)
    requires Literal(w) && Raw(st, v, variant.unexpanded) == Some(w)
    ensures ReadText(n, st, ord, c, expand, v, variant)
         == ReadRest(n, st, ord, c, expand, v, Some(w), Some(w), variant.removes.Some?)
  {
    assert Refs(w) == {};
  }

  lemma OneRemoval(r: Text, ws: set<Text>, e: Text)
    ensures AllWords(map[r := ws]) == ws
    ensures Used(e, map[r := ws]) == if exists t :: t in Tokens(e) && t in ws then {r} else {}
  {
    assert map[r := ws][r] == ws;
  }

  lemma KeepOne(t: Text, words: set<Text>)
    ensures Join(Keep([t], words)) == if t in words then [] else t
  {
    assert [t][1..] == [] && Keep([], words) == [];
    if t !in words {
      assert Keep([t], words) == [t] + [] && Join([t]) == t + [];
    }
  }

  lemma ParsedIs(e: Text, words: map<Text, set<Text>>, ws: set<Text>)
    requires words != map[] && AllWords(words) == ws && Literal(e)
    ensures Parsed(Some(e), Some(e), words) == Parse(Some(e), Some(RemoveWords(e, ws)), {}, Some(Used(e, words)))
  {
    assert Refs(e) == {};
  }

  lemma SomeWords(removes: set<Text>)
    requires removes != {}
    ensures OwnWords(removes) != map[]
  {
    var r :| r in removes;
    assert r in OwnWords(removes);
  }

  lemma ParsedFinished(t: Text, words: map<Text, set<Text>>)
    requires t != [] && words != map[]
    ensures Parsed(Some(t), Some(t), words) == Finished(Some(t), Some(t), words)
  {
  }

  /** The cache-free parse of a variable whose variant's parse is `q`. */
  lemma ParseTo(st: Store, v: Name, q: Parse, t: Text, removes: set<Text>)
    requires VariantIs(st, v, q) && Raw(st, v, q.unexpanded) == Some(t) && Literal(t) && t != []
    requires AllLiteral(removes) && InForce(st, v, q) == removes && removes != {}
    ensures EvalsTo(st, Var(v), Parsed(Some(t), Some(t), OwnWords(removes)))
  {
    LiteralTo(st, v, t);
    LiteralWords(st, removes);
    SomeWords(removes);
    ComposeVar(st, v, q, Some(t), Some(t), OwnWords(removes));
    ParsedFinished(t, OwnWords(removes));
  }

  // ---- Plain text ----------------------------------------------------------------------------------

  /** A word of letters only. */
  predicate IsPlain(w: Text) {
    IsWord(w) && Literal(w)
  }

  /** A text of one word, with a removal of one word. */
  lemma PlainParsed(w: Text, d: Text)
    requires IsPlain(w) && IsPlain(d)
    ensures Parsed(Some(w), Some(w), OwnWords({d}))
         == Parse(Some(w), Some(if w == d then [] else w), {}, Some(if w == d then {d} else {}))
  {
    TokensOfWord(w);
    TokensOfWord(d);
    assert Words(d) == {d} && OwnWords({d}) == map[d := {d}];
    OneRemoval(d, {d}, w);
    SomeWords({d});
    KeepOne(w, {d});
    ParsedIs(w, OwnWords({d}), {d});
    assert w in Tokens(w);
  }

  /** From a text `w` without references on, with the removal `d`. */
  lemma PlainRest(n: nat, st: Store, ord: Order, c: Cache, expand: bool, v: Name, w: Text, d: Text, shared: bool)
    requires IsOrder(ord) && IsPlain(w) && IsPlain(d) && Gathered(st, c, v, shared) == {d} && Holds(st, c, v, shared)
    ensures ReadRest(n, st, ord, c, expand, v, Some(w), Some(w), shared)
         == Memoised(Var(v), Parse(Some(w), Some(if w == d then [] else w), {}, Some(if w == d then {d} else {})),
                     Gather(st, c, v, shared))
  {
    LiteralRest(n, st, ord, c, expand, v, w, shared, {d});
    PlainParsed(w, d);
  }

  // ---- The reads -----------------------------------------------------------------------------------

  /** `v`, with the removal `x`, and `va` both have the variant `m`, whose text is `x` and which has the removal `z`. */
  ghost predicate Layout(st: Store, v: Name, va: Name, m: Name, x: Text, z: Text) {
    && v != va && v != m && va != m && IsPlain(x) && IsPlain(z) && x != z
    && Chosen(st, v) == Some(m) && Chosen(st, va) == Some(m) && Chosen(st, m) == None
    && Raw(st, m, None) == Some(x) && Raw(st, v, Some(x)) == Some(x) && Raw(st, va, Some(x)) == Some(x)
    && ActiveRemoves(st, v) == {x} && ActiveRemoves(st, va) == {} && ActiveRemoves(st, m) == {z}
  }

  lemma TextsPlain()
    ensures IsPlain(X) && IsPlain(Z) && X != Z
  {
    assert X[0] != Z[0];
  }

  lemma NamesDiffer()
    ensures V != VA && V != VAB && VA != VAB
  {
    assert |V| == 1 && |VA| == 2 && |VAB| == 3;
  }

  lemma RawsAre(noisy: bool)
    ensures var st := StoreWith(noisy);
            Raw(st, VAB, None) == Some(X) && Raw(st, V, Some(X)) == Some(X) && Raw(st, VA, Some(X)) == Some(X)
  {
    var st := StoreWith(noisy);
    OnlyBase(st, VAB, None);
    OnlyBase(st, V, Some(X));
    OnlyBase(st, VA, Some(X));
  }

  lemma NestedLayout(noisy: bool)
    requires noisy
    ensures Layout(StoreWith(noisy), V, VA, VAB, X, Z)
  {
    TextsPlain();
    NamesDiffer();
    RawsAre(noisy);
    ChosenAre(noisy);
    RemovesAre(noisy);
  }

  /** A variable without appends and prepends. */
  lemma OnlyBase(st: Store, v: Name, variant: Option<Text>)
    requires st.EntryOf(v).ItemsOf(Prepend) == [] && st.EntryOf(v).ItemsOf(Append) == []
    ensures Raw(st, v, variant) == Base(st, v, variant)
  {
    var base := Base(st, v, variant);
    assert NewestFirst([]) == [] && (base.Some? ==> [] + base.value + [] == base.value);
  }

  /** The parse of the shared variant: nothing of it was removed, but it has a set of removals. */
  function SharedParse(x: Text, removes: set<Text>): Parse {
    Parse(Some(x), Some(x), {}, Some(removes))
  }

  lemma ReadShared(n: nat, st: Store, ord: Order, v: Name, va: Name, m: Name, x: Text, z: Text)
    requires IsOrder(ord) && Layout(st, v, va, m, x, z)
    ensures Read(n + 1, st, ord, map[], false, Var(m))
         == After(Success(SharedParse(x, {})), map[Var(m) := SharedParse(x, {})])
  {
    LiteralText(n, st, ord, map[], false, m, NO_PARSE, x);
    PlainRest(n, st, ord, map[], false, m, x, z, false);
    assert ReadVar(n, st, ord, map[], false, m) == ReadText(n, st, ord, map[], false, m, NO_PARSE);
  }

  /** A read of `o` from a cache that has the parse of its variant. */
  lemma FromVariant(n: nat, st: Store, ord: Order, c: Cache, o: Name, m: Name)
    requires Chosen(st, o) == Some(m) && Var(m) in c && Var(o) !in c
    ensures Read(n + 1, st, ord, c, true, Var(o)) == ReadText(n, st, ord, c, true, o, c[Var(m)])
  {
    assert ReadVariant(n, st, ord, c, o) == After(Success(c[Var(m)]), c);
  }

  /** From an empty one, the variant is read first. */
  lemma FromNothing(n: nat, st: Store, ord: Order, o: Name, m: Name, p: Parse)
    requires Chosen(st, o) == Some(m)
    requires Read(n, st, ord, map[], false, Var(m)) == After(Success(p), map[Var(m) := p])
    ensures Read(n + 1, st, ord, map[], true, Var(o)) == ReadText(n, st, ord, map[Var(m) := p], true, o, p)
  {
    assert ReadVariant(n, st, ord, map[], o) == After(Success(p), map[Var(m) := p]);
  }

  /** An owner whose set then is that of the removal `x`. */
  lemma ReadOwner(n: nat, st: Store, ord: Order, c: Cache, o: Name, m: Name, x: Text, removes: set<Text>)
    requires IsOrder(ord) && IsPlain(x) && Chosen(st, o) == Some(m) && Raw(st, o, Some(x)) == Some(x)
    requires Var(m) in c && c[Var(m)] == SharedParse(x, removes) && removes + ActiveRemoves(st, o) == {x}
    ensures ReadText(n, st, ord, c, true, o, SharedParse(x, removes))
         == Memoised(Var(o), Parse(Some(x), Some([]), {}, Some({x})), c[Var(m) := SharedParse(x, {x})])
  {
    LiteralText(n, st, ord, c, true, o, SharedParse(x, removes), x);
    PlainRest(n, st, ord, c, true, o, x, x, true);
  }

  /** Reading `v` leaves its removal in the cached parse of `m`. */
  lemma ReadFirst(n: nat, st: Store, ord: Order, v: Name, va: Name, m: Name, x: Text, z: Text)
    requires IsOrder(ord) && Layout(st, v, va, m, x, z)
    ensures var a := ReadValue(n + 2, st, ord, map[], Var(v));
            && a.result == Success(Some([]))
            && Var(m) in a.cache && a.cache[Var(m)] == SharedParse(x, {x}) && Var(va) !in a.cache
  {
    ReadShared(n, st, ord, v, va, m, x, z);
    FromNothing(n + 1, st, ord, v, m, SharedParse(x, {}));
    ReadOwner(n + 1, st, ord, map[Var(m) := SharedParse(x, {})], v, m, x, {});
  }

  /** Then `va` reads as the empty string. */
  lemma ReadSecond(n: nat, st: Store, ord: Order, c: Cache, v: Name, va: Name, m: Name, x: Text, z: Text)
    requires IsOrder(ord) && Layout(st, v, va, m, x, z)
    requires Var(m) in c && c[Var(m)] == SharedParse(x, {x}) && Var(va) !in c
    ensures ReadValue(n + 2, st, ord, c, Var(va)).result == Success(Some([]))
  {
    FromVariant(n + 1, st, ord, c, va, m);
    ReadOwner(n + 1, st, ord, c, va, m, x, {x});
  }

  /** On its own it reads as `x`. */
  lemma ReadAlone(n: nat, st: Store, ord: Order, v: Name, va: Name, m: Name, x: Text, z: Text)
    requires IsOrder(ord) && Layout(st, v, va, m, x, z)
    ensures ReadValue(n + 2, st, ord, map[], Var(va)).result == Success(Some(x))
  {
    ReadShared(n, st, ord, v, va, m, x, z);
    FromNothing(n + 1, st, ord, va, m, SharedParse(x, {}));
    LiteralText(n + 1, st, ord, map[Var(m) := SharedParse(x, {})], true, va, SharedParse(x, {}), x);
    NoRest(n + 1, st, ord, map[Var(m) := SharedParse(x, {})], va, m, x);
  }

  lemma NoRest(n: nat, st: Store, ord: Order, c: Cache, o: Name, m: Name, x: Text)
    requires IsOrder(ord) && IsPlain(x) && Chosen(st, o) == Some(m) && ActiveRemoves(st, o) == {}
    requires c == map[Var(m) := SharedParse(x, {})]
    ensures var a := ReadRest(n, st, ord, c, true, o, Some(x), Some(x), true);
            a.result.Success? && a.result.value.value == Some(x)
  {
    assert Gathered(st, c, o, true) == {} && Gather(st, c, o, true) == c;
    FlatAll(n, st, ord, c, Some(m), {}, o);
    assert WordMap(st, {}) == map[];
    RestIs(n, st, ord, c, true, o, Some(x), Some(x), true, After(Success(map[]), c));
  }

  /** And `x` is its cache-free value. */
  lemma CacheFreeValue(st: Store, v: Name, va: Name, m: Name, x: Text, z: Text)
    requires Layout(st, v, va, m, x, z)
    ensures exists p :: EvalsTo(st, Var(va), p) && p.value == Some(x)
  {
    var q := SharedParse(x, {});
    PlainParsed(x, z);
    ParseTo(st, m, NO_PARSE, x, {z});
    LiteralTo(st, va, x);
    ComposeVar(st, va, q, Some(x), Some(x), map[]);
  }

  /** So on this store reads are not right in every order. */
  lemma NestedNotRight(ord: Order, n: nat)
    requires IsOrder(ord)
    ensures !RightInEveryOrder(Nested())
  {
    NestedLayout(true);
    var st := Nested();
    LayoutNotRight(st, ord, n, V, VA, VAB, X, Z);
  }

  lemma LayoutNotRight(st: Store, ord: Order, n: nat, v: Name, va: Name, m: Name, x: Text, z: Text)
    requires IsOrder(ord) && Layout(st, v, va, m, x, z)
    ensures !RightInEveryOrder(st)
  {
    ReadFirst(n, st, ord, v, va, m, x, z);
    var c := ReadValue(n + 2, st, ord, map[], Var(v)).cache;
    ReadSecond(n, st, ord, c, v, va, m, x, z);
    CacheFreeValue(st, v, va, m, x, z);
    var p :| EvalsTo(st, Var(va), p) && p.value == Some(x);
    forall q | EvalsTo(st, Var(va), q) ensures q == p {
      EvalUnique(st, Var(va), q, p);
    }
    TwoWrong(st, ord, n, v, va, c);
  }

  lemma TwoWrong(st: Store, ord: Order, n: nat, v: Name, va: Name, c: Cache)
    requires IsOrder(ord) && ReadValue(n + 2, st, ord, map[], Var(v)).cache == c
    requires ReadValue(n + 2, st, ord, c, Var(va)).result == Success(Some([]))
    requires !ValueOf(st, Value(va), Some([]))
    ensures !RightInEveryOrder(st)
  {
    SecondWrong(st, ord, map[], Value(v), Value(va), n + 2, c, Some([]));
    assert Exact(st, map[]);
  }

  /** The same two reads of a `DataSmart`, */
  method SpoiledRead(d: SmartData.DataSmart, ord: Order, n: nat)
    returns (v: Result<Option<Text>>, va: Result<Option<Text>>)
    requires d.Shows(Nested()) && d.expandCache == map[] && IsOrder(ord)
    modifies d`expandCache
    ensures v == Success(Some([])) && va == Success(Some([]))
  {
    NestedLayout(true);
    ghost var st := Nested();
    ReadFirst(n, st, ord, V, VA, VAB, X, Z);
    v := d.GetVar(n + 2, ord, V, st);
    ReadSecond(n, st, ord, d.expandCache, V, VA, VAB, X, Z);
    va := d.GetVar(n + 2, ord, VA, st);
  }

  /** and the second one alone. */
  method UnspoiledRead(d: SmartData.DataSmart, ord: Order, n: nat) returns (va: Result<Option<Text>>)
    requires d.Shows(Nested()) && d.expandCache == map[] && IsOrder(ord)
    modifies d`expandCache
    ensures va == Success(Some(X))
  {
    NestedLayout(true);
    ghost var st := Nested();
    ReadAlone(n, st, ord, V, VA, VAB, X, Z);
    va := d.GetVar(n + 2, ord, VA, st);
  }
}
