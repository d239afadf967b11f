/**
 Reading with the memo: `getVarFlag`, `expandWithRefs` and `var_sub` as functions of the flat store and the
 expansion cache.  They say what every read answers and what it leaves in the cache, on every store, exceptions
 included: an exception is a `Failure`, and what was cached before it stays.  `n` is the recursion depth left.
 */
module Memo {
  import opened Prelude
  import opened Text
  import opened Datastore
  import opened Evaluation

  type Cache = map<Key, Parse>

  /** In which order Python iterates over a set of removals, for a variable and the cache at the time. */
  type Order = (Name, Cache, set<Text>) -> seq<Text>

  ghost predicate IsOrder(ord: Order) {
    forall v, c, s, r :: r in ord(v, c, s) <==> r in s
  }

  /** What a step returns, and the cache it leaves. */
  datatype After<+T> = After(result: Result<T>, cache: Cache)

  // ---- Removals ------------------------------------------------------------------------------

  /** The `removes` set of a cached parse. */
  function SetOf(c: Cache, m: Option<Name>): set<Text> {
    if m.Some? && Var(m.value) in c then c[Var(m.value)].Carried() else {}
  }

  /** The set that a read of `v` fills: the set object of the variant's parse if that has one, else a new one. */
  function Gathered(st: Store, c: Cache, v: Name, shared: bool): set<Text> {
    (if shared then SetOf(c, Chosen(st, v)) else {}) + ActiveRemoves(st, v)
  }

  function WithSet(c: Cache, m: Name, removes: set<Text>): Cache {
    if Var(m) in c then c[Var(m) := c[Var(m)].(removes := Some(removes))] else c
  }

  /** Filling a shared set changes the cached parse. */
  function Gather(st: Store, c: Cache, v: Name, shared: bool): Cache {
    if shared && Chosen(st, v).Some? then WithSet(c, Chosen(st, v).value, Gathered(st, c, v, shared)) else c
  }

  /** The parse `getVarFlag` builds: untouched if nothing was to be removed. */
  function Parsed(raw: Option<Text>, e: Option<Text>, words: map<Text, set<Text>>): Parse {
    var refs := RefsOf(raw) + RefsOf(e);
    if words == map[] then Parse(raw, e, refs, None)
    else Parse(raw, Some(RemoveWords(e.GetOr([]), AllWords(words))), refs, Some(Used(e.GetOr([]), words)))
  }

  // ---- Reads -----------------------------------------------------------------------------------

  /** `getVarFlag` with `expand` or `retparser`. */
  function Read(n: nat, st: Store, ord: Order, c: Cache, expand: bool, k: Key): After<Parse>
    decreases n, 0, 0
  {
    if k in c then After(Success(c[k]), c)
    else if n == 0 then After(Failure, c)
    else
      match k
      case VarFlag(v, f) => ReadFlag(n - 1, st, ord, c, v, f)
      case Var(v) => ReadVar(n - 1, st, ord, c, expand, v)
  }

  function ReadFlag(n: nat, st: Store, ord: Order, c: Cache, v: Name, f: string): After<Parse>
    decreases n, 6, 0
  {
    var raw := RawFlag(st, v, f);
    var x := Expanded(n, st, ord, c, Some(VarFlag(v, f)), raw);
    match x.result
    case Failure => After(Failure, x.cache)
    case Success(e) => Memoised(VarFlag(v, f), Parse(raw, e, RefsOf(raw) + RefsOf(e), None), x.cache)
  }

  function Memoised(k: Key, p: Parse, c: Cache): After<Parse> {
    After(Success(p), c[k := p])
  }

  function ReadVar(n: nat, st: Store, ord: Order, c: Cache, expand: bool, v: Name): After<Parse>
    decreases n, 7, 0
  {
    var m := ReadVariant(n, st, ord, c, v);
    match m.result
    case Failure => After(Failure, m.cache)
    case Success(variant) => ReadText(n, st, ord, m.cache, expand, v, variant)
  }

  /** From the variant's parse on: the assembled text and its expansion. */
  function ReadText(n: nat, st: Store, ord: Order, c: Cache, expand: bool, v: Name, variant: Parse): After<Parse>
    decreases n, 6, 0
  {
    var raw := Raw(st, v, variant.unexpanded);
    var x := Expanded(n, st, ord, c, Some(Var(v)), raw);
    match x.result
    case Failure => After(Failure, x.cache)
    case Success(e) => ReadRest(n, st, ord, x.cache, expand, v, raw, e, variant.removes.Some?)
  }

  /** From the expanded text on. */
  function ReadRest(n: nat, st: Store, ord: Order, c: Cache, expand: bool, v: Name, raw: Option<Text>, e: Option<Text>,
                    shared: bool): After<Parse>
    decreases n, 5, 0
  {
    var w := RemovalWords(n, st, ord, c, Truthy(if expand then e else raw), v, shared);
    match w.result
    case Failure => After(Failure, w.cache)
    case Success(words) => Memoised(Var(v), Parsed(raw, e, words), w.cache)
  }

  function ReadVariant(n: nat, st: Store, ord: Order, c: Cache, v: Name): After<Parse>
    decreases n, 4, 0
  {
    match Chosen(st, v)
    case None => After(Success(NO_PARSE), c)
    case Some(m) => Read(n, st, ord, c, false, Var(m))
  }

  function RemovalWords(n: nat, st: Store, ord: Order, c: Cache, nonEmpty: bool, v: Name, shared: bool)
    : After<map<Text, set<Text>>>
    decreases n, 4, 0
  {
    if !nonEmpty then After(Success(map[]), c)
    else
      var removes, filled := Gathered(st, c, v, shared), Gather(st, c, v, shared);
      ExpandRemoves(n, st, ord, filled, if shared then Chosen(st, v) else None, removes, ord(v, filled, removes))
  }

  /**
   `expanded_removes`. The set that is iterated over may be `held` by the parse of a variant, and so grow under
   the iteration, which raises.
   */
  function ExpandRemoves(n: nat, st: Store, ord: Order, c: Cache, held: Option<Name>, removes: set<Text>,
                         todo: seq<Text>): After<map<Text, set<Text>>>
    decreases n, 3, |todo|
  {
    if todo == [] then After(Success(map[]), c)
    else
      var front := ExpandRemoves(n, st, ord, c, held, removes, todo[..|todo| - 1]);
      match front.result
      case Failure => front
      case Success(words) =>
        var x := Expanded(n, st, ord, front.cache, None, Some(todo[|todo| - 1]));
        if x.result.Failure? || Grown(x.cache, held, removes) then After(Failure, x.cache)
        else After(Success(words[todo[|todo| - 1] := Words(x.result.value.GetOr([]))]), x.cache)
  }

  predicate Grown(c: Cache, held: Option<Name>, removes: set<Text>) {
    held.Some? && SetOf(c, held) != removes
  }

  /** `expandWithRefs`: a second pass at most, since then nothing changes any more (`SecondPassKeeps`). */
  function Expanded(n: nat, st: Store, ord: Order, c: Cache, self: Option<Key>, raw: Option<Text>): After<Option<Text>>
    decreases n, 2, 0
  {
    if RefsOf(raw) == {} then After(Success(raw), c)
    else
      var first := Substituted(n, st, ord, c, self, raw.GetOr([]));
      match first.result
      case Failure => After(Failure, first.cache)
      case Success(s) =>
        if Some(s) == raw || Refs(s) == {} then After(Success(Some(s)), first.cache)
        else
          var second := Substituted(n, st, ord, first.cache, self, s);
          After(if second.result.Success? then Success(Some(second.result.value)) else Failure, second.cache)
  }

  /** One pass over the references, from the left. */
  function Substituted(n: nat, st: Store, ord: Order, c: Cache, self: Option<Key>, s: Text): After<Text>
    decreases n, 1, |s|
  {
    if s == [] then After(Success([]), c)
    else
      var front := Substituted(n, st, ord, c, self, s[..|s| - 1]);
      match front.result
      case Failure => front
      case Success(out) =>
        var x := VarSub(n, st, ord, front.cache, self, s[|s| - 1]);
        match x.result
        case Failure => x
        case Success(head) => After(Success(out + head), x.cache)
  }

  /** `var_sub` */
  function VarSub(n: nat, st: Store, ord: Order, c: Cache, self: Option<Key>, a: Atom): After<Text>
    decreases n, 0, 1
  {
    match a
    case Ch(_) => After(Success([a]), c)
    case Ref(name) =>
      if self == Some(Var(name)) then After(Failure, c)
      else
        var r := Read(n, st, ord, c, true, Var(name));
        match r.result
        case Failure => After(Failure, r.cache)
        case Success(p) => After(Success(p.value.GetOr([a])), r.cache)
  }

  /** `getVar(v)`, or `getVarFlag(v, f)`: the value of the parse. */
  function ReadValue(n: nat, st: Store, ord: Order, c: Cache, k: Key): After<Option<Text>> {
    var a := Read(n, st, ord, c, true, k);
    After(if a.result.Failure? then Failure else Success(a.result.value.value), a.cache)
  }

  /** `getVar(v, False)`: not memoised, but it fills a shared set. */
  function ReadUnexpanded(n: nat, st: Store, ord: Order, c: Cache, v: Name): After<Option<Text>> {
    if n == 0 then After(Failure, c)
    else
      var m := ReadVariant(n - 1, st, ord, c, v);
      match m.result
      case Failure => After(Failure, m.cache)
      case Success(variant) => Fill(st, m.cache, v, variant)
  }

  function Fill(st: Store, c: Cache, v: Name, variant: Parse): After<Option<Text>> {
    var raw := Raw(st, v, variant.unexpanded);
    After(Success(raw), if Truthy(raw) then Gather(st, c, v, variant.removes.Some?) else c)
  }

  // ---- What every read keeps ---------------------------------------------------------------------

  /** The unexpanded text of a variable, along its chain of variants; it involves neither expansion nor cache. */
  function RawAt(n: nat, st: Store, v: Name): Result<Option<Text>> {
    if n == 0 then Failure
    else
      match Chosen(st, v)
      case None => Success(Raw(st, v, None))
      case Some(m) => var x :- RawAt(n - 1, st, m); Success(Raw(st, v, x))
  }

  ghost predicate RawIs(st: Store, v: Name, raw: Option<Text>) {
    exists n: nat :: RawAt(n, st, v) == Success(raw)
  }

  ghost predicate Textless(st: Store, u: Name) {
    RawIs(st, u, None)
  }

  ghost predicate AllTextless(st: Store, s: Text) {
    forall u | u in Refs(s) :: Textless(st, u)
  }

  lemma {:induction false} RawAtMono(n: nat, m: nat, st: Store, v: Name)
    requires n <= m && RawAt(n, st, v).Success?
    ensures RawAt(m, st, v) == RawAt(n, st, v)
  {
    if Chosen(st, v).Some? {
      RawAtMono(n - 1, m - 1, st, Chosen(st, v).value);
    }
  }

  lemma RawUnique(st: Store, v: Name, x: Option<Text>, y: Option<Text>)
    requires RawIs(st, v, x) && RawIs(st, v, y)
    ensures x == y
  {
    var n: nat :| RawAt(n, st, v) == Success(x);
    var m: nat :| RawAt(m, st, v) == Success(y);
    if n < m { RawAtMono(n, m, st, v); } else { RawAtMono(m, n, st, v); }
  }

  lemma RawStep(st: Store, v: Name, variant: Option<Text>)
    requires match Chosen(st, v) case None => variant == None case Some(m) => RawIs(st, m, variant)
    ensures RawIs(st, v, Raw(st, v, variant))
  {
    var n: nat := 0;
    if Chosen(st, v).Some? {
      n :| RawAt(n, st, Chosen(st, v).value) == Success(variant);
    }
    assert RawAt(n + 1, st, v) == Success(Raw(st, v, variant));
  }

  /** A cached parse has the text its variable has, a value iff there is text, and refers to unset variables only. */
  ghost predicate SoundEntry(st: Store, k: Key, p: Parse) {
    && (p.value.Some? ==> AllTextless(st, p.value.value))
    && (k.Var? ==> RawIs(st, k.name, p.unexpanded) && (p.value.None? <==> p.unexpanded.None?))
  }

  ghost predicate Sound(st: Store, c: Cache) {
    forall k | k in c :: SoundEntry(st, k, c[k])
  }

  lemma NothingCached(st: Store)
    ensures Sound(st, map[])
  {
  }

  /** Only the removals of a parse may change, if it has any, and only grow. */
  predicate Kept(p: Parse, p': Parse) {
    p'.(removes := None) == p.(removes := None) && p.Carried() <= p'.Carried()
    && (p.removes.Some? <==> p'.removes.Some?)
  }

  ghost predicate Grows(was: Cache, c: Cache) {
    forall k | k in was :: k in c && Kept(was[k], c[k])
  }

  ghost predicate Keeps<T>(st: Store, c: Cache, a: After<T>) {
    Sound(st, a.cache) && Grows(c, a.cache)
  }

  /** What is returned is what is cached for the key. */
  predicate Stored(k: Key, a: After<Parse>) {
    a.result.Success? ==> k in a.cache && a.cache[k] == a.result.value
  }

  lemma KeepsOn<S, T>(st: Store, c: Cache, a: After<S>, b: After<T>)
    requires Keeps(st, c, a) && Keeps(st, a.cache, b)
    ensures Keeps(st, c, b)
  {
  }

  /** The variant of `v` is cached, with a set if it is shared. */
  predicate Holds(st: Store, c: Cache, v: Name, shared: bool) {
    shared ==> Chosen(st, v).Some? && Var(Chosen(st, v).value) in c && c[Var(Chosen(st, v).value)].removes.Some?
  }

  lemma GatherKeeps(st: Store, c: Cache, v: Name, shared: bool)
    requires Sound(st, c) && Holds(st, c, v, shared)
    ensures Sound(st, Gather(st, c, v, shared)) && Grows(c, Gather(st, c, v, shared))
    ensures Holds(st, Gather(st, c, v, shared), v, shared)
  {
    if shared {
      var k := Var(Chosen(st, v).value);
      assert Kept(c[k], Gather(st, c, v, shared)[k]);
      assert SoundEntry(st, k, c[k]);
    }
  }

  lemma {:induction false} ReadKeeps(n: nat, st: Store, ord: Order, c: Cache, expand: bool, k: Key)
    requires Sound(st, c)
    ensures var a := Read(n, st, ord, c, expand, k);
            && Keeps(st, c, a)
            && Stored(k, a)
    decreases n, 0, 0
  {
    if k !in c && n > 0 {
      match k
      case VarFlag(v, f) => FlagKeeps(n - 1, st, ord, c, v, f);
      case Var(v) => VarKeeps(n - 1, st, ord, c, expand, v);
    }
  }

  lemma {:induction false} FlagKeeps(n: nat, st: Store, ord: Order, c: Cache, v: Name, f: string)
    requires Sound(st, c) && VarFlag(v, f) !in c
    ensures var a := ReadFlag(n, st, ord, c, v, f);
            && Keeps(st, c, a)
            && Stored(VarFlag(v, f), a)
    decreases n, 6, 0
  {
    ExpandedKeeps(n, st, ord, c, Some(VarFlag(v, f)), RawFlag(st, v, f));
  }

  lemma {:induction false} VarKeeps(n: nat, st: Store, ord: Order, c: Cache, expand: bool, v: Name)
    requires Sound(st, c) && Var(v) !in c
    ensures var a := ReadVar(n, st, ord, c, expand, v);
            && Keeps(st, c, a)
            && Stored(Var(v), a)
    decreases n, 7, 0
  {
    var m := ReadVariant(n, st, ord, c, v);
    VariantKeeps(n, st, ord, c, v);
    if m.result.Success? {
      TextKeeps(n, st, ord, m.cache, expand, v, m.result.value);
      var t := ReadText(n, st, ord, m.cache, expand, v, m.result.value);
      assert ReadVar(n, st, ord, c, expand, v) == t;
    }
  }

  lemma {:induction false} TextKeeps(n: nat, st: Store, ord: Order, c: Cache, expand: bool, v: Name, variant: Parse)
    requires Sound(st, c) && Holds(st, c, v, variant.removes.Some?)
    requires match Chosen(st, v) case None => variant.unexpanded
             == None case Some(m) => RawIs(st, m, variant.unexpanded)
    ensures var a := ReadText(n, st, ord, c, expand, v, variant);
            Keeps(st, c - {Var(v)}, a) && Stored(Var(v), a)
    decreases n, 6, 0
  {
    var raw := Raw(st, v, variant.unexpanded);
    RawStep(st, v, variant.unexpanded);
    var x := Expanded(n, st, ord, c, Some(Var(v)), raw);
    ExpandedKeeps(n, st, ord, c, Some(Var(v)), raw);
    if x.result.Success? {
      RestKeeps(n, st, ord, x.cache, expand, v, raw, x.result.value, variant.removes.Some?);
    }
  }

  lemma {:induction false} VariantKeeps(n: nat, st: Store, ord: Order, c: Cache, v: Name)
    requires Sound(st, c)
    ensures var a := ReadVariant(n, st, ord, c, v);
            && Keeps(st, c, a)
            && (a.result.Success? ==>
                  && Holds(st, a.cache, v, a.result.value.removes.Some?)
                  && match Chosen(st, v)
                     case None => a.result.value == NO_PARSE
                     case Some(m) => RawIs(st, m, a.result.value.unexpanded)
                                     && Var(m) in a.cache && a.cache[Var(m)] == a.result.value)
    decreases n, 4, 0
  {
    if Chosen(st, v).Some? {
      ReadKeeps(n, st, ord, c, false, Var(Chosen(st, v).value));
    }
  }

  /** The text of `v` and its expansion, as far as they do not depend on the cache. */
  ghost predicate TextOk(st: Store, v: Name, raw: Option<Text>, e: Option<Text>) {
    RawIs(st, v, raw) && (raw.None? <==> e.None?) && (e.Some? ==> AllTextless(st, e.value))
  }

  lemma ParsedSound(st: Store, v: Name, raw: Option<Text>, e: Option<Text>, words: map<Text, set<Text>>)
    requires TextOk(st, v, raw, e)
    requires words != map[] ==> e.Some?
    ensures SoundEntry(st, Var(v), Parsed(raw, e, words))
  {
    RemoveWordsRefs(e.GetOr([]), AllWords(words));
  }

  lemma {:induction false} RestKeeps(n: nat, st: Store, ord: Order, c: Cache, expand: bool, v: Name, raw: Option<Text>,
                                     e: Option<Text>, shared: bool)
    requires Sound(st, c) && Holds(st, c, v, shared) && TextOk(st, v, raw, e)
    ensures var a := ReadRest(n, st, ord, c, expand, v, raw, e, shared);
            && Keeps(st, c - {Var(v)}, a)
            && Stored(Var(v), a)
    decreases n, 5, 0
  {
    var w := RemovalWords(n, st, ord, c, Truthy(if expand then e else raw), v, shared);
    WordsKeep(n, st, ord, c, Truthy(if expand then e else raw), v, shared);
    if w.result.Success? {
      ParsedSound(st, v, raw, e, w.result.value);
      MemoisedKeeps(st, c, w, v, Parsed(raw, e, w.result.value));
    }
    RestIs(n, st, ord, c, expand, v, raw, e, shared, w);
  }

  lemma MemoisedKeeps(st: Store, c: Cache, w: After<map<Text, set<Text>>>, v: Name, p: Parse)
    requires Keeps(st, c, w) && SoundEntry(st, Var(v), p)
    ensures var a := Memoised(Var(v), p, w.cache); Keeps(st, c - {Var(v)}, a) && Stored(Var(v), a)
  {
  }

  lemma RestIs(n: nat, st: Store, ord: Order, c: Cache, expand: bool, v: Name, raw: Option<Text>, e: Option<Text>,
               shared: bool, w: After<map<Text, set<Text>>>)
    requires w == RemovalWords(n, st, ord, c, Truthy(if expand then e else raw), v, shared)
    ensures ReadRest(n, st, ord, c, expand, v, raw, e, shared)
         == if w.result.Failure? then After(Failure, w.cache)
            else Memoised(Var(v), Parsed(raw, e, w.result.value), w.cache)
  {
  }

  lemma RestSound(n: nat, st: Store, ord: Order, c: Cache, expand: bool, v: Name, raw: Option<Text>, e: Option<Text>,
                  shared: bool)
    requires Sound(st, c) && Holds(st, c, v, shared) && TextOk(st, v, raw, e)
    ensures Sound(st, ReadRest(n, st, ord, c, expand, v, raw, e, shared).cache)
  {
    RestKeeps(n, st, ord, c, expand, v, raw, e, shared);
  }

  lemma TextSound(n: nat, st: Store, ord: Order, c: Cache, expand: bool, v: Name, variant: Parse)
    requires Sound(st, c) && Holds(st, c, v, variant.removes.Some?)
    requires match Chosen(st, v) case None => variant.unexpanded
             == None case Some(m) => RawIs(st, m, variant.unexpanded)
    ensures Sound(st, ReadText(n, st, ord, c, expand, v, variant).cache)
  {
    TextKeeps(n, st, ord, c, expand, v, variant);
  }

  lemma {:induction false} WordsKeep(n: nat, st: Store, ord: Order, c: Cache, nonEmpty: bool, v: Name, shared: bool)
    requires Sound(st, c) && Holds(st, c, v, shared)
    ensures var a := RemovalWords(n, st, ord, c, nonEmpty, v, shared);
            && Keeps(st, c, a)
            && (a.result.Success? && a.result.value != map[] ==> nonEmpty)
    decreases n, 4, 0
  {
    if nonEmpty {
      var removes, filled := Gathered(st, c, v, shared), Gather(st, c, v, shared);
      GatherKeeps(st, c, v, shared);
      RemovesKeep(n, st, ord, filled, if shared then Chosen(st, v) else None, removes, ord(v, filled, removes));
    }
  }

  lemma {:induction false} RemovesKeep(n: nat, st: Store, ord: Order, c: Cache, held: Option<Name>, removes: set<Text>,
                                       todo: seq<Text>)
    requires Sound(st, c)
    ensures Keeps(st, c, ExpandRemoves(n, st, ord, c, held, removes, todo))
    decreases n, 3, |todo|
  {
    if todo != [] {
      var front := ExpandRemoves(n, st, ord, c, held, removes, todo[..|todo| - 1]);
      RemovesKeep(n, st, ord, c, held, removes, todo[..|todo| - 1]);
      ExpandedKeeps(n, st, ord, front.cache, None, Some(todo[|todo| - 1]));
    }
  }

  lemma {:induction false} ExpandedKeeps(n: nat, st: Store, ord: Order, c: Cache, self: Option<Key>, raw: Option<Text>)
    requires Sound(st, c)
    ensures var a := Expanded(n, st, ord, c, self, raw);
            && Keeps(st, c, a)
            && (a.result.Success? ==>
                  && (a.result.value.None? <==> raw.None?) && (raw == Some([]) ==> a.result.value == Some([]))
                  && (raw.Some? ==> AllTextless(st, a.result.value.value)))
    decreases n, 2, 0
  {
    if RefsOf(raw) != {} {
      var first := Substituted(n, st, ord, c, self, raw.value);
      SubstitutedKeeps(n, st, ord, c, self, raw.value);
      if first.result.Success? && Some(first.result.value) != raw && Refs(first.result.value) != {} {
        SubstitutedKeeps(n, st, ord, first.cache, self, first.result.value);
      }
    }
  }

  /** `out` refers to unset variables only, and is `s` if `s` did. */
  ghost predicate Clean(st: Store, s: Text, out: Text) {
    AllTextless(st, out) && (AllTextless(st, s) ==> out == s)
  }

  lemma CleanSnoc(st: Store, front: Text, out: Text, last: Atom, head: Text)
    requires Clean(st, front, out) && Clean(st, [last], head)
    ensures Clean(st, front + [last], out + head)
  {
    assert Refs(front + [last]) == Refs(front) + Refs([last]) && Refs(out + head) == Refs(out) + Refs(head);
  }

  lemma SubstitutedSnoc(n: nat, st: Store, ord: Order, c: Cache, self: Option<Key>, front: Text, last: Atom)
    ensures var f := Substituted(n, st, ord, c, self, front);
            var x := VarSub(n, st, ord, f.cache, self, last);
            Substituted(n, st, ord, c, self, front + [last])
            == if f.result.Failure? then f
               else if x.result.Failure? then x
               else After(Success(f.result.value + x.result.value), x.cache)
  {
    assert (front + [last])[..|front|] == front;
  }

  lemma {:induction false} SubstitutedKeeps(n: nat, st: Store, ord: Order, c: Cache, self: Option<Key>, s: Text)
    requires Sound(st, c)
    ensures var a := Substituted(n, st, ord, c, self, s);
            Keeps(st, c, a) && (a.result.Success? ==> Clean(st, s, a.result.value))
    decreases n, 1, |s|
  {
    if s != [] {
      var front, last := s[..|s| - 1], s[|s| - 1];
      assert s == front + [last];
      SubstitutedSnoc(n, st, ord, c, self, front, last);
      var f := Substituted(n, st, ord, c, self, front);
      SubstitutedKeeps(n, st, ord, c, self, front);
      if f.result.Success? {
        VarSubKeeps(n, st, ord, f.cache, self, last);
        var x := VarSub(n, st, ord, f.cache, self, last);
        KeepsOn(st, c, f, x);
        if x.result.Success? {
          CleanSnoc(st, front, f.result.value, last, x.result.value);
        }
      }
    }
  }

  lemma {:induction false} VarSubKeeps(n: nat, st: Store, ord: Order, c: Cache, self: Option<Key>, a: Atom)
    requires Sound(st, c)
    ensures var r := VarSub(n, st, ord, c, self, a);
            && Keeps(st, c, r)
            && (r.result.Success? ==> Clean(st, [a], r.result.value))
    decreases n, 0, 1
  {
    if a.Ref? && self != Some(Var(a.name)) {
      var r := Read(n, st, ord, c, true, Var(a.name));
      ReadKeeps(n, st, ord, c, true, Var(a.name));
      assert Refs([a]) == {a.name};
      if r.result.Success? {
        assert SoundEntry(st, Var(a.name), r.result.value);
        if Textless(st, a.name) {
          RawUnique(st, a.name, r.result.value.unexpanded, None);
        }
      }
    }
  }

  /** The second pass of the loop changes nothing, so the loop ends. */
  lemma SecondPassKeeps(n: nat, st: Store, ord: Order, c: Cache, self: Option<Key>, s: Text)
    requires Sound(st, c) && Substituted(n, st, ord, c, self, s).result.Success?
    ensures var a := Substituted(n, st, ord, c, self, s);
            var b := Substituted(n, st, ord, a.cache, self, a.result.value);
            b.result.Success? ==> b.result.value == a.result.value
  {
    var a := Substituted(n, st, ord, c, self, s);
    SubstitutedKeeps(n, st, ord, c, self, s);
    SubstitutedKeeps(n, st, ord, a.cache, self, a.result.value);
  }
}
