/**
 The flat datastore: one map from variable names to entries, no layers and no cache.
 These functions say what each write of `DataSmart` does to what a reader can see.
 */
module Datastore {
  import opened Prelude
  import opened Text
  import opened Overrides

  /** One `[value, override]` pair of an `:append`, `:prepend` or `:remove` list; no override is `[]`. */
  datatype Item = Item(value: Text, cond: Suffix)

  datatype Keyword = Append | Prepend | Remove

  datatype Flag = Content | DefaultVal | Op(kw: Keyword) | Other(name: string)

  /** The flags of one variable. */
  datatype Entry = Entry(content: Option<Text>, defaultVal: Option<Text>,
                         items: map<Keyword, seq<Item>>, flags: map<string, Text>)
  {
    predicate IsEmpty() {
      this == EMPTY
    }

    function ItemsOf(kw: Keyword): seq<Item> {
      if kw in items then items[kw] else []
    }

    function With(flag: Flag, value: Text): Entry
      requires !flag.Op?
    {
      match flag
      case Content => this.(content := Some(value))
      case DefaultVal => this.(defaultVal := Some(value))
      case Other(f) => this.(flags := flags[f := value])
    }

    function Clear(flag: Flag): Entry {
      match flag
      case Content => this.(content := None)
      case DefaultVal => this.(defaultVal := None)
      case Op(kw) => this.(items := items - {kw})
      case Other(f) => this.(flags := flags - {f})
    }
  }

  const EMPTY := Entry(None, None, map[], map[])

  type Variants = map<Name, seq<Variant>>

  datatype Store = Store(vars: map<Name, Entry>, variants: Variants, overrides: seq<string>) {

    function EntryOf(v: Name): Entry {
      if v in vars then vars[v] else EMPTY
    }

    function Put(v: Name, e: Entry): Store {
      this.(vars := vars[v := e])
    }

    lemma PutPut(v: Name, e1: Entry, e2: Entry)
      ensures Put(v, e1).Put(v, e2) == Put(v, e2)
    {
      assert vars[v := e1][v := e2] == vars[v := e2];
    }
  }

  // ---- Names -----------------------------------------------------------------------------

  function ParseKeyword(c: string): Option<Keyword> {
    if c == "append" then Some(Append)
    else if c == "prepend" then Some(Prepend)
    else if c == "remove" then Some(Remove)
    else None
  }

  predicate NoUpper(add: Suffix) {
    forall c | c in add :: forall ch | ch in c :: !('A' <= ch <= 'Z')
  }

  datatype Target = Plain | Operation(base: Name, kw: Keyword, cond: Suffix)

  /** `__setvar_regexp__`: the first operation keyword whose rest has no capital letter. */
  function ParseTarget(name: Name, i: nat := 1): Target
    requires i > 0
    decreases |name| - i
  {
    if i >= |name| then Plain
    else if ParseKeyword(name[i]).Some? && NoUpper(name[i + 1..]) then
      var add := name[i + 1..];
      Operation(name[..i], ParseKeyword(name[i]).value, if add == [""] then [] else add)
    else ParseTarget(name, i + 1)
  }

  predicate Contains(s: string, part: string) {
    exists i | 0 <= i <= |s| :: part <= s[i..]
  }

  /** The operations spelled with underscores, which `setVar` refuses fatally. */
  predicate OldSyntax(name: Name) {
    && !("__anon_" <= name[0])
    && exists c | c in name :: Contains(c, "_append") || Contains(c, "_prepend") || Contains(c, "_remove")
  }

  /** `__override_regexp__.match`: the text starts with a lower-case letter or a digit. */
  predicate OverrideStart(c: string) {
    c != "" && ('a' <= c[0] <= 'z' || '0' <= c[0] <= '9')
  }

  // ---- Override bookkeeping --------------------------------------------------------------

  function AddVariant(vs: Variants, owner: Name, v: Variant): Variants {
    var list := if owner in vs then vs[owner] else [];
    vs[owner := if v in list then list else list + [v]]
  }

  /** `_setvar_update_overrides` from the split position `k` leftwards. */
  function RegisterFrom(vs: Variants, name: Name, k: nat): Variants
    requires k < |name|
    decreases k
  {
    if k == 0 || !OverrideStart(name[k]) then vs
    else
      var vs' := AddVariant(vs, name[..k], Variant(name, name[k..]));
      if name[..k - 1] == [""] then vs' else RegisterFrom(vs', name, k - 1)
  }

  /** A name without a colon is split before its last character. */
  function Register(vs: Variants, name: Name): Variants
  {
    if |name| > 1 then RegisterFrom(vs, name, |name| - 1)
    else if OverrideStart(name[0]) then
      AddVariant(vs, [name[0][..|name[0]| - 1]], Variant(name, name))
    else vs
  }

  function RemoveFirst<T(==)>(list: seq<T>, x: T): seq<T> {
    if list == [] then []
    else if list[0] == x then list[1..]
    else [list[0]] + RemoveFirst(list[1..], x)
  }

  /** The same walk in `delVar`. */
  function UnregisterFrom(vs: Variants, name: Name, k: nat): Variants
    requires k < |name|
    decreases k
  {
    if k == 0 || !OverrideStart(name[k]) then vs
    else
      var owner := name[..k];
      var vs' := if owner in vs then vs[owner := RemoveFirst(vs[owner], Variant(name, name[k..]))] else vs;
      if name[..k - 1] == [""] then vs' else UnregisterFrom(vs', name, k - 1)
  }

  function ActiveNames(variants: seq<Variant>, overrides: seq<string>): seq<Name> {
    if variants == [] then []
    else
      var front := ActiveNames(variants[..|variants| - 1], overrides);
      var v := variants[|variants| - 1];
      if Active(v.suffix, overrides) then front + [v.name] else front
  }

  // ---- Writes ----------------------------------------------------------------------------

  function DelVar(st: Store, name: Name): Store
  {
    var vs := st.variants - {name};
    st.Put(name, EMPTY).(variants := if |name| > 1 then UnregisterFrom(vs, name, |name| - 1) else vs)
  }

  function DelVars(st: Store, names: seq<Name>): Store
  {
    if names == [] then st else DelVar(DelVars(st, names[..|names| - 1]), names[|names| - 1])
  }

  /** `setVar` on an `:append`, `:prepend` or `:remove` target. */
  function AddItem(st: Store, base: Name, kw: Keyword, item: Item): Store
  {
    var e := st.EntryOf(base);
    st.Put(base, e.(items := e.items[kw := e.ItemsOf(kw) + [item]]))
      .(variants := Register(st.variants, base))
  }

  /** Delete every active variant of `name` and stop listing any. */
  function DropVariants(st: Store, name: Name): Store {
    if name !in st.variants then st
    else
      var st' := DelVars(st, ActiveNames(st.variants[name], st.overrides));
      st'.(variants := st'.variants - {name})
  }

  /** A plain assignment drops pending operations and active variants, unless it comes from the parser. */
  function Forget(st: Store, name: Name): Store {
    DropVariants(st.Put(name, st.EntryOf(name).(items := map[])), name)
  }

  lemma ActiveNamesListed(variants: seq<Variant>, overrides: seq<string>)
    ensures forall n :: n in ActiveNames(variants, overrides) <==> IsActiveVariant(variants, overrides, n)
  {
    if variants != [] {
      var front, v := variants[..|variants| - 1], variants[|variants| - 1];
      assert variants == front + [v];
      ActiveNamesListed(front, overrides);
    }
  }

  function Assign(st: Store, name: Name, value: Text, parsing: bool): Store
  {
    var st1 := if parsing then st else Forget(st, name);
    st1.Put(name, st1.EntryOf(name).(content := Some(value)))
       .(variants := if |name| > 1 then Register(st1.variants, name) else st1.variants)
  }

  function SetVar(st: Store, name: Name, value: Text, parsing: bool): Store
  {
    match ParseTarget(name)
    case Operation(base, kw, cond) => AddItem(st, base, kw, Item(value, cond))
    case Plain => Assign(st, name, value, parsing)
  }

  function SetVarFlag(st: Store, name: Name, flag: Flag, value: Text): Store
    requires !flag.Op?
  {
    st.Put(name, st.EntryOf(name).With(flag, value))
      .(variants := if flag.DefaultVal? && |name| > 1 then Register(st.variants, name) else st.variants)
  }

  function DelVarFlag(st: Store, name: Name, flag: Flag): Store {
    if st.EntryOf(name).IsEmpty() then st
    else st.Put(name, st.EntryOf(name).Clear(flag))
  }

  // ---- The key set -----------------------------------------------------------------------

  /** Variables that some active variant overrides. */
  function Overridden(st: Store): set<Name> {
    set v | v in st.variants && exists x | x in st.variants[v] :: Active(x.suffix, st.overrides)
  }

  function Keys(st: Store): set<Name> {
    (set v | v in st.vars && !st.vars[v].IsEmpty()) + Overridden(st)
  }

  // ---- Runs ------------------------------------------------------------------------------

  datatype Write =
    | WSet(name: Name, value: Text)
    | WAppend(name: Name, value: Text)
    | WPrepend(name: Name, value: Text)
    | WDel(name: Name)
    | WSetFlag(name: Name, flag: Flag, value: Text)
    | WDelFlag(name: Name, flag: Flag)
  {
    ghost predicate Legal() {
      WSetFlag? ==> !flag.Op?
    }
  }

  function Apply(st: Store, w: Write): Store
    requires w.Legal()
  {
    match w
    case WSet(name, value) => if OldSyntax(name) then st else SetVar(st, name, value, false)
    case WAppend(name, value) =>
      if OldSyntax(name + ["append"]) then st else SetVar(st, name + ["append"], value, true)
    case WPrepend(name, value) =>
      if OldSyntax(name + ["prepend"]) then st else SetVar(st, name + ["prepend"], value, true)
    case WDel(name) => DelVar(st, name)
    case WSetFlag(name, flag, value) => SetVarFlag(st, name, flag, value)
    case WDelFlag(name, flag) => DelVarFlag(st, name, flag)
  }

  function Run(st: Store, writes: seq<Write>): Store
    requires forall w | w in writes :: w.Legal()
  {
    if writes == [] then st else Apply(Run(st, writes[..|writes| - 1]), writes[|writes| - 1])
  }
}
