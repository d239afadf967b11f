/**
 `DataSmart`: a chain of dictionaries that fall through to their parent, override lists shared with the parent,
 and a memo of parsed values.  Every write is proved against the flat store, every read against the memoising reads
 of the flat store: what is answered, and what is left in the memo.
 */
module SmartData {
  import opened Prelude
  import opened Text
  import opened Overrides
  import opened Datastore
  import opened Evaluation
  import Memo

  /** A Python list of `[value, override]` pairs; `copy.copy` of a variable's dictionary shares it. */
  class ItemList {
    var items: seq<Item>

    constructor (items: seq<Item>)
      ensures this.items == items
    {
      this.items := items;
    }
  }

  /** The dictionary of one variable: its text flags and its lists of pending operations. */
  datatype Cells = Cells(content: Option<Text>, defaultVal: Option<Text>,
                         lists: map<Keyword, ItemList>, flags: map<string, Text>)
  {
    predicate IsEmpty() {
      this == NO_CELLS
    }

    /** What a reader sees of it. */
    function Entry(): (e: Entry)
      reads lists.Values
    {
      Datastore.Entry(content, defaultVal, map k | k in lists :: lists[k].items, flags)
    }

    function With(flag: Flag, value: Text): Cells
      requires !flag.Op?
    {
      match flag
      case Content => this.(content := Some(value))
      case DefaultVal => this.(defaultVal := Some(value))
      case Other(f) => this.(flags := flags[f := value])
    }

    function Clear(flag: Flag): Cells {
      match flag
      case Content => this.(content := None)
      case DefaultVal => this.(defaultVal := None)
      case Op(kw) => this.(lists := lists - {kw})
      case Other(f) => this.(flags := flags - {f})
    }

    lemma EntryEmpty()
      ensures IsEmpty() <==> Entry().IsEmpty()
    {
      assert forall k | k in lists :: k in Entry().items;
    }

    lemma EntryWith(flag: Flag, value: Text)
      requires !flag.Op?
      ensures With(flag, value).Entry() == Entry().With(flag, value)
    {
    }

    lemma EntryStore(kw: Keyword, list: ItemList)
      ensures this.(lists := lists[kw := list]).Entry() == Entry().(items := Entry().items[kw := list.items])
    {
    }

    lemma EntryClear(flag: Flag)
      ensures Clear(flag).Entry() == Entry().Clear(flag)
    {
    }
  }

  const NO_CELLS := Cells(None, None, map[], map[])

  /** Every name is settled as deleted or a key, counts as overridden, or is what the layers still to come say. */
  ghost predicate Walked(flat: map<Name, Entry>, rest: map<Name, Entry>, deleted: set<Name>, keys: set<Name>,
                         overridden: set<Name>) {
    && (forall k | k in deleted :: k !in keys && k in flat && flat[k].IsEmpty())
    && (forall k | k in keys :: k in flat && !flat[k].IsEmpty())
    && forall k | k !in deleted && k !in keys && k !in overridden ::
         (k in flat <==> k in rest) && (k in flat ==> flat[k] == rest[k])
  }

  lemma WalkedDown(flat: map<Name, Entry>, below: map<Name, Entry>, own: map<Name, Entry>,
                   deleted: set<Name>, keys: set<Name>, overridden: set<Name>)
    requires Walked(flat, below + own, deleted, keys, overridden)
    ensures var seen := set k | k in own && k !in deleted && k !in overridden && k !in keys;
            var gone := set k | k in seen && own[k].IsEmpty();
            Walked(flat, below, deleted + gone, keys + (seen - gone), overridden)
  {
  }

  /** One Python dictionary `d`; `parent` is `d["_data"]`, set once by `createCopy`. */
  class Layer {
    var entries: map<Name, Cells>
    const parent: Layer?
    ghost const chain: set<Layer>
    ghost const depth: nat
    /** Holds every list that some entry of the chain refers to. */
    ghost var lists: set<ItemList>

    ghost predicate Linked()
      reads this, chain
      decreases depth
    {
      && this in chain && Holds(entries)
      && (parent == null ==> chain == {this})
      && (parent != null ==>
            parent in chain && parent.depth < depth && chain == {this} + parent.chain && this !in parent.chain
            && parent.lists <= lists && parent.Linked())
    }

    ghost predicate Holds(cells: map<Name, Cells>)
      reads this`lists
    {
      forall v, k | v in cells && k in cells[v].lists :: cells[v].lists[k] in lists
    }

    constructor (parent: Layer?)
      requires parent != null ==> parent.Linked()
      ensures Linked() && entries == map[] && this.parent == parent
      ensures chain == {this} + if parent == null then {} else parent.chain
      ensures lists == if parent == null then {} else parent.lists
      ensures Flatten() == if parent == null then map[] else parent.Flatten()
    {
      entries := map[];
      this.parent := parent;
      chain := {this} + if parent == null then {} else parent.chain;
      depth := if parent == null then 0 else parent.depth + 1;
      lists := if parent == null then {} else parent.lists;
      new;
      assert Own() == map[];
    }

    /** What the chain holds for each name: the entry of the nearest layer that has one. */
    ghost function Flatten(): map<Name, Entry>
      requires Linked()
      reads this, chain, lists
      decreases depth
    {
      if parent == null then Own() else parent.Flatten() + Own()
    }

    /** What the layers below hold. */
    ghost function Below(): map<Name, Entry>
      requires Linked()
      reads this, chain, lists
    {
      if parent == null then map[] else parent.Flatten()
    }

    /** One round of the loop of `keylist`. */
    method Visit(deleted: set<Name>, keys: set<Name>, overridden: set<Name>, ghost flat: map<Name, Entry>)
      returns (deleted': set<Name>, keys': set<Name>)
      requires Linked() && Walked(flat, Flatten(), deleted, keys, overridden)
      ensures Linked() && Walked(flat, Below(), deleted', keys', overridden)
    {
      var seen := set k | k in entries && k !in deleted && k !in overridden && k !in keys;
      EntriesEmpty();
      assert Flatten() == Below() + Own();
      WalkedDown(flat, Below(), Own(), deleted, keys, overridden);
      var gone := set k | k in seen && entries[k].IsEmpty();
      deleted' := deleted + gone;
      keys' := keys + (seen - gone);
    }

    ghost function Own(): map<Name, Entry>
      requires Holds(entries)
      reads this, lists
    {
      map v | v in entries :: entries[v].Entry()
    }

    /** Each entry of the layer is empty exactly if a reader sees it empty. */
    lemma EntriesEmpty()
      requires Holds(entries)
      ensures Own().Keys == entries.Keys && forall k | k in entries :: entries[k].IsEmpty() <==> Own()[k].IsEmpty()
    {
      forall k | k in entries ensures entries[k].IsEmpty() <==> Own()[k].IsEmpty() {
        entries[k].EntryEmpty();
      }
    }

    method Store(v: Name, c: Cells)
      requires Linked()
      modifies this
      ensures Linked() && entries == old(entries)[v := c] && lists == old(lists) + c.lists.Values
      ensures Flatten() == old(Flatten())[v := c.Entry()]
    {
      ghost var below := Below();
      entries := entries[v := c];
      lists := lists + c.lists.Values;
      OwnAfter(v, c, old(Own()));
      UpdateOver(below, old(Own()), v, c.Entry());
    }

    lemma OwnAfter(v: Name, c: Cells, was: map<Name, Entry>)
      requires Holds(entries) && v in entries && entries[v] == c
      requires was.Keys + {v} == entries.Keys
      requires forall u | u in was && u != v :: was[u] == entries[u].Entry()
      ensures Own() == was[v := c.Entry()]
    {
    }

    static lemma UpdateOver(below: map<Name, Entry>, own: map<Name, Entry>, v: Name, e: Entry)
      ensures below + own[v := e] == (below + own)[v := e]
    {
    }
  }

  /** A Python list of variants, shared between stores after `copy.copy(self.overridedata)`. */
  class OverrideList {
    var items: seq<Variant>

    constructor (items: seq<Variant>)
      ensures this.items == items
    {
      this.items := items;
    }
  }

  class DataSmart {
    const dict: Layer
    const overrides: seq<string>
    var overrideData: map<Name, OverrideList>
    var expandCache: map<Key, Parse>

    ghost function Listing(): Variants
      reads this`overrideData, overrideData.Values
    {
      map v | v in overrideData :: overrideData[v].items
    }

    /** The flat store a reader sees. */
    ghost function View(): Store
      requires dict.Linked()
      reads dict, dict.chain, dict.lists, this`overrideData, overrideData.Values
    {
      Store(dict.Flatten(), Listing(), overrides)
    }

    ghost predicate Valid()
      reads this, dict, dict.chain, dict.lists, overrideData.Values
    {
      dict.Linked() && Memo.Sound(View(), expandCache)
    }

    constructor (overrides: seq<string>)
      ensures Valid() && fresh(dict) && View() == Store(map[], map[], overrides) && expandCache == map[]
    {
      dict := new Layer(null);
      this.overrides := overrides;
      overrideData := map[];
      expandCache := map[];
      new;
      Memo.NothingCached(View());
    }

    constructor Child(parent: DataSmart)
      requires parent.dict.Linked()
      ensures Valid() && fresh(dict) && dict.parent == parent.dict && overrides == parent.overrides
      ensures overrideData == parent.overrideData && expandCache == map[] && View() == parent.View()
    {
      dict := new Layer(parent.dict);
      overrides := parent.overrides;
      overrideData := parent.overrideData;
      expandCache := map[];
      new;
      assert Listing() == parent.Listing();
      Memo.NothingCached(View());
    }

    method CreateCopy() returns (data: DataSmart)
      requires dict.Linked()
      ensures fresh(data) && fresh(data.dict) && data.dict.parent == dict
      ensures data.Valid() && data.View() == View() && data.overrides == overrides && data.expandCache == map[]
    {
      data := new DataSmart.Child(this);
    }

    // ---- Lookup and shadowing --------------------------------------------------------------

    method FindVar(v: Name) returns (r: Option<Cells>)
      requires dict.Linked()
      ensures r.None? ==> v !in View().vars
      ensures r.Some? ==> v in View().vars && r.value.Entry() == View().vars[v]
      ensures r.Some? ==> forall k | k in r.value.lists :: r.value.lists[k] in dict.lists
    {
      var dest: Layer? := dict;
      while dest != null
        invariant dest != null ==> dest.Linked() && dest.chain <= dict.chain && dest.lists <= dict.lists
        invariant v in dict.Flatten() <==> dest != null && v in dest.Flatten()
        invariant v in dict.Flatten() ==> dict.Flatten()[v] == dest.Flatten()[v]
        decreases if dest == null then 0 else dest.depth + 1
      {
        if v in dest.entries {
          return Some(dest.entries[v]);
        }
        dest := dest.parent;
      }
      r := None;
    }

    method SetOwn(v: Name, c: Cells)
      requires dict.Linked()
      modifies dict
      ensures dict.Linked() && dict.entries == old(dict.entries)[v := c]
              && dict.lists == old(dict.lists) + c.lists.Values
      ensures View() == old(View()).Put(v, c.Entry())
    {
      dict.Store(v, c);
      assert Listing() == old(Listing());
    }

    /** A shallow copy of what is found for `v`: its lists are the lists of the copied entry. */
    method ShadowOf(v: Name, ghost st: Store) returns (c: Cells)
      requires dict.Linked() && View() == st
      modifies this`expandCache
      ensures dict.Linked() && View() == st
      ensures c.Entry() == st.EntryOf(v) && forall k | k in c.lists :: c.lists[k] in dict.lists
      ensures expandCache == old(expandCache) || expandCache == map[]
    {
      var local := FindVar(v);
      if local.Some? {
        local.value.EntryEmpty();
      }
      if local.Some? && !local.value.IsEmpty() {
        return local.value;
      }
      expandCache := map[];
      c := NO_CELLS;
    }

    /**
     Afterwards the layer has its own entry `e` for `v`, with the lists there were, and readers see what they saw
     before.
     */
    method MakeShadowCopy(v: Name, ghost st: Store) returns (e: Cells)
      requires dict.Linked() && View() == st
      modifies dict, this`expandCache
      ensures dict.Linked() && dict.lists == old(dict.lists) && v in dict.entries && dict.entries[v] == e
      ensures e.Entry() == st.EntryOf(v) && View() == st.Put(v, st.EntryOf(v))
      ensures expandCache == old(expandCache) || expandCache == map[]
    {
      if v in dict.entries {
        e := dict.entries[v];
        SameEntry(st, v, e.Entry());
        return;
      }
      e := AddShadow(v, st);
    }

    method AddShadow(v: Name, ghost st: Store) returns (e: Cells)
      requires dict.Linked() && View() == st
      modifies dict, this`expandCache
      ensures dict.Linked() && dict.lists == old(dict.lists) && v in dict.entries && dict.entries[v] == e
      ensures e.Entry() == st.EntryOf(v) && View() == st.Put(v, st.EntryOf(v))
      ensures expandCache == old(expandCache) || expandCache == map[]
    {
      e := ShadowOf(v, st);
      SetOwn(v, e);
    }

    static lemma SameEntry(st: Store, v: Name, e: Entry)
      requires v in st.vars && st.vars[v] == e
      ensures st == st.Put(v, e)
    {
      assert st.vars[v := e] == st.vars;
    }

    // ---- Override lists: always recreated before they are changed --------------------------

    method AddListed(owner: Name, v: Variant)
      modifies this`overrideData
      ensures Listing() == AddVariant(old(Listing()), owner, v)
    {
      EnsureListed(owner);
      ghost var was := Listing();
      assert was[owner := was[owner]] == was;
      if v !in overrideData[owner].items {
        Relist(owner, overrideData[owner].items + [v]);
      }
    }

    /** The list is recreated, so that stores that share it do not see the change. */
    method Relist(owner: Name, items: seq<Variant>)
      requires owner in overrideData
      modifies this`overrideData
      ensures owner in overrideData && fresh(overrideData[owner]) && Listing() == old(Listing())[owner := items]
    {
      var list := new OverrideList(items);
      overrideData := overrideData[owner := list];
    }

    method EnsureListed(owner: Name)
      modifies this`overrideData
      ensures owner in overrideData && Listing()
              == if owner in old(Listing()) then old(Listing()) else old(Listing())[owner := []]
    {
      if owner !in overrideData {
        var empty := new OverrideList([]);
        overrideData := overrideData[owner := empty];
      }
    }

    method UpdateOverrides(name: Name)
      requires dict.Linked()
      modifies this`overrideData
      ensures View() == old(View()).(variants := Register(old(View()).variants, name))
    {
      if |name| > 1 {
        ListUnderOwners(name);
      } else if OverrideStart(name[0]) {
        AddListed([name[0][..|name[0]| - 1]], Variant(name, name));
      }
    }

    method ListUnderOwners(name: Name)
      requires dict.Linked() && |name| > 1
      modifies this`overrideData
      ensures View() == old(View()).(variants := Register(old(View()).variants, name))
    {
      var k := |name| - 1;
      var more := true;
      while more && k > 0 && OverrideStart(name[k])
        invariant 0 <= k < |name|
        invariant more ==> RegisterFrom(Listing(), name, k) == Register(old(Listing()), name)
        invariant !more ==> Listing() == Register(old(Listing()), name)
        decreases more, k
      {
        AddListed(name[..k], Variant(name, name[k..]));
        if name[..k - 1] == [""] {
          more := false;
        } else {
          k := k - 1;
        }
      }
    }

    method DropListed(owner: Name)
      requires dict.Linked()
      modifies this`overrideData
      ensures View() == old(View()).(variants := old(View()).variants - {owner})
    {
      overrideData := overrideData - {owner};
      assert Listing() == old(Listing()) - {owner};
    }

    method RemoveListed(owner: Name, v: Variant)
      modifies this`overrideData
      ensures var was := old(Listing());
              Listing() == if owner in was then was[owner := RemoveFirst(was[owner], v)] else was
    {
      if owner in overrideData {
        Relist(owner, RemoveFirst(overrideData[owner].items, v));
      }
    }

    method DowndateOverrides(name: Name)
      requires dict.Linked() && |name| > 1
      modifies this`overrideData
      ensures View() == old(View()).(variants := UnregisterFrom(old(View()).variants, name, |name| - 1))
    {
      var k := |name| - 1;
      var more := true;
      while more && k > 0 && OverrideStart(name[k])
        invariant 0 <= k < |name|
        invariant more ==> UnregisterFrom(Listing(), name, k) == UnregisterFrom(old(Listing()), name, |name| - 1)
        invariant !more ==> Listing() == UnregisterFrom(old(Listing()), name, |name| - 1)
        decreases more, k
      {
        RemoveListed(name[..k], Variant(name, name[k..]));
        if name[..k - 1] == [""] {
          more := false;
        } else {
          k := k - 1;
        }
      }
    }

    // ---- Writes ----------------------------------------------------------------------------

    method DelVar(name: Name)
      requires dict.Linked()
      modifies this, dict
      ensures dict.Linked() && expandCache == map[] && View() == Datastore.DelVar(old(View()), name)
    {
      ghost var st := View();
      expandCache := map[];
      SetOwn(name, NO_CELLS);
      ghost var st1 := View();
      assert st1 == st.Put(name, EMPTY);
      DropListed(name);
      assert View() == st1.(variants := st1.variants - {name});
      if |name| > 1 {
        DowndateOverrides(name);
      }
    }

    method SetVarFlag(name: Name, flag: Flag, value: Text)
      requires dict.Linked() && !flag.Op?
      modifies this, dict
      ensures dict.Linked() && expandCache == map[] && View() == Datastore.SetVarFlag(old(View()), name, flag, value)
    {
      ghost var st := View();
      expandCache := map[];
      var e := MakeShadowCopy(name, st);
      e.EntryWith(flag, value);
      SetOwnAgain(name, e.With(flag, value), st, st.EntryOf(name).With(flag, value));
      if flag.DefaultVal? && |name| > 1 {
        UpdateOverrides(name);
      }
    }

    method DelVarFlag(name: Name, flag: Flag)
      requires dict.Linked()
      modifies this, dict
      ensures dict.Linked() && expandCache == map[] && View() == Datastore.DelVarFlag(old(View()), name, flag)
    {
      ghost var st := View();
      expandCache := map[];
      var found := Nonempty(name, st);
      if found {
        ClearFlag(name, flag, st);
      }
    }

    /** `if local_var:` */
    method Nonempty(name: Name, ghost st: Store) returns (found: bool)
      requires dict.Linked() && View() == st
      ensures View() == st && (found <==> !st.EntryOf(name).IsEmpty())
    {
      var local := FindVar(name);
      if local.Some? {
        local.value.EntryEmpty();
      }
      found := local.Some? && !local.value.IsEmpty();
    }

    method ClearFlag(name: Name, flag: Flag, ghost st: Store)
      requires dict.Linked() && expandCache == map[] && View() == st
      modifies this`expandCache, dict
      ensures dict.Linked() && expandCache == map[] && View() == st.Put(name, st.EntryOf(name).Clear(flag))
    {
      var e := MakeShadowCopy(name, st);
      e.EntryClear(flag);
      SetOwnAgain(name, e.Clear(flag), st, st.EntryOf(name).Clear(flag));
    }

    /** `getVarFlag(base, keyword, False) or []`: the flag's list is copied before it is handed out. */
    method PendingCopy(base: Name, kw: Keyword) returns (list: ItemList)
      requires dict.Linked()
      ensures fresh(list) && list.items == View().EntryOf(base).ItemsOf(kw)
    {
      var local := FindVar(base);
      if local.Some? && kw in local.value.lists {
        list := new ItemList(local.value.lists[kw].items);
      } else {
        list := new ItemList([]);
      }
    }

    /** The keyword half of `setVar`: the list that is extended and stored is no one else's. */
    method AddOperation(base: Name, kw: Keyword, item: Item)
      requires dict.Linked()
      modifies this, dict
      ensures dict.Linked() && expandCache == map[] && View() == AddItem(old(View()), base, kw, item)
      ensures base in dict.entries && kw in dict.entries[base].lists && fresh(dict.entries[base].lists[kw])
    {
      ghost var st := View();
      var list := PendingCopy(base, kw);
      assert View() == st;
      list.items := list.items + [item];
      StoreList(base, kw, list, st);
      UpdateOverrides(base);
    }

    /** `setVarFlag` with a list. */
    method StoreList(base: Name, kw: Keyword, list: ItemList, ghost st: Store)
      requires dict.Linked() && View() == st
      modifies this`expandCache, dict
      ensures dict.Linked() && expandCache == map[]
      ensures View() == st.Put(base, st.EntryOf(base).(items := st.EntryOf(base).items[kw := list.items]))
      ensures base in dict.entries && kw in dict.entries[base].lists && dict.entries[base].lists[kw] == list
    {
      expandCache := map[];
      var e := MakeShadowCopy(base, st);
      e.EntryStore(kw, list);
      SetOwnAgain(base, e.(lists := e.lists[kw := list]), st,
          st.EntryOf(base).(items := st.EntryOf(base).items[kw := list.items]));
    }

    /** Writing over the shadow copy just made is writing to the store as it was before. */
    method SetOwnAgain(v: Name, c: Cells, ghost st: Store, ghost e: Entry)
      requires dict.Linked() && View() == st.Put(v, st.EntryOf(v)) && c.Entry() == e
      modifies dict
      ensures dict.Linked() && dict.entries == old(dict.entries)[v := c] && View() == st.Put(v, e)
    {
      st.PutPut(v, st.EntryOf(v), e);
      SetOwn(v, c);
    }

    method ActiveListed(name: Name) returns (active: seq<Name>)
      requires name in overrideData
      ensures active == ActiveNames(overrideData[name].items, overrides)
    {
      var listed := overrideData[name].items;
      active := [];
      for i := 0 to |listed|
        invariant active == ActiveNames(listed[..i], overrides)
      {
        assert listed[..i + 1][..i] == listed[..i];
        if Active(listed[i].suffix, overrides) {
          active := active + [listed[i].name];
        }
      }
      assert listed[..|listed|] == listed;
    }

    method DelVars(names: seq<Name>)
      requires dict.Linked() && expandCache == map[]
      modifies this, dict
      ensures dict.Linked() && expandCache == map[] && View() == Datastore.DelVars(old(View()), names)
    {
      for i := 0 to |names|
        invariant dict.Linked() && expandCache == map[] && View() == Datastore.DelVars(old(View()), names[..i])
      {
        assert names[..i + 1][..i] == names[..i];
        DelVar(names[i]);
      }
      assert names[..|names|] == names;
    }

    method DropVariants(name: Name)
      requires dict.Linked() && expandCache == map[]
      modifies this, dict
      ensures dict.Linked() && expandCache == map[] && View() == Datastore.DropVariants(old(View()), name)
    {
      if name in overrideData {
        var active := ActiveListed(name);
        DelVars(active);
        DropListed(name);
      }
    }

    /** What a plain assignment discards: pending operations and the active variants. */
    method ForgetOverrides(name: Name)
      requires dict.Linked()
      modifies this, dict
      ensures dict.Linked() && expandCache == map[] && View() == Forget(old(View()), name)
    {
      ghost var st := View();
      expandCache := map[];
      var e := MakeShadowCopy(name, st);
      SetOwnAgain(name, e.(lists := map[]), st, st.EntryOf(name).(items := map[]));
      DropVariants(name);
    }

    /** The other half: `parsing` keeps what was pending. */
    method Assign(name: Name, value: Text, parsing: bool)
      requires dict.Linked()
      modifies this, dict
      ensures dict.Linked() && expandCache == map[] && View() == Datastore.Assign(old(View()), name, value, parsing)
    {
      PrepareAssign(name, parsing);
      UpdateListing(name);
      SetContent(name, value);
    }

    method PrepareAssign(name: Name, parsing: bool)
      requires dict.Linked()
      modifies this, dict
      ensures dict.Linked() && expandCache == map[] && View()
              == if parsing then old(View()) else Forget(old(View()), name)
    {
      expandCache := map[];
      if !parsing {
        ForgetOverrides(name);
      }
    }

    method UpdateListing(name: Name)
      requires dict.Linked()
      modifies this`overrideData
      ensures View() == var st := old(View()); st.(variants := if |name| > 1 then Register(st.variants, name)
              else st.variants)
    {
      if |name| > 1 {
        UpdateOverrides(name);
      }
    }

    method SetContent(name: Name, value: Text)
      requires dict.Linked() && expandCache == map[]
      modifies dict, this`expandCache
      ensures dict.Linked() && expandCache == map[]
      ensures View() == old(View()).Put(name, old(View()).EntryOf(name).(content := Some(value)))
    {
      ghost var st := View();
      var e := MakeShadowCopy(name, st);
      e.EntryWith(Content, value);
      SetOwnAgain(name, e.With(Content, value), st, st.EntryOf(name).With(Content, value));
    }

    /** `setVar`; false means `bb.fatal`: the name uses the old underscore syntax. */
    method SetVar(name: Name, value: Text, parsing: bool) returns (ok: bool)
      requires Valid()
      modifies this, dict
      ensures Valid() && ok == !OldSyntax(name) && expandCache == if ok then map[] else old(expandCache)
      ensures View() == if ok then Datastore.SetVar(old(View()), name, value, parsing) else old(View())
    {
      if OldSyntax(name) {
        return false;
      }
      ok := true;
      match ParseTarget(name)
      case Operation(base, kw, cond) => AddOperation(base, kw, Item(value, cond));
      case Plain => Assign(name, value, parsing);
    }

    // ---- Reads -----------------------------------------------------------------------------

    /** The store shows `st`, and the cache is one that reads of `st` may have left. */
    ghost predicate Shows(st: Store)
      reads this, dict, dict.chain, dict.lists, overrideData.Values
    {
      dict.Linked() && View() == st && Memo.Sound(st, expandCache)
    }

    method Local(v: Name, ghost st: Store) returns (e: Entry)
      requires dict.Linked() && View() == st
      ensures e == st.EntryOf(v)
    {
      var local := FindVar(v);
      e := if local.Some? then local.value.Entry() else EMPTY;
    }

    /** `getVarFlag` with `expand` or `retparser`: the parse, memoised. */
    method Read(n: nat, ord: Memo.Order, expand: bool, k: Key, ghost st: Store) returns (r: Result<Parse>)
      requires Shows(st)
      modifies this`expandCache
      ensures Shows(st) && Memo.After(r, expandCache) == Memo.Read(n, st, ord, old(expandCache), expand, k)
      decreases n, 0
    {
      Memo.ReadKeeps(n, st, ord, expandCache, expand, k);
      if k in expandCache {
        return Success(expandCache[k]);
      }
      if n == 0 {
        return Failure;
      }
      match k
      case VarFlag(v, f) => r := ReadFlag(n - 1, ord, v, f, st);
      case Var(v) => r := ReadVar(n - 1, ord, expand, v, st);
    }

    method ReadFlag(n: nat, ord: Memo.Order, v: Name, f: string, ghost st: Store) returns (r: Result<Parse>)
      requires Shows(st) && VarFlag(v, f) !in expandCache
      modifies this`expandCache
      ensures Shows(st) && Memo.After(r, expandCache) == Memo.ReadFlag(n, st, ord, old(expandCache), v, f)
      decreases n, 7
    {
      Memo.FlagKeeps(n, st, ord, expandCache, v, f);
      var e := Local(v, st);
      var raw := if f in e.flags then Some(e.flags[f]) else None;
      var ex, refs := ExpandWithRefs(n, ord, Some(VarFlag(v, f)), raw, st);
      if ex.Failure? {
        return Failure;
      }
      var p := Parse(raw, ex.value, refs, None);
      expandCache := expandCache[VarFlag(v, f) := p];
      r := Success(p);
    }

    method ReadVar(n: nat, ord: Memo.Order, expand: bool, v: Name, ghost st: Store) returns (r: Result<Parse>)
      requires Shows(st) && Var(v) !in expandCache
      modifies this`expandCache
      ensures Shows(st) && Memo.After(r, expandCache) == Memo.ReadVar(n, st, ord, old(expandCache), expand, v)
      decreases n, 8
    {
      Memo.VarKeeps(n, st, ord, expandCache, expand, v);
      Memo.VariantKeeps(n, st, ord, expandCache, v);
      var variant, chosen := ReadVariant(n, ord, v, st);
      if variant.Failure? {
        return Failure;
      }
      r := ReadText(n, ord, expand, v, variant.value, chosen, st);
    }

    /** From the variant's parse on. */
    method ReadText(n: nat, ord: Memo.Order, expand: bool, v: Name, variant: Parse, chosen: Option<Name>,
                    ghost st: Store)
      returns (r: Result<Parse>)
      requires Shows(st) && chosen == Chosen(st, v) && Memo.Holds(st, expandCache, v, variant.removes.Some?)
      requires match chosen case None => variant.unexpanded
               == None case Some(m) => Memo.RawIs(st, m, variant.unexpanded)
      modifies this`expandCache
      ensures Shows(st) && Memo.After(r, expandCache) == Memo.ReadText(n, st, ord, old(expandCache), expand, v, variant)
      decreases n, 7
    {
      Memo.TextSound(n, st, ord, expandCache, expand, v, variant);
      var e := Local(v, st);
      var raw := AssembleRaw(e, variant.unexpanded);
      assert raw == Raw(st, v, variant.unexpanded);
      Memo.RawStep(st, v, variant.unexpanded);
      Memo.ExpandedKeeps(n, st, ord, expandCache, Some(Var(v)), raw);
      var ex, refs := ExpandWithRefs(n, ord, Some(Var(v)), raw, st);
      if ex.Failure? {
        return Failure;
      }
      r := ReadRest(n, ord, expand, v, e, raw, ex.value, refs, chosen, variant.removes.Some?, st);
    }

    /** From the expanded text on: removals are gathered and expanded, their words removed, the parse memoised. */
    method ReadRest(n: nat, ord: Memo.Order, expand: bool, v: Name, e: Entry, raw: Option<Text>, ex: Option<Text>,
                    refs: set<Name>, chosen: Option<Name>, shared: bool, ghost st: Store)
      returns (r: Result<Parse>)
      requires Shows(st) && e == st.EntryOf(v) && chosen == Chosen(st, v) && Memo.Holds(st, expandCache, v, shared)
      requires Memo.TextOk(st, v, raw, ex)
      requires refs == RefsOf(raw) + RefsOf(ex)
      modifies this`expandCache
      ensures Shows(st)
      ensures Memo.After(r, expandCache) == Memo.ReadRest(n, st, ord, old(expandCache), expand, v, raw, ex, shared)
      decreases n, 6
    {
      ghost var c := expandCache;
      Memo.RestSound(n, st, ord, c, expand, v, raw, ex, shared);
      var words := RemovalWords(n, ord, Truthy(if expand then ex else raw), v, e, chosen, shared, st);
      Memo.RestIs(n, st, ord, c, expand, v, raw, ex, shared, Memo.After(words, expandCache));
      r := Conclude(v, raw, ex, refs, words);
    }

    method Conclude(v: Name, raw: Option<Text>, ex: Option<Text>, refs: set<Name>, words: Result<map<Text, set<Text>>>)
      returns (r: Result<Parse>)
      requires refs == RefsOf(raw) + RefsOf(ex)
      modifies this`expandCache
      ensures Memo.After(r, expandCache)
           == if words.Failure? then Memo.After(Failure, old(expandCache))
              else Memo.Memoised(Var(v), Memo.Parsed(raw, ex, words.value), old(expandCache))
    {
      if words.Failure? {
        return Failure;
      }
      var p := FinishParse(raw, ex, refs, words.value);
      expandCache := expandCache[Var(v) := p];
      r := Success(p);
    }

    /** The chosen variant's parse. */
    method ReadVariant(n: nat, ord: Memo.Order, v: Name, ghost st: Store)
      returns (r: Result<Parse>, chosen: Option<Name>)
      requires Shows(st)
      modifies this`expandCache
      ensures Shows(st) && Memo.After(r, expandCache) == Memo.ReadVariant(n, st, ord, old(expandCache), v)
      ensures chosen == Chosen(st, v)
      decreases n, 4
    {
      if v !in overrideData {
        return Success(NO_PARSE), None;
      }
      chosen := SelectVariant(overrideData[v].items, overrides);
      if chosen.None? {
        return Success(NO_PARSE), None;
      }
      r := Read(n, ord, false, Var(chosen.value), st);
    }

    /** Base, then appends in order, then prepends in order. */
    method AssembleRaw(e: Entry, variant: Option<Text>) returns (value: Option<Text>)
      ensures value == Assemble(
                if variant.Some? then variant else if e.content.Some? then e.content else e.defaultVal,
                ActiveValues(e.ItemsOf(Prepend), overrides), ActiveValues(e.ItemsOf(Append), overrides))
    {
      var base := if variant.Some? then variant else if e.content.Some? then e.content else e.defaultVal;
      value := base;
      var appends := e.ItemsOf(Append);
      assert Assemble(base, [], []) == base by { assert base.Some? ==> [] + base.value + [] == base.value; }
      for i := 0 to |appends|
        invariant value == Assemble(base, [], ActiveValues(appends[..i], overrides))
      {
        assert appends[..i + 1][..i] == appends[..i];
        AppendStep(base, [], ActiveValues(appends[..i], overrides), appends[i].value);
        if Active(appends[i].cond, overrides) {
          value := Some(value.GetOr([]) + appends[i].value);
        }
      }
      assert appends[..|appends|] == appends;
      var prepends := e.ItemsOf(Prepend);
      for i := 0 to |prepends|
        invariant value == Assemble(base, ActiveValues(prepends[..i], overrides), ActiveValues(appends, overrides))
      {
        assert prepends[..i + 1][..i] == prepends[..i];
        PrependStep(base, ActiveValues(prepends[..i], overrides), ActiveValues(appends, overrides), prepends[i].value);
        if Active(prepends[i].cond, overrides) {
          value := Some(prepends[i].value + value.GetOr([]));
        }
      }
      assert prepends[..|prepends|] == prepends;
    }

    /** What is to be removed, if there is a value to remove from: each removal item's words. */
    method RemovalWords(n: nat, ord: Memo.Order, nonEmpty: bool, v: Name, e: Entry, chosen: Option<Name>, shared: bool,
                        ghost st: Store)
      returns (r: Result<map<Text, set<Text>>>)
      requires Shows(st) && e == st.EntryOf(v) && chosen == Chosen(st, v) && Memo.Holds(st, expandCache, v, shared)
      modifies this`expandCache
      ensures Shows(st)
      ensures Memo.After(r, expandCache) == Memo.RemovalWords(n, st, ord, old(expandCache), nonEmpty, v, shared)
      decreases n, 5
    {
      if !nonEmpty {
        return Success(map[]);
      }
      var removes := GatherRemoves(v, e, chosen, shared, st);
      r := ExpandRemoves(n, ord, if shared then chosen else None, removes, ord(v, expandCache, removes), st);
    }

    method FinishParse(raw: Option<Text>, ex: Option<Text>, refs: set<Name>, words: map<Text, set<Text>>)
      returns (p: Parse)
      requires refs == RefsOf(raw) + RefsOf(ex)
      ensures p == Memo.Parsed(raw, ex, words)
    {
      if words == map[] {
        return Parse(raw, ex, refs, None);
      }
      var out, used := ApplyRemoves(ex.GetOr([]), words);
      p := Parse(raw, Some(out), refs, Some(used));
    }

    /** Carried and own removals.  With a shared set object the own ones end up in the cached parse too. */
    method GatherRemoves(v: Name, e: Entry, chosen: Option<Name>, shared: bool, ghost st: Store)
      returns (removes: set<Text>)
      requires Shows(st) && e == st.EntryOf(v) && chosen == Chosen(st, v) && Memo.Holds(st, expandCache, v, shared)
      modifies this`expandCache
      ensures Shows(st) && Memo.Holds(st, expandCache, v, shared)
      ensures removes == Memo.Gathered(st, old(expandCache), v, shared)
      ensures expandCache == Memo.Gather(st, old(expandCache), v, shared)
    {
      Memo.GatherKeeps(st, expandCache, v, shared);
      var carried := if shared then expandCache[Var(chosen.value)].Carried() else {};
      removes := AddRemoves(carried, e.ItemsOf(Remove));
      if shared {
        expandCache := expandCache[Var(chosen.value) := expandCache[Var(chosen.value)].(removes := Some(removes))];
      }
    }

    method AddRemoves(carried: set<Text>, items: seq<Item>) returns (removes: set<Text>)
      ensures removes == carried + set r | r in ActiveValues(items, overrides)
    {
      removes := carried;
      for i := 0 to |items|
        invariant removes == carried + set r | r in ActiveValues(items[..i], overrides)
      {
        assert items[..i + 1][..i] == items[..i];
        if Active(items[i].cond, overrides) {
          removes := removes + {items[i].value};
        }
      }
      assert items[..|items|] == items;
    }

    /**
     `expanded_removes`: each removal item's expansion, split into words. If the set is `held` by a variant's parse and
     the expansion has changed it, the iteration raises.
     */
    method ExpandRemoves(n: nat, ord: Memo.Order, held: Option<Name>, removes: set<Text>, todo: seq<Text>,
                         ghost st: Store)
      returns (r: Result<map<Text, set<Text>>>)
      requires Shows(st)
      modifies this`expandCache
      ensures Shows(st)
      ensures Memo.After(r, expandCache) == Memo.ExpandRemoves(n, st, ord, old(expandCache), held, removes, todo)
      decreases n, 4
    {
      var words: map<Text, set<Text>> := map[];
      ghost var c := expandCache;
      for i := 0 to |todo|
        invariant Shows(st)
        invariant Memo.After(Success(words), expandCache) == Memo.ExpandRemoves(n, st, ord, c, held, removes, todo[..i])
      {
        RemovesFrom(n, st, ord, c, held, removes, todo, i);
        var e, _ := ExpandWithRefs(n, ord, None, Some(todo[i]), st);
        if e.Failure? || Memo.Grown(expandCache, held, removes) {
          return Failure;
        }
        words := words[todo[i] := Words(e.value.GetOr([]))];
      }
      assert todo[..|todo|] == todo;
      r := Success(words);
    }

    /** One more item of the loop; an exception in it is one of the whole loop. */
    static lemma RemovesFrom(n: nat, st: Store, ord: Memo.Order, c: Memo.Cache, held: Option<Name>, removes: set<Text>,
                             todo: seq<Text>, i: nat)
      requires i < |todo| && Memo.ExpandRemoves(n, st, ord, c, held, removes, todo[..i]).result.Success?
      ensures var front := Memo.ExpandRemoves(n, st, ord, c, held, removes, todo[..i]);
              var x := Memo.Expanded(n, st, ord, front.cache, None, Some(todo[i]));
              var now := Memo.ExpandRemoves(n, st, ord, c, held, removes, todo[..i + 1]);
              if x.result.Failure? || Memo.Grown(x.cache, held, removes) then
                now == Memo.After(Failure, x.cache) && Memo.ExpandRemoves(n, st, ord, c, held, removes, todo) == now
              else now == Memo.After(Success(front.result.value[todo[i] := Words(x.result.value.GetOr([]))]), x.cache)
    {
      assert todo[..i + 1][..i] == todo[..i];
      if Memo.ExpandRemoves(n, st, ord, c, held, removes, todo[..i + 1]).result.Failure? {
        RemovesFail(n, st, ord, c, held, removes, todo, i + 1);
      }
    }

    static lemma {:induction false} RemovesFail(n: nat, st: Store, ord: Memo.Order, c: Memo.Cache, held: Option<Name>,
                                                removes: set<Text>, todo: seq<Text>, i: nat)
      requires i <= |todo| && Memo.ExpandRemoves(n, st, ord, c, held, removes, todo[..i]).result.Failure?
      ensures Memo.ExpandRemoves(n, st, ord, c, held, removes, todo)
           == Memo.ExpandRemoves(n, st, ord, c, held, removes, todo[..i])
      decreases |todo|
    {
      if i < |todo| {
        var front := todo[..|todo| - 1];
        assert front[..i] == todo[..i];
        RemovesFail(n, st, ord, c, held, removes, front, i);
      } else {
        assert todo[..i] == todo;
      }
    }

    /** The loop over the white-space separated tokens. */
    method ApplyRemoves(value: Text, words: map<Text, set<Text>>) returns (out: Text, used: set<Text>)
      ensures out == RemoveWords(value, AllWords(words)) && used == Used(value, words)
    {
      var ts := Tokens(value);
      out, used := [], {};
      for i := 0 to |ts|
        invariant out + Join(Keep(ts[i..], AllWords(words))) == RemoveWords(value, AllWords(words))
        invariant used == set r | r in words && exists t | t in ts[..i] :: t in words[r]
      {
        var t := ts[i];
        assert ts[i..][0] == t && ts[i..][1..] == ts[i + 1..];
        assert ts[..i + 1] == ts[..i] + [t];
        var hit := set r | r in words && t in words[r];
        assert t in AllWords(words) <==> hit != {} by {
          if r :| r in words && t in words[r] { assert r in hit; }
        }
        used := used + hit;
        if hit == {} {
          ghost var rest := Keep(ts[i + 1..], AllWords(words));
          assert ([t] + rest)[1..] == rest;
          assert out + (t + Join(rest)) == (out + t) + Join(rest);
          out := out + t;
        }
      }
      assert ts[|ts|..] == [] && ts[..|ts|] == ts;
    }

    // ---- The reading interface -------------------------------------------------------------

    /** `getVar(v)` */
    method GetVar(n: nat, ord: Memo.Order, v: Name, ghost st: Store) returns (r: Result<Option<Text>>)
      requires Shows(st)
      modifies this`expandCache
      ensures Shows(st) && Memo.After(r, expandCache) == Memo.ReadValue(n, st, ord, old(expandCache), Var(v))
    {
      var p := Read(n, ord, true, Var(v), st);
      r := if p.Failure? then Failure else Success(p.value.value);
    }

    /** `getVarFlag(v, f)` for a flag other than the content. */
    method GetVarFlag(n: nat, ord: Memo.Order, v: Name, f: string, ghost st: Store) returns (r: Result<Option<Text>>)
      requires Shows(st)
      modifies this`expandCache
      ensures Shows(st) && Memo.After(r, expandCache) == Memo.ReadValue(n, st, ord, old(expandCache), VarFlag(v, f))
    {
      var p := Read(n, ord, true, VarFlag(v, f), st);
      r := if p.Failure? then Failure else Success(p.value.value);
    }

    /** `getVarFlag(v, f, False)`: the flag as it was written. */
    method GetVarFlagUnexpanded(v: Name, f: string, ghost st: Store) returns (r: Option<Text>)
      requires dict.Linked() && View() == st
      ensures r == RawFlag(st, v, f)
    {
      var e := Local(v, st);
      r := if f in e.flags then Some(e.flags[f]) else None;
    }

    /** `getVar(v, False)`: never served from the cache, but it may grow a variant's carried removals. */
    method GetVarUnexpanded(n: nat, ord: Memo.Order, v: Name, ghost st: Store) returns (r: Result<Option<Text>>)
      requires Shows(st)
      modifies this`expandCache
      ensures Shows(st) && Memo.After(r, expandCache) == Memo.ReadUnexpanded(n, st, ord, old(expandCache), v)
    {
      if n == 0 {
        return Failure;
      }
      Memo.VariantKeeps(n - 1, st, ord, expandCache, v);
      var variant, chosen := ReadVariant(n - 1, ord, v, st);
      if variant.Failure? {
        return Failure;
      }
      r := Fill(v, variant.value, chosen, st);
    }

    method Fill(v: Name, variant: Parse, chosen: Option<Name>, ghost st: Store) returns (r: Result<Option<Text>>)
      requires Shows(st) && chosen == Chosen(st, v) && Memo.Holds(st, expandCache, v, variant.removes.Some?)
      modifies this`expandCache
      ensures Shows(st) && Memo.After(r, expandCache) == Memo.Fill(st, old(expandCache), v, variant)
    {
      var e := Local(v, st);
      var raw := AssembleRaw(e, variant.unexpanded);
      assert raw == Raw(st, v, variant.unexpanded);
      if Truthy(raw) {
        var _ := GatherRemoves(v, e, chosen, variant.removes.Some?, st);
      }
      r := Success(raw);
    }

    /** `__iter__`: walk the layers, skipping names an upper layer emptied; overridden names always count. */
    method Iterate() returns (keys: set<Name>)
      requires dict.Linked()
      ensures keys == Keys(View())
    {
      var overridden := set v | v in overrideData && exists x | x in overrideData[v].items ::
          Active(x.suffix, overrides);
      ghost var st := View();
      assert overridden == Overridden(st);
      var deleted;
      deleted, keys := WalkLayers(overridden, st);
      keys := keys + overridden;
      assert keys == Keys(st);
    }

    method WalkLayers(overridden: set<Name>, ghost st: Store) returns (deleted: set<Name>, keys: set<Name>)
      requires dict.Linked() && View() == st
      ensures View() == st && Walked(st.vars, map[], deleted, keys, overridden)
    {
      keys, deleted := {}, {};
      var d: Layer? := dict;
      while d != null
        invariant View() == st && (d != null ==> d.Linked() && d.chain <= dict.chain)
        invariant Walked(st.vars, if d == null then map[] else d.Flatten(), deleted, keys, overridden)
        decreases if d == null then 0 else d.depth + 1
      {
        deleted, keys := d.Visit(deleted, keys, overridden, st.vars);
        d := d.parent;
      }
    }

    // ---- Expansion -------------------------------------------------------------------------

    /** `while s.find('${') != -1`: substitute until nothing changes; two passes always suffice. */
    method ExpandWithRefs(n: nat, ord: Memo.Order, self: Option<Key>, raw: Option<Text>, ghost st: Store)
      returns (r: Result<Option<Text>>, refs: set<Name>)
      requires Shows(st)
      modifies this`expandCache
      ensures Shows(st) && Memo.After(r, expandCache) == Memo.Expanded(n, st, ord, old(expandCache), self, raw)
      ensures r.Success? ==> refs == RefsOf(raw) + RefsOf(r.value)
      decreases n, 3
    {
      refs := {};
      if raw.None? {
        return Success(None), refs;
      }
      var s := raw.value;
      ghost var c, first := expandCache, true;
      while exists a :: a in s && a.Ref?
        invariant Shows(st)
        invariant if first then s == raw.value && refs == {} && expandCache == c
                  else Memo.After(Success(s), expandCache) == Memo.Substituted(n, st, ord, c, self, raw.value)
                       && refs == Refs(raw.value) && refs != {} && s != raw.value
        decreases first
      {
        var olds := s;
        refs := refs + Refs(s);
        assert exists a :: a in s && a.Ref? && a.name in Refs(s);
        if !first {
          Memo.SecondPassKeeps(n, st, ord, c, self, raw.value);
        }
        var sub := Substitute(n, ord, self, s, st);
        if sub.Failure? {
          return Failure, refs;
        }
        s := sub.value;
        if s == olds {
          return Success(Some(s)), refs;
        }
        first := false;
      }
      assert Refs(s) == {};
      r := Success(Some(s));
    }

    /** One pass of `__expand_var_regexp__.sub(varparse.var_sub, s)`. */
    method Substitute(n: nat, ord: Memo.Order, self: Option<Key>, s: Text, ghost st: Store) returns (r: Result<Text>)
      requires Shows(st)
      modifies this`expandCache
      ensures Shows(st) && Memo.After(r, expandCache) == Memo.Substituted(n, st, ord, old(expandCache), self, s)
      decreases n, 2
    {
      var out: Text := [];
      ghost var c := expandCache;
      for i := 0 to |s|
        invariant Shows(st)
        invariant Memo.After(Success(out), expandCache) == Memo.Substituted(n, st, ord, c, self, s[..i])
      {
        assert s[..i + 1][..i] == s[..i];
        var head := VarSub(n, ord, self, s[i], st);
        if head.Failure? {
          SubstitutedFails(n, st, ord, c, self, s, i + 1);
          return Failure;
        }
        out := out + head.value;
      }
      assert s[..|s|] == s;
      r := Success(out);
    }

    /** An exception in a part is one of the whole. */
    static lemma {:induction false} SubstitutedFails(n: nat, st: Store, ord: Memo.Order, c: Memo.Cache,
                                                     self: Option<Key>,
                                                     s: Text, i: nat)
      requires i <= |s| && Memo.Substituted(n, st, ord, c, self, s[..i]).result.Failure?
      ensures Memo.Substituted(n, st, ord, c, self, s) == Memo.Substituted(n, st, ord, c, self, s[..i])
      decreases |s|
    {
      if i < |s| {
        var front := s[..|s| - 1];
        assert front[..i] == s[..i];
        SubstitutedFails(n, st, ord, c, self, front, i);
      } else {
        assert s[..i] == s;
      }
    }

    method VarSub(n: nat, ord: Memo.Order, self: Option<Key>, a: Atom, ghost st: Store) returns (r: Result<Text>)
      requires Shows(st)
      modifies this`expandCache
      ensures Shows(st) && Memo.After(r, expandCache) == Memo.VarSub(n, st, ord, old(expandCache), self, a)
      decreases n, 1
    {
      match a
      case Ch(_) => r := Success([a]);
      case Ref(name) =>
        if self == Some(Var(name)) {
          return Failure;
        }
        var p := Read(n, ord, true, Var(name), st);
        if p.Failure? {
          return Failure;
        }
        r := Success(p.value.value.GetOr([a]));
    }
  }
}
