/** Cache validation: which recipes can be loaded from the cache instead of being parsed again. */
module RecipeCache {
  import opened Prelude
  import opened FileNames

  /** The core record of a cached recipe; `fileDepends` pairs files with the times they had. */
  datatype Core = Core(timestamp: nat, fileDepends: seq<(string, nat)>, fileChecksums: Option<seq<(string, bool)>>,
                       appends: seq<string>, variants: seq<string>)

  /** A list of info records, one per cache class; the core record comes first. */
  datatype InfoArray = InfoArray(core: Core, length: nat)

  /** The file system during validation: modification times, 0 for a missing file, and existence. */
  datatype World = World(mtime: string -> nat, present: string -> bool)

  type DependsCache = map<string, InfoArray>

  // ---- The verdict as a function -----------------------------------------------------------

  predicate TimesOk(w: World, fn: string, core: Core) {
    && w.mtime(fn) != 0 && w.mtime(fn) == core.timestamp
    && forall i | 0 <= i < |core.fileDepends| :: w.mtime(core.fileDepends[i].0) == core.fileDepends[i].1
  }

  predicate ChecksumsOk(w: World, core: Core) {
    var fl := core.fileChecksums.GetOr([]);
    forall i | 0 <= i < |fl| :: w.present(fl[i].0) == fl[i].1
  }

  /** The entry for `fn` still describes the files it was made from. */
  predicate UpToDate(w: World, dc: DependsCache, fn: string, appends: seq<string>) {
    && fn in dc && TimesOk(w, fn, dc[fn].core) && ChecksumsOk(w, dc[fn].core) && appends == dc[fn].core.appends
  }

  function Keys(fn: string, variants: seq<string>): set<string> {
    set i | 0 <= i < |variants| :: Variant2Virtual(fn, variants[i])
  }

  /** All variants are there, with a record for every cache class. */
  predicate Complete(dc: DependsCache, width: nat, fn: string, variants: seq<string>) {
    forall i | 0 <= i < |variants| :: KeyComplete(dc, width, fn, variants[i])
  }

  predicate KeyComplete(dc: DependsCache, width: nat, fn: string, variant: string) {
    var key := Variant2Virtual(fn, variant);
    key in dc && dc[key].length == width
  }

  lemma CompleteSnoc(dc: DependsCache, width: nat, fn: string, front: seq<string>, last: string)
    ensures Complete(dc, width, fn, front + [last]) <==>
            Complete(dc, width, fn, front) && KeyComplete(dc, width, fn, last)
  {
    var variants := front + [last];
    assert variants[|front|] == last && forall i | 0 <= i < |front| :: variants[i] == front[i];
  }

  /** A thorough check of `fn` against a given cache. */
  predicate Valid(w: World, width: nat, dc: DependsCache, fn: string, appends: seq<string>) {
    UpToDate(w, dc, fn, appends) && Complete(dc, width, fn, dc[fn].core.variants)
  }

  // ---- The class ---------------------------------------------------------------------------

  class Cache {
    var dependsCache: DependsCache
    var clean: set<string>
    var checked: set<string>
    const width: nat
    const world: World

    constructor (dc: DependsCache, width: nat, world: World)
      ensures dependsCache == dc && clean == {} && checked == {} && this.width == width && this.world == world
    {
      dependsCache, clean, checked := dc, {}, {};
      this.width, this.world := width, world;
    }

    method Remove(fn: string)
      modifies this`dependsCache, this`clean
      ensures dependsCache == old(dependsCache) - {fn} && clean == old(clean) - {fn}
    {
      if fn in dependsCache {
        dependsCache := dependsCache - {fn};
      }
      if fn in clean {
        clean := clean - {fn};
      }
    }

    method DependsValid(core: Core) returns (ok: bool)
      ensures ok <==> forall i | 0 <= i < |core.fileDepends| ::
              world.mtime(core.fileDepends[i].0) == core.fileDepends[i].1
    {
      for i := 0 to |core.fileDepends|
        invariant forall j | 0 <= j < i :: world.mtime(core.fileDepends[j].0) == core.fileDepends[j].1
      {
        var (f, oldMtime) := core.fileDepends[i];
        var fmtime := world.mtime(f);
        if oldMtime != 0 && fmtime == 0 {
          return false;
        }
        if fmtime != oldMtime {
          return false;
        }
      }
      ok := true;
    }

    method ChecksumsValid(core: Core) returns (ok: bool)
      ensures ok == ChecksumsOk(world, core)
    {
      if core.fileChecksums.None? {
        return true;
      }
      var fl := core.fileChecksums.value;
      assert fl == core.fileChecksums.GetOr([]);
      for i := 0 to |fl|
        invariant forall j | 0 <= j < i :: world.present(fl[j].0) == fl[j].1
      {
        if (fl[i].1 && !world.present(fl[i].0)) || (!fl[i].1 && world.present(fl[i].0)) {
          assert world.present(fl[i].0) != fl[i].1;
          return false;
        }
      }
      ok := true;
    }

    /** The variant loops: every key is marked clean, and all of them unmarked again if one is incomplete. */
    method MarkVariants(fn: string, variants: seq<string>) returns (complete: bool)
      modifies this`clean
      ensures complete == Complete(dependsCache, width, fn, variants)
      ensures clean == if complete then old(clean) + Keys(fn, variants) else old(clean) - Keys(fn, variants) - {fn}
    {
      complete := MarkAll(fn, variants);
      if !complete {
        UnmarkVariants(fn, variants);
      }
    }

    method MarkAll(fn: string, variants: seq<string>) returns (complete: bool)
      modifies this`clean
      ensures complete == Complete(dependsCache, width, fn, variants)
      ensures clean == old(clean) + Keys(fn, variants)
    {
      complete := true;
      for i := 0 to |variants|
        invariant complete <==> Complete(dependsCache, width, fn, variants[..i])
        invariant clean == old(clean) + Keys(fn, variants[..i])
      {
        assert variants[..i + 1] == variants[..i] + [variants[i]];
        KeysSnoc(fn, variants[..i], variants[i]);
        CompleteSnoc(dependsCache, width, fn, variants[..i], variants[i]);
        var virtualfn := Variant2Virtual(fn, variants[i]);
        clean := clean + {virtualfn};
        if virtualfn !in dependsCache || dependsCache[virtualfn].length != width {
          complete := false;
        }
      }
      assert variants[..|variants|] == variants;
    }

    method UnmarkVariants(fn: string, variants: seq<string>)
      modifies this`clean
      ensures clean == old(clean) - Keys(fn, variants) - {fn}
    {
      for i := 0 to |variants|
        invariant clean == old(clean) - Keys(fn, variants[..i])
      {
        assert variants[..i + 1] == variants[..i] + [variants[i]];
        KeysSnoc(fn, variants[..i], variants[i]);
        clean := clean - {Variant2Virtual(fn, variants[i])};
      }
      assert variants[..|variants|] == variants;
      clean := clean - {fn};
    }

    method CacheValidUpdate(fn: string, appends: seq<string>) returns (valid: bool)
      modifies this
      ensures checked == old(checked) + {fn}
      ensures valid == Valid(world, width, old(dependsCache), fn, appends)
      ensures dependsCache == if UpToDate(world, old(dependsCache), fn, appends) then old(dependsCache)
              else old(dependsCache) - {fn}
      ensures clean == if fn !in old(dependsCache) then old(clean)
                       else if valid then old(clean) + Keys(fn, old(dependsCache)[fn].core.variants) + {fn}
                       else if UpToDate(world, old(dependsCache), fn, appends) then
                         old(clean) - Keys(fn, old(dependsCache)[fn].core.variants) - {fn}
                       else old(clean) - {fn}
    {
      checked := checked + {fn};
      if fn !in dependsCache {
        return false;
      }
      var core := dependsCache[fn].core;
      var mtime := world.mtime(fn);
      if mtime == 0 || mtime != core.timestamp {
        Remove(fn);
        return false;
      }
      var ok := DependsValid(core);
      if !ok {
        Remove(fn);
        return false;
      }
      ok := ChecksumsValid(core);
      if !ok || appends != core.appends {
        Remove(fn);
        return false;
      }
      valid := MarkVariants(fn, core.variants);
      if valid {
        clean := clean + {fn};
      }
    }

    method CacheValid(fn: string, appends: seq<string>) returns (valid: bool)
      modifies this
      ensures checked == old(checked) + {fn} && valid == (fn in clean)
      ensures fn in old(checked) ==> dependsCache == old(dependsCache) && clean == old(clean)
      ensures fn !in old(checked) ==> Updated(old(dependsCache), old(clean), dependsCache, clean, fn, appends)
    {
      if fn !in checked {
        var _ := CacheValidUpdate(fn, appends);
      }
      valid := fn in clean;
    }

    /** What one thorough check does to the cache and to the clean set. */
    ghost predicate Updated(dc: DependsCache, cl: set<string>, dc': DependsCache, cl': set<string>, fn: string,
                            appends: seq<string>)
    {
      && dc' == (if UpToDate(world, dc, fn, appends) then dc else dc - {fn})
      && cl' == if fn !in dc then cl
                else if Valid(world, width, dc, fn, appends) then cl + Keys(fn, dc[fn].core.variants) + {fn}
                else if UpToDate(world, dc, fn, appends) then cl - Keys(fn, dc[fn].core.variants) - {fn}
                else cl - {fn}
    }

    /** The file and all its variants are in the cache. */
    predicate Loadable(filename: string)
      reads this
    {
      filename in dependsCache &&
      var vs := dependsCache[filename].core.variants;
      forall i | 0 <= i < |vs| :: Variant2Virtual(filename, vs[i]) in dependsCache
    }

    /** `loadCached`; a missing key is a KeyError. */
    method LoadCached(filename: string) returns (r: Result<seq<(string, InfoArray)>>)
      ensures r.Success? <==> Loadable(filename)
      ensures r.Success? ==> var vs := dependsCache[filename].core.variants;
                |r.value| == |vs| && forall i | 0 <= i < |vs| ::
                  var key := Variant2Virtual(filename, vs[i]);
                  key in dependsCache && r.value[i] == (key, dependsCache[key])
    {
      if filename !in dependsCache {
        return Failure;
      }
      var infos := [];
      var variants := dependsCache[filename].core.variants;
      for i := 0 to |variants|
        invariant |infos| == i
        invariant forall j | 0 <= j < i ::
                    var key := Variant2Virtual(filename, variants[j]);
                    key in dependsCache && infos[j] == (key, dependsCache[key])
      {
        var virtualfn := Variant2Virtual(filename, variants[i]);
        if virtualfn !in dependsCache {
          return Failure;
        }
        infos := infos + [(virtualfn, dependsCache[virtualfn])];
      }
      r := Success(infos);
    }

    // ---- Whole validation runs -------------------------------------------------------------

    /** The memo agrees with a fresh check, against the cache as it was and as it is now. */
    ghost predicate Consistent(dc0: DependsCache, appendsOf: string -> seq<string>)
      reads this
    {
      && (forall fn | ColonFree(fn) && fn in clean :: fn in checked)
      && (forall fn | ColonFree(fn) && fn in checked ::
            && (fn in clean <==> Valid(world, width, dependsCache, fn, appendsOf(fn)))
            && (fn in clean <==> Valid(world, width, dc0, fn, appendsOf(fn))))
      && (forall fn | ColonFree(fn) && fn !in checked ::
            Valid(world, width, dependsCache, fn, appendsOf(fn)) <==> Valid(world, width, dc0, fn, appendsOf(fn)))
    }

    /** Checking one file neither changes another file's verdict nor its mark. */
    lemma OthersUntouched(dc: DependsCache, cl: set<string>, dc': DependsCache, cl': set<string>, fn: string,
                          appends: seq<string>,
                          other: string, otherAppends: seq<string>)
      requires ColonFree(fn) && ColonFree(other) && fn != other && Updated(dc, cl, dc', cl', fn, appends)
      ensures Valid(world, width, dc', other, otherAppends) <==> Valid(world, width, dc, other, otherAppends)
      ensures other in cl' <==> other in cl
    {
      if other in dc {
        var vs := dc[other].core.variants;
        forall i | 0 <= i < |vs| ensures Variant2Virtual(other, vs[i]) != fn {
          KeyIsNotFile(other, vs[i], fn);
        }
      }
      if fn in dc {
        var vs := dc[fn].core.variants;
        forall i | 0 <= i < |vs| ensures Variant2Virtual(fn, vs[i]) != other {
          KeyIsNotFile(fn, vs[i], other);
        }
      }
    }

    /** The checked file itself: its mark is the verdict, before and after. */
    lemma SelfSettled(dc: DependsCache, cl: set<string>, dc': DependsCache, cl': set<string>, fn: string,
                      appends: seq<string>)
      requires fn !in cl && Updated(dc, cl, dc', cl', fn, appends)
      ensures fn in cl' <==> Valid(world, width, dc, fn, appends)
      ensures fn in cl' <==> Valid(world, width, dc', fn, appends)
    {
    }

    /**
     Validate any list of colon-free files, with repetitions: every verdict is the fresh one, against
     the cache before and after, and every valid file can be loaded with all its records.
     */
    method ValidateAll(files: seq<string>, appendsOf: string -> seq<string>) returns (verdicts: seq<bool>)
      requires clean == {} && checked == {} && forall i | 0 <= i < |files| :: ColonFree(files[i])
      modifies this
      ensures |verdicts| == |files|
      ensures forall i | 0 <= i < |files| ::
                && (verdicts[i] <==> Valid(world, width, old(dependsCache), files[i], appendsOf(files[i])))
                && (verdicts[i] <==> Valid(world, width, dependsCache, files[i], appendsOf(files[i])))
      ensures forall i | 0 <= i < |files| && verdicts[i] ::
                files[i] in dependsCache && Complete(dependsCache, width, files[i],
                    dependsCache[files[i]].core.variants)
    {
      verdicts := [];
      ghost var dc0 := dependsCache;
      for i := 0 to |files|
        invariant |verdicts| == i && Consistent(dc0, appendsOf)
        invariant forall j | 0 <= j < i :: files[j] in checked && verdicts[j] == (files[j] in clean)
      {
        var fn := files[i];
        ghost var dc, cl, ch := dependsCache, clean, checked;
        var v := CacheValid(fn, appendsOf(fn));
        if fn !in ch {
          SelfSettled(dc, cl, dependsCache, clean, fn, appendsOf(fn));
          forall other | ColonFree(other) && other != fn
            ensures Valid(world, width, dependsCache, other, appendsOf(other)) <==>
                    Valid(world, width, dc, other, appendsOf(other))
            ensures other in clean <==> other in cl
          {
            OthersUntouched(dc, cl, dependsCache, clean, fn, appendsOf(fn), other, appendsOf(other));
          }
        }
        verdicts := verdicts + [v];
      }
    }
  }

  lemma KeysSnoc(fn: string, variants: seq<string>, v: string)
    ensures Keys(fn, variants + [v]) == Keys(fn, variants) + {Variant2Virtual(fn, v)}
  {
    var all := variants + [v];
    forall k | k in Keys(fn, variants) ensures k in Keys(fn, all) {
      var i :| 0 <= i < |variants| && Variant2Virtual(fn, variants[i]) == k;
      assert all[i] == variants[i];
    }
    assert all[|variants|] == v;
  }

  /** A variant's key is never another file's name: it ends in its own file. */
  lemma KeyIsNotFile(fn: string, variant: string, other: string)
    requires ColonFree(fn) && ColonFree(other) && fn != other
    ensures Variant2Virtual(fn, variant) != other
  {
    KeyEndsInFile(fn, variant);
    SplitWord(other);
  }

  /** Validation makes loading safe: a valid file's `loadCached` finds every key, all with full records. */
  method LoadAfterValidation(cache: Cache, files: seq<string>, appendsOf: string -> seq<string>)
    returns (loaded: map<string, seq<(string, InfoArray)>>)
    requires cache.clean == {} && cache.checked == {} && forall i | 0 <= i < |files| :: ColonFree(files[i])
    modifies cache
    ensures forall i | 0 <= i < |files| ::
              files[i] in loaded <==> Valid(cache.world, cache.width, old(cache.dependsCache), files[i],
                  appendsOf(files[i]))
    ensures forall fn | fn in loaded :: forall i | 0 <= i < |loaded[fn]| :: loaded[fn][i].1.length == cache.width
  {
    var verdicts := cache.ValidateAll(files, appendsOf);
    loaded := map[];
    ghost var dc := cache.dependsCache;
    for i := 0 to |files|
      invariant cache.dependsCache == dc
      invariant forall j | 0 <= j < i && verdicts[j] :: files[j] in loaded
      invariant forall fn | fn in loaded :: exists j | 0 <= j < |files| :: files[j] == fn && verdicts[j]
      invariant forall fn | fn in loaded :: forall k | 0 <= k < |loaded[fn]| :: loaded[fn][k].1.length == cache.width
    {
      if verdicts[i] {
        var infos := cache.LoadCached(files[i]);
        assert cache.Loadable(files[i]) by {
          assert Complete(cache.dependsCache, cache.width, files[i], cache.dependsCache[files[i]].core.variants);
        }
        ghost var vs := cache.dependsCache[files[i]].core.variants;
        forall k | 0 <= k < |infos.value| ensures infos.value[k].1.length == cache.width {
          assert KeyComplete(cache.dependsCache, cache.width, files[i], vs[k]);
        }
        loaded := loaded[files[i] := infos.value];
      }
    }
  }

  // ---- Recording and validating ------------------------------------------------------------

  /** The core record that parsing makes in the world `w`. */
  function Recorded(w: World, fn: string, depends: seq<string>, checksummed: seq<string>, appends: seq<string>,
                    variants: seq<string>): Core
  {
    Core(w.mtime(fn), seq(|depends|, i requires 0 <= i < |depends| => (depends[i], w.mtime(depends[i]))),
         Some(seq(|checksummed|, i requires 0 <= i < |checksummed| => (checksummed[i], w.present(checksummed[i])))),
         appends, variants)
  }

  /** Nothing that the record was made from has changed. */
  ghost predicate Unchanged(w: World, w': World, fn: string, depends: seq<string>, checksummed: seq<string>) {
    && w'.mtime(fn) == w.mtime(fn) && (forall f | f in depends :: w'.mtime(f) == w.mtime(f))
    && forall f | f in checksummed :: w'.present(f) == w.present(f)
  }

  /**
   What was recorded in one world is up to date in another exactly if the recipe still exists, it and the files it
   depends on have their old times, each file with a checksum is there or not as before, and the appends are the same.
   */
  lemma RecordedExactly(w: World, w': World, dc: DependsCache, fn: string, depends: seq<string>,
                        checksummed: seq<string>, appends: seq<string>, variants: seq<string>, appends': seq<string>)
    requires fn in dc && dc[fn].core == Recorded(w, fn, depends, checksummed, appends, variants)
    ensures UpToDate(w', dc, fn, appends') <==>
            w'.mtime(fn) != 0 && Unchanged(w, w', fn, depends, checksummed) && appends' == appends
  {
    var core := dc[fn].core;
    var fl := core.fileChecksums.GetOr([]);
    if UpToDate(w', dc, fn, appends') {
      forall f | f in depends ensures w'.mtime(f) == w.mtime(f) {
        var i :| 0 <= i < |depends| && depends[i] == f;
        assert core.fileDepends[i] == (f, w.mtime(f));
      }
      forall f | f in checksummed ensures w'.present(f) == w.present(f) {
        var i :| 0 <= i < |checksummed| && checksummed[i] == f;
        assert fl[i] == (f, w.present(f));
      }
    }
    if w'.mtime(fn) != 0 && Unchanged(w, w', fn, depends, checksummed) && appends' == appends {
      forall i | 0 <= i < |core.fileDepends| ensures w'.mtime(core.fileDepends[i].0) == core.fileDepends[i].1 {
        assert depends[i] in depends;
      }
      forall i | 0 <= i < |fl| ensures w'.present(fl[i].0) == fl[i].1 {
        assert checksummed[i] in checksummed;
      }
    }
  }
}
