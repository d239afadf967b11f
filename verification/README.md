# Verified models of BitBake's data store, parser, caches and SDK relocation

A Dafny model of the algorithmic core of the BitBake library under `poky/bitbake/lib/bb`, and of the
ELF patching script `poky/scripts/relocate_sdk.py`. `dafny verify dfyconfig.toml` checks all of it.

| file | what it models |
|---|---|
| `Text.dfy`, `Overrides.dfy`, `OverrideRanks.dfy`, `Datastore.dfy`, `Evaluation.dfy` | a variable store that is one flat map without a cache: word removal, choice of override variants and which of them wins, writes, recursive expansion |
| `StoreLaws.dfy`, `ListingLaws.dfy`, `ReadLaws.dfy` | the laws between writes and reads of that store: values, override listings, keys, references |
| `Memo.dfy` | the memoised reads as functions of flat store and cache, removal sets shared with cached parses included |
| `SmartData.dfy`, `CopyRuns.dfy` | the layered, copy-on-write, memoising store as heap classes, and the proof that it behaves like the flat one on every store |
| `Coherence.dfy`, `ReadsRight.dfy`, `FlatRuns.dfy` | when memoised reads give the cache-free values: the condition on a store, one read, and runs of reads and writes |
| `SharedRemovals.dfy`, `NestedOverrides.dfy`, `HandedOn.dfy`, `CacheLimits.dfy` | where the memo shows: shared removal sets that change a value, exceptions that it hides; exact conditions, and stores on which it does |
| `CowDict.dfy`, `CowKeys.dfy` | the copy-on-write dictionary of class objects with list values, and iteration over it |
| `RecipeParser.dfy`, `ParserProgress.dfy` | the recipe parser: worker processes, one queue, reaping and counting, as a protocol, with `chunkify` and `parse_next` as methods; safety, and that it cannot get stuck |
| `SiggenCodec.dfy`, `ExtrasMerge.dfy`, `FileNames.dfy`, `RecipeCache.dfy` | the record stream, the save/merge protocol under locks, virtual file names, cache validation |
| `TaskChain.dfy`, `Signatures.dfy`, `LayerPriority.dfy` | paths between tasks, dependency closures behind signatures, layer priorities |
| `FifoReader.dfy`, `FifoMessages.dfy`, `DiskMonitor.dfy` | two small machines: the framing and the messages of a FIFO, and disk-space hysteresis |
| `Relocation.dfy`, `ElfHeader.dfy`, `RelocationFrame.dfy` | in-place relocation of ELF files: the script on any file, its reading of the header, and what it does to well-formed files |

How things are represented. Text is a sequence of characters and atomic references `Ref(name)`. A variable
name is its list of components, `FOO:append:x86` being `["FOO", "append", "x86"]`. A Python dictionary is a map,
with its order kept where the code depends on it. Code that changes objects is a class with methods that are
proved against functions on values; the theorems are about those functions and, for whole runs, about
methods that drive the classes. Processes, locks and queues are a step relation, and the theorems quantify over all
interleavings. Python's recursion limit is the parameter `n` of the evaluation; nothing depends on it except whether a
read fails, and the results say when it does not. The order in which a set of removals is iterated over is an arbitrary
function of the variable, the cache and the set. What comes from outside (file times, `build_dependencies`, UTF-8 and
number parsing, the contents of the disk) is a parameter.

## What turned out differently from the stated intent

- Override order: "the last in OVERRIDES wins" fails when OVERRIDES repeats an entry. `Overrides.LastWinsExactly` says
  exactly when it holds, `Overrides.RepeatedOverrideLoses` gives the example. With overrides of several components
  `OverrideRanks.TakenExactly` says which wins: not the one that stands last but the one that takes the most rounds to strip,
  as `OverrideRanks.StrippedLater` shows. If a suffix repeats an override the listing order can decide
  (`OverrideRanks.DoubleFirst`, `OverrideRanks.SingleFirst`).
- The cache can hide an exception: an override variant already read by its own name is served from the cache, where
  evaluating it unexpanded would raise (`CacheLimits.ServedFromCache`). It happens only with a variant whose text expands to
  nothing and which has a removal that does not expand (`CacheLimits.UnexpandedRaisesExactly`,
  `CacheLimits.FreshReadsExactly`).
- The cache can change a value: with `V:a:b` overriding both `V` and `V:a`, both read the same variant, and the removals
  of `V` end up in the removal set that a later read of `V:a` takes from the cache (`NestedOverrides.SpoiledRead`,
  `NestedOverrides.UnspoiledRead`). It happens iff removals of one variable remove a word of another with the same variant
  that its own do not (`SharedRemovals.RightExactly`), unless a variant of a variant hands removals on
  (`HandedOn.SharersAreNotAll`); where neither is the case, no run ever reads a value that is not the cache-free one
  (`FlatRuns.RunRight`). Single-level override names guarantee it
  (`CopyRuns.ShortReadsAgree`).
- A copy behaves like a deep copy all the same, its cache and that effect included (`CopyRuns.RunOnCopy`).
- A colon-free name that starts with a lower-case letter or digit is registered as an override variant of that name
  without its last character when something is appended to it, because `rfind` returns -1. `StoreLaws.ColonFreeListsExactly`,
  `StoreLaws.ColonFreeTakesExactly` and `StoreLaws.ColonFreeWinsExactly` say when another variable is affected,
  `StoreLaws.AppendOverridesOther` gives an input.
- The dictionary of class objects hides a list behind any earlier plain value or deletion of the key
  (`CowDict.SetListExact`); a run reads like a deep copy iff that never happens (`CowDict.DeepCopyExactly`). Its keys go
  on listing a deleted key, list one with a plain value and a list twice, and never list the lists of the empty key
  and of `_` (`CowKeys.KeysAfterRun`).
- A thread setting of zero or below starts no worker, and "Not all recipes parsed" is raised though nothing died
  (`RecipeParser.DeathlessErrorExactly`).
- A record stream is decoded faithfully iff the reader knows all the writer's numbers (`SiggenCodec.FaithfulExactly`); with
  writers that start empty this is always so, even across resets and reused pids.
- An explicit layer priority of 0 reads as "none yet" in the search for the least one. The least priority depends on the
  order of the layers iff some explicit priority is 0, some is positive and none is negative
  (`LayerPriority.MinPrioOrderExactly`); a resulting priority then depends on it iff some calculated one does not exceed the
  largest explicit one (`LayerPriority.OrderMattersExactly`, with `LayerPriority.ZeroMakesOrderMatter` as the input).
- Merging extras depends on the listing order iff two usable files give one new key different values
  (`ExtrasMerge.DiskOrderExactly`).
- Two variants of one file can share a cache key; `FileNames.KeysEqualExactly` says when. A variant with an empty multiconfig is encoded
  differently by the two encoders (`FileNames.VariantAgrees`).
- The hashed list of a task can stay the same when two values change, one from and one to none
  (`Signatures.ChangesCancel`); a single change always shows (`Signatures.ChangeShows`).
- A malformed FIFO message raises and stays in the buffer, so it raises again at the next read (`FifoReader.Drain`).
- With no space left at all the disk monitor warns at every sample (`DiskMonitor.FullDiskWarnsForever`); over any run the
  warnings are bounded by the number of such samples (`DiskMonitor.WarningsBounded`).
- `tasksbetween` returns nothing when the end is the only task, since the chain is recorded once per other task.
- The relocation script tests `/usr/lib32/` twice and never `/usr/lib/`, and under Python 3 looks at the first byte of the ELF
  magic only (`ElfHeader.NativeExactly`, `ElfHeader.ArchExactly`).
- It writes `.sysdirs` and `.sysdirslen` back without checking that they fit (`RelocationFrame.DirsKeepExactly`,
  `RelocationFrame.DirsReadBackExactly`, with `RelocationFrame.CrowdedDirs` as an input), and a file with the first section
  but not the second makes it raise (`RelocationFrame.DirsExact`).

## Model

| member | source | states |
|---|---|---|
| `Text.TokensAlternate` | `poky/bitbake/lib/bb/data_smart.py:36` | the tokens alternate: a run without white space, one white-space character, a run, ..., a run |
| `Text.JoinTokens` | `poky/bitbake/lib/bb/data_smart.py:885-893` | joining the tokens gives the text back |
| `Text.TokensOfJoin` | `poky/bitbake/lib/bb/data_smart.py:885-893` | and splitting inverts joining on every alternating list |
| `Text.RemoveWordsBlanks` | `poky/bitbake/lib/bb/data_smart.py:874-893` | word removal empties exactly the tokens that are removed words: every other word and all white space stay, in place and in order |
| `Text.RemoveWordsExact` | `poky/bitbake/lib/bb/data_smart.py:874-893` | the words left are the old words minus the removed ones |
| `Text.RemoveWordsRefs` | `poky/bitbake/lib/bb/data_smart.py:874-893` | removal introduces no reference |
| `Text.AsciiSpaces` | `poky/bitbake/lib/bb/data_smart.py:36` | which ASCII characters separate words |
| `Overrides.Strip` | `poky/bitbake/lib/bb/data_smart.py:811` | replacing `:o` keeps the first component, and shortens a suffix that ends in `o` |
| `Overrides.Visit` | `poky/bitbake/lib/bb/data_smart.py:806-814` | one visit keeps the candidate dictionary well formed and never adds components; it sets `mod` only when components went away |
| `Overrides.Sweep` | `poky/bitbake/lib/bb/data_smart.py:806-814` | the same for one pass over all candidates |
| `Overrides.Round` | `poky/bitbake/lib/bb/data_smart.py:804-814` | the same for one pass over OVERRIDES; this is why the `while mod` loop ends |
| `Overrides.SelectVariant` | `poky/bitbake/lib/bb/data_smart.py:791-816` | the selection loops over the ordered dictionary compute `Choose`, the function the lemmas below are about |
| `Overrides.SweepActive` | `poky/bitbake/lib/bb/data_smart.py:806-814` | iterating over a copy of the dictionary while changing it computes `Sweep` |
| `Overrides.ChooseExact` | `poky/bitbake/lib/bb/data_smart.py:791-816` | the loop terminates, selects a variant iff some listed variant is active, and selects only an active one |
| `Overrides.LastOverrideWins` | `poky/bitbake/lib/bb/data_smart.py:791-816` | if all active candidates have one component, the one whose override makes its first appearance latest in OVERRIDES is selected |
| `Overrides.LastWinsExactly` | `poky/bitbake/lib/bb/data_smart.py:791-816` | the last active entry of OVERRIDES wins iff no other active override first appears after that entry's own first appearance |
| `Overrides.RepeatedOverrideLoses` | `poky/bitbake/lib/bb/data_smart.py:791-816` | with OVERRIDES `a:b:a` the variant for `b` is taken although `a` comes last |
| `OverrideRanks.SweepIs` | `poky/bitbake/lib/bb/data_smart.py:806-814` | a pass for one override strips it off every candidate that ends in it, matches the candidate that is just it, lets a stripped candidate overwrite what it is stripped to, and touches nothing else |
| `OverrideRanks.RoundsWin` | `poky/bitbake/lib/bb/data_smart.py:803-814` | from every state of the loop, in whichever round, what is chosen in the end is the candidate whose moments come last, counted from there |
| `OverrideRanks.ChooseTakesLast` | `poky/bitbake/lib/bb/data_smart.py:791-816` | the active variant that is taken is one whose moments (when its overrides are met in turn, from the last to the first, going through OVERRIDES again and again) come after those of every other, and the last listed with its suffix |
| `OverrideRanks.TakenExactly` | `poky/bitbake/lib/bb/data_smart.py:791-816` | a variant is taken iff its moments come last: the choice follows from the order of OVERRIDES alone, however many components the overrides have and even if OVERRIDES repeats entries |
| `OverrideRanks.MomentsDiffer` | `poky/bitbake/lib/bb/data_smart.py:803-814` | different suffixes never tie |
| `OverrideRanks.MatchedAt` | `poky/bitbake/lib/bb/data_smart.py:803-814` | without repetitions in OVERRIDES a candidate is matched where its first override stands, after as many rounds as overrides of it stand before their successors |
| `OverrideRanks.HighestRankWins` | `poky/bitbake/lib/bb/data_smart.py:791-816` | so no active variant has more such ascents than the one that is taken, or as many and a first override that stands later |
| `OverrideRanks.TwoAgainstOne` | `poky/bitbake/lib/bb/data_smart.py:791-816` | of `p:q` and `k` the first is taken iff `p` stands before `q`, or `k` before `p` |
| `OverrideRanks.StrippedLater` | `poky/bitbake/lib/bb/data_smart.py:791-816` | an input: with OVERRIDES `a:b:c` the variant for `a:b` beats the one for `c` |
| `OverrideRanks.DoubleFirst` | `poky/bitbake/lib/bb/data_smart.py:806-814` | an input with a repetition in a suffix: of `o:o`, `o` and `p`, listed in this order, the variant for `p` is taken |
| `OverrideRanks.SingleFirst` | `poky/bitbake/lib/bb/data_smart.py:806-814` | and with `o` listed before `o:o` the one for `o:o`: then the listing order decides |
| `OverrideRanks.StripExactly` | `poky/bitbake/lib/bb/data_smart.py:811` | `replace` takes out every occurrence of the override but one in the first place, and keeps the order of the rest |
| `StoreLaws.TargetOf` | `poky/bitbake/lib/bb/data_smart.py:33-35` | `name:append`, `:prepend`, `:remove` on a plain name, with any further components as its condition, is recognised as an operation on that name under that condition |
| `StoreLaws.SetThenGet` | `poky/bitbake/lib/bb/data_smart.py:591-620` | after a plain assignment nothing pending or overriding is left: the unexpanded value is the assigned text, and the name is a key |
| `StoreLaws.SetThenRead` | `poky/bitbake/lib/bb/data_smart.py:542-623` | through the whole evaluation, reading after assigning gives exactly the expansion of the assigned text with nothing removed, and fails iff that expansion fails |
| `StoreLaws.PlainTextReadsBack` | `poky/bitbake/lib/bb/data_smart.py:542-623` | text without references reads back as itself in any store |
| `StoreLaws.OperationThenGet` | `poky/bitbake/lib/bb/data_smart.py:571-589` | an append, prepend or removal whose condition holds acts at its own end of the value, any other leaves the value alone, and the chosen variant does not change |
| `StoreLaws.AppendThenGet` | `poky/bitbake/lib/bb/data_smart.py:703-711` | `appendVar` puts its text at the right end of the unexpanded value, `prependVar` at the left end |
| `StoreLaws.SetOverrideThenGet` | `poky/bitbake/lib/bb/data_smart.py:591-656` | after setting `V:o`, in the parser or not, with `o` active and no variant listed that a later override selects, `V` takes its value from `V:o`, whatever else is listed for it |
| `StoreLaws.ColonFreeListsExactly` | `poky/bitbake/lib/bb/data_smart.py:640-656` | an operation on a name without a colon changes the override listing of another variable iff the name starts like an override, that variable is the name without its last character, and it was not listed there already |
| `StoreLaws.ColonFreeTakesExactly` | `poky/bitbake/lib/bb/data_smart.py:640-656` | the listing has an effect only if the name is itself in OVERRIDES; then that other variable takes its value from a variant, and from this one if it had none |
| `StoreLaws.ColonFreeWinsExactly` | `poky/bitbake/lib/bb/data_smart.py:640-656` | if the other variable has active variants already, of one component each, this one takes it over iff no override that selects one of them makes its first appearance in OVERRIDES later |
| `StoreLaws.AppendOverridesOther` | `poky/bitbake/lib/bb/data_smart.py:640-656` | an input: with `abc` in OVERRIDES, `appendVar` on `abc` makes `ab` take the value of `abc` |
| `StoreLaws.DelThenGet` | `poky/bitbake/lib/bb/data_smart.py:713-738` | a deleted variable has no value, no removals, no variants, and is not a key |
| `ListingLaws.RemoveFirstCounts` | `poky/bitbake/lib/bb/data_smart.py:726-733` | one occurrence is taken out of the list, if there is one |
| `ListingLaws.RemoveFirstIs` | `poky/bitbake/lib/bb/data_smart.py:726-733` | the first one, and the others keep their order |
| `ListingLaws.RegisterExactly` | `poky/bitbake/lib/bb/data_smart.py:640-656` | a write lists the name under every variable it is an override of, once and at the end, and under no other |
| `ListingLaws.WritesList` | `poky/bitbake/lib/bb/data_smart.py:571-656` | operations, assignments by the parser and defaults list their target so, and other flags list nothing |
| `ListingLaws.OverrideStartExactly` | `poky/bitbake/lib/bb/data_smart.py:37` | what counts as an override: it starts with a lower-case letter or a digit |
| `ListingLaws.DelVarExactly` | `poky/bitbake/lib/bb/data_smart.py:713-738` | a deletion takes exactly one listing of the name off the list of every such variable, keeps the order of the others, drops the list of the name itself, and changes no other list |
| `ListingLaws.DeletedIsNotChosen` | `poky/bitbake/lib/bb/data_smart.py:713-738` | the choice afterwards is that of the list without it; a variant that was listed once is not chosen any more |
| `ListingLaws.DeletionUncovers` | `poky/bitbake/lib/bb/data_smart.py:713-738` | an input: with OVERRIDES `a:b`, deleting `V:b` makes `V` take `V:a` |
| `ListingLaws.KeysExactly` | `poky/bitbake/lib/bb/data_smart.py:1026-1061` | a variable is a key iff it has an entry that is not empty, or takes a value from an active variant |
| `ListingLaws.DefaultThenGet` | `poky/bitbake/lib/bb/data_smart.py:823-831` | a default is the value of a variable that has neither text nor an active variant, and of no other |
| `ListingLaws.PlainDefaultReadsBack` | `poky/bitbake/lib/bb/data_smart.py:823-831` | and reads back through the whole evaluation |
| `ReadLaws.TargetExactly` | `poky/bitbake/lib/bb/data_smart.py:33-35` | a name is an operation iff a keyword stands behind its first component with no capital letter behind; the first such keyword counts |
| `ReadLaws.OldKeywordsRefused` | `poky/bitbake/lib/bb/data_smart.py:546-552` | a keyword with an underscore, anywhere in a component, makes `setVar` refuse the name |
| `ReadLaws.OthersAccepted` | `poky/bitbake/lib/bb/data_smart.py:546-552` | a name without underscores, or of an anonymous function, is not refused |
| `ReadLaws.RemoveThenGet` | `poky/bitbake/lib/bb/data_smart.py:571-589` | `:remove` puts its text among the removals in force and changes nothing else of the variable |
| `ReadLaws.ParserKeepsPending` | `poky/bitbake/lib/bb/data_smart.py:591-620` | an assignment by the parser keeps what is pending and what is chosen, and its text becomes the base of the value |
| `StoreLaws.FlagThenGet` | `poky/bitbake/lib/bb/data_smart.py:740-757` | a written flag reads back, a deleted flag is gone, other flags and the value are unchanged |
| `StoreLaws.WriteKeepsOthers` | `poky/bitbake/lib/bb/data_smart.py:542-757` | every write leaves the entries of all other variables alone, except the active variants an assignment deletes |
| `StoreLaws.SetDropsVariants` | `poky/bitbake/lib/bb/data_smart.py:599-611` | and those active variants do become empty |
| `Datastore.ActiveNamesListed` | `poky/bitbake/lib/bb/data_smart.py:603-611` | the variants an assignment deletes are exactly the listed active ones |
| `Evaluation.AppendStep` | `poky/bitbake/lib/bb/data_smart.py:833-844` | one more append extends the assembled value on the right, an unset value counting as empty |
| `Evaluation.PrependStep` | `poky/bitbake/lib/bb/data_smart.py:846-858` | one more prepend extends it on the left, so prepends stand newest first |
| `Evaluation.EvalMono` | `poky/bitbake/lib/bb/data_smart.py:771-901` | a value reached within some recursion depth is the same at every greater depth |
| `Evaluation.EvalUnique` | `poky/bitbake/lib/bb/data_smart.py:771-901` | so a variable has at most one cache-free value, whatever the depth |
| `Evaluation.ReadExact` | `poky/bitbake/lib/bb/data_smart.py:771-901` | what a read returns, token by token: active prepends newest first, then the base (the chosen variant's text if there is one), then active appends oldest first, all expanded, and in that exactly the words of the removals in force blanked |
| `Evaluation.StrictIsLenient` | `poky/bitbake/lib/bb/data_smart.py:817-821` | reading an override variant unexpanded, as the code does, agrees with reading it by its own name whenever the former succeeds |
| `Evaluation.EvalShape` | `poky/bitbake/lib/bb/data_smart.py:860-898` | what is read is the expansion of the assembled text, with word removal adding no reference |
| `Evaluation.EvalLeftover` | `poky/bitbake/lib/bb/data_smart.py:108-118` | every reference left in a value names an unset variable: expansion ends in a fixpoint |
| `ReadLaws.ReferencesReplaced` | `poky/bitbake/lib/bb/data_smart.py:108-118` | one pass replaces each reference by the value of its variable, leaves a reference to an unset one, and keeps the rest in place and in order |
| `ReadLaws.UnsetStays` | `poky/bitbake/lib/bb/data_smart.py:108-118` | a reference to a variable with neither entry nor variants stays as it is |
| `ReadLaws.SelfReference` | `poky/bitbake/lib/bb/data_smart.py:108-118` | a text that refers to its own variable does not expand |
| `ReadLaws.FlagIs` | `poky/bitbake/lib/bb/data_smart.py:823-863` | a flag is the expansion of its text, and unset iff it was not written |
| `Evaluation.EvalSucceeds` | `poky/bitbake/lib/bb/data_smart.py:451-483` | on an acyclic reference graph, recursion deeper than the variable's rank always succeeds |
| `Evaluation.FlagSucceeds` | `poky/bitbake/lib/bb/data_smart.py:451-483` | the same for flags, one level above the variables the flag refers to |
| `Coherence.SubsToUnique` | `poky/bitbake/lib/bb/data_smart.py:451-483` | substitution has one result |
| `Coherence.SubsToLeftover` | `poky/bitbake/lib/bb/data_smart.py:108-118` | what a substitution leaves refers to unset variables only |
| `Coherence.SubsToIdentity` | `poky/bitbake/lib/bb/data_smart.py:455-481` | so a second pass of the loop changes nothing |
| `Coherence.SecondPassSucceeds` | `poky/bitbake/lib/bb/data_smart.py:455-481` | and it cannot fail where the first pass succeeded |
| `Coherence.ComposeVar` | `poky/bitbake/lib/bb/data_smart.py:771-901` | the parts a read collects make up the cache-free value |
| `Coherence.RawDetermined` | `poky/bitbake/lib/bb/data_smart.py:771-858` | the unexpanded text does not depend on how the variable came to be evaluated |
| `Coherence.CarriedRepaired` | `poky/bitbake/lib/bb/data_smart.py:816-821` | a cached variant whose removal set was grown in place still yields the right removals for a variable, if the others that share it have no removals that this one lacks |
| `Coherence.PollutedOk` | `poky/bitbake/lib/bb/data_smart.py:862-872` | growing that set in place keeps the cache entry acceptable |
| `Coherence.StrictExpansion` | `poky/bitbake/lib/bb/data_smart.py:860-863` | if the cache-free read succeeds then so does the expansion the cached read performs |
| `Coherence.StrictRemovals` | `poky/bitbake/lib/bb/data_smart.py:874-880` | and so do the expansions of the removals |
| `Coherence.UniqueOwnersAgree` | `poky/bitbake/lib/bb/data_smart.py:640-656` | if no variant is listed under two variables, those that share one agree |
| `Memo.RawUnique` | `poky/bitbake/lib/bb/data_smart.py:788-858` | the unexpanded text of a variable does not depend on the cache: along its chain of variants it is determined by the store |
| `Memo.RawStep` | `poky/bitbake/lib/bb/data_smart.py:788-858` | and it is the assembled text over that of its variant |
| `Memo.GatherKeeps` | `poky/bitbake/lib/bb/data_smart.py:862-872` | filling the removal set a cached variant holds keeps texts and values of all cached parses, and lets sets only grow |
| `Memo.ReadKeeps` | `poky/bitbake/lib/bb/data_smart.py:771-901` | on every store and after any reads, a memoised read leaves a sound cache (right texts, a value iff there is text, no references but to unset variables), only grows it, and returns what it has cached |
| `Memo.ExpandedKeeps` | `poky/bitbake/lib/bb/data_smart.py:451-483` | what an expansion leaves refers to unset variables only, whatever the cache says |
| `Memo.SecondPassKeeps` | `poky/bitbake/lib/bb/data_smart.py:455-481` | so the second pass of the expansion loop changes nothing, and the loop ends, on every store and after any reads |
| `ReadsRight.AgreeNoSpill` | `poky/bitbake/lib/bb/data_smart.py:816-872` | if the variables that share a variant have the same removals in force, nothing spills from one to the other |
| `ReadsRight.NoSpillHarmless` | `poky/bitbake/lib/bb/data_smart.py:816-872` | and a store on which nothing spills is harmless: nobody's words are removed by removals that only others have, and none of these is passed on |
| `ReadsRight.GatheredIs` | `poky/bitbake/lib/bb/data_smart.py:862-872` | what a read gathers is what is in force for the variable, plus at most all that variables with the same variant left; where nothing spills, exactly what is in force |
| `ReadsRight.SameValue` | `poky/bitbake/lib/bb/data_smart.py:882-893` | on a harmless store word removal with the gathered set gives the cache-free value, and records at least the removals the cache-free one records |
| `ReadsRight.PassedOn` | `poky/bitbake/lib/bb/data_smart.py:816-893` | and what a variant's cached parse passes on to the variables it gives text is what the cache-free parse does |
| `ReadsRight.FinishedOk` | `poky/bitbake/lib/bb/data_smart.py:862-898` | the parse that is memoised satisfies the coherence condition |
| `ReadsRight.NotGrown` | `poky/bitbake/lib/bb/data_smart.py:874-880` | where nothing spills, the set that is iterated over does not grow under the iteration |
| `ReadsRight.ReadRight` | `poky/bitbake/lib/bb/data_smart.py:771-901` | on a harmless store a memoised read keeps the cache coherent with the flat store and returns an entry of it; where nothing spills it succeeds whenever the strict cache-free evaluation does |
| `ReadsRight.RemovesRight` | `poky/bitbake/lib/bb/data_smart.py:874-880` | the loop over the removals expands each to its cache-free words; it fails only if one of them does, or the set grows |
| `ReadsRight.SubstitutedRight` | `poky/bitbake/lib/bb/data_smart.py:460-463` | one pass over the references gives the cache-free substitution |
| `CacheLimits.UnexpandedRaisesExactly` | `poky/bitbake/lib/bb/data_smart.py:860-893` | for a variable whose expanded read succeeds, the unexpanded read raises iff its text is not empty, expands to the empty text, and some removal in force does not expand |
| `CacheLimits.FreshReadsExactly` | `poky/bitbake/lib/bb/data_smart.py:774-901` | reads without the cache succeed wherever there is a value, on exactly those stores on which no variable with a value takes it from such a variant |
| `CacheLimits.FreshReadRaises` | `poky/bitbake/lib/bb/data_smart.py:816-821` | a store with such a variant: `W:o` read by its own name is the empty string, and a fresh read of `W` raises at every depth |
| `CacheLimits.UnsteadyHasValue` | `poky/bitbake/lib/bb/data_smart.py:816-821` | `W` nevertheless has a cache-free value, the empty string |
| `CacheLimits.ServedFromCache` | `poky/bitbake/lib/bb/data_smart.py:782-786` | on the heap: once `W:o` was read by its own name, the variant of `W` is answered from the cache, at depths where a fresh read raises |
| `CacheLimits.FreshW` | `poky/bitbake/lib/bb/data_smart.py:774-901` | while from an empty cache the memoised read of `W` raises at every depth |
| `CacheLimits.FreshOnHeap` | `poky/bitbake/lib/bb/data_smart.py:658-901` | so it does on the heap |
| `SharedRemovals.EvalSound` | `poky/bitbake/lib/bb/data_smart.py:771-901` | a cache-free parse is one that the cache may hold on any store |
| `SharedRemovals.HarmlessSuffices` | `poky/bitbake/lib/bb/data_smart.py:771-901` | on every harmless store, reads in every order, from the cache-free parses of whatever has been read, give the cache-free values |
| `SharedRemovals.UnexpandedFills` | `poky/bitbake/lib/bb/data_smart.py:862-872` | an unexpanded read leaves the variable's removals in the set its variant's cached parse holds |
| `SharedRemovals.PreparedRead` | `poky/bitbake/lib/bb/data_smart.py:862-893` | a later read of another variable with that variant removes the words of all that was left there |
| `SharedRemovals.SpoiledRead` | `poky/bitbake/lib/bb/data_smart.py:771-901` | if the removals of one variable remove a word of another with the same variant that its own do not, reading the one and then the other gives a wrong value, from a cache of cache-free parses |
| `SharedRemovals.HarmlessNeeded` | `poky/bitbake/lib/bb/data_smart.py:771-901` | so where reads in every order are right there is no such pair |
| `SharedRemovals.RightExactly` | `poky/bitbake/lib/bb/data_smart.py:771-901` | reads in every order give the cache-free values iff no word of any variable's text is removed by the removals of another with the same variant alone |
| `SharedRemovals.CrossedRead` | `poky/bitbake/lib/bb/data_smart.py:771-901` | where a removal left for a variable refers to that variable, and all else is cached, reading it raises at every depth instead of giving a wrong value |
| `HandedOn.NobodySpoils` | `poky/bitbake/lib/bb/data_smart.py:816-893` | a layout of stores in which a variant has a variant, and no removals of a direct sharer spoil any value |
| `HandedOn.FillsN` | `poky/bitbake/lib/bb/data_smart.py:862-872` | there, an unexpanded read of one variable leaves its removal in the cached parse of the inner variant |
| `HandedOn.HandsOn` | `poky/bitbake/lib/bb/data_smart.py:816-893` | a read of the outer variant hands it on in its own cached parse |
| `HandedOn.LosesWord` | `poky/bitbake/lib/bb/data_smart.py:862-898` | and a read of the variable with the outer variant loses a word to it |
| `HandedOn.SharersAreNotAll` | `poky/bitbake/lib/bb/data_smart.py:771-901` | so on a concrete such store the condition on direct sharers holds and reads are not right in every order |
| `NestedOverrides.NestedShares` | `poky/bitbake/lib/bb/data_smart.py:640-656` | a store in which `V` and `V:a` both take their value from `V:a:b` and do not agree on their removals, whether or not the variant has a removal of its own |
| `NestedOverrides.QuietSpillsNothing` | `poky/bitbake/lib/bb/data_smart.py:862-872` | if it has none, no set is shared and nothing spills |
| `NestedOverrides.ReadFirst` | `poky/bitbake/lib/bb/data_smart.py:862-893` | if it has one, a read of `V` leaves the removal of `V` in the cached parse of `V:a:b` |
| `NestedOverrides.ReadSecond` | `poky/bitbake/lib/bb/data_smart.py:862-898` | with that parse in the cache a read of `V:a` gives the empty string |
| `NestedOverrides.ReadAlone` | `poky/bitbake/lib/bb/data_smart.py:862-898` | without it, `x` |
| `NestedOverrides.CacheFreeValue` | `poky/bitbake/lib/bb/data_smart.py:862-898` | and `x` is the cache-free value of `V:a` |
| `NestedOverrides.NestedNotRight` | `poky/bitbake/lib/bb/data_smart.py:771-901` | so on this store reads are not right in every order |
| `NestedOverrides.SpoiledRead` | `poky/bitbake/lib/bb/data_smart.py:658-901` | on the heap: `getVar` of `V` and then of `V:a` returns the empty string for both |
| `NestedOverrides.UnspoiledRead` | `poky/bitbake/lib/bb/data_smart.py:658-901` | while `getVar` of `V:a` alone returns `x` |
| `SmartData.Layer.constructor` | `poky/bitbake/lib/bb/data_smart.py:983-989` | a new layer is empty and sits on its parent's chain |
| `SmartData.DataSmart.constructor` | `poky/bitbake/lib/bb/data_smart.py:425-443` | a new store is empty, and so is its cache |
| `SmartData.DataSmart.CreateCopy` | `poky/bitbake/lib/bb/data_smart.py:983-1003` | a copy has a fresh layer, shows what the original shows, and has an empty cache |
| `SmartData.DataSmart.FindVar` | `poky/bitbake/lib/bb/data_smart.py:517-526` | the walk down the layers finds exactly the entry the flat store has |
| `SmartData.DataSmart.ShadowOf` | `poky/bitbake/lib/bb/data_smart.py:532-537` | the copy of a found entry is shallow: its lists are those of the entry, which the parent may share |
| `SmartData.DataSmart.MakeShadowCopy` | `poky/bitbake/lib/bb/data_smart.py:528-537` | afterwards the own layer has the entry readers saw, with the very lists it had, and the store shows the same apart from an explicit empty entry |
| `SmartData.DataSmart.UpdateOverrides` | `poky/bitbake/lib/bb/data_smart.py:640-656` | the override walk over shared lists registers the name as the flat store does |
| `SmartData.DataSmart.DowndateOverrides` | `poky/bitbake/lib/bb/data_smart.py:721-738` | the walk of `delVar` unregisters it, again without touching a shared list |
| `SmartData.DataSmart.AddListed` | `poky/bitbake/lib/bb/data_smart.py:645-650` | a variant is listed under its owner, once |
| `SmartData.DataSmart.Relist` | `poky/bitbake/lib/bb/data_smart.py:648-650` | a list is recreated before it changes, so no store that shares it sees the change |
| `SmartData.DataSmart.RemoveListed` | `poky/bitbake/lib/bb/data_smart.py:726-733` | the first listing of the variant under its owner is removed, again from a recreated list |
| `SmartData.DataSmart.DelVar` | `poky/bitbake/lib/bb/data_smart.py:713-738` | on the layered store, deletion is the flat deletion |
| `SmartData.DataSmart.SetVarFlag` | `poky/bitbake/lib/bb/data_smart.py:740-762` | on the layered store, setting a flag is the flat one; what the parent shares stays |
| `SmartData.DataSmart.DelVarFlag` | `poky/bitbake/lib/bb/data_smart.py:903-918` | on the layered store, deleting a flag is the flat one |
| `SmartData.DataSmart.PendingCopy` | `poky/bitbake/lib/bb/data_smart.py:571-575` | the pending list handed out for extension is a new object |
| `SmartData.DataSmart.StoreList` | `poky/bitbake/lib/bb/data_smart.py:575-577` | storing that list in the own layer is the flat write |
| `SmartData.DataSmart.AddOperation` | `poky/bitbake/lib/bb/data_smart.py:571-589` | an operation extends and stores a list that no other entry has, so no store that shares the old one sees it; the view is the flat write |
| `SmartData.DataSmart.ForgetOverrides` | `poky/bitbake/lib/bb/data_smart.py:594-611` | an assignment outside the parser drops pending operations and active variants, as in the flat store |
| `SmartData.DataSmart.Assign` | `poky/bitbake/lib/bb/data_smart.py:591-620` | on the layered store, assignment is the flat assignment |
| `SmartData.DataSmart.SetVar` | `poky/bitbake/lib/bb/data_smart.py:542-623` | `setVar` refuses the old underscore syntax and is otherwise the flat write; the cache is emptied, or kept if the write was refused |
| `SmartData.DataSmart.Read` | `poky/bitbake/lib/bb/data_smart.py:771-901` | on every layered store and after any reads, the memoised read computes the flat one in result, exception and what it leaves in the cache |
| `SmartData.DataSmart.ReadVar` | `poky/bitbake/lib/bb/data_smart.py:788-901` | so for a variable that is not in the cache, through nested references and carried removals |
| `SmartData.DataSmart.ReadText` | `poky/bitbake/lib/bb/data_smart.py:833-901` | from the variant's parse on |
| `SmartData.DataSmart.ReadRest` | `poky/bitbake/lib/bb/data_smart.py:862-901` | from the expanded text on |
| `SmartData.DataSmart.ReadFlag` | `poky/bitbake/lib/bb/data_smart.py:827-863` | so for a flag |
| `SmartData.DataSmart.ReadVariant` | `poky/bitbake/lib/bb/data_smart.py:788-821` | the override variant that is read is the one the flat store chooses; result and cache are those of the flat read |
| `SmartData.DataSmart.AssembleRaw` | `poky/bitbake/lib/bb/data_smart.py:823-858` | the append and prepend loops compute the assembled text of the flat store |
| `SmartData.DataSmart.GatherRemoves` | `poky/bitbake/lib/bb/data_smart.py:862-872` | the removal set ends up as carried plus active removals, and so does the one in the cached parse of the variant if it is the same object |
| `SmartData.DataSmart.RemovalWords` | `poky/bitbake/lib/bb/data_smart.py:862-880` | gathering and expanding them, if there is a value to remove from |
| `SmartData.DataSmart.ExpandRemoves` | `poky/bitbake/lib/bb/data_smart.py:874-880` | the loop over the removals computes the flat one, and raises if the set, held by a cached parse, has grown under it |
| `SmartData.DataSmart.ApplyRemoves` | `poky/bitbake/lib/bb/data_smart.py:882-893` | the token loop computes word removal, and records exactly the removals that removed something |
| `SmartData.DataSmart.GetVar` | `poky/bitbake/lib/bb/data_smart.py:658-659` | `getVar` answers and leaves in the cache what the flat memoised read does, on every store and after any reads |
| `SmartData.DataSmart.GetVarUnexpanded` | `poky/bitbake/lib/bb/data_smart.py:658-659` | so does the unexpanded read, which is not memoised but fills a shared set |
| `SmartData.DataSmart.GetVarFlag` | `poky/bitbake/lib/bb/data_smart.py:771-863` | so does the read of a flag |
| `SmartData.DataSmart.GetVarFlagUnexpanded` | `poky/bitbake/lib/bb/data_smart.py:823-831` | a flag read unexpanded is the flag as written |
| `SmartData.DataSmart.Iterate` | `poky/bitbake/lib/bb/data_smart.py:1026-1061` | iterating over the layers yields exactly the keys of the flat store |
| `SmartData.DataSmart.ExpandWithRefs` | `poky/bitbake/lib/bb/data_smart.py:451-483` | the expansion loop terminates and computes the flat expansion; the references it collects are those before and after |
| `SmartData.DataSmart.Substitute` | `poky/bitbake/lib/bb/data_smart.py:460-463` | one regular-expression pass substitutes every reference, from the left, each with the cache the one before left |
| `SmartData.DataSmart.VarSub` | `poky/bitbake/lib/bb/data_smart.py:108-118` | one reference: its value, or itself if unset; a direct self-reference raises |
| `CopyRuns.ApplyShort` | `poky/bitbake/lib/bb/data_smart.py:542-757` | writes to single-level names keep every listed override single-level |
| `CopyRuns.ShortMeansUniqueOwner` | `poky/bitbake/lib/bb/data_smart.py:640-656` | then no variant is listed under two variables |
| `FlatRuns.ValueUnique` | `poky/bitbake/lib/bb/data_smart.py:771-901` | any read of a store, expanded or not, of a value or a flag, has at most one cache-free answer |
| `FlatRuns.ReplyRight` | `poky/bitbake/lib/bb/data_smart.py:771-901` | on a harmless store any such read answers with it if it answers with a value at all; where nothing spills it raises no exception that the strict cache-free evaluation does not |
| `FlatRuns.RunRight` | `poky/bitbake/lib/bb/data_smart.py:542-901` | over any interleaving of writes and reads on stores that are harmless when they are read, all values read are the cache-free ones of their time |
| `FlatRuns.SpillFreeRun` | `poky/bitbake/lib/bb/data_smart.py:542-901` | and where nothing spills at any read, no read fails without cause |
| `FlatRuns.AgreeingRun` | `poky/bitbake/lib/bb/data_smart.py:542-901` | in particular if the sharers of each variant agree on their removals at every read |
| `FlatRuns.HarmlessAnswers` | `poky/bitbake/lib/bb/data_smart.py:542-901` | the same as one condition on the answers of a run |
| `CopyRuns.AskStore` | `poky/bitbake/lib/bb/data_smart.py:658-901` | any read of the heap answers, and leaves in the cache, what the flat machine does |
| `CopyRuns.Act1` | `poky/bitbake/lib/bb/data_smart.py:542-901` | a write or read takes view and cache where it takes the flat machine, with the same answer |
| `CopyRuns.RunActs` | `poky/bitbake/lib/bb/data_smart.py:542-901` | so does any interleaving of writes, to any names, and reads, at any depths, on any store |
| `CopyRuns.ForkAndRun` | `poky/bitbake/lib/bb/data_smart.py:983-1003` | and on a copy: it runs as a flat store would that was deep-copied, and the parent keeps view and cache |
| `CopyRuns.RunOnCopy` | `poky/bitbake/lib/bb/data_smart.py:983-1061` | main theorem, without any condition on the stores: any such run on a copy shows, answers, caches and lists as keys exactly what an eagerly deep-copied flat store would, exceptions included, and the parent, its cache included, is unchanged; the values are the cache-free ones where the stores are harmless |
| `CopyRuns.WritesOnCopy` | `poky/bitbake/lib/bb/data_smart.py:983-1061` | view, keys and the unchanged parent for any writes |
| `CopyRuns.ShortReadsAgree` | `poky/bitbake/lib/bb/data_smart.py:640-656` | with single-level override names the sharers of a variant agree at every read of a run, so nothing spills |
| `CowDict.SetListExact` | `poky/bitbake/lib/bb/COW.py:53-58` | assigning a list acts as on an ordinary dictionary iff no plain attribute hides the key |
| `CowDict.RunLikeDeepCopy` | `poky/bitbake/lib/bb/COW.py:44-123` | if every list assignment is visible, a whole run reads like the run on an eager deep copy |
| `CowDict.DeepCopyExactly` | `poky/bitbake/lib/bb/COW.py:44-123` | a run reads like the run on a deep copy after every step iff every list assignment is visible; then its lookups answer alike |
| `CowDict.LookUp` | `poky/bitbake/lib/bb/COW.py:88-104` | a lookup, read-only or not, changes no reading and answers with the value, or with nothing for a KeyError |
| `CowDict.CowClass.Copy` | `poky/bitbake/lib/bb/COW.py:44-51` | `copy` copies nothing: the new class reads the same and shares everything below it |
| `CowDict.CowClass.SetItem` | `poky/bitbake/lib/bb/COW.py:53-58` | setting an immutable value |
| `CowDict.CowClass.SetListItem` | `poky/bitbake/lib/bb/COW.py:53-58` | setting a list under its second attribute name |
| `CowDict.CowClass.DelItem` | `poky/bitbake/lib/bb/COW.py:106-107` | deletion stores the marker |
| `CowDict.CowClass.GetInherited` | `poky/bitbake/lib/bb/COW.py:67-69` | attribute lookup above the class finds the nearest ancestor's list |
| `CowDict.CowClass.GetMutable` | `poky/bitbake/lib/bb/COW.py:60-78` | a list handed out for change is the class's own, copied first if inherited, and reads do not change |
| `CowDict.CowClass.GetItem` | `poky/bitbake/lib/bb/COW.py:88-104` | lookup returns the plain value first, then the list; a marker or nothing is a KeyError |
| `CowDict.CowClass.AppendTo` | `poky/bitbake/lib/bb/COW.py:60-104` | appending through lookup changes this dictionary only and fails iff there is no list |
| `CowDict.RunOnCopy` | `poky/bitbake/lib/bb/COW.py:44-123` | any run of sets, deletions, in-place appends and lookups on a copy leaves the copied dictionary unchanged; the copy reads and answers as the run says, and as a deep copy would exactly when no list is hidden |
| `CowKeys.Visit` | `poky/bitbake/lib/bb/COW.py:123-142` | one attribute of the iteration: skipped, or its key and, if readable, its value; an inherited list is copied on the way unless the iteration is read-only |
| `CowKeys.Iterate` | `poky/bitbake/lib/bb/COW.py:123-142` | iteration over what `dir` lists, in any order, yields a key for every attribute that is not skipped and an item for every readable one, and changes no reading |
| `CowKeys.KeyCount` | `poky/bitbake/lib/bb/COW.py:123-133` | a key is listed once for each of its attributes that is not skipped |
| `CowKeys.ItemCount` | `poky/bitbake/lib/bb/COW.py:135-142` | and so is the item of a readable key |
| `CowKeys.SkippedExactly` | `poky/bitbake/lib/bb/COW.py:123-130` | keys with two leading underscores are never listed, and the lists of the empty key and of `_` are not |
| `CowKeys.ListedTimes` | `poky/bitbake/lib/bb/COW.py:123-133` | any other key is listed once for its plain value or deletion and once for its list |
| `CowKeys.KeysExactly` | `poky/bitbake/lib/bb/COW.py:123-133` | the keys listed are the readable ones without two leading underscores, once each, iff no such key is deleted, none but those two has both a plain value and a list, and those two have no list alone |
| `CowKeys.ItemsExactly` | `poky/bitbake/lib/bb/COW.py:135-142` | items never show a deleted key; they are right iff that holds of the readable keys |
| `CowKeys.AbstractConsistent` | `poky/bitbake/lib/bb/COW.py:53-107` | what these take for granted of a dictionary holds of every one on the heap |
| `CowKeys.RunTouches` | `poky/bitbake/lib/bb/COW.py:53-107` | which keys have which attribute after a run depends only on which were assigned or deleted in it |
| `CowKeys.KeysAfterRun` | `poky/bitbake/lib/bb/COW.py:53-142` | after any run on a dictionary that listed its keys right, it lists them right iff every key without two leading underscores that is deleted is assigned again later, none is given both a plain value, or deletion, and a list, and the empty key and `_` are given no list alone |
| `RecipeParser.Chunkify` | `poky/bitbake/lib/bb/cooker.py:2163-2165` | the jobs are dealt into as many slices as there are processes |
| `RecipeParser.SlicesPartition` | `poky/bitbake/lib/bb/cooker.py:2163-2165` | the slices hold every job exactly as often as the list does |
| `RecipeParser.CookerParser.Shutdown` | `poky/bitbake/lib/bb/cooker.py:2175-2191` | shutdown reports once, clean or not, and does nothing if nothing was to be parsed |
| `RecipeParser.CookerParser.ParseNext` | `poky/bitbake/lib/bb/cooker.py:2279-2357` | which counter moves for which outcome, when the main loop comes back, and that an unfinished run is reported as unclean |
| `RecipeParser.AccountIs` | `poky/bitbake/lib/bb/cooker.py:2279-2357` | whatever is fetched in whatever order, the counters are the numbers of recipes parsed, loaded and both, of exceptions, and of all infos |
| `RecipeParser.CountersAreAccount` | `poky/bitbake/lib/bb/cooker.py:2279-2357` | so they are in every reachable state of the protocol, for what was fetched on the way |
| `RecipeParser.QuitStops` | `poky/bitbake/lib/bb/cooker.py:2055-2081` | once the workers are told to quit, every step of a worker brings it closer to its end, and between two jobs it takes no further one |
| `RecipeParser.LoopTopExactly` | `poky/bitbake/lib/bb/cooker.py:2058-2060` | a worker leaves its loop iff it is told to quit or has neither jobs nor results left |
| `RecipeParser.WorkerConserves` | `poky/bitbake/lib/bb/cooker.py:2058-2081` | a worker's step only moves recipes between its own places and the queue |
| `RecipeParser.StepConserves` | `poky/bitbake/lib/bb/cooker.py:2058-2078` | no step of any process creates or loses a recipe |
| `RecipeParser.StepInv` | `poky/bitbake/lib/bb/cooker.py:2255-2276` | every step keeps the invariant that ties counters, reaped processes and the queue together |
| `RecipeParser.RunInv` | `poky/bitbake/lib/bb/cooker.py:2255-2357` | it holds after every interleaving of worker and server steps, deaths included |
| `RecipeParser.DeliveredAtMostOnce` | `poky/bitbake/lib/bb/cooker.py:2255-2276` | in every reachable state each recipe was delivered at most once, and only recipes that were to be parsed |
| `RecipeParser.Whereabouts` | `poky/bitbake/lib/bb/cooker.py:2058-2081` | every recipe that was dealt to a process is always in exactly one place: with a worker, in the queue, delivered or failed |
| `RecipeParser.StepIsFetch` | `poky/bitbake/lib/bb/cooker.py:2279-2357` | each step of the server counts as `parse_next` does with what that step fetches, and the run is over when `parse_next` says so |
| `RecipeParser.CleanFinish` | `poky/bitbake/lib/bb/cooker.py:2279-2357` | parsing that ends uninterrupted has no error iff it finished; then it delivered every recipe exactly once and the cached ones in order, and its counters say so |
| `RecipeParser.IncompleteMeansDeath` | `poky/bitbake/lib/bb/cooker.py:2275-2276` | "Not all recipes parsed" is raised only if some worker died while holding a recipe, or there was none although recipes are to be parsed |
| `RecipeParser.DeathlessErrorExactly` | `poky/bitbake/lib/bb/cooker.py:2146-2276` | it can be raised without a death iff recipes are to be parsed and the thread setting leaves no process; otherwise never, though live workers are reaped and the queue may look empty |
| `RecipeParser.UnmannedFails` | `poky/bitbake/lib/bb/cooker.py:2146-2276` | without a process some run raises it after the first empty look at the queue |
| `RecipeParser.UnmannedParsesNothing` | `poky/bitbake/lib/bb/cooker.py:2146-2276` | and no run delivers a parsed recipe or finishes |
| `ParserProgress.WorkerProgress` | `poky/bitbake/lib/bb/cooker.py:2058-2081` | a worker that has not ended can always take a step that brings it closer to its end |
| `ParserProgress.ServerProgress` | `poky/bitbake/lib/bb/cooker.py:2255-2276` | when all workers have ended the server can always go on, and never waits for a recipe in vain |
| `ParserProgress.CanFinish` | `poky/bitbake/lib/bb/cooker.py:2055-2357` | if it has, then from every reachable state in which no worker died and no parse failed some continuation ends cleanly: the protocol never gets stuck |
| `ParserProgress.CleanRunExists` | `poky/bitbake/lib/bb/cooker.py:2055-2357` | a configuration has a run that delivers all its recipes iff it has a process or nothing to parse |
| `SiggenCodec.Writer.Reset` | `poky/bitbake/lib/bb/cache.py:281-287` | `reset` makes the writer a new one |
| `SiggenCodec.Writer.Save` | `poky/bitbake/lib/bb/cache.py:289-304` | the loop over the class maps computes the stream function |
| `SiggenCodec.Reader.Restore` | `poky/bitbake/lib/bb/cache.py:306-326` | so does the reading loop; a number without a value is a KeyError, and other pids' tables are untouched |
| `SiggenCodec.RoundTrip` | `poky/bitbake/lib/bb/cache.py:289-326` | if the reader knows whatever the writer would abbreviate, a record restores to what was saved, and this stays so |
| `SiggenCodec.FaithfulExactly` | `poky/bitbake/lib/bb/cache.py:289-326` | and only then: a reader is faithful on every record iff it knows all the writer's numbers |
| `SiggenCodec.Unfaithful` | `poky/bitbake/lib/bb/cache.py:289-326` | otherwise a one-entry record is restored wrongly or not at all |
| `SiggenCodec.RestartKeepsSync` | `poky/bitbake/lib/bb/cache.py:281-287` | a writer reset, or a new process with an old pid, never spoils a reader that did not reset |
| `SiggenCodec.AllInSync` | `poky/bitbake/lib/bb/cache.py:281-326` | in every interleaving each pid's reader is in step with its stream |
| `SiggenCodec.EveryRestoreIsFaithful` | `poky/bitbake/lib/bb/cache.py:281-326` | so every record read in its pid's order restores to exactly the saved dictionary |
| `ExtrasMerge.MultiProcessCache.MergeData` | `poky/bitbake/lib/bb/cache.py:897-901` | the merge loops over every part of the cache compute `Merge`: own entries win |
| `ExtrasMerge.OrderExact` | `poky/bitbake/lib/bb/cache.py:897-901` | two files can be merged in either order iff they agree on the new keys they share |
| `ExtrasMerge.MergeAllAt` | `poky/bitbake/lib/bb/cache.py:897-901` | entry by entry: the cache's own value, else one from a file that has the key; no key is lost or invented |
| `ExtrasMerge.MergeOrderIrrelevant` | `poky/bitbake/lib/bb/cache.py:897-901` | with pairwise compatible files the result depends only on which files there are |
| `ExtrasMerge.OnlyMerges` | `poky/bitbake/lib/bb/cache.py:913-929` | while the merging process is at its list, no step but its own can happen |
| `ExtrasMerge.MergesAll` | `poky/bitbake/lib/bb/cache.py:913-929` | the steps over the list leave the merge of all usable files in list order, whatever broken or outdated ones are among them |
| `ExtrasMerge.WholeMergeIs` | `poky/bitbake/lib/bb/cache.py:907-936` | listing, merging and finishing write exactly that merge to the cache file, or nothing if no file was usable |
| `ExtrasMerge.DiskOrderIrrelevant` | `poky/bitbake/lib/bb/cache.py:907-936` | so with compatible files the cache file does not depend on the order in which the directory is listed |
| `ExtrasMerge.DiskOrderExactly` | `poky/bitbake/lib/bb/cache.py:907-936` | and only then: all listings of the directory lead to one cache file iff the usable files are pairwise compatible |
| `ExtrasMerge.ExecInv` | `poky/bitbake/lib/bb/cache.py:869-936` | lock exclusion and the saver's file discipline hold after every interleaving of savers and merger |
| `ExtrasMerge.NeverOverwrites` | `poky/bitbake/lib/bb/cache.py:881-892` | no saver opens an extras file that exists: nothing unmerged is overwritten |
| `ExtrasMerge.StartsAtPid` | `poky/bitbake/lib/bb/cache.py:869-892` | in every interleaving a process only looks at files from that of its own number upwards |
| `ExtrasMerge.OwnFileFirst` | `poky/bitbake/lib/bb/cache.py:869-892` | and if it has something to save it starts at that one |
| `ExtrasMerge.MergerSeesNoSaver` | `poky/bitbake/lib/bb/cache.py:907-936` | while the merger works no saver is in its critical part |
| `ExtrasMerge.NothingLost` | `poky/bitbake/lib/bb/cache.py:869-936` | every key of a completed save is in a waiting file, in the merger's data or in the cache file; after a finished merge, in the cache file |
| `ExtrasMerge.MergeNeverStuck` | `poky/bitbake/lib/bb/cache.py:913-929` | the merger can always deal with the next file it listed |
| `ExtrasMerge.EntriesWin` | `poky/bitbake/lib/bb/cache.py:897-936` | no step changes or drops an entry the cache already has |
| `FileNames.JoinSplit` | `poky/bitbake/lib/bb/cache.py:346-354` | splitting at colons and joining |
| `FileNames.CountColons` | `poky/bitbake/lib/bb/cache.py:346` | a name has one part more than colons |
| `FileNames.DecodeEncode` | `poky/bitbake/lib/bb/cache.py:341-366` | decoding an encoded name gives back file, class and multiconfig iff a condition on their colons and tags holds |
| `FileNames.ColonFreeDecodes` | `poky/bitbake/lib/bb/cache.py:341-366` | it holds for every colon-free file and multiconfig, with any class |
| `FileNames.McDecodesElsewhere` | `poky/bitbake/lib/bb/cache.py:346-347` | a plain name that looks like a multiconfig name never decodes to itself |
| `FileNames.EncodeDecode` | `poky/bitbake/lib/bb/cache.py:341-366` | encoding a decoded name gives the name back iff it is canonical |
| `FileNames.VariantAgrees` | `poky/bitbake/lib/bb/cache.py:368-379` | the two encoders agree on a variant iff it does not name an empty multiconfig |
| `FileNames.KeyDecodes` | `poky/bitbake/lib/bb/cache.py:341-379` | the key of a well-formed variant determines the file and the variant |
| `FileNames.KeysEqualExactly` | `poky/bitbake/lib/bb/cache.py:368-379` | two colon-free files and variants have the same key iff the files are the same and the variants are the same, or both name the same multiconfig and have nothing, or an empty part, after it |
| `FileNames.KeysDistinct` | `poky/bitbake/lib/bb/cache.py:368-379` | so distinct (file, variant) pairs have distinct keys if no part of the variants is dropped from them, as of well-formed variants |
| `FileNames.KeysCollide` | `poky/bitbake/lib/bb/cache.py:374-378` | an input: two variants of one file with the same key |
| `FileNames.KeyNamesFile` | `poky/bitbake/lib/bb/cache.py:368-379` | the file can be read off the key whatever the variant |
| `FileNames.KeyEndsInFile` | `poky/bitbake/lib/bb/cache.py:368-379` | it is the last part |
| `RecipeCache.Cache.Remove` | `poky/bitbake/lib/bb/cache.py:660-670` | removal takes the file out of the cache and the clean set |
| `RecipeCache.Cache.DependsValid` | `poky/bitbake/lib/bb/cache.py:594-609` | every dependency has its recorded time |
| `RecipeCache.Cache.ChecksumsValid` | `poky/bitbake/lib/bb/cache.py:611-626` | every checksummed file still exists or is still missing |
| `RecipeCache.Cache.MarkVariants` | `poky/bitbake/lib/bb/cache.py:634-657` | the variants end up clean iff all of them are cached in full length, and unclean otherwise |
| `RecipeCache.Cache.CacheValidUpdate` | `poky/bitbake/lib/bb/cache.py:566-658` | the verdict is the declared one, and exactly what happens to cache and clean set in each case |
| `RecipeCache.Cache.CacheValid` | `poky/bitbake/lib/bb/cache.py:555-564` | a file is checked once, and the answer is its mark |
| `RecipeCache.Cache.LoadCached` | `poky/bitbake/lib/bb/cache.py:541-553` | loading returns the record of every variant; it succeeds iff all keys are there |
| `RecipeCache.Cache.OthersUntouched` | `poky/bitbake/lib/bb/cache.py:566-670` | checking one colon-free file changes neither the verdict nor the mark of another |
| `RecipeCache.Cache.SelfSettled` | `poky/bitbake/lib/bb/cache.py:566-658` | its own mark is the verdict, against the cache before and after |
| `RecipeCache.Cache.ValidateAll` | `poky/bitbake/lib/bb/cooker.py:2133-2140` | validating any list of colon-free files: every memoised verdict is the fresh one, and valid files are complete |
| `RecipeCache.KeyIsNotFile` | `poky/bitbake/lib/bb/cache.py:368-379` | a variant's key is never another file's name |
| `RecipeCache.LoadAfterValidation` | `poky/bitbake/lib/bb/cooker.py:2250-2253` | every valid file, and no other, loads, with full-length records |
| `RecipeCache.RecordedExactly` | `poky/bitbake/lib/bb/cache.py:566-626` | what parsing recorded in one state of the disk is up to date in another iff the recipe exists, it and its dependencies have their old times, each checksummed file is there or not as before, and the appends are the same |
| `TaskChain.ChainWalk.AddChain` | `poky/bitbake/lib/bb/build.py:1014-1016` | recording the chain adds its tasks and no duplicate |
| `TaskChain.ChainWalk.FollowChain` | `poky/bitbake/lib/bb/build.py:1004-1021` | the walk is fatal iff some chain from here closes on itself before the end, else restores the chain and records exactly the tasks of the chains that arrive |
| `TaskChain.AcyclicNeverCloses` | `poky/bitbake/lib/bb/build.py:1007-1008` | on an acyclic graph the fatal error is unreachable |
| `TaskChain.SelfDependencyIgnored` | `poky/bitbake/lib/bb/build.py:1005-1013` | a task that depends on itself changes neither which chains arrive nor which close on themselves |
| `TaskChain.AcyclicArrives` | `poky/bitbake/lib/bb/build.py:1010-1020` | and every walk to the end is followed |
| `TaskChain.OnChainStep` | `poky/bitbake/lib/bb/build.py:1010-1020` | stepping into a task records exactly the arriving walks through it |
| `TaskChain.TasksBetween` | `poky/bitbake/lib/bb/build.py:996-1023` | no duplicates; on an acyclic graph with another task than the end, exactly the tasks on some path from start to end; in general, fatal iff a chain closes on itself |
| `TaskChain.BetweenIsOnChain` | `poky/bitbake/lib/bb/build.py:996-1023` | on an acyclic graph being recorded is being reachable from the start and reaching the end |
| `Signatures.FollowWave` | `poky/bitbake/lib/bb/data.py:398-402` | one wave tabulates what is missing and collects all dependencies of the wave |
| `Signatures.FollowTask` | `poky/bitbake/lib/bb/data.py:392-403` | the worklist terminates, and the tables become closed under dependency by adding only reachable names |
| `Signatures.GenerateDependencies` | `poky/bitbake/lib/bb/data.py:390-405` | the tables hold exactly the tasks and what they reach, each with its own entry |
| `Signatures.Closure` | `poky/bitbake/lib/bb/data.py:420-428` | `seen` is exactly the transitive closure, and every lookup on the way is defined |
| `Signatures.ClosureFound` | `poky/bitbake/lib/bb/data.py:420-428` | a closed set of reachable names is the closure |
| `Signatures.Sort` | `poky/bitbake/lib/bb/data.py:430` | sorting by character order |
| `Signatures.SortedUnique` | `poky/bitbake/lib/bb/data.py:430` | there is only one sorted list of a set: iteration order cannot show |
| `Signatures.DataOf` | `poky/bitbake/lib/bb/data.py:411-435` | the list that is hashed |
| `Signatures.GenerateDependencyHash` | `poky/bitbake/lib/bb/data.py:407-440` | every task's `taskdeps` is its closure and its hashed list is the one of its sorted closure |
| `Signatures.TaskSignatures` | `poky/bitbake/lib/bb/data.py:390-440` | the tables of the first pass define every lookup of the second |
| `Signatures.ClosureAgrees` | `poky/bitbake/lib/bb/data.py:420-428` | two tables that agree on what a task reaches give it the same closure |
| `Signatures.SignatureIsLocal` | `poky/bitbake/lib/bb/data.py:411-438` | the hashed list depends only on the task's own value and its reachable names and values |
| `Signatures.InputIs` | `poky/bitbake/lib/bb/data.py:411-435` | the hashed list: the own value first, if there is one, then each name in order, right behind it its value, if it has one, and nothing else |
| `Signatures.ChangeShows` | `poky/bitbake/lib/bb/data.py:411-438` | the other direction: a change of the own value or of a single reached value changes the list; changes from values to values change it iff there is one |
| `Signatures.ChangesCancel` | `poky/bitbake/lib/bb/data.py:431-435` | an input: two changes, one from and one to no value, that leave the list as it was |
| `Signatures.LeqExactly` | `poky/bitbake/lib/bb/data.py:430` | character order: a beginning comes before, else the first difference decides |
| `LayerPriority.MinimumPriority` | `poky/bitbake/lib/bb/cooker.py:1131-1147` | the collection loop computes `min_prio` |
| `LayerPriority.MinPrioIsMinimum` | `poky/bitbake/lib/bb/cooker.py:1143-1144` | it is 0 or an explicit priority; with a negative one, or without an explicit 0, it is the least explicit one, or 0 if there is none |
| `LayerPriority.MinPrioOrderIrrelevant` | `poky/bitbake/lib/bb/cooker.py:1132-1147` | unless some explicit priority is 0, some is positive and none is negative, it does not depend on the order of the list |
| `LayerPriority.MinPrioOrderExactly` | `poky/bitbake/lib/bb/cooker.py:1132-1147` | and exactly then two orders of the list can give different values |
| `LayerPriority.ZeroMakesOrderMatter` | `poky/bitbake/lib/bb/cooker.py:1127-1223` | an input: with `a: 0` and `b: 5`, where 0 counts as unset, `a` gets 6 or 1 depending on which is listed last |
| `LayerPriority.RaisedExactly` | `poky/bitbake/lib/bb/cooker.py:1209-1223` | a larger minimum leaves the priorities as they are iff every calculated one is above it already |
| `LayerPriority.OrderMattersExactly` | `poky/bitbake/lib/bb/cooker.py:1127-1223` | when the minimum can vary, the order changes a resulting priority iff some calculated one does not come out above the largest explicit one |
| `LayerPriority.Priorities.CalcLayerPriority` | `poky/bitbake/lib/bb/cooker.py:1209-1219` | the memoising recursion terminates, settles the layer, and unsettles none |
| `LayerPriority.Priorities.CalcAll` | `poky/bitbake/lib/bb/cooker.py:1222-1223` | after the loop the priorities solve the equations |
| `LayerPriority.HandleCollections` | `poky/bitbake/lib/bb/cooker.py:1127-1223` | explicit priorities are kept, every other layer gets 1 + the maximum of `min_prio` and its dependencies' priorities |
| `LayerPriority.SolutionUnique` | `poky/bitbake/lib/bb/cooker.py:1209-1219` | only one assignment does |
| `LayerPriority.OrderIrrelevant` | `poky/bitbake/lib/bb/cooker.py:1132-1223` | when it cannot, the result does not depend on the order of the list |
| `FifoReader.Reader.ReadFifo` | `poky/bitbake/lib/bb/build.py:479-516` | one call drains buffer and data: which events, what is left, and whether a message raised |
| `FifoReader.DrainAppend` | `poky/bitbake/lib/bb/build.py:479-516` | draining leftovers with new data continues where the last drain stopped |
| `FifoReader.DrainIsFraming` | `poky/bitbake/lib/bb/build.py:482-516` | the events are those of the NUL-terminated segments up to the first malformed one; otherwise the buffer is the unterminated tail |
| `FifoReader.FramingIsLossless` | `poky/bitbake/lib/bb/build.py:483` | segments, terminators and tail make up the stream |
| `FifoReader.NoTerminatorInside` | `poky/bitbake/lib/bb/build.py:483` | no segment and no tail holds a terminator |
| `FifoReader.ChunkIndependent` | `poky/bitbake/lib/bb/build.py:478-516` | for every way of cutting the stream into calls, events, failure and buffer are those of the whole stream |
| `FifoReader.ReadChunks` | `poky/bitbake/lib/bb/build.py:478-516` | the same for the run on the heap |
| `FifoMessages.CallRead` | `poky/bitbake/lib/bb/build.py:479-511` | one message of a logging function of the shell (`poky/meta/classes-global/logging.bbclass`) is dispatched to what it is meant to report |
| `FifoMessages.OthersUnrecognised` | `poky/bitbake/lib/bb/build.py:511-512` | and any other command is reported as unrecognised |
| `FifoMessages.CallsRead` | `poky/bitbake/lib/bb/build.py:478-516` | whatever calls a task makes, the reader reports all of them, in order, and nothing is left over |
| `FifoMessages.ReportAll` | `poky/bitbake/lib/bb/build.py:478-516` | on the heap, for every way of cutting what was written into reads |
| `DiskMonitor.Monitor.TakeAction` | `poky/bitbake/lib/bb/monitordisk.py:217-226` | the run queue is told once, and never for WARN |
| `DiskMonitor.Monitor.CheckSpaceOf` | `poky/bitbake/lib/bb/monitordisk.py:211-226` | the space branch of one sample |
| `DiskMonitor.Monitor.CheckInodeOf` | `poky/bitbake/lib/bb/monitordisk.py:231-256` | the inode branch, with its exemption for file systems without an inode limit |
| `DiskMonitor.Monitor.Check` | `poky/bitbake/lib/bb/monitordisk.py:193-256` | one sample of every key changes each key by its own sample only |
| `DiskMonitor.Monitor.Run` | `poky/bitbake/lib/bb/monitordisk.py:193-258` | over any run of samples, the state and the messages of each key |
| `DiskMonitor.FinishedAtMostOnce` | `poky/bitbake/lib/bb/monitordisk.py:199-256` | over a run and both branches the queue is stopped exactly once if some sample was critical and the action is not WARN, and never otherwise |
| `DiskMonitor.SpaceWarningsBounded` | `poky/bitbake/lib/bb/monitordisk.py:211-215` | while space is left, n warnings mean that the last remembered space plus (n-1)(interval+1) is below the minimum |
| `DiskMonitor.WarningBound` | `poky/bitbake/lib/bb/monitordisk.py:211-215` | hence (n-1)(interval+1) < minimum |
| `DiskMonitor.WarningsBounded` | `poky/bitbake/lib/bb/monitordisk.py:211-215` | for every run: at most k warnings, and k+1 more for each sample with no space left, where k steps of more than the interval make up the minimum |
| `DiskMonitor.FullDiskWarnsForever` | `poky/bitbake/lib/bb/monitordisk.py:213-215` | with 0 bytes left every sample warns, so there is no bound without counting such samples |
| `DiskMonitor.StopsAsConfigured` | `poky/bitbake/lib/bb/monitordisk.py:217-256` | over any run STOPTASKS stops the queue without and HALT with an immediate end, and WARN not at all |
| `DiskMonitor.WarningsDrop` | `poky/bitbake/lib/bb/monitordisk.py:211-244` | over any run, of space and of inodes: each warning is for a drop by more than the interval since the last one, unless that was at 0 |
| `DiskMonitor.SilentAfterStop` | `poky/bitbake/lib/bb/monitordisk.py:213-244` | once the queue was stopped there are no further warnings, unless the last one was at 0 |
| `DiskMonitor.NoLimitNoInodes` | `poky/bitbake/lib/bb/monitordisk.py:235-240` | a file system that reported that it has no inode limit is never warned of for inodes again |
| `DiskMonitor.LimitLifted` | `poky/bitbake/lib/bb/monitordisk.py:232-240` | and that happens iff inodes are below the minimum and the file system says so |
| `DiskMonitor.NotMonitored` | `poky/bitbake/lib/bb/monitordisk.py:211-256` | without minima, or with minima of 0, there are no warnings and nothing is stopped |
| `Relocation.WriteContents` | `poky/scripts/relocate_sdk.py:108-111` | what was written reads back, every other byte of the file is kept, and a gap before it is zero |
| `Relocation.NumberOfWord` | `poky/scripts/relocate_sdk.py:38-42` | the two byte orders of a 32-bit field |
| `Relocation.FindNul` | `poky/scripts/relocate_sdk.py:141` | the first NUL at or after a position, or -1 iff there is none |
| `Relocation.Strip` | `poky/scripts/relocate_sdk.py:158` | `rstrip` removes exactly the trailing NULs |
| `Relocation.SubstituteUnmarked` | `poky/scripts/relocate_sdk.py:157` | text without the marker is kept |
| `Relocation.SubstituteFirst` | `poky/scripts/relocate_sdk.py:157` | text before the first marker is kept, the marker becomes the new prefix, and the rest is treated alike |
| `ElfHeader.ArchExactly` | `poky/scripts/relocate_sdk.py:32-50` | an identification is accepted as a kind of file iff it looks like a proper one of that kind in its first byte and its class, and is little endian iff its byte order is; the rest of the magic number is not looked at, and a proper one is always accepted |
| `ElfHeader.HeaderRead` | `poky/scripts/relocate_sdk.py:32-69` | round trip: of a header that was encoded for any class, byte order and table positions, exactly those are read |
| `ElfHeader.SectionRead` | `poky/scripts/relocate_sdk.py:115-127` | round trip: of a section header of either class and byte order, with all ten fields arbitrary, exactly name, type, offset and size are read |
| `ElfHeader.SegmentRead` | `poky/scripts/relocate_sdk.py:72-90` | round trip: of a program header, with all eight fields arbitrary, exactly type, offset and size in the file are read |
| `ElfHeader.OtherSizesRefused` | `poky/scripts/relocate_sdk.py:80-90` | a row of any other size is refused |
| `ElfHeader.SectionTableRead` | `poky/scripts/relocate_sdk.py:133-139` | row i of the section table is read from i rows behind its start |
| `ElfHeader.SegmentTableRead` | `poky/scripts/relocate_sdk.py:78-90` | and so is row i of the program header table |
| `Relocation.RowsIsProduct` | `poky/scripts/relocate_sdk.py:78-80` | where i rows take i times the size of one |
| `ElfHeader.NameRead` | `poky/scripts/relocate_sdk.py:141` | a name in the string table is read from where it starts up to its NUL |
| `ElfHeader.SectionSelects` | `poky/scripts/relocate_sdk.py:143-184` | what is rewritten or noted for a section, by its type and its name in the string table |
| `ElfHeader.ChunksExactly` | `poky/scripts/relocate_sdk.py:168-184` | the fixed-size paths of a section: as many as fit, each 4096 bytes behind the one before |
| `ElfHeader.NativeExactly` | `poky/scripts/relocate_sdk.py:96-100` | which loader paths are left alone; `/usr/lib/` is not among them |
| `ElfHeader.LoaderFound` | `poky/scripts/relocate_sdk.py:78-112` | the first row of type 3 is taken for the loader's |
| `Relocation.ChangeInterpreter` | `poky/scripts/relocate_sdk.py:72-112` | the loop over the program headers, with all its exits, computes `Interpreter` on any file |
| `Relocation.ChangeSegment` | `poky/scripts/relocate_sdk.py:92-111` | one interpreter segment: native paths and empty segments are left, a path that does not fit is refused, else written and padded |
| `Relocation.WriteBack` | `poky/scripts/relocate_sdk.py:157-167` | one text: rewritten and padded in its slot, or refused; the cursor ends behind the slot |
| `Relocation.ChangePrefixes` | `poky/scripts/relocate_sdk.py:168-184` | the 4096-byte loop reads each path from where the last write ended, on any file |
| `Relocation.ChangeSection` | `poky/scripts/relocate_sdk.py:133-184` | what one section header leads to, for each of the four section names and any other |
| `Relocation.ChangeRows` | `poky/scripts/relocate_sdk.py:133-184` | the loop over the section headers, including malformed headers, and what it notes of the library directories |
| `Relocation.RewriteDirs` | `poky/scripts/relocate_sdk.py:186-201` | the loop over the library paths builds the new paths up to the first empty one, and their lengths, or fails iff one cannot be packed |
| `Relocation.LengthAt` | `poky/scripts/relocate_sdk.py:198-201` | the k-th length that is written is the length of the k-th new path |
| `Relocation.ChangeDirs` | `poky/scripts/relocate_sdk.py:185-209` | writing the directories and their lengths back, or raising; computes `WithDirs` on any file |
| `Relocation.ChangeSections` | `poky/scripts/relocate_sdk.py:114-209` | the whole of `change_dl_sysdirs` on any file, raising included |
| `Relocation.Relocate` | `poky/scripts/relocate_sdk.py:226-264` | one executable; a run that reports an outcome has kept the file size |
| `RelocationFrame.RewriteAllFrame` | `poky/scripts/relocate_sdk.py:155-184` | bytes apart from the slots are kept however far the rewriting gets |
| `RelocationFrame.RewriteAllExact` | `poky/scripts/relocate_sdk.py:155-184` | disjoint slots are all rewritten from their own old text iff every new text is shorter than its slot |
| `RelocationFrame.SectionsArePlan` | `poky/scripts/relocate_sdk.py:133-184` | reading headers while rewriting slots that lie elsewhere is rewriting the slots of the original table |
| `RelocationFrame.DirsArePlan` | `poky/scripts/relocate_sdk.py:133-151` | and what is noted of the library directories on the way is what the file said at the start |
| `RelocationFrame.DirsExact` | `poky/scripts/relocate_sdk.py:185-209` | if the new directories and their lengths fit, they end up in their sections, and the length of the file is kept; it raises iff `.sysdirslen` is missing or a length cannot be packed |
| `RelocationFrame.DirsKeep` | `poky/scripts/relocate_sdk.py:185-209` | and every slot apart from those sections is kept |
| `RelocationFrame.DirsKeepExactly` | `poky/scripts/relocate_sdk.py:185-209` | fitting or not, wherever the two sections lie: the length and every byte outside them are kept iff what runs over their ends, and not under the lengths or into the other section, is what the file says there already |
| `RelocationFrame.DirsReadBackExactly` | `poky/scripts/relocate_sdk.py:185-209` | the lengths always read back; the directories iff they agree with the lengths written over them |
| `RelocationFrame.CrowdedDirs` | `poky/scripts/relocate_sdk.py:185-209` | an input with adjacent sections: the NUL after the only path is lost under its length, and nothing else of the file changes |
| `RelocationFrame.InterpreterIsPlan` | `poky/scripts/relocate_sdk.py:78-112` | the first loop writes the loader slot if there is one and the path fits, and says whether it fits |
| `RelocationFrame.RelocationExact` | `poky/scripts/relocate_sdk.py:72-209` | on a well-formed file whose new library directories fit: exits iff a section text does not fit, else raises iff the directories do, else reports whether the loader fits; keeps the length and every byte outside the slots and directory sections; every slot holds its own padded new text, and the directories are written |
| `RelocationFrame.RewrittenText` | `poky/scripts/relocate_sdk.py:157-184` | each rewritten slot ends in NUL, and up to trailing NULs is the substituted original |

## Left out

- SharedRemovals.RightExactly: both directions for stores on which no variant hands removals that others left on to what it is itself a variant of, where the condition is not enough (`HandedOn.SharersAreNotAll`), and spoiling removals do not refer to the variable they spoil. The first holds if no variant has a variant itself (`SharedRemovals.NoChainsNoHandingOn`). That harmless stores are right in every order (`SharedRemovals.HarmlessSuffices`) needs neither.
- SharedRemovals.HarmlessNeeded: the pairs of the second kind are excluded, since reading the variable then raises (`SharedRemovals.CrossedRead`); that no order of reads whatever gives it a wrong value is not proved.
- FlatRuns.ReplyRight: a removal set that grows while it is iterated over raises; on a harmless store on which removals spill that is not excluded, so only values are promised there.
- OverrideRanks.TakenExactly: for suffixes that do not repeat an override; with repetitions the listing order can decide, as `OverrideRanks.DoubleFirst` and `OverrideRanks.SingleFirst` show.
- FifoMessages.CallRead: `printf %b` also interprets backslashes in the text, which is not modelled, and texts hold no NUL.
- CopyRuns.RunOnCopy: OVERRIDES is fixed during a run, and the parent is not written after the copy.
- SmartData.DataSmart.SetVar: does not model rename warnings, the variable history, `__exportlist`, or values that are not text.
- SmartData.DataSmart.SetVarFlag: does not model `__exportlist`, rename warnings, the history, or the update of override variables.
- CowDict.CowClass.SetListItem: for a list object that neither the dictionary nor an ancestor holds; one object under two keys would change under both.
- RecipeParser.CookerParser.ParseNext: does not model the counter of skipped recipes, the skip list, or what is added to the recipe caches.
- RecipeParser.CookerParser.Shutdown: does not model draining the queue, telling the workers to quit, or joining them.
- RecipeCache.Cache.ChecksumsValid: takes the checksum string as a list of files and flags; splitting it at `:True` and `:False` is not modelled.
- Overrides.Strip: `replace` is modelled on whole components, so overrides of which one is a string prefix of another are not covered.
- TaskChain.TasksBetween: every task has a `deps` flag, as `addtask` gives it.
- Signatures.GenerateDependencyHash: every task has an entry in the tables; a missing one is a KeyError in the code. The hash itself, and that joining the list could make two lists equal, are not modelled.
- LayerPriority.HandleCollections: the dependencies are acyclic and enabled; on a cycle the recursion of the code does not end.
- ExtrasMerge.MultiProcessCache.MergeData: the source has as many parts as the cache, as all writers of one version have.
- ParserProgress.CanFinish: says that a clean finish stays possible; that it comes about depends on scheduling and timing, which are not modelled.
- RelocationFrame.RelocationExact: on well-formed files, whose slots are disjoint, and when the new library directories fit, which the script does not check; on any file `Relocation.Relocate` is proved to compute `Relocated`, raising and overruns included.
- `need_overrides` and `_setvar_update_overridevars`: the self-referential recomputation of OVERRIDES.
- `${@python}` expansion, `contains` tracking, `noweakdefault` and `parsing` reads, `get_hash`, `expandVarref`, `renameVar`.
- `delVarFlags` and direct calls of `initVar` on a copy, which can show or hide a parent's entry.
- References nested in references: `${A${B}}` is not split into characters.
- `COWSetMeta`, `__revertitem__`, nested copy-on-write values, and keys that themselves end in the suffix of list names.
- CowKeys.Iterate: `dir` is taken to list each attribute of the class and its bases once, in some order; the dictionary is not changed by the consumer meanwhile.
- Worker processes killed while they write to the queue, the joining of processes and threads, signals, profiles.
- Crashes of a saver in the middle of writing; the merger meets leftovers of such crashes, but more than one cache version is not modelled.
- `FileChecksumCache.merge_data` and the deduplicating store of equal objects in `_restore`, which only saves memory.
- LAYERDEPENDS and LAYERRECOMMENDS parsing and invalid priority numbers.
- Backslashes in the new prefix of the relocation, file permissions, and seeks too large for the file system.
- Log and event texts: an event is modelled by what it reports, not by its wording.
