# BitBake: verified models

Models of the parts of BitBake where state, aliasing, concurrency or bytes make the code hard to trust,
with proofs. `dafny verify dfyconfig.toml` checks everything (Dafny 4.11).

- **The datastore** (`Strings`, `DataTypes`, `OverrideChoice`, `OverrideIndex`, `Evaluation`,
  `ReadModes`, `ActiveOverrides`, `Writes`, `WriteReads`, `DataDicts`, `DataSmart`, `DataRuns`). `Evaluation` says what a read means
  without any cache, `Writes` what a write does to the contents, both as functions. `DataSmart` is the class:
  layers of shared dictionaries and lists, an override index whose lists are shared with copies, an override
  list found by iteration, and a cache. Its methods are proved against the functions, for acyclic references.
  Names are lists of components, values are lists of characters and references.
- **Parallel parsing and the caches** (`ParseWorkers`, `SiggenStream`, `CacheMerge`). Protocols as steps of
  processes with an inductive invariant, over every interleaving.
- **Graphs** (`Signatures`, `TasksBetween`, `LayerPriority`). Worklist closures, a search with a shared chain
  and a memoised recursion, as methods, against reachability, paths, and the equations for priorities.
- **The copy-on-write dictionary** (`CowDict`), levels on the heap against nearest-ancestor lookup.
- **Bytes** (`ByteStrings`, `Fifo`, `Inotify`, `Relocate`, `RelocateRun`, `ElfLayout`, `RelocateElf`). Framing, records, and patching ELF files in place (the layouts of
  System V ABI, chapter 4 "Sections" and chapter 5 "Program Header").
- **The disk monitor** (`DiskMonitor`), with bounds over all runs.

`Options` is the type of values that may be missing.

Where the code does not do what its documentation or its tests suggest, the model follows the code:

- An active definition can be lost, when one override component is a prefix of another (`ChosenIff` says when).
- An operation on an unqualified lower-case name puts a truncated name into the index (`ApplySoundIff`).
- A repeated override counts at its first place in OVERRIDES (`RepeatedOverrideLoses`).
- A variable that OVERRIDES reads through another one is not recorded as its input, so a write of it leaves a list
  in force that is out of date (`IndirectInputMissed`). delVar and delVarFlag never drop the list, whatever they
  delete (`DeletionMissed`; `ListKept` says for every write when the list is right).
- An expanding read with `noweakdefault` or `parsing` stores its result where plain reads look (`ReadAs`).
- A merge that meets a file cut in the middle raises, and what it had taken in before is on disk nowhere (`RaiseLosesOnDisk`).
- The text of a signature does not separate names from values (`TextIsAmbiguous`), but it does separate values (`TextSeparatesIff`).
- An explicit layer priority of 0 counts as none, and makes the order of layers matter (`ZeroIsNotKept`).
- A deleted key of the copy-on-write dictionary stays deleted, and a level that has read a list keeps its copy (`ReadsAsDictionariesIff`).
- A message that cannot be taken apart stays in the FIFO's buffer and in front of all others (`NothingAfterRaise`). In the
  program the exception ends the function that runs the shell task, so the buffer is not read again.
- Without any free space the disk monitor warns at every check (`NoSpaceWarnsAlways`).
- Coalescing takes an event without a name and one on a file named by two quotes for the same (`TextSameIff`).
- A name that is not UTF-8 makes the reading of inotify events raise, and the rest of the buffer is lost (`ParseAllEncoded`).
- The lengths in `.sysdirslen` are little-endian in every binary (`ReadsPackedIff`).

## Model

| member | source | states |
|---|---|---|
| DataStore.DataSmart.NeedOverrides | sources/poky/bitbake/lib/bb/data_smart.py:488-510 | ends normally exactly if an override list is in force or the iteration of OVERRIDES settles within its five rounds; then that fixpoint is in force and the cache is coherent |
| DataStore.DataSmart.OverridesRound | sources/poky/bitbake/lib/bb/data_smart.py:495-508 | one round moves the override list one iterate on, because its first read is answered by the cache entry that the round before left |
| ActiveOverrides.SettleIff | sources/poky/bitbake/lib/bb/data_smart.py:488-510 | with F(O) the value of OVERRIDES under O: settling means that F^(k+1)([]) = F^k([]) for some k in 1..5, and the result is the fixpoint that the sequence reaches |
| ActiveOverrides.SettleFrame | sources/poky/bitbake/lib/bb/data_smart.py:488-510 | what OVERRIDES cannot reach has no influence on the override list |
| DataStore.DataSmart.ReadOverride | sources/poky/bitbake/lib/bb/data_smart.py:791-821 | the override branch of a read gives the text of the definition that evaluation without a cache chooses |
| DataStore.DataSmart.RawValue | sources/poky/bitbake/lib/bb/data_smart.py:786-855 | an unexpanded read on the heap, for every noweakdefault and parsing, is the unexpanded value of the contents |
| DataStore.DataSmart.ExpandWithRefs | sources/poky/bitbake/lib/bb/data_smart.py:451-483 | substituting until nothing changes terminates on acyclic references, and gives the recursive expansion and all variables it referred to |
| DataStore.DataSmart.RemovedWords | sources/poky/bitbake/lib/bb/data_smart.py:863-878 | the :remove loops take out exactly the words that evaluation without a cache takes out |
| DataStore.DataSmart.Evaluate | sources/poky/bitbake/lib/bb/data_smart.py:786-896 | on a cache miss, for every noweakdefault and parsing, the record computed is the one of that mode; it is stored under the name alone, on top of a coherent cache |
| DataStore.DataSmart.GetVar | sources/poky/bitbake/lib/bb/data_smart.py:771-784 | a read, cached or not, is the value of the contents; it only adds cache entries, for variables that the read can reach |
| DataStore.DataSmart.GetParsed | sources/poky/bitbake/lib/bb/data_smart.py:780-781 | the same for reads with retparser and without expand |
| DataStore.DataSmart.ReadVar | sources/poky/bitbake/lib/bb/data_smart.py:658-659 | getVar between any calls: the value under the override list in force, right or not, or else the one that settles; it keeps that list, and fails only if there is none |
| DataStore.DataSmart.ReadFlag | sources/poky/bitbake/lib/bb/data_smart.py:771-784 | the same for getVarFlag of other flags |
| DataStore.DataSmart.ReadUnexpanded | sources/poky/bitbake/lib/bb/data_smart.py:771-901 | the same for unexpanded reads, with noweakdefault and parsing; while parsing nothing is stored and no list needed; otherwise a value that is not empty and has removals leaves a list in force, although nothing is removed |
| DataStore.DataSmart.ReadAs | sources/poky/bitbake/lib/bb/data_smart.py:783-896 | the same for expanding reads with noweakdefault and parsing: on a hit the mode is ignored; on a miss the cache stays coherent exactly if the mode does not matter to the variable |
| DataStore.StoredCoherentIff | sources/poky/bitbake/lib/bb/data_smart.py:895-896 | a record stored for a variable keeps the cache coherent exactly if it is what evaluation without a cache gives |
| DataStore.DataSmart.SetVar | sources/poky/bitbake/lib/bb/data_smart.py:542-639 | for recorded, unrecorded and unread variables, with keywords and parsing: the contents are exactly those of the pure write; a list in force stays if the variable is not recorded, and is then right exactly if it is what OVERRIDES settles on now, as it is if OVERRIDES cannot reach the variable; if it is recorded, list and cache are dropped; when it fails |
| DataStore.DataSmart.SettleList | sources/poky/bitbake/lib/bb/data_smart.py:1048-1048 | need_overrides from outside: afterwards the list is the one in force, or else the one that settles; it fails exactly if neither is there |
| DataStore.DataSmart.UpdateOverrideVars | sources/poky/bitbake/lib/bb/data_smart.py:625-638 | terminates; what the new value refers to is recorded, and beyond that only unset variables |
| DataStore.DataSmart.DelVar | sources/poky/bitbake/lib/bb/data_smart.py:713-738 | for every variable: the contents of the pure write; a list in force always stays, and is right exactly if OVERRIDES still settles on it |
| DataStore.DataSmart.SetVarFlag | sources/poky/bitbake/lib/bb/data_smart.py:740-769 | the same, but a weak default of a recorded variable drops list and cache |
| DataStore.DataSmart.DelVarFlag | sources/poky/bitbake/lib/bb/data_smart.py:903-918 | the same as for delVar, weak defaults of recorded variables included |
| DataStore.DataSmart.AppendVar | sources/poky/bitbake/lib/bb/data_smart.py:703-706 | the same as for setVar |
| DataStore.DataSmart.PrependVar | sources/poky/bitbake/lib/bb/data_smart.py:708-711 | the same as for setVar |
| DataStore.DataSmart.CreateCopy | sources/poky/bitbake/lib/bb/data_smart.py:983-1003 | a copy has the contents of its source and no object of its own but an empty layer; it is valid even if the list in force at its source is out of date |
| DataStore.DataSmart.UpdateOverrides | sources/poky/bitbake/lib/bb/data_smart.py:640-656 | registering on lists shared with a copy gives the pure registration, and writes no shared list |
| DataStore.DataSmart.ForgetOverrides | sources/poky/bitbake/lib/bb/data_smart.py:724-738 | the same for the loop of delVar |
| DataDicts.Layer.Find | sources/poky/bitbake/lib/bb/data_smart.py:517-526 | the dictionary found through the chain of copies is that of the variable as seen from this level |
| DataDicts.Layer.MakeShadowCopy | sources/poky/bitbake/lib/bb/data_smart.py:528-537 | the shadow copy changes no variable that can be seen, here or below |
| DataStore.WriteKeeps | sources/poky/bitbake/lib/bb/data_smart.py:542-769 | a write apart from all that OVERRIDES can reach keeps the index sound, references acyclic, and what OVERRIDES settles on |
| DataStore.CoherentFrame | sources/poky/bitbake/lib/bb/data_smart.py:542-769 | cache entries for variables that a write cannot influence stay right |
| DataStore.CacheIs | sources/poky/bitbake/lib/bb/data_smart.py:555-623 | entries cached in the middle of setVar, when the override list is needed, are right after it too |
| DataRuns.RunSteps | sources/poky/bitbake/lib/bb/data_smart.py:542-918 | over any interleaving of reads of every kind and of writes, each to a variable that OVERRIDES cannot reach or to a recorded one, so that the override list changes along the run: every read, cached or not, gives what evaluation without a cache gives for the writes so far under the list that settles then; the invariant (with a coherent cache) holds and the contents are the writes in order; it fails only if OVERRIDES does not settle at some moment; no datastore whose objects cannot be written changes in contents, overrides or cache |
| DataRuns.RunOnCopy | sources/poky/bitbake/lib/bb/data_smart.py:983-1003 | the same for a run on a fresh copy: its source and all other datastores, at any depth, keep contents, overrides and cache; it fails only if OVERRIDES does not settle at some moment |
| DataRuns.ReadBoth | sources/poky/bitbake/lib/bb/data_smart.py:983-1003 | a fresh copy reads the same as its source, for variables, flags and unexpanded reads, whether OVERRIDES settles or not |
| DataRuns.WeakDefaultForgotten | sources/poky/bitbake/lib/bb/data_smart.py:823-896 | two calls on a new datastore, which both succeed, leave None in the cache where plain reads find it, for a variable with a weak default |
| DataRuns.IndirectInputMissed | sources/poky/bitbake/lib/bb/data_smart.py:625-638 | for all texts t1, t2 without references: after B = t1, A = ${B}, OVERRIDES = ${A} and need_overrides the list in force is t1 split at colons; B = t2 leaves it in force while OVERRIDES settles on t2 split, so the invariant holds exactly if the two lists are equal |
| DataRuns.DeletionMissed | sources/poky/bitbake/lib/bb/data_smart.py:713-738 | for all t without references: OVERRIDES, read through A and B as t, is deleted while its list is in force; the list stays, and the invariant holds exactly if it was the list of an empty value |
| DataRuns.OverridesAsWritten | sources/poky/bitbake/lib/bb/data_smart.py:488-510 | for any non-empty list of colon-free strings: after a plain setVar of OVERRIDES to them, joined with colons, they are the override list in force, in that order |
| DataRuns.UnsetAsWritten | sources/poky/bitbake/lib/bb/data_smart.py:108-118 | a reference to an unset variable stands in the override list as it was written, ${name}, between what was before and behind it |
| Evaluation.ExpandIdempotent | sources/poky/bitbake/lib/bb/data_smart.py:451-483 | expanding a second time changes nothing, if references are acyclic |
| Evaluation.ExpandSettles | sources/poky/bitbake/lib/bb/data_smart.py:451-483 | after expansion only references to unset variables are left |
| Evaluation.StripExact | sources/poky/bitbake/lib/bb/data_smart.py:880-891 | removal takes out the words named, keeps every other word in order and all white space |
| Evaluation.ValueFrame | sources/poky/bitbake/lib/bb/data_smart.py:771-901 | two stores that agree on what a variable can reach give it the same value |
| Evaluation.RankingIrrelevant | sources/poky/bitbake/lib/bb/data_smart.py:771-901 | the value does not depend on how references are shown to be acyclic |
| ReadModes.NoWeakDefaultIff | sources/poky/bitbake/lib/bb/data_smart.py:823-855 | a read that leaves the weak default out gives another unexpanded value exactly under the stated guard |
| ReadModes.ParsingSameIff | sources/poky/bitbake/lib/bb/data_smart.py:786-855 | so does a read while parsing: exactly if the weak default is left out, or operations add text to the own one, or the chosen definition, with the text that operations put around it, is not the own one |
| ReadModes.RecordSameIff | sources/poky/bitbake/lib/bb/data_smart.py:857-896 | the record that a read of any mode stores is that of a plain read exactly if the mode does not matter, removals included |
| Writes.ApplySoundIff | sources/poky/bitbake/lib/bb/data_smart.py:542-769 | a write keeps the override index sound exactly if it is not an operation on an unqualified name that starts like an override |
| Writes.ApplyApart | sources/poky/bitbake/lib/bb/data_smart.py:542-769 | every write leaves names that are no colon-prefix or colon-extension of its variable alone |
| Writes.RunFrame | sources/poky/bitbake/lib/bb/data_smart.py:542-769 | over any run of writes, such names keep their unexpanded reads |
| Writes.SetVarReads | sources/poky/bitbake/lib/bb/data_smart.py:591-623 | after a plain setVar the unexpanded read is the new text, whatever the overrides |
| Writes.DelVarReads | sources/poky/bitbake/lib/bb/data_smart.py:713-738 | a deleted variable reads as unset, and no list of the index mentions it |
| Writes.AppendVarReads | sources/poky/bitbake/lib/bb/data_smart.py:703-711 | appendVar puts its text behind the unexpanded read, prependVar before it |
| WriteReads.KeywordIsFirst | sources/poky/bitbake/lib/bb/data_smart.py:32-33 | the operation keyword of a name is the first append, prepend or remove with no capital letter behind it |
| WriteReads.OperationReads | sources/poky/bitbake/lib/bb/data_smart.py:565-588 | setVar on v:append:a:b puts the text behind the unexpanded read of v, on v:prepend:a:b before it, under exactly the lists with all of the overrides; :remove changes no unexpanded read |
| WriteReads.RemoveReads | sources/poky/bitbake/lib/bb/data_smart.py:863-893 | setVar on v:remove:a:b: under exactly those lists the value of v loses the words of the expanded text, keeps all others in order and all white space, whatever was removed before |
| WriteReads.RemovesNamedWords | sources/poky/bitbake/lib/bb/data_smart.py:863-893 | spelled out: of words between blanks, tabs and line ends, exactly the ones that the removal names are taken out, and each gap stays |
| WriteReads.WhiteSpaceIs | sources/poky/bitbake/lib/bb/data_smart.py:36-36 | the characters at which values are split into words, one by one |
| WriteReads.PlainSetReads | sources/poky/bitbake/lib/bb/data_smart.py:591-623 | a plain setVar: the variable holds the text and no operations; its definitions by overrides in the list are empty and read as unset, all others and all other variables stay |
| WriteReads.ParsingSetReads | sources/poky/bitbake/lib/bb/data_smart.py:591-623 | while parsing, a plain setVar only exchanges the text: operations and definitions by override stay |
| WriteReads.QualifiedReads | sources/poky/bitbake/lib/bb/data_smart.py:640-656 | setVar on v:c makes v read as the text under exactly the lists with c, if c starts with a lower-case letter or a digit, and never otherwise |
| WriteReads.SetVarFlagReads | sources/poky/bitbake/lib/bb/data_smart.py:740-769 | that flag of that variable reads as the text, and every other flag as before |
| WriteReads.DelVarFlagReads | sources/poky/bitbake/lib/bb/data_smart.py:903-918 | that flag is unset, and every other reads as before |
| WriteReads.WeakDefaultReads | sources/poky/bitbake/lib/bb/data_smart.py:823-827 | a weak default is what a variable with nothing else reads as, and a read without it finds nothing |
| WriteReads.ExpandedInPlace | sources/poky/bitbake/lib/bb/data_smart.py:451-483 | a reference is replaced by the value at its place, or stays there if the variable is unset; text without references stays |
| OverrideIndex.UpdateSoundIff | sources/poky/bitbake/lib/bb/data_smart.py:640-656 | registration keeps every entry [r, o] of v with r = v:o and unique exactly if the name has a colon or does not start like an override; otherwise the truncated name is registered |
| OverrideIndex.UpdateAt | sources/poky/bitbake/lib/bb/data_smart.py:640-656 | the lists of exactly the prefixes reached gain the entry |
| OverrideIndex.UpdateRegisters | sources/poky/bitbake/lib/bb/data_smart.py:640-656 | the entry for a qualified name is in the list of each prefix reached |
| OverrideIndex.ForgetSound | sources/poky/bitbake/lib/bb/data_smart.py:713-738 | delVar leaves no entry for its variable in any list, and the index sound |
| OverrideChoice.ChooseOverride | sources/poky/bitbake/lib/bb/data_smart.py:791-821 | the loops over active, with deletion and rewriting of keys while they are gone through, terminate and choose what the pure resolution chooses |
| OverrideChoice.VisitKeys | sources/poky/bitbake/lib/bb/data_smart.py:807-815 | one pass over a snapshot of the keys is the pure pass |
| OverrideChoice.ChosenIsActive | sources/poky/bitbake/lib/bb/data_smart.py:791-821 | whatever is chosen is a candidate with all its override components active |
| OverrideChoice.ChosenIff | sources/poky/bitbake/lib/bb/data_smart.py:791-821 | a definition is chosen exactly if the key of some active one is an override, or becomes one when overrides at its end are erased |
| OverrideChoice.ActiveIsChosen | sources/poky/bitbake/lib/bb/data_smart.py:791-821 | so if one active candidate has no component that is a prefix of another of its components, one is chosen |
| OverrideChoice.HiddenComponentLosesDefinition | sources/poky/bitbake/lib/bb/data_smart.py:808-811 | otherwise it can be lost: for all x, a, b the candidate x:ab:a is, unless xb is an override by chance |
| OverrideChoice.EraseJoin | sources/poky/bitbake/lib/bb/data_smart.py:811-811 | erasing an override from a joined key drops exactly the components equal to it |
| OverrideChoice.LastFirstOccurrenceWins | sources/poky/bitbake/lib/bb/data_smart.py:803-815 | with single-component candidates the winner is the active one whose first occurrence in OVERRIDES is furthest right |
| OverrideChoice.RightmostWins | sources/poky/bitbake/lib/bb/data_smart.py:803-815 | with a duplicate-free OVERRIDES the rightmost active override wins |
| OverrideChoice.RepeatedOverrideLoses | sources/poky/bitbake/lib/bb/data_smart.py:803-815 | with a repeated override it need not |
| OverrideChoice.LaterDefinitionWins | sources/poky/bitbake/lib/bb/data_smart.py:791-815 | when two keys become the same, the definition made later is used |
| ParseWorkers.EachJobOnce | sources/poky/bitbake/lib/bb/cooker.py:2055-2081 | in every interleaving each job is in exactly one of job lists, in hand, pending, queue, consumed, failed or drained |
| ParseWorkers.AllRecipesParsed | sources/poky/bitbake/lib/bb/cooker.py:2255-2276 | with a worker and no kill, the consumer ends normally only with every job parsed, and never with the error |
| ParseWorkers.ConsumedWereParsed | sources/poky/bitbake/lib/bb/cooker.py:2255-2276 | in every interleaving, what is taken for parsed was parsed without an exception, and what counts as failed with one |
| ParseWorkers.OneJobFinishes | sources/poky/bitbake/lib/bb/cooker.py:2255-2276 | a run with one worker and one job ends normally, with the job parsed |
| ParseWorkers.ErrorMeansKilled | sources/poky/bitbake/lib/bb/cooker.py:2275-2276 | the error implies that some worker was killed |
| ParseWorkers.SwappedOrderLosesResult | sources/poky/bitbake/lib/bb/cooker.py:2257-2273 | reading the queue before reaping would lose a result |
| ParseWorkers.NoWorkersNoParse | sources/poky/bitbake/lib/bb/cooker.py:2255-2276 | without a worker the error is reached |
| ParseWorkers.KilledWorkerGivesError | sources/poky/bitbake/lib/bb/cooker.py:2257-2276 | one killed worker is enough for the error |
| ParseWorkers.StartHoldsAll | sources/poky/bitbake/lib/bb/cooker.py:2163-2171 | the chunks given to the workers hold every job as often as the list does |
| SiggenStream.SiggenRecipeInfo.SaveDeps | sources/poky/bitbake/lib/bb/cache.py:289-304 | the loop over a dictionary is the pure encoder |
| SiggenStream.SiggenRecipeInfo.RestoreDeps | sources/poky/bitbake/lib/bb/cache.py:306-326 | the loop over slots is the pure decoder of that process; other processes' numbers stay; when it raises KeyError |
| SiggenStream.RoundTrip | sources/poky/bitbake/lib/bb/cache.py:289-326 | a dictionary saved and restored comes back, and the receiver's numbers stay the inverse of the sender's |
| SiggenStream.SentInFullOnce | sources/poky/bitbake/lib/bb/cache.py:294-303 | a value travels in full exactly at its first occurrence since the reset |
| SiggenStream.NumberedInOrder | sources/poky/bitbake/lib/bb/cache.py:294-303 | values are numbered from 1 in the order in which they travel, without gaps |
| SiggenStream.StreamRoundTrip | sources/poky/bitbake/lib/bb/cache.py:281-338 | for any processes and any interleaving: no unknown number, dictionaries received are the first ones sent, in order and unchanged, and restore_map is the inverse of what was delivered |
| SiggenStream.ResetLosesNumbers | sources/poky/bitbake/lib/bb/cache.py:281-287 | a receiver that resets in mid-stream fails |
| CacheMerge.MergeData | sources/poky/bitbake/lib/bb/cache.py:897-901 | merging in place: what was there stays, the rest is added, table by table |
| CacheMerge.NeverOverwritten | sources/poky/bitbake/lib/bb/cache.py:877-895 | in every interleaving a process about to open its file overwrites none, and no two write one file |
| CacheMerge.NeverHalfRead | sources/poky/bitbake/lib/bb/cache.py:903-929 | the merger meets an unfinished file only if its writer died, and nobody saves while it runs |
| CacheMerge.NoCrashNoOrphans | sources/poky/bitbake/lib/bb/cache.py:869-895 | without a crash there are no such files |
| CacheMerge.NothingLost | sources/poky/bitbake/lib/bb/cache.py:869-936 | every committed key is always in a finished file or in the table; when the merger is done no file is left and all keys are in the table, and nothing else |
| CacheMerge.AllOnDisk | sources/poky/bitbake/lib/bb/cache.py:869-936 | as long as no merge raises, whatever was committed is on disk whenever no merge is under way: in the cache that the run started with, in the one written since, or in a finished file |
| CacheMerge.WrittenOnlyWithData | sources/poky/bitbake/lib/bb/cache.py:903-936 | a merge that loads no file leaves the cache file alone |
| CacheMerge.RaiseLosesOnDisk | sources/poky/bitbake/lib/bb/cache.py:903-936 | a merge that raises on a file cut short leaves a key on disk nowhere, for all keys, values and files |
| CacheMerge.FirstValueWins | sources/poky/bitbake/lib/bb/cache.py:897-901 | a key in the table keeps its value over any run |
| CacheMerge.MergedIsFunction | sources/poky/bitbake/lib/bb/cache.py:869-936 | if every extra maps key to f(key), so does the merged cache |
| TasksBetween.Follower.FollowChain | sources/poky/bitbake/lib/bb/build.py:1004-1021 | adds exactly the tasks on ways from here to the end, without duplicates, restores the chain, terminates; fatal exactly if a way on meets a task twice |
| TasksBetween.TasksBetween | sources/poky/bitbake/lib/bb/build.py:996-1023 | the same from the start task, also in terms of the lists of dependencies: exactly the tasks on the ways from start to end, and the fatal error exactly if some way meets a task twice |
| TasksBetween.FatalIffCycle | sources/poky/bitbake/lib/bb/build.py:1007-1008 | fatal exactly for a cycle that is reachable without passing the end |
| TasksBetween.OnIffOnPath | sources/poky/bitbake/lib/bb/build.py:996-1023 | on an acyclic graph the result is the tasks on paths from start to end: reachable from the one and reaching the other |
| Signatures.GenerateDependencies | sources/poky/bitbake/lib/bb/data.py:375-405 | terminates with exactly what the tasks reach, each entry as build_dependencies gives it, closed under dependencies |
| Signatures.Closure | sources/poky/bitbake/lib/bb/data.py:420-428 | the set found is what the task reaches in one or more steps; every lookup is defined |
| Signatures.GenerateDependencyHash | sources/poky/bitbake/lib/bb/data.py:407-440 | taskdeps is that set; the text hashed is the one that the specification allows |
| Signatures.SortNames | sources/poky/bitbake/lib/bb/data.py:430-430 | the names in ascending order, whatever the order of iteration |
| Signatures.AscendingUnique | sources/poky/bitbake/lib/bb/data.py:430-430 | there is only one such list |
| Signatures.BeforeIff | sources/poky/bitbake/lib/bb/data.py:430-430 | ascending is by the first character that differs, and a beginning comes before what it begins |
| Signatures.TextDependsOnClosure | sources/poky/bitbake/lib/bb/data.py:411-438 | recipes that agree on the task's value and on dependencies and values of what it reaches have the same, single text |
| Signatures.TextSeparatesIff | sources/poky/bitbake/lib/bb/data.py:411-437 | if recipes differ in one value only, the texts are equal exactly if that value has the same text in both |
| Signatures.TextIsAmbiguous | sources/poky/bitbake/lib/bb/data.py:430-437 | for every recipe with one dependency, moving the beginning of its value to the end of its name gives another recipe with the same text |
| Signatures.ReachNotIgnored | sources/poky/bitbake/lib/bb/data.py:296-365 | no ignored variable is reached |
| Signatures.TaskSignatures | sources/poky/bitbake/lib/bb/data.py:375-440 | from the recipe: taskdeps holds what the task and its own members refer to, hook, list in vardeps, or run if it is a name of the datastore, unless excluded there or ignored, and nothing without a chain of such steps; the hash is of the value followed by each of these names in ascending order with its value |
| Signatures.HashFollowsValue | sources/poky/bitbake/lib/bb/data.py:353-440 | with another value for one name, the task or one it leads to by such a chain, the text hashed is the same exactly if the value is |
| LayerPriority.Collections.Calc | sources/poky/bitbake/lib/bb/cooker.py:1209-1219 | the memoised recursion terminates on acyclic layers and stores the value that the layer should have; when it raises KeyError |
| LayerPriority.HandleCollections | sources/poky/bitbake/lib/bb/cooker.py:1131-1223 | the priorities stored solve: fixed layers keep theirs, all others are one above the greatest of min_prio and what they depend on; without a solution it fails |
| LayerPriority.SolutionUnique | sources/poky/bitbake/lib/bb/cooker.py:1209-1219 | two solutions agree |
| LayerPriority.SolvedIsCalculated | sources/poky/bitbake/lib/bb/cooker.py:1209-1219 | every solution is part of what is calculated |
| LayerPriority.MinPrioOrderIff | sources/poky/bitbake/lib/bb/cooker.py:1143-1144 | min_prio is independent of the order of the layers exactly if there is no zero, or a negative, or nothing positive |
| LayerPriority.OrderIndependent | sources/poky/bitbake/lib/bb/cooker.py:1131-1223 | then the priorities do not depend on the order of BBFILE_COLLECTIONS |
| LayerPriority.ZeroIsNotKept | sources/poky/bitbake/lib/bb/cooker.py:1143-1219 | an explicit zero is not kept and makes the order matter |
| CowDict.Tree.GetReadOnly | sources/poky/bitbake/lib/bb/COW.py:82-104 | read-only access gives the nearest value and changes nothing |
| CowDict.Tree.GetItem | sources/poky/bitbake/lib/bb/COW.py:60-104 | a read gives the nearest value, copying it to this level if it came from above; every other level keeps what it holds |
| CowDict.Tree.Append | sources/poky/bitbake/lib/bb/COW.py:60-104 | mutation in place through what was read changes this level only, whatever it shares |
| CowDict.Tree.SetItem | sources/poky/bitbake/lib/bb/COW.py:53-58 | assignment changes this level only |
| CowDict.ReadDependsOnAbove | sources/poky/bitbake/lib/bb/COW.py:88-104 | a read depends only on the level and those above it |
| CowDict.OthersUnchanged | sources/poky/bitbake/lib/bb/COW.py:44-104 | no sequence of operations changes a read at an ancestor or sibling |
| CowDict.ReadingChangesNothing | sources/poky/bitbake/lib/bb/COW.py:60-104 | reading, even with a copy, changes no read at any level |
| CowDict.WriteIsRead | sources/poky/bitbake/lib/bb/COW.py:53-104 | what is assigned is read, at the level and at an empty one below |
| CowDict.ReadsAsDictionariesIff | sources/poky/bitbake/lib/bb/COW.py:53-107 | over any run all levels read as a stack of dictionaries would, exactly if no operation diverges: assigns where or below where the key was deleted, deletes above an assignment, or changes a list above a level that has copied it |
| CowDict.StepAgreesIff | sources/poky/bitbake/lib/bb/COW.py:53-107 | one operation keeps that agreement exactly if it does not diverge |
| CowDict.EmptyAgrees | sources/poky/bitbake/lib/bb/COW.py:44-48 | new levels agree with empty dictionaries |
| CowDict.StaleCopy | sources/poky/bitbake/lib/bb/COW.py:60-78 | a level that has read a list does not see that it is replaced above, without any deletion |
| Fifo.FifoReader.ReadFifo | sources/poky/bitbake/lib/bb/build.py:478-516 | one call delivers the complete messages up to one that raises, and keeps exactly the rest |
| Fifo.FramedIsFraming | sources/poky/bitbake/lib/bb/build.py:482-516 | messages and tail of a stream are determined by being NUL-free and making up the stream |
| Fifo.ReadTwice | sources/poky/bitbake/lib/bb/build.py:478-516 | two reads are one read of both pieces |
| Fifo.CutsDoNotMatter | sources/poky/bitbake/lib/bb/build.py:478-516 | for every way of cutting the stream: the same calls and the same bytes kept |
| Fifo.SentIsDelivered | sources/poky/bitbake/lib/bb/build.py:478-516 | encoded messages arrive one by one, the unterminated tail is kept |
| Fifo.NothingAfterRaise | sources/poky/bitbake/lib/bb/build.py:478-516 | after a message that raises, nothing is delivered any more |
| Fifo.SplitsAtFirst | sources/poky/bitbake/lib/bb/build.py:485-490 | command and value are the parts around the first space |
| Fifo.CommandIsCalled | sources/poky/bitbake/lib/bb/build.py:485-513 | each command, followed by a blank and a value, is the call it stands for; an unknown one warns |
| Fifo.DebugIsCalled | sources/poky/bitbake/lib/bb/build.py:507-511 | bbdebug takes the number before the first blank as the level, and raises if it is none |
| DiskMonitor.Monitor.Check | sources/poky/bitbake/lib/bb/monitordisk.py:195-257 | one check treats every key by itself, as the per-key step does |
| DiskMonitor.Monitor.CheckAll | sources/poky/bitbake/lib/bb/monitordisk.py:195-257 | any number of checks of a new monitor finish the run at most once per key |
| DiskMonitor.FinishIff | sources/poky/bitbake/lib/bb/monitordisk.py:222-253 | finish_runqueue is called once, shared by both checks, exactly if the action says so and some check found cause |
| DiskMonitor.HaltIff | sources/poky/bitbake/lib/bb/monitordisk.py:222-253 | when the run is finished, it is told to halt at once exactly if that is the action of the key |
| DiskMonitor.WarningBound | sources/poky/bitbake/lib/bb/monitordisk.py:215-220 | while space is left, at most 1 + (minSpace - 2) div (spaceInterval + 1) warnings |
| DiskMonitor.InodeWarningBound | sources/poky/bitbake/lib/bb/monitordisk.py:235-242 | the same bound for warnings about inodes |
| DiskMonitor.MixedWarningBound | sources/poky/bitbake/lib/bb/monitordisk.py:215-220 | for any samples the warnings are bounded by the number of samples without space left, each of which can start them anew |
| DiskMonitor.WarningBoundReached | sources/poky/bitbake/lib/bb/monitordisk.py:215-220 | some run reaches that bound |
| DiskMonitor.NoSpaceWarnsAlways | sources/poky/bitbake/lib/bb/monitordisk.py:215-220 | with no space left every check warns |
| Inotify.Notifier.ReadEvents | sources/poky/bitbake/lib/pyinotify.py:1201-1242 | enqueues all records up to the end, a buffer that ends early or a name that does not decode; when coalescing, those with new text |
| Inotify.ParseAllEncoded | sources/poky/bitbake/lib/pyinotify.py:1222-1242 | encoded events are read back, exactly and in order, up to the first name that does not decode; reading ends normally exactly if all do |
| Inotify.RecordLayout | sources/poky/bitbake/lib/pyinotify.py:1222-1242 | a record is wd, mask, cookie and length, low byte first, then the name and its NULs |
| Inotify.ParsedIsEncoded | sources/poky/bitbake/lib/pyinotify.py:1222-1242 | a buffer is read without error only if it is such an encoding, with names that decode |
| Inotify.TextSameIff | sources/poky/bitbake/lib/pyinotify.py:462-486 | two events have the same text exactly if they are equal, or one has no name where the other is named by two quotes |
| Inotify.FreshIsFirsts | sources/poky/bitbake/lib/pyinotify.py:1234-1239 | coalescing keeps the first event of each kind, in order, and nothing else |
| Inotify.Notifier.ReadMany | sources/poky/bitbake/lib/pyinotify.py:1201-1242 | over any number of reads since the last processing, with errors or without |
| Inotify.Notifier.ProcessEvents | sources/poky/bitbake/lib/pyinotify.py:1244-1271 | drains the queue in order and forgets what was seen |
| Relocate.ChangeInterpreter | sources/poky/scripts/relocate_sdk.py:79-111 | the loop over program headers with its seeks patches what the pure form patches |
| Relocate.InterpreterPatched | sources/poky/scripts/relocate_sdk.py:94-110 | length and all bytes outside PT_INTERP stay; the path is the new one exactly if it is an SDK binary with room |
| Relocate.ChangeSlots | sources/poky/scripts/relocate_sdk.py:168-184 | the loop over 4096-byte slots is the pure form |
| Relocate.SlotsPatched | sources/poky/scripts/relocate_sdk.py:168-184 | bytes outside the section stay, and its contents become the slots substituted |
| Relocate.SlotIsOwnText | sources/poky/scripts/relocate_sdk.py:168-184 | each full slot becomes its own original text, substituted and NUL-padded |
| Relocate.SubFirst | sources/poky/scripts/relocate_sdk.py:30-30 | substitution replaces the first occurrence, keeps what is before it, and goes on behind it |
| Relocate.PrefixReplaced | sources/poky/scripts/relocate_sdk.py:30-30 | the text replaced is ##DEFAULT_INSTALL_DIR## |
| Relocate.SubNone | sources/poky/scripts/relocate_sdk.py:30-30 | text without an occurrence is left alone |
| Relocate.SectionsPatched | sources/poky/scripts/relocate_sdk.py:134-184 | with sections in the file and apart: length and all bytes outside the rewritten sections stay, each becomes what its own original text asks for, and it stops exactly if one has no room |
| Relocate.SectionsFound | sources/poky/scripts/relocate_sdk.py:148-154 | the loop finds .sysdirs and .sysdirslen exactly if they are there, at the last section of that name, with the original text |
| Relocate.SysdirsPatched | sources/poky/scripts/relocate_sdk.py:185-209 | if the new .sysdirs fits: it holds the new paths, entry i of .sysdirslen is the length of path i, read so in the binary's own order exactly under that condition; all other bytes stay |
| Relocate.NewPathsNulFree | sources/poky/scripts/relocate_sdk.py:186-196 | with a NUL-free new prefix no new path has a NUL, and none is empty if the prefix is not |
| Relocate.ReadsPackedIff | sources/poky/scripts/relocate_sdk.py:197-200 | a length is packed in little-endian order in every binary, and read as it was meant exactly if the binary is little-endian or the bytes are the same backwards |
| Relocate.BigEndianMisreads | sources/poky/scripts/relocate_sdk.py:197-200 | a big-endian binary misreads every length from 1 to 65535 |
| ElfLayout.NoHeaderIff | sources/poky/scripts/relocate_sdk.py:32-52 | a file is left alone exactly if its first byte or its class is another one |
| ElfLayout.HeaderRead | sources/poky/scripts/relocate_sdk.py:32-77 | for all field values in range, both classes and both byte orders: bytes that begin with the ELF header that encodes them are read as those fields |
| ElfLayout.ProgramRead | sources/poky/scripts/relocate_sdk.py:79-93 | the same for program headers |
| ElfLayout.SectionRead | sources/poky/scripts/relocate_sdk.py:113-146 | the same for section headers |
| RelocateRun.SysdirsOverall | sources/poky/scripts/relocate_sdk.py:113-209 | from a file to its end: with sections in the file and apart, bytes outside the four sections stay, each section is what its own original text asks for, and the script stops exactly if one has no room, or .sysdirslen is missing |
| RelocateRun.ChangeDlSysdirs | sources/poky/scripts/relocate_sdk.py:113-209 | the method with its seeks, reads and writes does that |
| RelocateRun.FilePatched | sources/poky/scripts/relocate_sdk.py:79-209 | a whole file: the length and all bytes outside the interpreter and the four sections stay, the interpreter reads the new path if it may and fits, sections as above, and what each outcome means |
| RelocateRun.RelocateFile | sources/poky/scripts/relocate_sdk.py:246-264 | the script does that for a file, leaves others alone, and ends normally only with the length unchanged |
| RelocateElf.RelocateElfFile | sources/poky/scripts/relocate_sdk.py:246-264 | for a file that encodes an ELF header, program headers and section headers with names: every byte outside the first PT_INTERP and the named sections stays, the interpreter is the new path unless it is one of the five system directories or there is no room, .ldsocache and .sysdirs are what was asked for, .sysdirslen holds the lengths |
| RelocateElf.NameWithoutNul | sources/poky/scripts/relocate_sdk.py:141-141 | a section name without a NUL behind it loses the last byte of the table |

## Left out

- DataStore.DataSmart.SetVar: a plain setVar that has to settle the list itself, because none is in force and its variable has definitions by override, is covered only if OVERRIDES cannot reach the variable; `:remove` on qualified names is excluded, because the code then adds to a set that a cached record shares; operations on unqualified names that start like an override are excluded, as ApplySoundIff says.
- DataStore.DataSmart.SetVarFlag: export and unexport flags have no effect on `__exportlist`, whose set a shallow copy shares with its source.
- DataRuns.RunSteps: a write that leaves an out-of-date list in force is no step of a run; a recorded variable is written plainly only while it has no definitions by override; writes to a source after it was copied are not followed into the copy.
- DataRuns.ReadBoth: reads that store the record of another mode are left out.
- DataStore.DataSmart.NeedOverrides: the state after the error is not described further.
- DataStore.DataSmart.GetVar: references are acyclic, as a ranking shows; the error for a self-reference is not modelled.
- ParseWorkers.AllRecipesParsed: time limits are free choices of the schedule, loops are steps, and parsing is its outcome.
- SiggenStream.StreamRoundTrip: dictionaries are lists of entries in iteration order; pickling, and the sharing of equal strings in `store`, are not part of the statement.
- CacheMerge.NothingLost: one merger, which is used again after a merge that raised; whether a file cut short gives the end-of-file error that the code handles or another one is a free choice; while a merge is under way, and after one that raised, a key may be in the merger's table only.
- CacheMerge.MergeData: the subclass for file checksums merges in another way.
- Signatures.GenerateDependencyHash: sha256 stands as its input text; what the parsers of code find is the input `Info`, so contains-conditions and excluded text are part of the value.
- TasksBetween.TasksBetween: every task has its list of dependencies; `addtask` and `deltask` are not modelled.
- LayerPriority.HandleCollections: version checks of dependencies, and values of priorities that are no integers, are not modelled.
- CowDict.ReadsAsDictionariesIff: values are lists; a key that switches between lists and immutable values is not modelled.
- Fifo.FifoReader.ReadFifo: UTF-8 decoding and `int()` are parameters.
- DiskMonitor.Monitor.Check: what statvfs says is an input; parsing of the limits, log texts and events are not modelled.
- Inotify.Notifier.ReadEvents: decoding is a parameter that takes NUL bytes for NUL characters, as UTF-8 does; the ioctl and read are the input buffer.
- Inotify.Notifier.ProcessEvents: what the handlers do is not modelled.
- Relocate.SubFirst: backslashes in the new prefix, which the regular expression library would interpret, are not modelled.
- RelocateRun.FilePatched: a new .sysdirs that does not fit, or has an empty path, is written over what follows it or cut short; nothing but the check of the length is claimed then.
- Inline Python in values, rename warnings, histories, renameVar, delVarFlags and expandKeys.
- The old `_append`, `_prepend` and `_remove` spelling, which is a fatal error.
- Loading and validity of the recipe cache, and names of virtual files.
- Locks, files and processes of the operating system, other than as states and steps.
