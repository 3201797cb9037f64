# A model of LDK's loader and thread state

LDK loads DLLs into kernel space and keeps the run-time state their threads need. This project models
the parts whose correctness comes from the interplay of many functions, and proves what they are for.

* `ModuleGraph.dfy`, `LoaderLaws.dfy`, `ModuleRegistry.dfy`: the module registry. Modules are records in
  `pool`, listed in `active` (ModuleListHead, oldest first). Freeing a record removes its key, so every
  access in every method proves that the record is still there. `Registry.held` is a ghost multiset of all
  references that are not dependency entries of a registered module: client handles, entries of a
  dependency list under construction, snapshot entries, and references the code leaks. `Inv` says that each
  count is exactly the number of references, that every dependency stands earlier in the list than its
  dependant, and that whatever is referenced is registered. `LogLaw` says what a trace of attach and detach
  calls may look like, `TlsLaw` who owns which TLS index.
* `ThreadCalls.dfy`: the calls the attached modules get when a thread starts or ends.
* `ImportRace.dfy`: the lookup and the reference of an import in separate locked sections, as a state machine
  of any number of threads that import and unload, with the exact condition under which that goes well.
* `FlagLock.dfy`: the flags word and the spin lock inside it, as a state machine of any number of threads
  in which each plain update is a read step and a write step.
* `StaticTls.dfy`: static TLS blocks of modules loading and unloading while threads start to use them.
* `StaticTlsCalls.dfy`: what a whole call of that machine leaves behind, and that it ends.
* `TebList.dfy`: the doubly linked ring of TEBs, FlsFree's walk around it, and the teardown at shutdown.
* `FlsExchange.dfy`: the same slots under interleaving, one exchange at a time, with a history that says why
  a value was lost.
* `FlsExchangeCalls.dfy`: what FlsFree and a teardown have done when they return, where others keep away.
* `Relocation.dfy`: base relocation of an image in a byte array.
* `Exports.dfy`: the export search and the import-table loop.
* `WideMultiply.dfy`: 128-bit products, shifts and the population count.
* `SearchPath.dfy`, `StringBuffer.dfy`: strings that are sized first and filled second.
* `TempName.dfy`, `CopyFile.dfy`: the temporary-name search and the chunked copy.
* `Wrappers.dfy`: types that several of these share.

Choices of the model:

* A handle is the address of the record: the image base and the record pointer are not told apart.
* What the loader cannot foresee (the conversion of a name, pool allocation, file access and relocation, thunk
  binding, TLS block allocation, the answer of DllMain) is asked for, one `Question` after the other. `granted`
  answers the nth question; `asked` keeps them. `Decided` says how the answers decide over a load: a success means
  that nothing was refused, except perhaps a conversion for a lookup, and where nothing was refused and files,
  imports and TLS indices were there (`CanLoad`), the load succeeds.
* Calls on the registry are sequential; what happens when they are not is the subject of `ImportRace`, and
  `UndisturbedIsSound` says that sequences of whole calls are free of its race. DllMain and TLS callbacks leave a
  log entry; for threads there is a list of the calls made.
* Names are compared by folding ASCII letters, for `_stricmp`.
* At MAXLONG an increment is lost, and with it the law: `ReferenceIsExactUnlessSaturated` gives the exact
  condition for one reference, `SaturationLosesAModule` what follows. A run is therefore followed up to the
  first increment that would be lost. There the model stops with the result `Saturated`, which is no status
  of the code, and `AtLimit` says that a count does stand at MAXLONG. Nothing else bounds a run.
* `WellFounded` (imports have a lower rank) is what the recursion needs: a module is registered only after
  its imports, so an import cycle would not end.
* An import that is registered only under its name with ".dll" appended takes a reference that nothing
  gives back when the module is already in the list (`src/ldk.c:460-465`). `ResolveImportModule` states this
  leak exactly (`own`, if and only if `Aliased`), `AliasLeaks` what it leads to, and `SecondNameIsAnAlias` is
  an image for which every successful load leaks. `Walked` follows a load import by import, and `LeakedBy` adds
  up what each of them leaked. Beyond that, `LeaksOf` says that every leaked module is registered
  under the suffixed name of an import that the load meets, so `ExactNames(name)`, a condition on those
  imports only, rules leaks out.
* The log holds the attach and detach calls with the dependencies of the module, and the moment a record
  goes off the list. `Legal` says which event may come next, and `Recorded` ties the log to the table.
* Multiply128 is meant to give the signed product, in wrapping arithmetic. `SignedProductIsExact` says for
  exactly which factors it does, and `SignedProductFails` shows that -1 and 1 are not among them.
* Relocation treats every entry other than zero alike: the code looks at the offset of an entry and not at
  its type.
* `StaticTls` has no TEB that is running down. The walk that empties the slots of an index stops at such a TEB
  and the bit is cleared all the same (`src/ldk.c:1122-1130`, `src/ldk.c:1223-1226`), but TEBs are run down only by
  the teardown of the TEB map (`src/teb.c:325-338`), which comes after the loop that unregisters all modules
  (`src/ldk.c:260-278`) or after a bring-up that failed before any was loaded (`src/ldk.c:191-206`), so no walk
  meets one.
* Where the image of a record lies is a function, `span`, fixed for the run.
* The numbers of TLS and FLS slots are defined in headers that are not part of this model; the first is a
  parameter, the second a constant, 1024, on which no proof depends.

## Model

| member | source | states |
|---|---|---|
| `ModuleGraph.CountingIsExactCollection` | src/ldk.c:2292-2337 | between calls a loadable module is registered if and only if it is reachable along dependencies from a held reference or a pin |
| `ModuleGraph.DependenciesAreAcyclic` | src/ldk.c:325-339 | dependencies never lead from a module back to itself, because a module is listed after everything it names |
| `ModuleGraph.NothingGained` | src/ldk.c:2108-2289 | a call after which the same references are held, whatever it loaded and released in between, has restored list, counts and dependencies |
| `ModuleGraph.GrowThenCollect` | src/ldk.c:2221-2288 | loading and then releasing leaves the old modules in their order, with only references added |
| `ModuleGraph.SameReferencesSameCounts` | src/ldk.c:378-398 | with the same modules, dependencies and references all counts are the same |
| `ModuleGraph.ReferenceIsExactUnlessSaturated` | src/ldk.c:378-398 | a reference keeps the law if and only if it is pinned, not counted, or the count was below MAXLONG |
| `ModuleGraph.ReferenceFields` | src/ldk.c:378-398 | a pin sets the flag, an increment adds one to a count that is neither pinned nor at MAXLONG, and nothing else changes in any record |
| `ModuleGraph.ReferenceKeepsPins` | src/ldk.c:388-391 | whoever is referenced, what was pinned stays pinned, and with a pin the module is pinned |
| `ModuleGraph.CollectedKeepsPins` | src/ldk.c:2317-2319 | whatever is released, a pinned module stays listed and pinned |
| `ModuleGraph.GrownKeepsPins` | src/ldk.c:2221-2288 | so it does whatever is loaded |
| `ModuleGraph.DecrementIsExact` | src/ldk.c:2317-2322 | giving up one of several references keeps the law |
| `ModuleGraph.ReleasePinned` | src/ldk.c:2317-2319 | a reference to a pinned module can be given up without a change |
| `ModuleGraph.LastReference` | src/ldk.c:2321-2327 | a count of one or less means that the reference given up is the only one, so nobody names the module |
| `ModuleGraph.RemovalIsExact` | src/ldk.c:2323-2334 | taking an unnamed module off the list keeps the law, its entries becoming references in hand |
| `ModuleGraph.RemovalIsCollection` | src/ldk.c:2323-2334 | and what remains is what was there, in order |
| `ModuleGraph.RegistrationIsExact` | src/ldk.c:290-346 | a new module at the end of the list, with the reference of its loader, keeps the law |
| `ModuleGraph.MoveIsExact` | src/ldk.c:419-429 | an entry moved into the list of the newest module turns a reference in hand into a dependency and keeps the law |
| `ModuleGraph.TailIsUnnamed` | src/ldk.c:260-273 | no registered module depends on the last of the list |
| `ModuleGraph.OffListRecord` | src/ldk.c:349-374 | a record off the list can be written without touching the law |
| `LoaderLaws.UnlinkIsLawful` | src/ldk.c:349-374 | taking a module off the list, on record in the log, keeps every law but its own |
| `LoaderLaws.LastReferenceUnlinks` | src/ldk.c:2323-2334 | so does dropping its last reference |
| `LoaderLaws.DetachThenClear` | src/ldk.c:349-374 | after that detach and the return of the TLS index all laws hold |
| `LoaderLaws.DetachIsLegal` | src/ldk.c:349-374 | a module taken off the list may be detached: everything it was attached with is listed and not detached, everything attached with it among its dependencies has been detached |
| `LoaderLaws.FreeIsLawful` | src/ldk.c:349-374 | freeing the record then restores all laws |
| `LoaderLaws.RegisterStep` | src/ldk.c:290-346 | registration keeps the laws and leaves old modules alone |
| `LoaderLaws.MoveStep` | src/ldk.c:419-429 | so does handing over one dependency entry |
| `LoaderLaws.TakeTlsStep` | src/ldk.c:1138-1207 | an index no module and no client owns becomes the module's own |
| `LoaderLaws.AttachStep` | src/ldk.c:2244-2271 | attaching a new module keeps the laws |
| `LoaderLaws.AttachIsLegal` | src/ldk.c:2244-2271 | the newest module may be attached: all it depends on is older, listed and not detached, and no newer module has been attached |
| `LoaderLaws.InitialisationIsUndone` | src/ldk.c:349-374 | in every lawful log, where a module was attached with another among its dependencies, that one was attached before it and is detached only after it |
| `LoaderLaws.DependantsGoFirst` | src/ldk.c:349-374 | whenever a dependency of an attached module is detached, the module has been detached before |
| `LoaderLaws.LoadingThenRelease` | src/ldk.c:2221-2288 | whatever a load added and released again, old modules have only gained references |
| `LoaderLaws.NoReferenceNoTrace` | src/ldk.c:2221-2288 | with no reference gained, list, counts, dependencies and TLS indices are as before |
| `LoaderLaws.NothingLive` | src/ldk.c:260-273 | with an empty list every attached module has been detached and only client indices are taken |
| `LoaderLaws.DetachedIsDetermined` | src/ldk.c:1356-1403 | the same registry means the same modules attached and detached so far |
| `LoaderLaws.SnapshotIsAllocated` | src/ldk.c:1356-1403 | what a snapshot holds is registered and its records are there |
| `LoaderLaws.ThreadCallsOffStep` | src/ldk.c:1406-1434 | switching thread calls off plays no part in the laws |
| `LoaderLaws.BuiltinsAreLawful` | src/peb.c:562-582 | the list of built-in modules satisfies all laws |
| `LoaderLaws.SameNameMeans` | src/ldk.c:560 | two names are the same exactly if they differ in nothing but the case of letters |
| `LoaderLaws.FirstMatchIsFirst` | src/ldk.c:553-566 | no module before the one found has the name in that mode |
| `LoaderLaws.LookupPathIsFirst` | src/ldk.c:1935-1957 | none before it has the path |
| `LoaderLaws.AttachedAreKept` | src/ldk.c:1314-1327 | the snapshot is the list without those that are not attached |
| `ModuleRegistry.Registry.constructor` | src/peb.c:562-582 | the registry after bring-up: the built-in modules in order, nothing logged, client indices taken |
| `ModuleRegistry.Registry.GetModuleByName` | src/ldk.c:541-569 | the first listed module with the name and the resource mode |
| `ModuleRegistry.Registry.ReferenceModuleLocked` | src/ldk.c:378-398 | built-in modules are left alone; a pin sets the flag; a count is raised unless pinned or MAXLONG |
| `ModuleRegistry.Registry.TryReference` | src/ldk.c:395 | the reference is taken exactly if it would not be lost |
| `ModuleRegistry.Registry.ReferenceModuleByName` | src/ldk.c:1758-1782 | lookup and reference in one; stops where the reference would be lost |
| `ModuleRegistry.Registry.ReferenceLoaded` | src/ldk.c:2137-2169 | the name is looked up exactly if its conversion is granted; a registered module is found under the name or the name with ".dll", in that order, and referenced once |
| `ModuleRegistry.Registry.FindEitherMeans` | src/ldk.c:2142-2162 | a module of the name itself comes before one of the suffixed name, and none that either stands for is overlooked |
| `ModuleRegistry.Registry.AddModuleDependency` | src/ldk.c:452-490 | an entry is added unless built-in or present; a reference is taken exactly with a new entry that asks for one |
| `ModuleRegistry.Registry.ResolveImportModule` | src/ldk.c:644-705 | on success a module registered under the import's name, its suffixed name or its file's name is in the list unless built-in, and nothing was refused; where nothing is refused and the import is registered or can be loaded it succeeds; on failure the list is as before; a reference is leaked if and only if the module is an alias |
| `ModuleRegistry.Registry.ReferToImport` | src/ldk.c:656-658 | a registered import gets a reference with a new entry, and none with an old one |
| `ModuleRegistry.Registry.LoadImport` | src/ldk.c:660-705 | the same for a name that has to be loaded |
| `ModuleRegistry.Registry.LoadUnregistered` | src/ldk.c:660-679 | the loaded module is in the list already exactly if it is an alias |
| `ModuleRegistry.Registry.KeepImport` | src/ldk.c:681-705 | the reference of the load becomes an entry, or is leaked to an entry that exists, or goes back |
| `ModuleRegistry.Registry.RecordImport` | src/ldk.c:695-705 | without room for the entry the module is unloaded again |
| `ModuleRegistry.Registry.ReleaseBuiltin` | src/ldk.c:687-690 | giving back a built-in module changes nothing |
| `ModuleRegistry.Registry.WalkImports` | src/ldk.c:708-763 | on success every import has its module registered, and in the list unless built-in; the list holds nothing else and nothing twice; old modules only gained the references in the list; the trace says of each import where its module came from and exactly which references it leaked |
| `ModuleRegistry.Registry.ResolveAndBind` | src/ldk.c:721-760 | one import of that: its module, then its thunks, which are asked for exactly if there is a module |
| `ModuleRegistry.Registry.OneMoreMet` | src/ldk.c:644-705 | resolving one more import keeps the imports before it met |
| `ModuleRegistry.Registry.LoadImage` | src/ldk.c:1437-1632 | without import resolution nothing changes; with it the imports are met as above |
| `ModuleRegistry.Registry.DropImage` | src/ldk.c:2278-2288 | on failure the references of the list go back |
| `ModuleRegistry.Registry.KeepImage` | src/ldk.c:2227-2288 | on success a new module is registered whose dependencies are exactly the modules of its imports, with a TLS index if it asks for one; otherwise the references go back; it succeeds where record, block and DllMain are granted and an index is free |
| `ModuleRegistry.Registry.FinishImage` | src/ldk.c:2232-2276 | the part that follows the registration |
| `ModuleRegistry.Registry.RegisterWithDependencies` | src/ldk.c:2232-2243 | registration and the move of the list leave one reference, for the caller |
| `ModuleRegistry.Registry.RegisterModule` | src/ldk.c:290-346 | a new record with count one at the end of the list, or nothing |
| `ModuleRegistry.Registry.MoveModuleDependencies` | src/ldk.c:419-429 | the list of the module becomes the given list in the same order, each entry holding the reference it held |
| `ModuleRegistry.Registry.InsertDependency` | src/ldk.c:419-429 | one entry of that |
| `ModuleRegistry.Registry.InitializeModuleTls` | src/ldk.c:1138-1207 | the lowest free index becomes the module's, whenever directory and block are granted and there is one; any failure leaves the bitmap and the module as they were |
| `ModuleRegistry.Registry.FirstFreeIndex` | src/ldk.c:1177-1184 | the lowest clear bit, found whenever fewer bits are set than there are |
| `ModuleRegistry.Registry.TakeIndex` | src/ldk.c:1186-1204 | the bit is set, and cleared again if the block is refused |
| `ModuleRegistry.Registry.UninitializeModuleTls` | src/ldk.c:1210-1233 | the index is free again and the module has none |
| `ModuleRegistry.Registry.AttachModule` | src/ldk.c:2244-2271 | static TLS first, an index exactly if the image asks for one, then the attach call, whose answer decides; only this module changes |
| `ModuleRegistry.Registry.CallAttach` | src/ldk.c:2255-2262 | the module is marked and called with its dependencies, and DllMain decides |
| `ModuleRegistry.Registry.RollBack` | src/ldk.c:2247-2271 | a module that refuses is unloaded with everything only it kept |
| `ModuleRegistry.Registry.FinishLoad` | src/ldk.c:2238-2276 | a module that stays is attached exactly if imports were resolved; one that does not gives up its reference |
| `ModuleRegistry.Registry.LoadFile` | src/ldk.c:2221-2289 | a new module with one reference for the caller and its imports met, or no reference at all |
| `ModuleRegistry.Registry.LoadDll` | src/ldk.c:2108-2289 | with its name converted, a registered module gains one reference and nothing else changes; else a new module is registered with exactly the modules of its imports as dependencies; a success means that nothing was refused, and where nothing is refused and files, imports and TLS indices are there the load succeeds; a failed load leaves list, counts, dependencies and TLS indices as they were (unless an import leaked) |
| `ModuleRegistry.Registry.LoadFromPath` | src/ldk.c:2172-2289 | the part for a name that is not registered; a file that is not there cannot be loaded |
| `ModuleRegistry.Registry.LoadRegistered` | src/ldk.c:2142-2166 | loading a name under which a module is registered gives that module with a count one higher and no new record, whenever the conversion is granted and no count is at its limit |
| `ModuleRegistry.Registry.LoadTwice` | src/ldk.c:2108-2289 | with everything granted and there, a load succeeds and a second one adds no record; both give the same module if only one has the name |
| `ModuleRegistry.Registry.LoadThenUnload` | src/ldk.c:2292-2337 | a load and its unload restore list, counts, dependencies and TLS indices unless the load leaked, and then the references left are exactly those its imports leaked; what leaks is registered under the suffixed name of an import the load met; with exact names nothing leaks |
| `ModuleRegistry.Registry.UnloadAgain` | src/ldk.c:2292-2337 | the unload that undoes a load |
| `ModuleRegistry.Registry.ExactNamesLeakNothing` | src/ldk.c:460-465 | where no name can be registered that is an import met with the suffix, nothing leaks |
| `ModuleRegistry.Registry.UnloadDll` | src/ldk.c:2292-2337 | the caller's reference is given up, and exactly the modules this leaves without references go, each off the list and then detached in a legal order; for a counted module that names no other this is `Released` |
| `ModuleRegistry.Registry.RemoveAndUnregister` | src/ldk.c:2323-2334 | the last reference: the module and all it alone kept are gone |
| `ModuleRegistry.Registry.UnregisterModule` | src/ldk.c:349-374 | the module is detached next, with the dependencies it has, then the last of these goes if nobody else needs it, and in the end everything only it kept; index and record go, and all laws hold again |
| `ModuleRegistry.Registry.DetachAndClear` | src/ldk.c:354-367 | its first part: the detach call, then the TLS index |
| `ModuleRegistry.Registry.ReleaseModuleDependencies` | src/ldk.c:401-416 | every reference of the list is given up, the last entry's first, and nothing else |
| `ModuleRegistry.Registry.ReleaseLast` | src/ldk.c:406-414 | the last entry is given up first, with all it alone kept |
| `ModuleRegistry.Registry.AddRefDll` | src/ldk.c:2340-2382 | a registered module gains a reference, or is pinned; anything else is not found and changes nothing; only a counted reference can be one too many |
| `ModuleRegistry.Registry.PinThenUnload` | src/ldk.c:2317-2319 | a module that has been pinned is listed and pinned after any number of unloads |
| `ModuleRegistry.Registry.GetDllHandle` | src/ldk.c:2032-2105 | the module sought by NT path, or by name without one, referenced or pinned as the flags ask; a pin without a reference is refused; it fails exactly if the name or path is refused |
| `ModuleRegistry.Registry.GetModuleByNtPath` | src/ldk.c:1921-1964 | the first listed module of that path that is not kept for its resources only |
| `ModuleRegistry.Registry.ReferenceModuleByAddress` | src/ldk.c:1713-1755 | the first module with an image around the address, not kept for its resources only, is referenced or pinned as asked; not found if and only if there is none |
| `ModuleRegistry.Registry.GetModuleByAddress` | src/ldk.c:1728-1746 | the lookup of that |
| `ModuleRegistry.LookupAddressIsFirst` | src/ldk.c:1728-1746 | no module before the one found covers the address |
| `ModuleRegistry.Registry.Terminate` | src/ldk.c:260-273 | the list ends empty, every loadable record freed, every attached module detached exactly once and before everything it depends on, only client indices left |
| `ModuleRegistry.Registry.UnregisterTail` | src/ldk.c:260-273 | one round shortens the list and keeps the laws |
| `ModuleRegistry.Registry.ReferenceSnapshot` | src/ldk.c:1275-1335 | the attached modules in list order, each referenced once; none if there are none or there is no room |
| `ModuleRegistry.Registry.Count` | src/ldk.c:1291-1301 | the first pass counts the attached modules |
| `ModuleRegistry.Registry.FillSnapshot` | src/ldk.c:1314-1327 | the second pass references each of them |
| `ModuleRegistry.Registry.ReferenceIfAttached` | src/ldk.c:1314-1327 | one round of that loop |
| `ModuleRegistry.Registry.ReleaseSnapshot` | src/ldk.c:1338-1353 | every reference of the snapshot is given up again |
| `ModuleRegistry.Registry.CallModules` | src/ldk.c:1356-1403 | the modules of the snapshot get their calls in order, each with its record in place |
| `ModuleRegistry.Registry.CallModule` | src/ldk.c:1377-1399 | TLS callbacks, and the entry point unless switched off; at a thread's start a module without a block that cannot get one is passed over, at its end the block goes |
| `ModuleRegistry.Registry.CallThreadNotifications` | src/ldk.c:1356-1403 | the attached modules are called in list order as `CalledInOrder` says, or nobody is if there is no room for the snapshot; the registry ends as it began |
| `ThreadCalls.EachIsCalled` | src/ldk.c:1370-1400 | whoever has a block or can get one is called, in list order: TLS callbacks once, directly followed by the entry point exactly where that is not switched off; the thread ends with exactly the blocks of the modules called, or without them |
| `ThreadCalls.NobodyIsPassedOver` | src/ldk.c:1370-1400 | with no block refused, and whenever a thread ends, every module of the snapshot is called, and afterwards all their blocks are there, or none |
| `ThreadCalls.AttachedAreCalled` | src/ldk.c:1356-1403 | so are the attached modules of every lawful registry |
| `ThreadCalls.SnapshotCalls` | src/ldk.c:1356-1403 | the references taken for the snapshot do not change who is called |
| `ModuleRegistry.Registry.DisableThreadCalls` | src/ldk.c:1406-1434 | an attached module has its entry point left out from then on; nothing else changes |
| `ModuleRegistry.Registry.Run` | src/ldk.c:2108-2382 | after every call of every sequence of loads, unloads, references, pins, switches and notifications, up to the first reference that would be lost at MAXLONG, the loadable modules registered are exactly those reachable from a reference or a pin, and what has been pinned is pinned still; each call has its effect; after a whole sequence the references are the clients' handles and what suffixed import names leaked, nothing with exact names |
| `ModuleRegistry.Registry.Perform` | src/ldk.c:2108-2382 | each call has its effect on the table, gives or takes the handle that is due, keeps the laws and accounts for its leaks |
| `ModuleRegistry.Registry.PerformLoad` | src/ldk.c:2108-2289 | a load that is given what it needs yields a handle, and leaks as stated |
| `ModuleRegistry.Registry.PerformUnload` | src/ldk.c:2292-2337 | an unload takes one handle away |
| `ModuleRegistry.Registry.PerformAddRef` | src/ldk.c:2340-2382 | a reference on a loadable module is one more handle |
| `ModuleRegistry.Registry.PerformGetHandle` | src/ldk.c:2032-2105 | so is a lookup that counts |
| `ModuleRegistry.Registry.PerformGetHandleByAddress` | src/ldk.c:1713-1755 | and a lookup by address that counts |
| `ModuleRegistry.Registry.AliasLeaks` | src/ldk.c:460-465 | where an import is an alias and is looked up, the module is registered still when the list of the importing module has been released, with one reference that nobody gives back |
| `ModuleRegistry.Registry.TwiceLeaks` | src/ldk.c:660-705 | however the two imports of that image are resolved, exactly one reference leaks, to the module of the first |
| `ModuleRegistry.Registry.FirstName` | src/ldk.c:660-705 | the first import brings a module in that is alone in the table, and leaks nothing |
| `ModuleRegistry.Registry.SecondName` | src/ldk.c:456-465 | the second finds that module, under its suffixed name and already in the list, and leaks its reference |
| `ModuleRegistry.SaturationLosesAModule` | src/ldk.c:395 | with MAXLONG handles counted on a module that names no other, one more reference and then MAXLONG releases unregister and free the module under the handle that is left |
| `ModuleRegistry.SaturatedState` | src/ldk.c:395 | there is a lawful state with a count at MAXLONG |
| `ModuleRegistry.SecondNameIsAnAlias` | src/ldk.c:460-465 | whenever an image that imports "a.dll" and then "a" is loaded into an empty registry and unloaded again, "a.dll" stays registered, with one reference that nobody holds |
| `ImportRace.SoundIfAndOnlyIfInTime` | src/ldk.c:644-705 | in every run of any number of threads, counts stay exact, what is held stays listed and nobody touches a freed record, if and only if no thread reads the record it has found after it was freed and none takes its reference after the last release of the module |
| `ImportRace.FoundWhenListed` | src/ldk.c:656 | such a release comes after the lookup, when the module was listed |
| `ImportRace.HistoryTells` | src/ldk.c:2321-2336 | a module that was ever registered is listed until its last release, and its record is there until it is freed |
| `ImportRace.StepIsSound` | src/ldk.c:479-484 | a step keeps counts, list and references in order if and only if it is not late |
| `ImportRace.ImportCompletes` | src/ldk.c:644-658 | an import that is not disturbed gets its reference |
| `ImportRace.ReferenceCompletes` | src/ldk.c:1758-1782 | lookup and reference in one locked section do the same at once |
| `ImportRace.ReleaseCompletes` | src/ldk.c:2321-2336 | the last release takes the module off the list and frees it, any other only lowers the count |
| `ImportRace.HoldersProtect` | src/ldk.c:660-705 | where somebody holds the module from the lookup on until the import has its reference, as LdkLoadDll's caller does, every run is sound |
| `ImportRace.UndisturbedIsSound` | src/ldk.c:644-658 | with no step of another thread between lookup and reference every run is sound |
| `ImportRace.TheRaceIsReal` | src/ldk.c:656 | two threads, six steps: a reference taken in a freed record; and one taken in a record that is freed under it |
| `FlagLock.MutualExclusion` | include/Ldk/ldk.h:26-41 | in every run at most one thread is inside, and bit 28 is set exactly while one is |
| `FlagLock.NoUpdateIsLost` | src/ldk.c:146-285 | in every run the word is what atomic updates would have made it, although each update is a separate read and write |
| `FlagLock.SpinningIsHarmless` | include/Ldk/ldk.h:26-33 | a test-and-set that finds the lock taken leaves the word as it was |
| `FlagLock.FreeLockMeansSettled` | src/ldk.c:146-285 | with the lock free, INITIALIZED is set if and only if every component is up, and otherwise none is |
| `FlagLock.InitializeCompletes` | src/ldk.c:146-214 | LdkInitialize, from its call to its return in any run: with no component failing INITIALIZED is on and all are up, with one failing it is off and none is; SHUTDOWN is off, and SAFE_MODE on if asked for |
| `FlagLock.TerminateCompletes` | src/ldk.c:239-285 | LdkTerminate likewise: INITIALIZED is off and no component is up |
| `FlagLock.NothingToDo` | src/ldk.c:160-163 | initializing what is up, or terminating what is down, changes no component and no flag but SAFE_MODE |
| `FlagLock.ShutdownIsMarked` | src/ldk.c:256-258 | terminating what is up leaves SHUTDOWN_IN_PROGRESS on |
| `FlagLock.PreparationChangesNothing` | src/ldk.c:216-236 | LdkPrepareForTermination touches no flag and no component |
| `FlagLock.NobodyStaysInside` | include/Ldk/ldk.h:35-41 | no thread is inside the lock for more than 25 steps of its own |
| `FlagLock.FreeLockIsTaken` | include/Ldk/ldk.h:26-33 | a thread that waits for the lock and finds it free gets it |
| `FlagLock.StepKeepsInv` | src/ldk.c:146-285 | every step of every thread keeps the invariant, bring-up, unwinding in reverse order and termination included |
| `FlagLock.ComponentStep` | src/kernel32/kernel32.c:1610-1660 | the next component in order comes up behind those that are up, and only the last of them goes down |
| `FlagLock.RunKeepsInv` | src/ldk.c:146-285 | so does every run |
| `StaticTls.SizesNeverWrap` | src/ldk.c:1159-1172 | the directory is accepted exactly if both sizes fit 32 bits together, and then neither has wrapped |
| `StaticTls.FillBlock` | src/ldk.c:1035-1084 | a new block is the raw template followed by zeros |
| `StaticTls.BlocksAreConserved` | src/ldk.c:1035-1135 | in every run each allocated block is in exactly one slot or one hand, and none is freed twice |
| `StaticTls.SlotsHoldTheImage` | src/ldk.c:1035-1084 | an installed block is the image of the module that owns the index |
| `StaticTls.FreeBitsHaveNoSlots` | src/ldk.c:1138-1233 | an index is free only once every TEB's slot is NULL, and modules with static TLS own indices of their own |
| `StaticTlsCalls.CallCompletes` | src/ldk.c:1036-1136 | from its first step to its return in any run, where nobody else touches its slot: with the block granted a thread that attaches has it and a module that is loaded has its index, attached, and the block of its thread; refused, the index is free again; a thread that detaches has no block, and of a module that is unloaded there is no block in any TEB and no index |
| `StaticTlsCalls.StepsRunOut` | src/ldk.c:1036-1136 | every such call comes to an end |
| `StaticTls.StepConserves` | src/ldk.c:1035-1135 | every step keeps blocks where exactly one place has them |
| `StaticTls.StepKeepsInv` | src/ldk.c:1035-1233 | every step of loading, unloading and running threads keeps all of this |
| `StaticTls.RunKeepsInv` | src/ldk.c:1035-1233 | so does every run |
| `TebList.InsertHead` | src/teb.c:53-64 | a TEB is put before all others of the ring |
| `TebList.RemoveHead` | src/teb.c:325-328 | the first of a ring, or the head of an empty one, comes off |
| `TebList.MoveList` | src/teb.c:314-318 | four pointer writes move a ring of any length, the empty one included, to the local head in order |
| `TebList.Fls.constructor` | src/teb.c:243-269 | an empty list, bitmap and callback table |
| `TebList.Fls.CreateTeb` | src/teb.c:53-64 | a new TEB with empty slots at the front |
| `TebList.Fls.NextTeb` | src/teb.c:142-162 | the next TEB around the ring is protected in place of this one, or nothing is when it is running down |
| `TebList.Fls.FlsFree` | src/kernel32/fibersapi.c:97-145 | with a callback, the walk succeeds exactly if no TEB is running down: every slot is emptied, each value delivered once in ring order, callback and bit gone. With the own TEB running down only the callback goes; with another, the walk clears the TEBs before it and goes on with a null pointer. Protection counts end as they began |
| `TebList.Fls.RunCallback` | src/kernel32/fibersapi.c:120-136 | the same for the part that a callback takes |
| `TebList.WalkSucceeds` | src/teb.c:142-162 | a walk ends well if and only if no TEB is running down, and then it meets them all |
| `TebList.Fls.Walk` | src/kernel32/fibersapi.c:120-136 | from the own TEB, protected first, around to it again or to the first that runs down |
| `TebList.Fls.Loop` | src/kernel32/fibersapi.c:127-134 | hand over hand, one TEB protected at a time, each visited exactly once |
| `TebList.Fls.VisitAndAdvance` | src/kernel32/fibersapi.c:127-133 | one round: this TEB is emptied, then the next is protected in its place |
| `TebList.Fls.Begin` | src/kernel32/fibersapi.c:121-125 | the walk starts with the caller's TEB protected |
| `TebList.Fls.Visit` | src/kernel32/fibersapi.c:128-132 | one slot emptied, its value delivered |
| `TebList.Fls.TakeAt` | src/kernel32/fibersapi.c:128-129 | the exchange at one TEB leaves the others alone |
| `TebList.Fls.Advance` | src/kernel32/fibersapi.c:133 | the protection moves on, or nobody is protected where the next TEB runs down |
| `TebList.Fls.Finish` | src/kernel32/fibersapi.c:135 | the last protection is given up |
| `TebList.Fls.InvokeFlsCallback` | src/teb.c:272-293 | every slot of a TEB is emptied, and each value with a callback delivered once, in slot order |
| `TebList.Fls.TerminateTebMap` | src/teb.c:296-345 | the list is taken, every TEB torn down once in list order, exactly the calls owed are made (none for one running down), and the temporary TEBs go, with the one made for the calling thread |
| `TebList.Fls.TakeAndTearDown` | src/teb.c:312-331 | the part about the list |
| `TebList.Fls.DeleteTemporaries` | src/teb.c:333-338 | every temporary TEB is deleted once |
| `TebList.Fls.DeleteNewest` | src/teb.c:333-338 | the newest comes off and is deleted |
| `TebList.Fls.PushTemporary` | src/teb.c:210-222 | a thread without a TEB gets a temporary one during shutdown |
| `TebList.Fls.TearDown` | src/teb.c:325-331 | the loop over the list taken |
| `TebList.Fls.TearOne` | src/teb.c:327-330 | one TEB of that |
| `TebList.Fls.RemoveNext` | src/teb.c:328 | the next TEB comes off before this one is torn down |
| `TebList.Fls.DeleteTeb` | src/teb.c:393-404 | a deleted TEB has waited for everybody who held it, and ends run down, with its slots empty |
| `TebList.Teb.AwaitRelease` | src/teb.c:397-398 | the wait ends after as many releases as there were holders, and nobody who asks meanwhile gets hold of the TEB |
| `TebList.AroundFacts` | src/teb.c:142-162 | stepping around a ring meets each position once before it is back |
| `TebList.AnyStartMakesTheSameCalls` | src/kernel32/fibersapi.c:125-135 | which TEB the walk starts from does not change which calls are made |
| `TebList.RowCallsSplit` | src/teb.c:272-293 | teardown of a TEB makes the call of one slot and the calls without that slot |
| `TebList.RowCallsMean` | src/teb.c:279-290 | the calls of a teardown are one for each slot with both a value and a callback, in the order of the slots |
| `TebList.CallsForMean` | src/kernel32/fibersapi.c:127-134 | those of FlsFree are one for each value that is not null, in the order of the walk |
| `TebList.AllCallsSplit` | src/teb.c:325-331 | the same over all TEBs |
| `TebList.FreeThenShutdownDeliversOnce` | src/teb.c:296-331 | FlsFree and then shutdown make together exactly the calls that shutdown alone would have made |
| `FlsExchange.DeliveredAtMostOnce` | src/teb.c:272-293 | in every interleaving no value is delivered twice, none while still in a slot, and each to a callback its index was allocated with |
| `FlsExchange.NothingGetsLost` | src/kernel32/fibersapi.c:75-145 | once all threads are idle each value is exactly one of: in the slot it was stored at, delivered, or lost to a later value of that slot, to a clearing of it afterwards, or to a teardown of its TEB that read no callback when the index had none |
| `FlsExchangeCalls.TeardownCompletes` | src/teb.c:272-293 | when a teardown returns, every slot of its TEB is empty and every value with a callback has been handed to it, where others kept away |
| `FlsExchangeCalls.FreeCompletes` | src/kernel32/fibersapi.c:97-145 | when FlsFree returns, at every TEB it came to, the caller's first, the slot is empty and its value has been handed to the callback |
| `FlsExchangeCalls.WalkGoesOn` | src/kernel32/fibersapi.c:133-134 | with or without a value to deliver the walk goes on to the next TEB, and ends where there is none |
| `FlsExchangeCalls.TeardownRunsOut` | src/teb.c:279-291 | a teardown comes to an end |
| `FlsExchangeCalls.ValuesAreSet` | src/kernel32/fibersapi.c:75-95 | setting, clearing, allocating and freeing do so, at one slot and one index |
| `FlsExchange.NoCallbackMeans` | src/teb.c:280-288 | an index has no callback where it was never allocated, or was last freed or allocated without one |
| `FlsExchange.FreeAndTeardownLoseAValue` | src/kernel32/fibersapi.c:117-134 | a run in which FlsFree holds the callback, a teardown finds none, and a value is never delivered |
| `FlsExchange.StepConserves` | src/kernel32/fibersapi.c:127-134 | every step keeps each value at exactly one place |
| `FlsExchange.StepIsRightful` | src/kernel32/fibersapi.c:97-145 | every step keeps values with the callbacks of their own index |
| `FlsExchange.RunKeepsInv` | src/teb.c:272-293 | so does every run |
| `Relocation.RelocateImage` | src/ldk.c:862-910 | the walk over the blocks applies exactly the fields the table lists, in place, and ends |
| `Relocation.RelocateBlock` | src/ldk.c:888-900 | one block of it |
| `Relocation.AddWord` | src/ldk.c:897 | one field gains the difference modulo the word size, all other bytes are as before |
| `Relocation.RelocatedFields` | src/ldk.c:862-910 | every field that the walk reads in the table becomes its old value plus actual minus preferred base modulo the word size; all other bytes are unchanged |
| `Relocation.TableIsRead` | src/ldk.c:886-907 | for every list of pages with their entries, written as a linker writes them, the walk reads exactly page plus offset of each entry that is not padding, in order |
| `Relocation.EntriesAreRead` | src/ldk.c:891-900 | one block of that |
| `Relocation.PagesAreRelocated` | src/ldk.c:862-910 | relocating an image with such a table adds the difference at exactly these places |
| `Relocation.RelocationsCompose` | src/ldk.c:862-910 | relocating twice is relocating once by the sum; relocating back restores the image |
| `Relocation.TableSurvives` | src/ldk.c:886-907 | the table is as before, so the image can be relocated again |
| `Relocation.ShiftsAdd` | src/ldk.c:897 | two differences one after the other are their sum |
| `Relocation.ShiftBack` | src/ldk.c:897 | the negated difference undoes the difference |
| `Relocation.AppliedHere` | src/ldk.c:897 | each field is changed once, whatever is changed after it |
| `Relocation.AppliedElsewhere` | src/ldk.c:897 | bytes outside the fields keep their values |
| `Relocation.ReducedShift` | src/ldk.c:884 | reducing the difference to the word size first changes nothing |
| `Exports.SearchIsScan` | src/ldk.c:593-633 | on a sorted table the recursive search agrees with looking at every entry, for every name |
| `Exports.SearchFinds` | src/ldk.c:593-633 | a name of a sorted table yields its ordinal |
| `Exports.SearchMisses` | src/ldk.c:593-633 | a name that is not in the table, sorted or not, yields 0xFFFF |
| `Exports.CompareIsOrder` | src/ldk.c:608-612 | the comparison is antisymmetric and zero exactly for equal names |
| `Exports.CompareIsLexical` | src/ldk.c:608-612 | one name comes before another exactly if it ends or has the smaller byte where they first differ |
| `Exports.ByNameIsByOrdinal` | src/ldk.c:2385-2529 | an export is the same by name and by ordinal, if and only if its entry is empty or base plus number of functions fits 32 bits |
| `Exports.WrappedBound` | src/ldk.c:2441 | a directory in which the sum wraps and an export is found by name only |
| `Exports.MissingNameFails` | src/ldk.c:2459-2467 | a name not exported is reported missing if and only if there are at most 0xFFFF functions or the one numbered 0xFFFF is empty |
| `Exports.MissingNameIsFound` | src/ldk.c:2459-2467 | a directory in which a name that is not exported is found |
| `Exports.NamedExportsAreFound` | src/ldk.c:2450-2478 | up to that number, what is found by name is exactly what the tables say |
| `Exports.LongNamesFail` | src/ldk.c:2448-2452 | a name is turned down exactly if it has more than 62 characters |
| `Exports.CStringEnds` | src/ldk.c:2454-2457 | what is compared of it ends before its first NUL |
| `Exports.BindThunks` | src/ldk.c:732-760 | each thunk before the terminator holds what the entry at its index resolves to, up to and with the first that fails; the rest of memory is unchanged; for thunks of 32 and of 64 bits, and also over the lookup table itself |
| `Exports.BindImports` | src/ldk.c:721-762 | over all descriptors: success if and only if every entry resolves, and then every thunk holds the address that the export tables give its name or number; else all before the first failing descriptor are bound, and the error says whether the failing entry was a name or a number; nothing else is written |
| `Exports.ResolvedIsExported` | src/ldk.c:2385-2529 | a name of an ascending table, or a number, resolves to base plus the offset at its index modulo the word size, or to what its forwarder comes to; nothing else resolves |
| `Exports.WrittenIsResolved` | src/ldk.c:738-760 | the table is complete exactly if every entry resolves |
| `Exports.BindBothWays` | src/ldk.c:732-736 | binding in place gives the addresses that binding beside a lookup table gives |
| `WideMultiply.ProductIsExact` | include/Ldk/winnt_arm64.h:999-1060 | high word times 2^64 plus low word is the product, for all factors |
| `WideMultiply.CarryIsFound` | include/Ldk/winnt_arm64.h:1048-1053 | comparing the sum with the addend finds exactly the carry |
| `WideMultiply.ShiftRightIsExact` | include/Ldk/winnt_arm64.h:963-978 | the low word of the 128-bit value shifted right by the shift modulo 64 |
| `WideMultiply.ShiftLeftIsExact` | include/Ldk/winnt_arm64.h:946-961 | the high word of the 128-bit value shifted left |
| `WideMultiply.ExtractIsExact` | include/Ldk/winnt_arm64.h:1120-1137 | the product divided by a power of two, modulo 2^64 |
| `WideMultiply.SignedProductIsExact` | include/Ldk/winnt_arm64.h:1062-1075 | the two words are the signed product if and only if no factor is negative, or one is zero, or both are negative and add up to -2^63 or -2^64 |
| `WideMultiply.SignedProductFails` | include/Ldk/winnt_arm64.h:1062-1075 | the product of -1 and 1 comes back with high word 1 |
| `WideMultiply.PopulationCountIsExact` | include/Ldk/winnt_arm64.h:900-933 | the six steps count the set bits of every word |
| `WideMultiply.StepKeepsTotal` | include/Ldk/winnt_arm64.h:908-930 | each step keeps the sum of the lanes while doubling their width |
| `SearchPath.UnicodeString.constructor` | src/kernel32/libloaderapi.c:733-736 | an empty string over a zeroed buffer |
| `SearchPath.UnicodeString.AppendElement` | src/kernel32/libloaderapi.c:800-821 | one element behind a semicolon, or nothing for an empty one; fails exactly when the result does not fit |
| `SearchPath.Measure` | src/kernel32/libloaderapi.c:701-721 | the first pass computes exactly the bytes of the joined path and its NUL |
| `SearchPath.DuplicateUserDllDirectories` | src/kernel32/libloaderapi.c:684-767 | the second pass never fails and fills the buffer exactly, NUL included; too long and empty cases as stated |
| `SearchPath.FillUserDllDirectories` | src/kernel32/libloaderapi.c:742-763 | no append runs out of room |
| `SearchPath.JoinIsInvertible` | src/kernel32/libloaderapi.c:799-821 | splitting the path at its semicolons gives back the non-empty directories in order |
| `SearchPath.JoinOfJoined` | src/kernel32/libloaderapi.c:918-933 | an element that is itself joined counts as its elements |
| `SearchPath.SizeSuffices` | src/kernel32/libloaderapi.c:872-880 | the size computed has room for every order and a NUL |
| `SearchPath.ComputeDllPath` | src/kernel32/libloaderapi.c:823-972 | the directories in the order of the mode, joined; fails exactly when the size cut to 16 bits is too small for the path, ends in a NUL exactly when it suffices for that too, and does both while the size fits |
| `SearchPath.SearchGoesInOrder` | src/kernel32/libloaderapi.c:882-972 | each mode visits exactly the places it is to visit, each once: the load directory, the image, then system and user directories in the order that the flags say, the environment last |
| `SearchPath.NoRoomForNul` | src/kernel32/libloaderapi.c:872-880 | directories for which the path comes out without a NUL |
| `SearchPath.FillDllPath` | src/kernel32/libloaderapi.c:888-972 | the appends of each mode, stopping at the first that does not fit |
| `SearchPath.AppendFlagged` | src/kernel32/libloaderapi.c:909-956 | the same for search flags |
| `SearchPath.AppendChosen` | src/kernel32/libloaderapi.c:934-956 | the same without the default directories |
| `StringBuffer.StringBuffer.EnsureBufferSize` | src/ntdll/buffer.c:7-50 | in place, within the static buffer, or copied to a new one, the old heap buffer freed; an error changes nothing |
| `StringBuffer.StringBuffer.MultiAppend` | src/ntdll/buffer.c:52-89 | all sources behind the old text with a NUL and exact lengths, or nothing changed; each error exactly in its case |
| `StringBuffer.StringBuffer.Fill` | src/ntdll/buffer.c:77-88 | the copying part |
| `StringBuffer.AppendInTwo` | src/ntdll/buffer.c:52-89 | appending in two calls is appending in one wherever both succeed, which with memory they do together |
| `TempName.HexIsInvertible` | src/kernel32/fileapi.c:5294-5323 | the four digits give back the 16 bits |
| `TempName.NamesAreDistinct` | src/kernel32/fileapi.c:5325-5385 | two names are equal exactly if their numbers agree in 16 bits |
| `TempName.NameFits` | src/kernel32/fileapi.c:5361-5367 | every name fits MAX_PATH together with its NUL |
| `TempName.NameParts` | src/kernel32/fileapi.c:5325-5385 | a name is the path, a backslash unless it has one, the first three characters of the prefix, the four digits from the highest on, and ".TMP" |
| `TempName.CanBuildMeans` | src/kernel32/fileapi.c:5347-5367 | it can be built exactly if all that is shorter than MAX_PATH and the path is there |
| `TempName.BuildTempFileName` | src/kernel32/fileapi.c:5325-5385 | the name and a NUL in the buffer, or an untouched buffer, exactly if no name can be built |
| `TempName.EveryNumberOnce` | src/kernel32/fileapi.c:5597-5601 | 0x10000 increments show each 16-bit number exactly once, from any start |
| `TempName.TempFiles.GetTempFileName` | src/kernel32/fileapi.c:5566-5634 | fails with ERROR_FILE_EXISTS exactly if all 65535 names are taken; otherwise a name that was free and is taken now, every earlier candidate having been taken |
| `TempName.TempFiles.Search` | src/kernel32/fileapi.c:5597-5633 | the loop of that |
| `CopyFile.Copy.Run` | src/kernel32/fileapi.c:2389-2542 | the destination is a prefix of the source and equals it on success; the events are the beginning of a well-ordered story, all of it on success, nothing after a stop or after QUIET; a pause ends in one error and a cancel or stop in another; each error has its cause, and success means that no check, read or write failed |
| `CopyFile.Copy.Loop` | src/kernel32/fileapi.c:2418-2525 | the same for the loop |
| `CopyFile.Copy.CopyChunk` | src/kernel32/fileapi.c:2457-2515 | one chunk, numbered next, reported with its size and the running sum |
| `CopyFile.Copy.WriteChunk` | src/kernel32/fileapi.c:2482-2494 | a short write is an error |
| `CopyFile.Progress.Invoke` | src/kernel32/fileapi.c:2121-2151 | no call once the routine has answered QUIET; the answer decides whether the copy goes on |
| `CopyFile.ChunkReported` | src/kernel32/fileapi.c:2457-2515 | chunks are numbered from one on without a gap, and each end reports the sum so far |

## Left out

- ModuleRegistry.Registry.GetDllHandle: which NT path a search path leads to is an input.
- ModuleRegistry.Registry.WalkImports: which status a failed import or thunk returns is not passed on; every such failure is `Failed`.
- ModuleRegistry.Registry.LoadTwice: `CanLoad` asks for the file of an import that is registered under its suffixed name only, and for a free index for every file with static TLS that the load meets, though some may be registered by then.
- ModuleRegistry.Registry.LoadDll: the walks over bound and plain import tables are both represented by the order in which imports are resolved; header and machine checks, the search path and the mapping of the file are a free choice of success or failure.
- ModuleRegistry.Registry.CallModule: whether the thread has a block at a TLS index is a set of indices; the blocks themselves are the subject of StaticTls.
- StaticTlsCalls.CallCompletes: that nobody else touches the slot meanwhile is demanded; in the code a thread attaches and detaches its own TEB only.
- Exports.BindImports: the modules are resolved already, which the registry does; a forwarded export is an arbitrary function of the forwarder's address, because following one keeps a library reference that no list records.
- TebList.Fls.FlsFree: without a callback the slots are not cleared, as in the code, and the contract says so.
- TebList.Fls.DeleteTeb: while it waits the other holders only release; what else they do meanwhile is not followed.
- TempName.TempFiles.GetTempFileName: without concurrent callers of the counter.
- FlsAlloc and FlsSetValue on the linked list: modelled only as steps of FlsExchange.
- ImportRace.SoundIfAndOnlyIfInTime: names, dependencies and MAXLONG are not followed there; a lookup may find any listed module, and whoever holds an entry may release it.
- Other interleavings of calls on the registry, such as two loads of one file at a time.
- Functions of built-in modules looked up by name.
- CopyFile2 before both files are open, and CopyFileW, which is the same loop without a routine.
- Sizes in bytes that are odd, in SearchPath and StringBuffer: strings are whole 16-bit units.
- Multiply128 of signed factors with a shift (MultiplyExtract128).
- Console, pipe, registry, heap and memory wrappers, code pages, COM apartments and strings: thin or delegated.
