# mcgateway: a Dafny model

mcgateway turns Kubernetes `Pool` and `Keyspace` objects into files, hot-reloads a
memcached proxy from those files, and answers reads by fanning out to several
pools and merging the responses with a native or a WASM function. This project
models the parts where the pieces have to agree with each other and proves that
they do, for all inputs and all runs.

`dafny verify dfyconfig.toml` checks everything.

## What is modelled

| file | part |
|---|---|
| `Text.dfy` | byte strings, their order, `sort.Slice` as a contract |
| `Render.dfy`, `Renderer.dfy` | the renderer of `render.go`: specification functions, and its loops proved against them |
| `Lua.dfy`, `RoundTrip.dfy` | the fragment of Lua the config is written in (string literals: section 3.1, table constructors: section 3.4.9 of the Lua 5.4 Reference Manual), and print-then-parse |
| `LuaConfig.dfy` | the config validator on the Lua side |
| `RenderProperties.dfy`, `RenderOutcome.dfy`, `RenderWarnings.dfy` | order independence, acceptance by the validator, locality, injectivity; which objects come out and which warnings are issued, said of the snapshot itself |
| `Commit.dfy`, `Reconcile.dfy` | the committer over a file system whose operations may fail or be cut short, and whole runs of the operator |
| `Gateway.dfy`, `Reload.dfy`, `Watcher.dfy` | directory scan, registry and last-good fallback; the reload protocol as a step machine; the debounce loop over timed events |
| `EndToEnd.dfy` | what is served once a rendered snapshot is on disk and nothing is pending |
| `Wire.dfy`, `Abi.dfy` | the WASM merge ABI: record layout, host writer, guest reader, result word, allocation balance |
| `TokenBucket.dfy` | the lock-free log limiter, for one caller and for any interleaving of threads |
| `Entries.dfy`, `Replies.dfy`, `Profile.dfy` | entries from responses, built-in merges, reply selection, write reduction, the recorded outcome; the profile-merging example |

The main results:

- `Reload.QuietMeansCaughtUp`, `Reload.NeverDiesAfterLoading` and
  `Reload.Settles`: over every interleaving of file changes, event batches,
  rescans that may fail, signals and reloads that look merges up one at a time, a
  gateway with nothing pending has the registry of the disk, unless the listing of
  the directory failed in its last rescan, and serves the config on disk if that
  loads against its registry, and otherwise the latest one that did; once a config
  has loaded no reload stops it; and once the files stop changing every run ends
  there after a bounded number of steps.
- `Reconcile.RunsAreSafe`: from an empty mount, over any passes cut short anywhere
  and any restarts, the config on disk never names a merge that is neither built
  in nor on disk, and never disappears after the first success. `RunActs` shows
  that such histories are what the reconciler produces, and that passes succeed
  when no call on the mount fails.
- `Reconcile.FilesAreWhole`: no state on the way ever holds part of a file.
- `EndToEnd.ServesTheSnapshot` and `EndToEnd.LoadsOnlySnapshots` join operator,
  renderer and gateway: what is served once all is quiet, and, at every moment of
  every interleaving, that whatever has loaded is what some snapshot renders to,
  pool by pool, keyspace by keyspace and field by field.
- `RoundTrip.ConfigRoundTrip`, `RenderProperties.OrderIndependence`,
  `RenderProperties.RenderedIsAccepted`, `RenderProperties.AddKeyspace`: the
  renderer as a compiler. `RenderOutcome.RenderedPools`, `RenderedModules` and
  `RenderedKeyspaces`: exactly what it keeps. `RenderWarnings.WarningsAre`: exactly
  what it warns about, and for which reason.
- `Abi.Run` and `Abi.Apply`: through any SDK-built guest a merge call returns what
  the guest's function returns and frees every block but the entry fields with
  the layout it was allocated under, whenever no call traps, the memory has room
  and the function names an entry that is there; through any guest at all it
  returns a miss, an index in range, or at most 16 MiB.
- `TokenBucket.GrantsBounded`, `TokenBucket.GrantsInWindow`: conservation of tokens.
  `TokenBucket.SpacedCallsGranted`, `TokenBucket.BurstAfterPause`: calls it must grant.
- `Replies.OutcomeMatchesReply`: the native outcome label is the class of the
  reply exactly outside one condition.

Conventions. Bytes are `char`s below 256. Failures are `Option` or `Result`-like
datatypes. I/O, clocks, the network, WASM compilation and the running of
arbitrary Lua are parameters (`Env`, times, snapshots) or nondeterministic
outcomes of methods (`Mount`, `Guest`). Which calls of the file system fail, which
rescans can list the directory and which calls of a guest trap is decided by
oracles given from outside.

Where the code and its own commentary disagree, the code is followed:

- `lua/mcgateway/routes.lua:118-122` says the generic no-backends reply needs
  every response to be nil. `Replies.NoBackendsIff` gives the exact condition and
  `Replies.NoBackendsDespiteStored` an input on which the comment fails.
- `lua/mcgateway/routes.lua:79-83` says an error reply needs every entry to be an
  error. `Replies.ErrorReplyIff` says exactly when the error is sent and when it
  is sent although some entry is not one; `Replies.MissOverHitsIsError` is the
  plainest such input: a merge that answers Miss over pools that all hit.
- `rust/crates/mcgateway-clib/src/lib.rs:329-332` allows one disagreement between
  label and reply. `Replies.OutcomeMatchesReply` proves it is the only one, and
  `Replies.SilentWinnerExample` that it occurs.

## Model

| member | source | states |
|---|---|---|
| `Text.SortBy` | go/internal/operator/render.go:124-125 | `sort.Slice`: a permutation of the input in non-decreasing key order |
| `Text.SortIsSorted` | go/internal/operator/render.go:124-125 | with distinct keys any such result is the one sorted list, so instability of the sort cannot show |
| `Text.LtIff` | go/internal/operator/render.go:124-125 | the order of strings: at the first place they differ the smaller byte decides, and a proper prefix comes first |
| `Render.ModulePathsDistinct` | go/internal/operator/render.go:77-82 | no two modules, and no module and the config, are written to the same path |
| `Renderer.CountNames` | go/internal/operator/render.go:94-97 | the count map holds exactly the names with how often each occurs |
| `Renderer.ContestedNames` | go/internal/operator/render.go:98-104 | whatever order the map is ranged over in, the sorted list of names that occur more than once |
| `Renderer.DedupByName` | go/internal/operator/render.go:93-116 | keeps exactly the objects whose name occurs once, in order, and warns once per contested name in name order |
| `RenderProperties.DedupedDistinct` | go/internal/operator/render.go:93-116 | after deduplication all names are distinct |
| `Renderer.FirstBad` | go/internal/operator/render.go:367-374 | the first empty string of a list, or none |
| `RenderProperties.PoolKeptIff` | go/internal/operator/render.go:128-151 | the checks find nothing wrong with a pool iff the Lua validator takes it as it will read it |
| `Renderer.CheckPool` | go/internal/operator/render.go:128-151 | no reason to skip a pool iff the Lua validator takes it; otherwise the reason the warning carries |
| `Renderer.RenderablePools` | go/internal/operator/render.go:123-153 | pools in name order, exactly those without a problem, one warning for each other |
| `Renderer.IsSafeModuleName` | go/internal/operator/render.go:280-292 | accepts exactly non-empty names of letters, digits, `_`, `-` that start with a letter or digit |
| `Renderer.CollectModules` | go/internal/operator/render.go:172-200 | the module map of the loop over keyspaces in name order: first definition of a name wins, conflicts and bad names are warned about |
| `RenderProperties.ModulesFacts` | go/internal/operator/render.go:172-200 | every collected module has a safe name that is not a built-in's |
| `Renderer.CheckPoolList` | go/internal/operator/render.go:257-275 | the first problem of a read or write list, in the order the source looks |
| `RenderProperties.KeyspaceKeptIff` | go/internal/operator/render.go:212-250 | the checks find nothing wrong with a keyspace iff the Lua validator takes it and its merge is a built-in or a rendered module |
| `Renderer.CheckKeyspace` | go/internal/operator/render.go:212-250 | no reason to skip a keyspace iff the Lua validator takes it beside the pools and modules and its prefix is new; otherwise the reason the warning carries |
| `Renderer.RenderableKeyspaces` | go/internal/operator/render.go:206-255 | the keyspaces let through, in prefix order, and the warnings in name order |
| `RenderProperties.KeyspacesFacts` | go/internal/operator/render.go:206-255 | what is let through is routable and has distinct prefixes, and the prefixes seen are exactly those let through |
| `Renderer.LuaQuote` | go/internal/operator/render.go:347-365 | the loop prints the literal that `Lua.LexQuoted` reads back |
| `Renderer.RenderConfig` | go/internal/operator/render.go:297-332 | the string builder ends up holding exactly `ConfigText` |
| `Renderer.RenderSnapshot` | go/internal/operator/render.go:64-84 | the imperative renderer computes the specified tree and the specified warnings in order |
| `RenderProperties.RenderedFacts` | go/internal/operator/render.go:64-84 | for every snapshot: pools in name order without problems, keyspaces in prefix order, each routable among the rendered pools and modules |
| `RenderProperties.OrderIndependence` | go/internal/operator/render.go:59-84 | permuted snapshots render to the same files and the same warnings in the same order |
| `RenderProperties.AddKeyspace` | go/internal/operator/render.go:172-255 | a newcomer without a module leaves pools and modules alone; skipped, it leaves the files identical; with an unused prefix, all other keyspaces stay, in order |
| `RenderProperties.NewcomerSkipped` | go/internal/operator/render.go:206-255 | a keyspace that is not let through leaves the outcome for all others alone |
| `RenderProperties.SortedAdd` | go/internal/operator/render.go:207-253 | sorting with one element more inserts it and moves nothing else |
| `RenderOutcome.RenderedPools` | go/internal/operator/render.go:86-153 | a pool comes out iff no other object has its name and the Lua validator takes it |
| `RenderOutcome.RenderedModules` | go/internal/operator/render.go:155-200 | a module comes out iff a uniquely named keyspace offers it usably, with the bytes of the first such keyspace by name |
| `RenderOutcome.RenderedKeyspaces` | go/internal/operator/render.go:202-255 | a keyspace comes out iff its name is its own, the Lua validator takes it, and no such keyspace with a smaller name has its prefix |
| `RenderWarnings.PoolProblemIs` | go/internal/operator/render.go:128-151 | the reason given for a pool is true of it, and no reason true of it comes earlier in the order of the checks; none is given iff none is true |
| `RenderWarnings.CheckListIs` | go/internal/operator/render.go:257-275 | the problem reported of a pool list is what is the matter with its first bad item, and it is the only one that could be reported |
| `RenderWarnings.KeyspaceProblemIs` | go/internal/operator/render.go:212-250 | the same for the reason given for a keyspace |
| `RenderWarnings.WarningsAre` | go/internal/operator/render.go:46-255 | a warning is issued iff the snapshot deserves it: the name is shared by that many objects; or the first thing wrong with a uniquely named pool or keyspace; or its module has an unsafe name, a built-in's name, or other bytes than come out under its name |
| `RenderWarnings.NothingDroppedSilently` | go/internal/operator/render.go:46-54 | every object that does not come out is warned about under its kind and name, and so is every keyspace whose module's bytes do not |
| `Lua.LexQuoted` | go/internal/operator/render.go:342-365 | lexing a quoted byte string gives it back whatever follows, a digit after a decimal escape included |
| `Lua.LexLayout` | go/internal/operator/render.go:297-332 | text laid out as tokens with white space where needed lexes to those tokens |
| `RoundTrip.ConfigRoundTrip` | go/internal/operator/render.go:297-365 | parsing the printed config returns exactly the pools and keyspaces given, for arbitrary bytes in every field |
| `RenderProperties.ConfigTextInjective` | go/internal/operator/render.go:297-365 | configs with equal text have equal pools and equal routing |
| `LuaConfig.ValidatePool` | lua/mcgateway/config.lua:16-38 | accepts exactly well-formed pools with a name not seen before, and marks the name |
| `LuaConfig.ValidatePoolList` | lua/mcgateway/config.lua:47-64 | accepts exactly non-empty lists of distinct known pool names |
| `LuaConfig.ValidateKeyspace` | lua/mcgateway/config.lua:66-113 | accepts exactly well-formed keyspaces with a fresh prefix and a registered merge; the result, field by field: lists as given or wrapped, policy and merge as given or the defaults `all` and `first-hit`, the flags of the merge, and nothing else changed |
| `LuaConfig.Validate` | lua/mcgateway/config.lua:115-129 | succeeds if and only if the declarative acceptance condition holds; pools are as given and every keyspace is filled in so |
| `LuaConfig.NormalizedFills` | lua/mcgateway/config.lua:66-129 | the same of the normalised table, for any well-formed config and any flags |
| `RenderProperties.RenderedIsAccepted` | go/internal/operator/render.go:123-275 | for every snapshot the rendered text parses and passes the Lua validator once the registry holds the built-ins and the rendered modules |
| `RenderProperties.MergeResolves` | go/internal/operator/render.go:243-249 | the merge the validator will look up for a rendered keyspace is a built-in or a rendered module |
| `Commit.Mount.ReadDir` | go/internal/operator/commit.go:14-36 | the files of a directory; may fail |
| `Commit.Mount.WriteFile` | go/internal/operator/commit.go:14-36 | on failure the one file may hold anything, nothing else changes |
| `Commit.Mount.Rename` | go/internal/operator/commit.go:14-36 | atomic; a reported failure may have happened |
| `Commit.Mount.Remove` | go/internal/operator/commit.go:14-36 | a reported failure may have happened |
| `Commit.RemoveFrom` | go/internal/operator/commit.go:171-193 | removes exactly the files of a directory with the suffix that are not kept; every state on the way only lacks such files; nothing to remove means no operation |
| `Commit.SweepTemp` | go/internal/operator/commit.go:171-193 | no staging file is left in either directory and nothing else is touched |
| `Commit.WriteIfChanged` | go/internal/operator/commit.go:146-167 | equal content means no operation; otherwise each state on the way has the old or the new content, never a part of it |
| `Commit.WriteModules` | go/internal/operator/commit.go:97-109 | all modules in place, config untouched in every state, reports exactly the changed ones |
| `Commit.CommitConfig` | go/internal/operator/commit.go:111-116 | the config swap: every state is still before or already after |
| `Commit.RemoveStale` | go/internal/operator/commit.go:118-141 | only modules that are not desired go, and only after the config |
| `Commit.CommitTree` | go/internal/operator/commit.go:72-142 | every state it adds to the mount's history has the old config and every other file as it was or whole from the tree, or the whole new tree with its bytes and nothing gone but modules; success on a flat tree gives exactly the committed mount and an exact report; a settled mount sees no operation; it succeeds unless a call failed |
| `Commit.CommittedIsSettled` | go/internal/operator/commit.go:72-142 | committing again finds nothing to do |
| `Commit.CommittedContents` | go/internal/operator/commit.go:72-142 | config and modules equal the tree, no staging file, no other file touched |
| `Reconcile.PassingIsSafe` | go/internal/operator/commit.go:53-71 | every state of a commit is safe if the mount it started from and the tree are |
| `Reconcile.RenderedSelfContained` | go/internal/operator/render.go:64-84 | every merge named in a rendered config, as Lua would read it, is a built-in or has its module in the tree |
| `Reconcile.CommitPass` | go/internal/operator/commit.go:72-142 | one commit as a list of states, from the mount it found to the mount it left, each old or new |
| `Reconcile.PassKeeps` | go/internal/operator/commit.go:53-71 | such a pass keeps a safe mount safe throughout and a config that is there, and puts one there if it succeeds |
| `Reconcile.Reconciler.Reconcile` | go/internal/operator/controller.go:39-81 | one more turn of the history, which accounts for every state of the mount; the flag goes up exactly on success, and it succeeds unless List or a call failed |
| `Reconcile.Reconciler.Ready` | go/internal/operator/controller.go:83-87 | if it says yes, a pass has succeeded since the process started and the mount has a config |
| `Reconcile.RunsAreSafe` | go/internal/operator/controller.go:39-87 | in every history from an empty mount no state names a missing merge, and after a success, so from ready on, no state of any later turn lacks a config, restarts or not |
| `Reconcile.RunActs` | go/internal/operator/controller.go:39-87 | any acts in order give a history that is the mount's own; where no call fails every pass that gets its lists succeeds |
| `Reconcile.FilesAreWhole` | go/internal/operator/commit.go:144-167 | in every state of every history each file but staging files holds, whole, what some pass so far rendered for its path |
| `Gateway.NativeAgrees` | go/internal/operator/render.go:30-34 | the Go list of built-ins is exactly the native registry |
| `Gateway.ScanDir` | rust/crates/mcgateway-clib/src/udf_loader.rs:80-118 | the table is that of the directory afresh: stems that load and shadow no native |
| `Gateway.ScannedFlags` | rust/crates/mcgateway-clib/src/udf_loader.rs:80-118 | a name is in the table with given flags iff its file is there, it shadows no native, and its load declared those flags |
| `Gateway.NativeFlags` | rust/crates/mcgateway-core/src/builtins.rs:77-87 | last-write-wins asks for `t`, the other two natives for nothing |
| `Gateway.NativesWin` | rust/crates/mcgateway-clib/src/registries.rs:49-78 | a native answers under its own name whatever the table holds, the table under any other |
| `Gateway.Registries.RequiredFlags` | rust/crates/mcgateway-clib/src/registries.rs:73-78 | lookup in the composite registry, natives first |
| `Gateway.Registries.Has` | rust/crates/mcgateway-clib/src/registries.rs:49-54 | membership in the composite registry |
| `Gateway.Registries.RescanInto` | rust/crates/mcgateway-clib/src/lib.rs:67-81 | where the directory can be listed the whole table is replaced by the scan; where it cannot the table stays |
| `Gateway.ConfigModule.LoadConfig` | lua/mcgateway.lua:36-55 | a config that loads is put in place and remembered; one that does not puts the remembered one in place and forgets nothing, and is fatal exactly when there is none |
| `Gateway.LoadsRemember` | lua/mcgateway.lua:36-55 | over any loads: fatal iff a load fails and none before it succeeded, and otherwise both fields are the latest config that loaded |
| `Gateway.ConfigModule.LoadAll` | lua/mcgateway.lua:36-55 | the same of the module: after any loads its config is that of the latest that succeeded, and it stops exactly where a load fails with none before it |
| `Gateway.ConfigModule.UseConfig` | lua/mcgateway.lua:61-63 | installs a table and leaves the last good alone |
| `Reload.FileChangeKeeps` | rust/crates/mcgateway-clib/src/watcher.rs:125-162 | a change on disk with its events queued keeps the invariant |
| `Reload.ReceiveKeeps` | rust/crates/mcgateway-clib/src/watcher.rs:164-189 | taking an event into the batch loses no pending work |
| `Reload.CloseBatchKeeps` | rust/crates/mcgateway-clib/src/watcher.rs:190-200 | closing a batch turns it into a rescan, a signal or nothing without losing work |
| `Reload.ScanFileKeeps` | rust/crates/mcgateway-clib/src/udf_loader.rs:86-117 | a scan loads one file at a time from the disk as it is then |
| `Reload.SwapTableKeeps` | rust/crates/mcgateway-clib/src/registries.rs:44-46 | publishing a scan nothing disturbed makes the registry that of the disk |
| `Reload.ReloadReadKeeps` | lua/mcgateway.lua:36-55 | reading and shape-checking the file, or falling back |
| `Reload.ReloadLookupKeeps` | lua/mcgateway/config.lua:94-112 | each merge is looked up in the registry of that moment |
| `Reload.ReloadDoneKeeps` | lua/mcgateway.lua:49-54 | a check nothing disturbed is the load against the present registry |
| `Reload.StepKeeps` | rust/crates/mcgateway-clib/src/lib.rs:114-148 | every step of every party keeps the invariant |
| `Reload.RunKeeps` | rust/crates/mcgateway-clib/src/lib.rs:114-148 | the invariant holds in every reachable state |
| `Reload.RunScans` | rust/crates/mcgateway-clib/src/lib.rs:67-81 | in every reachable state: each rescan whose listing worked published its table and no other did, the registry is the latest published, and a rescan counts as failed iff the latest listing failed |
| `Reload.QuietMeansCaughtUp` | rust/crates/mcgateway-clib/src/watcher.rs:164-200 | nothing pending: registry equals scan unless the listing of the latest rescan failed, and is in any case the latest published; serving config is that on disk if it loads, in any case the latest that loaded |
| `Reload.QuietHasTheDisk` | rust/crates/mcgateway-clib/src/watcher.rs:164-200 | where no listing fails, nothing pending means the registry is the scan of the disk |
| `Reload.Settles` | rust/crates/mcgateway-clib/src/watcher.rs:164-200 | once files stop changing every run is bounded, and where no step is left the gateway is quiet and caught up, or gone without ever having loaded |
| `Reload.NeverDiesAfterLoading` | lua/mcgateway.lua:36-55 | once a config has loaded, none is forgotten, the process does not exit and a config is served |
| `Reload.LoadsWhatWasOnDisk` | lua/mcgateway.lua:36-55 | every config that ever loads is the validated form of one that was on disk at some moment before |
| `EndToEnd.RenderedLoadsIff` | lua/mcgateway/config.lua:115-129 | a rendered tree on disk and scanned loads if and only if every module it routes through does |
| `EndToEnd.AcceptedServes` | lua/mcgateway/config.lua:66-129 | what the validator makes of a rendered config, of pools and keyspaces: names, addresses, prefix, lists, policy or `all`, merge or `first-hit`, and the flags the registry gives for it |
| `EndToEnd.ServesTheSnapshot` | go/internal/operator/controller.go:39-81 | after a commit, with nothing pending and the latest listing good, the gateway serves exactly the rendered pools and keyspaces, field by field, or the latest config that loaded if a routed module does not load |
| `EndToEnd.LoadsOnlySnapshots` | go/internal/operator/controller.go:39-81 | over any operator history and any gateway interleaving on its mount, every config ever loaded has, field by field, the pools and keyspaces some snapshot of that history renders to |
| `Watcher.TakeBatch` | rust/crates/mcgateway-clib/src/watcher.rs:164-199 | closes a debounce after the last event or at the age cap, takes no event it should not, leaves none it should take, and acts as the events demand |
| `Watcher.Watch` | rust/crates/mcgateway-clib/src/watcher.rs:164-200 | the batches cut the whole stream into consecutive stretches |
| `Watcher.EventIsActedOn` | rust/crates/mcgateway-clib/src/watcher.rs:149-200 | each relevant event is in exactly one batch, which requests exactly one reload within the age cap, after a rescan if a module was touched |
| `Watcher.IdleBatch` | rust/crates/mcgateway-clib/src/watcher.rs:190-200 | a batch acts if and only if it holds a relevant event |
| `Watcher.BatchActions` | rust/crates/mcgateway-clib/src/watcher.rs:190-199 | a batch with a module event rescans, then asks for a reload put down to it; one with only a config event asks for a reload put down to that; any other does nothing |
| `Wire.LERoundTrip` | rust/crates/mcgateway-wasm-host/src/lib.rs:704-714 | little-endian bytes read back as the number |
| `Wire.LowByteFirst` | rust/crates/mcgateway-wasm-host/src/lib.rs:704-714 | the low byte comes first |
| `Wire.TwosComplement` | rust/crates/mcgateway-wasm-host/src/lib.rs:714 | a negative `t` goes out modulo 2^64 and comes back |
| `Wire.RecordWord` | rust/crates/mcgateway-wasm-host/src/lib.rs:694-715 | each 32-bit word of a record is at its offset |
| `Wire.RecordLayout` | rust/crates/mcgateway-wasm-host/src/lib.rs:694-715 | the 48 bytes: four pointers with lengths, status 0, 1 or 2, whether there is a `t`, and the `t` |
| `Wire.StatusReads` | rust/crates/mcgateway-sdk/src/lib.rs:243-247 | codes 0 and 1 read as hit and miss, any other as an error |
| `Wire.TextDecodes` | rust/crates/mcgateway-sdk/src/lib.rs:253-255 | a pool name that passes for text is the UTF-8 encoding of Unicode scalar values |
| `Wire.EncodedIsText` | rust/crates/mcgateway-sdk/src/lib.rs:253-255 | and every such encoding passes |
| `Wire.EntryRoundTrip` | rust/crates/mcgateway-sdk/src/lib.rs:227-281 | reading a record gives the entry back, negative `t` and empty against absent fields included |
| `Abi.Guest.Alloc` | rust/crates/mcgateway-sdk/src/lib.rs:185-199 | an honest allocator returns an aligned non-null block apart from all live ones and keeps those, unless the call traps or the memory is full; any other returns anything |
| `Abi.Guest.Dealloc` | rust/crates/mcgateway-sdk/src/lib.rs:201-208 | gives back one block, which an honest guest may demand to be live with that layout; null does nothing |
| `Abi.WriteKeepsOthers` | rust/crates/mcgateway-wasm-host/src/lib.rs:657-683 | a write inside one live block changes no other |
| `Abi.WriteBlob` | rust/crates/mcgateway-wasm-host/src/lib.rs:657-683 | the four writes lay the fields end to end, and no `base + off` leaves u32 whatever `base` a guest returned |
| `Abi.WriteFields` | rust/crates/mcgateway-wasm-host/src/lib.rs:626-691 | one block per entry, recorded pointers that denote the fields; fails only on a trap or when the memory is too full |
| `Abi.EncodeEntry` | rust/crates/mcgateway-wasm-host/src/lib.rs:694-715 | the scratch array ends up holding exactly the record, whatever it held before |
| `Abi.WriteRecords` | rust/crates/mcgateway-wasm-host/src/lib.rs:594-599 | through one scratch buffer, record after record into the array block |
| `Abi.WriteEntries` | rust/crates/mcgateway-wasm-host/src/lib.rs:564-607 | memory holds all entries; live blocks are the old ones, one per entry, and the array |
| `Abi.DecodeEntries` | rust/crates/mcgateway-sdk/src/lib.rs:227-281 | the guest's loop reads the records in order |
| `Abi.DecodesToItems` | rust/crates/mcgateway-sdk/src/lib.rs:227-281 | what the guest decodes from what the host wrote is the same entries |
| `Abi.EncodeResult` | rust/crates/mcgateway-sdk/src/lib.rs:290-321 | the word stands for the result, and exactly its payload and descriptor blocks were handed out |
| `Abi.CallMerge` | rust/crates/mcgateway-sdk/src/lib.rs:227-321 | an honest guest returns the encoding of its function on the decoded entries |
| `Abi.DecodeSynthesized` | rust/crates/mcgateway-wasm-host/src/lib.rs:730-748 | bytes copied out, both blocks freed with the layouts they were allocated under; never more than the memory cap |
| `Abi.DecodeResult` | rust/crates/mcgateway-wasm-host/src/lib.rs:717-757 | undoes `EncodeResult`; error tags and unknown tags fail |
| `Abi.Run` | rust/crates/mcgateway-wasm-host/src/lib.rs:508-544 | a result equals the guest's function on the entries and only field blocks stay live; the result comes whenever none of its calls, at most one per entry and seven, traps, the memory has room and the index is in range |
| `Abi.Apply` | rust/crates/mcgateway-wasm-host/src/lib.rs:488-494 | for any guest a usable result; for an honest one the function's result or a miss, and the function's result under those conditions on its at most one call per entry and seven |
| `TokenBucket.Advanced` | rust/crates/mcgateway-clib/src/metrics.rs:419-434 | the new mark does not overflow, does not pass the clock and is less than an interval behind it |
| `TokenBucket.StepKeeps` | rust/crates/mcgateway-clib/src/metrics.rs:418-446 | every atomic access of every thread keeps the conservation law, stale loads included |
| `TokenBucket.GrantsBounded` | rust/crates/mcgateway-clib/src/metrics.rs:418-446 | any interleaving: tokens at most the capacity, grants at most capacity plus whole intervals up to the latest clock |
| `TokenBucket.UndisturbedCall` | rust/crates/mcgateway-clib/src/metrics.rs:418-446 | the machine run by one thread alone does what the method does |
| `TokenBucket.TokenBucket.constructor` | rust/crates/mcgateway-clib/src/metrics.rs:398-407 | starts full; a zero interval counts as a nanosecond and a huge one saturates |
| `TokenBucket.TokenBucket.TryAcquireAt` | rust/crates/mcgateway-clib/src/metrics.rs:418-446 | grants exactly if tokens plus whole intervals since the mark, at most the capacity, are positive, leaves one less, and moves the mark by those intervals |
| `TokenBucket.RefillIs` | rust/crates/mcgateway-clib/src/metrics.rs:419-434 | the refill is tokens plus whole intervals, at most the capacity; saturation never shows |
| `TokenBucket.GrantedAfterInterval` | rust/crates/mcgateway-clib/src/metrics.rs:418-446 | a call an interval or more after the mark finds a token unless the capacity is zero |
| `TokenBucket.SpacedCallsGranted` | rust/crates/mcgateway-clib/src/metrics.rs:418-446 | of calls at least an interval apart, the first that long after the mark, every one is granted unless the capacity is zero |
| `TokenBucket.BurstAfterPause` | rust/crates/mcgateway-clib/src/metrics.rs:398-446 | after a pause of as many intervals as the capacity, that many calls in any quick succession are granted |
| `TokenBucket.CallsConserve` | rust/crates/mcgateway-clib/src/metrics.rs:418-446 | each grant is paid for by a token or a credit, each credit by an interval of the mark |
| `TokenBucket.GrantsInWindow` | rust/crates/mcgateway-clib/src/metrics.rs:398-446 | one caller, non-decreasing clock: at most capacity plus one per interval begun in the window |
| `Entries.ParseT` | lua/mcgateway/entries.lua:28-35 | the number of the first word on the line that is `t` and an integer, if any; a float if it does not fit 64 bits |
| `Entries.HeaderTime` | lua/mcgateway/entries.lua:26-35 | reading the flag undoes printing it, for every integer and whatever other words are around it: an integer within 64 bits, a float beyond; without it, none |
| `Entries.FlagShape` | lua/mcgateway/entries.lua:26-35 | a word counts as the flag iff it is `t`, an optional minus and digits, for the number these say |
| `Entries.BodyOfFrame` | lua/mcgateway/entries.lua:64-70 | the value of a framed response is cut out exactly, whatever bytes it holds; an empty one counts as absent |
| `Entries.Make` | lua/mcgateway/entries.lua:45-82 | hit iff the response is ok and a hit, miss iff ok and no hit, error iff there is none or it is not ok; on a hit the line of the response, its `t`, and the announced number of bytes before the final line end; otherwise none of these |
| `Entries.BuildEntries` | lua/mcgateway/entries.lua:90-96 | one entry per pool in read order, made from its response |
| `Replies.FirstHit` | rust/crates/mcgateway-core/src/builtins.rs:11-20 | the first hit, or a miss if there is none |
| `Replies.PoolPreferred` | rust/crates/mcgateway-core/src/builtins.rs:26-30 | the same |
| `Replies.LastWriteWins` | rust/crates/mcgateway-core/src/builtins.rs:53-75 | the earliest hit with the greatest `t`; without any `t` the first hit |
| `Replies.LatestByTime` | rust/crates/mcgateway-core/src/builtins.rs:53-75 | among hits with integer flags the winner has the greatest, and is the earliest that has it |
| `Replies.BuiltinsAreFunctions` | rust/crates/mcgateway-core/src/builtins.rs:11-75 | those conditions determine the result |
| `Replies.SelectReply` | lua/mcgateway/routes.lua:57-96 | winner's response, fresh bytes, first concrete miss, made-up miss, first concrete error, generic error, in that order |
| `Replies.BuiltinReply` | lua/mcgateway/routes.lua:54-96 | with a built-in merge, of the responses: hit iff some is ok and a hit, miss iff none is and some is ok without, error iff every pool was silent or not ok |
| `Replies.NothingChosen` | lua/mcgateway/routes.lua:78-96 | where no answering pool is chosen: the first response that says miss, else the first error a pool sent, else the all-failed error; never the made-up miss |
| `Replies.ReadOutcome` | rust/crates/mcgateway-clib/src/lib.rs:333-349 | the recorded outcome |
| `Replies.OutcomeMatchesReply` | rust/crates/mcgateway-clib/src/lib.rs:325-349 | label equals reply class if and only if not: the winner is silent and another pool missed |
| `Replies.SilentWinnerExample` | rust/crates/mcgateway-clib/src/lib.rs:329-332 | an input on which they differ |
| `Replies.ErrorReplyIff` | lua/mcgateway/routes.lua:54-96 | an error is sent iff the chosen entry is one, or nothing was chosen and no pool missed; and exactly when that happens although some pool did not fail |
| `Replies.MissOverHitsIsError` | lua/mcgateway/routes.lua:78-96 | a merge answering Miss over hits only gives the all-failed error |
| `Replies.ReduceWriteAll` | lua/mcgateway/routes.lua:123-136 | the worst rank and the first concrete response of that rank |
| `Replies.RankIs` | lua/mcgateway/routes.lua:101-110 | rank 1 iff ok with a code for stored, deleted or ok, 2 iff ok with any other, 3 iff silent or not ok |
| `Replies.StoredIffAllStored` | lua/mcgateway/routes.lua:101-136 | success iff every pool acknowledged, error iff some pool failed |
| `Replies.NoBackendsIff` | lua/mcgateway/routes.lua:112-136 | the generic reply iff some pool was silent and none gave a concrete error |
| `Replies.NoBackendsDespiteStored` | lua/mcgateway/routes.lua:118-136 | it appears although a pool stored the value |
| `Replies.RankOrderIndependent` | lua/mcgateway/routes.lua:123-136 | the order of the pools does not change the rank |
| `Profile.SortByTime` | rust/examples/merge-profile-proto/src/lib.rs:73-76 | stable: by timestamp, ties by place in the list |
| `Profile.MergeProfiles` | rust/examples/merge-profile-proto/src/lib.rs:50-93 | scalars from the newest, each attribute from the newest that has it, badges the sorted union; Miss iff nothing decoded |
| `Profile.MergeUnique` | rust/examples/merge-profile-proto/src/lib.rs:50-93 | those requirements determine the merged profile |
| `Profile.MergeOrderIndependent` | rust/examples/merge-profile-proto/src/lib.rs:50-93 | with distinct timestamps the order of the pools does not matter |
| `Profile.MergeIdempotent` | rust/examples/merge-profile-proto/src/lib.rs:50-93 | merging a merged profile alone returns it |

## Left out

- The wasmtime engine, its pool, epoch ticker, WASI linker and log import; only memory, allocation and calls remain, and a trap is a call that does not return.
- The reading of `required_flags` from a module and its compilation; both are the abstract `Env.load`.
- A guest built with the SDK whose allocator returns null inside `encode_synthesized`; as the comment there says, running out of memory is taken to trap.
- The memory the guest's own code takes while it merges, beyond what it hands to the host; running out of it is a trap.
- Out-of-bounds reads inside the guest, which the records of the host codec never cause; `Wire.Slice` gives no bytes for them.
- A merge function that keeps state or memory between calls; each call has an instance of its own and the function is a function of the entries.
- Prometheus families, the scrape server, histograms, log lines and log budgets, and the classification of merge failures for metrics.
- `osFS`: path joining, fsync, symbolic links, directories as entries.
- Event delivery by `notify`, canonicalisation and signal delivery; changes of watched paths queue an event and SIGHUP is a flag.
- The window between the first scan at boot and the arming of the watches; runs start after it.
- Building pools and routes after validation (`lua/mcgateway/pools.lua`, `build_routes`).
- Lua outside the `return` of a table literal; such a chunk goes through the abstract `Env.eval`. Lua tables are values here, so two keyspaces sharing one table are not told apart from two equal ones.
- What a `t` beyond 64 bits does on the way to the native side, where the conversion raises; and how such a float is rounded.
- An entry's key and elapsed time, which no reply depends on, and the hand-over of entries from Lua to the native side; the WASM boundary starts from native entries.
- Write policy `first`, the router tables, request building, and `Registries::names`.
- The formatted text of warnings; they are data with the same information, in the same order.
- Kubernetes wiring, CRDs, Helm chart, proc macro, protobuf encoding.
- Weak-memory reordering between the two atomics of the token bucket beyond stale loads of the mark.
- Text.SortBy: the sorting algorithm is not that of Go's library; only its contract is used.
- Commit.CommitTree: the exact final mount is stated for trees whose modules sit directly under `udf/`, because sweeping and stale removal look no deeper.
