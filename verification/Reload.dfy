/**
  The live-reload protocol as a step machine: files change under the gateway's
  feet, the watcher thread batches events, rescans and raises SIGHUP, and the
  proxy reloads. Every step is one observable action of one party, so a run is
  any interleaving; a rescan loads one file per step and a validation resolves
  one merge per step, each against whatever is there at that moment.

  Modelled from rust/crates/mcgateway-clib/src/watcher.rs (the thread's loop),
  lib.rs (rescan_into and the reload wiring) and lua/mcgateway.lua.
 */
module Reload {
  import opened Text
  import opened Lua
  import opened Commit
  import opened Render
  import opened Gateway
  import LuaConfig

  datatype Event = ConfigEvent | UdfEvent | OtherEvent

  /** Where the watcher thread is. */
  datatype Watcher =
    | Idle
    | Collecting(config: bool, udf: bool)
    | Scanning(todo: set<Str>, table: map<Str, Str>)
    | Signalling

  /** Where the proxy's config thread is. */
  datatype Proxy =
    | Waiting
    | Reading
    | Checking(cfg: Value, flags: seq<Str>)
    | Dead

  datatype State = State(
    files: Files,
    queue: seq<Event>,
    watcher: Watcher,
    wasm: map<Str, Str>,
    rescanFailed: bool,     // the latest rescan could not list the directory
    scans: nat,             // rescans finished so far
    published: seq<map<Str, Str>>, // every table that was ever in place, oldest first
    sighup: bool,           // a signal is pending; starting a reload clears it
    proxy: Proxy,
    loaded: Loaded,
    history: seq<Value>)    // every config that loaded, oldest first

  // ---------------------------------------------------------------- steps

  /** A name a module file can have: `.wasm` on its own has no extension, so it is no module's file. */
  predicate IsStem(n: Str) {
    n != [] && '/' !in n
  }

  /** No module on disk differs. */
  ghost predicate SameModules(a: Files, b: Files) {
    forall n | IsStem(n) :: At(a, ModulePath(n)) == At(b, ModulePath(n))
  }

  /** An atomic change of the mount; the armed watches queue an event for every relevant path it touches. */
  ghost predicate FileChange(s: State, s': State) {
    exists events: seq<Event> ::
      && s' == s.(files := s'.files, queue := s.queue + events)
      && (At(s'.files, CONFIG_FILE) != At(s.files, CONFIG_FILE) ==> ConfigEvent in events)
      && (!SameModules(s.files, s'.files) ==> UdfEvent in events)
  }

  /** recv or recv_timeout hands the thread the next event. */
  ghost predicate Receive(s: State, s': State) {
    && s.queue != [] && (s.watcher.Idle? || s.watcher.Collecting?)
    && var e := s.queue[0];
       var config := s.watcher.Collecting? && s.watcher.config;
       var udf := s.watcher.Collecting? && s.watcher.udf;
       s' == s.(queue := s.queue[1..], watcher := Collecting(config || e == ConfigEvent, udf || e == UdfEvent))
  }

  /**
    The batch closes: rescan if a module was touched, else go straight to the
    signal, if there is anything to signal.
   */
  ghost predicate CloseBatch(s: State, s': State) {
    && s.watcher.Collecting?
    && s' == s.(watcher :=
         if s.watcher.udf then Scanning(Stems(s.files), map[])
         else if s.watcher.config then Signalling
         else Idle)
  }

  ghost predicate ScanFile(env: Env, s: State, s': State) {
    && s.watcher.Scanning?
    && exists n | n in s.watcher.todo ::
         var flags := LoadedFlags(env, s.files, n);
         s' == s.(watcher := Scanning(
           s.watcher.todo - {n},
           if flags.Some? then s.watcher.table[n := flags.value] else s.watcher.table))
  }

  /** The directory could be listed: the finished table is published in one store. */
  ghost predicate SwapTable(env: Env, s: State, s': State) {
    && s.watcher.Scanning? && s.watcher.todo == {} && env.lists(s.scans)
    && s' == s.(
         wasm := s.watcher.table, published := s.published + [s.watcher.table],
         rescanFailed := false, scans := s.scans + 1, watcher := Signalling)
  }

  /** The directory could not be listed: the previous table stays, the reload is requested all the same. */
  ghost predicate ScanFails(env: Env, s: State, s': State) {
    && s.watcher.Scanning? && !env.lists(s.scans)
    && s' == s.(rescanFailed := true, scans := s.scans + 1, watcher := Signalling)
  }

  ghost predicate Signal(s: State, s': State) {
    && s.watcher.Signalling?
    && s' == s.(sighup := true, watcher := Idle)
  }

  ghost predicate ReloadStart(s: State, s': State) {
    && s.proxy.Waiting? && s.sighup
    && s' == s.(sighup := false, proxy := Reading)
  }

  /** A load that ends without a config: last good, or exit if nothing ever loaded. */
  function Failed(s: State): State {
    match AfterLoad(s.loaded, None)
    case Some(l) => s.(proxy := Waiting, loaded := l)
    case None => s.(proxy := Dead)
  }

  /** The file is read, run, and everything but the merges is checked. */
  ghost predicate ReloadRead(env: Env, s: State, s': State) {
    && s.proxy.Reading?
    && s' == match ConfigOnDisk(env, s.files)
         case Some(v) => if LuaConfig.WellFormed(v) then s.(proxy := Checking(v, [])) else Failed(s)
         case None => Failed(s)
  }

  function ConfigOnDisk(env: Env, files: Files): Option<Value> {
    if CONFIG_FILE in files then env.eval(files[CONFIG_FILE]) else None
  }

  /** The next keyspace's merge is looked up in the registry as it is now. */
  ghost predicate ReloadLookup(s: State, s': State) {
    && s.proxy.Checking? && LuaConfig.HasSections(s.proxy.cfg)
    && |s.proxy.flags| < |LuaConfig.KeyspacesOf(s.proxy.cfg)|
    && var m := LuaConfig.MergeOf(LuaConfig.KeyspacesOf(s.proxy.cfg)[|s.proxy.flags|]);
       s' == if m in Composite(s.wasm)
             then s.(proxy := Checking(s.proxy.cfg, s.proxy.flags + [Composite(s.wasm)[m]]))
             else Failed(s)
  }

  ghost predicate ReloadDone(s: State, s': State) {
    && s.proxy.Checking? && LuaConfig.WellFormed(s.proxy.cfg)
    && |s.proxy.flags| == |LuaConfig.KeyspacesOf(s.proxy.cfg)|
    && var v := LuaConfig.Normalized(s.proxy.cfg, s.proxy.flags);
       s' == s.(proxy := Waiting, loaded := AfterLoad(s.loaded, Some(v)).value, history := s.history + [v])
  }

  ghost predicate Step(env: Env, s: State, s': State) {
    || FileChange(s, s')
    || Receive(s, s') || CloseBatch(s, s')
    || ScanFile(env, s, s') || SwapTable(env, s, s') || ScanFails(env, s, s') || Signal(s, s')
    || ReloadStart(s, s') || ReloadRead(env, s, s') || ReloadLookup(s, s') || ReloadDone(s, s')
  }

  /** Boot: the directory was scanned, the watches are armed, and the first load is about to read its file. */
  ghost predicate Boot(env: Env, s: State) {
    && s.queue == [] && s.watcher.Idle? && s.wasm == Scan(env, s.files) && !s.rescanFailed
    && s.scans == 0 && s.published == [s.wasm]
    && !s.sighup && s.proxy.Reading? && s.loaded == Loaded(None, None) && s.history == []
  }

  /** The states of a run up to some moment, oldest first. */
  ghost predicate Run(env: Env, states: seq<State>) {
    && states != []
    && var last := |states| - 1;
       if last == 0 then Boot(env, states[0])
       else Run(env, states[..last]) && Step(env, states[last - 1], states[last])
  }

  // ---------------------------------------------------------------- what is still on its way

  /** A rescan that has not started, or has not finished. */
  predicate RescanDue(s: State) {
    UdfEvent in s.queue || s.watcher.Scanning? || (s.watcher.Collecting? && s.watcher.udf)
  }

  /** Some later read of the config file is certain. */
  predicate ReadDue(s: State) {
    || RescanDue(s) || ConfigEvent in s.queue || (s.watcher.Collecting? && s.watcher.config)
    || s.watcher.Signalling? || s.sighup || s.proxy.Reading?
  }

  /** Nothing relevant is pending anywhere. */
  predicate Quiet(s: State) {
    !ReadDue(s) && s.proxy.Waiting?
  }

  // ---------------------------------------------------------------- the invariant

  ghost predicate ScanProgress(env: Env, files: Files, todo: set<Str>, table: map<Str, Str>) {
    todo <= Stems(files) && Partial(n => LoadedFlags(env, files, n), Stems(files), todo, table)
  }

  /** Unless a rescan is due, the table is that of the disk; a running scan nobody has disturbed is on track. */
  ghost predicate TableInv(env: Env, s: State) {
    && (!RescanDue(s) && !s.rescanFailed ==> s.wasm == Scan(env, s.files))
    && (s.watcher.Scanning? && UdfEvent !in s.queue ==>
          ScanProgress(env, s.files, s.watcher.todo, s.watcher.table))
  }

  /** The lookups made so far are what the present registry answers. */
  ghost predicate LookupsHold(cfg: Value, flags: seq<Str>, registry: LuaConfig.Registry)
    requires LuaConfig.HasSections(cfg) && |flags| <= |LuaConfig.KeyspacesOf(cfg)|
  {
    forall i | 0 <= i < |flags| ::
      var m := LuaConfig.MergeOf(LuaConfig.KeyspacesOf(cfg)[i]);
      m in registry && flags[i] == registry[m]
  }

  ghost predicate CheckShape(s: State) {
    s.proxy.Checking? ==>
      LuaConfig.WellFormed(s.proxy.cfg) && |s.proxy.flags| <= |LuaConfig.KeyspacesOf(s.proxy.cfg)|
  }

  /**
    Unless a read is due, a running check is of the present file and registry, and
    a finished one served the outcome.
   */
  ghost predicate ServeInv(env: Env, s: State)
    requires CheckShape(s)
  {
    !ReadDue(s) ==>
      && (s.proxy.Checking? ==>
            && ConfigOnDisk(env, s.files) == Some(s.proxy.cfg)
            && LookupsHold(s.proxy.cfg, s.proxy.flags, Composite(s.wasm)))
      && (s.proxy.Waiting? ==>
            var result := LoadResult(env, At(s.files, CONFIG_FILE), Composite(s.wasm));
            result.Some? ==> s.loaded.config == result)
  }

  /** The module's two fields are the latest config that loaded. */
  ghost predicate HistoryInv(s: State) {
    && s.loaded.config == s.loaded.lastGood
    && s.loaded.config == (if s.history == [] then None else Some(s.history[|s.history| - 1]))
    && (s.proxy.Waiting? ==> s.history != [])
    && (s.proxy.Dead? ==> s.history == [])
  }

  ghost predicate Inv(env: Env, s: State) {
    CheckShape(s) && TableInv(env, s) && ServeInv(env, s) && HistoryInv(s)
  }

  // ---------------------------------------------------------------- files that do not matter

  lemma StemsWithin(a: Files, b: Files, n: Str)
    requires SameModules(a, b) && n in Stems(a)
    ensures n in Stems(b)
  {
    StemPath(a, n);
    assert IsStem(n) && At(a, ModulePath(n)) == At(b, ModulePath(n));
    StemOf(b, n);
  }

  lemma SameStems(a: Files, b: Files)
    requires SameModules(a, b)
    ensures Stems(a) == Stems(b)
  {
    forall n ensures n in Stems(a) <==> n in Stems(b) {
      if n in Stems(a) {
        StemsWithin(a, b, n);
      }
      if n in Stems(b) {
        StemsWithin(b, a, n);
      }
    }
  }

  lemma SameFlags(env: Env, a: Files, b: Files, n: Str)
    requires SameModules(a, b) && n in Stems(a)
    ensures LoadedFlags(env, a, n) == LoadedFlags(env, b, n)
  {
    StemPath(a, n);
    assert IsStem(n) && At(a, ModulePath(n)) == At(b, ModulePath(n));
  }

  lemma SameScan(env: Env, a: Files, b: Files)
    requires SameModules(a, b)
    ensures Scan(env, a) == Scan(env, b)
  {
    SameStems(a, b);
    forall n | n in Stems(a) ensures LoadedFlags(env, a, n) == LoadedFlags(env, b, n) {
      SameFlags(env, a, b, n);
    }
  }

  lemma SameProgress(env: Env, a: Files, b: Files, todo: set<Str>, table: map<Str, Str>)
    requires SameModules(a, b) && ScanProgress(env, a, todo, table)
    ensures ScanProgress(env, b, todo, table)
  {
    SameStems(a, b);
    var f, g := n => LoadedFlags(env, a, n), n => LoadedFlags(env, b, n);
    forall n | n in Stems(a) ensures f(n) == g(n) {
      SameFlags(env, a, b, n);
    }
    ProgressOn(f, g, Stems(a), todo, table);
  }

  lemma ProgressOn(f: Str -> Option<Str>, g: Str -> Option<Str>, stems: set<Str>, todo: set<Str>, table: map<Str, Str>)
    requires Partial(f, stems, todo, table) && forall n | n in stems :: f(n) == g(n)
    ensures Partial(g, stems, todo, table)
  {
    forall n ensures n in table <==> n in stems && n !in todo && g(n).Some? {
      assert n in table <==> n in stems && n !in todo && f(n).Some?;
    }
  }

  // ---------------------------------------------------------------- each step keeps the invariant

  lemma FileChangeKeeps(env: Env, s: State, s': State)
    requires Inv(env, s) && FileChange(s, s')
    ensures Inv(env, s')
  {
    if UdfEvent !in s'.queue {
      assert SameModules(s.files, s'.files);
      SameScan(env, s.files, s'.files);
      if s.watcher.Scanning? {
        SameProgress(env, s.files, s'.files, s.watcher.todo, s.watcher.table);
      }
    }
    if ConfigEvent !in s'.queue {
      assert At(s'.files, CONFIG_FILE) == At(s.files, CONFIG_FILE);
    }
    assert forall e | e in s.queue :: e in s'.queue;
  }

  lemma ReceiveKeeps(env: Env, s: State, s': State)
    requires Inv(env, s) && Receive(s, s')
    ensures Inv(env, s')
  {
    ReceiveForgetsNothing(s, s');
    SameServing(env, s, s');
  }

  lemma ReceiveForgetsNothing(s: State, s': State)
    requires Receive(s, s')
    ensures (RescanDue(s) <==> RescanDue(s')) && (ReadDue(s) <==> ReadDue(s'))
    ensures !s.watcher.Scanning? && !s'.watcher.Scanning?
  {
    assert s.queue == [s.queue[0]] + s.queue[1..];
  }

  lemma CloseBatchKeeps(env: Env, s: State, s': State)
    requires Inv(env, s) && CloseBatch(s, s')
    ensures Inv(env, s')
  {
    CloseForgetsNothing(s, s');
    CloseBatchTable(env, s, s');
    SameServing(env, s, s');
  }

  lemma CloseForgetsNothing(s: State, s': State)
    requires CloseBatch(s, s')
    ensures (RescanDue(s) <==> RescanDue(s')) && (ReadDue(s) <==> ReadDue(s'))
  {
  }

  lemma CloseBatchTable(env: Env, s: State, s': State)
    requires TableInv(env, s) && CloseBatch(s, s') && (RescanDue(s) <==> RescanDue(s'))
    ensures TableInv(env, s')
  {
    if s'.watcher.Scanning? {
      ScanStarts(env, s.files);
    }
  }

  /** What is served depends on the disk, the registry and the proxy only, as long as the same reads are due. */
  lemma SameServing(env: Env, s: State, s': State)
    requires CheckShape(s) && ServeInv(env, s) && (ReadDue(s) <==> ReadDue(s'))
    requires s'.files == s.files && s'.wasm == s.wasm && s'.proxy == s.proxy && s'.loaded == s.loaded
    ensures CheckShape(s') && ServeInv(env, s')
  {
  }

  /** The table depends on the disk, the queue and the watcher only. */
  lemma SameTable(env: Env, s: State, s': State)
    requires TableInv(env, s) && s'.files == s.files && s'.queue == s.queue && s'.watcher == s.watcher
    requires s'.wasm == s.wasm && s'.rescanFailed == s.rescanFailed
    ensures TableInv(env, s')
  {
  }

  lemma ScanStarts(env: Env, files: Files)
    ensures ScanProgress(env, files, Stems(files), map[])
  {
  }

  lemma ScanFileKeeps(env: Env, s: State, s': State)
    requires Inv(env, s) && ScanFile(env, s, s')
    ensures Inv(env, s')
  {
    var n :| n in s.watcher.todo && s'.watcher == Scanning(
      s.watcher.todo - {n},
      if LoadedFlags(env, s.files, n).Some? then s.watcher.table[n := LoadedFlags(env, s.files, n).value]
      else s.watcher.table);
    if UdfEvent !in s.queue {
      PartialStep(x => LoadedFlags(env, s.files, x), Stems(s.files), s.watcher.todo, s.watcher.table, n);
    }
  }

  lemma SwapTableKeeps(env: Env, s: State, s': State)
    requires Inv(env, s) && SwapTable(env, s, s')
    ensures Inv(env, s')
  {
    if UdfEvent !in s.queue {
      PartialDone(env, s.files, s.watcher.table);
    }
  }

  lemma ScanFailsKeeps(env: Env, s: State, s': State)
    requires Inv(env, s) && ScanFails(env, s, s')
    ensures Inv(env, s')
  {
    assert ReadDue(s') && s'.rescanFailed;
  }

  lemma SignalKeeps(env: Env, s: State, s': State)
    requires Inv(env, s) && Signal(s, s')
    ensures Inv(env, s')
  {
    assert ReadDue(s') && (RescanDue(s) <==> RescanDue(s'));
  }

  lemma ReloadStartKeeps(env: Env, s: State, s': State)
    requires Inv(env, s) && ReloadStart(s, s')
    ensures Inv(env, s')
  {
    assert ReadDue(s');
    SameTable(env, s, s');
  }

  /** A load with all lookups made in one registry is the load against that registry. */
  lemma ChecksAddUp(env: Env, files: Files, cfg: Value, flags: seq<Str>, registry: LuaConfig.Registry)
    requires LuaConfig.WellFormed(cfg) && |flags| == |LuaConfig.KeyspacesOf(cfg)|
    requires ConfigOnDisk(env, files) == Some(cfg) && LookupsHold(cfg, flags, registry)
    ensures LoadResult(env, At(files, CONFIG_FILE), registry) == Some(LuaConfig.Normalized(cfg, flags))
  {
    assert LuaConfig.FlagsFrom(cfg, registry) == flags;
  }

  lemma FailedLoadKeeps(env: Env, s: State, s': State)
    requires Inv(env, s) && s' == Failed(s) && (s.proxy.Reading? || s.proxy.Checking?)
    requires !ReadDue(s') ==> LoadResult(env, At(s.files, CONFIG_FILE), Composite(s.wasm)).None?
    ensures Inv(env, s')
  {
    SameTable(env, s, s');
  }

  lemma ReloadReadKeeps(env: Env, s: State, s': State)
    requires Inv(env, s) && ReloadRead(env, s, s')
    ensures Inv(env, s')
  {
    match ConfigOnDisk(env, s.files) {
      case Some(v) =>
        if LuaConfig.WellFormed(v) {
          assert s' == s.(proxy := Checking(v, []));
          SameTable(env, s, s');
        } else {
          FailedLoadKeeps(env, s, s');
        }
      case None => FailedLoadKeeps(env, s, s');
    }
  }

  lemma ReloadLookupKeeps(env: Env, s: State, s': State)
    requires Inv(env, s) && ReloadLookup(s, s')
    ensures Inv(env, s')
  {
    if NextMerge(s.proxy.cfg, s.proxy.flags) in Composite(s.wasm) {
      AnswerKeeps(env, s, s');
    } else {
      NoAnswerKeeps(env, s, s');
    }
  }

  lemma AnswerKeeps(env: Env, s: State, s': State)
    requires Inv(env, s) && s.proxy.Checking? && |s.proxy.flags| < |LuaConfig.KeyspacesOf(s.proxy.cfg)|
    requires NextMerge(s.proxy.cfg, s.proxy.flags) in Composite(s.wasm)
    requires
      var f := Composite(s.wasm)[NextMerge(s.proxy.cfg, s.proxy.flags)];
      s' == s.(proxy := Checking(s.proxy.cfg, s.proxy.flags + [f]))
    ensures Inv(env, s')
  {
    SameTable(env, s, s');
    if !ReadDue(s) {
      LookupAnswered(s.proxy.cfg, s.proxy.flags, Composite(s.wasm));
    }
  }

  lemma NoAnswerKeeps(env: Env, s: State, s': State)
    requires Inv(env, s) && s.proxy.Checking? && |s.proxy.flags| < |LuaConfig.KeyspacesOf(s.proxy.cfg)|
    requires NextMerge(s.proxy.cfg, s.proxy.flags) !in Composite(s.wasm) && s' == Failed(s)
    ensures Inv(env, s')
  {
    if !ReadDue(s) {
      LookupMissing(env, s.files, s.proxy.cfg, s.proxy.flags, Composite(s.wasm));
    }
    FailedLoadKeeps(env, s, s');
  }

  function NextMerge(cfg: Value, flags: seq<Str>): Str
    requires LuaConfig.HasSections(cfg) && |flags| < |LuaConfig.KeyspacesOf(cfg)|
  {
    LuaConfig.MergeOf(LuaConfig.KeyspacesOf(cfg)[|flags|])
  }

  lemma LookupAnswered(cfg: Value, flags: seq<Str>, registry: LuaConfig.Registry)
    requires LuaConfig.HasSections(cfg) && |flags| < |LuaConfig.KeyspacesOf(cfg)|
    requires LookupsHold(cfg, flags, registry) && NextMerge(cfg, flags) in registry
    ensures LookupsHold(cfg, flags + [registry[NextMerge(cfg, flags)]], registry)
  {
  }

  lemma LookupMissing(env: Env, files: Files, cfg: Value, flags: seq<Str>, registry: LuaConfig.Registry)
    requires LuaConfig.WellFormed(cfg) && |flags| < |LuaConfig.KeyspacesOf(cfg)|
    requires ConfigOnDisk(env, files) == Some(cfg) && NextMerge(cfg, flags) !in registry
    ensures LoadResult(env, At(files, CONFIG_FILE), registry).None?
  {
  }

  lemma ReloadDoneKeeps(env: Env, s: State, s': State)
    requires Inv(env, s) && ReloadDone(s, s')
    ensures Inv(env, s')
  {
    SameTable(env, s, s');
    if !ReadDue(s) {
      ChecksAddUp(env, s.files, s.proxy.cfg, s.proxy.flags, Composite(s.wasm));
    }
  }

  lemma StepKeeps(env: Env, s: State, s': State)
    requires Inv(env, s) && Step(env, s, s')
    ensures Inv(env, s')
  {
    if FileChange(s, s') {
      FileChangeKeeps(env, s, s');
    } else if Receive(s, s') {
      ReceiveKeeps(env, s, s');
    } else if CloseBatch(s, s') {
      CloseBatchKeeps(env, s, s');
    } else if ScanFile(env, s, s') {
      ScanFileKeeps(env, s, s');
    } else if SwapTable(env, s, s') {
      SwapTableKeeps(env, s, s');
    } else if ReloadRead(env, s, s') {
      ReloadReadKeeps(env, s, s');
    } else if ReloadLookup(s, s') {
      ReloadLookupKeeps(env, s, s');
    } else if ReloadDone(s, s') {
      ReloadDoneKeeps(env, s, s');
    } else if ScanFails(env, s, s') {
      ScanFailsKeeps(env, s, s');
    } else if Signal(s, s') {
      SignalKeeps(env, s, s');
    } else {
      ReloadStartKeeps(env, s, s');
    }
  }

  lemma {:induction false} RunKeeps(env: Env, states: seq<State>)
    requires Run(env, states)
    ensures Inv(env, states[|states| - 1])
  {
    var last := |states| - 1;
    if last > 0 {
      RunKeeps(env, states[..last]);
      StepKeeps(env, states[last - 1], states[last]);
    }
  }

  // ---------------------------------------------------------------- the theorems

  /** How many of the first `n` rescans could list the directory. */
  function Listed(lists: nat -> bool, n: nat): nat {
    if n == 0 then 0 else Listed(lists, n - 1) + if lists(n - 1) then 1 else 0
  }

  /** The latest rescan, if there was one, could not list the directory. */
  predicate LastListingFailed(env: Env, s: State) {
    s.scans > 0 && !env.lists(s.scans - 1)
  }

  /**
    Every rescan that could list the directory has published its table and no
    other has; the latest published one is in place; and the flag says whether
    the latest rescan could not.
   */
  ghost predicate ScansAccounted(env: Env, s: State) {
    && (s.rescanFailed <==> LastListingFailed(env, s))
    && |s.published| == 1 + Listed(env.lists, s.scans)
    && s.wasm == s.published[|s.published| - 1]
  }

  predicate SameScans(s: State, s': State) {
    s'.rescanFailed == s.rescanFailed && s'.scans == s.scans && s'.published == s.published && s'.wasm == s.wasm
  }

  lemma ReadLeavesScans(env: Env, s: State, s': State)
    requires ReloadRead(env, s, s')
    ensures SameScans(s, s')
  {
  }

  lemma LookupLeavesScans(s: State, s': State)
    requires ReloadLookup(s, s')
    ensures SameScans(s, s')
  {
  }

  lemma DoneLeavesScans(s: State, s': State)
    requires ReloadDone(s, s')
    ensures SameScans(s, s')
  {
  }

  lemma RestLeavesScans(env: Env, s: State, s': State)
    requires FileChange(s, s') || Receive(s, s') || CloseBatch(s, s') || ScanFile(env, s, s') || Signal(s, s')
      || ReloadStart(s, s')
    ensures SameScans(s, s')
  {
  }

  lemma ScanEndsAccounted(env: Env, s: State, s': State)
    requires ScansAccounted(env, s) && (SwapTable(env, s, s') || ScanFails(env, s, s'))
    ensures ScansAccounted(env, s')
  {
  }

  lemma ScansStep(env: Env, s: State, s': State)
    requires ScansAccounted(env, s) && Step(env, s, s')
    ensures ScansAccounted(env, s')
  {
    if SwapTable(env, s, s') || ScanFails(env, s, s') {
      ScanEndsAccounted(env, s, s');
    } else if ReloadRead(env, s, s') {
      ReadLeavesScans(env, s, s');
    } else if ReloadLookup(s, s') {
      LookupLeavesScans(s, s');
    } else if ReloadDone(s, s') {
      DoneLeavesScans(s, s');
    } else {
      RestLeavesScans(env, s, s');
    }
  }

  lemma BootScans(env: Env, s: State)
    requires Boot(env, s)
    ensures ScansAccounted(env, s)
  {
  }

  /** Over every run. */
  lemma {:induction false} RunScans(env: Env, states: seq<State>)
    requires Run(env, states)
    ensures ScansAccounted(env, states[|states| - 1])
  {
    var last := |states| - 1;
    if last == 0 {
      BootScans(env, states[0]);
    } else {
      RunScans(env, states[..last]);
      ScansStep(env, states[last - 1], states[last]);
    }
  }

  /**
    The registry is the scan of the disk, unless the latest rescan could not list
    the directory, and then it is the latest table a rescan did publish; the
    config on disk is served if it loads against the registry, and in any case
    the latest config that ever loaded is.
   */
  ghost predicate CaughtUp(env: Env, s: State) {
    && (!LastListingFailed(env, s) ==> s.wasm == Scan(env, s.files))
    && |s.published| == 1 + Listed(env.lists, s.scans) && s.wasm == s.published[|s.published| - 1]
    && var result := LoadResult(env, At(s.files, CONFIG_FILE), Composite(s.wasm));
       && (result.Some? ==> s.loaded.config == result)
       && s.history != [] && s.loaded.config == Some(s.history[|s.history| - 1])
  }

  /** Over every interleaving: whenever nothing is pending, the gateway has caught up with the disk. */
  lemma QuietMeansCaughtUp(env: Env, states: seq<State>)
    requires Run(env, states) && Quiet(states[|states| - 1])
    ensures CaughtUp(env, states[|states| - 1])
  {
    RunKeeps(env, states);
    RunScans(env, states);
    QuietStateCaughtUp(env, states[|states| - 1]);
  }

  lemma QuietStateCaughtUp(env: Env, s: State)
    requires Inv(env, s) && ScansAccounted(env, s) && Quiet(s)
    ensures CaughtUp(env, s)
  {
  }

  /** Where every listing works, a quiet gateway has exactly the modules on disk that load. */
  lemma QuietHasTheDisk(env: Env, states: seq<State>)
    requires Run(env, states) && Quiet(states[|states| - 1]) && forall n :: env.lists(n)
    ensures var s := states[|states| - 1]; s.wasm == Scan(env, s.files)
  {
    QuietMeansCaughtUp(env, states);
  }

  /** What happens to the configs that have loaded: each state's fields agree with them, and none is forgotten. */
  ghost predicate Remembers(states: seq<State>) {
    && states != []
    && var last := |states| - 1;
       HistoryInv(states[last])
       && (last > 0 ==> Remembers(states[..last]) && states[last - 1].history <= states[last].history)
  }

  lemma {:induction false} RunRemembers(env: Env, states: seq<State>)
    requires Run(env, states)
    ensures Remembers(states)
  {
    RunKeeps(env, states);
    var last := |states| - 1;
    if last > 0 {
      RunRemembers(env, states[..last]);
      HistoryGrows(env, states[last - 1], states[last]);
    }
  }

  lemma {:induction false} RemembersFrom(states: seq<State>, i: nat)
    requires Remembers(states) && i < |states|
    ensures states[i].history <= states[|states| - 1].history
  {
    var last := |states| - 1;
    if i < last {
      RemembersFrom(states[..last], i);
    }
  }

  /** Once any config has loaded, no reload, whatever it reads, stops the gateway or leaves it without a config. */
  lemma NeverDiesAfterLoading(env: Env, states: seq<State>, i: nat)
    requires Run(env, states) && i < |states| && states[i].history != []
    ensures
      var s := states[|states| - 1];
      states[i].history <= s.history && !s.proxy.Dead? && s.loaded.config.Some?
  {
    RunRemembers(env, states);
    RemembersFrom(states, i);
  }

  lemma HistoryGrows(env: Env, s: State, s': State)
    requires Step(env, s, s')
    ensures s.history <= s'.history
  {
    if ReloadStart(s, s') || ReloadRead(env, s, s') || ReloadLookup(s, s') || ReloadDone(s, s') {
      ProxyHistory(env, s, s');
    }
  }

  lemma ProxyHistory(env: Env, s: State, s': State)
    requires ReloadStart(s, s') || ReloadRead(env, s, s') || ReloadLookup(s, s') || ReloadDone(s, s')
    ensures s.history <= s'.history
  {
  }

  // ---------------------------------------------------------------- where configs come from

  /** `cfg` is what some state's file on disk evaluates to, and passes everything but the merge lookups. */
  ghost predicate WasOnDisk(env: Env, states: seq<State>, cfg: Value) {
    LuaConfig.WellFormed(cfg) && exists j :: 0 <= j < |states| && ConfigOnDisk(env, states[j].files) == Some(cfg)
  }

  /** `v` is such a config, validated: nothing added but defaults and the flags of its merges. */
  ghost predicate IsValidated(cfg: Value, v: Value) {
    && LuaConfig.WellFormed(cfg)
    && exists flags: seq<Str> :: |flags| == |LuaConfig.KeyspacesOf(cfg)| && v == LuaConfig.Normalized(cfg, flags)
  }

  ghost predicate WasLoaded(env: Env, states: seq<State>, v: Value) {
    exists cfg :: WasOnDisk(env, states, cfg) && IsValidated(cfg, v)
  }

  /** Both what is being checked and what has loaded were on disk. */
  ghost predicate Sourced(env: Env, states: seq<State>, s: State) {
    && (s.proxy.Checking? ==> WasOnDisk(env, states, s.proxy.cfg))
    && (forall v | v in s.history :: WasLoaded(env, states, v))
  }

  lemma SourcedLater(env: Env, states: seq<State>, s: State, s': State)
    requires Sourced(env, states, s)
    ensures Sourced(env, states + [s'], s)
  {
    var more := states + [s'];
    forall cfg | WasOnDisk(env, states, cfg) ensures WasOnDisk(env, more, cfg) {
      var j :| 0 <= j < |states| && ConfigOnDisk(env, states[j].files) == Some(cfg);
      assert more[j] == states[j];
    }
    forall v | v in s.history ensures WasLoaded(env, more, v) {
      var cfg :| WasOnDisk(env, states, cfg) && IsValidated(cfg, v);
      assert WasOnDisk(env, more, cfg);
    }
  }

  lemma ReadSourced(env: Env, states: seq<State>, s: State, s': State)
    requires Sourced(env, states + [s'], s) && ReloadRead(env, s, s')
    ensures Sourced(env, states + [s'], s')
  {
    if s'.proxy.Checking? {
      assert (states + [s'])[|states|].files == s.files;
    }
  }

  lemma DoneSourced(env: Env, states: seq<State>, s: State, s': State)
    requires Sourced(env, states, s) && ReloadDone(s, s')
    ensures Sourced(env, states, s')
  {
    var v := LuaConfig.Normalized(s.proxy.cfg, s.proxy.flags);
    assert IsValidated(s.proxy.cfg, v);
    assert WasLoaded(env, states, v);
  }

  /** Nothing new is being checked and nothing new has loaded. */
  predicate NothingNew(s: State, s': State) {
    s'.history == s.history && (s'.proxy.Checking? ==> s.proxy.Checking? && s'.proxy.cfg == s.proxy.cfg)
  }

  lemma SourcedKept(env: Env, states: seq<State>, s: State, s': State)
    requires Sourced(env, states, s) && NothingNew(s, s')
    ensures Sourced(env, states, s')
  {
  }

  lemma LookupBringsNothing(s: State, s': State)
    requires ReloadLookup(s, s')
    ensures NothingNew(s, s')
  {
  }

  /** The other steps neither read a config nor load one. */
  lemma RestBringsNothing(env: Env, s: State, s': State)
    requires FileChange(s, s') || WatcherStep(env, s, s') || ReloadStart(s, s')
    ensures NothingNew(s, s')
  {
  }

  lemma StepSourced(env: Env, states: seq<State>, s: State, s': State)
    requires Sourced(env, states, s) && Step(env, s, s')
    ensures Sourced(env, states + [s'], s')
  {
    SourcedLater(env, states, s, s');
    if ReloadRead(env, s, s') {
      ReadSourced(env, states, s, s');
    } else if ReloadDone(s, s') {
      DoneSourced(env, states + [s'], s, s');
    } else {
      if ReloadLookup(s, s') {
        LookupBringsNothing(s, s');
      } else {
        RestBringsNothing(env, s, s');
      }
      SourcedKept(env, states + [s'], s, s');
    }
  }

  /** Over every interleaving: every config that ever loads is one that was, whole, on disk at some moment before. */
  lemma {:induction false} LoadsWhatWasOnDisk(env: Env, states: seq<State>)
    requires Run(env, states)
    ensures Sourced(env, states, states[|states| - 1])
  {
    var last := |states| - 1;
    if last > 0 {
      LoadsWhatWasOnDisk(env, states[..last]);
      assert states == states[..last] + [states[last]];
      StepSourced(env, states[..last], states[last - 1], states[last]);
    }
  }

  // ---------------------------------------------------------------- settling down

  /** Any step but a change of the files. */
  ghost predicate CalmStep(env: Env, s: State, s': State) {
    WatcherStep(env, s, s') || ProxyStep(env, s, s')
  }

  ghost predicate WatcherStep(env: Env, s: State, s': State) {
    || Receive(s, s') || CloseBatch(s, s') || Signal(s, s')
    || ScanFile(env, s, s') || SwapTable(env, s, s') || ScanFails(env, s, s')
  }

  ghost predicate ProxyStep(env: Env, s: State, s': State) {
    ReloadStart(s, s') || ReloadRead(env, s, s') || ReloadLookup(s, s') || ReloadDone(s, s')
  }

  /** States linked by such steps. */
  ghost predicate CalmRun(env: Env, states: seq<State>) {
    && states != []
    && var last := |states| - 1;
       last > 0 ==> CalmRun(env, states[..last]) && CalmStep(env, states[last - 1], states[last])
  }

  /** How many merges a load of the file on disk looks up. */
  function Lookups(env: Env, files: Files): nat {
    var v := ConfigOnDisk(env, files);
    if v.Some? && LuaConfig.HasSections(v.value) then |LuaConfig.KeyspacesOf(v.value)| else 0
  }

  function ProxyWork(env: Env, s: State): nat {
    match s.proxy
    case Waiting => 0
    case Dead => 0
    case Reading => Lookups(env, s.files) + 2
    case Checking(cfg, flags) => CheckWork(cfg, flags)
  }

  function CheckWork(cfg: Value, flags: seq<Str>): (w: nat)
    ensures w > 0
  {
    if LuaConfig.HasSections(cfg) && |flags| <= |LuaConfig.KeyspacesOf(cfg)| then
      |LuaConfig.KeyspacesOf(cfg)| - |flags| + 1
    else 1
  }

  lemma CheckWorks(cfg: Value, flags: seq<Str>, f: Str)
    requires LuaConfig.HasSections(cfg) && |flags| < |LuaConfig.KeyspacesOf(cfg)|
    ensures CheckWork(cfg, flags + [f]) < CheckWork(cfg, flags)
  {
  }

  function SignalWork(env: Env, s: State): nat {
    if s.sighup then Lookups(env, s.files) + 3 else 0
  }

  function WatcherWork(env: Env, s: State): nat {
    match s.watcher
    case Idle => 0
    case Signalling => Lookups(env, s.files) + 4
    case Scanning(todo, _) => |todo| + Lookups(env, s.files) + 5
    case Collecting(_, _) => |Stems(s.files)| + Lookups(env, s.files) + 6
  }

  function QueueWork(env: Env, s: State): nat {
    (|Stems(s.files)| + Lookups(env, s.files) + 7) * |s.queue|
  }

  /** A bound on the steps that are left if the files stay as they are. */
  function Work(env: Env, s: State): nat {
    ProxyWork(env, s) + SignalWork(env, s) + WatcherWork(env, s) + QueueWork(env, s)
  }

  lemma ReceiveWorks(env: Env, s: State, s': State)
    requires Receive(s, s')
    ensures Work(env, s') < Work(env, s)
  {
    var c := |Stems(s.files)| + Lookups(env, s.files) + 7;
    assert c * |s.queue| == c * |s'.queue| + c;
  }

  lemma CloseBatchWorks(env: Env, s: State, s': State)
    requires CloseBatch(s, s')
    ensures Work(env, s') < Work(env, s)
  {
    QueueStays(env, s, s');
  }

  lemma QueueStays(env: Env, s: State, s': State)
    requires s'.files == s.files && s'.queue == s.queue
    ensures QueueWork(env, s') == QueueWork(env, s) && Lookups(env, s'.files) == Lookups(env, s.files)
  {
  }

  lemma ScanOneWorks(env: Env, s: State, n: Str, table: map<Str, Str>)
    requires s.watcher.Scanning? && n in s.watcher.todo
    ensures Work(env, s.(watcher := Scanning(s.watcher.todo - {n}, table))) < Work(env, s)
  {
    var s' := s.(watcher := Scanning(s.watcher.todo - {n}, table));
    QueueStays(env, s, s');
    assert |s.watcher.todo - {n}| == |s.watcher.todo| - 1;
  }

  lemma ScanFileWorks(env: Env, s: State, s': State)
    requires ScanFile(env, s, s')
    ensures Work(env, s') < Work(env, s)
  {
    var n :| n in s.watcher.todo && s'.watcher.Scanning? && s'.watcher.todo == s.watcher.todo - {n};
    ScanOneWorks(env, s, n, s'.watcher.table);
  }

  lemma ScanEndWorks(env: Env, s: State, s': State)
    requires SwapTable(env, s, s') || ScanFails(env, s, s')
    ensures Work(env, s') < Work(env, s)
  {
    QueueStays(env, s, s');
  }

  lemma SignalWorks(env: Env, s: State, s': State)
    requires Signal(s, s')
    ensures Work(env, s') < Work(env, s)
  {
    QueueStays(env, s, s');
  }

  lemma WatcherWorks(env: Env, s: State, s': State)
    requires WatcherStep(env, s, s')
    ensures Work(env, s') < Work(env, s)
  {
    if Receive(s, s') {
      ReceiveWorks(env, s, s');
    } else if CloseBatch(s, s') {
      CloseBatchWorks(env, s, s');
    } else if ScanFile(env, s, s') {
      ScanFileWorks(env, s, s');
    } else if Signal(s, s') {
      SignalWorks(env, s, s');
    } else {
      ScanEndWorks(env, s, s');
    }
  }

  /** A step of the proxy alone. */
  lemma ProxyOnly(env: Env, s: State, s': State)
    requires s'.files == s.files && s'.queue == s.queue && s'.watcher == s.watcher
    requires ProxyWork(env, s') + SignalWork(env, s') < ProxyWork(env, s) + SignalWork(env, s)
    ensures Work(env, s') < Work(env, s)
  {
    QueueStays(env, s, s');
  }

  lemma FailedWorks(env: Env, s: State)
    requires s.proxy.Reading? || s.proxy.Checking?
    ensures Work(env, Failed(s)) < Work(env, s)
  {
    ProxyOnly(env, s, Failed(s));
  }

  lemma ReadWorks(env: Env, s: State, v: Value)
    requires s.proxy.Reading? && ConfigOnDisk(env, s.files) == Some(v)
    ensures Work(env, s.(proxy := Checking(v, []))) < Work(env, s)
  {
    ProxyOnly(env, s, s.(proxy := Checking(v, [])));
  }

  lemma ReloadReadWorks(env: Env, s: State, s': State)
    requires ReloadRead(env, s, s')
    ensures Work(env, s') < Work(env, s)
  {
    match ConfigOnDisk(env, s.files) {
      case Some(v) =>
        if LuaConfig.WellFormed(v) {
          ReadWorks(env, s, v);
        } else {
          FailedWorks(env, s);
        }
      case None => FailedWorks(env, s);
    }
  }

  lemma AnswerWorks(env: Env, s: State, f: Str)
    requires s.proxy.Checking? && LuaConfig.HasSections(s.proxy.cfg)
    requires |s.proxy.flags| < |LuaConfig.KeyspacesOf(s.proxy.cfg)|
    ensures Work(env, s.(proxy := Checking(s.proxy.cfg, s.proxy.flags + [f]))) < Work(env, s)
  {
    CheckWorks(s.proxy.cfg, s.proxy.flags, f);
    ProxyOnly(env, s, s.(proxy := Checking(s.proxy.cfg, s.proxy.flags + [f])));
  }

  lemma ReloadLookupWorks(env: Env, s: State, s': State)
    requires ReloadLookup(s, s')
    ensures Work(env, s') < Work(env, s)
  {
    var m := NextMerge(s.proxy.cfg, s.proxy.flags);
    if m in Composite(s.wasm) {
      AnswerWorks(env, s, Composite(s.wasm)[m]);
    } else {
      FailedWorks(env, s);
    }
  }

  lemma ProxyWorks(env: Env, s: State, s': State)
    requires CheckShape(s) && ProxyStep(env, s, s')
    ensures Work(env, s') < Work(env, s)
  {
    if ReloadRead(env, s, s') {
      ReloadReadWorks(env, s, s');
    } else if ReloadLookup(s, s') {
      ReloadLookupWorks(env, s, s');
    } else {
      ReloadEndsWork(env, s, s');
    }
  }

  lemma ReloadEndsWork(env: Env, s: State, s': State)
    requires ReloadStart(s, s') || ReloadDone(s, s')
    ensures Work(env, s') < Work(env, s)
  {
    ProxyOnly(env, s, s');
  }

  /** Every calm step uses up work. */
  lemma CalmWorks(env: Env, s: State, s': State)
    requires Inv(env, s) && CalmStep(env, s, s')
    ensures Inv(env, s') && Work(env, s') < Work(env, s)
  {
    if WatcherStep(env, s, s') {
      WatcherWorks(env, s, s');
    } else {
      ProxyWorks(env, s, s');
    }
    StepKeeps(env, s, s');
  }

  lemma ScanMoves(env: Env, s: State) returns (s': State)
    requires s.watcher.Scanning?
    ensures WatcherStep(env, s, s')
  {
    var todo, table := s.watcher.todo, s.watcher.table;
    if !env.lists(s.scans) {
      s' := s.(rescanFailed := true, scans := s.scans + 1, watcher := Signalling);
      assert ScanFails(env, s, s');
    } else if todo == {} {
      s' := s.(
        wasm := table, published := s.published + [table],
        rescanFailed := false, scans := s.scans + 1, watcher := Signalling);
      assert SwapTable(env, s, s');
    } else {
      var n :| n in todo;
      var flags := LoadedFlags(env, s.files, n);
      s' := s.(watcher := Scanning(todo - {n}, if flags.Some? then table[n := flags.value] else table));
      assert ScanFile(env, s, s');
    }
  }

  /** Nothing is ever stuck with work to do. */
  lemma WatcherMoves(env: Env, s: State) returns (s': State)
    requires s.queue != [] || !s.watcher.Idle?
    ensures WatcherStep(env, s, s')
  {
    match s.watcher {
      case Idle =>
        s' := s.(queue := s.queue[1..], watcher := Collecting(s.queue[0] == ConfigEvent, s.queue[0] == UdfEvent));
        assert Receive(s, s');
      case Collecting(config, udf) =>
        s' := s.(watcher := if udf then Scanning(Stems(s.files), map[]) else if config then Signalling else Idle);
        assert CloseBatch(s, s');
      case Scanning(todo, table) =>
        s' := ScanMoves(env, s);
      case Signalling =>
        s' := s.(sighup := true, watcher := Idle);
        assert Signal(s, s');
    }
  }

  lemma ProxyMoves(env: Env, s: State) returns (s': State)
    requires CheckShape(s) && !s.proxy.Dead? && (s.sighup || !s.proxy.Waiting?)
    ensures ProxyStep(env, s, s')
  {
    match s.proxy {
      case Waiting =>
        s' := s.(sighup := false, proxy := Reading);
        assert ReloadStart(s, s');
      case Reading =>
        s' := match ConfigOnDisk(env, s.files)
          case Some(v) => if LuaConfig.WellFormed(v) then s.(proxy := Checking(v, [])) else Failed(s)
          case None => Failed(s);
        assert ReloadRead(env, s, s');
      case Checking(cfg, flags) =>
        if |flags| < |LuaConfig.KeyspacesOf(cfg)| {
          var m := NextMerge(cfg, flags);
          s' := if m in Composite(s.wasm) then s.(proxy := Checking(cfg, flags + [Composite(s.wasm)[m]]))
                else Failed(s);
          assert ReloadLookup(s, s');
        } else {
          var v := LuaConfig.Normalized(cfg, flags);
          s' := s.(proxy := Waiting, loaded := AfterLoad(s.loaded, Some(v)).value, history := s.history + [v]);
          assert ReloadDone(s, s');
        }
    }
  }

  /** A state with no calm step left is quiet, or the process is gone. */
  lemma StuckIsQuiet(env: Env, s: State)
    requires Inv(env, s) && forall s' :: !CalmStep(env, s, s')
    ensures Quiet(s) || s.proxy.Dead?
  {
    if s.queue != [] || !s.watcher.Idle? {
      var s' := WatcherMoves(env, s);
      assert CalmStep(env, s, s');
    } else if !s.proxy.Dead? && (s.sighup || !s.proxy.Waiting?) {
      var s' := ProxyMoves(env, s);
      assert CalmStep(env, s, s');
    }
  }

  lemma StuckEnds(env: Env, s: State)
    requires Inv(env, s) && ScansAccounted(env, s) && forall s' :: !CalmStep(env, s, s')
    ensures (Quiet(s) && CaughtUp(env, s)) || (s.proxy.Dead? && s.history == [])
  {
    StuckIsQuiet(env, s);
    if Quiet(s) {
      QuietStateCaughtUp(env, s);
    }
  }

  lemma CalmIsStep(env: Env, s: State, s': State)
    requires CalmStep(env, s, s')
    ensures Step(env, s, s')
  {
  }

  lemma {:induction false} CalmRunKeeps(env: Env, states: seq<State>)
    requires CalmRun(env, states) && Inv(env, states[0]) && ScansAccounted(env, states[0])
    ensures Inv(env, states[|states| - 1]) && ScansAccounted(env, states[|states| - 1])
    ensures Work(env, states[|states| - 1]) + |states| - 1 <= Work(env, states[0])
  {
    var last := |states| - 1;
    if last > 0 {
      CalmRunKeeps(env, states[..last]);
      CalmWorks(env, states[last - 1], states[last]);
      CalmIsStep(env, states[last - 1], states[last]);
      ScansStep(env, states[last - 1], states[last]);
    }
  }

  /**
    Once the files stop changing the gateway settles: from any state it can
    reach, every run has at most `Work` steps left, and where it can go no
    further it is quiet and has caught up, or it never loaded anything and is gone.
   */
  lemma Settles(env: Env, before: seq<State>, after: seq<State>)
    requires Run(env, before) && CalmRun(env, after) && after[0] == before[|before| - 1]
    ensures |after| - 1 <= Work(env, after[0])
    ensures
      var s := after[|after| - 1];
      (forall s' :: !CalmStep(env, s, s')) ==> (Quiet(s) && CaughtUp(env, s)) || (s.proxy.Dead? && s.history == [])
  {
    RunKeeps(env, before);
    RunScans(env, before);
    CalmRunKeeps(env, after);
    var s := after[|after| - 1];
    if forall s' :: !CalmStep(env, s, s') {
      StuckEnds(env, s);
    }
  }
}
