/**
  From Kubernetes objects to served routes: what the gateway serves once a
  commit of a rendered snapshot has gone through and everything is quiet.
 */
module EndToEnd {
  import opened Text
  import opened Lua
  import opened Render
  import opened RoundTrip
  import opened RenderProperties
  import opened Commit
  import opened Reconcile
  import opened Gateway
  import opened Reload
  import LuaConfig

  /** Running a chunk of the fragment yields what the grammar says. */
  ghost predicate EvalAgrees(env: Env) {
    forall t: Str :: ParseChunk(t).Some? ==> env.eval(t) == ParseChunk(t)
  }

  /** The rendered tree is on disk. */
  ghost predicate Carries(files: Files, r: Rendered) {
    && At(files, CONFIG_FILE) == Some(ConfigText(r.pools, r.keyspaces))
    && forall n | n in r.modules :: At(files, ModulePath(n)) == Some(r.modules[n])
  }

  /** Every module a rendered keyspace routes through compiles and instantiates. */
  ghost predicate RoutedModulesLoad(env: Env, r: Rendered) {
    forall i | 0 <= i < |r.keyspaces| :: ModuleLoads(env, r.modules, r.keyspaces[i].merge)
  }

  ghost predicate ModuleLoads(env: Env, modules: map<Str, Str>, merge: Option<MergeSpec>) {
    merge.Some? && merge.value.name in modules ==> env.load(merge.value.name, modules[merge.value.name]).Some?
  }

  lemma CommittedCarries(base: Files, s: Snapshot)
    ensures Carries(Committed(base, Tree(RenderOf(s))), RenderOf(s))
  {
    var r := RenderOf(s);
    TreeContents(ConfigText(r.pools, r.keyspaces), r.modules);
    var tree := Tree(r);
    var files := Committed(base, tree);
    forall p | p in tree ensures At(files, p) == Some(tree[p]) {
    }
  }

  /** Whether a module the tree carries makes it into the scan. */
  lemma ScannedIfLoads(env: Env, files: Files, name: Str, wasm: Str)
    requires SafeModuleName(name) && name !in BUILTIN_MERGES && At(files, ModulePath(name)) == Some(wasm)
    ensures name in Composite(Scan(env, files)) <==> env.load(name, wasm).Some?
  {
    NativeAgrees();
    assert '/' !in name;
    StemOf(files, name);
    assert LoadedFlags(env, files, name) == env.load(name, wasm);
  }

  /** What a rendered snapshot is known to be like. */
  ghost predicate Sound(r: Rendered) {
    && Ordered(PoolName, r.pools) && (forall i | 0 <= i < |r.pools| :: PoolProblem(r.pools[i]).None?)
    && Ordered(KeyspacePrefix, r.keyspaces)
    && (forall i | 0 <= i < |r.keyspaces| :: Routable(r.keyspaces[i], PoolNameSet(r.pools), r.modules))
    && (forall n | n in r.modules :: SafeModuleName(n) && n !in BUILTIN_MERGES)
  }

  lemma RenderedIsSound(s: Snapshot)
    ensures Sound(RenderOf(s))
  {
    RenderedFacts(s);
    ModulesFacts(Sorted(KeyspaceName, Deduped(KeyspaceName, s.keyspaces)));
  }

  lemma MergeFound(env: Env, files: Files, r: Rendered, k: Keyspace)
    requires Carries(files, r) && Routable(k, PoolNameSet(r.pools), r.modules)
    requires forall n | n in r.modules :: SafeModuleName(n) && n !in BUILTIN_MERGES
    ensures LuaConfig.MergeOf(KeyspaceValue(k)) in Composite(Scan(env, files)) <==> ModuleLoads(env, r.modules, k.merge)
  {
    NativeAgrees();
    MergeResolves(k, PoolNameSet(r.pools), r.modules);
    var m := LuaConfig.MergeOf(KeyspaceValue(k));
    if k.merge.Some? && m in r.modules {
      ScannedIfLoads(env, files, m, r.modules[m]);
    } else {
      assert m in BUILTIN_MERGES || k.merge.None?;
      DefaultIsNative(k);
    }
  }

  lemma DefaultIsNative(k: Keyspace)
    ensures k.merge.None? ==> LuaConfig.MergeOf(KeyspaceValue(k)) in NATIVE
  {
    SameSpelling();
    NativeAgrees();
    KeyspaceFields(k);
  }

  lemma AcceptedIff(env: Env, files: Files, r: Rendered)
    requires Sound(r) && Carries(files, r)
    ensures LuaConfig.Accepts(ConfigValue(r.pools, r.keyspaces), Composite(Scan(env, files))) <==>
      RoutedModulesLoad(env, r)
  {
    var registry := Composite(Scan(env, files));
    var ks := KeyspaceValues(r.keyspaces);
    forall i | 0 <= i < |ks|
      ensures LuaConfig.MergeOf(ks[i]) in registry <==> ModuleLoads(env, r.modules, r.keyspaces[i].merge)
    {
      MergeFound(env, files, r, r.keyspaces[i]);
    }
    ConfigWellFormed(r.pools, r.keyspaces, r.modules);
    SectionsOf(r.pools, r.keyspaces);
    AcceptsByMerges(ConfigValue(r.pools, r.keyspaces), ks, registry);
  }

  lemma AcceptsByMerges(cfg: Value, ks: seq<Value>, registry: LuaConfig.Registry)
    requires LuaConfig.WellFormed(cfg) && LuaConfig.KeyspacesOf(cfg) == ks
    ensures LuaConfig.Accepts(cfg, registry) <==> forall i | 0 <= i < |ks| :: LuaConfig.MergeOf(ks[i]) in registry
  {
  }

  /**
    With a rendered tree on disk and scanned, its config loads if and only if
    every module it routes through does.
   */
  lemma RenderedLoadsIff(env: Env, files: Files, r: Rendered)
    requires EvalAgrees(env) && Sound(r) && Carries(files, r)
    ensures
      var v, registry := ConfigValue(r.pools, r.keyspaces), Composite(Scan(env, files));
      && env.eval(ConfigText(r.pools, r.keyspaces)) == Some(v)
      && (LuaConfig.Accepts(v, registry) <==> RoutedModulesLoad(env, r))
      && (RoutedModulesLoad(env, r) ==>
            LoadResult(env, At(files, CONFIG_FILE), registry) ==
              Some(LuaConfig.Normalized(v, LuaConfig.FlagsFrom(v, registry))))
      && (!RoutedModulesLoad(env, r) ==> LoadResult(env, At(files, CONFIG_FILE), registry) == None)
  {
    ConfigRoundTrip(r.pools, r.keyspaces);
    AcceptedIff(env, files, r);
  }

  /** A served pool is the given one. */
  ghost predicate ServesPool(v: Value, p: Pool) {
    && v.Table?
    && LuaConfig.Get(v, NAME) == String(p.name)
    && LuaConfig.Get(v, ADDRS) == Table(Strings(p.addrs), map[])
    && LuaConfig.Get(v, HASH) == (if p.hash == [] then Nil else String(p.hash))
    && LuaConfig.Get(v, DIST) == (if p.dist == [] then Nil else String(p.dist))
  }

  const ALL: Str := "all"

  /** The merge a keyspace asks for. */
  function MergeName(k: Keyspace): Str {
    if k.merge.Some? then k.merge.value.name else FIRST_HIT
  }

  /** A served keyspace routes as the given one asks: its own lists, its policy or `all`, its merge or `first-hit`. */
  ghost predicate ServesKeyspace(v: Value, k: Keyspace, flags: Str) {
    && v.Table?
    && LuaConfig.Get(v, PREFIX) == String(k.prefix)
    && LuaConfig.Get(v, READ) == Table(Strings(k.read), map[])
    && LuaConfig.Get(v, WRITE) == Table(Strings(k.write), map[])
    && LuaConfig.Get(v, WRITE_POLICY) == String(if k.writePolicy == [] then ALL else k.writePolicy)
    && LuaConfig.Get(v, MERGE) == String(MergeName(k))
    && LuaConfig.Get(v, LuaConfig.REQUIRED_FLAGS) == String(flags)
  }

  /** A config serves exactly these pools and keyspaces, in order, with these flags. */
  ghost predicate Serves(v: Value, ps: seq<Pool>, ks: seq<Keyspace>, flags: seq<Str>) {
    && LuaConfig.HasSections(v) && |flags| == |ks|
    && |LuaConfig.PoolsOf(v)| == |ps| && |LuaConfig.KeyspacesOf(v)| == |ks|
    && (forall i | 0 <= i < |ps| :: ServesPool(LuaConfig.PoolsOf(v)[i], ps[i]))
    && (forall i | 0 <= i < |ks| :: ServesKeyspace(LuaConfig.KeyspacesOf(v)[i], ks[i], flags[i]))
  }

  lemma FilledServesKeyspace(k: Keyspace, out: Value, flags: Str)
    requires LuaConfig.FilledIn(KeyspaceValue(k), out, flags)
    ensures ServesKeyspace(out, k, flags)
  {
    SameSpelling();
    LuaConfig.Defaults();
    KeyspaceFields(k);
    PrefixApart();
  }

  lemma PrefixApart()
    ensures LuaConfig.PREFIX !in {LuaConfig.READ, LuaConfig.WRITE, LuaConfig.WRITE_POLICY}
    ensures LuaConfig.PREFIX !in {LuaConfig.MERGE, LuaConfig.REQUIRED_FLAGS}
  {
    assert LuaConfig.PREFIX[0] == 'p';
    assert LuaConfig.READ[0] == 'r' && LuaConfig.WRITE[0] == 'w' && LuaConfig.WRITE_POLICY[0] == 'w';
    assert LuaConfig.MERGE[0] == 'm' && LuaConfig.REQUIRED_FLAGS[0] == 'r';
  }

  /** Validating a rendered config leaves one that serves what was rendered. */
  lemma FilledServes(ps: seq<Pool>, ks: seq<Keyspace>, out: Value, flags: seq<Str>)
    requires LuaConfig.Filled(ConfigValue(ps, ks), out, flags)
    ensures Serves(out, ps, ks, flags)
  {
    SameSpelling();
    SectionsOf(ps, ks);
    PoolFieldsDistinct();
    forall i | 0 <= i < |ps| ensures ServesPool(PoolValues(ps)[i], ps[i]) {
      PoolFields(ps[i]);
    }
    forall i | 0 <= i < |ks| ensures ServesKeyspace(LuaConfig.KeyspacesOf(out)[i], ks[i], flags[i]) {
      FilledServesKeyspace(ks[i], LuaConfig.KeyspacesOf(out)[i], flags[i]);
    }
  }

  lemma NormalizedServes(ps: seq<Pool>, ks: seq<Keyspace>, flags: seq<Str>)
    requires LuaConfig.WellFormed(ConfigValue(ps, ks)) && |flags| == |LuaConfig.KeyspacesOf(ConfigValue(ps, ks))|
    ensures Serves(LuaConfig.Normalized(ConfigValue(ps, ks), flags), ps, ks, flags)
  {
    LuaConfig.NormalizedFills(ConfigValue(ps, ks), flags);
    FilledServes(ps, ks, LuaConfig.Normalized(ConfigValue(ps, ks), flags), flags);
  }

  /** The flags each keyspace's merge asks for. */
  ghost predicate FlagsOf(ks: seq<Keyspace>, registry: LuaConfig.Registry, flags: seq<Str>) {
    && |flags| == |ks|
    && forall i | 0 <= i < |ks| :: MergeName(ks[i]) in registry && flags[i] == registry[MergeName(ks[i])]
  }

  /** `v` serves exactly what was rendered, each keyspace with the flags its merge has in the registry. */
  ghost predicate ServesExactly(v: Value, r: Rendered, registry: LuaConfig.Registry) {
    exists flags: seq<Str> :: FlagsOf(r.keyspaces, registry, flags) && Serves(v, r.pools, r.keyspaces, flags)
  }

  lemma AcceptedServes(r: Rendered, registry: LuaConfig.Registry)
    requires LuaConfig.Accepts(ConfigValue(r.pools, r.keyspaces), registry)
    ensures
      var cfg := ConfigValue(r.pools, r.keyspaces);
      ServesExactly(LuaConfig.Normalized(cfg, LuaConfig.FlagsFrom(cfg, registry)), r, registry)
  {
    var cfg := ConfigValue(r.pools, r.keyspaces);
    var flags := LuaConfig.FlagsFrom(cfg, registry);
    SectionsOf(r.pools, r.keyspaces);
    forall i | 0 <= i < |r.keyspaces|
      ensures LuaConfig.MergeOf(KeyspaceValues(r.keyspaces)[i]) == MergeName(r.keyspaces[i])
    {
      MergeIsNamed(r.keyspaces[i]);
    }
    assert FlagsOf(r.keyspaces, registry, flags);
    NormalizedServes(r.pools, r.keyspaces, flags);
  }

  lemma MergeIsNamed(k: Keyspace)
    ensures LuaConfig.MergeOf(KeyspaceValue(k)) == MergeName(k)
  {
    SameSpelling();
    LuaConfig.Defaults();
    KeyspaceFields(k);
  }

  /**
    The whole chain. When a commit of a snapshot's tree has gone through and
    nothing is pending, the gateway serves exactly the pools and keyspaces the
    renderer let through, provided the modules they route through load; if one
    does not, it goes on serving the latest config that did.
   */
  lemma ServesTheSnapshot(env: Env, states: seq<State>, base: Files, s: Snapshot)
    requires EvalAgrees(env) && Run(env, states)
    requires Quiet(states[|states| - 1]) && !LastListingFailed(env, states[|states| - 1])
    requires states[|states| - 1].files == Committed(base, Tree(RenderOf(s)))
    ensures
      var st, r := states[|states| - 1], RenderOf(s);
      && (RoutedModulesLoad(env, r) ==>
            st.loaded.config.Some? && ServesExactly(st.loaded.config.value, r, Composite(st.wasm)))
      && (!RoutedModulesLoad(env, r) ==> st.history != [] && st.loaded.config == Some(st.history[|st.history| - 1]))
  {
    CommittedCarries(base, s);
    RenderedIsSound(s);
    RenderedLoadsIff(env, states[|states| - 1].files, RenderOf(s));
    QuietMeansCaughtUp(env, states);
    if RoutedModulesLoad(env, RenderOf(s)) {
      AcceptedServes(RenderOf(s), Composite(states[|states| - 1].wasm));
    }
  }

  /**
    The mount the gateway watches is the operator's: every state of its files is
    one the operator's history went through.
   */
  ghost predicate Driven(states: seq<State>, turns: seq<Turn>) {
    forall j | 0 <= j < |states| :: states[j].files in Reconcile.States(turns)
  }

  /** `v` serves exactly what the snapshot of turn `i` renders to. */
  ghost predicate LoadedFrom(turns: seq<Turn>, i: nat, v: Value) {
    && i < |turns| && turns[i].act.Pass? && turns[i].act.snapshot.Some?
    && var r := RenderOf(turns[i].act.snapshot.value);
       exists flags: seq<Str> :: Serves(v, r.pools, r.keyspaces, flags)
  }

  lemma ValidatedServes(ps: seq<Pool>, ks: seq<Keyspace>, v: Value)
    requires IsValidated(ConfigValue(ps, ks), v)
    ensures exists flags: seq<Str> :: Serves(v, ps, ks, flags)
  {
    var cfg := ConfigValue(ps, ks);
    var flags: seq<Str> :| |flags| == |LuaConfig.KeyspacesOf(cfg)| && v == LuaConfig.Normalized(cfg, flags);
    NormalizedServes(ps, ks, flags);
  }

  ghost predicate LoadedFromSome(turns: seq<Turn>, v: Value) {
    exists i :: LoadedFrom(turns, i, v)
  }

  /** A config on a mount the operator drives is the text of a snapshot it has passed over. */
  lemma ConfigFromSnapshot(env: Env, turns: seq<Turn>, files: Files, cfg: Value) returns (i: nat)
    requires EvalAgrees(env) && History(Rendering(), turns) && files in Reconcile.States(turns)
    requires ConfigOnDisk(env, files) == Some(cfg)
    ensures i < |turns| && turns[i].act.Pass? && turns[i].act.snapshot.Some?
    ensures var r := RenderOf(turns[i].act.snapshot.value); cfg == ConfigValue(r.pools, r.keyspaces)
  {
    FilesAreWhole(Rendering(), turns);
    RecognizedNotStaging(CONFIG_FILE);
    assert Whole(Rendering(), turns, files);
    i := CameFrom(Rendering(), turns, CONFIG_FILE, files[CONFIG_FILE]);
    var r := RenderOf(turns[i].act.snapshot.value);
    TreeContents(ConfigText(r.pools, r.keyspaces), r.modules);
    ConfigRoundTrip(r.pools, r.keyspaces);
  }

  /**
    Operator and gateway together, at every moment and not only when all is quiet:
    over any history of passes, cuts and restarts and any interleaving of the
    gateway with its file changes, every config the gateway ever loads serves
    exactly the pools and keyspaces some snapshot in that history renders to.
   */
  lemma LoadsOnlySnapshots(env: Env, states: seq<State>, turns: seq<Turn>)
    requires EvalAgrees(env) && Run(env, states) && History(Rendering(), turns) && Driven(states, turns)
    ensures forall v | v in states[|states| - 1].history :: LoadedFromSome(turns, v)
  {
    LoadsWhatWasOnDisk(env, states);
    forall v | v in states[|states| - 1].history ensures LoadedFromSome(turns, v) {
      var cfg :| WasOnDisk(env, states, cfg) && IsValidated(cfg, v);
      var j :| 0 <= j < |states| && ConfigOnDisk(env, states[j].files) == Some(cfg);
      var i := ConfigFromSnapshot(env, turns, states[j].files, cfg);
      var r := RenderOf(turns[i].act.snapshot.value);
      ValidatedServes(r.pools, r.keyspaces, v);
      assert LoadedFrom(turns, i, v);
    }
  }
}
