/**
  The reconciler: render a snapshot, commit the tree, remember that it worked
  (go/internal/operator/controller.go). The claim is about whole runs: from an
  empty mount, over any sequence of passes that may each be cut short anywhere
  and any restarts, the config on disk never names a merge the gateway could not
  find, and once the operator is ready it is always there.
 */
module Reconcile {
  import opened Text
  import opened Lua
  import opened Render
  import opened RoundTrip
  import opened RenderProperties
  import opened Renderer
  import opened Commit
  import LuaConfig

  /** The merges a config text routes through, as the Lua side would read it. */
  ghost function MergesNamed(text: Str): set<Str> {
    match ParseChunk(text)
    case None => {}
    case Some(v) =>
      if !LuaConfig.HasSections(v) then {}
      else
        var ks := LuaConfig.KeyspacesOf(v);
        set i | 0 <= i < |ks| :: LuaConfig.MergeOf(ks[i])
  }

  /** Every merge the tree's config names is a built-in or has its module in the tree. */
  ghost predicate SelfContained(files: Files) {
    CONFIG_FILE in files &&
    forall m | m in MergesNamed(files[CONFIG_FILE]) :: m in BUILTIN_MERGES || ModulePath(m) in files
  }

  /** The safety property of the mount. */
  ghost predicate Safe(files: Files) {
    CONFIG_FILE in files ==> SelfContained(files)
  }

  lemma ModulePathNotStaging(m: Str)
    ensures !HasSuffix(ModulePath(m), TMP_SUFFIX)
  {
    var p := ModulePath(m);
    if HasSuffix(p, TMP_SUFFIX) {
      SuffixLast(p, TMP_SUFFIX);
      AppendSuffix(UDF_PREFIX + m, WASM_SUFFIX);
      SuffixLast(p, WASM_SUFFIX);
      assert false;
    }
  }

  /** Every state of a commit is safe if the mount it started from and the tree it places are. */
  lemma PassingIsSafe(base: Files, desired: Files, t: Files)
    requires Safe(base) && SelfContained(desired)
    requires Before(base, desired, t) || After(base, desired, t)
    ensures Safe(t)
  {
    RecognizedNotStaging(CONFIG_FILE);
    if CONFIG_FILE in t {
      forall m | m in MergesNamed(t[CONFIG_FILE]) ensures m in BUILTIN_MERGES || ModulePath(m) in t {
        ModulePathNotStaging(m);
        assert At(t, CONFIG_FILE) == At(if After(base, desired, t) then desired else base, CONFIG_FILE);
      }
    }
  }

  // ---------------------------------------------------------------- the rendered tree

  lemma TreeContents(config: Str, modules: map<Str, Str>)
    ensures var files := TreeOf(config, modules);
      && CONFIG_FILE in files && files[CONFIG_FILE] == config
      && (forall n | n in modules :: ModulePath(n) in files && files[ModulePath(n)] == modules[n])
      && (forall p | p in files :: p == CONFIG_FILE || exists n | n in modules :: p == ModulePath(n))
  {
    ModulePathsDistinct();
  }

  lemma SafeNameIsModule(n: Str)
    requires SafeModuleName(n)
    ensures IsModule(ModulePath(n)) && Recognized(ModulePath(n))
  {
    var p := ModulePath(n);
    assert p[..|UDF_PREFIX|] == UDF_PREFIX;
    assert p[|UDF_PREFIX|..] == n + WASM_SUFFIX;
    AppendSuffix(n, WASM_SUFFIX);
    assert '/' !in n;
    assert '/' !in WASM_SUFFIX;
    ModuleNotTemp(p);
  }

  lemma RenderedTree(s: Snapshot)
    ensures var tree := Tree(RenderOf(s)); Committable(tree) && Flat(tree)
  {
    var r := RenderOf(s);
    TreeContents(ConfigText(r.pools, r.keyspaces), r.modules);
    ModulesFacts(Sorted(KeyspaceName, Deduped(KeyspaceName, s.keyspaces)));
    forall p | p in Tree(r) ensures Recognized(p) && (p == CONFIG_FILE || IsModule(p)) {
      if p != CONFIG_FILE {
        var n :| n in r.modules && p == ModulePath(n);
        SafeNameIsModule(n);
      }
    }
  }

  lemma RenderedMerges(ps: seq<Pool>, ks: seq<Keyspace>, modules: map<Str, Str>, m: Str)
    requires forall i | 0 <= i < |ks| :: Routable(ks[i], PoolNameSet(ps), modules)
    requires m in MergesNamed(ConfigText(ps, ks))
    ensures m in BUILTIN_MERGES || m in modules
  {
    ConfigRoundTrip(ps, ks);
    SectionsOf(ps, ks);
    var vs := KeyspaceValues(ks);
    var i :| 0 <= i < |vs| && m == LuaConfig.MergeOf(vs[i]);
    MergeResolves(ks[i], PoolNameSet(ps), modules);
  }

  lemma RenderedSelfContained(s: Snapshot)
    ensures SelfContained(Tree(RenderOf(s)))
  {
    var r := RenderOf(s);
    var text := ConfigText(r.pools, r.keyspaces);
    TreeContents(text, r.modules);
    RenderedFacts(s);
    forall m | m in MergesNamed(text) ensures m in BUILTIN_MERGES || ModulePath(m) in Tree(r) {
      RenderedMerges(r.pools, r.keyspaces, r.modules, m);
    }
  }

  // ---------------------------------------------------------------- one pass

  /** The renderer as a function from snapshots to trees. */
  ghost function Rendering(): Snapshot -> Files {
    (s: Snapshot) => Tree(RenderOf(s))
  }

  /** A whole commit as a function from the mount and the tree to the mount. */
  ghost function Committing(): (Files, Files) -> Files {
    (files: Files, tree: Files) => Committed(files, tree)
  }

  /**
    What the mount goes through while a tree is committed: `states` from the first
    to the last, `ok` if that succeeded.
   */
  ghost predicate Passes(tree: Files, states: seq<Files>, ok: bool) {
    && CONFIG_FILE in tree && states != []
    && AllBetween(states[0], tree, states)
    && (ok ==> states[|states| - 1] == Committing()(states[0], tree))
  }

  /** Every state is on one side or the other of the config going live. */
  ghost predicate AllBetween(base: Files, tree: Files, states: seq<Files>) {
    states == [] ||
    var t := states[|states| - 1];
    (Before(base, tree, t) || After(base, tree, t)) && AllBetween(base, tree, states[..|states| - 1])
  }

  lemma {:induction false} BetweenAt(base: Files, tree: Files, states: seq<Files>, t: Files)
    requires AllBetween(base, tree, states) && t in states
    ensures Before(base, tree, t) || After(base, tree, t)
  {
    var init, last := states[..|states| - 1], states[|states| - 1];
    if t != last {
      assert states == init + [last];
      BetweenAt(base, tree, init, t);
    }
  }

  lemma {:induction false} BetweenFrom(base: Files, tree: Files, trace: seq<Files>, lo: nat, hi: nat)
    requires lo <= hi <= |trace|
    requires forall k | lo <= k < hi :: Before(base, tree, trace[k]) || After(base, tree, trace[k])
    ensures AllBetween(base, tree, trace[lo..hi])
    decreases hi
  {
    if lo < hi {
      BetweenFrom(base, tree, trace, lo, hi - 1);
      assert trace[lo..hi][..hi - lo - 1] == trace[lo..hi - 1];
    }
  }

  lemma {:induction false} BetweenAdded(base: Files, tree: Files, first: Files, states: seq<Files>)
    requires AllBetween(base, tree, states) && (Before(base, tree, first) || After(base, tree, first))
    ensures AllBetween(base, tree, [first] + states)
  {
    if states == [] {
      assert [first] + states == [first];
    } else {
      var init := states[..|states| - 1];
      BetweenAdded(base, tree, first, init);
      assert ([first] + states)[..|states|] == [first] + init;
    }
  }

  lemma PassFrom(base: Files, tree: Files, before: seq<Files>, after: seq<Files>, final: Files, ok: bool)
    requires before != [] && before[|before| - 1] == base && before <= after && CONFIG_FILE in tree
    requires AllBetween(base, tree, after[|before|..])
    requires final == after[|after| - 1] && (ok ==> final == Committing()(base, tree))
    ensures Passes(tree, after[|before| - 1..], ok)
  {
    BetweenAdded(base, tree, base, after[|before|..]);
    assert after[|before| - 1..] == [base] + after[|before|..];
  }

  /** Commit of a flat tree, without its report. */
  method CommitFlat(m: Mount, files: Files) returns (ok: bool)
    requires m.Valid() && Committable(files) && Flat(files)
    modifies m
    ensures m.Valid() && old(m.trace) <= m.trace
    ensures old(m.calls) <= m.calls && (m.Sound(old(m.calls)) ==> ok)
    ensures AllBetween(old(m.files), files, m.trace[|old(m.trace)|..])
    ensures ok ==> m.files == Committing()(old(m.files), files)
  {
    var res;
    ok, res := CommitTree(m, files);
    BetweenFrom(old(m.files), files, m.trace, |old(m.trace)|, |m.trace|);
    assert m.trace[|old(m.trace)|..|m.trace|] == m.trace[|old(m.trace)|..];
  }

  /** The same, as a list of states. */
  method CommitPass(m: Mount, files: Files) returns (ok: bool)
    requires m.Valid() && Committable(files) && Flat(files)
    modifies m
    ensures m.Valid() && old(m.trace) <= m.trace
    ensures old(m.calls) <= m.calls && (m.Sound(old(m.calls)) ==> ok)
    ensures Passes(files, m.trace[|old(m.trace)| - 1..], ok)
  {
    ghost var base, before := m.files, m.trace;
    ok := CommitFlat(m, files);
    PassFrom(base, files, before, m.trace, m.files, ok);
  }

  // ---------------------------------------------------------------- runs

  /** What happens to the operator: a pass, whose List calls may fail (`None`), or a restart of the process. */
  datatype Act = Pass(snapshot: Option<Snapshot>) | Restart

  /** One act with the states the mount went through and the flag after it. */
  datatype Turn = Turn(act: Act, states: seq<Files>, ok: bool, ready: bool)

  /** Where the mount and the flag are after these turns, from an empty mount. */
  ghost function FilesAfter(turns: seq<Turn>): Files {
    if turns == [] || turns[|turns| - 1].states == [] then map[]
    else turns[|turns| - 1].states[|turns[|turns| - 1].states| - 1]
  }

  ghost function ReadyAfter(turns: seq<Turn>): bool {
    turns != [] && turns[|turns| - 1].ready
  }

  /** A restart loses the flag, not the mount; a pass sets the flag exactly on success. */
  ghost predicate Follows(render: Snapshot -> Files, files: Files, ready: bool, t: Turn) {
    && t.states != [] && t.states[0] == files
    && match t.act
       case Pass(Some(snapshot)) => Passes(render(snapshot), t.states, t.ok) && t.ready == (ready || t.ok)
       case Pass(None) => |t.states| == 1 && !t.ok && t.ready == ready
       case Restart => |t.states| == 1 && !t.ok && !t.ready
  }

  ghost predicate History(render: Snapshot -> Files, turns: seq<Turn>) {
    turns == [] ||
    var init, t := turns[..|turns| - 1], turns[|turns| - 1];
    History(render, init) && Follows(render, FilesAfter(init), ReadyAfter(init), t)
  }

  /** All states of a history, one after the other. */
  ghost function States(turns: seq<Turn>): seq<Files> {
    if turns == [] then [map[]]
    else
      var t := turns[|turns| - 1];
      States(turns[..|turns| - 1]) + if t.states == [] then [] else t.states[1..]
  }

  ghost predicate AllSafe(states: seq<Files>) {
    forall t | t in states :: Safe(t)
  }

  ghost predicate AllConfigured(states: seq<Files>) {
    forall t | t in states :: CONFIG_FILE in t
  }

  /** A pass keeps a safe mount safe, and a config that is there; success puts one there. */
  lemma PassKeeps(tree: Files, states: seq<Files>, ok: bool)
    requires SelfContained(tree) && Passes(tree, states, ok)
    ensures Safe(states[0]) ==> AllSafe(states)
    ensures CONFIG_FILE in states[0] ==> AllConfigured(states)
    ensures ok ==> CONFIG_FILE in states[|states| - 1]
  {
    RecognizedNotStaging(CONFIG_FILE);
    if Safe(states[0]) {
      forall x | x in states ensures Safe(x) {
        BetweenAt(states[0], tree, states, x);
        PassingIsSafe(states[0], tree, x);
      }
    }
    if CONFIG_FILE in states[0] {
      forall x | x in states ensures CONFIG_FILE in x {
        BetweenAt(states[0], tree, states, x);
        assert At(x, CONFIG_FILE) == At(states[0], CONFIG_FILE) || At(x, CONFIG_FILE).Some?;
      }
    }
  }

  /** Every tree that may come out of the renderer carries the modules its config names. */
  ghost predicate Renders(render: Snapshot -> Files) {
    forall s: Snapshot :: SelfContained(render(s))
  }

  lemma TurnKeeps(render: Snapshot -> Files, files: Files, ready: bool, t: Turn)
    requires Renders(render) && Follows(render, files, ready, t)
    ensures Safe(files) ==> AllSafe(t.states)
    ensures CONFIG_FILE in files ==> AllConfigured(t.states)
    ensures t.ok ==> CONFIG_FILE in t.states[|t.states| - 1]
  {
    if t.act.Pass? && t.act.snapshot.Some? {
      PassKeeps(render(t.act.snapshot.value), t.states, t.ok);
    }
  }

  lemma {:induction false} HistorySafe(render: Snapshot -> Files, turns: seq<Turn>)
    requires Renders(render) && History(render, turns)
    ensures Safe(FilesAfter(turns)) && forall k | 0 <= k < |turns| :: AllSafe(turns[k].states)
  {
    if turns != [] {
      var init, t := turns[..|turns| - 1], turns[|turns| - 1];
      HistorySafe(render, init);
      TurnKeeps(render, FilesAfter(init), ReadyAfter(init), t);
      assert forall k | 0 <= k < |init| :: turns[k] == init[k];
      assert FilesAfter(turns) in t.states;
    }
  }

  /** So every state the mount was ever in is. */
  lemma {:induction false} AllStatesSafe(render: Snapshot -> Files, turns: seq<Turn>)
    requires Renders(render) && History(render, turns)
    ensures AllSafe(States(turns))
  {
    if turns != [] {
      var init, t := turns[..|turns| - 1], turns[|turns| - 1];
      AllStatesSafe(render, init);
      HistorySafe(render, init);
      TurnKeeps(render, FilesAfter(init), ReadyAfter(init), t);
      assert forall x | x in t.states[1..] :: x in t.states;
    }
  }

  /** Once a pass has succeeded, no state of any later turn is without a config, restarts or not. */
  lemma {:induction false} ConfigStays(render: Snapshot -> Files, turns: seq<Turn>, i: nat)
    requires Renders(render) && History(render, turns) && i < |turns| && turns[i].ok
    ensures CONFIG_FILE in FilesAfter(turns) && forall j | i < j < |turns| :: AllConfigured(turns[j].states)
  {
    var init, t := turns[..|turns| - 1], turns[|turns| - 1];
    TurnKeeps(render, FilesAfter(init), ReadyAfter(init), t);
    if i < |init| {
      ConfigStays(render, init, i);
      assert forall j | i < j < |init| :: turns[j] == init[j];
      assert FilesAfter(turns) in t.states;
    }
  }

  lemma FlagStep(render: Snapshot -> Files, files: Files, ready: bool, t: Turn)
    requires Follows(render, files, ready, t) && t.ready
    ensures ready || t.ok
  {
  }

  /** The flag is only ever up behind a success. */
  lemma {:induction false} ReadySince(render: Snapshot -> Files, turns: seq<Turn>) returns (i: nat)
    requires History(render, turns) && ReadyAfter(turns)
    ensures i < |turns| && turns[i].ok
  {
    var init, t := turns[..|turns| - 1], turns[|turns| - 1];
    FlagStep(render, FilesAfter(init), ReadyAfter(init), t);
    if t.ok {
      i := |init|;
    } else {
      i := ReadySince(render, init);
    }
  }

  lemma {:induction false} HistoryPrefix(render: Snapshot -> Files, turns: seq<Turn>, n: nat)
    requires History(render, turns) && n <= |turns|
    ensures History(render, turns[..n])
  {
    if n < |turns| {
      HistoryPrefix(render, turns[..|turns| - 1], n);
      assert turns[..|turns| - 1][..n] == turns[..n];
    } else {
      assert turns[..n] == turns;
    }
  }

  lemma RenderingRenders()
    ensures Renders(Rendering())
  {
    forall s: Snapshot ensures SelfContained(Rendering()(s)) {
      RenderedSelfContained(s);
    }
  }

  lemma SuccessKeepsConfig(render: Snapshot -> Files, turns: seq<Turn>)
    requires Renders(render) && History(render, turns)
    ensures forall i, j | 0 <= i < j < |turns| && turns[i].ok :: AllConfigured(turns[j].states)
  {
    forall i, j | 0 <= i < j < |turns| && turns[i].ok ensures AllConfigured(turns[j].states) {
      ConfigStays(render, turns, i);
    }
  }

  lemma ReadyKeepsConfig(render: Snapshot -> Files, turns: seq<Turn>)
    requires Renders(render) && History(render, turns)
    ensures forall i, j | 0 <= i < j < |turns| && turns[i].ready :: AllConfigured(turns[j].states)
  {
    forall i, j | 0 <= i < j < |turns| && turns[i].ready ensures AllConfigured(turns[j].states) {
      ReadyConfigures(render, turns, i, j);
    }
  }

  lemma ReadyHasConfig(render: Snapshot -> Files, turns: seq<Turn>)
    requires Renders(render) && History(render, turns)
    ensures ReadyAfter(turns) ==> CONFIG_FILE in FilesAfter(turns)
  {
    if ReadyAfter(turns) {
      var i := ReadySince(render, turns);
      ConfigStays(render, turns, i);
    }
  }

  /**
    The safety of whole runs, from an empty mount, over any acts and any cuts:
    no state names a merge that is not there; after a pass that succeeded, and so
    from the moment the operator reports ready, no state is ever without a config.
   */
  lemma RunsAreSafe(turns: seq<Turn>)
    requires History(Rendering(), turns)
    ensures forall k | 0 <= k < |turns| :: AllSafe(turns[k].states)
    ensures forall i, j | 0 <= i < j < |turns| && turns[i].ok :: AllConfigured(turns[j].states)
    ensures forall i, j | 0 <= i < j < |turns| && turns[i].ready :: AllConfigured(turns[j].states)
    ensures ReadyAfter(turns) ==> CONFIG_FILE in FilesAfter(turns)
  {
    RenderingRenders();
    HistorySafe(Rendering(), turns);
    SuccessKeepsConfig(Rendering(), turns);
    ReadyKeepsConfig(Rendering(), turns);
    ReadyHasConfig(Rendering(), turns);
  }

  lemma ReadyConfigures(render: Snapshot -> Files, turns: seq<Turn>, n: nat, j: nat)
    requires Renders(render) && History(render, turns) && n < j < |turns| && turns[n].ready
    ensures AllConfigured(turns[j].states)
  {
    var i := ReadyBy(render, turns, n);
    ConfigStays(render, turns, i);
  }

  lemma ReadyBy(render: Snapshot -> Files, turns: seq<Turn>, n: nat) returns (i: nat)
    requires History(render, turns) && n < |turns| && turns[n].ready
    ensures i <= n && turns[i].ok
  {
    HistoryPrefix(render, turns, n + 1);
    i := ReadySince(render, turns[..n + 1]);
    assert turns[i] == turns[..n + 1][i];
  }

  // ---------------------------------------------------------------- where contents come from

  /** Some pass of these turns set out to place exactly these bytes at `p`. */
  ghost predicate Came(render: Snapshot -> Files, turns: seq<Turn>, p: Str, data: Str) {
    && turns != []
    && var act := turns[|turns| - 1].act;
       || Came(render, turns[..|turns| - 1], p, data)
       || (act.Pass? && act.snapshot.Some? && At(render(act.snapshot.value), p) == Some(data))
  }

  /** Every file but staging files did. */
  ghost predicate Whole(render: Snapshot -> Files, turns: seq<Turn>, files: Files) {
    forall p | p in files && !Staging(p) :: Came(render, turns, p, files[p])
  }

  ghost predicate AllWhole(render: Snapshot -> Files, turns: seq<Turn>, states: seq<Files>) {
    forall t | t in states :: Whole(render, turns, t)
  }

  lemma CameLater(render: Snapshot -> Files, turns: seq<Turn>, t: Turn, files: Files)
    requires Whole(render, turns, files)
    ensures Whole(render, turns + [t], files)
  {
    assert (turns + [t])[..|turns|] == turns;
  }

  /** A state of a pass holds what the mount held before it or what the tree has. */
  lemma PassWhole(render: Snapshot -> Files, turns: seq<Turn>, t: Turn, snapshot: Snapshot, x: Files)
    requires t.states != [] && Whole(render, turns, t.states[0]) && t.act == Pass(Some(snapshot))
    requires var tree := render(snapshot); Before(t.states[0], tree, x) || After(t.states[0], tree, x)
    ensures Whole(render, turns + [t], x)
  {
    CameLater(render, turns, t, t.states[0]);
    var tree := render(snapshot);
    assert (turns + [t])[..|turns|] == turns;
    forall p | p in x && !Staging(p) ensures Came(render, turns + [t], p, x[p]) {
      assert At(x, p) == At(t.states[0], p) || At(x, p) == At(tree, p);
    }
  }

  lemma TurnWhole(render: Snapshot -> Files, turns: seq<Turn>, t: Turn, ready: bool)
    requires t.states != [] && Whole(render, turns, t.states[0]) && Follows(render, t.states[0], ready, t)
    ensures AllWhole(render, turns + [t], t.states)
  {
    if t.act.Pass? && t.act.snapshot.Some? {
      forall x | x in t.states ensures Whole(render, turns + [t], x) {
        BetweenAt(t.states[0], render(t.act.snapshot.value), t.states, x);
        PassWhole(render, turns, t, t.act.snapshot.value, x);
      }
    } else {
      CameLater(render, turns, t, t.states[0]);
    }
  }

  lemma AllWholeLater(render: Snapshot -> Files, turns: seq<Turn>, t: Turn, states: seq<Files>)
    requires AllWhole(render, turns, states)
    ensures AllWhole(render, turns + [t], states)
  {
    forall x | x in states ensures Whole(render, turns + [t], x) {
      CameLater(render, turns, t, x);
    }
  }

  /**
    In every state of every history each file but staging files holds, whole, what
    some pass so far had rendered for its path: nobody ever reads part of a file.
   */
  lemma {:induction false} FilesAreWhole(render: Snapshot -> Files, turns: seq<Turn>)
    requires History(render, turns)
    ensures AllWhole(render, turns, States(turns)) && Whole(render, turns, FilesAfter(turns))
  {
    if turns != [] {
      var init, t := turns[..|turns| - 1], turns[|turns| - 1];
      FilesAreWhole(render, init);
      assert turns == init + [t];
      TurnWhole(render, init, t, ReadyAfter(init));
      AllWholeLater(render, init, t, States(init));
      assert forall x | x in t.states[1..] :: x in t.states;
      assert FilesAfter(turns) in t.states;
    }
  }

  /** The pass such contents came from. */
  lemma {:induction false} CameFrom(render: Snapshot -> Files, turns: seq<Turn>, p: Str, data: Str) returns (i: nat)
    requires Came(render, turns, p, data)
    ensures i < |turns| && turns[i].act.Pass? && turns[i].act.snapshot.Some?
    ensures At(render(turns[i].act.snapshot.value), p) == Some(data)
  {
    var last := |turns| - 1;
    if Came(render, turns[..last], p, data) {
      i := CameFrom(render, turns[..last], p, data);
    } else {
      i := last;
    }
  }

  // ---------------------------------------------------------------- the reconciler

  class Reconciler {
    const mount: Mount
    var committed: bool
    /** The renderer in use: see `Rendering`. */
    ghost const render: Snapshot -> Files
    /** Everything that has happened, turn by turn. */
    ghost var turns: seq<Turn>

    /** The history accounts for every state the mount has ever been in, and for the flag. */
    ghost predicate Valid()
      reads this, mount
    {
      && mount.Valid() && Renders(render)
      && History(render, turns) && mount.trace == States(turns) && committed == ReadyAfter(turns)
    }

    constructor (fails: nat -> bool)
      ensures Valid() && fresh(mount) && turns == [] && render == Rendering()
      ensures mount.fails == fails && mount.calls == 0
    {
      RenderingRenders();
      mount := new Mount(fails);
      committed := false;
      render := Rendering();
      turns := [];
    }

    /** Whether a commit has succeeded since the process started; if so the mount has a config. */
    method Ready() returns (ready: bool)
      requires Valid()
      ensures ready == ReadyAfter(turns)
      ensures ready ==> CONFIG_FILE in mount.files
    {
      ready := committed;
      LastState(render, turns);
      ReadyHasConfig(render, turns);
    }

    /** Commit of what a snapshot rendered to, and the flag. */
    method Apply(files: Files, ghost snapshot: Snapshot) returns (ok: bool)
      requires Valid() && files == render(snapshot) && Committable(files) && Flat(files)
      modifies this, mount
      ensures Valid() && Recorded(old(turns), turns, Pass(Some(snapshot)), ok)
      ensures old(mount.calls) <= mount.calls && (mount.Sound(old(mount.calls)) ==> ok)
    {
      ghost var before := mount.trace;
      LastState(render, turns);
      ok := CommitPass(mount, files);
      if ok {
        committed := true;
      }
      ghost var t := PassTurn(render, turns, snapshot, before, mount.trace, ok, committed);
      turns := turns + [t];
    }

    /** Something happened that leaves the mount alone. */
    ghost method Idle(act: Act)
      requires mount.Valid() && Renders(render) && History(render, turns) && mount.trace == States(turns)
      requires act == Pass(None) || act == Restart
      requires committed == (act.Pass? && ReadyAfter(turns))
      modifies this`turns
      ensures Valid() && Recorded(old(turns), turns, act, false)
    {
      var t := IdleTurn(render, turns, act, mount.trace, committed);
      turns := turns + [t];
    }

    /** One pass; `None` stands for a failed List. It succeeds unless List or a call on the mount failed. */
    method Reconcile(snapshot: Option<Snapshot>) returns (ok: bool)
      requires Valid() && render == Rendering()
      modifies this, mount
      ensures Valid() && Recorded(old(turns), turns, Pass(snapshot), ok)
      ensures old(mount.calls) <= mount.calls && (snapshot.Some? && mount.Sound(old(mount.calls)) ==> ok)
    {
      if snapshot.None? {
        Idle(Pass(None));
        return false;
      }
      var files, _ := RenderSnapshot(snapshot.value);
      RenderedTree(snapshot.value);
      ok := Apply(files, snapshot.value);
    }

    /** The operator process restarts: the flag is lost, the mount is not. */
    method Restarted()
      requires Valid()
      modifies this`committed, this`turns
      ensures Valid() && Recorded(old(turns), turns, Restart, false)
    {
      committed := false;
      Idle(Restart);
    }
  }

  /** One more turn, of that act and with that outcome. */
  ghost predicate Recorded(before: seq<Turn>, after: seq<Turn>, act: Act, ok: bool) {
    |after| == |before| + 1 && before <= after && after[|before|].act == act && after[|before|].ok == ok
  }

  lemma {:induction false} LastState(render: Snapshot -> Files, turns: seq<Turn>)
    requires History(render, turns)
    ensures States(turns) != [] && States(turns)[|States(turns)| - 1] == FilesAfter(turns)
  {
    if turns != [] {
      LastState(render, turns[..|turns| - 1]);
    }
  }

  /** The turn a pass amounts to, which the history goes on with. */
  lemma PassTurn(render: Snapshot -> Files, turns: seq<Turn>, snapshot: Snapshot, before: seq<Files>, after: seq<Files>,
                 ok: bool, flag: bool) returns (t: Turn)
    requires History(render, turns) && before == States(turns) && before != [] && before <= after
    requires Passes(render(snapshot), after[|before| - 1..], ok) && flag == (ReadyAfter(turns) || ok)
    ensures t.act == Pass(Some(snapshot)) && t.ok == ok && t.ready == flag
    ensures History(render, turns + [t]) && States(turns + [t]) == after
  {
    LastState(render, turns);
    t := Turn(Pass(Some(snapshot)), after[|before| - 1..], ok, flag);
    TurnAdded(render, turns, t, before, after);
  }

  /** The turn of an act that leaves the mount alone. */
  lemma IdleTurn(render: Snapshot -> Files, turns: seq<Turn>, act: Act, trace: seq<Files>, flag: bool) returns (t: Turn)
    requires History(render, turns) && trace == States(turns) && trace != []
    requires (act == Pass(None) || act == Restart) && flag == (act.Pass? && ReadyAfter(turns))
    ensures t.act == act && !t.ok && t.ready == flag
    ensures History(render, turns + [t]) && States(turns + [t]) == trace
  {
    LastState(render, turns);
    t := Turn(act, trace[|trace| - 1..], false, flag);
    TurnAdded(render, turns, t, trace, trace);
  }

  lemma TurnAdded(render: Snapshot -> Files, turns: seq<Turn>, t: Turn, before: seq<Files>, after: seq<Files>)
    requires History(render, turns) && Follows(render, FilesAfter(turns), ReadyAfter(turns), t)
    requires before == States(turns) && before != [] && before <= after && t.states == after[|before| - 1..]
    ensures History(render, turns + [t]) && States(turns + [t]) == after
  {
    assert (turns + [t])[..|turns|] == turns;
    assert t.states[1..] == after[|before|..];
  }

  /** The acts happened, in order. */
  ghost predicate Acted(acts: seq<Act>, turns: seq<Turn>) {
    |turns| == |acts| && forall k | 0 <= k < |acts| :: turns[k].act == acts[k]
  }

  /** Every pass that got its lists succeeded. */
  ghost predicate AllSucceeded(turns: seq<Turn>) {
    forall k | 0 <= k < |turns| :: turns[k].act.Pass? && turns[k].act.snapshot.Some? ==> turns[k].ok
  }

  lemma RecordedAct(acts: seq<Act>, before: seq<Turn>, after: seq<Turn>, ok: bool)
    requires |before| < |acts| && Acted(acts[..|before|], before) && Recorded(before, after, acts[|before|], ok)
    ensures Acted(acts[..|after|], after)
    ensures AllSucceeded(before) && (ok || !acts[|before|].Pass? || acts[|before|].snapshot.None?) ==>
      AllSucceeded(after)
  {
    forall k | 0 <= k < |after| ensures after[k].act == acts[k] {
      if k < |before| {
        assert before[k].act == acts[..|before|][k];
      }
    }
  }

  /** One act. */
  method Perform(r: Reconciler, act: Act) returns (ok: bool)
    requires r.Valid() && r.render == Rendering()
    modifies r, r.mount
    ensures r.Valid() && Recorded(old(r.turns), r.turns, act, ok)
    ensures old(r.mount.calls) <= r.mount.calls
    ensures r.mount.Sound(old(r.mount.calls)) ==> ok || !act.Pass? || act.snapshot.None?
  {
    match act {
      case Pass(snapshot) =>
        ok := r.Reconcile(snapshot);
      case Restart =>
        r.Restarted();
        ok := false;
    }
  }

  /**
    Any acts, one after the other, from an empty mount whose calls fail as they
    please. `RunsAreSafe` applies to the history, which accounts for every state
    of the mount; where no call fails, every pass that gets its lists succeeds.
   */
  method RunActs(acts: seq<Act>, fails: nat -> bool) returns (r: Reconciler)
    ensures r.Valid() && r.render == Rendering() && r.mount.fails == fails
    ensures Acted(acts, r.turns) && AllSafe(r.mount.trace)
    ensures r.mount.Sound(0) ==> AllSucceeded(r.turns)
  {
    r := new Reconciler(fails);
    for i := 0 to |acts|
      invariant r.Valid() && fresh(r) && fresh(r.mount) && r.render == Rendering() && r.mount.fails == fails
      invariant |r.turns| == i && Acted(acts[..i], r.turns)
      invariant r.mount.Sound(0) ==> AllSucceeded(r.turns)
    {
      ghost var before := r.turns;
      var ok := Perform(r, acts[i]);
      RecordedAct(acts, before, r.turns, ok);
    }
    assert acts[..|acts|] == acts;
    AllStatesSafe(r.render, r.turns);
  }
}
