/**
  The renderer (go/internal/operator/render.go): Pool and Keyspace objects in,
  the file tree the gateway consumes and a list of warnings out, as specification
  functions. `Renderer` holds the Go loops, proved against them; `RoundTrip`,
  `RenderProperties`, `RenderOutcome` and `RenderWarnings` prove what they promise.
 */
module Render {
  import opened Text
  import opened Lua

  datatype Pool = Pool(name: Str, addrs: seq<Str>, hash: Str, dist: Str)

  datatype MergeSpec = MergeSpec(name: Str, wasm: Str)

  datatype Keyspace = Keyspace(
    name: Str, prefix: Str, read: seq<Str>, write: seq<Str>, writePolicy: Str, merge: Option<MergeSpec>)

  datatype Snapshot = Snapshot(pools: seq<Pool>, keyspaces: seq<Keyspace>)

  datatype Kind = PoolKind | KeyspaceKind

  datatype ListProblem =
    | EmptyList
    | EmptyItem(index: nat)
    | UnknownPool(index: nat, pool: Str)
    | ListedTwice(pool: Str)

  /** A warning's message before formatting: which text, and what is interpolated into it. */
  datatype Reason =
    | SharedName(count: nat)
    | EmptyName
    | NoAddrs
    | EmptyAddr(index: nat)
    | InvalidHash(value: Str)
    | InvalidDist(value: Str)
    | ModuleInvalidName(mod: Str)
    | ModuleBuiltin(mod: Str)
    | ModuleConflict(mod: Str)
    | EmptyPrefix
    | ColonInPrefix(value: Str)
    | ReservedPrefix(value: Str)
    | DuplicatePrefix(value: Str)
    | BadReadList(problem: ListProblem)
    | BadWriteList(problem: ListProblem)
    | InvalidWritePolicy(value: Str)
    | UnknownMerge(value: Str)

  datatype Warning = Warning(kind: Kind, name: Str, reason: Reason)

  const CONFIG_FILE: Str := "config.lua"
  const UDF_PREFIX: Str := "udf/"
  const WASM_SUFFIX: Str := ".wasm"

  const BUILTIN_MERGES: set<Str> := {"first-hit", "last-write-wins", "pool-preferred"}
  const VALID_HASH: set<Str> := {"xxhash", "md5", "crc32"}
  const VALID_DIST: set<Str> := {"ring_hash", "jump_hash"}
  const VALID_WRITE_POLICY: set<Str> := {"all", "first"}
  const RESERVED_PREFIXES: set<Str> := {"__udf", "__mcgw"}

  function ModulePath(name: Str): Str {
    UDF_PREFIX + name + WASM_SUFFIX
  }

  lemma ModulePathsDistinct()
    ensures forall n, m :: ModulePath(n) == ModulePath(m) ==> n == m
    ensures forall n :: ModulePath(n) != CONFIG_FILE
  {
    forall n, m | ModulePath(n) == ModulePath(m) ensures n == m {
      assert n == ModulePath(n)[4..|ModulePath(n)| - 5];
      assert m == ModulePath(m)[4..|ModulePath(m)| - 5];
    }
    forall n ensures ModulePath(n) != CONFIG_FILE {
      assert ModulePath(n)[0] == 'u' && CONFIG_FILE[0] == 'c';
    }
  }

  function PoolName(p: Pool): Str { p.name }
  function KeyspaceName(k: Keyspace): Str { k.name }
  function KeyspacePrefix(k: Keyspace): Str { k.prefix }

  // ---------------------------------------------------------------- duplicates

  function Names<T>(name: T -> Str, s: seq<T>): (r: seq<Str>)
    ensures |r| == |s| && forall i | 0 <= i < |s| :: r[i] == name(s[i])
  {
    if s == [] then [] else Names(name, s[..|s| - 1]) + [name(s[|s| - 1])]
  }

  ghost function Contested(names: multiset<Str>): set<Str> {
    set n | n in names && names[n] > 1
  }

  /** The elements whose name nobody else has, in input order. */
  function Survivors<T>(name: T -> Str, s: seq<T>, names: multiset<Str>): seq<T> {
    if s == [] then []
    else
      var init := Survivors(name, s[..|s| - 1], names);
      if names[name(s[|s| - 1])] == 1 then init + [s[|s| - 1]] else init
  }

  /** The one increasing listing of a set of strings. */
  ghost function Listing(names: set<Str>): (r: seq<Str>)
    ensures multiset(r) == multiset(names)
  {
    if names == {} then []
    else
      var n :| n in names;
      assert names == (names - {n}) + {n};
      Insert(Itself, n, Listing(names - {n}))
  }

  function SharedNameWarnings(kind: Kind, contested: seq<Str>, names: multiset<Str>): seq<Warning> {
    if contested == [] then []
    else
      var n := contested[|contested| - 1];
      SharedNameWarnings(kind, contested[..|contested| - 1], names) + [Warning(kind, n, SharedName(names[n]))]
  }

  // ---------------------------------------------------------------- pools

  /** firstBad: index of the first empty item, if any. */
  function FirstEmpty(items: seq<Str>): (r: Option<nat>)
    ensures r.None? ==> forall i | 0 <= i < |items| :: items[i] != []
    ensures r.Some? ==> r.value < |items| && items[r.value] == [] && forall i | 0 <= i < r.value :: items[i] != []
  {
    if items == [] then None
    else match FirstEmpty(items[..|items| - 1])
      case Some(i) => Some(i)
      case None => if items[|items| - 1] == [] then Some(|items| - 1) else None
  }

  function PoolProblem(p: Pool): Option<Reason> {
    if p.name == [] then Some(EmptyName)
    else if p.addrs == [] then Some(NoAddrs)
    else if FirstEmpty(p.addrs).Some? then Some(EmptyAddr(FirstEmpty(p.addrs).value))
    else if p.hash != [] && p.hash !in VALID_HASH then Some(InvalidHash(p.hash))
    else if p.dist != [] && p.dist !in VALID_DIST then Some(InvalidDist(p.dist))
    else None
  }

  function KeptPools(s: seq<Pool>): seq<Pool> {
    if s == [] then []
    else
      var init, p := KeptPools(s[..|s| - 1]), s[|s| - 1];
      if PoolProblem(p).None? then init + [p] else init
  }

  function PoolWarnings(s: seq<Pool>): seq<Warning> {
    if s == [] then []
    else
      var init, p := PoolWarnings(s[..|s| - 1]), s[|s| - 1];
      match PoolProblem(p)
      case None => init
      case Some(r) => init + [Warning(PoolKind, p.name, r)]
  }

  // ---------------------------------------------------------------- modules

  predicate IsAlnum(c: Byte) {
    'a' <= c <= 'z' || 'A' <= c <= 'Z' || '0' <= c <= '9'
  }

  /** safeModuleName: what the renderer will use as a file stem. */
  predicate SafeModuleName(name: Str) {
    && name != []
    && (forall i | 0 <= i < |name| :: IsAlnum(name[i]) || name[i] == '_' || name[i] == '-')
    && name[0] != '_' && name[0] != '-'
  }

  predicate CarriesModule(k: Keyspace) {
    k.merge.Some? && k.merge.value.wasm != []
  }

  datatype ModuleState = ModuleState(modules: map<Str, Str>, warns: seq<Warning>)

  function ModuleStep(st: ModuleState, k: Keyspace): ModuleState {
    if !CarriesModule(k) then st
    else
      var m := k.merge.value;
      if !SafeModuleName(m.name) then
        st.(warns := st.warns + [Warning(KeyspaceKind, k.name, ModuleInvalidName(m.name))])
      else if m.name in BUILTIN_MERGES then
        st.(warns := st.warns + [Warning(KeyspaceKind, k.name, ModuleBuiltin(m.name))])
      else if m.name in st.modules then
        if st.modules[m.name] != m.wasm then
          st.(warns := st.warns + [Warning(KeyspaceKind, k.name, ModuleConflict(m.name))])
        else st
      else st.(modules := st.modules[m.name := m.wasm])
  }

  function Modules(s: seq<Keyspace>): ModuleState {
    if s == [] then ModuleState(map[], [])
    else ModuleStep(Modules(s[..|s| - 1]), s[|s| - 1])
  }

  // ---------------------------------------------------------------- keyspaces

  /** checkPoolList over the first `n` items, given that it found nothing before. */
  function ListProblemIn(list: seq<Str>, n: nat, poolNames: set<Str>): Option<ListProblem>
    requires n <= |list|
  {
    if n == 0 then None
    else match ListProblemIn(list, n - 1, poolNames)
      case Some(p) => Some(p)
      case None =>
        if list[n - 1] == [] then Some(EmptyItem(n - 1))
        else if list[n - 1] !in poolNames then Some(UnknownPool(n - 1, list[n - 1]))
        else if list[n - 1] in list[..n - 1] then Some(ListedTwice(list[n - 1]))
        else None
  }

  function CheckPoolListOf(list: seq<Str>, poolNames: set<Str>): Option<ListProblem> {
    if list == [] then Some(EmptyList) else ListProblemIn(list, |list|, poolNames)
  }

  function KeyspaceProblem(k: Keyspace, seen: set<Str>, poolNames: set<Str>, modules: map<Str, Str>): Option<Reason> {
    if k.prefix == [] then Some(EmptyPrefix)
    else if ':' in k.prefix then Some(ColonInPrefix(k.prefix))
    else if k.prefix in RESERVED_PREFIXES then Some(ReservedPrefix(k.prefix))
    else if k.prefix in seen then Some(DuplicatePrefix(k.prefix))
    else if CheckPoolListOf(k.read, poolNames).Some? then
      Some(BadReadList(CheckPoolListOf(k.read, poolNames).value))
    else if CheckPoolListOf(k.write, poolNames).Some? then
      Some(BadWriteList(CheckPoolListOf(k.write, poolNames).value))
    else if k.writePolicy != [] && k.writePolicy !in VALID_WRITE_POLICY then
      Some(InvalidWritePolicy(k.writePolicy))
    else if k.merge.Some? && k.merge.value.name !in BUILTIN_MERGES && k.merge.value.name !in modules then
      Some(UnknownMerge(k.merge.value.name))
    else None
  }

  datatype KeyspaceState = KeyspaceState(out: seq<Keyspace>, seen: set<Str>, warns: seq<Warning>)

  function KeyspaceStep(st: KeyspaceState, k: Keyspace, poolNames: set<Str>, modules: map<Str, Str>): KeyspaceState {
    match KeyspaceProblem(k, st.seen, poolNames, modules)
    case Some(r) => st.(warns := st.warns + [Warning(KeyspaceKind, k.name, r)])
    case None => st.(out := st.out + [k], seen := st.seen + {k.prefix})
  }

  function Keyspaces(s: seq<Keyspace>, poolNames: set<Str>, modules: map<Str, Str>): KeyspaceState {
    if s == [] then KeyspaceState([], {}, [])
    else KeyspaceStep(Keyspaces(s[..|s| - 1], poolNames, modules), s[|s| - 1], poolNames, modules)
  }

  // ---------------------------------------------------------------- config text

  function QuoteList(items: seq<Str>): Str {
    if items == [] then []
    else if |items| == 1 then Quote(items[0])
    else QuoteList(items[..|items| - 1]) + LIST_SEPARATOR + Quote(items[|items| - 1])
  }

  const SPACE: Str := " "
  const NEWLINE: Str := "\n"
  const INDENT_1: Str := "    "
  const INDENT_2: Str := "        "
  const INDENT_3: Str := "          "
  const OPEN: Str := "{"
  const CLOSE: Str := "}"
  const COMMA: Str := ","
  const EQUALS: Str := "="
  const ASSIGN: Str := SPACE + EQUALS + SPACE

  const RETURN: Str := "return"
  const POOLS: Str := "pools"
  const KEYSPACES: Str := "keyspaces"
  const NAME: Str := "name"
  const ADDRS: Str := "addrs"
  const HASH: Str := "hash"
  const DIST: Str := "dist"
  const PREFIX: Str := "prefix"
  const READ: Str := "read"
  const WRITE: Str := "write"
  const WRITE_POLICY: Str := "write_policy"
  const MERGE: Str := "merge"

  // The string constants of renderConfig's Fprintf calls, cut at their tokens.
  const POOL_OPEN: Str := INDENT_2 + OPEN + SPACE + NAME + ASSIGN
  const POOL_ADDRS: Str := COMMA + SPACE + ADDRS + ASSIGN + OPEN + SPACE
  const LIST_CLOSE: Str := SPACE + CLOSE
  const POOL_HASH: Str := COMMA + SPACE + HASH + ASSIGN
  const POOL_DIST: Str := COMMA + SPACE + DIST + ASSIGN
  const LINE_END: Str := COMMA + NEWLINE
  const ITEM_CLOSE: Str := SPACE + CLOSE + LINE_END
  const KEYSPACE_OPEN: Str := INDENT_2 + OPEN + SPACE + PREFIX + ASSIGN
  const KEYSPACE_READ: Str := INDENT_3 + READ + ASSIGN + OPEN + SPACE
  const KEYSPACE_WRITE: Str := INDENT_3 + WRITE + ASSIGN + OPEN + SPACE
  const KEYSPACE_POLICY: Str := LINE_END + INDENT_3 + WRITE_POLICY + ASSIGN
  const KEYSPACE_MERGE: Str := LINE_END + INDENT_3 + MERGE + ASSIGN
  const CONFIG_OPEN: Str := RETURN + SPACE + OPEN + NEWLINE
  const POOLS_OPEN: Str := INDENT_1 + POOLS + ASSIGN + OPEN + NEWLINE
  const KEYSPACES_OPEN: Str := INDENT_1 + KEYSPACES + ASSIGN + OPEN + NEWLINE
  const SECTION_CLOSE: Str := INDENT_1 + CLOSE + LINE_END
  const CONFIG_CLOSE: Str := CLOSE + NEWLINE
  const LIST_SEPARATOR: Str := COMMA + SPACE

  /** An optional field: nothing when the value is empty. */
  function Field(open: Str, value: Str): Str {
    if value != [] then open + Quote(value) else []
  }

  function PoolText(p: Pool): Str {
    POOL_OPEN + Quote(p.name) + POOL_ADDRS + QuoteList(p.addrs) + LIST_CLOSE
    + Field(POOL_HASH, p.hash) + Field(POOL_DIST, p.dist) + ITEM_CLOSE
  }

  function PoolTexts(ps: seq<Pool>): Str {
    if ps == [] then [] else PoolTexts(ps[..|ps| - 1]) + PoolText(ps[|ps| - 1])
  }

  function MergeText(merge: Option<MergeSpec>): Str {
    if merge.Some? then KEYSPACE_MERGE + Quote(merge.value.name) else []
  }

  function KeyspaceText(k: Keyspace): Str {
    KEYSPACE_OPEN + Quote(k.prefix) + LINE_END
    + KEYSPACE_READ + QuoteList(k.read) + ITEM_CLOSE
    + KEYSPACE_WRITE + QuoteList(k.write) + LIST_CLOSE
    + Field(KEYSPACE_POLICY, k.writePolicy) + MergeText(k.merge) + ITEM_CLOSE
  }

  function KeyspaceTexts(ks: seq<Keyspace>): Str {
    if ks == [] then [] else KeyspaceTexts(ks[..|ks| - 1]) + KeyspaceText(ks[|ks| - 1])
  }

  function ConfigText(ps: seq<Pool>, ks: seq<Keyspace>): Str {
    CONFIG_OPEN + POOLS_OPEN + PoolTexts(ps) + SECTION_CLOSE
    + KEYSPACES_OPEN + KeyspaceTexts(ks) + SECTION_CLOSE + CONFIG_CLOSE
  }

  // ---------------------------------------------------------------- the whole pass

  /** Everything a pass computes from a snapshot. */
  datatype Rendered = Rendered(
    pools: seq<Pool>, keyspaces: seq<Keyspace>, modules: map<Str, Str>, warns: seq<Warning>)

  ghost function Deduped<T>(name: T -> Str, s: seq<T>): seq<T> {
    Survivors(name, s, multiset(Names(name, s)))
  }

  ghost function DedupWarnings<T>(kind: Kind, name: T -> Str, s: seq<T>): seq<Warning> {
    var names := multiset(Names(name, s));
    SharedNameWarnings(kind, Listing(Contested(names)), names)
  }

  function PoolNameSet(ps: seq<Pool>): set<Str> {
    set p | p in ps :: p.name
  }

  ghost function RenderOf(s: Snapshot): Rendered {
    var sortedPools := Sorted(PoolName, Deduped(PoolName, s.pools));
    var sortedKeyspaces := Sorted(KeyspaceName, Deduped(KeyspaceName, s.keyspaces));
    var pools := KeptPools(sortedPools);
    var mods := Modules(sortedKeyspaces);
    var ks := Keyspaces(sortedKeyspaces, PoolNameSet(pools), mods.modules);
    Rendered(
      pools,
      Sorted(KeyspacePrefix, ks.out),
      mods.modules,
      DedupWarnings(PoolKind, PoolName, s.pools) + PoolWarnings(sortedPools)
      + DedupWarnings(KeyspaceKind, KeyspaceName, s.keyspaces) + mods.warns + ks.warns)
  }

  /** The tree handed to the committer: the config and one file per module. */
  function TreeOf(config: Str, modules: map<Str, Str>): map<Str, Str> {
    ModulePathsDistinct();
    map[CONFIG_FILE := config] + map n | n in modules :: ModulePath(n) := modules[n]
  }

  ghost function Tree(r: Rendered): map<Str, Str> {
    TreeOf(ConfigText(r.pools, r.keyspaces), r.modules)
  }
}
