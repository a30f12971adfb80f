/**
  Which warnings a snapshot deserves, said of the snapshot itself and of what
  comes out, and that the renderer issues exactly those.
 */
module RenderWarnings {
  import opened Text
  import opened Render
  import opened RenderProperties
  import opened RenderOutcome

  // ---------------------------------------------------------------- what each reason says

  /** What a reason says of a pool. */
  ghost predicate SaysOfPool(reason: Reason, p: Pool) {
    match reason
    case EmptyName => p.name == []
    case NoAddrs => p.addrs == []
    case EmptyAddr(i) => i < |p.addrs| && p.addrs[i] == [] && forall j | 0 <= j < i :: p.addrs[j] != []
    case InvalidHash(v) => v == p.hash && v != [] && v !in VALID_HASH
    case InvalidDist(v) => v == p.dist && v != [] && v !in VALID_DIST
    case _ => false
  }

  /** Pool names a keyspace may list: known, named, and none twice. */
  ghost predicate Listable(list: seq<Str>, poolNames: set<Str>) {
    && (forall i | 0 <= i < |list| :: list[i] != [] && list[i] in poolNames)
    && (forall i, j | 0 <= i < j < |list| :: list[i] != list[j])
  }

  /** What a problem says of a list: it is the matter with its first bad item. */
  ghost predicate SaysOfList(problem: ListProblem, list: seq<Str>, poolNames: set<Str>) {
    match problem
    case EmptyList => list == []
    case EmptyItem(i) => i < |list| && Listable(list[..i], poolNames) && list[i] == []
    case UnknownPool(i, n) =>
      i < |list| && Listable(list[..i], poolNames) && list[i] == n && n != [] && n !in poolNames
    case ListedTwice(n) =>
      n != [] && n in poolNames
      && exists i :: 0 <= i < |list| && list[i] == n && n in list[..i] && Listable(list[..i], poolNames)
  }

  /** What a reason says of a keyspace whose prefix `taken` tells of. */
  ghost predicate SaysOfKeyspace(
    reason: Reason, k: Keyspace, taken: bool, poolNames: set<Str>, modules: map<Str, Str>) {
    match reason
    case EmptyPrefix => k.prefix == []
    case ColonInPrefix(v) => v == k.prefix && ':' in v
    case ReservedPrefix(v) => v == k.prefix && v in RESERVED_PREFIXES
    case DuplicatePrefix(v) => v == k.prefix && taken
    case BadReadList(problem) => SaysOfList(problem, k.read, poolNames)
    case BadWriteList(problem) => SaysOfList(problem, k.write, poolNames)
    case InvalidWritePolicy(v) => v == k.writePolicy && v != [] && v !in VALID_WRITE_POLICY
    case UnknownMerge(v) =>
      k.merge.Some? && v == k.merge.value.name && v !in BUILTIN_MERGES && v !in modules
    case _ => false
  }

  /** What a reason says of the module a keyspace carries. */
  ghost predicate SaysOfModule(reason: Reason, k: Keyspace, modules: map<Str, Str>) {
    && CarriesModule(k)
    && var n := k.merge.value.name;
       match reason
       case ModuleInvalidName(v) => v == n && !SafeModuleName(n)
       case ModuleBuiltin(v) => v == n && SafeModuleName(n) && n in BUILTIN_MERGES
       case ModuleConflict(v) => v == n && Offers(k, n) && n in modules && modules[n] != k.merge.value.wasm
       case _ => false
  }

  /** Of several things wrong with an object, which is reported. */
  function Rank(reason: Reason): nat {
    match reason
    case SharedName(_) => 0
    case EmptyName => 1
    case NoAddrs => 2
    case EmptyAddr(_) => 3
    case InvalidHash(_) => 4
    case InvalidDist(_) => 5
    case ModuleInvalidName(_) => 6
    case ModuleBuiltin(_) => 7
    case ModuleConflict(_) => 8
    case EmptyPrefix => 9
    case ColonInPrefix(_) => 10
    case ReservedPrefix(_) => 11
    case DuplicatePrefix(_) => 12
    case BadReadList(_) => 13
    case BadWriteList(_) => 14
    case InvalidWritePolicy(_) => 15
    case UnknownMerge(_) => 16
  }

  ghost predicate BlamesPool(reason: Reason, p: Pool) {
    SaysOfPool(reason, p) && forall r | SaysOfPool(r, p) :: Rank(reason) <= Rank(r)
  }

  ghost predicate BlamesKeyspace(
    reason: Reason, k: Keyspace, taken: bool, poolNames: set<Str>, modules: map<Str, Str>) {
    && SaysOfKeyspace(reason, k, taken, poolNames, modules)
    && forall r | SaysOfKeyspace(r, k, taken, poolNames, modules) :: Rank(reason) <= Rank(r)
  }

  lemma PoolProblemIs(p: Pool, reason: Reason)
    ensures PoolProblem(p) == Some(reason) <==> BlamesPool(reason, p)
  {
    var problem := PoolProblem(p);
    if problem.Some? {
      assert SaysOfPool(problem.value, p);
    }
  }

  // ---------------------------------------------------------------- pool lists

  lemma {:induction false} ListProblemIs(list: seq<Str>, n: nat, poolNames: set<Str>)
    requires n <= |list|
    ensures
      match ListProblemIn(list, n, poolNames)
      case None => Listable(list[..n], poolNames)
      case Some(p) => p != EmptyList && SaysOfList(p, list, poolNames)
  {
    if n > 0 {
      ListProblemIs(list, n - 1, poolNames);
      assert list[..n] == list[..n - 1] + [list[n - 1]];
    }
  }

  /** The item a problem is about is the first that spoils the list. */
  lemma BadItem(p: ListProblem, list: seq<Str>, poolNames: set<Str>) returns (i: nat)
    requires SaysOfList(p, list, poolNames) && p != EmptyList
    ensures i < |list| && Listable(list[..i], poolNames) && !Listable(list[..i + 1], poolNames)
    ensures p ==
      if list[i] == [] then EmptyItem(i)
      else if list[i] !in poolNames then UnknownPool(i, list[i])
      else ListedTwice(list[i])
  {
    match p
    case EmptyItem(j) => i := j;
    case UnknownPool(j, _) => i := j;
    case ListedTwice(n) =>
      i :| 0 <= i < |list| && list[i] == n && n in list[..i] && Listable(list[..i], poolNames);
      var j :| 0 <= j < i && list[..i][j] == n;
      assert list[..i + 1][j] == list[..i + 1][i];
    assert list[..i + 1][i] == list[i];
  }

  lemma StaysBad(list: seq<Str>, i: nat, j: nat, poolNames: set<Str>)
    requires i <= j <= |list| && !Listable(list[..i], poolNames)
    ensures !Listable(list[..j], poolNames)
  {
    assert list[..i] == list[..j][..i];
  }

  lemma OneProblem(p: ListProblem, q: ListProblem, list: seq<Str>, poolNames: set<Str>)
    requires SaysOfList(p, list, poolNames) && SaysOfList(q, list, poolNames)
    ensures p == q
  {
    if p != EmptyList && q != EmptyList {
      var i := BadItem(p, list, poolNames);
      var j := BadItem(q, list, poolNames);
      if i < j {
        StaysBad(list, i + 1, j, poolNames);
      } else if j < i {
        StaysBad(list, j + 1, i, poolNames);
      }
    }
  }

  lemma CheckListIs(list: seq<Str>, poolNames: set<Str>, p: ListProblem)
    ensures CheckPoolListOf(list, poolNames) == Some(p) <==> SaysOfList(p, list, poolNames)
  {
    ListProblemIs(list, |list|, poolNames);
    assert list[..|list|] == list;
    if SaysOfList(p, list, poolNames) {
      if p != EmptyList {
        var i := BadItem(p, list, poolNames);
        StaysBad(list, i + 1, |list|, poolNames);
      }
      OneProblem(CheckPoolListOf(list, poolNames).value, p, list, poolNames);
    }
  }

  // ---------------------------------------------------------------- keyspaces

  lemma ProblemHolds(k: Keyspace, seen: set<Str>, poolNames: set<Str>, modules: map<Str, Str>)
    requires KeyspaceProblem(k, seen, poolNames, modules).Some?
    ensures SaysOfKeyspace(KeyspaceProblem(k, seen, poolNames, modules).value, k, k.prefix in seen, poolNames, modules)
  {
    var read, write := CheckPoolListOf(k.read, poolNames), CheckPoolListOf(k.write, poolNames);
    if read.Some? {
      CheckListIs(k.read, poolNames, read.value);
    }
    if write.Some? {
      CheckListIs(k.write, poolNames, write.value);
    }
  }

  lemma ProblemIsFirst(k: Keyspace, seen: set<Str>, poolNames: set<Str>, modules: map<Str, Str>, r: Reason)
    requires SaysOfKeyspace(r, k, k.prefix in seen, poolNames, modules)
    ensures
      var problem := KeyspaceProblem(k, seen, poolNames, modules);
      problem.Some? && (problem == Some(r) || Rank(problem.value) < Rank(r))
  {
    if r.BadReadList? {
      CheckListIs(k.read, poolNames, r.problem);
    } else if r.BadWriteList? {
      CheckListIs(k.write, poolNames, r.problem);
    }
  }

  lemma KeyspaceProblemIs(
    k: Keyspace, seen: set<Str>, poolNames: set<Str>, modules: map<Str, Str>, reason: Reason)
    ensures KeyspaceProblem(k, seen, poolNames, modules) == Some(reason) <==>
      BlamesKeyspace(reason, k, k.prefix in seen, poolNames, modules)
  {
    var problem := KeyspaceProblem(k, seen, poolNames, modules);
    if problem == Some(reason) {
      ProblemHolds(k, seen, poolNames, modules);
      forall r | SaysOfKeyspace(r, k, k.prefix in seen, poolNames, modules) ensures Rank(reason) <= Rank(r) {
        ProblemIsFirst(k, seen, poolNames, modules, r);
      }
    } else if SaysOfKeyspace(reason, k, k.prefix in seen, poolNames, modules) {
      ProblemIsFirst(k, seen, poolNames, modules, reason);
      ProblemHolds(k, seen, poolNames, modules);
    }
  }

  /** Some keyspace before this one by name has its prefix and would come out but for its prefix. */
  ghost predicate Taken(keyspaces: seq<Keyspace>, k: Keyspace, poolNames: set<Str>, modules: map<Str, Str>) {
    exists x | x in keyspaces ::
      && Unique(KeyspaceName, keyspaces, x) && Acceptable(x, poolNames, modules)
      && Lt(x.name, k.name) && x.prefix == k.prefix
  }

  lemma SeenIsTaken(keyspaces: seq<Keyspace>, o: seq<Keyspace>, i: nat, poolNames: set<Str>, modules: map<Str, Str>)
    requires o == Sorted(KeyspaceName, Deduped(KeyspaceName, keyspaces)) && i < |o|
    ensures o[i].prefix in Keyspaces(o[..i], poolNames, modules).seen <==> Taken(keyspaces, o[i], poolNames, modules)
  {
    ByName(KeyspaceName, keyspaces);
    SeenAre(o[..i], poolNames, modules, o[i].prefix);
    forall x ensures x in o[..i] <==> Unique(KeyspaceName, keyspaces, x) && Lt(x.name, o[i].name) {
      DedupedAre(KeyspaceName, keyspaces, x);
      if x in o {
        Earlier(KeyspaceName, o, i, x);
      }
      assert x in o[..i] ==> x in o;
    }
    forall x ensures Routable(x, poolNames, modules) <==> Acceptable(x, poolNames, modules) {
      KeyspaceKeptIff(x, poolNames, modules);
    }
  }

  // ---------------------------------------------------------------- phase by phase

  lemma {:induction false} SharedAre(kind: Kind, contested: seq<Str>, names: multiset<Str>, w: Warning)
    ensures w in SharedNameWarnings(kind, contested, names) <==>
      w.kind == kind && w.name in contested && w.reason == SharedName(names[w.name])
  {
    if contested != [] {
      var init, last := contested[..|contested| - 1], contested[|contested| - 1];
      assert contested == init + [last];
      SharedAre(kind, init, names, w);
    }
  }

  /** How many objects of the list bear the name. */
  ghost function Bearers<T>(name: T -> Str, s: seq<T>, n: Str): nat {
    multiset(Names(name, s))[n]
  }

  lemma DedupWarningsAre<T>(kind: Kind, name: T -> Str, s: seq<T>, w: Warning)
    ensures w in DedupWarnings(kind, name, s) <==>
      w.kind == kind && Bearers(name, s, w.name) > 1 && w.reason == SharedName(Bearers(name, s, w.name))
  {
    var names := multiset(Names(name, s));
    SharedAre(kind, Listing(Contested(names)), names, w);
    assert w.name in Listing(Contested(names)) <==> w.name in multiset(Listing(Contested(names)));
  }

  lemma {:induction false} PoolWarningsAre(s: seq<Pool>, w: Warning)
    ensures w in PoolWarnings(s) <==>
      exists p | p in s :: w == Warning(PoolKind, p.name, w.reason) && PoolProblem(p) == Some(w.reason)
  {
    if s != [] {
      var init, last := s[..|s| - 1], s[|s| - 1];
      assert s == init + [last];
      PoolWarningsAre(init, w);
    }
  }

  /** `m` as far as it goes. */
  ghost predicate Within(part: map<Str, Str>, m: map<Str, Str>) {
    forall n | n in part :: n in m && m[n] == part[n]
  }

  lemma ModuleStepWarns(st: ModuleState, k: Keyspace, final: map<Str, Str>, w: Warning)
    requires Within(ModuleStep(st, k).modules, final)
    ensures Within(st.modules, final)
    ensures w in ModuleStep(st, k).warns <==>
      w in st.warns || (w == Warning(KeyspaceKind, k.name, w.reason) && SaysOfModule(w.reason, k, final))
  {
    assert Within(st.modules, ModuleStep(st, k).modules);
    if CarriesModule(k) {
      var n := k.merge.value.name;
      assert n in ModuleStep(st, k).modules ==> n in final && final[n] == ModuleStep(st, k).modules[n];
    }
  }

  lemma {:induction false} ModuleWarningsAre(s: seq<Keyspace>, final: map<Str, Str>, w: Warning)
    requires Within(Modules(s).modules, final)
    ensures w in Modules(s).warns <==>
      exists k | k in s :: w == Warning(KeyspaceKind, k.name, w.reason) && SaysOfModule(w.reason, k, final)
  {
    if s != [] {
      var init, last := s[..|s| - 1], s[|s| - 1];
      assert s == init + [last];
      ModuleStepWarns(Modules(init), last, final, w);
      ModuleWarningsAre(init, final, w);
    }
  }

  ghost predicate WarnsAt(s: seq<Keyspace>, i: nat, poolNames: set<Str>, modules: map<Str, Str>, w: Warning)
    requires i < |s|
  {
    && w == Warning(KeyspaceKind, s[i].name, w.reason)
    && KeyspaceProblem(s[i], Keyspaces(s[..i], poolNames, modules).seen, poolNames, modules) == Some(w.reason)
  }

  lemma KeyspaceStepWarns(st: KeyspaceState, k: Keyspace, poolNames: set<Str>, modules: map<Str, Str>, w: Warning)
    ensures w in KeyspaceStep(st, k, poolNames, modules).warns <==>
      || w in st.warns
      || (w == Warning(KeyspaceKind, k.name, w.reason)
          && KeyspaceProblem(k, st.seen, poolNames, modules) == Some(w.reason))
  {
  }

  lemma WarnsAtPrefix(
    s: seq<Keyspace>, n: nat, i: nat, poolNames: set<Str>, modules: map<Str, Str>, w: Warning)
    requires i < n <= |s|
    ensures WarnsAt(s[..n], i, poolNames, modules, w) == WarnsAt(s, i, poolNames, modules, w)
  {
    assert s[..n][..i] == s[..i];
  }

  lemma {:induction false} KeyspaceWarningsAre(
    s: seq<Keyspace>, poolNames: set<Str>, modules: map<Str, Str>, w: Warning)
    ensures w in Keyspaces(s, poolNames, modules).warns <==>
      exists i :: 0 <= i < |s| && WarnsAt(s, i, poolNames, modules, w)
  {
    if s != [] {
      var n := |s| - 1;
      KeyspaceWarningsAre(s[..n], poolNames, modules, w);
      KeyspaceStepWarns(Keyspaces(s[..n], poolNames, modules), s[n], poolNames, modules, w);
      forall i | 0 <= i < n ensures WarnsAt(s[..n], i, poolNames, modules, w) == WarnsAt(s, i, poolNames, modules, w) {
        WarnsAtPrefix(s, n, i, poolNames, modules, w);
      }
      assert WarnsAt(s, n, poolNames, modules, w) <==>
          w == Warning(KeyspaceKind, s[n].name, w.reason)
          && KeyspaceProblem(s[n], Keyspaces(s[..n], poolNames, modules).seen, poolNames, modules) == Some(w.reason);
    }
  }

  // ---------------------------------------------------------------- the whole pass

  /** Several objects of the list share the name, and the reason says how many. */
  ghost predicate SharesName<T>(name: T -> Str, s: seq<T>, w: Warning) {
    Bearers(name, s, w.name) > 1 && w.reason == SharedName(Bearers(name, s, w.name))
  }

  ghost predicate PoolDeserves(pools: seq<Pool>, w: Warning) {
    exists p | p in pools :: Unique(PoolName, pools, p) && w.name == p.name && BlamesPool(w.reason, p)
  }

  ghost predicate ModuleDeserves(keyspaces: seq<Keyspace>, modules: map<Str, Str>, w: Warning) {
    exists k | k in keyspaces ::
      Unique(KeyspaceName, keyspaces, k) && w.name == k.name && SaysOfModule(w.reason, k, modules)
  }

  ghost predicate KeyspaceDeserves(
    keyspaces: seq<Keyspace>, poolNames: set<Str>, modules: map<Str, Str>, w: Warning) {
    exists k | k in keyspaces ::
      && Unique(KeyspaceName, keyspaces, k) && w.name == k.name
      && BlamesKeyspace(w.reason, k, Taken(keyspaces, k, poolNames, modules), poolNames, modules)
  }

  /** What the snapshot is to be warned about, given the pools and modules that come out. */
  ghost predicate Deserved(s: Snapshot, pools: seq<Pool>, modules: map<Str, Str>, w: Warning) {
    match w.kind
    case PoolKind => SharesName(PoolName, s.pools, w) || PoolDeserves(s.pools, w)
    case KeyspaceKind =>
      || SharesName(KeyspaceName, s.keyspaces, w)
      || ModuleDeserves(s.keyspaces, modules, w)
      || KeyspaceDeserves(s.keyspaces, PoolNameSet(pools), modules, w)
  }

  lemma PoolPhase(pools: seq<Pool>, w: Warning)
    ensures w in PoolWarnings(Sorted(PoolName, Deduped(PoolName, pools))) <==>
      w.kind == PoolKind && PoolDeserves(pools, w)
  {
    var o := Sorted(PoolName, Deduped(PoolName, pools));
    PoolWarningsAre(o, w);
    forall p ensures p in o <==> Unique(PoolName, pools, p) {
      DedupedAre(PoolName, pools, p);
    }
    forall p ensures PoolProblem(p) == Some(w.reason) <==> BlamesPool(w.reason, p) {
      PoolProblemIs(p, w.reason);
    }
  }

  lemma ModulePhase(keyspaces: seq<Keyspace>, w: Warning)
    ensures
      var mods := Modules(Sorted(KeyspaceName, Deduped(KeyspaceName, keyspaces)));
      w in mods.warns <==> w.kind == KeyspaceKind && ModuleDeserves(keyspaces, mods.modules, w)
  {
    var o := Sorted(KeyspaceName, Deduped(KeyspaceName, keyspaces));
    ModuleWarningsAre(o, Modules(o).modules, w);
    forall k ensures k in o <==> Unique(KeyspaceName, keyspaces, k) {
      DedupedAre(KeyspaceName, keyspaces, k);
    }
  }

  lemma BlameAt(
    keyspaces: seq<Keyspace>, o: seq<Keyspace>, i: nat, poolNames: set<Str>, modules: map<Str, Str>, reason: Reason)
    requires o == Sorted(KeyspaceName, Deduped(KeyspaceName, keyspaces)) && i < |o|
    ensures Unique(KeyspaceName, keyspaces, o[i])
    ensures
      KeyspaceProblem(o[i], Keyspaces(o[..i], poolNames, modules).seen, poolNames, modules) == Some(reason) <==>
        BlamesKeyspace(reason, o[i], Taken(keyspaces, o[i], poolNames, modules), poolNames, modules)
  {
    KeyspaceProblemIs(o[i], Keyspaces(o[..i], poolNames, modules).seen, poolNames, modules, reason);
    SeenIsTaken(keyspaces, o, i, poolNames, modules);
    DedupedAre(KeyspaceName, keyspaces, o[i]);
  }

  lemma KeyspacePhase(keyspaces: seq<Keyspace>, poolNames: set<Str>, modules: map<Str, Str>, w: Warning)
    ensures
      w in Keyspaces(Sorted(KeyspaceName, Deduped(KeyspaceName, keyspaces)), poolNames, modules).warns <==>
        w.kind == KeyspaceKind && KeyspaceDeserves(keyspaces, poolNames, modules, w)
  {
    var o := Sorted(KeyspaceName, Deduped(KeyspaceName, keyspaces));
    KeyspaceWarningsAre(o, poolNames, modules, w);
    if w in Keyspaces(o, poolNames, modules).warns {
      var i :| 0 <= i < |o| && WarnsAt(o, i, poolNames, modules, w);
      BlameAt(keyspaces, o, i, poolNames, modules, w.reason);
    }
    if w.kind == KeyspaceKind && KeyspaceDeserves(keyspaces, poolNames, modules, w) {
      var k :| k in keyspaces && Unique(KeyspaceName, keyspaces, k) && w.name == k.name
        && BlamesKeyspace(w.reason, k, Taken(keyspaces, k, poolNames, modules), poolNames, modules);
      DedupedAre(KeyspaceName, keyspaces, k);
      var i :| 0 <= i < |o| && o[i] == k;
      BlameAt(keyspaces, o, i, poolNames, modules, w.reason);
      assert WarnsAt(o, i, poolNames, modules, w);
    }
  }

  /** The renderer issues a warning if and only if the snapshot deserves it. */
  lemma WarningsAre(s: Snapshot, w: Warning)
    ensures w in RenderOf(s).warns <==> Deserved(s, RenderOf(s).pools, RenderOf(s).modules, w)
  {
    DedupWarningsAre(PoolKind, PoolName, s.pools, w);
    DedupWarningsAre(KeyspaceKind, KeyspaceName, s.keyspaces, w);
    PoolPhase(s.pools, w);
    ModulePhase(s.keyspaces, w);
    KeyspacePhase(s.keyspaces, PoolNameSet(RenderOf(s).pools), RenderOf(s).modules, w);
  }

  // ---------------------------------------------------------------- nothing is dropped in silence

  /** Some warning is about this object. */
  ghost predicate Warned(warns: seq<Warning>, kind: Kind, name: Str) {
    exists w | w in warns :: w.kind == kind && w.name == name
  }

  lemma DuplicateWarned<T>(kind: Kind, name: T -> Str, s: seq<T>, x: T)
    requires x in s && !Unique(name, s, x)
    ensures Warned(DedupWarnings(kind, name, s), kind, name(x))
  {
    var i :| 0 <= i < |s| && s[i] == x;
    assert Names(name, s)[i] == name(x);
    assert name(x) in multiset(Names(name, s));
    DedupWarningsAre(kind, name, s, Warning(kind, name(x), SharedName(Bearers(name, s, name(x)))));
  }

  lemma PoolNotSilent(pools: seq<Pool>, p: Pool)
    requires p in pools
    ensures
      var o := Sorted(PoolName, Deduped(PoolName, pools));
      || p in KeptPools(o)
      || Warned(DedupWarnings(PoolKind, PoolName, pools), PoolKind, p.name)
      || Warned(PoolWarnings(o), PoolKind, p.name)
  {
    if !Unique(PoolName, pools, p) {
      DuplicateWarned(PoolKind, PoolName, pools, p);
    } else {
      var o := Sorted(PoolName, Deduped(PoolName, pools));
      DedupedAre(PoolName, pools, p);
      ByName(PoolName, pools);
      KeptPoolsFacts(o);
      if PoolProblem(p).Some? {
        PoolWarningsAre(o, Warning(PoolKind, p.name, PoolProblem(p).value));
      }
    }
  }

  /** Whatever is not let through is warned about where it stands. */
  lemma {:induction false} LetThroughOrWarned(
    s: seq<Keyspace>, poolNames: set<Str>, modules: map<Str, Str>, k: Keyspace)
    requires k in s
    ensures
      var st := Keyspaces(s, poolNames, modules);
      k in st.out || Warned(st.warns, KeyspaceKind, k.name)
  {
    var init, last := s[..|s| - 1], s[|s| - 1];
    if k == last {
      var problem := KeyspaceProblem(k, Keyspaces(init, poolNames, modules).seen, poolNames, modules);
      if problem.Some? {
        assert Warning(KeyspaceKind, k.name, problem.value) in Keyspaces(s, poolNames, modules).warns;
      }
    } else {
      assert s == init + [last];
      LetThroughOrWarned(init, poolNames, modules, k);
    }
  }

  lemma KeyspaceNotSilent(keyspaces: seq<Keyspace>, poolNames: set<Str>, modules: map<Str, Str>, k: Keyspace)
    requires k in keyspaces
    ensures
      var st := Keyspaces(Sorted(KeyspaceName, Deduped(KeyspaceName, keyspaces)), poolNames, modules);
      || k in Sorted(KeyspacePrefix, st.out)
      || Warned(DedupWarnings(KeyspaceKind, KeyspaceName, keyspaces), KeyspaceKind, k.name)
      || Warned(st.warns, KeyspaceKind, k.name)
  {
    if !Unique(KeyspaceName, keyspaces, k) {
      DuplicateWarned(KeyspaceKind, KeyspaceName, keyspaces, k);
    } else {
      var o := Sorted(KeyspaceName, Deduped(KeyspaceName, keyspaces));
      DedupedAre(KeyspaceName, keyspaces, k);
      LetThroughOrWarned(o, poolNames, modules, k);
      SortedMember(KeyspacePrefix, Keyspaces(o, poolNames, modules).out, k);
    }
  }

  lemma ModuleFault(k: Keyspace, modules: map<Str, Str>) returns (reason: Reason)
    requires CarriesModule(k) && (Offers(k, k.merge.value.name) ==> k.merge.value.name in modules)
    requires !(k.merge.value.name in modules && modules[k.merge.value.name] == k.merge.value.wasm)
    ensures SaysOfModule(reason, k, modules)
  {
    var n := k.merge.value.name;
    if !SafeModuleName(n) {
      reason := ModuleInvalidName(n);
    } else if n in BUILTIN_MERGES {
      reason := ModuleBuiltin(n);
    } else {
      reason := ModuleConflict(n);
    }
  }

  lemma CarriedOrWarned(s: seq<Keyspace>, k: Keyspace)
    requires k in s && CarriesModule(k)
    ensures
      var mods := Modules(s);
      || (k.merge.value.name in mods.modules && mods.modules[k.merge.value.name] == k.merge.value.wasm)
      || Warned(mods.warns, KeyspaceKind, k.name)
  {
    OfferedAre(s, k.merge.value.name);
    if !(k.merge.value.name in Modules(s).modules && Modules(s).modules[k.merge.value.name] == k.merge.value.wasm) {
      var reason := ModuleFault(k, Modules(s).modules);
      ModuleWarningsAre(s, Modules(s).modules, Warning(KeyspaceKind, k.name, reason));
    }
  }

  lemma ModuleNotSilent(keyspaces: seq<Keyspace>, k: Keyspace)
    requires k in keyspaces && CarriesModule(k)
    ensures
      var mods := Modules(Sorted(KeyspaceName, Deduped(KeyspaceName, keyspaces)));
      || (k.merge.value.name in mods.modules && mods.modules[k.merge.value.name] == k.merge.value.wasm)
      || Warned(DedupWarnings(KeyspaceKind, KeyspaceName, keyspaces), KeyspaceKind, k.name)
      || Warned(mods.warns, KeyspaceKind, k.name)
  {
    if !Unique(KeyspaceName, keyspaces, k) {
      DuplicateWarned(KeyspaceKind, KeyspaceName, keyspaces, k);
    } else {
      DedupedAre(KeyspaceName, keyspaces, k);
      CarriedOrWarned(Sorted(KeyspaceName, Deduped(KeyspaceName, keyspaces)), k);
    }
  }

  /**
    Nothing is dropped in silence: every object that does not come out is warned
    about under its kind and name, and so is every keyspace whose module's bytes
    do not come out under the module's name.
   */
  lemma NothingDroppedSilently(s: Snapshot)
    ensures
      var r := RenderOf(s);
      && (forall p | p in s.pools :: p in r.pools || Warned(r.warns, PoolKind, p.name))
      && (forall k | k in s.keyspaces :: k in r.keyspaces || Warned(r.warns, KeyspaceKind, k.name))
      && (forall k | k in s.keyspaces && CarriesModule(k) ::
            || (k.merge.value.name in r.modules && r.modules[k.merge.value.name] == k.merge.value.wasm)
            || Warned(r.warns, KeyspaceKind, k.name))
  {
    forall p | p in s.pools ensures p in RenderOf(s).pools || Warned(RenderOf(s).warns, PoolKind, p.name) {
      PoolNotSilent(s.pools, p);
    }
    forall k | k in s.keyspaces
      ensures k in RenderOf(s).keyspaces || Warned(RenderOf(s).warns, KeyspaceKind, k.name)
    {
      KeyspaceNotSilent(s.keyspaces, PoolNameSet(RenderOf(s).pools), RenderOf(s).modules, k);
    }
    forall k | k in s.keyspaces && CarriesModule(k)
      ensures
        || (k.merge.value.name in RenderOf(s).modules && RenderOf(s).modules[k.merge.value.name] == k.merge.value.wasm)
        || Warned(RenderOf(s).warns, KeyspaceKind, k.name)
    {
      ModuleNotSilent(s.keyspaces, k);
    }
  }
}
