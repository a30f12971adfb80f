/**
  What the renderer promises: its output does not depend on the order the
  objects arrive in, adding one Keyspace disturbs nothing else, and the config
  it emits is accepted by the Lua validator whatever the snapshot was.
 */
module RenderProperties {
  import opened Text
  import opened Lua
  import opened Render
  import opened RoundTrip
  import LuaConfig

  // ---------------------------------------------------------------- names and survivors

  lemma {:induction false} NamesConcat<T>(name: T -> Str, a: seq<T>, b: seq<T>)
    ensures Names(name, a + b) == Names(name, a) + Names(name, b)
  {
  }

  /** The multiset of names depends on the multiset of objects only. */
  lemma {:induction false} NamesPermutation<T>(name: T -> Str, s: seq<T>, t: seq<T>)
    requires multiset(s) == multiset(t)
    ensures multiset(Names(name, s)) == multiset(Names(name, t))
    decreases |s|
  {
    if s == [] {
      assert |multiset(t)| == 0;
    } else {
      var x, init := s[|s| - 1], s[..|s| - 1];
      assert s == init + [x];
      assert x in multiset(t);
      var k :| 0 <= k < |t| && t[k] == x;
      var rest := t[..k] + t[k + 1..];
      assert t == t[..k] + [x] + t[k + 1..];
      assert multiset(s) == multiset(init) + multiset{x};
      assert multiset(t) == multiset(rest) + multiset{x};
      MultisetCancel(multiset(init), multiset(rest), x);
      NamesPermutation(name, init, rest);
      NamesWith(name, t[..k], x, t[k + 1..]);
      NamesWith(name, init, x, []);
      assert init + [x] + [] == s && init + [] == init;
    }
  }

  lemma NamesWith<T>(name: T -> Str, a: seq<T>, x: T, b: seq<T>)
    ensures multiset(Names(name, a + [x] + b)) == multiset(Names(name, a + b)) + multiset{name(x)}
  {
    NamesConcat(name, a, b);
    NamesConcat(name, a + [x], b);
    NamesConcat(name, a, [x]);
    assert Names(name, [x]) == [name(x)];
  }

  lemma MultisetCancel<T>(a: multiset<T>, b: multiset<T>, x: T)
    requires a + multiset{x} == b + multiset{x}
    ensures a == b
  {
    assert a == a + multiset{x} - multiset{x};
    assert b == b + multiset{x} - multiset{x};
  }

  lemma {:induction false} SurvivorCount<T>(name: T -> Str, s: seq<T>, names: multiset<Str>, x: T)
    ensures multiset(Survivors(name, s, names))[x] == if names[name(x)] == 1 then multiset(s)[x] else 0
  {
    if s != [] {
      SurvivorCount(name, s[..|s| - 1], names, x);
      assert s == s[..|s| - 1] + [s[|s| - 1]];
    }
  }

  lemma SurvivorsPermutation<T>(name: T -> Str, s: seq<T>, t: seq<T>, names: multiset<Str>)
    requires multiset(s) == multiset(t)
    ensures multiset(Survivors(name, s, names)) == multiset(Survivors(name, t, names))
  {
    var a, b := multiset(Survivors(name, s, names)), multiset(Survivors(name, t, names));
    forall x: T | x in a || x in b ensures a[x] == b[x] {
      SurvivorCount(name, s, names, x);
      SurvivorCount(name, t, names, x);
    }
    MultisetExtensional(a, b);
  }

  lemma MultisetExtensional<T>(a: multiset<T>, b: multiset<T>)
    requires forall x | x in a || x in b :: a[x] == b[x]
    ensures a == b
  {
    assert forall x :: x !in a && x !in b ==> a[x] == b[x];
  }

  lemma {:induction false} SurvivorNames<T>(name: T -> Str, s: seq<T>, names: multiset<Str>)
    ensures multiset(Names(name, Survivors(name, s, names))) <= multiset(Names(name, s))
    ensures forall x | x in Survivors(name, s, names) :: x in s && names[name(x)] == 1
  {
    if s != [] {
      var init, x := s[..|s| - 1], s[|s| - 1];
      SurvivorNames(name, init, names);
      NamesConcat(name, Survivors(name, init, names), [x]);
    }
  }

  /** After deduplication every name is unique. */
  lemma DedupedDistinct<T>(name: T -> Str, s: seq<T>)
    ensures DistinctKeys(name, Deduped(name, s))
  {
    var names := multiset(Names(name, s));
    var d := Deduped(name, s);
    SurvivorNames(name, s, names);
    forall i, j | 0 <= i < j < |d| ensures name(d[i]) != name(d[j]) {
      if name(d[i]) == name(d[j]) {
        assert d[i] in d;
        TwiceInMultiset(Names(name, d), i, j);
        assert false;
      }
    }
  }

  lemma DedupPermutation<T>(kind: Kind, name: T -> Str, s: seq<T>, t: seq<T>)
    requires multiset(s) == multiset(t)
    ensures Sorted(name, Deduped(name, s)) == Sorted(name, Deduped(name, t))
    ensures DedupWarnings(kind, name, s) == DedupWarnings(kind, name, t)
  {
    NamesPermutation(name, s, t);
    SurvivorsPermutation(name, s, t, multiset(Names(name, s)));
    DedupedDistinct(name, s);
    SortedPermutation(name, Deduped(name, s), Deduped(name, t));
  }

  /** Two snapshots that are permutations of each other render alike: same files, same warnings in the same order. */
  lemma OrderIndependence(s: Snapshot, t: Snapshot)
    requires multiset(s.pools) == multiset(t.pools) && multiset(s.keyspaces) == multiset(t.keyspaces)
    ensures RenderOf(s) == RenderOf(t)
    ensures Tree(RenderOf(s)) == Tree(RenderOf(t)) && RenderOf(s).warns == RenderOf(t).warns
  {
    DedupPermutation(PoolKind, PoolName, s.pools, t.pools);
    DedupPermutation(KeyspaceKind, KeyspaceName, s.keyspaces, t.keyspaces);
  }

  // ---------------------------------------------------------------- what is kept

  lemma {:induction false} KeptPoolsFacts(s: seq<Pool>)
    requires Ordered(PoolName, s)
    ensures Ordered(PoolName, KeptPools(s))
    ensures forall p :: p in KeptPools(s) <==> p in s && PoolProblem(p).None?
  {
    if s != [] {
      var init := s[..|s| - 1];
      assert Ordered(PoolName, init);
      KeptPoolsFacts(init);
      var kept := KeptPools(init);
      forall i | 0 <= i < |kept| ensures Lt(PoolName(kept[i]), PoolName(s[|s| - 1])) {
        assert kept[i] in init;
      }
    }
  }

  /** What holds of a keyspace that passed every check. */
  predicate Routable(k: Keyspace, poolNames: set<Str>, modules: map<Str, Str>) {
    KeyspaceProblem(k, {}, poolNames, modules).None?
  }

  lemma ProblemSeen(k: Keyspace, seen: set<Str>, poolNames: set<Str>, modules: map<Str, Str>)
    ensures KeyspaceProblem(k, seen, poolNames, modules).None? <==> Routable(k, poolNames, modules) && k.prefix !in seen
  {
  }

  /** The loop's invariant: what was let through is routable, has distinct prefixes, and `seen` is those prefixes. */
  ghost predicate LetThrough(st: KeyspaceState, s: seq<Keyspace>, poolNames: set<Str>, modules: map<Str, Str>) {
    && DistinctKeys(KeyspacePrefix, st.out)
    && (forall k | k in st.out :: k in s && Routable(k, poolNames, modules) && k.prefix in st.seen)
    && (forall x | x in st.seen :: exists k | k in st.out :: k.prefix == x)
  }

  lemma {:induction false} KeyspacesFacts(s: seq<Keyspace>, poolNames: set<Str>, modules: map<Str, Str>)
    ensures LetThrough(Keyspaces(s, poolNames, modules), s, poolNames, modules)
  {
    if s != [] {
      var init, k := s[..|s| - 1], s[|s| - 1];
      KeyspacesFacts(init, poolNames, modules);
      assert s == init + [k];
      LetThroughStep(Keyspaces(init, poolNames, modules), init, k, poolNames, modules);
    }
  }

  lemma LetThroughStep(st: KeyspaceState, s: seq<Keyspace>, k: Keyspace, poolNames: set<Str>, modules: map<Str, Str>)
    requires LetThrough(st, s, poolNames, modules)
    ensures LetThrough(KeyspaceStep(st, k, poolNames, modules), s + [k], poolNames, modules)
  {
    ProblemSeen(k, st.seen, poolNames, modules);
    var st' := KeyspaceStep(st, k, poolNames, modules);
    if Routable(k, poolNames, modules) && k.prefix !in st.seen {
      assert st'.out == st.out + [k];
      forall i, j | 0 <= i < j < |st'.out| ensures KeyspacePrefix(st'.out[i]) != KeyspacePrefix(st'.out[j]) {
        assert st'.out[i] in st.out;
      }
      forall x | x in st'.seen ensures exists y | y in st'.out :: y.prefix == x {
        if x in st.seen {
          var y :| y in st.out && y.prefix == x;
          assert y in st'.out;
        } else {
          assert k in st'.out;
        }
      }
    }
  }

  lemma RenderedFacts(s: Snapshot)
    ensures
      var r := RenderOf(s);
      && Ordered(PoolName, r.pools)
      && (forall i | 0 <= i < |r.pools| :: PoolProblem(r.pools[i]).None?)
      && Ordered(KeyspacePrefix, r.keyspaces)
      && (forall i | 0 <= i < |r.keyspaces| :: Routable(r.keyspaces[i], PoolNameSet(r.pools), r.modules))
  {
    DedupedDistinct(PoolName, s.pools);
    SortedOrdered(PoolName, Deduped(PoolName, s.pools));
    KeptPoolsFacts(Sorted(PoolName, Deduped(PoolName, s.pools)));
    var r := RenderOf(s);
    forall i | 0 <= i < |r.pools| ensures PoolProblem(r.pools[i]).None? {
      assert r.pools[i] in r.pools;
    }
    var ks := Sorted(KeyspaceName, Deduped(KeyspaceName, s.keyspaces));
    var st := Keyspaces(ks, PoolNameSet(r.pools), r.modules);
    KeyspacesFacts(ks, PoolNameSet(r.pools), r.modules);
    SortedOrdered(KeyspacePrefix, st.out);
    forall i | 0 <= i < |r.keyspaces| ensures Routable(r.keyspaces[i], PoolNameSet(r.pools), r.modules) {
      assert r.keyspaces[i] in multiset(r.keyspaces);
      assert r.keyspaces[i] in multiset(st.out) && r.keyspaces[i] in st.out;
    }
  }

  lemma {:induction false} ModulesFacts(s: seq<Keyspace>)
    ensures forall n | n in Modules(s).modules :: SafeModuleName(n) && n !in BUILTIN_MERGES
    ensures forall n | n in Modules(s).modules :: Modules(s).modules[n] != []
  {
    if s != [] {
      ModulesFacts(s[..|s| - 1]);
    }
  }

  // ---------------------------------------------------------------- acceptance

  lemma SameSpelling()
    ensures NAME == LuaConfig.NAME && ADDRS == LuaConfig.ADDRS && HASH == LuaConfig.HASH && DIST == LuaConfig.DIST
    ensures PREFIX == LuaConfig.PREFIX && READ == LuaConfig.READ && WRITE == LuaConfig.WRITE
    ensures WRITE_POLICY == LuaConfig.WRITE_POLICY && MERGE == LuaConfig.MERGE
    ensures POOLS == LuaConfig.POOLS && KEYSPACES == LuaConfig.KEYSPACES
    ensures VALID_HASH == LuaConfig.VALID_HASH && VALID_DIST == LuaConfig.VALID_DIST
    ensures VALID_WRITE_POLICY == LuaConfig.VALID_WRITE_POLICY
    ensures RESERVED_PREFIXES == LuaConfig.RESERVED_PREFIXES
    ensures LuaConfig.DEFAULT_MERGE in BUILTIN_MERGES
  {
  }

  lemma PoolFieldsDistinct()
    ensures NAME != ADDRS && NAME != HASH && NAME != DIST && ADDRS != HASH && ADDRS != DIST && HASH != DIST
    ensures POOLS != KEYSPACES
  {
    assert |NAME| == 4 && |ADDRS| == 5 && |HASH| == 4 && |DIST| == 4;
    assert NAME[0] == 'n' && HASH[0] == 'h' && DIST[0] == 'd';
    assert |POOLS| == 5 && |KEYSPACES| == 9;
  }

  lemma KeyspaceFieldsDistinct()
    ensures PREFIX != READ && PREFIX != WRITE && PREFIX != WRITE_POLICY && PREFIX != MERGE
    ensures READ != WRITE && READ != WRITE_POLICY && READ != MERGE
    ensures WRITE != WRITE_POLICY && WRITE != MERGE && WRITE_POLICY != MERGE
  {
    assert |PREFIX| == 6 && |READ| == 4 && |WRITE| == 5 && |WRITE_POLICY| == 12 && |MERGE| == 5;
    assert WRITE[0] == 'w' && MERGE[0] == 'm';
  }

  /** What each field of a printed pool reads back as. */
  lemma PoolFields(p: Pool)
    ensures
      var v := PoolValue(p);
      && LuaConfig.Get(v, NAME) == String(p.name)
      && LuaConfig.Get(v, ADDRS) == Table(Strings(p.addrs), map[])
      && LuaConfig.Get(v, HASH) == (if p.hash != [] then String(p.hash) else Nil)
      && LuaConfig.Get(v, DIST) == (if p.dist != [] then String(p.dist) else Nil)
  {
    PoolFieldsDistinct();
  }

  lemma KeyspaceFields(k: Keyspace)
    ensures
      var v := KeyspaceValue(k);
      && LuaConfig.Get(v, PREFIX) == String(k.prefix)
      && LuaConfig.Get(v, READ) == Table(Strings(k.read), map[])
      && LuaConfig.Get(v, WRITE) == Table(Strings(k.write), map[])
      && LuaConfig.Get(v, WRITE_POLICY) == (if k.writePolicy != [] then String(k.writePolicy) else Nil)
      && LuaConfig.Get(v, MERGE) == (if k.merge.Some? then String(k.merge.value.name) else Nil)
  {
    KeyspaceFieldsDistinct();
  }

  /** The renderer keeps exactly the pools the Lua validator would take, as it will read them. */
  lemma PoolKeptIff(p: Pool)
    ensures PoolProblem(p).None? <==> LuaConfig.ValidPool(PoolValue(p))
  {
    SameSpelling();
    PoolFields(p);
    if FirstEmpty(p.addrs).Some? {
      assert Strings(p.addrs)[FirstEmpty(p.addrs).value] == String([]);
    }
    AddrsRead(p.addrs);
  }

  lemma AddrsRead(addrs: seq<Str>)
    ensures (forall i | 0 <= i < |addrs| :: LuaConfig.NonEmptyString(Strings(addrs)[i])) <==> FirstEmpty(addrs).None?
  {
    if FirstEmpty(addrs).Some? {
      assert !LuaConfig.NonEmptyString(Strings(addrs)[FirstEmpty(addrs).value]);
    }
  }

  /** What checkPoolList lets pass. */
  ghost predicate GoodList(list: seq<Str>, n: nat, poolNames: set<Str>)
    requires n <= |list|
  {
    && (forall i | 0 <= i < n :: list[i] != [] && list[i] in poolNames)
    && (forall i, j | 0 <= i < j < n :: list[i] != list[j])
  }

  lemma {:induction false} ListKeptIff(list: seq<Str>, n: nat, poolNames: set<Str>)
    requires n <= |list|
    ensures ListProblemIn(list, n, poolNames).None? <==> GoodList(list, n, poolNames)
  {
    if n > 0 {
      ListKeptIff(list, n - 1, poolNames);
      if list[n - 1] in list[..n - 1] {
        var i :| 0 <= i < n - 1 && list[..n - 1][i] == list[n - 1];
        assert list[i] == list[n - 1];
      } else {
        assert forall i | 0 <= i < n - 1 :: list[i] == list[..n - 1][i];
      }
    }
  }

  lemma PoolListKeptIff(list: seq<Str>, poolNames: set<Str>)
    ensures CheckPoolListOf(list, poolNames).None? <==> LuaConfig.ValidPoolList(Table(Strings(list), map[]), poolNames)
  {
    ListKeptIff(list, |list|, poolNames);
    var read := Strings(list);
    if LuaConfig.ValidPoolList(Table(read, map[]), poolNames) {
      forall i | 0 <= i < |list| ensures list[i] != [] && list[i] in poolNames {
        assert LuaConfig.NonEmptyString(read[i]) && read[i].s in poolNames;
      }
      forall i, j | 0 <= i < j < |list| ensures list[i] != list[j] {
        assert read[i] != read[j];
      }
    }
  }

  /** Everything the validator asks of a keyspace but that its prefix is new. */
  ghost predicate Acceptable(k: Keyspace, poolNames: set<Str>, modules: map<Str, Str>) {
    && LuaConfig.ValidKeyspace(KeyspaceValue(k), poolNames)
    && LuaConfig.MergeOf(KeyspaceValue(k)) in BUILTIN_MERGES + modules.Keys
  }

  /** The renderer lets through exactly the keyspaces the Lua validator would take, as it will read them. */
  lemma KeyspaceKeptIff(k: Keyspace, poolNames: set<Str>, modules: map<Str, Str>)
    ensures Routable(k, poolNames, modules) <==> Acceptable(k, poolNames, modules)
  {
    SameSpelling();
    KeyspaceFields(k);
    PoolListKeptIff(k.read, poolNames);
    PoolListKeptIff(k.write, poolNames);
  }

  lemma MergeResolves(k: Keyspace, poolNames: set<Str>, modules: map<Str, Str>)
    requires Routable(k, poolNames, modules)
    ensures LuaConfig.MergeOf(KeyspaceValue(k)) in BUILTIN_MERGES + modules.Keys
    ensures k.merge.Some? ==> LuaConfig.MergeOf(KeyspaceValue(k)) == k.merge.value.name
  {
    SameSpelling();
    KeyspaceFields(k);
  }

  lemma SectionsOf(ps: seq<Pool>, ks: seq<Keyspace>)
    ensures LuaConfig.HasSections(ConfigValue(ps, ks))
    ensures LuaConfig.PoolsOf(ConfigValue(ps, ks)) == PoolValues(ps)
    ensures LuaConfig.KeyspacesOf(ConfigValue(ps, ks)) == KeyspaceValues(ks)
  {
    SameSpelling();
    PoolFieldsDistinct();
  }

  lemma PoolNamesAgree(ps: seq<Pool>)
    ensures LuaConfig.FieldSet(PoolValues(ps), LuaConfig.NAME) == PoolNameSet(ps)
  {
    SameSpelling();
    var vs := PoolValues(ps);
    forall n ensures n in LuaConfig.FieldSet(vs, LuaConfig.NAME) <==> n in PoolNameSet(ps) {
      if n in LuaConfig.FieldSet(vs, LuaConfig.NAME) {
        var i :| 0 <= i < |vs| && vs[i].Table? && LuaConfig.Get(vs[i], LuaConfig.NAME) == String(n);
        PoolFields(ps[i]);
        assert ps[i] in ps && ps[i].name == n;
      }
      if n in PoolNameSet(ps) {
        var p :| p in ps && p.name == n;
        var i :| 0 <= i < |ps| && ps[i] == p;
        PoolFields(ps[i]);
        assert vs[i].Table? && LuaConfig.Get(vs[i], LuaConfig.NAME) == String(n);
      }
    }
  }

  lemma ConfigWellFormed(ps: seq<Pool>, ks: seq<Keyspace>, modules: map<Str, Str>)
    requires Ordered(PoolName, ps) && forall i | 0 <= i < |ps| :: PoolProblem(ps[i]).None?
    requires Ordered(KeyspacePrefix, ks) && forall i | 0 <= i < |ks| :: Routable(ks[i], PoolNameSet(ps), modules)
    ensures LuaConfig.WellFormed(ConfigValue(ps, ks))
  {
    SameSpelling();
    SectionsOf(ps, ks);
    PoolNamesAgree(ps);
    OrderedDistinct(PoolName, ps);
    OrderedDistinct(KeyspacePrefix, ks);
    forall i | 0 <= i < |ps| ensures LuaConfig.ValidPool(PoolValues(ps)[i]) {
      PoolKeptIff(ps[i]);
    }
    forall i, j | 0 <= i < j < |ps|
      ensures LuaConfig.Get(PoolValues(ps)[i], LuaConfig.NAME) != LuaConfig.Get(PoolValues(ps)[j], LuaConfig.NAME)
    {
      PoolFields(ps[i]);
      PoolFields(ps[j]);
      assert PoolName(ps[i]) != PoolName(ps[j]);
    }
    forall i | 0 <= i < |ks| ensures LuaConfig.ValidKeyspace(KeyspaceValues(ks)[i], PoolNameSet(ps)) {
      KeyspaceKeptIff(ks[i], PoolNameSet(ps), modules);
    }
    forall i, j | 0 <= i < j < |ks|
      ensures
        LuaConfig.Get(KeyspaceValues(ks)[i], LuaConfig.PREFIX) != LuaConfig.Get(KeyspaceValues(ks)[j], LuaConfig.PREFIX)
    {
      KeyspaceFields(ks[i]);
      KeyspaceFields(ks[j]);
      assert KeyspacePrefix(ks[i]) != KeyspacePrefix(ks[j]);
    }
  }

  /** A registry that knows the built-ins and every module the renderer emitted. */
  ghost predicate Provides(registry: LuaConfig.Registry, r: Rendered) {
    BUILTIN_MERGES + r.modules.Keys <= registry.Keys
  }

  /**
    Whatever the snapshot, the text the renderer emits parses, and the parsed
    table passes the Lua validator once the registry holds the built-ins and
    the modules emitted beside it.
   */
  lemma RenderedIsAccepted(s: Snapshot, registry: LuaConfig.Registry)
    requires Provides(registry, RenderOf(s))
    ensures
      var r := RenderOf(s);
      var parsed := ParseChunk(ConfigText(r.pools, r.keyspaces));
      parsed == Some(ConfigValue(r.pools, r.keyspaces)) && LuaConfig.Accepts(parsed.value, registry)
  {
    var r := RenderOf(s);
    RenderedFacts(s);
    ConfigRoundTrip(r.pools, r.keyspaces);
    ConfigWellFormed(r.pools, r.keyspaces, r.modules);
    SectionsOf(r.pools, r.keyspaces);
    forall i | 0 <= i < |r.keyspaces| ensures LuaConfig.MergeOf(KeyspaceValues(r.keyspaces)[i]) in registry {
      MergeResolves(r.keyspaces[i], PoolNameSet(r.pools), r.modules);
    }
  }

  // ---------------------------------------------------------------- adding one Keyspace

  /** `s'` is `s` with one element put in somewhere. */
  ghost predicate WithOneMore<T>(s: seq<T>, s': seq<T>, x: T) {
    exists i :: 0 <= i <= |s| && s' == s[..i] + [x] + s[i..]
  }

  /** A fresh name changes nobody else's count, so deduplication keeps the newcomer and touches nothing else. */
  lemma DedupAdd<T>(name: T -> Str, s: seq<T>, s': seq<T>, x: T)
    requires multiset(s') == multiset(s) + multiset{x}
    requires forall y | y in s :: name(y) != name(x)
    ensures multiset(Deduped(name, s')) == multiset(Deduped(name, s)) + multiset{x}
  {
    var names := multiset(Names(name, s));
    NamesAdd(name, s, s', x);
    var a, b := multiset(Deduped(name, s')), multiset(Deduped(name, s)) + multiset{x};
    forall y ensures a[y] == b[y] {
      DedupAddAt(name, s, s', names, x, y);
    }
    MultisetExtensional(a, b);
  }

  lemma NamesAdd<T>(name: T -> Str, s: seq<T>, s': seq<T>, x: T)
    requires multiset(s') == multiset(s) + multiset{x}
    requires forall y | y in s :: name(y) != name(x)
    ensures multiset(Names(name, s')) == multiset(Names(name, s)) + multiset{name(x)}
    ensures multiset(Names(name, s))[name(x)] == 0
  {
    assert multiset(s + [x]) == multiset(s');
    NamesPermutation(name, s + [x], s');
    NamesAppend(name, s, x);
    NameFresh(name, s, x);
  }

  lemma NamesAppend<T>(name: T -> Str, s: seq<T>, x: T)
    ensures multiset(Names(name, s + [x])) == multiset(Names(name, s)) + multiset{name(x)}
  {
    assert (s + [x])[..|s|] == s;
    assert Names(name, s + [x]) == Names(name, s) + [name(x)];
  }

  lemma NameFresh<T>(name: T -> Str, s: seq<T>, x: T)
    requires forall y | y in s :: name(y) != name(x)
    ensures multiset(Names(name, s))[name(x)] == 0
  {
    assert name(x) !in Names(name, s);
  }

  lemma DedupAddAt<T>(name: T -> Str, s: seq<T>, s': seq<T>, names: multiset<Str>, x: T, y: T)
    requires multiset(s') == multiset(s) + multiset{x} && names[name(x)] == 0
    requires forall z | z in s :: name(z) != name(x)
    ensures
      multiset(Survivors(name, s', names + multiset{name(x)}))[y] ==
        multiset(Survivors(name, s, names))[y] + multiset{x}[y]
  {
    SurvivorCount(name, s', names + multiset{name(x)}, y);
    SurvivorCount(name, s, names, y);
    if name(y) == name(x) {
      assert y !in s;
      assert multiset(s)[y] == 0;
    }
  }

  /** `x` put into `s` at `i`. */
  function With<T>(s: seq<T>, i: nat, x: T): seq<T>
    requires i <= |s|
  {
    s[..i] + [x] + s[i..]
  }

  lemma WithFirst<T>(s: seq<T>, x: T)
    ensures With(s, 0, x) == [x] + s
  {
  }

  lemma WithLater<T>(s: seq<T>, j: nat, x: T)
    requires j < |s|
    ensures With(s, j + 1, x) == [s[0]] + With(s[1..], j, x)
  {
    assert s[..j + 1] == [s[0]] + s[1..][..j] && s[j + 1..] == s[1..][j..];
  }

  lemma {:induction false} InsertSplits<T>(key: T -> Str, x: T, s: seq<T>) returns (i: nat)
    ensures i <= |s| && Insert(key, x, s) == With(s, i, x)
  {
    i := 0;
    WithFirst(s, x);
    if s != [] && Lt(key(s[0]), key(x)) {
      var j := InsertSplits(key, x, s[1..]);
      WithLater(s, j, x);
      i := j + 1;
    }
  }

  /** Sorting by distinct keys with one element more puts that element in and moves nothing else. */
  lemma SortedAdd<T>(key: T -> Str, s: seq<T>, s': seq<T>, x: T)
    requires DistinctKeys(key, s') && multiset(s') == multiset(s) + multiset{x}
    ensures WithOneMore(Sorted(key, s), Sorted(key, s'), x)
  {
    var t := Insert(key, x, Sorted(key, s));
    SortedNonDecreasing(key, s);
    InsertNonDecreasing(key, x, Sorted(key, s));
    SortIsSorted(key, s', t);
    var i := InsertSplits(key, x, Sorted(key, s));
  }

  lemma {:induction false} ModulesSkip(a: seq<Keyspace>, k: Keyspace, b: seq<Keyspace>)
    requires !CarriesModule(k)
    ensures Modules(a + [k] + b) == Modules(a + b)
  {
    if b == [] {
      assert a + [k] + b == a + [k] && a + b == a;
      assert (a + [k])[..|a|] == a;
    } else {
      var init, last := b[..|b| - 1], b[|b| - 1];
      ModulesSkip(a, k, init);
      assert (a + [k] + b)[..|a| + |b|] == a + [k] + init;
      assert (a + b)[..|a| + |b| - 1] == a + init;
    }
  }

  /** How the loop over keyspaces, run with one keyspace more, relates to the run without it. */
  ghost predicate Undisturbed(st: KeyspaceState, st': KeyspaceState, k: Keyspace) {
    || (st'.out == st.out && st'.seen == st.seen)
    || (k.prefix !in st.seen && st'.seen == st.seen + {k.prefix} && multiset(st'.out) == multiset(st.out) + multiset{k})
  }

  lemma UndisturbedStep(st: KeyspaceState, st': KeyspaceState, k: Keyspace, x: Keyspace, poolNames: set<Str>,
                        modules: map<Str, Str>)
    requires Undisturbed(st, st', k)
    requires (st'.out == st.out && st'.seen == st.seen) || x.prefix != k.prefix
    ensures
      var n, n' := KeyspaceStep(st, x, poolNames, modules), KeyspaceStep(st', x, poolNames, modules);
      Undisturbed(n, n', k) && ((st'.out == st.out && st'.seen == st.seen) ==> n'.out == n.out && n'.seen == n.seen)
  {
    ProblemSeen(x, st.seen, poolNames, modules);
    ProblemSeen(x, st'.seen, poolNames, modules);
  }

  /** The loop over keyspaces resumed from a state. */
  function KeyspacesFrom(st: KeyspaceState, b: seq<Keyspace>, poolNames: set<Str>, modules: map<Str, Str>)
    : KeyspaceState
  {
    if b == [] then st
    else KeyspaceStep(KeyspacesFrom(st, b[..|b| - 1], poolNames, modules), b[|b| - 1], poolNames, modules)
  }

  lemma {:induction false} KeyspacesResume(a: seq<Keyspace>, b: seq<Keyspace>, poolNames: set<Str>,
                                           modules: map<Str, Str>)
    ensures Keyspaces(a + b, poolNames, modules) ==
      KeyspacesFrom(Keyspaces(a, poolNames, modules), b, poolNames, modules)
  {
    if b == [] {
      assert a + b == a;
    } else {
      assert (a + b)[..|a + b| - 1] == a + b[..|b| - 1];
      KeyspacesResume(a, b[..|b| - 1], poolNames, modules);
    }
  }

  lemma {:induction false} KeyspacesApart(
      st: KeyspaceState, st': KeyspaceState, k: Keyspace, b: seq<Keyspace>, poolNames: set<Str>, modules: map<Str, Str>)
    requires Undisturbed(st, st', k)
    requires (st'.out == st.out && st'.seen == st.seen) || forall x | x in b :: x.prefix != k.prefix
    ensures
      var n, n' := KeyspacesFrom(st, b, poolNames, modules), KeyspacesFrom(st', b, poolNames, modules);
      Undisturbed(n, n', k) && ((st'.out == st.out && st'.seen == st.seen) ==> n'.out == n.out && n'.seen == n.seen)
  {
    if b != [] {
      var init, x := b[..|b| - 1], b[|b| - 1];
      assert x in b && forall y | y in init :: y in b;
      KeyspacesApart(st, st', k, init, poolNames, modules);
      UndisturbedStep(KeyspacesFrom(st, init, poolNames, modules), KeyspacesFrom(st', init, poolNames, modules), k, x,
        poolNames, modules);
    }
  }

  /** A newcomer that is not let through leaves the outcome for everybody else alone. */
  lemma NewcomerSkipped(a: seq<Keyspace>, k: Keyspace, b: seq<Keyspace>, poolNames: set<Str>, modules: map<Str, Str>)
    requires !(Routable(k, poolNames, modules) && k.prefix !in Keyspaces(a, poolNames, modules).seen)
    ensures Keyspaces(a + [k] + b, poolNames, modules).out == Keyspaces(a + b, poolNames, modules).out
  {
    var st := Keyspaces(a, poolNames, modules);
    ProblemSeen(k, st.seen, poolNames, modules);
    KeyspacesResume(a + [k], b, poolNames, modules);
    KeyspacesResume(a, b, poolNames, modules);
    assert (a + [k])[..|a|] == a;
    KeyspacesApart(st, KeyspaceStep(st, k, poolNames, modules), k, b, poolNames, modules);
  }

  /** A newcomer whose prefix nobody else has joins the others without displacing any. */
  lemma NewcomerUnopposed(a: seq<Keyspace>, k: Keyspace, b: seq<Keyspace>, poolNames: set<Str>, modules: map<Str, Str>)
    requires forall x | x in a + b :: x.prefix != k.prefix
    ensures
      var out, out' := Keyspaces(a + b, poolNames, modules).out, Keyspaces(a + [k] + b, poolNames, modules).out;
      out' == out || multiset(out') == multiset(out) + multiset{k}
  {
    var st := Keyspaces(a, poolNames, modules);
    ProblemSeen(k, st.seen, poolNames, modules);
    KeyspacesResume(a + [k], b, poolNames, modules);
    KeyspacesResume(a, b, poolNames, modules);
    assert (a + [k])[..|a|] == a;
    assert forall x | x in b :: x in a + b;
    KeyspacesApart(st, KeyspaceStep(st, k, poolNames, modules), k, b, poolNames, modules);
  }

  /** A keyspace let through earlier in the run is still there at the end. */
  lemma {:induction false} LetThroughStays(a: seq<Keyspace>, k: Keyspace, b: seq<Keyspace>, poolNames: set<Str>,
                                           modules: map<Str, Str>)
    requires Routable(k, poolNames, modules) && k.prefix !in Keyspaces(a, poolNames, modules).seen
    ensures k in Keyspaces(a + [k] + b, poolNames, modules).out
  {
    if b == [] {
      assert a + [k] + b == a + [k];
      assert (a + [k])[..|a|] == a;
      ProblemSeen(k, Keyspaces(a, poolNames, modules).seen, poolNames, modules);
    } else {
      LetThroughStays(a, k, b[..|b| - 1], poolNames, modules);
      assert (a + [k] + b)[..|a| + |b|] == a + [k] + b[..|b| - 1];
    }
  }

  /**
    Adding a Keyspace under a fresh name and without an inline module leaves
    pools and modules as they were. If the newcomer is skipped, the files are
    identical, contested prefix or not. If nobody else uses its prefix, the
    other rendered keyspaces stay exactly as they were, in the same order.
   */
  lemma AddKeyspace(s: Snapshot, s': Snapshot, k: Keyspace)
    requires s'.pools == s.pools && multiset(s'.keyspaces) == multiset(s.keyspaces) + multiset{k}
    requires (forall x | x in s.keyspaces :: x.name != k.name) && !CarriesModule(k)
    ensures
      var r, r' := RenderOf(s), RenderOf(s');
      && r'.pools == r.pools && r'.modules == r.modules
      && (k !in r'.keyspaces ==> r'.keyspaces == r.keyspaces && Tree(r') == Tree(r))
      && ((forall x | x in s.keyspaces :: x.prefix != k.prefix) ==>
            r'.keyspaces == r.keyspaces || WithOneMore(r.keyspaces, r'.keyspaces, k))
  {
    var r, r' := RenderOf(s), RenderOf(s');
    AddKeyspaceLists(s, s', k);
    if k !in r'.keyspaces {
      assert r'.(warns := []) == r.(warns := []);
    }
  }

  lemma AddKeyspaceLists(s: Snapshot, s': Snapshot, k: Keyspace)
    requires s'.pools == s.pools && multiset(s'.keyspaces) == multiset(s.keyspaces) + multiset{k}
    requires (forall x | x in s.keyspaces :: x.name != k.name) && !CarriesModule(k)
    ensures
      var r, r' := RenderOf(s), RenderOf(s');
      && r'.pools == r.pools && r'.modules == r.modules
      && (k !in r'.keyspaces ==> r'.keyspaces == r.keyspaces)
      && ((forall x | x in s.keyspaces :: x.prefix != k.prefix) ==>
            r'.keyspaces == r.keyspaces || WithOneMore(r.keyspaces, r'.keyspaces, k))
  {
    var i := SortedWithNewcomer(s.keyspaces, s'.keyspaces, k);
    var o := Sorted(KeyspaceName, Deduped(KeyspaceName, s.keyspaces));
    AddToList(o, i, k, PoolNameSet(RenderOf(s).pools));
    FromSnapshot(s.keyspaces, o);
  }

  lemma AddToList(o: seq<Keyspace>, i: nat, k: Keyspace, poolNames: set<Str>)
    requires i <= |o| && !CarriesModule(k)
    ensures
      var o' := o[..i] + [k] + o[i..];
      && Modules(o') == Modules(o)
      && var out := Sorted(KeyspacePrefix, Keyspaces(o, poolNames, Modules(o).modules).out);
         var out' := Sorted(KeyspacePrefix, Keyspaces(o', poolNames, Modules(o').modules).out);
         && (k !in out' ==> out' == out)
         && ((forall x | x in o :: x.prefix != k.prefix) ==> out' == out || WithOneMore(out, out', k))
  {
    assert o == o[..i] + o[i..];
    ModulesSkip(o[..i], k, o[i..]);
    AddToRun(o[..i], k, o[i..], poolNames, Modules(o).modules);
  }

  lemma SortedWithNewcomer(s: seq<Keyspace>, s': seq<Keyspace>, k: Keyspace) returns (i: nat)
    requires multiset(s') == multiset(s) + multiset{k} && forall x | x in s :: x.name != k.name
    ensures
      var o := Sorted(KeyspaceName, Deduped(KeyspaceName, s));
      i <= |o| && Sorted(KeyspaceName, Deduped(KeyspaceName, s')) == o[..i] + [k] + o[i..]
  {
    var o := Sorted(KeyspaceName, Deduped(KeyspaceName, s));
    assert forall x | x in s :: KeyspaceName(x) != KeyspaceName(k);
    DedupAdd(KeyspaceName, s, s', k);
    DedupedDistinct(KeyspaceName, s');
    SortedAdd(KeyspaceName, Deduped(KeyspaceName, s), Deduped(KeyspaceName, s'), k);
    i :| 0 <= i <= |o| && Sorted(KeyspaceName, Deduped(KeyspaceName, s')) == o[..i] + [k] + o[i..];
  }

  lemma AddToRun(a: seq<Keyspace>, k: Keyspace, b: seq<Keyspace>, poolNames: set<Str>, modules: map<Str, Str>)
    ensures
      var out := Sorted(KeyspacePrefix, Keyspaces(a + b, poolNames, modules).out);
      var out' := Sorted(KeyspacePrefix, Keyspaces(a + [k] + b, poolNames, modules).out);
      && (k !in out' ==> out' == out)
      && ((forall x | x in a + b :: x.prefix != k.prefix) ==> out' == out || WithOneMore(out, out', k))
  {
    var st, st' := Keyspaces(a + b, poolNames, modules), Keyspaces(a + [k] + b, poolNames, modules);
    KeyspacesFacts(a + [k] + b, poolNames, modules);
    if Routable(k, poolNames, modules) && k.prefix !in Keyspaces(a, poolNames, modules).seen {
      LetThroughStays(a, k, b, poolNames, modules);
      assert k in multiset(Sorted(KeyspacePrefix, st'.out)) by { assert k in multiset(st'.out); }
      if forall x | x in a + b :: x.prefix != k.prefix {
        NewcomerUnopposed(a, k, b, poolNames, modules);
        if st'.out != st.out {
          SortedAdd(KeyspacePrefix, st.out, st'.out, k);
        }
      }
    } else {
      NewcomerSkipped(a, k, b, poolNames, modules);
    }
  }

  lemma FromSnapshot(s: seq<Keyspace>, o: seq<Keyspace>)
    requires o == Sorted(KeyspaceName, Deduped(KeyspaceName, s))
    ensures forall x | x in o :: x in s
  {
    SurvivorNames(KeyspaceName, s, multiset(Names(KeyspaceName, s)));
    forall x | x in o ensures x in s {
      assert x in multiset(o) && x in multiset(Deduped(KeyspaceName, s));
    }
  }

  // ---------------------------------------------------------------- nothing is lost in print

  lemma {:induction false} StringsInjective(a: seq<Str>, b: seq<Str>)
    requires Strings(a) == Strings(b)
    ensures a == b
  {
    forall i | 0 <= i < |a| ensures a[i] == b[i] {
      assert Strings(a)[i] == Strings(b)[i];
    }
  }

  /** The part of a Keyspace the config carries: all but the object's own name and the module's bytes. */
  function Routing(k: Keyspace): (Str, seq<Str>, seq<Str>, Str, Option<Str>) {
    (k.prefix, k.read, k.write, k.writePolicy, if k.merge.Some? then Some(k.merge.value.name) else None)
  }

  /** Two configs with the same text have the same pools and the same routing. */
  lemma ConfigTextInjective(ps: seq<Pool>, ks: seq<Keyspace>, ps': seq<Pool>, ks': seq<Keyspace>)
    requires ConfigText(ps, ks) == ConfigText(ps', ks')
    ensures ps == ps'
    ensures |ks| == |ks'| && forall i | 0 <= i < |ks| :: Routing(ks[i]) == Routing(ks'[i])
  {
    ConfigRoundTrip(ps, ks);
    ConfigRoundTrip(ps', ks');
    SectionsOf(ps, ks);
    SectionsOf(ps', ks');
    PoolsInjective(ps, ps');
    KeyspacesInjective(ks, ks');
  }

  lemma PoolsInjective(ps: seq<Pool>, ps': seq<Pool>)
    requires PoolValues(ps) == PoolValues(ps')
    ensures ps == ps'
  {
    forall i | 0 <= i < |ps| ensures ps[i] == ps'[i] {
      assert PoolValues(ps)[i] == PoolValues(ps')[i];
      PoolFields(ps[i]);
      PoolFields(ps'[i]);
      StringsInjective(ps[i].addrs, ps'[i].addrs);
    }
  }

  lemma KeyspacesInjective(ks: seq<Keyspace>, ks': seq<Keyspace>)
    requires KeyspaceValues(ks) == KeyspaceValues(ks')
    ensures |ks| == |ks'| && forall i | 0 <= i < |ks| :: Routing(ks[i]) == Routing(ks'[i])
  {
    forall i | 0 <= i < |ks| ensures Routing(ks[i]) == Routing(ks'[i]) {
      assert KeyspaceValues(ks)[i] == KeyspaceValues(ks')[i];
      KeyspaceFields(ks[i]);
      KeyspaceFields(ks'[i]);
      StringsInjective(ks[i].read, ks'[i].read);
      StringsInjective(ks[i].write, ks'[i].write);
    }
  }
}
