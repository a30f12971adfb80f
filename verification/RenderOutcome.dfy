/**
  What a snapshot renders to, said of the snapshot itself: which pools, modules
  and keyspaces come out, in terms of names and of what the Lua validator takes,
  without mention of loops, sorting or state.
 */
module RenderOutcome {
  import opened Text
  import opened Render
  import opened RenderProperties
  import opened RoundTrip
  import LuaConfig

  /** `x` is in the list and no other object there has its name. */
  ghost predicate Unique<T>(name: T -> Str, s: seq<T>, x: T) {
    x in s && multiset(Names(name, s))[name(x)] == 1
  }

  lemma DedupedAre<T>(name: T -> Str, s: seq<T>, x: T)
    ensures x in Sorted(name, Deduped(name, s)) <==> Unique(name, s, x)
  {
    var d := Deduped(name, s);
    SurvivorCount(name, s, multiset(Names(name, s)), x);
    SortedMember(name, d, x);
    assert x in d <==> x in multiset(d);
    assert x in s <==> x in multiset(s);
  }

  lemma ByName<T>(name: T -> Str, s: seq<T>)
    ensures Ordered(name, Sorted(name, Deduped(name, s)))
  {
    DedupedDistinct(name, s);
    SortedOrdered(name, Deduped(name, s));
  }

  lemma {:induction false} LtIrreflexive(a: Str)
    ensures !Lt(a, a)
  {
    if a != [] {
      LtIrreflexive(a[1..]);
    }
  }

  /** In an ordered list, what comes before an element is what has a smaller key. */
  lemma Earlier<T>(name: T -> Str, o: seq<T>, i: nat, x: T)
    requires Ordered(name, o) && i < |o| && x in o
    ensures x in o[..i] <==> Lt(name(x), name(o[i]))
  {
    var j :| 0 <= j < |o| && o[j] == x;
    LtIrreflexive(name(x));
    if j < i {
      assert x == o[..i][j];
    } else {
      if i < j {
        LtAsym(name(o[i]), name(o[j]));
      }
      forall k | 0 <= k < i ensures o[..i][k] != x {
        assert Lt(name(o[k]), name(o[j]));
      }
    }
  }

  /** No element of an ordered list comes again. */
  lemma NotAgain<T>(name: T -> Str, o: seq<T>, i: nat)
    requires Ordered(name, o) && i < |o|
    ensures forall j | 0 <= j < |o| && j != i :: o[j] != o[i]
  {
    LtIrreflexive(name(o[i]));
    forall j | 0 <= j < |o| && j != i ensures o[j] != o[i] {
      assert if i < j then Lt(name(o[i]), name(o[j])) else Lt(name(o[j]), name(o[i]));
    }
  }

  // ---------------------------------------------------------------- pools

  /** A pool comes out if and only if its name is its own and the validator takes it. */
  lemma RenderedPools(s: Snapshot, p: Pool)
    ensures p in RenderOf(s).pools <==> Unique(PoolName, s.pools, p) && LuaConfig.ValidPool(PoolValue(p))
  {
    PoolKeptIff(p);
    DedupedAre(PoolName, s.pools, p);
    ByName(PoolName, s.pools);
    KeptPoolsFacts(Sorted(PoolName, Deduped(PoolName, s.pools)));
  }

  // ---------------------------------------------------------------- modules

  /** The keyspace brings a usable module of that name. */
  predicate Offers(k: Keyspace, n: Str) {
    CarriesModule(k) && k.merge.value.name == n && SafeModuleName(n) && n !in BUILTIN_MERGES
  }

  lemma {:induction false} OfferedAre(s: seq<Keyspace>, n: Str)
    ensures n in Modules(s).modules <==> exists k | k in s :: Offers(k, n)
  {
    if s != [] {
      var init, k := s[..|s| - 1], s[|s| - 1];
      OfferedAre(init, n);
      assert s == init + [k] && k in s;
      if exists x | x in init :: Offers(x, n) {
        var x :| x in init && Offers(x, n);
        assert x in s;
      }
    }
  }

  lemma {:induction false} FirstOffer(s: seq<Keyspace>, i: nat, n: Str)
    requires i < |s| && Offers(s[i], n) && forall k | k in s[..i] :: !Offers(k, n)
    ensures n in Modules(s).modules && Modules(s).modules[n] == s[i].merge.value.wasm
  {
    var last := |s| - 1;
    if i == last {
      OfferedAre(s[..last], n);
    } else {
      assert s[..last][..i] == s[..i];
      FirstOffer(s[..last], i, n);
    }
  }

  /**
    A module comes out if and only if some uniquely named keyspace offers it,
    with the bytes of the first such keyspace by name.
   */
  lemma RenderedModules(s: Snapshot, n: Str)
    ensures
      var modules := RenderOf(s).modules;
      && (n in modules <==> exists k | Unique(KeyspaceName, s.keyspaces, k) :: Offers(k, n))
      && forall k | Unique(KeyspaceName, s.keyspaces, k) && Offers(k, n)
           && (forall x | Unique(KeyspaceName, s.keyspaces, x) && Lt(x.name, k.name) :: !Offers(x, n)) ::
           n in modules && modules[n] == k.merge.value.wasm
  {
    var o := Sorted(KeyspaceName, Deduped(KeyspaceName, s.keyspaces));
    forall k ensures k in o <==> Unique(KeyspaceName, s.keyspaces, k) {
      DedupedAre(KeyspaceName, s.keyspaces, k);
    }
    OfferedAre(o, n);
    forall k | Unique(KeyspaceName, s.keyspaces, k) && Offers(k, n)
      && (forall x | Unique(KeyspaceName, s.keyspaces, x) && Lt(x.name, k.name) :: !Offers(x, n))
      ensures n in Modules(o).modules && Modules(o).modules[n] == k.merge.value.wasm
    {
      var i :| 0 <= i < |o| && o[i] == k;
      ByName(KeyspaceName, s.keyspaces);
      forall x | x in o[..i] ensures !Offers(x, n) {
        assert x in o;
        Earlier(KeyspaceName, o, i, x);
      }
      FirstOffer(o, i, n);
    }
  }

  // ---------------------------------------------------------------- keyspaces

  lemma {:induction false} SeenAre(s: seq<Keyspace>, poolNames: set<Str>, modules: map<Str, Str>, x: Str)
    ensures x in Keyspaces(s, poolNames, modules).seen <==>
      exists k | k in s :: Routable(k, poolNames, modules) && k.prefix == x
  {
    if s != [] {
      var init, k := s[..|s| - 1], s[|s| - 1];
      SeenAre(init, poolNames, modules, x);
      ProblemSeen(k, Keyspaces(init, poolNames, modules).seen, poolNames, modules);
      assert s == init + [k];
    }
  }

  lemma StepOut(st: KeyspaceState, x: Keyspace, k: Keyspace, poolNames: set<Str>, modules: map<Str, Str>)
    ensures k in KeyspaceStep(st, x, poolNames, modules).out <==>
      k in st.out || (k == x && Routable(x, poolNames, modules) && x.prefix !in st.seen)
  {
    ProblemSeen(x, st.seen, poolNames, modules);
  }

  lemma {:induction false} LetThroughAre(s: seq<Keyspace>, poolNames: set<Str>, modules: map<Str, Str>, i: nat)
    requires i < |s| && forall j | 0 <= j < |s| && j != i :: s[j] != s[i]
    ensures s[i] in Keyspaces(s, poolNames, modules).out <==>
      Routable(s[i], poolNames, modules) && s[i].prefix !in Keyspaces(s[..i], poolNames, modules).seen
  {
    var last := |s| - 1;
    var init := s[..last];
    StepOut(Keyspaces(init, poolNames, modules), s[last], s[i], poolNames, modules);
    if i == last {
      KeyspacesFacts(init, poolNames, modules);
      assert s[i] !in init;
    } else {
      assert init[..i] == s[..i];
      LetThroughAre(init, poolNames, modules, i);
    }
  }

  lemma OutAre(o: seq<Keyspace>, poolNames: set<Str>, modules: map<Str, Str>, k: Keyspace)
    requires Ordered(KeyspaceName, o)
    ensures k in Keyspaces(o, poolNames, modules).out <==>
      && k in o && Routable(k, poolNames, modules)
      && forall x | x in o && Routable(x, poolNames, modules) && Lt(x.name, k.name) :: x.prefix != k.prefix
  {
    KeyspacesFacts(o, poolNames, modules);
    if k in o {
      var i :| 0 <= i < |o| && o[i] == k;
      NotAgain(KeyspaceName, o, i);
      LetThroughAre(o, poolNames, modules, i);
      SeenAre(o[..i], poolNames, modules, k.prefix);
      forall x | x in o ensures x in o[..i] <==> Lt(x.name, k.name) {
        Earlier(KeyspaceName, o, i, x);
      }
      forall x | x in o[..i] ensures x in o {
      }
    }
  }

  /**
    A keyspace comes out if and only if its name is its own, the validator takes
    it beside the pools and modules that come out, and no such keyspace with a
    smaller name has its prefix.
   */
  lemma RenderedKeyspaces(s: Snapshot, k: Keyspace)
    ensures
      var r := RenderOf(s);
      var names := PoolNameSet(r.pools);
      k in r.keyspaces <==>
        && Unique(KeyspaceName, s.keyspaces, k) && Acceptable(k, names, r.modules)
        && forall x | Unique(KeyspaceName, s.keyspaces, x) && Acceptable(x, names, r.modules) && Lt(x.name, k.name) ::
             x.prefix != k.prefix
  {
    RoutedKeyspaces(s, k);
    var r := RenderOf(s);
    forall x ensures Routable(x, PoolNameSet(r.pools), r.modules) <==> Acceptable(x, PoolNameSet(r.pools), r.modules) {
      KeyspaceKeptIff(x, PoolNameSet(r.pools), r.modules);
    }
  }

  /** The same in the renderer's own terms. */
  lemma RoutedKeyspaces(s: Snapshot, k: Keyspace)
    ensures
      var r := RenderOf(s);
      var names := PoolNameSet(r.pools);
      k in r.keyspaces <==>
        && Unique(KeyspaceName, s.keyspaces, k) && Routable(k, names, r.modules)
        && forall x | Unique(KeyspaceName, s.keyspaces, x) && Routable(x, names, r.modules) && Lt(x.name, k.name) ::
             x.prefix != k.prefix
  {
    var r := RenderOf(s);
    var o := Sorted(KeyspaceName, Deduped(KeyspaceName, s.keyspaces));
    forall x ensures x in o <==> Unique(KeyspaceName, s.keyspaces, x) {
      DedupedAre(KeyspaceName, s.keyspaces, x);
    }
    ByName(KeyspaceName, s.keyspaces);
    OutAre(o, PoolNameSet(r.pools), r.modules, k);
    SortedMember(KeyspacePrefix, Keyspaces(o, PoolNameSet(r.pools), r.modules).out, k);
  }

  lemma SortedMember<T>(key: T -> Str, s: seq<T>, x: T)
    ensures x in Sorted(key, s) <==> x in s
  {
    assert x in Sorted(key, s) <==> x in multiset(Sorted(key, s));
    assert x in s <==> x in multiset(s);
  }
}
