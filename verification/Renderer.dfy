/**
  The loops of go/internal/operator/render.go, proved against the
  specification functions of module `Render`.
 */
module Renderer {
  import opened Text
  import opened Lua
  import opened Render
  import opened RenderProperties
  import opened RoundTrip
  import LuaConfig

  lemma {:induction false} ListingOrdered(names: set<Str>)
    ensures DistinctKeys(Itself, Listing(names)) && Ordered(Itself, Listing(names))
  {
    ListingNonDecreasing(names);
    SetDistinct(Listing(names), names);
    StrictlyOrdered(Itself, Listing(names), Listing(names));
  }

  lemma {:induction false} ListingNonDecreasing(names: set<Str>)
    ensures NonDecreasing(Itself, Listing(names))
  {
    if names != {} {
      var n :| n in names && Listing(names) == Insert(Itself, n, Listing(names - {n}));
      ListingNonDecreasing(names - {n});
      InsertNonDecreasing(Itself, n, Listing(names - {n}));
    }
  }

  lemma SetDistinct(s: seq<Str>, names: set<Str>)
    requires multiset(s) == multiset(names)
    ensures DistinctKeys(Itself, s)
  {
    forall i, j | 0 <= i < j < |s| ensures Itself(s[i]) != Itself(s[j]) {
      if s[i] == s[j] {
        assert s[i] in multiset(s);
        assert multiset(names)[s[i]] == 1;
        TwiceInMultiset(s, i, j);
        assert false;
      }
    }
  }

  /** However a map hands out its keys, sorting them gives the listing. */
  lemma SortedKeys(s: seq<Str>, names: set<Str>)
    requires multiset(s) == multiset(names) && NonDecreasing(Itself, s)
    ensures s == Listing(names)
  {
    SetDistinct(s, names);
    StrictlyOrdered(Itself, s, s);
    ListingOrdered(names);
    OrderedUnique(Itself, s, Listing(names));
  }

  method CountNames<T>(items: seq<T>, name: T -> Str) returns (count: map<Str, nat>)
    ensures forall n :: n in count <==> n in multiset(Names(name, items))
    ensures forall n | n in count :: count[n] == multiset(Names(name, items))[n]
  {
    count := map[];
    ghost var names: seq<Str> := [];
    for i := 0 to |items|
      invariant names == Names(name, items[..i]) && Counts(count, names)
    {
      var n := name(items[i]);
      assert items[..i + 1][..i] == items[..i];
      CountOne(count, names, n);
      names := names + [n];
      count := count[n := (if n in count then count[n] else 0) + 1];
    }
    assert items[..|items|] == items;
  }

  ghost predicate Counts(count: map<Str, nat>, names: seq<Str>) {
    && (forall n :: n in count <==> n in multiset(names))
    && (forall n | n in count :: count[n] == multiset(names)[n])
  }

  lemma CountOne(count: map<Str, nat>, names: seq<Str>, n: Str)
    requires Counts(count, names)
    ensures Counts(count[n := (if n in count then count[n] else 0) + 1], names + [n])
  {
    assert multiset(names + [n]) == multiset(names) + multiset{n};
  }

  /** Ranging over the count map in whatever order, then sorting. */
  method ContestedNames(count: map<Str, nat>, ghost names: multiset<Str>) returns (contested: seq<Str>)
    requires forall n :: n in count <==> n in names
    requires forall n | n in count :: count[n] == names[n]
    ensures contested == Listing(Contested(names))
  {
    contested := [];
    var keys := count.Keys;
    while keys != {}
      invariant keys <= count.Keys
      invariant multiset(contested) == multiset(Contested(names) - keys)
      decreases keys
    {
      var n :| n in keys;
      ghost var before := Contested(names) - keys;
      keys := keys - {n};
      if count[n] > 1 {
        assert Contested(names) - keys == before + {n};
        contested := contested + [n];
      } else {
        assert Contested(names) - keys == before;
      }
    }
    assert Contested(names) - keys == Contested(names);
    contested := SortBy(Itself, contested);
    SortedKeys(contested, Contested(names));
  }

  method WarnShared(kind: Kind, contested: seq<Str>, count: map<Str, nat>, ghost names: multiset<Str>)
    returns (warns: seq<Warning>)
    requires forall n | n in contested :: n in count && count[n] == names[n]
    ensures warns == SharedNameWarnings(kind, contested, names)
  {
    warns := [];
    for i := 0 to |contested|
      invariant warns == SharedNameWarnings(kind, contested[..i], names)
    {
      assert contested[..i + 1][..i] == contested[..i];
      warns := warns + [Warning(kind, contested[i], SharedName(count[contested[i]]))];
    }
    assert contested[..|contested|] == contested;
  }

  method KeepUnshared<T>(items: seq<T>, name: T -> Str, count: map<Str, nat>, ghost names: multiset<Str>)
    returns (out: seq<T>)
    requires forall i | 0 <= i < |items| :: name(items[i]) in count && count[name(items[i])] == names[name(items[i])]
    ensures out == Survivors(name, items, names)
  {
    out := [];
    for i := 0 to |items|
      invariant out == Survivors(name, items[..i], names)
    {
      assert items[..i + 1][..i] == items[..i];
      if count[name(items[i])] == 1 {
        out := out + [items[i]];
      }
    }
    assert items[..|items|] == items;
  }

  method DedupByName<T>(kind: Kind, items: seq<T>, name: T -> Str) returns (out: seq<T>, warns: seq<Warning>)
    ensures out == Deduped(name, items)
    ensures warns == DedupWarnings(kind, name, items)
  {
    ghost var names := multiset(Names(name, items));
    var count := CountNames(items, name);
    var contested := ContestedNames(count, names);
    forall n | n in contested ensures n in count && count[n] == names[n] {
      assert n in multiset(contested) && n in Contested(names);
    }
    warns := WarnShared(kind, contested, count, names);
    forall i | 0 <= i < |items| ensures name(items[i]) in count {
      assert Names(name, items)[i] in multiset(Names(name, items));
    }
    out := KeepUnshared(items, name, count, names);
  }

  method FirstBad(items: seq<Str>) returns (r: Option<nat>)
    ensures r == FirstEmpty(items)
    ensures r.Some? ==> r.value < |items| && items[r.value] == [] && forall j | 0 <= j < r.value :: items[j] != []
  {
    for i := 0 to |items|
      invariant FirstEmpty(items[..i]).None?
    {
      assert items[..i + 1][..i] == items[..i];
      if items[i] == [] {
        FirstEmptyStays(items, i + 1);
        return Some(i);
      }
    }
    assert items[..|items|] == items;
    r := None;
  }

  lemma {:induction false} FirstEmptyStays(items: seq<Str>, n: nat)
    requires n <= |items| && FirstEmpty(items[..n]).Some?
    ensures FirstEmpty(items) == FirstEmpty(items[..n])
    decreases |items|
  {
    if n == |items| {
      assert items[..n] == items;
    } else {
      var init := items[..|items| - 1];
      assert init[..n] == items[..n];
      FirstEmptyStays(init, n);
    }
  }

  /** The body of renderablePools' loop, up to the point where the pool is let through. */
  method CheckPool(p: Pool) returns (r: Option<Reason>)
    ensures r == PoolProblem(p)
    ensures r.None? <==> LuaConfig.ValidPool(PoolValue(p))
  {
    PoolKeptIff(p);
    if p.name == [] {
      return Some(EmptyName);
    }
    if p.addrs == [] {
      return Some(NoAddrs);
    }
    var bad := FirstBad(p.addrs);
    if bad.Some? {
      return Some(EmptyAddr(bad.value));
    }
    if p.hash != [] && p.hash !in VALID_HASH {
      return Some(InvalidHash(p.hash));
    }
    if p.dist != [] && p.dist !in VALID_DIST {
      return Some(InvalidDist(p.dist));
    }
    r := None;
  }

  lemma PoolStep(s: seq<Pool>, i: nat)
    requires i < |s|
    ensures KeptPools(s[..i + 1]) == KeptPools(s[..i]) + if PoolProblem(s[i]).None? then [s[i]] else []
    ensures PoolWarnings(s[..i + 1]) == PoolWarnings(s[..i]) +
      if PoolProblem(s[i]).None? then [] else [Warning(PoolKind, s[i].name, PoolProblem(s[i]).value)]
  {
    assert s[..i + 1][..i] == s[..i];
  }

  method RenderablePools(pools: seq<Pool>) returns (out: seq<Pool>, warns: seq<Warning>)
    requires DistinctKeys(PoolName, pools)
    ensures out == KeptPools(Sorted(PoolName, pools))
    ensures warns == PoolWarnings(Sorted(PoolName, pools))
  {
    var sorted := SortBy(PoolName, pools);
    SortIsSorted(PoolName, pools, sorted);
    out, warns := [], [];
    for i := 0 to |sorted|
      invariant out == KeptPools(sorted[..i])
      invariant warns == PoolWarnings(sorted[..i])
    {
      PoolStep(sorted, i);
      var p := sorted[i];
      var problem := CheckPool(p);
      if problem.Some? {
        warns := warns + [Warning(PoolKind, p.name, problem.value)];
      } else {
        out := out + [p];
      }
    }
    assert sorted[..|sorted|] == sorted;
  }

  method IsSafeModuleName(name: Str) returns (safe: bool)
    ensures safe <==> SafeModuleName(name)
  {
    if name == [] {
      return false;
    }
    for i := 0 to |name|
      invariant forall j | 0 <= j < i :: IsAlnum(name[j]) || name[j] == '_' || name[j] == '-'
    {
      var c := name[i];
      var alnum := ('a' <= c <= 'z') || ('A' <= c <= 'Z') || ('0' <= c <= '9');
      if !alnum && c != '_' && c != '-' {
        return false;
      }
    }
    safe := name[0] != '_' && name[0] != '-';
  }

  /** The body of collectModules' loop. */
  method AddModule(st: ModuleState, k: Keyspace) returns (st': ModuleState)
    ensures st' == ModuleStep(st, k)
  {
    st' := st;
    if k.merge.Some? && k.merge.value.wasm != [] {
      var m := k.merge.value;
      var safe := IsSafeModuleName(m.name);
      if !safe {
        st' := st.(warns := st.warns + [Warning(KeyspaceKind, k.name, ModuleInvalidName(m.name))]);
      } else if m.name in BUILTIN_MERGES {
        st' := st.(warns := st.warns + [Warning(KeyspaceKind, k.name, ModuleBuiltin(m.name))]);
      } else if m.name in st.modules {
        if st.modules[m.name] != m.wasm {
          st' := st.(warns := st.warns + [Warning(KeyspaceKind, k.name, ModuleConflict(m.name))]);
        }
      } else {
        st' := st.(modules := st.modules[m.name := m.wasm]);
      }
    }
  }

  method CollectModules(keyspaces: seq<Keyspace>) returns (st: ModuleState)
    requires DistinctKeys(KeyspaceName, keyspaces)
    ensures st == Modules(Sorted(KeyspaceName, keyspaces))
  {
    var sorted := SortBy(KeyspaceName, keyspaces);
    SortIsSorted(KeyspaceName, keyspaces, sorted);
    st := ModuleState(map[], []);
    for i := 0 to |sorted|
      invariant st == Modules(sorted[..i])
    {
      assert sorted[..i + 1][..i] == sorted[..i];
      st := AddModule(st, sorted[i]);
    }
    assert sorted[..|sorted|] == sorted;
  }

  method CheckPoolList(list: seq<Str>, poolNames: set<Str>) returns (r: Option<ListProblem>)
    ensures r == CheckPoolListOf(list, poolNames)
  {
    if list == [] {
      return Some(EmptyList);
    }
    var seen: set<Str> := {};
    for i := 0 to |list|
      invariant ListProblemIn(list, i, poolNames).None?
      invariant forall n :: n in seen <==> n in list[..i]
    {
      assert list[..i + 1] == list[..i] + [list[i]];
      var name := list[i];
      if ListProblemIn(list, i + 1, poolNames).Some? {
        ListProblemStays(list, i + 1, poolNames);
      }
      if name == [] {
        return Some(EmptyItem(i));
      }
      if name !in poolNames {
        return Some(UnknownPool(i, name));
      }
      if name in seen {
        return Some(ListedTwice(name));
      }
      seen := seen + {name};
    }
    r := None;
  }

  lemma {:induction false} ListProblemStays(list: seq<Str>, n: nat, poolNames: set<Str>)
    requires n <= |list| && ListProblemIn(list, n, poolNames).Some?
    ensures ListProblemIn(list, |list|, poolNames) == ListProblemIn(list, n, poolNames)
    decreases |list| - n
  {
    if n < |list| {
      ListProblemStays(list, n + 1, poolNames);
    }
  }

  /** The loop of renderableKeyspaces, before its result is sorted by prefix. */
  method LetKeyspacesThrough(sorted: seq<Keyspace>, poolNames: set<Str>, modules: map<Str, Str>)
    returns (st: KeyspaceState)
    ensures st == Keyspaces(sorted, poolNames, modules)
  {
    st := KeyspaceState([], {}, []);
    for i := 0 to |sorted|
      invariant st == Keyspaces(sorted[..i], poolNames, modules)
    {
      assert sorted[..i + 1][..i] == sorted[..i];
      var k := sorted[i];
      var problem := CheckKeyspace(k, st.seen, poolNames, modules);
      if problem.Some? {
        st := st.(warns := st.warns + [Warning(KeyspaceKind, k.name, problem.value)]);
      } else {
        st := st.(out := st.out + [k], seen := st.seen + {k.prefix});
      }
    }
    assert sorted[..|sorted|] == sorted;
  }

  method RenderableKeyspaces(keyspaces: seq<Keyspace>, poolNames: set<Str>, modules: map<Str, Str>)
    returns (out: seq<Keyspace>, warns: seq<Warning>)
    requires DistinctKeys(KeyspaceName, keyspaces)
    ensures out == Sorted(KeyspacePrefix, Keyspaces(Sorted(KeyspaceName, keyspaces), poolNames, modules).out)
    ensures warns == Keyspaces(Sorted(KeyspaceName, keyspaces), poolNames, modules).warns
  {
    var sorted := SortBy(KeyspaceName, keyspaces);
    SortIsSorted(KeyspaceName, keyspaces, sorted);
    var st := LetKeyspacesThrough(sorted, poolNames, modules);
    KeyspacesFacts(sorted, poolNames, modules);
    out := SortBy(KeyspacePrefix, st.out);
    SortIsSorted(KeyspacePrefix, st.out, out);
    warns := st.warns;
  }

  /** The body of renderableKeyspaces' loop, up to the point where the keyspace is let through. */
  method CheckKeyspace(k: Keyspace, seen: set<Str>, poolNames: set<Str>, modules: map<Str, Str>)
    returns (r: Option<Reason>)
    ensures r == KeyspaceProblem(k, seen, poolNames, modules)
    ensures r.None? <==> Acceptable(k, poolNames, modules) && k.prefix !in seen
  {
    KeyspaceKeptIff(k, poolNames, modules);
    ProblemSeen(k, seen, poolNames, modules);
    if k.prefix == [] {
      return Some(EmptyPrefix);
    }
    if ':' in k.prefix {
      return Some(ColonInPrefix(k.prefix));
    }
    if k.prefix in RESERVED_PREFIXES {
      return Some(ReservedPrefix(k.prefix));
    }
    if k.prefix in seen {
      return Some(DuplicatePrefix(k.prefix));
    }
    var problem := CheckPoolList(k.read, poolNames);
    if problem.Some? {
      return Some(BadReadList(problem.value));
    }
    problem := CheckPoolList(k.write, poolNames);
    if problem.Some? {
      return Some(BadWriteList(problem.value));
    }
    if k.writePolicy != [] && k.writePolicy !in VALID_WRITE_POLICY {
      return Some(InvalidWritePolicy(k.writePolicy));
    }
    if k.merge.Some? && k.merge.value.name !in BUILTIN_MERGES && k.merge.value.name !in modules {
      return Some(UnknownMerge(k.merge.value.name));
    }
    r := None;
  }

  method LuaQuoteByte(c: Byte) returns (b: Str)
    ensures b == QuoteByte(c)
  {
    if c == '"' || c == '\\' {
      b := ['\\', c];
    } else if c as int >= 0x20 && c as int < 0x7f {
      b := [c];
    } else {
      b := ['\\', Digit(c as int / 100), Digit(c as int / 10 % 10), Digit(c as int % 10)];
    }
  }

  method LuaQuote(s: Str) returns (b: Str)
    ensures b == Quote(s)
  {
    b := ['"'];
    for i := 0 to |s|
      invariant b + QuoteBody(s[i..]) == ['"'] + QuoteBody(s)
    {
      assert s[i..] == [s[i]] + s[i + 1..];
      var q := LuaQuoteByte(s[i]);
      b := b + q;
    }
    assert s[|s|..] == [];
    b := b + ['"'];
  }

  method LuaQuoteList(items: seq<Str>) returns (r: Str)
    ensures r == QuoteList(items)
  {
    r := [];
    for i := 0 to |items|
      invariant r == QuoteList(items[..i])
    {
      var q := LuaQuote(items[i]);
      assert items[..i + 1][..i] == items[..i];
      r := if i == 0 then q else r + LIST_SEPARATOR + q;
    }
    assert items[..|items|] == items;
  }

  method WritePool(p: Pool) returns (b: Str)
    ensures b == PoolText(p)
  {
    var name := LuaQuote(p.name);
    var addrs := LuaQuoteList(p.addrs);
    b := POOL_OPEN + name + POOL_ADDRS + addrs + LIST_CLOSE;
    if p.hash != [] {
      var hash := LuaQuote(p.hash);
      b := b + (POOL_HASH + hash);
    }
    if p.dist != [] {
      var dist := LuaQuote(p.dist);
      b := b + (POOL_DIST + dist);
    }
    b := b + ITEM_CLOSE;
  }

  method WriteKeyspace(k: Keyspace) returns (b: Str)
    ensures b == KeyspaceText(k)
  {
    var prefix := LuaQuote(k.prefix);
    var read := LuaQuoteList(k.read);
    var write := LuaQuoteList(k.write);
    b := KEYSPACE_OPEN + prefix + LINE_END + KEYSPACE_READ + read + ITEM_CLOSE + KEYSPACE_WRITE + write + LIST_CLOSE;
    if k.writePolicy != [] {
      var policy := LuaQuote(k.writePolicy);
      b := b + (KEYSPACE_POLICY + policy);
    }
    if k.merge.Some? {
      var merge := LuaQuote(k.merge.value.name);
      b := b + (KEYSPACE_MERGE + merge);
    }
    b := b + ITEM_CLOSE;
  }

  method WritePools(pools: seq<Pool>) returns (b: Str)
    ensures b == PoolTexts(pools)
  {
    b := [];
    for i := 0 to |pools|
      invariant b == PoolTexts(pools[..i])
    {
      assert pools[..i + 1][..i] == pools[..i];
      var item := WritePool(pools[i]);
      b := b + item;
    }
    assert pools[..|pools|] == pools;
  }

  method WriteKeyspaces(keyspaces: seq<Keyspace>) returns (b: Str)
    ensures b == KeyspaceTexts(keyspaces)
  {
    b := [];
    for i := 0 to |keyspaces|
      invariant b == KeyspaceTexts(keyspaces[..i])
    {
      assert keyspaces[..i + 1][..i] == keyspaces[..i];
      var item := WriteKeyspace(keyspaces[i]);
      b := b + item;
    }
    assert keyspaces[..|keyspaces|] == keyspaces;
  }

  method RenderConfig(pools: seq<Pool>, keyspaces: seq<Keyspace>) returns (b: Str)
    ensures b == ConfigText(pools, keyspaces)
  {
    var ps := WritePools(pools);
    var ks := WriteKeyspaces(keyspaces);
    b := CONFIG_OPEN + POOLS_OPEN + ps + SECTION_CLOSE + KEYSPACES_OPEN + ks + SECTION_CLOSE + CONFIG_CLOSE;
  }

  /** Render: the files and the warnings of a snapshot. */
  method RenderSnapshot(s: Snapshot) returns (files: map<Str, Str>, warns: seq<Warning>)
    ensures files == Tree(RenderOf(s)) && warns == RenderOf(s).warns
  {
    var uniquePools, w0 := DedupByName(PoolKind, s.pools, PoolName);
    DedupedDistinct(PoolName, s.pools);
    var pools, w1 := RenderablePools(uniquePools);
    var keyspaces, w2 := DedupByName(KeyspaceKind, s.keyspaces, KeyspaceName);
    DedupedDistinct(KeyspaceName, s.keyspaces);
    var mods := CollectModules(keyspaces);
    var rendered, w4 := RenderableKeyspaces(keyspaces, PoolNameSet(pools), mods.modules);
    var text := RenderConfig(pools, rendered);
    files := TreeOf(text, mods.modules);
    warns := w0 + w1 + w2 + mods.warns + w4;
  }
}
