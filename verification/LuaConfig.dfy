/**
  The gateway's config validator (lua/mcgateway/config.lua). `Accepts` states
  which tables load, by quantifiers; `Normalized` the table the validator leaves
  behind after filling in defaults. `Validate` is the Lua code, loop by loop.
 */
module LuaConfig {
  import opened Text
  import opened Lua

  const VALID_HASH: set<Str> := {"xxhash", "md5", "crc32"}
  const VALID_DIST: set<Str> := {"ring_hash", "jump_hash"}
  const VALID_WRITE_POLICY: set<Str> := {"all", "first"}
  const RESERVED_PREFIXES: set<Str> := {"__udf", "__mcgw"}
  // Field names.
  const NAME: Str := "name"
  const ADDRS: Str := "addrs"
  const HASH: Str := "hash"
  const DIST: Str := "dist"
  const PREFIX: Str := "prefix"
  const READ: Str := "read"
  const WRITE: Str := "write"
  const WRITE_POLICY: Str := "write_policy"
  const MERGE: Str := "merge"
  const POOLS: Str := "pools"
  const KEYSPACES: Str := "keyspaces"
  const REQUIRED_FLAGS: Str := "required_flags"

  const DEFAULT_MERGE: Str := "first-hit"
  const DEFAULT_WRITE_POLICY: Str := "all"

  /** Merge name to its required flags: what `mcgw_native.required_flags` answers, or fails for. */
  type Registry = map<Str, Str>

  /** Indexing a table with a string key. */
  function Get(v: Value, key: Str): Value
    requires v.Table?
  {
    if key in v.named then v.named[key] else Nil
  }

  predicate NonEmptyString(v: Value) {
    v.String? && v.s != []
  }

  predicate NonEmptyList(v: Value) {
    v.Table? && v.list != []
  }

  /** `x == nil or VALID[x]`. */
  predicate NilOrOneOf(v: Value, valid: set<Str>) {
    v == Nil || (v.String? && v.s in valid)
  }

  // ---------------------------------------------------------------- what is accepted

  predicate ValidPool(p: Value) {
    && p.Table?
    && NonEmptyString(Get(p, NAME))
    && NonEmptyList(Get(p, ADDRS))
    && (forall i | 0 <= i < |Get(p, ADDRS).list| :: NonEmptyString(Get(p, ADDRS).list[i]))
    && NilOrOneOf(Get(p, HASH), VALID_HASH)
    && NilOrOneOf(Get(p, DIST), VALID_DIST)
  }

  /** as_pool_list: a bare string stands for the one-element list. */
  function AsPoolList(v: Value): Value {
    if v.String? then Table([v], map[]) else v
  }

  predicate ValidPoolList(v: Value, poolNames: set<Str>) {
    && NonEmptyList(v)
    && (forall i | 0 <= i < |v.list| :: NonEmptyString(v.list[i]) && v.list[i].s in poolNames)
    && (forall i, j | 0 <= i < j < |v.list| :: v.list[i] != v.list[j])
  }

  /** Everything about a keyspace but its merge lookup and its prefix being new. */
  predicate ValidKeyspace(ks: Value, poolNames: set<Str>) {
    && ks.Table?
    && NonEmptyString(Get(ks, PREFIX))
    && ':' !in Get(ks, PREFIX).s
    && Get(ks, PREFIX).s !in RESERVED_PREFIXES
    && ValidPoolList(AsPoolList(Get(ks, READ)), poolNames)
    && ValidPoolList(AsPoolList(Get(ks, WRITE)), poolNames)
    && NilOrOneOf(Get(ks, WRITE_POLICY), VALID_WRITE_POLICY)
    && (Get(ks, MERGE) == Nil || Get(ks, MERGE).String?)
  }

  /** The merge a keyspace dispatches through, the default included. */
  function MergeOf(ks: Value): Str {
    if ks.Table? && Get(ks, MERGE).String? then Get(ks, MERGE).s else DEFAULT_MERGE
  }

  /** The names in the sequence part of a list of tables, under a string field. */
  function FieldSet(items: seq<Value>, field: Str): (r: set<Str>)
    ensures forall s :: s in r <==> exists i | 0 <= i < |items| :: items[i].Table? && Get(items[i], field) == String(s)
  {
    if items == [] then {}
    else
      var init, last := FieldSet(items[..|items| - 1], field), items[|items| - 1];
      if last.Table? && Get(last, field).String? then init + {Get(last, field).s} else init
  }

  predicate HasSections(cfg: Value) {
    cfg.Table? && Get(cfg, POOLS).Table? && Get(cfg, KEYSPACES).Table?
  }

  function PoolsOf(cfg: Value): seq<Value>
    requires HasSections(cfg)
  {
    Get(cfg, POOLS).list
  }

  function KeyspacesOf(cfg: Value): seq<Value>
    requires HasSections(cfg)
  {
    Get(cfg, KEYSPACES).list
  }

  ghost predicate DistinctField(items: seq<Value>, field: Str)
    requires forall i | 0 <= i < |items| :: items[i].Table?
  {
    forall i, j | 0 <= i < j < |items| :: Get(items[i], field) != Get(items[j], field)
  }

  /** The part of validity that does not consult the merge registry. */
  ghost predicate WellFormed(cfg: Value) {
    && HasSections(cfg)
    && (forall i | 0 <= i < |PoolsOf(cfg)| :: ValidPool(PoolsOf(cfg)[i]))
    && DistinctField(PoolsOf(cfg), NAME)
    && (forall i | 0 <= i < |KeyspacesOf(cfg)| :: ValidKeyspace(KeyspacesOf(cfg)[i], FieldSet(PoolsOf(cfg), NAME)))
    && DistinctField(KeyspacesOf(cfg), PREFIX)
  }

  /** Which configs load against a registry. */
  ghost predicate Accepts(cfg: Value, registry: Registry) {
    && WellFormed(cfg)
    && forall i | 0 <= i < |KeyspacesOf(cfg)| :: MergeOf(KeyspacesOf(cfg)[i]) in registry
  }

  // ---------------------------------------------------------------- what is left behind

  function NormalKeyspace(ks: Value, flags: Str): Value
    requires ks.Table?
  {
    var policy := if Get(ks, WRITE_POLICY) == Nil then String(DEFAULT_WRITE_POLICY) else Get(ks, WRITE_POLICY);
    ks.(named := ks.named
      [READ := AsPoolList(Get(ks, READ))]
      [WRITE := AsPoolList(Get(ks, WRITE))]
      [WRITE_POLICY := policy]
      [MERGE := String(MergeOf(ks))]
      [REQUIRED_FLAGS := String(flags)])
  }

  /** The validated table, keyspace `i` carrying the flags its lookup returned. */
  function Normalized(cfg: Value, flags: seq<Str>): Value
    requires HasSections(cfg) && |flags| == |KeyspacesOf(cfg)|
    requires forall i | 0 <= i < |KeyspacesOf(cfg)| :: KeyspacesOf(cfg)[i].Table?
  {
    var ks := KeyspacesOf(cfg);
    var list := seq(|ks|, i requires 0 <= i < |ks| => NormalKeyspace(ks[i], flags[i]));
    cfg.(named := cfg.named[KEYSPACES := Get(cfg, KEYSPACES).(list := list)])
  }

  function FlagsFrom(cfg: Value, registry: Registry): (r: seq<Str>)
    requires HasSections(cfg)
    requires forall i | 0 <= i < |KeyspacesOf(cfg)| :: MergeOf(KeyspacesOf(cfg)[i]) in registry
    ensures |r| == |KeyspacesOf(cfg)|
    ensures forall i | 0 <= i < |r| :: r[i] == registry[MergeOf(KeyspacesOf(cfg)[i])]
  {
    var ks := KeyspacesOf(cfg);
    seq(|ks|, i requires 0 <= i < |ks| => registry[MergeOf(ks[i])])
  }

  /** A bare string stands for the one-element list; anything else is kept. */
  ghost predicate AsGiven(given: Value, kept: Value) {
    kept == if given.String? then Table([given], map[]) else given
  }

  /**
    What validation leaves of a keyspace, field by field: its own lists, its own
    policy and merge or the defaults, the flags of that merge, and everything
    else as it was.
   */
  ghost predicate FilledIn(ks: Value, out: Value, flags: Str) {
    && ks.Table? && out.Table? && out.list == ks.list
    && AsGiven(Get(ks, READ), Get(out, READ)) && AsGiven(Get(ks, WRITE), Get(out, WRITE))
    && Get(out, WRITE_POLICY) ==
         (if Get(ks, WRITE_POLICY) == Nil then String(DEFAULT_WRITE_POLICY) else Get(ks, WRITE_POLICY))
    && Get(out, MERGE) == (if Get(ks, MERGE) == Nil then String(DEFAULT_MERGE) else Get(ks, MERGE))
    && Get(out, REQUIRED_FLAGS) == String(flags)
    && forall f: Str :: f !in {READ, WRITE, WRITE_POLICY, MERGE, REQUIRED_FLAGS} ==> Get(out, f) == Get(ks, f)
  }

  lemma Defaults()
    ensures DEFAULT_WRITE_POLICY == "all" && DEFAULT_MERGE == "first-hit"
  {
  }

  lemma FilledFieldsDistinct()
    ensures READ != WRITE && READ != WRITE_POLICY && READ != MERGE && READ != REQUIRED_FLAGS
    ensures WRITE != WRITE_POLICY && WRITE != MERGE && WRITE != REQUIRED_FLAGS
    ensures WRITE_POLICY != MERGE && WRITE_POLICY != REQUIRED_FLAGS && MERGE != REQUIRED_FLAGS
  {
    assert |READ| == 4 && |WRITE| == 5 && |WRITE_POLICY| == 12 && |MERGE| == 5 && |REQUIRED_FLAGS| == 14;
    assert WRITE[0] == 'w' && MERGE[0] == 'm';
  }

  lemma NormalFills(ks: Value, flags: Str)
    requires ks.Table? && (Get(ks, MERGE) == Nil || Get(ks, MERGE).String?)
    ensures FilledIn(ks, NormalKeyspace(ks, flags), flags)
  {
    FilledFieldsDistinct();
  }

  /** What validation leaves of a config: the pools and all else as they were, each keyspace filled in. */
  ghost predicate Filled(cfg: Value, out: Value, flags: seq<Str>) {
    && HasSections(cfg) && out.Table? && out.list == cfg.list
    && (forall f: Str :: f != KEYSPACES ==> Get(out, f) == Get(cfg, f))
    && Get(out, KEYSPACES).Table? && Get(out, KEYSPACES).named == Get(cfg, KEYSPACES).named
    && |Get(out, KEYSPACES).list| == |flags| == |KeyspacesOf(cfg)|
    && forall i | 0 <= i < |flags| :: FilledIn(KeyspacesOf(cfg)[i], Get(out, KEYSPACES).list[i], flags[i])
  }

  lemma NormalizedFills(cfg: Value, flags: seq<Str>)
    requires WellFormed(cfg) && |flags| == |KeyspacesOf(cfg)|
    ensures Filled(cfg, Normalized(cfg, flags), flags)
  {
    var ks := KeyspacesOf(cfg);
    forall i | 0 <= i < |ks| ensures FilledIn(ks[i], NormalKeyspace(ks[i], flags[i]), flags[i]) {
      NormalFills(ks[i], flags[i]);
    }
  }

  // ---------------------------------------------------------------- the Lua code

  method ValidatePool(p: Value, seen: set<Str>) returns (ok: bool, seen': set<Str>)
    ensures ok <==> ValidPool(p) && Get(p, NAME).s !in seen
    ensures ok ==> seen' == seen + {Get(p, NAME).s}
  {
    seen' := seen;
    if !p.Table? || !NonEmptyString(Get(p, NAME)) {
      return false, seen';
    }
    if Get(p, NAME).s in seen {
      return false, seen';
    }
    seen' := seen + {Get(p, NAME).s};
    var addrs := Get(p, ADDRS);
    if !NonEmptyList(addrs) {
      return false, seen';
    }
    for i := 0 to |addrs.list|
      invariant forall j | 0 <= j < i :: NonEmptyString(addrs.list[j])
    {
      if !NonEmptyString(addrs.list[i]) {
        return false, seen';
      }
    }
    if !NilOrOneOf(Get(p, HASH), VALID_HASH) {
      return false, seen';
    }
    if !NilOrOneOf(Get(p, DIST), VALID_DIST) {
      return false, seen';
    }
    ok := true;
  }

  method ValidatePoolList(v: Value, poolNames: set<Str>) returns (ok: bool)
    ensures ok <==> ValidPoolList(v, poolNames)
  {
    if !NonEmptyList(v) {
      return false;
    }
    var seen: set<Str> := {};
    for i := 0 to |v.list|
      invariant forall j | 0 <= j < i :: NonEmptyString(v.list[j]) && v.list[j].s in poolNames && v.list[j].s in seen
      invariant forall s | s in seen :: exists j | 0 <= j < i :: v.list[j] == String(s)
      invariant forall j, k | 0 <= j < k < i :: v.list[j] != v.list[k]
    {
      if !NonEmptyString(v.list[i]) {
        return false;
      }
      var name := v.list[i].s;
      if name !in poolNames {
        return false;
      }
      if name in seen {
        return false;
      }
      seen := seen + {name};
    }
    ok := true;
  }

  method ValidateKeyspace(ks: Value, seen: set<Str>, poolNames: set<Str>, registry: Registry)
    returns (r: Option<Value>, seen': set<Str>)
    ensures r.Some? <==> ValidKeyspace(ks, poolNames) && Get(ks, PREFIX).s !in seen && MergeOf(ks) in registry
    ensures r.Some? ==> r.value == NormalKeyspace(ks, registry[MergeOf(ks)]) && seen' == seen + {Get(ks, PREFIX).s}
    ensures r.Some? ==> FilledIn(ks, r.value, registry[MergeOf(ks)])
  {
    seen' := seen;
    if !ks.Table? || !NonEmptyString(Get(ks, PREFIX)) {
      return None, seen';
    }
    var prefix := Get(ks, PREFIX).s;
    if ':' in prefix || prefix in RESERVED_PREFIXES || prefix in seen {
      return None, seen';
    }
    seen' := seen + {prefix};
    var t := ks.named[READ := AsPoolList(Get(ks, READ))];
    t := t[WRITE := AsPoolList(Get(ks, WRITE))];
    var ok := ValidatePoolList(t[READ], poolNames);
    if !ok {
      return None, seen';
    }
    ok := ValidatePoolList(t[WRITE], poolNames);
    if !ok {
      return None, seen';
    }
    if Get(ks, WRITE_POLICY) == Nil {
      t := t[WRITE_POLICY := String(DEFAULT_WRITE_POLICY)];
    } else if !Get(ks, WRITE_POLICY).String? || Get(ks, WRITE_POLICY).s !in VALID_WRITE_POLICY {
      return None, seen';
    } else {
      t := t[WRITE_POLICY := Get(ks, WRITE_POLICY)];
    }
    if Get(ks, MERGE) == Nil {
      t := t[MERGE := String(DEFAULT_MERGE)];
    } else {
      t := t[MERGE := Get(ks, MERGE)];
    }
    if !t[MERGE].String? || t[MERGE].s !in registry {
      return None, seen';
    }
    t := t[REQUIRED_FLAGS := String(registry[t[MERGE].s])];
    r := Some(ks.(named := t));
    NormalFills(ks, registry[MergeOf(ks)]);
  }

  /** The first loop of `validate`. */
  method ValidatePools(pools: seq<Value>) returns (ok: bool, poolNames: set<Str>)
    ensures ok <==> (forall i | 0 <= i < |pools| :: ValidPool(pools[i])) && DistinctField(pools, NAME)
    ensures ok ==> poolNames == FieldSet(pools, NAME)
  {
    poolNames := {};
    for i := 0 to |pools|
      invariant forall j | 0 <= j < i :: ValidPool(pools[j])
      invariant poolNames == FieldSet(pools[..i], NAME)
      invariant DistinctField(pools[..i], NAME)
    {
      assert pools[..i + 1][..i] == pools[..i];
      var fine, seen := ValidatePool(pools[i], poolNames);
      if !fine {
        RejectRepeat(pools, i, NAME);
        return false, poolNames;
      }
      AcceptFresh(pools, i, NAME);
      poolNames := seen;
    }
    assert pools[..|pools|] == pools;
    ok := true;
  }

  /** The keyspaces all pass, and no two share a prefix. */
  ghost predicate Passing(ks: seq<Value>, poolNames: set<Str>, registry: Registry) {
    && (forall i | 0 <= i < |ks| :: ValidKeyspace(ks[i], poolNames) && MergeOf(ks[i]) in registry)
    && DistinctField(ks, PREFIX)
  }

  /** `list` is what validation leaves behind of them. */
  ghost predicate Normal(ks: seq<Value>, list: seq<Value>, registry: Registry) {
    && |list| == |ks|
    && forall i | 0 <= i < |ks| ::
         ks[i].Table? && MergeOf(ks[i]) in registry && list[i] == NormalKeyspace(ks[i], registry[MergeOf(ks[i])])
  }

  lemma FieldSetStep(items: seq<Value>, i: nat, field: Str)
    requires i < |items|
    ensures FieldSet(items[..i + 1], field) ==
      FieldSet(items[..i], field) +
      if items[i].Table? && Get(items[i], field).String? then {Get(items[i], field).s} else {}
  {
    assert items[..i + 1][..i] == items[..i];
  }

  lemma PassingStep(ks: seq<Value>, i: nat, poolNames: set<Str>, registry: Registry)
    requires i < |ks| && Passing(ks[..i], poolNames, registry)
    requires ValidKeyspace(ks[i], poolNames) && MergeOf(ks[i]) in registry
    requires Get(ks[i], PREFIX).s !in FieldSet(ks[..i], PREFIX)
    ensures Passing(ks[..i + 1], poolNames, registry)
  {
    PassingAdd(ks[..i], ks[i], poolNames, registry);
    assert ks[..i + 1] == ks[..i] + [ks[i]];
  }

  lemma NormalNext(ks: seq<Value>, i: nat, list: seq<Value>, registry: Registry)
    requires i < |ks| && Normal(ks[..i], list, registry) && ks[i].Table? && MergeOf(ks[i]) in registry
    ensures Normal(ks[..i + 1], list + [NormalKeyspace(ks[i], registry[MergeOf(ks[i])])], registry)
  {
    NormalStep(ks[..i], list, ks[i], registry);
    assert ks[..i + 1] == ks[..i] + [ks[i]];
  }

  lemma PassingAdd(ks: seq<Value>, k: Value, poolNames: set<Str>, registry: Registry)
    requires Passing(ks, poolNames, registry) && ValidKeyspace(k, poolNames) && MergeOf(k) in registry
    requires Get(k, PREFIX).s !in FieldSet(ks, PREFIX)
    ensures Passing(ks + [k], poolNames, registry)
  {
    ValidStep(ks, k, poolNames, registry);
    assert (ks + [k])[..|ks|] == ks && (ks + [k])[..|ks| + 1] == ks + [k];
    AcceptFresh(ks + [k], |ks|, PREFIX);
  }

  lemma NormalStep(ks: seq<Value>, list: seq<Value>, k: Value, registry: Registry)
    requires Normal(ks, list, registry) && k.Table? && MergeOf(k) in registry
    ensures Normal(ks + [k], list + [NormalKeyspace(k, registry[MergeOf(k)])], registry)
  {
  }

  lemma ValidStep(ks: seq<Value>, k: Value, poolNames: set<Str>, registry: Registry)
    requires Passing(ks, poolNames, registry) && ValidKeyspace(k, poolNames) && MergeOf(k) in registry
    ensures forall i | 0 <= i < |ks + [k]| ::
      ValidKeyspace((ks + [k])[i], poolNames) && MergeOf((ks + [k])[i]) in registry
  {
  }

  lemma PassingStops(ks: seq<Value>, i: nat, poolNames: set<Str>, registry: Registry)
    requires i < |ks|
    requires
      !(ValidKeyspace(ks[i], poolNames) && Get(ks[i], PREFIX).s !in FieldSet(ks[..i], PREFIX) &&
        MergeOf(ks[i]) in registry)
    ensures !Passing(ks, poolNames, registry)
  {
    RejectRepeat(ks, i, PREFIX);
  }

  /** The second loop of `validate`. */
  method ValidateKeyspaces(ks: seq<Value>, poolNames: set<Str>, registry: Registry) returns (r: Option<seq<Value>>)
    ensures r.Some? <==> Passing(ks, poolNames, registry)
    ensures r.Some? ==> Normal(ks, r.value, registry)
  {
    var prefixes: set<Str> := {};
    var list: seq<Value> := [];
    for i := 0 to |ks|
      invariant prefixes == FieldSet(ks[..i], PREFIX)
      invariant Passing(ks[..i], poolNames, registry) && Normal(ks[..i], list, registry)
    {
      FieldSetStep(ks, i, PREFIX);
      var k, seen := ValidateKeyspace(ks[i], prefixes, poolNames, registry);
      if k.None? {
        PassingStops(ks, i, poolNames, registry);
        return None;
      }
      PassingStep(ks, i, poolNames, registry);
      NormalNext(ks, i, list, registry);
      prefixes := seen;
      list := list + [k.value];
    }
    assert ks[..|ks|] == ks;
    r := Some(list);
  }

  method Validate(cfg: Value, registry: Registry) returns (r: Option<Value>)
    ensures r.Some? <==> Accepts(cfg, registry)
    ensures r.Some? ==> r.value == Normalized(cfg, FlagsFrom(cfg, registry))
    ensures r.Some? ==> Filled(cfg, r.value, FlagsFrom(cfg, registry))
  {
    if !HasSections(cfg) {
      return None;
    }
    var ok, poolNames := ValidatePools(PoolsOf(cfg));
    if !ok {
      return None;
    }
    var list := ValidateKeyspaces(KeyspacesOf(cfg), poolNames, registry);
    if list.None? {
      return None;
    }
    assert list.value == Get(Normalized(cfg, FlagsFrom(cfg, registry)), KEYSPACES).list;
    r := Some(cfg.(named := cfg.named[KEYSPACES := Get(cfg, KEYSPACES).(list := list.value)]));
    NormalizedFills(cfg, FlagsFrom(cfg, registry));
  }

  lemma RejectRepeat(items: seq<Value>, i: nat, field: Str)
    requires i < |items|
    ensures items[i].Table? && Get(items[i], field).String? && Get(items[i], field).s in FieldSet(items[..i], field)
        ==> exists j | 0 <= j < i :: items[j].Table? && Get(items[j], field) == Get(items[i], field)
  {
    if items[i].Table? && Get(items[i], field).String? && Get(items[i], field).s in FieldSet(items[..i], field) {
      var j :| 0 <= j < |items[..i]| && items[..i][j].Table? &&
        Get(items[..i][j], field) == String(Get(items[i], field).s);
      assert items[j] == items[..i][j];
    }
  }

  lemma AcceptFresh(items: seq<Value>, i: nat, field: Str)
    requires i < |items| && forall j | 0 <= j <= i :: items[j].Table?
    requires Get(items[i], field).String? && Get(items[i], field).s !in FieldSet(items[..i], field)
    requires DistinctField(items[..i], field)
    ensures DistinctField(items[..i + 1], field)
  {
    forall j | 0 <= j < i ensures Get(items[j], field) != Get(items[i], field) {
      assert items[..i][j] == items[j];
    }
    var t := items[..i + 1];
    forall j, k | 0 <= j < k < |t| ensures Get(t[j], field) != Get(t[k], field) {
      if k < i {
        assert t[j] == items[..i][j] && t[k] == items[..i][k];
      }
    }
  }
}
