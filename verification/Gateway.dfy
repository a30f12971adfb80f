/**
  The pieces of the gateway a reload touches: the directory scan
  (udf_loader.rs), the composite merge registry (registries.rs, rescan_into in
  lib.rs) and the config module state with its last-good fallback
  (lua/mcgateway.lua).
 */
module Gateway {
  import opened Text
  import opened Lua
  import opened Commit
  import opened Render
  import LuaConfig

  /**
    What is foreign to this model. `load` compiles and instantiates a module of
    a given name and yields the flags it declares; `None` also covers a name that
    is not UTF-8. `eval` runs a config chunk and yields the value it returns.
    `lists` says whether the n-th rescan can list the directory.
   */
  datatype Env = Env(load: (Str, Str) -> Option<Str>, eval: Str -> Option<Value>, lists: nat -> bool)

  const FIRST_HIT: Str := "first-hit"
  const POOL_PREFERRED: Str := "pool-preferred"
  const LAST_WRITE_WINS: Str := "last-write-wins"
  const NO_FLAGS: Str := []
  const TTL_FLAG: Str := "t"

  /** The native merges with the flags they ask for. */
  const NATIVE: map<Str, Str> := map[FIRST_HIT := NO_FLAGS, POOL_PREFERRED := NO_FLAGS, LAST_WRITE_WINS := TTL_FLAG]

  /** builtinMerges on the Go side names exactly the natives. */
  lemma NativeAgrees()
    ensures NATIVE.Keys == BUILTIN_MERGES
  {
  }

  // ---------------------------------------------------------------- scanning

  /** File stems of the modules in udf/. A file called just `.wasm` has no extension, so no stem. */
  function Stems(files: Files): set<Str> {
    set p | p in files && IsModule(p) && |p| > |UDF_PREFIX| + |WASM_SUFFIX| :: p[|UDF_PREFIX|..|p| - |WASM_SUFFIX|]
  }

  /** What one file contributes to the table. */
  function LoadedFlags(env: Env, files: Files, name: Str): Option<Str> {
    if name in NATIVE || ModulePath(name) !in files then None else env.load(name, files[ModulePath(name)])
  }

  /** The table a scan of the directory builds. */
  ghost function Scan(env: Env, files: Files): map<Str, Str> {
    map n | n in Stems(files) && LoadedFlags(env, files, n).Some? :: LoadedFlags(env, files, n).value
  }


  /** What the natives ask for: last-write-wins the meta `t` flag, the others nothing. */
  lemma NativeFlags()
    ensures NATIVE == map["first-hit" := [], "pool-preferred" := [], "last-write-wins" := ['t']]
  {
  }

  lemma StemPath(files: Files, n: Str)
    requires n in Stems(files)
    ensures ModulePath(n) in files && n != [] && '/' !in n
  {
    var p :| p in files && IsModule(p) && |p| > |UDF_PREFIX| + |WASM_SUFFIX| &&
      n == p[|UDF_PREFIX|..|p| - |WASM_SUFFIX|];
    InDirSuffix(UDF_PREFIX, WASM_SUFFIX, p);
    SplitPath(UDF_PREFIX, WASM_SUFFIX, p);
  }

  lemma SplitPath(dir: Str, suffix: Str, p: Str)
    requires |p| >= |dir| + |suffix| && HasPrefix(p, dir) && HasSuffix(p, suffix) && '/' !in p[|dir|..]
    ensures p == dir + p[|dir|..|p| - |suffix|] + suffix
    ensures '/' !in p[|dir|..|p| - |suffix|]
  {
    assert forall c | c in p[|dir|..|p| - |suffix|] :: c in p[|dir|..];
  }

  lemma StemOf(files: Files, n: Str)
    requires ModulePath(n) in files && n != [] && '/' !in n
    ensures n in Stems(files)
  {
    var p := ModulePath(n);
    JoinPath(UDF_PREFIX, n, WASM_SUFFIX);
    assert '/' !in WASM_SUFFIX;
    assert IsModule(p);
    assert p[|UDF_PREFIX|..|p| - |WASM_SUFFIX|] == n;
  }

  lemma JoinPath(dir: Str, n: Str, suffix: Str)
    ensures var p := dir + n + suffix;
      && HasPrefix(p, dir) && p[|dir|..] == n + suffix && HasSuffix(n + suffix, suffix)
      && |p| == |dir| + |n| + |suffix| && p[|dir|..|p| - |suffix|] == n
  {
    AppendSuffix(n, suffix);
  }

  /**
    The table holds exactly the files that are named like a module, not like a
    native merge, and load; each asks for the flags its load declared.
   */
  lemma ScannedFlags(env: Env, files: Files, n: Str, flags: Str)
    ensures n in Scan(env, files) && Scan(env, files)[n] == flags <==>
      && ModulePath(n) in files && n != [] && '/' !in n && n !in NATIVE
      && env.load(n, files[ModulePath(n)]) == Some(flags)
  {
    if n in Stems(files) {
      StemPath(files, n);
    } else if ModulePath(n) in files && n != [] && '/' !in n {
      StemOf(files, n);
    }
  }

  /** A table that has taken in the files of `stems` other than those still to do. */
  ghost predicate Partial(flags: Str -> Option<Str>, stems: set<Str>, todo: set<Str>, table: map<Str, Str>) {
    && (forall n :: n in table <==> n in stems && n !in todo && flags(n).Some?)
    && (forall n | n in table :: flags(n) == Some(table[n]))
  }

  lemma PartialStep(flags: Str -> Option<Str>, stems: set<Str>, todo: set<Str>, table: map<Str, Str>, n: Str)
    requires Partial(flags, stems, todo, table) && n in todo && todo <= stems
    ensures Partial(flags, stems, todo - {n}, if flags(n).Some? then table[n := flags(n).value] else table)
  {
  }

  lemma PartialDone(env: Env, files: Files, table: map<Str, Str>)
    requires Partial(n => LoadedFlags(env, files, n), Stems(files), {}, table)
    ensures table == Scan(env, files)
  {
    var f := n => LoadedFlags(env, files, n);
    forall n ensures n in table <==> n in Scan(env, files) {
      assert f(n) == LoadedFlags(env, files, n);
    }
    forall n | n in table ensures table[n] == Scan(env, files)[n] {
      assert f(n) == LoadedFlags(env, files, n);
    }
  }

  /** The loop of scan_dir over the directory's files, in whatever order they are listed. */
  method LoadAll(flags: Str -> Option<Str>, stems: set<Str>) returns (table: map<Str, Str>)
    ensures Partial(flags, stems, {}, table)
  {
    table := map[];
    var todo := stems;
    while todo != {}
      invariant todo <= stems && Partial(flags, stems, todo, table)
      decreases todo
    {
      var n :| n in todo;
      PartialStep(flags, stems, todo, table, n);
      todo := todo - {n};
      if flags(n).Some? {
        table := table[n := flags(n).value];
      }
    }
  }

  /** scan_dir: a table built afresh, so a module that no longer loads is dropped. */
  method ScanDir(env: Env, files: Files) returns (table: map<Str, Str>)
    ensures table == Scan(env, files)
  {
    table := LoadAll(n => LoadedFlags(env, files, n), Stems(files));
    PartialDone(env, files, table);
  }

  // ---------------------------------------------------------------- the registry

  /** The composite lookup: natives first, then the WASM table. */
  function Composite(wasm: map<Str, Str>): LuaConfig.Registry {
    wasm + NATIVE
  }

  /** Whatever the table holds, a native answers under its own name and the table under any other. */
  lemma NativesWin(wasm: map<Str, Str>, n: Str)
    ensures n in Composite(wasm) <==> n in NATIVE || n in wasm
    ensures n in NATIVE ==> Composite(wasm)[n] == NATIVE[n]
    ensures n !in NATIVE && n in wasm ==> Composite(wasm)[n] == wasm[n]
  {
  }

  class Registries {
    var wasm: map<Str, Str>
    /** How often the directory has been scanned. */
    var scans: nat

    constructor ()
      ensures wasm == map[] && scans == 0
    {
      wasm := map[];
      scans := 0;
    }

    /** `None` if no such merge is registered. */
    method RequiredFlags(name: Str) returns (r: Option<Str>)
      ensures r.Some? <==> name in Composite(wasm)
      ensures r.Some? ==> r.value == Composite(wasm)[name]
    {
      if name in NATIVE {
        return Some(NATIVE[name]);
      }
      r := if name in wasm then Some(wasm[name]) else None;
    }

    method Has(name: Str) returns (r: bool)
      ensures r <==> name in Composite(wasm)
    {
      r := name in NATIVE || name in wasm;
    }

    /** rescan_into: a scan that can list the directory replaces the table, otherwise the previous one stays. */
    method RescanInto(env: Env, files: Files) returns (ok: bool)
      modifies this
      ensures scans == old(scans) + 1 && ok == env.lists(old(scans))
      ensures wasm == if ok then Scan(env, files) else old(wasm)
    {
      ok := env.lists(scans);
      scans := scans + 1;
      if ok {
        wasm := ScanDir(env, files);
      }
    }
  }

  // ---------------------------------------------------------------- load_config

  /** The module's two fields. */
  datatype Loaded = Loaded(config: Option<Value>, lastGood: Option<Value>)

  /** What a load does to them: `None` is a failed load, which is fatal only when nothing ever loaded. */
  function AfterLoad(st: Loaded, result: Option<Value>): Option<Loaded> {
    if result.Some? then Some(Loaded(result, result))
    else if st.lastGood.Some? then Some(Loaded(st.lastGood, st.lastGood))
    else None
  }

  /** The result of the latest load that succeeded, if one did. */
  function Latest(results: seq<Option<Value>>): Option<Value> {
    if results == [] then None
    else if results[|results| - 1].Some? then results[|results| - 1]
    else Latest(results[..|results| - 1])
  }

  /** The fields after loads with these results, from a fresh process; `None` once one was fatal. */
  function AfterLoads(results: seq<Option<Value>>): Option<Loaded> {
    if results == [] then Some(Loaded(None, None))
    else
      var before := AfterLoads(results[..|results| - 1]);
      if before.None? then None else AfterLoad(before.value, results[|results| - 1])
  }

  /**
    Over any loads: a load is fatal if and only if it fails and none before it
    succeeded, and otherwise both fields are the latest config that loaded.
   */
  lemma {:induction false} LoadsRemember(results: seq<Option<Value>>)
    ensures AfterLoads(results).Some? <==> results == [] || results[0].Some?
    ensures AfterLoads(results).Some? ==> AfterLoads(results).value == Loaded(Latest(results), Latest(results))
    ensures results != [] && AfterLoads(results[..|results| - 1]).Some? ==>
      (AfterLoads(results).None? <==> results[|results| - 1].None? && Latest(results[..|results| - 1]).None?)
  {
    if results != [] {
      var init := results[..|results| - 1];
      LoadsRemember(init);
      if init != [] && init[0].Some? {
        FirstIsRemembered(init);
      }
    }
  }

  lemma {:induction false} FirstIsRemembered(results: seq<Option<Value>>)
    requires results != [] && results[0].Some?
    ensures Latest(results).Some?
  {
    if results[|results| - 1].None? {
      FirstIsRemembered(results[..|results| - 1]);
    }
  }

  class ConfigModule {
    var config: Option<Value>
    var lastGood: Option<Value>

    constructor ()
      ensures config == None && lastGood == None
    {
      config, lastGood := None, None;
    }

    ghost function State(): Loaded
      reads this
    {
      Loaded(config, lastGood)
    }

    /**
      load_config on a file whose text is `text` (`None`: it cannot be read).
      Returns whether it raised. A config that loads is served and remembered;
      one that does not leaves the remembered one in its place, and is fatal
      exactly when there is none.
     */
    method LoadConfig(env: Env, text: Option<Str>, registry: LuaConfig.Registry) returns (fatal: bool)
      modifies this
      ensures
        var result := LoadResult(env, text, registry);
        && fatal == (result.None? && old(lastGood).None?)
        && (result.Some? ==> config == result && lastGood == result)
        && (result.None? ==> lastGood == old(lastGood) && config == if fatal then old(config) else old(lastGood))
      ensures
        var result := LoadResult(env, text, registry);
        fatal == AfterLoad(old(State()), result).None? &&
        State() == if fatal then old(State()) else AfterLoad(old(State()), result).value
    {
      var value := if text.None? then None else env.eval(text.value);
      var cfg: Option<Value> := None;
      if value.Some? {
        cfg := LuaConfig.Validate(value.value, registry);
      }
      if cfg.None? {
        if lastGood.None? {
          return true;
        }
        config := lastGood;
        return false;
      }
      lastGood := cfg;
      config := cfg;
      fatal := false;
    }

    /**
      Loads one after the other in a fresh process, up to the first that is fatal:
      that one failed and none before it succeeded, and up to there the config in
      place is that of the latest load that succeeded.
     */
    method LoadAll(env: Env, texts: seq<Option<Str>>, registries: seq<LuaConfig.Registry>) returns (done: nat)
      requires |registries| == |texts| && config == None && lastGood == None
      modifies this
      ensures done <= |texts|
      ensures
        var results := LoadResults(env, texts, registries);
        && config == lastGood == Latest(results[..done])
        && (done < |texts| ==> results[done].None? && Latest(results[..done]).None?)
    {
      ghost var results := LoadResults(env, texts, registries);
      done := 0;
      while done < |texts|
        invariant done <= |texts| && config == lastGood == Latest(results[..done])
      {
        var fatal := LoadConfig(env, texts[done], registries[done]);
        if fatal {
          return;
        }
        assert results[..done + 1][..done] == results[..done];
        done := done + 1;
      }
    }

    /** use_config: install a table another phase already validated. */
    method UseConfig(cfg: Value)
      modifies this
      ensures config == Some(cfg) && lastGood == old(lastGood)
    {
      config := Some(cfg);
    }
  }

  /** The table a load of `text` against `registry` yields, if it succeeds. */
  ghost function LoadResult(env: Env, text: Option<Str>, registry: LuaConfig.Registry): Option<Value> {
    if text.None? || env.eval(text.value).None? || !LuaConfig.Accepts(env.eval(text.value).value, registry) then None
    else
      var v := env.eval(text.value).value;
      Some(LuaConfig.Normalized(v, LuaConfig.FlagsFrom(v, registry)))
  }

  ghost function LoadResults(env: Env, texts: seq<Option<Str>>, registries: seq<LuaConfig.Registry>)
    : (r: seq<Option<Value>>)
    requires |registries| == |texts|
    ensures |r| == |texts| && forall i | 0 <= i < |r| :: r[i] == LoadResult(env, texts[i], registries[i])
  {
    seq(|texts|, i requires 0 <= i < |texts| => LoadResult(env, texts[i], registries[i]))
  }
}
