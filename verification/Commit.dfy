/**
  The committer (go/internal/operator/commit.go) over an abstract mount.

  `Mount` is the FS interface. Which of its calls fail is up to the oracle
  `fails`, by the number of the call: a failed write leaves anything in the file
  it was writing, a failed rename or remove may have happened. A pass that stops
  at a failed call therefore also stands for a crash between any two calls.
  `trace` lists every state the mount has ever been in, so a claim about all of
  its later part is a claim about every instant; `ops` counts the mutating calls.
 */
module Commit {
  import opened Text
  import opened Render

  type Files = map<Str, Str>

  const TMP_SUFFIX: Str := ".tmp"
  const ROOT: Str := []

  datatype ReadResult = Data(data: Str) | NotExist | ReadFailed

  /** Result: what a commit reports. */
  datatype Result = Result(wroteConfig: bool, wroteModules: seq<Str>, removedModules: seq<Str>, cleanedTemp: seq<Str>)

  function At(files: Files, p: Str): Option<Str> {
    if p in files then Some(files[p]) else None
  }

  /** `p` is a file directly in the directory whose paths start with `dir`. */
  predicate InDir(dir: Str, p: Str) {
    HasPrefix(p, dir) && '/' !in p[|dir|..]
  }

  predicate InDirWithSuffix(dir: Str, suffix: Str, p: Str) {
    InDir(dir, p) && HasSuffix(p[|dir|..], suffix)
  }

  /** In-flight files of the two directories the committer stages into. */
  predicate IsTemp(p: Str) {
    InDirWithSuffix(ROOT, TMP_SUFFIX, p) || InDirWithSuffix(UDF_PREFIX, TMP_SUFFIX, p)
  }

  predicate IsModule(p: Str) {
    InDirWithSuffix(UDF_PREFIX, WASM_SUFFIX, p)
  }

  /** The two shapes of path Commit knows how to place. */
  predicate Recognized(p: Str) {
    p == CONFIG_FILE || (HasPrefix(p, UDF_PREFIX) && HasSuffix(p, WASM_SUFFIX))
  }

  predicate Committable(desired: Files) {
    CONFIG_FILE in desired && forall p | p in desired :: Recognized(p)
  }

  /** Every module of the tree sits directly under udf/. */
  predicate Flat(desired: Files) {
    forall p | p in desired :: p == CONFIG_FILE || IsModule(p)
  }

  // ---------------------------------------------------------------- the mount

  ghost predicate SameExcept(a: Files, b: Files, p: Str) {
    forall q :: q != p ==> At(a, q) == At(b, q)
  }

  function Moved(files: Files, from: Str, to: Str): Files
    requires from in files
  {
    (files - {from})[to := files[from]]
  }

  class Mount {
    /** Whether the n-th call fails. */
    const fails: nat -> bool
    var files: Files
    /** Every state so far, oldest first, the present one last. */
    ghost var trace: seq<Files>
    ghost var ops: nat
    var calls: nat

    ghost predicate Valid()
      reads this
    {
      trace != [] && trace[|trace| - 1] == files
    }

    /** None of the calls from the given one on has failed. */
    ghost predicate Sound(from: nat)
      reads this
    {
      forall n | from <= n < calls :: !fails(n)
    }

    constructor (fails: nat -> bool)
      ensures Valid() && files == map[] && trace == [map[]] && calls == 0 && this.fails == fails
    {
      this.fails := fails;
      files := map[];
      trace := [map[]];
      ops := 0;
      calls := 0;
    }

    method ReadFile(name: Str) returns (r: ReadResult)
      modifies this`calls
      ensures calls == old(calls) + 1
      ensures r.ReadFailed? <==> fails(old(calls))
      ensures r.Data? ==> At(files, name) == Some(r.data)
      ensures r.NotExist? ==> name !in files
    {
      if fails(calls) {
        r := ReadFailed;
      } else {
        r := if name in files then Data(files[name]) else NotExist;
      }
      calls := calls + 1;
    }

    /** The names of the files in a directory, in no particular order. */
    method ReadDir(dir: Str) returns (ok: bool, names: seq<Str>)
      modifies this`calls
      ensures calls == old(calls) + 1
      ensures ok <==> !fails(old(calls))
      ensures ok ==> forall n :: n in names <==> '/' !in n && dir + n in files
    {
      names := [];
      var rest := files.Keys;
      while rest != {}
        invariant rest <= files.Keys
        invariant forall n :: n in names <==> '/' !in n && dir + n in files && dir + n !in rest
        decreases rest
      {
        var p :| p in rest;
        rest := rest - {p};
        if InDir(dir, p) {
          assert dir + p[|dir|..] == p;
          names := names + [p[|dir|..]];
        } else {
          forall n | '/' !in n ensures dir + n != p {
            assert (dir + n)[|dir|..] == n && (dir + n)[..|dir|] == dir;
          }
        }
      }
      ok := !fails(calls);
      calls := calls + 1;
    }

    method WriteFile(name: Str, data: Str) returns (ok: bool)
      requires Valid()
      modifies this
      ensures Valid() && ops == old(ops) + 1 && calls == old(calls) + 1 && old(trace) <= trace
      ensures forall i | |old(trace)| <= i < |trace| :: SameExcept(trace[i], old(files), name)
      ensures SameExcept(files, old(files), name)
      ensures ok <==> !fails(old(calls))
      ensures ok ==> files == old(files)[name := data]
    {
      ops := ops + 1;
      var partial: Str := *;
      if * {
        files := files[name := partial];
        trace := trace + [files];
      }
      ok := !fails(calls);
      calls := calls + 1;
      if ok {
        files := files[name := data];
        trace := trace + [files];
      }
    }

    method Rename(from: Str, to: Str) returns (ok: bool)
      requires Valid()
      modifies this
      ensures Valid() && ops == old(ops) + 1 && calls == old(calls) + 1 && trace == old(trace) + [files]
      ensures (files == old(files) && !ok) || (from in old(files) && files == Moved(old(files), from, to))
      ensures from in old(files) ==> (ok <==> !fails(old(calls)))
    {
      ops := ops + 1;
      ok := false;
      if from in files {
        ok := !fails(calls);
        var happens := *;
        if ok || happens {
          files := Moved(files, from, to);
        }
      }
      calls := calls + 1;
      trace := trace + [files];
    }

    method Remove(name: Str) returns (ok: bool)
      requires Valid()
      modifies this
      ensures Valid() && ops == old(ops) + 1 && calls == old(calls) + 1 && trace == old(trace) + [files]
      ensures ok ==> name in old(files) && files == old(files) - {name}
      ensures !ok ==> files == old(files) || files == old(files) - {name}
      ensures name in old(files) ==> (ok <==> !fails(old(calls)))
    {
      ops := ops + 1;
      ok := false;
      if name in files {
        ok := !fails(calls);
        var happens := *;
        if ok || happens {
          files := files - {name};
        }
      }
      calls := calls + 1;
      trace := trace + [files];
    }
  }

  // ---------------------------------------------------------------- removing and writing

  /** What a removal pass over `dir` is after: files with the suffix that are not to be kept. */
  predicate Doomed(dir: Str, suffix: Str, keep: set<Str>, p: Str) {
    InDirWithSuffix(dir, suffix, p) && p !in keep
  }

  /** `t` is `files` with some doomed files gone. */
  ghost predicate Trimmed(files: Files, t: Files, dir: Str, suffix: Str, keep: set<Str>) {
    forall p :: At(t, p) == At(files, p) || (At(t, p) == None && Doomed(dir, suffix, keep, p))
  }

  /** The paths a removal pass takes on, in the order of the listing. */
  function Targets(dir: Str, suffix: Str, keep: set<Str>, names: seq<Str>): seq<Str> {
    if names == [] then []
    else
      var n := names[|names| - 1];
      Targets(dir, suffix, keep, names[..|names| - 1])
      + if HasSuffix(n, suffix) && dir + n !in keep then [dir + n] else []
  }

  lemma DoomedName(dir: Str, suffix: Str, keep: set<Str>, n: Str)
    requires '/' !in n
    ensures Doomed(dir, suffix, keep, dir + n) <==> HasSuffix(n, suffix) && dir + n !in keep
  {
    assert (dir + n)[|dir|..] == n && (dir + n)[..|dir|] == dir;
  }

  lemma {:induction false} TargetsAre(dir: Str, suffix: Str, keep: set<Str>, names: seq<Str>, p: Str)
    requires forall n | n in names :: '/' !in n
    ensures p in Targets(dir, suffix, keep, names) <==> Doomed(dir, suffix, keep, p) && p[|dir|..] in names
  {
    if names != [] {
      var init, n := names[..|names| - 1], names[|names| - 1];
      TargetsAre(dir, suffix, keep, init, p);
      DoomedName(dir, suffix, keep, n);
      assert names == init + [n];
      assert (dir + n)[|dir|..] == n;
      assert Doomed(dir, suffix, keep, p) ==> p == dir + p[|dir|..];
    }
  }

  lemma TargetsTrim(files: Files, dir: Str, suffix: Str, keep: set<Str>, names: seq<Str>, gone: set<Str>)
    requires forall n | n in names :: '/' !in n
    requires gone <= set p | p in Targets(dir, suffix, keep, names)
    ensures Trimmed(files, files - gone, dir, suffix, keep)
  {
    forall p
      ensures At(files - gone, p) == At(files, p) || (At(files - gone, p) == None && Doomed(dir, suffix, keep, p))
    {
      TargetsAre(dir, suffix, keep, names, p);
    }
  }

  lemma TargetsExact(files: Files, dir: Str, suffix: Str, keep: set<Str>, names: seq<Str>)
    requires forall n :: n in names <==> '/' !in n && dir + n in files
    ensures forall p :: p in Targets(dir, suffix, keep, names) <==> p in files && Doomed(dir, suffix, keep, p)
  {
    forall p ensures p in Targets(dir, suffix, keep, names) <==> p in files && Doomed(dir, suffix, keep, p) {
      TargetsAre(dir, suffix, keep, names, p);
      if Doomed(dir, suffix, keep, p) {
        assert p == dir + p[|dir|..];
      }
    }
  }

  function Elements(s: seq<Str>): set<Str> {
    set p | p in s
  }

  /** One turn of the loop: the file is gone, or still there if the removal failed. */
  method RemoveTarget(m: Mount, dir: Str, suffix: Str, keep: set<Str>, ghost start: Files, ghost names: seq<Str>,
                      ghost removed: seq<Str>, path: Str)
    returns (ok: bool)
    requires m.Valid() && forall n | n in names :: '/' !in n
    requires m.files == start - Elements(removed)
    requires Elements(removed + [path]) <= Elements(Targets(dir, suffix, keep, names)) && path in m.files
    modifies m
    ensures m.Valid() && old(m.trace) <= m.trace
    ensures old(m.calls) <= m.calls && (m.Sound(old(m.calls)) ==> ok)
    ensures forall k | |old(m.trace)| <= k < |m.trace| :: Trimmed(start, m.trace[k], dir, suffix, keep)
    ensures Trimmed(start, m.files, dir, suffix, keep)
    ensures ok ==> m.files == start - Elements(removed + [path])
  {
    ok := m.Remove(path);
    assert Elements(removed + [path]) == Elements(removed) + {path};
    assert start - Elements(removed) - {path} == start - Elements(removed + [path]);
    assert Elements(removed) <= Elements(removed + [path]);
    TargetsTrim(start, dir, suffix, keep, names, Elements(removed));
    TargetsTrim(start, dir, suffix, keep, names, Elements(removed + [path]));
  }

  /** Removing all targets, one by one; `removed` is what has been dealt with. */
  method RemoveTargets(m: Mount, dir: Str, suffix: Str, keep: set<Str>, names: seq<Str>)
    returns (ok: bool, removed: seq<Str>)
    requires m.Valid() && DistinctKeys(Itself, names) && forall n | n in names :: '/' !in n && dir + n in m.files
    modifies m
    ensures m.Valid() && old(m.trace) <= m.trace
    ensures old(m.calls) <= m.calls && (m.Sound(old(m.calls)) ==> ok)
    ensures forall k | |old(m.trace)| <= k < |m.trace| :: Trimmed(old(m.files), m.trace[k], dir, suffix, keep)
    ensures Trimmed(old(m.files), m.files, dir, suffix, keep)
    ensures ok ==> removed == Targets(dir, suffix, keep, names) && m.files == old(m.files) - Elements(removed)
    ensures Targets(dir, suffix, keep, names) == [] ==> m.ops == old(m.ops) && m.trace == old(m.trace)
  {
    removed := [];
    for i := 0 to |names|
      invariant m.Valid() && old(m.trace) <= m.trace && old(m.calls) <= m.calls
      invariant forall k | |old(m.trace)| <= k < |m.trace| :: Trimmed(old(m.files), m.trace[k], dir, suffix, keep)
      invariant Trimmed(old(m.files), m.files, dir, suffix, keep)
      invariant removed == Targets(dir, suffix, keep, names[..i]) && m.files == old(m.files) - Elements(removed)
      invariant removed == [] ==> m.ops == old(m.ops) && m.trace == old(m.trace)
    {
      TargetsStep(dir, suffix, keep, names, i);
      var path := dir + names[i];
      if HasSuffix(names[i], suffix) && path !in keep {
        var done := RemoveTarget(m, dir, suffix, keep, old(m.files), names, removed, path);
        if !done {
          return false, removed;
        }
        removed := removed + [path];
      }
    }
    assert names[..|names|] == names;
    ok := true;
  }

  /** What the next name adds to the targets. */
  lemma TargetsStep(dir: Str, suffix: Str, keep: set<Str>, names: seq<Str>, i: nat)
    requires DistinctKeys(Itself, names) && i < |names| && forall n | n in names :: '/' !in n
    ensures
      var before, path := Targets(dir, suffix, keep, names[..i]), dir + names[i];
      if HasSuffix(names[i], suffix) && path !in keep then
        && Targets(dir, suffix, keep, names[..i + 1]) == before + [path] && path !in before
        && Elements(before + [path]) <= Elements(Targets(dir, suffix, keep, names))
        && Targets(dir, suffix, keep, names) != []
      else Targets(dir, suffix, keep, names[..i + 1]) == before
    ensures names[i] in names
  {
    TargetsPrefix(dir, suffix, keep, names, i + 1);
    assert names[..i + 1][..i] == names[..i];
    NotYet(dir, suffix, keep, names, i);
  }

  lemma NotYet(dir: Str, suffix: Str, keep: set<Str>, names: seq<Str>, i: nat)
    requires DistinctKeys(Itself, names) && i < |names| && forall n | n in names :: '/' !in n
    ensures dir + names[i] !in Targets(dir, suffix, keep, names[..i])
  {
    FreshKey(names, i);
    TargetsAre(dir, suffix, keep, names[..i], dir + names[i]);
    assert (dir + names[i])[|dir|..] == names[i];
  }

  lemma {:induction false} TargetsPrefix(dir: Str, suffix: Str, keep: set<Str>, names: seq<Str>, i: nat)
    requires i <= |names|
    ensures Targets(dir, suffix, keep, names[..i]) <= Targets(dir, suffix, keep, names)
    decreases |names|
  {
    if i < |names| {
      TargetsPrefix(dir, suffix, keep, names[..|names| - 1], i);
      assert names[..|names| - 1][..i] == names[..i];
    } else {
      assert names[..i] == names;
    }
  }

  /**
    The removal loop, as it stands in sweepTemp (for each of the two directories,
    keeping nothing) and at the end of Commit (keeping the desired tree).
   */
  method RemoveFrom(m: Mount, dir: Str, suffix: Str, keep: set<Str>) returns (ok: bool, removed: seq<Str>)
    requires m.Valid()
    modifies m
    ensures m.Valid() && old(m.trace) <= m.trace
    ensures old(m.calls) <= m.calls && (m.Sound(old(m.calls)) ==> ok)
    ensures forall k | |old(m.trace)| <= k < |m.trace| :: Trimmed(old(m.files), m.trace[k], dir, suffix, keep)
    ensures Trimmed(old(m.files), m.files, dir, suffix, keep)
    ensures ok ==> forall p :: At(m.files, p) == if Doomed(dir, suffix, keep, p) then None else At(old(m.files), p)
    ensures ok ==> forall p :: p in removed <==> p in old(m.files) && Doomed(dir, suffix, keep, p)
    ensures (forall p | p in old(m.files) :: !Doomed(dir, suffix, keep, p)) ==>
      m.ops == old(m.ops) && m.trace == old(m.trace)
  {
    removed := [];
    var listed, names := m.ReadDir(dir);
    if !listed {
      return false, removed;
    }
    var sorted := SortedMembers(set n | n in names);
    assert forall n :: n in sorted <==> n in names;
    OrderedDistinct(Itself, sorted);
    TargetsExact(m.files, dir, suffix, keep, sorted);
    NoTargets(m.files, dir, suffix, keep, sorted);
    ok, removed := RemoveTargets(m, dir, suffix, keep, sorted);
  }

  lemma NoTargets(files: Files, dir: Str, suffix: Str, keep: set<Str>, names: seq<Str>)
    requires forall p :: p in Targets(dir, suffix, keep, names) <==> p in files && Doomed(dir, suffix, keep, p)
    ensures (forall p | p in files :: !Doomed(dir, suffix, keep, p)) ==> Targets(dir, suffix, keep, names) == []
  {
    var all := Targets(dir, suffix, keep, names);
    assert all != [] ==> all[0] in all;
  }

  /** `t` is `files` but for `path`, which may already hold `data`, and its staging file. */
  ghost predicate Writing(files: Files, t: Files, path: Str, data: Str) {
    && (forall q :: q != path && q != path + TMP_SUFFIX ==> At(t, q) == At(files, q))
    && (At(t, path) == At(files, path) || At(t, path) == Some(data))
  }

  method WriteIfChanged(m: Mount, path: Str, data: Str) returns (ok: bool, changed: bool)
    requires m.Valid()
    modifies m
    ensures m.Valid() && old(m.trace) <= m.trace
    ensures old(m.calls) <= m.calls && (m.Sound(old(m.calls)) ==> ok)
    ensures forall k | |old(m.trace)| <= k < |m.trace| :: Writing(old(m.files), m.trace[k], path, data)
    ensures Writing(old(m.files), m.files, path, data)
    ensures ok ==> At(m.files, path) == Some(data)
    ensures ok ==> (changed <==> At(old(m.files), path) != Some(data))
    ensures ok && changed ==> path + TMP_SUFFIX !in m.files
    ensures At(old(m.files), path) == Some(data) ==> m.ops == old(m.ops) && m.trace == old(m.trace)
  {
    changed := false;
    var cur := m.ReadFile(path);
    match cur {
      case Data(d) =>
        if d == data {
          return true, false;
        }
      case NotExist =>
      case ReadFailed =>
        return false, false;
    }
    var tmp := path + TMP_SUFFIX;
    assert tmp != path;
    var staged := m.WriteFile(tmp, data);
    forall k | |old(m.trace)| <= k < |m.trace| ensures Writing(old(m.files), m.trace[k], path, data) {
      assert SameExcept(m.trace[k], old(m.files), tmp);
    }
    if !staged {
      return false, false;
    }
    var renamed := m.Rename(tmp, path);
    if !renamed {
      return false, false;
    }
    ok, changed := true, true;
  }

  // ---------------------------------------------------------------- what every instant keeps

  /** Files in flight, which nobody reads. */
  predicate Staging(p: Str) {
    HasSuffix(p, TMP_SUFFIX)
  }

  /**
    Before the config goes live: it is still the old one, and any other file but
    staging files is as it was or, whole, as the tree has it.
   */
  ghost predicate Before(base: Files, desired: Files, t: Files) {
    && At(t, CONFIG_FILE) == At(base, CONFIG_FILE)
    && forall p | !Staging(p) :: At(t, p) == At(base, p) || (p in desired && At(t, p) == Some(desired[p]))
  }

  /**
    Once the config is live: the whole desired tree is there with its bytes, and
    any other file but staging files is as it was, or was a module and is gone.
   */
  ghost predicate After(base: Files, desired: Files, t: Files) {
    forall p | !Staging(p) ::
      if p in desired then At(t, p) == Some(desired[p])
      else At(t, p) == At(base, p) || (IsModule(p) && At(t, p) == None)
  }

  lemma SuffixLast(p: Str, suffix: Str)
    requires suffix != [] && HasSuffix(p, suffix)
    ensures p != [] && p[|p| - 1] == suffix[|suffix| - 1]
  {
    assert p[|p| - |suffix|..][|suffix| - 1] == p[|p| - 1];
  }

  /** A path Commit places never ends like a staging file. */
  lemma RecognizedNotStaging(p: Str)
    requires Recognized(p)
    ensures !HasSuffix(p, TMP_SUFFIX) && !IsTemp(p)
  {
    if HasSuffix(p, TMP_SUFFIX) {
      SuffixLast(p, TMP_SUFFIX);
      if p != CONFIG_FILE {
        SuffixLast(p, WASM_SUFFIX);
      }
      assert false;
    }
    if IsTemp(p) {
      TempSuffix(p);
    }
  }

  lemma TempSuffix(p: Str)
    requires IsTemp(p)
    ensures HasSuffix(p, TMP_SUFFIX)
  {
    if InDirWithSuffix(UDF_PREFIX, TMP_SUFFIX, p) {
      InDirSuffix(UDF_PREFIX, TMP_SUFFIX, p);
    } else {
      InDirSuffix(ROOT, TMP_SUFFIX, p);
    }
  }

  lemma InDirSuffix(dir: Str, suffix: Str, p: Str)
    requires InDirWithSuffix(dir, suffix, p)
    ensures HasSuffix(p, suffix)
  {
    assert p[|dir|..][|p| - |dir| - |suffix|..] == p[|p| - |suffix|..];
  }

  lemma StagingSuffix(p: Str)
    ensures HasSuffix(p + TMP_SUFFIX, TMP_SUFFIX)
  {
    AppendSuffix(p, TMP_SUFFIX);
  }

  lemma AppendSuffix(p: Str, suffix: Str)
    ensures HasSuffix(p + suffix, suffix)
  {
    assert (p + suffix)[|p|..] == suffix;
  }

  lemma StagingInDir(dir: Str, p: Str, suffix: Str)
    requires InDir(dir, p) && '/' !in suffix
    ensures InDirWithSuffix(dir, suffix, p + suffix)
  {
    var q := p + suffix;
    assert q[..|dir|] == p[..|dir|];
    assert q[|dir|..] == p[|dir|..] + suffix;
    AppendSuffix(p[|dir|..], suffix);
  }

  /** The staging file of a flat tree's path is swept. */
  lemma StagingIsTemp(p: Str)
    requires p == CONFIG_FILE || IsModule(p)
    ensures IsTemp(p + TMP_SUFFIX)
  {
    if p == CONFIG_FILE {
      assert p[..0] == ROOT && p[0..] == p;
      assert InDir(ROOT, p);
      StagingInDir(ROOT, p, TMP_SUFFIX);
    } else {
      StagingInDir(UDF_PREFIX, p, TMP_SUFFIX);
    }
  }

  lemma BeforeTrim(base: Files, desired: Files, files: Files, t: Files, dir: Str)
    requires Before(base, desired, files) && Trimmed(files, t, dir, TMP_SUFFIX, {})
    ensures Before(base, desired, t)
  {
    RecognizedNotStaging(CONFIG_FILE);
    forall p | !Staging(p) ensures At(t, p) == At(files, p) {
      if Doomed(dir, TMP_SUFFIX, {}, p) {
        InDirSuffix(dir, TMP_SUFFIX, p);
      }
    }
  }

  lemma BeforeWrite(base: Files, desired: Files, files: Files, t: Files, path: Str)
    requires Before(base, desired, files) && path in desired && Writing(files, t, path, desired[path])
    requires path != CONFIG_FILE
    ensures Before(base, desired, t)
  {
    RecognizedNotStaging(CONFIG_FILE);
    StagingSuffix(path);
    forall p | !Staging(p) ensures At(t, p) == At(base, p) || (p in desired && At(t, p) == Some(desired[p])) {
      assert p != path ==> At(t, p) == At(files, p);
    }
  }

  lemma AfterTrim(base: Files, desired: Files, files: Files, t: Files)
    requires After(base, desired, files) && Trimmed(files, t, UDF_PREFIX, WASM_SUFFIX, desired.Keys)
    ensures After(base, desired, t)
  {
    forall p | !Staging(p)
      ensures
        if p in desired then At(t, p) == Some(desired[p])
        else At(t, p) == At(base, p) || (IsModule(p) && At(t, p) == None)
    {
      assert At(t, p) == At(files, p) || (At(t, p) == None && Doomed(UDF_PREFIX, WASM_SUFFIX, desired.Keys, p));
    }
  }

  // ---------------------------------------------------------------- Commit

  /** What is left of `files` once a commit of `desired` has gone through. */
  ghost function Committed(files: Files, desired: Files): Files {
    (map p | p in files && !IsTemp(p) && !IsModule(p) :: files[p]) + desired
  }

  ghost predicate Current(files: Files, desired: Files) {
    forall p | p in desired :: At(files, p) == Some(desired[p])
  }

  ghost predicate NoTemps(files: Files) {
    forall p | p in files :: !IsTemp(p)
  }

  ghost predicate NoStale(files: Files, desired: Files) {
    forall p | p in files :: IsModule(p) ==> p in desired
  }

  /** Nothing to do: the tree is in place, with nothing staged and nothing stale. */
  ghost predicate Settled(files: Files, desired: Files) {
    Current(files, desired) && NoTemps(files) && NoStale(files, desired)
  }

  method SweepTemp(m: Mount, ghost base: Files, ghost desired: Files) returns (ok: bool, cleaned: seq<Str>)
    requires m.Valid() && Before(base, desired, m.files)
    modifies m
    ensures m.Valid() && old(m.trace) <= m.trace
    ensures old(m.calls) <= m.calls && (m.Sound(old(m.calls)) ==> ok)
    ensures forall k | |old(m.trace)| <= k < |m.trace| :: Before(base, desired, m.trace[k])
    ensures Before(base, desired, m.files)
    ensures ok ==> forall p :: At(m.files, p) == if IsTemp(p) then None else At(old(m.files), p)
    ensures ok ==> forall p :: p in cleaned <==> p in old(m.files) && IsTemp(p)
    ensures NoTemps(old(m.files)) ==> m.ops == old(m.ops) && m.trace == old(m.trace)
  {
    ghost var start := m.files;
    ok, cleaned := RemoveFrom(m, ROOT, TMP_SUFFIX, {});
    forall k | |old(m.trace)| <= k < |m.trace| ensures Before(base, desired, m.trace[k]) {
      BeforeTrim(base, desired, start, m.trace[k], ROOT);
    }
    BeforeTrim(base, desired, start, m.files, ROOT);
    if !ok {
      return;
    }
    ghost var mid, seen := m.files, m.trace;
    var more: seq<Str>;
    ok, more := RemoveFrom(m, UDF_PREFIX, TMP_SUFFIX, {});
    forall k | |seen| <= k < |m.trace| ensures Before(base, desired, m.trace[k]) {
      BeforeTrim(base, desired, mid, m.trace[k], UDF_PREFIX);
    }
    BeforeTrim(base, desired, mid, m.files, UDF_PREFIX);
    cleaned := cleaned + more;
  }

  /**
    `now` is `start` with the paths in `done` holding what `desired` says. On a
    flat tree this covers every path, otherwise those Commit places.
   */
  ghost predicate Written(start: Files, now: Files, desired: Files, done: set<Str>) {
    && done <= desired.Keys
    && forall p | Flat(desired) || Recognized(p) :: At(now, p) == if p in done then Some(desired[p]) else At(start, p)
  }

  /** One module: the body of the first loop of Commit. */
  method WriteModule(m: Mount, path: Str, desired: Files, ghost base: Files) returns (ok: bool, changed: bool)
    requires m.Valid() && Before(base, desired, m.files) && Committable(desired)
    requires path in desired && path != CONFIG_FILE
    requires Flat(desired) ==> NoTemps(m.files)
    modifies m
    ensures m.Valid() && old(m.trace) <= m.trace
    ensures old(m.calls) <= m.calls && (m.Sound(old(m.calls)) ==> ok)
    ensures forall k | |old(m.trace)| <= k < |m.trace| :: Before(base, desired, m.trace[k])
    ensures Before(base, desired, m.files)
    ensures ok ==> Written(old(m.files), m.files, desired, {path})
    ensures ok ==> (changed <==> At(old(m.files), path) != Some(desired[path]))
    ensures At(old(m.files), path) == Some(desired[path]) ==> m.ops == old(m.ops) && m.trace == old(m.trace)
  {
    ghost var before := m.files;
    ok, changed := WriteIfChanged(m, path, desired[path]);
    forall k | |old(m.trace)| <= k < |m.trace| ensures Before(base, desired, m.trace[k]) {
      BeforeWrite(base, desired, before, m.trace[k], path);
    }
    BeforeWrite(base, desired, before, m.files, path);
    if ok {
      WroteOne(before, m.files, path, desired[path], changed, Flat(desired));
    }
  }

  lemma WrittenStep(start: Files, mid: Files, now: Files, desired: Files, done: set<Str>, path: Str)
    requires Written(start, mid, desired, done) && Written(mid, now, desired, {path})
    ensures Written(start, now, desired, done + {path})
  {
  }

  lemma WrittenNoTemp(start: Files, now: Files, desired: Files, done: set<Str>)
    requires Written(start, now, desired, done) && Flat(desired) && Committable(desired)
    requires NoTemps(start)
    ensures NoTemps(now)
  {
    forall p | p in now ensures !IsTemp(p) {
      if p in done {
        RecognizedNotStaging(p);
      } else {
        assert At(now, p) == At(start, p);
      }
    }
  }

  /** One more module, seen from where the loop started. */
  method WriteNext(m: Mount, path: Str, desired: Files, ghost base: Files, ghost start: Files, ghost done: set<Str>)
    returns (ok: bool, changed: bool)
    requires m.Valid() && Before(base, desired, m.files) && Committable(desired)
    requires path in desired && path != CONFIG_FILE && path !in done
    requires Written(start, m.files, desired, done)
    requires Flat(desired) ==> NoTemps(start)
    modifies m
    ensures m.Valid() && old(m.trace) <= m.trace
    ensures old(m.calls) <= m.calls && (m.Sound(old(m.calls)) ==> ok)
    ensures forall k | |old(m.trace)| <= k < |m.trace| :: Before(base, desired, m.trace[k])
    ensures Before(base, desired, m.files)
    ensures ok ==> Written(start, m.files, desired, done + {path})
    ensures ok ==> (changed <==> At(start, path) != Some(desired[path]))
    ensures At(start, path) == Some(desired[path]) ==> m.ops == old(m.ops) && m.trace == old(m.trace)
  {
    ghost var mid := m.files;
    assert Recognized(path) && At(mid, path) == At(start, path);
    if Flat(desired) {
      WrittenNoTemp(start, mid, desired, done);
    }
    ok, changed := WriteModule(m, path, desired, base);
    if ok {
      WrittenStep(start, mid, m.files, desired, done, path);
    }
  }

  method WriteModules(m: Mount, desired: Files, keys: seq<Str>, ghost base: Files) returns (ok: bool, wrote: seq<Str>)
    requires m.Valid() && Before(base, desired, m.files) && Committable(desired)
    requires forall p :: p in keys <==> p in desired
    requires Ordered(Itself, keys)
    requires Flat(desired) ==> NoTemps(m.files)
    modifies m
    ensures m.Valid() && old(m.trace) <= m.trace
    ensures old(m.calls) <= m.calls && (m.Sound(old(m.calls)) ==> ok)
    ensures forall k | |old(m.trace)| <= k < |m.trace| :: Before(base, desired, m.trace[k])
    ensures Before(base, desired, m.files)
    ensures ok ==> Written(old(m.files), m.files, desired, desired.Keys - {CONFIG_FILE})
    ensures ok ==>
      forall p :: p in wrote <==> p in desired && p != CONFIG_FILE && At(old(m.files), p) != Some(desired[p])
    ensures Current(old(m.files), desired) ==> m.ops == old(m.ops) && m.trace == old(m.trace)
  {
    wrote := [];
    ghost var start := m.files;
    OrderedDistinct(Itself, keys);
    ProgressStarts(start, desired, keys);
    for i := 0 to |keys|
      invariant m.Valid() && old(m.trace) <= m.trace && old(m.calls) <= m.calls
      invariant forall k | |old(m.trace)| <= k < |m.trace| :: Before(base, desired, m.trace[k])
      invariant Before(base, desired, m.files)
      invariant Progress(start, m.files, desired, keys, i, wrote)
      invariant Current(start, desired) ==> m.ops == old(m.ops) && m.trace == old(m.trace)
    {
      var fine, more := WriteKey(m, desired, keys, i, wrote, base, start);
      if !fine {
        return false, wrote;
      }
      wrote := more;
    }
    ProgressEnds(start, m.files, desired, keys, wrote);
    ok := true;
  }

  /** The modules among the first keys. */
  ghost function Done(keys: seq<Str>, i: nat): set<Str>
    requires i <= |keys|
  {
    Elements(keys[..i]) - {CONFIG_FILE}
  }

  /** Where the loop stands: those modules hold what they should, and `wrote` lists the ones that changed. */
  ghost predicate Progress(start: Files, now: Files, desired: Files, keys: seq<Str>, i: nat, wrote: seq<Str>)
    requires i <= |keys|
  {
    Written(start, now, desired, Done(keys, i)) && Changed(start, desired, Done(keys, i), wrote)
  }

  lemma ProgressStarts(start: Files, desired: Files, keys: seq<Str>)
    ensures Progress(start, start, desired, keys, 0, [])
  {
    assert Done(keys, 0) == {};
  }

  lemma ProgressEnds(start: Files, now: Files, desired: Files, keys: seq<Str>, wrote: seq<Str>)
    requires Progress(start, now, desired, keys, |keys|, wrote) && forall p :: p in keys <==> p in desired
    ensures Written(start, now, desired, desired.Keys - {CONFIG_FILE})
    ensures forall p :: p in wrote <==> p in desired && p != CONFIG_FILE && At(start, p) != Some(desired[p])
  {
    assert keys[..|keys|] == keys && Elements(keys) == desired.Keys;
  }

  lemma DoneStep(keys: seq<Str>, i: nat)
    requires i < |keys| && DistinctKeys(Itself, keys)
    ensures keys[i] in keys && keys[i] !in Done(keys, i)
    ensures Done(keys, i + 1) == if keys[i] == CONFIG_FILE then Done(keys, i) else Done(keys, i) + {keys[i]}
  {
    FreshKey(keys, i);
  }

  /** One turn of the loop: the config is passed over, any other key is written if it differs. */
  method WriteKey(m: Mount, desired: Files, keys: seq<Str>, i: nat, wrote: seq<Str>,
                  ghost base: Files, ghost start: Files)
    returns (ok: bool, more: seq<Str>)
    requires m.Valid() && Before(base, desired, m.files) && Committable(desired)
    requires i < |keys| && DistinctKeys(Itself, keys) && forall p :: p in keys <==> p in desired
    requires Progress(start, m.files, desired, keys, i, wrote) && (Flat(desired) ==> NoTemps(start))
    modifies m
    ensures m.Valid() && old(m.trace) <= m.trace
    ensures old(m.calls) <= m.calls && (m.Sound(old(m.calls)) ==> ok)
    ensures forall k | |old(m.trace)| <= k < |m.trace| :: Before(base, desired, m.trace[k])
    ensures Before(base, desired, m.files)
    ensures ok ==> Progress(start, m.files, desired, keys, i + 1, more)
    ensures Current(start, desired) ==> m.ops == old(m.ops) && m.trace == old(m.trace)
  {
    DoneStep(keys, i);
    var path := keys[i];
    if path == CONFIG_FILE {
      return true, wrote;
    }
    ghost var done := Done(keys, i);
    var changed;
    ok, changed := WriteNext(m, path, desired, base, start, done);
    ChangedIf(start, desired, done, wrote, path, ok, changed);
    more := if changed then wrote + [path] else wrote;
  }

  lemma ChangedIf(start: Files, desired: Files, done: set<Str>, wrote: seq<Str>, path: Str, ok: bool, changed: bool)
    requires Changed(start, desired, done, wrote) && path in desired && path !in done
    requires ok ==> (changed <==> At(start, path) != Some(desired[path]))
    ensures ok ==> Changed(start, desired, done + {path}, if changed then wrote + [path] else wrote)
  {
    if ok {
      ChangedStep(start, desired, done, wrote, path, changed);
    }
  }

  /** `wrote` lists those of `done` whose contents were not already in place. */
  ghost predicate Changed(start: Files, desired: Files, done: set<Str>, wrote: seq<Str>) {
    done <= desired.Keys && forall p :: p in wrote <==> p in done && At(start, p) != Some(desired[p])
  }

  lemma ChangedStep(start: Files, desired: Files, done: set<Str>, wrote: seq<Str>, path: Str, changed: bool)
    requires Changed(start, desired, done, wrote) && path in desired && path !in done
    requires changed <==> At(start, path) != Some(desired[path])
    ensures Changed(start, desired, done + {path}, if changed then wrote + [path] else wrote)
  {
  }

  lemma FreshKey(keys: seq<Str>, i: nat)
    requires i < |keys| && DistinctKeys(Itself, keys)
    ensures keys[i] in keys && keys[i] !in keys[..i]
    ensures Elements(keys[..i + 1]) == Elements(keys[..i]) + {keys[i]}
  {
    assert keys[..i + 1] == keys[..i] + [keys[i]];
    forall k | 0 <= k < i ensures keys[k] != keys[i] {
      assert Itself(keys[k]) != Itself(keys[i]);
    }
  }

  /** What a successful writeIfChanged amounts to on the paths Commit places, and, on a flat tree, on every path. */
  lemma WroteOne(before: Files, after: Files, path: Str, data: Str, changed: bool, flat: bool)
    requires Writing(before, after, path, data) && At(after, path) == Some(data)
    requires changed ==> path + TMP_SUFFIX !in after
    requires !changed ==> before == after
    requires flat ==> (path == CONFIG_FILE || IsModule(path)) && NoTemps(before)
    ensures forall p | flat || Recognized(p) :: At(after, p) == if p == path then Some(data) else At(before, p)
  {
    StagingSuffix(path);
    forall p | Recognized(p) ensures p != path + TMP_SUFFIX {
      RecognizedNotStaging(p);
    }
    if flat {
      StagingIsTemp(path);
      assert path + TMP_SUFFIX !in before;
    }
  }

  lemma PlacedBoth(start: Files, now: Files, desired: Files)
    requires Committable(desired)
    requires Written(start, now, desired, desired.Keys - {CONFIG_FILE})
    ensures forall p | p in desired && p != CONFIG_FILE :: At(now, p) == Some(desired[p])
    ensures At(now, CONFIG_FILE) == At(start, CONFIG_FILE)
  {
    forall p | p in desired && p != CONFIG_FILE ensures At(now, p) == Some(desired[p]) {
      assert Recognized(p);
    }
    assert Recognized(CONFIG_FILE);
  }

  /** While the config is being replaced the old one is live, or the new one with its whole tree. */
  lemma ConfigSwap(base: Files, files: Files, t: Files, desired: Files)
    requires Committable(desired) && Before(base, desired, files)
    requires forall p | p in desired && p != CONFIG_FILE :: At(files, p) == Some(desired[p])
    requires Writing(files, t, CONFIG_FILE, desired[CONFIG_FILE])
    ensures Before(base, desired, t) || After(base, desired, t)
  {
    StagingSuffix(CONFIG_FILE);
    RecognizedNotStaging(CONFIG_FILE);
    forall p | !Staging(p) && p != CONFIG_FILE ensures At(t, p) == At(files, p) {
    }
  }

  lemma SwapDone(base: Files, files: Files, t: Files, desired: Files)
    requires Committable(desired) && Before(base, desired, files)
    requires forall p | p in desired && p != CONFIG_FILE :: At(files, p) == Some(desired[p])
    requires Writing(files, t, CONFIG_FILE, desired[CONFIG_FILE]) && At(t, CONFIG_FILE) == Some(desired[CONFIG_FILE])
    ensures After(base, desired, t)
  {
    StagingSuffix(CONFIG_FILE);
    forall p | !Staging(p) && p != CONFIG_FILE ensures At(t, p) == At(files, p) {
    }
  }

  method CommitConfig(m: Mount, desired: Files, ghost base: Files) returns (ok: bool, changed: bool)
    requires m.Valid() && Before(base, desired, m.files) && Committable(desired)
    requires forall p | p in desired && p != CONFIG_FILE :: At(m.files, p) == Some(desired[p])
    requires Flat(desired) ==> NoTemps(m.files)
    modifies m
    ensures m.Valid() && old(m.trace) <= m.trace
    ensures old(m.calls) <= m.calls && (m.Sound(old(m.calls)) ==> ok)
    ensures forall k | |old(m.trace)| <= k < |m.trace| ::
      Before(base, desired, m.trace[k]) || After(base, desired, m.trace[k])
    ensures ok ==> Written(old(m.files), m.files, desired, {CONFIG_FILE}) && After(base, desired, m.files)
    ensures ok ==> (changed <==> At(old(m.files), CONFIG_FILE) != Some(desired[CONFIG_FILE]))
    ensures At(old(m.files), CONFIG_FILE) == Some(desired[CONFIG_FILE]) ==>
      m.ops == old(m.ops) && m.trace == old(m.trace)
  {
    ghost var before := m.files;
    ok, changed := WriteIfChanged(m, CONFIG_FILE, desired[CONFIG_FILE]);
    forall k | |old(m.trace)| <= k < |m.trace|
      ensures Before(base, desired, m.trace[k]) || After(base, desired, m.trace[k])
    {
      ConfigSwap(base, before, m.trace[k], desired);
    }
    if ok {
      WroteOne(before, m.files, CONFIG_FILE, desired[CONFIG_FILE], changed, Flat(desired));
      SwapDone(base, before, m.files, desired);
    }
  }

  /** The mount right after the sweep. */
  ghost predicate Swept(base: Files, swept: Files) {
    forall p :: At(swept, p) == if IsTemp(p) then None else At(base, p)
  }

  lemma SweptKeepsPlaces(base: Files, swept: Files, desired: Files)
    requires Swept(base, swept) && Committable(desired)
    ensures forall p | p in desired :: At(swept, p) == At(base, p)
    ensures NoTemps(swept)
  {
    forall p | p in desired ensures At(swept, p) == At(base, p) {
      RecognizedNotStaging(p);
    }
    forall p | p in swept ensures !IsTemp(p) {
      assert At(swept, p).Some?;
    }
  }

  /** Sweep, placement of the whole tree, then removal of what is stale: the committed mount. */
  lemma FinalState(base: Files, swept: Files, live: Files, final: Files, desired: Files)
    requires Committable(desired) && Flat(desired) && Swept(base, swept) && Written(swept, live, desired, desired.Keys)
    requires Unstale(live, final, desired)
    ensures final == Committed(base, desired) && DoomedIn(live, desired) == StaleIn(base, desired)
  {
    var c := Committed(base, desired);
    forall p ensures At(final, p) == At(c, p)
             ensures p in live && Doomed(UDF_PREFIX, WASM_SUFFIX, desired.Keys, p) <==>
               p in base && IsModule(p) && p !in desired
    {
      assert At(live, p) == if p in desired then Some(desired[p]) else At(swept, p);
      if IsModule(p) {
        ModuleNotTemp(p);
      }
    }
    MapExtensional(final, c);
  }

  lemma MapExtensional(a: Files, b: Files)
    requires forall p :: At(a, p) == At(b, p)
    ensures a == b
  {
    forall p ensures p in a <==> p in b {
      assert At(a, p) == At(b, p);
    }
    forall p | p in a ensures a[p] == b[p] {
      assert At(a, p) == At(b, p);
    }
  }

  lemma ModuleNotTemp(p: Str)
    requires IsModule(p)
    ensures Recognized(p) && !IsTemp(p)
  {
    InDirSuffix(UDF_PREFIX, WASM_SUFFIX, p);
    RecognizedNotStaging(p);
  }

  /** What changed: modules whose bytes were not in place, modules no longer wanted, staging files left behind. */
  ghost function ChangedIn(files: Files, desired: Files): set<Str> {
    set p | p in desired && p != CONFIG_FILE && At(files, p) != Some(desired[p])
  }

  ghost function StaleIn(files: Files, desired: Files): set<Str> {
    set p | p in files && IsModule(p) && p !in desired
  }

  ghost function TempsIn(files: Files): set<Str> {
    set p | p in files && IsTemp(p)
  }

  /** The report lists exactly that. */
  ghost predicate Reported(files: Files, desired: Files, res: Result)
    requires CONFIG_FILE in desired
  {
    && (res.wroteConfig <==> At(files, CONFIG_FILE) != Some(desired[CONFIG_FILE]))
    && Elements(res.wroteModules) == ChangedIn(files, desired)
    && (Flat(desired) ==> Elements(res.removedModules) == StaleIn(files, desired))
    && Elements(res.cleanedTemp) == TempsIn(files)
  }

  /** The first two stages of Commit: sweep, then place the modules. */
  method PlaceModules(m: Mount, desired: Files, keys: seq<Str>)
    returns (ok: bool, cleaned: seq<Str>, wrote: seq<Str>, ghost swept: Files)
    requires m.Valid() && Committable(desired)
    requires Ordered(Itself, keys) && forall p :: p in keys <==> p in desired
    modifies m
    ensures m.Valid() && old(m.trace) <= m.trace
    ensures old(m.calls) <= m.calls && (m.Sound(old(m.calls)) ==> ok)
    ensures forall k | |old(m.trace)| <= k < |m.trace| :: Before(old(m.files), desired, m.trace[k])
    ensures Before(old(m.files), desired, m.files)
    ensures ok ==> Swept(old(m.files), swept) && Written(swept, m.files, desired, desired.Keys - {CONFIG_FILE})
    ensures ok && Flat(desired) ==> NoTemps(m.files)
    ensures ok ==> Elements(wrote) == ChangedIn(old(m.files), desired) && Elements(cleaned) == TempsIn(old(m.files))
    ensures Settled(old(m.files), desired) ==> m.ops == old(m.ops) && m.trace == old(m.trace)
  {
    ghost var base := m.files;
    wrote := [];
    ok, cleaned := SweepTemp(m, base, desired);
    swept := m.files;
    if !ok {
      return;
    }
    SweptKeepsPlaces(base, swept, desired);
    ok, wrote := WriteModules(m, desired, keys, base);
    if ok && Flat(desired) {
      WrittenNoTemp(swept, m.files, desired, desired.Keys - {CONFIG_FILE});
    }
  }

  method RemoveStale(m: Mount, desired: Files, ghost base: Files) returns (ok: bool, removed: seq<Str>)
    requires m.Valid() && CONFIG_FILE in desired && After(base, desired, m.files)
    modifies m
    ensures m.Valid() && old(m.trace) <= m.trace
    ensures old(m.calls) <= m.calls && (m.Sound(old(m.calls)) ==> ok)
    ensures forall k | |old(m.trace)| <= k < |m.trace| :: After(base, desired, m.trace[k])
    ensures After(base, desired, m.files)
    ensures ok ==> Unstale(old(m.files), m.files, desired) && Elements(removed) == DoomedIn(old(m.files), desired)
    ensures NoStale(old(m.files), desired) ==> m.ops == old(m.ops) && m.trace == old(m.trace)
  {
    ghost var live := m.files;
    ok, removed := RemoveFrom(m, UDF_PREFIX, WASM_SUFFIX, desired.Keys);
    forall k | |old(m.trace)| <= k < |m.trace| ensures After(base, desired, m.trace[k]) {
      AfterTrim(base, desired, live, m.trace[k]);
    }
    AfterTrim(base, desired, live, m.files);
  }

  /** The last two stages of Commit: swap the config, then remove what is stale. `live` is the mount in between. */
  method GoLive(m: Mount, desired: Files, ghost base: Files)
    returns (ok: bool, changed: bool, removed: seq<Str>, ghost live: Files)
    requires m.Valid() && Before(base, desired, m.files) && Committable(desired)
    requires forall p | p in desired && p != CONFIG_FILE :: At(m.files, p) == Some(desired[p])
    requires Flat(desired) ==> NoTemps(m.files)
    modifies m
    ensures m.Valid() && old(m.trace) <= m.trace
    ensures old(m.calls) <= m.calls && (m.Sound(old(m.calls)) ==> ok)
    ensures forall k | |old(m.trace)| <= k < |m.trace| ::
      Before(base, desired, m.trace[k]) || After(base, desired, m.trace[k])
    ensures ok ==> After(base, desired, m.files) && Written(old(m.files), live, desired, {CONFIG_FILE})
    ensures ok ==> Unstale(live, m.files, desired) && Elements(removed) == DoomedIn(live, desired)
    ensures ok ==> (changed <==> At(old(m.files), CONFIG_FILE) != Some(desired[CONFIG_FILE]))
    ensures Current(old(m.files), desired) && NoStale(old(m.files), desired) ==>
      m.ops == old(m.ops) && m.trace == old(m.trace)
  {
    removed := [];
    ok, changed := CommitConfig(m, desired, base);
    live := m.files;
    if ok {
      ok, removed := RemoveStale(m, desired, base);
    }
  }

  /** `final` is `live` without the modules that are not desired. */
  ghost predicate Unstale(live: Files, final: Files, desired: Files) {
    forall p :: At(final, p) == if Doomed(UDF_PREFIX, WASM_SUFFIX, desired.Keys, p) then None else At(live, p)
  }

  ghost function DoomedIn(live: Files, desired: Files): set<Str> {
    set p | p in live && Doomed(UDF_PREFIX, WASM_SUFFIX, desired.Keys, p)
  }

  /** The four stages of Commit, once the tree's shape has been checked. */
  method CommitStages(m: Mount, desired: Files, keys: seq<Str>) returns (ok: bool, res: Result)
    requires m.Valid() && Committable(desired)
    requires Ordered(Itself, keys) && forall p :: p in keys <==> p in desired
    modifies m
    ensures m.Valid() && old(m.trace) <= m.trace
    ensures old(m.calls) <= m.calls && (m.Sound(old(m.calls)) ==> ok)
    ensures forall k | |old(m.trace)| <= k < |m.trace| ::
      Before(old(m.files), desired, m.trace[k]) || After(old(m.files), desired, m.trace[k])
    ensures ok ==> After(old(m.files), desired, m.files)
    ensures ok && Flat(desired) ==> m.files == Committed(old(m.files), desired)
    ensures ok ==> Reported(old(m.files), desired, res)
    ensures Settled(old(m.files), desired) ==> m.ops == old(m.ops) && m.trace == old(m.trace)
  {
    ghost var base := m.files;
    ghost var swept;
    var cleaned: seq<Str>, wrote: seq<Str>;
    ok, cleaned, wrote, swept := PlaceModules(m, desired, keys);
    res := Result(false, wrote, [], cleaned);
    if !ok {
      return;
    }
    ghost var placed := m.files;
    PlacedBoth(swept, placed, desired);
    SweptKeepsPlaces(base, swept, desired);
    ghost var live;
    var changed: bool, removed: seq<Str>;
    ok, changed, removed, live := GoLive(m, desired, base);
    res := Result(changed, wrote, removed, cleaned);
    if ok && Flat(desired) {
      WrittenStep(swept, placed, live, desired, desired.Keys - {CONFIG_FILE}, CONFIG_FILE);
      assert desired.Keys - {CONFIG_FILE} + {CONFIG_FILE} == desired.Keys;
      FinalState(base, swept, live, m.files, desired);
    }
  }

  /**
    Commit. Whatever fails and wherever it stops, every state it passes through
    either still has the old config with everything it had to rely on, or has
    the new config with the whole new tree. If it succeeds on a flat tree, the
    mount is exactly the committed one; on a settled mount it attempts no
    mutating operation at all. It succeeds unless a call failed or the tree is
    not one it can place.
   */
  method CommitTree(m: Mount, desired: Files) returns (ok: bool, res: Result)
    requires m.Valid()
    modifies m
    ensures m.Valid() && old(m.trace) <= m.trace
    ensures old(m.calls) <= m.calls && (Committable(desired) && m.Sound(old(m.calls)) ==> ok)
    ensures !Committable(desired) ==> !ok && m.ops == old(m.ops) && m.trace == old(m.trace)
    ensures Committable(desired) ==>
      forall k | |old(m.trace)| <= k < |m.trace| ::
        Before(old(m.files), desired, m.trace[k]) || After(old(m.files), desired, m.trace[k])
    ensures ok ==> After(old(m.files), desired, m.files)
    ensures ok && Flat(desired) ==> m.files == Committed(old(m.files), desired)
    ensures ok ==> CONFIG_FILE in desired && Reported(old(m.files), desired, res)
    ensures Settled(old(m.files), desired) ==> m.ops == old(m.ops) && m.trace == old(m.trace)
  {
    res := Result(false, [], [], []);
    if CONFIG_FILE !in desired {
      return false, res;
    }
    var keys := SortedMembers(desired.Keys);
    for i := 0 to |keys|
      invariant forall k | 0 <= k < i :: Recognized(keys[k])
    {
      if keys[i] != CONFIG_FILE && !(HasPrefix(keys[i], UDF_PREFIX) && HasSuffix(keys[i], WASM_SUFFIX)) {
        assert keys[i] in desired;
        return false, res;
      }
    }
    forall p | p in desired ensures Recognized(p) {
      assert p in keys;
    }
    ok, res := CommitStages(m, desired, keys);
  }

  /** Committing the same tree again finds nothing to do. */
  lemma CommittedIsSettled(files: Files, desired: Files)
    requires Committable(desired) && Flat(desired)
    ensures Settled(Committed(files, desired), desired)
  {
    forall p | p in Committed(files, desired) ensures !IsTemp(p) && (IsModule(p) ==> p in desired) {
      if p in desired {
        RecognizedNotStaging(p);
      }
    }
  }

  /** A commit touches no file of anybody else's, and of its own leaves exactly the tree. */
  lemma CommittedContents(files: Files, desired: Files, p: Str)
    requires Committable(desired) && Flat(desired)
    ensures p == CONFIG_FILE || IsModule(p) ==> At(Committed(files, desired), p) == At(desired, p)
    ensures IsTemp(p) ==> p !in Committed(files, desired)
    ensures p != CONFIG_FILE && !IsModule(p) && !IsTemp(p) ==> At(Committed(files, desired), p) == At(files, p)
  {
    if p in desired {
      RecognizedNotStaging(p);
    }
  }
}
