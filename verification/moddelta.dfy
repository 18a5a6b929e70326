/** Which third-party modules changed version in one `go.mod` between the
    two revisions (cmd/main.go, `getChangedMods`, `readModFiles`,
    `readModFileAtRef`). */
module ModDelta {
  import opened Results
  import opened GoMod
  import opened Repo

  /** `v` is the version of the last require of module `p` in `reqs`. */
  ghost predicate LastVersionIs(reqs: seq<Require>, p: string, v: string) {
    exists j :: 0 <= j < |reqs| && reqs[j] == Require(p, v) && NoLaterRequire(reqs, p, j)
  }

  /** No require after position `j` names module `p`. */
  ghost predicate NoLaterRequire(reqs: seq<Require>, p: string, j: int) {
    forall k :: 0 <= k < |reqs| && j < k ==> reqs[k].path != p
  }

  /** The previous requires keyed by module path, filled in file order, so
      a module required more than once keeps the version of its last
      require. */
  function PrevIndex(prev: seq<Require>): (m: map<string, string>)
    ensures m.Keys == Paths(prev)
    decreases |prev|
  {
    if |prev| == 0 then map[]
    else
      var init := prev[..|prev| - 1];
      var last := prev[|prev| - 1];
      assert Paths(prev) == Paths(init) + {last.path} by {
        assert forall i :: 0 <= i < |init| ==> init[i] == prev[i];
      }
      PrevIndex(init)[last.path := last.version]
  }

  /** Every entry of the index holds the version of the module's last
      require. */
  lemma {:induction false} PrevIndexKeepsLast(prev: seq<Require>, p: string)
    requires p in PrevIndex(prev)
    ensures LastVersionIs(prev, p, PrevIndex(prev)[p])
    decreases |prev|
  {
    var n := |prev|;
    var init := prev[..n - 1];
    var last := prev[n - 1];
    var m := PrevIndex(prev);
    if p == last.path {
      assert prev[n - 1] == Require(p, m[p]) && NoLaterRequire(prev, p, n - 1);
    } else {
      assert p in PrevIndex(init);
      PrevIndexKeepsLast(init, p);
      var j :| 0 <= j < |init| && init[j] == Require(p, m[p]) && NoLaterRequire(init, p, j);
      assert prev[j] == init[j];
      forall k | j < k < n ensures prev[k].path != p {
        if k < n - 1 { assert prev[k] == init[k]; }
      }
      assert NoLaterRequire(prev, p, j);
    }
  }

  /** The module delta: every module required by the current `go.mod` that
      the prev one also requires, at a different version. */
  function ModuleDelta(cur: seq<Require>, prev: seq<Require>): (r: set<string>)
    ensures r <= Paths(cur) && r <= Paths(prev)
  {
    var prevIndex := PrevIndex(prev);
    set i | 0 <= i < |cur| && cur[i].path in prevIndex && prevIndex[cur[i].path] != cur[i].version
      :: cur[i].path
  }

  /** The delta in full, for any prev file: a module is in it exactly
      when some current require of it names a version other than that of
      its last require in the prev file. */
  lemma DeltaExactly(cur: seq<Require>, prev: seq<Require>, p: string)
    ensures p in ModuleDelta(cur, prev) <==>
      exists i, j :: 0 <= i < |cur| && 0 <= j < |prev| && cur[i].path == p && prev[j].path == p
        && NoLaterRequire(prev, p, j) && cur[i].version != prev[j].version
  {
    var idx := PrevIndex(prev);
    if p in ModuleDelta(cur, prev) {
      var i :| 0 <= i < |cur| && cur[i].path == p && p in idx && idx[p] != cur[i].version;
      PrevIndexKeepsLast(prev, p);
      var j :| 0 <= j < |prev| && prev[j] == Require(p, idx[p]) && NoLaterRequire(prev, p, j);
      assert cur[i].path == p && prev[j].path == p && cur[i].version != prev[j].version;
    }
    if exists i, j :: 0 <= i < |cur| && 0 <= j < |prev| && cur[i].path == p && prev[j].path == p
        && NoLaterRequire(prev, p, j) && cur[i].version != prev[j].version {
      var i, j :| 0 <= i < |cur| && 0 <= j < |prev| && cur[i].path == p && prev[j].path == p
        && NoLaterRequire(prev, p, j) && cur[i].version != prev[j].version;
      assert p in Paths(prev);
      PrevIndexKeepsLast(prev, p);
      var j' :| 0 <= j' < |prev| && prev[j'] == Require(p, idx[p]) && NoLaterRequire(prev, p, j');
      assert j' == j;
      assert cur[i].path in ModuleDelta(cur, prev);
    }
  }

  /** With the prev file requiring each module once, a module is in the
      delta exactly when some current require and the prev require of that
      module name different versions. */
  lemma DeltaOfUniquePrev(cur: seq<Require>, prev: seq<Require>, p: string)
    requires UniquePaths(prev)
    ensures p in ModuleDelta(cur, prev) <==>
      exists i, j :: 0 <= i < |cur| && 0 <= j < |prev| && cur[i].path == p && prev[j].path == p
        && cur[i].version != prev[j].version
  {
    DeltaExactly(cur, prev, p);
    if exists i, j :: 0 <= i < |cur| && 0 <= j < |prev| && cur[i].path == p && prev[j].path == p
        && cur[i].version != prev[j].version {
      var i, j :| 0 <= i < |cur| && 0 <= j < |prev| && cur[i].path == p && prev[j].path == p
        && cur[i].version != prev[j].version;
      assert NoLaterRequire(prev, p, j);
    }
  }

  /** A module the prev `go.mod` did not require (an added module) is never
      in the delta. */
  lemma AddedModuleExcluded(cur: seq<Require>, prev: seq<Require>, p: string)
    requires p !in Paths(prev)
    ensures p !in ModuleDelta(cur, prev)
  {
  }

  /** A module the current `go.mod` no longer requires (a removed module)
      is never in the delta. */
  lemma RemovedModuleExcluded(cur: seq<Require>, prev: seq<Require>, p: string)
    requires p !in Paths(cur)
    ensures p !in ModuleDelta(cur, prev)
  {
  }

  /** A module required once in each file at the same version is not in the
      delta. */
  lemma SameVersionExcluded(cur: seq<Require>, prev: seq<Require>, i: nat, j: nat)
    requires UniquePaths(cur) && UniquePaths(prev)
    requires i < |cur| && j < |prev| && cur[i] == prev[j]
    ensures cur[i].path !in ModuleDelta(cur, prev)
  {
    DeltaOfUniquePrev(cur, prev, cur[i].path);
  }

  /** `readModFileAtRef`: show the file at the revision, then parse it;
      either failure is reported with the path and the revision. */
  function ReadModFileAtRef(env: Env, modPath: string, ref: string): Result<ModFile>
  {
    match env.show(ref, modPath)
    case Err(e) => Err("reading " + modPath + " at " + ref + ": " + e)
    case Ok(data) =>
      match env.parse(modPath, data)
      case Err(e) => Err("parsing mod file " + modPath + " at " + ref + ": " + e)
      case Ok(f) => Ok(f)
  }

  /** `readModFiles`: reads the old file (at `fromRef`) first and the
      current one (at `toRef`) second, and returns them current first. */
  function ReadModFiles(env: Env, modPath: string): Result<(ModFile, ModFile)>
  {
    var prevFile :- ReadModFileAtRef(env, modPath, env.fromRef);
    var curFile :- ReadModFileAtRef(env, modPath, env.toRef);
    Ok((curFile, prevFile))
  }

  /** `getChangedMods`: the delta from the `fromRef` file to the `toRef`
      file, or the first read or parse failure. */
  function GetChangedMods(env: Env, modPath: string): Result<set<string>>
  {
    var files :- ReadModFiles(env, modPath);
    Ok(ModuleDelta(files.0.require, files.1.require))
  }

  /** Reading a `go.mod` at a revision succeeds exactly when `git show` and
      the parse both succeed, and a failure names the file, the revision and
      the step that failed. */
  lemma ReadModFileAtRefOutcome(env: Env, modPath: string, ref: string)
    ensures var shown := env.show(ref, modPath);
      && (ReadModFileAtRef(env, modPath, ref).Ok? <==> shown.Ok? && env.parse(modPath, shown.value).Ok?)
      && (shown.Err? ==>
            ReadModFileAtRef(env, modPath, ref) == Err("reading " + modPath + " at " + ref + ": " + shown.error))
      && (shown.Ok? && env.parse(modPath, shown.value).Err? ==>
            ReadModFileAtRef(env, modPath, ref)
              == Err("parsing mod file " + modPath + " at " + ref + ": " + env.parse(modPath, shown.value).error))
      && (ReadModFileAtRef(env, modPath, ref).Ok? ==>
            ReadModFileAtRef(env, modPath, ref).value == env.parse(modPath, shown.value).value)
  {
  }

  /** The delta of one changed `go.mod`: it exists exactly when the file
      can be read at both revisions; it compares the `toRef` requires
      against the `fromRef` requires; and when both reads fail, the
      `fromRef` failure is the one reported. */
  lemma GetChangedModsOutcome(env: Env, modPath: string)
    ensures var prevFile := ReadModFileAtRef(env, modPath, env.fromRef);
      var curFile := ReadModFileAtRef(env, modPath, env.toRef);
      && (GetChangedMods(env, modPath).Ok? <==> prevFile.Ok? && curFile.Ok?)
      && (prevFile.Err? ==> GetChangedMods(env, modPath) == Err(prevFile.error))
      && (prevFile.Ok? && curFile.Err? ==> GetChangedMods(env, modPath) == Err(curFile.error))
      && (prevFile.Ok? && curFile.Ok? ==>
            GetChangedMods(env, modPath) == Ok(ModuleDelta(curFile.value.require, prevFile.value.require)))
  {
  }
}
