/** `collectChanges` (cmd/main.go): one walk over the changed files that
    attributes each file to its owning package and recomputes the module
    delta at every changed `go.mod`. */
module Collect {
  import opened Results
  import opened Packages
  import opened FilePath
  import opened Repo
  import opened ModDelta

  /** The directly changed package paths and the module delta. */
  datatype Changes = Changes(pkgs: set<string>, mods: set<string>)

  /** The package a changed file is attributed to: its first owner. */
  function Owner(pkgs: seq<Package>, env: Env, path: string): (r: Option<string>)
    ensures r.Some? ==> r.value in PkgPaths(pkgs)
    ensures r.Some? ==> exists j :: (0 <= j < |pkgs| && pkgs[j].pkgPath == r.value
      && FileInPkg(pkgs[j], env.join, env.repoDir, path)
      && forall k :: 0 <= k < j ==> !FileInPkg(pkgs[k], env.join, env.repoDir, path))
    ensures r.None? <==> forall j :: 0 <= j < |pkgs| ==> !FileInPkg(pkgs[j], env.join, env.repoDir, path)
  {
    match FirstOwner(pkgs, env.join, env.repoDir, path)
    case None => None
    case Some(j) => Some(pkgs[j].pkgPath)
  }

  /** The packages the changed files are attributed to. */
  function DirectPackages(pkgs: seq<Package>, env: Env, files: seq<string>): (r: set<string>)
    ensures r <= PkgPaths(pkgs)
  {
    set i | 0 <= i < |files| && Owner(pkgs, env, files[i]).Some? :: Owner(pkgs, env, files[i]).value
  }

  /** The position of the last changed file, in diff order, that is a
      `go.mod`. */
  function LastGoMod(files: seq<string>): (r: Option<nat>)
    ensures r.Some? ==> r.value < |files| && IsGoMod(files[r.value])
    ensures r.Some? ==> forall k :: r.value < k < |files| ==> !IsGoMod(files[k])
    ensures r.None? ==> forall k :: 0 <= k < |files| ==> !IsGoMod(files[k])
    decreases |files|
  {
    if |files| == 0 then None
    else
      assert forall k :: 0 < k < |files| ==> files[k] == files[1..][k - 1];
      match LastGoMod(files[1..])
      case Some(i) => Some(i + 1)
      case None => if IsGoMod(files[0]) then Some(0) else None
  }

  /** The module delta the walk ends with: that of the last changed
      `go.mod`, or none when no `go.mod` changed. */
  function FinalModDelta(env: Env, files: seq<string>): set<string>
  {
    match LastGoMod(files)
    case None => {}
    case Some(i) =>
      var delta := GetChangedMods(env, files[i]);
      if delta.Ok? then delta.value else {}
  }

  /** Every changed `go.mod` among `files` can be read and parsed at both
      revisions. */
  predicate GoModsReadable(env: Env, files: seq<string>) {
    forall i :: 0 <= i < |files| && IsGoMod(files[i]) ==> GetChangedMods(env, files[i]).Ok?
  }

  /** The first changed `go.mod` among `files` that cannot be read or
      parsed fails with `e`. */
  predicate FirstGoModFailure(env: Env, files: seq<string>, e: string) {
    exists i :: (0 <= i < |files| && IsGoMod(files[i]) && GetChangedMods(env, files[i]) == Err(e)
      && GoModsReadable(env, files[..i]))
  }

  lemma GoModsReadableCons(env: Env, files: seq<string>)
    requires |files| > 0
    ensures GoModsReadable(env, files) <==>
      (IsGoMod(files[0]) ==> GetChangedMods(env, files[0]).Ok?) && GoModsReadable(env, files[1..])
  {
    assert forall i :: 0 < i < |files| ==> files[1..][i - 1] == files[i];
  }

  lemma FirstGoModFailureHead(env: Env, files: seq<string>, e: string)
    requires |files| > 0
    requires IsGoMod(files[0]) && GetChangedMods(env, files[0]) == Err(e)
    ensures FirstGoModFailure(env, files, e)
  {
    assert files[..0] == [];
    assert GoModsReadable(env, files[..0]);
  }

  lemma FirstGoModFailureTail(env: Env, files: seq<string>, e: string)
    requires |files| > 0
    requires IsGoMod(files[0]) ==> GetChangedMods(env, files[0]).Ok?
    requires FirstGoModFailure(env, files[1..], e)
    ensures FirstGoModFailure(env, files, e)
  {
    var tail := files[1..];
    var i :| 0 <= i < |tail| && IsGoMod(tail[i]) && GetChangedMods(env, tail[i]) == Err(e)
      && GoModsReadable(env, tail[..i]);
    var prefix := files[..i + 1];
    forall k | 0 <= k < |prefix| && IsGoMod(prefix[k]) ensures GetChangedMods(env, prefix[k]).Ok? {
      if k > 0 {
        assert prefix[k] == tail[..i][k - 1];
      }
    }
    assert GoModsReadable(env, prefix);
    assert files[i + 1] == tail[i];
  }

  lemma DirectPackagesCons(pkgs: seq<Package>, env: Env, files: seq<string>)
    requires |files| > 0
    ensures DirectPackages(pkgs, env, files)
      == (if Owner(pkgs, env, files[0]).Some? then {Owner(pkgs, env, files[0]).value} else {})
         + DirectPackages(pkgs, env, files[1..])
  {
    forall x | x in DirectPackages(pkgs, env, files)
      ensures x in DirectPackages(pkgs, env, files[1..]) || Owner(pkgs, env, files[0]) == Some(x)
    {
      var i :| 0 <= i < |files| && Owner(pkgs, env, files[i]) == Some(x);
      if i > 0 {
        assert files[1..][i - 1] == files[i];
      }
    }
    forall x | x in DirectPackages(pkgs, env, files[1..])
      ensures x in DirectPackages(pkgs, env, files)
    {
      var i :| 0 <= i < |files[1..]| && Owner(pkgs, env, files[1..][i]) == Some(x);
      assert files[i + 1] == files[1..][i];
    }
  }

  /** The walk from some point on, starting from the changes collected so
      far. */
  function CollectFrom(env: Env, pkgs: seq<Package>, files: seq<string>, acc: Changes): (r: Result<Changes>)
    ensures r.Ok? <==> GoModsReadable(env, files)
    ensures r.Err? ==> FirstGoModFailure(env, files, r.error)
    ensures r.Ok? ==> r.value.pkgs == acc.pkgs + DirectPackages(pkgs, env, files)
    ensures r.Ok? && LastGoMod(files).Some? ==> GetChangedMods(env, files[LastGoMod(files).value]) == Ok(r.value.mods)
    ensures r.Ok? && LastGoMod(files).None? ==> r.value.mods == acc.mods
    decreases |files|
  {
    if |files| == 0 then Ok(acc)
    else
      var path := files[0];
      var mods :- (if IsGoMod(path) then
                     var delta := GetChangedMods(env, path);
                     if delta.Err? then FirstGoModFailureHead(env, files, delta.error); delta
                     else delta
                   else Ok(acc.mods));
      var owned := match Owner(pkgs, env, path)
        case Some(p) => acc.pkgs + {p}
        case None => acc.pkgs;
      var r := CollectFrom(env, pkgs, files[1..], Changes(owned, mods));
      GoModsReadableCons(env, files);
      if r.Err? then
        FirstGoModFailureTail(env, files, r.error);
        r
      else
        DirectPackagesCons(pkgs, env, files);
        r
  }

  /** `collectChanges`. On success: the directly changed packages are the
      owners of the changed files, and the module delta is that of the last
      changed `go.mod` (earlier ones are replaced, not merged). On failure:
      the error is that of the first changed `go.mod` that could not be
      read or parsed, and nothing else is returned. */
  function CollectChanges(env: Env, pkgs: seq<Package>, files: seq<string>): (r: Result<Changes>)
    ensures r.Ok? <==> GoModsReadable(env, files)
    ensures r.Err? ==> FirstGoModFailure(env, files, r.error)
    ensures r.Ok? ==> r.value.pkgs == DirectPackages(pkgs, env, files)
    ensures r.Ok? ==> r.value.mods == FinalModDelta(env, files)
  {
    CollectFrom(env, pkgs, files, Changes({}, {}))
  }

  /** A changed file adds at most one package, its first owner. */
  lemma OneFileOnePackage(pkgs: seq<Package>, env: Env, path: string)
    ensures |DirectPackages(pkgs, env, [path])| <= 1
    ensures forall x :: x in DirectPackages(pkgs, env, [path]) ==>
      exists j :: 0 <= j < |pkgs| && pkgs[j].pkgPath == x && FileInPkg(pkgs[j], env.join, env.repoDir, path)
        && forall k :: 0 <= k < j ==> !FileInPkg(pkgs[k], env.join, env.repoDir, path)
  {
    var d := DirectPackages(pkgs, env, [path]);
    assert [path][0] == path;
    if Owner(pkgs, env, path).Some? {
      assert Owner(pkgs, env, path).value in d;
      assert d == {Owner(pkgs, env, path).value};
    } else {
      assert d == {};
    }
  }

  /** A changed file that no package owns contributes nothing. */
  lemma UnownedFileIgnored(pkgs: seq<Package>, env: Env, files: seq<string>, path: string)
    requires forall j :: 0 <= j < |pkgs| ==> !FileInPkg(pkgs[j], env.join, env.repoDir, path)
    ensures DirectPackages(pkgs, env, files + [path]) == DirectPackages(pkgs, env, files)
  {
    var files' := files + [path];
    forall x | x in DirectPackages(pkgs, env, files') ensures x in DirectPackages(pkgs, env, files) {
      var i :| 0 <= i < |files'| && Owner(pkgs, env, files'[i]) == Some(x);
      assert i < |files| && files'[i] == files[i];
    }
    forall x | x in DirectPackages(pkgs, env, files) ensures x in DirectPackages(pkgs, env, files') {
      var i :| 0 <= i < |files| && Owner(pkgs, env, files[i]) == Some(x);
      assert files'[i] == files[i];
    }
  }

  /** Two changed `go.mod` files: the delta of the second replaces that of
      the first instead of being merged with it. */
  lemma LastGoModWins(env: Env, pkgs: seq<Package>, first: string, second: string)
    requires IsGoMod(first) && IsGoMod(second)
    requires GetChangedMods(env, first).Ok? && GetChangedMods(env, second).Ok?
    ensures CollectChanges(env, pkgs, [first, second]).Ok?
    ensures CollectChanges(env, pkgs, [first, second]).value.mods == GetChangedMods(env, second).value
  {
    var files := [first, second];
    assert files[0] == first && files[1] == second;
    assert LastGoMod(files) == Some(1);
  }
}
