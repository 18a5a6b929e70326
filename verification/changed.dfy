/** `getChangedPackages` and the load check of `loadLocalPackages`
    (cmd/main.go): the whole computation, from the loaded packages and the
    diff to the set of changed package paths. */
module Changed {
  import opened Results
  import opened Strings
  import opened Packages
  import opened Diff
  import opened Repo
  import opened Collect
  import opened Propagation

  /** How Go's `%v` prints a list of package errors. */
  function RenderErrors(errs: seq<string>): string
  {
    "[" + Join(errs, " ") + "]"
  }

  /** The index of the first package that carries load errors. */
  function FirstWithErrors(pkgs: seq<Package>): (r: Option<nat>)
    ensures r.Some? ==> r.value < |pkgs| && pkgs[r.value].errors != []
    ensures r.Some? ==> forall k :: 0 <= k < r.value ==> pkgs[k].errors == []
    ensures r.None? ==> forall k :: 0 <= k < |pkgs| ==> pkgs[k].errors == []
    decreases |pkgs|
  {
    if |pkgs| == 0 then None
    else if pkgs[0].errors != [] then Some(0)
    else
      match FirstWithErrors(pkgs[1..])
      case None => None
      case Some(i) => Some(i + 1)
  }

  /** The checks `loadLocalPackages` makes on what the loader returned: a
      loader failure is wrapped, and the first package carrying errors
      fails the load with its path and its errors. */
  function LoadLocalPackages(loaded: Result<seq<Package>>): (r: Result<seq<Package>>)
    ensures loaded.Err? ==> r == Err("failed listing local packages: " + loaded.error)
    ensures loaded.Ok? ==> (r.Ok? <==> forall k :: 0 <= k < |loaded.value| ==> loaded.value[k].errors == [])
    ensures r.Ok? ==> r == loaded
    ensures loaded.Ok? && r.Err? ==> exists i :: (0 <= i < |loaded.value| && loaded.value[i].errors != []
      && (forall k :: 0 <= k < i ==> loaded.value[k].errors == [])
      && r.error == "failed querying package " + loaded.value[i].pkgPath + ": "
                    + RenderErrors(loaded.value[i].errors))
  {
    match loaded
    case Err(e) => Err("failed listing local packages: " + e)
    case Ok(pkgs) =>
      match FirstWithErrors(pkgs)
      case Some(i) => Err("failed querying package " + pkgs[i].pkgPath + ": " + RenderErrors(pkgs[i].errors))
      case None => Ok(pkgs)
  }

  /** `getChangedPackages`: load, list the changed files, collect the
      direct changes, then propagate them in one pass. Every failure ends
      the computation with no packages; on success the result holds every
      directly changed package and only listed packages. */
  function GetChangedPackages(env: Env, loaded: Result<seq<Package>>): (r: Result<set<string>>)
    ensures loaded.Err? ==> r == Err("failed listing local packages: " + loaded.error)
    ensures LoadLocalPackages(loaded).Err? ==> r == Err(LoadLocalPackages(loaded).error)
    ensures LoadLocalPackages(loaded).Ok? && env.diff.Err? ==> r == Err("listing changed files: " + env.diff.error)
    ensures r.Ok? ==> LoadLocalPackages(loaded).Ok? && env.diff.Ok?
    ensures LoadLocalPackages(loaded).Ok? && env.diff.Ok? ==>
      (r.Ok? <==> GoModsReadable(env, ChangedFiles(env.diff.value)))
    ensures LoadLocalPackages(loaded).Ok? && env.diff.Ok? && r.Err? ==>
      FirstGoModFailure(env, ChangedFiles(env.diff.value), r.error)
    ensures r.Ok? ==>
      var files := ChangedFiles(env.diff.value);
      DirectPackages(loaded.value, env, files) <= r.value <= PkgPaths(loaded.value)
  {
    var pkgs :- LoadLocalPackages(loaded);
    var files :- GetChangedFiles(env.diff);
    var changes :- CollectChanges(env, pkgs, files);
    Ok(Propagate(pkgs, changes.pkgs, changes.mods))
  }

  /** The doc comment of `getChangedPackages`, end to end: on success, and
      with the packages in the loader's dependency order, the result is
      exactly the set of packages that are the first owner of a changed
      file, import a package
      of a module whose version changed in the last changed `go.mod`, or
      import such packages over any number of hops. */
  lemma ChangedPackagesAreClosure(env: Env, loaded: Result<seq<Package>>)
    requires GetChangedPackages(env, loaded).Ok?
    requires loaded.Ok? && TopoOrdered(loaded.value)
    ensures env.diff.Ok?
    ensures var files := ChangedFiles(env.diff.value);
      GetChangedPackages(env, loaded).value
        == ImpactedPaths(loaded.value, DirectPackages(loaded.value, env, files), FinalModDelta(env, files))
  {
    var pkgs := loaded.value;
    var files := ChangedFiles(env.diff.value);
    var changes := CollectChanges(env, pkgs, files).value;
    PropagateIsClosure(pkgs, changes.pkgs, changes.mods);
  }
}
