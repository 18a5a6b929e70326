/** Local packages as the package loader reports them, and file ownership
    (cmd/main.go, `fileInPkg` and the attribution loop of `collectChanges`). */
module Packages {
  import opened Results

  /** Import path to the path of the module providing the imported package
      (None when the imported package has no module record, as for a
      standard-library package). */
  type ImportMap = map<string, Option<string>>

  /** A local package: its import path, the absolute paths of the files it
      owns (Go sources, other files such as assembly, embedded files), its
      imports with the module providing each, and the load errors it
      carries. */
  datatype Package = Package(
    pkgPath: string,
    goFiles: seq<string>,
    otherFiles: seq<string>,
    embedFiles: seq<string>,
    imports: ImportMap,
    errors: seq<string>)

  /** `filepath.Join`, taken as given: any deterministic way of resolving a
      path relative to the repository directory. */
  type PathJoin = (string, string) -> string

  /** `fileInPkg`: the package lists the joined path among any of its three
      kinds of owned files. */
  predicate FileInPkg(pkg: Package, join: PathJoin, repoDir: string, path: string) {
    var absPath := join(repoDir, path);
    absPath in pkg.goFiles || absPath in pkg.otherFiles || absPath in pkg.embedFiles
  }

  /** The index of the first package, in list order, that owns `path`; the
      attribution loop stops at that package. */
  function FirstOwner(pkgs: seq<Package>, join: PathJoin, repoDir: string, path: string): (r: Option<nat>)
    ensures r.Some? ==> r.value < |pkgs| && FileInPkg(pkgs[r.value], join, repoDir, path)
    ensures r.Some? ==> forall j :: 0 <= j < r.value ==> !FileInPkg(pkgs[j], join, repoDir, path)
    ensures r.None? ==> forall j :: 0 <= j < |pkgs| ==> !FileInPkg(pkgs[j], join, repoDir, path)
    decreases |pkgs|
  {
    if |pkgs| == 0 then None
    else if FileInPkg(pkgs[0], join, repoDir, path) then Some(0)
    else
      match FirstOwner(pkgs[1..], join, repoDir, path)
      case None => None
      case Some(i) => Some(i + 1)
  }

  /** The import paths of the listed packages. */
  function PkgPaths(pkgs: seq<Package>): set<string>
  {
    set i | 0 <= i < |pkgs| :: pkgs[i].pkgPath
  }

  /** The order the loader guarantees: a package that imports a listed
      package comes after it. */
  ghost predicate TopoOrdered(pkgs: seq<Package>) {
    forall a, b :: 0 <= a < |pkgs| && 0 <= b < |pkgs| && pkgs[b].pkgPath in pkgs[a].imports ==> b < a
  }

  /** No two listed packages share an import path. */
  predicate UniquePkgPaths(pkgs: seq<Package>) {
    forall a, b :: 0 <= a < b < |pkgs| ==> pkgs[a].pkgPath != pkgs[b].pkgPath
  }
}
