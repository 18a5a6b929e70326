# go-changed-pkgs, modelled in Dafny

`go-changed-pkgs` lists the Go packages of a module that are affected by the
changes between two git revisions. A package is affected when:

- it is the first listed package whose files include a changed file;
- it imports a package of a third-party module whose required version changed in a changed `go.mod`; or
- it imports, over any number of hops, a local package for which either of the above holds.

The model covers the computation in `cmd/main.go`:

- Splitting the NUL-terminated output of `git diff --name-only -z` into paths (`Diff`, built on `Strings`).
- Attributing each changed file to the first package that lists it (`Packages`, `Collect`).
- Recognising changed `go.mod` files by base name (`FilePath`).
- Computing the module delta: modules required in both versions of a `go.mod`, at different versions (`ModDelta`).
- Reading both versions with their exact error messages (`ModDelta`).
- Deciding whether a package's imports make it changed (`Imports`).
- The single forward pass that propagates changes through imports (`Propagation`).
- The top-level `getChangedPackages` with its error paths (`Changed`).

It also covers the `--log-level` flag value in `internal/flag/loglevel.go` (`LogLevel`).

Outside effects are parameters. The `Repo.Env` value carries:

- the absolute repository directory;
- the two revisions;
- `filepath.Join`;
- the outcome of the `git diff` command;
- `git show ref:path` as a function from (revision, path) to an outcome;
- `modfile.Parse` as a function from (path, content) to a parsed file or an error.

The package loader's result is a parameter of type `Result<seq<Package>>`, in loader order.

The central results are:

- **The pass computes the closure.** `Propagation.PropagateIsClosure` shows that the pass returns exactly the packages reachable by an import chain from a directly changed package, or from a package importing a changed module. This holds when dependencies come before their importers in the list, which the loader guarantees. `Changed.ChangedPackagesAreClosure` lifts this to the whole computation, where the directly changed packages are the first owners of the changed files.
- **Soundness needs no ordering.** `Propagation.PropagateSound` shows that, without that order, every reported package is still impacted.
- **The order is needed for completeness.** `Propagation.OrderMatters` exhibits a two-hop chain listed out of order, where an impacted package is missed.

Two behaviours of the code are easy to miss:

- **Several changed `go.mod` files.** Each later one replaces the whole module delta of the earlier ones, because `collectChanges` reassigns the delta (cmd/main.go:246). Nothing is merged per module name (`Collect.CollectChanges`, `Collect.FinalModDelta`, `Collect.LastGoModWins`).
- **An empty diff.** It yields one empty path, not an empty list (`Diff.EmptyDiff`).
- **A file listed by several packages.** It marks only the first listed package whose files include it: the search stops at the first match, on the assumption that a file belongs to one package (cmd/main.go:262-264). A later package that also lists the file, for example by embedding it, is reported only if its imports mark it (`Collect.OneFileOnePackage`, `Scenarios.SharedFileMarksFirstOwner`).

## Model

| member | source | states |
|---|---|---|
| Strings.TrimSuffix | cmd/main.go:229 | with the suffix present, the result followed by the suffix is the input; without it, the input is returned unchanged |
| Strings.Split | cmd/main.go:229 | at least one piece; no piece contains the separator; joining the pieces with the separator gives back the input |
| Strings.SplitJoin | cmd/main.go:229 | splitting a separator-free, non-empty list of pieces after joining them gives the pieces back |
| Diff.ChangedFiles | cmd/main.go:228-229 | at least one path; no path contains NUL; the paths joined by NUL rebuild the output, minus the one trailing NUL when it is present |
| Diff.GetChangedFiles | cmd/main.go:223-229 | a failed diff is reported as "listing changed files: " followed by the cause; a successful one yields exactly the split of its output, at least one path |
| Diff.TerminatedIsJoin | cmd/main.go:228 | NUL-terminating each path is the same as joining them by NUL and appending one NUL |
| Diff.ChangedFilesRoundTrip | cmd/main.go:228-229 | the reported paths are recovered exactly from git's NUL-terminated output |
| Diff.EmptyDiff | cmd/main.go:228-229 | an empty output yields the single path "" |
| Diff.TwoFiles | cmd/main.go:228-229 | "a\0b\0" yields ["a", "b"] |
| FilePath.TrimTrailingSeparatorsSpec | cmd/main.go:245 | the trimmed path is a prefix of the input; it is empty or does not end in a separator; only separators were removed |
| FilePath.LastElementSpec | cmd/main.go:245 | the last element contains no separator, is a suffix of the path, and is either the whole path or preceded by a separator |
| FilePath.LastElementAfterSeparator | cmd/main.go:245 | a separator-free name after an empty or separator-terminated prefix is the last element |
| FilePath.LastElementIs | cmd/main.go:245 | the last element is e exactly when the path is e or ends with "/" followed by e |
| FilePath.IsGoModSuffix | cmd/main.go:245 | a path names a go.mod exactly when, after dropping trailing slashes, it is "go.mod" or ends in "/go.mod" |
| Packages.FirstOwner | cmd/main.go:253-266 | the index returned is that of a package listing the joined path among its Go, other or embedded files, and no earlier package lists it; None exactly when no package lists it |
| Collect.Owner | cmd/main.go:253-266 | the owner is the path of a package listing the joined path, with no earlier package listing it; None exactly when no package lists the joined path |
| Collect.DirectPackages | cmd/main.go:253-266 | the directly changed packages are all listed packages |
| Collect.LastGoMod | cmd/main.go:244-251 | the index is that of a go.mod with no go.mod after it; None exactly when no changed file is a go.mod |
| Collect.CollectFrom | cmd/main.go:244-267 | the walk fails exactly when some go.mod cannot be read and parsed, and then with the first such error; on success it adds every file's owner and ends with the last go.mod's delta |
| Collect.CollectChanges | cmd/main.go:232-270 | success exactly when every changed go.mod can be read at both revisions; otherwise the first such failure; on success the directly changed packages and the last go.mod's delta |
| Collect.LastGoModWins | cmd/main.go:244-251 | with two readable changed go.mod files, the delta of the second replaces that of the first |
| Collect.OneFileOnePackage | cmd/main.go:262-264 | one changed file marks at most one package, and that package is its first owner |
| Collect.UnownedFileIgnored | cmd/main.go:253-266 | a changed file no package owns changes nothing |
| ModDelta.PrevIndex | cmd/main.go:288-291 | the index is keyed by exactly the previously required module paths |
| ModDelta.PrevIndexKeepsLast | cmd/main.go:288-291 | for a repeated module path, the index keeps the version of its last require |
| ModDelta.ModuleDelta | cmd/main.go:284-301 | only modules required by both versions are in the delta |
| ModDelta.DeltaExactly | cmd/main.go:284-301 | a module is in the delta exactly when some current require of it names a version other than its last require in the previous file |
| ModDelta.DeltaOfUniquePrev | cmd/main.go:293-299 | with each module required once before, a module is in the delta exactly when the current file requires it at a version other than the previous one |
| ModDelta.AddedModuleExcluded | cmd/main.go:293-298 | a module that is newly required is never in the delta |
| ModDelta.RemovedModuleExcluded | cmd/main.go:285-287 | a module that is no longer required is never in the delta |
| ModDelta.SameVersionExcluded | cmd/main.go:295-297 | a module at the same version in both files is not in the delta |
| ModDelta.ReadModFileAtRefOutcome | cmd/main.go:323-344 | a failed git show reports "reading P at R: "; a failed parse reports "parsing mod file P at R: "; otherwise the parsed file |
| ModDelta.GetChangedModsOutcome | cmd/main.go:272-321 | the delta exists exactly when both revisions read; the fromRef failure is reported first; the delta compares toRef requires against fromRef requires |
| Imports.IsChangedFromImports | cmd/main.go:355-388 | whatever order the imports are visited in, the answer is true exactly when an import is a changed package or belongs to a changed module |
| Imports.LoopAnswerIsChangedFromImports | cmd/main.go:177 | the loop's answer is the predicate the propagation pass marks packages by |
| Propagation.Propagate | cmd/main.go:171-180 | marked packages stay marked, and only listed packages are added |
| Propagation.PropagateIsClosure | cmd/main.go:171-182 | with dependencies listed first, the pass returns exactly the packages reachable by an import chain from a directly changed package or an importer of a changed module |
| Propagation.PropagateSound | cmd/main.go:171-182 | in any order, every package the pass adds is impacted |
| Propagation.OrderMatters | cmd/main.go:171-172 | a two-hop chain listed out of order leaves an impacted package unreported |
| Propagation.ImpactedUnfold | cmd/main.go:128-133 | a package is impacted exactly when it is directly changed, imports a changed module, or imports an impacted package |
| Propagation.PropagateFollowsRules | cmd/main.go:128-133 | with dependencies first and unique paths, a package is reported exactly when one of the three documented rules applies to it |
| Changed.FirstWithErrors | cmd/main.go:208-212 | the first package, in list order, that carries load errors |
| Changed.LoadLocalPackages | cmd/main.go:185-215 | a load failure becomes "failed listing local packages: "; the load fails exactly when some package has errors, reporting the first such package with its path and errors; otherwise the packages are unchanged |
| Changed.GetChangedPackages | cmd/main.go:134-183 | a load failure or a package with errors is reported with its load message; then a diff failure; then the first changed go.mod that cannot be read; with loading and the diff successful, success exactly when every changed go.mod reads, and the result holds the directly changed packages and only listed packages |
| Changed.ChangedPackagesAreClosure | cmd/main.go:128-183 | with dependencies listed first, a successful result is exactly the import closure of the files' owners and the last go.mod's delta |
| Scenarios.DependencyChange | cmd/main.go:128-133 | a changed file of b marks b, and a, which imports b |
| Scenarios.ModuleChange | cmd/main.go:128-133 | a changed third-party module marks its importer alone |
| Scenarios.SharedFileMarksFirstOwner | cmd/main.go:262-264 | a file listed by two packages marks only the first, and the second stays unreported when nothing it imports changed |
| Scenarios.UnrelatedChange | cmd/main.go:128-133 | a file outside every package marks nothing |
| LogLevel.ValidNames | internal/flag/loglevel.go:36-48 | the accepted names joined by ", " read "debug, info, warn, error" |
| LogLevel.Set | internal/flag/loglevel.go:67-80 | accepted exactly when the value is one of the four names, case-sensitively; on success Get returns that name's level; on failure the stored level is unchanged and the message names the value and lists the valid names |
| LogLevel.NewSlogLevelValueFlag | internal/flag/loglevel.go:57-65 | the flag is named "log-level", defaults to Warn, and uses the usage text listing the names |
| LogLevel.SetThenGetIdentifiesName | internal/flag/loglevel.go:67-84 | two accepted names set the same level exactly when they are the same name |
| LogLevel.AcceptedNames | internal/flag/loglevel.go:67-73 | debug, info, warn and error set -4, 0, 4 and 8 |
| LogLevel.RejectedNames | internal/flag/loglevel.go:75-79 | "trace", "" and "InFO" are rejected with the value unchanged |

## Left out

- Running git: `runCmd` and `runGitCmd` are not modelled. Their outcomes are the `diff` and `show` fields of `Repo.Env`.
- `packages.Load`: modelled as a given result. The dependency order the loader promises is the `Packages.TopoOrdered` precondition of the closure lemmas, not a derived fact.
- `modfile.Parse`: modelled as a given function returning the list of requires.
- `filepath.Abs` and `filepath.Join` are not modelled. The repository directory is taken as already absolute, and the join is an arbitrary function. The `Abs` failure branch (cmd/main.go:148-151) is therefore not modelled.
- `filepath.Base` is modelled for the slash separator only, as on Unix.
- Strings are sequences of Unicode characters, while Go strings are raw bytes, so a path that is not valid UTF-8 cannot be represented. The core only compares, joins and splits paths on NUL and '/', so no behaviour depends on this.
- Strings.Split: modelled for a one-character separator only, which is all the diff splitting needs.
- Changed.GetChangedPackages: returns a set. `maps.Keys` returns the keys in an unspecified order, and the printing in `printChangedPackages` (cmd/main.go:103-126) is left out.
- The command-line wiring (`main`, `runApp`, `buildApp`, the urfave/cli application, flag parsing): not modelled. That includes the fact that `Set` is not called when the flag is absent, and the zero `SlogLevelValue` holding level 0, Info.
- Logging through slog, signal handling and exit codes (`getAppStatus`): not modelled, since they do not affect the computed set.
- LogLevel.Set: the parse of an accepted name is written as a direct table from name to level. The result is the same level `slog.Level.UnmarshalText` gives for these four names.
