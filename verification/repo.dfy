/** The outside world the change computation consults: the repository, the
    two revisions, and the external operations it calls. */
module Repo {
  import opened Results
  import opened GoMod
  import opened Packages

  /** `repoDir` is already absolute. `diff` is the outcome of
      `git diff --name-only -z fromRef toRef`; `show(ref, path)` the outcome
      of `git show ref:path`; `parse(path, content)` the outcome of
      `modfile.Parse`. */
  datatype Env = Env(
    repoDir: string,
    fromRef: string,
    toRef: string,
    join: PathJoin,
    diff: Result<string>,
    show: (string, string) -> Result<string>,
    parse: (string, string) -> Result<ModFile>)
}
