/** Turning the output of `git diff --name-only -z` into the list of
    changed paths (cmd/main.go, `getChangedFiles`). */
module Diff {
  import opened Results
  import opened Strings

  /** The terminator `git diff -z` writes after every path. */
  const Nul: char := '\0'

  /** What `git diff -z` prints for a list of paths: each path followed by
      a NUL. */
  function Terminated(paths: seq<string>): string
  {
    if |paths| == 0 then "" else paths[0] + [Nul] + Terminated(paths[1..])
  }

  /** Drops one trailing NUL, then splits on NUL. The pieces are NUL-free
      and, joined back with NUL separators, rebuild the trimmed output. */
  function ChangedFiles(out: string): (r: seq<string>)
    ensures |r| >= 1
    ensures forall i :: 0 <= i < |r| ==> Nul !in r[i]
    ensures HasSuffix(out, [Nul]) ==> Join(r, [Nul]) + [Nul] == out
    ensures !HasSuffix(out, [Nul]) ==> Join(r, [Nul]) == out
  {
    Split(TrimSuffix(out, [Nul]), Nul)
  }

  /** The error-wrapping step around the diff command. */
  function GetChangedFiles(diff: Result<string>): (r: Result<seq<string>>)
    ensures diff.Err? ==> r == Err("listing changed files: " + diff.error)
    ensures diff.Ok? ==> r == Ok(ChangedFiles(diff.value))
    ensures diff.Ok? ==> |r.value| >= 1
  {
    match diff
    case Err(e) => Err("listing changed files: " + e)
    case Ok(out) => Ok(ChangedFiles(out))
  }

  /** NUL-terminated output of one or more paths is the NUL-join of those
      paths followed by one NUL. */
  lemma {:induction false} TerminatedIsJoin(paths: seq<string>)
    requires |paths| >= 1
    ensures Terminated(paths) == Join(paths, [Nul]) + [Nul]
    decreases |paths|
  {
    if |paths| > 1 {
      TerminatedIsJoin(paths[1..]);
      assert Terminated(paths) == paths[0] + [Nul] + (Join(paths[1..], [Nul]) + [Nul]);
    } else {
      assert paths[1..] == [];
    }
  }

  /** Splitting recovers exactly the paths git reported, provided at least
      one path was reported and none contains a NUL. */
  lemma ChangedFilesRoundTrip(paths: seq<string>)
    requires |paths| >= 1
    requires forall i :: 0 <= i < |paths| ==> Nul !in paths[i]
    ensures ChangedFiles(Terminated(paths)) == paths
  {
    TerminatedIsJoin(paths);
    var out := Terminated(paths);
    assert HasSuffix(out, [Nul]);
    assert TrimSuffix(out, [Nul]) == Join(paths, [Nul]);
    SplitJoin(paths, Nul);
  }

  /** An empty diff yields one empty path rather than no path. */
  lemma EmptyDiff()
    ensures ChangedFiles("") == [""]
  {
  }

  /** The two-file example: "a\0b\0" splits into "a" and "b". */
  lemma TwoFiles()
    ensures ChangedFiles("a\0b\0") == ["a", "b"]
  {
    assert "a\0b\0" == Terminated(["a", "b"]);
    ChangedFilesRoundTrip(["a", "b"]);
  }
}
