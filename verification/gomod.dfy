/** The part of a parsed `go.mod` file the tool reads: its require lines. */
module GoMod {

  /** One `require` entry: a module path and the version it is pinned to. */
  datatype Require = Require(path: string, version: string)

  /** A parsed `go.mod`, reduced to its requires in file order. */
  datatype ModFile = ModFile(require: seq<Require>)

  /** The module paths required by a list of requires. */
  function Paths(reqs: seq<Require>): set<string>
  {
    set i | 0 <= i < |reqs| :: reqs[i].path
  }

  /** Each module is required at most once, as in a well-formed `go.mod`. */
  predicate UniquePaths(reqs: seq<Require>) {
    forall a, b :: 0 <= a < b < |reqs| ==> reqs[a].path != reqs[b].path
  }
}
