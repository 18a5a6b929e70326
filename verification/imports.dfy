/** `isChangedFromImports` (cmd/main.go): does a package import a changed
    local package or a package of a changed third-party module? */
module Imports {
  import opened Results
  import opened Packages

  /** The import `ip` is a reason to mark the importer: it is a changed
      package, or its module is in the module delta. */
  predicate ImportChanged(imports: ImportMap, mods: set<string>, changed: set<string>, ip: string)
    requires ip in imports
  {
    ip in changed || (imports[ip].Some? && imports[ip].value in mods)
  }

  /** Some import is a reason to mark the importer. */
  predicate ChangedFromImports(imports: ImportMap, mods: set<string>, changed: set<string>) {
    exists ip :: ip in imports && ImportChanged(imports, mods, changed, ip)
  }

  /** Some import belongs to a module in the module delta. */
  predicate ImportsChangedModule(imports: ImportMap, mods: set<string>) {
    exists ip :: ip in imports && imports[ip].Some? && imports[ip].value in mods
  }

  /** The loop of `isChangedFromImports`. Go visits map entries in an
      unspecified order; here each step picks any entry not yet visited. The
      answer does not depend on the picks: it is true exactly when an import
      path is a changed package or an import comes from a changed module. */
  method IsChangedFromImports(imports: ImportMap, mods: set<string>, changed: set<string>)
    returns (b: bool)
    ensures b <==> (exists ip :: ip in imports && ip in changed) || ImportsChangedModule(imports, mods)
  {
    var unvisited := imports.Keys;
    while unvisited != {}
      invariant unvisited <= imports.Keys
      invariant forall ip :: ip in imports && ip !in unvisited ==> !ImportChanged(imports, mods, changed, ip)
      decreases unvisited
    {
      var ip :| ip in unvisited;
      if ip in changed {
        return true;
      }
      var mod := imports[ip];
      if mod.Some? {
        if mod.value in mods {
          return true;
        }
      }
      unvisited := unvisited - {ip};
    }
    return false;
  }

  /** The answer the loop computes is the predicate the propagation pass
      uses to decide whether to mark a package. */
  lemma LoopAnswerIsChangedFromImports(imports: ImportMap, mods: set<string>, changed: set<string>)
    ensures ChangedFromImports(imports, mods, changed) <==>
      (exists ip :: ip in imports && ip in changed) || ImportsChangedModule(imports, mods)
  {
  }
}
