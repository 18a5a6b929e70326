/** The single forward pass of `getChangedPackages` (cmd/main.go) that
    extends the directly changed packages to every package affected through
    its imports, and the reachability closure it computes when the package
    list is in dependency order. */
module Propagation {
  import opened Results
  import opened Packages
  import opened Imports

  /** One step of the pass: a package already marked is skipped, otherwise
      it is marked when one of its imports is a reason to. */
  function Visit(changed: set<string>, pkg: Package, mods: set<string>): set<string>
  {
    if pkg.pkgPath in changed then changed
    else if ChangedFromImports(pkg.imports, mods, changed) then changed + {pkg.pkgPath}
    else changed
  }

  /** The pass over the package list, in list order. Marked packages stay
      marked, and only paths of listed packages are ever added. */
  function Propagate(pkgs: seq<Package>, changed: set<string>, mods: set<string>): (r: set<string>)
    ensures changed <= r
    ensures r <= changed + PkgPaths(pkgs)
    decreases |pkgs|
  {
    if |pkgs| == 0 then changed
    else
      var r := Propagate(pkgs[1..], Visit(changed, pkgs[0], mods), mods);
      assert PkgPaths(pkgs) == {pkgs[0].pkgPath} + PkgPaths(pkgs[1..]) by {
        assert forall i :: 0 < i < |pkgs| ==> pkgs[i] == pkgs[1..][i - 1];
      }
      r
  }

  /** A package is a seed of the closure when it is directly changed or
      imports a package of a changed module. */
  ghost predicate Seed(pkgs: seq<Package>, direct: set<string>, mods: set<string>, k: int)
    requires 0 <= k < |pkgs|
  {
    pkgs[k].pkgPath in direct || ImportsChangedModule(pkgs[k].imports, mods)
  }

  /** `c` lists package indices, each importing the next one. */
  ghost predicate ImportChain(pkgs: seq<Package>, c: seq<int>) {
    && |c| > 0
    && (forall t :: 0 <= t < |c| ==> 0 <= c[t] < |pkgs|)
    && (forall t :: 0 <= t < |c| - 1 ==> pkgs[c[t + 1]].pkgPath in pkgs[c[t]].imports)
  }

  /** The intended meaning of "changed": package `i` reaches a seed through
      a chain of zero or more local imports. */
  ghost predicate Impacted(pkgs: seq<Package>, direct: set<string>, mods: set<string>, i: int) {
    exists c :: ImportChain(pkgs, c) && c[0] == i && Seed(pkgs, direct, mods, c[|c| - 1])
  }

  /** The paths of all impacted packages. */
  ghost function ImpactedPaths(pkgs: seq<Package>, direct: set<string>, mods: set<string>): set<string>
  {
    set i | 0 <= i < |pkgs| && Impacted(pkgs, direct, mods, i) :: pkgs[i].pkgPath
  }

  /** Path `x` belongs to an impacted package among the first `k`. */
  ghost predicate ImpactedBefore(pkgs: seq<Package>, direct: set<string>, mods: set<string>, k: int, x: string) {
    exists i :: 0 <= i < k && i < |pkgs| && pkgs[i].pkgPath == x && Impacted(pkgs, direct, mods, i)
  }

  /** Prefixing a chain with an importer of its head keeps it a chain. */
  lemma ExtendChain(pkgs: seq<Package>, k: int, c: seq<int>)
    requires ImportChain(pkgs, c) && 0 <= k < |pkgs|
    requires pkgs[c[0]].pkgPath in pkgs[k].imports
    ensures ImportChain(pkgs, [k] + c)
  {
    var c' := [k] + c;
    forall t | 0 <= t < |c'| - 1 ensures pkgs[c'[t + 1]].pkgPath in pkgs[c'[t]].imports {
      if t > 0 {
        assert c'[t] == c[t - 1] && c'[t + 1] == c[t];
      }
    }
  }

  /** Marking is sound whatever the order: when the marked set holds only
      directly changed paths and impacted packages, an import that marks
      package `k` shows that `k` is impacted. */
  lemma MarkImpliesImpacted(pkgs: seq<Package>, direct: set<string>, mods: set<string>,
                            k: int, changed: set<string>)
    requires direct <= PkgPaths(pkgs) && 0 <= k < |pkgs|
    requires forall x :: x in changed ==> x in direct || ImpactedBefore(pkgs, direct, mods, |pkgs|, x)
    requires ChangedFromImports(pkgs[k].imports, mods, changed)
    ensures Impacted(pkgs, direct, mods, k)
  {
    var ip :| ip in pkgs[k].imports && ImportChanged(pkgs[k].imports, mods, changed, ip);
    if ip in changed {
      if ip in direct {
        var j :| 0 <= j < |pkgs| && pkgs[j].pkgPath == ip;
        var c := [k, j];
        assert ImportChain(pkgs, c) && Seed(pkgs, direct, mods, c[|c| - 1]);
      } else {
        var i :| 0 <= i < |pkgs| && pkgs[i].pkgPath == ip && Impacted(pkgs, direct, mods, i);
        var c :| ImportChain(pkgs, c) && c[0] == i && Seed(pkgs, direct, mods, c[|c| - 1]);
        ExtendChain(pkgs, k, c);
        assert ([k] + c)[|[k] + c| - 1] == c[|c| - 1];
      }
    } else {
      assert ImportsChangedModule(pkgs[k].imports, mods);
      assert ImportChain(pkgs, [k]);
    }
  }

  /** Marking is complete in dependency order: when every impacted package
      before `k` is already marked and `k` is not, an impacted `k` has an
      import that marks it. */
  lemma ImpactedImpliesMark(pkgs: seq<Package>, direct: set<string>, mods: set<string>,
                            k: int, changed: set<string>)
    requires TopoOrdered(pkgs) && 0 <= k < |pkgs|
    requires direct <= changed
    requires forall x :: ImpactedBefore(pkgs, direct, mods, k, x) ==> x in changed
    requires pkgs[k].pkgPath !in changed
    requires Impacted(pkgs, direct, mods, k)
    ensures ChangedFromImports(pkgs[k].imports, mods, changed)
  {
    var c :| ImportChain(pkgs, c) && c[0] == k && Seed(pkgs, direct, mods, c[|c| - 1]);
    if |c| == 1 {
      var ip :| ip in pkgs[k].imports && pkgs[k].imports[ip].Some? && pkgs[k].imports[ip].value in mods;
      assert ImportChanged(pkgs[k].imports, mods, changed, ip);
    } else {
      var j := c[1];
      assert pkgs[j].pkgPath in pkgs[k].imports;
      var c' := c[1..];
      assert ImportChain(pkgs, c') by {
        forall t | 0 <= t < |c'| - 1 ensures pkgs[c'[t + 1]].pkgPath in pkgs[c'[t]].imports {
          assert c'[t] == c[t + 1] && c'[t + 1] == c[t + 2];
        }
      }
      assert c'[|c'| - 1] == c[|c| - 1];
      assert Impacted(pkgs, direct, mods, j);
      assert ImpactedBefore(pkgs, direct, mods, k, pkgs[j].pkgPath);
      assert ImportChanged(pkgs[k].imports, mods, changed, pkgs[j].pkgPath);
    }
  }

  /** The pass invariant at position `k`: the marked set is the directly
      changed paths plus the paths of the impacted packages before `k`. */
  ghost predicate MarkedUpTo(pkgs: seq<Package>, direct: set<string>, mods: set<string>,
                             k: int, changed: set<string>) {
    forall x :: x in changed <==> x in direct || ImpactedBefore(pkgs, direct, mods, k, x)
  }

  /** Visiting package `k` in dependency order moves the invariant from `k`
      to `k + 1`. */
  lemma VisitKeepsMarked(pkgs: seq<Package>, direct: set<string>, mods: set<string>,
                         k: int, changed: set<string>)
    requires TopoOrdered(pkgs) && direct <= PkgPaths(pkgs) && 0 <= k < |pkgs|
    requires MarkedUpTo(pkgs, direct, mods, k, changed)
    ensures MarkedUpTo(pkgs, direct, mods, k + 1, Visit(changed, pkgs[k], mods))
  {
    var next := Visit(changed, pkgs[k], mods);
    var pk := pkgs[k].pkgPath;
    if pk !in changed {
      assert forall x :: x in changed ==> x in direct || ImpactedBefore(pkgs, direct, mods, |pkgs|, x) by {
        forall x | x in changed ensures x in direct || ImpactedBefore(pkgs, direct, mods, |pkgs|, x) {
          if !(x in direct) {
            var i :| 0 <= i < k && i < |pkgs| && pkgs[i].pkgPath == x && Impacted(pkgs, direct, mods, i);
            assert ImpactedBefore(pkgs, direct, mods, |pkgs|, x);
          }
        }
      }
      if ChangedFromImports(pkgs[k].imports, mods, changed) {
        MarkImpliesImpacted(pkgs, direct, mods, k, changed);
      }
      if Impacted(pkgs, direct, mods, k) {
        ImpactedImpliesMark(pkgs, direct, mods, k, changed);
      }
    }
    forall x ensures x in next <==> x in direct || ImpactedBefore(pkgs, direct, mods, k + 1, x) {
      if ImpactedBefore(pkgs, direct, mods, k + 1, x) && !ImpactedBefore(pkgs, direct, mods, k, x) {
        var i :| 0 <= i < k + 1 && i < |pkgs| && pkgs[i].pkgPath == x && Impacted(pkgs, direct, mods, i);
        assert i == k;
      }
      if ImpactedBefore(pkgs, direct, mods, k, x) {
        var i :| 0 <= i < k && i < |pkgs| && pkgs[i].pkgPath == x && Impacted(pkgs, direct, mods, i);
        assert ImpactedBefore(pkgs, direct, mods, k + 1, x);
      }
    }
  }

  /** The pass from position `k` on, started from a set satisfying the
      invariant at `k`, ends with the invariant at the end of the list. */
  lemma {:induction false} PropagateFrom(pkgs: seq<Package>, direct: set<string>, mods: set<string>,
                                         k: int, changed: set<string>)
    requires TopoOrdered(pkgs) && direct <= PkgPaths(pkgs) && 0 <= k <= |pkgs|
    requires MarkedUpTo(pkgs, direct, mods, k, changed)
    ensures MarkedUpTo(pkgs, direct, mods, |pkgs|, Propagate(pkgs[k..], changed, mods))
    decreases |pkgs| - k
  {
    if k < |pkgs| {
      VisitKeepsMarked(pkgs, direct, mods, k, changed);
      assert pkgs[k..][0] == pkgs[k] && pkgs[k..][1..] == pkgs[k + 1..];
      PropagateFrom(pkgs, direct, mods, k + 1, Visit(changed, pkgs[k], mods));
    }
  }

  /** The doc-comment promise of `getChangedPackages`: when every listed
      package comes after the listed packages it imports, the one forward
      pass started from the directly changed packages marks exactly the
      packages that are directly changed, import a package of a changed
      module, or import (transitively, over any number of hops) such a
      package. */
  lemma PropagateIsClosure(pkgs: seq<Package>, direct: set<string>, mods: set<string>)
    requires TopoOrdered(pkgs)
    requires direct <= PkgPaths(pkgs)
    ensures Propagate(pkgs, direct, mods) == ImpactedPaths(pkgs, direct, mods)
  {
    assert MarkedUpTo(pkgs, direct, mods, 0, direct);
    assert pkgs[0..] == pkgs;
    PropagateFrom(pkgs, direct, mods, 0, direct);
    var r := Propagate(pkgs, direct, mods);
    forall x | x in direct ensures ImpactedBefore(pkgs, direct, mods, |pkgs|, x) {
      var i :| 0 <= i < |pkgs| && pkgs[i].pkgPath == x;
      assert ImportChain(pkgs, [i]);
      assert Impacted(pkgs, direct, mods, i);
    }
    forall x ensures x in r <==> x in ImpactedPaths(pkgs, direct, mods) {
      if ImpactedBefore(pkgs, direct, mods, |pkgs|, x) {
        var i :| 0 <= i < |pkgs| && pkgs[i].pkgPath == x && Impacted(pkgs, direct, mods, i);
        assert x in ImpactedPaths(pkgs, direct, mods);
      }
    }
  }

  /** The soundness half of the invariant, which needs no ordering. */
  lemma {:induction false} SoundFrom(pkgs: seq<Package>, direct: set<string>, mods: set<string>,
                                     k: int, changed: set<string>)
    requires direct <= PkgPaths(pkgs) && 0 <= k <= |pkgs|
    requires forall x :: x in changed ==> x in direct || ImpactedBefore(pkgs, direct, mods, |pkgs|, x)
    ensures forall x :: x in Propagate(pkgs[k..], changed, mods) ==>
      x in direct || ImpactedBefore(pkgs, direct, mods, |pkgs|, x)
    decreases |pkgs| - k
  {
    if k < |pkgs| {
      var next := Visit(changed, pkgs[k], mods);
      if pkgs[k].pkgPath !in changed && ChangedFromImports(pkgs[k].imports, mods, changed) {
        MarkImpliesImpacted(pkgs, direct, mods, k, changed);
        assert ImpactedBefore(pkgs, direct, mods, |pkgs|, pkgs[k].pkgPath);
      }
      assert pkgs[k..][0] == pkgs[k] && pkgs[k..][1..] == pkgs[k + 1..];
      SoundFrom(pkgs, direct, mods, k + 1, next);
    }
  }

  /** Whatever the order of the list, the pass only marks packages that
      really are affected. */
  lemma PropagateSound(pkgs: seq<Package>, direct: set<string>, mods: set<string>)
    requires direct <= PkgPaths(pkgs)
    ensures Propagate(pkgs, direct, mods) <= ImpactedPaths(pkgs, direct, mods)
  {
    assert pkgs[0..] == pkgs;
    forall x | x in direct ensures ImpactedBefore(pkgs, direct, mods, |pkgs|, x) {
      var i :| 0 <= i < |pkgs| && pkgs[i].pkgPath == x;
      assert ImportChain(pkgs, [i]);
      assert Impacted(pkgs, direct, mods, i);
    }
    SoundFrom(pkgs, direct, mods, 0, direct);
    forall x | x in Propagate(pkgs, direct, mods) ensures x in ImpactedPaths(pkgs, direct, mods) {
      var i :| 0 <= i < |pkgs| && pkgs[i].pkgPath == x && Impacted(pkgs, direct, mods, i);
    }
  }

  /** The ordering precondition cannot be dropped: with `c` importing `a`
      importing the changed `b`, but `c` listed first, the pass misses `c`
      (a direct importer of `b` is found in any order; a two-hop one is
      not). */
  lemma OrderMatters()
    ensures var c := Package("c", [], [], [], map["a" := None], []);
            var a := Package("a", [], [], [], map["b" := None], []);
            var b := Package("b", ["/r/b/b.go"], [], [], map[], []);
            Propagate([c, a, b], {"b"}, {}) == {"a", "b"}
            && "c" in ImpactedPaths([c, a, b], {"b"}, {})
  {
    var c := Package("c", [], [], [], map["a" := None], []);
    var a := Package("a", [], [], [], map["b" := None], []);
    var b := Package("b", ["/r/b/b.go"], [], [], map[], []);
    var pkgs := [c, a, b];
    assert !ChangedFromImports(c.imports, {}, {"b"});
    assert Visit({"b"}, c, {}) == {"b"};
    assert ImportChanged(a.imports, {}, {"b"}, "b");
    assert Visit({"b"}, a, {}) == {"a", "b"};
    assert Propagate([c, a, b], {"b"}, {}) == Propagate([a, b], {"b"}, {});
    assert Propagate([a, b], {"b"}, {}) == Propagate([b], {"a", "b"}, {});
    assert ImportChain(pkgs, [0, 1, 2]);
    assert Impacted(pkgs, {"b"}, {}, 0);
  }

  /** The three rules of the doc comment, read on package indices: a
      package is impacted exactly when it is a seed or imports an impacted
      package. */
  lemma ImpactedUnfold(pkgs: seq<Package>, direct: set<string>, mods: set<string>, i: int)
    requires 0 <= i < |pkgs|
    ensures Impacted(pkgs, direct, mods, i) <==>
      Seed(pkgs, direct, mods, i)
      || exists j :: 0 <= j < |pkgs| && pkgs[j].pkgPath in pkgs[i].imports && Impacted(pkgs, direct, mods, j)
  {
    if Impacted(pkgs, direct, mods, i) && !Seed(pkgs, direct, mods, i) {
      var c :| ImportChain(pkgs, c) && c[0] == i && Seed(pkgs, direct, mods, c[|c| - 1]);
      var c' := c[1..];
      assert ImportChain(pkgs, c') by {
        forall t | 0 <= t < |c'| - 1 ensures pkgs[c'[t + 1]].pkgPath in pkgs[c'[t]].imports {
          assert c'[t] == c[t + 1] && c'[t + 1] == c[t + 2];
        }
      }
      assert c'[|c'| - 1] == c[|c| - 1];
      assert Impacted(pkgs, direct, mods, c[1]);
    }
    if Seed(pkgs, direct, mods, i) {
      assert ImportChain(pkgs, [i]);
    }
    if exists j :: 0 <= j < |pkgs| && pkgs[j].pkgPath in pkgs[i].imports && Impacted(pkgs, direct, mods, j) {
      var j :| 0 <= j < |pkgs| && pkgs[j].pkgPath in pkgs[i].imports && Impacted(pkgs, direct, mods, j);
      var c :| ImportChain(pkgs, c) && c[0] == j && Seed(pkgs, direct, mods, c[|c| - 1]);
      ExtendChain(pkgs, i, c);
      assert ([i] + c)[|[i] + c| - 1] == c[|c| - 1];
    }
  }

  /** The doc comment of `getChangedPackages` as stated: in dependency
      order, with distinct package paths, a package is in the result exactly
      when it has a changed file, imports a package of a changed module, or
      imports a package that is in the result. */
  lemma PropagateFollowsRules(pkgs: seq<Package>, direct: set<string>, mods: set<string>, i: int)
    requires TopoOrdered(pkgs) && UniquePkgPaths(pkgs) && direct <= PkgPaths(pkgs)
    requires 0 <= i < |pkgs|
    ensures var r := Propagate(pkgs, direct, mods);
      pkgs[i].pkgPath in r <==>
        pkgs[i].pkgPath in direct
        || ImportsChangedModule(pkgs[i].imports, mods)
        || exists ip :: ip in pkgs[i].imports && ip in r
  {
    var r := Propagate(pkgs, direct, mods);
    PropagateIsClosure(pkgs, direct, mods);
    ImpactedUnfold(pkgs, direct, mods, i);
    if pkgs[i].pkgPath in r {
      var i' :| 0 <= i' < |pkgs| && Impacted(pkgs, direct, mods, i') && pkgs[i'].pkgPath == pkgs[i].pkgPath;
      assert i' == i;
      if !Seed(pkgs, direct, mods, i) {
        var j :| 0 <= j < |pkgs| && pkgs[j].pkgPath in pkgs[i].imports && Impacted(pkgs, direct, mods, j);
        assert pkgs[j].pkgPath in r;
      }
    }
    if exists ip :: ip in pkgs[i].imports && ip in r {
      var ip :| ip in pkgs[i].imports && ip in r;
      var j :| 0 <= j < |pkgs| && Impacted(pkgs, direct, mods, j) && pkgs[j].pkgPath == ip;
      assert Impacted(pkgs, direct, mods, i);
    }
  }
}
