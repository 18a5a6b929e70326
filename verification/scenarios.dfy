/** Three small repositories worked through attribution and propagation:
    a changed local dependency, a changed third-party module, and a change
    outside every package. */
module Scenarios {
  import opened Results
  import opened Packages
  import opened Imports
  import opened Repo
  import opened Collect
  import opened Propagation

  /** A repository at `/r` whose paths are joined with a slash. */
  function RepoAt(): Env {
    Env("/r", "main", "HEAD", (d: string, p: string) => d + "/" + p, Ok(""),
        (_, _) => Err("unused"), (_, _) => Err("unused"))
  }

  /** `a` imports `b`, and a file of `b` changed: both are impacted. */
  lemma DependencyChange()
    ensures var b := Package("b", ["/r/b/file.go"], [], [], map[], []);
            var a := Package("a", ["/r/a/a.go"], [], [], map["b" := None], []);
            var direct := DirectPackages([b, a], RepoAt(), ["b/file.go"]);
            direct == {"b"} && Propagate([b, a], direct, {}) == {"a", "b"}
  {
    var b := Package("b", ["/r/b/file.go"], [], [], map[], []);
    var a := Package("a", ["/r/a/a.go"], [], [], map["b" := None], []);
    var env := RepoAt();
    assert env.join("/r", "b/file.go") == "/r/b/file.go";
    assert FileInPkg(b, env.join, env.repoDir, "b/file.go");
    assert Owner([b, a], env, "b/file.go") == Some("b");
    DirectPackagesCons([b, a], env, ["b/file.go"]);
    assert DirectPackages([b, a], env, ["b/file.go"]) == {"b"};
    assert Visit({"b"}, b, {}) == {"b"};
    assert ImportChanged(a.imports, {}, {"b"}, "b");
    assert Visit({"b"}, a, {}) == {"a", "b"};
    assert Propagate([b, a], {"b"}, {}) == Propagate([a], {"b"}, {});
  }

  /** `a` imports a package of the third-party module `foo`, and `foo`
      changed version: only `a` is impacted. */
  lemma ModuleChange()
    ensures var a := Package("a", ["/r/a/a.go"], [], [], map["foo/bar" := Some("foo")], []);
            Propagate([a], {}, {"foo"}) == {"a"}
  {
    var a := Package("a", ["/r/a/a.go"], [], [], map["foo/bar" := Some("foo")], []);
    assert ImportChanged(a.imports, {"foo"}, {}, "foo/bar");
    assert Visit({}, a, {"foo"}) == {"a"};
  }

  /** A changed file no package owns impacts nothing. */
  lemma UnrelatedChange()
    ensures var a := Package("a", ["/r/a/a.go"], [], [], map[], []);
            var direct := DirectPackages([a], RepoAt(), ["unrelated/readme.md"]);
            direct == {} && Propagate([a], direct, {}) == {}
  {
    var a := Package("a", ["/r/a/a.go"], [], [], map[], []);
    var env := RepoAt();
    assert env.join("/r", "unrelated/readme.md") == "/r/unrelated/readme.md";
    assert "/r/unrelated/readme.md" != "/r/a/a.go" by {
      assert "/r/unrelated/readme.md"[3] != "/r/a/a.go"[3];
    }
    assert !FileInPkg(a, env.join, env.repoDir, "unrelated/readme.md");
    assert Owner([a], env, "unrelated/readme.md") == None;
    assert DirectPackages([a], env, ["unrelated/readme.md"]) == {};
    assert !ChangedFromImports(a.imports, {}, {});
  }

  /** A file listed by two packages (Go source of one, embedded in the
      other) marks only the first listed of them; the second is reported
      only if its imports mark it. */
  lemma SharedFileMarksFirstOwner()
    ensures var p1 := Package("p1", ["/r/x"], [], [], map[], []);
            var p2 := Package("p2", [], [], ["/r/x"], map[], []);
            var direct := DirectPackages([p1, p2], RepoAt(), ["x"]);
            direct == {"p1"} && Propagate([p1, p2], direct, {}) == {"p1"}
  {
    var p1 := Package("p1", ["/r/x"], [], [], map[], []);
    var p2 := Package("p2", [], [], ["/r/x"], map[], []);
    var env := RepoAt();
    assert env.join("/r", "x") == "/r/x";
    assert FileInPkg(p1, env.join, env.repoDir, "x");
    assert FileInPkg(p2, env.join, env.repoDir, "x");
    assert Owner([p1, p2], env, "x") == Some("p1");
    DirectPackagesCons([p1, p2], env, ["x"]);
    assert DirectPackages([p1, p2], env, ["x"]) == {"p1"};
    assert !ChangedFromImports(p2.imports, {}, {"p1"});
    assert Visit({"p1"}, p2, {}) == {"p1"};
  }
}
