/** Go's `filepath.Base` on a system whose only separator is '/', which is
    how the tool recognises a changed `go.mod` file. */
module FilePath {
  import opened Strings

  const Separator: char := '/'

  /** The path with every trailing separator removed. */
  function TrimTrailingSeparators(p: string): string
    decreases |p|
  {
    if |p| > 0 && p[|p| - 1] == Separator then TrimTrailingSeparators(p[..|p| - 1]) else p
  }

  /** The part of `t` after its last separator. */
  function LastElement(t: string): string
    decreases |t|
  {
    if |t| == 0 || t[|t| - 1] == Separator then ""
    else LastElement(t[..|t| - 1]) + [t[|t| - 1]]
  }

  /** `filepath.Base`: "." for the empty path, "/" for a path made only of
      separators, otherwise the last element once trailing separators are
      removed. */
  function Base(p: string): string
  {
    if p == "" then "."
    else
      var t := TrimTrailingSeparators(p);
      if t == "" then [Separator] else LastElement(t)
  }

  /** The test `filepath.Base(path) == "go.mod"` used to spot module files. */
  predicate IsGoMod(path: string) {
    Base(path) == "go.mod"
  }

  /** Trimming removes a suffix made only of separators and leaves a path
      that is empty or does not end with one. */
  lemma {:induction false} TrimTrailingSeparatorsSpec(p: string)
    ensures var r := TrimTrailingSeparators(p);
      && |r| <= |p| && r == p[..|r|]
      && (r == "" || r[|r| - 1] != Separator)
      && (forall i :: |r| <= i < |p| ==> p[i] == Separator)
    decreases |p|
  {
    if |p| > 0 && p[|p| - 1] == Separator {
      var q := p[..|p| - 1];
      TrimTrailingSeparatorsSpec(q);
      var r := TrimTrailingSeparators(q);
      assert r == p[..|r|] by {
        assert q[..|r|] == p[..|r|];
      }
      forall i | |r| <= i < |p| ensures p[i] == Separator {
        if i < |q| {
          assert p[i] == q[i];
        }
      }
    }
  }

  /** The last element is a separator-free suffix of `t` that is all of `t`
      or preceded by a separator. */
  lemma {:induction false} LastElementSpec(t: string)
    ensures var r := LastElement(t);
      && Separator !in r
      && |r| <= |t| && t[|t| - |r|..] == r
      && (|r| == |t| || t[|t| - |r| - 1] == Separator)
    decreases |t|
  {
    if |t| > 0 && t[|t| - 1] != Separator {
      var init := t[..|t| - 1];
      var c := t[|t| - 1];
      LastElementSpec(init);
      var r0 := LastElement(init);
      var r := r0 + [c];
      assert LastElement(t) == r;
      assert t == init + [c];
      assert t[|t| - |r|..] == init[|init| - |r0|..] + [c];
      assert Separator !in r;
      if |r0| != |init| {
        assert t[|t| - |r| - 1] == init[|init| - |r0| - 1];
      }
    }
  }

  /** A separator-free name placed after a separator (or at the start)
      is the last element. */
  lemma {:induction false} LastElementAfterSeparator(u: string, e: string)
    requires u == "" || u[|u| - 1] == Separator
    requires Separator !in e
    ensures LastElement(u + e) == e
    decreases |e|
  {
    if e == "" {
      assert u + e == u;
    } else {
      var t := u + e;
      var init := e[..|e| - 1];
      var last := e[|e| - 1];
      assert last != Separator;
      assert t[|t| - 1] == last;
      assert t[..|t| - 1] == u + init;
      assert LastElement(t) == LastElement(u + init) + [last];
      LastElementAfterSeparator(u, init);
      assert init + [last] == e;
    }
  }

  /** The last element of `t` is the separator-free name `e` exactly when
      `t` is `e` or ends with a separator followed by `e`. */
  lemma LastElementIs(t: string, e: string)
    requires Separator !in e
    ensures LastElement(t) == e <==> (t == e || HasSuffix(t, [Separator] + e))
  {
    LastElementSpec(t);
    if LastElement(t) == e && t != e {
      assert t[|t| - |e| - 1..] == [Separator] + e;
    }
    if t == e {
      LastElementAfterSeparator("", e);
      assert "" + e == e;
    } else if HasSuffix(t, [Separator] + e) {
      var u := t[..|t| - |e|];
      assert u[|u| - 1] == t[|t| - |e| - 1] == Separator;
      assert u + e == t;
      LastElementAfterSeparator(u, e);
    }
  }

  /** A path names a `go.mod` file exactly when, trailing separators aside,
      it is `go.mod` itself or ends in `/go.mod`. */
  lemma IsGoModSuffix(p: string)
    ensures IsGoMod(p) <==>
      (TrimTrailingSeparators(p) == "go.mod" || HasSuffix(TrimTrailingSeparators(p), "/go.mod"))
  {
    var t := TrimTrailingSeparators(p);
    assert "/go.mod" == [Separator] + "go.mod";
    if p == "" {
      assert Base(p) == ".";
    } else if t == "" {
      assert Base(p) == "/";
    } else {
      assert Base(p) == LastElement(t);
      LastElementIs(t, "go.mod");
    }
  }
}
