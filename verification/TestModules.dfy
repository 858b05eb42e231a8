/** `cfg_test_module_files` of `scripts/check_thread_locals.py`: files that exist only in test builds. */
module TestModules {
  import opened Closures

  /** A file's `mod` edges: the child file and whether the edge is behind `#[cfg(test)]`. */
  type Declares = map<string, seq<(string, bool)>>

  function Children(declares: Declares, file: string): set<string> {
    if file in declares then set e | e in declares[file] :: e.0 else {}
  }

  function ChildrenOf(declares: Declares): string -> set<string> {
    x => Children(declares, x)
  }

  function AllChildren(declares: Declares): set<string> {
    set file, e | file in declares && e in declares[file] :: e.0
  }

  /** Children of the gated edges. */
  function Gated(declares: Declares): set<string> {
    set file, e | file in declares && e in declares[file] && e.1 :: e.0
  }

  /** One sweep over the files known to be test-only. */
  method Sweep(declares: Declares, known: set<string>) returns (grown: set<string>, changed: bool)
    ensures known <= grown && changed == (grown != known)
    ensures forall y :: y in grown <==> y in known || exists x :: x in known && y in Children(declares, x)
  {
    grown, changed := known, false;
    var rest := set x | x in known && x in declares;
    while rest != {}
      invariant rest <= known && known <= grown && changed == (grown != known)
      invariant rest <= declares.Keys
      invariant forall y :: y in grown <==>
          y in known || exists x :: x in known && x !in rest && y in Children(declares, x)
      decreases rest
    {
      var rel :| rel in rest;
      ghost var before := grown;
      rest := rest - {rel};
      var edges := declares[rel];
      for n := 0 to |edges|
        invariant before <= grown && changed == (grown != known)
        invariant forall y :: y in grown <==> y in before || exists e :: e in edges[..n] && e.0 == y
      {
        var child := edges[n].0;
        if child !in grown {
          grown := grown + {child};
          changed := true;
        }
        assert edges[..n + 1] == edges[..n] + [edges[n]];
      }
      assert edges[..|edges|] == edges;
      assert forall y :: (exists e :: e in edges && e.0 == y) <==> y in Children(declares, rel);
    }
  }

  /** The fixpoint loop. */
  method CfgTestModuleFiles(declares: Declares) returns (testOnly: set<string>)
    ensures IsClosure(ChildrenOf(declares), Gated(declares), testOnly)
    ensures testOnly <= AllChildren(declares)
  {
    ghost var next := ChildrenOf(declares);
    testOnly := Gated(declares);
    var changed := true;
    while changed
      invariant Gated(declares) <= testOnly <= AllChildren(declares)
      invariant forall s :: Gated(declares) <= s && Closed(next, s) ==> testOnly <= s
      invariant !changed ==> Closed(next, testOnly)
      decreases AllChildren(declares) - testOnly, changed
    {
      ghost var before := testOnly;
      testOnly, changed := Sweep(declares, testOnly);
      assert forall x :: next(x) == Children(declares, x);
      forall s | Gated(declares) <= s && Closed(next, s)
        ensures testOnly <= s
      {
        assert before <= s;
      }
    }
  }

  /** A file is test-only exactly when a chain of `mod` edges leads to it from a gated child. */
  lemma TestOnlyIsReachable(declares: Declares, testOnly: set<string>, file: string)
    requires IsClosure(ChildrenOf(declares), Gated(declares), testOnly)
    ensures file in testOnly <==> exists path :: Walk(ChildrenOf(declares), Gated(declares), path, file)
  {
    ClosureIsReachability(ChildrenOf(declares), Gated(declares), testOnly, file);
  }
}
