/** `scripts/ci_test_scope.py`: which workspace packages a change makes CI test. */
module TestScope {
  import opened Options
  import opened Closures
  import opened Text

  /** What `cargo metadata` says about a workspace member; `dir` is its directory under `crates/`. */
  datatype Package = Package(name: string, deps: seq<string>, dir: Option<string>)

  // ---------------------------------------------------------------- the dependent relation

  predicate IsFanoutLeaf(name: string) {
    name == "perry-stdlib" || "perry-ext-" <= name
  }

  function Members(packages: seq<Package>): set<string> {
    set p | p in packages :: p.name
  }

  /** The packages that depend directly on the workspace member `x`. */
  function DirectDependents(packages: seq<Package>, x: string): set<string> {
    DependentsAmong(packages, Members(packages), x)
  }

  function DependentsAmong(packages: seq<Package>, members: set<string>, x: string): set<string> {
    if x in members then set p | p in packages && x in p.deps :: p.name else {}
  }

  /** Those a change to `x` fans out to. */
  function FanOut(packages: seq<Package>, x: string): set<string> {
    set d | d in DirectDependents(packages, x) && !IsFanoutLeaf(d)
  }

  function FanOutOf(packages: seq<Package>): string -> set<string> {
    x => FanOut(packages, x)
  }

  function Lookup(m: map<string, set<string>>, x: string): set<string> {
    if x in m then m[x] else {}
  }

  function Gain(p: Package, deps: seq<string>, members: set<string>, x: string): set<string> {
    if x in deps && x in members then {p.name} else {}
  }

  method AddDependencies(p: Package, members: set<string>, revdeps: map<string, set<string>>)
    returns (updated: map<string, set<string>>)
    ensures forall x :: Lookup(updated, x) == Lookup(revdeps, x) + Gain(p, p.deps, members, x)
  {
    updated := revdeps;
    for j := 0 to |p.deps|
      invariant forall x :: Lookup(updated, x) == Lookup(revdeps, x) + Gain(p, p.deps[..j], members, x)
    {
      var d := p.deps[j];
      if d in members {
        updated := updated[d := Lookup(updated, d) + {p.name}];
      }
      assert p.deps[..j + 1] == p.deps[..j] + [d];
    }
    assert p.deps[..|p.deps|] == p.deps;
  }

  method BuildReverseDeps(packages: seq<Package>) returns (revdeps: map<string, set<string>>)
    ensures forall x :: Lookup(revdeps, x) == DirectDependents(packages, x)
  {
    var members := Members(packages);
    revdeps := map[];
    for n := 0 to |packages|
      invariant forall x :: Lookup(revdeps, x) == DependentsAmong(packages[..n], members, x)
    {
      revdeps := AddDependencies(packages[n], members, revdeps);
      assert packages[..n + 1] == packages[..n] + [packages[n]];
    }
    assert packages[..|packages|] == packages;
  }

  // ---------------------------------------------------------------- the worklist

  predicate Distinct<T(==)>(s: seq<T>) {
    forall i, j | 0 <= i < j < |s| :: s[i] != s[j]
  }

  function Elements<T>(s: seq<T>): set<T> {
    set x | x in s
  }

  /** List the elements of a set in an order the caller cannot know. */
  method AnyOrder(s: set<string>) returns (q: seq<string>)
    ensures Distinct(q) && Elements(q) == s
  {
    q := [];
    var rest := s;
    while rest != {}
      invariant Distinct(q) && Elements(q) + rest == s && Elements(q) !! rest
      decreases rest
    {
      var x :| x in rest;
      rest := rest - {x};
      q := q + [x];
    }
  }

  /** The dependents of one popped package that are new and no leaves, in the order they are pushed. */
  method NewDependents(dependents: set<string>, affected: set<string>) returns (pushed: seq<string>)
    ensures Distinct(pushed)
    ensures Elements(pushed) == set d | d in dependents && d !in affected && !IsFanoutLeaf(d)
  {
    pushed := [];
    var rest := dependents;
    while rest != {}
      invariant Distinct(pushed) && rest <= dependents
      invariant Elements(pushed) == set d | d in dependents - rest && d !in affected && !IsFanoutLeaf(d)
      decreases rest
    {
      var d :| d in rest;
      rest := rest - {d};
      if d in affected || IsFanoutLeaf(d) {
        continue;
      }
      assert d !in pushed by { assert d !in Elements(pushed); }
      assert Elements(pushed + [d]) == Elements(pushed) + {d};
      pushed := pushed + [d];
    }
  }

  /** `popped` and `stack` together hold every affected package once. */
  ghost predicate Frontier(popped: seq<string>, stack: seq<string>, affected: set<string>) {
    Distinct(popped + stack) && Elements(popped + stack) == affected
  }

  lemma FrontierStep(popped: seq<string>, stack: seq<string>, affected: set<string>, pushed: seq<string>)
    requires Frontier(popped, stack, affected) && stack != []
    requires Distinct(pushed) && Elements(pushed) !! affected
    ensures var n := |stack| - 1;
            Frontier(popped + [stack[n]], stack[..n] + pushed, affected + Elements(pushed))
  {
    var n := |stack| - 1;
    var all := popped + stack;
    var next := popped + [stack[n]] + (stack[..n] + pushed);
    assert forall x :: x in next <==> x in all || x in pushed by {
      assert stack == stack[..n] + [stack[n]];
    }
    forall i, j | 0 <= i < j < |next|
      ensures next[i] != next[j]
    {
      var m := |popped|;
      var i' := if i < m then i else if i == m then m + n else i - 1;
      var j' := if j < m then j else if j == m then m + n else j - 1;
      if j < |all| {
        assert next[i] == all[i'] && next[j] == all[j'];
      } else {
        assert next[j] == pushed[j - |all|];
        assert next[j] in Elements(pushed);
        if i < |all| {
          assert next[i] == all[i'] && all[i'] in affected;
        } else {
          assert next[i] == pushed[i - |all|];
        }
      }
    }
  }

  lemma FrontierBound(popped: seq<string>, stack: seq<string>, affected: set<string>, universe: set<string>)
    requires Frontier(popped, stack, affected) && affected <= universe
    ensures |popped| + |stack| <= |universe|
  {
    DistinctCount(popped + stack);
    SubsetCount(affected, universe);
  }

  lemma {:induction false} DistinctCount(s: seq<string>)
    requires Distinct(s)
    ensures |Elements(s)| == |s|
  {
    if s != [] {
      DistinctCount(s[1..]);
      assert Elements(s) == {s[0]} + Elements(s[1..]);
    }
  }

  lemma {:induction false} SubsetCount(a: set<string>, b: set<string>)
    requires a <= b
    ensures |a| <= |b|
  {
    if a != {} {
      var x :| x in a;
      SubsetCount(a - {x}, b - {x});
    }
  }

  /** `_reverse_dep_closure`.  `popped` records the order in which packages left the stack: each
      affected package does so exactly once, whatever the order of the sets. */
  method ReverseDepClosure(packages: seq<Package>, seeds: set<string>)
    returns (affected: set<string>, popped: seq<string>)
    ensures IsClosure(FanOutOf(packages), seeds, affected)
    ensures Distinct(popped) && Elements(popped) == affected
  {
    var revdeps := BuildReverseDeps(packages);
    ghost var universe := seeds + Members(packages);
    ghost var next := FanOutOf(packages);
    affected := seeds;
    popped := [];
    var stack := AnyOrder(seeds);
    assert popped + stack == stack;
    while stack != []
      invariant Frontier(popped, stack, affected) && seeds <= affected <= universe
      invariant forall x, y :: x in popped && y in next(x) ==> y in affected
      invariant forall s :: seeds <= s && Closed(next, s) ==> affected <= s
      decreases |universe| - |popped|
    {
      var cur := stack[|stack| - 1];
      var pushed := NewDependents(Lookup(revdeps, cur), affected);
      FrontierStep(popped, stack, affected, pushed);
      assert cur in popped + stack;
      assert forall d :: d in pushed <==> d in next(cur) && d !in affected by {
        assert forall d :: d in pushed <==> d in Elements(pushed);
      }
      stack := stack[..|stack| - 1] + pushed;
      popped := popped + [cur];
      affected := affected + Elements(pushed);
      FrontierBound(popped, stack, affected, universe);
    }
    assert popped + stack == popped;
  }

  // ---------------------------------------------------------------- what a changed path means

  predicate IsInfra(f: string) {
    ".github/" <= f || "scripts/" <= f || "rust-toolchain" <= f
  }

  predicate EndsWith(s: string, w: string) {
    |w| <= |s| && s[|s| - |w|..] == w
  }

  predicate IsIgnorable(f: string) {
    || f in {"Cargo.toml", "Cargo.lock", "CHANGELOG.md", "CLAUDE.md", "LICENSE"}
    || EndsWith(f, ".md")
    || "docs/" <= f
  }

  /** The directory right below `crates/`. */
  function CrateDir(f: string): string
    requires "crates/" <= f
  {
    f[7..][..Cut(f[7..])]
  }

  /** The package of a crate directory; of two packages in one directory the later one counts. */
  function PackageOfDir(packages: seq<Package>, d: string): Option<string> {
    if packages == [] then None
    else
      var last := packages[|packages| - 1];
      if last.dir == Some(d) then Some(last.name) else PackageOfDir(packages[..|packages| - 1], d)
  }

  datatype Effect = Everything | Seed(package: string) | Nothing

  function EffectOf(packages: seq<Package>, f: string): Effect {
    if IsInfra(f) then Everything
    else if "crates/" <= f then
      match PackageOfDir(packages, CrateDir(f))
      case Some(p) => Seed(p)
      case None => Everything
    else if IsIgnorable(f) then Nothing
    else Everything
  }

  function SeedsOf(packages: seq<Package>, changed: seq<string>): set<string> {
    set f | f in changed && EffectOf(packages, f).Seed? :: EffectOf(packages, f).package
  }

  /** Crates the `perry` driver links into compiled output although cargo records no dependency. */
  predicate IsRuntimeLinked(name: string) {
    name == "perry-stdlib" || name == "perry-ffi" || "perry-ext-" <= name
  }

  function Augmented(seeds: set<string>): set<string> {
    if exists s :: s in seeds && IsRuntimeLinked(s) then seeds + {"perry"} else seeds
  }

  function Testable(packages: seq<Package>, excluded: set<string>): set<string> {
    Members(packages) - excluded
  }

  /** What the script prints, as a property of its inputs. */
  ghost predicate IsSelection(packages: seq<Package>, excluded: set<string>, full: bool, changed: seq<string>,
                              selected: set<string>)
  {
    if full || exists f :: f in changed && EffectOf(packages, f).Everything? then
      selected == Testable(packages, excluded)
    else
      exists r :: IsClosure(FanOutOf(packages), Augmented(SeedsOf(packages, changed)), r)
                  && selected == r * Testable(packages, excluded)
  }

  // ---------------------------------------------------------------- the selection loop

  method DirToPackage(packages: seq<Package>) returns (m: map<string, string>)
    ensures forall d :: PackageOfDir(packages, d) == if d in m then Some(m[d]) else None
  {
    m := map[];
    for n := 0 to |packages|
      invariant forall d :: PackageOfDir(packages[..n], d) == if d in m then Some(m[d]) else None
    {
      var p := packages[n];
      if p.dir.Some? {
        m := m[p.dir.value := p.name];
      }
      assert packages[..n + 1][..n] == packages[..n];
    }
    assert packages[..|packages|] == packages;
  }

  method RuntimeLinkAugment(seeds: set<string>) returns (augmented: set<string>)
    ensures augmented == Augmented(seeds)
  {
    augmented := seeds;
    var rest := seeds;
    while rest != {}
      invariant rest <= seeds && augmented == seeds + Augmented(seeds - rest)
      decreases rest
    {
      var s :| s in rest;
      rest := rest - {s};
      if IsRuntimeLinked(s) {
        augmented := augmented + {"perry"};
      }
    }
    assert seeds - rest == seeds;
  }

  lemma SeedsSnoc(packages: seq<Package>, changed: seq<string>, f: string)
    ensures SeedsOf(packages, changed + [f]) ==
            SeedsOf(packages, changed) + match EffectOf(packages, f) case Seed(p) => {p} case _ => {}
    ensures forall g :: g in changed + [f] <==> g in changed || g == f
  {
    var all := changed + [f];
    assert forall g :: g in all <==> g in changed || g == f;
    forall p | p in SeedsOf(packages, all)
      ensures p in SeedsOf(packages, changed) || EffectOf(packages, f) == Seed(p)
    {
      var g :| g in all && EffectOf(packages, g).Seed? && EffectOf(packages, g).package == p;
    }
  }

  /** The selection in `main`. */
  method SelectPackages(packages: seq<Package>, excluded: set<string>, full: bool, changed: seq<string>)
    returns (selected: set<string>)
    ensures IsSelection(packages, excluded, full, changed, selected)
  {
    var all := full;
    var seeds: set<string> := {};
    if !all {
      var dirToPkg := DirToPackage(packages);
      for n := 0 to |changed|
        invariant all <==> exists f :: f in changed[..n] && EffectOf(packages, f).Everything?
        invariant seeds == SeedsOf(packages, changed[..n])
      {
        var f := changed[n];
        ghost var effect := EffectOf(packages, f);
        assert changed[..n + 1] == changed[..n] + [f];
        SeedsSnoc(packages, changed[..n], f);
        assert effect.Everything? ==> f in changed[..n + 1];
        if IsInfra(f) {
          all := true;
        } else if "crates/" <= f {
          var d := CrateDir(f);
          if d in dirToPkg {
            seeds := seeds + {dirToPkg[d]};
          } else {
            all := true;
          }
        } else if !IsIgnorable(f) {
          all := true;
        }
      }
      assert changed[..|changed|] == changed;
    }
    if all {
      selected := Testable(packages, excluded);
    } else {
      var augmented := RuntimeLinkAugment(seeds);
      var affected, _ := ReverseDepClosure(packages, augmented);
      selected := affected * Testable(packages, excluded);
    }
  }

  // ---------------------------------------------------------------- what the selection promises

  /** More changed paths never drop a package, so neither order nor repetition of paths matters. */
  lemma SelectionMonotone(packages: seq<Package>, excluded: set<string>, full: bool, full': bool,
                          changed: seq<string>, changed': seq<string>, selected: set<string>, selected': set<string>)
    requires IsSelection(packages, excluded, full, changed, selected)
    requires IsSelection(packages, excluded, full', changed', selected')
    requires (full ==> full') && forall f :: f in changed ==> f in changed'
    ensures selected <= selected'
  {
    var next, testable := FanOutOf(packages), Testable(packages, excluded);
    if full' || exists f :: f in changed' && EffectOf(packages, f).Everything? {
      assert selected <= testable;
    } else {
      var a, a' := Augmented(SeedsOf(packages, changed)), Augmented(SeedsOf(packages, changed'));
      assert SeedsOf(packages, changed) <= SeedsOf(packages, changed');
      var r :| IsClosure(next, a, r) && selected == r * testable;
      var r' :| IsClosure(next, a', r') && selected' == r' * testable;
      ClosureMonotone(next, a, a', r, r');
    }
  }

  /** Without a path that forces everything, exactly the testable packages reachable from the changed
      crates along non-leaf dependents are selected. */
  lemma SelectedExactly(packages: seq<Package>, excluded: set<string>, changed: seq<string>, selected: set<string>, q: string)
    requires IsSelection(packages, excluded, false, changed, selected)
    requires forall f :: f in changed ==> !EffectOf(packages, f).Everything?
    ensures q in selected <==>
            q in Testable(packages, excluded)
            && exists path :: Walk(FanOutOf(packages), Augmented(SeedsOf(packages, changed)), path, q)
  {
    var next, a := FanOutOf(packages), Augmented(SeedsOf(packages, changed));
    var r :| IsClosure(next, a, r) && selected == r * Testable(packages, excluded);
    ClosureIsReachability(next, a, r, q);
  }

  /** Whatever else changed, a changed crate and its non-leaf transitive dependents are tested. */
  lemma ChangedCrateCovered(packages: seq<Package>, excluded: set<string>, full: bool, changed: seq<string>,
                            selected: set<string>, f: string, path: seq<string>, q: string)
    requires IsSelection(packages, excluded, full, changed, selected)
    requires f in changed && EffectOf(packages, f).Seed?
    requires Walk(FanOutOf(packages), {EffectOf(packages, f).package}, path, q) && q in Testable(packages, excluded)
    ensures q in selected
  {
    if !full && forall g :: g in changed ==> !EffectOf(packages, g).Everything? {
      SelectedExactly(packages, excluded, changed, selected, q);
      assert Walk(FanOutOf(packages), Augmented(SeedsOf(packages, changed)), path, q);
    }
  }

  /** An infrastructure path or one the script does not recognise selects the whole testable set. */
  lemma UnknownPathSelectsAll(packages: seq<Package>, excluded: set<string>, full: bool, changed: seq<string>,
                              selected: set<string>, f: string)
    requires IsSelection(packages, excluded, full, changed, selected)
    requires f in changed
    requires IsInfra(f) || (!("crates/" <= f) && !IsIgnorable(f))
             || ("crates/" <= f && forall p :: p in packages ==> p.dir != Some(CrateDir(f)))
    ensures selected == Testable(packages, excluded)
  {
    if !IsInfra(f) && "crates/" <= f {
      UnknownDir(packages, CrateDir(f));
    }
    assert EffectOf(packages, f).Everything?;
  }

  lemma {:induction false} UnknownDir(packages: seq<Package>, d: string)
    requires forall p :: p in packages ==> p.dir != Some(d)
    ensures PackageOfDir(packages, d) == None
  {
    if packages != [] {
      UnknownDir(packages[..|packages| - 1], d);
    }
  }

  /** The header says any Markdown file selects nothing.  It does not below `scripts/` or another
      infrastructure prefix, nor below `crates/`: those are looked at first. */
  lemma MarkdownIsNotAlwaysIgnored(packages: seq<Package>, f: string)
    requires EndsWith(f, ".md")
    ensures EffectOf(packages, f) == Nothing <==> !IsInfra(f) && !("crates/" <= f)
  {
  }

  lemma MarkdownBelowScripts(packages: seq<Package>)
    ensures IsIgnorable("scripts/README.md") && EffectOf(packages, "scripts/README.md") == Everything
  {
    assert "scripts/README.md"[14..] == ".md";
  }
}
