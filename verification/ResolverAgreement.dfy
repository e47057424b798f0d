/**
 * The two dependency resolvers and the library graph. Where both programs decode the files alike,
 * the runtime resolves a project's dependencies exactly when the language server has nothing to
 * report, neither from its resolver nor from the library graph; `AgreeExactly` says when the two
 * verdicts agree in general.
 */
module ResolverAgreement {
  import opened Common
  import opened Graphs
  import opened Manifests
  import opened LibraryGraph
  import opened RuntimeResolution
  import Run = RuntimeResolver
  import Lsp = LspResolver

  // ----- The language server's search only adds -----

  ghost predicate LibrariesGrow(before: Lsp.Libraries, after: Lsp.Libraries)
  {
    forall n :: n in before ==> n in after && after[n] == before[n]
  }

  ghost predicate StillVisiting(before: Lsp.SearchState, after: Lsp.SearchState)
  {
    forall n :: n in before.states && before.states[n].Visiting? && n !in before.libraries ==>
      n in after.states && after.states[n].Visiting? && n !in after.libraries
  }

  /** Every library is recorded under its own name. */
  ghost predicate KeyedByName(libraries: Lsp.Libraries)
  {
    forall n :: n in libraries ==> libraries[n].name == n
  }

  ghost predicate Adds(before: Lsp.SearchState, after: Lsp.SearchState)
  {
    && before.issues <= after.issues
    && LibrariesGrow(before.libraries, after.libraries)
    && StillVisiting(before, after)
    && (KeyedByName(before.libraries) ==> KeyedByName(after.libraries))
  }

  /** A visit adds what its nested dependencies add, and its own library. */
  lemma VisitAdds(fs: FileSystem, dep: DependencySpec, st: Lsp.SearchState, nested: Lsp.SearchState, manifest: Manifest)
    requires dep.path in fs && dep.name !in st.libraries
    requires !(dep.name in st.states && st.states[dep.name].Visiting?)
    requires Adds(Lsp.Enter(fs, dep, st), nested)
    ensures Adds(st, Lsp.Leave(nested, dep, manifest))
  {
    hide Lsp.LoadIssues, Lsp.VersionIssues;
    var entered := Lsp.Enter(fs, dep, st);
    assert dep.name in entered.states && entered.states[dep.name].Visiting? && dep.name !in entered.libraries;
    assert st.issues <= entered.issues <= nested.issues;
  }

  lemma {:induction false} ResolveOneAdds(fs: FileSystem, dep: DependencySpec, st: Lsp.SearchState)
    requires dep.name in Names(fs)
    ensures Adds(st, Lsp.ResolveOne(fs, dep, st))
    decreases Names(fs) - Lsp.Touched(st), 0, 0
  {
    hide LibrariesGrow, StillVisiting, KeyedByName, Names, Lsp.LoadIssues, Lsp.VersionIssues;
    AddsNothing(st);
    if dep.path in fs && dep.name !in st.libraries && !(dep.name in st.states && st.states[dep.name].Visiting?) {
      var manifest := Lsp.LoadIssues(fs, dep).0;
      var entered := Lsp.Enter(fs, dep, st);
      Lsp.LoadedDependenciesKnown(fs, dep);
      assert dep.name in Lsp.Touched(entered) && Lsp.Touched(st) <= Lsp.Touched(entered);
      ResolveAllAdds(fs, manifest.dependencies, entered);
      VisitAdds(fs, dep, st, Lsp.ResolveAll(fs, manifest.dependencies, entered), manifest);
    } else {
      assert Lsp.ResolveOne(fs, dep, st) == st.(issues := Lsp.ResolveOne(fs, dep, st).issues);
    }
  }

  lemma AddsNothing(st: Lsp.SearchState)
    ensures LibrariesGrow(st.libraries, st.libraries) && StillVisiting(st, st)
    ensures forall issues :: StillVisiting(st, st.(issues := issues))
  {
  }

  lemma AddsTrans(a: Lsp.SearchState, b: Lsp.SearchState, c: Lsp.SearchState)
    requires Adds(a, b) && Adds(b, c)
    ensures Adds(a, c)
  {
  }

  lemma {:induction false} ResolveAllAdds(fs: FileSystem, deps: seq<DependencySpec>, st: Lsp.SearchState)
    requires KnownDependencies(fs, deps)
    ensures Adds(st, Lsp.ResolveAll(fs, deps, st))
    decreases Names(fs) - Lsp.Touched(st), 1, |deps|
  {
    if deps == [] {
      AddsNothing(st);
    } else {
      hide Adds, Names;
      var mid := Lsp.ResolveOne(fs, deps[0], st);
      ResolveOneAdds(fs, deps[0], st);
      ResolveAllAdds(fs, deps[1..], mid);
      AddsTrans(st, mid, Lsp.ResolveAll(fs, deps[1..], mid));
    }
  }

  // ----- The two searches side by side -----

  /** The library recorded by the language server for a package resolved by the runtime. */
  function Mirror(fs: FileSystem, p: Run.ResolvedDependency): Lsp.LibrarySpec
  {
    Lsp.LibrarySpec(p.name, p.path, p.version, Lsp.LibraryDependencies(DependenciesAt(fs, p.path)))
  }

  ghost predicate SamePackages(fs: FileSystem, resolved: Run.ResolvedMap, libraries: Lsp.Libraries)
  {
    && resolved.Keys == libraries.Keys
    && forall n :: n in resolved ==> libraries[n] == Mirror(fs, resolved[n])
  }

  ghost predicate Mirrors(fs: FileSystem, r: Run.SearchState, l: Lsp.SearchState)
  {
    l.states == r.states && SamePackages(fs, r.resolved, l.libraries)
  }

  /** The file of every resolved package is one that the language server takes as it is. */
  ghost predicate PlainPackages(fs: FileSystem, resolved: Run.ResolvedMap)
  {
    forall n :: n in resolved ==> resolved[n].path in fs && Plain(fs[resolved[n].path])
  }

  /**
   * As long as the runtime succeeds and the packages' files are plain, the language server does
   * the same without an issue.
   */
  lemma {:induction false} OneFollows(fs: FileSystem, dep: DependencySpec, r: Run.SearchState, l: Lsp.SearchState)
    requires dep.name in Names(fs) && SearchInvariant(fs, r) && Mirrors(fs, r, l) && Run.ResolveOne(fs, dep, r).Ok?
    requires PlainPackages(fs, Run.ResolveOne(fs, dep, r).value.resolved)
    ensures Mirrors(fs, Run.ResolveOne(fs, dep, r).value, Lsp.ResolveOne(fs, dep, l))
    ensures Lsp.ResolveOne(fs, dep, l).issues == l.issues
    decreases Names(fs) - r.states.Keys, 0, 0
  {
    hide Names, SearchInvariant;
    if dep.name !in r.resolved {
      VisitFresh(fs, dep, r);
      var manifest := RuntimeDecode(fs[dep.path]).value;
      var entered := Run.Enter(r, dep.name);
      var nested := Run.ResolveAll(fs, manifest.dependencies, entered).value;
      VisitEnters(fs, dep, r, l);
      assert dep.name in Names(fs) - r.states.Keys && dep.name !in Names(fs) - entered.states.Keys;
      AllFollow(fs, manifest.dependencies, entered, Lsp.Enter(fs, dep, l));
      VisitFollows(fs, dep, manifest, nested, Lsp.ResolveAll(fs, manifest.dependencies, Lsp.Enter(fs, dep, l)));
      VisitTaken(fs, dep, r, l, manifest, nested);
    } else {
      assert Run.ResolveOne(fs, dep, r) == Ok(r);
    }
  }

  /** A successful visit of a package not yet resolved, step by step. */
  lemma VisitFresh(fs: FileSystem, dep: DependencySpec, r: Run.SearchState)
    requires dep.name in Names(fs) && SearchInvariant(fs, r) && Run.ResolveOne(fs, dep, r).Ok? && dep.name !in r.resolved
    ensures dep.path in fs && RuntimeDecode(fs[dep.path]).Some? && dep.name !in r.states
    ensures var manifest := RuntimeDecode(fs[dep.path]).value;
      && VersionMatches(dep.version, manifest.version) && KnownDependencies(fs, manifest.dependencies)
      && SearchInvariant(fs, Run.Enter(r, dep.name))
      && Run.ResolveAll(fs, manifest.dependencies, Run.Enter(r, dep.name)).Ok?
      && var nested := Run.ResolveAll(fs, manifest.dependencies, Run.Enter(r, dep.name)).value;
        && Run.ResolveOne(fs, dep, r) == Ok(Run.Leave(nested, dep, manifest))
        && dep.name !in nested.resolved
        && (PlainPackages(fs, Run.Leave(nested, dep, manifest).resolved) ==>
              PlainPackages(fs, nested.resolved) && Plain(fs[dep.path]))
  {
    VisitSteps(fs, dep, r);
    hide SearchInvariant, RuntimeDecode;
    var manifest := RuntimeDecode(fs[dep.path]).value;
    var nested := Run.ResolveAll(fs, manifest.dependencies, Run.Enter(r, dep.name)).value;
    var after := Run.Leave(nested, dep, manifest);
    assert after.resolved[dep.name].path == dep.path;
    assert forall n :: n in nested.resolved ==> after.resolved[n] == nested.resolved[n];
  }

  /** Both searches enter a package with a plain file alike. */
  lemma VisitEnters(fs: FileSystem, dep: DependencySpec, r: Run.SearchState, l: Lsp.SearchState)
    requires dep.path in fs && RuntimeDecode(fs[dep.path]).Some? && Plain(fs[dep.path]) && Mirrors(fs, r, l)
    requires VersionMatches(dep.version, RuntimeDecode(fs[dep.path]).value.version)
    ensures Mirrors(fs, Run.Enter(r, dep.name), Lsp.Enter(fs, dep, l))
    ensures Lsp.Enter(fs, dep, l).issues == l.issues
  {
    assert Lsp.LoadIssues(fs, dep) == (RuntimeDecode(fs[dep.path]).value, []);
    assert l.issues + [] + [] == l.issues;
  }

  /** The language server's side of a visit. */
  lemma VisitTaken(fs: FileSystem, dep: DependencySpec, r: Run.SearchState, l: Lsp.SearchState, manifest: Manifest, nested: Run.SearchState)
    requires dep.name in Names(fs) && dep.path in fs && RuntimeDecode(fs[dep.path]) == Some(manifest) && Plain(fs[dep.path])
    requires Mirrors(fs, r, l) && dep.name !in r.states && dep.name !in r.resolved
    requires KnownDependencies(fs, manifest.dependencies)
    ensures Lsp.ResolveOne(fs, dep, l) == Lsp.Leave(Lsp.ResolveAll(fs, manifest.dependencies, Lsp.Enter(fs, dep, l)), dep, manifest)
  {
  }

  lemma VisitFollows(fs: FileSystem, dep: DependencySpec, manifest: Manifest, r: Run.SearchState, l: Lsp.SearchState)
    requires dep.path in fs && RuntimeDecode(fs[dep.path]) == Some(manifest) && Mirrors(fs, r, l)
    ensures Mirrors(fs, Run.Leave(r, dep, manifest), Lsp.Leave(l, dep, manifest))
  {
  }

  lemma {:induction false} AllFollow(fs: FileSystem, deps: seq<DependencySpec>, r: Run.SearchState, l: Lsp.SearchState)
    requires KnownDependencies(fs, deps) && SearchInvariant(fs, r) && Mirrors(fs, r, l) && Run.ResolveAll(fs, deps, r).Ok?
    requires PlainPackages(fs, Run.ResolveAll(fs, deps, r).value.resolved)
    ensures Mirrors(fs, Run.ResolveAll(fs, deps, r).value, Lsp.ResolveAll(fs, deps, l))
    ensures Lsp.ResolveAll(fs, deps, l).issues == l.issues
    decreases Names(fs) - r.states.Keys, 1, |deps|
  {
    hide SearchInvariant, Mirrors, Names;
    if deps != [] {
      var mid := Run.ResolveOne(fs, deps[0], r).value;
      ResolveOneSound(fs, deps[0], r);
      ResolveAllSound(fs, deps[1..], mid);
      OneFollows(fs, deps[0], r, l);
      AllFollow(fs, deps[1..], mid, Lsp.ResolveOne(fs, deps[0], l));
    }
  }

  /** The dependency graph of a set of libraries. */
  ghost function LibraryEdges(libraries: Lsp.Libraries): Graph
  {
    map n | n in libraries :: seq(|libraries[n].dependencies|, i requires 0 <= i < |libraries[n].dependencies| => libraries[n].dependencies[i].name)
  }

  lemma LibraryEdge(libraries: Lsp.Libraries, n: string, d: Lsp.LibraryDependency)
    requires n in libraries && d in libraries[n].dependencies
    ensures Edge(LibraryEdges(libraries), n, d.name)
  {
    var i :| 0 <= i < |libraries[n].dependencies| && libraries[n].dependencies[i] == d;
    assert LibraryEdges(libraries)[n][i] == d.name;
  }

  /**
   * If the language server finds no issue and its final libraries have no dependency cycle, the
   * runtime succeeds on plain files: the names on its stack are a walk in that graph, so no
   * dependency leads back to it.
   */
  lemma {:induction false} OneSucceeds(fs: FileSystem, dep: DependencySpec, r: Run.SearchState, l: Lsp.SearchState, final: Lsp.Libraries)
    requires dep.name in Names(fs) && SearchInvariant(fs, r) && Mirrors(fs, r, l) && PlainPackages(fs, r.resolved)
    requires Lsp.ResolveOne(fs, dep, l).issues == l.issues
    requires LibrariesGrow(Lsp.ResolveOne(fs, dep, l).libraries, final)
    requires Acyclic(LibraryEdges(final)) && IsWalk(LibraryEdges(final), r.stack + [dep.name])
    ensures Run.ResolveOne(fs, dep, r).Ok? && PlainPackages(fs, Run.ResolveOne(fs, dep, r).value.resolved)
    decreases Names(fs) - r.states.Keys, 0, 1
  {
    hide Names, PlainPackages, LibrariesGrow, LibraryEdges, Acyclic, IsWalk;
    QuietIsFound(fs, dep, l);
    if dep.name !in r.resolved {
      if dep.name in r.states {
        RevisitCloses(LibraryEdges(final), r.stack, dep.name);
      } else {
        NoIssuesAdded(fs, dep, l);
        NestedWithinFinal(fs, dep, l, final);
        LastEdges(fs, dep, l, r.stack, final);
        EnterKeeps(fs, r, dep.name);
        VisitSucceeds(fs, dep, RuntimeDecode(fs[dep.path]).value, r, l, final);
      }
    }
  }

  /** Without an issue the path exists, and the version of a library found is the one required. */
  lemma QuietIsFound(fs: FileSystem, dep: DependencySpec, l: Lsp.SearchState)
    requires dep.name in Names(fs) && Lsp.ResolveOne(fs, dep, l).issues == l.issues
    ensures dep.path in fs
    ensures dep.name in l.libraries ==> VersionMatches(dep.version, l.libraries[dep.name].version)
  {
    var after := Lsp.ResolveOne(fs, dep, l).issues;
    assert dep.path !in fs ==> |after| == |l.issues| + 1;
    assert dep.path in fs && dep.name in l.libraries ==>
      |after| == |l.issues| + |Lsp.VersionIssues(dep.name, dep.version, l.libraries[dep.name].version)|;
  }

  lemma {:induction false} VisitSucceeds(fs: FileSystem, dep: DependencySpec, manifest: Manifest, r: Run.SearchState, l: Lsp.SearchState, final: Lsp.Libraries)
    requires dep.path in fs && RuntimeDecode(fs[dep.path]) == Some(manifest) && Plain(fs[dep.path])
    requires VersionMatches(dep.version, manifest.version) && PlainPackages(fs, r.resolved)
    requires dep.name in Names(fs) && dep.name !in r.states && dep.name !in r.resolved
    requires KnownDependencies(fs, manifest.dependencies)
    requires SearchInvariant(fs, Run.Enter(r, dep.name)) && Mirrors(fs, r, l)
    requires var entered := Lsp.Enter(fs, dep, l); var nested := Lsp.ResolveAll(fs, manifest.dependencies, entered);
      entered.issues == nested.issues && LibrariesGrow(nested.libraries, final)
    requires Acyclic(LibraryEdges(final))
    requires forall d :: d in manifest.dependencies ==> IsWalk(LibraryEdges(final), r.stack + [dep.name] + [d.name])
    ensures Run.ResolveOne(fs, dep, r).Ok? && PlainPackages(fs, Run.ResolveOne(fs, dep, r).value.resolved)
    decreases Names(fs) - r.states.Keys, 0, 0
  {
    hide IsWalk, Acyclic, LibraryEdges, LibrariesGrow, Mirrors, SearchInvariant, Plain, RuntimeDecode;
    assert dep.name in Names(fs) - r.states.Keys && dep.name !in Names(fs) - Run.Enter(r, dep.name).states.Keys;
    VisitEnters(fs, dep, r, l);
    AllSucceed(fs, manifest.dependencies, Run.Enter(r, dep.name), Lsp.Enter(fs, dep, l), final);
    var nested := Run.ResolveAll(fs, manifest.dependencies, Run.Enter(r, dep.name)).value;
    assert Run.ResolveOne(fs, dep, r) == Ok(Run.Leave(nested, dep, manifest));
  }

  lemma NestedWithinFinal(fs: FileSystem, dep: DependencySpec, l: Lsp.SearchState, final: Lsp.Libraries)
    requires dep.name in Names(fs) && dep.path in fs && dep.name !in l.libraries
    requires !(dep.name in l.states && l.states[dep.name].Visiting?)
    requires Lsp.ResolveOne(fs, dep, l).issues == l.issues && Lsp.Enter(fs, dep, l).issues == l.issues
    requires LibrariesGrow(Lsp.ResolveOne(fs, dep, l).libraries, final)
    ensures KnownDependencies(fs, Lsp.LoadIssues(fs, dep).0.dependencies)
    ensures var entered := Lsp.Enter(fs, dep, l); var nested := Lsp.ResolveAll(fs, Lsp.LoadIssues(fs, dep).0.dependencies, entered);
      entered.issues == nested.issues && LibrariesGrow(nested.libraries, final)
  {
    var entered := Lsp.Enter(fs, dep, l);
    var deps := Lsp.LoadIssues(fs, dep).0.dependencies;
    Lsp.LoadedDependenciesKnown(fs, dep);
    ResolveAllAdds(fs, deps, entered);
    assert dep.name !in Lsp.ResolveAll(fs, deps, entered).libraries;
  }

  /** An issue-free visit loaded its manifest and met its version requirement. */
  lemma NoIssuesAdded(fs: FileSystem, dep: DependencySpec, l: Lsp.SearchState)
    requires dep.name in Names(fs) && dep.path in fs && dep.name !in l.libraries
    requires !(dep.name in l.states && l.states[dep.name].Visiting?)
    requires Lsp.ResolveOne(fs, dep, l).issues == l.issues
    ensures Lsp.Enter(fs, dep, l).issues == l.issues && Plain(fs[dep.path])
    ensures RuntimeDecode(fs[dep.path]) == Some(Lsp.LoadIssues(fs, dep).0)
    ensures VersionMatches(dep.version, Lsp.LoadIssues(fs, dep).0.version)
  {
    var (manifest, loadIssues) := Lsp.LoadIssues(fs, dep);
    var entered := Lsp.Enter(fs, dep, l);
    Lsp.LoadedDependenciesKnown(fs, dep);
    ResolveAllAdds(fs, manifest.dependencies, entered);
    var versionIssues := Lsp.VersionIssues(dep.name, dep.version, manifest.version);
    assert |entered.issues| == |l.issues| + |loadIssues| + |versionIssues|;
    assert |entered.issues| <= |l.issues|;
    assert loadIssues == [] && versionIssues == [];
  }

  /** Each nested dependency extends the walk of the stack in the final graph. */
  lemma LastEdges(fs: FileSystem, dep: DependencySpec, l: Lsp.SearchState, stack: seq<string>, final: Lsp.Libraries)
    requires dep.name in Names(fs) && dep.path in fs && dep.name !in l.libraries
    requires !(dep.name in l.states && l.states[dep.name].Visiting?)
    requires LibrariesGrow(Lsp.ResolveOne(fs, dep, l).libraries, final)
    requires IsWalk(LibraryEdges(final), stack + [dep.name])
    ensures forall d :: d in Lsp.LoadIssues(fs, dep).0.dependencies ==>
              IsWalk(LibraryEdges(final), stack + [dep.name] + [d.name])
  {
    var deps := Lsp.LoadIssues(fs, dep).0.dependencies;
    forall d | d in deps ensures IsWalk(LibraryEdges(final), stack + [dep.name] + [d.name]) {
      var i :| 0 <= i < |deps| && deps[i] == d;
      assert Lsp.LibraryDependencies(deps)[i] == Lsp.LibraryDependency(d.name, d.version);
      LibraryEdge(final, dep.name, Lsp.LibraryDependency(d.name, d.version));
      WalkOn(LibraryEdges(final), stack, dep.name, d.name);
    }
  }

  lemma FirstIsQuiet(fs: FileSystem, deps: seq<DependencySpec>, l: Lsp.SearchState, final: Lsp.Libraries)
    requires deps != [] && KnownDependencies(fs, deps)
    requires Lsp.ResolveAll(fs, deps, l).issues == l.issues
    requires LibrariesGrow(Lsp.ResolveAll(fs, deps, l).libraries, final)
    ensures Lsp.ResolveOne(fs, deps[0], l).issues == l.issues
    ensures LibrariesGrow(Lsp.ResolveOne(fs, deps[0], l).libraries, final)
  {
    var mid := Lsp.ResolveOne(fs, deps[0], l);
    ResolveOneAdds(fs, deps[0], l);
    ResolveAllAdds(fs, deps[1..], mid);
    assert Lsp.ResolveAll(fs, deps, l) == Lsp.ResolveAll(fs, deps[1..], mid);
    assert |l.issues| == |mid.issues|;
  }

  lemma {:induction false} AllSucceed(fs: FileSystem, deps: seq<DependencySpec>, r: Run.SearchState, l: Lsp.SearchState, final: Lsp.Libraries)
    requires KnownDependencies(fs, deps) && SearchInvariant(fs, r) && Mirrors(fs, r, l) && PlainPackages(fs, r.resolved)
    requires Lsp.ResolveAll(fs, deps, l).issues == l.issues
    requires LibrariesGrow(Lsp.ResolveAll(fs, deps, l).libraries, final)
    requires Acyclic(LibraryEdges(final))
    requires forall d :: d in deps ==> IsWalk(LibraryEdges(final), r.stack + [d.name])
    ensures Run.ResolveAll(fs, deps, r).Ok? && PlainPackages(fs, Run.ResolveAll(fs, deps, r).value.resolved)
    decreases Names(fs) - r.states.Keys, 1, |deps|
  {
    hide Names, SearchInvariant, Mirrors, PlainPackages, LibrariesGrow, LibraryEdges, Acyclic, IsWalk;
    if deps != [] {
      FirstIsQuiet(fs, deps, l, final);
      OneSucceeds(fs, deps[0], r, l, final);
      OneFollows(fs, deps[0], r, l);
      ResolveOneSound(fs, deps[0], r);
      AllSucceed(fs, deps[1..], Run.ResolveOne(fs, deps[0], r).value, Lsp.ResolveOne(fs, deps[0], l), final);
    }
  }

  // ----- The agreement -----

  /** `libs` holds exactly the recorded libraries, in some order. */
  ghost predicate Lists(libs: seq<Lsp.LibrarySpec>, libraries: Lsp.Libraries)
  {
    forall lib :: lib in libs <==> lib.name in libraries && libraries[lib.name] == lib
  }

  /** No cycle in the library graph means no cycle among the recorded libraries. */
  lemma RecordedAcyclic(libs: seq<Lsp.LibrarySpec>, libraries: Lsp.Libraries, g: Graph)
    requires Lists(libs, libraries) && KeyedByName(libraries) && IsAdjacency(g, libs) && Acyclic(g)
    ensures Acyclic(LibraryEdges(libraries))
  {
    var h := LibraryEdges(libraries);
    forall w ensures !IsClosedWalk(h, w) {
      if IsClosedWalk(h, w) {
        forall i | 0 < i < |w| ensures StepAt(g, w, i) {
          assert StepAt(h, w, i);
          assert i + 1 < |w| ==> StepAt(h, w, i + 1);
          assert StepAt(h, w, 1);
          RecordedEdge(libs, libraries, g, w[i - 1], w[i]);
        }
        assert IsClosedWalk(g, w);
      }
    }
  }

  lemma RecordedEdge(libs: seq<Lsp.LibrarySpec>, libraries: Lsp.Libraries, g: Graph, u: string, v: string)
    requires Lists(libs, libraries) && KeyedByName(libraries) && IsAdjacency(g, libs)
    requires Edge(LibraryEdges(libraries), u, v) && v in libraries
    ensures Edge(g, u, v)
  {
    var deps := libraries[u].dependencies;
    var i :| 0 <= i < |deps| && deps[i].name == v;
    assert libraries[u] in libs && libraries[v] in libs;
    assert DependsOn(libs, u, deps[i]);
  }

  lemma MirroredEntriesMet(fs: FileSystem, resolved: Run.ResolvedMap, libraries: Lsp.Libraries, libs: seq<Lsp.LibrarySpec>)
    requires Consistent(fs, resolved) && SamePackages(fs, resolved, libraries) && Lists(libs, libraries)
    ensures forall lib, dep :: lib in libs && dep in lib.dependencies ==> !Faulty(libs, dep)
  {
    hide Acyclic, RuntimeDecode;
    forall lib, dep | lib in libs && dep in lib.dependencies ensures !Faulty(libs, dep) {
      var deps := DependenciesAt(fs, resolved[lib.name].path);
      var i :| 0 <= i < |deps| && lib.dependencies[i] == dep;
      assert Satisfied(fs, resolved, deps[i]);
      assert libraries[dep.name] in libs;
    }
  }

  /** The libraries mirrored from a sound resolution give the library graph nothing to report. */
  lemma SoundIsClean(fs: FileSystem, resolved: Run.ResolvedMap, libraries: Lsp.Libraries, libs: seq<Lsp.LibrarySpec>, g: Graph)
    requires Consistent(fs, resolved) && SamePackages(fs, resolved, libraries)
    requires Lists(libs, libraries) && IsAdjacency(g, libs)
    ensures Clean(libs, g)
  {
    MirroredEntriesMet(fs, resolved, libraries, libs);
    assert forall n :: !Conflicting(libs, n);
    forall w ensures !IsClosedWalk(g, w) {
      if IsClosedWalk(g, w) {
        MirroredCycle(fs, resolved, libraries, libs, g, w);
      }
    }
  }

  lemma MirroredCycle(fs: FileSystem, resolved: Run.ResolvedMap, libraries: Lsp.Libraries, libs: seq<Lsp.LibrarySpec>, g: Graph, w: seq<string>)
    requires Located(fs, resolved) && SamePackages(fs, resolved, libraries)
    requires Lists(libs, libraries) && IsAdjacency(g, libs) && IsClosedWalk(g, w)
    ensures IsClosedWalk(ResolvedGraph(fs, resolved), w)
  {
    hide SamePackages, IsAdjacency, Located;
    var h := ResolvedGraph(fs, resolved);
    forall i | 0 < i < |w| ensures StepAt(h, w, i) {
      assert StepAt(g, w, i);
      MirroredEdge(fs, resolved, libraries, libs, g, w[i - 1], w[i]);
    }
  }

  lemma MirroredEdge(fs: FileSystem, resolved: Run.ResolvedMap, libraries: Lsp.Libraries, libs: seq<Lsp.LibrarySpec>, g: Graph, u: string, v: string)
    requires Located(fs, resolved) && SamePackages(fs, resolved, libraries)
    requires Lists(libs, libraries) && IsAdjacency(g, libs) && Edge(g, u, v)
    ensures Edge(ResolvedGraph(fs, resolved), u, v)
  {
    var d :| DependsOn(libs, u, d) && d.name == v;
    var lib :| lib in libs && lib.name == u && d in lib.dependencies;
    var i :| 0 <= i < |lib.dependencies| && lib.dependencies[i] == d;
    assert ResolvedGraph(fs, resolved)[u][i] == v;
  }

  // ----- The two verdicts -----

  /** The runtime's search over the dependencies succeeds. */
  ghost predicate Resolves(fs: FileSystem, deps: seq<DependencySpec>)
    requires KnownDependencies(fs, deps)
  {
    Run.ResolveAll(fs, deps, Run.START).Ok?
  }

  /** It succeeds, and the file of every resolved package is plain. */
  ghost predicate ResolvesPlainly(fs: FileSystem, deps: seq<DependencySpec>)
    requires KnownDependencies(fs, deps)
  {
    Resolves(fs, deps) && PlainPackages(fs, Run.ResolveAll(fs, deps, Run.START).value.resolved)
  }

  /** The language server reports nothing: neither its resolver nor the library graph. */
  ghost predicate Quiet(fs: FileSystem, root: string, libs: seq<Lsp.LibrarySpec>, g: Graph)
  {
    Lsp.ResolveProject(fs, root).issues == [] && Clean(libs, g)
  }

  /** Dependencies that resolve plainly leave the language server with the same packages and nothing to report. */
  lemma PlainIsQuiet(fs: FileSystem, deps: seq<DependencySpec>, libs: seq<Lsp.LibrarySpec>, g: Graph)
    requires KnownDependencies(fs, deps) && ResolvesPlainly(fs, deps)
    requires Lists(libs, Lsp.ResolveAll(fs, deps, Lsp.START).libraries) && IsAdjacency(g, libs)
    ensures Lsp.ResolveAll(fs, deps, Lsp.START).issues == [] && Clean(libs, g)
    ensures SamePackages(fs, Run.ResolveAll(fs, deps, Run.START).value.resolved, Lsp.ResolveAll(fs, deps, Lsp.START).libraries)
  {
    EmptyConsistent(fs);
    ResolveAllSound(fs, deps, Run.START);
    AllFollow(fs, deps, Run.START, Lsp.START);
    SoundIsClean(fs, Run.ResolveAll(fs, deps, Run.START).value.resolved, Lsp.ResolveAll(fs, deps, Lsp.START).libraries, libs, g);
  }

  lemma QuietIsPlain(fs: FileSystem, deps: seq<DependencySpec>, libs: seq<Lsp.LibrarySpec>, g: Graph)
    requires KnownDependencies(fs, deps)
    requires Lists(libs, Lsp.ResolveAll(fs, deps, Lsp.START).libraries) && IsAdjacency(g, libs)
    requires Lsp.ResolveAll(fs, deps, Lsp.START).issues == [] && Clean(libs, g)
    ensures ResolvesPlainly(fs, deps)
  {
    hide Names;
    EmptyConsistent(fs);
    ResolveAllAdds(fs, deps, Lsp.START);
    var libraries := Lsp.ResolveAll(fs, deps, Lsp.START).libraries;
    RecordedAcyclic(libs, libraries, g);
    assert forall d :: d in deps ==> IsWalk(LibraryEdges(libraries), Run.START.stack + [d.name]);
    AllSucceed(fs, deps, Run.START, Lsp.START, libraries);
  }

  /** What the language server's silence means: a root it cannot decode, or plain files that resolve. */
  lemma ServerVerdict(fs: FileSystem, root: string, libs: seq<Lsp.LibrarySpec>, g: Graph)
    requires Lists(libs, Lsp.ResolveProject(fs, root).libraries) && IsAdjacency(g, libs)
    ensures var d := RootDirectory(fs, root);
      match ServerDecodeRoot(d)
      case None => Quiet(fs, root, libs, g)
      case Some(deps) =>
        KnownDependencies(fs, deps) && (Quiet(fs, root, libs, g) <==> AllAccepted(d.entries) && ResolvesPlainly(fs, deps))
  {
    var d := RootDirectory(fs, root);
    RootKnown(fs, root);
    match ServerDecodeRoot(d)
    case None =>
      EmptyConsistent(fs);
      SoundIsClean(fs, map[], map[], libs, g);
    case Some(deps) =>
      RefusedNone(d.entries);
      if !AllAccepted(d.entries) {
        ResolveAllAdds(fs, deps, Lsp.START.(issues := Lsp.RefusedIssues(d.entries)));
        assert |Lsp.ResolveProject(fs, root).issues| > 0;
      } else {
        assert Lsp.RefusedIssues(d.entries) == [];
        assert Lsp.ResolveProject(fs, root) == Lsp.ResolveAll(fs, deps, Lsp.START);
        if Quiet(fs, root, libs, g) {
          QuietIsPlain(fs, deps, libs, g);
        }
        if ResolvesPlainly(fs, deps) {
          PlainIsQuiet(fs, deps, libs, g);
        }
      }
  }

  // ----- When they agree -----

  /**
   * If both decode the root's file, whatever the runtime resolves has to be plain; if only the
   * runtime does, its search has to succeed; if only the language server does, it has to have a
   * reason for complaint; if neither does, they disagree.
   */
  ghost predicate Agreement(fs: FileSystem, root: string)
  {
    var d := RootDirectory(fs, root);
    RootKnown(fs, root);
    match (RuntimeDecode(d), ServerDecodeRoot(d))
    case (Some(manifest), Some(_)) =>
      Resolves(fs, manifest.dependencies) ==> AllAccepted(d.entries) && ResolvesPlainly(fs, manifest.dependencies)
    case (Some(manifest), None) => Resolves(fs, manifest.dependencies)
    case (None, Some(deps)) => !(AllAccepted(d.entries) && ResolvesPlainly(fs, deps))
    case (None, None) => false
  }

  /**
   * Main result: for every file system and root, the runtime succeeds if and only if the language
   * server reports nothing, exactly under `Agreement`.
   */
  lemma AgreeExactly(fs: FileSystem, root: string, libs: seq<Lsp.LibrarySpec>, g: Graph)
    requires Lists(libs, Lsp.ResolveProject(fs, root).libraries) && IsAdjacency(g, libs)
    ensures (Run.ResolveLocal(fs, root).Ok? <==> Quiet(fs, root, libs, g)) <==> Agreement(fs, root)
  {
    hide Quiet, ResolvesPlainly, AllAccepted, Names, KnownDependencies, Run.ResolveAll;
    var d := RootDirectory(fs, root);
    RootKnown(fs, root);
    ServerVerdict(fs, root, libs, g);
    RuntimeVerdict(fs, root);
    if d.Document? {
      RefusedNone(d.entries);
    }
    PlainlyResolves(fs, root);
  }

  lemma RuntimeVerdict(fs: FileSystem, root: string)
    ensures var d := RootDirectory(fs, root);
      match RuntimeDecode(d)
      case None => Run.ResolveLocal(fs, root).Err?
      case Some(manifest) =>
        KnownDependencies(fs, manifest.dependencies) &&
        (Run.ResolveLocal(fs, root).Ok? <==> Resolves(fs, manifest.dependencies))
  {
    RootKnown(fs, root);
  }

  lemma PlainlyResolves(fs: FileSystem, root: string)
    ensures var d := RootDirectory(fs, root);
      (&& RuntimeDecode(d).Some? && KnownDependencies(fs, RuntimeDecode(d).value.dependencies)
       && ResolvesPlainly(fs, RuntimeDecode(d).value.dependencies)) ==>
      Resolves(fs, RuntimeDecode(d).value.dependencies)
  {
  }

  /** The root's file decodes for both programs, and no file has anything that one refuses alone. */
  ghost predicate DecodedAlike(fs: FileSystem, root: string)
  {
    var d := RootDirectory(fs, root);
    RuntimeDecode(d).Some? && ServerDecodeRoot(d).Some? && forall p :: p in fs ==> Plain(fs[p])
  }

  /**
   * The common case: where the files are decoded alike, the runtime resolves the dependencies
   * exactly when the language server reports nothing, and then both resolved the same packages.
   */
  lemma ResolversAgree(fs: FileSystem, root: string, libs: seq<Lsp.LibrarySpec>, g: Graph)
    requires Lists(libs, Lsp.ResolveProject(fs, root).libraries) && IsAdjacency(g, libs)
    requires DecodedAlike(fs, root)
    ensures Run.ResolveLocal(fs, root).Ok? <==> Quiet(fs, root, libs, g)
    ensures Run.ResolveLocal(fs, root).Ok? ==>
      SamePackages(fs, Run.ResolveLocal(fs, root).value, Lsp.ResolveProject(fs, root).libraries)
  {
    AgreeExactly(fs, root, libs, g);
    RootKnown(fs, root);
    var d := RootDirectory(fs, root);
    var deps := RuntimeDecode(d).value.dependencies;
    RefusedNone(d.entries);
    if Resolves(fs, deps) {
      EmptyConsistent(fs);
      ResolveAllSound(fs, deps, Run.START);
      assert ResolvesPlainly(fs, deps);
      assert Lsp.RefusedIssues(d.entries) == [];
      PlainIsQuiet(fs, deps, libs, g);
    }
  }

  // ----- Inputs on which they disagree -----

  /** A root's file that neither program can use: the runtime fails, the language server is silent. */
  lemma UnreadableRootUnnoticed(fs: FileSystem, root: string, libs: seq<Lsp.LibrarySpec>, g: Graph)
    requires RuntimeDecode(RootDirectory(fs, root)).None? && ServerDecodeRoot(RootDirectory(fs, root)).None?
    requires Lists(libs, Lsp.ResolveProject(fs, root).libraries) && IsAdjacency(g, libs)
    ensures Run.ResolveLocal(fs, root).Err? && Quiet(fs, root, libs, g)
  {
    ServerVerdict(fs, root, libs, g);
  }

  /** An ill-typed configuration section hides a missing dependency from the language server. */
  lemma BadSectionHidesMissingPath()
    ensures var fs: FileSystem := map["root" := Document(Package(None), [PathText("x", "missing")], true, false)];
      && Run.ResolveLocal(fs, "root") == Err(Run.PathMissing("x", "missing"))
      && Quiet(fs, "root", [], map[])
  {
    var fs: FileSystem := map["root" := Document(Package(None), [PathText("x", "missing")], true, false)];
    ServerVerdict(fs, "root", [], map[]);
    RootKnown(fs, "root");
    var deps := RuntimeDecode(fs["root"]).value.dependencies;
    assert deps == [DependencySpec("x", "missing", None)];
    assert "missing" != "root" by {
      assert |"missing"| != |"root"|;
    }
    assert Run.ResolveOne(fs, deps[0], Run.START) == Err(Run.PathMissing("x", "missing"));
  }

  /** An ill-typed package section stops the runtime; the root's configuration has no such section. */
  lemma BadPackageUnnoticed()
    ensures var fs: FileSystem := map["root" := Document(BadPackage, [], true, true)];
      && Run.ResolveLocal(fs, "root") == Err(Run.RootManifestUnreadable("root"))
      && Quiet(fs, "root", [], map[])
  {
    var fs: FileSystem := map["root" := Document(BadPackage, [], true, true)];
    ServerVerdict(fs, "root", [], map[]);
    RootKnown(fs, "root");
  }

  /** A single dependency without dependencies of its own resolves when its version does. */
  lemma LeafResolves(fs: FileSystem, dep: DependencySpec, manifest: Manifest)
    requires dep.path in fs && RuntimeDecode(fs[dep.path]) == Some(manifest) && manifest.dependencies == []
    requires VersionMatches(dep.version, manifest.version) && KnownDependencies(fs, [dep])
    ensures Resolves(fs, [dep])
  {
    assert dep in [dep];
    assert Run.ResolveOne(fs, dep, Run.START) == Ok(Run.Leave(Run.Enter(Run.START, dep.name), dep, manifest));
    assert [dep][1..] == [];
  }

  /** A root that depends on one library, whose entry also sets a revision. */
  const SELECTOR := Table("x", Some("lib"), false, None, true)
  const SELECTOR_ROOT := Document(Package(None), [SELECTOR], true, true)

  /** A revision beside a path is refused by the language server and passed over by the runtime. */
  lemma SelectorRefusedAlone(fs: FileSystem)
    requires "root" in fs && fs["root"] == SELECTOR_ROOT && "lib" in fs && fs["lib"] == EMPTY_DOCUMENT
    ensures Run.ResolveLocal(fs, "root").Ok? && Lsp.ResolveProject(fs, "root").issues == [Lsp.L005EntryRefused("x")]
  {
    hide Names, KnownDependencies;
    RootKnown(fs, "root");
    assert [SELECTOR][1..] == [];
    assert RefusedNames([SELECTOR]) == ["x"] && AcceptedSpecs([SELECTOR]) == [];
    assert Lsp.RefusedIssues([SELECTOR]) == [Lsp.L005EntryRefused("x")];
    var dep := DependencySpec("x", "lib", None);
    assert Specs([SELECTOR]) == [dep] && RuntimeDecode(SELECTOR_ROOT) == Some(Manifest(None, [dep]));
    LeafResolves(fs, dep, RuntimeDecode(EMPTY_DOCUMENT).value);
    RuntimeVerdict(fs, "root");
  }

  // ----- The whole check -----

  /** The recorded libraries in some order. */
  method ListLibraries(libraries: Lsp.Libraries) returns (libs: seq<Lsp.LibrarySpec>)
    requires KeyedByName(libraries)
    ensures Lists(libs, libraries)
  {
    libs := [];
    var rest := libraries.Keys;
    while rest != {}
      invariant rest <= libraries.Keys
      invariant forall lib :: lib in libs <==> lib.name in libraries.Keys - rest && libraries[lib.name] == lib
      decreases rest
    {
      var n :| n in rest;
      libs := libs + [libraries[n]];
      rest := rest - {n};
    }
  }

  /** Runs all three searches over a project and compares their verdicts. */
  method CheckProject(fs: FileSystem, root: string)
    returns (build: Result<Run.ResolvedMap, Run.ResolveError>, issues: seq<Lsp.Issue>, graphIssues: seq<LibraryIssue>)
    ensures (build.Ok? <==> issues == [] && graphIssues == []) <==> Agreement(fs, root)
    ensures build.Ok? ==> SoundResolution(fs, DependenciesAt(fs, root), build.value)
  {
    build := ResolveLocalDependencies(fs, root);
    var libraries;
    libraries, issues := Lsp.LoadProject(fs, root);
    ProjectKeyed(fs, root);
    var libs := ListLibraries(libraries);
    graphIssues := LibraryDependencyIssues(libs);
    var byName := GroupByName(libs);
    var adjacency := BuildAdjacency(byName, libs);
    AgreeExactly(fs, root, libs, adjacency);
  }

  lemma ProjectKeyed(fs: FileSystem, root: string)
    ensures KeyedByName(Lsp.ResolveProject(fs, root).libraries)
  {
    var d := RootDirectory(fs, root);
    RootKnown(fs, root);
    if ServerDecodeRoot(d).Some? {
      ResolveAllAdds(fs, ServerDecodeRoot(d).value, Lsp.START.(issues := Lsp.RefusedIssues(d.entries)));
    }
  }
}
