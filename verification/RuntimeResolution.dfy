/**
 * What a successful run of the runtime resolver guarantees: the resolved packages are exactly
 * those reachable from the declared dependencies, their dependency graph has no cycle, and every
 * version requirement on every edge is met.
 */
module RuntimeResolution {
  import opened Common
  import opened Graphs
  import opened Manifests
  import opened RuntimeResolver

  /** The dependencies that the manifest at `path` declares. */
  function DependenciesAt(fs: FileSystem, path: string): seq<DependencySpec>
  {
    if path in fs && RuntimeDecode(fs[path]).Some? then RuntimeDecode(fs[path]).value.dependencies else []
  }

  /** The dependency graph through the manifests at the resolved paths. */
  ghost function ResolvedGraph(fs: FileSystem, resolved: ResolvedMap): Graph
  {
    map n | n in resolved :: DependencyNames(DependenciesAt(fs, resolved[n].path))
  }

  /** A dependency is met by the resolved packages. */
  ghost predicate Satisfied(fs: FileSystem, resolved: ResolvedMap, d: DependencySpec)
  {
    d.path in fs && d.name in resolved && VersionMatches(d.version, resolved[d.name].version)
  }

  ghost predicate AllSatisfied(fs: FileSystem, resolved: ResolvedMap, deps: seq<DependencySpec>)
  {
    forall d :: d in deps ==> Satisfied(fs, resolved, d)
  }

  /** Each entry describes the package found in a readable directory. */
  ghost predicate Located(fs: FileSystem, resolved: ResolvedMap)
  {
    forall n :: n in resolved ==>
      && resolved[n].name == n
      && resolved[n].path in fs && RuntimeDecode(fs[resolved[n].path]).Some?
      && resolved[n].version == RuntimeDecode(fs[resolved[n].path]).value.version
  }

  ghost predicate Consistent(fs: FileSystem, resolved: ResolvedMap)
  {
    && Located(fs, resolved)
    && (forall n :: n in resolved ==> AllSatisfied(fs, resolved, DependenciesAt(fs, resolved[n].path)))
    && Acyclic(ResolvedGraph(fs, resolved))
  }

  /** Some declared dependency reaches `n` through the resolved manifests. */
  ghost predicate ReachedFrom(fs: FileSystem, resolved: ResolvedMap, deps: seq<DependencySpec>, n: string)
  {
    exists d :: d in deps && Reaches(ResolvedGraph(fs, resolved), d.name, n)
  }

  /** The promise of a successful resolution. */
  ghost predicate SoundResolution(fs: FileSystem, declared: seq<DependencySpec>, resolved: ResolvedMap)
  {
    && Consistent(fs, resolved)
    && AllSatisfied(fs, resolved, declared)
    && forall n :: n in resolved <==> ReachedFrom(fs, resolved, declared, n)
  }

  // ----- Invariant of the search -----

  ghost predicate SearchInvariant(fs: FileSystem, st: SearchState)
  {
    && (forall n :: n in st.resolved <==> n in st.states && st.states[n].Done?)
    && (forall n :: n in st.stack <==> n in st.states && st.states[n].Visiting?)
    && Consistent(fs, st.resolved)
  }

  ghost predicate Grows(before: ResolvedMap, after: ResolvedMap)
  {
    forall n :: n in before ==> n in after && after[n] == before[n]
  }

  lemma GraphGrows(fs: FileSystem, before: ResolvedMap, after: ResolvedMap)
    requires Grows(before, after)
    ensures Extends(ResolvedGraph(fs, after), ResolvedGraph(fs, before))
  {
  }

  /** Recording a package whose dependencies are all met keeps the resolution consistent. */
  lemma RecordPackage(fs: FileSystem, resolved: ResolvedMap, dep: DependencySpec, manifest: Manifest)
    requires Consistent(fs, resolved) && dep.name !in resolved
    requires dep.path in fs && RuntimeDecode(fs[dep.path]) == Some(manifest)
    requires AllSatisfied(fs, resolved, manifest.dependencies)
    ensures Consistent(fs, resolved[dep.name := ResolvedDependency(dep.name, dep.path, manifest.version)])
  {
    var after := resolved[dep.name := ResolvedDependency(dep.name, dep.path, manifest.version)];
    var g := ResolvedGraph(fs, resolved);
    var edges := DependencyNames(manifest.dependencies);
    forall u, v | Edge(g, u, v) ensures v in g {
      var deps := DependenciesAt(fs, resolved[u].path);
      var i :| 0 <= i < |deps| && deps[i].name == v;
      assert Satisfied(fs, resolved, deps[i]);
    }
    forall v | v in edges ensures v in g {
      var i :| 0 <= i < |edges| && edges[i] == v;
      assert Satisfied(fs, resolved, manifest.dependencies[i]);
    }
    AddSink(g, dep.name, edges);
    assert ResolvedGraph(fs, after) == g[dep.name := edges];
    forall n | n in after ensures AllSatisfied(fs, after, DependenciesAt(fs, after[n].path)) {
      forall d | d in DependenciesAt(fs, after[n].path) ensures Satisfied(fs, after, d) {
        assert Satisfied(fs, resolved, d);
      }
    }
  }

  /** What a package's dependencies reach, the package reaches once it is recorded. */
  lemma ReachedThroughPackage(fs: FileSystem, resolved: ResolvedMap, dep: DependencySpec, manifest: Manifest, n: string)
    requires dep.name !in resolved && dep.path in fs && RuntimeDecode(fs[dep.path]) == Some(manifest)
    requires n == dep.name || ReachedFrom(fs, resolved, manifest.dependencies, n)
    ensures var after := resolved[dep.name := ResolvedDependency(dep.name, dep.path, manifest.version)];
      Reaches(ResolvedGraph(fs, after), dep.name, n)
  {
    var after := resolved[dep.name := ResolvedDependency(dep.name, dep.path, manifest.version)];
    var g := ResolvedGraph(fs, after);
    if n == dep.name {
      ReachesSelf(g, n);
    } else {
      GraphGrows(fs, resolved, after);
      var d :| d in manifest.dependencies && Reaches(ResolvedGraph(fs, resolved), d.name, n);
      ReachesExtends(ResolvedGraph(fs, resolved), g, d.name, n);
      var i :| 0 <= i < |manifest.dependencies| && manifest.dependencies[i] == d;
      assert DependencyNames(manifest.dependencies)[i] == d.name;
      assert Edge(g, dep.name, d.name);
      ReachesStep(g, dep.name, d.name, n);
    }
  }

  lemma EnterKeeps(fs: FileSystem, st: SearchState, name: string)
    requires SearchInvariant(fs, st) && name !in st.states
    ensures SearchInvariant(fs, Enter(st, name))
  {
  }

  /** Closing the search of a package whose dependencies have been resolved. */
  lemma LeaveKeeps(fs: FileSystem, st: SearchState, nested: SearchState, dep: DependencySpec, manifest: Manifest)
    requires SearchInvariant(fs, st) && dep.name !in st.states
    requires SearchInvariant(fs, nested) && nested.stack == st.stack + [dep.name]
    requires dep.path in fs && RuntimeDecode(fs[dep.path]) == Some(manifest)
    requires AllSatisfied(fs, nested.resolved, manifest.dependencies)
    ensures dep.name !in nested.resolved
    ensures SearchInvariant(fs, Leave(nested, dep, manifest)) && Leave(nested, dep, manifest).stack == st.stack
  {
    assert dep.name in nested.stack;
    assert nested.stack[..|nested.stack| - 1] == st.stack;
    RecordPackage(fs, nested.resolved, dep, manifest);
  }

  lemma {:induction false} ResolveOneSound(fs: FileSystem, dep: DependencySpec, st: SearchState)
    requires dep.name in Names(fs) && SearchInvariant(fs, st) && ResolveOne(fs, dep, st).Ok?
    ensures var after := ResolveOne(fs, dep, st).value;
      && SearchInvariant(fs, after) && after.stack == st.stack
      && Grows(st.resolved, after.resolved)
      && Satisfied(fs, after.resolved, dep)
      && forall n :: n in after.resolved && n !in st.resolved ==>
           Reaches(ResolvedGraph(fs, after.resolved), dep.name, n)
    decreases Names(fs) - st.states.Keys, 0, 0
  {
    if dep.name in st.resolved {
      assert ResolveOne(fs, dep, st) == Ok(st);
    } else {
      var manifest := RuntimeDecode(fs[dep.path]).value;
      var entered := Enter(st, dep.name);
      DecodedKnown(fs, dep.path);
      EnterKeeps(fs, st, dep.name);
      ResolveAllSound(fs, manifest.dependencies, entered);
      var nested := ResolveAll(fs, manifest.dependencies, entered).value;
      LeaveKeeps(fs, st, nested, dep, manifest);
      var after := Leave(nested, dep, manifest);
      assert ResolveOne(fs, dep, st) == Ok(after);
      forall n | n in after.resolved && n !in st.resolved
        ensures Reaches(ResolvedGraph(fs, after.resolved), dep.name, n)
      {
        ReachedThroughPackage(fs, nested.resolved, dep, manifest, n);
      }
    }
  }

  lemma {:induction false} ResolveAllSound(fs: FileSystem, deps: seq<DependencySpec>, st: SearchState)
    requires KnownDependencies(fs, deps) && SearchInvariant(fs, st) && ResolveAll(fs, deps, st).Ok?
    ensures var after := ResolveAll(fs, deps, st).value;
      && SearchInvariant(fs, after) && after.stack == st.stack
      && Grows(st.resolved, after.resolved)
      && AllSatisfied(fs, after.resolved, deps)
      && forall n :: n in after.resolved && n !in st.resolved ==> ReachedFrom(fs, after.resolved, deps, n)
    decreases Names(fs) - st.states.Keys, 1, |deps|
  {
    if deps != [] {
      ResolveOneSound(fs, deps[0], st);
      var mid := ResolveOne(fs, deps[0], st).value;
      ResolveAllSound(fs, deps[1..], mid);
      var after := ResolveAll(fs, deps, st).value;
      GraphGrows(fs, mid.resolved, after.resolved);
      forall d | d in deps ensures Satisfied(fs, after.resolved, d) {
        assert d == deps[0] || d in deps[1..];
      }
      forall n | n in after.resolved && n !in st.resolved ensures ReachedFrom(fs, after.resolved, deps, n) {
        if n in mid.resolved {
          ReachesExtends(ResolvedGraph(fs, mid.resolved), ResolvedGraph(fs, after.resolved), deps[0].name, n);
        } else {
          assert ReachedFrom(fs, after.resolved, deps[1..], n);
        }
      }
    }
  }

  /** A successful visit of a package not yet resolved, step by step. */
  lemma VisitSteps(fs: FileSystem, dep: DependencySpec, st: SearchState)
    requires dep.name in Names(fs) && SearchInvariant(fs, st) && ResolveOne(fs, dep, st).Ok? && dep.name !in st.resolved
    ensures dep.path in fs && RuntimeDecode(fs[dep.path]).Some? && dep.name !in st.states
    ensures var manifest := RuntimeDecode(fs[dep.path]).value;
      && VersionMatches(dep.version, manifest.version) && KnownDependencies(fs, manifest.dependencies)
      && SearchInvariant(fs, Enter(st, dep.name))
      && ResolveAll(fs, manifest.dependencies, Enter(st, dep.name)).Ok?
      && var nested := ResolveAll(fs, manifest.dependencies, Enter(st, dep.name)).value;
        && ResolveOne(fs, dep, st) == Ok(Leave(nested, dep, manifest))
        && dep.name !in nested.resolved && Grows(nested.resolved, Leave(nested, dep, manifest).resolved)
        && nested.resolved.Keys >= st.resolved.Keys
  {
    DecodedKnown(fs, dep.path);
    var manifest := RuntimeDecode(fs[dep.path]).value;
    EnterKeeps(fs, st, dep.name);
    ResolveAllSound(fs, manifest.dependencies, Enter(st, dep.name));
    assert dep.name in ResolveAll(fs, manifest.dependencies, Enter(st, dep.name)).value.stack;
  }

  /** Whatever is reachable from met dependencies through a consistent resolution is resolved. */
  lemma ReachableIsResolved(fs: FileSystem, resolved: ResolvedMap, deps: seq<DependencySpec>, n: string)
    requires Consistent(fs, resolved) && AllSatisfied(fs, resolved, deps)
    requires ReachedFrom(fs, resolved, deps, n)
    ensures n in resolved
  {
    var g := ResolvedGraph(fs, resolved);
    var d :| d in deps && Reaches(g, d.name, n);
    var w :| IsWalkBetween(g, w, d.name, n);
    forall u, v | u in resolved.Keys && Edge(g, u, v) ensures v in resolved.Keys {
      var nested := DependenciesAt(fs, resolved[u].path);
      var i :| 0 <= i < |nested| && nested[i].name == v;
      assert Satisfied(fs, resolved, nested[i]);
    }
    ReachStaysInside(g, resolved.Keys, w);
  }

  /** Main result: a successful resolution is sound, for every file system and root. */
  lemma ResolveLocalSound(fs: FileSystem, root: string)
    requires ResolveLocal(fs, root).Ok?
    ensures SoundResolution(fs, DependenciesAt(fs, root), ResolveLocal(fs, root).value)
  {
    var declared := DependenciesAt(fs, root);
    var resolved := ResolveLocal(fs, root).value;
    EmptyConsistent(fs);
    RootKnown(fs, root);
    ResolveAllSound(fs, declared, START);
    forall n ensures n in resolved <==> ReachedFrom(fs, resolved, declared, n) {
      if ReachedFrom(fs, resolved, declared, n) {
        ReachableIsResolved(fs, resolved, declared, n);
      }
    }
  }

  lemma EmptyConsistent(fs: FileSystem)
    ensures Consistent(fs, map[])
  {
    var g := ResolvedGraph(fs, map[]);
    forall w ensures !IsClosedWalk(g, w) {
      if IsClosedWalk(g, w) {
        ClosedWalkStarts(g, w);
        assert false;
      }
    }
  }

  /** Resolves the dependencies of a project; the error is the first problem the search met. */
  method ResolveLocalDependencies(fs: FileSystem, root: string) returns (r: Result<ResolvedMap, ResolveError>)
    ensures r == ResolveLocal(fs, root)
    ensures r.Ok? ==> SoundResolution(fs, DependenciesAt(fs, root), r.value)
  {
    var decoded := RuntimeDecode(RootDirectory(fs, root));
    if decoded.None? {
      return Err(RootManifestUnreadable(root));
    }
    var declared := decoded.value.dependencies;
    RootKnown(fs, root);
    var resolver := new Resolver();
    var i := 0;
    while i < |declared|
      invariant 0 <= i <= |declared|
      invariant KnownDependencies(fs, declared[i..])
      invariant ResolveAll(fs, declared, START) == ResolveAll(fs, declared[i..], resolver.State())
    {
      var step := resolver.ResolveDependencyRecursive(fs, declared[i]);
      if step.Err? {
        return Err(step.error);
      }
      assert declared[i..][1..] == declared[i + 1..];
      i := i + 1;
    }
    r := Ok(resolver.resolved);
    ResolveLocalSound(fs, root);
  }
}
