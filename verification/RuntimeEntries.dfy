/**
 * What the runtime's resolver means in terms of the entries of the manifest files, independently
 * of how they are decoded: when it succeeds, what it then resolved, and what its errors say.
 */
module RuntimeEntries {
  import opened Common
  import opened Graphs
  import opened Manifests
  import opened RuntimeResolver
  import opened RuntimeResolution

  // ----- Entries as they stand in the file -----

  /** The package section decodes and every entry has a path. */
  predicate Decodable(d: Directory)
  {
    && d.Document? && d.package != BadPackage
    && forall i :: 0 <= i < |d.entries| ==> d.entries[i].PathText? || d.entries[i].tablePath != None
  }

  /** Each decoded dependency is the entry at its place. */
  lemma DecodedEntries(d: Directory)
    ensures RuntimeDecode(d).Some? <==> Decodable(d)
    ensures Decodable(d) ==>
      && d.package == Package(RuntimeDecode(d).value.version)
      && |RuntimeDecode(d).value.dependencies| == |d.entries|
      && forall i :: 0 <= i < |d.entries| ==>
           var spec := RuntimeDecode(d).value.dependencies[i]; EntryIs(d.entries[i], spec.name, spec.path, spec.version)
  {
    if d.Document? {
      assert (forall e :: e in d.entries ==> HasPath(e)) <==> (forall i :: 0 <= i < |d.entries| ==> HasPath(d.entries[i]));
    }
  }

  // ----- What success means -----

  /** The entry's directory exists, its name is resolved, and a version it gives is the resolved one. */
  predicate EntryMet(fs: FileSystem, resolved: ResolvedMap, e: Entry)
  {
    match e
    case PathText(name, path) => path in fs && name in resolved
    case Table(name, path, _, version, _) =>
      && path.Some? && path.value in fs && name in resolved
      && (version.Some? ==> resolved[name].version == version)
  }

  ghost predicate EntriesMet(fs: FileSystem, resolved: ResolvedMap, d: Directory)
  {
    forall i :: 0 <= i < |EntriesOf(d)| ==> EntryMet(fs, resolved, EntriesOf(d)[i])
  }

  lemma SatisfiedIsMet(fs: FileSystem, resolved: ResolvedMap, d: Directory)
    requires RuntimeDecode(d).Some? && AllSatisfied(fs, resolved, RuntimeDecode(d).value.dependencies)
    ensures EntriesMet(fs, resolved, d)
  {
    DecodedEntries(d);
    forall i | 0 <= i < |EntriesOf(d)| ensures EntryMet(fs, resolved, EntriesOf(d)[i]) {
      assert Satisfied(fs, resolved, RuntimeDecode(d).value.dependencies[i]);
    }
  }

  /**
   * After a successful resolution every entry of the root and of every resolved directory is met,
   * and each resolved package has the version that its file gives.
   */
  lemma SuccessMeetsEntries(fs: FileSystem, root: string)
    requires ResolveLocal(fs, root).Ok?
    ensures var resolved := ResolveLocal(fs, root).value;
      && EntriesMet(fs, resolved, RootDirectory(fs, root))
      && forall n :: n in resolved ==>
           && resolved[n].name == n && resolved[n].path in fs
           && fs[resolved[n].path].Document? && fs[resolved[n].path].package == Package(resolved[n].version)
           && EntriesMet(fs, resolved, fs[resolved[n].path])
  {
    var resolved := ResolveLocal(fs, root).value;
    ResolveLocalSound(fs, root);
    if root in fs {
      SatisfiedIsMet(fs, resolved, fs[root]);
    }
    forall n | n in resolved
      ensures fs[resolved[n].path].Document? && fs[resolved[n].path].package == Package(resolved[n].version)
      ensures EntriesMet(fs, resolved, fs[resolved[n].path])
    {
      DecodedEntries(fs[resolved[n].path]);
      SatisfiedIsMet(fs, resolved, fs[resolved[n].path]);
    }
  }

  /** Dependencies are resolved one after the other, and the first problem ends it. */
  lemma {:induction false} OneAfterTheOther(fs: FileSystem, a: seq<DependencySpec>, b: seq<DependencySpec>, st: SearchState)
    requires KnownDependencies(fs, a) && KnownDependencies(fs, b)
    ensures KnownDependencies(fs, a + b)
    ensures var first := ResolveAll(fs, a, st);
      ResolveAll(fs, a + b, st) == if first.Err? then first else ResolveAll(fs, b, first.value)
    decreases |a|
  {
    hide Names, ResolveOne;
    if a == [] {
      assert a + b == b;
    } else {
      assert (a + b)[1..] == a[1..] + b;
      var first := ResolveOne(fs, a[0], st);
      if first.Ok? {
        OneAfterTheOther(fs, a[1..], b, first.value);
      }
    }
  }

  // ----- Where a resolved package comes from -----

  ghost predicate DeclaredIn(deps: seq<DependencySpec>, name: string, path: string)
  {
    exists d :: d in deps && d.name == name && d.path == path
  }

  /** A resolved package declares the name with the path. */
  ghost predicate DeclaredByResolved(fs: FileSystem, resolved: ResolvedMap, name: string, path: string)
  {
    exists m :: m in resolved && DeclaredIn(DependenciesAt(fs, resolved[m].path), name, path)
  }

  lemma {:induction false} OneDeclared(fs: FileSystem, dep: DependencySpec, st: SearchState)
    requires dep.name in Names(fs) && SearchInvariant(fs, st) && ResolveOne(fs, dep, st).Ok?
    ensures var after := ResolveOne(fs, dep, st).value.resolved;
      forall n :: n in after && n !in st.resolved ==>
        (n == dep.name && after[n].path == dep.path) || DeclaredByResolved(fs, after, n, after[n].path)
    decreases Names(fs) - st.states.Keys, 0, 0
  {
    hide Names, SearchInvariant;
    if dep.name in st.resolved {
      assert ResolveOne(fs, dep, st) == Ok(st);
    } else {
      VisitSteps(fs, dep, st);
      hide DeclaredIn, DeclaredByResolved, RuntimeDecode;
      var manifest := RuntimeDecode(fs[dep.path]).value;
      var entered := Enter(st, dep.name);
      AllDeclared(fs, manifest.dependencies, entered);
      var nested := ResolveAll(fs, manifest.dependencies, entered).value;
      NestedDeclared(fs, dep, manifest, st.resolved, nested.resolved, Leave(nested, dep, manifest).resolved);
    }
  }

  lemma NestedDeclared(fs: FileSystem, dep: DependencySpec, manifest: Manifest, before: ResolvedMap, nested: ResolvedMap, after: ResolvedMap)
    requires dep.path in fs && RuntimeDecode(fs[dep.path]) == Some(manifest)
    requires after == nested[dep.name := ResolvedDependency(dep.name, dep.path, manifest.version)] && Grows(nested, after)
    requires forall n :: n in nested && n !in before ==>
      DeclaredIn(manifest.dependencies, n, nested[n].path) || DeclaredByResolved(fs, nested, n, nested[n].path)
    ensures forall n :: n in after && n !in before ==>
      (n == dep.name && after[n].path == dep.path) || DeclaredByResolved(fs, after, n, after[n].path)
  {
    hide DeclaredIn, RuntimeDecode;
    forall n | n in after && n !in before && n != dep.name
      ensures DeclaredByResolved(fs, after, n, after[n].path)
    {
      if DeclaredIn(manifest.dependencies, n, nested[n].path) {
        assert after[dep.name].path == dep.path && dep.name in after;
      } else {
        var m :| m in nested && DeclaredIn(DependenciesAt(fs, nested[m].path), n, nested[n].path);
        assert m in after && after[m] == nested[m];
      }
    }
  }

  lemma {:induction false} AllDeclared(fs: FileSystem, deps: seq<DependencySpec>, st: SearchState)
    requires KnownDependencies(fs, deps) && SearchInvariant(fs, st) && ResolveAll(fs, deps, st).Ok?
    ensures var after := ResolveAll(fs, deps, st).value.resolved;
      forall n :: n in after && n !in st.resolved ==>
        DeclaredIn(deps, n, after[n].path) || DeclaredByResolved(fs, after, n, after[n].path)
    decreases Names(fs) - st.states.Keys, 1, |deps|
  {
    hide Names, SearchInvariant, DependenciesAt;
    if deps != [] {
      var mid := ResolveOne(fs, deps[0], st).value;
      OneDeclared(fs, deps[0], st);
      ResolveOneSound(fs, deps[0], st);
      AllDeclared(fs, deps[1..], mid);
      ResolveAllSound(fs, deps[1..], mid);
      var after := ResolveAll(fs, deps, st).value.resolved;
      forall n | n in after && n !in st.resolved
        ensures DeclaredIn(deps, n, after[n].path) || DeclaredByResolved(fs, after, n, after[n].path)
      {
        if n in mid.resolved {
          assert after[n] == mid.resolved[n];
          assert deps[0] in deps;
          DeclaredGrows(fs, mid.resolved, after, n, after[n].path);
        } else if DeclaredIn(deps[1..], n, after[n].path) {
          var d :| d in deps[1..] && d.name == n && d.path == after[n].path;
          assert d in deps;
        }
      }
    }
  }

  lemma DeclaredGrows(fs: FileSystem, before: ResolvedMap, after: ResolvedMap, name: string, path: string)
    requires Grows(before, after)
    ensures DeclaredByResolved(fs, before, name, path) ==> DeclaredByResolved(fs, after, name, path)
  {
  }

  /** An entry of the file names the path under the name. */
  ghost predicate HasEntry(d: Directory, name: string, path: string)
  {
    exists i, version :: 0 <= i < |EntriesOf(d)| && EntryIs(EntriesOf(d)[i], name, path, version)
  }

  lemma DeclaredHasEntry(fs: FileSystem, d: Directory, name: string, path: string)
    requires RuntimeDecode(d).Some? && DeclaredIn(RuntimeDecode(d).value.dependencies, name, path)
    ensures HasEntry(d, name, path)
  {
    DecodedEntries(d);
    var deps := RuntimeDecode(d).value.dependencies;
    var spec :| spec in deps && spec.name == name && spec.path == path;
    var i :| 0 <= i < |deps| && deps[i] == spec;
    assert EntryIs(EntriesOf(d)[i], name, path, spec.version);
  }

  ghost predicate HasEntryAt(fs: FileSystem, dir: string, name: string, path: string)
  {
    dir in fs && HasEntry(fs[dir], name, path)
  }

  /** Every resolved package is at the path that an entry of the root or of a resolved file gives its name. */
  lemma ResolvedFromEntries(fs: FileSystem, root: string, n: string)
    requires ResolveLocal(fs, root).Ok? && n in ResolveLocal(fs, root).value
    ensures var resolved := ResolveLocal(fs, root).value;
      || HasEntry(RootDirectory(fs, root), n, resolved[n].path)
      || exists m :: m in resolved && HasEntryAt(fs, resolved[m].path, n, resolved[n].path)
  {
    hide Names, SoundResolution;
    var resolved := ResolveLocal(fs, root).value;
    RootKnown(fs, root);
    StartInvariant(fs);
    var deps := RuntimeDecode(RootDirectory(fs, root)).value.dependencies;
    AllDeclared(fs, deps, START);
    hide ResolveLocal, SearchInvariant;
    if DeclaredIn(deps, n, resolved[n].path) {
      DeclaredHasEntry(fs, RootDirectory(fs, root), n, resolved[n].path);
    } else {
      var m :| m in resolved && DeclaredIn(DependenciesAt(fs, resolved[m].path), n, resolved[n].path);
      DeclaredHasEntry(fs, fs[resolved[m].path], n, resolved[n].path);
    }
  }

  lemma StartInvariant(fs: FileSystem)
    ensures SearchInvariant(fs, START)
  {
    EmptyConsistent(fs);
  }

  // ----- When the resolution succeeds -----

  /** The entry's name is planned at its path, and a version it gives is that of the file there. */
  predicate EntryPlanned(fs: FileSystem, plan: map<string, string>, e: Entry)
  {
    && e.name in plan && plan[e.name] in fs && fs[plan[e.name]].Document?
    && match e
       case PathText(name, path) => path == plan[name]
       case Table(name, path, _, version, _) =>
         path == Some(plan[name]) && (version.Some? ==> fs[plan[name]].package == Package(version))
  }

  /** The file decodes and all its entries are planned. */
  ghost predicate FilePlanned(fs: FileSystem, plan: map<string, string>, d: Directory)
  {
    Decodable(d) && forall i :: 0 <= i < |d.entries| ==> EntryPlanned(fs, plan, d.entries[i])
  }

  function EntryNames(d: Directory): (names: seq<string>)
    ensures |names| == |EntriesOf(d)|
    ensures forall i :: 0 <= i < |names| ==> names[i] == EntriesOf(d)[i].name
  {
    seq(|EntriesOf(d)|, i requires 0 <= i < |EntriesOf(d)| => EntriesOf(d)[i].name)
  }

  /** Who depends on whom, by the entries of the planned files. */
  ghost function PlanGraph(fs: FileSystem, plan: map<string, string>): Graph
  {
    map n | n in plan && plan[n] in fs :: EntryNames(fs[plan[n]])
  }

  /** One path for each name, under which every file decodes, every version is met, and nothing depends on itself. */
  ghost predicate GoodPlan(fs: FileSystem, root: string, plan: map<string, string>)
  {
    && FilePlanned(fs, plan, RootDirectory(fs, root))
    && (forall n :: n in plan ==> plan[n] in fs && FilePlanned(fs, plan, fs[plan[n]]))
    && Acyclic(PlanGraph(fs, plan))
  }

  /** What has been resolved is resolved as planned. */
  ghost predicate AsPlanned(fs: FileSystem, plan: map<string, string>, resolved: ResolvedMap)
  {
    forall n :: n in resolved ==>
      && n in plan && plan[n] in fs && fs[plan[n]].Document? && resolved[n].path == plan[n]
      && fs[plan[n]].package == Package(resolved[n].version)
  }

  ghost predicate SpecPlanned(fs: FileSystem, plan: map<string, string>, dep: DependencySpec)
  {
    && dep.name in plan && plan[dep.name] == dep.path && dep.path in fs && FilePlanned(fs, plan, fs[dep.path])
    && (dep.version.Some? ==> fs[dep.path].package == Package(dep.version))
  }

  lemma PlannedSpecs(fs: FileSystem, plan: map<string, string>, d: Directory)
    requires FilePlanned(fs, plan, d) && forall n :: n in plan ==> plan[n] in fs && FilePlanned(fs, plan, fs[plan[n]])
    ensures RuntimeDecode(d).Some?
    ensures forall dep :: dep in RuntimeDecode(d).value.dependencies ==> SpecPlanned(fs, plan, dep)
  {
    DecodedEntries(d);
    var deps := RuntimeDecode(d).value.dependencies;
    forall dep | dep in deps ensures SpecPlanned(fs, plan, dep) {
      var i :| 0 <= i < |deps| && deps[i] == dep;
      assert EntryIs(d.entries[i], dep.name, dep.path, dep.version) && EntryPlanned(fs, plan, d.entries[i]);
    }
  }

  lemma PlannedEdges(fs: FileSystem, plan: map<string, string>, dep: DependencySpec, d: DependencySpec)
    requires SpecPlanned(fs, plan, dep) && RuntimeDecode(fs[dep.path]).Some?
    requires d in RuntimeDecode(fs[dep.path]).value.dependencies
    ensures Edge(PlanGraph(fs, plan), dep.name, d.name)
  {
    DecodedEntries(fs[dep.path]);
    var deps := RuntimeDecode(fs[dep.path]).value.dependencies;
    var i :| 0 <= i < |deps| && deps[i] == d;
    assert EntryNames(fs[dep.path])[i] == d.name;
  }

  /** Following the plan, the search succeeds: its stack is a walk, so it never meets itself. */
  lemma {:induction false} PlanOne(fs: FileSystem, plan: map<string, string>, dep: DependencySpec, st: SearchState)
    requires dep.name in Names(fs) && SearchInvariant(fs, st) && AsPlanned(fs, plan, st.resolved)
    requires SpecPlanned(fs, plan, dep) && Acyclic(PlanGraph(fs, plan))
    requires forall n :: n in plan ==> plan[n] in fs && FilePlanned(fs, plan, fs[plan[n]])
    requires IsWalk(PlanGraph(fs, plan), st.stack + [dep.name])
    ensures ResolveOne(fs, dep, st).Ok? && AsPlanned(fs, plan, ResolveOne(fs, dep, st).value.resolved)
    decreases Names(fs) - st.states.Keys, 0, 0
  {
    hide IsWalk, Acyclic, PlanGraph, FilePlanned;
    if dep.name in st.resolved {
      assert VersionMatches(dep.version, st.resolved[dep.name].version);
    } else if dep.name in st.states {
      RevisitCloses(PlanGraph(fs, plan), st.stack, dep.name);
    } else {
      PlannedSpecs(fs, plan, fs[dep.path]);
      DecodedEntries(fs[dep.path]);
      DecodedKnown(fs, dep.path);
      EnterKeeps(fs, st, dep.name);
      var manifest := RuntimeDecode(fs[dep.path]).value;
      forall d | d in manifest.dependencies ensures IsWalk(PlanGraph(fs, plan), st.stack + [dep.name] + [d.name]) {
        PlannedEdges(fs, plan, dep, d);
        WalkOn(PlanGraph(fs, plan), st.stack, dep.name, d.name);
      }
      hide SearchInvariant, RuntimeDecode;
      assert dep.name in Names(fs) - st.states.Keys && dep.name !in Names(fs) - Enter(st, dep.name).states.Keys;
      PlanAll(fs, plan, manifest.dependencies, Enter(st, dep.name));
      var nested := ResolveAll(fs, manifest.dependencies, Enter(st, dep.name)).value;
      assert ResolveOne(fs, dep, st) == Ok(Leave(nested, dep, manifest));
    }
  }

  lemma {:induction false} PlanAll(fs: FileSystem, plan: map<string, string>, deps: seq<DependencySpec>, st: SearchState)
    requires KnownDependencies(fs, deps) && SearchInvariant(fs, st) && AsPlanned(fs, plan, st.resolved)
    requires (forall d :: d in deps ==> SpecPlanned(fs, plan, d)) && Acyclic(PlanGraph(fs, plan))
    requires forall n :: n in plan ==> plan[n] in fs && FilePlanned(fs, plan, fs[plan[n]])
    requires forall d :: d in deps ==> IsWalk(PlanGraph(fs, plan), st.stack + [d.name])
    ensures ResolveAll(fs, deps, st).Ok? && AsPlanned(fs, plan, ResolveAll(fs, deps, st).value.resolved)
    decreases Names(fs) - st.states.Keys, 1, |deps|
  {
    hide Names, SearchInvariant, IsWalk, Acyclic, PlanGraph, FilePlanned, SpecPlanned, AsPlanned;
    if deps != [] {
      assert deps[0] in deps && forall d :: d in deps[1..] ==> d in deps;
      PlanOne(fs, plan, deps[0], st);
      ResolveOneSound(fs, deps[0], st);
      PlanAll(fs, plan, deps[1..], ResolveOne(fs, deps[0], st).value);
    }
  }

  /** A good plan is carried out: the resolution succeeds, with every package where the plan has it. */
  lemma PlanSucceeds(fs: FileSystem, root: string, plan: map<string, string>)
    requires GoodPlan(fs, root, plan)
    ensures ResolveLocal(fs, root).Ok? && AsPlanned(fs, plan, ResolveLocal(fs, root).value)
  {
    hide Names;
    PlannedSpecs(fs, plan, RootDirectory(fs, root));
    RootKnown(fs, root);
    StartInvariant(fs);
    var deps := RuntimeDecode(RootDirectory(fs, root)).value.dependencies;
    assert forall d :: d in deps ==> IsWalk(PlanGraph(fs, plan), START.stack + [d.name]);
    PlanAll(fs, plan, deps, START);
  }

  /** Every entry that gives a path gives each name the same one. */
  ghost predicate PathsAgree(fs: FileSystem, root: string)
  {
    forall a, b, name, p, q ::
      HasEntry(FileAt(fs, root, a), name, p) && HasEntry(FileAt(fs, root, b), name, q) ==> p == q
  }

  /** A directory's file, or the root's for none. */
  function FileAt(fs: FileSystem, root: string, dir: Option<string>): Directory
  {
    match dir
    case None => RootDirectory(fs, root)
    case Some(d) => if d in fs then fs[d] else EMPTY_DOCUMENT
  }

  /** Conversely a successful resolution is a good plan, where the entries agree about paths. */
  lemma SuccessIsPlan(fs: FileSystem, root: string)
    requires ResolveLocal(fs, root).Ok? && PathsAgree(fs, root)
    ensures GoodPlan(fs, root, map n | n in ResolveLocal(fs, root).value :: ResolveLocal(fs, root).value[n].path)
  {
    hide Names, RuntimeDecode, ResolveLocal;
    var resolved := ResolveLocal(fs, root).value;
    var plan := map n | n in resolved :: resolved[n].path;
    SuccessMeetsEntries(fs, root);
    SuccessDecodes(fs, root);
    MetIsPlanned(fs, root, None);
    forall n | n in plan ensures FilePlanned(fs, plan, fs[plan[n]]) {
      assert FileAt(fs, root, Some(plan[n])) == fs[plan[n]];
      MetIsPlanned(fs, root, Some(plan[n]));
    }
    SuccessAcyclic(fs, root);
  }

  lemma SuccessDecodes(fs: FileSystem, root: string)
    requires ResolveLocal(fs, root).Ok?
    ensures Decodable(RootDirectory(fs, root))
    ensures forall n :: n in ResolveLocal(fs, root).value ==>
      ResolveLocal(fs, root).value[n].path in fs && Decodable(fs[ResolveLocal(fs, root).value[n].path])
  {
    var resolved := ResolveLocal(fs, root).value;
    ResolveLocalSound(fs, root);
    DecodedEntries(RootDirectory(fs, root));
    forall n | n in resolved ensures Decodable(fs[resolved[n].path]) {
      DecodedEntries(fs[resolved[n].path]);
    }
  }

  lemma MetIsPlanned(fs: FileSystem, root: string, dir: Option<string>)
    requires ResolveLocal(fs, root).Ok? && PathsAgree(fs, root)
    requires Decodable(FileAt(fs, root, dir)) && EntriesMet(fs, ResolveLocal(fs, root).value, FileAt(fs, root, dir))
    ensures FilePlanned(fs, map n | n in ResolveLocal(fs, root).value :: ResolveLocal(fs, root).value[n].path, FileAt(fs, root, dir))
  {
    hide ResolveLocal;
    var resolved := ResolveLocal(fs, root).value;
    var plan := map n | n in resolved :: resolved[n].path;
    var d := FileAt(fs, root, dir);
    SuccessMeetsEntries(fs, root);
    forall i | 0 <= i < |d.entries| ensures EntryPlanned(fs, plan, d.entries[i]) {
      var e := d.entries[i];
      assert EntryMet(fs, resolved, EntriesOf(d)[i]);
      var path := if e.PathText? then e.path else e.tablePath.value;
      assert EntryIs(EntriesOf(d)[i], e.name, path, if e.PathText? then None else e.version);
      assert HasEntry(d, e.name, path);
      ResolvedFromEntries(fs, root, e.name);
      if HasEntry(RootDirectory(fs, root), e.name, resolved[e.name].path) {
        assert HasEntry(FileAt(fs, root, None), e.name, resolved[e.name].path);
      } else {
        var m :| m in resolved && HasEntryAt(fs, resolved[m].path, e.name, resolved[e.name].path);
        assert HasEntry(FileAt(fs, root, Some(resolved[m].path)), e.name, resolved[e.name].path);
      }
    }
  }

  /** The names of a decoded file's dependencies are those of its entries. */
  lemma NamesDecoded(fs: FileSystem, path: string)
    requires path in fs && RuntimeDecode(fs[path]).Some?
    ensures EntryNames(fs[path]) == DependencyNames(DependenciesAt(fs, path))
  {
    DecodedEntries(fs[path]);
    hide RuntimeDecode, Decodable;
    var deps := DependenciesAt(fs, path);
    forall i | 0 <= i < |deps| ensures EntryNames(fs[path])[i] == DependencyNames(deps)[i] {
      assert EntryIs(fs[path].entries[i], deps[i].name, deps[i].path, deps[i].version);
    }
  }

  /** The graph of the entries at the resolved paths is the graph of the resolution. */
  lemma SameGraph(fs: FileSystem, resolved: ResolvedMap)
    requires Located(fs, resolved)
    ensures PlanGraph(fs, map n | n in resolved :: resolved[n].path) == ResolvedGraph(fs, resolved)
  {
    hide RuntimeDecode, DependenciesAt;
    forall n | n in resolved ensures EntryNames(fs[resolved[n].path]) == DependencyNames(DependenciesAt(fs, resolved[n].path)) {
      NamesDecoded(fs, resolved[n].path);
    }
  }

  lemma SuccessAcyclic(fs: FileSystem, root: string)
    requires ResolveLocal(fs, root).Ok?
    ensures Acyclic(PlanGraph(fs, map n | n in ResolveLocal(fs, root).value :: ResolveLocal(fs, root).value[n].path))
  {
    ResolveLocalSound(fs, root);
    SameGraph(fs, ResolveLocal(fs, root).value);
  }

  /**
   * Main result: where the entries agree about paths, the runtime resolves a project if and only if
   * there is a plan under which every file decodes, every required version is the one given by the
   * file at the planned path, and no package depends on itself.
   */
  lemma ResolvesIffPlanned(fs: FileSystem, root: string)
    requires PathsAgree(fs, root)
    ensures ResolveLocal(fs, root).Ok? <==> exists plan :: GoodPlan(fs, root, plan)
  {
    if ResolveLocal(fs, root).Ok? {
      SuccessIsPlan(fs, root);
    }
    if exists plan :: GoodPlan(fs, root, plan) {
      var plan :| GoodPlan(fs, root, plan);
      PlanSucceeds(fs, root, plan);
    }
  }
}
