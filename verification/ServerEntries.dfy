/**
 * What the language server's resolver means in terms of the entries of the manifest files,
 * independently of how they are decoded: which issues it and the library graph report.
 */
module ServerEntries {
  import opened Common
  import opened Graphs
  import opened Manifests
  import opened Orders
  import opened LspResolver
  import opened LibraryGraph
  import opened ResolverAgreement

  // ----- Entries the language server takes -----

  /** A table without a path, with a blank one, or with something beside it. */
  predicate Refused(e: Manifests.Entry)
  {
    match e
    case PathText(_, _) => false
    case Table(_, path, blank, _, extras) => path == None || blank || extras
  }

  predicate Decodes(d: Directory)
  {
    d.Document? && d.package != BadPackage && d.extrasTyped
  }

  predicate RootDecodes(d: Directory)
  {
    d.Document? && d.extrasTyped && d.sectionsTyped
  }

  /** An entry that is not refused gives the dependency. */
  ghost predicate Gives(entries: seq<Manifests.Entry>, dep: DependencySpec)
  {
    exists i :: 0 <= i < |entries| && !Refused(entries[i]) && EntryIs(entries[i], dep.name, dep.path, dep.version)
  }

  /** The dependencies are those that the entries give, and the refused names those of the others. */
  lemma {:induction false} TakenExactly(entries: seq<Manifests.Entry>)
    ensures |AcceptedSpecs(entries)| + |RefusedNames(entries)| == |entries|
    ensures forall dep :: dep in AcceptedSpecs(entries) <==> Gives(entries, dep)
    ensures forall n :: n in RefusedNames(entries) <==>
      exists i :: 0 <= i < |entries| && Refused(entries[i]) && entries[i].name == n
  {
    if entries != [] {
      TakenExactly(entries[1..]);
      forall dep ensures dep in AcceptedSpecs(entries) <==> Gives(entries, dep) {
        GivesOneMore(entries, dep);
      }
      forall n ensures n in RefusedNames(entries) <==> exists i :: 0 <= i < |entries| && Refused(entries[i]) && entries[i].name == n {
        if n in RefusedNames(entries[1..]) {
          var i :| 0 <= i < |entries[1..]| && Refused(entries[1..][i]) && entries[1..][i].name == n;
          assert Refused(entries[i + 1]) && entries[i + 1].name == n;
        }
        if i :| 0 <= i < |entries| && Refused(entries[i]) && entries[i].name == n {
          assert i > 0 ==> entries[1..][i - 1] == entries[i];
        }
      }
    }
  }

  lemma GivesOneMore(entries: seq<Manifests.Entry>, dep: DependencySpec)
    requires entries != []
    ensures Gives(entries, dep) <==>
      (!Refused(entries[0]) && EntryIs(entries[0], dep.name, dep.path, dep.version)) || Gives(entries[1..], dep)
  {
    if Gives(entries[1..], dep) {
      var i :| 0 <= i < |entries[1..]| && !Refused(entries[1..][i]) && EntryIs(entries[1..][i], dep.name, dep.path, dep.version);
      assert entries[i + 1] == entries[1..][i];
    }
    if i :| 0 <= i < |entries| && !Refused(entries[i]) && EntryIs(entries[i], dep.name, dep.path, dep.version) {
      assert i > 0 ==> entries[1..][i - 1] == entries[i];
    }
  }

  // ----- What the search does about each dependency -----

  /** The issue is one that the dependency causes, given the libraries in the end. */
  predicate IssueOfDependency(fs: FileSystem, libraries: Libraries, dep: DependencySpec, x: Issue)
  {
    match x
    case L001PathMissing(n, p) => n == dep.name && p == dep.path && p !in fs
    case L002VersionMismatch(n, r, a) =>
      && n == dep.name && dep.version == Some(r) && dep.path in fs
      && n in libraries && a == libraries[n].version && a != Some(r)
    case _ => false
  }

  /** The dependency's library is there unless its path is missing, and what it causes is reported. */
  ghost predicate Handled(fs: FileSystem, final: SearchState, dep: DependencySpec)
  {
    && (dep.path in fs ==> dep.name in final.libraries)
    && forall x :: IssueOfDependency(fs, final.libraries, dep, x) ==> x in final.issues
  }

  /** The packages that the search is inside of. */
  ghost function Open(st: SearchState): set<string>
  {
    set n | n in st.states && st.states[n].Visiting? && n !in st.libraries
  }

  /** The search goes on from `st` to `final`. */
  ghost predicate Within(st: SearchState, final: SearchState)
  {
    LibrariesGrow(st.libraries, final.libraries) && forall x :: x in st.issues ==> x in final.issues
  }

  ghost predicate BackTo(final: SearchState, from: string, name: string)
  {
    from in final.libraries && Reaches(LibraryEdges(final.libraries), from, name)
  }

  /** Every package that the search is inside of leads to the name. */
  ghost predicate OpenLeadTo(st: SearchState, final: SearchState, name: string)
  {
    forall n :: n in Open(st) ==> BackTo(final, n, name)
  }

  /**
   * The library describes its file, what the file causes is reported, and each of its dependencies
   * is handled, or leads back to the library.
   */
  ghost predicate Settled(fs: FileSystem, final: SearchState, m: string)
    requires m in final.libraries
  {
    var lib := final.libraries[m];
    && lib.name == m && lib.path in fs
    && match ServerDecode(fs[lib.path])
       case None => lib.version == None && lib.dependencies == [] && L001ManifestUnreadable(m, lib.path) in final.issues
       case Some(manifest) =>
         && lib.version == manifest.version && lib.dependencies == LibraryDependencies(manifest.dependencies)
         && (forall x :: x in RefusedIssues(fs[lib.path].entries) ==> x in final.issues)
         && forall d :: d in manifest.dependencies ==> Handled(fs, final, d) || BackTo(final, d.name, m)
  }

  /** The search goes into the package: it exists, and is neither done nor being visited. */
  predicate Fresh(fs: FileSystem, dep: DependencySpec, st: SearchState)
  {
    dep.path in fs && dep.name !in st.libraries && !(dep.name in st.states && st.states[dep.name].Visiting?)
  }

  /** A visit, step by step. */
  lemma Visited(fs: FileSystem, dep: DependencySpec, st: SearchState)
    requires dep.name in Names(fs) && Fresh(fs, dep, st)
    ensures var manifest, entered := LoadIssues(fs, dep).0, Enter(fs, dep, st);
      && KnownDependencies(fs, manifest.dependencies)
      && Open(entered) == Open(st) + {dep.name} && entered.libraries == st.libraries
      && Names(fs) - Touched(entered) < Names(fs) - Touched(st)
      && ResolveOne(fs, dep, st) == Leave(ResolveAll(fs, manifest.dependencies, entered), dep, manifest)
      && dep.name !in ResolveAll(fs, manifest.dependencies, entered).libraries
  {
    hide LoadIssues, VersionIssues, Names;
    LoadedDependenciesKnown(fs, dep);
    var entered := Enter(fs, dep, st);
    assert dep.name in Touched(entered) && Touched(st) <= Touched(entered);
    ResolveAllAdds(fs, LoadIssues(fs, dep).0.dependencies, entered);
    assert dep.name in entered.states && entered.states[dep.name].Visiting? && dep.name !in entered.libraries;
  }

  lemma {:induction false} OneCloses(fs: FileSystem, dep: DependencySpec, st: SearchState)
    requires dep.name in Names(fs)
    ensures Open(ResolveOne(fs, dep, st)) <= Open(st)
    decreases Names(fs) - Touched(st), 0, 0
  {
    hide Names, LoadIssues, VersionIssues, Touched;
    if Fresh(fs, dep, st) {
      Visited(fs, dep, st);
      var manifest, entered := LoadIssues(fs, dep).0, Enter(fs, dep, st);
      AllClose(fs, manifest.dependencies, entered);
      var nested := ResolveAll(fs, manifest.dependencies, entered);
      assert Open(Leave(nested, dep, manifest)) <= Open(nested) - {dep.name};
    }
  }

  lemma {:induction false} AllClose(fs: FileSystem, deps: seq<DependencySpec>, st: SearchState)
    requires KnownDependencies(fs, deps)
    ensures Open(ResolveAll(fs, deps, st)) <= Open(st)
    decreases Names(fs) - Touched(st), 1, |deps|
  {
    hide Names, Open, ResolveOne;
    if deps != [] {
      OneCloses(fs, deps[0], st);
      AllClose(fs, deps[1..], ResolveOne(fs, deps[0], st));
    }
  }

  /** What a visit adds stays, and its library is the one recorded in the end. */
  lemma VisitWithin(fs: FileSystem, dep: DependencySpec, st: SearchState, final: SearchState)
    requires dep.name in Names(fs) && Fresh(fs, dep, st) && Within(ResolveOne(fs, dep, st), final)
    ensures var manifest, entered := LoadIssues(fs, dep).0, Enter(fs, dep, st);
      && KnownDependencies(fs, manifest.dependencies)
      && Within(ResolveAll(fs, manifest.dependencies, entered), final)
      && Within(entered, final)
      && dep.name in final.libraries && final.libraries[dep.name] == Library(dep, manifest)
  {
    Visited(fs, dep, st);
    hide Names, LoadIssues, VersionIssues, Touched;
    var manifest, entered := LoadIssues(fs, dep).0, Enter(fs, dep, st);
    var nested := ResolveAll(fs, manifest.dependencies, entered);
    ResolveAllAdds(fs, manifest.dependencies, entered);
    var after := ResolveOne(fs, dep, st);
    assert after.libraries == nested.libraries[dep.name := Library(dep, manifest)] && after.issues == nested.issues;
    assert entered.issues <= nested.issues;
  }

  /** Inside a visit everything that is open leads to each of the package's dependencies. */
  lemma VisitLeads(fs: FileSystem, dep: DependencySpec, st: SearchState, final: SearchState)
    requires dep.path in fs && Open(Enter(fs, dep, st)) == Open(st) + {dep.name} && OpenLeadTo(st, final, dep.name)
    requires dep.name in final.libraries && final.libraries[dep.name] == Library(dep, LoadIssues(fs, dep).0)
    ensures var manifest, entered := LoadIssues(fs, dep).0, Enter(fs, dep, st);
      && (forall n :: n in Open(entered) ==> BackTo(final, n, dep.name))
      && forall d :: d in manifest.dependencies ==> OpenLeadTo(entered, final, d.name)
  {
    hide LoadIssues, Enter, Reaches, Open;
    var manifest, entered := LoadIssues(fs, dep).0, Enter(fs, dep, st);
    ReachesSelf(LibraryEdges(final.libraries), dep.name);
    forall n | n in Open(entered) ensures BackTo(final, n, dep.name) {
      assert n == dep.name || n in Open(st);
    }
    forall d, n | d in manifest.dependencies && n in Open(entered) ensures BackTo(final, n, d.name) {
      var i :| 0 <= i < |manifest.dependencies| && manifest.dependencies[i] == d;
      assert LibraryDependencies(manifest.dependencies)[i] == LibraryDependency(d.name, d.version);
      LibraryEdge(final.libraries, dep.name, LibraryDependency(d.name, d.version));
      ReachesOn(LibraryEdges(final.libraries), n, dep.name, d.name);
    }
  }

  lemma ReachesOn(g: Graph, u: string, v: string, x: string)
    requires Reaches(g, u, v) && Edge(g, v, x)
    ensures Reaches(g, u, x)
  {
    var w :| IsWalkBetween(g, w, u, v);
    var stack := w[..|w| - 1];
    assert stack + [v] == w;
    WalkOn(g, stack, v, x);
    assert IsWalkBetween(g, stack + [v] + [x], u, x);
  }

  /** What the package itself needs once its dependencies have been dealt with. */
  lemma VisitSettles(fs: FileSystem, dep: DependencySpec, st: SearchState, final: SearchState)
    requires dep.path in fs && Within(Enter(fs, dep, st), final)
    requires dep.name in final.libraries && final.libraries[dep.name] == Library(dep, LoadIssues(fs, dep).0)
    requires forall d :: d in LoadIssues(fs, dep).0.dependencies ==> Handled(fs, final, d) || BackTo(final, d.name, dep.name)
    ensures Handled(fs, final, dep) && Settled(fs, final, dep.name)
  {
    hide Within, LibrariesGrow, BackTo, ServerDecode, RuntimeDecode, Plain;
    var (manifest, loaded) := LoadIssues(fs, dep);
    var versions := VersionIssues(dep.name, dep.version, manifest.version);
    assert Enter(fs, dep, st).issues == st.issues + loaded + versions;
    forall x | x in loaded || x in versions ensures x in final.issues {
      assert x in Enter(fs, dep, st).issues;
      EarlierIssue(Enter(fs, dep, st), final, x);
    }
  }

  lemma EarlierIssue(st: SearchState, final: SearchState, x: Issue)
    requires Within(st, final) && x in st.issues
    ensures x in final.issues
  {
  }

  lemma {:induction false} OneSettles(fs: FileSystem, dep: DependencySpec, st: SearchState, final: SearchState)
    requires dep.name in Names(fs) && Within(ResolveOne(fs, dep, st), final) && OpenLeadTo(st, final, dep.name)
    ensures Handled(fs, final, dep) || dep.name in Open(st)
    ensures forall m :: m in ResolveOne(fs, dep, st).libraries && m !in st.libraries ==> m in final.libraries && Settled(fs, final, m)
    decreases Names(fs) - Touched(st), 0, 0
  {
    hide Names, LoadIssues, BackTo, Settled, Touched;
    if Fresh(fs, dep, st) {
      Visited(fs, dep, st);
      VisitWithin(fs, dep, st, final);
      VisitLeads(fs, dep, st, final);
      hide Within, OpenLeadTo, Open, Handled, Enter;
      var manifest, entered := LoadIssues(fs, dep).0, Enter(fs, dep, st);
      AllSettle(fs, manifest.dependencies, entered, final);
      VisitSettles(fs, dep, st, final);
    } else {
      MetAgain(fs, dep, st, final);
    }
  }

  lemma MetAgain(fs: FileSystem, dep: DependencySpec, st: SearchState, final: SearchState)
    requires dep.name in Names(fs) && Within(ResolveOne(fs, dep, st), final) && !Fresh(fs, dep, st)
    ensures Handled(fs, final, dep) || dep.name in Open(st)
    ensures ResolveOne(fs, dep, st).libraries == st.libraries
  {
  }

  lemma {:induction false} AllSettle(fs: FileSystem, deps: seq<DependencySpec>, st: SearchState, final: SearchState)
    requires KnownDependencies(fs, deps) && Within(ResolveAll(fs, deps, st), final)
    requires forall d :: d in deps ==> OpenLeadTo(st, final, d.name)
    ensures forall d :: d in deps ==> Handled(fs, final, d) || d.name in Open(st)
    ensures forall m :: m in ResolveAll(fs, deps, st).libraries && m !in st.libraries ==> m in final.libraries && Settled(fs, final, m)
    decreases Names(fs) - Touched(st), 1, |deps|
  {
    hide Names, Open, Settled, BackTo, Handled, Touched, ResolveOne;
    if deps != [] {
      var mid := ResolveOne(fs, deps[0], st);
      OneCloses(fs, deps[0], st);
      ResolveAllAdds(fs, deps[1..], mid);
      OneSettles(fs, deps[0], st, final);
      AllSettle(fs, deps[1..], mid, final);
    }
  }

  /** Dependencies are dealt with one after the other, whatever the issues. */
  lemma {:induction false} OneAfterTheOther(fs: FileSystem, a: seq<DependencySpec>, b: seq<DependencySpec>, st: SearchState)
    requires KnownDependencies(fs, a) && KnownDependencies(fs, b)
    ensures KnownDependencies(fs, a + b)
    ensures ResolveAll(fs, a + b, st) == ResolveAll(fs, b, ResolveAll(fs, a, st))
    decreases |a|
  {
    hide Names, ResolveOne;
    if a == [] {
      assert a + b == b;
    } else {
      assert (a + b)[1..] == a[1..] + b;
      OneAfterTheOther(fs, a[1..], b, ResolveOne(fs, a[0], st));
    }
  }

  // ----- Where each issue comes from -----

  /** The issue is about a library: its file, or one of its dependencies. */
  ghost predicate IssueOfLibrary(fs: FileSystem, libraries: Libraries, lib: LibrarySpec, x: Issue)
  {
    lib.path in fs &&
    match ServerDecode(fs[lib.path])
    case None => x == L001ManifestUnreadable(lib.name, lib.path)
    case Some(manifest) => x in RefusedIssues(fs[lib.path].entries) || Caused(fs, libraries, manifest.dependencies, x)
  }

  ghost predicate Caused(fs: FileSystem, libraries: Libraries, deps: seq<DependencySpec>, x: Issue)
  {
    exists d :: d in deps && IssueOfDependency(fs, libraries, d, x)
  }

  ghost predicate CausedBySome(fs: FileSystem, libraries: Libraries, x: Issue)
  {
    exists m :: m in libraries && IssueOfLibrary(fs, libraries, libraries[m], x)
  }

  lemma {:induction false} OneExplained(fs: FileSystem, dep: DependencySpec, st: SearchState, final: SearchState, x: Issue)
    requires dep.name in Names(fs) && Within(ResolveOne(fs, dep, st), final)
    requires x in ResolveOne(fs, dep, st).issues && x !in st.issues
    ensures IssueOfDependency(fs, final.libraries, dep, x) || CausedBySome(fs, final.libraries, x)
    decreases Names(fs) - Touched(st), 0, 0
  {
    hide Names, LoadIssues, Touched, IssueOfLibrary;
    if Fresh(fs, dep, st) {
      Visited(fs, dep, st);
      VisitWithin(fs, dep, st, final);
      hide Within, Enter, IssueOfDependency;
      var manifest, entered := LoadIssues(fs, dep).0, Enter(fs, dep, st);
      if x in entered.issues {
        EnterExplained(fs, dep, st, final, x);
      } else {
        AllExplained(fs, manifest.dependencies, entered, final, x);
        VisitExplained(fs, dep, final, x);
      }
    }
  }

  lemma EnterExplained(fs: FileSystem, dep: DependencySpec, st: SearchState, final: SearchState, x: Issue)
    requires dep.path in fs && x in Enter(fs, dep, st).issues && x !in st.issues
    requires dep.name in final.libraries && final.libraries[dep.name] == Library(dep, LoadIssues(fs, dep).0)
    ensures IssueOfDependency(fs, final.libraries, dep, x) || CausedBySome(fs, final.libraries, x)
  {
    hide ServerDecode, RuntimeDecode, Plain;
    var (manifest, loaded) := LoadIssues(fs, dep);
    if x in loaded {
      assert IssueOfLibrary(fs, final.libraries, final.libraries[dep.name], x);
    }
  }

  lemma VisitExplained(fs: FileSystem, dep: DependencySpec, final: SearchState, x: Issue)
    requires dep.path in fs && dep.name in final.libraries && final.libraries[dep.name] == Library(dep, LoadIssues(fs, dep).0)
    requires Caused(fs, final.libraries, LoadIssues(fs, dep).0.dependencies, x) || CausedBySome(fs, final.libraries, x)
    ensures CausedBySome(fs, final.libraries, x)
  {
    hide ServerDecode, RuntimeDecode, Plain;
    if Caused(fs, final.libraries, LoadIssues(fs, dep).0.dependencies, x) {
      assert IssueOfLibrary(fs, final.libraries, final.libraries[dep.name], x);
    }
  }

  lemma {:induction false} AllExplained(fs: FileSystem, deps: seq<DependencySpec>, st: SearchState, final: SearchState, x: Issue)
    requires KnownDependencies(fs, deps) && Within(ResolveAll(fs, deps, st), final)
    requires x in ResolveAll(fs, deps, st).issues && x !in st.issues
    ensures Caused(fs, final.libraries, deps, x) || CausedBySome(fs, final.libraries, x)
    decreases Names(fs) - Touched(st), 1, |deps|
  {
    hide Names, Touched, ResolveOne, IssueOfDependency, CausedBySome;
    if deps != [] {
      var mid := ResolveOne(fs, deps[0], st);
      if x in mid.issues {
        ResolveAllAdds(fs, deps[1..], mid);
        OneExplained(fs, deps[0], st, final, x);
      } else {
        AllExplained(fs, deps[1..], mid, final, x);
      }
    }
  }

  // ----- Where each library comes from -----

  ghost predicate DeclaredAmong(deps: seq<DependencySpec>, name: string, path: string)
  {
    exists d :: d in deps && d.name == name && d.path == path
  }

  /** The file of some library declares the library `m` with its path. */
  ghost predicate DeclaredByLibrary(fs: FileSystem, libraries: Libraries, m: string)
    requires m in libraries
  {
    exists k :: k in libraries && libraries[k].path in fs && ServerDecode(fs[libraries[k].path]).Some?
             && DeclaredAmong(ServerDecode(fs[libraries[k].path]).value.dependencies, m, libraries[m].path)
  }

  lemma {:induction false} OneSourced(fs: FileSystem, dep: DependencySpec, st: SearchState, final: SearchState, m: string)
    requires dep.name in Names(fs) && Within(ResolveOne(fs, dep, st), final)
    requires m in ResolveOne(fs, dep, st).libraries && m !in st.libraries
    ensures m in final.libraries
    ensures (m == dep.name && final.libraries[m].path == dep.path) || DeclaredByLibrary(fs, final.libraries, m)
    decreases Names(fs) - Touched(st), 0, 0
  {
    hide Names, LoadIssues, Touched, DeclaredByLibrary, DeclaredAmong;
    if Fresh(fs, dep, st) {
      Visited(fs, dep, st);
      VisitWithin(fs, dep, st, final);
      hide Within, Enter;
      if m != dep.name {
        var manifest, entered := LoadIssues(fs, dep).0, Enter(fs, dep, st);
        AllSourced(fs, manifest.dependencies, entered, final, m);
        VisitSources(fs, dep, final, m);
      }
    }
  }

  lemma VisitSources(fs: FileSystem, dep: DependencySpec, final: SearchState, m: string)
    requires dep.path in fs && dep.name in final.libraries && final.libraries[dep.name] == Library(dep, LoadIssues(fs, dep).0)
    requires m in final.libraries
    requires DeclaredAmong(LoadIssues(fs, dep).0.dependencies, m, final.libraries[m].path) || DeclaredByLibrary(fs, final.libraries, m)
    ensures DeclaredByLibrary(fs, final.libraries, m)
  {
    hide ServerDecode, RuntimeDecode, Plain;
    if DeclaredAmong(LoadIssues(fs, dep).0.dependencies, m, final.libraries[m].path) {
      assert final.libraries[dep.name].path == dep.path;
    }
  }

  lemma {:induction false} AllSourced(fs: FileSystem, deps: seq<DependencySpec>, st: SearchState, final: SearchState, m: string)
    requires KnownDependencies(fs, deps) && Within(ResolveAll(fs, deps, st), final)
    requires m in ResolveAll(fs, deps, st).libraries && m !in st.libraries
    ensures m in final.libraries
    ensures DeclaredAmong(deps, m, final.libraries[m].path) || DeclaredByLibrary(fs, final.libraries, m)
    decreases Names(fs) - Touched(st), 1, |deps|
  {
    hide Names, Touched, ResolveOne, DeclaredByLibrary;
    if deps != [] {
      var mid := ResolveOne(fs, deps[0], st);
      if m in mid.libraries {
        ResolveAllAdds(fs, deps[1..], mid);
        OneSourced(fs, deps[0], st, final, m);
      } else {
        AllSourced(fs, deps[1..], mid, final, m);
        assert DeclaredAmong(deps[1..], m, final.libraries[m].path) ==> DeclaredAmong(deps, m, final.libraries[m].path);
      }
    }
  }

  // ----- The issues in terms of the files -----

  /** The entry gives the name with the path. */
  predicate Takes(e: Manifests.Entry, name: string, path: string)
  {
    !Refused(e) && e.name == name && if e.PathText? then e.path == path else e.tablePath == Some(path)
  }

  /** The issue is one that the entry causes, given the libraries in the end. */
  predicate IssueOfEntry(fs: FileSystem, libraries: Libraries, e: Manifests.Entry, x: Issue)
  {
    match x
    case L005EntryRefused(n) => Refused(e) && e.name == n
    case L001PathMissing(n, p) => Takes(e, n, p) && p !in fs
    case L002VersionMismatch(n, r, a) =>
      && e.Table? && e.version == Some(r) && !Refused(e) && e.name == n && e.tablePath.value in fs
      && n in libraries && a == libraries[n].version && a != Some(r)
    case L001ManifestUnreadable(_, _) => false
  }

  ghost predicate IssueOfFile(fs: FileSystem, libraries: Libraries, d: Directory, x: Issue)
  {
    exists i :: 0 <= i < |EntriesOf(d)| && IssueOfEntry(fs, libraries, EntriesOf(d)[i], x)
  }

  lemma GivenIssue(fs: FileSystem, libraries: Libraries, e: Manifests.Entry, dep: DependencySpec, x: Issue)
    requires !Refused(e) && EntryIs(e, dep.name, dep.path, dep.version)
    ensures IssueOfEntry(fs, libraries, e, x) <==> IssueOfDependency(fs, libraries, dep, x)
  {
  }

  /** What the entries of a file cause is what its refused names and its dependencies cause. */
  lemma FileCauses(fs: FileSystem, libraries: Libraries, d: Directory, x: Issue)
    requires d.Document?
    ensures IssueOfFile(fs, libraries, d, x) <==>
      x in RefusedIssues(d.entries) || Caused(fs, libraries, AcceptedSpecs(d.entries), x)
  {
    TakenExactly(d.entries);
    hide IssueOfDependency, RefusedNames, AcceptedSpecs;
    if i :| 0 <= i < |EntriesOf(d)| && IssueOfEntry(fs, libraries, EntriesOf(d)[i], x) {
      EntryCauses(fs, libraries, d.entries, i, x);
    }
    if Caused(fs, libraries, AcceptedSpecs(d.entries), x) {
      var dep :| dep in AcceptedSpecs(d.entries) && IssueOfDependency(fs, libraries, dep, x);
      var i :| 0 <= i < |d.entries| && !Refused(d.entries[i]) && EntryIs(d.entries[i], dep.name, dep.path, dep.version);
      GivenIssue(fs, libraries, d.entries[i], dep, x);
      assert IssueOfEntry(fs, libraries, EntriesOf(d)[i], x);
    }
    if x in RefusedIssues(d.entries) {
      var j :| 0 <= j < |RefusedNames(d.entries)| && x == L005EntryRefused(RefusedNames(d.entries)[j]);
      assert x.dependency in RefusedNames(d.entries);
      var i :| 0 <= i < |d.entries| && Refused(d.entries[i]) && d.entries[i].name == x.dependency;
      assert IssueOfEntry(fs, libraries, EntriesOf(d)[i], x);
    }
  }

  lemma EntryCauses(fs: FileSystem, libraries: Libraries, entries: seq<Manifests.Entry>, i: nat, x: Issue)
    requires i < |entries| && IssueOfEntry(fs, libraries, entries[i], x)
    ensures x in RefusedIssues(entries) || Caused(fs, libraries, AcceptedSpecs(entries), x)
  {
    TakenExactly(entries);
    hide RefusedNames, AcceptedSpecs;
    var e := entries[i];
    if Refused(e) {
      assert entries[i].name in RefusedNames(entries);
      var j :| 0 <= j < |RefusedNames(entries)| && RefusedNames(entries)[j] == e.name;
      assert RefusedIssues(entries)[j] == x;
    } else {
      var dep := DependencySpec(e.name, if e.PathText? then e.path else e.tablePath.value, if e.PathText? then None else e.version);
      assert EntryIs(e, dep.name, dep.path, dep.version) && Gives(entries, dep);
      GivenIssue(fs, libraries, e, dep, x);
    }
  }

  /** The library is what its file says, and lists the entries that are not refused. */
  ghost predicate Described(lib: LibrarySpec, d: Directory)
  {
    if Decodes(d) then
      && d.package == Package(lib.version)
      && forall l :: l in lib.dependencies <==> Listed(d, l)
    else
      lib.version == None && lib.dependencies == []
  }

  ghost predicate Listed(d: Directory, l: LibraryDependency)
  {
    exists i, path :: 0 <= i < |EntriesOf(d)| && !Refused(EntriesOf(d)[i]) && EntryIs(EntriesOf(d)[i], l.name, path, l.version)
  }

  lemma ListedDependencies(d: Directory, l: LibraryDependency)
    requires d.Document?
    ensures l in LibraryDependencies(AcceptedSpecs(d.entries)) <==> Listed(d, l)
  {
    TakenExactly(d.entries);
    hide AcceptedSpecs;
    var specs := AcceptedSpecs(d.entries);
    if l in LibraryDependencies(specs) {
      var j :| 0 <= j < |specs| && l == LibraryDependency(specs[j].name, specs[j].version);
      assert specs[j] in specs && Gives(d.entries, specs[j]);
      var i :| 0 <= i < |d.entries| && !Refused(d.entries[i]) && EntryIs(d.entries[i], l.name, specs[j].path, l.version);
      assert EntryIs(EntriesOf(d)[i], l.name, specs[j].path, l.version);
    }
    if Listed(d, l) {
      var i, path :| 0 <= i < |EntriesOf(d)| && !Refused(EntriesOf(d)[i]) && EntryIs(EntriesOf(d)[i], l.name, path, l.version);
      assert Gives(d.entries, DependencySpec(l.name, path, l.version));
      assert DependencySpec(l.name, path, l.version) in specs;
      var j :| 0 <= j < |specs| && specs[j] == DependencySpec(l.name, path, l.version);
      assert LibraryDependencies(specs)[j] == l;
    }
  }

  /** The issue comes from the library's file: it does not decode, or one of its entries causes it. */
  ghost predicate IssueFrom(fs: FileSystem, libraries: Libraries, m: string, x: Issue)
    requires m in libraries
  {
    var lib := libraries[m];
    lib.path in fs &&
    if Decodes(fs[lib.path]) then IssueOfFile(fs, libraries, fs[lib.path], x) else x == L001ManifestUnreadable(m, lib.path)
  }

  // ----- What the resolver reports -----

  lemma ProjectSettled(fs: FileSystem, root: string)
    requires RootDecodes(RootDirectory(fs, root))
    ensures var d, st := RootDirectory(fs, root), ResolveProject(fs, root);
      && KeyedByName(st.libraries)
      && (forall x :: x in RefusedIssues(d.entries) ==> x in st.issues)
      && (forall dep :: dep in AcceptedSpecs(d.entries) ==> Handled(fs, st, dep))
      && (forall m :: m in st.libraries ==> Settled(fs, st, m))
      && forall x :: x in st.issues ==>
           x in RefusedIssues(d.entries) || Caused(fs, st.libraries, AcceptedSpecs(d.entries), x) || CausedBySome(fs, st.libraries, x)
  {
    hide Names, Settled, Handled;
    var d, final := RootDirectory(fs, root), ResolveProject(fs, root);
    RootKnown(fs, root);
    var start := START.(issues := RefusedIssues(d.entries));
    var deps := AcceptedSpecs(d.entries);
    assert final == ResolveAll(fs, deps, start) && Open(start) == {};
    ResolveAllAdds(fs, deps, start);
    AllSettle(fs, deps, start, final);
    forall x | x in final.issues && x !in start.issues
      ensures Caused(fs, final.libraries, deps, x) || CausedBySome(fs, final.libraries, x)
    {
      AllExplained(fs, deps, start, final, x);
    }
  }

  /** A root file that does not decode leaves nothing to report. */
  lemma UndecodedRoot(fs: FileSystem, root: string)
    ensures !RootDecodes(RootDirectory(fs, root)) ==>
      ResolveProject(fs, root).issues == [] && ResolveProject(fs, root).libraries == map[]
  {
  }

  /** Every library of a project is what its file says. */
  lemma LibrariesDescribed(fs: FileSystem, root: string, m: string)
    requires m in ResolveProject(fs, root).libraries
    ensures var lib := ResolveProject(fs, root).libraries[m]; lib.name == m && lib.path in fs && Described(lib, fs[lib.path])
  {
    UndecodedRoot(fs, root);
    ProjectSettled(fs, root);
    hide ResolveProject;
    var lib := ResolveProject(fs, root).libraries[m];
    if Decodes(fs[lib.path]) {
      forall l ensures l in lib.dependencies <==> Listed(fs[lib.path], l) {
        ListedDependencies(fs[lib.path], l);
      }
    }
  }

  /** What the entries of the root cause is reported, and the targets that exist have libraries. */
  lemma RootReported(fs: FileSystem, root: string)
    requires RootDecodes(RootDirectory(fs, root))
    ensures var d, st := RootDirectory(fs, root), ResolveProject(fs, root);
      && (forall x :: IssueOfFile(fs, st.libraries, d, x) ==> x in st.issues)
      && forall i, path :: 0 <= i < |d.entries| && Takes(d.entries[i], d.entries[i].name, path) && path in fs ==>
           d.entries[i].name in st.libraries
  {
    var d, st := RootDirectory(fs, root), ResolveProject(fs, root);
    ProjectSettled(fs, root);
    hide ResolveProject, IssueOfFile, IssueOfDependency;
    forall x | IssueOfFile(fs, st.libraries, d, x) ensures x in st.issues {
      FileCauses(fs, st.libraries, d, x);
    }
    TakenExactly(d.entries);
    forall i, path | 0 <= i < |d.entries| && Takes(d.entries[i], d.entries[i].name, path) && path in fs
      ensures d.entries[i].name in st.libraries
    {
      var e := d.entries[i];
      var dep := DependencySpec(e.name, path, if e.PathText? then None else e.version);
      assert EntryIs(e, dep.name, dep.path, dep.version) && Gives(d.entries, dep);
      assert Handled(fs, st, dep);
    }
  }

  /**
   * So is what the file of a library causes, except for an entry whose package leads back to the
   * library, on which the search passes silently.
   */
  lemma LibraryReported(fs: FileSystem, root: string, m: string)
    requires m in ResolveProject(fs, root).libraries
    ensures var st := ResolveProject(fs, root);
      forall x :: IssueFrom(fs, st.libraries, m, x) ==>
        x in st.issues || (x.dependency in st.libraries && Reaches(LibraryEdges(st.libraries), x.dependency, m))
  {
    var st := ResolveProject(fs, root);
    UndecodedRoot(fs, root);
    ProjectSettled(fs, root);
    hide ResolveProject, IssueOfFile, LibraryEdges, Reaches;
    var lib := st.libraries[m];
    assert Settled(fs, st, m);
    forall x | IssueFrom(fs, st.libraries, m, x)
      ensures x in st.issues || (x.dependency in st.libraries && Reaches(LibraryEdges(st.libraries), x.dependency, m))
    {
      if Decodes(fs[lib.path]) {
        FileCauses(fs, st.libraries, fs[lib.path], x);
        if Caused(fs, st.libraries, AcceptedSpecs(fs[lib.path].entries), x) {
          var dep :| dep in AcceptedSpecs(fs[lib.path].entries) && IssueOfDependency(fs, st.libraries, dep, x);
          assert Handled(fs, st, dep) || BackTo(st, dep.name, m);
        }
      }
    }
  }

  /** Conversely every issue comes from the root's file or from that of a library. */
  lemma IssuesReal(fs: FileSystem, root: string, x: Issue)
    requires x in ResolveProject(fs, root).issues
    ensures var d, st := RootDirectory(fs, root), ResolveProject(fs, root);
      || (RootDecodes(d) && IssueOfFile(fs, st.libraries, d, x))
      || exists m :: m in st.libraries && IssueFrom(fs, st.libraries, m, x)
  {
    var d, st := RootDirectory(fs, root), ResolveProject(fs, root);
    UndecodedRoot(fs, root);
    ProjectSettled(fs, root);
    hide ResolveProject, IssueOfFile, IssueOfDependency;
    FileCauses(fs, st.libraries, d, x);
    if CausedBySome(fs, st.libraries, x) {
      var m :| m in st.libraries && IssueOfLibrary(fs, st.libraries, st.libraries[m], x);
      var file := fs[st.libraries[m].path];
      if Decodes(file) {
        FileCauses(fs, st.libraries, file, x);
      }
      assert IssueFrom(fs, st.libraries, m, x);
    }
  }

  /** An entry of the file that is not refused gives the name with the path. */
  ghost predicate TakenFrom(d: Directory, name: string, path: string)
  {
    exists i :: 0 <= i < |EntriesOf(d)| && Takes(EntriesOf(d)[i], name, path)
  }

  lemma DeclaredIsTaken(d: Directory, name: string, path: string)
    requires d.Document? && DeclaredAmong(AcceptedSpecs(d.entries), name, path)
    ensures TakenFrom(d, name, path)
  {
    TakenExactly(d.entries);
    var dep :| dep in AcceptedSpecs(d.entries) && dep.name == name && dep.path == path;
    var i :| 0 <= i < |d.entries| && !Refused(d.entries[i]) && EntryIs(d.entries[i], dep.name, dep.path, dep.version);
    assert Takes(EntriesOf(d)[i], name, path);
  }

  /** Every library is at the path that an entry of the root or of a library's file gives its name. */
  lemma LibrariesSourced(fs: FileSystem, root: string, m: string)
    requires m in ResolveProject(fs, root).libraries
    ensures var libraries := ResolveProject(fs, root).libraries;
      || TakenFrom(RootDirectory(fs, root), m, libraries[m].path)
      || exists k :: k in libraries && libraries[k].path in fs && TakenFrom(fs[libraries[k].path], m, libraries[m].path)
  {
    hide Names;
    var d, final := RootDirectory(fs, root), ResolveProject(fs, root);
    RootKnown(fs, root);
    AllSourced(fs, AcceptedSpecs(d.entries), START.(issues := RefusedIssues(d.entries)), final, m);
    hide ResolveProject, TakenFrom, DeclaredAmong;
    if DeclaredAmong(AcceptedSpecs(d.entries), m, final.libraries[m].path) {
      DeclaredIsTaken(d, m, final.libraries[m].path);
    } else {
      var k :| k in final.libraries && final.libraries[k].path in fs && ServerDecode(fs[final.libraries[k].path]).Some?
            && DeclaredAmong(ServerDecode(fs[final.libraries[k].path]).value.dependencies, m, final.libraries[m].path);
      DeclaredIsTaken(fs[final.libraries[k].path], m, final.libraries[m].path);
    }
  }

  // ----- What the library graph reports -----

  /** The graph's issue for an entry of the library `m`: no such library, or another version. */
  predicate GraphIssueOf(libraries: Libraries, m: string, e: Manifests.Entry, x: LibraryIssue)
  {
    match x
    case L001NotConfigured(s, n) => s == m && n == e.name && n !in libraries
    case L002VersionUnavailable(s, n, r, available) =>
      && s == m && n == e.name && e.Table? && e.version == Some(r) && n in libraries && libraries[n].version != Some(r)
      && available == [if libraries[n].version == None then "unspecified" else libraries[n].version.value]
    case _ => false
  }

  /** An entry that is not refused, in the file of the library `m`, gives the graph's issue. */
  ghost predicate GraphIssueFrom(fs: FileSystem, libraries: Libraries, m: string, x: LibraryIssue)
    requires m in libraries
  {
    var lib := libraries[m];
    lib.path in fs && Decodes(fs[lib.path]) &&
    exists i :: 0 <= i < |EntriesOf(fs[lib.path])| && !Refused(EntriesOf(fs[lib.path])[i])
             && GraphIssueOf(libraries, m, EntriesOf(fs[lib.path])[i], x)
  }

  ghost predicate AboutEntry(x: LibraryIssue)
  {
    x.L001NotConfigured? || x.L002VersionUnavailable?
  }

  lemma {:induction false} FaultyDependenciesAre(libs: seq<LibrarySpec>, subject: string, deps: seq<LibraryDependency>, f: LibraryGraph.Entry)
    ensures f in FaultyDependencies(libs, subject, deps) <==> f.subject == subject && f.dep in deps && Faulty(libs, f.dep)
  {
    hide Faulty;
    if deps != [] {
      var init, last := deps[..|deps| - 1], deps[|deps| - 1];
      FaultyDependenciesAre(libs, subject, init, f);
      assert f.dep in deps <==> f.dep in init || f.dep == last;
    }
  }

  lemma {:induction false} FaultyEntriesAre(libs: seq<LibrarySpec>, from: seq<LibrarySpec>, f: LibraryGraph.Entry)
    ensures f in FaultyEntries(libs, from) <==>
      exists lib :: lib in from && lib.name == f.subject && f.dep in lib.dependencies && Faulty(libs, f.dep)
  {
    hide Faulty;
    if from != [] {
      var init, last := from[..|from| - 1], from[|from| - 1];
      FaultyEntriesAre(libs, init, f);
      FaultyDependenciesAre(libs, last.name, last.dependencies, f);
      assert forall lib :: lib in from <==> lib in init || lib == last;
    }
  }

  /** The graph's issue for a dependency of a recorded library. */
  predicate GraphIssueOfDependency(libraries: Libraries, m: string, l: LibraryDependency, x: LibraryIssue)
  {
    match x
    case L001NotConfigured(s, n) => s == m && n == l.name && n !in libraries
    case L002VersionUnavailable(s, n, r, available) =>
      && s == m && n == l.name && l.version == Some(r) && n in libraries && libraries[n].version != Some(r)
      && available == [if libraries[n].version == None then "unspecified" else libraries[n].version.value]
    case _ => false
  }

  lemma SortedDiffer(s: seq<string>)
    requires StrictlySorted(s)
    ensures |s| > 1 ==> s[0] in s && s[1] in s && s[0] != s[1]
  {
    StringLessStrictTotal();
  }

  /** A name is recorded once, so there is one label for it. */
  lemma OneLabel(libs: seq<LibrarySpec>, libraries: Libraries, n: string, versions: seq<string>)
    requires Lists(libs, libraries) && KeyedByName(libraries) && n in libraries
    ensures VersionsOf(libs, n, versions) <==> versions == [VersionLabel(libraries[n].version)]
  {
    var known := VersionLabel(libraries[n].version);
    assert libraries[n] in libs;
    if VersionsOf(libs, n, versions) {
      assert known in versions;
      SortedDiffer(versions);
    }
  }

  lemma RecordedIssue(libs: seq<LibrarySpec>, libraries: Libraries, m: string, l: LibraryDependency, x: LibraryIssue)
    requires Lists(libs, libraries) && KeyedByName(libraries)
    ensures EntryIssue(libs, m, l, x) <==> GraphIssueOfDependency(libraries, m, l, x)
    ensures GraphIssueOfDependency(libraries, m, l, x) ==> Faulty(libs, l)
    ensures Faulty(libs, l) ==> exists y :: GraphIssueOfDependency(libraries, m, l, y)
  {
    hide VersionsOf;
    assert Configured(libs, l.name) <==> l.name in libraries by {
      if l.name in libraries {
        assert libraries[l.name] in libs;
      }
    }
    if l.name in libraries {
      assert libraries[l.name] in libs;
      assert Available(libs, l) <==> (l.version.Some? ==> libraries[l.name].version == l.version);
      if x.L002VersionUnavailable? && x.dependency == l.name {
        OneLabel(libs, libraries, l.name, x.available);
      }
    }
    if Faulty(libs, l) {
      var y := if l.name !in libraries then L001NotConfigured(m, l.name)
               else L002VersionUnavailable(m, l.name, l.version.value, [VersionLabel(libraries[l.name].version)]);
      assert GraphIssueOfDependency(libraries, m, l, y);
    }
  }

  /** The report about entries is about those of the recorded libraries. */
  lemma RecordedReport(libs: seq<LibrarySpec>, libraries: Libraries, issues: seq<LibraryIssue>, x: LibraryIssue)
    requires Lists(libs, libraries) && KeyedByName(libraries) && ReportExact(libs, issues) && AboutEntry(x)
    ensures x in issues <==>
      exists m, l :: m in libraries && l in libraries[m].dependencies && GraphIssueOfDependency(libraries, m, l, x)
  {
    hide Answers, FaultyEntries, GraphIssueOfDependency;
    var conflicts, entries, g, cycles :|
      && issues == conflicts + entries + CycleIssues(cycles) && ConflictsExact(libs, conflicts)
      && Answers(libs, FaultyEntries(libs, libs), entries) && IsAdjacency(g, libs) && CycleSearch.CyclesExact(g, cycles);
    assert x in issues <==> x in entries by {
      forall k | 0 <= k < |CycleIssues(cycles)| ensures CycleIssues(cycles)[k] != x {}
      assert x in issues <==> x in conflicts || x in entries || x in CycleIssues(cycles);
    }
    hide ConflictsExact, IsAdjacency, CycleSearch.CyclesExact;
    if x in entries {
      AnswerRecorded(libs, libraries, entries, x);
    }
    if m, l :| m in libraries && l in libraries[m].dependencies && GraphIssueOfDependency(libraries, m, l, x) {
      assert libraries[m] in libs;
      RecordedAnswer(libs, libraries, entries, m, l, x);
    }
  }

  lemma AnswerRecorded(libs: seq<LibrarySpec>, libraries: Libraries, entries: seq<LibraryIssue>, x: LibraryIssue)
    requires Lists(libs, libraries) && KeyedByName(libraries) && Answers(libs, FaultyEntries(libs, libs), entries) && x in entries
    ensures exists m, l :: m in libraries && l in libraries[m].dependencies && GraphIssueOfDependency(libraries, m, l, x)
  {
    hide FaultyEntries, GraphIssueOfDependency, EntryIssue, Faulty;
    var faulty := FaultyEntries(libs, libs);
    var k :| 0 <= k < |entries| && entries[k] == x;
    FaultyEntriesAre(libs, libs, faulty[k]);
    var lib :| lib in libs && lib.name == faulty[k].subject && faulty[k].dep in lib.dependencies;
    RecordedIssue(libs, libraries, lib.name, faulty[k].dep, x);
  }

  lemma RecordedAnswer(libs: seq<LibrarySpec>, libraries: Libraries, entries: seq<LibraryIssue>, m: string, l: LibraryDependency, x: LibraryIssue)
    requires Lists(libs, libraries) && KeyedByName(libraries) && Answers(libs, FaultyEntries(libs, libs), entries)
    requires m in libraries && l in libraries[m].dependencies && libraries[m] in libs && GraphIssueOfDependency(libraries, m, l, x)
    ensures x in entries
  {
    hide FaultyEntries, Faulty;
    var faulty := FaultyEntries(libs, libs);
    RecordedIssue(libs, libraries, m, l, x);
    FaultyEntriesAre(libs, libs, LibraryGraph.Entry(m, l));
    var k :| 0 <= k < |faulty| && faulty[k] == LibraryGraph.Entry(m, l);
    RecordedIssue(libs, libraries, m, l, entries[k]);
    assert entries[k] == x;
  }

  /**
   * The library graph of a project reports about its entries exactly this: for every entry in the
   * file of a library, that its name has no library, or that its version is not that library's.
   */
  lemma GraphReports(fs: FileSystem, root: string, libs: seq<LibrarySpec>, issues: seq<LibraryIssue>, x: LibraryIssue)
    requires Lists(libs, ResolveProject(fs, root).libraries) && ReportExact(libs, issues) && AboutEntry(x)
    ensures var libraries := ResolveProject(fs, root).libraries;
      x in issues <==> exists m :: m in libraries && GraphIssueFrom(fs, libraries, m, x)
  {
    ProjectKeyed(fs, root);
    hide ResolveProject, GraphIssueFrom, Lists, ReportExact;
    var libraries := ResolveProject(fs, root).libraries;
    RecordedReport(libs, libraries, issues, x);
    hide GraphIssueOfDependency;
    if m, l :| m in libraries && l in libraries[m].dependencies && GraphIssueOfDependency(libraries, m, l, x) {
      LibrariesDescribed(fs, root, m);
      ListedIssue(fs, libraries, m, x);
    }
    if m :| m in libraries && GraphIssueFrom(fs, libraries, m, x) {
      LibrariesDescribed(fs, root, m);
      ListedIssue(fs, libraries, m, x);
    }
  }

  lemma ListedIssue(fs: FileSystem, libraries: Libraries, m: string, x: LibraryIssue)
    requires m in libraries && libraries[m].path in fs && Described(libraries[m], fs[libraries[m].path])
    ensures GraphIssueFrom(fs, libraries, m, x) <==>
      exists l :: l in libraries[m].dependencies && GraphIssueOfDependency(libraries, m, l, x)
  {
    var d := fs[libraries[m].path];
    if l :| l in libraries[m].dependencies && GraphIssueOfDependency(libraries, m, l, x) {
      var i, path :| 0 <= i < |EntriesOf(d)| && !Refused(EntriesOf(d)[i]) && EntryIs(EntriesOf(d)[i], l.name, path, l.version);
      assert GraphIssueOf(libraries, m, EntriesOf(d)[i], x);
    }
    if GraphIssueFrom(fs, libraries, m, x) {
      var i :| 0 <= i < |EntriesOf(d)| && !Refused(EntriesOf(d)[i]) && GraphIssueOf(libraries, m, EntriesOf(d)[i], x);
      var e := EntriesOf(d)[i];
      var l := LibraryDependency(e.name, if e.PathText? then None else e.version);
      assert EntryIs(e, l.name, if e.PathText? then e.path else e.tablePath.value, l.version);
      assert GraphIssueOfDependency(libraries, m, l, x);
    }
  }
}
