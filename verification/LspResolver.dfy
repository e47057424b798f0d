/**
 * The language server's dependency resolver (config.rs), restricted to path dependencies: a
 * depth-first search that collects issues instead of stopping, and passes silently over a
 * dependency that is still being visited.
 */
module LspResolver {
  import opened Common
  import opened Manifests

  datatype LibraryDependency = LibraryDependency(name: string, version: Option<string>)

  datatype LibrarySpec = LibrarySpec(
    name: string,
    path: string,
    version: Option<string>,
    dependencies: seq<LibraryDependency>)

  type Libraries = map<string, LibrarySpec>

  /** Resolver issues with their diagnostic codes. */
  datatype Issue =
    | L001PathMissing(dependency: string, path: string)
    | L001ManifestUnreadable(dependency: string, path: string)
    | L005EntryRefused(dependency: string)
    | L002VersionMismatch(dependency: string, required: string, available: Option<string>)

  datatype SearchState = SearchState(
    states: map<string, VisitState>,
    libraries: Libraries,
    issues: seq<Issue>)

  function VersionIssues(name: string, required: Option<string>, actual: Option<string>): (r: seq<Issue>)
    ensures r == [] <==> VersionMatches(required, actual)
    ensures r != [] ==> required.Some? && r == [L002VersionMismatch(name, required.value, actual)]
  {
    if required.Some? && actual != required then [L002VersionMismatch(name, required.value, actual)] else []
  }

  /** One issue for each refused entry, in order. */
  function RefusedIssues(entries: seq<Entry>): (r: seq<Issue>)
    ensures |r| == |RefusedNames(entries)|
    ensures forall i :: 0 <= i < |r| ==> r[i] == L005EntryRefused(RefusedNames(entries)[i])
  {
    var names := RefusedNames(entries);
    seq(|names|, i requires 0 <= i < |names| => L005EntryRefused(names[i]))
  }

  /**
   * The package version and dependencies used for a directory, and the issues of loading it: one
   * for a file that does not decode, one for each refused entry otherwise.
   */
  function LoadIssues(fs: FileSystem, dep: DependencySpec): (r: (Manifest, seq<Issue>))
    requires dep.path in fs
    ensures r.1 == [] ==> RuntimeDecode(fs[dep.path]) == Some(r.0) && Plain(fs[dep.path])
    ensures RuntimeDecode(fs[dep.path]).Some? && Plain(fs[dep.path]) ==> r == (RuntimeDecode(fs[dep.path]).value, [])
    ensures ServerDecode(fs[dep.path]).Some? ==> r.0 == ServerDecode(fs[dep.path]).value
    ensures ServerDecode(fs[dep.path]).Some? ==> r.1 == RefusedIssues(fs[dep.path].entries)
    ensures ServerDecode(fs[dep.path]).None? ==> r == (DEFAULT_MANIFEST, [L001ManifestUnreadable(dep.name, dep.path)])
  {
    DecodeAlike(fs[dep.path]);
    match ServerDecode(fs[dep.path])
    case Some(manifest) => (manifest, RefusedIssues(fs[dep.path].entries))
    case None => (DEFAULT_MANIFEST, [L001ManifestUnreadable(dep.name, dep.path)])
  }

  function LibraryDependencies(deps: seq<DependencySpec>): (r: seq<LibraryDependency>)
    ensures |r| == |deps|
    ensures forall i :: 0 <= i < |deps| ==> r[i] == LibraryDependency(deps[i].name, deps[i].version)
  {
    seq(|deps|, i requires 0 <= i < |deps| => LibraryDependency(deps[i].name, deps[i].version))
  }

  function Library(dep: DependencySpec, manifest: Manifest): LibrarySpec
  {
    LibrarySpec(dep.name, dep.path, manifest.version, LibraryDependencies(manifest.dependencies))
  }

  /** The names that the search is inside of or has finished. */
  ghost function Touched(st: SearchState): set<string>
  {
    (set n | n in st.states && st.states[n].Visiting?) + st.libraries.Keys
  }

  ghost function Enter(fs: FileSystem, dep: DependencySpec, st: SearchState): SearchState
    requires dep.path in fs
  {
    var (manifest, loadIssues) := LoadIssues(fs, dep);
    SearchState(
      st.states[dep.name := Visiting],
      st.libraries,
      st.issues + loadIssues + VersionIssues(dep.name, dep.version, manifest.version))
  }

  ghost function Leave(st: SearchState, dep: DependencySpec, manifest: Manifest): SearchState
  {
    SearchState(st.states[dep.name := Done], st.libraries[dep.name := Library(dep, manifest)], st.issues)
  }

  lemma LoadedDependenciesKnown(fs: FileSystem, dep: DependencySpec)
    requires dep.path in fs
    ensures KnownDependencies(fs, LoadIssues(fs, dep).0.dependencies)
  {
    DecodedKnown(fs, dep.path);
  }

  /** The state after the search has dealt with one dependency. */
  ghost function ResolveOne(fs: FileSystem, dep: DependencySpec, st: SearchState): (r: SearchState)
    requires dep.name in Names(fs)
    ensures Touched(st) <= Touched(r)
    decreases Names(fs) - Touched(st), 0, 0
  {
    if dep.path !in fs then
      st.(issues := st.issues + [L001PathMissing(dep.name, dep.path)])
    else if dep.name in st.libraries then
      st.(issues := st.issues + VersionIssues(dep.name, dep.version, st.libraries[dep.name].version))
    else if dep.name in st.states && st.states[dep.name].Visiting? then
      st
    else
      var manifest := LoadIssues(fs, dep).0;
      var entered := Enter(fs, dep, st);
      LoadedDependenciesKnown(fs, dep);
      assert dep.name in Touched(entered) && Touched(st) <= Touched(entered);
      Leave(ResolveAll(fs, manifest.dependencies, entered), dep, manifest)
  }

  /** Dealing with a list of dependencies in order. */
  ghost function ResolveAll(fs: FileSystem, deps: seq<DependencySpec>, st: SearchState): (r: SearchState)
    requires KnownDependencies(fs, deps)
    ensures Touched(st) <= Touched(r)
    decreases Names(fs) - Touched(st), 1, |deps|
  {
    if deps == [] then st else ResolveAll(fs, deps[1..], ResolveOne(fs, deps[0], st))
  }

  const START := SearchState(map[], map[], [])

  /**
   * What the language server resolves for a project root. A root file that does not decode as a
   * whole configuration leaves the configuration at its defaults: no libraries and no issues.
   */
  ghost function ResolveProject(fs: FileSystem, root: string): SearchState
  {
    match ServerDecodeRoot(RootDirectory(fs, root))
    case None => START
    case Some(deps) =>
      RootKnown(fs, root);
      ResolveAll(fs, deps, START.(issues := RefusedIssues(RootDirectory(fs, root).entries)))
  }

  // ----- The search as the source runs it -----

  class DependencyResolver {
    var states: map<string, VisitState>
    var libraries: Libraries
    var issues: seq<Issue>

    constructor (found: seq<Issue>)
      ensures State() == START.(issues := found)
    {
      states, libraries, issues := map[], map[], found;
    }

    ghost function State(): SearchState
      reads this
    {
      SearchState(states, libraries, issues)
    }

    method ResolveDependencyRecursive(fs: FileSystem, dep: DependencySpec)
      requires dep.name in Names(fs)
      modifies this
      ensures State() == ResolveOne(fs, dep, old(State()))
      decreases Names(fs) - Touched(State()), 0
    {
      if dep.path !in fs {
        issues := issues + [L001PathMissing(dep.name, dep.path)];
        return;
      }
      if dep.name in libraries {
        issues := issues + VersionIssues(dep.name, dep.version, libraries[dep.name].version);
        return;
      }
      if dep.name in states && states[dep.name].Visiting? {
        return;
      }
      hide VersionIssues, RuntimeDecode, ServerDecode, Plain, Names;
      states := states[dep.name := Visiting];
      var (manifest, loadIssues) := LoadIssues(fs, dep);
      issues := issues + loadIssues;
      issues := issues + VersionIssues(dep.name, dep.version, manifest.version);
      LoadedDependenciesKnown(fs, dep);
      assert State() == Enter(fs, dep, old(State()));
      assert dep.name in Names(fs) - Touched(old(State())) && dep.name in Touched(State());
      var libraryDependencies := ResolveNested(fs, manifest.dependencies);
      libraries := libraries[dep.name := LibrarySpec(dep.name, dep.path, manifest.version, libraryDependencies)];
      states := states[dep.name := Done];
    }

    /** The loop over the dependencies of a package, which also lists them for its library. */
    method ResolveNested(fs: FileSystem, nested: seq<DependencySpec>) returns (libraryDependencies: seq<LibraryDependency>)
      requires KnownDependencies(fs, nested)
      modifies this
      ensures State() == ResolveAll(fs, nested, old(State()))
      ensures libraryDependencies == LibraryDependencies(nested)
      decreases Names(fs) - Touched(State()), 1
    {
      hide Names, ResolveOne, Touched;
      libraryDependencies := [];
      ghost var start := State();
      var i := 0;
      while i < |nested|
        invariant 0 <= i <= |nested|
        invariant libraryDependencies == LibraryDependencies(nested[..i])
        invariant Touched(start) <= Touched(State())
        invariant KnownDependencies(fs, nested[i..])
        invariant ResolveAll(fs, nested, start) == ResolveAll(fs, nested[i..], State())
      {
        libraryDependencies := libraryDependencies + [LibraryDependency(nested[i].name, nested[i].version)];
        assert nested[..i + 1] == nested[..i] + [nested[i]];
        ResolveDependencyRecursive(fs, nested[i]);
        assert nested[i..][1..] == nested[i + 1..];
        i := i + 1;
      }
      assert nested[..i] == nested;
    }

    method ResolveAllDependencies(fs: FileSystem, deps: seq<DependencySpec>)
      requires KnownDependencies(fs, deps)
      modifies this
      ensures State() == ResolveAll(fs, deps, old(State()))
    {
      var i := 0;
      while i < |deps|
        invariant 0 <= i <= |deps|
        invariant KnownDependencies(fs, deps[i..])
        invariant ResolveAll(fs, deps, old(State())) == ResolveAll(fs, deps[i..], State())
      {
        ResolveDependencyRecursive(fs, deps[i]);
        assert deps[i..][1..] == deps[i + 1..];
        i := i + 1;
      }
    }
  }

  /** Loads a project configuration: the dependency libraries and the issues of its dependencies. */
  method LoadProject(fs: FileSystem, root: string) returns (libraries: Libraries, issues: seq<Issue>)
    ensures libraries == ResolveProject(fs, root).libraries
    ensures issues == ResolveProject(fs, root).issues
  {
    var decoded := ServerDecodeRoot(RootDirectory(fs, root));
    if decoded.None? {
      return map[], [];
    }
    RootKnown(fs, root);
    issues := RefusedIssues(RootDirectory(fs, root).entries);
    var resolver := new DependencyResolver(issues);
    resolver.ResolveAllDependencies(fs, decoded.value);
    libraries, issues := resolver.libraries, resolver.issues;
  }
}
