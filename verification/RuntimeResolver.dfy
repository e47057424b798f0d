/**
 * The runtime's dependency resolver (bundle_builder.rs): a depth-first search that stops at the
 * first problem. `ResolveOne` and `ResolveAll` say what the search computes from a given state;
 * the class below is the search itself, on mutable fields.
 */
module RuntimeResolver {
  import opened Common
  import opened Manifests

  datatype ResolveError =
    | RootManifestUnreadable(root: string)
    | PathMissing(name: string, path: string)
    | ManifestUnreadable(name: string, path: string)
    | VersionMismatch(name: string, required: string, actual: Option<string>)
    | CyclicDependency(cycle: seq<string>)

  datatype ResolvedDependency = ResolvedDependency(name: string, path: string, version: Option<string>)

  type ResolvedMap = map<string, ResolvedDependency>

  datatype SearchState = SearchState(
    states: map<string, VisitState>,
    stack: seq<string>,
    resolved: ResolvedMap)

  type Outcome = Result<SearchState, ResolveError>

  function EnsureVersion(name: string, required: Option<string>, actual: Option<string>): (r: Result<(), ResolveError>)
    ensures r.Ok? <==> VersionMatches(required, actual)
    ensures r.Err? ==> required.Some? && r.error == VersionMismatch(name, required.value, actual)
  {
    if required.Some? && actual != required
    then Err(VersionMismatch(name, required.value, actual))
    else Ok(())
  }

  ghost function Enter(st: SearchState, name: string): SearchState
  {
    st.(states := st.states[name := Visiting], stack := st.stack + [name])
  }

  ghost function Leave(st: SearchState, dep: DependencySpec, manifest: Manifest): SearchState
  {
    SearchState(
      st.states[dep.name := Done],
      if st.stack == [] then [] else st.stack[..|st.stack| - 1],
      st.resolved[dep.name := ResolvedDependency(dep.name, dep.path, manifest.version)])
  }

  /** The state after resolving one dependency, or the first problem met. */
  ghost function ResolveOne(fs: FileSystem, dep: DependencySpec, st: SearchState): (r: Outcome)
    requires dep.name in Names(fs)
    ensures r.Ok? ==> st.states.Keys <= r.value.states.Keys
    decreases Names(fs) - st.states.Keys, 0, 0
  {
    if dep.path !in fs then
      Err(PathMissing(dep.name, dep.path))
    else if dep.name in st.resolved then
      var check := EnsureVersion(dep.name, dep.version, st.resolved[dep.name].version);
      if check.Err? then Err(check.error) else Ok(st)
    else if dep.name in st.states then
      if st.states[dep.name].Visiting? then Err(CyclicDependency(st.stack + [dep.name])) else Ok(st)
    else if RuntimeDecode(fs[dep.path]).None? then
      Err(ManifestUnreadable(dep.name, dep.path))
    else
      var manifest := RuntimeDecode(fs[dep.path]).value;
      var check := EnsureVersion(dep.name, dep.version, manifest.version);
      if check.Err? then
        Err(check.error)
      else
        DecodedKnown(fs, dep.path);
        assert dep.name in Names(fs) - st.states.Keys && dep.name !in Names(fs) - Enter(st, dep.name).states.Keys;
        var nested := ResolveAll(fs, manifest.dependencies, Enter(st, dep.name));
        if nested.Err? then nested else Ok(Leave(nested.value, dep, manifest))
  }

  /** Resolving a list of dependencies in order. */
  ghost function ResolveAll(fs: FileSystem, deps: seq<DependencySpec>, st: SearchState): (r: Outcome)
    requires KnownDependencies(fs, deps)
    ensures r.Ok? ==> st.states.Keys <= r.value.states.Keys
    decreases Names(fs) - st.states.Keys, 1, |deps|
  {
    if deps == [] then
      Ok(st)
    else
      var first := ResolveOne(fs, deps[0], st);
      if first.Err? then first else ResolveAll(fs, deps[1..], first.value)
  }

  const START := SearchState(map[], [], map[])

  /** What the runtime resolves for a project root. */
  ghost function ResolveLocal(fs: FileSystem, root: string): Result<ResolvedMap, ResolveError>
  {
    match RuntimeDecode(RootDirectory(fs, root))
    case None => Err(RootManifestUnreadable(root))
    case Some(manifest) =>
      RootKnown(fs, root);
      match ResolveAll(fs, manifest.dependencies, START)
      case Ok(st) => Ok(st.resolved)
      case Err(e) => Err(e)
  }

  // ----- The search as the source runs it -----

  class Resolver {
    var states: map<string, VisitState>
    var stack: seq<string>
    var resolved: ResolvedMap

    constructor ()
      ensures State() == START
    {
      states, stack, resolved := map[], [], map[];
    }

    ghost function State(): SearchState
      reads this
    {
      SearchState(states, stack, resolved)
    }

    method ResolveDependencyRecursive(fs: FileSystem, dep: DependencySpec) returns (r: Result<(), ResolveError>)
      requires dep.name in Names(fs)
      modifies this
      ensures r.Ok? <==> ResolveOne(fs, dep, old(State())).Ok?
      ensures r.Ok? ==> State() == ResolveOne(fs, dep, old(State())).value
      ensures r.Err? ==> r.error == ResolveOne(fs, dep, old(State())).error
      decreases Names(fs) - states.Keys
    {
      if dep.path !in fs {
        return Err(PathMissing(dep.name, dep.path));
      }
      if dep.name in resolved {
        r := EnsureVersion(dep.name, dep.version, resolved[dep.name].version);
        return;
      }
      if dep.name in states {
        if states[dep.name].Visiting? {
          return Err(CyclicDependency(stack + [dep.name]));
        }
        return Ok(());
      }
      states := states[dep.name := Visiting];
      stack := stack + [dep.name];
      var decoded := RuntimeDecode(fs[dep.path]);
      if decoded.None? {
        return Err(ManifestUnreadable(dep.name, dep.path));
      }
      var manifest := decoded.value;
      r := EnsureVersion(dep.name, dep.version, manifest.version);
      if r.Err? {
        return;
      }
      DecodedKnown(fs, dep.path);
      ghost var entered := State();
      assert entered == Enter(old(State()), dep.name);
      var i := 0;
      while i < |manifest.dependencies|
        invariant 0 <= i <= |manifest.dependencies|
        invariant entered.states.Keys <= states.Keys
        invariant KnownDependencies(fs, manifest.dependencies[i..])
        invariant ResolveAll(fs, manifest.dependencies, entered) == ResolveAll(fs, manifest.dependencies[i..], State())
      {
        assert dep.name in Names(fs) - old(states).Keys && dep.name !in Names(fs) - states.Keys;
        r := ResolveDependencyRecursive(fs, manifest.dependencies[i]);
        if r.Err? {
          return;
        }
        assert manifest.dependencies[i..][1..] == manifest.dependencies[i + 1..];
        i := i + 1;
      }
      resolved := resolved[dep.name := ResolvedDependency(dep.name, dep.path, manifest.version)];
      if |stack| > 0 {
        stack := stack[..|stack| - 1];
      }
      states := states[dep.name := Done];
      r := Ok(());
    }
  }
}
