/**
 * What the errors of the runtime's resolver say about the manifest files: each of them names
 * something that stands in a file and is wrong.
 */
module RuntimeErrors {
  import opened Common
  import opened Manifests
  import opened RuntimeResolver
  import opened RuntimeResolution
  import opened RuntimeEntries

  /** Some file, the root's included, has an entry with this name, path and version. */
  ghost predicate Given(fs: FileSystem, root: string, name: string, path: string, version: Option<string>)
  {
    exists dir, i :: 0 <= i < |EntriesOf(FileAt(fs, root, dir))| && EntryIs(EntriesOf(FileAt(fs, root, dir))[i], name, path, version)
  }

  ghost predicate Named(fs: FileSystem, root: string, name: string, path: string)
  {
    exists version :: Given(fs, root, name, path, version)
  }

  /** The file at a path given for `u` has an entry for `v`. */
  ghost predicate Follows(fs: FileSystem, root: string, u: string, v: string)
  {
    exists p, q :: Named(fs, root, u, p) && p in fs && HasEntry(fs[p], v, q)
  }

  ghost predicate Trail(fs: FileSystem, root: string, names: seq<string>)
  {
    forall i {:trigger names[i]} :: 0 < i < |names| ==> Follows(fs, root, names[i - 1], names[i])
  }

  /** A file at a path given for the name has this version. */
  ghost predicate HasVersion(fs: FileSystem, root: string, name: string, version: Option<string>)
  {
    exists p :: Named(fs, root, name, p) && p in fs && fs[p].Document? && fs[p].package == Package(version)
  }

  /** The error is true of the files. */
  ghost predicate Real(fs: FileSystem, root: string, e: ResolveError)
  {
    match e
    case RootManifestUnreadable(r) => r == root && !Decodable(RootDirectory(fs, root))
    case PathMissing(n, p) => Named(fs, root, n, p) && p !in fs
    case ManifestUnreadable(n, p) => Named(fs, root, n, p) && p in fs && !Decodable(fs[p])
    case VersionMismatch(n, r, a) =>
      && a != Some(r) && HasVersion(fs, root, n, a)
      && exists p :: Given(fs, root, n, p, Some(r)) && p in fs
    case CyclicDependency(c) => |c| >= 2 && c[|c| - 1] in c[..|c| - 1] && Trail(fs, root, c)
  }

  ghost predicate Versioned(fs: FileSystem, root: string, resolved: ResolvedMap)
  {
    forall n :: n in resolved ==> HasVersion(fs, root, n, resolved[n].version)
  }

  lemma {:induction false} OneReal(fs: FileSystem, root: string, dep: DependencySpec, st: SearchState)
    requires dep.name in Names(fs) && SearchInvariant(fs, st) && Versioned(fs, root, st.resolved)
    requires Given(fs, root, dep.name, dep.path, dep.version) && Trail(fs, root, st.stack + [dep.name])
    ensures match ResolveOne(fs, dep, st)
            case Ok(after) => Versioned(fs, root, after.resolved)
            case Err(e) => Real(fs, root, e)
    decreases Names(fs) - st.states.Keys, 0, 0
  {
    hide Names, Given, Trail, HasVersion, Follows;
    assert Named(fs, root, dep.name, dep.path);
    if dep.path in fs && dep.name in st.states && dep.name !in st.resolved {
      Revisited(fs, root, dep, st);
    } else if dep.path in fs && dep.name !in st.resolved {
      DecodedEntries(fs[dep.path]);
      if RuntimeDecode(fs[dep.path]).Some? {
        var manifest := RuntimeDecode(fs[dep.path]).value;
        VersionAt(fs, root, dep.name, dep.path, manifest.version);
        DecodedKnown(fs, dep.path);
        EnterKeeps(fs, st, dep.name);
        NestedGiven(fs, root, dep, st.stack);
        hide RuntimeDecode, SearchInvariant, Named, Decodable;
        assert dep.name in Names(fs) - st.states.Keys && dep.name !in Names(fs) - Enter(st, dep.name).states.Keys;
        AllReal(fs, root, manifest.dependencies, Enter(st, dep.name));
      }
    }
  }

  lemma VersionAt(fs: FileSystem, root: string, name: string, path: string, version: Option<string>)
    requires Named(fs, root, name, path) && path in fs && fs[path].Document? && fs[path].package == Package(version)
    ensures HasVersion(fs, root, name, version)
  {
  }

  /** Meeting a package that is being visited is meeting a name on the stack. */
  lemma Revisited(fs: FileSystem, root: string, dep: DependencySpec, st: SearchState)
    requires dep.name in Names(fs) && SearchInvariant(fs, st) && dep.path in fs && dep.name !in st.resolved && dep.name in st.states
    requires Trail(fs, root, st.stack + [dep.name])
    ensures ResolveOne(fs, dep, st) == Err(CyclicDependency(st.stack + [dep.name]))
    ensures Real(fs, root, CyclicDependency(st.stack + [dep.name]))
  {
    hide Names, Trail, Consistent;
    var c := st.stack + [dep.name];
    assert dep.name in st.stack && c[..|c| - 1] == st.stack;
  }

  /** What a file declares is given, and prolongs the trail. */
  lemma NestedGiven(fs: FileSystem, root: string, dep: DependencySpec, stack: seq<string>)
    requires Named(fs, root, dep.name, dep.path) && dep.path in fs && RuntimeDecode(fs[dep.path]).Some?
    requires Trail(fs, root, stack + [dep.name])
    ensures forall d :: d in RuntimeDecode(fs[dep.path]).value.dependencies ==>
      Given(fs, root, d.name, d.path, d.version) && Trail(fs, root, stack + [dep.name] + [d.name])
  {
    DecodedEntries(fs[dep.path]);
    hide RuntimeDecode, Named;
    var deps := RuntimeDecode(fs[dep.path]).value.dependencies;
    forall d | d in deps ensures Given(fs, root, d.name, d.path, d.version) && Trail(fs, root, stack + [dep.name] + [d.name]) {
      var i :| 0 <= i < |deps| && deps[i] == d;
      assert EntryIs(EntriesOf(fs[dep.path])[i], d.name, d.path, d.version);
      assert EntryIs(EntriesOf(FileAt(fs, root, Some(dep.path)))[i], d.name, d.path, d.version);
      assert HasEntry(fs[dep.path], d.name, d.path);
      TrailOn(fs, root, stack, dep.name, d.name);
    }
  }

  lemma TrailOn(fs: FileSystem, root: string, stack: seq<string>, last: string, next: string)
    requires Trail(fs, root, stack + [last]) && Follows(fs, root, last, next)
    ensures Trail(fs, root, stack + [last] + [next])
  {
    hide Follows;
    var longer, shorter := stack + [last] + [next], stack + [last];
    forall i | 0 < i < |longer| ensures Follows(fs, root, longer[i - 1], longer[i]) {
      if i < |shorter| {
        assert Follows(fs, root, shorter[i - 1], shorter[i]);
      }
    }
  }

  lemma {:induction false} AllReal(fs: FileSystem, root: string, deps: seq<DependencySpec>, st: SearchState)
    requires KnownDependencies(fs, deps) && SearchInvariant(fs, st) && Versioned(fs, root, st.resolved)
    requires forall d :: d in deps ==> Given(fs, root, d.name, d.path, d.version) && Trail(fs, root, st.stack + [d.name])
    ensures match ResolveAll(fs, deps, st)
            case Ok(after) => Versioned(fs, root, after.resolved)
            case Err(e) => Real(fs, root, e)
    decreases Names(fs) - st.states.Keys, 1, |deps|
  {
    hide Names, Given, Trail, Versioned, SearchInvariant, Real;
    if deps != [] {
      OneReal(fs, root, deps[0], st);
      if ResolveOne(fs, deps[0], st).Ok? {
        ResolveOneSound(fs, deps[0], st);
        AllReal(fs, root, deps[1..], ResolveOne(fs, deps[0], st).value);
      }
    }
  }

  /** Main result: every error of the runtime's resolver is true of the files. */
  lemma ErrorsReal(fs: FileSystem, root: string)
    requires ResolveLocal(fs, root).Err?
    ensures Real(fs, root, ResolveLocal(fs, root).error)
  {
    var d := RootDirectory(fs, root);
    DecodedEntries(d);
    if RuntimeDecode(d).Some? {
      RootKnown(fs, root);
      StartInvariant(fs);
      hide Names, SearchInvariant;
      var deps := RuntimeDecode(d).value.dependencies;
      forall dep | dep in deps ensures Given(fs, root, dep.name, dep.path, dep.version) {
        var i :| 0 <= i < |deps| && deps[i] == dep;
        assert EntryIs(EntriesOf(FileAt(fs, root, None))[i], dep.name, dep.path, dep.version);
      }
      AllReal(fs, root, deps, START);
    }
  }
}
