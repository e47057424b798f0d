/**
 * Package manifests and the directories that hold them, as the two dependency resolvers see
 * them: paths are already joined and canonicalised. Both programs read the same file, but each
 * decodes it into its own types, so a file can be good for one and bad for the other.
 */
module Manifests {
  import opened Common

  /** One dependency with its path resolved. */
  datatype DependencySpec = DependencySpec(name: string, path: string, version: Option<string>)

  datatype Manifest = Manifest(version: Option<string>, dependencies: seq<DependencySpec>)

  /**
   * One `[dependencies]` entry: a path string, or a table. A table without a path has no git
   * source either; `blank` is a path of white space; `extras` is a `git`, `rev`, `tag` or
   * `branch` beside the path.
   */
  datatype Entry =
    | PathText(name: string, path: string)
    | Table(name: string, tablePath: Option<string>, blank: bool, version: Option<string>, extras: bool)

  /** The `[package]` section: its version, or something that does not decode. */
  datatype Package = Package(version: Option<string>) | BadPackage

  /**
   * A directory's manifest file; a directory without one has the empty document. A file that
   * cannot be read, is not TOML, or has entries that neither program decodes is unreadable.
   * `extrasTyped` says that the entry fields only the language server knows have their types,
   * `sectionsTyped` the same of the other configuration sections, decoded for a root alone.
   */
  datatype Directory =
    | Unreadable
    | Document(package: Package, entries: seq<Entry>, extrasTyped: bool, sectionsTyped: bool)

  /** The existing directories. */
  type FileSystem = map<string, Directory>

  const EMPTY_DOCUMENT := Document(Package(None), [], true, true)
  const DEFAULT_MANIFEST := Manifest(None, [])

  /** The root's file; a root without a directory has none. */
  function RootDirectory(fs: FileSystem, root: string): Directory
  {
    if root in fs then fs[root] else EMPTY_DOCUMENT
  }

  // ----- Entries as they stand in the file -----

  function EntriesOf(d: Directory): seq<Entry>
  {
    if d.Document? then d.entries else []
  }

  /** The entry names the path, and requires the version if it is a table that gives one. */
  predicate EntryIs(e: Entry, name: string, path: string, version: Option<string>)
  {
    match e
    case PathText(n, p) => n == name && p == path && version == None
    case Table(n, p, _, v, _) => n == name && p == Some(path) && v == version
  }

  // ----- The runtime's decoding -----

  predicate HasPath(e: Entry)
  {
    e.PathText? || e.tablePath.Some?
  }

  function Spec(e: Entry): DependencySpec
    requires HasPath(e)
  {
    match e
    case PathText(name, path) => DependencySpec(name, path, None)
    case Table(name, tablePath, _, version, _) => DependencySpec(name, tablePath.value, version)
  }

  function Specs(entries: seq<Entry>): (r: seq<DependencySpec>)
    requires forall e :: e in entries ==> HasPath(e)
    ensures |r| == |entries|
    ensures forall i :: 0 <= i < |entries| ==> r[i] == Spec(entries[i])
  {
    seq(|entries|, i requires 0 <= i < |entries| => Spec(entries[i]))
  }

  /** Every entry needs a path; fields the runtime does not know are passed over. */
  function RuntimeDecode(d: Directory): Option<Manifest>
  {
    if d.Document? && d.package.Package? && (forall e :: e in d.entries ==> HasPath(e))
    then Some(Manifest(d.package.version, Specs(d.entries)))
    else None
  }

  // ----- The language server's decoding -----

  /** A table needs a path that is not blank and nothing beside it. */
  predicate Accepted(e: Entry)
  {
    e.PathText? || (e.tablePath.Some? && !e.blank && !e.extras)
  }

  /** The dependencies of the accepted entries. */
  function AcceptedSpecs(entries: seq<Entry>): seq<DependencySpec>
  {
    if entries == [] then []
    else (if Accepted(entries[0]) then [Spec(entries[0])] else []) + AcceptedSpecs(entries[1..])
  }

  /** The names of the refused entries. */
  function RefusedNames(entries: seq<Entry>): seq<string>
  {
    if entries == [] then []
    else (if Accepted(entries[0]) then [] else [entries[0].name]) + RefusedNames(entries[1..])
  }

  /** A dependency's file; refused entries do not spoil the others. */
  function ServerDecode(d: Directory): Option<Manifest>
  {
    if d.Document? && d.package.Package? && d.extrasTyped
    then Some(Manifest(d.package.version, AcceptedSpecs(d.entries)))
    else None
  }

  /** The root's file, decoded as a whole configuration, which has no package section. */
  function ServerDecodeRoot(d: Directory): Option<seq<DependencySpec>>
  {
    if d.Document? && d.extrasTyped && d.sectionsTyped then Some(AcceptedSpecs(d.entries)) else None
  }

  // ----- Files that mean the same to both -----

  ghost predicate AllAccepted(entries: seq<Entry>)
  {
    forall e :: e in entries ==> Accepted(e)
  }

  /** Nothing in the file is refused by the language server alone. */
  ghost predicate Plain(d: Directory)
  {
    d.Document? ==> d.extrasTyped && AllAccepted(d.entries)
  }

  lemma {:induction false} RefusedNone(entries: seq<Entry>)
    ensures RefusedNames(entries) == [] <==> AllAccepted(entries)
    ensures AllAccepted(entries) ==> AcceptedSpecs(entries) == Specs(entries)
  {
    if entries != [] {
      RefusedNone(entries[1..]);
      assert forall e :: e in entries <==> e == entries[0] || e in entries[1..];
      if AllAccepted(entries) {
        assert entries[0] in entries;
        assert Specs(entries) == [Spec(entries[0])] + Specs(entries[1..]);
      }
    }
  }

  /** Without refused entries the language server's decoding is the runtime's; a plain file decodes alike. */
  lemma DecodeAlike(d: Directory)
    ensures ServerDecode(d).Some? && RefusedNames(d.entries) == [] ==> RuntimeDecode(d) == ServerDecode(d) && Plain(d)
    ensures RuntimeDecode(d).Some? && Plain(d) ==> ServerDecode(d) == RuntimeDecode(d) && RefusedNames(d.entries) == []
  {
    if d.Document? {
      RefusedNone(d.entries);
    }
  }

  // ----- Names -----

  /** A requirement holds when it is absent or names exactly the package's version. */
  predicate VersionMatches(required: Option<string>, actual: Option<string>)
  {
    required.Some? ==> actual == required
  }

  /** Every name that some manifest depends on. */
  ghost function Names(fs: FileSystem): set<string>
  {
    set p, i | p in fs && fs[p].Document? && 0 <= i < |fs[p].entries| :: fs[p].entries[i].name
  }

  ghost predicate KnownDependencies(fs: FileSystem, deps: seq<DependencySpec>)
  {
    forall d :: d in deps ==> d.name in Names(fs)
  }

  lemma EntryKnown(fs: FileSystem, path: string, e: Entry)
    requires path in fs && fs[path].Document? && e in fs[path].entries
    ensures e.name in Names(fs)
  {
    var i :| 0 <= i < |fs[path].entries| && fs[path].entries[i] == e;
    assert fs[path].entries[i].name in Names(fs);
  }

  lemma {:induction false} AcceptedFrom(entries: seq<Entry>, d: DependencySpec)
    requires d in AcceptedSpecs(entries)
    ensures exists e :: e in entries && HasPath(e) && Spec(e) == d
  {
    if Accepted(entries[0]) && d == Spec(entries[0]) {
      assert entries[0] in entries;
    } else {
      AcceptedFrom(entries[1..], d);
    }
  }

  /** What either program decodes depends on known names only. */
  lemma DecodedKnown(fs: FileSystem, path: string)
    requires path in fs
    ensures RuntimeDecode(fs[path]).Some? ==> KnownDependencies(fs, RuntimeDecode(fs[path]).value.dependencies)
    ensures fs[path].Document? ==> KnownDependencies(fs, AcceptedSpecs(fs[path].entries))
  {
    if RuntimeDecode(fs[path]).Some? {
      var deps := RuntimeDecode(fs[path]).value.dependencies;
      forall d | d in deps ensures d.name in Names(fs) {
        var i :| 0 <= i < |deps| && deps[i] == d;
        EntryKnown(fs, path, fs[path].entries[i]);
      }
    }
    if fs[path].Document? {
      forall d | d in AcceptedSpecs(fs[path].entries) ensures d.name in Names(fs) {
        AcceptedFrom(fs[path].entries, d);
        var e :| e in fs[path].entries && HasPath(e) && Spec(e) == d;
        EntryKnown(fs, path, e);
      }
    }
  }

  /** So does what either program decodes from the root. */
  lemma RootKnown(fs: FileSystem, root: string)
    ensures RuntimeDecode(RootDirectory(fs, root)).Some? ==>
      KnownDependencies(fs, RuntimeDecode(RootDirectory(fs, root)).value.dependencies)
    ensures ServerDecodeRoot(RootDirectory(fs, root)).Some? ==>
      KnownDependencies(fs, ServerDecodeRoot(RootDirectory(fs, root)).value)
  {
    if root in fs {
      DecodedKnown(fs, root);
    }
  }

  function DependencyNames(deps: seq<DependencySpec>): (names: seq<string>)
    ensures |names| == |deps|
    ensures forall i :: 0 <= i < |deps| ==> names[i] == deps[i].name
  {
    seq(|deps|, i requires 0 <= i < |deps| => deps[i].name)
  }
}
