/**
 * The library dependency checks of the language server (library_graph.rs): conflicting versions,
 * missing libraries, unavailable versions and dependency cycles over the configured libraries.
 */
module LibraryGraph {
  import opened Common
  import opened Graphs
  import opened Orders
  import opened LspResolver
  import CycleSearch

  datatype LibraryIssue =
    | L001NotConfigured(subject: string, dependency: string)
    | L002VersionUnavailable(subject: string, dependency: string, required: string, available: seq<string>)
    | L003ConflictingVersions(subject: string, versions: seq<string>)
    | L004Cycle(subject: string, cycle: seq<string>)

  function VersionLabel(version: Option<string>): string
  {
    match version
    case Some(v) => v
    case None => "unspecified"
  }

  // ----- What the issues are about -----

  ghost predicate Configured(libs: seq<LibrarySpec>, name: string)
  {
    exists lib :: lib in libs && lib.name == name
  }

  ghost predicate DependsOn(libs: seq<LibrarySpec>, subject: string, dep: LibraryDependency)
  {
    exists lib :: lib in libs && lib.name == subject && dep in lib.dependencies
  }

  /** Two libraries of that name carry different version labels. */
  ghost predicate Conflicting(libs: seq<LibrarySpec>, name: string)
  {
    exists a, b :: a in libs && b in libs && a.name == name && b.name == name
                && VersionLabel(a.version) != VersionLabel(b.version)
  }

  ghost predicate Available(libs: seq<LibrarySpec>, dep: LibraryDependency)
  {
    dep.version.Some? ==> exists lib :: lib in libs && lib.name == dep.name && lib.version == dep.version
  }

  // ----- Libraries grouped by name -----

  ghost predicate IsGrouping(byName: map<string, seq<LibrarySpec>>, libs: seq<LibrarySpec>)
  {
    && (forall n :: n in byName <==> Configured(libs, n))
    && (forall n, lib :: n in byName ==> (lib in byName[n] <==> lib in libs && lib.name == n))
  }

  lemma GroupOneMore(byName: map<string, seq<LibrarySpec>>, libs: seq<LibrarySpec>, lib: LibrarySpec, known: seq<LibrarySpec>)
    requires IsGrouping(byName, libs) && known == if lib.name in byName then byName[lib.name] else []
    ensures IsGrouping(byName[lib.name := known + [lib]], libs + [lib])
  {
    var all := libs + [lib];
    forall n ensures n in byName[lib.name := known + [lib]] <==> Configured(all, n) {
      if Configured(libs, n) {
        var w :| w in libs && w.name == n;
        assert w in all;
      }
      assert lib in all;
    }
  }

  method GroupByName(libs: seq<LibrarySpec>) returns (byName: map<string, seq<LibrarySpec>>)
    ensures IsGrouping(byName, libs)
  {
    byName := map[];
    assert IsGrouping(byName, libs[..0]);
    hide IsGrouping;
    var i := 0;
    while i < |libs|
      invariant 0 <= i <= |libs|
      invariant IsGrouping(byName, libs[..i])
    {
      var lib := libs[i];
      var known := if lib.name in byName then byName[lib.name] else [];
      GroupOneMore(byName, libs[..i], lib, known);
      byName := byName[lib.name := known + [lib]];
      assert libs[..i + 1] == libs[..i] + [lib];
      i := i + 1;
    }
    assert libs[..i] == libs;
  }

  // ----- The dependency graph -----

  /** The dependency names that are configured. */
  function KnownTargets(deps: seq<LibraryDependency>, known: set<string>): (r: seq<string>)
    ensures forall v :: v in r <==> v in known && exists d :: d in deps && d.name == v
  {
    if deps == [] then []
    else
      var rest := KnownTargets(deps[1..], known);
      assert forall d :: d in deps <==> d == deps[0] || d in deps[1..];
      if deps[0].name in known then [deps[0].name] + rest else rest
  }

  function Targets(libs: seq<LibrarySpec>, known: set<string>): (r: seq<string>)
    ensures forall v :: v in r <==> v in known && exists lib, d :: lib in libs && d in lib.dependencies && d.name == v
  {
    if libs == [] then []
    else
      assert forall lib :: lib in libs <==> lib == libs[0] || lib in libs[1..];
      KnownTargets(libs[0].dependencies, known) + Targets(libs[1..], known)
  }

  /** `g` joins each configured name to the configured names that it depends on. */
  ghost predicate IsAdjacency(g: Graph, libs: seq<LibrarySpec>)
  {
    && (forall n :: n in g <==> Configured(libs, n))
    && (forall u, v :: Edge(g, u, v) <==>
         Configured(libs, u) && Configured(libs, v) && exists d :: DependsOn(libs, u, d) && d.name == v)
  }

  method BuildAdjacency(byName: map<string, seq<LibrarySpec>>, ghost libs: seq<LibrarySpec>) returns (g: Graph)
    requires IsGrouping(byName, libs)
    ensures IsAdjacency(g, libs) && Closed(g)
    ensures forall n :: n in g ==> StrictlySorted(g[n])
  {
    g := map n | n in byName :: SortDedup(Targets(byName[n], byName.Keys));
    forall n | n in g ensures StrictlySorted(g[n]) {
      SortDedupSorted(Targets(byName[n], byName.Keys));
    }
    forall u, v ensures Edge(g, u, v) <==>
      Configured(libs, u) && Configured(libs, v) && exists d :: DependsOn(libs, u, d) && d.name == v
    {
      if Edge(g, u, v) {
        var lib, d :| lib in byName[u] && d in lib.dependencies && d.name == v;
        assert DependsOn(libs, u, d);
      }
      if Configured(libs, u) && Configured(libs, v) && exists d :: DependsOn(libs, u, d) && d.name == v {
        var d :| DependsOn(libs, u, d) && d.name == v;
        var lib :| lib in libs && lib.name == u && d in lib.dependencies;
        assert lib in byName[u];
      }
    }
  }

  // ----- The checks -----

  /** The version labels carried by the libraries of a name, in order and each once. */
  ghost predicate VersionsOf(libs: seq<LibrarySpec>, name: string, versions: seq<string>)
  {
    && StrictlySorted(versions)
    && forall v :: v in versions <==> exists lib :: lib in libs && lib.name == name && VersionLabel(lib.version) == v
  }

  ghost predicate ConflictIssue(libs: seq<LibrarySpec>, x: LibraryIssue)
  {
    x.L003ConflictingVersions? && Conflicting(libs, x.subject) && VersionsOf(libs, x.subject, x.versions)
  }

  ghost predicate ConflictReported(issues: seq<LibraryIssue>, name: string)
  {
    exists x :: x in issues && x.L003ConflictingVersions? && x.subject == name
  }

  ghost predicate OnceEach(issues: seq<LibraryIssue>)
  {
    forall i, j :: 0 <= i < j < |issues| ==> issues[i].subject != issues[j].subject
  }

  /** Exactly the names with conflicting versions are reported, each once. */
  ghost predicate ConflictsExact(libs: seq<LibrarySpec>, issues: seq<LibraryIssue>)
  {
    && (forall x :: x in issues ==> ConflictIssue(libs, x))
    && (forall n :: Conflicting(libs, n) ==> ConflictReported(issues, n))
    && OnceEach(issues)
  }

  function Labels(libs: seq<LibrarySpec>): (r: seq<string>)
    ensures |r| == |libs|
    ensures forall i :: 0 <= i < |libs| ==> r[i] == VersionLabel(libs[i].version)
  {
    seq(|libs|, i requires 0 <= i < |libs| => VersionLabel(libs[i].version))
  }

  lemma ManyLabels(libs: seq<LibrarySpec>, name: string, candidates: seq<LibrarySpec>)
    requires forall lib :: lib in candidates <==> lib in libs && lib.name == name
    ensures VersionsOf(libs, name, SortDedup(Labels(candidates)))
    ensures |SortDedup(Labels(candidates))| > 1 <==> Conflicting(libs, name)
  {
    LabelsExact(libs, name, candidates);
    var sorted := SortDedup(Labels(candidates));
    StringLessStrictTotal();
    if |sorted| > 1 {
      assert sorted[0] in sorted && sorted[1] in sorted && StringLess(sorted[0], sorted[1]);
    }
    if Conflicting(libs, name) {
      var a, b :| a in libs && b in libs && a.name == name && b.name == name
               && VersionLabel(a.version) != VersionLabel(b.version);
      assert VersionLabel(a.version) in sorted && VersionLabel(b.version) in sorted;
    }
  }

  lemma LabelsExact(libs: seq<LibrarySpec>, name: string, candidates: seq<LibrarySpec>)
    requires forall lib :: lib in candidates <==> lib in libs && lib.name == name
    ensures VersionsOf(libs, name, SortDedup(Labels(candidates)))
  {
    var labels := Labels(candidates);
    var sorted := SortDedup(labels);
    SortDedupSorted(labels);
    forall v ensures v in sorted <==> exists lib :: lib in libs && lib.name == name && VersionLabel(lib.version) == v {
      if v in sorted {
        var i :| 0 <= i < |labels| && labels[i] == v;
        assert candidates[i] in candidates;
      }
      if exists lib :: lib in libs && lib.name == name && VersionLabel(lib.version) == v {
        var lib :| lib in libs && lib.name == name && VersionLabel(lib.version) == v;
        var i :| 0 <= i < |candidates| && candidates[i] == lib;
        assert labels[i] in labels;
      }
    }
  }

  lemma ConflictingConfigured(libs: seq<LibrarySpec>, name: string)
    requires Conflicting(libs, name)
    ensures Configured(libs, name)
  {
  }

  method ConflictIssues(byName: map<string, seq<LibrarySpec>>, ghost libs: seq<LibrarySpec>) returns (issues: seq<LibraryIssue>)
    requires IsGrouping(byName, libs)
    ensures ConflictsExact(libs, issues)
  {
    hide Conflicting, VersionsOf, Labels;
    issues := [];
    var names := CycleSearch.SetToSeq(byName.Keys);
    var i := 0;
    while i < |names|
      invariant 0 <= i <= |names|
      invariant forall x :: x in issues ==> ConflictIssue(libs, x) && x.subject in names[..i]
      invariant OnceEach(issues)
      invariant forall j :: 0 <= j < i && Conflicting(libs, names[j]) ==> ConflictReported(issues, names[j])
    {
      var name := names[i];
      var versions := SortDedup(Labels(byName[name]));
      ManyLabels(libs, name, byName[name]);
      assert names[..i + 1] == names[..i] + [name] && name !in names[..i];
      if |versions| > 1 {
        var issue := L003ConflictingVersions(name, versions);
        ghost var before := issues;
        issues := issues + [issue];
        assert issue in issues && forall x :: x in before ==> x in issues;
        assert forall n :: ConflictReported(before, n) ==> ConflictReported(issues, n);
      }
      i := i + 1;
    }
    forall n | Conflicting(libs, n) ensures ConflictReported(issues, n) {
      ConflictingConfigured(libs, n);
      assert n in names;
    }
  }

  /** The issue of one dependency entry, if any. */
  ghost predicate EntryIssue(libs: seq<LibrarySpec>, subject: string, dep: LibraryDependency, x: LibraryIssue)
  {
    match x
    case L001NotConfigured(s, d) => s == subject && d == dep.name && !Configured(libs, dep.name)
    case L002VersionUnavailable(s, d, r, available) =>
      && s == subject && d == dep.name && dep.version == Some(r)
      && Configured(libs, dep.name) && !Available(libs, dep)
      && VersionsOf(libs, dep.name, available)
    case _ => false
  }

  ghost predicate Faulty(libs: seq<LibrarySpec>, dep: LibraryDependency)
  {
    !(Configured(libs, dep.name) && Available(libs, dep))
  }

  /** A dependency entry of the library `subject`. */
  datatype Entry = Entry(subject: string, dep: LibraryDependency)

  /** The faulty entries among the dependencies of one library, in order. */
  ghost function FaultyDependencies(libs: seq<LibrarySpec>, subject: string, deps: seq<LibraryDependency>): seq<Entry>
  {
    if deps == [] then []
    else
      var last := deps[|deps| - 1];
      FaultyDependencies(libs, subject, deps[..|deps| - 1]) + if Faulty(libs, last) then [Entry(subject, last)] else []
  }

  /** The faulty entries of some of the libraries, in order. */
  ghost function FaultyEntries(libs: seq<LibrarySpec>, from: seq<LibrarySpec>): seq<Entry>
  {
    if from == [] then []
    else
      var last := from[|from| - 1];
      FaultyEntries(libs, from[..|from| - 1]) + FaultyDependencies(libs, last.name, last.dependencies)
  }

  /** One issue for each entry, in the same order. */
  ghost predicate Answers(libs: seq<LibrarySpec>, entries: seq<Entry>, issues: seq<LibraryIssue>)
  {
    && |issues| == |entries|
    && forall i :: 0 <= i < |entries| ==> EntryIssue(libs, entries[i].subject, entries[i].dep, issues[i])
  }

  lemma AnswersJoin(libs: seq<LibrarySpec>, a: seq<Entry>, x: seq<LibraryIssue>, b: seq<Entry>, y: seq<LibraryIssue>)
    requires Answers(libs, a, x) && Answers(libs, b, y)
    ensures Answers(libs, a + b, x + y)
  {
  }

  method EntryIssues(byName: map<string, seq<LibrarySpec>>, ghost libs: seq<LibrarySpec>, subject: string, dep: LibraryDependency)
    returns (issues: seq<LibraryIssue>)
    requires IsGrouping(byName, libs)
    ensures Answers(libs, if Faulty(libs, dep) then [Entry(subject, dep)] else [], issues)
  {
    if dep.name !in byName {
      return [L001NotConfigured(subject, dep.name)];
    }
    if dep.version.None? {
      return [];
    }
    var candidates := byName[dep.name];
    if exists i :: 0 <= i < |candidates| && candidates[i].version == dep.version {
      var i :| 0 <= i < |candidates| && candidates[i].version == dep.version;
      assert candidates[i] in candidates;
      return [];
    }
    ManyLabels(libs, dep.name, candidates);
    issues := [L002VersionUnavailable(subject, dep.name, dep.version.value, SortDedup(Labels(candidates)))];
  }

  method LibraryEntryIssues(byName: map<string, seq<LibrarySpec>>, ghost libs: seq<LibrarySpec>, lib: LibrarySpec)
    returns (issues: seq<LibraryIssue>)
    requires IsGrouping(byName, libs)
    ensures Answers(libs, FaultyDependencies(libs, lib.name, lib.dependencies), issues)
  {
    hide Answers, Faulty;
    var deps := lib.dependencies;
    issues := [];
    NothingAnswered(libs);
    var i := 0;
    while i < |deps|
      invariant 0 <= i <= |deps|
      invariant Answers(libs, FaultyDependencies(libs, lib.name, deps[..i]), issues)
    {
      var found := EntryIssues(byName, libs, lib.name, deps[i]);
      AnswersJoin(libs, FaultyDependencies(libs, lib.name, deps[..i]), issues,
                  if Faulty(libs, deps[i]) then [Entry(lib.name, deps[i])] else [], found);
      assert deps[..i + 1][..i] == deps[..i];
      issues := issues + found;
      i := i + 1;
    }
    assert deps[..i] == deps;
  }

  lemma NothingAnswered(libs: seq<LibrarySpec>)
    ensures Answers(libs, [], [])
  {
  }

  method DependencyIssues(byName: map<string, seq<LibrarySpec>>, libs: seq<LibrarySpec>) returns (issues: seq<LibraryIssue>)
    requires IsGrouping(byName, libs)
    ensures Answers(libs, FaultyEntries(libs, libs), issues)
  {
    hide Answers;
    issues := [];
    NothingAnswered(libs);
    var i := 0;
    while i < |libs|
      invariant 0 <= i <= |libs|
      invariant Answers(libs, FaultyEntries(libs, libs[..i]), issues)
    {
      var found := LibraryEntryIssues(byName, libs, libs[i]);
      AnswersJoin(libs, FaultyEntries(libs, libs[..i]), issues,
                  FaultyDependencies(libs, libs[i].name, libs[i].dependencies), found);
      assert libs[..i + 1][..i] == libs[..i];
      issues := issues + found;
      i := i + 1;
    }
    assert libs[..i] == libs;
  }

  lemma {:induction false} NoFaultyDependencies(libs: seq<LibrarySpec>, subject: string, deps: seq<LibraryDependency>)
    ensures FaultyDependencies(libs, subject, deps) == [] <==> forall dep :: dep in deps ==> !Faulty(libs, dep)
  {
    if deps != [] {
      var init, last := deps[..|deps| - 1], deps[|deps| - 1];
      NoFaultyDependencies(libs, subject, init);
      assert forall dep :: dep in deps <==> dep in init || dep == last;
    }
  }

  lemma {:induction false} NoFaultyEntries(libs: seq<LibrarySpec>, from: seq<LibrarySpec>)
    ensures FaultyEntries(libs, from) == [] <==>
      forall lib, dep :: lib in from && dep in lib.dependencies ==> !Faulty(libs, dep)
  {
    if from != [] {
      var init, last := from[..|from| - 1], from[|from| - 1];
      NoFaultyEntries(libs, init);
      NoFaultyDependencies(libs, last.name, last.dependencies);
      assert forall lib :: lib in from <==> lib in init || lib == last;
    }
  }

  // ----- The whole report -----

  /** Nothing to report: one version label per name, every entry met, and no dependency cycle. */
  ghost predicate Clean(libs: seq<LibrarySpec>, g: Graph)
  {
    && (forall n :: !Conflicting(libs, n))
    && (forall lib, dep :: lib in libs && dep in lib.dependencies ==> !Faulty(libs, dep))
    && Acyclic(g)
  }

  /** The report in three parts: version conflicts, faulty entries, and the cycles. */
  ghost predicate ReportExact(libs: seq<LibrarySpec>, issues: seq<LibraryIssue>)
  {
    exists conflicts, entries, g, cycles ::
      && issues == conflicts + entries + CycleIssues(cycles)
      && ConflictsExact(libs, conflicts)
      && Answers(libs, FaultyEntries(libs, libs), entries)
      && IsAdjacency(g, libs) && CycleSearch.CyclesExact(g, cycles)
  }

  function CycleIssues(cycles: seq<seq<string>>): (r: seq<LibraryIssue>)
    ensures |r| == |cycles|
    ensures forall i :: 0 <= i < |cycles| ==>
      r[i] == L004Cycle(if cycles[i] == [] then "" else cycles[i][0], cycles[i])
  {
    seq(|cycles|, i requires 0 <= i < |cycles| => L004Cycle(if cycles[i] == [] then "" else cycles[i][0], cycles[i]))
  }

  lemma NoConflictIssues(libs: seq<LibrarySpec>, conflicts: seq<LibraryIssue>)
    requires ConflictsExact(libs, conflicts)
    ensures conflicts == [] <==> forall n :: !Conflicting(libs, n)
  {
    if conflicts != [] {
      assert conflicts[0] in conflicts;
    }
  }

  /** The report is empty exactly when there is nothing to report. */
  lemma EmptyReportIsClean(libs: seq<LibrarySpec>, conflicts: seq<LibraryIssue>, entries: seq<LibraryIssue>, g: Graph, cycles: seq<seq<string>>)
    requires ConflictsExact(libs, conflicts) && Answers(libs, FaultyEntries(libs, libs), entries)
    requires IsAdjacency(g, libs) && CycleSearch.CyclesExact(g, cycles)
    ensures conflicts + entries + CycleIssues(cycles) == [] <==> Clean(libs, g)
  {
    NoConflictIssues(libs, conflicts);
    NoFaultyEntries(libs, libs);
    var issues := conflicts + entries + CycleIssues(cycles);
    assert |issues| == |conflicts| + |entries| + |cycles|;
    assert issues == [] <==> |issues| == 0;
    assert conflicts == [] <==> |conflicts| == 0;
    assert entries == [] <==> |entries| == 0;
    assert cycles == [] <==> |cycles| == 0;
  }

  /** All issues of the configured libraries. */
  method LibraryDependencyIssues(libs: seq<LibrarySpec>) returns (issues: seq<LibraryIssue>)
    ensures ReportExact(libs, issues)
    ensures forall g :: IsAdjacency(g, libs) ==> (issues == [] <==> Clean(libs, g))
  {
    var byName := GroupByName(libs);
    var conflicts := ConflictIssues(byName, libs);
    var entries := DependencyIssues(byName, libs);
    var adjacency := BuildAdjacency(byName, libs);
    var cycles := CycleSearch.FindCycles(adjacency);
    issues := conflicts + entries + CycleIssues(cycles);
    EmptyReportIsClean(libs, conflicts, entries, adjacency, cycles);
    forall g | IsAdjacency(g, libs) ensures Acyclic(g) <==> Acyclic(adjacency) {
      SameEdges(g, adjacency);
    }
  }

  lemma SameEdges(g: Graph, h: Graph)
    requires forall u, v :: Edge(g, u, v) <==> Edge(h, u, v)
    ensures Acyclic(g) <==> Acyclic(h)
  {
    forall w ensures IsClosedWalk(g, w) <==> IsClosedWalk(h, w) {
      assert forall i :: 0 < i < |w| ==> (StepAt(g, w, i) <==> StepAt(h, w, i));
    }
  }
}
