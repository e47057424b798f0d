# A verified model of the truST platform's core algorithms

This project models the parts of the truST structured-text platform (language server, runtime and
debug adapter) whose correctness spans several functions or a whole run, and proves what they
promise. `dafny verify dfyconfig.toml` checks everything.

Code that changes state in place (the two dependency resolvers, the cycle search, variable storage,
instance creation, the process image, the historian, the file registry) is modelled by classes and
methods over mutable fields. Each method is proved against a specification function or predicate,
and the promises are lemmas about those. Pure code is modelled by functions.

**Dependencies.** A file system is a finite map from canonical directory paths to manifest files
(`Manifests`). Both programs read the same file but decode it into types of their own, and the
language server decodes a root's file as a whole configuration; the model has all three decodings of
`[package]` and of path entries in `[dependencies]`. `RuntimeResolver` is the runtime's depth-first
search, which stops at the first problem; `RuntimeResolution` proves what success means.
`RuntimeEntries` says the same in terms of the entries as they stand in the files, and when the search
succeeds; `RuntimeErrors` says that its errors are true of the files.
`LspResolver` is the language server's search, which collects issues and passes over back edges, and
`ServerEntries` says which entries cause which issues.
`CycleSearch` (on `Graphs`, `Orders`, `Rotations`) is the search for dependency cycles and
`LibraryGraph` the whole report. `ResolverAgreement` relates the three. Where the files are decoded
alike the runtime succeeds exactly when the language server is silent (`ResolversAgree`). That does
not hold of all files: the runtime fails on a root it cannot decode
(crates/trust-runtime/src/bundle_builder.rs:106-111), while the language server logs a warning and goes on
with defaults (crates/trust-lsp/src/config.rs:66-79); the language server's configuration has no package
section (crates/trust-lsp/src/config.rs:619-642); and it refuses entries with a blank path or a revision
beside it, which the runtime takes (crates/trust-lsp/src/config.rs:1196-1231). `AgreeExactly` states for
every file system and root when the two verdicts agree, and four lemmas show inputs of each kind on
which they do not. Cycles are recognised as already reported by their names joined with `->`;
`CollidingKeysHideCycle` is a graph on which that hides a cycle, so the statement that every cycle
shares a step with a reported one is made for names without `->`. The other statements need no such
condition.

**Storage and instances.** `ArrayOffsets` is the row-major offset, first as a number, then the
source's loop with its `i64` and `i128` arithmetic made explicit. `Values` is access along a path
inside one value, `StorageModel` and `VariableStorage` are globals, frames, instances and references.
`OwnershipForest` is the invariant that instance creation and assignments keep. `Creation` says what
creation computes, failures included, `InstanceShape` what a created instance looks like, and
`Instances` is creation itself, on the definitions of `TypeDefinitions`. Spans within `i64` are not enough for the offset loop: with three
or more huge dimensions the `i128` stride can overflow as well, so `ArrayOffset` states the exact
condition.

**Process image.** `ProcessImage` models reading and writing at five widths and the keyed store and
proves that the growing buffers behave as a memory without ends; the addresses are the directly
represented variables of section 6.5.5 of IEC 61131-3 Ed. 3. `ImageLayout` gives the bytes and bits of each
address. `Coercions` and `ScanCycle` are the
conversions and the exchange between variables and image; `IoInterface` is the mutable object.

**Historian.** `Snapshots` flattens stored values, on every storage in which no instance holds itself, and
`SnapshotRoutes` says which leaves that records. `Alerts` is the debounced alert state machine,
`HistorianModel` the bounded window over the append-only log, `Historian` the service.

**Calendar, text, registry.** `CivilDate` compares the closed formula for day counts with the
calendar of RFC 3339 (month lengths of section 5.7, leap years of appendix C). The formula is computed
in unchecked 64-bit integers, so the comparison says exactly which dates overflow; a date literal can
hold such a year. `BraceExpansion`, `BraceRanges` and `BraceTrees` are brace patterns and their meaning.
`LogTemplate` is log message templates. `RegistryModel` and `SourceRegistry` are the file id registry.
Its saturating counter breaks the registry at the largest id, and `ValidIffSafe` says exactly which
operations keep it intact. Its counter never issues an id twice before a clear, but an explicit
insertion can give a removed file's id to another one; `MovedByName` says that nothing else does.

## Model

| member | source | states |
|---|---|---|
| Graphs.AddSink | crates/trust-runtime/src/bundle_builder.rs:167-187 | recording a package whose dependencies are all recorded already keeps the dependency graph closed and free of cycles |
| Graphs.ReachStaysInside | crates/trust-runtime/src/bundle_builder.rs:167-170 | what is reachable from a set of packages that no dependency leaves lies in that set |
| RuntimeResolver.EnsureVersion | crates/trust-runtime/src/bundle_builder.rs:191-208 | succeeds exactly when no version is required or the actual one equals it, and otherwise names the requirement and the actual version |
| RuntimeResolver.Resolver.ResolveDependencyRecursive | crates/trust-runtime/src/bundle_builder.rs:123-189 | the mutable search ends on every file system and yields the specified state or the specified first error |
| RuntimeResolution.ResolveOneSound | crates/trust-runtime/src/bundle_builder.rs:123-189 | one successful call keeps the search invariant, restores the stack, meets the dependency, and adds only packages reachable from it |
| RuntimeResolution.ResolveAllSound | crates/trust-runtime/src/bundle_builder.rs:167-170 | the same for a list of dependencies in order |
| RuntimeResolution.RecordPackage | crates/trust-runtime/src/bundle_builder.rs:172-187 | adding the finished package keeps every edge's version met and the graph acyclic |
| RuntimeResolution.ReachableIsResolved | crates/trust-runtime/src/bundle_builder.rs:105-121 | everything reachable from met dependencies through a consistent resolution is resolved |
| RuntimeResolution.ResolveLocalSound | crates/trust-runtime/src/bundle_builder.rs:105-208 | for every file system and root, success means: the resolved names are exactly those reachable from the declared dependencies, the graph is acyclic, each entry describes its directory, and every version requirement on every edge is met |
| RuntimeResolution.ResolveLocalDependencies | crates/trust-runtime/src/bundle_builder.rs:105-121 | the loop over the declared dependencies computes exactly that resolution or the first error |
| RuntimeEntries.DecodedEntries | crates/trust-runtime/src/bundle_builder.rs:210-222 | a file decodes exactly when its package section does and every entry has a path, and then each dependency has the name, path and version of the entry at its place |
| RuntimeEntries.SuccessMeetsEntries | crates/trust-runtime/src/bundle_builder.rs:105-222 | in terms of the files: after a successful resolution every entry of the root and of each resolved directory has an existing path and a resolved name, and a table that gives a version has it as the resolved one, which is what that package's file gives |
| RuntimeEntries.ResolvedFromEntries | crates/trust-runtime/src/bundle_builder.rs:123-189 | every resolved package is at the path that an entry of the root or of a resolved file gives its name |
| RuntimeEntries.OneAfterTheOther | crates/trust-runtime/src/bundle_builder.rs:114-120 | dependencies are resolved in order, each from the state that those before it left, and the first problem ends it |
| RuntimeEntries.PlanSucceeds | crates/trust-runtime/src/bundle_builder.rs:105-189 | if one path can be chosen for each name so that every entry agrees with the choice, every file decodes, every required version is given by the file chosen and no package depends on itself, the resolution succeeds and resolves what was chosen |
| RuntimeEntries.ResolvesIffPlanned | crates/trust-runtime/src/bundle_builder.rs:105-222 | where no two entries give one name different paths, the resolution succeeds if and only if there is such a choice |
| RuntimeErrors.OneReal | crates/trust-runtime/src/bundle_builder.rs:123-208 | the error of one step is true of the files, whatever the search met before |
| RuntimeErrors.ErrorsReal | crates/trust-runtime/src/bundle_builder.rs:105-208 | every error is true of the files: an entry names the path that is missing or whose file does not decode; an entry requires the version and a file at a path given for the name has another; the names of a cyclic dependency are each an entry of a file of the one before, and the last occurs before |
| LspResolver.VersionIssues | crates/trust-lsp/src/config.rs:1146-1158 | no issue exactly when the required version is met, and otherwise the one that names both |
| LspResolver.LoadIssues | crates/trust-lsp/src/config.rs:1129-1144 | a file that does not decode gives one issue and the default manifest, a decoded one an issue for each refused entry; none exactly for a file that the runtime decodes to the same manifest |
| Manifests.DecodeAlike | crates/trust-runtime/src/bundle_builder.rs:323-363 | a file without refused entries that one program decodes as a dependency is decoded by the other to the same manifest |
| Manifests.RefusedNone | crates/trust-lsp/src/config.rs:969-986 | no entry is refused exactly when all are accepted, and then the accepted dependencies are all of them |
| LspResolver.DependencyResolver.ResolveDependencyRecursive | crates/trust-lsp/src/config.rs:1072-1181 | the mutable search ends and leaves exactly the specified states, libraries and issues |
| LspResolver.DependencyResolver.ResolveNested | crates/trust-lsp/src/config.rs:1160-1167 | the loop over nested dependencies resolves them in order and lists them for the library |
| LspResolver.DependencyResolver.ResolveAllDependencies | crates/trust-lsp/src/config.rs:1056-1060 | the same for the declared dependencies in order |
| LspResolver.LoadProject | crates/trust-lsp/src/config.rs:52-146 | the libraries and issues of a project, refused root entries included; none at all when the root does not decode as a whole configuration |
| ServerEntries.TakenExactly | crates/trust-lsp/src/config.rs:969-1231 | the dependencies taken from a file are those of the entries that have a path, not blank and with nothing beside it, by name, path and version; the other entries are the refused ones |
| ServerEntries.LibrariesDescribed | crates/trust-lsp/src/config.rs:1129-1178 | every library has its own name, the version of its file, and exactly the entries taken from that file; no version and no dependencies if the file does not decode |
| ServerEntries.LibrariesSourced | crates/trust-lsp/src/config.rs:1072-1181 | every library is at the path that an entry of the root or of a library's file gives its name |
| ServerEntries.RootReported | crates/trust-lsp/src/config.rs:1072-1158 | everything the entries of the root cause is reported: L005 for a refused one, L001 for a missing path, L002 naming both versions for a table whose version differs from that of the library of its name; and every existing target has a library |
| ServerEntries.LibraryReported | crates/trust-lsp/src/config.rs:1072-1181 | the same for the file of every library, L001 if it does not decode included, but for a dependency that leads back to the library, on which the search is silent |
| ServerEntries.IssuesReal | crates/trust-lsp/src/config.rs:969-1181 | conversely every issue is caused by an entry of the root or of a library's file, or is the L001 of a library whose file does not decode |
| ServerEntries.OneAfterTheOther | crates/trust-lsp/src/config.rs:1056-1060 | dependencies are dealt with in order, each from the state that those before it left, whatever the issues |
| ServerEntries.GraphReports | crates/trust-lsp/src/library_graph.rs:72-111 | the library graph reports about entries exactly this, dependencies that lead back included: a name without a library, and a version other than that of the library of that name, naming both |
| Rotations.LeastRotationUnique | crates/trust-lsp/src/library_graph.rs:207-222 | lists that are rotations of each other have one and the same least rotation |
| Rotations.CanonicalCycle | crates/trust-lsp/src/library_graph.rs:207-222 | the loop yields a rotation that no rotation precedes, closed with its first node; empty for no nodes |
| Rotations.RotationSteps | crates/trust-lsp/src/library_graph.rs:212-221 | closing any rotation of a ring keeps every step of the ring |
| CycleSearch.JoinInjective | crates/trust-lsp/src/library_graph.rs:191-192 | the text key tells cycles of names without the separator apart |
| Orders.FirstDifferenceDecides | crates/trust-lsp/src/library_graph.rs:207-222 | names are ordered by their first different character, and a proper prefix comes first |
| CycleSearch.KeysCollide | crates/trust-lsp/src/library_graph.rs:191-194 | two different cycles of names with the separator have the same key |
| CycleSearch.CollidingKeysHideCycle | crates/trust-lsp/src/library_graph.rs:187-196 | a graph on which every canonical report with different keys leaves a directed cycle without any reported step |
| CycleSearch.BackEdgeCycle | crates/trust-lsp/src/library_graph.rs:188-190 | the stack segment closed by a back edge is a real cycle through distinct nodes, in canonical form, containing that edge |
| CycleSearch.CycleFinder.CloseCycle | crates/trust-lsp/src/library_graph.rs:187-196 | the report keeps the search invariant and explains the back edge, whether or not its key was seen before |
| CycleSearch.CycleFinder.DetectCycle | crates/trust-lsp/src/library_graph.rs:169-205 | the search from a node ends, restores the stack, finishes the node, and keeps everything found out before |
| CycleSearch.ClosedWalkExplained | crates/trust-lsp/src/library_graph.rs:184-200 | once all nodes are finished, every directed cycle has a step for which something was reported |
| CycleSearch.RotationsCoincide | crates/trust-lsp/src/library_graph.rs:190-194 | canonical cycles that are rotations of each other are equal |
| CycleSearch.ReportedOnce | crates/trust-lsp/src/library_graph.rs:190-194 | no two reported cycles are rotations of each other |
| CycleSearch.ClosedWalksCovered | crates/trust-lsp/src/library_graph.rs:132-205 | without a report the graph is acyclic; without `->` in names every directed cycle shares a step with a reported one |
| CycleSearch.FinishedSearchExact | crates/trust-lsp/src/library_graph.rs:132-205 | the finished search is sound and complete |
| CycleSearch.FindCycles | crates/trust-lsp/src/library_graph.rs:151-167 | on every graph: real canonical cycles of distinct nodes, pairwise no rotations and with different keys, none exactly when the graph is acyclic |
| LibraryGraph.GroupByName | crates/trust-lsp/src/library_graph.rs:44-47 | each configured name is mapped to exactly its libraries |
| LibraryGraph.BuildAdjacency | crates/trust-lsp/src/library_graph.rs:133-149 | an edge exactly where a library of one configured name depends on another configured name; targets sorted and distinct |
| LibraryGraph.ManyLabels | crates/trust-lsp/src/library_graph.rs:52-56 | more than one label exactly when two libraries of the name carry different version labels |
| LibraryGraph.ConflictIssues | crates/trust-lsp/src/library_graph.rs:51-70 | exactly the names with conflicting versions are reported, each once, with all their version labels in order |
| LibraryGraph.EntryIssues | crates/trust-lsp/src/library_graph.rs:74-109 | one issue of the right kind exactly when the target is not configured or the required version is not available |
| LibraryGraph.DependencyIssues | crates/trust-lsp/src/library_graph.rs:72-111 | one issue for each faulty entry, in the order of the entries, and no other |
| LibraryGraph.EmptyReportIsClean | crates/trust-lsp/src/library_graph.rs:43-123 | the report is empty exactly when no versions conflict, every entry is met, and there is no cycle |
| LibraryGraph.LibraryDependencyIssues | crates/trust-lsp/src/library_graph.rs:43-123 | the report is the exact conflicts, entry issues and cycles in this order, and empty exactly when clean |
| ResolverAgreement.OneFollows | crates/trust-lsp/src/config.rs:1072-1181 | where the runtime's search succeeds on files that are decoded alike, the language server's takes the same steps without an issue |
| ResolverAgreement.OneSucceeds | crates/trust-runtime/src/bundle_builder.rs:123-189 | where the language server finds no issue and its final libraries are acyclic, the runtime's search succeeds, on files decoded alike |
| ResolverAgreement.SoundIsClean | crates/trust-lsp/src/library_graph.rs:43-123 | the libraries of a sound resolution give the library graph nothing to report |
| ResolverAgreement.ServerVerdict | crates/trust-lsp/src/config.rs:64-146 | the language server reports nothing exactly when it cannot decode the root, or refuses no entry and the dependencies resolve through plain files |
| ResolverAgreement.AgreeExactly | crates/trust-runtime/src/bundle_builder.rs:105-189 | for every file system and root, the exact condition under which the runtime succeeds if and only if the language server reports nothing |
| ResolverAgreement.ResolversAgree | crates/trust-runtime/src/bundle_builder.rs:105-189 | where the root decodes for both and no file has anything that one program refuses alone: the runtime succeeds if and only if the resolver and the library graph of the language server report nothing, and both resolved the same packages |
| ResolverAgreement.UnreadableRootUnnoticed | crates/trust-lsp/src/config.rs:60-79 | every root that neither program decodes makes the runtime fail and the language server report nothing |
| ResolverAgreement.BadSectionHidesMissingPath | crates/trust-lsp/src/config.rs:66-79 | an ill-typed configuration section keeps a missing dependency, on which the runtime fails, from being reported |
| ResolverAgreement.BadPackageUnnoticed | crates/trust-lsp/src/config.rs:619-642 | an ill-typed package section stops the runtime and is not reported |
| ResolverAgreement.SelectorRefusedAlone | crates/trust-lsp/src/config.rs:1221-1226 | a revision beside a path is reported, and the runtime resolves the dependency |
| ResolverAgreement.CheckProject | crates/trust-lsp/src/library_graph.rs:43-123 | the verdicts of the three searches, as methods on mutable state, agree exactly under that condition |
| ArrayOffsets.RowMajorBounded | crates/trust-runtime/src/memory.rs:452-467 | for any number of dimensions the offset of an index vector in range lies below the element count |
| ArrayOffsets.OffsetOrder | crates/trust-runtime/src/memory.rs:452-467 | offsets are ordered as the index vectors are lexicographically, and different vectors have different offsets |
| ArrayOffsets.OffsetOnto | crates/trust-runtime/src/memory.rs:452-467 | every number below the element count is the offset of a vector in range |
| ArrayOffsets.ArrayOffset | crates/trust-runtime/src/memory.rs:452-467 | the loop: for indices in range it overflows exactly when a span exceeds `i64` or the element count `i128`, and otherwise yields the row-major offset, or nothing beyond `usize`; out of range it yields nothing, unless the dimensions behind the last index out of range already overflow |
| ArrayOffsets.OutsideSomewhere | crates/trust-runtime/src/memory.rs:458-461 | indices of the right number are in range or one of them is the last out of range |
| Values.InsertGet | crates/trust-runtime/src/memory.rs:80-82 | an insertion is read back, leaves other names alone, and keeps every known name's position |
| Values.LocateInjective | crates/trust-runtime/src/memory.rs:395-418 | different segments of a value select different children |
| Values.WriteWhereReadable | crates/trust-runtime/src/memory.rs:395-450 | a write along a path succeeds exactly where a read does, and a failed one changes nothing |
| Values.PutGet | crates/trust-runtime/src/memory.rs:395-450 | a write is what the next read at the path returns |
| Values.GetPut | crates/trust-runtime/src/memory.rs:395-450 | writing back the value read changes nothing |
| Values.PutPut | crates/trust-runtime/src/memory.rs:420-450 | a second write at a path hides the first |
| Values.DisjointRead | crates/trust-runtime/src/memory.rs:395-450 | a write leaves reads unchanged at every path that is neither prefix nor extension of its own |
| Values.RowMajorIsStrideSum | crates/trust-runtime/src/memory.rs:452-467 | the offset of indices in range is the sum of each index less its lower bound times the number of elements behind it |
| Values.FieldRead | crates/trust-runtime/src/memory.rs:395-405 | a field segment reads the field of that name |
| Values.FieldWritten | crates/trust-runtime/src/memory.rs:420-435 | and writes it, every other field and the order staying |
| Values.ElementRead | crates/trust-runtime/src/memory.rs:406-417 | an index segment reads the element at the row-major sum of its indices |
| Values.ElementWritten | crates/trust-runtime/src/memory.rs:436-449 | and writes it, every other element staying |
| Values.ElementMissing | crates/trust-runtime/src/memory.rs:406-467 | indices out of range, or beyond the elements, read nothing and write nothing |
| Values.NothingSelected | crates/trust-runtime/src/memory.rs:395-450 | an unknown field, a field of another kind of value and an index into one read nothing and write nothing |
| StorageModel.RefWriteWhereReadable | crates/trust-runtime/src/memory.rs:297-352 | through references: a write succeeds exactly where a read does, and a failed one changes nothing in the storage |
| StorageModel.RefPutGet | crates/trust-runtime/src/memory.rs:297-352 | through references: written is what is read next |
| StorageModel.RefGetPut | crates/trust-runtime/src/memory.rs:297-352 | through references: writing back the value read leaves the whole storage as it is |
| StorageModel.RefApart | crates/trust-runtime/src/memory.rs:297-352 | a write is not seen through any reference to another location, another slot or a disjoint path |
| StorageModel.ApartExactly | crates/trust-runtime/src/memory.rs:297-352 | two references that read something are apart exactly if no write through the one is ever seen through the other |
| StorageModel.RefSelects | crates/trust-runtime/src/memory.rs:297-317 | a reference reads along its path in the slot at its offset: of the globals, of the instance, or of the frame with that id |
| StorageModel.RefWrites | crates/trust-runtime/src/memory.rs:319-352 | a write changes the value of that slot along the path, and nothing else in the storage |
| StorageModel.RefMisses | crates/trust-runtime/src/memory.rs:297-352 | an offset beyond the slots, an unknown instance or frame, and the other areas are never read or written |
| StorageModel.RefForSelects | crates/trust-runtime/src/memory.rs:265-277 | the reference taken for a name is that of the slot with the name |
| StorageModel.ReferencesStayValid | crates/trust-runtime/src/memory.rs:229-317 | over every later run of assignments a reference stays the one a fresh lookup gives and reads what the lookup by name reads |
| StorageModel.RecursiveLookupsAgree | crates/trust-runtime/src/memory.rs:251-295 | the recursive reference lookup finds a variable exactly when the recursive value lookup does, and reads its value |
| StorageModel.NearestFound | crates/trust-runtime/src/memory.rs:251-263 | along any chain of parents the lookup finds the variable of the first instance that has it, and nothing when none has |
| StorageModel.RunKeepsParents | crates/trust-runtime/src/memory.rs:229-242 | assignments keep the parent chains descending, on which the recursive lookups' termination rests |
| StorageModel.WithFrameRestores | crates/trust-runtime/src/memory.rs:183-199 | a body that works on the top frame leaves all other frames in their places; only the chosen frame is replaced |
| StorageModel.PopUndoesPush | crates/trust-runtime/src/memory.rs:108-140 | a pushed frame is the last, with the counter's id and no variables, and popping takes it off again |
| StorageModel.RaisedAt | crates/trust-runtime/src/memory.rs:188-194 | raising moves exactly the chosen frame to the end |
| VariableStorage.VariableStorage.SetGlobal | crates/trust-runtime/src/memory.rs:80-82 | the new state is the specified one |
| VariableStorage.VariableStorage.SetInstanceVar | crates/trust-runtime/src/memory.rs:229-241 | the new state and the result are the specified ones |
| VariableStorage.VariableStorage.CreateInstance | crates/trust-runtime/src/memory.rs:201-213 | a new empty instance under the counter's id, and nothing else changes |
| VariableStorage.VariableStorage.GetInstanceVarRecursive | crates/trust-runtime/src/memory.rs:251-263 | the loop along the parent chain ends and finds the nearest definition |
| VariableStorage.VariableStorage.RefForInstanceRecursive | crates/trust-runtime/src/memory.rs:279-295 | the loop ends with the specified reference, which reads what the value lookup finds |
| VariableStorage.VariableStorage.ReadByRef | crates/trust-runtime/src/memory.rs:297-317 | the value the specification reads |
| VariableStorage.VariableStorage.WriteByRef | crates/trust-runtime/src/memory.rs:319-352 | the specified state; readable before exactly when successful, read back afterwards, unseen through references apart from it |
| VariableStorage.VariableStorage.PushFrame | crates/trust-runtime/src/memory.rs:108-136 | the specified state, and frame ids stay distinct |
| VariableStorage.VariableStorage.RaiseFrame | crates/trust-runtime/src/memory.rs:188-194 | the frame is moved to the top, the others keep their order |
| VariableStorage.VariableStorage.LowerFrame | crates/trust-runtime/src/memory.rs:196-197 | the top frame is moved back to its position |
| OwnershipForest.ForestParentsBelow | crates/trust-runtime/src/memory.rs:251-263 | in an ownership forest every parent id is smaller than its child's |
| OwnershipForest.NewKeepsForest | crates/trust-runtime/src/memory.rs:201-213 | a new instance keeps the forest and is owned by nothing |
| OwnershipForest.ParentKeepsForest | crates/trust-runtime/src/instance.rs:69-74 | attaching an unowned, older base part keeps the forest |
| OwnershipForest.AssignKeepsForest | crates/trust-runtime/src/memory.rs:229-241 | assigning a plain value or an unowned newer instance keeps the forest |
| OwnershipForest.RunKeepsForest | crates/trust-runtime/src/memory.rs:229-352 | every run of assignments of plain values, by name or by reference, keeps the forest |
| TypeDefinitions.DefaultPlain | crates/trust-runtime/src/instance.rs:180-182 | type defaults hold no instances, through any chain of aliases |
| TypeDefinitions.KeyIgnoresCase | crates/trust-runtime/src/instance.rs:201-203 | names have the same key exactly when they differ at most in the case of ASCII letters |
| TypeDefinitions.ChainMeans | crates/trust-runtime/src/instance.rs:289-308 | through any sequence of distinct aliases, the type name or default is the one registered at its end |
| TypeDefinitions.DanglingMeans | crates/trust-runtime/src/instance.rs:289-308 | aliases that lead to an id that is not registered have none |
| Creation.UndefinedTypeFails | crates/trust-runtime/src/instance.rs:201-222 | a variable whose type leads to a function block or class that does not exist fails with the source's error, and changes nothing |
| Creation.InstanceInitializerFails | crates/trust-runtime/src/instance.rs:262-273 | an initializer on a variable that holds an instance fails and is not evaluated |
| InstanceShape.HoldsFunctionBlock | crates/trust-runtime/src/instance.rs:200-219 | in a finished instance a variable whose type leads through aliases to a function block holds an instance of the definition registered under that name, whatever its case |
| InstanceShape.HoldsClass | crates/trust-runtime/src/instance.rs:220-237 | likewise for a class |
| InstanceShape.HoldsDefault | crates/trust-runtime/src/instance.rs:238-240 | a data variable without an initializer holds the default registered at the end of its aliases, or Null |
| InstanceShape.HoldsInitializer | crates/trust-runtime/src/instance.rs:274-285 | a data variable with an initializer holds what that gave at its stage |
| InstanceShape.ExternalAbsent | crates/trust-runtime/src/instance.rs:235-240 | an external data variable is not held, whatever its initializer |
| InstanceShape.ParamHoldsDefault | crates/trust-runtime/src/instance.rs:173-185 | a parameter holds the default registered at the end of its aliases, or Null |
| InstanceShape.FunctionBlockShapeMoves | crates/trust-runtime/src/instance.rs:22-91 | a finished instance keeps its shape, all the way down, while other instances are created and assigned |
| InstanceShape.InitializersExtend | crates/trust-runtime/src/instance.rs:280-284 | one more initializer: its variable holds what it gave in a storage that is the present one but for the variables whose initializers come later, which hold their defaults |
| InstanceShape.InitializersShapeMoves | crates/trust-runtime/src/instance.rs:261-286 | what the initializers of a finished instance did stays true while other instances are created and assigned |
| Instances.CreateFbInstance | crates/trust-runtime/src/instance.rs:22-91 | with acyclic definitions creation ends with exactly the specified result and storage, keeps the ownership forest and only adds to the storage, even when it fails; on success the new, unowned instance has the base, parameters, nested instances and initial values of its definition, recursively |
| Instances.CreateBase | crates/trust-runtime/src/instance.rs:32-67 | the same for the base part, a function block or a class |
| Instances.CreateClassInstance | crates/trust-runtime/src/instance.rs:123-171 | the same for a class |
| Instances.CreateProgramInstance | crates/trust-runtime/src/instance.rs:95-119 | the same for a program, which has no base |
| Instances.InitParamDefaults | crates/trust-runtime/src/instance.rs:173-185 | afterwards the instance holds exactly the parameters, each with its type's default |
| Instances.InitVarDefaults | crates/trust-runtime/src/instance.rs:188-287 | exactly the specified storage or error; every variable holds what its type calls for, initializers have taken effect in order, external data variables and parameters are untouched |
| Instances.InitialValue | crates/trust-runtime/src/instance.rs:200-241 | exactly the specified value or error: a nested instance of the right type, nothing for an external variable, the type's default otherwise |
| Instances.RunInitializers | crates/trust-runtime/src/instance.rs:261-286 | exactly the specified storage or error; success means no instance-typed variable had an initializer, and every other initializer was evaluated with the globals, the other instances and the variables before it as they are, and the later variables at their defaults |
| Snapshots.InstanceDescends | crates/trust-runtime/src/historian.rs:521-528 | where no instance holds itself, the variables of an instance lie strictly below it, so flattening ends |
| Snapshots.ForestAcyclic | crates/trust-runtime/src/instance.rs:22-287 | in the forest that instance creation keeps no instance holds itself |
| Snapshots.RunKeepsAcyclic | crates/trust-runtime/src/memory.rs:229-352 | nor after any run of assignments of plain values |
| Snapshots.AllowlistFilters | crates/trust-runtime/src/historian.rs:495-539 | for every value, recording with an allowlist yields exactly the listed part of a full recording, in order |
| Snapshots.AllowlistFiltersSnapshot | crates/trust-runtime/src/historian.rs:454-493 | the same for a whole snapshot of globals and retained variables |
| Snapshots.Recording.Flatten | crates/trust-runtime/src/historian.rs:495-532 | the recursion that pushes to an output vector ends and appends exactly the flattened value |
| Snapshots.CollectSnapshot | crates/trust-runtime/src/historian.rs:454-483 | globals first, then retained variables under their prefix |
| SnapshotRoutes.RecordsExactly | crates/trust-runtime/src/historian.rs:541-576 | which elementary values are recorded, and that their numbers, bits and texts are kept |
| SnapshotRoutes.DecimalSpells | crates/trust-runtime/src/historian.rs:516-520 | an index in a path is its number in decimal digits without a leading zero |
| SnapshotRoutes.FlattenLists | crates/trust-runtime/src/historian.rs:495-532 | flattening gives one entry for every leaf that a route of positions through fields, elements and instances leads to, and no other, named by the steps of the route and in the order of the routes |
| SnapshotRoutes.SnapshotListsLeaves | crates/trust-runtime/src/historian.rs:454-532 | so does a whole snapshot: every leaf below the globals and then below the retained variables, once |
| Alerts.EvaluateAlerts | crates/trust-runtime/src/historian.rs:600-647 | the loop over mutable trackers computes the specified trackers and events |
| Alerts.OthersDoNotInterfere | crates/trust-runtime/src/historian.rs:607-645 | rules of other names neither move a rule's tracker nor add to its events |
| Alerts.RuleAlone | crates/trust-runtime/src/historian.rs:607-645 | with distinct names a rule evolves as if it were alone |
| Alerts.ActiveIffStreak | crates/trust-runtime/src/historian.rs:600-651 | over every run: active exactly when the unbroken streak of breaches has reached the debounce; events alternate Triggered, Cleared, starting with Triggered |
| Alerts.EventOnChange | crates/trust-runtime/src/historian.rs:611-644 | an event exactly when the rule changes between inactive and active, of the right kind and value |
| Alerts.ActiveIffOutside | crates/trust-runtime/src/historian.rs:600-651 | after every run a rule is active exactly when in each of its last debounce readings the variable is present and above the one limit or below the other |
| Alerts.EventsInRuleOrder | crates/trust-runtime/src/historian.rs:607-645 | the events of one evaluation stand in the order of the rules, at most one each, with the rule's variable and its reading |
| HistorianModel.LastConcat | crates/trust-runtime/src/historian.rs:241-247 | trimming the window as samples are pushed keeps the last entries of everything pushed |
| HistorianModel.CaptureKeeps | crates/trust-runtime/src/historian.rs:210-282 | a capture keeps the window, counters, spacing and alert invariant |
| HistorianModel.RunKeeps | crates/trust-runtime/src/historian.rs:210-282 | so does every run from a start over any log |
| HistorianModel.RestartRebuilds | crates/trust-runtime/src/historian.rs:424-452 | a restart from the log after any run rebuilds the same window, tracked variables and total |
| HistorianModel.AcceptedSpaced | crates/trust-runtime/src/historian.rs:215-249 | accepted capture times are at least an interval apart, even if the clock goes back |
| HistorianModel.AlertsFollowStreaks | crates/trust-runtime/src/historian.rs:251-272 | over the captures of any run each rule follows its streak of breaches |
| HistorianModel.LogInOrder | crates/trust-runtime/src/historian.rs:229-249 | without earlier history the log is in the order of accepted capture times |
| HistorianModel.CaptureRecords | crates/trust-runtime/src/historian.rs:215-272 | a first capture, or one at least the interval and at least 1 after the last, is accepted at its time: the log grows by exactly one sample for each recorded value, in order, with that path, value, source time and timestamp, and the alerts are given the last number of each variable |
| HistorianModel.CaptureSkipped | crates/trust-runtime/src/historian.rs:223-227 | any other capture, one with the clock gone back included, changes nothing |
| HistorianModel.LatestHeld | crates/trust-runtime/src/historian.rs:252-257 | the readings given to the alerts are the last number recorded for each variable, and no other |
| HistorianModel.WindowExact | crates/trust-runtime/src/historian.rs:236-272 | after every run the window is the end of the log, the tracked variables those of the log, the alert window the last 1000 events, and the totals count both up to the largest 64-bit number |
| HistorianModel.QueryPicks | crates/trust-runtime/src/historian.rs:285-306 | a query gives the last samples that have the variable, if one is asked for, and are not older, in recorded order: as many as there are, up to the limit taken as 1 to 5000 |
| HistorianModel.Query | crates/trust-runtime/src/historian.rs:285-306 | exactly the last matching samples, at most the clamped limit, in recorded order |
| HistorianModel.LastMatching | crates/trust-runtime/src/historian.rs:295-305 | collecting from the back and stopping early gives the last matching samples in order |
| Historian.HistorianService.CaptureSnapshotAt | crates/trust-runtime/src/historian.rs:210-282 | the service's new state is the specified one and keeps the invariant |
| Historian.HistorianService.Record | crates/trust-runtime/src/historian.rs:215-275 | the same for an already flattened snapshot |
| Historian.HistorianService.RecordSamples | crates/trust-runtime/src/historian.rs:241-247 | the pushing loop leaves the last entries and tracks every variable |
| Historian.LoadExistingSamples | crates/trust-runtime/src/historian.rs:424-452 | replaying a log gives its last entries, its variables and its size |
| Historian.Trimmed | crates/trust-runtime/src/historian.rs:244-246 | dropping from the front leaves the last entries |
| ProcessImage.WithBitAt | crates/trust-runtime/src/io.rs:512-517 | the written bit gets its value, every other bit of the byte keeps its own |
| ProcessImage.WithBitMask | crates/trust-runtime/src/io.rs:512-517 | setting or clearing changes the byte by the bit's weight, and only when the bit differs |
| ProcessImage.FromToBytes | crates/trust-runtime/src/io.rs:530-560 | a number that fits is recovered from its little-endian bytes |
| ProcessImage.ToFromBytes | crates/trust-runtime/src/io.rs:467-491 | bytes are recovered from their number |
| ProcessImage.DecodeEncode | crates/trust-runtime/src/io.rs:445-562 | each width's value is recovered from what is stored |
| ProcessImage.EnsureLen | crates/trust-runtime/src/io.rs:600-604 | growing reaches the index and changes no byte as read |
| ProcessImage.RunRefinesMemory | crates/trust-runtime/src/io.rs:445-562 | over every sequence of writes every read equals that of a total, zero-initialised byte memory with a keyed store |
| ProcessImage.FreshRunRefines | crates/trust-runtime/src/io.rs:263-266 | in particular from the empty image and the all-zero memory |
| ProcessImage.GrowthUnobservable | crates/trust-runtime/src/io.rs:600-604 | images with the same bytes stay indistinguishable however long their buffers are |
| ProcessImage.ReadsCompose | crates/trust-runtime/src/io.rs:457-493 | byte k of a wider read is the byte read at the k-th address |
| ProcessImage.BitOfByte | crates/trust-runtime/src/io.rs:459-463 | a bit read is that bit of the byte read |
| ProcessImage.WriteRead | crates/trust-runtime/src/io.rs:445-562 | a successful write is read back |
| ProcessImage.NoInterference | crates/trust-runtime/src/io.rs:445-562 | a write does not change what is read at other bits, bytes, areas or hierarchical addresses |
| ProcessImage.LastWriteWins | crates/trust-runtime/src/io.rs:445-562 | the last write at an address is read, whatever non-overlapping writes follow |
| ImageLayout.BitRead | crates/trust-runtime/src/io.rs:457-463 | a flat bit read is the bit with that mask of the addressed byte, zero past the end of the area |
| ImageLayout.NumbersRead | crates/trust-runtime/src/io.rs:464-493 | a flat read of one, two, four or eight bytes is the number they spell, lowest first, as a value of that width |
| ImageLayout.FlatWrite | crates/trust-runtime/src/io.rs:509-562 | a flat write succeeds exactly for a value of the width's kind and changes no byte outside the address, no other area and no other bit of its byte |
| ImageLayout.HierarchicalStore | crates/trust-runtime/src/io.rs:580-598 | addresses of two or more parts take any value, are one exactly where area, size, parts and bit are the same, and read nothing before a write |
| ImageLayout.OverlapsExactly | crates/trust-runtime/src/io.rs:445-562 | two addresses overlap exactly if some write at the one changes some read at the other |
| Coercions.CoercedFits | crates/trust-runtime/src/io.rs:630-818 | what goes out suits the width and comes back with the bound type |
| Coercions.CoerceRoundTrip | crates/trust-runtime/src/io.rs:630-818 | every value of the bound type, signed ones included, goes out and comes back as it was |
| Coercions.CoerceRoundTripIn | crates/trust-runtime/src/io.rs:630-818 | every image value of the width comes in and goes out as it was |
| Coercions.CoerceKeepsNumber | crates/trust-runtime/src/io.rs:704-805 | an integer of any type bound as any integer type goes out exactly when that type can hold it, and keeps its number |
| Coercions.UnsignedGoesOut | crates/trust-runtime/src/numeric.rs:75-111 | which error an integer gets that an unsigned type cannot hold |
| Coercions.TwosComplement | crates/trust-runtime/src/io.rs:630-702 | a signed variable gets the number in its range that has the image value's bits |
| Coercions.BitsKept | crates/trust-runtime/src/io.rs:630-702 | every other type gets the bits as they are, and a value of another width is refused |
| Coercions.NoNumberNoInteger | crates/trust-runtime/src/io.rs:704-818 | what is not an integer, or is bound at another width, does not go out as an integer |
| ScanCycle.OutputsHeld | crates/trust-runtime/src/io.rs:421-443 | well-typed outputs are all written, and at the end the image still holds every %M variable's converted value |
| ScanCycle.AssignApart | crates/trust-runtime/src/io.rs:410-417 | an assignment leaves targets apart from it readable and unchanged |
| ScanCycle.TargetsApartExactly | crates/trust-runtime/src/io.rs:398-419 | two readable targets are apart exactly if no assignment to the one changes the other |
| ScanCycle.ReadInputsKeep | crates/trust-runtime/src/io.rs:398-419 | reading back changes no %M variable, even when it stops at an error, and nothing at all without inputs |
| ScanCycle.ScanKeepsMemory | crates/trust-runtime/src/io.rs:398-443 | writing out succeeds and reading back leaves every %M variable with exactly its old value, even when an input fails |
| ScanCycle.ScanWithoutInputs | crates/trust-runtime/src/io.rs:398-443 | when nothing is bound to an input the exchange succeeds and the whole storage is unchanged |
| ScanCycle.InputsArrive | crates/trust-runtime/src/io.rs:398-419 | after reading in without error every %I and %M binding's target holds the image's value at its address, converted, unless a later one shares its storage |
| ScanCycle.ReadingLeaves | crates/trust-runtime/src/io.rs:398-419 | targets apart from those keep their values, those of %Q bindings among them |
| ScanCycle.ReadingStopsAt | crates/trust-runtime/src/io.rs:398-419 | reading in stops exactly at a binding whose value cannot be read or converted, or whose reference selects nothing, with that error, everything before having been done |
| ScanCycle.OutputsArrive | crates/trust-runtime/src/io.rs:421-443 | after writing out without error the image reads at every %Q and %M address as the variable's value, converted, unless a later one writes over it |
| ScanCycle.WritingLeaves | crates/trust-runtime/src/io.rs:421-443 | addresses that none of those overlap read as before, those of %I bindings among them |
| ScanCycle.WritingStopsAt | crates/trust-runtime/src/io.rs:421-443 | writing out stops exactly at a binding whose value cannot be had or does not suit its address, with that error |
| IoInterface.IoInterface.Read | crates/trust-runtime/src/io.rs:445-493 | the byte loop computes the specified value or error |
| IoInterface.IoInterface.Bind | crates/trust-runtime/src/io.rs:345-396 | the new binding comes after all others, which stay |
| IoInterface.IoInterface.Write | crates/trust-runtime/src/io.rs:495-562 | the specified image; read back on success, unchanged on failure, invisible at addresses without overlap |
| IoInterface.IoInterface.WriteOutputs | crates/trust-runtime/src/io.rs:421-443 | the loop over bindings leaves exactly the specified image and error, a failed exchange included |
| IoInterface.IoInterface.ReadInputs | crates/trust-runtime/src/io.rs:398-419 | the loop over bindings leaves exactly the specified storage and error, a failed exchange included |
| IoInterface.IoInterface.Exchange | crates/trust-runtime/src/io.rs:398-443 | the two loops in a row keep every %M variable, whether or not an input fails |
| IoInterface.StoreAt | crates/trust-runtime/src/io.rs:509-560 | growing the buffer and storing byte by byte gives the specified buffer |
| CivilDate.DaysAgree | crates/trust-runtime/src/datetime.rs:22-33 | for every 64-bit year and accepted month and day the formula equals the day count by calendar rules where that leaves room for the last subtraction, and overflows otherwise; a day past its month counts on |
| CivilDate.YearsCounted | crates/trust-runtime/src/datetime.rs:26-32 | every accepted date of the years from -25252734927764584 to 25252734927766553 is counted; beyond the years next to these every one overflows |
| CivilDate.HugeYearOverflows | crates/trust-runtime/src/datetime.rs:26-32 | a year of seventeen nines overflows |
| CivilDate.RejectedExactly | crates/trust-runtime/src/datetime.rs:23-25 | exactly the months and days outside the fixed ranges are rejected, so no valid date is |
| CivilDate.EraIsFloor | crates/trust-runtime/src/datetime.rs:27 | the truncating era computation is floor division by 400 |
| CivilDate.NextDay | crates/trust-runtime/src/datetime.rs:22-33 | successive dates differ by one |
| CivilDate.DayNumberOrder | crates/trust-runtime/src/datetime.rs:22-33 | the count orders dates as the calendar does and is injective |
| CivilDate.DayNumberOnto | crates/trust-runtime/src/datetime.rs:22-33 | every integer is the calendar's count of a date |
| CivilDate.CountedOnto | crates/trust-runtime/src/datetime.rs:22-33 | every number within the limits is computed from exactly one date |
| BraceExpansion.FindBraceRangeLoop | crates/trust-debug/src/session.rs:800-824 | the loop finds the specified outermost group |
| BraceExpansion.SplitOptionsLoop | crates/trust-debug/src/session.rs:826-848 | the loop splits at the commas outside inner groups |
| BraceExpansion.OptionFallsBelow | crates/trust-debug/src/session.rs:793-796 | putting an option in place of its group lowers the number of opening braces, for every pattern |
| BraceExpansion.ExpandBraces | crates/trust-debug/src/session.rs:784-798 | the recursion ends on every pattern with the specified expansions |
| BraceRanges.FoundExactly | crates/trust-debug/src/session.rs:800-824 | for every pattern, also one whose braces do not match: the group found opens at the first brace of all and closes where the braces first balance; none is found if that brace closes or stays open |
| BraceRanges.OptionsExactly | crates/trust-debug/src/session.rs:826-848 | the options joined by commas are what the group encloses, and each closes no brace it did not open and has its commas inside braces |
| BraceTrees.SplitPrinted | crates/trust-debug/src/session.rs:826-848 | splitting a printed choice gives exactly its printed options |
| BraceTrees.ChoiceFound | crates/trust-debug/src/session.rs:800-824 | the group found in front of a pattern is the printed choice |
| BraceTrees.ExpandPrefixed | crates/trust-debug/src/session.rs:784-798 | text without braces in front stands in front of every expansion |
| BraceTrees.ExpandPrinted | crates/trust-debug/src/session.rs:784-848 | on the printed form of every nested brace tree: exactly the tree's alternatives, leftmost choice varying slowest |
| LogTemplate.ParseLogMessage | crates/trust-debug/src/session.rs:1008-1066 | the loop computes the specified fragments or error for every template |
| LogTemplate.FirstClose | crates/trust-debug/src/session.rs:1031-1037 | the inner loop stops at the first closing brace |
| LogTemplate.ParseEscaped | crates/trust-debug/src/session.rs:1020-1025 | escaped text is read back as it was, in front of any rest |
| LogTemplate.ParseExpression | crates/trust-debug/src/session.rs:1026-1048 | a printed expression becomes one fragment after the pending text |
| LogTemplate.TrimExact | crates/trust-debug/src/session.rs:1041 | trimming gives the part of a text that has only white space around it and none at its ends |
| LogTemplate.ParsePrinted | crates/trust-debug/src/session.rs:1008-1066 | parsing the printed form of every normal-form list, with nothing or something wrong behind it, gives its fragments, each expression compiled without the white space around it; the error is the first rejection, or else what is wrong at the end |
| LogTemplate.EveryTemplatePrinted | crates/trust-debug/src/session.rs:1008-1066 | every template is of that kind, so the above is what parsing gives for all templates |
| RegistryModel.ValidIffSafe | crates/trust-hir/src/project.rs:62-100 | an operation keeps the maps inverse and all ids below the counter if and only if a fresh key finds its id below the top |
| RegistryModel.SaturationBreaksInverse | crates/trust-hir/src/project.rs:66-70 | at the top two fresh keys get one id and the maps fall apart |
| RegistryModel.RunKeepsValid | crates/trust-hir/src/project.rs:62-100 | every safe run keeps the registry valid |
| RegistryModel.KeyKeepsId | crates/trust-hir/src/project.rs:62-100 | a key keeps its id until it is removed or everything is cleared |
| RegistryModel.IssuedIncrease | crates/trust-hir/src/project.rs:62-72 | the ids that the counter gives to fresh keys before a clear strictly increase, so the counter gives none twice |
| RegistryModel.FreedTakenByName | crates/trust-hir/src/project.rs:62-100 | one operation gives an id below the counter that no key holds to a key exactly by an insertion that names it for that key |
| RegistryModel.MovedByName | crates/trust-hir/src/project.rs:62-100 | before a clear an id goes from one key to another only when the first is removed and an insertion after that names the id for the other |
| RegistryModel.EnsureNeverReuses | crates/trust-hir/src/project.rs:62-71 | without an insertion that names it an id never goes to another key |
| RegistryModel.InsertReusesId | crates/trust-hir/src/project.rs:74-85 | a removed key's id given to another by an insertion |
| RegistryModel.AnswerIsHeld | crates/trust-hir/src/project.rs:62-85 | the id answered is the one the key has afterwards: its own if it was known, the wanted one if that is free, the counter's otherwise; the counter moves just past it and no other key's id changes |
| RegistryModel.RemovedIsGone | crates/trust-hir/src/project.rs:95-99 | removing answers the id the key held, frees key and id, and changes no other |
| SourceRegistry.SourceFiles.EnsureFileId | crates/trust-hir/src/project.rs:62-71 | the specified state and id, valid afterwards exactly when safe |
| SourceRegistry.SourceFiles.InsertWithId | crates/trust-hir/src/project.rs:74-85 | the specified state and id, valid afterwards exactly when safe |
| SourceRegistry.SourceFiles.Remove | crates/trust-hir/src/project.rs:95-99 | the specified state and id; validity is kept |

## Left out

- Git dependencies (a table with git as its only source), host policy, lock files, `[[libraries]]` and `library_paths`: the model covers path dependencies. TOML decoding is a description of what decodes for whom; paths arrive joined and canonical.
- `resolved.into_values()` and the hash map iteration orders: resolved packages and grouped libraries are maps, so the order in which conflicts (L003) are listed is unspecified.
- RuntimeEntries.ResolvesIffPlanned: where entries give one name different paths, the first one visited decides; what success means then is `SuccessMeetsEntries`, whether there is success is left to the search itself.
- RuntimeResolver.Resolver.ResolveDependencyRecursive: the fields after a failed resolution are not described; the source discards them.
- ArrayOffsets.OffsetOf: path access uses the offset as a number; it is what the machine loop gives whenever the element count fits `i128`, as it does for an array that exists.
- Storage and frame ids (`u32`) are unbounded here.
- Values.WritePath: writing along a path is a function on values; the source updates through a mutable reference that nothing else can alias.
- StorageModel.WithFrame: the closure is a function on storages; the two halves around it are methods. A body that pops below the raised frame makes the source panic and is outside the precondition.
- Local variables by name, retain access by name, `clear_frames` and access maps in memory.rs: single lookups.
- TypeDefinitions.Resolve: on a cycle of type aliases the source does not return; the model gives no type.
- TypeDefinitions.Environment: initializers are functions of the storage that yield values without instances, with the conversion to the variable's type included; they do not change the storage. Method bodies and temporaries of definitions are not modelled.
- InstanceShape.InitializersShape: for nested instances the shape leaves open what instances still being built around them held at the time; `Creation` fixes it.
- REAL and LREAL values are bit patterns and conversions of other numbers to them are a parameter; times and dates are tick counts, a TIME as recorded being its milliseconds.
- Alert thresholds and readings are real numbers, so NaN is not modelled; the numeric reading of a recorded value is a parameter.
- Historian hooks, threads, locks, Prometheus rendering, include-pattern matching, unreadable log lines and failed appends: input and output; the allowlist is a predicate on paths and the history file a sequence of samples.
- `resize`, raw mutable access to the areas, address parsing, snapshots and drivers in io.rs. Bit positions are 0 to 7, as the address parser delivers them.
- ticks_per_day, days_to_ticks and nanos_to_ticks in datetime.rs: each is one checked operation.
- Glob resolution and directory reading around brace expansion; the compiler of log expressions is a parameter, and positions count characters, not bytes.
- SourceKey normalisation of paths and the semantic database behind a project.
