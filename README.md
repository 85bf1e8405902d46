# Section garbage collection (`--gc-sections`) in Dafny

This project models the mark-sweep garbage collector that the mold linker
runs for `--gc-sections` (`gc_sections.cc`). Input sections are vertices,
relocations are edges. A section reachable from a root survives; every
other allocatable section is killed. The pass has four phases, each a
method of the class `GcSections.Collector`:

1. `MarkNonallocFragments` (`mark_nonalloc_fragments`): merged-data
   fragments whose output section is not `SHF_ALLOC` are set alive.
2. `CollectRootSet` (`collect_root_set`): non-`SHF_ALLOC` sections are set
   visited, so they are never collected and never traversed. The roots are
   the init/fini-array, legacy `.ctors`/`.dtors`/`.init`/`.fini` and note
   sections, what exported symbols, the `--entry` symbol and the
   `--undefined` symbols resolve to, and the sections CIE relocations point
   into. `enqueue_section` and `enqueue_symbol` are `EnqueueSection` and
   `EnqueueSymbol`.
3. `Mark` (`mark` / `visit`): a worklist loop visits every root and every
   section handed to the feeder. `Visit` sets the section's fragments alive,
   follows FDE relocations past the first (the CIE backlink), and follows
   ordinary relocations through their symbols. It visits a newly marked
   section inline below the depth cutoff and feeds it otherwise.
4. `Sweep` (`sweep`): every section that is alive but not visited is killed
   and counted once.

The section types and the `SHF_ALLOC` flag are those of the System V ELF
generic ABI, chapter 4 ("Sections"). The CIE and FDE records are those of
the `.eh_frame` format in section 10.6 of the Linux Standard Base Core
Specification.

## Representation

- The link graph (`LinkGraph.Graph`) is an immutable value. Sections,
  symbols and fragments live in index arenas, and every pointer of the
  linker is an index. `WellFormed` says every index is in range, that
  the files' section slots and the sections correspond one to one, and
  that every FDE has at least one relocation (its CIE backlink), which
  `subspan(1)` at gc_sections.cc:43 needs.
- A symbol resolves to `Target = Frag(f) | Sec(s) | Unresolved`. mold
  tests `sym.frag` first and `sym.input_section` second for ordinary
  relocations and for `enqueue_symbol`; the model takes the two to be
  exclusive.
- `Symbol::intern` is the partial map `Graph.intern`, read by
  `RootSet.Intern`. A name that is not in
  it yields a null symbol, which contributes no root.
- The mutable flags `is_alive`, `is_visited` and the fragments' `is_alive`
  are three `array<bool>` fields of `Collector`. `State()` gives a snapshot
  as a `Flags` value. The `garbage_sections` counter is the field `counter`.
- The TBB feeder is the worklist field `feeder`. The inline depth limit is
  the parameter `inlineDepth` of `Visit` and `Mark`. `GcSections` passes
  `InlineDepth`, which is 3. `Mark`'s contract holds for every depth, so
  the result does not depend on the cutoff.
- The reference definition of marking is `Reachability.Reachable`: a path
  from a root along `Edge`, where every step lands on an alive section that
  was not visited when marking began. `Mark` is proved to leave visited
  exactly the sections visited before plus the reachable ones.
- `GcSpec.Collected` is the whole pass as one function of the starting
  flags. `GcSections` is proved to end in `Collected` of its starting
  flags, and the lemmas of `GcSpec` state what that means.
- The "removing unused section" lines become the returned list `removed`
  of section ids. It is empty unless `--print-gc-sections` is set.
- `Scenarios` works two small links through `Collected`: one with a dead
  section, a debug section, a missing `--undefined` name and two merged
  fragments; one where a function's FDE points at a section only through
  its CIE backlink, which is therefore removed.

## Model

| member | source | states |
|---|---|---|
| `Elf.IsInitFini` | gc_sections.cc:13-22 | true exactly when `sh_type` is an init, fini or preinit array, or the name starts with `.ctors`, `.dtors`, `.init` or `.fini` |
| `GcSections.Collector.MarkSection` | gc_sections.cc:24-27 | returns true iff the section is non-null, alive and was not visited before the call; an alive section ends visited; a null or dead section's flag is untouched |
| `GcSections.Collector.MarkSectionTwice` | gc_sections.cc:24-27 | a second `mark_section` on the same section returns false |
| `GcSections.Collector.Visit` | gc_sections.cc:29-68 | keeps the mark invariant; the visited section ends closed (every fragment it refers to alive, every alive section it has an edge to visited); it only marks sections reachable from the roots, and only feeds or finishes newly marked ones |
| `GcSections.Collector.VisitFragments` | gc_sections.cc:36-37 | a fragment ends alive exactly when it was alive before or is listed in `rel_fragments`; no other fragment changes |
| `GcSections.Collector.VisitFdes` | gc_sections.cc:42-46 | for every FDE, every relocation except the first leaves its section visited or dead; a section ends visited exactly when it was visited before or is alive and the target of some FDE relocation other than the first (`FdeVisited`), so the CIE backlink marks nothing |
| `GcSections.Collector.VisitFde` | gc_sections.cc:43-46 | one FDE: the visited flags grow by exactly the alive targets of its relocations past the first |
| `GcSections.Collector.VisitFdeReloc` | gc_sections.cc:44-46 | one FDE relocation moves the exact visited-flag characterization one relocation on |
| `GcSections.Collector.FollowEhReloc` | gc_sections.cc:44-46 | an FDE relocation's section ends visited or dead; the visited flags change only at an alive section target; the feeder gains exactly that section when it was alive and unvisited and is unchanged otherwise (a fragment or unresolved target changes nothing) |
| `GcSections.Collector.VisitRels` | gc_sections.cc:48-67 | every ordinary relocation is done: its fragment alive, or its section visited or dead |
| `GcSections.Collector.FollowRel` | gc_sections.cc:49-66 | a fragment target is set alive and nothing else changes; an unresolved symbol changes nothing; a section target that is dead or already visited changes nothing; a newly marked one ends visited and, at the depth limit, is appended to the feeder with nothing else changed (below the limit it is visited inline, under `Visit`'s contract) |
| `GcSections.Collector.Mark` | gc_sections.cc:133-141 | for any depth limit: visited after = visited before or reachable from the roots; alive fragments after = alive before or referenced by a reachable section; every alive edge target of a reachable section is visited; the feeder ends empty |
| `GcSections.Collector.DrainFeeder` | gc_sections.cc:138-140 | the worklist loop ends with an empty feeder and the loop invariant, terminating on the unvisited set and the feeder's length |
| `GcSections.Collector.EnqueueSection` | gc_sections.cc:76-79 | the section is marked; it is appended to the roots exactly when this call marked it |
| `GcSections.Collector.EnqueueSymbol` | gc_sections.cc:81-88 | a null symbol does nothing; a fragment symbol sets the fragment alive and adds no root; otherwise its section is enqueued |
| `GcSections.Collector.CollectSection` | gc_sections.cc:93-104 | a non-`SHF_ALLOC` section is set visited, then an init/fini or note section is enqueued |
| `GcSections.Collector.CollectFileSections` | gc_sections.cc:92-105 | the first loop over one file's slots: pre-visits the non-`SHF_ALLOC` ones and enqueues the candidates among them |
| `GcSections.Collector.CollectSectionRoots` | gc_sections.cc:91-106 | the first loop over every file, with the same effect on all sections |
| `GcSections.Collector.CollectFileExported` | gc_sections.cc:110-112 | enqueues what each symbol owned and exported by the file resolves to |
| `GcSections.Collector.CollectExportedRoots` | gc_sections.cc:109-113 | the exported-symbol loop over every file |
| `GcSections.Collector.CollectNamedRoots` | gc_sections.cc:116-119 | enqueues the `--entry` symbol, then each `--undefined` symbol; an unknown name adds nothing |
| `GcSections.Collector.CollectCieRels` | gc_sections.cc:126-127 | enqueues the section behind every relocation of one CIE |
| `GcSections.Collector.CollectFileCies` | gc_sections.cc:125-127 | enqueues the sections behind every CIE of one file |
| `GcSections.Collector.CollectCieRoots` | gc_sections.cc:124-128 | the CIE loop over every file |
| `GcSections.Collector.CollectRootSet` | gc_sections.cc:70-131 | the roots have no duplicates and are exactly the requested sections that were alive, `SHF_ALLOC` and not visited; the visited flags become old, non-`SHF_ALLOC`, or requested and alive; the requested fragments are set alive |
| `GcSections.Collector.SweepSlot` | gc_sections.cc:151-158 | a non-null alive unvisited section is killed, counted once and logged once when printing is on; otherwise nothing changes |
| `GcSections.Collector.SweepFile` | gc_sections.cc:150-159 | the sweep of one file's slots kills, counts and logs exactly the garbage among them |
| `GcSections.Collector.SweepFiles` | gc_sections.cc:149-160 | the sweep over every file kills, counts and logs exactly the garbage among all their sections |
| `GcSections.Collector.Sweep` | gc_sections.cc:143-161 | a section stays alive iff it was alive and visited; the counter grows by exactly the number of alive unvisited sections; visited flags and fragments are unchanged |
| `GcSections.Collector.MarkFileFragments` | gc_sections.cc:170-172 | one file's fragments with a non-`SHF_ALLOC` output section are set alive, and no other fragment changes |
| `GcSections.Collector.MarkNonallocFragments` | gc_sections.cc:165-174 | every fragment some file lists whose output section is not `SHF_ALLOC` ends alive; nothing else changes |
| `GcSections.Collector.GcSections` | gc_sections.cc:176-185 | the flags end as `Collected` of the starting flags; the counter grows by the number of sections killed; the log lists exactly the killed sections |
| `RootSet.EnqueuedCompose` | gc_sections.cc:76-88 | enqueuing two request sets in turn enqueues their union: no duplicate roots, each root alive and unvisited when enqueued |
| `RootSet.EnqueuedRoots` | gc_sections.cc:76-79 | enqueuing keeps the root list duplicate-free and every root visited |
| `RootSet.PreVisitShift` | gc_sections.cc:100-104 | pre-visiting sections that are not requested commutes with enqueuing |
| `RootSet.CandidatesExact` | gc_sections.cc:103-104 | a section is a header-based root candidate iff it is an init/fini or note section |
| `RootSet.CollectedExact` | gc_sections.cc:90-131 | after pre-visiting and enqueuing, a section is a root iff it was alive, unvisited, `SHF_ALLOC` and requested; non-`SHF_ALLOC` sections are never roots |
| `RootSet.ExportedRequestsExact` | gc_sections.cc:110-112 | one file's exported-symbol loop requests exactly the targets of the symbols it owns and exports |
| `RootSet.ExportedRootsExact` | gc_sections.cc:109-113 | all files' exported-symbol loops request exactly the targets of owned, exported symbols |
| `RootSet.NameRequestsExact` | gc_sections.cc:116-119 | the named roots request exactly the targets of names the symbol table knows |
| `RootSet.CieRelRequestsExact` | gc_sections.cc:126-127 | one CIE requests exactly the sections its relocations' symbols lie in; fragment and unresolved symbols request nothing |
| `RootSet.CieRequestsExact` | gc_sections.cc:125-127 | one file's CIEs request exactly the sections behind their relocations |
| `RootSet.CieRootsExact` | gc_sections.cc:124-128 | every file's CIEs request exactly the sections behind their relocations |
| `RootSet.RootRequestsExact` | gc_sections.cc:90-128 | the root requests are exactly the init/fini and note sections, exported symbols' targets, the `--entry`/`--undefined` symbols' targets, and CIE relocation sections |
| `FragmentSpec.NonallocInExact` | gc_sections.cc:170-172 | one file's loop keeps exactly its listed fragments with a non-`SHF_ALLOC` output section |
| `FragmentSpec.NonallocFragmentsExact` | gc_sections.cc:169-173 | all files' loops keep exactly the listed fragments with a non-`SHF_ALLOC` output section |
| `LinkGraph.RelTarget` | gc_sections.cc:49 | `file.symbols[r_sym]` resolves to a target inside the arenas |
| `LinkGraph.RelSymbolInRange` | gc_sections.cc:49 | the symbol lookups of an ordinary relocation stay in range |
| `LinkGraph.ClosedGrown` | gc_sections.cc:36-67 | a section whose edges are all done stays so while flags only grow |
| `LinkGraph.ClosedEdge` | gc_sections.cc:42-67 | an edge of a visited-and-closed section leads to a dead or visited section |
| `LinkGraph.ClosedFrag` | gc_sections.cc:36-56 | every fragment a closed section refers to, directly or through a symbol, is alive |
| `LinkGraph.SlotsInStep` | gc_sections.cc:150-151 | walking one more slot of a file adds exactly the section it holds, which was not met before |
| `LinkGraph.SectionsOfFilesStep` | gc_sections.cc:149-150 | walking one more file adds exactly its sections, disjoint from the earlier files' |
| `LinkGraph.SectionsOfFilesAll` | gc_sections.cc:91-92 | walking every slot of every file meets every section |
| `Reachability.ReachableRoot` | gc_sections.cc:138-139 | every root is reachable |
| `Reachability.ReachableStep` | gc_sections.cc:42-67 | an edge from a reachable section into an alive section not visited beforehand leads to a reachable section |
| `Reachability.ReachableShape` | gc_sections.cc:58 | a reachable section is a root or was alive and not visited beforehand |
| `Reachability.PathInClosedSet` | gc_sections.cc:133-141 | a path stays inside any set that holds the roots and is closed under edges |
| `Reachability.ReachableLeast` | gc_sections.cc:133-141 | reachability is the least set holding the roots and closed under edges |
| `MarkProof.MarkStep` | gc_sections.cc:26 | marking an unvisited section keeps the mark invariant, and the section is new to the worklist and the finished set |
| `MarkProof.FragStep` | gc_sections.cc:37 | setting a referenced fragment alive keeps the mark invariant |
| `MarkProof.PushStep` | gc_sections.cc:45-46 | marking an edge target and feeding it keeps the invariant and is a step `visit` may take |
| `MarkProof.InlineStep` | gc_sections.cc:63-64 | an inline nested `visit` composes with the steps of the outer one |
| `MarkProof.FinishStep` | gc_sections.cc:29-68 | a closed visited section joins the finished set with the invariant kept |
| `MarkProof.MarkLoopInit` | gc_sections.cc:138 | the feeder holding the root list satisfies the loop invariant |
| `MarkProof.MarkLoopPop` | gc_sections.cc:138-139 | the head of the feeder is visited, reachable, not finished and not repeated |
| `MarkProof.MarkLoopStep` | gc_sections.cc:138-140 | one turn of the loop keeps its invariant and newly visits a section or shortens the feeder |
| `MarkProof.MarkLoopReached` | gc_sections.cc:133-141 | with the feeder empty, every reachable section is finished |
| `MarkProof.MarkLoopVisited` | gc_sections.cc:133-141 | with the feeder empty, a section is visited iff it was before or is reachable |
| `MarkProof.MarkLoopFrags` | gc_sections.cc:36-56 | with the feeder empty, a fragment is alive iff it was before or a reachable section refers to it |
| `MarkProof.MarkLoopClosed` | gc_sections.cc:42-67 | with the feeder empty, every alive edge target of a reachable section is visited |
| `SweepSpec.SweptCompose` | gc_sections.cc:149-160 | sweeping two disjoint section sets in turn sweeps their union, and the kill counts add |
| `SweepSpec.ReportedAppend` | gc_sections.cc:154-155 | the logs of two disjoint sets of kills, concatenated, log their union once each |
| `SweepSpec.SweepInvStep` | gc_sections.cc:149-160 | extending a sweep by a disjoint set of sections extends its kills, count and log |
| `SweepSpec.SweepInvAll` | gc_sections.cc:143-161 | once every section is swept, a section stays alive iff it was alive and visited, and the count is the number of garbage sections |
| `SweepSpec.SweepSlotStep` | gc_sections.cc:150-158 | sweeping slot `k` of a file extends the sweep of its first `k` slots |
| `SweepSpec.SweepFileStep` | gc_sections.cc:149-159 | sweeping a whole file extends the sweep of the files before it |
| `GcSpec.KilledExactly` | gc_sections.cc:176-185 | a section is killed iff it was alive, unvisited, `SHF_ALLOC`, not requested as a root and not reachable from the roots |
| `GcSpec.NonallocKept` | gc_sections.cc:100-101 | a non-`SHF_ALLOC` section is never killed |
| `GcSpec.RequestedKept` | gc_sections.cc:76-79 | a requested section is never killed |
| `GcSpec.GcRootSectionKept` | gc_sections.cc:103-104 | init/fini and note sections are never killed |
| `GcSpec.NamedSectionKept` | gc_sections.cc:115-119 | the section of the `--entry` symbol or of an `--undefined` symbol is never killed |
| `GcSpec.ExportedSectionKept` | gc_sections.cc:108-113 | the section of an exported symbol is never killed |
| `GcSpec.ReachableTargetsKept` | gc_sections.cc:58-66 | an alive edge target of a reachable section survives |
| `GcSpec.NoGarbageLeft` | gc_sections.cc:153 | every survivor is visited, so a second sweep would find nothing |
| `GcSpec.CollectedIdempotent` | gc_sections.cc:176-185 | running the whole pass a second time kills nothing more |
| `GcSpec.RootsCollected` | gc_sections.cc:70-131 | the root list of `collect_root_set` holds exactly `CollectedRoots` |
| `GcSpec.VisitedCollected` | gc_sections.cc:90-106 | the visited flags `collect_root_set` leaves are `CollectedVisited` |
| `GcSpec.PhasesCompose` | gc_sections.cc:176-185 | the four phases composed give `Collected`, and the pass kills exactly the sweep's garbage |
| `GcSpec.UnreferencedKilled` | gc_sections.cc:42-67 | an alive, unvisited `SHF_ALLOC` section that is not a root and that no ordinary relocation and no FDE relocation past the first points at is killed |
| `Scenarios.Small` | gc_sections.cc:70-131 | the five-section example link is well formed |
| `Scenarios.SmallRequests` | gc_sections.cc:90-119 | in that link the roots requested are exactly the `--entry` section and the `--undefined` section; the missing `--undefined` name and the non-`SHF_ALLOC` `.debug_info` request nothing |
| `Scenarios.SmallKilled` | gc_sections.cc:176-185 | the pass removes exactly `.text.dead` from that link |
| `Scenarios.SmallAlive` | gc_sections.cc:143-161 | after the pass every section but `.text.dead` is still alive, `.debug_info` included |
| `Scenarios.SmallFragments` | gc_sections.cc:36-37 | both fragments end alive: the `SHF_ALLOC` one because a visited section refers to it, the other because its output section is not `SHF_ALLOC` |
| `Scenarios.WithFde` | gc_sections.cc:39-46 | the three-section example link with one FDE is well formed |
| `Scenarios.WithFdeEdges` | gc_sections.cc:42-46 | the only edge of that link is from the function to the section of the FDE's second relocation; the first (CIE backlink) relocation gives none |
| `Scenarios.WithFdeKilled` | gc_sections.cc:42-46 | the pass removes exactly the section only the FDE's first relocation points at |

## Left out

- TBB parallelism (`parallel_for_each`, `parallel_do`, the feeder's work
  stealing, `concurrent_vector`) and the atomicity of `exchange`: each
  parallel loop is a sequential loop, the feeder a worklist. The result
  does not depend on visit order, and `Mark` is proved for any depth limit.
- `Timer`: it only measures time.
- The `SyncOut` line "removing unused section": I/O. It is modelled as the
  id of the section appended to the returned list `removed`.
- `Symbol::intern`, `InputSection::kill`, ELF header parsing and the object
  file loader are not part of this model. `intern` is a partial map from
  names to symbols and `kill` sets `is_alive` to false.
- The `ELF64LE` template instantiation: the model is not parameterised by
  the target.
- The `assert(isec->is_visited)` at the head of `visit` is a precondition
  of `Visit`.
- A symbol with both `frag` and `input_section` set: the model's `Target`
  holds one of the two. Where mold tests `frag` first (gc_sections.cc:53-58
  and 83-86) a `Frag` target behaves as mold does. FDE relocations
  (gc_sections.cc:44) and CIE relocations (gc_sections.cc:127) read only
  `input_section`, so for such a symbol mold marks the section there while
  the model, holding `Frag`, does nothing.
