# Verified models of the harness's repository tooling

This project models the algorithmic scripts that build, check, publish and measure the harness
repository, and proves what they are for. Each module follows one script, or one part of it:
objects that change in place are classes, loops are methods proved against a specification, and
pure code is functions with lemmas.

**Package order** (`Digraph`, `TarjanInvariant`, `PackageOrder`, `PackageGraph`). `topoSort` places
ready layers and, when nothing is ready, one sink cycle found by Tarjan's algorithm. The traversal
keeps its index, low-link and stack state in an object; its components are proved to be exactly the
strongly connected components. The order is also specified on the graph alone, without traversal or
input order, and the code is proved to produce it. The errors "lost its active component", "lost an
indexed node" and "could not order" are unreachable: the first two are preconditions that every call
discharges, the third would need a stuck graph, which does not exist.

**Coverage partitions** (`LptBound`, `PartitionHeap`, `CoveragePartitions`, `PartitionPlan`). Files go
heaviest first into the lightest bucket of an array heap. The heap refines a linear scan, files are
conserved down to the include lists, and the heaviest partition obeys Graham's bound against every
other partitioning. Weights are exact reals.

**Config types** (`ConfigTypes`, `ConfigPaths`, `ConfigBranches`, `ConfigOnce`, `ConfigMembers`,
`ConfigReadings`, `PathSyntax`, `TypeResolution`, `PasteClosure`). The three-valued path lookup is compared with three independent
readings of the declarations. By spelling, a path is present or absent inductively, and every answer
is justified (`ConfigPaths`). A second walk that keeps one `seen` set for each branch decides every
such path and shows what the shared set costs (`ConfigBranches`), and when a path meets a declaration
again is said of the declarations alone (`ConfigOnce`). By the names that members really have, with
quotes, methods, accessors, index signatures and merged interfaces (`ConfigMembers`), the answers are
true exactly under conditions on the declarations (`ConfigReadings`). The paste worklist reports no
violation exactly when the closure of the config type is unambiguous.

**Protocols** (`WorkerPool`, `Publication`). A worker pool is a state machine whose steps run from one
await to the next, over values some of which may be `undefined`; a method that resumes workers in
arbitrary order is proved against it. Publication is a step machine over the registry; the publishing
method, killed after any number of steps, is proved to do what the machine does, and the machine is
studied over any number of crashes and restarts.

**Dates, framing and text** (`ArchiveDate`, `ArchiveManifest`, `Decimal`, `ClientDigest`, `GitBatch`,
`Splice`, `LinkDestination`, `CommonMarkLink`, `Whitespace`, `CommentVisibility`, `CommentOffsets`). Link
destinations are defined twice, as the scan takes them and as CommonMark 0.31.2 reads them, and so are
the places of comments, as computed from HTML nodes and as they stand in the source. `Sorting` states
JavaScript's stable sort; `JavaScript` and `Wrappers` hold shared notions.

## Where the code differs from what it says

- `lookupPath` says that anything it cannot see through is "unknown", never "missing"
  (`gen-config-catalog.ts:309-316`). A quoted member, a method, an accessor, a name under an index
  signature and a member of a merged interface are answered "missing"
  (`ConfigMembers.QuotedKeyIsMissing`, `ConfigMembers.BlindLiteralIsWrong`).
  `ConfigReadings.MissingByDeclarations` is the exact condition, `ConfigMembers.MissingWithoutHeritage`
  its form where only plain interfaces extend anything, `ConfigMembers.BaseSpellsTheMethod` why heritage
  is kept apart.
- It looks through every type operator: a path into `keyof A` is "found" (`ConfigMembers.KeyOfIsFound`).
  The exact condition is `ConfigReadings.FoundByDeclarations`, whose halves `ConfigReadings.FoundNeverWrong`
  and `ConfigReadings.OperandIsWrong` ask less.
- Its `seen` set is shared between branches, so a declaration met twice turns a present or an absent
  path into "unknown" (`ConfigBranches.PresentIsUnknown`, `ConfigBranches.AbsentIsUnknown`); nothing is
  lost where the path repeats no declaration (`ConfigOnce.OnceDecides`), and exactly when the walk agrees
  with the one that keeps a set for each branch (`ConfigBranches.SharedSetExact`).
- The guard of `lookupPath` counts the remaining steps, and an indexed access adds one, so the walk
  never ends on a self-indexed alias (`ConfigPaths.SelfIndexedNeverEnds`); it ends wherever indexed
  accesses lead down (`ConfigPaths.LookupEnds`).
- `resolveTypeName` has no guard at all; it overflows the stack exactly on endless import chains
  (`TypeResolution.NeverEndsExactly`), that is when the chain comes back within as many steps as there
  are files (`TypeResolution.EndlessExactly`).
- `validDate` refuses real dates of the years 0 to 99, because `Date.UTC` moves them
  (`ArchiveDate.ValidDateExact`).
- The entry package's `latest` is meant to move last. A manifest may carry `latest` as the release's
  own tag, and then it moves inside the loop: `Publication.LatestTooEarly` is the run,
  `Publication.LatestWaitsExactly` the exact condition.
- `mapConcurrent` with no job answers an empty list for any values, and `runAll` with no worker
  reports a missing result; both are part of the contracts. A value that is `undefined` ends its
  worker, so later values may never be worked on: `WorkerPool.OneJobStops` is an input,
  `WorkerPool.AllReachedExactly` the exact condition.
- The located link destination differs from the one CommonMark reads when a backslash stands last
  before a title, when non-ASCII whitespace stands in it, when it stands behind the prefix of a block
  quote, and when a bracket in a code span ends the label early (`CommonMarkLink.BackslashBeforeTitle`,
  `CommonMarkLink.NoBreakSpace`, `CommonMarkLink.QuoteMarkBefore`, `CommonMarkLink.BracketInCode`);
  `CommonMarkLink.DestinationExact` and `CommonMarkLink.AngleExact` give the exact conditions.
- `markdownProseLines` promises the lines outside of HTML comments. It computes their offsets from node
  values, which lack the prefixes of list items and block quotes, so a comment may end early
  (`CommentOffsets.ListedEndsEarly`); the exact condition is `CommentOffsets.OffsetsExact`, and for closed
  comments a test on the source (`CommentOffsets.StandsExact`). An empty comment `<!-->` with text behind
  it takes the text too (`CommentOffsets.TextBehindEmptyComment`, `CommentOffsets.EmptyCommentsExact`).

## Model

| member | source | states |
|---|---|---|
| Digraph.SinkCycleExists | deepseek-harness/scripts/package-graph.ts:72-88 | In every non-empty finite graph where each node has a dependency inside the graph, some cyclic component has no edge leaving it |
| Digraph.CyclicBySize | deepseek-harness/scripts/package-graph.ts:138-142 | The test "more than one member, or a self-dependency" holds exactly of the components that contain a cycle |
| TarjanInvariant.SegmentIsScc | deepseek-harness/scripts/package-graph.ts:119-132 | When low-link equals index, the stack from the node up is exactly its strongly connected component |
| TarjanInvariant.PopKeeps | deepseek-harness/scripts/package-graph.ts:119-132 | Emitting that component keeps the traversal invariant and closes the visit |
| TarjanInvariant.KeepKeeps | deepseek-harness/scripts/package-graph.ts:119-119 | A node whose low-link lies below its index may stay stacked: the invariant holds with its visit closed |
| TarjanInvariant.AfterVisit | deepseek-harness/scripts/package-graph.ts:112-114 | Joining the low-link of a dependency just visited keeps the low-link sound and the dependency scanned |
| TarjanInvariant.AfterStacked | deepseek-harness/scripts/package-graph.ts:115-117 | Joining the index of a stacked dependency keeps the low-link sound and the dependency scanned |
| TarjanInvariant.NothingStacked | deepseek-harness/scripts/package-graph.ts:135-137 | Between top-level visits the stack is empty and every indexed node lies in an emitted component |
| PackageGraph.Traversal.Pop | deepseek-harness/scripts/package-graph.ts:120-131 | Pops one package; its precondition, a non-empty stack, is the "lost its active component" error, discharged at every call |
| PackageGraph.Traversal.PopComponent | deepseek-harness/scripts/package-graph.ts:120-131 | Takes exactly the stack from the package up, top first, and leaves the rest |
| PackageGraph.Traversal.Enter | deepseek-harness/scripts/package-graph.ts:103-108 | Starts a visit: pushes the package with index and low-link, all other state kept |
| PackageGraph.Traversal.Lower | deepseek-harness/scripts/package-graph.ts:114-116 | Lowers one low-link and nothing else; the entry exists ("lost an indexed node" cannot happen) |
| PackageGraph.Traversal.ScanDependency | deepseek-harness/scripts/package-graph.ts:109-118 | One dependency, absent, new, stacked or finished: the scan invariant advances past it |
| PackageGraph.Traversal.Emit | deepseek-harness/scripts/package-graph.ts:120-132 | Moves the segment from the stack to the components |
| PackageGraph.Traversal.Leave | deepseek-harness/scripts/package-graph.ts:119-132 | Emits the component exactly when the package is its first visited member; either way the visit is closed |
| PackageGraph.Traversal.Visit | deepseek-harness/scripts/package-graph.ts:102-133 | A visit ends, keeps the invariant for the visits still open, changes nothing already recorded, and leaves a low-link its caller may join; every map lookup on the way is present |
| PackageGraph.StronglyConnected | deepseek-harness/scripts/package-graph.ts:135-138 | The components collected before the filter are exactly the strongly connected components of the remaining graph, each once |
| PackageGraph.SinkTestExact | deepseek-harness/scripts/package-graph.ts:138-143 | The filter keeps a component exactly when it is cyclic and no edge to a remaining package leaves it |
| PackageGraph.SinkCycles | deepseek-harness/scripts/package-graph.ts:94-144 | The result lists exactly the sink cycles of the remaining graph |
| PackageGraph.FirstCycleIsLeast | deepseek-harness/scripts/package-graph.ts:77-79 | The cycle chosen by the two sorts begins with the least member of all listed cycles |
| PackageGraph.ChosenCycleIsNextBlock | deepseek-harness/scripts/package-graph.ts:76-82 | When nothing is ready a cycle exists ("could not order" is unreachable) and the chosen one, sorted, is the block an order on the graph alone prescribes |
| PackageGraph.ReadyPackages | deepseek-harness/scripts/package-graph.ts:73-75 | Lists exactly the remaining packages all of whose dependencies are placed |
| PackageGraph.NextPackages | deepseek-harness/scripts/package-graph.ts:73-82 | The packages placed next are the next block of the specified order, sorted |
| PackageGraph.Place | deepseek-harness/scripts/package-graph.ts:83-87 | Moves the ready packages from the remaining ones to the output and to the placed set |
| PackageGraph.PlaceNext | deepseek-harness/scripts/package-graph.ts:72-88 | One round extends the output by the next block and strictly grows the placed set |
| PackageGraph.PlaceAll | deepseek-harness/scripts/package-graph.ts:69-89 | The loop ends with the order specified on the graph |
| PackageGraph.TopoSort | deepseek-harness/scripts/package-graph.ts:60-90 | Fails exactly when some dependency is missing, naming the first in list order; otherwise answers the specified order, block by block: all ready packages or the sink cycle of the package that stands before all others on sink cycles, each block by the first position of its group in the listed order, unlisted groups last and by collated name, then by short name |
| PackageGraph.OrderedIsLayered | deepseek-harness/scripts/package-graph.ts:72-88 | The specified order in those terms, without the comparator |
| PackageGraph.OrderedIsDependencyFirst | deepseek-harness/scripts/package-graph.ts:27-34 | The order holds each package once, dependencies before dependants outside cycles, cycles contiguous; a true topological order when acyclic |
| PackageGraph.OrderIndependent | deepseek-harness/scripts/package-graph.ts:60-90 | Permuting packages of distinct names changes neither acceptance nor output |
| PackageGraph.ByNameIgnoresOrder | deepseek-harness/scripts/package-graph.ts:61-61 | The map by short name depends on the set of packages only |
| PackageGraph.LastWins | deepseek-harness/scripts/package-graph.ts:61-61 | Of several packages with one short name the map holds the last |
| PackageOrder.ComparatorExact | deepseek-harness/scripts/package-graph.ts:152-158 | `comparePackages` is negative exactly when the group of the first package is listed before the other, or both are unlisted and it collates first, or the groups are the same and the short name collates first; zero exactly for the same group and short name |
| PackageOrder.ComparatorIsTotal | deepseek-harness/scripts/package-graph.ts:152-158 | It is a total order that ties only packages of one short name |
| PackageOrder.NeverStuck | deepseek-harness/scripts/package-graph.ts:72-81 | While packages remain and none is ready, some sink cycle remains |
| PackageOrder.NextBlock | deepseek-harness/scripts/package-graph.ts:72-82 | The next block is non-empty and made of unplaced packages |
| PackageOrder.BlockIsSinkCycle | deepseek-harness/scripts/package-graph.ts:76-82 | A block that is not a ready layer is one sink cycle |
| PackageOrder.OrderComplete | deepseek-harness/scripts/package-graph.ts:69-89 | Exactly the unplaced packages appear, each once |
| PackageOrder.DependenciesFirst | deepseek-harness/scripts/package-graph.ts:72-88 | Each dependency is placed, earlier, or mutually dependent with its dependant |
| PackageOrder.CyclesContiguous | deepseek-harness/scripts/package-graph.ts:72-88 | What stands between two mutually dependent packages depends mutually on them |
| PackageOrder.OrderIsDependencyFirst | deepseek-harness/scripts/package-graph.ts:60-90 | All of this for the whole order of a graph |
| PackageOrder.OrderIsLayered | deepseek-harness/scripts/package-graph.ts:72-88 | The order of a graph by any strict order on packages: ready layers and first sink cycles, each in ascending order |
| LptBound.GreedyBelowAverage | deepseek-harness/scripts/coverage-partitions.ts:310-318 | The bucket a file goes to weighs at most the average so far |
| LptBound.SharedBucket | deepseek-harness/scripts/coverage-partitions.ts:297-320 | With at most two of the first j + 1 items per bucket, one of the first 2m - j shares its bucket |
| LptBound.LightBucket | deepseek-harness/scripts/coverage-partitions.ts:310-318 | While fewer than 2m files are placed, the lightest bucket weighs at most one of the last j - m + 1 of the first m files |
| LptBound.LargeItemWithin | deepseek-harness/scripts/coverage-partitions.ts:297-320 | A last file heavier than a third of the optimum leaves its bucket within the optimum |
| LptBound.LptWithinFourThirds | deepseek-harness/scripts/coverage-partitions.ts:289-320 | Heaviest-first into the lightest bucket: 3m times any bucket is at most (4m - 1) times what any assignment needs |
| PartitionHeap.SiftDown | deepseek-harness/scripts/coverage-partitions.ts:322-351 | Ends, turns a heap that may be out of order at one position only into a heap of the same indices, and moves the entry along its least children, the left one on ties |
| PartitionHeap.RootIsLeast | deepseek-harness/scripts/coverage-partitions.ts:307-313 | The root is a bucket that a linear scan by (sum, count) would also find least |
| PartitionHeap.RootGrew | deepseek-harness/scripts/coverage-partitions.ts:315-317 | When only the root bucket grew, the heap is out of order at the root only |
| CoveragePartitions.WeightedDescends | deepseek-harness/scripts/coverage-partitions.ts:303-305 | The sorted files are the inventory, heaviest first |
| CoveragePartitions.WeightedOrder | deepseek-harness/scripts/coverage-partitions.ts:303-305 | Of two files the earlier weighs more, or the same and collates no later; a file without a record weighs one |
| CoveragePartitions.LeastIsGreedy | deepseek-harness/scripts/coverage-partitions.ts:364-371 | Least by weight and count is in particular least by weight |
| CoveragePartitions.ChoicesAreLeanest | deepseek-harness/scripts/coverage-partitions.ts:307-317 | The choices are exactly those where each file goes to a bucket of the least sum at that moment, and among those to one with the fewest files |
| CoveragePartitions.Distribute | deepseek-harness/scripts/coverage-partitions.ts:306-318 | Each file lands in a bucket that is least at that moment; sums, files and heap agree after every placement; given a partition, neither internal error occurs |
| CoveragePartitions.AssignWeightedPartitions | deepseek-harness/scripts/coverage-partitions.ts:297-320 | Fails exactly when there are files and no partition; otherwise the lists are a least-bucket schedule of the sorted files, the one the heap comes to |
| PartitionPlan.ScheduledKeepsFiles | deepseek-harness/scripts/coverage-partitions.ts:297-320 | The partitions together hold each file exactly as often as the inventory |
| PartitionPlan.SumIsWeight | deepseek-harness/scripts/coverage-partitions.ts:373-376 | The running sum of a bucket is the partition weight of its files |
| PartitionPlan.PartitioningAsAssignment | deepseek-harness/scripts/coverage-partitions.ts:297-320 | Any partitioning of the files is an assignment with the same bucket weights, so the bound is against all of them |
| PartitionPlan.ScheduledWithinFourThirds | deepseek-harness/scripts/coverage-partitions.ts:289-320 | No partition weighs more than (4m - 1)/3m of what any other partitioning into m lists needs |
| PartitionPlan.EmptyIffScarce | deepseek-harness/scripts/coverage-partitions.ts:481-494 | With weights that are not negative, a partition is empty exactly when there are fewer files than partitions |
| PartitionPlan.FlattenSort | deepseek-harness/scripts/coverage-partitions.ts:530-530 | Reordering the partitions loses no file |
| Sorting.SortIsStable | deepseek-harness/scripts/coverage-partitions.ts:530-530 | Partitions of one weight keep their order, as `sort` does with any elements that tie |
| PartitionPlan.HeaviestListsLead | deepseek-harness/scripts/coverage-partitions.ts:530-530 | Heavier partitions come first, and partitions of one weight keep their order |
| PartitionPlan.IncludesSplit | deepseek-harness/scripts/coverage-partitions.ts:388-393 | The two include lists of a partition together are its files |
| PartitionPlan.PlanKeepsFiles | deepseek-harness/scripts/coverage-partitions.ts:388-393 | Over all partitions and projects every file is included exactly as often as it was assigned |
| PartitionPlan.FindEmpty | deepseek-harness/scripts/coverage-partitions.ts:486-494 | Finds the first empty partition if there is one |
| PartitionPlan.AssignFiles | deepseek-harness/scripts/coverage-partitions.ts:481-532 | Heaviest partition first, every file once, near-optimal; below two partitions the count is refused, otherwise a refusal names the first empty partition of the schedule, exactly with fewer files than partitions, and then it is the number of files unless weights are zero |
| PartitionPlan.AssignedPromises | deepseek-harness/scripts/coverage-partitions.ts:530-530 | The same of every least-bucket schedule |
| PartitionPlan.PlanPartitions | deepseek-harness/scripts/coverage-partitions.ts:452-454 | The written include lists hold every file of the inventory exactly once, in the project it belongs to; the errors are those of the assignment |
| ConfigTypes.FindExportedExact | deepseek-harness/scripts/gen-config-catalog.ts:254-278 | In any world: a hit ends a chain of re-exports from the asked file, cyclic files or not, a break ends one in a file that cannot be loaded, and the search misses exactly when no chain ends in either; so it finds a declaration exactly when a chain ends in one only where no chain comes to a file that cannot be loaded |
| ConfigTypes.FoundIsChain | deepseek-harness/scripts/gen-config-catalog.ts:254-278 | A hit, or a file that cannot be loaded, is the end of a chain from the asked file |
| ConfigTypes.LookForExact | deepseek-harness/scripts/gen-config-catalog.ts:261-271 | `export *` offers every name as it is, a list the source of its first element of that name |
| ConfigTypes.DirectAgrees | deepseek-harness/scripts/gen-config-catalog.ts:254-278 | The search with one shared set answers what trying every way in order answers: the first re-export along which the name is found or breaks wins |
| ConfigTypes.DeclForTypeNameExact | deepseek-harness/scripts/gen-config-catalog.ts:283-304 | A type name comes to its first declaration in the file; else, imported, to what the exports of the file it is imported from make of the imported name; else it is out of reach |
| ConfigPaths.PresentOrAbsent | deepseek-harness/scripts/gen-config-catalog.ts:317-402 | The two inductive readings of a path by spelling, present and absent, exclude each other |
| ConfigPaths.FirstPropertyIsFirst | deepseek-harness/scripts/gen-config-catalog.ts:335-343 | A step of a path is looked up at the first property that is spelled like it |
| ConfigPaths.TypeSound | deepseek-harness/scripts/gen-config-catalog.ts:361-402 | An answer on any type node, with any shared `seen` set, is justified by the two readings |
| ConfigPaths.DeclarationSound | deepseek-harness/scripts/gen-config-catalog.ts:317-361 | An answer on any declaration, with any shared `seen` set, is justified by the two readings |
| ConfigPaths.LookupEnds | deepseek-harness/scripts/gen-config-catalog.ts:317-326 | The walk ends on all declarations, cyclic ones included, where literal indexed accesses lead down an order of the declarations; without such accesses always |
| ConfigPaths.AllowanceIrrelevant | deepseek-harness/scripts/gen-config-catalog.ts:381-387 | Every allowance that lets the walk end, in an answer or at a file that cannot be loaded, gives the same outcome |
| ConfigPaths.SelfIndexedNeverEnds | deepseek-harness/scripts/gen-config-catalog.ts:381-387 | On a self-indexed alias the walk never ends, because the path grows and the guard never repeats |
| ConfigBranches.NothingAgain | deepseek-harness/scripts/gen-config-catalog.ts:322-326 | A walk that meets no key of the `seen` set twice decides the path: "found" exactly on present, "missing" exactly on absent paths |
| ConfigBranches.BranchesDecide | deepseek-harness/scripts/gen-config-catalog.ts:322-326 | A walk with one `seen` set for each branch finds exactly the present and misses exactly the absent paths |
| ConfigBranches.SharedSetExact | deepseek-harness/scripts/gen-config-catalog.ts:322-326 | The shared set never changes an answer but into "unknown", and leaves it exactly when it still decides every present and every absent path |
| ConfigBranches.SharedSetExactly | deepseek-harness/scripts/gen-config-catalog.ts:317-326 | The same without asking that the walks end, where names load and indexed accesses lead down |
| ConfigOnce.AgainExactly | deepseek-harness/scripts/gen-config-catalog.ts:322-326 | A walk meets a key of its `seen` set again exactly when the path comes to a declaration twice with as many steps left, on one branch or on two: a condition on the declarations and the path |
| ConfigOnce.OnceDecides | deepseek-harness/scripts/gen-config-catalog.ts:317-326 | Where a path does not, the walk ends and decides it, if names load and indexed accesses lead down |
| ConfigBranches.PresentIsUnknown | deepseek-harness/scripts/gen-config-catalog.ts:371-377 | `type U = A / A`: a present path is answered "unknown" through the shared set |
| ConfigBranches.AbsentIsUnknown | deepseek-harness/scripts/gen-config-catalog.ts:368-370 | `type V = A & A`: an absent path is answered "unknown" through the shared set |
| ConfigReadings.AnswersByDeclarations | deepseek-harness/scripts/gen-config-catalog.ts:309-316 | "found", and likewise "missing", is never wrong by the real names of members, on any declaration or type in one, for any path and `seen` set, if and only if no path reads differently by spelling and by names at a doubtful node; where such paths repeat no declaration |
| ConfigReadings.ReadRight | deepseek-harness/scripts/gen-config-catalog.ts:309-316 | One half of it on all declarations: without such paths no answer is wrong |
| ConfigReadings.FoundByDeclarations | deepseek-harness/scripts/gen-config-catalog.ts:335-380 | On declarations that spell no name in two ways and where only interfaces of plain properties extend anything: "found" is never wrong if and only if no operand of `keyof` or `unique` has a path and no property is spelled like a name that nothing has; where operands repeat no declaration |
| ConfigReadings.FoundNeverWrong | deepseek-harness/scripts/gen-config-catalog.ts:335-380 | One half of it also where operands repeat declarations |
| ConfigReadings.OperandIsWrong | deepseek-harness/scripts/gen-config-catalog.ts:380-380 | On all declarations: "found" is wrong as soon as an operand of `keyof` or `unique` has a path that repeats no declaration |
| ConfigReadings.MissingByDeclarations | deepseek-harness/scripts/gen-config-catalog.ts:335-365 | With any heritage: "missing" is never wrong if and only if no type literal has a name that no property spells, and no interface has one with a declared path that its bases lack; where such paths repeat no declaration |
| ConfigReadings.BlindHeirIsWrong | deepseek-harness/scripts/gen-config-catalog.ts:345-360 | "missing" is wrong where an interface has a name only by a method, accessor, quoted or index member and all bases lack it |
| ConfigMembers.MissingWithoutHeritage | deepseek-harness/scripts/gen-config-catalog.ts:335-361 | Where only interfaces of plain properties extend anything, exactly a name that no property spells makes "missing" wrong, merged interfaces included, also where files cannot be loaded or paths repeat declarations |
| ConfigMembers.BlindLiteralIsWrong | deepseek-harness/scripts/gen-config-catalog.ts:335-365 | At a type literal a name carried only by a quoted, computed, method, accessor or index member is answered "missing" although declared, whatever was seen |
| ConfigMembers.BlindInterfaceIsWrong | deepseek-harness/scripts/gen-config-catalog.ts:335-360 | So it is at an interface that extends nothing |
| ConfigMembers.QuotedKeyIsMissing | deepseek-harness/scripts/gen-config-catalog.ts:335-343 | The quoted member `a-b` is answered "missing" |
| ConfigMembers.KeyOfIsFound | deepseek-harness/scripts/gen-config-catalog.ts:380-380 | A path into `keyof A` is answered "found" |
| ConfigMembers.BaseSpellsTheMethod | deepseek-harness/scripts/gen-config-catalog.ts:345-360 | A method that a base spells as a property is "found": behind heritage the list alone does not tell |
| PathSyntax.ParsePath | deepseek-harness/scripts/gen-config-catalog.ts:232-245 | Rendering the parsed steps gives back every string; the steps are canonical |
| PathSyntax.ParseSegment | deepseek-harness/scripts/gen-config-catalog.ts:234-243 | After one segment the steps are canonical and render as the path so far |
| PathSyntax.RenderInjective | deepseek-harness/scripts/gen-config-catalog.ts:232-245 | Canonical step lists with equal text are equal: the parse is the only reading |
| TypeResolution.NeverEndsExactly | deepseek-harness/scripts/gen-config-catalog.ts:146-171 | Name resolution fails to return exactly when the chain of local imports goes on for ever |
| TypeResolution.DeclaredExactly | deepseek-harness/scripts/gen-config-catalog.ts:133-171 | A name resolves to a declaration exactly when a chain of unaliased local imports, through files that do not declare it, ends in a file whose first declaration of the name that is |
| TypeResolution.ChainEndDecides | deepseek-harness/scripts/gen-config-catalog.ts:152-170 | Where the chain of imports ends, that file alone decides between a declaration, an import, each violation and an unreadable file |
| TypeResolution.CycleIsEndless | deepseek-harness/scripts/gen-config-catalog.ts:156-169 | A chain that comes back to a file never ends |
| TypeResolution.EndlessExactly | deepseek-harness/scripts/gen-config-catalog.ts:156-169 | The chain goes on for ever exactly when two of its first entries, one more than there are files, coincide |
| PasteClosure.TurnEffect | deepseek-harness/scripts/gen-config-catalog.ts:672-714 | One turn, record by record: reported exactly when something else is recorded under the name or a new paste lacks documentation; the queue gains exactly the mentions of a new paste, the pastes exactly that declaration; no other name is touched |
| PasteClosure.TurnAgain | deepseek-harness/scripts/gen-config-catalog.ts:672-714 | An item that was compatible changes nothing when it comes up again |
| PasteClosure.MentionedInOrder | deepseek-harness/scripts/gen-config-catalog.ts:710-713 | A pasted declaration queues the names it mentions, globals left out, in the order of their mention |
| PasteClosure.HandleInv | deepseek-harness/scripts/gen-config-catalog.ts:671-715 | Every turn keeps: all queued and recorded comes from the config type, no name is both pasted and imported, nothing handled is unsettled, nothing mentioned forgotten |
| PasteClosure.HandleConflict | deepseek-harness/scripts/gen-config-catalog.ts:674-705 | A violation is reported only when something reached is unknown, ambiguous, undocumented or an imported config type |
| PasteClosure.HandleEnds | deepseek-harness/scripts/gen-config-catalog.ts:671-715 | Each turn pastes a new name or shortens the queue |
| PasteClosure.CollectPastes | deepseek-harness/scripts/gen-config-catalog.ts:656-716 | The worklist ends; no violation exactly when everything reached is clean; then the config type comes first, names are distinct, every used name is pasted from its declaration or recorded as its one import, and nothing else is there |
| ArchiveDate.ValidDateExact | deepseek-harness/scripts/archived-agent-notes.ts:70-78 | Accepts exactly well-formed real Gregorian dates of the year 100 and later |
| ArchiveDate.AcceptedExactly | deepseek-harness/scripts/archived-agent-notes.ts:70-78 | Character by character: exactly the strings YYYY-MM-DD of a real Gregorian date of the year 100 or later |
| ArchiveDate.RealDateRoundTrips | deepseek-harness/scripts/archived-agent-notes.ts:76-77 | Year, month and day of a real date survive the day number of section 21.4.1 of ECMA-262 |
| ArchiveDate.ReadBackIsReal | deepseek-harness/scripts/archived-agent-notes.ts:76-77 | What is read back from any day number is a real date |
| ArchiveDate.ShortYearMoves | deepseek-harness/scripts/archived-agent-notes.ts:73-77 | A two-digit year lands in 1899 or later, so it never reads back as itself |
| ArchiveDate.YearLength | deepseek-harness/scripts/archived-agent-notes.ts:76-77 | The day numbers of two January firsts differ by the Gregorian length of the year |
| ArchiveDate.YearUnique | deepseek-harness/scripts/archived-agent-notes.ts:76-77 | A day number lies in one year only |
| ArchiveManifest.CheckSealed | deepseek-harness/scripts/archived-agent-notes.ts:178-182 | Reports exactly the sealed entries that are missing or changed |
| ArchiveManifest.Extend | deepseek-harness/scripts/archived-agent-notes.ts:172-190 | Keeps sealed entries, hashes the others, lists what it added, and is free of errors exactly when every sealed entry still has its content |
| ArchiveManifest.ErrorFreeIsExact | deepseek-harness/scripts/archived-agent-notes.ts:171-190 | Free of errors exactly when the resulting manifest is path to hash over the artifacts |
| ArchiveManifest.Again | deepseek-harness/scripts/archived-agent-notes.ts:171-190 | A repeat call adds and changes nothing |
| ArchiveManifest.Validate | deepseek-harness/scripts/archived-agent-notes.ts:56-68 | Reports exactly the missing and changed entries; none exactly when the current manifest extends the baseline |
| ArchiveManifest.AppendOnly | deepseek-harness/scripts/archived-agent-notes.ts:56-68 | Over any chain of extensions every later manifest extends every earlier one |
| ArchiveManifest.FirstSealingLasts | deepseek-harness/scripts/archived-agent-notes.ts:171-190 | Over any chain of extensions an entry stays as the first artifacts with its path sealed it, and there are no other entries |
| Publication.Registry.Publish | deepseek-harness/scripts/publish-npm-baseline.ts:634-639 | npm refuses an existing version; otherwise records integrity and tag |
| Publication.Registry.EnsureDistTag | deepseek-harness/scripts/publish-npm-baseline.ts:755-764 | Points the tag to the version unless it does so already |
| Publication.PublishRelease | deepseek-harness/scripts/publish-npm-baseline.ts:625-654 | Killed after any number of steps, the process has done exactly what that many steps of the step machine do |
| Publication.Verify | deepseek-harness/scripts/publish-npm-baseline.ts:656-696 | The checks, killed anywhere, are the checking steps of the machine and change nothing |
| Publication.StepKeeps | deepseek-harness/scripts/publish-npm-baseline.ts:630-653 | Every step keeps what was published, moves only own tags and only to this version, and establishes what its phase says |
| Publication.EveryMoment | deepseek-harness/scripts/publish-npm-baseline.ts:625-654 | At every moment of every run with crashes and restarts: no version lost, replaced or invented, no foreign tag moved, no command refused, `latest` of the entry waits, a return means everything is up |
| Publication.ReturnsExactly | deepseek-harness/scripts/publish-npm-baseline.ts:625-654 | After any crashes an undisturbed process returns exactly when the registry first met did not contradict the bundle and the entry package is in one of them |
| Publication.CompatibleLasts | deepseek-harness/scripts/publish-npm-baseline.ts:640-648 | No run makes a possible release impossible or the reverse |
| Publication.PublishAgain | deepseek-harness/scripts/publish-npm-baseline.ts:640-649 | Publishing a complete release again changes nothing at any moment |
| Publication.MismatchStops | deepseek-harness/scripts/publish-npm-baseline.ts:640-645 | After a mismatch no process ever returns or changes a version or tag of a package not listed before it |
| Publication.FirstClashStops | deepseek-harness/scripts/publish-npm-baseline.ts:640-645 | After any crashes a process left alone stops at the first package that is there with another integrity or none, and names it |
| Publication.NoEntryStops | deepseek-harness/scripts/publish-npm-baseline.ts:650-651 | Without such a package, one that cannot find the entry package stops when everything is up, and says so |
| Publication.LatestTooEarly | deepseek-harness/scripts/publish-npm-baseline.ts:630-651 | When the release's own tag is `latest` and packages follow the entry, a crash behind the entry leaves `latest` on a partial release |
| Publication.LatestWaitsExactly | deepseek-harness/scripts/publish-npm-baseline.ts:630-651 | `latest` of the entry waits on every registry under every crash exactly when the release's own tag is not `latest` or nothing follows the entry |
| Publication.VerifyExact | deepseek-harness/scripts/publish-npm-baseline.ts:656-696 | `verify` succeeds exactly when every package is present as recorded and tagged and the entry's `latest` points here |
| Publication.StepChecks | deepseek-harness/scripts/publish-npm-baseline.ts:652-653 | The checks at the end of a publication never fail |
| WorkerPool.ResumeInv | deepseek-harness/scripts/benchmark-next-package-dependency.ts:189-196 | Every step of every worker keeps: indices claimed once in order, each claimed value done, in flight, failed or `undefined`, no two workers on one index, as many workers stopped as `undefined` values were claimed |
| WorkerPool.EveryMoment | deepseek-harness/scripts/benchmark-next-package-dependency.ts:187-198 | In every interleaving at most `size` operations are in flight and the claims are 0, 1, 2, ... |
| WorkerPool.JobsEveryMoment | deepseek-harness/scripts/benchmark-next-package-dependency.ts:182-198 | In every interleaving of `mapConcurrent` at most `jobs` operations are in flight |
| WorkerPool.ResumeEnds | deepseek-harness/scripts/benchmark-next-package-dependency.ts:189-196 | Every step brings the end nearer |
| WorkerPool.RunsEnd | deepseek-harness/scripts/benchmark-next-package-dependency.ts:187-198 | No run is longer than three steps a value and one a worker |
| WorkerPool.SettledOutcome | deepseek-harness/scripts/benchmark-next-package-dependency.ts:187-198 | Once no worker can go on: nothing thrown exactly when the operation succeeds on every reached value, and then exactly those have a result, each its own |
| WorkerPool.AllReachedExactly | deepseek-harness/scripts/benchmark-next-package-dependency.ts:190-195 | Every defined value is reached exactly when fewer `undefined` values stand before the last one than there are workers |
| WorkerPool.ReachedByJobs | deepseek-harness/scripts/benchmark-next-package-dependency.ts:189-195 | Although there are no more workers than values, they reach exactly the defined values with fewer than `jobs` `undefined` ones before |
| WorkerPool.EveryValueReached | deepseek-harness/scripts/benchmark-next-package-dependency.ts:187-198 | Without `undefined` values one job reaches them all, and no job none |
| WorkerPool.OneJobStops | deepseek-harness/scripts/benchmark-next-package-dependency.ts:193-194 | One job, `[undefined, x]`: the second value never gets a result |
| WorkerPool.Shared.Continue | deepseek-harness/scripts/publint-all.ts:224-229 | The code of one worker between two awaits, in both pools |
| WorkerPool.Drive | deepseek-harness/scripts/benchmark-next-package-dependency.ts:187-197 | Any scheduling reaches a settled pool that keeps the invariant |
| WorkerPool.MapConcurrent | deepseek-harness/scripts/benchmark-next-package-dependency.ts:182-199 | Returns exactly when the operation succeeds on all defined values with fewer than `jobs` `undefined` ones before; then results[i] is there exactly for those and is the operation on values[i] |
| WorkerPool.RunAll | deepseek-harness/scripts/publint-all.ts:221-239 | The list of results in order; the missing-result error exactly with targets and no worker; an `undefined` target makes reading its path fail, at the first one |
| Splice.ApplyReplacements | deepseek-harness/scripts/project-doc-site.ts:197-201 | Splicing in descending start order equals one simultaneous substitution on the original, whatever the input order |
| Splice.OneMore | deepseek-harness/scripts/project-doc-site.ts:198-200 | One splice on a text whose later replacements are done is the substitution with one more |
| Splice.Untouched | deepseek-harness/scripts/project-doc-site.ts:198-200 | Before the first replacement the text stays |
| Splice.SkipCovered | deepseek-harness/scripts/project-doc-site.ts:198-200 | Inside a replaced range nothing of the original stays |
| Splice.OwnText | deepseek-harness/scripts/project-doc-site.ts:197-201 | Replacing every range by its own text changes nothing |
| LinkDestination.StopExact | deepseek-harness/scripts/markdown.ts:127-139 | The scan with depth and escapes stops exactly at the end of the text balanced as a grammar of plain, escaped and nested pieces |
| LinkDestination.Parse | deepseek-harness/scripts/markdown.ts:127-139 | What the scan passed is such a text |
| LinkDestination.ScanPast | deepseek-harness/scripts/markdown.ts:127-139 | The scan passes over every such text |
| LinkDestination.LabelEnd | deepseek-harness/scripts/markdown.ts:90-104 | The closing bracket of the first label, or none exactly when it does not close |
| LinkDestination.AngleEnd | deepseek-harness/scripts/markdown.ts:120-126 | The first unescaped closing angle bracket |
| LinkDestination.PlainEnd | deepseek-harness/scripts/markdown.ts:127-139 | Where a bare destination closes, or the end of the text |
| LinkDestination.SkipWhitespace | deepseek-harness/scripts/markdown.ts:84-88 | The first position without whitespace |
| LinkDestination.DestinationStart | deepseek-harness/scripts/markdown.ts:106-119 | Where the destination starts, the only place, with the error of the source when there is none |
| LinkDestination.DestinationRange | deepseek-harness/scripts/markdown.ts:106-140 | The range is the destination, the only one; each error exactly when the part it names is absent |
| LinkDestination.PlainEndsExact | deepseek-harness/scripts/markdown.ts:127-139 | A bare destination ends nowhere but where the scan stops |
| CommonMarkLink.OneDestination | deepseek-harness/scripts/markdown.ts:127-139 | By sections 2.4 and 6.3 of CommonMark 0.31.2 a text begins with at most one bare destination |
| CommonMarkLink.DestinationExact | deepseek-harness/scripts/markdown.ts:106-140 | For every link, image and definition with a bare destination by CommonMark, on the same line or the next one behind the prefix of its containers: the located range is that destination if and only if the brackets of the label match (of a definition they do), no quote mark stands before the destination, no non-ASCII whitespace stands outside its parentheses, unless right behind a backslash, and no backslash stands last before what follows |
| CommonMarkLink.AngleExact | deepseek-harness/scripts/markdown.ts:119-126 | Between angle brackets the located range is exactly the destination by CommonMark if and only if the brackets of the label match and no quote mark stands before it |
| CommonMarkLink.BackslashBeforeTitle | deepseek-harness/scripts/markdown.ts:130-130 | `[x](a\ "t")`: the destination ends at the backslash, the located range takes the title too |
| CommonMarkLink.NoBreakSpace | deepseek-harness/scripts/markdown.ts:135-137 | A no-break space belongs to the destination, the located range ends before it |
| CommonMarkLink.QuoteMarkBefore | deepseek-harness/scripts/markdown.ts:84-88 | In a block quote with the destination on the next line the located range is the quote mark |
| CommonMarkLink.BracketInCode | deepseek-harness/scripts/markdown.ts:90-104 | A bracket in a code span ends the located label: the link has no range |
| Whitespace.TrimLeaves | deepseek-harness/scripts/markdown.ts:247-247 | Trimming leaves something exactly when a character is no whitespace |
| CommentVisibility.CommentRanges | deepseek-harness/scripts/markdown.ts:205-216 | Lists the comments of an HTML node: opener to first closer or to the end, one after another, no opener outside |
| CommentVisibility.CommentsUnique | deepseek-harness/scripts/markdown.ts:205-216 | A text has only one such list |
| CommentVisibility.VisibleText | deepseek-harness/scripts/markdown.ts:237-248 | The cursor scan builds exactly the uncovered characters in order, for ranges in any order and overlapping |
| CommentVisibility.HasRenderedTextOutsideComments | deepseek-harness/scripts/markdown.ts:237-248 | Kept exactly without ranges or with an uncovered character that is no whitespace |
| CommentVisibility.LineStands | deepseek-harness/scripts/markdown.ts:219-232 | Line i of the split stands in the source at the accumulated offset |
| CommentVisibility.LineRanges | deepseek-harness/scripts/markdown.ts:222-231 | Column ranges cover of a line exactly what the comments cover; none exactly when no comment touches it, empty lines included |
| CommentVisibility.CollectComments | deepseek-harness/scripts/markdown.ts:204-216 | The comments of all HTML nodes in document order, each moved by the offset of its node |
| CommentVisibility.HtmlCommentRanges | deepseek-harness/scripts/markdown.ts:203-235 | For the comments computed from the HTML nodes, every line of the document has its column ranges |
| CommentVisibility.MarkdownProseLines | deepseek-harness/scripts/markdown.ts:255-271 | A line outside of code is kept exactly when no comment computed from the HTML nodes touches it or some character of it is neither whitespace nor at an offset in one |
| CommentOffsets.RangeExact | deepseek-harness/scripts/markdown.ts:208-213 | A computed range is where the comment stands in the source exactly when the containers took nothing from the value before its end |
| CommentOffsets.OffsetsExact | deepseek-harness/scripts/markdown.ts:203-216 | The computed comments of a document are those of the source if and only if that holds for every comment of every node |
| CommentOffsets.StandsExact | deepseek-harness/scripts/markdown.ts:208-213 | For a closed comment it holds exactly when the value up to its end stands in the source at the node |
| CommentOffsets.ListedEndsEarly | deepseek-harness/scripts/markdown.ts:208-213 | A comment over two lines of a list item ends two characters early, and its second line is kept |
| CommentOffsets.EmptyCommentsExact | deepseek-harness/scripts/markdown.ts:209-212 | The scan ends a comment where CommonMark does exactly unless it is `<!-->` or `<!--->` with text behind it |
| CommentOffsets.TextBehindEmptyComment | deepseek-harness/scripts/markdown.ts:209-212 | `<!--> x`: the scan takes the text behind the empty comment for a comment |
| Decimal.PrintThenValue | deepseek-harness/scripts/client-build-environment.ts:339-341 | Printing a length in decimal and reading it gives it back |
| Decimal.NoLeadingZero | deepseek-harness/scripts/client-build-environment.ts:339-341 | A printed number of several digits does not begin with zero |
| ClientDigest.FeedDigest | deepseek-harness/scripts/client-build-environment.ts:336-343 | The bytes fed to the hash are the framed stream of all artifacts |
| ClientDigest.StreamThenDecode | deepseek-harness/scripts/client-build-environment.ts:336-343 | The stream can be read back, whatever bytes paths and contents hold |
| ClientDigest.StreamInjective | deepseek-harness/scripts/client-build-environment.ts:336-343 | Different artifact lists feed different bytes |
| GitBatch.ReadGitFiles | deepseek-harness/scripts/benchmark-npm-resolution.ts:145-169 | The loop answers what reading the answers one after another gives, with the same errors |
| GitBatch.BatchRoundTrip | deepseek-harness/scripts/benchmark-npm-resolution.ts:152-167 | Over any sequence of answers: every content recovered and the output consumed, or the first unknown path reported |
| GitBatch.CutBlob | deepseek-harness/scripts/benchmark-npm-resolution.ts:150-164 | An output cut anywhere in a blob is refused: within the header for the missing header, behind it for the missing end |
| GitBatch.WrongEnd | deepseek-harness/scripts/benchmark-npm-resolution.ts:160-164 | A content without a line ending behind it is refused |
| GitBatch.InvalidSizeExactly | deepseek-harness/scripts/benchmark-npm-resolution.ts:154-158 | A header is refused for its size exactly when its third word reads as no number, a negative or an unsafe one |
| GitBatch.NumberRead | deepseek-harness/scripts/benchmark-npm-resolution.ts:155-155 | White space, a sign and digits read as that number, whatever follows the digits |
| GitBatch.NoNumberRead | deepseek-harness/scripts/benchmark-npm-resolution.ts:155-155 | Anything else reads as none |
| GitBatch.ContentsHold | deepseek-harness/scripts/benchmark-npm-resolution.ts:165-165 | The map holds for each path the content of its last occurrence |
| GitBatch.GitFilesRecovered | deepseek-harness/scripts/benchmark-npm-resolution.ts:145-169 | From what git answers for known paths every path's exact content is recovered |

## Left out

- Child processes, file systems, HTTP, terminals and signals: their results are parameters (a registry, a byte sequence, a set of packages, an inventory).
- The TypeScript compiler API, mdast, and JSON parsing: small datatypes and offsets stand for what they return; that mdast offsets of one document are in bounds and disjoint is assumed.
- SHA-1, SHA-256 and sha512 integrity: hashing is any function, and no collision freedom is claimed.
- Locale collation: `localeCompare` is any strict total order on strings; floating-point rounding and NaN weights: weights are exact reals.
- UTF-16: strings are sequences of characters, and byte streams are sequences of bytes; decoding bytes to text is not modelled.
- PackageGraph.TopoSort: its layered form takes a group order of at most 2^32 - 1 names, the most an array holds; packages sharing a short name are accepted and the last one wins, as in the source, but order independence is stated for distinct names only.
- PackageGraph.ByName: `Map` iteration order is modelled as insertion order of the keys.
- CoveragePartitions.Distribute: a bucket is a value stored in the bucket array, so aliasing of bucket objects outside that array is not captured.
- PartitionPlan.PlanPartitions: the mapping of backslashes to slashes in include patterns and the surrounding config text are not modelled.
- ConfigPaths.LookupEnds: the walk takes an allowance for indexed accesses, which alone can keep it from ending; every answer it gives is independent of the allowance.
- ConfigReadings.AnswersByDeclarations: a declared name means the types of the module; type parameters that shadow a declaration, index signatures for numbers or symbols only, classes merged with interfaces, interfaces continued in another module and unicode escapes in identifiers are not modelled.
- ConfigReadings.FoundByDeclarations: interfaces that extend something and also have names without a plain property are outside; `ConfigReadings.AnswersByDeclarations` covers them. A path on which an operand repeats a declaration may be "unknown", so the condition is exact without such paths only.
- ConfigReadings.MissingByDeclarations: the same about paths that repeat a declaration.
- ConfigTypes.FindExportedExact: a file that cannot be loaded ends the source with an exception, here the result `Broken`; the text of exceptions is not modelled.
- PasteClosure.CollectPastes: the text of a paste and the final sort of the references are not modelled; the names a declaration mentions and its undocumented fields are given with it, and two declarations never share a source pointer.
- ArchiveManifest.Extend: the order of reported errors and added paths is not modelled; manifests are maps, whereas on a plain object a path named like an inherited property (`constructor`) counts as sealed.
- ArchiveManifest.ErrorFreeIsExact: the same about inherited properties.
- ArchiveDate.ValidDateExact: times of day and time zones play no role in the check and are absent.
- Publication.EveryMoment: npm's own behaviour is reduced to versions and tags (a registry that also sets `latest` on a package's first version is not modelled), there is one writer, one bundle, and a published tarball gets its recorded integrity; confirming, pinging and reading the identity change nothing and are absent.
- WorkerPool.MapConcurrent: an operation is a function of its value and its result is never `undefined`; that a rejected pool settles its caller before its other workers stop is not captured.
- Splice.ApplyReplacements: resolving a link target to its new address is not modelled; two ranges starting at one offset do not occur.
- LinkDestination.DestinationRange: adding the node offset and reference-style lookups are not modelled.
- CommonMarkLink.DestinationExact: which texts CommonMark takes for a label (code spans, autolinks and raw HTML bind tighter) is not modelled, any text may stand there; which prefix the containers take from a line is given, as blanks and quote marks.
- CommentVisibility.MarkdownProseLines: which nodes are HTML or code, their offsets and their values are given.
- CommentOffsets.OffsetsExact: characters of a value are those of the source; a NUL replaced by the parser is not modelled.
- The remaining scripts (catalog templates, manifest lint rules, benchmark timing, release packing, documentation routes): data tables and one-branch checks that would add only easy members.
