# Verified models of the Meowcoin core

Models, in Dafny, of seven components of the Meowcoin node in which a fast or incremental
structure has to agree with something simple, or a protocol has to keep an invariant over
whole runs, and proofs that they do. `dafny verify dfyconfig.toml` checks everything.

| component | files | main results |
|---|---|---|
| Cluster linearization (`src/cluster_linearize.h`, `src/util/feefrac.*`) | `FeeFrac`, `DepGraph`, `Diagram`, `Compare`, `CompareChunks`, `Chunking`, `Improvement`, `Merge`, `Ancestors`, `Components`, `Reachability`, `DepGraphClass`, `Search`, `Finder`, `Linearize`, `Groups`, `PostTheory`, `PostTrees`, `PostGuarantees`, `PostLeaf`, `PostLinearize`, `FixLinearization` | `Linearize`, `MergeLinearizations` and `PostLinearize` never lower the feerate diagram; diagrams are compared correctly at every real size; the search is exact when it ends early, and does so within 2^n iterations; trees are linearized optimally; a replaced leaf does no harm |
| UTXO cache hierarchy (`src/coins.cpp`, `src/coins.h`) | `CoinList`, `CoinWalk`, `CoinCache`, `CoinViews`, `CoinStack`, `CoinRuns` | any growing and shrinking stack of caches refines a stack of plain maps over every run, in all views and answers; what the sanity check detects, exactly; no exception is reachable |
| Address manager (`src/addrman.cpp`) | `AddrTables`, `AddrSteps`, `AddrEffects`, `AddrMan`, `AddrCheck`, `AddrSelect`, `AddrHistory`, `AddrLaws`, `AddrRuns` | every run keeps all indexes, tables and counters in step, and statistics that are counted from its events; what the consistency check detects, exactly; a selection finds an entry whenever there is one |
| Check queue (`src/checkqueue.h`) | `CheckQueue` | in every interleaving `Complete` returns, with the outcome of the checks added since it returned last |
| Headers sync (`src/headerssync.cpp`) | `HeadersSync`, `HeadersCommitted` | what is released, and when, over every run, with 23 commitments on top; an honest peer succeeds, also if its chain grows meanwhile |
| Block index and work (`src/chain.cpp`, `src/arith_uint256.*`) | `SkipHeight`, `Chain`, `Integers`, `Limbs`, `ArithUint`, `ArithDivide`, `ArithCompact` | jumps end where single steps end, within the documented 110 steps up to height 2^18; limb arithmetic is integer arithmetic; the work of a block for every `nBits`; what the compact form keeps |
| Codecs and merge mining (`src/base58.cpp`, `src/auxpow.cpp`) | `Radix`, `Base58`, `Base58Codec`, `MerkleTree`, `AuxPow` | base58 is a bijection whose buffers always suffice; a proof that passes is for a leaf of its trees, or there is a collision; exactly which scripts commit to one aux block |

Code that updates things in place is modelled in place: the graph, chunkings, candidate
finders, caches, the address manager, the sync state and the chain are classes, the number
limbs, digit buffers, bucket tables, linearization spans and the linked lists of
`PostLinearize` are arrays. Threads of the check queue are a state machine whose steps are
the critical sections. `Options` and `Sets` hold what several components share.

## How the results hang together

*Feerate diagrams.* `Cross(p, slope)` is the height of a point above a line. One ordering
dominates another if above every line each prefix of the second is matched by a prefix of
the first. `Compare.DiagramTheorem` shows that this is the same as having a piecewise-linear
diagram that is nowhere below, at every real size. All improvement results go through one
lemma about moving a set to the front (`Improvement.MoveFront`), or, for `PostLinearize`,
through swapping adjacent groups (`Groupings.SwapDominates`) and duality
(`PostTheory.ReorderedDual`).

*Search.* A queue is complete if every candidate that beats the best so far is matched by one
that some work item can still reach. Pruning, splitting and jumping ahead keep it complete, so
an empty queue means that the best is optimal. An item with k undecided transactions is worth
2^k - 1 iterations; every split takes at least its own iteration off the worth of the queue.

*Caches.* The view of a level is a function of the database and the levels up to it. An entry
fits if its flags are true of the view below it; this is what every operation keeps.

*Address manager.* The state is a value (maps, list, tables) that the class represents. Every
private operation is an elementary change of that value; the effect of every public operation
is stated on it.

## Where the code and its documentation differ

- `SpendCoin` is documented to have no effect if the coin does not exist, and this holds. Yet
  it returns true if the cache has an entry of the spent coin.
- When `AddCoin` throws, the usage has already been reduced. It stays exact exactly if the
  script of the coin in the way has at most 36 bytes (`CoinCaches.UsageLost`); no run that
  respects the precondition of `AddCoin` gets there.
- `SanityCheck` does not notice a first list entry that points back to an entry outside the
  list, nor a wrong backward link of the sentinel of an empty list
  (`CoinCaches.ListChecksExact`, `CoinCaches.ListChecksMiss`).
- `GetReducedParents` is documented to be minimal unless the transaction is on a cycle. The
  result is minimal in that case as well, but on a cycle it is a single position. The
  remapping constructor relies on it, and therefore loses ancestors of every cycle other than
  an isolated pair (`DepGraphs.DepGraph.FromMapping`, `DepGraphs.ThreeCycle`).
- `CheckAddrman` does not notice an address in `mapAddr` without an entry, nor a missing
  network count if another network has a zero count (`AddrChecks.SoundSuffices`,
  `AddrChecks.AddressMissed`, `AddrChecks.CountMissed`).
- The merge-mining check claims to enforce a single chain merkle root also for scripts without
  the header. It does so exactly if at most one place among the first 21 can hold a root
  (`AuxPows.UniqueExactly`, `AuxPows.TwoHashes`).
- A failed attempt is meant to count at most once per success elsewhere. This needs attempts
  at times not before that success (`AddrEffects.CountedOnce`, `AddrEffects.CountedAgain`).
- `ResolveCollisions_` has a branch for a collision whose slot is empty. No run reaches it.

## Model

| member | source | states |
|---|---|---|
| `FeeRates.CrossTransitive` | src/util/feefrac.h:157-176 | comparing by cross-multiplication is a total preorder on non-empty values, strict wherever one of two steps is |
| `FeeRates.OrderOfQuotients` | src/util/feefrac.h:157-193 | for positive sizes, `>>` and `<<` order by the real quotient of fee and size, and `>` by that quotient and then by smaller size |
| `FeeRates.BetterTransitive` | src/util/feefrac.h:178-184 | the `>` order (higher feerate, then smaller size) is transitive |
| `Graphs.FeeRateSplit` | src/cluster_linearize.h:246-251 | the aggregate of a set is the sum over its part inside and its part outside any other set |
| `Diagrams.SumElems` | src/cluster_linearize.h:242-251 | an ordering and its set of elements have the same aggregate fee and size |
| `Diagrams.ChunksIsChunking` | src/cluster_linearize.h:395-412 | the absorbing loop splits any ordering into consecutive chunks of non-increasing feerate, none of which has a prefix of higher feerate than the whole chunk |
| `Diagrams.ChunkingUnique` | src/cluster_linearize.h:395-412 | an ordering has exactly one such chunking, so every way to arrive at one agrees |
| `Diagrams.PrefixBound` | src/cluster_linearize.h:476-481 | chunk 0 is the highest-feerate prefix: no prefix of a chunked ordering has a higher feerate than its first chunk |
| `Diagrams.BoundaryReaches` | src/cluster_linearize.h:395-412 | above every line, some chunk boundary is as high as any prefix of the ordering |
| `Compare.PointBelowDiagram` | src/util/feefrac.h:226-234 | no prefix of an ordering lies above its own feerate diagram |
| `Compare.DiagramTheorem` | src/util/feefrac.h:226-234 | one ordering dominates another (above every line, each prefix of the second is matched by one of the first) if and only if its piecewise-linear feerate diagram is nowhere below the other diagram, at every real size |
| `ChunkComparison.OnLine` | src/util/feefrac.h:226-234 | between the ends of two successive chunks, the diagram is the straight line |
| `ChunkComparison.SlopeTells` | src/util/feefrac.cpp:40-64 | comparing the slopes of AP and AB says on which side of AB the point P lies |
| `ChunkComparison.SweepStep` | src/util/feefrac.cpp:27-69 | between sizes at which no chunk of either diagram ends, one is above the other only if it is so at one of them |
| `ChunkComparison.ComparePoint` | src/util/feefrac.cpp:40-66 | says whether the first unprocessed point is above or below the other diagram, and marks as processed all that ends there |
| `ChunkComparison.CompareChunks` | src/util/feefrac.cpp:10-73 | for any two lists of chunks, also of different total size and with negative fees, the result says of each diagram whether it is nowhere below the other, at every real size |
| `Chunkings.ChunkLinearization` | src/cluster_linearize.h:395-412 | the feerates returned are those of the chunks of the linearization |
| `Chunkings.LinearizationChunking.constructor` | src/cluster_linearize.h:463-471 | initially all of the linearization remains, chunked |
| `Chunkings.LinearizationChunking.BuildChunks` | src/cluster_linearize.h:434-459 | chops a done prefix off without changing what remains, and fills in the chunks of what remains |
| `Chunkings.LinearizationChunking.AddSingleton` | src/cluster_linearize.h:449-457 | absorbing final chunks of lower feerate turns the chunks of an ordering into those of the ordering with one more transaction |
| `Chunkings.LinearizationChunking.NumChunksLeft` | src/cluster_linearize.h:474 | counts the chunks of a fresh chunking of the original ordering restricted to what remains; zero exactly if nothing remains |
| `Chunkings.LinearizationChunking.GetChunk` | src/cluster_linearize.h:477-481 | chunk n, skipped chunks included, is chunk n of that fresh chunking, with its exact set and feerate |
| `Chunkings.LinearizationChunking.MarkDone` | src/cluster_linearize.h:484-504 | after any removal, whether a chunk is skipped or all is rebuilt, the stored chunks are those of a fresh chunking of what remains |
| `Chunkings.FirstChunkRemoved` | src/cluster_linearize.h:489-497 | removing the first chunk from an ordering drops it from the chunking and leaves the other chunks alone |
| `Chunkings.SpanDone` | src/cluster_linearize.h:494-497 | dropping as many elements from the span as the first chunk has does not lose any remaining transaction |
| `Chunkings.LinearizationChunking.IntersectPrefixes` | src/cluster_linearize.h:506-539 | returns the shortest intersection of the set with a prefix of the remaining chunks whose feerate is not below that of the set |
| `Improvement.MoveFront` | src/cluster_linearize.h:506-514 | moving a safe set to the front, in any order, gives an ordering that dominates the old one |
| `Improvement.IntersectionSafe` | src/cluster_linearize.h:506-539 | what IntersectPrefixes returns is safe to move to the front if the feerate of the set is not below that of the first chunk |
| `Improvement.OwnChunkSafe` | src/cluster_linearize.h:506-514 | any part of the first chunk is safe to move to the front |
| `Improvement.OptimalStep` | src/cluster_linearize.h:735-736 | an optimal set can be joined to any closed set that rises above a line without falling back |
| `Improvement.OptimalSafe` | src/cluster_linearize.h:1095-1103 | a highest-feerate closed set is safe to move to the front of any topological ordering, so no intersection is needed |
| `Merging.SortedIsTopo` | src/cluster_linearize.h:309-323 | in an acyclic graph, sorting by the number of ancestors gives a topological order |
| `Merging.AppendTopo` | src/cluster_linearize.h:309-323 | appends exactly the selected transactions, sorted by ancestor count and position, and topologically |
| `Merging.LinearizationCompare` | src/cluster_linearize.h:1321-1326 | for linearizations of one graph, dominance is the same as having a diagram nowhere below |
| `Merging.DominatesStep` | src/cluster_linearize.h:506-514 | outputting a safe set keeps the output followed by the rest at least as good as the original ordering |
| `Merging.BestIntersectionSafe` | src/cluster_linearize.h:1343-1351 | the first chunk of the better remainder, intersected with prefixes of the other, is non-empty, closed and safe for both remainders |
| `Merging.PickBest` | src/cluster_linearize.h:1343-1351 | the set picked next is a non-empty closed part of what remains and safe to move to the front of either remainder |
| `Merging.MergeLinearizations` | src/cluster_linearize.h:1321-1361 | terminates with a topological permutation of the cluster whose diagram is nowhere below that of either input |
| `AncestorFinding.AncestorCandidateFinder.constructor` | src/cluster_linearize.h:566-590 | the feerate stored for every transaction is that of its ancestor set, although it is accumulated from that of an earlier ancestor |
| `AncestorFinding.AncestorCandidateFinder.MarkDone` | src/cluster_linearize.h:598-609 | the stored feerates stay those of the remaining ancestor sets |
| `AncestorFinding.AncestorCandidateFinder.FindCandidateSet` | src/cluster_linearize.h:628-641 | returns a remaining ancestor set, with its exact feerate, that no other remaining ancestor set beats; it is non-empty and closed |
| `Components.GetConnectedComponent` | src/cluster_linearize.h:263-279 | the result contains the transaction, is connected, and has no link to the rest of the set |
| `Components.FindConnectedComponent` | src/cluster_linearize.h:288-292 | returns the component of the lowest position of a non-empty set, and the empty set otherwise |
| `Components.ConnectedByWalks` | src/cluster_linearize.h:298-301 | a set cannot be divided into two parts without links exactly if every two members are joined by a walk of ancestor links inside it |
| `Components.IsConnected` | src/cluster_linearize.h:298-301 | true if and only if every two members are joined by a walk of ancestor links inside the subset |
| `Reachability.ExtendedClosure` | src/cluster_linearize.h:173-198 | adding dependencies to the closure of a set of edges gives the closure of the larger set of edges, with cycles included |
| `Reachability.SelfClosure` | src/cluster_linearize.h:173-198 | every graph is the closure of some set of edges, namely of its own relation, so that results about added edges apply to every graph |
| `Reachability.ExtendedValid` | src/cluster_linearize.h:173-198 | the extended relation is again a preorder whose descendant sets are the transpose of its ancestor sets |
| `DepGraphs.DepGraph.constructor` | src/cluster_linearize.h:67-68 | a new graph is empty |
| `DepGraphs.DepGraph.AddTransaction` | src/cluster_linearize.h:133-146 | the first free position gets an unconnected transaction, all others stay as they are |
| `DepGraphs.DepGraph.RemoveTransactions` | src/cluster_linearize.h:148-171 | exactly the restriction of the relation to the remaining positions: paths through removed positions survive |
| `DepGraphs.DepGraph.AddDependencies` | src/cluster_linearize.h:177-198 | for whatever set of edges the graph was the reflexive-transitive closure of, it is now the closure of that set and the new edges |
| `DepGraphs.GetReducedParents` | src/cluster_linearize.h:200-219 | on every graph the result regenerates the ancestors and no proper subset does; on an acyclic graph it is the least set that regenerates them |
| `DepGraphs.ReducedParentsMinimal` | src/cluster_linearize.h:200-219 | on an acyclic graph, the strict ancestors that are below no other strict ancestor regenerate all ancestors and belong to every set that does |
| `DepGraphs.ReducedIrredundant` | src/cluster_linearize.h:200-219 | of unrelated parents that regenerate the ancestors, none can be left out |
| `DepGraphs.DepGraph.FromMapping` | src/cluster_linearize.h:74-111 | positions and feerates are relabelled; the ancestor relation is relabelled too if and only if every cycle is a pair without other ancestors |
| `DepGraphs.CycleLost` | src/cluster_linearize.h:103-108 | the reduced parents of any other cycle do not lead back to all of its ancestors |
| `DepGraphs.ThreeCycle` | src/cluster_linearize.h:103-108 | the smallest graph whose relation the remapping loses |
| `DepGraphs.AcyclicRecoverable` | src/cluster_linearize.h:103-108 | no acyclic graph loses anything in the remapping |
| `Searching.PotBounds` | src/cluster_linearize.h:757-763 | a set compatible with a work item that beats the best so far does not beat the potential, although the potential ignores low-feerate transactions |
| `Searching.JumpAhead` | src/cluster_linearize.h:838-858 | joining a candidate with a closed part of the potential keeps it a candidate and does not lower its feerate |
| `Searching.PruneNoImprovement` | src/cluster_linearize.h:908-910 | an item without undecided transactions above the best cannot lead to something better |
| `Searching.PrunePotential` | src/cluster_linearize.h:911-913 | nor can one whose potential does not beat the best |
| `Searching.PruneFirst` | src/cluster_linearize.h:914-917 | nor can one with nothing included whose best transaction does not beat the best |
| `Searching.SplitCovers` | src/cluster_linearize.h:955-963 | every candidate of an item is a candidate of one of its two halves |
| `Searching.NewItemCovers` | src/cluster_linearize.h:838-889 | the item queued after the jump ahead reaches something as good as whatever the original item could reach |
| `Searching.Exhausted` | src/cluster_linearize.h:871-873 | an item whose whole potential was included can be dropped |
| `Searching.SplitCost` | src/cluster_linearize.h:955-963 | whatever the split, the halves of an item with k undecided transactions are together worth less than 2^k - 1 |
| `Searching.CountsOrder` | src/cluster_linearize.h:934-951 | comparing the larger and then the smaller part orders splits by the sum of the powers of two of their parts |
| `Searching.QueueFits` | src/cluster_linearize.h:982-991 | a queue that fits never exceeds the reserved capacity |
| `Searching.BestPart` | src/cluster_linearize.h:785-800 | of a set divided over the connected components, the part in some component is at least as good |
| `Searching.Search.constructor` | src/cluster_linearize.h:781-811 | the initial items, one per component, cover everything that beats the initial best; they are worth fewer than 2^n iterations for n transactions, and fit into the reserved queue |
| `Searching.Search.ShrinkImp` | src/cluster_linearize.h:805-811 | what stays in imp are all transactions that beat the best |
| `Searching.Search.ComputePot` | src/cluster_linearize.h:823-836 | extends the included set by undecided transactions that beat the growing whole, up to the first that does not |
| `Searching.Search.JumpAheadSet` | src/cluster_linearize.h:848-855 | the set reached is closed, lies between the included set and the potential, and has every transaction whose remaining ancestors are all in the potential |
| `Searching.Search.UpdateBest` | src/cluster_linearize.h:860-869 | the best becomes the given better candidate, and imp follows |
| `Searching.Search.AddItem` | src/cluster_linearize.h:813-890 | an item is queued or dropped so that everything better than the best that it could reach stays covered by the queue, and the best never gets worse |
| `Searching.Search.PickSplit` | src/cluster_linearize.h:919-953 | among the undecided ancestors of the first transaction, no other split leaves a smaller sum of 2^a + 2^b for a and b undecided transactions in the two parts |
| `Searching.Search.AddHalves` | src/cluster_linearize.h:955-963 | both halves together cover the item, and are worth fewer iterations than the item |
| `Searching.Search.Split` | src/cluster_linearize.h:892-967 | processing an item keeps its candidates covered, costs at most one iteration, and takes the iteration off what the queue is worth |
| `Searching.Search.ProcessAt` | src/cluster_linearize.h:993-1002 | taking any item out of the queue and splitting it keeps the queue complete, and within its capacity |
| `Searching.Search.Run` | src/cluster_linearize.h:969-1003 | the best never gets worse, and is a highest-feerate closed subset if iterations are left over; the iterations used are bounded by what the queue was worth, the sum of 2^k - 1 over items with k undecided transactions; the queue never outgrows its reserved capacity |
| `Finding.RelabelledOptimal` | src/cluster_linearize.h:712-714 | a set that is optimal in the graph sorted by feerate is optimal under its original positions |
| `Finding.RelabelledCandidate` | src/cluster_linearize.h:668-682 | candidates and their feerates are the same under sorted and original positions |
| `Finding.SortPositions` | src/cluster_linearize.h:697-707 | lists the used positions, each once, by decreasing feerate |
| `Finding.SearchCandidateFinder.constructor` | src/cluster_linearize.h:692-715 | the two position tables are inverse to each other, and the internal graph is the relabelled one, sorted |
| `Finding.SearchCandidateFinder.FindCandidateSet` | src/cluster_linearize.h:723-1009 | returns a non-empty closed subset of what remains that is at least as good as the one passed in; fewer than 2^n iterations are used for n remaining transactions; with fewer than max_iterations splits no closed subset has a higher feerate |
| `Finding.SearchCandidateFinder.MarkDone` | src/cluster_linearize.h:1011-1021 | the subset no longer remains |
| `Linearizing.InitialBest` | src/cluster_linearize.h:1070-1076 | the starting set is a candidate, beaten neither by the first chunk of the remaining old linearization nor by any remaining ancestor set |
| `Linearizing.SafeChoice` | src/cluster_linearize.h:1095-1103 | the set output next is safe for the remaining old linearization, and optimal if it was known to be |
| `Linearizing.FindNext` | src/cluster_linearize.h:1070-1103 | one round finds a safe candidate; without iterations for the fixed cost none are used, and otherwise that cost and at most half of the others; if there are at least 2^(n+1) + n^2 for n remaining transactions, the candidate is known to be optimal and enough are left for n - 1 |
| `Linearizing.EnoughForOne` | src/cluster_linearize.h:1080-1092 | half of enough iterations lets a search of n transactions end, and leaves enough for n - 1 |
| `Linearizing.MarkDone` | src/cluster_linearize.h:1108-1114 | both finders and the old chunking agree on what remains |
| `Linearizing.OutputNext` | src/cluster_linearize.h:1070-1114 | one round appends a safe set, keeps the finders in step, and keeps the output optimal if there were enough iterations |
| `Linearizing.OptimalAppend` | src/cluster_linearize.h:1080-1106 | appending a highest-feerate candidate to an optimal beginning gives an optimal beginning |
| `Linearizing.OptimalEnd` | src/cluster_linearize.h:1033-1036 | a complete output that is optimal so far has a diagram nowhere below that of any linearization |
| `Linearizing.Linearize` | src/cluster_linearize.h:1024-1118 | returns a topological permutation of the cluster whose diagram is nowhere below that of the old linearization; if the optimal flag is set, nowhere below that of any topological ordering; the flag is set whenever max_iterations is at least 2^(n+1) + 2 n^2 for n transactions; no iterations are used if they do not exceed the set-up cost of n^2 / 64, rounded up |
| `Groupings.SwapDominates` | src/cluster_linearize.h:1148-1158 | swapping two adjacent groups so that the one of higher feerate comes first is an improvement |
| `Groupings.OneChunk` | src/cluster_linearize.h:1148-1158 | two groups of increasing feerate form a single chunk |
| `Groupings.MergeMoving` | src/cluster_linearize.h:1267-1280 | merging the previous group into the current one keeps the order and the shape of the groups |
| `Groupings.SwapMoving` | src/cluster_linearize.h:1281-1292 | swapping with the previous group improves the order and keeps the other groups in place |
| `Groupings.SwapTopo` | src/cluster_linearize.h:1281-1292 | a swap without dependency between the groups keeps the order topological |
| `Groupings.ConnectedJoin` | src/cluster_linearize.h:1267-1280 | merging groups with a dependency between them gives a connected group |
| `PostTheory.GroupsAreChunks` | src/cluster_linearize.h:1148-1158 | groups in order of feerate are exactly the chunks of the ordering they form |
| `PostTheory.ReorderedDual` | src/cluster_linearize.h:1160-1164 | improving the reversed ordering under reversed dependencies and negated fees improves the ordering |
| `PostLinearizing.RepInsert` | src/cluster_linearize.h:1240-1251 | storing a transaction as a group of its own puts it at the end of the list of groups |
| `PostLinearizing.RepMerge` | src/cluster_linearize.h:1271-1280 | the link assignments of a merge concatenate two groups and leave all others alone |
| `PostLinearizing.RepSwap` | src/cluster_linearize.h:1283-1292 | the link assignments of a swap exchange two groups in the list |
| `PostLinearizing.InsertTransaction` | src/cluster_linearize.h:1240-1294 | one transaction merges with or moves past groups until the groups are in order again, over the linked lists |
| `PostLinearizing.WriteGroups` | src/cluster_linearize.h:1297-1317 | writes the groups back in order, or reversed, into exactly the span |
| `PostLinearizing.Pass` | src/cluster_linearize.h:1230-1317 | one pass in either direction reorders the linearization topologically into one at least as good, and leaves its groups in the lists |
| `PostLinearizing.PostLinearize` | src/cluster_linearize.h:1120-1319 | the result is a topological permutation with a diagram nowhere below that of the input, every chunk of it is connected, the groups left by the last pass are its chunks, and for a tree it is nowhere below any topological ordering |
| `PostTheory.InsertState` | src/cluster_linearize.h:1148-1158 | every insertion keeps groups that are connected chunks of a topological ordering not worse than the reference |
| `PostTrees.ChildChain` | src/cluster_linearize.h:1128-1129 | if no transaction has more than one reduced child, the descendants of every transaction form a chain |
| `PostTrees.RootsJoin` | src/cluster_linearize.h:1154-1155 | then a group that another one depends on lies entirely below the last transaction of that group |
| `PostTrees.MergeSolid` | src/cluster_linearize.h:1154-1155 | then no closed part of a merged group has a higher feerate than the group, nor one without the root than what was merged |
| `PostTrees.GroupsSolid` | src/cluster_linearize.h:1143-1145 | then after every forward pass each group is a subtree without a better part |
| `PostTrees.PartsReach` | src/cluster_linearize.h:1143-1145 | above every line, the parts of such groups reach no higher than a chunk boundary |
| `PostTrees.ForwardOptimal` | src/cluster_linearize.h:1143-1145 | if no transaction has more than one child, a forward pass gives an ordering that dominates every topological ordering |
| `PostGuarantees.PassKeeps` | src/cluster_linearize.h:1139-1141 | no pass lowers the feerate diagram |
| `PostGuarantees.BackwardOptimal` | src/cluster_linearize.h:1143-1145 | if no transaction has more than one parent, a backward pass gives an ordering that dominates every topological ordering |
| `PostGuarantees.TreeOptimal` | src/cluster_linearize.h:1128-1129 | for both shapes of tree, the result of both passes has a diagram nowhere below that of any topological ordering |
| `PostLeaf.InsertWith` | src/cluster_linearize.h:1148-1158 | what does not depend on a group of its own is inserted as if that group were not there |
| `PostLeaf.LeafApart` | src/cluster_linearize.h:1146 | a leaf that is inserted first ends up among the groups that the others form without it |
| `PostLeaf.LeafState` | src/cluster_linearize.h:1146 | once the transactions behind the old place of the leaf are inserted, the ordering is as good as with the leaf at that place |
| `PostLeaf.BackwardLeaf` | src/cluster_linearize.h:1146 | a backward pass makes up for moving a leaf to the end, wherever it was |
| `PostLeaf.RaisedDiagram` | src/cluster_linearize.h:1130-1134 | paying a higher fee for the same size does not lower the diagram anywhere |
| `PostLeaf.LeafReplaced` | src/cluster_linearize.h:1130-1134 | moving a leaf to the end, with the same or a higher fee, and postlinearizing gives a diagram nowhere below that of the original linearization |
| `Fixing.PlacedTopo` | src/cluster_linearize.h:1376-1391 | moving an element behind its last ancestor keeps the elements after it topological |
| `Fixing.PlacedKeepsOrder` | src/cluster_linearize.h:1376-1391 | elements after the last ancestor stay behind the element in their order: it moves no further than it must |
| `Fixing.FixedTopo` | src/cluster_linearize.h:1363-1393 | the fixed ordering is a topological permutation of the given one |
| `Fixing.FixedIdentity` | src/cluster_linearize.h:1363-1364 | a topological ordering is left as it is |
| `Fixing.Place` | src/cluster_linearize.h:1373-1391 | the in-place shifting moves one element to its place and shifts the ones before it |
| `Fixing.FixLinearization` | src/cluster_linearize.h:1363-1393 | the span becomes the fixed ordering: topological, a permutation of the input, unchanged if it was topological |
| `CoinLists.AttachLinked` | src/coins.h:135-143 | the link assignments of AddFlags append an entry to the circular list of flagged entries |
| `CoinLists.DetachLinked` | src/coins.h:180-187 | the link assignments of SetClean take an entry out of that list |
| `CoinLists.FlaggingLinked` | src/coins.h:142-143 | adding flags to a listed entry keeps the list |
| `CoinLists.RemoveLinked` | src/coins.h:172-175 | removing an unlisted entry from the map keeps the list |
| `CoinLists.PutLinked` | src/coins.cpp:196-203 | creating an unflagged entry or changing a coin keeps the list |
| `CoinLists.UsageOfScript` | src/memusage.h:52-64 | a script of at most 36 bytes takes no memory of its own, a longer one the multiple of 16 that leaves at least 16 and fewer than 32 bytes to spare |
| `CoinLists.Spendable` | src/script/script.h:588-591 | a script can be spent exactly if it has at most 10000 bytes and does not start with 0x6a |
| `CoinCaches.CoinsViewCache.constructor` | src/coins.cpp:37-42 | a new cache is empty and its list holds only the sentinel |
| `CoinCaches.CoinsViewCache.AddFlags` | src/coins.h:132-144 | the entry has the old and the new flags and is in the list of flagged entries, once |
| `CoinCaches.CoinsViewCache.SetClean` | src/coins.h:180-187 | the entry has no flags and has left the list |
| `CoinCaches.CoinsViewCache.Erase` | src/coins.h:172-175 | the entry has left the list and the map |
| `CoinCaches.CoinsViewCache.Install` | src/coins.cpp:48-64 | the fetched coin is cached without flags and counted |
| `CoinCaches.CoinsViewCache.AddCoin` | src/coins.cpp:72-111 | throws exactly if an unspent coin would be overwritten without permission; the usage is exact afterwards exactly if nothing was thrown or the script of that coin has at most 36 bytes; without exception exactly one entry is new, dirty, and fresh if it was unmodified and no overwrite is possible |
| `CoinCaches.UsageLost` | src/coins.cpp:72-91 | after the exception for a coin with a script of 37 bytes, the usage is too low |
| `CoinCaches.CoinsViewCache.SpendCached` | src/coins.cpp:133-149 | a fresh entry disappears, another one becomes spent and dirty, and the coin is handed out |
| `CoinCaches.CoinsViewCache.Uncache` | src/coins.cpp:274-287 | only an unmodified entry disappears |
| `CoinCaches.CoinsViewCache.Receive` | src/coins.cpp:186-244 | throws exactly if a fresh entry meets an unspent one; otherwise the parent takes over the coin, or forgets an entry that was fresh in it |
| `CoinCaches.CoinsViewCache.Begin` | src/coins.h:280 | the cursor starts at the first entry of the list |
| `CoinCaches.CoinsViewCache.NextAndMaybeErase` | src/coins.h:284-298 | the cursor moves along the original list; without later erasure, the entry passed is erased if spent and unflagged otherwise |
| `CoinCaches.CoinsViewCache.CheckEntries` | src/coins.cpp:319-332 | recomputes the usage and counts the flagged entries; fails exactly for a flag combination that cannot occur |
| `CoinCaches.CoinsViewCache.CheckList` | src/coins.cpp:334-343 | whatever the links are, the walk passes exactly if it comes back to the sentinel over flagged entries with matching links, and counts them |
| `CoinWalks.WalkGoesOn` | src/coins.cpp:334-343 | the walk is determined by the links: if any walk comes back, this one does, and over the same entries |
| `CoinWalks.WalkedOnce` | src/coins.cpp:334-343 | a walk that comes back passes no entry twice |
| `CoinCaches.ListChecksExact` | src/coins.cpp:333-344 | the flagged entries form one circular list exactly if the walk passes over as many entries as are flagged, no other entry carries links, and the sentinel of an empty list points back to itself |
| `CoinCaches.ListChecksMiss` | src/coins.cpp:333-344 | the walk alone is not enough: it passes although the first entry points back to an entry outside the list |
| `CoinCaches.CoinsViewCache.SanityCheck` | src/coins.cpp:315-346 | whatever the cache holds, all assertions pass exactly if only possible flag combinations occur, the usage is exact and the walk along the list passes; every valid cache passes |
| `CoinViews.FetchKeeps` | src/coins.cpp:48-64 | fetching a coin into any level changes no view |
| `CoinViews.UncacheKeeps` | src/coins.cpp:274-287 | uncaching an unmodified entry at any level changes no view |
| `CoinViews.AddUpdates` | src/coins.cpp:72-111 | adding a coin at the top changes exactly one outpoint of the top view |
| `CoinViews.SpendUpdates` | src/coins.cpp:130-150 | spending at the top changes exactly one outpoint of the top view |
| `CoinViews.ReceivedOk` | src/coins.cpp:186-244 | an entry that fits the view of the parent is never found misapplied, and fits again after it was merged |
| `CoinViews.TopReceives` | src/coins.cpp:186-244 | merging one entry into the parent changes exactly that outpoint of the view of the parent |
| `CoinViews.WrittenAll` | src/coins.cpp:183-272 | once all flagged entries are written, the base shows what the cache showed, whichever of its entries the cache keeps |
| `CoinStacks.CoinsViewStack.constructor` | src/coins.cpp:37-42 | empty caches show the database |
| `CoinStacks.CoinsViewStack.Of` | src/coins.cpp:37-42 | caches in use whose entries fit the views below them form a valid stack |
| `CoinStacks.CoinsViewStack.Push` | src/coins.cpp:37-42 | a new cache on top is empty, and the stack is valid again |
| `CoinStacks.CoinsViewStack.Pop` | src/coins.h:362-388 | giving up the top cache leaves the rest valid and unchanged |
| `CoinStacks.CoinsViewStack.GetCoin` | src/coins.cpp:66-70 | returns the coin visible at that level; no view changes, although caches fill up; for a coin that is not visible nothing changes |
| `CoinStacks.CoinsViewStack.FetchCoin` | src/coins.cpp:48-64 | finds an entry exactly if the cache has one or the coin is unspent; no view changes; for a coin that is not visible nothing changes |
| `CoinStacks.CoinsViewStack.Uncache` | src/coins.cpp:274-287 | no view changes |
| `CoinStacks.CoinsViewStack.AddCoin` | src/coins.cpp:72-111 | the logic_error is unreachable, and exactly the one outpoint of the top view changes; the coin is visible afterwards unless its script starts with 0x6a or exceeds 10000 bytes, and then no cache changes |
| `CoinStacks.CoinsViewStack.SpendCoin` | src/coins.cpp:130-150 | exactly the one outpoint of the top view becomes spent, and the visible coin is handed out; spending a coin that is not visible changes no cache; the result says whether there was an entry or an unspent coin |
| `CoinStacks.SpentStays` | src/coins.cpp:133-149 | a spent entry of a valid stack is dirty and not fresh, so that spending it again has no effect |
| `CoinStacks.CoinsViewStack.WriteNext` | src/coins.cpp:184-245 | each step of the write-back loop hands over one entry of the original list |
| `CoinStacks.CoinsViewStack.BatchWrite` | src/coins.cpp:183-248 | all flagged entries are handed over, and the logic_error is unreachable |
| `CoinStacks.CoinsViewStack.Flush` | src/coins.cpp:250-259 | the base then shows what the cache showed, the cache is empty, and no other view changes |
| `CoinStacks.CoinsViewStack.Sync` | src/coins.cpp:261-272 | as Flush, but the cache keeps its unspent entries without flags; the check that the list is empty passes |
| `CoinStacks.StackPossible` | src/coins.cpp:323-325 | only the five allowed flag combinations occur at any level |
| `CoinCaches.PossibleExactly` | src/coins.cpp:323-325 | a spent entry is dirty or fresh but not both, and an unspent one is fresh only if it is dirty |
| `CoinCaches.AddThenSpend` | src/coins.h:159-167 | a coin added and spent in one cache leaves no entry exactly if there was a fresh one, or if an overwrite is ruled out and there was none that is dirty; a new coin leaves the cache as it was |
| `CoinCaches.ReceiveThenSpend` | src/coins.cpp:183-245 | a new coin handed to the parent and spent afterwards leaves the parent as it was |
| `CoinRuns.Step` | src/coins.cpp:37-287 | one call does and answers what a stack of plain maps says, at the database and at every cache, keeps every invariant and throws nothing |
| `CoinRuns.Run` | src/coins.cpp:37-287 | every run of calls, in which caches also come and go, refines the stack of plain maps at every level and in every answer, and throws nothing |
| `CoinRuns.SanityCheckAll` | src/coins.cpp:315-346 | after every run, all assertions of SanityCheck hold at every level |
| `AddrManagers.AddrMan.constructor` | src/addrman.cpp:109-125 | a new manager is empty and consistent, without collisions, and the time of its last success is 1 |
| `AddrManagers.AddrMan.Find` | src/addrman.cpp:401-414 | finds the entry of an address exactly if there is one |
| `AddrManagers.AddrMan.Create` | src/addrman.cpp:416-430 | the new entry has the next id and is in all indexes |
| `AddrManagers.AddrMan.SwapRandom` | src/addrman.cpp:432-454 | both assertions hold, and exactly the two positions are exchanged |
| `AddrManagers.AddrMan.Delete` | src/addrman.cpp:456-471 | the assertions hold, and the entry is gone from all indexes and counters |
| `AddrManagers.AddrMan.ClearNew` | src/addrman.cpp:473-489 | the slot is free, and its occupant has one reference less or is gone |
| `AddrManagers.AddrMan.RemoveFromNew` | src/addrman.cpp:495-511 | the circular search finds every occurrence, so that the assertion that none is left holds |
| `AddrManagers.AddrMan.Evict` | src/addrman.cpp:517-541 | the occupant of a tried slot is back in the new table at its own place, with one reference |
| `AddrManagers.AddrMan.MakeTried` | src/addrman.cpp:491-548 | the entry is in its tried slot and nowhere in the new table, an evicted one is back in the new table, and only what that displaced may be lost; all three assertions hold |
| `AddrSteps.EvictTally` | src/addrman.cpp:517-541 | the counters stay exact through an eviction |
| `AddrManagers.AddrMan.Good` | src/addrman.cpp:626-679 | moves an address exactly if it is known, not tried, and not blocked by an occupant to be tested first; records the collision if there is room; otherwise only notes the success; no tried slot becomes empty |
| `AddrManagers.MadeTried` | src/addrman.cpp:655-679 | moving an entry to the tried table keeps all recorded collisions with occupied slots |
| `AddrManagers.AddrMan.Attempt` | src/addrman.cpp:693-711 | only the statistics of the entry change: a failure is counted exactly if asked for and none was counted since the last success of any entry |
| `AddrEffects.CountedOnce` | src/addrman.cpp:706-710 | in any series of attempts without a new success elsewhere, exactly one failure counts, or none if one was counted since that success or none is to be counted; provided that no attempt is at a time before that success |
| `AddrEffects.CountedAgain` | src/addrman.cpp:706-710 | after a failure that counted, another one counts exactly if the first was at a time before the last success |
| `AddrManagers.AddrMan.Connected` | src/addrman.cpp:877-894 | only the time of the entry changes, and only if it is more than 20 minutes old |
| `AddrManagers.AddrMan.SetServices` | src/addrman.cpp:896-909 | only the services of the entry change |
| `AddrManagers.AddrMan.Refresh` | src/addrman.cpp:565-590 | the time is updated only if it is old enough, and services are added; says whether the entry may get another slot |
| `AddrManagers.AddrMan.Settle` | src/addrman.cpp:597-622 | takes the slot exactly if it is free or its occupant can be displaced; an entry left without any slot is deleted |
| `AddrManagers.CreateDeleted` | src/addrman.cpp:591-619 | deleting the entry that was created last restores the state, so that a rejected new address leaves no trace |
| `AddrManagers.AddrMan.AddSingle` | src/addrman.cpp:550-624 | inserted exactly under these conditions, then at the slot of its source bucket with only a displaced entry lost; otherwise at most the time and services of a known entry change |
| `AddrManagers.AddrMan.Resolve` | src/addrman.cpp:918-964 | the recorded collision is dropped, waits, or has the occupant replaced, according to the times of both entries; the branch for an empty slot is never taken |
| `AddrManagers.AddrMan.ResolveCollisions` | src/addrman.cpp:912-973 | every recorded collision is treated once, in increasing order and in the state the previous one left, and exactly those that wait stay recorded |
| `AddrManagers.AddrMan.SelectTriedCollision` | src/addrman.cpp:975-1001 | the slot of a recorded collision always holds a real entry, whose address and last try are returned; only a record of a vanished entry is dropped |
| `AddrManagers.AddrMan.GetAddr` | src/addrman.cpp:812-851 | different addresses of suitable entries, up to the limit; fewer only if all suitable ones are returned; only the shuffled list changes |
| `AddrEffects.ResolvedNext` | src/addrman.cpp:912-973 | treating one more collision extends the record of what was resolved, and the sets of those with each verdict |
| `AddrChecks.CheckEntries` | src/addrman.cpp:1077-1110 | fails exactly if an entry is wrong; otherwise collects exactly the tried and new entries and the counts per network |
| `AddrChecks.CheckTried` | src/addrman.cpp:1117-1132 | fails exactly if an occupant of the tried table is not where it belongs, and finds the tried entries that are missing from it |
| `AddrChecks.CheckNew` | src/addrman.cpp:1134-1147 | passes exactly if every occupant of the new table is where it belongs and none has more slots than references; what is left over are the missing references |
| `AddrChecks.CheckAddrman` | src/addrman.cpp:1063-1166 | returns 0 if and only if the entries, the tables, the reference counts, the list and the counters satisfy all that it tests and the key is not null |
| `AddrChecks.ValidSound` | src/addrman.cpp:1063-1166 | what every operation keeps implies all that the check tests |
| `AddrChecks.ValidPasses` | src/addrman.cpp:1048-1061 | between calls the check passes |
| `AddrChecks.SoundSuffices` | src/addrman.cpp:1149-1163 | a state that passes is fully consistent if and only if mapAddr holds no stale address and every network with entries has a count |
| `AddrChecks.AddressMissed` | src/addrman.cpp:1063-1166 | the check passes although mapAddr holds an address without an entry |
| `AddrChecks.CountMissed` | src/addrman.cpp:1154-1163 | the check passes although the only network with an entry has no count, if another one has a zero count |
| `AddrSelection.CountsFor` | src/addrman.cpp:719-734 | the counts per network say exactly whether there is a new and whether there is a tried entry of the networks asked for |
| `AddrSelection.AvailableCandidate` | src/addrman.cpp:752-781 | if the counters promise an entry, then some slot of that table holds one, so that the search can succeed |
| `AddrSelection.Round` | src/addrman.cpp:755-782 | one round finds the first suitable entry of the bucket from the initial position on, and none only if the bucket has none; the assertion that it exists holds |
| `AddrSelection.Select` | src/addrman.cpp:713-793 | returns nothing exactly if there is no entry of the networks and the table asked for; otherwise the search ends and returns one |
| `AddrRuns.Step` | src/addrman.cpp:1177-1260 | every public call keeps everything, no tried slot becomes empty, the statistics of every entry change as its event says, and the time of the last success changes exactly if the call succeeds for an entry |
| `AddrRuns.Run` | src/addrman.cpp:1048-1061 | over every run of public calls, with independent random choices at each, the consistency check passes before and after each call unless the key is null, no tried slot becomes empty, there are at most 81920 entries and 10 collisions, the time of the last success is that of the last Good or replacement, and the failures, the last success and the last counted attempt of every entry are those counted from the events |
| `AddrRuns.FromNew` | src/addrman.cpp:109-125 | the same from a new manager, whose last success counts as at time 1; as long as there is no success, every entry has one counted failure if any was to be counted, and none else |
| `AddrHistories.StandingExact` | src/addrman.cpp:626-711 | the statistics of an entry are those counted from the events since it was created: successes reset them, and a failure counts once per success of any entry |
| `AddrHistories.FirstFailure` | src/addrman.cpp:693-711 | before any success, the first failure to be counted always counts, and no other does |
| `AddrHistories.ResolvedAllCarries` | src/addrman.cpp:912-973 | resolving collisions resets exactly the statistics of the entries that replace an occupant |
| `AddrLaws.TerribleExactly` | src/addrman.cpp:69-92 | an entry seen lately is spared within a minute of a try, with fewer than three failures, with fewer than ten if it ever worked, and for a week after it worked; a minute after the last try all others are terrible |
| `AddrLaws.StaysTerrible` | src/addrman.cpp:69-92 | a terrible entry stays terrible until it is touched, unless its time was in the future |
| `AddrLaws.TerribleAfterSuccess` | src/addrman.cpp:69-92 | after a success, only the time an address was seen counts |
| `AddrLaws.TerribleAfterFailure` | src/addrman.cpp:69-92 | the third counted failure condemns an entry that never worked, the tenth one that worked more than a week ago |
| `AddrLaws.DisplacedExactly` | src/addrman.cpp:597-612 | which occupants of a slot give way, and which never do |
| `AddrLaws.AgedTime` | src/addrman.cpp:565-578 | hearing of an address again never lowers its time, and changes it only by more than an hour, or a day if it was not seen for a day |
| `AddrLaws.MetTime` | src/addrman.cpp:888-892 | a connection moves the time forward by more than twenty minutes or not at all |
| `AddrLaws.FirstHeardTime` | src/addrman.cpp:594-597 | a new address has no history, and the time it was announced less the penalty, or zero |
| `AddrLaws.JudgeExactly` | src/addrman.cpp:918-964 | an occupant that worked in the last four hours stays; otherwise it goes if it was tried in vain over a minute ago, or if it was not tried for four hours and the newcomer has waited for 40 minutes; else the collision waits |
| `AddrLaws.LimitGreatest` | src/addrman.cpp:814-824 | the limit is the greatest number that respects the number of entries, the percentage and the maximum |
| `AddrLaws.SizeBound` | src/addrman_impl.h:26-33 | slots are within 1024 and 256 buckets of 64, every entry is in one of the tables, at most eight times in the new one, and there are at most 81920 |
| `CheckQueues.BatchSize` | src/checkqueue.h:116-121 | a batch has at least one check and not more than are queued |
| `CheckQueues.BatchShare` | src/checkqueue.h:116-121 | a batch of more than one check is at most the maximum and an equal share of the queue, and cannot be larger by one |
| `CheckQueues.CleanUpResult` | src/checkqueue.h:83-96 | a result left over from an earlier batch is never taken for one of this round |
| `CheckQueues.StepKeeps` | src/checkqueue.h:72-189 | every critical section and every check run by any thread keeps the invariant |
| `CheckQueues.RunKeepsInv` | src/checkqueue.h:72-189 | the invariant holds in every state of every interleaving |
| `CheckQueues.RoundExact` | src/checkqueue.h:72-189 | in every state of every run, the checks added and run are those of the steps since Complete returned last |
| `CheckQueues.TodoExact` | src/checkqueue.h:58-63 | nTodo is the number of queued checks and of checks in batches; every check added by a step since the last return of Complete is queued, in a batch, or finished, as often as it was added |
| `CheckQueues.CompleteSound` | src/checkqueue.h:164-169 | every return of Complete in every run: without an error only if the checks run since the previous return are exactly those added since then and all passed, and otherwise with an error that one of these gave when it was run |
| `CheckQueues.MasterIsAwaited` | src/checkqueue.h:88-110 | if the master waits without having been notified, some worker still holds a batch |
| `CheckQueues.SomeUseful` | src/checkqueue.h:72-189 | while Complete runs, a useful step can be taken, without relying on a master that wakes up unasked |
| `CheckQueues.StepEffort` | src/checkqueue.h:72-189 | every useful step leaves less to do, and no step during Complete more |
| `CheckQueues.CompleteReturns` | src/checkqueue.h:164-169 | Complete returns: the number of useful steps that can be taken before it does is bounded by the work there was |
| `HeadersSyncs.CompressRoundTrip` | src/headerssync.h:23-71 | a compressed header gives back the full header, given the hash of its predecessor |
| `HeadersSyncs.Aligned` | src/headerssync.cpp:261-278 | the next stored commitment is the bit that the first phase saw at the same height, however many were consumed |
| `HeadersSyncs.Overrun` | src/headerssync.cpp:262-267 | without a commitment left at a commitment height, the second chain has outgrown the first |
| `HeadersSyncs.NextAccepted` | src/headerssync.cpp:220-283 | the second phase accepts one more header exactly if it links, its difficulty is permitted, and it matches the commitment unless the work is reached |
| `HeadersSyncs.HeadersSyncState.constructor` | src/headerssync.cpp:27-49 | starts in the first phase with nothing accepted |
| `HeadersSyncs.HeadersSyncState.Finalize` | src/headerssync.cpp:54-67 | ends the sync and changes nothing that was accepted |
| `HeadersSyncs.HeadersSyncState.ValidateAndProcessSingleHeader` | src/headerssync.cpp:181-218 | accepts exactly a header with a permitted difficulty that does not exceed the number of commitments |
| `HeadersSyncs.HeadersSyncState.ValidateAndStoreHeadersCommitments` | src/headerssync.cpp:143-179 | accepts exactly messages that extend the chain acceptably, and changes phase exactly when the work suffices |
| `HeadersSyncs.HeadersSyncState.ValidateAndStoreRedownloadedHeader` | src/headerssync.cpp:220-283 | accepts exactly headers that extend the redownloaded chain acceptably, and buffers them without loss |
| `HeadersSyncs.HeadersSyncState.CheckCommitment` | src/headerssync.cpp:255-275 | passes exactly if no commitment is due, or the bit is that of the first phase at the same height |
| `HeadersSyncs.HeadersSyncState.PopFront` | src/headerssync.cpp:294-296 | the header rebuilt from the buffer is the next one that was redownloaded |
| `HeadersSyncs.HeadersSyncState.PopHeadersReadyForAcceptance` | src/headerssync.cpp:285-299 | releases all headers once the work is reached, and otherwise all but the last REDOWNLOAD_BUFFER_SIZE |
| `HeadersSyncs.HeadersSyncState.ProcessNextHeaders` | src/headerssync.cpp:72-141 | says exactly when a message is accepted, when more is requested and when the sync ends, and exactly what is released; in the second phase for messages that are not continuous as well |
| `HeadersSyncs.NextOk` | src/headerssync.cpp:72-141 | every message, in every phase, keeps what was released a prefix of the redownloaded chain with enough headers on top, and that chain linked, permitted and matching |
| `HeadersSyncs.AfterOk` | src/headerssync.cpp:72-299 | over every run, what was released is an unchanged prefix of the redownloaded headers, which link from the start and match every commitment before the work is reached; each had enough headers on top, or the work was reached |
| `HeadersSyncs.AfterFed` | src/headerssync.cpp:72-299 | the headers accepted in the two phases are those of the messages of these phases, from the first on |
| `HeadersCommitted.OneInPeriod` | src/headerssync.cpp:199-205 | any 632 heights in a row contain exactly one commitment height |
| `HeadersCommitted.CommitmentsDense` | src/headerssync.cpp:181-218 | a chain of n headers has n / 632 commitments or one more |
| `HeadersCommitted.ReleasedCommitted` | src/headerssync.cpp:255-299 | over every run, as long as the work is not reached, each header released has 15009 redownloaded headers above it, with at least 23 commitments that are the bits of the first phase at the same heights |
| `HeadersSyncs.Run` | src/headerssync.cpp:72-299 | over every run, the sync hands out exactly the headers that are due |
| `HeadersSyncs.ExtensionMatched` | src/headerssync.cpp:244-275 | a chain matches all commitments taken from a part of it that has enough work |
| `HeadersSyncs.HonestRun` | src/headerssync.cpp:72-299 | a peer that serves an acceptable chain until it has enough work, and then the same chain again, possibly grown meanwhile, has a part with enough work accepted; the portions do not matter, and the last one of each phase need not be full |
| `Limbs.BitOrAdd` | src/arith_uint256.cpp:22-25 | where one number has only zeros in the bits of the other, or is addition |
| `ArithUints.Add` | src/arith_uint256.h:129-139 | limb-wise addition with carry is addition modulo the width |
| `ArithUints.Increment` | src/arith_uint256.h:167-174 | adds one modulo the width |
| `ArithUints.Complement` | src/arith_uint256.h:63-69 | the complement is the distance to the greatest number |
| `ArithUints.Negate` | src/arith_uint256.h:71-78 | complement and increment negate modulo the width |
| `ArithUints.Subtract` | src/arith_uint256.h:141-145 | adding the negation subtracts modulo the width |
| `ArithUints.CompareTo` | src/arith_uint256.cpp:101-111 | compares the numbers, by the highest different limb |
| `ArithUints.Bits` | src/arith_uint256.cpp:155-167 | the position of the highest one bit |
| `ArithUints.ShiftLeft` | src/arith_uint256.cpp:13-28 | multiplies by a power of two modulo the width, for every shift |
| `ArithUints.ShiftRight` | src/arith_uint256.cpp:30-45 | divides by a power of two, for every shift |
| `ArithDivision.Divide` | src/arith_uint256.cpp:75-98 | throws exactly for a zero divisor; otherwise shift-and-subtract computes the integer quotient, also of a number by itself |
| `ArithDivision.EqualTo` | src/arith_uint256.cpp:113-124 | compares with a 64-bit number |
| `ArithDivision.OverflowExact` | src/arith_uint256.cpp:187-191 | the three conditions on word and size are exactly that the target does not fit 256 bits |
| `ArithDivision.SetCompact` | src/arith_uint256.cpp:169-193 | decodes the target modulo 2^256, and says exactly when it is negative or overflows |
| `CompactTargets.GetCompact` | src/arith_uint256.cpp:195-216 | the result is the compact form of the number and the sign; both assertions hold |
| `CompactTargets.CompactKeeps` | src/arith_uint256.cpp:169-216 | decoding the compact form of a number gives the number with its low bits cleared: all of a small number is kept, and between 16 and 23 bits of any other |
| `CompactTargets.CompactUnique` | src/arith_uint256.cpp:195-216 | a number and a sign have only one compact form |
| `CompactTargets.CompactAgain` | src/arith_uint256.cpp:169-216 | encoding what was decoded gives the same compact form again |
| `ArithDivision.ProofFormula` | src/chain.cpp:134-138 | dividing the complement and adding one is dividing 2^256 by target plus one |
| `ArithDivision.GetBlockProof` | src/chain.cpp:126-139 | for every nBits, 2^256 divided by target plus one if the target is non-zero, non-negative and fits 256 bits, and 0 otherwise, in limbs |
| `Radix.EncodeSize` | src/base58.cpp:98 | 138/100 digits per byte, plus one, suffice for every length |
| `Radix.DecodeSize` | src/base58.cpp:53 | 733/1000 bytes per digit, plus one, suffice for every length |
| `Radix.SeventyOneDigits` | src/base58.cpp:53 | the block of digits on which the second estimate is nearly exact |
| `Radix.ToFrom` | src/base58.cpp:100-116 | digits without leading zeros are the digits of the number they denote |
| `Base58.CharRoundTrip` | src/base58.cpp:19-38 | the character of every digit maps back to the digit |
| `Base58.MapRoundTrip` | src/base58.cpp:19-38 | every accepted character is the character of its digit |
| `Base58.Alphabet` | src/base58.cpp:19-38 | the alphabet is in increasing order and consists of all letters and digits but 0, I, O and l |
| `Base58.Spaces` | src/util/strencodings.h:165-167 | spaces are the blank and the control characters from tab to carriage return |
| `Base58.RebaseInverse` | src/base58.cpp:89-127 | changing the base and back restores digits, leading zeros included |
| `Base58.DecodeEncode` | src/base58.cpp:40-127 | decoding an encoding gives the bytes back, for every byte string |
| `Base58.EncodeDecode` | src/base58.cpp:40-127 | encoding what was decoded gives the string back without its outer spaces |
| `Base58.MultiplyAdd` | src/base58.cpp:61-70 | the carry loop multiplies the number in the buffer and adds a digit, and the assertion that no carry is left holds |
| `Base58Codec.EncodeBase58` | src/base58.cpp:89-127 | the buffer algorithm computes the encoding |
| `Base58Codec.DecodeBase58` | src/base58.cpp:40-87 | succeeds exactly for valid strings whose bytes are within the limit, with these bytes |
| `MerkleTrees.CheckMerkleBranch` | src/auxpow.cpp:139-155 | computes the root over the branch, by the bits of the index: the root of every tree of which this is the branch of the leaf, and of no tree with another leaf there, unless there is a collision |
| `MerkleTrees.SameRoot` | src/auxpow.cpp:139-155 | index and root determine the leaf and the branch, or there is a collision of the pair hash on the two paths |
| `MerkleTrees.BranchOfTree` | src/auxpow.cpp:139-155 | the siblings of a leaf of a full tree, hashed level by level, lead to the root of the tree |
| `MerkleTrees.RootInTree` | src/auxpow.cpp:139-155 | a branch that leads to the root of a tree is that of its leaf at this position, or there is a collision |
| `AuxPows.WrapsAway` | src/auxpow.cpp:124-136 | 32-bit wrap-around does not change the expected index |
| `AuxPows.GetExpectedIndex` | src/auxpow.cpp:114-137 | the expected index computed without wrap-around |
| `AuxPows.SlotClash` | src/auxpow.cpp:116-123 | for one nonce, two chains get the same slot exactly if their ids agree modulo the size of the tree |
| `AuxPows.WordDigits` | src/auxpow.cpp:97-107 | the size and the nonce are read as 32-bit numbers, the lowest byte first |
| `AuxPows.Search` | src/auxpow.cpp:63-68 | finds the first occurrence, or the end |
| `AuxPows.CheckProof` | src/auxpow.cpp:32-112 | passes exactly under all conditions of the check; then the parent is of another chain if that is asked for, its first transaction is the given one, the script has at most one header, the root follows the header or is among the first 21 bytes, and the hash is the leaf of this chain in every tree with that root, or there is a collision |
| `AuxPows.HonestPasses` | src/auxpow.cpp:32-112 | a proof made from a tree of parent transactions, a tree of chain hashes and a script that announces it passes |
| `AuxPows.SamePlace` | src/auxpow.cpp:73-91 | two proofs for one script commit at the same place, if the script has the header or only one early place for a root |
| `AuxPows.Unique` | src/auxpow.cpp:32-112 | for such a script and one chain id, at most one aux block hash, branch and index can pass, or there is a collision on the two paths |
| `AuxPows.UniqueExactly` | src/auxpow.cpp:32-112 | at most one hash can pass for a script, whatever the pair hash, exactly if the script has the header or only one early place that holds the first occurrence of 32 bytes before a power of two |
| `AuxPows.TwoPlaces` | src/auxpow.cpp:83-91 | every other script lets two different hashes pass, without a collision |
| `AuxPows.TwoHashes` | src/auxpow.cpp:83-91 | one proof with a script of 60 bytes passes for two different hashes, whatever the pair hash |
| `SkipHeights.InvertIsAnd` | src/chain.cpp:74-75 | clearing the lowest one bit is n & (n - 1) |
| `SkipHeights.GetSkipHeight` | src/chain.cpp:77-86 | the height to jump to is never negative, and strictly lower than a positive height |
| `SkipHeights.FromOdd` | src/chain.cpp:88-113 | from an odd height in the upper half of an aligned block, the end of the lower half is reached within a step for every two one bits of the position and two more, unless the target comes first |
| `SkipHeights.FromEven` | src/chain.cpp:88-113 | from an even height in an upper half of 2^e heights, within e - 2 steps for e > 8 |
| `SkipHeights.WalkSteps` | src/chain.cpp:82-84 | with all skip pointers set, a walk from a height of d bits takes at most (d^2 + 8 d) / 4 steps, and at most 110, the documented number, for heights up to 2^18 |
| `Chains.AncestorOfAncestor` | src/chain.cpp:88-113 | an intermediate stop does not change where a walk by single steps ends |
| `Chains.GetAncestor` | src/chain.cpp:77-113 | the walk with jumps ends where single steps end, and is null exactly for heights outside the range; with all skip pointers set it takes at most 110 steps from a height up to 2^18, and (d^2 + 8 d) / 4 from any of d bits |
| `Chains.BuildSkip` | src/chain.cpp:120-124 | the skip pointer leads to the ancestor at the skip height, and all others keep doing so |
| `Chains.AddBlock` | src/chain.cpp:120-124 | a block added on top of a known one keeps the block tree and its skip pointers right, and all of them set |
| `Chains.Chain.constructor` | src/chain.h:447-448 | a new chain is empty |
| `Chains.Chain.SetTip` | src/chain.cpp:21-29 | every entry of vChain is the ancestor of the tip at its height, although the loop stops early |
| `Chains.Chain.FindFork` | src/chain.cpp:55-64 | the highest block of the chain that is the given block or an ancestor of it |
| `Chains.LastCommonAncestor` | src/chain.cpp:158-175 | the highest block that is an ancestor of both, and null exactly if there is none |

## Left out

- Integer widths in fees, sizes and work sums: fees, sizes and chain work are unbounded integers; the limits that exclude overflow there are assumed. The arithmetic of `arith_uint256`, base58 and the merge-mining index is modelled with its widths.
- SetType: transaction sets are finite sets of naturals, without the capacity of a bit set.
- Randomness: the search order, the choice of a collision, shuffling and the luck of a repeated address are arbitrary or parameters; so are clocks.
- SearchCandidateFinder: the queue is a sequence, which is shown never to outgrow the capacity that the ring buffer reserves.
- GetReducedChildren, IsAcyclic, TxCount and other accessors of the dependency graph.
- Rounded fee evaluation and 128-bit products in `src/util/feefrac.h`.
- EmplaceCoinInternalDANGER, AccessCoin, HaveCoin, HaveInputs, best block hashes, cache reallocation and failed writes of the coins cache.
- Coin contents beyond value, script and memory usage; the memory usage of a coin is a function of its script.
- CoinsViewStack: coins are added and spent at the top of the stack only; flushing, syncing, uncaching and reading happen at any level.
- CoinsViewCache.CheckList: a walk that would go round for ever counts as not passing, and links to objects that do not exist are not modelled.
- Address manager: chances, serialization, GetEntries, FindAddressEntry and Size.
- Select: whether the chance of an entry comes up is part of the random choices, of which it is assumed that each bucket comes up with an accepted entry sooner or later.
- AddrMan.ResolveCollisions: without the branch for an empty slot, which is shown to be unreachable.
- Check queue: stopping, destruction, the control lock and notifications of workers; any waiting thread may wake up at any time.
- Headers sync: locators, logging, and the bound on commitments computed from the clock, which is a parameter. Hashes, the salted bit, work per header and permitted difficulty changes are parameters.
- HeadersSyncState.ProcessNextHeaders: in the first phase, the headers of a message are assumed to be continuous, as its documentation demands of callers.
- CheckAddrman: which of the negative results is returned, when several faults are present or only one.
- operator*=, getdouble and hexadecimal conversion of `arith_uint256`.
- LocatorEntries, FindEarliestAtLeast and GetBlockProofEquivalentTime.
- Base58Check and the length of a C string: strings are sequences without a terminating zero.
- CAuxPow::initAuxPow and serialization.
- Networking, storage, script verification, wallet, mempool policy and everything else in the repository.
