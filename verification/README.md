# gotreesitter: parser core, verified model

A Dafny model of the parts of gotreesitter where a mistake is silent: the generalised-LR
graph-structured stack and its merges, the reduction forest, the equivalence prefilters and
memos around them, stack survivor selection, the slab arena, scanner checkpoints, and the
glue that lets external scanners run. `dafny verify dfyconfig.toml` checks all of it.

How the files fit together:

- `GssGraph` holds the stack graph as a value: nodes with a depth and up to six links, each
  link an entry (state, payload class, precedence, end byte, error flag) over a lower node.
  `GssMerge` is the mutating merge as a function on that value, `GssPreflight` the dry run.
  `GssUnion`, `GssAtomic` and `GssHalfMerge` state what merging means, `GssRise` that it lowers
  no precedence, and `GssOffsets` what the merge test asks of the two nodes; `GssClean`,
  `GssStore` and `GssDryRun` are the same operations as objects with marks, seen sets and caches that
  are updated in place, each proved equal to its function.
- `Forest` enumerates reductions by plain depth-first search; `ForestReduce` is the reducer
  with all its fast routes, and `ForestProgress` accounts for its budgets. `ForestDepth`,
  `ForestCap` and `ForestCoalesce` are the depth promise, the replacement rule at a full node,
  and the taking up of arrivals; `ForestGrowth` joins them into the forest the reducer walks.
- `Signature`, `SpineMemo`, `Survivors` and `MergePaths` are the comparison layer and the
  merge round over whole stacks; `SignatureTells` says what equal signatures tell.
- `Slabs`, `Growth` and `Arena`, `Sidecar` and `Checkpoints`, `Adapter` and `Lexer` follow the files of
  those names.

Where the source says one thing and does another, the model does what the code does:

- The all-or-nothing merge holds while depth falls along every link below the two heads
  (`GssAtomic.AllOrNothing`), a condition that is enough but not necessary. On any graph a merge
  the dry run accepts succeeds if and only if the dry run would accept it with searches in place
  of the depth shortcut (`GssAtomic.PreflightHoldsIff`). A merge can itself
  end that order (`GssAtomic.DepthOrderSurvives` says exactly when), and the next merge may then
  be refused half way: `GssHalfMerge.HalfMerged` is such a run of two merges, on a graph as
  pushing leaves it. `GssPreflight.ShortcutExactIffDepthOrdered` is exact for the depth shortcut,
  not for the merge.
- The depth promise of a forest node holds only while links arrive at settled predecessors;
  `ForestDepth.UnsettledBreaksPromise` shows the other case, and `ForestDepth.GrowKeepsSound` is
  the exact condition for one arrival to keep every promise true
  (`ForestDepth.GrowKeepsConsistent` is exact for the stronger local consistency). Taking over a
  resident's slot does not compare extra flags, so an extra can break the promise there as well
  (`ForestGrowth.ExtraBreaksPromise`); `ForestGrowth.ArrivalKeepsDepths` says exactly when an
  arrival at a node nothing links to yet does.
- A checkpoint rebuild from the root does not reach children between the first and the last
  marked one. It agrees with bottom-up recording and writes only right values
  (`Checkpoints.RebuildFolds`), but an internal node in the middle that has no checkpoint is left
  without one (`Checkpoints.MiddleStaysBare`, `Checkpoints.ThreeOverLeaves`). Over a tree with no
  internal node recorded, every internal node gets its checkpoint if and only if no marked one
  lies between two marked siblings (`Checkpoints.RebuildCompletesIff`).
- The comment on slab growth promises capacity within one ceiling-sized slab of live usage.
  That is so until the first reset (`Arena.WasteBelowCeiling`), and always in an incremental
  arena (`Arena.NodeArena.IncrementalStaysBelow`). A full-parse arena keeps it through a reset if
  and only if its overflow slabs held less than the ceiling before, which for a first reset means
  at most two slabs (`Arena.NodeArena.Reset`, `Arena.KeepsUpAfterReset`); allocating never loses it
  (`Arena.NodeArena.AllocNode`). `Arena.ResetRunsAhead` is the run for any number of slabs, and the
  overrun is never more than the retention limit (`Arena.WasteOverEveryRun`).
- The comment on scanner adaptation announces a fallback by index for unmatched targets. The
  code acts on it only for generated targets, which are never matched by name in the first
  place, so it changes nothing; and duplicate names force matching by index only when both
  lists have one length.
- Token offsets are 32-bit: their order is promised exactly for sources below 2^32 bytes
  (`Lexer.OrderedIffAddressable`).

## Model

| member | source | states |
|---|---|---|
| `GssGraph.ReachesIffWalk` | glr.go:3607-3682 | The closed-set notion of reachability used throughout is exactly the existence of a walk along links |
| `GssGraph.PathGrows` | glr.go:4104-4128 | A graph grown by further links or by entries of higher precedence within a class keeps every path of entry classes, at precedences no lower |
| `GssGraph.UniformKept` | glr.go:3684-3717 | Two graphs of one shape, one of them extending the other underneath, agree on whether and where a node's offset is uniform |
| `GssOffsets.UniformIffOneEnd` | glr.go:3684-3717 | A node counts as uniform at a byte if and only if the last entry on every way down from it ends at that byte |
| `GssOffsets.CleanIffNoError` | glr.go:3719-3786 | A node counts as clean if and only if no entry on any way down from it holds an error |
| `GssOffsets.CanMergeIff` | glr.go:3585-3605 | Two nodes may merge if and only if neither leads to the other, they are of one state, no error lies below either unless that is trusted, and all ways down from both end at one byte |
| `GssOffsets.DryCanMergeEnds` | glr.go:4621-4640 | The dry merge test asks of the staged view, with its own reachability answers: neither node leads to the other, one state, no error below unless trusted on an unchanged view, and all ways down ending at one byte |
| `GssMerge.AppendLink` | glr_gss.go:150-209 | Appending a link whose target does not reach the node keeps the graph acyclic, puts exactly that link last and loses nothing |
| `GssMerge.Upgrade` | glr.go:4104-4128 | Of two entries of a class the one of higher precedence stays, the resident on a tie; shape, acyclicity and every class path are kept and no precedence falls |
| `GssMerge.AbsorbInto` | glr.go:4763-4780 | Absorbing a link keeps the graph acyclic and within the link limit, loses no link, and only enlarges the seen pairs |
| `GssMerge.ReplaceWorst` | glr.go:4845-4875 | The replace-worst fallback keeps the graph acyclic and within the link limit and loses no link |
| `GssMerge.WorstIsLowest` | glr.go:4845-4875 | The link the fallback picks is the first of lowest precedence among those that could take the new one, and one is picked if there is any |
| `GssMerge.AddLink` | glr.go:4739-4804 | Adding a link, whether it succeeds or not, keeps the graph acyclic and every node within six links and only grows it |
| `GssMerge.MergeNodes` | glr.go:4919-4940 | Every merge, successful or not, keeps the graph acyclic and within the link limit, loses no link, and terminates on the unseen pairs |
| `GssMerge.MergeLinks` | glr.go:4919-4940 | The link loop over a node that may itself grow keeps the same |
| `GssUnion.ReplaceWorstNeverFires` | glr.go:4845-4875 | When no link absorbs the new one, the fallback changes nothing and fails: anything it would accept was absorbed before |
| `GssUnion.AddLinkFailure` | glr.go:4739-4804 | An addition fails if and only if it closes a cycle, the node is full with no absorber, or the merge it hands over to fails |
| `GssUnion.AddLinkTakes` | glr.go:4739-4804 | After a successful addition the node has a link of that class and of no lower precedence to the given base or to a node the base was merged into, and every new pair is absorbed |
| `GssUnion.MergeNodesAbsorbs` | glr.go:4919-4940 | After a successful merge every pair taken up on the way has all its links absorbed, pairs skipped as already seen included |
| `GssUnion.PathUnion` | glr.go:4919-4940 | After a successful merge of b into a, every class path of b is one of a at precedences no lower, and no node anywhere has lost a path |
| `GssUnion.NoPathLost` | glr.go:4739-4804 | No merge, even a failing one, loses a path of any node or lowers a precedence on it |
| `GssRise.AddLinkRises` | glr.go:4739-4804 | Adding a link, merges below included, never lowers the precedence of any link anywhere nor changes its class |
| `GssRise.MergeNodesRises` | glr.go:4919-4940 | No merge, successful or not, lowers the precedence of any link anywhere |
| `GssUnion.MergeNodesSourced` | glr.go:4919-4940 | A merge invents nothing: each link afterwards leads where some link of its state and class led before, with an entry some link carried |
| `GssPreflight.ShortcutExactIffDepthOrdered` | glr.go:4428-4506 | Answering reachability from depths is right for every pair of nodes if and only if depth falls along every link |
| `GssPreflight.StageDepth` | glr.go:4346-4361 | The flag that enables the depth shortcut is kept equal to depth order of the staged view, on any set of nodes that holds the one staged at |
| `GssPreflight.MergeNodesInStep` | glr.go:4890-4910 | Dry run and mutation, started on one graph, accept and refuse together, and on success the staged view and the merged graph have one shape |
| `GssPreflight.AddLinkInStep` | glr.go:4700-4730 | The same for adding one link |
| `GssPreflight.MergeLinksInStep` | glr.go:4890-4910 | The same for the loop over links |
| `GssAtomic.AllOrNothing` | glr.go:4950-4966 | While depth falls along every link below the two heads, the main merge succeeds exactly when the mutation would, and a refused merge leaves the graph as it was |
| `GssAtomic.PreflightHoldsIff` | glr.go:4950-4966 | On any graph, in depth order or not, the dry run that uses the shortcut only where depths are in order accepts exactly what the mutation carries out; the main merge succeeds if and only if both dry runs accept, and a refused one can have changed the graph only where they disagree |
| `GssAtomic.DepthOrderSurvives` | glr.go:4950-4966 | On a depth-ordered graph a merge keeps the order if and only if the dry run ends with its shortcut flag still on |
| `GssAtomic.DepthOrderSurvivesBelow` | glr.go:4950-4966 | The same for the nodes below the two heads, whatever the order elsewhere |
| `GssAtomic.MainMergeUnion` | glr.go:4950-4966 | An accepted main merge gives the surviving head all paths of both heads, at precedences no lower, and loses none elsewhere |
| `GssAtomic.MergeNodesConfined` | glr.go:4919-4940 | A merge inside a clean closed set leaves the set clean and closed and every node outside unchanged |
| `GssAtomic.MergeKeepsVerdicts` | glr.go:1556-1586 | Merging clean heads changes no node's cleanliness, so every stored mark stays right |
| `GssHalfMerge.HalfMerged` | glr.go:4950-4966 | From a depth-ordered graph with depths as pushing sets them, one merge succeeds and ends the depth order, and the next, of clean heads, reports failure and has changed a head |
| `GssHalfMerge.FirstMerge` | glr.go:4950-4966 | The first of the two merges succeeds, gives exactly that graph and ends the dry run with the shortcut flag off |
| `GssHalfMerge.DryRunAccepts` | glr.go:4428-4506 | On the graph the first merge leaves, the dry run, misled by depth, accepts the second |
| `GssHalfMerge.MutationFails` | glr.go:4739-4804 | On that graph the mutation meets the cycle after its first link and stops half way |
| `GssClean.CleanByLinks` | glr.go:3719-3786 | A node is clean if and only if each of its links carries no error and leads to a clean node |
| `GssClean.FailureSpreads` | glr.go:3719-3786 | A failure at the top of the walk is a failure of every frame open below it |
| `GssStore.CanReach` | glr.go:3607-3682 | The iterative search answers exactly reachability |
| `GssStore.NotVisitedTwice` | glr.go:3719-3786 | On an acyclic graph the walk never comes back to a node it has open |
| `GssStore.Gss.StoreFailure` | glr.go:1573-1586 | Storing a failure on all open frames leaves only right marks and none visiting |
| `GssStore.Gss.CleanAllLinks` | glr.go:3719-3786 | The memoised walk is true exactly when no reachable link carries an error, every mark it leaves is right, none is left visiting |
| `GssStore.Gss.CanMergeNow` | glr.go:3585-3605 | The in-place merge test agrees with its definition, whose meaning is `GssOffsets.CanMergeIff`, and keeps all marks right |
| `GssStore.Gss.UpgradeLink` | glr.go:4104-4128 | The in-place upgrade is the value upgrade, by which the higher precedence stays, and keeps all marks right |
| `GssStore.Gss.AddLinkNow` | glr.go:4739-4804 | The in-place addition is the value addition, inside a clean set, with all marks right afterwards |
| `GssStore.Gss.ReplaceWorstNow` | glr.go:4845-4875 | The in-place fallback is the value fallback |
| `GssStore.Gss.MergeNodesNow` | glr.go:4919-4940 | The in-place merge is the value merge and keeps every stored mark right |
| `GssStore.Gss.MergeLinksNow` | glr.go:4919-4940 | The in-place link loop is the value loop |
| `GssDryRun.CacheSurvives` | glr.go:4354-4419 | Staging a link keeps positive reachability answers of the cache right and retires negative ones |
| `GssDryRun.VerdictsSurvive` | glr.go:4508-4584 | Staging a link keeps negative cleanliness verdicts right and retires positive ones |
| `GssDryRun.DryRun.Reset` | glr.go:4271-4312 | A pooled dry run that any merge has left behind is as good as new for whatever the graph is by then, wrap-around of the cache generation included |
| `GssDryRun.DryRun.CachedReach` | glr.go:4372-4392 | A cache hit is the right answer for the current view |
| `GssDryRun.DryRun.CacheReach` | glr.go:4394-4419 | Storing an answer and demoting the older one keeps every entry right |
| `GssDryRun.DryRun.CanReachView` | glr.go:4428-4506 | Cache, shortcut and search together answer the dry run's reachability |
| `GssDryRun.DryRun.Search` | glr.go:4428-4506 | A search cut short by cached answers is still exact |
| `GssDryRun.DryRun.AddVirtual` | glr.go:4346-4361 | Staging gives the specified view and flag and leaves both caches right |
| `GssDryRun.DryRun.CleanView` | glr.go:4508-4584 | The cached cleanliness test over staged links is exact |
| `GssDryRun.DryRun.WalkView` | glr.go:4508-4584 | The private walk is exact and names only clean nodes, or a dirty culprit |
| `GssDryRun.DryRun.CanMergeView` | glr.go:4621-4640 | The dry merge test with all caches agrees with its definition, whose meaning is `GssOffsets.DryCanMergeEnds` |
| `GssDryRun.DryRun.CanAddLinkView` | glr.go:4700-4730 | The dry addition with all caches is the specified one |
| `GssDryRun.DryRun.CanReplaceWorstView` | glr.go:4810-4836 | The dry fallback with all caches is the specified one |
| `GssDryRun.DryRun.CanMergeNodesView` | glr.go:4890-4910 | The dry merge with all caches is the specified one |
| `GssDryRun.DryRun.CanMergeLinksView` | glr.go:4890-4910 | The dry link loop with all caches is the specified one |
| `GssDryRun.MainMergeNow` | glr.go:4950-4966 | The main merge over the live objects is the specified one and leaves the pooled dry run ready for another; while depth falls below the heads a refusal leaves the graph untouched |
| `GssDryRun.MergeTwice` | glr.go:4950-4966 | Two merges in a row through one pooled dry run are the two specified merges |
| `Forest.ReductionsExact` | glr_forest.go:4798-4841 | A visit is enumerated if and only if some chain of links carries its children, its summed score and its end |
| `Forest.SingleLink` | glr_forest.go:4509-4548 | A node with a single link continues along it |
| `Forest.SolidPaths` | glr_forest.go:4657-4796 | Under a kept depth promise every visit has exactly the counted children and no extra |
| `ForestReduce.Reducer.Record` | glr_forest.go:4843-4862 | A visit is appended to the buffers exactly once, or the run is marked capped, and that exactly when the visit budget is used up |
| `ForestReduce.Reducer.CountStep` | glr_forest.go:4804-4812 | A step is refused, and the run marked capped, exactly when the step budget is used up |
| `ForestProgress.GrewNext` | glr_forest.go:4798-4841 | The steps and visits of one more link extend an account that is capped if and only if the budgets do not cover it |
| `ForestProgress.GrewAll` | glr_forest.go:4798-4841 | After the last link the account is that of the whole search below the node |
| `ForestReduce.Reducer.OneNoExtras` | glr_forest.go:4380-4404 | The one-child route buffers what the plain search enumerates, in its order |
| `ForestReduce.Reducer.LinearNoExtras` | glr_forest.go:4406-4431 | The linear route without extras buffers what the plain search enumerates, or declines having done nothing |
| `ForestReduce.Reducer.ForkedLinearNoExtras` | glr_forest.go:4433-4477 | The forked-then-linear route without extras buffers what the plain search enumerates, in its order, or declines |
| `ForestReduce.Reducer.ForkedLinearSinglePath` | glr_forest.go:4479-4507 | The same with extras |
| `ForestReduce.Reducer.CheckLinear` | glr_forest.go:4509-4526 | The check accepts a link only when a single path continues it down to the counted children |
| `ForestReduce.Reducer.EmitFromLink` | glr_forest.go:4528-4548 | A checked link buffers exactly the visits the search finds below it |
| `ForestReduce.Reducer.LinearForkedSinglePath` | glr_forest.go:4550-4597 | The linear-then-forked route buffers what the plain search enumerates, in its order, or declines; the eight recorded lengths suffice |
| `ForestReduce.Reducer.EmitWithPrefix` | glr_forest.go:4599-4620 | A branch laid after a shared prefix buffers exactly its visits |
| `ForestReduce.Reducer.LinearSinglePath` | glr_forest.go:4622-4655 | The linear route with extras buffers what the plain search enumerates, or declines |
| `ForestReduce.Reducer.NoExtrasDfs` | glr_forest.go:4657-4677 | The no-extras search buffers what the plain search enumerates |
| `ForestReduce.Reducer.DfsNoExtras2` | glr_forest.go:4679-4699 | The unrolled search for two children enumerates the same |
| `ForestReduce.Reducer.DfsNoExtras3` | glr_forest.go:4701-4731 | The unrolled search for three children enumerates the same |
| `ForestReduce.Reducer.DfsNoExtras4` | glr_forest.go:4733-4773 | The unrolled search for four children enumerates the same |
| `ForestReduce.Reducer.DfsNoExtras` | glr_forest.go:4775-4796 | The no-extras recursion enumerates the same and meets neither an extra nor the bottom |
| `ForestReduce.Reducer.Dfs` | glr_forest.go:4798-4841 | The plain recursion buffers exactly the enumeration |
| `ForestReduce.Reducer.Collect` | glr_forest.go:4320-4378 | Whatever route applies, the buffered visits are the enumeration, or a front of it when capped; a reduction whose plain search fits both budgets is not capped |
| `ForestReduce.Reducer.Reduce` | glr_forest.go:4320-4378 | The visitor is handed exactly the enumeration of the forest as it was at the start, whatever it does to the forest meanwhile; nothing when capped, which does not happen while the plain search fits both budgets |
| `ForestReduce.Reducer.Flush` | glr_forest.go:4864-4873 | Buffered visits are handed out in order, each once |
| `ForestDepth.ConsistentIsSound` | glr_forest.go:871-891 | Local consistency of recorded depths makes each a true promise on all ways down |
| `ForestDepth.GrowKeepsConsistent` | glr_forest.go:1547-1576 | An arrival keeps the depths consistent link by link if and only if no node above was already promised more than the node still supports |
| `ForestDepth.GrowKeepsSound` | glr_forest.go:1547-1576 | An arrival, at a settled node or not, keeps every recorded depth a true promise if and only if its link meets what nodes above have been promised through this one |
| `ForestDepth.DepthsStaySound` | glr_forest.go:1547-1576 | Over any run of arrivals onto settled predecessors no recorded depth exceeds the extra-free links on any way down |
| `ForestDepth.DepthIsLargest` | glr_forest.go:871-891 | Where each depth is offered by some link, a node records, up to 255, exactly the number of extra-free links all ways down start with |
| `ForestDepth.DepthsStayLargest` | glr_forest.go:1547-1576 | That stays so over any run of appended links onto open nodes |
| `ForestDepth.UnsettledBreaksPromise` | glr_forest.go:884-891 | A concrete late arrival that breaks the promise of a node above |
| `ForestCap.ReplacementClasses` | glr_forest.go:1853-1894 | Replacing a link loses a raw-shape class if and only if it trades the last member of one class for a member of another already there |
| `ForestCap.ClassesNeverFall` | glr_forest.go:1578-1681 | At a full node no replacement lowers the number of raw-shape classes |
| `ForestCap.TieReplacementSettles` | glr_forest.go:1702-1711 | Among tied hidden links every replacement gains a class, or keeps them and widens a span |
| `ForestCap.TieReplacementLowersUnrest` | glr_forest.go:1578-1711 | Each such replacement strictly lowers the measure of missing classes and start bytes and leaves the node tied |
| `ForestCap.TiesCannotOscillate` | glr_forest.go:1578-1711 | A stream of tied hidden candidates of any length makes no more replacements than the measure at its start |
| `ForestCap.TiedCandidateIff` | glr_forest.go:1578-1711 | Without raw shapes a candidate tied with all residents is taken if and only if its symbol is known to be hidden and it is strictly wider than the last resident, of its symbol and end |
| `ForestCap.VisibleTieByShape` | glr_forest.go:1578-1681 | With raw shapes and no two alike, a tied candidate not known to be hidden is taken if and only if the shape tie-breaker prefers it to the worst resident |
| `ForestCap.TieKeepsWidest` | glr_forest.go:1578-1711 | Among tied residents of different shapes a hidden candidate drops no span: each is covered afterwards by a link of its symbol that ends where it does |
| `ForestCap.CompareFollowsRank` | glr_forest.go:2943-2958 | Lower error cost is better, then higher score; only links tied in both are left to the raw-shape tie-breaker and, where that is silent or there are no raw shapes, to position, the earlier being better |
| `ForestCap.WorstRanksLowest` | glr_forest.go:1868-1882 | No marked link has a greater error cost or, at equal cost, a lower score than the one picked as worst; without raw shapes it is the last such |
| `ForestCap.ReplacedRanks` | glr_forest.go:1578-1681 | A link is given up at a full node only to a candidate as good, or while a twin of its raw shape as good stays; a candidate is turned away only where a resident is as good |
| `ForestCap.FullNodeKeepsBest` | glr_forest.go:1578-1681 | At a full node the candidate and all that residents matched are matched afterwards by a link as good |
| `ForestCoalesce.RunKeeps` | glr_forest.go:1343-1576 | Over any run of arrivals the links stay within the cap, the error cost is the least seen, and every change of links advances the dirty count |
| `ForestCoalesce.NewNodeKeeps` | glr_forest.go:1343-1576 | From a new node the error cost is exactly the least of all arrivals |
| `ForestCoalesce.ContestKeepsBest` | glr_forest.go:1343-1546 | Of an arrival and the resident of its slot one as good as both stays, stamped with the present dirty count, and no other link changes |
| `ForestCoalesce.RunKeepsBest` | glr_forest.go:1343-1576 | Over any run of arrivals every arrival and every resident is matched by a link as good |
| `ForestCoalesce.RunInventsNoRank` | glr_forest.go:1343-1576 | No link ranks as none of the arrivals or first residents did |
| `ForestCoalesce.RunKeepsSpots` | glr_forest.go:1343-1576 | Over any run that does not fill the node, every predecessor, symbol and span that arrived has a link |
| `ForestCoalesce.RunKeepsOne` | glr_forest.go:1343-1576 | Over any run, derivations of one predecessor, symbol and span share one link, without raw shapes always and for hidden symbols in any case |
| `ForestCoalesce.HiddenSpotSettles` | glr_forest.go:1343-1546 | Another derivation of a hidden symbol takes over if and only if it is strictly better; re-deriving a settled one changes nothing, not even the dirty count |
| `ForestCoalesce.DedupMayLoseClass` | glr_forest.go:1343-1546 | A concrete improvement in place, below the cap, that does cost a raw-shape class |
| `ForestCoalesce.ScanPeer` | glr_forest.go:1884-1894 | The peer scan finds a peer exactly when there is one |
| `ForestCoalesce.ScanSameShape` | glr_forest.go:1853-1866 | The scan gives the worst resident of the candidate's raw shape, the later of equals, or none |
| `ForestCoalesce.ScanDuplicate` | glr_forest.go:1868-1882 | The scan gives the worst resident that shares its raw shape, the later of equals, or none |
| `ForestCoalesce.ForestNode.CachedDuplicate` | glr_forest.go:962-981 | The cached duplicate scan always equals a fresh one |
| `ForestCoalesce.ForestNode.CachedWorst` | glr_forest.go:987-1001 | The cached worst-resident scan always equals a fresh one |
| `ForestCoalesce.ForestNode.ReplacementIndex` | glr_forest.go:1578-1681 | The resident chosen through the caches is the one the rule names, so as `ForestCap.ReplacedRanks` says |
| `ForestCoalesce.ForestNode.Coalesce` | glr_forest.go:1343-1576 | An arrival changes the node exactly as specified, so as `ForestCoalesce.RunKeepsBest` says; caches never show in the outcome |
| `ForestGrowth.DedupRewrites` | glr_forest.go:1343-1546 | An arrival settled at a resident slot rewrites that link over the same predecessor, with its own subtree exactly when it wins, and leaves the recorded depth alone |
| `ForestGrowth.ArrivalKeepsDepths` | glr_forest.go:1343-1576 | At a node nothing links to yet an arrival keeps the recorded depths consistent, and every promise true, if and only if it is not an extra that takes over a slot of a node with a promise; link cap and acyclicity are kept in any case |
| `ForestGrowth.GrownIsReducible` | glr_forest.go:1343-1576 | A forest grown by any run of such arrivals is acyclic, within the link cap and sound in its depths, which is what the reducer asks |
| `ForestGrowth.GrownFromNew` | glr_forest.go:1343-1576 | The same from nodes that nothing has arrived at yet |
| `ForestGrowth.ExtraBreaksPromise` | glr_forest.go:1343-1546 | A concrete extra of the same symbol and span that takes over a slot and leaves a false promise |
| `Signature.CandidatesCovered` | glr.go:1091-1110 | Every child the signature descends into is one the comparison descends into |
| `Signature.InDepthCongruence` | glr.go:1091-1110 | Children the comparison has looked into are signed alike in depth |
| `Signature.OutlineAgrees` | glr.go:998-1076 | Nodes of one outline sign children, fields and candidates alike and agree on going deep |
| `Signature.FrontierCongruence` | glr.go:3103-3248 | Frontier equivalence to depth d gives equal signatures at every depth up to d, for any mixing function |
| `Signature.BaseCongruence` | glr.go:2632-2695 | Base equivalence gives equal signatures at the depth the prefilter uses |
| `Signature.PrefilterHidesNothing` | glr.go:920-982 | Equivalent stacks over full nodes always have equal frontier hashes |
| `SignatureTells.SigCandidatesIff` | glr.go:1091-1110 | The signature looks into the last semantic child and, in a node of at most three children, into the semantic ones with a field, and into no other |
| `SignatureTells.EquivCandidatesIff` | glr.go:3103-3248 | The comparison looks into the last semantic child and, in a node of at most three children, into those not extra that are fielded, named or have children, and into no other |
| `SignatureTells.SignatureTells` | glr.go:998-1110 | With a fold that never collides, nodes of equal signature agree on header, fields, child headers and, to the depth of the signature, on the children it looks into |
| `SignatureTells.StackHashTells` | glr.go:920-982 | With such a fold, stacks of equal frontier hash have one height and agree entry by entry on state and on what the signature shows |
| `SignatureTells.ShallowIff` | glr.go:2632-2695 | A node is compared without looking into it if and only if it is plain (not extra, no pre-goto state, no fields) and all its children are plain leaves |
| `SignatureTells.SkimmedExactly` | glr.go:2632-2695 | For such nodes and those holding an error, equal signatures and base equivalence are the same, with a fold that never collides |
| `SpineMemo.RawIsSpines` | glr.go:2011-2024 | The memo-free walk depends on the two spines alone; meeting in one node is only a shortcut |
| `SpineMemo.RawByPosition` | glr.go:2011-2024 | The memo-free walk says equal if and only if states agree and payloads are equivalent position by position, as far as the shorter spine goes |
| `SpineMemo.Memo.Lookup` | glr.go:1483-1512 | A hit in either way, promoted or not, is the memo-free answer |
| `SpineMemo.Memo.Store` | glr.go:1517-1542 | Storing and demoting keeps every slot a memo-free answer |
| `SpineMemo.Memo.StoreVisited` | glr.go:2003-2007 | Back-filling all visited pairs keeps every slot right |
| `SpineMemo.Memo.Equal` | glr.go:1970-2001 | The memoised comparison always returns the memo-free answer |
| `SpineMemo.Memo.NextEpoch` | glr.go:1266-1293 | A new epoch makes the memo right for any new graph, wrap-around of the epoch included |
| `SpineMemo.CompareAcross` | glr.go:1266-1293 | Comparisons before and after a change of graph through one memo are both memo-free answers |
| `SpineMemo.FingerprintMustCoverSpine` | glr.go:1483-1512 | A concrete pair of graphs showing that a fingerprint must determine the whole spine for that to hold |
| `Survivors.CompareOrders` | glr.go:3304-3350 | The stack comparison is antisymmetric, reflexive and transitive, strict steps included; which order it is, `Survivors.CompareIsLexicographic` says |
| `Survivors.CompareIsLexicographic` | glr.go:3304-3350 | One stack ranks above another if and only if it has the greater value in the first of the listed merits in which they differ |
| `Survivors.KeysMeetIff` | glr.go:879-888 | Stacks that hold something share a merge key if and only if they are in one state at one byte |
| `Survivors.RecomputeWorst` | glr.go:6024-6036 | The recomputed position holds a minimum of its slot |
| `Survivors.Admit` | glr.go:5843-6008 | A stack is folded into another one present, kept, or overflows; nothing vanishes, the slot stays in order and the floor of a full slot never drops; it is folded unless every merge was tried in vain and every survivor of its hash told apart |
| `Survivors.FindDuplicate` | glr.go:5843-6008 | The duplicate found is the first of its hash, and every earlier one of that hash was told apart by a call |
| `Survivors.Compete` | glr.go:5179-5187 | At a full slot exactly one of newcomer and lowest-ranked survivor is given up, it ranks no higher than the other, equals are settled by hash, and the floor does not drop |
| `Survivors.SlotsBound` | glr.go:5433-6008 | A key has at most the cap of survivors beside the stacks of its key that were kept whatever the cap |
| `Survivors.LostRanksBelow` | glr.go:5433-6008 | Where no stack of its key was so kept, an overflowed stack ranks no higher than any survivor of its key |
| `Survivors.LostFromFull` | glr.go:5433-6008 | A stack overflows only where its key keeps at least the cap of survivors |
| `MergePaths.ScanSmall` | glr.go:5189-5357 | A stack stays only on a refused merge or a new cost, or when it was merged into no survivor of its key and told apart from each that was compared; otherwise the survivor it gives way to or replaces is of its key |
| `MergePaths.MergeSmall` | glr.go:5189-5357 | Merging in place over the front of the array still being read, every input survives or was folded into another input of its key by a call of the round, as multisets, and every key survives |
| `MergePaths.AdmitOne` | glr.go:5495-5534 | With one survivor per key, a stack is folded, replaces the lesser, or is kept for a new recovery cost or a refused merge |
| `MergePaths.AdmitDuplicate` | glr.go:5555-5578 | A duplicate is merged, kept beside its double when the merge is refused, or the better of the two stays |
| `MergePaths.AdmitFew` | glr.go:5481-5638 | For caps one to six a stack is folded, kept within the cap, kept beyond it only on a refused merge or a new cost, or overflows a full slot whose floor does not drop; within the cap or by overflow only after every merge was tried in vain, and with every survivor of its hash told apart unless exact comparison is deferred |
| `MergePaths.MergeSlots` | glr.go:5433-6008 | Every input survives, was folded into another input by a call of the round, or overflowed, as multisets; every key survives; no key exceeds the cap but by stacks kept on a refused merge or a new cost, and beyond six per key not at all; a stack overflows only where its key keeps the cap of survivors, and ranks no higher than any of them where no such stack was kept |
| `MergePaths.OverflowScoresNoHigher` | glr.go:5433-6008 | Where no stack of its key was kept beyond the cap, an overflowed stack is accepted only if every survivor of its key is, and scores no higher than a survivor accepted alike |
| `MergePaths.MergeRound` | glr.go:5364-5648 | Whichever path size and cap select, nothing vanishes without being folded or overflowing, no merge key dies out, and above four stacks cap, full keys and rank hold as on the slot path |
| `Slabs.Take` | arena.go:1505-1534 | The range taken starts where a slab's use ended, in the first slab from the cursor with room or in a new zeroed one, and the added capacity is reported exactly |
| `Slabs.TookIsApart` | arena.go:1505-1534 | A range just taken overlaps no live range, and live ranges keep their cells |
| `Slabs.FillIsLocal` | arena.go:1517-1523 | Writing one live range leaves every other one unchanged |
| `Slabs.Retained` | arena.go:876-899 | A reset keeps exactly the longest front within its limit, up to an empty slab, and a first slab in any case where one is required |
| `Slabs.WasteSplits` | arena.go:1137-1167 | In every state, free capacity is the rest of the slab at the cursor plus the slabs after it |
| `Slabs.SlabsByUse` | arena.go:1137-1167 | In a list filled slab by slab, the cells in use determine how many slabs there are and their capacity |
| `Growth.GrowthBelowCeiling` | arena.go:1646-1664 | Every slab an arena that was never reset adds is within the growth ceiling |
| `Growth.FirstThree` | arena.go:1646-1664 | The first three overflow slabs of a full-parse arena double, and the ceiling is within three cells of four times the first, for nodes up to 32 KiB |
| `Growth.FullRetainsCeiling` | arena.go:2601-2606 | A full-parse arena retains at least one ceiling-sized slab, and two unless the ceiling is the least capacity |
| `Growth.IncrementalRetainsLittle` | arena.go:2583-2606 | An incremental arena retains less than the ceiling, for nodes up to 32 KiB |
| `Arena.WasteBelowCeiling` | arena.go:1646-1664 | Until the first reset overflow capacity exceeds overflow nodes in use by less than one ceiling-sized slab |
| `Arena.ResetRunsAhead` | arena.go:603-643 | A run for any n: a full-parse arena serves nodes into its n-th overflow slab and is reset, and the capacity it then holds with nothing in use is below the ceiling if and only if n is at most two |
| `Arena.KeepsUpAfterReset` | arena.go:603-643 | After any reset of a full-parse arena capacity runs ahead of use by less than the ceiling if and only if all overflow slabs together held less than the ceiling before it |
| `Arena.ThirdSlabReachesCeiling` | arena.go:1646-1664 | In a full-parse arena that was never reset the overflow slabs hold less than the ceiling if and only if there are at most two |
| `Arena.StaysUp` | arena.go:1137-1167 | Taking a cell never ends that, as a slab is added only when all are full |
| `Arena.WasteOverEveryRun` | arena.go:603-643 | Over every run of allocations and resets the overrun is below the ceiling or within the retention limit |
| `Arena.NodeArena.IncrementalStaysBelow` | arena.go:603-643 | In an incremental arena it is below the ceiling however often it is reset |
| `Arena.ResetNodes` | arena.go:603-643 | A reset keeps exactly the longest front of the overflow slabs within its limit, zeroed and unused |
| `Arena.OneMore` | arena.go:1137-1167 | Taking an overflow cell serves a node not served before, zero, and leaves all others as they were |
| `Arena.TakeOverflow` | arena.go:1137-1167 | The same with creation of slabs, the charged bytes being exactly the added ones |
| `Arena.TakeSlice` | arena.go:1491-1536 | The slice is apart from all live ones, zero when asked, and charged exactly, except for the first slab of an empty list where the source does not charge it |
| `Arena.ReadsBackIffShort` | arena.go:2492-2553 | Where slab and offset fit their words, a stored snapshot reads back if and only if its length is below 2^16 |
| `Arena.SnapshotStored` | arena.go:2492-2529 | A new snapshot never takes the reference of an older one, and all older ones are still recalled |
| `Arena.Recount` | arena.go:1869-1893 | The recount is the sum over all slabs |
| `Arena.NodeArena.constructor` | arena.go:478-497 | A new arena counts its bytes exactly and has nothing live |
| `Arena.NodeArena.AllocNode` | arena.go:1120-1135 | Every node served is zero and in a slot not served since the last reset; the byte count stays exact, and capacity within a ceiling of use stays so |
| `Arena.NodeArena.WriteNode` | arena.go:1127-1135 | Writing a served node changes that node only and keeps unserved cells zero |
| `Arena.NodeArena.AllocChildren` | arena.go:1491-1536 | A child slice is apart from all live ones and all nil when cleared, even after a reset that skipped clearing; the byte count stays exact |
| `Arena.NodeArena.WriteChildren` | arena.go:1517-1523 | Writing one child slice leaves every other one unchanged |
| `Arena.NodeArena.AllocFields` | arena.go:1538-1576 | A field slice is zero and apart from all live ones; the byte count stays exact |
| `Arena.NodeArena.AllocSources` | arena.go:1578-1614 | A field-source slice is zero, apart from all live ones, and every remembered snapshot still reads back |
| `Arena.NodeArena.WriteSources` | arena.go:1578-1614 | Writing a handed-out slice disturbs no snapshot |
| `Arena.NodeArena.StoreSnapshot` | arena.go:2492-2529 | A stored snapshot is recalled up to the kept length and older ones are kept, for as long as fewer than 2^16 slabs of at most 2^32 cells are in use |
| `Arena.NodeArena.CopySnapshot` | external_scanner_checkpoints.go:96-106 | With or without reuse of the last one, the reference reads back the bytes given, below 2^16 bytes and while fewer than 2^16 slabs of at most 2^32 cells are in use |
| `Arena.NodeArena.SmallIsInReach` | arena.go:2492-2529 | An arena of less than 128 MiB is always within that reach |
| `Arena.StoreTwo` | external_scanner_checkpoints.go:96-106 | Two snapshots with a slice handed out and written between them both read back |
| `Arena.NodeArena.Reset` | arena.go:545-643 | After a reset nothing is live, all retained node cells are zero, exactly the longest front of overflow slabs within the limit is kept, the byte count is exact, and a full-parse arena has capacity within a ceiling of use if and only if its overflow slabs held less before, at most two of them on a first reset |
| `Arena.NodeArena.EnsureNodeCapacity` | arena.go:1419-1439 | Presizing gives at least the requested zero nodes and keeps the byte count exact |
| `Sidecar.Search` | external_scanner_checkpoints.go:444-456 | The position found splits the indexes into those below the key and the rest |
| `Sidecar.Lookup` | external_scanner_checkpoints.go:444-456 | A lookup finds exactly the bound checkpoint |
| `Sidecar.Upsert` | external_scanner_checkpoints.go:458-487 | Appended, replaced or shifted in, the set stays strictly sorted, the key is bound and no other binding changes |
| `Sidecar.UpsertAll` | external_scanner_checkpoints.go:458-487 | Any sequence of writes gives a strictly sorted set that is the last-write-wins map |
| `Sidecar.Store.Get` | external_scanner_checkpoints.go:131-144 | A node's checkpoint is what was last set for its slot, if complete |
| `Sidecar.Store.Set` | external_scanner_checkpoints.go:108-118 | Setting a checkpoint binds that slot only; a foreign node is refused |
| `Checkpoints.RecordingFolds` | external_scanner_checkpoints.go:178-213 | Recording bottom-up gives every internal node the start of its first marked leaf and the end of its last, and nothing else changes |
| `Checkpoints.RebuildFolds` | external_scanner_checkpoints.go:232-331 | The rebuild returns that same checkpoint whatever stale entries internal nodes had, and writes exactly the frontier of first and last marked children |
| `Checkpoints.RebuildAgrees` | external_scanner_checkpoints.go:225-266 | On a recorded tree the rebuild finds the recorded checkpoint and changes nothing |
| `Checkpoints.MiddleNotRebuilt` | external_scanner_checkpoints.go:232-266 | A child with a marked one on either side is left as it was by a rebuild, with everything below it |
| `Checkpoints.MiddleStaysBare` | external_scanner_checkpoints.go:232-266 | A marked internal node between two marked siblings that has no checkpoint gets none, though it should |
| `Checkpoints.ThreeOverLeaves` | external_scanner_checkpoints.go:232-266 | Such a tree: three nodes over one marked leaf each, nothing recorded for internal nodes |
| `Checkpoints.RebuildCompletes` | external_scanner_checkpoints.go:225-266 | Whatever was recorded, every marked internal node has its checkpoint after a rebuild if and only if those off the walked frontier had theirs already |
| `Checkpoints.RebuildCompletesIff` | external_scanner_checkpoints.go:225-266 | With no internal node recorded, that is so if and only if no marked internal node lies between two marked siblings |
| `Checkpoints.RecordForParent` | external_scanner_checkpoints.go:178-213 | The two loops over direct children record the first start and the last end, or nothing |
| `Checkpoints.Rebuild` | external_scanner_checkpoints.go:232-331 | The recursive rebuild over the store is the specified one |
| `Checkpoints.RebuildEnds` | external_scanner_checkpoints.go:299-331 | The two inward loops are the specified ones |
| `Adapter.HasDuplicateNames` | external_scanner_adapter.go:31-41 | True exactly when two externals share a name |
| `Adapter.UsesIndexOnlyMapping` | external_scanner_adapter.go:272-283 | Index matching is chosen exactly for generated targets and for equally long lists with a repeated name |
| `Adapter.MapByName` | external_scanner_adapter.go:292-317 | The greedy loop pairs the k-th target of a name with the k-th source of it, and leaves a target unmatched only when there is none |
| `Adapter.FillByIndex` | external_scanner_adapter.go:319-330 | Exactly the unmatched targets of a generated language whose own index is free are filled; for any other target nothing changes |
| `Adapter.MatchingIsInjective` | external_scanner_adapter.go:222-239 | For any two languages no source external serves two targets |
| `Adapter.BuildMapping` | external_scanner_adapter.go:222-239 | The built mapping is that matching: complete, sound and injective |
| `Adapter.BuildResultMap` | external_scanner_adapter.go:332-362 | Every source symbol is translated: to itself when some source of it is unmatched, else to the last target matched to it |
| `Adapter.BuildSymbolIndex` | external_scanner_adapter.go:346-354 | Each symbol is mapped to its first position |
| `Adapter.RowRoundTrip` | external_scanner_adapter.go:241-262 | A source row of valid externals carried to the target and back is the row restricted to matched sources |
| `Adapter.AdaptRows` | external_scanner_adapter.go:241-262 | Each adapted row marks a target exactly when its source is marked |
| `Adapter.OfferedIffFaithful` | external_scanner_adapter.go:150-167 | Over all flag vectors, every translated result is one the caller offered if and only if each first occurrence of a source symbol translates to the target it serves |
| `Adapter.DistinctIsFaithful` | external_scanner_adapter.go:332-362 | Distinct source symbols give that condition |
| `Adapter.RepeatedSymbolLeaks` | external_scanner_adapter.go:150-167 | For any two languages where two source externals share a symbol and the target has two, a symbol not offered comes out of the tables built from them |
| `Adapter.ScanLeaks` | external_scanner_adapter.go:103-123 | The same through the constructor and a scan of the adapter |
| `Adapter.OrderAdapter.constructor` | external_scanner_adapter.go:191-208 | The adapter holds the matching, the translation and the index of its two languages |
| `Adapter.OrderAdapter.PrepareFlags` | external_scanner_adapter.go:125-136 | No flag of an earlier scan survives in the reused buffer |
| `Adapter.OrderAdapter.MapValid` | external_scanner_adapter.go:138-148 | A source is flagged exactly when a target it serves was marked valid |
| `Adapter.OrderAdapter.Scan` | external_scanner_adapter.go:103-123 | With distinct source symbols any symbol emitted is the target symbol of an external marked valid in this call; a result that was not valid is withdrawn |
| `Lexer.RuneIsPlainOrHigh` | external_lexer.go:91-105 | For every byte string a rune takes between one byte and the rest of the input, is ASCII exactly when its first byte is, and hides no newline or space |
| `Lexer.DecodesEncoded` | external_lexer.go:51-61 | The UTF-8 encoding of every scalar value, whatever follows it, is read back as that value over just its bytes |
| `Lexer.EncodesDecoded` | external_lexer.go:51-61 | Bytes read as one rune of several bytes are the encoding of that rune; a single byte is an ASCII character or an error |
| `Lexer.WalkCountsRows` | external_lexer.go:91-122 | The row advances by the number of newlines passed, modulo 2^32 |
| `Lexer.WalkCountsColumns` | external_lexer.go:91-122 | After a newline the column is the number of bytes since the last one, modulo 2^32 |
| `Lexer.StepWalks` | external_lexer.go:91-122 | A single move, over any bytes, is a byte-wise walk of the point over the bytes it takes |
| `Lexer.BulkSpaces` | external_lexer.go:128-145 | Scanning bytes to the first non-space ends in the state of repeated single moves, 32-bit column wrap included |
| `Lexer.BulkLine` | external_lexer.go:151-168 | Scanning bytes to the first newline ends in the state of repeated single moves, over malformed UTF-8 as well |
| `Lexer.MoveKeepsSound` | external_lexer.go:91-175 | Every move and mark keeps positions in order and each point the one its bytes give |
| `Lexer.RunYieldsToken` | external_lexer.go:214-251 | After any run of moves and marks the token's start is no later than its end, its text is the bytes between and its points are those of its bytes |
| `Lexer.MarksDecideToken` | external_lexer.go:214-251 | After any run the token ends at the last mark, or at the cursor without one, starts where the last skip ahead of any content left it, and has the symbol emitted last |
| `Lexer.OrderedIffAddressable` | external_lexer.go:214-251 | Ordered tokens over all runs are promised if and only if the source is shorter than 2^32 bytes |
| `Lexer.ExternalLexer.Reset` | external_lexer.go:29-42 | A reset lexer stands at the given place with nothing marked, advanced or emitted |
| `Lexer.ExternalLexer.Lookahead` | external_lexer.go:51-61 | The ASCII shortcut gives the decoded rune |
| `Lexer.ExternalLexer.Advance` | external_lexer.go:91-122 | A move is the specified single step and keeps positions in order |
| `Lexer.ExternalLexer.AdvanceSpaces` | external_lexer.go:128-145 | The bulk move equals single moves while the lookahead is a space, and counts the bytes |
| `Lexer.ExternalLexer.AdvanceUntilNewline` | external_lexer.go:151-168 | The bulk move equals single moves up to a newline or the end, and counts the bytes |
| `Lexer.ExternalLexer.MarkEnd` | external_lexer.go:171-175 | The mark is the current place |
| `Lexer.ExternalLexer.SetResultSymbol` | external_lexer.go:178-181 | Emitting sets the result and nothing else |
| `Lexer.ExternalLexer.Finish` | external_lexer.go:214-251 | The token is the one the marks decide (`Lexer.MarksDecideToken`): unmarked scans end at the cursor, a mark before the start gives an empty token there |

## Left out

- The parser loop, lexing tables, action tables, error recovery and incremental reuse: none of the properties here depends on them.
- The certified eight-link policy with offset-aware payload comparison (glr.go:3842-4050); the ordinary six-link policy is modelled.
- Payload equivalence of stack links is class equality. The source compares full and compact entries in ways that are not transitive across the two forms, and path classes would have no meaning there.
- 32-bit wrap-around of the staging epoch of one dry run, of the generation of clean marks and of dirty counters; the model counts these without bound. The generation of the reach cache and the epoch of comparisons do wrap.
- The stored hash of a stack node and its staleness after an upgrade; `SpineMemo` takes as given that a non-zero fingerprint determines the spine, and shows that this is needed.
- Dense reachability marks of the dry run are a set of visited nodes.
- The minimum link score and the alternatives index of forest nodes, and the driver that feeds arrivals.
- Error costs of recovery, raw-shape comparison, hidden-symbol tests and payload equality inside stack comparison are parameters.
- The mixing of signatures is a parameter. Congruence is for every fold; what equal signatures tell is for one that never collides, which a 64-bit fold only approaches.
- Hashes of stacks holding compact or pending entries; the prefilter result is for full nodes.
- The cull above the live-stack limit, the budget stop, and the dropping of dead stacks before a round.
- MergePaths.MergeSmall: bounds no key, as the source does not for up to four stacks.
- MergePaths.MergeSlots: with one survivor per key the recovery-aware comparison is a parameter, so the survivor is the better one by that comparison or by rank, not by rank alone.
- Slab families other than nodes, children, fields and field sources; they repeat the same loops. Byte counts cover the four families.
- Capacity growth of the checkpoint slices and its share of the byte count.
- Update in place inside a slab: slabs are sequences held by the arena object, so a caller's alias into a slab is a range, and writing through it is a method of the arena.
- Reference counts, pools and locking of arenas; use of a range after a reset.
- Copying checkpoints between arenas; the folds are over one arena, as bottom-up recording is.
- The address arithmetic that finds a node's slab; a node carries its slot.
- The inner scanner is an arbitrary function of the flags it is given; its payload, serialisation and capabilities are not part of this model.
- Looking behind the cursor (external_lexer.go:81-87, 198-212).
