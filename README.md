# process-voids: skip probabilities and coverage mass of a process tree

This project models the core of process-voids in Dafny. process-voids estimates, for every
node of a process tree, how likely the recorded behaviour of a log skips it. It also
measures how much of the tree the data covers. The pipeline of the core is:

- **Reshuffling** (execution.py). Each optimal *skip alignment* of a trace variant has its
  node execution spans narrowed and its log moves removed. Its executions are arranged into
  an *execution tree*, and the tree is reshuffled into all *coinciding* optimal alignments.
  The log moves are merged back in, and only alignments that replay the whole trace are kept.
- **Skip counting** (skips.py). For each skip alignment and node: how often the node is
  skipped, how often it is executed, and the conditional skip probability
  `skip / (skip + non-skip)`.
- **Alignment scores** (probabilities.py). Alignments are counted per model path. Each skip
  alignment is scored with the partial probabilities of its coinciding alignments, and the
  scores are normalised per variant into conditional probabilities.
- **Derivation** (derivation.py). The variant distribution, consecutive names for the skip
  alignments, and the skip probability of every node, each from the three tables above.
- **Coverage mass** (coveragemass.py). Leaf weights come from a stochastic labelled Petri net
  (SLPN). Operator weights are derived from them, and a coverage in [0, 1] is computed from
  the skip probabilities.
- **SLPN** (slpn.py, slpn_importer.py). The net object, and the reader of the line-based
  `.slpn` format.

Modules, one concept each:

- `Wrappers`: `Option`, `Result`.
- `Strings`: strip, `int()`, `str()`, the decimal subset of `float()`, split, join.
- `ProcessTree`: the tree, pre-order, nodes, leaves.
- `Alignment`: moves, steps, executions, the `State` class, and model traces.
- `Shuffles`: `assign`, `all_order_preserving_shuffles`, `itertools.product`.
- `ExecutionTrees`: `ExecutionTree.shuffle`, `build_execution_tree`.
- `ExecutionManager`: the rest of execution.py.
- `Skips`, `Probabilities`, `Derivation`, `CoverageMass`, `Slpn`, `SlpnImporter`.
- `SlpnFormat`: the `.slpn` text of a net description, and the proof that reading it back
  gives that net.

Each operation takes the form of its source:

- **Loops that update objects** become methods on classes or on `State`, proved against
  pure specification functions:
  - narrowing and log-move removal;
  - building the execution tree;
  - `fix_tree_references`;
  - the table-filling loops of probabilities.py and derivation.py;
  - the weight updates of coveragemass.py;
  - the net's `add*` methods;
  - the importer.
- **Recursive folds** become functions with lemmas. Examples: the count functions,
  `_traverse_tree`, `get_tree_node_by_id`, `coverage_mass`.
- **Floats** are `real`.
- **Python dictionaries** are `map`s. Where their iteration order matters, they are sequences
  of key/value pairs in insertion order.
- **Object identity**:
  - Nodes are compared structurally. With unique node ids, as the trees of the pipeline
    have, that agrees with identity (`Skips.UniqueIdsOnly`).
  - Skip alignments (`State`) are objects. A dictionary keyed by them is a `map<State, _>`.
- **Exceptions**:
  - A Python exception the code raises is the `Err` case of a `Result`: a failed
    `assert`, an `IndexError`, a `ZeroDivisionError`, a `TypeError` from adding None, the importer's `EOFError`,
    `ValueError` and `RuntimeError`.
  - A dictionary lookup that the code never guards is a precondition on the method that
    performs it, stating that every key it looks up is present.

## Model

| member | source | states |
|---|---|---|
| Alignment.ModelTraceMembers | probabilities.py:169 | The model trace of an alignment holds exactly the model moves of its steps other than `'>>'`, and is no longer than the alignment. |
| Alignment.ModelTraceAppend | skips.py:39 | The model trace of a concatenation is the concatenation of the model traces. |
| Alignment.LogLabelsAppend | execution.py:230 | The log labels other than `'>>'` of a concatenation are the concatenation of the labels. |
| Alignment.State.constructor | execution.py:278 | A state copy holds the given path and executions. |
| ProcessTree.PreOrderIsContains | skips.py:10-17 | A node occurs in the pre-order of a tree iff the tree contains it. |
| ProcessTree.ChildrenDisjoint | skips.py:91-97 | In a tree with unique ids, a node does not occur below itself, and different children have disjoint subtrees. |
| Shuffles.Assign | execution.py:61-70 | `assign` returns the list in which the inserted values sit at their given positions and the fill-up values fill the rest in order. |
| Shuffles.AssignedPlaces | execution.py:61-70 | The result has length `len(insert) + len(fillup)`, and each inserted value sits at its index. |
| Shuffles.AssignedFillOrder | execution.py:61-70 | Leaving out the inserted positions gives back the fill-up list. |
| Shuffles.AssignedInterleaves | execution.py:61-70 | The result interleaves the inserted values with the fill-up list, keeping the order of both. |
| Shuffles.CombinationsCount | execution.py:52 | `itertools.combinations(range(n), k)` yields binomial(n, k) tuples. |
| Shuffles.CombinationsShape | execution.py:52 | Each combination is strictly increasing, has k entries, and lies in range(n). |
| Shuffles.Shuffles2Spec | execution.py:50-55 | The shuffles of two paths number binomial(|p0|+|p1|, |p0|), and each interleaves the two paths. |
| Shuffles.AllShufflesContain | execution.py:50-59 | Every order-preserving shuffle of two or more paths has their total length and contains each path as a subsequence. |
| Shuffles.ProductCount | execution.py:85 | `itertools.product` yields the product of the sizes of its arguments. |
| Shuffles.ProductMember | execution.py:85 | A tuple is in the product iff it picks one element of each argument, in order. |
| ExecutionTrees.ShuffleChildrenEach | execution.py:82-83 | The reshufflings of the children are, in order, each child's own reshufflings. |
| ExecutionTrees.SequenceShuffle | execution.py:79-91 | For a Sequence or Loop execution, an alignment is a reshuffling iff it concatenates one reshuffling of each child, in child order; there are as many as the product of the children's counts. |
| ExecutionTrees.XorShuffle | execution.py:92-94 | A Xor execution reshuffles as its first child; without children it raises IndexError. |
| ExecutionTrees.AndShuffle | execution.py:95-106 | Every reshuffling of an And execution picks one reshuffling per child and interleaves them: it has their total length and contains each as a subsequence. |
| ExecutionTrees.SortSpec | execution.py:169 | Sorting the executions orders them by (start, -stop, depth) and is a permutation. |
| ExecutionTrees.SortSorted | execution.py:169 | Sorting executions that are already in order leaves them unchanged. |
| ExecutionTrees.BuildExecutionTree | execution.py:167-220 | The result is a well-built execution tree, and `state.path` is unchanged. Its executions plus those left in the state are exactly the executions before the call plus the given node, so each is consumed at most once. Without a given node the root is the first execution in sort order; an empty list raises IndexError. |
| ExecutionTrees.TakeRoot | execution.py:169-173 | The root is the given node, or else the smallest execution in sort order, removed from the state. An empty list raises IndexError. |
| ExecutionTrees.BuildDeclared | execution.py:179-191 | On success, a Sequence/And execution gets exactly one child per declared child, in declared order, each for that node and inside the parent's span, each consumed from the state. |
| ExecutionTrees.BuildExecuted | execution.py:192-219 | On success, a Xor execution gets exactly one child and a Loop at least one. Each is for a child node of the parent, lies inside its span, and is consumed from the state. |
| ExecutionTrees.BuildLoopBody | execution.py:204-219 | On success, the Loop gets at least one child, each for a child node of the Loop, inside its span, and consumed from the state. |
| ExecutionTrees.FindChild | execution.py:183-187 | Returns the first index whose execution is for the child and lies inside the parent, or the length when none does. |
| ExecutionTrees.FindChildOf | execution.py:195-199 | Returns the first index whose execution's node is a child of the parent and lies inside it, or the length. |
| ExecutionManager.NarrowStepSpec | execution.py:117-137 | One narrowing step stops exactly when both boundary moves are good for the node: not `'>>'`, and a skip or move of a node the execution's node contains. |
| ExecutionManager.NarrowSpec | execution.py:114-137 | The narrowed span lies in the old one and keeps its order. If non-empty, both its boundary moves are good; every position it dropped is not good. |
| ExecutionManager.NarrowIdempotent | execution.py:114-137 | Narrowing a narrowed span changes nothing. |
| ExecutionManager.CorrectToNarrowestMoves | execution.py:114-137 | Every execution span of the state is replaced by its narrowed span; the path is unchanged. |
| ExecutionManager.NarrowedAll | execution.py:114-137 | After narrowing, every span is ordered, and no non-empty span starts on a log move. |
| ExecutionManager.RemoveLogMoves | execution.py:139-165 | The state's path, spans, log moves and log path become exactly those of the removal specification. |
| ExecutionManager.RemoveLogMovesSpec | execution.py:139-165 | No `'>>'` model move is left, and the path shrinks by the number of log moves. The log path interleaves the kept log labels with the log moves, so the log moves are a subsequence of it. Each log label is tagged with its index in the log path. For narrowed spans, each span covers the same model moves as before. |
| ExecutionManager.RemoveSpans | execution.py:148-157 | A log move at position i shortens the spans that straddle it, shifts the spans after it down by one, and leaves the rest alone. Every span keeps covering the same model moves. |
| ExecutionManager.NarrowThenRemove | execution.py:275-276 | Narrowing and then removing log moves keeps every span ordered and covering the same model moves. |
| ExecutionManager.MergeLogMovesSpec | execution.py:234-262 | Each alignment produced by merging the log moves extends one base alignment by exactly one step per log move, with the same model trace. |
| ExecutionManager.MatchingMember | execution.py:263-265 | An alignment is yielded iff its log labels other than `'>>'` equal the log path. |
| ExecutionManager.YieldedSpec | execution.py:226-265 | Every yielded alignment replays the log path. It comes from a candidate whose log labels are the log path without the log moves, extended by the log moves. |
| ExecutionManager.CoincidingOfSpec | execution.py:222-266 | The same, for candidates that are reshufflings of the execution tree. |
| ExecutionManager.Disjoint | execution.py:293-296 | Returns true iff no two sets of the list intersect. |
| ExecutionManager.Validate | execution.py:291-297 | Raises ValueError iff some variant has two intersecting sets of coinciding alignments. |
| ExecutionManager.UnionAllMember | execution.py:299-306 | An alignment is in a variant's union iff it is in one of its sets. |
| ExecutionManager.Union | execution.py:302-305 | The loop computes the union of the sets. |
| ExecutionManager.CoincidingAgnsVar | execution.py:299-306 | Same keys as the input; each value is the union of that variant's sets. |
| ExecutionManager.CoincidingOfUnfolded | execution.py:277-280 | The execution tree of the copy is well built, rooted at its first execution in sort order, and made of its executions only. The recorded set is exactly the distinct alignments shuffle yields from that tree, each replaying the log path. Without executions it raises IndexError. |
| ExecutionManager.CoincidingOfState | execution.py:274-285 | The state is narrowed and its log moves are removed, exactly as the removal specification gives. For each alignment the prepared state unfolds into, it records the set that shuffle yields from that alignment's own execution tree. Every member replays the log path. |
| ExecutionManager.CoincidingOfMember | execution.py:273-285 | One turn of the inner loop: the next skip alignment is prepared and its sets are recorded, and C gains the union of its sets when there are any. The skip alignments after it keep their paths and spans. |
| ExecutionManager.CoincidingOfVariant | execution.py:272-287 | For one variant, every skip alignment is prepared and gets its sets from its unfolded alignments. C maps exactly those with at least one set to the union of their sets, and already_found is all their sets in order. |
| ExecutionManager.CoincidingOfEntry | execution.py:270-287 | One turn of the outer loop: the variant's skip alignments are prepared and their sets recorded. C gains their unions, global_C maps the variant to its already_found list, and later variants are untouched. |
| ExecutionManager.CoincidingAgns | execution.py:268-289 | Every skip alignment ends narrowed with its log moves removed, computed from its original path and spans. Its sets are those CoincidingOfState records for it. C maps exactly the skip alignments that have at least one set to the union of their sets. global_C maps each variant to all the sets of its skip alignments, in order. A variant without skip alignments, or an empty dictionary, raises ZeroDivisionError. |
| Skips.FirstWithIdSpec | skips.py:10-17 | The first node with the id: absent iff no node has it, otherwise every earlier node has another id. |
| Skips.GetTreeNodeByIdIsPreOrder | skips.py:10-17 | The search returns the first node with that id in pre-order. |
| Skips.GetTreeNodeByIdSpec | skips.py:10-17 | None iff no node of the tree has the id; otherwise a node of the tree with that id. |
| Skips.GetTreeNodeByIdOfNode | skips.py:10-17 | With unique ids, looking up a node's id finds that node. |
| Skips.UniqueIdsOnly | skips.py:10-17 | With unique ids, two nodes with the same id are the same node. |
| Skips.FixMoveSpec | skips.py:21-30 | Relinking a move keeps its kind, skip cost and node id. A known id resolves to a node of the tree. An unknown id keeps the old reference, and a node already in a tree with unique ids is left unchanged. |
| Skips.UnresolvedOutsideTree | skips.py:21-30 | A move whose id the tree does not know keeps its reference, which is no node of the tree and lies inside none. |
| Skips.FixMoveIdempotent | skips.py:21-30 | Relinking twice is relinking once. |
| Skips.FixPathSpec | skips.py:19-30 | Relinking keeps the path length, each log label and each `'>>'` model move. It is idempotent, and a path already over the tree is unchanged. |
| Skips.FixTreeReferences | skips.py:19-30 | The path is replaced by its relinked path; executions and name are unchanged. |
| Skips.FixSagns | skips.py:32-35 | Every skip alignment of the dictionary has its path relinked, and nothing else changes. |
| Skips.SkipsOfSpec | skips.py:39-43 | The counted moves are exactly the Skip/TauPath moves of the model trace whose node is the tree. |
| Skips.CountSkipExecutions | skips.py:37-44 | Returns that number of moves times the multiplier. |
| Skips.CountNonSkipExecutions | skips.py:46-81 | The loop-based count equals the recursive specification, including its failed assertions. |
| Skips.ChildExecutionsSpec | skips.py:52-56 | The children's counts succeed iff each child's skip+non-skip count does, and they are those counts in order. |
| Skips.Lockstep | skips.py:51-58 | For Sequence and And, the count succeeds iff there are children and all report the same skip+non-skip count; it is that common count. |
| Skips.ChoiceSum | skips.py:59-65 | For Xor, the count is the sum of the children's counts. |
| Skips.LoopDifference | skips.py:74-81 | For Loop, the count is the do-child's count minus the redo children's counts. The assertion fails exactly when that is negative. |
| Skips.NonSkipNonnegative | skips.py:46-81 | With a non-negative multiplier, a successful count is non-negative. |
| Skips.NonSkipLinear | skips.py:46-81 | The count with multiplier k is k times the count with multiplier 1, and fails for the same trees. |
| Skips.CondSkipProbBounds | skips.py:83-89 | It succeeds iff the non-skip count does. It is 0 when the node is never reached, otherwise `skip/(skip+nonskip)` in [0, 1]. |
| Skips.ConditionalSkipProbOf | skips.py:83-89 | The method computes that conditional skip probability. |
| Skips.TraverseTreeSpec | skips.py:91-97 | The traversal lists exactly the tree's nodes, as many as pre-order, with the tree last and every child before its parent. |
| Skips.NodeProbs | skips.py:104-108 | One state's map has exactly the tree's nodes as keys, each with its conditional skip probability; a failure comes from some node. |
| Skips.ConditionalSkipProbs | skips.py:100-109 | It succeeds iff every (state, node) pair does. It then has an entry for every skip alignment, each a map over all nodes of the tree. |
| Probabilities.IdToActivitySpec | probabilities.py:18-26 | The result is the name of the first node in pre-order with the id, or None when there is none. A non-leaf match fails the assertion. |
| Probabilities.CountTableSpec | probabilities.py:166-173 | The table's keys are exactly the model paths that occur. Each count is the number of alignments with that path, at least 1, and the counts sum to the number of alignments. |
| Probabilities.CountAlignments | probabilities.py:168-173 | It succeeds iff no alignment is empty, and then counts each alignment's model path into the table. An empty alignment raises IndexError. |
| Probabilities.TraceCounts | probabilities.py:163-173 | It succeeds iff no variant has an empty alignment, and otherwise raises IndexError. trace_counts then has one entry per variant, the count table of all its alignments. |
| Probabilities.TraceProbs | probabilities.py:159-181 | It succeeds iff no alignment is empty and `measure` has every model-path id tuple. An empty alignment raises IndexError; otherwise a missing tuple raises KeyError. The probability keys are exactly those tuples, with their measured values; trace_counts is as above, and the time is -1. |
| Probabilities.ScoreNonnegative | probabilities.py:211-214 | With non-negative trace probabilities, a score is non-negative. |
| Probabilities.SkipAgnProbs | probabilities.py:207-215 | It is 0 when neither the executions nor the Skip/TauPath moves of the state reference the node's id. Otherwise it is the sum, over the coinciding alignments, of their probability divided by their count. |
| Probabilities.NormalizeSpec | probabilities.py:230-231 | Positive scores normalise to conditional probabilities that sum to 1, each proportional to its score, and in [0, 1] when the scores are non-negative. Otherwise every conditional probability is 0. |
| Probabilities.NormalizeScores | probabilities.py:230-231 | The loop computes that normalisation. |
| Probabilities.VariantScores | probabilities.py:228-229 | Each state of a variant gets its skip-alignment score. |
| Probabilities.PutSpec | probabilities.py:228-231 | Writing distinct states' values into a map stores each value and leaves every other key alone. |
| Probabilities.SkipAgnProbsPerNode | probabilities.py:217-232 | Every variant's states get their scores and the normalisation of those scores. |
| Probabilities.PerNodeDistribution | probabilities.py:227-231 | Per variant: with a positive score sum, the conditional probabilities sum to 1; otherwise they are all 0. They lie in [0, 1] when the trace probabilities are non-negative. |
| Probabilities.SkipAgnProbsTraversal | probabilities.py:234-259 | Both maps have exactly the nodes of the tree as keys, each holding that node's per-node result. |
| Probabilities.TraverseChildren | probabilities.py:253-258 | Merging the children's maps adds exactly the nodes of the children's subtrees. |
| Derivation.GetEntry | derivation.py:193-194 | With distinct keys, looking up a key of the dictionary finds its value. |
| Derivation.VariantProbDistSpec | derivation.py:192-200 | The distribution is defined iff the counts sum to non-zero or there are no variants. Each probability is count/total; they sum to 1 and lie in [0, 1] for non-negative counts. |
| Derivation.DistShares | derivation.py:192-200 | The same, for a non-empty dictionary. |
| Derivation.RenameSagns | derivation.py:217-222 | The skip alignments are named 0, 1, ..., N-1 in dictionary order; paths and executions are unchanged. |
| Derivation.Snapshot | derivation.py:78 | The backup copy has, in order, the same variants and for each skip alignment its name and path. |
| Derivation.ProbPerStateAndNodeBounds | derivation.py:225-229 | The product of three probabilities is in [0, 1], at most each factor, and 0 when a factor is 0. |
| Derivation.SumProducts | derivation.py:232-234 | The first loop sums the products over the variant's skip alignments. |
| Derivation.SumReaching | derivation.py:236-240 | The second loop sums the conditional probabilities of the backup skip alignments that reach the node; a failed count assertion propagates. |
| Derivation.ProbPerVariantAndNode | derivation.py:231-243 | It is 0 when the reaching mass is 0, and otherwise the summed products divided by that mass. |
| Derivation.VariantNodeUnreached | derivation.py:236-243 | When no skip alignment of the variant reaches the node, the result is 0. |
| Derivation.CountReaching | derivation.py:252-256 | The inner loop adds up skip and non-skip counts over a variant's backup skip alignments. |
| Derivation.CountsOfSpec | derivation.py:252-257 | The count fails iff one alignment's count does, and is non-negative. It is positive iff some skip alignment reaches the node. |
| Derivation.SumVariants | derivation.py:246-248 | The first loop sums the per-variant probabilities. |
| Derivation.SumReachingVariants | derivation.py:250-257 | The second loop sums the probabilities of the variants that reach the node. |
| Derivation.ProbPerNode | derivation.py:245-260 | It is 0 when the reaching variant mass is 0, and otherwise the summed per-variant probabilities divided by that mass. |
| Derivation.NodeSumErr | derivation.py:246-248 | The sum fails iff a variant's probability fails, with the first such error. |
| Derivation.NodeUnreached | derivation.py:245-260 | When no variant reaches the node, its probability is 0. |
| Derivation.NodeProbNonnegative | derivation.py:245-260 | With non-negative tables, a node's probability is non-negative. |
| Derivation.RecurNodeProb | derivation.py:263-274 | The result has exactly the nodes of the tree as keys, each with its node probability. A failure is some node's failure. |
| CoverageMass.LastMatchSpec | coveragemass.py:11-15 | The lookup finds nothing iff no transition is labelled with the leaf's id. Otherwise it gives the weight of the last such transition, which may itself be None. |
| CoverageMass.ActivityWeightsSpec | coveragemass.py:8-15 | A leaf with a matching transition takes the last match's weight, and a None weight leaves it without one. Every other node keeps its weight. |
| CoverageMass.TreeWeightOfLeaves | coveragemass.py:17-26 | A subtree's inferred weight depends only on its leaf weights. |
| CoverageMass.InferredSpec | coveragemass.py:17-26 | Every node of the tree gets its inferred weight: Xor the sum, other operators the mean of their children. Leaves and nodes outside the tree keep their weight. |
| CoverageMass.TreeWeights.constructor | coveragemass.py:8-26 | The weight table starts from the given weights. |
| CoverageMass.TreeWeights.UpdateActivityWeights | coveragemass.py:8-15 | The table becomes the activity-weight update of the old table. |
| CoverageMass.TreeWeights.InferOperatorWeights | coveragemass.py:17-26 | A leaf changes nothing. On an operator it succeeds iff every leaf below has a weight and every And, Sequence and Loop below has children; the table then becomes the inferred weights of the old table. Otherwise it raises TypeError (a None weight in the sum) or ZeroDivisionError (a mean without children); when only one of the two can occur, it is that one. |
| CoverageMass.TreeWeights.InferChildren | coveragemass.py:20-21 | Inferring a list of children succeeds iff inference succeeds on each child. It then infers each child in turn, gives every operator child a weight and keeps the leaf entries; the errors are as above. |
| CoverageMass.TreeWeights.TransferPtWeights | coveragemass.py:29-31 | The table is updated from the net and then inferred. It succeeds iff inference succeeds on the updated table, and then holds the inferred weights of that table. It fails only with TypeError or ZeroDivisionError. |
| CoverageMass.CoveragesSpec | coveragemass.py:45-51 | The list of child coverages succeeds iff each child's does, and holds them in order. |
| CoverageMass.CoverageFails | coveragemass.py:39-52 | Coverage succeeds iff every child has a weight, every Xor with children has a non-zero total weight, and every other operator has children. Otherwise it raises TypeError or ZeroDivisionError, and only ZeroDivisionError when every child has a weight. |
| CoverageMass.ZeroTotalChoice | coveragemass.py:43-47 | A choice with children of total weight 0 fails. Once its first child's coverage succeeds it raises ZeroDivisionError, whatever its later children are; otherwise it raises that child's error. |
| CoverageMass.ZeroTotalChoiceExample | coveragemass.py:43-47 | A choice of total weight 0 whose second child holds a leaf without a weight raises ZeroDivisionError, not TypeError. |
| CoverageMass.NodesWeighted | coveragemass.py:43-51 | When every node has a weight, every child whose weight coverage_mass reads has one. |
| CoverageMass.InferredWeighted | coveragemass.py:17-26 | After inference every child of every operator has a weight, so coverage_mass then meets no None weight. |
| CoverageMass.CoverageBounds | coveragemass.py:39-52 | With skip probabilities in [0, 1] and non-negative weights, the coverage mass lies in [0, 1]. |
| CoverageMass.UpdateActivityWeightsExample | test_coveragemass.py:29-52 | On the test tree and net, the leaves get weights 3, 2, 1. |
| CoverageMass.TreeWeightExample | test_coveragemass.py:55-73 | The inferred weight of the choice is 3, and of the sequence 3. |
| CoverageMass.InferOperatorWeightsExample | test_coveragemass.py:55-73 | Inference on the test tree adds choice 3 and sequence 3 to the leaf weights. |
| CoverageMass.ChoiceCoverageExample | test_coveragemass.py:94-96 | The choice's coverage is exactly 0.4. |
| CoverageMass.CoverageMassExample | test_coveragemass.py:92-99 | The leaf a covers 0.9, and the whole tree 0.65. |
| Slpn.AddPlacesNumbers | slpn.py:17-19 | After n calls to addPlace on an empty net, the places are [0, ..., n-1] and nothing else changed. |
| Slpn.AddPlaceKeepsIndexed | slpn.py:17-19 | addPlace keeps the places numbered by their index. |
| Slpn.AddToMarkingOneKey | slpn.py:21-23 | Adding to the marking sets or overwrites exactly one key. |
| Slpn.StochasticLabelledPetriNet.constructor | slpn.py:10-15 | A new net is empty. |
| Slpn.StochasticLabelledPetriNet.AddPlace | slpn.py:17-19 | Appends the previous number of places; nothing else changes. |
| Slpn.StochasticLabelledPetriNet.AddPlaceToInitialMarking | slpn.py:21-23 | Sets the place's tokens; nothing else changes. |
| Slpn.StochasticLabelledPetriNet.AddTransition | slpn.py:25-26 | Appends one transition with that label and weight; nothing else changes. |
| Slpn.StochasticLabelledPetriNet.AddSilentTransition | slpn.py:28-29 | The same as adding a transition labelled "silent". |
| Slpn.StochasticLabelledPetriNet.AddPlaceTransitionArc | slpn.py:32-33 | Appends one incoming arc; the outgoing arcs are untouched. |
| Slpn.StochasticLabelledPetriNet.AddTransitionPlaceArc | slpn.py:35-36 | Appends one outgoing arc; the incoming arcs are untouched. |
| SlpnImporter.NextLineIndexFirst | slpn_importer.py:94-101 | The next line read is the first line at or after the position that is not a comment. |
| SlpnImporter.LineReader.ReadLine | slpn_importer.py:96 | Returns the next line and advances, or nothing at the end of the input. |
| SlpnImporter.GetNextLine | slpn_importer.py:94-101 | Returns the next non-comment line stripped, and raises EOFError when the input runs out. |
| SlpnImporter.ReadInt | slpn_importer.py:39 | `int()` of the next line; text that is no integer raises ValueError. |
| SlpnImporter.PlacesStep | slpn_importer.py:40-45 | Each place is added, and entered in the initial marking only with a positive token count. |
| SlpnImporter.ReadPlacesInto | slpn_importer.py:40-45 | The loop adds the declared places as specified. |
| SlpnImporter.ReadTransitionInto | slpn_importer.py:50-72 | One transition: a `silent` line gives label "silent", a `label X` line gives X, anything else raises RuntimeError. Its incoming, then outgoing arcs are added. |
| SlpnImporter.ReadTransitionsInto | slpn_importer.py:48-72 | The loop adds the declared transitions in order. |
| SlpnImporter.ReadArcsInto | slpn_importer.py:63-72 | Adds exactly the declared arcs, in file order, tagged with the transition's index. |
| SlpnImporter.Read | slpn_importer.py:30-74 | Returns a fresh net equal to the one the reading specification gives: header skipped, then places, transitions and arcs. It fails, with the same error, exactly when the specification does. |
| SlpnFormat.FractionRead | slpn_importer.py:77-91 | `a/b` parses to a/b, and a zero denominator gives None. |
| SlpnFormat.NotDecimalWithSlash | slpn_importer.py:80-83 | Text with a slash is not a decimal, so the fraction branch is taken. |
| SlpnFormat.ParseNumberInteger | slpn_importer.py:77-81 | An integer parses to itself. |
| SlpnFormat.ParseNumberFraction | slpn_importer.py:77-91 | A written fraction parses back to its value, or None with a zero denominator. |
| SlpnFormat.PlacesRead | slpn_importer.py:38-45 | Reading the place lines gives the places numbered in order, with the positive token counts as the initial marking. |
| SlpnFormat.ArcsRead | slpn_importer.py:62-72 | Reading n arc lines appends the n arcs in text order. |
| SlpnFormat.TransitionTextRead | slpn_importer.py:47-72 | Reading one written transition adds it with its label, its weight and its arcs. |
| SlpnFormat.TransitionsRead | slpn_importer.py:47-72 | Reading the written transitions adds them all in order. |
| SlpnFormat.ReadRendered | slpn_importer.py:30-74 | Reading the `.slpn` text of any writable net description gives exactly that net, and consumes the whole text. |
| Strings.ParseIntOfString | slpn_importer.py:39 | `int(str(i)) == i`. |
| Strings.StripEnds | slpn_importer.py:101 | A stripped line neither starts nor ends with whitespace. |

## Left out

- File and process I/O:
  - opening files (`read_slpn`, `compute`'s pickle writes);
  - the `__main__` block of slpn_importer.py;
  - `import_from_stream`, which only forwards to `read`;
  - the external `ebi` binary and pm4py (`write_tree_to_petri`, `write_log`, `ebi_slpn`, `ebi_trace_prob`, `validate_slpn`, `question_duplicates`, `reconstruct_petri_net`, `update_slpn_weights`);
  - the `ProcessPoolExecutor` branch of `trace_probs`.

  These are I/O and concurrency. The importer reads a sequence of lines instead of a stream.
- The rest of the derivation pipeline, because it is pipeline plumbing:
  - `get_variant_dict`, whose variant → count dictionary is an input here;
  - `compute_skip_alignments` (external aligner, futures, timeout);
  - `compute`'s timing;
  - `stats`, `print_blinded`, `results`, `write`.
- Printing, `tqdm` progress bars, `__str__`/`__repr__`, and `set_parent`: diagnostics and rendering. Parent links are replaced by "is a child of".
- `ExecutionTree.get_distance_to_root`: the sort key's depth is a function parameter.
- `State.unfold` and `State.copy` (alignment.py) are not part of this model. unfold is a function parameter; copy is a fresh `State` with the same path and executions.
- The scripts pvoid.py, rtfm.py and disco.py: command-line scripts, demos and printing.
- Floating point: every probability, weight and ratio is an exact `real`.
  - So `CoverageMass.ChoiceCoverageExample` and `CoverageMass.CoverageMassExample` state the exact values 0.4 and 0.65.
  - The test checks them with tolerance 0.002, around 0.399 and 0.6495.
- `SlpnImporter.ReadInt`:
  - `int()` is modelled for an optional sign and ASCII digits, with surrounding whitespace.
  - Not modelled: underscores, non-ASCII digits, and whitespace outside ASCII 9–13 and space.
- `SlpnImporter.GetNextLine`: `strip()` removes only ASCII whitespace here.
- The weight parser handles `float()` only for decimals (sign, digits, optional fraction).
  - Exponents, `inf` and `nan` are read as not-a-number, and so reach the fraction branch.
- ExecutionManager.CoincidingAgns: C's entries for the unfolded copies are not kept, because they are fresh objects nobody else holds. The compression ratio is only printed, so only its division by zero is modelled.
- `ExecutionManager.CorrectToNarrowestMoves`: spans are values, not shared objects. Aliasing between two executions of one state is not modelled.
- `Probabilities.SkipAgnProbsTraversal` and `Probabilities.SkipAgnProbsPerNode`:
  - They require every dictionary entry they look up to be present; a missing key (KeyError) is not modelled.
  - `Derivation.ProbPerVariantAndNode`, `Derivation.ProbPerNode` and `Derivation.RecurNodeProb` require the same of their lookups.
- ExecutionTrees.BuildDeclared: states the children on success only; it does not say which missing child makes the assertion fail.
- ExecutionTrees.BuildExecuted: states the children on success only.
- ExecutionTrees.BuildLoopBody: states that the children are matching executions, not that every matching execution before the Loop's stop is collected.
- `ExecutionTrees.Shuffle`: the `ValueError` for an unknown node type cannot occur, because the tree type has only the four operators and leaves.
- Skips.FixMoveSpec: an id the tree does not know keeps the old node reference, where the source stores None (`Skip(None, cost)`, `TauPath(None)` or a bare None move). `Skips.UnresolvedOutsideTree` shows that the kept reference, like None, is no node of the tree. A second relinking of such a move, which raises AttributeError on None in the source, succeeds here.
- Skips.FixTreeReferences: the same unknown-id difference, for every step of the path.
- Skips.FixSagns: the same unknown-id difference, for every skip alignment.
- Probabilities.CountTableSpec: it is about the table of any list of alignments, and counts an empty alignment under the empty model path. The IndexError of an empty alignment is stated by `Probabilities.CountAlignments`, `Probabilities.TraceCounts` and `Probabilities.TraceProbs`, which build the table only when no alignment is empty.
- Probabilities.SkipAgnProbs: an empty coinciding alignment, where the source raises IndexError, is looked up under the empty model path instead.
- ExecutionTrees.BuildExecutionTree: it states the shape of a successful result, the root and the IndexError of an empty list. It does not state that each child is the first matching execution in sort order, nor when the assertions at execution.py:188, 200 and 215 fail.
- ExecutionTrees.AndShuffle: it states that every reshuffling of an And execution interleaves one pick per child. The converse, that every interleaving of every pick is produced, and the count are not stated.
- CoverageMass.TreeWeights.InferOperatorWeights: after a failure, the weights already written are not stated. When both a None leaf weight and a mean without children occur, which error is raised first follows the traversal order and is not stated.
- CoverageMass.TreeWeights.TransferPtWeights: the same, after a failed inference.
