# A model of the radix hash join query engine

The C engine under `src/` answers join queries over in-memory columns of 64-bit values. A query
names some relations, filters, equi-joins and columns to sum. The engine picks a join order by
dynamic programming, applies the filters and then the joins to a list of intermediate results, and
sums the requested columns of the one intermediate that is left. A join is a radix hash join:
both sides are reordered into buckets by seven threads, one side is indexed with chained hash
tables small enough for the cache, and the other side probes it, one job per bucket. Reordered base
columns and indexes are kept in two warehouses across joins and queries. Jobs go to the threads
through a FIFO queue guarded by a monitor.

The project models all of this and proves it against simple definitions: nested loops for the
join, all row-id tuples that satisfy every predicate for a query, cuts for connectivity, a plain
sequence for each linked list and a plain fold for the dynamic program.

## Files

| file | models |
|---|---|
| Words.dfy | 64-bit words, powers of two, the second-level hash |
| JoinSpec.dfy | bags, and the nested-loop join as the reference |
| Histogram.dfy | the parallel histogram |
| Scatter.dfy | the concurrent scatter as a state machine over interleavings |
| Reordered.dfy, Reorder.dfy | what a reordered relation is; prefix sums and reordering |
| Index.dfy | chained indexes, sub-buckets and cache-size arithmetic |
| Probe.dfy | sequential and threaded probe; the radix join is the nested-loop join |
| ResultLists.dfy | the buffered result list |
| RadixJoin.dfy | the warehouses and the join that uses them |
| InterList.dfy | the list of intermediates and the ways to build one |
| QuerySpec.dfy, QueryState.dfy | meaning of queries; the invariant between predicates |
| JointPerformer.dfy | filters and joins applied to the list |
| QueryRun.dfy | a whole query, to its checksums |
| TempRoom.dfy | when the temporary array of a filter or a self-join is long enough |
| States.dfy | for any predicates there is a list of intermediates that keeps the invariant |
| JoinOrders.dfy | the orders of joins that never overrun, and a query whose order does |
| Misfits.dfy | what overrunning means in the query's own terms |
| EmptySides.dfy | the query whose join meets two empty intermediates |
| Graphs.dfy | connectivity |
| Combinations.dfy, Bitmasks.dfy, JoinGraphs.dfy | subsets, their table slots, the join graph |
| JoinEnumeration.dfy, JoinPlans.dfy | the dynamic program, and what its table means |
| BestPlans.dfy | the same plan by a recursion on sets alone, what it costs, and planning a query |
| Scheduler.dfy, JobQueues.dfy | the scheduler's monitor as a state machine; its queue |

## Main results

1. `QueryRun.ExecuteQuery`: for a connected query, with the joins in any order and any contents of the
   warehouses from earlier queries, the run succeeds exactly when no self-join overruns its temporary
   array, and then each checksum is the sum, modulo 2^64, that nested loops over all relations give.
   `QueryRun.ExecuteBatch`: so it is for the queries of any sequence run on the same warehouses, up
   to the first that overruns.
2. `RadixJoin.RadixHashJoin`: whichever branch is taken, cached or not, the pairs are as a bag
   those of the nested loops, `switched` says which side comes first, and the warehouses stay
   coherent. The reuse branches for a best reordering without an index are never taken.
   Two empty sides, for which C leaves the number of slots undefined, join to nothing for every number
   (`RadixJoin.JoinNothing`).
   `Reordered.KeysGrouped`: two tuples of a reordered relation are in the same bucket exactly when their
   keys are congruent modulo the number of buckets.
3. `Scatter.EveryInterleaving` and `Scatter.StepsRunOut`: every interleaving of the threads writes
   each slot at most once and ends, after a fixed number of steps, with each slot written once and
   each bucket in its segment.
4. `Scheduler.EveryRun`: at most one thread is inside, no pop meets an empty queue, no wakeup is
   lost, jobs leave in the order in which they came, and a run that cannot go on has executed each
   job exactly once. Without spurious wakeups every run is at most linearly long.
5. `BestPlans.PlanQuery`: the plan of a query is the one that a plain recursion on sets of relations
   gives: the cheapest way to join one relation to the best plan of the others, the largest such
   relation at equal cost, through the first join of the smallest relation that has one. There is a
   plan exactly when the joins connect the relations (`JoinPlans.FilledIffConnected`), its joins attach
   one relation at a time (`JoinPlans.SlotWellJoined`), and its cost is, modulo 2^64, the rows of the
   first relation plus the estimates of its own joins (`BestPlans.SlotCosted`, for every slot).
6. `JoinOrders.SafeOrderExact`: no run of an order of joins overruns the temporary array of a
   self-join, on any database, if and only if no self-join comes after a join of its relation with
   another one. A caller can check that before the run. The engine does not guarantee it: a
   self-join of two different columns is scheduled first (src/getStats.c:250-252), but one that compares
   a column with itself is not, no tree contains it (`JoinPlans.TreeHasNoSelfJoin`), and it is appended
   after the joins of the tree (src/joinEnumeration.c:529-531). `JoinOrders.LateSelfJoinOverruns` is such
   a query: `0 1|0.0=1.0&0.0=0.0|0.0`.
   For one database `Misfits.MisfitMeaning` is exact: a self-join overruns if and only if the assignments
   to its relation's component that satisfy the predicates so far and itself outnumber the relation's rows.
7. `JoinPlans.PlannedIffOneLeft`: there is a plan for exactly the queries whose execution ends with one
   intermediate over all relations.

## Notes on the model

- Cell values, keys and constants are 64-bit words, and checksums and plan costs wrap modulo 2^64.
  Sizes, positions and row ids are natural numbers: they count elements of arrays of at least eight
  bytes each, so they stay far below 2^64. The value -1 that a probe compares with for an empty bucket is the
  case "entry 0" here.
- Built indexes, reordered relations, intermediates' columns and the tuples of result nodes are
  values once built; nothing writes to them afterwards in the code either. Their construction works
  on arrays, and the lists themselves are linked nodes with a ghost sequence of the nodes.
- The warehouses are sequences and a map. Exponent 100, which stands for "no exponent yet", is
  `None`.
- Base relations are not empty. For an empty relation the code leaves the bucket exponent as it
  was; the model does the same. When both sides are empty intermediates, the exponent is still 100
  when the index is sized, and the code converts 2^100 to a 64-bit number, which C does not define. The model
  takes the conversion to give an arbitrary number of slots, 0 included, and proves that the join is
  empty for every such number. `EmptySides.FiltersLeaveNothing` names a query that comes to this case.
- Jobs of the histogram and of the probe may finish in any order, which the model picks
  arbitrarily. The scatter, whose jobs share counters, is modelled step by step: each lock section is
  one step and each store is one step.
- In the scheduler each section under the mutex is one step, and so are the queue operations, which
  the code performs outside the mutex while holding a flag. A signal wakes any one waiting thread, and
  waiting threads may also wake without a signal.
  In the code enterRead reads the queue's size under the mutex while insertInQueue and popFromQueue
  change it outside the mutex. The guard at src/jobScheduler.c:145 reads it only when no flag is held, but
  line 152 reads it in any case, which is a data race in C. The atomic steps leave that out of sight.
- A combination of relations is a sequence of relation numbers. The code writes them as a
  string of decimal digits read back one character at a time, which is the same for up to ten relations.
- Lines 49-51 of the repository's README.md say that the larger relation is indexed for certain size
  differences and that an estimate of identical keys chooses the side and the number of buckets. The code
  indexes the smaller side and computes the buckets from the size alone (src/radixHashJoin.c:58-73
  and 111-122, src/functions.c:383-386); the model follows the code.
- The merged histogram starts from zeros and adds all seven chunks; the code copies the first chunk
  and adds the other six.
- The three loops that turn a result list into columns (two new relations, one new, none new) share
  one traversal, `InterList.FillFromResults`, with a plan of where each column comes from.

## Model

| member | source | states |
|---|---|---|
| Words.FindNextPower | src/functions.c:219-224 | the result is the least power of two not below the argument, and up to 2^63 it does not leave 64 bits |
| Words.Hashing | src/hashing.c:16-23 | the second-level hash of any key is below 2^hash2, so it always indexes the bucket array |
| Words.HashingBit | src/hashing.c:16-23 | bit by bit: bit i is the exclusive or of the key's bits hash1 + i, 2 hash1 + 3 + i and 2 hash1 + 5 + i, for i below hash2 |
| Words.WordRange | src/basicStructs.h:12 | a word is a number from 0 to 2^64 - 1 |
| Words.Log2OfPow2 | src/chainFollower.c:82 | the exponent recovered from an index array's size is the one it was built with |
| Histogram.ChunksPartition | src/functions.c:310-314 | the seven shares of [0, n) follow one another without gap or overlap and end at n, for every n |
| Histogram.ChunksEven | src/functions.c:310-314 | all shares are of one size but the last, which has at most six elements more |
| Histogram.HistogramJob | src/functions.c:264-294 | one job stores the counts and hash values that a pass over its share gives |
| Histogram.RunHistogramJobs | src/functions.c:305-329 | whatever order the jobs finish in, past the barrier every share has its contents |
| Histogram.MergeContent | src/functions.c:333-357 | adding one share's contents extends the histogram and hash values by that share |
| Histogram.DoTheHash | src/functions.c:296-363 | histogram and hash values are those of one sequential pass over the whole relation |
| Histogram.HistogramTotal | src/functions.c:331-357 | the histogram sums to the size of the relation |
| Scatter.RoomLeft | src/H1.c:30-33 | a thread about to take a slot finds its bucket's counter above zero, so the unsigned counter never wraps |
| Scatter.SlotsInBounds | src/H1.c:34-43 | the slot a thread writes lies inside the array and inside its bucket's segment |
| Scatter.StepKeepsInv | src/H1.c:28-51 | every step of any thread keeps counters, claims and written slots in agreement |
| Scatter.RunKeepsInv | src/H1.c:14-54 | every interleaving keeps that invariant |
| Scatter.WrittenOnce | src/H1.c:28-44 | no slot's key or payload is ever written twice |
| Scatter.ScatterComplete | src/H1.c:201-205 | past the barrier the new relation is a permutation of the input with each bucket in its own segment, every slot written once |
| Scatter.EveryInterleaving | src/H1.c:14-54 | both of the above for every schedule from the start |
| Scatter.StepsRunOut | src/H1.c:46-51 | before the barrier some thread can step, and each step lowers a count of remaining steps by one |
| Reorder.CountBuckets | src/H1.c:102-104 | the number of psum entries is the number of hash values that occur |
| Reorder.PsumRuns | src/H1.c:154-175 | psum lists the hash values that occur in increasing order, each with the sum of hist over all smaller values |
| Reorder.PsumRunEnds | src/H1.c:170 | an entry's start plus its count is the next entry's start |
| Reorder.PrefixSums | src/H1.c:137-176 | one pass fills psum, and makes helpPSum[b] the sum of hist over all values below b, for every b |
| Reorder.ChooseBuckets | src/functions.c:383-386 | the number of buckets is the least power of two not below 1.05 times the cache-fuls, rounded down, plus one, and an average bucket fits in the cache |
| Reorder.ExponentOf | src/H1.c:217-223 | shifting a power of two away gives back its exponent |
| Reorder.ScatteredIsReordering | src/H1.c:137-205 | scattered tuples with these psum entries are a reordering of the input |
| Reorder.ReorderRelation | src/H1.c:56-229 | the result is a permutation of the relation in 2^h buckets: a run's keys are congruent modulo 2^h to its psum entry, and keys of different runs are not congruent; an exponent that is given is kept; one is chosen only for a relation with tuples |
| Reordered.SameBucket | src/functions.c:215-217 | two keys have the same hash value exactly when they differ by a multiple of the number of buckets |
| Reordered.OwnBucket | src/functions.c:215-217 | a key below the number of buckets is its own hash value |
| Reordered.LowBits | src/functions.c:215-217 | with 2^h buckets the hash value is the key's low h bits |
| Reordered.KeysGrouped | src/H1.c:137-205 | in a reordered relation every position lies in a run, and two keys are congruent modulo the number of buckets exactly when they stand in the same run |
| Reordered.BucketIsOfBucket | src/sideFunctions.c:10-28 | the tuples between two psum offsets are all the tuples of that hash value |
| Reordered.UnlistedIsEmpty | src/H1.c:104 | a hash value that psum does not list has no tuples |
| Index.PositionsExact | src/sideFunctions.c:31-57 | the specified positions are strictly decreasing and exactly those whose key hashes to h |
| Index.BuildIndex | src/sideFunctions.c:43-57 | following the chain from each bucket visits exactly those positions, and links only lead to smaller ones |
| Index.RecomputeSizes | src/sideFunctions.c:122-144 | for a bucket too big for one index: it terminates with 0 < eachSize, the footprint fits in the cache, and no larger hash2 fits |
| Index.BuildSubIndex | src/sideFunctions.c:72-95 | the remaining tuples are indexed slice by slice, consecutive, none lost, each of the given size but the last, which may be shorter |
| Index.IndexBucket | src/indexing.c:30-62 | the indexes of a bucket are consecutive slices whose concatenation is the whole bucket: a single one exactly when it fits in the cache, else slices of one size, as large as halving allows, the last one what is left |
| Index.FootprintBytes | src/indexing.c:32 | the size that decides is that of the size field, the tuples, the chain and the bucket array of the index that is built |
| Index.Indexing | src/indexing.c:7-72 | one slot per hash value, empty exactly when psum does not list it, otherwise covering its bucket; with nothing to index, any number of empty slots |
| Index.SlotEmpty | src/indexing.c:65-67 | a slot is empty exactly when no tuple hashes to it |
| Index.FirstHash2 | src/indexing.c:12-13 | the default hash2 is 8, and with it an index of one tuple fits in the cache, which recomputeSizes needs |
| Probe.FollowChain | src/chainFollower.c:17-47 | the pairs pushed for one probe tuple are those of the chain's positions with an equal key, in chain order |
| Probe.ChainHasAllMatches | src/chainFollower.c:17-47 | the chain's matches are, as a bag, all matches in the indexed slice |
| Probe.SearchKeyRec | src/chainFollower.c:49-63 | a bucket's sub-indexes are probed one after the other, appending to what the list held |
| Probe.SearchKeyIsJoin | src/chainFollower.c:49-63 | probing all sub-indexes of a bucket gives the nested-loop join with the tuples they cover |
| Probe.JoinInBucket | src/chainFollower.c:78-82 | tuples of one hash value only meet their own bucket |
| Probe.SearchBucketsJoin | src/chainFollower.c:70-83 | the first n buckets of the probe side give the nested-loop join with the tuples in those buckets |
| Probe.RadixJoinIsNestedLoop | src/chainFollower.c:17-87 | for all inputs and bucket counts, index plus probe emit exactly the nested-loop pairs as a bag |
| Probe.Search | src/chainFollower.c:65-87 | the sequential probe leaves a packed list holding the buckets' pairs in bucket order |
| Probe.JoinBucket | src/chainFollower.c:104-122 | one bucket's job delivers its pairs in a packed list of its own |
| Probe.RunJobs | src/chainFollower.c:134-169 | whatever order the jobs finish in, past the barrier each slot holds its own bucket's list |
| Probe.SearchThreadVer | src/chainFollower.c:124-189 | same contents as the sequential probe, with size and node count the sums over the bucket lists |
| JoinSpec.NestedLoopPermute | src/chainFollower.c:65-87 | the bag of joined pairs does not depend on the order of either side, so reordering is harmless |
| ResultLists.HeadResult.Push | src/resultListManip.c:81-110 | a push appends one pair, and all nodes behind a used buffer stay full |
| ResultLists.HeadResult.CleanListHead | src/resultListManip.c:114-133 | the partly filled buffer becomes the last node; contents unchanged; node count is the size divided by the capacity, rounded up |
| ResultLists.HeadResult.CountSizeOfList | src/resultListManip.c:172-184 | counting node by node gives the total size |
| ResultLists.PackedCount | src/resultListManip.c:81-133 | full nodes and one last non-empty node: n pairs take n / capacity nodes, rounded up |
| ResultLists.ConnectResultList | src/chainFollower.c:89-102 | the final list gets the joined list's pairs and nodes at its end, and its tail is the last node |
| RadixJoin.Warehouses.FetchFromIndexWarehouse | src/functions.c:76-89 | the entry found is for the column asked for; none is found only if there is none |
| RadixJoin.Warehouses.FetchFromReWarehouse | src/functions.c:91-109 | a found reordering is one of the full column with the exponent asked for, or the best one when none was |
| RadixJoin.Warehouses.AddToIndexWarehouse | src/functions.c:111-122 | one more entry, the others kept, coherent with the base columns |
| RadixJoin.Warehouses.AddToReWarehouse | src/functions.c:124-139 | one more entry, and the best entry of the column when asked for, coherent with the base columns |
| RadixJoin.PrepareBases | src/radixHashJoin.c:20-91 | two base columns: one with an index is the side indexed, the first before the second; without any, the smaller one, the second at equal sizes; an existing index is used, else both are reordered and kept; the best-reordering branches cannot be reached |
| RadixJoin.PrepareWithBase | src/radixHashJoin.c:92-106 | a base column against an intermediate: the base column is the one indexed |
| RadixJoin.PrepareIntermediates | src/radixHashJoin.c:107-123 | two intermediates: the smaller one is indexed, nothing is kept; no exponent is chosen exactly when both are empty |
| RadixJoin.JoinNothing | src/radixHashJoin.c:128-140 | two empty sides have no pairs, whatever number of slots the conversion of 2^100 gives, none included |
| EmptySides.EmptyIffNoAnswers | src/jointPerformer.c:93-123 | an intermediate is empty exactly when no assignment to its relations satisfies the predicates |
| EmptySides.FiltersLeaveNothing | src/jointPerformer.c:117-120 | the query with relations 0 and 1, the join 0.0=1.0 and the filters 0.0<0 and 1.0<0 comes to that case on every database |
| RadixJoin.RadixHashJoin | src/radixHashJoin.c:12-174 | the pairs are the nested-loop pairs, in the order that the switched flag says, from any coherent warehouses; which side is indexed, by existing index and then by size; the warehouses only grow, stay coherent, keep every best entry indexed, and hold an index of the indexed base column afterwards |
| InterList.HeadInter.FindNode | src/jointPerformer.c:272-287 | the node found holds the relation; none is found only if no node does |
| InterList.HeadInter.PushInter | src/interList.c:61-73 | one more intermediate at the end, all nodes kept |
| InterList.HeadInter.UpdateInter | src/interList.c:75-85 | one node's data replaced, everything else unchanged |
| InterList.HeadInter.DeleteInterNode | src/interList.c:87-111 | exactly that node is unlinked, order of the others kept, count lowered |
| InterList.SelectRows | src/interList.c:311-331 | the new intermediate has the same relations and, row by row, the old rows at the given positions |
| InterList.SingleInter | src/interList.c:334-349 | an intermediate of one relation with the given rows |
| InterList.ResultInter | src/interList.c:114-162 | each joined pair becomes a row of the two relations, components chosen by the switched flag |
| InterList.ExtendInter | src/interList.c:165-232 | each joined pair extends the old row it names by the new relation's row |
| InterList.MergeInters | src/interList.c:235-300 | each joined pair puts the two old rows it names side by side |
| QuerySpec.OneOperatorAdmits | src/jointPerformer.c:49-54 | for any value and constant exactly one of the three operators admits the value, and an unknown operator admits what EQUAL does |
| QuerySpec.OperatorsOrder | src/jointPerformer.c:49-54 | LESS is a strict order in which v is below v + 1, and GREATER is its reverse |
| QuerySpec.FiltersPartition | src/jointPerformer.c:8-54 | the survivors of the three filters on one column and constant divide the rows among them |
| QuerySpec.SelectExact | src/interList.c:311-331 | keeping exactly the rows that a predicate admits keeps an intermediate exact for one more predicate |
| QuerySpec.UntouchedExact | src/jointPerformer.c:150-162 | a relation in no intermediate stands for all its rows, exact for the predicates so far |
| QuerySpec.SatisfiesParts | src/jointPerformer.c:93-125 | an assignment to two sides satisfies every predicate exactly when its parts do and the joining predicate holds |
| QuerySpec.MergeExact | src/jointPerformer.c:93-125 | the pairs a join predicate admits, side by side, are exact over the relations of both sides |
| QueryState.AppendInv | src/jointPerformer.c:44-103 | a new node for new relations keeps the nodes exact, disjoint and grouped by predicates |
| QueryState.ReplaceInv | src/jointPerformer.c:32-114 | so does replacing a node by a narrowed or extended one |
| QueryState.MergeInv | src/jointPerformer.c:117-123 | so does merging two nodes into the first and deleting the second |
| JointPerformer.SurvivingExact | src/jointPerformer.c:25-46 | the survivors are the positions of admitted rows, each once and in order |
| JointPerformer.SurvivingBase | src/jointPerformer.c:35-46 | the loop over a base column collects exactly the survivors, and they always fit |
| JointPerformer.SurvivingNode | src/jointPerformer.c:18-34 | the loop over an intermediate collects exactly the survivors, and succeeds exactly when they fit in the array |
| JointPerformer.ForgeRelationsheep | src/jointPerformer.c:142-186 | the forged relation has the column's values as keys and row positions as payloads |
| JointPerformer.KeysDecide | src/jointPerformer.c:188-212 | two rows are admitted together exactly when their forged keys are equal |
| JointPerformer.JoinMatches | src/jointPerformer.c:188-212 | the join of two forged sides yields exactly the row pairs that the predicate admits, each once |
| JointPerformer.PerformRHJ | src/jointPerformer.c:188-212 | the same for the method, through the switched flag and the warehouses |
| JointPerformer.WorkerF | src/jointPerformer.c:8-47 | succeeds exactly when the survivors fit in the temporary array, and then every intermediate is exact for one more predicate |
| JointPerformer.ReplaceNodes | src/interList.c:283-308 | a merge replaces the first node's data, removes the second node and leaves the others unchanged |
| JointPerformer.WorkerJ | src/jointPerformer.c:56-128 | the same as WorkerF for a join, in each of its dispatch cases; only a self-join can fail to fit; warehouses stay valid |
| JoinOrders.TouchedOverruns | src/jointPerformer.c:244-258 | on relations of two equal rows, after a join of r with another relation a self-join of r has more survivors than its temporary array has places, in every state that a run can come to it in |
| JoinOrders.UnsafeMisfits | src/jointPerformer.c:244-258 | an order with a self-join after such a join overruns on some database: a run comes to a self-join that is a misfit, all those before it having found room |
| JoinOrders.SafeOrderExact | src/I_O_Receiver.c:195-203 | every self-join finds room, on every database and behind any filters, if and only if no self-join comes after a join of its relation with another one |
| JoinOrders.SafeBehindFilters | src/I_O_Receiver.c:186-203 | the same behind one given list of filters that some value passes |
| JoinOrders.LateSelfJoinOverruns | src/joinEnumeration.c:529-531 | the query with relations 0 and 1, the joins 0.0=1.0 and 0.0=0.0 in the order that the engine gives it: whatever list the join leaves, the self-join overruns, and there is such a list |
| QueryRun.AllTuplesEnumerates | src/jointPerformer.c:56-128 | the reference loops list every row-id tuple once |
| QueryRun.OneIntermediate | src/checksum.c:12-14 | when the predicates connect the query, exactly one intermediate is left, over all relations |
| QueryRun.OneIffConnected | src/checksum.c:12-14 | exactly one intermediate over all relations is left if and only if the predicates connect the query |
| QueryRun.FinalIsAnswers | src/checksum.c:20-27 | its rows are, as a bag, the row-id tuples that satisfy every predicate |
| QueryRun.SumPermute | src/checksum.c:31-40 | a column's sum depends on the bag of rows only |
| TempRoom.SoloNode | src/jointPerformer.c:239-270 | a relation that no join with another one has touched is alone in its intermediate |
| TempRoom.UntouchedFits | src/jointPerformer.c:239-270 | so its survivors fit, for a filter as for a self-join |
| TempRoom.FitsDetermined | src/jointPerformer.c:239-270 | whether they fit is decided by the predicates applied so far: every list that keeps the invariant gives the same answer |
| QueryRun.SafeOrderFits | src/I_O_Receiver.c:195-203 | when no self-join comes after a join of its relation with another one, every self-join finds room, on every database |
| States.StateExists | src/jointPerformer.c:8-128 | for every sequence of predicates there is a list of intermediates that keeps the invariant, so statements about all such lists are not empty |
| Misfits.SatisfyingExact | src/jointPerformer.c:8-128 | the nested loops over some relations list exactly the assignments that satisfy the predicates, each once |
| Misfits.NodeIsComponent | src/jointPerformer.c:56-128 | the relations of an intermediate are those that the joins applied so far link to each of them |
| Misfits.FitsMeaning | src/jointPerformer.c:8-47 | the survivors of a filter or a self-join fit if and only if the assignments to the relation's component that satisfy the predicates so far and this one do not outnumber the rows of the relation |
| Misfits.MisfitMeaning | src/jointPerformer.c:239-270 | so a self-join is a misfit if and only if those assignments outnumber the rows of its relation |
| QueryRun.CalcChecksum | src/checksum.c:31-40 | the wrapping sum of the column over the intermediate's rows, modulo 2^64 |
| QueryRun.ChecksumWraps | src/checksum.c:31-40 | a checksum differs from the unbounded sum over the answers by a multiple of 2^64 |
| QueryRun.PerformChecksums | src/checksum.c:11-29 | each checksum is the nested-loop sum over all satisfying tuples, modulo 2^64 |
| QueryRun.RunFilters | src/I_O_Receiver.c:189-193 | filters on an empty list never overrun and leave a list that keeps the invariant |
| QueryRun.RunJoins | src/I_O_Receiver.c:195-203 | joins in any order: the run comes to its end exactly when no self-join is a misfit, always when the order is safe, and then every intermediate is exact for all predicates |
| QueryRun.ExecuteQuery | src/I_O_Receiver.c:186-206 | a connected query, joins in any order: the run succeeds exactly when no self-join is a misfit, always when the order is safe, and then the checksums are the nested-loop sums, whatever the warehouses hold |
| QueryRun.ExecuteBatch | src/I_O_Receiver.c:152-218 | for any sequence of connected queries on the same warehouses, every query before the first that overruns is answered as nested loops would answer it |
| QueryRun.SafeRequestFits | src/I_O_Receiver.c:195-203 | a query whose joins are in a safe order does not overrun |
| Graphs.ConnectedIffPaths | src/joinEnumeration.c:391-413 | connected by cuts is connected by paths along edges: the notion of a connected set that the growth of sets one neighbour at a time is measured against |
| Graphs.GrowConnected | src/joinEnumeration.c:391-413 | a connected set stays connected when a neighbour joins it |
| Graphs.UnionConnected | src/jointPerformer.c:117-123 | two connected sets with an edge from one to the other are connected together |
| Graphs.RemovableRelation | src/joinEnumeration.c:381-413 | a connected set of two or more relations has one whose removal leaves it connected |
| Combinations.CombsExact | src/combinations.c:13-47 | the listed combinations are exactly the strictly increasing r-element sequences |
| Combinations.CombsOrdered | src/combinations.c:42-46 | they come in strictly increasing lexicographic order |
| Combinations.CombsDistinct | src/combinations.c:42-46 | none is listed twice |
| Combinations.CombsCount | src/combinations.c:69-75 | their number times r!(n-r)! is n! |
| Combinations.CombsFillTheTable | src/joinEnumeration.c:377-380 | they number exactly what the caller allocates |
| Combinations.FactorialFits | src/combinations.c:69-75 | the factorial fits in 64 bits exactly up to 20 |
| Combinations.Generator.CombinationUtil | src/combinations.c:13-47 | from the write index on the table receives the completions of data[..index], in order, and nothing else in it changes |
| Combinations.Generator.GetCombination | src/combinations.c:51-66 | the table is filled, exactly, with all r-element subsets |
| Bitmasks.SetIndexBit | src/hashTreeManip.c:90-105 | bit i of a set's index is set exactly when i is a member |
| Bitmasks.SetIndexInjective | src/hashTreeManip.c:90-105 | different sets have different slots |
| Bitmasks.CombToIndex | src/hashTreeManip.c:90-105 | the index depends on the members alone, not on their order |
| Bitmasks.FullIndex | src/I_O_Receiver.c:179 | the slot of all n relations is 2^n - 1 |
| JoinGraphs.EdgesFromExact | src/graph.c:51-68 | the adjacency list of a relation has exactly the joins leading away from it, without those of two different columns of it |
| JoinGraphs.Graph.ConstructGraph | src/graph.c:51-68 | the lists built are those, for every relation |
| JoinGraphs.ConnectedVertices | src/graph.c:89-107 | the first edge to the other relation, if there is one |
| JoinGraphs.FindEdgeAt | src/graph.c:89-107 | the edge found leads to the other relation, and none before it does |
| JoinGraphs.FindEdgeFirst | src/graph.c:89-107 | in the graph of a query it is the edge of the first join that leads from the one relation to the other |
| JoinGraphs.AreConnected | src/joinEnumeration.c:23-36 | the loop finds the link through the first relation of the combination that has one, trying both directions |
| JoinGraphs.AttachExact | src/joinEnumeration.c:23-36 | a link is found exactly when some join connects the relation to the combination, and it names such a join with its columns on the right sides |
| JoinGraphs.AttachIsLink | src/joinEnumeration.c:23-36 | for a combination in increasing order it is the link of the smallest relation that has one: the first join that leads from it to the new relation, else the first that leads back |
| JoinGraphs.LinkToExact | src/joinEnumeration.c:27-31 | two relations have a link exactly when some join leads from one to the other; it names the first join that leads from the old relation to the new one, else the first that leads back, with its columns |
| JoinGraphs.LinkFromExact | src/joinEnumeration.c:23-36 | the link taken is that of the smallest relation of the set that has one |
| JoinEnumeration.ExistsInComb | src/joinEnumeration.c:11-21 | whether the relation is in the combination |
| JoinEnumeration.CreateJoinTree | src/joinEnumeration.c:209-370 | the new tree's relations, join sequence and wrapped cost, from the old tree, the new relation and the estimate |
| JoinEnumeration.MakeOffer | src/joinEnumeration.c:385-413 | a pair offers a tree exactly when the relation is outside the combination, linked to it, and the combination's slot is filled; the tree is the one that the two slots and the link give |
| JoinEnumeration.Consider | src/joinEnumeration.c:385-450 | one pair changes at most the slot of the combination with the relation, and only for a filled slot, a link and a lower cost |
| JoinEnumeration.RunLevel | src/joinEnumeration.c:381-452 | a level writes only slots of k + 1 relations, each of which ends with the earliest cheapest offer |
| JoinEnumeration.LevelReads | src/joinEnumeration.c:396-413 | what a level computes depends only on slots of k relations and of single ones |
| JoinEnumeration.SolvedStep | src/joinEnumeration.c:375-460 | a finished level leaves every slot up to k + 1 relations holding the best of all offers made from the table itself |
| JoinEnumeration.EnumerateJoins | src/joinEnumeration.c:372-462 | so does the whole program, for all relations |
| JoinEnumeration.InitialiseHashTree | src/hashTreeManip.c:9-26 | at first exactly the slots of single relations are filled |
| JoinPlans.LeastOverSplits | src/joinEnumeration.c:413-448 | a slot's cost is at most the cost offered by any split into a filled subset and one connected relation |
| JoinPlans.BestIsOffered | src/joinEnumeration.c:413-448 | of the offers for a slot the earliest of the cheapest stays: all before it cost more |
| JoinPlans.SplitOf | src/joinEnumeration.c:413-448 | a filled slot's tree is the offer of one of its splits, and every split that leaves out a larger relation offers a higher cost |
| JoinPlans.FilledIffConnected | src/joinEnumeration.c:372-462 | a non-empty set's slot is filled if and only if the joins connect the set |
| JoinPlans.SlotWellJoined | src/joinEnumeration.c:209-239 | a slot's tree has exactly the set's relations and one join fewer, each attaching one new relation to those before it |
| JoinPlans.JoinsDistinct | src/joinEnumeration.c:227-239 | no join occurs twice in a tree's sequence |
| BestPlans.BestFromWins | src/joinEnumeration.c:413-448 | the recursion on sets takes the last relation that gives the least cost, the largest one of several |
| BestPlans.SlotIsBest | src/joinEnumeration.c:372-462 | every slot of one or more relations holds the tree of the recursion on sets: its relations, joins, statistics and cost |
| BestPlans.SlotCosted | src/joinEnumeration.c:209-370 | every filled slot's cost is, modulo 2^64, the rows of its first relation plus the estimates of all its joins, each estimate taken at the position and the columns that the join names |
| BestPlans.PlanQuery | src/I_O_Receiver.c:168-179 | there is a plan exactly when the joins connect all relations; it is the last slot of a table solved for the given estimate, the best tree of the recursion on sets, well joined without repetition, costs what its joins are estimated to produce, and no split offers less |
| JoinPlans.TreeHasNoSelfJoin | src/joinEnumeration.c:385-394 | no tree contains a self-join, so one that is not scheduled before the tree comes after it |
| JoinPlans.PlannedIffConnected | src/I_O_Receiver.c:168-179 | a query with predicates has its last slot filled exactly when it is connected |
| JoinPlans.PlannedIffOneLeft | src/I_O_Receiver.c:168-206 | and exactly when any list that keeps the invariant for all its predicates is one intermediate over all relations |
| Scheduler.StepKeepsFlags | src/jobScheduler.c:114-171 | every step keeps reading + writing at most 1, in agreement with who is inside, and a pop never meets an empty queue |
| Scheduler.StepKeepsWakeups | src/jobScheduler.c:114-171 | with nobody inside and jobs waiting some worker is awake, and the producer waits only while someone reads |
| Scheduler.StepKeepsFifo | src/jobScheduler.c:184-219 | jobs inserted are jobs popped followed by the queue, and inserted, in hand and to come are the submitted list |
| Scheduler.StepKeepsAccounted | src/jobScheduler.c:87-112 | every job popped is in flight or executed, once |
| Scheduler.RunKeepsInv | src/jobScheduler.c:87-219 | every run keeps all of these |
| Scheduler.RunsEnd | src/jobScheduler.c:87-171 | a run without spurious wakeups has at most as many steps as a bound on the starting state |
| Scheduler.StuckMeansDone | src/jobScheduler.c:87-171 | when no thread can move, all jobs have been executed once and all workers wait |
| Scheduler.EveryRun | src/jobScheduler.c:87-219 | all of this for any number of workers, any jobs and any run from the start |
| JobQueues.JobQueueHead.InsertInQueue | src/jobScheduler.c:184-194 | the linked list gets the job at its end |
| JobQueues.JobQueueHead.PopFromQueue | src/jobScheduler.c:196-219 | the oldest job leaves, or nothing when the list is empty |

## Left out

- Files, pipes, parsing and the building of a query from text (src/I_O_Receiver.c, src/pipeI_O.c, src/inputManip.c, src/queryManip.c): the model starts from a built query.
- The floating-point cardinality estimates (src/getStats.c, and the estimate inside src/joinEnumeration.c:39-206 and 273-365): they are a function parameter of the join enumeration, about which nothing is assumed.
- SetPriorities (src/joinEnumeration.c:464-537): with two or more left-over joins its shift can overwrite a join already placed, so nothing is claimed about the order it gives; the end-to-end result is stated for every order, with the exact condition under which an order is safe.
- JointPerformer.WorkerF: a temporary array that is too short is an `ok` flag, because what C does after writing past it is undefined; the flag is false exactly when the survivors outnumber the array.
- JointPerformer.WorkerJ: as for WorkerF.
- RadixJoin.Warehouses.AddToIndexWarehouse: does not model the fixed lengths of the warehouse arrays (src/functions.c:20-46), because the number of distinct columns of the loaded relations is not bounded in the code either.
- RadixJoin.Warehouses.AddToReWarehouse: as for AddToIndexWarehouse.
- JoinEnumeration.CreateJoinTree: the per-column statistics of a tree are one value that the estimate maps to another, because they only feed the estimate; the relation and column positions passed to it are modelled.
- Combinations.Generator.GetCombination: combinations are sequences of numbers, so the ambiguity of digit strings for more than ten relations is not modelled.
- Bitmasks.CombToIndex: does not model the width of the shift in src/joinEnumeration.c:401 (an `int`), because ten relations need ten bits.
- Scheduler.EveryRun: models runs before shutdown only; the shutdown flag, the broadcast and the unused Barrier (src/jobScheduler.c:51-85) are not part of it.
- Scheduler.StepKeepsWakeups: does not model the unsynchronised read of the queue's size at src/jobScheduler.c:152, because it has no defined meaning in C; the read is part of an atomic step.
- RadixJoin.JoinNothing: does not model what else C allows an undefined conversion to do, because it has no meaning in the code's own terms; the conversion is taken to give some number.
- Probe.RunJobs: jobs run one after another in an arbitrary order, because they share nothing but read-only data and one counter behind a mutex.
- Histogram.RunHistogramJobs: as for RunJobs.
- The package variants (src/interList.c:351-579, src/jointPerformer.c:130-140): the number of skipped rows is always 0.
- executeFilterPredicates, distValues, IdenticalityTest and rSwap: statistics or unused.
- malloc, free and the lifetimes of freed arrays: not modelled; a value stays available after its last use.
- The separate C++ engine at the root of the repository: the reference definitions play its part.
