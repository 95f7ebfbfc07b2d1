# A verified model of RedisML's core

RedisML keeps decision forests inside Redis and classifies with them on a thread
pool. This project models the four parts of it that have logic of their own and
proves what they are for.

* **The thread pool** (`JobQueue.dfy`, `ThreadPool.dfy`, `ThreadPoolProgress.dfy`).
  The job queue is a linked structure that refines a sequence. The pool is a
  step relation: any number of workers and one thread that adds work and waits,
  each with a program counter, so that a run is any interleaving. The proofs
  give the inductive invariants, the safety of the wait, conservation and order
  of the jobs, the absence of stuck states and a measure that bounds every run.
* **Decision forests** (`ForestTree.dfy`, `ForestCells.dfy`, `ForestRebuild.dfy`,
  `ForestCodec.dfy`, `ForestBytes.dfy`, `ForestStore.dfy`, `ForestRoundTrip.dfy`,
  `ForestSerializer.dfy`, `FastTree.dfy`, `Normalize.dfy`, `Voting.dfy`,
  `ForestClassify.dfy`). Path-addressed trees, their stored form byte by byte,
  the flattened form, the class weights, and the vote of a forest split over
  tasks. `ForestClassify.dfy` puts vote and pool together: the tasks run as jobs
  of the pool, and the totals are right on every schedule of both.
* **Heap, priority queue and vector** (`Heap.dfy`, `HeapRange.dfy`, `Vector.dfy`,
  `PriorityQueue.dfy`). `Heap.dfy` says on sequences what sifting computes when
  it swaps; `HeapRange.dfy` has the loops of the source, which move elements
  into a hole of a range of an array, proved to compute the same.
* **Dynamic strings** (`SdsHeader.dfy`, `SdsString.dfy`, `SdsNumber.dfy`,
  `SdsQuote.dfy`, `SdsGrammar.dfy`, `SdsSplit.dfy`). The five header layouts and
  the buffer, printing of integers, quoting and splitting of arguments with the
  grammar of the lines that are accepted, split and join.

How the code is read:

* A tree is generic in the C type double. Classification, weights and votes use
  exact reals; the stored form uses the eight bytes of a double.
* Ints in the stored form are little-endian and the reader's one-byte read of
  the splitter kind relies on that, as the code does.
* Memory that the allocator hands out holds unknown bytes. The serializer takes
  them as a parameter, for each reallocation a function from offsets to bytes,
  and its theorems are for all such functions. A block that shrinks and grows
  again may hold different bytes each time.
* The loader leaves the root pointer of a tree unset before it reads
  (`src/forest-type.c:17-21`). The model starts it at an empty tree, and
  `RoundTrip` holds for any tree it might point to.
* The flattening reads a leaf's key and value through fields that the leaf's
  constructor never sets (`src/forest.c:113-114`). The model takes such a read
  to yield some number.
* `atoi` and `atof` are parameters (`Numerals`); casts of doubles to int
  truncate.
* A lock of the pool is held while some program counter is inside the section
  it guards. The sections of the semaphore and of the counter are single steps.
  A push and a pull are two steps each, since the semaphore inside them is
  visible to others, and the wait reads the queue length and the counter in two
  steps, the first without the queue's lock. Memory is sequentially consistent.
* Jobs are named by the order in which they were added.
* Negating the smallest 64-bit number, which C leaves undefined, wraps around.

Where a property fails, it is stated with its exact condition:

* The stored form gives a tree back, from every memory, if and only if the tree
  is empty, or has no missing child, no node below a leaf and none more than
  eight turns from the root (`RoundTripIff`). Only one byte of the path is
  written, so a deeper tree is lost from some memory (`DeepTreeIsLost`). For a
  missing child the serializer returns 0, which its caller takes for the length
  so far: the record of the root is overwritten or cut off, and the tree reads back as
  nothing (`IncompleteTreeIsLost`; `LoneLeafIsLost` is the smallest such tree).
* The slices of a vote cover the forest if and only if one more than the number
  of trees leaves remainder 0 or 1 over the number of tasks; otherwise the last
  trees do not vote (`CoversAllIff`, `WholeForestVotesIff`).
* The fast form leads to the leaf of the recursive classifier, for all values of
  the splitters and all feature vectors, if and only if every splitter is numeric
  and every attribute a number from 1 to 2047 to both parsers
  (`FormsAgreeIffNumericKeys`). Its loop stops at the slot of the leaf it comes
  to if and only if no node hangs below that leaf (`WalkStopsAtLeafIff`);
  insertion and check both allow such nodes.
* A vector survives a resize if and only if its elements fit (`Resize`).
* A sleeping waiter is stuck for good if and only if the pool has no workers,
  and in such a pool it does come to that (`EmptyPoolGetsStuck`).
* A length is stored and read back if and only if the layout can hold it.
* Joining and splitting give back a list if and only if it is not one empty
  piece, its last piece is free of the separator, and every other piece followed
  by the separator holds it at its end only (`JoinThenSplitIff`). For one byte
  that means pieces free of it (`JoinThenSplitOneByte`).
* Text in single quotes comes back if and only if it does not end in a backslash,
  which would escape the closing quote (`SingleQuoteIff`). The lines that are
  refused are those that the grammar of `SdsGrammar.dfy` does not give
  (`SplitIffWritten`).

## Model

| member | source | states |
|---|---|---|
| JobQueues.JobQueue.constructor | src/util/thpool.c:388-407 | a new queue is empty and its semaphore is 0 |
| JobQueues.JobQueue.Push | src/util/thpool.c:429-448 | appends the job at the rear, keeps the links sound, sets the semaphore |
| JobQueues.JobQueue.Pull | src/util/thpool.c:455-480 | takes the front job, NULL exactly when the queue is empty, and sets the semaphore again exactly when jobs remain |
| JobQueues.JobQueue.Clear | src/util/thpool.c:411-422 | empties the queue, clears both ends and resets the semaphore |
| JobQueues.BinarySemaphore.constructor | src/util/thpool.c:497-505 | starts at the given 0 or 1 |
| JobQueues.BinarySemaphore.Reset | src/util/thpool.c:509-511 | back to 0 |
| JobQueues.BinarySemaphore.Post | src/util/thpool.c:515-520 | sets the value to 1, however often it is posted; waking a sleeper is a step of the pool |
| JobQueues.PullsAreFifo | src/util/thpool.c:455-480 | n pulls hand out the first n jobs in the order of the pushes, and nothing more once the queue is empty |
| ThreadPool.InvInit | src/util/thpool.c:113-164 | the invariant holds when the workers have started |
| ThreadPool.StepKeepsAccounts | src/util/thpool.c:334-365 | every step of every thread keeps job order, job conservation, the exact count of counted workers and mutual exclusion |
| ThreadPool.StepKeepsWorkAnnounced | src/util/thpool.c:429-480 | outside push and pull, a waiting job is announced by the semaphore or by a worker that took the token and has not pulled, although the semaphore loses counts |
| ThreadPool.StepKeepsWakeup | src/util/thpool.c:515-540 | a set semaphore leaves nobody asleep unless a woken worker has yet to test it |
| ThreadPool.StepKeepsWaiterSound | src/util/thpool.c:191-197 | the waiter's unlocked read of the length stays true until it reads the counter, and it sleeps only while work is queued or counted |
| ThreadPool.InvReachable | src/util/thpool.c:334-540 | all of these hold in every state any schedule reaches, spurious wakeups included |
| ThreadPoolProgress.WaitIsSafe | src/util/thpool.c:191-197 | on whatever step the waiter leaves its wait, every job ever added has finished exactly once and none is queued or held |
| ThreadPoolProgress.WaitCallIsSafe | src/util/thpool.c:191-197 | on every run that begins with a call of the wait, whenever the caller is back all jobs have finished |
| ThreadPoolProgress.JobsRunOnceInOrder | src/util/thpool.c:340-363 | in every reachable state the pulled jobs are the first added, in order, and each is held by one worker or finished once |
| ThreadPoolProgress.NoDeadlock | src/util/thpool.c:334-365 | with a worker, no reachable state is stuck while the producer is inside a push or wait or work remains |
| ThreadPoolProgress.ReadyMayCall | src/util/thpool.c:168-188 | between calls the producer can start a wait, and can push at once or after the one step the holder of the queue lock can take |
| ThreadPoolProgress.SleepingWaiterIsStuckIffNoWorkers | src/util/thpool.c:118-120 | a sleeping waiter is stuck exactly when the pool was made with no threads |
| ThreadPoolProgress.EmptyPoolGetsStuck | src/util/thpool.c:118-120 | in a pool made with no threads a waiter can fall asleep for good |
| ThreadPoolProgress.MeasureDecreases | src/util/thpool.c:334-365 | every step of a worker or waiter that is not a spurious wakeup lowers a weighted measure of queue, semaphore and stages |
| ThreadPoolProgress.RunsAreBounded | src/util/thpool.c:334-365 | without new calls a run is no longer than the measure plus five steps per spurious wakeup |
| ThreadPoolProgress.EveryCallCompletes | src/util/thpool.c:191-197 | every run without new calls is bounded, but for five steps per spurious wakeup, and where it ends the producer has returned and all jobs have finished |
| ForestTree.AddSpec | src/forest.c:87-105 | insertion succeeds exactly at the root or one turn below an existing node, is then found by lookup, and otherwise changes nothing |
| ForestTree.AddFrame | src/forest.c:87-105 | insertion changes no lookup on a path that neither leads through the other |
| ForestTree.TurnLetters | src/forest.c:97-102 | 'l' leads to the left child and 'r' to the right one |
| ForestTree.CheckSpec | src/forest.c:330-344 | the check accepts exactly the trees in which no series of turns ends at a missing node |
| ForestTree.FeatureVecGetValue | src/feature-vec.c:7-18 | the loop computes the lookup |
| ForestTree.LookupSpec | src/feature-vec.c:7-18 | a key has exactly one value: the numeric field its whole part from 1 to 2047 names, or else that of the first feature with this key, or 0 |
| ForestTree.TreeClassify | src/forest.c:371-405 | computes the classification function, and gives a leaf on every checked tree |
| ForestTree.CheckedTreeClassifies | src/forest.c:371-405 | on a checked tree every feature vector reaches a leaf, the tree's own node at the path taken |
| ForestTree.PathFollowsSplitters | src/forest.c:371-405 | at every node on the way to the leaf returned the path turns left exactly if the value is at most the threshold, or among the categorical values |
| ForestCells.Cell.constructor | src/forest.c:10-24 | a new node has no children |
| ForestCells.TreeAdd | src/forest.c:87-105 | overwriting one child pointer in place is the insertion on trees, error cases included |
| ForestCells.TreeGet | src/forest.c:139-156 | lookup over pointers is lookup on trees |
| ForestRebuild.InsertPreorder | src/forest.c:246-249 | inserting the pre-order list of a tree where a path leads puts the tree there |
| ForestRebuild.RebuildAnyDepth | src/forest.c:263-318 | at every depth each insertion succeeds and the list rebuilds the tree, exactly when no leaf has children |
| ForestCodec.TakeIntBack | src/forest.c:266-268 | an int is read back from its four bytes |
| ForestCodec.TakeStringBack | src/forest.c:288-289 | a C string is read back up to its terminator |
| ForestCodec.TakeDoublesBack | src/forest.c:309-313 | an array of doubles is read back |
| ForestBytes.ReadRecord | src/forest.c:266-314 | the record of a node is read back, its path as the path bytes lie in memory |
| ForestBytes.ParseEncode | src/forest.c:263-318 | of a complete subtree the reader sees one entry per stored node, in the order written, and goes on right behind it |
| ForestBytes.ShiftExtendsPath | src/forest.c:246-249 | up to eight turns, shifting the next turn into the path byte extends the decoded path by it |
| ForestBytes.SeenIsPreorder | src/forest.c:269-275 | up to depth eight the entries seen are the pre-order list, whatever the memory held |
| ForestStore.CompleteIsEncoded | src/forest.c:205-259 | a complete tree is added behind the bytes before it, whatever each reallocation handed out |
| ForestStore.IncompleteIsDetached | src/forest.c:184-186 | with a child missing, what is kept holds complete subtrees only, and no record of the root |
| ForestRoundTrip.SavedIsReadable | src/forest.c:263-318 | every saved string can be read to its end, at any depth and with any children missing |
| ForestRoundTrip.SavedBytes | src/forest.c:182-261 | the string saved for a splitter with two leaves, byte by byte |
| ForestRoundTrip.PathBits | src/forest.c:271-273 | a set bit is a turn to the right, the lowest bit the last turn, eight turns a byte |
| ForestRoundTrip.RoundTrip | src/forest.c:182-318 | a complete tree of depth at most eight is rebuilt in place of whatever the root was, and comes back equal if and only if its leaves are bare |
| ForestRoundTrip.DeepTreeIsLost | src/forest.c:218-221 | a deeper complete tree does not come back from one of two fillings of the memory |
| ForestRoundTrip.IncompleteTreeIsLost | src/forest.c:184-186 | a tree with a missing child reads back as nothing, from every memory |
| ForestRoundTrip.LoneLeafIsLost | src/forest.c:246-249 | of a splitter without a left child only the record of its right leaf is saved, and the reader cannot place it |
| ForestRoundTrip.RoundTripIff | src/forest.c:182-318 | a tree comes back from every memory if and only if it is empty, or complete with bare leaves and depth at most eight |
| ForestSerializer.Buffer.Realloc | src/forest.c:208-210 | growing or shrinking keeps the bytes that fit; the rest is what the memory held |
| ForestSerializer.PutPath | src/forest.c:218-221 | writes one byte of the path field and passes over the others |
| ForestSerializer.PutBody | src/forest.c:230-259 | writes the attribute, kind and threshold, or the counts and the stats |
| ForestSerializer.PutRecord | src/forest.c:205-259 | fills exactly the computed length behind the bytes before slen, which stay, and cuts off what was behind |
| ForestSerializer.TreeSerialize | src/forest.c:182-261 | leaves the buffer and returns the length that storing the tree gives, for complete and incomplete trees; 0 for a missing node |
| ForestSerializer.ReadPath | src/forest.c:269-276 | bit i of the path bytes becomes the turn i from the end |
| ForestSerializer.ReadString | src/forest.c:288-289 | finds the terminator and no byte beyond |
| ForestSerializer.ReadNode | src/forest.c:266-314 | reads one record and moves forward to the next |
| ForestSerializer.TreeDeserialize | src/forest.c:263-318 | the loop ends at the end of the buffer with the tree that the entries insert |
| ForestSerializer.SaveAndLoad | src/forest-type.c:7-36 | saving and loading into an empty root gives back, up to depth eight, every complete tree without what hung below its leaves, and nothing of any other tree |
| FastTrees.FastTree.Place | src/forest.c:109-126 | fills the next slot with the node's key and first value and links it to its parent only |
| FastTrees.FastTree.Gen | src/forest.c:109-130 | lays the subtree out in the slots after the current one, in pre-order, touching no earlier slot but the parent's link |
| FastTrees.FastTree.GenFastTree | src/forest.c:132-137 | a tree of at most 1024 nodes is laid out with its root in slot 0 |
| FastTrees.FastTreeClassify | src/forest.c:408-423 | the loop terminates, stops where the walk over the slots stops, and returns the value there |
| FastTrees.WalkStopsAtLeafIff | src/forest.c:408-423 | whatever the keys, the walk over a checked tree stops at the slot of the leaf that fast turns lead to, exactly when nothing hangs below that leaf |
| FastTrees.FastFormRefines | src/forest.c:408-423 | with numeric keys and bare leaves the walk stops at the slot whose number in pre-order is that of the leaf the recursive classifier returns |
| FastTrees.LeafIsListed | src/forest.c:371-405 | the leaf's slot number is its place in the pre-order list, with its path |
| FastTrees.NumericKeysAgree | src/feature-vec.c:7-25 | with numeric keys from 1 to 2047 both lookups see the same values in the whole tree |
| FastTrees.NumericKeyMeans | src/feature-vec.c:8-21 | a numeric key is a number from 1 to 2047 to both parsers |
| FastTrees.LookupsAgreeIffNumericKey | src/feature-vec.c:7-25 | the lookups agree on every feature vector if and only if the attribute is a numeric key |
| FastTrees.RootKeyMustBeNumeric | src/forest.c:411-421 | any other attribute at the root leads some feature vector to another slot, whatever the thresholds are |
| FastTrees.FormsAgreeIffNumericKeys | src/forest.c:371-423 | both forms reach the same slot for all splitter values and feature vectors if and only if every splitter is numeric with a numeric key |
| Normalization.EveryLeafCounted | src/forest.c:351-359 | with classes in range every leaf is counted in exactly one class |
| Normalization.SharesSum | src/forest.c:361-368 | the weights of the classes add up to the share of all leaves counted |
| Normalization.WeightsCountLeaves | src/forest.c:351-368 | a class's weight times the number of leaves is the number of leaves that predict it |
| Normalization.ClassWeights.CountLeaves | src/forest.c:351-359 | adds each leaf to its class and to the total |
| Normalization.ClassWeights.NormalizeTree | src/forest.c:361-368 | numClasses is the number of leaves, each weight is its class's share, and the weights sum to 1 |
| Voting.OwnRow | src/forest.c:444-449 | each step of a task moves its row to the next partial sum of its slice |
| Voting.OtherRow | src/forest.c:440-443 | no step of a task touches another task's row |
| Voting.StepKeepsVotes | src/forest.c:439-450 | every interleaved read, write or advance keeps every row at its partial sum |
| Voting.SlicesAreAdjacent | src/forest.c:442-443 | the slices follow one another without gap or overlap |
| Voting.RowsAddUp | src/forest.c:474-480 | the rows of finished tasks add up to the votes of a prefix of the forest |
| Voting.VoteIsScheduleIndependent | src/forest.c:439-480 | on every interleaving the totals are the sequential sums over the covered trees |
| Voting.CoversAllIff | src/forest.c:442-465 | the slices cover the forest if and only if (len + 1) mod T is at most 1 |
| Voting.OneOrTwoTasksCoverAll | src/forest.c:465-465 | with one task or two no tree is left out |
| Voting.WholeForestVotesIff | src/forest.c:462-480 | the totals are those of the whole forest, for every forest of the size, under exactly that condition |
| Voting.StepsUseWork | src/forest.c:444-449 | every step of a task uses up one unit of a finite amount of work |
| Voting.BallotCastsOneVote | src/forest.c:445-447 | the shares of a leaf whose total is that of its counts add up to one |
| Voting.EveryTreeVotesOnce | src/forest.c:439-480 | the totals of all classes add up to the number of covered trees |
| Voting.AddRows | src/forest.c:474-480 | the final loops add the rows up class by class |
| ForestClassify.AddVotes | src/forest.c:445-448 | adds the leaf's shares, count over total, to one row and nothing else |
| ForestClassify.NewLeaf | src/forest.c:53-85 | a leaf holds the counts given, or one for the class predicted, and their total |
| ForestClassify.ClassifierTask | src/forest.c:439-450 | a task adds the votes of its slice to its row and leaves the rest of the array alone |
| ForestClassify.JointStepKeepsInv | src/forest.c:467-473 | pool and vote invariants hold together, and a finished job means a finished task |
| ForestClassify.ClassificationIsCorrect | src/forest.c:467-480 | on every schedule of pool and tasks, on whatever step the waiter leaves its wait all votes are in and the totals are the sequential ones |
| ForestClassify.ForestVoteIsSequential | src/forest.c:455-480 | the totals are what one thread would count with the recursive classifier, over all trees when none is left out |
| ForestClassify.EveryCoveredTreeVotesOnce | src/forest.c:455-480 | on every schedule the totals of all classes add up to the number of covered trees |
| ForestClassify.ClassificationCompletes | src/forest.c:467-480 | every schedule without new calls is bounded, but for five steps per spurious wakeup, and where nothing can move the wait has returned with the right totals |
| Heaps.SiftDownRestores | src/rmutil/heap.c:42-84 | sifting down restores heap order below a hole whose parent is large enough |
| Heaps.SiftUpRestores | src/rmutil/heap.c:21-40 | sifting up restores heap order above the last element |
| Heaps.SiftDownPermutes | src/rmutil/heap.c:42-84 | sifting down keeps the elements |
| Heaps.PushSpec | src/rmutil/heap.h:19-25 | the heap extended by one element is a heap of all of them |
| Heaps.MakeHeapSpec | src/rmutil/heap.h:7-16 | any range becomes a heap of the same elements |
| Heaps.RootIsMaximum | src/rmutil/heap.h:9-12 | the first element is a maximum |
| Heaps.PopSpec | src/rmutil/heap.h:28-36 | a maximum is moved to the end and the rest is a heap |
| Heaps.PopPermutes | src/rmutil/heap.c:102-107 | popping keeps the elements, and the rest lacks just the maximum |
| Heaps.PopAllSorts | src/rmutil/heap.c:102-107 | popping with a shrinking end sorts a heap |
| Heaps.HeapSortSorts | src/rmutil/heap.c:87-107 | building a heap and popping it empty sorts any sequence |
| HeapRanges.SiftUpRange | src/rmutil/heap.c:21-40 | the upward hole loop computes the swapping function on its range and touches nothing else |
| HeapRanges.RaiseHole | src/rmutil/heap.c:27-37 | the loop, with the element held aside |
| HeapRanges.SiftDownRange | src/rmutil/heap.c:42-84 | the downward hole loop computes the swapping function on its range and touches nothing else |
| HeapRanges.SinkHole | src/rmutil/heap.c:63-83 | the loop, with the element held aside |
| HeapRanges.MakeHeapRange | src/rmutil/heap.c:87-94 | makes a heap of [first, last) and leaves the rest untouched |
| HeapRanges.HeapPush | src/rmutil/heap.c:97-99 | lets the last element of the range rise |
| HeapRanges.HeapPop | src/rmutil/heap.c:102-107 | swaps the ends and repairs the range before the last |
| HeapRanges.HeapSortRange | src/rmutil/heap.h:28-36 | building a heap and popping it with a shrinking end leaves the range as repeated popping sorts it, and the rest of the array as it was |
| Vectors.Vector.constructor | src/rmutil/vector.c:68-76 | empty, with cleared cells |
| Vectors.Vector.Resize | src/rmutil/vector.c:53-66 | keeps the cells that fit, clears new ones, and leaves a usable vector if and only if its elements fit |
| Vectors.Vector.PutPtr | src/rmutil/vector.c:35-51 | stores at any position, growing to it, and keeps all other cells |
| Vectors.Vector.PushPtr | src/rmutil/vector.c:4-11 | appends, keeps earlier elements, and doubles a full array |
| Vectors.Vector.Get | src/rmutil/vector.c:13-21 | the element, or nothing out of bounds |
| Vectors.Vector.Pop | src/rmutil/vector.c:24-33 | drops and returns the last element, or nothing |
| Vectors.PushesCopyLittle | src/rmutil/vector.c:4-11 | n pushes from any capacity copy fewer than 2n elements in all |
| PriorityQueues.PriorityQueue.constructor | src/rmutil/priority_queue.c:4-9 | an empty queue |
| PriorityQueues.PriorityQueue.Size | src/rmutil/priority_queue.c:11-13 | the number of elements |
| PriorityQueues.PriorityQueue.Top | src/rmutil/priority_queue.c:15-17 | a maximum of the elements, or nothing when empty |
| PriorityQueues.PriorityQueue.Push | src/rmutil/priority_queue.c:19-23 | adds the element and keeps the heap |
| PriorityQueues.PriorityQueue.Pop | src/rmutil/priority_queue.c:25-31 | removes the top, keeps the heap, and does nothing when empty |
| PriorityQueues.NothingLost | src/rmutil/priority_queue.c:19-31 | over any series of pushes and pops the contents and the popped elements are what was pushed |
| PriorityQueues.DrainIsNonIncreasing | src/rmutil/priority_queue.h:6-12 | popping until empty gives all elements in non-increasing order |
| SdsHeaders.ReqTypeFits | src/rmutil/sds.c:57-67 | the layout chosen for a size holds it, and no smaller one holds one more |
| SdsHeaders.LayoutBounds | src/rmutil/sds.c:57-67 | where one layout gives way to the next, and what each can hold |
| SdsHeaders.AllocIsLenPlusAvail | src/rmutil/sds.h:178-194 | capacity is length plus free space in all layouts |
| SdsHeaders.SetLenSpec | src/rmutil/sds.h:129-151 | a stored length reads back if and only if the layout can hold it |
| SdsHeaders.IncLenIsSetLen | src/rmutil/sds.h:153-176 | adding to the length is storing the sum, wrap-around included |
| SdsHeaders.SetAllocSpec | src/rmutil/sds.h:196-215 | a stored capacity reads back if and only if the layout can hold it, and the length stays |
| SdsStrings.Sds.constructor | src/rmutil/sds.c:81-135 | a sound string of the given bytes or of zeros |
| SdsStrings.Sds.Retype | src/rmutil/sds.c:220-236 | a change of layout and capacity keeps content and terminator |
| SdsStrings.Sds.MakeRoomFor | src/rmutil/sds.c:194-237 | room for the bytes, the same content, and nothing done when there is room |
| SdsStrings.Sds.RemoveFreeSpace | src/rmutil/sds.c:245-269 | no free space, the same content |
| SdsStrings.Sds.Clear | src/rmutil/sds.c:183-186 | empty and sound |
| SdsStrings.Sds.UpdateLen | src/rmutil/sds.c:174-177 | cut at the first zero byte |
| SdsStrings.Sds.GrowZero | src/rmutil/sds.c:358-369 | padded with zeros to the length, or unchanged |
| SdsStrings.Sds.CatLen | src/rmutil/sds.c:376-385 | the bytes appended |
| SdsStrings.Sds.CpyLen | src/rmutil/sds.c:405-414 | the bytes in place of the content |
| SdsNumbers.DecimalSpec | src/rmutil/sds.c:434-458 | the digits read back as the number, with no idle leading zero and no more digits than its size needs |
| SdsNumbers.PutDigits | src/rmutil/sds.c:437-441 | the digit loop writes the digits last first |
| SdsNumbers.ReverseRange | src/rmutil/sds.c:448-456 | the swapping loop reverses the buffer in place |
| SdsNumbers.Ull2Str | src/rmutil/sds.c:461-487 | prints every unsigned 64-bit number within the buffer, terminated |
| SdsNumbers.Ll2Str | src/rmutil/sds.c:429-458 | prints every signed 64-bit number within the buffer, terminated |
| SdsNumbers.PrintedReadsBack | src/rmutil/sds.c:428-458 | the printed form reads back, fits 21 characters with its terminator, and has no idle leading zero |
| SdsNumbers.PrintedExamples | src/rmutil/sds.c:428-458 | digits are decimal with the most significant first, after the sign |
| SdsQuoting.CatRepr | src/rmutil/sds.c:858-881 | appends the quoted form, which has no zero byte |
| SdsQuoting.ReadEscape | src/rmutil/sds.c:950-973 | the printed form of every byte is read as that byte |
| SdsQuoting.ReadRepr | src/rmutil/sds.c:933-1041 | a quoted argument followed by a blank or nothing is read back whole |
| SdsQuoting.QuoteThenSplit | src/rmutil/sds.c:925-926 | quoting, joining with blanks and splitting give back any list of byte strings |
| SdsQuoting.JoinedHasNoZero | src/rmutil/sds.c:858-881 | the joined line is a C string |
| SdsGrammar.EscapeLetters | src/rmutil/sds.c:860-878 | which letter stands for which control character, what is printed as it is, and hex for the rest |
| SdsGrammar.ByteClasses | src/rmutil/sds.c:959-967 | which bytes are white space, end a plain argument, quote or escape, and what escaped letters stand for |
| SdsGrammar.HexDigits | src/rmutil/sds.c:885-917 | the hex digits of either case and their values |
| SdsGrammar.ReadForm | src/rmutil/sds.c:944-1021 | an argument written plainly, with a quoted part of either kind, or both, is read as what it stands for |
| SdsGrammar.PlainWords | src/rmutil/sds.c:1001-1018 | words without zero, white space and quotes are split at blanks |
| SdsGrammar.SingleQuoteThenSplit | src/rmutil/sds.c:980-999 | texts in single quotes, a backslash before each apostrophe, are read back if none ends in a backslash |
| SdsGrammar.SingleQuoteIff | src/rmutil/sds.c:980-999 | one text in single quotes comes back if and only if it does not end in a backslash |
| SdsGrammar.SplitIffWritten | src/rmutil/sds.c:933-1041 | a line is split into certain arguments if and only if it is white space and written forms of these arguments; every other line is refused |
| SdsQuoting.TakeTurn | src/rmutil/sds.c:950-1020 | one turn of the loop over quotes, escapes and blanks, within the line and its terminator |
| SdsQuoting.GetToken | src/rmutil/sds.c:944-1021 | reads one argument, or fails on unbalanced or badly closed quotes, and always moves forward |
| SdsQuoting.SplitArgs | src/rmutil/sds.c:933-1041 | terminates on every line with exactly its arguments, as the grammar gives them, or none on bad quotes |
| SdsQuoting.JoinSds | src/rmutil/sds.c:1080-1089 | the strings with the separator between them |
| SdsSplitting.SplitThenJoin | src/rmutil/sds.c:795-842 | for every string and separator the joined pieces are the string, and no piece contains the separator |
| SdsSplitting.JoinThenSplitIff | src/rmutil/sds.c:795-842 | for every separator, exactly which lists survive joining and splitting |
| SdsSplitting.JoinThenSplitOneByte | src/rmutil/sds.c:821-821 | for a one-byte separator the pieces need only be free of it |
| SdsSplitting.Reserve | src/rmutil/sds.c:809-817 | room for the next token and the last one, with the earlier ones kept |
| SdsSplitting.Scan | src/rmutil/sds.c:808-831 | the scan finds the pieces, and every write is within the slots |
| SdsSplitting.SplitLen | src/rmutil/sds.c:795-842 | the pieces of the string, none for an empty string, failure for an empty separator |

## Left out

- Command handlers, the AOF callback, value types other than the forest, and the Redis API: glue over code that is not part of this model.
- Matrix, regression and k-means: single short loops or foreign calls.
- The regression branch of the forest and the final sort of the totals: the comparator cuts differences to int and is not an order on fractional totals.
- Floating-point rounding: weights and votes are exact reals. A leaf whose total is 0 has no votes to divide.
- Parsing of numbers and feature vectors from text: they start as values.
- Pause and resume, thread start-up, destruction and `bsem_post_all`: the model starts with live workers and keeps them alive.
- Several threads that add work at once: one thread adds and waits, as the forest does.
- Allocation failures, freeing and logging.
- ForestSerializer.TreeSerialize: requires numeric splitters; the code reads a categorical splitter's numbers as text. Buffers of 2 GiB and more, where the int lengths overflow, are not modelled.
- ForestSerializer.TreeDeserialize: requires a buffer that parses as numeric splitters and leaves; the code reads past the end of any other.
- FastTrees.FastTreeClassify: requires a walk that stays in the array; from a node below a leaf the code can follow a link of -1. It says which slot is reached, not which value a leaf's slot holds, which the constructor of leaves leaves open.
- FastTrees.FastTree.GenFastTree: requires at most 1024 nodes, which the code does not check.
- ForestClassify.AddVotes: requires a nonzero total; the code divides by it as doubles, and exact reals have no infinities.
- ForestClassify.ClassifierTask: requires leaves with at most 128 stats and a nonzero total when there are any, and stats that are not NULL.
- Vectors.Vector.Resize: elements are values rather than byte ranges, and the int arithmetic on capacities beyond 31 bits is not modelled.
- SdsStrings.Sds.Move: a reallocation that keeps the layout also keeps the bytes after the content; the model keeps the content and its terminator only.
- `sdsIncrLen`, `sdsrange`, `sdstrim`, the printf family and the conversions of case: `sdsIncrLen` leaves writing into reserved room to its caller.
- SdsStrings.Sds.UpdateLen: the source keeps strlen in an int; the cut of lengths beyond 31 bits is not modelled.
