# ARMCI-MPI: a verified model

ARMCI-MPI implements the ARMCI one-sided communication interface on top of MPI-3 remote memory access. This project models the parts of it that are hard to get right and proves what they promise. MPI itself appears only through what its standard says of a call: an exclusive epoch is one step, outstanding updates arrive in any order until a flush, a collective call waits for its group.

The files follow the source.

- **Queueing mutex** (`QueueMutex.dfy`, `QueueProtocol.dfy`, `LockSpec.dfy`, `Options.dfy`). The epochs of lock and unlock are methods on the byte vector. The protocol is a step machine over any number of processes and of mutexes (number and home process), with the zero-byte notifications in flight. In every reachable state each mutex has exactly one token if any byte is set. From this follow mutual exclusion, no lost wake-up, that a notification only reaches a wait on its own mutex, that every step is a step of an abstract lock, and bounded bypass. The calls are also available: a process can always ask for a mutex it does not hold, gets it at once exactly when nobody else wants it, and an unlock hands it to the nearest process that waits.
- **Spin mutex** (`SpinMutex.dfy`). The same abstract lock from arithmetic on a sum.
- **Conflict tree** (`ConflictTreeShape.dfy`, `ConflictTree.dfy`, `OverlapCheck.dfy`). The AVL tree of address ranges on the heap, with parent pointers and stored heights, rotated in place. A ghost tree says what the pointers spell; a path from the root with one hole says where the algorithm stands. The tree check equals the all-pairs check.
- **Strided transfers** (`Strided.dfy`, `StridedLayout.dfy`, `StridedDatatype.dfy`, `StridedOps.dfy`). A strided description means nested loops. The odometer of the I/O vector visits the same bytes in the same order. The MPI subarray does so exactly when the strides that are left after trimming divide each other.
- **Vector operations** (`Memory.dfy`, `Rma.dfy`, `Segments.dfy`, `Progress.dfy`, `Buffers.dfy`, `IoVector.dfy`, `VectorChecks.dfy`, `VectorOps.dfy`). One origin and one target window. An origin buffer in flight is not written or freed, updates that are locally complete are delivered in an order nobody chooses, and two outstanding updates may not conflict. `View` is the target once everything outstanding has arrived; `DeliverAny` proves that it does not depend on the order. Every form of put, get and accumulate (conservative, batched with any limit, datatype with any chunk size, guarded or not, scaled or not) changes the view as a plain loop over the segments would, and gives back every temporary once.
- **Noncollective groups** (`GroupBlocks.dfy`, `GroupFormation.dfy`). Every member runs at its own pace; MPI pairs two calls when the leaders name each other and everyone on both sides has called.
- **Regions** (`RegionList.dfy`), **non-blocking handles** (`RequestHandle.dfy`), **request limit** (`RequestLimit.dfy`), **visibility** (`FlagVisibility.dfy`, `BarrierVisibility.dfy`).

Addresses are integers. A memory maps addresses to cells; a cell is a byte for put and get and an integer element of `ts` bytes for accumulate. Settings of the library, the answer of `gmr_lookup` on the origin, and the address that `MPI_Alloc_mem` returns are arbitrary. Where an assertion of the source stops the program, the method returns false, and its contract says exactly when and in which state.

Where the code and its comments disagree, the model follows the code:

- The comment in `src/strided.c` calls for strides that are multiples of each other, but the assertion is commented out. `SameBytesIffDividing` says exactly what is lost.
- `PARMCI_Test` returns nonzero for an empty handle, as for an incomplete one.
- `gmr_destroy` allows NULL from a process with nothing allocated, but finds the region only if the highest ranked caller that passed a region owns a nonempty slice. `DestroyAgreement` is the exact condition.
- `PARMCI_AccV` with overlapping destinations does not always meet MPI's rule that one operation names no target element twice. The datatype form puts as many segments into one operation as `iov_dtype_chunk` says. `SeparableExactly` is the exact condition under every setting: checks on, or a form that issues one segment at a time, or chunks that keep overlapping segments apart. `SamePlaceTwice` is an input that fails without a chunk size and passes with a chunk size of one.

## Model

| member | source | states |
|---|---|---|
| ConflictTree.RotateLeft | src/conflict_tree.c:131-160 | the pointers of the three nodes and of the parent end as in a left rotation, nothing else changes |
| ConflictTree.RotateRight | src/conflict_tree.c:168-197 | the mirror image |
| ConflictTree.RotateLeftShape | src/conflict_tree.c:131-160 | what a left rotation does to the tree that the pointers spell: in-order contents kept, stored heights exact |
| ConflictTree.RotateRightShape | src/conflict_tree.c:168-197 | the mirror image |
| ConflictTree.Rebalance | src/conflict_tree.c:213-267 | one visit of the balancing climb restores balance at a node by one of the four rotation cases, the error branch is not reached, contents and links are kept |
| ConflictTree.Balance | src/conflict_tree.c:213-270 | the whole climb ends at the true root of a balanced tree with the same contents |
| ConflictTree.FindPlace | src/conflict_tree.c:69-123 | the descent of an insertion stops at a stored node that overlaps, or at the only free place for the range, after at most height turns |
| ConflictTree.ConflictTree.Insert | src/conflict_tree.c:69-123 | a conflict is reported exactly when a stored range overlaps, and then nothing changes; otherwise the tree stays valid (ordered, disjoint, balanced, heights and links exact) and holds exactly one range more |
| ConflictTree.ConflictTree.Locate | src/conflict_tree.c:41-58 | null exactly when nothing overlaps, otherwise a node that does, within height turns |
| ConflictTree.RootHeight | src/conflict_tree.c:202-270 | the stored root height is the height, a tree of height h has at least Fib(h+2)-1 nodes, so the height is logarithmic |
| ConflictTreeShape.BalancedIsDense | src/conflict_tree.c:213-270 | every balanced tree of height h has at least Fib(h+2)-1 nodes |
| ConflictTree.ConflictsIsOverlap | src/conflict_tree.c:41-58 | the four comparisons of the source mean a shared address |
| OverlapCheck.CheckAllPairs | src/vector.c:24-46 | true exactly when checks are on and two segments share an address |
| OverlapCheck.CheckWithTree | src/vector.c:48-72 | the tree form meets the same specification, so the two agree on every list |
| QueueMutex.Epoch | src/mutex_hdl_queue.c:128-146 | one byte is written, the caller's copy equals the whole vector |
| QueueMutex.LockEpoch | src/mutex_hdl_queue.c:110-161 | the caller's byte is set and waiting is decided by the other bytes |
| QueueMutex.UnlockEpoch | src/mutex_hdl_queue.c:185-233 | the caller's byte is cleared and the process to notify is the scan's choice |
| QueueMutex.NextWaiterIsNearest | src/mutex_hdl_queue.c:221-229 | the scan finds the nearest set byte on the right, and none exactly when no other byte is set |
| QueueProtocol.StepKeeps | src/mutex_hdl_queue.c:110-233 | every step of every process keeps the invariant: each mutex's bytes, holders, waiters, releasers and messages agree on where its one token is |
| QueueProtocol.OneToken | src/mutex_hdl_queue.c:110-233 | in every reachable state holders, notifications in flight and releasers about to notify add up to one if a byte is set, else to none |
| QueueProtocol.ExclusionAndNoLostWakeup | src/mutex_hdl_queue.c:110-233 | at most one holder; for a waiting process a notification can be received by its addressee, or a releaser can send one, or a holder can unlock unless it is inside a call |
| QueueProtocol.NotificationsReachTheirMutex | src/mutex_hdl_queue.c:156-229 | a receive that the tag allows takes a message sent for the mutex waited for, although the tag has only the number |
| QueueProtocol.RefinesLock | src/mutex_hdl_queue.c:110-233 | every step is a step of the abstract lock: acquired only when free, released only by its holder |
| QueueProtocol.HandOff | src/mutex_hdl_queue.c:221-229 | each hand-off comes strictly nearer to every waiting process and never jumps over it |
| QueueProtocol.BoundedBypass | src/mutex_hdl_queue.c:128-229 | from any state in which a process waits, over any run in which it is not served, the others acquire at most n-1 times |
| QueueProtocol.LockTakes | src/mutex_hdl_queue.c:128-161 | in every reachable state a process outside the library can ask for any mutex it does not hold, whatever else it holds; it is the holder at once if and only if no other byte is set, that is, nobody else holds it or waits, and waits otherwise; nothing else changes |
| QueueProtocol.UnlockFrees | src/mutex_hdl_queue.c:185-233 | a holder outside the library can unlock; if nobody waits no message is sent and every byte is clear |
| QueueProtocol.HandsOver | src/mutex_hdl_queue.c:156-229 | if somebody waits, one message goes to the nearest who does, which can receive it and is then the only holder |
| QueueProtocol.HoldsTwo | src/mutex_hdl_queue.c:128-161 | a process that asks for two mutexes from the start holds both |
| QueueProtocol.WaitersJoin | src/mutex_hdl_queue.c:128-161 | whoever asks for a mutex that others want joins those who wait |
| QueueProtocol.Contention | src/mutex_hdl_queue.c:128-161 | a reachable state has one process holding two mutexes and two others waiting for one of them |
| SpinMutex.ReachableInvariant | src/mutex_hdl_spin.c:110-236 | in every reachable state the cell is the sum of rank+1 over the contributors and at most one process holds |
| SpinMutex.ReadIsInRange | src/mutex_hdl_spin.c:132-138 | every value read satisfies both assertions |
| SpinMutex.ReadDecides | src/mutex_hdl_spin.c:140-142 | in every reachable state a read makes the process the holder if and only if nobody else contributes, and otherwise it loses; the cell is left alone |
| SpinMutex.UncontendedAcquires | src/mutex_hdl_spin.c:110-208 | from every reachable state in which nobody else contributes, lock and trylock alike end with the caller as the holder after one read |
| SpinMutex.LockTriesAgain | src/mutex_hdl_spin.c:110-159 | a lock that lost takes its number back, comes back to read, and holds the mutex then if and only if nobody else contributes |
| SpinMutex.UnlockFrees | src/mutex_hdl_spin.c:217-236 | a holder can unlock, and the mutex is free after it |
| SpinMutex.FailedTrylockLeavesNothing | src/mutex_hdl_spin.c:169-210 | a failed trylock has taken back what it added |
| SpinMutex.MutualExclusion | src/mutex_hdl_spin.c:110-236 | a holder is the only holder |
| SpinMutex.RefinesLock | src/mutex_hdl_spin.c:110-236 | every step is a step of the same abstract lock |
| Strided.Advance | src/strided.c:486-497 | one tick of the index vector is add one and carry |
| Strided.CarriedIsSuccessor | src/strided.c:486-497 | a tick takes the mixed-radix digits of k to those of k+1 |
| Strided.StridedToIov | src/strided.c:441-503 | entry k of both arrays is the base plus the stride-weighted digits of k, exactly the product of the counts is filled, both assertions hold |
| StridedLayout.SegmentsAreNestedLoops | src/strided.c:441-503 | the segments, in order, are the bytes of the nested loops |
| StridedDatatype.StridedToDtype | src/strided.c:23-83 | the type map is that of the trimmed loops with the weights the source computes, and MPI accepts it exactly when each loop fits into the next stride |
| StridedDatatype.SameBytesIffDividing | src/strided.c:23-83 | the datatype visits the bytes of the nested loops in order if and only if each stride left after trimming divides the next |
| StridedDatatype.StridesThatDoNotDivide | src/strided.c:36-46 | strides 4 and 6 pass every assertion, MPI accepts the subarray, and it names different bytes |
| StridedDatatype.TrimmedOffsets | src/strided.c:33-35 | dropping trailing counts of one changes no byte |
| StridedDatatype.OffsetsRise | src/strided.c:36-80 | when each loop fits into the next stride the offsets rise strictly, so no byte is named twice |
| StridedOps.WriteStrided | src/strided.c:677-690 | the strided bytes end in a row in the buffer, nothing else changes |
| StridedOps.ReadStrided | src/strided.c:702-715 | the buffer ends in the strided bytes, nothing else changes |
| StridedOps.PackThenUnpack | src/strided.c:677-715 | packing, any change of memory but of the packed copy, and unpacking restores the strided bytes and touches no other |
| StridedOps.UnpackThenPack | src/strided.c:677-715 | every buffer that is unpacked comes back when packed if and only if the layout names no byte twice |
| StridedOps.UnpackThenPackNested | src/strided.c:677-715 | in particular when each loop stays within one step of the next |
| StridedOps.PutS | src/strided.c:110-185 | subarray branch, guarded or not, and I/O vector branch under every setting have the one effect of copying byte after byte; with end_to_end_flush the bytes are at the target on return and nothing is outstanding; the typed operation names a fresh copy exactly when the source is guarded and shared; the vector branch stops exactly when the datatype form gets local buffers that span more than INT_MAX bytes |
| StridedOps.GetS | src/strided.c:212-286 | likewise for the origin's memory; on return nothing is outstanding, and the target is what was there and under way |
| StridedOps.PutSThenGetS | src/strided.c:110-286 | with end_to_end_flush a strided get of what a strided put wrote brings back what was put, for any three layouts and on either branch |
| Memory.DeliverAny | src/gmr.c:524-600 | whichever outstanding update arrives first, the outcome of all is the same when none conflict |
| Rma.Window.Flush | src/gmr.c:988-1003 | everything outstanding is delivered, in any order, and the target equals the view before |
| Progress.FlushRegion | src/gmr.c:988-1003 | local or remote flush by the setting: the view is kept, the origin's buffers are free to use |
| Buffers.PrepareRead | src/buffer.c:26-61 | shared buffers are copied into fresh blocks, each new buffer holds the data of the old, nothing else changes |
| Buffers.FinishRead | src/buffer.c:73-86 | each temporary is freed once and the origin's memory is exactly as before |
| Buffers.PrepareWrite | src/buffer.c:197-227 | shared destinations get fresh blocks, nothing else changes |
| Buffers.FinishWrite | src/buffer.c:239-257 | every segment ends in the user's buffer, each temporary is freed once, nothing else differs |
| Buffers.PrepareAcc | src/buffer.c:100-156 | each new buffer holds the scale times the data, gathered into one block when scaled, copied only if shared when not |
| Buffers.FinishAcc | src/buffer.c:169-185 | the one block or the separate ones are freed once, memory is as before |
| Buffers.AccScale | src/buffer.c:320-351 | every integer element is multiplied by the scale |
| IoVector.OpBatched | src/vector.c:231-285 | for every batch limit and in conservative mode the segments are moved as one after the other; the most that are ever outstanding at once is one in conservative mode, the batch limit where there is one, else all |
| IoVector.LowestAddress | src/vector.c:351-356 | the base is one of the local addresses and none is lower |
| IoVector.Displacements | src/vector.c:358-371 | element displacements that reproduce every address, non-negative and within 32 bits, unless an assertion fails, and exactly when |
| IoVector.IndexedIsSegments | src/vector.c:378-385 | the indexed block type over displacements names the cells of the segments in order |
| IoVector.Chunks | src/vector.c:373-408 | for every chunk size the segments are moved as one after the other, and which target cells each operation names |
| IoVector.OperationSizes | src/vector.c:373-408 | one operation without a usable chunk size; with one, operation i takes exactly that many segments from where the one before ended, and only the last may take fewer |
| IoVector.OperationsDistinct | src/vector.c:373-408 | every operation of the loop names distinct target elements if and only if segments in the same operation share none |
| IoVector.SamePlaceTwice | src/vector.c:373-408 | two segments at one place: named twice by the one operation without a chunk size, fine with a chunk size of one |
| IoVector.OpDatatype | src/vector.c:296-414 | the segments are moved as one after the other; the program stops, before issuing anything, exactly when an offset is misaligned or too large |
| VectorOps.Dispatch | src/vector.c:126-172 | every path it chooses moves the segments; it stops, with nothing issued, exactly for a size that is not whole elements or when the datatype path does |
| VectorOps.SameAllocation | src/vector.c:82-111 | with checks on, true exactly when all pointers are looked up to the same slice, or none to any |
| VectorChecks.NoOverlapDistinct | src/vector.c:48-72 | when the check finds no overlap no element is named twice, whatever the chunk size |
| VectorChecks.SeparableExactly | src/vector.c:150-165 | under every setting the operations of an accumulate name no target element twice if and only if the vector is separable |
| VectorChecks.RowAddressable | src/buffer.c:117-134 | gathering scaled copies into one block: the datatype form stops only for a misaligned target or a span of more than INT_MAX elements |
| VectorChecks.ScaledVerdict | src/buffer.c:117-134 | whether a scaled accumulate goes through does not depend on where its buffers are |
| VectorChecks.UnguardedVerdict | src/vector.c:351-371 | where no buffer is guarded and shared, whether a call goes through can be read off its arguments |
| VectorChecks.BytesAddressable | src/vector.c:358-371 | for bytes the datatype form stops exactly when two local segments are more than INT_MAX apart |
| VectorOps.PutV | src/vector.c:434-457 | for every setting it stops exactly when an assertion fails of the buffers prepared, in that vector with only those buffers held; otherwise the target ends as after a plain copy of every segment, origin memory and temporaries as before, and with end_to_end_flush nothing is outstanding |
| VectorOps.GetV | src/vector.c:473-497 | likewise the origin ends as after a plain copy of every segment; target and temporaries as before, and once anything was fetched nothing is outstanding |
| VectorOps.AccV | src/vector.c:513-532 | likewise the target ends as after adding scale times every source element, one after the other; destinations may overlap wherever MPI allows it |
| VectorOps.PutThenGet | src/vector.c:434-497 | with end_to_end_flush a get of the cells that were put brings back what was put |
| GroupFormation.GroupRank | src/groups.c:131-143 | the first position of the caller in the list, or none exactly when it is not a member |
| GroupFormation.Enter | src/groups.c:131-149 | nothing for a caller not in the list, a duplicate of itself exactly for a group of one, otherwise the loop with its rank |
| GroupBlocks.PartnersNameEachOther | src/groups.c:154-168 | the partner computation of a block and of its partner name each other's leader and pass opposite sides |
| GroupBlocks.RoundUnique | src/groups.c:154-168 | a block takes part in a merge in one round only |
| GroupBlocks.MergedBlock | src/groups.c:154-170 | the low block followed by the high block is the block of the next round |
| GroupFormation.StepKeeps | src/groups.c:151-174 | every skip, call, match and return keeps: each member has the block of its round, merges return the next block, all but the last communicator made are freed |
| GroupFormation.MatchedCalls | src/groups.c:151-170 | calls that the single tag lets MPI pair come from one round, and everyone on both sides is in it |
| GroupFormation.BlockInEveryRound | src/groups.c:151-174 | in every reachable state a member's communicator is the block of its group rank at its merge size |
| GroupFormation.WholeGroupAtTheEnd | src/groups.c:151-174 | a member past the loop has all members in list order; it has made one communicator for each round in which its block had a partner, that round's merged block, and has freed all of them but the last, none twice |
| GroupFormation.Progress | src/groups.c:151-174 | while a member is in the loop some step is possible |
| GroupFormation.RunsEnd | src/groups.c:151-174 | every run has at most three steps for each member and round |
| RegionList.RegionList.Append | src/gmr.c:323-335 | the region is the last of a well formed doubly linked list |
| RegionList.RegionList.Remove | src/gmr.c:404-416 | the region is gone and the list stays well formed |
| RegionList.RegionList.Lookup | src/gmr.c:471-492 | the first region whose slice has base <= address < base + size, null exactly when there is none |
| RegionList.ContainsIsExtent | src/gmr.c:480-485 | the test accepts exactly the addresses of the slice's bytes |
| RegionList.SliceEnds | src/gmr.c:471-492 | the last byte of a slice is found in its region; the address one past it is found in the region that starts there, if one does, and never in this one |
| RegionList.RegionList.Destroy | src/gmr.c:353-447 | which region one process removes, given what the group agreed on |
| RegionList.Replay | src/gmr.c:323-447 | creates and destroys on the heap list, in any order, leave the list that the history says |
| RegionList.LookupAfterReplay | src/gmr.c:471-492 | after any creates and destroys on the heap list a lookup finds the only region that covers the address, null exactly when none does |
| RegionList.LookupAfterHistory | src/gmr.c:471-492 | the same of the sequence of regions |
| RegionList.SearchProc | src/gmr.c:370-382 | the maximum is the highest rank that passed a region, or -1 when nobody did |
| RegionList.DestroyAgreement | src/gmr.c:353-447 | all members remove the one region that was named if and only if nobody passed NULL or the highest ranked caller's slice is nonempty |
| RegionList.EmptySliceIsNotFound | src/gmr.c:353-447 | two members for which it is not found |
| RequestHandle.Handle.Add | src/gmr.c:1055-1106 | the request joins the end of the handle's sequence through both growth steps; a bogus handle is left alone |
| RequestHandle.Handle.Wait | src/onesided_nb.c:235-302 | all requests of the handle are complete and it is empty |
| RequestHandle.Handle.Test | src/onesided_nb.c:317-371 | zero exactly when there were requests and all were complete, and only then the handle is emptied |
| RequestHandle.Play | src/onesided_nb.c:235-371 | any run of adds, waits and tests on a real handle: the requests that left, in order, followed by those it holds are those that were added; each was complete when it left; the handle holds what was added since it was last empty |
| RequestHandle.HoldsSinceEmpty | src/gmr.c:1055-1106 | what the calls leave is what was added since it was last empty |
| RequestLimit.Limiter.Begin | src/gmr.c:30-47 | at the limit every window is flushed, the counter is zero and nothing is outstanding; below it nothing changes |
| RequestLimit.Limiter.Issue | src/gmr.c:550-572 | one operation more, counted, within the limit |
| RequestLimit.NeverMoreThanLimit | src/gmr.c:21-61 | in every run of issues, completions, creates and destroys at most 128 operations are locally incomplete, below the 255 at which UCX aborts |
| RequestLimit.NeverWaiting | src/gmr.c:21-61 | any number of operations can be issued in a row, and how many are then outstanding |
| RequestLimit.LimitIsReached | src/gmr.c:21-61 | the bound is met |
| FlagVisibility.FenceDone | src/util.c:60-68 | when the fence has passed every window no data cell is under way |
| FlagVisibility.FlagAfterData | src/onesided.c:293-301 | at every moment of every run, whoever sees the flag sees every data cell |
| FlagVisibility.FlagArrives | src/onesided.c:293-301 | when the call has returned and nothing is under way the flag and every data cell have their values, and no address has changed that neither the call nor an earlier put writes |
| FlagVisibility.RunsEnd | src/onesided.c:293-301 | every run of a call is short: each cell is put and delivered once, each window flushed once |
| FlagVisibility.NeverStuck | src/strided.c:653-665 | the call can always go on |
| FlagVisibility.FenceIsNeeded | src/onesided.c:293-301 | a window that the fence does not visit lets the flag be seen first |
| BarrierVisibility.Conservation | src/util.c:40-91 | over every run what was under way and what was issued is what was delivered and what is under way |
| BarrierVisibility.BarrierCompletes | src/util.c:40-91 | once any process has left its k-th barrier, everything that any process issued before its own k-th barrier has been delivered, as often as it was issued |
| BarrierVisibility.RunningIsFree | src/util.c:40-91 | a process outside the library can issue on any of its windows and can call the barrier, whatever the others do |
| BarrierVisibility.BarrierEnds | src/util.c:40-91 | when everyone has called the barrier that a process is in, some step other than a new operation or call is possible |
| BarrierVisibility.RunsEnd | src/util.c:40-91 | runs without new operations and calls are short |
| BarrierVisibility.BarrierReturns | src/util.c:40-91 | once everyone has called the barrier that a process is in, it returns from it exactly once |

## Left out

- Environment and version parsing, printing, debugging output, the progress thread: input, output and configuration.
- The profiler, benchmarks, wrappers and stubs: they add only easy members.
- `ARMCII_Strided_to_iov_iter` and its companions: nothing in the repository calls them.
- `PARMCI_AccS`: it combines `ARMCII_Buf_acc_scale` with the branches modelled for put.
- Floating-point and complex scaling and their epsilon test: rounding is not modelled.
- Machine integer overflow: counts, sizes and addresses are unbounded integers, except for the 32-bit displacements of the datatype path.
- Non-blocking vector operations: they finish a scaled copy without a flush.
- Vectors whose segments span several allocations: the source looks the region up once.
- The return values of the prepare functions: no caller uses them.
- Progress of the spin mutex and its backoff times: they are random.
- `ctree_destroy` and `ctree_print`.
- Multi-threaded callers and the locks around the region list.
- `ARMCII_Sync` after a barrier: public and private window copies are one memory here.
- Creating and destroying windows during a fence or a barrier: the lists of windows are fixed there.
- Operations in flight from non-blocking calls when a blocking vector call starts: the origin is idle at the start, while updates under way to the target may exist.
- The intercommunicator of a merge is made and freed inside one step and is not tracked.
- Sources that overlap the target: origin and target are two memories.
- Accumulate cells are whole elements: destinations of accumulate either coincide or are disjoint as elements.
