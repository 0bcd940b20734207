# D-LAN: proved models of its self-contained cores

D-LAN shares files over a local network. This project models the parts of it that keep their
own state and that other parts rely on, and proves what they promise.

- **Thread pool** (`ThreadPool.dfy`, `ThreadPoolRuns.dfy`, `ThreadPoolObject.dfy`). The main
  thread and the workers are a step system: one step is one critical section or one stretch
  between two scheduling points. `job` numbers the accepted calls of `setRunnable` and `log`
  records `init`, the begin and end of `run`, and `finished`. The objects `Pool` and `Thread` have
  the source's fields; numbers and histories are ghost. Each call keeps the pool's invariant and
  takes it where the step system says.
- **Tree** (`Tree.dfy`, `TreeOrders.dfy`, `TreeIterators.dfy`, `TreePaths.dfy`). Nodes on the heap with a parent
  pointer and a list of children edited in place. `S` is the set of living nodes. A `Shape` is
  the immutable picture of a subtree; every subtree has exactly one, and the orders are
  functions of it.
- **Transfer rate** (`TransferRate.dfy`). The ring of 30 slots refines a plain history, `Window`.
- **Zero-copy streams** (`ZeroCopyStream.dfy`). Two buffers that refine a byte cursor and a log.
- **Varints** (`ProtoHelper.dfy`), the "Base 128 Varints" of the Protocol Buffers encoding.
- **GUI client** (`BrowseProtocol.dfy`, `GuiClient.dfy`). How browse results find their
  requests, and the walk over all shared directories.
- **Paths** (`PathEscape.dfy`, `PathText.dfy`), **sorted list** (`SortedList.dfy`), **Bloom
  filter** (`BloomFilter.dfy`) and the chunk index that may use it (`ChunkIndex.dfy`), and
  **combinations** (`Combinations.dfy`). `Sequences.dfy` holds what they share.

`dafny verify dfyconfig.toml` checks all of it.

## Where the code does not do what is said of it

The model follows the code. Each difference comes with the condition under which the code does
what is said of it, and with an input for which it does not.

- `ThreadPool::run` with a dead runnable moves the thread to the active list and leaves its
  timer on. The invariant survives if and only if the runnable is alive
  (`RunKeepsInvariantIff`); a run ends with a deleted thread in the active list
  (`DeadRunLeavesDanglingThread`).
- `ThreadPool::wait(r)` looks at the first thread listed for `r` only. It blocks exactly while `r`
  is to end, and returns when it is not any more, as long as `r` is not run again before its
  finished event is handled (`WaitIsExact`, `WaitReturnsForGood`). Otherwise it may not block
  (`WaitMayReturnEarly`), or return while the second run is still to end (`WaitReturnsWhileBusy`).
- A restart of the rate window drops the running slot and the remainder of the division by 30. An
  update keeps every byte exactly when it does not restart, or there is no such rest
  (`KeepsAllIff`, `RestartLoses`).
- `Skip` on the input stream leaves the cursor behind the end of the data exactly when it runs
  past it while peeked bytes are kept (`ZeroCopyInputStream.Skip`, `SkipPastEnd`).
- `ByteCount` of the output stream counts what was flushed: what was handed out and kept exactly
  when no chunk is live (`ByteCountIff`, `ByteCountLags`).
- A browse gets its own answer as long as each is asked for while the pending slot is free
  (`FreeSlotIsEnough`). Asked for while an abandoned one holds the slot, all it can get is the
  abandoned one's answer (`OccupiedSlotMisroutes`, `TimeOutMisroutes`).
- "Do not allow multiple same item" of the sorted list holds for the insertion of one item, and
  for that of a container exactly when it brings no item twice and none that is there
  (`MergeDuplicatesIff`, `DuplicateComesIn`).
- The Bloom filter's rule "w * k at most 8 * HASH_SIZE" lets a position through that is read
  outside the hash, and one that is shifted by a negative amount (`InRangeIff`,
  `DocumentedBoundIsTooLarge`). Its positions share bits of the hash (`PositionsShareAByte`).
- `nCombinations(n, k)` overflows when `k` is the largest int, where the counter does; else with
  `k <= n` exactly when `k * C(n, k)` does not fit an int (`CounterOverflows`), and with `k > n`,
  where it should be 0, exactly when `k - n` is more than 30 (`ZeroOverflows`).
- `unSanitizePath` undoes `sanitizePath` on exactly the texts without an entity
  (`UnsanitizeSanitizeIff`, `EntityIsLost`), and the constructor of `Path` takes back what
  `getPath` gives exactly under the conditions of `RoundTripIff` (`RoundTripFails`).

## Model

| member | source | states |
|---|---|---|
| ThreadPoolRuns.StepKeeps | application/Common/ThreadPool.cpp:48-211 | every step of pool, worker, timer and event queue keeps the invariant, a runnable being alive when it is given to run |
| ThreadPoolRuns.RunsKeep | application/Common/ThreadPool.cpp:48-211 | so does every interleaving of any length |
| ThreadPoolRuns.ListsAreExact | application/Common/ThreadPool.cpp:154-211 | in every reachable state the lists are duplicate-free, disjoint and hold exactly the threads not being deleted; an inactive thread is idle with no event under way, an active-list thread is at work, about to emit, or has exactly one finished event under way |
| ThreadPoolRuns.CallsAreOrdered | application/Common/ThreadPool.cpp:66-106 | each accepted runnable gets init, run and finished in that order, each at most once; after its thread left the active list it got init alone, init and a whole run, or all |
| ThreadPoolRuns.EntersRunIffAlive | application/Common/ThreadPool.cpp:95-97 | run is entered, for the first time, exactly when the weak reference can be upgraded |
| ThreadPoolRuns.AliveIff | application/Common/ThreadPool.cpp:95-105 | a runnable can be upgraded exactly while it has an owner, a worker has entered its run and not left the loop body, or the slot that upgraded it has not returned |
| ThreadPoolRuns.HeldThroughTheLoop | application/Common/ThreadPool.cpp:95-105 | in every reachable state, whatever the owners did, the runnable of a listed thread whose worker entered run() for it can be upgraded until the worker is back at the top of its loop |
| ThreadPoolRuns.FinishedBeforeRelease | application/Common/ThreadPool.cpp:188-195 | an event handled before that appends the call of finished |
| ThreadPoolRuns.HeldThroughTheSlot | application/Common/ThreadPool.cpp:192-200 | a runnable that was told finished can be upgraded until the slot returns |
| ThreadPoolRuns.FinishedAfterDrop | application/Common/ThreadPool.cpp:95-105 | a run in which the owner lets go during the run and the runnable gets finished all the same |
| ThreadPool.CallsAppend | application/Common/ThreadPool.cpp:66-98 | the calls of a job are those the history has for it, in order |
| ThreadPoolRuns.RunnableIsStable | application/Common/ThreadPool.cpp:48-72 | no step rewrites a thread's runnable or hands it another job unless its worker is idle |
| ThreadPoolRuns.WaitReturnsAfterTheRun | application/Common/ThreadPool.cpp:77-82 | when wait(r) blocks it returns, whatever happens meanwhile, only once the very job of r it met is over: run to its end, or r is dead and will not run |
| ThreadPoolRuns.WaitReturnsForGood | application/Common/ThreadPool.cpp:171-186 | and unless two threads were listed for r it is then not to end any more |
| ThreadPoolRuns.NotifiedIsOver | application/Common/ThreadPool.cpp:99-102 | whoever is woken from a wait finds the thread not active and its job over |
| ThreadPool.LookupFinds | application/Common/ThreadPool.cpp:177-184 | the loop finds a thread that carries the runnable, or there is none |
| ThreadPoolRuns.WaitBlocksIff | application/Common/ThreadPool.cpp:171-186 | wait(r) blocks only while r is to end, and whenever it is, unless two threads are listed for r |
| ThreadPoolRuns.WaitIsExact | application/Common/ThreadPool.cpp:171-186 | over every run in which r is not run again before its finished event is handled, wait(r) blocks exactly while r is to end |
| ThreadPoolRuns.WaitMayReturnEarly | application/Common/ThreadPool.cpp:177-184 | without that, a run after which wait(r) does not block although r is still to run |
| ThreadPoolRuns.WaitReturnsWhileBusy | application/Common/ThreadPool.cpp:177-184 | a run in which wait(r) blocks on the first of two threads and returns although the second is still to run r |
| ThreadPoolRuns.NoLostWakeup | application/Common/ThreadPool.cpp:66-94 | a worker with work or a stop request is never blocked on its condition |
| ThreadPoolRuns.AwaitedWorkerMoves | application/Common/ThreadPool.cpp:84-106 | the worker that main waits for can move, and each move brings it nearer to releasing main |
| ThreadPoolRuns.MainIsNeverStuck | application/Common/ThreadPool.cpp:35-43 | from every state of the invariant at most seven steps free the main thread |
| ThreadPoolRuns.ThreadCount | application/Common/ThreadPool.cpp:119-127 | a thread is made only when none is inactive and deleted only while there are more than nbMinThread |
| ThreadPoolRuns.RunKeepsInvariantIff | application/Common/ThreadPool.cpp:154-169 | run keeps the invariant if and only if the runnable is alive |
| ThreadPoolRuns.DeadRunLeavesDanglingThread | application/Common/ThreadPool.cpp:57-64 | a run of the pool after which the active list names a deleted thread |
| ThreadPool.WorkerKeeps | application/Common/ThreadPool.cpp:84-106 | a step of a worker keeps the invariant |
| ThreadPool.RunKeeps | application/Common/ThreadPool.cpp:154-169 | run keeps it for a living runnable |
| ThreadPool.DeliverKeeps | application/Common/ThreadPool.cpp:188-195 | so does the delivery of a finished event |
| ThreadPool.ReturnKeeps | application/Common/ThreadPool.cpp:197-199 | so does the rest of the slot, which makes the thread inactive |
| ThreadPool.ExpireKeeps | application/Common/ThreadPool.cpp:202-211 | so does the expiry of a timer |
| ThreadPool.JoinKeeps | application/Common/ThreadPool.cpp:42-43 | so does the end of a deletion |
| ThreadPool.QuietKeeps | application/Common/ThreadPool.cpp:175-186 | so do the beginning and the return of a wait, and the owners that make and drop runnables |
| ThreadPoolObject.Pool.constructor | application/Common/ThreadPool.cpp:132-135 | an empty pool, in order |
| ThreadPoolObject.Pool.Own | application/Common/ThreadPool.cpp:151-154 | a new runnable with an owner can be upgraded, and the pool stays in order |
| ThreadPoolObject.Pool.Disown | application/Common/ThreadPool.cpp:192-195 | an owner may let go of a runnable at any time; the pool stays in order |
| ThreadPoolObject.Pool.Run | application/Common/ThreadPool.cpp:154-169 | the last inactive thread or a new one is listed as active; it is activated with the runnable, its timer off and init called exactly when the runnable is alive, and only then is the pool in order |
| ThreadPoolObject.FirstRun | application/Common/ThreadPool.cpp:154-169 | on a new pool the calls lead to a thread of its own for the runnable, which got init |
| ThreadPoolObject.Thread.SetRunnable | application/Common/ThreadPool.cpp:48-72 | accepted exactly when the thread is idle and the runnable alive; then the thread is active, carries it and is not left waiting, else nothing changes |
| ThreadPoolObject.Pool.Wait | application/Common/ThreadPool.cpp:175-186 | the search over the list blocks only while the runnable is to end, and whenever it is unless two threads are listed for it; the pool stays in order |
| ThreadPoolObject.Pool.RunnableFinished | application/Common/ThreadPool.cpp:188-195 | the first event under way is taken, its thread is idle, and a runnable that can be upgraded, as it can while the worker that ran it is still in the loop body, gets finished as the last of its four calls; the pool stays in order |
| ThreadPoolObject.Pool.FinishedReturned | application/Common/ThreadPool.cpp:197-200 | the thread, which was listed as active, is listed as inactive only, idle, without runnable and with its timer on; the pool stays in order |
| ThreadPoolObject.Pool.ThreadTimeout | application/Common/ThreadPool.cpp:202-211 | the thread was inactive; it is stopped and taken off the lists exactly when there are more than nbMinThread, which leaves that many; the pool stays in order |
| ThreadPoolObject.Pool.ThreadDeleted | application/Common/ThreadPool.cpp:42-43 | once its worker has left the loop the thread is gone and in no list |
| ThreadPoolObject.Pool.WaitReturned | application/Common/ThreadPool.cpp:80-82 | the awaited thread is not active and its job is over |
| ThreadPoolObject.Pool.ThreadRun | application/Common/ThreadPool.cpp:84-106 | a stretch of the loop blocks only without work or stop, exits only when stopped, runs only a living runnable, clears active after it, posts one event, never touches runnable or timer, and keeps the calls of the job in order |
| Trees.Tree.constructor | application/Common/Containers/Tree.h:182-186 | a new leaf under the given parent |
| Trees.Tree.MoveChild | application/Common/Containers/Tree.h:257-263 | in range, the child stands at its new position and the others keep their order, else nothing changes; links agree |
| Trees.MovedElements | application/Common/Containers/Tree.h:262 | moving keeps the children and makes no duplicate |
| Trees.Tree.Sort | application/Common/Containers/Tree.h:354-359 | any reordering of the children keeps parent and child links in agreement |
| Trees.Tree.InsertChild | application/Common/Containers/Tree.h:265-286 | the new leaf stands at its position, or at the end if that is too large, and the others keep their order; links agree in the grown tree |
| Trees.InsertedElements | application/Common/Containers/Tree.h:283-284 | inserting adds that child alone and makes no duplicate |
| Trees.Tree.Destroy | application/Common/Containers/Tree.h:188-196 | exactly the subtree is deleted, the parent's list is the old one cut at the node and joined without it, no other node changes and the links of the rest agree |
| Trees.Tree.DestroyChildren | application/Common/Containers/Tree.h:191-192 | the loop over a copy of the list deletes everything below the node although each child edits that list |
| Trees.Tree.Unlink | application/Common/Containers/Tree.h:194-195 | the node takes itself out of its parent's list |
| Trees.Tree.DeleteAllChildren | application/Common/Containers/Tree.h:288-294 | everything below the node is deleted, the node itself stays |
| Trees.Tree.GetOwnPosition | application/Common/Containers/Tree.h:299-306 | a node with a parent stands at that position of the parent's list |
| TreeOrders.ShapeUnique | application/Common/Containers/Tree.h:58-60 | a subtree has only one picture, so only one order of each kind |
| TreeOrders.ShapeOf | application/Common/Containers/Tree.h:58-60 | every subtree has one |
| TreeOrders.PreOnce | application/Common/Containers/Tree.h:397-430 | preorder lists each node of the subtree exactly once |
| TreePaths.PreByPlaces | application/Common/Containers/Tree.h:397-430 | in preorder a node comes before what is below it, and siblings with what is below them from left to right |
| TreeOrders.PostOnce | application/Common/Containers/Tree.h:434-478 | postorder lists the same nodes, each once |
| TreePaths.PostByPlaces | application/Common/Containers/Tree.h:434-478 | in postorder a node comes behind what is below it, and siblings with what is below them from left to right |
| TreeOrders.LevelsOnce | application/Common/Containers/Tree.h:363-393 | level order lists the same nodes, each once |
| TreePaths.LevelsByPlaces | application/Common/Containers/Tree.h:363-393 | level order goes by depth, and on one level from left to right |
| TreePaths.WithoutRoot | application/Common/Containers/Tree.h:363-441 | without the root each order is the same less its first or last node |
| TreePaths.StepIsPosition | application/Common/Containers/Tree.h:454 | the last step of a place is the position in the parent's list of children |
| TreeOrders.LevelsByDepth | application/Common/Containers/Tree.h:363-393 | level order never goes back to a smaller depth |
| TreeOrders.PostIsMirroredPre | application/Common/Containers/Tree.h:434-478 | postorder is the preorder of the mirrored tree read backwards |
| TreeIterators.QueueIsLevelOrder | application/Common/Containers/Tree.h:379-393 | taking a node from a queue and adding its children at the end brings forth level order |
| TreeIterators.TreeBreadthFirstIterator.constructor | application/Common/Containers/Tree.h:363-370 | the order to come is level order of the subtree, with or without the root |
| TreeIterators.TreeBreadthFirstIterator.Next | application/Common/Containers/Tree.h:378-387 | each call hands out the next node of level order, then null |
| TreeIterators.TreeBreadthFirstIterator.HasNext | application/Common/Containers/Tree.h:372-376 | true exactly while nodes are left |
| TreeIterators.Push | application/Common/Containers/Tree.h:412-430 | replacing the top of the stack by its children goes on with preorder |
| TreeIterators.TreeDepthFirstIterator.constructor | application/Common/Containers/Tree.h:397-404 | the order to come is preorder |
| TreeIterators.TreeDepthFirstIterator.Next | application/Common/Containers/Tree.h:412-421 | each call hands out the next node of preorder, then null |
| TreeIterators.TreeDepthFirstIterator.HasNext | application/Common/Containers/Tree.h:406-410 | true exactly while nodes are left |
| TreeIterators.TreeDepthFirstIterator.ReadChildren | application/Common/Containers/Tree.h:423-430 | prepending backwards puts the children in front in their order |
| TreeIterators.Successor | application/Common/Containers/Tree.h:449-469 | in postorder a child is followed by the leftmost node under the next sibling, else by the parent |
| TreeIterators.LeftmostIsFirst | application/Common/Containers/Tree.h:459-469 | postorder begins with the node reached by going to the first child |
| TreeIterators.StepInPost | application/Common/Containers/Tree.h:449-457 | from any place of postorder but the last, the parent and the own position determine the next place |
| TreeIterators.TreeReverseDepthFirstIterator.constructor | application/Common/Containers/Tree.h:434-441 | the order to come is postorder, the root last or omitted |
| TreeIterators.TreeReverseDepthFirstIterator.GetDeepestTree | application/Common/Containers/Tree.h:459-469 | the descent ends at the first node of postorder from that child position on |
| TreeIterators.TreeReverseDepthFirstIterator.Following | application/Common/Containers/Tree.h:454 | parent pointer and position alone give the next node of postorder |
| TreeIterators.TreeReverseDepthFirstIterator.Next | application/Common/Containers/Tree.h:449-457 | each call hands out the next node of postorder, then null, even when the root has a parent |
| TreeIterators.TreeReverseDepthFirstIterator.HasNext | application/Common/Containers/Tree.h:443-447 | true exactly while nodes are left |
| TreeIterators.MapBreadthFirst | application/Common/Containers/Tree.h:198-207 | fun is applied to the shortest prefix of level order that ends in a false result; the result is false iff there is one |
| TreeIterators.MapDepthFirst | application/Common/Containers/Tree.h:209-218 | the same for preorder |
| TreeIterators.MapReverseDepthFirst | application/Common/Containers/Tree.h:220-229 | the same for postorder |
| TransferRate.Constants | application/Common/TransferRateCalculator.h:30-33 | three seconds, 30 slots, and the slots make up the period |
| TransferRate.Last30At | application/Common/TransferRateCalculator.cpp:113-117 | slot for slot: what was completed in the last 30, and the seed where that is less |
| TransferRate.Last30Push | application/Common/TransferRateCalculator.cpp:113-117 | a completed slot pushes the oldest of the last 30 out |
| TransferRate.RestartsIff | application/Common/TransferRateCalculator.cpp:82-88 | the window restarts exactly after a pause of more than the whole period |
| TransferRate.UpdateAppends | application/Common/TransferRateCalculator.cpp:73-124 | an update without restart appends one slot per boundary passed, at most 30, and moves to the time read |
| TransferRate.NoRestartLater | application/Common/TransferRateCalculator.cpp:88-107 | only the first pass of the loop can restart the window |
| TransferRate.UpdateConserves | application/Common/TransferRateCalculator.cpp:82-123 | it loses no byte: new slots and new running slot together are the old running slot plus the value (modulo 2^32) |
| TransferRate.LeftIsProportional | application/Common/TransferRateCalculator.cpp:111-120 | after k boundaries what is left is at least its exact share of the remaining time and less than that share plus k |
| TransferRate.SlotAmounts | application/Common/TransferRateCalculator.cpp:111-115 | what each completed slot got |
| TransferRate.RunningAmount | application/Common/TransferRateCalculator.cpp:82-87 | what the running slot got |
| TransferRate.RestartSpreads | application/Common/TransferRateCalculator.cpp:88-108 | a restart forgets the running slot, spreads the value evenly and drops value % 30 |
| TransferRate.IdleAppends | application/Common/TransferRateCalculator.cpp:111-121 | without data an update completes empty slots only |
| TransferRate.KeepsAllIff | application/Common/TransferRateCalculator.cpp:73-124 | an update whose amounts fit the counter keeps every byte exactly when it does not restart the window, or the running slot is empty and the value divides by 30 |
| TransferRate.RestartLoses | application/Common/TransferRateCalculator.cpp:88-104 | an update that keeps 30 of 32 bytes |
| TransferRate.TransferRateCalculator.constructor | application/Common/TransferRateCalculator.cpp:36-40 | an empty window |
| TransferRate.TransferRateCalculator.Update | application/Common/TransferRateCalculator.cpp:73-124 | the ring, its position and its incremental total refine the plain history; after a restart every slot of the ring holds value / 30; the loop ends |
| TransferRate.TransferRateCalculator.CompleteSlot | application/Common/TransferRateCalculator.cpp:111-121 | one pass that ends a slot keeps total the sum of the ring modulo 2^32 |
| TransferRate.TransferRateCalculator.Push | application/Common/TransferRateCalculator.cpp:113-117 | the oldest value of the ring gives way to the new one, and total stays the sum modulo 2^32 |
| TransferRate.TransferRateCalculator.Accumulate | application/Common/TransferRateCalculator.cpp:82-87 | the last pass adds to the running slot |
| TransferRate.TransferRateCalculator.Spread | application/Common/TransferRateCalculator.cpp:92-102 | the restart with data puts the same amount into every slot |
| TransferRate.TransferRateCalculator.Reset | application/Common/TransferRateCalculator.cpp:61-71 | the empty window again |
| TransferRate.TransferRateCalculator.AddData | application/Common/TransferRateCalculator.cpp:42-48 | positive amounts update, others change nothing |
| TransferRate.TransferRateCalculator.GetTransferRate | application/Common/TransferRateCalculator.cpp:53-59 | the rate is the sum of the last 30 slots of the history, modulo 2^32, per second of the period |
| TransferRate.RateAfterRestart | application/Common/TransferRateCalculator.cpp:53-124 | j slots behind a restart with value bytes the rate is (30 - j) * (value / 30) over three |
| ZeroCopyStream.ZeroCopyInputStream.constructor | application/Common/ZeroCopyStreamQIODevice.cpp:88-91 | the cursor starts at the device's position |
| ZeroCopyStream.ZeroCopyInputStream.Next | application/Common/ZeroCopyStreamQIODevice.cpp:99-126 | the stream goes where the plain reader does; the chunk is the device's bytes at the cursor, never empty, and the cursor passes it; it fails only when nothing is buffered and nothing can be peeked |
| ZeroCopyStream.ZeroCopyInputStream.Refill | application/Common/ZeroCopyStreamQIODevice.cpp:109-118 | taking the used bytes from the device and peeking the next ones leaves the cursor in place |
| ZeroCopyStream.ZeroCopyInputStream.SkipBuffered | application/Common/ZeroCopyStreamQIODevice.cpp:135-147 | what is ahead is skipped in the buffer, and the rest is still to be skipped |
| ZeroCopyStream.ZeroCopyInputStream.BackUp | application/Common/ZeroCopyStreamQIODevice.cpp:128-131 | the cursor goes back by that much, and the bytes are ahead again |
| ZeroCopyStream.ZeroCopyInputStream.Skip | application/Common/ZeroCopyStreamQIODevice.cpp:133-160 | although it reads from a device that was not advanced, the cursor goes on by count, at most to the end and the peeked bytes kept: where it should exactly when it does not run past the end or no peeked bytes are kept |
| ZeroCopyStream.SkipPastEnd | application/Common/ZeroCopyStreamQIODevice.cpp:149-159 | over one byte, one Next and a skip of one byte more put the cursor behind the end |
| ZeroCopyStream.ZeroCopyInputStream.Destroy | application/Common/ZeroCopyStreamQIODevice.cpp:93-97 | the device is left exactly at the cursor |
| ZeroCopyStream.PlayOne | application/Common/ZeroCopyStreamQIODevice.cpp:99-160 | each call takes the stream where it takes a plain reader without a buffer |
| ZeroCopyStream.Play | application/Common/ZeroCopyStreamQIODevice.cpp:88-165 | so does every run of calls and arrivals: the bytes handed out less those given back are the device's bytes up to the plain reader's cursor, ByteCount is their number and what is still buffered, and the destructor leaves the device there |
| ZeroCopyStream.MovesKeepData | application/Common/ZeroCopyStreamQIODevice.cpp:88-165 | no run loses bytes that have arrived |
| ZeroCopyStream.ZeroCopyOutputStream.constructor | application/Common/ZeroCopyStreamQIODevice.cpp:31-35 | nothing flushed, nothing live |
| ZeroCopyStream.ZeroCopyOutputStream.Next | application/Common/ZeroCopyStreamQIODevice.cpp:44-66 | the live bytes are flushed and the whole buffer is handed out, or nothing changes when the device refuses |
| ZeroCopyStream.ZeroCopyOutputStream.BackUp | application/Common/ZeroCopyStreamQIODevice.cpp:68-74 | the tail of the chunk is given back, at most all of it |
| ZeroCopyStream.ZeroCopyOutputStream.Destroy | application/Common/ZeroCopyStreamQIODevice.cpp:37-42 | the device holds everything that was not given back |
| ZeroCopyStream.ByteCountIff | application/Common/ZeroCopyStreamQIODevice.cpp:76-79 | ByteCount is what was handed out and kept exactly when no chunk is live |
| ZeroCopyStream.ByteCountLags | application/Common/ZeroCopyStreamQIODevice.cpp:60-79 | after one Next it is 0 with 4096 bytes live |
| ZeroCopyStream.PlayOut | application/Common/ZeroCopyStreamQIODevice.cpp:31-79 | over any run of calls and stores ByteCount is what was flushed, and in the end the device holds each chunk less its backed-up tail, in order |
| ProtoHelper.RunningStep | application/Common/ProtoHelper.cpp:226 | adding (byte - 1) << 7*i takes the previous continuation bit off and adds the new group |
| ProtoHelper.ShiftAddIs | application/Common/ProtoHelper.cpp:226 | so it does with wrap-around, for any width |
| ProtoHelper.HighGroups | application/Common/ProtoHelper.cpp:235-244 | groups from the sixth on do not show modulo 2^32 |
| ProtoHelper.ValSnoc | application/Common/ProtoHelper.cpp:224-232 | a further byte adds its seven bits with the next power of 128 |
| ProtoHelper.Terminated | application/Common/ProtoHelper.h:119-142 | the bytes determine where a varint ends |
| ProtoHelper.EncodeIsVarint | application/Common/ProtoHelper.h:119-142 | the canonical encoding is a varint of its value |
| ProtoHelper.ReadUInt32 | application/Common/ProtoHelper.h:119-142 | for every varint of 1 to 10 groups the value modulo 2^32, past the tag byte and the groups; an endless one leaves the pointer behind the tag |
| ProtoHelper.ReadUInt64 | application/Common/ProtoHelper.h:119-142 | the same modulo 2^64; an endless one gives 0 |
| ProtoHelper.ReadFirstTwo | application/Common/ProtoHelper.h:124-137 | the fast paths for one and two bytes |
| ProtoHelper.ReadRest32 | application/Common/ProtoHelper.cpp:221-247 | the 32-bit loops go on from two bytes to the value and end of the varint |
| ProtoHelper.SkipGroups | application/Common/ProtoHelper.cpp:235-246 | the second loop finds the end |
| ProtoHelper.ReadRest64 | application/Common/ProtoHelper.cpp:249-265 | the 64-bit loop |
| ProtoHelper.ReadString | application/Common/ProtoHelper.cpp:267-273 | exactly the length-delimited bytes are taken and passed |
| ProtoHelper.WrittenIsDelimited | application/Common/ProtoHelper.cpp:267-273 | tag, encoded length and bytes are such a field, so reading undoes writing |
| BrowseProtocol.StepKeeps | dglan-api/server.py:225-242 | every step but a timeout keeps the one browse under way at one of six stages |
| BrowseProtocol.RunsKeep | dglan-api/server.py:225-284 | so does every interleaving of caller, Core and listener |
| BrowseProtocol.EachGetsItsOwn | dglan-api/server.py:225-284 | each browse returns the answer to its own request and nothing stays registered |
| BrowseProtocol.NoDeadlock | dglan-api/server.py:265-284 | while a caller waits somebody can move |
| BrowseProtocol.ReplyComes | dglan-api/server.py:265-284 | while a caller waits, a run of Core and listener no longer than the messages under way and four steps gives it the answer to its request |
| BrowseProtocol.OwnKeeps | dglan-api/server.py:225-284 | every step, a timeout included, keeps each future with its own request while no browse is asked for over a taken slot |
| BrowseProtocol.FreeSlotIsEnough | dglan-api/server.py:229-241 | with timeouts too, and answers in any order, each browse returns its own answer as long as it is asked for while the slot is free |
| BrowseProtocol.OccupiedSlotMisroutes | dglan-api/server.py:277-284 | asked for while an abandoned browse holds the slot, all a browse can return is the abandoned one's answer |
| BrowseProtocol.TimeOutMisroutes | dglan-api/server.py:284 | a run in which that happens |
| GuiClient.CoreClient.constructor | dglan-api/server.py:110-111 | nothing is registered |
| GuiClient.CoreClient.HandleMessage | dglan-api/server.py:225-245 | a tag moves the pending future under it and empties the slot; a result takes its tag out and completes the future of that tag alone; no finished future is ever changed |
| GuiClient.CoreClient.BrowseEntry | dglan-api/server.py:265-284 | whatever other messages come in between, the result is the answer to the request and nothing stays registered |
| GuiClient.CoreClient.CollectFiles | dglan-api/server.py:307-340 | appends exactly the files below the entry, each with its record; ends at depth 20 |
| GuiClient.CoreClient.ProcessBrowseGroup | dglan-api/server.py:344-350 | the entries of a group in their order, one level deeper |
| GuiClient.CoreClient.CollectGroups | dglan-api/server.py:338-340 | all groups of a result in their order |
| GuiClient.CoreClient.CollectRootGroups | dglan-api/server.py:297-303 | all groups of roots in their order |
| GuiClient.CoreClient.CollectRoots | dglan-api/server.py:298-303 | the roots of a group in their order |
| GuiClient.CoreClient.GetAllFiles | dglan-api/server.py:287-305 | exactly those files, with those records |
| GuiClient.WalkListsAll | dglan-api/server.py:287-350 | that is what the recursion amounts to |
| GuiClient.ListsAllFiles | dglan-api/server.py:287-350 | said without recursion over the entries on the way to each place: files down to depth 20, below a root with a hash unless they are roots, each place once, in preorder, with the hash of the last entry on the way that has one |
| GuiClient.FlattenIs | dglan-api/server.py:297-298 | group after group, each in its order |
| GuiClient.RecordIs | dglan-api/server.py:316-326 | name, size, path or "/", exactly the chunk hashes that are not empty in their order, and the hash given |
| GuiClient.WalkAllIsRight | dglan-api/server.py:307-329 | whatever is listed is wanted and carries name, size, path and chunks of its entry and the nearest hash |
| GuiClient.WalkAllIsComplete | dglan-api/server.py:331-340 | nothing wanted is missing |
| GuiClient.WalkAllInOrder | dglan-api/server.py:297-303 | the places come in strict preorder |
| GuiClient.CollectedAllIsWalk | dglan-api/server.py:344-350 | the list without places is the walk's |
| PathEscape.EntityIsNumber | application/Common/Path.cpp:258-259 | the entity is the character's decimal number between "&#" and ";" |
| PathEscape.SanitizePath | application/Common/Path.cpp:254-263 | nine passes in sequence are one simultaneous substitution |
| PathEscape.UnSanitizePath | application/Common/Path.cpp:268-277 | so are the nine passes back |
| PathEscape.EscapeEach | application/Common/Path.cpp:256-261 | sanitizing replaces each forbidden character by the entity of its number, and nothing else |
| PathEscape.UnescapeEach | application/Common/Path.cpp:270-275 | unsanitizing replaces an entity at the front by its character, and passes over a character at which none begins |
| PathEscape.EscapeStep | application/Common/Path.cpp:256-261 | a pass turns the substitution of i characters into that of i + 1 |
| PathEscape.UnescapeStep | application/Common/Path.cpp:270-275 | a pass back turns the substitution of i entities into that of i + 1: it meets no entity that earlier passes made up |
| PathEscape.SanitizedIsClean | application/Common/Path.cpp:251-263 | the result has no forbidden character |
| PathEscape.SanitizeTwice | application/Common/Path.cpp:251-263 | sanitizing again changes nothing |
| PathEscape.RoundTripLength | application/Common/Path.cpp:254-277 | there and back gives the text, or a shorter one exactly when the text has an entity |
| PathEscape.UnsanitizeSanitizeIff | application/Common/Path.cpp:254-277 | unSanitizePath undoes sanitizePath on exactly the texts without an entity |
| PathEscape.HasEntityIff | application/Common/Path.cpp:259 | a text has an entity when somewhere one begins |
| PathEscape.SanitizeUnsanitizeIff | application/Common/Path.cpp:254-277 | sanitizePath undoes unSanitizePath on exactly the texts without a forbidden character |
| PathEscape.EntityIsLost | application/Common/Path.cpp:254-277 | a text with an entity does not come back |
| PathText.FromString | application/Common/Path.cpp:15-45 | the loop over the names computes the root, directories and filename that the next two rows describe |
| PathText.ParsedRoot | application/Common/Path.cpp:22-32 | "/" if the trimmed text starts with it, its first three characters if they are a drive, else none |
| PathText.ParsedNames | application/Common/Path.cpp:35-44 | the names behind the root, all directories if the given text ends with a slash, else the last one the filename |
| PathText.SplitSlashed | application/Common/Path.cpp:37 | splitting gives back names that were joined with slashes |
| PathText.SplitAtSlash | application/Common/Path.cpp:37 | splitting cuts at every slash |
| PathText.SplitOne | application/Common/Path.cpp:37 | a part is a name, an empty part is skipped |
| PathText.TrimmedIs | application/Common/Path.cpp:17 | trimming takes exactly the blanks at both ends |
| PathText.Printed | application/Common/Path.cpp:57-60 | getPath is the root, each directory with a slash, and the filename |
| PathText.PrintedWithout | application/Common/Path.cpp:57-60 | without the filename, the root and each directory with a slash |
| PathText.ParsedCounts | application/Common/Path.cpp:15-45 | parsing loses nothing of the trimmed text but slashes |
| PathText.RootOfClean | application/Common/Path.cpp:22-32 | the root that is found in printed text is that of the path exactly when a bare drive is read on Windows and a relative path does not start like a drive |
| PathText.RoundTripIff | application/Common/Path.cpp:15-60 | parsing undoes printing for a well-formed path exactly when, in addition, the text has no blank at an end |
| PathText.RoundTripFails | application/Common/Path.cpp:15-60 | a name with a blank in front, a bare drive off Windows and a relative path through a directory named like a drive do not come back |
| SortedLists.SortedList.constructor | application/Common/Containers/SortedList.h:61-65 | an empty list with its order |
| SortedLists.SortedList.Insert | application/Common/Containers/SortedList.h:67-83 | the item goes in front of the first one it is less than, unless it is met before |
| SortedLists.InsertedPlace | application/Common/Containers/SortedList.h:70-82 | the item goes right behind the longest beginning of the list in which it is neither met nor less than anything, unless it is met there |
| SortedLists.InsertKeepsSorted | application/Common/Containers/SortedList.h:67-83 | under a strict weak order a sorted list stays sorted, with duplicates too |
| SortedLists.InsertKeeps | application/Common/Containers/SortedList.h:25-31 | under a strict weak order a sorted duplicate-free list stays so and gets the item once |
| SortedLists.PresentIsFound | application/Common/Containers/SortedList.h:73-74 | in a sorted list an item that is present is met before its place |
| SortedLists.SortedList.InsertAll | application/Common/Containers/SortedList.h:88-111 | one forward cursor merges the container in |
| SortedLists.MergeIsTheStableMerge | application/Common/Containers/SortedList.h:85-111 | of a sorted list and a sorted container the result is the one sorted list that has, for each rank, the old items and then the new ones |
| SortedLists.MergeIsStable | application/Common/Containers/SortedList.h:98-108 | old items come before new ones of the same rank even when the container is not sorted |
| SortedLists.StableSortIsUnique | application/Common/Containers/SortedList.h:85-111 | being sorted and the order within each rank leave one list |
| SortedLists.MergeItems | application/Common/Containers/SortedList.h:88-111 | all items of both and no other |
| SortedLists.MergeSorted | application/Common/Containers/SortedList.h:88-111 | sorted |
| SortedLists.MergeOne | application/Common/Containers/SortedList.h:67-111 | a container of one new item does what the insertion of the item does |
| SortedLists.MergeDuplicatesIff | application/Common/Containers/SortedList.h:30-111 | a duplicate comes in exactly when an item is in both or twice in the container |
| SortedLists.DuplicateComesIn | application/Common/Containers/SortedList.h:30-111 | inserting a container with an item of the list gives a list with it twice |
| SortedLists.SortedList.RemoveOne | application/Common/Containers/SortedList.h:120-124 | the first occurrence goes and everything else stays in its order; without one nothing changes |
| Sequences.RemovesFirst | application/Common/Containers/SortedList.h:120-124 | the list is cut at the first occurrence and joined without it |
| SortedLists.SortedList.ItemChanged | application/Common/Containers/SortedList.h:113-118 | removed and inserted again under the order as it stands |
| SortedLists.ItemChangedIff | application/Common/Containers/SortedList.h:29-118 | the same items without duplicates, and sorted again exactly when the other items stand in order |
| SortedLists.SortedList.Clear | application/Common/Containers/SortedList.h:126-130 | an empty list |
| BloomFilters.BloomFilter.constructor | application/Common/BloomFilter.h:47-51 | no bit is set |
| BloomFilters.BloomFilter.Position | application/Common/BloomFilter.h:106-112 | the i-th position is below m and its byte is inside the array |
| BloomFilters.PositionBits | application/Common/BloomFilter.h:30-36 | a position is made of w bits in a row of the hash, beginning at a bit that depends on i and w alone |
| BloomFilters.WordBit | application/Common/BloomFilter.h:110 | the 32-bit word at a byte, read least significant byte first, has the bits of the four bytes from there |
| BloomFilters.BloomFilter.SetBitAt | application/Common/BloomFilter.h:83 | that bit is set and no other bit changes |
| BloomFilters.BloomFilter.Add | application/Common/BloomFilter.h:78-85 | the bits set are those of before and exactly the k positions of the hash |
| BloomFilters.BloomFilter.TakenIff | application/Common/BloomFilter.h:78-104 | a bit is set exactly when its position is one of those of a hash added since the last reset |
| BloomFilters.PositionsIff | application/Common/BloomFilter.h:80-82 | the positions of a hash are those for i from 0 to k - 1 |
| BloomFilters.BloomFilter.Test | application/Common/BloomFilter.h:87-99 | true exactly when the bits of all k positions are set, so true for every hash added |
| BloomFilters.BloomFilter.Reset | application/Common/BloomFilter.h:101-104 | no bit is set and no hash counts as added |
| BloomFilters.InRangeIff | application/Common/BloomFilter.h:35-37 | for every width, all positions can be read exactly when the last one begins in time and the width and number of positions leave no shift negative |
| BloomFilters.DefaultsInRange | application/Common/BloomFilter.h:47-48 | so it is for the defaults |
| BloomFilters.DocumentedBoundIsTooLarge | application/Common/BloomFilter.h:36-37 | parameters within the documented bound with a position outside the hash, and with a negative shift |
| BloomFilters.PositionsShareAByte | application/Common/BloomFilter.h:106-112 | with the default width the first two positions both contain byte 3 of the hash |
| ChunkIndex.Chunks.constructor | application/Core/FileManager/priv/ChunkIndex/Chunks.h:39-54 | an empty index and filter |
| ChunkIndex.Chunks.Add | application/Core/FileManager/priv/ChunkIndex/Chunks.cpp:42-52 | chunks with a hash are stored, and what is stored was added to the filter |
| ChunkIndex.Chunks.Rm | application/Core/FileManager/priv/ChunkIndex/Chunks.cpp:54-66 | the chunk goes; the filter may be reset because nothing is stored then |
| ChunkIndex.Chunks.Values | application/Core/FileManager/priv/ChunkIndex/Chunks.cpp:81-92 | the filter never changes the answer |
| ChunkIndex.SelectAppend | application/Core/FileManager/priv/ChunkIndex/Chunks.cpp:81-92 | the answer has the chunks with that hash in the order of the entries, the latest first, each as often as it was added |
| ChunkIndex.Chunks.Value | application/Core/FileManager/priv/ChunkIndex/Chunks.cpp:68-79 | the chunk with that hash that was added last, and none exactly when there is none |
| ChunkIndex.LatestIsFound | application/Core/FileManager/priv/ChunkIndex/Chunks.cpp:68-79 | of two chunks with one hash the later one is found, and the other one after its removal |
| ChunkIndex.Chunks.Contains | application/Core/FileManager/priv/ChunkIndex/Chunks.cpp:94-105 | true exactly when a chunk with that hash is stored |
| ChunkIndex.SelectWithout | application/Core/FileManager/priv/ChunkIndex/Chunks.cpp:54-66 | removing a chunk takes it out of the answer for its own hash and out of no other |
| ChunkIndex.WithoutAppend | application/Core/FileManager/priv/ChunkIndex/Chunks.cpp:54-66 | removal takes every entry of the chunk out and keeps the others in their order |
| Combinations.NCombinations | application/Common/Global.cpp:182-194 | for all ints: 0 for negative arguments; else C(n, k), which is 0 for k > n, exactly when k is not the largest int and k * C(n, k) fits an int or, for k > n, k - n is at most 30; overflow otherwise |
| Combinations.Multiply | application/Common/Global.cpp:190-193 | the loop ends without overflow exactly when all its products fit and the counter does, and then holds its last term |
| Combinations.CountsChoices | application/Common/Global.cpp:178-181 | C(n, k) is the number of subsets of size k of a set with n elements |
| Combinations.DivisionIsExact | application/Common/Global.cpp:191-192 | after i passes the loop holds C(n - k + i, i), so every division is exact, also where n - k + i is negative |
| Combinations.ProductsFitIff | application/Common/Global.cpp:191-192 | all products fit an int exactly under those two conditions |
| Combinations.CounterOverflows | application/Common/Global.cpp:191 | n = k = 2147483647: every product fits and the counter overflows |
| Combinations.ZeroOverflows | application/Common/Global.cpp:191-192 | n = 0, k = 31: the result should be 0 and product 15 does not fit |
| Combinations.Growing | application/Common/Global.cpp:191-192 | for k <= n no product exceeds the last, k * C(n, k) |

## Left out

- User interface, tray, updater, translations, sockets, HTTP plumbing, disk streaming, settings files, protobuf reflection, service start-up: data, or input and output.
- The peer, file, download, upload and search managers of the Core: not part of this model.
- `SortedArray.h`, `MapArray.h`, `Message.cpp`, `Hash_share`, the hash function and the password challenge: separate components, not part of this model.
- `Hash::toStr`, IP conversion, `formatByteSize`, `KnownExtensions`, languages, range parsing and CORS: would add easy members only.
- Thread pool: spurious wake-ups (an `if` guards the wait), deletion of the pool while runnables run, more than one thread calling the pool, reuse of the address of a deleted thread, `setStackSize`; scheduling is not assumed fair, so progress is stated as steps that can be taken.
- Thread pool: whether a weak reference can be upgraded is a parameter, tied to the references that are held. The slot for the finished event is two calls, so that `finished()` may call the pool; a timer that fires inside it is not modelled. The worker returns at ThreadPool.cpp:91-92 with the mutex locked, and the mutex is destroyed so; as nobody else uses the thread then, the model has no mutex at that point.
- Trees.Tree.Sort: the order `std::sort` leaves is a parameter; that it agrees with the comparator is left to the library.
- Trees.Tree.MoveChild: negative positions, which Qt leaves undefined, are not modelled; neither are copies, `setItem` and `operator[]`.
- Tree: changing the tree while an iterator is alive. The function given to the map functions is a value; what it changes elsewhere is not modelled. The set of living nodes and the picture of the subtree are ghost arguments.
- TransferRate.TransferRateCalculator.Update: the time read from the timer is a parameter, not smaller than the last one and counted from the last restart; the mutex makes each call one step.
- Streams: an error of `peek` or `read`, a partial write (the source throws), negative counts, and `BackUp` other than right after `Next`.
- ProtoHelper.ReadString: decoding the bytes as UTF-8 is not modelled, and lengths of 2^31 and more, which Qt takes as negative, are excluded.
- ProtoHelper.ReadUInt32: bytes that end before the varint does are excluded: the source has no end to check against.
- GuiClient.CoreClient.BrowseEntry: timeouts and the answers that come after them are in BrowseProtocol; here each browse is answered. The sending of the request and the await are the places where other messages are handled.
- GuiClient.CoreClient.CollectFiles: the branch that skips a directory after a timeout is not modelled, as a timeout may spoil the browses after it (see BrowseProtocol).
- GUI client: several callers at once, log lines, the peer and the two URLs of a file record, and hashes as bytes (they are kept as text).
- PathText.FromString: what `QDir::cleanPath` makes of the text is a parameter; for text without empty, "." and ".." components and backslashes it is written out (`CleanText`). Which characters are letters is a parameter; blanks are those of Unicode.
- Paths: `isSubOf`, `append`, the extension and the rvalue builders would add easy members only.
- SortedLists.SortedList.ItemChanged: a key that changes is a change of the order the list is given; the linked list is a sequence, so iterators held elsewhere are not captured.
- BloomFilters.BloomFilter.constructor: the number of positions per hash, a rounded logarithm in the source, is a parameter; reads are least significant byte first, as on the machines the program is built for; parameters for which a position cannot be read are excluded, and so are widths under 3 bits (no whole byte) and over 30 (m is an int).
- ChunkIndex: only the variant compiled with the filter; the hash of a stored chunk does not change.
- Combinations.NCombinations: the debug assertions on negative arguments are not modelled; an overflow of a product or of the counter, which C++ leaves undefined, is a result of its own.
