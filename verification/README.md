# Dependency-graph executor and custom thread pool, modelled in Dafny

The system runs a set of actions whose order is constrained by a dependency
graph. It has two sequential cores, and this project models both.

**The graph and its readiness scheduler** (`Program.cs`).

- `Graph<T>` is built from a node array and an edge list. For every node it
  keeps a children list and a parents list.
- `ProcessInParallelAsync` first starts every node that has no parents.
- Then, each time one of its tasks finishes, it:
  - marks that node in `finishedActions`;
  - walks the node's children, re-scanning each child's parents;
  - starts every child whose parents have all finished;
  - removes the finished task from `allTasks`.
- It stops when `allTasks` is empty.

**The thread-pool bookkeeping** (`TaskScheduler.cs`).

- `MyThreadPool` validates its thread count and keeps a FIFO work queue. Tasks
  are enqueued by `QueueUserTask`, and taken from the head by a worker's loop
  and by `RemoveTask`.
- `Dispose(bool)` acts only while the pool is not yet disposed. On an
  explicit dispose it also aborts the scheduling thread and then each
  worker, disposing each worker's entry in the events dictionary. That
  dictionary is created empty and never filled, so the first worker's lookup
  throws `KeyNotFoundException`. The pool then stays not disposed, and
  workers after the first keep running (see Findings).
- `MyTaskScheduler.QueueTask` rejects a null task with its stored exception.
  It hands a LongRunning task to a dedicated thread, and queues every other
  task on the pool.

Files:

- `graph.dfy` (module `Graphs`):
  - the `Node` and `Edge` values;
  - the specification of the lists (`Adjacent`: children, `Incoming`: parents);
  - the class `Graph`, whose constructor fills two arrays of lists in loops.
- `executor.dfy`, in two modules:
  - `Executor`: the run as a value (`ExecState`), with one loop iteration
    (`Step`) and the loop invariant (`Inv`). The class `Execution` holds
    `allTasks`, `map` (`taskMap`) and `finishedActions`, and its methods follow
    the source's loops. `ProcessInParallel` is the whole run.
  - `MainScenario`: the three-node graph built by `Main`.
- `thread_pool.dfy` (module `ThreadPool`): the classes `MyThreadPool` and
  `MyTaskScheduler`.

Modelling choices:

- **Tasks.** A task is the number under which it was started. Each
  `TaskFactory.StartNew` creates a new number, so two starts of the same node
  give two distinct tasks, as in the source.
- **`Task.WhenAny`.** It becomes a nondeterministic choice of any task in
  `allTasks`.
- **Payloads.** They are carried in `Node.val` but never run.
- **Readiness and shutdown.** The code decides readiness by re-scanning
  `finishedActions` for every child, not with per-child counters. It stops
  threads with `Thread.Abort`. The model follows the code.

## Model

| member | source | states |
|---|---|---|
| Graphs.Graph.constructor | Program.cs:65-88 | every list starts empty; afterwards the children list of `v` holds, in edge-list order, the target node of each edge leaving `v`, and the parents list of `u` the source node of each edge entering `u` |
| Graphs.ListsSnoc | Program.cs:81-87 | taking in one edge (v, u) appends `nodes[u]` to the children of `v` and `nodes[v]` to the parents of `u`, and changes no other list |
| Graphs.AdjacentMembers | Program.cs:81-87 | a node is in the children list of `v` if and only if some edge leaves `v` and ends at that node |
| Graphs.IncomingMembers | Program.cs:81-87 | a node is in the parents list of `u` if and only if some edge ends at `u` and leaves from that node |
| Graphs.ChildIffParent | Program.cs:81-87 | for well-indexed nodes, `c` is a child of `p` if and only if `p` is a parent of `c`, if and only if the edge (p, c) was given |
| Graphs.ListedNodesWithin | Program.cs:81-87 | every node in a children or parents list is a node of the array, stored at its own index |
| Graphs.ChildrenTotalOfNoEdges | Program.cs:73-77 | before any edge is taken in, every list is empty, so the lists hold no entries in total |
| Graphs.ChildrenTotalIsEdgeCount | Program.cs:81-87 | the lengths of all children lists add up to the number of edges |
| Graphs.ListTotals | Program.cs:73-87 | the children lists and the parents lists each hold exactly one entry per edge, so their totals are equal |
| Graphs.ChildrenDistinct | Program.cs:81-87 | without repeated edges, no children list names a node twice |
| Graphs.Graph.GetNode | Program.cs:30-33 | the node returned for index `ind` carries `ind` |
| Graphs.Graph.GetParents | Program.cs:35-38 | returns the parents list of the node: the sources of the edges into it, each a node within the array |
| Graphs.Graph.GetParentsCountOf | Program.cs:41-44 | the `Node` overload returns the length of the parents list and agrees with the index overload |
| Graphs.Graph.GetParentsCount | Program.cs:46-49 | the length of the parents list of `ind`; zero exactly when no edge ends at `ind` |
| Graphs.Graph.GetChildren | Program.cs:51-54 | returns the children list of the node: the targets of the edges out of it, each a node within the array |
| Executor.Execution.constructor | Program.cs:95-99 | the run starts with no task, an empty map and every `finishedActions` flag false, one flag per node |
| Executor.Execution.StartTask | Program.cs:103-106 | starting a node creates a new task, maps it to the node and appends it to `allTasks`; the running nodes gain that node at the end |
| Executor.Execution.StartRoots | Program.cs:101-108 | after the first loop the running and started nodes are `Roots`, and nothing is finished |
| Executor.RootsExactly | Program.cs:101-108 | the tasks started before the main loop are exactly the nodes whose parents count is zero, in increasing index order |
| Executor.InitialInv | Program.cs:99-108 | the loop invariant holds before the main loop |
| Executor.Execution.ParentsFinished | Program.cs:124-129 | the check yields true if and only if every parent of the child has its `finishedActions` flag set |
| Executor.ReadyAmongMembers | Program.cs:122-134 | a child is started by the children loop if and only if it is a child of the finished node and all its parents are finished |
| Executor.ReadyAmongDistinct | Program.cs:122-134 | when the children list has no repeats, neither have the children it starts |
| Executor.Execution.StartIfReady | Program.cs:124-134 | one turn of the children loop starts the child exactly when all its parents are finished, and otherwise changes nothing |
| Executor.Execution.StartReadyChildren | Program.cs:122-137 | the children loop starts exactly the ready children, in children order, appending their tasks after the existing ones |
| Executor.Execution.FinishNode | Program.cs:120-137 | when the scan meets the finished task, only that node's flag is set, and then the children that became ready are started |
| Executor.Execution.ScanTasks | Program.cs:116-138 | the scan over `allTasks` (whose count grows as children start) has the effect of exactly one `FinishNode` on the finished task's node |
| Executor.RemoveFirstAt | Program.cs:139 | `List.Remove` of a task that occurs first at position `k` deletes exactly that position |
| Executor.Execution.RemoveFinished | Program.cs:139 | removing the finished task deletes its entry from `allTasks` and from the running nodes, and nothing else |
| Executor.Execution.CompleteTask | Program.cs:113-139 | one iteration of the main loop moves the state by `Step`: only the finished node's flag flips from false to true, its ready children start, and the finished task leaves `allTasks` |
| Executor.MarkFinishedCount | Program.cs:121 | setting the flag of an unfinished node lowers the number of unfinished nodes by one, which is the loop's termination measure |
| Executor.ReadyChildrenFresh | Program.cs:122-134 | without repeated edges, the children an iteration starts are new: none had been started, and none is started twice |
| Executor.ReadyChildrenCompleteAt | Program.cs:120-134 | after an iteration, a node has been started if and only if all its parents are finished |
| Executor.ReadyChildrenComplete | Program.cs:120-134 | the same for every node at once |
| Executor.StepRunning | Program.cs:113-139 | after an iteration the running nodes are distinct, valid and unfinished |
| Executor.StepStarted | Program.cs:113-139 | after an iteration no node has been started twice, and a node is started if and only if it is running or finished |
| Executor.StepPreservesInv | Program.cs:110-140 | each iteration keeps the invariant: a child starts only when all its parents are finished, once per node, and a started node is running or finished; the number of unfinished nodes strictly drops |
| Executor.FinishedBelowRank | Program.cs:110-140 | once `allTasks` is empty, in a graph ranked without cycles, every node of rank below the bound is finished |
| Executor.AllDoneWhenIdle | Program.cs:110-140 | once `allTasks` is empty, a node is started if and only if it is finished; in a graph without cycles every node has been started and finished |
| Executor.ProcessInParallel | Program.cs:92-141 | the run terminates with `allTasks` empty; no node was started twice; a node was started if and only if all its parents finished; in a graph without cycles every node was started and finished |
| MainScenario.MainGraphLists | Program.cs:144-155 | in Main's graph, node 0 has no parents and children 1 and 2; nodes 1 and 2 each have parent 0 and no children |
| MainScenario.MainStart | Program.cs:144-155 | node 0 is the only task started before the main loop |
| MainScenario.MainFirstStep | Program.cs:144-155 | when node 0 finishes, nodes 1 and 2 are started, in that order |
| MainScenario.MainLeafStep | Program.cs:144-155 | when node 1 or node 2 finishes, nothing new is started |
| MainScenario.StartMainGraph | Program.cs:144-155 | Main's graph is built and node 0 runs alone |
| MainScenario.CompleteMainRoot | Program.cs:144-155 | finishing node 0 leaves nodes 1 and 2 running |
| MainScenario.CompleteFirstLeaf | Program.cs:144-155 | whichever of nodes 1 and 2 finishes first, the other keeps running and nothing else starts |
| MainScenario.CompleteLastLeaf | Program.cs:144-155 | when the last leaf finishes, no task is left and all three nodes are finished |
| MainScenario.RunMainGraph | Program.cs:142-156 | Main's run: node 0 starts alone; nodes 1 and 2 start only after it finishes; the run ends with start order 0, 1, 2 and every node finished |
| ThreadPool.MyThreadPool.Create | TaskScheduler.cs:92-117 | a thread count of zero or less raises `ArgumentException("Number of threads must be positive")` and yields no pool; otherwise the pool has that many started threads and an empty events dictionary |
| ThreadPool.MyThreadPool.constructor | TaskScheduler.cs:97-116 | a new pool has an empty work queue, an empty events dictionary, exactly `numberOfThreads` started worker threads, an unstarted scheduling thread, and is not disposed |
| ThreadPool.MyThreadPool.WithEvents | TaskScheduler.cs:97-116 | the intended construction: the same pool, except that every worker's id has an undisposed event in the dictionary |
| ThreadPool.MyThreadPool.QueueUserTask | TaskScheduler.cs:84-90 | a null task raises `ArgumentException("Task can't be null!")` and leaves the queue unchanged; any other task is appended at the tail, keeping earlier entries and their order |
| ThreadPool.MyThreadPool.WorkerStep | TaskScheduler.cs:145-150 | a worker takes a task only when the queue is non-empty, and then it takes the head |
| ThreadPool.MyThreadPool.RemoveTask | TaskScheduler.cs:159-163 | removes the head of the queue; on an empty queue the dequeue raises `InvalidOperationException` and nothing changes |
| ThreadPool.MyThreadPool.GetWorkQueueTasks | TaskScheduler.cs:165-168 | exposes the queued tasks, head first, position by position |
| ThreadPool.QueueThenDrain | TaskScheduler.cs:84-150 | tasks queued one by one are listed by the queue in the order queued, and a worker takes them in exactly that order |
| ThreadPool.AbortedUpTo | TaskScheduler.cs:192-194 | the worker list after the first `n` workers have been aborted: exactly those, and the ones already aborted, are aborted, and every worker keeps its id and started state |
| ThreadPool.FirstUnregistered | TaskScheduler.cs:192-195 | the first worker whose id has no entry in the events dictionary: every earlier worker has one, and it does not, or there is none |
| ThreadPool.DisposeEvents | TaskScheduler.cs:195 | disposing the events of some workers keeps the dictionary's keys, marks those workers' events disposed, and leaves every other entry as it was |
| ThreadPool.MyThreadPool.AbortWorkers | TaskScheduler.cs:192-196 | the abort loop aborts workers and disposes their events in order, up to the first worker without an entry. There it throws `KeyNotFoundException` for that worker's id after aborting it, and leaves later workers untouched. With no such worker it returns normally with every worker aborted. The queue, the flag and the scheduling thread are unchanged |
| ThreadPool.MyThreadPool.Dispose | TaskScheduler.cs:183-200 | on a disposed pool, or when disposing is false, it returns normally with the pool disposed and the threads and events unchanged. Otherwise it aborts the scheduling thread and disposes its event. It then aborts workers and disposes their events in order, up to the first worker without an entry. At that worker it throws `KeyNotFoundException` after aborting it, leaves later workers untouched, and leaves the pool not disposed. With no such worker, every worker is aborted and the pool is disposed. The queue is never touched |
| ThreadPool.DisposeAsWritten | TaskScheduler.cs:98-200 | on a pool as constructed, `Dispose(true)` throws `KeyNotFoundException` for worker 0's id after aborting only worker 0; the pool stays not disposed, and a second call throws the same way |
| ThreadPool.DisposeIntended | TaskScheduler.cs:183-200 | on a pool whose workers have their events entered, the first `Dispose(true)` returns normally, and right after it the pool is disposed, the scheduling thread and every worker are aborted and every worker's event is disposed; a second call returns normally, leaves the pool disposed and changes neither the threads nor the events dictionary |
| ThreadPool.MyTaskScheduler.Create | TaskScheduler.cs:19-24 | the scheduler gets the id, the stored exception and a fresh pool of the requested size; the pool's validation can refuse it |
| ThreadPool.MyTaskScheduler.CreateDefault | TaskScheduler.cs:26-30 | the scheduler gets a pool with one thread per processor; its id is left at 0 |
| ThreadPool.MyTaskScheduler.constructor | TaskScheduler.cs:19-24 | stores the pool, the id and the exception; no task has gone to a dedicated thread yet |
| ThreadPool.MyTaskScheduler.GetScheduledTasks | TaskScheduler.cs:32-35 | the scheduled tasks are the pool's queue contents, head first |
| ThreadPool.MyTaskScheduler.QueueTask | TaskScheduler.cs:46-61 | null raises the stored exception and changes nothing; a LongRunning task goes to a dedicated thread and leaves the pool queue unchanged; any other task is appended to the pool queue |
| ThreadPool.Routed | TaskScheduler.cs:46-61 | a task is routed to a given side if and only if it was submitted and its LongRunning flag matches that side |
| ThreadPool.RoutedSplitsTasks | TaskScheduler.cs:46-61 | every submitted task reaches exactly one side: the pool queue or a dedicated thread |
| ThreadPool.ScheduleAll | TaskScheduler.cs:46-61 | after submitting a sequence of tasks, the scheduled tasks are the ones without the LongRunning flag, in submission order, and the dedicated threads got the others |

## Left out

- Running the actions. `TaskFactory.StartNew` becomes a new task number, and `Task.WhenAny` becomes a nondeterministic choice among the running tasks. The model runs no payload and has no real asynchrony. `Console.WriteLine` and `Thread.Sleep` are not modelled.
- `Graph(int size)` (Program.cs:57-63) is not modelled. That constructor leaves the lists unset, and nothing in the core uses it.
- Graphs.Graph.constructor: it requires exactly `size` nodes, each stored at the index it carries, and `size` is a `nat`. A negative size makes the array allocations at Program.cs:69-71 throw `OverflowException`; the model takes `size` as a `nat` and does not model that exception. The source also accepts a node array longer than `size`, which the model excludes. The scheduler depends on the stored index matching the position, as in `Main`.
- Graphs.Graph.GetNode: it requires indices in range, and so do the other accessors and the constructor's edges. In the source an out-of-range index raises `IndexOutOfRangeException`.
- Executor.ProcessInParallel: the whole-run properties are proved only for edge lists without repeats.
  - With a repeated edge, a child can be started more than once: once per copy of the edge from whichever parent finishes last. A child started twice also finishes twice, so its own children can be started again.
  - `CompleteTask` models that case faithfully, but termination and "started at most once" are not claimed for it.
- Executor.AllDoneWhenIdle: "every node runs" is proved only for graphs without cycles. On a cyclic graph the run still ends, and the nodes of the cycle are never started.
- Thread creation, `Start` and `Abort` are recorded only as flags. The model includes none of their runtime behaviour.
- ThreadPool.MyThreadPool.Dispose: `Thread.Abort` is modelled as succeeding, which is the .NET Framework behaviour. On runtimes where it is unsupported (.NET Core and later), line 189 itself throws `PlatformNotSupportedException`, before any worker is touched, and again the pool is not marked disposed.
- `ManagedThreadId` values come from the runtime. The model numbers threads in creation order: 0 for the scheduling thread, then 1, 2, … for the workers. Only their distinctness matters to the model.
- These thread-pool parts are not modelled:
  - `FindAndStartFreeThread` and its `ManualResetEvent` signalling (the events dictionary is modelled only for the lookups and disposals in `Dispose(bool)`);
  - the reflection call to `ExecuteWithThreadLocal`;
  - `LongRunningThreadWork`;
  - `TryExecuteTaskInline`, which only throws;
  - the finalizer and the public `Dispose()`, both of which call `Dispose(bool)`.
- ThreadPool.MyThreadPool.WorkerStep models one turn of the worker's busy-wait loop, not the endless loop. The worker index that each thread's lambda captures is not modelled, and neither are locks or races between workers.
- ThreadPool.MyThreadPool.GetWorkQueueTasks returns a copy of the queue contents, while the source returns the live queue object, so later changes through that alias are not modelled.
- ThreadPool.MyTaskScheduler.QueueTask: the stored exception is always non-null. In the source a null stored exception would make the `throw` raise `NullReferenceException`.
- `Environment.ProcessorCount` becomes the `processorCount` parameter of `CreateDefault`.
- The message of the `InvalidOperationException` raised by `RemoveTask` on an empty queue comes from the runtime library, not from this repository.

## Findings

| source | as written | input that shows it | evidently intended | confidence | as-written member | corrected member |
|---|---|---|---|---|---|---|
| TaskScheduler.cs:183-200 | `_threadsEvent` is created empty at line 98 and never filled. So `Dispose(true)` aborts worker 0 and then throws `KeyNotFoundException` at line 195, before `_isDisposed = true`. Later workers are never aborted, and every later call throws again | `new MyThreadPool(2)` followed by `Dispose(true)` | each worker's event is entered under the worker's id when it is created (`MyThreadPool.WithEvents`), so the first `Dispose(true)` aborts every thread, disposes every event and marks the pool disposed, and later calls do nothing | high; not executed | ThreadPool.DisposeAsWritten | ThreadPool.DisposeIntended |
