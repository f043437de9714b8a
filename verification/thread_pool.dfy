/** The sequential bookkeeping of the custom thread pool and of the task
    scheduler that feeds it: a FIFO work queue, the worker-thread list,
    the once-only dispose flag, and the routing of queued tasks. The
    threads themselves, and the execution of tasks, are outside the model. */
module ThreadPool {

  datatype Option<T> = None | Some(value: T)

  /** The exceptions the pool and the scheduler raise. */
  datatype Exception =
    | ArgumentException(message: string)
    | InvalidOperationException(message: string)
    | KeyNotFoundException(key: int)

  /** Either normal completion or a thrown exception. */
  datatype Outcome = Ok | Throws(error: Exception)

  /** `TaskCreationOptions.LongRunning`. */
  const LONG_RUNNING: bv32 := 2

  /** A queued task: its identity and its `CreationOptions` flags. */
  datatype WorkItem = WorkItem(id: nat, creationOptions: bv32)

  predicate IsLongRunning(t: WorkItem) {
    t.creationOptions & LONG_RUNNING != 0
  }

  /** A thread object: its `ManagedThreadId`, whether it was started and
      whether it was aborted. */
  datatype WorkerThread = WorkerThread(managedThreadId: int, started: bool, aborted: bool)

  /** The threads of `ws` after the first `n` of them have been aborted:
      those are aborted, the others are as they were, and nothing else about
      any of them changes. */
  function AbortedUpTo(ws: seq<WorkerThread>, n: nat): (r: seq<WorkerThread>)
    requires n <= |ws|
    ensures |r| == |ws|
    ensures forall i :: 0 <= i < |ws| ==>
      && r[i].managedThreadId == ws[i].managedThreadId && r[i].started == ws[i].started
      && r[i].aborted == (i < n || ws[i].aborted)
  {
    seq(|ws|, i requires 0 <= i < |ws| => if i < n then ws[i].(aborted := true) else ws[i])
  }

  /** The position of the first thread of `ws` whose id has no entry in the
      events dictionary, or `|ws|` when every thread has one. */
  function FirstUnregistered(ws: seq<WorkerThread>, events: map<int, bool>): (k: nat)
    ensures k <= |ws|
    ensures forall i :: 0 <= i < k ==> ws[i].managedThreadId in events
    ensures k < |ws| ==> ws[k].managedThreadId !in events
  {
    if ws == [] || ws[0].managedThreadId !in events then 0
    else 1 + FirstUnregistered(ws[1..], events)
  }

  /** Whether some thread of `ws` has the id `id`. */
  predicate HasThreadId(ws: seq<WorkerThread>, id: int) {
    exists i :: 0 <= i < |ws| && ws[i].managedThreadId == id
  }

  /** The events dictionary after the event of every thread of `ws` has been
      disposed; an entry holds whether its event is disposed. */
  function DisposeEvents(events: map<int, bool>, ws: seq<WorkerThread>): (r: map<int, bool>)
    requires forall i :: 0 <= i < |ws| ==> ws[i].managedThreadId in events
    ensures r.Keys == events.Keys
    ensures forall i :: 0 <= i < |ws| ==> r[ws[i].managedThreadId]
    ensures forall id {:trigger r[id]} :: id in events && !HasThreadId(ws, id) ==> r[id] == events[id]
  {
    if ws == [] then events
    else DisposeEvents(events, ws[..|ws| - 1])[ws[|ws| - 1].managedThreadId := true]
  }

  const THREAD_COUNT_MESSAGE := "Number of threads must be positive"
  const NULL_TASK_MESSAGE := "Task can't be null!"
  /** The message of the exception `Queue<T>.Dequeue` throws on an empty queue. */
  const EMPTY_QUEUE_MESSAGE := "Queue empty."

  class MyThreadPool {
    var workQueue: seq<WorkItem>
    var threads: seq<WorkerThread>
    const numberOfThreads: nat
    /** The scheduling thread is created but never started. */
    var scheduleThread: WorkerThread
    var scheduleEventDisposed: bool
    /** `_threadsEvent`: a reset event per thread id, with whether it has
        been disposed. */
    var threadsEvent: map<int, bool>
    var isDisposed: bool

    ghost predicate Valid()
      reads this
    {
      numberOfThreads > 0 && |threads| == numberOfThreads
    }

    /** Validates the thread count: a non-positive count raises an
        `ArgumentException` and yields no pool. */
    static method Create(numberOfThreads: int) returns (pool: MyThreadPool?, error: Option<Exception>)
      ensures numberOfThreads <= 0 <==> pool == null
      ensures numberOfThreads <= 0 ==> error == Some(ArgumentException(THREAD_COUNT_MESSAGE))
      ensures pool != null ==> error == None && fresh(pool) && pool.Valid()
      ensures pool != null ==> pool.numberOfThreads == numberOfThreads
      ensures pool != null ==> pool.workQueue == [] && !pool.isDisposed && pool.threadsEvent == map[]
      ensures pool != null ==> forall i :: 0 <= i < |pool.threads| ==> pool.threads[i] == WorkerThread(i + 1, true, false)
    {
      if numberOfThreads <= 0 {
        return null, Some(ArgumentException(THREAD_COUNT_MESSAGE));
      }
      pool := new MyThreadPool(numberOfThreads);
      error := None;
    }

    /** The construction that follows a successful validation: an empty
        queue, an empty events dictionary that nothing ever fills, an
        unstarted scheduling thread, and one started thread per requested
        worker. Threads are numbered in creation order. */
    constructor (numberOfThreads: nat)
      requires numberOfThreads > 0
      ensures Valid() && this.numberOfThreads == numberOfThreads
      ensures workQueue == [] && !isDisposed && threadsEvent == map[]
      ensures scheduleThread == WorkerThread(0, false, false) && !scheduleEventDisposed
      ensures forall i :: 0 <= i < |threads| ==> threads[i] == WorkerThread(i + 1, true, false)
    {
      this.numberOfThreads := numberOfThreads;
      workQueue := [];
      threads := [];
      threadsEvent := map[];
      isDisposed := false;
      scheduleThread := WorkerThread(0, false, false);
      scheduleEventDisposed := false;
      new;
      for i := 0 to numberOfThreads
        invariant |threads| == i
        invariant forall j :: 0 <= j < i ==> threads[j] == WorkerThread(j + 1, true, false)
        invariant workQueue == [] && !isDisposed && threadsEvent == map[]
        invariant scheduleThread == WorkerThread(0, false, false) && !scheduleEventDisposed
      {
        threads := threads + [WorkerThread(i + 1, false, false)];
        threads := threads[i := threads[i].(started := true)];
      }
    }

    /** The construction as evidently intended: like the constructor, but
        each worker's reset event is entered in the events dictionary under
        the worker's id as the worker is created. */
    constructor WithEvents(numberOfThreads: nat)
      requires numberOfThreads > 0
      ensures Valid() && this.numberOfThreads == numberOfThreads
      ensures workQueue == [] && !isDisposed
      ensures scheduleThread == WorkerThread(0, false, false) && !scheduleEventDisposed
      ensures forall i :: 0 <= i < |threads| ==> threads[i] == WorkerThread(i + 1, true, false)
      ensures forall i :: 0 <= i < |threads| ==> threads[i].managedThreadId in threadsEvent
      ensures forall id :: id in threadsEvent ==> !threadsEvent[id]
    {
      this.numberOfThreads := numberOfThreads;
      workQueue := [];
      threads := [];
      threadsEvent := map[];
      isDisposed := false;
      scheduleThread := WorkerThread(0, false, false);
      scheduleEventDisposed := false;
      new;
      for i := 0 to numberOfThreads
        invariant |threads| == i
        invariant forall j :: 0 <= j < i ==> threads[j] == WorkerThread(j + 1, true, false)
        invariant forall j :: 0 <= j < i ==> threads[j].managedThreadId in threadsEvent
        invariant forall id :: id in threadsEvent ==> !threadsEvent[id]
        invariant workQueue == [] && !isDisposed
        invariant scheduleThread == WorkerThread(0, false, false) && !scheduleEventDisposed
      {
        threads := threads + [WorkerThread(i + 1, false, false)];
        threadsEvent := threadsEvent[i + 1 := false];
        threads := threads[i := threads[i].(started := true)];
      }
    }

    /** Enqueues a task at the tail; a null task raises an
        `ArgumentException` and leaves the queue as it was. */
    method QueueUserTask(task: Option<WorkItem>) returns (outcome: Outcome)
      modifies this
      ensures task == None ==> outcome == Throws(ArgumentException(NULL_TASK_MESSAGE)) && workQueue == old(workQueue)
      ensures task != None ==> outcome == Ok && workQueue == old(workQueue) + [task.value]
      ensures threads == old(threads) && isDisposed == old(isDisposed) && scheduleThread == old(scheduleThread)
      ensures threadsEvent == old(threadsEvent) && scheduleEventDisposed == old(scheduleEventDisposed)
    {
      if task == None {
        return Throws(ArgumentException(NULL_TASK_MESSAGE));
      }
      workQueue := workQueue + [task.value];
      outcome := Ok;
    }

    /** One turn of a worker's loop: with an empty queue it takes nothing
        and goes round again; otherwise it takes the head of the queue. */
    method WorkerStep() returns (taken: Option<WorkItem>)
      modifies this
      ensures old(workQueue) == [] ==> taken == None && workQueue == []
      ensures old(workQueue) != [] ==> taken == Some(old(workQueue)[0]) && workQueue == old(workQueue)[1..]
      ensures threads == old(threads) && isDisposed == old(isDisposed) && scheduleThread == old(scheduleThread)
      ensures threadsEvent == old(threadsEvent) && scheduleEventDisposed == old(scheduleEventDisposed)
    {
      if |workQueue| == 0 {
        return None;
      }
      taken := Some(workQueue[0]);
      workQueue := workQueue[1..];
    }

    /** Drops the head of the queue; on an empty queue the dequeue raises
        an `InvalidOperationException` and nothing changes. */
    method RemoveTask() returns (outcome: Outcome)
      modifies this
      ensures old(workQueue) == [] ==> outcome == Throws(InvalidOperationException(EMPTY_QUEUE_MESSAGE)) && workQueue == []
      ensures old(workQueue) != [] ==> outcome == Ok && workQueue == old(workQueue)[1..]
      ensures threads == old(threads) && isDisposed == old(isDisposed) && scheduleThread == old(scheduleThread)
      ensures threadsEvent == old(threadsEvent) && scheduleEventDisposed == old(scheduleEventDisposed)
    {
      if |workQueue| == 0 {
        return Throws(InvalidOperationException(EMPTY_QUEUE_MESSAGE));
      }
      workQueue := workQueue[1..];
      outcome := Ok;
    }

    /** The queued tasks, head first. */
    function GetWorkQueueTasks(): (tasks: seq<WorkItem>)
      reads this
      ensures |tasks| == |workQueue|
      ensures forall i :: 0 <= i < |tasks| ==> tasks[i] == workQueue[i]
    {
      workQueue
    }

    /** The abort loop of an explicit dispose: each worker in turn is
        aborted and its entry in the events dictionary disposed; the first
        worker without an entry makes the lookup throw, after that worker
        has been aborted and before any later one is touched. */
    method AbortWorkers() returns (outcome: Outcome)
      requires Valid()
      modifies this
      ensures Valid() && workQueue == old(workQueue) && isDisposed == old(isDisposed)
      ensures scheduleThread == old(scheduleThread) && scheduleEventDisposed == old(scheduleEventDisposed)
      ensures var k := FirstUnregistered(old(threads), old(threadsEvent));
        && threadsEvent == DisposeEvents(old(threadsEvent), old(threads)[..k])
        && (k == |threads| ==> outcome == Ok && threads == AbortedUpTo(old(threads), k))
        && (k < |threads| ==>
              outcome == Throws(KeyNotFoundException(old(threads)[k].managedThreadId))
              && threads == AbortedUpTo(old(threads), k + 1))
    {
      ghost var threads0, events0 := threads, threadsEvent;
      ghost var k := FirstUnregistered(threads0, events0);
      for i := 0 to numberOfThreads
        invariant i <= k && |threads| == numberOfThreads
        invariant threads == AbortedUpTo(threads0, i)
        invariant threadsEvent == DisposeEvents(events0, threads0[..i])
        invariant workQueue == old(workQueue) && isDisposed == old(isDisposed)
        invariant scheduleThread == old(scheduleThread) && scheduleEventDisposed == old(scheduleEventDisposed)
      {
        AbortedUpToStep(threads0, i);
        threads := threads[i := threads[i].(aborted := true)];
        if threads[i].managedThreadId !in threadsEvent {
          assert i == k;
          return Throws(KeyNotFoundException(threads[i].managedThreadId));
        }
        DisposeEventsSnoc(events0, threads0, i);
        threadsEvent := threadsEvent[threads[i].managedThreadId := true];
      }
      assert threads0[..k] == threads0;
      outcome := Ok;
    }

    /** Acts only on the first call. For an explicit dispose it aborts the
        scheduling thread, disposes its event, then runs the abort loop over
        the workers; if that loop throws, the pool is left not disposed.
        Otherwise the pool records that it is disposed. */
    method Dispose(disposing: bool) returns (outcome: Outcome)
      requires Valid()
      modifies this
      ensures Valid() && workQueue == old(workQueue)
      ensures old(isDisposed) || !disposing ==>
        && outcome == Ok && isDisposed
        && threads == old(threads) && scheduleThread == old(scheduleThread)
        && threadsEvent == old(threadsEvent) && scheduleEventDisposed == old(scheduleEventDisposed)
      ensures !old(isDisposed) && disposing ==>
        scheduleThread == old(scheduleThread).(aborted := true) && scheduleEventDisposed
      ensures !old(isDisposed) && disposing ==>
        var k := FirstUnregistered(old(threads), old(threadsEvent));
        && threadsEvent == DisposeEvents(old(threadsEvent), old(threads)[..k])
        && (k == |threads| ==> outcome == Ok && isDisposed && threads == AbortedUpTo(old(threads), k))
        && (k < |threads| ==>
              outcome == Throws(KeyNotFoundException(old(threads)[k].managedThreadId))
              && !isDisposed && threads == AbortedUpTo(old(threads), k + 1))
    {
      outcome := Ok;
      if !isDisposed {
        if disposing {
          scheduleThread := scheduleThread.(aborted := true);
          scheduleEventDisposed := true;
          outcome := AbortWorkers();
          if outcome != Ok {
            return;
          }
        }
        isDisposed := true;
      }
    }
  }

  /** Disposing the event of one more worker extends the disposed prefix. */
  lemma DisposeEventsSnoc(events: map<int, bool>, ws: seq<WorkerThread>, i: nat)
    requires i < |ws| && forall j :: 0 <= j <= i ==> ws[j].managedThreadId in events
    ensures DisposeEvents(events, ws[..i + 1]) == DisposeEvents(events, ws[..i])[ws[i].managedThreadId := true]
  {
    assert ws[..i + 1][..i] == ws[..i];
  }

  /** Aborting thread `i` extends the aborted prefix by one. */
  lemma AbortedUpToStep(ws: seq<WorkerThread>, i: nat)
    requires i < |ws|
    ensures AbortedUpTo(ws, i)[i := AbortedUpTo(ws, i)[i].(aborted := true)] == AbortedUpTo(ws, i + 1)
  {
  }

  /** `Dispose(true)` on a pool as constructed: the events dictionary is
      empty, so the first lookup throws after the first worker is aborted;
      the pool stays not disposed, the other workers keep running, and a
      second call throws in the same way. */
  method DisposeAsWritten(numberOfThreads: nat) returns (first: Outcome, second: Outcome, disposed: bool, aborted: seq<bool>)
    requires numberOfThreads > 0
    ensures first == Throws(KeyNotFoundException(1)) && second == first
    ensures !disposed
    ensures |aborted| == numberOfThreads && aborted[0]
    ensures forall i :: 1 <= i < numberOfThreads ==> !aborted[i]
  {
    var pool := new MyThreadPool(numberOfThreads);
    first := pool.Dispose(true);
    second := pool.Dispose(true);
    disposed := pool.isDisposed;
    var ts := pool.threads;
    aborted := seq(|ts|, i requires 0 <= i < |ts| => ts[i].aborted);
  }

  /** `Dispose(true)` on a pool whose workers have their events entered:
      the first call aborts the scheduling thread and every worker, disposes
      every event and marks the pool disposed; a second call changes
      nothing. */
  method DisposeIntended(numberOfThreads: nat)
    returns (first: Outcome, disposedAfterFirst: bool, scheduleAbortedAfterFirst: bool, abortedAfterFirst: seq<bool>, eventsAfterFirst: seq<bool>,
             second: Outcome, disposedAfterSecond: bool, unchangedBySecond: bool)
    requires numberOfThreads > 0
    ensures first == Ok && disposedAfterFirst && scheduleAbortedAfterFirst
    ensures |abortedAfterFirst| == numberOfThreads && forall i :: 0 <= i < numberOfThreads ==> abortedAfterFirst[i]
    ensures |eventsAfterFirst| == numberOfThreads && forall i :: 0 <= i < numberOfThreads ==> eventsAfterFirst[i]
    ensures second == Ok && disposedAfterSecond && unchangedBySecond
  {
    var pool := new MyThreadPool.WithEvents(numberOfThreads);
    ghost var threads0, events0 := pool.threads, pool.threadsEvent;
    assert FirstUnregistered(threads0, events0) == |threads0|;
    first := pool.Dispose(true);
    assert pool.threadsEvent == DisposeEvents(events0, threads0) by {
      assert threads0[..|threads0|] == threads0;
    }
    disposedAfterFirst := pool.isDisposed;
    scheduleAbortedAfterFirst := pool.scheduleThread.aborted;
    var ts, events := pool.threads, pool.threadsEvent;
    abortedAfterFirst := seq(|ts|, i requires 0 <= i < |ts| => ts[i].aborted);
    eventsAfterFirst := seq(|ts|, i requires 0 <= i < |ts| => ts[i].managedThreadId in events && events[ts[i].managedThreadId]);
    second := pool.Dispose(true);
    disposedAfterSecond := pool.isDisposed;
    unchangedBySecond := pool.threads == ts && pool.threadsEvent == events;
  }


  /** Queues `items` on a fresh pool and lets a worker take tasks until the
      queue is empty: the queue lists the items in the order they were
      queued, and the worker takes them in exactly that order. */
  method QueueThenDrain(numberOfThreads: nat, items: seq<WorkItem>) returns (queued: seq<WorkItem>, taken: seq<WorkItem>)
    requires numberOfThreads > 0
    ensures queued == items
    ensures taken == items
  {
    var pool := new MyThreadPool(numberOfThreads);
    for i := 0 to |items|
      invariant pool.workQueue == items[..i]
    {
      var outcome := pool.QueueUserTask(Some(items[i]));
      assert items[..i + 1] == items[..i] + [items[i]];
    }
    assert items[..|items|] == items;
    queued := pool.GetWorkQueueTasks();
    taken := [];
    while pool.workQueue != []
      invariant taken + pool.workQueue == items
      decreases |pool.workQueue|
    {
      var t := pool.WorkerStep();
      taken := taken + [t.value];
    }
  }

  class MyTaskScheduler {
    const pool: MyThreadPool
    const id: int
    var argumentException: Exception
    /** The LongRunning tasks handed to a dedicated background thread, in order. */
    var dedicated: seq<WorkItem>

    ghost predicate Valid()
      reads this, pool
    {
      pool.Valid()
    }

    /** A scheduler over a new pool of `numOfThreads` threads; the pool's
        validation decides whether it can be built. */
    static method Create(i: int, numOfThreads: int, argumentException: Exception) returns (s: MyTaskScheduler?, error: Option<Exception>)
      ensures numOfThreads <= 0 <==> s == null
      ensures numOfThreads <= 0 ==> error == Some(ArgumentException(THREAD_COUNT_MESSAGE))
      ensures s != null ==> error == None && fresh(s) && fresh(s.pool) && s.Valid()
      ensures s != null ==> s.id == i && s.argumentException == argumentException && s.dedicated == []
      ensures s != null ==> s.pool.numberOfThreads == numOfThreads && s.pool.workQueue == [] && !s.pool.isDisposed
    {
      var pool;
      pool, error := MyThreadPool.Create(numOfThreads);
      if pool == null {
        return null, error;
      }
      s := new MyTaskScheduler(i, pool, argumentException);
    }

    /** The constructor without a thread count: the pool gets one thread
        per processor, and the id is left at its default of 0. */
    static method CreateDefault(processorCount: int, argumentException: Exception) returns (s: MyTaskScheduler?, error: Option<Exception>)
      ensures processorCount <= 0 <==> s == null
      ensures processorCount <= 0 ==> error == Some(ArgumentException(THREAD_COUNT_MESSAGE))
      ensures s != null ==> error == None && fresh(s) && fresh(s.pool) && s.Valid()
      ensures s != null ==> s.id == 0 && s.argumentException == argumentException && s.dedicated == []
      ensures s != null ==> s.pool.numberOfThreads == processorCount && s.pool.workQueue == [] && !s.pool.isDisposed
    {
      s, error := Create(0, processorCount, argumentException);
    }

    constructor (i: int, pool: MyThreadPool, argumentException: Exception)
      requires pool.Valid()
      ensures this.pool == pool && id == i && this.argumentException == argumentException && dedicated == []
      ensures Valid()
    {
      this.pool := pool;
      id := i;
      this.argumentException := argumentException;
      dedicated := [];
    }

    /** The pool's queued tasks, head first. */
    function GetScheduledTasks(): (tasks: seq<WorkItem>)
      reads this, pool
      ensures tasks == pool.workQueue
    {
      pool.GetWorkQueueTasks()
    }

    /** Rejects a null task with the stored exception; starts a LongRunning
        task on a dedicated thread, bypassing the pool; queues any other
        task at the tail of the pool's queue. */
    method QueueTask(task: Option<WorkItem>) returns (outcome: Outcome)
      requires Valid()
      modifies this, pool
      ensures Valid() && argumentException == old(argumentException)
      ensures task == None ==> outcome == Throws(argumentException)
      ensures task == None ==> pool.workQueue == old(pool.workQueue) && dedicated == old(dedicated)
      ensures task != None ==> outcome == Ok
      ensures task != None && IsLongRunning(task.value) ==>
                pool.workQueue == old(pool.workQueue) && dedicated == old(dedicated) + [task.value]
      ensures task != None && !IsLongRunning(task.value) ==>
                pool.workQueue == old(pool.workQueue) + [task.value] && dedicated == old(dedicated)
      ensures pool.threads == old(pool.threads) && pool.isDisposed == old(pool.isDisposed)
      ensures pool.scheduleThread == old(pool.scheduleThread) && pool.threadsEvent == old(pool.threadsEvent)
      ensures pool.scheduleEventDisposed == old(pool.scheduleEventDisposed)
    {
      if task == None {
        return Throws(argumentException);
      }
      if IsLongRunning(task.value) {
        dedicated := dedicated + [task.value];
        outcome := Ok;
      } else {
        outcome := pool.QueueUserTask(task);
      }
    }
  }

  /** Routing over a whole sequence of non-null tasks: the pool's queue
      receives exactly the tasks without the LongRunning flag, in order, and
      the dedicated threads exactly the others. */
  function Routed(tasks: seq<WorkItem>, longRunning: bool): (r: seq<WorkItem>)
    ensures forall t :: t in r <==> t in tasks && IsLongRunning(t) == longRunning
  {
    if tasks == [] then []
    else
      var last := tasks[|tasks| - 1];
      Routed(tasks[..|tasks| - 1], longRunning) + if IsLongRunning(last) == longRunning then [last] else []
  }

  /** Every task either reaches the pool queue or a dedicated thread. */
  lemma {:induction false} RoutedSplitsTasks(tasks: seq<WorkItem>)
    ensures |Routed(tasks, true)| + |Routed(tasks, false)| == |tasks|
  {
    if tasks != [] {
      RoutedSplitsTasks(tasks[..|tasks| - 1]);
    }
  }

  /** A fresh scheduler fed `tasks`: its scheduled tasks are the tasks
      without the LongRunning flag, in the order they were queued. */
  method ScheduleAll(numOfThreads: nat, tasks: seq<WorkItem>, argumentException: Exception) returns (scheduled: seq<WorkItem>, dedicated: seq<WorkItem>)
    requires numOfThreads > 0
    ensures scheduled == Routed(tasks, false)
    ensures dedicated == Routed(tasks, true)
  {
    var pool := new MyThreadPool(numOfThreads);
    var s := new MyTaskScheduler(0, pool, argumentException);
    for i := 0 to |tasks|
      invariant s.Valid() && fresh(s) && fresh(pool)
      invariant s.GetScheduledTasks() == Routed(tasks[..i], false)
      invariant s.dedicated == Routed(tasks[..i], true)
    {
      var outcome := s.QueueTask(Some(tasks[i]));
      assert tasks[..i + 1][..i] == tasks[..i];
    }
    assert tasks[..|tasks|] == tasks;
    scheduled := s.GetScheduledTasks();
    dedicated := s.dedicated;
  }
}
