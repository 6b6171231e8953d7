/** ThreadPool (muduo/base/ThreadPool.cc): a task queue with an optional
    capacity (maxQueueSize_, 0 meaning unbounded), a running_ flag and a set of
    worker threads. run and take wait on condition variables; those waits are
    modelled as outcomes (WaitNotFull, WaitNotEmpty) that change nothing, the
    caller would sleep and try again after a notify. */
module Pool {
  import opened CInt
  import opened Decimal
  import opened Atomics
  import opened Threads

  /** A std::function task: empty, or a job; jobs are told apart by an id. */
  datatype Task = NoTask | Job(id: nat)

  /** isFull: only a bounded queue (maxQueueSize > 0) can be full. */
  function Full(queue: seq<Task>, maxQueueSize: nat): (full: bool)
    ensures full ==> maxQueueSize > 0 && |queue| >= maxQueueSize
    ensures maxQueueSize > 0 && |queue| >= maxQueueSize ==> full
  {
    maxQueueSize > 0 && |queue| >= maxQueueSize
  }

  /** The capacity invariant: an unbounded queue, or at most maxQueueSize tasks. */
  predicate Bounded(queue: seq<Task>, maxQueueSize: nat)
  {
    maxQueueSize == 0 || |queue| <= maxQueueSize
  }

  /** The pool as run and take see it; workers is threads_.size(). */
  datatype PoolState = PoolState(queue: seq<Task>, maxQueueSize: nat, running: bool, workers: nat)

  /** What run does: runs the task in the caller when there are no workers
      (an empty std::function throws bad_function_call instead), otherwise
      waits while the queue is full and the pool running, drops the task if the
      pool is stopped, and enqueues it at the back. */
  datatype RunOutcome = RanInline | BadFunctionCall | WaitNotFull | Dropped | Enqueued

  function RunStep(s: PoolState, task: Task): (r: (PoolState, RunOutcome))
    ensures r.1 == Enqueued ==> r.0 == s.(queue := s.queue + [task])
    ensures r.1 != Enqueued ==> r.0 == s
    ensures s.workers == 0 ==> r.1 == (if task.Job? then RanInline else BadFunctionCall)
    ensures s.workers > 0 && !s.running ==> r.1 == Dropped
    ensures s.workers > 0 && s.running ==>
      r.1 == (if Full(s.queue, s.maxQueueSize) then WaitNotFull else Enqueued)
  {
    if s.workers == 0 then
      (s, if task.Job? then RanInline else BadFunctionCall)
    else if Full(s.queue, s.maxQueueSize) && s.running then
      (s, WaitNotFull)
    else if !s.running then
      (s, Dropped)
    else
      (s.(queue := s.queue + [task]), Enqueued)
  }

  datatype TakeOutcome = WaitNotEmpty | Took(task: Task)

  /** What take does: waits while the queue is empty and the pool running;
      otherwise pops the front, or returns an empty task once stopped. */
  function TakeStep(s: PoolState): (r: (PoolState, TakeOutcome))
    ensures s.queue != [] ==> r == (s.(queue := s.queue[1..]), Took(s.queue[0]))
    ensures s.queue == [] ==> r.0 == s && r.1 == (if s.running then WaitNotEmpty else Took(NoTask))
  {
    if s.queue == [] && s.running then (s, WaitNotEmpty)
    else if s.queue != [] then (s.(queue := s.queue[1..]), Took(s.queue[0]))
    else (s, Took(NoTask))
  }

  /** stop clears running_ and leaves the queue alone. */
  function StopStep(s: PoolState): (r: PoolState)
    ensures !r.running && r.queue == s.queue && r.workers == s.workers && r.maxQueueSize == s.maxQueueSize
  {
    s.(running := false)
  }

  /** The calls the pool's mutex serialises. */
  datatype PoolCall = RunCall(task: Task) | TakeCall | StopCall

  /** A history's effect: the final state, the tasks run admitted to the queue
      and the tasks take removed from it, each in order. */
  datatype PoolHistory = PoolHistory(state: PoolState, admitted: seq<Task>, handedOut: seq<Task>)

  /** The task a run admits: the task itself when it was enqueued. */
  function Admitted(s: PoolState, task: Task): seq<Task>
  {
    if RunStep(s, task).1 == Enqueued then [task] else []
  }

  /** The task a take removes from the queue, if any. */
  function Removed(s: PoolState): seq<Task>
  {
    if s.queue == [] then [] else [s.queue[0]]
  }

  /** A history extended by one more call. */
  function Step(h: PoolHistory, call: PoolCall): PoolHistory
  {
    match call
    case RunCall(task) => PoolHistory(RunStep(h.state, task).0, h.admitted + Admitted(h.state, task), h.handedOut)
    case TakeCall => PoolHistory(TakeStep(h.state).0, h.admitted, h.handedOut + Removed(h.state))
    case StopCall => PoolHistory(StopStep(h.state), h.admitted, h.handedOut)
  }

  function Replay(s: PoolState, calls: seq<PoolCall>): PoolHistory
    decreases |calls|
  {
    if calls == [] then PoolHistory(s, [], [])
    else Step(Replay(s, calls[..|calls| - 1]), calls[|calls| - 1])
  }

  /** One call keeps the conservation equation and the fixed parameters. */
  lemma StepConserves(h: PoolHistory, call: PoolCall, initial: PoolState)
    requires h.handedOut + h.state.queue == initial.queue + h.admitted
    requires h.state.maxQueueSize == initial.maxQueueSize && h.state.workers == initial.workers
    requires h.state.running ==> initial.running
    ensures var h' := Step(h, call);
      && h'.handedOut + h'.state.queue == initial.queue + h'.admitted
      && h'.state.maxQueueSize == initial.maxQueueSize && h'.state.workers == initial.workers
      && (h'.state.running ==> initial.running)
  {
    match call
    case RunCall(task) =>
      var added := Admitted(h.state, task);
      assert RunStep(h.state, task).0.queue == h.state.queue + added;
      assert h.handedOut + (h.state.queue + added) == (h.handedOut + h.state.queue) + added;
      assert (initial.queue + h.admitted) + added == initial.queue + (h.admitted + added);
    case TakeCall =>
      var out := Removed(h.state);
      assert out + TakeStep(h.state).0.queue == h.state.queue;
      assert (h.handedOut + out) + TakeStep(h.state).0.queue == h.handedOut + (out + TakeStep(h.state).0.queue);
    case StopCall =>
  }

  /** FIFO and conservation: the tasks taken, followed by those still queued,
      are the initial queue followed by every admitted task. Nothing changes
      the capacity or the number of workers, and a stopped pool stays stopped. */
  lemma {:induction false} ReplayConserves(s: PoolState, calls: seq<PoolCall>)
    ensures var h := Replay(s, calls);
      && h.handedOut + h.state.queue == s.queue + h.admitted
      && h.state.maxQueueSize == s.maxQueueSize && h.state.workers == s.workers
      && (h.state.running ==> s.running)
    decreases |calls|
  {
    if calls == [] {
      assert s.queue + [] == s.queue;
    } else {
      var init := calls[..|calls| - 1];
      ReplayConserves(s, init);
      StepConserves(Replay(s, init), calls[|calls| - 1], s);
    }
  }

  /** Admission control: from a queue within capacity, every history keeps the
      queue within capacity. */
  lemma {:induction false} ReplayBounded(s: PoolState, calls: seq<PoolCall>)
    requires Bounded(s.queue, s.maxQueueSize)
    ensures Bounded(Replay(s, calls).state.queue, s.maxQueueSize)
    decreases |calls|
  {
    if calls != [] {
      var init := calls[..|calls| - 1];
      ReplayBounded(s, init);
      ReplayConserves(s, init);
    }
  }

  /** Once stopped, a pool with workers admits nothing, and its queue only
      shrinks: what is left is a suffix of what was queued. */
  lemma {:induction false} StoppedAdmitsNothing(s: PoolState, calls: seq<PoolCall>)
    requires s.workers > 0 && !s.running
    ensures Replay(s, calls).admitted == []
    ensures !Replay(s, calls).state.running
    ensures Replay(s, calls).handedOut + Replay(s, calls).state.queue == s.queue
    decreases |calls|
  {
    if calls != [] {
      var init := calls[..|calls| - 1];
      StoppedAdmitsNothing(s, init);
      ReplayConserves(s, init);
      ReplayConserves(s, calls);
    }
  }

  /** Without workers, run never queues anything: every task runs in the caller. */
  lemma {:induction false} NoWorkersNeverQueue(s: PoolState, calls: seq<PoolCall>)
    requires s.workers == 0
    ensures Replay(s, calls).admitted == []
    decreases |calls|
  {
    if calls != [] {
      var init := calls[..|calls| - 1];
      NoWorkersNeverQueue(s, init);
      ReplayConserves(s, init);
    }
  }

  /** The ids of the jobs in a queue, in order; empty tasks contribute nothing. */
  function Jobs(q: seq<Task>): seq<nat>
  {
    if q == [] then [] else (if q[0].Job? then [q[0].id] else []) + Jobs(q[1..])
  }

  lemma {:induction false} JobsAppend(a: seq<Task>, b: seq<Task>)
    ensures Jobs(a + b) == Jobs(a) + Jobs(b)
  {
    if a == [] {
      assert a + b == b;
    } else {
      assert (a + b)[0] == a[0];
      assert (a + b)[1..] == a[1..] + b;
      JobsAppend(a[1..], b);
      var head := if a[0].Job? then [a[0].id] else [];
      assert Jobs(a + b) == head + Jobs(a[1..] + b);
      assert head + (Jobs(a[1..]) + Jobs(b)) == (head + Jobs(a[1..])) + Jobs(b);
    }
  }

  /** How a worker's loop ends: running_ was false, take would block on an
      empty queue, or a job threw (abort for muduo and standard exceptions,
      rethrow for anything else). */
  datatype WorkerEnd = Exited | Waiting | Crashed(kind: ExceptionKind)

  /** One worker's loop: the jobs it invoked, in order, what is left queued and
      how it ended. */
  datatype WorkerRun = WorkerRun(invoked: seq<nat>, remaining: seq<Task>, end: WorkerEnd)

  /** A running pool's worker serving queue alone; failures says which jobs
      throw and what. */
  function Serve(queue: seq<Task>, failures: map<nat, ExceptionKind>): (w: WorkerRun)
    ensures w.end != Exited
    decreases |queue|
  {
    if queue == [] then WorkerRun([], [], Waiting)
    else match queue[0]
      case NoTask => Serve(queue[1..], failures)
      case Job(id) =>
        if id in failures then WorkerRun([id], queue[1..], Crashed(failures[id]))
        else
          var w := Serve(queue[1..], failures);
          w.(invoked := [id] + w.invoked)
  }

  /** A worker takes tasks from the front: it consumes a prefix of the queue
      and invokes exactly the jobs in it, in order, never an empty task. */
  lemma {:induction false} ServeConsumesPrefix(queue: seq<Task>, failures: map<nat, ExceptionKind>)
    ensures var w := Serve(queue, failures);
      && |w.remaining| <= |queue|
      && queue == queue[..|queue| - |w.remaining|] + w.remaining
      && w.invoked == Jobs(queue[..|queue| - |w.remaining|])
      && (w.end == Waiting ==> w.remaining == [])
    decreases |queue|
  {
    if queue != [] {
      var w := Serve(queue, failures);
      var v := Serve(queue[1..], failures);
      var k := |queue| - |w.remaining|;
      if queue[0].Job? && queue[0].id in failures {
        assert queue[..k] == [queue[0]];
        JobsOne(queue[0]);
      } else {
        ServeConsumesPrefix(queue[1..], failures);
        ConsumedCons(queue, v, w);
      }
    }
  }

  /** The induction step of ServeConsumesPrefix: a worker that invokes the
      head (or skips an empty task) and then does v has consumed one more task. */
  lemma ConsumedCons(s: seq<Task>, v: WorkerRun, w: WorkerRun)
    requires s != [] && |v.remaining| <= |s| - 1
    requires s[1..] == s[1..][..|s| - 1 - |v.remaining|] + v.remaining
    requires v.invoked == Jobs(s[1..][..|s| - 1 - |v.remaining|])
    requires w.remaining == v.remaining
    requires w.invoked == (if s[0].Job? then [s[0].id] else []) + v.invoked
    ensures |w.remaining| <= |s| && s == s[..|s| - |w.remaining|] + w.remaining
    ensures w.invoked == Jobs(s[..|s| - |w.remaining|])
  {
    var k := |s| - |w.remaining|;
    var pre := s[1..][..k - 1];
    ConsPrefix(s, k);
    JobsAppend([s[0]], pre);
    JobsOne(s[0]);
  }

  lemma ConsPrefix<T>(s: seq<T>, k: nat)
    requires 1 <= k <= |s|
    ensures s[..k] == [s[0]] + s[1..][..k - 1]
  {
  }

  lemma JobsOne(t: Task)
    ensures Jobs([t]) == if t.Job? then [t.id] else []
  {
    assert [t][1..] == [];
  }

  /** A worker stops early only at a job that throws, and every job it invoked
      before that returned normally; when it ends waiting, none threw. */
  lemma {:induction false} ServeFailures(queue: seq<Task>, failures: map<nat, ExceptionKind>)
    ensures var w := Serve(queue, failures);
      && (w.end.Crashed? ==>
            (w.invoked != [] && w.invoked[|w.invoked| - 1] in failures
             && failures[w.invoked[|w.invoked| - 1]] == w.end.kind))
      && (forall i :: 0 <= i < |w.invoked| - 1 ==> w.invoked[i] !in failures)
      && (w.end == Waiting ==> forall i :: 0 <= i < |w.invoked| ==> w.invoked[i] !in failures)
    decreases |queue|
  {
    if queue != [] && !(queue[0].Job? && queue[0].id in failures) {
      ServeFailures(queue[1..], failures);
    }
  }

  /** With no job that throws, a worker invokes every job queued and then
      waits on an empty queue. */
  lemma {:induction false} ServeAll(queue: seq<Task>, failures: map<nat, ExceptionKind>)
    requires forall i :: 0 <= i < |queue| && queue[i].Job? ==> queue[i].id !in failures
    ensures Serve(queue, failures) == WorkerRun(Jobs(queue), [], Waiting)
    decreases |queue|
  {
    if queue != [] {
      ServeAll(queue[1..], failures);
    }
  }

  /** A worker's progress so far is prepended to what it will still do. */
  function Prepend(done: seq<nat>, w: WorkerRun): WorkerRun
  {
    w.(invoked := done + w.invoked)
  }

  /** The global creation counter after k thread constructions from v: each
      construction increments it with 32-bit wrap-around. */
  function Increments(v: int, k: nat): int
  {
    if k == 0 then v else Wrap(W32, Increments(v, k - 1) + 1)
  }

  /** k wrapping increments of an int32 are one wrapped addition of k. */
  lemma {:induction false} IncrementsWrap(v: int, k: nat)
    requires InRange(W32, v)
    ensures Increments(v, k) == Wrap(W32, v + k)
  {
    if k > 0 {
      IncrementsWrap(v, k - 1);
      WrapAdd(W32, v + (k - 1), 1);
    }
  }

  /** A worker as start leaves it: valid, started, not joined, with its name
      and the id the system gave it. */
  ghost predicate StartedWorker(t: Thread, workerName: string, osTid: int)
    reads t, t.latch
  {
    t.Valid() && t.started && !t.joined && t.name == workerName && t.tid == osTid
  }

  class ThreadPool {
    const name: string
    var maxQueueSize: nat
    var running: bool
    var queue: seq<Task>
    var threads: seq<Thread>
    /** Whether threadInitCallback_ is set. */
    var hasInitCallback: bool

    function View(): PoolState
      reads this
    {
      PoolState(queue, maxQueueSize, running, |threads|)
    }

    /** The workers are distinct started threads named name_ followed by their
        1-based position; they are unjoined while the pool runs and joined once
        it has stopped. */
    ghost predicate Valid()
      reads this, threads, set i | 0 <= i < |threads| :: threads[i].latch
    {
      && (forall i :: 0 <= i < |threads| ==>
            threads[i].Valid() && threads[i].started && threads[i].name == name + Digits(i + 1))
      && (forall i, j :: 0 <= i < j < |threads| ==> threads[i] != threads[j])
      && (forall i :: 0 <= i < |threads| ==> (threads[i].joined <==> !running))
    }

    constructor (nameArg: string)
      ensures Valid() && name == nameArg
      ensures maxQueueSize == 0 && !running && queue == [] && threads == [] && !hasInitCallback
    {
      name := nameArg;
      maxQueueSize, running, queue, threads, hasInitCallback := 0, false, [], [], false;
    }

    /** setMaxQueueSize (declared in ThreadPool.h). */
    method SetMaxQueueSize(maxSize: nat)
      modifies this`maxQueueSize
      ensures maxQueueSize == maxSize
    {
      maxQueueSize := maxSize;
    }

    /** setThreadInitCallback (declared in ThreadPool.h). */
    method SetThreadInitCallback(set_: bool)
      modifies this`hasInitCallback
      ensures hasInitCallback == set_
    {
      hasInitCallback := set_;
    }

    /** start(numThreads): created[i] says whether pthread_create succeeds for
        worker i and osTids[i] is the id it gets. A failed creation ends the
        process (LOG_SYSFATAL), so ok is false and nothing more is promised. */
    method Start(numThreads: nat, created: seq<bool>, osTids: seq<int>, numCreated: AtomicInteger)
      returns (ok: bool, callbackRan: bool)
      requires Valid() && threads == []
      requires numThreads <= MaxValue(W32)
      requires |created| == numThreads && |osTids| == numThreads
      requires forall i :: 0 <= i < numThreads ==> osTids[i] > 0
      requires numCreated.Valid() && numCreated.width == W32
      modifies this, numCreated
      ensures running && queue == old(queue) && maxQueueSize == old(maxQueueSize)
      ensures hasInitCallback == old(hasInitCallback)
      ensures ok <==> forall i :: 0 <= i < numThreads ==> created[i]
      ensures ok ==> Valid() && |threads| == numThreads
      ensures ok ==> forall i :: 0 <= i < numThreads ==>
        fresh(threads[i]) && threads[i].name == name + Digits(i + 1) && threads[i].tid == osTids[i]
      ensures numCreated.Valid() && numCreated.width == W32
      ensures numCreated.value == Wrap(W32, old(numCreated.value) + |threads|)
      ensures callbackRan <==> ok && numThreads == 0 && hasInitCallback
    {
      running := true;
      var workers;
      workers, ok := LaunchWorkers(name, numThreads, created, osTids, numCreated);
      IncrementsWrap(old(numCreated.value), |workers|);
      threads := workers;
      callbackRan := ok && numThreads == 0 && hasInitCallback;
    }

    /** start's loop: creates and starts the workers one by one, each named
        poolName followed by its 1-based position, and stops at the first
        failed creation. */
    static method LaunchWorkers(poolName: string, numThreads: nat, created: seq<bool>, osTids: seq<int>,
                                numCreated: AtomicInteger)
      returns (workers: seq<Thread>, ok: bool)
      requires |created| == numThreads && |osTids| == numThreads
      requires forall i :: 0 <= i < numThreads ==> osTids[i] > 0
      requires numCreated.Valid() && numCreated.width == W32
      modifies numCreated
      ensures ok <==> forall i :: 0 <= i < numThreads ==> created[i]
      ensures ok ==> |workers| == numThreads
      ensures ok ==> forall i :: 0 <= i < numThreads ==>
        fresh(workers[i]) && StartedWorker(workers[i], poolName + Digits(i + 1), osTids[i])
      ensures forall i, j :: 0 <= i < j < |workers| ==> workers[i] != workers[j]
      ensures numCreated.Valid() && numCreated.width == W32
      ensures numCreated.value == Increments(old(numCreated.value), |workers|)
    {
      ok := true;
      workers := [];
      ghost var before := numCreated.value;
      for i := 0 to numThreads
        invariant |workers| == i
        invariant forall j :: 0 <= j < i ==> created[j]
        invariant forall j :: 0 <= j < i ==>
          fresh(workers[j]) && StartedWorker(workers[j], poolName + Digits(j + 1), osTids[j])
        invariant forall j, k :: 0 <= j < k < i ==> workers[j] != workers[k]
        invariant numCreated.Valid() && numCreated.width == W32
        invariant numCreated.value == Increments(before, i)
      {
        var t, launched := NewWorker(poolName + Digits(i + 1), created[i], osTids[i], i, numCreated);
        workers := workers + [t];
        if !launched {
          ok := false;
          return;
        }
      }
    }

    /** One iteration of start's loop: constructs a worker thread named workerName
        and starts it; only the global creation counter is modified besides
        the new thread itself. */
    static method NewWorker(workerName: string, created: bool, osTid: int, handle: nat, numCreated: AtomicInteger)
      returns (t: Thread, launched: bool)
      requires workerName != [] && osTid > 0 && numCreated.Valid() && numCreated.width == W32
      modifies numCreated
      ensures fresh(t) && fresh(t.latch) && numCreated.Valid() && numCreated.width == W32
      ensures numCreated.value == Wrap(W32, old(numCreated.value) + 1)
      ensures launched <==> created
      ensures launched ==> StartedWorker(t, workerName, osTid)
      ensures !launched ==> !t.started && t.tid == 0
    {
      t := new Thread(ThreadFunc(0), workerName, numCreated);
      var outcome := t.Start(created, osTid, handle);
      launched := outcome == Launched;
    }

    /** stop: clears running_ (waking every waiter) and joins every worker.
        Joining twice is an error, so a pool with workers must be running. */
    method Stop()
      requires Valid() && (running || threads == [])
      modifies this, threads
      ensures Valid() && View() == StopStep(old(View()))
      ensures threads == old(threads) && queue == old(queue) && hasInitCallback == old(hasInitCallback)
      ensures forall i :: 0 <= i < |threads| ==> threads[i].joined
      ensures forall i :: 0 <= i < |threads| ==>
        && threads[i].name == old(threads[i].name)
        && threads[i].tid == old(threads[i].tid) && threads[i].pthreadId == old(threads[i].pthreadId)
    {
      running := false;
      JoinAll(threads);
    }

    /** stop's loop: joins every worker once, in order; nothing else about the
        threads changes. */
    static method JoinAll(ts: seq<Thread>)
      requires forall i :: 0 <= i < |ts| ==> ts[i].Valid() && ts[i].started && !ts[i].joined
      requires forall i, j :: 0 <= i < j < |ts| ==> ts[i] != ts[j]
      modifies set i | 0 <= i < |ts| :: ts[i]
      ensures forall i :: 0 <= i < |ts| ==>
        ts[i].Valid() && ts[i].started && ts[i].joined && ts[i].name == old(ts[i].name)
      ensures forall i :: 0 <= i < |ts| ==>
        ts[i].tid == old(ts[i].tid) && ts[i].pthreadId == old(ts[i].pthreadId)
    {
      for i := 0 to |ts|
        invariant forall j :: 0 <= j < |ts| ==>
          ts[j].Valid() && ts[j].started && ts[j].name == old(ts[j].name)
        invariant forall j :: 0 <= j < |ts| ==>
          ts[j].tid == old(ts[j].tid) && ts[j].pthreadId == old(ts[j].pthreadId)
        invariant forall j :: 0 <= j < |ts| ==> (ts[j].joined <==> j < i)
      {
        var _ := ts[i].Join(0);
      }
    }

    /** ~ThreadPool: stops the pool only if it is running. */
    method Destroy()
      requires Valid()
      modifies this, threads
      ensures Valid() && !running && queue == old(queue) && threads == old(threads)
      ensures hasInitCallback == old(hasInitCallback)
      ensures forall i :: 0 <= i < |threads| ==>
        && threads[i].name == old(threads[i].name)
        && threads[i].tid == old(threads[i].tid) && threads[i].pthreadId == old(threads[i].pthreadId)
      ensures !old(running) ==> forall i :: 0 <= i < |threads| ==> threads[i].joined == old(threads[i].joined)
      ensures !old(running) ==> View() == old(View())
    {
      if running {
        Stop();
      }
    }

    method QueueSize() returns (n: nat)
      ensures n == |queue|
    {
      n := |queue|;
    }

    method IsFull() returns (full: bool)
      ensures full == Full(queue, maxQueueSize)
    {
      full := Full(queue, maxQueueSize);
    }

    /** run(task), one attempt under the mutex. */
    method Run(task: Task) returns (outcome: RunOutcome)
      requires Valid()
      modifies this`queue
      ensures Valid()
      ensures (View(), outcome) == RunStep(old(View()), task)
      ensures Bounded(old(queue), maxQueueSize) ==> Bounded(queue, maxQueueSize)
    {
      if threads == [] {
        outcome := if task.Job? then RanInline else BadFunctionCall;
      } else {
        var full := IsFull();
        if full && running {
          outcome := WaitNotFull;
        } else if !running {
          outcome := Dropped;
        } else {
          queue := queue + [task];
          outcome := Enqueued;
        }
      }
    }

    /** take(), one attempt under the mutex. */
    method Take() returns (t: TakeOutcome)
      requires Valid()
      modifies this`queue
      ensures Valid()
      ensures (View(), t) == TakeStep(old(View()))
    {
      if queue == [] && running {
        t := WaitNotEmpty;
      } else if queue != [] {
        t := Took(queue[0]);
        queue := queue[1..];
      } else {
        t := Took(NoTask);
      }
    }

    /** runInThread for one worker, with nothing else calling the pool: run
        the init callback, then take and invoke tasks (skipping empty ones)
        while running_. A stopped pool's worker leaves at once, even with tasks
        queued; a running pool's worker serves the queue as Serve says. */
    method RunInThread(failures: map<nat, ExceptionKind>)
      returns (callbackRan: bool, invoked: seq<nat>, end: WorkerEnd)
      requires Valid()
      modifies this`queue
      ensures Valid() && callbackRan == hasInitCallback
      ensures !running ==> invoked == [] && end == Exited && queue == old(queue)
      ensures running ==> WorkerRun(invoked, queue, end) == Serve(old(queue), failures)
    {
      callbackRan := hasInitCallback;
      invoked := [];
      end := Exited;
      while running
        invariant Valid() && running == old(running)
        invariant !old(running) ==> invoked == [] && queue == old(queue)
        invariant Serve(old(queue), failures) == Prepend(invoked, Serve(queue, failures))
        decreases |queue|
      {
        var t := Take();
        match t {
          case WaitNotEmpty =>
            end := Waiting;
            return;
          case Took(task) =>
            ghost var before := Serve(old(queue), failures);
            if task.Job? {
              invoked := invoked + [task.id];
              if task.id in failures {
                end := Crashed(failures[task.id]);
                assert before.invoked == invoked;
                return;
              }
            }
        }
      }
    }
  }
}
