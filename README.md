# muduo/base concurrency primitives in Dafny

This project models the synchronisation core of muduo's base library:
- `BlockingQueue<T>`, an unbounded FIFO shared between threads;
- `ThreadPool`, a task queue with an optional capacity and a set of worker threads;
- `CountDownLatch`, a one-shot gate;
- `Thread`, a pthread wrapper with started/joined flags, default names and a start-up handshake;
- `AtomicIntegerT`, atomic int32/int64 counters;
- `Timestamp::toString`, and the arithmetic of `Timestamp::now`.

Each component whose fields change in place is a Dafny `class` with those fields.
Every critical section becomes one method call; the mutex is what makes that
sequential reading sound. A `while (cond) wait()` loop is not a precondition.
The method returns a "would block" outcome and changes nothing; examples are
`Blocked`, `WaitNotFull` and `WaitNotEmpty`. A `notify` only wakes a waiter to
try again, so it leaves no trace. The exception is the latch's `notifyAll`,
which is counted in ghost state so that its firing rule can be proved.

Beside each class sits a pure description of the component's calls, written as
functions:
- `Apply`/`Replay` in `Queue`;
- `Replay` in `Latch`;
- `RunStep`/`TakeStep`/`StopStep`/`Replay` and `Serve` in `Pool`.

These methods state their effect through these functions:
- `Put`, `Take` and `Drain` of `Queue.BlockingQueue`, through `Apply`;
- `Run`, `Take`, `Stop` and `RunInThread` of `Pool.ThreadPool`, through
  `RunStep`, `TakeStep`, `StopStep` and `Serve`;
- `Wait` of `Latch.CountDownLatch`, which returns `WaitResult` of the count.

`CountDown` ties the latch's ghost notifyAll tally to `Replay` of the
countDowns so far. The pool's `Start`, `LaunchWorkers`, `JoinAll` and `Destroy`
state their effect on the fields and threads directly. Lemmas prove over
whole call histories that the model keeps the properties the library promises:
- FIFO order and conservation of elements;
- the capacity bound;
- latch gating, and `notifyAll` firing exactly once;
- a stopped pool admitting nothing;
- the `toString` round trip.

C semantics are written out in `CInt`:
- two's-complement wrap-around (`Wrap`) for the atomic builtins. The same
  wrap is used for the `+ x` that `addAndGet` applies to `getAndAdd`'s result.
  In C++ that signed addition overflows with undefined behaviour; the model
  gives it GCC's wrapping result. `CountDownLatch::countDown`'s decrement
  instead carries a precondition that it does not overflow.
- C's truncating `/` and `%` (`Quot`, `Rem`), used by `toString` and `sleepUsec`.

`Decimal` models printf's `%d` with a width and zero or space padding.
`Timestamps` builds `toString` on it, and `Threads` builds `"Thread%d"` and
`"%5d "` on it.

Operating-system calls are parameters:
- whether `pthread_create` succeeds;
- the id `gettid` returns;
- the handle `pthread_create` fills in;
- what `pthread_join` returns;
- the `gettimeofday` reading.

User task and thread functions are opaque values: `Task` in the pool and
`ThreadFunc` in the thread. Their outcome is a parameter: `FuncOutcome` for a
thread function, and a `failures` map for pool jobs.

Behaviour of the code worth noting:
- `BlockingQueue.h` is unbounded.
- `CountDownLatch::countDown` decrements below zero.
- `ThreadPool::run` with no workers runs the task in the caller even after `stop`.

## Model

| member | source | states |
|---|---|---|
| CInt.Wrap | muduo/base/Atomic.h:56-60 | the result is in the width's range, equals the argument when that is in range, and differs from it by a multiple of 2^32 or 2^64 (two's-complement wrap) |
| CInt.WrapAdd | muduo/base/Atomic.h:62-65 | wrapping an intermediate sum and then adding gives the same value as wrapping once at the end |
| CInt.Rem | muduo/base/Timestamp.cc:25-26 | C's `%` for a positive divisor: quotient times divisor plus remainder is the dividend, and the remainder takes the dividend's sign and is smaller than the divisor in magnitude |
| CInt.Quot | muduo/base/Timestamp.cc:25 | C's `/` truncates toward zero: the quotient has the dividend's sign and its magnitude is at most the dividend's |
| Decimal.FormatInt | muduo/base/Timestamp.cc:29 | printf `%d`/`%0Nd`: a minus sign for negatives, the digits, and zero padding after the sign or space padding in front, up to the width |
| Decimal.ValueOfDigits | muduo/base/Timestamp.cc:29 | printing in decimal and reading back gives back the number |
| Decimal.DigitsLength | muduo/base/Timestamp.cc:24 | a number has at most k digits exactly when it is below 10^k |
| Decimal.ValueZeroPadded | muduo/base/Timestamp.cc:29 | zero padding on the left does not change the value read back |
| Decimal.FormatIntInjective | muduo/base/Thread.cc:169 | `%d` prints distinct integers as distinct texts |
| Decimal.SignedValueOfFormat | muduo/base/Thread.cc:169 | reading `%d`'s text back as a signed decimal gives the printed integer, negative ones included |
| Queue.Apply | muduo/base/BlockingQueue.h:39-77 | one call's effect: the items handed out, followed by the new contents, are the old contents plus the item put; take hands out exactly one item iff the queue was non-empty; drain leaves nothing |
| Queue.ReplayConserves | muduo/base/BlockingQueue.h:39-77 | over any history, the items handed out followed by those remaining are the initial contents followed by every item put, and the number handed out is the number taken plus the number drained |
| Queue.Fifo | muduo/base/BlockingQueue.h:39-66 | the items handed out form a prefix of the initial contents followed by the puts, in put order |
| Queue.Conservation | muduo/base/BlockingQueue.h:39-77 | from an empty queue, the number of puts equals takes plus drained items plus remaining items |
| Queue.DrainTwice | muduo/base/BlockingQueue.h:68-77 | draining twice yields all contents and then nothing, leaving the queue empty |
| Queue.BlockingQueue.constructor | muduo/base/BlockingQueue.h:32-37 | a new queue is empty |
| Queue.BlockingQueue.Put | muduo/base/BlockingQueue.h:39-45 | the contents become the old contents followed by x |
| Queue.BlockingQueue.PutMoved | muduo/base/BlockingQueue.h:47-52 | the moving overload has the same effect: the old contents followed by x |
| Queue.BlockingQueue.Take | muduo/base/BlockingQueue.h:54-66 | on an empty queue it would block and changes nothing; otherwise it returns the old front and leaves the rest |
| Queue.BlockingQueue.Drain | muduo/base/BlockingQueue.h:68-77 | returns exactly the contents present and leaves the queue empty |
| Queue.BlockingQueue.Size | muduo/base/BlockingQueue.h:79-83 | returns the number of items and changes nothing |
| Queue.PutPutTakeTake | muduo/base/BlockingQueue.h:39-66 | two puts followed by two takes return the items in put order and leave the queue empty |
| Latch.WaitResult | muduo/base/CountDownLatch.cc:21 | wait's loop exits exactly when the count is at most 0 |
| Latch.Replay | muduo/base/CountDownLatch.cc:18-35 | a history of calls yields one observation per call |
| Latch.ReplayObservations | muduo/base/CountDownLatch.cc:18-35 | in any history, a wait is released iff at least count countDowns precede it, and a countDown notifies iff it is the count-th one |
| Latch.NotifiesAtMostOnce | muduo/base/CountDownLatch.cc:30-34 | from a positive count N, notifyAll fires exactly once if at least N countDowns happen and never otherwise; from a count of 0 or less it never fires |
| Latch.ReleasedStaysReleased | muduo/base/CountDownLatch.cc:18-35 | once a wait has been released, every later wait is released too |
| Latch.CountDownsMonotone | muduo/base/CountDownLatch.cc:30 | the number of countDowns in a prefix of a history grows with the prefix |
| Latch.CountDownsOnly | muduo/base/CountDownLatch.cc:27-35 | a history of n countDowns and nothing else holds exactly n countDowns |
| Latch.LatchNotifications | muduo/base/CountDownLatch.cc:30-34 | replaying n countDowns from count fires notifyAll once iff 0 < count <= n, which is the tally the latch class keeps |
| Latch.CountDownLatch.constructor | muduo/base/CountDownLatch.cc:10-15 | the count starts at the argument |
| Latch.CountDownLatch.Wait | muduo/base/CountDownLatch.cc:18-25 | returns `WaitResult` of the count: released iff the count is at most 0, with nothing changed |
| Latch.CountDownLatch.CountDown | muduo/base/CountDownLatch.cc:27-35 | the count drops by exactly one, with no floor at zero, and notifyAll is issued iff the new count is 0; over the latch's life notifyAll has fired once iff the initial count was positive and has been reached |
| Latch.CountDownLatch.GetCount | muduo/base/CountDownLatch.cc:37-41 | returns the count and changes nothing |
| Latch.CountDownThreeTimes | muduo/base/CountDownLatch.cc:18-35 | a latch of 3 holds a waiter back after two countDowns and releases it after the third |
| Atomics.AtomicInteger.Int32 | muduo/base/Atomic.h:33-36 | a new AtomicInt32 holds 0 |
| Atomics.AtomicInteger.Int64 | muduo/base/Atomic.h:33-36 | a new AtomicInt64 holds 0 |
| Atomics.AtomicInteger.Get | muduo/base/Atomic.h:50-54 | returns the current value and changes nothing |
| Atomics.AtomicInteger.GetAndAdd | muduo/base/Atomic.h:56-60 | returns the old value; the new value is old + x, wrapped to the width |
| Atomics.AtomicInteger.AddAndGet | muduo/base/Atomic.h:62-65 | returns old + x wrapped, which is the new value |
| Atomics.AtomicInteger.IncrementAndGet | muduo/base/Atomic.h:67-70 | returns the new value, old + 1 wrapped |
| Atomics.AtomicInteger.DecrementAndGet | muduo/base/Atomic.h:72-75 | returns the new value, old - 1 wrapped |
| Atomics.AtomicInteger.Add | muduo/base/Atomic.h:77-80 | the value becomes old + x wrapped |
| Atomics.AtomicInteger.Increment | muduo/base/Atomic.h:82-85 | the value becomes old + 1 wrapped |
| Atomics.AtomicInteger.Decrement | muduo/base/Atomic.h:87-90 | the value becomes old - 1 wrapped |
| Atomics.AtomicInteger.GetAndSet | muduo/base/Atomic.h:92-96 | returns the old value and stores the new one |
| Atomics.AddThenSubtractRestores | muduo/base/Atomic.h:56-60 | adding x and then -x restores the value, even across a wrap-around |
| Timestamps.Snprintf | muduo/base/Timestamp.cc:24-29 | a 32-byte buffer keeps a prefix of at most 31 characters, all of the text when it fits |
| Timestamps.Formatted | muduo/base/Timestamp.cc:25-29 | for every int64, "%" PRId64 ".%06" PRId64 of the truncating split is at most 22 characters |
| Timestamps.ToString | muduo/base/Timestamp.cc:22-31 | the text toString returns is the whole formatted text: the 32-byte buffer never truncates it |
| Timestamps.ToStringShape | muduo/base/Timestamp.cc:25-29 | for us >= 0: decimal seconds, '.', then exactly six digits, which read back as us / 10^6 and us % 10^6 |
| Timestamps.ParseToString | muduo/base/Timestamp.cc:25-29 | for us >= 0, reading the text back as seconds * 10^6 + fraction gives us |
| Timestamps.Now | muduo/base/Timestamp.cc:63-64 | requires both the product sec * 10^6 and the sum to fit int64, as the C arithmetic needs; for sec >= 0 the truncating split of the result gives back sec and usec |
| Timestamps.NowToString | muduo/base/Timestamp.cc:59-65 | toString of the combined value prints sec, '.', and usec padded to six digits, and parses back to the combined value |
| Timestamps.OneMicrosecondBeforeEpoch | muduo/base/Timestamp.cc:25-29 | before the epoch the sign lands on both parts: -1 prints as "0.-00001" |
| Threads.SleepDuration | muduo/base/Thread.cc:133-137 | seconds * 10^6 plus nanoseconds / 1000 is usec, the nanoseconds are a multiple of 1000, and for usec >= 0 both fields are non-negative with tv_nsec below 10^9 |
| Threads.CachedTid | muduo/base/Thread.cc:119-126 | a cached (non-zero) id is kept, and after caching a non-zero system id the cached id is non-zero |
| Threads.CacheTidIdempotent | muduo/base/Thread.cc:119-126 | once an id is cached, later calls keep it |
| Threads.TidString | muduo/base/Thread.cc:124 | "%5d ": the id's digits right-aligned in at least five characters, then one space |
| Threads.DefaultName | muduo/base/Thread.cc:168-170 | the default name is "Thread" followed by the number |
| Threads.DefaultNamesDistinct | muduo/base/Thread.cc:165-170 | distinct creation numbers give distinct default names |
| Threads.RunningName | muduo/base/Thread.cc:77 | the running name is the thread's name, or "muduoThread" when that is empty; never empty |
| Threads.CurrentThread.constructor | muduo/base/CurrentThread.h:30-33 | a thread's variables start with no id cached (t_cachedTid 0), an empty id string and the given initial name, with no names assigned yet |
| Threads.CurrentThread.CacheTid | muduo/base/Thread.cc:119-126 | caches the system's id only when none is cached, formatting the id string then; otherwise changes nothing |
| Threads.CurrentThread.Tid | muduo/base/CurrentThread.h:36-45 | returns the cached id, caching it first when none is cached; the result is positive |
| Threads.CurrentThread.RunThreadBody | muduo/base/Thread.cc:77-105 | the thread is named its running name, then "finished" after a normal return or "crashed" after any exception; muduo and standard exceptions abort, others are rethrown; the cached id and id string are unchanged |
| Threads.Thread.constructor | muduo/base/Thread.cc:143-172 | a new thread is neither started nor joined, tid 0; the global counter goes up by one (wrapping at 32 bits) and an empty name becomes "Thread" plus the new count |
| Threads.Thread.Start | muduo/base/Thread.cc:174-194 | requires not started; a failed creation leaves the thread unstarted; a successful one leaves it started with the new thread's positive id in tid, the latch at 0 and start's wait released |
| Threads.Thread.Join | muduo/base/Thread.cc:197-203 | requires started and not joined, sets joined and returns pthread_join's result, so join happens at most once |
| Threads.Thread.Destroy | muduo/base/Thread.cc:155-161 | the destructor detaches iff the thread was started and not joined |
| Pool.Full | muduo/base/ThreadPool.cc:149-153 | full iff the capacity is positive and the queue holds at least that many tasks; capacity 0 is never full |
| Pool.RunStep | muduo/base/ThreadPool.cc:107-126 | with no workers the task runs in the caller (an empty task throws) and the queue is untouched; with workers a stopped pool drops the task, a full running pool waits, otherwise the task goes to the back |
| Pool.TakeStep | muduo/base/ThreadPool.cc:128-147 | a non-empty queue hands out its front; an empty one waits while running and returns an empty task once stopped, unchanged |
| Pool.StopStep | muduo/base/ThreadPool.cc:87-99 | stop clears running and keeps the queue, capacity and workers |
| Pool.ReplayConserves | muduo/base/ThreadPool.cc:107-147 | over any history, tasks taken followed by tasks still queued are the initial queue followed by every admitted task, in order; capacity and worker count never change and a stopped pool stays stopped |
| Pool.ReplayBounded | muduo/base/ThreadPool.cc:116-124 | from a queue within capacity, every history keeps it within capacity |
| Pool.StoppedAdmitsNothing | muduo/base/ThreadPool.cc:116-120 | a stopped pool with workers admits no task in any history, and what remains is what was queued minus what was taken |
| Pool.NoWorkersNeverQueue | muduo/base/ThreadPool.cc:109-112 | without workers, no history admits a task to the queue |
| Pool.Serve | muduo/base/ThreadPool.cc:163-170 | a running pool's lone worker ends only by waiting on an empty queue or by a job throwing |
| Pool.ServeConsumesPrefix | muduo/base/ThreadPool.cc:163-170 | a worker consumes a prefix of the queue and invokes exactly the jobs in it, in order, never an empty task; when it ends waiting it has consumed the whole queue |
| Pool.ServeFailures | muduo/base/ThreadPool.cc:163-189 | a worker that crashed did so at the last job it invoked, with that job's exception; every earlier job returned normally, and a worker that ends waiting saw no job throw |
| Pool.ServeAll | muduo/base/ThreadPool.cc:163-170 | when no queued job throws, a worker invokes every queued job in order and then waits on an empty queue |
| Pool.ThreadPool.constructor | muduo/base/ThreadPool.cc:50-58 | a new pool has the given name, capacity 0, is not running, and has no tasks and no threads |
| Pool.ThreadPool.Start | muduo/base/ThreadPool.cc:68-85 | requires no threads; sets running; on success creates exactly n fresh started workers named name followed by 1..n; the global creation counter stays a valid int32 and advances by one per thread constructed, with wrap-around; the init callback runs in the caller only when n is 0 |
| Pool.ThreadPool.LaunchWorkers | muduo/base/ThreadPool.cc:73-80 | succeeds iff every creation succeeds, and then yields n distinct fresh started, unjoined workers, the i-th named the pool name followed by i and carrying the i-th system id; the creation counter has been incremented once per thread constructed |
| Pool.ThreadPool.NewWorker | muduo/base/ThreadPool.cc:76-79 | a fresh thread with a fresh latch, started iff its creation succeeded: then named as given and holding the given id, otherwise unstarted with tid 0; the creation counter goes up by one, wrapping at 32 bits |
| Pool.IncrementsWrap | muduo/base/Thread.cc:165 | k wrapping increments of an int32 counter equal one wrapped addition of k |
| Pool.ThreadPool.Stop | muduo/base/ThreadPool.cc:87-99 | clears running, keeps the queue, the capacity, the threads and the init callback, and joins every worker, leaving each worker's name, tid and pthread handle unchanged |
| Pool.ThreadPool.JoinAll | muduo/base/ThreadPool.cc:95-98 | every worker ends joined, still started and valid, with its name, tid and pthread handle unchanged |
| Pool.ThreadPool.Destroy | muduo/base/ThreadPool.cc:60-66 | accepts any pool, stopped ones included; stops it only if it is running, and otherwise changes nothing: the pool's state and every worker's joined flag stay as they were; each worker's name, tid and pthread handle never change |
| Pool.ThreadPool.QueueSize | muduo/base/ThreadPool.cc:101-105 | returns the number of queued tasks |
| Pool.ThreadPool.IsFull | muduo/base/ThreadPool.cc:149-153 | returns exactly Full of the queue and the capacity |
| Pool.ThreadPool.Run | muduo/base/ThreadPool.cc:107-126 | does what RunStep says to the pool's state, and keeps a queue that is within capacity within capacity |
| Pool.ThreadPool.Take | muduo/base/ThreadPool.cc:128-147 | does what TakeStep says to the pool's state |
| Pool.ThreadPool.RunInThread | muduo/base/ThreadPool.cc:155-190 | runs the init callback if set; a stopped pool's worker exits at once, leaving queued tasks; a running pool's worker invokes jobs and leaves the queue as Serve says |

## Left out

- Blocking, wake-ups, spurious wake-ups, lock hand-off and memory ordering: each wait loop is one attempt that reports "would block", and notify is not modelled, except the latch's notifyAll tally.
- The atomicity of the `__sync_*` builtins: each method is one sequential step.
- Interleavings of several threads: each class method is one critical section. `Pool.ThreadPool.RunInThread` is one worker running with nothing else calling the pool.
- `CurrentThread::sleepUsec`'s `nanosleep` call, `prctl`, `gettid`, `afterFork`, `ThreadNameInitializer`, `isMainThread` and `CurrentThread.cc`: these are operating-system calls or runtime set-up. The initial thread name is a constructor argument.
- The `fprintf`, `abort`, rethrow and `LOG_SYSFATAL` paths: they appear only as terminal outcomes (`Aborted`, `Rethrown`, `Crashed`, `CreateFailed`, and `ok == false` from `Pool.ThreadPool.Start`). Nothing is promised about the state after them.
- `Timestamp::toFormattedString` and the clock read in `Timestamp::now`: they call `gmtime_r` and `gettimeofday`. Only the seconds/microseconds arithmetic is modelled.
- `Pool.ThreadPool.Start`: takes a non-negative thread count. With a negative count, `threads_.reserve` receives a huge `size_t` and throws `length_error`, which is not modelled.
- `Pool.RunStep`, `Pool.ThreadPool.Run`: with no workers, `run` calls the task with no try/catch, so a job that throws sends its exception out of `run`. The model answers `RanInline` for every job in that case and has no outcome for that exception.
- `Pool.ThreadPool.SetMaxQueueSize`: takes a non-negative capacity. `setMaxQueueSize` and `setThreadInitCallback` are declared in ThreadPool.h, which is not part of this model. They are plain setters, so the model has no table rows for them.
- `Pool.ThreadPool.RunInThread`: an init callback that throws is not modelled. A job's exception is modelled by the `failures` map.
- `Latch.CountDownLatch.CountDown`: requires the count to be above INT_MIN. Decrementing past it would be signed overflow in C.
- `Timestamps.ToStringShape`, `Timestamps.ParseToString`: cover only non-negative timestamps. For negative ones the truncating split puts a sign on both parts, as `Timestamps.OneMicrosecondBeforeEpoch` shows.
- `Threads.Thread.Start`: pthread creation is one boolean input. The new thread's execution after the handshake is `Threads.CurrentThread.RunThreadBody`, a separate call.
- Exception.cc, Condition.cc, ThreadLocal.h, ThreadLocalSingleton.h and copyable.h: a stack-trace foreign call, a timed wait on a `double`, thin pthread-key wrappers, and an empty tag class.
