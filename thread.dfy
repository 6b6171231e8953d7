/** Thread (muduo/base/Thread.cc): the started_/joined_ lifecycle of a thread
    object, its default name from the global creation counter, the start-up
    handshake through a one-shot latch, the thread-name changes the new thread
    goes through, CurrentThread::cacheTid and CurrentThread::sleepUsec.
    Operating-system calls are parameters: whether pthread_create succeeded, the
    id gettid returns in the new thread, the handle pthread_create fills in, and
    what pthread_join returns. */
module Threads {
  import opened CInt
  import opened Decimal
  import opened Atomics
  import opened Latch
  import opened Timestamps

  /** struct timespec as sleepUsec fills it in. */
  datatype Timespec = Timespec(tvSec: int, tvNsec: int)

  /** The time sleepUsec hands to nanosleep: C's truncating / and % split the
      microseconds; the nanoseconds are the remainder times 1000. */
  function SleepDuration(usec: Int64): (ts: Timespec)
    ensures ts.tvSec * MicroSecondsPerSecond + Quot(ts.tvNsec, 1000) == usec
    ensures Rem(ts.tvNsec, 1000) == 0
    ensures usec >= 0 ==> 0 <= ts.tvSec && 0 <= ts.tvNsec < 1000000000
    ensures usec < 0 ==> ts.tvSec <= 0 && -1000000000 < ts.tvNsec <= 0
  {
    Timespec(Quot(usec, MicroSecondsPerSecond), Rem(usec, MicroSecondsPerSecond) * 1000)
  }

  /** What cacheTid leaves in t_cachedTid: a cached id is kept; only 0 means
      "not cached yet". */
  function CachedTid(cached: int, osTid: int): (t: int)
    ensures cached != 0 ==> t == cached
    ensures osTid != 0 ==> t != 0
  {
    if cached == 0 then osTid else cached
  }

  /** Caching is idempotent: once an id is cached, later calls keep it. */
  lemma CacheTidIdempotent(cached: int, first: int, second: int)
    requires first != 0
    ensures CachedTid(CachedTid(cached, first), second) == CachedTid(cached, first)
  {
  }

  /** t_tidString: snprintf(..., "%5d ", tid); at most 12 characters, so it fits
      its 32-byte buffer. */
  function TidString(tid: int): (s: string)
    requires tid > 0
    ensures |s| == (if |Digits(tid)| < 5 then 5 else |Digits(tid)|) + 1
    ensures s[|s| - 1] == ' '
    ensures s[|s| - 1 - |Digits(tid)|..|s| - 1] == Digits(tid)
    ensures forall i :: 0 <= i < |s| - 1 - |Digits(tid)| ==> s[i] == ' '
  {
    FormatInt(tid, 5, false) + " "
  }

  /** The name setDefaultName gives an unnamed thread: "Thread%d" of the
      counter's new value ("Thread" plus at most 11 characters, well inside its
      32-byte buffer). */
  function DefaultName(num: int): (name: string)
    ensures |name| > 6 && name[..6] == "Thread"
  {
    "Thread" + FormatInt(num, 0, false)
  }

  /** Distinct creation numbers give distinct default names. */
  lemma DefaultNamesDistinct(m: int, n: int)
    requires DefaultName(m) == DefaultName(n)
    ensures m == n
  {
    assert DefaultName(m)[6..] == FormatInt(m, 0, false);
    assert DefaultName(n)[6..] == FormatInt(n, 0, false);
    FormatIntInjective(m, n);
  }

  /** The name the new thread runs under: its own, or "muduoThread" when empty. */
  function RunningName(name: string): (r: string)
    ensures r != []
    ensures name != [] ==> r == name
  {
    if name == [] then "muduoThread" else name
  }

  datatype ExceptionKind = MuduoException | StdException | UnknownException

  /** How the thread function ended. */
  datatype FuncOutcome = Returned | Threw(kind: ExceptionKind)

  /** How runInThread ends: normally, by abort() after a muduo or standard
      exception, or by rethrowing anything else. */
  datatype ThreadExit = Finished | Aborted | Rethrown

  /** A thread function; the functions themselves are opaque. */
  datatype ThreadFunc = ThreadFunc(id: nat)

  /** The thread-local variables of one thread: t_cachedTid, t_tidString,
      t_tidStringLength and t_threadName, with the history of names assigned. */
  class CurrentThread {
    var cachedTid: int
    var tidString: string
    var tidStringLength: nat
    var threadName: string
    ghost var nameHistory: seq<string>

    ghost predicate Valid()
      reads this
    {
      && cachedTid >= 0
      && (cachedTid > 0 ==> tidString == TidString(cachedTid) && tidStringLength == |tidString|)
    }

    /** A thread's variables before anything is cached. The initial name is
        defined in CurrentThread.cc, which is not part of this model. */
    constructor (initialName: string)
      ensures Valid() && cachedTid == 0 && tidString == "" && tidStringLength == 0
      ensures threadName == initialName && nameHistory == []
    {
      cachedTid, tidString, tidStringLength := 0, "", 0;
      threadName := initialName;
      nameHistory := [];
    }

    /** cacheTid: asks the system (osTid is gettid's answer) only when nothing
        is cached, and formats the id for log lines. */
    method CacheTid(osTid: int)
      requires Valid() && osTid > 0
      modifies this
      ensures Valid()
      ensures cachedTid == CachedTid(old(cachedTid), osTid) && cachedTid > 0
      ensures old(cachedTid) != 0 ==> tidString == old(tidString) && tidStringLength == old(tidStringLength)
      ensures threadName == old(threadName) && nameHistory == old(nameHistory)
    {
      if cachedTid == 0 {
        cachedTid := osTid;
        tidString := TidString(cachedTid);
        tidStringLength := |tidString|;
      }
    }

    /** CurrentThread::tid(): the cached id, caching it first if needed. */
    method Tid(osTid: int) returns (t: int)
      requires Valid() && osTid > 0
      modifies this
      ensures Valid()
      ensures t == cachedTid && t == CachedTid(old(cachedTid), osTid) && t > 0
      ensures threadName == old(threadName) && nameHistory == old(nameHistory)
    {
      if cachedTid == 0 {
        CacheTid(osTid);
      }
      t := cachedTid;
    }

    /** The part of ThreadData::runInThread after the handshake: rename the
        thread, run the function (its outcome is a parameter), then mark the
        thread "finished" or "crashed". */
    method RunThreadBody(name: string, outcome: FuncOutcome) returns (exit: ThreadExit)
      requires Valid()
      modifies this
      ensures Valid() && cachedTid == old(cachedTid)
      ensures tidString == old(tidString) && tidStringLength == old(tidStringLength)
      ensures threadName == (if outcome == Returned then "finished" else "crashed")
      ensures nameHistory == old(nameHistory) + [RunningName(name), threadName]
      ensures exit == Finished <==> outcome == Returned
      ensures exit == Rethrown <==> outcome == Threw(UnknownException)
    {
      threadName := RunningName(name);
      nameHistory := nameHistory + [threadName];
      match outcome {
        case Returned =>
          threadName := "finished";
          exit := Finished;
        case Threw(kind) =>
          threadName := "crashed";
          exit := if kind == UnknownException then Rethrown else Aborted;
      }
      nameHistory := nameHistory + [threadName];
    }
  }

  datatype StartOutcome = Launched | CreateFailed

  class Thread {
    var started: bool
    var joined: bool
    var pthreadId: nat
    var tid: int
    const func: ThreadFunc
    var name: string
    /** latch_(1): released by the new thread once tid_ is written. */
    const latch: CountDownLatch

    ghost predicate Valid()
      reads this, latch
    {
      && latch.Valid()
      && (joined ==> started)
      && (started ==> tid > 0)
      && (!started ==> tid == 0 && latch.count == 1)
    }

    /** Thread(func, n), with setDefaultName inlined: every construction draws
        the next number from the global counter (numCreated_), and an empty name
        becomes "Thread<number>". */
    constructor (func: ThreadFunc, n: string, numCreated: AtomicInteger)
      requires numCreated.Valid() && numCreated.width == W32
      modifies numCreated
      ensures Valid() && fresh(latch)
      ensures !started && !joined && tid == 0 && pthreadId == 0 && this.func == func
      ensures numCreated.Valid() && numCreated.value == Wrap(W32, old(numCreated.value) + 1)
      ensures name == if n == [] then DefaultName(numCreated.value) else n
    {
      started, joined, pthreadId, tid := false, false, 0, 0;
      this.func := func;
      latch := new CountDownLatch(1);
      var num := numCreated.IncrementAndGet();
      name := if n == [] then DefaultName(num) else n;
    }

    /** start: created says whether pthread_create succeeded. On failure
        started_ is reset (and LOG_SYSFATAL ends the process). On success the
        new thread caches its id (osTid), stores it in tid_ and counts the latch
        down, and only then does start's wait on the latch return, so tid_ > 0
        when start returns. */
    method Start(created: bool, osTid: int, handle: nat) returns (outcome: StartOutcome)
      requires Valid() && !started
      requires osTid > 0
      modifies this, latch
      ensures Valid()
      ensures outcome == Launched <==> created
      ensures created ==> started && tid == osTid && pthreadId == handle && latch.count == 0
      ensures !created ==> !started && tid == old(tid) && latch.count == old(latch.count)
      ensures joined == old(joined) && name == old(name)
    {
      started := true;
      if !created {
        started := false;
        outcome := CreateFailed;
      } else {
        pthreadId := handle;
        // The new thread, up to the handshake; its name plays no part here.
        var child := new CurrentThread([]);
        var t := child.Tid(osTid);
        tid := t;
        latch.CountDown();
        // Back in start: the latch has reached 0, so this wait returns.
        var w := latch.Wait();
        assert w == Released;
        outcome := Launched;
      }
    }

    /** join: allowed once, on a started thread; returns pthread_join's result. */
    method Join(rc: int) returns (r: int)
      requires Valid() && started && !joined
      modifies this`joined
      ensures Valid() && joined && r == rc
    {
      joined := true;
      r := rc;
    }

    /** ~Thread: whether the destructor detaches the thread. */
    method Destroy() returns (detach: bool)
      requires Valid()
      ensures detach <==> started && !joined
    {
      detach := started && !joined;
    }
  }
}
