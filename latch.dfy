/** CountDownLatch (muduo/base/CountDownLatch.cc): one int count_ guarded by a
    mutex, a wait that loops while count_ > 0, and a countDown that decrements
    unconditionally and wakes every waiter when the count becomes exactly 0.
    The blocking wait is modelled as an outcome: Blocked means the caller would
    sleep on the condition with nothing changed; Released means the loop exits. */
module Latch {
  import opened CInt

  datatype WaitOutcome = Blocked | Released

  /** The exit condition of wait's loop, read at the current count. */
  function WaitResult(count: int): (w: WaitOutcome)
    ensures w == Released <==> count <= 0
  {
    if count > 0 then Blocked else Released
  }

  /** The calls a latch receives, in the order the mutex serialises them. */
  datatype LatchCall = CountDownCall | WaitCall

  /** What each call observes: whether a countDown issued notifyAll, and how a
      wait's loop condition came out. */
  datatype Observation = Notified | Silent | Waited(outcome: WaitOutcome)

  function CountDowns(calls: seq<LatchCall>): nat
  {
    if calls == [] then 0
    else (if calls[0] == CountDownCall then 1 else 0) + CountDowns(calls[1..])
  }

  /** Replays calls against a latch holding count, one observation per call. */
  function Replay(count: int, calls: seq<LatchCall>): (obs: seq<Observation>)
    ensures |obs| == |calls|
    decreases calls
  {
    if calls == [] then []
    else if calls[0] == CountDownCall then
      [if count - 1 == 0 then Notified else Silent] + Replay(count - 1, calls[1..])
    else
      [Waited(WaitResult(count))] + Replay(count, calls[1..])
  }

  function Notifications(obs: seq<Observation>): nat
  {
    if obs == [] then 0 else (if obs[0] == Notified then 1 else 0) + Notifications(obs[1..])
  }

  lemma CountDownsPrefix(calls: seq<LatchCall>, i: nat)
    requires 0 < i <= |calls|
    ensures CountDowns(calls[..i]) == (if calls[0] == CountDownCall then 1 else 0) + CountDowns(calls[1..][..i - 1])
  {
    assert calls[..i][1..] == calls[1..][..i - 1];
  }

  /** Latch gating: in any history, a wait is released exactly when at least
      count countDowns came before it, and a countDown notifies exactly when it
      is the count-th one. */
  lemma {:induction false} ReplayObservations(count: int, calls: seq<LatchCall>, i: nat)
    requires i < |calls|
    ensures calls[i] == WaitCall ==>
      (Replay(count, calls)[i] == Waited(Released) <==> CountDowns(calls[..i]) >= count)
    ensures calls[i] == WaitCall ==> Replay(count, calls)[i].Waited?
    ensures calls[i] == CountDownCall ==>
      (Replay(count, calls)[i] == Notified <==> CountDowns(calls[..i]) + 1 == count)
    decreases calls
  {
    if i > 0 {
      var next := if calls[0] == CountDownCall then count - 1 else count;
      ReplayObservations(next, calls[1..], i - 1);
      CountDownsPrefix(calls, i);
      assert Replay(count, calls)[i] == Replay(next, calls[1..])[i - 1];
    } else {
      assert calls[..0] == [];
    }
  }

  /** From a positive count N, notifyAll fires exactly once if at least N
      countDowns happen and never otherwise; from a count of 0 or less it never fires. */
  lemma {:induction false} NotifiesAtMostOnce(count: int, calls: seq<LatchCall>)
    ensures Notifications(Replay(count, calls)) == if 0 < count <= CountDowns(calls) then 1 else 0
    decreases calls
  {
    if calls != [] {
      var obs := Replay(count, calls);
      if calls[0] == CountDownCall {
        NotifiesAtMostOnce(count - 1, calls[1..]);
        assert obs[1..] == Replay(count - 1, calls[1..]);
      } else {
        NotifiesAtMostOnce(count, calls[1..]);
        assert obs[1..] == Replay(count, calls[1..]);
      }
    }
  }

  /** Once a wait is released, every later wait is released too: countDowns
      only lower the count. */
  lemma ReleasedStaysReleased(count: int, calls: seq<LatchCall>, i: nat, j: nat)
    requires i < j < |calls| && calls[i] == WaitCall && calls[j] == WaitCall
    requires Replay(count, calls)[i] == Waited(Released)
    ensures Replay(count, calls)[j] == Waited(Released)
  {
    ReplayObservations(count, calls, i);
    ReplayObservations(count, calls, j);
    CountDownsMonotone(calls, i, j);
  }

  lemma {:induction false} CountDownsMonotone(calls: seq<LatchCall>, i: nat, j: nat)
    requires i <= j <= |calls|
    ensures CountDowns(calls[..i]) <= CountDowns(calls[..j])
  {
    if i > 0 {
      CountDownsPrefix(calls, i);
      CountDownsPrefix(calls, j);
      CountDownsMonotone(calls[1..], i - 1, j - 1);
    }
  }

  /** A history of n countDowns and nothing else. */
  function CountDownsOnly(n: nat): (calls: seq<LatchCall>)
    ensures |calls| == n && CountDowns(calls) == n
  {
    if n == 0 then [] else [CountDownCall] + CountDownsOnly(n - 1)
  }

  /** After n countDowns from count, notifyAll has fired once iff the count was
      positive and has been reached. */
  lemma LatchNotifications(count: int, n: nat)
    ensures Notifications(Replay(count, CountDownsOnly(n))) == if 0 < count <= n then 1 else 0
  {
    NotifiesAtMostOnce(count, CountDownsOnly(n));
  }

  class CountDownLatch {
    var count: int
    /** The count the latch was built with, and the history since. */
    ghost const initial: int
    ghost var countDowns: nat
    ghost var notifyAllCalls: nat

    ghost predicate Valid()
      reads this
    {
      && InRange(W32, count)
      && count == initial - countDowns
      && notifyAllCalls == (if 0 < initial <= countDowns then 1 else 0)
    }

    constructor (count: int)
      requires InRange(W32, count)
      ensures Valid() && this.count == count && initial == count && countDowns == 0
    {
      this.count := count;
      initial := count;
      countDowns, notifyAllCalls := 0, 0;
    }

    /** One evaluation of wait's loop condition; Released is the loop's exit. */
    method Wait() returns (w: WaitOutcome)
      requires Valid()
      ensures w == WaitResult(count)
      ensures w == Released <==> count <= 0
    {
      w := WaitResult(count);
    }

    /** Decrements unconditionally; there is no floor at zero. The int
        decrement must not overflow, so the count stays above INT_MIN. */
    method CountDown()
      requires Valid() && count > MinValue(W32)
      modifies this
      ensures Valid()
      ensures count == old(count) - 1 && countDowns == old(countDowns) + 1
      ensures notifyAllCalls == old(notifyAllCalls) + (if count == 0 then 1 else 0)
      ensures notifyAllCalls == Notifications(Replay(initial, CountDownsOnly(countDowns)))
    {
      LatchNotifications(initial, countDowns + 1);
      count := count - 1;
      countDowns := countDowns + 1;
      if count == 0 {
        notifyAllCalls := notifyAllCalls + 1;
      }
    }

    method GetCount() returns (c: int)
      requires Valid()
      ensures c == count
    {
      c := count;
    }
  }

  /** A latch of 3 with three countDowns: a waiter is held back after the first
      two and let through by the third. */
  method CountDownThreeTimes() returns (afterTwo: WaitOutcome, afterThree: WaitOutcome)
    ensures afterTwo == Blocked && afterThree == Released
  {
    var latch := new CountDownLatch(3);
    latch.CountDown();
    latch.CountDown();
    afterTwo := latch.Wait();
    latch.CountDown();
    afterThree := latch.Wait();
    assert latch.notifyAllCalls == 1;
  }
}
