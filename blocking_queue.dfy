/** BlockingQueue<T> (muduo/base/BlockingQueue.h): an unbounded FIFO over a
    deque guarded by one mutex. take's wait loop is modelled as an outcome:
    Blocked means the caller would sleep on notEmpty_ with nothing changed.
    notEmpty_.notify() is not modelled: it only wakes such a caller to try again. */
module Queue {

  datatype Taken<T> = Blocked | Took(item: T)

  /** The calls a queue receives, in the order its mutex serialises them. */
  datatype QueueCall<T> = Put(x: T) | Take | Drain

  /** One call's effect: the new contents and the items it hands to its caller
      (the taken front, or everything for drain). */
  function Apply<T>(contents: seq<T>, call: QueueCall<T>): (r: (seq<T>, seq<T>))
    ensures r.1 + r.0 == contents + (if call.Put? then [call.x] else [])
    ensures call.Take? ==> |r.1| == (if contents == [] then 0 else 1)
    ensures call.Drain? ==> r.0 == []
  {
    match call
    case Put(x) => (contents + [x], [])
    case Take => if contents == [] then (contents, []) else (contents[1..], [contents[0]])
    case Drain => ([], contents)
  }

  /** The result of a history of calls: what is left, what was handed out (in
      the order it was handed out), and how many items take and drain removed. */
  datatype History<T> = History(remaining: seq<T>, handedOut: seq<T>, taken: nat, drained: nat)

  /** The item a call adds: put's argument, or nothing. */
  function Added<T>(call: QueueCall<T>): seq<T>
  {
    if call.Put? then [call.x] else []
  }

  /** A history extended by one more call. */
  function Step<T>(h: History<T>, call: QueueCall<T>): History<T>
  {
    var (rest, out) := Apply(h.remaining, call);
    History(rest, h.handedOut + out,
            h.taken + (if call.Take? then |out| else 0),
            h.drained + (if call.Drain? then |out| else 0))
  }

  function Replay<T>(contents: seq<T>, calls: seq<QueueCall<T>>): History<T>
    decreases |calls|
  {
    if calls == [] then History(contents, [], 0, 0)
    else Step(Replay(contents, calls[..|calls| - 1]), calls[|calls| - 1])
  }

  /** The items a history puts, in order. */
  function Puts<T>(calls: seq<QueueCall<T>>): seq<T>
    decreases |calls|
  {
    if calls == [] then [] else Puts(calls[..|calls| - 1]) + Added(calls[|calls| - 1])
  }

  /** One call keeps the conservation equation, with its added item appended. */
  lemma StepConserves<T>(h: History<T>, call: QueueCall<T>, supply: seq<T>)
    requires h.handedOut + h.remaining == supply && |h.handedOut| == h.taken + h.drained
    ensures Step(h, call).handedOut + Step(h, call).remaining == supply + Added(call)
    ensures |Step(h, call).handedOut| == Step(h, call).taken + Step(h, call).drained
  {
    var (rest, out) := Apply(h.remaining, call);
    assert out + rest == h.remaining + Added(call);
    calc {
      (h.handedOut + out) + rest;
      h.handedOut + (out + rest);
      h.handedOut + (h.remaining + Added(call));
      (h.handedOut + h.remaining) + Added(call);
    }
  }

  /** FIFO and conservation at once: what was handed out, followed by what is
      left, is exactly the initial contents followed by everything put. */
  lemma {:induction false} ReplayConserves<T>(contents: seq<T>, calls: seq<QueueCall<T>>)
    ensures Replay(contents, calls).handedOut + Replay(contents, calls).remaining == contents + Puts(calls)
    ensures |Replay(contents, calls).handedOut| == Replay(contents, calls).taken + Replay(contents, calls).drained
    decreases |calls|
  {
    if calls == [] {
      assert contents + Puts(calls) == contents;
    } else {
      var init := calls[..|calls| - 1];
      var last := calls[|calls| - 1];
      ReplayConserves(contents, init);
      StepConserves(Replay(contents, init), last, contents + Puts(init));
      assert (contents + Puts(init)) + Added(last) == contents + (Puts(init) + Added(last));
    }
  }

  /** Items come out in the order they went in: the handed-out stream is a
      prefix of the initial contents followed by the puts. */
  lemma Fifo<T>(contents: seq<T>, calls: seq<QueueCall<T>>)
    ensures Replay(contents, calls).handedOut <= contents + Puts(calls)
  {
    ReplayConserves(contents, calls);
  }

  /** Counting form: puts equal takes plus drained items plus what remains. */
  lemma Conservation<T>(calls: seq<QueueCall<T>>)
    ensures |Puts(calls)| == Replay([], calls).taken + Replay([], calls).drained + |Replay([], calls).remaining|
  {
    ReplayConserves([], calls);
    assert [] + Puts(calls) == Puts(calls);
  }

  /** drain twice: everything, then nothing, and the queue ends empty. */
  lemma DrainTwice<T>(contents: seq<T>)
    ensures Replay(contents, [Drain, Drain]).handedOut == contents
    ensures Replay(contents, [Drain, Drain]).remaining == []
    ensures Replay(contents, [Drain, Drain]).drained == |contents|
  {
    var once: seq<QueueCall<T>> := [Drain];
    var twice: seq<QueueCall<T>> := [Drain, Drain];
    assert twice[..1] == once && once[..0] == [];
    var h1 := Step(History(contents, [], 0, 0), Drain);
    assert h1 == History([], contents, 0, |contents|);
    assert Replay(contents, once) == h1;
    var h2 := Step(h1, Drain);
    assert h2.handedOut == contents + [];
    assert Replay(contents, twice) == h2;
  }

  class BlockingQueue<T> {
    /** queue_: the front is index 0. */
    var queue: seq<T>

    constructor ()
      ensures queue == []
    {
      queue := [];
    }

    /** put(const T&): appends x at the back. */
    method Put(x: T)
      modifies this
      ensures queue == old(queue) + [x]
      ensures (queue, []) == Apply(old(queue), QueueCall.Put(x))
    {
      queue := queue + [x];
    }

    /** put(T&&): the moving overload has the same effect on the contents. */
    method PutMoved(x: T)
      modifies this
      ensures queue == old(queue) + [x]
      ensures (queue, []) == Apply(old(queue), QueueCall.Put(x))
    {
      queue := queue + [x];
    }

    /** take: Blocked while empty; otherwise removes and returns the front. */
    method Take() returns (r: Taken<T>)
      modifies this
      ensures old(queue) == [] ==> r == Blocked && queue == old(queue)
      ensures old(queue) != [] ==> r == Took(old(queue)[0]) && queue == old(queue)[1..]
      ensures queue == Apply(old(queue), QueueCall.Take).0
      ensures (if r.Took? then [r.item] else []) == Apply(old(queue), QueueCall.Take).1
    {
      if queue == [] {
        r := Blocked;
      } else {
        r := Took(queue[0]);
        queue := queue[1..];
      }
    }

    /** drain: moves the whole contents out and leaves the queue empty. */
    method Drain() returns (d: seq<T>)
      modifies this
      ensures d == old(queue) && queue == []
      ensures (queue, d) == Apply(old(queue), QueueCall.Drain)
    {
      d := queue;
      queue := [];
    }

    method Size() returns (n: nat)
      ensures n == |queue|
    {
      n := |queue|;
    }
  }

  /** Two puts then two takes come out in put order. */
  method PutPutTakeTake<T>(a: T, b: T) returns (first: Taken<T>, second: Taken<T>, left: nat)
    ensures first == Took(a) && second == Took(b) && left == 0
  {
    var q := new BlockingQueue<T>();
    q.Put(a);
    q.PutMoved(b);
    first := q.Take();
    second := q.Take();
    left := q.Size();
  }
}
