/** AtomicIntegerT<T> (muduo/base/Atomic.h): one integer read-modify-written by
    every operation. Only the sequential value semantics are modelled: each
    method is one atomic step. The GCC builtins wrap around in two's complement,
    so every sum is reduced to the counter's width. */
module Atomics {
  import opened CInt

  class AtomicInteger {
    /** W32 for AtomicInt32 (int32_t), W64 for AtomicInt64 (int64_t). */
    const width: Width
    var value: int

    ghost predicate Valid()
      reads this
    {
      InRange(width, value)
    }

    /** AtomicInt32: a new counter holds 0. */
    constructor Int32()
      ensures Valid() && width == W32 && value == 0
    {
      width, value := W32, 0;
    }

    /** AtomicInt64: a new counter holds 0. */
    constructor Int64()
      ensures Valid() && width == W64 && value == 0
    {
      width, value := W64, 0;
    }

    method Get() returns (v: int)
      requires Valid()
      ensures v == value && InRange(width, v)
    {
      v := value;
    }

    /** Fetch-and-add: returns the value before the addition. */
    method GetAndAdd(x: int) returns (prev: int)
      requires Valid() && InRange(width, x)
      modifies this
      ensures Valid()
      ensures prev == old(value)
      ensures value == Wrap(width, old(value) + x)
    {
      prev := value;
      value := Wrap(width, value + x);
    }

    /** Add-and-fetch: returns the value after the addition, which is the new value. */
    method AddAndGet(x: int) returns (r: int)
      requires Valid() && InRange(width, x)
      modifies this
      ensures Valid()
      ensures r == value
      ensures value == Wrap(width, old(value) + x)
    {
      var prev := GetAndAdd(x);
      r := Wrap(width, prev + x);
    }

    method IncrementAndGet() returns (r: int)
      requires Valid()
      modifies this
      ensures Valid()
      ensures r == value && value == Wrap(width, old(value) + 1)
    {
      r := AddAndGet(1);
    }

    method DecrementAndGet() returns (r: int)
      requires Valid()
      modifies this
      ensures Valid()
      ensures r == value && value == Wrap(width, old(value) - 1)
    {
      r := AddAndGet(-1);
    }

    method Add(x: int)
      requires Valid() && InRange(width, x)
      modifies this
      ensures Valid() && value == Wrap(width, old(value) + x)
    {
      var _ := GetAndAdd(x);
    }

    method Increment()
      requires Valid()
      modifies this
      ensures Valid() && value == Wrap(width, old(value) + 1)
    {
      var _ := IncrementAndGet();
    }

    method Decrement()
      requires Valid()
      modifies this
      ensures Valid() && value == Wrap(width, old(value) - 1)
    {
      var _ := DecrementAndGet();
    }

    /** Exchange: stores newValue and returns the value it replaced. */
    method GetAndSet(newValue: int) returns (prev: int)
      requires Valid() && InRange(width, newValue)
      modifies this
      ensures Valid()
      ensures prev == old(value) && value == newValue
    {
      prev := value;
      value := newValue;
    }
  }

  /** getAndAdd(x) followed by getAndAdd(-x) restores the counter, even when the
      first addition wrapped around. */
  lemma AddThenSubtractRestores(w: Width, v: int, x: int)
    requires InRange(w, v)
    ensures Wrap(w, Wrap(w, v + x) - x) == v
  {
    WrapAdd(w, v + x, -x);
  }
}
