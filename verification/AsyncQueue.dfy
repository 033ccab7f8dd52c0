/** A FIFO queue shared by threads; each operation holds its lock, so is one step. */
module AsyncQueues {
  import opened Wrappers

  class AsyncQueue<T> {
    const limit: Option<nat>
    var q: seq<T>

    ghost predicate Valid()
      reads this
    {
      limit.Some? ==> |q| <= limit.value
    }

    constructor (limit: Option<nat>)
      ensures Valid() && q == [] && this.limit == limit
    {
      this.limit, q := limit, [];
    }

    predicate Full()
      reads this
    {
      limit.Some? && |q| >= limit.value
    }

    /** False when the queue is still full when the waiting ends. */
    method Push(item: T) returns (ok: bool)
      requires Valid()
      modifies this
      ensures Valid() && ok == !old(Full()) && q == if ok then old(q) + [item] else old(q)
    {
      if Full() { return false; }
      q := q + [item];
      ok := true;
    }

    /** None when the queue is still empty when the waiting ends. */
    method Pop() returns (item: Option<T>)
      requires Valid()
      modifies this
      ensures Valid()
      ensures if old(q) == [] then item.None? && q == [] else item.Some? && [item.value] + q == old(q)
    {
      if q == [] { return None; }
      item := Some(q[0]);
      q := q[1..];
    }

    method Clear()
      requires Valid()
      modifies this
      ensures Valid() && q == []
    {
      q := [];
    }

    method Size() returns (n: nat)
      ensures n == |q|
    {
      n := |q|;
    }
  }
}
