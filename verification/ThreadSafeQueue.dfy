/** The bounded queue between threads, one critical section per method; when full, the oldest element goes. */
module ThreadSafeQueues {
  import opened Options

  /** An element that has left the queue, taken by a reader or dropped for a newer one. */
  datatype Gone<T> = Gone(value: T, dropped: bool)

  function Taken<T>(gs: seq<Gone<T>>): seq<T> {
    if gs == [] then []
    else Taken(gs[..|gs| - 1]) + if gs[|gs| - 1].dropped then [] else [gs[|gs| - 1].value]
  }

  function Drops<T>(gs: seq<Gone<T>>): nat {
    if gs == [] then 0 else Drops(gs[..|gs| - 1]) + if gs[|gs| - 1].dropped then 1 else 0
  }

  function Values<T>(gs: seq<Gone<T>>): (vs: seq<T>)
    ensures |vs| == |gs|
  {
    seq(|gs|, i requires 0 <= i < |gs| => gs[i].value)
  }

  class ThreadSafeQueue<T> {
    const capacity: nat
    const dropOld: bool
    var q: seq<T>
    var closed: bool
    var dropped: nat
    ghost var accepted: seq<T>      // every element a push returned true for
    ghost var gone: seq<Gone<T>>    // what has left, in order

    /** Elements leave at the front in the order they came, whichever way they leave. */
    ghost predicate Valid()
      reads this
    {
      && |q| <= capacity && capacity > 0
      && accepted == Values(gone) + q
      && dropped == Drops(gone)
    }

    constructor (capacity: nat, dropOld: bool)
      requires capacity > 0
      ensures Valid() && accepted == [] && gone == [] && !closed
      ensures this.capacity == capacity && this.dropOld == dropOld
    {
      this.capacity, this.dropOld := capacity, dropOld;
      q, closed, dropped, accepted, gone := [], false, 0, [], [];
    }

    /** push, once its wait is over. */
    method Push(v: T) returns (ok: bool)
      requires Valid() && (closed || dropOld || |q| < capacity)
      modifies this
      ensures Valid() && closed == old(closed) && ok == !closed
      ensures ok ==> accepted == old(accepted) + [v]
      ensures ok ==> gone == if old(|q|) == capacity then old(gone) + [Gone(old(q)[0], true)] else old(gone)
      ensures !ok ==> accepted == old(accepted) && gone == old(gone) && q == old(q)
    {
      ok := TryPush(v);
    }

    /** try_push: never waits, and drops the oldest whatever the policy. */
    method TryPush(v: T) returns (ok: bool)
      requires Valid()
      modifies this
      ensures Valid() && closed == old(closed) && ok == !closed
      ensures ok ==> accepted == old(accepted) + [v]
      ensures ok ==> gone == if old(|q|) == capacity then old(gone) + [Gone(old(q)[0], true)] else old(gone)
      ensures !ok ==> accepted == old(accepted) && gone == old(gone) && q == old(q)
    {
      if closed {
        return false;
      }
      if |q| >= capacity {
        dropped := dropped + 1;
        Leaves(gone, Gone(q[0], true));
        gone := gone + [Gone(q[0], true)];
        q := q[1..];
      }
      q := q + [v];
      accepted := accepted + [v];
      return true;
    }

    /** pop, once its wait is over; pop_for fails in the same way when its time is up. */
    method Pop() returns (out: Option<T>)
      requires Valid()
      modifies this
      ensures Valid() && closed == old(closed) && accepted == old(accepted)
      ensures out.Some? <==> old(q) != []
      ensures gone == if out.Some? then old(gone) + [Gone(out.value, false)] else old(gone)
      ensures Taken(gone) == if out.Some? then Taken(old(gone)) + [out.value] else Taken(old(gone))
    {
      if q == [] {
        return None;
      }
      out := Some(q[0]);
      Leaves(gone, Gone(q[0], false));
      gone := gone + [Gone(q[0], false)];
      q := q[1..];
    }

    method Close()
      requires Valid()
      modifies this`closed
      ensures Valid() && closed
    {
      closed := true;
    }

    /**
     * At any time the queue holds the newest elements accepted, the readers' elements are in the order
     * they came, and accepted = taken + dropped + held.
     */
    lemma NewestHeld()
      requires Valid()
      ensures |q| <= capacity && q == accepted[|accepted| - |q|..]
      ensures |accepted| == |Taken(gone)| + dropped + |q|
      ensures dropped == 0 ==> accepted == Taken(gone) + q
    {
      TakenAndDropped(gone);
    }
  }

  lemma Leaves<T>(gs: seq<Gone<T>>, g: Gone<T>)
    ensures Values(gs + [g]) == Values(gs) + [g.value]
    ensures Drops(gs + [g]) == Drops(gs) + if g.dropped then 1 else 0
    ensures Taken(gs + [g]) == Taken(gs) + if g.dropped then [] else [g.value]
  {
    assert (gs + [g])[..|gs|] == gs;
  }

  lemma {:induction false} TakenAndDropped<T>(gs: seq<Gone<T>>)
    ensures |gs| == |Taken(gs)| + Drops(gs)
    ensures Drops(gs) == 0 ==> Taken(gs) == Values(gs)
  {
    if gs != [] {
      TakenAndDropped(gs[..|gs| - 1]);
      Leaves(gs[..|gs| - 1], gs[|gs| - 1]);
      assert gs[..|gs| - 1] + [gs[|gs| - 1]] == gs;
    }
  }
}
