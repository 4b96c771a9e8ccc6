/**
 The ring buffer and the mutex-protected queue on top of it
 (include/spdlog/details/circular_q.h, include/spdlog/details/mpmc_blocking_q.h).
 */
module CircularQueues {
  import opened QueueSpec

  class CircularQ<T(0)> {
    var maxItems: nat
    var head: nat
    var tail: nat
    var overrunCounter: nat
    var v: array<T>

    ghost predicate Valid()
      reads this
    {
      && v.Length == maxItems
      && (if maxItems == 0 then head == 0 && tail == 0 else head < maxItems && tail < maxItems)
    }

    /** The stored items, oldest first. */
    ghost function Contents(): seq<T>
      reads this, v
      requires Valid()
    {
      if head <= tail then v[head..tail] else v[head..] + v[..tail]
    }

    /** The queue this buffer stands for. A disabled buffer has no slot to mark as full and stands for none. */
    ghost function Abs(): Queue<T>
      reads this, v
      requires Valid() && maxItems > 0
    {
      Queue(maxItems - 1, Contents(), overrunCounter)
    }

    /** The disabled queue. */
    constructor Disabled()
      ensures Valid() && maxItems == 0 && Contents() == [] && overrunCounter == 0 && fresh(v)
    {
      maxItems, head, tail, overrunCounter := 0, 0, 0, 0;
      v := new T[0];
    }

    /** One more slot than items: equal indices mean empty. */
    constructor (capacity: nat)
      ensures Valid() && maxItems == capacity + 1 && fresh(v)
      ensures Abs() == Queue(capacity, [], 0)
    {
      maxItems, head, tail, overrunCounter := capacity + 1, 0, 0, 0;
      v := new T[capacity + 1];
    }

    method PushBack(item: T)
      requires Valid()
      modifies this, v
      ensures Valid() && v == old(v) && maxItems == old(maxItems)
      ensures maxItems == 0 ==> Contents() == [] && overrunCounter == old(overrunCounter)
      ensures maxItems > 0 ==> Abs() == old(Abs()).Push(item)
    {
      if maxItems > 0 {
        v[tail] := item;
        ModNext(tail, maxItems);
        ModNext(head, maxItems);
        tail := (tail + 1) % maxItems;
        if tail == head {
          head := (head + 1) % maxItems;
          overrunCounter := overrunCounter + 1;
        }
        PushedContents(item);
      }
    }

    /** Index arithmetic of PushBack, read as a sequence. */
    twostate lemma PushedContents(item: T)
      requires old(Valid()) && Valid() && maxItems == old(maxItems) > 0 && v == old(v)
      requires v[..] == old(v[..])[old(tail) := item]
      requires tail == (if old(tail) + 1 == maxItems then 0 else old(tail) + 1)
      requires head == (if tail != old(head) then old(head)
                        else if old(head) + 1 == maxItems then 0 else old(head) + 1)
      requires overrunCounter == old(overrunCounter) + if tail == old(head) then 1 else 0
      ensures Abs() == old(Abs()).Push(item)
    {
      var before, after := old(Contents()), Contents();
      assert |before| == if old(head) <= old(tail) then old(tail) - old(head) else maxItems - (old(head) - old(tail));
      var longer := before + [item];
      assert forall i :: 0 <= i < maxItems ==> v[..][i] == v[i] && old(v[..])[i] == old(v[i]);
      if tail == old(head) {
        assert after == longer[1..];
      } else {
        assert after == longer;
      }
    }

    method Front() returns (x: T)
      requires Valid() && Contents() != []
      ensures x == Contents()[0]
    {
      x := v[head];
    }

    method PopFront()
      requires Valid() && Contents() != []
      modifies this`head
      ensures Valid() && Contents() == old(Contents())[1..]
    {
      ModNext(head, maxItems);
      head := (head + 1) % maxItems;
    }

    method Size() returns (n: nat)
      requires Valid()
      ensures n == |Contents()|
    {
      if tail >= head {
        n := tail - head;
      } else {
        n := maxItems - (head - tail);
      }
    }

    method At(i: nat) returns (x: T)
      requires Valid() && i < |Contents()|
      ensures x == Contents()[i]
    {
      ModWrap(head, i, maxItems);
      x := v[(head + i) % maxItems];
    }

    method Empty() returns (b: bool)
      requires Valid()
      ensures b <==> Contents() == []
    {
      b := tail == head;
    }

    method Full() returns (b: bool)
      requires Valid()
      ensures b <==> maxItems > 0 && |Contents()| == maxItems - 1
    {
      if maxItems > 0 {
        ModNext(tail, maxItems);
        return (tail + 1) % maxItems == head;
      }
      return false;
    }

    /** Takes over other's items and leaves it disabled; a queue moved onto itself ends up disabled. */
    method CopyMoveable(other: CircularQ<T>)
      requires other.Valid()
      modifies this, other
      ensures Valid() && other.Valid() && fresh(other.v)
      ensures other != this ==> maxItems == old(other.maxItems) && v == old(other.v)
      ensures other != this ==> Contents() == old(other.Contents()) && overrunCounter == old(other.overrunCounter)
      ensures other.maxItems == 0 && other.Contents() == [] && other.overrunCounter == 0
    {
      maxItems, head, tail := other.maxItems, other.head, other.tail;
      overrunCounter, v := other.overrunCounter, other.v;
      // A moved-from vector is empty.
      other.v := new T[0];
      other.maxItems, other.head, other.tail, other.overrunCounter := 0, 0, 0, 0;
    }
  }

  lemma ModNext(x: nat, m: nat)
    requires x < m
    ensures (x + 1) % m == if x + 1 == m then 0 else x + 1
  {
    ModWrap(x, 1, m);
  }

  lemma ModWrap(x: nat, i: nat, m: nat)
    requires x < m && i <= m
    ensures (x + i) % m == if x + i < m then x + i else x + i - m
  {
    if x + i >= m {
      assert (x + i) % m == (x + i - m) % m;
    }
  }

  /** Each method is one locked section; a wait that is not satisfied changes nothing. */
  class MpmcBlockingQueue<T(0)> {
    const q: CircularQ<T>

    ghost predicate Valid()
      reads this, q
    {
      q.Valid() && q.maxItems > 0
    }

    ghost function Abs(): Queue<T>
      reads this, q, q.v
      requires Valid()
    {
      q.Abs()
    }

    constructor (maxItems: nat)
      ensures Valid() && Abs() == Queue(maxItems, [], 0) && fresh(q) && fresh(q.v)
    {
      q := new CircularQ(maxItems);
    }

    /** Blocks while the queue is full; reports whether it had to. */
    method Enqueue(item: T) returns (blocked: bool)
      requires Valid()
      modifies q, q.v
      ensures Valid() && q.v == old(q.v)
      ensures blocked <==> old(Abs()).Full()
      ensures Abs() == if blocked then old(Abs()) else old(Abs()).Push(item)
      ensures forall h: History<T> :: h.queue == old(Abs()) ==>
        var h' := Do(h, Op.Enqueue(item));
        h'.queue == Abs() && (blocked <==> h'.enqueued == h.enqueued)
    {
      blocked := q.Full();
      if !blocked {
        q.PushBack(item);
      }
    }

    method EnqueueNowait(item: T)
      requires Valid()
      modifies q, q.v
      ensures Valid() && q.v == old(q.v)
      ensures Abs() == old(Abs()).Push(item)
      ensures forall h: History<T> :: h.queue == old(Abs()) ==> Do(h, Op.EnqueueNowait(item)).queue == Abs()
    {
      q.PushBack(item);
    }

    /** False when the wait timed out with nothing in the queue. */
    method DequeueFor(current: T) returns (dequeued: bool, popped: T)
      requires Valid()
      modifies q
      ensures Valid() && q.v == old(q.v)
      ensures dequeued <==> old(Abs()).items != []
      ensures popped == if dequeued then old(Abs()).items[0] else current
      ensures Abs() == if dequeued then old(Abs()).Pop() else old(Abs())
      ensures forall h: History<T> :: h.queue == old(Abs()) ==>
        var h' := Do(h, Dequeue);
        h'.queue == Abs() && h'.removed == h.removed + if dequeued then [Removal(popped, true)] else []
    {
      popped := current;
      var empty := q.Empty();
      if empty {
        return false, popped;
      }
      popped := q.Front();
      q.PopFront();
      dequeued := true;
    }

    method OverrunCounter() returns (n: nat)
      requires Valid()
      ensures n == Abs().overruns
    {
      n := q.overrunCounter;
    }

    method Size() returns (n: nat)
      requires Valid()
      ensures n == |Abs().items|
    {
      n := q.Size();
    }
  }
}
