/**
 A bounded FIFO queue on values, with the two ways of adding to it, and what any
 run of its operations conserves (include/spdlog/details/mpmc_blocking_q.h). One
 operation is one locked section of the queue.
 */
module QueueSpec {

  datatype Removal<T> = Removal(item: T, delivered: bool)

  /** overruns: how many items were pushed out by newer ones. */
  datatype Queue<T> = Queue(capacity: nat, items: seq<T>, overruns: nat)
  {
    predicate Full() {
      |items| == capacity
    }

    predicate Bounded() {
      |items| <= capacity
    }

    /** push_back: the oldest item, possibly this one, leaves when there is no room. */
    function Push(x: T): Queue<T> {
      if |items| < capacity then this.(items := items + [x])
      else this.(items := (items + [x])[1..], overruns := overruns + 1)
    }

    function Pop(): Queue<T>
      requires items != []
    {
      this.(items := items[1..])
    }
  }

  datatype Op<T> = Enqueue(x: T) | EnqueueNowait(x: T) | Dequeue

  /** A queue together with everything that ever entered and left it. */
  datatype History<T> = History(queue: Queue<T>, enqueued: seq<T>, removed: seq<Removal<T>>)

  function Fresh<T>(capacity: nat): History<T>
  {
    History(Queue(capacity, [], 0), [], [])
  }

  /** A blocked enqueue, and a dequeue that times out on an empty queue, change nothing. */
  function Do<T>(h: History<T>, op: Op<T>): History<T>
  {
    match op
    case Enqueue(x) =>
      if h.queue.Full() then h else History(h.queue.Push(x), h.enqueued + [x], h.removed)
    case EnqueueNowait(x) =>
      if |h.queue.items| < h.queue.capacity then History(h.queue.Push(x), h.enqueued + [x], h.removed)
      else History(h.queue.Push(x), h.enqueued + [x], h.removed + [Removal((h.queue.items + [x])[0], false)])
    case Dequeue =>
      if h.queue.items == [] then h
      else History(h.queue.Pop(), h.enqueued, h.removed + [Removal(h.queue.items[0], true)])
  }

  function Run<T>(h: History<T>, ops: seq<Op<T>>): History<T>
  {
    if ops == [] then h else Do(Run(h, ops[..|ops| - 1]), ops[|ops| - 1])
  }

  function Items<T>(removed: seq<Removal<T>>): (s: seq<T>)
    ensures |s| == |removed|
  {
    if removed == [] then [] else Items(removed[..|removed| - 1]) + [removed[|removed| - 1].item]
  }

  function Lost<T>(removed: seq<Removal<T>>): nat
  {
    if removed == [] then 0
    else Lost(removed[..|removed| - 1]) + if removed[|removed| - 1].delivered then 0 else 1
  }

  lemma RemovedPush<T>(removed: seq<Removal<T>>, r: Removal<T>)
    ensures Items(removed + [r]) == Items(removed) + [r.item]
    ensures Lost(removed + [r]) == Lost(removed) + if r.delivered then 0 else 1
  {
    var s := removed + [r];
    assert s[..|s| - 1] == removed;
  }

  /** Nothing is lost, duplicated or reordered, and each overrun is counted once. */
  ghost predicate Conserved<T>(h: History<T>)
  {
    && Items(h.removed) + h.queue.items == h.enqueued
    && h.queue.overruns == Lost(h.removed)
    && h.queue.Bounded()
  }

  lemma DoConserves<T>(h: History<T>, op: Op<T>)
    requires Conserved(h)
    ensures Conserved(Do(h, op)) && Do(h, op).queue.capacity == h.queue.capacity
  {
    var h' := Do(h, op);
    if |h'.removed| > |h.removed| {
      var r := h'.removed[|h.removed|];
      RemovedPush(h.removed, r);
      match op
      case Dequeue =>
        assert h.queue.items == [r.item] + h'.queue.items;
      case EnqueueNowait(x) =>
        assert h.queue.items + [x] == [r.item] + h'.queue.items;
      case Enqueue(x) =>
    } else if h' != h {
      assert h'.queue.items == h.queue.items + [op.x];
    }
  }

  /** Over any run, what was removed followed by what is queued is what was enqueued. */
  lemma {:induction false} RunConserves<T>(capacity: nat, ops: seq<Op<T>>)
    ensures Conserved(Run(Fresh<T>(capacity), ops)) && Run(Fresh<T>(capacity), ops).queue.capacity == capacity
  {
    if ops != [] {
      RunConserves(capacity, ops[..|ops| - 1]);
      DoConserves(Run(Fresh<T>(capacity), ops[..|ops| - 1]), ops[|ops| - 1]);
    }
  }

  /** With blocking enqueues only nothing is overrun: what was delivered is a prefix of what was enqueued. */
  lemma {:induction false} BlockingIsLossless<T>(capacity: nat, ops: seq<Op<T>>)
    requires forall i :: 0 <= i < |ops| ==> !ops[i].EnqueueNowait?
    ensures var h := Run(Fresh<T>(capacity), ops);
      && h.queue.overruns == 0
      && Items(h.removed) <= h.enqueued
      && forall i :: 0 <= i < |h.removed| ==> h.removed[i].delivered
  {
    RunConserves(capacity, ops);
    if ops != [] {
      BlockingIsLossless(capacity, ops[..|ops| - 1]);
      RunConserves(capacity, ops[..|ops| - 1]);
    }
  }

  // ---- What runs deliver ---------------------------------------------------

  function Enqueues<T>(xs: seq<T>): (ops: seq<Op<T>>)
    ensures |ops| == |xs| && forall i :: 0 <= i < |xs| ==> ops[i] == Enqueue(xs[i])
  {
    seq(|xs|, i requires 0 <= i < |xs| => Enqueue(xs[i]))
  }

  function EnqueueNowaits<T>(xs: seq<T>): (ops: seq<Op<T>>)
    ensures |ops| == |xs| && forall i :: 0 <= i < |xs| ==> ops[i] == EnqueueNowait(xs[i])
  {
    seq(|xs|, i requires 0 <= i < |xs| => EnqueueNowait(xs[i]))
  }

  function Dequeues<T>(n: nat): (ops: seq<Op<T>>)
    ensures |ops| == n && forall i :: 0 <= i < n ==> ops[i] == Dequeue
  {
    seq(n, _ => Dequeue)
  }

  function Deliveries<T>(xs: seq<T>): (r: seq<Removal<T>>)
    ensures |r| == |xs| && forall i :: 0 <= i < |xs| ==> r[i] == Removal(xs[i], true)
  {
    seq(|xs|, i requires 0 <= i < |xs| => Removal(xs[i], true))
  }

  lemma {:induction false} RunConcat<T>(h: History<T>, a: seq<Op<T>>, b: seq<Op<T>>)
    ensures Run(h, a + b) == Run(Run(h, a), b)
  {
    if b == [] {
      assert a + b == a;
    } else {
      assert (a + b)[..|a + b| - 1] == a + b[..|b| - 1];
      RunConcat(h, a, b[..|b| - 1]);
    }
  }

  /** Blocking enqueues within the capacity all get in, in order, and remove nothing. */
  lemma {:induction false} FillsUp<T>(h: History<T>, xs: seq<T>)
    requires |h.queue.items| + |xs| <= h.queue.capacity
    ensures var r := Run(h, Enqueues(xs));
      && r.queue == Queue(h.queue.capacity, h.queue.items + xs, h.queue.overruns)
      && r.enqueued == h.enqueued + xs && r.removed == h.removed
  {
    if xs != [] {
      var n := |xs| - 1;
      assert Enqueues(xs)[..n] == Enqueues(xs[..n]);
      FillsUp(h, xs[..n]);
      assert xs == xs[..n] + [xs[n]];
    }
  }

  /** Dequeues deliver what is queued, oldest first. */
  lemma {:induction false} Drains<T>(h: History<T>, n: nat)
    requires n <= |h.queue.items|
    ensures var r := Run(h, Dequeues(n));
      && r.queue == Queue(h.queue.capacity, h.queue.items[n..], h.queue.overruns)
      && r.enqueued == h.enqueued && r.removed == h.removed + Deliveries(h.queue.items[..n])
  {
    if n > 0 {
      assert Dequeues<T>(n)[..n - 1] == Dequeues(n - 1);
      Drains(h, n - 1);
      assert h.queue.items[..n] == h.queue.items[..n - 1] + [h.queue.items[n - 1]];
    }
  }

  /** What fits is delivered: exactly the items enqueued, in order, and nothing stays. */
  lemma FilledAndDrained<T>(capacity: nat, xs: seq<T>)
    requires |xs| <= capacity
    ensures Run(Fresh<T>(capacity), Enqueues(xs) + Dequeues(|xs|))
         == History(Queue(capacity, [], 0), xs, Deliveries(xs))
  {
    var h := Run(Fresh<T>(capacity), Enqueues(xs));
    RunConcat(Fresh<T>(capacity), Enqueues(xs), Dequeues(|xs|));
    FillsUp(Fresh<T>(capacity), xs);
    assert h.queue.items == [] + xs == xs && h.enqueued == xs;
    Drains(h, |xs|);
    assert xs[..|xs|] == xs;
  }

  lemma NewestStep<T>(h: History<T>, capacity: nat, xs: seq<T>, n: nat)
    requires n < |xs| && h.enqueued == xs[..n]
    requires var lost := if n <= capacity then 0 else n - capacity;
      h.queue == Queue(capacity, xs[lost..n], lost)
    ensures var r := Do(h, EnqueueNowait(xs[n]));
      var lost := if n + 1 <= capacity then 0 else n + 1 - capacity;
      r.enqueued == xs[..n + 1] && r.queue == Queue(capacity, xs[lost..n + 1], lost)
  {
    var lost := if n <= capacity then 0 else n - capacity;
    assert xs[lost..n] + [xs[n]] == xs[lost..n + 1];
    assert xs[lost..n + 1][1..] == xs[lost + 1..n + 1];
  }

  /** Without waiting everything gets in, and the newest items stay. */
  lemma {:induction false} NewestStay<T>(capacity: nat, xs: seq<T>)
    ensures var r := Run(Fresh<T>(capacity), EnqueueNowaits(xs));
      var lost := if |xs| <= capacity then 0 else |xs| - capacity;
      r.enqueued == xs && r.queue == Queue(capacity, xs[lost..], lost)
  {
    hide Do;
    if xs != [] {
      var n := |xs| - 1;
      var h := Run(Fresh<T>(capacity), EnqueueNowaits(xs[..n]));
      assert EnqueueNowaits(xs)[..n] == EnqueueNowaits(xs[..n]);
      assert Run(Fresh<T>(capacity), EnqueueNowaits(xs)) == Do(h, EnqueueNowait(xs[n]));
      hide Run;
      NewestStay(capacity, xs[..n]);
      var lost := if n <= capacity then 0 else n - capacity;
      assert xs[..n][lost..] == xs[lost..n];
      NewestStep(h, capacity, xs, n);
      assert xs[..n + 1] == xs;
    }
  }
}
