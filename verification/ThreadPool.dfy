/**
 Producers, workers and the destructor of the logging thread pool around one
 bounded queue (include/spdlog/details/thread_pool-inl.h). Every locked section
 of the queue is one step; any interleaving of steps is a run.
 */
module ThreadPools {
  import opened QueueSpec

  datatype Msg = Log(id: nat) | Flush(id: nat) | Terminate

  /** A worker between two dequeues, with a dequeued message in hand, or out of its loop. */
  datatype Worker = Idle | Handling(msg: Msg) | Exited
  {
    /** Still needs to take a terminate message. */
    predicate Live() {
      this != Exited && this != Handling(Terminate)
    }
  }

  datatype Pool = Pool(
    history: History<Msg>,  // the queue, and all that entered and left it
    workers: seq<Worker>,
    terminatesTaken: seq<nat>,
    destroying: bool,
    unposted: nat,          // terminate messages the destructor still has to post
    processed: seq<Msg>)
  {
    const queue: Queue<Msg> := history.queue

    /** Everything the producers got into the queue, in order. */
    const posted: seq<Msg> := Payload(history.enqueued)

    /** What was pushed out of it before a worker came for it. */
    const overrun: seq<Msg> := Left(history.removed, false)

    /** What the workers took out of it, in order. */
    const taken: seq<Msg> := Left(history.removed, true)
  }

  /** All messages but the terminate messages. */
  function Payload(msgs: seq<Msg>): seq<Msg>
  {
    if msgs == [] then []
    else Payload(msgs[..|msgs| - 1]) + if msgs[|msgs| - 1] == Terminate then [] else [msgs[|msgs| - 1]]
  }

  /** The messages that left the queue by a dequeue, or by an overrun. */
  function Left(removed: seq<Removal<Msg>>, delivered: bool): seq<Msg>
  {
    if removed == [] then []
    else Left(removed[..|removed| - 1], delivered)
         + if removed[|removed| - 1].delivered == delivered then [removed[|removed| - 1].item] else []
  }

  /** The constructor rejects 0 and more than 1000 threads. */
  datatype Created = Ok(pool: Pool) | InvalidThreads

  function Create(maxItems: nat, threads: nat): Created
  {
    if threads == 0 || threads > 1000 then InvalidThreads
    else Ok(Pool(Fresh(maxItems), seq(threads, _ => Idle), seq(threads, _ => 0), false, 0, []))
  }

  datatype Step =
    | PostBlocking(msg: Msg)
    | PostOverrunning(msg: Msg)
    | StartDestroying
    | PostTerminate
    | Take(w: nat)
    | Handle(w: nat)
    | TimeOut(w: nat)

  /** Producers post nothing once the destructor runs; a blocked post is not enabled. */
  predicate Enabled(p: Pool, s: Step)
  {
    match s
    case PostBlocking(m) => !p.destroying && m != Terminate && |p.queue.items| < p.queue.capacity
    case PostOverrunning(m) => !p.destroying && m != Terminate
    case StartDestroying => !p.destroying
    case PostTerminate => p.destroying && p.unposted > 0 && |p.queue.items| < p.queue.capacity
    case Take(w) => w < |p.workers| == |p.terminatesTaken| && p.workers[w] == Idle && p.queue.items != []
    case Handle(w) => w < |p.workers| && p.workers[w].Handling?
    case TimeOut(w) => w < |p.workers| && p.workers[w] == Idle && p.queue.items == []
  }

  function Next(p: Pool, s: Step): Pool
    requires Enabled(p, s)
  {
    match s
    case PostBlocking(m) => p.(history := Do(p.history, Enqueue(m)))
    case PostOverrunning(m) => p.(history := Do(p.history, EnqueueNowait(m)))
    case StartDestroying => p.(destroying := true, unposted := |p.workers|)
    case PostTerminate => p.(history := Do(p.history, Enqueue(Terminate)), unposted := p.unposted - 1)
    case Take(w) =>
      var m := p.queue.items[0];
      p.(history := Do(p.history, Dequeue), workers := p.workers[w := Handling(m)],
         terminatesTaken := if m == Terminate then p.terminatesTaken[w := p.terminatesTaken[w] + 1]
                            else p.terminatesTaken)
    case Handle(w) =>
      var m := p.workers[w].msg;
      if m == Terminate then p.(workers := p.workers[w := Exited])
      else p.(workers := p.workers[w := Idle], processed := p.processed + [m])
    case TimeOut(w) => p
  }

  ghost predicate IsRun(p: Pool, steps: seq<Step>, p': Pool)
    decreases |steps|
  {
    if steps == [] then p == p'
    else Enabled(p, steps[0]) && IsRun(Next(p, steps[0]), steps[1..], p')
  }

  // ---- Counting ------------------------------------------------------------

  function Terminates(items: seq<Msg>): nat
  {
    if items == [] then 0 else (if items[0] == Terminate then 1 else 0) + Terminates(items[1..])
  }

  function LiveWorkers(workers: seq<Worker>): nat
  {
    if workers == [] then 0 else (if workers[0].Live() then 1 else 0) + LiveWorkers(workers[1..])
  }

  /** How many workers have message m in hand. */
  function InHand(workers: seq<Worker>, m: Msg): nat
  {
    if workers == [] then 0 else (if workers[0] == Handling(m) then 1 else 0) + InHand(workers[1..], m)
  }

  function Busy(workers: seq<Worker>): nat
  {
    if workers == [] then 0 else (if workers[0].Handling? then 1 else 0) + Busy(workers[1..])
  }

  predicate NoPayload(items: seq<Msg>)
  {
    forall i :: 0 <= i < |items| ==> items[i] == Terminate
  }

  lemma {:induction false} TerminatesConcat(a: seq<Msg>, b: seq<Msg>)
    ensures Terminates(a + b) == Terminates(a) + Terminates(b)
  {
    if a == [] {
      assert a + b == b;
    } else {
      assert (a + b)[1..] == a[1..] + b;
      TerminatesConcat(a[1..], b);
    }
  }

  lemma {:induction false} TerminatesNone(items: seq<Msg>)
    ensures Terminates(items) == 0 <==> Terminate !in items
    ensures Terminates(items) <= |items|
  {
    if items != [] {
      TerminatesNone(items[1..]);
      assert items == [items[0]] + items[1..];
    }
  }

  /** What replacing one worker does to the three counts. */
  lemma {:induction false} WorkerChange(ws: seq<Worker>, w: nat, x: Worker)
    requires w < |ws|
    ensures LiveWorkers(ws[w := x]) - (if x.Live() then 1 else 0) == LiveWorkers(ws) - (if ws[w].Live() then 1 else 0)
    ensures Busy(ws[w := x]) - (if x.Handling? then 1 else 0) == Busy(ws) - (if ws[w].Handling? then 1 else 0)
  {
    var t := ws[w := x];
    if w == 0 {
      assert t[1..] == ws[1..];
    } else {
      WorkerChange(ws[1..], w - 1, x);
      assert t[1..] == ws[1..][w - 1 := x];
    }
  }

  lemma {:induction false} HandChange(ws: seq<Worker>, w: nat, x: Worker, m: Msg)
    requires w < |ws|
    ensures InHand(ws[w := x], m) - (if x == Handling(m) then 1 else 0)
         == InHand(ws, m) - (if ws[w] == Handling(m) then 1 else 0)
  {
    var t := ws[w := x];
    if w == 0 {
      assert t[1..] == ws[1..];
    } else {
      HandChange(ws[1..], w - 1, x, m);
      assert t[1..] == ws[1..][w - 1 := x];
    }
  }

  lemma {:induction false} SomeLive(ws: seq<Worker>)
    ensures LiveWorkers(ws) == 0 <==> forall w :: 0 <= w < |ws| ==> !ws[w].Live()
    ensures Busy(ws) == 0 <==> forall w :: 0 <= w < |ws| ==> !ws[w].Handling?
    ensures LiveWorkers(ws) <= |ws|
  {
    if ws != [] {
      SomeLive(ws[1..]);
      assert forall w :: 0 <= w < |ws| - 1 ==> ws[1..][w] == ws[w + 1];
      assert forall w :: 0 < w < |ws| ==> ws[w] == ws[1..][w - 1];
    }
  }

  lemma {:induction false} AllLive(ws: seq<Worker>)
    requires forall w :: 0 <= w < |ws| ==> ws[w].Live()
    ensures LiveWorkers(ws) == |ws|
  {
    if ws != [] {
      AllLive(ws[1..]);
    }
  }

  lemma {:induction false} NothingInHand(ws: seq<Worker>, m: Msg)
    requires forall w :: 0 <= w < |ws| ==> !ws[w].Handling?
    ensures InHand(ws, m) == 0
  {
    if ws != [] {
      NothingInHand(ws[1..], m);
    }
  }

  // ---- What a step does to the queue ---------------------------------------

  lemma PayloadPush(msgs: seq<Msg>, m: Msg)
    ensures Payload(msgs + [m]) == Payload(msgs) + if m == Terminate then [] else [m]
  {
    assert (msgs + [m])[..|msgs|] == msgs;
  }

  lemma PayloadOne(m: Msg)
    ensures Payload([m]) == if m == Terminate then [] else [m]
  {
    assert [] + [m] == [m];
    PayloadPush([], m);
  }

  lemma {:induction false} PayloadConcat(a: seq<Msg>, b: seq<Msg>)
    ensures Payload(a + b) == Payload(a) + Payload(b)
  {
    if b == [] {
      assert a + b == a;
    } else {
      var n := |b| - 1;
      PayloadConcat(a, b[..n]);
      assert a + b == (a + b[..n]) + [b[n]] && b == b[..n] + [b[n]];
      PayloadPush(a + b[..n], b[n]);
    }
  }

  lemma LeftPush(removed: seq<Removal<Msg>>, r: Removal<Msg>, delivered: bool)
    ensures Left(removed + [r], delivered)
         == Left(removed, delivered) + if r.delivered == delivered then [r.item] else []
  {
    assert (removed + [r])[..|removed|] == removed;
  }

  lemma BlockingEffect(p: Pool, m: Msg)
    requires |p.queue.items| < p.queue.capacity
    ensures var h := Do(p.history, Enqueue(m));
      && h.queue == p.queue.Push(m) && h.queue.items == p.queue.items + [m]
      && Payload(h.enqueued) == p.posted + (if m == Terminate then [] else [m]) && h.removed == p.history.removed
  {
    PayloadPush(p.history.enqueued, m);
  }

  lemma OverrunningEffect(p: Pool, m: Msg)
    requires m != Terminate
    ensures var h := Do(p.history, EnqueueNowait(m));
      && h.queue == p.queue.Push(m) && Payload(h.enqueued) == p.posted + [m] && Left(h.removed, true) == p.taken
      && Left(h.removed, false)
         == p.overrun + if |p.queue.items| < p.queue.capacity then [] else [(p.queue.items + [m])[0]]
  {
    PayloadPush(p.history.enqueued, m);
    LeftPush(p.history.removed, Removal((p.queue.items + [m])[0], false), true);
    LeftPush(p.history.removed, Removal((p.queue.items + [m])[0], false), false);
  }

  lemma TakeEffect(p: Pool)
    requires p.queue.items != []
    ensures var h := Do(p.history, Dequeue);
      && h.queue == p.queue.Pop() && h.enqueued == p.history.enqueued
      && Left(h.removed, true) == p.taken + [p.queue.items[0]] && Left(h.removed, false) == p.overrun
  {
    LeftPush(p.history.removed, Removal(p.queue.items[0], true), true);
    LeftPush(p.history.removed, Removal(p.queue.items[0], true), false);
  }

  // ---- The invariant -------------------------------------------------------

  /** Terminate messages come last. */
  ghost predicate TerminatesLast(items: seq<Msg>)
  {
    forall i, j :: 0 <= i < j < |items| && items[i] == Terminate ==> items[j] == Terminate
  }

  ghost predicate Shape(p: Pool)
  {
    && |p.workers| == |p.terminatesTaken| > 0
    && p.queue.Bounded()
    && TerminatesLast(p.queue.items)
    && Terminate !in p.posted && Terminate !in p.overrun && Terminate !in p.processed
    // No terminate message before destruction; afterwards one for every live worker.
    && (!p.destroying ==> Terminate !in p.queue.items && p.unposted == 0
                          && forall w :: 0 <= w < |p.workers| ==> p.workers[w].Live())
    && (p.destroying ==> LiveWorkers(p.workers) == Terminates(p.queue.items) + p.unposted)
    // A worker that has taken a terminate message left no other message behind it.
    && (forall w :: 0 <= w < |p.workers| && !p.workers[w].Live() ==> NoPayload(p.queue.items))
    && (forall w :: 0 <= w < |p.workers| ==> p.terminatesTaken[w] == if p.workers[w].Live() then 0 else 1)
  }

  /** Every copy of m that was posted is in exactly one place. */
  ghost predicate Accounted(p: Pool, m: Msg)
  {
    multiset(p.posted)[m]
      == multiset(p.processed)[m] + InHand(p.workers, m) + multiset(p.queue.items)[m] + multiset(p.overrun)[m]
  }

  ghost predicate Inv(p: Pool)
  {
    Shape(p) && forall m :: m != Terminate ==> Accounted(p, m)
  }

  lemma CreateInv(maxItems: nat, threads: nat)
    ensures Create(maxItems, threads) == InvalidThreads <==> !(1 <= threads <= 1000)
    ensures Create(maxItems, threads).Ok? ==> Inv(Create(maxItems, threads).pool)
  {
    if 1 <= threads <= 1000 {
      var p := Create(maxItems, threads).pool;
      forall m
        ensures Accounted(p, m)
      {
        NothingInHand(p.workers, m);
      }
    }
  }

  // ---- Every step keeps the invariant --------------------------------------

  lemma CountPush(items: seq<Msg>, x: Msg, m: Msg)
    ensures multiset(items + [x])[m] == multiset(items)[m] + if x == m then 1 else 0
  {}

  lemma CountPop(items: seq<Msg>, m: Msg)
    requires items != []
    ensures multiset(items)[m] == multiset(items[1..])[m] + if items[0] == m then 1 else 0
  {
    assert items == [items[0]] + items[1..];
  }

  lemma BlockingAccounts(p: Pool, x: Msg, m: Msg)
    requires Accounted(p, m) && m != Terminate && |p.queue.items| < p.queue.capacity
    ensures Accounted(p.(history := Do(p.history, Enqueue(x))), m)
  {
    hide Do, Payload, Left, InHand;
    BlockingEffect(p, x);
    CountPush(p.queue.items, x, m);
    CountPush(p.posted, x, m);
  }

  lemma OverrunningAccounts(p: Pool, x: Msg, m: Msg)
    requires Accounted(p, m) && x != Terminate
    ensures Accounted(p.(history := Do(p.history, EnqueueNowait(x))), m)
  {
    hide Do, Payload, Left, InHand;
    OverrunningEffect(p, x);
    var longer := p.queue.items + [x];
    CountPush(p.queue.items, x, m);
    CountPush(p.posted, x, m);
    CountPop(longer, m);
    CountPush(p.overrun, longer[0], m);
  }

  lemma TakeAccounts(p: Pool, w: nat, m: Msg)
    requires Accounted(p, m) && Enabled(p, Take(w))
    ensures Accounted(Next(p, Take(w)), m)
  {
    hide Do, Payload, Left, InHand;
    TakeEffect(p);
    CountPop(p.queue.items, m);
    HandChange(p.workers, w, Handling(p.queue.items[0]), m);
  }

  lemma HandleAccounts(p: Pool, w: nat, m: Msg)
    requires Accounted(p, m) && m != Terminate && Enabled(p, Handle(w))
    ensures Accounted(Next(p, Handle(w)), m)
  {
    hide Do, Payload, Left, InHand;
    CountPush(p.processed, p.workers[w].msg, m);
    HandChange(p.workers, w, Next(p, Handle(w)).workers[w], m);
  }

  lemma StepAccounts(p: Pool, s: Step, m: Msg)
    requires Accounted(p, m) && m != Terminate && Enabled(p, s)
    ensures Accounted(Next(p, s), m)
  {
    hide Do, Payload, Left;
    match s
    case PostBlocking(x) => BlockingAccounts(p, x, m);
    case PostOverrunning(x) => OverrunningAccounts(p, x, m);
    case StartDestroying =>
    case PostTerminate => BlockingAccounts(p, Terminate, m);
    case Take(w) => TakeAccounts(p, w, m);
    case Handle(w) => HandleAccounts(p, w, m);
    case TimeOut(w) =>
  }

  lemma PostKeepsShape(p: Pool, s: Step)
    requires Shape(p) && Enabled(p, s) && (s.PostBlocking? || s.PostOverrunning?)
    ensures Shape(Next(p, s))
  {
    hide Do, Payload, Left, LiveWorkers, Terminates;
    PushNoTerminate(p.queue, s.msg);
    if s.PostBlocking? {
      BlockingEffect(p, s.msg);
    } else {
      OverrunningEffect(p, s.msg);
    }
  }

  lemma PushNoTerminate(q: Queue<Msg>, m: Msg)
    requires Terminate !in q.items && m != Terminate && q.Bounded()
    ensures var r := q.Push(m);
      Terminate !in r.items && TerminatesLast(r.items) && r.Bounded() && (q.items + [m])[0] != Terminate
  {
    assert Terminate !in q.items + [m];
  }

  lemma StartKeepsShape(p: Pool)
    requires Shape(p) && !p.destroying
    ensures Shape(Next(p, StartDestroying))
  {
    hide Do, Payload, Left;
    AllLive(p.workers);
    TerminatesNone(p.queue.items);
  }

  lemma PostTerminateKeepsShape(p: Pool)
    requires Shape(p) && Enabled(p, PostTerminate)
    ensures Shape(Next(p, PostTerminate))
  {
    hide Do, Payload, Left;
    BlockingEffect(p, Terminate);
    TerminatesConcat(p.queue.items, [Terminate]);
    TerminatesNone([Terminate]);
  }

  lemma TakeKeepsShape(p: Pool, w: nat)
    requires Shape(p) && Enabled(p, Take(w))
    ensures Shape(Next(p, Take(w)))
  {
    hide Do, Payload, Left;
    TakeEffect(p);
    var items, m := p.queue.items, p.queue.items[0];
    TerminatesNone(items);
    WorkerChange(p.workers, w, Handling(m));
    assert forall i :: 0 <= i < |items| - 1 ==> items[1..][i] == items[i + 1];
  }

  lemma HandleKeepsShape(p: Pool, w: nat)
    requires Shape(p) && Enabled(p, Handle(w))
    ensures Shape(Next(p, Handle(w)))
  {
    hide Do, Payload, Left;
    WorkerChange(p.workers, w, Next(p, Handle(w)).workers[w]);
  }

  lemma StepKeepsInv(p: Pool, s: Step)
    requires Inv(p) && Enabled(p, s)
    ensures Inv(Next(p, s))
  {
    forall m | m != Terminate
      ensures Accounted(Next(p, s), m)
    {
      assert Accounted(p, m);
      StepAccounts(p, s, m);
    }
    match s
    case PostBlocking(m) => PostKeepsShape(p, s);
    case PostOverrunning(m) => PostKeepsShape(p, s);
    case StartDestroying => StartKeepsShape(p);
    case PostTerminate => PostTerminateKeepsShape(p);
    case Take(w) => TakeKeepsShape(p, w);
    case Handle(w) => HandleKeepsShape(p, w);
    case TimeOut(w) =>
  }

  lemma {:induction false} RunKeepsInv(p: Pool, steps: seq<Step>, p': Pool)
    requires Inv(p) && IsRun(p, steps, p')
    ensures Inv(p')
    decreases |steps|
  {
    if steps != [] {
      StepKeepsInv(p, steps[0]);
      RunKeepsInv(Next(p, steps[0]), steps[1..], p');
    }
  }

  // ---- Order ---------------------------------------------------------------

  /** On every run, what left the queue followed by what is in it is what entered it, in this order. */
  lemma {:induction false} RunConservesOrder(p: Pool, steps: seq<Step>, p': Pool)
    requires Conserved(p.history) && IsRun(p, steps, p')
    ensures Conserved(p'.history)
    decreases |steps|
  {
    if steps != [] {
      StepConserves(p, steps[0]);
      RunConservesOrder(Next(p, steps[0]), steps[1..], p');
    }
  }

  lemma StepConserves(p: Pool, s: Step)
    requires Conserved(p.history) && Enabled(p, s)
    ensures Conserved(Next(p, s).history)
  {
    match s
    case PostBlocking(m) => DoConserves(p.history, Enqueue(m));
    case PostOverrunning(m) => DoConserves(p.history, EnqueueNowait(m));
    case PostTerminate => DoConserves(p.history, Enqueue(Terminate));
    case Take(w) => DoConserves(p.history, Dequeue);
    case _ =>
  }

  lemma {:induction false} NothingOverrun(removed: seq<Removal<Msg>>)
    ensures Left(removed, false) == [] ==> Left(removed, true) == Items(removed)
  {
    if removed != [] {
      NothingOverrun(removed[..|removed| - 1]);
    }
  }

  /** The workers take messages in the order in which they were posted, less those overrun. */
  lemma TakenInOrder(maxItems: nat, threads: nat, steps: seq<Step>, p: Pool)
    requires Create(maxItems, threads).Ok? && IsRun(Create(maxItems, threads).pool, steps, p)
    ensures Payload(Items(p.history.removed)) + Payload(p.queue.items) == p.posted
    ensures (forall i :: 0 <= i < |steps| ==> !steps[i].PostOverrunning?) ==>
      Payload(p.taken) + Payload(p.queue.items) == p.posted
  {
    RunConservesOrder(Create(maxItems, threads).pool, steps, p);
    RunKeepsWorkers(Create(maxItems, threads).pool, steps, p);
    PayloadConcat(Items(p.history.removed), p.queue.items);
    NothingOverrun(p.history.removed);
  }

  /** The message a worker has in hand, unless it is to terminate. */
  function Carried(w: Worker): seq<Msg>
  {
    if w.Handling? then Payload([w.msg]) else []
  }

  lemma {:induction false} OneWorkerKeepsOrder(p: Pool, steps: seq<Step>, p': Pool)
    requires |p.workers| == 1 && IsRun(p, steps, p')
    requires p.processed + Carried(p.workers[0]) == Payload(p.taken)
    ensures |p'.workers| == 1 && p'.processed + Carried(p'.workers[0]) == Payload(p'.taken)
    decreases |steps|
  {
    if steps != [] {
      OneWorkerStep(p, steps[0]);
      OneWorkerKeepsOrder(Next(p, steps[0]), steps[1..], p');
    }
  }

  lemma OneWorkerStep(p: Pool, s: Step)
    requires |p.workers| == 1 && Enabled(p, s) && p.processed + Carried(p.workers[0]) == Payload(p.taken)
    ensures var p' := Next(p, s);
      |p'.workers| == 1 && p'.processed + Carried(p'.workers[0]) == Payload(p'.taken)
  {
    hide Do, Payload, Left;
    match s
    case PostBlocking(m) => BlockingEffect(p, m);
    case PostOverrunning(m) => OverrunningEffect(p, m);
    case PostTerminate => BlockingEffect(p, Terminate);
    case Take(w) =>
      TakeEffect(p);
      PayloadPush(p.taken, p.queue.items[0]);
      PayloadOne(p.queue.items[0]);
      assert p.workers[0 := Handling(p.queue.items[0])][0] == Handling(p.queue.items[0]);
    case Handle(w) => PayloadOne(p.workers[0].msg);
    case _ =>
  }

  /**
   A pool of one thread processes messages in the order in which they were
   posted: what it has processed, has in hand and still finds in the queue is
   what was posted, as a sequence, if nothing was overrun.
   */
  lemma OneWorkerInOrder(maxItems: nat, steps: seq<Step>, p: Pool)
    requires IsRun(Create(maxItems, 1).pool, steps, p)
    ensures |p.workers| == 1 && p.processed + Carried(p.workers[0]) == Payload(p.taken)
    ensures (forall i :: 0 <= i < |steps| ==> !steps[i].PostOverrunning?) ==>
      p.processed + Carried(p.workers[0]) + Payload(p.queue.items) == p.posted
  {
    OneWorkerKeepsOrder(Create(maxItems, 1).pool, steps, p);
    TakenInOrder(maxItems, 1, steps, p);
  }

  // ---- Service -------------------------------------------------------------

  /** Everything posted is processed, and all workers wait. */
  ghost predicate Quiet(p: Pool, msgs: seq<Msg>)
  {
    && !p.destroying && p.queue.items == [] && p.processed == msgs == p.posted
    && |p.workers| == |p.terminatesTaken| > 0
    && forall w :: 0 <= w < |p.workers| ==> p.workers[w] == Idle
  }

  lemma OneStep(p: Pool, s: Step)
    requires Enabled(p, s)
    ensures IsRun(p, [s], Next(p, s))
  {
    assert [s][1..] == [];
  }

  lemma ServeOne(p: Pool, msgs: seq<Msg>, m: Msg) returns (steps: seq<Step>, p': Pool)
    requires Quiet(p, msgs) && p.queue.capacity > 0 && m != Terminate
    ensures IsRun(p, steps, p') && Quiet(p', msgs + [m]) && p'.queue.capacity == p.queue.capacity
  {
    BlockingEffect(p, m);
    var p1 := Next(p, PostBlocking(m));
    var p2 := Next(p1, Take(0));
    p' := Next(p2, Handle(0));
    steps := [PostBlocking(m), Take(0), Handle(0)];
    OneStep(p2, Handle(0));
    assert [Take(0), Handle(0)][1..] == [Handle(0)];
    assert steps[1..] == [Take(0), Handle(0)];
  }

  lemma {:induction false} RunsCompose(p: Pool, a: seq<Step>, q: Pool, b: seq<Step>, r: Pool)
    requires IsRun(p, a, q) && IsRun(q, b, r)
    ensures IsRun(p, a + b, r)
    decreases |a|
  {
    if a == [] {
      assert a + b == b;
    } else {
      assert (a + b)[1..] == a[1..] + b;
      RunsCompose(Next(p, a[0]), a[1..], q, b, r);
    }
  }

  /** A pool with room for one message can serve any messages, one after the other. */
  lemma {:induction false} ServeAll(maxItems: nat, threads: nat, msgs: seq<Msg>) returns (steps: seq<Step>, p: Pool)
    requires maxItems > 0 && 1 <= threads <= 1000 && Terminate !in msgs
    ensures IsRun(Create(maxItems, threads).pool, steps, p) && Quiet(p, msgs) && p.queue.capacity == maxItems
  {
    if msgs == [] {
      steps, p := [], Create(maxItems, threads).pool;
    } else {
      var n := |msgs| - 1;
      var a, q := ServeAll(maxItems, threads, msgs[..n]);
      var b;
      b, p := ServeOne(q, msgs[..n], msgs[n]);
      steps := a + b;
      RunsCompose(Create(maxItems, threads).pool, a, q, b, p);
      assert msgs == msgs[..n] + [msgs[n]];
    }
  }

  // ---- Shutdown ------------------------------------------------------------

  /** All workers have left their loops, so every join returns. */
  predicate AllExited(p: Pool)
  {
    forall w :: 0 <= w < |p.workers| ==> p.workers[w] == Exited
  }

  /**
   When the joins are over, in whatever order things happened: the queue is
   empty, each worker took exactly one terminate message, and every message
   posted was processed once, or overrun before the shutdown.
   */
  lemma JoinedMeansDone(maxItems: nat, threads: nat, steps: seq<Step>, p: Pool)
    requires Create(maxItems, threads).Ok? && IsRun(Create(maxItems, threads).pool, steps, p)
    requires p.destroying && AllExited(p)
    ensures p.queue.items == [] && p.unposted == 0
    ensures forall w :: 0 <= w < threads ==> w < |p.terminatesTaken| && p.terminatesTaken[w] == 1
    ensures multiset(p.posted) == multiset(p.processed) + multiset(p.overrun)
    ensures (forall i :: 0 <= i < |steps| ==> !steps[i].PostOverrunning?) ==>
      multiset(p.posted) == multiset(p.processed)
  {
    assert Create(maxItems, threads).pool.overrun == [];
    hide Do, Payload, Left, InHand, LiveWorkers, Terminates, IsRun, TerminatesLast;
    CreateInv(maxItems, threads);
    RunKeepsInv(Create(maxItems, threads).pool, steps, p);
    RunKeepsWorkers(Create(maxItems, threads).pool, steps, p);
    SomeLive(p.workers);
    assert !p.workers[0].Live();
    TerminatesNone(p.queue.items);
    AllAccounted(p);
  }

  lemma AllAccounted(p: Pool)
    requires Inv(p) && AllExited(p) && p.queue.items == []
    ensures multiset(p.posted) == multiset(p.processed) + multiset(p.overrun)
  {
    hide Payload, Left, InHand, LiveWorkers, Terminates, TerminatesLast;
    forall m
      ensures multiset(p.posted)[m] == multiset(p.processed)[m] + multiset(p.overrun)[m]
    {
      NothingInHand(p.workers, m);
      assert m != Terminate ==> Accounted(p, m);
    }
  }

  /** The number of workers never changes, and only overrunning posts overrun. */
  lemma {:induction false} RunKeepsWorkers(p: Pool, steps: seq<Step>, p': Pool)
    requires IsRun(p, steps, p')
    ensures |p'.workers| == |p.workers| && |p'.terminatesTaken| == |p.terminatesTaken|
    ensures p'.queue.capacity == p.queue.capacity
    ensures (forall i :: 0 <= i < |steps| ==> !steps[i].PostOverrunning?) ==> p'.overrun == p.overrun
    decreases |steps|
  {
    if steps != [] {
      RunKeepsWorkers(Next(p, steps[0]), steps[1..], p');
      assert forall i :: 0 <= i < |steps| - 1 ==> steps[1..][i] == steps[i + 1];
    }
  }

  /** From the destructor's start on nothing is posted or overrun any more. */
  lemma {:induction false} ShutdownIsClosed(p: Pool, steps: seq<Step>, p': Pool)
    requires IsRun(p, steps, p') && p.destroying
    ensures p'.destroying && p'.posted == p.posted && p'.overrun == p.overrun
    decreases |steps|
  {
    if steps != [] {
      ShutdownIsClosed(Next(p, steps[0]), steps[1..], p');
    }
  }

  /**
   Whatever is queued or in hand at some point of the shutdown has been
   processed by the end of it, and exactly as often as it was there.
   */
  lemma QueuedIsProcessed(p: Pool, steps: seq<Step>, p': Pool, m: Msg)
    requires Inv(p) && p.destroying && IsRun(p, steps, p') && AllExited(p') && m != Terminate
    ensures multiset(p'.processed)[m] == multiset(p.processed)[m] + InHand(p.workers, m) + multiset(p.queue.items)[m]
  {
    RunKeepsInv(p, steps, p');
    ShutdownIsClosed(p, steps, p');
    SomeLive(p'.workers);
    assert !p'.workers[0].Live();
    TerminatesNone(p'.queue.items);
    NothingInHand(p'.workers, m);
    assert Accounted(p, m) && Accounted(p', m);
  }

  // ---- Shutdown ends -------------------------------------------------------

  /** The work left: it bounds how many more steps other than time-outs there can be. */
  function Rank(p: Pool): nat
  {
    3 * p.unposted + 2 * |p.queue.items| + Busy(p.workers)
  }

  lemma RankDecreases(p: Pool, s: Step)
    requires p.destroying && Enabled(p, s)
    ensures s.TimeOut? ==> Next(p, s) == p
    ensures !s.TimeOut? ==> Rank(Next(p, s)) == Rank(p) - 1
  {
    hide Do, Payload, Left;
    match s
    case PostTerminate => BlockingEffect(p, Terminate);
    case Take(w) =>
      TakeEffect(p);
      WorkerChange(p.workers, w, Handling(p.queue.items[0]));
    case Handle(w) => WorkerChange(p.workers, w, Next(p, s).workers[w]);
    case _ =>
  }

  /** A step that is not a time-out can be taken. */
  ghost predicate CanProgress(p: Pool)
  {
    exists s: Step :: !s.TimeOut? && Enabled(p, s)
  }

  /** While some worker is left, shutdown can go on exactly if the queue has room for a message at all. */
  lemma ProgressIff(p: Pool)
    requires Inv(p) && p.destroying && !AllExited(p)
    ensures CanProgress(p) <==> p.queue.capacity >= 1 || exists w :: 0 <= w < |p.workers| && p.workers[w].Handling?
  {
    var w :| 0 <= w < |p.workers| && p.workers[w] != Exited;
    SomeLive(p.workers);
    TerminatesNone(p.queue.items);
    if v :| 0 <= v < |p.workers| && p.workers[v].Handling? {
      assert Enabled(p, Handle(v));
    } else {
      assert p.workers[w] == Idle;
      if p.queue.items != [] {
        assert Enabled(p, Take(w));
      } else if p.queue.capacity >= 1 {
        assert Enabled(p, PostTerminate);
      }
    }
  }

  /** With a queue of at least one message, shutdown always can be completed, within Rank steps. */
  lemma {:induction false} ShutdownCompletes(p: Pool) returns (steps: seq<Step>, p': Pool)
    requires Inv(p) && p.destroying && p.queue.capacity >= 1
    ensures IsRun(p, steps, p') && AllExited(p') && |steps| <= Rank(p)
    decreases Rank(p)
  {
    if AllExited(p) {
      return [], p;
    }
    ProgressIff(p);
    var s: Step :| !s.TimeOut? && Enabled(p, s);
    StepKeepsInv(p, s);
    RankDecreases(p, s);
    var rest;
    rest, p' := ShutdownCompletes(Next(p, s));
    steps := [s] + rest;
    assert steps[1..] == rest;
  }

  /** No schedule can avoid it: a run has at most Rank steps that are not time-outs. */
  lemma {:induction false} ShutdownIsBounded(p: Pool, steps: seq<Step>, p': Pool)
    requires IsRun(p, steps, p') && p.destroying
    ensures Working(steps) + Rank(p') == Rank(p)
    decreases |steps|
  {
    if steps != [] {
      RankDecreases(p, steps[0]);
      ShutdownIsBounded(Next(p, steps[0]), steps[1..], p');
    }
  }

  /** The steps that are not time-outs. */
  function Working(steps: seq<Step>): nat
  {
    if steps == [] then 0 else (if steps[0].TimeOut? then 0 else 1) + Working(steps[1..])
  }

  /** With a queue of capacity 0 the destructor blocks on its first post for ever. */
  lemma {:induction false} NoRoomNoShutdown(p: Pool, steps: seq<Step>, p': Pool)
    requires Inv(p) && p.destroying && p.queue.capacity == 0 && p.unposted > 0
    requires IsRun(p, steps, p')
    ensures p'.unposted == p.unposted && !AllExited(p')
    decreases |steps|
  {
    if steps == [] {
      SomeLive(p.workers);
      TerminatesNone(p.queue.items);
    } else {
      StepKeepsInv(p, steps[0]);
      NoRoomNoShutdown(Next(p, steps[0]), steps[1..], p');
    }
  }
}
