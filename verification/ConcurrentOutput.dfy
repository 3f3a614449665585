/**
 AddMetric and Write running concurrently (agent.go flusher, running_output.go): one thread
 adds metrics, any number of threads flush. Each Buffer call holds the buffer's lock and is
 one atomic step; everything between two such calls can interleave.
 */
module ConcurrentOutput {
  import opened RingBuffer
  import opened RunningOutputs
  import Laws = RunningOutputLaws

  /** Where a thread goes once its batch is settled. */
  datatype Next = ToIdle | ToLoop(left: nat) | ToFresh

  datatype Pc<T> =
    | Idle
    | CheckLen                                     // AddMetric: the metric is in the buffer
    | TakeFull                                     // AddMetric: Len was the batch size
    | Counted(nFails: nat)                         // Write: failMetrics.Len was read
    | Loop(left: nat, ok: bool)                    // Write: before the next failMetrics.Batch
    | Fresh(ok: bool)                              // Write: before metrics.Batch
    | Settling(batch: seq<T>, ok: bool, next: Next)  // before Output.Write
    | Returning(batch: seq<T>, next: Next)         // before failMetrics.Add
  {
    function Held(): seq<T> {
      if Settling? || Returning? then batch else []
    }
  }

  datatype System<T> = System(s: State<T>, adder: Pc<T>, writers: seq<Pc<T>>)

  datatype Action<T> =
    | Arrive(m: T)                   // the adder starts AddMetric
    | AdderStep(ok: bool)            // ok: the result of Output.Write, if this step calls it
    | StartFlush(i: nat)
    | WriterStep(i: nat, ok: bool)

  function Resume<T>(next: Next, ok: bool): Pc<T> {
    match next
    case ToIdle => Idle
    case ToLoop(left) => Loop(left, ok)
    case ToFresh => Fresh(ok)
  }

  /** One atomic step of a thread that is not idle. */
  function Advance<T>(s: State<T>, pc: Pc<T>, ok: bool): (State<T>, Pc<T>)
    requires s.Valid()
  {
    var size := s.queued.size;
    match pc
    case Idle => (s, Idle)
    case CheckLen => (s, if |s.queued.items| == size then TakeFull else Idle)
    case TakeFull => (TakeFresh(s), Settling(s.queued.Batched(size), true, ToIdle))
    case Counted(n) => (s, if s.failed.items == [] then Fresh(true) else Loop(n, true))
    case Loop(left, ok0) =>
      (TakeFailed(s, Min(left, size)),
       Settling(s.failed.Batched(Min(left, size)), ok0, if left < size then ToFresh else ToLoop(left - size)))
    case Fresh(ok0) => (TakeFresh(s), Settling(s.queued.Batched(size), ok0, ToIdle))
    case Settling(batch, ok0, next) =>
      if !ok0 then (s, Returning(batch, next))
      else
        var (s1, ok1) := Attempt(s, batch, k => ok);
        (s1, if ok1 then Resume(next, true) else Returning(batch, next))
    case Returning(batch, next) => (PutBack(s, batch), Resume(next, false))
  }

  predicate Enabled<T>(x: System<T>, a: Action<T>) {
    match a
    case Arrive(_) => x.adder.Idle?
    case AdderStep(_) => !x.adder.Idle?
    case StartFlush(i) => i < |x.writers| && x.writers[i].Idle?
    case WriterStep(i, _) => i < |x.writers| && !x.writers[i].Idle?
  }

  function Step<T>(x: System<T>, a: Action<T>): System<T>
    requires x.s.Valid() && Enabled(x, a)
  {
    match a
    case Arrive(m) => x.(s := Arrived(x.s, m), adder := CheckLen)
    case AdderStep(ok) =>
      var (s, pc) := Advance(x.s, x.adder, ok);
      x.(s := s, adder := pc)
    case StartFlush(i) => x.(writers := x.writers[i := Counted(|x.s.failed.items|)])
    case WriterStep(i, ok) =>
      var (s, pc) := Advance(x.s, x.writers[i], ok);
      x.(s := s, writers := x.writers[i := pc])
  }

  ghost function HeldBy<T>(ws: seq<Pc<T>>): multiset<T> {
    if ws == [] then multiset{} else multiset(ws[0].Held()) + HeldBy(ws[1..])
  }

  /** Every metric in the system, including the batches threads are holding. */
  ghost function Everything<T>(x: System<T>): multiset<T> {
    Laws.Total(x.s) + multiset(x.adder.Held()) + HeldBy(x.writers)
  }

  /** The adder only ever runs AddMetric, and the fresh buffer is full only inside it. */
  ghost predicate Inv<T>(x: System<T>) {
    && x.s.Valid()
    && (match x.adder
        case Idle => |x.s.queued.items| < x.s.queued.size
        case CheckLen | TakeFull => true
        case Settling(_, _, next) => next == ToIdle && |x.s.queued.items| < x.s.queued.size
        case Returning(_, next) => next == ToIdle && |x.s.queued.items| < x.s.queued.size
        case Counted(_) | Loop(_, _) | Fresh(_) => false)
  }

  lemma {:induction false} HeldByUpdate<T>(ws: seq<Pc<T>>, i: nat, pc: Pc<T>)
    requires i < |ws|
    ensures HeldBy(ws[i := pc]) + multiset(ws[i].Held()) == HeldBy(ws) + multiset(pc.Held())
  {
    var us := ws[i := pc];
    if i == 0 {
      assert us[1..] == ws[1..];
    } else {
      assert us[1..] == ws[1..][i - 1 := pc];
      HeldByUpdate(ws[1..], i - 1, pc);
      AddBoth(multiset(ws[0].Held()), HeldBy(us[1..]), multiset(ws[i].Held()), HeldBy(ws[1..]), multiset(pc.Held()));
    }
  }

  lemma AddBoth<T>(a: multiset<T>, x: multiset<T>, y: multiset<T>, z: multiset<T>, w: multiset<T>)
    requires x + y == z + w
    ensures a + x + y == a + z + w
  {
    forall e: T
      ensures (a + x + y)[e] == (a + z + w)[e]
    {
      assert (x + y)[e] == (z + w)[e];
    }
  }

  /** A step moves metrics between the shared state and the thread's hands, and loses none. */
  lemma AdvanceConserves<T>(s: State<T>, pc: Pc<T>, ok: bool)
    requires s.Valid()
    ensures var (s', pc') := Advance(s, pc, ok);
            s'.Valid() && s'.queued.size == s.queued.size && |s'.queued.items| <= |s.queued.items| &&
            Laws.Total(s') + multiset(pc'.Held()) == Laws.Total(s) + multiset(pc.Held())
  {
    hide Laws.Total, Ring.Rest, Ring.Skipped, Ring.Batched, Ring.Added, Ring.Evicted;
    match pc
    case TakeFull =>
      Laws.TakeFreshConserves(s);
      Laws.BatchOfAll(s.queued);
    case Fresh(_) =>
      Laws.TakeFreshConserves(s);
      Laws.BatchOfAll(s.queued);
    case Loop(left, _) =>
      var n := Min(left, s.queued.size);
      Laws.TakeFailedConserves(s, n);
      BatchPartitions(s.failed, n);
    case Settling(batch, _, _) =>
      var counted := s.(calls := s.calls + 1);
      Laws.SameTotal(s, counted);
      Laws.DeliverConserves(counted, batch);
    case Returning(batch, _) =>
      Laws.PutBackConserves(s, batch);
      AddPartitions(s.failed, batch);
    case _ =>
  }

  lemma AdvanceKeepsAdder<T>(x: System<T>, ok: bool)
    requires Inv(x) && !x.adder.Idle?
    ensures var (s, pc) := Advance(x.s, x.adder, ok); Inv(x.(s := s, adder := pc))
  {
    AdvanceConserves(x.s, x.adder, ok);
    Laws.BatchOfAll(x.s.queued);
  }

  function Arriving<T>(a: Action<T>): seq<T> {
    if a.Arrive? then [a.m] else []
  }

  lemma StepConserves<T>(x: System<T>, a: Action<T>)
    requires Inv(x) && Enabled(x, a)
    ensures Inv(Step(x, a))
    ensures Everything(Step(x, a)) == Everything(x) + multiset(Arriving(a))
  {
    hide Laws.Total, Advance, HeldBy;
    match a
    case Arrive(m) =>
      Laws.ArriveConserves(x.s, m);
      AddPartitions(x.s.queued, [m]);
    case AdderStep(ok) =>
      AdvanceKeepsAdder(x, ok);
      AdvanceConserves(x.s, x.adder, ok);
    case StartFlush(i) =>
      HeldByUpdate(x.writers, i, Counted(|x.s.failed.items|));
      Swap(Laws.Total(x.s), multiset{}, Laws.Total(x.s), multiset{},
           HeldBy(Step(x, a).writers), HeldBy(x.writers), multiset(x.adder.Held()));
    case WriterStep(i, ok) =>
      var (s, pc) := Advance(x.s, x.writers[i], ok);
      AdvanceConserves(x.s, x.writers[i], ok);
      HeldByUpdate(x.writers, i, pc);
      Swap(Laws.Total(s), multiset(pc.Held()), Laws.Total(x.s), multiset(x.writers[i].Held()),
           HeldBy(Step(x, a).writers), HeldBy(x.writers), multiset(x.adder.Held()));
  }

  lemma Swap<T>(t: multiset<T>, h: multiset<T>, t0: multiset<T>, h0: multiset<T>,
                w: multiset<T>, w0: multiset<T>, a: multiset<T>)
    requires t + h == t0 + h0 && w + h0 == w0 + h
    ensures t + a + w == t0 + a + w0
  {
    forall e: T
      ensures (t + a + w)[e] == (t0 + a + w0)[e]
    {
      assert (t + h)[e] == (t0 + h0)[e] && (w + h0)[e] == (w0 + h)[e];
    }
  }

  function Start<T>(batchSize: nat, limit: nat, writers: nat): System<T> {
    System(State(Empty(batchSize), Empty(limit), [], [], [], 0), Idle, seq(writers, i => Idle))
  }

  /** A run: every action is enabled where it is taken and leads to the next state. */
  ghost predicate IsRun<T>(xs: seq<System<T>>, actions: seq<Action<T>>) {
    |xs| == |actions| + 1 &&
    forall i :: 0 <= i < |actions| ==>
      xs[i].s.Valid() && Enabled(xs[i], actions[i]) && xs[i + 1] == Step(xs[i], actions[i])
  }

  function Accepted<T>(actions: seq<Action<T>>): seq<T> {
    if actions == [] then [] else Accepted(actions[..|actions| - 1]) + Arriving(actions[|actions| - 1])
  }

  /**
   In every interleaving: the accepted metrics are exactly those delivered, buffered, held by a
   thread, evicted or skipped; AddMetric always finds room, so the fresh buffer evicts nothing;
   and a batch of the fresh buffer always drains it.
   */
  lemma {:induction false} EveryInterleavingConserves<T>(
    batchSize: nat, limit: nat, writers: nat, xs: seq<System<T>>, actions: seq<Action<T>>, k: nat)
    requires batchSize > 0 && limit > 0 && k <= |actions|
    requires IsRun(xs, actions) && xs[0] == Start(batchSize, limit, writers)
    ensures var x := xs[k];
            Inv(x) && Everything(x) == multiset(Accepted(actions[..k])) &&
            multiset(x.s.delivered) <= multiset(Accepted(actions[..k]))
    ensures var fresh' := xs[k].s.queued;
            (xs[k].adder.Idle? ==> forall m: T :: fresh'.Evicted([m]) == []) &&
            fresh'.Batched(fresh'.size) == fresh'.items && fresh'.Skipped(fresh'.size) == []
    decreases k
  {
    hide Step, Enabled, Inv, Everything;
    if k == 0 {
      StartIsGood<T>(batchSize, limit, writers);
    } else {
      EveryInterleavingConserves(batchSize, limit, writers, xs, actions, k - 1);
      StepConserves(xs[k - 1], actions[k - 1]);
      assert actions[..k][..k - 1] == actions[..k - 1];
      BagOfAccepted(actions[..k]);
    }
    WhatInvMeans(xs[k]);
  }

  lemma BagOfAccepted<T>(actions: seq<Action<T>>)
    requires actions != []
    ensures multiset(Accepted(actions)) ==
            multiset(Accepted(actions[..|actions| - 1])) + multiset(Arriving(actions[|actions| - 1]))
  {}

  lemma WhatInvMeans<T>(x: System<T>)
    requires Inv(x)
    ensures multiset(x.s.delivered) <= Everything(x)
    ensures x.adder.Idle? ==> forall m: T :: x.s.queued.Evicted([m]) == []
    ensures x.s.queued.Batched(x.s.queued.size) == x.s.queued.items && x.s.queued.Skipped(x.s.queued.size) == []
  {
    Laws.BatchOfAll(x.s.queued);
  }

  lemma StartIsGood<T>(batchSize: nat, limit: nat, writers: nat)
    requires batchSize > 0 && limit > 0
    ensures var x := Start<T>(batchSize, limit, writers); Inv(x) && Everything(x) == multiset{}
  {
    NobodyHolds<T>(writers);
  }

  lemma {:induction false} NobodyHolds<T>(writers: nat)
    ensures HeldBy(seq(writers, i => Pc<T>.Idle)) == multiset{}
  {
    if writers > 0 {
      assert seq(writers, i => Pc<T>.Idle)[1..] == seq(writers - 1, i => Pc<T>.Idle);
      NobodyHolds<T>(writers - 1);
    }
  }

  // ---------- A thread that nobody interrupts ----------

  /** `n` steps of one thread alone; `outcome` answers its calls. */
  function Alone<T>(s: State<T>, pc: Pc<T>, outcome: Outcome, n: nat): (State<T>, Pc<T>)
    requires s.Valid()
    decreases n
  {
    if n == 0 then (s, pc)
    else
      AdvanceConserves(s, pc, outcome(s.calls));
      var (s1, pc1) := Advance(s, pc, outcome(s.calls));
      Alone(s1, pc1, outcome, n - 1)
  }

  lemma {:induction false} AloneValid<T>(s: State<T>, pc: Pc<T>, outcome: Outcome, n: nat)
    requires s.Valid()
    ensures Alone(s, pc, outcome, n).0.Valid()
    decreases n
  {
    hide Advance;
    if n > 0 {
      AdvanceConserves(s, pc, outcome(s.calls));
      var (s1, pc1) := Advance(s, pc, outcome(s.calls));
      AloneValid(s1, pc1, outcome, n - 1);
    }
  }

  lemma {:induction false} AloneTwice<T>(s: State<T>, pc: Pc<T>, outcome: Outcome, a: nat, b: nat)
    requires s.Valid()
    ensures var (s1, pc1) := Alone(s, pc, outcome, a);
            s1.Valid() && Alone(s, pc, outcome, a + b) == Alone(s1, pc1, outcome, b)
    decreases a
  {
    hide Advance;
    if a > 0 {
      AdvanceConserves(s, pc, outcome(s.calls));
      var (s1, pc1) := Advance(s, pc, outcome(s.calls));
      AloneTwice(s1, pc1, outcome, a - 1, b);
    }
  }

  lemma AloneOnce<T>(s: State<T>, pc: Pc<T>, outcome: Outcome)
    requires s.Valid()
    ensures Alone(s, pc, outcome, 1) == Advance(s, pc, outcome(s.calls)) && Alone(s, pc, outcome, 1).0.Valid()
  {
    hide Advance;
    AdvanceConserves(s, pc, outcome(s.calls));
    var (s1, pc1) := Advance(s, pc, outcome(s.calls));
    assert Alone(s1, pc1, outcome, 0) == (s1, pc1);
  }

  /** A held batch is written or put back, as SettleBatch does. */
  lemma SettlesAlone<T>(s: State<T>, batch: seq<T>, ok: bool, next: Next, outcome: Outcome) returns (n: nat)
    requires s.Valid()
    ensures var (s', ok') := Settle(s, batch, ok, outcome);
            Alone(s, Settling(batch, ok, next), outcome, n) == (s', Resume(next, ok'))
  {
    hide Alone, PutBack;
    var pc := Settling(batch, ok, next);
    AloneOnce(s, pc, outcome);
    var (s1, pc1) := Advance(s, pc, outcome(s.calls));
    n := 1;
    if pc1.Returning? {
      AloneOnce(s1, pc1, outcome);
      AloneTwice(s, pc, outcome, 1, 1);
      n := 2;
    }
  }

  /** One round of the loop of Write. */
  lemma RetriesOnce<T>(s: State<T>, left: nat, ok: bool, outcome: Outcome) returns (n: nat)
    requires s.Valid()
    ensures var m := s.queued.size;
            var (s', ok') := RetryOne(s, Min(left, m), ok, outcome);
            Alone(s, Loop(left, ok), outcome, n) == (s', if left < m then Fresh(ok') else Loop(left - m, ok'))
  {
    hide Alone, Settle, Resume;
    var m := s.queued.size;
    var k := Min(left, m);
    var next := if left < m then ToFresh else ToLoop(left - m);
    BatchPartitions(s.failed, k);
    AloneOnce(s, Loop(left, ok), outcome);
    var a := SettlesAlone(TakeFailed(s, k), s.failed.Batched(k), ok, next, outcome);
    AloneTwice(s, Loop(left, ok), outcome, 1, a);
    ResumeIs<T>(next, RetryOne(s, k, ok, outcome).1);
    n := 1 + a;
  }

  /** The failed metrics are retried as the loop of Write does. */
  lemma {:induction false} RetriesAlone<T>(s: State<T>, left: nat, ok: bool, outcome: Outcome) returns (n: nat)
    requires s.Valid()
    ensures var (s', ok') := Retry(s, left, ok, outcome);
            Alone(s, Loop(left, ok), outcome, n) == (s', Fresh(ok'))
    decreases left
  {
    hide Alone, RetryOne;
    var m := s.queued.size;
    RetryOneValid(s, Min(left, m), ok, outcome);
    n := RetriesOnce(s, left, ok, outcome);
    if left >= m {
      var (s1, ok1) := RetryOne(s, m, ok, outcome);
      var b := RetriesAlone(s1, left - m, ok1, outcome);
      AloneTwice(s, Loop(left, ok), outcome, n, b);
      n := n + b;
    }
  }

  lemma ResumeIs<T>(next: Next, ok: bool)
    ensures Resume<T>(next, ok) == match next case ToIdle => Idle case ToLoop(left) => Loop(left, ok) case ToFresh => Fresh(ok)
  {}

  lemma FlushesFreshAlone<T>(s: State<T>, ok: bool, outcome: Outcome) returns (n: nat)
    requires s.Valid()
    ensures TakeFresh(s).Valid()
    ensures var (s', _) := Settle(TakeFresh(s), s.queued.Batched(s.queued.size), ok, outcome);
            Alone(s, Fresh(ok), outcome, n) == (s', Idle)
  {
    hide Alone, Settle, TakeFresh, Resume;
    Laws.TakenFresh(s);
    AloneOnce(s, Fresh(ok), outcome);
    var batch := s.queued.Batched(s.queued.size);
    var a := SettlesAlone(TakeFresh(s), batch, ok, ToIdle, outcome);
    AloneTwice(s, Fresh(ok), outcome, 1, a);
    ResumeIs<T>(ToIdle, Settle(TakeFresh(s), batch, ok, outcome).1);
    n := 1 + a;
  }

  /** A writer that nobody interrupts does exactly what Write does. */
  lemma WriterAlone<T>(s: State<T>, outcome: Outcome) returns (n: nat)
    requires s.Valid()
    ensures Alone(s, Counted(|s.failed.items|), outcome, n) == (Flush(s, outcome).0, Idle)
  {
    hide Alone, Settle, TakeFresh, Retry;
    var start: Pc<T> := Counted(|s.failed.items|);
    AloneOnce(s, start, outcome);
    n := 1;
    var s1, ok := s, true;
    if s.failed.items != [] {
      var a := RetriesAlone(s, |s.failed.items|, true, outcome);
      s1, ok := Retry(s, |s.failed.items|, true, outcome).0, Retry(s, |s.failed.items|, true, outcome).1;
      AloneTwice(s, start, outcome, n, a);
      n := n + a;
    }
    var b := FlushesFreshAlone(s1, ok, outcome);
    AloneTwice(s, start, outcome, n, b);
    n := n + b;
  }

  /** An adder that nobody interrupts does exactly what AddMetric does. */
  lemma AdderAlone<T>(s: State<T>, m: T, outcome: Outcome) returns (n: nat)
    requires s.Valid()
    ensures Arrived(s, m).Valid() && Alone(Arrived(s, m), CheckLen, outcome, n) == (Accept(s, m, outcome), Idle)
  {
    hide Alone, Settle, TakeFresh;
    AddPartitions(s.queued, [m]);
    var t := Arrived(s, m);
    AloneOnce(t, CheckLen, outcome);
    n := 1;
    if |t.queued.items| == t.queued.size {
      Laws.TakenFresh(t);
      AloneOnce(t, TakeFull, outcome);
      AloneTwice(t, CheckLen, outcome, 1, 1);
      var a := SettlesAlone(TakeFresh(t), t.queued.Batched(t.queued.size), true, ToIdle, outcome);
      AloneTwice(t, CheckLen, outcome, 2, a);
      n := 2 + a;
    }
  }

  // ---------- The same, in the system ----------

  /** These actions, one after the other, lead from `x` to `y`. */
  ghost predicate Leads<T>(x: System<T>, actions: seq<Action<T>>, y: System<T>)
    decreases actions
  {
    if actions == [] then x == y
    else x.s.Valid() && Enabled(x, actions[0]) && Leads(Step(x, actions[0]), actions[1..], y)
  }

  lemma {:induction false} IdleStays<T>(s: State<T>, outcome: Outcome, n: nat)
    requires s.Valid()
    ensures Alone(s, Idle, outcome, n) == (s, Idle)
    decreases n
  {
    if n > 0 {
      IdleStays(s, outcome, n - 1);
    }
  }

  lemma {:induction false} WriterSteps<T>(x: System<T>, i: nat, outcome: Outcome, n: nat) returns (actions: seq<Action<T>>)
    requires x.s.Valid() && i < |x.writers|
    ensures var (s', pc') := Alone(x.s, x.writers[i], outcome, n);
            Leads(x, actions, x.(s := s', writers := x.writers[i := pc']))
    ensures forall a :: a in actions ==> a.WriterStep? && a.i == i
    decreases n
  {
    hide Advance;
    actions := [];
    if x.writers[i].Idle? {
      IdleStays(x.s, outcome, n);
    } else if n > 0 {
      var a: Action<T> := WriterStep(i, outcome(x.s.calls));
      AdvanceConserves(x.s, x.writers[i], outcome(x.s.calls));
      var y := Step(x, a);
      var rest := WriterSteps(y, i, outcome, n - 1);
      actions := [a] + rest;
      var (s', pc') := Alone(x.s, x.writers[i], outcome, n);
      assert y.writers[i := pc'] == x.writers[i := pc'];
      assert actions[1..] == rest;
    } else {
      assert x.writers[i := x.writers[i]] == x.writers;
    }
  }

  lemma {:induction false} AdderSteps<T>(x: System<T>, outcome: Outcome, n: nat) returns (actions: seq<Action<T>>)
    requires x.s.Valid()
    ensures var (s', pc') := Alone(x.s, x.adder, outcome, n); Leads(x, actions, x.(s := s', adder := pc'))
    ensures forall a :: a in actions ==> a.AdderStep?
    decreases n
  {
    hide Advance;
    actions := [];
    if x.adder.Idle? {
      IdleStays(x.s, outcome, n);
    } else if n > 0 {
      var a: Action<T> := AdderStep(outcome(x.s.calls));
      AdvanceConserves(x.s, x.adder, outcome(x.s.calls));
      var rest := AdderSteps(Step(x, a), outcome, n - 1);
      actions := [a] + rest;
      assert actions[1..] == rest;
    }
  }

  /** A flush that a writer starts and that nobody interrupts is Write, and touches no other thread. */
  lemma FlushInSystem<T>(x: System<T>, i: nat, outcome: Outcome) returns (actions: seq<Action<T>>)
    requires x.s.Valid() && i < |x.writers| && x.writers[i].Idle?
    ensures actions != [] && actions[0] == StartFlush(i)
    ensures forall k :: 0 < k < |actions| ==> actions[k].WriterStep? && actions[k].i == i
    ensures Leads(x, actions, x.(s := Flush(x.s, outcome).0))
  {
    hide Alone, Advance, Flush;
    var y := Step(x, StartFlush(i));
    var n := WriterAlone(x.s, outcome);
    var rest := WriterSteps(y, i, outcome, n);
    actions := [StartFlush(i)] + rest;
    assert actions[1..] == rest;
    assert y.writers[i := Idle] == x.writers;
    assert forall k :: 0 < k < |actions| ==> actions[k] == rest[k - 1] && rest[k - 1] in rest;
  }

  /** An AddMetric that nobody interrupts is AddMetric. */
  lemma AddInSystem<T>(x: System<T>, m: T, outcome: Outcome) returns (actions: seq<Action<T>>)
    requires x.s.Valid() && x.adder.Idle?
    ensures actions != [] && actions[0] == Arrive(m)
    ensures forall k :: 0 < k < |actions| ==> actions[k].AdderStep?
    ensures Leads(x, actions, x.(s := Accept(x.s, m, outcome)))
  {
    hide Alone, Advance, Accept, Arrived;
    var n := AdderAlone(x.s, m, outcome);
    var y := Step(x, Arrive(m));
    var rest := AdderSteps(y, outcome, n);
    actions := [Arrive(m)] + rest;
    assert actions[1..] == rest;
    assert forall k :: 0 < k < |actions| ==> actions[k] == rest[k - 1] && rest[k - 1] in rest;
  }

  // ---------- What order survives ----------

  /** The thread that a step moves on. */
  function Mover<T>(x: System<T>, a: Action<T>): Pc<T>
    requires Enabled(x, a)
  {
    match a
    case AdderStep(_) => x.adder
    case WriterStep(i, _) => x.writers[i]
    case _ => Idle
  }

  /** What a step takes out of the fresh buffer. */
  function FreshOut<T>(x: System<T>, a: Action<T>): seq<T>
    requires Enabled(x, a)
  {
    var pc := Mover(x, a);
    if pc.TakeFull? || pc.Fresh? then x.s.queued.items else []
  }

  /** What a step appends to the failed metrics. */
  function FailedIn<T>(x: System<T>, a: Action<T>): seq<T>
    requires Enabled(x, a)
  {
    var pc := Mover(x, a);
    if pc.Returning? then pc.batch else []
  }

  /** What a step removes from the failed metrics: a batch for a retry, or the oldest to make room. */
  function FailedOut<T>(x: System<T>, a: Action<T>): seq<T>
    requires x.s.Valid() && Enabled(x, a)
  {
    var pc, r := Mover(x, a), x.s.failed;
    if pc.Loop? then r.Batched(Min(pc.left, x.s.queued.size)) + r.Skipped(Min(pc.left, x.s.queued.size))
    else if pc.Returning? then r.Evicted(pc.batch)
    else []
  }

  /** What a step delivers: the batch its thread holds. */
  function DeliveredBy<T>(x: System<T>, a: Action<T>): seq<T>
    requires Enabled(x, a)
  {
    var pc := Mover(x, a);
    if pc.Settling? && pc.ok && a.ok then pc.batch else []
  }

  /** Both buffers are first-in first-out in each step, and what is delivered was held in one piece. */
  lemma StepKeepsOrder<T>(x: System<T>, a: Action<T>)
    requires Inv(x) && Enabled(x, a)
    ensures var y := Step(x, a);
            x.s.queued.items + Arriving(a) == FreshOut(x, a) + y.s.queued.items &&
            x.s.failed.items + FailedIn(x, a) == FailedOut(x, a) + y.s.failed.items &&
            y.s.delivered == x.s.delivered + DeliveredBy(x, a)
  {
    match a
    case Arrive(m) => RoomToArrive(x.s, m);
    case AdderStep(ok) => AdvanceKeepsOrder(x.s, x.adder, ok);
    case StartFlush(i) =>
    case WriterStep(i, ok) => AdvanceKeepsOrder(x.s, x.writers[i], ok);
  }

  lemma RoomToArrive<T>(s: State<T>, m: T)
    requires s.Settled()
    ensures Arrived(s, m).queued.items == s.queued.items + [m]
  {}

  lemma AdvanceKeepsOrder<T>(s: State<T>, pc: Pc<T>, ok: bool)
    requires s.Valid()
    ensures var s' := Advance(s, pc, ok).0;
            var r, n := s.failed, if pc.Loop? then Min(pc.left, s.queued.size) else 0;
            s.queued.items == (if pc.TakeFull? || pc.Fresh? then s.queued.items else []) + s'.queued.items &&
            r.items + (if pc.Returning? then pc.batch else []) ==
              (if pc.Loop? then r.Batched(n) + r.Skipped(n) else if pc.Returning? then r.Evicted(pc.batch) else []) +
              s'.failed.items &&
            s'.delivered == s.delivered + (if pc.Settling? && pc.ok && ok then pc.batch else [])
  {
    hide Ring.Rest, Ring.Skipped, Ring.Batched, Ring.Added, Ring.Evicted;
    Laws.BatchOfAll(s.queued);
    match pc
    case Loop(left, _) => BatchPartitions(s.failed, Min(left, s.queued.size));
    case Returning(batch, _) => AddPartitions(s.failed, batch);
    case _ =>
  }

  /** All that was taken out of the fresh buffer in the first `k` steps, and so on. */
  ghost function AllFreshOut<T>(xs: seq<System<T>>, actions: seq<Action<T>>, k: nat): seq<T>
    requires IsRun(xs, actions) && k <= |actions|
  {
    if k == 0 then [] else AllFreshOut(xs, actions, k - 1) + FreshOut(xs[k - 1], actions[k - 1])
  }

  ghost function AllFailedIn<T>(xs: seq<System<T>>, actions: seq<Action<T>>, k: nat): seq<T>
    requires IsRun(xs, actions) && k <= |actions|
  {
    if k == 0 then [] else AllFailedIn(xs, actions, k - 1) + FailedIn(xs[k - 1], actions[k - 1])
  }

  ghost function AllFailedOut<T>(xs: seq<System<T>>, actions: seq<Action<T>>, k: nat): seq<T>
    requires IsRun(xs, actions) && k <= |actions|
  {
    if k == 0 then [] else AllFailedOut(xs, actions, k - 1) + FailedOut(xs[k - 1], actions[k - 1])
  }

  ghost function AllDelivered<T>(xs: seq<System<T>>, actions: seq<Action<T>>, k: nat): seq<T>
    requires IsRun(xs, actions) && k <= |actions|
  {
    if k == 0 then [] else AllDelivered(xs, actions, k - 1) + DeliveredBy(xs[k - 1], actions[k - 1])
  }

  /**
   In every interleaving: accepted metrics leave the fresh buffer in the order they came, none out of
   turn; metrics leave failMetrics in the order they were put there, by whatever thread; and what is
   delivered are whole batches, in the order of the calls that succeed.
   */
  lemma {:induction false} EveryInterleavingKeepsOrder<T>(
    batchSize: nat, limit: nat, writers: nat, xs: seq<System<T>>, actions: seq<Action<T>>, k: nat)
    requires batchSize > 0 && limit > 0 && k <= |actions|
    requires IsRun(xs, actions) && xs[0] == Start(batchSize, limit, writers)
    ensures Accepted(actions[..k]) == AllFreshOut(xs, actions, k) + xs[k].s.queued.items
    ensures AllFailedIn(xs, actions, k) == AllFailedOut(xs, actions, k) + xs[k].s.failed.items
    ensures xs[k].s.delivered == AllDelivered(xs, actions, k)
    decreases k
  {
    hide Step, Enabled, Inv, FreshOut, FailedIn, FailedOut, DeliveredBy;
    if k > 0 {
      EveryInterleavingKeepsOrder(batchSize, limit, writers, xs, actions, k - 1);
      EveryInterleavingConserves(batchSize, limit, writers, xs, actions, k - 1);
      StepKeepsOrder(xs[k - 1], actions[k - 1]);
      assert actions[..k][..k - 1] == actions[..k - 1];
      var x, y, a := xs[k - 1], xs[k], actions[k - 1];
      Regroup(Accepted(actions[..k - 1]), AllFreshOut(xs, actions, k - 1), x.s.queued.items, Arriving(a),
              FreshOut(x, a), y.s.queued.items);
      Regroup(AllFailedIn(xs, actions, k - 1), AllFailedOut(xs, actions, k - 1), x.s.failed.items, FailedIn(x, a),
              FailedOut(x, a), y.s.failed.items);
    }
  }

  lemma Regroup<T>(all: seq<T>, out: seq<T>, items: seq<T>, more: seq<T>, now: seq<T>, items': seq<T>)
    requires all == out + items && items + more == now + items'
    ensures all + more == out + now + items'
  {
    assert all + more == out + (items + more);
  }
}
