/**
 The flusher of agent/agent.go: three goroutines joined by bounded channels, and ticker-started
 flushes behind a semaphore. Every channel operation is one step; steps interleave freely.
 */
module Pipeline {
  import opened Lists

  const CAPACITY: nat := 100

  /** An aggregator: which metrics it takes, and whether it drops the originals. */
  datatype Aggregator<!M> = Aggregator(accepts: M -> bool, dropOriginal: bool)

  /**
   One pass of a metric through all processors: what they return, and what they leave in the object
   they were given, which most of them change in place.
   */
  datatype Pass<M> = Pass(given: M, out: seq<M>, left: M)

  /** `may` says which passes can happen; processors with a state of their own may differ from pass to pass. */
  datatype Config<!M> = Config(may: Pass<M> -> bool, aggregators: seq<Aggregator<M>>, outputs: nat)

  /** Who put a metric on outMetricC. */
  datatype Origin = Gathered | Aggregated

  datatype Sent<M> = Sent(origin: Origin, m: M)

  /** The goroutine over metricC: between metrics, working through processed ones, or gone. */
  datatype MetricPc<M> = MetricIdle | Working(todo: seq<M>, next: nat, drop: bool) | MetricDone

  /** The goroutine over aggMetricC. */
  datatype AggregatePc<M> = AggregateIdle | Forwarding(pass: Pass<M>) | AggregateDone

  /** The goroutine over outMetricC: `next` is the output to be served. */
  datatype OutputPc<M> = OutputIdle | FanningOut(m: M, next: nat) | OutputDone

  datatype FlushPc = Started | Holding | Ended

  datatype MainPc = Running | Waiting | LastFlush | Finished

  /** A processed metric and whether its original was dropped. */
  datatype Item<M> = Item(m: M, dropped: bool)

  /** The channels and goroutines; the logs record what has passed through them. */
  datatype System<M> = System(
    shutdown: bool,
    metricC: seq<M>, aggC: seq<M>, aggOpen: bool, outC: seq<M>,
    metricPc: MetricPc<M>, aggregatePc: AggregatePc<M>, outputPc: OutputPc<M>, mainPc: MainPc,
    semaphore: nat, flushes: seq<FlushPc>,
    outputs: seq<seq<M>>,         // what each output's AddMetric got
    gathered: seq<M>, taken: seq<Pass<M>>, processed: seq<Item<M>>, aggInputs: seq<seq<M>>,
    aggregated: seq<M>, forwarded: seq<Pass<M>>, sent: seq<Sent<M>>)

  datatype Action<M> =
    | Gather(m: M) | Aggregate(m: M) | Shutdown
    | TakeMetric(pass: Pass<M>) | OfferAggregator | Finish | StopMetric
    | TakeAggregate(pass: Pass<M>) | ForwardAggregate | StopAggregate
    | TakeOut | ServeOutput | StopOutput
    | Tick | TrySemaphore(k: nat) | EndFlush(k: nat)
    | MainWait | MainFlush | MainEnd

  ghost predicate Enabled<M>(x: System<M>, a: Action<M>, c: Config<M>) {
    match a
    case Gather(_) => |x.metricC| < CAPACITY
    case Aggregate(_) => x.aggOpen && |x.aggC| < CAPACITY
    case Shutdown => true
    case TakeMetric(pass) => x.metricPc.MetricIdle? && x.metricC != [] && pass.given == x.metricC[0] && c.may(pass)
    case OfferAggregator => x.metricPc.Working? && x.metricPc.todo != [] && x.metricPc.next < |c.aggregators| <= |x.aggInputs|
    case Finish => x.metricPc.Working? &&
      (x.metricPc.todo == [] ||
       (x.metricPc.next == |c.aggregators| && (x.metricPc.drop || |x.outC| < CAPACITY)))
    case StopMetric => x.metricPc.MetricIdle? && x.shutdown && x.metricC == []
    case TakeAggregate(pass) => x.aggregatePc.AggregateIdle? && x.aggC != [] && pass.given == x.aggC[0] && c.may(pass)
    case ForwardAggregate => x.aggregatePc.Forwarding? && |x.outC| < CAPACITY
    case StopAggregate => x.aggregatePc.AggregateIdle? && !x.aggOpen && x.aggC == []
    case TakeOut => x.outputPc.OutputIdle? && x.outC != []
    case ServeOutput => x.outputPc.FanningOut?
    case StopOutput => x.outputPc.OutputIdle? && x.shutdown && x.outC == []
    case Tick => x.mainPc.Running?
    case TrySemaphore(k) => k < |x.flushes| && x.flushes[k].Started?
    case EndFlush(k) => k < |x.flushes| && x.flushes[k].Holding?
    case MainWait => x.mainPc.Running? && x.shutdown
    case MainFlush => x.mainPc.Waiting? && x.metricPc.MetricDone? && x.aggregatePc.AggregateDone? && x.outputPc.OutputDone?
    case MainEnd => x.mainPc.LastFlush?
  }

  function Send<M>(x: System<M>, origin: Origin, m: M): System<M> {
    x.(outC := x.outC + [m], sent := x.sent + [Sent(origin, m)])
  }

  /** The metric goroutine is done with one processed metric. */
  function FinishItem<M>(x: System<M>): System<M>
    requires x.metricPc.Working?
  {
    var pc := x.metricPc;
    if pc.todo == [] then x.(metricPc := MetricIdle)
    else
      var m := pc.todo[0];
      var y := if pc.drop then x else Send(x, Gathered, m);
      y.(processed := x.processed + [Item(m, pc.drop)], metricPc := Working(pc.todo[1..], 0, false))
  }

  /** agg.Add for the next aggregator. */
  function Offer<M>(x: System<M>, c: Config<M>): System<M>
    requires x.metricPc.Working? && x.metricPc.todo != [] && x.metricPc.next < |c.aggregators| <= |x.aggInputs|
  {
    var pc := x.metricPc;
    var agg, m := c.aggregators[pc.next], pc.todo[0];
    var inputs := if agg.accepts(m) then x.aggInputs[pc.next := x.aggInputs[pc.next] + [m]] else x.aggInputs;
    x.(aggInputs := inputs,
       metricPc := Working(pc.todo, pc.next + 1, pc.drop || (agg.accepts(m) && agg.dropOriginal)))
  }

  /** One output gets its copy; the goroutine is free again after the last one. */
  function Serve<M>(x: System<M>): System<M>
    requires x.outputPc.FanningOut?
  {
    var m, i := x.outputPc.m, x.outputPc.next;
    if i < |x.outputs| then
      x.(outputs := x.outputs[i := x.outputs[i] + [m]],
         outputPc := if i + 1 < |x.outputs| then FanningOut(m, i + 1) else OutputIdle)
    else x.(outputPc := OutputIdle)
  }

  function Step<M>(x: System<M>, a: Action<M>, c: Config<M>): System<M>
    requires Enabled(x, a, c)
  {
    match a
    case Gather(m) => x.(metricC := x.metricC + [m], gathered := x.gathered + [m])
    case Aggregate(m) => x.(aggC := x.aggC + [m], aggregated := x.aggregated + [m])
    case Shutdown => x.(shutdown := true)
    case TakeMetric(pass) =>
      x.(metricC := x.metricC[1..], taken := x.taken + [pass], metricPc := Working(pass.out, 0, false))
    case OfferAggregator => Offer(x, c)
    case Finish => FinishItem(x)
    case StopMetric => x.(metricPc := MetricDone, aggOpen := false)
    case TakeAggregate(pass) => x.(aggC := x.aggC[1..], aggregatePc := Forwarding(pass))
    case ForwardAggregate =>
      // the object itself is sent, not what the processors returned
      var pass := x.aggregatePc.pass;
      Send(x, Aggregated, pass.left).(forwarded := x.forwarded + [pass], aggregatePc := AggregateIdle)
    case StopAggregate => x.(aggregatePc := AggregateDone)
    case TakeOut => x.(outC := x.outC[1..], outputPc := FanningOut(x.outC[0], 0))
    case ServeOutput => Serve(x)
    case StopOutput => x.(outputPc := OutputDone)
    case Tick => x.(flushes := x.flushes + [Started])
    case TrySemaphore(k) =>
      if x.semaphore == 0 then x.(semaphore := 1, flushes := x.flushes[k := Holding])
      else x.(flushes := x.flushes[k := Ended])
    case EndFlush(k) => x.(semaphore := 0, flushes := x.flushes[k := Ended])
    case MainWait => x.(mainPc := Waiting)
    case MainFlush => x.(mainPc := LastFlush)
    case MainEnd => x.(mainPc := Finished)
  }

  function Start<M>(c: Config<M>): System<M> {
    System(false, [], [], true, [], MetricIdle, AggregateIdle, OutputIdle, Running, 0, [],
           seq(c.outputs, i => []), [], [], [], seq(|c.aggregators|, i => []), [], [], [])
  }

  // ---------- Fan-out ----------

  function Metrics<M>(sent: seq<Sent<M>>): (ms: seq<M>)
    ensures |ms| == |sent| && forall i :: 0 <= i < |sent| ==> ms[i] == sent[i].m
  {
    Map((s: Sent<M>) => s.m, sent)
  }

  /** Every output has got the first `done` metrics sent; those before `next` have the current one too. */
  ghost predicate FanOut<M>(x: System<M>, c: Config<M>) {
    var all := Metrics(x.sent);
    var busy := if x.outputPc.FanningOut? then 1 else 0;
    |x.outputs| == c.outputs && |x.outC| + busy <= |all| &&
    var done := |all| - |x.outC| - busy;
    x.outC == all[done + busy..] &&
    (x.outputPc.FanningOut? ==> all[done] == x.outputPc.m) &&
    forall i :: 0 <= i < c.outputs ==>
      x.outputs[i] == all[..if x.outputPc.FanningOut? && i < x.outputPc.next then done + 1 else done]
  }

  // ---------- Each processed metric once ----------

  predicate Drops<M>(c: Config<M>, m: M, n: nat)
    requires n <= |c.aggregators|
  {
    exists j :: 0 <= j < n && c.aggregators[j].accepts(m) && c.aggregators[j].dropOriginal
  }

  function Items<M>(items: seq<Item<M>>): (ms: seq<M>)
    ensures |ms| == |items| && forall i :: 0 <= i < |items| ==> ms[i] == items[i].m
  {
    Map((i: Item<M>) => i.m, items)
  }

  function Given<M>(passes: seq<Pass<M>>): (ms: seq<M>)
    ensures |ms| == |passes| && forall i :: 0 <= i < |passes| ==> ms[i] == passes[i].given
  {
    Map((p: Pass<M>) => p.given, passes)
  }

  function Left<M>(passes: seq<Pass<M>>): (ms: seq<M>)
    ensures |ms| == |passes| && forall i :: 0 <= i < |passes| ==> ms[i] == passes[i].left
  {
    Map((p: Pass<M>) => p.left, passes)
  }

  /** All that the processors returned, in order. */
  function Returned<M>(passes: seq<Pass<M>>): seq<M> {
    if passes == [] then [] else Returned(passes[..|passes| - 1]) + passes[|passes| - 1].out
  }

  ghost predicate Possible<M>(passes: seq<Pass<M>>, c: Config<M>) {
    forall i :: 0 <= i < |passes| ==> c.may(passes[i])
  }

  function From<M>(sent: seq<Sent<M>>, origin: Origin): seq<M> {
    if sent == [] then []
    else
      var s := sent[|sent| - 1];
      From(sent[..|sent| - 1], origin) + if s.origin == origin then [s.m] else []
  }

  /** The processed metrics whose original was not dropped. */
  function Kept<M>(items: seq<Item<M>>): seq<M> {
    if items == [] then []
    else
      var i := items[|items| - 1];
      Kept(items[..|items| - 1]) + if i.dropped then [] else [i.m]
  }

  /** Those of the metrics that an aggregator takes. */
  function AcceptedBy<M>(agg: Aggregator<M>, ms: seq<M>): seq<M> {
    if ms == [] then []
    else
      var m := ms[|ms| - 1];
      AcceptedBy(agg, ms[..|ms| - 1]) + if agg.accepts(m) then [m] else []
  }

  function Todo<M>(x: System<M>): seq<M> { if x.metricPc.Working? then x.metricPc.todo else [] }

  /** The metrics aggregator j has been offered. */
  function OfferedTo<M>(x: System<M>, j: nat): seq<M> {
    Items(x.processed) +
    if x.metricPc.Working? && x.metricPc.todo != [] && j < x.metricPc.next then [x.metricPc.todo[0]] else []
  }

  ghost predicate Processing<M>(x: System<M>, c: Config<M>) {
    && x.gathered == Given(x.taken) + x.metricC && Possible(x.taken, c)
    && Items(x.processed) + Todo(x) == Returned(x.taken)
    && From(x.sent, Gathered) == Kept(x.processed)
    && (forall i :: 0 <= i < |x.processed| ==>
          x.processed[i].dropped == Drops(c, x.processed[i].m, |c.aggregators|))
    && |x.aggInputs| == |c.aggregators|
    && (x.metricPc.Working? ==>
          x.metricPc.next <= |c.aggregators| &&
          (x.metricPc.todo == [] ==> x.metricPc.next == 0) &&
          (x.metricPc.todo != [] ==> x.metricPc.drop == Drops(c, x.metricPc.todo[0], x.metricPc.next)))
    && (forall j :: 0 <= j < |c.aggregators| ==> x.aggInputs[j] == AcceptedBy(c.aggregators[j], OfferedTo(x, j)))
  }

  // ---------- Aggregates are forwarded as the processors leave them ----------

  ghost predicate Forwards<M>(x: System<M>, c: Config<M>) {
    && x.aggregated == Given(x.forwarded) + (if x.aggregatePc.Forwarding? then [x.aggregatePc.pass.given] else []) + x.aggC
    && Possible(x.forwarded, c) && (x.aggregatePc.Forwarding? ==> c.may(x.aggregatePc.pass))
    && From(x.sent, Aggregated) == Left(x.forwarded)
  }

  // ---------- One flush at a time ----------

  ghost predicate OneFlush<M>(x: System<M>) {
    && x.semaphore <= 1
    && (x.semaphore == 0 ==> forall k :: 0 <= k < |x.flushes| ==> !x.flushes[k].Holding?)
    && (x.semaphore == 1 ==> SomeHolding(x))
    && (forall j, k :: 0 <= j < k < |x.flushes| ==> !(x.flushes[j].Holding? && x.flushes[k].Holding?))
  }

  ghost predicate SomeHolding<M>(x: System<M>) {
    exists k :: 0 <= k < |x.flushes| && x.flushes[k].Holding?
  }

  // ---------- Every step keeps all of it ----------

  lemma SendKeepsFanOut<M>(x: System<M>, origin: Origin, m: M, c: Config<M>)
    requires FanOut(x, c)
    ensures FanOut(Send(x, origin, m), c)
  {
    hide Metrics;
    var y := Send(x, origin, m);
    var all := Metrics(x.sent);
    assert Metrics(y.sent) == all + [m];
    var from := |all| - |x.outC|;
    assert (all + [m])[from..] == all[from..] + [m];
    assert forall n :: 0 <= n <= |all| ==> (all + [m])[..n] == all[..n];
  }

  lemma ServeKeepsFanOut<M>(x: System<M>, c: Config<M>)
    requires FanOut(x, c) && x.outputPc.FanningOut?
    ensures FanOut(Serve(x), c)
  {
    var all, i := Metrics(x.sent), x.outputPc.next;
    var done := |all| - |x.outC| - 1;
    if i < |x.outputs| {
      assert all[..done] + [all[done]] == all[..done + 1];
    }
  }

  lemma StepKeepsFanOut<M>(x: System<M>, a: Action<M>, c: Config<M>)
    requires FanOut(x, c) && Enabled(x, a, c)
    ensures FanOut(Step(x, a, c), c)
  {
    hide FanOut;
    var y := Step(x, a, c);
    match a
    case Finish =>
      if x.metricPc.todo != [] && !x.metricPc.drop {
        SendKeepsFanOut(x, Gathered, x.metricPc.todo[0], c);
        SameFanOut(Send(x, Gathered, x.metricPc.todo[0]), y, c);
      } else {
        SameFanOut(x, y, c);
      }
    case ForwardAggregate =>
      SendKeepsFanOut(x, Aggregated, x.aggregatePc.pass.left, c);
      SameFanOut(Send(x, Aggregated, x.aggregatePc.pass.left), y, c);
    case TakeOut => TakeKeepsFanOut(x, c);
    case ServeOutput => ServeKeepsFanOut(x, c);
    case _ => SameFanOut(x, y, c);
  }

  lemma SameFanOut<M>(x: System<M>, y: System<M>, c: Config<M>)
    requires FanOut(x, c) && y.outputs == x.outputs && y.outC == x.outC && y.sent == x.sent
    requires y.outputPc == x.outputPc || (x.outputPc.OutputIdle? && y.outputPc.OutputDone?)
    ensures FanOut(y, c)
  {
    hide Metrics;
  }

  lemma TakeKeepsFanOut<M>(x: System<M>, c: Config<M>)
    requires FanOut(x, c) && x.outputPc.OutputIdle? && x.outC != []
    ensures FanOut(x.(outC := x.outC[1..], outputPc := FanningOut(x.outC[0], 0)), c)
  {
    var all := Metrics(x.sent);
    var done := |all| - |x.outC|;
    assert all[done..][1..] == all[done + 1..];
  }

  lemma FromSnoc<M>(sent: seq<Sent<M>>, s: Sent<M>, origin: Origin)
    ensures From(sent + [s], origin) == From(sent, origin) + if s.origin == origin then [s.m] else []
  {
    assert (sent + [s])[..|sent|] == sent;
  }

  lemma TakeKeepsProcessing<M>(x: System<M>, pass: Pass<M>, c: Config<M>)
    requires Processing(x, c) && Enabled(x, TakeMetric(pass), c)
    ensures Processing(Step(x, TakeMetric(pass), c), c)
  {
    hide From, Kept, AcceptedBy, Drops;
    var taken := x.taken + [pass];
    assert taken[..|taken| - 1] == x.taken;
    assert Items(x.processed) + [] == Items(x.processed);
    assert Given(taken) == Given(x.taken) + [pass.given];
    assert x.gathered == Given(taken) + x.metricC[1..];
    var y := Step(x, TakeMetric(pass), c);
    assert forall j :: OfferedTo(y, j) == OfferedTo(x, j);
    assert y.metricPc.todo != [] ==> !Drops(c, y.metricPc.todo[0], 0) by { NothingDrops(c, y.metricPc.todo); }
  }

  lemma NothingDrops<M>(c: Config<M>, todo: seq<M>)
    ensures todo != [] ==> !Drops(c, todo[0], 0)
  {}

  lemma OfferKeepsProcessing<M>(x: System<M>, c: Config<M>)
    requires Processing(x, c) && Enabled(x, OfferAggregator, c)
    ensures Processing(Offer(x, c), c)
  {
    hide From, Kept, Returned, AcceptedBy, Drops;
    var pc := x.metricPc;
    var y, m, n := Offer(x, c), pc.todo[0], pc.next;
    NextDrops(c, m, n);
    forall j | 0 <= j < |c.aggregators| ensures y.aggInputs[j] == AcceptedBy(c.aggregators[j], OfferedTo(y, j)) {
      if j == n {
        assert OfferedTo(x, j) == Items(x.processed) && OfferedTo(y, j) == Items(x.processed) + [m];
        AcceptedSnoc(c.aggregators[j], Items(x.processed), m);
      } else {
        assert OfferedTo(y, j) == OfferedTo(x, j);
      }
    }
  }

  lemma NextDrops<M>(c: Config<M>, m: M, n: nat)
    requires n < |c.aggregators|
    ensures Drops(c, m, n + 1) ==
            (Drops(c, m, n) || (c.aggregators[n].accepts(m) && c.aggregators[n].dropOriginal))
  {}

  lemma AcceptedSnoc<M>(agg: Aggregator<M>, ms: seq<M>, m: M)
    ensures AcceptedBy(agg, ms + [m]) == AcceptedBy(agg, ms) + if agg.accepts(m) then [m] else []
  {
    assert (ms + [m])[..|ms|] == ms;
  }

  lemma FinishKeepsProcessing<M>(x: System<M>, c: Config<M>)
    requires Processing(x, c) && Enabled(x, Finish, c)
    ensures Processing(FinishItem(x), c)
  {
    hide From, Kept, Returned, AcceptedBy, Drops;
    var pc := x.metricPc;
    var y := FinishItem(x);
    if pc.todo == [] {
      assert forall j :: OfferedTo(y, j) == OfferedTo(x, j);
    } else {
      var m := pc.todo[0];
      var items := x.processed + [Item(m, pc.drop)];
      FromSnoc(x.sent, Sent(Gathered, m), Gathered);
      KeptSnoc(x.processed, Item(m, pc.drop));
      assert Items(items) == Items(x.processed) + [m];
      assert Items(items) + pc.todo[1..] == Items(x.processed) + pc.todo;
      assert forall j :: 0 <= j < |c.aggregators| ==> OfferedTo(y, j) == OfferedTo(x, j);
      NothingDrops(c, pc.todo[1..]);
    }
  }

  lemma KeptSnoc<M>(items: seq<Item<M>>, i: Item<M>)
    ensures Kept(items + [i]) == Kept(items) + if i.dropped then [] else [i.m]
  {
    assert (items + [i])[..|items|] == items;
  }

  lemma StepKeepsProcessing<M>(x: System<M>, a: Action<M>, c: Config<M>)
    requires Processing(x, c) && Enabled(x, a, c)
    ensures Processing(Step(x, a, c), c)
  {
    hide From, Kept, Returned, AcceptedBy, Drops;
    match a
    case TakeMetric(pass) => TakeKeepsProcessing(x, pass, c);
    case OfferAggregator => OfferKeepsProcessing(x, c);
    case Finish => FinishKeepsProcessing(x, c);
    case Gather(m) =>
      assert Given(x.taken) + (x.metricC + [m]) == x.gathered + [m];
      Undisturbed(x, Step(x, a, c), c);
    case ForwardAggregate =>
      FromSnoc(x.sent, Sent(Aggregated, x.aggregatePc.pass.left), Gathered);
      Undisturbed(x, Step(x, a, c), c);
    case _ => Undisturbed(x, Step(x, a, c), c);
  }

  /** Steps of the other goroutines leave the metric goroutine's books alone. */
  lemma Undisturbed<M>(x: System<M>, y: System<M>, c: Config<M>)
    requires Processing(x, c) && y.gathered == Given(y.taken) + y.metricC
    requires y.processed == x.processed && y.taken == x.taken && y.aggInputs == x.aggInputs
    requires y.metricPc == x.metricPc || (y.metricPc.MetricDone? && x.metricPc.MetricIdle?)
    requires From(y.sent, Gathered) == From(x.sent, Gathered)
    ensures Processing(y, c)
  {
    hide From, Kept, Returned, AcceptedBy, Drops;
    assert Todo(y) == Todo(x);
    assert forall j :: OfferedTo(y, j) == OfferedTo(x, j);
  }

  lemma StepKeepsForwarding<M>(x: System<M>, a: Action<M>, c: Config<M>)
    requires Forwards(x, c) && Enabled(x, a, c)
    ensures Forwards(Step(x, a, c), c)
  {
    hide From, Forwards;
    var y := Step(x, a, c);
    match a
    case Finish =>
      if x.metricPc.todo != [] {
        FromSnoc(x.sent, Sent(Gathered, x.metricPc.todo[0]), Aggregated);
      }
      SameForwarding(x, y, c);
    case ForwardAggregate =>
      FromSnoc(x.sent, Sent(Aggregated, x.aggregatePc.pass.left), Aggregated);
      Forwarded(x, y, c);
    case TakeAggregate(pass) => TakenToForward(x, pass, c);
    case Aggregate(m) => MoreToForward(x, m, c);
    case _ => SameForwarding(x, y, c);
  }

  lemma SameForwarding<M>(x: System<M>, y: System<M>, c: Config<M>)
    requires Forwards(x, c) && From(y.sent, Aggregated) == From(x.sent, Aggregated)
    requires y.aggregated == x.aggregated && y.forwarded == x.forwarded && y.aggC == x.aggC
    requires y.aggregatePc == x.aggregatePc || (!x.aggregatePc.Forwarding? && !y.aggregatePc.Forwarding?)
    ensures Forwards(y, c)
  {
    hide From;
  }

  lemma Forwarded<M>(x: System<M>, y: System<M>, c: Config<M>)
    requires Forwards(x, c) && x.aggregatePc.Forwarding? && y.aggregatePc.AggregateIdle?
    requires From(y.sent, Aggregated) == From(x.sent, Aggregated) + [x.aggregatePc.pass.left]
    requires y.aggregated == x.aggregated && y.forwarded == x.forwarded + [x.aggregatePc.pass] && y.aggC == x.aggC
    ensures Forwards(y, c)
  {
    hide From;
    assert Given(y.forwarded) == Given(x.forwarded) + [x.aggregatePc.pass.given];
    assert Left(y.forwarded) == Left(x.forwarded) + [x.aggregatePc.pass.left];
  }

  lemma TakenToForward<M>(x: System<M>, pass: Pass<M>, c: Config<M>)
    requires Forwards(x, c) && x.aggregatePc.AggregateIdle? && x.aggC != [] && pass.given == x.aggC[0] && c.may(pass)
    ensures Forwards(x.(aggC := x.aggC[1..], aggregatePc := Forwarding(pass)), c)
  {
    hide From;
    assert x.aggC == [pass.given] + x.aggC[1..];
  }

  lemma MoreToForward<M>(x: System<M>, m: M, c: Config<M>)
    requires Forwards(x, c)
    ensures Forwards(x.(aggC := x.aggC + [m], aggregated := x.aggregated + [m]), c)
  {
    hide From;
  }

  lemma StepKeepsOneFlush<M>(x: System<M>, a: Action<M>, c: Config<M>)
    requires OneFlush(x) && Enabled(x, a, c)
    ensures OneFlush(Step(x, a, c))
  {
    hide OneFlush;
    if a.Tick? || a.TrySemaphore? || a.EndFlush? {
      FlushStepKeepsOne(x, a, c);
    } else {
      LeavesFlushes(x, a, c);
      hide Step;
      SameFlushes(x, Step(x, a, c));
    }
  }

  lemma LeavesFlushes<M>(x: System<M>, a: Action<M>, c: Config<M>)
    requires Enabled(x, a, c) && !a.Tick? && !a.TrySemaphore? && !a.EndFlush?
    ensures Step(x, a, c).semaphore == x.semaphore && Step(x, a, c).flushes == x.flushes
  {}

  lemma FlushStepKeepsOne<M>(x: System<M>, a: Action<M>, c: Config<M>)
    requires OneFlush(x) && Enabled(x, a, c) && (a.Tick? || a.TrySemaphore? || a.EndFlush?)
    ensures OneFlush(Step(x, a, c))
  {
    hide OneFlush;
    match a
    case Tick => FlushStarts(x, x.(flushes := x.flushes + [Started]));
    case TrySemaphore(k) =>
      if x.semaphore == 0 {
        FlushHolds(x, x.(semaphore := 1, flushes := x.flushes[k := Holding]), k);
      } else {
        FlushEnds(x, x.(flushes := x.flushes[k := Ended]), k);
      }
    case EndFlush(k) => FlushReleases(x, x.(semaphore := 0, flushes := x.flushes[k := Ended]), k);
  }

  lemma FlushStarts<M>(x: System<M>, y: System<M>)
    requires OneFlush(x) && y.semaphore == x.semaphore && y.flushes == x.flushes + [Started]
    ensures OneFlush(y)
  {
    if k :| 0 <= k < |x.flushes| && x.flushes[k].Holding? {
      assert y.flushes[k].Holding?;
    }
  }

  lemma FlushHolds<M>(x: System<M>, y: System<M>, k: nat)
    requires OneFlush(x) && x.semaphore == 0 && k < |x.flushes|
    requires y.semaphore == 1 && y.flushes == x.flushes[k := Holding]
    ensures OneFlush(y)
  {
    assert y.flushes[k].Holding?;
  }

  lemma FlushEnds<M>(x: System<M>, y: System<M>, k: nat)
    requires OneFlush(x) && k < |x.flushes| && x.flushes[k].Started?
    requires y.semaphore == x.semaphore && y.flushes == x.flushes[k := Ended]
    ensures OneFlush(y)
  {
    if j :| 0 <= j < |x.flushes| && x.flushes[j].Holding? {
      assert y.flushes[j].Holding?;
    }
  }

  lemma FlushReleases<M>(x: System<M>, y: System<M>, k: nat)
    requires OneFlush(x) && k < |x.flushes| && x.flushes[k].Holding?
    requires y.semaphore == 0 && y.flushes == x.flushes[k := Ended]
    ensures OneFlush(y)
  {}

  lemma SameFlushes<M>(x: System<M>, y: System<M>)
    requires OneFlush(x) && y.semaphore == x.semaphore && y.flushes == x.flushes
    ensures OneFlush(y)
  {}

  ghost predicate IsRun<M>(xs: seq<System<M>>, actions: seq<Action<M>>, c: Config<M>) {
    |xs| == |actions| + 1 && xs[0] == Start(c) &&
    forall i :: 0 <= i < |actions| ==> Enabled(xs[i], actions[i], c) && xs[i + 1] == Step(xs[i], actions[i], c)
  }

  ghost predicate Inv<M>(x: System<M>, c: Config<M>) {
    FanOut(x, c) && Processing(x, c) && Forwards(x, c) && OneFlush(x)
  }

  lemma {:induction false} EveryRunKeepsInv<M>(xs: seq<System<M>>, actions: seq<Action<M>>, c: Config<M>, k: nat)
    requires IsRun(xs, actions, c) && k <= |actions|
    ensures Inv(xs[k], c)
    decreases k
  {
    hide Enabled, Step, FanOut, Processing, Forwards, OneFlush;
    if k == 0 {
      StartInv(c);
    } else {
      EveryRunKeepsInv(xs, actions, c, k - 1);
      StepKeepsFanOut(xs[k - 1], actions[k - 1], c);
      StepKeepsProcessing(xs[k - 1], actions[k - 1], c);
      StepKeepsForwarding(xs[k - 1], actions[k - 1], c);
      StepKeepsOneFlush(xs[k - 1], actions[k - 1], c);
    }
  }

  lemma StartInv<M>(c: Config<M>)
    ensures Inv(Start(c), c)
  {
    StartFanOut(c);
    StartProcessing(c);
    hide FanOut, Processing;
  }

  lemma StartFanOut<M>(c: Config<M>)
    ensures FanOut(Start(c), c)
  {
    var x := Start(c);
    assert Metrics(x.sent) == [];
  }

  lemma StartProcessing<M>(c: Config<M>)
    ensures Processing(Start(c), c)
  {
    var x := Start(c);
    assert Items(x.processed) == [] && Todo(x) == [];
    assert forall j :: OfferedTo(x, j) == [];
  }

  /** In every interleaving each output has a prefix of what was sent, and two outputs differ by at most one metric. */
  lemma OutputsFollowSent<M>(xs: seq<System<M>>, actions: seq<Action<M>>, c: Config<M>, k: nat, i: nat, j: nat)
    requires IsRun(xs, actions, c) && k <= |actions| && i < c.outputs && j < c.outputs
    ensures var x := xs[k];
            i < |x.outputs| && j < |x.outputs| &&
            x.outputs[i] <= Metrics(x.sent) && x.outputs[j] <= Metrics(x.sent) &&
            -1 <= |x.outputs[i]| - |x.outputs[j]| <= 1
  {
    hide Enabled, Step, Processing, Forwards, OneFlush;
    EveryRunKeepsInv(xs, actions, c, k);
  }

  /**
   In every interleaving the metric goroutine sends each metric the processors returned exactly once and
   in order, except those that some drop_original aggregator accepted; once it is idle it has dealt with
   everything it took. Each aggregate is sent exactly once and in order, as the processors left its object,
   whatever they returned.
   */
  lemma EachProcessedMetricOnce<M>(xs: seq<System<M>>, actions: seq<Action<M>>, c: Config<M>, k: nat)
    requires IsRun(xs, actions, c) && k <= |actions|
    ensures var x := xs[k];
            From(x.sent, Gathered) == Undropped(c, Items(x.processed)) &&
            Items(x.processed) <= Returned(x.taken) && Given(x.taken) <= x.gathered && Possible(x.taken, c) &&
            (!x.metricPc.Working? ==> Items(x.processed) == Returned(x.taken))
    ensures var x := xs[k];
            From(x.sent, Aggregated) == Left(x.forwarded) && Given(x.forwarded) <= x.aggregated && Possible(x.forwarded, c)
    ensures var x := xs[k];
            !x.metricPc.Working? ==>
              forall j :: 0 <= j < |c.aggregators| <= |x.aggInputs| ==>
                x.aggInputs[j] == AcceptedBy(c.aggregators[j], Returned(x.taken))
  {
    hide Enabled, Step, FanOut, OneFlush, From, Kept, Returned, AcceptedBy, Drops, Possible;
    EveryRunKeepsInv(xs, actions, c, k);
    KeptIsUndropped(c, xs[k].processed);
    var x := xs[k];
    if !x.metricPc.Working? {
      assert Items(x.processed) + [] == Items(x.processed);
      assert forall j :: OfferedTo(x, j) == Items(x.processed);
    }
  }

  /** The processors are functions: what they return and what they leave depends on the metric alone. */
  ghost predicate Functional<M(!new)>(c: Config<M>, process: M -> seq<M>, touch: M -> M) {
    forall p: Pass<M> :: c.may(p) ==> p.out == process(p.given) && p.left == touch(p.given)
  }

  function ProcessAll<M>(process: M -> seq<M>, ms: seq<M>): seq<M> {
    if ms == [] then [] else ProcessAll(process, ms[..|ms| - 1]) + process(ms[|ms| - 1])
  }

  lemma {:induction false} ReturnedProcessed<M(!new)>(c: Config<M>, passes: seq<Pass<M>>, process: M -> seq<M>, touch: M -> M)
    requires Functional(c, process, touch) && Possible(passes, c)
    ensures Returned(passes) == ProcessAll(process, Given(passes)) && Left(passes) == Map(touch, Given(passes))
  {
    if passes != [] {
      var front := passes[..|passes| - 1];
      ReturnedProcessed(c, front, process, touch);
      assert Given(passes)[..|passes| - 1] == Given(front);
    }
  }

  /** In particular with processors that keep no state. */
  lemma FunctionalProcessors<M(!new)>(xs: seq<System<M>>, actions: seq<Action<M>>, c: Config<M>, k: nat,
                                      process: M -> seq<M>, touch: M -> M)
    requires IsRun(xs, actions, c) && k <= |actions| && Functional(c, process, touch)
    ensures var x := xs[k];
            Items(x.processed) <= ProcessAll(process, Given(x.taken)) && Given(x.taken) <= x.gathered &&
            From(x.sent, Aggregated) <= Map(touch, x.aggregated)
  {
    hide Enabled, Step, Functional, Undropped, AcceptedBy, From, Returned, ProcessAll;
    EachProcessedMetricOnce(xs, actions, c, k);
    ReturnedProcessed(c, xs[k].taken, process, touch);
    ReturnedProcessed(c, xs[k].forwarded, process, touch);
  }

  /** Those of the metrics that no drop_original aggregator accepts. */
  function Undropped<M>(c: Config<M>, ms: seq<M>): seq<M> {
    if ms == [] then []
    else
      var m := ms[|ms| - 1];
      Undropped(c, ms[..|ms| - 1]) + if Drops(c, m, |c.aggregators|) then [] else [m]
  }

  lemma {:induction false} KeptIsUndropped<M>(c: Config<M>, items: seq<Item<M>>)
    requires forall i :: 0 <= i < |items| ==> items[i].dropped == Drops(c, items[i].m, |c.aggregators|)
    ensures Kept(items) == Undropped(c, Items(items))
  {
    hide Drops;
    if items != [] {
      var front := items[..|items| - 1];
      KeptIsUndropped(c, front);
      assert Items(items)[..|items| - 1] == Items(front);
    }
  }

  /** At most one ticker-started flush holds the semaphore at any time. */
  lemma FlushesExcludeEachOther<M>(xs: seq<System<M>>, actions: seq<Action<M>>, c: Config<M>, k: nat, i: nat, j: nat)
    requires IsRun(xs, actions, c) && k <= |actions| && i < |xs[k].flushes| && j < |xs[k].flushes| && i != j
    ensures !(xs[k].flushes[i].Holding? && xs[k].flushes[j].Holding?)
  {
    hide Enabled, Step, FanOut, Processing, Forwards;
    EveryRunKeepsInv(xs, actions, c, k);
  }

  /** In every interleaving a scheduled flush is skipped if and only if another one holds the semaphore then. */
  lemma SkippedIffBusy<M>(xs: seq<System<M>>, actions: seq<Action<M>>, c: Config<M>, k: nat)
    requires IsRun(xs, actions, c) && k < |actions| && actions[k].TrySemaphore?
    ensures xs[k].semaphore <= 1 && (xs[k].semaphore == 1 <==> SomeHolding(xs[k]))
    ensures var j := actions[k].k;
            j < |xs[k + 1].flushes| && !xs[k + 1].flushes[j].Started? &&
            (xs[k + 1].flushes[j].Ended? <==> SomeHolding(xs[k]))
  {
    hide FanOut, Processing, Forwards;
    EveryRunKeepsInv(xs, actions, c, k);
  }

  // ---------- Shutdown ----------

  /** The output goroutine has left at `w`, and gone on is all since; `x` holds what was sent in between. */
  ghost predicate LeftAt<M>(w: System<M>, x: System<M>, c: Config<M>) {
    && w.outputPc.OutputIdle? && w.outC == [] && x.outputPc.OutputDone?
    && w.sent <= x.sent && x.outC == Metrics(x.sent[|w.sent|..])
    && |x.outputs| == c.outputs && forall i :: 0 <= i < c.outputs ==> x.outputs[i] == Metrics(w.sent)
  }

  lemma StaysLeft<M>(w: System<M>, x: System<M>, a: Action<M>, c: Config<M>)
    requires LeftAt(w, x, c) && Enabled(x, a, c)
    ensures LeftAt(w, Step(x, a, c), c)
  {
    var y := Step(x, a, c);
    SendsAtMostOne(x, a, c);
    var n := |w.sent|;
    if y.sent != x.sent {
      assert y.sent[n..] == x.sent[n..] + [y.sent[|x.sent|]];
      assert Metrics(y.sent[n..]) == Metrics(x.sent[n..]) + [y.sent[|x.sent|].m];
    }
  }

  /** With the output goroutine gone, a step sends one metric or none, and takes none out. */
  lemma SendsAtMostOne<M>(x: System<M>, a: Action<M>, c: Config<M>)
    requires Enabled(x, a, c) && x.outputPc.OutputDone?
    ensures var y := Step(x, a, c);
            y.outputPc.OutputDone? && y.outputs == x.outputs &&
            ((y.sent == x.sent && y.outC == x.outC) ||
             (|y.sent| == |x.sent| + 1 && y.sent[..|x.sent|] == x.sent && y.outC == x.outC + [y.sent[|x.sent|].m]))
  {}

  lemma LeavesNow<M>(x: System<M>, a: Action<M>, c: Config<M>)
    requires FanOut(x, c) && Enabled(x, a, c) && !x.outputPc.OutputDone? && Step(x, a, c).outputPc.OutputDone?
    ensures a.StopOutput? && LeftAt(x, Step(x, a, c), c)
  {
    OnlyStopLeaves(x, a, c);
    hide Enabled;
    assert x.sent[|x.sent|..] == [];
    assert Metrics<M>([]) == [];
  }

  lemma OnlyStopLeaves<M>(x: System<M>, a: Action<M>, c: Config<M>)
    requires Enabled(x, a, c) && !x.outputPc.OutputDone? && Step(x, a, c).outputPc.OutputDone?
    ensures a.StopOutput? && x.outputPc.OutputIdle? && x.outC == [] && Step(x, a, c) == x.(outputPc := OutputDone)
  {}

  /** Once the output goroutine is gone, the channel holds exactly what was sent after it left. */
  lemma {:induction false} ChannelAfterLeaving<M>(xs: seq<System<M>>, actions: seq<Action<M>>, c: Config<M>, k: nat)
    returns (s: nat)
    requires IsRun(xs, actions, c) && k <= |actions| && xs[k].outputPc.OutputDone?
    ensures s < k && actions[s].StopOutput? && LeftAt(xs[s], xs[k], c)
    decreases k
  {
    hide Enabled, Step, Processing, Forwards, OneFlush, FanOut, LeftAt;
    NotGoneAtStart(c);
    if xs[k - 1].outputPc.OutputDone? {
      s := ChannelAfterLeaving(xs, actions, c, k - 1);
      StaysLeft(xs[s], xs[k - 1], actions[k - 1], c);
    } else {
      EveryRunKeepsInv(xs, actions, c, k - 1);
      s := k - 1;
      LeavesNow(xs[k - 1], actions[k - 1], c);
    }
  }

  lemma NotGoneAtStart<M>(c: Config<M>)
    ensures !Start(c).outputPc.OutputDone? && !Start(c).metricPc.MetricDone? && Start(c).mainPc.Running?
  {}

  ghost predicate AllGone<M>(x: System<M>) {
    x.metricPc.MetricDone? && x.aggregatePc.AggregateDone? && x.outputPc.OutputDone?
  }

  /** The last flush waits for all three goroutines. */
  lemma {:induction false} LastFlushWaits<M>(xs: seq<System<M>>, actions: seq<Action<M>>, c: Config<M>, k: nat)
    requires IsRun(xs, actions, c) && k <= |actions| && (xs[k].mainPc.LastFlush? || xs[k].mainPc.Finished?)
    ensures AllGone(xs[k])
    decreases k
  {
    hide Enabled, Step;
    NotGoneAtStart(c);
    if xs[k - 1].mainPc.LastFlush? || xs[k - 1].mainPc.Finished? {
      LastFlushWaits(xs, actions, c, k - 1);
    }
    FlushStep(xs[k - 1], actions[k - 1], c);
  }

  lemma FlushStep<M>(x: System<M>, a: Action<M>, c: Config<M>)
    requires Enabled(x, a, c)
    ensures var y := Step(x, a, c);
            (AllGone(x) ==> AllGone(y)) &&
            (y.mainPc.LastFlush? || y.mainPc.Finished? ==> x.mainPc.LastFlush? || x.mainPc.Finished? || AllGone(y))
  {}

  /**
   In every interleaving: when the last flush starts, the outputs have exactly what was sent before the
   output goroutine left, and the rest is stranded in the channel. So shutdown drains the channel if and
   only if nothing was sent after that.
   */
  lemma ShutdownDrainsIff<M>(xs: seq<System<M>>, actions: seq<Action<M>>, c: Config<M>, k: nat) returns (s: nat)
    requires IsRun(xs, actions, c) && k <= |actions| && (xs[k].mainPc.LastFlush? || xs[k].mainPc.Finished?)
    ensures s < k && actions[s].StopOutput?
    ensures var w, x := xs[s], xs[k];
            w.sent <= x.sent && x.outC == Metrics(x.sent[|w.sent|..]) &&
            (forall i :: 0 <= i < |x.outputs| ==> x.outputs[i] == Metrics(w.sent)) &&
            (x.outC == [] <==> x.sent == w.sent)
  {
    hide Enabled, Step;
    LastFlushWaits(xs, actions, c, k);
    s := ChannelAfterLeaving(xs, actions, c, k);
    assert xs[k].sent == xs[s].sent + xs[k].sent[|xs[s].sent|..];
  }

  /** The metric goroutine has left at `w`, when it had taken all that was gathered; it has done nothing since. */
  ghost predicate MetricLeftAt<M>(w: System<M>, x: System<M>) {
    && w.shutdown && w.metricC == [] && Given(w.taken) == w.gathered && Items(w.processed) == Returned(w.taken)
    && x.metricPc.MetricDone? && x.taken == w.taken && x.processed == w.processed && x.aggInputs == w.aggInputs
  }

  lemma MetricLeaves<M>(x: System<M>, a: Action<M>, c: Config<M>)
    requires Processing(x, c) && Enabled(x, a, c) && !x.metricPc.MetricDone? && Step(x, a, c).metricPc.MetricDone?
    ensures a.StopMetric? && MetricLeftAt(x, Step(x, a, c))
  {
    hide Returned, From, Kept, AcceptedBy, Drops;
    OnlyStopMetricLeaves(x, a, c);
    hide Step, Enabled;
    assert Given(x.taken) + [] == Given(x.taken) && Items(x.processed) + [] == Items(x.processed);
  }

  lemma OnlyStopMetricLeaves<M>(x: System<M>, a: Action<M>, c: Config<M>)
    requires Enabled(x, a, c) && !x.metricPc.MetricDone? && Step(x, a, c).metricPc.MetricDone?
    ensures a.StopMetric? && x.metricPc.MetricIdle? && x.shutdown && x.metricC == []
    ensures Step(x, a, c) == x.(metricPc := MetricDone, aggOpen := false)
  {}

  lemma MetricStaysGone<M>(x: System<M>, a: Action<M>, c: Config<M>)
    requires Enabled(x, a, c) && x.metricPc.MetricDone?
    ensures var y := Step(x, a, c);
            y.metricPc.MetricDone? && y.taken == x.taken && y.processed == x.processed && y.aggInputs == x.aggInputs
  {}

  lemma {:induction false} MetricGone<M>(xs: seq<System<M>>, actions: seq<Action<M>>, c: Config<M>, k: nat) returns (s: nat)
    requires IsRun(xs, actions, c) && k <= |actions| && xs[k].metricPc.MetricDone?
    ensures s < k && actions[s].StopMetric? && MetricLeftAt(xs[s], xs[k])
    decreases k
  {
    hide Enabled, Step, Processing, Forwards, OneFlush, FanOut;
    NotGoneAtStart(c);
    if xs[k - 1].metricPc.MetricDone? {
      s := MetricGone(xs, actions, c, k - 1);
      MetricStaysGone(xs[k - 1], actions[k - 1], c);
    } else {
      EveryRunKeepsInv(xs, actions, c, k - 1);
      s := k - 1;
      MetricLeaves(xs[k - 1], actions[k - 1], c);
    }
  }

  /** The aggregate channel is closed with the metric goroutine, and drained before the aggregate goroutine leaves. */
  ghost predicate Closing<M>(x: System<M>) {
    (x.aggOpen <==> !x.metricPc.MetricDone?) && (x.aggregatePc.AggregateDone? ==> !x.aggOpen && x.aggC == [])
  }

  lemma StepKeepsClosing<M>(x: System<M>, a: Action<M>, c: Config<M>)
    requires Closing(x) && Enabled(x, a, c)
    ensures Closing(Step(x, a, c))
  {}

  lemma {:induction false} EveryRunKeepsClosing<M>(xs: seq<System<M>>, actions: seq<Action<M>>, c: Config<M>, k: nat)
    requires IsRun(xs, actions, c) && k <= |actions|
    ensures Closing(xs[k])
    decreases k
  {
    hide Enabled, Step;
    if k > 0 {
      EveryRunKeepsClosing(xs, actions, c, k - 1);
      StepKeepsClosing(xs[k - 1], actions[k - 1], c);
    }
  }

  /**
   In every interleaving: when the last flush starts, everything gathered before the metric goroutine left
   has been processed, offered to the aggregators and sent, unless dropped; and every aggregate has been sent.
   */
  lemma ShutdownFinishesWork<M>(xs: seq<System<M>>, actions: seq<Action<M>>, c: Config<M>, k: nat) returns (s: nat)
    requires IsRun(xs, actions, c) && k <= |actions| && (xs[k].mainPc.LastFlush? || xs[k].mainPc.Finished?)
    ensures s < k && actions[s].StopMetric?
    ensures var x := xs[k];
            Given(x.taken) == xs[s].gathered && From(x.sent, Gathered) == Undropped(c, Returned(x.taken)) &&
            Given(x.forwarded) == x.aggregated && From(x.sent, Aggregated) == Left(x.forwarded)
  {
    hide Enabled, Step, Undropped, From, FanOut, OneFlush, Returned;
    LastFlushWaits(xs, actions, c, k);
    s := MetricGone(xs, actions, c, k);
    EachProcessedMetricOnce(xs, actions, c, k);
    EveryRunKeepsClosing(xs, actions, c, k);
    EveryRunKeepsInv(xs, actions, c, k);
    var x := xs[k];
    assert Given(x.forwarded) + [] + [] == Given(x.forwarded);
  }

  // ---------- When shutdown hangs ----------

  /** A step of the main goroutine or of one of the three others; tickers no longer matter. */
  predicate OfGoroutines<M>(a: Action<M>) {
    match a
    case Gather(_) | Aggregate(_) | Shutdown | Tick | TrySemaphore(_) | EndFlush(_) => false
    case _ => true
  }

  ghost predicate CanMove<M(!new)>(x: System<M>, c: Config<M>) {
    exists a: Action<M> :: OfGoroutines(a) && Enabled(x, a, c)
  }

  /** The processors always come back. */
  ghost predicate Total<M(!new)>(c: Config<M>) {
    forall m :: CanPass(c, m)
  }

  ghost predicate CanPass<M(!new)>(c: Config<M>, m: M) {
    exists pass: Pass<M> :: pass.given == m && c.may(pass)
  }

  /** The metric goroutine has a metric to send and nothing else to do. */
  predicate WantsToSend<M>(x: System<M>, c: Config<M>) {
    x.metricPc.Working? && x.metricPc.todo != [] && x.metricPc.next == |c.aggregators| && !x.metricPc.drop
  }

  /** The output goroutine has left, the channel is full, and another one waits to send. */
  predicate Hangs<M>(x: System<M>, c: Config<M>) {
    && x.mainPc.Waiting? && x.outputPc.OutputDone? && |x.outC| >= CAPACITY
    && (WantsToSend(x, c) || x.aggregatePc.Forwarding?)
    && (WantsToSend(x, c) || x.metricPc.MetricDone?)
    && (x.aggregatePc.Forwarding? || x.aggregatePc.AggregateDone? || (x.aggregatePc.AggregateIdle? && x.aggC == [] && x.aggOpen))
  }

  /**
   In every interleaving after the shutdown signal: the goroutines can go on until the last flush is done,
   except when the output goroutine has left and another one waits to send on the full channel.
   */
  lemma ShutdownHangsIff<M(!new)>(xs: seq<System<M>>, actions: seq<Action<M>>, c: Config<M>, k: nat)
    requires IsRun(xs, actions, c) && k <= |actions| && xs[k].shutdown && !xs[k].mainPc.Finished? && Total(c)
    ensures CanMove(xs[k], c) <==> !Hangs(xs[k], c)
  {
    hide Step, FanOut, Forwards, OneFlush, Enabled;
    EveryRunKeepsInv(xs, actions, c, k);
    EveryRunKeepsClosing(xs, actions, c, k);
    var x := xs[k];
    hide IsRun;
    if Hangs(x, c) {
      forall a: Action<M> | OfGoroutines(a) ensures !Enabled(x, a, c) { HangingDisables(x, a, c); }
    } else {
      SomeMove(x, c);
    }
  }

  lemma HangingDisables<M>(x: System<M>, a: Action<M>, c: Config<M>)
    requires Hangs(x, c) && OfGoroutines(a)
    ensures !Enabled(x, a, c)
  {}

  lemma Moves<M(!new)>(x: System<M>, a: Action<M>, c: Config<M>)
    requires OfGoroutines(a) && Enabled(x, a, c)
    ensures CanMove(x, c)
  {}

  lemma SomeMove<M(!new)>(x: System<M>, c: Config<M>)
    requires Processing(x, c) && Closing(x) && Total(c) && x.shutdown && !x.mainPc.Finished? && !Hangs(x, c)
    ensures CanMove(x, c)
  {
    hide CanMove, Processing, Step;
    if x.mainPc.Running? {
      Moves(x, MainWait, c);
    } else if x.mainPc.LastFlush? {
      Moves(x, MainEnd, c);
    } else if x.outputPc.FanningOut? {
      Moves(x, ServeOutput, c);
    } else if x.outputPc.OutputIdle? {
      Moves(x, if x.outC == [] then StopOutput else TakeOut, c);
    } else if !x.metricPc.MetricDone? && !(WantsToSend(x, c) && |x.outC| >= CAPACITY) {
      MetricMoves(x, c);
    } else if !x.aggregatePc.AggregateDone? && !(x.aggregatePc.Forwarding? && |x.outC| >= CAPACITY) &&
              !(x.aggregatePc.AggregateIdle? && x.aggC == [] && x.aggOpen) {
      AggregateMoves(x, c);
    } else {
      hide Enabled;
      assert AllGone(x);
      GoneMoves(x, c);
    }
  }

  lemma GoneMoves<M(!new)>(x: System<M>, c: Config<M>)
    requires AllGone(x) && x.mainPc.Waiting?
    ensures CanMove(x, c)
  {
    hide CanMove;
    Moves(x, MainFlush, c);
  }

  lemma MetricMoves<M(!new)>(x: System<M>, c: Config<M>)
    requires Processing(x, c) && Total(c) && x.shutdown && !x.metricPc.MetricDone?
    requires WantsToSend(x, c) ==> |x.outC| < CAPACITY
    ensures CanMove(x, c)
  {
    hide CanMove, Step, Drops, From, Kept, AcceptedBy, Returned, OfferedTo, Items, Given, Possible;
    if x.metricPc.MetricIdle? {
      if x.metricC == [] {
        Moves(x, StopMetric, c);
      } else {
        assert CanPass(c, x.metricC[0]);
        var pass: Pass<M> :| pass.given == x.metricC[0] && c.may(pass);
        Moves(x, TakeMetric(pass), c);
      }
    } else {
      WorkingMoves(x, c);
    }
  }

  lemma AggregateMoves<M(!new)>(x: System<M>, c: Config<M>)
    requires Total(c) && !x.aggregatePc.AggregateDone?
    requires x.aggregatePc.Forwarding? ==> |x.outC| < CAPACITY
    requires x.aggregatePc.AggregateIdle? && x.aggC == [] ==> !x.aggOpen
    ensures CanMove(x, c)
  {
    hide CanMove, Step;
    if x.aggregatePc.Forwarding? {
      Moves(x, ForwardAggregate, c);
    } else if x.aggC != [] {
      assert CanPass(c, x.aggC[0]);
      var pass: Pass<M> :| pass.given == x.aggC[0] && c.may(pass);
      Moves(x, TakeAggregate(pass), c);
    } else {
      Moves(x, StopAggregate, c);
    }
  }

  /** Nothing to do: all goroutines wait on empty channels. */
  predicate Quiet<M>(x: System<M>) {
    && x.metricPc.MetricIdle? && x.metricC == [] && x.aggregatePc.AggregateIdle? && x.aggC == []
    && x.outputPc.OutputIdle? && x.outC == []
  }

  /** Before the shutdown signal nobody leaves. */
  ghost predicate NobodyLeft<M>(x: System<M>) {
    !x.shutdown ==>
      !x.metricPc.MetricDone? && !x.aggregatePc.AggregateDone? && !x.outputPc.OutputDone? && x.aggOpen && x.mainPc.Running?
  }

  lemma StepKeepsNobodyLeft<M>(x: System<M>, a: Action<M>, c: Config<M>)
    requires NobodyLeft(x) && Enabled(x, a, c)
    ensures NobodyLeft(Step(x, a, c))
  {}

  lemma {:induction false} EveryRunKeepsNobodyLeft<M>(xs: seq<System<M>>, actions: seq<Action<M>>, c: Config<M>, k: nat)
    requires IsRun(xs, actions, c) && k <= |actions|
    ensures NobodyLeft(xs[k])
    decreases k
  {
    hide Enabled, Step;
    if k > 0 {
      EveryRunKeepsNobodyLeft(xs, actions, c, k - 1);
      StepKeepsNobodyLeft(xs[k - 1], actions[k - 1], c);
    }
  }

  /** In every interleaving before the shutdown signal: the goroutines can go on until there is nothing left to do. */
  lemma WorkGoesOnIff<M(!new)>(xs: seq<System<M>>, actions: seq<Action<M>>, c: Config<M>, k: nat)
    requires IsRun(xs, actions, c) && k <= |actions| && !xs[k].shutdown && Total(c)
    ensures CanMove(xs[k], c) <==> !Quiet(xs[k])
  {
    hide Step, FanOut, Forwards, OneFlush, Enabled;
    EveryRunKeepsInv(xs, actions, c, k);
    EveryRunKeepsNobodyLeft(xs, actions, c, k);
    var x := xs[k];
    hide IsRun;
    if Quiet(x) {
      forall a: Action<M> | OfGoroutines(a) ensures !Enabled(x, a, c) { QuietDisables(x, a, c); }
    } else {
      WorkMoves(x, c);
    }
  }

  lemma QuietDisables<M>(x: System<M>, a: Action<M>, c: Config<M>)
    requires Quiet(x) && NobodyLeft(x) && !x.shutdown && OfGoroutines(a)
    ensures !Enabled(x, a, c)
  {}

  lemma WorkMoves<M(!new)>(x: System<M>, c: Config<M>)
    requires Processing(x, c) && NobodyLeft(x) && !x.shutdown && Total(c) && !Quiet(x)
    ensures CanMove(x, c)
  {
    hide CanMove, Processing, Step;
    if x.outputPc.FanningOut? {
      Moves(x, ServeOutput, c);
    } else if x.outC != [] {
      Moves(x, TakeOut, c);
    } else if x.metricPc.Working? {
      WorkingMoves(x, c);
    } else if x.metricC != [] {
      assert CanPass(c, x.metricC[0]);
      var pass: Pass<M> :| pass.given == x.metricC[0] && c.may(pass);
      Moves(x, TakeMetric(pass), c);
    } else {
      AggregateMoves(x, c);
    }
  }

  lemma WorkingMoves<M(!new)>(x: System<M>, c: Config<M>)
    requires Processing(x, c) && x.metricPc.Working? && (WantsToSend(x, c) ==> |x.outC| < CAPACITY)
    ensures CanMove(x, c)
  {
    hide CanMove, Step, Drops, From, Kept, AcceptedBy, Returned, OfferedTo, Items, Given, Possible;
    if x.metricPc.todo != [] && x.metricPc.next < |c.aggregators| {
      Moves(x, OfferAggregator, c);
    } else {
      Moves(x, Finish, c);
    }
  }

  /** All goroutines but that of the outputs are up, with nothing to do, and `n` metrics wait to be put out. */
  ghost predicate Waits<M>(x: System<M>, n: nat) {
    && x.shutdown && x.outputPc.OutputDone? && x.mainPc.Running? && |x.outC| == n
    && x.metricPc.MetricIdle? && x.metricC == [] && x.aggregatePc.AggregateIdle? && x.aggC == [] && x.aggOpen
  }

  lemma {:induction false} FillsUp<M>(c: Config<M>, m: M, n: nat)
    returns (xs: seq<System<M>>, actions: seq<Action<M>>, x: System<M>)
    requires c.may(Pass(m, [m], m)) && c.aggregators == [] && n <= CAPACITY
    ensures IsRun(xs, actions, c) && |xs| == |actions| + 1 && x == xs[|actions|] && Waits(x, n)
  {
    if n == 0 {
      xs, actions := [Start(c)], [];
      assert IsRun(xs, actions, c);
      hide IsRun;
      xs, actions, x := Extend(xs, actions, c, Shutdown);
      xs, actions, x := Extend(xs, actions, c, StopOutput);
    } else {
      xs, actions, x := FillsUp(c, m, n - 1);
      hide IsRun;
      xs, actions, x := Extend(xs, actions, c, Gather(m));
      xs, actions, x := Extend(xs, actions, c, TakeMetric(Pass(m, [m], m)));
      xs, actions, x := Extend(xs, actions, c, Finish);
      xs, actions, x := Extend(xs, actions, c, Finish);
    }
  }

  /** Such a state can be reached: when enough metrics follow after the output goroutine has left. */
  lemma ShutdownCanHang<M>(c: Config<M>, m: M) returns (xs: seq<System<M>>, actions: seq<Action<M>>)
    requires c.may(Pass(m, [m], m)) && c.aggregators == []
    ensures IsRun(xs, actions, c) && |xs| == |actions| + 1 && xs[|actions|].shutdown && Hangs(xs[|actions|], c)
  {
    var x;
    xs, actions, x := FillsUp(c, m, CAPACITY);
    hide IsRun;
    xs, actions, x := Extend(xs, actions, c, Gather(m));
    xs, actions, x := Extend(xs, actions, c, TakeMetric(Pass(m, [m], m)));
    xs, actions, x := Extend(xs, actions, c, MainWait);
  }

  /**
   Shutting down does not drain: the output goroutine may leave before a last metric is sent, and the
   final flush then starts with that metric still in the channel.
   */
  lemma ShutdownCanStrandMetric<M>(c: Config<M>, m: M) returns (xs: seq<System<M>>, actions: seq<Action<M>>)
    requires c.may(Pass(m, [m], m)) && c.aggregators == [] && c.outputs == 1
    ensures IsRun(xs, actions, c) && |xs| == |actions| + 1 &&
            var x := xs[|actions|];
            x.mainPc.LastFlush? && x.outC == [m] && x.outputs == [[]]
  {
    hide IsRun, Start;
    var x := Start(c);
    xs, actions, x := OutputLeavesEarly(c, m);
    xs, actions, x := SendAfterwards(xs, actions, c, x, m);
    xs, actions, x := StopTheRest(xs, actions, c, x);
    OneOutput(c);
  }

  lemma OneOutput<M>(c: Config<M>)
    requires c.outputs == 1
    ensures Start(c).outputs == [[]]
  {}

  lemma OutputLeavesEarly<M>(c: Config<M>, m: M) returns (xs: seq<System<M>>, actions: seq<Action<M>>, x: System<M>)
    ensures IsRun(xs, actions, c) && |xs| == |actions| + 1 && x == xs[|actions|]
    ensures x == Start(c).(metricC := [m], gathered := [m], shutdown := true, outputPc := OutputDone)
    ensures x.metricPc.MetricIdle? && x.aggregatePc.AggregateIdle? && x.mainPc.Running? && x.outC == x.aggC == []
  {
    xs, actions := [Start(c)], [];
    assert IsRun(xs, actions, c);
    hide IsRun;
    xs, actions, x := Extend(xs, actions, c, Gather(m));
    xs, actions, x := Extend(xs, actions, c, Shutdown);
    xs, actions, x := Extend(xs, actions, c, StopOutput);
  }

  lemma StopTheRest<M>(xs: seq<System<M>>, actions: seq<Action<M>>, c: Config<M>, x: System<M>)
    returns (ys: seq<System<M>>, bs: seq<Action<M>>, y: System<M>)
    requires IsRun(xs, actions, c) && |xs| == |actions| + 1 && x == xs[|actions|]
    requires x.metricPc.MetricIdle? && x.shutdown && x.metricC == x.aggC == [] && x.aggregatePc.AggregateIdle?
    requires x.outputPc.OutputDone? && x.mainPc.Running?
    ensures IsRun(ys, bs, c) && |ys| == |bs| + 1 && y == ys[|bs|]
    ensures y == x.(metricPc := MetricDone, aggOpen := false, aggregatePc := AggregateDone, mainPc := LastFlush)
  {
    hide IsRun;
    ys, bs, y := Extend(xs, actions, c, StopMetric);
    ys, bs, y := Extend(ys, bs, c, StopAggregate);
    ys, bs, y := Extend(ys, bs, c, MainWait);
    ys, bs, y := Extend(ys, bs, c, MainFlush);
  }

  lemma SendAfterwards<M>(xs: seq<System<M>>, actions: seq<Action<M>>, c: Config<M>, x: System<M>, m: M)
    returns (ys: seq<System<M>>, bs: seq<Action<M>>, y: System<M>)
    requires IsRun(xs, actions, c) && |xs| == |actions| + 1 && x == xs[|actions|] && c.may(Pass(m, [m], m)) && c.aggregators == []
    requires x.metricPc.MetricIdle? && x.metricC == [m] && x.outC == []
    ensures IsRun(ys, bs, c) && |ys| == |bs| + 1 && y == ys[|bs|]
    ensures y == x.(metricC := [], taken := x.taken + [Pass(m, [m], m)], outC := [m], sent := y.sent, processed := y.processed)
  {
    hide IsRun;
    ys, bs, y := Extend(xs, actions, c, TakeMetric(Pass(m, [m], m)));
    ys, bs, y := Extend(ys, bs, c, Finish);
    ys, bs, y := Extend(ys, bs, c, Finish);
  }

  lemma Extend<M>(xs: seq<System<M>>, actions: seq<Action<M>>, c: Config<M>, a: Action<M>)
    returns (ys: seq<System<M>>, bs: seq<Action<M>>, y: System<M>)
    requires IsRun(xs, actions, c) && |xs| == |actions| + 1 && Enabled(xs[|actions|], a, c)
    ensures IsRun(ys, bs, c) && |ys| == |bs| + 1 && y == ys[|bs|] == Step(xs[|actions|], a, c)
  {
    hide Enabled, Step;
    y := Step(xs[|actions|], a, c);
    ys, bs := xs + [y], actions + [a];
    assert forall i :: 0 <= i < |xs| ==> ys[i] == xs[i];
  }
}
