/**
 The aggregation loop of internal/models/running_aggregator.go: metrics pass through a channel, those
 inside the current window go to the aggregator, and every period its statistics are pushed and reset.

 Which ready case a `select` takes is not determined, so a run is driven by a list of events.
 Times are in nanoseconds.
 */
module RunningAggregators {
  import opened BasicStats
  import opened Options
  import opened Series

  const CHANNEL_CAPACITY: nat := 100

  datatype Config = Config(period: int, delay: int, filter: Metric -> Option<Metric>)

  datatype Event =
    | Offer(m: Metric)   // another goroutine calls Add
    | Take               // a metric is received from the channel
    | Tick               // the period ticker fires
    | Stop               // the shutdown case is chosen

  /** `groups` are the metrics behind each push so far, `pending` those added since the last one. */
  datatype Loop = Loop(
    queue: seq<Metric>, start: int, pending: seq<Metric>, groups: seq<seq<Metric>>,
    received: seq<Metric>, skipped: seq<Metric>, done: bool)

  /** Not before the start of the period, and not after its end plus truncation and delay. */
  predicate InWindow(m: Metric, start: int, slack: int, c: Config) {
    start <= m.time <= start + c.period + slack + c.delay
  }

  function Step(l: Loop, e: Event, slack: int, c: Config): Loop {
    match e
    case Offer(m) =>
      var kept := c.filter(m);
      if kept.Some? && |l.queue| < CHANNEL_CAPACITY then l.(queue := l.queue + [kept.value]) else l
    case Take =>
      if l.done || l.queue == [] then l
      else
        var m := l.queue[0];
        var l1 := l.(queue := l.queue[1..], received := l.received + [m]);
        if InWindow(m, l.start, slack, c) then l1.(pending := l.pending + [m])
        else l1.(skipped := l.skipped + [m])
    case Tick =>
      if l.done then l
      else l.(start := l.start + c.period, groups := l.groups + [l.pending], pending := [])
    case Stop =>
      if l.queue == [] then l.(done := true) else l
  }

  function After(l: Loop, events: seq<Event>, slack: int, c: Config): Loop {
    if events == [] then l else Step(After(l, events[..|events| - 1], slack, c), events[|events| - 1], slack, c)
  }

  function Begin(start: int): Loop { Loop([], start, [], [], [], [], false) }

  // ---------- What every run keeps ----------

  function Flatten(groups: seq<seq<Metric>>): seq<Metric> {
    if groups == [] then [] else Flatten(groups[..|groups| - 1]) + groups[|groups| - 1]
  }

  /** The metrics that entered the channel, in order. */
  function Sent(l: Loop): seq<Metric> { l.received + l.queue }

  ghost predicate AllInWindow(ms: seq<Metric>, start: int, slack: int, c: Config) {
    forall i :: 0 <= i < |ms| ==> InWindow(ms[i], start, slack, c)
  }

  /** Period k starts at start + k * period, and its push holds only metrics of its window. */
  ghost predicate Periodic(l: Loop, start: int, slack: int, c: Config) {
    && l.start == start + |l.groups| * c.period
    && AllInWindow(l.pending, l.start, slack, c)
    && forall k :: 0 <= k < |l.groups| ==> AllInWindow(l.groups[k], start + k * c.period, slack, c)
  }

  /** Each received metric is in exactly one place: one push, the running period, or skipped. */
  ghost predicate Accounted(l: Loop) {
    multiset(l.received) == multiset(Flatten(l.groups)) + multiset(l.pending) + multiset(l.skipped)
  }

  lemma StepPeriodic(l: Loop, e: Event, start: int, slack: int, c: Config)
    requires Periodic(l, start, slack, c)
    ensures Periodic(Step(l, e, slack, c), start, slack, c)
  {
    hide InWindow;
    NextPeriod(start, |l.groups|, c.period);
  }

  /** In every run period k starts at start + k * period, and each push holds only metrics of its own window. */
  lemma {:induction false} RunIsPeriodic(events: seq<Event>, start: int, slack: int, c: Config)
    ensures Periodic(After(Begin(start), events, slack, c), start, slack, c)
    ensures |After(Begin(start), events, slack, c).queue| <= CHANNEL_CAPACITY
  {
    hide Periodic;
    if events == [] {
      BeginsPeriodic(start, slack, c);
    } else {
      var front := events[..|events| - 1];
      RunIsPeriodic(front, start, slack, c);
      StepPeriodic(After(Begin(start), front, slack, c), events[|events| - 1], start, slack, c);
    }
  }

  lemma BeginsPeriodic(start: int, slack: int, c: Config)
    ensures Periodic(Begin(start), start, slack, c)
  {}

  lemma NextPeriod(start: int, k: nat, period: int)
    ensures start + k * period + period == start + (k + 1) * period
  {}

  lemma StepAccounts(l: Loop, e: Event, slack: int, c: Config)
    requires Accounted(l)
    ensures Accounted(Step(l, e, slack, c))
  {
    hide InWindow;
    if e.Tick? {
      var groups := l.groups + [l.pending];
      assert groups[..|groups| - 1] == l.groups;
    }
  }

  /** No received metric is lost or counted twice, whatever the schedule. */
  lemma {:induction false} RunAccounts(events: seq<Event>, start: int, slack: int, c: Config)
    ensures Accounted(After(Begin(start), events, slack, c))
  {
    if events != [] {
      var front := events[..|events| - 1];
      RunAccounts(front, start, slack, c);
      StepAccounts(After(Begin(start), front, slack, c), events[|events| - 1], slack, c);
    }
  }

  // ---------- Which metrics a push covers, said over the events ----------

  /** The metrics that entered the channel, in order. */
  function Entered(events: seq<Event>, c: Config): seq<Metric>
    decreases |events|, 0
  {
    if events == [] then []
    else
      var front, e := events[..|events| - 1], events[|events| - 1];
      Entered(front, c) +
      if e.Offer? && c.filter(e.m).Some? && |Entered(front, c)| - Received(front, c) < CHANNEL_CAPACITY
      then [c.filter(e.m).value] else []
  }

  /** How many of them the loop has received. */
  function Received(events: seq<Event>, c: Config): nat
    decreases |events|, 0
  {
    if events == [] then 0
    else
      var front, e := events[..|events| - 1], events[|events| - 1];
      Received(front, c) + if Receives(front, e, c) then 1 else 0
  }

  /** This event is a receipt: the loop runs and the channel is not empty. */
  predicate Receives(front: seq<Event>, e: Event, c: Config)
    decreases |front|, 1
  {
    e.Take? && !Stopped(front, c) && Received(front, c) < |Entered(front, c)|
  }

  /** A shutdown was noticed while the channel was empty. */
  predicate Stopped(events: seq<Event>, c: Config)
    decreases |events|, 0
  {
    events != [] &&
    var front, e := events[..|events| - 1], events[|events| - 1];
    Stopped(front, c) || (e.Stop? && Received(front, c) == |Entered(front, c)|)
  }

  /** How often the ticker has fired while the loop ran. */
  function Pushes(events: seq<Event>, c: Config): nat {
    if events == [] then 0
    else
      var front, e := events[..|events| - 1], events[|events| - 1];
      Pushes(front, c) + if e.Tick? && !Stopped(front, c) then 1 else 0
  }

  /** The time of the metric is in period `k`, its end extended by truncation and delay. */
  predicate InPeriod(m: Metric, k: nat, start: int, slack: int, c: Config) {
    start + k * c.period <= m.time <= start + (k + 1) * c.period + slack + c.delay
  }

  /** The metrics received after `k` pushes and before the next one, with a time in period `k`. */
  function InTime(events: seq<Event>, k: nat, start: int, slack: int, c: Config): seq<Metric> {
    if events == [] then []
    else
      var front, e := events[..|events| - 1], events[|events| - 1];
      InTime(front, k, start, slack, c) +
      if Receives(front, e, c) && Pushes(front, c) == k && InPeriod(Entered(front, c)[Received(front, c)], k, start, slack, c)
      then [Entered(front, c)[Received(front, c)]] else []
  }

  /** The metrics received at another time than their own. */
  function OutOfTime(events: seq<Event>, start: int, slack: int, c: Config): seq<Metric> {
    if events == [] then []
    else
      var front, e := events[..|events| - 1], events[|events| - 1];
      OutOfTime(front, start, slack, c) +
      if Receives(front, e, c) && !InPeriod(Entered(front, c)[Received(front, c)], Pushes(front, c), start, slack, c)
      then [Entered(front, c)[Received(front, c)]] else []
  }

  /** The loop and the events say the same of the channel and the ticker. */
  ghost predicate SameFlow(l: Loop, events: seq<Event>, c: Config) {
    && Received(events, c) <= |Entered(events, c)|
    && l.received == Entered(events, c)[..Received(events, c)]
    && l.queue == Entered(events, c)[Received(events, c)..]
    && l.done == Stopped(events, c) && |l.groups| == Pushes(events, c)
  }

  lemma {:induction false} FlowOf(events: seq<Event>, start: int, slack: int, c: Config)
    ensures SameFlow(After(Begin(start), events, slack, c), events, c)
  {
    if events != [] {
      var front, e := events[..|events| - 1], events[|events| - 1];
      FlowOf(front, start, slack, c);
      FlowStep(After(Begin(start), front, slack, c), front, e, slack, c);
      assert events == front + [e];
    }
  }

  /** The channel neither loses nor reorders: what was received, then what is queued, is what got in. */
  lemma ChannelIsFifo(events: seq<Event>, start: int, slack: int, c: Config)
    ensures Sent(After(Begin(start), events, slack, c)) == Entered(events, c)
  {
    FlowOf(events, start, slack, c);
  }

  lemma FlowUnfold(front: seq<Event>, e: Event, c: Config)
    ensures var events := front + [e];
            var room := |Entered(front, c)| - Received(front, c) < CHANNEL_CAPACITY;
            Entered(events, c) ==
              (if e.Offer? && c.filter(e.m).Some? && room then Entered(front, c) + [c.filter(e.m).value]
               else Entered(front, c)) &&
            Received(events, c) == Received(front, c) + (if Receives(front, e, c) then 1 else 0) &&
            Stopped(events, c) == (Stopped(front, c) || (e.Stop? && Received(front, c) == |Entered(front, c)|)) &&
            Pushes(events, c) == Pushes(front, c) + (if e.Tick? && !Stopped(front, c) then 1 else 0)
  {
    var events := front + [e];
    assert events[..|events| - 1] == front && events[|events| - 1] == e;
    assert Entered(front, c) + [] == Entered(front, c);
  }

  lemma FlowStep(l: Loop, front: seq<Event>, e: Event, slack: int, c: Config)
    requires SameFlow(l, front, c)
    ensures SameFlow(Step(l, e, slack, c), front + [e], c)
  {
    FlowUnfold(front, e, c);
    hide InWindow, Entered, Received, Stopped, Pushes;
    var all, n := Entered(front, c), Received(front, c);
    match e
    case Offer(m) =>
      if c.filter(m).Some? {
        AppendSplit(all, n, c.filter(m).value);
      }
    case Take =>
      if n < |all| {
        TakeSplit(all, n);
      }
    case _ =>
  }

  lemma AppendSplit(all: seq<Metric>, n: nat, m: Metric)
    requires n <= |all|
    ensures (all + [m])[..n] == all[..n] && (all + [m])[n..] == all[n..] + [m]
  {}

  lemma TakeSplit(all: seq<Metric>, n: nat)
    requires n < |all|
    ensures all[..n + 1] == all[..n] + [all[n]] && all[n..][1..] == all[n + 1..] && all[n..][0] == all[n]
  {}

  /** The groups pushed, the running period and the skipped metrics are those the events say. */
  ghost predicate SameGroups(l: Loop, events: seq<Event>, start: int, slack: int, c: Config) {
    && |l.groups| == Pushes(events, c)
    && (forall k :: 0 <= k < |l.groups| ==> l.groups[k] == InTime(events, k, start, slack, c))
    && l.pending == InTime(events, |l.groups|, start, slack, c)
    && l.skipped == OutOfTime(events, start, slack, c)
  }

  lemma {:induction false} NothingAhead(events: seq<Event>, k: nat, start: int, slack: int, c: Config)
    requires k > Pushes(events, c)
    ensures InTime(events, k, start, slack, c) == []
  {
    hide InPeriod, Receives, Entered, Received, Stopped;
    if events != [] {
      NothingAhead(events[..|events| - 1], k, start, slack, c);
    }
  }

  /**
   In every run: the k-th push covers exactly the metrics that were received after k pushes and before the
   next one and whose time lies in period k, in the order they were received; all others are skipped.
   */
  lemma {:induction false} PushesCoverTheirPeriod(events: seq<Event>, start: int, slack: int, c: Config)
    ensures SameGroups(After(Begin(start), events, slack, c), events, start, slack, c)
  {
    hide Step, SameGroups;
    if events == [] {
      NothingGrouped(start, slack, c);
    } else {
      var front, e := events[..|events| - 1], events[|events| - 1];
      var l := After(Begin(start), front, slack, c);
      PushesCoverTheirPeriod(front, start, slack, c);
      FlowOf(front, start, slack, c);
      RunIsPeriodic(front, start, slack, c);
      GroupsStep(l, front, e, start, slack, c);
      assert events == front + [e];
    }
  }

  lemma NothingGrouped(start: int, slack: int, c: Config)
    ensures SameGroups(Begin(start), [], start, slack, c)
  {}

  lemma GroupsStep(l: Loop, front: seq<Event>, e: Event, start: int, slack: int, c: Config)
    requires SameFlow(l, front, c) && SameGroups(l, front, start, slack, c) && l.start == start + |l.groups| * c.period
    ensures SameGroups(Step(l, e, slack, c), front + [e], start, slack, c)
  {
    FlowUnfold(front, e, c);
    GroupsUnfold(front, e, start, slack, c);
    hide Entered, Received, Stopped, Pushes, InPeriod, InWindow, InTime, OutOfTime;
    match e
    case Take =>
      if Receives(front, e, c) {
        WindowIsPeriod(l.queue[0], l.start, |l.groups|, start, slack, c);
      }
    case Tick => NothingAhead(front, |l.groups| + 1, start, slack, c);
    case _ =>
  }

  lemma GroupsUnfold(front: seq<Event>, e: Event, start: int, slack: int, c: Config)
    ensures var events := front + [e];
            var m := if Receives(front, e, c) then Some(Entered(front, c)[Received(front, c)]) else None;
            (forall k: nat :: InTime(events, k, start, slack, c) == InTime(front, k, start, slack, c) +
               if m.Some? && Pushes(front, c) == k && InPeriod(m.value, k, start, slack, c) then [m.value] else []) &&
            OutOfTime(events, start, slack, c) == OutOfTime(front, start, slack, c) +
              if m.Some? && !InPeriod(m.value, Pushes(front, c), start, slack, c) then [m.value] else []
  {
    hide Entered, Received, Stopped, Pushes, InPeriod;
    var events := front + [e];
    assert events[..|events| - 1] == front && events[|events| - 1] == e;
  }

  lemma WindowIsPeriod(m: Metric, from: int, k: nat, start: int, slack: int, c: Config)
    requires from == start + k * c.period
    ensures InWindow(m, from, slack, c) <==> InPeriod(m, k, start, slack, c)
  {
    NextPeriod(start, k, c.period);
  }

  // ---------- The loop with the basicstats aggregator ----------

  /** `out` is what a push of exactly the metrics `group` emits. */
  ghost predicate Reports(out: map<nat, Emission>, group: seq<Metric>, stats: set<Stat>, sqrt: real -> real) {
    (forall id :: id in out ==>
       NamedBy(group, id, out[id].name, out[id].tags) && out[id].fields != map[] &&
       forall name :: name in out[id].fields ==> exists key, s :: s in stats && name == FullName(key, s)) &&
    forall id, key, s ::
      var xs := Values(group, id, key);
      EmittedAs(out, id, FullName(key, s)) ==
      if s in stats && xs != [] then Expected(xs, s, sqrt) else None
  }

  class RunningAggregator {
    const config: Config
    const stats: set<Stat>
    const sqrt: real -> real
    const truncation: int
    const a: Aggregator
    var metrics: seq<Metric>
    var periodStart: int
    var periodEnd: int
    var stopped: bool
    var pushed: seq<map<nat, Emission>>
    ghost var loop: Loop

    ghost predicate Valid()
      reads this, a
    {
      && a.Valid() && a.history == loop.pending
      && metrics == loop.queue && periodStart == loop.start && periodEnd == loop.start + config.period
      && stopped == loop.done
      && |pushed| == |loop.groups|
      && (forall k :: 0 <= k < |pushed| ==> Reports(pushed[k], loop.groups[k], stats, sqrt))
      && (forall m :: m in metrics ==> m.Valid())
    }

    /** The first period begins at `now` without its fraction of a second. */
    constructor (config: Config, stats: set<Stat>, sqrt: real -> real, now: int)
      requires now >= 0
      ensures Valid() && loop == Begin(now - truncation) && truncation == now % 1_000_000_000 && pushed == []
      ensures this.config == config && this.stats == stats && this.sqrt == sqrt && fresh(a)
    {
      this.config, this.stats, this.sqrt := config, stats, sqrt;
      truncation := now % 1_000_000_000;
      periodStart := now - now % 1_000_000_000;
      periodEnd := now - now % 1_000_000_000 + config.period;
      metrics, stopped, pushed := [], false, [];
      a := new Aggregator();
      loop := Begin(now - now % 1_000_000_000);
    }

    method Handle(e: Event)
      requires Valid()
      requires e.Offer? ==> e.m.Valid() && (config.filter(e.m).Some? ==> config.filter(e.m).value.Valid())
      modifies this, a
      ensures Valid() && loop == Step(old(loop), e, truncation, config)
    {
      ghost var next := Step(loop, e, truncation, config);
      match e {
        case Offer(m) =>
          var kept := config.filter(m);
          if kept.Some? && |metrics| < CHANNEL_CAPACITY {
            metrics := metrics + [kept.value];
          }
        case Take =>
          if !stopped && |metrics| > 0 {
            var m := metrics[0];
            metrics := metrics[1..];
            if !(m.time < periodStart || m.time > periodEnd + truncation + config.delay) {
              a.Add(m);
            }
          }
        case Tick =>
          if !stopped {
            periodStart := periodEnd;
            periodEnd := periodStart + config.period;
            PushReports(a.cache, a.history, stats, sqrt);
            pushed := pushed + [Pushed(a.cache, stats, sqrt)];
            a.Reset();
          }
        case Stop =>
          if |metrics| == 0 {
            stopped := true;
          }
      }
      loop := next;
    }

    /** Run, for one schedule. */
    method Run(events: seq<Event>)
      requires Valid()
      requires forall k :: 0 <= k < |events| && events[k].Offer? ==>
                 events[k].m.Valid() &&
                 (config.filter(events[k].m).Some? ==> config.filter(events[k].m).value.Valid())
      modifies this, a
      ensures Valid() && loop == After(old(loop), events, truncation, config)
    {
      ghost var l0 := loop;
      for k := 0 to |events|
        invariant Valid() && loop == After(l0, events[..k], truncation, config)
      {
        assert events[..k + 1][..k] == events[..k];
        Handle(events[k]);
      }
      assert events[..|events|] == events;
    }
  }

  lemma PushReports(cache: map<nat, Aggregate>, history: seq<Metric>, stats: set<Stat>, sqrt: real -> real)
    requires Describes(cache, history)
    ensures Reports(Pushed(cache, stats, sqrt), history, stats, sqrt)
  {
    hide Describes, Pushed, NamedBy, Expected, Values, EmittedAs, FullName;
    forall id | id in Pushed(cache, stats, sqrt)
      ensures var out := Pushed(cache, stats, sqrt);
              NamedBy(history, id, out[id].name, out[id].tags) && out[id].fields != map[] &&
              forall name :: name in out[id].fields ==> exists key, s :: s in stats && name == FullName(key, s)
    {
      PushOnlyThat(cache, stats, sqrt, id);
      PushIsBatch(cache, history, stats, sqrt, id, "", SumOf);
    }
    forall id, key, s
      ensures var out := Pushed(cache, stats, sqrt);
              var xs := Values(history, id, key);
              EmittedAs(out, id, FullName(key, s)) ==
              if s in stats && xs != [] then Expected(xs, s, sqrt) else None
    {
      PushIsBatch(cache, history, stats, sqrt, id, key, s);
    }
  }
}
