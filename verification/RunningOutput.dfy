/**
 The retry protocol of internal/models/running_output.go for outputs that do not
 aggregate: new metrics gather in one ring and are written when it is full,
 failed batches wait in a second ring until the next flush.

 `Output.Write` is the environment: `outcome(k)` decides whether its k-th call
 succeeds, so a statement for every `outcome` covers every behaviour.
 */
module RunningOutputs {
  import opened Options
  import opened RingBuffer

  type Outcome = nat -> bool

  /** Both buffers, and a ledger of where every accepted metric went. */
  datatype State<T> = State(
    queued: Ring<T>, failed: Ring<T>,
    delivered: seq<T>, evicted: seq<T>, skipped: seq<T>, calls: nat)
  {
    ghost predicate Valid() {
      queued.Valid() && failed.Valid() && queued.size > 0 && failed.size > 0
    }

    /** Between two calls the metrics buffer is never full. */
    ghost predicate Settled() {
      Valid() && |queued.items| < queued.size
    }
  }

  /** write: nothing is attempted for an empty batch. */
  function Attempt<T>(s: State<T>, batch: seq<T>, outcome: Outcome): (State<T>, bool) {
    if batch == [] then (s, true)
    else if outcome(s.calls) then (s.(delivered := s.delivered + batch, calls := s.calls + 1), true)
    else (s.(calls := s.calls + 1), false)
  }

  function PutBack<T>(s: State<T>, batch: seq<T>): State<T>
    requires s.Valid()
  {
    s.(failed := s.failed.Added(batch), evicted := s.evicted + s.failed.Evicted(batch))
  }

  function TakeFailed<T>(s: State<T>, n: nat): State<T> {
    s.(failed := s.failed.Rest(n), skipped := s.skipped + s.failed.Skipped(n))
  }

  function TakeFresh<T>(s: State<T>): State<T> {
    s.(queued := s.queued.Rest(s.queued.size), skipped := s.skipped + s.queued.Skipped(s.queued.size))
  }

  /** Writes the batch unless a write has failed before, and keeps it if it is not delivered. */
  function Settle<T>(s: State<T>, batch: seq<T>, ok: bool, outcome: Outcome): (State<T>, bool)
    requires s.Valid()
  {
    var (s1, ok1) := if ok then Attempt(s, batch, outcome) else (s, false);
    (if ok1 then s1 else PutBack(s1, batch), ok1)
  }

  function RetryOne<T>(s: State<T>, n: nat, ok: bool, outcome: Outcome): (State<T>, bool)
    requires s.Valid()
  {
    BatchPartitions(s.failed, n);
    Settle(TakeFailed(s, n), s.failed.Batched(n), ok, outcome)
  }

  /** The loop of Write over the failed metrics, `left` of which have not had their turn. */
  function Retry<T>(s: State<T>, left: nat, ok: bool, outcome: Outcome): (r: (State<T>, bool))
    requires s.Valid()
    ensures r.0.Valid() && r.0.queued == s.queued && r.0.failed.size == s.failed.size
    decreases left
  {
    RetryOneValid(s, Min(left, s.queued.size), ok, outcome);
    var (s1, ok1) := RetryOne(s, Min(left, s.queued.size), ok, outcome);
    if left < s.queued.size then (s1, ok1) else Retry(s1, left - s.queued.size, ok1, outcome)
  }

  lemma SettleValid<T>(s: State<T>, batch: seq<T>, ok: bool, outcome: Outcome)
    requires s.Valid()
    ensures var s' := Settle(s, batch, ok, outcome).0;
            s'.Valid() && s'.queued == s.queued && s'.failed.size == s.failed.size
  {
    AddPartitions(s.failed, batch);
  }

  lemma RetryOneValid<T>(s: State<T>, n: nat, ok: bool, outcome: Outcome)
    requires s.Valid()
    ensures var s' := RetryOne(s, n, ok, outcome).0;
            s'.Valid() && s'.queued == s.queued && s'.failed.size == s.failed.size
  {
    BatchPartitions(s.failed, n);
    SettleValid(TakeFailed(s, n), s.failed.Batched(n), ok, outcome);
  }

  /** Write. */
  function Flush<T>(s: State<T>, outcome: Outcome): (r: (State<T>, bool))
    requires s.Valid()
    ensures r.0.Valid() && r.0.queued.size == s.queued.size && r.0.failed.size == s.failed.size
    ensures r.0.queued.items == []
  {
    BatchPartitions(s.queued, s.queued.size);
    var (s1, ok) := if s.failed.items == [] then (s, true) else Retry(s, |s.failed.items|, true, outcome);
    SettleValid(TakeFresh(s1), s1.queued.Batched(s1.queued.size), ok, outcome);
    Settle(TakeFresh(s1), s1.queued.Batched(s1.queued.size), ok, outcome)
  }

  function Arrived<T>(s: State<T>, m: T): State<T>
    requires s.Valid()
  {
    s.(queued := s.queued.Added([m]), evicted := s.evicted + s.queued.Evicted([m]))
  }

  /** AddMetric, for a metric that passed the filter. */
  function Accept<T>(s: State<T>, m: T, outcome: Outcome): (s': State<T>)
    requires s.Valid()
    ensures s'.Valid() && s'.queued.size == s.queued.size && s'.failed.size == s.failed.size
    ensures s.Settled() ==> s'.Settled()
  {
    AddPartitions(s.queued, [m]);
    var s1 := Arrived(s, m);
    if |s1.queued.items| == s1.queued.size then
      BatchPartitions(s1.queued, s1.queued.size);
      SettleValid(TakeFresh(s1), s1.queued.Batched(s1.queued.size), true, outcome);
      Settle(TakeFresh(s1), s1.queued.Batched(s1.queued.size), true, outcome).0
    else s1
  }

  /** telegraf.Output, seen from the agent. */
  class Output<T> {
    const outcome: Outcome
    var calls: nat
    var delivered: seq<T>

    constructor (outcome: Outcome)
      ensures this.outcome == outcome && calls == 0 && delivered == []
    {
      this.outcome := outcome;
      calls, delivered := 0, [];
    }

    method Write(batch: seq<T>) returns (ok: bool)
      modifies this
      ensures ok == outcome(old(calls)) && calls == old(calls) + 1
      ensures delivered == if ok then old(delivered) + batch else old(delivered)
    {
      ok := outcome(calls);
      calls := calls + 1;
      if ok {
        delivered := delivered + batch;
      }
    }
  }

  const DEFAULT_METRIC_BATCH_SIZE: nat := 1000
  const DEFAULT_METRIC_BUFFER_LIMIT: nat := 10000

  class RunningOutput<T(0)> {
    const output: Output<T>
    const filter: T -> Option<T>
    const metricBatchSize: nat
    const metrics: Buffer<T>
    const failMetrics: Buffer<T>
    ghost var evicted: seq<T>
    ghost var skipped: seq<T>

    ghost predicate Valid()
      reads this, output, metrics, metrics.buf, failMetrics, failMetrics.buf
    {
      metrics.Valid() && failMetrics.Valid() && metrics != failMetrics && metrics.buf != failMetrics.buf &&
      0 < metricBatchSize == metrics.size && failMetrics.size > 0
    }

    ghost function Model(): State<T>
      requires Valid()
      reads this, output, metrics, metrics.buf, failMetrics, failMetrics.buf
    {
      State(metrics.Model(), failMetrics.Model(), output.delivered, evicted, skipped, output.calls)
    }

    constructor (output: Output<T>, filter: T -> Option<T>, batchSize: nat, bufferLimit: nat)
      ensures Valid() && this.output == output && this.filter == filter
      ensures fresh(metrics) && fresh(metrics.buf) && fresh(failMetrics) && fresh(failMetrics.buf)
      ensures Model() == State(
        Empty(if batchSize == 0 then DEFAULT_METRIC_BATCH_SIZE else batchSize),
        Empty(if bufferLimit == 0 then DEFAULT_METRIC_BUFFER_LIMIT else bufferLimit),
        output.delivered, [], [], output.calls)
      ensures Model().Settled()
    {
      var limit := if bufferLimit == 0 then DEFAULT_METRIC_BUFFER_LIMIT else bufferLimit;
      var size := if batchSize == 0 then DEFAULT_METRIC_BATCH_SIZE else batchSize;
      this.output, this.filter, metricBatchSize := output, filter, size;
      metrics := new Buffer<T>(size);
      failMetrics := new Buffer<T>(limit);
      evicted, skipped := [], [];
    }

    method AddMetric(m: Option<T>)
      requires Valid()
      modifies this, output, metrics, metrics.buf, failMetrics, failMetrics.buf
      ensures Valid()
      ensures Model() == if m.None? || filter(m.value).None? then old(Model())
                         else Accept(old(Model()), filter(m.value).value, output.outcome)
    {
      if m.None? {
        return;
      }
      var kept := filter(m.value);
      if kept.None? {
        return;
      }
      hide Arrived, TakeFresh, Settle;
      StoreFresh(kept.value);
      var n := metrics.Len();
      if n == metricBatchSize {
        var batch := BatchFresh();
        var _ := SettleBatch(batch, true);
      }
    }

    method Write() returns (ok: bool)
      requires Valid()
      modifies this, output, metrics, metrics.buf, failMetrics, failMetrics.buf
      ensures Valid()
      ensures (Model(), ok) == Flush(old(Model()), output.outcome)
    {
      hide TakeFresh, Settle, Retry;
      var nFails := failMetrics.Len();
      ok := true;
      var noFails := failMetrics.IsEmpty();
      if !noFails {
        ok := RetryFailed(nFails);
      }
      var batch := BatchFresh();
      ok := SettleBatch(batch, ok);
    }

    /** The loop of Write. */
    method RetryFailed(nFails: nat) returns (ok: bool)
      requires Valid()
      modifies this, output, failMetrics, failMetrics.buf
      ensures Valid()
      ensures (Model(), ok) == Retry(old(Model()), nFails, true, output.outcome)
    {
      hide RetryOne;
      ok := true;
      RoundsByDivision(nFails, metricBatchSize);
      var nBatches := nFails / metricBatchSize + 1;
      var batchSize := metricBatchSize;
      var lastSize := nFails % metricBatchSize;
      ghost var left := nFails;
      for i := 0 to nBatches
        invariant Valid() && left >= 0
        invariant batchSize == metricBatchSize || i == nBatches
        invariant i < nBatches ==> Rounds(left, metricBatchSize) == nBatches - i
        invariant i < nBatches ==> LastRound(left, metricBatchSize) == lastSize
        invariant i < nBatches ==>
                    Retry(Model(), left, ok, output.outcome) == Retry(old(Model()), nFails, true, output.outcome)
        invariant i == nBatches ==>
                    (Model(), ok) == Retry(old(Model()), nFails, true, output.outcome)
      {
        if i == nBatches - 1 {
          batchSize := lastSize;
        }
        ok := RetryBatch(batchSize, ok);
        left := Max(0, left - metricBatchSize);
      }
    }

    /** One round of that loop. */
    method RetryBatch(n: nat, ok: bool) returns (ok': bool)
      requires Valid()
      modifies this, output, failMetrics, failMetrics.buf
      ensures Valid()
      ensures (Model(), ok') == RetryOne(old(Model()), n, ok, output.outcome)
    {
      hide Settle;
      skipped := skipped + failMetrics.Model().Skipped(n);
      var batch := failMetrics.Batch(n);
      ok' := SettleBatch(batch, ok);
    }

    /** Writes a batch unless a write failed before; a batch not delivered goes to failMetrics. */
    method SettleBatch(batch: seq<T>, ok: bool) returns (ok': bool)
      requires Valid()
      modifies this, output, failMetrics, failMetrics.buf
      ensures Valid()
      ensures (Model(), ok') == Settle(old(Model()), batch, ok, output.outcome)
    {
      hide Attempt, PutBack;
      ok' := ok;
      if ok' {
        ok' := WriteBatch(batch);
      }
      if !ok' {
        KeepFailed(batch);
      }
    }

    method StoreFresh(m: T)
      requires Valid()
      modifies this, metrics, metrics.buf
      ensures Valid() && Model() == Arrived(old(Model()), m)
    {
      hide Ring.Added, Ring.Evicted;
      evicted := evicted + metrics.Model().Evicted([m]);
      metrics.Add([m]);
    }

    method BatchFresh() returns (batch: seq<T>)
      requires Valid()
      modifies this, metrics
      ensures Valid() && batch == old(Model()).queued.Batched(metricBatchSize)
      ensures Model() == TakeFresh(old(Model()))
    {
      hide Ring.Rest, Ring.Skipped, Ring.Batched;
      skipped := skipped + metrics.Model().Skipped(metricBatchSize);
      batch := metrics.Batch(metricBatchSize);
    }

    method KeepFailed(batch: seq<T>)
      requires Valid()
      modifies this, failMetrics, failMetrics.buf
      ensures Valid() && Model() == PutBack(old(Model()), batch)
    {
      evicted := evicted + failMetrics.Model().Evicted(batch);
      failMetrics.Add(batch);
    }

    method WriteBatch(batch: seq<T>) returns (ok: bool)
      requires Valid()
      modifies output
      ensures Valid() && (Model(), ok) == Attempt(old(Model()), batch, output.outcome)
    {
      if batch == [] {
        return true;
      }
      ok := output.Write(batch);
    }
  }

  /** How many batches of `m` it takes to go through `n` metrics, counting a last one that is never full. */
  function Rounds(n: nat, m: nat): nat
    requires m > 0
  {
    if n < m then 1 else Rounds(n - m, m) + 1
  }

  function LastRound(n: nat, m: nat): (k: nat)
    requires m > 0
    ensures k < m
  {
    if n < m then n else LastRound(n - m, m)
  }

  lemma {:induction false} RoundsByDivision(n: nat, m: nat)
    requires m > 0
    ensures n == (Rounds(n, m) - 1) * m + LastRound(n, m)
    ensures n / m + 1 == Rounds(n, m) && n % m == LastRound(n, m)
  {
    if n >= m {
      RoundsByDivision(n - m, m);
      var q := Rounds(n - m, m);
      assert (q - 1) * m + m == q * m;
    }
    DivModUnique(n, m, Rounds(n, m) - 1, LastRound(n, m));
  }

  lemma DivModUnique(n: int, m: int, q: int, r: int)
    requires n == q * m + r && 0 <= r < m
    ensures n / m == q && n % m == r
  {
    var d := q - n / m;
    assert n == (n / m) * m + n % m;
    assert d * m == q * m - (n / m) * m;
    NoMultipleBetween(d, m);
  }

  lemma NoMultipleBetween(d: int, m: int)
    requires -m < d * m < m
    ensures d == 0
  {
  }
}
