/** What the retry protocol guarantees, over single flushes and over whole runs. */
module RunningOutputLaws {
  import opened RingBuffer
  import opened RunningOutputs

  // ---------- Order: when a flush is an exact first-in first-out step ----------

  /** No retry batch can straddle the end of the array, whichever write fails. */
  predicate Even<T>(r: Ring<T>, batchSize: nat)
    requires r.Valid() && batchSize > 0
  {
    r.first + |r.items| <= r.size || (r.size - r.first) % batchSize == 0 || |r.items| <= batchSize
  }

  lemma {:induction false} MultipleDrops(x: nat, y: nat, m: nat)
    requires m > 0 && LastRound(x, m) == 0 && y <= x
    ensures LastRound(x - y, m) == 0 <==> LastRound(y, m) == 0
    decreases y
  {
    if y >= m {
      MultipleDrops(x - m, y - m, m);
    } else if y > 0 {
      RestOfMultiple(x, y, m);
    }
  }

  lemma {:induction false} RestOfMultiple(x: nat, y: nat, m: nat)
    requires m > 0 && LastRound(x, m) == 0 && 0 < y <= x && y < m
    ensures LastRound(x - y, m) != 0
    decreases x
  {
    if x - y >= m {
      RestOfMultiple(x - m, y, m);
    }
  }

  lemma {:induction false} MultipleAdds(x: nat, y: nat, m: nat)
    requires m > 0 && LastRound(x, m) == 0
    ensures LastRound(x + y, m) == LastRound(y, m)
  {
    if x >= m {
      MultipleAdds(x - m, y, m);
    }
  }

  lemma StepAligned(c: nat, k: nat, m: nat)
    requires m > 0
    ensures k == m && LastRound(c, m) == 0 ==> LastRound(c + k, m) == 0
  {
    if k == m && LastRound(c, m) == 0 {
      MultipleAdds(c, m, m);
    }
  }

  /** Batch number `c / batchSize` of a flush does not straddle. */
  lemma NoStraddle(f: nat, n: nat, size: nat, m: nat, c: nat, k: nat)
    requires 0 < m && f < size && n <= size && c + k <= n && k <= m
    requires f + n <= size || n <= m || (LastRound(size - f, m) == 0 && (LastRound(c, m) == 0 || c == n))
    requires n <= m ==> (c == 0 && k == n) || k == 0
    ensures Wrap(f + c, size) + k <= size || k == n
  {
    if f + n > size && n > m && f + c < size && c < n {
      MultipleDrops(size - f, c, m);
      assert size - f - c >= m;
    }
  }

  /** The state in the middle of the retry loop: `c` of the queue `q` are done, `d` delivered. */
  ghost predicate Midway<T>(s: State<T>, q: seq<T>, f: nat, c: nat, d: nat, ok: bool, base: seq<T>)
  {
    s.Valid() && |q| <= s.failed.size && f < s.failed.size && d <= c <= |q| &&
    (if ok then d == c else d < c) &&
    s.failed == Ring(Rotated(q, c, d), Wrap(f + c, s.failed.size), s.failed.size) &&
    s.delivered == base + q[..d]
  }

  /** A queue part way through a rotation. */
  function Rotated<T>(q: seq<T>, c: nat, d: nat): seq<T>
    requires d <= c <= |q|
  {
    q[c..] + q[d..c]
  }

  lemma RotatedMoves<T>(q: seq<T>, c: nat, d: nat, k: nat)
    requires d <= c && c + k <= |q|
    ensures Rotated(q, c, d)[..k] == q[c..c + k]
    ensures Rotated(q, c, d)[k..] == q[c + k..] + q[d..c]
    ensures q[c + k..] + q[d..c] + q[c..c + k] == Rotated(q, c + k, d)
    ensures d == c ==> q[c + k..] + q[d..c] == Rotated(q, c + k, c + k)
    ensures q[..c] + q[c..c + k] == q[..c + k]
  {}

  lemma RotateRing<T>(q: seq<T>, f: nat, c: nat, d: nat, k: nat, size: nat)
    requires d <= c && c + k <= |q| <= size && f < size
    requires Wrap(f + c, size) + k <= size || k == |q|
    ensures var r := Ring(Rotated(q, c, d), Wrap(f + c, size), size);
            r.Valid() && r.Batched(k) == q[c..c + k] && r.Skipped(k) == [] &&
            r.Rest(k) == Ring(q[c + k..] + q[d..c], Wrap(f + c + k, size), size)
  {
    var r := Ring(Rotated(q, c, d), Wrap(f + c, size), size);
    RotatedMoves(q, c, d, k);
    assert r.Take(k) == k;
    WrapAdd(f + c, k, size);
  }

  lemma AddedFits<T>(r: Ring<T>, ms: seq<T>)
    requires r.Valid() && r.size > 0 && |r.items| + |ms| <= r.size
    ensures r.Added(ms) == Ring(r.items + ms, r.first, r.size) && r.Evicted(ms) == []
  {}

  lemma RotateStep<T>(s: State<T>, q: seq<T>, f: nat, c: nat, d: nat, ok: bool, base: seq<T>, k: nat, outcome: Outcome)
    returns (d': nat)
    requires Midway(s, q, f, c, d, ok, base) && c + k <= |q|
    requires Wrap(f + c, s.failed.size) + k <= s.failed.size || k == |q|
    ensures var (s', ok') := RetryOne(s, k, ok, outcome);
            Midway(s', q, f, c + k, d', ok', base) && s'.evicted == s.evicted && s'.skipped == s.skipped &&
            d' == if ok' then c + k else d
  {
    hide Ring.Added, Ring.Evicted, Ring.Batched, Ring.Rest, Ring.Skipped, Rotated;
    RotateRing(q, f, c, d, k, s.failed.size);
    RotatedMoves(q, c, d, k);
    var t := TakeFailed(s, k);
    AddedFits(t.failed, q[c..c + k]);
    var ok' := RetryOne(s, k, ok, outcome).1;
    d' := if ok' then c + k else d;
    assert base + q[..c] + q[c..c + k] == base + q[..c + k];
  }

  /** The batch after `c` metrics of an even queue of `n` cannot straddle. */
  predicate EvenTurn(f: nat, n: nat, size: nat, m: nat, c: nat)
    requires m > 0 && f < size && c <= n
  {
    (f + n <= size || n <= m || (LastRound(size - f, m) == 0 && (LastRound(c, m) == 0 || c == n))) &&
    (n <= m ==> c == 0 || c == n)
  }

  lemma RotateTurn<T>(s: State<T>, q: seq<T>, f: nat, c: nat, d: nat, ok: bool, base: seq<T>, outcome: Outcome)
    returns (d': nat)
    requires Midway(s, q, f, c, d, ok, base) && EvenTurn(f, |q|, s.failed.size, s.queued.size, c)
    ensures var k := Min(|q| - c, s.queued.size);
            var (s', ok') := RetryOne(s, k, ok, outcome);
            Midway(s', q, f, c + k, d', ok', base) && EvenTurn(f, |q|, s.failed.size, s.queued.size, c + k) &&
            s'.queued == s.queued && s'.failed.size == s.failed.size &&
            s'.evicted == s.evicted && s'.skipped == s.skipped && (d' == c + k || d' == d)
  {
    hide RetryOne;
    var m := s.queued.size;
    var k := Min(|q| - c, m);
    NoStraddle(f, |q|, s.failed.size, m, c, k);
    RetryOneValid(s, k, ok, outcome);
    StepAligned(c, k, m);
    d' := RotateStep(s, q, f, c, d, ok, base, k, outcome);
  }

  lemma {:induction false} RotateAll<T>(s: State<T>, q: seq<T>, f: nat, left: nat, d: nat, ok: bool, base: seq<T>,
                                       outcome: Outcome)
    returns (d': nat)
    requires left <= |q| && Midway(s, q, f, |q| - left, d, ok, base)
    requires EvenTurn(f, |q|, s.failed.size, s.queued.size, |q| - left)
    ensures var (s', ok') := Retry(s, left, ok, outcome);
            Midway(s', q, f, |q|, d', ok', base) && s'.evicted == s.evicted && s'.skipped == s.skipped
    ensures var m := s.queued.size;
            LastRound(|q|, m) == LastRound(|q| - left, m) == LastRound(d, m) == 0 ==> LastRound(d', m) == 0
    decreases left
  {
    hide RetryOne, LastRound, EvenTurn;
    var m := s.queued.size;
    var c, k := |q| - left, Min(left, m);
    d' := RotateTurn(s, q, f, c, d, ok, base, outcome);
    StepAligned(c, k, m);
    if left >= m {
      var (s1, ok1) := RetryOne(s, k, ok, outcome);
      d' := RotateAll(s1, q, f, left - m, d', ok1, base, outcome);
    }
  }

  /** The step from `s` to `s'` delivers the `d` oldest metrics and keeps the newest of the rest, in order. */
  ghost predicate FifoStep<T>(s: State<T>, s': State<T>, ok: bool, d: nat) {
    var all := s.failed.items + s.queued.items;
    var lost := Max(0, |all| - d - s.failed.size);
    && d <= |all|
    && s'.delivered == s.delivered + all[..d]
    && s'.failed.items == all[d + lost..]
    && s'.evicted == s.evicted + all[d..d + lost]
    && s'.skipped == s.skipped
    && s'.queued.items == []
    && (ok <==> d == |all|)
  }

  /**
   One flush of an even state: it delivers a prefix of the failed metrics followed by the
   fresh ones, keeps the newest part of the rest in the original order, and reports success
   exactly when everything was delivered. What is delivered are the batches of the calls that
   succeed before one fails: one call for each full batch of failed metrics, for what is left of
   them, and for the fresh ones.
   */
  lemma FlushIsFifo<T>(s: State<T>, outcome: Outcome) returns (d: nat)
    requires s.Valid() && Even(s.failed, s.queued.size)
    ensures var (s', ok) := Flush(s, outcome); FifoStep(s, s', ok, d)
    ensures d == DueOf(s, outcome)
    ensures Flush(s, outcome).0.calls == s.calls + Min(Successes(outcome, s.calls, CallsOf(s)) + 1, CallsOf(s))
  {
    hide Flush, FifoStep, Even;
    d := SomeFifoStep(s, outcome);
    FifoCounts(s, Flush(s, outcome).0, Flush(s, outcome).1, d);
    FlushDelivers(s, outcome);
  }

  lemma SomeFifoStep<T>(s: State<T>, outcome: Outcome) returns (d: nat)
    requires s.Valid() && Even(s.failed, s.queued.size)
    ensures var (s', ok) := Flush(s, outcome); FifoStep(s, s', ok, d)
  {
    hide Flush, Settle, TakeFresh, Retry, Even, FifoStep;
    var q, m := s.failed.items, s.queued.items;
    var (s1, ok1) := if q == [] then (s, true) else Retry(s, |q|, true, outcome);
    var d0 := RetryPhase(s, outcome);
    FlushParts(s, s1, ok1, outcome);
    SettleKeepsNewest(TakeFresh(s1), m, ok1, outcome);
    var (s2, ok2) := Flush(s, outcome);
    if ok2 {
      d := |q + m|;
      assert q[..d0] == q;
      AllDelivered(s, s2);
    } else {
      d := d0;
      RestKept(s, s2, d);
    }
  }

  lemma FifoCounts<T>(s: State<T>, s': State<T>, ok: bool, d: nat)
    requires FifoStep(s, s', ok, d)
    ensures |s'.delivered| == |s.delivered| + d
  {}

  /** A flush is the retry phase followed by one attempt at all fresh metrics. */
  lemma FlushParts<T>(s: State<T>, s1: State<T>, ok: bool, outcome: Outcome)
    requires s.Valid()
    requires (s1, ok) == if s.failed.items == [] then (s, true) else Retry(s, |s.failed.items|, true, outcome)
    ensures var t := TakeFresh(s1);
            t == s1.(queued := t.queued) && t.queued.items == [] && t.Valid() &&
            t.queued.size == s.queued.size &&
            Flush(s, outcome) == Settle(t, s.queued.items, ok, outcome)
  {
    hide Settle, Retry, Ring.Batched, Ring.Rest, Ring.Skipped;
    BatchOfAll(s.queued);
  }

  lemma AllDelivered<T>(s: State<T>, s2: State<T>)
    requires s2.failed.items == [] && s2.evicted == s.evicted && s2.skipped == s.skipped && s2.queued.items == []
    requires s2.delivered == s.delivered + s.failed.items + s.queued.items
    ensures FifoStep(s, s2, true, |s.failed.items + s.queued.items|)
  {
    var all := s.failed.items + s.queued.items;
    assert s.delivered + s.failed.items + s.queued.items == s.delivered + all;
    assert all[..|all|] == all;
  }

  lemma RestKept<T>(s: State<T>, s2: State<T>, d: nat)
    requires var q, m := s.failed.items, s.queued.items;
             d <= |q| && (d < |q| || m != []) &&
             var lost := Max(0, |q[d..] + m| - s.failed.size);
             s2.failed.items == (q[d..] + m)[lost..] && s2.evicted == s.evicted + (q[d..] + m)[..lost] &&
             s2.delivered == s.delivered + q[..d] && s2.skipped == s.skipped && s2.queued.items == []
    ensures FifoStep(s, s2, false, d)
  {
    SplitTail(s.failed.items, s.queued.items, d, Max(0, |s.failed.items + s.queued.items| - d - s.failed.size));
  }

  /** A batch as large as the buffer drains it; it never stops short. */
  lemma BatchOfAll<T>(r: Ring<T>)
    requires r.Valid()
    ensures r.Batched(r.size) == r.items && r.Skipped(r.size) == [] && r.Rest(r.size).items == []
    ensures r.Rest(r.size).Valid() && r.Rest(r.size).size == r.size
  {}

  lemma SettleKeepsNewest<T>(s: State<T>, m: seq<T>, ok: bool, outcome: Outcome)
    requires s.Valid()
    ensures var (s', ok') := Settle(s, m, ok, outcome);
            var all := s.failed.items + m;
            var lost := Max(0, |all| - s.failed.size);
            s'.queued == s.queued && s'.skipped == s.skipped && (ok' ==> ok) && (!ok' ==> !ok || m != []) &&
            s'.failed.items == (if ok' then s.failed.items else all[lost..]) &&
            s'.evicted == (if ok' then s.evicted else s.evicted + all[..lost]) &&
            s'.delivered == if ok' then s.delivered + m else s.delivered
  {}

  lemma SplitTail<T>(q: seq<T>, m: seq<T>, d: nat, lost: nat)
    requires d <= |q| && d + lost <= |q + m|
    ensures (q + m)[..d] == q[..d]
    ensures (q[d..] + m)[lost..] == (q + m)[d + lost..] && (q[d..] + m)[..lost] == (q + m)[d..d + lost]
  {
    assert q[d..] + m == (q + m)[d..];
  }

  /** The first half of a flush: the failed metrics. */
  lemma RetryPhase<T>(s: State<T>, outcome: Outcome) returns (d: nat)
    requires s.Valid() && Even(s.failed, s.queued.size)
    ensures var q := s.failed.items;
            var (s', ok) := if q == [] then (s, true) else Retry(s, |q|, true, outcome);
            d <= |q| && s'.delivered == s.delivered + q[..d] && s'.failed.items == q[d..] &&
            s'.evicted == s.evicted && s'.skipped == s.skipped && s'.queued == s.queued &&
            (ok <==> d == |q|) &&
            s'.failed == Ring(q[d..], Wrap(s.failed.first + |q|, s.failed.size), s.failed.size)
    ensures LastRound(|s.failed.items|, s.queued.size) == 0 ==> LastRound(d, s.queued.size) == 0
  {
    var q, f := s.failed.items, s.failed.first;
    if q == [] {
      d := 0;
    } else {
      RoundsByDivision(s.failed.size - f, s.queued.size);
      assert Rotated(q, 0, 0) == q && s.delivered + q[..0] == s.delivered;
      d := RotateAll(s, q, f, |q|, 0, true, s.delivered, outcome);
      assert Rotated(q, |q|, d) == q[d..];
    }
  }

  // ---------- The calls a flush makes ----------

  /** How many calls it takes to write `n` metrics in batches of `m`. */
  function Batches(n: nat, m: nat): nat
    requires m > 0
  {
    if n == 0 then 0 else if n <= m then 1 else Batches(n - m, m) + 1
  }

  /** How many metrics the first `i` of these batches hold. */
  function FirstBatches(n: nat, m: nat, i: nat): (size: nat)
    ensures size <= n
  {
    if n == 0 || i == 0 then 0 else Min(n, m) + FirstBatches(n - Min(n, m), m, i - 1)
  }

  /** How many of the next `n` calls succeed before one fails. */
  function Successes(outcome: Outcome, from: nat, n: nat): (i: nat)
    ensures i <= n && AllGood(outcome, from, from + i)
    ensures i < n ==> !outcome(from + i)
    decreases n
  {
    if n == 0 || !outcome(from) then 0 else Successes(outcome, from + 1, n - 1) + 1
  }

  /** One batch: at most one call, and it decides. */
  lemma SettleCalls<T>(s: State<T>, batch: seq<T>, ok: bool, outcome: Outcome)
    requires s.Valid()
    ensures var (s', ok') := Settle(s, batch, ok, outcome);
            s'.calls == s.calls + (if ok && batch != [] then 1 else 0) &&
            (ok' <==> ok && (batch != [] ==> outcome(s.calls))) &&
            s'.delivered == s.delivered + (if ok' then batch else [])
  {}

  /** All calls made from `from` up to `to` succeeded. */
  ghost predicate AllGood(outcome: Outcome, from: nat, to: int) {
    forall k: nat :: from <= k < to ==> outcome(k)
  }

  /** From any state: the calls of the retry loop all succeed but for the last one, and that decides. */
  lemma {:induction false} RetrySucceedsIff<T>(s: State<T>, left: nat, ok: bool, outcome: Outcome)
    requires s.Valid()
    ensures var (s', ok') := Retry(s, left, ok, outcome);
            s'.calls >= s.calls && (!ok ==> s'.calls == s.calls) &&
            (ok' <==> ok && AllGood(outcome, s.calls, s'.calls)) &&
            AllGood(outcome, s.calls, s'.calls - 1)
    decreases left
  {
    hide Settle;
    var n := Min(left, s.queued.size);
    BatchPartitions(s.failed, n);
    SettleCalls(TakeFailed(s, n), s.failed.Batched(n), ok, outcome);
    if left >= s.queued.size {
      RetryOneValid(s, n, ok, outcome);
      var (s1, ok1) := RetryOne(s, n, ok, outcome);
      RetrySucceedsIff(s1, left - s.queued.size, ok1, outcome);
    }
  }

  /**
   From any state, even or not: a flush succeeds if and only if every call it makes does, it makes no
   call after one that failed, and none only if there is nothing to write.
   */
  lemma FlushSucceedsIff<T>(s: State<T>, outcome: Outcome)
    requires s.Valid()
    ensures var (s', ok) := Flush(s, outcome);
            s'.calls >= s.calls &&
            (ok <==> AllGood(outcome, s.calls, s'.calls)) && AllGood(outcome, s.calls, s'.calls - 1) &&
            (s'.calls == s.calls <==> s.failed.items == [] && s.queued.items == [])
  {
    hide Flush, Settle, TakeFresh, Retry;
    var q := s.failed.items;
    var (s1, ok1) := if q == [] then (s, true) else Retry(s, |q|, true, outcome);
    FlushParts(s, s1, ok1, outcome);
    SettleCalls(TakeFresh(s1), s.queued.items, ok1, outcome);
    if q != [] {
      RetrySucceedsIff(s, |q|, true, outcome);
      FirstCall(s, |q|, outcome);
    }
  }

  /** A retry makes a call if there is anything to retry. */
  lemma FirstCall<T>(s: State<T>, left: nat, outcome: Outcome)
    requires s.Valid() && s.failed.items != [] && left > 0
    ensures Retry(s, left, true, outcome).0.calls > s.calls
  {
    hide Settle;
    var n := Min(left, s.queued.size);
    BatchPartitions(s.failed, n);
    SettleCalls(TakeFailed(s, n), s.failed.Batched(n), true, outcome);
    if left >= s.queued.size {
      RetryOneValid(s, n, true, outcome);
      var (s1, ok1) := RetryOne(s, n, true, outcome);
      RetrySucceedsIff(s1, left - s.queued.size, ok1, outcome);
    }
  }

  /** Writing `n` metrics in batches of `m`: so many calls, so many metrics delivered, with or without success. */
  ghost predicate Wrote(outcome: Outcome, from: nat, n: nat, m: nat, calls: int, delivered: int, ok: bool)
    requires m > 0
  {
    var i := Successes(outcome, from, Batches(n, m));
    (ok <==> i == Batches(n, m)) && calls == Min(i + 1, Batches(n, m)) && delivered == FirstBatches(n, m, i)
  }

  /** The rotation calls the output for one full batch after the other until a call fails. */
  lemma {:induction false} RotateDelivers<T>(s: State<T>, q: seq<T>, f: nat, left: nat, d: nat, ok: bool, base: seq<T>,
                                             outcome: Outcome)
    requires left <= |q| && Midway(s, q, f, |q| - left, d, ok, base)
    requires EvenTurn(f, |q|, s.failed.size, s.queued.size, |q| - left)
    ensures var (s', ok') := Retry(s, left, ok, outcome);
            if ok then
              Wrote(outcome, s.calls, left, s.queued.size, s'.calls - s.calls, |s'.delivered| - |s.delivered|, ok')
            else s'.calls == s.calls && |s'.delivered| == |s.delivered| && !ok'
    decreases left
  {
    hide Settle, EvenTurn, LastRound, RetryOne, Wrote;
    var m := s.queued.size;
    var c, k := |q| - left, Min(left, m);
    var d' := RotateTurn(s, q, f, c, d, ok, base, outcome);
    TurnCalls(s, q, f, c, d, ok, base, k, outcome);
    hide Midway;
    var (s1, ok1) := RetryOne(s, k, ok, outcome);
    if left >= m {
      RotateDelivers(s1, q, f, left - m, d', ok1, base, outcome);
      if ok {
        var (s2, ok2) := Retry(s1, left - m, ok1, outcome);
        WroteMore(outcome, s.calls, left, m, s2.calls - s1.calls, |s2.delivered| - |s1.delivered|, ok2);
      }
    } else if ok {
      WroteLast(outcome, s.calls, left, m);
    }
  }

  /** A full batch in front of the others. */
  lemma WroteMore(outcome: Outcome, from: nat, n: nat, m: nat, calls: int, delivered: int, ok: bool)
    requires 0 < m <= n
    requires outcome(from) ==> Wrote(outcome, from + 1, n - m, m, calls, delivered, ok)
    requires !outcome(from) ==> calls == delivered == 0 && !ok
    ensures Wrote(outcome, from, n, m, calls + 1, if outcome(from) then delivered + m else 0, ok)
  {
    hide Successes, Batches, FirstBatches;
    OneBatchMore(outcome, from, n, m);
  }

  lemma WroteLast(outcome: Outcome, from: nat, n: nat, m: nat)
    requires n < m
    ensures Wrote(outcome, from, n, m, if n > 0 then 1 else 0, if n > 0 && outcome(from) then n else 0, n > 0 ==> outcome(from))
  {
    hide Successes, Batches, FirstBatches;
    OneBatchMore(outcome, from, n, m);
  }

  /** One turn of the rotation makes one call, unless there is nothing to write or a call has failed. */
  lemma TurnCalls<T>(s: State<T>, q: seq<T>, f: nat, c: nat, d: nat, ok: bool, base: seq<T>, k: nat, outcome: Outcome)
    requires Midway(s, q, f, c, d, ok, base) && c + k <= |q|
    ensures var (s', ok') := RetryOne(s, k, ok, outcome);
            s'.calls == s.calls + (if ok && k > 0 then 1 else 0) &&
            (ok' <==> ok && (k > 0 ==> outcome(s.calls))) &&
            |s'.delivered| == |s.delivered| + (if ok' then k else 0)
  {
    TakesFull(s, q, f, c, d, ok, base, k);
    hide Settle, Midway;
    BatchPartitions(s.failed, k);
    SettleCalls(TakeFailed(s, k), s.failed.Batched(k), ok, outcome);
  }

  lemma OneBatchMore(outcome: Outcome, from: nat, n: nat, m: nat)
    requires m > 0
    ensures var k := Min(n, m);
            Batches(n, m) == (if k > 0 then 1 + Batches(n - k, m) else 0) &&
            (k > 0 ==> Successes(outcome, from, Batches(n, m)) ==
                       if outcome(from) then 1 + Successes(outcome, from + 1, Batches(n - k, m)) else 0) &&
            (forall i: nat :: FirstBatches(n, m, i) == if i == 0 then 0 else k + FirstBatches(n - k, m, i - 1)) &&
            (k == 0 ==> Successes(outcome, from, Batches(n, m)) == 0) &&
            Batches(0, m) == 0 && Successes(outcome, from + 1, 0) == 0
  {}

  lemma TakesFull<T>(s: State<T>, q: seq<T>, f: nat, c: nat, d: nat, ok: bool, base: seq<T>, k: nat)
    requires Midway(s, q, f, c, d, ok, base) && c + k <= |q|
    ensures |s.failed.Batched(k)| == k
  {}

  /** The calls a flush makes if none fails: the retries, and one for the fresh metrics. */
  function CallsOf<T>(s: State<T>): nat
    requires s.queued.size > 0
  {
    Batches(|s.failed.items|, s.queued.size) + if s.queued.items != [] then 1 else 0
  }

  /** The metrics that the successful calls before the first failing one hold. */
  function DueOf<T>(s: State<T>, outcome: Outcome): nat
    requires s.queued.size > 0
  {
    var i := Successes(outcome, s.calls, CallsOf(s));
    if i == CallsOf(s) then |s.failed.items| + |s.queued.items|
    else FirstBatches(|s.failed.items|, s.queued.size, i)
  }

  lemma {:induction false} SuccessesMore(outcome: Outcome, from: nat, n: nat)
    ensures var i := Successes(outcome, from, n);
            Successes(outcome, from, n + 1) == if i == n && outcome(from + n) then i + 1 else i
    decreases n
  {
    if n > 0 && outcome(from) {
      SuccessesMore(outcome, from + 1, n - 1);
    }
  }

  lemma {:induction false} AllBatches(n: nat, m: nat)
    requires m > 0
    ensures FirstBatches(n, m, Batches(n, m)) == n
  {
    if n > m {
      AllBatches(n - m, m);
    }
  }

  /** A flush of an even state: how many calls, how much is delivered, and whether it succeeds. */
  lemma FlushDelivers<T>(s: State<T>, outcome: Outcome)
    requires s.Valid() && Even(s.failed, s.queued.size)
    ensures var (s', ok) := Flush(s, outcome);
            var i := Successes(outcome, s.calls, CallsOf(s));
            (ok <==> i == CallsOf(s)) && s'.calls == s.calls + Min(i + 1, CallsOf(s)) &&
            |s'.delivered| == |s.delivered| + DueOf(s, outcome)
  {
    hide Flush, Settle, TakeFresh, Retry, Successes, Batches, FirstBatches, Wrote, Even;
    var q, m := s.failed.items, s.queued.size;
    var n := Batches(|q|, m);
    var (s1, ok1) := if q == [] then (s, true) else Retry(s, |q|, true, outcome);
    RetryWrites(s, outcome);
    WroteIs(outcome, s.calls, |q|, m, s1.calls - s.calls, |s1.delivered| - |s.delivered|, ok1);
    FlushParts(s, s1, ok1, outcome);
    SettleCalls(TakeFresh(s1), s.queued.items, ok1, outcome);
    SuccessesMore(outcome, s.calls, n);
    AllBatches(|q|, m);
  }

  lemma WroteIs(outcome: Outcome, from: nat, n: nat, m: nat, calls: int, delivered: int, ok: bool)
    requires m > 0 && Wrote(outcome, from, n, m, calls, delivered, ok)
    ensures var i := Successes(outcome, from, Batches(n, m));
            (ok <==> i == Batches(n, m)) && calls == Min(i + 1, Batches(n, m)) && delivered == FirstBatches(n, m, i)
  {}

  lemma RetryWrites<T>(s: State<T>, outcome: Outcome)
    requires s.Valid() && Even(s.failed, s.queued.size)
    ensures var q := s.failed.items;
            var (s', ok) := if q == [] then (s, true) else Retry(s, |q|, true, outcome);
            Wrote(outcome, s.calls, |q|, s.queued.size, s'.calls - s.calls, |s'.delivered| - |s.delivered|, ok)
  {
    hide Retry, Wrote;
    var q, f := s.failed.items, s.failed.first;
    if q == [] {
      WroteLast(outcome, s.calls, 0, s.queued.size);
    } else {
      RoundsByDivision(s.failed.size - f, s.queued.size);
      assert Rotated(q, 0, 0) == q && s.delivered + q[..0] == s.delivered;
      RotateDelivers(s, q, f, |q|, 0, true, s.delivered, outcome);
    }
  }

  // ---------- AddMetric ----------

  /**
   An accepted metric waits while the batch is not full. A full batch makes one call: if it succeeds the
   batch is delivered, if not it goes to failMetrics, of which the newest metrics are kept.
   */
  lemma AcceptExactly<T>(s: State<T>, m: T, outcome: Outcome)
    requires s.Settled()
    ensures var s' := Accept(s, m, outcome);
            var batch := s.queued.items + [m];
            var all := s.failed.items + batch;
            var lost := Max(0, |all| - s.failed.size);
            s'.skipped == s.skipped &&
            if |batch| < s.queued.size then
              s'.queued.items == batch && s'.failed == s.failed && s'.calls == s.calls &&
              s'.delivered == s.delivered && s'.evicted == s.evicted
            else
              s'.queued.items == [] && s'.calls == s.calls + 1 &&
              s'.delivered == s.delivered + (if outcome(s.calls) then batch else []) &&
              s'.failed.items == (if outcome(s.calls) then s.failed.items else all[lost..]) &&
              s'.evicted == s.evicted + (if outcome(s.calls) then [] else all[..lost])
  {
    hide Settle, TakeFresh;
    AddedFits(s.queued, [m]);
    var s1 := Arrived(s, m);
    if |s1.queued.items| == s1.queued.size {
      BatchOfAll(s1.queued);
      TakenFresh(s1);
      SettleCalls(TakeFresh(s1), s1.queued.items, true, outcome);
      SettleKeepsNewest(TakeFresh(s1), s1.queued.items, true, outcome);
    }
  }

  lemma TakenFresh<T>(s: State<T>)
    requires s.Valid()
    ensures var t := TakeFresh(s);
            t == s.(queued := t.queued) && t.queued.items == [] && t.Valid() && t.queued.size == s.queued.size
  {
    BatchOfAll(s.queued);
  }

  // ---------- Exactness: an uneven state can lose a metric ----------

  lemma RetryOneLedger<T>(s: State<T>, n: nat, ok: bool, outcome: Outcome)
    requires s.Valid()
    ensures RetryOne(s, n, ok, outcome).0.skipped == s.skipped + s.failed.Skipped(n)
  {}

  lemma {:induction false} RetryLedger<T>(s: State<T>, left: nat, ok: bool, outcome: Outcome)
    requires s.Valid()
    ensures |Retry(s, left, ok, outcome).0.skipped| >= |s.skipped|
    decreases left
  {
    hide RetryOne;
    var n := Min(left, s.queued.size);
    RetryOneValid(s, n, ok, outcome);
    RetryOneLedger(s, n, ok, outcome);
    if left >= s.queued.size {
      var (s1, ok1) := RetryOne(s, n, ok, outcome);
      RetryLedger(s1, left - s.queued.size, ok1, outcome);
    }
  }

  lemma FailingRetry<T>(s: State<T>, n: nat, ok: bool)
    requires s.Valid() && n > 0 && s.failed.items != []
    ensures !RetryOne(s, n, ok, k => false).1
  {}

  /** With every write failing, the rotation reaches the batch that straddles. */
  lemma {:induction false} RotationSkips<T>(s: State<T>, q: seq<T>, f: nat, left: nat, ok: bool, base: seq<T>)
    requires left <= |q| && Midway(s, q, f, |q| - left, 0, ok, base)
    requires var m := s.queued.size; var p := f + |q| - left;
             p < s.failed.size < f + |q| && m < |q| && LastRound(s.failed.size - p, m) != 0
    ensures |Retry(s, left, ok, k => false).0.skipped| > |s.skipped|
    decreases left
  {
    hide RetryOne, Ring.Rest, Ring.Batched;
    var m, c := s.queued.size, |q| - left;
    var k := Min(left, m);
    var (s1, ok1) := RetryOne(s, k, ok, k => false);
    RetryOneValid(s, k, ok, k => false);
    RetryOneLedger(s, k, ok, k => false);
    if f + c + k > s.failed.size {
      assert s.failed.Straddles(k);
      if left >= m {
        RetryLedger(s1, left - m, ok1, k => false);
      }
    } else {
      var d := RotateStep(s, q, f, c, 0, ok, base, k, k => false);
      FailingRetry(s, k, ok);
      RotationSkips(s1, q, f, left - m, ok1, base);
    }
  }

  /** Evenness is exactly what makes a flush lossless whatever the output does. */
  lemma LosslessIffEven<T>(s: State<T>)
    requires s.Valid()
    ensures Even(s.failed, s.queued.size) <==>
            forall outcome: Outcome :: Flush(s, outcome).0.skipped == s.skipped
  {
    if Even(s.failed, s.queued.size) {
      forall outcome: Outcome ensures Flush(s, outcome).0.skipped == s.skipped {
        var d := FlushIsFifo(s, outcome);
      }
    } else {
      UnevenSkips(s);
    }
  }

  lemma UnevenSkips<T>(s: State<T>)
    requires s.Valid() && !Even(s.failed, s.queued.size)
    ensures Flush(s, k => false).0.skipped != s.skipped
  {
    var q, f := s.failed.items, s.failed.first;
    RoundsByDivision(s.failed.size - f, s.queued.size);
    assert Rotated(q, 0, 0) == q && s.delivered + q[..0] == s.delivered;
    RotationSkips(s, q, f, |q|, true, s.delivered);
  }

  // ---------- Conservation over whole runs ----------

  /** Every metric the ledger and the buffers account for. */
  ghost function Total<T>(s: State<T>): multiset<T> {
    multiset(s.delivered) + multiset(s.queued.items) + multiset(s.failed.items) +
    multiset(s.evicted) + multiset(s.skipped)
  }

  lemma TakeFailedConserves<T>(s: State<T>, n: nat)
    requires s.Valid()
    ensures Total(s) == Total(TakeFailed(s, n)) + multiset(s.failed.Batched(n))
  {
    BatchPartitions(s.failed, n);
    var r := s.failed;
    assert multiset(r.items) == multiset(r.Batched(n)) + multiset(r.Skipped(n)) + multiset(r.Rest(n).items);
    assert multiset(s.skipped + r.Skipped(n)) == multiset(s.skipped) + multiset(r.Skipped(n));
  }

  lemma TakeFreshConserves<T>(s: State<T>)
    requires s.Valid()
    ensures Total(s) == Total(TakeFresh(s)) + multiset(s.queued.items)
    ensures s.queued.Batched(s.queued.size) == s.queued.items
    ensures TakeFresh(s).Valid()
  {
    BatchOfAll(s.queued);
  }

  lemma BagOfConcat<T>(a: seq<T>, b: seq<T>)
    ensures multiset(a + b) == multiset(a) + multiset(b)
  {}

  lemma AddedBag<T>(r: Ring<T>, ms: seq<T>)
    requires r.Valid() && r.size > 0
    ensures multiset(r.items) + multiset(ms) == multiset(r.Evicted(ms)) + multiset(r.Added(ms).items)
  {
    AddPartitions(r, ms);
    hide Ring.Added, Ring.Evicted;
    BagOfConcat(r.items, ms);
    BagOfConcat(r.Evicted(ms), r.Added(ms).items);
  }

  /** Trading `a` and `b` for `c` and `d` in a sum. */
  lemma Exchange<T>(x: multiset<T>, y: multiset<T>, a: multiset<T>, b: multiset<T>,
                    w: multiset<T>, z: multiset<T>, c: multiset<T>, d: multiset<T>)
    requires a + b == c + d
    ensures x + d + w + (z + c) + y == x + a + w + z + y + b
    ensures w == multiset{} ==> x + d + (z + c) + y == x + a + z + y + b
  {
    forall e: T
      ensures (x + d + w + (z + c) + y)[e] == (x + a + w + z + y + b)[e]
      ensures w == multiset{} ==> (x + d + (z + c) + y)[e] == (x + a + z + y + b)[e]
    {
      assert (a + b)[e] == (c + d)[e];
    }
  }

  lemma PutBackConserves<T>(s: State<T>, batch: seq<T>)
    requires s.Valid()
    ensures Total(PutBack(s, batch)) == Total(s) + multiset(batch)
  {
    hide Ring.Added, Ring.Evicted;
    var r := s.failed;
    AddedBag(r, batch);
    BagOfConcat(s.evicted, r.Evicted(batch));
    Exchange(multiset(s.delivered) + multiset(s.queued.items), multiset(s.skipped), multiset(r.items), multiset(batch),
             multiset{}, multiset(s.evicted), multiset(r.Evicted(batch)), multiset(r.Added(batch).items));
  }

  lemma DeliverConserves<T>(s: State<T>, batch: seq<T>)
    ensures Total(s.(delivered := s.delivered + batch)) == Total(s) + multiset(batch)
  {
    assert multiset(s.delivered + batch) == multiset(s.delivered) + multiset(batch);
  }

  lemma SettleConserves<T>(s: State<T>, batch: seq<T>, ok: bool, outcome: Outcome)
    requires s.Valid()
    ensures Total(Settle(s, batch, ok, outcome).0) == Total(s) + multiset(batch)
  {
    hide PutBack, Total;
    var counted := s.(calls := s.calls + 1);
    assert Total(counted) == Total(s) by { SameTotal(s, counted); }
    PutBackConserves(s, batch);
    PutBackConserves(counted, batch);
    DeliverConserves(counted, batch);
  }

  lemma SameTotal<T>(s: State<T>, s': State<T>)
    requires s' == s.(calls := s'.calls)
    ensures Total(s) == Total(s')
  {}

  lemma {:induction false} RetryConserves<T>(s: State<T>, left: nat, ok: bool, outcome: Outcome)
    requires s.Valid()
    ensures Total(Retry(s, left, ok, outcome).0) == Total(s)
    decreases left
  {
    hide Settle, Total;
    var n := Min(left, s.queued.size);
    RetryOneValid(s, n, ok, outcome);
    TakeFailedConserves(s, n);
    BatchPartitions(s.failed, n);
    SettleConserves(TakeFailed(s, n), s.failed.Batched(n), ok, outcome);
    if left >= s.queued.size {
      var (s1, ok1) := RetryOne(s, n, ok, outcome);
      RetryConserves(s1, left - s.queued.size, ok1, outcome);
    }
  }

  lemma FlushConserves<T>(s: State<T>, outcome: Outcome)
    requires s.Valid()
    ensures Total(Flush(s, outcome).0) == Total(s)
  {
    hide Flush, Settle, Total, Retry, TakeFresh;
    var (s1, ok) := if s.failed.items == [] then (s, true) else Retry(s, |s.failed.items|, true, outcome);
    RetryConserves(s, |s.failed.items|, true, outcome);
    FlushParts(s, s1, ok, outcome);
    TakeFreshConserves(s1);
    SettleConserves(TakeFresh(s1), s1.queued.items, ok, outcome);
  }

  lemma AcceptConserves<T>(s: State<T>, m: T, outcome: Outcome)
    requires s.Valid()
    ensures Total(Accept(s, m, outcome)) == Total(s) + multiset{m}
  {
    hide Settle, Total, TakeFresh;
    ArriveConserves(s, m);
    AddPartitions(s.queued, [m]);
    var s1 := Arrived(s, m);
    if |s1.queued.items| == s1.queued.size {
      TakeFreshConserves(s1);
      SettleConserves(TakeFresh(s1), s1.queued.items, true, outcome);
    }
  }

  lemma ArriveConserves<T>(s: State<T>, m: T)
    requires s.Valid()
    ensures Total(Arrived(s, m)) == Total(s) + multiset{m}
  {
    hide Ring.Added, Ring.Evicted;
    var r := s.queued;
    AddedBag(r, [m]);
    BagOfConcat(s.evicted, r.Evicted([m]));
    Exchange(multiset(s.delivered), multiset(s.skipped), multiset(r.items), multiset{m},
             multiset(s.failed.items), multiset(s.evicted), multiset(r.Evicted([m])), multiset(r.Added([m]).items));
  }

  /** What happens to an output: a metric that passed the filter arrives, or a flush. */
  datatype Event<T> = Arrive(m: T) | Tick

  function Step<T>(s: State<T>, e: Event<T>, outcome: Outcome): (s': State<T>)
    requires s.Valid()
    ensures s'.Valid() && s'.queued.size == s.queued.size && s'.failed.size == s.failed.size
    ensures s.Settled() ==> s'.Settled()
  {
    match e
    case Arrive(m) => Accept(s, m, outcome)
    case Tick => Flush(s, outcome).0
  }

  function Run<T>(s: State<T>, events: seq<Event<T>>, outcome: Outcome): (s': State<T>)
    requires s.Valid()
    ensures s'.Valid() && s'.queued.size == s.queued.size && s'.failed.size == s.failed.size
    ensures s.Settled() ==> s'.Settled()
  {
    if events == [] then s
    else Step(Run(s, events[..|events| - 1], outcome), events[|events| - 1], outcome)
  }

  function Accepted<T>(events: seq<Event<T>>): seq<T> {
    if events == [] then []
    else Accepted(events[..|events| - 1]) +
         match events[|events| - 1] case Arrive(m) => [m] case Tick => []
  }

  function Start<T>(batchSize: nat, limit: nat): State<T> {
    State(Empty(batchSize), Empty(limit), [], [], [], 0)
  }

  /**
   Over every run, with any outcomes: the accepted metrics are exactly those delivered, still
   buffered, evicted as oldest, or skipped behind a straddling batch. No metric is delivered
   more often than it was accepted.
   */
  lemma {:induction false} RunConserves<T>(events: seq<Event<T>>, batchSize: nat, limit: nat, outcome: Outcome)
    requires batchSize > 0 && limit > 0
    ensures var s := Run(Start(batchSize, limit), events, outcome);
            Total(s) == multiset(Accepted(events)) &&
            multiset(s.delivered) <= multiset(Accepted(events))
  {
    hide Accept, Flush;
    if events != [] {
      var front, e := events[..|events| - 1], events[|events| - 1];
      RunConserves(front, batchSize, limit, outcome);
      var s := Run(Start(batchSize, limit), front, outcome);
      match e
      case Arrive(m) => AcceptConserves(s, m, outcome);
      case Tick => FlushConserves(s, outcome);
    }
  }

  // ---------- A reachable loss ----------

  /** A full batch of two whose write fails goes to failMetrics. */
  lemma FailedPair<T>(s: State<T>, x: T, y: T)
    requires s.Valid() && s.queued.size == 2 && s.queued.items == []
    ensures var s' := Accept(Accept(s, x, k => false), y, k => false);
            s'.failed == s.failed.Added([x, y]) && s'.queued.items == [] && s'.skipped == s.skipped
  {
    hide Wrap;
    AddedFits(s.queued, [x]);
    var s1 := Accept(s, x, k => false);
    AddedFits(s1.queued, [y]);
    var s2 := Arrived(s1, y);
    BatchOfAll(s2.queued);
    assert s2.queued.items == [x, y];
  }

  function Pairs<T>(m: T, n: nat): seq<Event<T>> {
    if n == 0 then [] else Pairs(m, n - 1) + [Arrive(m), Arrive(m)]
  }

  lemma PairsRun<T>(m: T, n: nat)
    requires n > 0
    ensures var s := Run(Start(2, 3), Pairs(m, n - 1), k => false);
            Run(Start(2, 3), Pairs(m, n), k => false) == Accept(Accept(s, m, k => false), m, k => false)
  {
    hide Accept, Start;
    var all, before := Pairs(m, n), Pairs(m, n - 1);
    assert all[..|all| - 1] == before + [Arrive(m)];
    assert (before + [Arrive(m)])[..|before|] == before;
  }

  /** Where the oldest failed metric sits, and how many there are, after `n` failed pairs. */
  lemma FailedPairs<T>(m: T, n: nat)
    requires n <= 4
    ensures var s := Run(Start(2, 3), Pairs(m, n), k => false);
            s.queued.items == [] && s.skipped == [] &&
            s.failed.first == [0, 0, 1, 0, 2][n] && |s.failed.items| == [0, 2, 3, 3, 3][n]
    decreases n
  {
    hide Accept;
    if n > 0 {
      FailedPairs(m, n - 1);
      PairsRun(m, n);
      FailedPair(Run(Start(2, 3), Pairs(m, n - 1), k => false), m, m);
      hide Run, Pairs;
      assert n == 1 || n == 2 || n == 3 || n == 4;
    }
  }

  /** A batch size of two, room for three failed metrics, an output that is down: after four failed batches a flush skips one. */
  lemma ReachableLoss<T>(m: T)
    ensures Run(Start(2, 3), Pairs(m, 4) + [Tick], k => false).skipped != []
  {
    hide Accept, Flush, Even;
    var s, events := Run(Start(2, 3), Pairs(m, 4), k => false), Pairs(m, 4) + [Tick];
    assert events[..|events| - 1] == Pairs(m, 4);
    FailedPairs(m, 4);
    UnevenState(s.failed);
    UnevenSkips(s);
  }

  lemma UnevenState<T>(r: Ring<T>)
    requires r.Valid() && r.size == 3 && r.first == 2 && |r.items| == 3
    ensures !Even(r, 2)
  {}

  // ---------- Runs of full batches never skip ----------

  /** Batches that go to failMetrics are full: a flush that fails finds no fresh metrics. */
  predicate FullBatches<T>(s: State<T>, events: seq<Event<T>>, outcome: Outcome)
    requires s.Valid()
  {
    events == [] ||
    (var front := events[..|events| - 1];
     var s1 := Run(s, front, outcome);
     FullBatches(s, front, outcome) &&
     (events[|events| - 1].Tick? ==> s1.queued.items == [] || Flush(s1, outcome).1))
  }

  ghost predicate Aligned<T>(s: State<T>) {
    s.Settled() && var m := s.queued.size;
    LastRound(s.failed.size, m) == LastRound(s.failed.first, m) == LastRound(|s.failed.items|, m) == 0
  }

  lemma AlignedIsEven<T>(s: State<T>)
    requires Aligned(s)
    ensures Even(s.failed, s.queued.size)
  {
    var m := s.queued.size;
    MultipleDrops(s.failed.size, s.failed.first, m);
    RoundsByDivision(s.failed.size - s.failed.first, m);
  }

  lemma {:induction false} WrapAligned(x: nat, size: nat, m: nat)
    requires 0 < m && 0 < size && LastRound(x, m) == LastRound(size, m) == 0
    ensures LastRound(Wrap(x, size), m) == 0
    decreases x
  {
    if x >= size {
      MultipleDrops(x, size, m);
      WrapAligned(x - size, size, m);
    }
  }

  lemma PutBackAligned<T>(s: State<T>, batch: seq<T>)
    requires s.Valid() && (|batch| == s.queued.size || batch == [])
    requires Aligned(s)
    ensures Aligned(PutBack(s, batch))
  {
    var m, r := s.queued.size, s.failed;
    if batch != [] {
      var e := r.Overflow(m);
      MultipleDrops(r.size, |r.items|, m);
      assert e == 0 || e == m;
      MultipleAdds(|r.items|, m, m);
      MultipleAdds(r.first, m, m);
      WrapAligned(r.first + e, r.size, m);
    }
  }

  lemma AcceptAligned<T>(s: State<T>, x: T, outcome: Outcome)
    requires Aligned(s)
    ensures Aligned(Accept(s, x, outcome)) && Accept(s, x, outcome).skipped == s.skipped
    ensures Accept(s, x, outcome).queued.Valid()
  {
    var s1 := Arrived(s, x);
    AddPartitions(s.queued, [x]);
    if |s1.queued.items| == s1.queued.size {
      BatchOfAll(s1.queued);
      var t := TakeFresh(s1);
      assert Aligned(t);
      SettleAligned(t, s1.queued.items, true, outcome);
    }
  }

  lemma FlushAligned<T>(s: State<T>, outcome: Outcome)
    requires Aligned(s) && (s.queued.items == [] || Flush(s, outcome).1)
    ensures Aligned(Flush(s, outcome).0) && Flush(s, outcome).0.skipped == s.skipped
  {
    hide Flush, Settle, TakeFresh, Retry, LastRound;
    AlignedIsEven(s);
    var q := s.failed.items;
    var d := RetryPhase(s, outcome);
    var (s1, ok) := if q == [] then (s, true) else Retry(s, |q|, true, outcome);
    FlushParts(s, s1, ok, outcome);
    RetriedAligned(s, s1, d);
    SettleAligned(TakeFresh(s1), s.queued.items, ok, outcome);
  }

  lemma RetriedAligned<T>(s: State<T>, s1: State<T>, d: nat)
    requires Aligned(s) && d <= |s.failed.items| && LastRound(d, s.queued.size) == 0 && s1.queued == s.queued
    requires var q, size := s.failed.items, s.failed.size;
             s1.failed == Ring(q[d..], Wrap(s.failed.first + |q|, size), size)
    ensures Aligned(TakeFresh(s1))
  {
    hide LastRound, Wrap;
    var m, n := s.queued.size, |s.failed.items|;
    MultipleDrops(n, d, m);
    MultipleAdds(s.failed.first, n, m);
    WrapAligned(s.failed.first + n, s.failed.size, m);
    BatchOfAll(s.queued);
    hide Ring.Rest, Ring.Skipped;
  }

  lemma SettleAligned<T>(s: State<T>, batch: seq<T>, ok: bool, outcome: Outcome)
    requires Aligned(s)
    requires |batch| == s.queued.size || batch == [] || Settle(s, batch, ok, outcome).1
    ensures Aligned(Settle(s, batch, ok, outcome).0) && Settle(s, batch, ok, outcome).0.skipped == s.skipped
  {
    var counted := s.(calls := s.calls + 1);
    assert Aligned(counted);
    if |batch| == s.queued.size || batch == [] {
      PutBackAligned(s, batch);
      PutBackAligned(counted, batch);
    }
  }

  /**
   When the limit is a multiple of the batch size and only full batches reach failMetrics,
   the oldest failed metric always sits on a batch boundary, nothing is ever skipped, and
   every further flush is first-in first-out.
   */
  lemma {:induction false} FullBatchesNeverSkip<T>(
    events: seq<Event<T>>, batchSize: nat, limit: nat, outcome: Outcome, later: Outcome)
    requires batchSize > 0 && limit > 0 && limit % batchSize == 0
    requires FullBatches(Start(batchSize, limit), events, outcome)
    ensures var s := Run(Start(batchSize, limit), events, outcome);
            Aligned(s) && s.failed.first % batchSize == 0 && s.skipped == [] &&
            exists d :: FifoStep(s, Flush(s, later).0, Flush(s, later).1, d)
  {
    hide Accept, Flush;
    var start := Start<T>(batchSize, limit);
    RoundsByDivision(limit, batchSize);
    var s := Run(start, events, outcome);
    if events != [] {
      var front, e := events[..|events| - 1], events[|events| - 1];
      FullBatchesNeverSkip(front, batchSize, limit, outcome, later);
      match e
      case Arrive(m) => AcceptAligned(Run(start, front, outcome), m, outcome);
      case Tick => FlushAligned(Run(start, front, outcome), outcome);
    }
    RoundsByDivision(s.failed.first, batchSize);
    AlignedIsEven(s);
    var d := FlushIsFifo(s, later);
  }
}
