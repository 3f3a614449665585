/** Bucket borders and cumulative counts (plugins/aggregators/histogram/histogram.go). */
module Buckets {

  ghost predicate Ascending(s: seq<real>) {
    forall i, j :: 0 <= i < j < |s| ==> s[i] <= s[j]
  }

  // ---------- Sorting ----------

  function InsertSorted(s: seq<real>, x: real): seq<real> {
    if s == [] || x <= s[0] then [x] + s else [s[0]] + InsertSorted(s[1..], x)
  }

  /** sort.Float64s, as the value it leaves in the slice. */
  function Sort(s: seq<real>): seq<real> {
    if s == [] then [] else InsertSorted(Sort(s[1..]), s[0])
  }

  lemma ConsAscending(x: real, s: seq<real>)
    requires Ascending(s) && (s != [] ==> x <= s[0])
    ensures Ascending([x] + s)
  {
    var r := [x] + s;
    assert forall i :: 0 < i < |r| ==> r[i] == s[i - 1];
  }

  lemma {:induction false} InsertSortedSorts(s: seq<real>, x: real)
    requires Ascending(s)
    ensures var r := InsertSorted(s, x);
            Ascending(r) && multiset(r) == multiset(s) + multiset{x} &&
            r != [] && (r[0] == x || (s != [] && r[0] == s[0]))
  {
    hide Ascending;
    if s == [] || x <= s[0] {
      ConsAscending(x, s);
      BagOfCons(x, s);
    } else {
      TailAscending(s);
      TailBag(s);
      InsertSortedSorts(s[1..], x);
      ConsAscending(s[0], InsertSorted(s[1..], x));
      BagOfCons(s[0], InsertSorted(s[1..], x));
    }
  }

  lemma TailAscending(s: seq<real>)
    requires Ascending(s) && s != []
    ensures Ascending(s[1..]) && (|s| > 1 ==> s[0] <= s[1..][0])
  {}

  lemma BagOfCons(x: real, s: seq<real>)
    ensures multiset([x] + s) == multiset{x} + multiset(s)
  {}

  lemma TailBag(s: seq<real>)
    requires s != []
    ensures multiset(s) == multiset{s[0]} + multiset(s[1..]) && multiset(s[1..]) == multiset(s) - multiset{s[0]}
  {
    assert s == [s[0]] + s[1..];
  }

  lemma {:induction false} SortSorts(s: seq<real>)
    ensures Ascending(Sort(s)) && multiset(Sort(s)) == multiset(s)
  {
    if s != [] {
      SortSorts(s[1..]);
      InsertSortedSorts(Sort(s[1..]), s[0]);
      assert s == [s[0]] + s[1..];
    }
  }

  lemma {:induction false} AscendingUnique(a: seq<real>, b: seq<real>)
    requires Ascending(a) && Ascending(b) && multiset(a) == multiset(b)
    ensures a == b
  {
    assert |multiset(a)| == |a| && |multiset(b)| == |b|;
    if a != [] {
      SameLeast(a, b);
      TailAscending(a);
      TailAscending(b);
      TailBag(a);
      TailBag(b);
      hide Ascending;
      AscendingUnique(a[1..], b[1..]);
      assert a == [a[0]] + a[1..] && b == [b[0]] + b[1..];
    }
  }

  lemma SameLeast(a: seq<real>, b: seq<real>)
    requires Ascending(a) && Ascending(b) && multiset(a) == multiset(b) && a != [] && b != []
    ensures a[0] == b[0]
  {
    assert a[0] in multiset(b) && b[0] in multiset(a);
    var i :| 0 <= i < |b| && b[i] == a[0];
    var j :| 0 <= j < |a| && a[j] == b[0];
  }

  /** Sorting depends only on the borders there are, so sorting again changes nothing. */
  lemma SortOfPermuted(a: seq<real>, b: seq<real>)
    requires multiset(a) == multiset(b)
    ensures Sort(a) == Sort(b)
  {
    SortSorts(a);
    SortSorts(b);
    AscendingUnique(Sort(a), Sort(b));
  }

  lemma SortedAlready(s: seq<real>)
    requires Ascending(s)
    ensures Sort(s) == s
  {
    SortSorts(s);
    AscendingUnique(Sort(s), s);
  }

  /** sortBuckets: sorts only when two neighbours are not strictly increasing. */
  method SortBuckets(buckets: seq<real>) returns (r: seq<real>)
    ensures r == Sort(buckets)
  {
    for i := 0 to |buckets|
      invariant forall j :: 0 < j <= i && j < |buckets| ==> buckets[j - 1] < buckets[j]
    {
      if i < |buckets| - 1 && buckets[i] >= buckets[i + 1] {
        return Sort(buckets);
      }
    }
    NeighboursAscend(buckets);
    SortedAlready(buckets);
    r := buckets;
  }

  lemma {:induction false} NeighboursAscend(s: seq<real>)
    requires forall j :: 0 < j < |s| ==> s[j - 1] < s[j]
    ensures Ascending(s)
  {
    if s != [] {
      var front := s[..|s| - 1];
      assert forall j :: 0 < j < |front| ==> front[j - 1] < front[j];
      NeighboursAscend(front);
      forall i, j | 0 <= i < j < |s| ensures s[i] <= s[j] {
        if j == |s| - 1 && i < j - 1 {
          assert front[i] <= front[j - 1];
        }
      }
    }
  }

  // ---------- Counting ----------

  /** The bucket a value belongs to: the first border that is not below it. */
  function Slot(b: seq<real>, x: real): (i: nat)
    ensures i <= |b| && (forall k :: 0 <= k < i ==> b[k] < x) && (i < |b| ==> x <= b[i])
  {
    if b == [] || x <= b[0] then 0
    else
      var i := Slot(b[1..], x);
      assert forall k :: 0 < k < i + 1 ==> b[k] == b[1..][k - 1];
      i + 1
  }

  /** sort.SearchFloat64s. */
  method SearchFloat64s(b: seq<real>, x: real) returns (i: nat)
    requires Ascending(b)
    ensures i == Slot(b, x)
  {
    var lo, hi := 0, |b|;
    while lo < hi
      invariant 0 <= lo <= hi <= |b|
      invariant forall k :: 0 <= k < lo ==> b[k] < x
      invariant forall k :: hi <= k < |b| ==> x <= b[k]
    {
      var h := (lo + hi) / 2;
      if b[h] < x {
        lo := h + 1;
      } else {
        hi := h;
      }
    }
    i := lo;
    SlotIs(b, x, i);
  }

  lemma SlotIs(b: seq<real>, x: real, i: nat)
    requires i <= |b| && (forall k :: 0 <= k < i ==> b[k] < x) && (i < |b| ==> x <= b[i])
    ensures Slot(b, x) == i
  {
    var j := Slot(b, x);
    assert !(i < j) && !(j < i);
  }

  /** How many of the values fall in bucket `i`. */
  function CountAt(b: seq<real>, xs: seq<real>, i: nat): nat {
    if xs == [] then 0
    else CountAt(b, xs[..|xs| - 1], i) + if Slot(b, xs[|xs| - 1]) == i then 1 else 0
  }

  /** How many of the values are at most `limit`. */
  function AtMost(xs: seq<real>, limit: real): nat {
    if xs == [] then 0 else AtMost(xs[..|xs| - 1], limit) + if xs[|xs| - 1] <= limit then 1 else 0
  }

  /** The hit counts of a sample: one for each border, and one beyond the last. */
  function Tally(b: seq<real>, xs: seq<real>): (counts: seq<nat>)
    ensures |counts| == |b| + 1
  {
    seq(|b| + 1, i requires 0 <= i <= |b| => CountAt(b, xs, i))
  }

  lemma TallyNext(b: seq<real>, xs: seq<real>, x: real)
    ensures var i := Slot(b, x); Tally(b, xs + [x]) == Tally(b, xs)[i := Tally(b, xs)[i] + 1]
  {
    var ys := xs + [x];
    assert ys[..|ys| - 1] == xs;
  }

  lemma TallyNone(b: seq<real>)
    ensures Tally(b, []) == seq(|b| + 1, i => 0)
  {}

  /** The sum of the counts of buckets 0 to n - 1. */
  function Cumulated(counts: seq<nat>, n: nat): nat
    requires n <= |counts|
  {
    if n == 0 then 0 else Cumulated(counts, n - 1) + counts[n - 1]
  }

  /** How many values have a bucket below `n`. */
  function CountBelow(b: seq<real>, xs: seq<real>, n: nat): nat {
    if xs == [] then 0
    else CountBelow(b, xs[..|xs| - 1], n) + if Slot(b, xs[|xs| - 1]) < n then 1 else 0
  }

  lemma {:induction false} CountBelowSplits(b: seq<real>, xs: seq<real>, n: nat)
    ensures CountBelow(b, xs, n + 1) == CountBelow(b, xs, n) + CountAt(b, xs, n)
    ensures CountBelow(b, xs, 0) == 0
  {
    if xs != [] {
      CountBelowSplits(b, xs[..|xs| - 1], n);
    }
  }

  lemma {:induction false} CumulatedIsCountBelow(b: seq<real>, xs: seq<real>, n: nat)
    requires n <= |b| + 1
    ensures Cumulated(Tally(b, xs), n) == CountBelow(b, xs, n)
    decreases n
  {
    if n == 0 {
      CountBelowSplits(b, xs, 0);
    } else {
      CumulatedIsCountBelow(b, xs, n - 1);
      CountBelowSplits(b, xs, n - 1);
    }
  }

  lemma SlotVersusBorder(b: seq<real>, x: real, j: nat)
    requires Ascending(b) && j < |b|
    ensures Slot(b, x) < j + 1 <==> x <= b[j]
  {}

  lemma {:induction false} CountBelowIsAtMost(b: seq<real>, xs: seq<real>, j: nat)
    requires Ascending(b) && j < |b|
    ensures CountBelow(b, xs, j + 1) == AtMost(xs, b[j])
    decreases |xs|
  {
    if xs != [] {
      CountBelowIsAtMost(b, xs[..|xs| - 1], j);
      SlotVersusBorder(b, xs[|xs| - 1], j);
    }
  }

  lemma {:induction false} CountBelowAll(b: seq<real>, xs: seq<real>)
    ensures CountBelow(b, xs, |b| + 1) == |xs|
  {
    if xs != [] {
      CountBelowAll(b, xs[..|xs| - 1]);
    }
  }

  /** The count emitted for border j is the number of values up to it, and the last is their number. */
  lemma CumulatedCounts(b: seq<real>, xs: seq<real>, j: nat)
    requires Ascending(b) && j <= |b|
    ensures Cumulated(Tally(b, xs), j + 1) == if j < |b| then AtMost(xs, b[j]) else |xs|
  {
    hide Tally, Cumulated, CountBelow, AtMost, Slot, Ascending;
    CumulatedIsCountBelow(b, xs, j + 1);
    if j < |b| {
      CountBelowIsAtMost(b, xs, j);
    } else {
      CountBelowAll(b, xs);
    }
  }

  /** Emitted counts never decrease from one border to the next, and none exceeds the total. */
  lemma {:induction false} AtMostAscends(xs: seq<real>, a: real, b: real)
    requires a <= b
    ensures AtMost(xs, a) <= AtMost(xs, b) <= |xs|
  {
    if xs != [] {
      AtMostAscends(xs[..|xs| - 1], a, b);
    }
  }
}
