/** Batch statistics of a sample, and Welford's update (plugins/aggregators/basicstats/basicstats.go). */
module Sample {

  function SumOf(xs: seq<real>, f: real -> real): real {
    if xs == [] then 0.0 else SumOf(xs[..|xs| - 1], f) + f(xs[|xs| - 1])
  }

  function Sum(xs: seq<real>): real { SumOf(xs, x => x) }

  function Square(x: real): real { x * x }

  /** The sum of squared distances from `c`. */
  function SquaredDistances(xs: seq<real>, c: real): real { SumOf(xs, x => Square(x - c)) }

  function Count(xs: seq<real>): real { |xs| as real }

  function Mean(xs: seq<real>): real
    requires xs != []
  {
    Sum(xs) / Count(xs)
  }

  function MinOf(xs: seq<real>): (m: real)
    requires xs != []
    ensures m in xs && forall x :: x in xs ==> m <= x
  {
    var last := xs[|xs| - 1];
    if |xs| == 1 then last
    else
      assert xs == xs[..|xs| - 1] + [last];
      var m := MinOf(xs[..|xs| - 1]);
      if last < m then last else m
  }

  function MaxOf(xs: seq<real>): (m: real)
    requires xs != []
    ensures m in xs && forall x :: x in xs ==> x <= m
  {
    var last := xs[|xs| - 1];
    if |xs| == 1 then last
    else
      assert xs == xs[..|xs| - 1] + [last];
      var m := MaxOf(xs[..|xs| - 1]);
      if last > m then last else m
  }

  datatype Stats = Stats(count: real, min: real, max: real, sum: real, mean: real, m2: real)

  /** The statistics of a whole sample, computed at once. */
  function Batch(xs: seq<real>): Stats
    requires xs != []
  {
    Stats(Count(xs), MinOf(xs), MaxOf(xs), Sum(xs), Mean(xs), SquaredDistances(xs, Mean(xs)))
  }

  function First(x: real): Stats { Stats(1.0, x, x, x, x, 0.0) }

  /** The running update. */
  function Update(s: Stats, x: real): Stats
    requires s.count >= 0.0
  {
    var n := s.count + 1.0;
    var delta := x - s.mean;
    var mean := s.mean + delta / n;
    Stats(n,
          if x < s.min then x else s.min,
          if x < s.min then s.max else if x > s.max then x else s.max,
          s.sum + x,
          mean,
          s.m2 + delta * (x - mean))
  }

  // ---------- Welford's update is the batch ----------

  lemma SumOfSnoc(xs: seq<real>, x: real, f: real -> real)
    ensures SumOf(xs + [x], f) == SumOf(xs, f) + f(x)
  {
    var ys := xs + [x];
    assert ys[..|ys| - 1] == xs;
  }

  lemma FirstIsBatch(x: real)
    ensures First(x) == Batch([x])
  {
    var xs := [x];
    assert [] + [x] == xs;
    SumOfSnoc([], x, y => y);
    SumOfSnoc([], x, y => Square(y - x));
    assert Sum(xs) == x && Count(xs) == 1.0 && Mean(xs) == x;
  }

  /** Moving the centre by `e` away from the mean adds n * e * e. */
  lemma {:induction false} MoveCentre(xs: seq<real>, c: real, e: real)
    ensures SquaredDistances(xs, c + e) ==
            SquaredDistances(xs, c) - 2.0 * e * (Sum(xs) - Count(xs) * c) + Count(xs) * e * e
  {
    if xs != [] {
      var front, x := xs[..|xs| - 1], xs[|xs| - 1];
      MoveCentre(front, c, e);
      assert Square(x - (c + e)) == Square(x - c) - 2.0 * e * (x - c) + e * e by { SquareShift(x - c, e); }
      assert Count(xs) == Count(front) + 1.0;
      Regroup(Sum(front), Count(front), x, c, e);
    }
  }

  lemma SquareShift(d: real, e: real)
    ensures Square(d - e) == Square(d) - 2.0 * e * d + e * e
  {}

  lemma Regroup(s: real, n: real, x: real, c: real, e: real)
    ensures -2.0 * e * (s - n * c) + n * e * e - 2.0 * e * (x - c) + e * e ==
            -2.0 * e * (s + x - (n + 1.0) * c) + (n + 1.0) * e * e
  {}

  lemma Quotient(a: real, b: real, c: real)
    requires a != 0.0 && a * b == c
    ensures c / a == b
  {}

  lemma MeanTimesCount(xs: seq<real>)
    requires xs != []
    ensures Count(xs) * Mean(xs) == Sum(xs)
  {}

  lemma NewMean(n: real, m: real, x: real)
    requires n >= 0.0
    ensures m + (x - m) / (n + 1.0) == (n * m + x) / (n + 1.0)
  {
    var e := (x - m) / (n + 1.0);
    assert (n + 1.0) * e == x - m;
    assert (n + 1.0) * (m + e) == n * m + m + (n + 1.0) * e;
    Quotient(n + 1.0, m + e, n * m + x);
  }

  lemma NewSquares(n: real, d: real, e: real)
    requires (n + 1.0) * e == d
    ensures n * e * e + Square(d - e) == d * (d - e)
  {
    assert d - e == n * e by { assert (n + 1.0) * e == n * e + e; }
    var ne := n * e;
    assert Square(d - e) == ne * ne;
    assert n * e * e == ne * e;
    assert ne * e + ne * ne == (e + ne) * ne;
  }

  lemma StepMean(xs: seq<real>, x: real)
    requires xs != []
    ensures Count(xs + [x]) == Count(xs) + 1.0 && Sum(xs + [x]) == Sum(xs) + x
    ensures Mean(xs + [x]) == Mean(xs) + (x - Mean(xs)) / (Count(xs) + 1.0)
  {
    SumOfSnoc(xs, x, y => y);
    MeanTimesCount(xs);
    NewMean(Count(xs), Mean(xs), x);
  }

  lemma StepSquares(xs: seq<real>, x: real)
    requires xs != []
    ensures var d := x - Mean(xs);
            var m := Mean(xs) + d / (Count(xs) + 1.0);
            SquaredDistances(xs + [x], m) == SquaredDistances(xs, Mean(xs)) + d * (x - m)
  {
    var n, m := Count(xs), Mean(xs);
    var e := (x - m) / (n + 1.0);
    assert (n + 1.0) * e == x - m;
    hide Mean, Count;
    MeanTimesCount(xs);
    SumOfSnoc(xs, x, y => Square(y - (m + e)));
    MoveCentre(xs, m, e);
    NewSquares(n, x - m, e);
    assert Sum(xs) - n * m == 0.0;
  }

  lemma StepExtremes(xs: seq<real>, x: real)
    requires xs != []
    ensures MinOf(xs + [x]) == if x < MinOf(xs) then x else MinOf(xs)
    ensures MaxOf(xs + [x]) == if x < MinOf(xs) then MaxOf(xs) else if x > MaxOf(xs) then x else MaxOf(xs)
  {
    var ys := xs + [x];
    assert ys[..|ys| - 1] == xs;
  }

  /** One update of the running statistics is the batch over one more value. */
  lemma WelfordStep(xs: seq<real>, x: real)
    requires xs != []
    ensures Update(Batch(xs), x) == Batch(xs + [x])
  {
    hide Mean, Count, Sum, SquaredDistances, MinOf, MaxOf;
    assert Batch(xs).count >= 0.0 by { CountPositive(xs); }
    StepMean(xs, x);
    StepSquares(xs, x);
    StepExtremes(xs, x);
  }

  lemma CountPositive(xs: seq<real>)
    ensures Count(xs) >= 0.0
  {}

  /** Folding the update over a sample. */
  function Fold(xs: seq<real>): (s: Stats)
    requires xs != []
    ensures s.count >= 1.0
  {
    if |xs| == 1 then First(xs[0]) else Update(Fold(xs[..|xs| - 1]), xs[|xs| - 1])
  }

  /** The running statistics after any sequence of values are the statistics of the whole sequence. */
  lemma {:induction false} WelfordIsBatch(xs: seq<real>)
    requires xs != []
    ensures Fold(xs) == Batch(xs)
  {
    var front, x := xs[..|xs| - 1], xs[|xs| - 1];
    assert xs == front + [x];
    if |xs| == 1 {
      FirstIsBatch(x);
      assert xs == [x];
    } else {
      WelfordIsBatch(front);
      WelfordStep(front, x);
    }
  }

  // ---------- Arrival order does not matter ----------

  lemma {:induction false} SumOfWithout(xs: seq<real>, f: real -> real, i: nat)
    requires i < |xs|
    ensures SumOf(xs, f) == SumOf(xs[..i] + xs[i + 1..], f) + f(xs[i])
  {
    var without := xs[..i] + xs[i + 1..];
    if i == |xs| - 1 {
      assert without == xs[..|xs| - 1];
    } else {
      var front := xs[..|xs| - 1];
      SumOfWithout(front, f, i);
      assert without[..|without| - 1] == front[..i] + front[i + 1..];
    }
  }

  lemma {:induction false} SumOfPermuted(xs: seq<real>, ys: seq<real>, f: real -> real)
    requires multiset(xs) == multiset(ys)
    ensures SumOf(xs, f) == SumOf(ys, f)
  {
    assert |multiset(xs)| == |xs| && |multiset(ys)| == |ys|;
    if xs != [] {
      var front, x := xs[..|xs| - 1], xs[|xs| - 1];
      assert xs == front + [x];
      assert x in multiset(ys);
      var i :| 0 <= i < |ys| && ys[i] == x;
      assert ys == ys[..i] + [x] + ys[i + 1..];
      var without := ys[..i] + ys[i + 1..];
      assert multiset(without) == multiset(ys) - multiset{x};
      SumOfWithout(ys, f, i);
      SumOfPermuted(front, without, f);
    }
  }

  /** The emitted statistics are a function of the values received, not of their order. */
  lemma BatchPermuted(xs: seq<real>, ys: seq<real>)
    requires xs != [] && ys != [] && multiset(xs) == multiset(ys)
    ensures Batch(xs) == Batch(ys)
  {
    assert |multiset(xs)| == |xs| && |multiset(ys)| == |ys|;
    SumOfPermuted(xs, ys, x => x);
    var m := Mean(xs);
    SumOfPermuted(xs, ys, x => Square(x - m));
    assert forall x :: x in xs <==> x in multiset(xs);
    assert forall x :: x in ys <==> x in multiset(ys);
  }
}
