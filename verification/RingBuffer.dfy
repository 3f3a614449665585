/**
 The circular metric buffer of internal/buffer/buffer.go.

 `Ring` is the abstract value: the queued items, oldest first, together with the
 array slot of the oldest item, which decides whether a batch has to wrap.
 `Buffer` is the in-place array implementation; every method is tied to a
 function on `Ring`.
 */
module RingBuffer {

  function Min(a: int, b: int): int { if b < a then b else a }

  function Max(a: int, b: int): int { if a < b then b else a }

  datatype Ring<T> = Ring(items: seq<T>, first: nat, size: nat) {

    ghost predicate Valid() {
      |items| <= size && (if size == 0 then first == 0 else first < size)
    }

    /** How many items overflow when `n` items are appended. */
    function Overflow(n: nat): nat { Max(0, |items| + n - size) }

    /** The ring after appending `ms`: the newest `size` items survive. */
    function Added(ms: seq<T>): Ring<T>
      requires Valid() && (ms != [] ==> size > 0)
    {
      var e := Overflow(|ms|);
      Ring((items + ms)[e..], if size == 0 then 0 else Wrap(first + e, size), size)
    }

    /** What `Added` throws away: the oldest items. */
    function Evicted(ms: seq<T>): seq<T>
      requires Valid()
    {
      (items + ms)[..Overflow(|ms|)]
    }

    /** How many items a batch of at most `n` holds. */
    function Take(n: nat): nat { Min(|items|, n) }

    /** The batch crosses the end of the array and does not reach the newest item. */
    predicate Straddles(n: nat) {
      first + Take(n) > size && Take(n) < |items|
    }

    function Batched(n: nat): seq<T> { items[..Take(n)] }

    /** The item lost behind a batch: one when the batch straddles, else none. */
    function Skipped(n: nat): seq<T> {
      if Straddles(n) then [items[Take(n)]] else []
    }

    /** The ring once the batch is out. */
    function Rest(n: nat): Ring<T> {
      var gone := Take(n) + |Skipped(n)|;
      Ring(items[gone..], if size == 0 then 0 else Wrap(first + gone, size), size)
    }
  }

  function Empty<T>(size: nat): Ring<T> { Ring([], 0, size) }

  /** A slot number reduced to the circle of `m` slots. */
  function Wrap(a: nat, m: nat): (w: nat)
    requires m > 0
    ensures w < m && (a < m ==> w == a)
  {
    if a < m then a else Wrap(a - m, m)
  }

  /** One step past the end is all that the source's `%` ever reduces. */
  lemma ModIsWrap(a: nat, m: nat)
    requires 0 < m && a < 2 * m
    ensures a % m == Wrap(a, m) == Slot(a, m)
  {
    var q, r := a / m, a % m;
    assert a == q * m + r;
    QuotientIsSmall(q, m);
    assert q == 0 || q == 1;
  }

  /** The source's `x %= size`, on a slot at most one turn too far. */
  method Reduce(a: nat, m: nat) returns (w: nat)
    requires 0 < m && a < 2 * m
    ensures w == Wrap(a, m) == Slot(a, m)
  {
    ModIsWrap(a, m);
    w := a % m;
  }

  lemma QuotientIsSmall(q: int, m: int)
    requires m > 0
    ensures q >= 2 ==> q * m >= 2 * m
    ensures q <= -1 ==> q * m <= -m
    ensures 1 * m == m && 0 * m == 0
  {}

  lemma {:induction false} WrapAdd(a: nat, b: nat, m: nat)
    requires m > 0
    ensures Wrap(Wrap(a, m) + b, m) == Wrap(a + b, m)
  {
    if a >= m {
      WrapAdd(a - m, b, m);
    }
  }

  /** Appending is cumulative: adding in two calls is adding once. */
  lemma {:induction false} AddedTwice<T>(r: Ring<T>, xs: seq<T>, ys: seq<T>)
    requires r.Valid() && r.size > 0
    ensures r.Added(xs).Valid()
    ensures r.Added(xs).Added(ys) == r.Added(xs + ys)
    ensures r.Evicted(xs) + r.Added(xs).Evicted(ys) == r.Evicted(xs + ys)
  {
    var e := r.Overflow(|xs|);
    var f := r.Added(xs).Overflow(|ys|);
    assert r.items + (xs + ys) == (r.items + xs) + ys;
    assert r.Overflow(|xs + ys|) == e + f;
    DropTwice(r.items + xs, ys, e, f);
    WrapAdd(r.first + e, f, r.size);
  }

  lemma DropTwice<T>(s: seq<T>, ys: seq<T>, e: nat, f: nat)
    requires e <= |s| && e + f <= |s| + |ys|
    ensures (s[e..] + ys)[f..] == (s + ys)[e + f..]
    ensures s[..e] + (s[e..] + ys)[..f] == (s + ys)[..e + f]
  {}

  /** Nothing is created or destroyed: a batch splits the queue into batch, skipped item and rest. */
  lemma BatchPartitions<T>(r: Ring<T>, n: nat)
    requires r.Valid()
    ensures r.Rest(n).Valid() && r.Rest(n).size == r.size
    ensures r.items == r.Batched(n) + r.Skipped(n) + r.Rest(n).items
    ensures |r.Batched(n)| == Min(|r.items|, n)
    ensures r.Rest(n).items == r.items[|r.Batched(n)|..] <==> !(r.first + Min(|r.items|, n) > r.size && n < |r.items|)
  {
    assert r.items == r.items[..r.Take(n)] + r.items[r.Take(n)..];
    if r.Straddles(n) {
      assert |r.Rest(n).items| < |r.items[r.Take(n)..]|;
    }
  }

  /** A plain first-in first-out queue is what the ring is when nothing is skipped. */
  lemma AddPartitions<T>(r: Ring<T>, ms: seq<T>)
    requires r.Valid() && (ms != [] ==> r.size > 0)
    ensures r.Added(ms).Valid() && r.Added(ms).size == r.size
    ensures r.items + ms == r.Evicted(ms) + r.Added(ms).items
    ensures |r.Added(ms).items| == Min(r.size, |r.items| + |ms|)
  {
  }

  /** A slot number at most one turn past the end, brought back into the array. */
  function Slot(x: nat, size: nat): nat { if x < size then x else x - size }

  /** The `len` items from slot `first` on of an array that is read as a circle. */
  function Window<T>(a: seq<T>, first: nat, len: nat): (w: seq<T>)
    requires len <= |a| && (len > 0 ==> first < |a|)
    ensures |w| == len
  {
    seq(len, i requires 0 <= i < len => a[Slot(first + i, |a|)])
  }

  lemma WindowAt<T>(a: seq<T>, first: nat, len: nat)
    requires len <= |a| && (len > 0 ==> first < |a|)
    ensures forall i :: 0 <= i < len ==> Window(a, first, len)[i] == a[Slot(first + i, |a|)]
  {}

  /** Writing the slot after the newest item appends it. */
  lemma PushedWindow<T>(a: seq<T>, first: nat, len: nat, m: T)
    requires len < |a| && first < |a|
    ensures Window(a[Slot(first + len, |a|) := m], first, len + 1) == Window(a, first, len) + [m]
  {
    WindowAt(a, first, len);
    WindowAt(a[Slot(first + len, |a|) := m], first, len + 1);
  }

  /** When the array is full, that slot is the oldest item's. */
  lemma PushedFullWindow<T>(a: seq<T>, first: nat, m: T)
    requires first < |a|
    ensures Window(a[first := m], Slot(first + 1, |a|), |a|) == Window(a, first, |a|)[1..] + [m]
  {
    WindowAt(a, first, |a|);
    WindowAt(a[first := m], Slot(first + 1, |a|), |a|);
  }

  lemma BatchedWindow<T>(a: seq<T>, first: nat, len: nat, n: nat)
    requires first < |a| && n <= len <= |a|
    ensures Window(a, first, len)[n..] == Window(a, Slot(first + n, |a|), len - n)
    ensures first + n <= |a| ==> Window(a, first, len)[..n] == a[first..first + n]
    ensures first + n > |a| ==> Window(a, first, len)[..n] == a[first..] + a[..first + n - |a|]
  {
    WindowAt(a, first, len);
    WindowAt(a, Slot(first + n, |a|), len - n);
  }

  lemma AddedOne<T>(r: Ring<T>, m: T)
    requires r.Valid() && r.size > 0
    ensures r.Added([m]) ==
            if |r.items| == r.size then Ring(r.items[1..] + [m], Slot(r.first + 1, r.size), r.size)
            else Ring(r.items + [m], r.first, r.size)
  {
    if |r.items| == r.size {
      assert (r.items + [m])[1..] == r.items[1..] + [m];
    }
  }

  /** Buffer, with the same fields as the source; `size` never changes. */
  class Buffer<T(0)> {
    const size: nat
    const buf: array<T>
    var first: nat
    var last: nat
    var empty: bool

    ghost predicate Valid()
      reads this, buf
    {
      buf.Length == size &&
      if size == 0 then first == 0 && empty else first < size && last < size
    }

    ghost function Count(): nat
      requires Valid()
      reads this, buf
    {
      if empty then 0 else if first <= last then last - first + 1 else size - (first - last - 1)
    }

    /** The abstract value of the buffer. */
    ghost function Model(): (r: Ring<T>)
      requires Valid()
      reads this, buf
      ensures r.Valid()
    {
      Ring(Window(buf[..], first, Count()), first, size)
    }

    constructor (size: nat)
      ensures Valid() && fresh(buf) && this.size == size
      ensures Model() == Empty(size)
    {
      this.size := size;
      buf := new T[size];
      first, last, empty := 0, 0, true;
    }

    method IsEmpty() returns (e: bool)
      requires Valid()
      ensures e <==> Model().items == []
    {
      e := empty;
    }

    method Len() returns (n: nat)
      requires Valid()
      ensures n == |Model().items|
    {
      if empty {
        n := 0;
      } else if first <= last {
        n := last - first + 1;
      } else {
        n := size - (first - last - 1);
      }
    }

    method Push(m: T)
      requires Valid() && size > 0
      modifies this, buf
      ensures Valid() && Model() == old(Model().Added([m]))
    {
      hide Window, Ring.Added;
      ghost var a, n, start := buf[..], Count(), first;
      AddedOne(Model(), m);
      if empty {
        last := first;
        buf[last] := m;
        empty := false;
        PushedWindow(a, first, 0, m);
      } else {
        last := last + 1;
        last := Reduce(last, size);
        if first == last {
          first := Reduce(first + 1, size);
          PushedFullWindow(a, start, m);
        } else {
          PushedWindow(a, first, n, m);
        }
        buf[last] := m;
      }
      assert buf[..] == a[last := m];
    }

    method Add(metrics: seq<T>)
      requires Valid() && (metrics != [] ==> size > 0)
      modifies this, buf
      ensures Valid() && Model() == old(Model().Added(metrics))
    {
      ghost var r := Model();
      for i := 0 to |metrics|
        invariant Valid() && Model() == r.Added(metrics[..i])
      {
        AddedTwice(r, metrics[..i], [metrics[i]]);
        assert metrics[..i] + [metrics[i]] == metrics[..i + 1];
        Push(metrics[i]);
      }
      assert metrics[..|metrics|] == metrics;
    }

    method Batch(batchSize: nat) returns (out: seq<T>)
      requires Valid()
      modifies this
      ensures Valid()
      ensures out == old(Model().Batched(batchSize))
      ensures Model() == old(Model().Rest(batchSize))
    {
      hide Window;
      var len := Len();
      var outLen := Min(len, batchSize);
      if outLen == 0 {
        return [];
      }
      BatchedWindow(buf[..], first, len, outLen + |Model().Skipped(outLen)|);
      out := Copy(outLen);
    }

    /** Moves `n` metrics out, and one more when the copy stops short inside the wrapped part. */
    method Copy(n: nat) returns (out: seq<T>)
      requires Valid() && 0 < n <= Count()
      modifies this
      ensures Valid() && buf[..] == old(buf[..])
      ensures out == Window(buf[..], old(first), old(Count()))[..n]
      ensures var gone := if old(first) + n > size && n < old(Count()) then n + 1 else n;
              first == Slot(old(first) + gone, size) && Count() == old(Count()) - gone
    {
      hide Window;
      BatchedWindow(buf[..], first, Count(), n);
      out := CopyAhead(n);
      if |out| < n {
        var tail := CircleBack(n - |out|);
        out := out + tail;
      }
    }

    /** The run from the oldest metric up to the end of the array, as far as the batch needs it. */
    method CopyAhead(n: nat) returns (out: seq<T>)
      requires Valid() && 0 < n <= Count()
      modifies this
      ensures Valid() && buf[..] == old(buf[..])
      ensures var k := Min(size - old(first), n);
              out == buf[..][old(first)..old(first) + k] &&
              first == Slot(old(first) + k, size) && Count() == old(Count()) - k
    {
      var rightInd := Min(size, first + n) - 1;
      out := buf[first..rightInd + 1];
      // the newest metric went out with it
      if rightInd == last {
        empty := true;
      }
      first := Reduce(rightInd + 1, size);
    }

    /** The wrapped run: `n` more metrics from slot zero. */
    method CircleBack(n: nat) returns (out: seq<T>)
      requires Valid() && first == 0 && 0 < n <= Count() < size
      modifies this
      ensures Valid() && buf[..] == old(buf[..]) && out == buf[..][..n]
      ensures var k := if n == old(Count()) then n else n + 1;
              first == k && Count() == old(Count()) - k
    {
      var right := Min(last, n);
      // the slice to copy can be one longer than the room left in the batch
      out := buf[first..right + 1][..Min(n, right + 1 - first)];
      // the newest metric went out with it
      if right == last {
        empty := true;
      }
      first := Reduce(right + 1, size);
    }
  }
}
