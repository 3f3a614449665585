/** What the reader loop guarantees about a body, independently of how the buffer falls on it. */
module LineReaderLaws {
  import opened LineReader

  /** Position `a` is where a line begins. */
  predicate LineStart(body: seq<Byte>, a: nat)
    requires a <= |body|
  {
    a == 0 || body[a - 1] == NEWLINE
  }

  /** Position `b` is just behind a newline, or the end of the body. */
  predicate LineEnd(body: seq<Byte>, b: nat)
    requires b <= |body|
  {
    b == |body| || (b > 0 && body[b - 1] == NEWLINE)
  }

  /** `size` bytes in a row without a newline, from position `k` on. */
  predicate LongRun(body: seq<Byte>, size: nat, k: nat) {
    k + size <= |body| && NoNewline(body, k, k + size)
  }

  /** Some line has `size` or more bytes before its newline, or before the end of the body. */
  ghost predicate HasLongLine(body: seq<Byte>, size: nat) {
    exists k: nat :: LongRun(body, size, k)
  }

  /** Every line that has a newline has fewer than `size` bytes before it. */
  ghost predicate TerminatedLinesFit(body: seq<Byte>, size: nat) {
    forall k: nat :: LongRun(body, size, k) && k + size < |body| ==> body[k + size] != NEWLINE
  }

  /** All parsed bytes, in order. */
  function Parsed(body: seq<Byte>, chunks: seq<(nat, nat)>): seq<Byte>
    requires InBody(body, chunks)
  {
    if chunks == [] then [] else body[chunks[0].0..chunks[0].1] + Parsed(body, chunks[1..])
  }

  /** The lines of body[a..b] that fit in the buffer: fewer than `size` bytes before the newline. */
  function Fitting(body: seq<Byte>, a: nat, b: nat, size: nat): seq<Byte>
    requires a <= b <= |body|
    decreases b - a
  {
    var i := FirstNewline(body, a, b);
    if i == b then (if b - a < size then body[a..b] else [])
    else (if i - a < size then body[a..i + 1] else []) + Fitting(body, i + 1, b, size)
  }

  lemma FirstNewlineIs(body: seq<Byte>, a: nat, b: nat, i: nat)
    requires a <= i <= b <= |body| && NoNewline(body, a, i) && (i < b ==> body[i] == NEWLINE)
    ensures FirstNewline(body, a, b) == i
  {
    var j := FirstNewline(body, a, b);
    assert j >= i;
    assert i < b ==> j <= i;
  }

  lemma UnfoldFitting(body: seq<Byte>, a: nat, b: nat, size: nat)
    requires a <= b <= |body|
    ensures var i := FirstNewline(body, a, b);
            Fitting(body, a, b, size) ==
            if i == b then (if b - a < size then body[a..b] else [])
            else (if i - a < size then body[a..i + 1] else []) + Fitting(body, i + 1, b, size)
  {}

  /** A line boundary splits the fitting lines. */
  lemma {:induction false} FittingSplits(body: seq<Byte>, a: nat, m: nat, b: nat, size: nat)
    requires a <= m <= b <= |body| && (m == a || body[m - 1] == NEWLINE)
    ensures Fitting(body, a, b, size) == Fitting(body, a, m, size) + Fitting(body, m, b, size)
    decreases b - a
  {
    hide FirstNewline, Fitting;
    UnfoldFitting(body, a, m, size);
    if m == a {
      assert Fitting(body, a, a, size) == [];
    } else {
      UnfoldFitting(body, a, b, size);
      var i := FirstNewline(body, a, m);
      FirstNewlineIs(body, a, b, i);
      FittingSplits(body, i + 1, m, b, size);
    }
  }

  /** Text no longer than the buffer that ends in a newline, or shorter text, fits as it is. */
  lemma {:induction false} ShortTextFits(body: seq<Byte>, a: nat, b: nat, size: nat)
    requires a <= b <= |body| && (b - a < size || (b - a == size > 0 && body[b - 1] == NEWLINE))
    ensures Fitting(body, a, b, size) == body[a..b]
    decreases b - a
  {
    var i := FirstNewline(body, a, b);
    if i < b {
      ShortTextFits(body, i + 1, b, size);
      assert body[a..b] == body[a..i + 1] + body[i + 1..b];
    }
  }

  /** An overlong line contributes nothing, read to its newline or not. */
  lemma LongLineDropped(body: seq<Byte>, a: nat, i: nat, size: nat)
    requires a <= i <= |body| && NoNewline(body, a, i) && i - a >= size
    ensures Fitting(body, a, i, size) == []
    ensures i < |body| && body[i] == NEWLINE ==> Fitting(body, a, i + 1, size) == []
  {
    FirstNewlineIs(body, a, i, i);
    if i < |body| && body[i] == NEWLINE {
      FirstNewlineIs(body, a, i + 1, i);
      FirstNewlineIs(body, i + 1, i + 1, i + 1);
    }
  }

  /** The line before position `a` was overlong. */
  predicate AfterLongLine(body: seq<Byte>, size: nat, a: nat) {
    size < a <= |body| && body[a - 1] == NEWLINE && LongRun(body, size, a - 1 - size)
  }

  /**
   What is known when the loop stands at `start` and `read`. `line` is where the current line
   began: `start` itself, or the start of the overlong line being skipped.
   */
  ghost predicate At(body: seq<Byte>, size: nat, start: nat, read: nat, hanging: bool, line: nat) {
    && line <= start <= read <= |body| && read - start < size && LineStart(body, line)
    && (if hanging then start == read && read - line >= size && NoNewline(body, line, read)
        else line == start && (NoNewline(body, start, read) || AfterLongLine(body, size, start)))
  }

  /** The parsed stretches start and end on line boundaries, fit the buffer, and follow each other. */
  ghost predicate OnLines(body: seq<Byte>, size: nat, from: nat, t: Trace) {
    && InBody(body, t.chunks) && from <= t.rest <= |body|
    && (forall i :: 0 <= i < |t.chunks| ==>
          var c := t.chunks[i];
          from <= c.0 < c.1 <= t.rest && LineStart(body, c.0) && LineEnd(body, c.1) && c.1 - c.0 <= size)
    && (forall i, j :: 0 <= i < j < |t.chunks| ==> t.chunks[i].1 <= t.chunks[j].0)
  }

  /**
   What the end of the body leaves unparsed: nothing, an unterminated last line, or less than a
   buffer of text right behind an overlong line.
   */
  ghost predicate LeftOver(body: seq<Byte>, size: nat, rest: nat)
    requires rest <= |body|
  {
    || rest == |body|
    || (LineStart(body, rest) && NoNewline(body, rest, |body|))
    || (AfterLongLine(body, size, rest) && |body| - rest < size)
  }

  /** What the trace `t` of the remaining loop amounts to. */
  ghost predicate Good(body: seq<Byte>, end: BodyEnd, size: nat, start: nat, hanging: bool, line: nat, t: Trace) {
    && line <= start && OnLines(body, size, start, t)
    && Parsed(body, t.chunks) == Fitting(body, line, t.rest, size)
    && (end.Eof? ==> LeftOver(body, size, t.rest))
    && (t.overlong ==> HasLongLine(body, size))
    && (end.Eof? && !hanging && !t.overlong ==> forall k: nat :: k >= start ==> !LongRun(body, size, k))
  }

  lemma GoodEnd(body: seq<Byte>, end: BodyEnd, size: nat, start: nat, read: nat, hanging: bool, line: nat)
    requires At(body, size, start, read, hanging, line) && (read == |body| || end.Broken?)
    ensures Good(body, end, size, start, hanging, line, Trace([], false, start))
  {
    if hanging {
      LongLineDropped(body, line, start, size);
    } else {
      FirstNewlineIs(body, start, start, start);
    }
  }

  lemma GoodSkipOn(body: seq<Byte>, end: BodyEnd, size: nat, read: nat, next: nat, line: nat, t: Trace)
    requires At(body, size, read, read, true, line) && read <= next <= |body|
    requires Good(body, end, size, next, true, line, t)
    ensures Good(body, end, size, read, true, line, t)
  {}

  lemma AtSkipOn(body: seq<Byte>, size: nat, read: nat, next: nat, line: nat)
    requires At(body, size, read, read, true, line) && read <= next <= |body| && NoNewline(body, read, next)
    ensures At(body, size, next, next, true, line)
  {
    assert forall k :: line <= k < next ==> k < read || body[k] != NEWLINE;
  }

  lemma AtSkipDone(body: seq<Byte>, size: nat, read: nat, i: nat, next: nat, line: nat)
    requires At(body, size, read, read, true, line) && read <= i < next <= |body| && next - read <= size
    requires NoNewline(body, read, i) && body[i] == NEWLINE
    ensures At(body, size, i + 1, next, false, i + 1)
  {
    assert forall k :: line <= k < i ==> k < read || body[k] != NEWLINE;
    assert LongRun(body, size, i - size);
  }

  lemma GoodSkipDone(body: seq<Byte>, end: BodyEnd, size: nat, read: nat, i: nat, line: nat, t: Trace)
    requires At(body, size, read, read, true, line) && read <= i < |body|
    requires NoNewline(body, read, i) && body[i] == NEWLINE
    requires Good(body, end, size, i + 1, false, i + 1, t)
    ensures Good(body, end, size, read, true, line, t)
  {
    hide FirstNewline, Fitting;
    assert NoNewline(body, line, i) by {
      assert forall k :: line <= k < i ==> k < read || body[k] != NEWLINE;
    }
    LongLineDropped(body, line, i, size);
    FittingSplits(body, line, i + 1, t.rest, size);
  }

  lemma GoodLast(body: seq<Byte>, end: BodyEnd, size: nat, start: nat)
    requires start < |body| && |body| - start < size && LineStart(body, start)
    ensures Good(body, end, size, start, false, start, Trace([(start, |body|)] + [], false, |body|))
  {
    ShortTextFits(body, start, |body|, size);
    var c := [(start, |body|)] + [];
    assert c[1..] == [] && Parsed(body, c[1..]) == [];
  }

  lemma AtOverlong(body: seq<Byte>, size: nat, start: nat)
    requires size > 0 && start + size <= |body| && LineStart(body, start) && NoNewline(body, start, start + size)
    ensures At(body, size, start + size, start + size, true, start) && LongRun(body, size, start)
  {}

  lemma GoodOverlong(body: seq<Byte>, end: BodyEnd, size: nat, start: nat, t: Trace)
    requires LongRun(body, size, start) && Good(body, end, size, start + size, true, start, t)
    ensures Good(body, end, size, start, false, start, t.(overlong := true))
  {}

  lemma AtChunk(body: seq<Byte>, size: nat, i: nat, next: nat)
    requires 0 < i <= next <= |body| && body[i - 1] == NEWLINE && next - i < size && NoNewline(body, i, next)
    ensures At(body, size, i, next, false, i)
  {}

  lemma GoodChunk(body: seq<Byte>, end: BodyEnd, size: nat, a: nat, b: nat, t: Trace)
    requires a < b <= |body| && b - a <= size && body[b - 1] == NEWLINE && LineStart(body, a)
    requires Good(body, end, size, b, false, b, t)
    ensures Good(body, end, size, a, false, a, t.(chunks := [(a, b)] + t.chunks))
  {
    hide Fitting, FirstNewline;
    ChunkInFront(body, size, a, b, t);
    ShortTextFits(body, a, b, size);
    FittingSplits(body, a, b, t.rest, size);
    assert forall k: nat :: k >= a && LongRun(body, size, k) ==> k >= b;
  }

  lemma ChunkInFront(body: seq<Byte>, size: nat, a: nat, b: nat, t: Trace)
    requires a < b <= t.rest && OnLines(body, size, b, t) && b - a <= size
    requires LineStart(body, a) && LineEnd(body, b)
    ensures OnLines(body, size, a, t.(chunks := [(a, b)] + t.chunks))
    ensures Parsed(body, [(a, b)] + t.chunks) == body[a..b] + Parsed(body, t.chunks)
  {
    var all := [(a, b)] + t.chunks;
    assert all[1..] == t.chunks;
    assert forall i :: 0 < i < |all| ==> all[i] == t.chunks[i - 1];
  }

  lemma {:induction false} ServeIsGood(body: seq<Byte>, end: BodyEnd, size: nat,
                                       start: nat, read: nat, hanging: bool, line: nat)
    requires At(body, size, start, read, hanging, line)
    ensures Good(body, end, size, start, hanging, line, Serve(body, end, size, start, read, hanging))
    decreases |body| - read
  {
    hide FirstNewline, AfterLastNewline, Good, LineStart, AfterLongLine, Serve;
    UnfoldServe(body, end, size, start, read, hanging);
    var got := Min(size - (read - start), |body| - read);
    var next := read + got;
    if got == 0 || (end.Broken? && got < size - (read - start)) {
      GoodEnd(body, end, size, start, read, hanging, line);
    } else if hanging {
      var i := FirstNewline(body, read, next);
      if i == next {
        AtSkipOn(body, size, read, next, line);
        ServeIsGood(body, end, size, next, next, true, line);
        GoodSkipOn(body, end, size, read, next, line, Serve(body, end, size, next, next, true));
      } else {
        AtSkipDone(body, size, read, i, next, line);
        ServeIsGood(body, end, size, i + 1, next, false, i + 1);
        GoodSkipDone(body, end, size, read, i, line, Serve(body, end, size, i + 1, next, false));
      }
    } else if got < size - (read - start) {
      GoodLast(body, end, size, start);
    } else {
      var i := AfterLastNewline(body, start, next);
      if i == start {
        AtOverlong(body, size, start);
        ServeIsGood(body, end, size, next, next, true, start);
        GoodOverlong(body, end, size, start, Serve(body, end, size, next, next, true));
      } else {
        AtChunk(body, size, i, next);
        ServeIsGood(body, end, size, i, next, false, i);
        GoodChunk(body, end, size, start, i, Serve(body, end, size, i, next, false));
      }
    }
  }

  // ---------- The guarantees ----------

  /**
   For every body and buffer: what is parsed is exactly the lines that fit, in order, up to `rest`;
   each parsed stretch begins and ends on a line boundary and is no longer than the buffer.
   */
  lemma ParsesTheFittingLines(body: seq<Byte>, end: BodyEnd, size: nat)
    requires size > 0
    ensures var t := Whole(body, end, size);
            OnLines(body, size, 0, t) &&
            Parsed(body, t.chunks) == Fitting(body, 0, t.rest, size) &&
            (end.Eof? ==> LeftOver(body, size, t.rest))
  {
    ServeIsGood(body, end, size, 0, 0, false, 0);
  }

  /** A full buffer without a newline is met exactly when some line does not fit. */
  lemma OverlongIffLongLine(body: seq<Byte>, size: nat)
    requires size > 0
    ensures Whole(body, Eof, size).overlong <==> HasLongLine(body, size)
  {
    ServeIsGood(body, Eof, size, 0, 0, false, 0);
  }

  /** When all terminated lines fit, at most an unterminated last line is dropped. */
  lemma {:induction false} FittingIsAllButFragment(body: seq<Byte>, a: nat, b: nat, size: nat)
    requires size > 0 && a <= b <= |body| && TerminatedLinesFit(body, size) && LineStart(body, a)
    ensures var l := AfterLastNewline(body, a, b);
            Fitting(body, a, b, size) == body[a..b] || Fitting(body, a, b, size) == body[a..l]
    decreases b - a
  {
    hide AfterLastNewline, FirstNewline, Fitting;
    UnfoldFitting(body, a, b, size);
    var i := FirstNewline(body, a, b);
    if i < b {
      ShortLine(body, a, i, size);
      FittingIsAllButFragment(body, i + 1, b, size);
      LastNewlineFrom(body, a, i + 1, b);
      assert body[a..b] == body[a..i + 1] + body[i + 1..b];
      var l := AfterLastNewline(body, a, b);
      assert body[a..l] == body[a..i + 1] + body[i + 1..l];
    } else {
      LastNewlineIs(body, a, b, a);
    }
  }

  lemma ShortLine(body: seq<Byte>, a: nat, i: nat, size: nat)
    requires size > 0 && a <= i < |body| && TerminatedLinesFit(body, size)
    requires NoNewline(body, a, i) && body[i] == NEWLINE
    ensures i - a < size
  {
    if i - a >= size {
      assert LongRun(body, size, i - size);
    }
  }

  lemma LastNewlineIs(body: seq<Byte>, a: nat, b: nat, i: nat)
    requires a <= i <= b <= |body| && NoNewline(body, i, b) && (i > a ==> body[i - 1] == NEWLINE)
    ensures AfterLastNewline(body, a, b) == i
  {
    var j := AfterLastNewline(body, a, b);
    assert !(i < j) && !(j < i);
  }

  lemma LastNewlineFrom(body: seq<Byte>, a: nat, m: nat, b: nat)
    requires a < m <= b <= |body| && body[m - 1] == NEWLINE
    ensures AfterLastNewline(body, m, b) == AfterLastNewline(body, a, b)
  {
    var j := AfterLastNewline(body, m, b);
    LastNewlineIs(body, a, b, j);
  }

  /**
   For a body whose terminated lines each fit the buffer, the parsed text is the whole body or the
   body without its unterminated last line; a body that ends in a newline is parsed completely.
   */
  lemma ShortLinesAreAllParsed(body: seq<Byte>, size: nat)
    requires size > 0 && TerminatedLinesFit(body, size)
    ensures var text := Parsed(body, Whole(body, Eof, size).chunks);
            var l := AfterLastNewline(body, 0, |body|);
            (text == body || text == body[..l]) && (LineEnd(body, |body|) && l == |body| ==> text == body)
  {
    ParsesTheFittingLines(body, Eof, size);
    var rest := Whole(body, Eof, size).rest;
    FittingIsAllButFragment(body, 0, rest, size);
    assert !AfterLongLine(body, size, rest) || rest == |body|;
    assert body[0..rest] == body[..rest];
    if rest < |body| {
      LastNewlineIs(body, 0, |body|, rest);
      LastNewlineIs(body, 0, rest, rest);
    }
  }

  // ---------- Where the text is cut ----------

  /** A chunk reaches to the last newline in the buffer that starts with it, or is less than a buffer at the end. */
  ghost predicate FillsBuffer(body: seq<Byte>, size: nat, c: (nat, nat)) {
    (c.0 + size <= |body| && c.1 == AfterLastNewline(body, c.0, c.0 + size)) || (c.1 == |body| < c.0 + size)
  }

  lemma {:induction false} ChunksFillBuffers(body: seq<Byte>, end: BodyEnd, size: nat, start: nat, read: nat, hanging: bool)
    requires start <= read <= |body| && read - start < size && (hanging ==> start == read)
    ensures forall c :: c in Serve(body, end, size, start, read, hanging).chunks ==> FillsBuffer(body, size, c)
    decreases |body| - read
  {
    hide Serve, FirstNewline, AfterLastNewline, InBody;
    UnfoldServe(body, end, size, start, read, hanging);
    var got := Min(size - (read - start), |body| - read);
    var next := read + got;
    if got == 0 || (end.Broken? && got < size - (read - start)) {
    } else if hanging {
      var i := FirstNewline(body, read, next);
      if i == next {
        ChunksFillBuffers(body, end, size, next, next, true);
      } else {
        ChunksFillBuffers(body, end, size, i + 1, next, false);
      }
    } else if got == size - (read - start) {
      var i := AfterLastNewline(body, start, next);
      if i == start {
        ChunksFillBuffers(body, end, size, next, next, true);
      } else {
        ChunksFillBuffers(body, end, size, i, next, false);
      }
    }
  }

  /** Each call of parse gets as many whole lines as fit in the buffer from where it starts. */
  lemma EachChunkFillsBuffer(body: seq<Byte>, end: BodyEnd, size: nat, i: nat)
    requires size > 0 && i < |Whole(body, end, size).chunks|
    ensures FillsBuffer(body, size, Whole(body, end, size).chunks[i])
  {
    hide FillsBuffer;
    ChunksFillBuffers(body, end, size, 0, 0, false);
  }

  // ---------- When reading breaks ----------

  /** The chunks without one that is less than a buffer at the end of the body. */
  function FullBuffersOnly(body: seq<Byte>, size: nat, chunks: seq<(nat, nat)>): seq<(nat, nat)> {
    if chunks != [] && chunks[|chunks| - 1].1 == |body| < chunks[|chunks| - 1].0 + size
    then chunks[..|chunks| - 1] else chunks
  }

  lemma FullBufferInFront(body: seq<Byte>, size: nat, c: (nat, nat), chunks: seq<(nat, nat)>)
    requires c.0 + size <= |body|
    ensures FullBuffersOnly(body, size, [c] + chunks) == [c] + FullBuffersOnly(body, size, chunks)
  {
    var all := [c] + chunks;
    if chunks != [] {
      assert all[|all| - 1] == chunks[|chunks| - 1];
      assert all[..|all| - 1] == [c] + chunks[..|chunks| - 1];
    }
  }

  lemma {:induction false} BrokenParses(body: seq<Byte>, size: nat, start: nat, read: nat, hanging: bool)
    requires start <= read <= |body| && read - start < size && (hanging ==> start == read)
    ensures var e, b := Serve(body, Eof, size, start, read, hanging), Serve(body, Broken, size, start, read, hanging);
            b.overlong == e.overlong && b.chunks == FullBuffersOnly(body, size, e.chunks)
    decreases |body| - read
  {
    hide Serve, FirstNewline, AfterLastNewline, InBody;
    UnfoldServe(body, Eof, size, start, read, hanging);
    UnfoldServe(body, Broken, size, start, read, hanging);
    var got := Min(size - (read - start), |body| - read);
    var next := read + got;
    if got == 0 {
    } else if hanging {
      var i := FirstNewline(body, read, next);
      if got < size {
        UnfoldServe(body, Eof, size, if i == next then next else i + 1, next, i == next);
      } else if i == next {
        BrokenParses(body, size, next, next, true);
      } else {
        BrokenParses(body, size, i + 1, next, false);
      }
    } else if got == size - (read - start) {
      var i := AfterLastNewline(body, start, next);
      if i == start {
        BrokenParses(body, size, next, next, true);
      } else {
        BrokenParses(body, size, i, next, false);
        FullBufferInFront(body, size, (start, i), Serve(body, Eof, size, i, next, false).chunks);
      }
    }
  }

  /** A body that breaks off is parsed like one that ends there, but for what is left in a buffer not full. */
  lemma BrokenParsesFullBuffers(body: seq<Byte>, size: nat)
    requires size > 0
    ensures Whole(body, Broken, size).chunks == FullBuffersOnly(body, size, Whole(body, Eof, size).chunks)
  {
    BrokenParses(body, size, 0, 0, false);
  }

  // ---------- When the end of the body is lost ----------

  /** The end of the block of `size` bytes, counted from `a`, that holds position `n`. */
  function BlockEnd(a: nat, n: nat, size: nat): (e: nat)
    requires size > 0
    ensures n < e && a < e
    decreases n - a
  {
    if n < a + size then a + size else BlockEnd(a + size, n, size)
  }

  /**
   The end of the body is lost, seen from a line start `p` where a buffer begins. Lines are packed into
   buffers from there; an overlong line is skipped in whole buffers up to its newline. The end is lost
   when some buffer ends exactly with the body, and has a newline but not as the last byte.
   */
  predicate Loses(body: seq<Byte>, size: nat, p: nat)
    requires size > 0 && p <= |body|
    decreases |body| - p, 1
  {
    |body| - p >= size &&
    var i := AfterLastNewline(body, p, p + size);
    if i == p then LosesSkipping(body, size, p + size)
    else if p + size == |body| then i < |body|
    else Loses(body, size, i)
  }

  /** The same from position `r` inside an overlong line. */
  predicate LosesSkipping(body: seq<Byte>, size: nat, r: nat)
    requires size > 0 && r <= |body|
    decreases |body| - r, 0
  {
    var n := FirstNewline(body, r, |body|);
    n < |body| &&
    if BlockEnd(r, n, size) >= |body| then n + 1 < |body| else Loses(body, size, n + 1)
  }

  lemma SkipOneBuffer(body: seq<Byte>, size: nat, r: nat)
    requires size > 0 && r + size <= |body| && NoNewline(body, r, r + size)
    ensures LosesSkipping(body, size, r) <==> LosesSkipping(body, size, r + size)
  {
    hide Loses;
    var n := FirstNewline(body, r + size, |body|);
    FirstNewlineIs(body, r, |body|, n) by {
      assert forall k :: r <= k < n ==> k < r + size || body[k] != NEWLINE;
    }
  }

  lemma SkipInBuffer(body: seq<Byte>, size: nat, r: nat, i: nat)
    requires size > 0 && r <= i < |body| && i < r + size && NoNewline(body, r, i) && body[i] == NEWLINE
    ensures LosesSkipping(body, size, r) <==>
            if r + size >= |body| then i + 1 < |body| else Loses(body, size, i + 1)
  {
    hide Loses;
    FirstNewlineIs(body, r, |body|, i);
  }

  /** The loop stops before the end of the body exactly where `Loses` says so, and by less than a buffer. */
  lemma {:induction false} StopsShortIff(body: seq<Byte>, size: nat, start: nat, read: nat, hanging: bool)
    requires start <= read <= |body| && read - start < size && (hanging ==> start == read)
    ensures var rest := Serve(body, Eof, size, start, read, hanging).rest;
            rest <= |body| && |body| - rest < size &&
            (rest < |body| <==>
               if hanging then LosesSkipping(body, size, read)
               else if read == |body| then start < |body|
               else Loses(body, size, start))
    decreases |body| - read
  {
    hide Serve, FirstNewline, AfterLastNewline, LosesSkipping, Loses;
    UnfoldServe(body, Eof, size, start, read, hanging);
    var got := Min(size - (read - start), |body| - read);
    var next := read + got;
    if got == 0 {
      NothingToSkip(body, size);
    } else if hanging {
      var i := FirstNewline(body, read, next);
      if i < next {
        StopsShortIff(body, size, i + 1, next, false);
        SkipInBuffer(body, size, read, i);
      } else {
        StopsShortIff(body, size, next, next, true);
        if got == size {
          SkipOneBuffer(body, size, read);
        } else {
          FirstNewlineIs(body, read, |body|, |body|);
          NothingToSkip(body, size);
          NoNewlineToSkip(body, size, read);
        }
      }
    } else {
      UnfoldLoses(body, size, start);
      if got == size - (read - start) {
        var i := AfterLastNewline(body, start, next);
        if i == start {
          StopsShortIff(body, size, next, next, true);
        } else {
          StopsShortIff(body, size, i, next, false);
        }
      }
    }
  }

  lemma NothingToSkip(body: seq<Byte>, size: nat)
    requires size > 0
    ensures !LosesSkipping(body, size, |body|)
  {}

  lemma NoNewlineToSkip(body: seq<Byte>, size: nat, r: nat)
    requires size > 0 && r <= |body| && NoNewline(body, r, |body|)
    ensures !LosesSkipping(body, size, r)
  {
    FirstNewlineIs(body, r, |body|, |body|);
  }

  lemma UnfoldLoses(body: seq<Byte>, size: nat, p: nat)
    requires size > 0 && p <= |body|
    ensures Loses(body, size, p) <==>
            |body| - p >= size &&
            var i := AfterLastNewline(body, p, p + size);
            if i == p then LosesSkipping(body, size, p + size)
            else if p + size == |body| then i < |body|
            else Loses(body, size, i)
  {
    hide AfterLastNewline, LosesSkipping;
  }

  /** Every line that fits is parsed, wherever in the body it is, if and only if the end is not lost. */
  lemma AllFittingParsedIff(body: seq<Byte>, size: nat)
    requires size > 0
    ensures Parsed(body, Whole(body, Eof, size).chunks) == Fitting(body, 0, |body|, size) <==> !Loses(body, size, 0)
  {
    hide Serve, Loses, Fitting, Parsed;
    var rest := Whole(body, Eof, size).rest;
    ParsesTheFittingLines(body, Eof, size);
    StopsShortIff(body, size, 0, 0, false);
    if rest < |body| {
      FittingSplits(body, 0, rest, |body|, size);
      ShortTextFits(body, rest, |body|, size);
      assert |Fitting(body, 0, |body|, size)| > |Fitting(body, 0, rest, size)|;
    } else if |body| == 0 {
      EmptyLosesNothing(body, size);
    }
  }

  lemma EmptyLosesNothing(body: seq<Byte>, size: nat)
    requires size > 0 && body == []
    ensures !Loses(body, size, 0)
  {}

  /** Packing whole lines into buffers from `p` on comes to a buffer that ends exactly with the body. */
  predicate EndsFull(body: seq<Byte>, size: nat, p: nat)
    requires size > 0 && p <= |body|
    decreases |body| - p
  {
    |body| - p >= size &&
    (|body| - p == size || (var i := AfterLastNewline(body, p, p + size); i > p && EndsFull(body, size, i)))
  }

  lemma RunIsLongLine(body: seq<Byte>, size: nat, k: nat)
    requires LongRun(body, size, k)
    ensures HasLongLine(body, size)
  {}

  lemma {:induction false} LosesWithoutLongLines(body: seq<Byte>, size: nat, p: nat)
    requires size > 0 && p <= |body| && !HasLongLine(body, size)
    ensures Loses(body, size, p) <==> EndsFull(body, size, p) && AfterLastNewline(body, 0, |body|) < |body|
    decreases |body| - p
  {
    hide AfterLastNewline, LosesSkipping, HasLongLine;
    UnfoldLoses(body, size, p);
    if |body| - p >= size {
      var i := AfterLastNewline(body, p, p + size);
      if i == p {
        RunIsLongLine(body, size, p);
      }
      if p + size == |body| {
        LastNewlineIs(body, 0, |body|, i);
      } else {
        LosesWithoutLongLines(body, size, i);
      }
    }
  }

  /** A body of lines that fit is parsed whole exactly when it ends in a newline or no buffer ends with it. */
  lemma WholeBodyParsedIff(body: seq<Byte>, size: nat)
    requires size > 0 && !HasLongLine(body, size)
    ensures Parsed(body, Whole(body, Eof, size).chunks) == body <==>
            AfterLastNewline(body, 0, |body|) == |body| || !EndsFull(body, size, 0)
  {
    hide AfterLastNewline, Serve, Loses, Fitting, Parsed, EndsFull;
    AllFittingParsedIff(body, size);
    LosesWithoutLongLines(body, size, 0);
    EverythingFits(body, 0, size);
    assert body[0..] == body;
  }

  lemma {:induction false} EverythingFits(body: seq<Byte>, a: nat, size: nat)
    requires size > 0 && a <= |body| && !HasLongLine(body, size)
    ensures Fitting(body, a, |body|, size) == body[a..]
    decreases |body| - a
  {
    hide FirstNewline, Fitting, HasLongLine;
    UnfoldFitting(body, a, |body|, size);
    var i := FirstNewline(body, a, |body|);
    if i - a >= size {
      RunIsLongLine(body, size, a);
    }
    if i < |body| {
      EverythingFits(body, i + 1, size);
      assert body[a..] == body[a..i + 1] + body[i + 1..];
    }
  }

  /** A body that fits with room to spare is parsed whole, terminated or not. */
  lemma RoomToSpare(body: seq<Byte>, size: nat)
    requires 0 < |body| < size
    ensures Whole(body, Eof, size) == Trace([(0, |body|)], false, |body|)
  {
    hide Serve;
    UnfoldServe(body, Eof, size, 0, 0, false);
    assert [(0, |body|)] + [] == [(0 as nat, |body|)];
  }

  /**
   A body exactly as long as the buffer whose last line is unterminated loses that line, and still
   gets a good reply: the line is rotated to the front, and the next read ends the loop.
   */
  lemma FragmentLost(body: seq<Byte>)
    requires var l := AfterLastNewline(body, 0, |body|); 0 < l < |body|
    ensures var l := AfterLastNewline(body, 0, |body|);
            Whole(body, Eof, |body|) == Trace([(0, l)], false, l)
  {
    hide Serve, AfterLastNewline;
    var l := AfterLastNewline(body, 0, |body|);
    UnfoldServe(body, Eof, |body|, 0, 0, false);
    UnfoldServe(body, Eof, |body|, l, |body|, false);
    assert [(0, l)] + [] == [(0 as nat, l)];
  }

  /** Skipping to a newline in the buffer that ends with the body leaves what is behind it unparsed. */
  lemma {:induction false} SkipsToTheEnd(body: seq<Byte>, size: nat, r: nat, n: nat)
    requires size > 0 && r <= n < |body| && NoNewline(body, r, n) && body[n] == NEWLINE
    requires BlockEnd(r, n, size) >= |body|
    ensures Serve(body, Eof, size, r, r, true) == Trace([], false, n + 1)
    decreases n - r
  {
    hide Serve, FirstNewline;
    UnfoldServe(body, Eof, size, r, r, true);
    var next := r + Min(size, |body| - r);
    if n < next {
      FirstNewlineIs(body, r, next, n);
      UnfoldServe(body, Eof, size, n + 1, next, false);
    } else {
      FirstNewlineIs(body, r, next, next);
      SkipsToTheEnd(body, size, next, n);
    }
  }

  /** Behind an overlong first line all lines go unparsed, fit they or not, when one buffer holds them and its newline. */
  lemma LinesBehindLost(body: seq<Byte>, size: nat, n: nat)
    requires 0 < size <= n < |body| && NoNewline(body, 0, n) && body[n] == NEWLINE
    requires BlockEnd(size, n, size) >= |body|
    ensures Whole(body, Eof, size) == Trace([], true, n + 1)
  {
    hide Serve, FirstNewline, AfterLastNewline;
    UnfoldServe(body, Eof, size, 0, 0, false);
    LastNewlineIs(body, 0, size, 0);
    SkipsToTheEnd(body, size, size, n);
  }

  /** The reply is 204 exactly when the body was read to its end, every line fits, and every parse succeeds. */
  method Handle(body: seq<Byte>, end: BodyEnd, size: nat, parse: Parser)
    returns (reply: Reply, parsed: seq<seq<Byte>>)
    requires size > 0
    ensures AreSlices(parsed, body, Whole(body, end, size).chunks)
    ensures reply.NoContent? <==> end.Eof? && !HasLongLine(body, size) && !Rejects(parse, parsed)
  {
    var buf := new Byte[size];
    var session := new Session(body, end, parse, buf);
    reply := session.ServeWrite();
    parsed := session.parsed;
    OverlongIffLongLine(body, size);
  }
}
