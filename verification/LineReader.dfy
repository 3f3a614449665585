/**
 The request-body loop of plugins/inputs/http_listener/http_listener.go (serveWrite): a fixed
 buffer is filled from the body, parsed up to its last newline, and the rest is rotated to the
 front; a line that does not fit is skipped up to its newline.

 `Serve` says in terms of body positions what the loop does; `ServeWrite` is the loop itself,
 over the byte buffer with whatever an earlier request left in it.
 */
module LineReader {

  newtype Byte = x: int | 0 <= x < 256

  const NEWLINE: Byte := 10

  function Min(a: int, b: int): int { if b < a then b else a }

  /** How reading past the last byte of the body ends. */
  datatype BodyEnd = Eof | Broken

  datatype Reply = NoContent | BadRequest

  predicate NoNewline(s: seq<Byte>, a: nat, b: nat)
    requires a <= b <= |s|
  {
    forall k :: a <= k < b ==> s[k] != NEWLINE
  }

  /** bytes.IndexByte: the first newline in s[a..b], or b. */
  function FirstNewline(s: seq<Byte>, a: nat, b: nat): (i: nat)
    requires a <= b <= |s|
    ensures a <= i <= b && NoNewline(s, a, i)
    ensures i < b ==> s[i] == NEWLINE
    decreases b - a
  {
    if a == b || s[a] == NEWLINE then a else FirstNewline(s, a + 1, b)
  }

  /** bytes.LastIndexByte: just behind the last newline in s[a..b], or a. */
  function AfterLastNewline(s: seq<Byte>, a: nat, b: nat): (i: nat)
    requires a <= b <= |s|
    ensures a <= i <= b && NoNewline(s, i, b)
    ensures i > a ==> s[i - 1] == NEWLINE
    decreases b - a
  {
    if a == b || s[b - 1] == NEWLINE then b else AfterLastNewline(s, a, b - 1)
  }

  // ---------- What the loop does, by body position ----------

  /** The parsed stretches of the body, whether a full buffer held no newline, and where parsing stopped. */
  datatype Trace = Trace(chunks: seq<(nat, nat)>, overlong: bool, rest: nat)

  /**
   `start` is the body position of the first byte still in the buffer, `read` the number of bytes
   taken from the body; while an overlong line is being skipped the buffer holds nothing of use.
   */
  function Serve(body: seq<Byte>, end: BodyEnd, size: nat, start: nat, read: nat, hanging: bool): (t: Trace)
    requires start <= read <= |body| && read - start < size && (hanging ==> start == read)
    ensures InBody(body, t.chunks)
    decreases |body| - read
  {
    var want := size - (read - start);
    if read == |body| || (|body| - read < want && end.Broken?) then
      Trace([], false, start)
    else if hanging then
      var next := read + Min(size, |body| - read);
      var i := FirstNewline(body, read, next);
      if i == next then Serve(body, end, size, next, next, true)
      else Serve(body, end, size, i + 1, next, false)
    else if |body| - read < want then
      Trace([(start, |body|)], false, |body|)
    else
      var next := start + size;
      var i := AfterLastNewline(body, start, next);
      if i == start then Serve(body, end, size, next, next, true).(overlong := true)
      else
        var t := Serve(body, end, size, i, next, false);
        t.(chunks := [(start, i)] + t.chunks)
  }

  function Whole(body: seq<Byte>, end: BodyEnd, size: nat): Trace
    requires size > 0
  {
    Serve(body, end, size, 0, 0, false)
  }

  ghost predicate InBody(body: seq<Byte>, chunks: seq<(nat, nat)>) {
    forall i :: 0 <= i < |chunks| ==> chunks[i].0 <= chunks[i].1 <= |body|
  }

  // ---------- The loop ----------

  /** The results of h.parse, by call. */
  type Parser = (nat, seq<Byte>) -> bool

  /** h.parse rejects one of the texts it is given. */
  ghost predicate Rejects(parse: Parser, parsed: seq<seq<Byte>>) {
    exists i :: 0 <= i < |parsed| && !parse(i, parsed[i])
  }

  ghost predicate AreSlices(parsed: seq<seq<Byte>>, body: seq<Byte>, chunks: seq<(nat, nat)>) {
    InBody(body, chunks) && |parsed| == |chunks| &&
    forall i :: 0 <= i < |chunks| ==> parsed[i] == body[chunks[i].0..chunks[i].1]
  }

  datatype ReadResult = Full | UnexpectedEof | AtEof | Failed

  /** io.ReadFull into buf[at..]. */
  method ReadFull(body: seq<Byte>, read: nat, end: BodyEnd, buf: array<Byte>, at: nat)
    returns (n: nat, err: ReadResult)
    requires read <= |body| && at < buf.Length
    modifies buf
    ensures n == Min(buf.Length - at, |body| - read)
    ensures forall k :: 0 <= k < buf.Length ==>
              buf[k] == if at <= k < at + n then body[read + k - at] else old(buf[k])
    ensures err == if n == buf.Length - at then Full
                   else if end.Broken? then Failed
                   else if n == 0 then AtEof else UnexpectedEof
  {
    n := 0;
    while n < buf.Length - at && read + n < |body|
      invariant n <= buf.Length - at && read + n <= |body|
      invariant forall k :: 0 <= k < buf.Length ==>
                  buf[k] == if at <= k < at + n then body[read + k - at] else old(buf[k])
    {
      buf[at + n] := body[read + n];
      n := n + 1;
    }
    err := if n == buf.Length - at then Full
           else if end.Broken? then Failed
           else if n == 0 then AtEof else UnexpectedEof;
  }

  /** copy(buf, buf[i:]) on overlapping slices. */
  method CopyDown(buf: array<Byte>, i: nat)
    requires i <= buf.Length
    modifies buf
    ensures forall k :: 0 <= k < buf.Length ==>
              buf[k] == if k < buf.Length - i then old(buf[k + i]) else old(buf[k])
  {
    for k := 0 to buf.Length - i
      invariant forall j :: 0 <= j < buf.Length ==>
                  buf[j] == if j < k then old(buf[j + i]) else old(buf[j])
    {
      buf[k] := buf[i + k];
    }
  }

  /** What is known of the buffer at the top of the loop. */
  ghost predicate Holds(buf: seq<Byte>, body: seq<Byte>, start: nat, read: nat, bufStart: nat, hanging: bool) {
    && start <= read <= |body| && read - start < |buf| && bufStart < |buf|
    && (hanging ==> start == read && bufStart == 0 && NoNewline(buf, 0, |buf|))
    && (!hanging && read < |body| ==>
          bufStart == read - start && forall k :: 0 <= k < bufStart ==> buf[k] == body[start + k])
  }

  /** A buffer full of body bytes has its last newline where the body has it. */
  lemma SameLast(buf: seq<Byte>, body: seq<Byte>, start: nat)
    requires start + |buf| <= |body| && forall k :: 0 <= k < |buf| ==> buf[k] == body[start + k]
    ensures AfterLastNewline(body, start, start + |buf|) == start + AfterLastNewline(buf, 0, |buf|)
  {
    var i, j := AfterLastNewline(buf, 0, |buf|), AfterLastNewline(body, start, start + |buf|);
    assert i > 0 ==> body[start + i - 1] == NEWLINE;
    assert j > start ==> buf[j - 1 - start] == NEWLINE;
  }

  /** Old bytes without a newline behind the `n` new ones do not disturb the search. */
  lemma SameFirst(buf: seq<Byte>, body: seq<Byte>, read: nat, n: nat)
    requires read + n <= |body| && n <= |buf| && NoNewline(buf, n, |buf|)
    requires forall k :: 0 <= k < n ==> buf[k] == body[read + k]
    ensures var i, j := FirstNewline(buf, 0, |buf|), FirstNewline(body, read, read + n);
            if j == read + n then i == |buf| else j == read + i && i < n
  {
    var i, j := FirstNewline(buf, 0, |buf|), FirstNewline(body, read, read + n);
    if j == read + n {
      assert forall k :: 0 <= k < n ==> buf[k] == body[read + k] != NEWLINE;
    } else {
      assert buf[j - read] == body[j];
      assert i < |buf| && i < n && body[read + i] == buf[i];
    }
  }

  lemma SlicesAppend(parsed: seq<seq<Byte>>, body: seq<Byte>, chunks: seq<(nat, nat)>, a: nat, b: nat)
    requires AreSlices(parsed, body, chunks) && a <= b <= |body|
    ensures AreSlices(parsed + [body[a..b]], body, chunks + [(a, b)])
  {}

  lemma RejectsAppend(parse: Parser, parsed: seq<seq<Byte>>, text: seq<Byte>)
    ensures Rejects(parse, parsed + [text]) <==> Rejects(parse, parsed) || !parse(|parsed|, text)
  {
    var all := parsed + [text];
    assert forall i :: 0 <= i < |parsed| ==> all[i] == parsed[i];
    assert all[|parsed|] == text;
  }

  /** The chunks so far and those still to come make up the whole. */
  ghost predicate OnTrack(total: Trace, chunks: seq<(nat, nat)>, over: bool, todo: Trace) {
    total.chunks == chunks + todo.chunks && total.overlong == (over || todo.overlong)
  }

  lemma TrackChunk(total: Trace, chunks: seq<(nat, nat)>, over: bool, c: (nat, nat), todo: Trace)
    requires OnTrack(total, chunks, over, todo.(chunks := [c] + todo.chunks))
    ensures OnTrack(total, chunks + [c], over, todo)
  {}

  /** Serve by cases, as the loop meets them. */
  lemma UnfoldServe(body: seq<Byte>, end: BodyEnd, size: nat, start: nat, read: nat, hanging: bool)
    requires start <= read <= |body| && read - start < size && (hanging ==> start == read)
    ensures var t := Serve(body, end, size, start, read, hanging);
            var got := Min(size - (read - start), |body| - read);
            var next := read + got;
            if got == 0 || (end.Broken? && got < size - (read - start)) then t == Trace([], false, start)
            else if hanging then
              var i := FirstNewline(body, read, next);
              t == if i == next then Serve(body, end, size, next, next, true)
                   else Serve(body, end, size, i + 1, next, false)
            else if got < size - (read - start) then t == Trace([(start, |body|)] + [], false, |body|)
            else
              var i := AfterLastNewline(body, start, next);
              if i == start then t == Serve(body, end, size, next, next, true).(overlong := true)
              else
                var todo := Serve(body, end, size, i, next, false);
                t == todo.(chunks := [(start, i)] + todo.chunks)
  {
    hide FirstNewline, AfterLastNewline, InBody, NoNewline;
    assert [(start, |body|)] + [] == [(start, |body|)];
  }

  /** Moves the bytes from `i` on to the front. */
  method Rotate(buf: array<Byte>, i: nat, ghost body: seq<Byte>, ghost start: nat, ghost read: nat)
    returns (bufStart: nat)
    requires 0 < i <= buf.Length && start <= read <= |body| && read - start < buf.Length
    requires read < |body| ==>
               read - start == buf.Length - i && forall k :: i <= k < buf.Length ==> buf[k] == body[start + k - i]
    modifies buf
    ensures Holds(buf[..], body, start, read, bufStart, false)
  {
    bufStart := buf.Length - i;
    if bufStart > 0 {
      CopyDown(buf, i);
    }
  }

  lemma TrackDone(total: Trace, chunks: seq<(nat, nat)>, over: bool, rest: nat)
    requires OnTrack(total, chunks, over, Trace([], false, rest))
    ensures total.chunks == chunks && total.overlong == over
  {}

  lemma TrackOverlong(total: Trace, chunks: seq<(nat, nat)>, over: bool, todo: Trace)
    requires OnTrack(total, chunks, over, todo.(overlong := true))
    ensures OnTrack(total, chunks, true, todo)
  {}

  /** The variables of one serveWrite call; `buf` comes from the pool with arbitrary contents. */
  class Session {
    const body: seq<Byte>
    const end: BodyEnd
    const parse: Parser
    const buf: array<Byte>
    var bufStart: nat
    var read: nat
    var hangingBytes: bool
    var return400: bool
    var parsed: seq<seq<Byte>>   // what h.parse was given
    ghost var start: nat         // body position of buf[0]
    ghost var over: bool
    ghost var chunks: seq<(nat, nat)>

    constructor (body: seq<Byte>, end: BodyEnd, parse: Parser, buf: array<Byte>)
      requires buf.Length > 0
      ensures Inv() && read == 0 && this.body == body && this.end == end && this.parse == parse && this.buf == buf
    {
      this.body, this.end, this.parse, this.buf := body, end, parse, buf;
      bufStart, read, hangingBytes, return400, parsed := 0, 0, false, false, [];
      start, over, chunks := 0, false, [];
    }

    ghost predicate Inv()
      reads this, buf
    {
      && Holds(buf[..], body, start, read, bufStart, hangingBytes)
      && AreSlices(parsed, body, chunks)
      && OnTrack(Whole(body, end, buf.Length), chunks, over, Serve(body, end, buf.Length, start, read, hangingBytes))
      && return400 == (over || Rejects(parse, parsed))
    }

    /** The whole loop. */
    method ServeWrite() returns (reply: Reply)
      requires Inv() && read == 0
      modifies this, buf
      ensures AreSlices(parsed, body, Whole(body, end, buf.Length).chunks)
      ensures reply.BadRequest? <==>
                end.Broken? || Whole(body, end, buf.Length).overlong || Rejects(parse, parsed)
    {
      hide OnTrack, Serve, AreSlices, Rejects;
      while true
        invariant Inv()
        decreases |body| - read
      {
        UnfoldServe(body, end, buf.Length, start, read, hangingBytes);
        var n, err := ReadFull(body, read, end, buf, bufStart);
        if err.Failed? {
          TrackDone(Whole(body, end, buf.Length), chunks, over, start);
          return BadRequest;
        }
        if err.AtEof? {
          TrackDone(Whole(body, end, buf.Length), chunks, over, start);
          return if return400 then BadRequest else NoContent;
        }
        if hangingBytes {
          SkipToNewline(n);
        } else if err.UnexpectedEof? {
          ParseLast(n);
          return if return400 then BadRequest else NoContent;
        } else {
          ParseFull(n);
        }
      }
    }

    /** What holds once ReadFull has put `n` bytes behind the first `bufStart`. */
    ghost predicate Filled(n: nat)
      reads this, buf
    {
      && start <= read <= |body| && read - start < buf.Length && bufStart == read - start
      && 0 < n == Min(buf.Length - bufStart, |body| - read)
      && (n < buf.Length - bufStart ==> end.Eof?)
      && (forall k :: 0 <= k < bufStart + n ==> buf[k] == body[start + k])
      && (hangingBytes ==> start == read && NoNewline(buf[..], n, buf.Length))
      && AreSlices(parsed, body, chunks)
      && OnTrack(Whole(body, end, buf.Length), chunks, over, Serve(body, end, buf.Length, start, read, hangingBytes))
      && return400 == (over || Rejects(parse, parsed))
    }

    /** Skipping an overlong line. */
    method SkipToNewline(n: nat)
      requires Filled(n) && hangingBytes
      modifies this, buf
      ensures Inv() && read == old(read) + n
    {
      hide OnTrack, Serve, AreSlices, Rejects, FirstNewline;
      UnfoldServe(body, end, buf.Length, start, read, true);
      SameFirst(buf[..], body, read, n);
      var i := FirstNewline(buf[..], 0, buf.Length);
      read := read + n;
      if i == buf.Length {
        start := read;
      } else {
        start := start + i + 1;
        bufStart := Rotate(buf, i + 1, body, start, read);
        hangingBytes := false;
      }
    }

    /** The body ended before the buffer was full: all that is left is parsed. */
    method ParseLast(n: nat)
      requires Filled(n) && !hangingBytes && n < buf.Length - bufStart
      modifies this
      ensures AreSlices(parsed, body, Whole(body, end, buf.Length).chunks)
      ensures return400 == (Whole(body, end, buf.Length).overlong || Rejects(parse, parsed))
    {
      hide OnTrack, Serve, AreSlices, Rejects;
      UnfoldServe(body, end, buf.Length, start, read, false);
      var text := buf[..n + bufStart];
      assert text == body[start..|body|];
      ghost var total := Whole(body, end, buf.Length);
      TrackChunk(total, chunks, over, (start, |body|), Trace([], false, |body|));
      TrackDone(total, chunks + [(start, |body|)], over, |body|);
      Parse(text, start, |body|);
    }

    /** The buffer is full: everything up to its last newline is parsed. */
    method ParseFull(n: nat)
      requires Filled(n) && !hangingBytes && n == buf.Length - bufStart
      modifies this, buf
      ensures Inv() && read == old(read) + n
    {
      hide OnTrack, Serve, AreSlices, Rejects, AfterLastNewline;
      UnfoldServe(body, end, buf.Length, start, read, false);
      SameLast(buf[..], body, start);
      var i := AfterLastNewline(buf[..], 0, buf.Length);
      read := read + n;
      if i == 0 {
        TrackOverlong(Whole(body, end, buf.Length), chunks, over, Serve(body, end, buf.Length, read, read, true));
        hangingBytes, return400, bufStart := true, true, 0;
        start, over := read, true;
      } else {
        ParseUpTo(i);
      }
    }

    method ParseUpTo(i: nat)
      requires 0 < i <= buf.Length && read == start + buf.Length <= |body| && !hangingBytes
      requires forall k :: 0 <= k < buf.Length ==> buf[k] == body[start + k]
      requires AreSlices(parsed, body, chunks) && return400 == (over || Rejects(parse, parsed))
      requires var todo := Serve(body, end, buf.Length, start + i, read, false);
               OnTrack(Whole(body, end, buf.Length), chunks, over, todo.(chunks := [(start, start + i)] + todo.chunks))
      modifies this, buf
      ensures Inv() && read == old(read)
    {
      hide OnTrack, Serve, AreSlices, Rejects;
      TrackChunk(Whole(body, end, buf.Length), chunks, over, (start, start + i),
                 Serve(body, end, buf.Length, start + i, read, false));
      assert buf[..i] == body[start..start + i];
      Parse(buf[..i], start, start + i);
      start := start + i;
      bufStart := Rotate(buf, i, body, start, read);
    }

    method Parse(text: seq<Byte>, ghost a: nat, ghost b: nat)
      requires a <= b <= |body| && text == body[a..b] && AreSlices(parsed, body, chunks)
      requires return400 == (over || Rejects(parse, parsed))
      modifies this`parsed, this`return400, this`chunks
      ensures chunks == old(chunks) + [(a, b)] && AreSlices(parsed, body, chunks)
      ensures return400 == (over || Rejects(parse, parsed))
    {
      hide AreSlices, Rejects;
      SlicesAppend(parsed, body, chunks, a, b);
      RejectsAppend(parse, parsed, text);
      var ok := parse(|parsed|, text);
      if !ok {
        return400 := true;
      }
      parsed, chunks := parsed + [text], chunks + [(a, b)];
    }
  }
}
