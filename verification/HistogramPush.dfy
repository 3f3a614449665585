/** When a push of the histogram aggregator is right, whatever order Go walks its maps in. */
module HistogramPushes {
  import opened Buckets
  import opened HistogramCounts
  import opened HistogramGroups
  import opened Options
  import opened Series

  // ---------- Orders ----------

  /** One turn of the outer loop: a series, and its fields in the order of the inner loop. */
  datatype Turn = Turn(id: nat, fields: seq<string>)

  ghost predicate EachOnce<T(!new)>(q: seq<T>, s: set<T>) {
    (forall x :: x in q <==> x in s) && forall i, j :: 0 <= i < j < |q| ==> q[i] != q[j]
  }

  lemma OnceMore<T(!new)>(q: seq<T>, s: set<T>, x: T)
    requires EachOnce(q, s) && x !in s
    ensures EachOnce(q + [x], s + {x})
  {}

  function Ids(order: seq<Turn>): seq<nat> {
    seq(|order|, i requires 0 <= i < |order| => order[i].id)
  }

  /** An order in which the two loops can go through a cache. */
  ghost predicate IsOrder(order: seq<Turn>, cache: map<nat, Collection>) {
    EachOnce(Ids(order), cache.Keys) &&
    forall i :: 0 <= i < |order| ==>
      order[i].id in cache && EachOnce(order[i].fields, cache[order[i].id].counts.Keys)
  }

  function FieldsOf(turn: Turn): seq<(nat, string)> {
    seq(|turn.fields|, i requires 0 <= i < |turn.fields| => (turn.id, turn.fields[i]))
  }

  function Visits(order: seq<Turn>): seq<(nat, string)> {
    if order == [] then [] else Visits(order[..|order| - 1]) + FieldsOf(order[|order| - 1])
  }

  predicate Has(cache: map<nat, Collection>, p: (nat, string)) {
    p.0 in cache && p.1 in cache[p.0].counts
  }

  /** groupFieldsByBuckets for one field of one series. */
  function EmitOf(groups: seq<Group>, cache: map<nat, Collection>, configs: seq<Config>, p: (nat, string),
                  format: real -> string): seq<Group> {
    if !Has(cache, p) then groups
    else
      var c := cache[p.0];
      var b := Borders(configs, c.name, p.1);
      if b.Some? && |c.counts[p.1]| == |b.value| + 1 then
        EmitField(groups, c.name, p.1, c.tags, b.value, c.counts[p.1], format)
      else groups
  }

  /** What the loops have emitted after these visits. */
  function PushedIn(cache: map<nat, Collection>, configs: seq<Config>, ps: seq<(nat, string)>, format: real -> string)
    : seq<Group>
  {
    if ps == [] then []
    else EmitOf(PushedIn(cache, configs, ps[..|ps| - 1], format), cache, configs, ps[|ps| - 1], format)
  }

  lemma {:induction false} VisitsInside(order: seq<Turn>, p: (nat, string))
    ensures p in Visits(order) <==> exists i :: 0 <= i < |order| && order[i].id == p.0 && p.1 in order[i].fields
  {
    if order != [] {
      var front, last := order[..|order| - 1], order[|order| - 1];
      VisitsInside(front, p);
      assert p in FieldsOf(last) <==> last.id == p.0 && p.1 in last.fields by { InFields(last, p); }
      assert forall i :: 0 <= i < |front| ==> front[i] == order[i];
    }
  }

  lemma InFields(turn: Turn, p: (nat, string))
    ensures p in FieldsOf(turn) <==> turn.id == p.0 && p.1 in turn.fields
  {
    var fs := FieldsOf(turn);
    if turn.id == p.0 && p.1 in turn.fields {
      var i :| 0 <= i < |turn.fields| && turn.fields[i] == p.1;
      assert fs[i] == p;
    }
  }

  /** An order visits every field that has a tally, and no other. */
  lemma VisitsAll(order: seq<Turn>, cache: map<nat, Collection>, p: (nat, string))
    requires IsOrder(order, cache)
    ensures p in Visits(order) <==> Has(cache, p)
  {
    VisitsInside(order, p);
    if Has(cache, p) {
      assert p.0 in Ids(order);
      var i :| 0 <= i < |order| && Ids(order)[i] == p.0;
      assert order[i].id == p.0 && p.1 in order[i].fields;
    }
  }

  lemma {:induction false} VisitsFirst(order: seq<Turn>)
    requires order != [] && order[0].fields != []
    ensures |Visits(order)| > 0 && Visits(order)[0] == (order[0].id, order[0].fields[0])
  {
    if |order| > 1 {
      VisitsFirst(order[..|order| - 1]);
    } else {
      assert Visits(order[..0]) == [];
      assert Visits(order) == FieldsOf(order[0]);
    }
  }

  /** A finite set can be gone through once. */
  lemma {:induction false} Enumerate<T(!new)>(s: set<T>) returns (q: seq<T>)
    ensures EachOnce(q, s)
    decreases |s|
  {
    q := [];
    if s != {} {
      var x :| x in s;
      var rest := Enumerate(s - {x});
      q := [x] + rest;
    }
  }

  /** Any series of the cache can come first. */
  lemma OrderFrom(cache: map<nat, Collection>, id: nat) returns (order: seq<Turn>)
    requires id in cache
    ensures IsOrder(order, cache) && order != [] && order[0].id == id
  {
    var rest := Enumerate(cache.Keys - {id});
    var ids := [id] + rest;
    order := [];
    ghost var n := 0;
    while n < |ids|
      invariant n <= |ids| && Ids(order) == ids[..n]
      invariant |order| == n && (n > 0 ==> order[0].id == id)
      invariant forall i :: 0 <= i < |order| ==>
                  order[i].id in cache && EachOnce(order[i].fields, cache[order[i].id].counts.Keys)
    {
      if n > 0 {
        assert ids[n] == rest[n - 1] && rest[n - 1] in rest;
      }
      var fields := Enumerate(cache[ids[n]].counts.Keys);
      order := order + [Turn(ids[n], fields)];
      n := n + 1;
    }
    assert ids[..n] == ids;
  }

  // ---------- What should be emitted ----------

  /** The counts of one field are all there. */
  ghost predicate Complete(groups: seq<Group>, name: string, tags: map<string, string>, field: string,
                           b: seq<real>, xs: seq<real>, format: real -> string) {
    (forall j :: 0 <= j < |b| ==> At(groups, name, Bordered(tags, format(b[j])), field) == Some(AtMost(xs, b[j]))) &&
    At(groups, name, Bordered(tags, BUCKET_INF), field) == Some(|xs|)
  }

  ghost predicate CompleteFor(groups: seq<Group>, cache: map<nat, Collection>, configs: seq<Config>,
                              history: seq<Metric>, p: (nat, string), format: real -> string) {
    p.0 in cache &&
    var c := cache[p.0];
    var b := Borders(configs, c.name, p.1);
    b.Some? && Complete(groups, c.name, c.tags, p.1, b.value, Numbers(history, p.0, p.1), format)
  }

  /** The count found here belongs to one of these fields. */
  ghost predicate Belongs(cache: map<nat, Collection>, ps: seq<(nat, string)>, name: string,
                          t: map<string, string>, field: string) {
    exists p :: p in ps && Has(cache, p) && p.1 == field && cache[p.0].name == name && IsBorderOf(t, cache[p.0].tags)
  }

  /** These fields are completely emitted, and no others. */
  ghost predicate Emits(groups: seq<Group>, cache: map<nat, Collection>, configs: seq<Config>, history: seq<Metric>,
                        ps: seq<(nat, string)>, format: real -> string) {
    (forall p :: p in ps ==> CompleteFor(groups, cache, configs, history, p, format)) &&
    forall n, t, f :: At(groups, n, t, f).Some? ==> Belongs(cache, ps, n, t, f)
  }

  /** The cache holds tallies of the values received. */
  ghost predicate Kept(cache: map<nat, Collection>, configs: seq<Config>, history: seq<Metric>) {
    forall p :: Has(cache, p) ==>
      var b := Borders(configs, cache[p.0].name, p.1);
      b.Some? && Ascending(b.value) && cache[p.0].counts[p.1] == Tally(b.value, Numbers(history, p.0, p.1))
  }

  ghost predicate GoodFormats(format: real -> string, configs: seq<Config>) {
    forall m, f :: Borders(configs, m, f).Some? ==> GoodFormat(format, Borders(configs, m, f).value)
  }

  ghost predicate Emitting(cache: map<nat, Collection>, id: nat) {
    id in cache && cache[id].counts != map[]
  }

  /** The tags under which the total of a series is emitted. */
  function TotalTags(c: Collection): map<string, string> {
    Bordered(c.tags, BUCKET_INF)
  }

  /**
   No series is taken for another: where two of the same name compare alike, they are emitted under
   the same tags anyway, and agree in the tallies they share.
   */
  ghost predicate Clear(cache: map<nat, Collection>) {
    forall id, jd :: Emitting(cache, id) && Emitting(cache, jd) ==> ClearPair(cache[id], cache[jd])
  }

  ghost predicate ClearPair(c: Collection, d: Collection) {
    c.name == d.name && Identical(TotalTags(c), TotalTags(d)) ==>
      TotalTags(c) == TotalTags(d) && forall f :: f in c.counts && f in d.counts ==> c.counts[f] == d.counts[f]
  }

  // ---------- Clear caches are emitted right in every order ----------

  /** Every group is one of a series in the cache. */
  ghost predicate Tidy(groups: seq<Group>, cache: map<nat, Collection>) {
    forall n, t :: HasGroup(groups, n, t) ==>
      exists id :: Emitting(cache, id) && cache[id].name == n && IsBorderOf(t, cache[id].tags)
  }

  lemma TidyIsSeparate(groups: seq<Group>, cache: map<nat, Collection>, id: nat)
    requires Clear(cache) && Tidy(groups, cache) && Emitting(cache, id)
    ensures Separate(groups, cache[id].name, cache[id].tags)
  {
    hide Identical, Bordered, HasGroup;
    var c := cache[id];
    forall x, i | x != "" && 0 <= i < |groups| && groups[i].name == c.name && Identical(Bordered(c.tags, x), groups[i].tags)
      ensures groups[i].tags == Bordered(c.tags, x)
    {
      GroupThere(groups, i);
      var jd :| Emitting(cache, jd) && cache[jd].name == c.name && IsBorderOf(groups[i].tags, cache[jd].tags);
      var d := cache[jd];
      var y := groups[i].tags[BUCKET_TAG];
      BordersCompareAlike(c.tags, d.tags, x, y, BUCKET_INF);
      assert ClearPair(c, d);
      EqualWhateverBorder(c.tags, d.tags, BUCKET_INF, x);
    }
  }

  lemma HasIsEmitting(cache: map<nat, Collection>, p: (nat, string))
    requires Has(cache, p)
    ensures Emitting(cache, p.0)
  {}

  /** Two tallies are equal exactly when they emit the same counts. */
  lemma TalliesTell(b: seq<real>, xs: seq<real>, ys: seq<real>)
    requires Ascending(b)
    ensures Tally(b, xs) == Tally(b, ys) <==>
            |xs| == |ys| && forall j :: 0 <= j < |b| ==> AtMost(xs, b[j]) == AtMost(ys, b[j])
  {
    hide Tally, Cumulated, AtMost, Ascending;
    var u, v := Tally(b, xs), Tally(b, ys);
    forall n | 0 < n <= |b| + 1
      ensures Cumulated(u, n) == if n <= |b| then AtMost(xs, b[n - 1]) else |xs|
      ensures Cumulated(v, n) == if n <= |b| then AtMost(ys, b[n - 1]) else |ys|
    {
      CumulatedCounts(b, xs, n - 1);
      CumulatedCounts(b, ys, n - 1);
    }
    if |xs| == |ys| && forall j :: 0 <= j < |b| ==> AtMost(xs, b[j]) == AtMost(ys, b[j]) {
      SumsTell(u, v);
    }
    if u == v {
      assert Cumulated(u, |b| + 1) == Cumulated(v, |b| + 1);
      forall j | 0 <= j < |b| ensures AtMost(xs, b[j]) == AtMost(ys, b[j]) {
        assert Cumulated(u, j + 1) == Cumulated(v, j + 1);
      }
    }
  }

  lemma SumsTell(u: seq<nat>, v: seq<nat>)
    requires |u| == |v| && forall n :: 0 < n <= |u| ==> Cumulated(u, n) == Cumulated(v, n)
    ensures u == v
  {
    forall n | 0 <= n < |u| ensures u[n] == v[n] {
      assert Cumulated(u, n + 1) == Cumulated(u, n) + u[n];
      assert Cumulated(v, n + 1) == Cumulated(v, n) + v[n];
      assert Cumulated(u, 0) == Cumulated(v, 0);
    }
  }

  /** A field written to the same groups with an equal tally is complete as well. */
  lemma SharedStays(after: seq<Group>, c: Collection, d: Collection, field: string, b: seq<real>,
                    xs: seq<real>, ys: seq<real>, format: real -> string)
    requires c.name == d.name && TotalTags(c) == TotalTags(d) && Ascending(b) && Tally(b, xs) == Tally(b, ys)
    requires Complete(after, d.name, d.tags, field, b, ys, format)
    ensures Complete(after, c.name, c.tags, field, b, xs, format)
  {
    hide At, AtMost, Bordered, Tally;
    TalliesTell(b, xs, ys);
    forall x ensures Bordered(c.tags, x) == Bordered(d.tags, x) { EqualWhateverBorder(c.tags, d.tags, BUCKET_INF, x); }
  }

  /** A field written to other groups keeps its counts. */
  lemma OtherStays(groups: seq<Group>, after: seq<Group>, c: Collection, d: Collection, f: string, field: string,
                   b: seq<real>, xs: seq<real>, e: seq<real>, ys: seq<real>, format: real -> string)
    requires !(c.name == d.name && TotalTags(c) == TotalTags(d) && f == field)
    requires Complete(groups, c.name, c.tags, f, b, xs, format)
    requires Emitted(after, groups, d.name, d.tags, field, e, ys, |e|, format)
    ensures Complete(after, c.name, c.tags, f, b, xs, format)
  {
    hide At, AtMost;
    forall x | c.name == d.name && f == field && IsBorderOf(Bordered(c.tags, x), d.tags) ensures false {
      var y := Bordered(c.tags, x)[BUCKET_TAG];
      assert x == y;
      EqualWhateverBorder(c.tags, d.tags, x, BUCKET_INF);
    }
  }

  /** One more field of a clear cache. */
  lemma OneMoreEmitted(groups: seq<Group>, cache: map<nat, Collection>, configs: seq<Config>, history: seq<Metric>,
                       ps: seq<(nat, string)>, p: (nat, string), format: real -> string)
    requires Clear(cache) && Kept(cache, configs, history) && GoodFormats(format, configs) && Has(cache, p)
    requires (forall q :: q in ps ==> Has(cache, q)) && Tidy(groups, cache)
    requires Emits(groups, cache, configs, history, ps, format)
    ensures var after := EmitOf(groups, cache, configs, p, format);
            Emits(after, cache, configs, history, ps + [p], format) && Tidy(after, cache)
  {
    hide Clear, Tidy, Emits, At, Ascending, Borders, Numbers, Emitted, Separate, GoodFormat, EmitField, Tally;
    var c := cache[p.0];
    var b := Borders(configs, c.name, p.1).value;
    var xs := Numbers(history, p.0, p.1);
    var after := EmitOf(groups, cache, configs, p, format);
    assert after == EmitField(groups, c.name, p.1, c.tags, b, Tally(b, xs), format);
    HasIsEmitting(cache, p);
    TidyIsSeparate(groups, cache, p.0);
    FieldEmitted(groups, c.name, p.1, c.tags, b, xs, format);
    EmittedIsComplete(after, groups, c.name, c.tags, p.1, b, xs, format);
    forall q | q in ps ensures CompleteFor(after, cache, configs, history, q, format) {
      StaysComplete(groups, after, cache, configs, history, ps, p, q, format);
    }
    OthersBelong(groups, after, cache, configs, history, ps, p, b, xs, format);
    StaysTidy(groups, cache, p, b, c.counts[p.1], format);
    AllEmitted(after, cache, configs, history, ps, p, format);
  }

  lemma EmittedIsComplete(after: seq<Group>, groups: seq<Group>, name: string, tags: map<string, string>, field: string,
                          b: seq<real>, xs: seq<real>, format: real -> string)
    requires Emitted(after, groups, name, tags, field, b, xs, |b|, format)
    requires At(after, name, Bordered(tags, BUCKET_INF), field) == Some(|xs|)
    ensures Complete(after, name, tags, field, b, xs, format)
  {
    hide At, AtMost, Bordered;
  }

  lemma StaysComplete(groups: seq<Group>, after: seq<Group>, cache: map<nat, Collection>, configs: seq<Config>,
                      history: seq<Metric>, ps: seq<(nat, string)>, p: (nat, string), q: (nat, string),
                      format: real -> string)
    requires Clear(cache) && Kept(cache, configs, history) && Has(cache, p) && Has(cache, q) && q in ps
    requires Emits(groups, cache, configs, history, ps, format)
    requires CompleteFor(after, cache, configs, history, p, format)
    requires var c := cache[p.0];
             var b := Borders(configs, c.name, p.1).value;
             Emitted(after, groups, c.name, c.tags, p.1, b, Numbers(history, p.0, p.1), |b|, format)
    ensures CompleteFor(after, cache, configs, history, q, format)
  {
    hide At, Ascending, Borders, Numbers, Emitted, Tally, Complete, TotalTags, Identical;
    var c, d := cache[q.0], cache[p.0];
    var b, e := Borders(configs, c.name, q.1).value, Borders(configs, d.name, p.1).value;
    var xs, ys := Numbers(history, q.0, q.1), Numbers(history, p.0, p.1);
    assert CompleteFor(groups, cache, configs, history, q, format);
    if c.name == d.name && TotalTags(c) == TotalTags(d) && q.1 == p.1 {
      HasIsEmitting(cache, p);
      HasIsEmitting(cache, q);
      SelfIdentical(TotalTags(c));
      assert ClearPair(c, d);
      SharedStays(after, c, d, p.1, b, xs, ys, format);
    } else {
      OtherStays(groups, after, c, d, q.1, p.1, b, xs, e, ys, format);
    }
  }

  lemma OthersBelong(groups: seq<Group>, after: seq<Group>, cache: map<nat, Collection>, configs: seq<Config>,
                     history: seq<Metric>, ps: seq<(nat, string)>, p: (nat, string),
                     b: seq<real>, xs: seq<real>, format: real -> string)
    requires Has(cache, p) && Emits(groups, cache, configs, history, ps, format)
    requires Emitted(after, groups, cache[p.0].name, cache[p.0].tags, p.1, b, xs, |b|, format)
    ensures forall n, t, f :: At(after, n, t, f).Some? ==> Belongs(cache, ps + [p], n, t, f)
  {
    hide At, AtMost, IsBorderOf, CompleteFor;
    forall n, t, f | At(after, n, t, f).Some? ensures Belongs(cache, ps + [p], n, t, f) {
      if n == cache[p.0].name && f == p.1 && IsBorderOf(t, cache[p.0].tags) {
        assert p in ps + [p];
      } else {
        assert Belongs(cache, ps, n, t, f);
        var q :| q in ps && Has(cache, q) && q.1 == f && cache[q.0].name == n && IsBorderOf(t, cache[q.0].tags);
        assert q in ps + [p];
      }
    }
  }

  lemma AllEmitted(after: seq<Group>, cache: map<nat, Collection>, configs: seq<Config>, history: seq<Metric>,
                   ps: seq<(nat, string)>, p: (nat, string), format: real -> string)
    requires forall q :: q in ps ==> CompleteFor(after, cache, configs, history, q, format)
    requires CompleteFor(after, cache, configs, history, p, format)
    requires forall n, t, f :: At(after, n, t, f).Some? ==> Belongs(cache, ps + [p], n, t, f)
    ensures Emits(after, cache, configs, history, ps + [p], format)
  {
    hide At, CompleteFor, Belongs;
  }

  lemma StaysTidy(groups: seq<Group>, cache: map<nat, Collection>, p: (nat, string), b: seq<real>, counts: seq<nat>,
                  format: real -> string)
    requires Tidy(groups, cache) && Has(cache, p) && |counts| == |b| + 1 && GoodFormat(format, b)
    ensures Tidy(EmitField(groups, cache[p.0].name, p.1, cache[p.0].tags, b, counts, format), cache)
  {
    hide HasGroup, IsBorderOf, GoodFormat, EmitField;
    var c := cache[p.0];
    HasIsEmitting(cache, p);
    forall n, t | HasGroup(EmitField(groups, c.name, p.1, c.tags, b, counts, format), n, t)
      ensures exists id :: Emitting(cache, id) && cache[id].name == n && IsBorderOf(t, cache[id].tags)
    {
      FieldGroups(groups, c.name, p.1, c.tags, b, counts, format, n, t);
    }
  }

  /** In whatever order a clear cache is gone through, exactly its counts are emitted. */
  lemma {:induction false} ClearIsEmitted(cache: map<nat, Collection>, configs: seq<Config>, history: seq<Metric>,
                                          ps: seq<(nat, string)>, format: real -> string)
    requires Clear(cache) && Kept(cache, configs, history) && GoodFormats(format, configs)
    requires forall p :: p in ps ==> Has(cache, p)
    ensures var groups := PushedIn(cache, configs, ps, format);
            Emits(groups, cache, configs, history, ps, format) && Tidy(groups, cache)
  {
    hide Clear, Kept, GoodFormats, Has, EmitOf;
    if ps == [] {
      NothingPushed(cache, configs, history, format);
    } else {
      hide Emits, Tidy;
      var front, p := ps[..|ps| - 1], ps[|ps| - 1];
      assert ps == front + [p];
      ClearIsEmitted(cache, configs, history, front, format);
      OneMoreEmitted(PushedIn(cache, configs, front, format), cache, configs, history, front, p, format);
    }
  }

  lemma NothingPushed(cache: map<nat, Collection>, configs: seq<Config>, history: seq<Metric>, format: real -> string)
    ensures Emits([], cache, configs, history, [], format) && Tidy([], cache)
  {}

  // ---------- Others are not ----------

  /** A total under tags `t` cannot get a group of its own any more. */
  ghost predicate Blocked(groups: seq<Group>, name: string, t: map<string, string>, u: map<string, string>) {
    HasGroup(groups, name, u) && !HasGroup(groups, name, t)
  }

  lemma GroupedBlocked(groups: seq<Group>, n: string, tags: map<string, string>, field: string, count: nat,
                       name: string, t: map<string, string>, u: map<string, string>)
    requires Blocked(groups, name, t, u) && Identical(t, u)
    ensures Blocked(Grouped(groups, n, tags, field, count), name, t, u)
  {
    hide Grouped;
    GroupedGroups(groups, n, tags, field, count, name, t);
    GroupedGroups(groups, n, tags, field, count, name, u);
  }

  lemma {:induction false} BordersBlocked(groups: seq<Group>, n: string, field: string, tags: map<string, string>,
                                          b: seq<real>, counts: seq<nat>, format: real -> string, k: nat,
                                          name: string, t: map<string, string>, u: map<string, string>)
    requires |counts| == |b| + 1 && k <= |b| && Blocked(groups, name, t, u) && Identical(t, u)
    ensures Blocked(EmitBorders(groups, n, field, tags, b, counts, format, k), name, t, u)
  {
    hide Blocked, Identical, Grouped, Cumulated;
    if k > 0 {
      BordersBlocked(groups, n, field, tags, b, counts, format, k - 1, name, t, u);
      GroupedBlocked(EmitBorders(groups, n, field, tags, b, counts, format, k - 1), n, Bordered(tags, format(b[k - 1])),
                     field, Cumulated(counts, k), name, t, u);
    }
  }

  lemma FieldBlocked(groups: seq<Group>, cache: map<nat, Collection>, configs: seq<Config>, p: (nat, string),
                     format: real -> string, name: string, t: map<string, string>, u: map<string, string>)
    requires Blocked(groups, name, t, u) && Identical(t, u)
    ensures Blocked(EmitOf(groups, cache, configs, p, format), name, t, u)
  {
    hide Blocked, Identical, Grouped, Cumulated, EmitBorders, Borders;
    if Has(cache, p) {
      var c := cache[p.0];
      var b, counts := Borders(configs, c.name, p.1), c.counts[p.1];
      if b.Some? && |counts| == |b.value| + 1 {
        BordersBlocked(groups, c.name, p.1, c.tags, b.value, counts, format, |b.value|, name, t, u);
        GroupedBlocked(EmitBorders(groups, c.name, p.1, c.tags, b.value, counts, format, |b.value|),
                       c.name, Bordered(c.tags, BUCKET_INF), p.1, Cumulated(counts, |counts|), name, t, u);
      }
    }
  }

  /** The first field emitted makes the group of its total. */
  lemma FirstBlocks(cache: map<nat, Collection>, configs: seq<Config>, history: seq<Metric>, p: (nat, string),
                    format: real -> string, t: map<string, string>)
    requires Has(cache, p) && Kept(cache, configs, history) && GoodFormats(format, configs)
    requires t != TotalTags(cache[p.0]) && BUCKET_TAG in t && t[BUCKET_TAG] == BUCKET_INF
    ensures Blocked(EmitOf([], cache, configs, p, format), cache[p.0].name, t, TotalTags(cache[p.0]))
  {
    hide Ascending, Borders, Numbers, GoodFormat, Tally, HasGroup, EmitField, Identical;
    var c := cache[p.0];
    var b := Borders(configs, c.name, p.1).value;
    var xs := Numbers(history, p.0, p.1);
    FieldGroups([], c.name, p.1, c.tags, b, c.counts[p.1], format, c.name, t);
    NoGroups(c.name, t);
    FieldEmitted([], c.name, p.1, c.tags, b, xs, format);
    CountHasGroup(EmitOf([], cache, configs, p, format), c.name, TotalTags(c), p.1);
  }

  lemma {:induction false} StaysBlocked(cache: map<nat, Collection>, configs: seq<Config>, ps: seq<(nat, string)>,
                                        format: real -> string, name: string,
                                        t: map<string, string>, u: map<string, string>)
    requires ps != [] && Identical(t, u) && Blocked(EmitOf([], cache, configs, ps[0], format), name, t, u)
    ensures Blocked(PushedIn(cache, configs, ps, format), name, t, u)
  {
    hide Blocked, EmitOf, Identical;
    var front, p := ps[..|ps| - 1], ps[|ps| - 1];
    if front == [] {
      assert PushedIn(cache, configs, front, format) == [];
    } else {
      StaysBlocked(cache, configs, front, format, name, t, u);
      FieldBlocked(PushedIn(cache, configs, front, format), cache, configs, p, format, name, t, u);
    }
  }

  /**
   A series that is taken for another one that comes first is lost: none of its fields has a total
   under its own tags.
   */
  lemma TakenForAnotherIsLost(cache: map<nat, Collection>, configs: seq<Config>, history: seq<Metric>,
                              order: seq<Turn>, id: nat, jd: nat, format: real -> string, f: string)
    requires Kept(cache, configs, history) && GoodFormats(format, configs)
    requires IsOrder(order, cache) && order != [] && order[0].id == jd
    requires Emitting(cache, id) && Emitting(cache, jd) && cache[id].name == cache[jd].name
    requires Identical(TotalTags(cache[id]), TotalTags(cache[jd])) && TotalTags(cache[id]) != TotalTags(cache[jd])
    ensures At(PushedIn(cache, configs, Visits(order), format), cache[id].name, TotalTags(cache[id]), f).None?
  {
    hide Kept, GoodFormats, Identical, EmitOf, HasGroup;
    var name, t, u := cache[id].name, TotalTags(cache[id]), TotalTags(cache[jd]);
    var ps := Visits(order);
    SomeField(order, cache);
    VisitsFirst(order);
    VisitsAll(order, cache, ps[0]);
    FirstBlocks(cache, configs, history, ps[0], format, t);
    StaysBlocked(cache, configs, ps, format, name, t, u);
    if At(PushedIn(cache, configs, ps, format), name, t, f).Some? {
      CountHasGroup(PushedIn(cache, configs, ps, format), name, t, f);
    }
  }

  lemma SomeField(order: seq<Turn>, cache: map<nat, Collection>)
    requires IsOrder(order, cache) && order != [] && Emitting(cache, order[0].id)
    ensures order[0].fields != []
  {
    var f :| f in cache[order[0].id].counts;
    assert f in order[0].fields;
  }

  /** Two series under the same tags can both be right only if they agree. */
  lemma SharedMustAgree(groups: seq<Group>, cache: map<nat, Collection>, configs: seq<Config>, history: seq<Metric>,
                        id: nat, jd: nat, f: string, format: real -> string)
    requires Kept(cache, configs, history) && Has(cache, (id, f)) && Has(cache, (jd, f))
    requires cache[id].name == cache[jd].name && TotalTags(cache[id]) == TotalTags(cache[jd])
    requires CompleteFor(groups, cache, configs, history, (id, f), format)
    requires CompleteFor(groups, cache, configs, history, (jd, f), format)
    ensures cache[id].counts[f] == cache[jd].counts[f]
  {
    hide At, Ascending, Borders, Numbers, Tally, AtMost, Bordered;
    var c, d := cache[id], cache[jd];
    var b := Borders(configs, c.name, f).value;
    var xs, ys := Numbers(history, id, f), Numbers(history, jd, f);
    forall x ensures Bordered(c.tags, x) == Bordered(d.tags, x) { EqualWhateverBorder(c.tags, d.tags, BUCKET_INF, x); }
    TalliesTell(b, xs, ys);
  }

  /** Exactly the fields of the cache are emitted, completely. */
  ghost predicate EmitsAll(groups: seq<Group>, cache: map<nat, Collection>, configs: seq<Config>, history: seq<Metric>,
                           format: real -> string) {
    (forall p :: Has(cache, p) ==> CompleteFor(groups, cache, configs, history, p, format)) &&
    forall n, t, f :: At(groups, n, t, f).Some? ==>
      exists id :: Has(cache, (id, f)) && cache[id].name == n && IsBorderOf(t, cache[id].tags)
  }

  /** For a clear cache every order does. */
  lemma ClearIsRight(cache: map<nat, Collection>, configs: seq<Config>, history: seq<Metric>, order: seq<Turn>,
                     format: real -> string)
    requires Clear(cache) && Kept(cache, configs, history) && GoodFormats(format, configs) && IsOrder(order, cache)
    ensures EmitsAll(PushedIn(cache, configs, Visits(order), format), cache, configs, history, format)
  {
    hide Clear, Kept, GoodFormats, IsOrder, PushedIn, Emits, EmitsAll, Visits;
    var ps := Visits(order);
    forall p ensures p in ps <==> Has(cache, p) { VisitsAll(order, cache, p); }
    ClearIsEmitted(cache, configs, history, ps, format);
    AllVisited(PushedIn(cache, configs, ps, format), cache, configs, history, ps, format);
  }

  lemma AllVisited(groups: seq<Group>, cache: map<nat, Collection>, configs: seq<Config>, history: seq<Metric>,
                   ps: seq<(nat, string)>, format: real -> string)
    requires (forall p :: p in ps <==> Has(cache, p)) && Emits(groups, cache, configs, history, ps, format)
    ensures EmitsAll(groups, cache, configs, history, format)
  {
    hide At, CompleteFor, IsBorderOf;
    forall n, t, f | At(groups, n, t, f).Some?
      ensures exists id :: Has(cache, (id, f)) && cache[id].name == n && IsBorderOf(t, cache[id].tags)
    {
      assert Belongs(cache, ps, n, t, f);
      var p :| p in ps && Has(cache, p) && p.1 == f && cache[p.0].name == n && IsBorderOf(t, cache[p.0].tags);
      assert p == (p.0, f);
    }
  }

  /** Otherwise some order does not. */
  lemma UnclearIsWrong(cache: map<nat, Collection>, configs: seq<Config>, history: seq<Metric>, format: real -> string)
    returns (order: seq<Turn>)
    requires !Clear(cache) && Kept(cache, configs, history) && GoodFormats(format, configs)
    ensures IsOrder(order, cache)
    ensures !EmitsAll(PushedIn(cache, configs, Visits(order), format), cache, configs, history, format)
  {
    hide Kept, GoodFormats, IsOrder, At, Identical, TotalTags;
    var id, jd :| Emitting(cache, id) && Emitting(cache, jd) && !ClearPair(cache[id], cache[jd]);
    order := OrderFrom(cache, jd);
    var groups := PushedIn(cache, configs, Visits(order), format);
    if TotalTags(cache[id]) == TotalTags(cache[jd]) {
      var f :| f in cache[id].counts && f in cache[jd].counts && cache[id].counts[f] != cache[jd].counts[f];
      if EmitsAll(groups, cache, configs, history, format) {
        assert Has(cache, (id, f)) && Has(cache, (jd, f));
        SharedMustAgree(groups, cache, configs, history, id, jd, f, format);
      }
    } else {
      var f :| f in cache[id].counts;
      TakenForAnotherIsLost(cache, configs, history, order, id, jd, format, f);
      assert Has(cache, (id, f));
      if CompleteFor(groups, cache, configs, history, (id, f), format) {
        TotalThere(groups, cache, configs, history, (id, f), format);
      }
    }
  }

  lemma TotalThere(groups: seq<Group>, cache: map<nat, Collection>, configs: seq<Config>, history: seq<Metric>,
                   p: (nat, string), format: real -> string)
    requires CompleteFor(groups, cache, configs, history, p, format)
    ensures At(groups, cache[p.0].name, TotalTags(cache[p.0]), p.1).Some?
  {
    hide At, Numbers, Borders;
  }

  /** Every order of going through the maps emits exactly the right counts if and only if the cache is clear. */
  lemma PushRightIff(cache: map<nat, Collection>, configs: seq<Config>, history: seq<Metric>, format: real -> string)
    requires Kept(cache, configs, history) && GoodFormats(format, configs)
    ensures Clear(cache) <==>
            forall order :: IsOrder(order, cache) ==>
              EmitsAll(PushedIn(cache, configs, Visits(order), format), cache, configs, history, format)
  {
    hide Clear, Kept, GoodFormats, IsOrder, EmitsAll;
    if Clear(cache) {
      forall order | IsOrder(order, cache)
        ensures EmitsAll(PushedIn(cache, configs, Visits(order), format), cache, configs, history, format)
      {
        ClearIsRight(cache, configs, history, order, format);
      }
    } else {
      var order := UnclearIsWrong(cache, configs, history, format);
    }
  }

  /** Same name, and same tags apart from the one named like the border's. */
  predicate DifferInBorderTag(c: Collection, d: Collection) {
    c.name == d.name && c.tags - {BUCKET_TAG} == d.tags - {BUCKET_TAG}
  }

  /** Without empty values, unclear means: two series that differ in the border tag alone and share a field. */
  lemma ClearWithoutEmptyValues(cache: map<nat, Collection>)
    requires forall id :: id in cache ==> NoEmptyValues(cache[id].tags)
    ensures Clear(cache) <==>
            forall id, jd, f :: Has(cache, (id, f)) && Has(cache, (jd, f)) && DifferInBorderTag(cache[id], cache[jd]) ==>
              cache[id].counts[f] == cache[jd].counts[f]
  {
    forall id, jd | id in cache && jd in cache
      ensures Identical(TotalTags(cache[id]), TotalTags(cache[jd])) <==>
              cache[id].tags - {BUCKET_TAG} == cache[jd].tags - {BUCKET_TAG}
      ensures TotalTags(cache[id]) == TotalTags(cache[jd]) <==>
              cache[id].tags - {BUCKET_TAG} == cache[jd].tags - {BUCKET_TAG}
    {
      NoneEmptyIsEqual(TotalTags(cache[id]), TotalTags(cache[jd]));
      BorderedEqualIff(cache[id].tags, cache[jd].tags, BUCKET_INF);
    }
    hide Identical, TotalTags, NoEmptyValues;
    if Clear(cache) {
      forall id, jd, f | Has(cache, (id, f)) && Has(cache, (jd, f)) && DifferInBorderTag(cache[id], cache[jd])
        ensures cache[id].counts[f] == cache[jd].counts[f]
      {
        HasIsEmitting(cache, (id, f));
        HasIsEmitting(cache, (jd, f));
        assert ClearPair(cache[id], cache[jd]);
      }
    }
  }

  // ---------- In terms of the metrics received ----------

  /**
   For every metric received and every field of its series that has borders: under the name and tags of
   the metric, each border has the number of values up to it and +Inf the number of all. Nothing else is
   emitted.
   */
  ghost predicate Reported(groups: seq<Group>, configs: seq<Config>, history: seq<Metric>, format: real -> string) {
    (forall i, f :: 0 <= i < |history| && Seen(history, history[i].id, f) ==>
       var b := Borders(configs, history[i].name, f);
       b.Some? ==> Complete(groups, history[i].name, history[i].tags, f, b.value, Numbers(history, history[i].id, f), format)) &&
    forall n, t, f :: At(groups, n, t, f).Some? ==> Owned(configs, history, n, t, f)
  }

  ghost predicate Owned(configs: seq<Config>, history: seq<Metric>, name: string, t: map<string, string>, f: string) {
    exists i :: 0 <= i < |history| && history[i].name == name && IsBorderOf(t, history[i].tags) &&
      Seen(history, history[i].id, f) && Borders(configs, name, f).Some?
  }

  lemma DescribedIsKept(cache: map<nat, Collection>, configs: seq<Config>, history: seq<Metric>)
    requires Describes(cache, configs, history)
    ensures Kept(cache, configs, history)
  {
    hide Describes, Borders, Numbers, Tally, Ascending;
    forall p | Has(cache, p)
      ensures var b := Borders(configs, cache[p.0].name, p.1);
              b.Some? && Ascending(b.value) && cache[p.0].counts[p.1] == Tally(b.value, Numbers(history, p.0, p.1))
    {
      CachedTally(cache, configs, history, p.0, p.1);
      BordersAscend(configs, cache[p.0].name, p.1);
    }
  }

  /** The cache has a tally for each field with borders that a series has had. */
  lemma SeenHas(cache: map<nat, Collection>, configs: seq<Config>, history: seq<Metric>, i: nat, f: string)
    requires Describes(cache, configs, history) && Consistent(history) && i < |history|
    ensures Has(cache, (history[i].id, f)) <==>
            Seen(history, history[i].id, f) && Borders(configs, history[i].name, f).Some?
    ensures history[i].id in cache ==>
              cache[history[i].id].name == history[i].name && cache[history[i].id].tags == history[i].tags
  {
    hide Borders, Seen, HasField;
    var id := history[i].id;
    assert Tallies(CountsOf(cache, id), configs, history[i].name, history, id, []);
    hide Tallies;
    KeyTallied(CountsOf(cache, id), configs, history[i].name, history, id, [], f);
    NoFields(f);
    if id in cache {
      assert OfSeries(history, id, cache[id].name, cache[id].tags);
    }
  }

  lemma EmitsReported(groups: seq<Group>, cache: map<nat, Collection>, configs: seq<Config>, history: seq<Metric>,
                      format: real -> string)
    requires Describes(cache, configs, history) && Consistent(history)
    requires EmitsAll(groups, cache, configs, history, format)
    ensures Reported(groups, configs, history, format)
  {
    hide Describes, Consistent, Borders, Seen, Complete, At, IsBorderOf, Numbers, Has;
    forall i, f | 0 <= i < |history| && Seen(history, history[i].id, f) && Borders(configs, history[i].name, f).Some?
      ensures Complete(groups, history[i].name, history[i].tags, f, Borders(configs, history[i].name, f).value,
                       Numbers(history, history[i].id, f), format)
    {
      SeenHas(cache, configs, history, i, f);
      assert CompleteFor(groups, cache, configs, history, (history[i].id, f), format);
    }
    forall n, t, f | At(groups, n, t, f).Some? ensures Owned(configs, history, n, t, f) {
      OwnerSeen(groups, cache, configs, history, format, n, t, f);
    }
  }

  lemma OwnerSeen(groups: seq<Group>, cache: map<nat, Collection>, configs: seq<Config>, history: seq<Metric>,
                  format: real -> string, n: string, t: map<string, string>, f: string)
    requires Describes(cache, configs, history) && Consistent(history)
    requires EmitsAll(groups, cache, configs, history, format) && At(groups, n, t, f).Some?
    ensures Owned(configs, history, n, t, f)
  {
    hide Consistent, Borders, Seen, At, IsBorderOf, Numbers, CompleteFor, Tallies;
    var id :| Has(cache, (id, f)) && cache[id].name == n && IsBorderOf(t, cache[id].tags);
    assert OfSeries(history, id, cache[id].name, cache[id].tags);
    hide Describes;
    var i :| 0 <= i < |history| && history[i].id == id && history[i].name == cache[id].name &&
             history[i].tags == cache[id].tags;
    SeenHas(cache, configs, history, i, f);
  }

  /** What is reported right for the metrics is emitted right for the cache. */
  lemma ReportedEmits(groups: seq<Group>, cache: map<nat, Collection>, configs: seq<Config>, history: seq<Metric>,
                      format: real -> string)
    requires Describes(cache, configs, history) && Consistent(history)
    requires Reported(groups, configs, history, format)
    ensures EmitsAll(groups, cache, configs, history, format)
  {
    hide Describes, Consistent, Borders, Seen, Complete, At, IsBorderOf, Numbers;
    forall p | Has(cache, p) ensures CompleteFor(groups, cache, configs, history, p, format) {
      var i := Member(cache, configs, history, p.0);
      SeenHas(cache, configs, history, i, p.1);
      assert p == (history[i].id, p.1);
    }
    forall n, t, f | At(groups, n, t, f).Some?
      ensures exists id :: Has(cache, (id, f)) && cache[id].name == n && IsBorderOf(t, cache[id].tags)
    {
      assert Owned(configs, history, n, t, f);
      var i :| 0 <= i < |history| && history[i].name == n && IsBorderOf(t, history[i].tags) &&
               Seen(history, history[i].id, f) && Borders(configs, n, f).Some?;
      SeenHas(cache, configs, history, i, f);
      assert Has(cache, (history[i].id, f));
    }
  }

  lemma Member(cache: map<nat, Collection>, configs: seq<Config>, history: seq<Metric>, id: nat) returns (i: nat)
    requires Describes(cache, configs, history) && id in cache
    ensures i < |history| && history[i].id == id
  {
    hide Tallies;
    assert OfSeries(history, id, cache[id].name, cache[id].tags);
    i :| 0 <= i < |history| && history[i].id == id;
  }

  // ---------- Which metrics make a push go wrong ----------

  /** The i-th metric is of a series for which this field is counted. */
  ghost predicate Counted(configs: seq<Config>, history: seq<Metric>, i: nat, f: string) {
    i < |history| && Seen(history, history[i].id, f) && Borders(configs, history[i].name, f).Some?
  }

  /** Clear, said of the metrics received: no two series of one name are taken for another. */
  ghost predicate ClearHistory(configs: seq<Config>, history: seq<Metric>) {
    forall i: nat, j: nat, f, g :: Counted(configs, history, i, f) && Counted(configs, history, j, g) ==>
      ClearMetrics(configs, history, i, j, f, g)
  }

  ghost predicate ClearMetrics(configs: seq<Config>, history: seq<Metric>, i: nat, j: nat, f: string, g: string)
    requires Counted(configs, history, i, f) && Counted(configs, history, j, g)
  {
    var m, o := history[i], history[j];
    m.name == o.name && Identical(Bordered(m.tags, BUCKET_INF), Bordered(o.tags, BUCKET_INF)) ==>
      Bordered(m.tags, BUCKET_INF) == Bordered(o.tags, BUCKET_INF) &&
      (f == g ==>
         var b := Borders(configs, m.name, f).value;
         Tally(b, Numbers(history, m.id, f)) == Tally(b, Numbers(history, o.id, f)))
  }

  lemma ClearIffHistory(cache: map<nat, Collection>, configs: seq<Config>, history: seq<Metric>)
    requires Describes(cache, configs, history) && Consistent(history)
    ensures Clear(cache) <==> ClearHistory(configs, history)
  {
    hide Describes, Consistent, Clear, ClearHistory;
    if Clear(cache) {
      ClearGivesHistory(cache, configs, history);
    }
    if ClearHistory(configs, history) {
      HistoryGivesClear(cache, configs, history);
    }
  }

  lemma ClearGivesHistory(cache: map<nat, Collection>, configs: seq<Config>, history: seq<Metric>)
    requires Describes(cache, configs, history) && Consistent(history) && Clear(cache)
    ensures ClearHistory(configs, history)
  {
    hide Describes, Consistent, Borders, Seen, Numbers, Tally, Identical, Bordered, Ascending;
    DescribedIsKept(cache, configs, history);
    forall i: nat, j: nat, f, g | Counted(configs, history, i, f) && Counted(configs, history, j, g)
      ensures ClearMetrics(configs, history, i, j, f, g)
    {
      SeenHas(cache, configs, history, i, f);
      SeenHas(cache, configs, history, j, g);
      HasIsEmitting(cache, (history[i].id, f));
      HasIsEmitting(cache, (history[j].id, g));
      assert ClearPair(cache[history[i].id], cache[history[j].id]);
    }
  }

  lemma HistoryGivesClear(cache: map<nat, Collection>, configs: seq<Config>, history: seq<Metric>)
    requires Describes(cache, configs, history) && Consistent(history) && ClearHistory(configs, history)
    ensures Clear(cache)
  {
    hide Describes, Consistent, ClearPair;
    DescribedIsKept(cache, configs, history);
    forall id, jd | Emitting(cache, id) && Emitting(cache, jd) ensures ClearPair(cache[id], cache[jd]) {
      HistoryGivesPair(cache, configs, history, id, jd);
    }
  }

  lemma HistoryGivesPair(cache: map<nat, Collection>, configs: seq<Config>, history: seq<Metric>, id: nat, jd: nat)
    requires Describes(cache, configs, history) && Consistent(history) && ClearHistory(configs, history)
    requires Kept(cache, configs, history) && Emitting(cache, id) && Emitting(cache, jd)
    ensures ClearPair(cache[id], cache[jd])
  {
    hide Describes, Consistent, Borders, Seen, Numbers, Tally, Identical, Bordered, Ascending;
    var i := Member(cache, configs, history, id);
    var j := Member(cache, configs, history, jd);
    var f :| f in cache[id].counts;
    var g :| g in cache[jd].counts;
    SeenHas(cache, configs, history, i, f);
    SeenHas(cache, configs, history, j, g);
    assert Has(cache, (id, f)) && Has(cache, (jd, g));
    assert ClearMetrics(configs, history, i, j, f, g);
    forall h | h in cache[id].counts && h in cache[jd].counts && cache[id].name == cache[jd].name &&
               Identical(TotalTags(cache[id]), TotalTags(cache[jd]))
      ensures cache[id].counts[h] == cache[jd].counts[h]
    {
      SeenHas(cache, configs, history, i, h);
      SeenHas(cache, configs, history, j, h);
      assert Has(cache, (id, h)) && Has(cache, (jd, h));
      assert ClearMetrics(configs, history, i, j, h, h);
    }
  }

  /**
   In terms of the metrics received: whatever they are, every order of going through the maps reports all
   of them right if and only if no two of their series are taken for another.
   */
  lemma PushReportsIff(cache: map<nat, Collection>, configs: seq<Config>, history: seq<Metric>, format: real -> string)
    requires Describes(cache, configs, history) && Consistent(history) && GoodFormats(format, configs)
    ensures ClearHistory(configs, history) <==>
            forall order :: IsOrder(order, cache) ==>
              Reported(PushedIn(cache, configs, Visits(order), format), configs, history, format)
  {
    hide Describes, Consistent, GoodFormats, Clear, ClearHistory, IsOrder, EmitsAll, Reported, Kept;
    DescribedIsKept(cache, configs, history);
    ClearIffHistory(cache, configs, history);
    if Clear(cache) {
      forall order | IsOrder(order, cache)
        ensures Reported(PushedIn(cache, configs, Visits(order), format), configs, history, format)
      {
        ClearIsRight(cache, configs, history, order, format);
        EmitsReported(PushedIn(cache, configs, Visits(order), format), cache, configs, history, format);
      }
    } else {
      var order := UnclearIsWrong(cache, configs, history, format);
      var groups := PushedIn(cache, configs, Visits(order), format);
      if Reported(groups, configs, history, format) {
        ReportedEmits(groups, cache, configs, history, format);
      }
    }
  }

  // ---------- Two metrics suffice ----------

  /** Two series of one name with one float field each. */
  function TwoSeries(name: string, t: map<string, string>, u: map<string, string>, f: string, v: real, w: real): seq<Metric> {
    [Metric(1, name, t, [Field(f, Float(v))], 0), Metric(2, name, u, [Field(f, Float(w))], 0)]
  }

  function OneBorder(name: string, c: real): seq<Config> {
    [Config(name, [], Some([c]))]
  }

  lemma OneBorderIs(name: string, f: string, c: real)
    ensures Borders(OneBorder(name, c), name, f) == Some([c])
  {
    assert [c][1..] == [] && Sort([c]) == [c];
  }

  lemma TwoSeriesCounted(name: string, t: map<string, string>, u: map<string, string>, f: string, v: real, w: real, c: real)
    ensures var history, configs := TwoSeries(name, t, u, f, v, w), OneBorder(name, c);
            Consistent(history) && Counted(configs, history, 0, f) && Counted(configs, history, 1, f) &&
            Numbers(history, 1, f) == [v] && Numbers(history, 2, f) == [w]
  {
    var history := TwoSeries(name, t, u, f, v, w);
    OneBorderIs(name, f, c);
    hide Borders;
    assert HasField(history[0].fields, f) by { assert history[0].fields[0].key == f; }
    assert HasField(history[1].fields, f) by { assert history[1].fields[0].key == f; }
    OneNumber(f, v);
    OneNumber(f, w);
    hide HasField, FieldNumbers;
    assert history[..1] == [history[0]] && [history[0]][..0] == [];
    assert Numbers([history[0]], 1, f) == [] + [v] && Numbers([history[0]], 2, f) == [] + [];
  }

  lemma OneNumber(f: string, v: real)
    ensures FieldNumbers([Field(f, Float(v))], f) == [v]
  {
    assert [Field(f, Float(v))][..0] == [];
  }

  lemma DifferentSides(v: real, w: real, c: real)
    requires v <= c < w
    ensures Tally([c], [v]) != Tally([c], [w])
  {
    hide Tally;
    OneAtMost(v, c);
    OneAtMost(w, c);
    TalliesTell([c], [v], [w]);
    assert [c][0] == c;
  }

  lemma OneAtMost(v: real, c: real)
    ensures AtMost([v], c) == if v <= c then 1 else 0
  {
    assert [v][..0] == [];
  }

  /** Series that differ only in a tag named like the border's, on both sides of a border. */
  lemma BorderTagLosesCounts(name: string, t: map<string, string>, x: string, y: string, f: string,
                             v: real, w: real, c: real, cache: map<nat, Collection>, format: real -> string)
    returns (order: seq<Turn>)
    requires v <= c < w
    requires var history := TwoSeries(name, Bordered(t, x), Bordered(t, y), f, v, w);
             Describes(cache, OneBorder(name, c), history) && GoodFormats(format, OneBorder(name, c))
    ensures var history := TwoSeries(name, Bordered(t, x), Bordered(t, y), f, v, w);
            var configs := OneBorder(name, c);
            IsOrder(order, cache) &&
            !Reported(PushedIn(cache, configs, Visits(order), format), configs, history, format)
  {
    hide Describes, GoodFormats, IsOrder, Reported, Numbers, Consistent, Seen, Borders;
    var history, configs := TwoSeries(name, Bordered(t, x), Bordered(t, y), f, v, w), OneBorder(name, c);
    TwoSeriesCounted(name, Bordered(t, x), Bordered(t, y), f, v, w, c);
    OneBorderIs(name, f, c);
    DifferentSides(v, w, c);
    assert Bordered(Bordered(t, x), BUCKET_INF) == Bordered(t, BUCKET_INF);
    assert Bordered(Bordered(t, y), BUCKET_INF) == Bordered(t, BUCKET_INF);
    hide Tally, Bordered, Identical;
    SelfIdentical(Bordered(Bordered(t, x), BUCKET_INF));
    assert !ClearMetrics(configs, history, 0, 1, f, f);
    order := WrongOrder(cache, configs, history, format);
  }

  /** Series one of which has a tag with an empty value where the other has another tag. */
  lemma EmptyValueLosesCounts(name: string, t: map<string, string>, k: string, l: string, s: string, f: string,
                              v: real, w: real, c: real, cache: map<nat, Collection>, format: real -> string)
    returns (order: seq<Turn>)
    requires k !in t && l !in t && k != l && k != BUCKET_TAG && l != BUCKET_TAG
    requires var history := TwoSeries(name, t[k := ""], t[l := s], f, v, w);
             Describes(cache, OneBorder(name, c), history) && GoodFormats(format, OneBorder(name, c))
    ensures var history := TwoSeries(name, t[k := ""], t[l := s], f, v, w);
            var configs := OneBorder(name, c);
            IsOrder(order, cache) &&
            !Reported(PushedIn(cache, configs, Visits(order), format), configs, history, format)
  {
    hide Describes, GoodFormats, IsOrder, Reported, Numbers, Consistent, Seen, Borders, Tally;
    var history, configs := TwoSeries(name, t[k := ""], t[l := s], f, v, w), OneBorder(name, c);
    TwoSeriesCounted(name, t[k := ""], t[l := s], f, v, w, c);
    EmptyIsIdentical(t, k, l, s);
    assert !ClearMetrics(configs, history, 0, 1, f, f);
    order := WrongOrder(cache, configs, history, format);
  }

  lemma EmptyIsIdentical(t: map<string, string>, k: string, l: string, s: string)
    requires k !in t && l !in t && k != l && k != BUCKET_TAG && l != BUCKET_TAG
    ensures var a, b := Bordered(t[k := ""], BUCKET_INF), Bordered(t[l := s], BUCKET_INF); Identical(a, b) && a != b
  {
    BorderedAfter(t, k, "", BUCKET_INF);
    BorderedAfter(t, l, s, BUCKET_INF);
    hide Identical, Bordered;
    var r := Bordered(t, BUCKET_INF);
    EmptyValueCollides(r[k := ""], k, l, s);
    assert (r[k := ""] - {k})[l := s] == r[l := s];
  }

  lemma BorderedAfter(t: map<string, string>, k: string, v: string, x: string)
    requires k !in t && k != BUCKET_TAG
    ensures Bordered(t[k := v], x) == Bordered(t, x)[k := v] && k !in Bordered(t, x)
  {}

  lemma WrongOrder(cache: map<nat, Collection>, configs: seq<Config>, history: seq<Metric>, format: real -> string)
    returns (order: seq<Turn>)
    requires Describes(cache, configs, history) && Consistent(history) && GoodFormats(format, configs)
    requires !ClearHistory(configs, history)
    ensures IsOrder(order, cache)
    ensures !Reported(PushedIn(cache, configs, Visits(order), format), configs, history, format)
  {
    hide Describes, Consistent, GoodFormats, ClearHistory, IsOrder, Reported;
    PushReportsIff(cache, configs, history, format);
    order :| IsOrder(order, cache) &&
      !Reported(PushedIn(cache, configs, Visits(order), format), configs, history, format);
  }

  // ---------- Formats ----------

  function AllBuckets(configs: seq<Config>): seq<real> {
    if configs == [] then []
    else
      var c := configs[|configs| - 1];
      AllBuckets(configs[..|configs| - 1]) + if c.buckets.Some? then c.buckets.value else []
  }

  lemma {:induction false} BorderIsBucket(configs: seq<Config>, metric: string, field: string, x: real)
    requires Borders(configs, metric, field).Some? && x in Borders(configs, metric, field).value
    ensures x in AllBuckets(configs)
  {
    var c := configs[|configs| - 1];
    if c.Covers(metric, field) {
      SortSorts(c.buckets.value);
      assert x in multiset(Sort(c.buckets.value));
    } else {
      BorderIsBucket(configs[..|configs| - 1], metric, field, x);
    }
  }

  /** As many strokes as there are numbers before the first one equal to `x`, and one more. */
  function Strokes(all: seq<real>, x: real): (s: string)
    ensures s != "" && forall i :: 0 <= i < |s| ==> s[i] == '1'
  {
    if all == [] || all[0] == x then "1" else "1" + Strokes(all[1..], x)
  }

  lemma {:induction false} StrokesDiffer(all: seq<real>, x: real, y: real)
    requires x in all && y in all && Strokes(all, x) == Strokes(all, y)
    ensures x == y
  {
    if all[0] != x && all[0] != y {
      assert ("1" + Strokes(all[1..], x))[1..] == Strokes(all[1..], x);
      assert ("1" + Strokes(all[1..], y))[1..] == Strokes(all[1..], y);
      StrokesDiffer(all[1..], x, y);
    } else {
      assert |Strokes(all, x)| == |Strokes(all, y)|;
    }
  }

  /** Whatever the configs, there are formats that keep their borders apart. */
  lemma GoodFormatsExist(configs: seq<Config>) returns (format: real -> string)
    ensures GoodFormats(format, configs)
  {
    var all := AllBuckets(configs);
    format := x => Strokes(all, x);
    hide Borders, AllBuckets;
    forall m, f | Borders(configs, m, f).Some? ensures GoodFormat(format, Borders(configs, m, f).value) {
      var b := Borders(configs, m, f).value;
      forall i | 0 <= i < |b| ensures b[i] in all { BorderIsBucket(configs, m, f, b[i]); }
      forall i, j | 0 <= i < |b| && 0 <= j < |b| && format(b[i]) == format(b[j]) ensures b[i] == b[j] {
        StrokesDiffer(all, b[i], b[j]);
      }
      forall i | 0 <= i < |b| ensures format(b[i]) != "" && format(b[i]) != BUCKET_INF {
        assert format(b[i])[0] == '1' && BUCKET_INF[0] == '+';
      }
    }
  }
}
