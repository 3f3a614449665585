/**
 What the histogram aggregator emits: counts grouped by name and tags, the border being one more tag.
 Go walks its maps in any order, so a push is a function of an order, and the question is for which
 caches every order emits the right counts.
 */
module HistogramGroups {
  import opened Buckets
  import opened HistogramCounts
  import opened Options
  import opened Series

  const BUCKET_TAG := "le"
  const BUCKET_INF := "+Inf"

  datatype Group = Group(name: string, tags: map<string, string>, fields: map<string, nat>)

  /** isTagsIdentical: a missing tag reads as an empty value. */
  predicate Identical(a: map<string, string>, b: map<string, string>) {
    |a| == |b| && forall k :: k in a ==> a[k] == if k in b then b[k] else ""
  }

  ghost predicate NoEmptyValues(tags: map<string, string>) {
    forall k :: k in tags ==> tags[k] != ""
  }

  lemma SameSize(a: map<string, string>, b: map<string, string>)
    requires |a| == |b| && a.Keys <= b.Keys
    ensures a.Keys == b.Keys
  {
    assert |a.Keys| == |a| == |b| == |b.Keys|;
    assert |b.Keys - a.Keys| == |b.Keys| - |a.Keys|;
    assert b.Keys - a.Keys == {};
  }

  lemma NoneEmptyIsEqual(a: map<string, string>, b: map<string, string>)
    requires NoEmptyValues(a)
    ensures Identical(a, b) <==> a == b
  {
    if Identical(a, b) {
      assert a.Keys <= b.Keys;
      SameSize(a, b);
    }
  }

  /** The comparison means equality with every other tag set exactly when no value is empty. */
  lemma IdenticalIsEqualIff(a: map<string, string>, other: string)
    requires other !in a
    ensures (forall b :: Identical(a, b) <==> a == b) <==> NoEmptyValues(a)
  {
    if NoEmptyValues(a) {
      forall b ensures Identical(a, b) <==> a == b {
        NoneEmptyIsEqual(a, b);
      }
    } else {
      var k :| k in a && a[k] == "";
      EmptyValueCollides(a, k, other, "");
    }
  }

  /** A tag set with an empty value is taken for one without it. */
  lemma EmptyValueCollides(a: map<string, string>, k: string, other: string, value: string)
    requires k in a && a[k] == "" && other !in a
    ensures var b := (a - {k})[other := value]; Identical(a, b) && a != b
  {
    var b := (a - {k})[other := value];
    assert b.Keys == a.Keys - {k} + {other};
    assert |b.Keys| == |a.Keys| && |a| == |a.Keys| && |b| == |b.Keys|;
    assert other in b;
  }

  function Bordered(tags: map<string, string>, border: string): map<string, string> {
    tags[BUCKET_TAG := border]
  }

  /** Tag sets with a border compare alike whatever the border is, unless it is empty. */
  lemma BordersCompareAlike(t: map<string, string>, u: map<string, string>, x: string, y: string, z: string)
    requires x != "" && Identical(Bordered(t, x), Bordered(u, y))
    ensures x == y && Identical(Bordered(t, z), Bordered(u, z))
  {
    var a, b, c, d := Bordered(t, x), Bordered(u, y), Bordered(t, z), Bordered(u, z);
    assert BUCKET_TAG in a && a[BUCKET_TAG] == x && b[BUCKET_TAG] == y;
    assert a.Keys == c.Keys && b.Keys == d.Keys;
    assert |c| == |c.Keys| && |d| == |d.Keys| && |a| == |a.Keys| && |b| == |b.Keys|;
    forall k | k in c ensures c[k] == if k in d then d[k] else "" {
      assert k in a;
    }
  }

  lemma EqualWhateverBorder(t: map<string, string>, u: map<string, string>, x: string, z: string)
    requires Bordered(t, x) == Bordered(u, x)
    ensures Bordered(t, z) == Bordered(u, z)
  {
    assert Bordered(t, z) == Bordered(t, x)[BUCKET_TAG := z];
    assert Bordered(u, z) == Bordered(u, x)[BUCKET_TAG := z];
  }

  lemma BorderedEqualIff(t: map<string, string>, u: map<string, string>, x: string)
    ensures Bordered(t, x) == Bordered(u, x) <==> t - {BUCKET_TAG} == u - {BUCKET_TAG}
  {
    var v, w := Bordered(t, x), Bordered(u, x);
    assert t - {BUCKET_TAG} == v - {BUCKET_TAG} && u - {BUCKET_TAG} == w - {BUCKET_TAG};
    assert v == (v - {BUCKET_TAG})[BUCKET_TAG := x] && w == (w - {BUCKET_TAG})[BUCKET_TAG := x];
  }

  // ---------- One count ----------

  /** The count emitted for a field under a name and tags. */
  function At(groups: seq<Group>, name: string, tags: map<string, string>, field: string): Option<nat> {
    if groups == [] then None
    else if groups[0].name == name && groups[0].tags == tags then
      (if field in groups[0].fields then Some(groups[0].fields[field]) else None)
    else At(groups[1..], name, tags, field)
  }

  /** groupField, as the list it leaves. */
  function Grouped(groups: seq<Group>, name: string, tags: map<string, string>, field: string, count: nat): seq<Group> {
    if groups == [] then [Group(name, tags, map[field := count])]
    else if groups[0].name == name && Identical(tags, groups[0].tags) then
      [groups[0].(fields := groups[0].fields[field := count])] + groups[1..]
    else [groups[0]] + Grouped(groups[1..], name, tags, field, count)
  }

  method GroupField(groups: seq<Group>, name: string, tags: map<string, string>, field: string, count: nat)
    returns (after: seq<Group>)
    ensures after == Grouped(groups, name, tags, field, count)
  {
    hide Identical, Grouped;
    assert groups[..0] + groups[0..] == groups && groups[0..] == groups;
    for i := 0 to |groups|
      invariant Grouped(groups, name, tags, field, count) ==
                groups[..i] + Grouped(groups[i..], name, tags, field, count)
    {
      UnfoldGrouped(groups, i, name, tags, field, count);
      if groups[i].name == name && Identical(tags, groups[i].tags) {
        return groups[..i] + ([groups[i].(fields := groups[i].fields[field := count])] + groups[i + 1..]);
      }
      SnocCons(groups, i, Grouped(groups[i + 1..], name, tags, field, count));
    }
    assert groups[|groups|..] == [] && groups[..|groups|] == groups;
    UngroupedYet(name, tags, field, count);
    after := groups + [Group(name, tags, map[field := count])];
  }

  lemma SnocCons(groups: seq<Group>, i: nat, rest: seq<Group>)
    requires i < |groups|
    ensures groups[..i] + ([groups[i]] + rest) == groups[..i + 1] + rest
  {}

  lemma UngroupedYet(name: string, tags: map<string, string>, field: string, count: nat)
    ensures Grouped([], name, tags, field, count) == [Group(name, tags, map[field := count])]
  {}

  lemma UnfoldGrouped(groups: seq<Group>, i: nat, name: string, tags: map<string, string>, field: string, count: nat)
    requires i < |groups|
    ensures Grouped(groups[i..], name, tags, field, count) ==
            if groups[i].name == name && Identical(tags, groups[i].tags)
            then [groups[i].(fields := groups[i].fields[field := count])] + groups[i + 1..]
            else [groups[i]] + Grouped(groups[i + 1..], name, tags, field, count)
  {
    hide Identical;
    assert groups[i..][1..] == groups[i + 1..];
  }

  ghost predicate HasGroup(groups: seq<Group>, name: string, tags: map<string, string>) {
    exists i :: 0 <= i < |groups| && groups[i].name == name && groups[i].tags == tags
  }

  /** Some group is taken for that of these tags. */
  ghost predicate Matched(groups: seq<Group>, name: string, tags: map<string, string>) {
    exists i :: 0 <= i < |groups| && groups[i].name == name && Identical(tags, groups[i].tags)
  }

  /** No group of other tags is taken for that of these. */
  ghost predicate Unconfused(groups: seq<Group>, name: string, tags: map<string, string>) {
    forall i :: 0 <= i < |groups| && groups[i].name == name && Identical(tags, groups[i].tags) ==> groups[i].tags == tags
  }

  lemma ConsGroup(g: Group, groups: seq<Group>, n: string, t: map<string, string>)
    ensures HasGroup([g] + groups, n, t) <==> (g.name == n && g.tags == t) || HasGroup(groups, n, t)
    ensures Matched([g] + groups, n, t) <==> (g.name == n && Identical(t, g.tags)) || Matched(groups, n, t)
    ensures Unconfused([g] + groups, n, t) <==>
            (g.name == n && Identical(t, g.tags) ==> g.tags == t) && Unconfused(groups, n, t)
  {
    hide Identical;
    var all := [g] + groups;
    assert all[0] == g && forall i :: 0 <= i < |groups| ==> all[i + 1] == groups[i];
    assert forall i :: 0 < i < |all| ==> all[i] == groups[i - 1];
  }

  /** groupField adds a group only where none is taken for it, and takes none away. */
  lemma {:induction false} GroupedGroups(groups: seq<Group>, name: string, tags: map<string, string>, field: string,
                                         count: nat, n: string, t: map<string, string>)
    ensures HasGroup(Grouped(groups, name, tags, field, count), n, t) <==>
            HasGroup(groups, n, t) || (n == name && t == tags && !Matched(groups, name, tags))
  {
    hide Identical, HasGroup, Matched, Unconfused, Grouped;
    if groups == [] {
      UngroupedYet(name, tags, field, count);
      ConsGroup(Group(name, tags, map[field := count]), [], n, t);
      assert [Group(name, tags, map[field := count])] + [] == [Group(name, tags, map[field := count])];
      NoGroups(n, t);
      NoGroups(name, tags);
    } else {
      var g, rest := groups[0], groups[1..];
      assert groups == [g] + rest && groups[0..] == groups;
      UnfoldGrouped(groups, 0, name, tags, field, count);
      ConsGroup(g, rest, n, t);
      ConsGroup(g, rest, name, tags);
      if g.name == name && Identical(tags, g.tags) {
        ConsGroup(g.(fields := g.fields[field := count]), rest, n, t);
      } else {
        GroupedGroups(rest, name, tags, field, count, n, t);
        ConsGroup(g, Grouped(rest, name, tags, field, count), n, t);
      }
    }
  }

  lemma NoGroups(n: string, t: map<string, string>)
    ensures !HasGroup([], n, t) && !Matched([], n, t)
  {}

  /** The tags of the first group taken for these, or these themselves. */
  function TakenFor(groups: seq<Group>, name: string, tags: map<string, string>): map<string, string> {
    if groups == [] then tags
    else if groups[0].name == name && Identical(tags, groups[0].tags) then groups[0].tags
    else TakenFor(groups[1..], name, tags)
  }

  /** Confused or not, grouping sets one count, that under the tags of the group taken, and leaves every other alone. */
  lemma {:induction false} GroupedSetsTaken(groups: seq<Group>, name: string, tags: map<string, string>, field: string,
                                            count: nat, n: string, t: map<string, string>, f: string)
    ensures At(Grouped(groups, name, tags, field, count), n, t, f) ==
            if n == name && t == TakenFor(groups, name, tags) && f == field then Some(count) else At(groups, n, t, f)
  {
    hide Identical;
    if groups != [] {
      var g, rest := groups[0], groups[1..];
      var after := Grouped(groups, name, tags, field, count);
      if g.name == name && Identical(tags, g.tags) {
        assert after[1..] == rest;
      } else {
        GroupedSetsTaken(rest, name, tags, field, count, n, t, f);
        assert after[1..] == Grouped(rest, name, tags, field, count);
        TakenIsIdentical(rest, name, tags);
      }
    }
  }

  lemma {:induction false} TakenIsIdentical(groups: seq<Group>, name: string, tags: map<string, string>)
    ensures Identical(tags, TakenFor(groups, name, tags))
  {
    hide Identical;
    if groups == [] {
      SelfIdentical(tags);
    } else {
      TakenIsIdentical(groups[1..], name, tags);
    }
  }

  /** Where tag sets are not confused, grouping sets one count and leaves every other alone. */
  lemma {:induction false} GroupedSets(groups: seq<Group>, name: string, tags: map<string, string>, field: string,
                                       count: nat, n: string, t: map<string, string>, f: string)
    requires Unconfused(groups, name, tags)
    ensures At(Grouped(groups, name, tags, field, count), n, t, f) ==
            if n == name && t == tags && f == field then Some(count) else At(groups, n, t, f)
  {
    hide Unconfused, Identical;
    if groups != [] {
      var g, rest := groups[0], groups[1..];
      assert groups == [g] + rest;
      ConsGroup(g, rest, name, tags);
      var after := Grouped(groups, name, tags, field, count);
      assert Identical(tags, tags) by { SelfIdentical(tags); }
      if g.name == name && Identical(tags, g.tags) {
        assert after[1..] == rest;
      } else {
        GroupedSets(rest, name, tags, field, count, n, t, f);
        assert after[1..] == Grouped(rest, name, tags, field, count);
      }
    }
  }

  lemma SelfIdentical(tags: map<string, string>)
    ensures Identical(tags, tags)
  {}

  lemma {:induction false} CountHasGroup(groups: seq<Group>, name: string, tags: map<string, string>, field: string)
    requires At(groups, name, tags, field).Some?
    ensures HasGroup(groups, name, tags)
  {
    hide HasGroup;
    var g, rest := groups[0], groups[1..];
    assert groups == [g] + rest;
    ConsGroup(g, rest, name, tags);
    if !(g.name == name && g.tags == tags) {
      CountHasGroup(rest, name, tags, field);
    }
  }

  // ---------- One field ----------

  /** The loop of groupFieldsByBuckets over the first `n` borders. */
  function EmitBorders(groups: seq<Group>, name: string, field: string, tags: map<string, string>,
                       b: seq<real>, counts: seq<nat>, format: real -> string, n: nat): seq<Group>
    requires |counts| == |b| + 1 && n <= |b|
  {
    if n == 0 then groups
    else Grouped(EmitBorders(groups, name, field, tags, b, counts, format, n - 1),
                 name, Bordered(tags, format(b[n - 1])), field, Cumulated(counts, n))
  }

  /** groupFieldsByBuckets, as the list it leaves. */
  function EmitField(groups: seq<Group>, name: string, field: string, tags: map<string, string>,
                     b: seq<real>, counts: seq<nat>, format: real -> string): seq<Group>
    requires |counts| == |b| + 1
  {
    Grouped(EmitBorders(groups, name, field, tags, b, counts, format, |b|),
            name, Bordered(tags, BUCKET_INF), field, Cumulated(counts, |counts|))
  }

  /** groupFieldsByBuckets: running sums for the borders, then the sum of all. */
  method GroupFieldsByBuckets(groups: seq<Group>, name: string, field: string, tags: map<string, string>,
                              b: seq<real>, counts: seq<nat>, format: real -> string)
    returns (after: seq<Group>)
    requires |counts| == |b| + 1
    ensures after == EmitField(groups, name, field, tags, b, counts, format)
  {
    hide Grouped;
    after := groups;
    var count := 0;
    for j := 0 to |b|
      invariant count == Cumulated(counts, j)
      invariant after == EmitBorders(groups, name, field, tags, b, counts, format, j)
    {
      count := count + counts[j];
      after := GroupField(after, name, Bordered(tags, format(b[j])), field, count);
    }
    count := count + counts[|counts| - 1];
    after := GroupField(after, name, Bordered(tags, BUCKET_INF), field, count);
  }

  /** strconv.FormatFloat on these borders: different borders have different texts, none empty or "+Inf". */
  ghost predicate GoodFormat(format: real -> string, b: seq<real>) {
    (forall i, j :: 0 <= i < |b| && 0 <= j < |b| && format(b[i]) == format(b[j]) ==> b[i] == b[j]) &&
    forall i :: 0 <= i < |b| ==> format(b[i]) != "" && format(b[i]) != BUCKET_INF
  }

  /** These are the tags of a series with a border added. */
  predicate IsBorderOf(t: map<string, string>, tags: map<string, string>) {
    BUCKET_TAG in t && t[BUCKET_TAG] != "" && t == Bordered(tags, t[BUCKET_TAG])
  }

  /** The counts emitted so far for one field: for each of the first `n` borders, the values up to it. */
  ghost predicate Emitted(groups: seq<Group>, before: seq<Group>, name: string, tags: map<string, string>, field: string,
                          b: seq<real>, xs: seq<real>, n: nat, format: real -> string)
    requires n <= |b|
  {
    (forall j :: 0 <= j < n ==> At(groups, name, Bordered(tags, format(b[j])), field) == Some(AtMost(xs, b[j]))) &&
    (forall m, t, f :: !(m == name && f == field && IsBorderOf(t, tags)) ==>
       At(groups, m, t, f) == At(before, m, t, f))
  }

  /** No group is taken for one of this series with a border. */
  ghost predicate Separate(groups: seq<Group>, name: string, tags: map<string, string>) {
    forall x :: x != "" ==> Unconfused(groups, name, Bordered(tags, x))
  }

  /** Groups of the series itself do not confuse it. */
  lemma StaysSeparate(groups: seq<Group>, name: string, tags: map<string, string>, x: string, field: string, count: nat)
    requires Separate(groups, name, tags) && x != ""
    ensures Separate(Grouped(groups, name, Bordered(tags, x), field, count), name, tags)
  {
    hide Grouped, Identical, Bordered, HasGroup, Matched;
    var key := Bordered(tags, x);
    var after := Grouped(groups, name, key, field, count);
    forall y, i | y != "" && 0 <= i < |after| && after[i].name == name && Identical(Bordered(tags, y), after[i].tags)
      ensures after[i].tags == Bordered(tags, y)
    {
      var t := after[i].tags;
      GroupedGroups(groups, name, key, field, count, name, t);
      assert HasGroup(after, name, t) by { GroupThere(after, i); }
      if HasGroup(groups, name, t) {
        GroupUnconfused(groups, name, Bordered(tags, y), t);
      } else {
        BordersCompareAlike(tags, tags, y, x, y);
      }
    }
  }

  lemma GroupThere(groups: seq<Group>, i: nat)
    requires i < |groups|
    ensures HasGroup(groups, groups[i].name, groups[i].tags)
  {}

  lemma GroupUnconfused(groups: seq<Group>, name: string, tags: map<string, string>, t: map<string, string>)
    requires Unconfused(groups, name, tags) && HasGroup(groups, name, t) && Identical(tags, t)
    ensures t == tags
  {
    hide Identical;
  }

  /** After the first `n` borders of a separate series. */
  lemma {:induction false} BordersEmitted(groups: seq<Group>, name: string, field: string, tags: map<string, string>,
                                          b: seq<real>, xs: seq<real>, format: real -> string, n: nat)
    requires n <= |b| && Ascending(b) && GoodFormat(format, b) && Separate(groups, name, tags)
    ensures var after := EmitBorders(groups, name, field, tags, b, Tally(b, xs), format, n);
            Emitted(after, groups, name, tags, field, b, xs, n, format) && Separate(after, name, tags)
  {
    hide At, Tally, Cumulated, Grouped, Separate, Emitted, GoodFormat, Ascending;
    var counts := Tally(b, xs);
    if n == 0 {
      NothingEmitted(groups, name, tags, field, b, xs, format);
    } else {
      var before := EmitBorders(groups, name, field, tags, b, counts, format, n - 1);
      BordersEmitted(groups, name, field, tags, b, xs, format, n - 1);
      CumulatedCounts(b, xs, n - 1);
      assert format(b[n - 1]) != "" by { TextOf(format, b, n - 1); }
      StaysSeparate(before, name, tags, format(b[n - 1]), field, Cumulated(counts, n));
      EmitBorder(before, groups, name, tags, field, b, xs, n - 1, format);
    }
  }

  lemma NothingEmitted(groups: seq<Group>, name: string, tags: map<string, string>, field: string,
                       b: seq<real>, xs: seq<real>, format: real -> string)
    ensures Emitted(groups, groups, name, tags, field, b, xs, 0, format)
  {}

  lemma TextOf(format: real -> string, b: seq<real>, i: nat)
    requires GoodFormat(format, b) && i < |b|
    ensures format(b[i]) != "" && format(b[i]) != BUCKET_INF
  {}

  lemma EmitBorder(groups: seq<Group>, before: seq<Group>, name: string, tags: map<string, string>, field: string,
                   b: seq<real>, xs: seq<real>, j: nat, format: real -> string)
    requires j < |b| && GoodFormat(format, b) && Separate(groups, name, tags)
    requires Emitted(groups, before, name, tags, field, b, xs, j, format)
    ensures Emitted(Grouped(groups, name, Bordered(tags, format(b[j])), field, AtMost(xs, b[j])),
                    before, name, tags, field, b, xs, j + 1, format)
  {
    hide At, AtMost, Grouped, Unconfused;
    var key, count := Bordered(tags, format(b[j])), AtMost(xs, b[j]);
    assert Unconfused(groups, name, key);
    forall n, t, f ensures At(Grouped(groups, name, key, field, count), n, t, f) ==
                           if n == name && t == key && f == field then Some(count) else At(groups, n, t, f)
    {
      GroupedSets(groups, name, key, field, count, n, t, f);
    }
    forall i | 0 <= i < j + 1 ensures Bordered(tags, format(b[i])) == key ==> b[i] == b[j] {
      assert Bordered(tags, format(b[i]))[BUCKET_TAG] == format(b[i]) && key[BUCKET_TAG] == format(b[j]);
    }
  }

  /** A field of a separate series: every border, the total, and no count of anything else. */
  lemma FieldEmitted(groups: seq<Group>, name: string, field: string, tags: map<string, string>,
                     b: seq<real>, xs: seq<real>, format: real -> string)
    requires Ascending(b) && GoodFormat(format, b) && Separate(groups, name, tags)
    ensures var after := EmitField(groups, name, field, tags, b, Tally(b, xs), format);
            Emitted(after, groups, name, tags, field, b, xs, |b|, format) &&
            At(after, name, Bordered(tags, BUCKET_INF), field) == Some(|xs|)
  {
    hide At, Tally, Cumulated, Grouped, Emitted, GoodFormat, Ascending, EmitBorders, Unconfused;
    BordersEmitted(groups, name, field, tags, b, xs, format, |b|);
    CumulatedCounts(b, xs, |b|);
    var last := EmitBorders(groups, name, field, tags, b, Tally(b, xs), format, |b|);
    assert Unconfused(last, name, Bordered(tags, BUCKET_INF));
    EmitTotal(last, groups, name, tags, field, b, xs, format);
  }

  lemma EmitTotal(groups: seq<Group>, before: seq<Group>, name: string, tags: map<string, string>, field: string,
                  b: seq<real>, xs: seq<real>, format: real -> string)
    requires GoodFormat(format, b) && Unconfused(groups, name, Bordered(tags, BUCKET_INF))
    requires Emitted(groups, before, name, tags, field, b, xs, |b|, format)
    ensures var after := Grouped(groups, name, Bordered(tags, BUCKET_INF), field, |xs|);
            Emitted(after, before, name, tags, field, b, xs, |b|, format) &&
            At(after, name, Bordered(tags, BUCKET_INF), field) == Some(|xs|)
  {
    hide At, AtMost, Grouped, Unconfused;
    var key := Bordered(tags, BUCKET_INF);
    forall n, t, f ensures At(Grouped(groups, name, key, field, |xs|), n, t, f) ==
                           if n == name && t == key && f == field then Some(|xs|) else At(groups, n, t, f)
    {
      GroupedSets(groups, name, key, field, |xs|, n, t, f);
    }
    forall i | 0 <= i < |b| ensures Bordered(tags, format(b[i])) != key {
      assert Bordered(tags, format(b[i]))[BUCKET_TAG] == format(b[i]);
      assert key[BUCKET_TAG] == BUCKET_INF;
    }
  }

  /** Groups are only added for this name and these tags with a border. */
  lemma {:induction false} BordersGroups(groups: seq<Group>, name: string, field: string, tags: map<string, string>,
                                         b: seq<real>, counts: seq<nat>, format: real -> string, k: nat,
                                         n: string, t: map<string, string>)
    requires |counts| == |b| + 1 && k <= |b| && GoodFormat(format, b)
    ensures HasGroup(EmitBorders(groups, name, field, tags, b, counts, format, k), n, t) ==>
            HasGroup(groups, n, t) || (n == name && IsBorderOf(t, tags))
  {
    hide Grouped, HasGroup, Matched, GoodFormat, Cumulated;
    if k > 0 {
      BordersGroups(groups, name, field, tags, b, counts, format, k - 1, n, t);
      TextOf(format, b, k - 1);
      var key := Bordered(tags, format(b[k - 1]));
      assert key[BUCKET_TAG] == format(b[k - 1]);
      GroupedGroups(EmitBorders(groups, name, field, tags, b, counts, format, k - 1), name, key, field,
                    Cumulated(counts, k), n, t);
    }
  }

  lemma FieldGroups(groups: seq<Group>, name: string, field: string, tags: map<string, string>,
                    b: seq<real>, counts: seq<nat>, format: real -> string, n: string, t: map<string, string>)
    requires |counts| == |b| + 1 && GoodFormat(format, b)
    ensures HasGroup(EmitField(groups, name, field, tags, b, counts, format), n, t) ==>
            HasGroup(groups, n, t) || (n == name && IsBorderOf(t, tags))
  {
    hide Grouped, HasGroup, Matched, GoodFormat, Cumulated, EmitBorders;
    BordersGroups(groups, name, field, tags, b, counts, format, |b|, n, t);
    var key := Bordered(tags, BUCKET_INF);
    assert key[BUCKET_TAG] == BUCKET_INF;
    GroupedGroups(EmitBorders(groups, name, field, tags, b, counts, format, |b|), name, key, field,
                  Cumulated(counts, |counts|), n, t);
  }
}
