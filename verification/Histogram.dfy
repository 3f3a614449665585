/** The histogram aggregator (plugins/aggregators/histogram/histogram.go). */
module Histograms {
  import opened Buckets
  import opened HistogramCounts
  import opened HistogramGroups
  import opened HistogramPushes
  import opened Options
  import opened Series

  class Histogram {
    var configs: seq<Config>
    var buckets: map<(string, string), Option<seq<real>>>
    var cache: map<nat, Collection>
    ghost const initial: seq<Config>
    ghost var history: seq<Metric>

    ghost predicate ValidConfig()
      reads this
    {
      SameBorders(configs, initial) &&
      forall mf :: mf in buckets ==> buckets[mf] == Borders(initial, mf.0, mf.1)
    }

    ghost predicate Valid()
      reads this
    {
      ValidConfig() && Consistent(history) && Describes(cache, initial, history)
    }

    constructor (configs: seq<Config>)
      ensures Valid() && history == [] && initial == configs
    {
      this.configs, initial, buckets, cache, history := configs, configs, map[], map[], [];
    }

    /** getBuckets: memoised, and the same before and after the first call. */
    method GetBuckets(metric: string, field: string) returns (b: Option<seq<real>>)
      requires ValidConfig()
      modifies this`configs, this`buckets
      ensures ValidConfig() && b == Borders(initial, metric, field)
      ensures forall mf :: mf in old(buckets) ==> mf in buckets && buckets[mf] == old(buckets)[mf]
    {
      if (metric, field) in buckets {
        return buckets[(metric, field)];
      }
      ghost var known := buckets;
      b := None;
      assert configs[..0] == [];
      for i := 0 to |configs|
        invariant SameBorders(configs, initial)
        invariant b == Borders(configs[..i], metric, field)
        invariant b.Some? ==> (metric, field) in buckets
        invariant buckets == if (metric, field) in buckets then known[(metric, field) := b] else known
      {
        ghost var was := configs;
        if configs[i].Covers(metric, field) {
          b := SortConfig(i);
          buckets := buckets[(metric, field) := b];
        }
        NextConfig(was, configs, i, metric, field);
      }
      assert configs[..|configs|] == configs;
      SameBordersAgree(configs, initial, metric, field);
    }

    /** sortBuckets on the slice of config `i`, which it may sort in place. */
    method SortConfig(i: nat) returns (b: Option<seq<real>>)
      requires i < |configs| && SameBorders(configs, initial)
      modifies this`configs
      ensures SameBorders(configs, initial) && SameBorders(configs, old(configs)) && b == Sorted(old(configs)[i].buckets)
    {
      var c := configs[i];
      if c.buckets.None? {
        return None;
      }
      var sorted := SortBuckets(c.buckets.value);
      SortSorts(c.buckets.value);
      SortOfPermuted(sorted, c.buckets.value);
      configs := configs[i := c.(buckets := Some(sorted))];
      b := Some(sorted);
    }

    method Add(m: Metric)
      requires Valid() && Consistent(history + [m])
      modifies this
      ensures Valid() && history == old(history) + [m]
    {
      hide Describes, Consistent, Tallies, ForFields, SameBorders;
      StartTallies(cache, initial, history, m);
      var byField := FieldBuckets(m);
      if byField == map[] {
        NothingToCount(CountsOf(cache, m.id), byField, initial, history, m);
        DescribesAdded(cache, cache, initial, history, m);
        history := history + [m];
        return;
      }
      var agr := if m.id in cache then cache[m.id] else Collection(map[], m.name, m.tags);
      var counts := CountFields(agr.counts, m, byField, initial, history);
      if m.id in cache {
        CachedSeries(cache, initial, history, m);
      }
      ghost var was := cache;
      cache := cache[m.id := agr.(counts := counts)];
      DescribesAdded(was, cache, initial, history, m);
      history := history + [m];
    }

    /** The body of Push for one field of one series, whatever configs and memo look like by then. */
    method PushField(groups: seq<Group>, id: nat, field: string, format: real -> string) returns (after: seq<Group>)
      requires Valid() && Has(cache, (id, field))
      modifies this`configs, this`buckets
      ensures Valid() && after == EmitOf(groups, cache, initial, (id, field), format)
    {
      hide Describes, Consistent, EmitField;
      CachedTally(cache, initial, history, id, field);
      var b := GetBuckets(cache[id].name, field);
      after := GroupFieldsByBuckets(groups, cache[id].name, field, cache[id].tags, b.value, cache[id].counts[field], format);
    }

    /** The inner loop of Push: all fields of one series, in the order of `turn`. */
    method PushSeries(groups: seq<Group>, id: nat, format: real -> string, ghost before: seq<(nat, string)>)
      returns (after: seq<Group>, ghost turn: Turn)
      requires Valid() && id in cache && groups == PushedIn(cache, initial, before, format)
      modifies this`configs, this`buckets
      ensures Valid() && turn.id == id && EachOnce(turn.fields, cache[id].counts.Keys)
      ensures after == PushedIn(cache, initial, before + FieldsOf(turn), format)
    {
      hide Describes, Consistent, EmitOf, SameBorders, EachOnce, FieldsOf, PushedIn;
      StartTurn(cache, initial, id, before, format);
      after, turn := groups, Turn(id, []);
      var todo := cache[id].counts.Keys;
      while todo != {}
        invariant Valid() && todo <= cache[id].counts.Keys && turn.id == id
        invariant EachOnce(turn.fields, cache[id].counts.Keys - todo)
        invariant after == PushedIn(cache, initial, before + FieldsOf(turn), format)
        decreases todo
      {
        var field :| field in todo;
        after := PushField(after, id, field, format);
        VisitOneMore(cache, initial, before, turn, field, format);
        OnceMore(turn.fields, cache[id].counts.Keys - todo, field);
        assert cache[id].counts.Keys - todo + {field} == cache[id].counts.Keys - (todo - {field});
        turn := turn.(fields := turn.fields + [field]);
        todo := todo - {field};
      }
      assert cache[id].counts.Keys - todo == cache[id].counts.Keys;
    }

    /**
     Push: what it emits is determined by the order it goes through the cache in, which is any. If the
     cache is clear and the borders have different texts, every count reported is right and none is missing.
     */
    method Push(format: real -> string) returns (groups: seq<Group>, ghost order: seq<Turn>)
      requires Valid()
      modifies this`configs, this`buckets
      ensures Valid() && IsOrder(order, cache) && groups == PushedIn(cache, initial, Visits(order), format)
      ensures Clear(cache) && GoodFormats(format, initial) ==> Reported(groups, initial, history, format)
    {
      hide Describes, Consistent, SameBorders, Clear, GoodFormats, Reported, PushedIn, EachOnce, Visits;
      groups, order := [], [];
      var todo := cache.Keys;
      StartOrder(cache, initial, format);
      while todo != {}
        invariant Valid() && todo <= cache.Keys
        invariant IsPartOf(order, cache, cache.Keys - todo)
        invariant groups == PushedIn(cache, initial, Visits(order), format)
        decreases todo
      {
        var id :| id in todo;
        ghost var turn;
        groups, turn := PushSeries(groups, id, format, Visits(order));
        TurnOneMore(order, cache, cache.Keys - todo, turn);
        assert cache.Keys - todo + {id} == cache.Keys - (todo - {id});
        order := order + [turn];
        todo := todo - {id};
      }
      assert cache.Keys - todo == cache.Keys;
      DescribedIsKept(cache, initial, history);
      if Clear(cache) && GoodFormats(format, initial) {
        ClearIsRight(cache, initial, history, order, format);
        EmitsReported(groups, cache, initial, history, format);
      }
    }

    /** The first loop of Add: the borders for each field that has any. */
    method FieldBuckets(m: Metric) returns (byField: map<string, seq<real>>)
      requires ValidConfig()
      modifies this`configs, this`buckets
      ensures ValidConfig()
      ensures ForFields(byField, initial, m.name, m.fields)
    {
      byField := map[];
      for i := 0 to |m.fields|
        invariant ValidConfig()
        invariant ForFields(byField, initial, m.name, m.fields[..i])
      {
        var key := m.fields[i].key;
        var b := GetBuckets(m.name, key);
        ForFieldsNext(byField, initial, m.name, m.fields, i);
        if b.Some? {
          byField := byField[key := b.value];
        }
      }
      assert m.fields[..|m.fields|] == m.fields;
    }
  }

  /** The second loop of Add: one hit for each numeric value. */
  method CountFields(start: map<string, seq<nat>>, m: Metric, byField: map<string, seq<real>>,
                     ghost configs: seq<Config>, ghost history: seq<Metric>)
    returns (counts: map<string, seq<nat>>)
    requires Tallies(start, configs, m.name, history, m.id, [])
    requires ForFields(byField, configs, m.name, m.fields)
    ensures Tallies(counts, configs, m.name, history, m.id, m.fields)
  {
    hide Tallies, ForFields;
    counts := start;
    assert m.fields[..0] == [];
    for i := 0 to |m.fields|
      invariant Tallies(counts, configs, m.name, history, m.id, m.fields[..i])
    {
      var f := m.fields[i];
      BordersOf(byField, configs, m.name, m.fields, i);
      TalliesNext(counts, configs, m.name, history, m.id, m.fields, i);
      if f.key in byField {
        var b := byField[f.key];
        ghost var was := counts;
        if f.key !in counts {
          counts := counts[f.key := seq(|b| + 1, i => 0)];
        }
        var value := Numeric(f.value);
        if value.Some? {
          var index := SearchFloat64s(b, value.value);
          counts := counts[f.key := counts[f.key][index := counts[f.key][index] + 1]];
        }
        assert counts == was[f.key := counts[f.key]];
      }
    }
    assert m.fields[..|m.fields|] == m.fields;
  }

  /** Part of an order: these series so far. */
  ghost predicate IsPartOf(order: seq<Turn>, cache: map<nat, Collection>, ids: set<nat>) {
    EachOnce(Ids(order), ids) &&
    forall i :: 0 <= i < |order| ==>
      order[i].id in cache && EachOnce(order[i].fields, cache[order[i].id].counts.Keys)
  }

  lemma StartOrder(cache: map<nat, Collection>, configs: seq<Config>, format: real -> string)
    ensures IsPartOf([], cache, cache.Keys - cache.Keys) && PushedIn(cache, configs, Visits([]), format) == []
  {}

  lemma StartTurn(cache: map<nat, Collection>, configs: seq<Config>, id: nat, before: seq<(nat, string)>,
                  format: real -> string)
    requires id in cache
    ensures EachOnce<string>([], cache[id].counts.Keys - cache[id].counts.Keys)
    ensures PushedIn(cache, configs, before + FieldsOf(Turn(id, [])), format) == PushedIn(cache, configs, before, format)
  {
    assert before + FieldsOf(Turn(id, [])) == before;
  }

  lemma VisitOneMore(cache: map<nat, Collection>, configs: seq<Config>, before: seq<(nat, string)>, turn: Turn,
                     field: string, format: real -> string)
    ensures PushedIn(cache, configs, before + FieldsOf(turn.(fields := turn.fields + [field])), format) ==
            EmitOf(PushedIn(cache, configs, before + FieldsOf(turn), format), cache, configs, (turn.id, field), format)
  {
    hide EmitOf;
    var all := before + FieldsOf(turn.(fields := turn.fields + [field]));
    assert FieldsOf(turn.(fields := turn.fields + [field])) == FieldsOf(turn) + [(turn.id, field)];
    assert all[..|all| - 1] == before + FieldsOf(turn) && all[|all| - 1] == (turn.id, field);
  }

  lemma TurnOneMore(order: seq<Turn>, cache: map<nat, Collection>, ids: set<nat>, turn: Turn)
    requires IsPartOf(order, cache, ids) && turn.id in cache && turn.id !in ids
    requires EachOnce(turn.fields, cache[turn.id].counts.Keys)
    ensures IsPartOf(order + [turn], cache, ids + {turn.id})
    ensures Visits(order + [turn]) == Visits(order) + FieldsOf(turn)
  {
    var all := order + [turn];
    assert all[..|all| - 1] == order;
    assert Ids(all) == Ids(order) + [turn.id];
  }
}
