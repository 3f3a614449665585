/**
 What the histogram aggregator keeps (plugins/aggregators/histogram/histogram.go): the borders that the
 configs give a field, and for each series a tally of the values its fields have received.
 */
module HistogramCounts {
  import opened Buckets
  import opened Options
  import opened Series

  /** One configured histogram; `None` buckets are a nil slice. */
  datatype Config = Config(metric: string, fields: seq<string>, buckets: Option<seq<real>>) {
    /** isBucketExists, for a config of this metric. */
    predicate Covers(metric: string, field: string) {
      this.metric == metric && (fields == [] || field in fields)
    }
  }

  /** Unsigned integers are not converted here. */
  function Numeric(v: Value): Option<real> {
    match v
    case Float(f) => Some(f)
    case Int(i) => Some(i as real)
    case _ => None
  }

  function Sorted(b: Option<seq<real>>): Option<seq<real>> {
    if b.None? then None else Some(Sort(b.value))
  }

  /** The sorted borders of the last config for this metric and field. */
  function Borders(configs: seq<Config>, metric: string, field: string): Option<seq<real>> {
    if configs == [] then None
    else if configs[|configs| - 1].Covers(metric, field) then Sorted(configs[|configs| - 1].buckets)
    else Borders(configs[..|configs| - 1], metric, field)
  }

  /** The i-th config is the last one for this metric and field. */
  predicate LastCovers(configs: seq<Config>, i: nat, metric: string, field: string) {
    i < |configs| && configs[i].Covers(metric, field) && forall j :: i < j < |configs| ==> !configs[j].Covers(metric, field)
  }

  /** A field has the borders of the last config that names its metric and names it or no field, in order. */
  lemma {:induction false} BordersAre(configs: seq<Config>, metric: string, field: string)
    ensures forall i: nat :: LastCovers(configs, i, metric, field) ==>
              Borders(configs, metric, field).Some? == configs[i].buckets.Some? &&
              (configs[i].buckets.Some? ==>
                 Ascending(Borders(configs, metric, field).value) &&
                 multiset(Borders(configs, metric, field).value) == multiset(configs[i].buckets.value))
    ensures (forall i :: 0 <= i < |configs| ==> configs[i].metric != metric || (configs[i].fields != [] && field !in configs[i].fields)) ==>
              Borders(configs, metric, field) == None
  {
    hide Ascending, Sort;
    if configs != [] {
      var front, c := configs[..|configs| - 1], configs[|configs| - 1];
      BordersAre(front, metric, field);
      if c.buckets.Some? {
        SortSorts(c.buckets.value);
      }
      assert forall i: nat :: LastCovers(configs, i, metric, field) && i < |front| ==> LastCovers(front, i, metric, field);
    }
  }

  /** Only floats and signed integers are counted. */
  lemma CountedValues(v: Value, x: real)
    ensures Numeric(v) == Some(x) <==> v == Float(x) || exists i :: v == Int(i) && x == i as real
  {}

  /** Sorting a config's slice in place, as sortBuckets does, changes no borders. */
  ghost predicate SameBorders(a: seq<Config>, b: seq<Config>) {
    |a| == |b| &&
    forall i :: 0 <= i < |a| ==>
      a[i].metric == b[i].metric && a[i].fields == b[i].fields && Sorted(a[i].buckets) == Sorted(b[i].buckets)
  }

  lemma {:induction false} SameBordersAgree(a: seq<Config>, b: seq<Config>, metric: string, field: string)
    requires SameBorders(a, b)
    ensures Borders(a, metric, field) == Borders(b, metric, field)
  {
    if a != [] {
      SameBordersAgree(a[..|a| - 1], b[..|b| - 1], metric, field);
    }
  }

  function FieldNumbers(fields: seq<Field>, key: string): seq<real> {
    if fields == [] then []
    else
      var f := fields[|fields| - 1];
      FieldNumbers(fields[..|fields| - 1], key) +
      if f.key == key && Numeric(f.value).Some? then [Numeric(f.value).value] else []
  }

  /** The numeric values a field of a series has received. */
  function Numbers(history: seq<Metric>, id: nat, key: string): seq<real> {
    if history == [] then []
    else
      var m := history[|history| - 1];
      Numbers(history[..|history| - 1], id, key) + if m.id == id then FieldNumbers(m.fields, key) else []
  }

  predicate HasField(fields: seq<Field>, key: string) {
    exists i :: 0 <= i < |fields| && fields[i].key == key
  }

  /** Some metric of the series had the field, numeric or not. */
  predicate Seen(history: seq<Metric>, id: nat, key: string) {
    exists i :: 0 <= i < |history| && history[i].id == id && HasField(history[i].fields, key)
  }

  datatype Collection = Collection(counts: map<string, seq<nat>>, name: string, tags: map<string, string>)

  /** A series keeps a tally for exactly the fields with borders that it has had. */
  ghost predicate Tallies(counts: map<string, seq<nat>>, configs: seq<Config>, name: string,
                          history: seq<Metric>, id: nat, fields: seq<Field>) {
    forall key ::
      var b := Borders(configs, name, key);
      (key in counts <==> b.Some? && (Seen(history, id, key) || HasField(fields, key))) &&
      (key in counts ==> counts[key] == Tally(b.value, Numbers(history, id, key) + FieldNumbers(fields, key)))
  }

  /** Metrics with the same HashID are of the same series: they agree in name and tags. */
  ghost predicate Consistent(history: seq<Metric>) {
    forall i, j :: 0 <= i < |history| && 0 <= j < |history| && history[i].id == history[j].id ==>
      history[i].name == history[j].name && history[i].tags == history[j].tags
  }

  /** These are the name and tags of a metric received for the series. */
  ghost predicate OfSeries(history: seq<Metric>, id: nat, name: string, tags: map<string, string>) {
    exists i :: 0 <= i < |history| && history[i].id == id && history[i].name == name && history[i].tags == tags
  }

  function CountsOf(cache: map<nat, Collection>, id: nat): map<string, seq<nat>> {
    if id in cache then cache[id].counts else map[]
  }

  ghost predicate Describes(cache: map<nat, Collection>, configs: seq<Config>, history: seq<Metric>) {
    (forall id :: id in cache ==> OfSeries(history, id, cache[id].name, cache[id].tags)) &&
    (forall i :: 0 <= i < |history| ==>
       Tallies(CountsOf(cache, history[i].id), configs, history[i].name, history, history[i].id, []))
  }

  ghost predicate ForFields(byField: map<string, seq<real>>, configs: seq<Config>, name: string, fields: seq<Field>) {
    forall key ::
      (key in byField <==> HasField(fields, key) && Borders(configs, name, key).Some?) &&
      (key in byField ==> byField[key] == Borders(configs, name, key).value)
  }

  lemma HasFieldNext(fields: seq<Field>, i: nat, key: string)
    requires i < |fields|
    ensures HasField(fields[..i + 1], key) <==> HasField(fields[..i], key) || fields[i].key == key
  {
    var after := fields[..i + 1];
    assert after[i] == fields[i];
    assert forall j :: 0 <= j < i ==> after[j] == fields[..i][j];
  }

  lemma ForFieldsNext(byField: map<string, seq<real>>, configs: seq<Config>, name: string, fields: seq<Field>, i: nat)
    requires i < |fields| && ForFields(byField, configs, name, fields[..i])
    ensures var key := fields[i].key;
            var b := Borders(configs, name, key);
            ForFields(if b.Some? then byField[key := b.value] else byField, configs, name, fields[..i + 1])
  {
    hide HasField, Borders;
    forall key ensures HasField(fields[..i + 1], key) <==> HasField(fields[..i], key) || fields[i].key == key {
      HasFieldNext(fields, i, key);
    }
  }

  lemma BordersOf(byField: map<string, seq<real>>, configs: seq<Config>, name: string, fields: seq<Field>, i: nat)
    requires i < |fields| && ForFields(byField, configs, name, fields)
    ensures var key := fields[i].key;
            (key in byField <==> Borders(configs, name, key).Some?) &&
            (key in byField ==> Some(byField[key]) == Borders(configs, name, key) && Ascending(byField[key]))
  {
    assert HasField(fields, fields[i].key);
    BordersAscend(configs, name, fields[i].key);
  }

  lemma {:induction false} BordersAscend(configs: seq<Config>, name: string, field: string)
    ensures Borders(configs, name, field).Some? ==> Ascending(Borders(configs, name, field).value)
  {
    if configs != [] {
      var c := configs[|configs| - 1];
      if c.buckets.Some? {
        SortSorts(c.buckets.value);
      }
      BordersAscend(configs[..|configs| - 1], name, field);
    }
  }

  lemma NextConfig(a: seq<Config>, b: seq<Config>, i: nat, metric: string, field: string)
    requires SameBorders(b, a) && i < |a|
    ensures Borders(b[..i + 1], metric, field) ==
            if a[i].Covers(metric, field) then Sorted(a[i].buckets) else Borders(a[..i], metric, field)
  {
    assert b[..i + 1][..i] == b[..i];
    SameBordersAgree(b[..i], a[..i], metric, field);
  }

  // ---------- The tallies follow the values ----------

  function Hit(counts: seq<nat>, b: seq<real>, value: Option<real>): seq<nat>
    requires |counts| == |b| + 1
  {
    if value.None? then counts
    else counts[Slot(b, value.value) := counts[Slot(b, value.value)] + 1]
  }

  lemma TalliesNext(counts: map<string, seq<nat>>, configs: seq<Config>, name: string,
                    history: seq<Metric>, id: nat, fields: seq<Field>, i: nat)
    requires i < |fields| && Tallies(counts, configs, name, history, id, fields[..i])
    ensures var key := fields[i].key;
            var b := Borders(configs, name, key);
            if b.None? then Tallies(counts, configs, name, history, id, fields[..i + 1])
            else
              var before := if key in counts then counts[key] else seq(|b.value| + 1, i => 0);
              |before| == |b.value| + 1 &&
              Tallies(counts[key := Hit(before, b.value, Numeric(fields[i].value))],
                      configs, name, history, id, fields[..i + 1])
  {
    hide Tallies, HasField, Seen, Borders, Tally, Numbers, FieldNumbers;
    var f, before, after := fields[i], fields[..i], fields[..i + 1];
    var value := Numeric(f.value);
    var b := Borders(configs, name, f.key);
    OneMoreNumber(fields, i);
    forall key ensures HasField(after, key) <==> HasField(before, key) || f.key == key {
      HasFieldNext(fields, i, key);
    }
    KeyTallied(counts, configs, name, history, id, before, f.key);
    if b.None? {
      TalliesUntouched(counts, configs, name, history, id, f.key, before, after);
    } else {
      var xs := Numbers(history, id, f.key) + FieldNumbers(before, f.key);
      var ys := Numbers(history, id, f.key) + FieldNumbers(after, f.key);
      assert ys == if value.Some? then xs + [value.value] else xs;
      if f.key !in counts {
        NotSeenNoNumbers(history, id, f.key, before);
        TallyNone(b.value);
      }
      if value.Some? {
        TallyNext(b.value, xs, value.value);
      }
      TalliesTouched(counts, Tally(b.value, ys), configs, name, history, id, f.key, before, after);
    }
  }

  lemma OneMoreNumber(fields: seq<Field>, i: nat)
    requires i < |fields|
    ensures var value := Numeric(fields[i].value);
            forall key :: FieldNumbers(fields[..i + 1], key) ==
              FieldNumbers(fields[..i], key) + if fields[i].key == key && value.Some? then [value.value] else []
  {
    var after := fields[..i + 1];
    assert after[..|after| - 1] == fields[..i];
  }

  lemma KeyTallied(counts: map<string, seq<nat>>, configs: seq<Config>, name: string,
                   history: seq<Metric>, id: nat, fields: seq<Field>, key: string)
    requires Tallies(counts, configs, name, history, id, fields)
    ensures var b := Borders(configs, name, key);
            (key in counts <==> b.Some? && (Seen(history, id, key) || HasField(fields, key))) &&
            (key in counts ==> counts[key] == Tally(b.value, Numbers(history, id, key) + FieldNumbers(fields, key)))
  {
    hide HasField, Seen, Borders, Tally, Numbers, FieldNumbers;
  }

  lemma TalliesUntouched(counts: map<string, seq<nat>>, configs: seq<Config>, name: string,
                         history: seq<Metric>, id: nat, key: string, before: seq<Field>, after: seq<Field>)
    requires Tallies(counts, configs, name, history, id, before) && Borders(configs, name, key).None?
    requires forall k :: k != key ==>
               FieldNumbers(after, k) == FieldNumbers(before, k) && (HasField(after, k) <==> HasField(before, k))
    ensures Tallies(counts, configs, name, history, id, after)
  {
    hide HasField, Seen, Borders, Tally, Numbers, FieldNumbers;
  }

  lemma TalliesTouched(counts: map<string, seq<nat>>, t: seq<nat>, configs: seq<Config>, name: string,
                       history: seq<Metric>, id: nat, key: string, before: seq<Field>, after: seq<Field>)
    requires Tallies(counts, configs, name, history, id, before)
    requires Borders(configs, name, key).Some? && HasField(after, key)
    requires t == Tally(Borders(configs, name, key).value, Numbers(history, id, key) + FieldNumbers(after, key))
    requires forall k :: k != key ==>
               FieldNumbers(after, k) == FieldNumbers(before, k) && (HasField(after, k) <==> HasField(before, k))
    ensures Tallies(counts[key := t], configs, name, history, id, after)
  {
    hide HasField, Seen, Borders, Tally, Numbers, FieldNumbers;
  }

  lemma NotSeenNoNumbers(history: seq<Metric>, id: nat, key: string, fields: seq<Field>)
    requires !Seen(history, id, key) && !HasField(fields, key)
    ensures Numbers(history, id, key) + FieldNumbers(fields, key) == []
  {
    NoFieldNoNumbers(fields, key);
    NotSeen(history, id, key);
  }

  lemma {:induction false} NoFieldNoNumbers(fields: seq<Field>, key: string)
    requires !HasField(fields, key)
    ensures FieldNumbers(fields, key) == []
  {
    if fields != [] {
      HasFieldNext(fields, |fields| - 1, key);
      assert fields[..|fields| - 1 + 1] == fields;
      NoFieldNoNumbers(fields[..|fields| - 1], key);
    }
  }

  lemma {:induction false} NotSeen(history: seq<Metric>, id: nat, key: string)
    requires !Seen(history, id, key)
    ensures Numbers(history, id, key) == []
  {
    if history != [] {
      var front, m := history[..|history| - 1], history[|history| - 1];
      assert history == front + [m];
      SeenNext(front, m, id, key);
      NotSeen(front, id, key);
      if m.id == id {
        NoFieldNoNumbers(m.fields, key);
      }
    }
  }

  lemma SeenNext(history: seq<Metric>, m: Metric, id: nat, key: string)
    ensures Seen(history + [m], id, key) <==> Seen(history, id, key) || (m.id == id && HasField(m.fields, key))
  {
    hide HasField;
    var after := history + [m];
    assert after[|history|] == m;
    assert forall i :: 0 <= i < |history| ==> after[i] == history[i];
  }

  lemma StartTallies(cache: map<nat, Collection>, configs: seq<Config>, history: seq<Metric>, m: Metric)
    requires Describes(cache, configs, history) && Consistent(history + [m])
    ensures Tallies(CountsOf(cache, m.id), configs, m.name, history, m.id, [])
  {
    hide HasField, Borders, Tally, Numbers;
    var all := history + [m];
    assert all[|history|] == m;
    if i :| 0 <= i < |history| && history[i].id == m.id {
      assert all[i] == history[i];
    } else {
      forall key ensures !HasField([], key) { NoFields(key); }
    }
  }

  lemma CachedTally(cache: map<nat, Collection>, configs: seq<Config>, history: seq<Metric>, id: nat, key: string)
    requires Describes(cache, configs, history) && id in cache && key in cache[id].counts
    ensures var b := Borders(configs, cache[id].name, key);
            b.Some? && cache[id].counts[key] == Tally(b.value, Numbers(history, id, key))
  {
    hide HasField, Seen, Borders, Tally, Numbers, Tallies;
    assert OfSeries(history, id, cache[id].name, cache[id].tags);
    var i :| 0 <= i < |history| && history[i].id == id && history[i].name == cache[id].name;
    KeyTallied(cache[id].counts, configs, cache[id].name, history, id, [], key);
    assert Numbers(history, id, key) + FieldNumbers([], key) == Numbers(history, id, key);
  }

  lemma CachedSeries(cache: map<nat, Collection>, configs: seq<Config>, history: seq<Metric>, m: Metric)
    requires Describes(cache, configs, history) && Consistent(history + [m]) && m.id in cache
    ensures cache[m.id].name == m.name && cache[m.id].tags == m.tags
  {
    hide Tallies;
    assert OfSeries(history, m.id, cache[m.id].name, cache[m.id].tags);
    var all := history + [m];
    var i :| 0 <= i < |history| && history[i].id == m.id && history[i].name == cache[m.id].name &&
             history[i].tags == cache[m.id].tags;
    assert all[i] == history[i] && all[|history|] == m;
  }

  lemma NothingToCount(counts: map<string, seq<nat>>, byField: map<string, seq<real>>, configs: seq<Config>,
                       history: seq<Metric>, m: Metric)
    requires byField == map[] && ForFields(byField, configs, m.name, m.fields)
    requires Tallies(counts, configs, m.name, history, m.id, [])
    ensures Tallies(counts, configs, m.name, history, m.id, m.fields)
  {
    hide Borders, Tally, Numbers, Seen;
    forall key | !HasField(m.fields, key) ensures FieldNumbers(m.fields, key) == FieldNumbers([], key) {
      NoFieldNoNumbers(m.fields, key);
      NoFields(key);
    }
    forall key ensures !HasField([], key) { NoFields(key); }
  }

  lemma DescribesAdded(cache: map<nat, Collection>, cache': map<nat, Collection>, configs: seq<Config>,
                       history: seq<Metric>, m: Metric)
    requires Describes(cache, configs, history) && Consistent(history + [m])
    requires cache' == cache ||
             (m.id in cache' && cache' == cache[m.id := cache'[m.id]] &&
              cache'[m.id].name == m.name && cache'[m.id].tags == m.tags)
    requires Tallies(CountsOf(cache', m.id), configs, m.name, history, m.id, m.fields)
    ensures Describes(cache', configs, history + [m])
  {
    hide Tallies;
    var all := history + [m];
    assert forall i :: 0 <= i < |history| ==> all[i] == history[i];
    forall id | id in cache' ensures OfSeries(all, id, cache'[id].name, cache'[id].tags) {
      if cache' != cache && id == m.id {
        assert all[|history|] == m;
      } else {
        assert OfSeries(history, id, cache[id].name, cache[id].tags);
      }
    }
    forall i | 0 <= i < |all| ensures Tallies(CountsOf(cache', all[i].id), configs, all[i].name, all, all[i].id, []) {
      if all[i].id == m.id {
        assert all[i].name == m.name by { assert all[|history|] == m; }
        TalliesAbsorb(CountsOf(cache', m.id), configs, m.name, history, m);
      } else {
        TalliesOther(CountsOf(cache', all[i].id), configs, all[i].name, history, m, all[i].id);
      }
    }
  }

  lemma TalliesAbsorb(counts: map<string, seq<nat>>, configs: seq<Config>, name: string, history: seq<Metric>, m: Metric)
    requires Tallies(counts, configs, name, history, m.id, m.fields)
    ensures Tallies(counts, configs, name, history + [m], m.id, [])
  {
    hide Borders, Tally, Seen, HasField, FieldNumbers;
    var all := history + [m];
    assert all[..|all| - 1] == history;
    forall key
      ensures Numbers(all, m.id, key) + FieldNumbers([], key) == Numbers(history, m.id, key) + FieldNumbers(m.fields, key)
      ensures Seen(all, m.id, key) || HasField([], key) <==> Seen(history, m.id, key) || HasField(m.fields, key)
    {
      NoFields(key);
      SeenNext(history, m, m.id, key);
    }
  }

  lemma NoFields(key: string)
    ensures FieldNumbers([], key) == [] && !HasField([], key)
  {}

  lemma TalliesOther(counts: map<string, seq<nat>>, configs: seq<Config>, name: string,
                     history: seq<Metric>, m: Metric, id: nat)
    requires Tallies(counts, configs, name, history, id, []) && id != m.id
    ensures Tallies(counts, configs, name, history + [m], id, [])
  {
    hide Borders, Tally, Seen, HasField, FieldNumbers;
    var all := history + [m];
    assert all[..|all| - 1] == history;
    forall key
      ensures Numbers(all, id, key) == Numbers(history, id, key) && (Seen(all, id, key) <==> Seen(history, id, key))
    {
      SeenNext(history, m, id, key);
    }
  }
}
