/** The basicstats aggregator (plugins/aggregators/basicstats/basicstats.go), over exact arithmetic. */
module BasicStats {
  import opened Options
  import opened Sample
  import opened Series

  function Convert(v: Value): Option<real> {
    match v
    case Float(f) => Some(f)
    case Int(i) => Some(i as real)
    case Uint(u) => Some(u as real)
    case Other => None
  }

  /** Floats and integers of both kinds take part. */
  lemma ConvertedValues(v: Value, x: real)
    ensures Convert(v) == Some(x) <==>
            v == Float(x) || (exists i :: v == Int(i) && x == i as real) || exists u :: v == Uint(u) && x == u as real
  {}

  datatype Aggregate = Aggregate(fields: map<string, Stats>, name: string, tags: map<string, string>)

  /** The numeric values of field `key` among `fields`. */
  function FieldValues(fields: seq<Field>, key: string): seq<real> {
    if fields == [] then []
    else
      var f := fields[|fields| - 1];
      FieldValues(fields[..|fields| - 1], key) +
      if f.key == key && Convert(f.value).Some? then [Convert(f.value).value] else []
  }

  /** All values a field of a series has received, in order. */
  function Values(history: seq<Metric>, id: nat, key: string): seq<real> {
    if history == [] then []
    else
      var m := history[|history| - 1];
      Values(history[..|history| - 1], id, key) + if m.id == id then FieldValues(m.fields, key) else []
  }

  /** The cached statistics of a series are the batch statistics of the values received. */
  ghost predicate Tracks(stats: map<string, Stats>, history: seq<Metric>, id: nat, fields: seq<Field>) {
    forall key ::
      var xs := Values(history, id, key) + FieldValues(fields, key);
      (key in stats <==> xs != []) && (key in stats ==> stats[key] == Batch(xs))
  }

  /** The i-th metric is the first of its series. */
  predicate FirstOf(history: seq<Metric>, id: nat, i: nat) {
    i < |history| && history[i].id == id && forall j :: 0 <= j < i ==> history[j].id != id
  }

  /** These are the name and tags of the first metric of the series. */
  ghost predicate NamedBy(history: seq<Metric>, id: nat, name: string, tags: map<string, string>) {
    exists i: nat :: FirstOf(history, id, i) && history[i].name == name && history[i].tags == tags
  }

  ghost predicate AllTracked(cache: map<nat, Aggregate>, history: seq<Metric>) {
    forall id ::
      (id in cache <==> exists i :: 0 <= i < |history| && history[i].id == id) &&
      if id in cache then Tracks(cache[id].fields, history, id, [])
      else Tracks(map[], history, id, [])
  }

  ghost predicate AllNamed(cache: map<nat, Aggregate>, history: seq<Metric>) {
    forall id :: id in cache ==> NamedBy(history, id, cache[id].name, cache[id].tags)
  }

  ghost predicate Describes(cache: map<nat, Aggregate>, history: seq<Metric>) {
    AllTracked(cache, history) && AllNamed(cache, history)
  }

  class Aggregator {
    var cache: map<nat, Aggregate>
    ghost var history: seq<Metric>   // the metrics added since the last Reset

    ghost predicate Valid()
      reads this
    {
      Describes(cache, history)
    }

    constructor ()
      ensures Valid() && history == []
    {
      cache, history := map[], [];
    }

    method Reset()
      modifies this
      ensures Valid() && history == []
    {
      cache, history := map[], [];
    }

    method Add(m: Metric)
      requires Valid() && m.Valid()
      modifies this
      ensures Valid() && history == old(history) + [m]
    {
      assert Tracks(if m.id in cache then cache[m.id].fields else map[], history, m.id, []);
      if m.id !in cache {
        var fields := NewFields(m, history);
        cache := cache[m.id := Aggregate(fields, m.name, m.tags)];
      } else {
        var fields := UpdateFields(cache[m.id].fields, m, history);
        cache := cache[m.id := cache[m.id].(fields := fields)];
      }
      DescribesAdded(old(cache), history, m, cache);
      history := history + [m];
    }
  }

  /** The loop for a metric not seen before: every numeric field starts its statistics. */
  method NewFields(m: Metric, ghost history: seq<Metric>) returns (fields: map<string, Stats>)
    requires m.Valid() && Tracks(map[], history, m.id, [])
    ensures Tracks(fields, history, m.id, m.fields)
  {
    hide Tracks, First, Update;
    fields := map[];
    assert m.fields[..0] == [];
    for i := 0 to |m.fields|
      invariant Tracks(fields, history, m.id, m.fields[..i])
      invariant forall key :: key in fields ==> exists j :: 0 <= j < i && m.fields[j].key == key
    {
      var f := m.fields[i];
      var fv := Convert(f.value);
      TracksNext(fields, history, m, i);
      if fv.Some? {
        fields := fields[f.key := First(fv.value)];
      }
    }
    assert m.fields[..|m.fields|] == m.fields;
  }

  /** The loop for a cached metric. */
  method UpdateFields(start: map<string, Stats>, m: Metric, ghost history: seq<Metric>)
    returns (fields: map<string, Stats>)
    requires m.Valid() && Tracks(start, history, m.id, [])
    ensures Tracks(fields, history, m.id, m.fields)
  {
    hide Tracks, First, Update;
    fields := start;
    assert m.fields[..0] == [];
    for i := 0 to |m.fields|
      invariant Tracks(fields, history, m.id, m.fields[..i])
    {
      var f := m.fields[i];
      var fv := Convert(f.value);
      TracksNext(fields, history, m, i);
      if fv.Some? {
        if f.key !in fields {
          fields := fields[f.key := First(fv.value)];
        } else {
          fields := fields[f.key := Update(fields[f.key], fv.value)];
        }
      }
    }
    assert m.fields[..|m.fields|] == m.fields;
  }

  /** Recording one more field keeps the statistics in step. */
  lemma TracksNext(stats: map<string, Stats>, history: seq<Metric>, m: Metric, i: nat)
    requires i < |m.fields| && Tracks(stats, history, m.id, m.fields[..i])
    ensures var f := m.fields[i];
            var fv := Convert(f.value);
            if fv.None? then Tracks(stats, history, m.id, m.fields[..i + 1])
            else if f.key !in stats then Tracks(stats[f.key := First(fv.value)], history, m.id, m.fields[..i + 1])
            else
              stats[f.key].count >= 0.0 &&
              Tracks(stats[f.key := Update(stats[f.key], fv.value)], history, m.id, m.fields[..i + 1])
  {
    hide Batch, Update, First, Tracks;
    var f, before, after := m.fields[i], m.fields[..i], m.fields[..i + 1];
    var fv := Convert(f.value);
    OneMoreField(m.fields, i);
    if fv.None? {
      TracksSame(stats, history, m.id, before, after);
    } else {
      var xs := Values(history, m.id, f.key) + FieldValues(before, f.key);
      assert Values(history, m.id, f.key) + FieldValues(after, f.key) == xs + [fv.value];
      KeyTracked(stats, history, m.id, before, f.key);
      if f.key !in stats {
        FirstIsBatch(fv.value);
        assert xs + [fv.value] == [fv.value];
        TracksChanged(stats, First(fv.value), f.key, history, m.id, before, after);
      } else {
        CountPositive(xs);
        BatchCount(xs);
        WelfordStep(xs, fv.value);
        TracksChanged(stats, Update(stats[f.key], fv.value), f.key, history, m.id, before, after);
      }
    }
  }

  lemma OneMoreField(fields: seq<Field>, i: nat)
    requires i < |fields|
    ensures var fv := Convert(fields[i].value);
            forall key :: FieldValues(fields[..i + 1], key) ==
              FieldValues(fields[..i], key) + if fields[i].key == key && fv.Some? then [fv.value] else []
  {
    var after := fields[..i + 1];
    assert after[..|after| - 1] == fields[..i];
  }

  lemma KeyTracked(stats: map<string, Stats>, history: seq<Metric>, id: nat, fields: seq<Field>, key: string)
    requires Tracks(stats, history, id, fields)
    ensures var xs := Values(history, id, key) + FieldValues(fields, key);
            (key in stats <==> xs != []) && (key in stats ==> stats[key] == Batch(xs))
  {}

  lemma TracksSame(stats: map<string, Stats>, history: seq<Metric>, id: nat, before: seq<Field>, after: seq<Field>)
    requires Tracks(stats, history, id, before) && forall key :: FieldValues(after, key) == FieldValues(before, key)
    ensures Tracks(stats, history, id, after)
  {
    hide FieldValues, Values;
  }

  lemma TracksChanged(stats: map<string, Stats>, s: Stats, key: string, history: seq<Metric>, id: nat,
                      before: seq<Field>, after: seq<Field>)
    requires Tracks(stats, history, id, before)
    requires forall k :: k != key ==> FieldValues(after, k) == FieldValues(before, k)
    requires var xs := Values(history, id, key) + FieldValues(after, key); xs != [] && s == Batch(xs)
    ensures Tracks(stats[key := s], history, id, after)
  {
    hide FieldValues, Values;
  }

  lemma BatchCount(xs: seq<real>)
    requires xs != []
    ensures Batch(xs).count == Count(xs)
  {}

  lemma DescribesAdded(cache: map<nat, Aggregate>, history: seq<Metric>, m: Metric, cache': map<nat, Aggregate>)
    requires Describes(cache, history) && m.id in cache' && cache' == cache[m.id := cache'[m.id]]
    requires Tracks(cache'[m.id].fields, history, m.id, m.fields)
    requires cache'[m.id].name == (if m.id in cache then cache[m.id].name else m.name)
    requires cache'[m.id].tags == (if m.id in cache then cache[m.id].tags else m.tags)
    ensures Describes(cache', history + [m])
  {
    hide AllTracked, AllNamed;
    AllTrackedAdded(cache, history, m, cache');
    AllNamedAdded(cache, history, m, cache');
  }

  lemma AllNamedAdded(cache: map<nat, Aggregate>, history: seq<Metric>, m: Metric, cache': map<nat, Aggregate>)
    requires AllTracked(cache, history) && AllNamed(cache, history)
    requires m.id in cache' && cache' == cache[m.id := cache'[m.id]]
    requires cache'[m.id].name == (if m.id in cache then cache[m.id].name else m.name)
    requires cache'[m.id].tags == (if m.id in cache then cache[m.id].tags else m.tags)
    ensures AllNamed(cache', history + [m])
  {
    hide NamedBy, Tracks;
    forall id | id in cache' ensures NamedBy(history + [m], id, cache'[id].name, cache'[id].tags) {
      if id in cache {
        StaysNamed(history, m, id, cache[id].name, cache[id].tags);
      } else {
        FirstNames(history, m);
      }
    }
  }

  lemma AllTrackedAdded(cache: map<nat, Aggregate>, history: seq<Metric>, m: Metric, cache': map<nat, Aggregate>)
    requires AllTracked(cache, history) && m.id in cache' && cache' == cache[m.id := cache'[m.id]]
    requires Tracks(cache'[m.id].fields, history, m.id, m.fields)
    ensures AllTracked(cache', history + [m])
  {
    hide Tracks;
    var after := history + [m];
    assert after[..|after| - 1] == history;
    forall id
      ensures id in cache' <==> exists i :: 0 <= i < |after| && after[i].id == id
      ensures if id in cache' then Tracks(cache'[id].fields, after, id, []) else Tracks(map[], after, id, [])
    {
      assert after[|history|] == m;
      if id == m.id {
        SameValues(cache'[id].fields, history, m);
      } else {
        assert id in cache <==> exists i :: 0 <= i < |history| && history[i].id == id;
        assert (exists i :: 0 <= i < |history| && history[i].id == id) <==>
               (exists i :: 0 <= i < |after| && after[i].id == id) by {
          OtherSeries(history, m, id);
        }
        StaysTracked(if id in cache then cache[id].fields else map[], history, m, id);
      }
    }
  }

  lemma StaysNamed(history: seq<Metric>, m: Metric, id: nat, name: string, tags: map<string, string>)
    requires NamedBy(history, id, name, tags)
    ensures NamedBy(history + [m], id, name, tags)
  {
    var i: nat :| FirstOf(history, id, i) && history[i].name == name && history[i].tags == tags;
    assert FirstOf(history + [m], id, i);
  }

  lemma FirstNames(history: seq<Metric>, m: Metric)
    requires forall i :: 0 <= i < |history| ==> history[i].id != m.id
    ensures NamedBy(history + [m], m.id, m.name, m.tags)
  {
    assert FirstOf(history + [m], m.id, |history|);
  }

  lemma OtherSeries(history: seq<Metric>, m: Metric, id: nat)
    requires id != m.id
    ensures (exists i :: 0 <= i < |history| && history[i].id == id) <==>
            (exists i :: 0 <= i < |history + [m]| && (history + [m])[i].id == id)
  {
    var after := history + [m];
    if i :| 0 <= i < |history| && history[i].id == id {
      assert after[i].id == id;
    }
  }

  lemma StaysTracked(stats: map<string, Stats>, history: seq<Metric>, m: Metric, id: nat)
    requires Tracks(stats, history, id, []) && id != m.id
    ensures Tracks(stats, history + [m], id, [])
  {
    var after := history + [m];
    assert after[..|after| - 1] == history;
    forall key ensures Values(after, id, key) == Values(history, id, key) {}
  }

  lemma SameValues(stats: map<string, Stats>, history: seq<Metric>, m: Metric)
    requires Tracks(stats, history, m.id, m.fields)
    ensures Tracks(stats, history + [m], m.id, [])
  {
    var after := history + [m];
    assert after[..|after| - 1] == history;
    forall key
      ensures Values(after, m.id, key) + FieldValues([], key) == Values(history, m.id, key) + FieldValues(m.fields, key)
    {}
  }

  // ---------- What Push emits ----------

  datatype Stat = CountOf | MinimumOf | MaximumOf | MeanOf | SumOf | VarianceOf | DeviationOf

  function Suffix(s: Stat): string {
    match s
    case CountOf => "_count"
    case MinimumOf => "_min"
    case MaximumOf => "_max"
    case MeanOf => "_mean"
    case SumOf => "_sum"
    case VarianceOf => "_s2"
    case DeviationOf => "_stdev"
  }

  /** Emitted field names never collide, so the order of iteration over the cache does not matter. */
  lemma NamesDiffer(key: string, s: Stat, key': string, s': Stat)
    requires key + Suffix(s) == key' + Suffix(s')
    ensures key == key' && s == s'
  {
    var name := key + Suffix(s);
    var n := |name|;
    assert name[n - 1] == Suffix(s)[|Suffix(s)| - 1] == Suffix(s')[|Suffix(s')| - 1];
    assert name[n - 2] == Suffix(s)[|Suffix(s)| - 2] == Suffix(s')[|Suffix(s')| - 2];
    assert s == s';
    assert key == name[..|key|] && key' == name[..|key'|];
  }

  /** The name of a statistic in the configuration. */
  function NameOf(s: Stat): string { Suffix(s)[1..] }

  /** parseStats: the statistics named, whatever the order; other names are ignored. */
  method ParseStats(names: seq<string>) returns (parsed: set<Stat>)
    ensures forall s :: s in parsed <==> NameOf(s) in names
  {
    parsed := {};
    for i := 0 to |names|
      invariant forall s :: s in parsed <==> NameOf(s) in names[..i]
    {
      assert forall s :: NameOf(s) in names[..i + 1] <==> NameOf(s) in names[..i] || NameOf(s) == names[i];
      match names[i] {
        case "count" => NamesOnly(CountOf); parsed := parsed + {CountOf};
        case "min" => NamesOnly(MinimumOf); parsed := parsed + {MinimumOf};
        case "max" => NamesOnly(MaximumOf); parsed := parsed + {MaximumOf};
        case "mean" => NamesOnly(MeanOf); parsed := parsed + {MeanOf};
        case "s2" => NamesOnly(VarianceOf); parsed := parsed + {VarianceOf};
        case "stdev" => NamesOnly(DeviationOf); parsed := parsed + {DeviationOf};
        case "sum" => NamesOnly(SumOf); parsed := parsed + {SumOf};
        case _ =>
      }
    }
    assert names[..|names|] == names;
  }

  /** No other statistic has the same name. */
  lemma NamesOnly(s: Stat)
    ensures forall t :: NameOf(t) == NameOf(s) <==> t == s
  {
    forall t | NameOf(t) == NameOf(s) ensures t == s {
      assert Suffix(t) == "_" + NameOf(t) && Suffix(s) == "_" + NameOf(s);
      NamesDiffer("", t, "", s);
    }
  }

  /** getConfiguredStats: without configuration all but the sum. */
  method ConfiguredStats(stats: Option<seq<string>>) returns (config: set<Stat>)
    ensures forall s :: s in config <==> if stats.None? then s != SumOf else NameOf(s) in stats.value
  {
    if stats.None? {
      config := {CountOf, MinimumOf, MaximumOf, MeanOf, VarianceOf, DeviationOf};
    } else {
      config := ParseStats(stats.value);
    }
  }

  /** The value emitted for one statistic of a field; variance needs two values. */
  function Emit(v: Stats, s: Stat, sqrt: real -> real): Option<real> {
    match s
    case CountOf => Some(v.count)
    case MinimumOf => Some(v.min)
    case MaximumOf => Some(v.max)
    case MeanOf => Some(v.mean)
    case SumOf => Some(v.sum)
    case VarianceOf => if v.count > 1.0 then Some(v.m2 / (v.count - 1.0)) else None
    case DeviationOf => if v.count > 1.0 then Some(sqrt(v.m2 / (v.count - 1.0))) else None
  }

  /** The mean of the squared distances from the mean, corrected for the sample. */
  function SampleVariance(xs: seq<real>): real
    requires |xs| > 1
  {
    SquaredDistances(xs, Mean(xs)) / (|xs| - 1) as real
  }

  /** The same, from the values themselves. */
  ghost function Expected(xs: seq<real>, s: Stat, sqrt: real -> real): Option<real>
    requires xs != []
  {
    match s
    case CountOf => Some(|xs| as real)
    case MinimumOf => Some(MinOf(xs))
    case MaximumOf => Some(MaxOf(xs))
    case MeanOf => Some(Sum(xs) / |xs| as real)
    case SumOf => Some(Sum(xs))
    case VarianceOf => if |xs| > 1 then Some(SampleVariance(xs)) else None
    case DeviationOf => if |xs| > 1 then Some(sqrt(SampleVariance(xs))) else None
  }

  lemma EmitsBatch(xs: seq<real>, s: Stat, sqrt: real -> real)
    requires xs != []
    ensures Emit(Batch(xs), s, sqrt) == Expected(xs, s, sqrt)
  {
    hide SquaredDistances, MinOf, MaxOf, Sum;
    assert (|xs| - 1) as real == |xs| as real - 1.0;
    assert Count(xs) > 1.0 <==> |xs| > 1;
  }

  /** What a push emits for a field of a series does not depend on the order in which values arrived. */
  lemma EmissionIgnoresOrder(xs: seq<real>, ys: seq<real>, s: Stat, sqrt: real -> real)
    requires xs != [] && ys != [] && multiset(xs) == multiset(ys)
    ensures Expected(xs, s, sqrt) == Expected(ys, s, sqrt)
  {
    EmitsBatch(xs, s, sqrt);
    EmitsBatch(ys, s, sqrt);
    BatchPermuted(xs, ys);
  }

  /** One accumulated metric: the series and its emitted fields, by their full names. */
  datatype Emission = Emission(name: string, tags: map<string, string>, fields: map<string, real>)

  function FullName(key: string, s: Stat): string { key + Suffix(s) }

  lemma FullNamesDiffer()
    ensures forall key, s, key', s' :: FullName(key, s) == FullName(key', s') ==> key == key' && s == s'
  {
    forall key, s, key', s' | FullName(key, s) == FullName(key', s') ensures key == key' && s == s' {
      NamesDiffer(key, s, key', s');
    }
  }

  function Named(f: map<(string, Stat), real>): map<string, real> {
    FullNamesDiffer();
    map p | p in f :: FullName(p.0, p.1) := f[p]
  }

  lemma NamedAt(f: map<(string, Stat), real>, key: string, s: Stat)
    ensures FullName(key, s) in Named(f) <==> (key, s) in f
    ensures (key, s) in f ==> Named(f)[FullName(key, s)] == f[(key, s)]
    ensures Named(f) == map[] <==> f == map[]
  {
    FullNamesDiffer();
    hide FullName;
    if f != map[] {
      var p :| p in f;
      assert p == (p.0, p.1);
      assert FullName(p.0, p.1) in Named(f);
    }
  }

  function EmitFields(a: Aggregate, config: set<Stat>, sqrt: real -> real): map<(string, Stat), real> {
    map key, s | key in a.fields.Keys && s in config && Emit(a.fields[key], s, sqrt).Some? ::
      (key, s) := Emit(a.fields[key], s, sqrt).value
  }

  /** Push: one emission for each series with something to report. */
  function Pushed(cache: map<nat, Aggregate>, config: set<Stat>, sqrt: real -> real): map<nat, Emission> {
    map id | id in cache && EmitFields(cache[id], config, sqrt) != map[] ::
      Emission(cache[id].name, cache[id].tags, Named(EmitFields(cache[id], config, sqrt)))
  }

  /** The value a push emits for a series under a field name. */
  function EmittedAs(out: map<nat, Emission>, id: nat, name: string): Option<real> {
    if id in out && name in out[id].fields then Some(out[id].fields[name]) else None
  }

  /**
   Every emitted field is the named statistic of exactly the values its series received for it, under the
   name and tags of the series, and everything configured that the sample supports is emitted.
   */
  lemma PushIsBatch(cache: map<nat, Aggregate>, history: seq<Metric>, config: set<Stat>, sqrt: real -> real,
                    id: nat, key: string, s: Stat)
    requires Describes(cache, history)
    ensures var out := Pushed(cache, config, sqrt);
            var xs := Values(history, id, key);
            var want := if s in config && xs != [] then Expected(xs, s, sqrt) else None;
            EmittedAs(out, id, FullName(key, s)) == want &&
            (id in out ==> NamedBy(history, id, out[id].name, out[id].tags))
  {
    hide Expected, Emit, Values, Batch, EmitFields, Describes, Tracks, NamedBy, Named, FullName;
    var xs := Values(history, id, key);
    assert xs + FieldValues([], key) == xs;
    var stats := if id in cache then cache[id].fields else map[];
    SeriesTracked(cache, history, id);
    KeyTracked(stats, history, id, [], key);
    if id in cache {
      EmitFieldsAt(cache[id], config, sqrt, key, s);
      NamedAt(EmitFields(cache[id], config, sqrt), key, s);
      SeriesNamed(cache, history, id);
    }
    if xs != [] {
      EmitsBatch(xs, s, sqrt);
    }
  }

  /** Nothing else is emitted: each field has the name of a configured statistic, and no metric is empty. */
  lemma PushOnlyThat(cache: map<nat, Aggregate>, config: set<Stat>, sqrt: real -> real, id: nat)
    requires id in Pushed(cache, config, sqrt)
    ensures var out := Pushed(cache, config, sqrt);
            out[id].fields != map[] &&
            forall name :: name in out[id].fields ==> exists key, s :: s in config && name == FullName(key, s)
  {
    hide Emit, FullName;
    NamedAt(EmitFields(cache[id], config, sqrt), "", SumOf);
  }

  /** The same with the names written out: `fields` is what the metric of the series has. */
  lemma PushByName(cache: map<nat, Aggregate>, history: seq<Metric>, config: set<Stat>, sqrt: real -> real,
                   id: nat, key: string)
    requires Describes(cache, history) && Values(history, id, key) != []
    ensures var out := Pushed(cache, config, sqrt);
            var xs := Values(history, id, key);
            var n := |xs|;
            EmittedAs(out, id, key + "_count") == (if CountOf in config then Some(n as real) else None) &&
            EmittedAs(out, id, key + "_min") == (if MinimumOf in config then Some(MinOf(xs)) else None) &&
            EmittedAs(out, id, key + "_max") == (if MaximumOf in config then Some(MaxOf(xs)) else None) &&
            EmittedAs(out, id, key + "_mean") == (if MeanOf in config then Some(Sum(xs) / n as real) else None) &&
            EmittedAs(out, id, key + "_sum") == (if SumOf in config then Some(Sum(xs)) else None) &&
            EmittedAs(out, id, key + "_s2") ==
              (if VarianceOf in config && n > 1 then Some(SampleVariance(xs)) else None) &&
            EmittedAs(out, id, key + "_stdev") ==
              (if DeviationOf in config && n > 1 then Some(sqrt(SampleVariance(xs))) else None)
  {
    hide Describes, Values, Pushed, EmittedAs, MinOf, MaxOf, Sum, SampleVariance, NamedBy;
    forall s: Stat
      ensures EmittedAs(Pushed(cache, config, sqrt), id, key + Suffix(s)) ==
              if s in config then Expected(Values(history, id, key), s, sqrt) else None
    {
      PushIsBatch(cache, history, config, sqrt, id, key, s);
    }
    assert Suffix(CountOf) == "_count" && Suffix(MinimumOf) == "_min" && Suffix(MaximumOf) == "_max";
    assert Suffix(MeanOf) == "_mean" && Suffix(SumOf) == "_sum" && Suffix(VarianceOf) == "_s2";
    assert Suffix(DeviationOf) == "_stdev";
  }

  // ---------- Order of arrival ----------

  function ValuesIn(m: Metric, id: nat, key: string): seq<real> {
    if m.id == id then FieldValues(m.fields, key) else []
  }

  lemma ValuesSnoc(history: seq<Metric>, m: Metric, id: nat, key: string)
    ensures Values(history + [m], id, key) == Values(history, id, key) + ValuesIn(m, id, key)
  {
    hide FieldValues;
    var after := history + [m];
    assert after[..|after| - 1] == history;
  }

  lemma {:induction false} ValuesWithout(history: seq<Metric>, id: nat, key: string, i: nat)
    requires i < |history|
    ensures multiset(Values(history, id, key)) ==
            multiset(Values(history[..i] + history[i + 1..], id, key)) + multiset(ValuesIn(history[i], id, key))
  {
    hide ValuesIn, Values;
    var last := |history| - 1;
    var front, rest := history[..last], history[..i] + history[i + 1..];
    assert history == front + [history[last]];
    ValuesSnoc(front, history[last], id, key);
    if i == last {
      assert rest == front;
    } else {
      ValuesWithout(front, id, key, i);
      var less := front[..i] + front[i + 1..];
      assert rest == less + [history[last]];
      ValuesSnoc(less, history[last], id, key);
    }
  }

  lemma DropEqual<T>(h: seq<T>, h': seq<T>, i: nat)
    requires h != [] && i < |h'| && h'[i] == h[|h| - 1] && multiset(h) == multiset(h')
    ensures multiset(h[..|h| - 1]) == multiset(h'[..i] + h'[i + 1..])
  {
    var last := |h| - 1;
    assert h == h[..last] + [h[last]];
    assert h' == h'[..i] + [h'[i]] + h'[i + 1..];
    assert multiset(h[..last]) == multiset(h) - multiset{h[last]};
  }

  /** The values a field has received do not depend on the order of the metrics, but for their own order. */
  lemma {:induction false} ValuesPermuted(h: seq<Metric>, h': seq<Metric>, id: nat, key: string)
    requires multiset(h) == multiset(h')
    ensures multiset(Values(h, id, key)) == multiset(Values(h', id, key))
    decreases |h|
  {
    hide ValuesIn, Values;
    if h == [] {
      assert |multiset(h')| == |h'|;
      assert h' == [];
    } else {
      var last := |h| - 1;
      assert h[last] in multiset(h');
      var i :| 0 <= i < |h'| && h'[i] == h[last];
      DropEqual(h, h', i);
      ValuesPermuted(h[..last], h'[..i] + h'[i + 1..], id, key);
      ValuesWithout(h', id, key, i);
      assert h == h[..last] + [h[last]];
      ValuesSnoc(h[..last], h[last], id, key);
    }
  }

  /** Metrics of one series agree in name and tags. */
  ghost predicate Consistent(history: seq<Metric>) {
    forall i, j :: 0 <= i < |history| && 0 <= j < |history| && history[i].id == history[j].id ==>
      history[i].name == history[j].name && history[i].tags == history[j].tags
  }

  lemma NamedAlike(h: seq<Metric>, h': seq<Metric>, id: nat, n: string, t: map<string, string>,
                   n': string, t': map<string, string>)
    requires Consistent(h) && multiset(h) == multiset(h') && NamedBy(h, id, n, t) && NamedBy(h', id, n', t')
    ensures n == n' && t == t'
  {
    var i: nat :| FirstOf(h, id, i) && h[i].name == n && h[i].tags == t;
    var j: nat :| FirstOf(h', id, j) && h'[j].name == n' && h'[j].tags == t';
    assert h'[j] in multiset(h);
    var k :| 0 <= k < |h| && h[k] == h'[j];
  }

  /** What is pushed does not depend on the order in which the metrics of a period arrived. */
  lemma PushIgnoresOrder(cache: map<nat, Aggregate>, h: seq<Metric>, cache': map<nat, Aggregate>, h': seq<Metric>,
                         config: set<Stat>, sqrt: real -> real)
    requires Describes(cache, h) && Describes(cache', h') && Consistent(h) && multiset(h) == multiset(h')
    ensures Pushed(cache, config, sqrt) == Pushed(cache', config, sqrt)
  {
    hide Describes, Pushed, NamedBy, Consistent;
    var out, out' := Pushed(cache, config, sqrt), Pushed(cache', config, sqrt);
    forall id
      ensures id in out <==> id in out'
      ensures id in out ==> out[id] == out'[id]
    {
      SameEmission(cache, h, cache', h', config, sqrt, id);
    }
  }

  lemma SameEmission(cache: map<nat, Aggregate>, h: seq<Metric>, cache': map<nat, Aggregate>, h': seq<Metric>,
                     config: set<Stat>, sqrt: real -> real, id: nat)
    requires Describes(cache, h) && Describes(cache', h') && Consistent(h) && multiset(h) == multiset(h')
    ensures var out, out' := Pushed(cache, config, sqrt), Pushed(cache', config, sqrt);
            (id in out <==> id in out') && (id in out ==> out[id] == out'[id])
  {
    hide Describes, NamedBy, Consistent, Pushed, Values, Expected, FullName;
    var out, out' := Pushed(cache, config, sqrt), Pushed(cache', config, sqrt);
    forall key, s ensures EmittedAs(out, id, FullName(key, s)) == EmittedAs(out', id, FullName(key, s)) {
      var xs, ys := Values(h, id, key), Values(h', id, key);
      PushIsBatch(cache, h, config, sqrt, id, key, s);
      PushIsBatch(cache', h', config, sqrt, id, key, s);
      ValuesPermuted(h, h', id, key);
      assert xs == [] <==> ys == [] by { assert |xs| == |multiset(xs)| && |ys| == |multiset(ys)|; }
      if xs != [] {
        EmissionIgnoresOrder(xs, ys, s, sqrt);
      }
    }
    if id in out {
      PushOnlyThat(cache, config, sqrt, id);
      SomethingEmitted(out[id].fields);
    }
    if id in out' {
      PushOnlyThat(cache', config, sqrt, id);
      SomethingEmitted(out'[id].fields);
    }
    if id in out && id in out' {
      PushIsBatch(cache, h, config, sqrt, id, "", SumOf);
      PushIsBatch(cache', h', config, sqrt, id, "", SumOf);
      NamedAlike(h, h', id, out[id].name, out[id].tags, out'[id].name, out'[id].tags);
      SameFields(out, out', id);
    }
  }

  lemma SameFields(out: map<nat, Emission>, out': map<nat, Emission>, id: nat)
    requires id in out && id in out'
    requires forall key, s :: EmittedAs(out, id, FullName(key, s)) == EmittedAs(out', id, FullName(key, s))
    requires forall name :: name in out[id].fields ==> exists key, s :: name == FullName(key, s)
    requires forall name :: name in out'[id].fields ==> exists key, s :: name == FullName(key, s)
    ensures out[id].fields == out'[id].fields
  {
    hide FullName;
    var f, g := out[id].fields, out'[id].fields;
    forall name ensures (name in f <==> name in g) && (name in f && name in g ==> f[name] == g[name]) {
      if name in f || name in g {
        var key, s :| name == FullName(key, s);
        assert EmittedAs(out, id, name) == EmittedAs(out', id, name);
      }
    }
  }

  lemma SomethingEmitted(fields: map<string, real>)
    requires fields != map[]
    ensures exists name :: name in fields
  {}

  lemma SeriesNamed(cache: map<nat, Aggregate>, history: seq<Metric>, id: nat)
    requires Describes(cache, history) && id in cache
    ensures NamedBy(history, id, cache[id].name, cache[id].tags)
  {
    hide AllTracked, NamedBy;
  }

  lemma SeriesTracked(cache: map<nat, Aggregate>, history: seq<Metric>, id: nat)
    requires Describes(cache, history)
    ensures Tracks(if id in cache then cache[id].fields else map[], history, id, [])
  {
    hide Tracks;
  }

  lemma EmitFieldsAt(a: Aggregate, config: set<Stat>, sqrt: real -> real, key: string, s: Stat)
    ensures var out := EmitFields(a, config, sqrt);
            ((key, s) in out <==> key in a.fields && s in config && Emit(a.fields[key], s, sqrt).Some?) &&
            ((key, s) in out ==> out != map[] && out[(key, s)] == Emit(a.fields[key], s, sqrt).value)
  {
    hide Emit;
  }
}
