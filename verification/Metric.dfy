/** The tags of a metric, updated in place (metric/metric.go). */
module Metrics {
  import opened Options
  import opened TagList
  import opened Text

  class Tag {
    const key: string
    var value: string

    constructor (key: string, value: string)
      ensures this.key == key && this.value == value
    {
      this.key, this.value := key, value;
    }
  }

  function PairsOf(ts: seq<Tag>): (ps: seq<Pair>)
    reads ts
    ensures |ps| == |ts| && forall i :: 0 <= i < |ts| ==> ps[i] == (ts[i].key, ts[i].value)
  {
    if ts == [] then [] else PairsOf(ts[..|ts| - 1]) + [(ts[|ts| - 1].key, ts[|ts| - 1].value)]
  }

  method MakeTags(ps: seq<Pair>) returns (ts: seq<Tag>)
    ensures PairsOf(ts) == ps && forall t :: t in ts ==> fresh(t)
  {
    hide PairsOf;
    ts := [];
    assert PairsOf(ts) == ps[..0];
    for i := 0 to |ps|
      invariant PairsOf(ts) == ps[..i]
      invariant forall t :: t in ts ==> fresh(t)
    {
      var t := new Tag(ps[i].0, ps[i].1);
      PairsSnoc(ts, t);
      ts := ts + [t];
      assert ps[..i + 1] == ps[..i] + [ps[i]];
    }
    assert ps[..|ps|] == ps;
  }

  class Metric {
    var name: string
    var tags: seq<Tag>

    ghost predicate Valid()
      reads this, tags
    {
      SortedKeys(PairsOf(tags))
    }

    ghost function TagMap(): map<string, string>
      reads this, tags
    {
      ToMap(PairsOf(tags))
    }

    /** New, with the map entries in whatever order the iteration gives them; sort.Slice puts them in key order. */
    constructor (name: string, entries: seq<Pair>)
      requires DistinctKeys(entries)
      ensures Valid() && TagMap() == ToMap(entries) && this.name == name
      ensures forall t :: t in tags ==> fresh(t)
    {
      hide ToMap, SortedKeys, PairsOf, SortEntries;
      this.name := name;
      SortEntriesSorts(entries);
      var ts := MakeTags(SortEntries(entries));
      tags := ts;
    }

    method AddTag(key: string, value: string)
      requires Valid()
      modifies this`tags, tags
      ensures Valid() && TagMap() == old(TagMap())[key := value]
      ensures forall t :: t in old(tags) ==> t in tags && t.value == if t.key == key then value else old(t.value)
      ensures forall t :: t in tags ==> t in old(tags) || fresh(t)
      ensures key in old(TagMap()) ==> tags == old(tags)
    {
      hide Less, ToMap, SortedKeys, Added, PairsOf;
      ghost var ps := PairsOf(tags);
      AddedUpdates(ps, key, value);
      MapOfSorted(ps);
      var i := 0;
      while i < |tags| && Less(tags[i].key, key)
        invariant 0 <= i <= |tags|
        invariant forall k :: 0 <= k < i ==> Less(ps[k].0, key)
      {
        i := i + 1;
      }
      PositionIs(ps, key, i);
      AddedAt(ps, key, value, i);
      if i < |tags| && key == tags[i].key {
        Overwrite(i, value);
      } else {
        KeyIsNew(ps, key, i);
        InsertAt(i, key, value);
      }
    }

    method Overwrite(i: nat, value: string)
      requires i < |tags| && DistinctKeys(PairsOf(tags))
      modifies tags[i]
      ensures PairsOf(tags) == old(PairsOf(tags))[i := (tags[i].key, value)]
      ensures forall t :: t in tags ==> t.value == if t.key == tags[i].key then value else old(t.value)
    {
      hide PairsOf;
      ghost var ps := PairsOf(tags);
      tags[i].value := value;
      forall k | 0 <= k < |tags| && k != i ensures tags[k] != tags[i] && tags[k].key != tags[i].key {
        assert ps[k].0 != ps[i].0;
      }
    }

    method InsertAt(i: nat, key: string, value: string)
      requires i <= |tags| && forall t :: t in tags ==> t.key != key
      modifies this`tags
      ensures PairsOf(tags) == old(PairsOf(tags))[..i] + [(key, value)] + old(PairsOf(tags))[i..]
      ensures forall t :: t in old(tags) ==> t in tags
      ensures forall t :: t in tags ==> t in old(tags) || fresh(t)
    {
      hide PairsOf;
      ghost var ps := PairsOf(tags);
      var t := new Tag(key, value);
      tags := tags[..i] + [t] + tags[i..];
      assert forall k :: 0 <= k < |tags| ==>
        tags[k] == if k < i then old(tags)[k] else if k == i then t else old(tags)[k - 1];
      assert forall k :: 0 <= k < |ps| ==> ps[k] == (old(tags)[k].key, old(tags)[k].value);
    }

    method RemoveTag(key: string)
      requires Valid()
      modifies this`tags
      ensures Valid() && TagMap() == old(TagMap()) - {key}
      ensures forall t :: t in tags ==> t in old(tags)
    {
      hide ToMap, SortedKeys, PairsOf;
      ghost var ps := PairsOf(tags);
      RemovedUpdates(ps, key);
      for i := 0 to |tags|
        invariant tags == old(tags) && forall k :: 0 <= k < i ==> ps[k].0 != key
      {
        if tags[i].key == key {
          FindIs(ps, key, i);
          tags := tags[..i] + tags[i + 1..];
          assert PairsOf(tags) == ps[..i] + ps[i + 1..];
          return;
        }
      }
      FindIs(ps, key, |ps|);
    }

    method GetTag(key: string) returns (v: Option<string>)
      requires Valid()
      ensures v == if key in TagMap() then Some(TagMap()[key]) else None
    {
      hide ToMap, SortedKeys;
      ghost var ps := PairsOf(tags);
      MapOfSorted(ps);
      for i := 0 to |tags|
        invariant forall k :: 0 <= k < i ==> ps[k].0 != key
      {
        if tags[i].key == key {
          assert ps[i].0 == key;
          return Some(tags[i].value);
        }
      }
      assert !HasKey(ps, key);
      v := None;
    }

    /** Copy shares the tag objects. */
    method Copy() returns (c: Metric)
      requires Valid()
      ensures fresh(c) && c.Valid() && c.name == name && c.tags == tags
    {
      c := new Metric.Sharing(name, tags);
    }

    constructor Sharing(name: string, tags: seq<Tag>)
      ensures this.name == name && this.tags == tags
    {
      this.name, this.tags := name, tags;
    }

    /** The bytes HashID hashes. */
    method HashBytes() returns (s: string)
      ensures s == HashInput(name, PairsOf(tags))
    {
      ghost var ps := PairsOf(tags);
      var lines := [name];
      for i := 0 to |tags|
        invariant lines == [name] + TagLines(ps[..i])
      {
        TagLinesNext(ps, i);
        lines := lines + [tags[i].key, tags[i].value];
      }
      assert ps[..|tags|] == ps;
      s := "";
      for i := 0 to |lines|
        invariant s == Lines(lines[..i])
      {
        LinesNext(lines, i);
        s := s + lines[i] + "\n";
      }
      assert lines[..|lines|] == lines;
    }
  }

  /**
   What adding a tag to a copy does to the original: nothing for a new key, but an existing key is
   overwritten in both, since they share the tag.
   */
  method AddTagToCopy(m: Metric, key: string, value: string) returns (c: Metric)
    requires m.Valid()
    modifies m.tags
    ensures fresh(c) && c.Valid() && c.TagMap() == old(m.TagMap())[key := value]
    ensures m.Valid() && m.tags == old(m.tags)
    ensures m.TagMap() == if key in old(m.TagMap()) then old(m.TagMap())[key := value] else old(m.TagMap())
  {
    hide ToMap, SortedKeys, PairsOf, HasKey, DistinctKeys;
    ghost var ps := PairsOf(m.tags);
    KeysOf(ps, key);
    c := m.Copy();
    c.AddTag(key, value);
    if key !in ToMap(ps) {
      assert forall i :: 0 <= i < |ps| ==> m.tags[i].key == ps[i].0 != key && m.tags[i].value == ps[i].1;
      assert PairsOf(m.tags) == ps;
    }
  }

  lemma KeysOf(ps: seq<Pair>, key: string)
    requires SortedKeys(ps)
    ensures key !in ToMap(ps) ==> forall i :: 0 <= i < |ps| ==> ps[i].0 != key
  {
    MapOfSorted(ps);
  }

  lemma KeyIsNew(ps: seq<Pair>, key: string, i: nat)
    requires SortedKeys(ps) && Position(ps, key) == i && !(i < |ps| && ps[i].0 == key)
    ensures forall k :: 0 <= k < |ps| ==> ps[k].0 != key
    ensures !HasKey(ps, key)
  {
    PositionSplits(ps, key);
    NotAmong(ps, i, key);
  }

  lemma PairsSnoc(ts: seq<Tag>, t: Tag)
    ensures PairsOf(ts + [t]) == PairsOf(ts) + [(t.key, t.value)]
  {
    assert (ts + [t])[..|ts|] == ts;
  }

  /** The entries in key order. */
  function SortEntries(entries: seq<Pair>): seq<Pair> {
    if entries == [] then []
    else Added(SortEntries(entries[..|entries| - 1]), entries[|entries| - 1].0, entries[|entries| - 1].1)
  }

  lemma {:induction false} SortEntriesSorts(entries: seq<Pair>)
    ensures SortedKeys(SortEntries(entries)) && ToMap(SortEntries(entries)) == ToMap(entries)
  {
    if entries != [] {
      var front, last := entries[..|entries| - 1], entries[|entries| - 1];
      SortEntriesSorts(front);
      AddedUpdates(SortEntries(front), last.0, last.1);
    }
  }

  /** Whatever sort.Slice does, sorted entries are these. */
  lemma AnySortAgrees(entries: seq<Pair>, sorted: seq<Pair>)
    requires DistinctKeys(entries) && SortedKeys(sorted)
    requires forall p :: p in sorted <==> p in entries
    ensures sorted == SortEntries(entries)
  {
    SortEntriesSorts(entries);
    MapOfDistinct(entries);
    MapOfSorted(sorted);
    hide ToMap, SortEntries;
    forall k ensures HasKey(sorted, k) <==> HasKey(entries, k) {
      if HasKey(sorted, k) {
        var i :| 0 <= i < |sorted| && sorted[i].0 == k;
        assert sorted[i] in entries;
      }
      if HasKey(entries, k) {
        var i :| 0 <= i < |entries| && entries[i].0 == k;
        assert entries[i] in sorted;
      }
    }
    forall i | 0 <= i < |sorted| ensures sorted[i].0 in ToMap(entries) && ToMap(entries)[sorted[i].0] == sorted[i].1 {
      assert sorted[i] in entries;
      var j :| 0 <= j < |entries| && entries[j] == sorted[i];
    }
    MapIs(sorted, ToMap(entries));
    SortedListIsCanonical(sorted, SortEntries(entries));
  }

  lemma PositionIs(ps: seq<Pair>, key: string, i: nat)
    requires i <= |ps| && (i < |ps| ==> !Less(ps[i].0, key)) && forall k :: 0 <= k < i ==> Less(ps[k].0, key)
    ensures Position(ps, key) == i
  {
    hide Less;
    var j := Position(ps, key);
    assert !(i < j) && !(j < i);
  }

  lemma AddedAt(ps: seq<Pair>, key: string, value: string, i: nat)
    requires Position(ps, key) == i
    ensures Added(ps, key, value) ==
            if i < |ps| && ps[i].0 == key then ps[i := (key, value)] else ps[..i] + [(key, value)] + ps[i..]
  {}

  lemma FindIs(ps: seq<Pair>, key: string, i: nat)
    requires i <= |ps| && (i < |ps| ==> ps[i].0 == key) && forall k :: 0 <= k < i ==> ps[k].0 != key
    ensures Find(ps, key) == i
  {
    var j := Find(ps, key);
    assert !(i < j) && !(j < i);
  }

  lemma {:induction false} TagLinesAppend(ps: seq<Pair>, x: Pair)
    ensures TagLines(ps + [x]) == TagLines(ps) + [x.0, x.1]
  {
    if ps == [] {
      assert [] + [x] == [x] && [x][1..] == [];
    } else {
      assert (ps + [x])[1..] == ps[1..] + [x];
      TagLinesAppend(ps[1..], x);
    }
  }

  lemma TagLinesNext(ps: seq<Pair>, i: nat)
    requires i < |ps|
    ensures TagLines(ps[..i + 1]) == TagLines(ps[..i]) + [ps[i].0, ps[i].1]
  {
    assert ps[..i + 1] == ps[..i] + [ps[i]];
    TagLinesAppend(ps[..i], ps[i]);
  }

  lemma {:induction false} LinesAppend(xs: seq<string>, x: string)
    ensures Lines(xs + [x]) == Lines(xs) + x + "\n"
  {
    if xs == [] {
      assert [] + [x] == [x] && [x][1..] == [];
    } else {
      assert (xs + [x])[1..] == xs[1..] + [x];
      LinesAppend(xs[1..], x);
    }
  }

  lemma LinesNext(xs: seq<string>, i: nat)
    requires i < |xs|
    ensures Lines(xs[..i + 1]) == Lines(xs[..i]) + xs[i] + "\n"
  {
    assert xs[..i + 1] == xs[..i] + [xs[i]];
    LinesAppend(xs[..i], xs[i]);
  }

  // ---------- Any sequence of edits ----------

  datatype Edit = Put(key: string, value: string) | Drop(key: string)

  function EditList(ps: seq<Pair>, edits: seq<Edit>): seq<Pair> {
    if edits == [] then ps
    else
      var before := EditList(ps, edits[..|edits| - 1]);
      match edits[|edits| - 1]
      case Put(k, v) => Added(before, k, v)
      case Drop(k) => Removed(before, k)
  }

  function EditMap(m: map<string, string>, edits: seq<Edit>): map<string, string> {
    if edits == [] then m
    else
      var before := EditMap(m, edits[..|edits| - 1]);
      match edits[|edits| - 1]
      case Put(k, v) => before[k := v]
      case Drop(k) => before - {k}
  }

  /** Any sequence of AddTag and RemoveTag keeps the list sorted and equal to the same edits of a map. */
  lemma {:induction false} EditsFollowMap(ps: seq<Pair>, edits: seq<Edit>)
    requires SortedKeys(ps)
    ensures SortedKeys(EditList(ps, edits)) && ToMap(EditList(ps, edits)) == EditMap(ToMap(ps), edits)
  {
    hide SortedKeys, ToMap, Added, Removed;
    if edits != [] {
      EditsFollowMap(ps, edits[..|edits| - 1]);
      var before := EditList(ps, edits[..|edits| - 1]);
      match edits[|edits| - 1]
      case Put(k, v) => AddedUpdates(before, k, v);
      case Drop(k) => RemovedUpdates(before, k);
    }
  }

  /** Two histories of edits with the same resulting map give the same hash input. */
  lemma SameTagsSameHashInput(name: string, ps: seq<Pair>, edits: seq<Edit>, qs: seq<Pair>, edits': seq<Edit>)
    requires SortedKeys(ps) && SortedKeys(qs) && EditMap(ToMap(ps), edits) == EditMap(ToMap(qs), edits')
    ensures HashInput(name, EditList(ps, edits)) == HashInput(name, EditList(qs, edits'))
  {
    EditsFollowMap(ps, edits);
    EditsFollowMap(qs, edits');
    SortedListIsCanonical(EditList(ps, edits), EditList(qs, edits'));
  }
}
