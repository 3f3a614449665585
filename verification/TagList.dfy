/** The sorted tag list of metric/metric.go as a value, and the byte stream HashID feeds to the hash. */
module TagList {
  import opened Lists
  import opened Text

  type Pair = (string, string)

  /** Keys are strictly increasing. */
  ghost predicate SortedKeys(ps: seq<Pair>) {
    forall i, j :: 0 <= i < j < |ps| ==> Less(ps[i].0, ps[j].0)
  }

  /** Tags: the list read as a map. */
  function ToMap(ps: seq<Pair>): map<string, string> {
    if ps == [] then map[] else ToMap(ps[..|ps| - 1])[ps[|ps| - 1].0 := ps[|ps| - 1].1]
  }

  /** The position AddTag stops at: the first key that is not smaller. */
  function Position(ps: seq<Pair>, key: string): (i: nat)
    ensures i <= |ps| && (i < |ps| ==> !Less(ps[i].0, key))
    ensures forall k :: 0 <= k < i ==> Less(ps[k].0, key)
  {
    FirstIndex(ps, (p: Pair) => !Less(p.0, key))
  }

  function Added(ps: seq<Pair>, key: string, value: string): seq<Pair> {
    var i := Position(ps, key);
    if i < |ps| && ps[i].0 == key then ps[i := (key, value)] else ps[..i] + [(key, value)] + ps[i..]
  }

  /** The position of a key, or the length of the list. */
  function Find(ps: seq<Pair>, key: string): (i: nat)
    ensures i <= |ps| && (i < |ps| ==> ps[i].0 == key)
    ensures forall k :: 0 <= k < i ==> ps[k].0 != key
  {
    FirstIndex(ps, (p: Pair) => p.0 == key)
  }

  function Removed(ps: seq<Pair>, key: string): seq<Pair> {
    var i := Find(ps, key);
    if i < |ps| then ps[..i] + ps[i + 1..] else ps
  }

  // ---------- The list is the map ----------

  ghost predicate DistinctKeys(ps: seq<Pair>) {
    forall i, j :: 0 <= i < j < |ps| ==> ps[i].0 != ps[j].0
  }

  lemma SortedIsDistinct(ps: seq<Pair>)
    requires SortedKeys(ps)
    ensures DistinctKeys(ps)
  {
    hide Less;
    forall i, j | 0 <= i < j < |ps| ensures ps[i].0 != ps[j].0 {
      LessAsymmetric(ps[i].0, ps[j].0);
    }
  }

  ghost predicate HasKey(ps: seq<Pair>, k: string) {
    exists i :: 0 <= i < |ps| && ps[i].0 == k
  }

  /** A list with distinct keys maps each of them to the value next to it, and nothing else. */
  lemma {:induction false} MapOfDistinct(ps: seq<Pair>)
    requires DistinctKeys(ps)
    ensures forall k :: k in ToMap(ps) <==> HasKey(ps, k)
    ensures forall i :: 0 <= i < |ps| ==> ps[i].0 in ToMap(ps) && ToMap(ps)[ps[i].0] == ps[i].1
  {
    if ps != [] {
      var front, last := ps[..|ps| - 1], ps[|ps| - 1];
      MapOfDistinct(front);
      forall k ensures HasKey(ps, k) <==> HasKey(front, k) || k == last.0 {
        SnocKeys(front, last, k);
        assert ps == front + [last];
      }
    }
  }

  lemma SnocKeys(ps: seq<Pair>, x: Pair, k: string)
    ensures HasKey(ps + [x], k) <==> HasKey(ps, k) || k == x.0
  {
    var rs := ps + [x];
    assert rs[|ps|] == x && forall i :: 0 <= i < |ps| ==> rs[i] == ps[i];
  }

  lemma MapOfSorted(ps: seq<Pair>)
    requires SortedKeys(ps)
    ensures forall k :: k in ToMap(ps) <==> HasKey(ps, k)
    ensures forall i :: 0 <= i < |ps| ==> ps[i].0 in ToMap(ps) && ToMap(ps)[ps[i].0] == ps[i].1
    ensures DistinctKeys(ps)
  {
    SortedIsDistinct(ps);
    MapOfDistinct(ps);
  }

  /** Two sorted lists that stand for the same map are the same list. */
  lemma {:induction false} SortedListIsCanonical(ps: seq<Pair>, qs: seq<Pair>)
    requires SortedKeys(ps) && SortedKeys(qs) && ToMap(ps) == ToMap(qs)
    ensures ps == qs
  {
    hide Less;
    if ps != [] && qs != [] {
      var n := |ps| - 1;
      SameGreatest(ps, qs);
      FrontMap(ps);
      FrontMap(qs);
      SortedListIsCanonical(ps[..n], qs[..|qs| - 1]);
      assert ps == ps[..n] + [ps[n]] && qs == qs[..|qs| - 1] + [ps[n]];
    } else if ps != [] {
      NonEmptyMap(ps);
    } else if qs != [] {
      NonEmptyMap(qs);
    }
  }

  lemma NonEmptyMap(ps: seq<Pair>)
    requires ps != []
    ensures ToMap(ps) != map[]
  {
    assert ps[|ps| - 1].0 in ToMap(ps);
  }

  lemma SameGreatest(ps: seq<Pair>, qs: seq<Pair>)
    requires SortedKeys(ps) && SortedKeys(qs) && ToMap(ps) == ToMap(qs) && ps != [] && qs != []
    ensures ps[|ps| - 1] == qs[|qs| - 1]
  {
    hide ToMap, Less;
    MapOfSorted(ps);
    MapOfSorted(qs);
    var a, b := ps[|ps| - 1], qs[|qs| - 1];
    assert HasKey(qs, a.0) && HasKey(ps, b.0);
    var i :| 0 <= i < |qs| && qs[i].0 == a.0;
    var j :| 0 <= j < |ps| && ps[j].0 == b.0;
    if i < |qs| - 1 {
      LessAsymmetric(a.0, b.0);
    }
  }

  lemma FrontMap(ps: seq<Pair>)
    requires SortedKeys(ps) && ps != []
    ensures ToMap(ps[..|ps| - 1]) == ToMap(ps) - {ps[|ps| - 1].0}
    ensures SortedKeys(ps[..|ps| - 1])
  {
    hide Less;
    var front, last := ps[..|ps| - 1], ps[|ps| - 1];
    SortedIsDistinct(ps);
    MapOfDistinct(front);
    assert forall i :: 0 <= i < |front| ==> front[i] == ps[i];
    assert !HasKey(front, last.0);
    UpdateMinus(ToMap(front), last.0, last.1);
    assert ToMap(ps) == ToMap(front)[last.0 := last.1];
  }

  lemma UpdateMinus(m: map<string, string>, k: string, v: string)
    requires k !in m
    ensures m[k := v] - {k} == m
  {}

  /** Characterises a map by a sorted list without unfolding it. */
  lemma MapIs(ps: seq<Pair>, m: map<string, string>)
    requires SortedKeys(ps)
    requires forall k :: k in m <==> HasKey(ps, k)
    requires forall i :: 0 <= i < |ps| ==> ps[i].0 in m && m[ps[i].0] == ps[i].1
    ensures ToMap(ps) == m
  {
    hide ToMap, Less;
    MapOfSorted(ps);
    forall k | k in m ensures ToMap(ps)[k] == m[k] {
      var i :| 0 <= i < |ps| && ps[i].0 == k;
    }
    assert ToMap(ps).Keys == m.Keys;
  }

  lemma PositionSplits(ps: seq<Pair>, key: string)
    requires SortedKeys(ps)
    ensures var i := Position(ps, key);
            forall k :: i <= k < |ps| && !(k == i && ps[i].0 == key) ==> Less(key, ps[k].0)
  {
    var i := Position(ps, key);
    forall k | i <= k < |ps| && !(k == i && ps[i].0 == key) ensures Less(key, ps[k].0) {
      LessTotal(key, ps[i].0);
      if k > i && ps[i].0 != key {
        LessTransitive(key, ps[i].0, ps[k].0);
      }
    }
  }

  /** AddTag keeps the list sorted and updates the map at one key. */
  lemma AddedUpdates(ps: seq<Pair>, key: string, value: string)
    requires SortedKeys(ps)
    ensures SortedKeys(Added(ps, key, value))
    ensures ToMap(Added(ps, key, value)) == ToMap(ps)[key := value]
  {
    var i := Position(ps, key);
    MapOfSorted(ps);
    PositionSplits(ps, key);
    if i < |ps| && ps[i].0 == key {
      Overwritten(ps, i, value);
    } else {
      Inserted(ps, i, key, value);
    }
  }

  lemma Overwritten(ps: seq<Pair>, i: nat, value: string)
    requires SortedKeys(ps) && i < |ps|
    ensures var rs := ps[i := (ps[i].0, value)];
            SortedKeys(rs) && ToMap(rs) == ToMap(ps)[ps[i].0 := value]
  {
    hide ToMap, Less;
    MapOfSorted(ps);
    var rs, m := ps[i := (ps[i].0, value)], ToMap(ps)[ps[i].0 := value];
    assert forall k :: 0 <= k < |rs| ==> rs[k].0 == ps[k].0;
    SameKeys(ps, rs);
    MapIs(rs, m);
  }

  lemma SameKeys(ps: seq<Pair>, rs: seq<Pair>)
    requires |ps| == |rs| && forall k :: 0 <= k < |rs| ==> rs[k].0 == ps[k].0
    ensures forall k :: HasKey(ps, k) <==> HasKey(rs, k)
  {}

  lemma InsertedElements(ps: seq<Pair>, i: nat, x: Pair)
    requires i <= |ps|
    ensures var rs := ps[..i] + [x] + ps[i..];
            |rs| == |ps| + 1 &&
            forall k :: 0 <= k < |rs| ==> rs[k] == if k < i then ps[k] else if k == i then x else ps[k - 1]
  {}

  lemma Inserted(ps: seq<Pair>, i: nat, key: string, value: string)
    requires SortedKeys(ps) && i <= |ps|
    requires forall k :: 0 <= k < i ==> Less(ps[k].0, key)
    requires forall k :: i <= k < |ps| ==> Less(key, ps[k].0)
    ensures var rs := ps[..i] + [(key, value)] + ps[i..];
            SortedKeys(rs) && ToMap(rs) == ToMap(ps)[key := value]
  {
    hide ToMap, Less;
    MapOfSorted(ps);
    InsertedElements(ps, i, (key, value));
    InsertedKeys(ps, i, (key, value));
    NotAmong(ps, i, key);
    MapIs(ps[..i] + [(key, value)] + ps[i..], ToMap(ps)[key := value]);
  }

  lemma InsertedKeys(ps: seq<Pair>, i: nat, x: Pair)
    requires i <= |ps|
    ensures forall k :: HasKey(ps[..i] + [x] + ps[i..], k) <==> HasKey(ps, k) || k == x.0
  {
    InsertedElements(ps, i, x);
    var rs := ps[..i] + [x] + ps[i..];
    forall k | HasKey(ps, k) || k == x.0 ensures HasKey(rs, k) {
      if k == x.0 {
        assert rs[i].0 == k;
      } else {
        var j :| 0 <= j < |ps| && ps[j].0 == k;
        assert rs[if j < i then j else j + 1] == ps[j];
      }
    }
  }

  lemma NotAmong(ps: seq<Pair>, i: nat, key: string)
    requires i <= |ps|
    requires forall k :: 0 <= k < i ==> Less(ps[k].0, key)
    requires forall k :: i <= k < |ps| ==> Less(key, ps[k].0)
    ensures forall k :: 0 <= k < |ps| ==> ps[k].0 != key
  {
    hide Less;
    forall k | 0 <= k < |ps| ensures ps[k].0 != key {
      if k < i {
        LessAsymmetric(ps[k].0, key);
      } else {
        LessAsymmetric(key, ps[k].0);
      }
    }
  }

  /** RemoveTag keeps the list sorted and removes one key from the map. */
  lemma RemovedUpdates(ps: seq<Pair>, key: string)
    requires SortedKeys(ps)
    ensures SortedKeys(Removed(ps, key)) && ToMap(Removed(ps, key)) == ToMap(ps) - {key}
  {
    hide ToMap, Less, SortedKeys;
    var i := Find(ps, key);
    if i < |ps| {
      RemovedSorted(ps, i);
      RemovedMap(ps, i);
    } else {
      MapOfSorted(ps);
      assert !HasKey(ps, key);
      assert ToMap(ps) - {key} == ToMap(ps);
    }
  }

  lemma RemovedSorted(ps: seq<Pair>, i: nat)
    requires i < |ps| && SortedKeys(ps)
    ensures SortedKeys(ps[..i] + ps[i + 1..])
  {
    hide Less;
    MapOfSorted(ps);
    hide DistinctKeys, HasKey;
    RemovedElements(ps, i);
  }

  lemma RemovedMap(ps: seq<Pair>, i: nat)
    requires i < |ps| && SortedKeys(ps)
    ensures ToMap(ps[..i] + ps[i + 1..]) == ToMap(ps) - {ps[i].0}
  {
    hide ToMap, SortedKeys;
    RemovedSorted(ps, i);
    MapOfSorted(ps);
    hide DistinctKeys, HasKey;
    RemovedElements(ps, i);
    MapIs(ps[..i] + ps[i + 1..], ToMap(ps) - {ps[i].0});
  }

  lemma RemovedElements(ps: seq<Pair>, i: nat)
    requires i < |ps| && DistinctKeys(ps)
    ensures var rs := ps[..i] + ps[i + 1..];
            |rs| == |ps| - 1 &&
            (forall k :: 0 <= k < |rs| ==> rs[k] == (if k < i then ps[k] else ps[k + 1]) && rs[k].0 != ps[i].0) &&
            forall k :: HasKey(rs, k) <==> HasKey(ps, k) && k != ps[i].0
  {
    var rs := ps[..i] + ps[i + 1..];
    assert forall k :: 0 <= k < |rs| ==> rs[k] == if k < i then ps[k] else ps[k + 1];
    forall k | HasKey(ps, k) && k != ps[i].0 ensures HasKey(rs, k) {
      var j :| 0 <= j < |ps| && ps[j].0 == k;
      assert rs[if j < i then j else j - 1] == ps[j];
    }
  }

  // ---------- The hash input ----------

  /** Each string followed by a newline. */
  function Lines(xs: seq<string>): string {
    if xs == [] then "" else xs[0] + "\n" + Lines(xs[1..])
  }

  /** What HashID writes for the tags: key and value, a line each. */
  function TagLines(ps: seq<Pair>): seq<string> {
    if ps == [] then [] else [ps[0].0, ps[0].1] + TagLines(ps[1..])
  }

  function HashInput(name: string, ps: seq<Pair>): string { Lines([name] + TagLines(ps)) }

  predicate OneLine(s: string) { '\n' !in s }

  ghost predicate OneLiners(xs: seq<string>) {
    forall i :: 0 <= i < |xs| ==> OneLine(xs[i])
  }

  lemma FirstLine(a: string, s: string, b: string, t: string)
    requires OneLine(a) && OneLine(b) && a + "\n" + s == b + "\n" + t
    ensures a == b && s == t
  {
    var x, y := a + "\n" + s, b + "\n" + t;
    assert x[|a|] == '\n' && y[|b|] == '\n';
    assert forall i :: 0 <= i < |a| ==> x[i] == a[i];
    assert forall i :: 0 <= i < |b| ==> y[i] == b[i];
    assert |a| == |b|;
    assert a == x[..|a|] && b == y[..|b|];
    assert s == x[|a| + 1..] && t == y[|b| + 1..];
  }

  lemma {:induction false} LinesInjective(xs: seq<string>, ys: seq<string>)
    requires OneLiners(xs) && OneLiners(ys) && Lines(xs) == Lines(ys)
    ensures xs == ys
  {
    if xs != [] && ys != [] {
      FirstLine(xs[0], Lines(xs[1..]), ys[0], Lines(ys[1..]));
      LinesInjective(xs[1..], ys[1..]);
      assert xs == [xs[0]] + xs[1..] && ys == [ys[0]] + ys[1..];
    }
  }

  lemma {:induction false} TagLinesInjective(ps: seq<Pair>, qs: seq<Pair>)
    requires TagLines(ps) == TagLines(qs)
    ensures ps == qs
  {
    if ps != [] && qs != [] {
      assert TagLines(ps)[..2] == [ps[0].0, ps[0].1] && TagLines(ps)[2..] == TagLines(ps[1..]);
      assert TagLines(qs)[..2] == [qs[0].0, qs[0].1] && TagLines(qs)[2..] == TagLines(qs[1..]);
      TagLinesInjective(ps[1..], qs[1..]);
      assert ps == [ps[0]] + ps[1..] && qs == [qs[0]] + qs[1..];
    }
  }

  ghost predicate PlainPairs(ps: seq<Pair>) {
    forall i :: 0 <= i < |ps| ==> OneLine(ps[i].0) && OneLine(ps[i].1)
  }

  lemma {:induction false} PlainTagLines(ps: seq<Pair>)
    requires PlainPairs(ps)
    ensures OneLiners(TagLines(ps))
  {
    if ps != [] {
      PlainTagLines(ps[1..]);
      var rest := TagLines(ps[1..]);
      var all := [ps[0].0, ps[0].1] + rest;
      assert forall i :: 2 <= i < |all| ==> all[i] == rest[i - 2];
    }
  }

  /**
   For metrics without newlines the hash input is the same exactly when name and tags are, however
   the tags were put together.
   */
  lemma HashInputIdentifiesSeries(name: string, ps: seq<Pair>, name': string, qs: seq<Pair>)
    requires SortedKeys(ps) && SortedKeys(qs)
    requires OneLine(name) && OneLine(name') && PlainPairs(ps) && PlainPairs(qs)
    ensures HashInput(name, ps) == HashInput(name', qs) <==> name == name' && ToMap(ps) == ToMap(qs)
  {
    if ToMap(ps) == ToMap(qs) {
      SortedListIsCanonical(ps, qs);
    }
    if HashInput(name, ps) == HashInput(name', qs) {
      PlainTagLines(ps);
      PlainTagLines(qs);
      var xs, ys := [name] + TagLines(ps), [name'] + TagLines(qs);
      LinesInjective(xs, ys);
      assert xs[0] == ys[0] && xs[1..] == ys[1..];
      TagLinesInjective(ps, qs);
    }
  }

  // ---------- Which hash inputs are unmistakable ----------

  function Newlines(s: string): nat {
    if s == "" then 0 else (if s[0] == '\n' then 1 else 0) + Newlines(s[1..])
  }

  lemma {:induction false} NewlinesAdd(s: string, t: string)
    ensures Newlines(s + t) == Newlines(s) + Newlines(t)
  {
    if s == "" {
      assert s + t == t;
    } else {
      assert (s + t)[1..] == s[1..] + t;
      NewlinesAdd(s[1..], t);
    }
  }

  lemma {:induction false} NewlinesOfLines(xs: seq<string>)
    ensures Newlines(Lines(xs)) >= |xs|
  {
    if xs != [] {
      NewlinesAdd(xs[0] + "\n", Lines(xs[1..]));
      NewlinesAdd(xs[0], "\n");
      assert "\n"[1..] == "";
      NewlinesOfLines(xs[1..]);
    }
  }

  lemma {:induction false} TwoLinesATag(ps: seq<Pair>)
    ensures |TagLines(ps)| == 2 * |ps|
  {
    if ps != [] {
      TwoLinesATag(ps[1..]);
    }
  }

  lemma UntaggedInput(name: string)
    ensures HashInput(name, []) == name + "\n"
  {
    var xs := [name] + TagLines([]);
    assert TagLines([]) == [] && xs == [name] && xs[1..] == [];
    assert HashInput(name, []) == Lines(xs) == name + "\n" + "";
    assert name + "\n" + "" == name + "\n";
  }

  lemma TaggedInput(name: string, k: string, v: string)
    ensures HashInput(name, [(k, v)]) == name + "\n" + k + "\n" + v + "\n"
  {
    var ps: seq<Pair> := [(k, v)];
    assert ps[1..] == [] && TagLines(ps) == [k, v];
    var xs := [name] + TagLines(ps);
    assert xs == [name, k, v] && xs[1..] == [k, v] && [k, v][1..] == [v] && [v][1..] == [];
    hide TagLines;
    assert v + "\n" + "" == v + "\n";
    assert Lines([v]) == v + "\n";
    assert Lines([k, v]) == k + "\n" + Lines([v]);
    assert HashInput(name, ps) == Lines(xs) == name + "\n" + Lines([k, v]);
    OneLineEach(name, k, v);
  }

  lemma OneLineEach(a: string, b: string, c: string)
    ensures a + "\n" + (b + "\n" + (c + "\n")) == a + "\n" + b + "\n" + c + "\n"
    ensures a + "\n" + (b + "\n" + c) + "\n" == a + "\n" + b + "\n" + c + "\n"
  {}

  lemma {:induction false} LinesOfTwo(xs: seq<string>, ys: seq<string>)
    ensures Lines(xs + ys) == Lines(xs) + Lines(ys)
  {
    if xs == [] {
      assert xs + ys == ys;
    } else {
      assert (xs + ys)[1..] == xs[1..] + ys;
      LinesOfTwo(xs[1..], ys);
    }
  }

  lemma {:induction false} TagLinesOfTwo(ps: seq<Pair>, qs: seq<Pair>)
    ensures TagLines(ps + qs) == TagLines(ps) + TagLines(qs)
  {
    if ps == [] {
      assert ps + qs == qs;
    } else {
      assert (ps + qs)[1..] == ps[1..] + qs;
      TagLinesOfTwo(ps[1..], qs);
    }
  }

  /** The bytes written out: the name on a line, then for each tag in turn its key and its value, a line each. */
  lemma HashInputGrows(name: string, ps: seq<Pair>, k: string, v: string)
    ensures HashInput(name, []) == name + "\n"
    ensures HashInput(name, ps + [(k, v)]) == HashInput(name, ps) + k + "\n" + v + "\n"
  {
    UntaggedInput(name);
    var x: seq<Pair> := [(k, v)];
    TagLinesOfTwo(ps, x);
    assert x[1..] == [] && TagLines(x) == [k, v];
    assert [name] + (TagLines(ps) + [k, v]) == ([name] + TagLines(ps)) + [k, v];
    LinesOfTwo([name] + TagLines(ps), [k, v]);
    TwoLines(k, v);
  }

  lemma TwoLines(k: string, v: string)
    ensures Lines([k, v]) == k + "\n" + v + "\n"
  {
    assert [k, v][1..] == [v] && [v][1..] == [] && v + "\n" + "" == v + "\n";
    assert Lines([v]) == v + "\n";
    assert Lines([k, v]) == k + "\n" + Lines([v]);
    assert k + "\n" + (v + "\n") == k + "\n" + v + "\n";
  }

  /** Some other series has this hash input. */
  ghost predicate Imitated(name: string, ps: seq<Pair>) {
    exists n, qs: seq<Pair> :: SortedKeys(qs) && HashInput(n, qs) == HashInput(name, ps) && !(n == name && qs == ps)
  }

  lemma {:induction false} EndsInNewline(xs: seq<string>)
    requires xs != []
    ensures Lines(xs) != "" && Lines(xs)[|Lines(xs)| - 1] == '\n'
  {
    if |xs| > 1 {
      EndsInNewline(xs[1..]);
    }
  }

  lemma {:induction false} FirstNewline(s: string) returns (i: nat)
    requires Newlines(s) > 0
    ensures i < |s| && s == s[..i] + "\n" + s[i + 1..] && Newlines(s[i + 1..]) == Newlines(s) - 1
  {
    if s[0] == '\n' {
      i := 0;
    } else {
      var j := FirstNewline(s[1..]);
      i := j + 1;
      assert s == [s[0]] + s[1..];
    }
  }

  /** A series with tags is imitated by one that has it all in its name. */
  lemma TagsAreImitated(name: string, ps: seq<Pair>)
    requires ps != []
    ensures Imitated(name, ps)
  {
    var xs := [name] + TagLines(ps);
    EndsInNewline(xs);
    var s := Lines(xs);
    UntaggedInput(s[..|s| - 1]);
    assert s == s[..|s| - 1] + "\n";
    assert SortedKeys([]);
  }

  lemma ImitatedBy(name: string, n: string, k: string, v: string)
    requires HashInput(n, [(k, v)]) == HashInput(name, [])
    ensures Imitated(name, [])
  {
    assert SortedKeys([(k, v)]);
  }

  /** A name with two newlines is imitated by a shorter name and a tag. */
  lemma NewlinesAreImitated(name: string)
    requires Newlines(name) >= 2
    ensures Imitated(name, [])
  {
    var i := FirstNewline(name);
    var rest := name[i + 1..];
    var j := FirstNewline(rest);
    var k, v := rest[..j], rest[j + 1..];
    TaggedInput(name[..i], k, v);
    UntaggedInput(name);
    hide HashInput, TagLines, Lines, Newlines;
    assert name == name[..i] + "\n" + (k + "\n" + v);
    OneLineEach(name[..i], k, v);
    ImitatedBy(name, name[..i], k, v);
  }

  /** A hash input belongs to one series alone exactly when that has no tags and at most one newline in its name. */
  lemma ImitatedIff(name: string, ps: seq<Pair>)
    ensures Imitated(name, ps) <==> ps != [] || Newlines(name) >= 2
  {
    if ps != [] {
      TagsAreImitated(name, ps);
    } else if Newlines(name) >= 2 {
      NewlinesAreImitated(name);
    } else if Imitated(name, ps) {
      var n, qs: seq<Pair> :| SortedKeys(qs) && HashInput(n, qs) == HashInput(name, ps) && !(n == name && qs == ps);
      UntaggedInput(name);
      NewlinesAdd(name, "\n");
      NewlinesOfLines([n] + TagLines(qs));
      TwoLinesATag(qs);
      OneNewline();
      assert qs == [];
      UntaggedInput(n);
      SameWithNewline(n, name);
    }
  }

  lemma OneNewline()
    ensures Newlines("\n") == 1
  {
    assert "\n"[1..] == "";
  }

  lemma SameWithNewline(s: string, t: string)
    requires s + "\n" == t + "\n"
    ensures s == t
  {
    assert s == (s + "\n")[..|s + "\n"| - 1] && t == (t + "\n")[..|t + "\n"| - 1];
  }
}
