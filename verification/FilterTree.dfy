/**
 The filter trees of internal/templating/node.go as values: children sorted with "*" last, insertion, and
 the lookup that binary search has to agree with. FilterNodes has the objects that stand for them.
 */
module FilterTree {
  import opened Lists
  import opened Options
  import opened Text

  const WILDCARD := "*"

  /** nodes.Less: string order, except that a wildcard comes after everything else. */
  predicate Before(a: string, b: string) {
    if a == WILDCARD && b != WILDCARD then false
    else if a != WILDCARD && b == WILDCARD then true
    else Less(a, b)
  }

  lemma BeforeTransitive(a: string, b: string, c: string)
    requires Before(a, b) && Before(b, c)
    ensures Before(a, c)
  {
    if a != WILDCARD && b != WILDCARD && c != WILDCARD {
      LessTransitive(a, b, c);
    }
    LessIrreflexive(WILDCARD);
  }

  lemma BeforeTotal(a: string, b: string)
    ensures a == b || Before(a, b) || Before(b, a)
    ensures !(Before(a, b) && Before(b, a)) && !Before(a, a)
  {
    LessTotal(a, b);
    LessIrreflexive(a);
    if Less(a, b) {
      LessAsymmetric(a, b);
    }
  }

  datatype Node<T> = Node(value: string, template: Option<T>, children: seq<Node<T>>)

  ghost predicate Sorted<T>(ns: seq<Node<T>>) {
    forall i, j :: 0 <= i < j < |ns| ==> Before(ns[i].value, ns[j].value)
  }

  /** Children are strictly sorted everywhere, and every branch leads to a template. */
  ghost predicate WellFormed<T>(n: Node<T>) {
    Sorted(n.children) &&
    forall i :: 0 <= i < |n.children| ==>
      WellFormed(n.children[i]) && (n.children[i].template.Some? || n.children[i].children != [])
  }

  /** The loop over the children: the position of the child for `value`, or their number. */
  function Find<T>(ns: seq<Node<T>>, value: string): (i: nat)
    ensures i <= |ns| && (i < |ns| ==> ns[i].value == value)
    ensures forall k :: 0 <= k < i ==> ns[k].value != value
  {
    FirstIndex(ns, (n: Node<T>) => n.value == value)
  }

  /** append followed by sort.Sort, see `PlaceIsSort`. */
  function Place<T>(ns: seq<Node<T>>, x: Node<T>): seq<Node<T>> {
    if ns == [] || Before(x.value, ns[0].value) then [x] + ns else [ns[0]] + Place(ns[1..], x)
  }

  /** recursiveInsert. */
  function Insert<T>(n: Node<T>, path: seq<string>, t: T): Node<T>
    decreases path
  {
    if path == [] then n.(template := Some(t))
    else
      var i := Find(n.children, path[0]);
      if i < |n.children| then
        n.(children := n.children[i := Insert(n.children[i], path[1..], t)])
      else
        n.(children := Place(n.children, Insert(Node(path[0], None, []), path[1..], t)))
  }

  /** The template stored for exactly this path. */
  function Get<T>(n: Node<T>, path: seq<string>): Option<T> {
    if path == [] then n.template
    else
      var i := Find(n.children, path[0]);
      if i < |n.children| then Get(n.children[i], path[1..]) else None
  }

  /** What recursiveSearch should find: an exact child, else the wildcard, else stop here. */
  function Lookup<T>(n: Node<T>, parts: seq<string>): Option<T>
    decreases parts
  {
    if parts == [] then n.template
    else
      var i, w := Find(n.children, parts[0]), Find(n.children, WILDCARD);
      if i < |n.children| then Lookup(n.children[i], parts[1..])
      else if w < |n.children| then Lookup(n.children[w], parts[1..])
      else n.template
  }

  // ---------- Searching ----------

  lemma FindIs<T>(ns: seq<Node<T>>, i: nat)
    requires Sorted(ns) && i < |ns|
    ensures Find(ns, ns[i].value) == i
  {
    var j := Find(ns, ns[i].value);
    if j < i {
      BeforeTotal(ns[j].value, ns[i].value);
    }
  }

  /** Only the last of sorted children can be the wildcard. */
  lemma WildcardIsLast<T>(ns: seq<Node<T>>, k: nat)
    requires Sorted(ns) && k < |ns| - 1
    ensures ns[k].value != WILDCARD
  {
    assert Before(ns[k].value, ns[|ns| - 1].value);
    LessIrreflexive(WILDCARD);
  }

  lemma EarlierIsLess<T>(ns: seq<Node<T>>, j: nat, k: nat)
    requires Sorted(ns) && j < k < |ns| && ns[k].value != WILDCARD
    ensures Less(ns[j].value, ns[k].value)
  {
    assert Before(ns[j].value, ns[k].value);
    WildcardIsLast(ns, j);
  }

  lemma SearchMeansFind<T>(ns: seq<Node<T>>, part: string, i: nat, length: nat)
    requires Sorted(ns) && i <= length <= |ns| <= length + 1
    requires length < |ns| ==> ns[length].value == WILDCARD
    requires forall k :: 0 <= k < length ==> ns[k].value != WILDCARD
    requires forall k :: 0 <= k < i ==> Less(ns[k].value, part)
    requires forall k :: i <= k < length ==> !Less(ns[k].value, part)
    ensures i < |ns| && ns[i].value == part ==> Find(ns, part) == i
    ensures !(i < |ns| && ns[i].value == part) ==> Find(ns, part) == |ns| || part == WILDCARD
  {
    hide Before;
    if i < |ns| && ns[i].value == part {
      FindIs(ns, i);
    } else {
      var j := Find(ns, part);
      if j < |ns| && part != WILDCARD {
        LessIrreflexive(part);
        assert i < j < length;
        EarlierIsLess(ns, i, j);
      }
    }
  }

  lemma WildcardChild<T>(ns: seq<Node<T>>)
    requires Sorted(ns) && ns != []
    ensures Find(ns, WILDCARD) == if ns[|ns| - 1].value == WILDCARD then |ns| - 1 else |ns|
  {
    hide Before, Less, Find;
    var w := Find(ns, WILDCARD);
    if w < |ns| - 1 {
      WildcardIsLast(ns, w);
    }
  }

  // ---------- Inserting ----------

  lemma {:induction false} PlaceAt<T>(ns: seq<Node<T>>, x: Node<T>) returns (k: nat)
    requires Sorted(ns) && forall i :: 0 <= i < |ns| ==> ns[i].value != x.value
    ensures k <= |ns| && Place(ns, x) == ns[..k] + [x] + ns[k..]
    ensures forall i :: 0 <= i < k ==> Before(ns[i].value, x.value)
    ensures forall i :: k <= i < |ns| ==> Before(x.value, ns[i].value)
  {
    hide Before;
    if ns == [] {
      k := 0;
    } else if Before(x.value, ns[0].value) {
      k := 0;
      forall i | 0 < i < |ns| ensures Before(x.value, ns[i].value) {
        BeforeTransitive(x.value, ns[0].value, ns[i].value);
      }
    } else {
      BeforeTotal(x.value, ns[0].value);
      var tail := ns[1..];
      assert forall i :: 0 <= i < |tail| ==> tail[i] == ns[i + 1];
      var j := PlaceAt(tail, x);
      k := j + 1;
      assert ns[..k] == [ns[0]] + tail[..j] && ns[k..] == tail[j..];
      forall i | 0 <= i < k ensures Before(ns[i].value, x.value) {
        if i > 0 {
          assert ns[i] == tail[i - 1];
        }
      }
      forall i | k <= i < |ns| ensures Before(x.value, ns[i].value) {
        assert ns[i] == tail[i - 1];
      }
    }
  }

  lemma PlaceSorted<T>(ns: seq<Node<T>>, x: Node<T>)
    requires Sorted(ns) && forall i :: 0 <= i < |ns| ==> ns[i].value != x.value
    ensures Sorted(Place(ns, x)) && multiset(Place(ns, x)) == multiset(ns) + multiset{x}
  {
    hide Before, Place;
    var k := PlaceAt(ns, x);
    PlacedBag(ns, x, k);
    PlacedSorted(ns, x, k);
  }

  lemma PlacedBag<T>(ns: seq<T>, x: T, k: nat)
    requires k <= |ns|
    ensures multiset(ns[..k] + [x] + ns[k..]) == multiset(ns) + multiset{x}
  {
    assert ns == ns[..k] + ns[k..];
  }

  lemma PlacedSorted<T>(ns: seq<Node<T>>, x: Node<T>, k: nat)
    requires Sorted(ns) && k <= |ns|
    requires forall i :: 0 <= i < k ==> Before(ns[i].value, x.value)
    requires forall i :: k <= i < |ns| ==> Before(x.value, ns[i].value)
    ensures Sorted(ns[..k] + [x] + ns[k..])
  {
    hide Before;
    PlacedElements(ns, x, k);
  }

  lemma PlacedElements<T>(ns: seq<Node<T>>, x: Node<T>, k: nat)
    requires k <= |ns|
    ensures var ps := ns[..k] + [x] + ns[k..];
            |ps| == |ns| + 1 &&
            forall i :: 0 <= i < |ps| ==> ps[i] == if i < k then ns[i] else if i == k then x else ns[i - 1]
  {}

  /** Sorted lists of the same nodes are the same list, so any sort.Sort gives `Place`. */
  lemma PlaceIsSort<T>(ns: seq<Node<T>>, x: Node<T>, sorted: seq<Node<T>>)
    requires Sorted(ns) && forall i :: 0 <= i < |ns| ==> ns[i].value != x.value
    requires multiset(sorted) == multiset(ns + [x])
    requires forall i, j :: 0 <= i < j < |sorted| ==> !Before(sorted[j].value, sorted[i].value)
    ensures sorted == Place(ns, x)
  {
    PlaceSorted(ns, x);
    SortedUnique(Place(ns, x), sorted);
  }

  lemma {:induction false} SortedUnique<T>(a: seq<Node<T>>, b: seq<Node<T>>)
    requires Sorted(a) && multiset(a) == multiset(b)
    requires forall i, j :: 0 <= i < j < |b| ==> !Before(b[j].value, b[i].value)
    ensures a == b
  {
    hide Before;
    assert |multiset(a)| == |a| && |multiset(b)| == |b|;
    if a != [] {
      HeadsAgree(a, b);
      TailBag(a);
      TailBag(b);
      SortedUnique(a[1..], b[1..]);
      assert a == [a[0]] + a[1..] && b == [b[0]] + b[1..];
    }
  }

  lemma TailBag<T>(a: seq<T>)
    requires a != []
    ensures multiset(a[1..]) == multiset(a) - multiset{a[0]}
  {
    assert a == [a[0]] + a[1..];
  }

  lemma HeadsAgree<T>(a: seq<Node<T>>, b: seq<Node<T>>)
    requires Sorted(a) && multiset(a) == multiset(b) && a != [] && b != []
    requires forall i, j :: 0 <= i < j < |b| ==> !Before(b[j].value, b[i].value)
    ensures a[0] == b[0]
  {
    hide Before;
    assert a[0] in multiset(b) && b[0] in multiset(a);
    var i :| 0 <= i < |a| && a[i] == b[0];
    var j :| 0 <= j < |b| && b[j] == a[0];
    if i > 0 {
      assert Before(a[0].value, a[i].value);
      BeforeTotal(a[0].value, b[0].value);
    }
  }

  lemma LeafWellFormed<T>(n: Node<T>)
    requires n.children == []
    ensures WellFormed(n)
  {}

  lemma UpdateSorted<T>(ns: seq<Node<T>>, i: nat, x: Node<T>)
    requires Sorted(ns) && i < |ns| && x.value == ns[i].value
    ensures Sorted(ns[i := x])
  {
    hide Before;
  }

  lemma {:induction false} InsertWellFormed<T>(n: Node<T>, path: seq<string>, t: T)
    requires WellFormed(n)
    ensures var n' := Insert(n, path, t);
            WellFormed(n') && n'.value == n.value && (n'.template.Some? || n'.children != [])
    decreases path
  {
    hide Before, Find, Place, Sorted;
    if path != [] {
      var ns := n.children;
      var i := Find(ns, path[0]);
      if i < |ns| {
        InsertWellFormed(ns[i], path[1..], t);
        UpdateSorted(ns, i, Insert(ns[i], path[1..], t));
      } else {
        var leaf := Node(path[0], None, []);
        LeafWellFormed(leaf);
        InsertWellFormed(leaf, path[1..], t);
        var x := Insert(leaf, path[1..], t);
        PlaceSorted(ns, x);
        var k := PlaceAt(ns, x);
        PlacedElements(ns, x, k);
      }
    }
  }

  /** Where a value is found once a new child is in place. */
  lemma FindPlaced<T>(ns: seq<Node<T>>, x: Node<T>, value: string)
    requires Sorted(ns) && forall i :: 0 <= i < |ns| ==> ns[i].value != x.value
    ensures var ps := Place(ns, x);
            var i := Find(ps, value);
            if value == x.value then i < |ps| && ps[i] == x
            else if Find(ns, value) == |ns| then i == |ps|
            else i < |ps| && ps[i] == ns[Find(ns, value)]
  {
    hide Before, Place;
    PlaceSorted(ns, x);
    var k := PlaceAt(ns, x);
    var ps := Place(ns, x);
    PlacedElements(ns, x, k);
    if value == x.value {
      FindIs(ps, k);
    } else if Find(ns, value) < |ns| {
      var j := Find(ns, value);
      FindIs(ps, if j < k then j else j + 1);
    }
  }

  lemma FindUpdated<T>(ns: seq<Node<T>>, i: nat, x: Node<T>, value: string)
    requires Sorted(ns) && i < |ns| && x.value == ns[i].value
    ensures Find(ns[i := x], value) == Find(ns, value)
  {
    var us := ns[i := x];
    assert forall k :: 0 <= k < |us| ==> us[k].value == ns[k].value;
    var j := Find(ns, value);
    if j < |ns| {
      FindIs(ns, j);
      FindIs(us, j);
    }
  }

  /** Inserting updates the map from paths to templates at one path. */
  lemma {:induction false} GetInsert<T>(n: Node<T>, path: seq<string>, t: T, q: seq<string>)
    requires WellFormed(n)
    ensures Get(Insert(n, path, t), q) == if q == path then Some(t) else Get(n, q)
    decreases path
  {
    hide Before;
    var ns := n.children;
    if path != [] && q != [] {
      assert q == path <==> q[0] == path[0] && q[1..] == path[1..];
      var i := Find(ns, path[0]);
      if i < |ns| {
        InsertWellFormed(ns[i], path[1..], t);
        FindUpdated(ns, i, Insert(ns[i], path[1..], t), q[0]);
        FindIs(ns, i);
        GetInsert(ns[i], path[1..], t, q[1..]);
      } else {
        var leaf := Node(path[0], None, []);
        InsertWellFormed(leaf, path[1..], t);
        FindPlaced(ns, Insert(leaf, path[1..], t), q[0]);
        GetInsert(leaf, path[1..], t, q[1..]);
        NothingInLeaf(leaf, q[1..]);
      }
    }
  }

  lemma NothingInLeaf<T>(n: Node<T>, q: seq<string>)
    requires n.template == None && n.children == []
    ensures Get(n, q) == None
  {}

  // ---------- The tree is determined by its templates ----------

  /** Every branch of a well-formed tree leads to a template. */
  lemma {:induction false} SomePath<T>(n: Node<T>) returns (q: seq<string>)
    requires WellFormed(n) && (n.template.Some? || n.children != [])
    ensures Get(n, q).Some?
  {
    if n.template.Some? {
      q := [];
    } else {
      var p := SomePath(n.children[0]);
      q := [n.children[0].value] + p;
      FindIs(n.children, 0);
      assert q[1..] == p;
    }
  }

  ghost predicate SameTemplates<T>(a: Node<T>, b: Node<T>) {
    forall q :: Get(a, q) == Get(b, q)
  }

  lemma ChildInBoth<T>(a: Node<T>, b: Node<T>, i: nat) returns (j: nat)
    requires WellFormed(a) && WellFormed(b) && SameTemplates(a, b) && i < |a.children|
    ensures j < |b.children| && b.children[j].value == a.children[i].value
    ensures SameTemplates(a.children[i], b.children[j])
  {
    var c := a.children[i];
    var p := SomePath(c);
    FindIs(a.children, i);
    assert ([c.value] + p)[1..] == p;
    assert Get(a, [c.value] + p) == Get(c, p);
    assert Get(b, [c.value] + p).Some?;
    j := Find(b.children, c.value);
    forall q: seq<string> ensures Get(c, q) == Get(b.children[j], q) {
      assert ([c.value] + q)[1..] == q;
      assert Get(a, [c.value] + q) == Get(b, [c.value] + q);
    }
  }

  /** Two well-formed trees with the same templates at the same paths are the same tree. */
  lemma {:induction false} TreeIsCanonical<T>(a: Node<T>, b: Node<T>)
    requires WellFormed(a) && WellFormed(b) && a.value == b.value && SameTemplates(a, b)
    ensures a == b
    decreases a
  {
    hide Before, Get;
    assert a.template == b.template by { RootTemplate(a, b); }
    SameChildren(a, b);
    forall i | 0 <= i < |a.children| ensures a.children[i] == b.children[i] {
      TreeIsCanonical(a.children[i], b.children[i]);
    }
  }

  lemma RootTemplate<T>(a: Node<T>, b: Node<T>)
    requires SameTemplates(a, b)
    ensures a.template == b.template
  {
    assert Get(a, []) == Get(b, []);
  }

  lemma SameChildren<T>(a: Node<T>, b: Node<T>)
    requires WellFormed(a) && WellFormed(b) && SameTemplates(a, b)
    ensures |a.children| == |b.children|
    ensures forall i :: 0 <= i < |a.children| ==>
              a.children[i].value == b.children[i].value && SameTemplates(a.children[i], b.children[i])
  {
    hide Before, Get, SameTemplates;
    var xs, ys := Values(a.children), Values(b.children);
    Symmetric(a, b);
    ValuesIncluded(a, b);
    ValuesIncluded(b, a);
    SameValues(xs, ys);
    forall i | 0 <= i < |a.children|
      ensures a.children[i].value == b.children[i].value && SameTemplates(a.children[i], b.children[i])
    {
      assert xs[i] == ys[i];
      var j := ChildInBoth(a, b, i);
      FindIs(b.children, i);
      FindIs(b.children, j);
    }
  }

  lemma ValuesIncluded<T>(a: Node<T>, b: Node<T>)
    requires WellFormed(a) && WellFormed(b) && SameTemplates(a, b)
    ensures forall v :: v in Values(a.children) ==> v in Values(b.children)
  {
    hide Before, Get, SameTemplates, WellFormed;
    forall v | v in Values(a.children) ensures v in Values(b.children) {
      var i :| 0 <= i < |a.children| && Values(a.children)[i] == v;
      var j := ChildInBoth(a, b, i);
      assert Values(b.children)[j] == v;
    }
  }

  lemma Symmetric<T>(a: Node<T>, b: Node<T>)
    requires SameTemplates(a, b)
    ensures SameTemplates(b, a)
  {}

  function Values<T>(ns: seq<Node<T>>): seq<string> {
    seq(|ns|, i requires 0 <= i < |ns| => ns[i].value)
  }

  /** Strictly sorted lists with the same elements are equal. */
  lemma {:induction false} SameValues(xs: seq<string>, ys: seq<string>)
    requires forall i, j :: 0 <= i < j < |xs| ==> Before(xs[i], xs[j])
    requires forall i, j :: 0 <= i < j < |ys| ==> Before(ys[i], ys[j])
    requires forall v :: v in xs <==> v in ys
    ensures xs == ys
  {
    hide Before;
    if xs == [] {
      assert forall v :: v in multiset(ys) ==> v in ys;
      assert multiset(ys) == multiset{};
      assert |multiset(ys)| == |ys|;
    } else {
      assert xs[0] in ys && ys[0] in xs;
      SameHead(xs, ys);
      forall v ensures v in xs[1..] <==> v in ys[1..] {
        InTail(xs, v);
        InTail(ys, v);
      }
      SameValues(xs[1..], ys[1..]);
      assert xs == [xs[0]] + xs[1..] && ys == [ys[0]] + ys[1..];
    }
  }

  lemma SameHead(xs: seq<string>, ys: seq<string>)
    requires forall i, j :: 0 <= i < j < |xs| ==> Before(xs[i], xs[j])
    requires forall i, j :: 0 <= i < j < |ys| ==> Before(ys[i], ys[j])
    requires xs != [] && ys != [] && xs[0] in ys && ys[0] in xs
    ensures xs[0] == ys[0]
  {
    hide Before;
    var i :| 0 <= i < |xs| && xs[i] == ys[0];
    var j :| 0 <= j < |ys| && ys[j] == xs[0];
    BeforeTotal(xs[0], ys[0]);
  }

  lemma InTail(xs: seq<string>, v: string)
    requires xs != [] && forall i, j :: 0 <= i < j < |xs| ==> Before(xs[i], xs[j])
    ensures v in xs[1..] <==> v in xs && v != xs[0]
  {
    hide Before;
    assert xs == [xs[0]] + xs[1..];
    BeforeTotal(xs[0], xs[0]);
    if v in xs[1..] {
      var i :| 0 <= i < |xs[1..]| && xs[1..][i] == v;
      assert xs[i + 1] == v && Before(xs[0], xs[i + 1]);
    }
  }

  /** Inserts at different paths commute: the same tree results. */
  lemma InsertsCommute<T>(n: Node<T>, p: seq<string>, t: T, q: seq<string>, u: T)
    requires WellFormed(n) && p != q
    ensures Insert(Insert(n, p, t), q, u) == Insert(Insert(n, q, u), p, t)
  {
    var a, b := Insert(n, p, t), Insert(n, q, u);
    InsertWellFormed(n, p, t);
    InsertWellFormed(n, q, u);
    InsertWellFormed(a, q, u);
    InsertWellFormed(b, p, t);
    forall r: seq<string> ensures Get(Insert(a, q, u), r) == Get(Insert(b, p, t), r) {
      GetInsert(a, q, u, r);
      GetInsert(n, p, t, r);
      GetInsert(b, p, t, r);
      GetInsert(n, q, u, r);
    }
    TreeIsCanonical(Insert(a, q, u), Insert(b, p, t));
  }
}
