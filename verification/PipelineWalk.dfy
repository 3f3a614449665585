/** Compiling a template to per-node tag lists (config-provider.service.ts). */
module PipelineWalks {
  import opened Options
  import opened TemplateGraphs
  import opened Templates

  /** For a node id, the tags a metric must carry to enter that node. */
  type TagMultiMap = map<Id, seq<Id>>

  /** No reference is without id or to an input; they need not resolve. */
  ghost predicate ValidRefs(n: Node) {
    n.next.Some? ==>
      forall i :: 0 <= i < |n.next.value| ==> n.next.value[i].kind != Input && n.next.value[i].id != ""
  }

  ghost predicate Regular(t: Template) {
    DistinctIds(t) && forall k: Kind, i :: 0 <= i < |t.List(k)| ==> ValidRefs(t.List(k)[i])
  }

  /** What the walk needs. */
  ghost predicate Walkable(t: Template) {
    Regular(t) && Acyclic(Walked(t))
  }

  /** The editor's templates are walkable unless they have a cycle, or a node with the empty id. */
  lemma WellFormedIsWalkable(t: Template)
    requires WellFormed(t) && Acyclic(Drawn(t)) && GetNode(t, "").None?
    ensures Walkable(t)
  {
    WellFormedDistinct(t);
    forall a, b ensures Edge(Walked(t), a, b) <==> Edge(Drawn(t), a, b) { SameGraph(t, a, b); }
    FewerLinksStayAcyclic(Drawn(t), Walked(t));
    hide Acyclic, GoodIds, KindOf, GetNode, DistinctIds;
    forall k: Kind, i | 0 <= i < |t.List(k)| ensures ValidRefs(t.List(k)[i]) {
      assert GoodNode(t, t.List(k)[i], k);
    }
  }

  /** `n` is a node of the template. */
  predicate NodeOf(t: Template, n: Node) {
    NodeAt(t, n.id) == Some(n)
  }

  // ---------- Termination ----------

  ghost function AllIds(t: Template): set<Id> {
    set i | 0 <= i < |AllNodes(t)| :: AllNodes(t)[i].id
  }

  ghost predicate Beyond(t: Template, a: Id, x: Id) {
    exists p :: Path(Walked(t), p, a, x) && |p| > 1
  }

  /** The ids reached over one or more links: the walk goes down this set. */
  ghost function Descendants(t: Template, a: Id): set<Id> {
    set x | x in AllIds(t) && Beyond(t, a, x)
  }

  lemma PresentId(t: Template, id: Id)
    requires NodeAt(t, id).Some?
    ensures id in AllIds(t)
  {
    var ns := AllNodes(t);
    assert ns[FindIndex(ns, id)].id in AllIds(t);
  }

  lemma LinkPath(t: Template, a: Id, b: Id)
    requires Edge(Walked(t), a, b)
    ensures Path(Walked(t), [a, b], a, b)
  {
    hide Edge;
  }

  lemma Extends(t: Template, a: Id, b: Id, q: seq<Id>, x: Id)
    requires Edge(Walked(t), a, b) && Path(Walked(t), q, b, x)
    ensures Path(Walked(t), [a] + q, a, x)
  {
    hide Edge;
    LinkPath(t, a, b);
    JoinPaths(Walked(t), [a, b], q, a, b, x);
    assert [a, b] + q[1..] == [a] + q;
  }

  /** In an acyclic template every link leads to fewer descendants. */
  lemma Descends(t: Template, a: Id, b: Id)
    requires Acyclic(Walked(t)) && Edge(Walked(t), a, b) && NodeAt(t, b).Some?
    ensures Descendants(t, b) < Descendants(t, a)
  {
    hide Edge, NodeAt, AllIds;
    PresentId(t, b);
    LinkPath(t, a, b);
    forall x | Beyond(t, b, x) ensures Beyond(t, a, x) {
      var q :| Path(Walked(t), q, b, x) && |q| > 1;
      Extends(t, a, b, q, x);
    }
    assert !Beyond(t, b, b);
    assert b in Descendants(t, a);
  }

  lemma SmallerSet(s: set<Id>, s': set<Id>)
    requires s < s'
    ensures |s| < |s'|
  {
    assert s' == s + (s' - s);
    assert |s' - s| > 0;
  }

  /** The node findNode gives for a link is the one with that id, and the link leads there. */
  lemma LinkResolves(t: Template, n: Node, i: nat)
    requires Walkable(t) && NodeOf(t, n) && n.next.Some? && i < |n.next.value|
    ensures var found := FindNode(t, n.next.value[i]);
            !found.Invalid? &&
            (found.Found? ==> NodeOf(t, found.node) && found.node.id == n.next.value[i].id &&
                              Edge(Walked(t), n.id, found.node.id))
  {
    var ref := n.next.value[i];
    var k, j := ListOfNode(t, FindIndex(AllNodes(t), n.id));
    assert ValidRefs(t.List(k)[j]);
    hide Acyclic, FindIndex, AllNodes, DistinctIds;
    if FindNode(t, ref).Found? {
      AtIs(t, ref.kind, FindIndex(t.List(ref.kind), ref.id));
    }
  }

  /** The node behind the i-th link; it has fewer descendants. */
  function Child(t: Template, n: Node, i: nat): (c: Node)
    requires Walkable(t) && NodeOf(t, n) && n.next.Some? && i < |n.next.value| && FindNode(t, n.next.value[i]).Found?
    ensures NodeOf(t, c) && c.id == n.next.value[i].id && Edge(Walked(t), n.id, c.id)
    ensures FindNode(t, n.next.value[i]) == Found(c)
    ensures |Descendants(t, c.id)| < |Descendants(t, n.id)|
  {
    LinkResolves(t, n, i);
    ChildDescends(t, n, i);
    FindNode(t, n.next.value[i]).node
  }

  lemma ChildDescends(t: Template, n: Node, i: nat)
    requires Walkable(t) && NodeOf(t, n) && n.next.Some? && i < |n.next.value|
    requires FindNode(t, n.next.value[i]).Found?
    ensures |Descendants(t, n.next.value[i].id)| < |Descendants(t, n.id)|
  {
    LinkResolves(t, n, i);
    hide Regular, Acyclic, Edge, Descendants, FindNode;
    Descends(t, n.id, n.next.value[i].id);
    SmallerSet(Descendants(t, n.next.value[i].id), Descendants(t, n.id));
  }

  // ---------- The walk ----------

  /** walkPipeline: defined, so terminating, on every acyclic template. */
  function Walk(t: Template, n: Node, tags: seq<Id>): TagMultiMap
    requires Walkable(t) && NodeOf(t, n)
    decreases |Descendants(t, n.id)|, 1, 0
  {
    if n.next.None? then map[n.id := tags] else WalkLinks(t, n, tags, |n.next.value|)
  }

  /** The reduce over the first `k` links: later entries override earlier ones. */
  function WalkLinks(t: Template, n: Node, tags: seq<Id>, k: nat): TagMultiMap
    requires Walkable(t) && NodeOf(t, n) && n.next.Some? && k <= |n.next.value|
    decreases |Descendants(t, n.id)|, 0, k
  {
    hide Regular, Acyclic, Descendants, FindNode, Edge, NodeAt;
    if k == 0 then map[]
    else
      var children :=
        if FindNode(t, n.next.value[k - 1]).Found? then Walk(t, Child(t, n, k - 1), [n.id]) else map[];
      WalkLinks(t, n, tags, k - 1) + (map[n.id := tags] + children)
  }

  /** A node with an empty list of links gets no entry; without a list, or with links, it does. */
  predicate Listed(t: Template, x: Id) {
    var n := NodeAt(t, x);
    n.Some? && n.value.next != Some([])
  }

  /** This reference finds a node, and from there the walk reaches `x`. */
  ghost predicate Leads(t: Template, ref: Ref, x: Id) {
    FindNode(t, ref).Found? && Reaches(Walked(t), ref.id, x)
  }

  /** A link of `a` is to `b`, and none after it leads to `x`. */
  ghost predicate Latest(t: Template, a: Id, b: Id, x: Id) {
    var n := NodeAt(t, a);
    n.Some? && n.value.next.Some? &&
    var refs := n.value.next.value;
    exists i :: 0 <= i < |refs| && refs[i].id == b && FindNode(t, refs[i]).Found? &&
      forall j :: i < j < |refs| ==> !Leads(t, refs[j], x)
  }

  /** The path that takes, at every node, the last link leading to `x`. */
  ghost predicate LastPath(t: Template, q: seq<Id>, a: Id, x: Id) {
    Path(Walked(t), q, a, x) && forall i :: 0 <= i < |q| - 1 ==> Latest(t, q[i], q[i + 1], x)
  }

  /** `p` comes right before `x` on the last path from `a`. */
  ghost predicate LastBefore(t: Template, a: Id, p: Id, x: Id) {
    exists q :: LastPath(t, q, a, x) && |q| > 1 && q[|q| - 2] == p
  }

  lemma LastPathCons(t: Template, a: Id, q: seq<Id>, x: Id)
    requires q != [] && Edge(Walked(t), a, q[0])
    ensures LastPath(t, [a] + q, a, x) <==> LastPath(t, q, q[0], x) && Latest(t, a, q[0], x)
  {
    hide Edge, Latest;
    var r := [a] + q;
    if LastPath(t, r, a, x) {
      assert r[0] == a && r[1] == q[0];
      assert forall i :: 0 <= i < |q| ==> q[i] == r[i + 1];
    }
    if LastPath(t, q, q[0], x) && Latest(t, a, q[0], x) {
      assert forall i :: 0 < i < |r| ==> r[i] == q[i - 1];
    }
  }

  lemma FirstStep(t: Template, q: seq<Id>, a: Id, x: Id)
    requires LastPath(t, q, a, x) && |q| > 1
    ensures q == [a] + q[1..] && Edge(Walked(t), a, q[1]) && LastPath(t, q[1..], q[1], x) && Latest(t, a, q[1], x)
    ensures Reaches(Walked(t), q[1], x)
  {
    hide Edge, Latest;
    assert Edge(Walked(t), q[0], q[1]);
    assert q == [a] + q[1..];
    LastPathCons(t, a, q[1..], x);
  }

  /** Where two links of a node both lead on to `x`, only one is the latest. */
  lemma OneLatest(t: Template, a: Id, b: Id, c: Id, x: Id)
    requires Edge(Walked(t), a, b) && Edge(Walked(t), a, c) && Latest(t, a, b, x) && Latest(t, a, c, x)
    requires Reaches(Walked(t), b, x) && Reaches(Walked(t), c, x)
    ensures b == c
  {
    hide Reaches, NodeAt, FindNode;
    var refs := NodeAt(t, a).value.next.value;
    var i :| 0 <= i < |refs| && refs[i].id == b && FindNode(t, refs[i]).Found? &&
             forall k :: i < k < |refs| ==> !Leads(t, refs[k], x);
    var j :| 0 <= j < |refs| && refs[j].id == c && FindNode(t, refs[j]).Found? &&
             forall k :: j < k < |refs| ==> !Leads(t, refs[k], x);
    assert Leads(t, refs[i], x) && Leads(t, refs[j], x);
    assert !(i < j) && !(j < i);
  }

  /** There is one last path. */
  lemma {:induction false} LastPathUnique(t: Template, q: seq<Id>, r: seq<Id>, a: Id, x: Id)
    requires Acyclic(Walked(t)) && LastPath(t, q, a, x) && LastPath(t, r, a, x)
    ensures q == r
    decreases |q|
  {
    if a == x {
      assert Path(Walked(t), q, a, a) && Path(Walked(t), r, a, a);
      assert q == [a] && r == [a];
    } else {
      hide Acyclic;
      assert |q| > 1 && |r| > 1;
      FirstStep(t, q, a, x);
      FirstStep(t, r, a, x);
      OneLatest(t, a, q[1], r[1], x);
      hide LastPath;
      LastPathUnique(t, q[1..], r[1..], q[1], x);
    }
  }

  // ---------- What one walk collects ----------

  /** The entry of `x` in the walk from `a`: its own tags at the start, else the last node before it. */
  ghost predicate Entry(t: Template, a: Id, tags: seq<Id>, x: Id, entry: seq<Id>) {
    if x == a then entry == tags
    else exists p :: LastBefore(t, a, p, x) && entry == [p]
  }

  /** The walk from `a` collects the listed nodes it reaches. */
  ghost predicate Collects(t: Template, a: Id, tags: seq<Id>, m: TagMultiMap) {
    forall x ::
      (x in m <==> Reaches(Walked(t), a, x) && Listed(t, x)) &&
      (x in m ==> Entry(t, a, tags, x, m[x]))
  }

  /** The j-th link is the last of the first `k` to lead to `x`. */
  ghost predicate LastOf(t: Template, refs: seq<Ref>, k: nat, x: Id, j: nat)
    requires k <= |refs|
  {
    j < k && Leads(t, refs[j], x) && forall i :: j < i < k ==> !Leads(t, refs[i], x)
  }

  ghost predicate LeadsTo(t: Template, refs: seq<Ref>, k: nat, x: Id)
    requires k <= |refs|
  {
    exists j :: 0 <= j < k && Leads(t, refs[j], x)
  }

  /** After `k` links: the node itself, and what these links reach, by the last link that does. */
  ghost predicate CollectsSome(t: Template, n: Node, tags: seq<Id>, k: nat, m: TagMultiMap)
    requires n.next.Some? && k <= |n.next.value|
  {
    forall x :: CollectsOne(t, n, tags, k, m, x)
  }

  lemma NotBack(t: Template, a: Id, b: Id)
    requires Acyclic(Walked(t)) && Edge(Walked(t), a, b)
    ensures !Reaches(Walked(t), b, a)
  {
    hide Edge;
    if q :| Path(Walked(t), q, b, a) {
      Extends(t, a, b, q, a);
    }
  }

  /** What the k-th link contributes: the walk from its node, or nothing. */
  ghost predicate Contributes(t: Template, n: Node, ref: Ref, children: TagMultiMap) {
    n.id !in children && if FindNode(t, ref).Found? then Collects(t, ref.id, [n.id], children) else children == map[]
  }

  lemma ContributesThat(t: Template, n: Node, ref: Ref, children: TagMultiMap)
    requires Contributes(t, n, ref, children)
    ensures n.id !in children
    ensures forall x :: x in children <==> Leads(t, ref, x) && Listed(t, x)
    ensures forall x :: x in children ==> Entry(t, ref.id, [n.id], x, children[x])
  {
    hide Reaches, Listed, LastBefore, FindNode;
  }

  /** What is known of one entry after `k` links. */
  ghost predicate CollectsOne(t: Template, n: Node, tags: seq<Id>, k: nat, m: TagMultiMap, x: Id)
    requires n.next.Some? && k <= |n.next.value|
  {
    var refs := n.next.value;
    (x in m <==> k > 0 && (x == n.id || (LeadsTo(t, refs, k, x) && Listed(t, x)))) &&
    (x in m && x == n.id ==> m[x] == tags) &&
    (x in m && x != n.id ==> exists j: nat :: LastOf(t, refs, k, x, j) && Entry(t, refs[j].id, [n.id], x, m[x]))
  }

  /** One round of the reduce. */
  lemma LinkCollects(t: Template, n: Node, tags: seq<Id>, k: nat, m: TagMultiMap, children: TagMultiMap)
    requires n.next.Some? && 0 < k <= |n.next.value| && CollectsSome(t, n, tags, k - 1, m)
    requires Contributes(t, n, n.next.value[k - 1], children)
    ensures CollectsSome(t, n, tags, k, m + (map[n.id := tags] + children))
  {
    hide Contributes, Leads, Listed, Entry, CollectsOne;
    var r := m + (map[n.id := tags] + children);
    forall x ensures CollectsOne(t, n, tags, k, r, x) {
      LinkCollectsOne(t, n, tags, k, m, children, r, x);
    }
  }

  lemma LinkCollectsOne(t: Template, n: Node, tags: seq<Id>, k: nat, m: TagMultiMap, children: TagMultiMap,
                        r: TagMultiMap, x: Id)
    requires n.next.Some? && 0 < k <= |n.next.value| && CollectsOne(t, n, tags, k - 1, m, x)
    requires Contributes(t, n, n.next.value[k - 1], children)
    requires x in r <==> x in m || x == n.id || x in children
    requires x in r ==> r[x] == if x in children then children[x] else if x == n.id then tags else m[x]
    ensures CollectsOne(t, n, tags, k, r, x)
  {
    var refs := n.next.value;
    ContributesThat(t, n, refs[k - 1], children);
    LeadsToMore(t, refs, k, x);
    hide Leads, Listed, Entry, Contributes, LastOf, LeadsTo;
    if x in children {
      LastNow(t, refs, k, x);
    } else if x in m && x != n.id {
      EntryStays(t, n, tags, k, m, x);
    }
  }

  lemma EntryStays(t: Template, n: Node, tags: seq<Id>, k: nat, m: TagMultiMap, x: Id)
    requires n.next.Some? && 0 < k <= |n.next.value| && CollectsOne(t, n, tags, k - 1, m, x)
    requires x in m && x != n.id && !Leads(t, n.next.value[k - 1], x)
    ensures exists j: nat :: LastOf(t, n.next.value, k, x, j) && Entry(t, n.next.value[j].id, [n.id], x, m[x])
  {
    hide Leads, Listed, Entry, LeadsTo;
    var refs := n.next.value;
    var j: nat :| LastOf(t, refs, k - 1, x, j) && Entry(t, refs[j].id, [n.id], x, m[x]);
    LastStays(t, refs, k, x, j);
  }

  lemma LeadsToMore(t: Template, refs: seq<Ref>, k: nat, x: Id)
    requires 0 < k <= |refs|
    ensures LeadsTo(t, refs, k, x) <==> LeadsTo(t, refs, k - 1, x) || Leads(t, refs[k - 1], x)
    ensures k == 1 ==> !LeadsTo(t, refs, k - 1, x)
  {
    hide Leads;
  }

  lemma LastNow(t: Template, refs: seq<Ref>, k: nat, x: Id)
    requires 0 < k <= |refs| && Leads(t, refs[k - 1], x)
    ensures LastOf(t, refs, k, x, k - 1)
  {
    hide Leads;
  }

  lemma LastStays(t: Template, refs: seq<Ref>, k: nat, x: Id, j: nat)
    requires 0 < k <= |refs| && LastOf(t, refs, k - 1, x, j) && !Leads(t, refs[k - 1], x)
    ensures LastOf(t, refs, k, x, j)
  {
    hide Leads;
  }

  /** A node with links reaches itself and what its links lead to. */
  lemma ReachesThroughLinks(t: Template, n: Node, x: Id)
    requires NodeOf(t, n) && n.next.Some?
    ensures Reaches(Walked(t), n.id, x) <==> x == n.id || LeadsTo(t, n.next.value, |n.next.value|, x)
  {
    hide NodeAt, FindNode;
    var refs := n.next.value;
    if x == n.id {
      assert Path(Walked(t), [x], x, x);
    } else if q :| Path(Walked(t), q, n.id, x) {
      assert Edge(Walked(t), q[0], q[1]);
      var i :| 0 <= i < |refs| && refs[i].id == q[1] && FindNode(t, refs[i]).Found?;
      SubPath(Walked(t), q, 1, |q| - 1);
      assert Leads(t, refs[i], x);
    }
    if LeadsTo(t, refs, |refs|, x) {
      var j :| 0 <= j < |refs| && Leads(t, refs[j], x);
      var q :| Path(Walked(t), q, refs[j].id, x);
      assert Edge(Walked(t), n.id, refs[j].id);
      Extends(t, n.id, refs[j].id, q, x);
    }
  }

  lemma NoLinks(t: Template, n: Node, x: Id)
    requires NodeOf(t, n) && n.next.None?
    ensures Reaches(Walked(t), n.id, x) <==> x == n.id
  {
    assert forall b :: !Edge(Walked(t), n.id, b);
    hide Edge;
    assert Path(Walked(t), [n.id], n.id, n.id);
    if Reaches(Walked(t), n.id, x) {
      var q :| Path(Walked(t), q, n.id, x);
      if |q| > 1 {
        FirstEdge(t, q, n.id, x);
      }
    }
  }

  lemma FirstEdge(t: Template, q: seq<Id>, a: Id, x: Id)
    requires Path(Walked(t), q, a, x) && |q| > 1
    ensures Edge(Walked(t), a, q[1])
  {
    hide Edge;
    assert Edge(Walked(t), q[0], q[0 + 1]);
  }

  /** The last link leading to `x` begins the last path to `x`. */
  lemma LastLink(t: Template, n: Node, j: nat, x: Id, entry: seq<Id>)
    requires NodeOf(t, n) && n.next.Some?
    requires LastOf(t, n.next.value, |n.next.value|, x, j) && x != n.id
    requires Entry(t, n.next.value[j].id, [n.id], x, entry)
    ensures Entry(t, n.id, [], x, entry)
  {
    hide Regular, Latest, Edge, NodeAt, NodeOf, Reaches, LastPath;
    var b := n.next.value[j].id;
    LastIsLatest(t, n, j, x);
    if x == b {
      BeginsLast(t, n.id, [b], x);
    } else {
      var p :| LastBefore(t, b, p, x) && entry == [p];
      var q :| LastPath(t, q, b, x) && |q| > 1 && q[|q| - 2] == p;
      StartsThere(t, q, b, x);
      BeginsLast(t, n.id, q, x);
    }
  }

  lemma StartsThere(t: Template, q: seq<Id>, a: Id, x: Id)
    requires LastPath(t, q, a, x)
    ensures q != [] && q[0] == a && q[|q| - 1] == x
  {}

  lemma BeginsLast(t: Template, a: Id, q: seq<Id>, x: Id)
    requires q != [] && (q == [x] || LastPath(t, q, q[0], x)) && Edge(Walked(t), a, q[0]) && Latest(t, a, q[0], x)
    ensures LastBefore(t, a, if |q| > 1 then q[|q| - 2] else a, x)
  {
    hide Edge, Latest;
    LastPathCons(t, a, q, x);
    var r := [a] + q;
    assert r[|r| - 2] == if |q| > 1 then q[|q| - 2] else a;
  }

  lemma LastIsLatest(t: Template, n: Node, j: nat, x: Id)
    requires NodeOf(t, n) && n.next.Some? && LastOf(t, n.next.value, |n.next.value|, x, j)
    ensures Edge(Walked(t), n.id, n.next.value[j].id) && Latest(t, n.id, n.next.value[j].id, x)
  {
    hide Reaches, NodeAt, FindNode;
  }

  lemma AllLinksCollect(t: Template, n: Node, tags: seq<Id>, m: TagMultiMap)
    requires NodeOf(t, n) && n.next.Some? && CollectsSome(t, n, tags, |n.next.value|, m)
    ensures Collects(t, n.id, tags, m)
  {
    hide Regular, Reaches, LastBefore;
    var refs := n.next.value;
    assert |refs| == 0 ==> refs == [];
    forall x
      ensures (x in m <==> Reaches(Walked(t), n.id, x) && Listed(t, x)) && (x in m ==> Entry(t, n.id, tags, x, m[x]))
    {
      ReachesThroughLinks(t, n, x);
      assert CollectsOne(t, n, tags, |refs|, m, x);
      if x in m && x != n.id {
        var j: nat :| LastOf(t, refs, |refs|, x, j) && Entry(t, refs[j].id, [n.id], x, m[x]);
        LastLink(t, n, j, x, m[x]);
      }
    }
  }

  /** The walk from a node collects exactly the listed nodes it reaches, each with the last node before it. */
  lemma {:induction false} WalkCollects(t: Template, n: Node, tags: seq<Id>)
    requires Walkable(t) && NodeOf(t, n)
    ensures Collects(t, n.id, tags, Walk(t, n, tags))
    decreases |Descendants(t, n.id)|, 1, 0
  {
    hide Regular, Acyclic, Reaches, Descendants, LastBefore;
    if n.next.None? {
      forall x ensures Reaches(Walked(t), n.id, x) <==> x == n.id { NoLinks(t, n, x); }
    } else {
      hide Collects;
      WalkLinksCollect(t, n, tags, |n.next.value|);
      hide CollectsSome;
      AllLinksCollect(t, n, tags, Walk(t, n, tags));
    }
  }

  lemma {:induction false} WalkLinksCollect(t: Template, n: Node, tags: seq<Id>, k: nat)
    requires Walkable(t) && NodeOf(t, n) && n.next.Some? && k <= |n.next.value|
    ensures CollectsSome(t, n, tags, k, WalkLinks(t, n, tags, k))
    decreases |Descendants(t, n.id)|, 0, k
  {
    hide Walkable, Descendants, Edge, FindNode, NodeAt, Walk, WalkLinks, Collects, CollectsSome;
    WalkLinksUnfold(t, n, tags, k);
    if k == 0 {
      NoneCollected(t, n, tags);
    } else if !FindNode(t, n.next.value[k - 1]).Found? {
      WalkLinksCollect(t, n, tags, k - 1);
      LinkCollects(t, n, tags, k, WalkLinks(t, n, tags, k - 1), map[]);
    } else {
      var c := Child(t, n, k - 1);
      WalkLinksCollect(t, n, tags, k - 1);
      WalkCollects(t, c, [n.id]);
      NotAmongChildren(t, n.id, c, Walk(t, c, [n.id]));
      LinkCollects(t, n, tags, k, WalkLinks(t, n, tags, k - 1), Walk(t, c, [n.id]));
    }
  }

  lemma WalkLinksUnfold(t: Template, n: Node, tags: seq<Id>, k: nat)
    requires Walkable(t) && NodeOf(t, n) && n.next.Some? && k <= |n.next.value|
    ensures WalkLinks(t, n, tags, k) ==
            if k == 0 then map[]
            else
              WalkLinks(t, n, tags, k - 1) +
              (map[n.id := tags] +
               if FindNode(t, n.next.value[k - 1]).Found? then Walk(t, Child(t, n, k - 1), [n.id]) else map[])
  {
    hide Walkable, Descendants, Edge, FindNode, NodeAt, Walk;
  }

  lemma NoneCollected(t: Template, n: Node, tags: seq<Id>)
    requires n.next.Some?
    ensures CollectsSome(t, n, tags, 0, map[])
  {
  }

  lemma NotAmongChildren(t: Template, a: Id, c: Node, children: TagMultiMap)
    requires Walkable(t) && Edge(Walked(t), a, c.id) && Collects(t, c.id, [a], children)
    ensures a !in children
  {
    hide Regular, Edge, Acyclic, Reaches, Listed, Entry;
    NotBack(t, a, c.id);
  }
}
