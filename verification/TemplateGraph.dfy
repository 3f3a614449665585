/**
 Templates as graphs. The editor finds a node by the prefix of its id (getNode); the configuration is
 generated from references looked up by their type (findNode). On the templates the editor keeps
 well-formed the two graphs are the same.
 */
module TemplateGraphs {
  import opened Lists
  import opened Options
  import opened Templates

  datatype Graph = Drawn(t: Template) | Walked(t: Template)

  datatype Lookup = Invalid | Missing | Found(node: Node)

  /** findNode: an empty id, or a reference to an input, throws. */
  function FindNode(t: Template, ref: Ref): Lookup {
    if ref.id == "" || ref.kind == Input then Invalid
    else
      var ns := t.List(ref.kind);
      var i := FindIndex(ns, ref.id);
      if i < |ns| then Found(ns[i]) else Missing
  }

  function AllNodes(t: Template): seq<Node> {
    t.inputs + t.processors + t.aggregators + t.outputs
  }

  /** The node with this id, in whatever list. */
  function NodeAt(t: Template, id: Id): Option<Node> {
    var ns := AllNodes(t);
    var i := FindIndex(ns, id);
    if i < |ns| then Some(ns[i]) else None
  }

  /** Some reference with this id finds its node. */
  predicate FindsNode(t: Template, refs: seq<Ref>, id: Id) {
    exists i :: 0 <= i < |refs| && refs[i].id == id && FindNode(t, refs[i]).Found?
  }

  /** A link from the node with id `a` to the one with id `b`. */
  predicate Edge(g: Graph, a: Id, b: Id) {
    match g
    case Drawn(t) =>
      var n := GetNode(t, a);
      n.Some? && n.value.next.Some? && LinksTo(n.value.next.value, b)
    case Walked(t) =>
      var n := NodeAt(t, a);
      n.Some? && n.value.next.Some? && FindsNode(t, n.value.next.value, b)
  }

  // ---------- Paths ----------

  /** `p` leads along links from `a` to `b`. */
  ghost predicate Path(g: Graph, p: seq<Id>, a: Id, b: Id) {
    |p| > 0 && p[0] == a && p[|p| - 1] == b && forall i :: 0 <= i < |p| - 1 ==> Edge(g, p[i], p[i + 1])
  }

  ghost predicate Reaches(g: Graph, a: Id, b: Id) {
    exists p :: Path(g, p, a, b)
  }

  /** `a` reaches `b` over at most `n` links. */
  ghost predicate ReachesWithin(g: Graph, a: Id, b: Id, n: int) {
    exists p :: Path(g, p, a, b) && |p| - 1 <= n
  }

  ghost predicate Acyclic(g: Graph) {
    forall a, p :: Path(g, p, a, a) ==> |p| == 1
  }

  lemma JoinPaths(g: Graph, p: seq<Id>, q: seq<Id>, a: Id, b: Id, c: Id)
    requires Path(g, p, a, b) && Path(g, q, b, c)
    ensures Path(g, p + q[1..], a, c) && |p + q[1..]| == |p| + |q| - 1
  {
    hide Edge;
    var r := p + q[1..];
    forall i | 0 <= i < |r| - 1 ensures Edge(g, r[i], r[i + 1]) {
      if i < |p| - 1 {
        assert Edge(g, p[i], p[i + 1]);
      } else {
        assert Edge(g, q[i - (|p| - 1)], q[i - (|p| - 1) + 1]);
      }
    }
  }

  lemma SubPath(g: Graph, p: seq<Id>, i: nat, j: nat)
    requires i <= j < |p| && Path(g, p, p[0], p[|p| - 1])
    ensures Path(g, p[i..j + 1], p[i], p[j])
  {
    hide Edge;
    var q := p[i..j + 1];
    assert forall k :: 0 <= k < |q| ==> q[k] == p[i + k];
  }

  /** Removing links keeps a graph acyclic. */
  lemma FewerLinksStayAcyclic(g: Graph, g': Graph)
    requires Acyclic(g) && forall a, b :: Edge(g', a, b) ==> Edge(g, a, b)
    ensures Acyclic(g')
  {
    hide Edge;
    forall a, p | Path(g', p, a, a) ensures |p| == 1 {
      assert Path(g, p, a, a);
    }
  }

  /** Links that always climb make a template acyclic. */
  lemma ClimbingIsAcyclic(g: Graph, height: Id -> int)
    requires forall a, b :: Edge(g, a, b) ==> height(a) < height(b)
    ensures Acyclic(g)
  {
    hide Edge;
    forall a, p | Path(g, p, a, a) ensures |p| == 1 {
      Climbs(g, height, p, |p| - 1);
    }
  }

  lemma {:induction false} Climbs(g: Graph, height: Id -> int, p: seq<Id>, n: nat)
    requires forall a, b :: Edge(g, a, b) ==> height(a) < height(b)
    requires n < |p| && Path(g, p, p[0], p[|p| - 1])
    ensures height(p[0]) + n <= height(p[n])
  {
    hide Edge;
    if n > 0 {
      Climbs(g, height, p, n - 1);
      assert Edge(g, p[n - 1], p[n - 1 + 1]);
    }
  }

  // ---------- The same graph ----------

  /** Nodes have ids of their own. */
  ghost predicate DistinctIds(t: Template) {
    forall i, j :: 0 <= i < j < |AllNodes(t)| ==> AllNodes(t)[i].id != AllNodes(t)[j].id
  }

  lemma NodeOfList(t: Template, k: Kind, i: nat)
    requires i < |t.List(k)|
    ensures exists j :: 0 <= j < |AllNodes(t)| && AllNodes(t)[j] == t.List(k)[i]
  {
    var before := match k
      case Input => 0
      case Processor => |t.inputs|
      case Aggregator => |t.inputs + t.processors|
      case Output => |t.inputs + t.processors + t.aggregators|;
    assert AllNodes(t)[before + i] == t.List(k)[i];
  }

  lemma ListOfNode(t: Template, j: nat) returns (k: Kind, i: nat)
    requires j < |AllNodes(t)|
    ensures i < |t.List(k)| && t.List(k)[i] == AllNodes(t)[j]
  {
    var p, a := |t.inputs|, |t.inputs + t.processors|;
    var o := |t.inputs + t.processors + t.aggregators|;
    if j < p {
      k, i := Input, j;
    } else if j < a {
      k, i := Processor, j - p;
    } else if j < o {
      k, i := Aggregator, j - a;
    } else {
      k, i := Output, j - o;
    }
  }

  /** With distinct ids, the node with an id is any node that has it. */
  lemma AtIs(t: Template, k: Kind, i: nat)
    requires DistinctIds(t) && i < |t.List(k)|
    ensures NodeAt(t, t.List(k)[i].id) == Some(t.List(k)[i])
  {
    hide AllNodes;
    NodeOfList(t, k, i);
    var j :| 0 <= j < |AllNodes(t)| && AllNodes(t)[j] == t.List(k)[i];
    var f := FindIndex(AllNodes(t), t.List(k)[i].id);
    assert !(f < j) && !(j < f);
  }

  lemma WellFormedDistinct(t: Template)
    requires WellFormed(t)
    ensures DistinctIds(t)
  {
    hide GoodNode, KindOf;
    var all := AllNodes(t);
    var p, a := |t.inputs|, |t.inputs + t.processors|;
    var o := |t.inputs + t.processors + t.aggregators|;
    assert GoodIds(t.List(Input), Input) && GoodIds(t.List(Processor), Processor);
    assert GoodIds(t.List(Aggregator), Aggregator) && GoodIds(t.List(Output), Output);
    forall i | 0 <= i < |all|
      ensures KindOf(all[i].id) == if i < p then Input else if i < a then Processor else if i < o then Aggregator else Output
    {
    }
    hide AllNodes;
  }

  /** A well-formed template finds by id prefix what is there. */
  lemma GetIsAt(t: Template, id: Id)
    requires WellFormed(t)
    ensures GetNode(t, id) == NodeAt(t, id)
  {
    WellFormedDistinct(t);
    hide GoodNode, AllNodes, DistinctIds;
    if GetNode(t, id).Some? {
      AtIs(t, KindOf(id), FindIndex(t.List(KindOf(id)), id));
    }
    if NodeAt(t, id).Some? {
      var k, i := ListOfNode(t, FindIndex(AllNodes(t), id));
      ListFound(t, k, i);
    }
  }

  /** What the editor draws is what the configuration is generated from. */
  lemma SameGraph(t: Template, a: Id, b: Id)
    requires WellFormed(t) && GetNode(t, "").None?
    ensures Edge(Walked(t), a, b) <==> Edge(Drawn(t), a, b)
  {
    GetIsAt(t, a);
    if GetNode(t, a).Some? && GetNode(t, a).value.next.Some? {
      var refs := GetNode(t, a).value.next.value;
      assert GoodNode(t, GetNode(t, a).value, KindOf(a));
      hide WellFormed, NodeAt, FindIndex;
      assert forall i :: 0 <= i < |refs| ==> FindNode(t, refs[i]).Found?;
    }
  }
}
