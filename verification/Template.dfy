/** Agent templates of the editor (template.service.ts): nodes by kind, and the links between them. */
module Templates {
  import opened Lists
  import opened Options

  type Id = string

  datatype Kind = Input | Processor | Aggregator | Output

  /** getNodeTypeById: the kind of a node is read off its id. */
  function KindOf(id: Id): Kind {
    if "in" <= id then Input
    else if "pro" <= id then Processor
    else if "agg" <= id then Aggregator
    else Output
  }

  datatype Ref = Ref(kind: Kind, id: Id)

  /** A node; `next` is undefined for nodes whose schema has no such array. */
  datatype Node = Node(id: Id, next: Option<seq<Ref>>)

  datatype Template = Template(
    inputs: seq<Node>, processors: seq<Node>, aggregators: seq<Node>, outputs: seq<Node>)
  {
    function List(k: Kind): seq<Node> {
      match k
      case Input => inputs
      case Processor => processors
      case Aggregator => aggregators
      case Output => outputs
    }

    function With(k: Kind, ns: seq<Node>): (t: Template)
      ensures forall j :: t.List(j) == if j == k then ns else List(j)
    {
      match k
      case Input => this.(inputs := ns)
      case Processor => this.(processors := ns)
      case Aggregator => this.(aggregators := ns)
      case Output => this.(outputs := ns)
    }
  }

  /** findIndex: the position of the first node with this id, or the number of nodes. */
  function FindIndex(ns: seq<Node>, id: Id): (i: nat)
    ensures i <= |ns| && (i < |ns| ==> ns[i].id == id)
    ensures forall k :: 0 <= k < i ==> ns[k].id != id
  {
    FirstIndex(ns, (n: Node) => n.id == id)
  }

  /** getNode. */
  function GetNode(t: Template, id: Id): Option<Node> {
    var ns := t.List(KindOf(id));
    var i := FindIndex(ns, id);
    if i < |ns| then Some(ns[i]) else None
  }

  predicate LinksTo(refs: seq<Ref>, id: Id) {
    exists i :: 0 <= i < |refs| && refs[i].id == id
  }

  // ---------- Well-formed templates ----------

  /** Ids are of the list's kind and unique in it. */
  ghost predicate GoodIds(ns: seq<Node>, k: Kind) {
    (forall i :: 0 <= i < |ns| ==> KindOf(ns[i].id) == k) &&
    forall i, j :: 0 <= i < j < |ns| ==> ns[i].id != ns[j].id
  }

  /** Links are unique, carry the kind of their target, never lead to an input, and resolve. */
  ghost predicate GoodRefs(t: Template, refs: seq<Ref>) {
    (forall i :: 0 <= i < |refs| ==>
       refs[i].kind == KindOf(refs[i].id) && refs[i].kind != Input && GetNode(t, refs[i].id).Some?) &&
    forall i, j :: 0 <= i < j < |refs| ==> refs[i].id != refs[j].id
  }

  ghost predicate GoodNode(t: Template, n: Node, k: Kind) {
    if k == Output then n.next.None? else n.next.Some? && GoodRefs(t, n.next.value)
  }

  ghost predicate WellFormed(t: Template) {
    forall k: Kind :: GoodIds(t.List(k), k) && forall i :: 0 <= i < |t.List(k)| ==> GoodNode(t, t.List(k)[i], k)
  }

  lemma FindIs(ns: seq<Node>, k: Kind, i: nat)
    requires GoodIds(ns, k) && i < |ns|
    ensures FindIndex(ns, ns[i].id) == i
  {}

  lemma ListFound(t: Template, k: Kind, i: nat)
    requires GoodIds(t.List(k), k) && i < |t.List(k)|
    ensures GetNode(t, t.List(k)[i].id) == Some(t.List(k)[i])
  {
    FindIs(t.List(k), k, i);
  }
}
