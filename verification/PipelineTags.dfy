/** Merging the walks from all inputs (config-provider.service.ts, walkPipelines), and what the tag lists mean. */
module PipelineTags {
  import opened Options
  import opened TemplateGraphs
  import opened Templates
  import opened PipelineWalks

  /** The tags not yet listed. */
  function NewTags(tags: seq<Id>, known: seq<Id>): (r: seq<Id>)
    ensures forall x :: x in r <==> x in tags && x !in known
  {
    if tags == [] then []
    else NewTags(tags[..|tags| - 1], known) + if tags[|tags| - 1] in known then [] else [tags[|tags| - 1]]
  }

  /** The list under an id after merging another one: it keeps its tags and gains the new ones. */
  function MergedEntry(m: TagMultiMap, id: Id, tags: seq<Id>): seq<Id> {
    if id in m then m[id] + NewTags(tags, m[id]) else tags
  }

  /** One round of the reduce over the walks: every entry is merged under its id. */
  function Merge(m: TagMultiMap, current: TagMultiMap): (r: TagMultiMap)
    ensures r.Keys == m.Keys + current.Keys
  {
    map id | id in m.Keys + current.Keys :: if id in current then MergedEntry(m, id, current[id]) else m[id]
  }

  lemma InputNode(t: Template, i: nat)
    requires Walkable(t) && i < |t.inputs|
    ensures NodeOf(t, t.inputs[i])
  {
    var k: Kind := Kind.Input;
    assert t.List(k) == t.inputs;
    hide DistinctIds, AllNodes, Acyclic;
    AtIs(t, k, i);
  }

  /** The tag lists after the first `k` inputs. */
  ghost function Tags(t: Template, k: nat): TagMultiMap
    requires Walkable(t) && k <= |t.inputs|
  {
    if k == 0 then map[]
    else
      InputNode(t, k - 1);
      Merge(Tags(t, k - 1), Walk(t, t.inputs[k - 1], []))
  }

  /** The forEach over the entries of one walk. */
  method MergeEntries(m: TagMultiMap, current: TagMultiMap) returns (r: TagMultiMap)
    ensures r == Merge(m, current)
  {
    hide NewTags;
    r := m;
    var todo := current.Keys;
    while todo != {}
      invariant todo <= current.Keys
      invariant r.Keys == m.Keys + (current.Keys - todo)
      invariant forall id :: id in m && (id in todo || id !in current) ==> r[id] == m[id]
      invariant forall id :: id in current && id !in todo ==> r[id] == MergedEntry(m, id, current[id])
      decreases todo
    {
      var id :| id in todo;
      var was := r;
      if id in r {
        r := r[id := r[id] + NewTags(current[id], r[id])];
      } else {
        r := r[id := current[id]];
      }
      assert r[id] == MergedEntry(m, id, current[id]) && forall i :: i in was && i != id ==> r[i] == was[i];
      todo := todo - {id};
    }
  }

  /** walkPipelines. */
  method WalkPipelines(t: Template) returns (m: TagMultiMap)
    requires Walkable(t)
    ensures m == Tags(t, |t.inputs|)
  {
    hide Walkable, Walk, NodeOf;
    m := map[];
    for k := 0 to |t.inputs|
      invariant m == Tags(t, k)
    {
      InputNode(t, k);
      m := MergeEntries(m, Walk(t, t.inputs[k], []));
    }
  }

  // ---------- One walk ----------

  lemma NothingBeforeStart(t: Template, a: Id, p: Id)
    requires Acyclic(Walked(t))
    ensures !LastBefore(t, a, p, a)
  {
    hide Acyclic, Edge, Latest;
    if LastBefore(t, a, p, a) {
      var q :| LastPath(t, q, a, a) && |q| > 1 && q[|q| - 2] == p;
      NoWayBack(t, q, a);
    }
  }

  lemma NoWayBack(t: Template, q: seq<Id>, a: Id)
    requires Acyclic(Walked(t)) && Path(Walked(t), q, a, a)
    ensures |q| == 1
  {
    hide Path;
  }

  /** The last node before `x` is one linked to `x`, on the way. */
  lemma LastBeforeIsPredecessor(t: Template, a: Id, p: Id, x: Id)
    requires LastBefore(t, a, p, x)
    ensures Edge(Walked(t), p, x) && Reaches(Walked(t), a, p) && Reaches(Walked(t), a, x)
  {
    hide Edge, Latest;
    var q :| LastPath(t, q, a, x) && |q| > 1 && q[|q| - 2] == p;
    assert Edge(Walked(t), q[|q| - 2], q[|q| - 2 + 1]);
    SubPath(Walked(t), q, 0, |q| - 2);
  }

  lemma OneLastBefore(t: Template, a: Id, p: Id, r: Id, x: Id)
    requires Acyclic(Walked(t)) && LastBefore(t, a, p, x) && LastBefore(t, a, r, x)
    ensures p == r
  {
    hide Acyclic, LastPath;
    var q :| LastPath(t, q, a, x) && |q| > 1 && q[|q| - 2] == p;
    var q' :| LastPath(t, q', a, x) && |q'| > 1 && q'[|q'| - 2] == r;
    LastPathUnique(t, q, q', a, x);
  }

  /** The walk from an input lists for a node exactly the last node before it: none for the input, else one. */
  lemma WalkLists(t: Template, n: Node, x: Id)
    requires Walkable(t) && NodeOf(t, n)
    ensures var m := Walk(t, n, []);
            (x in m <==> Reaches(Walked(t), n.id, x) && Listed(t, x)) &&
            (x in m ==> |m[x]| == (if x == n.id then 0 else 1) && forall p :: p in m[x] <==> LastBefore(t, n.id, p, x))
  {
    hide Regular, Acyclic, Reaches, Listed, Walk, NodeOf, LastBefore;
    var m := Walk(t, n, []);
    WalkCollects(t, n, []);
    if x in m {
      EntryLists(t, n.id, x, m[x]);
    }
  }

  lemma EntryLists(t: Template, a: Id, x: Id, entry: seq<Id>)
    requires Acyclic(Walked(t)) && Entry(t, a, [], x, entry)
    ensures |entry| == if x == a then 0 else 1
    ensures forall p :: p in entry <==> LastBefore(t, a, p, x)
  {
    hide Acyclic, LastBefore;
    forall p ensures p in entry <==> LastBefore(t, a, p, x) {
      if x == a {
        NothingBeforeStart(t, a, p);
      } else {
        var r :| LastBefore(t, a, r, x) && entry == [r];
        if LastBefore(t, a, p, x) {
          OneLastBefore(t, a, p, r, x);
        }
      }
    }
  }

  // ---------- All walks ----------

  ghost predicate ReachedBy(t: Template, k: nat, x: Id)
    requires k <= |t.inputs|
  {
    exists i :: 0 <= i < k && Reaches(Walked(t), t.inputs[i].id, x)
  }

  ghost predicate LastBeforeFrom(t: Template, k: nat, p: Id, x: Id)
    requires k <= |t.inputs|
  {
    exists i :: 0 <= i < k && LastBefore(t, t.inputs[i].id, p, x)
  }

  ghost predicate Distinct(tags: seq<Id>) {
    forall i, j :: 0 <= i < j < |tags| ==> tags[i] != tags[j]
  }

  lemma MergedTags(known: seq<Id>, tags: seq<Id>)
    requires (Distinct(known) || known == []) && |tags| <= 1
    ensures Distinct(known + NewTags(tags, known)) && Distinct(tags)
    ensures forall p :: p in known + NewTags(tags, known) <==> p in known || p in tags
  {
    var r := NewTags(tags, known);
    assert |r| <= 1 by {
      if tags != [] { assert tags[..|tags| - 1] == [] && NewTags([], known) == []; }
    }
    assert |r| == 1 ==> r[0] in r;
  }

  /**
   * A node has an entry exactly when some input reaches it and it is listed; its tags are, without
   * duplicates, the nodes that come last before it on the way from some input.
   */
  lemma {:induction false} TagsMean(t: Template, k: nat, x: Id)
    requires Walkable(t) && k <= |t.inputs|
    ensures x in Tags(t, k) <==> ReachedBy(t, k, x) && Listed(t, x)
    ensures x in Tags(t, k) ==>
              Distinct(Tags(t, k)[x]) && forall p :: p in Tags(t, k)[x] <==> LastBeforeFrom(t, k, p, x)
  {
    hide Walkable, Reaches, Listed, Walk, NodeOf, LastBefore, Distinct, ReachedBy, LastBeforeFrom, NewTags;
    if k == 0 {
      NoInputs(t, x);
    } else {
      InputNode(t, k - 1);
      TagsMean(t, k - 1, x);
      var n := t.inputs[k - 1];
      WalkLists(t, n, x);
      OneMoreInput(t, k, x);
      TagsReach(t, k - 1, x);
      WayReaches(t, n.id, x);
      var m, c := Tags(t, k - 1), Walk(t, n, []);
      MergedTags(if x in m then m[x] else [], if x in c then c[x] else []);
    }
  }

  /** Going through the inputs, one gives `p` as a tag of `x` before any gives `r`. */
  ghost predicate GivenEarlier(t: Template, k: nat, p: Id, r: Id, x: Id)
    requires k <= |t.inputs|
  {
    exists a :: 0 <= a < k && LastBefore(t, t.inputs[a].id, p, x) &&
      forall b :: 0 <= b <= a ==> !LastBefore(t, t.inputs[b].id, r, x)
  }

  /** The tags stand in the order of the inputs that give them first. */
  lemma {:induction false} TagsInOrder(t: Template, k: nat, x: Id, i: nat, j: nat)
    requires Walkable(t) && k <= |t.inputs| && x in Tags(t, k) && i < j < |Tags(t, k)[x]|
    ensures GivenEarlier(t, k, Tags(t, k)[x][i], Tags(t, k)[x][j], x)
    decreases k
  {
    hide Walkable, Listed, Walk, NodeOf, LastBefore, Reaches, NewTags, GivenEarlier;
    InputNode(t, k - 1);
    var n := t.inputs[k - 1];
    WalkLists(t, n, x);
    var m, c := Tags(t, k - 1), Walk(t, n, []);
    var all := Tags(t, k)[x];
    if x in m && j < |m[x]| {
      TagsInOrder(t, k - 1, x, i, j);
      StillEarlier(t, k, all[i], all[j], x);
    } else {
      OneNewTag(if x in c then c[x] else [], if x in m then m[x] else []);
      NewTagIsLater(t, k, all[i], all[j], x);
    }
  }

  lemma StillEarlier(t: Template, k: nat, p: Id, r: Id, x: Id)
    requires 0 < k <= |t.inputs| && GivenEarlier(t, k - 1, p, r, x)
    ensures GivenEarlier(t, k, p, r, x)
  {
    hide LastBefore;
  }

  /** At most one tag comes new, and it is none of those known. */
  lemma OneNewTag(tags: seq<Id>, known: seq<Id>)
    requires |tags| <= 1
    ensures |NewTags(tags, known)| <= 1 && forall r :: r in NewTags(tags, known) ==> r !in known
  {
    if tags != [] {
      assert tags[..|tags| - 1] == [] && NewTags([], known) == [];
    }
  }

  lemma NewTagIsLater(t: Template, k: nat, p: Id, r: Id, x: Id)
    requires Walkable(t) && 0 < k <= |t.inputs| && x in Tags(t, k - 1)
    requires p in Tags(t, k - 1)[x] && r !in Tags(t, k - 1)[x]
    ensures GivenEarlier(t, k, p, r, x)
  {
    hide Walkable, Tags, LastBefore;
    TagsMean(t, k - 1, x);
    var a :| 0 <= a < k - 1 && LastBefore(t, t.inputs[a].id, p, x);
    forall b | 0 <= b <= a ensures !LastBefore(t, t.inputs[b].id, r, x) {
      assert !LastBeforeFrom(t, k - 1, r, x);
    }
  }

  lemma NoInputs(t: Template, x: Id)
    ensures !ReachedBy(t, 0, x) && forall p :: !LastBeforeFrom(t, 0, p, x)
  {
  }

  lemma WayReaches(t: Template, a: Id, x: Id)
    ensures !Reaches(Walked(t), a, x) ==> forall p :: !LastBefore(t, a, p, x)
  {
    hide LastBefore, Reaches;
    forall p | LastBefore(t, a, p, x) ensures Reaches(Walked(t), a, x) {
      LastBeforeIsPredecessor(t, a, p, x);
    }
  }

  lemma TagsReach(t: Template, k: nat, x: Id)
    requires k <= |t.inputs|
    ensures !ReachedBy(t, k, x) ==> forall p :: !LastBeforeFrom(t, k, p, x)
  {
    hide LastBefore, Reaches;
    forall i | 0 <= i < k ensures !Reaches(Walked(t), t.inputs[i].id, x) ==> forall p :: !LastBefore(t, t.inputs[i].id, p, x) {
      WayReaches(t, t.inputs[i].id, x);
    }
  }

  lemma OneMoreInput(t: Template, k: nat, x: Id)
    requires 0 < k <= |t.inputs|
    ensures ReachedBy(t, k, x) <==> ReachedBy(t, k - 1, x) || Reaches(Walked(t), t.inputs[k - 1].id, x)
    ensures forall p :: LastBeforeFrom(t, k, p, x) <==>
                        LastBeforeFrom(t, k - 1, p, x) || LastBefore(t, t.inputs[k - 1].id, p, x)
  {
    hide Reaches, LastBefore;
  }

  // ---------- Are all predecessors listed? ----------

  /** A predecessor of `x` on a way from `a`. */
  ghost predicate Doorway(t: Template, a: Id, p: Id, x: Id) {
    Edge(Walked(t), p, x) && Reaches(Walked(t), a, p)
  }

  /** From `a`, at most one node leads into `x`. */
  ghost predicate OneDoorway(t: Template, a: Id, x: Id) {
    forall p, r :: Doorway(t, a, p, x) && Doorway(t, a, r, x) ==> p == r
  }

  /** `a` reaches every node by at most one path. */
  ghost predicate OneWay(t: Template, a: Id) {
    forall x, q, r :: Path(Walked(t), q, a, x) && Path(Walked(t), r, a, x) ==> q == r
  }

  lemma OneWayOneDoorway(t: Template, a: Id, x: Id)
    requires OneWay(t, a)
    ensures OneDoorway(t, a, x)
  {
    hide Edge;
    forall p, r | Doorway(t, a, p, x) && Doorway(t, a, r, x) ensures p == r {
      var q :| Path(Walked(t), q, a, p);
      var q' :| Path(Walked(t), q', a, r);
      Arrives(t, q, a, p, x);
      Arrives(t, q', a, r, x);
      assert (q + [x])[|q| - 1] == (q' + [x])[|q'| - 1];
    }
  }

  lemma Arrives(t: Template, q: seq<Id>, a: Id, p: Id, x: Id)
    requires Path(Walked(t), q, a, p) && Edge(Walked(t), p, x)
    ensures Path(Walked(t), q + [x], a, x)
  {
    hide Edge;
    LinkPath(t, p, x);
    JoinPaths(Walked(t), q, [p, x], a, p, x);
    assert q + [p, x][1..] == q + [x];
  }

  /** A listed node behind a doorway is in the walk, and one of its doorways is its tag. */
  lemma DoorwayListed(t: Template, n: Node, p: Id, x: Id) returns (r: Id)
    requires Walkable(t) && NodeOf(t, n) && Listed(t, x) && Doorway(t, n.id, p, x)
    ensures x in Walk(t, n, []) && Walk(t, n, [])[x] == [r] && Doorway(t, n.id, r, x)
  {
    hide Regular, Edge, Walk, NodeOf, Listed, LastBefore;
    WalkLists(t, n, x);
    var q :| Path(Walked(t), q, n.id, p);
    Arrives(t, q, n.id, p, x);
    assert Reaches(Walked(t), n.id, x);
    if x == n.id {
      NoWayBack(t, q + [x], x);
      assert false;
    }
    hide Acyclic;
    r := Walk(t, n, [])[x][0];
    assert r in Walk(t, n, [])[x];
    LastBeforeIsPredecessor(t, n.id, r, x);
  }

  /** The walk from one input lists every predecessor on its ways exactly when there is at most one. */
  lemma WalkListsAllIff(t: Template, n: Node, x: Id)
    requires Walkable(t) && NodeOf(t, n) && x in Walk(t, n, [])
    ensures (forall p :: Doorway(t, n.id, p, x) ==> p in Walk(t, n, [])[x]) <==> OneDoorway(t, n.id, x)
  {
    hide Walkable, Walk, NodeOf, Doorway;
    WalkLists(t, n, x);
    forall p | Doorway(t, n.id, p, x)
      ensures exists r :: Walk(t, n, [])[x] == [r] && Doorway(t, n.id, r, x)
    {
      var r := DoorwayListed(t, n, p, x);
    }
  }

  /** Every tag of a node is the id of a direct predecessor that an input reaches. */
  lemma TagsArePredecessors(t: Template, x: Id, p: Id)
    requires Walkable(t) && x in Tags(t, |t.inputs|) && p in Tags(t, |t.inputs|)[x]
    ensures Edge(Walked(t), p, x) && ReachedBy(t, |t.inputs|, p)
  {
    hide Walkable, Tags, LastBefore, Reaches, Edge;
    TagsMean(t, |t.inputs|, x);
    var i :| 0 <= i < |t.inputs| && LastBefore(t, t.inputs[i].id, p, x);
    LastBeforeIsPredecessor(t, t.inputs[i].id, p, x);
  }

  /** When every input has at most one doorway into a node, the node lists exactly its reached predecessors. */
  lemma OneDoorwayListsAll(t: Template, x: Id, p: Id)
    requires Walkable(t) && x in Tags(t, |t.inputs|)
    requires forall i :: 0 <= i < |t.inputs| ==> OneDoorway(t, t.inputs[i].id, x)
    ensures p in Tags(t, |t.inputs|)[x] <==> Edge(Walked(t), p, x) && ReachedBy(t, |t.inputs|, p)
  {
    hide Walkable, Tags, LastBefore, Reaches, Edge, Listed, NodeOf, Walk;
    var k := |t.inputs|;
    TagsMean(t, k, x);
    if p in Tags(t, k)[x] {
      TagsArePredecessors(t, x, p);
    }
    if Edge(Walked(t), p, x) && ReachedBy(t, k, p) {
      var i :| 0 <= i < k && Reaches(Walked(t), t.inputs[i].id, p);
      var n := t.inputs[i];
      InputNode(t, i);
      var r := DoorwayListed(t, n, p, x);
      assert OneDoorway(t, n.id, x);
      assert p == r && p in Walk(t, n, [])[x];
      WalkLists(t, n, x);
      assert LastBefore(t, t.inputs[i].id, p, x);
    }
  }

  /** In particular when each input reaches each node by at most one path. */
  lemma OneWayListsAll(t: Template, x: Id, p: Id)
    requires Walkable(t) && x in Tags(t, |t.inputs|)
    requires forall i :: 0 <= i < |t.inputs| ==> OneWay(t, t.inputs[i].id)
    ensures p in Tags(t, |t.inputs|)[x] <==> Edge(Walked(t), p, x) && ReachedBy(t, |t.inputs|, p)
  {
    hide Walkable, Tags, Edge, ReachedBy, OneWay, OneDoorway;
    forall i | 0 <= i < |t.inputs| ensures OneDoorway(t, t.inputs[i].id, x) {
      OneWayOneDoorway(t, t.inputs[i].id, x);
    }
    OneDoorwayListsAll(t, x, p);
  }

  /** Whatever the inputs, all reached predecessors are listed exactly when each comes last before the node from some input. */
  lemma ListsAllIff(t: Template, x: Id)
    requires Walkable(t) && x in Tags(t, |t.inputs|)
    ensures (forall p :: Edge(Walked(t), p, x) && ReachedBy(t, |t.inputs|, p) ==> p in Tags(t, |t.inputs|)[x]) <==>
            (forall p :: Edge(Walked(t), p, x) && ReachedBy(t, |t.inputs|, p) ==> LastBeforeFrom(t, |t.inputs|, p, x))
  {
    hide Walkable, Tags, LastBeforeFrom, ReachedBy, Edge;
    TagsMean(t, |t.inputs|, x);
  }

  /** With a single input, all reached predecessors are listed exactly when at most one leads into the node. */
  lemma OneInputListsAllIff(t: Template, x: Id)
    requires Walkable(t) && |t.inputs| == 1 && x in Tags(t, 1)
    ensures (forall p :: Edge(Walked(t), p, x) && ReachedBy(t, 1, p) ==> p in Tags(t, 1)[x]) <==>
            OneDoorway(t, t.inputs[0].id, x)
  {
    hide Walkable, Tags, LastBefore, Reaches, Edge, Listed, NodeOf, Walk, OneDoorway;
    var n := t.inputs[0];
    InputNode(t, 0);
    TagsMean(t, 1, x);
    WalkLists(t, n, x);
    WalkListsAllIff(t, n, x);
    assert forall p :: LastBeforeFrom(t, 1, p, x) <==> LastBefore(t, n.id, p, x);
    assert forall p :: ReachedBy(t, 1, p) <==> Reaches(Walked(t), n.id, p);
  }

  // ---------- A diamond ----------

  predicate Corners(i: Id, a: Id, b: Id, o: Id) {
    i != a && i != b && i != o && a != b && a != o && b != o && a != "" && b != "" && o != ""
  }

  /** One input feeding two processors that feed one output. */
  function Diamond(i: Id, a: Id, b: Id, o: Id): Template {
    Template([Node(i, Some([Ref(Processor, a), Ref(Processor, b)]))],
             [Node(a, Some([Ref(Output, o)])), Node(b, Some([Ref(Output, o)]))],
             [], [Node(o, None)])
  }

  lemma DiamondNodes(i: Id, a: Id, b: Id, o: Id)
    requires Corners(i, a, b, o)
    ensures var t := Diamond(i, a, b, o);
            AllNodes(t) == [t.inputs[0], t.processors[0], t.processors[1], t.outputs[0]] && DistinctIds(t) &&
            NodeAt(t, i) == Some(t.inputs[0]) && NodeAt(t, a) == Some(t.processors[0]) &&
            NodeAt(t, b) == Some(t.processors[1]) && NodeAt(t, o) == Some(t.outputs[0]) &&
            forall c :: NodeAt(t, c).Some? ==> c in {i, a, b, o}
  {
    hide FindIndex;
    var t := Diamond(i, a, b, o);
    assert AllNodes(t) == [t.inputs[0], t.processors[0], t.processors[1], t.outputs[0]];
    assert DistinctIds(t);
    var input: Kind := Kind.Input;
    assert t.List(input) == t.inputs && t.List(Processor) == t.processors && t.List(Output) == t.outputs;
    AtIs(t, input, 0);
    AtIs(t, Processor, 0);
    AtIs(t, Processor, 1);
    AtIs(t, Output, 0);
  }

  lemma DiamondRefs(i: Id, a: Id, b: Id, o: Id)
    requires Corners(i, a, b, o)
    ensures var t := Diamond(i, a, b, o);
            FindNode(t, Ref(Processor, a)).Found? && FindNode(t, Ref(Processor, b)).Found? &&
            FindNode(t, Ref(Output, o)).Found?
  {
    hide FindIndex;
    var t := Diamond(i, a, b, o);
    assert t.List(Processor) == t.processors && t.List(Output) == t.outputs;
    assert t.processors[0].id == a && t.processors[1].id == b && t.outputs[0].id == o;
  }

  lemma DiamondEdges(i: Id, a: Id, b: Id, o: Id, c: Id, d: Id)
    requires Corners(i, a, b, o)
    ensures Edge(Walked(Diamond(i, a, b, o)), c, d) <==>
            (c == i && (d == a || d == b)) || ((c == a || c == b) && d == o)
  {
    hide NodeAt, FindNode, AllNodes, DistinctIds;
    DiamondNodes(i, a, b, o);
    DiamondRefs(i, a, b, o);
    var t := Diamond(i, a, b, o);
    var ab, bo, ao := t.inputs[0].next.value, t.processors[1].next.value, t.processors[0].next.value;
    assert ab[0] == Ref(Processor, a) && ab[1] == Ref(Processor, b) && ao[0] == bo[0] == Ref(Output, o);
  }

  lemma DiamondWalkable(i: Id, a: Id, b: Id, o: Id)
    requires Corners(i, a, b, o)
    ensures Walkable(Diamond(i, a, b, o))
  {
    hide Acyclic, Edge, AllNodes, DistinctIds;
    var t := Diamond(i, a, b, o);
    var height: Id -> int := c => if c == i then 0 else if c == o then 2 else 1;
    DiamondNodes(i, a, b, o);
    forall c, d ensures Edge(Walked(t), c, d) ==> height(c) < height(d) { DiamondEdges(i, a, b, o, c, d); }
    ClimbingIsAcyclic(Walked(t), height);
  }

  /** Two ways from the only input into a node: the node has an entry, but lacks one of its predecessors. */
  lemma DiamondLosesPredecessor(i: Id, a: Id, b: Id, o: Id)
    requires Corners(i, a, b, o)
    ensures var t := Diamond(i, a, b, o);
            Walkable(t) && o in Tags(t, 1) &&
            exists p :: Edge(Walked(t), p, o) && ReachedBy(t, 1, p) && p !in Tags(t, 1)[o]
  {
    hide NodeAt, Walkable, Edge, Tags, AllNodes, DistinctIds;
    var t := Diamond(i, a, b, o);
    DiamondWalkable(i, a, b, o);
    DiamondNodes(i, a, b, o);
    DiamondEdges(i, a, b, o, i, a);
    DiamondEdges(i, a, b, o, i, b);
    DiamondEdges(i, a, b, o, a, o);
    DiamondEdges(i, a, b, o, b, o);
    assert Path(Walked(t), [i, a], i, a) && Path(Walked(t), [i, b], i, b) && Path(Walked(t), [i, a, o], i, o);
    assert Reaches(Walked(t), t.inputs[0].id, o);
    TagsMean(t, 1, o);
    OneInputListsAllIff(t, o);
    assert Doorway(t, i, a, o) && Doorway(t, i, b, o);
  }
}
