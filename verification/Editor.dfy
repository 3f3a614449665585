/** Editing links and nodes (template-editor.component.ts). */
module Editors {
  import opened Lists
  import opened Options
  import opened TemplateGraphs
  import opened Templates

  /** How far hasCycle follows links. */
  const CYCLE_DEPTH: nat := 10

  /** hasCycle: depth-first from `n`, giving up below depth zero. */
  predicate HasCycle(t: Template, n: Option<Node>, goal: Id, depth: int)
    decreases if depth < 0 then 0 else depth + 1
  {
    if depth < 0 || n.None? then false
    else if n.value.id == goal then true
    else if n.value.next.None? then false
    else
      var refs := n.value.next.value;
      exists i :: 0 <= i < |refs| && HasCycle(t, GetNode(t, refs[i].id), goal, depth - 1)
  }

  /** hasCycle finds exactly the paths of at most `depth` links. */
  lemma {:induction false} HasCycleIff(t: Template, id: Id, goal: Id, depth: int)
    requires GetNode(t, goal).Some? && GetNode(t, id).Some?
    ensures HasCycle(t, GetNode(t, id), goal, depth) <==> ReachesWithin(Drawn(t), id, goal, depth)
    decreases if depth < 0 then 0 else depth + 1
  {
    var n := GetNode(t, id).value;
    assert n.id == id;
    if depth >= 0 && id == goal {
      assert Path(Drawn(t), [id], id, goal);
    } else if depth >= 0 && n.next.Some? {
      var refs := n.next.value;
      forall i | 0 <= i < |refs| && GetNode(t, refs[i].id).Some?
        ensures HasCycle(t, GetNode(t, refs[i].id), goal, depth - 1) <==> ReachesWithin(Drawn(t), refs[i].id, goal, depth - 1)
      {
        HasCycleIff(t, refs[i].id, goal, depth - 1);
      }
      hide HasCycle;
      OneLinkFurther(t, id, goal, depth);
    } else if depth >= 0 {
      NoWayOut(t, id, goal, depth);
    }
  }

  lemma NoWayOut(t: Template, id: Id, goal: Id, depth: int)
    requires GetNode(t, id).Some? && GetNode(t, id).value.next.None? && id != goal
    ensures !ReachesWithin(Drawn(t), id, goal, depth)
  {
    assert forall b :: !Edge(Drawn(t), id, b);
    hide Edge;
    if ReachesWithin(Drawn(t), id, goal, depth) {
      var p :| Path(Drawn(t), p, id, goal) && |p| - 1 <= depth;
      LeavesStart(t, p, id, goal);
    }
  }

  lemma LeavesStart(t: Template, p: seq<Id>, a: Id, b: Id)
    requires Path(Drawn(t), p, a, b) && a != b
    ensures |p| > 1 && Edge(Drawn(t), a, p[1])
  {
    hide Edge;
    assert Edge(Drawn(t), p[0], p[1]);
  }

  /** Reaching the goal over `depth` links means reaching it from a next node over one fewer. */
  lemma OneLinkFurther(t: Template, id: Id, goal: Id, depth: int)
    requires GetNode(t, goal).Some? && GetNode(t, id).Some? && id != goal
    requires GetNode(t, id).value.next.Some?
    ensures var refs := GetNode(t, id).value.next.value;
            ReachesWithin(Drawn(t), id, goal, depth) <==>
            exists i :: 0 <= i < |refs| && GetNode(t, refs[i].id).Some? && ReachesWithin(Drawn(t), refs[i].id, goal, depth - 1)
  {
    var refs := GetNode(t, id).value.next.value;
    if ReachesWithin(Drawn(t), id, goal, depth) {
      var i := FirstLink(t, id, goal, depth);
    }
    if i :| 0 <= i < |refs| && GetNode(t, refs[i].id).Some? && ReachesWithin(Drawn(t), refs[i].id, goal, depth - 1) {
      ThroughLink(t, id, goal, depth, i);
    }
  }

  lemma FirstLink(t: Template, id: Id, goal: Id, depth: int) returns (i: nat)
    requires GetNode(t, goal).Some? && GetNode(t, id).Some? && id != goal
    requires GetNode(t, id).value.next.Some? && ReachesWithin(Drawn(t), id, goal, depth)
    ensures var refs := GetNode(t, id).value.next.value;
            i < |refs| && GetNode(t, refs[i].id).Some? && ReachesWithin(Drawn(t), refs[i].id, goal, depth - 1)
  {
    hide GetNode;
    var refs := GetNode(t, id).value.next.value;
    var p :| Path(Drawn(t), p, id, goal) && |p| - 1 <= depth;
    assert Edge(Drawn(t), p[0], p[1]);
    i :| 0 <= i < |refs| && refs[i].id == p[1];
    SubPath(Drawn(t), p, 1, |p| - 1);
    assert |p| > 2 ==> Edge(Drawn(t), p[1], p[2]);
  }

  lemma ThroughLink(t: Template, id: Id, goal: Id, depth: int, i: nat)
    requires GetNode(t, id).Some? && GetNode(t, id).value.next.Some?
    requires var refs := GetNode(t, id).value.next.value;
             i < |refs| && ReachesWithin(Drawn(t), refs[i].id, goal, depth - 1)
    ensures ReachesWithin(Drawn(t), id, goal, depth)
  {
    var next := GetNode(t, id).value.next.value[i].id;
    assert Edge(Drawn(t), id, next);
    hide Edge, GetNode;
    var q :| Path(Drawn(t), q, next, goal) && |q| - 1 <= depth - 1;
    assert Path(Drawn(t), [id, next], id, next);
    JoinPaths(Drawn(t), [id, next], q, id, next, goal);
  }

  // ---------- Adding a link ----------

  /** addEdge goes through for these ends: both nodes found, no input as target, no such link yet. */
  predicate Linkable(t: Template, source: Id, target: Id) {
    GetNode(t, target).Some? && KindOf(target) != Input &&
    GetNode(t, source).Some? && GetNode(t, source).value.next.Some? && !Edge(Drawn(t), source, target)
  }

  /** Replaces the links of the node found for `id`. */
  function SetNext(t: Template, id: Id, refs: seq<Ref>): Template
    requires GetNode(t, id).Some?
  {
    var k := KindOf(id);
    var ns := t.List(k);
    var i := FindIndex(ns, id);
    t.With(k, ns[i := ns[i].(next := Some(refs))])
  }

  /** addEdge; the template stays as it is when the link is refused. */
  function AddEdge(t: Template, source: Id, target: Id): Template {
    if !Linkable(t, source, target) || HasCycle(t, GetNode(t, target), source, CYCLE_DEPTH) then t
    else SetNext(t, source, GetNode(t, source).value.next.value + [Ref(KindOf(target), target)])
  }

  lemma SetNextFinds(t: Template, id: Id, refs: seq<Ref>, a: Id)
    requires GetNode(t, id).Some?
    ensures GetNode(SetNext(t, id, refs), a) ==
            if a == id then Some(Node(id, Some(refs))) else GetNode(t, a)
  {
    var k := KindOf(id);
    var ns := t.List(k);
    var i := FindIndex(ns, id);
    var us := ns[i := ns[i].(next := Some(refs))];
    if KindOf(a) == k {
      SameIds(ns, us, a);
    }
  }

  lemma SameIds(ns: seq<Node>, us: seq<Node>, id: Id)
    requires |ns| == |us| && forall k :: 0 <= k < |ns| ==> ns[k].id == us[k].id
    ensures FindIndex(us, id) == FindIndex(ns, id)
  {
    var i, j := FindIndex(ns, id), FindIndex(us, id);
    assert !(i < j) && !(j < i);
  }

  lemma SetNextEdges(t: Template, id: Id, refs: seq<Ref>, a: Id, b: Id)
    requires GetNode(t, id).Some?
    ensures Edge(Drawn(SetNext(t, id, refs)), a, b) <==> if a == id then LinksTo(refs, b) else Edge(Drawn(t), a, b)
  {
    hide SetNext, LinksTo;
    SetNextFinds(t, id, refs, a);
  }

  lemma LinksToSnoc(refs: seq<Ref>, r: Ref, b: Id)
    ensures LinksTo(refs + [r], b) <==> LinksTo(refs, b) || b == r.id
  {
    var all := refs + [r];
    assert all[|refs|] == r && forall i :: 0 <= i < |refs| ==> all[i] == refs[i];
  }

  /** An accepted link is the one new edge. */
  lemma AddEdgeEdges(t: Template, source: Id, target: Id, a: Id, b: Id)
    requires Linkable(t, source, target) && !HasCycle(t, GetNode(t, target), source, CYCLE_DEPTH)
    ensures Edge(Drawn(AddEdge(t, source, target)), a, b) <==> Edge(Drawn(t), a, b) || (a == source && b == target)
  {
    hide SetNext, LinksTo, HasCycle;
    var refs := GetNode(t, source).value.next.value;
    SetNextEdges(t, source, refs + [Ref(KindOf(target), target)], a, b);
    LinksToSnoc(refs, Ref(KindOf(target), target), b);
  }

  /** With one more link, a path either avoids it or reaches its source before and leaves its target after. */
  ghost predicate OneMoreLink(t: Template, t': Template, s: Id, g: Id) {
    forall a, b :: Edge(Drawn(t'), a, b) <==> Edge(Drawn(t), a, b) || (a == s && b == g)
  }

  lemma {:induction false} OldPrefix(t: Template, t': Template, s: Id, g: Id, p: seq<Id>)
    requires OneMoreLink(t, t', s, g) && |p| > 0 && Path(Drawn(t'), p, p[0], p[|p| - 1])
    ensures Path(Drawn(t), p, p[0], p[|p| - 1]) || Reaches(Drawn(t), p[0], s)
    decreases |p|
  {
    hide Edge;
    if |p| > 1 {
      var front := p[..|p| - 1];
      SubPath(Drawn(t'), p, 0, |p| - 2);
      assert p[0..|p| - 1] == front;
      OldPrefix(t, t', s, g, front);
      if Path(Drawn(t), front, p[0], p[|p| - 2]) {
        assert Edge(Drawn(t'), p[|p| - 2], p[|p| - 1]);
        if Edge(Drawn(t), p[|p| - 2], p[|p| - 1]) {
          forall i | 0 <= i < |p| - 1 ensures Edge(Drawn(t), p[i], p[i + 1]) {
            assert i < |p| - 2 ==> Edge(Drawn(t), front[i], front[i + 1]);
          }
        }
      }
    }
  }

  lemma {:induction false} OldSuffix(t: Template, t': Template, s: Id, g: Id, p: seq<Id>)
    requires OneMoreLink(t, t', s, g) && |p| > 0 && Path(Drawn(t'), p, p[0], p[|p| - 1])
    ensures Path(Drawn(t), p, p[0], p[|p| - 1]) || Reaches(Drawn(t), g, p[|p| - 1])
    decreases |p|
  {
    hide Edge;
    if |p| > 1 {
      var tail := p[1..];
      SubPath(Drawn(t'), p, 1, |p| - 1);
      assert p[1..|p|] == tail;
      OldSuffix(t, t', s, g, tail);
      if Path(Drawn(t), tail, p[1], p[|p| - 1]) {
        assert Edge(Drawn(t'), p[0], p[1]);
        if Edge(Drawn(t), p[0], p[1]) {
          forall i | 0 <= i < |p| - 1 ensures Edge(Drawn(t), p[i], p[i + 1]) {
            assert i > 0 ==> Edge(Drawn(t), tail[i - 1], tail[i]);
          }
        }
      }
    }
  }

  /** Adding a link to an acyclic template makes a cycle exactly when its target already reached its source. */
  lemma CycleIffReached(t: Template, t': Template, s: Id, g: Id)
    requires Acyclic(Drawn(t)) && OneMoreLink(t, t', s, g)
    ensures Acyclic(Drawn(t')) <==> !Reaches(Drawn(t), g, s)
  {
    hide Edge;
    if Reaches(Drawn(t), g, s) {
      var q :| Path(Drawn(t), q, g, s);
      assert Edge(Drawn(t'), s, g);
      assert Path(Drawn(t'), q, g, s) && Path(Drawn(t'), [s, g], s, g);
      JoinPaths(Drawn(t'), q, [s, g], g, s, g);
      assert Path(Drawn(t'), q + [s, g][1..], g, g) && |q + [s, g][1..]| > 1;
    } else {
      forall a, p | Path(Drawn(t'), p, a, a) ensures |p| == 1 {
        OldPrefix(t, t', s, g, p);
        OldSuffix(t, t', s, g, p);
        if !Path(Drawn(t), p, a, a) {
          var x :| Path(Drawn(t), x, g, a);
          var y :| Path(Drawn(t), y, a, s);
          JoinPaths(Drawn(t), x, y, g, a, s);
        }
      }
    }
  }

  /** The cycle check misses this link: its target reaches its source, but only over more than ten links. */
  ghost predicate Missed(t: Template, source: Id, target: Id) {
    Linkable(t, source, target) && Reaches(Drawn(t), target, source) && !ReachesWithin(Drawn(t), target, source, CYCLE_DEPTH)
  }

  /** addEdge keeps an acyclic template acyclic exactly when the check does not miss the link. */
  lemma AddEdgeAcyclicIff(t: Template, source: Id, target: Id)
    requires Acyclic(Drawn(t))
    ensures Acyclic(Drawn(AddEdge(t, source, target))) <==> !Missed(t, source, target)
  {
    hide Acyclic, Path;
    if Linkable(t, source, target) {
      HasCycleIff(t, target, source, CYCLE_DEPTH);
      hide HasCycle;
      if !HasCycle(t, GetNode(t, target), source, CYCLE_DEPTH) {
        var t' := AddEdge(t, source, target);
        forall a, b ensures Edge(Drawn(t'), a, b) <==> Edge(Drawn(t), a, b) || (a == source && b == target) {
          AddEdgeEdges(t, source, target, a, b);
        }
        hide Edge, AddEdge, Linkable;
        CycleIffReached(t, t', source, target);
      }
    }
  }

  /** The editor takes this link: it can be drawn, and the cycle check does not find its source behind its target. */
  ghost predicate Accepts(t: Template, source: Id, target: Id) {
    Linkable(t, source, target) && !ReachesWithin(Drawn(t), target, source, CYCLE_DEPTH)
  }

  lemma AcceptsIff(t: Template, source: Id, target: Id)
    ensures Accepts(t, source, target) <==>
            Linkable(t, source, target) && !HasCycle(t, GetNode(t, target), source, CYCLE_DEPTH)
  {
    hide HasCycle, Edge;
    if Linkable(t, source, target) {
      HasCycleIff(t, target, source, CYCLE_DEPTH);
    }
  }

  /** For every template and every pair: after addEdge there is one more link if it is accepted, and else none. */
  lemma AddEdgeExactly(t: Template, source: Id, target: Id, a: Id, b: Id)
    ensures Edge(Drawn(AddEdge(t, source, target)), a, b) <==>
            Edge(Drawn(t), a, b) || (a == source && b == target && Accepts(t, source, target))
    ensures !Accepts(t, source, target) ==> AddEdge(t, source, target) == t
  {
    AcceptsIff(t, source, target);
    hide HasCycle, Accepts, Linkable, Edge;
    if Accepts(t, source, target) {
      AddEdgeEdges(t, source, target, a, b);
    }
  }

  /** No node but the source changes, and the source only by the new link behind its others. */
  lemma AddEdgeNodes(t: Template, source: Id, target: Id, k: Kind, i: nat)
    requires i < |t.List(k)|
    ensures var ns := t.List(k);
            |AddEdge(t, source, target).List(k)| == |ns| &&
            AddEdge(t, source, target).List(k)[i] ==
            if Accepts(t, source, target) && k == KindOf(source) && i == FindIndex(ns, source)
            then Node(source, Some(ns[i].next.value + [Ref(KindOf(target), target)])) else ns[i]
  {
    AcceptsIff(t, source, target);
    hide HasCycle, Accepts, Edge, KindOf;
  }

  /** In particular, while no path has more than ten links. */
  lemma ShortPathsAreSafe(t: Template, source: Id, target: Id)
    requires Acyclic(Drawn(t)) && forall p :: |p| > 0 && Path(Drawn(t), p, p[0], p[|p| - 1]) ==> |p| - 1 <= CYCLE_DEPTH
    ensures Acyclic(Drawn(AddEdge(t, source, target)))
  {
    AddEdgeAcyclicIff(t, source, target);
    hide Edge;
    if Reaches(Drawn(t), target, source) {
      var p :| Path(Drawn(t), p, target, source);
      assert Path(Drawn(t), p, p[0], p[|p| - 1]);
    }
  }

  // ---------- Closing a chain ----------

  predicate ChainIds(ids: seq<Id>) {
    |ids| > 0 && (forall i :: 0 <= i < |ids| ==> KindOf(ids[i]) == Processor) &&
    forall i, j :: 0 <= i < j < |ids| ==> ids[i] != ids[j]
  }

  function ChainNode(ids: seq<Id>, i: nat): Node
    requires i < |ids|
  {
    Node(ids[i], Some(if i + 1 < |ids| then [Ref(Processor, ids[i + 1])] else []))
  }

  /** Processors, each linked to the next one. */
  function Chain(ids: seq<Id>): Template {
    Template([], seq(|ids|, i requires 0 <= i < |ids| => ChainNode(ids, i)), [], [])
  }

  lemma ChainFinds(ids: seq<Id>, i: nat)
    requires ChainIds(ids) && i < |ids|
    ensures GetNode(Chain(ids), ids[i]) == Some(ChainNode(ids, i))
  {
    hide KindOf;
    var t := Chain(ids);
    assert GoodIds(t.List(Processor), Processor);
    ListFound(t, Processor, i);
  }

  lemma ChainEdges(ids: seq<Id>, a: Id, b: Id)
    requires ChainIds(ids)
    ensures Edge(Drawn(Chain(ids)), a, b) <==> exists i :: 0 <= i < |ids| - 1 && a == ids[i] && b == ids[i + 1]
  {
    hide KindOf;
    var t := Chain(ids);
    if GetNode(t, a).Some? {
      var i := FindIndex(t.List(KindOf(a)), a);
      ChainFinds(ids, i);
    }
    if i :| 0 <= i < |ids| - 1 && a == ids[i] && b == ids[i + 1] {
      ChainFinds(ids, i);
      assert ChainNode(ids, i).next.value[0].id == b;
    }
  }

  lemma ChainWellFormed(ids: seq<Id>)
    requires ChainIds(ids)
    ensures WellFormed(Chain(ids))
  {
    hide KindOf, GetNode;
    var t := Chain(ids);
    forall i | 0 <= i < |ids| ensures GoodNode(t, ChainNode(ids, i), Processor) {
      if i + 1 < |ids| {
        ChainFinds(ids, i + 1);
      }
    }
    hide GoodNode;
    assert t.List(Processor) == t.processors;
  }

  /** A path along a chain keeps to its order. */
  lemma {:induction false} ChainPath(ids: seq<Id>, p: seq<Id>, s: nat, n: nat)
    requires ChainIds(ids) && n < |p| && Path(Drawn(Chain(ids)), p, p[0], p[|p| - 1]) && s < |ids| && p[0] == ids[s]
    ensures s + n < |ids| && p[n] == ids[s + n]
  {
    hide Edge, KindOf, Chain;
    if n > 0 {
      ChainPath(ids, p, s, n - 1);
      assert Edge(Drawn(Chain(ids)), p[n - 1], p[n - 1 + 1]);
      ChainEdges(ids, p[n - 1], p[n]);
    }
  }

  lemma ChainAcyclic(ids: seq<Id>)
    requires ChainIds(ids)
    ensures Acyclic(Drawn(Chain(ids)))
  {
    hide Edge, KindOf, Chain;
    var t := Chain(ids);
    forall a, p | Path(Drawn(t), p, a, a) ensures |p| == 1 {
      if |p| > 1 {
        assert Edge(Drawn(t), p[0], p[0 + 1]);
        ChainEdges(ids, p[0], p[1]);
        var s :| 0 <= s < |ids| - 1 && p[0] == ids[s] && p[1] == ids[s + 1];
        ChainPath(ids, p, s, |p| - 1);
      }
    }
  }

  /** Along a chain the first processor reaches the last, over as many links as there are and no fewer. */
  lemma ChainLength(ids: seq<Id>, depth: int)
    requires ChainIds(ids)
    ensures var first, last := ids[0], ids[|ids| - 1];
            Reaches(Drawn(Chain(ids)), first, last) && (ReachesWithin(Drawn(Chain(ids)), first, last, depth) <==> |ids| - 1 <= depth)
  {
    hide Edge, KindOf, Chain;
    var t, first, last := Chain(ids), ids[0], ids[|ids| - 1];
    forall i | 0 <= i < |ids| - 1 ensures Edge(Drawn(t), ids[i], ids[i + 1]) { ChainEdges(ids, ids[i], ids[i + 1]); }
    assert Path(Drawn(t), ids, first, last);
    if ReachesWithin(Drawn(t), first, last, depth) {
      var p :| Path(Drawn(t), p, first, last) && |p| - 1 <= depth;
      ChainPath(ids, p, 0, |p| - 1);
    }
  }

  /** Linking the last processor of a chain back to the first is refused exactly up to eleven processors. */
  lemma ClosingChainAcyclicIff(ids: seq<Id>)
    requires ChainIds(ids)
    ensures WellFormed(Chain(ids)) && Acyclic(Drawn(Chain(ids)))
    ensures Acyclic(Drawn(AddEdge(Chain(ids), ids[|ids| - 1], ids[0]))) <==> |ids| <= CYCLE_DEPTH + 1
  {
    hide Linkable, Acyclic, AddEdge, Reaches, ReachesWithin, WellFormed, ChainIds, Chain;
    NotEmpty(ids);
    ChainWellFormed(ids);
    ChainAcyclic(ids);
    ChainLength(ids, CYCLE_DEPTH);
    ChainEndsLinkable(ids);
    AddEdgeAcyclicIff(Chain(ids), ids[|ids| - 1], ids[0]);
  }

  lemma NotEmpty(ids: seq<Id>)
    requires ChainIds(ids)
    ensures |ids| > 0
  {}

  lemma ChainEndsLinkable(ids: seq<Id>)
    requires ChainIds(ids)
    ensures Linkable(Chain(ids), ids[|ids| - 1], ids[0])
  {
    hide Edge, KindOf;
    ChainFinds(ids, 0);
    ChainFinds(ids, |ids| - 1);
    ChainEdges(ids, ids[|ids| - 1], ids[0]);
    hide GetNode, Chain;
    assert KindOf(ids[0]) == Processor;
  }

  // ---------- Removing links and nodes ----------

  /** Keeps the links that do not lead to `id`. */
  function Without(refs: seq<Ref>, id: Id): seq<Ref> {
    if refs == [] then []
    else Without(refs[..|refs| - 1], id) + if refs[|refs| - 1].id != id then [refs[|refs| - 1]] else []
  }

  /** deleteEdge; it throws, changing nothing, when the source has no links. */
  function DeleteEdge(t: Template, source: Id, target: Id): Template {
    var n := GetNode(t, source);
    if n.None? || n.value.next.None? then t else SetNext(t, source, Without(n.value.next.value, target))
  }

  /** findIndexOfLinkTo: the first link to `id`, or their number. */
  function LinkIndex(refs: seq<Ref>, id: Id): (i: nat)
    ensures i <= |refs| && (i < |refs| ==> refs[i].id == id)
    ensures forall k :: 0 <= k < i ==> refs[k].id != id
  {
    FirstIndex(refs, (r: Ref) => r.id == id)
  }

  function DropLink(refs: seq<Ref>, id: Id): seq<Ref> {
    var i := LinkIndex(refs, id);
    if i < |refs| then refs[..i] + refs[i + 1..] else refs
  }

  function DropOrphan(n: Node, id: Id): (r: Node)
    ensures r.id == n.id
  {
    if n.next.None? then n else n.(next := Some(DropLink(n.next.value, id)))
  }

  function DropOrphans(ns: seq<Node>, id: Id): (r: seq<Node>)
    ensures |r| == |ns| && forall i :: 0 <= i < |ns| ==> r[i] == DropOrphan(ns[i], id)
  {
    seq(|ns|, i requires 0 <= i < |ns| => DropOrphan(ns[i], id))
  }

  /** The first link to `id` goes from every input, processor and aggregator. */
  function AllOrphaned(t: Template, id: Id): Template {
    Template(DropOrphans(t.inputs, id), DropOrphans(t.processors, id), DropOrphans(t.aggregators, id), t.outputs)
  }

  /** The first node without a list of links, or the number of nodes. */
  function Bare(ns: seq<Node>): (i: nat)
    ensures i <= |ns| && (i < |ns| ==> ns[i].next.None?) && forall k :: 0 <= k < i ==> ns[k].next.Some?
  {
    FirstIndex(ns, (n: Node) => n.next.None?)
  }

  /** One list after deleteOrphanedLinks: nodes from the first bare one on are as they were. */
  function DropUpToBare(ns: seq<Node>, id: Id): seq<Node> {
    DropOrphans(ns[..Bare(ns)], id) + ns[Bare(ns)..]
  }

  /** deleteOrphanedLinks, and whether it gets to its end: it throws at a node without a list of links. */
  function Orphaned(t: Template, id: Id): (Template, bool) {
    if Bare(t.inputs) < |t.inputs| then (t.(inputs := DropUpToBare(t.inputs, id)), false)
    else if Bare(t.processors) < |t.processors| then
      (t.(inputs := DropOrphans(t.inputs, id), processors := DropUpToBare(t.processors, id)), false)
    else if Bare(t.aggregators) < |t.aggregators| then
      (t.(inputs := DropOrphans(t.inputs, id), processors := DropOrphans(t.processors, id),
          aggregators := DropUpToBare(t.aggregators, id)), false)
    else (AllOrphaned(t, id), true)
  }

  /** In a well-formed template it does. */
  lemma NoneBare(t: Template, id: Id)
    requires WellFormed(t)
    ensures Orphaned(t, id) == (AllOrphaned(t, id), true)
  {
    hide GoodRefs, GoodIds, DropOrphans, DropUpToBare;
    assert t.List(Input) == t.inputs && t.List(Processor) == t.processors && t.List(Aggregator) == t.aggregators;
    forall k: Kind, i | k != Output && 0 <= i < |t.List(k)| ensures t.List(k)[i].next.Some? {
      assert GoodNode(t, t.List(k)[i], k);
    }
  }

  /** Removing the node at the index found; for an unknown id the index is -1 and the slices overlap. */
  function CutOut(ns: seq<Node>, id: Id): seq<Node> {
    var i := FindIndex(ns, id);
    if i < |ns| then ns[..i] + ns[i + 1..]
    else (if ns == [] then [] else ns[..|ns| - 1]) + ns
  }

  /** deleteNode; when dropping links throws, the node stays, but links may be gone already. */
  function DeleteNode(t: Template, id: Id): Template {
    var (o, ok) := Orphaned(t, id);
    if ok then o.With(KindOf(id), CutOut(o.List(KindOf(id)), id)) else o
  }

  lemma {:induction false} WithoutLinks(refs: seq<Ref>, id: Id, b: Id)
    ensures LinksTo(Without(refs, id), b) <==> LinksTo(refs, b) && b != id
  {
    if refs != [] {
      var front, last := refs[..|refs| - 1], refs[|refs| - 1];
      WithoutLinks(front, id, b);
      assert refs == front + [last];
      LinksToSnoc(front, last, b);
      LinksToSnoc(Without(front, id), last, b);
      assert Without(front, id) + [] == Without(front, id);
    }
  }

  /** deleteEdge removes exactly the one edge. */
  lemma DeleteEdgeEdges(t: Template, source: Id, target: Id, a: Id, b: Id)
    ensures Edge(Drawn(DeleteEdge(t, source, target)), a, b) <==> Edge(Drawn(t), a, b) && !(a == source && b == target)
  {
    hide SetNext, LinksTo, Without;
    var n := GetNode(t, source);
    if n.Some? && n.value.next.Some? {
      SetNextEdges(t, source, Without(n.value.next.value, target), a, b);
      WithoutLinks(n.value.next.value, target, b);
    }
  }

  /** No node but the source changes. */
  lemma DeleteEdgeNodes(t: Template, source: Id, target: Id, k: Kind, i: nat)
    requires i < |t.List(k)|
    ensures var ns := t.List(k);
            |DeleteEdge(t, source, target).List(k)| == |ns| &&
            DeleteEdge(t, source, target).List(k)[i] ==
            if k == KindOf(source) && i == FindIndex(ns, source) && ns[i].next.Some?
            then Node(source, Some(Without(ns[i].next.value, target))) else ns[i]
  {
    hide KindOf, Without;
  }

  lemma WithoutSnoc(refs: seq<Ref>, r: Ref, id: Id)
    ensures Without(refs + [r], id) == Without(refs, id) + if r.id == id then [] else [r]
  {
    assert (refs + [r])[..|refs|] == refs;
  }

  lemma WithoutOne(r: Ref, id: Id)
    ensures Without([], id) == [] && Without([r], id) == if r.id == id then [] else [r]
  {
    WithoutSnoc([], r, id);
    assert [] + [r] == [r];
  }

  /** The links kept are all but those to the target, in their order: with WithoutOne this says which they are. */
  lemma {:induction false} WithoutInOrder(refs: seq<Ref>, more: seq<Ref>, id: Id)
    ensures Without(refs + more, id) == Without(refs, id) + Without(more, id)
    decreases |more|
  {
    hide Without;
    if more == [] {
      assert refs + more == refs;
      WithoutOne(Ref(Output, id), id);
    } else {
      var front, last := more[..|more| - 1], more[|more| - 1];
      WithoutInOrder(refs, front, id);
      WithoutSnoc(refs + front, last, id);
      WithoutSnoc(front, last, id);
      assert more == front + [last] && refs + more == (refs + front) + [last];
    }
  }

  lemma DropLinkIs(refs: seq<Ref>, id: Id, b: Id)
    requires forall i, j :: 0 <= i < j < |refs| ==> refs[i].id != refs[j].id
    ensures LinksTo(DropLink(refs, id), b) <==> LinksTo(refs, b) && b != id
  {
    var i, rs := LinkIndex(refs, id), DropLink(refs, id);
    if i < |refs| {
      assert forall k :: 0 <= k < |rs| ==> rs[k] == if k < i then refs[k] else refs[k + 1];
      if LinksTo(refs, b) && b != id {
        var j :| 0 <= j < |refs| && refs[j].id == b;
        assert rs[if j < i then j else j - 1] == refs[j];
      }
    }
  }

  /** Where links are unique, dropping the first link to an id keeps exactly the others, in their order. */
  lemma DropLinkIsWithout(refs: seq<Ref>, id: Id)
    requires forall i, j :: 0 <= i < j < |refs| ==> refs[i].id != refs[j].id
    ensures DropLink(refs, id) == Without(refs, id)
  {
    hide Without, LinkIndex;
    var i := LinkIndex(refs, id);
    KeepsAll(refs[..i], id);
    if i == |refs| {
      assert refs[..i] == refs;
    } else {
      KeepsAll(refs[i + 1..], id);
      SplitWithout(refs[..i], refs[i], refs[i + 1..], id);
      assert refs == refs[..i] + [refs[i]] + refs[i + 1..];
    }
  }

  lemma SplitWithout(before: seq<Ref>, r: Ref, behind: seq<Ref>, id: Id)
    requires r.id == id
    ensures Without(before + [r] + behind, id) == Without(before, id) + Without(behind, id)
  {
    hide Without;
    WithoutSnoc(before, r, id);
    WithoutInOrder(before + [r], behind, id);
  }

  lemma {:induction false} KeepsAll(refs: seq<Ref>, id: Id)
    requires forall i :: 0 <= i < |refs| ==> refs[i].id != id
    ensures Without(refs, id) == refs
  {
    if refs != [] {
      KeepsAll(refs[..|refs| - 1], id);
    }
  }

  // ---------- Every edit keeps templates well-formed ----------

  lemma SamePresence(t: Template, t': Template, refs: seq<Ref>)
    requires GoodRefs(t, refs) && forall a :: GetNode(t, a).Some? ==> GetNode(t', a).Some?
    ensures GoodRefs(t', refs)
  {
    hide GetNode;
  }

  lemma GoodAt(t: Template, id: Id)
    requires WellFormed(t) && GetNode(t, id).Some?
    ensures GoodNode(t, GetNode(t, id).value, KindOf(id))
  {
    hide GoodNode;
  }

  lemma SetNextWellFormed(t: Template, id: Id, refs: seq<Ref>)
    requires WellFormed(t) && GetNode(t, id).Some? && KindOf(id) != Output && GoodRefs(t, refs)
    ensures WellFormed(SetNext(t, id, refs))
  {
    var t' := SetNext(t, id, refs);
    forall a ensures GetNode(t, a).Some? ==> GetNode(t', a).Some? { SetNextFinds(t, id, refs, a); }
    hide GoodRefs, GetNode, GoodIds, GoodNode, WellFormed;
    forall k: Kind
      ensures GoodIds(t'.List(k), k) && forall j :: 0 <= j < |t'.List(k)| ==> GoodNode(t', t'.List(k)[j], k)
    {
      ListGood(t, k);
      SetNextList(t, t', id, refs, k);
    }
    WellFormedIf(t');
  }

  lemma WellFormedIf(t: Template)
    requires forall k: Kind :: GoodIds(t.List(k), k) && forall j :: 0 <= j < |t.List(k)| ==> GoodNode(t, t.List(k)[j], k)
    ensures WellFormed(t)
  {}

  lemma SetNextList(t: Template, t': Template, id: Id, refs: seq<Ref>, k: Kind)
    requires GetNode(t, id).Some? && KindOf(id) != Output && GoodRefs(t, refs) && t' == SetNext(t, id, refs)
    requires GoodIds(t.List(k), k) && forall j :: 0 <= j < |t.List(k)| ==> GoodNode(t, t.List(k)[j], k)
    requires forall a :: GetNode(t, a).Some? ==> GetNode(t', a).Some?
    ensures GoodIds(t'.List(k), k) && forall j :: 0 <= j < |t'.List(k)| ==> GoodNode(t', t'.List(k)[j], k)
  {
    hide GoodRefs, FindIndex, GoodIds;
    SamePresence(t, t', refs);
    SameGoodIds(t.List(k), t'.List(k), k);
    forall j | 0 <= j < |t'.List(k)| ensures GoodNode(t', t'.List(k)[j], k) {
      assert GoodNode(t, t.List(k)[j], k);
      if k != Output {
        SamePresence(t, t', t.List(k)[j].next.value);
      }
    }
  }

  lemma AddEdgeWellFormed(t: Template, source: Id, target: Id)
    requires WellFormed(t)
    ensures WellFormed(AddEdge(t, source, target))
  {
    if Linkable(t, source, target) {
      GoodAt(t, source);
      hide WellFormed, SetNext, HasCycle;
      var refs := GetNode(t, source).value.next.value;
      var r := Ref(KindOf(target), target);
      SnocGood(t, refs, r);
      SetNextWellFormed(t, source, refs + [r]);
    }
  }

  lemma SnocGood(t: Template, refs: seq<Ref>, r: Ref)
    requires GoodRefs(t, refs) && !LinksTo(refs, r.id)
    requires r.kind == KindOf(r.id) && r.kind != Input && GetNode(t, r.id).Some?
    ensures GoodRefs(t, refs + [r])
  {
    hide GetNode, KindOf;
    var all := refs + [r];
    assert forall i :: 0 <= i < |refs| ==> all[i] == refs[i] && all[i].id != r.id;
  }

  lemma {:induction false} WithoutGood(t: Template, refs: seq<Ref>, id: Id)
    requires GoodRefs(t, refs)
    ensures GoodRefs(t, Without(refs, id))
  {
    hide GetNode, KindOf;
    if refs != [] {
      var front, last := refs[..|refs| - 1], refs[|refs| - 1];
      WithoutGood(t, front, id);
      if last.id != id {
        WithoutLinks(front, id, last.id);
        SnocGood(t, Without(front, id), last);
      }
    }
  }

  lemma DeleteEdgeWellFormed(t: Template, source: Id, target: Id)
    requires WellFormed(t)
    ensures WellFormed(DeleteEdge(t, source, target))
  {
    var n := GetNode(t, source);
    if n.Some? && n.value.next.Some? {
      GoodAt(t, source);
      hide WellFormed, SetNext, Without;
      WithoutGood(t, n.value.next.value, target);
      SetNextWellFormed(t, source, Without(n.value.next.value, target));
    }
  }

  lemma OrphanedList(t: Template, id: Id, k: Kind)
    requires WellFormed(t)
    ensures Orphaned(t, id).1 && Orphaned(t, id).0.List(k) == DropOrphans(t.List(k), id)
  {
    NoneBare(t, id);
    hide GoodIds, GoodRefs, Orphaned;
    if k == Output {
      var ns := t.List(k);
      assert forall j :: 0 <= j < |ns| ==> GoodNode(t, ns[j], k);
      assert forall j :: 0 <= j < |ns| ==> DropOrphan(ns[j], id) == ns[j];
    }
  }

  /** The nodes other than the one found for `id`. */
  function Others(ns: seq<Node>, id: Id): seq<Node> {
    var i := FindIndex(ns, id);
    if i < |ns| then ns[..i] + ns[i + 1..] else ns
  }

  lemma CutOutDropped(ns: seq<Node>, id: Id)
    requires FindIndex(ns, id) < |ns|
    ensures CutOut(DropOrphans(ns, id), id) == DropOrphans(Others(ns, id), id)
  {
    hide FindIndex, DropOrphan, DropOrphans;
    SameIds(ns, DropOrphans(ns, id), id);
    DropOrphansCut(ns, FindIndex(ns, id), id);
  }

  lemma DropOrphansCut(ns: seq<Node>, i: nat, id: Id)
    requires i < |ns|
    ensures var ds := DropOrphans(ns, id); ds[..i] + ds[i + 1..] == DropOrphans(ns[..i] + ns[i + 1..], id)
  {
    hide DropOrphan, DropOrphans;
    var ds, rs := DropOrphans(ns, id), ns[..i] + ns[i + 1..];
    assert forall j :: 0 <= j < |rs| ==> rs[j] == if j < i then ns[j] else ns[j + 1];
    assert forall j :: 0 <= j < |rs| ==> (ds[..i] + ds[i + 1..])[j] == if j < i then ds[j] else ds[j + 1];
  }

  /** Below every kind, deleting a node leaves the other nodes in order, without their links to it. */
  lemma DeleteNodeLists(t: Template, id: Id, k: Kind)
    requires WellFormed(t) && GetNode(t, id).Some?
    ensures DeleteNode(t, id).List(k) ==
            DropOrphans(if k == KindOf(id) then Others(t.List(k), id) else t.List(k), id)
  {
    OrphanedList(t, id, k);
    hide WellFormed, FindIndex, DropOrphan, DropOrphans, Orphaned, Others, CutOut;
    if k == KindOf(id) {
      CutOutDropped(t.List(k), id);
    }
  }

  lemma OthersElements(ns: seq<Node>, k: Kind, id: Id)
    requires GoodIds(ns, k)
    ensures var i, rs := FindIndex(ns, id), Others(ns, id);
            GoodIds(rs, k) && (forall j :: 0 <= j < |rs| ==> rs[j].id != id) &&
            (i < |ns| ==> |rs| == |ns| - 1 && forall j :: 0 <= j < |rs| ==> rs[j] == if j < i then ns[j] else ns[j + 1])
  {
    hide FindIndex, KindOf;
    var i, rs := FindIndex(ns, id), Others(ns, id);
    assert i < |ns| ==> forall j :: 0 <= j < |rs| ==> rs[j] == if j < i then ns[j] else ns[j + 1];
  }

  lemma OthersFinds(ns: seq<Node>, k: Kind, id: Id, a: Id)
    requires GoodIds(ns, k)
    ensures var rs := Others(ns, id);
            if a == id || FindIndex(ns, a) == |ns| then FindIndex(rs, a) == |rs|
            else FindIndex(rs, a) < |rs| && rs[FindIndex(rs, a)] == ns[FindIndex(ns, a)]
  {
    hide FindIndex, KindOf;
    OthersElements(ns, k, id);
    var i, j, rs := FindIndex(ns, id), FindIndex(ns, a), Others(ns, id);
    if i == |ns| {
      NoOthers(ns, id);
    }
    if a == id || j == |ns| {
      assert forall n :: 0 <= n < |rs| ==> rs[n].id != a;
    } else if i < |ns| {
      var n := if j < i then j else j - 1;
      assert rs[n] == ns[j];
      FindIs(rs, k, n);
    }
  }

  lemma NoOthers(ns: seq<Node>, id: Id)
    requires FindIndex(ns, id) == |ns|
    ensures Others(ns, id) == ns
  {}

  lemma GetDropped(t: Template, rs: seq<Node>, id: Id, a: Id)
    requires t.List(KindOf(a)) == DropOrphans(rs, id)
    ensures GetNode(t, a) ==
            if FindIndex(rs, a) < |rs| then Some(DropOrphan(rs[FindIndex(rs, a)], id)) else None
  {
    hide DropOrphan;
    SameIds(rs, DropOrphans(rs, id), a);
  }

  /** What is found after deleting a node. */
  lemma DeleteNodeFinds(t: Template, id: Id, a: Id)
    requires WellFormed(t) && GetNode(t, id).Some?
    ensures GetNode(DeleteNode(t, id), a) ==
            if a == id || GetNode(t, a).None? then None else Some(DropOrphan(GetNode(t, a).value, id))
  {
    hide WellFormed, DeleteNode, DropOrphan, DropOrphans, Others, FindIndex, GoodIds, GoodNode;
    var k := KindOf(a);
    var ns := t.List(k);
    ListGood(t, k);
    DeleteNodeLists(t, id, k);
    if k == KindOf(id) {
      OthersFinds(ns, k, id, a);
      GetDropped(DeleteNode(t, id), Others(ns, id), id, a);
    } else {
      GetDropped(DeleteNode(t, id), ns, id, a);
    }
  }

  lemma DropLinkGood(t: Template, t': Template, refs: seq<Ref>, id: Id)
    requires GoodRefs(t, refs) && forall a :: a != id && GetNode(t, a).Some? ==> GetNode(t', a).Some?
    ensures GoodRefs(t', DropLink(refs, id))
  {
    hide GetNode, KindOf, LinkIndex;
    var i, rs := LinkIndex(refs, id), DropLink(refs, id);
    if i < |refs| {
      assert forall k :: 0 <= k < |rs| ==> rs[k] == (if k < i then refs[k] else refs[k + 1]) && rs[k].id != id;
    }
  }

  lemma DeleteNodeWellFormed(t: Template, id: Id)
    requires WellFormed(t) && GetNode(t, id).Some?
    ensures WellFormed(DeleteNode(t, id))
  {
    var t' := DeleteNode(t, id);
    forall a ensures a != id && GetNode(t, a).Some? ==> GetNode(t', a).Some? { DeleteNodeFinds(t, id, a); }
    forall k: Kind
      ensures GoodIds(t'.List(k), k) && forall j :: 0 <= j < |t'.List(k)| ==> GoodNode(t', t'.List(k)[j], k)
    {
      DeletedList(t, t', id, k);
    }
  }

  lemma DeletedList(t: Template, t': Template, id: Id, k: Kind)
    requires WellFormed(t) && GetNode(t, id).Some? && t' == DeleteNode(t, id)
    requires forall a :: a != id && GetNode(t, a).Some? ==> GetNode(t', a).Some?
    ensures GoodIds(t'.List(k), k) && forall j :: 0 <= j < |t'.List(k)| ==> GoodNode(t', t'.List(k)[j], k)
  {
    hide DeleteNode, FindIndex, GetNode, GoodRefs, WellFormed, Others, KindOf, GoodIds, GoodNode, DropOrphan, DropOrphans;
    var ns := t.List(k);
    ListGood(t, k);
    DeleteNodeLists(t, id, k);
    OthersElements(ns, k, id);
    var rs := if k == KindOf(id) then Others(ns, id) else ns;
    forall j | 0 <= j < |rs| ensures GoodNode(t', DropOrphan(rs[j], id), k) {
      NodeOfList(t, k, id, rs, j);
      DropOrphanGood(t, t', rs[j], id, k);
    }
    SameGoodIds(rs, DropOrphans(rs, id), k);
  }

  lemma ListGood(t: Template, k: Kind)
    requires WellFormed(t)
    ensures GoodIds(t.List(k), k) && forall j :: 0 <= j < |t.List(k)| ==> GoodNode(t, t.List(k)[j], k)
  {
    hide GoodIds, GoodNode;
  }

  lemma DropOrphanGood(t: Template, t': Template, n: Node, id: Id, k: Kind)
    requires GoodNode(t, n, k) && forall a :: a != id && GetNode(t, a).Some? ==> GetNode(t', a).Some?
    ensures GoodNode(t', DropOrphan(n, id), k)
  {
    hide GetNode, GoodRefs;
    if k != Output {
      DropLinkGood(t, t', n.next.value, id);
    }
  }

  lemma SameGoodIds(ns: seq<Node>, us: seq<Node>, k: Kind)
    requires GoodIds(ns, k) && |us| == |ns| && forall i :: 0 <= i < |ns| ==> us[i].id == ns[i].id
    ensures GoodIds(us, k)
  {
    hide KindOf;
  }

  lemma NodeOfList(t: Template, k: Kind, id: Id, rs: seq<Node>, j: nat)
    requires WellFormed(t) && j < |rs| && (rs == t.List(k) || rs == Others(t.List(k), id))
    ensures GoodNode(t, rs[j], k)
  {
    hide GoodNode, GoodIds, FindIndex, WellFormed;
    var ns := t.List(k);
    ListGood(t, k);
    OthersElements(ns, k, id);
    var i := FindIndex(ns, id);
    if rs != ns {
      assert rs[j] == ns[if j < i then j else j + 1];
    }
  }

  /** deleteNode removes the node with all its links, in and out, and nothing else. */
  lemma DeleteNodeEdges(t: Template, id: Id, a: Id, b: Id)
    requires WellFormed(t) && GetNode(t, id).Some?
    ensures Edge(Drawn(DeleteNode(t, id)), a, b) <==> Edge(Drawn(t), a, b) && a != id && b != id
  {
    DeleteNodeFinds(t, id, a);
    if GetNode(t, a).Some? {
      GoodAt(t, a);
      hide DeleteNode, GetNode, WellFormed;
      if GetNode(t, a).value.next.Some? {
        DropLinkIs(GetNode(t, a).value.next.value, id, b);
      }
    }
  }

  // ---------- Deleting an id that is not there ----------

  lemma NoLinkToDrop(n: Node, id: Id)
    requires n.next.Some? ==> !LinksTo(n.next.value, id)
    ensures DropOrphan(n, id) == n
  {}

  /** Without the node there are no links to it either. */
  lemma NothingOrphaned(t: Template, id: Id)
    requires WellFormed(t) && GetNode(t, id).None?
    ensures Orphaned(t, id) == (t, true)
  {
    NoneBare(t, id);
    hide FindIndex, GetNode, Orphaned;
    forall k: Kind, i | 0 <= i < |t.List(k)| ensures DropOrphan(t.List(k)[i], id) == t.List(k)[i] {
      ListGood(t, k);
      NoLinkToDrop(t.List(k)[i], id);
    }
    hide WellFormed, DropOrphan;
    forall k: Kind ensures DropOrphans(t.List(k), id) == t.List(k) {}
    assert t.List(Input) == t.inputs && t.List(Processor) == t.processors && t.List(Aggregator) == t.aggregators;
  }

  /** deleteNode with an unknown id doubles all nodes of its kind but the last, which then occurs twice too. */
  lemma UnknownIdDuplicates(t: Template, id: Id)
    requires WellFormed(t) && GetNode(t, id).None?
    ensures var k := KindOf(id); var ns := t.List(k);
            DeleteNode(t, id) == t.With(k, (if ns == [] then [] else ns[..|ns| - 1]) + ns)
  {
    NothingOrphaned(t, id);
    hide WellFormed, Orphaned;
  }

  /** deleteNode meets a known id, or a list too short to show that it does not. */
  predicate SafeDelete(t: Template, id: Id) {
    GetNode(t, id).Some? || |t.List(KindOf(id))| <= 1
  }

  lemma SafeUnknownChangesNothing(t: Template, id: Id)
    requires WellFormed(t) && GetNode(t, id).None? && |t.List(KindOf(id))| <= 1
    ensures DeleteNode(t, id) == t
  {
    UnknownIdDuplicates(t, id);
    hide WellFormed, DeleteNode, GetNode, KindOf;
    var k := KindOf(id);
    var ns := t.List(k);
    assert (if ns == [] then [] else ns[..|ns| - 1]) + ns == ns;
    WithSame(t, k);
  }

  lemma WithSame(t: Template, k: Kind)
    ensures t.With(k, t.List(k)) == t
  {}

  /** deleteNode keeps a template well-formed exactly when the delete is safe. */
  lemma DeleteWellFormedIff(t: Template, id: Id)
    requires WellFormed(t)
    ensures WellFormed(DeleteNode(t, id)) <==> SafeDelete(t, id)
  {
    hide WellFormed, DeleteNode, GetNode;
    var k := KindOf(id);
    var ns := t.List(k);
    if GetNode(t, id).Some? {
      DeleteNodeWellFormed(t, id);
    } else if |ns| <= 1 {
      SafeUnknownChangesNothing(t, id);
    } else {
      UnknownIdDuplicates(t, id);
      var us := DeleteNode(t, id).List(k);
      assert us[0] == ns[0] == us[|ns| - 1];
      if WellFormed(DeleteNode(t, id)) {
        ListGood(DeleteNode(t, id), k);
      }
    }
  }

  // ---------- A node without a list of links ----------

  /** deleteOrphanedLinks comes to node `i` of list `k` before it meets a node without a list of links. */
  ghost predicate Visited(t: Template, k: Kind, i: nat) {
    match k
    case Input => i < Bare(t.inputs)
    case Processor => Bare(t.inputs) == |t.inputs| && i < Bare(t.processors)
    case Aggregator => Bare(t.inputs) == |t.inputs| && Bare(t.processors) == |t.processors| && i < Bare(t.aggregators)
    case Output => false
  }

  /** Some input, processor or aggregator has no list of links. */
  ghost predicate Throws(t: Template) {
    exists k: Kind, i :: k != Output && 0 <= i < |t.List(k)| && t.List(k)[i].next.None?
  }

  /**
   deleteNode goes through exactly when every input, processor and aggregator has a list of links. If not,
   no node is removed, and the links to the id are gone from the nodes before the first one without a list.
   */
  lemma DeleteThrowsIff(t: Template, id: Id)
    ensures Orphaned(t, id).1 <==> !Throws(t)
  {
    hide DropOrphans, DropUpToBare;
    assert t.List(Kind.Input) == t.inputs && t.List(Processor) == t.processors && t.List(Aggregator) == t.aggregators;
    if !Orphaned(t, id).1 {
      var k: Kind := if Bare(t.inputs) < |t.inputs| then Kind.Input
                     else if Bare(t.processors) < |t.processors| then Processor else Aggregator;
      assert t.List(k)[Bare(t.List(k))].next.None?;
    } else {
      forall k: Kind, i | k != Output && 0 <= i < |t.List(k)| ensures t.List(k)[i].next.Some? {
        assert Bare(t.List(k)) == |t.List(k)|;
      }
    }
  }

  lemma DeleteThrows(t: Template, id: Id, k: Kind, i: nat)
    requires Throws(t) && i < |t.List(k)|
    ensures |DeleteNode(t, id).List(k)| == |t.List(k)|
    ensures DeleteNode(t, id).List(k)[i] == if Visited(t, k, i) then DropOrphan(t.List(k)[i], id) else t.List(k)[i]
  {
    DeleteThrowsIff(t, id);
    DroppedAt(t.inputs, id);
    DroppedAt(t.processors, id);
    DroppedAt(t.aggregators, id);
    hide Throws, DropOrphan, DropOrphans, DropUpToBare, Bare;
  }

  lemma DroppedAt(ns: seq<Node>, id: Id)
    ensures |DropUpToBare(ns, id)| == |DropOrphans(ns, id)| == |ns| && Bare(ns) <= |ns|
    ensures forall i :: 0 <= i < |ns| ==> DropUpToBare(ns, id)[i] == if i < Bare(ns) then DropOrphan(ns[i], id) else ns[i]
    ensures forall i :: 0 <= i < |ns| ==> DropOrphans(ns, id)[i] == DropOrphan(ns[i], id)
  {
    hide DropOrphan;
  }

  // ---------- Runs of edits ----------

  datatype Edit = Link(source: Id, target: Id) | Unlink(source: Id, target: Id) | Delete(id: Id)

  function Apply(t: Template, e: Edit): Template {
    match e
    case Link(s, g) => AddEdge(t, s, g)
    case Unlink(s, g) => DeleteEdge(t, s, g)
    case Delete(id) => DeleteNode(t, id)
  }

  function Run(t: Template, edits: seq<Edit>): Template {
    if edits == [] then t else Apply(Run(t, edits[..|edits| - 1]), edits[|edits| - 1])
  }

  /** Every deletion of the run is a safe one, as when the editor offers only the nodes there are. */
  predicate DeletesSafely(t: Template, edits: seq<Edit>) {
    edits == [] ||
    (var front, e := edits[..|edits| - 1], edits[|edits| - 1];
     DeletesSafely(t, front) && (e.Delete? ==> SafeDelete(Run(t, front), e.id)))
  }

  lemma ApplyWellFormed(t: Template, e: Edit)
    requires WellFormed(t) && (e.Delete? ==> SafeDelete(t, e.id))
    ensures WellFormed(Apply(t, e))
  {
    hide WellFormed, AddEdge, DeleteEdge, DeleteNode, SafeDelete;
    match e
    case Link(s, g) => AddEdgeWellFormed(t, s, g);
    case Unlink(s, g) => DeleteEdgeWellFormed(t, s, g);
    case Delete(id) => DeleteWellFormedIff(t, id);
  }

  /** Every run keeps references resolving, links unique and outputs without links. */
  lemma {:induction false} RunWellFormed(t: Template, edits: seq<Edit>)
    requires WellFormed(t) && DeletesSafely(t, edits)
    ensures WellFormed(Run(t, edits))
  {
    hide WellFormed, Apply;
    if edits != [] {
      RunWellFormed(t, edits[..|edits| - 1]);
      ApplyWellFormed(Run(t, edits[..|edits| - 1]), edits[|edits| - 1]);
    }
  }

  lemma ApplyAcyclicIff(t: Template, e: Edit)
    requires WellFormed(t) && Acyclic(Drawn(t)) && (e.Delete? ==> SafeDelete(t, e.id))
    ensures Acyclic(Drawn(Apply(t, e))) <==> !(e.Link? && Missed(t, e.source, e.target))
  {
    hide WellFormed, AddEdge, DeleteEdge, DeleteNode, Acyclic, Edge, Missed;
    match e
    case Link(s, g) => AddEdgeAcyclicIff(t, s, g);
    case Unlink(s, g) =>
      forall a, b ensures Edge(Drawn(DeleteEdge(t, s, g)), a, b) ==> Edge(Drawn(t), a, b) { DeleteEdgeEdges(t, s, g, a, b); }
      FewerLinksStayAcyclic(Drawn(t), Drawn(DeleteEdge(t, s, g)));
    case Delete(id) => DeleteStaysAcyclic(t, id);
  }

  lemma DeleteStaysAcyclic(t: Template, id: Id)
    requires WellFormed(t) && Acyclic(Drawn(t)) && SafeDelete(t, id)
    ensures Acyclic(Drawn(DeleteNode(t, id)))
  {
    hide WellFormed, DeleteNode, Acyclic, Edge, GetNode;
    if GetNode(t, id).Some? {
      forall a, b ensures Edge(Drawn(DeleteNode(t, id)), a, b) ==> Edge(Drawn(t), a, b) { DeleteNodeEdges(t, id, a, b); }
      FewerLinksStayAcyclic(Drawn(t), Drawn(DeleteNode(t, id)));
    } else {
      SafeUnknownChangesNothing(t, id);
    }
  }

  /** At the k-th edit the cycle check misses a link. */
  ghost predicate MissedAt(t: Template, edits: seq<Edit>, k: nat)
    requires k < |edits|
  {
    edits[k].Link? && Missed(Run(t, edits[..k]), edits[k].source, edits[k].target)
  }

  ghost predicate AcyclicUpTo(t: Template, edits: seq<Edit>, n: nat)
    requires n <= |edits|
  {
    forall k :: 0 <= k <= n ==> Acyclic(Drawn(Run(t, edits[..k])))
  }

  ghost predicate NoneMissedBefore(t: Template, edits: seq<Edit>, n: nat)
    requires n <= |edits|
  {
    forall k :: 0 <= k < n ==> !MissedAt(t, edits, k)
  }

  /**
   * A run stays acyclic all along exactly when the cycle check never misses a link: stated for
   * each of its beginnings.
   */
  lemma {:induction false} RunAcyclicIff(t: Template, edits: seq<Edit>, n: nat)
    requires WellFormed(t) && Acyclic(Drawn(t)) && DeletesSafely(t, edits) && n <= |edits|
    ensures AcyclicUpTo(t, edits, n) <==> NoneMissedBefore(t, edits, n)
  {
    hide WellFormed, Acyclic, Missed, Run, DeletesSafely, MissedAt, AcyclicUpTo, NoneMissedBefore;
    if n == 0 {
      NothingDone(t, edits);
    } else {
      RunAcyclicIff(t, edits, n - 1);
      OneMoreAcyclic(t, edits, n);
      OneMoreFound(t, edits, n);
      if AcyclicUpTo(t, edits, n - 1) {
        EditAcyclicIff(t, edits, n - 1);
      }
    }
  }

  lemma NothingDone(t: Template, edits: seq<Edit>)
    requires Acyclic(Drawn(t))
    ensures AcyclicUpTo(t, edits, 0) && NoneMissedBefore(t, edits, 0)
  {
    hide Acyclic, MissedAt;
    assert edits[..0] == [];
  }

  lemma OneMoreAcyclic(t: Template, edits: seq<Edit>, n: nat)
    requires 0 < n <= |edits|
    ensures AcyclicUpTo(t, edits, n) <==> AcyclicUpTo(t, edits, n - 1) && Acyclic(Drawn(Run(t, edits[..n])))
    ensures AcyclicUpTo(t, edits, n - 1) ==> Acyclic(Drawn(Run(t, edits[..n - 1])))
  {
    hide Acyclic, Run;
  }

  lemma OneMoreFound(t: Template, edits: seq<Edit>, n: nat)
    requires 0 < n <= |edits|
    ensures NoneMissedBefore(t, edits, n) <==> NoneMissedBefore(t, edits, n - 1) && !MissedAt(t, edits, n - 1)
  {
    hide MissedAt;
  }

  lemma EditAcyclicIff(t: Template, edits: seq<Edit>, k: nat)
    requires WellFormed(t) && DeletesSafely(t, edits) && k < |edits| && Acyclic(Drawn(Run(t, edits[..k])))
    ensures Acyclic(Drawn(Run(t, edits[..k + 1]))) <==> !MissedAt(t, edits, k)
  {
    hide WellFormed, Acyclic, Missed, Apply;
    var upTo := edits[..k + 1];
    assert upTo[..|upTo| - 1] == edits[..k];
    DeletesBefore(t, edits, k + 1);
    RunWellFormed(t, edits[..k]);
    ApplyAcyclicIff(Run(t, edits[..k]), edits[k]);
  }

  lemma {:induction false} DeletesBefore(t: Template, edits: seq<Edit>, k: nat)
    requires DeletesSafely(t, edits) && k <= |edits|
    ensures DeletesSafely(t, edits[..k])
  {
    hide Run;
    if k == |edits| {
      assert edits[..k] == edits;
    } else {
      var front := edits[..|edits| - 1];
      DeletesBefore(t, front, k);
      assert front[..k] == edits[..k];
    }
  }

  /** The editor component: the operations replace or update its template. */
  class Editor {
    var template: Template

    constructor (template: Template)
      ensures this.template == template
    {
      this.template := template;
    }

    method AddLink(source: Id, target: Id)
      modifies this
      ensures template == AddEdge(old(template), source, target)
    {
      var targetNode := GetNode(template, target);
      if targetNode.None? || KindOf(target).Input? {
        return;
      }
      var sourceNode := GetNode(template, source);
      if sourceNode.None? || sourceNode.value.next.None? {
        return;
      }
      var next := sourceNode.value.next.value;
      var exists' := LinksTo(next, target);
      if exists' || HasCycle(template, targetNode, source, CYCLE_DEPTH) {
        return;
      }
      template := SetNext(template, source, next + [Ref(KindOf(target), target)]);
    }

    method RemoveLink(source: Id, target: Id)
      modifies this
      ensures template == DeleteEdge(old(template), source, target)
    {
      var n := GetNode(template, source);
      if n.None? || n.value.next.None? {
        return;
      }
      template := SetNext(template, source, Without(n.value.next.value, target));
    }

    /** Returns whether the node was removed; if not, an exception came first. */
    method RemoveNode(id: Id) returns (ok: bool)
      modifies this
      ensures template == DeleteNode(old(template), id) && ok == Orphaned(old(template), id).1
    {
      var inputs, processors, aggregators;
      hide DropOrphans, DropUpToBare, Bare;
      inputs, ok := DropFrom(template.inputs, id);
      template := template.(inputs := inputs);
      if !ok {
        return;
      }
      processors, ok := DropFrom(template.processors, id);
      template := template.(processors := processors);
      if !ok {
        return;
      }
      aggregators, ok := DropFrom(template.aggregators, id);
      template := template.(aggregators := aggregators);
      if !ok {
        return;
      }
      var k := KindOf(id);
      template := template.With(k, CutOut(template.List(k), id));
    }
  }

  /** The loop of deleteOrphanedLinks over one list; a node without a list of links makes it throw. */
  method DropFrom(ns: seq<Node>, id: Id) returns (r: seq<Node>, ok: bool)
    ensures ok <==> Bare(ns) == |ns|
    ensures r == DropUpToBare(ns, id) && (ok ==> r == DropOrphans(ns, id))
  {
    hide DropOrphan;
    r, ok := ns, true;
    var i := 0;
    while i < |ns| && ok
      invariant i <= |ns| && |r| == |ns|
      invariant forall j :: 0 <= j < |ns| ==> r[j] == if j < i then DropOrphan(ns[j], id) else ns[j]
      invariant forall j :: 0 <= j < i ==> ns[j].next.Some?
      invariant !ok ==> i < |ns| && ns[i].next.None?
      decreases |ns| - i, ok
    {
      if ns[i].next.None? {
        ok := false;
      } else {
        var refs := ns[i].next.value;
        var index := LinkIndex(refs, id);
        DroppedLink(ns[i], id);
        if index < |refs| {
          r := r[i := ns[i].(next := Some(refs[..index] + refs[index + 1..]))];
        }
        i := i + 1;
      }
    }
    assert Bare(ns) == i;
    assert r[..i] == DropOrphans(ns[..i], id) && r == r[..i] + ns[i..];
    assert ok ==> ns[..i] == ns && ns[i..] == [];
  }

  lemma DroppedLink(n: Node, id: Id)
    requires n.next.Some?
    ensures var refs := n.next.value;
            var i := LinkIndex(refs, id);
            DropOrphan(n, id) == if i < |refs| then n.(next := Some(refs[..i] + refs[i + 1..])) else n
  {}
}
