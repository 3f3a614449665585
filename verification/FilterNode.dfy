/**
 The nodes of internal/templating/node.go as objects: insertion appends to and re-sorts the children of
 existing nodes, search is binary. Each node carries the tree it stands for; the objects below different
 children are distinct.
 */
module FilterNodes {
  import opened FilterTree
  import opened Options
  import opened Text

  class TreeNode<T> {
    const value: string
    var template: Option<T>
    var children: seq<TreeNode<T>>
    ghost var repr: set<object>
    ghost var tree: Node<T>

    ghost predicate Valid()
      reads this, repr
      decreases repr, 1
    {
      && this in repr && tree.value == value && tree.template == template && |tree.children| == |children|
      && (forall i :: 0 <= i < |children| ==> children[i] in repr)
      && (forall i :: 0 <= i < |children| ==> children[i].repr <= repr)
      && (forall i :: 0 <= i < |children| ==> Fits(children[i], tree.children[i], this, repr))
      && Apart(children)
    }

    constructor (value: string)
      ensures Valid() && fresh(repr) && tree == Node(value, None, []) && this.value == value
    {
      this.value, template, children := value, None, [];
      repr, tree := {this}, Node(value, None, []);
    }

    /** The loop over the children. */
    method FindChild(part: string) returns (i: nat)
      requires Valid()
      ensures i == Find(tree.children, part)
    {
      i := 0;
      while i < |children| && children[i].value != part
        invariant i <= |children| && forall k :: 0 <= k < i ==> tree.children[k].value != part
      {
        i := i + 1;
      }
      FindFirst(tree.children, part, i);
    }

    /** Where sort.Sort puts a new child. */
    method SortedPosition(part: string) returns (k: nat)
      requires Valid()
      ensures k <= |children| && Comes(tree.children, part, k)
    {
      hide Before;
      k := 0;
      while k < |children| && !Before(part, children[k].value)
        invariant k <= |children| && forall j :: 0 <= j < k ==> !Before(part, tree.children[j].value)
      {
        k := k + 1;
      }
    }

    /** sort.Search over the children that are not the wildcard. */
    method SearchChild(part: string) returns (i: nat)
      requires Valid() && Sorted(tree.children) && children != []
      ensures i <= |children|
      ensures i < |children| && children[i].value == part ==> Find(tree.children, part) == i
      ensures !(i < |children| && children[i].value == part) ==> Find(tree.children, part) == |children| || part == WILDCARD
    {
      hide Before, Less, Apart;
      ghost var ns := tree.children;
      ChildValues(this);
      hide Valid;
      var length := |children|;
      if children[length - 1].value == WILDCARD {
        length := length - 1;
      }
      forall k | 0 <= k < length ensures ns[k].value != WILDCARD {
        if k < |ns| - 1 {
          WildcardIsLast(ns, k);
        }
      }
      var lo, hi := 0, length;
      while lo < hi
        invariant 0 <= lo <= hi <= length
        invariant forall k :: 0 <= k < lo ==> Less(ns[k].value, part)
        invariant forall k :: hi <= k < length ==> !Less(ns[k].value, part)
      {
        var h := (lo + hi) / 2;
        if !Less(children[h].value, part) {
          NoneLessFrom(ns, part, h, length);
          hi := h;
        } else {
          AllLessUpTo(ns, part, h);
          lo := h + 1;
        }
      }
      i := lo;
      SearchMeansFind(ns, part, i, length);
    }

    /** recursiveSearch: binary search agrees with the linear lookup. */
    method RecursiveSearch(parts: seq<string>) returns (t: Option<T>)
      requires Valid() && WellFormed(tree)
      ensures t == Lookup(tree, parts)
      decreases parts
    {
      hide Find, Apart;
      if |parts| == 0 || |children| == 0 {
        return template;
      }
      var i := SearchChild(parts[0]);
      if i < |children| && children[i].value == parts[0] {
        t := children[i].RecursiveSearch(parts[1..]);
        return;
      }
      WildcardChild(tree.children);
      if children[|children| - 1].value == WILDCARD {
        t := children[|children| - 1].RecursiveSearch(parts[1..]);
        return;
      }
      return template;
    }

    /** recursiveInsert: the tree of this node becomes the tree with the path inserted. */
    method RecursiveInsert(values: seq<string>, t: T)
      requires Valid()
      modifies repr
      ensures Valid() && fresh(repr - old(repr)) && tree == Insert(old(tree), values, t)
      decreases values, 2
    {
      if |values| == 0 {
        template := Some(t);
        tree := tree.(template := Some(t));
        return;
      }
      var i := FindChild(values[0]);
      if i < |children| {
        InsertBelow(i, values, t);
      } else {
        InsertNew(values, t);
      }
    }

    /** The part exists: the rest of the path goes below its node. */
    method InsertBelow(i: nat, values: seq<string>, t: T)
      requires Valid() && values != [] && i < |children| && i == Find(tree.children, values[0])
      modifies repr
      ensures Valid() && fresh(repr - old(repr)) && tree == Insert(old(tree), values, t)
      decreases values, 0
    {
      UnfoldInsert(tree, values, t);
      hide Find, Insert;
      var child := children[i];
      assert forall j :: 0 <= j < |children| ==> this !in children[j].repr && children[j] in children[j].repr;
      child.RecursiveInsert(values[1..], t);
      assert Fits(child, child.tree, this, repr + child.repr);
      hide Fits;
      Refresh(i);
    }

    /** After a change below child `i`. */
    ghost method Refresh(i: nat)
      requires this in repr && tree.value == value && tree.template == template && |tree.children| == |children|
      requires i < |children| && Apart(children) && forall j :: 0 <= j < |children| ==> children[j] in repr
      requires Fits(children[i], children[i].tree, this, repr + children[i].repr)
      requires forall j :: 0 <= j < |children| && j != i ==> Fits(children[j], tree.children[j], this, repr)
      modifies this`repr, this`tree
      ensures Valid() && repr == old(repr) + children[i].repr
      ensures tree == old(tree).(children := old(tree).children[i := children[i].tree])
    {
      var region := repr + children[i].repr;
      forall j | 0 <= j < |children|
        ensures this !in children[j].repr && children[j] != this && children[j].repr <= region
        ensures j != i ==> Fits(children[j], tree.children[j], this, region)
      {
        if j != i {
          FitsMore(children[j], tree.children[j], this, repr, children[i].repr);
        }
      }
      var trees := tree.children[i := children[i].tree];
      assert forall j :: 0 <= j < |children| ==> Fits(children[j], trees[j], this, region);
      hide Fits, Apart;
      repr, tree := region, tree.(children := trees);
    }

    /** A new part: add it, sort the children, and insert the rest into the new node. */
    method InsertNew(values: seq<string>, t: T)
      requires Valid() && values != [] && Find(tree.children, values[0]) == |children|
      modifies repr
      ensures Valid() && fresh(repr - old(repr)) && tree == Insert(old(tree), values, t)
      decreases values, 1
    {
      SameCount(this);
      hide Find, Place, Valid;
      ghost var was := tree;
      var k := AddChild(values[0]);
      InsertPlaced(was, values, t, k);
      SameCount(this);
      InsertBelow(k, values, t);
    }

    /** append and sort.Sort. */
    method AddChild(part: string) returns (k: nat)
      requires Valid()
      modifies this
      ensures Valid() && fresh(repr - old(repr)) && k <= |old(tree).children| && Comes(old(tree).children, part, k)
      ensures tree == WithChild(old(tree), Node(part, None, []), k)
    {
      hide Comes, WithChild;
      k := SortedPosition(part);
      var child := new TreeNode<T>(part);
      Attach(child, k);
    }

    method Attach(child: TreeNode<T>, k: nat)
      requires Valid() && child.Valid() && child.repr !! repr && k <= |children|
      modifies this
      ensures Valid() && repr == old(repr) + child.repr
      ensures tree == WithChild(old(tree), child.tree, k)
    {
      var kids := children[..k] + [child] + children[k..];
      ghost var trees := WithChild(tree, child.tree, k).children;
      AllFit(this, child, k);
      hide Apart, Fits;
      children := kids;
      repr, tree := repr + child.repr, tree.(children := trees);
    }
  }

  lemma AllFit<T>(n: TreeNode<T>, child: TreeNode<T>, k: nat)
    requires n.Valid() && child.Valid() && child.repr !! n.repr && k <= |n.children|
    ensures var kids := n.children[..k] + [child] + n.children[k..];
            var trees := WithChild(n.tree, child.tree, k).children;
            var region := n.repr + child.repr;
            Apart(kids) && |kids| == |trees| &&
            forall i :: 0 <= i < |kids| ==>
              Fits(kids[i], trees[i], n, region) && kids[i] in region && kids[i].repr <= region &&
              n !in kids[i].repr && n != kids[i]
  {
    InsertedApart(n.children, k, child);
    Shifted(n.children, k, child);
    Shifted(n.tree.children, k, child.tree);
    forall i | 0 <= i < |n.children|
      ensures Fits(n.children[i], n.tree.children[i], n, n.repr + child.repr)
    {
      FitsMore(n.children[i], n.tree.children[i], n, n.repr, child.repr);
    }
    assert Fits(child, child.tree, n, n.repr + child.repr);
  }

  lemma Shifted<X>(xs: seq<X>, k: nat, x: X)
    requires k <= |xs|
    ensures var rs := xs[..k] + [x] + xs[k..];
            |rs| == |xs| + 1 && forall i :: 0 <= i < |rs| ==> rs[i] == if i < k then xs[i] else if i == k then x else xs[i - 1]
  {}

  /** A child that stands for `n`, below its owner and within the region. */
  ghost predicate Fits<T>(c: TreeNode<T>, n: Node<T>, owner: object, region: set<object>)
    reads c, c.repr
    decreases region, 0
  {
    owner in region && owner !in c.repr && c.repr <= region && c in c.repr && c.Valid() && c.tree == n && c.value == n.value
  }

  lemma FitsMore<T>(c: TreeNode<T>, n: Node<T>, owner: object, region: set<object>, more: set<object>)
    requires Fits(c, n, owner, region)
    ensures Fits(c, n, owner, region + more)
  {}

  /** The nodes below different children are different. */
  ghost predicate Apart<T>(cs: seq<TreeNode<T>>)
    reads cs
  {
    forall i, j :: 0 <= i < j < |cs| ==> cs[i].repr !! cs[j].repr
  }

  lemma InsertedApart<T>(cs: seq<TreeNode<T>>, k: nat, c: TreeNode<T>)
    requires Apart(cs) && k <= |cs| && forall i :: 0 <= i < |cs| ==> cs[i].repr !! c.repr
    ensures Apart(cs[..k] + [c] + cs[k..])
  {
    var rs := cs[..k] + [c] + cs[k..];
    assert forall i :: 0 <= i < |rs| ==> rs[i] == if i < k then cs[i] else if i == k then c else cs[i - 1];
  }

  lemma SameCount<T>(n: TreeNode<T>)
    requires n.Valid()
    ensures |n.tree.children| == |n.children| && n in n.repr
  {}

  ghost function WithChild<T>(n: Node<T>, child: Node<T>, k: nat): Node<T>
    requires k <= |n.children|
  {
    n.(children := n.children[..k] + [child] + n.children[k..])
  }

  /** Adding an empty child first and inserting into it then is inserting at once. */
  lemma InsertPlaced<T>(n: Node<T>, values: seq<string>, t: T, k: nat)
    requires values != [] && Find(n.children, values[0]) == |n.children|
    requires k <= |n.children| && Comes(n.children, values[0], k)
    ensures var m := WithChild(n, Node(values[0], None, []), k);
            Find(m.children, values[0]) == k && Insert(m, values, t) == Insert(n, values, t)
  {
    hide Place, Comes, Insert, Find;
    var leaf := Node(values[0], None, []);
    var child := Insert(leaf, values[1..], t);
    NewChildFound(n, leaf, k);
    InsertKeepsValue(leaf, values[1..], t);
    PlaceThere(n.children, child, k);
    UnfoldInsert(WithChild(n, leaf, k), values, t);
    UnfoldInsert(n, values, t);
  }

  lemma NewChildFound<T>(n: Node<T>, leaf: Node<T>, k: nat)
    requires Find(n.children, leaf.value) == |n.children| && k <= |n.children|
    ensures var m := WithChild(n, leaf, k);
            Find(m.children, leaf.value) == k < |m.children| && m.children[k] == leaf &&
            forall child: Node<T> :: m.children[k := child] == n.children[..k] + [child] + n.children[k..]
  {
    var m := WithChild(n, leaf, k);
    Shifted(n.children, k, leaf);
    FindFirst(m.children, leaf.value, k);
    hide Find;
    forall child: Node<T> ensures m.children[k := child] == n.children[..k] + [child] + n.children[k..] {
      Shifted(n.children, k, child);
    }
  }

  lemma UnfoldInsert<T>(n: Node<T>, values: seq<string>, t: T)
    requires values != []
    ensures var i := Find(n.children, values[0]);
            Insert(n, values, t) ==
            if i < |n.children| then n.(children := n.children[i := Insert(n.children[i], values[1..], t)])
            else n.(children := Place(n.children, Insert(Node(values[0], None, []), values[1..], t)))
  {
    hide Find, Place;
  }

  lemma InsertKeepsValue<T>(n: Node<T>, values: seq<string>, t: T)
    ensures Insert(n, values, t).value == n.value
  {
    hide Find, Place;
  }

  lemma ChildValues<T>(n: TreeNode<T>)
    requires n.Valid()
    ensures |n.tree.children| == |n.children|
    ensures forall i :: 0 <= i < |n.children| ==> n.children[i].value == n.tree.children[i].value
  {}

  lemma NoneLessFrom<T>(ns: seq<Node<T>>, part: string, h: nat, length: nat)
    requires Sorted(ns) && h < length <= |ns| && !Less(ns[h].value, part)
    requires forall k :: 0 <= k < length ==> ns[k].value != WILDCARD
    ensures forall k :: h <= k < length ==> !Less(ns[k].value, part)
  {
    hide Before, Less;
    forall k | h < k < length ensures !Less(ns[k].value, part) {
      EarlierIsLess(ns, h, k);
      if Less(ns[k].value, part) {
        LessTransitive(ns[h].value, ns[k].value, part);
      }
    }
  }

  lemma AllLessUpTo<T>(ns: seq<Node<T>>, part: string, h: nat)
    requires Sorted(ns) && h < |ns| && Less(ns[h].value, part) && ns[h].value != WILDCARD
    ensures forall k :: 0 <= k <= h ==> Less(ns[k].value, part)
  {
    hide Before, Less;
    forall k | 0 <= k < h ensures Less(ns[k].value, part) {
      EarlierIsLess(ns, k, h);
      LessTransitive(ns[k].value, ns[h].value, part);
    }
  }

  lemma FindFirst<T>(ns: seq<Node<T>>, value: string, i: nat)
    requires i <= |ns| && (i < |ns| ==> ns[i].value == value) && forall k :: 0 <= k < i ==> ns[k].value != value
    ensures Find(ns, value) == i
  {
    var j := Find(ns, value);
    assert !(i < j) && !(j < i);
  }

  /** The first place before a child that comes later. */
  predicate Comes<T>(ns: seq<Node<T>>, value: string, k: nat)
    requires k <= |ns|
  {
    (forall j :: 0 <= j < k ==> !Before(value, ns[j].value)) && (k < |ns| ==> Before(value, ns[k].value))
  }

  lemma {:induction false} PlaceThere<T>(ns: seq<Node<T>>, x: Node<T>, k: nat)
    requires k <= |ns| && Comes(ns, x.value, k)
    ensures Place(ns, x) == ns[..k] + [x] + ns[k..]
  {
    hide Before;
    if k > 0 {
      PlaceThere(ns[1..], x, k - 1);
      assert ns[..k] == [ns[0]] + ns[1..][..k - 1] && ns[k..] == ns[1..][k - 1..];
    }
  }
}
