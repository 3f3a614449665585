/** The matcher of internal/templating/matcher.go: which template a measurement line gets. */
module Matchers {
  import opened Text
  import opened FilterNodes
  import opened FilterTree
  import opened Options

  datatype Template<D> = Template(separator: string, data: D)

  datatype Addition<D> = Addition(filter: string, template: Template<D>) {
    function Path(): seq<string> { Split(filter, template.separator) }
  }

  /** The template last added for this path; additions without a filter only set the default. */
  function LastAt<D>(adds: seq<Addition<D>>, path: seq<string>): Option<Template<D>> {
    if adds == [] then None
    else
      var a := adds[|adds| - 1];
      if a.filter != "" && a.Path() == path then Some(a.template) else LastAt(adds[..|adds| - 1], path)
  }

  function Tree<D>(adds: seq<Addition<D>>): Node<Template<D>> {
    if adds == [] then Node("", None, [])
    else
      var a, t := adds[|adds| - 1], Tree(adds[..|adds| - 1]);
      if a.filter == "" then t else Insert(t, a.Path(), a.template)
  }

  /** Every addition sets the separator used to split lines. */
  function Separator<D>(adds: seq<Addition<D>>): string {
    if adds == [] then "" else adds[|adds| - 1].template.separator
  }

  function Default<D>(adds: seq<Addition<D>>, initial: Option<Template<D>>): Option<Template<D>> {
    if adds == [] then initial
    else if adds[|adds| - 1].filter == "" then Some(adds[|adds| - 1].template)
    else Default(adds[..|adds| - 1], initial)
  }

  /** Some added filter starts with these parts. */
  ghost predicate Known<D>(adds: seq<Addition<D>>, prefix: seq<string>) {
    exists i :: 0 <= i < |adds| && adds[i].filter != "" && prefix <= adds[i].Path()
  }

  /**
   The lookup said over the plain list of filters: follow the line part by part, taking "*" only
   where no filter continues with the part itself, and stop where no filter continues at all.
   */
  ghost function Reference<D>(adds: seq<Addition<D>>, prefix: seq<string>, parts: seq<string>): Option<Template<D>>
    decreases parts
  {
    if parts == [] then LastAt(adds, prefix)
    else if Known(adds, prefix + [parts[0]]) then Reference(adds, prefix + [parts[0]], parts[1..])
    else if Known(adds, prefix + [WILDCARD]) then Reference(adds, prefix + [WILDCARD], parts[1..])
    else LastAt(adds, prefix)
  }

  function OrElse<T>(a: Option<T>, b: Option<T>): Option<T> { if a.Some? then a else b }

  class Matcher<D> {
    const root: TreeNode<Template<D>>
    var separator: string
    var defaultTemplate: Option<Template<D>>
    ghost var adds: seq<Addition<D>>
    ghost const initial: Option<Template<D>>

    ghost predicate Valid()
      reads this, root, root.repr
    {
      root.Valid() && this !in root.repr && root.tree == Tree(adds) &&
      separator == Separator(adds) && defaultTemplate == Default(adds, initial)
    }

    constructor (defaultTemplate: Option<Template<D>>)
      ensures Valid() && adds == [] && initial == defaultTemplate && fresh(root.repr)
    {
      root := new TreeNode<Template<D>>("");
      separator, this.defaultTemplate := "", defaultTemplate;
      adds, initial := [], defaultTemplate;
    }

    method Add(filter: string, template: Template<D>)
      requires Valid()
      modifies this, root.repr
      ensures Valid() && adds == old(adds) + [Addition(filter, template)]
      ensures fresh(root.repr - old(root.repr))
    {
      hide Insert, Split;
      adds := adds + [Addition(filter, template)];
      assert adds[..|adds| - 1] == old(adds);
      separator := template.separator;
      if filter == "" {
        defaultTemplate := Some(template);
      } else {
        root.RecursiveInsert(Split(filter, separator), template);
      }
    }

    method Match(line: string) returns (t: Option<Template<D>>)
      requires Valid()
      ensures t == OrElse(Reference(adds, [], Split(line, Separator(adds))), Default(adds, initial))
    {
      TreeHolds(adds, []);
      t := root.RecursiveSearch(Split(line, separator));
      LookupIsReference(adds, Split(line, separator));
      if t.Some? {
        return;
      }
      t := defaultTemplate;
    }
  }

  // ---------- The tree stands for the list of additions ----------

  lemma {:induction false} TreeHolds<D>(adds: seq<Addition<D>>, path: seq<string>)
    ensures WellFormed(Tree(adds)) && Get(Tree(adds), path) == LastAt(adds, path)
  {
    if adds != [] {
      var a, front := adds[|adds| - 1], adds[..|adds| - 1];
      TreeHolds(front, path);
      if a.filter != "" {
        InsertWellFormed(Tree(front), a.Path(), a.template);
        GetInsert(Tree(front), a.Path(), a.template, path);
      }
    }
  }

  lemma {:induction false} LastAtKnown<D>(adds: seq<Addition<D>>, path: seq<string>)
    ensures LastAt(adds, path).Some? <==>
            exists i :: 0 <= i < |adds| && adds[i].filter != "" && adds[i].Path() == path
  {
    if adds != [] {
      var front := adds[..|adds| - 1];
      LastAtKnown(front, path);
      assert forall i :: 0 <= i < |front| ==> front[i] == adds[i];
      if LastAt(front, path).Some? {
        var i :| 0 <= i < |front| && front[i].filter != "" && front[i].Path() == path;
        assert adds[i].Path() == path;
      }
    }
  }

  /** `n` is the part of the tree below `prefix`. */
  ghost predicate Below<D>(n: Node<Template<D>>, adds: seq<Addition<D>>, prefix: seq<string>) {
    WellFormed(n) && forall q :: Get(n, q) == LastAt(adds, prefix + q)
  }

  lemma BelowChild<D>(n: Node<Template<D>>, adds: seq<Addition<D>>, prefix: seq<string>, i: nat)
    requires Below(n, adds, prefix) && i < |n.children|
    ensures Below(n.children[i], adds, prefix + [n.children[i].value])
  {
    var c := n.children[i];
    FindIs(n.children, i);
    forall q: seq<string> ensures Get(c, q) == LastAt(adds, prefix + [c.value] + q) {
      assert ([c.value] + q)[1..] == q;
      assert Get(n, [c.value] + q) == LastAt(adds, prefix + ([c.value] + q));
      assert prefix + ([c.value] + q) == prefix + [c.value] + q;
    }
  }

  /** A child exists exactly where some filter continues. */
  lemma ChildIffKnown<D>(n: Node<Template<D>>, adds: seq<Addition<D>>, prefix: seq<string>, part: string)
    requires Below(n, adds, prefix)
    ensures Find(n.children, part) < |n.children| <==> Known(adds, prefix + [part])
  {
    if Find(n.children, part) < |n.children| {
      ChildIsKnown(n, adds, prefix, Find(n.children, part));
    }
    if Known(adds, prefix + [part]) {
      KnownHasChild(n, adds, prefix, part);
    }
  }

  lemma ChildIsKnown<D>(n: Node<Template<D>>, adds: seq<Addition<D>>, prefix: seq<string>, i: nat)
    requires Below(n, adds, prefix) && i < |n.children|
    ensures Known(adds, prefix + [n.children[i].value])
  {
    hide Get, LastAt, Split;
    var c := n.children[i];
    BelowChild(n, adds, prefix, i);
    var p := SomePath(c);
    LastAtKnown(adds, prefix + [c.value] + p);
    assert prefix + [c.value] <= prefix + [c.value] + p;
  }

  lemma KnownHasChild<D>(n: Node<Template<D>>, adds: seq<Addition<D>>, prefix: seq<string>, part: string)
    requires Below(n, adds, prefix) && Known(adds, prefix + [part])
    ensures Find(n.children, part) < |n.children|
  {
    hide LastAt, Split;
    var k :| 0 <= k < |adds| && adds[k].filter != "" && prefix + [part] <= adds[k].Path();
    var path := adds[k].Path();
    var q := path[|prefix| + 1..];
    assert path == prefix + ([part] + q);
    LastAtKnown(adds, path);
    assert Get(n, [part] + q).Some?;
  }

  lemma {:induction false} LookupBelow<D>(n: Node<Template<D>>, adds: seq<Addition<D>>,
                                          prefix: seq<string>, parts: seq<string>)
    requires Below(n, adds, prefix)
    ensures Lookup(n, parts) == Reference(adds, prefix, parts)
    decreases parts
  {
    assert Get(n, []) == LastAt(adds, prefix) by { assert prefix + [] == prefix; }
    if parts != [] {
      hide Below, Find;
      ChildIffKnown(n, adds, prefix, parts[0]);
      ChildIffKnown(n, adds, prefix, WILDCARD);
      var i, w := Find(n.children, parts[0]), Find(n.children, WILDCARD);
      if i < |n.children| {
        BelowChild(n, adds, prefix, i);
        LookupBelow(n.children[i], adds, prefix + [parts[0]], parts[1..]);
      } else if w < |n.children| {
        BelowChild(n, adds, prefix, w);
        LookupBelow(n.children[w], adds, prefix + [WILDCARD], parts[1..]);
      }
    }
  }

  /** Looking a line up in the tree is looking it up in the list of filters. */
  lemma LookupIsReference<D>(adds: seq<Addition<D>>, parts: seq<string>)
    ensures Lookup(Tree(adds), parts) == Reference(adds, [], parts)
  {
    forall q: seq<string> ensures Get(Tree(adds), q) == LastAt(adds, [] + q) {
      TreeHolds(adds, q);
      assert [] + q == q;
    }
    TreeHolds(adds, []);
    LookupBelow(Tree(adds), adds, [], parts);
  }

  // ---------- A filter matches itself ----------

  lemma {:induction false} LookupStored<T>(n: Node<T>, path: seq<string>)
    requires Get(n, path).Some?
    ensures Lookup(n, path) == Get(n, path)
    decreases path
  {
    if path != [] {
      LookupStored(n.children[Find(n.children, path[0])], path[1..]);
    }
  }

  /** Whatever the separators: a line that splits into an added path gets the template last added there. */
  lemma AddedPathMatches<D>(adds: seq<Addition<D>>, parts: seq<string>)
    requires LastAt(adds, parts).Some?
    ensures Reference(adds, [], parts) == LastAt(adds, parts)
  {
    TreeHolds(adds, parts);
    LookupStored(Tree(adds), parts);
    LookupIsReference(adds, parts);
  }

  function LastFor<D>(adds: seq<Addition<D>>, filter: string): Option<Template<D>> {
    if adds == [] then None
    else if adds[|adds| - 1].filter == filter then Some(adds[|adds| - 1].template)
    else LastFor(adds[..|adds| - 1], filter)
  }

  /** Every filter splits under the last separator as it did under its own. */
  ghost predicate SameSplits<D>(adds: seq<Addition<D>>, separator: string) {
    forall i :: 0 <= i < |adds| && adds[i].filter != "" ==> Split(adds[i].filter, separator) == adds[i].Path()
  }

  lemma {:induction false} LastForIsLastAt<D>(adds: seq<Addition<D>>, separator: string, filter: string)
    requires filter != "" && SameSplits(adds, separator)
    ensures LastFor(adds, filter) == LastAt(adds, Split(filter, separator))
  {
    hide Split;
    if adds != [] {
      var a := adds[|adds| - 1];
      if a.filter != "" && a.Path() == Split(filter, separator) {
        SplitInjective(a.filter, filter, separator);
      }
      LastForIsLastAt(adds[..|adds| - 1], separator, filter);
    }
  }

  /** While the last separator splits every filter into its own path, each added filter matches itself. */
  lemma AddedFilterMatches<D>(adds: seq<Addition<D>>, filter: string)
    requires filter != "" && LastFor(adds, filter).Some? && SameSplits(adds, Separator(adds))
    ensures Reference(adds, [], Split(filter, Separator(adds))) == LastFor(adds, filter)
  {
    LastForIsLastAt(adds, Separator(adds), filter);
    AddedPathMatches(adds, Split(filter, Separator(adds)));
  }

  /** In particular with one separator. */
  lemma OneSeparatorMatches<D>(adds: seq<Addition<D>>, separator: string, filter: string)
    requires filter != "" && forall i :: 0 <= i < |adds| ==> adds[i].template.separator == separator
    requires LastFor(adds, filter).Some?
    ensures Reference(adds, [], Split(filter, separator)) == LastFor(adds, filter)
  {
    hide Split;
    assert adds[|adds| - 1].template.separator == separator;
    AddedFilterMatches(adds, filter);
  }

  // ---------- Which addition a line matches ----------

  /**
   `path` is where the lookup ends: each part of the line itself where some filter continues with it,
   else the wildcard where some filter continues with that, and no further than filters go.
   */
  ghost predicate Follows<D>(adds: seq<Addition<D>>, parts: seq<string>, path: seq<string>) {
    |path| <= |parts| &&
    (forall i :: 0 <= i < |path| ==> Taken(adds, parts, path, i)) &&
    (|path| < |parts| ==> !Known(adds, path + [parts[|path|]]) && !Known(adds, path + [WILDCARD]))
  }

  ghost predicate Taken<D>(adds: seq<Addition<D>>, parts: seq<string>, path: seq<string>, i: nat)
    requires i < |path| <= |parts|
  {
    Known(adds, path[..i] + [path[i]]) &&
    (path[i] == parts[i] || (path[i] == WILDCARD && !Known(adds, path[..i] + [parts[i]])))
  }

  lemma {:induction false} LookupFollows<D>(adds: seq<Addition<D>>, parts: seq<string>, k: nat, prefix: seq<string>)
    returns (path: seq<string>)
    requires |prefix| == k <= |parts| && forall i :: 0 <= i < k ==> Taken(adds, parts, prefix, i)
    ensures Follows(adds, parts, path) && prefix <= path
    ensures Reference(adds, prefix, parts[k..]) == LastAt(adds, path)
    decreases |parts| - k
  {
    hide Known, LastAt;
    path := prefix;
    if k < |parts| {
      var rest := parts[k..];
      assert rest[0] == parts[k] && rest[1..] == parts[k + 1..];
      if Known(adds, prefix + [parts[k]]) {
        TakenMore(adds, parts, prefix, parts[k]);
        path := LookupFollows(adds, parts, k + 1, prefix + [parts[k]]);
      } else if Known(adds, prefix + [WILDCARD]) {
        TakenMore(adds, parts, prefix, WILDCARD);
        path := LookupFollows(adds, parts, k + 1, prefix + [WILDCARD]);
      }
    }
  }

  lemma TakenMore<D>(adds: seq<Addition<D>>, parts: seq<string>, prefix: seq<string>, part: string)
    requires |prefix| < |parts| && forall i :: 0 <= i < |prefix| ==> Taken(adds, parts, prefix, i)
    requires Known(adds, prefix + [part])
    requires part == parts[|prefix|] || (part == WILDCARD && !Known(adds, prefix + [parts[|prefix|]]))
    ensures forall i :: 0 <= i <= |prefix| ==> Taken(adds, parts, prefix + [part], i)
  {
    hide Known;
    var more := prefix + [part];
    assert more[..|prefix|] == prefix;
    forall i | 0 <= i < |prefix| ensures Taken(adds, parts, more, i) {
      assert more[..i] == prefix[..i] && Taken(adds, parts, prefix, i);
    }
  }

  /** There is one such path. */
  lemma FollowsUnique<D>(adds: seq<Addition<D>>, parts: seq<string>, p: seq<string>, q: seq<string>)
    requires Follows(adds, parts, p) && Follows(adds, parts, q)
    ensures p == q
  {
    hide Known;
    AgreeUpTo(adds, parts, p, q, if |p| < |q| then |p| else |q|);
    assert p[..|p|] == p && q[..|q|] == q;
    GoesOn(adds, parts, p);
    GoesOn(adds, parts, q);
  }

  /** A longer path was not stopped on its way. */
  lemma GoesOn<D>(adds: seq<Addition<D>>, parts: seq<string>, path: seq<string>)
    requires Follows(adds, parts, path)
    ensures forall n :: 0 <= n < |path| ==>
              Known(adds, path[..n] + [parts[n]]) || Known(adds, path[..n] + [WILDCARD])
  {
    hide Known;
    forall n | 0 <= n < |path|
      ensures Known(adds, path[..n] + [parts[n]]) || Known(adds, path[..n] + [WILDCARD])
    {
      assert Taken(adds, parts, path, n);
      assert path[..n] + [path[n]] == path[..n] + [if path[n] == parts[n] then parts[n] else WILDCARD];
    }
  }

  lemma {:induction false} AgreeUpTo<D>(adds: seq<Addition<D>>, parts: seq<string>, p: seq<string>, q: seq<string>, n: nat)
    requires Follows(adds, parts, p) && Follows(adds, parts, q) && n <= |p| && n <= |q|
    ensures p[..n] == q[..n]
  {
    hide Known;
    if n > 0 {
      AgreeUpTo(adds, parts, p, q, n - 1);
      assert Taken(adds, parts, p, n - 1) && Taken(adds, parts, q, n - 1);
      assert p[..n] == p[..n - 1] + [p[n - 1]] && q[..n] == q[..n - 1] + [q[n - 1]];
    }
  }

  /** The lookup gives what was last added where it ends. */
  lemma LookupEndsThere<D>(adds: seq<Addition<D>>, parts: seq<string>, path: seq<string>)
    requires Follows(adds, parts, path)
    ensures Reference(adds, [], parts) == LastAt(adds, path)
  {
    hide Follows, LastAt;
    var p := LookupFollows(adds, parts, 0, []);
    FollowsUnique(adds, parts, p, path);
    assert parts[0..] == parts;
  }

  /** The j-th addition is the last one for its path. */
  predicate LastThere<D>(adds: seq<Addition<D>>, j: nat)
    requires j < |adds|
  {
    forall m :: j < m < |adds| && adds[m].filter != "" ==> adds[m].Path() != adds[j].Path()
  }

  lemma {:induction false} LastAtIs<D>(adds: seq<Addition<D>>, j: nat)
    requires j < |adds| && adds[j].filter != "" && LastThere(adds, j)
    ensures LastAt(adds, adds[j].Path()) == Some(adds[j].template)
  {
    hide Split;
    if j < |adds| - 1 {
      LastAtIs(adds[..|adds| - 1], j);
    }
  }

  lemma {:induction false} LastAtFrom<D>(adds: seq<Addition<D>>, path: seq<string>) returns (j: nat)
    requires LastAt(adds, path).Some?
    ensures j < |adds| && adds[j].filter != "" && adds[j].Path() == path && LastThere(adds, j)
    ensures LastAt(adds, path) == Some(adds[j].template)
  {
    hide Split;
    j := |adds| - 1;
    if !(adds[j].filter != "" && adds[j].Path() == path) {
      j := LastAtFrom(adds[..|adds| - 1], path);
    }
  }

  /** The j-th addition is the last without a filter. */
  predicate LastDefault<D>(adds: seq<Addition<D>>, j: nat) {
    j < |adds| && adds[j].filter == "" && forall m :: j < m < |adds| ==> adds[m].filter != ""
  }

  lemma {:induction false} DefaultIs<D>(adds: seq<Addition<D>>, initial: Option<Template<D>>)
    ensures (forall j: nat :: LastDefault(adds, j) ==> Default(adds, initial) == Some(adds[j].template))
    ensures (forall j :: 0 <= j < |adds| ==> adds[j].filter != "") ==> Default(adds, initial) == initial
  {
    if adds != [] {
      var front := adds[..|adds| - 1];
      DefaultIs(front, initial);
      assert forall j: nat :: LastDefault(adds, j) && j < |front| ==> LastDefault(front, j);
    }
  }

  lemma {:induction false} LastAtNone<D>(adds: seq<Addition<D>>, path: seq<string>)
    requires forall j :: 0 <= j < |adds| && adds[j].filter != "" ==> adds[j].Path() != path
    ensures LastAt(adds, path) == None
  {
    hide Split;
    if adds != [] {
      LastAtNone(adds[..|adds| - 1], path);
    }
  }

  /**
   What match answers, in full: the template last added where the lookup ends, the line being split by the
   separator of the last addition of all; where nothing was added there, the template last added without a
   filter; and where there is none either, the default the matcher was made with.
   */
  lemma MatchAnswers<D>(adds: seq<Addition<D>>, initial: Option<Template<D>>, line: string, path: seq<string>)
    requires adds != [] && Follows(adds, Split(line, adds[|adds| - 1].template.separator), path)
    ensures var answer := OrElse(Reference(adds, [], Split(line, Separator(adds))), Default(adds, initial));
            (forall j: nat :: j < |adds| && adds[j].filter != "" && adds[j].Path() == path && LastThere(adds, j) ==>
               answer == Some(adds[j].template)) &&
            ((forall j :: 0 <= j < |adds| && adds[j].filter != "" ==> adds[j].Path() != path) ==>
               (forall j: nat :: LastDefault(adds, j) ==> answer == Some(adds[j].template)) &&
               ((forall j :: 0 <= j < |adds| ==> adds[j].filter != "") ==> answer == initial))
  {
    hide Follows, Split, Reference, LastDefault, LastThere, LastAt, Default;
    LookupEndsThere(adds, Split(line, Separator(adds)), path);
    DefaultIs(adds, initial);
    forall j: nat | j < |adds| && adds[j].filter != "" && adds[j].Path() == path && LastThere(adds, j)
      ensures LastAt(adds, path) == Some(adds[j].template)
    {
      LastAtIs(adds, j);
    }
    if forall j :: 0 <= j < |adds| && adds[j].filter != "" ==> adds[j].Path() != path {
      LastAtNone(adds, path);
    }
  }

  /** Without any addition every line gets the default. */
  lemma NothingAdded<D>(initial: Option<Template<D>>, line: string)
    ensures OrElse(Reference<D>([], [], Split(line, Separator<D>([]))), Default([], initial)) == initial
  {
    hide Split;
    var parts := Split(line, Separator<D>([]));
    assert !Known<D>([], [] + [WILDCARD]);
    if parts != [] {
      assert !Known<D>([], [] + [parts[0]]);
    }
  }

  /** Every addition has a template of its own. */
  predicate OwnTemplates<D(==)>(adds: seq<Addition<D>>) {
    forall i, j :: 0 <= i < j < |adds| ==> adds[i].template != adds[j].template
  }

  /**
   Whatever the separators and wildcards: a line gets the template of the j-th addition exactly when
   the lookup ends at that addition's path and nothing was added there later.
   */
  lemma MatchesIff<D>(adds: seq<Addition<D>>, parts: seq<string>, j: nat)
    requires OwnTemplates(adds) && j < |adds| && adds[j].filter != ""
    ensures Reference(adds, [], parts) == Some(adds[j].template) <==>
            Follows(adds, parts, adds[j].Path()) && LastThere(adds, j)
  {
    hide Follows, Split, LastAt, LastThere;
    if Follows(adds, parts, adds[j].Path()) && LastThere(adds, j) {
      LookupEndsThere(adds, parts, adds[j].Path());
      LastAtIs(adds, j);
    }
    if Reference(adds, [], parts) == Some(adds[j].template) {
      var path := LookupFollows(adds, parts, 0, []);
      assert parts[0..] == parts;
      var m := LastAtFrom(adds, path);
      assert !(m < j) && !(j < m);
    }
  }

  /**
   So an added filter matches itself exactly when, split by the last separator, the lookup ends at the
   path it was added under, and no other filter was added there later.
   */
  lemma AddedFilterMatchesIff<D>(adds: seq<Addition<D>>, filter: string, j: nat)
    requires OwnTemplates(adds) && j < |adds| && adds[j].filter == filter != ""
    requires forall m :: j < m < |adds| ==> adds[m].filter != filter
    ensures LastFor(adds, filter) == Some(adds[j].template)
    ensures Reference(adds, [], Split(filter, Separator(adds))) == LastFor(adds, filter) <==>
            Follows(adds, Split(filter, Separator(adds)), adds[j].Path()) && LastThere(adds, j)
  {
    hide Follows, Split, Reference, LastThere;
    LastForIs(adds, j);
    MatchesIff(adds, Split(filter, Separator(adds)), j);
  }

  lemma {:induction false} LastForIs<D>(adds: seq<Addition<D>>, j: nat)
    requires j < |adds| && forall m :: j < m < |adds| ==> adds[m].filter != adds[j].filter
    ensures LastFor(adds, adds[j].filter) == Some(adds[j].template)
  {
    if j < |adds| - 1 {
      LastForIs(adds[..|adds| - 1], j);
    }
  }

  /**
   An added filter without the last separator in it is hidden: as a line it is one part, so it matches
   nothing unless some filter begins with that part or a wildcard.
   */
  lemma LaterSeparatorHidesFilter<D>(adds: seq<Addition<D>>, filter: string)
    requires LastFor(adds, filter).Some?
    requires Separator(adds) != "" && IndexOf(filter, Separator(adds)) > |filter|
    requires !Known(adds, [filter]) && !Known(adds, [WILDCARD])
    ensures Split(filter, Separator(adds)) == [filter]
    ensures Reference(adds, [], Split(filter, Separator(adds))) == None
  {
    hide Known;
    assert [] + [filter] == [filter] && [] + [WILDCARD] == [WILDCARD];
    NothingAtRoot(adds);
  }

  /** Two additions suffice: whatever `a` and `b`, the filter added first can no longer be matched. */
  lemma SecondSeparatorHidesFirst<D>(x: char, y: char, a: string, b: string, f: string, d: D, e: D)
    requires x != y && x !in a && y !in a && y !in b && x !in f && y !in f && f != "" && f != WILDCARD
    ensures var filter := a + [x] + b;
            var adds := [Addition(filter, Template([x], d)), Addition(f, Template([y], e))];
            LastFor(adds, filter) == Some(Template([x], d)) &&
            Reference(adds, [], Split(filter, Separator(adds))) == None
  {
    hide Split, IndexOf;
    var filter := a + [x] + b;
    var first, second := Addition(filter, Template([x], d)), Addition(f, Template([y], e));
    var adds := [first, second];
    assert filter[|a|] == x;
    SplitAtFirst(a, x, b);
    SplitWithout(filter, [y]);
    SplitWithout(f, [y]);
    assert adds[..1] == [first] && [first][..0] == [];
    assert [] + [filter] == [filter] && [] + [WILDCARD] == [WILDCARD];
    assert first.Path() == [a] + Split(b, [x]) && second.Path() == [f];
    assert |first.Path()| > 1 && first.Path()[0] == a;
    assert |a| < |filter| && x in filter;
    forall i | 0 <= i < |adds| ensures !([filter] <= adds[i].Path()) {
      assert adds[i].Path()[0] == if i == 0 then a else f;
      OtherFirstPart(filter, adds[i].Path());
    }
    assert LastAt(adds, [WILDCARD]) == LastAt([first], [WILDCARD]) == LastAt<D>([], [WILDCARD]);
    NothingAtRoot(adds);
  }

  lemma OtherFirstPart(part: string, path: seq<string>)
    requires path != [] && path[0] != part
    ensures !([part] <= path)
  {}

  lemma {:induction false} IndexOfFirst(a: string, x: char, b: string)
    requires x !in a
    ensures IndexOf(a + [x] + b, [x]) == |a|
  {
    var s := a + [x] + b;
    if a != "" {
      assert s[0] == a[0] && s[1..] == a[1..] + [x] + b;
      IndexOfFirst(a[1..], x, b);
    }
  }

  /** The first part ends where the separator first occurs. */
  lemma SplitAtFirst(a: string, x: char, b: string)
    requires x !in a
    ensures Split(a + [x] + b, [x]) == [a] + Split(b, [x]) && Split(b, [x]) != []
  {
    hide Split, IndexOf;
    var s := a + [x] + b;
    IndexOfFirst(a, x, b);
    SplitUnfold(s, [x]);
    assert s[..|a|] == a && s[|a| + 1..] == b;
    JoinSplit(b, [x]);
  }

  lemma {:induction false} NothingAtRoot<D>(adds: seq<Addition<D>>)
    ensures LastAt(adds, []) == None
  {
    if adds != [] {
      var a := adds[|adds| - 1];
      NothingAtRoot(adds[..|adds| - 1]);
      JoinSplit(a.filter, a.template.separator);
    }
  }

  /** A string without the separator is its own only part. */
  lemma {:induction false} SplitWithout(s: string, sep: string)
    requires |sep| == 1 && sep[0] !in s
    ensures IndexOf(s, sep) == |s| + 1 && Split(s, sep) == [s]
  {
    if s != "" {
      SplitWithout(s[1..], sep);
    }
  }
}
