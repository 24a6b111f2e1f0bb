/** The tree of mount points: nodes in a pool, linked by first child, next sibling and parent. */
module VfsTree {
  import opened VfsPath

  const NONE: int := -1

  datatype VNode = VNode(name: string, parent: nat, child: int, sibling: int, driver: int)

  // ----- Shape -----

  /** The root is its own parent; every other node was made after its parent. */
  predicate Rooted(nodes: seq<VNode>) {
    nodes != [] && nodes[0].parent == 0 && forall i | 0 < i < |nodes| :: nodes[i].parent < i
  }

  predicate IsChild(nodes: seq<VNode>, p: nat, i: nat) {
    0 < i < |nodes| && nodes[i].parent == p
  }

  /** `c` is the first of the children of p from `from` on, or there is none. */
  ghost predicate Next(nodes: seq<VNode>, p: nat, from: nat, c: int) {
    if c == NONE then forall i: nat | from < i :: !IsChild(nodes, p, i)
    else from < c && IsChild(nodes, p, c) && forall i: nat | from < i < c :: !IsChild(nodes, p, i)
  }

  ghost predicate ChildLinks(nodes: seq<VNode>) {
    forall p: nat | p < |nodes| :: Next(nodes, p, 0, nodes[p].child)
  }

  ghost predicate SiblingLinks(nodes: seq<VNode>) {
    forall i: nat | 0 < i < |nodes| :: Next(nodes, nodes[i].parent, i, nodes[i].sibling)
  }

  ghost predicate NamesDiffer(nodes: seq<VNode>) {
    forall p: nat, i: nat, j: nat | IsChild(nodes, p, i) && IsChild(nodes, p, j) && nodes[i].name == nodes[j].name :: i == j
  }

  /** The links list each node's children in the order they were made; siblings differ in name. */
  ghost predicate Tree(nodes: seq<VNode>) {
    Rooted(nodes) && ChildLinks(nodes) && SiblingLinks(nodes) && NamesDiffer(nodes)
  }

  /** The names from the root to node i. */
  function NameOf(nodes: seq<VNode>, i: nat): Path
    requires Rooted(nodes) && i < |nodes|
  {
    if i == 0 then [] else NameOf(nodes, nodes[i].parent) + [nodes[i].name]
  }

  lemma {:induction false} NameInjective(nodes: seq<VNode>, i: nat, j: nat)
    requires Tree(nodes) && i < |nodes| && j < |nodes| && NameOf(nodes, i) == NameOf(nodes, j)
    ensures i == j
    decreases i
  {
    if i > 0 && j > 0 {
      var a, b := NameOf(nodes, i), NameOf(nodes, j);
      assert a[..|a| - 1] == NameOf(nodes, nodes[i].parent) && b[..|b| - 1] == NameOf(nodes, nodes[j].parent);
      assert a[|a| - 1] == nodes[i].name && b[|b| - 1] == nodes[j].name;
      NameInjective(nodes, nodes[i].parent, nodes[j].parent);
      assert IsChild(nodes, nodes[i].parent, i) && IsChild(nodes, nodes[i].parent, j);
    }
  }

  /** A node's path is its parent's plus one name, and only children are such. */
  lemma ChildName(nodes: seq<VNode>, p: nat, i: nat, name: string)
    requires Tree(nodes) && p < |nodes| && i < |nodes|
    ensures IsChild(nodes, p, i) && nodes[i].name == name <==> NameOf(nodes, i) == NameOf(nodes, p) + [name]
  {
    if NameOf(nodes, i) == NameOf(nodes, p) + [name] {
      var a := NameOf(nodes, i);
      assert a[..|a| - 1] == NameOf(nodes, nodes[i].parent) && a[..|a| - 1] == NameOf(nodes, p);
      assert a[|a| - 1] == nodes[i].name && a[|a| - 1] == name;
      NameInjective(nodes, nodes[i].parent, p);
    }
  }

  // ----- Growing -----

  function Fresh(name: string, parent: nat): VNode { VNode(name, parent, NONE, NONE, NONE) }

  /** The first child of p. */
  function WithChild(nodes: seq<VNode>, p: nat, name: string): seq<VNode>
    requires p < |nodes|
  {
    nodes[p := nodes[p].(child := |nodes|)] + [Fresh(name, p)]
  }

  /** The next sibling of `last`. */
  function WithSibling(nodes: seq<VNode>, last: nat, name: string): seq<VNode>
    requires last < |nodes|
  {
    nodes[last := nodes[last].(sibling := |nodes|)] + [Fresh(name, nodes[last].parent)]
  }

  /** Same names and parents for the old nodes. */
  predicate Grew(nodes: seq<VNode>, more: seq<VNode>) {
    |nodes| <= |more| && forall i | 0 <= i < |nodes| :: more[i].name == nodes[i].name && more[i].parent == nodes[i].parent
  }

  lemma {:induction false} GrewNames(nodes: seq<VNode>, more: seq<VNode>, i: nat)
    requires Rooted(nodes) && Rooted(more) && Grew(nodes, more) && i < |nodes|
    ensures NameOf(more, i) == NameOf(nodes, i)
  {
    if i > 0 {
      GrewNames(nodes, more, nodes[i].parent);
    }
  }

  lemma ChildrenGrew(nodes: seq<VNode>, more: seq<VNode>, p: nat, name: string, q: nat, i: nat)
    requires Grew(nodes, more) && |more| == |nodes| + 1 && more[|nodes|].parent == p && nodes != []
    ensures IsChild(more, q, i) <==> IsChild(nodes, q, i) || (q == p && i == |nodes|)
  {
  }

  /** Every link but the changed one still says what comes next. */
  lemma NextGrew(nodes: seq<VNode>, more: seq<VNode>, p: nat, q: nat, from: nat, c: int)
    requires Grew(nodes, more) && |more| == |nodes| + 1 && more[|nodes|].parent == p && nodes != []
    requires Next(nodes, q, from, c) && from < |nodes|
    ensures q != p || c != NONE ==> Next(more, q, from, c)
    ensures q == p && c == NONE ==> Next(more, q, from, |nodes|)
  {
    forall i: nat
      ensures IsChild(more, q, i) <==> IsChild(nodes, q, i) || (q == p && i == |nodes|)
    {
      ChildrenGrew(nodes, more, p, "", q, i);
    }
  }

  /** One node more under p, and the link that ended p's list now leads to it. */
  ghost predicate OneMore(nodes: seq<VNode>, more: seq<VNode>, p: nat, name: string) {
    && Grew(nodes, more) && |more| == |nodes| + 1 && p < |nodes| && more[|nodes|] == Fresh(name, p)
    && (forall q: nat | q < |nodes| :: more[q].child == if q == p && nodes[q].child == NONE then |nodes| else nodes[q].child)
    && (forall i: nat | 0 < i < |nodes| ::
         more[i].sibling == if nodes[i].parent == p && nodes[i].sibling == NONE then |nodes| else nodes[i].sibling)
    && (forall i: nat | IsChild(nodes, p, i) :: nodes[i].name != name)
  }

  lemma GrowLinks(nodes: seq<VNode>, more: seq<VNode>, p: nat, name: string)
    requires Tree(nodes) && OneMore(nodes, more, p, name)
    ensures ChildLinks(more) && SiblingLinks(more)
  {
    hide Next, NamesDiffer;
    var n := |nodes|;
    forall q: nat | q < |more|
      ensures Next(more, q, 0, more[q].child)
    {
      if q < n {
        NextGrew(nodes, more, p, q, 0, nodes[q].child);
      } else {
        NothingNext(more, q, 0);
      }
    }
    forall i: nat | 0 < i < |more|
      ensures Next(more, more[i].parent, i, more[i].sibling)
    {
      if i < n {
        NextGrew(nodes, more, p, nodes[i].parent, i, nodes[i].sibling);
      } else {
        NothingNext(more, p, i);
      }
    }
  }

  /** Behind the last node there is no child, and the last node has none. */
  lemma NothingNext(nodes: seq<VNode>, q: nat, from: nat)
    requires nodes != [] && from < |nodes|
    requires from == |nodes| - 1 || (q == |nodes| - 1 && forall i: nat | 0 < i < |nodes| :: nodes[i].parent < |nodes| - 1)
    ensures Next(nodes, q, from, NONE)
  {
  }

  lemma GrowNames(nodes: seq<VNode>, more: seq<VNode>, p: nat, name: string)
    requires Rooted(nodes) && NamesDiffer(nodes) && OneMore(nodes, more, p, name)
    ensures Rooted(more) && NamesDiffer(more)
  {
    forall q: nat, i: nat, j: nat | IsChild(more, q, i) && IsChild(more, q, j) && more[i].name == more[j].name
      ensures i == j
    {
      ChildrenGrew(nodes, more, p, name, q, i);
      ChildrenGrew(nodes, more, p, name, q, j);
    }
  }

  lemma GrowTree(nodes: seq<VNode>, more: seq<VNode>, p: nat, name: string)
    requires Tree(nodes) && OneMore(nodes, more, p, name)
    ensures Tree(more) && Grew(nodes, more) && NameOf(more, |nodes|) == NameOf(nodes, p) + [name]
  {
    hide ChildLinks, SiblingLinks, NamesDiffer, IsChild;
    GrowLinks(nodes, more, p, name);
    GrowNames(nodes, more, p, name);
    GrewNames(nodes, more, p);
  }

  lemma NoChildren(nodes: seq<VNode>, p: nat)
    requires Tree(nodes) && p < |nodes| && nodes[p].child == NONE
    ensures forall i: nat | 0 < i < |nodes| :: nodes[i].parent != p
    ensures forall i: nat :: !IsChild(nodes, p, i)
  {
    assert Next(nodes, p, 0, NONE);
    forall i: nat | 0 < i < |nodes|
      ensures nodes[i].parent != p
    {
      assert !IsChild(nodes, p, i);
    }
  }

  lemma AddChild(nodes: seq<VNode>, p: nat, name: string)
    requires Tree(nodes) && p < |nodes| && nodes[p].child == NONE
    ensures var more := WithChild(nodes, p, name);
            Tree(more) && Grew(nodes, more) && NameOf(more, |nodes|) == NameOf(nodes, p) + [name]
  {
    hide Tree, Rooted, NameOf, IsChild;
    NoChildren(nodes, p);
    GrowTree(nodes, WithChild(nodes, p, name), p, name);
  }

  /** A list ends at its latest node only. */
  lemma OneEnd(nodes: seq<VNode>, p: nat, last: nat, i: nat)
    requires Tree(nodes) && IsChild(nodes, p, last) && nodes[last].sibling == NONE
    requires IsChild(nodes, p, i) && nodes[i].sibling == NONE
    ensures i == last
  {
    assert Next(nodes, p, last, NONE) && Next(nodes, p, i, NONE);
  }

  /** A node with a last child has a first one, and no other child ends the list. */
  lemma OnlyEnd(nodes: seq<VNode>, p: nat, last: nat)
    requires Tree(nodes) && IsChild(nodes, p, last) && nodes[last].sibling == NONE
    ensures p < |nodes| && last < |nodes| && nodes[p].child != NONE && nodes[last].parent == p
    ensures forall i: nat | 0 < i < |nodes| && nodes[i].parent == p && nodes[i].sibling == NONE :: i == last
  {
    if nodes[p].child == NONE {
      NoChildren(nodes, p);
    }
    forall i: nat | 0 < i < |nodes| && nodes[i].parent == p && nodes[i].sibling == NONE
      ensures i == last
    {
      OneEnd(nodes, p, last, i);
    }
  }

  lemma SiblingIsOneMore(nodes: seq<VNode>, p: nat, last: nat, name: string)
    requires Tree(nodes) && IsChild(nodes, p, last) && nodes[last].sibling == NONE
    requires forall i: nat | IsChild(nodes, p, i) :: nodes[i].name != name
    ensures OneMore(nodes, WithSibling(nodes, last, name), p, name)
  {
    OnlyEnd(nodes, p, last);
    hide Tree, Rooted, Next, ChildLinks, SiblingLinks, NamesDiffer, IsChild;
  }

  lemma AddSibling(nodes: seq<VNode>, p: nat, last: nat, name: string)
    requires Tree(nodes) && IsChild(nodes, p, last) && nodes[last].sibling == NONE
    requires forall i: nat | IsChild(nodes, p, i) :: nodes[i].name != name
    ensures p < |nodes|
    ensures var more := WithSibling(nodes, last, name);
            Tree(more) && Grew(nodes, more) && NameOf(more, |nodes|) == NameOf(nodes, p) + [name]
  {
    hide Tree, Rooted, NameOf, Next, ChildLinks, SiblingLinks, NamesDiffer;
    SiblingIsOneMore(nodes, p, last, name);
    GrowTree(nodes, WithSibling(nodes, last, name), p, name);
  }

  /** Node t with another driver. */
  function WithDriver(nodes: seq<VNode>, t: nat, driver: int): (more: seq<VNode>)
    requires t < |nodes|
    ensures Grew(nodes, more) && |more| == |nodes|
    ensures forall i: nat | i < |nodes| :: more[i].child == nodes[i].child && more[i].sibling == nodes[i].sibling
  {
    nodes[t := nodes[t].(driver := driver)]
  }

  /** Setting a driver changes no link and no name. */
  lemma SetDriver(nodes: seq<VNode>, t: nat, driver: int)
    requires Tree(nodes) && t < |nodes|
    ensures var more := nodes[t := nodes[t].(driver := driver)]; Tree(more) && Grew(nodes, more)
  {
    SetDriverLinks(nodes, t, driver);
    SetDriverNames(nodes, t, driver);
    hide ChildLinks, SiblingLinks, NamesDiffer;
  }

  lemma SetDriverNames(nodes: seq<VNode>, t: nat, driver: int)
    requires NamesDiffer(nodes) && t < |nodes|
    ensures NamesDiffer(WithDriver(nodes, t, driver))
  {
    hide WithDriver;
    var more := WithDriver(nodes, t, driver);
    forall q: nat, i: nat, j: nat | IsChild(more, q, i) && IsChild(more, q, j) && more[i].name == more[j].name
      ensures i == j
    {
      assert IsChild(nodes, q, i) && IsChild(nodes, q, j);
    }
  }

  lemma SetDriverLinks(nodes: seq<VNode>, t: nat, driver: int)
    requires ChildLinks(nodes) && SiblingLinks(nodes) && t < |nodes|
    ensures ChildLinks(WithDriver(nodes, t, driver)) && SiblingLinks(WithDriver(nodes, t, driver))
  {
    hide WithDriver, Next;
    var more := WithDriver(nodes, t, driver);
    forall p: nat | p < |more|
      ensures Next(more, p, 0, more[p].child)
    {
      SetDriverNext(nodes, t, driver, p, 0, nodes[p].child);
    }
    forall i: nat | 0 < i < |more|
      ensures Next(more, more[i].parent, i, more[i].sibling)
    {
      SetDriverNext(nodes, t, driver, nodes[i].parent, i, nodes[i].sibling);
    }
  }

  lemma SetDriverNext(nodes: seq<VNode>, t: nat, driver: int, p: nat, from: nat, c: int)
    requires t < |nodes| && Next(nodes, p, from, c)
    ensures Next(WithDriver(nodes, t, driver), p, from, c)
  {
    hide WithDriver;
    var more := WithDriver(nodes, t, driver);
    assert forall i: nat :: IsChild(more, p, i) <==> IsChild(nodes, p, i);
  }

  // ----- The longest mounted prefix -----

  /** n is the deepest node on the way to `path`. */
  ghost predicate Longest(nodes: seq<VNode>, n: nat, path: Path)
    requires Rooted(nodes) && n < |nodes|
  {
    && NameOf(nodes, n) <= path
    && forall m: nat | m < |nodes| && NameOf(nodes, m) <= path :: |NameOf(nodes, m)| <= |NameOf(nodes, n)|
  }

  lemma LongestUnique(nodes: seq<VNode>, n: nat, m: nat, path: Path)
    requires Tree(nodes) && n < |nodes| && m < |nodes| && Longest(nodes, n, path) && Longest(nodes, m, path)
    ensures n == m
  {
    assert NameOf(nodes, n) == path[..|NameOf(nodes, n)|] == path[..|NameOf(nodes, m)|] == NameOf(nodes, m);
    NameInjective(nodes, n, m);
  }

  /** A node's own path: the node itself. */
  lemma LongestSelf(nodes: seq<VNode>, n: nat)
    requires Rooted(nodes) && n < |nodes|
    ensures Longest(nodes, n, NameOf(nodes, n))
  {
  }

  /** A path at or above a longer one is the longer one or lies at or above the shorter. */
  lemma PrefixDown(a: Path, path: Path, name: string)
    requires a <= path + [name]
    ensures a <= path || a == path + [name]
  {
    var longer := path + [name];
    if |a| <= |path| {
      assert a == longer[..|a|] == path[..|a|];
    } else {
      assert a == longer[..|a|] == longer;
    }
  }

  lemma ParentPath(nodes: seq<VNode>, m: nat, path: Path, name: string)
    requires Rooted(nodes) && m < |nodes| && NameOf(nodes, m) == path + [name]
    ensures nodes[m].parent < |nodes| && NameOf(nodes, nodes[m].parent) == path
  {
    var a := NameOf(nodes, m);
    assert a[..|a| - 1] == NameOf(nodes, nodes[m].parent) && a[..|a| - 1] == path;
  }

  /** Stepping to a name below the node that is not one of its children keeps the node. */
  lemma LongestDown(nodes: seq<VNode>, n: nat, path: Path, name: string)
    requires Tree(nodes) && n < |nodes| && Longest(nodes, n, path)
    requires path == NameOf(nodes, n) ==> forall i: nat | IsChild(nodes, n, i) :: nodes[i].name != name
    ensures Longest(nodes, n, path + [name])
  {
    hide NameOf, ChildLinks, SiblingLinks, NamesDiffer, IsChild;
    forall m: nat | m < |nodes| && NameOf(nodes, m) <= path + [name]
      ensures |NameOf(nodes, m)| <= |NameOf(nodes, n)|
    {
      PrefixDown(NameOf(nodes, m), path, name);
      if NameOf(nodes, m) == path + [name] {
        ParentPath(nodes, m, path, name);
        assert path <= path;
        assert path == NameOf(nodes, n);
        ChildName(nodes, n, m, name);
      }
    }
  }

  /** Dropping a name below the node keeps the node. */
  lemma LongestUp(nodes: seq<VNode>, n: nat, path: Path)
    requires Rooted(nodes) && n < |nodes| && Longest(nodes, n, path) && |path| > |NameOf(nodes, n)|
    ensures Longest(nodes, n, path[..|path| - 1])
  {
    var shorter := path[..|path| - 1];
    assert shorter <= path;
    forall m: nat | m < |nodes| && NameOf(nodes, m) <= shorter
      ensures |NameOf(nodes, m)| <= |NameOf(nodes, n)|
    {
      var a := NameOf(nodes, m);
      assert a == shorter[..|a|] == path[..|a|];
    }
    var b := NameOf(nodes, n);
    assert b == path[..|b|] == shorter[..|b|];
  }
}
