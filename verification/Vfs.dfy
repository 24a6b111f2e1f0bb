/** Mounting, and walking, opening and tracing paths across mount points. */
module Vfs {
  import opened VfsPath
  import opened VfsTree

  /** What the virtual file system asks of a driver; a driver answers 0 or an error. */
  datatype Call = ToRoot | ToClose | ToOpen(at: Path, name: string)

  /** A reference: a mount point, and `offset` names below it, which the driver's state keeps. */
  class Ref {
    var node: nat
    var offset: nat
    var driver: int
    var rel: Path

    constructor (node: nat, offset: nat, driver: int, rel: Path)
      ensures this.node == node && this.offset == offset && this.driver == driver && this.rel == rel
    {
      this.node, this.offset, this.driver, this.rel := node, offset, driver, rel;
    }
  }

  /** Every node has a driver, and no two nodes share one. */
  ghost predicate Mounted(nodes: seq<VNode>) {
    && (forall i: nat | i < |nodes| :: nodes[i].driver != NONE)
    && (forall i: nat, j: nat | i < |nodes| && j < |nodes| && nodes[i].driver == nodes[j].driver :: i == j)
  }

  /** The whole path of a reference. */
  function Whole(nodes: seq<VNode>, node: nat, rel: Path): Path
    requires Rooted(nodes) && node < |nodes|
  {
    NameOf(nodes, node) + rel
  }

  /** A reference in order: its node is the deepest mount point on its path. */
  ghost predicate InOrder(nodes: seq<VNode>, node: nat, offset: nat, driver: int, rel: Path) {
    && Tree(nodes) && Mounted(nodes) && node < |nodes| && offset == |rel| && driver == nodes[node].driver
    && Longest(nodes, node, Whole(nodes, node, rel))
  }

  /** Where a path leads: node and rest are determined by it. */
  lemma PlaceUnique(nodes: seq<VNode>, node: nat, offset: nat, driver: int, rel: Path, node2: nat, offset2: nat, driver2: int, rel2: Path)
    requires InOrder(nodes, node, offset, driver, rel) && InOrder(nodes, node2, offset2, driver2, rel2)
    requires Whole(nodes, node, rel) == Whole(nodes, node2, rel2)
    ensures node == node2 && offset == offset2 && driver == driver2 && rel == rel2
  {
    LongestUnique(nodes, node, node2, Whole(nodes, node, rel));
    var n := NameOf(nodes, node);
    assert rel == (n + rel)[|n|..] && rel2 == (n + rel2)[|n|..];
  }

  // ----- One step of a walk, on values -----

  /** Down to a mount point. */
  lemma StepMount(nodes: seq<VNode>, node: nat, driver: int, rel: Path, name: string, child: nat)
    requires InOrder(nodes, node, 0, driver, rel) && IsChild(nodes, node, child) && nodes[child].name == name
    ensures InOrder(nodes, child, 0, nodes[child].driver, []) && nodes[child].driver != driver
    ensures Whole(nodes, child, []) == Whole(nodes, node, rel) + [name]
  {
    ChildName(nodes, node, child, name);
    assert Whole(nodes, child, []) == NameOf(nodes, child);
    assert Whole(nodes, node, rel) == NameOf(nodes, node);
    LongestSelf(nodes, child);
  }

  /** Down inside a driver. */
  lemma StepDown(nodes: seq<VNode>, node: nat, offset: nat, driver: int, rel: Path, name: string)
    requires InOrder(nodes, node, offset, driver, rel)
    requires offset == 0 ==> forall i: nat | IsChild(nodes, node, i) :: nodes[i].name != name
    ensures InOrder(nodes, node, offset + 1, driver, rel + [name])
    ensures Whole(nodes, node, rel + [name]) == Whole(nodes, node, rel) + [name]
  {
    assert NameOf(nodes, node) + (rel + [name]) == Whole(nodes, node, rel) + [name];
    assert |Whole(nodes, node, rel)| == |NameOf(nodes, node)| + |rel|;
    LongestDown(nodes, node, Whole(nodes, node, rel), name);
  }

  /** Up inside a driver. */
  lemma StepUp(nodes: seq<VNode>, node: nat, offset: nat, driver: int, rel: Path)
    requires InOrder(nodes, node, offset, driver, rel) && offset > 0
    ensures InOrder(nodes, node, offset - 1, driver, rel[..offset - 1])
    ensures Whole(nodes, node, rel[..offset - 1]) == Walked(Whole(nodes, node, rel), "..")
  {
    var path := Whole(nodes, node, rel);
    assert path[..|path| - 1] == NameOf(nodes, node) + rel[..offset - 1];
    LongestUp(nodes, node, path);
  }

  /** Up from a mount point to the one it hangs under. */
  lemma StepUnmount(nodes: seq<VNode>, node: nat, driver: int, rel: Path)
    requires InOrder(nodes, node, 0, driver, rel)
    ensures var up := nodes[node].parent;
            && up < |nodes| && InOrder(nodes, up, 0, nodes[up].driver, [])
            && Whole(nodes, up, []) == Walked(Whole(nodes, node, rel), "..")
            && (nodes[up].driver == driver ==> rel == [])
  {
    var up := nodes[node].parent;
    LongestSelf(nodes, up);
    assert Whole(nodes, up, []) == NameOf(nodes, up);
    var path := Whole(nodes, node, rel);
    assert path == NameOf(nodes, node);
    if node > 0 {
      assert path[..|path| - 1] == NameOf(nodes, up);
    }
  }

  // ----- What a walk asks of the drivers -----

  /** A call to a driver. */
  type Asked = (int, Call)

  /** The first reply that is an error, or 0. */
  function Reply(answer: (int, Call) -> int, calls: seq<Asked>): int {
    if calls == [] then 0
    else if answer(calls[0].0, calls[0].1) != 0 then answer(calls[0].0, calls[0].1)
    else Reply(answer, calls[1..])
  }

  /** The calls up to that one. */
  function Heard(answer: (int, Call) -> int, calls: seq<Asked>): seq<Asked> {
    if calls == [] then []
    else if answer(calls[0].0, calls[0].1) != 0 then [calls[0]]
    else [calls[0]] + Heard(answer, calls[1..])
  }

  lemma {:induction false} AllHeard(answer: (int, Call) -> int, calls: seq<Asked>)
    ensures Reply(answer, calls) == 0 <==> forall i: nat | i < |calls| :: answer(calls[i].0, calls[i].1) == 0
    ensures Reply(answer, calls) == 0 ==> Heard(answer, calls) == calls
  {
    if calls != [] {
      AllHeard(answer, calls[1..]);
      assert calls == [calls[0]] + calls[1..];
      assert forall i: nat | 0 < i < |calls| :: calls[i] == calls[1..][i - 1];
    }
  }

  lemma {:induction false} AgreedReply(answer: (int, Call) -> int, calls: seq<Asked>)
    requires forall d: int, c: Call :: answer(d, c) == 0
    ensures Reply(answer, calls) == 0
  {
    if calls != [] {
      var d: int, c: Call := calls[0].0, calls[0].1;
      assert answer(d, c) == 0;
      AgreedReply(answer, calls[1..]);
    }
  }

  /** The deepest mount point on the way to a path. */
  ghost function Deepest(nodes: seq<VNode>, place: Path): (n: nat)
    requires Rooted(nodes)
    ensures n < |nodes|
  {
    if n: nat :| n < |nodes| && Longest(nodes, n, place) then n else 0
  }

  /** The rest of the path, inside that mount point's driver. */
  ghost function Inner(nodes: seq<VNode>, place: Path): Path
    requires Rooted(nodes)
  {
    var n := NameOf(nodes, Deepest(nodes, place));
    if |n| <= |place| then place[|n|..] else []
  }

  /** What one name of a walk asks: at a change of mount point the old driver to close and the new
      one for its root, and otherwise the driver to open the name from where it is. */
  ghost function StepCalls(nodes: seq<VNode>, place: Path, part: string): seq<Asked>
    requires Rooted(nodes)
  {
    var here, there := Deepest(nodes, place), Deepest(nodes, Walked(place, part));
    if part == "." then []
    else if here != there then [(nodes[here].driver, ToClose), (nodes[there].driver, ToRoot)]
    else if part == ".." && Inner(nodes, place) == [] then []
    else [(nodes[here].driver, ToOpen(Inner(nodes, place), part))]
  }

  lemma DeepestIs(nodes: seq<VNode>, node: nat, offset: nat, driver: int, rel: Path)
    requires InOrder(nodes, node, offset, driver, rel)
    ensures Rooted(nodes) && node < |nodes| && driver == nodes[node].driver && offset == |rel|
    ensures Deepest(nodes, Whole(nodes, node, rel)) == node && Inner(nodes, Whole(nodes, node, rel)) == rel
  {
    var place := Whole(nodes, node, rel);
    assert Longest(nodes, node, place);
    LongestUnique(nodes, node, Deepest(nodes, place), place);
    assert place[|NameOf(nodes, node)|..] == rel;
  }

  /** A step that stays at its mount point opens the name there. */
  lemma OpensThere(nodes: seq<VNode>, node: nat, offset: nat, driver: int, rel: Path, offset2: nat, rel2: Path, part: string)
    requires InOrder(nodes, node, offset, driver, rel) && InOrder(nodes, node, offset2, driver, rel2)
    requires Whole(nodes, node, rel2) == Walked(Whole(nodes, node, rel), part)
    requires part != "." && (part == ".." ==> rel != [])
    ensures StepCalls(nodes, Whole(nodes, node, rel), part) == [(driver, ToOpen(rel, part))]
  {
    DeepestIs(nodes, node, offset, driver, rel);
    DeepestIs(nodes, node, offset2, driver, rel2);
    hide InOrder, Whole, Walked, Deepest, Inner, Rooted;
  }

  /** A step to another mount point changes the driver; at the root's own parent nothing happens. */
  lemma ChangesThere(nodes: seq<VNode>, node: nat, driver: int, rel: Path, node2: nat, driver2: int, part: string)
    requires InOrder(nodes, node, 0, driver, rel) && InOrder(nodes, node2, 0, driver2, [])
    requires Whole(nodes, node2, []) == Walked(Whole(nodes, node, rel), part)
    requires part != "." && (driver == driver2 ==> part == "..")
    ensures StepCalls(nodes, Whole(nodes, node, rel), part) ==
            if driver == driver2 then [] else [(driver, ToClose), (driver2, ToRoot)]
  {
    DeepestIs(nodes, node, 0, driver, rel);
    DeepestIs(nodes, node2, 0, driver2, []);
    assert driver == driver2 ==> node == node2;
    hide InOrder, Whole, Walked, Deepest, Inner, Rooted;
  }

  lemma StaysPut(nodes: seq<VNode>, place: Path)
    requires Rooted(nodes)
    ensures StepCalls(nodes, place, ".") == []
  {
  }

  lemma ReplyNone(answer: (int, Call) -> int)
    ensures Reply(answer, []) == 0 && Heard(answer, []) == []
  {
  }

  lemma ReplyOne(answer: (int, Call) -> int, a: Asked)
    ensures Reply(answer, [a]) == answer(a.0, a.1) && Heard(answer, [a]) == [a]
  {
    assert [a][1..] == [];
  }

  lemma ReplyTwo(answer: (int, Call) -> int, a: Asked, b: Asked)
    ensures Reply(answer, [a, b]) == if answer(a.0, a.1) != 0 then answer(a.0, a.1) else answer(b.0, b.1)
    ensures Heard(answer, [a, b]) == if answer(a.0, a.1) != 0 then [a] else [a, b]
  {
    assert [a, b][1..] == [b];
    ReplyOne(answer, b);
  }

  /** What opening answers and asks once k names are read: too long a name ends it, then an error
      of entering the name before it, then too many names. */
  ghost function Opened(answer: (int, Call) -> int, nodes: seq<VNode>, start: Path, names: Path, k: nat): (int, seq<Asked>)
    requires Rooted(nodes) && k <= |names|
    decreases |names| - k
  {
    if k < |names| && |names[k]| >= NAME_LIMIT then (ENAMETOOLONG, [])
    else
      var step := if k == 0 then [] else StepCalls(nodes, WalkedAll(start, names[..k - 1]), names[k - 1]);
      if Reply(answer, step) != 0 then (Reply(answer, step), Heard(answer, step))
      else if k == |names| then (0, step)
      else if k + 1 > MAX_RESOLVES then (ELOOP, step)
      else var rest := Opened(answer, nodes, start, names, k + 1); (rest.0, step + rest.1)
  }

  /** One round of opening. */
  lemma OpenedStep(answer: (int, Call) -> int, nodes: seq<VNode>, start: Path, names: Path, k: nat, step: seq<Asked>)
    requires Rooted(nodes) && k <= |names|
    requires step == if k == 0 then [] else StepCalls(nodes, WalkedAll(start, names[..k - 1]), names[k - 1])
    ensures var r := Opened(answer, nodes, start, names, k);
            if k < |names| && |names[k]| >= NAME_LIMIT then r == (ENAMETOOLONG, []) && ENAMETOOLONG != 0
            else if Reply(answer, step) != 0 then r == (Reply(answer, step), Heard(answer, step))
            else if k == |names| then r == (0, Heard(answer, step))
            else if k + 1 > MAX_RESOLVES then r == (ELOOP, Heard(answer, step)) && ELOOP != 0
            else && r.0 == Opened(answer, nodes, start, names, k + 1).0
                 && r.1 == Heard(answer, step) + Opened(answer, nodes, start, names, k + 1).1
  {
    AllHeard(answer, step);
    hide StepCalls, WalkedAll, Reply, Heard, Rooted;
  }

  /** The drivers that entering name i asks agree. */
  ghost predicate StepAgrees(answer: (int, Call) -> int, nodes: seq<VNode>, start: Path, names: Path, i: nat)
    requires Rooted(nodes) && i < |names|
  {
    forall a | a in StepCalls(nodes, WalkedAll(start, names[..i]), names[i]) :: answer(a.0, a.1) == 0
  }

  /** From the name before name k on all agree. */
  ghost predicate AgreeFrom(answer: (int, Call) -> int, nodes: seq<VNode>, start: Path, names: Path, k: nat)
    requires Rooted(nodes)
  {
    forall i: nat | k <= i + 1 && i < |names| :: StepAgrees(answer, nodes, start, names, i)
  }

  lemma StepAgreesIs(answer: (int, Call) -> int, nodes: seq<VNode>, start: Path, names: Path, i: nat)
    requires Rooted(nodes) && i < |names|
    ensures StepAgrees(answer, nodes, start, names, i) <==>
              Reply(answer, StepCalls(nodes, WalkedAll(start, names[..i]), names[i])) == 0
  {
    AllHeard(answer, StepCalls(nodes, WalkedAll(start, names[..i]), names[i]));
    hide StepCalls, WalkedAll, Reply, Rooted;
  }

  lemma AgreeStep(answer: (int, Call) -> int, nodes: seq<VNode>, start: Path, names: Path, k: nat)
    requires Rooted(nodes) && k <= |names|
    ensures AgreeFrom(answer, nodes, start, names, k) <==>
              (k > 0 ==> Reply(answer, StepCalls(nodes, WalkedAll(start, names[..k - 1]), names[k - 1])) == 0)
              && AgreeFrom(answer, nodes, start, names, k + 1)
    ensures k == |names| ==> AgreeFrom(answer, nodes, start, names, k + 1)
  {
    if k > 0 {
      StepAgreesIs(answer, nodes, start, names, k - 1);
    }
    hide StepCalls, WalkedAll, Reply, Rooted, StepAgrees;
  }

  lemma VerdictStep(names: Path, k: nat)
    requires k <= |names|
    ensures k == |names| ==> Verdict(names, k) == 0
    ensures k < |names| && |names[k]| >= NAME_LIMIT ==> Verdict(names, k) == ENAMETOOLONG && ENAMETOOLONG != 0
    ensures k < |names| && |names[k]| < NAME_LIMIT && k + 1 > MAX_RESOLVES ==> Verdict(names, k) == ELOOP && ELOOP != 0
    ensures k < |names| && |names[k]| < NAME_LIMIT && k + 1 <= MAX_RESOLVES ==> Verdict(names, k) == Verdict(names, k + 1)
  {
  }

  /** Opening succeeds exactly when the names pass and every driver asked on the way agrees. */
  lemma {:induction false} OpenedPasses(answer: (int, Call) -> int, nodes: seq<VNode>, start: Path, names: Path, k: nat)
    requires Rooted(nodes) && k <= |names|
    ensures Opened(answer, nodes, start, names, k).0 == 0 <==>
              Verdict(names, k) == 0 && AgreeFrom(answer, nodes, start, names, k)
    decreases |names| - k
  {
    hide *;
    OpenedStep(answer, nodes, start, names, k, if k == 0 then [] else StepCalls(nodes, WalkedAll(start, names[..k - 1]), names[k - 1]));
    ReplyNone(answer);
    AgreeStep(answer, nodes, start, names, k);
    VerdictStep(names, k);
    if k < |names| {
      OpenedPasses(answer, nodes, start, names, k + 1);
    }
  }

  /** Drivers that all agree leave the verdict on the names. */
  lemma {:induction false} OpenedAgreed(answer: (int, Call) -> int, nodes: seq<VNode>, start: Path, names: Path, k: nat)
    requires Rooted(nodes) && k <= |names| && forall d: int, c: Call :: answer(d, c) == 0
    ensures Opened(answer, nodes, start, names, k).0 == Verdict(names, k)
    decreases |names| - k
  {
    hide *;
    var step := if k == 0 then [] else StepCalls(nodes, WalkedAll(start, names[..k - 1]), names[k - 1]);
    OpenedStep(answer, nodes, start, names, k, step);
    AgreedReply(answer, step);
    VerdictStep(names, k);
    if k < |names| {
      OpenedAgreed(answer, nodes, start, names, k + 1);
    }
  }

  /** What climbing n names asks, as far as there are any. */
  ghost function ClimbCalls(nodes: seq<VNode>, place: Path, n: nat): seq<Asked>
    requires Rooted(nodes)
  {
    if n == 0 || place == [] then [] else StepCalls(nodes, place, "..") + ClimbCalls(nodes, Walked(place, ".."), n - 1)
  }

  /** The path n names up. */
  function Above(place: Path, n: nat): Path { if n >= |place| then [] else place[..|place| - n] }

  /** Whether a path starts at the root. */
  predicate Absolute(path: string) { path != "" && path[0] == '/' }

  // ----- The verdict on a path -----

  /** The error that opening reports for the names themselves. */
  function Verdict(names: Path, k: nat): int
    decreases |names| - k
  {
    if k >= |names| then 0
    else if |names[k]| >= NAME_LIMIT then ENAMETOOLONG
    else if k + 1 > MAX_RESOLVES then ELOOP
    else Verdict(names, k + 1)
  }

  /** A path passes exactly when it has at most 64 names, each below 255 characters. A name that
      is too long among the first 65 is reported as such; otherwise too many names are. */
  lemma {:induction false} VerdictPasses(names: Path, k: nat)
    requires k <= |names|
    ensures Verdict(names, k) == 0 <==> (k == |names| || |names| <= 64) && forall i | k <= i < |names| :: |names[i]| < 255
    ensures k <= 64 ==> (Verdict(names, k) == 36 <==> exists i :: k <= i < |names| && i <= 64 && |names[i]| >= 255)
    ensures Verdict(names, k) in {0, 36, 40}
    decreases |names| - k
  {
    if k < |names| {
      VerdictPasses(names, k + 1);
    }
  }

  // ----- Tracing into a buffer -----

  /** The names that the trace's array holds. */
  function LastNames(p: Path): Path { if |p| <= MAX_RESOLVES then p else p[|p| - MAX_RESOLVES..] }

  /** As many names as fit below `size`, each with a slash behind it. */
  function Fitted(out: string, names: Path, size: int): string
    decreases |names|
  {
    if names == [] || |out| + |names[0]| >= size then out
    else Fitted(out + names[0] + "/", names[1..], size)
  }

  lemma {:induction false} FittedAll(p: Path, k: nat, size: int)
    requires k <= |p| && |Traced(p)| <= size
    ensures |Traced(p[..k])| <= |Traced(p)| && Fitted(Traced(p[..k]), p[k..], size) == Traced(p)
    decreases |p| - k
  {
    if k == |p| {
      assert p[..k] == p;
    } else {
      FittedAll(p, k + 1, size);
      assert p[..k + 1][..k] == p[..k];
      assert p[k..][1..] == p[k + 1..];
    }
  }

  /** The buffer then holds the whole traced path. */
  lemma TraceFits(p: Path, size: int)
    requires |p| <= MAX_RESOLVES && |Traced(p)| <= size
    ensures Fitted("/", LastNames(p), size) == Traced(p)
  {
    FittedAll(p, 0, size);
    assert p[..0] == [] && p[0..] == p;
  }

  /** A trace of zero-free names is a zero-free string. */
  lemma {:induction false} FittedClean(out: string, names: Path, size: int)
    requires '\0' !in out && forall name | name in names :: '\0' !in name
    ensures '\0' !in Fitted(out, names, size)
    decreases |names|
  {
    if names != [] && |out| + |names[0]| < size {
      assert names[0] in names;
      FittedClean(out + names[0] + "/", names[1..], size);
    }
  }

  /** Opening what was traced leads back: the names come out as they went in, are few and short
      enough, and walking them from the root gives the traced path. */
  lemma TraceReopens(p: Path, size: int)
    requires |p| <= MAX_RESOLVES && (forall name | name in p :: Plain(name)) && |Traced(p)| <= size
    ensures var out := Fitted("/", LastNames(p), size);
            && out != "" && out[0] == '/' && '\0' !in out
            && Verdict(Pieces(out), 0) == 0 && WalkedAll([], Pieces(out)) == p
  {
    FittedClean("/", p, size);
    TraceFits(p, size);
    TraceRoundTrip(p);
    VerdictPasses(p, 0);
    forall i | 0 <= i < |p|
      ensures |p[i]| < NAME_LIMIT
    {
      assert p[i] in p;
    }
  }

  // ----- Mounting, on values -----

  /** The nodes from `from` on lie on the way to a path. */
  ghost predicate OnWay(nodes: seq<VNode>, from: nat, names: Path)
    requires Rooted(nodes)
  {
    forall i: nat | from <= i < |nodes| :: NameOf(nodes, i) <= names
  }

  /** Old nodes keep their drivers, new ones have none. */
  ghost predicate Drivers(nodes: seq<VNode>, more: seq<VNode>) {
    && |nodes| <= |more|
    && (forall i: nat | i < |nodes| :: more[i].driver == nodes[i].driver)
    && (forall i: nat | |nodes| <= i < |more| :: more[i].driver == NONE)
  }

  // ----- The mounted system -----

  class System {
    /** The drivers' replies. */
    const answer: (int, Call) -> int
    var nodes: seq<VNode>
    ghost var asked: seq<Asked>     // all calls to drivers so far

    constructor (answer: (int, Call) -> int)
      ensures this.answer == answer && Tree(nodes) && |nodes| == 1 && NameOf(nodes, 0) == []
      ensures nodes[0].name == "root" && nodes[0].driver == NONE && asked == []
    {
      this.answer, asked := answer, [];
      nodes := [Fresh("root", 0)];
    }

    /** No driver ever refuses. */
    ghost predicate Agreeable() { forall d: int, c: Call :: answer(d, c) == 0 }

    lemma Agrees(d: int, c: Call)
      ensures Agreeable() ==> answer(d, c) == 0
    {
    }

    /** Asks a driver. */
    method Ask(d: int, c: Call) returns (res: int)
      modifies `asked
      ensures res == answer(d, c) && asked == old(asked) + [(d, c)]
    {
      asked := asked + [(d, c)];
      res := answer(d, c);
    }

    ghost predicate Good(vref: Ref)
      reads `nodes, vref
    {
      InOrder(nodes, vref.node, vref.offset, vref.driver, vref.rel)
    }

    /** The path a reference stands for. */
    ghost function Where(vref: Ref): Path
      requires Good(vref)
      reads `nodes, vref
    {
      Whole(nodes, vref.node, vref.rel)
    }

    lemma GoodFacts(vref: Ref)
      requires Good(vref)
      ensures Tree(nodes) && Rooted(nodes) && vref.node < |nodes| && nodes[vref.node].parent < |nodes|
      ensures InOrder(nodes, vref.node, vref.offset, vref.driver, vref.rel)
      ensures vref.offset == |vref.rel| && vref.driver == nodes[vref.node].driver && vref.driver != NONE
      ensures Where(vref) == Whole(nodes, vref.node, vref.rel)
    {
    }

    lemma MakeGood(vref: Ref)
      requires InOrder(nodes, vref.node, vref.offset, vref.driver, vref.rel)
      ensures Good(vref) && Rooted(nodes) && vref.node < |nodes| && Where(vref) == Whole(nodes, vref.node, vref.rel)
    {
    }

    // ----- Mounting -----

    /** Looks for a child by name, along the siblings; without one, ends at the last child. */
    method FindChild(node: nat, name: string) returns (found: bool, at: nat)
      requires Tree(nodes) && node < |nodes|
      ensures found ==> IsChild(nodes, node, at) && nodes[at].name == name
      ensures !found ==> forall i: nat | IsChild(nodes, node, i) :: nodes[i].name != name
      ensures !found && nodes[node].child != NONE ==> IsChild(nodes, node, at) && nodes[at].sibling == NONE
    {
      assert Next(nodes, node, 0, nodes[node].child);
      if nodes[node].child == NONE {
        return false, node;
      }
      at := nodes[node].child;
      while true
        invariant IsChild(nodes, node, at)
        invariant forall i: nat | i < at && IsChild(nodes, node, i) :: nodes[i].name != name
        decreases |nodes| - at
      {
        if nodes[at].name == name {
          return true, at;
        }
        assert Next(nodes, node, at, nodes[at].sibling);
        if nodes[at].sibling != NONE {
          at := nodes[at].sibling;
          continue;
        }
        break;
      }
      found := false;
    }

    /** The next name on the way to a mount point: its child of that name, made if missing. */
    method MountStep(node: nat, name: string) returns (at: nat)
      requires Tree(nodes) && node < |nodes|
      modifies `nodes
      ensures Tree(nodes) && Grew(old(nodes), nodes) && Rooted(old(nodes)) && at < |nodes|
      ensures NameOf(nodes, at) == NameOf(old(nodes), node) + [name]
      ensures |nodes| == |old(nodes)| || (|nodes| == |old(nodes)| + 1 && at == |old(nodes)|)
      ensures at < |old(nodes)| ==> nodes == old(nodes)
      ensures Drivers(old(nodes), nodes)
    {
      hide Tree, NameOf, Next;
      TreeRooted(nodes);
      if nodes[node].child == NONE {
        AddChild(nodes, node, name);
        at := |nodes|;
        nodes := WithChild(nodes, node, name);
      } else {
        var found, child := FindChild(node, name);
        if found {
          at := child;
          ChildName(nodes, node, at, name);
        } else {
          AddSibling(nodes, node, child, name);
          at := |nodes|;
          nodes := WithSibling(nodes, child, name);
        }
      }
      TreeRooted(nodes);
    }

    lemma TreeRooted(t: seq<VNode>)
      requires Tree(t)
      ensures Rooted(t)
    {
    }

    /** Mounts a driver: all old nodes stay as they are, the nodes on the way to the path exist,
        and the one at its end has the driver. */
    method Mount(path: string, driver: int) returns (ghost target: nat)
      requires Tree(nodes) && path != "" && path[0] == '/' && '\0' !in path
      modifies `nodes
      ensures Tree(nodes) && Rooted(old(nodes)) && Grew(old(nodes), nodes)
      ensures target < |nodes| && NameOf(nodes, target) == Pieces(path) && nodes[target].driver == driver
      ensures forall i: nat | i < |old(nodes)| && i != target :: nodes[i].driver == old(nodes)[i].driver
      ensures forall i: nat | |old(nodes)| <= i < |nodes| && i != target :: nodes[i].driver == NONE
      ensures OnWay(nodes, |old(nodes)|, Pieces(path))
    {
      hide *;
      ghost var nodes0 := nodes;
      ghost var names := Pieces(path);
      var cursor := new Cursor(path);
      cursor.Start();
      var node: nat := 0;
      ghost var k: nat := 0;
      TreeRooted(nodes);
      MountStart(nodes, names);
      var more, name := cursor.Resolve();
      while more
        invariant fresh(cursor) && cursor.Valid() && k <= |names|
        invariant names[k..] == if more then [name] + cursor.Left() else []
        invariant !more ==> k == |names|
        invariant Tree(nodes) && Rooted(nodes) && Rooted(nodes0) && Grew(nodes0, nodes) && |nodes0| <= |nodes|
        invariant node < |nodes| && NameOf(nodes, node) == names[..k]
        invariant Drivers(nodes0, nodes) && OnWay(nodes, |nodes0|, names)
        decreases |names| - k
      {
        ghost var before := nodes;
        node := MountStep(node, name);
        TreeRooted(nodes);
        NextNames(names, k, name, cursor.Left());
        StillOnWay(nodes0, before, nodes, names, k, node);
        StillDrivers(nodes0, before, nodes);
        k := k + 1;
        more, name := cursor.Resolve();
      }
      target := node;
      ghost var before := nodes;
      SetDriver(nodes, node, driver);
      nodes := nodes[node := nodes[node].(driver := driver)];
      TreeRooted(nodes);
      MountEnd(nodes0, before, nodes, names, node, driver);
    }

    lemma MountStart(t: seq<VNode>, names: Path)
      requires Rooted(t)
      ensures |t| > 0 && NameOf(t, 0) == names[..0] && names == names[0..]
      ensures Grew(t, t) && Drivers(t, t) && OnWay(t, |t|, names)
    {
    }

    lemma NextNames(names: Path, k: nat, name: string, left: Path)
      requires k <= |names| && names[k..] == [name] + left
      ensures k < |names| && names[k] == name && names[k + 1..] == left
    {
      assert names[k] == names[k..][0];
      assert names[k + 1..] == names[k..][1..];
    }

    lemma StillDrivers(a: seq<VNode>, b: seq<VNode>, c: seq<VNode>)
      requires Drivers(a, b) && Drivers(b, c)
      ensures Drivers(a, c)
    {
    }

    lemma StillOnWay(a: seq<VNode>, b: seq<VNode>, c: seq<VNode>, names: Path, k: nat, node: nat)
      requires Rooted(a) && Rooted(b) && Rooted(c) && Grew(a, b) && Grew(b, c) && k < |names| && node < |c|
      requires NameOf(c, node) == names[..k] + [names[k]] && OnWay(b, |a|, names)
      requires |c| == |b| || (|c| == |b| + 1 && node == |b|)
      ensures Grew(a, c) && |a| <= |c| && NameOf(c, node) == names[..k + 1] && OnWay(c, |a|, names)
    {
      hide NameOf, Rooted;
      assert names[..k] + [names[k]] == names[..k + 1];
      forall i: nat | |a| <= i < |c|
        ensures NameOf(c, i) <= names
      {
        if i < |b| {
          GrewNames(b, c, i);
        }
      }
    }

    lemma MountEnd(a: seq<VNode>, b: seq<VNode>, c: seq<VNode>, names: Path, t: nat, driver: int)
      requires Rooted(a) && Rooted(b) && Rooted(c) && Grew(a, b) && Drivers(a, b) && OnWay(b, |a|, names)
      requires t < |b| && c == b[t := b[t].(driver := driver)] && NameOf(b, t) == names
      ensures Grew(a, c) && NameOf(c, t) == names && OnWay(c, |a|, names)
      ensures forall i: nat | i < |a| && i != t :: c[i].driver == a[i].driver
      ensures forall i: nat | |a| <= i < |c| && i != t :: c[i].driver == NONE
    {
      hide NameOf, Rooted;
      forall i: nat | i < |c|
        ensures NameOf(c, i) == NameOf(b, i)
      {
        GrewNames(b, c, i);
      }
    }

    // ----- Walking -----

    /** What a change of driver asks. */
    function Change(from: int, to_: int): seq<Asked> {
      if from == to_ then []
      else if from == NONE then [(to_, ToRoot)]
      else [(from, ToClose), (to_, ToRoot)]
    }

    lemma ChangeReplies(from: int, to_: int)
      ensures from == to_ ==> Reply(answer, Change(from, to_)) == 0 && Heard(answer, Change(from, to_)) == []
      ensures from != to_ && from == NONE ==>
                Reply(answer, Change(from, to_)) == answer(to_, ToRoot) && Heard(answer, Change(from, to_)) == [(to_, ToRoot)]
      ensures from != to_ && from != NONE ==>
                && Reply(answer, Change(from, to_)) == (if answer(from, ToClose) != 0 then answer(from, ToClose) else answer(to_, ToRoot))
                && Heard(answer, Change(from, to_)) ==
                   if answer(from, ToClose) != 0 then [(from, ToClose)] else [(from, ToClose), (to_, ToRoot)]
    {
      ReplyNone(answer);
      ReplyOne(answer, (to_, ToRoot));
      ReplyTwo(answer, (from, ToClose), (to_, ToRoot));
      hide Reply, Heard;
    }

    /** The old driver refuses to close. */
    predicate Refused(from: int, to_: int) { from != NONE && from != to_ && answer(from, ToClose) != 0 }

    lemma RefusedIs(from: int, to_: int)
      ensures Refused(from, to_) <==> from != NONE && from != to_ && answer(from, ToClose) != 0
    {
    }

    /** Brings the reference's driver in line with its node; a new driver starts at its root. */
    method Update(vref: Ref) returns (res: int)
      requires vref.node < |nodes| && nodes[vref.node].driver != NONE
      modifies vref`driver, vref`rel, `asked
      ensures res == Reply(answer, Change(old(vref.driver), nodes[vref.node].driver))
      ensures asked == old(asked) + Heard(answer, Change(old(vref.driver), nodes[vref.node].driver))
      ensures res == 0 ==> vref.driver == nodes[vref.node].driver
      ensures vref.driver == if Refused(old(vref.driver), nodes[vref.node].driver) then old(vref.driver) else nodes[vref.node].driver
      ensures vref.rel == if res != 0 || old(vref.driver) == vref.driver then old(vref.rel) else []
    {
      hide *;
      RefusedIs(vref.driver, nodes[vref.node].driver);
      ChangeReplies(vref.driver, nodes[vref.node].driver);
      if vref.driver != NONE && vref.driver != nodes[vref.node].driver {
        res := Ask(vref.driver, ToClose);
        if res != 0 {
          return;
        }
      }
      if vref.driver != nodes[vref.node].driver {
        vref.driver := nodes[vref.node].driver;
        res := Ask(vref.driver, ToRoot);
        if res == 0 {
          vref.rel := [];
        }
        return;
      }
      res := 0;
    }

    /** The driver opens a name relative to where the reference is. */
    method DriverOpen(vref: Ref, part: string) returns (res: int)
      modifies vref`rel, `asked
      ensures res == answer(vref.driver, ToOpen(old(vref.rel), part))
      ensures asked == old(asked) + [(vref.driver, ToOpen(old(vref.rel), part))]
      ensures vref.rel == if res == 0 then Walked(old(vref.rel), part) else old(vref.rel)
    {
      res := Ask(vref.driver, ToOpen(vref.rel, part));
      if res == 0 {
        vref.rel := Walked(vref.rel, part);
      }
    }

    /** A step to another mount point, or from the root to itself. */
    method ChangeMount(vref: Ref, target: nat, ghost part: string) returns (res: int)
      requires Good(vref) && Rooted(nodes) && vref.offset == 0 && target < |nodes| && nodes[target].driver != NONE
      requires InOrder(nodes, target, 0, nodes[target].driver, []) && Whole(nodes, target, []) == Walked(Where(vref), part)
      requires part != "." && (nodes[target].driver == vref.driver ==> part == ".." && vref.rel == [])
      modifies vref, `asked
      ensures res == Reply(answer, StepCalls(nodes, old(Where(vref)), part))
      ensures asked == old(asked) + Heard(answer, StepCalls(nodes, old(Where(vref)), part))
      ensures res == 0 ==> Good(vref) && Where(vref) == Walked(old(Where(vref)), part)
      ensures vref.node == target == Deepest(nodes, Walked(old(Where(vref)), part)) && vref.offset == 0
      ensures res != 0 ==>
                && target != old(vref.node) && vref.rel == old(vref.rel)
                && vref.driver == if Refused(old(vref.driver), nodes[target].driver) then old(vref.driver) else nodes[target].driver
    {
      hide *;
      GoodFacts(vref);
      ChangesThere(nodes, vref.node, vref.driver, vref.rel, target, nodes[target].driver, part);
      ChangeIs(vref.driver, nodes[target].driver);
      DeepestIs(nodes, target, 0, nodes[target].driver, []);
      ReplyNone(answer);
      vref.node := target;
      res := Update(vref);
      if res == 0 {
        MakeGood(vref);
      }
    }

    /** One name of a walk takes the reference's path one step as a plain list of names, and leaves
        it at the deepest mount point on its new path. It asks the drivers exactly what the step
        demands, up to the first error, and answers that. */
    method Enter(vref: Ref, part: string) returns (res: int)
      requires Good(vref)
      modifies vref, `asked
      ensures Rooted(nodes)
      ensures res == Reply(answer, StepCalls(nodes, old(Where(vref)), part))
      ensures asked == old(asked) + Heard(answer, StepCalls(nodes, old(Where(vref)), part))
      ensures res == 0 ==> Good(vref) && Where(vref) == Walked(old(Where(vref)), part)
      ensures res != 0 ==> vref.rel == old(vref.rel) && vref.node < |nodes|
      ensures res != 0 && vref.node == old(vref.node) ==>
                vref.driver == old(vref.driver) && vref.offset == if part == ".." then old(vref.offset) - 1 else old(vref.offset) + 1
      ensures res != 0 && vref.node != old(vref.node) ==>
                && vref.offset == old(vref.offset) && vref.node == Deepest(nodes, Walked(old(Where(vref)), part))
                && vref.driver == if Refused(old(vref.driver), nodes[vref.node].driver) then old(vref.driver) else nodes[vref.node].driver
    {
      hide Good, Where, InOrder, Tree, Rooted, NameOf, Longest, IsChild, Whole, StepCalls, Reply, Heard, Change, Deepest, Refused;
      GoodFacts(vref);
      ghost var node, driver, rel := vref.node, vref.driver, vref.rel;
      if part == "." {
        StaysPut(nodes, Where(vref));
        ReplyNone(answer);
        return 0;
      }
      if part == ".." {
        if vref.offset > 0 {
          StepUp(nodes, vref.node, vref.offset, vref.driver, vref.rel);
          OpensThere(nodes, node, vref.offset, driver, rel, vref.offset - 1, rel[..vref.offset - 1], part);
          ReplyOne(answer, (driver, ToOpen(rel, part)));
          vref.offset := vref.offset - 1;
          ChangeReplies(driver, driver);
          res := Update(vref);
          if res != 0 {
            return;
          }
          res := DriverOpen(vref, part);
          if res == 0 {
            MakeGood(vref);
          }
          return;
        }
        StepUnmount(nodes, vref.node, vref.driver, vref.rel);
        UpHasDriver(vref);
        res := ChangeMount(vref, nodes[vref.node].parent, part);
        return;
      }
      if vref.offset == 0 {
        var found, child := FindChild(vref.node, part);
        if found {
          ChildIs(vref.node, child);
          StepMount(nodes, vref.node, vref.driver, vref.rel, part, child);
          GoodDriver(child, []);
          res := ChangeMount(vref, child, part);
          return;
        }
      }
      StepDown(nodes, vref.node, vref.offset, vref.driver, vref.rel, part);
      OpensThere(nodes, node, vref.offset, driver, rel, vref.offset + 1, rel + [part], part);
      ReplyOne(answer, (driver, ToOpen(rel, part)));
      vref.offset := vref.offset + 1;
      ChangeReplies(driver, driver);
      res := Update(vref);
      if res != 0 {
        return;
      }
      res := DriverOpen(vref, part);
      if res == 0 {
        MakeGood(vref);
      }
    }

    lemma ChangeIs(from: int, to_: int)
      requires from != NONE
      ensures Change(from, to_) == if from == to_ then [] else [(from, ToClose), (to_, ToRoot)]
    {
    }

    lemma ChildIs(p: nat, i: nat)
      requires IsChild(nodes, p, i)
      ensures 0 < i < |nodes|
    {
    }

    lemma GoodDriver(node: nat, rel: Path)
      requires node < |nodes| && InOrder(nodes, node, 0, nodes[node].driver, rel)
      ensures nodes[node].driver != NONE
    {
    }

    lemma UpHasDriver(vref: Ref)
      requires Good(vref)
      ensures nodes[vref.node].parent < |nodes| && nodes[nodes[vref.node].parent].driver != NONE
    {
    }

    // ----- Opening -----

    /** Where a path starts: the root, or a copy of another reference. */
    method Start(vref: Ref, relation: Ref, path: string)
      requires Good(relation) && answer(nodes[0].driver, ToRoot) == 0
      modifies vref, `asked
      ensures Good(vref) && (vref != relation ==> Good(relation) && Where(relation) == old(Where(relation)))
      ensures Where(vref) == if Absolute(path) then [] else old(Where(relation))
      ensures asked == old(asked) + if Absolute(path) then [(nodes[0].driver, ToRoot)] else []
    {
      hide Good, Where, InOrder, Tree, Rooted, NameOf, Longest, IsChild, Whole, Reply, Heard, Change;
      GoodFacts(relation);
      StartAtRoot(relation);
      ChangeReplies(NONE, nodes[0].driver);
      ChangeReplies(relation.driver, relation.driver);
      if path != "" && path[0] == '/' {
        vref.node, vref.offset, vref.driver, vref.rel := 0, 0, NONE, [];
      } else {
        vref.node, vref.offset, vref.driver, vref.rel := relation.node, relation.offset, relation.driver, relation.rel;
      }
      var _ := Update(vref);
      MakeGood(vref);
    }

    /** Opens a path, from the root or from a reference, which may be the same one: it answers and
        asks exactly what `Opened` says. On success the reference stands for the path that plain
        list-of-names walking gives. */
    method Open(vref: Ref, relation: Ref, path: string) returns (res: int)
      requires '\0' !in path && Good(relation) && answer(nodes[0].driver, ToRoot) == 0
      modifies vref, `asked
      ensures Rooted(nodes)
      ensures vref != relation ==> Good(relation) && Where(relation) == old(Where(relation))
      ensures var start := if Absolute(path) then [] else old(Where(relation));
              var told := Opened(answer, nodes, start, Pieces(path), 0);
              && res == told.0
              && asked == old(asked) + (if Absolute(path) then [(nodes[0].driver, ToRoot)] else []) + told.1
              && (res == 0 ==> Good(vref) && Where(vref) == WalkedAll(start, Pieces(path)))
    {
      hide *;
      GoodFacts(relation);
      Start(vref, relation, path);
      ghost var names, start, asked0 := Pieces(path), Where(vref), asked;
      var cursor := new Cursor(path);
      cursor.Start();
      ghost var k: nat := 0;
      var enter, back := false, "";
      NoneEntered(start, names);
      var more, front := cursor.Resolve();
      UnreadStart(names, more, front, cursor.Left());
      ghost var goal := Opened(answer, nodes, start, names, 0);
      ToldStart(goal, asked0);
      while more
        invariant fresh(cursor) && cursor.Valid() && Unread(names, k, more, front, cursor.Left()) && Rooted(nodes)
        invariant cursor.errno == if more && |front| >= NAME_LIMIT then ENAMETOOLONG else 0
        invariant cursor.resolves == k + if more then 1 else 0
        invariant Good(vref) && (vref != relation ==> Good(relation) && Where(relation) == old(Where(relation)))
        invariant enter == (k > 0) && Entered(start, names, k, back, Where(vref))
        invariant k <= |names| && Told(goal, Opened(answer, nodes, start, names, k), asked0, asked)
        decreases |names| - k
      {
        UnreadFacts(names, k, more, front, cursor.Left());
        EnterFirst(start, names, k, back, Where(vref));
        ghost var step := NextCalls(start, names, k, back, Where(vref));
        OpenedStep(answer, nodes, start, names, k, step);
        ReplyNone(answer);
        ToldFacts(goal, Opened(answer, nodes, start, names, k), asked0, asked);
        if cursor.errno != 0 {
          return cursor.errno;
        }
        ghost var heard := asked;
        if enter {
          EnterLast(start, names, k, back, Where(vref));
          res := Enter(vref, back);
          if res != 0 {
            return;
          }
        }
        assert asked == heard + Heard(answer, step);
        if cursor.resolves > MAX_RESOLVES {
          return ELOOP;
        }
        ToldMore(goal, Opened(answer, nodes, start, names, k), Heard(answer, step),
                 Opened(answer, nodes, start, names, k + 1), asked0, heard, asked);
        NextEntered(start, names, k, Where(vref));
        ghost var left := cursor.Left();
        enter, back := true, front;
        more, front := cursor.Resolve();
        UnreadNext(names, k, back, left, more, front, cursor.Left());
        k := k + 1;
      }
      UnreadFacts(names, k, more, front, cursor.Left());
      ghost var step := NextCalls(start, names, k, back, Where(vref));
      OpenedStep(answer, nodes, start, names, k, step);
      ReplyNone(answer);
      ToldFacts(goal, Opened(answer, nodes, start, names, k), asked0, asked);
      EnteredAll(start, names, back, Where(vref));
      if enter {
        EnterLast(start, names, k, back, Where(vref));
        res := Enter(vref, back);
        return;
      }
      res := 0;
    }

    /** What is still to be answered and asked on the way to `goal`. */
    ghost predicate Told(goal: (int, seq<Asked>), left: (int, seq<Asked>), asked0: seq<Asked>, now: seq<Asked>) {
      goal.0 == left.0 && asked0 + goal.1 == now + left.1
    }

    lemma ToldStart(goal: (int, seq<Asked>), asked0: seq<Asked>)
      ensures Told(goal, goal, asked0, asked0)
    {
    }

    lemma ToldFacts(goal: (int, seq<Asked>), left: (int, seq<Asked>), asked0: seq<Asked>, now: seq<Asked>)
      requires Told(goal, left, asked0, now)
      ensures goal.0 == left.0 && asked0 + goal.1 == now + left.1 && now + [] == now
    {
    }

    lemma ToldMore(goal: (int, seq<Asked>), left: (int, seq<Asked>), step: seq<Asked>, rest: (int, seq<Asked>),
                   asked0: seq<Asked>, before: seq<Asked>, now: seq<Asked>)
      requires Told(goal, left, asked0, before) && now == before + step && left.0 == rest.0 && left.1 == step + rest.1
      ensures Told(goal, rest, asked0, now)
    {
      assert before + (step + rest.1) == (before + step) + rest.1;
    }

    /** What the next round asks. */
    lemma NextCalls(start: Path, names: Path, k: nat, back: string, place: Path) returns (step: seq<Asked>)
      requires Entered(start, names, k, back, place) && Rooted(nodes)
      ensures k <= |names|
      ensures step == if k == 0 then [] else StepCalls(nodes, WalkedAll(start, names[..k - 1]), names[k - 1])
      ensures k > 0 ==> step == StepCalls(nodes, place, back)
    {
      step := if k == 0 then [] else StepCalls(nodes, place, back);
    }

    /** k names are read, and one more if there is one. */
    ghost predicate Unread(names: Path, k: nat, more: bool, front: string, left: Path) {
      k <= |names| && names[k..] == if more then [front] + left else []
    }

    lemma UnreadStart(names: Path, more: bool, front: string, left: Path)
      requires more == (names != []) && (more ==> [front] + left == names)
      ensures Unread(names, 0, more, front, left)
    {
    }

    lemma UnreadFacts(names: Path, k: nat, more: bool, front: string, left: Path)
      requires Unread(names, k, more, front, left)
      ensures k <= |names| && (more <==> k < |names|) && (more ==> names[k] == front)
    {
      if more {
        NextNames(names, k, front, left);
      }
    }

    lemma UnreadNext(names: Path, k: nat, front: string, left: Path, more: bool, next: string, rest: Path)
      requires Unread(names, k, true, front, left) && more == (left != []) && (more ==> [next] + rest == left)
      ensures Unread(names, k + 1, more, next, rest)
    {
      NextNames(names, k, front, left);
    }

    /** A walk one name behind: at `place` all names but the last of the first k are done. */
    ghost predicate Entered(start: Path, names: Path, k: nat, back: string, place: Path) {
      k <= |names| &&
      if k == 0 then place == start
      else back == names[k - 1] && place == WalkedAll(start, names[..k - 1])
    }

    lemma NoneEntered(start: Path, names: Path)
      ensures Entered(start, names, 0, "", start) && names == names[0..]
    {
    }

    lemma EnterFirst(start: Path, names: Path, k: nat, back: string, place: Path)
      requires Entered(start, names, k, back, place)
      ensures k == 0 ==> place == start
    {
    }

    lemma EnterLast(start: Path, names: Path, k: nat, back: string, place: Path)
      requires Entered(start, names, k, back, place) && k > 0
      ensures k <= |names| && Walked(place, back) == WalkedAll(start, names[..k])
    {
      WalkedLast(start, names, k - 1);
    }

    lemma NextEntered(start: Path, names: Path, k: nat, place: Path)
      requires k < |names| && (if k == 0 then place == start else place == WalkedAll(start, names[..k]))
      ensures Entered(start, names, k + 1, names[k], place)
    {
      assert names[..0] == [];
    }

    lemma EnteredAll(start: Path, names: Path, back: string, place: Path)
      requires Entered(start, names, |names|, back, place)
      ensures names == [] ==> place == WalkedAll(start, names)
      ensures names[..|names|] == names
    {
    }

    /** The root, whatever the reference that vouches for the tree. */
    lemma StartAtRoot(vref: Ref)
      requires Good(vref)
      ensures |nodes| > 0 && nodes[0].driver != NONE && InOrder(nodes, 0, 0, nodes[0].driver, []) && Whole(nodes, 0, []) == []
    {
      LongestSelf(nodes, 0);
      assert Whole(nodes, 0, []) == NameOf(nodes, 0);
    }

    // ----- Tracing -----

    /** The driver's name for where the reference is; at its own root it has none. */
    method Lookup(vref: Ref) returns (res: int, name: string)
      ensures vref.rel != [] ==> res == 0 && name == vref.rel[|vref.rel| - 1]
      ensures vref.rel == [] ==> res != 0
    {
      if vref.rel == [] {
        return 1, "";
      }
      return 0, vref.rel[|vref.rel| - 1];
    }

    /** Climbs to the root or by 64 names, and keeps the names in the slots behind j. */
    method Climb(copy: Ref) returns (path: seq<string>, j: int)
      requires Good(copy) && Agreeable()
      modifies copy, `asked
      ensures Good(copy) && Rooted(nodes) && Where(copy) == Above(old(Where(copy)), MAX_RESOLVES)
      ensures asked == old(asked) + ClimbCalls(nodes, old(Where(copy)), MAX_RESOLVES)
      ensures -1 <= j < MAX_RESOLVES == |path| && path[j + 1..] == LastNames(old(Where(copy)))
    {
      hide *;
      GoodFacts(copy);
      ghost var whole, asked0 := Where(copy), asked;
      path := seq(MAX_RESOLVES, _ => "");
      j := MAX_RESOLVES - 1;
      TraceStart(whole, path);
      while j >= 0
        invariant -1 <= j < MAX_RESOLVES == |path| && Good(copy) && Rooted(nodes)
        invariant TracedFrom(whole, Where(copy), path, j)
        invariant Climbed(whole, Where(copy), j + 1, asked0, asked)
        decreases j
      {
        AtRoot(copy);
        if copy.node == 0 && copy.offset == 0 {
          break;
        }
        LastName(copy);
        var res, name := Lookup(copy);
        if copy.driver == NONE || res != 0 {
          name := nodes[copy.node].name;
        }
        TraceStep(whole, Where(copy), path, j, name);
        ClimbStep(whole, Where(copy), j + 1, asked0, asked);
        res := Enter(copy, "..");
        path := path[j := name];
        j := j - 1;
      }
      ClimbEnd(whole, Where(copy), j + 1, asked0, asked);
      TraceEnd(whole, Where(copy), path, j);
    }

    /** Writes the names of the slots from j on, as far as the buffer reaches. */
    method WriteNames(path: seq<string>, from: int, size: int) returns (output: string)
      requires 0 <= from <= MAX_RESOLVES == |path|
      ensures output == Fitted("/", path[from..], size)
    {
      hide *;
      var j := from;
      output := "/";
      while j < MAX_RESOLVES
        invariant from <= j <= MAX_RESOLVES == |path|
        invariant Fitted(output, path[j..], size) == Fitted("/", path[from..], size)
        decreases MAX_RESOLVES - j
      {
        FittedStep(output, path, j, size);
        var name := path[j];
        j := j + 1;
        if |output| + |name| >= size {
          return;
        }
        output := output + name + "/";
      }
      FittedEnd(output, path, size);
    }

    /** Writes the path of a reference: a slash behind the root and behind each of its last 64
        names, as far as the buffer reaches. It asks for the steps up and closes its copy. */
    method Trace(vref: Ref, size: int) returns (output: string)
      requires Good(vref) && Agreeable()
      modifies `asked
      ensures output == Fitted("/", LastNames(Where(vref)), size) && Rooted(nodes)
      ensures asked == old(asked) + ClimbCalls(nodes, Where(vref), MAX_RESOLVES)
                       + [(nodes[Deepest(nodes, Above(Where(vref), MAX_RESOLVES))].driver, ToClose)]
    {
      hide *;
      GoodFacts(vref);
      var copy := new Ref(vref.node, vref.offset, vref.driver, vref.rel);
      ChangeReplies(copy.driver, copy.driver);
      var res := Update(copy);
      MakeGood(copy);
      var path, j := Climb(copy);
      output := WriteNames(path, j + 1, size);
      GoodFacts(copy);
      DeepestIs(nodes, copy.node, copy.offset, copy.driver, copy.rel);
      res := Ask(copy.driver, ToClose);
    }

    /** A climb from `whole` has come to `place`, with at most n names to go. */
    ghost predicate Climbed(whole: Path, place: Path, n: nat, asked0: seq<Asked>, now: seq<Asked>)
      requires Rooted(nodes)
      reads `nodes
    {
      && Above(whole, MAX_RESOLVES) == Above(place, n)
      && asked0 + ClimbCalls(nodes, whole, MAX_RESOLVES) == now + ClimbCalls(nodes, place, n)
    }

    lemma ClimbStep(whole: Path, place: Path, n: nat, asked0: seq<Asked>, now: seq<Asked>)
      requires Rooted(nodes) && place != [] && n > 0 && Agreeable() && Climbed(whole, place, n, asked0, now)
      ensures var step := StepCalls(nodes, place, "..");
              && Reply(answer, step) == 0 && Heard(answer, step) == step
              && Climbed(whole, Walked(place, ".."), n - 1, asked0, now + step)
    {
      hide *;
      var step := StepCalls(nodes, place, "..");
      AgreeableIs();
      AgreedReply(answer, step);
      AllHeard(answer, step);
      ClimbUnfolds(whole, place, n, asked0, now);
      assert now + (step + ClimbCalls(nodes, Walked(place, ".."), n - 1)) == (now + step) + ClimbCalls(nodes, Walked(place, ".."), n - 1);
      MakeClimbed(whole, Walked(place, ".."), n - 1, asked0, now + step);
    }

    lemma AgreeableIs()
      requires Agreeable()
      ensures forall d: int, c: Call :: answer(d, c) == 0
    {
    }

    lemma ClimbUnfolds(whole: Path, place: Path, n: nat, asked0: seq<Asked>, now: seq<Asked>)
      requires Rooted(nodes) && place != [] && n > 0 && Climbed(whole, place, n, asked0, now)
      ensures Above(whole, MAX_RESOLVES) == Above(Walked(place, ".."), n - 1)
      ensures asked0 + ClimbCalls(nodes, whole, MAX_RESOLVES) ==
              now + (StepCalls(nodes, place, "..") + ClimbCalls(nodes, Walked(place, ".."), n - 1))
    {
      hide StepCalls, Rooted;
    }

    lemma MakeClimbed(whole: Path, place: Path, n: nat, asked0: seq<Asked>, now: seq<Asked>)
      requires Rooted(nodes) && Above(whole, MAX_RESOLVES) == Above(place, n)
      requires asked0 + ClimbCalls(nodes, whole, MAX_RESOLVES) == now + ClimbCalls(nodes, place, n)
      ensures Climbed(whole, place, n, asked0, now)
    {
    }

    lemma ClimbEnd(whole: Path, place: Path, n: nat, asked0: seq<Asked>, now: seq<Asked>)
      requires Rooted(nodes) && (place == [] || n == 0) && Climbed(whole, place, n, asked0, now)
      ensures now == asked0 + ClimbCalls(nodes, whole, MAX_RESOLVES) && place == Above(whole, MAX_RESOLVES)
    {
      assert ClimbCalls(nodes, place, n) == [] && Above(place, n) == place;
      hide ClimbCalls, Above;
      assert now + [] == now;
    }

    lemma AtRoot(vref: Ref)
      requires Good(vref)
      ensures vref.node == 0 && vref.offset == 0 <==> Where(vref) == []
    {
    }

    /** The last name of a path is the driver's, or at a mount point the node's. */
    lemma LastName(vref: Ref)
      requires Good(vref) && Where(vref) != []
      ensures vref.node < |nodes| && vref.driver != NONE
      ensures Where(vref)[|Where(vref)| - 1] ==
              if vref.rel != [] then vref.rel[|vref.rel| - 1] else nodes[vref.node].name
    {
    }

    /** The names behind slot j are the last ones of the path, and `place` is what is left of it. */
    ghost predicate TracedFrom(whole: Path, place: Path, path: seq<string>, j: int) {
      && |path| == MAX_RESOLVES && -1 <= j < MAX_RESOLVES
      && var n := MAX_RESOLVES - 1 - j;
         n <= |whole| && place == whole[..|whole| - n] && path[j + 1..] == whole[|whole| - n..]
    }

    lemma TraceStart(whole: Path, path: seq<string>)
      requires |path| == MAX_RESOLVES
      ensures TracedFrom(whole, whole, path, MAX_RESOLVES - 1)
      ensures Rooted(nodes) ==> Climbed(whole, whole, MAX_RESOLVES, asked, asked)
    {
      assert whole[..|whole|] == whole;
    }

    lemma TraceStep(whole: Path, place: Path, path: seq<string>, j: int, name: string)
      requires TracedFrom(whole, place, path, j) && 0 <= j && place != [] && name == place[|place| - 1]
      ensures |path| == MAX_RESOLVES && j < MAX_RESOLVES && TracedFrom(whole, Walked(place, ".."), path[j := name], j - 1)
    {
      var n := MAX_RESOLVES - 1 - j;
      assert path[j := name][j..] == [name] + path[j + 1..];
      assert whole[|whole| - n - 1..] == [whole[|whole| - n - 1]] + whole[|whole| - n..];
    }

    lemma TraceEnd(whole: Path, place: Path, path: seq<string>, j: int)
      requires TracedFrom(whole, place, path, j) && (j == -1 || place == [])
      ensures -1 <= j < MAX_RESOLVES && |path| == MAX_RESOLVES && path[j + 1..] == LastNames(whole)
    {
    }

    lemma FittedStep(out: string, path: seq<string>, j: nat, size: int)
      requires j < |path|
      ensures Fitted(out, path[j..], size) ==
              if |out| + |path[j]| >= size then out else Fitted(out + path[j] + "/", path[j + 1..], size)
    {
      assert path[j..][1..] == path[j + 1..];
    }

    lemma FittedEnd(out: string, path: seq<string>, size: int)
      ensures Fitted(out, path[|path|..], size) == out
    {
    }

    lemma TracedAbsolute(output: string)
      requires output != "" && output[0] == '/'
      ensures Absolute(output)
    {
    }

    lemma AgreedVerdict(start: Path, names: Path)
      requires Rooted(nodes) && Agreeable()
      ensures Opened(answer, nodes, start, names, 0).0 == Verdict(names, 0)
    {
      OpenedAgreed(answer, nodes, start, names, 0);
    }

    /** Tracing a reference and opening the result, from whatever other reference, succeeds and
        leads to the same node, offset and driver path. */
    method TraceThenOpen(vref: Ref, again: Ref, relation: Ref, size: int) returns (res: int)
      requires Good(vref) && Good(relation) && Agreeable() && again != vref
      requires |Where(vref)| <= MAX_RESOLVES && forall name | name in Where(vref) :: Plain(name)
      requires |Traced(Where(vref))| <= size
      modifies again, `asked
      ensures res == 0 && Good(vref) && Good(again) && Where(again) == Where(vref)
      ensures again.node == vref.node && again.offset == vref.offset && again.driver == vref.driver && again.rel == vref.rel
    {
      hide *;
      GoodFacts(vref);
      ghost var whole := Where(vref);
      TraceReopens(whole, size);
      var output := Trace(vref, size);
      Agrees(nodes[0].driver, ToRoot);
      TracedAbsolute(output);
      AgreedVerdict([], Pieces(output));
      res := Open(again, relation, output);
      GoodFacts(vref);
      GoodFacts(again);
      PlaceUnique(nodes, vref.node, vref.offset, vref.driver, vref.rel, again.node, again.offset, again.driver, again.rel);
    }
  }
}
