/** The buddy tree as a value: node bits, the operations that rebuild them, and the canonical
    tree that a set of marked nodes determines.

    A marked node is a granted block or a reserved leaf.  A node of level L carries bits 0..L;
    bit j is false when an aligned free run of 2^j leaves can be found below the node. */
module BuddyTree {
  import opened Powers

  datatype Node = Node(level: nat, index: nat)

  type Bits = seq<bool>
  type Tree = map<Node, Bits>

  /** The tree has levels 0..k; level L holds 2^(k-L) nodes. */
  predicate InTree(k: nat, level: nat, index: nat) {
    level <= k && index < Pow2(k - level)
  }

  lemma ChildrenInTree(k: nat, level: nat, index: nat)
    requires InTree(k, level, index) && level > 0
    ensures InTree(k, level - 1, 2 * index) && InTree(k, level - 1, 2 * index + 1)
  {
    assert Pow2(k - (level - 1)) == 2 * Pow2(k - level);
  }

  lemma ParentInTree(k: nat, level: nat, index: nat)
    requires InTree(k, level, index) && level < k
    ensures InTree(k, level + 1, index / 2)
  {
    assert Pow2(k - level) == 2 * Pow2(k - (level + 1));
  }

  /** A node that was never written holds zero. */
  function Look(t: Tree, level: nat, index: nat): Bits {
    if Node(level, index) in t then t[Node(level, index)] else Zeros(level)
  }

  function Put(t: Tree, level: nat, index: nat, v: Bits): Tree {
    t[Node(level, index) := v]
  }

  function Zeros(level: nat): Bits { seq(level + 1, _ => false) }

  function Ones(level: nat): Bits { seq(level + 1, _ => true) }

  predicate Bit(v: Bits, j: int) { 0 <= j < |v| && v[j] }

  /** The value buddify gives a node from its children: an area is free below it if it is free
      below a child, and the whole node is free if the whole of both children is. */
  function Join(level: nat, left: Bits, right: Bits): (v: Bits)
    ensures |v| == level + 1
  {
    seq(level, j => Bit(left, j) && Bit(right, j)) + [Bit(left, level - 1) || Bit(right, level - 1)]
  }

  lemma JoinBit(level: nat, left: Bits, right: Bits, j: nat)
    requires |left| == |right| == level && j <= level && level > 0
    ensures Join(level, left, right)[j] == if j < level then left[j] && right[j] else left[level - 1] || right[level - 1]
  {
  }

  // ----- Marked nodes -----

  /** Some proper ancestor of the node is marked. */
  predicate Beneath(k: nat, marks: set<Node>, level: nat, index: nat)
    decreases k - level
  {
    level < k && (Node(level + 1, index / 2) in marks || Beneath(k, marks, level + 1, index / 2))
  }

  /** The marked nodes lie in the tree and none is beneath another. */
  ghost predicate Antichain(k: nat, marks: set<Node>) {
    forall n | n in marks :: InTree(k, n.level, n.index) && !Beneath(k, marks, n.level, n.index)
  }

  predicate FreeLeaf(k: nat, marks: set<Node>, b: nat) {
    Node(0, b) !in marks && !Beneath(k, marks, 0, b)
  }

  /** Every leaf below the node is free. */
  predicate AllFree(k: nat, marks: set<Node>, level: nat, index: nat)
    decreases level
  {
    if level == 0 then FreeLeaf(k, marks, index)
    else AllFree(k, marks, level - 1, 2 * index) && AllFree(k, marks, level - 1, 2 * index + 1)
  }

  /** Some aligned run of 2^j leaves below the node is free. */
  predicate HasRun(k: nat, marks: set<Node>, level: nat, index: nat, j: nat)
    requires j <= level
    decreases level
  {
    if j == level then AllFree(k, marks, level, index)
    else HasRun(k, marks, level - 1, 2 * index, j) || HasRun(k, marks, level - 1, 2 * index + 1, j)
  }

  /** The bits that the marked nodes alone determine. */
  function Canon(k: nat, marks: set<Node>, level: nat, index: nat): (v: Bits)
    ensures |v| == level + 1
    decreases level
  {
    if Beneath(k, marks, level, index) then Zeros(level)
    else if Node(level, index) in marks then Ones(level)
    else if level == 0 then [false]
    else Join(level, Canon(k, marks, level - 1, 2 * index), Canon(k, marks, level - 1, 2 * index + 1))
  }

  /** Canonical bits depend on the children's bits and on the marks at and above the node. */
  lemma CanonSame(k: nat, marks: set<Node>, more: set<Node>, level: nat, index: nat)
    requires Beneath(k, more, level, index) <==> Beneath(k, marks, level, index)
    requires Node(level, index) in more <==> Node(level, index) in marks
    requires level > 0 ==>
               && Canon(k, more, level - 1, 2 * index) == Canon(k, marks, level - 1, 2 * index)
               && Canon(k, more, level - 1, 2 * index + 1) == Canon(k, marks, level - 1, 2 * index + 1)
    ensures Canon(k, more, level, index) == Canon(k, marks, level, index)
  {
    hide Beneath, Join;
  }

  ghost predicate Canonical(k: nat, marks: set<Node>, t: Tree) {
    forall l: nat, i: nat {:trigger Look(t, l, i)} | l <= k :: Look(t, l, i) == Canon(k, marks, l, i)
  }

  ghost predicate SameBits(k: nat, t: Tree, u: Tree) {
    forall l: nat, i: nat | l <= k :: Look(t, l, i) == Look(u, l, i)
  }

  /** The tree is a function of the marked nodes alone. */
  lemma CanonicalUnique(k: nat, marks: set<Node>, t: Tree, u: Tree)
    requires Canonical(k, marks, t) && Canonical(k, marks, u)
    ensures SameBits(k, t, u)
  {
  }

  // ----- What the bits mean -----

  lemma {:induction false} MarkedHasNoRun(k: nat, marks: set<Node>, level: nat, index: nat)
    requires level <= k
    requires Node(level, index) in marks || Beneath(k, marks, level, index)
    ensures !AllFree(k, marks, level, index)
    ensures forall j | 0 <= j <= level :: !HasRun(k, marks, level, index, j)
    decreases level
  {
    if level > 0 {
      assert (2 * index) / 2 == index && (2 * index + 1) / 2 == index;
      MarkedHasNoRun(k, marks, level - 1, 2 * index);
      MarkedHasNoRun(k, marks, level - 1, 2 * index + 1);
    }
  }

  /** The invariant of the allocator, read off the canonical tree: bit j of a node that is not
      strictly beneath a marked node is clear exactly when a free run of 2^j leaves lies below. */
  lemma {:induction false} CanonBits(k: nat, marks: set<Node>, level: nat, index: nat)
    requires level <= k
    requires !Beneath(k, marks, level, index)
    ensures forall j | 0 <= j <= level :: Canon(k, marks, level, index)[j] == !HasRun(k, marks, level, index, j)
    decreases level
  {
    if Node(level, index) in marks {
      MarkedHasNoRun(k, marks, level, index);
    } else if level > 0 {
      assert (2 * index) / 2 == index && (2 * index + 1) / 2 == index;
      CanonBits(k, marks, level - 1, 2 * index);
      CanonBits(k, marks, level - 1, 2 * index + 1);
      var left, right := Canon(k, marks, level - 1, 2 * index), Canon(k, marks, level - 1, 2 * index + 1);
      forall j | 0 <= j <= level
        ensures Join(level, left, right)[j] == !HasRun(k, marks, level, index, j)
      {
        JoinBit(level, left, right, j);
        if j < level {
          assert left[j] == !HasRun(k, marks, level - 1, 2 * index, j);
          assert right[j] == !HasRun(k, marks, level - 1, 2 * index + 1, j);
        } else {
          assert left[level - 1] == !HasRun(k, marks, level - 1, 2 * index, level - 1);
          assert right[level - 1] == !HasRun(k, marks, level - 1, 2 * index + 1, level - 1);
        }
      }
    }
  }

  /** A node below which everything is free holds zero. */
  lemma {:induction false} FreeIsZero(k: nat, marks: set<Node>, level: nat, index: nat)
    requires level <= k && AllFree(k, marks, level, index)
    ensures Node(level, index) !in marks && !Beneath(k, marks, level, index)
    ensures Canon(k, marks, level, index) == Zeros(level)
    decreases level
  {
    if Node(level, index) in marks || Beneath(k, marks, level, index) {
      MarkedHasNoRun(k, marks, level, index);
    }
    if level > 0 {
      FreeIsZero(k, marks, level - 1, 2 * index);
      FreeIsZero(k, marks, level - 1, 2 * index + 1);
    }
  }

  /** ... and conversely a node not strictly beneath a mark holds zero only if all is free. */
  lemma ZeroIsFree(k: nat, marks: set<Node>, level: nat, index: nat)
    requires level <= k && !Beneath(k, marks, level, index)
    ensures Canon(k, marks, level, index) == Zeros(level) <==> AllFree(k, marks, level, index)
  {
    CanonBits(k, marks, level, index);
    if AllFree(k, marks, level, index) {
      FreeIsZero(k, marks, level, index);
    } else {
      assert Canon(k, marks, level, index)[level];
    }
  }

  // ----- Ancestors -----

  /** `index` is the ancestor, `level - l0` levels up, of some node in [lo, hi] of level l0. */
  predicate Above(l0: nat, lo: nat, hi: nat, level: nat, index: nat) {
    l0 < level && Up(lo, level - l0) <= index <= Up(hi, level - l0)
  }

  /** Node (level, index) equals (l0, i0) or is an ancestor of it. */
  predicate OnPath(l0: nat, i0: nat, level: nat, index: nat) {
    l0 <= level && Up(i0, level - l0) == index
  }

  lemma {:induction false} BeneathClimbs(k: nat, marks: set<Node>, level: nat, index: nat, d: nat)
    requires level + d <= k
    requires Beneath(k, marks, level + d, Up(index, d)) || (d > 0 && Node(level + d, Up(index, d)) in marks)
    ensures Beneath(k, marks, level, index)
    decreases d
  {
    if d > 0 {
      UpShift(index, d - 1);
      if Node(level + 1, index / 2) !in marks {
        BeneathClimbs(k, marks, level + 1, index / 2, d - 1);
      }
    }
  }

  /** A proper ancestor of an unmarked node that is not beneath a mark is itself such a node. */
  lemma ClearAbove(k: nat, marks: set<Node>, level: nat, index: nat, d: nat)
    requires level + d <= k && !Beneath(k, marks, level, index) && d > 0
    ensures Node(level + d, Up(index, d)) !in marks && !Beneath(k, marks, level + d, Up(index, d))
  {
    if Beneath(k, marks, level + d, Up(index, d)) || Node(level + d, Up(index, d)) in marks {
      BeneathClimbs(k, marks, level, index, d);
    }
  }

  /** A node is beneath a mark only because some proper ancestor is marked. */
  lemma {:induction false} BeneathWitness(k: nat, marks: set<Node>, level: nat, index: nat) returns (d: nat)
    requires level <= k && Beneath(k, marks, level, index)
    ensures 0 < d && level + d <= k && Node(level + d, Up(index, d)) in marks
    decreases k - level
  {
    if Node(level + 1, index / 2) in marks {
      d := 1;
      assert Up(index, 1) == Up(index, 0) / 2;
    } else {
      d := BeneathWitness(k, marks, level + 1, index / 2);
      UpShift(index, d);
      d := d + 1;
    }
  }

  // ----- Adding one mark -----

  /** Marking n changes which nodes are beneath a mark only below n. */
  lemma {:induction false} BeneathAdd(k: nat, marks: set<Node>, n: Node, level: nat, index: nat)
    requires level <= k && n.level <= k
    ensures Beneath(k, marks + {n}, level, index) <==>
              Beneath(k, marks, level, index)
              || (level < n.level && Up(index, n.level - level) == n.index)
    decreases k - level
  {
    if level < k {
      BeneathAdd(k, marks, n, level + 1, index / 2);
      if level + 1 <= n.level {
        UpShift(index, n.level - level - 1);
      }
    }
  }

  /** The children of a node that is neither below nor above n are not either. */
  lemma ElsewhereChild(n: Node, level: nat, index: nat, c: nat)
    requires level > 0 && c / 2 == index
    requires !OnPath(n.level, n.index, level, index)
    requires !OnPath(level, index, n.level, n.index)
    ensures !OnPath(n.level, n.index, level - 1, c)
    ensures !OnPath(level - 1, c, n.level, n.index)
  {
    if level <= n.level {
      UpShift(c, n.level - level);
    }
  }

  /** Marking n leaves the canonical bits of every node that is neither below nor above n. */
  lemma {:induction false} CanonAddElsewhere(k: nat, marks: set<Node>, n: Node, level: nat, index: nat)
    requires level <= k && n.level <= k
    requires !OnPath(n.level, n.index, level, index)
    requires !OnPath(level, index, n.level, n.index)
    ensures Canon(k, marks + {n}, level, index) == Canon(k, marks, level, index)
    decreases level
  {
    BeneathAdd(k, marks, n, level, index);
    assert Node(level, index) != n;
    hide *;
    if level > 0 {
      ElsewhereChild(n, level, index, 2 * index);
      ElsewhereChild(n, level, index, 2 * index + 1);
      CanonAddElsewhere(k, marks, n, level - 1, 2 * index);
      CanonAddElsewhere(k, marks, n, level - 1, 2 * index + 1);
    }
    CanonSame(k, marks, marks + {n}, level, index);
  }

  /** Everything below a wholly free node is wholly free. */
  lemma {:induction false} AllFreeBelow(k: nat, marks: set<Node>, level: nat, index: nat, d: nat)
    requires level + d <= k && AllFree(k, marks, level + d, Up(index, d))
    ensures AllFree(k, marks, level, index)
    decreases d
  {
    if d > 0 {
      var p := Up(index, d - 1);
      assert p == 2 * (p / 2) || p == 2 * (p / 2) + 1;
      AllFreeBelow(k, marks, level, index, d - 1);
    }
  }

  /** What marking a wholly free node n does to the canonical bits of every node that is not
      a proper ancestor of n: n itself becomes all ones and nothing else changes. */
  lemma CanonAdd(k: nat, marks: set<Node>, n: Node, level: nat, index: nat)
    requires level <= k && n.level <= k && AllFree(k, marks, n.level, n.index)
    requires !(n.level < level && OnPath(n.level, n.index, level, index))
    ensures Canon(k, marks + {n}, level, index) ==
            if Node(level, index) == n then Ones(level) else Canon(k, marks, level, index)
  {
    BeneathAdd(k, marks, n, level, index);
    if Node(level, index) == n {
      FreeIsZero(k, marks, level, index);
    } else if OnPath(level, index, n.level, n.index) && level < n.level {
      AllFreeBelow(k, marks, level, index, n.level - level);
      FreeIsZero(k, marks, level, index);
    } else {
      CanonAddElsewhere(k, marks, n, level, index);
    }
  }

  /** A granted node joins the antichain. */
  lemma AntichainAdd(k: nat, marks: set<Node>, n: Node)
    requires Antichain(k, marks) && InTree(k, n.level, n.index)
    requires AllFree(k, marks, n.level, n.index)
    ensures n !in marks && Antichain(k, marks + {n})
  {
    FreeIsZero(k, marks, n.level, n.index);
    forall m | m in marks + {n}
      ensures InTree(k, m.level, m.index) && !Beneath(k, marks + {n}, m.level, m.index)
    {
      BeneathAdd(k, marks, n, m.level, m.index);
      if m.level < n.level && Up(m.index, n.level - m.level) == n.index {
        AllFreeBelow(k, marks, m.level, m.index, n.level - m.level);
        FreeIsZero(k, marks, m.level, m.index);
      }
    }
  }

  lemma BeneathSubset(k: nat, small: set<Node>, large: set<Node>, level: nat, index: nat)
    requires small <= large && level <= k && Beneath(k, small, level, index)
    ensures Beneath(k, large, level, index)
  {
    var d := BeneathWitness(k, small, level, index);
    BeneathClimbs(k, large, level, index, d);
  }

  lemma {:induction false} AllFreeIfUnmarked(k: nat, marks: set<Node>, level: nat, index: nat)
    requires level <= k && !Beneath(k, marks, level, index)
    requires forall m | m in marks && m.level <= level && m.level <= k :: Up(m.index, level - m.level) != index
    ensures AllFree(k, marks, level, index)
    decreases level
  {
    assert Up(index, 0) == index;
    assert Node(level, index) !in marks;
    if level > 0 {
      forall m | m in marks && m.level <= level - 1 && m.level <= k
        ensures Up(m.index, level - 1 - m.level) / 2 != index
      {
        assert Up(m.index, level - m.level) == Up(m.index, level - 1 - m.level) / 2;
      }
      AllFreeIfUnmarked(k, marks, level - 1, 2 * index);
      AllFreeIfUnmarked(k, marks, level - 1, 2 * index + 1);
    }
  }

  /** Dropping a mark leaves its node wholly free and the rest an antichain. */
  lemma AntichainRemove(k: nat, marks: set<Node>, n: Node)
    requires Antichain(k, marks) && n in marks
    ensures Antichain(k, marks - {n}) && AllFree(k, marks - {n}, n.level, n.index)
  {
    var rest := marks - {n};
    forall m | m in rest
      ensures !Beneath(k, rest, m.level, m.index)
    {
      if Beneath(k, rest, m.level, m.index) {
        BeneathSubset(k, rest, marks, m.level, m.index);
      }
    }
    if Beneath(k, rest, n.level, n.index) {
      BeneathSubset(k, rest, marks, n.level, n.index);
    }
    forall m | m in rest && m.level <= n.level && m.level <= k
      ensures Up(m.index, n.level - m.level) != n.index
    {
      if Up(m.index, n.level - m.level) == n.index && m.level < n.level {
        BeneathClimbs(k, marks, m.level, m.index, n.level - m.level);
      }
    }
    AllFreeIfUnmarked(k, rest, n.level, n.index);
  }

  // ----- Rebuilding the ancestors of changed leaves -----

  /** `u` is `t` with every proper ancestor of nodes lo..hi of level l0 recomputed from its
      children, all other nodes kept. */
  ghost predicate Rebuilt(k: nat, l0: nat, lo: nat, hi: nat, t: Tree, u: Tree) {
    forall l: nat, i: nat {:trigger RebuiltAt(l0, lo, hi, t, u, l, i)} | l <= k :: RebuiltAt(l0, lo, hi, t, u, l, i)
  }

  ghost predicate RebuiltAt(l0: nat, lo: nat, hi: nat, t: Tree, u: Tree, l: nat, i: nat) {
    Look(u, l, i) ==
    if Above(l0, lo, hi, l, i) then Join(l, Look(u, l - 1, 2 * i), Look(u, l - 1, 2 * i + 1)) else Look(t, l, i)
  }

  /** Rebuilding has one result. */
  lemma {:induction false} RebuiltUnique(k: nat, l0: nat, lo: nat, hi: nat, t: Tree, u: Tree, v: Tree, l: nat, i: nat)
    requires Rebuilt(k, l0, lo, hi, t, u) && Rebuilt(k, l0, lo, hi, t, v) && l <= k
    ensures Look(u, l, i) == Look(v, l, i)
    decreases l
  {
    assert RebuiltAt(l0, lo, hi, t, u, l, i) && RebuiltAt(l0, lo, hi, t, v, l, i);
    hide Look, Join;
    if Above(l0, lo, hi, l, i) {
      RebuiltUnique(k, l0, lo, hi, t, u, v, l - 1, 2 * i);
      RebuiltUnique(k, l0, lo, hi, t, u, v, l - 1, 2 * i + 1);
    }
  }

  /** Every node that is not to be rebuilt already has its canonical bits, and no node to be
      rebuilt is marked or beneath a mark. */
  ghost predicate Ready(k: nat, marks: set<Node>, l0: nat, lo: nat, hi: nat, t: Tree) {
    forall l: nat, i: nat {:trigger ReadyAt(k, marks, l0, lo, hi, t, l, i)} | l <= k :: ReadyAt(k, marks, l0, lo, hi, t, l, i)
  }

  ghost predicate ReadyAt(k: nat, marks: set<Node>, l0: nat, lo: nat, hi: nat, t: Tree, l: nat, i: nat) {
    if Above(l0, lo, hi, l, i) then Node(l, i) !in marks && !Beneath(k, marks, l, i)
    else Look(t, l, i) == Canon(k, marks, l, i)
  }

  /** If every node that is not rebuilt already has its canonical bits, and no rebuilt node is
      marked or beneath a mark, rebuilding makes the whole tree canonical. */
  lemma {:induction false} RebuiltCanonical(k: nat, marks: set<Node>, l0: nat, lo: nat, hi: nat, t: Tree, u: Tree, l: nat, i: nat)
    requires Rebuilt(k, l0, lo, hi, t, u) && Ready(k, marks, l0, lo, hi, t) && l <= k
    ensures Look(u, l, i) == Canon(k, marks, l, i)
    decreases l
  {
    assert RebuiltAt(l0, lo, hi, t, u, l, i) && ReadyAt(k, marks, l0, lo, hi, t, l, i);
    hide Look, Join, Rebuilt, Ready;
    if Above(l0, lo, hi, l, i) {
      RebuiltCanonical(k, marks, l0, lo, hi, t, u, l - 1, 2 * i);
      RebuiltCanonical(k, marks, l0, lo, hi, t, u, l - 1, 2 * i + 1);
    }
  }

  // ----- The empty tree -----

  lemma {:induction false} NothingBeneath(k: nat, level: nat, index: nat)
    ensures !Beneath(k, {}, level, index)
    decreases k - level
  {
    if level < k {
      NothingBeneath(k, level + 1, index / 2);
    }
  }

  lemma {:induction false} NothingMarked(k: nat, level: nat, index: nat)
    ensures Canon(k, {}, level, index) == Zeros(level)
    decreases level
  {
    NothingBeneath(k, level, index);
    if level > 0 {
      NothingMarked(k, level - 1, 2 * index);
      NothingMarked(k, level - 1, 2 * index + 1);
    }
  }

  lemma EmptyCanonical(k: nat)
    ensures Canonical(k, {}, map[]) && Antichain(k, {})
  {
    forall l: nat, i: nat | l <= k
      ensures Look(map[], l, i) == Canon(k, {}, l, i)
    {
      NothingMarked(k, l, i);
    }
  }
}
