/** What holds over whole runs of the allocator, and what its tree says in leaf numbers. */
module BuddyRuns {
  import opened Powers
  import opened Words
  import opened BuddyTree
  import opened BuddyOps
  import opened BuddySearch
  import opened BuddyLayout
  import opened BuddyBits

  // ----- The invariant in leaf numbers -----

  /** Leaf b belongs to no granted block and is not reserved. */
  ghost predicate Unowned(marks: set<Node>, b: nat) {
    forall n | n in marks :: !(n.index * Pow2(n.level) <= b < (n.index + 1) * Pow2(n.level))
  }

  /** The run of 2^j leaves numbered q is free. */
  ghost predicate UnownedRun(marks: set<Node>, j: nat, q: nat) {
    forall b: nat | q * Pow2(j) <= b < (q + 1) * Pow2(j) :: Unowned(marks, b)
  }

  lemma RunMeaning(k: nat, marks: set<Node>, j: nat, q: nat)
    requires Antichain(k, marks)
    ensures AllFree(k, marks, j, q) <==> UnownedRun(marks, j, q)
  {
    AllFreeMeaning(k, marks, j, q);
    forall b: nat
      ensures FreeLeaf(k, marks, b) <==> Unowned(marks, b)
    {
      FreeLeafMeaning(k, marks, b);
    }
  }

  /** Every node strictly beneath a granted node holds zero; in every other node bit j is clear
      exactly when an aligned run of 2^j leaves below it meets no granted or reserved leaf. */
  lemma NodeMeaning(k: nat, marks: set<Node>, t: Tree, level: nat, index: nat, j: nat)
    requires Antichain(k, marks) && Canonical(k, marks, t) && level <= k && j <= level
    ensures |Look(t, level, index)| == level + 1
    ensures Beneath(k, marks, level, index) ==> Look(t, level, index) == Zeros(level)
    ensures !Beneath(k, marks, level, index) ==>
              (!Look(t, level, index)[j] <==>
               exists q: nat :: index * Pow2(level - j) <= q < (index + 1) * Pow2(level - j) && UnownedRun(marks, j, q))
  {
    assert Look(t, level, index) == Canon(k, marks, level, index);
    if !Beneath(k, marks, level, index) {
      CanonBits(k, marks, level, index);
      hide Canon, Canonical, Antichain, UnownedRun, HasRun;
      if HasRun(k, marks, level, index, j) {
        var q := BitGivesRun(k, marks, level, index, j);
        UpRange(q, level - j, index);
        RunMeaning(k, marks, j, q);
      }
      forall q: nat | index * Pow2(level - j) <= q < (index + 1) * Pow2(level - j) && UnownedRun(marks, j, q)
        ensures HasRun(k, marks, level, index, j)
      {
        UpRange(q, level - j, index);
        RunMeaning(k, marks, j, q);
        RunGivesBit(k, marks, level, index, j, q);
      }
    }
  }

  // ----- Undoing -----

  /** kmalloc then kfree, through any byte of the block, is the identity on the tree. */
  lemma GrantThenRelease(k: nat, marks: set<Node>, t: Tree, n: Node, b: nat)
    requires Antichain(k, marks) && Canonical(k, marks, t)
    requires InTree(k, n.level, n.index) && n.level < k && AllFree(k, marks, n.level, n.index)
    requires Up(b, n.level) == n.index
    ensures SameBits(k, t, Release(k, Grant(k, t, n), b))
  {
    GrantKeeps(k, marks, t, n);
    ReleaseKeeps(k, marks + {n}, Grant(k, t, n), n, b);
    assert marks + {n} - {n} == marks;
    CanonicalUnique(k, marks, t, Release(k, Grant(k, t, n), b));
  }

  /** Releasing through each of the leaves in turn. */
  function ReleaseAll(k: nat, t: Tree, leaves: seq<nat>): Tree
    requires 0 < k
    decreases |leaves|
  {
    if leaves == [] then t else ReleaseAll(k, Release(k, t, leaves[0]), leaves[1..])
  }

  /** leaves[i] lies in the block of nodes[i]; no block is named twice. */
  ghost predicate Names(marks: set<Node>, nodes: seq<Node>, leaves: seq<nat>) {
    && |nodes| == |leaves|
    && (forall i: nat | i < |nodes| :: nodes[i] in marks && Up(leaves[i], nodes[i].level) == nodes[i].index)
    && (forall i: nat, j: nat | i < j < |nodes| :: nodes[i] != nodes[j])
  }

  function Elements(nodes: seq<Node>): set<Node> { set n | n in nodes }

  lemma {:induction false} ReleaseAllCanonical(k: nat, marks: set<Node>, t: Tree, nodes: seq<Node>, leaves: seq<nat>)
    requires Antichain(k, marks) && Canonical(k, marks, t) && 0 < k && Names(marks, nodes, leaves)
    ensures Antichain(k, marks - Elements(nodes))
    ensures Canonical(k, marks - Elements(nodes), ReleaseAll(k, t, leaves))
    decreases |nodes|
  {
    if nodes == [] {
      assert marks - Elements(nodes) == marks;
    } else {
      var n, rest := nodes[0], marks - {nodes[0]};
      ReleaseKeeps(k, marks, t, n, leaves[0]);
      NamesRest(marks, nodes, leaves);
      assert Elements(nodes) == {n} + Elements(nodes[1..]) by {
        assert nodes == [n] + nodes[1..];
      }
      hide Antichain, Canonical, Release, Names;
      ReleaseAllCanonical(k, rest, Release(k, t, leaves[0]), nodes[1..], leaves[1..]);
      assert rest - Elements(nodes[1..]) == marks - Elements(nodes);
    }
  }

  lemma NamesRest(marks: set<Node>, nodes: seq<Node>, leaves: seq<nat>)
    requires Names(marks, nodes, leaves) && nodes != []
    ensures Names(marks - {nodes[0]}, nodes[1..], leaves[1..])
  {
  }

  /** Freeing every granted block, in any order and through any of their bytes, restores the tree
      that the reserved leaves alone determine. */
  lemma FreeingAllRestores(k: nat, marks: set<Node>, t: Tree, nodes: seq<Node>, leaves: seq<nat>, reserved: set<Node>, start: Tree)
    requires Antichain(k, marks) && Canonical(k, marks, t) && 0 < k && Names(marks, nodes, leaves)
    requires marks - Elements(nodes) == reserved && Canonical(k, reserved, start)
    ensures SameBits(k, start, ReleaseAll(k, t, leaves))
  {
    ReleaseAllCanonical(k, marks, t, nodes, leaves);
    CanonicalUnique(k, reserved, start, ReleaseAll(k, t, leaves));
  }

  /** Trees with the same bits are stored as the same bits. */
  lemma SameStoredBits(k: nat, base: nat, m: seq<Byte>, m2: seq<Byte>, t: Tree, u: Tree, level: nat, index: nat, j: nat)
    requires Holds(k, base, m, t) && Holds(k, base, m2, u) && SameBits(k, t, u)
    requires InTree(k, level, index) && j <= level
    ensures 8 * base + NodeBit(k, level, index) + j < 8 * |m| && 8 * base + NodeBit(k, level, index) + j < 8 * |m2|
    ensures BitAt(m, 8 * base + NodeBit(k, level, index) + j) == BitAt(m2, 8 * base + NodeBit(k, level, index) + j)
  {
    hide *;
    HoldsSpells(k, base, m, t, level, index);
    HoldsSpells(k, base, m2, u, level, index);
    SameLook(k, t, u, level, index);
    SpelledBit(m, 8 * base + NodeBit(k, level, index), Look(t, level, index), j);
    SpelledBit(m2, 8 * base + NodeBit(k, level, index), Look(u, level, index), j);
  }

  lemma SameLook(k: nat, t: Tree, u: Tree, level: nat, index: nat)
    requires SameBits(k, t, u) && InTree(k, level, index)
    ensures Look(t, level, index) == Look(u, level, index)
  {
  }

  lemma SpelledBit(m: seq<Byte>, first: nat, v: Bits, j: nat)
    requires Spells(m, first, v) && j < |v|
    ensures first + j < 8 * |m| && BitAt(m, first + j) == v[|v| - 1 - j]
  {
    var i := |v| - 1 - j;
    assert v[i] == BitAt(m, first + |v| - 1 - i);
  }

  // ----- Runs -----

  /** Marks and tree of an allocator. */
  datatype State = State(marks: set<Node>, tree: Tree)

  datatype Op =
    | DoReserve(lo: nat, hi: nat)
    | DoGrant(n: Node)
    | DoRelease(n: Node, leaf: nat)

  /** When an operation may be carried out: kmres on any leaves of the tree, kmalloc and krealloc
      grant free nodes, kfree and krealloc are given a granted block. */
  ghost predicate Allowed(k: nat, reserved: set<Node>, s: State, op: Op) {
    match op
    case DoReserve(lo, hi) => lo <= hi && InTree(k, 0, hi) && 0 < k
    case DoGrant(n) => InTree(k, n.level, n.index) && n.level < k && AllFree(k, s.marks, n.level, n.index)
    case DoRelease(n, leaf) => n in s.marks && n !in reserved && Up(leaf, n.level) == n.index && 0 < k
  }

  function Perform(k: nat, s: State, op: Op): State
    requires 0 < k && (op.DoReserve? ==> op.lo <= op.hi) && (op.DoGrant? ==> op.n.level < k)
  {
    match op
    case DoReserve(lo, hi) => State(Spared(s.marks, lo, hi) + Leaves(lo, hi), Reserve(k, s.tree, lo, hi))
    case DoGrant(n) => State(s.marks + {n}, Grant(k, s.tree, n))
    case DoRelease(n, leaf) => State(s.marks - {n}, Release(k, s.tree, leaf))
  }

  function Reserves(op: Op): set<Node> {
    if op.DoReserve? then Leaves(op.lo, op.hi) else {}
  }

  /** `s` can be reached from the empty tree by the operations in turn, having reserved `reserved`. */
  ghost predicate Reaches(k: nat, ops: seq<Op>, reserved: set<Node>, s: State)
    decreases |ops|
  {
    if ops == [] then s == State({}, map[]) && reserved == {}
    else
      var op := ops[|ops| - 1];
      exists r: State, held: set<Node> ::
        && Reaches(k, ops[..|ops| - 1], held, r) && Allowed(k, held, r, op)
        && 0 < k && (op.DoReserve? ==> op.lo <= op.hi) && (op.DoGrant? ==> op.n.level < k)
        && s == Perform(k, r, op) && reserved == held + Reserves(op)
  }

  /** In every reachable state the tree is the canonical one of its marks, the marked nodes own
      disjoint runs, and what was reserved is still marked. */
  lemma {:induction false} ReachableIsCanonical(k: nat, ops: seq<Op>, reserved: set<Node>, s: State)
    requires Reaches(k, ops, reserved, s)
    ensures Antichain(k, s.marks) && Canonical(k, s.marks, s.tree) && reserved <= s.marks && AreLeaves(reserved)
    decreases |ops|
  {
    if ops == [] {
      EmptyCanonical(k);
    } else {
      var op := ops[|ops| - 1];
      var r: State, held: set<Node> :|
        && Reaches(k, ops[..|ops| - 1], held, r) && Allowed(k, held, r, op)
        && 0 < k && (op.DoReserve? ==> op.lo <= op.hi) && (op.DoGrant? ==> op.n.level < k)
        && s == Perform(k, r, op) && reserved == held + Reserves(op);
      ReachableIsCanonical(k, ops[..|ops| - 1], held, r);
      StepKeeps(k, held, r, op);
    }
  }

  predicate AreLeaves(reserved: set<Node>) { forall n | n in reserved :: n.level == 0 }

  lemma StepKeeps(k: nat, reserved: set<Node>, s: State, op: Op)
    requires Antichain(k, s.marks) && Canonical(k, s.marks, s.tree) && reserved <= s.marks && AreLeaves(reserved)
    requires Allowed(k, reserved, s, op)
    ensures var u := Perform(k, s, op);
            && Antichain(k, u.marks) && Canonical(k, u.marks, u.tree)
            && reserved + Reserves(op) <= u.marks && AreLeaves(reserved + Reserves(op))
  {
    hide Antichain, Canonical, Leaves, Spared, AreLeaves, Grant, Release, Reserve, AllFree;
    assert reserved + {} == reserved;
    match op
    case DoReserve(lo, hi) =>
      ReserveCanonical(k, s.marks, s.tree, lo, hi);
      LeavesSpared(reserved, s.marks, lo, hi);
    case DoGrant(n) =>
      GrantKeeps(k, s.marks, s.tree, n);
    case DoRelease(n, leaf) =>
      ReleaseKeeps(k, s.marks, s.tree, n, leaf);
  }

  lemma LeavesSpared(reserved: set<Node>, marks: set<Node>, lo: nat, hi: nat)
    requires AreLeaves(reserved) && reserved <= marks
    ensures reserved <= Spared(marks, lo, hi) && AreLeaves(reserved + Leaves(lo, hi))
  {
  }

  /** No granted block ever meets a reserved leaf. */
  lemma GrantedAvoidsReserved(k: nat, ops: seq<Op>, reserved: set<Node>, s: State, n: Node, r: Node)
    requires Reaches(k, ops, reserved, s) && n in s.marks && n !in reserved && r in reserved
    ensures (n.index + 1) * Pow2(n.level) <= r.index * Pow2(r.level)
            || (r.index + 1) * Pow2(r.level) <= n.index * Pow2(n.level)
  {
    ReachableIsCanonical(k, ops, reserved, s);
    RunsDisjoint(k, s.marks, n, r);
  }
}
