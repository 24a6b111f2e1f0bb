/** Searching the canonical tree: the descent of allocate finds the lowest free run, and the
    climb of kfree's callers finds the granted block that holds a leaf. */
module BuddySearch {
  import opened Powers
  import opened BuddyTree
  import opened BuddyOps

  /** allocate: go to the left child if its bit e is clear, else to the right, down to level e. */
  function Descend(t: Tree, level: nat, index: nat, e: nat): nat
    requires e <= level
    decreases level
  {
    if level == e then index
    else if !Bit(Look(t, level - 1, 2 * index), e) then Descend(t, level - 1, 2 * index, e)
    else Descend(t, level - 1, 2 * index + 1, e)
  }

  /** `q` is a free run of 2^e leaves below node (level, index). */
  predicate RunBelow(k: nat, marks: set<Node>, level: nat, index: nat, e: nat, q: nat)
    requires e <= level
  {
    Up(q, level - e) == index && AllFree(k, marks, e, q)
  }

  ghost predicate Lowest(k: nat, marks: set<Node>, level: nat, index: nat, e: nat, q: nat)
    requires e <= level
  {
    && RunBelow(k, marks, level, index, e, q)
    && (forall r: nat | RunBelow(k, marks, level, index, e, r) :: q <= r)
  }

  lemma {:induction false} RunGivesBit(k: nat, marks: set<Node>, level: nat, index: nat, e: nat, q: nat)
    requires e <= level && RunBelow(k, marks, level, index, e, q)
    ensures HasRun(k, marks, level, index, e)
    decreases level
  {
    if e < level {
      RunGivesBit(k, marks, level - 1, Up(q, level - 1 - e), e, q);
    }
  }

  /** Bit e speaks about aligned runs: HasRun is the existence of one. */
  lemma {:induction false} BitGivesRun(k: nat, marks: set<Node>, level: nat, index: nat, e: nat) returns (q: nat)
    requires e <= level && HasRun(k, marks, level, index, e)
    ensures RunBelow(k, marks, level, index, e, q)
    decreases level
  {
    if e == level {
      q := index;
    } else if HasRun(k, marks, level - 1, 2 * index, e) {
      q := BitGivesRun(k, marks, level - 1, 2 * index, e);
      assert Up(q, level - e) == Up(q, level - 1 - e) / 2;
    } else {
      q := BitGivesRun(k, marks, level - 1, 2 * index + 1, e);
      assert Up(q, level - e) == Up(q, level - 1 - e) / 2;
    }
  }

  /** The descent stops on the lowest free run below its start. */
  lemma {:induction false} DescendFindsLowest(k: nat, marks: set<Node>, t: Tree, level: nat, index: nat, e: nat)
    requires Canonical(k, marks, t) && level <= k && e <= level
    requires !Beneath(k, marks, level, index) && HasRun(k, marks, level, index, e)
    ensures Lowest(k, marks, level, index, e, Descend(t, level, index, e))
    decreases level
  {
    if level == e {
      assert forall r: nat :: Up(r, 0) == r;
    } else {
      ChildBits(k, marks, t, level, index, e);
      hide Canonical, Look, HasRun, Bit;
      var q := Descend(t, level, index, e);
      if HasRun(k, marks, level - 1, 2 * index, e) {
        DescendFindsLowest(k, marks, t, level - 1, 2 * index, e);
      } else {
        DescendFindsLowest(k, marks, t, level - 1, 2 * index + 1, e);
      }
      assert Up(q, level - e) == Up(q, level - 1 - e) / 2;
      forall r: nat | RunBelow(k, marks, level, index, e, r)
        ensures q <= r
      {
        LowestStep(k, marks, level, index, e, q, r);
      }
    }
  }

  /** What the descent reads at the children of a node that has a free run. */
  lemma ChildBits(k: nat, marks: set<Node>, t: Tree, level: nat, index: nat, e: nat)
    requires Canonical(k, marks, t) && level <= k && e < level
    requires !Beneath(k, marks, level, index) && HasRun(k, marks, level, index, e)
    ensures !Beneath(k, marks, level - 1, 2 * index) && !Beneath(k, marks, level - 1, 2 * index + 1)
    ensures Bit(Look(t, level - 1, 2 * index), e) == !HasRun(k, marks, level - 1, 2 * index, e)
    ensures HasRun(k, marks, level - 1, 2 * index, e) || HasRun(k, marks, level - 1, 2 * index + 1, e)
  {
    if Node(level, index) in marks {
      MarkedHasNoRun(k, marks, level, index);
    }
    assert (2 * index) / 2 == index && (2 * index + 1) / 2 == index;
    CanonBits(k, marks, level - 1, 2 * index);
  }

  /** One step of the descent keeps the lowest run in view. */
  lemma LowestStep(k: nat, marks: set<Node>, level: nat, index: nat, e: nat, q: nat, r: nat)
    requires e < level && RunBelow(k, marks, level, index, e, r)
    requires var c := if HasRun(k, marks, level - 1, 2 * index, e) then 2 * index else 2 * index + 1;
             Lowest(k, marks, level - 1, c, e, q)
    ensures q <= r
  {
    var d := level - 1 - e;
    assert Up(r, level - e) == Up(r, d) / 2;
    assert RunBelow(k, marks, level - 1, Up(r, d), e, r);
    if Up(r, d) == 2 * index {
      RunGivesBit(k, marks, level - 1, 2 * index, e, r);
    } else if r < q {
      UpMonotone(r, q, d);
    }
  }

  /** The descent from a node of the tree ends in the tree. */
  lemma DescendInTree(k: nat, t: Tree, level: nat, index: nat, e: nat)
    requires InTree(k, level, index) && e <= level
    ensures InTree(k, e, Descend(t, level, index, e))
    decreases level
  {
    if level > e {
      ChildrenInTree(k, level, index);
      DescendInTree(k, t, level - 1, if !Bit(Look(t, level - 1, 2 * index), e) then 2 * index else 2 * index + 1, e);
    }
  }

  // ----- Climbing to the granted block -----

  /** Above a leaf of a marked node n every node holds zero until n itself, which is all ones. */
  lemma ClimbBits(k: nat, marks: set<Node>, t: Tree, n: Node, b: nat, level: nat)
    requires Antichain(k, marks) && Canonical(k, marks, t)
    requires n in marks && Up(b, n.level) == n.index && level <= n.level
    ensures Look(t, level, Up(b, level)) == if level == n.level then Ones(level) else Zeros(level)
  {
    UpCompose(b, level, n.level - level);
    if level < n.level {
      BeneathClimbs(k, marks, level, Up(b, level), n.level - level);
    }
  }

  /** A leaf lies in at most one marked node. */
  lemma OwnerUnique(k: nat, marks: set<Node>, m: Node, n: Node, b: nat)
    requires Antichain(k, marks) && m in marks && n in marks
    requires Up(b, m.level) == m.index && Up(b, n.level) == n.index
    ensures m == n
  {
    if m.level < n.level {
      UpCompose(b, m.level, n.level - m.level);
      BeneathClimbs(k, marks, m.level, m.index, n.level - m.level);
    } else if n.level < m.level {
      UpCompose(b, n.level, m.level - n.level);
      BeneathClimbs(k, marks, n.level, n.index, m.level - n.level);
    }
  }

  // ----- The same facts over leaf numbers -----

  /** A leaf is free exactly when no marked node's run of 2^level leaves holds it. */
  lemma FreeLeafMeaning(k: nat, marks: set<Node>, b: nat)
    requires Antichain(k, marks)
    ensures FreeLeaf(k, marks, b) <==>
              forall n | n in marks :: !(n.index * Pow2(n.level) <= b < (n.index + 1) * Pow2(n.level))
  {
    forall n | n in marks
      ensures n.index * Pow2(n.level) <= b < (n.index + 1) * Pow2(n.level) ==> !FreeLeaf(k, marks, b)
    {
      UpRange(b, n.level, n.index);
      if Up(b, n.level) == n.index && n.level > 0 {
        BeneathClimbs(k, marks, 0, b, n.level);
      }
    }
    if !FreeLeaf(k, marks, b) {
      var d := 0;
      if Node(0, b) !in marks {
        d := BeneathWitness(k, marks, 0, b);
      }
      UpRange(b, d, Up(b, d));
      assert Up(b, 0) == b;
      assert Node(d, Up(b, d)) in marks;
    }
  }

  /** A node is wholly free exactly when each leaf of its run is. */
  lemma {:induction false} AllFreeMeaning(k: nat, marks: set<Node>, level: nat, index: nat)
    ensures AllFree(k, marks, level, index) <==>
              forall b: nat | index * Pow2(level) <= b < (index + 1) * Pow2(level) :: FreeLeaf(k, marks, b)
    decreases level
  {
    if level > 0 {
      AllFreeMeaning(k, marks, level - 1, 2 * index);
      AllFreeMeaning(k, marks, level - 1, 2 * index + 1);
      SplitRun(index, Pow2(level - 1));
    }
  }

  /** Distinct marked nodes own disjoint runs of leaves. */
  lemma RunsDisjoint(k: nat, marks: set<Node>, m: Node, n: Node)
    requires Antichain(k, marks) && m in marks && n in marks && m != n
    ensures (m.index + 1) * Pow2(m.level) <= n.index * Pow2(n.level)
            || (n.index + 1) * Pow2(n.level) <= m.index * Pow2(m.level)
  {
    var a, c := m.index * Pow2(m.level), n.index * Pow2(n.level);
    var b := if a < c then c else a;
    NextRun(m.index, Pow2(m.level));
    NextRun(n.index, Pow2(n.level));
    UpRange(b, m.level, m.index);
    UpRange(b, n.level, n.index);
    hide Antichain;
    if Up(b, m.level) == m.index && Up(b, n.level) == n.index {
      OwnerUnique(k, marks, m, n, b);
    }
  }

  lemma NextRun(i: nat, p: nat)
    ensures (i + 1) * p == i * p + p && i * p >= 0
  {
  }
}
