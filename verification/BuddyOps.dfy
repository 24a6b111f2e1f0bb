/** The allocator's passes over the tree, and the proof that each keeps the tree canonical. */
module BuddyOps {
  import opened Powers
  import opened BuddyTree

  function Buddify(t: Tree, level: nat, index: nat): Tree
    requires level > 0
  {
    Put(t, level, index, Join(level, Look(t, level - 1, 2 * index), Look(t, level - 1, 2 * index + 1)))
  }

  /** Buddify every proper ancestor of the node, bottom to top. */
  function FullBuddify(k: nat, t: Tree, level: nat, index: nat): Tree
    requires level < k
    decreases k - level
  {
    var u := Buddify(t, level + 1, index / 2);
    if level + 1 < k then FullBuddify(k, u, level + 1, index / 2) else u
  }

  /** Buddify nodes lo..hi of one level. */
  function LevelBuddify(t: Tree, level: nat, lo: nat, hi: nat): Tree
    requires level > 0 && lo <= hi + 1
    decreases hi + 1 - lo
  {
    if lo > hi then t else LevelBuddify(Buddify(t, level, lo), level, lo + 1, hi)
  }

  /** Level by level, buddify the ancestors of nodes lo..hi. */
  function AreaBuddify(k: nat, t: Tree, level: nat, lo: nat, hi: nat): Tree
    requires level < k && lo <= hi
    decreases k - level
  {
    var u := LevelBuddify(t, level + 1, lo / 2, hi / 2);
    if level + 1 < k then AreaBuddify(k, u, level + 1, lo / 2, hi / 2) else u
  }

  /** The slow way: a full pass for each leaf of lo..hi in turn. */
  function FullBuddifyEach(k: nat, t: Tree, lo: nat, hi: nat): Tree
    requires 0 < k && lo <= hi
    decreases hi - lo
  {
    var u := if lo < hi then FullBuddifyEach(k, t, lo, hi - 1) else t;
    FullBuddify(k, u, 0, hi)
  }

  // ----- Every pass rebuilds exactly the ancestors -----

  lemma BuddifyIs(t: Tree, level: nat, index: nat)
    requires level > 0
    ensures Buddify(t, level, index) == Put(t, level, index, Join(level, Look(t, level - 1, 2 * index), Look(t, level - 1, 2 * index + 1)))
  {
  }

  lemma BuddifyLook(t: Tree, level: nat, index: nat, l: nat, i: nat)
    requires level > 0
    ensures Look(Buddify(t, level, index), l, i) ==
            if l == level && i == index then Join(l, Look(t, l - 1, 2 * i), Look(t, l - 1, 2 * i + 1)) else Look(t, l, i)
  {
  }

  lemma FullStep(k: nat, t: Tree, level: nat, index: nat)
    requires level < k
    ensures FullBuddify(k, t, level, index) ==
            var u := Buddify(t, level + 1, index / 2);
            if level + 1 < k then FullBuddify(k, u, level + 1, index / 2) else u
  {
  }

  lemma AreaStep(k: nat, t: Tree, level: nat, lo: nat, hi: nat)
    requires level < k && lo <= hi
    ensures AreaBuddify(k, t, level, lo, hi) ==
            var u := LevelBuddify(t, level + 1, lo / 2, hi / 2);
            if level + 1 < k then AreaBuddify(k, u, level + 1, lo / 2, hi / 2) else u
  {
  }

  lemma LevelStep(t: Tree, level: nat, lo: nat, hi: nat)
    requires level > 0 && lo <= hi
    ensures LevelBuddify(t, level, lo, hi) == LevelBuddify(Buddify(t, level, lo), level, lo + 1, hi)
  {
  }

  lemma LevelDone(t: Tree, level: nat, lo: nat, hi: nat)
    requires level > 0 && lo == hi + 1
    ensures LevelBuddify(t, level, lo, hi) == t
  {
  }

  /** The ancestors of a node are its parent and the ancestors of its parent. */
  lemma AboveStep(l0: nat, lo: nat, hi: nat, l: nat, i: nat)
    ensures Above(l0, lo, hi, l, i) <==>
              (l == l0 + 1 && lo / 2 <= i <= hi / 2) || Above(l0 + 1, lo / 2, hi / 2, l, i)
  {
    if l == l0 + 1 {
      assert Up(lo, 1) == Up(lo, 0) / 2 && Up(hi, 1) == Up(hi, 0) / 2;
    } else if l > l0 + 1 {
      UpShift(lo, l - l0 - 1);
      UpShift(hi, l - l0 - 1);
    }
  }

  lemma {:induction false} FullKeeps(k: nat, t: Tree, level: nat, index: nat, l: nat, i: nat)
    requires level < k && !Above(level, index, index, l, i)
    ensures Look(FullBuddify(k, t, level, index), l, i) == Look(t, l, i)
    decreases k - level
  {
    hide Look, Buddify, Above, FullBuddify;
    FullStep(k, t, level, index);
    BuddifyLook(t, level + 1, index / 2, l, i);
    AboveStep(level, index, index, l, i);
    if level + 1 < k {
      FullKeeps(k, Buddify(t, level + 1, index / 2), level + 1, index / 2, l, i);
    }
  }

  lemma NotAboveBelow(l0: nat, lo: nat, hi: nat, l: nat, i: nat)
    requires l <= l0
    ensures !Above(l0, lo, hi, l, i)
  {
  }

  lemma {:induction false} FullJoins(k: nat, t: Tree, level: nat, index: nat, l: nat, i: nat)
    requires level < k && level < l <= k && Above(level, index, index, l, i)
    ensures var v := FullBuddify(k, t, level, index);
            Look(v, l, i) == Join(l, Look(v, l - 1, 2 * i), Look(v, l - 1, 2 * i + 1))
    decreases k - level
  {
    hide Look, Buddify, Above, Join, FullBuddify;
    FullStep(k, t, level, index);
    AboveStep(level, index, index, l, i);
    var u := Buddify(t, level + 1, index / 2);
    if l > level + 1 {
      FullJoins(k, u, level + 1, index / 2, l, i);
    } else {
      NotAboveBelow(level + 1, index / 2, index / 2, l, i);
      NotAboveBelow(level + 1, index / 2, index / 2, l - 1, 2 * i);
      NotAboveBelow(level + 1, index / 2, index / 2, l - 1, 2 * i + 1);
      BuddifyLook(t, level + 1, index / 2, l, i);
      BuddifyLook(t, level + 1, index / 2, l - 1, 2 * i);
      BuddifyLook(t, level + 1, index / 2, l - 1, 2 * i + 1);
      if level + 1 < k {
        FullKeeps(k, u, level + 1, index / 2, l, i);
        FullKeeps(k, u, level + 1, index / 2, l - 1, 2 * i);
        FullKeeps(k, u, level + 1, index / 2, l - 1, 2 * i + 1);
      }
    }
  }

  lemma FullRebuilds(k: nat, t: Tree, level: nat, index: nat)
    requires level < k
    ensures Rebuilt(k, level, index, index, t, FullBuddify(k, t, level, index))
  {
    hide Look, FullBuddify, Join;
    forall l: nat, i: nat | l <= k
      ensures RebuiltAt(level, index, index, t, FullBuddify(k, t, level, index), l, i)
    {
      if Above(level, index, index, l, i) {
        FullJoins(k, t, level, index, l, i);
      } else {
        FullKeeps(k, t, level, index, l, i);
      }
    }
  }

  /** One level's pass puts Join values at lo..hi and touches nothing else. */
  lemma {:induction false} LevelEffect(t: Tree, level: nat, lo: nat, hi: nat, l: nat, i: nat)
    requires level > 0 && lo <= hi + 1
    ensures Look(LevelBuddify(t, level, lo, hi), l, i) ==
            if l == level && lo <= i <= hi then Join(l, Look(t, l - 1, 2 * i), Look(t, l - 1, 2 * i + 1)) else Look(t, l, i)
    decreases hi + 1 - lo
  {
    hide Look, Buddify, Join;
    if lo <= hi {
      BuddifyLook(t, level, lo, l, i);
      if l == level {
        BuddifyLook(t, level, lo, l - 1, 2 * i);
        BuddifyLook(t, level, lo, l - 1, 2 * i + 1);
      }
      LevelEffect(Buddify(t, level, lo), level, lo + 1, hi, l, i);
    }
  }

  lemma {:induction false} AreaKeeps(k: nat, t: Tree, level: nat, lo: nat, hi: nat, l: nat, i: nat)
    requires level < k && lo <= hi && !Above(level, lo, hi, l, i)
    ensures Look(AreaBuddify(k, t, level, lo, hi), l, i) == Look(t, l, i)
    decreases k - level
  {
    hide Look, LevelBuddify, Above, AreaBuddify;
    AreaStep(k, t, level, lo, hi);
    AboveStep(level, lo, hi, l, i);
    LevelEffect(t, level + 1, lo / 2, hi / 2, l, i);
    if level + 1 < k {
      AreaKeeps(k, LevelBuddify(t, level + 1, lo / 2, hi / 2), level + 1, lo / 2, hi / 2, l, i);
    }
  }

  lemma {:induction false} AreaJoins(k: nat, t: Tree, level: nat, lo: nat, hi: nat, l: nat, i: nat)
    requires level < k && lo <= hi && level < l <= k && Above(level, lo, hi, l, i)
    ensures var v := AreaBuddify(k, t, level, lo, hi);
            Look(v, l, i) == Join(l, Look(v, l - 1, 2 * i), Look(v, l - 1, 2 * i + 1))
    decreases k - level
  {
    hide Look, LevelBuddify, Above, Join, AreaBuddify;
    AreaStep(k, t, level, lo, hi);
    AboveStep(level, lo, hi, l, i);
    var u := LevelBuddify(t, level + 1, lo / 2, hi / 2);
    if l > level + 1 {
      AreaJoins(k, u, level + 1, lo / 2, hi / 2, l, i);
    } else {
      NotAboveBelow(level + 1, lo / 2, hi / 2, l, i);
      NotAboveBelow(level + 1, lo / 2, hi / 2, l - 1, 2 * i);
      NotAboveBelow(level + 1, lo / 2, hi / 2, l - 1, 2 * i + 1);
      LevelEffect(t, level + 1, lo / 2, hi / 2, l, i);
      LevelEffect(t, level + 1, lo / 2, hi / 2, l - 1, 2 * i);
      LevelEffect(t, level + 1, lo / 2, hi / 2, l - 1, 2 * i + 1);
      if level + 1 < k {
        AreaKeeps(k, u, level + 1, lo / 2, hi / 2, l, i);
        AreaKeeps(k, u, level + 1, lo / 2, hi / 2, l - 1, 2 * i);
        AreaKeeps(k, u, level + 1, lo / 2, hi / 2, l - 1, 2 * i + 1);
      }
    }
  }

  lemma AreaRebuilds(k: nat, t: Tree, level: nat, lo: nat, hi: nat)
    requires level < k && lo <= hi
    ensures Rebuilt(k, level, lo, hi, t, AreaBuddify(k, t, level, lo, hi))
  {
    hide Look, AreaBuddify, Join;
    forall l: nat, i: nat | l <= k
      ensures RebuiltAt(level, lo, hi, t, AreaBuddify(k, t, level, lo, hi), l, i)
    {
      if Above(level, lo, hi, l, i) {
        AreaJoins(k, t, level, lo, hi, l, i);
      } else {
        AreaKeeps(k, t, level, lo, hi, l, i);
      }
    }
  }

  lemma {:induction false} UpPrevious(i: nat, d: nat)
    requires i > 0
    ensures Up(i, d) <= Up(i - 1, d) + 1
  {
    if d > 0 {
      UpPrevious(i, d - 1);
    }
  }

  /** The ancestors of lo..hi are those of lo..hi-1 and those of hi. */
  lemma AboveLast(lo: nat, hi: nat, l: nat, i: nat)
    requires lo < hi
    ensures Above(0, lo, hi, l, i) <==> Above(0, lo, hi - 1, l, i) || Above(0, hi, hi, l, i)
  {
    UpMonotone(lo, hi, l);
    UpMonotone(hi - 1, hi, l);
    UpPrevious(hi, l);
  }

  /** The children of a node that is not an ancestor of a leaf are not either. */
  lemma NotAboveChild(b: nat, l: nat, i: nat, c: nat)
    requires l > 0 && c / 2 == i && !Above(0, b, b, l, i)
    ensures !Above(0, b, b, l - 1, c)
  {
    assert Up(b, l) == Up(b, l - 1) / 2;
  }

  lemma {:induction false} EachRebuilds(k: nat, t: Tree, lo: nat, hi: nat)
    requires 0 < k && lo <= hi
    ensures Rebuilt(k, 0, lo, hi, t, FullBuddifyEach(k, t, lo, hi))
    decreases hi - lo
  {
    var w := if lo < hi then FullBuddifyEach(k, t, lo, hi - 1) else t;
    var v := FullBuddifyEach(k, t, lo, hi);
    FullRebuilds(k, w, 0, hi);
    if lo < hi {
      EachRebuilds(k, t, lo, hi - 1);
      forall l: nat, i: nat | l <= k
        ensures RebuiltAt(0, lo, hi, t, v, l, i)
      {
        assert RebuiltAt(0, lo, hi - 1, t, w, l, i);
        RebuiltTwice(k, lo, hi, t, w, v, l, i);
      }
    }
  }

  lemma RebuiltTwice(k: nat, lo: nat, hi: nat, t: Tree, w: Tree, v: Tree, l: nat, i: nat)
    requires lo < hi && l <= k && RebuiltAt(0, lo, hi - 1, t, w, l, i) && Rebuilt(k, 0, hi, hi, w, v)
    ensures RebuiltAt(0, lo, hi, t, v, l, i)
  {
    AboveLast(lo, hi, l, i);
    assert RebuiltAt(0, hi, hi, w, v, l, i);
    if l > 0 && !Above(0, hi, hi, l, i) {
      NotAboveChild(hi, l, i, 2 * i);
      NotAboveChild(hi, l, i, 2 * i + 1);
      assert RebuiltAt(0, hi, hi, w, v, l - 1, 2 * i) && RebuiltAt(0, hi, hi, w, v, l - 1, 2 * i + 1);
    }
    NotAboveBelow(0, lo, hi, 0, i);
    hide Look, Join, Above, Rebuilt;
  }

  /** The fast area pass leaves the tree exactly as full passes for every leaf would. */
  lemma AreaIsEach(k: nat, t: Tree, lo: nat, hi: nat)
    requires 0 < k && lo <= hi
    ensures SameBits(k, AreaBuddify(k, t, 0, lo, hi), FullBuddifyEach(k, t, lo, hi))
  {
    var u, v := AreaBuddify(k, t, 0, lo, hi), FullBuddifyEach(k, t, lo, hi);
    AreaRebuilds(k, t, 0, lo, hi);
    EachRebuilds(k, t, lo, hi);
    forall l: nat, i: nat | l <= k
      ensures Look(u, l, i) == Look(v, l, i)
    {
      RebuiltUnique(k, 0, lo, hi, t, u, v, l, i);
    }
  }

  /** A pass over a tree that is ready for it ends in the canonical tree. */
  lemma PassIsCanonical(k: nat, marks: set<Node>, l0: nat, lo: nat, hi: nat, t: Tree, u: Tree)
    requires Rebuilt(k, l0, lo, hi, t, u) && Ready(k, marks, l0, lo, hi, t)
    ensures Canonical(k, marks, u)
  {
    forall l: nat, i: nat | l <= k
      ensures Look(u, l, i) == Canon(k, marks, l, i)
    {
      RebuiltCanonical(k, marks, l0, lo, hi, t, u, l, i);
    }
  }

  // ----- Granting, releasing and reserving -----

  /** kmalloc's update: all ones at the node, then a full pass. */
  function Grant(k: nat, t: Tree, n: Node): Tree
    requires n.level < k
  {
    FullBuddify(k, Put(t, n.level, n.index, Ones(n.level)), n.level, n.index)
  }

  /** kfree's update: clear the leaf, then a full pass. */
  function Release(k: nat, t: Tree, b: nat): Tree
    requires 0 < k
  {
    FullBuddify(k, Put(t, 0, b, [false]), 0, b)
  }

  /** Nodes lo..hi of a level set to one value. */
  function SetRange(t: Tree, level: nat, lo: nat, hi: nat, v: Bits): Tree
    requires lo <= hi + 1
    decreases hi + 1 - lo
  {
    if lo > hi then t else SetRange(Put(t, level, lo, v), level, lo + 1, hi, v)
  }

  /** kmres's update: ones at the leaves, then an area pass. */
  function Reserve(k: nat, t: Tree, lo: nat, hi: nat): Tree
    requires 0 < k && lo <= hi
  {
    AreaBuddify(k, SetRange(t, 0, lo, hi, [true]), 0, lo, hi)
  }

  lemma GrantCanonical(k: nat, marks: set<Node>, t: Tree, n: Node)
    requires Canonical(k, marks, t) && n.level < k && AllFree(k, marks, n.level, n.index)
    ensures Canonical(k, marks + {n}, Grant(k, t, n))
  {
    var s := Put(t, n.level, n.index, Ones(n.level));
    forall l: nat, i: nat | l <= k
      ensures ReadyAt(k, marks + {n}, n.level, n.index, n.index, s, l, i)
    {
      GrantReady(k, marks, t, n, l, i);
    }
    FullRebuilds(k, s, n.level, n.index);
    PassIsCanonical(k, marks + {n}, n.level, n.index, n.index, s, Grant(k, t, n));
  }

  /** Granting a free node: the marks stay an antichain and the tree canonical. */
  lemma GrantKeeps(k: nat, marks: set<Node>, t: Tree, n: Node)
    requires Antichain(k, marks) && Canonical(k, marks, t)
    requires InTree(k, n.level, n.index) && n.level < k && AllFree(k, marks, n.level, n.index)
    ensures n !in marks && Antichain(k, marks + {n}) && Canonical(k, marks + {n}, Grant(k, t, n))
  {
    AntichainAdd(k, marks, n);
    GrantCanonical(k, marks, t, n);
  }

  /** Releasing a marked node through any of its leaves. */
  lemma ReleaseKeeps(k: nat, marks: set<Node>, t: Tree, n: Node, b: nat)
    requires Antichain(k, marks) && Canonical(k, marks, t)
    requires n in marks && 0 < k && Up(b, n.level) == n.index
    ensures Antichain(k, marks - {n}) && Canonical(k, marks - {n}, Release(k, t, b))
    ensures AllFree(k, marks - {n}, n.level, n.index)
  {
    AntichainRemove(k, marks, n);
    ReleaseCanonical(k, marks, t, n, b);
  }

  lemma GrantReady(k: nat, marks: set<Node>, t: Tree, n: Node, l: nat, i: nat)
    requires Canonical(k, marks, t) && n.level < k && AllFree(k, marks, n.level, n.index) && l <= k
    ensures ReadyAt(k, marks + {n}, n.level, n.index, n.index, Put(t, n.level, n.index, Ones(n.level)), l, i)
  {
    assert Look(t, l, i) == Canon(k, marks, l, i);
    hide Canon;
    FreeIsZero(k, marks, n.level, n.index);
    if Above(n.level, n.index, n.index, l, i) {
      ClearAbove(k, marks, n.level, n.index, l - n.level);
      BeneathAdd(k, marks, n, l, i);
    } else {
      CanonAdd(k, marks, n, l, i);
    }
  }

  /** Releasing n through its leaf b: canonical bits of the nodes the pass does not rebuild. */
  lemma ReleaseElsewhere(k: nat, rest: set<Node>, n: Node, b: nat, l: nat, i: nat)
    requires n.level <= k && Up(b, n.level) == n.index && AllFree(k, rest, n.level, n.index)
    requires l <= k && !Above(0, b, b, l, i)
    ensures l == 0 && i == b ==> Canon(k, rest, l, i) == [false]
    ensures !(l == 0 && i == b) ==> Canon(k, rest, l, i) == Canon(k, rest + {n}, l, i)
  {
    assert Up(b, 0) == b;
    if l == 0 && i == b {
      AllFreeBelow(k, rest, 0, b, n.level);
    } else {
      if n.level <= l && OnPath(n.level, n.index, l, i) {
        UpCompose(b, n.level, l - n.level);
      }
      CanonAdd(k, rest, n, l, i);
    }
  }

  lemma ReleaseCanonical(k: nat, marks: set<Node>, t: Tree, n: Node, b: nat)
    requires Antichain(k, marks) && Canonical(k, marks, t)
    requires n in marks && 0 < k && Up(b, n.level) == n.index
    ensures Canonical(k, marks - {n}, Release(k, t, b))
  {
    var rest := marks - {n};
    var s := Put(t, 0, b, [false]);
    AntichainRemove(k, marks, n);
    AllFreeBelow(k, rest, 0, b, n.level);
    assert rest + {n} == marks;
    forall l: nat, i: nat | l <= k
      ensures ReadyAt(k, rest, 0, b, b, s, l, i)
    {
      ReleaseReady(k, rest, t, n, b, l, i);
    }
    FullRebuilds(k, s, 0, b);
    PassIsCanonical(k, rest, 0, b, b, s, Release(k, t, b));
  }

  lemma ReleaseReady(k: nat, rest: set<Node>, t: Tree, n: Node, b: nat, l: nat, i: nat)
    requires Canonical(k, rest + {n}, t) && l <= k && n.level <= k && Up(b, n.level) == n.index
    requires AllFree(k, rest, n.level, n.index)
    ensures ReadyAt(k, rest, 0, b, b, Put(t, 0, b, [false]), l, i)
  {
    assert Look(t, l, i) == Canon(k, rest + {n}, l, i);
    hide Canon;
    if Above(0, b, b, l, i) {
      AllFreeBelow(k, rest, 0, b, n.level);
      ClearAbove(k, rest, 0, b, l);
    } else {
      ReleaseElsewhere(k, rest, n, b, l, i);
    }
  }

  // ----- Reserving an area of leaves -----

  function Leaves(lo: nat, hi: nat): set<Node> {
    set b: nat | lo <= b <= hi :: Node(0, b)
  }

  /** A leaf may be reserved when no granted block of more than one leaf covers it. */
  ghost predicate Reservable(k: nat, marks: set<Node>, lo: nat, hi: nat) {
    forall b: nat | lo <= b <= hi :: !Beneath(k, marks, 0, b)
  }

  lemma {:induction false} SetRangeEffect(t: Tree, level: nat, lo: nat, hi: nat, v: Bits, l: nat, i: nat)
    requires lo <= hi + 1
    ensures Look(SetRange(t, level, lo, hi, v), l, i) == if l == level && lo <= i <= hi then v else Look(t, l, i)
    decreases hi + 1 - lo
  {
    if lo <= hi {
      SetRangeEffect(Put(t, level, lo, v), level, lo + 1, hi, v, l, i);
    }
  }

  /** Marking leaves puts no further node beneath a mark. */
  lemma {:induction false} BeneathLeaves(k: nat, marks: set<Node>, lo: nat, hi: nat, level: nat, index: nat)
    requires level <= k
    ensures Beneath(k, marks + Leaves(lo, hi), level, index) <==> Beneath(k, marks, level, index)
    decreases k - level
  {
    if level < k {
      BeneathLeaves(k, marks, lo, hi, level + 1, index / 2);
    }
  }

  /** The children of a node that is not above the area are neither above it nor in it. */
  lemma AsideChild(lo: nat, hi: nat, level: nat, index: nat, c: nat)
    requires level > 0 && c / 2 == index && !Above(0, lo, hi, level, index)
    ensures !Above(0, lo, hi, level - 1, c) && !(level == 1 && lo <= c <= hi)
  {
    assert Up(lo, level) == Up(lo, level - 1) / 2 && Up(hi, level) == Up(hi, level - 1) / 2;
    assert level == 1 ==> Up(lo, 0) == lo && Up(hi, 0) == hi;
  }

  lemma LeafMarked(k: nat, marks: set<Node>, lo: nat, hi: nat, index: nat)
    requires Reservable(k, marks, lo, hi)
    ensures Canon(k, marks + Leaves(lo, hi), 0, index) == if lo <= index <= hi then [true] else Canon(k, marks, 0, index)
  {
    BeneathLeaves(k, marks, lo, hi, 0, index);
  }

  lemma LeavesAreLeaves(marks: set<Node>, lo: nat, hi: nat, level: nat, index: nat)
    requires level > 0
    ensures Node(level, index) in marks + Leaves(lo, hi) <==> Node(level, index) in marks
  {
  }

  lemma {:induction false} CanonLeaves(k: nat, marks: set<Node>, lo: nat, hi: nat, level: nat, index: nat)
    requires level <= k && Reservable(k, marks, lo, hi)
    requires !Above(0, lo, hi, level, index)
    ensures Canon(k, marks + Leaves(lo, hi), level, index) ==
            if level == 0 && lo <= index <= hi then [true] else Canon(k, marks, level, index)
    decreases level
  {
    hide *;
    if level == 0 {
      LeafMarked(k, marks, lo, hi, index);
    } else {
      BeneathLeaves(k, marks, lo, hi, level, index);
      LeavesAreLeaves(marks, lo, hi, level, index);
      AsideChild(lo, hi, level, index, 2 * index);
      AsideChild(lo, hi, level, index, 2 * index + 1);
      CanonLeaves(k, marks, lo, hi, level - 1, 2 * index);
      CanonLeaves(k, marks, lo, hi, level - 1, 2 * index + 1);
      CanonSame(k, marks, marks + Leaves(lo, hi), level, index);
    }
  }

  /** Each rebuilt node is an ancestor of one of the area's leaves. */
  lemma {:induction false} AboveWitness(lo: nat, hi: nat, level: nat, index: nat) returns (b: nat)
    requires lo <= hi && Up(lo, level) <= index <= Up(hi, level)
    ensures lo <= b <= hi && Up(b, level) == index
    decreases hi - lo
  {
    if Up(lo, level) == index {
      b := lo;
    } else {
      UpPrevious(lo + 1, level);
      UpMonotone(lo, hi, level);
      b := AboveWitness(lo + 1, hi, level, index);
    }
  }

  lemma AntichainLeaves(k: nat, marks: set<Node>, lo: nat, hi: nat)
    requires Antichain(k, marks) && InTree(k, 0, hi) && Reservable(k, marks, lo, hi)
    ensures Antichain(k, marks + Leaves(lo, hi))
  {
    forall n | n in marks + Leaves(lo, hi)
      ensures InTree(k, n.level, n.index) && !Beneath(k, marks + Leaves(lo, hi), n.level, n.index)
    {
      if n !in marks {
        assert lo <= n.index <= hi;
      }
      BeneathLeaves(k, marks, lo, hi, n.level, n.index);
    }
  }

  // ----- Granted blocks that the area meets -----

  /** The marks that stay: not those of blocks of more than one leaf that the area meets. */
  function Spared(marks: set<Node>, lo: nat, hi: nat): set<Node> {
    set n | n in marks && !Above(0, lo, hi, n.level, n.index)
  }

  lemma SparedReservable(k: nat, marks: set<Node>, lo: nat, hi: nat)
    ensures Reservable(k, Spared(marks, lo, hi), lo, hi)
  {
    var rest := Spared(marks, lo, hi);
    forall b: nat | lo <= b <= hi
      ensures !Beneath(k, rest, 0, b)
    {
      if Beneath(k, rest, 0, b) {
        var d := BeneathWitness(k, rest, 0, b);
        UpMonotone(lo, b, d);
        UpMonotone(b, hi, d);
      }
    }
  }

  /** No mark goes exactly when no leaf of the area lies in a larger granted block. */
  lemma SparesAll(k: nat, marks: set<Node>, lo: nat, hi: nat)
    requires Antichain(k, marks) && lo <= hi
    ensures Spared(marks, lo, hi) == marks <==> Reservable(k, marks, lo, hi)
  {
    SparedReservable(k, marks, lo, hi);
    if Reservable(k, marks, lo, hi) {
      forall n | n in marks
        ensures n in Spared(marks, lo, hi)
      {
        if Above(0, lo, hi, n.level, n.index) {
          var b := AboveWitness(lo, hi, n.level, n.index);
          assert Node(0 + n.level, Up(b, n.level)) == n;
          BeneathClimbs(k, marks, 0, b, n.level);
          assert false;
        }
      }
      assert Spared(marks, lo, hi) == marks;
    }
  }

  lemma AntichainFewer(k: nat, marks: set<Node>, fewer: set<Node>)
    requires Antichain(k, marks) && fewer <= marks
    ensures Antichain(k, fewer)
  {
    forall n | n in fewer
      ensures !Beneath(k, fewer, n.level, n.index)
    {
      if Beneath(k, fewer, n.level, n.index) {
        BeneathMore(k, fewer, marks, n.level, n.index);
      }
    }
  }

  lemma {:induction false} BeneathMore(k: nat, fewer: set<Node>, marks: set<Node>, level: nat, index: nat)
    requires fewer <= marks && Beneath(k, fewer, level, index)
    ensures Beneath(k, marks, level, index)
    decreases k - level
  {
    if Node(level + 1, index / 2) !in fewer {
      BeneathMore(k, fewer, marks, level + 1, index / 2);
    }
  }

  lemma {:induction false} FreeFewer(k: nat, fewer: set<Node>, marks: set<Node>, level: nat, index: nat)
    requires fewer <= marks && AllFree(k, marks, level, index)
    ensures AllFree(k, fewer, level, index)
    decreases level
  {
    if level == 0 {
      if Beneath(k, fewer, 0, index) {
        BeneathMore(k, fewer, marks, 0, index);
      }
    } else {
      FreeFewer(k, fewer, marks, level - 1, 2 * index);
      FreeFewer(k, fewer, marks, level - 1, 2 * index + 1);
    }
  }

  /** Beneath a mark that goes everything is free afterwards, and reads zero before and after. */
  lemma BeneathGone(k: nat, marks: set<Node>, rest: set<Node>, level: nat, index: nat)
    requires Antichain(k, marks) && rest <= marks && level <= k
    requires Beneath(k, marks - rest, level, index)
    ensures Canon(k, rest, level, index) == Canon(k, marks, level, index)
  {
    var d := BeneathWitness(k, marks - rest, level, index);
    var n := Node(level + d, Up(index, d));
    BeneathMore(k, marks - rest, marks, level, index);
    AntichainRemove(k, marks, n);
    AllFreeBelow(k, marks - {n}, level, index, d);
    FreeFewer(k, rest, marks - {n}, level, index);
    FreeIsZero(k, rest, level, index);
  }

  lemma {:induction false} BeneathEither(k: nat, marks: set<Node>, rest: set<Node>, level: nat, index: nat)
    requires rest <= marks && level <= k && !Beneath(k, marks - rest, level, index)
    ensures Beneath(k, rest, level, index) <==> Beneath(k, marks, level, index)
    decreases k - level
  {
    if level < k {
      BeneathEither(k, marks, rest, level + 1, index / 2);
    }
  }

  /** Away from the ancestors of the area the bits do not tell which marks are spared. */
  lemma {:induction false} CanonSpared(k: nat, marks: set<Node>, lo: nat, hi: nat, level: nat, index: nat)
    requires Antichain(k, marks) && level <= k && !Above(0, lo, hi, level, index)
    ensures Canon(k, Spared(marks, lo, hi), level, index) == Canon(k, marks, level, index)
    decreases level
  {
    var rest := Spared(marks, lo, hi);
    assert rest <= marks && (Node(level, index) in rest <==> Node(level, index) in marks);
    hide *;
    if Beneath(k, marks - rest, level, index) {
      BeneathGone(k, marks, rest, level, index);
    } else {
      BeneathEither(k, marks, rest, level, index);
      if level > 0 {
        AsideChild(lo, hi, level, index, 2 * index);
        AsideChild(lo, hi, level, index, 2 * index + 1);
        CanonSpared(k, marks, lo, hi, level - 1, 2 * index);
        CanonSpared(k, marks, lo, hi, level - 1, 2 * index + 1);
      }
      CanonSame(k, marks, rest, level, index);
    }
  }

  /** Reserving an area gives the canonical tree of the spared marks and its leaves: the rest of a
      granted block that it meets is free afterwards. */
  lemma ReserveCanonical(k: nat, marks: set<Node>, t: Tree, lo: nat, hi: nat)
    requires Antichain(k, marks) && Canonical(k, marks, t) && 0 < k && lo <= hi && InTree(k, 0, hi)
    ensures Antichain(k, Spared(marks, lo, hi) + Leaves(lo, hi))
    ensures Canonical(k, Spared(marks, lo, hi) + Leaves(lo, hi), Reserve(k, t, lo, hi))
  {
    var s := SetRange(t, 0, lo, hi, [true]);
    var rest := Spared(marks, lo, hi);
    SparedReservable(k, marks, lo, hi);
    AntichainFewer(k, marks, rest);
    AntichainLeaves(k, rest, lo, hi);
    forall l: nat, i: nat | l <= k
      ensures ReadyAt(k, rest + Leaves(lo, hi), 0, lo, hi, s, l, i)
    {
      ReserveReady(k, marks, t, lo, hi, l, i);
    }
    AreaRebuilds(k, s, 0, lo, hi);
    PassIsCanonical(k, rest + Leaves(lo, hi), 0, lo, hi, s, Reserve(k, t, lo, hi));
  }

  lemma ReserveReady(k: nat, marks: set<Node>, t: Tree, lo: nat, hi: nat, l: nat, i: nat)
    requires Antichain(k, marks) && Canonical(k, marks, t) && lo <= hi && l <= k
    ensures ReadyAt(k, Spared(marks, lo, hi) + Leaves(lo, hi), 0, lo, hi, SetRange(t, 0, lo, hi, [true]), l, i)
  {
    assert Look(t, l, i) == Canon(k, marks, l, i);
    hide Canon, Spared;
    var rest := Spared(marks, lo, hi);
    SparedReservable(k, marks, lo, hi);
    if Above(0, lo, hi, l, i) {
      var b := AboveWitness(lo, hi, l, i);
      ClearAbove(k, rest, 0, b, l);
      BeneathLeaves(k, rest, lo, hi, l, i);
    } else {
      CanonSpared(k, marks, lo, hi, l, i);
      CanonLeaves(k, rest, lo, hi, l, i);
      SetRangeEffect(t, 0, lo, hi, [true], l, i);
    }
  }

  lemma ReserveIs(k: nat, t: Tree, lo: nat, hi: nat)
    requires 0 < k && lo <= hi
    ensures Reserve(k, t, lo, hi) == AreaBuddify(k, SetRange(t, 0, lo, hi, [true]), 0, lo, hi)
  {
  }

  lemma LeavesAre(lo: nat, hi: nat)
    ensures forall n :: n in Leaves(lo, hi) <==> n.level == 0 && lo <= n.index <= hi
  {
  }
}
