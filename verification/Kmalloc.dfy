/** The buddy allocator over physical memory: its control structure is bit-packed into the last
    bytes of the arena it manages. */
module Kmalloc {
  import opened Order
  import opened Powers
  import opened Words
  import opened BuddyTree
  import opened BuddyOps
  import opened BuddySearch
  import opened BuddyLayout
  import opened BuddyBits
  import opened BuddyBlocks
  import Memory

  /** The descriptors of levels 0..k are set for tables starting at `base`; the next is not. */
  ghost predicate Described(levels: seq<nat>, k: nat, base: nat) {
    && |levels| == 64 && k <= 21
    && (forall l: nat | l <= k :: DescribedAt(levels, k, base, l))
    && levels[2 * (k + 1) + 1] == 0
  }

  ghost predicate DescribedAt(levels: seq<nat>, k: nat, base: nat, l: nat)
    requires |levels| == 64 && l <= k <= 21
  {
    levels[2 * l] == Pow2(k - l) && levels[2 * l + 1] == base + TableOffset(k, l)
  }

  /** The descriptors of levels below `upto` are set, the others still zero. */
  ghost predicate PartlyDescribed(levels: seq<nat>, k: nat, base: nat, upto: nat) {
    && |levels| == 64 && k <= 21 && upto <= k + 1
    && (forall l: nat | l < upto :: DescribedAt(levels, k, base, l))
    && levels[2 * (k + 1) + 1] == 0
  }

  lemma DescribeNext(levels: seq<nat>, k: nat, base: nat, upto: nat, nodes: nat, at: nat)
    requires PartlyDescribed(levels, k, base, upto) && upto <= k
    requires nodes == Pow2(k - upto) && at == base + TableOffset(k, upto)
    ensures 2 * upto + 1 < |levels|
    ensures PartlyDescribed(levels[2 * upto := nodes][2 * upto + 1 := at], k, base, upto + 1)
  {
    var levels2 := levels[2 * upto := nodes][2 * upto + 1 := at];
    forall l: nat | l < upto + 1
      ensures DescribedAt(levels2, k, base, l)
    {
      if l < upto {
        assert DescribedAt(levels, k, base, l);
      }
    }
  }

  lemma FirstDescribed(levels: seq<nat>, k: nat, base: nat)
    requires |levels| == 64 && k <= 21 && levels[0] == Pow2(k) && levels[1] == base
    requires levels[2 * (k + 1) + 1] == 0
    ensures PartlyDescribed(levels, k, base, 1)
  {
    assert TableOffset(k, 0) == 0;
    assert DescribedAt(levels, k, base, 0);
  }

  lemma TreeNotEmpty(k: nat)
    requires k >= 1
    ensures Pow2(k) / 2 >= 1 && Pow2(k) >= 2
  {
  }

  lemma AllDescribed(levels: seq<nat>, k: nat, base: nat)
    requires PartlyDescribed(levels, k, base, k + 1)
    ensures Described(levels, k, base)
  {
  }

  /** The next level has half the nodes and starts after this one's table. */
  lemma NextLevel(k: nat, level: nat, nodes: nat)
    requires k >= 3 && level <= k && nodes == Pow2(k - level)
    ensures level == 0 ==> TableOffset(k, 1) == nodes / 8 && TableOffset(k, 0) == 0
    ensures level > 0 ==> TableOffset(k, level + 1) == TableOffset(k, level) + (nodes * (level + 1) - 1) / 8 + 1
    ensures nodes / 2 == (if level < k then Pow2(k - (level + 1)) else 0)
    ensures level < k ==> nodes / 2 > 0
  {
    assert nodes * (level + 1) == (level + 1) * nodes;
    assert TableOffset(k, level + 1) == TableOffset(k, level) + TableBytes(k, level);
  }

  class Allocator {
    const ram: Memory.Ram<Byte>     // physical memory
    var treeLevels: seq<nat>        // the 64 dwords: for level L, size at 2L and pointer at 2L+1
    var maxTreeLevel: nat
    var end: nat
    var size: nat
    var offset: nat
    var blockNumber: nat
    ghost var tree: Tree            // the node values the control structure holds
    ghost var marks: set<Node>      // granted blocks and reserved leaves
    ghost var reserved: set<Node>   // the reserved leaves alone

    /** The static data of the allocator at boot: all zero. */
    constructor (ram: Memory.Ram<Byte>)
      ensures this.ram == ram && treeLevels == seq(64, _ => 0)
      ensures maxTreeLevel == end == size == offset == blockNumber == 0
    {
      this.ram := ram;
      treeLevels := seq(64, _ => 0);
      maxTreeLevel, end, size, offset, blockNumber := 0, 0, 0, 0, 0;
      tree, marks, reserved := map[], {}, {};
    }

    // ----- Reading and writing nodes -----

    /** The first bit of a node, from its level's descriptor. */
    ghost function FirstBit(level: nat, node: nat): nat
      requires 2 * level + 1 < |treeLevels|
      reads `treeLevels
    {
      8 * treeLevels[2 * level + 1] + Packed(level, node)
    }

    /** The four bytes that gettreeelement and settreeelement touch lie in memory. */
    ghost predicate Addressable(level: nat, node: nat)
      reads `treeLevels, ram
    {
      && |treeLevels| == 64 && |ram.cells| == ADDRESS_SPACE
      && level <= 24
      && FirstBit(level, node) / 8 + 4 <= |ram.cells|
    }

    // ----- The control structure as a tree -----

    ghost predicate Layout()
      reads `treeLevels, `maxTreeLevel, `end, `size, `offset
    {
      && 3 <= maxTreeLevel <= 21
      && 4 <= offset && offset + size <= SIGNED_LIMIT
      && size == end + Pow2(maxTreeLevel) / 2
      && size <= ToBytes(Pow2(maxTreeLevel))
      && Described(treeLevels, maxTreeLevel, offset + end)
    }

    /** A node of the tree, or the one the area pass touches above the root. */
    ghost predicate InTreeOrPhantom(level: nat, node: nat)
      reads `maxTreeLevel
    {
      InTree(maxTreeLevel, level, node) || (level == maxTreeLevel + 1 && node == 0)
    }

    /** The bytes of the control structure spell the tree. */
    ghost predicate Linked()
      reads ram, `tree, `treeLevels, `maxTreeLevel, `end, `size, `offset
    {
      Layout() && |ram.cells| == ADDRESS_SPACE && Holds(maxTreeLevel, offset + end, ram.cells, tree)
    }

    lemma Unlink()
      requires Linked()
      ensures Layout() && |ram.cells| == ADDRESS_SPACE && Holds(maxTreeLevel, offset + end, ram.cells, tree)
      ensures 3 <= maxTreeLevel <= 21 && 4 <= offset && offset + size == offset + end + Pow2(maxTreeLevel) / 2
    {
    }

    lemma Relink()
      requires Layout() && |ram.cells| == ADDRESS_SPACE && Holds(maxTreeLevel, offset + end, ram.cells, tree)
      ensures Linked()
    {
    }

    lemma NodeAddress(level: nat, node: nat)
      requires Layout() && |ram.cells| == ADDRESS_SPACE && InTreeOrPhantom(level, node)
      ensures Addressable(level, node) && 2 * level + 1 < |treeLevels|
      ensures level <= maxTreeLevel ==>
                && InTree(maxTreeLevel, level, node)
                && FirstBit(level, node) == 8 * (offset + end) + NodeBit(maxTreeLevel, level, node)
      ensures level > maxTreeLevel ==> FirstBit(level, node) == 0 && level == maxTreeLevel + 1 && node == 0
    {
      if level <= maxTreeLevel {
        assert DescribedAt(treeLevels, maxTreeLevel, offset + end, level);
        NodeInReserve(maxTreeLevel, level, node);
      }
    }

    /** Where an element starts: a byte and a bit in it. */
    lemma ElementPlace(level: nat, node: nat)
      requires Addressable(level, node)
      ensures 2 * level + 1 < |treeLevels| && level <= 24
      ensures var bit := node * (level + 1);
              var at := treeLevels[2 * level + 1] + bit / 8;
              at + 4 <= |ram.cells| && FirstBit(level, node) == 8 * at + bit % 8 && bit % 8 < 8
    {
      PackedBits(level, node);
    }

    /** The four bytes read into a register, first byte highest. */
    method LoadSwapped(at: nat) returns (w: Word)
      requires at + 4 <= |ram.cells|
      ensures Reads(ram.cells, at, w)
    {
      w := ByteSwap(FromBytes(ram.cells[at], ram.cells[at + 1], ram.cells[at + 2], ram.cells[at + 3]));
      LoadedBits(ram.cells, at, w);
    }

    /** The node's level+1 bits, right-aligned; the other bits of the register are clear. */
    method GetTreeElement(level: nat, node: nat) returns (w: Word)
      requires Addressable(level, node)
      ensures Spells(ram.cells, FirstBit(level, node), w[..level + 1])
      ensures forall j | level < j < 32 :: !w[j]
    {
      ElementPlace(level, node);
      var bit := node * (level + 1);
      var at := treeLevels[2 * level + 1] + bit / 8;
      var eax := LoadSwapped(at);
      w := Shr(Shl(eax, bit % 8), 32 - level - 1);
    }

    /** The register written back over the four bytes. */
    method StoreSwapped(at: nat, w: Word)
      requires at + 4 <= |ram.cells|
      modifies ram
      ensures |ram.cells| == |old(ram.cells)| && Reads(ram.cells, at, w)
      ensures forall a: nat | a < |ram.cells| && !(at <= a < at + 4) :: ram.cells[a] == old(ram.cells)[a]
    {
      hide *;
      var stored := ByteSwap(w);
      ByteSwapInvolutive(w);
      FourBytes(stored);
      ram.cells := ram.cells[at := stored[..8]][at + 1 := stored[8..16]][at + 2 := stored[16..24]][at + 3 := stored[24..]];
      LoadedBits(ram.cells, at, w);
    }

    /** Only the node's own bits change: those get the low level+1 bits of the value. */
    method SetTreeElement(level: nat, node: nat, value: Word)
      requires Addressable(level, node)
      modifies ram
      ensures Stored(old(ram.cells), ram.cells, FirstBit(level, node), value[..level + 1])
    {
      hide *;
      ElementPlace(level, node);
      var bit := node * (level + 1);
      var at := treeLevels[2 * level + 1] + bit / 8;
      var first := bit % 8;
      var edi := LoadSwapped(at);
      ghost var loaded, before := edi, ram.cells;
      var bits := Shr(Shl(value, 32 - level - 1), first);
      edi := ResetRun(edi, first, level + 1);
      MergedBits(loaded, first, level, value, edi);
      edi := Or(edi, bits);
      StoreSwapped(at, edi);
      Spliced(before, ram.cells, at, first, level, loaded, value, edi);
    }

    /** settreeelement seen from the tree: the node gets the low level+1 bits of the value, every
        other node reads as before, and no byte outside the control structure changes (the
        phantom node lies in the first four bytes of memory). */
    method SetNode(level: nat, node: nat, value: Word)
      requires Linked() && InTreeOrPhantom(level, node)
      modifies ram, `tree
      ensures Linked()
      ensures tree == if level <= maxTreeLevel then Put(old(tree), level, node, value[..level + 1]) else old(tree)
      ensures Kept(old(ram.cells), ram.cells, offset + end, offset + size, if level <= maxTreeLevel then 0 else 4)
      ensures level > maxTreeLevel ==> Stored(old(ram.cells), ram.cells, 0, value[..level + 1])
    {
      hide *;
      Unlink();
      NodeAddress(level, node);
      ghost var before, base, v := ram.cells, offset + end, value[..level + 1];
      ghost var first := FirstBit(level, node);
      SetTreeElement(level, node, value);
      assert Stored(before, ram.cells, first, v);
      if level <= maxTreeLevel {
        AfterStore(maxTreeLevel, base, before, ram.cells, tree, level, node, v);
        tree := Put(tree, level, node, v);
      } else {
        AfterPhantom(maxTreeLevel, base, before, ram.cells, tree, v);
        KeptNarrow(before, ram.cells, base, offset + size, 4);
      }
      Relink();
    }

    /** gettreeelement seen from the tree. */
    method GetNode(level: nat, node: nat) returns (w: Word)
      requires Linked() && InTree(maxTreeLevel, level, node)
      ensures w[..level + 1] == Look(tree, level, node)
      ensures forall j: nat | level < j < 32 :: !w[j]
      ensures IsZero(w) <==> Look(tree, level, node) == Zeros(level)
    {
      hide *;
      Unlink();
      NodeAddress(level, node);
      w := GetTreeElement(level, node);
      HoldsSpells(maxTreeLevel, offset + end, ram.cells, tree, level, node);
      SpellsUnique(ram.cells, FirstBit(level, node), w[..level + 1], Look(tree, level, node));
      ZeroWord(w, level);
    }

    // ----- Buddify passes -----

    method Buddify(level: nat, node: nat)
      requires Linked() && InTreeOrPhantom(level, node) && level > 0
      modifies ram, `tree
      ensures Linked()
      ensures tree == if level <= maxTreeLevel then BuddyOps.Buddify(old(tree), level, node) else old(tree)
      ensures Kept(old(ram.cells), ram.cells, offset + end, offset + size, if level <= maxTreeLevel then 0 else 4)
      ensures level > maxTreeLevel ==> AboveRoot(maxTreeLevel, offset + end, old(ram.cells), ram.cells, tree)
    {
      hide *;
      Unlink();
      NodeAddress(level, node);
      ghost var m0 := ram.cells;
      var left, right;
      if level <= maxTreeLevel {
        ChildrenInTree(maxTreeLevel, level, node);
        left := GetNode(level - 1, 2 * node);
        right := GetNode(level - 1, 2 * node + 1);
        assert left[..level] == Look(tree, level - 1, 2 * node) && right[..level] == Look(tree, level - 1, 2 * node + 1);
        BuddifyIs(tree, level, node);
      } else {
        PhantomChildren();
        left := GetTreeElement(level - 1, 2 * node);
        right := GetTreeElement(level - 1, 2 * node + 1);
      }
      JoinWordBits(left, right, level);
      SetNode(level, node, JoinWord(left, right, level));
      if level > maxTreeLevel {
        MakeAboveRoot(maxTreeLevel, offset + end, m0, ram.cells, tree, left[..level], right[..level]);
      }
    }

    /** The phantom's children are the root and the bits behind it. */
    lemma PhantomChildren()
      requires Linked()
      ensures Addressable(maxTreeLevel, 0) && Addressable(maxTreeLevel, 1) && 4 <= offset + end <= |ram.cells|
      ensures FirstBit(maxTreeLevel, 0) == 8 * (offset + end) + NodeBit(maxTreeLevel, maxTreeLevel, 0)
      ensures FirstBit(maxTreeLevel, 1) == 8 * (offset + end) + NodeBit(maxTreeLevel, maxTreeLevel, 0) + maxTreeLevel + 1
    {
      NodeAddress(maxTreeLevel, 0);
      NodeInReserve(maxTreeLevel, maxTreeLevel, 0);
      assert Packed(maxTreeLevel, 1) == Packed(maxTreeLevel, 0) + maxTreeLevel + 1;
    }

    method FullBuddify(level: nat, node: nat)
      requires Linked() && InTree(maxTreeLevel, level, node) && level < maxTreeLevel
      modifies ram, `tree
      ensures Linked()
      ensures tree == BuddyOps.FullBuddify(maxTreeLevel, old(tree), level, node)
      ensures Kept(old(ram.cells), ram.cells, offset + end, offset + size, 0)
    {
      hide *;
      Unlink();
      KeptSame(ram.cells, offset + end, offset + size, 0);
      var ebx, ecx := level, node;
      ghost var goal := BuddyOps.FullBuddify(maxTreeLevel, tree, level, node);
      while true
        invariant Linked() && InTree(maxTreeLevel, ebx, ecx) && ebx < maxTreeLevel
        invariant BuddyOps.FullBuddify(maxTreeLevel, tree, ebx, ecx) == goal
        invariant Kept(old(ram.cells), ram.cells, offset + end, offset + size, 0)
        decreases maxTreeLevel - ebx
      {
        ParentInTree(maxTreeLevel, ebx, ecx);
        FullStep(maxTreeLevel, tree, ebx, ecx);
        AsPhantomOrNode(ebx + 1, ecx / 2);
        ebx, ecx := ebx + 1, ecx / 2;
        ghost var m := ram.cells;
        Buddify(ebx, ecx);
        KeptTrans(old(ram.cells), m, ram.cells, offset + end, offset + size, 0);
        if !(ebx < maxTreeLevel) {
          break;
        }
      }
    }

    lemma AsPhantomOrNode(level: nat, node: nat)
      requires InTree(maxTreeLevel, level, node)
      ensures InTreeOrPhantom(level, node) && level <= maxTreeLevel
    {
    }

    /** The loop runs at least once, so an empty range stands for its first node. */
    method LevelBuddify(level: nat, lo: nat, hi: nat)
      requires Linked() && level > 0 && lo <= hi + 1 && InTreeOrPhantom(level, Max(lo, hi))
      modifies ram, `tree
      ensures Linked()
      ensures tree == if level <= maxTreeLevel then BuddyOps.LevelBuddify(old(tree), level, lo, Max(lo, hi)) else old(tree)
      ensures Kept(old(ram.cells), ram.cells, offset + end, offset + size, if level <= maxTreeLevel then 0 else 4)
      ensures level > maxTreeLevel ==> AboveRoot(maxTreeLevel, offset + end, old(ram.cells), ram.cells, tree)
    {
      hide *;
      PhantomAlone(level, Max(lo, hi));
      ghost var low := if level <= maxTreeLevel then 0 else 4;
      KeptSame(ram.cells, offset + end, offset + size, low);
      var esi := lo;
      while true
        invariant Linked() && lo <= esi <= Max(lo, hi) && InTreeOrPhantom(level, Max(lo, hi))
        invariant level <= maxTreeLevel ==>
                    BuddyOps.LevelBuddify(tree, level, esi, Max(lo, hi)) == BuddyOps.LevelBuddify(old(tree), level, lo, Max(lo, hi))
        invariant level > maxTreeLevel ==> tree == old(tree) && ram.cells == old(ram.cells)
        invariant Kept(old(ram.cells), ram.cells, offset + end, offset + size, low)
        decreases Max(lo, hi) - esi
      {
        ghost var m := ram.cells;
        EarlierNode(level, esi, Max(lo, hi));
        LevelStep(tree, level, esi, Max(lo, hi));
        Buddify(level, esi);
        KeptTrans(old(ram.cells), m, ram.cells, offset + end, offset + size, low);
        esi := esi + 1;
        if !(esi <= hi) {
          LevelDone(tree, level, esi, Max(lo, hi));
          break;
        }
      }
    }

    lemma PhantomAlone(level: nat, node: nat)
      requires InTreeOrPhantom(level, node)
      ensures level > maxTreeLevel ==> node == 0
    {
    }

    lemma EarlierNode(level: nat, node: nat, last: nat)
      requires InTreeOrPhantom(level, last) && node <= last
      ensures InTreeOrPhantom(level, node)
    {
    }

    /** The pass goes one level past the root, where it sets a node in the first four bytes of
        memory. */
    method AreaFullBuddify(level: nat, lo: nat, hi: nat)
      requires Linked() && level < maxTreeLevel && lo <= hi + 1 && InTree(maxTreeLevel, level, Max(lo, hi))
      modifies ram, `tree
      ensures Linked()
      ensures tree == BuddyOps.AreaBuddify(maxTreeLevel, old(tree), level, lo, Max(lo, hi))
      ensures Kept(old(ram.cells), ram.cells, offset + end, offset + size, 4)
      ensures AboveRoot(maxTreeLevel, offset + end, old(ram.cells), ram.cells, tree)
    {
      hide *;
      Unlink();
      KeptSame(ram.cells, offset + end, offset + size, 0);
      var ebp, esi, edi := level, lo, hi;
      ghost var goal := BuddyOps.AreaBuddify(maxTreeLevel, tree, level, lo, Max(lo, hi));
      while true
        invariant Linked() && level <= ebp <= maxTreeLevel && esi <= edi + 1 && InTree(maxTreeLevel, ebp, Max(esi, edi))
        invariant goal == if ebp < maxTreeLevel then BuddyOps.AreaBuddify(maxTreeLevel, tree, ebp, esi, Max(esi, edi)) else tree
        invariant Kept(old(ram.cells), ram.cells, offset + end, offset + size, 0)
        decreases maxTreeLevel - ebp
      {
        ghost var m := ram.cells;
        if ebp < maxTreeLevel {
          ParentInTree(maxTreeLevel, ebp, Max(esi, edi));
          AreaStep(maxTreeLevel, tree, ebp, esi, Max(esi, edi));
        }
        HalfRange(ebp, esi, edi);
        ebp, esi, edi := ebp + 1, esi / 2, edi / 2;
        LevelBuddify(ebp, esi, edi);
        if !(ebp <= maxTreeLevel) {
          KeptWeaker(old(ram.cells), m, offset + end, offset + size, 0, 4);
          KeptTrans(old(ram.cells), m, ram.cells, offset + end, offset + size, 4);
          AboveRootKept(maxTreeLevel, offset + end, old(ram.cells), m, ram.cells, tree, offset + size);
          break;
        }
        KeptTrans(old(ram.cells), m, ram.cells, offset + end, offset + size, 0);
      }
    }

    /** Halving both ends of a range, possibly empty, of a level of the tree. */
    lemma HalfRange(level: nat, lo: nat, hi: nat)
      requires lo <= hi + 1 && InTree(maxTreeLevel, level, Max(lo, hi))
      ensures Max(lo / 2, hi / 2) == Max(lo, hi) / 2 && lo / 2 <= hi / 2 + 1
      ensures InTreeOrPhantom(level + 1, Max(lo, hi) / 2)
    {
      if level < maxTreeLevel {
        ParentInTree(maxTreeLevel, level, Max(lo, hi));
      }
    }

    method AreaSetTreeElement(level: nat, lo: nat, hi: nat, value: Word)
      requires Linked() && lo <= hi + 1 && InTree(maxTreeLevel, level, Max(lo, hi))
      modifies ram, `tree
      ensures Linked()
      ensures tree == SetRange(old(tree), level, lo, Max(lo, hi), value[..level + 1])
      ensures Kept(old(ram.cells), ram.cells, offset + end, offset + size, 0)
    {
      KeptSame(ram.cells, offset + end, offset + size, 0);
      hide Holds, Described, Kept;
      var esi := lo;
      while true
        invariant Linked() && lo <= esi <= Max(lo, hi)
        invariant SetRange(tree, level, esi, Max(lo, hi), value[..level + 1])
                  == SetRange(old(tree), level, lo, Max(lo, hi), value[..level + 1])
        invariant Kept(old(ram.cells), ram.cells, offset + end, offset + size, 0)
        decreases Max(lo, hi) - esi
      {
        ghost var m := ram.cells;
        SetNode(level, esi, value);
        KeptTrans(old(ram.cells), m, ram.cells, offset + end, offset + size, 0);
        esi := esi + 1;
        if !(esi <= hi) {
          break;
        }
      }
    }

    // ----- The state of the allocator -----

    /** The allocator's invariant: the bytes spell the canonical tree of the marked nodes, which
        own disjoint runs, and every leaf that meets the control structure is reserved. */
    ghost predicate Valid()
      reads this, ram
    {
      && Linked()
      && Antichain(maxTreeLevel, marks) && Canonical(maxTreeLevel, marks, tree)
      && reserved <= marks && (forall n | n in reserved :: n.level == 0)
      && Leaves(FullBlocks(end), Pow2(maxTreeLevel) - 1) <= reserved
    }

    /** A granted block. */
    ghost predicate Live(n: Node)
      reads `marks, `reserved
    {
      n in marks && n !in reserved
    }

    lemma ValidFacts()
      requires Valid()
      ensures Linked() && 3 <= maxTreeLevel <= 21 && 4 <= offset && offset + size <= SIGNED_LIMIT
      ensures size == end + Pow2(maxTreeLevel) / 2 && |ram.cells| == ADDRESS_SPACE
      ensures end <= size && offset + size <= |ram.cells|
      ensures Antichain(maxTreeLevel, marks) && Canonical(maxTreeLevel, marks, tree)
      ensures FullBlocks(end) < Pow2(maxTreeLevel)
      ensures reserved <= marks && (forall n | n in reserved :: n.level == 0)
      ensures Leaves(FullBlocks(end), Pow2(maxTreeLevel) - 1) <= reserved
      ensures forall b: nat | FullBlocks(end) <= b < Pow2(maxTreeLevel) :: Node(0, b) in reserved && Node(0, b) in marks
    {
      hide Holds, Described, Canonical, Antichain;
      assert Pow2(maxTreeLevel) >= 2;
    }

    lemma LastLeafReserved()
      requires Valid()
      ensures Node(0, Pow2(maxTreeLevel) - 1) in marks
      ensures !AllFree(maxTreeLevel, marks, maxTreeLevel, 0)
    {
      hide *;
      ValidFacts();
      RootNotFree(maxTreeLevel, marks, Pow2(maxTreeLevel) - 1);
    }

    /** No granted block meets the control structure. */
    lemma LiveBelowControl(n: Node)
      requires Valid() && Live(n)
      ensures offset <= BlockStart(offset, n) && BlockStart(offset, n) + BlockBytes(n) <= offset + end
    {
      LiveMeans(n);
      hide *;
      ValidFacts();
      BlockIs(offset, n);
      BlockBelow(maxTreeLevel, marks, offset, n, FullBlocks(end));
    }

    lemma LiveMeans(n: Node)
      requires Live(n)
      ensures n in marks && n !in reserved
    {
    }

    // ----- Searching -----

    method Allocate(level: nat, node: nat, mask: Word, e: nat) returns (r: nat)
      requires Linked() && InTree(maxTreeLevel, level, node) && e <= level && e < 32 && mask == Mask(e)
      ensures r == Descend(tree, level, node, e)
      decreases level
    {
      hide Holds, Described, Mask, And, IsZero, Look;
      if level == e {
        return node;
      }
      ChildrenInTree(maxTreeLevel, level, node);
      var eax := GetNode(level - 1, 2 * node);
      MaskTests(eax, e);
      assert eax[..level][e] == eax[e];
      var child := 2 * node;
      if !IsZero(And(eax, mask)) {
        child := child + 1;
      }
      r := Allocate(level - 1, child, mask, e);
    }

    /** The power-of-two loop of kmalloc and krealloc. */
    method MeasureClass(blocks: nat) returns (power: nat, class_: nat)
      requires blocks >= 1
      ensures class_ == ClassOf(blocks) && power == Pow2(class_)
    {
      power, class_ := 1, 0;
      while power < blocks
        invariant power == Pow2(class_)
        invariant class_ > 0 ==> Pow2(class_ - 1) < blocks
        decreases blocks - power
      {
        power, class_ := power * 2, class_ + 1;
      }
      ClassUnique(blocks, class_);
    }

    /** What the climb reads at a level. */
    lemma Climbing(segment: nat, n: Node, level: nat)
      requires Valid() && n in marks && Up(segment, n.level) == n.index && segment < Pow2(maxTreeLevel) && level <= n.level
      ensures Linked() && InTree(maxTreeLevel, level, Up(segment, level)) && Up(segment, level + 1) == Up(segment, level) / 2
      ensures Look(tree, level, Up(segment, level)) == Zeros(level) <==> level < n.level
    {
      hide Holds, Described, Canonical, Look;
      ValidFacts();
      assert InTree(maxTreeLevel, n.level, n.index);
      UpInTree(segment, level, maxTreeLevel);
      ClimbBits(maxTreeLevel, marks, tree, n, segment, level);
      assert Ones(level)[0] && !Zeros(level)[0];
    }

    /** The climbing loop of kmsz and krealloc: it stops on the marked node that owns the leaf. */
    method MeasureLevel(segment: nat, ghost n: Node) returns (level: nat)
      requires Valid() && n in marks && Up(segment, n.level) == n.index && segment < Pow2(maxTreeLevel)
      ensures level == n.level
    {
      hide *;
      var edi := segment;
      level := 0;
      UpNothing(segment);
      while true
        invariant level <= n.level && edi == Up(segment, level)
        decreases n.level - level
      {
        Climbing(segment, n, level);
        var eax := GetNode(level, edi);
        if !IsZero(eax) {
          break;
        }
        level, edi := level + 1, edi / 2;
      }
    }

    /** The segment number of a byte of a granted block. */
    lemma LiveSegment(p: nat, n: Node)
      requires Valid() && Live(n) && InBlock(offset, n, p)
      ensures p >= offset && Segment(offset, p) < Pow2(maxTreeLevel)
      ensures Up(Segment(offset, p), n.level) == n.index
    {
      hide Holds, Described, Canonical, Beneath;
      BlockIs(offset, n);
      SegmentOf(offset, n, p);
      LeafBelow(maxTreeLevel, n, Segment(offset, p));
    }

    /** The size of the granted block that holds p, whatever byte of it p points to. */
    method Kmsz(p: nat, ghost n: Node) returns (bytes: nat)
      requires Valid() && Live(n) && InBlock(offset, n, p)
      ensures bytes == BlockBytes(n)
    {
      LiveSegment(p, n);
      LiveMeans(n);
      BlockIs(offset, n);
      hide Valid, InBlock, BlockBytes;
      var level := MeasureLevel(Segment(offset, p), n);
      var eax, ecx := 1, 0;
      while ecx < level
        invariant ecx <= level && eax == Pow2(ecx)
      {
        eax, ecx := eax * 2, ecx + 1;
      }
      bytes := ToBytes(eax);
    }

    // ----- Granting and releasing -----

    /** Marks a free node all ones and updates its ancestors, as kmalloc and krealloc do. */
    method GrantNode(level: nat, node: nat)
      requires Valid() && InTree(maxTreeLevel, level, node) && level < maxTreeLevel
      requires AllFree(maxTreeLevel, marks, level, node)
      modifies ram, `tree, `marks
      ensures Valid() && Node(level, node) !in old(marks) && marks == old(marks) + {Node(level, node)}
      ensures tree == Grant(maxTreeLevel, old(tree), Node(level, node))
      ensures Kept(old(ram.cells), ram.cells, offset + end, offset + size, 0)
    {
      hide Holds, Described, Kept, Canonical, Antichain, AllFree, BuddyOps.FullBuddify, BuddyTree.Put;
      ghost var m := ram.cells;
      GrantKeeps(maxTreeLevel, marks, tree, Node(level, node));
      SetNode(level, node, ALL_ONES);
      assert ALL_ONES[..level + 1] == Ones(level);
      ghost var m2 := ram.cells;
      FullBuddify(level, node);
      KeptTrans(m, m2, ram.cells, offset + end, offset + size, 0);
      marks := marks + {Node(level, node)};
    }

    /** An aligned free run of 2^e blocks exists in the arena. */
    ghost predicate RunExists(e: nat)
      reads `maxTreeLevel, `marks
    {
      e <= maxTreeLevel && HasRun(maxTreeLevel, marks, maxTreeLevel, 0, e)
    }

    lemma RunExistsIs(e: nat)
      ensures RunExists(e) <==> e <= maxTreeLevel && HasRun(maxTreeLevel, marks, maxTreeLevel, 0, e)
    {
    }

    /** kmalloc's test of the root, for any 32-bit request: it says whether a run of the request's
        class exists exactly if the request is for at least one byte and at most the whole tree. */
    method RootTest(n: nat) returns (passes: bool, class_: nat)
      requires Valid() && n < ADDRESS_SPACE
      ensures class_ == RequestClass(n)
      ensures passes <==> class_ > maxTreeLevel || RunExists(class_)
      ensures (passes <==> RunExists(class_)) <==> 1 <= n <= ToBytes(Pow2(maxTreeLevel))
    {
      hide *;
      ValidFacts();
      RequestInTree(n, maxTreeLevel);
      var edx;
      edx, class_ := MeasureClass(RequestBlocks(n));
      RequestClassIs(n);
      RunExistsIs(class_);
      var ebx := Mask(class_);
      RootInTree();
      var eax := GetNode(maxTreeLevel, 0);
      MaskTests(eax, class_);
      if class_ <= maxTreeLevel {
        RootBit(eax, class_);
      }
      passes := IsZero(And(eax, ebx));
    }

    /** A request for at most the whole tree is a 32-bit number. */
    lemma WithinAddresses(n: nat)
      requires Valid() && n <= ToBytes(Pow2(maxTreeLevel))
      ensures n < ADDRESS_SPACE
    {
      hide Holds, Described, Canonical, Antichain;
      Pow2At21();
      Pow2Monotone(maxTreeLevel, 21);
    }

    lemma RequestClassIs(n: nat)
      ensures RequestClass(n) == ClassOf(RequestBlocks(n))
    {
    }

    /** Grants the lowest free run of the request's size class, if there is one. */
    method Kmalloc(n: nat) returns (p: nat)
      requires Valid() && 1 <= n <= ToBytes(Pow2(maxTreeLevel))
      modifies ram, `tree, `marks
      ensures Valid()
      ensures Kept(old(ram.cells), ram.cells, offset + end, offset + size, 0)
      ensures SizeClass(n) <= maxTreeLevel
      ensures p == 0 <==> !HasRun(maxTreeLevel, old(marks), maxTreeLevel, 0, SizeClass(n))
      ensures p == 0 ==> marks == old(marks) && tree == old(tree) && ram.cells == old(ram.cells)
      ensures p != 0 ==> exists q: nat :: Granted(old(marks), old(tree), SizeClass(n), q, p)
    {
      hide *;
      ValidFacts();
      ClassIs(n, maxTreeLevel);
      WithinAddresses(n);
      RequestInTree(n, maxTreeLevel);
      var passes, ecx := RootTest(n);
      RunExistsIs(ecx);
      if !passes {
        KeptSame(ram.cells, offset + end, offset + size, 0);
        return 0;
      }
      RootInTree();
      var x := Allocate(maxTreeLevel, 0, Mask(ecx), ecx);
      Choose(ecx, x);
      GrantNode(ecx, x);
      BlockIs(offset, Node(ecx, x));
      p := offset + ToBytes(ShiftLeft(x, ecx));
      NewBlockIsLive(old(marks), ecx, x);
      MakeGranted(old(marks), old(tree), ecx, x, p);
    }

    lemma RootInTree()
      ensures InTree(maxTreeLevel, maxTreeLevel, 0)
    {
    }

    lemma NewBlockIsLive(before: set<Node>, e: nat, q: nat)
      requires Node(e, q) !in before && Node(e, q) in marks
      requires reserved <= before
      ensures Live(Node(e, q))
    {
    }

    lemma MakeGranted(before: set<Node>, t: Tree, e: nat, q: nat, p: nat)
      requires e < maxTreeLevel && Lowest(maxTreeLevel, before, maxTreeLevel, 0, e, q)
      requires p == BlockStart(offset, Node(e, q))
      requires Node(e, q) !in before && marks == before + {Node(e, q)}
      requires tree == Grant(maxTreeLevel, t, Node(e, q)) && Live(Node(e, q))
      ensures Granted(before, t, e, q, p)
    {
    }

    /** Node (e, q) was granted at address p: it was the lowest free run of its class. */
    ghost predicate Granted(before: set<Node>, t: Tree, e: nat, q: nat, p: nat)
      reads this
    {
      && e < maxTreeLevel
      && Lowest(maxTreeLevel, before, maxTreeLevel, 0, e, q)
      && p == BlockStart(offset, Node(e, q))
      && Node(e, q) !in before && marks == before + {Node(e, q)}
      && tree == Grant(maxTreeLevel, t, Node(e, q))
      && Live(Node(e, q))
    }

    /** What kmalloc learns from the root. */
    lemma RootBit(eax: Word, e: nat)
      requires Valid() && e <= maxTreeLevel < 32 && eax[..maxTreeLevel + 1] == Look(tree, maxTreeLevel, 0)
      ensures eax[e] == !HasRun(maxTreeLevel, marks, maxTreeLevel, 0, e)
    {
      CanonBits(maxTreeLevel, marks, maxTreeLevel, 0);
      assert eax[..maxTreeLevel + 1][e] == eax[e];
    }

    /** What the descent from the root finds. */
    lemma Choose(e: nat, x: nat)
      requires Valid() && e <= maxTreeLevel && HasRun(maxTreeLevel, marks, maxTreeLevel, 0, e)
      requires x == Descend(tree, maxTreeLevel, 0, e)
      ensures e < maxTreeLevel && InTree(maxTreeLevel, e, x)
      ensures AllFree(maxTreeLevel, marks, e, x) && Lowest(maxTreeLevel, marks, maxTreeLevel, 0, e, x)
    {
      hide Holds, Described;
      DescendFindsLowest(maxTreeLevel, marks, tree, maxTreeLevel, 0, e);
      DescendInTree(maxTreeLevel, tree, maxTreeLevel, 0, e);
      LastLeafReserved();
    }

    /** Clears a leaf of a granted block and updates its ancestors, as kfree does. */
    method ReleaseLeaf(segment: nat, ghost n: Node)
      requires Valid() && Live(n) && segment < Pow2(maxTreeLevel) && Up(segment, n.level) == n.index
      modifies ram, `tree, `marks
      ensures Valid() && marks == old(marks) - {n}
      ensures AllFree(maxTreeLevel, marks, n.level, n.index)
      ensures maxTreeLevel > 0 && tree == Release(maxTreeLevel, old(tree), segment)
      ensures Kept(old(ram.cells), ram.cells, offset + end, offset + size, 0)
    {
      hide Holds, Described, Kept, Canonical, Antichain, AllFree, BuddyOps.FullBuddify, BuddyTree.Put, Pow2, Up, Beneath;
      assert InTree(maxTreeLevel, 0, segment);
      ReleaseKeeps(maxTreeLevel, marks, tree, n, segment);
      ghost var m := ram.cells;
      SetNode(0, segment, ZERO);
      assert ZERO[..1] == [false];
      ghost var m2 := ram.cells;
      FullBuddify(0, segment);
      KeptTrans(m, m2, ram.cells, offset + end, offset + size, 0);
      marks := marks - {n};
    }

    /** Releases the granted block that holds p, whatever byte of it p points to. */
    method Kfree(p: nat, ghost n: Node)
      requires Valid() && Live(n) && InBlock(offset, n, p)
      modifies ram, `tree, `marks
      ensures Valid() && marks == old(marks) - {n}
      ensures AllFree(maxTreeLevel, marks, n.level, n.index)
      ensures maxTreeLevel > 0 && tree == Release(maxTreeLevel, old(tree), Segment(offset, p))
      ensures Kept(old(ram.cells), ram.cells, offset + end, offset + size, 0)
    {
      LiveSegment(p, n);
      hide *;
      ReleaseLeaf(Segment(offset, p), n);
    }

    // ----- Growing a block -----

    /** memmove that leaves the control structure as it is. */
    method CopyBytes(dst: nat, src: nat, bytes: nat)
      requires Valid() && (dst + bytes <= offset + end || dst == src)
      requires dst + bytes <= |ram.cells| && src + bytes <= |ram.cells|
      modifies ram
      ensures Valid()
      ensures dst + bytes <= |old(ram.cells)| && src + bytes <= |old(ram.cells)|
      ensures ram.cells == Memory.Ram<Byte>.Copied(old(ram.cells), dst, src, bytes)
    {
      hide *;
      ValidFacts();
      Unlink();
      ghost var m, base := ram.cells, offset + end;
      ram.MemMove(dst, src, bytes);
      if dst == src {
        CopiedOntoItself(m, src, bytes);
      } else {
        ArenaCopyHolds(maxTreeLevel, base, m, ram.cells, tree, dst, src, bytes);
      }
      Relink();
      MakeValid();
    }

    lemma MakeValid()
      requires Linked() && Antichain(maxTreeLevel, marks) && Canonical(maxTreeLevel, marks, tree)
      requires reserved <= marks && (forall n | n in reserved :: n.level == 0)
      requires FullBlocks(end) < Pow2(maxTreeLevel) && Leaves(FullBlocks(end), Pow2(maxTreeLevel) - 1) <= reserved
      ensures Valid()
    {
    }

    /** krealloc's second half: n has been released; its larger run is granted again in place
        if it is free, else any free run of the class. */
    method Regrant(segment: nat, newSize: nat, ebx: nat, ghost n: Node) returns (r: nat, ghost target: Node)
      requires Valid() && AllFree(maxTreeLevel, marks, n.level, n.index)
      requires Up(segment, n.level) == n.index && segment < Pow2(maxTreeLevel)
      requires 1 <= newSize <= ToBytes(Pow2(maxTreeLevel)) && ebx == SizeClass(newSize)
      requires n.level < ebx <= maxTreeLevel
      modifies ram, `tree, `marks
      ensures Valid() && Regranted(old(marks), old(tree), n, ebx, r)
      ensures Kept(old(ram.cells), ram.cells, offset + end, offset + size, 0)
      ensures r != 0 ==> target.level == ebx && target !in old(marks) && marks == old(marks) + {target} && Live(target)
      ensures r != 0 ==> r == BlockStart(offset, target)
    {
      hide *;
      ValidFacts();
      UpCompose(segment, n.level, ebx - n.level);
      UpInTree(segment, ebx, maxTreeLevel);
      var node := Up(segment, ebx);
      InTreeIs(maxTreeLevel, ebx, node);
      var w := GetNode(ebx, node);
      CanonicalAt(ebx, node);
      GrowTest(maxTreeLevel, marks, n, ebx);
      if IsZero(w) {
        RootOnly(ebx, node);
        GrantNode(ebx, node);
        BlockIs(offset, Node(ebx, node));
        r := offset + ToBytes(ShiftLeft(node, ebx));
        target := Node(ebx, node);
        NewBlockIsLive(old(marks), ebx, node);
        RegrantedInPlace(old(marks), old(tree), n, ebx, r);
      } else {
        r := Kmalloc(newSize);
        if r == 0 {
          target := n;
          RegrantedNot(old(marks), old(tree), n, ebx);
        } else {
          ghost var q: nat :| Granted(old(marks), old(tree), ebx, q, r);
          target := Node(ebx, q);
          RegrantedElsewhere(old(marks), old(tree), n, ebx, q, r);
        }
      }
    }

    /** Grows the block that holds p: in place if the larger run around it is free, else by moving;
        on failure the block stays released. The bytes from p on are moved, as many as the old
        block has: for a pointer to its first byte they are its contents. */
    method Krealloc(p: nat, newSize: nat, ghost n: Node) returns (r: nat)
      requires Valid() && Live(n) && InBlock(offset, n, p)
      requires 1 <= newSize <= ToBytes(Pow2(maxTreeLevel))
      modifies ram, `tree, `marks
      ensures Valid() && SizeClass(newSize) <= maxTreeLevel && 0 < maxTreeLevel
      ensures SizeClass(newSize) <= n.level ==>
                r == p && marks == old(marks) && tree == old(tree) && ram.cells == old(ram.cells)
      ensures SizeClass(newSize) > n.level ==>
                Regranted(old(marks) - {n}, Release(maxTreeLevel, old(tree), Segment(offset, p)), n, SizeClass(newSize), r)
      ensures BlockStart(offset, n) + BlockBytes(n) <= offset + end && p + BlockBytes(n) <= |old(ram.cells)|
      ensures |ram.cells| == |old(ram.cells)| && (r != 0 ==> r + BlockBytes(n) <= |ram.cells|)
      ensures r != 0 ==>
                var k := Below(p, BlockBytes(n), offset + end);
                ram.cells[r..r + k] == old(ram.cells)[p..p + k]
      ensures forall m: Node, a: nat | m in old(marks) && m != n && InBlock(offset, m, a) && a < offset + end ::
                ram.cells[a] == old(ram.cells)[a]
      ensures r == 0 ==> Kept(old(ram.cells), ram.cells, offset + end, offset + size, 0)
      ensures KeptBut(old(ram.cells), ram.cells, offset + end, offset + size, r, BlockBytes(n))
    {
      hide *;
      ValidFacts();
      LiveSegment(p, n);
      InsideArena(p, n);
      LiveMeans(n);
      BlockIs(offset, n);
      ClassIs(newSize, maxTreeLevel);
      ghost var m0, base, top := ram.cells, offset + end, offset + size;
      var segment := Segment(offset, p);
      var level := MeasureLevel(segment, n);
      var edx, ebx := MeasureClass(ToBlocks(newSize));
      var bytes := ToBytes(Pow2(level));
      if level >= ebx {
        CopiedOntoItself(ram.cells, p, bytes);
        CopyBytes(p, p, bytes);
        KeptSame(ram.cells, base, top, 0);
        KeptIsKeptBut(ram.cells, ram.cells, base, top, p, bytes);
        return p;
      }
      Kfree(p, n);
      ghost var m1, rest, target := ram.cells, marks, n;
      r, target := Regrant(segment, newSize, ebx, n);
      KeptTrans(m0, m1, ram.cells, base, top, 0);
      ValidFacts();
      if r == 0 {
        AllKept(m0, old(marks));
        KeptIsKeptBut(m0, ram.cells, base, top, 0, bytes);
        return;
      }
      BytesMonotone(n, target);
      MoveContents(r, p, bytes, target, m0);
      assert forall m: Node | m in old(marks) && m != n :: m in marks && m != target;
    }

    lemma KeptIsKeptBut(m: seq<Byte>, m2: seq<Byte>, lo: nat, hi: nat, at: nat, n: nat)
      requires Kept(m, m2, lo, hi, 0)
      ensures KeptBut(m, m2, lo, hi, at, n)
    {
    }

    /** A granted block lies below the control structure, and as many bytes from any of its bytes
        on lie in memory. */
    lemma InsideArena(p: nat, n: Node)
      requires Valid() && Live(n) && InBlock(offset, n, p)
      ensures BlockStart(offset, n) + BlockBytes(n) <= offset + end <= |ram.cells|
      ensures p < offset + end && p + BlockBytes(n) <= |ram.cells|
    {
      LiveBelowControl(n);
      hide Holds, Described, Canonical, Antichain;
    }

    /** No byte of any block changed if only the control structure did. */
    lemma AllKept(m0: seq<Byte>, all: set<Node>)
      requires Kept(m0, ram.cells, offset + end, offset + size, 0) && offset + end <= |m0|
      ensures |ram.cells| == |m0|
      ensures forall m: Node, a: nat | m in all && InBlock(offset, m, a) && a < offset + end :: ram.cells[a] == m0[a]
    {
    }

    /** krealloc's memmove: the old contents reach the new block, every other block keeps its own. */
    method MoveContents(dst: nat, src: nat, bytes: nat, ghost target: Node, ghost m0: seq<Byte>)
      requires Valid() && Live(target) && dst == BlockStart(offset, target) && bytes <= BlockBytes(target)
      requires src <= offset + end && src + bytes <= |ram.cells|
      requires Kept(m0, ram.cells, offset + end, offset + size, 0)
      modifies ram
      ensures Valid() && |ram.cells| == |m0| && dst + bytes <= |m0| && src + bytes <= |m0| && offset + end <= |m0|
      ensures var k := Below(src, bytes, offset + end); ram.cells[dst..dst + k] == m0[src..src + k]
      ensures KeptBut(m0, ram.cells, offset + end, offset + size, dst, bytes)
      ensures forall m: Node, a: nat | m in marks && m != target && InBlock(offset, m, a) && a < offset + end ::
                ram.cells[a] == m0[a]
    {
      hide *;
      ValidFacts();
      LiveMeans(target);
      LiveBelowControl(target);
      ghost var m1, base, top := ram.cells, offset + end, offset + size;
      KeptLength(m0, m1, base, top);
      CopyBytes(dst, src, bytes);
      MovedContents(m0, m1, ram.cells, dst, src, bytes, base, top);
      MovedKeeps(m0, m1, ram.cells, dst, src, bytes, base, top);
      ValidFacts();
      forall m: Node, a: nat | m in marks && m != target && InBlock(offset, m, a) && a < base
        ensures ram.cells[a] == m0[a]
      {
        OthersKept(maxTreeLevel, marks, offset, target, m, bytes, a);
      }
    }

    /** Where the grown block ends up: `rest` and `t` are the marks and the tree with n released. */
    ghost predicate Regranted(rest: set<Node>, t: Tree, n: Node, e: nat, r: nat)
      requires n.level < e <= maxTreeLevel
      reads this
    {
      var x := Up(n.index, e - n.level);
      if AllFree(maxTreeLevel, rest, e, x) then
        r == BlockStart(offset, Node(e, x)) && marks == rest + {Node(e, x)}
      else if HasRun(maxTreeLevel, rest, maxTreeLevel, 0, e) then
        exists q: nat ::
          && Lowest(maxTreeLevel, rest, maxTreeLevel, 0, e, q) && q != x
          && r == BlockStart(offset, Node(e, q)) && marks == rest + {Node(e, q)}
      else
        r == 0 && marks == rest && tree == t
    }

    lemma RegrantedInPlace(rest: set<Node>, t: Tree, n: Node, e: nat, r: nat)
      requires n.level < e <= maxTreeLevel
      requires AllFree(maxTreeLevel, rest, e, Up(n.index, e - n.level))
      requires r == BlockStart(offset, Node(e, Up(n.index, e - n.level)))
      requires marks == rest + {Node(e, Up(n.index, e - n.level))}
      ensures Regranted(rest, t, n, e, r)
    {
    }

    lemma RegrantedNot(rest: set<Node>, t: Tree, n: Node, e: nat)
      requires n.level < e <= maxTreeLevel
      requires !AllFree(maxTreeLevel, rest, e, Up(n.index, e - n.level))
      requires !HasRun(maxTreeLevel, rest, maxTreeLevel, 0, e)
      requires marks == rest && tree == t
      ensures Regranted(rest, t, n, e, 0)
    {
    }

    lemma RegrantedElsewhere(rest: set<Node>, t: Tree, n: Node, e: nat, q: nat, r: nat)
      requires n.level < e <= maxTreeLevel
      requires !AllFree(maxTreeLevel, rest, e, Up(n.index, e - n.level))
      requires HasRun(maxTreeLevel, rest, maxTreeLevel, 0, e)
      requires Granted(rest, t, e, q, r)
      ensures Regranted(rest, t, n, e, r)
      ensures Node(e, q) !in rest && marks == rest + {Node(e, q)} && Live(Node(e, q)) && r == BlockStart(offset, Node(e, q))
    {
      assert RunBelow(maxTreeLevel, rest, maxTreeLevel, 0, e, q);
    }

    lemma InTreeIs(k: nat, level: nat, node: nat)
      requires level <= k && node < Pow2(k - level)
      ensures InTree(k, level, node)
    {
    }

    lemma CanonicalAt(level: nat, node: nat)
      requires Canonical(maxTreeLevel, marks, tree) && level <= maxTreeLevel
      ensures Look(tree, level, node) == Canon(maxTreeLevel, marks, level, node)
    {
    }

    /** A wholly free node is below the root, whose last leaf is reserved. */
    lemma RootOnly(level: nat, node: nat)
      requires Valid() && InTree(maxTreeLevel, level, node) && AllFree(maxTreeLevel, marks, level, node)
      ensures level < maxTreeLevel
    {
      LastLeafReserved();
      hide Valid;
      assert Pow2(0) == 1;
    }

    // ----- Setting up and reserving -----

    /** The segment of an address clamped to the arena. */
    function ClampedSegment(p: int): nat
      requires size >= 1
      reads `offset, `size
    {
      Segment(offset, Clamp(p, offset, offset + size - 1))
    }

    /** Clamped segments are leaves of the tree, in order but for an empty region's. */
    lemma ClampedInTree(p: nat, bytes: nat)
      requires Valid() && size >= 1
      ensures ClampedSegment(p) <= ClampedSegment(p + bytes - 1) + 1
      ensures Max(ClampedSegment(p), ClampedSegment(p + bytes - 1)) < Pow2(maxTreeLevel)
    {
      SegmentInTree(p);
      SegmentInTree(p + bytes - 1);
    }

    lemma SegmentInTree(p: int)
      requires Valid() && size >= 1
      ensures ClampedSegment(p) < Pow2(maxTreeLevel)
    {
      hide Holds, Described, Canonical, Antichain;
    }

    lemma RegionCovered(p: nat, bytes: nat)
      requires size >= 1
      ensures forall a: nat | p <= a < p + bytes && offset <= a < offset + size ::
                ClampedSegment(p) <= Segment(offset, a) <= ClampedSegment(p + bytes - 1)
    {
    }

    /** Block b meets the region, an empty one standing for its first byte, or is the one nearest to
        a region outside the arena. */
    predicate Meets(p: nat, bytes: nat, b: nat)
      requires size >= 1
      reads `offset, `size
    {
      var last := p + if bytes == 0 then 0 else bytes - 1;
      if last < offset then b == 0
      else if p >= offset + size then b == (size - 1) / 1024
      else p < offset + 1024 * (b + 1) && offset + 1024 * b <= last
    }

    lemma RegionMet(p: nat, bytes: nat, b: nat)
      requires size >= 1
      requires ClampedSegment(p) <= b <= Max(ClampedSegment(p), ClampedSegment(p + bytes - 1))
      ensures Meets(p, bytes, b)
    {
    }

    /** Reserves every block that meets [p, p+bytes); outside the arena, the nearest block. A granted
        block of more than one leaf that the region meets is granted no more: what is not reserved
        of it is free. */
    method Kmres(p: nat, bytes: nat)
      requires Valid() && p + bytes <= SIGNED_LIMIT && size >= 1
      modifies ram, `tree, `marks, `reserved
      ensures Valid()
      ensures var lo, hi := ClampedSegment(p), Max(ClampedSegment(p), ClampedSegment(p + bytes - 1));
              marks == Spared(old(marks), lo, hi) + Leaves(lo, hi) && reserved == old(reserved) + Leaves(lo, hi)
      ensures forall a: nat | p <= a < p + bytes && offset <= a < offset + size :: Node(0, Segment(offset, a)) in reserved
      ensures forall b: nat | Node(0, b) in reserved && Node(0, b) !in old(reserved) :: Meets(p, bytes, b)
      ensures Kept(old(ram.cells), ram.cells, offset + end, offset + size, 4)
      ensures AboveRoot(maxTreeLevel, offset + end, old(ram.cells), ram.cells, tree)
    {
      hide *;
      ValidFacts();
      var last := ClampedSegment(p + bytes - 1);
      var first := ClampedSegment(p);
      ClampedInTree(p, bytes);
      RegionCovered(p, bytes);
      ReserveLeaves(first, last);
      LeavesAre(first, Max(first, last));
      forall b: nat | Node(0, b) in reserved && Node(0, b) !in old(reserved)
        ensures Meets(p, bytes, b)
      {
        LeafIn(first, Max(first, last), b);
        RegionMet(p, bytes, b);
      }
      MakeValid();
    }

    lemma LeafIn(lo: nat, hi: nat, b: nat)
      requires Node(0, b) in Leaves(lo, hi)
      ensures lo <= b <= hi
    {
    }

    lemma ReservedSpared(lo: nat, hi: nat)
      requires reserved <= marks && (forall n | n in reserved :: n.level == 0)
      ensures reserved <= Spared(marks, lo, hi)
    {
    }

    /** Marks leaves as reserved and updates their ancestors, as kmres and initializetree do. */
    method ReserveLeaves(first: nat, last: nat)
      requires Linked() && Antichain(maxTreeLevel, marks) && Canonical(maxTreeLevel, marks, tree)
      requires first <= last + 1 && Max(first, last) < Pow2(maxTreeLevel)
      requires reserved <= marks && (forall n | n in reserved :: n.level == 0)
      modifies ram, `tree, `marks, `reserved
      ensures Linked() && Antichain(maxTreeLevel, marks) && Canonical(maxTreeLevel, marks, tree)
      ensures marks == Spared(old(marks), first, Max(first, last)) + Leaves(first, Max(first, last))
      ensures old(reserved) <= Spared(old(marks), first, Max(first, last))
      ensures reserved == old(reserved) + Leaves(first, Max(first, last))
      ensures reserved <= marks && (forall n | n in reserved :: n.level == 0)
      ensures forall b: nat | first <= b <= Max(first, last) :: Node(0, b) in reserved
      ensures Kept(old(ram.cells), ram.cells, offset + end, offset + size, 4)
      ensures AboveRoot(maxTreeLevel, offset + end, old(ram.cells), ram.cells, tree)
    {
      hide *;
      Unlink();
      ghost var hi := Max(first, last);
      ghost var m, t := ram.cells, tree;
      InTreeIs(maxTreeLevel, 0, hi);
      ReservedSpared(first, hi);
      ReserveCanonical(maxTreeLevel, marks, tree, first, hi);
      ReserveIs(maxTreeLevel, tree, first, hi);
      OneWord();
      AreaSetTreeElement(0, first, last, Mask(0));
      assert Mask(0)[..0 + 1] == [true];
      ghost var m1 := ram.cells;
      AreaFullBuddify(0, first, last);
      AboveRootKept(maxTreeLevel, offset + end, m, m1, ram.cells, tree, offset + size);
      KeptWeaker(m, m1, offset + end, offset + size, 0, 4);
      KeptTrans(m, m1, ram.cells, offset + end, offset + size, 4);
      LeavesAre(first, hi);
      marks := Spared(marks, first, hi) + Leaves(first, hi);
      reserved := reserved + Leaves(first, hi);
    }

    /** The byte loop that zeroes [from, last). */
    method ClearBytes(from: nat, last: nat)
      requires from < last <= |ram.cells|
      modifies ram
      ensures Kept(old(ram.cells), ram.cells, from, last, 0)
      ensures forall a: nat | from <= a < last :: ram.cells[a] == ZERO_BYTE
    {
      var edi := from;
      while true
        invariant from <= edi < last && |ram.cells| == |old(ram.cells)|
        invariant forall a: nat | a < |ram.cells| && !(from <= a < edi) :: ram.cells[a] == old(ram.cells)[a]
        invariant forall a: nat | from <= a < edi :: ram.cells[a] == ZERO_BYTE
        decreases last - edi
      {
        ram.cells := ram.cells[edi := ZERO_BYTE];
        edi := edi + 1;
        if !(edi < last) {
          break;
        }
      }
    }

    /** A cleared control structure is that of an arena with nothing granted. */
    lemma StartLinked()
      requires |ram.cells| == ADDRESS_SPACE && Described(treeLevels, maxTreeLevel, offset + end) && 3 <= maxTreeLevel <= 21
      requires 4 <= offset && offset + size <= SIGNED_LIMIT && size == end + Pow2(maxTreeLevel) / 2
      requires size <= ToBytes(Pow2(maxTreeLevel))
      requires forall a: nat | offset + end <= a < offset + size :: ram.cells[a] == ZERO_BYTE
      requires tree == map[] && marks == {} && reserved == {}
      ensures Linked() && Antichain(maxTreeLevel, marks) && Canonical(maxTreeLevel, marks, tree)
      ensures reserved <= marks && (forall n | n in reserved :: n.level == 0)
    {
      hide Canonical, Holds, Described, Antichain;
      EmptyCanonical(maxTreeLevel);
      ClearedHolds(maxTreeLevel, offset + end, ram.cells, tree);
    }

    lemma NothingSpared(lo: nat, hi: nat)
      ensures Spared({}, lo, hi) == {}
    {
    }

    /** Clears the control structure, lays out the level tables and reserves the leaves that the
        control structure occupies or that lie past the arena. */
    method InitializeTree(ghost k: nat)
      requires |ram.cells| == ADDRESS_SPACE && offset + size <= |ram.cells| && 3 <= k <= 21
      requires |treeLevels| == 64 && treeLevels[0] == Pow2(k) && treeLevels[2 * (k + 1) + 1] == 0
      requires 4 <= offset && offset + size <= SIGNED_LIMIT && size == end + Pow2(k) / 2
      requires size <= ToBytes(Pow2(k)) && FullBlocks(end) < Pow2(k)
      modifies ram, `treeLevels, `maxTreeLevel, `tree, `marks, `reserved
      ensures Valid() && maxTreeLevel == k
      ensures marks == Leaves(FullBlocks(end), Pow2(k) - 1) && reserved == marks
      ensures Kept(old(ram.cells), ram.cells, offset + end, offset + size, 4)
      ensures AboveRoot(maxTreeLevel, offset + end, old(ram.cells), ram.cells, tree)
    {
      hide *;
      TreeNotEmpty(k);
      ghost var m, base, top := ram.cells, offset + end, offset + size;
      treeLevels := treeLevels[1 := end + offset];
      FirstDescribed(treeLevels, k, base);
      var edi := treeLevels[1];
      ClearBytes(edi, size + offset);
      ghost var m1 := ram.cells;

      edi := treeLevels[0] / 8 + end + offset;
      var ecx := treeLevels[0] / 2;
      var eax, ebx := 1, 2;
      NextLevel(k, 0, treeLevels[0]);
      while true
        invariant 1 <= eax <= k && ebx == eax + 1 && ecx == Pow2(k - eax)
        invariant edi == base + TableOffset(k, eax)
        invariant PartlyDescribed(treeLevels, k, base, eax)
        invariant |treeLevels| == 64 && treeLevels[0] == Pow2(k) && ram.cells == m1
        decreases k - eax
      {
        DescribeNext(treeLevels, k, base, eax, ecx, edi);
        NextLevel(k, eax, ecx);
        treeLevels := treeLevels[2 * eax := ecx][2 * eax + 1 := edi];
        maxTreeLevel := eax;
        edi := edi + (ecx * ebx - 1) / 8 + 1;
        eax, ebx, ecx := eax + 1, ebx + 1, ecx / 2;
        if ecx == 0 {
          break;
        }
      }
      assert maxTreeLevel == k && eax == k + 1;
      AllDescribed(treeLevels, k, base);
      tree, marks, reserved := map[], {}, {};
      StartLinked();
      eax := FullBlocks(end);
      ecx := treeLevels[0] - 1;
      if !(eax > ecx) {
        NothingSpared(eax, Max(eax, ecx));
        ReserveLeaves(eax, ecx);
        AboveRootKept(k, base, m, m1, ram.cells, tree, top);
      }
      KeptWeaker(m, m1, base, top, 0, 4);
      KeptTrans(m, m1, ram.cells, base, top, 4);
      MakeValid();
    }

    /** Sets the arena and builds the control structure in its last bytes. */
    method Kset(bytes: nat, start: nat)
      requires |ram.cells| == ADDRESS_SPACE && |treeLevels| == 64
      requires 4 <= start && start + bytes <= SIGNED_LIMIT
      requires 5 * BLOCK_SIZE <= bytes <= ToBytes(Pow2(ClassOf(FullBlocks(bytes))))
      requires ClassOf(FullBlocks(bytes)) <= 21 && treeLevels[2 * (ClassOf(FullBlocks(bytes)) + 1) + 1] == 0
      modifies this, ram
      ensures Valid() && offset == start && size == bytes && blockNumber == FullBlocks(bytes)
      ensures maxTreeLevel == ClassOf(FullBlocks(bytes))
      ensures marks == Leaves(FullBlocks(end), Pow2(maxTreeLevel) - 1) && reserved == marks
      ensures Kept(old(ram.cells), ram.cells, offset + end, offset + size, 4)
      ensures AboveRoot(maxTreeLevel, offset + end, old(ram.cells), ram.cells, tree)
    {
      hide *;
      ArenaSize(bytes);
      offset := start;
      size := bytes;
      blockNumber := FullBlocks(bytes);
      var ecx := TreeSize(blockNumber);
      treeLevels := treeLevels[0 := ecx];
      end := size - ((ecx - 1) / 2 + 1);
      InitializeTree(ClassOf(FullBlocks(bytes)));
    }

    /** The least power of two above one that is not below the number of blocks. */
    method TreeSize(blocks: nat) returns (leaves: nat)
      requires blocks >= 2
      ensures leaves == Pow2(ClassOf(blocks))
    {
      leaves := 1;
      ghost var e := 0;
      while true
        invariant leaves == Pow2(e) && e < ClassOf(blocks)
        decreases ClassOf(blocks) - e
      {
        leaves, e := leaves * 2, e + 1;
        if !(leaves < blocks) {
          break;
        }
        StillSmaller(blocks, e);
      }
      ClassReached(blocks, e);
    }
  }
}
