/** Blocks as address ranges, and the size class of a request. */
module BuddyBlocks {
  import opened Powers
  import opened BuddyTree
  import opened BuddySearch
  import opened BuddyLayout
  import opened BuddyBits
  import opened Words
  import Memory

  const BLOCK_SIZE: nat := 1024
  const ADDRESS_SPACE: nat := 0x1_0000_0000
  const SIGNED_LIMIT: nat := 0x8000_0000

  // ----- The arithmetic of the code -----

  function ShiftLeft(x: nat, c: nat): nat { x * Pow2(c) }

  function ToBytes(blocks: nat): nat { blocks * BLOCK_SIZE }

  function FullBlocks(bytes: nat): nat { bytes / BLOCK_SIZE }

  /** The blocks that n bytes need. */
  function ToBlocks(n: nat): (b: nat)
    requires n >= 1
    ensures b >= 1
  {
    (n - 1) / BLOCK_SIZE + 1
  }

  /** Blocks have 1 KiB: whole ones are counted, and requests rounded up. */
  lemma BlockCounts(n: nat)
    ensures FullBlocks(n) == n / 1024 && ToBytes(n) == 1024 * n
    ensures n >= 1 ==> 1024 * (ToBlocks(n) - 1) < n <= 1024 * ToBlocks(n)
  {
  }

  // ----- Size classes -----

  /** The least e with 2^e >= b. */
  function ClassOf(b: nat): nat {
    if b <= 1 then 0 else 1 + ClassOf((b + 1) / 2)
  }

  /** The level at which a request of n bytes is granted. */
  function SizeClass(n: nat): nat
    requires n >= 1
  {
    ClassOf(ToBlocks(n))
  }

  lemma {:induction false} ClassOfLeast(b: nat)
    ensures Pow2(ClassOf(b)) >= b
    ensures ClassOf(b) > 0 ==> Pow2(ClassOf(b) - 1) < b
  {
    if b > 1 {
      ClassOfLeast((b + 1) / 2);
    }
  }

  lemma ClassUnique(b: nat, e: nat)
    requires Pow2(e) >= b && (e > 0 ==> Pow2(e - 1) < b)
    ensures e == ClassOf(b)
  {
    ClassOfLeast(b);
    if e < ClassOf(b) {
      Pow2Monotone(e, ClassOf(b) - 1);
    } else if ClassOf(b) < e {
      Pow2Monotone(ClassOf(b), e - 1);
    }
  }

  /** A granted block is large enough, and less than twice too large unless it is one block. */
  lemma GrantedSize(n: nat)
    requires n >= 1
    ensures n <= 1024 * Pow2(SizeClass(n))
    ensures SizeClass(n) > 0 ==> 1024 * Pow2(SizeClass(n)) < 2 * n
  {
    ClassOfLeast(ToBlocks(n));
  }

  /** The class that the code computes for any 32-bit request: a request of 0 bytes wraps. */
  function RequestBlocks(n: nat): (b: nat)
    ensures b >= 1
  {
    (n + ADDRESS_SPACE - 1) % ADDRESS_SPACE / BLOCK_SIZE + 1
  }

  function RequestClass(n: nat): nat { ClassOf(RequestBlocks(n)) }

  lemma RequestWraps(n: nat)
    requires n < ADDRESS_SPACE
    ensures 1 <= RequestBlocks(n) <= 0x40_0000
    ensures n == 0 ==> RequestBlocks(n) == 0x40_0000
    ensures n >= 1 ==> RequestBlocks(n) == ToBlocks(n)
  {
    if n >= 1 {
      assert n + ADDRESS_SPACE - 1 == (n - 1) + 1 * ADDRESS_SPACE;
    }
  }

  lemma ToBlocksOrder(n: nat, b: nat)
    requires n >= 1
    ensures ToBlocks(n) <= b <==> n <= ToBytes(b)
  {
  }

  /** A class is at most k exactly for the block counts up to 2^k. */
  lemma ClassWithin(b: nat, k: nat)
    ensures ClassOf(b) <= k <==> b <= Pow2(k)
  {
    hide ClassOf;
    hide Pow2;
    ClassOfLeast(b);
    if ClassOf(b) <= k {
      Pow2Monotone(ClassOf(b), k);
    } else {
      Pow2Monotone(k, ClassOf(b) - 1);
    }
  }

  lemma Pow2At22()
    ensures Pow2(22) == 0x40_0000
  {
    Pow2At21();
    Pow2Double(21);
  }

  /** That class lies in the tree exactly for the requests from one byte to the whole of it. */
  lemma RequestInTree(n: nat, k: nat)
    requires n < ADDRESS_SPACE && k <= 21
    ensures RequestClass(n) <= k <==> 1 <= n <= ToBytes(Pow2(k))
    ensures n >= 1 ==> RequestClass(n) == SizeClass(n)
    ensures RequestClass(n) < 32
  {
    hide *;
    RequestWraps(n);
    RequestClassSteps(n);
    Pow2At21();
    Pow2At22();
    Pow2Monotone(k, 21);
    ClassWithin(RequestBlocks(n), k);
    ClassWithin(RequestBlocks(n), 22);
    if n >= 1 {
      ToBlocksOrder(n, Pow2(k));
    }
  }

  lemma RequestClassSteps(n: nat)
    ensures RequestClass(n) == ClassOf(RequestBlocks(n))
    ensures n >= 1 ==> SizeClass(n) == ClassOf(ToBlocks(n))
  {
  }

  // ----- Address ranges -----

  function BlockBytes(n: Node): nat { ToBytes(Pow2(n.level)) }

  function BlockStart(offset: nat, n: Node): (p: nat)
    ensures p >= offset
  {
    offset + ToBytes(ShiftLeft(n.index, n.level))
  }

  /** Blocks in bytes: 1 KiB times a power of two, aligned to their size from the offset on. */
  lemma BlockPlace(offset: nat, n: Node)
    ensures BlockBytes(n) == 1024 * Pow2(n.level)
    ensures BlockStart(offset, n) == offset + n.index * (1024 * Pow2(n.level))
  {
    assert n.index * Pow2(n.level) * 1024 == n.index * (1024 * Pow2(n.level));
  }

  lemma BlockIs(offset: nat, n: Node)
    ensures BlockStart(offset, n) == offset + ToBytes(ShiftLeft(n.index, n.level))
    ensures BlockBytes(n) == ToBytes(Pow2(n.level))
  {
  }

  /** The segment of an address: its block number counted from the offset. */
  function Segment(offset: nat, p: nat): nat {
    if p < offset then 0 else (p - offset) / BLOCK_SIZE
  }

  predicate InBlock(offset: nat, n: Node, p: nat) {
    BlockStart(offset, n) <= p < BlockStart(offset, n) + BlockBytes(n)
  }

  /** A byte belongs to a node's block exactly when its segment lies below the node. */
  lemma SegmentOf(offset: nat, n: Node, p: nat)
    requires p >= offset
    ensures InBlock(offset, n, p) <==> Up(Segment(offset, p), n.level) == n.index
  {
    var b, x := Segment(offset, p), n.index * Pow2(n.level);
    UpRange(b, n.level, n.index);
    NextRun(n.index, Pow2(n.level));
    assert x <= b < x + Pow2(n.level) <==> x * BLOCK_SIZE <= p - offset < (x + Pow2(n.level)) * BLOCK_SIZE;
  }

  /** Distinct marked nodes own disjoint byte ranges. */
  lemma BlocksDisjoint(k: nat, marks: set<Node>, offset: nat, m: Node, n: Node)
    requires Antichain(k, marks) && m in marks && n in marks && m != n
    ensures BlockStart(offset, m) + BlockBytes(m) <= BlockStart(offset, n)
            || BlockStart(offset, n) + BlockBytes(n) <= BlockStart(offset, m)
  {
    RunsDisjoint(k, marks, m, n);
    NextRun(m.index, Pow2(m.level));
    NextRun(n.index, Pow2(n.level));
  }

  /** If the leaves from `limit` on are marked as single leaves, every other marked node's block
      ends at or below leaf `limit`. */
  lemma BlockBelow(k: nat, marks: set<Node>, offset: nat, n: Node, limit: nat)
    requires Antichain(k, marks) && n in marks && limit < Pow2(k)
    requires forall b: nat | limit <= b < Pow2(k) :: Node(0, b) in marks && Node(0, b) != n
    ensures BlockStart(offset, n) + BlockBytes(n) <= offset + limit * BLOCK_SIZE
  {
    var p := Pow2(n.level);
    NextRun(n.index, p);
    var last := n.index * p + p - 1;
    UpRange(last, n.level, n.index);
    if limit <= last {
      LeafBelow(k, n, last);
      OtherOwner(k, marks, n, last);
    }
  }

  lemma OtherOwner(k: nat, marks: set<Node>, n: Node, b: nat)
    requires Antichain(k, marks) && n in marks && Up(b, n.level) == n.index
    ensures Node(0, b) !in marks || Node(0, b) == n
  {
    if Node(0, b) in marks {
      assert Up(b, 0) == b;
      OwnerUnique(k, marks, Node(0, b), n, b);
    }
  }

  lemma LeafBelow(k: nat, n: Node, b: nat)
    requires InTree(k, n.level, n.index) && Up(b, n.level) == n.index
    ensures b < Pow2(k)
  {
    assert n.index < Pow2(k - n.level);
    DownInTree(b, n.level, k - n.level);
  }

  /** A tree with a marked leaf is not wholly free. */
  lemma RootNotFree(k: nat, marks: set<Node>, b: nat)
    requires Node(0, b) in marks && b < Pow2(k)
    ensures !AllFree(k, marks, k, 0)
  {
    if AllFree(k, marks, k, 0) {
      UpInTree(b, k, k);
      AllFreeBelow(k, marks, 0, b, k);
    }
  }

  // ----- Moving a block's contents -----

  /** Copying into the block of a marked node leaves every other marked node's bytes alone. */
  lemma OthersKept(k: nat, marks: set<Node>, offset: nat, target: Node, m: Node, bytes: nat, a: nat)
    requires Antichain(k, marks) && target in marks && m in marks && m != target
    requires bytes <= BlockBytes(target) && InBlock(offset, m, a)
    ensures !(BlockStart(offset, target) <= a < BlockStart(offset, target) + bytes)
  {
    BlocksDisjoint(k, marks, offset, target, m);
  }

  /** A block and a same-class block that is not its ancestor share no byte. */
  lemma MovedApart(offset: nat, n: Node, e: nat, q: nat, a: nat)
    requires n.level <= e && q != Up(n.index, e - n.level) && a >= offset
    requires InBlock(offset, n, a)
    ensures !InBlock(offset, Node(e, q), a)
  {
    SegmentOf(offset, n, a);
    SegmentOf(offset, Node(e, q), a);
    UpCompose(Segment(offset, a), n.level, e - n.level);
  }

  /** After n is released, its ancestor at level e is free exactly when it reads zero. */
  lemma GrowTest(k: nat, rest: set<Node>, n: Node, e: nat)
    requires n.level < e <= k && AllFree(k, rest, n.level, n.index)
    ensures Canon(k, rest, e, Up(n.index, e - n.level)) == Zeros(e) <==> AllFree(k, rest, e, Up(n.index, e - n.level))
  {
    FreeIsZero(k, rest, n.level, n.index);
    ClearAbove(k, rest, n.level, n.index, e - n.level);
    ZeroIsFree(k, rest, e, Up(n.index, e - n.level));
  }

  lemma BytesMonotone(m: Node, n: Node)
    requires m.level <= n.level
    ensures BlockBytes(m) <= BlockBytes(n)
  {
    Pow2Monotone(m.level, n.level);
  }

  /** Of n bytes from p on, those below `limit`. */
  function Below(p: nat, n: nat, limit: nat): (k: nat)
    ensures k <= n && (p <= limit ==> p + k <= limit)
    ensures p + n <= limit ==> k == n
  {
    if p + n <= limit then n else if p < limit then limit - p else 0
  }

  /** A block copy after updates confined to the control structure at [lo, hi). */
  lemma MovedContents(m: seq<Byte>, m1: seq<Byte>, m2: seq<Byte>, dst: nat, src: nat, bytes: nat, lo: nat, hi: nat)
    requires Kept(m, m1, lo, hi, 0) && lo <= |m|
    requires src <= lo && src + bytes <= |m| && dst + bytes <= lo
    requires m2 == Memory.Ram<Byte>.Copied(m1, dst, src, bytes)
    ensures var k := Below(src, bytes, lo); |m2| == |m| && m2[dst..dst + k] == m[src..src + k]
    ensures forall a: nat | a < lo && !(dst <= a < dst + bytes) :: m2[a] == m[a]
  {
    var k := Below(src, bytes, lo);
    assert forall a: nat | a < lo :: m1[a] == m[a];
    assert m2[dst..dst + bytes] == m1[src..src + bytes];
    assert m2[dst..dst + k] == m2[dst..dst + bytes][..k] == m1[src..src + k] == m[src..src + k];
    assert forall a: nat | a < lo && !(dst <= a < dst + bytes) :: m2[a] == m1[a];
  }

  /** Besides [lo, hi) only the n bytes from `at` on may have changed. */
  ghost predicate KeptBut(m: seq<Byte>, m2: seq<Byte>, lo: nat, hi: nat, at: nat, n: nat) {
    |m2| == |m| && forall a: nat | a < |m| && !(lo <= a < hi) && !(at <= a < at + n) :: m2[a] == m[a]
  }

  lemma MovedKeeps(m: seq<Byte>, m1: seq<Byte>, m2: seq<Byte>, dst: nat, src: nat, bytes: nat, lo: nat, hi: nat)
    requires Kept(m, m1, lo, hi, 0) && src + bytes <= |m| && dst + bytes <= |m|
    requires m2 == Memory.Ram<Byte>.Copied(m1, dst, src, bytes)
    ensures KeptBut(m, m2, lo, hi, dst, bytes)
  {
  }

  lemma CopiedOntoItself(m: seq<Byte>, at: nat, bytes: nat)
    requires at + bytes <= |m|
    ensures Memory.Ram<Byte>.Copied(m, at, at, bytes) == m
  {
  }

  lemma ClassIs(n: nat, k: nat)
    requires 1 <= n <= ToBytes(Pow2(k))
    ensures SizeClass(n) == ClassOf(ToBlocks(n)) && SizeClass(n) <= k
  {
    ToBlocksOrder(n, Pow2(k));
    ClassWithin(ToBlocks(n), k);
  }

  /** A copy that stays below the control structure keeps its tree. */
  lemma ArenaCopyHolds(k: nat, base: nat, m: seq<Byte>, m2: seq<Byte>, t: Tree, dst: nat, src: nat, bytes: nat)
    requires k >= 3 && Holds(k, base, m, t) && dst + bytes <= base <= |m| && src + bytes <= |m|
    requires m2 == Memory.Ram<Byte>.Copied(m, dst, src, bytes)
    ensures Holds(k, base, m2, t)
  {
    SameBytesHold(k, base, m, m2, t);
  }

  // ----- Sizing the tree -----

  lemma Pow2Double(e: nat)
    ensures Pow2(e + 1) == Pow2(e) * 2
  {
  }

  lemma Pow2At21()
    ensures Pow2(3) == 8 && Pow2(21) == 0x20_0000
  {
    assert Pow2(3) == 8 && Pow2(5) == 0x20 && Pow2(7) == 0x80 && Pow2(9) == 0x200 && Pow2(11) == 0x800;
    assert Pow2(13) == 0x2000 && Pow2(15) == 0x8000 && Pow2(17) == 0x2_0000 && Pow2(19) == 0x8_0000;
  }

  /** At least five blocks and at most 2^21 of them. */
  lemma ClassRange(b: nat)
    requires 5 <= b <= 0x20_0000
    ensures 3 <= ClassOf(b) <= 21 && Pow2(ClassOf(b) - 1) < b
  {
    ClassOfLeast(b);
    Pow2At21();
    Pow2Order(ClassOf(b), 3);
    Pow2Order(21, ClassOf(b));
  }

  /** The control structure fits the arena and leaves its first byte to a leaf of the tree. */
  lemma ArenaSize(bytes: nat)
    requires 5 * BLOCK_SIZE <= bytes <= SIGNED_LIMIT && bytes <= ToBytes(Pow2(ClassOf(FullBlocks(bytes))))
    ensures SIGNED_LIMIT <= ADDRESS_SPACE && FullBlocks(bytes) >= 2
    ensures var k := ClassOf(FullBlocks(bytes));
            && 3 <= k <= 21 && Pow2(k) / 2 < bytes
            && (Pow2(k) - 1) / 2 + 1 == Pow2(k) / 2
            && FullBlocks(bytes - Pow2(k) / 2) < Pow2(k)
  {
    var b := FullBlocks(bytes);
    ClassRange(b);
    var h := Pow2(ClassOf(b) - 1);
    Pow2Double(ClassOf(b) - 1);
    HalfReserved(bytes, h, Pow2(ClassOf(b)));
  }

  lemma HalfReserved(bytes: nat, h: nat, n: nat)
    requires n == h * 2 && 1 <= h < FullBlocks(bytes) && bytes <= ToBytes(n)
    ensures n / 2 < bytes && (n - 1) / 2 + 1 == n / 2 && FullBlocks(bytes - n / 2) < n
  {
  }

  lemma StillSmaller(blocks: nat, e: nat)
    requires Pow2(e) < blocks
    ensures e < ClassOf(blocks)
  {
    ClassOfLeast(blocks);
    Pow2Order(ClassOf(blocks), e);
  }

  lemma ClassReached(blocks: nat, e: nat)
    requires Pow2(e) >= blocks && e <= ClassOf(blocks)
    ensures e == ClassOf(blocks)
  {
    ClassOfLeast(blocks);
    Pow2Order(e, ClassOf(blocks));
  }
}
