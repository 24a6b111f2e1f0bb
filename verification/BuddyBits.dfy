/** Single nodes read from and written to the packed bytes through 32-bit registers. */
module BuddyBits {
  import opened Powers
  import opened Words
  import opened BuddyTree
  import opened BuddyLayout

  /** From address `low` on, memory outside [lo, hi) is unchanged. */
  ghost predicate Kept(m: seq<Byte>, m2: seq<Byte>, lo: nat, hi: nat, low: nat) {
    |m2| == |m| && forall a: nat | low <= a < |m| && !(lo <= a < hi) :: m2[a] == m[a]
  }

  lemma KeptSame(m: seq<Byte>, lo: nat, hi: nat, low: nat)
    ensures Kept(m, m, lo, hi, low)
  {
  }

  lemma KeptTrans(m: seq<Byte>, m2: seq<Byte>, m3: seq<Byte>, lo: nat, hi: nat, low: nat)
    requires Kept(m, m2, lo, hi, low) && Kept(m2, m3, lo, hi, low)
    ensures Kept(m, m3, lo, hi, low)
  {
  }

  lemma KeptWeaker(m: seq<Byte>, m2: seq<Byte>, lo: nat, hi: nat, low: nat, low2: nat)
    requires Kept(m, m2, lo, hi, low) && low <= low2
    ensures Kept(m, m2, lo, hi, low2)
  {
  }

  lemma KeptNarrow(m: seq<Byte>, m2: seq<Byte>, lo: nat, hi: nat, low: nat)
    requires Kept(m, m2, 0, 0, low)
    ensures Kept(m, m2, lo, hi, low)
  {
  }

  lemma HoldsSpells(k: nat, base: nat, m: seq<Byte>, t: Tree, level: nat, node: nat)
    requires Holds(k, base, m, t) && InTree(k, level, node)
    ensures level <= k && |Look(t, level, node)| == level + 1
    ensures Spells(m, 8 * base + NodeBit(k, level, node), Look(t, level, node))
  {
    assert HoldsAt(k, base, m, t, level, node);
  }

  lemma KeptLength(m: seq<Byte>, m2: seq<Byte>, lo: nat, hi: nat)
    requires Kept(m, m2, lo, hi, 0)
    ensures |m2| == |m|
  {
  }

  // ----- What a store does to the tree and to the bytes around it -----

  lemma AfterStore(k: nat, base: nat, m: seq<Byte>, m2: seq<Byte>, t: Tree, level: nat, node: nat, v: Bits)
    requires k >= 3 && InTree(k, level, node) && |v| == level + 1
    requires Holds(k, base, m, t) && Stored(m, m2, 8 * base + NodeBit(k, level, node), v)
    ensures Holds(k, base, m2, Put(t, level, node, v))
    ensures Kept(m, m2, base, base + Pow2(k) / 2, 0)
  {
    PutHolds(k, base, m, m2, t, level, node, v);
    StoredBytes(m, m2, 8 * base + NodeBit(k, level, node), v);
    NodeInReserve(k, level, node);
  }

  lemma AfterPhantom(k: nat, base: nat, m: seq<Byte>, m2: seq<Byte>, t: Tree, v: Bits)
    requires Holds(k, base, m, t) && Stored(m, m2, 0, v) && |v| <= 32 && 4 <= base
    ensures Holds(k, base, m2, t)
    ensures Kept(m, m2, 0, 0, 4)
  {
    StoreOutsideHolds(k, base, m, m2, t, 0, v);
    StoredBytes(m, m2, 0, v);
  }

  // ----- Loading and storing four bytes -----

  /** The four bytes at `at`, byte-swapped: bit p is bit 31-p of the memory there. */
  ghost predicate Reads(m: seq<Byte>, at: nat, w: Word)
    requires at + 4 <= |m|
  {
    forall p: nat | p < 32 :: w[p] == BitAt(m, 8 * at + 31 - p)
  }

  lemma LoadedBits(m: seq<Byte>, at: nat, w: Word)
    requires at + 4 <= |m|
    requires w == ByteSwap(FromBytes(m[at], m[at + 1], m[at + 2], m[at + 3]))
    ensures Reads(m, at, w)
  {
    forall p: nat | p < 32
      ensures w[p] == BitAt(m, 8 * at + 31 - p)
    {
      SwappedBit(m[at], m[at + 1], m[at + 2], m[at + 3], p);
      assert (8 * at + 31 - p) / 8 == at + 3 - p / 8 && 7 - (8 * at + 31 - p) % 8 == p % 8;
    }
  }

  /** Rewriting four bytes changes memory bits as it changes the register's. */
  lemma RewrittenBits(m: seq<Byte>, m2: seq<Byte>, at: nat, w: Word, w2: Word)
    requires at + 4 <= |m| == |m2| && Reads(m, at, w) && Reads(m2, at, w2)
    requires forall a: nat | a < |m| && !(at <= a < at + 4) :: m2[a] == m[a]
    ensures forall g: nat | g < 8 * |m| ::
              if 8 * at <= g < 8 * at + 32
              then BitAt(m, g) == w[8 * at + 31 - g] && BitAt(m2, g) == w2[8 * at + 31 - g]
              else BitAt(m2, g) == BitAt(m, g)
  {
    forall g: nat | g < 8 * |m| && 8 * at <= g < 8 * at + 32
      ensures BitAt(m, g) == w[8 * at + 31 - g] && BitAt(m2, g) == w2[8 * at + 31 - g]
    {
      var p := 8 * at + 31 - g;
      assert w[p] == BitAt(m, 8 * at + 31 - p) && w2[p] == BitAt(m2, 8 * at + 31 - p);
      assert 8 * at + 31 - p == g;
    }
  }

  /** Replacing level+1 bits of the register from stream position `first` on stores them there. */
  lemma Spliced(m: seq<Byte>, m2: seq<Byte>, at: nat, first: nat, level: nat, w: Word, value: Word, w2: Word)
    requires at + 4 <= |m| == |m2| && Reads(m, at, w) && Reads(m2, at, w2)
    requires forall a: nat | a < |m| && !(at <= a < at + 4) :: m2[a] == m[a]
    requires first + level < 32 && Merged(w, first, level, value, w2)
    ensures Stored(m, m2, 8 * at + first, value[..level + 1])
  {
    RewrittenBits(m, m2, at, w, w2);
    var v := value[..level + 1];
    forall g: nat | g < 8 * |m|
      ensures BitAt(m2, g) == if 8 * at + first <= g < 8 * at + first + |v| then v[8 * at + first + |v| - 1 - g] else BitAt(m, g)
    {
      if 8 * at <= g < 8 * at + 32 {
        var p := 8 * at + 31 - g;
        assert w2[p] == if 31 - level - first <= p <= 31 - first then value[p + first + level - 31] else w[p];
      }
    }
  }

  lemma SpellsUnique(m: seq<Byte>, first: nat, v: Bits, w: Bits)
    requires Spells(m, first, v) && Spells(m, first, w) && |v| == |w|
    ensures v == w
  {
    forall j: nat | j < |v|
      ensures v[j] == w[j]
    {
    }
  }

  /** Cleared bytes hold the tree of zeros. */
  lemma ClearedHolds(k: nat, base: nat, m: seq<Byte>, t: Tree)
    requires k >= 3 && base + Pow2(k) / 2 <= |m|
    requires forall a: nat | base <= a < base + Pow2(k) / 2 :: m[a] == ZERO_BYTE
    requires forall l: nat, i: nat {:trigger Look(t, l, i)} | l <= k :: Look(t, l, i) == Zeros(l)
    ensures Holds(k, base, m, t)
  {
    forall l: nat, i: nat | InTree(k, l, i)
      ensures HoldsAt(k, base, m, t, l, i)
    {
      var first := 8 * base + NodeBit(k, l, i);
      NodeInReserve(k, l, i);
      forall g: nat | first <= g <= first + l
        ensures !BitAt(m, g)
      {
        assert base <= g / 8 < base + Pow2(k) / 2;
      }
    }
  }

  // ----- The register arithmetic of buddify -----

  /** and-ing the children and moving the or of their top bits one place up gives Join. */
  function JoinWord(left: Word, right: Word, level: nat): Word
    requires 1 <= level < 32
  {
    Or(And(right, left), Shl(Shl(Or(Shr(right, level - 1), Shr(left, level - 1)), level - 1), 1))
  }

  lemma JoinWordBits(left: Word, right: Word, level: nat)
    requires 1 <= level < 32
    requires forall j: nat | level <= j < 32 :: !left[j] && !right[j]
    ensures JoinWord(left, right, level)[..level + 1] == Join(level, left[..level], right[..level])
  {
    var w := JoinWord(left, right, level);
    var l, r := left[..level], right[..level];
    assert forall j: nat | j < level :: w[j] == (left[j] && right[j]);
    assert w[level] == (left[level - 1] || right[level - 1]);
  }

  lemma ZeroWord(w: Word, level: nat)
    requires level < 32
    requires forall j: nat | level < j < 32 :: !w[j]
    ensures IsZero(w) <==> w[..level + 1] == Zeros(level)
  {
    if w[..level + 1] == Zeros(level) {
      forall j | 0 <= j < 32
        ensures !w[j]
      {
        assert j <= level ==> w[j] == w[..level + 1][j];
      }
    }
  }

  // ----- The node above the root -----

  /** The n bits of memory from `first` on, as a value. */
  function BitsAt(m: seq<Byte>, first: nat, n: nat): (v: Bits)
    requires first + n <= 8 * |m|
    ensures |v| == n && Spells(m, first, v)
  {
    seq(n, j requires 0 <= j < n => BitAt(m, first + n - 1 - j))
  }

  /** What the pass above the root leaves in the first four bytes of memory: k + 2 bits that the
      root and the k + 1 bits behind it determine as the children of a node, then the old bits. */
  ghost predicate AboveRoot(k: nat, base: nat, m0: seq<Byte>, m: seq<Byte>, t: Tree) {
    && |m| == |m0| && |m| >= 4 && k <= 21
    && 8 * base + NodeBit(k, k, 0) + 2 * (k + 1) <= 8 * |m|
    && Spells(m, 0, Join(k + 1, Look(t, k, 0), BitsAt(m, 8 * base + NodeBit(k, k, 0) + k + 1, k + 1)))
    && forall g: nat | k + 2 <= g < 32 :: BitAt(m, g) == BitAt(m0, g)
  }

  lemma MakeAboveRoot(k: nat, base: nat, m0: seq<Byte>, m: seq<Byte>, t: Tree, left: Bits, right: Bits)
    requires Holds(k, base, m0, t) && k <= 21 && 4 <= base <= |m0| && |left| == |right| == k + 1
    requires Spells(m0, 8 * base + NodeBit(k, k, 0), left) && Spells(m0, 8 * base + NodeBit(k, k, 0) + k + 1, right)
    requires Stored(m0, m, 0, Join(k + 1, left, right))
    ensures AboveRoot(k, base, m0, m, t)
  {
    hide Holds, NodeBit, Join, Spells, Stored, BitAt, BitsAt, Look, InTree;
    var first, v := 8 * base + NodeBit(k, k, 0), Join(k + 1, left, right);
    RootIsNode(k);
    HoldsSpells(k, base, m0, t, k, 0);
    SpellsUnique(m0, first, left, Look(t, k, 0));
    StoredSpells(m0, m, 0, v);
    SpellsElsewhere(m0, m, 0, v, first + k + 1, right);
    SpelledInside(m, first + k + 1, right);
    SpellsUnique(m, first + k + 1, right, BitsAt(m, first + k + 1, k + 1));
    StoredKeeps(m0, m, v);
  }

  lemma SpelledInside(m: seq<Byte>, first: nat, v: Bits)
    requires Spells(m, first, v)
    ensures first + |v| <= 8 * |m|
  {
  }

  lemma StoredKeeps(m0: seq<Byte>, m: seq<Byte>, v: Bits)
    requires Stored(m0, m, 0, v) && |m0| >= 4
    ensures |m| == |m0| && forall g: nat | |v| <= g < 32 :: BitAt(m, g) == BitAt(m0, g)
  {
  }

  lemma RootIsNode(k: nat)
    ensures InTree(k, k, 0)
  {
  }

  /** Changes above `base` before the pass make no difference. */
  lemma AboveRootKept(k: nat, base: nat, m0: seq<Byte>, m1: seq<Byte>, m: seq<Byte>, t: Tree, hi: nat)
    requires Kept(m0, m1, base, hi, 0) && AboveRoot(k, base, m1, m, t) && 4 <= base
    ensures AboveRoot(k, base, m0, m, t)
  {
    hide Spells, Join, NodeBit;
    forall g: nat | k + 2 <= g < 32
      ensures BitAt(m, g) == BitAt(m0, g)
    {
      assert BitAt(m, g) == BitAt(m1, g);
      assert m1[g / 8] == m0[g / 8];
    }
  }
}
