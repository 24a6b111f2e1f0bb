/** Where the level tables lie in the control structure. */
module BuddyLayout {
  import opened Powers
  import opened BuddyTree
  import opened Words

  /** Bytes given to the table of one level: N>>3 for the leaves, else its bits rounded up. */
  function TableBytes(k: nat, level: nat): nat
    requires level <= k
  {
    if level == 0 then Pow2(k) / 8 else ((level + 1) * Pow2(k - level) - 1) / 8 + 1
  }

  /** Byte offset of a level's table from the start of the control structure. */
  function TableOffset(k: nat, level: nat): nat
    requires level <= k + 1
  {
    if level == 0 then 0 else TableOffset(k, level - 1) + TableBytes(k, level - 1)
  }

  /** The bits that the nodes before `index` take up in a level's table. */
  function Packed(level: nat, index: nat): nat {
    if index == 0 then 0 else Packed(level, index - 1) + level + 1
  }

  lemma {:induction false} PackedBits(level: nat, index: nat)
    ensures Packed(level, index) == index * (level + 1)
  {
    if index > 0 {
      PackedBits(level, index - 1);
      assert (index - 1) * (level + 1) + level + 1 == index * (level + 1);
    }
  }

  /** Position of a node's first (most significant) bit in the control structure's bits. */
  function NodeBit(k: nat, level: nat, index: nat): nat
    requires level <= k
  {
    8 * TableOffset(k, level) + Packed(level, index)
  }

  lemma Pow2Eight(k: nat)
    requires k >= 3
    ensures Pow2(k) == 8 * Pow2(k - 3)
  {
    assert Pow2(k) == 2 * Pow2(k - 1) && Pow2(k - 1) == 2 * Pow2(k - 2) && Pow2(k - 2) == 2 * Pow2(k - 3);
  }

  /** A table has room for all nodes of its level. */
  lemma TableHolds(k: nat, level: nat)
    requires k >= 3 && level <= k
    ensures (level + 1) * Pow2(k - level) <= 8 * TableBytes(k, level)
  {
    Pow2Eight(k);
  }

  /** A node's bits end where a later node's may start. */
  lemma {:induction false} PackedOrdered(level: nat, i: nat, j: nat)
    requires i < j
    ensures Packed(level, i) + level + 1 <= Packed(level, j)
    decreases j - i
  {
    if i + 1 < j {
      PackedOrdered(level, i, j - 1);
    }
  }

  lemma NodeInTable(k: nat, level: nat, index: nat)
    requires k >= 3 && InTree(k, level, index)
    ensures Packed(level, index) + level + 1 <= 8 * TableBytes(k, level)
  {
    hide TableBytes, Packed, Pow2;
    TableHolds(k, level);
    PackedBits(level, Pow2(k - level));
    PackedOrdered(level, index, Pow2(k - level));
  }

  lemma {:induction false} TablesOrdered(k: nat, l: nat, m: nat)
    requires l < m <= k + 1
    ensures TableOffset(k, l) + TableBytes(k, l) <= TableOffset(k, m)
    decreases m - l
  {
    if l + 1 < m {
      TablesOrdered(k, l, m - 1);
    }
  }

  lemma TablesApart(k: nat, l: nat, i: nat, m: nat, j: nat)
    requires k >= 3 && InTree(k, l, i) && InTree(k, m, j) && l < m
    ensures NodeBit(k, l, i) + l + 1 <= NodeBit(k, m, j)
  {
    NodeInTable(k, l, i);
    TablesOrdered(k, l, m);
  }

  /** The bits of distinct nodes, of any levels, never share a place. */
  lemma NodesDisjoint(k: nat, l: nat, i: nat, m: nat, j: nat)
    requires k >= 3 && InTree(k, l, i) && InTree(k, m, j) && (l != m || i != j)
    ensures NodeBit(k, l, i) + l + 1 <= NodeBit(k, m, j) || NodeBit(k, m, j) + m + 1 <= NodeBit(k, l, i)
  {
    if l < m {
      TablesApart(k, l, i, m, j);
    } else if m < l {
      TablesApart(k, m, j, l, i);
    } else if i < j {
      PackedOrdered(l, i, j);
    } else {
      PackedOrdered(l, j, i);
    }
  }

  /** A level of at least eight nodes fills whole bytes: one byte per eight nodes and bit. */
  lemma WholeBytes(k: nat, level: nat)
    requires level + 3 <= k
    ensures TableBytes(k, level) == (level + 1) * Pow2(k - level - 3)
  {
    Pow2Eight(k - level);
    EightTimes(level + 1, Pow2(k - level - 3));
  }

  lemma EightTimes(a: nat, x: nat)
    requires a >= 1 && x >= 1
    ensures (a * (8 * x) - 1) / 8 + 1 == a * x
  {
    assert a * (8 * x) == 8 * (a * x);
    assert a * x >= 1;
  }

  /** Up to the last three levels the tables fill whole bytes. */
  lemma {:induction false} OffsetClosedForm(k: nat, level: nat)
    requires k >= 3 && level <= k - 2
    ensures TableOffset(k, level) + (level + 2) * Pow2(k - level - 2) == Pow2(k - 1)
  {
    if level == 0 {
      assert Pow2(k - 1) == 2 * Pow2(k - 2);
    } else {
      OffsetClosedForm(k, level - 1);
      WholeBytes(k, level - 1);
      ClosedFormStep(level, Pow2(k - level - 2));
      assert Pow2(k - (level - 1) - 2) == 2 * Pow2(k - level - 2);
    }
  }

  lemma ClosedFormStep(level: nat, x: nat)
    ensures (level + 1) * (2 * x) == level * x + (level + 2) * x
  {
  }

  lemma OffsetBeforeLastThree(k: nat)
    requires k >= 3
    ensures TableOffset(k, k - 2) + k == Pow2(k - 1)
  {
    OffsetClosedForm(k, k - 2);
    assert Pow2(k - (k - 2) - 2) == 1;
  }

  lemma SumOfRounded(k: nat)
    requires k >= 3
    ensures k / 8 + 1 + (k * 2 - 1) / 8 + 1 + ((k - 1) * 4 - 1) / 8 + 1 == k / 2 + (k + 3) / 4 + (k + 8) / 8
  {
    var q, r := k / 8, k % 8;
    assert k == 8 * q + r;
    assert (k * 2 - 1) / 8 + 1 == (k + 3) / 4;
    assert ((k - 1) * 4 - 1) / 8 + 1 == k / 2;
  }

  /** The exact size of all tables together. */
  lemma TablesTotal(k: nat)
    requires k >= 3
    ensures TableOffset(k, k + 1) + k == Pow2(k - 1) + k / 2 + (k + 3) / 4 + (k + 8) / 8
  {
    var a := TableBytes(k, k - 2);
    var b := TableBytes(k, k - 1);
    var c := TableBytes(k, k);
    assert TableOffset(k, k + 1) == TableOffset(k, k - 2) + a + b + c by {
      assert TableOffset(k, k - 1) == TableOffset(k, k - 2) + a;
      assert TableOffset(k, k) == TableOffset(k, k - 1) + b;
    }
    OffsetBeforeLastThree(k);
    SmallTables(k);
    SumOfRounded(k);
  }

  /** The last three levels have four, two and one node. */
  lemma SmallTables(k: nat)
    requires k >= 3
    ensures Pow2(0) == 1 && Pow2(1) == 2 && Pow2(2) == 4
    ensures TableBytes(k, k) == k / 8 + 1
    ensures TableBytes(k, k - 1) == (k * 2 - 1) / 8 + 1
    ensures TableBytes(k, k - 2) == ((k - 1) * 4 - 1) / 8 + 1
  {
    assert Pow2(0) == 1 && Pow2(1) == 2 && Pow2(2) == 4;
    assert Pow2(k - k) == 1 && Pow2(k - (k - 1)) == 2 && Pow2(k - (k - 2)) == 4;
  }

  /** The tables fit the N/2 bytes that kset sets aside, and fill them exactly for these k. */
  lemma TablesFit(k: nat)
    requires k >= 3
    ensures TableOffset(k, k + 1) <= Pow2(k) / 2
    ensures TableOffset(k, k + 1) == Pow2(k) / 2 <==> k in {3, 4, 5, 6, 8, 9, 10}
  {
    TablesTotal(k);
    RoundingLoss(k);
    assert Pow2(k) == 2 * Pow2(k - 1);
  }

  /** Every node's bits lie in the N/2 bytes set aside. */
  lemma NodeInReserve(k: nat, level: nat, index: nat)
    requires k >= 3 && InTree(k, level, index)
    ensures NodeBit(k, level, index) + level + 1 <= 8 * (Pow2(k) / 2)
  {
    NodeInTable(k, level, index);
    TablesFit(k);
    TablesOrdered(k, level, k + 1);
  }

  lemma RoundingLoss(k: nat)
    requires k >= 3
    ensures k / 2 + (k + 3) / 4 + (k + 8) / 8 <= k
    ensures k / 2 + (k + 3) / 4 + (k + 8) / 8 == k <==> k == 3 || k == 4 || k == 5 || k == 6 || k == 8 || k == 9 || k == 10
  {
    assert k == 8 * (k / 8) + k % 8;
  }

  // ----- The tables as bits of memory -----

  /** Bit g of memory, each byte read from its most significant bit. */
  predicate BitAt(m: seq<Byte>, g: nat)
    requires g < 8 * |m|
  {
    m[g / 8][7 - g % 8]
  }

  /** The bits from `first` on spell a node's value, its highest bit first. */
  ghost predicate Spells(m: seq<Byte>, first: nat, v: Bits) {
    first + |v| <= 8 * |m| && forall j: nat | j < |v| :: v[j] == BitAt(m, first + |v| - 1 - j)
  }

  /** The control structure at byte `base` of memory holds the tree. */
  ghost predicate Holds(k: nat, base: nat, m: seq<Byte>, t: Tree) {
    forall l: nat, i: nat {:trigger HoldsAt(k, base, m, t, l, i)} | InTree(k, l, i) :: HoldsAt(k, base, m, t, l, i)
  }

  ghost predicate HoldsAt(k: nat, base: nat, m: seq<Byte>, t: Tree, l: nat, i: nat)
    requires l <= k
  {
    |Look(t, l, i)| == l + 1 && Spells(m, 8 * base + NodeBit(k, l, i), Look(t, l, i))
  }

  /** Memory m2 is m with the bits from `first` on replaced by v, highest bit first. */
  ghost predicate Stored(m: seq<Byte>, m2: seq<Byte>, first: nat, v: Bits) {
    && |m2| == |m| && first + |v| <= 8 * |m|
    && (forall g: nat | g < 8 * |m| ::
          BitAt(m2, g) == if first <= g < first + |v| then v[first + |v| - 1 - g] else BitAt(m, g))
  }

  /** Get/put law: storing one node's bits changes that node and no other node of any level. */
  lemma PutHolds(k: nat, base: nat, m: seq<Byte>, m2: seq<Byte>, t: Tree, level: nat, index: nat, v: Bits)
    requires k >= 3 && Holds(k, base, m, t) && InTree(k, level, index) && |v| == level + 1
    requires Stored(m, m2, 8 * base + NodeBit(k, level, index), v)
    ensures Holds(k, base, m2, Put(t, level, index, v))
  {
    forall l: nat, i: nat | InTree(k, l, i)
      ensures HoldsAt(k, base, m2, Put(t, level, index, v), l, i)
    {
      PutHoldsAt(k, base, m, m2, t, level, index, v, l, i);
    }
  }

  lemma PutHoldsAt(k: nat, base: nat, m: seq<Byte>, m2: seq<Byte>, t: Tree, level: nat, index: nat, v: Bits, l: nat, i: nat)
    requires k >= 3 && InTree(k, level, index) && InTree(k, l, i) && |v| == level + 1 && level <= k && l <= k
    requires HoldsAt(k, base, m, t, l, i) && Stored(m, m2, 8 * base + NodeBit(k, level, index), v)
    ensures HoldsAt(k, base, m2, Put(t, level, index, v), l, i)
  {
    hide Holds, Stored, Spells, InTree, NodeBit;
    if l == level && i == index {
      StoredSpells(m, m2, 8 * base + NodeBit(k, level, index), v);
    } else {
      NodesDisjoint(k, l, i, level, index);
      SpellsElsewhere(m, m2, 8 * base + NodeBit(k, level, index), v, 8 * base + NodeBit(k, l, i), Look(t, l, i));
    }
  }

  lemma StoredSpells(m: seq<Byte>, m2: seq<Byte>, first: nat, v: Bits)
    requires Stored(m, m2, first, v)
    ensures Spells(m2, first, v)
  {
    forall j: nat | j < |v|
      ensures v[j] == BitAt(m2, first + |v| - 1 - j)
    {
      var g := first + |v| - 1 - j;
      assert first + |v| - 1 - g == j;
    }
  }

  lemma SpellsElsewhere(m: seq<Byte>, m2: seq<Byte>, first: nat, v: Bits, at: nat, w: Bits)
    requires Stored(m, m2, first, v) && Spells(m, at, w)
    requires at + |w| <= first || first + |v| <= at
    ensures Spells(m2, at, w)
  {
    forall j: nat | j < |w|
      ensures w[j] == BitAt(m2, at + |w| - 1 - j)
    {
      var g := at + |w| - 1 - j;
      assert BitAt(m2, g) == BitAt(m, g);
    }
  }

  /** Storing bits before the control structure leaves its tree alone. */
  lemma StoreOutsideHolds(k: nat, base: nat, m: seq<Byte>, m2: seq<Byte>, t: Tree, first: nat, v: Bits)
    requires Holds(k, base, m, t) && Stored(m, m2, first, v) && first + |v| <= 8 * base
    ensures Holds(k, base, m2, t)
  {
    forall l: nat, i: nat | InTree(k, l, i)
      ensures HoldsAt(k, base, m2, t, l, i)
    {
      assert HoldsAt(k, base, m, t, l, i);
      SpellsElsewhere(m, m2, first, v, 8 * base + NodeBit(k, l, i), Look(t, l, i));
    }
  }

  /** A store changes no byte that it does not reach into. */
  lemma StoredBytes(m: seq<Byte>, m2: seq<Byte>, first: nat, v: Bits)
    requires Stored(m, m2, first, v)
    ensures forall a: nat | a < |m| && (8 * a + 8 <= first || first + |v| <= 8 * a) :: m2[a] == m[a]
  {
    forall a: nat | a < |m| && (8 * a + 8 <= first || first + |v| <= 8 * a)
      ensures m2[a] == m[a]
    {
      forall j: nat | j < 8
        ensures m2[a][j] == m[a][j]
      {
        var g := 8 * a + 7 - j;
        assert g / 8 == a && 7 - g % 8 == j;
        assert BitAt(m2, g) == BitAt(m, g);
      }
    }
  }

  /** Equal bytes hold equal trees. */
  lemma SameBytesHold(k: nat, base: nat, m: seq<Byte>, m2: seq<Byte>, t: Tree)
    requires k >= 3 && Holds(k, base, m, t) && |m2| == |m|
    requires forall a: nat | base <= a < base + TableOffset(k, k + 1) && a < |m| :: m2[a] == m[a]
    ensures Holds(k, base, m2, t)
  {
    forall l: nat, i: nat | InTree(k, l, i)
      ensures HoldsAt(k, base, m2, t, l, i)
    {
      var first := 8 * base + NodeBit(k, l, i);
      NodeInTable(k, l, i);
      TablesOrdered(k, l, k + 1);
      assert HoldsAt(k, base, m, t, l, i);
      forall g: nat | first <= g <= first + l
        ensures BitAt(m2, g) == BitAt(m, g)
      {
        assert base <= g / 8 < base + TableOffset(k, k + 1);
      }
    }
  }
}
