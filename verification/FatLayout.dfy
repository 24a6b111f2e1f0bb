/** Where the allocation table and the clusters lie on a FAT32 disk, and what a table entry says. */
module FatLayout {

  type Octet = x: nat | x < 256

  const SECTOR: nat := 512
  const WORD: nat := 0x1_0000_0000

  /** End mark that the code writes; any value from END_MIN on ends a chain. */
  const END_MARK: nat := 0x0FFF_FFFF
  const END_MIN: nat := 0x0FFF_FFF8
  const BAD_MARK: nat := 0x0FFF_FFF7
  const FINAL_MARK: nat := 0xFFFF_FFFF
  const LINK_RANGE: nat := 0x1000_0000

  /** What the chain loops take an entry for, in the order of their tests. */
  datatype Link = Free | Bad | End | Final | To(cluster: nat)

  /** next_cluster & 0x0FFFFFFF. */
  function Masked(v: nat): nat { v % LINK_RANGE }

  function Decode(v: nat): Link {
    if v == 0 then Free
    else if v == BAD_MARK then Bad
    else if END_MIN <= v <= END_MARK then End
    else if v == FINAL_MARK then Final
    else To(Masked(v))
  }

  // ----- Multiples -----

  /** n blocks of w. */
  function Span(n: nat, w: nat): nat {
    if n == 0 then 0 else Span(n - 1, w) + w
  }

  lemma SpanZero(w: nat)
    ensures Span(0, w) == 0
  {
  }

  lemma SpanStep(n: nat, w: nat)
    ensures Span(n + 1, w) == Span(n, w) + w
    ensures n > 0 ==> Span(n, w) == Span(n - 1, w) + w
  {
  }

  lemma {:induction false} SpanIs(n: nat, w: nat)
    ensures Span(n, w) == n * w
  {
    if n > 0 {
      SpanIs(n - 1, w);
      assert (n - 1) * w + w == n * w;
    }
  }

  lemma {:induction false} SpanOrder(a: nat, b: nat, w: nat)
    requires a < b
    ensures Span(a, w) + w <= Span(b, w)
    decreases b - a
  {
    if a + 1 < b {
      SpanOrder(a, b - 1, w);
    }
  }

  // ----- Geometry -----

  /** The boot sector's numbers; sectors have 512 bytes. `clusters` bounds the cluster numbers. */
  datatype Geometry = Geometry(rsvd: nat, fats: nat, fatSize: nat, secPerClus: nat, totSec: nat, clusters: nat)
  {
    function ClusterSize(): nat { secPerClus * SECTOR }

    function FatStart(): nat { rsvd * SECTOR }

    function FatBytes(): nat { fatSize * SECTOR }

    function DataStart(): nat { (rsvd + fats * fatSize) * SECTOR }

    function DiskBytes(): nat { totSec * SECTOR }

    function EntryStart(c: nat): nat { FatStart() + 4 * c }

    function ClusterStart(c: nat): nat
      requires c >= 2
    {
      DataStart() + Span(c - 2, ClusterSize())
    }

    /** Sectors behind the last cluster. */
    function Unused(): int { totSec - (rsvd + fats * fatSize) - (clusters - 2) * secPerClus }

    /** How many numbers from `clusters` on have fewer than totSec sectors before them. */
    function Past(): int { if secPerClus == 0 then 0 else (totSec + secPerClus - 1) / secPerClus - clusters }

    /** At least two tables, each with room for every cluster and for the three clusters that
        clearing the end mark reaches; the data area inside the disk; 32-bit byte addresses. */
    predicate Valid() {
      && fats >= 2 && 1 <= secPerClus <= 255
      && 3 <= clusters <= BAD_MARK
      && 4 * clusters <= FatBytes() && 3 * ClusterSize() <= FatBytes()
      && DataStart() + Span(clusters - 2, ClusterSize()) <= DiskBytes() < WORD
    }
  }

  predicate IsCluster(g: Geometry, c: nat) { 2 <= c < g.clusters }

  lemma InRange(g: Geometry, c: nat)
    requires IsCluster(g, c)
    ensures 2 <= c < g.clusters
  {
  }

  lemma Regions(g: Geometry)
    requires g.Valid()
    ensures g.FatStart() + 2 * g.FatBytes() <= g.DataStart()
    ensures g.ClusterSize() > 0
  {
    var f := g.fats * g.fatSize;
    assert f >= 2 * g.fatSize;
  }

  /** The layout in bytes: reserved sectors, the tables, the clusters from number 2 on. */
  lemma Places(g: Geometry, c: nat)
    ensures g.EntryStart(c) == 512 * g.rsvd + 4 * c && g.FatBytes() == 512 * g.fatSize && g.ClusterSize() == 512 * g.secPerClus
    ensures c >= 2 ==> g.ClusterStart(c) == 512 * (g.rsvd + g.fats * g.fatSize + (c - 2) * g.secPerClus)
  {
    if c >= 2 {
      SpanIs(c - 2, g.ClusterSize());
      var n, s := c - 2, g.secPerClus;
      assert n * (s * SECTOR) == (n * s) * SECTOR;
    }
  }

  /** What an entry means: its upper four bits count only for the last mark. */
  lemma EntryMeans(v: nat, top: nat)
    requires v < 0x1000_0000 && top < 16
    ensures Decode(v) == if v == 0 then Free
                         else if v == 0x0FFF_FFF7 then Bad
                         else if v >= 0x0FFF_FFF8 then End
                         else To(v)
    ensures 0 < top && !(v == 0x0FFF_FFFF && top == 15) ==> Decode(v + top * 0x1000_0000) == To(v)
    ensures Decode(0xFFFF_FFFF) == Final
  {
    assert (v + top * 0x1000_0000) % 0x1000_0000 == v;
  }

  /** A cluster number is none of the marks. */
  lemma ClusterValue(g: Geometry, c: nat)
    requires g.Valid() && IsCluster(g, c)
    ensures c < BAD_MARK && c < END_MIN && c < WORD && c != FINAL_MARK && c != 0 && Masked(c) == c && Decode(c) == To(c)
  {
  }

  lemma Marks(g: Geometry)
    requires g.Valid()
    ensures forall c: nat | IsCluster(g, c) :: c != END_MARK
    ensures 0 < BAD_MARK < END_MIN <= END_MARK < FINAL_MARK < WORD
  {
  }

  lemma EntryInTable(g: Geometry, c: nat)
    requires g.Valid() && c < g.clusters
    ensures g.EntryStart(c) + 4 + g.FatBytes() <= g.DataStart()
    ensures g.EntryStart(c) + 4 <= g.FatStart() + g.FatBytes()
    ensures g.DataStart() <= g.DiskBytes()
  {
    Regions(g);
  }

  lemma ClusterInDisk(g: Geometry, c: nat)
    requires g.Valid() && IsCluster(g, c)
    ensures g.ClusterStart(c) + g.ClusterSize() <= g.DiskBytes()
  {
    SpanOrder(c - 2, g.clusters - 2, g.ClusterSize());
  }

  lemma ClustersApart(g: Geometry, c: nat, d: nat)
    requires 2 <= c && 2 <= d && c != d
    ensures g.ClusterStart(c) + g.ClusterSize() <= g.ClusterStart(d) || g.ClusterStart(d) + g.ClusterSize() <= g.ClusterStart(c)
  {
    if c < d {
      SpanOrder(c - 2, d - 2, g.ClusterSize());
    } else {
      SpanOrder(d - 2, c - 2, g.ClusterSize());
    }
  }

  /** The free-cluster search is bounded by sectors: exactly the numbers below clusters + Past()
      pass. */
  lemma SearchBound(g: Geometry, c: nat)
    requires g.Valid()
    ensures c * g.secPerClus < g.totSec <==> c < g.clusters + g.Past()
  {
    BelowCeiling(c, g.totSec, g.secPerClus);
  }

  lemma BelowCeiling(c: nat, n: nat, s: nat)
    requires s > 0
    ensures c * s < n <==> c < (n + s - 1) / s
  {
    var q := (n + s - 1) / s;
    assert q * s <= n + s - 1 < q * s + s;
    TimesOrder(c, q, s);
    TimesOrder(q, c, s);
  }

  /** How many numbers past the last cluster that are: the sectors that belong to no cluster, in
      clusters and rounded up, less the two numbers that stand for none. At least four. */
  lemma NumbersPast(g: Geometry)
    requires g.Valid()
    ensures g.Unused() >= 0
    ensures g.Past() == (g.rsvd + g.fats * g.fatSize + g.Unused() + g.secPerClus - 1) / g.secPerClus - 2
    ensures g.Past() >= 4
  {
    var base, k, s := g.rsvd + g.fats * g.fatSize, g.clusters - 2, g.secPerClus;
    SpanIs(k, g.ClusterSize());
    Scaled(base, k, s);
    TwoTables(g.fats, g.fatSize);
    DivideShifted(base + g.Unused() + s - 1, k, s);
    assert base + g.Unused() + s - 1 + k * s == g.totSec + s - 1;
    AtLeastTimes(base + g.Unused() + s - 1, 6, s);
  }

  lemma {:induction false} DivideShifted(a: nat, k: nat, s: nat)
    requires s > 0
    ensures (a + k * s) / s == a / s + k
  {
    if k > 0 {
      TimesOnce(k, s);
      DivideShifted(a, k - 1, s);
      DivideOnce(a + (k - 1) * s, s);
    }
  }

  lemma TimesOnce(k: nat, s: nat)
    requires k > 0
    ensures k * s == (k - 1) * s + s
  {
  }

  lemma DivideOnce(a: nat, s: nat)
    requires s > 0
    ensures (a + s) / s == a / s + 1
  {
    var q := a / s;
    assert q * s <= a < q * s + s;
    QuotientIs(a + s, s, q + 1);
  }

  lemma TimesOrder(a: nat, b: nat, s: nat)
    ensures a < b ==> a * s + s <= b * s
  {
    if a < b {
      assert (a + 1) * s <= b * s;
    }
  }

  lemma QuotientIs(a: nat, s: nat, q: nat)
    requires s > 0 && q * s <= a < q * s + s
    ensures a / s == q
  {
    var r := a / s;
    assert r * s <= a < r * s + s;
    TimesOrder(r, q, s);
    TimesOrder(q, r, s);
  }

  lemma AtLeastTimes(a: nat, k: nat, s: nat)
    requires s > 0 && k * s <= a
    ensures a / s >= k
  {
    var r := a / s;
    assert r * s <= a < r * s + s;
    TimesOrder(r, k, s);
  }

  lemma TwoTables(n: nat, size: nat)
    requires n >= 2
    ensures n * size >= 2 * size
  {
  }

  // ----- The address arithmetic of the code -----

  /** cluster_offset * BytsPerSec in 32-bit unsigned arithmetic. */
  function ClusterAddress(g: Geometry, c: nat): nat
    requires c >= 2
  {
    ((g.rsvd + g.fats * g.fatSize + (c - 2) * g.secPerClus) % WORD) * SECTOR % WORD
  }

  lemma ModScaled(a: nat)
    ensures (a % WORD) * SECTOR % WORD == a * SECTOR % WORD
  {
    var q := a / WORD;
    assert a == q * WORD + a % WORD;
    assert a * SECTOR == (a % WORD) * SECTOR + (q * SECTOR) * WORD;
    ModPlus((a % WORD) * SECTOR, q * SECTOR);
  }

  lemma {:induction false} ModPlus(x: nat, q: nat)
    ensures (x + q * WORD) % WORD == x % WORD
    decreases q
  {
    if q > 0 {
      ModPlus(x, q - 1);
      assert x + q * WORD == (x + (q - 1) * WORD) + WORD;
    }
  }

  lemma Scaled(base: nat, n: nat, s: nat)
    ensures (base + n * s) * SECTOR == base * SECTOR + n * (s * SECTOR)
  {
  }

  lemma AddressOfCluster(g: Geometry, c: nat)
    requires g.Valid() && IsCluster(g, c)
    ensures ClusterAddress(g, c) == g.ClusterStart(c)
  {
    ClusterInDisk(g, c);
    SpanIs(c - 2, g.ClusterSize());
    Scaled(g.rsvd + g.fats * g.fatSize, c - 2, g.secPerClus);
    ModScaled(g.rsvd + g.fats * g.fatSize + (c - 2) * g.secPerClus);
    SmallMod(g.ClusterStart(c));
  }

  lemma SmallMod(x: nat)
    requires x < WORD
    ensures x % WORD == x
  {
  }

  /** Clearing "the cluster" 0x0FFFFFFF wraps to three clusters before the data area, which is
      inside the last table's copy, behind the first table. */
  lemma AddressOfEndMark(g: Geometry)
    requires g.Valid()
    ensures ClusterAddress(g, END_MARK) + 3 * g.ClusterSize() == g.DataStart()
    ensures g.FatStart() + g.FatBytes() <= ClusterAddress(g, END_MARK)
  {
    var base := g.rsvd + g.fats * g.fatSize;
    var x := g.DataStart() - 3 * g.ClusterSize();
    Regions(g);
    ModScaled(base + (END_MARK - 2) * g.secPerClus);
    EndMarkScaled(base, g.secPerClus);
    ModPlus(x, 32 * g.secPerClus);
    SmallMod(x);
  }

  lemma EndMarkScaled(base: nat, s: nat)
    ensures (base + (END_MARK - 2) * s) * SECTOR + 3 * (s * SECTOR) == base * SECTOR + (32 * s) * WORD
  {
  }
}
