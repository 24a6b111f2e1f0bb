/** Reading, writing, truncating, removing and creating files through their cluster chains. */
module FatFile {
  import opened Order
  import opened FatLayout
  import opened FatDisk
  import opened FatChain
  import opened FatGrow
  import opened FatTables
  import opened FatWalk

  /** Where a read ends: behind the size it delivers nothing. */
  function Goal(cursor: nat, len: nat, size: nat): (goal: nat)
    ensures goal >= cursor
  {
    if cursor <= size then Min(cursor + len, size) else cursor
  }

  /** How far a transfer towards `goal` has come once the clusters below `pos` are done. */
  function Progress(pos: nat, cursor: nat, goal: nat): nat
    requires cursor <= goal
  {
    if pos <= cursor then 0 else Min(pos, goal) - cursor
  }

  /** The loops' choice of bytes to skip and to transfer in the cluster that ends at `end`. */
  function Piece(w: nat, part: nat, cursor: nat, len: nat, end: nat, total: nat): (p: (nat, nat))
    requires end >= w && part <= w && total <= len && (end > cursor && end - cursor <= w ==> cursor + w <= end + part)
  {
    if end <= cursor then (0, 0)
    else
      var n := if len > part + total then part else len - total;
      if end - cursor <= w then
        var skip := w - (end - cursor);
        (skip, if n + skip > part then n - (n + skip - part) else n)
      else
        (0, n)
  }

  /** Reading: each cluster contributes exactly the bytes between the cursor and the goal. */
  lemma ReadPiece(w: nat, cursor: nat, len: nat, size: nat, start: nat)
    requires w > 0 && (cursor <= size || start + w <= cursor) && start <= size
    ensures var goal, end := Goal(cursor, len, size), start + w;
            var part, total := if end > size then w - (end - size) else w, Progress(start, cursor, goal);
            && end - size <= w && part <= w && total <= len && (end > cursor && end - cursor <= w ==> cursor + w <= end + part)
            && var p := Piece(w, part, cursor, len, end, total);
               && p.0 + p.1 <= w && total + p.1 == Progress(end, cursor, goal)
               && (p.1 > 0 ==> start + p.0 == cursor + total)
  {
  }

  /** A cluster's part of the file is a number of bytes exactly when the cluster does not start
      behind the size; and then the trimmed count in the cluster of the cursor is one exactly when
      the cursor is not behind the size. Otherwise a subtraction goes below zero. */
  lemma ReadTrimmed(w: nat, cursor: nat, len: nat, size: nat, start: nat)
    requires start <= cursor < start + w
    ensures var end := start + w;
            var part: int := if end > size then w - (end - size) else w;
            var n, skip := Min(len, part), w - (end - cursor);
            var asked: int := if n + skip > part then n - (n + skip - part) else n;
            && (part >= 0 <==> start <= size) && (part >= 0 ==> (asked >= 0 <==> cursor <= size))
  {
  }

  /** Writing: the same with whole clusters. */
  lemma WritePiece(w: nat, cursor: nat, len: nat, start: nat)
    requires w > 0
    ensures var end, total := start + w, Progress(start, cursor, cursor + len);
            && total <= len && (end > cursor && end - cursor <= w ==> cursor + w <= end + w)
            && var p := Piece(w, w, cursor, len, end, total);
               && p.0 + p.1 <= w && total + p.1 == Progress(end, cursor, cursor + len)
               && (p.1 > 0 ==> start + p.0 == cursor + total)
  {
  }

  lemma ProgressZero(cursor: nat, goal: nat)
    requires cursor <= goal
    ensures Progress(0, cursor, goal) == 0
  {
  }

  /** Past the last cluster the whole request is done. */
  lemma ProgressDone(w: nat, n: nat, cursor: nat, goal: nat)
    requires cursor <= goal && (goal == cursor || goal <= Span(n, w))
    ensures Progress(Span(n, w), cursor, goal) == goal - cursor
  {
  }

  /** A read ends where the clusters do, too. */
  lemma ReadEnds(reach: nat, cursor: nat, len: nat, size: nat)
    requires cursor <= size || reach <= cursor
    ensures Min(size, reach) >= 0
    ensures Progress(reach, cursor, Goal(cursor, len, size)) == Goal(cursor, len, Min(size, reach)) - cursor
  {
  }

  /** `out` is what lies in flat from c0 on. */
  predicate Got(flat: seq<Octet>, c0: nat, out: seq<Octet>) {
    out == [] || (c0 + |out| <= |flat| && out == flat[c0..c0 + |out|])
  }

  lemma GotMore(flat: seq<Octet>, c0: nat, out: seq<Octet>, piece: seq<Octet>)
    requires Got(flat, c0, out)
    requires piece != [] ==> Got(flat, c0 + |out|, piece)
    ensures Got(flat, c0, out + piece)
  {
  }

  lemma SliceGot(flat: seq<Octet>, at: nat, piece: seq<Octet>)
    requires at + |piece| <= |flat| && piece == flat[at..at + |piece|]
    ensures Got(flat, at, piece)
  {
  }

  lemma GotNothing(flat: seq<Octet>, c0: nat)
    ensures Got(flat, c0, [])
  {
  }

  lemma GotInside(flat: seq<Octet>, c0: nat, len: nat, out: seq<Octet>, size: nat)
    requires Got(flat, c0, out) && c0 + |out| == Goal(c0, len, size) && size <= |flat|
    ensures Min(c0, size) <= Min(c0 + len, size) <= size
    ensures out == flat[..size][Min(c0, size)..Min(c0 + len, size)]
  {
  }

  /** s with d put at `at`, longer if d reaches past the end. */
  function Overwritten(s: seq<Octet>, at: nat, d: seq<Octet>): (r: seq<Octet>)
    requires at <= |s|
    ensures |r| == if at + |d| > |s| then at + |d| else |s|
  {
    s[..at] + d + if at + |d| < |s| then s[at + |d|..] else []
  }

  /** The bytes of a file of this size, drawn out to `at` if that lies behind the size: by what its
      chain holds there, and zeros behind the chain. */
  function Reaching(flat: seq<Octet>, size: nat, at: nat): (s: seq<Octet>)
    requires size <= |flat|
    ensures |s| == if at <= size then size else at
    ensures at <= size ==> s == flat[..size]
  {
    if at <= size then flat[..size]
    else if at <= |flat| then flat[..at]
    else Padded(flat, at)
  }

  /** Landing in the zero-filled chain and cutting it at the new size overwrites the file. */
  lemma LandedIsOverwritten(flat: seq<Octet>, n: nat, size: nat, at: nat, d: seq<Octet>)
    requires size <= |flat| <= n && at + |d| <= n
    ensures Landed(Padded(flat, n), at, d)[..if at + |d| > size then at + |d| else size] ==
            Overwritten(Reaching(flat, size, at), at, d)
  {
  }

  /** A finished write: the chain covers the new size, and its bytes are the overwritten ones. */
  lemma WritingDone(g: Geometry, m0: seq<Octet>, m: seq<Octet>, ch0: seq<nat>, ch: seq<nat>, at: nat, data: seq<Octet>, size: nat)
    requires Writing(g, m0, m, ch0, ch, at, data, |data|)
    requires ch0 != [] && Covers(|ch0|, g.ClusterSize(), size) && at + |data| <= Span(|ch|, g.ClusterSize())
    requires |ch| > |ch0| ==> Span(|ch| - 1, g.ClusterSize()) < at + |data|
    ensures Sized(g, m0) && Sized(g, m) && Apart(g, m0, m, ch0, ch) && ch0 <= ch && ch[0] == ch0[0]
    ensures InDisk(g, ch0) && InDisk(g, ch) && size <= Span(|ch0|, g.ClusterSize())
    ensures var size2 := if at + |data| > size then at + |data| else size;
            && Covers(|ch|, g.ClusterSize(), size2)
            && Flat(g, m, ch)[..size2] == Overwritten(Reaching(Flat(g, m0, ch0), size, at), at, data)
  {
    hide Flat, Table, Cluster, Zeroed, Span, Landed, Padded, Overwritten, Reaching;
    LandedIsOverwritten(Flat(g, m0, ch0), Span(|ch|, g.ClusterSize()), size, at, data);
    SpanGrows(|ch0|, |ch| - 1, g.ClusterSize());
    assert data[..|data|] == data;
  }

  /** The first n bytes of the data lie in the chain at `at`, and all else in it is as it was. */
  ghost predicate Placed(g: Geometry, m0: seq<Octet>, m: seq<Octet>, ch: seq<nat>, at: nat, data: seq<Octet>, n: nat) {
    && Sized(g, m0) && Sized(g, m) && InDisk(g, ch) && n <= |data|
    && (n > 0 ==> at + n <= Span(|ch|, g.ClusterSize()))
    && Flat(g, m, ch) == Landed(Flat(g, m0, ch), at, data[..n])
  }

  lemma MakePlaced(g: Geometry, m0: seq<Octet>, m: seq<Octet>, ch: seq<nat>, at: nat, data: seq<Octet>, n: nat)
    requires Writing(g, m0, m, ch, ch, at, data, n)
    ensures Placed(g, m0, m, ch, at, data, n)
  {
    hide Flat, Landed, Apart, Span;
    assert Padded(Flat(g, m0, ch), Span(|ch|, g.ClusterSize())) == Flat(g, m0, ch);
  }

  /** A write on a fixed chain is cut short exactly if the data reach behind its clusters. */
  lemma CutShort(reach: nat, cursor: nat, len: nat)
    ensures Progress(reach, cursor, cursor + len) <= len
    ensures Progress(reach, cursor, cursor + len) < len <==> len > 0 && reach < cursor + len
  {
  }

  lemma SpanGrows(a: nat, b: nat, w: nat)
    ensures a <= b ==> Span(a, w) <= Span(b, w)
  {
    if a < b {
      SpanOrder(a, b, w);
    }
  }

  /** An entry that leads to another cluster. */
  predicate IsLink(v: nat) { Masked(v) == v && v < END_MIN && v != BAD_MARK }

  lemma ClusterIsLink(g: Geometry, c: nat)
    requires g.Valid() && IsCluster(g, c)
    ensures IsLink(c)
  {
    ClusterValue(g, c);
  }

  lemma LinkIs(v: nat)
    ensures IsLink(v) ==> Masked(v) == v && !(END_MIN <= v <= END_MARK) && v != FINAL_MARK
  {
  }

  lemma LastOfAppend(ch0: seq<nat>, ch: seq<nat>, c: nat)
    ensures Last(ch + [c]) == c && (ch0 <= ch ==> ch + [c] != ch0)
  {
  }

  lemma FirstFreeIs(g: Geometry, t: seq<nat>, from: nat, c: nat)
    requires IsFirstFree(t, from, c) && 2 <= from && |t| == g.clusters
    ensures from <= c < |t| && t[c] == 0 && IsCluster(g, c)
  {
  }

  // ----- Free clusters -----

  /** The words of all numbers that the search may read lie on the disk. */
  predicate Searchable(g: Geometry) {
    g.FatStart() + 4 * (g.clusters + g.Past()) <= g.DiskBytes()
  }

  ghost predicate AllTaken(g: Geometry, m: seq<Octet>, from: nat, c: nat) {
    forall d: nat | from <= d < c :: Taken(g, m, d)
  }

  /** The search for a free cluster. If there is one from `from` on it finds the first; if not,
      it finds nothing exactly when no number past the last cluster looks free. */
  method FindFree(disk: Disk, from: nat) returns (found: bool, c: nat)
    requires disk.Valid() && from <= disk.g.clusters
    requires FreeFrom(Table(disk.g, disk.bytes), from) > 0 || Searchable(disk.g)
    modifies disk`cache, disk`cacheSector
    ensures disk.Valid()
    ensures FreeFrom(Table(disk.g, disk.bytes), from) > 0 <==> found && c < disk.g.clusters
    ensures FreeFrom(Table(disk.g, disk.bytes), from) > 0 ==> IsFirstFree(Table(disk.g, disk.bytes), from, c)
    ensures FreeFrom(Table(disk.g, disk.bytes), from) == 0 ==>
              (found <==> !AllTaken(disk.g, disk.bytes, disk.g.clusters, disk.g.clusters + disk.g.Past()))
  {
    hide *;
    disk.ValidFacts();
    ghost var g, m := disk.g, disk.bytes;
    NumbersPast(g);
    ghost var goal := SearchLimit(g, m, from);
    c := from;
    NoneTaken(g, m, from);
    disk.InvalidateCache();
    WordOnDisk(g, c, goal);
    var v := disk.ReadEntry(c, true);
    WordTaken(g, m, c, v);
    while v != 0
      invariant from <= c <= goal && (Taken(g, m, c) <==> v != 0)
      invariant disk.Valid() && disk.Coherent() && AllTaken(g, m, from, c)
      decreases goal - c
    {
      OneMoreTaken(g, m, from, c);
      c := c + 1;
      SearchBound(g, c);
      if c * disk.g.secPerClus >= disk.g.totSec {
        NothingFree(g, m, from, c);
        return false, c;
      }
      LimitAbove(g, m, from, c, goal);
      WordOnDisk(g, c, goal);
      v := disk.ReadEntry(c, true);
      WordTaken(g, m, c, v);
    }
    found := true;
    FoundFree(g, m, from, c);
  }

  /** The first free cluster, or else the last number that passes the bound. */
  ghost predicate IsLimit(g: Geometry, m: seq<Octet>, from: nat, goal: nat)
    requires Sized(g, m)
  {
    if FreeFrom(Table(g, m), from) > 0 then goal < g.clusters && !Taken(g, m, goal)
    else goal == g.clusters + g.Past() - 1 && g.FatStart() + 4 * (g.clusters + g.Past()) <= g.DiskBytes()
  }

  lemma SearchLimit(g: Geometry, m: seq<Octet>, from: nat) returns (goal: nat)
    requires Sized(g, m) && from <= g.clusters && (FreeFrom(Table(g, m), from) > 0 || Searchable(g))
    ensures from <= goal && IsLimit(g, m, from, goal)
    ensures goal < g.clusters || g.EntryStart(goal) + 4 <= g.DiskBytes()
  {
    NumbersPast(g);
    if FreeFrom(Table(g, m), from) > 0 {
      goal := FreeExists(Table(g, m), from);
    } else {
      goal := g.clusters + g.Past() - 1;
    }
  }

  lemma WordOnDisk(g: Geometry, c: nat, goal: nat)
    requires c <= goal && (goal < g.clusters || g.EntryStart(goal) + 4 <= g.DiskBytes())
    ensures c < g.clusters || g.EntryStart(c) + 4 <= g.DiskBytes()
  {
  }

  lemma WordTaken(g: Geometry, m: seq<Octet>, c: nat, v: nat)
    requires g.EntryStart(c) + 4 <= |m| && v == WordAt(m, g.EntryStart(c))
    ensures Taken(g, m, c) <==> v != 0
  {
  }

  lemma NoneTaken(g: Geometry, m: seq<Octet>, from: nat)
    ensures AllTaken(g, m, from, from)
  {
  }

  lemma OneMoreTaken(g: Geometry, m: seq<Octet>, from: nat, c: nat)
    requires AllTaken(g, m, from, c) && Taken(g, m, c)
    ensures AllTaken(g, m, from, c + 1)
  {
  }

  lemma LimitAbove(g: Geometry, m: seq<Octet>, from: nat, c: nat, goal: nat)
    requires Sized(g, m) && IsLimit(g, m, from, goal) && from <= goal && AllTaken(g, m, from, c) && c <= goal + 1
    requires c < g.clusters + g.Past()
    ensures c <= goal
  {
  }

  lemma FoundFree(g: Geometry, m: seq<Octet>, from: nat, c: nat)
    requires Sized(g, m) && from <= g.clusters && from <= c && AllTaken(g, m, from, c) && !Taken(g, m, c)
    requires c >= g.clusters ==> c < g.clusters + g.Past()
    ensures FreeFrom(Table(g, m), from) > 0 <==> c < g.clusters
    ensures c < g.clusters ==> IsFirstFree(Table(g, m), from, c)
    ensures c >= g.clusters ==> !AllTaken(g, m, g.clusters, g.clusters + g.Past())
  {
    var t := Table(g, m);
    forall d: nat | d < g.clusters
      ensures Taken(g, m, d) <==> t[d] != 0
    {
      EntryInTable(g, d);
    }
    FreeSkip(t, from, if c < g.clusters then c else g.clusters);
  }

  lemma NothingFree(g: Geometry, m: seq<Octet>, from: nat, c: nat)
    requires Sized(g, m) && from <= g.clusters && AllTaken(g, m, from, c) && c >= g.clusters + g.Past()
    ensures FreeFrom(Table(g, m), from) == 0
    ensures AllTaken(g, m, g.clusters, g.clusters + g.Past())
  {
    NumbersPast(g);
    var t := Table(g, m);
    forall d: nat | d < g.clusters
      ensures Taken(g, m, d) <==> t[d] != 0
    {
      EntryInTable(g, d);
    }
    FreeSkip(t, from, g.clusters);
  }

  lemma SealedSearch(g: Geometry, m: seq<Octet>)
    requires Sized(g, m) && Sealed(g, m)
    ensures Searchable(g) && AllTaken(g, m, g.clusters, g.clusters + g.Past())
  {
    NumbersPast(g);
    EntryInTable(g, 0);
    assert SealedAt(g, m, g.clusters + g.Past() - 1);
    forall d: nat | g.clusters <= d < g.clusters + g.Past()
      ensures Taken(g, m, d)
    {
      assert SealedAt(g, m, d);
    }
  }

  /** A full disk on which the search takes a number past the last cluster for a free one: the 102
      entries are in use, and the words behind them are clear. */
  lemma FullSearchFails() returns (g: Geometry, m: seq<Octet>)
    ensures Sized(g, m) && Searchable(g) && FreeFrom(Table(g, m), 2) == 0
    ensures !AllTaken(g, m, g.clusters, g.clusters + g.Past())
  {
    g := Geometry(1, 2, 3, 1, 107, 102);
    m := seq(107 * SECTOR, i => if SECTOR <= i < SECTOR + 4 * 102 then 1 else 0);
    SpanIs(g.clusters - 2, g.ClusterSize());
    NumbersPast(g);
    forall c: nat | c < g.clusters
      ensures Table(g, m)[c] != 0
    {
      EntryInTable(g, c);
      assert m[g.EntryStart(c)] == 1;
    }
    FreeSkip(Table(g, m), 2, g.clusters);
    assert !Taken(g, m, g.clusters);
  }

  lemma VisitsInDisk(g: Geometry, m: seq<Octet>, c: nat, seen: seq<nat>)
    requires Sized(g, m) && Visits(Table(g, m), c, seen)
    ensures InDisk(g, seen)
  {
    VisitsInside(Table(g, m), c, seen);
  }

  lemma TableAt(g: Geometry, m: seq<Octet>, c: nat)
    requires Sized(g, m) && c < g.clusters
    ensures |Table(g, m)| == g.clusters && Table(g, m)[c] == Entry(g, m, c)
  {
  }

  // ----- The two halves of a cluster number -----

  type Half = x: nat | x < 0x1_0000

  function Low(c: nat): Half { c % 0x1_0000 }

  function High(c: nat): Half { c / 0x1_0000 % 0x1_0000 }

  lemma Halves(c: nat)
    requires c < WORD
    ensures Low(c) + 0x1_0000 * High(c) == c
    ensures Low(c) == c <==> c < 0x1_0000
    ensures High(c) == 0 <==> c < 0x1_0000
  {
  }

  /** Every loop starts from the low half of the first cluster. It goes through the file's own
      chain exactly when the number is below 0x1_0000. */
  lemma LowHalfStart(t: seq<nat>, own: seq<nat>)
    requires IsChain(t, own)
    ensures Visits(t, Low(own[0]), own) <==> own[0] < 0x1_0000
    ensures forall seen | Visits(t, Low(own[0]), seen) :: seen == own <==> own[0] < 0x1_0000
  {
    ChainVisited(t, own);
    forall seen | Visits(t, Low(own[0]), seen)
      ensures seen == own <==> own[0] < 0x1_0000
    {
      if own[0] < 0x1_0000 {
        VisitsUnique(t, own[0], own, seen);
      }
    }
  }

  /** A disk for which it does not: cluster 0x1_0005 is walked as cluster 5, and from cluster
      0x1_0000 the loops go nowhere. */
  lemma LowHalfFails() returns (g: Geometry, t: seq<nat>)
    ensures g.Valid() && |t| == g.clusters
    ensures IsChain(t, [0x1_0005]) && Visits(t, Low(0x1_0005), [5])
    ensures IsChain(t, [0x1_0000]) && Visits(t, Low(0x1_0000), [])
  {
    g := Geometry(32, 2, 1024, 1, 200000, 131072);
    SpanIs(g.clusters - 2, g.ClusterSize());
    t := seq(g.clusters, i => if i == 5 || i == 0x1_0000 || i == 0x1_0005 then END_MARK else 0);
    ChainVisited(t, [5]);
  }

  datatype Origin = FromStart | FromCursor | FromEnd

  class File {
    const disk: Disk
    var firstLow: Half      // the two halves of the first cluster in the directory entry
    var firstHigh: Half
    var fileSize: nat
    var cursor: nat
    ghost var chain: seq<nat>

    constructor (disk: Disk, firstCluster: nat, fileSize: nat, ghost chain: seq<nat>)
      requires firstCluster < WORD
      ensures this.disk == disk && FirstCluster() == firstCluster && this.fileSize == fileSize
      ensures firstLow == Low(firstCluster) && firstHigh == High(firstCluster)
      ensures cursor == 0 && this.chain == chain
    {
      Halves(firstCluster);
      this.disk, this.fileSize, this.cursor, this.chain := disk, fileSize, 0, chain;
      this.firstLow, this.firstHigh := Low(firstCluster), High(firstCluster);
    }

    /** The cluster that the directory entry names. */
    function FirstCluster(): nat
      reads `firstLow, `firstHigh
    {
      firstLow + 0x1_0000 * firstHigh
    }

    /** The chain is the one that the loops go through, which start from the low half of the first
        cluster, and as long as the size needs. */
    ghost predicate Open()
      reads `firstLow, `fileSize, `chain, disk`bytes
    {
      && disk.Valid()
      && IsChain(Table(disk.g, disk.bytes), chain) && chain[0] == firstLow
      && Covers(|chain|, disk.g.ClusterSize(), fileSize)
    }

    /** The bytes that the loops find. */
    ghost function Contents(): (s: seq<Octet>)
      requires Open()
      reads `firstLow, `fileSize, `chain, disk`bytes
      ensures |s| == fileSize
    {
      Flat(disk.g, disk.bytes, chain)[..fileSize]
    }

    /** They are the bytes of the chain that the directory entry names exactly if its number is
        below 0x1_0000. */
    lemma OwnChain(own: seq<nat>)
      requires Open() && IsChain(Table(disk.g, disk.bytes), own) && own[0] == FirstCluster()
      ensures chain == own <==> FirstCluster() < 0x1_0000
    {
      hide *;
      OpenChain();
      LowIs();
      ChainVisited(Table(disk.g, disk.bytes), chain);
      LowHalfStart(Table(disk.g, disk.bytes), own);
    }

    lemma LowIs()
      ensures Low(FirstCluster()) == firstLow
    {
    }

    /** The contents drawn out to the cursor. */
    ghost function Reach(): (s: seq<Octet>)
      requires Open()
      reads `firstLow, `fileSize, `cursor, `chain, disk`bytes
      ensures |s| == if cursor <= fileSize then fileSize else cursor
      ensures cursor <= fileSize ==> s == Contents()
    {
      Reaching(Flat(disk.g, disk.bytes, chain), fileSize, cursor)
    }

    /** Moving the cursor, in 32 bits: from the start, from where it is, or from the end. */
    method Seek(offset: int, origin: Origin)
      modifies `cursor
      ensures cursor < WORD
      ensures var from := match origin case FromStart => 0 case FromCursor => old(cursor) case FromEnd => fileSize;
              (from + offset - cursor) % 0x1_0000_0000 == 0
      ensures origin.FromStart? && 0 <= offset < WORD ==> cursor == offset
      ensures origin.FromCursor? && 0 <= old(cursor) + offset < WORD ==> cursor == old(cursor) + offset
      ensures origin.FromEnd? && 0 <= fileSize + offset < WORD ==> cursor == fileSize + offset
    {
      var from := match origin case FromStart => 0 case FromCursor => cursor case FromEnd => fileSize;
      cursor := (from + offset) % WORD;
    }

    // ----- Reading -----

    /** The loops go through the clusters `seen`, of which none starts behind the size, and the
        cursor is not behind the size either, or behind all clusters. */
    ghost predicate Readable(seen: seq<nat>)
      reads `firstLow, `fileSize, `cursor, disk`bytes
    {
      && disk.Valid() && Visits(Table(disk.g, disk.bytes), firstLow, seen)
      && (seen != [] ==> Span(|seen| - 1, disk.g.ClusterSize()) <= fileSize)
      && (cursor <= fileSize || Span(|seen|, disk.g.ClusterSize()) <= cursor)
    }

    /** How far a read may get: to the end of the file or of its clusters. */
    ghost function ReadEnd(seen: seq<nat>): (e: nat)
      reads `fileSize
      ensures e <= fileSize && e <= Span(|seen|, disk.g.ClusterSize())
    {
      Min(fileSize, Span(|seen|, disk.g.ClusterSize()))
    }

    /** An open file is read through its chain. */
    lemma OpenReadable(seen: seq<nat>)
      requires Open()
      ensures Visits(Table(disk.g, disk.bytes), firstLow, seen) <==> seen == chain
      ensures Readable(chain) <==> cursor <= fileSize || Span(|chain|, disk.g.ClusterSize()) <= cursor
      ensures ReadEnd(chain) == fileSize
    {
      ChainVisited(Table(disk.g, disk.bytes), chain);
      if Visits(Table(disk.g, disk.bytes), firstLow, seen) {
        VisitsUnique(Table(disk.g, disk.bytes), firstLow, seen, chain);
      }
    }

    /** The part of one cluster that a read wants: from the cursor on in the first cluster it
        touches, from the start in later ones. */
    method ReadPart(current: nat, part: nat, len: nat, end: nat, total: nat, ghost i: nat, ghost seen: seq<nat>)
      returns (piece: seq<Octet>)
      requires disk.Valid() && InDisk(disk.g, seen)
      requires i < |seen| && current == seen[i] && end == Span(i, disk.g.ClusterSize()) + disk.g.ClusterSize()
      requires part <= disk.g.ClusterSize() && total <= len
      requires end > cursor && end - cursor <= disk.g.ClusterSize() ==> cursor + disk.g.ClusterSize() <= end + part
      requires var p := Piece(disk.g.ClusterSize(), part, cursor, len, end, total);
               p.0 + p.1 <= disk.g.ClusterSize() && (p.1 > 0 ==> end - disk.g.ClusterSize() + p.0 == cursor + total)
      ensures |piece| == Piece(disk.g.ClusterSize(), part, cursor, len, end, total).1
      ensures forall c | c in seen :: IsCluster(disk.g, c)
      ensures piece != [] ==> Got(Flat(disk.g, disk.bytes, seen), cursor + total, piece)
    {
      hide Sized, Got, Flat, Cluster, Table, IsChain, Writing, Progress, Span, Sealed, Spliced, Apart;
      ghost var g, m := disk.g, disk.bytes;
      var w := disk.g.ClusterSize();
      disk.ValidFacts();
      InDiskFacts(g, seen);
      piece := [];
      if end > cursor {
        var n := if len > part + total then part else len - total;
        var skip := 0;
        if end - cursor <= w {
          skip := w - (end - cursor);
          if n + skip > part {
            n := n - (n + skip - part);
          }
        }
        if n > 0 {
          piece := disk.ReadData(current, skip, n);
          FlatSlice(g, m, seen, i, skip, skip + n);
          SliceGot(Flat(g, m, seen), Span(i, w) + skip, piece);
        }
      }
    }

    /** One cluster of a read. */
    method ReadCluster(current: nat, readOffset: nat, len: nat, total: nat, ghost i: nat, ghost seen: seq<nat>)
      returns (piece: seq<Octet>)
      requires Readable(seen) && i < |seen| && current == seen[i] && readOffset == Span(i, disk.g.ClusterSize())
      requires total == Progress(readOffset, cursor, Goal(cursor, len, fileSize))
      ensures forall c | c in seen :: IsCluster(disk.g, c)
      ensures total + |piece| == Progress(readOffset + disk.g.ClusterSize(), cursor, Goal(cursor, len, fileSize))
      ensures piece != [] ==> Got(Flat(disk.g, disk.bytes, seen), cursor + total, piece)
    {
      hide *;
      ReadableFacts(seen);
      Regions(disk.g);
      var w := disk.g.ClusterSize();
      SpanGrows(i, |seen| - 1, w);
      SpanStep(i, w);
      SpanGrows(i + 1, |seen|, w);
      ReadPiece(w, cursor, len, fileSize, readOffset);
      var end := readOffset + w;
      var part := if end > fileSize then w - (end - fileSize) else w;
      piece := ReadPart(current, part, len, end, total, i, seen);
    }

    lemma ReadableFacts(seen: seq<nat>)
      requires Readable(seen)
      ensures disk.Valid() && Sized(disk.g, disk.bytes) && disk.g.Valid() && |Table(disk.g, disk.bytes)| == disk.g.clusters
      ensures InDisk(disk.g, seen) && (forall c | c in seen :: IsCluster(disk.g, c))
      ensures Visits(Table(disk.g, disk.bytes), firstLow, seen)
      ensures seen != [] ==> Span(|seen| - 1, disk.g.ClusterSize()) <= fileSize
      ensures cursor <= fileSize || Span(|seen|, disk.g.ClusterSize()) <= cursor
    {
      VisitsInside(Table(disk.g, disk.bytes), firstLow, seen);
    }

    /** The loop of a read. */
    method ReadChain(len: nat, ghost seen: seq<nat>) returns (out: seq<Octet>)
      requires Readable(seen)
      modifies disk`cache, disk`cacheSector
      ensures Readable(seen) && disk.Coherent() && Sized(disk.g, disk.bytes) && InDisk(disk.g, seen)
      ensures cursor + |out| == Goal(cursor, len, ReadEnd(seen)) && Got(Flat(disk.g, disk.bytes, seen), cursor, out)
    {
      hide *;
      ReadableFacts(seen);
      var w := disk.g.ClusterSize();
      ghost var g, t, goal := disk.g, Table(disk.g, disk.bytes), Goal(cursor, len, fileSize);
      ghost var flat := Flat(g, disk.bytes, seen);
      Regions(g);
      SpanZero(w);
      ProgressZero(cursor, goal);
      GotNothing(flat, cursor);
      var current, readOffset, total := firstLow, 0, 0;
      out := [];
      disk.InvalidateCache();
      ghost var i := 0;
      while true
        invariant i <= |seen| && Visits(t, current, seen[i..])
        invariant disk.Valid() && disk.Coherent() && Readable(seen)
        invariant readOffset == Span(i, w) && total == |out| == Progress(readOffset, cursor, goal)
        invariant Got(flat, cursor, out)
        decreases |seen| - i
      {
        VisitsStep(t, current, seen[i..]);
        if current < 2 {
          break;
        }
        TableAt(disk.g, disk.bytes, current);
        var next := disk.ReadEntry(current, true);
        if next == 0 || next == BAD_MARK {
          break;
        }
        var piece := ReadCluster(current, readOffset, len, total, i, seen);
        GotMore(flat, cursor, out, piece);
        SpanStep(i, w);
        readOffset, total, out := readOffset + w, total + |piece|, out + piece;
        i := i + 1;
        if END_MIN <= next <= END_MARK || next == FINAL_MARK {
          break;
        }
        current := Masked(next);
      }
      ReadEnds(Span(|seen|, w), cursor, len, fileSize);
      ReadEndIs(seen);
    }

    lemma ReadEndIs(seen: seq<nat>)
      ensures ReadEnd(seen) == Min(fileSize, Span(|seen|, disk.g.ClusterSize()))
    {
    }

    /** Delivers exactly the bytes from the cursor to the end of the request, of the file or of its
        clusters, however the table ends them: none from a cursor that is behind them all. For an
        open file these are the contents. */
    method Fread(len: nat, ghost seen: seq<nat>) returns (out: seq<Octet>)
      requires Readable(seen)
      modifies `cursor, disk`cache, disk`cacheSector
      ensures disk.Valid() && disk.Coherent() && Sized(disk.g, disk.bytes) && forall c | c in seen :: IsCluster(disk.g, c)
      ensures Min(old(cursor), ReadEnd(seen)) <= Min(old(cursor) + len, ReadEnd(seen)) <= ReadEnd(seen)
      ensures out == Flat(disk.g, disk.bytes, seen)[..ReadEnd(seen)][Min(old(cursor), ReadEnd(seen))..Min(old(cursor) + len, ReadEnd(seen))]
      ensures cursor == old(cursor) + |out|
      ensures Open() ==> seen == chain && ReadEnd(seen) == fileSize
                         && out == Contents()[Min(old(cursor), fileSize)..Min(old(cursor) + len, fileSize)]
    {
      hide *;
      ReadableFacts(seen);
      ghost var c0 := cursor;
      out := ReadChain(len, seen);
      GotInside(Flat(disk.g, disk.bytes, seen), c0, len, out, ReadEnd(seen));
      ReadableFacts(seen);
      cursor := cursor + |out|;
      if Open() {
        OpenReadable(seen);
        OpenFacts();
      }
    }

    // ----- Writing -----

    /** At the last cluster: closes the chain when the data fits, and otherwise links and clears
        the next free cluster. Without one it fails and changes nothing; and when the data fits
        and the chain ends in the end mark already, nothing changes either. */
    method Extend(current: nat, next0: nat, fits: bool, ghost ch: seq<nat>) returns (ok: bool, next: nat)
      requires disk.Valid() && Grown(Table(disk.g, disk.bytes), chain, ch)
      requires current == Last(ch) && next0 == Table(disk.g, disk.bytes)[current]
      requires fits || FreeFrom(Table(disk.g, disk.bytes), current + 1) > 0 || Sealed(disk.g, disk.bytes)
      modifies disk`bytes, disk`cache, disk`cacheSector
      ensures disk.Valid() && current < disk.g.clusters
      ensures ok <==> fits || FreeFrom(Table(disk.g, old(disk.bytes)), current + 1) > 0
      ensures !ok ==> disk.bytes == old(disk.bytes)
      ensures ok ==> Table(disk.g, disk.bytes) == Table(disk.g, old(disk.bytes))[current := next]
      ensures fits ==> next == END_MARK
      ensures ok && !fits ==>
                && IsFirstFree(Table(disk.g, old(disk.bytes)), current + 1, next) && IsCluster(disk.g, next)
                && Cluster(disk.g, disk.bytes, next) == Zeroed(disk.g.ClusterSize())
                && (Sealed(disk.g, old(disk.bytes)) ==> Sealed(disk.g, disk.bytes))
      ensures ok ==> forall d: nat | IsCluster(disk.g, d) && (fits || d != next) ::
                Cluster(disk.g, disk.bytes, d) == Cluster(disk.g, old(disk.bytes), d)
      ensures fits && next0 == END_MARK ==> disk.bytes == old(disk.bytes)
      ensures ok && !(fits && next0 == END_MARK) ==>
                && 2 <= next < WORD && disk.g.EntryStart(current) + disk.g.FatBytes() + 4 <= |old(disk.bytes)|
                && ClusterAddress(disk.g, next) + disk.g.ClusterSize() <= |old(disk.bytes)|
                && disk.bytes == Wiped(disk.g, Noted(disk.g, old(disk.bytes), current, next), next)
    {
      hide *;
      disk.ValidFacts();
      ghost var g, m0 := disk.g, disk.bytes;
      ghost var t := Table(g, m0);
      GrownLast(t, chain, ch);
      Marks(g);
      var newEnd := true;
      next := END_MARK;
      ok := true;
      if fits {
        if next0 == END_MARK {
          newEnd := false;
        }
      } else {
        if Sealed(g, m0) {
          SealedSearch(g, m0);
        }
        ok, next := FindFree(disk, current + 1);
        if !ok {
          return;
        }
        FirstFreeIs(g, t, current + 1, next);
        ClusterValue(g, next);
      }
      if newEnd {
        disk.WriteEntry(current, next);
        disk.ClearCluster(next);
      }
    }

    /** The same for a write in progress. */
    method ExtendWriting(current: nat, next0: nat, fits: bool, ghost ch: seq<nat>, ghost m0: seq<Octet>, ghost data: seq<Octet>, ghost total: nat)
      returns (ok: bool, next: nat, ghost longer: seq<nat>)
      requires disk.Valid() && Grown(Table(disk.g, disk.bytes), chain, ch)
      requires current == Last(ch) && next0 == Table(disk.g, disk.bytes)[current]
      requires fits || FreeFrom(Table(disk.g, disk.bytes), current + 1) > 0 || Sealed(disk.g, disk.bytes)
      requires Writing(disk.g, m0, disk.bytes, chain, ch, cursor, data, total)
      requires Touched(disk.g, m0, disk.bytes, |chain|, ch, false)
      requires Sized(disk.g, m0) && (ch == chain ==> Table(disk.g, disk.bytes) == Table(disk.g, m0))
      modifies disk`bytes, disk`cache, disk`cacheSector
      ensures disk.Valid() && Sized(disk.g, disk.bytes)
      ensures chain != [] && Last(chain) < |Table(disk.g, m0)|
      ensures next0 != END_MARK <==> ClosesAnew(Table(disk.g, m0), chain, ch)
      ensures ok && !fits ==> longer != [] && Last(longer) == next && longer != chain && IsLink(next)
      ensures Touched(disk.g, m0, disk.bytes, |chain|, longer, fits && next0 != END_MARK)
      ensures fits ==> Last(ch) < disk.g.clusters && Table(disk.g, disk.bytes) == Table(disk.g, old(disk.bytes))[Last(ch) := END_MARK]
      ensures ok <==> fits || FreeFrom(Table(disk.g, old(disk.bytes)), current + 1) > 0
      ensures !ok ==> longer == ch && Grown(Table(disk.g, disk.bytes), chain, ch)
                      && FreeFrom(Table(disk.g, disk.bytes), current + 1) == 0
      ensures Writing(disk.g, m0, disk.bytes, chain, longer, cursor, data, total)
      ensures fits ==> next == END_MARK && longer == ch && IsChain(Table(disk.g, disk.bytes), ch)
      ensures ok && !fits ==>
                && IsCluster(disk.g, next) && longer == ch + [next] && Grown(Table(disk.g, disk.bytes), chain, longer)
                && FreeFrom(Table(disk.g, disk.bytes), next + 1) + 1 == FreeFrom(Table(disk.g, old(disk.bytes)), current + 1)
                && (Sealed(disk.g, old(disk.bytes)) ==> Sealed(disk.g, disk.bytes))
    {
      hide *;
      disk.ValidFacts();
      ghost var g, m := disk.g, disk.bytes;
      ghost var t := Table(g, m);
      GrownLast(t, chain, ch);
      ClosesAnewIs(Table(g, m0), t, chain, ch);
      ok, next := Extend(current, next0, fits, ch);
      disk.ValidFacts();
      longer := ch;
      ClosingTouches(m0, m, ch, next0, fits, ok, next);
      if fits {
        WritingCap(g, m0, m, disk.bytes, chain, ch, cursor, data, total, next);
        GrownCap(t, chain, ch);
      } else if ok {
        FirstFreeIs(g, t, current + 1, next);
        ClusterValue(g, next);
        GrownStep(t, chain, ch, next);
        FreeTaken(t, current, next);
        WritingGrow(g, m0, m, disk.bytes, chain, ch, cursor, data, total, next);
        LastOfAppend(chain, ch, next);
        ClusterIsLink(g, next);
        longer := ch + [next];
      }
    }

    /** What Extend touches. */
    lemma ClosingTouches(m0: seq<Octet>, m: seq<Octet>, ch: seq<nat>, next0: nat, fits: bool, ok: bool, next: nat)
      requires ch != [] && chain <= ch && Last(ch) < disk.g.clusters && Touched(disk.g, m0, m, |chain|, ch, false)
      requires fits ==> ok && next == END_MARK
      requires (fits && next0 == END_MARK) || !ok ==> disk.bytes == m
      requires ok && !fits ==> IsCluster(disk.g, next)
      requires ok && !(fits && next0 == END_MARK) ==>
                 && 2 <= next < WORD && disk.g.EntryStart(Last(ch)) + disk.g.FatBytes() + 4 <= |m|
                 && ClusterAddress(disk.g, next) + disk.g.ClusterSize() <= |m|
                 && disk.bytes == Wiped(disk.g, Noted(disk.g, m, Last(ch), next), next)
      ensures Touched(disk.g, m0, disk.bytes, |chain|, if ok && !fits then ch + [next] else ch, fits && next0 != END_MARK)
    {
      hide *;
      PrefixShorter(chain, ch);
      if ok && !fits {
        TouchedLink(disk.g, m0, m, |chain|, ch, next);
      } else if fits && next0 != END_MARK {
        TouchedCap(disk.g, m0, m, |chain|, ch);
      }
    }

    lemma PrefixShorter(a: seq<nat>, b: seq<nat>)
      requires a <= b
      ensures |a| <= |b|
    {
    }

    /** The data that belong to one cluster. */
    method WriteCluster(current: nat, data: seq<Octet>, end: nat, total: nat,
                        ghost i: nat, ghost ch: seq<nat>, ghost m0: seq<Octet>, ghost cap: bool)
      returns (n: nat)
      requires disk.Valid() && Writing(disk.g, m0, disk.bytes, chain, ch, cursor, data, total)
      requires i < |ch| && current == ch[i] && end == Span(i, disk.g.ClusterSize()) + disk.g.ClusterSize()
      requires total == Progress(Span(i, disk.g.ClusterSize()), cursor, cursor + |data|)
      requires Touched(disk.g, m0, disk.bytes, |chain|, ch, cap)
      modifies disk`bytes
      ensures Touched(disk.g, m0, disk.bytes, |chain|, ch, cap)
      ensures disk.Valid() && Table(disk.g, disk.bytes) == Table(disk.g, old(disk.bytes))
      ensures Writing(disk.g, m0, disk.bytes, chain, ch, cursor, data, total + n)
      ensures total + n == Progress(end, cursor, cursor + |data|)
      ensures Sealed(disk.g, old(disk.bytes)) ==> Sealed(disk.g, disk.bytes)
    {
      hide Sized, Got, Flat, Cluster, Table, IsChain, Writing, Progress, Span, Sealed, Spliced, Apart, Touched;
      ghost var g, m := disk.g, disk.bytes;
      var w := disk.g.ClusterSize();
      disk.ValidFacts();
      Regions(g);
      WritingFacts(g, m0, m, chain, ch, cursor, data, total);
      WritePiece(w, cursor, |data|, Span(i, w));
      n := 0;
      if end > cursor {
        n := if |data| > w + total then w else |data| - total;
        var skip := 0;
        if end - cursor <= w {
          skip := w - (end - cursor);
          if n + skip > w {
            n := n - (n + skip - w);
          }
        }
        TouchedData(g, m0, m, current, skip, data[total..total + n], |chain|, ch, cap);
        disk.WriteData(current, skip, data[total..total + n]);
        WritingPiece(g, m0, m, disk.bytes, chain, ch, cursor, data, total, i, skip, n);
      }
    }

    /** There are as many free clusters above the chain's last one as the data need. */
    ghost predicate Enough(n: nat)
      requires Open()
      reads `firstLow, `fileSize, `cursor, `chain, disk`bytes
    {
      cursor + n <= Span(|chain| + FreeFrom(Table(disk.g, disk.bytes), Last(chain) + 1), disk.g.ClusterSize())
    }

    /** The loops go through the clusters `chain`, but a write can neither close nor lengthen it. */
    ghost predicate Fixed()
      reads `firstLow, `chain, disk`bytes
    {
      disk.Valid() && Stuck(Table(disk.g, disk.bytes), firstLow, chain)
    }

    /** A write may start: with enough free clusters for an open file, or on a full disk where no
        number past the last cluster looks free, or on a chain that stays as it is. */
    ghost predicate MayWrite(n: nat)
      reads `firstLow, `fileSize, `cursor, `chain, disk`bytes
    {
      cursor + n < WORD && if Open() then Enough(n) || Sealed(disk.g, disk.bytes) else Fixed()
    }

    /** The loop of a write, along the chain and beyond its end. Without enough free clusters it
        links all there are and stops before the last one it linked is written. On a fixed chain it
        stops at the end, done or not. */
    method WriteChain(data: seq<Octet>) returns (ok: bool, total: nat, ghost ch: seq<nat>)
      requires MayWrite(|data|)
      modifies disk`bytes, disk`cache, disk`cacheSector
      ensures disk.Valid() && Writing(disk.g, old(disk.bytes), disk.bytes, chain, ch, cursor, data, total)
      ensures old(Open()) ==> (ok <==> old(Enough(|data|)))
      ensures old(Open()) && ok ==> total == |data| && IsChain(Table(disk.g, disk.bytes), ch)
      ensures old(Open()) && ok ==> cursor + |data| <= Span(|ch|, disk.g.ClusterSize())
      ensures |ch| > |chain| ==> Span(|ch| - 1, disk.g.ClusterSize()) < cursor + |data|
      ensures !ok ==> chain != [] && Grown(Table(disk.g, disk.bytes), chain, ch)
      ensures !ok ==> |ch| == |chain| + FreeFrom(Table(disk.g, old(disk.bytes)), Last(chain) + 1)
      ensures !ok ==> |ch| > 0 && total == Progress(Span(|ch| - 1, disk.g.ClusterSize()), cursor, cursor + |data|)
      ensures old(Open()) ==> chain != [] && Last(chain) < |Table(disk.g, old(disk.bytes))|
      ensures Touched(disk.g, old(disk.bytes), disk.bytes, |chain|, ch,
                      ok && old(Open()) && ClosesAnew(Table(disk.g, old(disk.bytes)), chain, ch))
      ensures old(Open()) && ok ==> ch != [] && Last(ch) < disk.g.clusters && Table(disk.g, disk.bytes)[Last(ch)] == END_MARK
      ensures !old(Open()) ==>
                && ok && ch == chain && Table(disk.g, disk.bytes) == Table(disk.g, old(disk.bytes))
                && total == Progress(Span(|chain|, disk.g.ClusterSize()), cursor, cursor + |data|)
    {
      hide *;
      ghost var open := Open();
      MayWriteFacts(|data|);
      ghost var g, m0, goal := disk.g, disk.bytes, cursor + |data|;
      var w := disk.g.ClusterSize();
      ghost var t0 := Table(g, m0);
      ghost var limit := if open then |chain| + FreeFrom(t0, Last(chain) + 1) else |chain|;
      Regions(g);
      SpanZero(w);
      ProgressZero(cursor, goal);
      Marks(g);
      WritingStart(g, m0, chain, cursor, data);
      TouchedStart(g, m0, |chain|, chain);
      var current, end := firstLow, 0;
      total, ch := 0, chain;
      ghost var i, cap := 0, false;
      while true
        invariant i <= |ch| && disk.Valid() && Sized(g, disk.bytes)
        invariant open ==> i < |ch| && current == ch[i] && Grown(Table(g, disk.bytes), chain, ch)
        invariant open ==> |ch| + FreeFrom(Table(g, disk.bytes), Last(ch) + 1) == limit
        invariant open ==> goal <= Span(limit, w) || Sealed(g, disk.bytes)
        invariant !open ==> ch == chain && Stuck(t0, current, ch[i..])
        invariant ch == chain ==> Table(g, disk.bytes) == t0
        invariant Touched(g, m0, disk.bytes, |chain|, ch, false) && !cap
        invariant Writing(g, m0, disk.bytes, chain, ch, cursor, data, total)
        invariant end == Span(i, w) && total == Progress(Span(i, w), cursor, goal)
        invariant |ch| > |chain| ==> Span(|ch| - 1, w) < goal
        decreases limit - i
      {
        SpanStep(i, w);
        if open {
          WriteLoopFacts(i, ch, m0, data, total);
        } else {
          StuckLoopFacts(i, current, ch);
        }
        if current < 2 {
          break;
        }
        var next := disk.ReadEntry(current, false);
        if next == BAD_MARK {
          break;
        }
        if next == 0 || END_MIN <= next <= END_MARK {
          var fits := cursor + |data| <= end + w;
          ghost var longer;
          SpanGrows(|ch|, limit, w);
          cap := fits && next != END_MARK;
          ok, next, longer := ExtendWriting(current, next, fits, ch, m0, data, total);
          if !ok {
            return;
          }
          ch := longer;
          LinkIs(next);
        }
        end := end + w;
        var n := WriteCluster(current, data, end, total, i, ch, m0, cap);
        disk.ValidFacts();
        total := total + n;
        i := i + 1;
        if END_MIN <= next <= END_MARK || next == FINAL_MARK {
          break;
        }
        current := Masked(next);
      }
      if open {
        ProgressDone(w, |ch|, cursor, goal);
      }
      ok := true;
    }

    /** What the loop of a write knows at the start. */
    lemma MayWriteFacts(n: nat)
      requires MayWrite(n)
      ensures disk.Valid() && Sized(disk.g, disk.bytes) && disk.g.Valid() && cursor + n < WORD
      ensures InDisk(disk.g, chain) && Distinct(chain)
      ensures Open() ==> chain != [] && chain[0] == firstLow && Last(chain) < |Table(disk.g, disk.bytes)|
      ensures Open() ==> Grown(Table(disk.g, disk.bytes), chain, chain)
      ensures Open() ==>
                var limit := |chain| + FreeFrom(Table(disk.g, disk.bytes), Last(chain) + 1);
                && (Enough(n) <==> cursor + n <= Span(limit, disk.g.ClusterSize()))
                && (Enough(n) || Sealed(disk.g, disk.bytes))
      ensures !Open() ==> Stuck(Table(disk.g, disk.bytes), firstLow, chain[0..])
    {
      hide *;
      if Open() {
        OpenChain();
        EnoughIs(n);
        GrownStart(Table(disk.g, disk.bytes), chain);
        GrownLast(Table(disk.g, disk.bytes), chain, chain);
        MayWriteOpen(n);
      } else {
        MayWriteFixed(n);
        StuckVisits(Table(disk.g, disk.bytes), firstLow, chain);
        VisitsInDisk(disk.g, disk.bytes, firstLow, chain);
        VisitsDistinct(Table(disk.g, disk.bytes), firstLow, chain);
        disk.ValidFacts();
        assert chain[0..] == chain;
      }
    }

    /** For an open file that is a matter of free clusters. */
    lemma OpenMayWrite(n: nat)
      requires Open()
      ensures MayWrite(n) <==> cursor + n < WORD && (Enough(n) || Sealed(disk.g, disk.bytes))
    {
    }

    lemma MayWriteOpen(n: nat)
      requires MayWrite(n) && Open()
      ensures cursor + n < WORD && (Enough(n) || Sealed(disk.g, disk.bytes))
    {
    }

    lemma MayWriteFixed(n: nat)
      requires MayWrite(n) && !Open()
      ensures cursor + n < WORD && disk.Valid() && Sized(disk.g, disk.bytes) && Stuck(Table(disk.g, disk.bytes), firstLow, chain)
    {
    }

    /** What that loop sees at cluster i of a fixed chain. */
    lemma StuckLoopFacts(i: nat, current: nat, ch: seq<nat>)
      requires disk.Valid() && i <= |ch| && Stuck(Table(disk.g, disk.bytes), current, ch[i..])
      ensures Sized(disk.g, disk.bytes) && (current < 2 ==> i == |ch|)
      ensures current >= 2 ==>
                && current < disk.g.clusters
                && var v := Entry(disk.g, disk.bytes, current);
                   && v != 0 && !(END_MIN <= v <= END_MARK)
                   && if v == BAD_MARK then i == |ch|
                      else && i < |ch| && current == ch[i]
                           && if v == FINAL_MARK then i == |ch| - 1 else Stuck(Table(disk.g, disk.bytes), Masked(v), ch[i + 1..])
    {
      hide *;
      disk.ValidFacts();
      StuckStep(Table(disk.g, disk.bytes), current, ch[i..]);
      if current >= 2 {
        TableAt(disk.g, disk.bytes, current);
      }
      assert i < |ch| ==> ch[i..][1..] == ch[i + 1..];
    }

    lemma EnoughIs(n: nat)
      requires Open()
      ensures disk.Valid() && |chain| > 0
      ensures Enough(n) <==>
                cursor + n <= Span(|chain| + FreeFrom(Table(disk.g, disk.bytes), Last(chain) + 1), disk.g.ClusterSize())
    {
    }

    /** Puts the data at the cursor, lengthening the chain as far as needed with the lowest free
        clusters above its last one. It succeeds exactly if there are enough of them. The file
        then holds its old bytes up to the cursor, the data, and its old bytes behind them; a gap
        before a cursor behind the size shows what the chain held there, and zeros. Clusters and
        table entries outside the chain are untouched, and so is every other byte of the disk, but
        for the copies of the entries linked or closed and, if the chain was closed anew, the bytes
        where the end mark is cleared. If it fails, size and cursor are as before, all free
        clusters above are linked, and the last of them is still marked free: the file keeps a
        well-formed chain exactly if there was none. On a fixed chain it writes as much of the data
        as the clusters hold, and reports success all the same. */
    method Fwrite(data: seq<Octet>) returns (ok: bool, ghost reached: seq<nat>)
      requires MayWrite(|data|)
      modifies `fileSize, `cursor, `chain, disk`bytes, disk`cache, disk`cacheSector
      ensures disk.Valid() && (old(Open()) ==> (ok <==> old(Enough(|data|))))
      ensures old(Open()) && ok ==> Open() && chain == reached && Contents() == Overwritten(old(Reach()), old(cursor), data)
      ensures old(Open()) && ok ==> cursor == old(cursor) + |data|
      ensures old(Open()) && ok ==> Extended(Table(disk.g, old(disk.bytes)), Table(disk.g, disk.bytes), old(chain), chain)
      ensures Apart(disk.g, old(disk.bytes), disk.bytes, old(chain), reached)
      ensures !ok ==> cursor == old(cursor) && fileSize == old(fileSize) && chain == old(chain)
      ensures !ok ==> Grown(Table(disk.g, disk.bytes), chain, reached)
      ensures !ok ==> chain != [] && |reached| == |chain| + FreeFrom(Table(disk.g, old(disk.bytes)), Last(chain) + 1)
      ensures !ok ==> |reached| > 0
      ensures !ok ==> Writing(disk.g, old(disk.bytes), disk.bytes, chain, reached, cursor, data,
                              Progress(Span(|reached| - 1, disk.g.ClusterSize()), cursor, cursor + |data|))
      ensures !ok ==> (Open() <==> FreeFrom(Table(disk.g, old(disk.bytes)), Last(chain) + 1) == 0)
      ensures old(Open()) ==> old(chain) != [] && Last(old(chain)) < |Table(disk.g, old(disk.bytes))|
      ensures Touched(disk.g, old(disk.bytes), disk.bytes, |old(chain)|, reached,
                      ok && old(Open()) && ClosesAnew(Table(disk.g, old(disk.bytes)), old(chain), reached))
      ensures old(Open()) && ok ==> Last(chain) < disk.g.clusters && Table(disk.g, disk.bytes)[Last(chain)] == END_MARK
      ensures !old(Open()) ==>
                var n := Progress(Span(|chain|, disk.g.ClusterSize()), old(cursor), old(cursor) + |data|);
                && ok && Fixed() && reached == chain == old(chain) && Table(disk.g, disk.bytes) == Table(disk.g, old(disk.bytes))
                && cursor == old(cursor) + n && fileSize == Max(old(fileSize), cursor)
                && Placed(disk.g, old(disk.bytes), disk.bytes, chain, old(cursor), data, n)
    {
      hide *;
      ghost var open := Open();
      MayWriteFacts(|data|);
      ghost var m0, ch0 := disk.bytes, chain;
      if open {
        OpenFacts();
      }
      var total;
      ok, total, reached := WriteChain(data);
      WritingFacts(disk.g, m0, disk.bytes, chain, reached, cursor, data, total);
      if !ok {
        FullDisk(reached);
        return;
      }
      if open {
        WritingDone(disk.g, m0, disk.bytes, ch0, reached, cursor, data, fileSize);
      } else {
        MakePlaced(disk.g, m0, disk.bytes, chain, cursor, data, total);
        StaysFixed(m0);
      }
      cursor := cursor + total;
      if cursor > fileSize {
        fileSize := cursor;
      }
      if open {
        chain := reached;
        MakeOpen();
        OpenFacts();
        ApartIsExtended(disk.g, m0, disk.bytes, ch0, reached);
      }
    }

    lemma StaysFixed(m0: seq<Octet>)
      requires disk.Valid() && Sized(disk.g, m0) && Table(disk.g, disk.bytes) == Table(disk.g, m0)
      requires Stuck(Table(disk.g, m0), firstLow, chain[0..])
      ensures Fixed()
    {
      assert chain[0..] == chain;
    }

    /** A chain that grew has lost its end mark. */
    lemma FullDisk(reached: seq<nat>)
      requires disk.Valid() && Grown(Table(disk.g, disk.bytes), chain, reached)
      requires chain != [] && chain[0] == firstLow && Covers(|chain|, disk.g.ClusterSize(), fileSize)
      ensures Open() <==> |reached| == |chain|
    {
      var t := Table(disk.g, disk.bytes);
      if |reached| > |chain| {
        assert reached[|chain| - 1] == Last(chain);
        assert Decode(t[reached[|chain| - 1]]) == To(reached[|chain|]);
      } else {
        assert reached == chain;
      }
    }

    // ----- Counting, freeing, truncating -----

    /** The number of clusters that the loops go through, whatever the table holds there. */
    method ClusterCount(ghost seen: seq<nat>) returns (count: nat)
      requires disk.Valid() && Visits(Table(disk.g, disk.bytes), firstLow, seen)
      modifies disk`cache, disk`cacheSector
      ensures count == |seen|
    {
      hide *;
      disk.ValidFacts();
      ghost var t := Table(disk.g, disk.bytes);
      var current := firstLow;
      count := 0;
      disk.InvalidateCache();
      while true
        invariant count <= |seen| && Visits(t, current, seen[count..])
        invariant disk.Valid() && disk.Coherent()
        decreases |seen| - count
      {
        VisitsStep(t, current, seen[count..]);
        if current < 2 {
          break;
        }
        TableAt(disk.g, disk.bytes, current);
        var next := disk.ReadEntry(current, true);
        if next == BAD_MARK {
          break;
        }
        if next == 0 {
          break;
        }
        count := count + 1;
        if END_MIN <= next <= END_MARK || next == FINAL_MARK {
          break;
        }
        current := Masked(next);
      }
    }

    /** Frees clusters from the first one on. It ends whatever the disk links, cycles and numbers
        past the last cluster included, as long as the words it asks for are on the disk: every
        round clears one. A walk inside the table frees nothing else in it and keeps all clusters. */
    method RemoveChain()
      requires disk.Valid() && Ends(Words(disk.bytes), FirstWord(disk.g), CopyWords(disk.g), firstLow)
      modifies disk`bytes, disk`cache, disk`cacheSector
      ensures disk.Valid() && Ends(Words(old(disk.bytes)), FirstWord(disk.g), CopyWords(disk.g), firstLow)
      ensures Words(disk.bytes) == Freed(Words(old(disk.bytes)), FirstWord(disk.g), CopyWords(disk.g), firstLow)
      ensures Inside(Table(disk.g, old(disk.bytes)), firstLow) ==>
                && Table(disk.g, disk.bytes) == Cut(Table(disk.g, old(disk.bytes)), firstLow)
                && (forall d: nat | IsCluster(disk.g, d) :: Cluster(disk.g, disk.bytes, d) == Cluster(disk.g, old(disk.bytes), d))
    {
      hide *;
      disk.ValidFacts();
      ghost var g, m0 := disk.g, disk.bytes;
      ghost var at, copy := FirstWord(g), CopyWords(g);
      var current := firstLow;
      CutStarts(g, m0, current);
      while true
        invariant disk.Valid() && Ends(Words(disk.bytes), at, copy, current)
        invariant Freed(Words(disk.bytes), at, copy, current) == Freed(Words(m0), at, copy, firstLow)
        invariant CutSoFar(g, m0, firstLow, disk.bytes, current)
        decreases NonFree(Words(disk.bytes))
      {
        disk.ValidFacts();
        ghost var m := disk.bytes;
        FreedStep(Words(m), at, copy, current);
        if current < 2 {
          CutStops(g, m0, firstLow, m, current);
          break;
        }
        WordPlace(g, m, current);
        var next := disk.ReadEntry(current, false);
        if next == BAD_MARK {
          CutStops(g, m0, firstLow, m, current);
          break;
        }
        if next == 0 {
          CutStops(g, m0, firstLow, m, current);
          break;
        }
        LinkKind(next);
        disk.WriteEntry(current, 0);
        disk.ValidFacts();
        SameClustersIs(g, m, disk.bytes, current);
        CutGoes(g, m0, firstLow, m, disk.bytes, current, next);
        if END_MIN <= next <= END_MARK || next == FINAL_MARK {
          break;
        }
        current := Masked(next);
      }
      CutDoneMeans(g, m0, firstLow, disk.bytes);
    }

    /** Opening an existing file for writing: no bytes and the first cluster only; the other
        clusters of its chain are free. No other word of the disk changes. */
    method Truncate()
      requires Open()
      modifies `fileSize, `chain, disk`bytes, disk`cache, disk`cacheSector
      ensures Open() && Contents() == [] && chain == [firstLow]
      ensures Truncated(Table(disk.g, old(disk.bytes)), Table(disk.g, disk.bytes), old(chain))
      ensures Ends(Words(old(disk.bytes)), FirstWord(disk.g), CopyWords(disk.g), firstLow)
      ensures var freed := Freed(Words(old(disk.bytes)), FirstWord(disk.g), CopyWords(disk.g), firstLow);
              && FirstWord(disk.g) + firstLow + CopyWords(disk.g) < |freed|
              && Words(disk.bytes) == BothSet(freed, FirstWord(disk.g) + firstLow, CopyWords(disk.g), END_MARK)
      ensures forall d: nat | IsCluster(disk.g, d) :: Cluster(disk.g, disk.bytes, d) == Cluster(disk.g, old(disk.bytes), d)
    {
      hide *;
      OpenChain();
      ghost var g, m0, ch0 := disk.g, disk.bytes, chain;
      Marks(g);
      CutRemovesChain(Table(g, m0), ch0);
      fileSize := 0;
      InsideEndsOnDisk(g, m0, firstLow);
      RemoveChain();
      disk.ValidFacts();
      ghost var u := Table(g, disk.bytes);
      RemovedThenMarked(Table(g, m0), u, ch0);
      disk.WriteEntry(firstLow, END_MARK);
      disk.ValidFacts();
      StartIsChain(Table(g, m0), Table(g, disk.bytes), ch0);
      chain := [firstLow];
      StartIs(ch0);
      CoversNothing(g.ClusterSize());
      MakeOpen();
      OpenFacts();
    }

    /** What the write loop sees at cluster i. */
    lemma WriteLoopFacts(i: nat, ch: seq<nat>, m0: seq<Octet>, data: seq<Octet>, total: nat)
      requires disk.Valid() && Grown(Table(disk.g, disk.bytes), chain, ch) && i < |ch|
      requires Writing(disk.g, m0, disk.bytes, chain, ch, cursor, data, total)
      ensures Sized(disk.g, disk.bytes) && 2 <= ch[i] < disk.g.clusters && ch[|ch| - 1] == Last(ch)
      ensures var v := Entry(disk.g, disk.bytes, ch[i]);
              && v == Table(disk.g, disk.bytes)[ch[i]] && v != BAD_MARK && v != FINAL_MARK
              && (v == 0 || END_MIN <= v <= END_MARK <==> i == |ch| - 1)
              && (i < |ch| - 1 ==> Masked(v) == ch[i + 1])
    {
      hide *;
      disk.ValidFacts();
      var g, m := disk.g, disk.bytes;
      GrownLast(Table(g, m), chain, ch);
      WritingFacts(g, m0, m, chain, ch, cursor, data, total);
      InRange(g, ch[i]);
      TableAt(g, m, ch[i]);
      GrownEntry(Table(g, m), chain, ch, i, Entry(g, m, ch[i]));
    }

    /** What an open file says of its chain. */
    lemma OpenChain()
      requires Open()
      ensures disk.Valid() && Sized(disk.g, disk.bytes) && disk.g.Valid()
      ensures IsChain(Table(disk.g, disk.bytes), chain) && |chain| >= 1
      ensures chain[0] == firstLow && fileSize <= Span(|chain|, disk.g.ClusterSize())
      ensures InDisk(disk.g, chain) && Distinct(chain)
    {
    }

    /** What an open file's fields say. */
    lemma OpenFacts()
      requires Open()
      ensures disk.Valid() && Sized(disk.g, disk.bytes) && disk.g.Valid()
      ensures IsChain(Table(disk.g, disk.bytes), chain) && Links(Table(disk.g, disk.bytes), chain)
      ensures |chain| >= 1 && chain[0] == firstLow
      ensures Covers(|chain|, disk.g.ClusterSize(), fileSize)
      ensures forall c | c in chain :: IsCluster(disk.g, c)
      ensures forall i: nat | i < |chain| :: IsCluster(disk.g, chain[i])
      ensures fileSize <= Span(|chain|, disk.g.ClusterSize())
      ensures Contents() == Flat(disk.g, disk.bytes, chain)[..fileSize]
      ensures Reach() == Reaching(Flat(disk.g, disk.bytes, chain), fileSize, cursor)
    {
    }

    lemma MakeOpen()
      requires disk.Valid() && IsChain(Table(disk.g, disk.bytes), chain) && chain[0] == firstLow
      requires Covers(|chain|, disk.g.ClusterSize(), fileSize)
      ensures Open()
    {
    }

    /** A new file is open if the loops can find its cluster. */
    lemma NewOpen()
      requires disk.Valid() && chain == [FirstCluster()] && IsChain(Table(disk.g, disk.bytes), chain)
      requires fileSize == 0 && cursor == 0
      ensures Open() <==> FirstCluster() < 0x1_0000
      ensures Open() ==> Contents() == []
    {
      CoversNothing(disk.g.ClusterSize());
    }
  }

  lemma RemovedThenMarked(t: seq<nat>, u: seq<nat>, ch: seq<nat>)
    requires IsChain(t, ch) && Removed(t, u, ch)
    ensures 2 <= ch[0] < |u| == |t| && Truncated(t, u[ch[0] := END_MARK], ch)
  {
  }

  lemma StartIs(ch: seq<nat>)
    requires ch != []
    ensures Start(ch) == [ch[0]]
  {
  }

  lemma CoversNothing(w: nat)
    ensures Covers(1, w, 0)
  {
  }

  lemma ApartIsExtended(g: Geometry, m0: seq<Octet>, m: seq<Octet>, ch0: seq<nat>, ch: seq<nat>)
    requires Sized(g, m0) && Sized(g, m) && Apart(g, m0, m, ch0, ch) && IsChain(Table(g, m), ch)
    ensures Extended(Table(g, m0), Table(g, m), ch0, ch)
  {
    hide Table, Cluster, IsChain;
  }

  /** Creating a file takes the lowest free cluster, marks it as the end of its chain and clears
      it; it fails, changing nothing, exactly if there is none. The loops will find the cluster
      exactly if its number is below 0x1_0000. */
  method Create(disk: Disk) returns (ok: bool, file: File?)
    requires disk.Valid() && (FreeFrom(Table(disk.g, disk.bytes), 2) > 0 || Sealed(disk.g, disk.bytes))
    modifies disk`bytes, disk`cache, disk`cacheSector
    ensures disk.Valid() && (ok <==> FreeFrom(Table(disk.g, old(disk.bytes)), 2) > 0) && (ok <==> file != null)
    ensures !ok ==> disk.bytes == old(disk.bytes)
    ensures ok ==> fresh(file) && file.disk == disk && file.cursor == 0 && file.fileSize == 0
    ensures ok ==> file.chain == [file.FirstCluster()] && IsChain(Table(disk.g, disk.bytes), file.chain)
    ensures ok ==> (file.Open() <==> file.FirstCluster() < 0x1_0000) && (file.Open() ==> file.Contents() == [])
    ensures ok ==> IsCluster(disk.g, file.FirstCluster())
    ensures Sealed(disk.g, old(disk.bytes)) ==> Sealed(disk.g, disk.bytes)
    ensures ok ==> Created(Table(disk.g, old(disk.bytes)), Table(disk.g, disk.bytes), file.FirstCluster())
    ensures ok ==> Cluster(disk.g, disk.bytes, file.FirstCluster()) == Zeroed(disk.g.ClusterSize())
    ensures ok ==>
              var c := file.FirstCluster();
              && c < WORD && disk.g.EntryStart(c) + disk.g.FatBytes() + 4 <= |old(disk.bytes)|
              && ClusterAddress(disk.g, c) + disk.g.ClusterSize() <= |old(disk.bytes)|
              && disk.bytes == Wiped(disk.g, Noted(disk.g, old(disk.bytes), c, END_MARK), c)
    ensures ok ==> forall d: nat | IsCluster(disk.g, d) && d != file.FirstCluster() ::
              Cluster(disk.g, disk.bytes, d) == Cluster(disk.g, old(disk.bytes), d)
  {
    hide *;
    disk.ValidFacts();
    ghost var g, m0 := disk.g, disk.bytes;
    ghost var t := Table(g, m0);
    Marks(g);
    AtLeastTwo(g);
    if Sealed(g, m0) {
      SealedSearch(g, m0);
    }
    var c;
    file := null;
    ok, c := FindFree(disk, 2);
    if !ok {
      return;
    }
    FirstFreeIs(g, t, 2, c);
    ClusterValue(g, c);
    disk.WriteEntry(c, END_MARK);
    disk.ClearCluster(c);
    disk.ValidFacts();
    Halves(c);
    file := new File(disk, c, 0, [c]);
    NewChain(t, c);
    file.NewOpen();
  }

  lemma AtLeastTwo(g: Geometry)
    requires g.Valid()
    ensures 2 <= g.clusters
  {
  }

  lemma NewChain(t: seq<nat>, c: nat)
    requires IsFirstFree(t, 2, c)
    ensures Created(t, t[c := END_MARK], c) && IsChain(t[c := END_MARK], [c])
  {
  }

  // ----- Several files -----

  /** A write leaves the chain and the bytes of every file it shares no cluster with. */
  lemma OtherFileKept(g: Geometry, m0: seq<Octet>, m: seq<Octet>, ch0: seq<nat>, ch: seq<nat>, other: seq<nat>)
    requires Sized(g, m0) && Sized(g, m) && Apart(g, m0, m, ch0, ch)
    requires IsChain(Table(g, m0), other) && forall c | c in other :: c !in ch0
    ensures IsChain(Table(g, m), other) && InDisk(g, other) && forall c | c in other :: c !in ch
    ensures Flat(g, m, other) == Flat(g, m0, other)
  {
    hide Table, Cluster, Flat, IsChain;
    forall c | c in other
      ensures c !in ch && IsCluster(g, c)
    {
      ChainedInUse(Table(g, m0), other, c);
    }
    ChainKept(Table(g, m0), Table(g, m), other);
    FlatSame(g, m0, m, other);
  }

  /** What was written is what a read from the same place delivers, and nothing else moved. */
  lemma WriteThenRead(s: seq<Octet>, at: nat, d: seq<Octet>)
    requires at <= |s|
    ensures var r := Overwritten(s, at, d);
            && r[at..Min(at + |d|, |r|)] == d && r[..at] == s[..at]
            && (at + |d| <= |s| ==> r[at + |d|..] == s[at + |d|..])
  {
  }

  /** The length an open file's chain has: one cluster, or as many as the bytes need. */
  lemma CoversIsCeiling(n: nat, w: nat, size: nat)
    requires w > 0
    ensures Covers(n, w, size) <==> n == if size == 0 then 1 else (size + w - 1) / w
  {
    SpanIs(n, w);
    if n > 0 {
      SpanIs(n - 1, w);
      assert (n - 1) * w == n * w - w;
      if size > 0 {
        Ceiling(n, w, size);
      }
    }
  }

  lemma Ceiling(n: nat, w: nat, size: nat)
    requires w > 0 && size > 0 && n > 0
    ensures n * w - w < size <= n * w <==> n == (size + w - 1) / w
  {
    var q := (size + w - 1) / w;
    assert q * w <= size + w - 1 < q * w + w;
    if q < n {
      assert (q + 1) * w <= n * w;
    } else if n < q {
      assert (n + 1) * w <= q * w;
    }
  }
}
