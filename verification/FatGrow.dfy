/** What a write does to a chain and its bytes, one cluster at a time. */
module FatGrow {
  import opened FatLayout
  import opened FatDisk
  import opened FatChain

  // ----- Chains that grow -----

  /** `ch` starts with the file's chain `ch0`; its last entry is the old end mark, or free when
      clusters were added. */
  ghost predicate Grown(t: seq<nat>, ch0: seq<nat>, ch: seq<nat>) {
    && Links(t, ch) && ch0 != [] && ch0 <= ch
    && if |ch| == |ch0| then Decode(t[Last(ch)]) == End else t[Last(ch)] == 0
  }

  lemma GrownStart(t: seq<nat>, ch0: seq<nat>)
    requires IsChain(t, ch0)
    ensures Grown(t, ch0, ch0)
  {
  }

  /** What the loop sees at cluster i. */
  lemma GrownEntry(t: seq<nat>, ch0: seq<nat>, ch: seq<nat>, i: nat, v: nat)
    requires Grown(t, ch0, ch) && i < |ch| && ch[i] < |t| && v == t[ch[i]]
    ensures Links(t, ch) && 2 <= ch[i] && v != BAD_MARK && v != FINAL_MARK
    ensures v == 0 || END_MIN <= v <= END_MARK <==> i == |ch| - 1
    ensures i < |ch| - 1 ==> Masked(v) == ch[i + 1]
  {
    if i < |ch| - 1 {
      assert Decode(t[ch[i]]) == To(ch[i + 1]);
    }
  }

  lemma GrownLast(t: seq<nat>, ch0: seq<nat>, ch: seq<nat>)
    requires Grown(t, ch0, ch)
    ensures ch != [] && 2 <= Last(ch) < |t| && ch0 != [] && ch0 <= ch && ch[|ch| - 1] == Last(ch)
  {
  }

  /** Linking the last cluster to a free one lengthens the chain. */
  lemma GrownStep(t: seq<nat>, ch0: seq<nat>, ch: seq<nat>, c: nat)
    requires Grown(t, ch0, ch) && Last(ch) < c < |t| && c < BAD_MARK && t[c] == 0
    ensures Grown(t[Last(ch) := c], ch0, ch + [c]) && c !in ch
  {
    var u, longer := t[Last(ch) := c], ch + [c];
    assert forall i: nat | i < |ch| - 1 :: t[ch[i]] != 0 by {
      forall i: nat | i < |ch| - 1
        ensures t[ch[i]] != 0
      {
        assert Decode(t[ch[i]]) == To(ch[i + 1]);
      }
    }
    assert c !in ch;
    forall i: nat | i + 1 < |longer|
      ensures Decode(u[longer[i]]) == To(longer[i + 1])
    {
      if i + 1 < |ch| {
        assert ch[i] != ch[|ch| - 1];
      }
    }
  }

  /** An end mark in the last entry closes the chain. */
  lemma GrownCap(t: seq<nat>, ch0: seq<nat>, ch: seq<nat>)
    requires Grown(t, ch0, ch)
    ensures IsChain(t[Last(ch) := END_MARK], ch)
  {
    var u := t[Last(ch) := END_MARK];
    forall i: nat | i + 1 < |ch|
      ensures Decode(u[ch[i]]) == To(ch[i + 1])
    {
      assert ch[i] != ch[|ch| - 1];
    }
  }

  // ----- Bytes that grow -----

  /** Clusters and entries outside `ch` hold what they held, and the clusters that `ch` has
      beyond `ch0` were free. */
  ghost predicate Apart(g: Geometry, m0: seq<Octet>, m: seq<Octet>, ch0: seq<nat>, ch: seq<nat>)
    requires Sized(g, m0) && Sized(g, m)
  {
    && ch0 <= ch
    && (forall d: nat | d < g.clusters && d !in ch :: Table(g, m)[d] == Table(g, m0)[d])
    && (forall d: nat | IsCluster(g, d) && d !in ch :: Cluster(g, m, d) == Cluster(g, m0, d))
    && (forall i: nat | |ch0| <= i < |ch| :: ch[i] < g.clusters && Table(g, m0)[ch[i]] == 0)
  }

  /** s, zero-filled to n bytes. */
  function Padded(s: seq<Octet>, n: nat): (r: seq<Octet>)
    requires |s| <= n
    ensures |r| == n
  {
    s + Zeroed(n - |s|)
  }

  /** s with d put at `at`, which lies inside s unless there is nothing to put. */
  function Landed(s: seq<Octet>, at: nat, d: seq<Octet>): (r: seq<Octet>)
    requires d != [] ==> at + |d| <= |s|
    ensures |r| == |s|
  {
    if d == [] then s else Spliced(s, at, d)
  }

  ghost predicate InDisk(g: Geometry, ch: seq<nat>) { forall c | c in ch :: IsCluster(g, c) }

  lemma InDiskFacts(g: Geometry, ch: seq<nat>)
    requires InDisk(g, ch)
    ensures forall c | c in ch :: IsCluster(g, c)
  {
  }

  lemma ApartStart(g: Geometry, m: seq<Octet>, ch: seq<nat>)
    requires Sized(g, m)
    ensures Apart(g, m, m, ch, ch)
  {
  }

  /** A write in progress: `total` bytes of the data lie in the zero-filled chain. */
  ghost predicate Writing(g: Geometry, m0: seq<Octet>, m: seq<Octet>, ch0: seq<nat>, ch: seq<nat>,
                          at: nat, data: seq<Octet>, total: nat) {
    && Sized(g, m0) && Sized(g, m) && InDisk(g, ch0) && InDisk(g, ch) && Distinct(ch)
    && Apart(g, m0, m, ch0, ch)
    && Span(|ch0|, g.ClusterSize()) <= Span(|ch|, g.ClusterSize())
    && total <= |data| && (total > 0 ==> at + total <= Span(|ch|, g.ClusterSize()))
    && Flat(g, m, ch) == Landed(Padded(Flat(g, m0, ch0), Span(|ch|, g.ClusterSize())), at, data[..total])
  }

  lemma WritingStart(g: Geometry, m: seq<Octet>, ch: seq<nat>, at: nat, data: seq<Octet>)
    requires Sized(g, m) && InDisk(g, ch) && Distinct(ch)
    ensures InDisk(g, ch) && Writing(g, m, m, ch, ch, at, data, 0)
  {
    hide *;
    InDiskFacts(g, ch);
    NothingLanded(Flat(g, m, ch), at, data);
    ApartStart(g, m, ch);
    MakeWriting(g, m, m, ch, ch, at, data, 0);
  }

  lemma NothingLanded(s: seq<Octet>, at: nat, data: seq<Octet>)
    ensures |data[..0]| == 0 && Landed(Padded(s, |s|), at, data[..0]) == s
  {
    assert Padded(s, |s|) == s;
  }

  /** Only the last entry changed. */
  lemma WritingCap(g: Geometry, m0: seq<Octet>, m: seq<Octet>, m2: seq<Octet>, ch0: seq<nat>, ch: seq<nat>,
                   at: nat, data: seq<Octet>, total: nat, v: nat)
    requires Writing(g, m0, m, ch0, ch, at, data, total) && ch != [] && Sized(g, m2) && Last(ch) < g.clusters
    requires Table(g, m2) == Table(g, m)[Last(ch) := v]
    requires forall d: nat | IsCluster(g, d) :: Cluster(g, m2, d) == Cluster(g, m, d)
    ensures Writing(g, m0, m2, ch0, ch, at, data, total)
  {
    hide Cluster, Landed, Padded, Table, Flat;
    FlatSame(g, m, m2, ch);
  }

  /** The last cluster was linked to a cleared free one. */
  lemma WritingGrow(g: Geometry, m0: seq<Octet>, m: seq<Octet>, m2: seq<Octet>, ch0: seq<nat>, ch: seq<nat>,
                    at: nat, data: seq<Octet>, total: nat, c: nat)
    requires Writing(g, m0, m, ch0, ch, at, data, total) && ch != [] && Sized(g, m2) && Last(ch) < g.clusters
    requires IsCluster(g, c) && c !in ch && Table(g, m)[c] == 0
    requires Table(g, m2) == Table(g, m)[Last(ch) := c]
    requires Cluster(g, m2, c) == Zeroed(g.ClusterSize())
    requires forall d: nat | IsCluster(g, d) && d != c :: Cluster(g, m2, d) == Cluster(g, m, d)
    ensures Writing(g, m0, m2, ch0, ch + [c], at, data, total)
  {
    hide *;
    WritingFacts(g, m0, m, ch0, ch, at, data, total);
    var w := g.ClusterSize();
    SpanStep(|ch|, w);
    InDiskFacts(g, ch);
    FlatSame(g, m, m2, ch);
    FlatAppend(g, m2, ch, c);
    PadMore(Flat(g, m0, ch0), Span(|ch|, w), w, at, data[..total]);
    ApartGrow(g, m0, m, m2, ch0, ch, c);
    InDisk2(g, ch, c);
    MakeWriting(g, m0, m2, ch0, ch + [c], at, data, total);
  }

  lemma InDisk2(g: Geometry, ch: seq<nat>, c: nat)
    requires InDisk(g, ch) && Distinct(ch) && IsCluster(g, c) && c !in ch
    ensures InDisk(g, ch + [c]) && Distinct(ch + [c])
  {
  }

  lemma ApartGrow(g: Geometry, m0: seq<Octet>, m: seq<Octet>, m2: seq<Octet>, ch0: seq<nat>, ch: seq<nat>, c: nat)
    requires Sized(g, m0) && Sized(g, m) && Sized(g, m2) && Apart(g, m0, m, ch0, ch)
    requires ch != [] && Last(ch) < g.clusters && IsCluster(g, c) && c !in ch && Table(g, m)[c] == 0
    requires Table(g, m2) == Table(g, m)[Last(ch) := c]
    requires forall d: nat | IsCluster(g, d) && d != c :: Cluster(g, m2, d) == Cluster(g, m, d)
    ensures Apart(g, m0, m2, ch0, ch + [c])
  {
    hide Cluster, Table;
  }

  lemma PadMore(s: seq<Octet>, n: nat, w: nat, at: nat, d: seq<Octet>)
    requires |s| <= n && (d != [] ==> at + |d| <= n)
    ensures Landed(Padded(s, n), at, d) + Zeroed(w) == Landed(Padded(s, n + w), at, d)
  {
    if d != [] {
      SpliceLeft(Padded(s, n), Zeroed(w), at, d);
    }
    assert Padded(s, n) + Zeroed(w) == Padded(s, n + w);
  }

  /** A piece of the data was written into cluster i. */
  lemma WritingPiece(g: Geometry, m0: seq<Octet>, m: seq<Octet>, m2: seq<Octet>, ch0: seq<nat>, ch: seq<nat>,
                     at: nat, data: seq<Octet>, total: nat, i: nat, skip: nat, n: nat)
    requires Writing(g, m0, m, ch0, ch, at, data, total) && Sized(g, m2) && i < |ch| && IsCluster(g, ch[i])
    requires total + n <= |data| && skip + n <= g.ClusterSize()
    requires n > 0 ==> Span(i, g.ClusterSize()) + skip == at + total
    requires Table(g, m2) == Table(g, m)
    requires Cluster(g, m2, ch[i]) == Spliced(Cluster(g, m, ch[i]), skip, data[total..total + n])
    requires forall d: nat | IsCluster(g, d) && d != ch[i] :: Cluster(g, m2, d) == Cluster(g, m, d)
    ensures Writing(g, m0, m2, ch0, ch, at, data, total + n)
  {
    hide *;
    WritingFacts(g, m0, m, ch0, ch, at, data, total);
    var w := g.ClusterSize();
    var piece := data[total..total + n];
    InDiskFacts(g, ch);
    FlatSpliced(g, m, m2, ch, i, skip, piece);
    ApartPiece(g, m0, m, m2, ch0, ch, i);
    LandMore(Padded(Flat(g, m0, ch0), Span(|ch|, w)), at, data, total, n, Span(i, w) + skip);
    MakeWriting(g, m0, m2, ch0, ch, at, data, total + n);
  }

  lemma ApartPiece(g: Geometry, m0: seq<Octet>, m: seq<Octet>, m2: seq<Octet>, ch0: seq<nat>, ch: seq<nat>, i: nat)
    requires Sized(g, m0) && Sized(g, m) && Sized(g, m2) && Apart(g, m0, m, ch0, ch) && i < |ch| && IsCluster(g, ch[i])
    requires Table(g, m2) == Table(g, m)
    requires forall d: nat | IsCluster(g, d) && d != ch[i] :: Cluster(g, m2, d) == Cluster(g, m, d)
    ensures Apart(g, m0, m2, ch0, ch)
  {
    hide Cluster, Table;
  }

  /** Writing the next bytes behind the first ones writes them together. */
  lemma LandMore(s: seq<Octet>, at: nat, data: seq<Octet>, total: nat, n: nat, p: nat)
    requires total + n <= |data| && (total > 0 ==> at + total <= |s|) && p + n <= |s| && (n > 0 ==> p == at + total)
    ensures total + n > 0 ==> at + total + n <= |s|
    ensures Spliced(Landed(s, at, data[..total]), p, data[total..total + n]) == Landed(s, at, data[..total + n])
  {
    if n == 0 {
      NothingMore(Landed(s, at, data[..total]), p, data[total..total + n]);
    } else if total == 0 {
      assert data[..total] == [] && data[total..total + n] == data[..total + n];
      hide Spliced;
    } else {
      SpliceMore(s, at, data[..total], data[total..total + n]);
      assert data[..total] + data[total..total + n] == data[..total + n];
      hide Spliced;
    }
  }

  lemma NothingMore(s: seq<Octet>, at: nat, d: seq<Octet>)
    requires at <= |s| && d == []
    ensures Spliced(s, at, d) == s
  {
  }

  lemma SpliceMore(s: seq<Octet>, at: nat, c: seq<Octet>, d: seq<Octet>)
    requires at + |c| + |d| <= |s|
    ensures Spliced(Spliced(s, at, c), at + |c|, d) == Spliced(s, at, c + d)
  {
  }

  lemma WritingFacts(g: Geometry, m0: seq<Octet>, m: seq<Octet>, ch0: seq<nat>, ch: seq<nat>,
                     at: nat, data: seq<Octet>, total: nat)
    requires Writing(g, m0, m, ch0, ch, at, data, total)
    ensures Sized(g, m0) && Sized(g, m) && InDisk(g, ch0) && InDisk(g, ch) && Distinct(ch)
    ensures forall c | c in ch0 :: IsCluster(g, c)
    ensures forall c | c in ch :: IsCluster(g, c)
    ensures Apart(g, m0, m, ch0, ch)
    ensures Span(|ch0|, g.ClusterSize()) <= Span(|ch|, g.ClusterSize())
    ensures total <= |data| && (total > 0 ==> at + total <= Span(|ch|, g.ClusterSize()))
    ensures Flat(g, m, ch) == Landed(Padded(Flat(g, m0, ch0), Span(|ch|, g.ClusterSize())), at, data[..total])
  {
  }

  lemma MakeWriting(g: Geometry, m0: seq<Octet>, m: seq<Octet>, ch0: seq<nat>, ch: seq<nat>,
                    at: nat, data: seq<Octet>, total: nat)
    requires Sized(g, m0) && Sized(g, m) && InDisk(g, ch0) && InDisk(g, ch) && Distinct(ch)
    requires Apart(g, m0, m, ch0, ch)
    requires Span(|ch0|, g.ClusterSize()) <= Span(|ch|, g.ClusterSize())
    requires total <= |data| && (total > 0 ==> at + total <= Span(|ch|, g.ClusterSize()))
    requires Flat(g, m, ch) == Landed(Padded(Flat(g, m0, ch0), Span(|ch|, g.ClusterSize())), at, data[..total])
    ensures Writing(g, m0, m, ch0, ch, at, data, total)
  {
  }

  // ----- What a write leaves alone, byte by byte -----

  ghost predicate InCluster(g: Geometry, c: nat, x: nat) {
    IsCluster(g, c) && g.ClusterStart(c) <= x < g.ClusterStart(c) + g.ClusterSize()
  }

  /** Byte x belongs to entry c or to its copy. */
  predicate InEntry(g: Geometry, c: nat, x: nat) {
    g.EntryStart(c) <= x < g.EntryStart(c) + 4 || g.EntryStart(c) + g.FatBytes() <= x < g.EntryStart(c) + g.FatBytes() + 4
  }

  /** Byte x is one that clearing the end mark zeroes. */
  predicate InCap(g: Geometry, x: nat) { ClusterAddress(g, END_MARK) <= x < ClusterAddress(g, END_MARK) + g.ClusterSize() }

  /** A write may change byte x: in the chain's clusters; if it linked or closed the chain, in the
      entries from the old last one on; and if it closed it, where the end mark is cleared. */
  ghost predicate Writable(g: Geometry, n0: nat, ch: seq<nat>, cap: bool, x: nat) {
    || (exists c | c in ch :: InCluster(g, c, x))
    || ((|ch| > n0 || cap) && exists i: nat | n0 <= i + 1 && i < |ch| :: InEntry(g, ch[i], x))
    || (cap && InCap(g, x))
  }

  ghost predicate Framed(g: Geometry, m0: seq<Octet>, m: seq<Octet>, n0: nat, ch: seq<nat>, cap: bool) {
    |m| == |m0| && forall x: nat | x < |m0| && !Writable(g, n0, ch, cap, x) :: m[x] == m0[x]
  }

  lemma FramedStart(g: Geometry, m: seq<Octet>, n0: nat, ch: seq<nat>)
    ensures Framed(g, m, m, n0, ch, false)
  {
  }

  /** A splice inside writable bytes. */
  lemma FramedSplice(g: Geometry, m0: seq<Octet>, m: seq<Octet>, at: nat, s: seq<Octet>, n0: nat, ch: seq<nat>, cap: bool)
    requires Framed(g, m0, m, n0, ch, cap) && at + |s| <= |m|
    requires forall x: nat | at <= x < at + |s| :: Writable(g, n0, ch, cap, x)
    ensures Framed(g, m0, Spliced(m, at, s), n0, ch, cap)
  {
    hide Writable;
  }

  /** Data in one of the chain's clusters. */
  lemma FramedData(g: Geometry, m0: seq<Octet>, m: seq<Octet>, c: nat, skip: nat, s: seq<Octet>, n0: nat, ch: seq<nat>, cap: bool)
    requires Framed(g, m0, m, n0, ch, cap) && c in ch && IsCluster(g, c) && skip + |s| <= g.ClusterSize()
    requires g.ClusterStart(c) + skip + |s| <= |m|
    ensures Framed(g, m0, Spliced(m, g.ClusterStart(c) + skip, s), n0, ch, cap)
  {
    forall x: nat | g.ClusterStart(c) + skip <= x < g.ClusterStart(c) + skip + |s|
      ensures Writable(g, n0, ch, cap, x)
    {
      assert InCluster(g, c, x);
    }
    FramedSplice(g, m0, m, g.ClusterStart(c) + skip, s, n0, ch, cap);
  }

  /** More may be writable. */
  lemma FramedMore(g: Geometry, m0: seq<Octet>, m: seq<Octet>, n0: nat, ch: seq<nat>, more: seq<nat>, cap: bool)
    requires Framed(g, m0, m, n0, ch, false) && ch <= more
    ensures Framed(g, m0, m, n0, more, cap)
  {
    forall x: nat | Writable(g, n0, ch, false, x)
      ensures Writable(g, n0, more, cap, x)
    {
      WritableMore(g, n0, ch, more, cap, x);
    }
    hide Writable;
  }

  lemma WritableMore(g: Geometry, n0: nat, ch: seq<nat>, more: seq<nat>, cap: bool, x: nat)
    requires Writable(g, n0, ch, false, x) && ch <= more
    ensures Writable(g, n0, more, cap, x)
  {
    hide InEntry, InCluster, InCap;
    if i: nat :| |ch| > n0 && n0 <= i + 1 && i < |ch| && InEntry(g, ch[i], x) {
      assert more[i] == ch[i];
    }
  }

  lemma FramedNoted(g: Geometry, m0: seq<Octet>, m: seq<Octet>, i: nat, v: nat, n0: nat, ch: seq<nat>, cap: bool)
    requires Framed(g, m0, m, n0, ch, cap) && (|ch| > n0 || cap) && n0 <= i + 1 && i < |ch|
    requires v < WORD && g.EntryStart(ch[i]) + g.FatBytes() + 4 <= |m|
    ensures Framed(g, m0, Noted(g, m, ch[i], v), n0, ch, cap)
  {
    var at := g.EntryStart(ch[i]);
    forall x: nat | at <= x < at + 4 || at + g.FatBytes() <= x < at + g.FatBytes() + 4
      ensures Writable(g, n0, ch, cap, x)
    {
      assert InEntry(g, ch[i], x);
    }
    hide Writable, Framed, Spliced;
    FramedSplice(g, m0, m, at, Bytes32(v), n0, ch, cap);
    FramedSplice(g, m0, Spliced(m, at, Bytes32(v)), at + g.FatBytes(), Bytes32(v), n0, ch, cap);
  }

  /** Linking and clearing a further cluster. */
  lemma FramedLink(g: Geometry, m0: seq<Octet>, m: seq<Octet>, n0: nat, ch: seq<nat>, c: nat)
    requires Framed(g, m0, m, n0, ch, false) && ch != [] && n0 <= |ch|
    requires g.Valid() && IsCluster(g, c) && c < WORD && g.EntryStart(Last(ch)) + g.FatBytes() + 4 <= |m|
    requires ClusterAddress(g, c) + g.ClusterSize() <= |m|
    ensures Framed(g, m0, Wiped(g, Noted(g, m, Last(ch), c), c), n0, ch + [c], false)
  {
    var more := ch + [c];
    AddressOfCluster(g, c);
    FramedMore(g, m0, m, n0, ch, more, false);
    FramedNoted(g, m0, m, |ch| - 1, c, n0, more, false);
    assert c in more;
    hide Framed, Noted, ClusterAddress;
    FramedData(g, m0, Noted(g, m, Last(ch), c), c, 0, Zeroed(g.ClusterSize()), n0, more, false);
  }

  /** Closing the chain. */
  lemma FramedCap(g: Geometry, m0: seq<Octet>, m: seq<Octet>, n0: nat, ch: seq<nat>)
    requires Framed(g, m0, m, n0, ch, false) && ch != [] && n0 <= |ch|
    requires END_MARK < WORD && g.EntryStart(Last(ch)) + g.FatBytes() + 4 <= |m|
    requires ClusterAddress(g, END_MARK) + g.ClusterSize() <= |m|
    ensures Framed(g, m0, Wiped(g, Noted(g, m, Last(ch), END_MARK), END_MARK), n0, ch, true)
  {
    FramedMore(g, m0, m, n0, ch, ch, true);
    FramedNoted(g, m0, m, |ch| - 1, END_MARK, n0, ch, true);
    hide Framed, Noted, Writable;
    forall x: nat | ClusterAddress(g, END_MARK) <= x < ClusterAddress(g, END_MARK) + g.ClusterSize()
      ensures Writable(g, n0, ch, true, x)
    {
      CapWritable(g, n0, ch, x);
    }
    FramedSplice(g, m0, Noted(g, m, Last(ch), END_MARK), ClusterAddress(g, END_MARK), Zeroed(g.ClusterSize()), n0, ch, true);
  }

  lemma CapWritable(g: Geometry, n0: nat, ch: seq<nat>, x: nat)
    requires InCap(g, x)
    ensures Writable(g, n0, ch, true, x)
  {
  }

  // ----- What a write does to the second table -----

  /** The bytes that clearing the end mark zeroes are zero. */
  ghost predicate Blank(g: Geometry, m: seq<Octet>) { forall x: nat | x < |m| && InCap(g, x) :: m[x] == 0 }

  /** The second table agrees with the first, except where the end mark was cleared. */
  ghost predicate Mirrored(g: Geometry, m: seq<Octet>, cap: bool)
    requires Sized(g, m)
  {
    forall c: nat | c < g.clusters && !(cap && Capped(g, c)) :: CopyAgrees(g, m, c)
  }

  lemma MirroredNoted(g: Geometry, m: seq<Octet>, c: nat, v: nat)
    requires Sized(g, m) && Mirrored(g, m, false) && c < g.clusters && v < WORD
    ensures g.EntryStart(c) + g.FatBytes() + 4 <= |m| && Sized(g, Noted(g, m, c, v)) && Mirrored(g, Noted(g, m, c, v), false)
  {
    AfterEntryWrite(g, m, c, v);
    var m2 := Noted(g, m, c, v);
    forall d: nat | d < g.clusters
      ensures CopyAgrees(g, m2, d)
    {
      assert CopyAgrees(g, m, d);
      assert Table(g, m2)[d] == Table(g, m)[c := v][d];
      CopyNoted(g, m, c, v, d);
    }
  }

  lemma CopyNoted(g: Geometry, m: seq<Octet>, c: nat, v: nat, d: nat)
    requires Sized(g, m) && c < g.clusters && d < g.clusters && v < WORD
    ensures g.EntryStart(c) + g.FatBytes() + 4 <= |m| && CopyStart(g, d) + 4 <= |m|
    ensures WordAt(Noted(g, m, c, v), CopyStart(g, d)) == if d == c then v else WordAt(m, CopyStart(g, d))
  {
    CopyPlaces(g, m, c, d);
    var at, copy, x := g.EntryStart(c), g.EntryStart(c) + g.FatBytes(), CopyStart(g, d);
    TwoWritten(m, at, copy, v, x);
  }

  lemma CopyPlaces(g: Geometry, m: seq<Octet>, c: nat, d: nat)
    requires Sized(g, m) && c < g.clusters && d < g.clusters
    ensures var at, copy, x := g.EntryStart(c), g.EntryStart(c) + g.FatBytes(), CopyStart(g, d);
            && at + 4 <= x && copy + 4 <= |m| && at + 4 <= |m| && x + 4 <= |m|
            && if d == c then x == copy else x + 4 <= copy || copy + 4 <= x
  {
    EntryInTable(g, c);
    EntryInTable(g, d);
  }

  lemma TwoWritten(m: seq<Octet>, at: nat, copy: nat, v: nat, x: nat)
    requires at + 4 <= x && copy + 4 <= |m| && at + 4 <= |m| && x + 4 <= |m| && v < WORD
    requires x == copy || x + 4 <= copy || copy + 4 <= x
    ensures WordAt(Spliced(Spliced(m, at, Bytes32(v)), copy, Bytes32(v)), x) == if x == copy then v else WordAt(m, x)
  {
    hide Spliced, WordAt, Bytes32;
    var m1 := Spliced(m, at, Bytes32(v));
    if x == copy {
      WordWritten(m1, copy, v);
    } else {
      WordElsewhere(m, at, Bytes32(v), x);
      WordElsewhere(m1, copy, Bytes32(v), x);
    }
  }

  lemma MirroredCap(g: Geometry, m: seq<Octet>)
    requires Sized(g, m)
    ensures ClusterAddress(g, END_MARK) + g.ClusterSize() <= |m| && Sized(g, Wiped(g, m, END_MARK))
    ensures Mirrored(g, m, false) ==> Mirrored(g, Wiped(g, m, END_MARK), true)
    ensures Blank(g, Wiped(g, m, END_MARK))
  {
    ClearedFacts(g, m, END_MARK);
    var m2 := Wiped(g, m, END_MARK);
    assert Blank(g, m2);
    if Mirrored(g, m, false) {
      forall c: nat | c < g.clusters && !Capped(g, c)
        ensures CopyAgrees(g, m2, c)
      {
        assert CopyAgrees(g, m, c);
        assert Table(g, m2)[c] == Table(g, m)[c];
        CappedCopy(g, m, c);
      }
    }
  }

  lemma MirroredData(g: Geometry, m: seq<Octet>, c: nat, skip: nat, s: seq<Octet>, cap: bool)
    requires Sized(g, m) && IsCluster(g, c) && skip + |s| <= g.ClusterSize()
    ensures g.ClusterStart(c) + skip + |s| <= |m| && Sized(g, Spliced(m, g.ClusterStart(c) + skip, s))
    ensures Mirrored(g, m, cap) ==> Mirrored(g, Spliced(m, g.ClusterStart(c) + skip, s), cap)
    ensures Blank(g, m) ==> Blank(g, Spliced(m, g.ClusterStart(c) + skip, s))
  {
    AfterDataWrite(g, m, c, skip, s);
    AddressOfEndMark(g);
    var at := g.ClusterStart(c) + skip;
    var m2 := Spliced(m, at, s);
    if Mirrored(g, m, cap) {
      forall d: nat | d < g.clusters && !(cap && Capped(g, d))
        ensures CopyAgrees(g, m2, d)
      {
        assert CopyAgrees(g, m, d);
        assert Table(g, m2)[d] == Table(g, m)[d];
        EntryInTable(g, d);
        WordElsewhere(m, at, s, CopyStart(g, d));
      }
    }
  }

  // ----- Both -----

  /** A write that ends on ch closes the chain anew unless it stays as it is and ends in the end
      mark already. */
  ghost predicate ClosesAnew(t: seq<nat>, ch0: seq<nat>, ch: seq<nat>)
    requires ch0 != [] && Last(ch0) < |t|
  {
    ch != ch0 || t[Last(ch0)] != END_MARK
  }

  /** The last entry that the loop sees decides it. */
  lemma ClosesAnewIs(t0: seq<nat>, t: seq<nat>, ch0: seq<nat>, ch: seq<nat>)
    requires Grown(t, ch0, ch) && |t| == |t0| && (ch == ch0 ==> t == t0)
    ensures ch0 != [] && ch0 <= ch && Last(ch0) < |t0| && Last(ch) < |t|
    ensures ClosesAnew(t0, ch0, ch) <==> t[Last(ch)] != END_MARK
  {
    if |ch| == |ch0| {
      assert ch == ch0;
    } else {
      assert ch0[|ch0| - 1] == ch[|ch0| - 1];
    }
  }

  /** What a write has touched so far: no byte that it may not write; tables that agreed before
      still do, except where the end mark was cleared. */
  ghost predicate Touched(g: Geometry, m0: seq<Octet>, m: seq<Octet>, n0: nat, ch: seq<nat>, cap: bool) {
    && Sized(g, m0) && Sized(g, m) && Framed(g, m0, m, n0, ch, cap)
    && (CopiesAgree(g, m0) ==> Mirrored(g, m, cap)) && (cap ==> Blank(g, m))
  }

  lemma TouchedStart(g: Geometry, m: seq<Octet>, n0: nat, ch: seq<nat>)
    requires Sized(g, m)
    ensures Touched(g, m, m, n0, ch, false)
  {
    FramedStart(g, m, n0, ch);
  }

  lemma TouchedData(g: Geometry, m0: seq<Octet>, m: seq<Octet>, c: nat, skip: nat, s: seq<Octet>, n0: nat, ch: seq<nat>, cap: bool)
    requires Touched(g, m0, m, n0, ch, cap) && c in ch && IsCluster(g, c) && skip + |s| <= g.ClusterSize()
    ensures g.ClusterStart(c) + skip + |s| <= |m|
    ensures Touched(g, m0, Spliced(m, g.ClusterStart(c) + skip, s), n0, ch, cap)
  {
    hide Sized, Framed, Mirrored, CopiesAgree, Blank, Spliced;
    MirroredData(g, m, c, skip, s, cap);
    FramedData(g, m0, m, c, skip, s, n0, ch, cap);
  }

  lemma TouchedLink(g: Geometry, m0: seq<Octet>, m: seq<Octet>, n0: nat, ch: seq<nat>, c: nat)
    requires Touched(g, m0, m, n0, ch, false) && ch != [] && n0 <= |ch| && Last(ch) < g.clusters
    requires IsCluster(g, c) && c < WORD
    ensures g.EntryStart(Last(ch)) + g.FatBytes() + 4 <= |m| && ClusterAddress(g, c) + g.ClusterSize() <= |m|
    ensures Touched(g, m0, Wiped(g, Noted(g, m, Last(ch), c), c), n0, ch + [c], false)
  {
    hide Framed, Mirrored, CopiesAgree, Blank, Spliced, ClusterAddress, Noted, Wiped;
    LinkPlaces(g, m, Last(ch), c);
    AddressOfCluster(g, c);
    if CopiesAgree(g, m0) {
      MirroredNoted(g, m, Last(ch), c);
    }
    NotedSized(g, m, Last(ch), c);
    MirroredData(g, Noted(g, m, Last(ch), c), c, 0, Zeroed(g.ClusterSize()), false);
    WipedIs(g, Noted(g, m, Last(ch), c), c);
    FramedLink(g, m0, m, n0, ch, c);
  }

  lemma TouchedCap(g: Geometry, m0: seq<Octet>, m: seq<Octet>, n0: nat, ch: seq<nat>)
    requires Touched(g, m0, m, n0, ch, false) && ch != [] && n0 <= |ch| && Last(ch) < g.clusters
    ensures END_MARK < WORD && g.EntryStart(Last(ch)) + g.FatBytes() + 4 <= |m| && ClusterAddress(g, END_MARK) + g.ClusterSize() <= |m|
    ensures Touched(g, m0, Wiped(g, Noted(g, m, Last(ch), END_MARK), END_MARK), n0, ch, true)
  {
    hide Framed, Mirrored, CopiesAgree, Blank, Spliced, ClusterAddress, Noted, Wiped;
    if CopiesAgree(g, m0) {
      MirroredNoted(g, m, Last(ch), END_MARK);
    }
    NotedSized(g, m, Last(ch), END_MARK);
    MirroredCap(g, Noted(g, m, Last(ch), END_MARK));
    FramedCap(g, m0, m, n0, ch);
  }

  lemma NotedSized(g: Geometry, m: seq<Octet>, c: nat, v: nat)
    requires Sized(g, m) && c < g.clusters && v < WORD
    ensures g.EntryStart(c) + g.FatBytes() + 4 <= |m| && Sized(g, Noted(g, m, c, v))
  {
    EntryInTable(g, c);
  }

  lemma LinkPlaces(g: Geometry, m: seq<Octet>, last: nat, c: nat)
    requires Sized(g, m) && last < g.clusters && IsCluster(g, c)
    ensures g.EntryStart(last) + g.FatBytes() + 4 <= |m| && ClusterAddress(g, c) + g.ClusterSize() <= |m|
  {
    EntryInTable(g, last);
    AddressOfCluster(g, c);
    ClusterInDisk(g, c);
  }

  lemma WipedIs(g: Geometry, m: seq<Octet>, c: nat)
    requires Sized(g, m) && IsCluster(g, c)
    ensures ClusterAddress(g, c) + g.ClusterSize() <= |m| && |Zeroed(g.ClusterSize())| == g.ClusterSize()
    ensures g.ClusterStart(c) + 0 + g.ClusterSize() <= |m|
    ensures Wiped(g, m, c) == Spliced(m, g.ClusterStart(c) + 0, Zeroed(g.ClusterSize()))
  {
    AddressOfCluster(g, c);
    ClusterInDisk(g, c);
  }

  /** The reserved sectors are never touched. A write that adds no cluster and finds the end mark
      touches the chain's clusters only; one that does not close the chain keeps equal tables
      equal. */
  lemma TouchedMeans(g: Geometry, m0: seq<Octet>, m: seq<Octet>, n0: nat, ch: seq<nat>, cap: bool)
    requires Touched(g, m0, m, n0, ch, cap) && InDisk(g, ch)
    ensures |m| == |m0| && forall x: nat | x < 512 * g.rsvd && x < |m0| :: m[x] == m0[x]
    ensures |ch| <= n0 && !cap ==> forall x: nat | x < |m0| && (forall c | c in ch :: !InCluster(g, c, x)) :: m[x] == m0[x]
    ensures CopiesAgree(g, m0) && !cap ==> CopiesAgree(g, m)
  {
    AddressOfEndMark(g);
    hide ClusterAddress, Mirrored, CopyAgrees;
    forall x: nat | x < 512 * g.rsvd && x < |m0|
      ensures !Writable(g, n0, ch, cap, x)
    {
      ReservedKept(g, n0, ch, cap, x);
    }
    MirroredAll(g, m);
  }

  lemma ReservedKept(g: Geometry, n0: nat, ch: seq<nat>, cap: bool, x: nat)
    requires g.Valid() && x < 512 * g.rsvd
    ensures !Writable(g, n0, ch, cap, x)
  {
    AddressOfEndMark(g);
    Regions(g);
    hide ClusterAddress;
  }

  lemma MirroredAll(g: Geometry, m: seq<Octet>)
    requires Sized(g, m)
    ensures Mirrored(g, m, false) ==> CopiesAgree(g, m)
  {
    hide CopyAgrees;
  }
}
