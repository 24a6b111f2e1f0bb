/** A FAT32 disk as bytes: table entries, clusters, and the one-sector table cache. */
module FatDisk {
  import opened FatLayout

  // ----- Reading the bytes -----

  function Word32(a: Octet, b: Octet, c: Octet, d: Octet): (v: nat)
    ensures v < WORD
  {
    a + 0x100 * b + 0x1_0000 * c + 0x100_0000 * d
  }

  /** The four bytes of a word, least significant first. */
  function Bytes32(v: nat): (s: seq<Octet>)
    requires v < WORD
    ensures |s| == 4
  {
    [v % 0x100, v / 0x100 % 0x100, v / 0x100 / 0x100 % 0x100, v / 0x100 / 0x100 / 0x100]
  }

  lemma WordRoundTrip(v: nat)
    requires v < WORD
    ensures var s := Bytes32(v); Word32(s[0], s[1], s[2], s[3]) == v
  {
    var q, r := v / 0x100, v / 0x100 / 0x100;
    assert v == 0x100 * q + v % 0x100;
    assert q == 0x100 * r + q % 0x100;
    assert r == 0x100 * (r / 0x100) + r % 0x100;
  }

  function WordAt(m: seq<Octet>, at: nat): nat
    requires at + 4 <= |m|
  {
    Word32(m[at], m[at + 1], m[at + 2], m[at + 3])
  }

  /** The disk as 32-bit words. */
  function Words(m: seq<Octet>): (w: seq<nat>)
    ensures |w| == |m| / 4 && forall i: nat | i < |w| :: w[i] == WordAt(m, 4 * i)
  {
    seq(|m| / 4, i requires 0 <= i < |m| / 4 => WordAt(m, 4 * i))
  }

  /** Word i and the one `copy` words behind it set to v. */
  function BothSet(w: seq<nat>, i: nat, copy: nat, v: nat): seq<nat>
    requires i + copy < |w|
  {
    w[i := v][i + copy := v]
  }

  /** The bytes from `at` on are v, the least significant one first. */
  predicate LittleEndian(m: seq<Octet>, at: nat, v: nat) {
    && at + 4 <= |m|
    && m[at] == v % 0x100 && m[at + 1] == v / 0x100 % 0x100
    && m[at + 2] == v / 0x1_0000 % 0x100 && m[at + 3] == v / 0x100_0000
  }

  lemma WordBytes(m: seq<Octet>, at: nat)
    requires at + 4 <= |m|
    ensures LittleEndian(m, at, WordAt(m, at))
  {
    var a: nat, b: nat, c: nat, d: nat := m[at], m[at + 1], m[at + 2], m[at + 3];
    var v := WordAt(m, at);
    assert v == a + 0x100 * (b + 0x100 * (c + 0x100 * d));
    assert v / 0x100 == b + 0x100 * (c + 0x100 * d);
    assert v / 0x1_0000 == c + 0x100 * d;
  }

  ghost predicate Sized(g: Geometry, m: seq<Octet>) { g.Valid() && |m| == g.DiskBytes() }

  /** Entry c of the first table. */
  function Entry(g: Geometry, m: seq<Octet>, c: nat): nat
    requires Sized(g, m) && c < g.clusters
  {
    EntryInTable(g, c);
    WordAt(m, g.EntryStart(c))
  }

  /** The first table. */
  function Table(g: Geometry, m: seq<Octet>): (t: seq<nat>)
    requires Sized(g, m)
    ensures |t| == g.clusters && forall c: nat | c < g.clusters :: t[c] == Entry(g, m, c)
  {
    seq(g.clusters, c requires 0 <= c < g.clusters => Entry(g, m, c))
  }

  /** The bytes of cluster c. */
  function Cluster(g: Geometry, m: seq<Octet>, c: nat): (s: seq<Octet>)
    requires Sized(g, m) && IsCluster(g, c)
    ensures |s| == g.ClusterSize()
  {
    ClusterInDisk(g, c);
    m[g.ClusterStart(c)..g.ClusterStart(c) + g.ClusterSize()]
  }

  function Zeroed(n: nat): seq<Octet> { seq(n, _ => 0) }

  /** Bytes m with s written at `at`. */
  function Spliced<T>(m: seq<T>, at: nat, s: seq<T>): (r: seq<T>)
    requires at + |s| <= |m|
    ensures |r| == |m|
  {
    m[..at] + s + m[at + |s|..]
  }

  // ----- What a write changes -----

  /** Bytes written below the data area and clear of an entry leave that entry alone. */
  lemma EntryElsewhere(g: Geometry, m: seq<Octet>, at: nat, s: seq<Octet>, c: nat)
    requires Sized(g, m) && c < g.clusters && at + |s| <= |m|
    requires at + |s| <= g.EntryStart(c) || g.EntryStart(c) + 4 <= at
    ensures Entry(g, Spliced(m, at, s), c) == Entry(g, m, c)
  {
    EntryInTable(g, c);
  }

  lemma ClusterElsewhere(g: Geometry, m: seq<Octet>, at: nat, s: seq<Octet>, c: nat)
    requires Sized(g, m) && IsCluster(g, c) && at + |s| <= |m|
    requires at + |s| <= g.ClusterStart(c) || g.ClusterStart(c) + g.ClusterSize() <= at
    ensures Cluster(g, Spliced(m, at, s), c) == Cluster(g, m, c)
  {
    ClusterInDisk(g, c);
  }

  /** Both copies of entry c written: the first table changes there, no cluster does. */
  lemma AfterEntryWrite(g: Geometry, m: seq<Octet>, c: nat, v: nat)
    requires Sized(g, m) && c < g.clusters && v < WORD
    ensures g.EntryStart(c) + g.FatBytes() + 4 <= |m|
    ensures var m2 := Spliced(Spliced(m, g.EntryStart(c), Bytes32(v)), g.EntryStart(c) + g.FatBytes(), Bytes32(v));
            && Sized(g, m2) && Table(g, m2) == Table(g, m)[c := v]
            && (forall d: nat | IsCluster(g, d) :: Cluster(g, m2, d) == Cluster(g, m, d))
  {
    EntryInTable(g, c);
    var m1 := Spliced(m, g.EntryStart(c), Bytes32(v));
    var backup := g.EntryStart(c) + g.FatBytes();
    var m2 := Spliced(m1, backup, Bytes32(v));
    WordRoundTrip(v);
    EntryWritten(g, m, c, v);
    forall d: nat | d < g.clusters
      ensures Entry(g, m2, d) == if d == c then v else Entry(g, m, d)
    {
      EntryInTable(g, d);
      EntryElsewhere(g, m1, backup, Bytes32(v), d);
      if d != c {
        EntryElsewhere(g, m, g.EntryStart(c), Bytes32(v), d);
      }
    }
    forall d: nat | IsCluster(g, d)
      ensures Cluster(g, m2, d) == Cluster(g, m, d)
    {
      ClusterElsewhere(g, m, g.EntryStart(c), Bytes32(v), d);
      ClusterElsewhere(g, m1, backup, Bytes32(v), d);
    }
  }

  lemma EntryWritten(g: Geometry, m: seq<Octet>, c: nat, v: nat)
    requires Sized(g, m) && c < g.clusters && v < WORD
    ensures g.EntryStart(c) + 4 <= |m| && Entry(g, Spliced(m, g.EntryStart(c), Bytes32(v)), c) == v
  {
    EntryInTable(g, c);
    WordRoundTrip(v);
    var at, s := g.EntryStart(c), Bytes32(v);
    var m2 := Spliced(m, at, s);
    assert m2[at] == s[0] && m2[at + 1] == s[1] && m2[at + 2] == s[2] && m2[at + 3] == s[3];
  }

  lemma WordWritten(m: seq<Octet>, at: nat, v: nat)
    requires at + 4 <= |m| && v < WORD
    ensures WordAt(Spliced(m, at, Bytes32(v)), at) == v
  {
    WordRoundTrip(v);
    var s := Bytes32(v);
    var m2 := Spliced(m, at, s);
    assert m2[at] == s[0] && m2[at + 1] == s[1] && m2[at + 2] == s[2] && m2[at + 3] == s[3];
  }

  lemma SliceSpliced<T>(m: seq<T>, at: nat, n: nat, skip: nat, s: seq<T>)
    requires at + n <= |m| && skip + |s| <= n
    ensures Spliced(m, at + skip, s)[at..at + n] == Spliced(m[at..at + n], skip, s)
  {
    var m2 := Spliced(m, at + skip, s);
    assert m2[at..at + skip] == m[at..at + n][..skip];
    assert m2[at + skip..at + skip + |s|] == s;
    assert m2[at + skip + |s|..at + n] == m[at..at + n][skip + |s|..];
    assert m2[at..at + n] == m2[at..at + skip] + m2[at + skip..at + skip + |s|] + m2[at + skip + |s|..at + n];
  }

  /** Bytes written inside cluster c change only that cluster. */
  lemma AfterDataWrite(g: Geometry, m: seq<Octet>, c: nat, skip: nat, s: seq<Octet>)
    requires Sized(g, m) && IsCluster(g, c) && skip + |s| <= g.ClusterSize()
    ensures g.ClusterStart(c) + skip + |s| <= |m|
    ensures var m2 := Spliced(m, g.ClusterStart(c) + skip, s);
            && Sized(g, m2) && Table(g, m2) == Table(g, m)
            && Cluster(g, m2, c) == Spliced(Cluster(g, m, c), skip, s)
            && (forall d: nat | IsCluster(g, d) && d != c :: Cluster(g, m2, d) == Cluster(g, m, d))
  {
    ClusterInDisk(g, c);
    var at := g.ClusterStart(c) + skip;
    var m2 := Spliced(m, at, s);
    SliceSpliced(m, g.ClusterStart(c), g.ClusterSize(), skip, s);
    assert Cluster(g, m2, c) == Spliced(Cluster(g, m, c), skip, s);
    hide Spliced;
    forall d: nat | d < g.clusters
      ensures Entry(g, m2, d) == Entry(g, m, d)
    {
      EntryInTable(g, d);
      EntryElsewhere(g, m, at, s, d);
    }
    forall d: nat | IsCluster(g, d) && d != c
      ensures Cluster(g, m2, d) == Cluster(g, m, d)
    {
      ClustersApart(g, c, d);
      ClusterElsewhere(g, m, at, s, d);
    }
  }

  /** Bytes written inside the table copies behind the first change no entry and no cluster. */
  lemma AfterBackupWrite(g: Geometry, m: seq<Octet>, at: nat, s: seq<Octet>)
    requires Sized(g, m) && g.FatStart() + g.FatBytes() <= at && at + |s| <= g.DataStart() <= |m|
    ensures var m2 := Spliced(m, at, s);
            && Sized(g, m2) && Table(g, m2) == Table(g, m)
            && (forall d: nat | IsCluster(g, d) :: Cluster(g, m2, d) == Cluster(g, m, d))
  {
    var m2 := Spliced(m, at, s);
    forall d: nat | d < g.clusters
      ensures Entry(g, m2, d) == Entry(g, m, d)
    {
      EntryInTable(g, d);
      EntryElsewhere(g, m, at, s, d);
    }
    forall d: nat | IsCluster(g, d)
      ensures Cluster(g, m2, d) == Cluster(g, m, d)
    {
      ClusterElsewhere(g, m, at, s, d);
    }
  }

  /** The disk with both words of an entry set. */
  function Noted(g: Geometry, m: seq<Octet>, c: nat, v: nat): (r: seq<Octet>)
    requires v < WORD && g.EntryStart(c) + g.FatBytes() + 4 <= |m|
    ensures |r| == |m|
  {
    Spliced(Spliced(m, g.EntryStart(c), Bytes32(v)), g.EntryStart(c) + g.FatBytes(), Bytes32(v))
  }

  /** The disk with the bytes zeroed that the code takes for cluster c. */
  function Wiped(g: Geometry, m: seq<Octet>, c: nat): (r: seq<Octet>)
    requires c >= 2 && ClusterAddress(g, c) + g.ClusterSize() <= |m|
    ensures |r| == |m|
  {
    Spliced(m, ClusterAddress(g, c), Zeroed(g.ClusterSize()))
  }

  lemma NotedBytes(g: Geometry, m: seq<Octet>, c: nat, v: nat)
    requires v < WORD && g.EntryStart(c) + g.FatBytes() + 4 <= |m| && g.FatBytes() >= 4
    ensures Noted(g, m, c, v) == Spliced(Spliced(m, g.EntryStart(c), Bytes32(v)), g.EntryStart(c) + g.FatBytes(), Bytes32(v))
    ensures LittleEndian(Noted(g, m, c, v), 512 * g.rsvd + 4 * c, v)
    ensures LittleEndian(Noted(g, m, c, v), 512 * (g.rsvd + g.fatSize) + 4 * c, v)
  {
    var at, m1, r := g.EntryStart(c), Spliced(m, g.EntryStart(c), Bytes32(v)), Noted(g, m, c, v);
    var copy := at + g.FatBytes();
    assert at == 512 * g.rsvd + 4 * c && copy == 512 * (g.rsvd + g.fatSize) + 4 * c;
    WordWritten(m, at, v);
    WordWritten(m1, copy, v);
    WordElsewhere(m1, copy, Bytes32(v), at);
    WordBytes(r, at);
    WordBytes(r, copy);
  }

  // ----- Numbers past the last cluster -----

  /** The word that the search reads for number c does not look free. */
  predicate Taken(g: Geometry, m: seq<Octet>, c: nat) {
    g.EntryStart(c) + 4 <= |m| && WordAt(m, g.EntryStart(c)) != 0
  }

  predicate SealedAt(g: Geometry, m: seq<Octet>, c: nat) {
    g.EntryStart(c) + 4 <= g.DataStart() && Taken(g, m, c)
  }

  /** No number past the last cluster looks free. */
  ghost predicate Sealed(g: Geometry, m: seq<Octet>) {
    forall c: nat | g.clusters <= c < g.clusters + g.Past() :: SealedAt(g, m, c)
  }

  lemma WordElsewhere(m: seq<Octet>, at: nat, s: seq<Octet>, x: nat)
    requires at + |s| <= |m| && x + 4 <= |m| && (at + |s| <= x || x + 4 <= at)
    ensures WordAt(Spliced(m, at, s), x) == WordAt(m, x)
  {
  }

  /** The word of entry 0, and the distance of its copy. */
  function FirstWord(g: Geometry): nat { 128 * g.rsvd }

  function CopyWords(g: Geometry): nat { 128 * g.fatSize }

  lemma WordsWritten(m: seq<Octet>, i: nat, v: nat)
    requires 4 * i + 4 <= |m| && v < WORD
    ensures Words(Spliced(m, 4 * i, Bytes32(v))) == Words(m)[i := v]
  {
    WordWritten(m, 4 * i, v);
    var m2 := Spliced(m, 4 * i, Bytes32(v));
    forall j: nat | j < |m| / 4
      ensures Words(m2)[j] == Words(m)[i := v][j]
    {
      if j != i {
        WordElsewhere(m, 4 * i, Bytes32(v), 4 * j);
      }
    }
  }

  /** Writing entry c and its copy, seen in the words. */
  lemma WordsAfterEntry(g: Geometry, m: seq<Octet>, c: nat, v: nat)
    requires g.EntryStart(c) + g.FatBytes() + 4 <= |m| && v < WORD
    ensures FirstWord(g) + c + CopyWords(g) < |Words(m)|
    ensures var m1 := Spliced(m, g.EntryStart(c), Bytes32(v));
            Words(Spliced(m1, g.EntryStart(c) + g.FatBytes(), Bytes32(v))) == BothSet(Words(m), FirstWord(g) + c, CopyWords(g), v)
  {
    var i := FirstWord(g) + c;
    assert g.EntryStart(c) == 4 * i && g.EntryStart(c) + g.FatBytes() == 4 * (i + CopyWords(g));
    hide Words, Spliced;
    WordsWritten(m, i, v);
    WordsWritten(Spliced(m, 4 * i, Bytes32(v)), i + CopyWords(g), v);
    assert |Words(m)| == |m| / 4;
  }

  /** Writing a non-zero entry keeps the numbers past the last cluster taken, even where the
      second table holds their words. */
  lemma SealedAfterEntry(g: Geometry, m: seq<Octet>, c: nat, v: nat)
    requires Sized(g, m) && Sealed(g, m) && c < g.clusters && 0 < v < WORD
    ensures g.EntryStart(c) + g.FatBytes() + 4 <= |m|
    ensures Sealed(g, Spliced(Spliced(m, g.EntryStart(c), Bytes32(v)), g.EntryStart(c) + g.FatBytes(), Bytes32(v)))
  {
    EntryInTable(g, c);
    var s, backup := Bytes32(v), g.EntryStart(c) + g.FatBytes();
    var m1 := Spliced(m, g.EntryStart(c), s);
    var m2 := Spliced(m1, backup, s);
    forall d: nat | g.clusters <= d < g.clusters + g.Past()
      ensures SealedAt(g, m2, d)
    {
      assert SealedAt(g, m, d);
      WordElsewhere(m, g.EntryStart(c), s, g.EntryStart(d));
      if d == c + 128 * g.fatSize {
        WordWritten(m1, backup, v);
      } else {
        WordElsewhere(m1, backup, s, g.EntryStart(d));
      }
    }
  }

  /** Writing into a cluster does too. */
  lemma SealedAfterData(g: Geometry, m: seq<Octet>, at: nat, s: seq<Octet>)
    requires Sized(g, m) && Sealed(g, m) && g.DataStart() <= at && at + |s| <= |m|
    ensures Sealed(g, Spliced(m, at, s))
  {
    forall d: nat | g.clusters <= d < g.clusters + g.Past()
      ensures SealedAt(g, Spliced(m, at, s), d)
    {
      assert SealedAt(g, m, d);
      WordElsewhere(m, at, s, g.EntryStart(d));
    }
  }

  // ----- The two tables -----

  /** Entry c in the second table. */
  function CopyStart(g: Geometry, c: nat): nat { g.EntryStart(c) + g.FatBytes() }

  ghost predicate CopyAgrees(g: Geometry, m: seq<Octet>, c: nat)
    requires Sized(g, m) && c < g.clusters
  {
    CopyStart(g, c) + 4 <= |m| && WordAt(m, CopyStart(g, c)) == Entry(g, m, c)
  }

  ghost predicate CopiesAgree(g: Geometry, m: seq<Octet>)
    requires Sized(g, m)
  {
    forall c: nat | c < g.clusters :: CopyAgrees(g, m, c)
  }

  /** The copy of entry c lies in the bytes that clearing the end mark zeroes. */
  predicate Capped(g: Geometry, c: nat) {
    ClusterAddress(g, END_MARK) <= CopyStart(g, c) < ClusterAddress(g, END_MARK) + g.ClusterSize()
  }

  /** When the first two tables agree, clearing the end mark leaves them agreeing exactly when every
      entry whose copy it zeroes is free. */
  lemma CappingCopies(g: Geometry, m: seq<Octet>)
    requires Sized(g, m) && CopiesAgree(g, m)
    ensures ClusterAddress(g, END_MARK) + g.ClusterSize() <= |m|
    ensures var m2 := Spliced(m, ClusterAddress(g, END_MARK), Zeroed(g.ClusterSize()));
            && Sized(g, m2)
            && (CopiesAgree(g, m2) <==> forall c: nat | c < g.clusters && Capped(g, c) :: Entry(g, m, c) == 0)
  {
    AddressOfEndMark(g);
    EntryInTable(g, 0);
    var at, zeros := ClusterAddress(g, END_MARK), Zeroed(g.ClusterSize());
    var m2 := Spliced(m, at, zeros);
    AfterBackupWrite(g, m, at, zeros);
    forall c: nat | c < g.clusters
      ensures CopyAgrees(g, m2, c) <==> !Capped(g, c) || Entry(g, m, c) == 0
    {
      assert CopyAgrees(g, m, c);
      assert Table(g, m2)[c] == Table(g, m)[c];
      CappedCopy(g, m, c);
    }
  }

  /** Both in words. */
  lemma CappedInWords(g: Geometry, c: nat) returns (at: nat, x: nat, n: nat)
    requires g.Valid() && c < g.clusters
    ensures ClusterAddress(g, END_MARK) == 4 * at && CopyStart(g, c) == 4 * x && g.ClusterSize() == 4 * n
  {
    AddressOfEndMark(g);
    hide ClusterAddress;
    var data := g.rsvd + g.fats * g.fatSize;
    assert g.DataStart() == data * SECTOR;
    at, x, n := 128 * data - 384 * g.secPerClus, 128 * (g.rsvd + g.fatSize) + c, 128 * g.secPerClus;
  }

  lemma WordInRange(at: nat, x: nat, n: nat)
    ensures if 4 * at <= 4 * x < 4 * at + 4 * n then 4 * x + 4 <= 4 * at + 4 * n
            else 4 * x + 4 <= 4 * at || 4 * at + 4 * n <= 4 * x
  {
  }

  /** The copy of an entry and the zeroed range are aligned to each other. */
  lemma CappedWhole(g: Geometry, c: nat)
    requires g.Valid() && c < g.clusters
    ensures var at, x := ClusterAddress(g, END_MARK), CopyStart(g, c);
            if Capped(g, c) then at <= x && x + 4 <= at + g.ClusterSize() else x + 4 <= at || at + g.ClusterSize() <= x
  {
    hide ClusterAddress, CopyStart;
    var at, x, n := CappedInWords(g, c);
    WordInRange(at, x, n);
  }

  lemma WordZeroed(m: seq<Octet>, at: nat, n: nat, x: nat)
    requires at + n <= |m| && at <= x && x + 4 <= at + n
    ensures WordAt(Spliced(m, at, Zeroed(n)), x) == 0
  {
    var m2 := Spliced(m, at, Zeroed(n));
    assert m2[x] == 0 && m2[x + 1] == 0 && m2[x + 2] == 0 && m2[x + 3] == 0;
  }

  /** What clearing the end mark does to one copy. */
  lemma CappedCopy(g: Geometry, m: seq<Octet>, c: nat)
    requires Sized(g, m) && c < g.clusters && ClusterAddress(g, END_MARK) + g.ClusterSize() <= |m|
    ensures CopyStart(g, c) + 4 <= |m|
    ensures var m2 := Spliced(m, ClusterAddress(g, END_MARK), Zeroed(g.ClusterSize()));
            WordAt(m2, CopyStart(g, c)) == if Capped(g, c) then 0 else WordAt(m, CopyStart(g, c))
  {
    EntryInTable(g, c);
    CappedWhole(g, c);
    hide ClusterAddress, WordAt, Spliced;
    if Capped(g, c) {
      WordZeroed(m, ClusterAddress(g, END_MARK), g.ClusterSize(), CopyStart(g, c));
    } else {
      WordElsewhere(m, ClusterAddress(g, END_MARK), Zeroed(g.ClusterSize()), CopyStart(g, c));
    }
  }

  lemma ClearedFacts(g: Geometry, m: seq<Octet>, c: nat)
    requires Sized(g, m) && (IsCluster(g, c) || c == END_MARK)
    ensures c >= 2 && ClusterAddress(g, c) + g.ClusterSize() <= |m| && |Zeroed(g.ClusterSize())| == g.ClusterSize()
    ensures var m2 := Spliced(m, ClusterAddress(g, c), Zeroed(g.ClusterSize()));
            && m2 == Wiped(g, m, c) && Sized(g, m2) && Table(g, m2) == Table(g, m)
            && (forall d: nat | IsCluster(g, d) :: Cluster(g, m2, d) == if d == c then Zeroed(g.ClusterSize()) else Cluster(g, m, d))
            && (IsCluster(g, c) && Sealed(g, m) ==> Sealed(g, m2))
  {
    var at, zeros := ClusterAddress(g, c), Zeroed(g.ClusterSize());
    if IsCluster(g, c) {
      AddressOfCluster(g, c);
      AfterDataWrite(g, m, c, 0, zeros);
      WholeSpliced(Cluster(g, m, c), zeros);
      if Sealed(g, m) {
        SealedAfterData(g, m, at, zeros);
      }
    } else {
      AddressOfEndMark(g);
      EntryInTable(g, 0);
      AfterBackupWrite(g, m, at, zeros);
    }
    hide ClusterAddress, Spliced, Table, Cluster, Sealed;
  }

  lemma WholeSpliced(s: seq<Octet>, d: seq<Octet>)
    requires |d| == |s|
    ensures Spliced(s, 0, d) == d
  {
  }

  // ----- The disk -----

  class Disk {
    const g: Geometry
    var bytes: seq<Octet>
    var cache: seq<Octet>       // one sector of the first table
    var cacheSector: int        // -1: none

    ghost predicate Valid()
      reads `bytes
    {
      Sized(g, bytes)
    }

    lemma ValidFacts()
      requires Valid()
      ensures Sized(g, bytes) && g.Valid() && |bytes| == g.DiskBytes() && g.FatBytes() >= 4 && |Table(g, bytes)| == g.clusters
    {
    }

    lemma MakeValid()
      requires Sized(g, bytes)
      ensures Valid()
    {
    }

    /** The cached sector, if any, is what the disk holds. */
    ghost predicate Coherent()
      requires Valid()
      reads this
    {
      cacheSector >= 0 ==>
        && |cache| == SECTOR && (cacheSector + 1) * SECTOR <= |bytes|
        && cache == bytes[cacheSector * SECTOR..(cacheSector + 1) * SECTOR]
    }

    method InvalidateCache()
      requires Valid()
      modifies `cacheSector
      ensures Valid() && Coherent()
    {
      cacheSector := -1;
    }

    /** Makes the cache hold a sector of the first table. */
    method Fetch(sector: nat)
      requires Valid() && Coherent() && (sector + 1) * SECTOR <= |bytes|
      modifies `cache, `cacheSector
      ensures Valid() && Coherent() && cacheSector == sector
      ensures cache == bytes[sector * SECTOR..(sector + 1) * SECTOR]
    {
      hide Sized;
      if sector != cacheSector {
        cache := bytes[sector * SECTOR..(sector + 1) * SECTOR];
        cacheSector := sector;
      }
    }

    /** Where an entry's word lies, in the disk and in its sector. */
    lemma EntryPlace(c: nat)
      requires Valid() && (c < g.clusters || g.EntryStart(c) + 4 <= g.DiskBytes())
      ensures var at := g.EntryStart(c);
              && at == 512 * g.rsvd + 4 * c && SECTOR > 0 && at % SECTOR + 4 <= SECTOR && (at / SECTOR + 1) * SECTOR <= |bytes| && at + 4 <= |bytes|
              && (c < g.clusters ==> Sized(g, bytes) && WordAt(bytes, at) == Entry(g, bytes, c))
    {
      if c < g.clusters {
        EntryInTable(g, c);
      }
      EntryInSector(g, c);
    }

    /** Reads a word through the cache. */
    method ReadCached(at: nat) returns (v: nat)
      requires Valid() && Coherent() && at % SECTOR + 4 <= SECTOR && (at / SECTOR + 1) * SECTOR <= |bytes|
      modifies `cache, `cacheSector
      ensures Valid() && Coherent() && cacheSector == at / SECTOR
      ensures at + 4 <= |bytes| && v == WordAt(bytes, at)
    {
      hide Sized, WordAt, Valid, Coherent;
      CachedWord(bytes, at);
      Fetch(at / SECTOR);
      v := WordAt(cache, at % SECTOR);
    }

    /** A cached read returns what the uncached read would, provided the cache is coherent. */
    method ReadEntry(c: nat, cached: bool) returns (v: nat)
      requires Valid() && (c < g.clusters || g.EntryStart(c) + 4 <= g.DiskBytes()) && (cached ==> Coherent())
      modifies `cache, `cacheSector
      ensures Valid() && g.EntryStart(c) + 4 <= |bytes| && v == WordAt(bytes, g.EntryStart(c))
      ensures c < g.clusters ==> v == Entry(g, bytes, c)
      ensures cached ==> Coherent() && cacheSector == g.EntryStart(c) / SECTOR
      ensures !cached ==> cache == old(cache) && cacheSector == old(cacheSector)
      ensures LittleEndian(bytes, 512 * g.rsvd + 4 * c, v)
    {
      hide *;
      var at := g.EntryStart(c);
      EntryPlace(c);
      WordBytes(bytes, at);
      if cached {
        v := ReadCached(at);
      } else {
        v := WordAt(bytes, at);
      }
    }

    /** Writes an entry of the first table, and the same entry of the second. */
    method WriteEntry(c: nat, v: nat)
      requires Valid() && v < WORD && (c < g.clusters || g.EntryStart(c) + g.FatBytes() + 4 <= g.DiskBytes())
      modifies `bytes
      ensures Valid() && FirstWord(g) + c + CopyWords(g) < |Words(old(bytes))|
      ensures Words(bytes) == BothSet(Words(old(bytes)), FirstWord(g) + c, CopyWords(g), v)
      ensures c < g.clusters ==>
                && Table(g, bytes) == Table(g, old(bytes))[c := v]
                && (forall d: nat | IsCluster(g, d) :: Cluster(g, bytes, d) == Cluster(g, old(bytes), d))
                && (v != 0 && Sealed(g, old(bytes)) ==> Sealed(g, bytes))
      ensures g.EntryStart(c) + g.FatBytes() + 4 <= |old(bytes)| && bytes == Noted(g, old(bytes), c, v)
      ensures LittleEndian(bytes, 512 * g.rsvd + 4 * c, v) && LittleEndian(bytes, 512 * (g.rsvd + g.fatSize) + 4 * c, v)
    {
      hide *;
      ValidFacts();
      CopyPlace(c);
      NotedBytes(g, bytes, c, v);
      WordsAfterEntry(g, bytes, c, v);
      if c < g.clusters {
        AfterEntryWrite(g, bytes, c, v);
        if v != 0 && Sealed(g, bytes) {
          SealedAfterEntry(g, bytes, c, v);
        }
      }
      bytes := Spliced(bytes, g.EntryStart(c), Bytes32(v));
      bytes := Spliced(bytes, g.EntryStart(c) + g.FatBytes(), Bytes32(v));
      MakeSized();
    }

    lemma CopyPlace(c: nat)
      requires Valid() && (c < g.clusters || g.EntryStart(c) + g.FatBytes() + 4 <= g.DiskBytes())
      ensures g.EntryStart(c) + g.FatBytes() + 4 <= |bytes|
    {
      if c < g.clusters {
        EntryInTable(g, c);
      }
    }

    lemma MakeSized()
      requires g.Valid() && |bytes| == g.DiskBytes()
      ensures Valid()
    {
    }

    /** Clearing a cluster zeroes it; clearing the end mark zeroes bytes that are neither in the
        first table nor in a cluster. */
    method ClearCluster(c: nat)
      requires Valid() && (IsCluster(g, c) || c == END_MARK)
      modifies `bytes
      ensures Valid() && Table(g, bytes) == Table(g, old(bytes))
      ensures forall d: nat | IsCluster(g, d) ::
                Cluster(g, bytes, d) == if d == c then Zeroed(g.ClusterSize()) else Cluster(g, old(bytes), d)
      ensures ClusterAddress(g, c) + g.ClusterSize() <= |old(bytes)|
      ensures bytes == Wiped(g, old(bytes), c)
      ensures IsCluster(g, c) && Sealed(g, old(bytes)) ==> Sealed(g, bytes)
    {
      hide *;
      ValidFacts();
      ClearedFacts(g, bytes, c);
      bytes := Spliced(bytes, ClusterAddress(g, c), Zeroed(g.ClusterSize()));
      MakeSized();
    }

    /** read_func inside a cluster. */
    method ReadData(c: nat, skip: nat, n: nat) returns (s: seq<Octet>)
      requires Valid() && IsCluster(g, c) && skip + n <= g.ClusterSize()
      ensures s == Cluster(g, bytes, c)[skip..skip + n]
    {
      AddressOfCluster(g, c);
      ClusterInDisk(g, c);
      var at := ClusterAddress(g, c) + skip;
      s := bytes[at..at + n];
      assert s == bytes[at - skip..at - skip + g.ClusterSize()][skip..skip + n];
    }

    /** write_func inside a cluster. */
    method WriteData(c: nat, skip: nat, s: seq<Octet>)
      requires Valid() && IsCluster(g, c) && skip + |s| <= g.ClusterSize()
      modifies `bytes
      ensures Valid() && Table(g, bytes) == Table(g, old(bytes))
      ensures Cluster(g, bytes, c) == Spliced(Cluster(g, old(bytes), c), skip, s)
      ensures forall d: nat | IsCluster(g, d) && d != c :: Cluster(g, bytes, d) == Cluster(g, old(bytes), d)
      ensures Sealed(g, old(bytes)) ==> Sealed(g, bytes)
      ensures g.ClusterStart(c) + skip + |s| <= |old(bytes)| && bytes == Spliced(old(bytes), g.ClusterStart(c) + skip, s)
    {
      AddressOfCluster(g, c);
      if Sealed(g, bytes) {
        ClusterInDisk(g, c);
        SealedAfterData(g, bytes, ClusterAddress(g, c) + skip, s);
      }
      AfterDataWrite(g, bytes, c, skip, s);
      bytes := Spliced(bytes, ClusterAddress(g, c) + skip, s);
    }
  }

  /** An entry lies within one sector of the disk. */
  lemma EntryInSector(g: Geometry, c: nat)
    requires g.Valid() && (c < g.clusters || g.EntryStart(c) + 4 <= g.DiskBytes())
    ensures g.EntryStart(c) % SECTOR + 4 <= SECTOR
    ensures (g.EntryStart(c) / SECTOR + 1) * SECTOR <= g.DiskBytes()
  {
    if c < g.clusters {
      EntryInTable(g, c);
    }
    AlignedInSector(g.rsvd * 128 + c, g.totSec);
  }

  lemma AlignedInSector(words: nat, sectors: nat)
    requires 4 * words + 4 <= sectors * SECTOR
    ensures 4 * words % SECTOR + 4 <= SECTOR && (4 * words / SECTOR + 1) * SECTOR <= sectors * SECTOR
  {
    var q, r := words / 128, words % 128;
    assert 4 * words == SECTOR * q + 4 * r;
    assert 4 * words / SECTOR == q && 4 * words % SECTOR == 4 * r;
  }

  /** A word read from a copy of its sector. */
  lemma CachedWord(m: seq<Octet>, at: nat)
    requires at % SECTOR + 4 <= SECTOR && (at / SECTOR + 1) * SECTOR <= |m|
    ensures at + 4 <= |m| && WordAt(m[at / SECTOR * SECTOR..(at / SECTOR + 1) * SECTOR], at % SECTOR) == WordAt(m, at)
  {
    var base := at / SECTOR * SECTOR;
    assert at == base + at % SECTOR;
    var s := m[base..base + SECTOR];
    var r := at % SECTOR;
    assert s[r] == m[at] && s[r + 1] == m[at + 1] && s[r + 2] == m[at + 2] && s[r + 3] == m[at + 3];
  }
}
