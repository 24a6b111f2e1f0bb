/** A disk with several open files: each operation on one of them leaves the others as they were
    and the table sound. */
module FatVolume {
  import opened FatLayout
  import opened FatDisk
  import opened FatChain
  import opened FatGrow
  import opened FatTables
  import opened FatWalk
  import opened FatFile

  // ----- One file while the disk changes -----

  /** The file is open when the disk holds these bytes. */
  ghost predicate Was(f: File, g: Geometry, m: seq<Octet>)
    reads f`firstLow, f`fileSize, f`cursor, f`chain
  {
    && Sized(g, m) && IsChain(Table(g, m), f.chain) && f.chain[0] == f.firstLow
    && Covers(|f.chain|, g.ClusterSize(), f.fileSize)
  }

  /** What it holds then. */
  ghost function Held(f: File, g: Geometry, m: seq<Octet>): seq<Octet>
    requires Was(f, g, m)
    reads f`firstLow, f`fileSize, f`cursor, f`chain
  {
    ChainClusters(g, m, f.chain);
    Flat(g, m, f.chain)[..f.fileSize]
  }

  /** The file shares no cluster with a chain. */
  ghost predicate Away(f: File, ch: seq<nat>)
    reads f`chain
  {
    forall c | c in f.chain :: c !in ch
  }

  /** The bytes of an open file. */
  ghost function Bytes(f: File): seq<Octet>
    reads f`firstLow, f`fileSize, f`cursor, f`chain, f.disk`bytes
  {
    if f.Open() then f.Contents() else []
  }

  /** They, drawn out to the cursor. */
  ghost function Reached(f: File): seq<Octet>
    reads f`firstLow, f`fileSize, f`cursor, f`chain, f.disk`bytes
  {
    if f.Open() then f.Reach() else []
  }

  /** r is s with d put at `at`. */
  predicate Rewritten(s: seq<Octet>, at: nat, d: seq<Octet>, r: seq<Octet>) {
    at <= |s| && r == Overwritten(s, at, d)
  }

  lemma RewrittenBy(s: seq<Octet>, at: nat, d: seq<Octet>, r: seq<Octet>)
    requires at <= |s| && r == Overwritten(s, at, d)
    ensures Rewritten(s, at, d, r)
  {
  }

  lemma ReachedIs(f: File)
    requires f.Open()
    ensures Reached(f) == f.Reach() && |Bytes(f)| == f.fileSize && f.cursor <= |Reached(f)|
    ensures f.cursor <= f.fileSize ==> Reached(f) == Bytes(f)
  {
  }

  ghost predicate HasRoom(f: File, n: nat)
    reads f`firstLow, f`fileSize, f`cursor, f`chain, f.disk`bytes
  {
    f.Open() && f.Enough(n)
  }

  lemma HasRoomIs(f: File, n: nat)
    requires f.Open()
    ensures HasRoom(f, n) <==> f.Enough(n)
  {
  }

  lemma OpenIsWas(f: File)
    ensures f.Open() <==> Was(f, f.disk.g, f.disk.bytes)
    ensures f.Open() ==> Bytes(f) == f.Contents() == Held(f, f.disk.g, f.disk.bytes)
  {
  }

  /** A file whose entries and clusters are as before is as before. */
  lemma Stays(f: File, g: Geometry, m0: seq<Octet>, m: seq<Octet>)
    requires Was(f, g, m0) && Sized(g, m)
    requires forall c | c in f.chain :: c < g.clusters && Table(g, m)[c] == Table(g, m0)[c]
    requires forall c | c in f.chain && IsCluster(g, c) :: Cluster(g, m, c) == Cluster(g, m0, c)
    ensures Was(f, g, m) && Held(f, g, m) == Held(f, g, m0)
  {
    hide Table, Cluster, Flat, IsChain, Covers;
    ChainClusters(g, m0, f.chain) by { ChainLinks(Table(g, m0), f.chain); }
    ChainKept(Table(g, m0), Table(g, m), f.chain);
    FlatSame(g, m0, m, f.chain);
  }

  lemma ChainLinks(t: seq<nat>, ch: seq<nat>)
    requires IsChain(t, ch)
    ensures Links(t, ch)
  {
  }

  lemma StaysAfterWrite(f: File, g: Geometry, m0: seq<Octet>, m: seq<Octet>, ch0: seq<nat>, ch: seq<nat>)
    requires Was(f, g, m0) && Away(f, ch0) && Sized(g, m) && Apart(g, m0, m, ch0, ch)
    ensures Was(f, g, m) && Held(f, g, m) == Held(f, g, m0)
  {
    hide Table, Cluster, IsChain;
    forall c | c in f.chain
      ensures c !in ch && c < g.clusters
    {
      ChainedInUse(Table(g, m0), f.chain, c);
    }
    Stays(f, g, m0, m);
  }

  /** The table changed outside the file's chain only, and no cluster of it did. */
  lemma StaysAfterTable(f: File, g: Geometry, m0: seq<Octet>, m: seq<Octet>, ch: seq<nat>)
    requires Was(f, g, m0) && Away(f, ch) && Sized(g, m)
    requires forall c: nat | c < g.clusters && c !in ch :: Table(g, m)[c] == Table(g, m0)[c]
    requires forall c: nat | IsCluster(g, c) && c !in ch :: Cluster(g, m, c) == Cluster(g, m0, c)
    ensures Was(f, g, m) && Held(f, g, m) == Held(f, g, m0)
  {
    hide Table, Cluster, IsChain;
    forall c | c in f.chain
      ensures c < g.clusters
    {
      ChainedInUse(Table(g, m0), f.chain, c);
    }
    Stays(f, g, m0, m);
  }

  lemma FreeIsAway(f: File, g: Geometry, m: seq<Octet>, c: nat)
    requires Was(f, g, m) && c < g.clusters && Table(g, m)[c] == 0
    ensures Away(f, [c])
  {
    if c in f.chain {
      ChainedInUse(Table(g, m), f.chain, c);
    }
  }

  // ----- The chains -----

  ghost function ChainsOf(files: set<File>): set<seq<nat>>
    reads files
  {
    set f | f in files :: f.chain
  }

  lemma OneChainMore(files: set<File>, f: File)
    ensures ChainsOf(files + {f}) == ChainsOf(files) + {f.chain}
  {
  }

  /** A chain that starts where another one does is none of the rest. */
  lemma SameStart(s: State, ch: seq<nat>, other: seq<nat>)
    requires Sound(s) && ch in s.chains && other != [] && ch != [] && other[0] == ch[0]
    ensures other !in s.chains - {ch}
  {
    if other in s.chains {
      assert ch[0] in ch && ch[0] in other;
    }
  }

  lemma FreeStart(s: State, c: nat)
    requires Sound(s) && c < |s.t| && s.t[c] == 0
    ensures [c] !in s.chains
  {
    if [c] in s.chains {
      ChainedInUse(s.t, [c], c);
    }
  }

  /** The step that an extension is, and what it keeps. */
  lemma ExtendStep(a: State, b: State, ch: seq<nat>, longer: seq<nat>)
    requires Sound(a) && ch in a.chains && ch != [] && Extended(a.t, b.t, ch, longer)
    requires b.chains == a.chains - {ch} + {longer}
    ensures Step(a, b) && Sound(b) && longer !in a.chains - {ch}
  {
    StepKeeps(a, b);
    assert longer[0] == ch[0];
    SameStart(a, ch, longer);
  }

  lemma TruncateStep(a: State, b: State, ch: seq<nat>, start: seq<nat>)
    requires Sound(a) && ch in a.chains && ch != [] && Truncated(a.t, b.t, ch) && start == [ch[0]]
    requires b.chains == a.chains - {ch} + {start}
    ensures Step(a, b) && Sound(b) && start !in a.chains - {ch}
    ensures forall c: nat | c < |a.t| && c !in ch :: c < |b.t| && b.t[c] == a.t[c]
  {
    hide *;
    TruncatedKeeps(a.t, b.t, ch);
    IsTruncateStep(a, b, ch);
    StepKeeps(a, b);
    SameStart(a, ch, start);
  }

  lemma IsTruncateStep(a: State, b: State, ch: seq<nat>)
    requires ch in a.chains && ch != [] && Truncated(a.t, b.t, ch) && b.chains == a.chains - {ch} + {[ch[0]]}
    ensures Step(a, b)
  {
    assert [ch[0]] == Start(ch);
  }

  lemma TruncatedKeeps(t: seq<nat>, u: seq<nat>, ch: seq<nat>)
    requires ch != [] && Truncated(t, u, ch)
    ensures forall c: nat | c < |t| && c !in ch :: c < |u| && u[c] == t[c]
  {
    assert ch[0] in ch;
  }

  lemma RemoveStep(a: State, b: State, ch: seq<nat>)
    requires Sound(a) && ch in a.chains && Removed(a.t, b.t, ch) && b.chains == a.chains - {ch}
    ensures Step(a, b) && Sound(b)
    ensures forall c: nat | c < |a.t| && c !in ch :: c < |b.t| && b.t[c] == a.t[c]
  {
    StepKeeps(a, b);
  }

  lemma CreateStep(a: State, b: State, c: nat)
    requires Sound(a) && Created(a.t, b.t, c) && b.chains == a.chains + {[c]}
    ensures Step(a, b) && Sound(b) && [c] !in a.chains && c < |a.t| && a.t[c] == 0
    ensures forall d: nat | d < |a.t| && d !in [c] :: d < |b.t| && b.t[d] == a.t[d]
  {
    StepKeeps(a, b);
    FreeStart(a, c);
  }

  /** In a sound table files with different chains share no cluster. */
  lemma AwayFrom(s: State, f: File, h: File)
    requires Sound(s) && f.chain in s.chains && h.chain in s.chains && f.chain != h.chain
    ensures Away(h, f.chain)
  {
  }

  class Volume {
    const disk: Disk
    ghost var files: set<File>          // the open files
    ghost var others: set<seq<nat>>     // the chains of everything else

    constructor (disk: Disk, ghost others: set<seq<nat>>)
      requires disk.Valid() && Sound(State(Table(disk.g, disk.bytes), others))
      ensures this.disk == disk && files == {} && this.others == others && Good()
    {
      this.disk, this.others := disk, others;
      files := {};
      new;
      assert Chains() == others;
    }

    /** The chains of all open files but f, and of everything else. */
    ghost function Rest(f: File): set<seq<nat>>
      reads this, files - {f}
    {
      ChainsOf(files - {f}) + others
    }

    ghost function Chains(): set<seq<nat>>
      reads this, files
    {
      ChainsOf(files) + others
    }

    /** The table and all chains in it. */
    ghost function TableState(): State
      reads this, files, disk`bytes
    {
      if disk.Valid() then State(Table(disk.g, disk.bytes), Chains()) else State([], {})
    }

    lemma StateIs()
      requires disk.Valid()
      ensures Sized(disk.g, disk.bytes) && TableState() == State(Table(disk.g, disk.bytes), ChainsOf(files) + others)
      ensures |Table(disk.g, disk.bytes)| == disk.g.clusters
    {
    }

    ghost predicate AllOpen()
      reads this, files, disk`bytes
    {
      forall f | f in files :: f.disk == disk && f.Open()
    }

    /** No chain is named twice. */
    ghost predicate Named()
      reads this, files
    {
      && (forall f | f in files :: f.chain !in others)
      && (forall f, h | f in files && h in files && f.chain == h.chain :: f == h)
    }

    ghost predicate Good()
      reads this, files, disk`bytes
    {
      disk.Valid() && AllOpen() && Named() && Sound(TableState())
    }

    lemma RestOf(f: File)
      requires f in files
      ensures ChainsOf(files) + others == Chains() == Rest(f) + {f.chain}
      ensures Rest(f) == ChainsOf(files - {f}) + others
      ensures Named() ==> f.chain !in Rest(f)
    {
    }

    lemma NamedBy(f: File)
      requires f in files && f.chain !in Rest(f)
      requires forall a, b | a in files && b in files && a != f && b != f && a.chain == b.chain :: a == b
      requires forall a | a in files && a != f :: a.chain !in others
      ensures Named()
    {
    }

    /** What the other files are before an operation on f. */
    lemma FilesBefore(f: File)
      requires Good() && f in files
      ensures Sized(disk.g, disk.bytes) && f.disk == disk && f.Open() && f.chain != []
      ensures IsChain(Table(disk.g, disk.bytes), f.chain)
      ensures Sound(TableState()) && TableState() == State(Table(disk.g, disk.bytes), Chains()) && f.chain !in Rest(f)
      ensures |Table(disk.g, disk.bytes)| == disk.g.clusters
      ensures forall a, b | a in files && b in files && a != f && b != f && a.chain == b.chain :: a == b
      ensures forall a | a in files && a != f :: a.chain !in others
      ensures forall h | h in files && h != f ::
                && h.disk == disk && Was(h, disk.g, disk.bytes) && Away(h, f.chain)
                && h.Open() && Bytes(h) == Held(h, disk.g, disk.bytes)
    {
      hide *;
      AllBefore();
      RestOf(f);
      OpenIsWas(f);
      f.OpenChain();
      NotInRest(f);
      forall h | h in files && h != f
        ensures Away(h, f.chain)
      {
        AwayFrom(TableState(), f, h);
      }
    }

    lemma NotInRest(f: File)
      requires f in files && f.chain !in others
      requires forall a, b | a in files && b in files && a.chain == b.chain :: a == b
      ensures f.chain !in Rest(f)
    {
    }

    /** The same for all of them. */
    lemma AllBefore()
      requires Good()
      ensures disk.Valid() && Sized(disk.g, disk.bytes) && Sound(TableState())
      ensures TableState() == State(Table(disk.g, disk.bytes), ChainsOf(files) + others)
      ensures |Table(disk.g, disk.bytes)| == disk.g.clusters
      ensures forall a, b | a in files && b in files && a.chain == b.chain :: a == b
      ensures forall a | a in files :: a.chain !in others && a.chain in ChainsOf(files)
      ensures forall h | h in files ::
                && h.disk == disk && Was(h, disk.g, disk.bytes) && h.Open() && Bytes(h) == Held(h, disk.g, disk.bytes)
    {
      forall h | h in files
        ensures Was(h, disk.g, disk.bytes) && Bytes(h) == Held(h, disk.g, disk.bytes)
      {
        OpenIsWas(h);
      }
    }

    lemma MakeGoodOf()
      requires disk.Valid() && Sound(TableState())
      requires forall h | h in files :: h.disk == disk && h.Open() && h.chain !in others
      requires forall a, b | a in files && b in files && a.chain == b.chain :: a == b
      ensures Good()
    {
    }

    // ----- Operations -----

    /** A write to one file. */
    method Write(f: File, data: seq<Octet>) returns (ok: bool)
      requires f in files && f.cursor + |data| < WORD && (HasRoom(f, |data|) || Sealed(disk.g, disk.bytes))
      requires Good()
      modifies f`fileSize, f`cursor, f`chain, disk`bytes, disk`cache, disk`cacheSector
      ensures disk.Valid() && (ok <==> old(HasRoom(f, |data|)))
      ensures forall h | h in files && h != f :: h.Open() && Bytes(h) == old(Bytes(h))
      ensures ok ==> Good() && Step(old(TableState()), TableState())
      ensures ok ==> Rewritten(old(Reached(f)), old(f.cursor), data, Bytes(f)) && f.cursor == old(f.cursor) + |data|
      ensures |old(Bytes(f))| == old(f.fileSize) && (old(f.cursor) <= old(f.fileSize) ==> old(Reached(f)) == old(Bytes(f)))
    {
      hide *;
      FilesBefore(f);
      RestOf(f);
      OpenIsWas(f);
      HasRoomIs(f, |data|);
      ReachedIs(f);
      f.OpenChain();
      ghost var g, m0, ch0, s0 := disk.g, disk.bytes, f.chain, TableState();
      ghost var rest := Rest(f);
      ghost var reached;
      f.OpenMayWrite(|data|);
      ok, reached := f.Fwrite(data);
      StateIs();
      forall h | h in files && h != f
        ensures h.Open() && Bytes(h) == old(Bytes(h))
      {
        StaysAfterWrite(h, g, m0, disk.bytes, ch0, reached);
        OpenIsWas(h);
      }
      if ok {
        OpenIsWas(f);
        RestOf(f);
        RewrittenBy(old(Reached(f)), old(f.cursor), data, Bytes(f));
        ExtendStep(s0, TableState(), ch0, f.chain);
        MakeGood(f);
      }
    }

    /** Opening a file for writing. */
    method Truncate(f: File)
      requires Good() && f in files
      modifies f`fileSize, f`chain, disk`bytes, disk`cache, disk`cacheSector
      ensures Good() && Step(old(TableState()), TableState()) && Bytes(f) == []
      ensures forall h | h in files && h != f :: h.Open() && Bytes(h) == old(Bytes(h))
    {
      hide *;
      FilesBefore(f);
      RestOf(f);
      OpenIsWas(f);
      f.OpenChain();
      ghost var g, m0, ch0, s0 := disk.g, disk.bytes, f.chain, TableState();
      f.Truncate();
      f.OpenChain();
      StateIs();
      OpenIsWas(f);
      RestOf(f);
      TruncateStep(s0, TableState(), ch0, f.chain);
      forall h | h in files && h != f
        ensures h.Open() && Bytes(h) == old(Bytes(h))
      {
        StaysAfterTable(h, g, m0, disk.bytes, ch0);
        OpenIsWas(h);
      }
      MakeGood(f);
    }

    /** Deleting a file. */
    method Remove(f: File)
      requires Good() && f in files
      modifies `files, disk`bytes, disk`cache, disk`cacheSector
      ensures Good() && Step(old(TableState()), TableState()) && files == old(files) - {f}
      ensures forall h | h in files :: h.Open() && Bytes(h) == old(Bytes(h))
    {
      hide *;
      FilesBefore(f);
      RestOf(f);
      f.OpenChain();
      ghost var g, m0, ch0, s0 := disk.g, disk.bytes, f.chain, TableState();
      CutRemovesChain(Table(g, m0), ch0);
      InsideEndsOnDisk(g, m0, f.firstLow);
      f.RemoveChain();
      files := files - {f};
      StateIs();
      RemoveStep(s0, TableState(), ch0);
      forall h | h in files
        ensures h.disk == disk && h.Open() && Bytes(h) == old(Bytes(h))
      {
        StaysAfterTable(h, g, m0, disk.bytes, ch0);
        OpenIsWas(h);
      }
      MakeGoodOf();
    }

    /** Creating a file. The volume keeps it among its open files if the loops can find it. */
    method Create() returns (ok: bool, file: File?)
      requires Good() && (FreeFrom(TableState().t, 2) > 0 || Sealed(disk.g, disk.bytes))
      modifies `files, `others, disk`bytes, disk`cache, disk`cacheSector
      ensures Good() && (ok <==> FreeFrom(old(TableState()).t, 2) > 0) && (ok <==> file != null)
      ensures ok ==> Step(old(TableState()), TableState()) && file.FirstCluster() < WORD
      ensures ok ==> files == old(files) + if file.FirstCluster() < 0x1_0000 then {file} else {}
      ensures ok ==> fresh(file) && file.cursor == 0 && file.fileSize == 0
      ensures ok && file in files ==> Bytes(file) == []
      ensures Sealed(disk.g, old(disk.bytes)) ==> Sealed(disk.g, disk.bytes)
      ensures !ok ==> files == old(files) && TableState() == old(TableState())
      ensures forall h | h in old(files) :: h.Open() && Bytes(h) == old(Bytes(h))
    {
      hide *;
      AllBefore();
      ghost var g, m0, s0 := disk.g, disk.bytes, TableState();
      ghost var before := files;
      ok, file := FatFile.Create(disk);
      StateIs();
      if !ok {
        forall h | h in files
          ensures h.Open() && Bytes(h) == old(Bytes(h))
        {
          OpenIsWas(h);
        }
        MakeGoodOf();
        return;
      }
      ghost var c := file.FirstCluster();
      OneChainMore(before, file);
      if c < 0x1_0000 {
        files := files + {file};
      } else {
        others := others + {[c]};
      }
      StateIs();
      CreateStep(s0, TableState(), c);
      InRange(g, c);
      ClusterValue(g, c);
      forall h | h in before
        ensures h.disk == disk && h.Open() && Bytes(h) == old(Bytes(h))
      {
        FreeIsAway(h, g, m0, c);
        StaysAfterTable(h, g, m0, disk.bytes, [c]);
        OpenIsWas(h);
      }
      OpenIsWas(file);
      MakeGoodOf();
    }

    /** The volume after an operation that gave f another chain. */
    lemma MakeGood(f: File)
      requires disk.Valid() && f in files && f.disk == disk && f.Open() && f.chain !in Rest(f) && Sound(TableState())
      requires forall h | h in files && h != f :: h.disk == disk && h.Open()
      requires forall a, b | a in files && b in files && a != f && b != f && a.chain == b.chain :: a == b
      requires forall a | a in files && a != f :: a.chain !in others
      ensures Good()
    {
      NamedBy(f);
    }
  }

  // ----- A run of the operations -----

  /** Two files are made, the first is written, emptied and deleted: the second stays empty, every
      file that was open keeps its bytes, and the disk has as many clusters as before. */
  method Scratch(v: Volume, data: seq<Octet>) returns (done: bool, kept: File?)
    requires v.Good() && Sealed(v.disk.g, v.disk.bytes) && |data| < WORD
    modifies v`files, v`others, v.disk`bytes, v.disk`cache, v.disk`cacheSector
    ensures done ==> v.Good() && kept != null && kept in v.files && Bytes(kept) == []
    ensures done ==> Conserved(old(v.TableState()), v.TableState())
    ensures done ==> forall h | h in old(v.files) :: h in v.files && h.Open() && Bytes(h) == old(Bytes(h))
  {
    hide *;
    done, kept := false, null;
    v.AllBefore();
    ghost var states := [v.TableState()];
    RunStart(v.TableState());
    var ok, file := v.Create();
    if !ok || file.FirstCluster() >= 0x1_0000 {
      return;
    }
    RunMore(states, v.TableState());
    states := states + [v.TableState()];
    v.AllBefore();
    ok, kept := v.Create();
    if !ok || kept.FirstCluster() >= 0x1_0000 {
      return;
    }
    RunMore(states, v.TableState());
    states := states + [v.TableState()];
    ok := v.Write(file, data);
    if !ok {
      return;
    }
    RunMore(states, v.TableState());
    states := states + [v.TableState()];
    v.Truncate(file);
    RunMore(states, v.TableState());
    states := states + [v.TableState()];
    v.Remove(file);
    RunMore(states, v.TableState());
    states := states + [v.TableState()];
    RunConserves(states);
    done := true;
  }
}
