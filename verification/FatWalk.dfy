/** Freeing from any cluster number of any disk: where the walk ends, and what it frees. */
module FatWalk {
  import opened FatLayout
  import opened FatDisk
  import opened FatTables

  lemma {:induction false} ClearingShrinks(w: seq<nat>, i: nat)
    requires i < |w|
    ensures NonFree(w[i := 0]) + (if w[i] == 0 then 0 else 1) == NonFree(w)
  {
    if w[i] == 0 {
      assert w[i := 0] == w;
    } else {
      FreeingShrinks(w, i);
    }
  }

  lemma BothShrink(w: seq<nat>, i: nat, copy: nat)
    requires i + copy < |w| && w[i] != 0
    ensures NonFree(BothSet(w, i, copy, 0)) < NonFree(w)
  {
    ClearingShrinks(w, i);
    ClearingShrinks(w[i := 0], i + copy);
  }

  /** Freeing from number c on never asks for a word behind the disk. Entry 0 is word `at` of the
      disk; the second table lies `copy` words behind the first. */
  predicate Ends(w: seq<nat>, at: nat, copy: nat, c: nat)
    decreases NonFree(w)
  {
    if c < 2 then true
    else if at + c >= |w| then false
    else if w[at + c] == 0 || w[at + c] == BAD_MARK then true
    else if at + c + copy >= |w| then false
    else
      BothShrink(w, at + c, copy);
      Decode(w[at + c]).To? ==> Ends(BothSet(w, at + c, copy, 0), at, copy, Decode(w[at + c]).cluster)
  }

  /** The words of the disk afterwards. */
  function Freed(w: seq<nat>, at: nat, copy: nat, c: nat): (r: seq<nat>)
    requires Ends(w, at, copy, c)
    ensures |r| == |w|
    ensures forall i: nat | i < |w| :: r[i] == w[i] || r[i] == 0
    decreases NonFree(w)
  {
    if c < 2 || w[at + c] == 0 || w[at + c] == BAD_MARK then w
    else
      BothShrink(w, at + c, copy);
      var u := BothSet(w, at + c, copy, 0);
      if Decode(w[at + c]).To? then Freed(u, at, copy, Decode(w[at + c]).cluster) else u
  }

  /** Every link on the disk leads to a number whose two words are on the disk. */
  predicate LinksStay(w: seq<nat>, at: nat, copy: nat) {
    forall i: nat | i < |w| && Decode(w[i]).To? :: at + Decode(w[i]).cluster + copy < |w|
  }

  /** Then freeing ends from everywhere, whatever is linked: every round clears a word that was
      not clear. */
  lemma {:induction false} StayingEnds(w: seq<nat>, at: nat, copy: nat, c: nat)
    requires LinksStay(w, at, copy) && at + c + copy < |w|
    ensures Ends(w, at, copy, c)
    decreases NonFree(w)
  {
    if c >= 2 && w[at + c] != 0 && w[at + c] != BAD_MARK {
      BothShrink(w, at + c, copy);
      if Decode(w[at + c]).To? {
        StayingEnds(BothSet(w, at + c, copy, 0), at, copy, Decode(w[at + c]).cluster);
      }
    }
  }

  /** One round of the freeing loop. */
  lemma FreedStep(w: seq<nat>, at: nat, copy: nat, c: nat)
    requires Ends(w, at, copy, c)
    ensures c >= 2 ==> at + c < |w|
    ensures c < 2 || w[at + c] == 0 || w[at + c] == BAD_MARK ==> Freed(w, at, copy, c) == w
    ensures c >= 2 && w[at + c] != 0 && w[at + c] != BAD_MARK ==>
              var u := BothSet(w, at + c, copy, 0);
              && at + c + copy < |w| && NonFree(u) < NonFree(w)
              && (if Decode(w[at + c]).To?
                  then Ends(u, at, copy, Masked(w[at + c])) && Freed(w, at, copy, c) == Freed(u, at, copy, Masked(w[at + c]))
                  else Freed(w, at, copy, c) == u)
  {
    if c >= 2 && w[at + c] != 0 && w[at + c] != BAD_MARK {
      BothShrink(w, at + c, copy);
    }
  }

  lemma EndsHere(w: seq<nat>, at: nat, copy: nat, c: nat)
    requires c < 2 || (at + c < |w| && (w[at + c] == 0 || w[at + c] == BAD_MARK))
    ensures Ends(w, at, copy, c)
  {
  }

  lemma EndsBehind(w: seq<nat>, at: nat, copy: nat, c: nat)
    requires c >= 2 && at + c + copy < |w| && w[at + c] != 0 && w[at + c] != BAD_MARK
    requires Decode(w[at + c]).To? ==> Ends(BothSet(w, at + c, copy, 0), at, copy, Masked(w[at + c]))
    ensures Ends(w, at, copy, c)
  {
    hide BothSet;
  }

  /** Clearing an entry and its copy, seen in the first table. */
  lemma TableCleared(w: seq<nat>, at: nat, copy: nat, t: seq<nat>, c: nat)
    requires at + copy + |t| <= |w| && c < |t| <= copy && t == w[at..at + |t|]
    ensures t[c] == w[at + c] && at + c + copy < |w|
    ensures var u := BothSet(w, at + c, copy, 0); |u| == |w| && u[at..at + |t|] == t[c := 0]
  {
  }

  /** A walk that stays inside the table ends, and frees in the table what `Cut` frees. */
  lemma {:induction false} InsideEnds(w: seq<nat>, at: nat, copy: nat, t: seq<nat>, c: nat)
    requires at + copy + |t| <= |w| && |t| <= copy && t == w[at..at + |t|] && Inside(t, c)
    ensures Ends(w, at, copy, c) && Freed(w, at, copy, c)[at..at + |t|] == Cut(t, c)
    decreases NonFree(t)
  {
    hide Ends, Freed, Inside, Cut, BothSet, Decode, NonFree;
    CutStep(t, c);
    TableCleared(w, at, copy, t, c);
    if Stops(t, c) {
      EndsHere(w, at, copy, c);
    } else {
      if Decode(t[c]).To? {
        InsideEnds(BothSet(w, at + c, copy, 0), at, copy, t[c := 0], Masked(t[c]));
      }
      EndsBehind(w, at, copy, c);
    }
    FreedStep(w, at, copy, c);
  }

  /** The table among the words of the disk. */
  lemma TableOfWords(g: Geometry, m: seq<Octet>)
    requires Sized(g, m)
    ensures FirstWord(g) + CopyWords(g) + g.clusters <= |Words(m)| && g.clusters <= CopyWords(g)
    ensures Table(g, m) == Words(m)[FirstWord(g)..FirstWord(g) + g.clusters]
  {
    EntryInTable(g, g.clusters - 1);
    forall c: nat | c < g.clusters
      ensures Table(g, m)[c] == Words(m)[FirstWord(g) + c]
    {
      EntryInTable(g, c);
      assert g.EntryStart(c) == 4 * (FirstWord(g) + c);
    }
  }

  lemma InsideEndsOnDisk(g: Geometry, m: seq<Octet>, c: nat)
    requires Sized(g, m) && Inside(Table(g, m), c)
    ensures Ends(Words(m), FirstWord(g), CopyWords(g), c)
  {
    hide *;
    TableOfWords(g, m);
    InsideEnds(Words(m), FirstWord(g), CopyWords(g), Table(g, m), c);
  }

  // ----- The freeing loop inside the table -----

  ghost predicate SameClusters(g: Geometry, m: seq<Octet>, m2: seq<Octet>)
    requires Sized(g, m) && Sized(g, m2)
  {
    forall d: nat | IsCluster(g, d) :: Cluster(g, m2, d) == Cluster(g, m, d)
  }

  lemma SameClustersIs(g: Geometry, m: seq<Octet>, m2: seq<Octet>, c: nat)
    requires Sized(g, m) && Sized(g, m2)
    requires c < g.clusters ==> forall d: nat | IsCluster(g, d) :: Cluster(g, m2, d) == Cluster(g, m, d)
    ensures c < g.clusters ==> SameClusters(g, m, m2)
  {
    hide Sized, Cluster;
  }

  /** The disk m0 on the way, with number c next, if the walk from `start` stays inside the table. */
  ghost predicate CutSoFar(g: Geometry, m0: seq<Octet>, start: nat, m: seq<Octet>, c: nat) {
    && Sized(g, m0) && Sized(g, m)
    && (Inside(Table(g, m0), start) ==>
          && Inside(Table(g, m), c) && Cut(Table(g, m), c) == Cut(Table(g, m0), start)
          && SameClusters(g, m0, m))
  }

  ghost predicate CutDone(g: Geometry, m0: seq<Octet>, start: nat, m: seq<Octet>) {
    && Sized(g, m0) && Sized(g, m)
    && (Inside(Table(g, m0), start) ==> Table(g, m) == Cut(Table(g, m0), start) && SameClusters(g, m0, m))
  }

  lemma CutStarts(g: Geometry, m: seq<Octet>, start: nat)
    requires Sized(g, m)
    ensures CutSoFar(g, m, start, m, start)
  {
  }

  lemma CutStops(g: Geometry, m0: seq<Octet>, start: nat, m: seq<Octet>, c: nat)
    requires CutSoFar(g, m0, start, m, c)
    requires c < 2 || (g.EntryStart(c) + 4 <= |m| && (WordAt(m, g.EntryStart(c)) == 0 || WordAt(m, g.EntryStart(c)) == BAD_MARK))
    ensures CutDone(g, m0, start, m)
  {
    hide Cut, Inside, WordAt, Sized;
    if Inside(Table(g, m0), start) {
      CutStep(Table(g, m), c);
    }
  }

  lemma CutGoes(g: Geometry, m0: seq<Octet>, start: nat, m: seq<Octet>, m2: seq<Octet>, c: nat, v: nat)
    requires CutSoFar(g, m0, start, m, c) && Sized(g, m2) && c >= 2
    requires g.EntryStart(c) + 4 <= |m| && v == WordAt(m, g.EntryStart(c)) && v != 0 && v != BAD_MARK
    requires c < g.clusters ==> Table(g, m2) == Table(g, m)[c := 0] && SameClusters(g, m, m2)
    ensures Decode(v).To? ==> CutSoFar(g, m0, start, m2, Masked(v))
    ensures !Decode(v).To? ==> CutDone(g, m0, start, m2)
  {
    hide Cut, Inside, WordAt, Sized;
    if Inside(Table(g, m0), start) {
      CutStep(Table(g, m), c);
    }
  }

  lemma CutDoneMeans(g: Geometry, m0: seq<Octet>, start: nat, m: seq<Octet>)
    requires CutDone(g, m0, start, m)
    ensures Sized(g, m0) && Sized(g, m)
    ensures Inside(Table(g, m0), start) ==>
              && Table(g, m) == Cut(Table(g, m0), start)
              && (forall d: nat | IsCluster(g, d) :: Cluster(g, m, d) == Cluster(g, m0, d))
  {
    hide Cut, Inside, Sized, Cluster;
  }

  lemma LinkKind(v: nat)
    requires v != 0 && v != BAD_MARK
    ensures Decode(v).To? <==> !(END_MIN <= v <= END_MARK || v == FINAL_MARK)
    ensures Decode(v).To? ==> Decode(v).cluster == Masked(v)
  {
  }

  /** A word among the words of the disk. */
  lemma WordPlace(g: Geometry, m: seq<Octet>, c: nat)
    requires Sized(g, m) && FirstWord(g) + c < |Words(m)|
    ensures g.EntryStart(c) + 4 <= g.DiskBytes() == |m| && Words(m)[FirstWord(g) + c] == WordAt(m, g.EntryStart(c))
    ensures FirstWord(g) + c + CopyWords(g) < |Words(m)| ==> g.EntryStart(c) + g.FatBytes() + 4 <= g.DiskBytes()
  {
    assert g.EntryStart(c) == 4 * (FirstWord(g) + c);
    hide WordAt;
  }
}
