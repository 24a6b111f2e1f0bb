/** Cluster chains in a table, the bytes they hold, and counting free clusters. */
module FatChain {
  import opened FatLayout
  import opened FatDisk

  // ----- Chains -----

  ghost predicate Distinct(ch: seq<nat>) {
    forall i: nat, j: nat | i < j < |ch| :: ch[i] != ch[j]
  }

  /** Each cluster but the last links to the next. */
  ghost predicate Links(t: seq<nat>, ch: seq<nat>) {
    && ch != [] && Distinct(ch)
    && (forall i: nat | i < |ch| :: 2 <= ch[i] < |t|)
    && (forall i: nat | i + 1 < |ch| :: Decode(t[ch[i]]) == To(ch[i + 1]))
  }

  ghost predicate IsChain(t: seq<nat>, ch: seq<nat>) {
    Links(t, ch) && Decode(t[ch[|ch| - 1]]) == End
  }

  function Last(ch: seq<nat>): nat
    requires ch != []
  {
    ch[|ch| - 1]
  }

  /** n clusters of w bytes are what `size` bytes need: at least one, and the last is used. */
  predicate Covers(n: nat, w: nat, size: nat) {
    n >= 1 && size <= Span(n, w) && (n > 1 ==> Span(n - 1, w) < size)
  }

  /** A table determines the chain that starts at a cluster. */
  lemma {:induction false} ChainUnique(t: seq<nat>, a: seq<nat>, b: seq<nat>, i: nat)
    requires IsChain(t, a) && IsChain(t, b) && a[0] == b[0] && i < |a|
    ensures i < |b| && a[i] == b[i]
  {
    if i > 0 {
      ChainUnique(t, a, b, i - 1);
      assert Decode(t[a[i - 1]]) == To(a[i]);
    }
  }

  /** The clusters that a loop from number c on goes through, in order: it stops before a number
      that stands for no cluster, before a free or bad one, and behind an end mark. */
  ghost predicate Visits(t: seq<nat>, c: nat, seen: seq<nat>)
    decreases |seen|
  {
    if c < 2 then seen == []
    else if c >= |t| then false
    else if t[c] == 0 || t[c] == BAD_MARK then seen == []
    else if seen == [] || seen[0] != c then false
    else if Decode(t[c]).To? then Visits(t, Decode(t[c]).cluster, seen[1..])
    else |seen| == 1
  }

  lemma {:induction false} VisitsUnique(t: seq<nat>, c: nat, a: seq<nat>, b: seq<nat>)
    requires Visits(t, c, a) && Visits(t, c, b)
    ensures a == b
    decreases |a|
  {
    if a != [] && b != [] {
      if Decode(t[c]).To? {
        VisitsUnique(t, Decode(t[c]).cluster, a[1..], b[1..]);
      }
      assert a == [a[0]] + a[1..] && b == [b[0]] + b[1..];
    }
  }

  /** A loop from the start of a chain goes through the chain. */
  lemma {:induction false} ChainVisited(t: seq<nat>, ch: seq<nat>)
    requires IsChain(t, ch)
    ensures Visits(t, ch[0], ch)
    decreases |ch|
  {
    if |ch| > 1 {
      assert Decode(t[ch[0]]) == To(ch[1]);
      var rest := ch[1..];
      forall i: nat | i + 1 < |rest|
        ensures Decode(t[rest[i]]) == To(rest[i + 1])
      {
        assert rest[i] == ch[i + 1];
      }
      ChainVisited(t, rest);
    }
  }

  /** One round of such a loop. */
  lemma VisitsStep(t: seq<nat>, c: nat, seen: seq<nat>)
    requires Visits(t, c, seen)
    ensures c >= 2 ==> c < |t|
    ensures c < 2 || t[c] == 0 || t[c] == BAD_MARK ==> seen == []
    ensures c >= 2 && t[c] != 0 && t[c] != BAD_MARK ==>
              && seen != [] && seen[0] == c
              && (if END_MIN <= t[c] <= END_MARK || t[c] == FINAL_MARK then |seen| == 1 else Visits(t, Masked(t[c]), seen[1..]))
  {
  }

  lemma {:induction false} VisitsInside(t: seq<nat>, c: nat, seen: seq<nat>)
    requires Visits(t, c, seen)
    ensures forall x | x in seen :: 2 <= x < |t|
    decreases |seen|
  {
    if seen != [] && Decode(t[c]).To? {
      VisitsInside(t, Decode(t[c]).cluster, seen[1..]);
    }
    assert seen != [] ==> seen == [seen[0]] + seen[1..];
  }

  /** The clusters that a write from number c on goes through when it can neither close nor lengthen
      their chain: that ends in a number that stands for no cluster, in a bad cluster, or behind
      0xFFFFFFFF. */
  ghost predicate Stuck(t: seq<nat>, c: nat, seen: seq<nat>)
    decreases |seen|
  {
    if c < 2 then seen == []
    else if c >= |t| then false
    else if t[c] == BAD_MARK then seen == []
    else if seen == [] || seen[0] != c then false
    else if Decode(t[c]).To? then Stuck(t, Decode(t[c]).cluster, seen[1..])
    else t[c] == FINAL_MARK && |seen| == 1
  }

  /** One round of such a write. */
  lemma StuckStep(t: seq<nat>, c: nat, seen: seq<nat>)
    requires Stuck(t, c, seen)
    ensures c >= 2 ==> c < |t| && t[c] != 0 && !(END_MIN <= t[c] <= END_MARK)
    ensures c < 2 || t[c] == BAD_MARK ==> seen == []
    ensures c >= 2 && t[c] != BAD_MARK ==>
              && seen != [] && seen[0] == c
              && (if t[c] == FINAL_MARK then |seen| == 1 else Stuck(t, Masked(t[c]), seen[1..]))
  {
  }

  /** They are clusters that a read goes through, too. */
  lemma {:induction false} StuckVisits(t: seq<nat>, c: nat, seen: seq<nat>)
    requires Stuck(t, c, seen)
    ensures Visits(t, c, seen)
    decreases |seen|
  {
    if seen != [] && Decode(t[c]).To? {
      StuckVisits(t, Decode(t[c]).cluster, seen[1..]);
    }
  }

  /** A walk that ends meets no cluster twice: each has fewer behind it than the one before. */
  lemma VisitsDistinct(t: seq<nat>, c: nat, seen: seq<nat>)
    requires Visits(t, c, seen)
    ensures Distinct(seen)
    decreases |seen|
  {
    forall i: nat, j: nat | i < j < |seen|
      ensures seen[i] != seen[j]
    {
      VisitsFrom(t, c, seen, i);
      VisitsFrom(t, c, seen, j);
      if seen[i] == seen[j] {
        VisitsUnique(t, seen[i], seen[i..], seen[j..]);
      }
    }
  }

  /** The rest of a walk is the walk from there. */
  lemma {:induction false} VisitsFrom(t: seq<nat>, c: nat, seen: seq<nat>, i: nat)
    requires Visits(t, c, seen) && i < |seen|
    ensures Visits(t, seen[i], seen[i..])
    decreases i
  {
    if i > 0 {
      VisitsFrom(t, Decode(t[c]).cluster, seen[1..], i - 1);
      assert seen[1..][i - 1..] == seen[i..];
    } else {
      assert seen[0..] == seen;
    }
  }

  /** The clusters of a chain are clusters of the disk. */
  lemma ChainClusters(g: Geometry, m: seq<Octet>, ch: seq<nat>)
    requires Sized(g, m) && Links(Table(g, m), ch)
    ensures forall c | c in ch :: IsCluster(g, c)
    ensures forall i: nat | i < |ch| :: IsCluster(g, ch[i])
  {
  }

  // ----- The bytes of a chain -----

  function Flat(g: Geometry, m: seq<Octet>, ch: seq<nat>): (s: seq<Octet>)
    requires Sized(g, m) && forall c | c in ch :: IsCluster(g, c)
    ensures |s| == Span(|ch|, g.ClusterSize())
    decreases |ch|
  {
    if ch == [] then [] else Flat(g, m, ch[..|ch| - 1]) + Cluster(g, m, ch[|ch| - 1])
  }

  lemma {:induction false} FlatSlice(g: Geometry, m: seq<Octet>, ch: seq<nat>, i: nat, a: nat, b: nat)
    requires Sized(g, m) && (forall c | c in ch :: IsCluster(g, c)) && i < |ch| && a <= b <= g.ClusterSize()
    ensures Span(i, g.ClusterSize()) + b <= |Flat(g, m, ch)|
    ensures Flat(g, m, ch)[Span(i, g.ClusterSize()) + a..Span(i, g.ClusterSize()) + b] == Cluster(g, m, ch[i])[a..b]
    decreases |ch|
  {
    var w, init := g.ClusterSize(), ch[..|ch| - 1];
    SpanOrder(i, |ch|, w);
    if i < |ch| - 1 {
      FlatSlice(g, m, init, i, a, b);
      SpanOrder(i, |init|, w);
      assert Flat(g, m, ch)[Span(i, w) + a..Span(i, w) + b] == Flat(g, m, init)[Span(i, w) + a..Span(i, w) + b];
    }
  }

  /** Writing into cluster i of a chain splices the chain's bytes there. */
  lemma {:induction false} FlatSpliced(g: Geometry, m: seq<Octet>, m2: seq<Octet>, ch: seq<nat>, i: nat, skip: nat, s: seq<Octet>)
    requires Sized(g, m) && Sized(g, m2) && (forall c | c in ch :: IsCluster(g, c)) && Distinct(ch)
    requires i < |ch| && skip + |s| <= g.ClusterSize()
    requires Cluster(g, m2, ch[i]) == Spliced(Cluster(g, m, ch[i]), skip, s)
    requires forall d | d in ch && d != ch[i] :: Cluster(g, m2, d) == Cluster(g, m, d)
    ensures Span(i, g.ClusterSize()) + skip + |s| <= |Flat(g, m, ch)|
    ensures Flat(g, m2, ch) == Spliced(Flat(g, m, ch), Span(i, g.ClusterSize()) + skip, s)
    decreases |ch|
  {
    hide Cluster, Spliced, Sized;
    var w, init, last := g.ClusterSize(), ch[..|ch| - 1], ch[|ch| - 1];
    SpanOrder(i, |ch|, w);
    if i < |ch| - 1 {
      SpanOrder(i, |init|, w);
      FlatSpliced(g, m, m2, init, i, skip, s);
      SpliceLeft(Flat(g, m, init), Cluster(g, m, last), Span(i, w) + skip, s);
      assert ch[i] in init && last in ch && last != ch[i];
    } else {
      FlatSame(g, m, m2, init);
      SpliceRight(Flat(g, m, init), Cluster(g, m, last), skip, s);
    }
  }

  lemma SpliceLeft<T>(a: seq<T>, b: seq<T>, at: nat, s: seq<T>)
    requires at + |s| <= |a|
    ensures Spliced(a + b, at, s) == Spliced(a, at, s) + b
  {
  }

  lemma SpliceRight<T>(a: seq<T>, b: seq<T>, at: nat, s: seq<T>)
    requires at + |s| <= |b|
    ensures Spliced(a + b, |a| + at, s) == a + Spliced(b, at, s)
  {
  }

  lemma {:induction false} FlatSame(g: Geometry, m: seq<Octet>, m2: seq<Octet>, ch: seq<nat>)
    requires Sized(g, m) && Sized(g, m2) && (forall c | c in ch :: IsCluster(g, c))
    requires forall d | d in ch :: Cluster(g, m2, d) == Cluster(g, m, d)
    ensures Flat(g, m2, ch) == Flat(g, m, ch)
    decreases |ch|
  {
    if ch != [] {
      FlatSame(g, m, m2, ch[..|ch| - 1]);
    }
  }

  lemma FlatAppend(g: Geometry, m: seq<Octet>, ch: seq<nat>, c: nat)
    requires Sized(g, m) && (forall d | d in ch :: IsCluster(g, d)) && IsCluster(g, c)
    ensures Flat(g, m, ch + [c]) == Flat(g, m, ch) + Cluster(g, m, c)
  {
    assert (ch + [c])[..|ch|] == ch;
  }

  // ----- Free clusters -----

  /** How many entries from `from` on are free. */
  function FreeFrom(t: seq<nat>, from: nat): nat
    decreases |t| - from
  {
    if from >= |t| then 0 else (if t[from] == 0 then 1 else 0) + FreeFrom(t, from + 1)
  }

  ghost predicate IsFirstFree(t: seq<nat>, from: nat, c: nat) {
    from <= c < |t| && t[c] == 0 && forall d: nat | from <= d < c :: t[d] != 0
  }

  lemma {:induction false} FreeSkip(t: seq<nat>, from: nat, c: nat)
    requires from <= c <= |t|
    requires forall d: nat | from <= d < c :: t[d] != 0
    ensures FreeFrom(t, from) == FreeFrom(t, c)
    decreases c - from
  {
    if from < c {
      FreeSkip(t, from + 1, c);
    }
  }

  lemma {:induction false} FreeExists(t: seq<nat>, from: nat) returns (c: nat)
    requires FreeFrom(t, from) > 0
    ensures from <= c < |t| && t[c] == 0
    decreases |t| - from
  {
    if t[from] == 0 {
      c := from;
    } else {
      c := FreeExists(t, from + 1);
    }
  }

  lemma {:induction false} FreeSameAbove(t: seq<nat>, u: seq<nat>, from: nat)
    requires |t| == |u| && forall d: nat | from <= d < |t| :: t[d] == u[d]
    ensures FreeFrom(t, from) == FreeFrom(u, from)
    decreases |t| - from
  {
    if from < |t| {
      FreeSameAbove(t, u, from + 1);
    }
  }

  /** Changing one entry changes the count by at most that entry. */
  lemma {:induction false} FreeUpdate(t: seq<nat>, from: nat, c: nat, v: nat)
    requires from <= c < |t|
    ensures FreeFrom(t[c := v], from) + (if t[c] == 0 then 1 else 0) == FreeFrom(t, from) + (if v == 0 then 1 else 0)
    decreases c - from
  {
    if from < c {
      FreeUpdate(t, from + 1, c, v);
    } else {
      FreeSameAbove(t, t[c := v], from + 1);
    }
  }

  /** Taking the first free cluster above `last` leaves one fewer above. */
  lemma FreeTaken(t: seq<nat>, last: nat, c: nat)
    requires last < |t| && IsFirstFree(t, last + 1, c)
    ensures FreeFrom(t[last := c], c + 1) + 1 == FreeFrom(t, last + 1)
  {
    FreeSkip(t, last + 1, c);
    FreeSameAbove(t, t[last := c], c + 1);
  }
}
