/** What creating, extending, truncating and removing files do to the table, over whole runs. */
module FatTables {
  import opened FatLayout
  import opened FatChain

  // ----- Freeing a chain -----

  function NonFree(t: seq<nat>): nat {
    if t == [] then 0 else NonFree(t[..|t| - 1]) + if t[|t| - 1] == 0 then 0 else 1
  }

  lemma {:induction false} FreeingShrinks(t: seq<nat>, c: nat)
    requires c < |t| && t[c] != 0
    ensures NonFree(t[c := 0]) + 1 == NonFree(t)
  {
    if c == |t| - 1 {
      assert t[c := 0][..c] == t[..c];
    } else {
      FreeingShrinks(t[..|t| - 1], c);
      assert t[c := 0][..|t| - 1] == t[..|t| - 1][c := 0];
    }
  }

  /** No entry links outside the table. */
  predicate Closed(t: seq<nat>) { forall c: nat | c < |t| :: Decode(t[c]).To? ==> Decode(t[c]).cluster < |t| }

  predicate Stops(t: seq<nat>, c: nat)
    requires c < |t|
  {
    c < 2 || t[c] == 0 || t[c] == BAD_MARK
  }

  /** Freeing from cluster c on never leaves the table. */
  predicate Inside(t: seq<nat>, c: nat)
    decreases NonFree(t)
  {
    if c >= |t| then false
    else if Stops(t, c) then true
    else
      FreeingShrinks(t, c);
      Decode(t[c]).To? ==> Inside(t[c := 0], Decode(t[c]).cluster)
  }

  /** The table after freeing from cluster c on, whatever the table links: the walk around a cycle
      ends at its own freed start. */
  function Cut(t: seq<nat>, c: nat): (r: seq<nat>)
    requires Inside(t, c)
    ensures |r| == |t|
    ensures forall d: nat | d < |t| :: r[d] == t[d] || r[d] == 0
    ensures !Stops(t, c) ==> r[c] == 0
    decreases NonFree(t)
  {
    if Stops(t, c) then t
    else
      FreeingShrinks(t, c);
      if Decode(t[c]).To? then Cut(t[c := 0], Decode(t[c]).cluster) else t[c := 0]
  }

  lemma {:induction false} ClosedInside(t: seq<nat>, c: nat)
    requires Closed(t) && c < |t|
    ensures Inside(t, c)
    decreases NonFree(t)
  {
    if !Stops(t, c) {
      FreeingShrinks(t, c);
      if Decode(t[c]).To? {
        ClosedInside(t[c := 0], Decode(t[c]).cluster);
      }
    }
  }

  /** One round of the freeing loop. */
  lemma CutStep(t: seq<nat>, c: nat)
    requires Inside(t, c)
    ensures c < |t|
    ensures Stops(t, c) ==> Cut(t, c) == t
    ensures !Stops(t, c) ==> NonFree(t[c := 0]) < NonFree(t)
    ensures !Stops(t, c) && !Decode(t[c]).To? ==> Cut(t, c) == t[c := 0]
    ensures !Stops(t, c) && Decode(t[c]).To? ==>
              Inside(t[c := 0], Masked(t[c])) && Cut(t, c) == Cut(t[c := 0], Masked(t[c]))
  {
    if !Stops(t, c) {
      FreeingShrinks(t, c);
    }
  }

  /** Every entry of the chain is free and every other one is kept. */
  ghost predicate Removed(t: seq<nat>, u: seq<nat>, ch: seq<nat>) {
    |u| == |t| && forall d: nat | d < |t| :: u[d] == if d in ch then 0 else t[d]
  }

  lemma ChainTail(t: seq<nat>, ch: seq<nat>)
    requires IsChain(t, ch) && |ch| > 1
    ensures IsChain(t[ch[0] := 0], ch[1..]) && Decode(t[ch[0]]) == To(ch[1])
  {
    var u, rest := t[ch[0] := 0], ch[1..];
    forall i: nat | i + 1 < |rest|
      ensures Decode(u[rest[i]]) == To(rest[i + 1])
    {
      assert rest[i] == ch[i + 1] && ch[0] != ch[i + 1];
    }
    assert Last(rest) == Last(ch) && ch[0] != ch[|ch| - 1];
  }

  lemma CutLast(t: seq<nat>, c: nat)
    requires c < |t| && !Stops(t, c) && Decode(t[c]) == End
    ensures Inside(t, c) && Cut(t, c) == t[c := 0]
  {
    FreeingShrinks(t, c);
  }

  lemma CutLink(t: seq<nat>, c: nat, d: nat)
    requires c < |t| && !Stops(t, c) && Decode(t[c]) == To(d) && Inside(t[c := 0], d)
    ensures Inside(t, c) && Cut(t, c) == Cut(t[c := 0], d)
  {
    FreeingShrinks(t, c);
  }

  lemma RemovedHead(t: seq<nat>, u: seq<nat>, ch: seq<nat>)
    requires ch != [] && ch[0] < |t| && Removed(t[ch[0] := 0], u, ch[1..])
    ensures Removed(t, u, ch)
  {
    assert ch == [ch[0]] + ch[1..];
  }

  lemma ChainHead(t: seq<nat>, ch: seq<nat>)
    requires IsChain(t, ch)
    ensures ch != [] && ch[0] < |t| && !Stops(t, ch[0])
    ensures |ch| == 1 ==> Decode(t[ch[0]]) == End && Removed(t[ch[0] := 0], t[ch[0] := 0], ch[1..])
  {
    assert ch[0] in ch;
    ChainedInUse(t, ch, ch[0]);
  }

  /** On a well-formed chain that is exactly the chain. */
  lemma {:induction false} CutRemovesChain(t: seq<nat>, ch: seq<nat>)
    requires IsChain(t, ch)
    ensures Inside(t, ch[0]) && Removed(t, Cut(t, ch[0]), ch)
    decreases |ch|
  {
    hide *;
    ChainHead(t, ch);
    var c := ch[0];
    if |ch| > 1 {
      ChainTail(t, ch);
      CutRemovesChain(t[c := 0], ch[1..]);
      CutLink(t, c, ch[1]);
    } else {
      CutLast(t, c);
    }
    RemovedHead(t, Cut(t, c), ch);
  }

  // ----- The table operations -----

  datatype State = State(t: seq<nat>, chains: set<seq<nat>>)

  ghost predicate Created(t: seq<nat>, u: seq<nat>, c: nat) {
    IsFirstFree(t, 2, c) && u == t[c := END_MARK]
  }

  /** `ch` became `longer` by clusters that were free; other entries are kept. */
  ghost predicate Extended(t: seq<nat>, u: seq<nat>, ch: seq<nat>, longer: seq<nat>) {
    && |u| == |t| && IsChain(u, longer) && ch <= longer
    && (forall d: nat | d < |t| && d !in longer :: u[d] == t[d])
    && (forall i: nat | |ch| <= i < |longer| :: t[longer[i]] == 0)
  }

  /** The chain that truncating leaves. */
  function Start(ch: seq<nat>): seq<nat> { if ch == [] then [] else [ch[0]] }

  ghost predicate Truncated(t: seq<nat>, u: seq<nat>, ch: seq<nat>) {
    ch != [] && |u| == |t| && forall d: nat | d < |t| :: u[d] == if d == ch[0] then END_MARK else if d in ch then 0 else t[d]
  }

  ghost predicate Step(a: State, b: State) {
    || (exists c: nat :: Created(a.t, b.t, c) && b.chains == a.chains + {[c]})
    || (exists ch, longer :: ch in a.chains && Extended(a.t, b.t, ch, longer) && b.chains == a.chains - {ch} + {longer})
    || (exists ch :: ch in a.chains && Truncated(a.t, b.t, ch) && b.chains == a.chains - {ch} + {Start(ch)})
    || (exists ch :: ch in a.chains && Removed(a.t, b.t, ch) && b.chains == a.chains - {ch})
  }

  // ----- The invariant -----

  ghost predicate Chained(s: State, c: nat) { exists ch :: ch in s.chains && c in ch }

  /** Every chain is well formed and acyclic, no two share a cluster, and every cluster that is
      neither free nor bad is in one. */
  ghost predicate Sound(s: State) {
    && (forall ch | ch in s.chains :: IsChain(s.t, ch))
    && (forall ch, other, c | ch in s.chains && other in s.chains && c in ch && c in other :: ch == other)
    && (forall c: nat | 2 <= c < |s.t| && s.t[c] != 0 && s.t[c] != BAD_MARK :: Chained(s, c))
  }

  /** A cluster in a chain is neither free nor bad. */
  lemma ChainedInUse(t: seq<nat>, ch: seq<nat>, c: nat)
    requires IsChain(t, ch) && c in ch
    ensures 2 <= c < |t| && t[c] != 0 && t[c] != BAD_MARK
  {
    var i: nat :| i < |ch| && ch[i] == c;
    if i + 1 < |ch| {
      assert Decode(t[ch[i]]) == To(ch[i + 1]);
    }
  }

  /** A chain keeps its form while its entries do. */
  lemma ChainKept(t: seq<nat>, u: seq<nat>, ch: seq<nat>)
    requires IsChain(t, ch) && |u| == |t| && forall c | c in ch :: u[c] == t[c]
    ensures IsChain(u, ch)
  {
    forall i: nat | i + 1 < |ch|
      ensures Decode(u[ch[i]]) == To(ch[i + 1])
    {
      assert ch[i] in ch;
    }
    assert ch[|ch| - 1] in ch;
  }

  ghost predicate Within(chains: set<seq<nat>>, c: nat) { exists ch :: ch in chains && c in ch }

  /** The common form of the operations: the chains `gone` gave way to the chains `made`, whose
      clusters were free or theirs; entries of other clusters are kept, and what is left over is free. */
  ghost predicate Replaced(a: State, b: State, gone: set<seq<nat>>, made: set<seq<nat>>) {
    && |b.t| == |a.t| && gone <= a.chains && b.chains == a.chains - gone + made
    && (forall ch | ch in made :: IsChain(b.t, ch))
    && (forall ch, other | ch in made && other in made :: ch == other)
    && (forall c: nat | c < |a.t| && Within(made, c) && a.t[c] != 0 :: Within(gone, c))
    && (forall c: nat | c < |a.t| && !Within(gone, c) && !Within(made, c) :: b.t[c] == a.t[c])
    && (forall c: nat | c < |a.t| && Within(gone, c) && !Within(made, c) :: b.t[c] == 0)
  }

  /** A chain that stays keeps its entries and shares no cluster with a new one. */
  lemma StayingKept(a: State, b: State, gone: set<seq<nat>>, made: set<seq<nat>>, ch: seq<nat>)
    requires Sound(a) && Replaced(a, b, gone, made) && ch in a.chains && ch !in gone
    ensures IsChain(b.t, ch) && forall c | c in ch :: !Within(made, c)
  {
    forall c | c in ch
      ensures c < |a.t| && !Within(made, c) && b.t[c] == a.t[c]
    {
      ChainedInUse(a.t, ch, c);
      assert !Within(gone, c);
    }
    ChainKept(a.t, b.t, ch);
  }

  lemma ReplacedSound(a: State, b: State, gone: set<seq<nat>>, made: set<seq<nat>>)
    requires Sound(a) && Replaced(a, b, gone, made)
    ensures Sound(b)
  {
    forall ch | ch in b.chains && ch !in made
      ensures IsChain(b.t, ch) && forall c | c in ch :: !Within(made, c)
    {
      StayingKept(a, b, gone, made, ch);
    }
    forall ch, other, c | ch in b.chains && other in b.chains && c in ch && c in other
      ensures ch == other
    {
      if ch in made || other in made {
        assert Within(made, c);
      }
    }
    forall c: nat | 2 <= c < |b.t| && b.t[c] != 0 && b.t[c] != BAD_MARK
      ensures Chained(b, c)
    {
      if Within(made, c) {
        var ch :| ch in made && c in ch;
        assert ch in b.chains;
      } else {
        assert !Within(gone, c);
        var ch :| ch in a.chains && c in ch;
        assert ch in b.chains;
      }
    }
  }

  lemma ReplacedKeepsBad(a: State, b: State, gone: set<seq<nat>>, made: set<seq<nat>>, c: nat)
    requires Sound(a) && Replaced(a, b, gone, made) && c < |a.t|
    ensures b.t[c] == BAD_MARK <==> a.t[c] == BAD_MARK
  {
    if Within(made, c) {
      var ch :| ch in made && c in ch;
      ChainedInUse(b.t, ch, c);
    }
    if Within(gone, c) {
      var ch :| ch in gone && c in ch;
      ChainedInUse(a.t, ch, c);
    }
  }

  lemma CreateReplaces(a: State, b: State, c: nat)
    requires Created(a.t, b.t, c) && b.chains == a.chains + {[c]}
    ensures Replaced(a, b, {}, {[c]})
  {
    assert forall d: nat :: Within({[c]}, d) <==> d == c by { assert [c] in {[c]} && c in [c]; }
  }

  lemma One(ch: seq<nat>)
    ensures forall c: nat :: Within({ch}, c) <==> c in ch
    ensures !exists c: nat :: Within({}, c)
  {
    assert ch in {ch};
  }

  lemma ExtendReplaces(a: State, b: State, ch: seq<nat>, longer: seq<nat>)
    requires ch in a.chains && Extended(a.t, b.t, ch, longer) && b.chains == a.chains - {ch} + {longer}
    ensures Replaced(a, b, {ch}, {longer})
  {
    One(ch);
    One(longer);
    forall c: nat | c in longer && c < |a.t| && a.t[c] != 0
      ensures c in ch
    {
      var i: nat :| i < |longer| && longer[i] == c;
      assert i < |ch| && c == ch[i];
    }
    assert forall c | c in ch :: c in longer;
  }

  lemma StartIsChain(t: seq<nat>, u: seq<nat>, ch: seq<nat>)
    requires IsChain(t, ch) && Truncated(t, u, ch)
    ensures ch[0] in ch && IsChain(u, Start(ch)) && forall c :: c in Start(ch) <==> c == ch[0]
  {
  }

  lemma TruncateReplaces(a: State, b: State, ch: seq<nat>)
    requires Sound(a) && ch in a.chains && Truncated(a.t, b.t, ch) && b.chains == a.chains - {ch} + {Start(ch)}
    ensures Replaced(a, b, {ch}, {Start(ch)})
  {
    hide Within, IsChain, Start;
    One(ch);
    One(Start(ch));
    assert IsChain(a.t, ch);
    hide Sound;
    StartIsChain(a.t, b.t, ch);
    assert forall c: nat | c < |a.t| && Within({Start(ch)}, c) :: Within({ch}, c);
    assert forall c: nat | c < |a.t| && !Within({ch}, c) && !Within({Start(ch)}, c) :: b.t[c] == a.t[c];
    assert forall c: nat | c < |a.t| && Within({ch}, c) && !Within({Start(ch)}, c) :: b.t[c] == 0;
  }

  lemma RemoveReplaces(a: State, b: State, ch: seq<nat>)
    requires ch in a.chains && Removed(a.t, b.t, ch) && b.chains == a.chains - {ch}
    ensures Replaced(a, b, {ch}, {})
  {
    One(ch);
  }

  /** Every operation has that form. */
  lemma StepReplaces(a: State, b: State) returns (gone: set<seq<nat>>, made: set<seq<nat>>)
    requires Sound(a) && Step(a, b)
    ensures Replaced(a, b, gone, made)
  {
    hide Created, Extended, Truncated, Removed, Replaced, Sound, Start;
    if c: nat :| Created(a.t, b.t, c) && b.chains == a.chains + {[c]} {
      gone, made := {}, {[c]};
      CreateReplaces(a, b, c);
    } else if ch, longer :| ch in a.chains && Extended(a.t, b.t, ch, longer) && b.chains == a.chains - {ch} + {longer} {
      gone, made := {ch}, {longer};
      ExtendReplaces(a, b, ch, longer);
    } else if ch :| ch in a.chains && Truncated(a.t, b.t, ch) && b.chains == a.chains - {ch} + {Start(ch)} {
      gone, made := {ch}, {Start(ch)};
      TruncateReplaces(a, b, ch);
    } else {
      var ch :| ch in a.chains && Removed(a.t, b.t, ch) && b.chains == a.chains - {ch};
      gone, made := {ch}, {};
      RemoveReplaces(a, b, ch);
    }
  }

  // ----- Runs -----

  function Free(t: seq<nat>): set<nat> { set c: nat | 2 <= c < |t| && t[c] == 0 }

  ghost function InChains(s: State): set<nat> { set c: nat | 2 <= c < |s.t| && Chained(s, c) }

  function Usable(t: seq<nat>): set<nat> { set c: nat | 2 <= c < |t| && t[c] != BAD_MARK }

  /** Each usable cluster is free or in exactly one chain, never both. */
  lemma EachOnce(s: State)
    requires Sound(s)
    ensures Free(s.t) + InChains(s) == Usable(s.t) && Free(s.t) !! InChains(s)
    ensures |Free(s.t)| + |InChains(s)| == |Usable(s.t)|
  {
    forall c: nat | 2 <= c < |s.t| && Chained(s, c)
      ensures s.t[c] != 0 && s.t[c] != BAD_MARK
    {
      var ch :| ch in s.chains && c in ch;
      ChainedInUse(s.t, ch, c);
    }
    assert Free(s.t) + InChains(s) == Usable(s.t);
  }

  lemma StepKeeps(a: State, b: State)
    requires Sound(a) && Step(a, b)
    ensures Sound(b) && Usable(b.t) == Usable(a.t)
  {
    var gone, made := StepReplaces(a, b);
    ReplacedSound(a, b, gone, made);
    forall c: nat | c < |a.t|
      ensures b.t[c] == BAD_MARK <==> a.t[c] == BAD_MARK
    {
      ReplacedKeepsBad(a, b, gone, made, c);
    }
  }

  ghost predicate Run(states: seq<State>) {
    states != [] && forall i: nat | i + 1 < |states| :: Step(states[i], states[i + 1])
  }

  lemma RunStep(states: seq<State>, i: nat)
    requires Run(states) && i + 1 < |states|
    ensures Step(states[i], states[i + 1])
  {
  }

  /** Over any run from a sound table every usable cluster is free or in exactly one acyclic
      chain, and free plus chained clusters stay constant. */
  lemma {:induction false} RunKeeps(states: seq<State>, k: nat)
    requires Run(states) && Sound(states[0]) && k < |states|
    ensures Sound(states[k])
    ensures Free(states[k].t) + InChains(states[k]) == Free(states[0].t) + InChains(states[0])
    ensures |Free(states[k].t)| + |InChains(states[k])| == |Free(states[0].t)| + |InChains(states[0])|
  {
    hide *;
    EachOnce(states[0]);
    if k > 0 {
      RunStep(states, k - 1);
      RunKeeps(states, k - 1);
      EachOnce(states[k - 1]);
      StepKeeps(states[k - 1], states[k]);
      EachOnce(states[k]);
    }
  }

  lemma RunStart(a: State)
    ensures Run([a])
  {
  }

  lemma RunMore(states: seq<State>, b: State)
    requires Run(states) && Step(states[|states| - 1], b)
    ensures Run(states + [b])
  {
    hide Step;
    var more := states + [b];
    forall i: nat | i + 1 < |more|
      ensures Step(more[i], more[i + 1])
    {
      if i + 1 < |states| {
        RunStep(states, i);
      }
    }
  }

  /** The end of a run: the partition holds, and no cluster has come or gone. */
  ghost predicate Conserved(a: State, b: State) {
    && Sound(b)
    && Free(b.t) + InChains(b) == Free(a.t) + InChains(a)
    && |Free(b.t)| + |InChains(b)| == |Free(a.t)| + |InChains(a)|
  }

  lemma RunConserves(states: seq<State>)
    requires Run(states) && Sound(states[0])
    ensures Conserved(states[0], states[|states| - 1])
  {
    hide *;
    RunNonempty(states);
    RunKeeps(states, |states| - 1);
    MakeConserved(states[0], states[|states| - 1]);
  }

  lemma RunNonempty(states: seq<State>)
    requires Run(states)
    ensures |states| > 0
  {
  }

  lemma MakeConserved(a: State, b: State)
    requires Sound(b) && Free(b.t) + InChains(b) == Free(a.t) + InChains(a)
    requires |Free(b.t)| + |InChains(b)| == |Free(a.t)| + |InChains(a)|
    ensures Conserved(a, b)
  {
  }
}
