/** Cluster chains in one copy of the allocation table: what a chain is, when chains are not
    cross-linked, and what single table updates do to them. */
module FatChains {
  import opened FatDisk

  /** `cs` is a complete chain: in range, linked one to the next, and end-marked. */
  ghost predicate IsChain(fat: seq<int>, cs: seq<int>) {
    && |cs| > 0
    && (forall i :: 0 <= i < |cs| ==> 2 <= cs[i] < |fat|)
    && (forall i {:trigger cs[i]} :: 0 <= i < |cs| - 1 ==> fat[cs[i]] == cs[i + 1])
    && fat[cs[|cs| - 1]] >= EOC
  }

  /** One chain per file, by some numbering of the files that have clusters. */
  type Chains = map<int, seq<int>>

  ghost predicate Apart(a: seq<int>, b: seq<int>) {
    forall c :: c in a ==> c !in b
  }

  ghost predicate NoCrossLinks(fat: seq<int>, chains: Chains) {
    && (forall f {:trigger IsChain(fat, chains[f])} :: f in chains ==> IsChain(fat, chains[f]))
    && (forall f, g {:trigger Apart(chains[f], chains[g])} :: f in chains && g in chains && f != g ==>
          Apart(chains[f], chains[g]))
  }

  // ---------------------------------------------------------------- chains are determined and finite

  lemma {:induction false} ChainUnique(fat: seq<int>, a: seq<int>, b: seq<int>)
    requires |fat| <= EOC && IsChain(fat, a) && IsChain(fat, b) && a[0] == b[0]
    ensures a == b
  {
    if |a| == 1 || |b| == 1 {
      assert fat[a[0]] == fat[b[0]];
    } else {
      ChainTail(fat, a, 1);
      ChainTail(fat, b, 1);
      ChainUnique(fat, a[1..], b[1..]);
      assert a == [a[0]] + a[1..] && b == [b[0]] + b[1..];
    }
  }

  lemma ChainTail(fat: seq<int>, cs: seq<int>, n: int)
    requires IsChain(fat, cs) && 0 <= n < |cs|
    ensures IsChain(fat, cs[n..])
  {
    forall i | 0 <= i < |cs[n..]| - 1
      ensures fat[cs[n..][i]] == cs[n..][i + 1]
    {
      assert cs[n..][i] == cs[n + i];
    }
  }

  /** A complete chain visits no cluster twice. */
  lemma ChainDistinct(fat: seq<int>, cs: seq<int>, i: int, j: int)
    requires |fat| <= EOC && IsChain(fat, cs) && 0 <= i < j < |cs|
    ensures cs[i] != cs[j]
  {
    var a, b := cs[i..], cs[j..];
    assert |a| != |b|;
    if cs[i] == cs[j] {
      ChainTail(fat, cs, i);
      ChainTail(fat, cs, j);
      ChainUnique(fat, a, b);
    }
  }

  /** Two chains that meet end in the same clusters: cross-linking is sharing a tail. */
  lemma SharedTail(fat: seq<int>, a: seq<int>, b: seq<int>, i: int, j: int)
    requires |fat| <= EOC && IsChain(fat, a) && IsChain(fat, b) && 0 <= i < |a| && 0 <= j < |b| && a[i] == b[j]
    ensures a[i..] == b[j..]
  {
    ChainTail(fat, a, i);
    ChainTail(fat, b, j);
    ChainUnique(fat, a[i..], b[j..]);
  }

  // ---------------------------------------------------------------- table updates

  lemma ChainFrame(fat: seq<int>, fat': seq<int>, cs: seq<int>)
    requires IsChain(fat, cs) && |fat'| == |fat| && forall c {:trigger fat'[c]} :: c in cs ==> fat'[c] == fat[c]
    ensures IsChain(fat', cs)
  {
    forall i | 0 <= i < |cs|
      ensures fat'[cs[i]] == fat[cs[i]]
    {
      assert cs[i] in cs;
    }
  }

  /** A free cluster is in no chain. */
  lemma FreeOutside(fat: seq<int>, cs: seq<int>, c: int)
    requires IsChain(fat, cs) && 0 <= c < |fat| && fat[c] == 0
    ensures c !in cs
  {
    forall i | 0 <= i < |cs|
      ensures fat[cs[i]] != 0
    {
      assert i < |cs| - 1 ==> fat[cs[i]] == cs[i + 1];
    }
  }

  /** Allocating a free cluster disturbs no chain. */
  lemma Allocated(fat: seq<int>, chains: Chains, c: int, v: int)
    requires NoCrossLinks(fat, chains) && 0 <= c < |fat| && fat[c] == 0
    ensures NoCrossLinks(fat[c := v], chains)
  {
    forall f | f in chains
      ensures IsChain(fat[c := v], chains[f])
    {
      FreeOutside(fat, chains[f], c);
      ChainFrame(fat, fat[c := v], chains[f]);
    }
  }

  /** An end-marked cluster that no chain uses becomes the chain of a new file. */
  lemma Started(fat: seq<int>, chains: Chains, f: int, c: int)
    requires NoCrossLinks(fat, chains) && f !in chains && 2 <= c < |fat| && fat[c] >= EOC
    requires forall g :: g in chains ==> c !in chains[g]
    ensures NoCrossLinks(fat, chains[f := [c]])
  {
    var chains' := chains[f := [c]];
    forall g | g in chains'
      ensures IsChain(fat, chains'[g])
    {
      assert g in chains ==> IsChain(fat, chains[g]);
    }
    forall g, h | g in chains' && h in chains' && g != h
      ensures Apart(chains'[g], chains'[h])
    {
      assert g in chains && h in chains ==> Apart(chains[g], chains[h]);
    }
  }

  /** An end-marked cluster that no chain uses is linked behind the end of a chain. */
  lemma Extended(fat: seq<int>, chains: Chains, f: int, c: int)
    requires NoCrossLinks(fat, chains) && f in chains && 2 <= c < |fat| <= EOC && fat[c] >= EOC
    requires forall g :: g in chains ==> c !in chains[g]
    ensures |chains[f]| > 0 && chains[f][|chains[f]| - 1] < |fat| && chains[f][|chains[f]| - 1] >= 0
    ensures NoCrossLinks(fat[chains[f][|chains[f]| - 1] := c], chains[f := chains[f] + [c]])
  {
    var cs := chains[f];
    assert IsChain(fat, cs);
    var last := cs[|cs| - 1];
    var fat' := fat[last := c];
    var chains' := chains[f := cs + [c]];
    forall g | g in chains'
      ensures IsChain(fat', chains'[g])
    {
      if g == f {
        ExtendedChain(fat, cs, c);
      } else {
        assert IsChain(fat, chains[g]) && Apart(chains[f], chains[g]);
        assert last in cs;
        ChainFrame(fat, fat', chains[g]);
      }
    }
    forall g, h | g in chains' && h in chains' && g != h
      ensures Apart(chains'[g], chains'[h])
    {
      assert Apart(chains[g], chains[h]);
    }
  }

  lemma ExtendedChain(fat: seq<int>, cs: seq<int>, c: int)
    requires IsChain(fat, cs) && 2 <= c < |fat| <= EOC && fat[c] >= EOC && c !in cs
    ensures IsChain(fat[cs[|cs| - 1] := c], cs + [c])
  {
    var n := |cs| - 1;
    var fat' := fat[cs[n] := c];
    var cs' := cs + [c];
    assert cs[n] in cs;
    forall i | 0 <= i < |cs'| - 1
      ensures fat'[cs'[i]] == cs'[i + 1]
    {
      if i < n {
        ChainDistinct(fat, cs, i, n);
        assert fat[cs[i]] == cs[i + 1];
      }
    }
  }

  /** A chain is cut behind its `n`-th cluster; what was behind it is no longer linked. */
  lemma CutChain(fat: seq<int>, cs: seq<int>, n: int, v: int)
    requires IsChain(fat, cs) && 0 < n <= |cs| && |fat| <= EOC && v >= EOC
    ensures IsChain(fat[cs[n - 1] := v], cs[..n])
  {
    var fat' := fat[cs[n - 1] := v];
    forall i | 0 <= i < n - 1
      ensures fat'[cs[..n][i]] == cs[..n][i + 1]
    {
      ChainDistinct(fat, cs, i, n - 1);
      assert fat[cs[i]] == cs[i + 1];
    }
  }

  // ---------------------------------------------------------------- freeing

  /** The table with the clusters of `cs` free. */
  ghost predicate Freed(fat: seq<int>, fat': seq<int>, cs: seq<int>) {
    |fat'| == |fat| && forall c {:trigger fat'[c]} :: 0 <= c < |fat| ==> fat'[c] == if c in cs then 0 else fat[c]
  }

  /** What an operation on one file does to the table, whose chain was `cs` and is `cs'`: clusters that it gave back are
      free, clusters that it took were free, and clusters in neither keep their entries. */
  ghost predicate TableStep(fat: seq<int>, fat': seq<int>, cs: seq<int>, cs': seq<int>) {
    && |fat'| == |fat|
    && forall c {:trigger fat'[c]} {:trigger fat[c]} :: 0 <= c < |fat| ==>
         && (c in cs && c !in cs' ==> fat'[c] == 0)
         && (c !in cs && c in cs' ==> fat[c] == 0)
         && (c !in cs && c !in cs' ==> fat'[c] == fat[c])
  }

  lemma StepSame(fat: seq<int>, cs: seq<int>)
    ensures TableStep(fat, fat, cs, cs)
  {}

  lemma StepTrans(fat0: seq<int>, fat1: seq<int>, fat2: seq<int>, cs0: seq<int>, cs1: seq<int>, cs2: seq<int>)
    requires TableStep(fat0, fat1, cs0, cs1) && TableStep(fat1, fat2, cs1, cs2)
    ensures TableStep(fat0, fat2, cs0, cs2)
  {}

  /** A file's first cluster is taken; */
  lemma StepStarted(fat: seq<int>, c: int)
    requires 0 <= c < |fat| && fat[c] == 0
    ensures TableStep(fat, fat[c := EOC], [], [c])
  {}

  /** a further one is taken, and entries change only there and in the chain; */
  lemma StepAppended(fat: seq<int>, fat': seq<int>, cs: seq<int>, c: int)
    requires 0 <= c < |fat| && fat[c] == 0 && KeptBut(fat[c := EOC], fat', cs, c)
    ensures TableStep(fat, fat', cs, cs + [c])
  {}

  ghost predicate KeptBut(fat: seq<int>, fat': seq<int>, cs: seq<int>, c: int) {
    |fat'| == |fat| && forall b {:trigger fat'[b]} :: 0 <= b < |fat| && b !in cs && b != c ==> fat'[b] == fat[b]
  }

  /** the clusters behind the first `n` are given back, and the last one kept is end-marked. */
  lemma StepCut(fat: seq<int>, fat': seq<int>, cs: seq<int>, n: int)
    requires IsChain(fat, cs) && 0 < n <= |cs| && |fat| <= EOC && Freed(fat, fat', cs[n..])
    ensures 0 <= cs[n - 1] < |fat'| && TableStep(fat, fat'[cs[n - 1] := EOC], cs, cs[..n])
  {}

  lemma StepFreed(fat: seq<int>, fat': seq<int>, cs: seq<int>)
    requires Freed(fat, fat', cs)
    ensures TableStep(fat, fat', cs, [])
  {}

  /** A file's chain is freed: the others are untouched. */
  lemma FreedChain(fat: seq<int>, fat': seq<int>, chains: Chains, f: int)
    requires NoCrossLinks(fat, chains) && f in chains && Freed(fat, fat', chains[f])
    ensures NoCrossLinks(fat', chains - {f})
  {
    forall g | g in chains - {f}
      ensures IsChain(fat', (chains - {f})[g])
    {
      assert IsChain(fat, chains[g]) && Apart(chains[g], chains[f]);
      ChainFrame(fat, fat', chains[g]);
    }
    forall g, h | g in chains - {f} && h in chains - {f} && g != h
      ensures Apart((chains - {f})[g], (chains - {f})[h])
    {
      assert Apart(chains[g], chains[h]);
    }
  }

  /** A file's chain is cut, and what was behind freed: the others are untouched. */
  lemma ShortenedChain(fat: seq<int>, fat': seq<int>, chains: Chains, f: int, n: int, v: int)
    requires NoCrossLinks(fat, chains) && f in chains && 0 < n <= |chains[f]| && |fat| <= EOC && v >= EOC
    requires Freed(fat, fat', chains[f][n..])
    ensures 0 <= chains[f][n - 1] < |fat'|
    ensures NoCrossLinks(fat'[chains[f][n - 1] := v], chains[f := chains[f][..n]])
  {
    var cs := chains[f];
    assert IsChain(fat, cs);
    var chains' := chains[f := cs[..n]];
    var fat2 := fat'[cs[n - 1] := v];
    CutChain(fat, cs, n, v);
    forall i | 0 <= i < n
      ensures cs[i] !in cs[n..]
    {
      forall j | n <= j < |cs|
        ensures cs[i] != cs[j]
      {
        ChainDistinct(fat, cs, i, j);
      }
    }
    ChainFrame(fat[cs[n - 1] := v], fat2, cs[..n]);
    forall g | g in chains'
      ensures IsChain(fat2, chains'[g])
    {
      if g != f {
        assert IsChain(fat, chains[g]) && Apart(chains[f], chains[g]);
        assert cs[n - 1] in cs;
        ChainFrame(fat, fat2, chains[g]);
      }
    }
    forall g, h | g in chains' && h in chains' && g != h
      ensures Apart(chains'[g], chains'[h])
    {
      assert Apart(chains[g], chains[h]);
    }
  }

  /** Is `c` a link, not a mark? */
  predicate IsLink(c: int) { 2 <= c < EOC }

  /** Every mark that ends a chain is the one that `fat_allocate` writes, the least of the eight. */
  ghost predicate ExactMarks(fat: seq<int>) {
    forall c {:trigger fat[c]} :: 2 <= c < |fat| ==> fat[c] <= EOC
  }

  ghost predicate NoneFreeBelow(fat: seq<int>, n: int) {
    forall c {:trigger fat[c]} :: 2 <= c < n && c < |fat| ==> fat[c] != 0
  }

  /** As `IsChain`, but the last entry may be any value that is not a link. */
  ghost predicate IsWalk(fat: seq<int>, cs: seq<int>) {
    && |cs| > 0
    && (forall i :: 0 <= i < |cs| ==> 2 <= cs[i] < |fat|)
    && (forall i {:trigger cs[i]} :: 0 <= i < |cs| - 1 ==> fat[cs[i]] == cs[i + 1])
    && !IsLink(fat[cs[|cs| - 1]])
  }

  lemma ChainIsWalk(fat: seq<int>, cs: seq<int>)
    requires IsChain(fat, cs)
    ensures IsWalk(fat, cs)
  {}

  /** The free entries from cluster 2 up to `n`. */
  function CountFree(fat: seq<int>, n: int): (r: int)
    requires 2 <= n <= |fat|
    ensures 0 <= r <= n - 2
  {
    if n == 2 then 0 else CountFree(fat, n - 1) + if fat[n - 1] == 0 then 1 else 0
  }

  lemma {:induction false} CountUpdated(fat: seq<int>, n: int, c: int, v: int)
    requires 2 <= n <= |fat| && 0 <= c < |fat|
    ensures CountFree(fat[c := v], n) ==
      CountFree(fat, n) + if 2 <= c < n then (if v == 0 then 1 else 0) - (if fat[c] == 0 then 1 else 0) else 0
  {
    if n > 2 {
      CountUpdated(fat, n - 1, c, v);
    }
  }

  /** A link to a cluster of the table. */
  predicate InTable(fat: seq<int>, c: int) { IsLink(c) && c < |fat| }

  /** The walk of `fat_free_chain`: the table it leaves, and how many clusters it counts as freed. */
  function FreeRun(fat: seq<int>, start: int): (r: (seq<int>, int))
    requires |fat| >= 2
    ensures |r.0| == |fat| && r.1 >= 0
    decreases |fat| - CountFree(fat, |fat|), if InTable(fat, start) && fat[start] == 0 then 1 else 0,
              if InTable(fat, start) then 1 else 0
  {
    if !InTable(fat, start) then (fat, 0)
    else
      CountUpdated(fat, |fat|, start, 0);
      var (fat', n) := FreeRun(fat[start := 0], fat[start]);
      (fat', n + 1)
  }

  /** Freeing a complete chain frees exactly its clusters and counts each of them once. */
  lemma {:induction false} FreeRunChain(fat: seq<int>, cs: seq<int>)
    requires IsChain(fat, cs) && |fat| <= EOC
    ensures 2 <= cs[0] < |fat| && Freed(fat, FreeRun(fat, cs[0]).0, cs) && FreeRun(fat, cs[0]).1 == |cs|
    decreases |cs|
  {
    var c := cs[0];
    if |cs| > 1 {
      ChainTail(fat, cs, 1);
      forall j | 1 <= j < |cs|
        ensures cs[j] != c
      {
        ChainDistinct(fat, cs, 0, j);
      }
      ChainFrame(fat, fat[c := 0], cs[1..]);
      FreeRunChain(fat[c := 0], cs[1..]);
      assert cs == [c] + cs[1..];
    }
  }

  ghost predicate StillOrZero(fat: seq<int>, fat': seq<int>) {
    |fat'| == |fat| && forall c {:trigger fat'[c]} :: 0 <= c < |fat| ==> fat'[c] == fat[c] || fat'[c] == 0
  }

  /** Freeing from any cluster of any table, cyclic or not: entries are kept or become free, the walk frees
      whatever the start leads to, and the clusters are counted right unless the walk ends at a cluster that
      was free, or that it freed itself. */
  lemma {:induction false} FreeRunAny(fat: seq<int>, start: int)
    requires |fat| >= 2
    ensures var (fat', n) := FreeRun(fat, start);
      && StillOrZero(fat, fat') && (InTable(fat, start) ==> fat'[start] == 0)
      && (forall c {:trigger fat[c]} :: 0 <= c < |fat| && fat'[c] != fat[c] && InTable(fat, fat[c]) ==> fat'[fat[c]] == 0)
      && n == CountFree(fat', |fat|) - CountFree(fat, |fat|) + if InTable(fat, start) && EndsFree(fat, start) then 1 else 0
    decreases |fat| - CountFree(fat, |fat|), if InTable(fat, start) && fat[start] == 0 then 1 else 0,
              if InTable(fat, start) then 1 else 0
  {
    if InTable(fat, start) {
      CountUpdated(fat, |fat|, start, 0);
      var fat1 := fat[start := 0];
      FreeRunAny(fat1, fat[start]);
      var fat' := FreeRun(fat, start).0;
      forall c | 0 <= c < |fat| && fat'[c] != fat[c] && InTable(fat, fat[c])
        ensures fat'[fat[c]] == 0
      {
        assert c != start ==> fat1[c] == fat[c];
      }
    }
  }

  /** The walk from `start` comes to a free cluster, counting those that it freed. */
  predicate EndsFree(fat: seq<int>, start: int)
    requires InTable(fat, start)
    decreases |fat| - CountFree(fat, |fat|)
  {
    if fat[start] == 0 then true
    else if !InTable(fat, fat[start]) then false
    else
      CountUpdated(fat, |fat|, start, 0);
      EndsFree(fat[start := 0], fat[start])
  }

  lemma {:induction false} ChainEndsMarked(fat: seq<int>, cs: seq<int>)
    requires IsChain(fat, cs) && |fat| <= EOC
    ensures 2 <= cs[0] < |fat| && !EndsFree(fat, cs[0])
    decreases |cs|
  {
    var c := cs[0];
    if |cs| > 1 {
      ChainTail(fat, cs, 1);
      forall j | 1 <= j < |cs|
        ensures cs[j] != c
      {
        ChainDistinct(fat, cs, 0, j);
      }
      ChainFrame(fat, fat[c := 0], cs[1..]);
      ChainEndsMarked(fat[c := 0], cs[1..]);
    }
  }

  /** The clusters in `reach` link only among themselves, and to clusters of the table. */
  ghost predicate Closed(fat: seq<int>, reach: set<int>) {
    forall c {:trigger fat[c]} :: 0 <= c < |fat| && c in reach && IsLink(fat[c]) ==> fat[c] in reach && fat[c] < |fat|
  }

  /** Some of the clusters in `reach` are free now, the rest of the table is as it was. */
  ghost predicate FreedWithin(fat: seq<int>, fat': seq<int>, reach: set<int>) {
    && |fat'| == |fat|
    && forall c {:trigger fat'[c]} :: 0 <= c < |fat| ==> fat'[c] == fat[c] || (c in reach && fat'[c] == 0)
  }

  ghost function ClustersOf(cs: seq<int>): set<int> { set c | c in cs }

  lemma ChainClosed(fat: seq<int>, cs: seq<int>)
    requires IsChain(fat, cs)
    ensures Closed(fat, ClustersOf(cs)) && cs[0] in ClustersOf(cs)
  {
    forall c | 0 <= c < |fat| && c in ClustersOf(cs) && IsLink(fat[c])
      ensures fat[c] in ClustersOf(cs)
    {
      var i :| 0 <= i < |cs| && cs[i] == c;
      assert i < |cs| - 1 && fat[cs[i]] == cs[i + 1];
    }
  }

  /** The `n`-th cluster of a walk along the links; it stays where it comes to no cluster of the table. */
  function WalkTo(fat: seq<int>, start: int, n: nat): int
    decreases n
  {
    if n == 0 || !InTable(fat, start) then start else WalkTo(fat, fat[start], n - 1)
  }

  lemma {:induction false} WalkToChain(fat: seq<int>, cs: seq<int>, n: nat)
    requires IsChain(fat, cs) && |fat| <= EOC
    ensures 2 <= cs[0] < |fat| && if n < |cs| then WalkTo(fat, cs[0], n) == cs[n] else WalkTo(fat, cs[0], n) >= EOC
    decreases n
  {
    if n > 0 {
      if |cs| == 1 {
        assert !IsLink(fat[cs[0]]);
      } else {
        ChainTail(fat, cs, 1);
        WalkToChain(fat, cs[1..], n - 1);
      }
    }
  }
}
