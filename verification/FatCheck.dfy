/** The consistency check: marking the chains of all files, and comparing the copies of the table. */
module FatCheck {
  import opened FatDisk
  import opened FatChains
  import opened FatData
  import opened FatSystem

  // ---------------------------------------------------------------- marking chains

  /** How often a cluster can still be visited before its 8-bit reference count stops the walk: the count
      wraps around from 255 to 0. */
  function Rank(count: int): nat {
    if count == 255 then 2 else if count == 0 then 1 else 0
  }

  function RankSum(refs: seq<int>): nat {
    if refs == [] then 0 else RankSum(refs[..|refs| - 1]) + Rank(refs[|refs| - 1])
  }

  lemma {:induction false} RankUpdated(refs: seq<int>, c: int, v: int)
    requires 0 <= c < |refs|
    ensures RankSum(refs[c := v]) == RankSum(refs) + Rank(v) - Rank(refs[c])
  {
    var n := |refs| - 1;
    if c < n {
      RankUpdated(refs[..n], c, v);
      assert refs[c := v][..n] == refs[..n][c := v];
    } else {
      assert refs[c := v][..n] == refs[..n];
    }
  }

  ghost predicate Counts(refs: seq<int>) { forall c :: 0 <= c < |refs| ==> 0 <= refs[c] < 256 }

  /** What a walk from `c` makes of the counts, and how it ends: 0 at an entry that is not a link, 1 at a
      cluster seen before, -1 outside the table. */
  ghost function MarkRun(fat: seq<int>, refs: seq<int>, c: int): (r: (seq<int>, int))
    requires |refs| == |fat| && Counts(refs)
    ensures |r.0| == |fat| && Counts(r.0)
    decreases RankSum(refs)
  {
    if !IsLink(c) then (refs, 0)
    else if c >= |fat| then (refs, -1)
    else
      var count := (refs[c] + 1) % 256;
      if count > 1 || fat[c] == c then (refs[c := count], 1)
      else
        RankUpdated(refs, c, count);
        MarkRun(fat, refs[c := count], fat[c])
  }

  /** `fsck_mark_chain` ends on every table, and does what `MarkRun` says. */
  method FsckMarkChain(fs: FileSys, refcount: array<int>, start: int, crossLinks: int)
    returns (ok: bool, result: int, crossLinks': int)
    requires fs.Ready() && refcount.Length == fs.g.totalClusters && Counts(refcount[..]) && start >= 0
    modifies refcount, fs`sector, fs`secLba
    ensures ok ==> fs.Ready() && Counts(refcount[..])
    ensures ok ==> (refcount[..], result) == MarkRun(fs.Fat(), old(refcount[..]), start)
    ensures ok ==> crossLinks' == crossLinks + if result == 1 then 1 else 0
    ensures !ok ==> result == -1
    ensures fs.reliable ==> ok
  {
    hide DiskOk, SectorOk, Copy, Mirrored, RankSum;
    ghost var fat, refs0, disk0 := fs.Fat(), refcount[..], fs.disk;
    ok, result, crossLinks' := true, 0, crossLinks;
    var c := start;
    while IsLink(c)
      invariant fs.Ready() && fs.disk == disk0 && fs.Fat() == fat && Counts(refcount[..])
      invariant MarkRun(fat, refcount[..], c) == MarkRun(fat, refs0, start)
      decreases RankSum(refcount[..])
    {
      if c >= refcount.Length {
        result := -1;
        return;
      }
      ghost var refs := refcount[..];
      RankUpdated(refs, c, (refs[c] + 1) % 256);
      refcount[c] := (refcount[c] + 1) % 256;
      assert refcount[..] == refs[c := (refs[c] + 1) % 256];
      if refcount[c] > 1 {
        crossLinks' := crossLinks' + 1;
        result := 1;
        return;
      }
      var next;
      ok, next := fs.FatGet(c);
      if !ok {
        result := -1;
        return;
      }
      if next == c {
        crossLinks' := crossLinks' + 1;
        result := 1;
        return;
      }
      c := next;
    }
  }

  /** The counts after the chains in `walks` were marked: one for each of their clusters, else zero. */
  ghost predicate Marked(fat: seq<int>, refs: seq<int>, walks: seq<seq<int>>) {
    && |refs| == |fat| && Counts(refs)
    && (forall c :: 0 <= c < |fat| ==> refs[c] == if exists k :: 0 <= k < |walks| && c in walks[k] then 1 else 0)
    && (forall k {:trigger walks[k]} :: 0 <= k < |walks| ==> IsWalk(fat, walks[k]) && Distinct(walks[k]))
    && (forall k, k' {:trigger walks[k], walks[k']} :: 0 <= k < k' < |walks| ==> Apart(walks[k], walks[k']))
  }

  lemma MarkStep(fat: seq<int>, refs: seq<int>, c: int)
    requires |refs| == |fat| && Counts(refs) && (forall b :: 0 <= b < |fat| ==> refs[b] <= 1) && IsLink(c)
    requires MarkRun(fat, refs, c).1 == 0
    ensures c < |fat| && refs[c] == 0 && RankSum(refs[c := 1]) < RankSum(refs)
    ensures MarkRun(fat, refs, c) == MarkRun(fat, refs[c := 1], fat[c])
  {
    if c < |fat| {
      RankUpdated(refs, c, 1);
    }
  }

  /** The table after the clusters of `cs` were counted. */
  ghost predicate Counted(refs: seq<int>, refs': seq<int>, cs: seq<int>) {
    |refs'| == |refs| && forall b {:trigger refs'[b]} :: 0 <= b < |refs| ==> refs'[b] == if b in cs then 1 else refs[b]
  }

  /** A walk that ends well visited a fresh chain of clusters, and counted each of them. */
  lemma {:induction false} WalkMarked(fat: seq<int>, refs: seq<int>, c: int) returns (cs: seq<int>)
    requires |refs| == |fat| && Counts(refs) && (forall b :: 0 <= b < |fat| ==> refs[b] <= 1) && IsLink(c)
    requires MarkRun(fat, refs, c).1 == 0
    ensures IsWalk(fat, cs) && cs[0] == c && Distinct(cs)
    ensures Counted(refs, MarkRun(fat, refs, c).0, cs)
    ensures forall i :: 0 <= i < |cs| ==> refs[cs[i]] == 0
    decreases RankSum(refs)
  {
    MarkStep(fat, refs, c);
    hide RankSum;
    var refs1 := refs[c := 1];
    if IsLink(fat[c]) {
      hide MarkRun;
      var rest := WalkMarked(fat, refs1, fat[c]);
      cs := [c] + rest;
      Prepended(fat, refs, MarkRun(fat, refs1, fat[c]).0, c, rest);
    } else {
      cs := [c];
    }
  }

  lemma Prepended(fat: seq<int>, refs: seq<int>, refs': seq<int>, c: int, rest: seq<int>)
    requires 2 <= c < |fat| == |refs| && IsWalk(fat, rest) && rest[0] == fat[c] && Distinct(rest) && refs[c] == 0
    requires Counted(refs[c := 1], refs', rest) && forall i :: 0 <= i < |rest| ==> refs[c := 1][rest[i]] == 0
    ensures var cs := [c] + rest;
      && IsWalk(fat, cs) && Distinct(cs) && Counted(refs, refs', cs) && forall i :: 0 <= i < |cs| ==> refs[cs[i]] == 0
  {
    var cs := [c] + rest;
    assert forall i :: 0 <= i < |rest| ==> rest[i] != c;
    WalkPrepended(fat, c, rest);
    CountedPrepended(refs, refs', c, rest);
    hide IsLink, Counted;
    assert forall i :: 0 < i < |cs| ==> cs[i] == rest[i - 1];
  }

  lemma WalkPrepended(fat: seq<int>, c: int, rest: seq<int>)
    requires 2 <= c < |fat| && IsWalk(fat, rest) && rest[0] == fat[c]
    ensures IsWalk(fat, [c] + rest)
  {
    var cs := [c] + rest;
    hide IsLink;
    forall i | 0 <= i < |cs| - 1
      ensures fat[cs[i]] == cs[i + 1]
    {
      if i > 0 {
        assert cs[i] == rest[i - 1] && cs[i + 1] == rest[i];
      }
    }
  }

  lemma CountedPrepended(refs: seq<int>, refs': seq<int>, c: int, rest: seq<int>)
    requires 0 <= c < |refs| && Counted(refs[c := 1], refs', rest)
    ensures Counted(refs, refs', [c] + rest)
  {}

  /** Conversely, a fresh chain is marked without complaint. */
  lemma {:induction false} FreshWalkMarks(fat: seq<int>, refs: seq<int>, cs: seq<int>)
    requires |refs| == |fat| && Counts(refs) && IsWalk(fat, cs) && Distinct(cs) && |fat| <= EOC
    requires forall i :: 0 <= i < |cs| ==> refs[cs[i]] == 0
    ensures MarkRun(fat, refs, cs[0]).1 == 0
    decreases |cs|
  {
    var c := cs[0];
    if |cs| > 1 {
      assert fat[c] == cs[1];
      RankUpdated(refs, c, 1);
      FreshWalkMarks(fat, refs[c := 1], cs[1..]);
    }
  }

  /** Fsck's pass over the files: with counts that start at zero, a file is marked without complaint exactly
      when it starts a chain that ends, repeats no cluster and shares none with the files before it. */
  lemma MarkedNext(fat: seq<int>, refs: seq<int>, walks: seq<seq<int>>, start: int)
    requires Marked(fat, refs, walks) && IsLink(start) && |fat| <= EOC
    ensures MarkRun(fat, refs, start).1 == 0 <==>
      exists cs {:trigger IsWalk(fat, cs)} ::
        IsWalk(fat, cs) && cs[0] == start && Distinct(cs) && forall k :: 0 <= k < |walks| ==> Apart(walks[k], cs)
    ensures MarkRun(fat, refs, start).1 == 0 ==>
      exists cs {:trigger IsWalk(fat, cs)} ::
        IsWalk(fat, cs) && cs[0] == start && Marked(fat, MarkRun(fat, refs, start).0, walks + [cs])
  {
    if MarkRun(fat, refs, start).1 == 0 {
      var cs := WalkMarked(fat, refs, start);
      FreshIsApart(fat, refs, walks, cs);
      MarkedAlso(fat, refs, MarkRun(fat, refs, start).0, walks, cs);
    }
    if cs {:trigger IsWalk(fat, cs)} :|
      IsWalk(fat, cs) && cs[0] == start && Distinct(cs) && forall k :: 0 <= k < |walks| ==> Apart(walks[k], cs)
    {
      ApartIsFresh(fat, refs, walks, cs);
      FreshWalkMarks(fat, refs, cs);
    }
  }

  lemma FreshIsApart(fat: seq<int>, refs: seq<int>, walks: seq<seq<int>>, cs: seq<int>)
    requires Marked(fat, refs, walks) && IsWalk(fat, cs) && forall i :: 0 <= i < |cs| ==> refs[cs[i]] == 0
    ensures forall k :: 0 <= k < |walks| ==> Apart(walks[k], cs)
  {
    forall k, c | 0 <= k < |walks| && c in walks[k]
      ensures c !in cs
    {
      assert IsWalk(fat, walks[k]);
      assert refs[c] == 1;
    }
  }

  lemma ApartIsFresh(fat: seq<int>, refs: seq<int>, walks: seq<seq<int>>, cs: seq<int>)
    requires Marked(fat, refs, walks) && IsWalk(fat, cs) && forall k :: 0 <= k < |walks| ==> Apart(walks[k], cs)
    ensures forall i :: 0 <= i < |cs| ==> refs[cs[i]] == 0
  {
    forall i | 0 <= i < |cs|
      ensures refs[cs[i]] == 0
    {
      assert cs[i] in cs;
      forall k | 0 <= k < |walks|
        ensures cs[i] !in walks[k]
      {
        assert Apart(walks[k], cs);
      }
    }
  }

  lemma MarkedAlso(fat: seq<int>, refs: seq<int>, refs': seq<int>, walks: seq<seq<int>>, cs: seq<int>)
    requires Marked(fat, refs, walks) && IsWalk(fat, cs) && Distinct(cs) && Counted(refs, refs', cs) && Counts(refs')
    requires forall k :: 0 <= k < |walks| ==> Apart(walks[k], cs)
    ensures Marked(fat, refs', walks + [cs])
  {
    var walks' := walks + [cs];
    forall c | 0 <= c < |fat|
      ensures refs'[c] == if exists k :: 0 <= k < |walks'| && c in walks'[k] then 1 else 0
    {
      if c in cs {
        assert c in walks'[|walks|];
      } else if exists k :: 0 <= k < |walks| && c in walks[k] {
        var k :| 0 <= k < |walks| && c in walks[k];
        assert c in walks'[k];
      }
    }
    forall k, k' | 0 <= k < k' < |walks'|
      ensures Apart(walks'[k], walks'[k'])
    {
      assert k' < |walks| ==> Apart(walks[k], walks[k']);
    }
  }

  // ---------------------------------------------------------------- marking all files

  /** The files that start at `starts` have chains that end, at an end mark or at a free entry, repeat no cluster and
      share none. */
  ghost predicate FilesFine(fat: seq<int>, starts: seq<int>, walks: seq<seq<int>>) {
    && |walks| == |starts|
    && (forall k {:trigger walks[k]} :: 0 <= k < |walks| ==>
          IsWalk(fat, walks[k]) && walks[k][0] == starts[k] && Distinct(walks[k]))
    && (forall k, k' {:trigger walks[k], walks[k']} :: 0 <= k < k' < |walks| ==> Apart(walks[k], walks[k']))
  }

  ghost predicate Fine(fat: seq<int>, starts: seq<int>) {
    exists walks :: FilesFine(fat, starts, walks)
  }

  lemma {:induction false} WalkUnique(fat: seq<int>, a: seq<int>, b: seq<int>)
    requires |fat| <= EOC && IsWalk(fat, a) && IsWalk(fat, b) && a[0] == b[0]
    ensures a == b
    decreases |a|
  {
    if |a| > 1 && |b| > 1 {
      assert fat[a[0]] == a[1] && fat[b[0]] == b[1];
      WalkTail(fat, a);
      WalkTail(fat, b);
      WalkUnique(fat, a[1..], b[1..]);
      assert a == [a[0]] + a[1..] && b == [b[0]] + b[1..];
    }
  }

  lemma WalkTail(fat: seq<int>, a: seq<int>)
    requires IsWalk(fat, a) && |a| > 1
    ensures IsWalk(fat, a[1..])
  {
    forall i | 0 <= i < |a[1..]| - 1
      ensures fat[a[1..][i]] == a[1..][i + 1]
    {
      assert a[1..][i] == a[i + 1];
    }
  }

  /** There is one set of chains at most. */
  lemma FilesUnique(fat: seq<int>, starts: seq<int>, v: seq<seq<int>>, w: seq<seq<int>>)
    requires |fat| <= EOC && FilesFine(fat, starts, v) && FilesFine(fat, starts, w)
    ensures v == w
  {
    forall k | 0 <= k < |v|
      ensures v[k] == w[k]
    {
      WalkUnique(fat, v[k], w[k]);
    }
  }

  lemma FewerFine(fat: seq<int>, starts: seq<int>, k: int)
    requires Fine(fat, starts) && 0 <= k <= |starts|
    ensures Fine(fat, starts[..k])
  {
    var w :| FilesFine(fat, starts, w);
    assert FilesFine(fat, starts[..k], w[..k]);
  }

  /** The next file is fine together with those before it exactly when it is marked without complaint. */
  lemma NextFile(fat: seq<int>, refs: seq<int>, starts: seq<int>, k: int, walks: seq<seq<int>>) returns (walks': seq<seq<int>>)
    requires 0 <= k < |starts| && IsLink(starts[k]) && |fat| <= EOC
    requires Marked(fat, refs, walks) && FilesFine(fat, starts[..k], walks)
    ensures MarkRun(fat, refs, starts[k]).1 == 0 ==>
      FilesFine(fat, starts[..k + 1], walks') && Marked(fat, MarkRun(fat, refs, starts[k]).0, walks')
    ensures MarkRun(fat, refs, starts[k]).1 != 0 ==> !Fine(fat, starts[..k + 1])
  {
    hide MarkRun, Distinct;
    MarkedNext(fat, refs, walks, starts[k]);
    walks' := walks;
    if MarkRun(fat, refs, starts[k]).1 == 0 {
      var cs {:trigger IsWalk(fat, cs)} :|
        IsWalk(fat, cs) && cs[0] == starts[k] && Marked(fat, MarkRun(fat, refs, starts[k]).0, walks + [cs]);
      walks' := walks + [cs];
      MarkedAreFine(fat, MarkRun(fat, refs, starts[k]).0, walks');
    } else if Fine(fat, starts[..k + 1]) {
      var w :| FilesFine(fat, starts[..k + 1], w);
      LastIsFresh(fat, starts, k, walks, w);
    }
  }

  lemma LastIsFresh(fat: seq<int>, starts: seq<int>, k: int, walks: seq<seq<int>>, w: seq<seq<int>>)
    requires 0 <= k < |starts| && |fat| <= EOC
    requires FilesFine(fat, starts[..k], walks) && FilesFine(fat, starts[..k + 1], w)
    ensures IsWalk(fat, w[k]) && w[k][0] == starts[k] && Distinct(w[k]) && forall j :: 0 <= j < k ==> Apart(walks[j], w[k])
  {
    hide IsWalk, Distinct, Apart;
    assert starts[..k + 1][..k] == starts[..k];
    assert FilesFine(fat, starts[..k], w[..k]);
    FilesUnique(fat, starts[..k], w[..k], walks);
    assert forall j :: 0 <= j < k ==> w[j] == w[..k][j];
  }

  lemma MarkedAreFine(fat: seq<int>, refs: seq<int>, walks: seq<seq<int>>)
    requires Marked(fat, refs, walks)
    ensures forall k {:trigger walks[k]} :: 0 <= k < |walks| ==> IsWalk(fat, walks[k]) && Distinct(walks[k])
    ensures forall k, k' {:trigger walks[k], walks[k']} :: 0 <= k < k' < |walks| ==> Apart(walks[k], walks[k'])
  {}

  /** The loop of `fsck` over the files that it finds: each chain is marked, and then its clusters are counted,
      whatever the marking found.  On a chain without an end the code counts forever, or leaves the table; `hung`
      says that. */
  method FsckMarkFiles(fs: FileSys, refcount: array<int>, starts: seq<int>, sizes: seq<int>)
    returns (ok: bool, hung: bool, invalid: int, mismatches: int, ghost walks: seq<seq<int>>)
    requires fs.Ready() && fs.g.totalClusters <= EOC && forall k :: 0 <= k < |starts| ==> 2 <= starts[k] < fs.g.totalClusters
    requires refcount.Length == fs.g.totalClusters && forall c :: 0 <= c < refcount.Length ==> refcount[c] == 0
    requires |sizes| == |starts|
    modifies refcount, fs`sector, fs`secLba
    ensures ok ==> fs.Ready() && (hung <==> exists k :: 0 <= k < |starts| && !Ends(fs.Fat(), starts[k]))
    ensures ok && !hung ==> 0 <= invalid <= |starts| && (invalid == 0 <==> Fine(fs.Fat(), starts))
    ensures ok && !hung ==> 0 <= mismatches <= |starts| && (mismatches == 0 <==> SizesFit(fs.g, fs.Fat(), starts, sizes, |starts|))
    ensures ok && !hung && invalid == 0 ==> FilesFine(fs.Fat(), starts, walks) && Marked(fs.Fat(), refcount[..], walks)
    ensures fs.reliable ==> ok
  {
    hide DiskOk, SectorOk, Copy, Mirrored, MarkRun, IsWalk, Distinct, Marked, FilesFine, Fine, SizeFits;
    ghost var fat := fs.Fat();
    ok, hung, invalid, mismatches, walks := true, false, 0, 0, [];
    NoneMarked(fat, refcount[..]);
    var crossLinks := 0;
    assert starts[..0] == [];
    for k := 0 to |starts|
      invariant fs.Ready() && fs.disk == old(fs.disk) && fs.Fat() == fat && Counts(refcount[..])
      invariant 0 <= invalid <= k && 0 <= mismatches <= k
      invariant if invalid == 0 then Marked(fat, refcount[..], walks) && FilesFine(fat, starts[..k], walks) else !Fine(fat, starts[..k])
      invariant forall j :: 0 <= j < k ==> Ends(fat, starts[j])
      invariant mismatches == 0 <==> SizesFit(fs.g, fat, starts, sizes, k)
    {
      var result;
      ghost var walks' := walks;
      if invalid == 0 {
        walks' := NextFile(fat, refcount[..], starts, k, walks);
      } else {
        StillNotFine(fat, starts, k);
      }
      ok, result, crossLinks := FsckMarkChain(fs, refcount, starts[k], crossLinks);
      if !ok {
        return;
      }
      if result != 0 {
        invalid := invalid + 1;
      } else {
        walks := walks';
      }
      var len;
      ok, len := FsckChainLength(fs, starts[k]);
      if !ok {
        return;
      }
      if !len.Ended? {
        hung := true;
        return;
      }
      SizeOfWalk(fs.g, fat, starts[k], len.n, sizes[k]);
      if len.n * ClusterBytes(fs.g) % U32 < sizes[k] {
        mismatches := mismatches + 1;
      }
    }
    assert starts[..|starts|] == starts;
    ok := true;
    FineWhen(fat, starts, walks);
  }

  /** A chain that ends begins at `start`. */
  ghost predicate Ends(fat: seq<int>, start: int) {
    exists cs {:trigger IsWalk(fat, cs)} :: IsWalk(fat, cs) && cs[0] == start
  }

  /** The chain from `start` has room for `size` bytes, as 32-bit words count. */
  ghost predicate SizeFits(g: Geometry, fat: seq<int>, start: int, size: int) {
    forall cs {:trigger IsWalk(fat, cs)} :: IsWalk(fat, cs) && cs[0] == start ==> size <= |cs| * ClusterBytes(g) % U32
  }

  ghost predicate SizesFit(g: Geometry, fat: seq<int>, starts: seq<int>, sizes: seq<int>, n: int)
    requires n <= |starts| == |sizes|
  {
    forall k {:trigger starts[k]} :: 0 <= k < n ==> SizeFits(g, fat, starts[k], sizes[k])
  }

  lemma SizeOfWalk(g: Geometry, fat: seq<int>, start: int, n: int, size: int)
    requires |fat| <= EOC && exists cs {:trigger IsWalk(fat, cs)} :: IsWalk(fat, cs) && cs[0] == start && |cs| == n
    ensures SizeFits(g, fat, start, size) <==> !(n * ClusterBytes(g) % U32 < size)
    ensures Ends(fat, start)
  {
    var cs {:trigger IsWalk(fat, cs)} :| IsWalk(fat, cs) && cs[0] == start && |cs| == n;
    forall b {:trigger IsWalk(fat, b)} | IsWalk(fat, b) && b[0] == start
      ensures b == cs
    {
      WalkUnique(fat, b, cs);
    }
  }

  lemma FineWhen(fat: seq<int>, starts: seq<int>, walks: seq<seq<int>>)
    ensures FilesFine(fat, starts, walks) ==> Fine(fat, starts)
  {}

  lemma StillNotFine(fat: seq<int>, starts: seq<int>, k: int)
    requires 0 <= k < |starts| && !Fine(fat, starts[..k])
    ensures !Fine(fat, starts[..k + 1])
  {
    assert starts[..k + 1][..k] == starts[..k];
    if Fine(fat, starts[..k + 1]) {
      FewerFine(fat, starts[..k + 1], k);
    }
  }

  /** The pass of `fsck` over the table. */
  method FsckLost(fs: FileSys, refcount: array<int>) returns (ok: bool, lost: int, free: int)
    requires fs.Ready() && refcount.Length == fs.g.totalClusters
    modifies fs`sector, fs`secLba
    ensures ok ==> fs.Ready() && 0 <= lost && free == CountFree(fs.Fat(), fs.g.totalClusters) + 2
    ensures ok ==> (lost == 0 <==> forall c :: 2 <= c < fs.g.totalClusters && fs.Fat()[c] != 0 ==> refcount[c] != 0)
    ensures fs.reliable ==> ok
  {
    hide DiskOk, SectorOk, Copy, Mirrored;
    ghost var fat := fs.Fat();
    lost, free := 0, 0;
    for c := 2 to fs.g.totalClusters
      invariant fs.Ready() && fs.disk == old(fs.disk) && fs.Fat() == fat && 0 <= lost && free == CountFree(fat, c)
      invariant lost == 0 <==> forall b :: 2 <= b < c && fat[b] != 0 ==> refcount[b] != 0
    {
      var val;
      ok, val := fs.FatGet(c);
      if !ok {
        return;
      }
      if val != 0 && refcount[c] == 0 {
        lost := lost + 1;
      }
      if val == 0 {
        free := free + 1;
      }
    }
    ok := true;
    free := free + 2;
  }

  /** What `fsck` says of the files it finds.  It comes to an end exactly when all their chains do; it has nothing to
      complain about exactly when, besides, no chain repeats a cluster or shares one with another and all sizes fit;
      and it finds no lost cluster exactly when those chains cover all clusters in use. */
  method FsckFiles(fs: FileSys, starts: seq<int>, sizes: seq<int>)
    returns (ok: bool, hung: bool, invalid: int, mismatches: int, lost: int, free: int, ghost walks: seq<seq<int>>)
    requires fs.Ready() && fs.g.totalClusters <= EOC && forall k :: 0 <= k < |starts| ==> 2 <= starts[k] < fs.g.totalClusters
    requires |sizes| == |starts|
    modifies fs`sector, fs`secLba
    ensures ok ==> fs.disk == old(fs.disk) && fs.Ready() && (hung <==> exists k :: 0 <= k < |starts| && !Ends(fs.Fat(), starts[k]))
    ensures ok && !hung ==> 0 <= invalid <= |starts| && (invalid == 0 <==> Fine(fs.Fat(), starts))
    ensures ok && !hung ==> 0 <= mismatches <= |starts| && (mismatches == 0 <==> SizesFit(fs.g, fs.Fat(), starts, sizes, |starts|))
    ensures ok && !hung && invalid == 0 ==> FilesFine(fs.Fat(), starts, walks)
    ensures ok && !hung && invalid == 0 ==>
      0 <= lost && (lost == 0 <==> forall c :: 2 <= c < fs.g.totalClusters && fs.Fat()[c] != 0 ==> InSome(walks, c))
    ensures ok && !hung ==> free == CountFree(fs.Fat(), fs.g.totalClusters) + 2
    ensures fs.reliable ==> ok
  {
    hide DiskOk, SectorOk, Copy, Mirrored, Marked, FilesFine, Fine, InSome, CountFree, SizesFit, Ends;
    var refcount := new int[fs.g.totalClusters](_ => 0);
    lost, free := 0, 0;
    ok, hung, invalid, mismatches, walks := FsckMarkFiles(fs, refcount, starts, sizes);
    if ok && !hung {
      ok, lost, free := FsckLost(fs, refcount);
      if ok && invalid == 0 {
        MarkedCover(fs.Fat(), refcount[..], walks);
      }
    }
  }

  ghost predicate InSome(walks: seq<seq<int>>, c: int) {
    exists k :: 0 <= k < |walks| && c in walks[k]
  }

  lemma NoneMarked(fat: seq<int>, refs: seq<int>)
    requires |refs| == |fat| && forall c :: 0 <= c < |refs| ==> refs[c] == 0
    ensures Marked(fat, refs, []) && FilesFine(fat, [], [])
  {}

  lemma MarkedCover(fat: seq<int>, refs: seq<int>, walks: seq<seq<int>>)
    requires Marked(fat, refs, walks)
    ensures forall c :: 0 <= c < |refs| ==> (refs[c] != 0 <==> InSome(walks, c))
  {}

  // ---------------------------------------------------------------- counting the clusters of a chain

  /** The loop of `fsck_chain_length`, which follows links without counting visits, comes to an end exactly
      on chains that end.  It is also entered for chains that were just found to be cyclic. */
  lemma ChainLengthEnds(fat: seq<int>, start: int)
    requires IsLink(start) && start < |fat|
    ensures (exists n: nat :: !IsLink(WalkTo(fat, start, n))) <==>
      (exists cs {:trigger IsWalk(fat, cs)} :: IsWalk(fat, cs) && cs[0] == start)
  {
    if exists n: nat :: !IsLink(WalkTo(fat, start, n)) {
      var n: nat :| !IsLink(WalkTo(fat, start, n));
      var cs := WalkThere(fat, start, n);
    }
    if exists cs {:trigger IsWalk(fat, cs)} :: IsWalk(fat, cs) && cs[0] == start {
      var cs {:trigger IsWalk(fat, cs)} :| IsWalk(fat, cs) && cs[0] == start;
      WalkEnds(fat, cs);
      var n: nat := |cs|;
      assert !IsLink(WalkTo(fat, start, n));
    }
  }

  /** A cluster that links to itself is complained about, and then its clusters are counted without end. */
  lemma {:induction false} SelfLoopCountsForever(fat: seq<int>, refs: seq<int>, c: int, n: nat)
    requires 2 <= c < |fat| <= EOC && fat[c] == c
    requires |refs| == |fat| && Counts(refs) && refs[c] == 0
    ensures MarkRun(fat, refs, c) == (refs[c := 1], 1) && IsLink(WalkTo(fat, c, n))
    decreases n
  {
    if n > 0 {
      SelfLoopCountsForever(fat, refs, c, n - 1);
    }
  }

  lemma {:induction false} WalkThere(fat: seq<int>, start: int, n: nat) returns (cs: seq<int>)
    requires IsLink(start) && start < |fat| && !IsLink(WalkTo(fat, start, n))
    ensures IsWalk(fat, cs) && cs[0] == start
    decreases n
  {
    if IsLink(fat[start]) {
      var rest := WalkThere(fat, fat[start], n - 1);
      cs := [start] + rest;
      forall i | 0 <= i < |cs| - 1
        ensures fat[cs[i]] == cs[i + 1]
      {
        if i > 0 {
          assert cs[i] == rest[i - 1] && cs[i + 1] == rest[i];
        }
      }
    } else {
      cs := [start];
    }
  }

  lemma {:induction false} WalkEnds(fat: seq<int>, cs: seq<int>)
    requires IsWalk(fat, cs)
    ensures 2 <= cs[0] < |fat| && !IsLink(WalkTo(fat, cs[0], |cs|))
    decreases |cs|
  {
    if |cs| > 1 {
      assert fat[cs[0]] == cs[1];
      forall i | 0 <= i < |cs[1..]| - 1
        ensures fat[cs[1..][i]] == cs[1..][i + 1]
      {
        assert cs[1..][i] == cs[i + 1];
      }
      WalkEnds(fat, cs[1..]);
    }
  }

  datatype Length = Ended(n: int) | Endless | OutOfTable

  /** `fsck_chain_length` on any table: how many clusters it counts, or that it counts without end, or that it leaves
      the table.  A loop that has not stopped after as many rounds as there are clusters never does. */
  method FsckChainLength(fs: FileSys, start: int) returns (ok: bool, len: Length)
    requires fs.Ready() && IsLink(start) && start < fs.g.totalClusters <= EOC
    modifies fs`sector, fs`secLba
    ensures ok ==> fs.Ready() && fs.disk == old(fs.disk)
    ensures ok && len.Ended? ==> exists cs {:trigger IsWalk(fs.Fat(), cs)} :: IsWalk(fs.Fat(), cs) && cs[0] == start && |cs| == len.n
    ensures ok ==> (len.Ended? <==> Ends(fs.Fat(), start))
    ensures ok ==> (len.Endless? <==> forall k: nat :: InTable(fs.Fat(), WalkTo(fs.Fat(), start, k)))
    ensures fs.reliable ==> ok
  {
    hide DiskOk, SectorOk, Copy, Mirrored, IsWalk, WalkTo, Ends;
    ghost var fat := fs.Fat();
    var n, c := 0, start;
    ok, len := true, OutOfTable;
    ghost var seen: seq<int> := [];
    FollowStart(fat, start);
    while IsLink(c)
      invariant fs.Ready() && fs.disk == old(fs.disk) && fs.Fat() == fat && 0 <= n <= fs.g.totalClusters
      invariant Walked(fat, start, seen, c) && |seen| == n && c == WalkTo(fat, start, n)
      decreases fs.g.totalClusters - n
    {
      if c >= fs.g.totalClusters {
        LeftTable(fat, start, seen, c);
        assert !InTable(fat, WalkTo(fat, start, n));
        return;
      }
      if n == fs.g.totalClusters {
        len := Endless;
        NeverEnds(fat, start, seen, c);
        return;
      }
      FollowNext(fat, start, n);
      seen := seen + [c];
      n := n + 1;
      ok, c := fs.FatGet(c);
      if !ok {
        return;
      }
    }
    len := Ended(n);
    WalkedEnds(fat, start, seen, c);
    assert !InTable(fat, WalkTo(fat, start, n));
  }

  /** The clusters seen so far, from `start` to the one before `c`. */
  ghost predicate Walked(fat: seq<int>, start: int, seen: seq<int>, c: int) {
    && (if seen == [] then c == start else seen[0] == start && 2 <= seen[|seen| - 1] < |fat| && fat[seen[|seen| - 1]] == c)
    && (forall i :: 0 <= i < |seen| ==> 2 <= seen[i] < |fat|)
    && forall i {:trigger seen[i]} :: 0 <= i < |seen| - 1 ==> fat[seen[i]] == seen[i + 1]
  }

  lemma FollowStart(fat: seq<int>, c: int)
    ensures WalkTo(fat, c, 0) == c
  {}

  lemma {:induction false} FollowNext(fat: seq<int>, c: int, k: nat)
    requires InTable(fat, WalkTo(fat, c, k))
    ensures WalkTo(fat, c, k + 1) == fat[WalkTo(fat, c, k)]
    decreases k
  {
    if k > 0 {
      FollowNext(fat, fat[c], k - 1);
    }
  }

  lemma WalkedEnds(fat: seq<int>, start: int, seen: seq<int>, c: int)
    requires Walked(fat, start, seen, c) && !IsLink(c) && IsLink(start)
    ensures IsWalk(fat, seen) && seen[0] == start && Ends(fat, start)
  {
    assert seen != [];
    assert IsWalk(fat, seen);
  }

  /** The way is the same as that of a chain that ends. */
  lemma {:induction false} WalkedAlong(fat: seq<int>, start: int, seen: seq<int>, c: int, cs: seq<int>, i: nat)
    requires Walked(fat, start, seen, c) && IsWalk(fat, cs) && cs[0] == start && |fat| <= EOC && i < |seen|
    ensures i < |cs| && cs[i] == seen[i]
    decreases i
  {
    if i > 0 {
      WalkedAlong(fat, start, seen, c, cs, i - 1);
    }
  }

  lemma LeftTable(fat: seq<int>, start: int, seen: seq<int>, c: int)
    requires Walked(fat, start, seen, c) && IsLink(c) && |fat| <= EOC && c >= |fat| > start
    ensures !Ends(fat, start)
  {
    if cs {:trigger IsWalk(fat, cs)} :| IsWalk(fat, cs) && cs[0] == start {
      WalkedAlong(fat, start, seen, c, cs, |seen| - 1);
    }
  }

  lemma NeverEnds(fat: seq<int>, start: int, seen: seq<int>, c: int)
    requires Walked(fat, start, seen, c) && InTable(fat, c) && |seen| == |fat| <= EOC && c == WalkTo(fat, start, |fat|)
    requires InTable(fat, start)
    ensures !Ends(fat, start) && forall k: nat :: InTable(fat, WalkTo(fat, start, k))
  {
    forall k: nat
      ensures InTable(fat, WalkTo(fat, start, k))
    {
      if !InTable(fat, WalkTo(fat, start, k)) {
        var l := FirstStop(fat, start, k);
        StopsSoon(fat, start, l);
        StaysStopped(fat, start, l, |fat|);
      }
    }
    if cs {:trigger IsWalk(fat, cs)} :| IsWalk(fat, cs) && cs[0] == start {
      WalkStops(fat, cs);
    }
  }

  lemma {:induction false} WalkStops(fat: seq<int>, cs: seq<int>)
    requires IsWalk(fat, cs) && |fat| <= EOC
    ensures !IsLink(WalkTo(fat, cs[0], |cs|))
    decreases |cs|
  {
    if |cs| > 1 {
      assert fat[cs[0]] == cs[1];
      WalkTail(fat, cs);
      WalkStops(fat, cs[1..]);
    } else {
      assert WalkTo(fat, fat[cs[0]], 0) == fat[cs[0]];
    }
  }

  lemma {:induction false} FirstStop(fat: seq<int>, c: int, k: nat) returns (l: nat)
    requires !InTable(fat, WalkTo(fat, c, k))
    ensures l <= k && !InTable(fat, WalkTo(fat, c, l)) && forall i: nat :: i < l ==> InTable(fat, WalkTo(fat, c, i))
    decreases k
  {
    if k > 0 && !InTable(fat, WalkTo(fat, c, k - 1)) {
      l := FirstStop(fat, c, k - 1);
    } else {
      l := k;
      forall i: nat | i < l
        ensures InTable(fat, WalkTo(fat, c, i))
      {
        if !InTable(fat, WalkTo(fat, c, i)) {
          StaysStopped(fat, c, i, k - 1);
        }
      }
    }
  }

  lemma {:induction false} StaysStopped(fat: seq<int>, c: int, i: nat, k: nat)
    requires i <= k && !InTable(fat, WalkTo(fat, c, i))
    ensures WalkTo(fat, c, k) == WalkTo(fat, c, i)
    decreases i
  {
    if i > 0 && InTable(fat, c) {
      StaysStopped(fat, fat[c], i - 1, k - 1);
    }
  }

  lemma {:induction false} FollowOn(fat: seq<int>, c: int, i: nat, k: nat)
    ensures WalkTo(fat, WalkTo(fat, c, i), k) == WalkTo(fat, c, i + k)
    decreases i
  {
    if i > 0 {
      if InTable(fat, c) {
        FollowOn(fat, fat[c], i - 1, k);
      } else {
        assert WalkTo(fat, c, k) == c == WalkTo(fat, c, i + k);
      }
    }
  }

  /** Before its first stop the loop comes to no cluster twice, so that it stops in time if at all. */
  lemma StopsSoon(fat: seq<int>, c: int, l: nat)
    requires !InTable(fat, WalkTo(fat, c, l)) && forall i: nat :: i < l ==> InTable(fat, WalkTo(fat, c, i))
    ensures l <= |fat|
  {
    var way := seq(l, i requires 0 <= i < l => WalkTo(fat, c, i));
    forall i, j | 0 <= i < j < l
      ensures way[i] != way[j]
    {
      if way[i] == way[j] {
        FollowOn(fat, c, i, l - j);
        FollowOn(fat, c, j, l - j);
      }
    }
    DistinctBelow(way, |fat|);
  }

  lemma {:induction false} DistinctBelow(s: seq<int>, n: nat)
    requires Distinct(s) && forall i :: 0 <= i < |s| ==> 0 <= s[i] < n
    ensures |s| <= n
    decreases n
  {
    assert |s| > 0 ==> 0 <= s[0] < n;
    if i :| 0 <= i < |s| && s[i] == n - 1 {
      var rest := s[..i] + s[i + 1..];
      forall j | 0 <= j < |rest|
        ensures rest[j] == s[if j < i then j else j + 1]
      {}
      DistinctBelow(rest, n - 1);
    } else if n > 0 {
      DistinctBelow(s, n - 1);
    }
  }

  // ---------------------------------------------------------------- comparing the copies

  /** `fat_compare`: 0 exactly when all sectors of two copies are equal, and then so are their entries. */
  method FatCompare(fs: FileSys, a: int, b: int) returns (ok: bool, differ: bool)
    requires fs.Ready() && 0 <= a < fs.g.fatCount && 0 <= b < fs.g.fatCount
    modifies fs`sector, fs`secLba
    ensures ok ==> fs.Ready() && (!differ <==> SectorsEqual(fs.g, fs.disk, a, b, fs.g.fatSize))
    ensures ok && !differ ==> Copy(fs.g, fs.disk, a) == Copy(fs.g, fs.disk, b)
    ensures fs.reliable ==> ok
  {
    hide DiskOk, SectorOk, Copy, Mirrored;
    var lbaA := fs.g.fatStart + a * fs.g.fatSize;
    var lbaB := fs.g.fatStart + b * fs.g.fatSize;
    ok, differ := true, false;
    for s := 0 to fs.g.fatSize
      invariant fs.Ready() && fs.disk == old(fs.disk) && SectorsEqual(fs.g, fs.disk, a, b, s)
      invariant lbaA == fs.g.fatStart + a * fs.g.fatSize + s && lbaB == fs.g.fatStart + b * fs.g.fatSize + s
    {
      TableSector(fs.g, fs.disk, a, s);
      TableSector(fs.g, fs.disk, b, s);
      ok := fs.LoadSector(lbaA);
      if !ok {
        return;
      }
      var sectorA := fs.sector;
      ok := fs.LoadSector(lbaB);
      if !ok {
        return;
      }
      assert SectorEqual(fs.g, fs.disk, a, b, s) <==> sectorA == fs.sector;
      if sectorA != fs.sector {
        differ := true;
        return;
      }
      lbaA := lbaA + 1;
      lbaB := lbaB + 1;
    }
    EqualCopies(fs.g, fs.disk, a, b);
  }

  ghost predicate SectorsEqual(g: Geometry, d: Disk, a: int, b: int, n: int) {
    forall s {:trigger SectorEqual(g, d, a, b, s)} :: 0 <= s < n ==> SectorEqual(g, d, a, b, s)
  }

  ghost predicate SectorEqual(g: Geometry, d: Disk, a: int, b: int, s: int) {
    var l, l' := g.fatStart + a * g.fatSize + s, g.fatStart + b * g.fatSize + s;
    0 <= l < |d| && 0 <= l' < |d| && d[l] == d[l']
  }

  lemma TableSector(g: Geometry, d: Disk, k: int, s: int)
    requires GeometryOk(g) && DiskOk(g, d) && 0 <= k < g.fatCount && 0 <= s < g.fatSize
    ensures 0 <= g.fatStart + k * g.fatSize + s < |d|
  {
    EntryOnDisk(g);
    MulOrder(0, k, g.fatSize);
    MulOrder(k + 1, g.fatCount, g.fatSize);
    assert (k + 1) * g.fatSize == k * g.fatSize + g.fatSize;
  }

  lemma EqualCopies(g: Geometry, d: Disk, a: int, b: int)
    requires GeometryOk(g) && DiskOk(g, d) && 0 <= a < g.fatCount && 0 <= b < g.fatCount
    requires SectorsEqual(g, d, a, b, g.fatSize)
    ensures Copy(g, d, a) == Copy(g, d, b)
  {
    hide DiskOk, GeometryOk, Entry, SectorEqual;
    forall c | 0 <= c < g.totalClusters
      ensures Entry(g, d, a, c) == Entry(g, d, b, c)
    {
      EqualEntry(g, d, a, b, c);
    }
  }

  lemma EqualEntry(g: Geometry, d: Disk, a: int, b: int, c: int)
    requires GeometryOk(g) && DiskOk(g, d) && 0 <= a < g.fatCount && 0 <= b < g.fatCount && 0 <= c < g.totalClusters
    requires SectorsEqual(g, d, a, b, g.fatSize)
    ensures Entry(g, d, a, c) == Entry(g, d, b, c)
  {
    EntryPlace(g, a, c);
    EntryPlace(g, b, c);
    var s := 4 * c / g.bytesPerSector;
    DivMod(4 * c, g.bytesPerSector);
    QuotientBelow(4 * c, g.bytesPerSector, g.fatSize);
    assert SectorEqual(g, d, a, b, s);
  }
}
