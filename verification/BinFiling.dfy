/** The small and tree bins together, and what it means that every binned free chunk is filed in
    exactly the bin of its size. */
module BinFiling {
  import opened Rings
  import opened BinIndex
  import opened BinMaps
  import opened Tries
  import opened TreeSearch
  import opened Tiles

  datatype Bins = Bins(
    links: Links, smallmap: bv32, treemap: bv32, treebins: seq<int>,
    small: seq<seq<int>>, trees: seq<Tree>)

  /** Pointers to bin headers, which live in the allocator's own state: negative, so that they differ
      from every chunk address. */
  function SmallbinAt(i: int): int { -1 - i }

  function TreebinAt(i: int): int { -100 - i }

  ghost predicate SmallBinOk(b: Bins, i: int)
    requires 0 <= i < NBINS == |b.small|
  {
    && (Marked(b.smallmap, i) <==> b.small[i] != [])
    && (b.small[i] != [] ==> IsRing(b.links.fd, b.links.bk, [SmallbinAt(i)] + b.small[i]))
  }

  ghost predicate TreeBinOk(b: Bins, i: int)
    requires 0 <= i < NBINS == |b.trees| == |b.treebins|
  {
    && (Marked(b.treemap, i) <==> b.trees[i].Node?)
    && Rep(b.links, b.trees[i], b.treebins[i], TreebinAt(i), i)
    && Shape(b.trees[i], BinLow(i), BinWidth(i))
  }

  ghost predicate BinsOk(b: Bins) {
    && |b.small| == |b.trees| == |b.treebins| == NBINS
    && (forall i {:trigger SmallBinOk(b, i)} :: 0 <= i < NBINS ==> SmallBinOk(b, i))
    && (forall i {:trigger TreeBinOk(b, i)} :: 0 <= i < NBINS ==> TreeBinOk(b, i))
  }

  predicate IsSmall(size: int) { size < MIN_LARGE_SIZE }

  ghost predicate InBin(b: Bins, a: int, size: int)
    requires |b.small| == |b.trees| == NBINS
  {
    if IsSmall(size) then 0 <= size && a in b.small[size / 8] else a in Addrs(b.trees[TreeIndex(size)])
  }

  ghost predicate FiledSmall(chunks: map<int, Chunk>, a: int, i: int) {
    a in chunks && a > 0 && chunks[a].kind.Binned? && chunks[a].size == 8 * i
  }

  ghost predicate FiledLarge(chunks: map<int, Chunk>, t: Tree, a: int, i: int) {
    && a in chunks && a > 0 && chunks[a].kind.Binned? && a in Addrs(t) && chunks[a].size == SizeOf(t, a)
    && MIN_LARGE_SIZE <= chunks[a].size < WORD && TreeIndex(chunks[a].size) == i
  }

  ghost predicate Filed(b: Bins, chunks: map<int, Chunk>)
  {
    && |b.small| == |b.trees| == NBINS
    && (forall i, a {:trigger a in b.small[i]} :: 0 <= i < NBINS && a in b.small[i] ==> FiledSmall(chunks, a, i))
    && (forall i, a {:trigger a in Addrs(b.trees[i])} :: 0 <= i < NBINS && a in Addrs(b.trees[i]) ==>
          FiledLarge(chunks, b.trees[i], a, i))
    && (forall a {:trigger InBin(b, a, chunks[a].size)} :: a in chunks && chunks[a].kind.Binned? ==>
          InBin(b, a, chunks[a].size))
  }

  // ---------------------------------------------------------------- small bins

  /** The words `insert_small_chunk` writes. */
  ghost predicate SmallLinked(b: Bins, k': Links, i: int, p: int)
    requires 0 <= i < NBINS == |b.small|
  {
    var h := SmallbinAt(i);
    var f := if b.small[i] == [] then h else b.small[i][0];
    && k' == b.links.(fd := b.links.fd[h := p][p := f], bk := b.links.bk[f := p][p := h])
  }

  lemma SmallLinkedRing(b: Bins, k': Links, i: int, p: int)
    requires 0 <= i < NBINS == |b.small| && SmallBinOk(b, i) && SmallLinked(b, k', i, p)
    requires p > 0 && p !in b.small[i]
    ensures IsRing(k'.fd, k'.bk, [SmallbinAt(i)] + ([p] + b.small[i]))
  {
    var h := SmallbinAt(i);
    var ring := [h] + b.small[i];
    if b.small[i] == [] {
      assert [h] + ([p] + b.small[i]) == [h, p];
    } else {
      Neighbours(b.links.fd, b.links.bk, ring, 0);
      InsertAfterFirstLinks(b.links.fd, b.links.bk, ring, p);
      assert InsertAfterFirst(ring, p) == [h] + ([p] + b.small[i]);
    }
  }

  /** Bins whose words were not touched stay as they are. */
  lemma SmallBinFrame(b: Bins, b': Bins, j: int)
    requires 0 <= j < NBINS == |b.small| == |b'.small| && SmallBinOk(b, j)
    requires b'.small[j] == b.small[j] && (Marked(b'.smallmap, j) <==> Marked(b.smallmap, j))
    requires forall a :: a in b.small[j] || a == SmallbinAt(j) ==> SameRing(b.links, b'.links, a)
    ensures SmallBinOk(b', j)
  {
    if b.small[j] != [] {
      var ring := [SmallbinAt(j)] + b.small[j];
      forall a | a in ring
        ensures At(b'.links.fd, a) == At(b.links.fd, a) && At(b'.links.bk, a) == At(b.links.bk, a)
      {
        assert SameRing(b.links, b'.links, a);
      }
      RingFrame(b.links.fd, b.links.bk, b'.links.fd, b'.links.bk, ring);
    }
  }

  lemma TreeBinFrame(b: Bins, b': Bins, j: int)
    requires 0 <= j < NBINS == |b.trees| == |b'.trees| == |b.treebins| == |b'.treebins| && TreeBinOk(b, j)
    requires b'.trees[j] == b.trees[j] && b'.treebins[j] == b.treebins[j]
    requires Marked(b'.treemap, j) <==> Marked(b.treemap, j)
    requires forall a :: a in Addrs(b.trees[j]) ==> SameWords(b.links, b'.links, a)
    ensures TreeBinOk(b', j)
  {
    hide Marked, Shape, IsRing;
    RepFrame(b.links, b'.links, b.trees[j], b.treebins[j], TreebinAt(j), j);
  }

  /** `insert_small_chunk` keeps every bin in order. */
  lemma SmallInserted(b: Bins, b': Bins, chunks: map<int, Chunk>, i: int, p: int)
    requires BinsOk(b) && Filed(b, chunks) && 0 <= i < NBINS && p > 0
    requires p in chunks && !chunks[p].kind.Binned?
    requires b' == b.(links := b'.links, smallmap := Mark(b.smallmap, i), small := b.small[i := [p] + b.small[i]])
    requires SmallLinked(b, b'.links, i, p)
    ensures BinsOk(b')
  {
    hide Marked, Mark, IsRing, Rep, Shape, Addrs;
    assert SmallBinOk(b, i);
    assert p !in b.small[i];
    SmallLinkedRing(b, b'.links, i, p);
    MarkedAfter(b.smallmap, i, i);
    assert SmallBinOk(b', i);
    var f := if b.small[i] == [] then SmallbinAt(i) else b.small[i][0];
    assert b.small[i] != [] ==> f in b.small[i];
    forall j | 0 <= j < NBINS && j != i
      ensures SmallBinOk(b', j)
    {
      assert SmallBinOk(b, j);
      MarkedAfter(b.smallmap, i, j);
      forall a | a in b.small[j] || a == SmallbinAt(j)
        ensures SameRing(b.links, b'.links, a)
      {
        assert a in b.small[j] ==> FiledSmall(chunks, a, j);
      }
      SmallBinFrame(b, b', j);
    }
    forall j | 0 <= j < NBINS
      ensures TreeBinOk(b', j)
    {
      assert TreeBinOk(b, j);
      forall a | a in Addrs(b.trees[j])
        ensures SameWords(b.links, b'.links, a)
      {
        assert FiledLarge(chunks, b.trees[j], a, j);
      }
      TreeBinFrame(b, b', j);
    }
  }

  /** Filing a loose chunk in its small bin. */
  lemma SmallFiled(b: Bins, b': Bins, chunks: map<int, Chunk>, i: int, p: int)
    requires Filed(b, chunks) && 0 <= i < NBINS && p > 0
    requires p in chunks && !chunks[p].kind.Binned? && chunks[p].size == 8 * i
    requires b'.small == b.small[i := [p] + b.small[i]] && b'.trees == b.trees
    ensures Filed(b', chunks[p := chunks[p].(kind := Binned)])
  {
    hide Addrs, TreeIndex;
    var chunks' := chunks[p := chunks[p].(kind := Binned)];
    forall j, a | 0 <= j < NBINS && a in b'.small[j]
      ensures FiledSmall(chunks', a, j)
    {
      if a != p {
        assert a in b.small[j];
        assert FiledSmall(chunks, a, j);
      }
    }
    forall j, a | 0 <= j < NBINS && a in Addrs(b'.trees[j])
      ensures FiledLarge(chunks', b'.trees[j], a, j)
    {
      assert FiledLarge(chunks, b.trees[j], a, j);
    }
    forall a | a in chunks' && chunks'[a].kind.Binned?
      ensures InBin(b', a, chunks'[a].size)
    {
      if a != p {
        assert InBin(b, a, chunks[a].size);
      }
    }
  }

  /** The two words `unlink_small_chunk` writes for the chunk at position `k` of bin `i`, or none when
      it was the only one. */
  ghost predicate SmallUnlinked(b: Bins, k': Links, i: int, k: int)
    requires 0 <= i < NBINS == |b.small| && 0 <= k < |b.small[i]|
  {
    if |b.small[i]| == 1 then k' == b.links
    else
      var f, r := At(b.links.fd, b.small[i][k]), At(b.links.bk, b.small[i][k]);
      k' == b.links.(fd := b.links.fd[r := f], bk := b.links.bk[f := r])
  }

  lemma SmallUnlinkedRing(b: Bins, k': Links, i: int, k: int)
    requires 0 <= i < NBINS == |b.small| && 0 <= k < |b.small[i]| && |b.small[i]| > 1
    requires SmallBinOk(b, i) && SmallUnlinked(b, k', i, k)
    ensures IsRing(k'.fd, k'.bk, [SmallbinAt(i)] + Without(b.small[i], k))
    ensures var f, r := At(b.links.fd, b.small[i][k]), At(b.links.bk, b.small[i][k]);
            && (f in b.small[i] || f == SmallbinAt(i)) && (r in b.small[i] || r == SmallbinAt(i))
  {
    var ring := [SmallbinAt(i)] + b.small[i];
    RemoveLinks(b.links.fd, b.links.bk, ring, k + 1);
    assert Without(ring, k + 1) == [SmallbinAt(i)] + Without(b.small[i], k);
  }

  lemma SmallNeighbours(b: Bins, i: int, k: int)
    requires 0 <= i < NBINS == |b.small| && 0 <= k < |b.small[i]| && SmallBinOk(b, i)
    ensures var s := b.small[i];
            && At(b.links.fd, s[k]) == (if k == |s| - 1 then SmallbinAt(i) else s[k + 1])
            && At(b.links.bk, s[k]) == (if k == 0 then SmallbinAt(i) else s[k - 1])
            && At(b.links.fd, SmallbinAt(i)) == s[0]
    ensures Distinct(b.small[i])
  {
    var ring := [SmallbinAt(i)] + b.small[i];
    Neighbours(b.links.fd, b.links.bk, ring, k + 1);
    Neighbours(b.links.fd, b.links.bk, ring, 0);
    assert forall j :: 0 <= j < |b.small[i]| ==> b.small[i][j] == ring[j + 1];
  }

  /** The chunk is alone in its bin exactly when both its links lead to the bin header. */
  lemma SmallAlone(b: Bins, chunks: map<int, Chunk>, i: int, k: int)
    requires 0 <= i < NBINS == |b.small| && 0 <= k < |b.small[i]| && SmallBinOk(b, i) && Filed(b, chunks)
    ensures At(b.links.fd, b.small[i][k]) == At(b.links.bk, b.small[i][k]) <==> |b.small[i]| == 1
  {
    SmallNeighbours(b, i, k);
    forall j | 0 <= j < |b.small[i]|
      ensures b.small[i][j] > 0
    {
      assert b.small[i][j] in b.small[i];
      assert FiledSmall(chunks, b.small[i][j], i);
    }
  }

  lemma SmallRemoved(b: Bins, b': Bins, chunks: map<int, Chunk>, i: int, k: int)
    requires BinsOk(b) && Filed(b, chunks) && 0 <= i < NBINS && 0 <= k < |b.small[i]|
    requires b' == b.(links := b'.links, small := b.small[i := Without(b.small[i], k)],
                      smallmap := if |b.small[i]| == 1 then Clear(b.smallmap, i) else b.smallmap)
    requires SmallUnlinked(b, b'.links, i, k)
    ensures BinsOk(b')
  {
    hide Marked, Clear, IsRing, Rep, Shape, Addrs;
    assert SmallBinOk(b, i);
    MarkedAfter(b.smallmap, i, i);
    if |b.small[i]| > 1 {
      SmallUnlinkedRing(b, b'.links, i, k);
    }
    assert SmallBinOk(b', i);
    forall j | 0 <= j < NBINS && j != i
      ensures SmallBinOk(b', j)
    {
      assert SmallBinOk(b, j);
      MarkedAfter(b.smallmap, i, j);
      forall a | a in b.small[j] || a == SmallbinAt(j)
        ensures SameRing(b.links, b'.links, a)
      {
        assert a in b.small[j] ==> FiledSmall(chunks, a, j);
        assert a in b.small[i] ==> FiledSmall(chunks, a, i);
      }
      SmallBinFrame(b, b', j);
    }
    forall j | 0 <= j < NBINS
      ensures TreeBinOk(b', j)
    {
      assert TreeBinOk(b, j);
      forall a | a in Addrs(b.trees[j])
        ensures SameWords(b.links, b'.links, a)
      {
        assert FiledLarge(chunks, b.trees[j], a, j);
        assert a in b.small[i] ==> FiledSmall(chunks, a, i);
      }
      TreeBinFrame(b, b', j);
    }
  }

  lemma WithoutMembers(ring: seq<int>, k: int)
    requires Distinct(ring) && 0 <= k < |ring|
    ensures forall a :: a in Without(ring, k) <==> a in ring && a != ring[k]
  {
    if |ring| == 1 {
      assert Without(ring, k) == [];
    } else {
      WithoutElems(ring, k);
      ElemsIn(ring);
      ElemsIn(Without(ring, k));
    }
  }

  /** Taking a chunk out of its small bin makes it loose. */
  lemma SmallUnfiled(b: Bins, b': Bins, chunks: map<int, Chunk>, i: int, k: int)
    requires Filed(b, chunks) && 0 <= i < NBINS && 0 <= k < |b.small[i]| && Distinct(b.small[i])
    requires b'.small == b.small[i := Without(b.small[i], k)] && b'.trees == b.trees
    ensures var p := b.small[i][k];
            p in chunks && Filed(b', chunks[p := chunks[p].(kind := Loose)])
  {
    hide Addrs, TreeIndex, Without;
    var p := b.small[i][k];
    assert p in b.small[i];
    assert FiledSmall(chunks, p, i);
    var chunks' := chunks[p := chunks[p].(kind := Loose)];
    WithoutMembers(b.small[i], k);
    forall j, a | 0 <= j < NBINS && a in b'.small[j]
      ensures FiledSmall(chunks', a, j)
    {
      assert a in b.small[j];
      assert FiledSmall(chunks, a, j);
    }
    forall j, a | 0 <= j < NBINS && a in Addrs(b'.trees[j])
      ensures FiledLarge(chunks', b'.trees[j], a, j)
    {
      assert FiledLarge(chunks, b.trees[j], a, j);
    }
    forall a | a in chunks' && chunks'[a].kind.Binned?
      ensures InBin(b', a, chunks'[a].size)
    {
      assert InBin(b, a, chunks[a].size);
    }
  }

  // ---------------------------------------------------------------- tree bins

  /** Changing one tree bin, and only words of its chunks and of `x`, leaves the other bins in order. */
  lemma TreeReplaced(b: Bins, b': Bins, chunks: map<int, Chunk>, i: int, x: int)
    requires BinsOk(b) && Filed(b, chunks) && 0 <= i < NBINS && x > 0
    requires |b'.trees| == |b'.treebins| == NBINS
    requires x in chunks && (!chunks[x].kind.Binned? || x in Addrs(b.trees[i]))
    requires b'.small == b.small && b'.smallmap == b.smallmap
    requires forall j :: 0 <= j < NBINS && j != i ==>
      b'.trees[j] == b.trees[j] && b'.treebins[j] == b.treebins[j]
    requires forall j {:trigger Marked(b'.treemap, j)} :: 0 <= j < NBINS && j != i ==>
      (Marked(b'.treemap, j) <==> Marked(b.treemap, j))
    requires forall a :: a != x && a !in Addrs(b.trees[i]) ==> SameWords(b.links, b'.links, a)
    requires TreeBinOk(b', i)
    ensures BinsOk(b')
  {
    hide Marked, IsRing, Rep, Shape, Addrs, SameWords;
    forall j | 0 <= j < NBINS
      ensures SmallBinOk(b', j)
    {
      assert SmallBinOk(b, j);
      forall a | a in b.small[j] || a == SmallbinAt(j)
        ensures SameRing(b.links, b'.links, a)
      {
        assert a in b.small[j] ==> FiledSmall(chunks, a, j);
        assert a in Addrs(b.trees[i]) ==> FiledLarge(chunks, b.trees[i], a, i);
        assert SameWords(b.links, b'.links, a);
        RingOfWords(b.links, b'.links, a);
      }
      SmallBinFrame(b, b', j);
    }
    forall j | 0 <= j < NBINS && j != i
      ensures TreeBinOk(b', j)
    {
      assert TreeBinOk(b, j);
      forall a | a in Addrs(b.trees[j])
        ensures SameWords(b.links, b'.links, a)
      {
        assert FiledLarge(chunks, b.trees[j], a, j);
        assert a in Addrs(b.trees[i]) ==> FiledLarge(chunks, b.trees[i], a, i);
      }
      TreeBinFrame(b, b', j);
    }
  }

  lemma RingOfWords(k: Links, k': Links, a: int)
    requires SameWords(k, k', a)
    ensures SameRing(k, k', a)
  {}

  /** The words written for a chunk that starts a tree bin. */
  ghost predicate LinkedFirst(k: Links, k': Links, x: int, i: int) {
    && At(k'.index, x) == i && At(k'.child0, x) == 0 && At(k'.child1, x) == 0
    && At(k'.parent, x) == TreebinAt(i) && At(k'.fd, x) == x && At(k'.bk, x) == x
    && forall a :: a != x ==> SameRing(k, k', a) && SameTree(k, k', a)
  }

  lemma PreparedFirst(k: Links, k': Links, x: int, i: int)
    requires k'.fd == k.fd[x := x] && k'.bk == k.bk[x := x] && k'.parent == k.parent[x := TreebinAt(i)]
    requires k'.index == k.index[x := i] && k'.child0 == k.child0[x := 0] && k'.child1 == k.child1[x := 0]
    ensures LinkedFirst(k, k', x, i)
  {}

  ghost function TreeWith(b: Bins, i: int, x: int, s: int): Tree
    requires 0 <= i < NBINS == |b.trees| && Shape(b.trees[i], BinLow(i), BinWidth(i))
    requires BinLow(i) <= s < BinLow(i) + Pow2(BinWidth(i))
  {
    Insert(b.trees[i], x, s, BinLow(i), BinWidth(i))
  }

  /** `insert_large_chunk` keeps every bin in order. */
  lemma TreeInserted(b: Bins, b': Bins, chunks: map<int, Chunk>, i: int, x: int, s: int)
    requires BinsOk(b) && Filed(b, chunks) && 0 <= i < NBINS && x > 0
    requires x in chunks && !chunks[x].kind.Binned?
    requires TreeBinOk(b, i) && BinLow(i) <= s < BinLow(i) + Pow2(BinWidth(i))
    requires b' == b.(links := b'.links, treemap := b'.treemap, treebins := b'.treebins,
                      trees := b.trees[i := TreeWith(b, i, x, s)])
    requires if b.trees[i].Nil? then
        && LinkedFirst(b.links, b'.links, x, i) && b'.treebins == b.treebins[i := x] && b'.treemap == Mark(b.treemap, i)
      else
        && LinkedAt(b.links, b'.links, Walk(b.trees[i], s, BinLow(i), BinWidth(i)), x, i)
        && b'.treebins == b.treebins && b'.treemap == b.treemap
    ensures BinsOk(b')
  {
    hide Marked, Mark, IsRing, Rep, Shape, Addrs, Pow2, Insert, Walk;
    var t := b.trees[i];
    assert x !in Addrs(t) by {
      assert x in Addrs(t) ==> FiledLarge(chunks, t, x, i);
    }
    var lo, e := BinLow(i), BinWidth(i);
    MarkedAfter(b.treemap, i, i);
    forall j | 0 <= j < NBINS && j != i
      ensures Marked(b'.treemap, j) <==> Marked(b.treemap, j)
    {
      MarkedAfter(b.treemap, i, j);
    }
    InsertShape(t, x, s, lo, e);
    if t.Nil? {
      FirstNode(t, x, s, lo, e);
      NewNodeRep(b'.links, x, s, TreebinAt(i), i);
    } else {
      InsertRep(b.links, b'.links, t, b.treebins[i], TreebinAt(i), i, x, s, lo, e);
      StillNode(t, x, s, lo, e);
      WalkStops(t, s, lo, e);
      BehindInRing(b.links, t, b.treebins[i], TreebinAt(i), i, s, lo, e);
      UntouchedOutside(b.links, b'.links, Walk(t, s, lo, e), x, i, Addrs(t));
    }
    assert TreeBinOk(b', i);
    hide LinkedAt, LinkedFirst;
    TreeReplaced(b, b', chunks, i, x);
  }

  lemma FirstNode(t: Tree, x: int, s: int, lo: int, e: int)
    requires t.Nil? && e >= 0 && lo <= s < lo + Pow2(e)
    ensures Insert(t, x, s, lo, e) == Node([x], s, Nil, Nil)
  {}

  lemma StillNode(t: Tree, x: int, s: int, lo: int, e: int)
    requires t.Node? && Shape(t, lo, e) && e >= 0 && lo <= s < lo + Pow2(e)
    ensures Insert(t, x, s, lo, e).Node?
  {}

  lemma TreeFiled(b: Bins, b': Bins, chunks: map<int, Chunk>, i: int, x: int, s: int)
    requires Filed(b, chunks) && 0 <= i < NBINS && x > 0
    requires x in chunks && !chunks[x].kind.Binned? && chunks[x].size == s
    requires MIN_LARGE_SIZE <= s < WORD && i == TreeIndex(s)
    requires Shape(b.trees[i], BinLow(i), BinWidth(i)) && BinLow(i) <= s < BinLow(i) + Pow2(BinWidth(i))
    requires b'.small == b.small && b'.trees == b.trees[i := TreeWith(b, i, x, s)]
    ensures Filed(b', chunks[x := chunks[x].(kind := Binned)])
  {
    hide Shape, Addrs, Pow2, Insert, SizeOf, TreeIndex;
    var t, t', lo, e := b.trees[i], b'.trees[i], BinLow(i), BinWidth(i);
    var chunks' := chunks[x := chunks[x].(kind := Binned)];
    assert x !in Addrs(t) by {
      assert x in Addrs(t) ==> FiledLarge(chunks, t, x, i);
    }
    InsertMembers(t, x, s, lo, e);
    forall j, a | 0 <= j < NBINS && a in b'.small[j]
      ensures FiledSmall(chunks', a, j)
    {
      assert a in b.small[j];
      assert FiledSmall(chunks, a, j);
    }
    forall j, a | 0 <= j < NBINS && a in Addrs(b'.trees[j])
      ensures FiledLarge(chunks', b'.trees[j], a, j)
    {
      if j == i {
        InsertSizeOf(t, x, s, lo, e, a);
      }
      if a != x || j != i {
        assert FiledLarge(chunks, b.trees[j], a, j);
      }
    }
    forall a | a in chunks' && chunks'[a].kind.Binned?
      ensures InBin(b', a, chunks'[a].size)
    {
      if a != x {
        assert InBin(b, a, chunks[a].size);
      }
    }
  }

  /** Taking a chunk out of its tree bin makes it loose. */
  lemma TreeUnfiled(b: Bins, b': Bins, chunks: map<int, Chunk>, i: int, x: int)
    requires Filed(b, chunks) && 0 <= i < NBINS && x in Addrs(b.trees[i])
    requires |b'.trees| == NBINS && b'.small == b.small
    requires forall j :: 0 <= j < NBINS && j != i ==> b'.trees[j] == b.trees[j]
    requires Addrs(b'.trees[i]) == Addrs(b.trees[i]) - {x}
    requires forall a :: a in Addrs(b'.trees[i]) ==> SizeOf(b'.trees[i], a) == SizeOf(b.trees[i], a)
    ensures x in chunks && Filed(b', chunks[x := chunks[x].(kind := Loose)])
  {
    hide Addrs, SizeOf, TreeIndex;
    assert FiledLarge(chunks, b.trees[i], x, i);
    var chunks' := chunks[x := chunks[x].(kind := Loose)];
    forall j, a | 0 <= j < NBINS && a in b'.small[j]
      ensures FiledSmall(chunks', a, j)
    {
      assert a in b.small[j];
      assert FiledSmall(chunks, a, j);
    }
    forall j, a | 0 <= j < NBINS && a in Addrs(b'.trees[j])
      ensures FiledLarge(chunks', b'.trees[j], a, j)
    {
      assert a in Addrs(b.trees[j]);
      assert FiledLarge(chunks, b.trees[j], a, j);
    }
    forall a | a in chunks' && chunks'[a].kind.Binned?
      ensures InBin(b', a, chunks'[a].size)
    {
      assert InBin(b, a, chunks[a].size);
    }
  }

  // ---------------------------------------------------------------- subtrees on the way down

  ghost predicate Within(t: Tree, cur: Tree) {
    forall a :: a in Addrs(cur) ==> a in Addrs(t) && SizeOf(t, a) == SizeOf(cur, a)
  }

  lemma WithinChildren(t: Tree, cur: Tree, lo: int, e: int)
    requires Shape(cur, lo, e) && cur.Node? && Within(t, cur)
    ensures Within(t, cur.left) && Within(t, cur.right)
    ensures cur.ring[0] in Addrs(t) && SizeOf(t, cur.ring[0]) == cur.size
  {
    hide Shape, Addrs, SizeOf, Pow2;
    OpenShape(cur, lo, e);
    ElemsIn(cur.ring);
    assert cur.ring[0] in cur.ring;
    OpenSizeOf(cur, lo, e, cur.ring[0]);
    forall a | a in Addrs(cur.left)
      ensures a in Addrs(t) && SizeOf(t, a) == SizeOf(cur.left, a)
    {
      OpenSizeOf(cur, lo, e, a);
    }
    forall a | a in Addrs(cur.right)
      ensures a in Addrs(t) && SizeOf(t, a) == SizeOf(cur.right, a)
    {
      OpenSizeOf(cur, lo, e, a);
    }
  }

  lemma OpenWalk(t: Tree, s: int, lo: int, e: int)
    requires Shape(t, lo, e) && t.Node? && lo <= s < lo + Pow2(e) && t.size != s
    ensures e > 0
    ensures var right := s >= lo + Pow2(e - 1);
            var child := if right then t.right else t.left;
            var lo' := if right then lo + Pow2(e - 1) else lo;
            && Shape(child, lo', e - 1) && lo' <= s < lo' + Pow2(e - 1)
            && Walk(t, s, lo, e) == if child.Nil? then Below(t.ring[0], right) else Walk(child, s, lo', e - 1)
  {
    OneSize(t, lo, e, s);
    assert Pow2(e) == 2 * Pow2(e - 1);
  }

  /** Where the walk down tree bin `i` for size `s` stands: at pointer `node`, subtree `cur`, with the
      shifted size `k`. */
  ghost predicate Descending(
    links: Links, t: Tree, i: int, s: int, cur: Tree, node: int, par: int, lo: int, e: int, k: int)
  {
    && 0 <= e <= 32 && Shape(cur, lo, e) && cur.Node? && Within(t, cur) && lo <= s < lo + Pow2(e)
    && Rep(links, cur, node, par, i) && k == (s - lo) * Pow2(32 - e)
  }

  lemma DescendStart(links: Links, t: Tree, i: int, s: int, node: int)
    requires 0 <= i < NBINS && Rep(links, t, node, TreebinAt(i), i) && Shape(t, BinLow(i), BinWidth(i)) && t.Node?
    requires BinLow(i) <= s < BinLow(i) + Pow2(BinWidth(i))
    ensures Descending(links, t, i, s, t, node, TreebinAt(i), BinLow(i), BinWidth(i), s * Pow2(LeftShift(i)) % WORD)
  {
    hide Shape, Rep, Pow2, Addrs, SizeOf;
    ShiftedSize(i, s);
  }

  /** At a node of another size, the sign bit of `k` selects the child to go to. */
  lemma DescendStep(
    links: Links, t: Tree, i: int, s: int, cur: Tree, node: int, par: int, lo: int, e: int, k: int)
    requires Descending(links, t, i, s, cur, node, par, lo, e, k) && cur.size != s
    ensures node in Addrs(t) && SizeOf(t, node) == cur.size && node == cur.ring[0] && node > 0 && e > 0
    ensures var right := k >= 0x8000_0000;
            var child := if right then cur.right else cur.left;
            var lo' := if right then lo + Pow2(e - 1) else lo;
            && right == (s >= lo + Pow2(e - 1))
            && (links.Child(right, node) == 0 <==> child.Nil?)
            && if child.Nil? then Walk(cur, s, lo, e) == Below(node, right)
               else
                 && Descending(links, t, i, s, child, links.Child(right, node), node, lo', e - 1, k * 2 % WORD)
                 && Shape(child, lo', e - 1) && lo' <= s < lo' + Pow2(e - 1)
                 && Walk(cur, s, lo, e) == Walk(child, s, lo', e - 1)
  {
    hide Shape, Rep, Pow2, Addrs, SizeOf, Walk, Within;
    OpenRep(links, cur, node, par, i);
    WithinChildren(t, cur, lo, e);
    OpenWalk(cur, s, lo, e);
    BitWalkStep(k, s - lo, e);
    LeafStep(links, cur, node, par, i);
  }

  lemma DescendHere(
    links: Links, t: Tree, i: int, s: int, cur: Tree, node: int, par: int, lo: int, e: int, k: int)
    requires Descending(links, t, i, s, cur, node, par, lo, e, k)
    ensures node in Addrs(t) && SizeOf(t, node) == cur.size && node == cur.ring[0] && node > 0
    ensures cur.size == s ==> Walk(cur, s, lo, e) == Behind(node)
  {
    OpenRep(links, cur, node, par, i);
    WithinChildren(t, cur, lo, e);
  }

  lemma LinkBelow(k: Links, k': Links, node: int, right: bool, x: int, i: int)
    requires At(k.index, x) == i && At(k.child0, x) == 0 && At(k.child1, x) == 0 && x != node
    requires var k1 := k.SetChild(right, node, x).(parent := k.parent[x := node]);
      k' == k1.(fd := k1.fd[x := x], bk := k1.bk[x := x])
    ensures LinkedAt(k, k', Below(node, right), x, i)
  {}

  lemma LinkBehind(k: Links, k': Links, node: int, f: int, x: int, i: int)
    requires At(k.index, x) == i && At(k.child0, x) == 0 && At(k.child1, x) == 0 && x != node
    requires f == At(k.fd, node)
    requires k' == k.(fd := k.fd[node := x][x := f], bk := k.bk[f := x][x := node], parent := k.parent[x := 0])
    ensures LinkedAt(k, k', Behind(node), x, i)
  {}

  /** The first writes of `insert_large_chunk`, before the walk. */
  ghost predicate Prepared(k: Links, k': Links, x: int, i: int) {
    k' == k.(index := k.index[x := i], child0 := k.child0[x := 0], child1 := k.child1[x := 0])
  }

  lemma PreparedLinked(k: Links, k1: Links, k': Links, stop: Stop, x: int, i: int)
    requires Prepared(k, k1, x, i) && LinkedAt(k1, k', stop, x, i) && stop.node != x
    ensures LinkedAt(k, k', stop, x, i)
  {
    assert forall a :: a != x ==> SameTree(k, k1, a) && SameRing(k, k1, a);
    forall a | a != x
      ensures SameTree(k1, k', a) ==> SameTree(k, k', a)
      ensures SameRing(k1, k', a) ==> SameRing(k, k', a)
    {
      assert SameTree(k, k1, a);
    }
    assert k1.fd == k.fd && k1.bk == k.bk;
  }

  /** `insert_large_chunk` as a whole: the chunk is filed, and everything else stays in order. */
  lemma LargeInserted(g: Tags, sg: Segment, b: Bins, b': Bins, i: int, x: int, s: int)
    requires BinsOk(b) && Filed(b, sg.chunks) && Tiling(g, sg) && x in sg.chunks && x > 0
    requires (sg.chunks[x].kind.Loose? || sg.chunks[x].kind.Dv?) && sg.chunks[x].size == s
    requires MIN_LARGE_SIZE <= s < WORD && i == TreeIndex(s)
    requires Shape(b.trees[i], BinLow(i), BinWidth(i)) && BinLow(i) <= s < BinLow(i) + Pow2(BinWidth(i))
    requires b' == b.(links := b'.links, treemap := b'.treemap, treebins := b'.treebins,
                      trees := b.trees[i := TreeWith(b, i, x, s)])
    requires if b.trees[i].Nil? then
        && LinkedFirst(b.links, b'.links, x, i) && b'.treebins == b.treebins[i := x] && b'.treemap == Mark(b.treemap, i)
      else
        && LinkedAt(b.links, b'.links, Walk(b.trees[i], s, BinLow(i), BinWidth(i)), x, i)
        && b'.treebins == b.treebins && b'.treemap == b.treemap
    ensures var chunks' := sg.chunks[x := sg.chunks[x].(kind := Binned)];
            BinsOk(b') && Filed(b', chunks') && Tiling(g, sg.(chunks := chunks'))
  {
    assert TreeBinOk(b, i);
    hide Filed, BinsOk, Tiling, Shape, Pow2, Walk, Mark, Insert, LinkedAt, LinkedFirst, TreeWith, TreeIndex;
    TreeInserted(b, b', sg.chunks, i, x, s);
    TreeFiled(b, b', sg.chunks, i, x, s);
    RekindFree(g, sg, x, Binned);
  }

  // ---------------------------------------------------------------- unlinking from a tree bin

  /** `t'` holds the chunks of `t` except `x`, with the same sizes. */
  ghost predicate Removed(t: Tree, t': Tree, x: int) {
    Addrs(t') == Addrs(t) - {x} && forall a :: a in Addrs(t') ==> a in Addrs(t) && SizeOf(t', a) == SizeOf(t, a)
  }

  lemma GraftRemoved(t: Tree, h: int, sub': Tree, x: int, lo: int, e: int)
    requires Shape(t, lo, e) && h in Heads(t) && x in Addrs(SubAt(t, h))
    requires Fits(SubAt(t, h), sub') && Removed(SubAt(t, h), sub', x)
    ensures var t' := Graft(t, h, sub'); Removed(t, t', x) && Shape(t', lo, e)
  {
    hide Addrs, SizeOf, Sizes, Shape, Heads, SubAt, Graft;
    var t' := Graft(t, h, sub');
    SubAtMembers(t, h, lo, e);
    GraftMembers(t, h, sub', lo, e);
    GraftShape(t, h, sub', lo, e);
    hide Fits;
    forall a | a in Addrs(t')
      ensures a in Addrs(t) && SizeOf(t', a) == SizeOf(t, a)
    {
      GraftSizeOf(t, h, sub', lo, e, a);
      if a in Addrs(sub') {
        SubAtSizeOf(t, h, lo, e, a);
      }
    }
  }

  lemma MemberRemoved(sub: Tree, k: int, lo: int, e: int)
    requires Shape(sub, lo, e) && sub.Node? && 1 <= k < |sub.ring|
    ensures var sub' := sub.(ring := Without(sub.ring, k)); Fits(sub, sub') && Removed(sub, sub', sub.ring[k])
  {
    hide Addrs, SizeOf, Shape, Fits;
    var sub' := sub.(ring := Without(sub.ring, k));
    RemoveMemberFits(sub, k, lo, e);
    RemoveMemberMembers(sub, k, lo, e);
    forall a | a in Addrs(sub')
      ensures a in Addrs(sub) && SizeOf(sub', a) == SizeOf(sub, a)
    {
      RemoveMemberSizeOf(sub, k, lo, e, a);
    }
  }

  lemma HeadRemoved(sub: Tree, lo: int, e: int)
    requires Shape(sub, lo, e) && sub.Node? && |sub.ring| > 0
    ensures Fits(sub, RemoveRoot(sub)) && Removed(sub, RemoveRoot(sub), sub.ring[0])
  {
    hide Addrs, SizeOf, Shape, Fits, RemoveRoot;
    RemoveRootFits(sub, lo, e);
    RemoveRootMembers(sub, lo, e);
    forall a | a in Addrs(RemoveRoot(sub))
      ensures a in Addrs(sub) && SizeOf(RemoveRoot(sub), a) == SizeOf(sub, a)
    {
      RemoveRootSizeOf(sub, lo, e, a);
    }
  }

  /** The subtree at `h` is replaced by one with root pointer `r`: the whole tree bin follows. */
  lemma GraftBin(k: Links, k': Links, t: Tree, p: int, i: int, h: int, sub': Tree, r: int, lo: int, e: int)
    requires Rep(k, t, p, TreebinAt(i), i) && Shape(t, lo, e) && h in Heads(t)
    requires Repointed(k, k', Addrs(t) - Addrs(SubAt(t, h)), h, r)
    requires Rep(k', sub', r, At(k.parent, h), i)
    ensures Rep(k', Graft(t, h, sub'), if h == p then r else p, TreebinAt(i), i)
    ensures h != p ==> Graft(t, h, sub').Node?
    ensures h == p ==> Graft(t, h, sub') == sub' && At(k.parent, h) == TreebinAt(i)
  {
    hide Shape, SubAt, Addrs, Pow2;
    OpenHeads(t, h, lo, e);
    OpenRep(k, t, p, TreebinAt(i), i);
    SubAtRep(k, t, p, TreebinAt(i), i, h, lo, e);
    if h != p {
      GraftRep(k, k', t, p, TreebinAt(i), i, h, sub', r, lo, e);
    }
  }

  /** `unlink_large_chunk` as a whole: one chunk leaves its tree bin, and everything else stays in order. */
  lemma LargeRemoved(g: Tags, sg: Segment, b: Bins, b': Bins, i: int, x: int)
    requires BinsOk(b) && Filed(b, sg.chunks) && Tiling(g, sg) && 0 <= i < NBINS && x in Addrs(b.trees[i])
    requires |b'.trees| == |b'.treebins| == NBINS
    requires b' == b.(links := b'.links, trees := b.trees[i := b'.trees[i]],
                      treebins := b.treebins[i := b'.treebins[i]], treemap := b'.treemap)
    requires b'.treemap == if b'.trees[i].Nil? then Clear(b.treemap, i) else b.treemap
    requires Rep(b'.links, b'.trees[i], b'.treebins[i], TreebinAt(i), i)
    requires Shape(b'.trees[i], BinLow(i), BinWidth(i)) && Removed(b.trees[i], b'.trees[i], x)
    requires forall a :: a !in Addrs(b.trees[i]) ==> SameWords(b.links, b'.links, a)
    ensures x in sg.chunks
    ensures var chunks' := sg.chunks[x := sg.chunks[x].(kind := Loose)];
            BinsOk(b') && Filed(b', chunks') && Tiling(g, sg.(chunks := chunks'))
  {
    hide Marked, Clear, IsRing, Rep, Shape, Addrs, SizeOf, Pow2, TreeIndex, SameWords, Tiling;
    assert FiledLarge(sg.chunks, b.trees[i], x, i);
    ClearedMap(b, b', i, x);
    hide TreeBinOk, SmallBinOk, Removed;
    TreeReplaced(b, b', sg.chunks, i, x);
    TreeUnfiled(b, b', sg.chunks, i, x);
    RekindFree(g, sg, x, Loose);
  }

  /** The tree map after a chunk left bin `i` */
  lemma ClearedMap(b: Bins, b': Bins, i: int, x: int)
    requires BinsOk(b) && 0 <= i < NBINS && x in Addrs(b.trees[i]) && |b'.trees| == |b'.treebins| == |b'.small| == NBINS
    requires b'.treemap == if b'.trees[i].Nil? then Clear(b.treemap, i) else b.treemap
    requires Rep(b'.links, b'.trees[i], b'.treebins[i], TreebinAt(i), i) && Shape(b'.trees[i], BinLow(i), BinWidth(i))
    ensures forall j :: 0 <= j < NBINS && j != i ==> (Marked(b'.treemap, j) <==> Marked(b.treemap, j))
    ensures TreeBinOk(b', i)
  {
    assert TreeBinOk(b, i);
    hide Marked, Clear, Rep, Shape, Addrs;
    MarkedAfter(b.treemap, i, i);
    forall j | 0 <= j < NBINS && j != i
      ensures Marked(b'.treemap, j) <==> Marked(b.treemap, j)
    {
      MarkedAfter(b.treemap, i, j);
    }
    NodeBefore(b.trees[i], x);
  }

  lemma NodeBefore(t: Tree, x: int)
    requires x in Addrs(t)
    ensures t.Node?
  {}

  /** One step of the walk to the rightmost leaf below a node: the same owner of the same leaf. */
  lemma LeafWalk(links: Links, cur: Tree, r: int, par: int, i: int)
    requires Rep(links, cur, r, par, i) && cur.Node?
    ensures |cur.ring| > 0 && r == cur.ring[0] && r != 0
    ensures var right := links.Child(true, r) != 0;
            var child := if right then cur.right else cur.left;
            var c := links.Child(right, r);
            && (c == 0 <==> cur.Leaf()) && (c != 0 ==> child.Node? && Rep(links, child, c, r, i))
            && (c != 0 ==> LeafOwner(cur) == if child.Leaf() then (r, right) else LeafOwner(child))
  {
    hide Rep, LeafOwner;
    OpenRep(links, cur, r, par, i);
    LeafStep(links, cur, r, par, i);
    if !cur.Leaf() {
      OpenOwner(cur);
    }
  }

  /** What `ChooseReplacement` leaves behind, for a tree node `x`. */
  ghost predicate Chosen(k: Links, k1: Links, sub: Tree, x: int, r: int)
    requires sub.Node?
  {
    if |sub.ring| > 1 then
      var f := At(k.fd, x);
      r == At(k.bk, x) && k1 == k.(fd := k.fd[r := f], bk := k.bk[f := r])
    else if sub.Leaf() then r == 0 && k1 == k
    else var (owner, right) := LeafOwner(sub); r == k.Child(right, owner) && r != 0 && k1 == k.SetChild(right, owner, 0)
  }

  lemma RootRemoved(sub: Tree)
    requires sub.Node? && |sub.ring| > 0
    ensures RemoveRoot(sub).Nil? <==> |sub.ring| <= 1 && sub.Leaf()
  {}

  lemma ChosenParts(k: Links, k1: Links, sub: Tree, x: int, r: int, xp: int, i: int, lo: int, e: int)
    requires Rep(k, sub, x, xp, i) && Shape(sub, lo, e) && sub.Node? && Chosen(k, k1, sub, x, r)
    ensures r != 0 ==> Parts(k1, RemoveRoot(sub), x, r, i)
    ensures r == 0 <==> RemoveRoot(sub).Nil?
    ensures forall a :: a !in Addrs(sub) ==> SameWords(k, k1, a)
  {
    hide Shape, Addrs, Pow2, Rep, LeafOwner, Parts, IsRing, Elems, RemoveRoot;
    OpenRep(k, sub, x, xp, i);
    ElemsIn(sub.ring);
    RootRemoved(sub);
    if |sub.ring| > 1 {
      Neighbours(k.fd, k.bk, sub.ring, 0);
      RingParts(k, k1, sub, x, xp, i, lo, e);
    } else if !sub.Leaf() {
      LeafParts(k, k1, sub, x, xp, i, lo, e);
      OwnerIn(sub, lo, e);
    }
  }

  lemma PartsPointers(k: Links, t: Tree, x: int, r: int, i: int)
    requires Parts(k, t, x, r, i)
    ensures r != x && r in Addrs(t) && x != 0
    ensures var c0, c1 := At(k.child0, x), At(k.child1, x);
            && r != c0 && r != c1 && (c0 != 0 ==> c0 != c1) && (c0 != 0 ==> c0 in Addrs(t)) && (c1 != 0 ==> c1 in Addrs(t))
  {
    hide Rep;
    RootPointer(k, t.left, At(k.child0, x), x, i);
    RootPointer(k, t.right, At(k.child1, x), x, i);
    NodeAddrs(t);
    ElemsIn(t.ring);
    assert r in t.ring;
  }

  /** The pointer to `x` in its parent node is set to `r`; a root is held by the bin instead. */
  ghost function PointParent(k: Links, p: int, x: int, r: int, xp: int): Links {
    if x == p then k
    else if At(k.child0, xp) == x then k.(child0 := k.child0[xp := r])
    else k.(child1 := k.child1[xp := r])
  }

  lemma HeadUnlinked(k: Links, k1: Links, k2: Links, t: Tree, p: int, i: int, x: int, r: int, lo: int, e: int)
    requires Rep(k, t, p, TreebinAt(i), i) && Shape(t, lo, e) && x in Heads(t) && i >= 0
    requires SubAt(t, x).Node? && |SubAt(t, x).ring| > 0
    requires Chosen(k, k1, SubAt(t, x), x, r)
    requires HeadRelinked(k1, k2, p, x, r, At(k.parent, x))
    ensures var t' := Graft(t, x, RemoveRoot(SubAt(t, x)));
            && Rep(k2, t', if x == p then r else p, TreebinAt(i), i) && Shape(t', lo, e) && Removed(t, t', x)
            && (t'.Nil? <==> x == p && r == 0)
    ensures forall a :: a !in Addrs(t) ==> SameWords(k, k2, a)
  {
    hide Shape, Addrs, Pow2, Rep, SubAt, Heads, Graft, RemoveRoot, Chosen, HeadRelinked, Removed, Fits, SizeOf;
    var sub, xp := SubAt(t, x), At(k.parent, x);
    SubAtMembers(t, x, lo, e);
    var lo', e' :| Shape(sub, lo', e');
    SubAtRep(k, t, p, TreebinAt(i), i, x, lo, e);
    ChosenParts(k, k1, sub, x, r, xp, i, lo', e');
    OpenRep(k, sub, x, xp, i);
    OpenShape(sub, lo', e');
    HeadRemoved(sub, lo', e');
    GraftRemoved(t, x, RemoveRoot(sub), x, lo, e);
    TreebinOutside(k, t, p, i);
    HeadSubRep(k1, k2, p, i, x, r, xp, sub, lo', e');
    if r != 0 {
      HeadPointers(k1, i, x, r, sub, lo', e');
    }
    HeadWords(k, k1, k2, p, x, r, xp, Addrs(sub), Addrs(t));
    GraftBin(k, k2, t, p, i, x, RemoveRoot(sub), r, lo, e);
    RootPointer(k2, Graft(t, x, RemoveRoot(sub)), if x == p then r else p, TreebinAt(i), i);
  }

  lemma TreebinOutside(k: Links, t: Tree, p: int, i: int)
    requires Rep(k, t, p, TreebinAt(i), i) && i >= 0
    ensures TreebinAt(i) !in Addrs(t)
  {
    PositiveMembers(k, t, p, TreebinAt(i), i);
  }

  lemma {:induction false} PositiveMembers(k: Links, t: Tree, p: int, par: int, i: int)
    requires Rep(k, t, p, par, i)
    ensures forall a :: a in Addrs(t) ==> a > 0
  {
    if t.Node? {
      PositiveMembers(k, t.left, At(k.child0, p), p, i);
      PositiveMembers(k, t.right, At(k.child1, p), p, i);
    }
  }

  ghost predicate HeadRelinked(k1: Links, k2: Links, p: int, x: int, r: int, xp: int) {
    var km := PointParent(k1, p, x, r, xp);
    if r == 0 then k2 == km
    else
      Relinked(km, k2, x, r, xp) &&
      forall a :: a != r ==> At(k2.child0, a) == At(km.child0, a) && At(k2.child1, a) == At(km.child1, a)
  }

  lemma HeadSubRep(k1: Links, k2: Links, p: int, i: int, x: int, r: int, xp: int, sub: Tree, lo: int, e: int)
    requires sub.Node? && Shape(sub, lo, e) && |sub.ring| > 0 && x == sub.ring[0] && x in Addrs(sub)
    requires r != 0 ==> Parts(k1, RemoveRoot(sub), x, r, i)
    requires r == 0 <==> RemoveRoot(sub).Nil?
    requires xp !in Addrs(sub) && xp != 0
    requires HeadRelinked(k1, k2, p, x, r, xp)
    ensures Rep(k2, RemoveRoot(sub), r, xp, i)
  {
    hide Shape, Addrs, Pow2, Rep, RemoveRoot, Sizes, Parts, Relinked, HeadRelinked;
    RemoveRootMembers(sub, lo, e);
    RemoveRootShape(sub, lo, e);
    if r == 0 {
      NilRep(k2, xp, i);
    } else {
      PointedRelinked(k1, k2, p, x, r, xp);
      RelinkRep(k1, k2, RemoveRoot(sub), x, r, xp, i, lo, e);
    }
  }

  lemma PointedRelinked(k1: Links, k2: Links, p: int, x: int, r: int, xp: int)
    requires HeadRelinked(k1, k2, p, x, r, xp) && r != 0 && xp != x
    ensures Relinked(k1, k2, x, r, xp)
  {
    PointedWords(k1, p, x, r, xp);
    hide PointParent, At;
    RelinkedFrom(k1, PointParent(k1, p, x, r, xp), k2, x, r, xp);
  }

  lemma PointedWords(k: Links, p: int, x: int, r: int, xp: int)
    ensures var km := PointParent(k, p, x, r, xp);
      && km.fd == k.fd && km.bk == k.bk && km.index == k.index && km.parent == k.parent
      && forall a :: a != xp ==> At(km.child0, a) == At(k.child0, a) && At(km.child1, a) == At(k.child1, a)
  {
    AtUpdated(k.child0, xp, r);
    AtUpdated(k.child1, xp, r);
    hide At;
  }

  lemma AtUpdated(m: map<int, int>, x: int, v: int)
    ensures forall a :: a != x ==> At(m[x := v], a) == At(m, a)
  {}

  lemma RelinkedFrom(k1: Links, km: Links, k2: Links, x: int, r: int, xp: int)
    requires km.fd == k1.fd && km.bk == k1.bk && km.index == k1.index && km.parent == k1.parent && xp != x
    requires forall a :: a != xp ==> At(km.child0, a) == At(k1.child0, a) && At(km.child1, a) == At(k1.child1, a)
    requires Relinked(km, k2, x, r, xp)
    ensures Relinked(k1, k2, x, r, xp)
  {
    hide At;
    forall a | a != r && a != xp
      ensures At(k2.child0, a) == At(k1.child0, a) && At(k2.child1, a) == At(k1.child1, a)
    {
      assert At(k2.child0, a) == At(km.child0, a) && At(k2.child1, a) == At(km.child1, a);
    }
  }

  lemma HeadPointers(k1: Links, i: int, x: int, r: int, sub: Tree, lo: int, e: int)
    requires sub.Node? && Shape(sub, lo, e) && |sub.ring| > 0 && Parts(k1, RemoveRoot(sub), x, r, i)
    ensures r in Addrs(sub)
    ensures var c0, c1 := At(k1.child0, x), At(k1.child1, x);
      (c0 != 0 ==> c0 in Addrs(sub)) && (c1 != 0 ==> c1 in Addrs(sub))
  {
    hide Shape, Addrs, Parts, RemoveRoot;
    RemoveRootMembers(sub, lo, e);
    PartsPointers(k1, RemoveRoot(sub), x, r, i);
  }

  lemma HeadWords(k: Links, k1: Links, k2: Links, p: int, x: int, r: int, xp: int, inside: set<int>, all: set<int>)
    requires inside <= all && x in inside && xp == At(k.parent, x)
    requires r != 0 ==> var c0, c1 := At(k1.child0, x), At(k1.child1, x);
      r in inside && (c0 != 0 ==> c0 in inside) && (c1 != 0 ==> c1 in inside)
    requires forall a :: a !in inside ==> SameWords(k, k1, a)
    requires xp !in inside && (x != p ==> xp in all) && (x == p ==> xp !in all)
    requires HeadRelinked(k1, k2, p, x, r, xp)
    ensures Repointed(k, k2, all - inside, x, r)
    ensures forall a :: a !in all ==> SameWords(k, k2, a)
  {
    RelinkedOutside(k1, k2, p, x, r, xp, inside);
    hide HeadRelinked;
    assert SameWords(k, k1, xp);
    forall a | a !in inside && (a != xp || x == p)
      ensures SameWords(k, k2, a)
    {
      assert SameWords(k, k1, a) && SameWords(k1, k2, a);
    }
  }

  lemma PointParentWords(k: Links, p: int, x: int, r: int, xp: int)
    ensures var km := PointParent(k, p, x, r, xp);
            && (forall a :: a != xp || x == p ==> SameWords(k, km, a)) && SameRing(k, km, xp)
            && At(km.parent, xp) == At(k.parent, xp) && At(km.index, xp) == At(k.index, xp)
            && (x != p ==>
                 && At(km.child0, xp) == (if At(k.child0, xp) == x then r else At(k.child0, xp))
                 && At(km.child1, xp) == (if At(k.child0, xp) == x then At(k.child1, xp) else r))
            && (x != xp ==> At(km.child0, x) == At(k.child0, x) && At(km.child1, x) == At(k.child1, x))
  {}

  lemma RelinkedWords(k: Links, k': Links, x: int, r: int, xp: int, inside: set<int>)
    requires Relinked(k, k', x, r, xp) && r in inside
    requires var c0, c1 := At(k.child0, x), At(k.child1, x);
      (c0 != 0 ==> c0 in inside) && (c1 != 0 ==> c1 in inside)
    requires forall a :: a != r ==> At(k'.child0, a) == At(k.child0, a) && At(k'.child1, a) == At(k.child1, a)
    ensures forall a :: a !in inside ==> SameWords(k, k', a)
  {}

  /** Relinking touches the words of the subtree's chunks, and the pointer to it. */
  lemma RelinkedOutside(k: Links, k': Links, p: int, x: int, r: int, xp: int, inside: set<int>)
    requires HeadRelinked(k, k', p, x, r, xp) && xp !in inside && x in inside
    requires r != 0 ==> var c0, c1 := At(k.child0, x), At(k.child1, x);
      r in inside && (c0 != 0 ==> c0 in inside) && (c1 != 0 ==> c1 in inside)
    ensures forall a :: a !in inside && (a != xp || x == p) ==> SameWords(k, k', a)
    ensures SameRing(k, k', xp) && At(k'.parent, xp) == At(k.parent, xp) && At(k'.index, xp) == At(k.index, xp)
    ensures x != p ==>
      && At(k'.child0, xp) == (if At(k.child0, xp) == x then r else At(k.child0, xp))
      && At(k'.child1, xp) == (if At(k.child0, xp) == x then At(k.child1, xp) else r)
  {
    var km := PointParent(k, p, x, r, xp);
    PointParentWords(k, p, x, r, xp);
    hide PointParent;
    if r != 0 {
      RelinkedWords(km, k', x, r, xp, inside);
      hide Relinked;
      forall a | a !in inside && (a != xp || x == p)
        ensures SameWords(k, k', a)
      {
        assert SameWords(k, km, a) && SameWords(km, k', a);
      }
      assert SameWords(km, k', xp);
    }
  }

  lemma MemberUnlinked(k: Links, k1: Links, t: Tree, p: int, i: int, h: int, n: int, lo: int, e: int)
    requires Rep(k, t, p, TreebinAt(i), i) && Shape(t, lo, e) && h in Heads(t) && i >= 0
    requires SubAt(t, h).Node? && 1 <= n < |SubAt(t, h).ring|
    requires var x := SubAt(t, h).ring[n];
      var f, r := At(k.fd, x), At(k.bk, x);
      k1 == k.(fd := k.fd[r := f], bk := k.bk[f := r])
    ensures var sub := SubAt(t, h);
      var t' := Graft(t, h, sub.(ring := Without(sub.ring, n)));
      && Rep(k1, t', p, TreebinAt(i), i) && Shape(t', lo, e) && Removed(t, t', sub.ring[n]) && t'.Node?
    ensures forall a :: a !in Addrs(t) ==> SameWords(k, k1, a)
  {
    hide Shape, Addrs, Pow2, Rep, SubAt, Heads, Graft, Removed, Fits, SizeOf, Without;
    var sub, xp := SubAt(t, h), At(k.parent, h);
    var x := sub.ring[n];
    var sub' := sub.(ring := Without(sub.ring, n));
    SubAtMembers(t, h, lo, e);
    var lo', e' :| Shape(sub, lo', e');
    SubAtRep(k, t, p, TreebinAt(i), i, h, lo, e);
    OpenRep(k, sub, h, xp, i);
    OpenShape(sub, lo', e');
    ElemsIn(sub.ring);
    assert x in sub.ring;
    RemoveMemberRep(k, k1, sub, h, xp, i, n, lo', e');
    RemoveLinks(k.fd, k.bk, sub.ring, n);
    hide IsRing, RingTail, RingIndex;
    MemberRemoved(sub, n, lo', e');
    GraftRemoved(t, h, sub', x, lo, e);
    assert forall a :: a !in Addrs(sub) ==> SameRing(k, k1, a);
    assert forall a :: SameTree(k, k1, a);
    TreebinOutside(k, t, p, i);
    GraftBin(k, k1, t, p, i, h, sub', h, lo, e);
  }

  /** What the relinking step finds when it starts. */
  lemma HeadReady(k: Links, k1: Links, t: Tree, p: int, i: int, x: int, r: int, lo: int, e: int)
    requires Rep(k, t, p, TreebinAt(i), i) && Shape(t, lo, e) && x in Heads(t) && i >= 0
    requires SubAt(t, x).Node? && |SubAt(t, x).ring| > 0 && Chosen(k, k1, SubAt(t, x), x, r) && r != 0
    ensures var xp := At(k.parent, x);
      && xp != r && xp != x && r != x && At(k1.child0, xp) == At(k.child0, xp)
      && At(k1.child0, r) == 0 && At(k1.child1, r) == 0
      && r != At(k1.child0, x) && r != At(k1.child1, x)
      && (At(k1.child0, x) != 0 ==> At(k1.child0, x) != At(k1.child1, x))
  {
    hide Shape, Addrs, Pow2, Rep, SubAt, Heads, Graft, RemoveRoot, Chosen, Fits, SizeOf;
    var sub, xp := SubAt(t, x), At(k.parent, x);
    SubAtMembers(t, x, lo, e);
    var lo', e' :| Shape(sub, lo', e');
    SubAtRep(k, t, p, TreebinAt(i), i, x, lo, e);
    ChosenParts(k, k1, sub, x, r, xp, i, lo', e');
    HeadPointers(k1, i, x, r, sub, lo', e');
    PartsPointers(k1, RemoveRoot(sub), x, r, i);
    TreebinOutside(k, t, p, i);
    assert SameWords(k, k1, xp);
  }

  // ---------------------------------------------------------------- best fit

  /** Where the walk along leftmost children stands in the tree `t` of bin `i`. */
  ghost predicate Leftward(links: Links, t: Tree, i: int, cur: Tree, node: int, par: int, lo: int, e: int) {
    && (cur.Node? ==> Shape(cur, lo, e)) && Within(t, cur) && Rep(links, cur, node, par, i)
  }

  lemma LeftwardStep(links: Links, t: Tree, i: int, cur: Tree, node: int, par: int, lo: int, e: int)
    returns (lo': int, e': int)
    requires Leftward(links, t, i, cur, node, par, lo, e) && node != 0
    ensures cur.Node? && Shape(cur, lo, e) && node in Addrs(t) && SizeOf(t, node) == cur.size
    ensures var next := if links.Child(false, node) != 0 then links.Child(false, node) else links.Child(true, node);
            Leftward(links, t, i, LeftmostChild(cur), next, node, lo', e')
  {
    hide Shape, Rep, Pow2, Addrs, SizeOf;
    RootPointer(links, cur, node, par, i);
    OpenRep(links, cur, node, par, i);
    WithinChildren(t, cur, lo, e);
    LeafStep(links, cur, node, par, i);
    OpenShape(cur, lo, e);
    lo', e' := if cur.left.Node? then lo else if e > 0 then lo + Pow2(e - 1) else lo, e - 1;
    NilShape(lo', e');
  }

  /** `v` is the best chunk seen so far, `rsize` by how much it is too large. */
  ghost predicate Candidate(t: Tree, nb: int, v: int, rsize: int) {
    if v == 0 then rsize == WORD - nb
    else v in Addrs(t) && SizeOf(t, v) == nb + rsize && 0 <= rsize <= WORD - nb
  }

  lemma NilLeftward(links: Links, t: Tree, i: int, par: int)
    ensures Leftward(links, t, i, Nil, 0, par, 0, 0)
  {}

  lemma DescendLeft(
    links: Links, t: Tree, i: int, s: int, cur: Tree, node: int, par: int, lo: int, e: int, k: int)
    requires Descending(links, t, i, s, cur, node, par, lo, e, k)
    ensures Leftward(links, t, i, cur, node, par, lo, e)
  {}

  /** The right child of the node where the walk stands; it is not the left child as well. */
  lemma RightSubtree(
    links: Links, t: Tree, i: int, s: int, cur: Tree, node: int, par: int, lo: int, e: int, k: int)
    requires Descending(links, t, i, s, cur, node, par, lo, e, k) && e > 0
    ensures links.Child(true, node) == 0 <==> cur.right.Nil?
    ensures links.Child(true, node) != 0 ==> links.Child(true, node) != links.Child(false, node)
    ensures cur.right.Node? ==> Leftward(links, t, i, cur.right, links.Child(true, node), node, lo + Pow2(e - 1), e - 1)
  {
    hide Shape, Rep, Pow2, Addrs, SizeOf, Within;
    OpenRep(links, cur, node, par, i);
    OpenShape(cur, lo, e);
    WithinChildren(t, cur, lo, e);
    LeafStep(links, cur, node, par, i);
    RootPointer(links, cur.left, links.Child(false, node), node, i);
    RootPointer(links, cur.right, links.Child(true, node), node, i);
  }

  /** The state of the search in the bin of the requested size: the walk down stands at `cur`, and `rst`
      is the deepest right subtree it passed by. */
  ghost predicate Searching(
    links: Links, t: Tree, i: int, nb: int, bound: int,
    cur: Tree, node: int, par: int, lo: int, e: int, k: int, rcur: Tree, rst: int, rpar: int, rlo: int, re: int)
  {
    && Descending(links, t, i, nb, cur, node, par, lo, e, k)
    && Leftward(links, t, i, rcur, rst, rpar, rlo, re)
    && Pending(Sizes(t), nb, bound, cur, rcur) && AllAtLeast(rcur, lo + Pow2(e))
  }

  lemma SearchStart(links: Links, t: Tree, i: int, nb: int, node: int)
    requires 0 <= i < NBINS && Rep(links, t, node, TreebinAt(i), i) && Shape(t, BinLow(i), BinWidth(i)) && t.Node?
    requires BinLow(i) <= nb < BinLow(i) + Pow2(BinWidth(i))
    ensures Searching(links, t, i, nb, WORD, t, node, TreebinAt(i), BinLow(i), BinWidth(i),
                      nb * Pow2(LeftShift(i)) % WORD, Nil, 0, TreebinAt(i), 0, 0)
  {
    hide Shape, Rep, Pow2, Addrs, SizeOf, Sizes, Descending, Leftward;
    DescendStart(links, t, i, nb, node);
    NilLeftward(links, t, i, TreebinAt(i));
    NilMembers();
  }

  /** One step of the search at a node of another size. */
  lemma SearchStep(
    links: Links, t: Tree, i: int, nb: int, bound: int,
    cur: Tree, node: int, par: int, lo: int, e: int, k: int, rcur: Tree, rst: int, rpar: int, rlo: int, re: int)
    requires Searching(links, t, i, nb, bound, cur, node, par, lo, e, k, rcur, rst, rpar, rlo, re) && cur.size != nb
    ensures e > 0
    ensures var right := k >= 0x8000_0000;
            var next := if right then cur.right else cur.left;
            var rt, c := links.Child(true, node), links.Child(right, node);
            var lo' := if right then lo + Pow2(e - 1) else lo;
            var turned := rt != 0 && rt != c;
            var rcur', rst' := if turned then cur.right else rcur, if turned then rt else rst;
            var rpar', rlo', re' :=
              if turned then node else rpar, if turned then lo + Pow2(e - 1) else rlo, if turned then e - 1 else re;
            var bound' := Better(nb, bound, cur.size);
            if c == 0 then
              && Leftward(links, t, i, rcur', rst', rpar', rlo', re')
              && PendingLeft(Sizes(t), nb, bound', rcur') && AllAtLeast(rcur', nb)
            else
              next.Node? && Searching(links, t, i, nb, bound', next, c, node, lo', e - 1, k * 2 % WORD,
                                      rcur', rst', rpar', rlo', re')
  {
    hide Shape, Rep, Pow2, Addrs, SizeOf, Sizes, Descending, Leftward, Walk, Pending, PendingLeft, AllAtLeast, Better;
    DescendRange(links, t, i, nb, cur, node, par, lo, e, k);
    DescendStep(links, t, i, nb, cur, node, par, lo, e, k);
    WalkStep(Sizes(t), nb, bound, cur, rcur, lo, e);
    RightSubtree(links, t, i, nb, cur, node, par, lo, e, k);
    var right := k >= 0x8000_0000;
    if links.Child(right, node) == 0 {
      WalkEnds(Sizes(t), nb, Better(nb, bound, cur.size), if !right && cur.right.Node? then cur.right else rcur,
               (if right then lo + Pow2(e - 1) else lo) + Pow2(e - 1));
    }
  }

  lemma DescendRange(
    links: Links, t: Tree, i: int, s: int, cur: Tree, node: int, par: int, lo: int, e: int, k: int)
    requires Descending(links, t, i, s, cur, node, par, lo, e, k)
    ensures cur.Node? && 0 <= e <= 32 && Shape(cur, lo, e) && lo <= s < lo + Pow2(e)
  {}

  /** At the end of the path nothing is left below it. */
  lemma WalkEnds(sizes: set<int>, nb: int, bound: int, rst: Tree, end: int)
    requires Pending(sizes, nb, bound, Nil, rst) && AllAtLeast(rst, end) && nb < end
    ensures PendingLeft(sizes, nb, bound, rst) && AllAtLeast(rst, nb)
  {
    hide AllBelow;
    NilMembers();
  }

  lemma SearchHere(
    links: Links, t: Tree, i: int, nb: int, bound: int,
    cur: Tree, node: int, par: int, lo: int, e: int, k: int, rcur: Tree, rst: int, rpar: int, rlo: int, re: int)
    requires Searching(links, t, i, nb, bound, cur, node, par, lo, e, k, rcur, rst, rpar, rlo, re)
    ensures node in Addrs(t) && SizeOf(t, node) == cur.size && node > 0
    ensures Leftward(links, t, i, cur, node, par, lo, e) && PendingLeft(Sizes(t), nb, nb, cur)
  {
    hide Shape, Rep, Pow2, Addrs, SizeOf, Sizes, Descending, Leftward, Pending, AllAtLeast;
    DescendHere(links, t, i, nb, cur, node, par, lo, e, k);
    DescendLeft(links, t, i, nb, cur, node, par, lo, e, k);
  }

  lemma LeftwardNil(links: Links, t: Tree, i: int, cur: Tree, par: int, lo: int, e: int)
    requires Leftward(links, t, i, cur, 0, par, lo, e)
    ensures cur.Nil?
  {
    RootPointer(links, cur, 0, par, i);
  }

  lemma NothingPending(sizes: set<int>, nb: int, bound: int)
    requires PendingLeft(sizes, nb, bound, Nil)
    ensures forall s :: s in sizes && nb <= s ==> bound <= s
  {}

  lemma EmptyTree(t: Tree, nb: int, bound: int)
    requires t.Nil?
    ensures PendingLeft(Sizes(t), nb, bound, Nil) && AllAtLeast(Nil, nb)
  {}

  lemma AtLeastRoot(t: Tree, b: int)
    requires t.Node?
    ensures AllAtLeast(t, b) ==> b <= t.size
  {
    assert t.size in Sizes(t);
  }

  // ---------------------------------------------------------------- changes that do not touch bins

  /** Filing only depends on the binned chunks. */
  lemma FiledFrame(b: Bins, chunks: map<int, Chunk>, chunks': map<int, Chunk>)
    requires Filed(b, chunks)
    requires forall a :: a in chunks && chunks[a].kind.Binned? ==>
      a in chunks' && chunks'[a].kind.Binned? && chunks'[a].size == chunks[a].size
    requires forall a :: a in chunks' && chunks'[a].kind.Binned? ==> a in chunks && chunks[a].kind.Binned?
    ensures Filed(b, chunks')
  {
    hide Addrs, SizeOf, TreeIndex;
    forall j, a | 0 <= j < NBINS && a in b.small[j]
      ensures FiledSmall(chunks', a, j)
    {
      assert FiledSmall(chunks, a, j);
    }
    forall j, a | 0 <= j < NBINS && a in Addrs(b.trees[j])
      ensures FiledLarge(chunks', b.trees[j], a, j)
    {
      assert FiledLarge(chunks, b.trees[j], a, j);
    }
    forall a | a in chunks' && chunks'[a].kind.Binned?
      ensures InBin(b, a, chunks'[a].size)
    {
      assert InBin(b, a, chunks[a].size);
    }
  }

  /** The bins only rely on the link words of binned chunks (of those in small bins, only on two) and of
      the bin headers. */
  ghost predicate SameLinks(chunks: map<int, Chunk>, k: Links, k': Links) {
    && (forall a {:trigger SameRing(k, k', a)} :: a < 0 || (a in chunks && chunks[a].kind.Binned?) ==> SameRing(k, k', a))
    && (forall a {:trigger SameWords(k, k', a)} :: a in chunks && chunks[a].kind.Binned? && !IsSmall(chunks[a].size) ==>
          SameWords(k, k', a))
  }

  lemma BinsFrame(b: Bins, b': Bins, chunks: map<int, Chunk>)
    requires BinsOk(b) && Filed(b, chunks) && SameLinks(chunks, b.links, b'.links) && b' == b.(links := b'.links)
    ensures BinsOk(b') && Filed(b', chunks)
  {
    hide Addrs, SizeOf, TreeIndex, SameWords, SameRing, Rep, Shape, IsRing, Marked;
    forall j | 0 <= j < NBINS
      ensures SmallBinOk(b', j)
    {
      assert SmallBinOk(b, j);
      assert forall a :: a in b.small[j] ==> FiledSmall(chunks, a, j);
      SmallBinFrame(b, b', j);
    }
    forall j | 0 <= j < NBINS
      ensures TreeBinOk(b', j)
    {
      assert TreeBinOk(b, j);
      forall a | a in Addrs(b.trees[j])
        ensures SameWords(b.links, b'.links, a)
      {
        assert FiledLarge(chunks, b.trees[j], a, j);
      }
      TreeBinFrame(b, b', j);
    }
    forall a | a in chunks && chunks[a].kind.Binned?
      ensures InBin(b', a, chunks[a].size)
    {
      assert InBin(b, a, chunks[a].size);
    }
    forall j, a | 0 <= j < NBINS && a in b'.small[j]
      ensures FiledSmall(chunks, a, j)
    {
      assert a in b.small[j];
    }
    forall j, a | 0 <= j < NBINS && a in Addrs(b'.trees[j])
      ensures FiledLarge(chunks, b'.trees[j], a, j)
    {
      assert a in Addrs(b.trees[j]);
    }
  }

  /** Fresh bins, which hold nothing. */
  lemma EmptyBins(b: Bins)
    requires b.smallmap == 0 && b.treemap == 0 && |b.small| == |b.trees| == |b.treebins| == NBINS
    requires forall i :: 0 <= i < NBINS ==> b.small[i] == [] && b.trees[i] == Nil && b.treebins[i] == 0
    ensures BinsOk(b) && Filed(b, map[])
  {
    hide Index, TreeIndex, BinLow, BinWidth;
    forall i | 0 <= i < NBINS
      ensures SmallBinOk(b, i) && TreeBinOk(b, i)
    {
      ZeroMap(Index(i));
      assert b.trees[i] == Nil;
      assert b.small[i] == [];
      NilShape(BinLow(i), BinWidth(i));
    }
    forall j | 0 <= j < NBINS
      ensures Addrs(b.trees[j]) == {} && b.small[j] == []
    {
      assert b.trees[j] == Nil;
    }
  }

  lemma ZeroMap(b: bv32)
    requires b < 32
    ensures !BitAt(0, b)
  {}
}
