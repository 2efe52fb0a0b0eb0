/** What the allocator keeps true of the tiling between operations, and how single steps change it. */
module ChunkMaps {
  import opened Rings
  import opened Tiles

  /** No two free chunks are neighbours. */
  ghost predicate NoFreeNeighbours(chunks: map<int, Chunk>) {
    forall a {:trigger UsedBefore(chunks, chunks[a].prev)} :: a in chunks && !chunks[a].kind.InUse? ==>
      UsedBefore(chunks, chunks[a].prev)
  }

  ghost predicate NothingLoose(chunks: map<int, Chunk>) {
    forall a :: a in chunks ==> !chunks[a].kind.Loose?
  }

  /** The designated victim, if there is one, is the only chunk of its kind. */
  ghost predicate VictimOk(chunks: map<int, Chunk>, dv: int, dvsize: int) {
    && (if dvsize == 0 then dv == 0 else dv in chunks && chunks[dv].kind.Dv? && chunks[dv].size == dvsize)
    && forall a :: a in chunks && chunks[a].kind.Dv? ==> a == dv && dvsize != 0
  }

  /** The allocated chunks and their sizes. */
  ghost function LiveOf(chunks: map<int, Chunk>): map<int, int> {
    map a | a in chunks && chunks[a].kind.InUse? :: chunks[a].size
  }

  ghost function Rekinded(chunks: map<int, Chunk>, a: int, kind: Kind): map<int, Chunk>
    requires a in chunks
  {
    chunks[a := chunks[a].(kind := kind)]
  }

  /** Changing the kind of a free chunk. */
  lemma RekindKeeps(chunks: map<int, Chunk>, a: int, kind: Kind)
    requires a in chunks && !chunks[a].kind.InUse? && !kind.InUse?
    ensures LiveOf(Rekinded(chunks, a, kind)) == LiveOf(chunks)
    ensures NoFreeNeighbours(chunks) ==> NoFreeNeighbours(Rekinded(chunks, a, kind))
  {
    var chunks' := Rekinded(chunks, a, kind);
    if NoFreeNeighbours(chunks) {
      forall b | b in chunks' && !chunks'[b].kind.InUse?
        ensures UsedBefore(chunks', chunks'[b].prev)
      {
        assert UsedBefore(chunks, chunks[b].prev);
      }
    }
  }

  /** A whole free chunk is allocated. */
  lemma TakeKeeps(chunks: map<int, Chunk>, a: int)
    requires a in chunks && !chunks[a].kind.InUse? && NoFreeNeighbours(chunks)
    ensures NoFreeNeighbours(Rekinded(chunks, a, InUse))
    ensures LiveOf(Rekinded(chunks, a, InUse)) == LiveOf(chunks)[a := chunks[a].size]
  {
    var chunks' := Rekinded(chunks, a, InUse);
    forall b | b in chunks' && !chunks'[b].kind.InUse?
      ensures UsedBefore(chunks', chunks'[b].prev)
    {
      assert UsedBefore(chunks, chunks[b].prev);
    }
  }

  /** A free chunk is cut, and its lower part allocated. */
  lemma CutKeeps(g: Tags, s: Segment, a: int, nb: int)
    requires Tiling(g, s) && a in s.chunks && !s.chunks[a].kind.InUse? && NoFreeNeighbours(s.chunks)
    requires a + nb !in s.chunks && nb > 0
    ensures var chunks' := Cut(s, a, nb, Loose).chunks;
            NoFreeNeighbours(chunks') && LiveOf(chunks') == LiveOf(s.chunks)[a := nb]
  {
    var chunks' := Cut(s, a, nb, Loose).chunks;
    var n := a + s.chunks[a].size;
    NextChunk(g, s, a);
    assert n in s.chunks ==> UsedBefore(s.chunks, s.chunks[n].prev) == s.chunks[a].kind.InUse?;
    forall b | b in chunks' && !chunks'[b].kind.InUse?
      ensures UsedBefore(chunks', chunks'[b].prev)
    {
      if b != a + nb {
        NextChunk(g, s, b);
        assert UsedBefore(s.chunks, s.chunks[b].prev);
      }
    }
  }

  /** `p` is the only loose chunk. */
  ghost predicate OnlyLoose(chunks: map<int, Chunk>, p: int) {
    p in chunks && chunks[p].kind.Loose? && forall a :: a in chunks && a != p ==> !chunks[a].kind.Loose?
  }

  lemma UnbinnedLoose(chunks: map<int, Chunk>, p: int, dv: int, dvsize: int)
    requires p in chunks && chunks[p].kind.Binned? && NothingLoose(chunks) && VictimOk(chunks, dv, dvsize)
    ensures var chunks' := Rekinded(chunks, p, Loose);
            OnlyLoose(chunks', p) && VictimOk(chunks', dv, dvsize) && LiveOf(chunks') == LiveOf(chunks)
  {
    RekindKeeps(chunks, p, Loose);
  }

  lemma LooseUsed(chunks: map<int, Chunk>, p: int, dv: int, dvsize: int)
    requires OnlyLoose(chunks, p) && VictimOk(chunks, dv, dvsize)
    ensures var chunks' := Rekinded(chunks, p, InUse); NothingLoose(chunks') && VictimOk(chunks', dv, dvsize)
  {}

  /** The loose chunk is cut: its upper part is the loose chunk now. */
  lemma LooseCut(s: Segment, p: int, nb: int, dv: int, dvsize: int)
    requires OnlyLoose(s.chunks, p) && p + nb !in s.chunks && 0 < nb < s.chunks[p].size
    requires VictimOk(s.chunks, dv, dvsize)
    ensures var cut := Cut(s, p, nb, Loose).chunks;
            && OnlyLoose(cut, p + nb) && VictimOk(cut, dv, dvsize)
            && cut[p + nb] == Chunk(s.chunks[p].size - nb, Loose, p)
  {}

  /** `after` holds one more allocated chunk than `before`, of the padded size `nb` or up to less than a
      chunk more. */
  ghost predicate Allocated(before: map<int, int>, after: map<int, int>, mem: int, nb: int) {
    var p := mem - 8;
    && p > 0 && Aligned(p) && p !in before && p in after && after == before[p := after[p]]
    && nb <= after[p] < nb + MIN_CHUNK
  }

  /** No free chunk holds `nb` bytes. */
  ghost predicate NothingFits(chunks: map<int, Chunk>, nb: int) {
    forall a :: a in chunks && !chunks[a].kind.InUse? ==> chunks[a].size < nb
  }

  /** `v` is a smallest binned chunk among those that hold `nb` bytes. */
  ghost predicate BestFit(chunks: map<int, Chunk>, v: int, nb: int) {
    && v in chunks && chunks[v].kind.Binned? && nb <= chunks[v].size
    && forall a :: a in chunks && chunks[a].kind.Binned? && nb <= chunks[a].size ==> chunks[v].size <= chunks[a].size
  }

  /** No binned chunk holds `nb` bytes, unless the victim does and is no larger. */
  ghost predicate NoneBetter(chunks: map<int, Chunk>, nb: int, dvsize: int) {
    forall a :: a in chunks && chunks[a].kind.Binned? && nb <= chunks[a].size ==> nb <= dvsize <= chunks[a].size
  }

  lemma FreeNotLive(g: Tags, s: Segment, p: int)
    requires Tiling(g, s) && p in s.chunks && !s.chunks[p].kind.InUse?
    ensures p > 0 && Aligned(p) && p !in LiveOf(s.chunks)
  {
    ChunkBounds(g, s, p);
  }

  /** The lower part of `top` is allocated. */
  lemma TopKeeps(g: Tags, s: Segment, nb: int, dv: int, dvsize: int)
    requires Tiling(g, s) && NoFreeNeighbours(s.chunks) && NothingLoose(s.chunks) && VictimOk(s.chunks, dv, dvsize)
    ensures s.top !in s.chunks && s.top > 0 && Aligned(s.top) && s.top !in LiveOf(s.chunks)
    ensures var chunks' := TopTaken(s, nb).chunks;
            && NoFreeNeighbours(chunks') && NothingLoose(chunks') && VictimOk(chunks', dv, dvsize)
            && LiveOf(chunks') == LiveOf(s.chunks)[s.top := nb]
  {
    TopNotChunk(g, s);
    var chunks' := TopTaken(s, nb).chunks;
    forall b | b in chunks' && !chunks'[b].kind.InUse?
      ensures UsedBefore(chunks', chunks'[b].prev)
    {
      assert UsedBefore(s.chunks, s.chunks[b].prev);
    }
  }

  /** `v` is a smallest chunk of all tree bins. */
  ghost predicate LeastLarge(chunks: map<int, Chunk>, v: int) {
    v in chunks && forall a :: a in chunks && chunks[a].kind.Binned? && chunks[a].size >= 256 ==>
      chunks[v].size <= chunks[a].size
  }

  // ---------------------------------------------------------------- merging free neighbours

  /** Where the chunk begins that `p` is merged into */
  ghost function MergeStart(chunks: map<int, Chunk>, p: int): int
    requires p in chunks
  {
    var b := chunks[p].prev; if b in chunks && !chunks[b].kind.InUse? then b else p
  }

  ghost predicate FusedTo(s: Segment, q: int, n: int, kind: Kind, s': Segment) {
    q in s.chunks && n in s.chunks && q < n && s' == Fused(s, q, n, kind)
  }

  /** What freeing `p` makes of the segment, the merged chunk beginning at `q`: it goes into the top when it reaches it;
      else it is one free chunk up to the next chunk in use, the designated victim if it took that in, or else in a bin. */
  ghost predicate FreedTo(s: Segment, dv: int, dvsize: int, p: int, q: int, s': Segment, dv': int, dvsize': int) {
    && p in s.chunks && q in s.chunks
    && var next := p + s.chunks[p].size;
       if next == s.top then s' == FusedTop(s, q) && (dv', dvsize') == if q == dv then (0, 0) else (dv, dvsize)
       else
         && next in s.chunks
         && var n := if s.chunks[next].kind.InUse? then next else next + s.chunks[next].size;
            var victim := q == dv || next == dv;
            && FusedTo(s, q, n, if victim then Dv else Binned, s')
            && (dv', dvsize') == if victim then (q, n - q) else (dv, dvsize)
  }

  lemma FreedIntoTop(s: Segment, dv: int, dvsize: int, p: int, q: int)
    requires p in s.chunks && q in s.chunks && p + s.chunks[p].size == s.top
    ensures FreedTo(s, dv, dvsize, p, q, FusedTop(s, q), if q == dv then 0 else dv, if q == dv then 0 else dvsize)
  {}

  lemma FreedUp(s: Segment, dv: int, dvsize: int, p: int, q: int, s': Segment)
    requires p in s.chunks && p + s.chunks[p].size != s.top
    requires var next := p + s.chunks[p].size;
      && next in s.chunks && s.chunks[next].kind.InUse? && next != dv
      && FusedTo(s, q, next, if q == dv then Dv else Binned, s')
    ensures FreedTo(s, dv, dvsize, p, q, s', dv, if q == dv then p + s.chunks[p].size - q else dvsize)
  {}

  lemma FreedBoth(s: Segment, dv: int, dvsize: int, p: int, q: int, s': Segment)
    requires p in s.chunks && p + s.chunks[p].size != s.top
    requires var next := p + s.chunks[p].size;
      && next in s.chunks && !s.chunks[next].kind.InUse?
      && FusedTo(s, q, next + s.chunks[next].size, if q == dv || next == dv then Dv else Binned, s')
    ensures var next := p + s.chunks[p].size; var n := next + s.chunks[next].size;
      FreedTo(s, dv, dvsize, p, q, s', if next == dv then q else dv, if q == dv || next == dv then n - q else dvsize)
  {}

  /** The kind of the free chunks before and behind does not matter. */
  lemma FusedAnyway(s: Segment, a: int, k: Kind, q: int, n: int, kind: Kind, s': Segment)
    requires a in s.chunks && q <= a < n && FusedTo(s.(chunks := Rekinded(s.chunks, a, k)), q, n, kind, s')
    ensures FusedTo(s, q, n, kind, s')
  {
    var s1 := s.(chunks := Rekinded(s.chunks, a, k));
    assert Fused(s1, q, n, kind).chunks == Fused(s, q, n, kind).chunks;
  }

  lemma FusedTopAnyway(s: Segment, q: int, k: Kind)
    requires q in s.chunks
    ensures FusedTop(s.(chunks := Rekinded(s.chunks, q, k)), q) == FusedTop(s, q)
  {
    var s1 := s.(chunks := Rekinded(s.chunks, q, k));
    assert FusedTop(s1, q).chunks == FusedTop(s, q).chunks;
  }

  lemma FusedThenFiled(s: Segment, q: int, n: int, kind: Kind, s': Segment)
    requires FusedTo(s, q, n, Loose, s')
    ensures q in s'.chunks && FusedTo(s, q, n, kind, s'.(chunks := Rekinded(s'.chunks, q, kind)))
  {
    assert Rekinded(Fused(s, q, n, Loose).chunks, q, kind) == Fused(s, q, n, kind).chunks;
  }

  /** The free chunk before was taken out of its bin first. */
  lemma FreedAnyway(s: Segment, dv: int, dvsize: int, p: int, q: int, s': Segment, dv': int, dvsize': int)
    requires q in s.chunks && q <= p && p in s.chunks && 0 < s.chunks[p].size && !s.chunks[q].kind.InUse? && s.chunks[p].kind.InUse?
    requires FreedTo(s.(chunks := Rekinded(s.chunks, q, Loose)), dv, dvsize, p, q, s', dv', dvsize')
    ensures FreedTo(s, dv, dvsize, p, q, s', dv', dvsize')
  {
    var next := p + s.chunks[p].size;
    if next == s.top {
      FusedTopAnyway(s, q, Loose);
    } else {
      var n := if s.chunks[next].kind.InUse? then next else next + s.chunks[next].size;
      FusedAnyway(s, q, Loose, q, n, if q == dv || next == dv then Dv else Binned, s');
    }
  }

  /** `p` is about to be freed; with its free neighbours it covers `[q, n)`. */
  ghost predicate Joined(chunks: map<int, Chunk>, p: int, q: int, n: int) {
    && p in chunks && chunks[p].kind.InUse? && q in chunks && n in chunks
    && (q == p || (q == chunks[p].prev && !chunks[q].kind.InUse?))
    && (q == p ==> UsedBefore(chunks, chunks[p].prev))
    && var next := p + chunks[p].size;
       if n == next then chunks[n].kind.InUse?
       else next in chunks && !chunks[next].kind.InUse? && n == next + chunks[next].size
  }

  lemma FreeThenUsed(chunks: map<int, Chunk>, a: int, n: int)
    requires NoFreeNeighbours(chunks) && a in chunks && !chunks[a].kind.InUse? && n in chunks && chunks[n].prev == a
    ensures chunks[n].kind.InUse?
  {
    var used := UsedBefore(chunks, chunks[n].prev);
  }

  lemma JoinedParts(g: Tags, s: Segment, p: int, q: int, n: int)
    requires Tiling(g, s) && NoFreeNeighbours(s.chunks) && Joined(s.chunks, p, q, n)
    ensures q <= p < n && s.chunks[n].kind.InUse? && UsedBefore(s.chunks, s.chunks[q].prev)
    ensures forall b :: b in s.chunks && q < b < n ==> b == p || b == p + s.chunks[p].size
    ensures s.chunks[n].prev == p || s.chunks[n].prev == p + s.chunks[p].size
  {
    hide Tiling, TileAt;
    var next := p + s.chunks[p].size;
    NextChunk(g, s, p);
    NextChunk(g, s, q);
    ChunkBounds(g, s, p);
    ChunkBounds(g, s, q);
    TopNotChunk(g, s);
    if n != next {
      NextChunk(g, s, next);
      ChunkBounds(g, s, next);
      FreeThenUsed(s.chunks, next, n);
    }
    if q != p {
      PrevChunk(g, s, p);
      assert UsedBefore(s.chunks, s.chunks[q].prev);
    }
    forall b | b in s.chunks && q < b < n
      ensures b == p || b == next
    {
      NoOverlap(g, s, q, b);
      if b < p {
        NoOverlap(g, s, b, p);
      } else if p < b {
        NoOverlap(g, s, p, b);
        if next < b {
          NoOverlap(g, s, next, b);
        }
      }
    }
  }

  lemma JoinKeeps(g: Tags, s: Segment, p: int, q: int, n: int, kind: Kind)
    requires Tiling(g, s) && NoFreeNeighbours(s.chunks) && Joined(s.chunks, p, q, n) && !kind.InUse?
    ensures q <= p < n
    ensures var chunks' := Fused(s, q, n, kind).chunks;
            NoFreeNeighbours(chunks') && LiveOf(chunks') == LiveOf(s.chunks) - {p}
  {
    hide Tiling, TileAt;
    JoinedParts(g, s, p, q, n);
    hide Joined;
    NoOverlap(g, s, q, n);
    NextChunk(g, s, q);
    TopNotChunk(g, s);
    var chunks' := Fused(s, q, n, kind).chunks;
    forall b | b in chunks' && !chunks'[b].kind.InUse?
      ensures UsedBefore(chunks', chunks'[b].prev)
    {
      assert UsedBefore(s.chunks, s.chunks[b].prev);
      if s.chunks[b].prev in s.chunks {
        PrevChunk(g, s, b);
      }
      if b != q {
        assert !(q < b < n) && b != n;
        NotInside(g, s, q, n, b);
      }
    }
  }

  /** The same for a last chunk, which merges into `top`. */
  ghost predicate JoinedTop(s: Segment, p: int, q: int) {
    && p in s.chunks && s.chunks[p].kind.InUse? && q in s.chunks && p + s.chunks[p].size == s.top
    && (q == p || (q == s.chunks[p].prev && !s.chunks[q].kind.InUse?))
    && (q == p ==> UsedBefore(s.chunks, s.chunks[p].prev))
  }

  lemma JoinTopKeeps(g: Tags, s: Segment, p: int, q: int)
    requires Tiling(g, s) && NoFreeNeighbours(s.chunks) && JoinedTop(s, p, q)
    ensures UsedBefore(s.chunks, s.chunks[q].prev) && q <= p
    ensures forall b :: b in s.chunks && q <= b ==> b == p || b == q
    ensures var chunks' := FusedTop(s, q).chunks;
            NoFreeNeighbours(chunks') && LiveOf(chunks') == LiveOf(s.chunks) - {p}
  {
    hide Tiling, TileAt;
    NextChunk(g, s, p);
    if q != p {
      PrevChunk(g, s, p);
      assert UsedBefore(s.chunks, s.chunks[q].prev);
    }
    forall b | b in s.chunks && q <= b
      ensures b == p || b == q
    {
      ChunkBounds(g, s, b);
      if q < b < p {
        NoOverlap(g, s, q, b);
      } else if p < b {
        NoOverlap(g, s, p, b);
      }
    }
    var chunks' := FusedTop(s, q).chunks;
    forall b | b in chunks' && !chunks'[b].kind.InUse?
      ensures UsedBefore(chunks', chunks'[b].prev)
    {
      assert UsedBefore(s.chunks, s.chunks[b].prev);
    }
  }

  /** While `p` is freed: `q` is `p`, or the free chunk before it, out of its bin. */
  ghost predicate Releasing(chunks: map<int, Chunk>, p: int, q: int) {
    && p in chunks && chunks[p].kind.InUse? && q in chunks && !chunks[q].kind.Binned?
    && (q == p || (q == chunks[p].prev && !chunks[q].kind.InUse?))
    && (q == p ==> UsedBefore(chunks, chunks[p].prev))
  }

  /** Nothing but `q` and `x` is loose. */
  ghost predicate LooseWithin(chunks: map<int, Chunk>, q: int, x: int) {
    forall a :: a in chunks && chunks[a].kind.Loose? ==> a == q || a == x
  }

  ghost predicate NothingLooseBut(chunks: map<int, Chunk>, q: int) {
    forall a :: a in chunks && a != q ==> !chunks[a].kind.Loose?
  }

  /** How a free starts: alone, with the victim before it, or with a chunk before it that leaves its bin. */
  lemma FreeStarts(chunks: map<int, Chunk>, p: int)
    requires p in chunks && chunks[p].kind.InUse? && NothingLoose(chunks)
    ensures UsedBefore(chunks, chunks[p].prev) ==> Releasing(chunks, p, p) && NothingLooseBut(chunks, p)
    ensures !UsedBefore(chunks, chunks[p].prev) ==>
      var q := chunks[p].prev;
      && q in chunks && !chunks[q].kind.InUse? && NothingLooseBut(chunks, q)
      && (chunks[q].kind.Dv? ==> Releasing(chunks, p, q))
      && (chunks[q].kind.Binned? ==>
            var chunks' := Rekinded(chunks, q, Loose);
            Releasing(chunks', p, q) && NothingLooseBut(chunks', q) && chunks'[p] == chunks[p])
  {}

  /** The free chunk behind leaves its bin. */
  lemma NextLoose(chunks: map<int, Chunk>, p: int, q: int, x: int, dv: int, dvsize: int)
    requires Releasing(chunks, p, q) && NothingLooseBut(chunks, q) && x in chunks && x != p && x != q
    requires chunks[x].kind.Binned? && VictimOk(chunks, dv, dvsize) && NoFreeNeighbours(chunks)
    ensures var chunks' := Rekinded(chunks, x, Loose);
      && Releasing(chunks', p, q) && LooseWithin(chunks', q, x) && VictimOk(chunks', dv, dvsize)
      && NoFreeNeighbours(chunks') && LiveOf(chunks') == LiveOf(chunks) && chunks'[p] == chunks[p] && chunks'[q] == chunks[q]
  {
    RekindKeeps(chunks, x, Loose);
  }

  lemma FreeKind(chunks: map<int, Chunk>, q: int)
    requires q in chunks && NothingLoose(chunks)
    ensures !chunks[q].kind.Loose?
  {}

  lemma NotLooseKind(chunks: map<int, Chunk>, q: int, x: int)
    requires x in chunks && x != q && NothingLooseBut(chunks, q)
    ensures !chunks[x].kind.Loose?
  {}

  lemma LooseButWithin(chunks: map<int, Chunk>, q: int, x: int)
    requires NothingLooseBut(chunks, q)
    ensures LooseWithin(chunks, q, x)
  {}

  lemma TopVictim(s: Segment, p: int, q: int, dv: int, dvsize: int)
    requires VictimOk(s.chunks, dv, dvsize) && Releasing(s.chunks, p, q)
    requires forall b :: b in s.chunks && q <= b ==> b == p || b == q
    requires NothingLooseBut(s.chunks, q) && q > 0
    ensures var chunks' := FusedTop(s, q).chunks;
      NothingLoose(chunks') && (if q == dv then VictimOk(chunks', 0, 0) else VictimOk(chunks', dv, dvsize))
  {}

  ghost predicate SameBinned(chunks: map<int, Chunk>, chunks': map<int, Chunk>) {
    && (forall a :: a in chunks && chunks[a].kind.Binned? ==>
          a in chunks' && chunks'[a].kind.Binned? && chunks'[a].size == chunks[a].size)
    && (forall a :: a in chunks' && chunks'[a].kind.Binned? ==> a in chunks && chunks[a].kind.Binned?)
  }

  /** The merged chunk is the victim, if one of the merged chunks was, else it is loose. */
  lemma JoinKinds(g: Tags, s: Segment, p: int, q: int, n: int, kind: Kind, dv: int, dvsize: int)
    requires Tiling(g, s) && NoFreeNeighbours(s.chunks) && Joined(s.chunks, p, q, n) && VictimOk(s.chunks, dv, dvsize)
    requires Releasing(s.chunks, p, q) && LooseWithin(s.chunks, q, p + s.chunks[p].size)
    requires var next := p + s.chunks[p].size;
      && next in s.chunks && !s.chunks[next].kind.Binned?
      && kind == if s.chunks[q].kind.Dv? || s.chunks[next].kind.Dv? then Dv else Loose
    ensures q <= p < n
    ensures var chunks' := Fused(s, q, n, kind).chunks;
      && SameBinned(s.chunks, chunks')
      && (kind.Dv? ==> NothingLoose(chunks') && VictimOk(chunks', q, n - q))
      && (kind.Loose? ==> OnlyLoose(chunks', q) && VictimOk(chunks', dv, dvsize))
      && chunks'[q].size == n - q
  {
    hide Tiling, TileAt;
    JoinedParts(g, s, p, q, n);
    ChunkBounds(g, s, p);
    ChunkBounds(g, s, p + s.chunks[p].size);
  }

  /** `set_size_and_pinuse_of_free_chunk` on the merged chunk; the chunk behind it has its `pinuse` bit
      cleared, unless it was behind a free chunk before. */
  ghost function FreeTags(g: Tags, q: int, size: int): Tags {
    Tags(g.head[q := size + PINUSE_BIT], g.foot[q + size := size])
  }

  ghost function ClearedTags(g: Tags, n: int): Tags {
    g.(head := g.head[n := ClearPinuse(At(g.head, n))])
  }

  lemma JoinTags(g: Tags, g0: Tags, s: Segment, p: int, q: int, n: int, kind: Kind)
    requires Tiling(g, s) && NoFreeNeighbours(s.chunks) && Joined(s.chunks, p, q, n) && !kind.InUse?
    requires g0 == ClearedTags(g, n) || (g0 == g && n != p + s.chunks[p].size)
    ensures q < n && Tiling(FreeTags(g0, q, n - q), Fused(s, q, n, kind))
  {
    JoinedParts(g, s, p, q, n);
    ReadTags(g, s, n);
    NextChunk(g, s, n);
    NextChunk(g, s, p);
    assert n != p + s.chunks[p].size ==> s.chunks[n].prev == p + s.chunks[p].size by {
      if n != p + s.chunks[p].size {
        NextChunk(g, s, p + s.chunks[p].size);
        TopNotChunk(g, s);
      }
    }
    assert At(g0.head, n) == s.chunks[n].size + CINUSE_BIT by {
      hide Tiling, Joined;
    }
    hide Tiling, TileAt, Joined;
    FuseTiling(g, FreeTags(g0, q, n - q), s, q, n, kind);
  }

  // ---------------------------------------------------------------- allocated chunks that change size

  /** `set_inuse` */
  ghost function InuseTags(g: Tags, p: int, size: int): Tags {
    var h := g.head[p := (if Pinuse(At(g.head, p)) then PINUSE_BIT else 0) + size + CINUSE_BIT];
    g.(head := h[p + size := SetPinuse(At(h, p + size))])
  }

  lemma SetPinuseKeeps(x: int, size: int)
    requires Aligned(size) && 0 <= x <= 1
    ensures SetPinuse(x + size + CINUSE_BIT) == size + PINUSE_BIT + CINUSE_BIT
  {}

  lemma PinuseSet(h: int)
    ensures Pinuse(SetPinuse(h))
  {}

  /** The chunk behind an allocated chunk already has its `pinuse` bit set. */
  lemma NextPinuse(g: Tags, s: Segment, p: int)
    requires Tiling(g, s) && p in s.chunks && s.chunks[p].kind.InUse?
    ensures Pinuse(At(g.head, p + s.chunks[p].size))
  {
    hide TileAt, HeadWord, Aligned;
    NextChunk(g, s, p);
    ReadTop(g, s);
    TopNotChunk(g, s);
    var n := p + s.chunks[p].size;
    if n in s.chunks {
      ReadTags(g, s, n);
    }
  }

  /** The two parts of an allocated chunk are marked, in either order. */
  lemma SplitUsedTags(g: Tags, s: Segment, p: int, nb: int, upperFirst: bool)
    requires Tiling(g, s) && p in s.chunks && s.chunks[p].kind.InUse?
    requires nb >= MIN_CHUNK && Aligned(nb) && s.chunks[p].size - nb >= MIN_CHUNK
    ensures var rsize := s.chunks[p].size - nb;
      var g' := if upperFirst then InuseTags(InuseTags(g, p + nb, rsize), p, nb)
                else InuseTags(InuseTags(g, p, nb), p + nb, rsize);
      Tiling(g', Cut(s, p, nb, InUse))
    ensures p + nb !in s.chunks
  {
    var rsize := s.chunks[p].size - nb;
    var r := p + nb;
    var g' := if upperFirst then InuseTags(InuseTags(g, r, rsize), p, nb) else InuseTags(InuseTags(g, p, nb), r, rsize);
    NextPinuse(g, s, p);
    ReadTags(g, s, p);
    ChunkBounds(g, s, p);
    hide Tiling, Pinuse, ChunkSize, Cinuse;
    AlignedSum(s.chunks[p].size, nb);
    PinuseSet(At(g.head, r));
    SetPinuseKeeps(0, rsize);
    SetPinuseKeeps(1, rsize);
    SplitUsed(g, g', s, p, nb);
  }

  lemma CutUsedKeeps(g: Tags, s: Segment, p: int, nb: int, dv: int, dvsize: int)
    requires Tiling(g, s) && p in s.chunks && s.chunks[p].kind.InUse? && p + nb !in s.chunks
    requires nb > 0 && s.chunks[p].size > nb
    requires NoFreeNeighbours(s.chunks) && NothingLoose(s.chunks) && VictimOk(s.chunks, dv, dvsize)
    ensures var chunks' := Cut(s, p, nb, InUse).chunks;
      && NoFreeNeighbours(chunks') && NothingLoose(chunks') && VictimOk(chunks', dv, dvsize) && SameBinned(s.chunks, chunks')
      && LiveOf(chunks') == LiveOf(s.chunks)[p := nb][p + nb := s.chunks[p].size - nb]
  {
    hide Tiling, TileAt;
    var chunks' := Cut(s, p, nb, InUse).chunks;
    var n := p + s.chunks[p].size;
    forall b | b in chunks' && !chunks'[b].kind.InUse?
      ensures UsedBefore(chunks', chunks'[b].prev)
    {
      assert UsedBefore(s.chunks, s.chunks[b].prev);
    }
  }

  /** The last chunk grows into `top`: `set_inuse`, then the head word of the new `top`. */
  lemma GrowLastTags(g: Tags, s: Segment, nb: int)
    requires Tiling(g, s) && s.last in s.chunks && Aligned(nb)
    requires s.chunks[s.last].size < nb < s.chunks[s.last].size + s.topsize
    ensures var newtop := s.last + nb;
      var g1 := InuseTags(g, s.last, nb);
      Tiling(g1.(head := g1.head[newtop := s.chunks[s.last].size + s.topsize - nb + PINUSE_BIT]), LastGrown(s, nb))
  {
    ReadTags(g, s, s.last);
    ChunkBounds(g, s, s.last);
    assert s.chunks[s.last].kind.InUse?;
    hide Tiling, Pinuse, ChunkSize, Cinuse, SetPinuse;
    var g1 := InuseTags(g, s.last, nb);
    var newtop := s.last + nb;
    GrowLast(g, g1.(head := g1.head[newtop := s.chunks[s.last].size + s.topsize - nb + PINUSE_BIT]), s, nb);
  }

  lemma GrowLastKeeps(s: Segment, nb: int, dv: int, dvsize: int)
    requires s.last in s.chunks && s.chunks[s.last].kind.InUse?
    requires NoFreeNeighbours(s.chunks) && NothingLoose(s.chunks) && VictimOk(s.chunks, dv, dvsize)
    ensures var chunks' := LastGrown(s, nb).chunks;
      && NoFreeNeighbours(chunks') && NothingLoose(chunks') && VictimOk(chunks', dv, dvsize) && SameBinned(s.chunks, chunks')
      && LiveOf(chunks') == LiveOf(s.chunks)[s.last := nb]
  {
    var chunks' := LastGrown(s, nb).chunks;
    forall b | b in chunks' && !chunks'[b].kind.InUse?
      ensures UsedBefore(chunks', chunks'[b].prev)
    {
      assert UsedBefore(s.chunks, s.chunks[b].prev);
    }
  }
}
