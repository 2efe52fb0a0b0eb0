/** Boundary tags.  The segment from `base` to `top` is tiled by chunks; every chunk's head word holds
    its size, its in-use bit and the in-use bit of the chunk before it, and the word behind a free
    chunk repeats its size.  `chunks` is the tiling the tag words are meant to describe. */
module Tiles {
  import opened Rings

  const NONE := -1
  const PINUSE_BIT := 1
  const CINUSE_BIT := 2
  const MIN_CHUNK := 16

  /** `InUse` chunks are allocated.  Free chunks are in a bin, or are the designated victim, or are
      being moved between the two. */
  datatype Kind = InUse | Binned | Dv | Loose

  /** A chunk, with the address of the chunk physically before it. */
  datatype Chunk = Chunk(size: int, kind: Kind, prev: int)

  datatype Tags = Tags(head: map<int, int>, foot: map<int, int>)

  datatype Segment = Segment(base: int, top: int, topsize: int, last: int, chunks: map<int, Chunk>)

  predicate Aligned(x: int) { x % 8 == 0 }

  lemma AlignedSum(x: int, y: int)
    requires Aligned(x) && Aligned(y)
    ensures Aligned(x + y) && Aligned(x - y)
  {}

  /** `chunksize`, `cinuse` and `pinuse` of a head word. */
  function ChunkSize(h: int): int { h - h % 4 }

  predicate Cinuse(h: int) { h / 2 % 2 == 1 }

  predicate Pinuse(h: int) { h % 2 == 1 }

  function SetPinuse(h: int): int { if Pinuse(h) then h else h + PINUSE_BIT }

  function ClearPinuse(h: int): int { if Pinuse(h) then h - PINUSE_BIT else h }

  ghost predicate UsedBefore(chunks: map<int, Chunk>, prev: int) {
    prev in chunks ==> chunks[prev].kind.InUse?
  }

  ghost function HeadWord(chunks: map<int, Chunk>, c: Chunk): int {
    c.size + (if c.kind.InUse? then CINUSE_BIT else 0) + (if UsedBefore(chunks, c.prev) then PINUSE_BIT else 0)
  }

  /** The chunk at `a` borders the chunks before and after it, and its tag words are right. */
  ghost predicate TileAt(g: Tags, s: Segment, a: int)
    requires a in s.chunks
  {
    var c := s.chunks[a];
    var n := a + c.size;
    && s.base <= a && Aligned(a) && c.size >= MIN_CHUNK && Aligned(c.size) && n <= s.top
    && (if a == s.base then c.prev == NONE
        else c.prev in s.chunks && c.prev + s.chunks[c.prev].size == a)
    && (if n == s.top then s.last == a else n in s.chunks && s.chunks[n].prev == a)
    && At(g.head, a) == HeadWord(s.chunks, c)
    && (!c.kind.InUse? ==> At(g.foot, n) == c.size)
  }

  ghost predicate Tiling(g: Tags, s: Segment) {
    && 0 < s.base <= s.top && Aligned(s.base) && Aligned(s.top) && s.topsize > 0 && Aligned(s.topsize)
    && (if s.base == s.top then s.last == NONE else s.base in s.chunks && s.last != NONE)
    && (s.last != NONE ==> s.last in s.chunks && s.last + s.chunks[s.last].size == s.top
                           && s.chunks[s.last].kind.InUse?)
    && At(g.head, s.top) == s.topsize + PINUSE_BIT
    && NONE !in s.chunks
    && forall a {:trigger TileAt(g, s, a)} :: a in s.chunks ==> TileAt(g, s, a)
  }

  // ---------------------------------------------------------------- what a tiling means

  /** Distinct chunks do not overlap. */
  lemma {:induction false} NoOverlap(g: Tags, s: Segment, a: int, b: int)
    requires Tiling(g, s) && a in s.chunks && b in s.chunks && a < b
    ensures a + s.chunks[a].size <= b
    decreases b
  {
    assert TileAt(g, s, a) && TileAt(g, s, b);
    var p := s.chunks[b].prev;
    assert TileAt(g, s, p);
    if p < a {
      NoOverlap(g, s, p, a);
    } else if a < p {
      NoOverlap(g, s, a, p);
    }
  }

  /** Every address of the segment below `top` lies in a chunk. */
  lemma {:induction false} Covered(g: Tags, s: Segment, x: int) returns (a: int)
    requires Tiling(g, s) && s.base <= x < s.top
    ensures a in s.chunks && a <= x < a + s.chunks[a].size
  {
    a := s.base;
    assert TileAt(g, s, a);
    while a + s.chunks[a].size <= x
      invariant a in s.chunks && a <= x && TileAt(g, s, a)
      decreases x - a
    {
      a := a + s.chunks[a].size;
      assert TileAt(g, s, a);
    }
  }

  lemma NextChunk(g: Tags, s: Segment, a: int)
    requires Tiling(g, s) && a in s.chunks
    ensures var n := a + s.chunks[a].size;
            (n == s.top && s.last == a) || (n in s.chunks && s.chunks[n].prev == a && n < s.top)
    ensures TileAt(g, s, a) && (s.chunks[a].prev in s.chunks ==> TileAt(g, s, s.chunks[a].prev))
  {
    assert TileAt(g, s, a);
    var n := a + s.chunks[a].size;
    if n in s.chunks {
      assert TileAt(g, s, n);
    }
  }

  lemma PrevChunk(g: Tags, s: Segment, a: int)
    requires Tiling(g, s) && a in s.chunks && s.chunks[a].prev in s.chunks
    ensures var p := s.chunks[a].prev; p < a && p + s.chunks[p].size == a
  {
    assert TileAt(g, s, a) && TileAt(g, s, s.chunks[a].prev);
  }

  lemma ChunkBounds(g: Tags, s: Segment, a: int)
    requires Tiling(g, s) && a in s.chunks
    ensures 0 < s.base <= a && Aligned(a) && s.chunks[a].size >= MIN_CHUNK && Aligned(s.chunks[a].size)
    ensures a + s.chunks[a].size <= s.top
  {
    assert TileAt(g, s, a);
  }

  /** What the macros read off the tag words of a chunk. */
  lemma ReadTags(g: Tags, s: Segment, a: int)
    requires Tiling(g, s) && a in s.chunks
    ensures var h := At(g.head, a);
            var c := s.chunks[a];
            && ChunkSize(h) == c.size && (Cinuse(h) <==> c.kind.InUse?)
            && (Pinuse(h) <==> UsedBefore(s.chunks, c.prev))
            && (!Pinuse(h) ==> c.prev in s.chunks && At(g.foot, a) == a - c.prev)
  {
    assert TileAt(g, s, a);
    var p := s.chunks[a].prev;
    if p in s.chunks {
      assert TileAt(g, s, p);
    }
  }

  lemma ReadTop(g: Tags, s: Segment)
    requires Tiling(g, s)
    ensures ChunkSize(At(g.head, s.top)) == s.topsize && Pinuse(At(g.head, s.top)) && !Cinuse(At(g.head, s.top))
  {
    assert Aligned(s.topsize) && At(g.head, s.top) == s.topsize + PINUSE_BIT;
    hide *;
    TopWord(s.topsize);
    TopWordBits(s.topsize);
  }

  lemma TopWord(size: int)
    requires Aligned(size)
    ensures ChunkSize(size + PINUSE_BIT) == size
  {}

  lemma TopWordBits(size: int)
    requires Aligned(size)
    ensures Pinuse(size + PINUSE_BIT) && !Cinuse(size + PINUSE_BIT)
  {}

  // ---------------------------------------------------------------- changes of the tiling

  /** A chunk is still right when nothing it depends on changed: its entry (up to the kind of free
      chunk), its neighbours and its tag words. */
  lemma TileFrame(g: Tags, g': Tags, s: Segment, s': Segment, b: int)
    requires b in s.chunks && TileAt(g, s, b) && b in s'.chunks && s'.base == s.base
    requires var c, c', n := s.chunks[b], s'.chunks[b], b + s.chunks[b].size;
      && c'.size == c.size && c'.prev == c.prev && c'.kind.InUse? == c.kind.InUse?
      && (c.prev in s.chunks ==>
            && c.prev in s'.chunks && s'.chunks[c.prev].size == s.chunks[c.prev].size
            && s'.chunks[c.prev].kind.InUse? == s.chunks[c.prev].kind.InUse?)
      && (c.prev !in s.chunks ==> c.prev !in s'.chunks)
      && n <= s'.top
      && (if n == s'.top then s'.last == b else n in s'.chunks && s'.chunks[n].prev == b)
      && At(g'.head, b) == At(g.head, b)
      && (!c.kind.InUse? ==> At(g'.foot, n) == At(g.foot, n))
    ensures TileAt(g', s', b)
  {}

  /** A free chunk changes hands: in a bin, designated victim, or loose. */
  lemma RekindFree(g: Tags, s: Segment, a: int, kind: Kind)
    requires Tiling(g, s) && a in s.chunks && !s.chunks[a].kind.InUse? && !kind.InUse?
    ensures Tiling(g, s.(chunks := s.chunks[a := s.chunks[a].(kind := kind)]))
  {
    hide Aligned, HeadWord, TileAt;
    var s' := s.(chunks := s.chunks[a := s.chunks[a].(kind := kind)]);
    forall b | b in s'.chunks
      ensures TileAt(g, s', b)
    {
      NextChunk(g, s, b);
      TileFrame(g, g, s, s', b);
    }
  }

  /** `set_inuse_and_pinuse` on a whole free chunk. */
  ghost function TakeTags(g: Tags, a: int, size: int): Tags {
    g.(head := g.head[a := size + PINUSE_BIT + CINUSE_BIT][a + size := SetPinuse(At(g.head, a + size))])
  }

  lemma TakenTiles(g: Tags, s: Segment, a: int)
    requires Tiling(g, s) && a in s.chunks && !s.chunks[a].kind.InUse? && UsedBefore(s.chunks, s.chunks[a].prev)
    ensures var n := a + s.chunks[a].size;
            var s' := s.(chunks := s.chunks[a := s.chunks[a].(kind := InUse)]);
            var g' := TakeTags(g, a, s.chunks[a].size);
            TileAt(g', s', a) && n in s.chunks && TileAt(g', s', n) && n != s.top
  {
    hide Aligned, Pinuse, Cinuse, ChunkSize;
    NextChunk(g, s, a);
    var n := a + s.chunks[a].size;
    assert s.last != a && TileAt(g, s, n) && TileAt(g, s, a);
    ReadTags(g, s, n);
  }

  /** The tiling only relies on the foot words behind free chunks. */
  ghost predicate SameFeet(chunks: map<int, Chunk>, foot: map<int, int>, foot': map<int, int>) {
    forall a :: a in chunks && !chunks[a].kind.InUse? ==> At(foot', a + chunks[a].size) == At(foot, a + chunks[a].size)
  }

  lemma FeetFrame(g: Tags, foot': map<int, int>, s: Segment)
    requires Tiling(g, s) && SameFeet(s.chunks, g.foot, foot')
    ensures Tiling(g.(foot := foot'), s)
  {
    hide Aligned, TileAt, HeadWord;
    forall a | a in s.chunks
      ensures TileAt(g.(foot := foot'), s, a)
    {
      NextChunk(g, s, a);
      TileFrame(g, g.(foot := foot'), s, s, a);
    }
  }

  lemma KindTiling(g: Tags, g': Tags, s: Segment, a: int, n: int, kind: Kind)
    requires Tiling(g, s) && a in s.chunks && n == a + s.chunks[a].size && s.last != a
    requires (forall b :: b != a && b != n ==> At(g'.head, b) == At(g.head, b)) && g'.foot == g.foot
    requires n != s.top
    requires var s' := s.(chunks := s.chunks[a := s.chunks[a].(kind := kind)]);
      TileAt(g', s', a) && n in s.chunks && TileAt(g', s', n)
    ensures Tiling(g', s.(chunks := s.chunks[a := s.chunks[a].(kind := kind)]))
  {
    hide Aligned, TileAt, HeadWord;
    var s' := s.(chunks := s.chunks[a := s.chunks[a].(kind := kind)]);
    NextChunk(g, s, a);
    forall b | b in s'.chunks
      ensures TileAt(g', s', b)
    {
      if b != a && b != n {
        NextChunk(g, s, b);
        TileFrame(g, g', s, s', b);
      }
    }
  }

  lemma TopNotChunk(g: Tags, s: Segment)
    requires Tiling(g, s)
    ensures s.top !in s.chunks
  {
    if s.top in s.chunks {
      NextChunk(g, s, s.top);
    }
  }

  lemma TakeWhole(g: Tags, s: Segment, a: int)
    requires Tiling(g, s) && a in s.chunks && !s.chunks[a].kind.InUse? && UsedBefore(s.chunks, s.chunks[a].prev)
    ensures s.last != a
    ensures Tiling(TakeTags(g, a, s.chunks[a].size), s.(chunks := s.chunks[a := s.chunks[a].(kind := InUse)]))
  {
    TakenTiles(g, s, a);
    hide TileAt, SetPinuse;
    KindTiling(g, TakeTags(g, a, s.chunks[a].size), s, a, a + s.chunks[a].size, InUse);
  }

  /** A free or allocated chunk is cut in two; the lower part is allocated, the upper is of kind `kind`. */
  ghost function Cut(s: Segment, a: int, nb: int, kind: Kind): Segment
    requires a in s.chunks
  {
    var c := s.chunks[a];
    var n := a + c.size;
    var cs := s.chunks[a := Chunk(nb, InUse, c.prev)][a + nb := Chunk(c.size - nb, kind, a)];
    s.(chunks := if n in s.chunks then cs[n := s.chunks[n].(prev := a + nb)] else cs,
       last := if s.last == a then a + nb else s.last)
  }

  lemma CutTiling(g: Tags, g': Tags, s: Segment, a: int, nb: int, kind: Kind)
    requires Tiling(g, s) && a in s.chunks && a + nb !in s.chunks
    requires nb >= MIN_CHUNK && Aligned(nb) && s.chunks[a].size - nb >= MIN_CHUNK
    requires s.last == a ==> kind.InUse?
    requires var n := a + s.chunks[a].size;
      && (forall b :: b != a && b != a + nb && b != n ==> At(g'.head, b) == At(g.head, b))
      && (forall b :: b != n ==> At(g'.foot, b) == At(g.foot, b))
      && At(g'.head, s.top) == At(g.head, s.top)
      && var s' := Cut(s, a, nb, kind);
         TileAt(g', s', a) && TileAt(g', s', a + nb) && (n in s.chunks ==> TileAt(g', s', n))
    ensures Tiling(g', Cut(s, a, nb, kind))
  {
    hide Aligned, TileAt, HeadWord;
    var s' := Cut(s, a, nb, kind);
    var n := a + s.chunks[a].size;
    NextChunk(g, s, a);
    forall b | b in s'.chunks
      ensures TileAt(g', s', b)
    {
      if b != a && b != a + nb && b != n {
        NextChunk(g, s, b);
        TileFrame(g, g', s, s', b);
      }
    }
  }

  ghost function SplitTags(g: Tags, a: int, nb: int, rsize: int): Tags {
    Tags(g.head[a := nb + PINUSE_BIT + CINUSE_BIT][a + nb := rsize + PINUSE_BIT], g.foot[a + nb + rsize := rsize])
  }

  /** `set_size_and_pinuse_of_inuse_chunk` and `set_size_and_pinuse_of_free_chunk` on the two parts of
      a free chunk. */
  lemma SplitFree(g: Tags, s: Segment, a: int, nb: int)
    requires Tiling(g, s) && a in s.chunks && !s.chunks[a].kind.InUse? && UsedBefore(s.chunks, s.chunks[a].prev)
    requires nb >= MIN_CHUNK && Aligned(nb) && s.chunks[a].size - nb >= MIN_CHUNK
    ensures a + nb !in s.chunks && s.last != a
    ensures Tiling(SplitTags(g, a, nb, s.chunks[a].size - nb), Cut(s, a, nb, Loose))
  {
    hide Aligned;
    NextChunk(g, s, a);
    var rsize := s.chunks[a].size - nb;
    var r := a + nb;
    var n := r + rsize;
    var g' := SplitTags(g, a, nb, rsize);
    var s' := Cut(s, a, nb, Loose);
    if r in s.chunks {
      NoOverlap(g, s, a, r);
    }
    assert s.last != a && TileAt(g, s, n) && TileAt(g, s, a);
    AlignedSum(a, nb);
    AlignedSum(s.chunks[a].size, nb);
    CutTiling(g, g', s, a, nb, Loose);
  }

  /** The chunks from `q` up to `n` become one free chunk. */
  ghost function Fused(s: Segment, q: int, n: int, kind: Kind): Segment
    requires q in s.chunks && n in s.chunks && q < n
  {
    s.(chunks := map b | b in s.chunks && !(q < b < n) ::
         if b == q then Chunk(n - q, kind, s.chunks[q].prev)
         else if b == n then s.chunks[n].(prev := q)
         else s.chunks[b])
  }

  /** A chunk outside `[q, n)` has no neighbour strictly inside. */
  lemma NotInside(g: Tags, s: Segment, q: int, n: int, b: int)
    requires Tiling(g, s) && q in s.chunks && (n in s.chunks || n == s.top) && q < n
    requires b in s.chunks && !(q <= b < n)
    ensures b + s.chunks[b].size <= q || n <= b
    ensures !(q < s.chunks[b].prev < n) || b == n
    ensures s.chunks[b].prev == q ==> b == n || b == q + s.chunks[q].size
    ensures b != n && q <= s.chunks[b].prev ==> n <= s.chunks[b].prev
  {
    NextChunk(g, s, b);
    NextChunk(g, s, q);
    var p := s.chunks[b].prev;
    if b < q {
      NoOverlap(g, s, b, q);
    } else if p in s.chunks && q <= p < n {
      if n in s.chunks {
        NoOverlap(g, s, p, n);
      } else {
        NextChunk(g, s, p);
      }
    }
  }

  lemma FuseTiling(g: Tags, g': Tags, s: Segment, q: int, n: int, kind: Kind)
    requires Tiling(g, s) && q in s.chunks && n in s.chunks && q < n && !kind.InUse?
    requires UsedBefore(s.chunks, s.chunks[q].prev)
    requires forall b :: b != q && b != n ==> At(g'.head, b) == At(g.head, b)
    requires forall b :: b != n ==> At(g'.foot, b) == At(g.foot, b)
    requires At(g'.head, q) == n - q + PINUSE_BIT && At(g'.foot, n) == n - q
    requires At(g'.head, n) == s.chunks[n].size + if s.chunks[n].kind.InUse? then CINUSE_BIT else 0
    ensures Tiling(g', Fused(s, q, n, kind))
  {
    hide Aligned, TileAt, HeadWord;
    NextChunk(g, s, q);
    NextChunk(g, s, n);
    TopNotChunk(g, s);
    NoOverlap(g, s, q, n);
    BaseFirst(g, s, q);
    NextChunk(g, s, s.last);
    if s.last < n {
      NoOverlap(g, s, s.last, n);
    }
    FusedEnds(g, g', s, q, n, kind);
    forall b | b in s.chunks && !(q <= b <= n)
      ensures TileAt(g', Fused(s, q, n, kind), b)
    {
      FusedRest(g, g', s, q, n, kind, b);
    }
  }

  lemma BaseFirst(g: Tags, s: Segment, a: int)
    requires Tiling(g, s) && a in s.chunks
    ensures s.base <= a < s.top && s.base in s.chunks && s.last in s.chunks
  {
    NextChunk(g, s, a);
  }

  lemma FusedRest(g: Tags, g': Tags, s: Segment, q: int, n: int, kind: Kind, b: int)
    requires Tiling(g, s) && q in s.chunks && n in s.chunks && q < n && q + s.chunks[q].size <= n
    requires b in s.chunks && !(q <= b <= n) && At(g'.head, b) == At(g.head, b)
    requires forall b :: b != n ==> At(g'.foot, b) == At(g.foot, b)
    requires s.top !in s.chunks
    ensures TileAt(g', Fused(s, q, n, kind), b)
  {
    hide Aligned, TileAt, HeadWord;
    NextChunk(g, s, b);
    NotInside(g, s, q, n, b);
    TileFrame(g, g', s, Fused(s, q, n, kind), b);
  }

  lemma FusedEnds(g: Tags, g': Tags, s: Segment, q: int, n: int, kind: Kind)
    requires Tiling(g, s) && q in s.chunks && n in s.chunks && q < n && q + s.chunks[q].size <= n && !kind.InUse?
    requires UsedBefore(s.chunks, s.chunks[q].prev)
    requires At(g'.head, q) == n - q + PINUSE_BIT && At(g'.foot, n) == n - q
    requires At(g'.head, n) == s.chunks[n].size + if s.chunks[n].kind.InUse? then CINUSE_BIT else 0
    requires forall b :: b != n ==> At(g'.foot, b) == At(g.foot, b)
    ensures var s' := Fused(s, q, n, kind); TileAt(g', s', q) && TileAt(g', s', n)
  {
    hide Aligned;
    NextChunk(g, s, q);
    NextChunk(g, s, n);
    AlignedSum(n, q);
    if s.chunks[q].prev in s.chunks {
      NextChunk(g, s, s.chunks[q].prev);
    }
  }

  /** The chunks from `q` on become part of `top`. */
  ghost function FusedTop(s: Segment, q: int): Segment
    requires q in s.chunks
  {
    s.(top := q, topsize := s.topsize + (s.top - q), last := s.chunks[q].prev,
       chunks := map b | b in s.chunks && b < q :: s.chunks[b])
  }

  lemma FuseTopTiling(g: Tags, s: Segment, q: int)
    requires Tiling(g, s) && q in s.chunks && UsedBefore(s.chunks, s.chunks[q].prev)
    ensures var s' := FusedTop(s, q);
            Tiling(g.(head := g.head[q := s'.topsize + PINUSE_BIT]), s')
  {
    hide Aligned, HeadWord, TileAt;
    var s' := FusedTop(s, q);
    var g' := g.(head := g.head[q := s'.topsize + PINUSE_BIT]);
    ChunkBounds(g, s, q);
    Preceded(g, s, q);
    AlignedSum(s.top, q);
    AlignedSum(s.topsize, s.top - q);
    forall b | b in s'.chunks
      ensures TileAt(g', s', b)
    {
      KeptTile(g, g', s, q, b);
    }
  }

  lemma Preceded(g: Tags, s: Segment, q: int)
    requires Tiling(g, s) && q in s.chunks
    ensures var p := s.chunks[q].prev;
      (if q == s.base then p == NONE else p in s.chunks && p < q && p + s.chunks[p].size == q && s.base <= p)
  {
    hide Aligned, HeadWord;
    assert TileAt(g, s, q);
    if q != s.base {
      assert TileAt(g, s, s.chunks[q].prev);
    }
  }

  lemma KeptTile(g: Tags, g': Tags, s: Segment, q: int, b: int)
    requires Tiling(g, s) && q in s.chunks && b in s.chunks && b < q
    requires forall a :: a != q ==> At(g'.head, a) == At(g.head, a)
    requires g'.foot == g.foot
    ensures TileAt(g', FusedTop(s, q), b)
  {
    hide Aligned, HeadWord;
    NextChunk(g, s, b);
    NoOverlap(g, s, b, q);
    Preceded(g, s, b);
    Preceded(g, s, q);
    ChunkBounds(g, s, q);
    TileFrame(g, g', s, FusedTop(s, q), b);
  }

  /** The lower part of `top` is allocated. */
  ghost function TopTaken(s: Segment, nb: int): Segment {
    s.(top := s.top + nb, topsize := s.topsize - nb, last := s.top, chunks := s.chunks[s.top := Chunk(nb, InUse, s.last)])
  }

  lemma TakeTop(g: Tags, g': Tags, s: Segment, nb: int)
    requires Tiling(g, s) && MIN_CHUNK <= nb < s.topsize && Aligned(nb)
    requires g' == g.(head := g.head[s.top + nb := s.topsize - nb + PINUSE_BIT][s.top := nb + PINUSE_BIT + CINUSE_BIT])
    ensures s.top !in s.chunks && Tiling(g', TopTaken(s, nb))
  {
    hide Aligned, TileAt, HeadWord;
    TopNotChunk(g, s);
    AlignedSum(s.top, nb);
    AlignedSum(s.topsize, nb);
    NewTopChunk(g, g', s, nb);
    forall b | b in s.chunks
      ensures TileAt(g', TopTaken(s, nb), b)
    {
      NextChunk(g, s, b);
      assert At(g'.head, b) == At(g.head, b);
      TileFrame(g, g', s, TopTaken(s, nb), b);
    }
  }

  lemma NewTopChunk(g: Tags, g': Tags, s: Segment, nb: int)
    requires Tiling(g, s) && MIN_CHUNK <= nb < s.topsize && Aligned(nb)
    requires At(g'.head, s.top) == nb + PINUSE_BIT + CINUSE_BIT && s.top !in s.chunks
    ensures TileAt(g', TopTaken(s, nb), s.top)
  {
    hide Aligned;
  }

  /** `init_top` after the segment grew at its end. */
  lemma GrowTop(g: Tags, g': Tags, s: Segment, tsize: int, footsize: int)
    requires Tiling(g, s) && tsize >= 0 && Aligned(tsize)
    requires g' == g.(head := g.head[s.top := s.topsize + tsize + PINUSE_BIT][s.top + (s.topsize + tsize) := footsize])
    ensures Tiling(g', s.(topsize := s.topsize + tsize))
  {
    hide Aligned, TileAt, HeadWord;
    var s' := s.(topsize := s.topsize + tsize);
    TopNotChunk(g, s);
    AlignedSum(s.topsize, tsize);
    assert At(g'.head, s.top) == s'.topsize + PINUSE_BIT;
    forall b | b in s'.chunks
      ensures TileAt(g', s', b)
    {
      NextChunk(g, s, b);
      assert At(g'.head, b) == At(g.head, b);
      TileFrame(g, g', s, s', b);
    }
  }

  /** The last chunk grows into `top`. */
  ghost function LastGrown(s: Segment, nb: int): Segment
    requires s.last in s.chunks
  {
    var c := s.chunks[s.last];
    s.(top := s.last + nb, topsize := c.size + s.topsize - nb, chunks := s.chunks[s.last := c.(size := nb)])
  }

  lemma GrowLast(g: Tags, g': Tags, s: Segment, nb: int)
    requires Tiling(g, s) && s.last in s.chunks && Aligned(nb)
    requires s.chunks[s.last].size <= nb < s.chunks[s.last].size + s.topsize
    requires forall b :: b != s.last && b != s.last + nb ==> At(g'.head, b) == At(g.head, b)
    requires g'.foot == g.foot
    requires At(g'.head, s.last) == HeadWord(s.chunks, s.chunks[s.last].(size := nb))
    requires At(g'.head, s.last + nb) == s.chunks[s.last].size + s.topsize - nb + PINUSE_BIT
    ensures Tiling(g', LastGrown(s, nb))
  {
    hide Aligned, HeadWord, TileAt;
    var s' := LastGrown(s, nb);
    var l := s.last;
    LastBounds(g, s);
    AlignedSum(l, nb);
    AlignedSum(s.chunks[l].size, s.topsize);
    AlignedSum(s.chunks[l].size + s.topsize, nb);
    GrownTile(g, g', s, nb);
    forall b | b in s'.chunks
      ensures TileAt(g', s', b)
    {
      if b != l {
        OtherTile(g, g', s, nb, b);
      }
    }
  }

  lemma LastBounds(g: Tags, s: Segment)
    requires Tiling(g, s) && s.last in s.chunks
    ensures var c := s.chunks[s.last];
      s.base <= s.last && Aligned(s.last) && Aligned(c.size) && c.size > 0 && s.last + c.size == s.top && c.kind.InUse?
  {
    hide Aligned, HeadWord;
    assert TileAt(g, s, s.last);
  }

  lemma OtherTile(g: Tags, g': Tags, s: Segment, nb: int, b: int)
    requires Tiling(g, s) && s.last in s.chunks && nb >= s.chunks[s.last].size
    requires forall b :: b != s.last && b != s.last + nb ==> At(g'.head, b) == At(g.head, b)
    requires g'.foot == g.foot && b in s.chunks && b != s.last
    ensures TileAt(g', LastGrown(s, nb), b)
  {
    hide Aligned, HeadWord;
    NextChunk(g, s, b);
    TopNotChunk(g, s);
    ChunkBounds(g, s, b);
    TileFrame(g, g', s, LastGrown(s, nb), b);
  }

  lemma GrownTile(g: Tags, g': Tags, s: Segment, nb: int)
    requires Tiling(g, s) && s.last in s.chunks && Aligned(nb)
    requires s.chunks[s.last].size <= nb < s.chunks[s.last].size + s.topsize
    requires At(g'.head, s.last) == HeadWord(s.chunks, s.chunks[s.last].(size := nb))
    ensures TileAt(g', LastGrown(s, nb), s.last)
  {
    hide Aligned;
    NextChunk(g, s, s.last);
  }

  /** `set_inuse` on the two parts of an allocated chunk. */
  lemma SplitUsed(g: Tags, g': Tags, s: Segment, a: int, nb: int)
    requires Tiling(g, s) && a in s.chunks && s.chunks[a].kind.InUse?
    requires nb >= MIN_CHUNK && Aligned(nb) && s.chunks[a].size - nb >= MIN_CHUNK
    requires var n := a + s.chunks[a].size;
      && (forall b :: b != a && b != a + nb ==> At(g'.head, b) == At(g.head, b)) && g'.foot == g.foot
      && At(g'.head, a) == HeadWord(s.chunks, s.chunks[a].(size := nb))
      && At(g'.head, a + nb) == s.chunks[a].size - nb + PINUSE_BIT + CINUSE_BIT
    ensures a + nb !in s.chunks && Tiling(g', Cut(s, a, nb, InUse))
  {
    hide Aligned;
    NextChunk(g, s, a);
    TopNotChunk(g, s);
    var r := a + nb;
    var s' := Cut(s, a, nb, InUse);
    if r in s.chunks {
      NoOverlap(g, s, a, r);
    }
    var n := a + s.chunks[a].size;
    if n in s.chunks {
      NextChunk(g, s, n);
    }
    AlignedSum(a, nb);
    AlignedSum(s.chunks[a].size, nb);
    CutTiling(g, g', s, a, nb, InUse);
  }
}
