/** The allocator: its state, the operations on bins, and malloc and free on top of them.  Chunks are
    addresses; every word the original keeps in a chunk header is kept here under the chunk's address,
    one map per field. */
module Malloc {
  import opened Rings
  import opened BinIndex
  import opened BinMaps
  import opened Powers
  import opened Tries
  import opened TreeSearch
  import opened Tiles
  import opened BinFiling
  import opened ChunkMaps
  import Layout

  const TOP_FOOT_SIZE := 40
  const CHUNK_OVERHEAD := 4
  const MAX_SIZE_T := WORD - 1

  /** What MORECORE returns when it fails */
  const CMFAIL := -1

  const MAX_SMALL_REQUEST := 244
  const MIN_REQUEST := 11
  const MAX_REQUEST := WORD - 64
  const HALF_MAX_SIZE_T := MAX_SIZE_T / 2

  /** `pad_request`: room for the head word, rounded up to the chunk alignment. */
  function PadRequest(req: int): int {
    (req + CHUNK_OVERHEAD + 7) - (req + CHUNK_OVERHEAD + 7) % 8
  }

  /** `request2size` */
  function RequestSize(req: int): int {
    if req < MIN_REQUEST then MIN_CHUNK else PadRequest(req)
  }

  /** `granularity_align` on unsigned words. */
  function GranularityAlign(s: int, granularity: int): int
    requires granularity > 0
  {
    (s + granularity) % WORD - (s + granularity) % WORD % granularity
  }

  /** Both, as the code has them: the sum is masked. */
  lemma PadRequestMasks(req: nat)
    requires req < MAX_REQUEST
    ensures MaskedDown(req + CHUNK_OVERHEAD + 7, 8) == PadRequest(req)
  {
    assert PowerOfTwo(4) && PowerOfTwo(8);
    hide MaskedDown;
    Masks(req + CHUNK_OVERHEAD + 7, 8);
  }

  lemma GranularityMasks(s: nat, granularity: nat)
    requires PowerOfTwo(granularity) && granularity < WORD
    ensures MaskedDown((s + granularity) % WORD, granularity) == GranularityAlign(s, granularity)
  {
    hide MaskedDown;
    Masks((s + granularity) % WORD, granularity);
  }

  lemma PaddedSize(req: int)
    requires 0 <= req < MAX_REQUEST
    ensures var nb := RequestSize(req);
            && MIN_CHUNK <= nb < WORD && Tiles.Aligned(nb) && req + CHUNK_OVERHEAD <= nb
            && (req <= MAX_SMALL_REQUEST <==> nb < MIN_LARGE_SIZE)
  {}

  /** What decides whether a request can be served. */
  datatype Supply = Supply(chunks: map<int, Chunk>, topsize: int, base: int, footprint: int, granularity: int)

  /** The bytes `sys_alloc` asks MORECORE for. */
  function Asked(s: Supply, nb: int): int
    requires s.granularity > 0
  {
    GranularityAlign((nb - s.topsize + TOP_FOOT_SIZE + 1) % WORD, s.granularity)
  }

  /** That is the least multiple of the granularity above what is missing. */
  lemma AskedIs(s: Supply, nb: int)
    requires s.granularity > 0 && s.granularity % 8 == 0
    requires var missing := nb - s.topsize + TOP_FOOT_SIZE + 1; 0 <= missing && missing + s.granularity < WORD
    ensures var missing := nb - s.topsize + TOP_FOOT_SIZE + 1;
            Asked(s, nb) % s.granularity == 0 && missing < Asked(s, nb) <= missing + s.granularity
  {
    var missing, g := nb - s.topsize + TOP_FOOT_SIZE + 1, s.granularity;
    ModWord(missing, missing);
    ModWord(missing + g, missing + g);
    var x := missing + g;
    assert x - x % g == g * (x / g) + 0;
    RestUnique(x - x % g, g, x / g, 0);
  }

  /** MORECORE is asked for as much, and can extend the segment by it. */
  predicate CanGrow(s: Supply, nb: int) {
    s.granularity > 0 && Asked(s, nb) < HALF_MAX_SIZE_T && s.base + s.footprint + Asked(s, nb) <= WORD
  }

  /** The segment can grow to serve a request of `nb` bytes. */
  predicate RoomFor(s: Supply, nb: int) {
    CanGrow(s, nb) && nb - s.topsize + TOP_FOOT_SIZE + 1 + s.granularity < WORD
  }

  /** Neither a free chunk nor the top holds the request. */
  ghost predicate Short(s: Supply, bytes: int) {
    bytes < MAX_REQUEST ==> NothingFits(s.chunks, RequestSize(bytes)) && s.topsize <= RequestSize(bytes)
  }

  /** The bytes by which a request extends the segment. */
  ghost function Growth(s: Supply, bytes: int, granted: bool): int {
    var nb := if bytes < MAX_REQUEST then RequestSize(bytes) else MAX_SIZE_T;
    if granted && Short(s, bytes) && CanGrow(s, nb) then Asked(s, nb) else 0
  }

  /** Why a request for `bytes` is turned down: it is too large; or neither a free chunk nor the top holds it, and
      MORECORE does not extend the segment, or has no room to. */
  ghost predicate Refused(s: Supply, bytes: int, granted: bool) {
    Short(s, bytes) && (bytes < MAX_REQUEST ==> !(granted && RoomFor(s, RequestSize(bytes))))
  }

  /** The same for aligned requests, which are served out of larger ones. */
  ghost predicate RefusedAligned(s: Supply, alignment: int, bytes: int, granted: bool) {
    if alignment <= 8 then Refused(s, bytes, granted) else
    exists a {:trigger PowerOfTwo(a)} ::
      && PowerOfTwo(a) && 16 <= a && alignment <= a && (a == 16 || a < 2 * alignment)
      && (bytes < MAX_REQUEST - a ==> Refused(s, RequestSize(bytes) + a + MIN_CHUNK - CHUNK_OVERHEAD, granted))
  }

  /** A binned chunk goes before the designated victim: for a small request one of its own or the next small size, for
      a large request one that fits better. */
  ghost predicate Preferred(chunks: map<int, Chunk>, nb: int, dvsize: int) {
    exists a {:trigger chunks[a]} :: a in chunks && chunks[a].kind.Binned? && nb <= chunks[a].size &&
      (nb <= dvsize ==> if IsSmall(nb) then IsSmall(chunks[a].size) && chunks[a].size <= nb + 8 else chunks[a].size < dvsize)
  }

  /** The chunk that serves a request: the best fit in the bins, or else the victim, or else the chunk at the top. */
  ghost predicate Placed(b: Bins, chunks: map<int, Chunk>, dv: int, dvsize: int, top: int, nb: int, p: int) {
    if Preferred(chunks, nb, dvsize) then FromBins(b, chunks, nb, p) else if nb <= dvsize then p == dv else p == top
  }

  /** The designated victim afterwards: what is left over of it, or of a chunk that was cut for a small request, if that
      is a chunk at all. */
  ghost function VictimAfter(chunks: map<int, Chunk>, dv: int, dvsize: int, nb: int, p: int): (int, int) {
    var rest := if p in chunks then chunks[p].size - nb else 0;
    if p in chunks && chunks[p].kind.Dv? then if rest >= MIN_CHUNK then (p + nb, rest) else (0, 0)
    else if IsSmall(nb) && rest >= MIN_CHUNK then (p + nb, rest) else (dv, dvsize)
  }

  /** A block need not move: it is large enough, or it lies before the top, which has room. */
  predicate StaysInPlace(size: int, mem: int, nb: int, top: int, topsize: int) {
    nb <= size || (mem - 8 + size == top && nb < size + topsize)
  }

  /** The chunk was put last into its small bin. */
  ghost predicate Newest(small: seq<seq<int>>, p: int, size: int) {
    IsSmall(size) ==> 0 <= size / 8 < |small| && small[size / 8] != [] && small[size / 8][0] == p
  }

  /** The chunk that a bin gives */
  ghost predicate TopOfBin(b: Bins, chunks: map<int, Chunk>, i: int, p: int) {
    p in chunks && chunks[p].kind.Binned? && chunks[p].size == 8 * i && 0 <= i < |b.small| && b.small[i] != [] && b.small[i][0] == p
  }

  /** The best fit in the bins; of a small bin the newest chunk. */
  ghost predicate FromBins(b: Bins, chunks: map<int, Chunk>, nb: int, p: int) {
    BestFit(chunks, p, nb) && Newest(b.small, p, chunks[p].size)
  }

  /** No binned chunk for `nb` bytes is smaller than `size`. */
  ghost predicate NoneBelow(chunks: map<int, Chunk>, nb: int, size: int) {
    forall a {:trigger chunks[a]} :: a in chunks && chunks[a].kind.Binned? && nb <= chunks[a].size ==> size <= chunks[a].size
  }

  lemma FromSmallBin(chunks: map<int, Chunk>, nb: int, dvsize: int, p: int, i: int)
    requires p in chunks && chunks[p].kind.Binned? && chunks[p].size == 8 * i && nb <= 8 * i && 0 <= i < NBINS
    requires NoneBelow(chunks, nb, 8 * i) && IsSmall(nb) && (8 * i <= nb + 8 || dvsize < nb)
    ensures BestFit(chunks, p, nb) && Preferred(chunks, nb, dvsize)
  {}

  lemma FromTree(chunks: map<int, Chunk>, nb: int, dvsize: int, p: int)
    requires p in chunks && chunks[p].kind.Binned? && LeastLarge(chunks, p) && NoneBelow(chunks, nb, MIN_LARGE_SIZE)
    requires IsSmall(nb) && dvsize < nb && !IsSmall(chunks[p].size)
    ensures BestFit(chunks, p, nb) && Preferred(chunks, nb, dvsize)
  {}

  lemma FromLarge(chunks: map<int, Chunk>, nb: int, dvsize: int, p: int)
    requires BestFit(chunks, p, nb) && !IsSmall(nb) && (nb <= dvsize ==> chunks[p].size < dvsize)
    ensures Preferred(chunks, nb, dvsize) && !IsSmall(chunks[p].size)
  {}

  // ---------------------------------------------------------------- when the system is asked for memory

  lemma BinFits(s: Supply, b: Bins, bytes: int, p: int, granted: bool)
    requires bytes < MAX_REQUEST && FromBins(b, s.chunks, RequestSize(bytes), p)
    ensures Growth(s, bytes, granted) == 0
  {}

  lemma VictimFits(s: Supply, bytes: int, dv: int, dvsize: int, granted: bool)
    requires bytes < MAX_REQUEST && RequestSize(bytes) <= dvsize && VictimOk(s.chunks, dv, dvsize) && dvsize > 0
    ensures Growth(s, bytes, granted) == 0
  {}

  lemma TopFits(s: Supply, bytes: int, granted: bool)
    requires bytes < MAX_REQUEST && RequestSize(bytes) < s.topsize
    ensures Growth(s, bytes, granted) == 0
  {}

  lemma ShortOf(s: Supply, bytes: int, granted: bool)
    requires Short(s, bytes)
    ensures var nb := if bytes < MAX_REQUEST then RequestSize(bytes) else MAX_SIZE_T;
            Growth(s, bytes, granted) == if granted && CanGrow(s, nb) then Asked(s, nb) else 0
  {}

  lemma TooLarge(s: Supply, bytes: int, granted: bool)
    requires bytes >= MAX_REQUEST
    ensures Refused(s, bytes, granted)
  {}

  lemma FromVictim(chunks: map<int, Chunk>, dv: int, dvsize: int, nb: int)
    requires VictimOk(chunks, dv, dvsize) && 0 < nb <= dvsize
    ensures VictimAfter(chunks, dv, dvsize, nb, dv) == if dvsize - nb >= MIN_CHUNK then (dv + nb, dvsize - nb) else (0, 0)
  {}

  lemma NotVictim(chunks: map<int, Chunk>, b: Bins, dv: int, dvsize: int, nb: int, p: int)
    requires FromBins(b, chunks, nb, p) && !IsSmall(nb)
    ensures VictimAfter(chunks, dv, dvsize, nb, p) == (dv, dvsize)
  {}

  lemma NotFromBins(chunks: map<int, Chunk>, nb: int, dvsize: int)
    requires IsSmall(nb) ==> dvsize < nb || NoneBelow(chunks, nb, if nb + 16 < MIN_LARGE_SIZE then nb + 16 else MIN_LARGE_SIZE)
    requires !IsSmall(nb) ==> NoneBetter(chunks, nb, dvsize)
    requires nb <= dvsize || NothingFits(chunks, nb)
    ensures !Preferred(chunks, nb, dvsize)
  {}

  class MallocState {
    const base: int
    const granularity: int
    var head: map<int, int>
    var prevFoot: map<int, int>
    var links: Links
    var smallmap: bv32
    var treemap: bv32
    var treebins: seq<int>
    var dv: int
    var dvsize: int
    var top: int
    var topsize: int
    var footprint: int

    /** The system's break. */
    var brk: int

    /** The bytes of the payloads. */
    var data: map<int, int>

    ghost var chunks: map<int, Chunk>
    ghost var last: int
    ghost var small: seq<seq<int>>
    ghost var trees: seq<Tree>

    ghost function Tags_(): Tags
      reads this
    {
      Tags(head, prevFoot)
    }

    ghost function Segment_(): Segment
      reads this
    {
      Segment(base, top, topsize, last, chunks)
    }

    ghost function Bins_(): Bins
      reads this
    {
      Bins(links, smallmap, treemap, treebins, small, trees)
    }

    /** Bins and tag words describe the tiling `chunks`. */
    ghost predicate Filing()
      reads this
    {
      && |small| == |trees| == |treebins| == NBINS
      && BinsOk(Bins_()) && Filed(Bins_(), chunks) && Tiling(Tags_(), Segment_())
    }

    /** Filing, and no two free chunks are neighbours: what every step of an operation keeps. */
    ghost predicate Tidy()
      reads this
    {
      Filing() && NoFreeNeighbours(chunks)
    }

    ghost predicate Extent()
      reads this
    {
      && base + footprint == top + topsize + TOP_FOOT_SIZE && base + footprint == brk <= WORD
      && granularity > 0 && granularity % 8 == 0
    }

    ghost predicate Valid()
      reads this
    {
      Tidy() && VictimOk(chunks, dv, dvsize) && Extent() && NothingLoose(chunks)
    }

    /** The allocated chunks and their sizes. */
    ghost function Live(): map<int, int>
      reads this
    {
      LiveOf(chunks)
    }

    /** First-time initialization: one segment of `tsize` bytes at `tbase`, all of it `top`. */
    constructor (tbase: int, tsize: int, gran: int)
      requires tbase > 0 && Tiles.Aligned(tbase) && Tiles.Aligned(tsize) && TOP_FOOT_SIZE < tsize && tbase + tsize <= WORD
      requires gran > 0 && gran % 8 == 0
      ensures Valid() && Live() == map[] && footprint == tsize && base == tbase
    {
      base, granularity := tbase, gran;
      footprint, brk := tsize, tbase + tsize;
      smallmap, treemap := 0, 0;
      treebins := seq(NBINS, _ => 0);
      dv, dvsize := 0, 0;
      top, topsize := tbase, tsize - TOP_FOOT_SIZE;
      head := map[tbase := tsize - TOP_FOOT_SIZE + PINUSE_BIT][tbase + (tsize - TOP_FOOT_SIZE) := TOP_FOOT_SIZE];
      prevFoot, data := map[], map[];
      links := Links(map[], map[], map[], map[], map[], map[]);
      chunks, last := map[], Tiles.NONE;
      small, trees := seq(NBINS, _ => []), seq(NBINS, _ => Nil);
      new;
      InitBins();
      AlignedSum(tsize, TOP_FOOT_SIZE);
      assert Tiling(Tags_(), Segment_());
      EmptyBins(Bins_());
    }

    /** `init_bins` */
    method InitBins()
      modifies this`links
    {
      for i := 0 to NBINS {
        var bin := SmallbinAt(i);
        links := links.(fd := links.fd[bin := bin], bk := links.bk[bin := bin]);
      }
    }

    // -------------------------------------------------------------- small bins

    lemma SmallFront(p: int, s: int)
      requires Filing() && p in chunks && chunks[p].size == s && IsSmall(s)
      ensures p > 0 && 0 <= s / 8 < NBINS && s == 8 * (s / 8)
      ensures Marked(smallmap, s / 8) <==> small[s / 8] != []
      ensures Marked(smallmap, s / 8) ==> At(links.fd, SmallbinAt(s / 8)) == small[s / 8][0]
    {
      hide Filed, Tiling, TileAt, IsRing, Marked;
      ChunkBounds(Tags_(), Segment_(), p);
      SmallIndex(s);
      assert SmallBinOk(Bins_(), s / 8);
      if Marked(smallmap, s / 8) {
        SmallNeighbours(Bins_(), s / 8, 0);
      }
    }

    method InsertSmallChunk(p: int, s: int)
      requires Filing() && p in chunks && (chunks[p].kind.Loose? || chunks[p].kind.Dv?)
      requires chunks[p].size == s && IsSmall(s)
      modifies this`links, this`smallmap, this`small, this`chunks
      ensures Filing() && chunks == old(chunks[p := chunks[p].(kind := Binned)])
      ensures 0 <= s / 8 < |old(small)| && small == old(small)[s / 8 := [p] + old(small)[s / 8]]
    {
      hide Filed, BinsOk, Tiling, TileAt, IsRing, Marked, Mark;
      var i := s / 8;
      SmallFront(p, s);
      var b := SmallbinAt(i);
      var f := b;
      if !Marked(smallmap, i) {
        smallmap := Mark(smallmap, i);
      } else {
        f := At(links.fd, b);
        MarkedAgain(smallmap, i);
      }
      links := links.(fd := links.fd[b := p]);
      links := links.(bk := links.bk[f := p]);
      links := links.(fd := links.fd[p := f]);
      links := links.(bk := links.bk[p := b]);
      small := small[i := [p] + small[i]];
      SmallInserted(old(Bins_()), Bins_(), chunks, i, p);
      SmallFiled(old(Bins_()), Bins_(), chunks, i, p);
      RekindFree(Tags_(), Segment_(), p, Binned);
      chunks := chunks[p := chunks[p].(kind := Binned)];
    }

    lemma SmallPlace(p: int, s: int) returns (k: int)
      requires Filing() && p in chunks && chunks[p].kind.Binned? && chunks[p].size == s && IsSmall(s)
      ensures var i := s / 8;
        && 0 <= i < NBINS && 0 <= k < |small[i]| && small[i][k] == p && Distinct(small[i])
        && At(links.fd, p) == (if k == |small[i]| - 1 then SmallbinAt(i) else small[i][k + 1])
        && At(links.bk, p) == (if k == 0 then SmallbinAt(i) else small[i][k - 1])
        && (At(links.fd, p) == At(links.bk, p) <==> |small[i]| == 1)
    {
      hide Tiling, TileAt, IsRing, Marked;
      ChunkBounds(Tags_(), Segment_(), p);
      SmallIndex(s);
      var i := s / 8;
      assert SmallBinOk(Bins_(), i) && InBin(Bins_(), p, s);
      k :| 0 <= k < |small[i]| && small[i][k] == p;
      SmallNeighbours(Bins_(), i, k);
      SmallAlone(Bins_(), chunks, i, k);
    }

    method UnlinkSmallChunk(p: int, s: int)
      requires Filing() && p in chunks && chunks[p].kind.Binned? && chunks[p].size == s && IsSmall(s)
      modifies this`links, this`smallmap, this`small, this`chunks
      ensures Filing() && chunks == old(chunks[p := chunks[p].(kind := Loose)])
      ensures 0 <= s / 8 < |old(small)|
      ensures exists k ::
        && 0 <= k < |old(small)[s / 8]| && old(small)[s / 8][k] == p
        && small == old(small)[s / 8 := Without(old(small)[s / 8], k)]
    {
      hide Filed, BinsOk, Tiling, TileAt, IsRing, Marked, Clear;
      ghost var k := SmallPlace(p, s);
      var f, b, i := At(links.fd, p), At(links.bk, p), s / 8;
      if f == b {
        smallmap := Clear(smallmap, i);
      } else {
        links := links.(bk := links.bk[f := b]);
        links := links.(fd := links.fd[b := f]);
      }
      small := small[i := Without(small[i], k)];
      SmallRemoved(old(Bins_()), Bins_(), chunks, i, k);
      SmallUnfiled(old(Bins_()), Bins_(), chunks, i, k);
      RekindFree(Tags_(), Segment_(), p, Loose);
      chunks := chunks[p := chunks[p].(kind := Loose)];
    }

    /** Takes the most recently freed chunk of bin `i`. */
    method UnlinkFirstSmallChunk(i: int) returns (p: int)
      requires Filing() && 0 <= i < NBINS && Marked(smallmap, i)
      modifies this`links, this`smallmap, this`small, this`chunks
      ensures p in old(chunks) && old(chunks)[p].kind.Binned? && old(chunks)[p].size == 8 * i
      ensures old(small)[i] != [] && p == old(small)[i][0] && small == old(small)[i := Without(old(small)[i], 0)]
      ensures Filing() && chunks == old(chunks[p := chunks[p].(kind := Loose)])
    {
      var b := SmallbinAt(i);
      assert SmallBinOk(Bins_(), i);
      SmallNeighbours(Bins_(), i, 0);
      SmallAlone(Bins_(), chunks, i, 0);
      p := At(links.fd, b);
      assert p in small[i] && FiledSmall(chunks, p, i);
      var f := At(links.fd, p);
      if b == f {
        smallmap := Clear(smallmap, i);
      } else {
        links := links.(fd := links.fd[b := f]);
        links := links.(bk := links.bk[f := b]);
      }
      small := small[i := Without(small[i], 0)];
      SmallRemoved(old(Bins_()), Bins_(), chunks, i, 0);
      SmallUnfiled(old(Bins_()), Bins_(), chunks, i, 0);
      RekindFree(Tags_(), Segment_(), p, Loose);
      chunks := chunks[p := chunks[p].(kind := Loose)];
    }

    // -------------------------------------------------------------- tree bins

    /** The size in the head word of a chunk in a tree bin. */
    lemma TreeChunkSize(i: int, a: int)
      requires Filing() && 0 <= i < NBINS && a in Addrs(trees[i])
      ensures a in chunks && a > 0 && chunks[a].kind.Binned?
      ensures ChunkSize(At(head, a)) == chunks[a].size == SizeOf(trees[i], a)
      ensures MIN_LARGE_SIZE <= chunks[a].size < WORD && TreeIndex(chunks[a].size) == i
    {
      hide Addrs, SizeOf, TreeIndex;
      assert FiledLarge(chunks, trees[i], a, i);
      ReadTags(Tags_(), Segment_(), a);
    }

    method InsertLargeChunk(x: int, s: int)
      requires Filing() && x in chunks && (chunks[x].kind.Loose? || chunks[x].kind.Dv?)
      requires chunks[x].size == s && MIN_LARGE_SIZE <= s < WORD
      modifies this`links, this`treemap, this`treebins, this`trees, this`chunks
      ensures Filing() && chunks == old(chunks[x := chunks[x].(kind := Binned)])
    {
      hide Filed, BinsOk, Tiling, Shape, Pow2, Walk, Mark, Insert, LinkedAt, LinkedFirst, TreeIndex;
      PositiveAddress(Tags_(), Segment_(), x);
      var i := TreeIndexOf(s);
      LinkIntoBin(x, s, i);
      trees := trees[i := TreeWith(old(Bins_()), i, x, s)];
      LargeInserted(Tags_(), Segment_(), old(Bins_()), Bins_(), i, x, s);
      chunks := chunks[x := chunks[x].(kind := Binned)];
    }

    /** The words `insert_large_chunk` writes, and the loop that finds where. */
    method LinkIntoBin(x: int, s: int, i: int)
      requires Filing() && x in chunks && x > 0 && !chunks[x].kind.Binned?
      requires MIN_LARGE_SIZE <= s < WORD && i == TreeIndex(s)
      modifies this`links, this`treemap, this`treebins
      ensures Shape(trees[i], BinLow(i), BinWidth(i)) && BinLow(i) <= s < BinLow(i) + Pow2(BinWidth(i))
      ensures if trees[i].Nil? then
          && LinkedFirst(old(links), links, x, i)
          && treebins == old(treebins)[i := x] && treemap == Mark(old(treemap), i)
        else
          && LinkedAt(old(links), links, Walk(trees[i], s, BinLow(i), BinWidth(i)), x, i)
          && treebins == old(treebins) && treemap == old(treemap)
    {
      hide Addrs, SizeOf, TreeIndex, Marked, Mark, Rep, Shape, Walk, Pow2, TileAt, LinkedFirst;
      BinInterval(s);
      ghost var k0 := links;
      ghost var t := trees[i];
      assert TreeBinOk(Bins_(), i);
      assert x !in Addrs(t) by {
        assert x in Addrs(t) ==> FiledLarge(chunks, t, x, i);
      }
      forall a | a in Addrs(t)
        ensures ChunkSize(At(head, a)) == SizeOf(t, a)
      {
        TreeChunkSize(i, a);
      }
      links := links.(index := links.index[x := i]);
      links := links.(child0 := links.child0[x := 0], child1 := links.child1[x := 0]);
      if !Marked(treemap, i) {
        treemap := Mark(treemap, i);
        treebins := treebins[i := x];
        links := links.(parent := links.parent[x := TreebinAt(i)]);
        links := links.(fd := links.fd[x := x], bk := links.bk[x := x]);
        PreparedFirst(k0, links, x, i);
      } else {
        ghost var k1 := links;
        RepFrame(k0, k1, t, treebins[i], TreebinAt(i), i);
        InsertIntoTree(x, s, i);
        WalkStops(t, s, BinLow(i), BinWidth(i));
        PreparedLinked(k0, k1, links, Walk(t, s, BinLow(i), BinWidth(i)), x, i);
      }
    }

    /** The loop of `insert_large_chunk`: walk down by the bits of the size, then link the chunk in. */
    method InsertIntoTree(x: int, s: int, i: int)
      requires |trees| == |treebins| == NBINS && 0 <= i < NBINS && trees[i].Node? && x > 0 && x !in Addrs(trees[i])
      requires Shape(trees[i], BinLow(i), BinWidth(i)) && BinLow(i) <= s < BinLow(i) + Pow2(BinWidth(i))
      requires Rep(links, trees[i], treebins[i], TreebinAt(i), i)
      requires forall a :: a in Addrs(trees[i]) ==> ChunkSize(At(head, a)) == SizeOf(trees[i], a)
      requires At(links.index, x) == i && At(links.child0, x) == 0 && At(links.child1, x) == 0
      modifies this`links
      ensures LinkedAt(old(links), links, Walk(trees[i], s, BinLow(i), BinWidth(i)), x, i)
    {
      hide Addrs, SizeOf, Rep, Shape, Walk, Pow2, Descending, ChunkSize, LinkedAt;
      ghost var t, lo, e := trees[i], BinLow(i), BinWidth(i);
      var node := treebins[i];
      ghost var cur, par := t, TreebinAt(i);
      DescendStart(links, t, i, s, node);
      var k := s * Pow2(LeftShift(i)) % WORD;
      while true
        invariant links == old(links) && Descending(links, t, i, s, cur, node, par, lo, e, k)
        invariant 0 <= e <= 32 && Shape(cur, lo, e) && cur.Node? && lo <= s < lo + Pow2(e)
        invariant Walk(cur, s, lo, e) == Walk(t, s, BinLow(i), BinWidth(i))
        decreases e
      {
        DescendHere(links, t, i, s, cur, node, par, lo, e, k);
        if ChunkSize(At(head, node)) != s {
          DescendStep(links, t, i, s, cur, node, par, lo, e, k);
          var right := k >= 0x8000_0000;
          var child := links.Child(right, node);
          k := k * 2 % WORD;
          if child != 0 {
            lo, e := if right then lo + Pow2(e - 1) else lo, e - 1;
            par, node := node, child;
            cur := if right then cur.right else cur.left;
          } else {
            links := links.SetChild(right, node, x);
            links := links.(parent := links.parent[x := node]);
            links := links.(fd := links.fd[x := x], bk := links.bk[x := x]);
            LinkBelow(old(links), links, node, right, x, i);
            break;
          }
        } else {
          var f := At(links.fd, node);
          links := links.(fd := links.fd[node := x], bk := links.bk[f := x]);
          links := links.(fd := links.fd[x := f]);
          links := links.(bk := links.bk[x := node]);
          links := links.(parent := links.parent[x := 0]);
          LinkBehind(old(links), links, node, f, x, i);
          break;
        }
      }
    }

    /** The first half of `unlink_large_chunk`: takes `x` out of its ring, or cuts off the rightmost leaf
        below it, and returns the chunk that is to take its place. */
    method ChooseReplacement(x: int, ghost sub: Tree, ghost xp: int, ghost i: int) returns (r: int)
      requires sub.Node? && |sub.ring| > 0 && x in sub.ring
      requires IsRing(links.fd, links.bk, sub.ring)
      requires |sub.ring| == 1 ==> Rep(links, sub, x, xp, i)
      modifies this`links
      ensures |sub.ring| > 1 ==>
        var f := At(old(links).fd, x);
        r == At(old(links).bk, x) && links == old(links).(fd := old(links).fd[r := f], bk := old(links).bk[f := r])
      ensures |sub.ring| == 1 && sub.Leaf() ==> r == 0 && links == old(links)
      ensures |sub.ring| == 1 && !sub.Leaf() ==>
        var (owner, right) := LeafOwner(sub);
        r == old(links).Child(right, owner) && r != 0 && links == old(links).SetChild(right, owner, 0)
    {
      hide Rep;
      ghost var n :| 0 <= n < |sub.ring| && sub.ring[n] == x;
      Neighbours(links.fd, links.bk, sub.ring, n);
      if At(links.bk, x) != x {
        var f := At(links.fd, x);
        r := At(links.bk, x);
        links := links.(bk := links.bk[f := r]);
        links := links.(fd := links.fd[r := f]);
      } else {
        hide IsRing, LeafOwner;
        LeafWalk(links, sub, x, xp, i);
        var node, right := x, links.Child(true, x) != 0;
        r := links.Child(right, x);
        if r != 0 {
          ghost var cur := if right then sub.right else sub.left;
          var right' := links.Child(true, r) != 0;
          LeafWalk(links, cur, r, node, i);
          while links.Child(right', r) != 0
            invariant links == old(links) && cur.Node? && Rep(links, cur, r, node, i)
            invariant r == links.Child(right, node) && r != 0 && right' == (links.Child(true, r) != 0)
            invariant links.Child(right', r) == 0 <==> cur.Leaf()
            invariant LeafOwner(sub) == if cur.Leaf() then (node, right) else LeafOwner(cur)
            decreases cur
          {
            LeafWalk(links, cur, r, node, i);
            cur := if right' then cur.right else cur.left;
            node, right := r, right';
            r := links.Child(right, node);
            right' := links.Child(true, r) != 0;
            LeafWalk(links, cur, r, node, i);
          }
          links := links.SetChild(right, node, 0);
        }
      }
    }

    /** The last part of `unlink_large_chunk`: `r` takes over the parent and the children of `x`. */
    method TakeOver(x: int, r: int, xp: int)
      requires r != 0 && r != x && At(links.child0, r) == 0 && At(links.child1, r) == 0
      requires r != At(links.child0, x) && r != At(links.child1, x)
      requires At(links.child0, x) != 0 ==> At(links.child0, x) != At(links.child1, x)
      modifies this`links
      ensures Relinked(old(links), links, x, r, xp)
      ensures forall a :: a != r ==>
        At(links.child0, a) == At(old(links).child0, a) && At(links.child1, a) == At(old(links).child1, a)
    {
      var k := links;
      k := k.(parent := k.parent[r := xp]);
      var c0 := At(k.child0, x);
      if c0 != 0 {
        k := k.(child0 := k.child0[r := c0]);
        k := k.(parent := k.parent[c0 := r]);
      }
      var c1 := At(k.child1, x);
      if c1 != 0 {
        k := k.(child1 := k.child1[r := c1]);
        k := k.(parent := k.parent[c1 := r]);
      }
      links := k;
    }

    /** The second half of `unlink_large_chunk`, for a chunk that is a tree node. */
    method ReplaceNode(x: int, r: int, xp: int, idx: int)
      requires 0 <= idx < NBINS == |treebins|
      requires r != 0 ==>
        && xp != r && xp != x && r != x && At(links.child0, r) == 0 && At(links.child1, r) == 0
        && r != At(links.child0, x) && r != At(links.child1, x)
        && (At(links.child0, x) != 0 ==> At(links.child0, x) != At(links.child1, x))
      modifies this`links, this`treemap, this`treebins
      ensures HeadRelinked(old(links), links, old(treebins)[idx], x, r, xp)
      ensures treebins == old(treebins)[idx := if x == old(treebins)[idx] then r else old(treebins)[idx]]
      ensures treemap == if x == old(treebins)[idx] && r == 0 then Clear(old(treemap), idx) else old(treemap)
    {
      hide Clear, Relinked;
      if x == treebins[idx] {
        treebins := treebins[idx := r];
        if r == 0 {
          treemap := Clear(treemap, idx);
        }
      } else if At(links.child0, xp) == x {
        links := links.(child0 := links.child0[xp := r]);
      } else {
        links := links.(child1 := links.child1[xp := r]);
      }
      if r != 0 {
        TakeOver(x, r, xp);
      }
    }

    /** `unlink_large_chunk` */
    method UnlinkLargeChunk(x: int)
      requires Filing() && x in chunks && chunks[x].kind.Binned? && !IsSmall(chunks[x].size)
      modifies this`links, this`treemap, this`treebins, this`trees, this`chunks
      ensures Filing() && chunks == old(chunks[x := chunks[x].(kind := Loose)])
    {
      hide Filed, BinsOk, Tiling, Shape, Pow2, Addrs, Heads, SubAt, Rep, TreeIndex, RemoveRoot, Graft, Without, Clear,
           HeadRelinked, IsRing, SameWords, Removed;
      ghost var i, h, n := FindLarge(x);
      ghost var t, lo, e, p, k := trees[i], BinLow(i), BinWidth(i), treebins[i], links;
      ghost var sub := SubAt(t, h);
      var xp := At(links.parent, x);
      var r := ChooseReplacement(x, sub, xp, i);
      if xp != 0 {
        ghost var k1 := links;
        assert Chosen(k, k1, sub, x, r);
        hide Chosen;
        if r != 0 {
          HeadReady(k, k1, t, p, i, x, r, lo, e);
        }
        ReplaceNode(x, r, xp, At(links.index, x));
        HeadUnlinked(k, k1, links, t, p, i, x, r, lo, e);
        trees := trees[i := Graft(t, x, RemoveRoot(sub))];
      } else {
        MemberUnlinked(k, links, t, p, i, h, n, lo, e);
        trees := trees[i := Graft(t, h, sub.(ring := Without(sub.ring, n)))];
      }
      LargeRemoved(Tags_(), Segment_(), old(Bins_()), Bins_(), i, x);
      chunks := chunks[x := chunks[x].(kind := Loose)];
    }

    /** Where a binned chunk sits: its bin, the tree node of its size, and its place in the ring. */
    lemma FindLarge(x: int) returns (i: int, h: int, n: int)
      requires Filing() && x in chunks && chunks[x].kind.Binned? && !IsSmall(chunks[x].size)
      ensures 0 <= i < NBINS && x in Addrs(trees[i]) && h in Heads(trees[i])
      ensures Rep(links, trees[i], treebins[i], TreebinAt(i), i) && Shape(trees[i], BinLow(i), BinWidth(i))
      ensures var sub := SubAt(trees[i], h);
        && sub.Node? && |sub.ring| > 0 && h == sub.ring[0] && 0 <= n < |sub.ring| && sub.ring[n] == x && x in sub.ring
        && IsRing(links.fd, links.bk, sub.ring)
        && Rep(links, sub, h, At(links.parent, h), i) && At(links.parent, h) != 0
        && At(links.index, x) == i && (n > 0 ==> At(links.parent, x) == 0)
    {
      hide Shape, Pow2, Addrs, Heads, SubAt, TreeIndex, SizeOf;
      i := TreeIndex(chunks[x].size);
      assert InBin(Bins_(), x, chunks[x].size) && TreeBinOk(Bins_(), i);
      var lo, e := BinLow(i), BinWidth(i);
      h := MemberHead(trees[i], lo, e, x);
      var sub := SubAt(trees[i], h);
      SubAtMembers(trees[i], h, lo, e);
      SubAtRep(links, trees[i], treebins[i], TreebinAt(i), i, h, lo, e);
      OpenRep(links, sub, h, At(links.parent, h), i);
      n :| 0 <= n < |sub.ring| && sub.ring[n] == x;
    }

    method InsertChunk(p: int, s: int)
      requires Filing() && p in chunks && (chunks[p].kind.Loose? || chunks[p].kind.Dv?)
      requires chunks[p].size == s && s < WORD
      modifies this`links, this`smallmap, this`small, this`treemap, this`treebins, this`trees, this`chunks
      ensures Filing() && chunks == old(chunks[p := chunks[p].(kind := Binned)])
    {
      if IsSmall(s) {
        InsertSmallChunk(p, s);
      } else {
        InsertLargeChunk(p, s);
      }
    }

    method UnlinkChunk(p: int, s: int)
      requires Filing() && p in chunks && chunks[p].kind.Binned? && chunks[p].size == s
      modifies this`links, this`smallmap, this`small, this`treemap, this`treebins, this`trees, this`chunks
      ensures Filing() && chunks == old(chunks[p := chunks[p].(kind := Loose)])
    {
      if IsSmall(s) {
        UnlinkSmallChunk(p, s);
      } else {
        UnlinkLargeChunk(p);
      }
    }

    // -------------------------------------------------------------- best fit

    /** The walk of `tmalloc_large` in the bin of the requested size. */
    method SearchPath(nb: int, i: int)
      returns (t: int, v: int, rsize: int, ghost cur: Tree, ghost par: int, ghost lo: int, ghost e: int)
      requires Filing() && MIN_LARGE_SIZE <= nb < WORD && i == TreeIndex(nb) && trees[i].Node?
      ensures Candidate(trees[i], nb, v, rsize) && Leftward(links, trees[i], i, cur, t, par, lo, e)
      ensures PendingLeft(Sizes(trees[i]), nb, nb + rsize, cur) && (rsize == 0 || AllAtLeast(cur, nb))
      ensures 0 <= rsize <= WORD - nb
    {
      hide Filed, BinsOk, Tiling, Shape, Pow2, Addrs, Sizes, SizeOf, Rep, TreeIndex, IsRing, Descending, Marked,
           Within, Pending, PendingLeft, AllAtLeast, Leftward, Searching, Candidate;
      ghost var tree := trees[i];
      BinInterval(nb);
      OpenBin(i);
      NothingYet(trees[i], nb);
      v, rsize := 0, (-nb) % WORD;
      t := treebins[i];
      cur, par, lo, e := tree, TreebinAt(i), BinLow(i), BinWidth(i);
      SearchStart(links, tree, i, nb, t);
      var sizebits := nb * Pow2(LeftShift(i)) % WORD;
      var rst := 0;
      ghost var rcur, rpar, rlo, re := Nil, TreebinAt(i), 0, 0;
      while true
        invariant Searching(links, tree, i, nb, nb + rsize, cur, t, par, lo, e, sizebits, rcur, rst, rpar, rlo, re)
        invariant Candidate(tree, nb, v, rsize) && 0 < rsize <= WORD - nb && cur.Node?
        decreases e
      {
        SearchHere(links, tree, i, nb, nb + rsize, cur, t, par, lo, e, sizebits, rcur, rst, rpar, rlo, re);
        TryChunk(i, t, nb, v, rsize);
        var trem := (ChunkSize(At(head, t)) - nb) % WORD;
        ghost var bound := nb + rsize;
        if trem < rsize {
          v, rsize := t, trem;
          if rsize == 0 {
            break;
          }
        }
        SearchStep(links, tree, i, nb, bound, cur, t, par, lo, e, sizebits, rcur, rst, rpar, rlo, re);
        var rt := links.Child(true, t);
        var right := sizebits >= 0x8000_0000;
        ghost var node := t;
        t := links.Child(right, t);
        if rt != 0 && rt != t {
          rst := rt;
          rcur, rpar, rlo, re := cur.right, node, lo + Pow2(e - 1), e - 1;
        }
        par := node;
        lo, e := if right then lo + Pow2(e - 1) else lo, e - 1;
        cur := if right then cur.right else cur.left;
        if t == 0 {
          t := rst;
          cur, par, lo, e := rcur, rpar, rlo, re;
          break;
        }
        sizebits := sizebits * 2 % WORD;
      }
    }

    /** The walk along leftmost children: no chunk of the bin fits better than the result. */
    method SearchLeft(t0: int, v0: int, rsize0: int, nb: int, ghost i: int,
                      ghost cur0: Tree, ghost par0: int, ghost lo0: int, ghost e0: int)
      returns (v: int, rsize: int)
      requires Filing() && MIN_LARGE_SIZE <= nb < WORD && 0 <= i < NBINS
      requires Candidate(trees[i], nb, v0, rsize0) && Leftward(links, trees[i], i, cur0, t0, par0, lo0, e0)
      requires PendingLeft(Sizes(trees[i]), nb, nb + rsize0, cur0) && (rsize0 == 0 || AllAtLeast(cur0, nb))
      requires 0 <= rsize0 <= WORD - nb
      ensures Candidate(trees[i], nb, v, rsize) && 0 <= rsize <= WORD - nb
      ensures forall s :: s in Sizes(trees[i]) && nb <= s ==> nb + rsize <= s
      ensures v0 != 0 || t0 != 0 ==> v != 0
    {
      hide Filed, BinsOk, Tiling, Shape, Pow2, Addrs, Sizes, SizeOf, Rep, TreeIndex, IsRing, Marked,
           Within, AllAtLeast, Leftward, PendingLeft, Candidate;
      CandidateSize(trees[i], nb, v0, rsize0);
      ghost var tree := trees[i];
      var t := t0;
      v, rsize := v0, rsize0;
      ghost var cur, par, lo, e := cur0, par0, lo0, e0;
      while t != 0
        invariant Candidate(tree, nb, v, rsize) && Leftward(links, tree, i, cur, t, par, lo, e)
        invariant PendingLeft(Sizes(tree), nb, nb + rsize, cur) && (rsize == 0 || AllAtLeast(cur, nb))
        invariant 0 <= rsize <= WORD - nb && (v0 != 0 || t0 != 0 ==> v != 0 || t != 0)
        decreases cur
      {
        ghost var lo', e' := LeftwardStep(links, tree, i, cur, t, par, lo, e);
        LeftStep(Sizes(tree), nb, nb + rsize, cur, lo, e);
        TryChunk(i, t, nb, v, rsize);
        var trem := (ChunkSize(At(head, t)) - nb) % WORD;
        AtLeastRoot(cur, nb);
        if trem < rsize {
          rsize := trem;
          v := t;
        }
        par := t;
        t := if links.Child(false, t) != 0 then links.Child(false, t) else links.Child(true, t);
        cur, lo, e := LeftmostChild(cur), lo', e';
      }
      LeftwardNil(links, tree, i, cur, par, lo, e);
      assert forall s :: s in Sizes(tree) && nb <= s ==> nb + rsize <= s by {
        NothingPending(Sizes(tree), nb, nb + rsize);
      }
    }

    /** The search of `tmalloc_large`: the least size that fits, over all tree bins. */
    method FindBestFit(nb: int) returns (v: int, rsize: int)
      requires Filing() && MIN_LARGE_SIZE <= nb < WORD
      ensures v != 0 ==>
        && v in chunks && chunks[v].kind.Binned? && chunks[v].size == nb + rsize && 0 <= rsize < WORD
        && forall a :: a in chunks && chunks[a].kind.Binned? && chunks[a].size >= nb ==> chunks[v].size <= chunks[a].size
      ensures v == 0 ==> forall a :: a in chunks && chunks[a].kind.Binned? ==> chunks[a].size < nb
    {
      hide Filed, BinsOk, Tiling, Shape, Pow2, Addrs, Sizes, SizeOf, Rep, IsRing, Marked, Within, AllAtLeast, Leftward,
           PendingLeft, BitsAbove, Index, TreeIndex, TreeIndexOf, Candidate;
      var idx := TreeIndexOf(nb);
      NothingYet(trees[idx], nb);
      v, rsize := 0, (-nb) % WORD;
      var t := 0;
      ghost var i, cur, par, lo, e := idx, Nil, 0, 0, 0;
      OpenBin(idx);
      RootPointer(links, trees[idx], treebins[idx], TreebinAt(idx), idx);
      NilLeftward(links, trees[idx], idx, par);
      if treebins[idx] != 0 {
        t, v, rsize, cur, par, lo, e := SearchPath(nb, idx);
      } else {
        EmptyTree(trees[idx], nb, nb + rsize);
      }
      CandidateSize(trees[idx], nb, v, rsize);
      if t == 0 && v == 0 {
        NothingInBin(nb, idx, rsize, cur, par, lo, e);
        var leftbits := BitsAbove(treemap, Index(idx));
        if leftbits != 0 {
          var n := LeastMarked(leftbits);
          t := treebins[n];
          i, cur, par, lo, e := n, trees[n], TreebinAt(n), BinLow(n), BinWidth(n);
          WholeBin(nb, idx, n, leftbits);
          NothingYet(trees[n], nb);
        } else {
          NoHigherBin(idx, leftbits);
        }
      }
      v, rsize := SearchLeft(t, v, rsize, nb, i, cur, par, lo, e);
      CandidateFound(i, nb, v, rsize);
      forall a | a in chunks && chunks[a].kind.Binned? && chunks[a].size >= nb
        ensures v != 0 && nb + rsize <= chunks[a].size
      {
        LowerBins(nb, a);
        NoneSmaller(nb, i, v, rsize, a);
      }
    }

    /** The found chunk is a least one of its bin, and the bin is the lowest that has one that fits. */
    lemma NoneSmaller(nb: int, i: int, v: int, rsize: int, a: int)
      requires Filing() && MIN_LARGE_SIZE <= nb < WORD && 0 <= i < NBINS && 0 <= rsize <= WORD - nb
      requires a in chunks && chunks[a].kind.Binned? && chunks[a].size >= nb && TreeIndex(chunks[a].size) >= i
      requires chunks[a].size in Sizes(trees[TreeIndex(chunks[a].size)])
      requires forall s :: s in Sizes(trees[i]) && nb <= s ==> nb + rsize <= s
      requires if v == 0 then rsize == WORD - nb else TreeIndex(nb + rsize) == i && MIN_LARGE_SIZE <= nb + rsize < WORD
      requires v == 0 ==> TreeIndex(chunks[a].size) == i
      ensures v != 0 && nb + rsize <= chunks[a].size
    {
      hide Filing, TreeIndex, Sizes;
      BelowWord(a);
      var s := chunks[a].size;
      if TreeIndex(s) > i {
        HigherBinLargerSize(nb + rsize, s);
      }
    }

    /** What the search starts with, how it goes on, and what it ends with. */
    lemma CandidateFound(i: int, nb: int, v: int, rsize: int)
      requires Filing() && 0 <= i < NBINS && Candidate(trees[i], nb, v, rsize) && MIN_LARGE_SIZE <= nb < WORD
      ensures v == 0 ==> rsize == WORD - nb
      ensures v != 0 ==> v in chunks && chunks[v].kind.Binned? && chunks[v].size == nb + rsize && 0 <= rsize < WORD
      ensures v != 0 ==> TreeIndex(nb + rsize) == i && MIN_LARGE_SIZE <= nb + rsize < WORD
    {
      hide Filing, TreeIndex, Addrs, SizeOf;
      if v != 0 {
        TreeChunkSize(i, v);
      }
    }

    lemma TryChunk(i: int, t: int, nb: int, v: int, rsize: int)
      requires Filing() && 0 <= i < NBINS && t in Addrs(trees[i]) && MIN_LARGE_SIZE <= nb < WORD && 0 <= rsize <= WORD - nb
      requires Candidate(trees[i], nb, v, rsize)
      ensures var size := SizeOf(trees[i], t);
        var trem := (ChunkSize(At(head, t)) - nb) % WORD;
        && t > 0 && 0 <= trem && size < WORD && (v == 0 ==> rsize == WORD - nb) && (trem < rsize <==> nb <= size < nb + rsize)
        && (trem < rsize ==> trem == size - nb && Candidate(trees[i], nb, t, trem))
    {
      hide Filed, BinsOk, Tiling, TreeIndex, Addrs, SizeOf;
      TreeChunkSize(i, t);
      FitsBetter(SizeOf(trees[i], t), nb, rsize);
    }

    lemma BelowWord(a: int)
      requires Filing() && a in chunks && chunks[a].kind.Binned? && chunks[a].size >= MIN_LARGE_SIZE
      ensures chunks[a].size < WORD
    {
      hide Tiling, BinsOk, Addrs, SizeOf, TreeIndex;
      assert InBin(Bins_(), a, chunks[a].size);
      assert FiledLarge(chunks, trees[TreeIndex(chunks[a].size)], a, TreeIndex(chunks[a].size));
    }

    /** A chunk that fits is not in a bin below that of the request. */
    lemma LowerBins(nb: int, a: int)
      requires Filing() && MIN_LARGE_SIZE <= nb && a in chunks && chunks[a].kind.Binned? && chunks[a].size >= nb
      ensures chunks[a].size in Sizes(trees[TreeIndex(chunks[a].size)]) && TreeIndex(chunks[a].size) >= TreeIndex(nb)
      ensures trees[TreeIndex(chunks[a].size)].Node?
    {
      hide Tiling, BinsOk, Addrs, SizeOf, TreeIndex, Sizes;
      var s := chunks[a].size;
      assert InBin(Bins_(), a, s);
      assert FiledLarge(chunks, trees[TreeIndex(s)], a, TreeIndex(s));
      SizeOfInSizes(trees[TreeIndex(s)], a);
      NodeBefore(trees[TreeIndex(s)], a);
      if TreeIndex(s) < TreeIndex(nb) {
        HigherBinLargerSize(s, nb);
      }
    }

    lemma NothingInBin(nb: int, i: int, rsize: int, cur: Tree, par: int, lo: int, e: int)
      requires Filing() && 0 <= i < NBINS && rsize == WORD - nb
      requires Leftward(links, trees[i], i, cur, 0, par, lo, e) && PendingLeft(Sizes(trees[i]), nb, nb + rsize, cur)
      ensures forall a ::
        (a in chunks && chunks[a].kind.Binned? && chunks[a].size >= MIN_LARGE_SIZE && TreeIndex(chunks[a].size) == i)
        ==> chunks[a].size < nb
    {
      hide Tiling, BinsOk, Filed, Addrs, SizeOf, TreeIndex, Sizes, Leftward, PendingLeft;
      LeftwardNil(links, trees[i], i, cur, par, lo, e);
      NothingPending(Sizes(trees[i]), nb, nb + rsize);
      forall a | a in chunks && chunks[a].kind.Binned? && chunks[a].size >= MIN_LARGE_SIZE && TreeIndex(chunks[a].size) == i
        ensures chunks[a].size < nb
      {
        LowerBins(MIN_LARGE_SIZE, a);
        BelowWord(a);
      }
    }

    /** The next marked bin above `idx`: bins between are empty, and all of its sizes fit. */
    lemma WholeBin(nb: int, idx: int, n: int, leftbits: bv32)
      requires Filing() && MIN_LARGE_SIZE <= nb < WORD && idx == TreeIndex(nb)
      requires leftbits == BitsAbove(treemap, Index(idx)) && leftbits != 0 && n == LeastMarked(leftbits)
      ensures idx < n < NBINS && treebins[n] != 0 && forall j :: idx < j < n ==> trees[j].Nil?
      ensures Leftward(links, trees[n], n, trees[n], treebins[n], TreebinAt(n), BinLow(n), BinWidth(n))
      ensures PendingLeft(Sizes(trees[n]), nb, WORD, trees[n]) && AllAtLeast(trees[n], nb)
    {
      MarkedAbove(treemap, idx, n);
      forall j | idx < j < n
        ensures trees[j].Nil?
      {
        MarkedAbove(treemap, idx, j);
        OpenBin(j);
      }
      OpenBin(n);
      hide Tiling, BinsOk, Shape, Rep, Addrs, SizeOf, TreeIndex, Sizes, BitsAbove, Index, Marked, Pow2;
      RootPointer(links, trees[n], treebins[n], TreebinAt(n), n);
      forall s | s in Sizes(trees[n])
        ensures nb <= s
      {
        var a := SizeHasChunk(trees[n], BinLow(n), BinWidth(n), s);
        TreeChunkSize(n, a);
        HigherBinLargerSize(nb, s);
      }
    }

    lemma NoHigherBin(idx: int, leftbits: bv32)
      requires Filing() && 0 <= idx < NBINS && leftbits == BitsAbove(treemap, Index(idx)) && leftbits == 0
      ensures forall j :: idx < j < NBINS ==> trees[j].Nil?
    {
      hide Tiling, Filed, Shape, Rep, BitsAbove, Index, Marked;
      forall j | idx < j < NBINS
        ensures trees[j].Nil?
      {
        MarkedAbove(treemap, idx, j);
        OpenBin(j);
        if Marked(treemap, j) {
          MarkedNonZero(leftbits, j);
        }
      }
    }

    lemma OpenBin(i: int)
      requires Filing() && 0 <= i < NBINS
      ensures TreeBinOk(Bins_(), i)
    {}

    // -------------------------------------------------------------- carving free chunks

    /** `set_inuse_and_pinuse` */
    method UseWhole(p: int, s: int)
      requires Tidy() && p in chunks && chunks[p].size == s && (chunks[p].kind.Loose? || chunks[p].kind.Dv?)
      modifies this`head, this`chunks
      ensures Tidy() && chunks == Rekinded(old(chunks), p, InUse)
      ensures Live() == old(Live())[p := s]
    {
      hide Filed, BinsOk, Tiling, TileAt, Tiles.SetPinuse, LiveOf;
      assert UsedBefore(chunks, chunks[p].prev);
      ChunkBounds(Tags_(), Segment_(), p);
      TakeWhole(Tags_(), Segment_(), p);
      TakeKeeps(chunks, p);
      hide NoFreeNeighbours;
      head := head[p := s + PINUSE_BIT + CINUSE_BIT];
      head := head[p + s := Tiles.SetPinuse(At(head, p + s))];
      chunks := Rekinded(chunks, p, InUse);
      FiledFrame(Bins_(), old(chunks), chunks);
    }

    /** `set_size_and_pinuse_of_inuse_chunk` and `set_size_and_pinuse_of_free_chunk`: the lower `nb` bytes of
        a free chunk are allocated, the rest is left loose. */
    method SplitChunk(p: int, nb: int, rsize: int) returns (r: int)
      requires Tidy() && p in chunks && chunks[p].size == nb + rsize && (chunks[p].kind.Loose? || chunks[p].kind.Dv?)
      requires nb >= MIN_CHUNK && Tiles.Aligned(nb) && rsize >= MIN_CHUNK
      modifies this`head, this`prevFoot, this`chunks
      ensures Tidy() && r == p + nb && r !in old(chunks) && chunks == Cut(old(Segment_()), p, nb, Loose).chunks
      ensures Live() == old(Live())[p := nb]
    {
      hide Filed, BinsOk, Tiling, TileAt, LiveOf, Tiles.Aligned;
      assert UsedBefore(chunks, chunks[p].prev);
      ChunkBounds(Tags_(), Segment_(), p);
      SplitFree(Tags_(), Segment_(), p, nb);
      CutKeeps(Tags_(), Segment_(), p, nb);
      hide NoFreeNeighbours;
      head := head[p := nb + PINUSE_BIT + CINUSE_BIT];
      r := p + nb;
      head := head[r := rsize + PINUSE_BIT];
      prevFoot := prevFoot[r + rsize := rsize];
      chunks := Cut(old(Segment_()), p, nb, Loose).chunks;
      FiledFrame(Bins_(), old(chunks), chunks);
    }

    // -------------------------------------------------------------- allocation from bins

    /** Exactly one chunk, `p`, is loose; otherwise the state is as between operations. */
    ghost predicate Holding(p: int)
      reads this
    {
      Tidy() && VictimOk(chunks, dv, dvsize) && OnlyLoose(chunks, p)
    }

    /** Uses the whole loose chunk. */
    method CarveAll(p: int, s: int)
      requires Holding(p) && chunks[p].size == s
      modifies this`chunks, this`head
      ensures Tidy() && VictimOk(chunks, dv, dvsize) && NothingLoose(chunks) && Live() == old(Live())[p := s]
    {
      hide Filed, BinsOk, Tiling, TileAt, LiveOf, NoFreeNeighbours, VictimOk, NothingLoose;
      LooseUsed(chunks, p, dv, dvsize);
      UseWhole(p, s);
    }

    /** Uses the lower part of the loose chunk; the rest is loose now. */
    method CarvePart(p: int, nb: int, rsize: int) returns (r: int)
      requires Holding(p) && chunks[p].size == nb + rsize
      requires nb >= MIN_CHUNK && Tiles.Aligned(nb) && rsize >= MIN_CHUNK
      modifies this`chunks, this`head, this`prevFoot
      ensures Holding(r) && r == p + nb && chunks[r].size == rsize && Live() == old(Live())[p := nb]
    {
      hide Filed, BinsOk, Tiling, TileAt, LiveOf, NoFreeNeighbours, VictimOk, OnlyLoose, Tiles.Aligned, Cut;
      assert p in chunks && chunks[p].kind.Loose? by {
        OpenLoose(chunks, p);
      }
      r := SplitChunk(p, nb, rsize);
      LooseCut(old(Segment_()), p, nb, dv, dvsize);
    }

    lemma OpenLoose(c: map<int, Chunk>, p: int)
      requires OnlyLoose(c, p)
      ensures p in c && c[p].kind.Loose?
    {}

    /** Files the loose chunk. */
    method Settle(p: int, s: int)
      requires Holding(p) && chunks[p].size == s && s < WORD
      modifies this`links, this`smallmap, this`small, this`treemap, this`treebins, this`trees, this`chunks
      ensures Tidy() && VictimOk(chunks, dv, dvsize) && NothingLoose(chunks) && Live() == old(Live())
      ensures chunks == Rekinded(old(chunks), p, Binned)
    {
      hide Filed, BinsOk, Tiling, TileAt, LiveOf, NoFreeNeighbours;
      RekindKeeps(chunks, p, Binned);
      InsertChunk(p, s);
    }

    /** `replace_dv`: the loose chunk becomes the designated victim, the old one goes to its bin. */
    method ReplaceDv(p: int, s: int)
      requires Holding(p) && IsSmall(dvsize) && chunks[p].size == s
      modifies this`links, this`smallmap, this`small, this`chunks, this`dv, this`dvsize
      ensures Tidy() && VictimOk(chunks, dv, dvsize) && NothingLoose(chunks) && Live() == old(Live())
      ensures dv == p && dvsize == s
    {
      hide Filed, BinsOk, Tiling, TileAt, LiveOf, NoFreeNeighbours, Tiles.Aligned;
      ChunkBounds(Tags_(), Segment_(), p);
      if dvsize != 0 {
        RekindKeeps(chunks, dv, Binned);
        InsertSmallChunk(dv, dvsize);
      }
      RekindFree(Tags_(), Segment_(), p, Dv);
      RekindKeeps(chunks, p, Dv);
      ghost var before := chunks;
      dvsize := s;
      dv := p;
      chunks := Rekinded(chunks, p, Dv);
      FiledFrame(Bins_(), before, chunks);
    }

    /** Takes a binned chunk out of its bin. */
    method Grab(p: int, s: int)
      requires Valid() && p in chunks && chunks[p].kind.Binned? && chunks[p].size == s
      modifies this`links, this`smallmap, this`small, this`treemap, this`treebins, this`trees, this`chunks
      ensures Holding(p) && chunks == Rekinded(old(chunks), p, Loose) && Live() == old(Live())
    {
      hide Filed, BinsOk, Tiling, TileAt, LiveOf, NoFreeNeighbours, VictimOk, NothingLoose, OnlyLoose;
      RekindKeeps(chunks, p, Loose);
      UnbinnedLoose(chunks, p, dv, dvsize);
      UnlinkChunk(p, s);
    }

    /** Uses the chunk `v` of a tree bin: whole when less than a chunk would be left over, else its lower
        part; the rest goes back to a bin. */
    method CarveBinned(v: int, nb: int, rsize: int)
      requires Valid() && v in chunks && chunks[v].kind.Binned? && !IsSmall(chunks[v].size)
      requires chunks[v].size == nb + rsize && rsize >= 0 && nb >= MIN_CHUNK && Tiles.Aligned(nb) && rsize < WORD
      modifies this`links, this`smallmap, this`small, this`treemap, this`treebins, this`trees, this`chunks,
               this`head, this`prevFoot
      ensures Valid() && Live() == old(Live())[v := if rsize < MIN_CHUNK then nb + rsize else nb]
    {
      hide Filing, LiveOf, NoFreeNeighbours, Tiles.Aligned, VictimOk, NothingLoose, OnlyLoose;
      Grab(v, nb + rsize);
      if rsize < MIN_CHUNK {
        CarveAll(v, rsize + nb);
      } else {
        var r := CarvePart(v, nb, rsize);
        Settle(r, rsize);
      }
    }

    /** `tmalloc_large`: best fit over all tree bins, unless the designated victim fits at least as well. */
    method TmallocLarge(nb: int) returns (mem: int)
      requires Valid() && MIN_LARGE_SIZE <= nb < WORD && Tiles.Aligned(nb)
      modifies this`links, this`smallmap, this`small, this`treemap, this`treebins, this`trees, this`chunks,
               this`head, this`prevFoot
      ensures Valid()
      ensures mem == 0 ==> chunks == old(chunks)
      ensures mem == 0 ==> NoneBetter(chunks, nb, dvsize)
      ensures mem != 0 ==> BestFit(old(chunks), mem - 8, nb) && (nb <= dvsize ==> old(chunks)[mem - 8].size < dvsize)
      ensures mem != 0 ==> Allocated(old(Live()), Live(), mem, nb)
    {
      var v, rsize := FindBestFit(nb);
      mem := 0;
      VictimBelowWord();
      FitsBetter(dvsize, nb, 0);
      WrapDifference(dvsize, nb);
      if v != 0 && rsize < (dvsize - nb) % WORD {
        hide Filing, LiveOf, NoFreeNeighbours, Tiles.Aligned, VictimOk, NothingLoose;
        FreeChunk(v);
        CarveBinned(v, nb, rsize);
        mem := v + 8;
      }
    }

    /** The search of `tmalloc_small`: the least size of all tree bins. */
    method FindSmallest(nb: int) returns (v: int, rsize: int)
      requires Filing() && MIN_CHUNK <= nb < MIN_LARGE_SIZE && treemap != 0
      ensures v in chunks && chunks[v].kind.Binned? && !IsSmall(chunks[v].size)
      ensures chunks[v].size == nb + rsize && 0 < rsize < WORD
      ensures LeastLarge(chunks, v)
    {
      hide Filed, BinsOk, Tiling, Shape, Pow2, Addrs, Sizes, SizeOf, Rep, IsRing, Marked, Within, AllAtLeast, Leftward,
           PendingLeft, Index, TreeIndex;
      var i := LeastMarked(treemap);
      FirstBin(nb, i);
      ghost var tree := trees[i];
      var t := treebins[i];
      ghost var cur, par, lo, e := tree, TreebinAt(i), BinLow(i), BinWidth(i);
      ghost var lo', e' := LeftwardStep(links, tree, i, cur, t, par, lo, e);
      LeftStep(Sizes(tree), nb, WORD, cur, lo, e);
      TreeChunkSize(i, t);
      FitsBetter(cur.size, nb, WORD - nb);
      v := t;
      rsize := (ChunkSize(At(head, t)) - nb) % WORD;
      par := t;
      t := if links.Child(false, t) != 0 then links.Child(false, t) else links.Child(true, t);
      cur, lo, e := LeftmostChild(cur), lo', e';
      while t != 0
        invariant Candidate(tree, nb, v, rsize) && v != 0 && Leftward(links, tree, i, cur, t, par, lo, e)
        invariant PendingLeft(Sizes(tree), nb, nb + rsize, cur) && AllAtLeast(cur, nb)
        invariant 0 < rsize <= WORD - nb
        decreases cur
      {
        lo', e' := LeftwardStep(links, tree, i, cur, t, par, lo, e);
        LeftStep(Sizes(tree), nb, nb + rsize, cur, lo, e);
        TreeChunkSize(i, t);
        var trem := (ChunkSize(At(head, t)) - nb) % WORD;
        FitsBetter(cur.size, nb, rsize);
        if trem < rsize {
          rsize := trem;
          v := t;
        }
        par := t;
        t := if links.Child(false, t) != 0 then links.Child(false, t) else links.Child(true, t);
        cur, lo, e := LeftmostChild(cur), lo', e';
      }
      LeftwardNil(links, tree, i, cur, par, lo, e);
      NothingPending(Sizes(tree), nb, nb + rsize);
      TreeChunkSize(i, v);
      forall a | a in chunks && chunks[a].kind.Binned? && !IsSmall(chunks[a].size)
        ensures nb + rsize <= chunks[a].size
      {
        LowerBins(MIN_LARGE_SIZE, a);
        if TreeIndex(chunks[a].size) > i {
          HigherBinLargerSize(nb + rsize, chunks[a].size);
        }
      }
    }

    /** The first marked tree bin: the bins below are empty. */
    lemma FirstBin(nb: int, i: int)
      requires Filing() && MIN_CHUNK <= nb < MIN_LARGE_SIZE && treemap != 0 && i == LeastMarked(treemap)
      ensures treebins[i] != 0 && forall j :: 0 <= j < i ==> trees[j].Nil?
      ensures Leftward(links, trees[i], i, trees[i], treebins[i], TreebinAt(i), BinLow(i), BinWidth(i))
      ensures PendingLeft(Sizes(trees[i]), nb, WORD, trees[i]) && AllAtLeast(trees[i], nb)
    {
      forall j | 0 <= j < i
        ensures trees[j].Nil?
      {
        OpenBin(j);
      }
      OpenBin(i);
      hide Tiling, BinsOk, Shape, Rep, Addrs, SizeOf, TreeIndex, Sizes, Marked, Pow2;
      RootPointer(links, trees[i], treebins[i], TreebinAt(i), i);
      forall s | s in Sizes(trees[i])
        ensures nb <= s
      {
        var a := SizeHasChunk(trees[i], BinLow(i), BinWidth(i), s);
        TreeChunkSize(i, a);
      }
    }

    /** As `CarveBinned` for a small request, which has no larger victim: the rest becomes the victim. */
    method CarveSmall(v: int, nb: int, rsize: int)
      requires Valid() && v in chunks && chunks[v].kind.Binned?
      requires chunks[v].size == nb + rsize && rsize >= 0 && nb >= MIN_CHUNK && Tiles.Aligned(nb) && IsSmall(dvsize)
      modifies this`links, this`smallmap, this`small, this`treemap, this`treebins, this`trees, this`chunks,
               this`head, this`prevFoot, this`dv, this`dvsize
      ensures Valid() && Live() == old(Live())[v := if rsize < MIN_CHUNK then nb + rsize else nb]
      ensures (dv, dvsize) == if rsize < MIN_CHUNK then (old(dv), old(dvsize)) else (v + nb, rsize)
    {
      hide Filing, LiveOf, NoFreeNeighbours, Tiles.Aligned, VictimOk, NothingLoose, OnlyLoose;
      Grab(v, nb + rsize);
      if rsize < MIN_CHUNK {
        CarveAll(v, rsize + nb);
      } else {
        var r := CarvePart(v, nb, rsize);
        ReplaceDv(r, rsize);
      }
    }

    /** `tmalloc_small`: the smallest chunk of all tree bins; what is left over becomes the victim. */
    method TmallocSmall(nb: int) returns (mem: int)
      requires Valid() && treemap != 0 && MIN_CHUNK <= nb < MIN_LARGE_SIZE && Tiles.Aligned(nb) && dvsize < nb
      modifies this`links, this`smallmap, this`small, this`treemap, this`treebins, this`trees, this`chunks,
               this`head, this`prevFoot, this`dv, this`dvsize
      ensures Valid() && mem - 8 in old(chunks) && old(chunks)[mem - 8].kind.Binned? && LeastLarge(old(chunks), mem - 8)
      ensures mem != 0 && !IsSmall(old(chunks)[mem - 8].size)
      ensures Allocated(old(Live()), Live(), mem, nb)
      ensures (dv, dvsize) == VictimAfter(old(chunks), old(dv), old(dvsize), nb, mem - 8)
    {
      var v, rsize := FindSmallest(nb);
      hide Filing, LiveOf, NoFreeNeighbours, Tiles.Aligned, VictimOk, NothingLoose, LeastLarge;
      FreeChunk(v);
      CarveSmall(v, nb, rsize);
      mem := v + 8;
    }

    lemma FreeChunk(p: int)
      requires Filing() && p in chunks && !chunks[p].kind.InUse?
      ensures p > 0 && Tiles.Aligned(p) && p !in Live() && chunks[p].size >= MIN_CHUNK
    {
      hide Filed, BinsOk;
      FreeNotLive(Tags_(), Segment_(), p);
      ChunkBounds(Tags_(), Segment_(), p);
    }

    lemma VictimBelowWord()
      requires Valid()
      ensures 0 <= dvsize < MAX_SIZE_T && topsize < MAX_SIZE_T
      ensures forall a :: a in chunks ==> chunks[a].size < WORD
    {
      hide Filed, BinsOk, TileAt;
      forall a | a in chunks
        ensures 0 <= chunks[a].size < MAX_SIZE_T
      {
        ChunkBounds(Tags_(), Segment_(), a);
      }
    }

    // -------------------------------------------------------------- malloc

    /** The designated victim serves the request: split, or used up. */
    method UseVictim(nb: int) returns (mem: int)
      requires Valid() && MIN_CHUNK <= nb <= dvsize && Tiles.Aligned(nb)
      modifies this`chunks, this`head, this`prevFoot, this`dv, this`dvsize
      ensures Valid() && mem != 0 && Allocated(old(Live()), Live(), mem, nb)
      ensures mem - 8 == old(dv) && (dv, dvsize) == VictimAfter(old(chunks), old(dv), old(dvsize), nb, mem - 8)
    {
      hide Filed, BinsOk, Tiling, TileAt, LiveOf, NoFreeNeighbours, Tiles.Aligned, Cut, VictimAfter;
      var rsize := dvsize - nb;
      var p := dv;
      FromVictim(chunks, dv, dvsize, nb);
      FreeNotLive(Tags_(), Segment_(), p);
      ghost var s := Segment_();
      if rsize >= MIN_CHUNK {
        var r := SplitChunk(p, nb, rsize);
        dv := r;
        dvsize := rsize;
        CutRest(s, p, nb);
        RekindFree(Tags_(), Segment_(), r, Dv);
        RekindKeeps(chunks, r, Dv);
        ghost var before := chunks;
        chunks := Rekinded(chunks, r, Dv);
        FiledFrame(Bins_(), before, chunks);
        VictimMoved(s, p, nb, r);
      } else {
        var dvs := dvsize;
        dvsize := 0;
        dv := 0;
        UseWhole(p, dvs);
      }
      mem := p + 8;
    }

    lemma CutRest(s: Segment, p: int, nb: int)
      requires p in s.chunks && 0 < nb < s.chunks[p].size && p + nb !in s.chunks
      ensures var c := Cut(s, p, nb, Loose).chunks; p + nb in c && c[p + nb] == Chunk(s.chunks[p].size - nb, Loose, p)
    {}

    lemma VictimMoved(s: Segment, p: int, nb: int, r: int)
      requires p in s.chunks && 0 < nb < s.chunks[p].size && r == p + nb && r !in s.chunks
      requires NothingLoose(s.chunks) && VictimOk(s.chunks, p, s.chunks[p].size)
      ensures var c := Cut(s, p, nb, Loose).chunks;
        r in c && var c' := Rekinded(c, r, Dv); NothingLoose(c') && VictimOk(c', r, s.chunks[p].size - nb)
    {}

    /** The lower part of `top` serves the request. */
    method UseTop(nb: int) returns (mem: int)
      requires Valid() && MIN_CHUNK <= nb < topsize && Tiles.Aligned(nb)
      modifies this`chunks, this`head, this`top, this`topsize, this`last
      ensures Valid() && mem != 0 && Allocated(old(Live()), Live(), mem, nb)
      ensures chunks == TopTaken(old(Segment_()), nb).chunks && mem - 8 == old(top)
    {
      hide Filed, BinsOk, Tiling, TileAt, LiveOf, NoFreeNeighbours, Tiles.Aligned, VictimOk, NothingLoose;
      ghost var s := Segment_();
      TopKeeps(Tags_(), s, nb, dv, dvsize);
      var rsize := topsize - nb;
      topsize := rsize;
      var p := top;
      top := p + nb;
      var r := top;
      head := head[r := rsize + PINUSE_BIT];
      head := head[p := nb + PINUSE_BIT + CINUSE_BIT];
      TakeTop(old(Tags_()), Tags_(), s, nb);
      last := p;
      chunks := TopTaken(s, nb).chunks;
      FiledFrame(Bins_(), old(chunks), chunks);
      mem := p + 8;
    }

    ghost function Supply_(): Supply
      reads this
    {
      Supply(chunks, topsize, base, footprint, granularity)
    }

    lemma BreakPositive()
      requires Valid()
      ensures base + footprint > 0
    {
      hide Filed, BinsOk, TileAt;
    }

    /** MORECORE: moves the break by `n` bytes, and returns the old one. */
    method MoreCore(n: int, granted: bool) returns (p: int)
      modifies this`brk
      ensures if granted && old(brk) + n <= WORD then p == old(brk) && brk == old(brk) + n else p == CMFAIL && brk == old(brk)
      ensures old(Tidy()) ==> Tidy()
    {
      hide Filed, BinsOk, Tiling, NoFreeNeighbours;
      p := CMFAIL;
      if granted && brk + n <= WORD {
        p := brk;
        brk := brk + n;
      }
    }

    /** `sys_alloc` where MORECORE extends the segment in place, if it does; `granted` is its answer. */
    method SysAlloc(nb: int, granted: bool) returns (mem: int)
      requires Valid() && MIN_CHUNK <= nb <= MAX_SIZE_T && topsize <= nb && (nb < MAX_SIZE_T ==> Tiles.Aligned(nb))
      modifies this`chunks, this`head, this`top, this`topsize, this`last, this`footprint, this`brk
      ensures Valid()
      ensures footprint == old(footprint) + if granted && CanGrow(old(Supply_()), nb) then Asked(old(Supply_()), nb) else 0
      ensures mem == 0 ==> chunks == old(chunks)
      ensures mem == 0 ==> topsize <= nb
      ensures mem != 0 ==> Allocated(old(Live()), Live(), mem, nb) && nb < MAX_SIZE_T && mem - 8 == old(top)
      ensures granted && nb < MAX_SIZE_T && RoomFor(old(Supply_()), nb) ==> mem != 0
    {
      hide Filing, LiveOf, NoFreeNeighbours, Tiles.Aligned, VictimOk, NothingLoose, Allocated, GranularityAlign;
      mem := 0;
      VictimBelowWord();
      ghost var grown := nb - topsize + TOP_FOOT_SIZE + 1;
      assert 0 < granularity && granularity % 8 == 0 && 0 < grown;
      if grown < WORD {
        ModWord(grown, grown);
      }
      GranularityKeeps(grown % WORD, granularity);
      var asize := GranularityAlign((nb - topsize + TOP_FOOT_SIZE + 1) % WORD, granularity);
      var br := CMFAIL;
      BreakPositive();
      if asize < HALF_MAX_SIZE_T {
        br := MoreCore(asize, granted);
      }
      if br == base + footprint {
        ExtendTop(asize);
        if nb < topsize {
          VictimBelowWord();
          mem := UseTop(nb);
        }
      }
    }

    /** `init_top` for a segment that grew by `tsize` at its end. */
    method ExtendTop(tsize: int)
      requires Tidy() && VictimOk(chunks, dv, dvsize) && NothingLoose(chunks) && tsize >= 0 && Tiles.Aligned(tsize)
      requires base + footprint == top + topsize + TOP_FOOT_SIZE && base + footprint + tsize == brk <= WORD
      requires granularity > 0 && granularity % 8 == 0
      modifies this`head, this`topsize, this`footprint
      ensures Valid() && topsize == old(topsize) + tsize && footprint == old(footprint) + tsize
    {
      hide Filed, BinsOk, Tiling, TileAt, LiveOf, NoFreeNeighbours, Tiles.Aligned, VictimOk, NothingLoose;
      footprint := footprint + tsize;
      topsize := topsize + tsize;
      head := head[top := topsize + PINUSE_BIT];
      head := head[top + topsize := TOP_FOOT_SIZE];
      GrowTop(old(Tags_()), Tags_(), old(Segment_()), tsize, TOP_FOOT_SIZE);
    }

    /** The part of `dlmalloc` that serves small requests from bins. */
    method MallocSmall(nb: int) returns (mem: int)
      requires Valid() && MIN_CHUNK <= nb < MIN_LARGE_SIZE && Tiles.Aligned(nb)
      modifies this`links, this`smallmap, this`small, this`treemap, this`treebins, this`trees, this`chunks,
               this`head, this`prevFoot, this`dv, this`dvsize
      ensures Valid()
      ensures mem != 0 ==> Allocated(old(Live()), Live(), mem, nb) && FromBins(old(Bins_()), old(chunks), nb, mem - 8)
      ensures mem != 0 ==> (dv, dvsize) == VictimAfter(old(chunks), old(dv), old(dvsize), nb, mem - 8)
      ensures mem == 0 ==> Live() == old(Live()) && (nb <= dvsize || NothingFits(chunks, nb))
      ensures mem == 0 ==> chunks == old(chunks) && dv == old(dv) && dvsize == old(dvsize)
      ensures mem != 0 <==> Preferred(old(chunks), nb, old(dvsize))
    {
      hide Filing, LiveOf, NoFreeNeighbours, VictimOk, NothingLoose, OnlyLoose, NothingFits, Marked, Index, LeastLarge,
           BitsAbove, BitsFrom, ShiftDown, BestFit, Preferred, Allocated, NoneBelow, Tiles.Aligned;
      mem := 0;
      var idx := nb / 8;
      SmallIndex(nb);
      SmallMapBits(smallmap, idx);
      var smallbits := ShiftDown(smallmap, Index(idx));
      if smallbits & 3 != 0 {
        var i := idx + (if !smallbits & 1 == 1 then 1 else 0);
        SmallestFrom(nb, i);
        mem := TakeSmall(nb, i);
        FromSmallBin(old(chunks), nb, dvsize, mem - 8, i);
      } else if nb > dvsize {
        if smallbits != 0 {
          var i := NextSmall(nb, idx, smallbits);
          SmallestFrom(nb, i);
          mem := SplitSmall(nb, i);
          FromSmallBin(old(chunks), nb, old(dvsize), mem - 8, i);
        } else if treemap != 0 {
          SmallestFrom(nb, NBINS);
          mem := TmallocSmall(nb);
          FromTree(old(chunks), nb, old(dvsize), mem - 8);
        } else {
          NothingSmall(nb, idx);
          NotFromBins(chunks, nb, dvsize);
        }
      } else {
        SmallestFrom(nb, if idx + 2 <= NBINS then idx + 2 else NBINS);
        NotFromBins(chunks, nb, dvsize);
      }
    }

    /** When the small bins from that of `nb` up to bin `i` are empty, no chunk for `nb` is smaller than those of bin `i`. */
    lemma SmallestFrom(nb: int, i: int)
      requires Filing() && 0 <= nb && nb % 8 == 0 && nb / 8 <= i <= NBINS
      requires forall j :: nb / 8 <= j < i ==> !Marked(smallmap, j)
      ensures NoneBelow(chunks, nb, 8 * i)
    {
      hide Marked, Tiling, IsRing, Rep, Shape, Addrs, TreeIndex;
      forall a | a in chunks && chunks[a].kind.Binned? && nb <= chunks[a].size
        ensures 8 * i <= chunks[a].size
      {
        var s := chunks[a].size;
        assert InBin(Bins_(), a, s);
        if IsSmall(s) {
          assert a in small[s / 8] && FiledSmall(chunks, a, s / 8) && SmallBinOk(Bins_(), s / 8);
        }
      }
    }

    /** The next non-empty small bin, which is at least two bins up. */
    method NextSmall(nb: int, idx: int, smallbits: bv32) returns (i: int)
      requires 2 <= idx < NBINS && nb == 8 * idx && smallbits == ShiftDown(smallmap, Index(idx)) && smallbits != 0
      requires !Marked(smallmap, idx) && (idx + 1 < NBINS ==> !Marked(smallmap, idx + 1))
      ensures 0 <= i < NBINS && Marked(smallmap, i) && nb + MIN_CHUNK <= 8 * i
      ensures forall j :: idx <= j < i ==> !Marked(smallmap, j)
    {
      hide Index, Marked, BitsAbove, BitsFrom, ShiftDown;
      var leftbits := BitsAbove(BitsFrom(smallmap, Index(idx)), Index(idx));
      ghost var j := ShiftedSome(smallmap, idx);
      MarkedAbove(smallmap, idx, j);
      MarkedNonZero(leftbits, j);
      i := LeastMarked(leftbits);
      MarkedAbove(smallmap, idx, i);
      forall k | idx < k < i
        ensures !Marked(smallmap, k)
      {
        MarkedAbove(smallmap, idx, k);
      }
    }

    lemma NothingSmall(nb: int, idx: int)
      requires Valid() && 2 <= idx < NBINS && nb == 8 * idx && dvsize < nb && treemap == 0
      requires forall j :: idx <= j < NBINS ==> !Marked(smallmap, j)
      ensures NothingFits(chunks, nb)
    {
      hide Marked, Index, Tiling, IsRing, Rep, Shape, Addrs, TreeIndex;
      forall a | a in chunks && !chunks[a].kind.InUse?
        ensures chunks[a].size < nb
      {
        if chunks[a].kind.Binned? {
          var s := chunks[a].size;
          assert InBin(Bins_(), a, s);
          if IsSmall(s) {
            assert a in small[s / 8] && FiledSmall(chunks, a, s / 8) && SmallBinOk(Bins_(), s / 8);
          } else {
            NodeBefore(trees[TreeIndex(s)], a);
            OpenBin(TreeIndex(s));
            MarkedNonZero(treemap, TreeIndex(s));
          }
        }
      }
    }

    /** A chunk of small bin `i` that needs no split. */
    method TakeSmall(nb: int, i: int) returns (mem: int)
      requires Valid() && 0 <= i < NBINS && Marked(smallmap, i) && nb <= 8 * i < nb + MIN_CHUNK
      modifies this`links, this`smallmap, this`small, this`chunks, this`head
      ensures Valid() && Allocated(old(Live()), Live(), mem, nb) && mem != 0
      ensures TopOfBin(old(Bins_()), old(chunks), i, mem - 8)
    {
      hide Filed, BinsOk, Tiling, TileAt, LiveOf, NoFreeNeighbours, VictimOk, NothingLoose, OnlyLoose, Marked;
      var p := UnlinkFirstSmallChunk(i);
      FreeNotLive(old(Tags_()), old(Segment_()), p);
      RekindKeeps(old(chunks), p, Loose);
      UnbinnedLoose(old(chunks), p, dv, dvsize);
      CarveAll(p, 8 * i);
      mem := p + 8;
    }

    /** A chunk of small bin `i` is split; the rest becomes the designated victim. */
    method SplitSmall(nb: int, i: int) returns (mem: int)
      requires Valid() && 0 <= i < NBINS && Marked(smallmap, i) && nb + MIN_CHUNK <= 8 * i
      requires MIN_CHUNK <= nb && Tiles.Aligned(nb) && dvsize < nb
      modifies this`links, this`smallmap, this`small, this`chunks, this`head, this`prevFoot, this`dv, this`dvsize
      ensures Valid() && Allocated(old(Live()), Live(), mem, nb) && mem != 0
      ensures TopOfBin(old(Bins_()), old(chunks), i, mem - 8) && dv == mem - 8 + nb && dvsize == 8 * i - nb
    {
      hide Filed, BinsOk, Tiling, TileAt, LiveOf, NoFreeNeighbours, VictimOk, NothingLoose, OnlyLoose, Marked;
      var p := UnlinkFirstSmallChunk(i);
      FreeNotLive(old(Tags_()), old(Segment_()), p);
      RekindKeeps(old(chunks), p, Loose);
      UnbinnedLoose(old(chunks), p, dv, dvsize);
      var rsize := 8 * i - nb;
      var r := CarvePart(p, nb, rsize);
      ReplaceDv(r, rsize);
      mem := p + 8;
    }

    /** The part of `dlmalloc` that serves large requests from bins. */
    method MallocLarge(nb: int) returns (mem: int)
      requires Valid() && MIN_LARGE_SIZE <= nb < WORD && Tiles.Aligned(nb)
      modifies this`links, this`smallmap, this`small, this`treemap, this`treebins, this`trees, this`chunks,
               this`head, this`prevFoot
      ensures Valid()
      ensures mem != 0 ==> Allocated(old(Live()), Live(), mem, nb) && FromBins(old(Bins_()), old(chunks), nb, mem - 8)
      ensures mem == 0 ==> Live() == old(Live()) && (nb <= dvsize || NothingFits(chunks, nb))
      ensures mem == 0 ==> chunks == old(chunks)
      ensures mem != 0 <==> Preferred(old(chunks), nb, old(dvsize))
    {
      hide Filing, LiveOf, NoFreeNeighbours, VictimOk, NothingLoose, NothingFits, Tiles.Aligned, BestFit, NoneBetter,
           Preferred;
      mem := 0;
      if treemap != 0 {
        mem := TmallocLarge(nb);
        if mem == 0 {
          NothingBetter(nb);
          NotFromBins(chunks, nb, dvsize);
        } else {
          FromLarge(old(chunks), nb, dvsize, mem - 8);
        }
      } else {
        NothingLarge(nb);
        NotFromBins(chunks, nb, dvsize);
      }
    }

    lemma NothingBetter(nb: int)
      requires Valid() && NoneBetter(chunks, nb, dvsize)
      ensures nb <= dvsize || NothingFits(chunks, nb)
    {
      hide Filing;
    }

    lemma NothingLarge(nb: int)
      requires Valid() && MIN_LARGE_SIZE <= nb && treemap == 0
      ensures (nb <= dvsize || NothingFits(chunks, nb)) && NoneBetter(chunks, nb, dvsize)
    {
      hide Marked, Tiling, IsRing, Rep, Shape, Addrs, TreeIndex;
      forall a | a in chunks && chunks[a].kind.Binned?
        ensures chunks[a].size < nb
      {
        var s := chunks[a].size;
        assert InBin(Bins_(), a, s);
        if !IsSmall(s) {
          NodeBefore(trees[TreeIndex(s)], a);
          OpenBin(TreeIndex(s));
          MarkedNonZero(treemap, TreeIndex(s));
        }
      }
    }

    lemma TopServes(nb: int)
      requires Valid()
      ensures VictimAfter(chunks, dv, dvsize, nb, top) == (dv, dvsize)
    {
      hide Filed, BinsOk, Tiling, TileAt;
      TopNotChunk(Tags_(), Segment_());
    }

    /** `dlmalloc`; `granted` says whether MORECORE would extend the segment. */
    method Malloc(bytes: int, granted: bool) returns (mem: int)
      requires Valid() && 0 <= bytes < WORD
      modifies this`links, this`smallmap, this`small, this`treemap, this`treebins, this`trees, this`chunks,
               this`head, this`prevFoot, this`dv, this`dvsize, this`top, this`topsize, this`last, this`footprint, this`brk
      ensures Valid()
      ensures mem != 0 ==> bytes < MAX_REQUEST && Allocated(old(Live()), Live(), mem, RequestSize(bytes))
      ensures mem == 0 ==> Live() == old(Live()) && chunks == old(chunks) && Refused(old(Supply_()), bytes, granted)
      ensures footprint == old(footprint) + Growth(old(Supply_()), bytes, granted)
      ensures mem != 0 ==> Placed(old(Bins_()), old(chunks), old(dv), old(dvsize), old(top), RequestSize(bytes), mem - 8)
      ensures mem != 0 ==> (dv, dvsize) == VictimAfter(old(chunks), old(dv), old(dvsize), RequestSize(bytes), mem - 8)
    {
      hide Filing, LiveOf, NoFreeNeighbours, VictimOk, NothingLoose, NothingFits, Tiles.Aligned, Allocated, PadRequest,
           Growth, Preferred, FromBins, VictimAfter;
      ghost var s, b, dv0, dvsize0, top0 := Supply_(), Bins_(), dv, dvsize, top;
      var nb := MAX_SIZE_T;
      mem := 0;
      if bytes <= MAX_SMALL_REQUEST {
        PaddedSize(bytes);
        nb := if bytes < MIN_REQUEST then MIN_CHUNK else PadRequest(bytes);
        mem := MallocSmall(nb);
      } else if bytes < MAX_REQUEST {
        PaddedSize(bytes);
        nb := PadRequest(bytes);
        mem := MallocLarge(nb);
      }
      if mem == 0 {
        VictimBelowWord();
        if nb <= dvsize {
          VictimFits(s, bytes, dv, dvsize, granted);
          mem := UseVictim(nb);
        } else if nb < topsize {
          TopFits(s, bytes, granted);
          TopServes(nb);
          mem := UseTop(nb);
        } else {
          ShortOf(s, bytes, granted);
          TopServes(nb);
          mem := SysAlloc(nb, granted);
        }
      } else {
        BinFits(s, b, bytes, mem - 8, granted);
        if !IsSmall(nb) {
          NotVictim(s.chunks, b, dv0, dvsize0, nb, mem - 8);
        }
      }
    }

    // -------------------------------------------------------------- free

    /** `set_size_and_pinuse_of_free_chunk` */
    method SetFree(p: int, s: int)
      modifies this`head, this`prevFoot
      ensures Tags_() == FreeTags(old(Tags_()), p, s)
    {
      head := head[p := s + PINUSE_BIT];
      prevFoot := prevFoot[p + s := s];
    }

    /** `set_free_with_pinuse` */
    method SetFreeWithPinuse(p: int, s: int, n: int)
      modifies this`head, this`prevFoot
      ensures Tags_() == FreeTags(ClearedTags(old(Tags_()), n), p, s)
    {
      head := head[n := ClearPinuse(At(head, n))];
      SetFree(p, s);
    }

    /** Freeing `p`, of which the free chunk before, if any, is `q`; the chunk behind `p` may be loose too. */
    ghost predicate Merging(p: int, q: int)
      reads this
    {
      && Tidy() && VictimOk(chunks, dv, dvsize) && Extent()
      && Releasing(chunks, p, q) && LooseWithin(chunks, q, p + chunks[p].size)
    }

    /** What `free` looks up of a chunk and its neighbours. */
    lemma FreedChunk(p: int)
      requires Filing() && p in chunks
      ensures var size := chunks[p].size; var h := At(head, p);
        && ChunkSize(h) == size && size > 0 && (Pinuse(h) <==> UsedBefore(chunks, chunks[p].prev))
        && (!Pinuse(h) ==>
              && chunks[p].prev in chunks && At(prevFoot, p) == p - chunks[p].prev
              && chunks[p].prev + chunks[chunks[p].prev].size == p && chunks[p].prev < p)
      ensures var n := p + chunks[p].size;
        && (n == top ==> n !in chunks && !Cinuse(At(head, n)))
        && (n != top ==>
              && n in chunks && ChunkSize(At(head, n)) == chunks[n].size
              && (Cinuse(At(head, n)) <==> chunks[n].kind.InUse?)
              && (chunks[p].kind.InUse? ==> Pinuse(At(head, n))))
      ensures !chunks[p].kind.InUse? ==> p + chunks[p].size in chunks
    {
      hide Filed, BinsOk, TileAt, HeadWord;
      ReadTags(Tags_(), Segment_(), p);
      ChunkBounds(Tags_(), Segment_(), p);
      NextChunk(Tags_(), Segment_(), p);
      TopNotChunk(Tags_(), Segment_());
      if chunks[p].prev in chunks {
        PrevChunk(Tags_(), Segment_(), p);
      }
      if p + chunks[p].size in chunks {
        ReadTags(Tags_(), Segment_(), p + chunks[p].size);
      }
    }

    /** The steps common to all merges below `top`. */
    lemma MergeChunks(g0: Tags, p: int, q: int, n: int, kind: Kind)
      requires Merging(p, q) && Joined(chunks, p, q, n)
      requires var next := p + chunks[p].size;
        && next in chunks && !chunks[next].kind.Binned?
        && kind == (if chunks[q].kind.Dv? || chunks[next].kind.Dv? then Dv else Loose)
        && (g0 == ClearedTags(Tags_(), n) || (g0 == Tags_() && n != next))
      ensures q < n
      ensures var s' := Fused(Segment_(), q, n, kind);
        && s' == Segment_().(chunks := s'.chunks) && Tiling(FreeTags(g0, q, n - q), s')
        && Filed(Bins_(), s'.chunks) && NoFreeNeighbours(s'.chunks)
        && LiveOf(s'.chunks) == Live() - {p}
        && (kind.Dv? ==> NothingLoose(s'.chunks) && VictimOk(s'.chunks, q, n - q))
        && (kind.Loose? ==> OnlyLoose(s'.chunks, q) && VictimOk(s'.chunks, dv, dvsize))
        && s'.chunks[q].size == n - q
    {
      hide Filed, BinsOk, Tiling, TileAt, Releasing, LooseWithin, VictimOk, NothingLoose, OnlyLoose,
           NoFreeNeighbours, LiveOf;
      JoinTags(Tags_(), g0, Segment_(), p, q, n, kind);
      JoinKeeps(Tags_(), Segment_(), p, q, n, kind);
      JoinKinds(Tags_(), Segment_(), p, q, n, kind, dv, dvsize);
      FiledFrame(Bins_(), chunks, Fused(Segment_(), q, n, kind).chunks);
    }

    /** The chunk behind is free, and not in a bin. */
    lemma MergeFree(p: int, q: int, next: int, kind: Kind)
      requires Merging(p, q) && next == p + chunks[p].size
      requires next in chunks && !chunks[next].kind.InUse? && !chunks[next].kind.Binned?
      requires kind == (if chunks[q].kind.Dv? || chunks[next].kind.Dv? then Dv else Loose)
      ensures q in chunks && q > 0 && next > 0 && q < next + chunks[next].size && next + chunks[next].size in chunks
      ensures var n := next + chunks[next].size; var s' := Fused(Segment_(), q, n, kind);
        && s' == Segment_().(chunks := s'.chunks) && Tiling(FreeTags(Tags_(), q, n - q), s') && Filed(Bins_(), s'.chunks)
        && NoFreeNeighbours(s'.chunks) && LiveOf(s'.chunks) == Live() - {p}
        && (kind.Dv? ==> NothingLoose(s'.chunks) && VictimOk(s'.chunks, q, n - q))
        && (kind.Loose? ==> OnlyLoose(s'.chunks, q) && VictimOk(s'.chunks, dv, dvsize))
        && s'.chunks[q].size == n - q
    {
      hide Filed, BinsOk, Tiling, TileAt, LiveOf, NoFreeNeighbours, NothingLoose, OnlyLoose, Fused, VictimOk, LooseWithin;
      FreedChunk(p);
      FreedChunk(q);
      FreedChunk(next);
      ChunkBounds(Tags_(), Segment_(), q);
      ChunkBounds(Tags_(), Segment_(), next);
      MergeChunks(Tags_(), p, q, next + chunks[next].size, kind);
    }

    /** The chunk before is the victim, the chunk behind is in use. */
    method GrowVictimUp(p: int, q: int, size: int, next: int)
      requires Merging(p, q) && q == dv && dvsize != 0 && next == p + chunks[p].size && size == next - q
      requires next in chunks && chunks[next].kind.InUse?
      modifies this`head, this`prevFoot, this`dvsize, this`chunks
      ensures Valid() && Live() == old(Live()) - {p}
      ensures FusedTo(old(Segment_()), q, next, Dv, Segment_()) && dvsize == size
    {
      MergeChunks(ClearedTags(Tags_(), next), p, q, next, Dv);
      hide Filed, BinsOk, Tiling, TileAt, LiveOf, NoFreeNeighbours, VictimOk, NothingLoose, OnlyLoose, Fused;
      dvsize := size;
      SetFreeWithPinuse(q, size, next);
      chunks := Fused(old(Segment_()), q, next, Dv).chunks;
    }

    /** The merged chunk is loose; the chunk behind it is in use. */
    method MergeUp(p: int, q: int, size: int, next: int)
      requires Merging(p, q) && !chunks[q].kind.Dv? && next == p + chunks[p].size && size == next - q
      requires next in chunks && chunks[next].kind.InUse?
      modifies this`head, this`prevFoot, this`chunks
      ensures Holding(q) && chunks[q].size == size && Live() == old(Live()) - {p}
      ensures FusedTo(old(Segment_()), q, next, Loose, Segment_())
    {
      MergeChunks(ClearedTags(Tags_(), next), p, q, next, Loose);
      hide Filed, BinsOk, Tiling, TileAt, LiveOf, NoFreeNeighbours, VictimOk, NothingLoose, OnlyLoose, Fused;
      SetFreeWithPinuse(q, size, next);
      chunks := Fused(old(Segment_()), q, next, Loose).chunks;
    }

    /** The chunk behind is the victim. */
    method GrowVictimDown(p: int, q: int, size: int, next: int)
      requires Merging(p, q) && next == p + chunks[p].size && size == next - q
      requires next in chunks && chunks[next].kind.Dv? && next == dv && dvsize == chunks[next].size
      modifies this`head, this`prevFoot, this`dv, this`dvsize, this`chunks
      ensures Valid() && Live() == old(Live()) - {p}
      ensures FusedTo(old(Segment_()), q, next + old(dvsize), Dv, Segment_()) && dv == q && dvsize == old(dvsize) + size
    {
      hide Filed, BinsOk, Tiling, TileAt, LiveOf, NoFreeNeighbours, VictimOk, NothingLoose, OnlyLoose, Fused;
      ghost var n := next + dvsize;
      MergeFree(p, q, next, Dv);
      dvsize := dvsize + size;
      dv := q;
      SetFree(q, dvsize);
      chunks := Fused(old(Segment_()), q, n, Dv).chunks;
    }

    /** The chunk behind is loose, just out of its bin; the chunk before may be the victim. */
    method MergeBoth(p: int, q: int, size: int, next: int)
      requires Merging(p, q) && next == p + chunks[p].size
      requires next in chunks && chunks[next].kind.Loose? && size == next + chunks[next].size - q
      modifies this`head, this`prevFoot, this`dvsize, this`chunks
      ensures q == dv ==> Valid()
      ensures q != dv ==> Holding(q) && Extent() && chunks[q].size == size
      ensures Live() == old(Live()) - {p} && dvsize == if q == dv then size else old(dvsize)
      ensures FusedTo(old(Segment_()), q, next + old(chunks)[next].size, if q == dv then Dv else Loose, Segment_())
    {
      hide Filed, BinsOk, Tiling, TileAt, LiveOf, NoFreeNeighbours, NothingLoose, OnlyLoose, Fused, VictimOk;
      IsVictim(q);
      ghost var n := next + chunks[next].size;
      ghost var kind := if chunks[q].kind.Dv? then Dv else Loose;
      MergeFree(p, q, next, kind);
      SetFree(q, size);
      if q == dv {
        dvsize := size;
      }
      chunks := Fused(old(Segment_()), q, n, kind).chunks;
    }

    lemma IsVictim(a: int)
      requires Filing() && VictimOk(chunks, dv, dvsize) && a in chunks
      ensures a > 0 && (a == dv <==> chunks[a].kind.Dv?) && (a == dv ==> dvsize == chunks[a].size && dvsize > 0)
    {
      hide Filed, BinsOk, TileAt;
      ChunkBounds(Tags_(), Segment_(), a);
    }

    lemma MergeTop(p: int, q: int)
      requires Merging(p, q) && p + chunks[p].size == top
      ensures q > 0
      ensures var s' := FusedTop(Segment_(), q);
        && Tiling(Tags_().(head := head[q := s'.topsize + PINUSE_BIT]), s')
        && Filed(Bins_(), s'.chunks) && NoFreeNeighbours(s'.chunks) && LiveOf(s'.chunks) == Live() - {p}
        && NothingLoose(s'.chunks) && (if q == dv then VictimOk(s'.chunks, 0, 0) else VictimOk(s'.chunks, dv, dvsize))
    {
      hide Filed, BinsOk, Tiling, TileAt, VictimOk, NothingLoose, NoFreeNeighbours, LiveOf;
      TopNotChunk(Tags_(), Segment_());
      JoinTopKeeps(Tags_(), Segment_(), p, q);
      FuseTopTiling(Tags_(), Segment_(), q);
      IsVictim(q);
      TopVictim(Segment_(), p, q, dv, dvsize);
      FiledFrame(Bins_(), chunks, FusedTop(Segment_(), q).chunks);
    }

    /** The chunk behind is `top`. */
    method MergeIntoTop(p: int, q: int, size: int)
      requires Merging(p, q) && p + chunks[p].size == top && size == top - q
      modifies this`head, this`top, this`topsize, this`last, this`dv, this`dvsize, this`chunks
      ensures Valid() && Live() == old(Live()) - {p} && Segment_() == FusedTop(old(Segment_()), q)
      ensures (dv, dvsize) == if q == old(dv) then (0, 0) else (old(dv), old(dvsize))
    {
      hide Filed, BinsOk, Tiling, TileAt, LiveOf, NoFreeNeighbours, NothingLoose, VictimOk;
      MergeTop(p, q);
      ghost var s' := FusedTop(Segment_(), q);
      topsize := topsize + size;
      top := q;
      head := head[q := topsize + PINUSE_BIT];
      if q == dv {
        dv := 0;
        dvsize := 0;
      }
      last := s'.last;
      chunks := s'.chunks;
    }

    /** `dlfree` */
    method Free(mem: int)
      requires Valid() && (mem != 0 ==> mem - 8 in Live())
      modifies this`links, this`smallmap, this`small, this`treemap, this`treebins, this`trees, this`chunks,
               this`head, this`prevFoot, this`dv, this`dvsize, this`top, this`topsize, this`last
      ensures Valid() && Live() == if mem == 0 then old(Live()) else old(Live()) - {mem - 8}
      ensures mem == 0 ==> Segment_() == old(Segment_()) && dv == old(dv) && dvsize == old(dvsize)
      ensures mem != 0 ==>
        && mem - 8 in old(chunks)
        && FreedTo(old(Segment_()), old(dv), old(dvsize), mem - 8, MergeStart(old(chunks), mem - 8), Segment_(), dv, dvsize)
    {
      hide Filed, BinsOk, Tiling, TileAt, NoFreeNeighbours, VictimOk, LiveOf, NothingLoose, Releasing, NothingLooseBut,
           FreedTo, FusedTo, MergeStart;
      if mem == 0 {
        return;
      }
      var p := mem - 8;
      ghost var s := Segment_();
      LiveChunk(p);
      FreedChunk(p);
      IsVictim(p);
      FreeStarts(chunks, p);
      var psize := ChunkSize(At(head, p));
      var next := p + psize;
      var q := p;
      if !Pinuse(At(head, p)) {
        var prevsize := At(prevFoot, p);
        psize := psize + prevsize;
        q := p - prevsize;
        IsVictim(q);
        if q != dv {
          FreeKind(chunks, q);
          RekindKeeps(chunks, q, Loose);
          UnbinnedLoose(chunks, q, dv, dvsize);
          UnlinkChunk(q, prevsize);
        } else if Cinuse(At(head, next)) && Pinuse(At(head, next)) {
          LooseButWithin(chunks, q, next);
          BeginsAt(s.chunks, p, q);
          GrowVictimUp(p, q, psize, next);
          FreedUp(s, dv, old(dvsize), p, q, Segment_());
          return;
        }
      }
      BeginsAt(s.chunks, p, q);
      FreeForward(p, q, psize, next);
      if q != p && q != old(dv) {
        FreedAnyway(s, old(dv), old(dvsize), p, q, Segment_(), dv, dvsize);
      }
    }

    lemma BeginsAt(c: map<int, Chunk>, p: int, q: int)
      requires p in c && (if UsedBefore(c, c[p].prev) then q == p else q == c[p].prev)
      ensures MergeStart(c, p) == q
    {}

    lemma SizeBelowWord(a: int)
      requires Filing() && Extent() && a in chunks
      ensures chunks[a].size < WORD
    {
      hide Filed, BinsOk, TileAt;
      ChunkBounds(Tags_(), Segment_(), a);
    }

    lemma LiveChunk(p: int)
      requires p in Live()
      ensures p in chunks && chunks[p].kind.InUse?
    {}

    /** The chunk behind leaves its bin, and the merged chunk is filed unless it is the victim. */
    method MergeBinned(p: int, q: int, psize: int, next: int)
      requires Tidy() && VictimOk(chunks, dv, dvsize) && Extent()
      requires Releasing(chunks, p, q) && NothingLooseBut(chunks, q)
      requires next == p + chunks[p].size && psize == next - q > 0 && next != top
      requires next in chunks && next != q && !chunks[next].kind.InUse? && next != dv && ChunkSize(At(head, next)) == chunks[next].size
      modifies this`links, this`smallmap, this`small, this`treemap, this`treebins, this`trees, this`chunks,
               this`head, this`prevFoot, this`dv, this`dvsize, this`top, this`topsize, this`last
      ensures Valid() && Live() == old(Live()) - {p}
      ensures FreedTo(old(Segment_()), old(dv), old(dvsize), p, q, Segment_(), dv, dvsize)
    {
      hide Filed, BinsOk, Tiling, TileAt, NoFreeNeighbours, VictimOk, LiveOf, NothingLoose, NothingLooseBut, LooseWithin,
           FreedTo, FusedTo;
      IsVictim(next);
      var nsize := ChunkSize(At(head, next));
      NotLooseKind(chunks, q, next);
      NextLoose(chunks, p, q, next, dv, dvsize);
      ghost var s, n, dvsize0 := Segment_(), next + nsize, dvsize;
      ChunkBounds(Tags_(), s, next);
      UnlinkChunk(next, nsize);
      MergeBoth(p, q, psize + nsize, next);
      FusedAnyway(s, next, Loose, q, n, if q == dv then Dv else Loose, Segment_());
      if q == dv {
        FreedBoth(s, dv, dvsize0, p, q, Segment_());
        return;
      }
      SizeBelowWord(q);
      FusedThenFiled(s, q, n, Binned, Segment_());
      Settle(q, psize + nsize);
      FreedBoth(s, dv, dvsize, p, q, Segment_());
    }

    /** The second half of `dlfree`: consolidate forward, and file the result. */
    method FreeForward(p: int, q: int, psize: int, next: int)
      requires Tidy() && VictimOk(chunks, dv, dvsize) && Extent()
      requires Releasing(chunks, p, q) && NothingLooseBut(chunks, q)
      requires next == p + chunks[p].size && psize == next - q > 0
      requires q == dv && next in chunks ==> !chunks[next].kind.InUse?
      modifies this`links, this`smallmap, this`small, this`treemap, this`treebins, this`trees, this`chunks,
               this`head, this`prevFoot, this`dv, this`dvsize, this`top, this`topsize, this`last
      ensures Valid() && Live() == old(Live()) - {p}
      ensures FreedTo(old(Segment_()), old(dv), old(dvsize), p, q, Segment_(), dv, dvsize)
    {
      hide Filed, BinsOk, Tiling, TileAt, NoFreeNeighbours, VictimOk, LiveOf, NothingLoose, NothingLooseBut, LooseWithin,
           FreedTo, FusedTo;
      LooseButWithin(chunks, q, next);
      FreedChunk(p);
      IsVictim(q);
      if !Cinuse(At(head, next)) {
        if next == top {
          ghost var s, dv0, dvsize0 := Segment_(), dv, dvsize;
          MergeIntoTop(p, q, psize);
          FreedIntoTop(s, dv0, dvsize0, p, q);
          return;
        }
        IsVictim(next);
        if next == dv {
          ghost var s, dvsize0 := Segment_(), dvsize;
          GrowVictimDown(p, q, psize, next);
          FreedBoth(s, next, dvsize0, p, q, Segment_());
          return;
        }
        MergeBinned(p, q, psize, next);
      } else {
        ghost var s := Segment_();
        IsVictim(next);
        MergeUp(p, q, psize, next);
        SizeBelowWord(q);
        FusedThenFiled(s, q, next, Binned, Segment_());
        Settle(q, psize);
        FreedUp(s, dv, dvsize, p, q, Segment_());
      }
    }

    // -------------------------------------------------------------- the program's own writes

    /** The program writes its blocks: payload bytes change, and with them whatever the allocator's fields
        would read there.  Only the words the allocator relies on are untouched. */
    method UserWrites(data': map<int, int>, links': Links, foot': map<int, int>)
      requires Valid() && SameLinks(chunks, links, links') && SameFeet(chunks, prevFoot, foot')
      modifies this`data, this`links, this`prevFoot
      ensures Valid() && data == data' && Live() == old(Live())
    {
      hide Filed, BinsOk, Tiling, TileAt, SameLinks, SameFeet, NoFreeNeighbours, VictimOk, NothingLoose;
      FeetFrame(Tags_(), foot', Segment_());
      BinsFrame(Bins_(), Bins_().(links := links'), chunks);
      data := data';
      links := links';
      prevFoot := foot';
    }

    // -------------------------------------------------------------- checking the heap

    /** `traverse_and_check`: none of its assertions can fail, and the total is the footprint. */
    method TraverseAndCheck() returns (sum: int)
      requires Valid()
      ensures sum == footprint
    {
      hide Filed, BinsOk, Tiling, TileAt, VictimOk, NothingLoose;
      sum := topsize + TOP_FOOT_SIZE;
      var q, lastq := base, 0;
      FirstChunk();
      while q != top
        invariant base <= q <= top && (q in chunks || q == top) && sum == topsize + TOP_FOOT_SIZE + (q - base)
        invariant if lastq == 0 then q == base else lastq in chunks && q == lastq + chunks[lastq].size
        decreases top - q
      {
        FreedChunk(q);
        CheckedChunk(q);
        sum := sum + ChunkSize(At(head, q));
        if Cinuse(At(head, q)) {
          assert Pinuse(At(head, q + ChunkSize(At(head, q))));
        } else {
          assert q == dv || InBin(Bins_(), q, chunks[q].size);
          if lastq != 0 {
            AfterChunk(lastq);
            assert Cinuse(At(head, lastq));
          }
          assert !Pinuse(At(head, q + ChunkSize(At(head, q))));
          assert At(prevFoot, q + ChunkSize(At(head, q))) == ChunkSize(At(head, q));
        }
        lastq := q;
        q := q + ChunkSize(At(head, q));
      }
    }

    lemma FirstChunk()
      requires Filing()
      ensures 0 < base <= top && (base == top || base in chunks)
    {}

    lemma CheckedChunk(q: int)
      requires Valid() && q in chunks
      ensures Cinuse(At(head, q)) <==> chunks[q].kind.InUse?
      ensures q > 0 && q + chunks[q].size <= top && (q + chunks[q].size in chunks || q + chunks[q].size == top)
      ensures Pinuse(At(head, q + chunks[q].size)) <==> chunks[q].kind.InUse?
      ensures !chunks[q].kind.InUse? ==> At(prevFoot, q + chunks[q].size) == chunks[q].size
      ensures !chunks[q].kind.InUse? ==> q == dv || InBin(Bins_(), q, chunks[q].size)
    {
      hide Aligned, TileAt, BinsOk;
      NextChunk(Tags_(), Segment_(), q);
      TopNotChunk(Tags_(), Segment_());
      ReadTags(Tags_(), Segment_(), q);
      if q + chunks[q].size in chunks {
        ReadTags(Tags_(), Segment_(), q + chunks[q].size);
      } else {
        ReadTop(Tags_(), Segment_());
      }
    }

    lemma AfterChunk(a: int)
      requires Valid() && a in chunks && a + chunks[a].size in chunks && !chunks[a + chunks[a].size].kind.InUse?
      ensures Cinuse(At(head, a))
    {
      hide Filed, BinsOk, TileAt;
      NextChunk(Tags_(), Segment_(), a);
      TopNotChunk(Tags_(), Segment_());
      ReadTags(Tags_(), Segment_(), a);
      assert UsedBefore(chunks, chunks[a + chunks[a].size].prev);
    }

    // -------------------------------------------------------------- realloc and memalign

    /** `set_inuse` */
    method SetInuse(p: int, size: int)
      modifies this`head
      ensures Tags_() == InuseTags(old(Tags_()), p, size)
    {
      head := head[p := (if Pinuse(At(head, p)) then PINUSE_BIT else 0) + size + CINUSE_BIT];
      head := head[p + size := Tiles.SetPinuse(At(head, p + size))];
    }

    /** An allocated chunk is cut into two allocated chunks; `upperFirst` is the order of the two writes. */
    method SplitInUse(p: int, nb: int, upperFirst: bool)
      requires Valid() && p in Live() && nb >= MIN_CHUNK && Tiles.Aligned(nb) && Live()[p] - nb >= MIN_CHUNK
      modifies this`head, this`chunks, this`last
      ensures Valid() && p + nb !in old(Live()) && Live() == old(Live())[p := nb][p + nb := old(Live())[p] - nb]
    {
      hide Filed, BinsOk, Tiling, TileAt, LiveOf, NoFreeNeighbours, VictimOk, NothingLoose, Tiles.Aligned, InuseTags, Cut;
      var size := ChunkSizeOf(p);
      var rsize := size - nb;
      ghost var s' := SplitsInto(p, nb, upperFirst);
      if upperFirst {
        SetInuse(p + nb, rsize);
        SetInuse(p, nb);
      } else {
        SetInuse(p, nb);
        SetInuse(p + nb, rsize);
      }
      last := s'.last;
      chunks := s'.chunks;
    }

    lemma SplitsInto(p: int, nb: int, upperFirst: bool) returns (s': Segment)
      requires Valid() && p in Live() && nb >= MIN_CHUNK && Tiles.Aligned(nb) && Live()[p] - nb >= MIN_CHUNK
      ensures var rsize := Live()[p] - nb;
        var g' := if upperFirst then InuseTags(InuseTags(Tags_(), p + nb, rsize), p, nb)
                  else InuseTags(InuseTags(Tags_(), p, nb), p + nb, rsize);
        s' == Segment_().(chunks := s'.chunks, last := s'.last) && Tiling(g', s')
      ensures Filed(Bins_(), s'.chunks) && NoFreeNeighbours(s'.chunks) && NothingLoose(s'.chunks)
      ensures VictimOk(s'.chunks, dv, dvsize) && p + nb !in Live()
      ensures LiveOf(s'.chunks) == Live()[p := nb][p + nb := Live()[p] - nb]
    {
      hide Filed, BinsOk, Tiling, TileAt, LiveOf, NoFreeNeighbours, VictimOk, NothingLoose, Tiles.Aligned, InuseTags;
      LiveChunk(p);
      LiveSize(p);
      SplitUsedTags(Tags_(), Segment_(), p, nb, upperFirst);
      CutUsedKeeps(Tags_(), Segment_(), p, nb, dv, dvsize);
      NotLive(p + nb);
      s' := Cut(Segment_(), p, nb, InUse);
      FiledFrame(Bins_(), chunks, s'.chunks);
    }

    lemma NotLive(a: int)
      requires a !in chunks
      ensures a !in Live()
    {}

    /** `chunksize` of an allocated chunk */
    method ChunkSizeOf(p: int) returns (size: int)
      requires Filing() && p in Live()
      ensures size == Live()[p] >= MIN_CHUNK && Tiles.Aligned(size) && p > 0 && Tiles.Aligned(p) && p + size <= top
    {
      hide Filed, BinsOk, TileAt, Tiles.Aligned;
      ReadTags(Tags_(), Segment_(), p);
      ChunkBounds(Tags_(), Segment_(), p);
      size := ChunkSize(At(head, p));
    }

    /** The part of `internal_realloc` that expands the last chunk into `top`. */
    method GrowIntoTop(p: int, nb: int)
      requires Valid() && p in Live() && p + Live()[p] == top && Tiles.Aligned(nb)
      requires Live()[p] < nb < Live()[p] + topsize
      modifies this`head, this`chunks, this`top, this`topsize
      ensures Valid() && Live() == old(Live())[p := nb]
    {
      hide Filed, BinsOk, Tiling, TileAt, LiveOf, NoFreeNeighbours, VictimOk, NothingLoose, Tiles.Aligned, InuseTags;
      ghost var s' := GrowsInto(p, nb);
      var oldsize := ChunkSizeOf(p);
      var newsize := oldsize + topsize;
      var newtopsize := newsize - nb;
      var newtop := p + nb;
      SetInuse(p, nb);
      head := head[newtop := newtopsize + PINUSE_BIT];
      top := newtop;
      topsize := newtopsize;
      chunks := s'.chunks;
    }

    lemma GrowsInto(p: int, nb: int) returns (s': Segment)
      requires Valid() && p in Live() && p + Live()[p] == top && Tiles.Aligned(nb)
      requires Live()[p] < nb < Live()[p] + topsize
      ensures var newtop, size := p + nb, Live()[p] + topsize - nb;
        var g1 := InuseTags(Tags_(), p, nb);
        && s' == Segment_().(chunks := s'.chunks, top := newtop, topsize := size)
        && Tiling(g1.(head := g1.head[newtop := size + PINUSE_BIT]), s')
      ensures Filed(Bins_(), s'.chunks) && NoFreeNeighbours(s'.chunks) && NothingLoose(s'.chunks)
      ensures VictimOk(s'.chunks, dv, dvsize) && LiveOf(s'.chunks) == Live()[p := nb]
    {
      LiveChunk(p);
      hide Filed, BinsOk, Tiling, TileAt, LiveOf, NoFreeNeighbours, VictimOk, NothingLoose, Tiles.Aligned, InuseTags;
      NextChunk(Tags_(), Segment_(), p);
      TopNotChunk(Tags_(), Segment_());
      assert Live()[p] == chunks[p].size by {
        LiveSize(p);
      }
      GrowLastTags(Tags_(), Segment_(), nb);
      GrowLastKeeps(Segment_(), nb, dv, dvsize);
      s' := LastGrown(Segment_(), nb);
      FiledFrame(Bins_(), chunks, s'.chunks);
    }

    lemma LiveSize(p: int)
      requires p in Live()
      ensures p in chunks && Live()[p] == chunks[p].size
    {}

    /** `memcpy` between regions that do not overlap. */
    method CopyBytes(dst: int, src: int, len: int)
      requires Valid() && len >= 0 && (dst + len <= src || src + len <= dst)
      modifies this`data
      ensures Valid() && Copied(old(data), data, dst, src, len)
    {
      for i := 0 to len
        invariant Copied(old(data), data, dst, src, i) && Valid()
      {
        NextByte(old(data), data, dst, src, i);
        data := data[dst + i := At(data, src + i)];
      }
    }

    lemma LivePositive(p: int)
      requires Valid() && p in Live()
      ensures p > 0
    {
      hide Filed, BinsOk, TileAt;
      ChunkBounds(Tags_(), Segment_(), p);
    }

    lemma LiveBelowWord(p: int)
      requires Valid() && p in Live()
      ensures 0 < p && p + Live()[p] <= WORD
    {
      hide Filed, BinsOk, TileAt;
      ChunkBounds(Tags_(), Segment_(), p);
      VictimBelowWord();
    }

    /** Two allocated chunks are apart. */
    lemma LiveApart(p: int, q: int)
      requires Filing() && p in Live() && q in Live() && p != q
      ensures if p < q then p + Live()[p] <= q else q + Live()[q] <= p
    {
      hide Filed, BinsOk, Tiling;
      if p < q {
        NoOverlap(Tags_(), Segment_(), p, q);
      } else {
        NoOverlap(Tags_(), Segment_(), q, p);
      }
    }

    /** `internal_realloc` where the block has to move: a new block, a copy and a free. */
    method MoveBlock(oldmem: int, bytes: int, oldsize: int, granted: bool) returns (mem: int)
      requires Valid() && oldmem - 8 in Live() && Live()[oldmem - 8] == oldsize && 0 <= bytes < MAX_REQUEST
      requires MIN_CHUNK <= oldsize < RequestSize(bytes) && oldmem > 8
      modifies this`links, this`smallmap, this`small, this`treemap, this`treebins, this`trees, this`chunks, this`data,
               this`head, this`prevFoot, this`dv, this`dvsize, this`top, this`topsize, this`last, this`footprint, this`brk
      ensures Valid()
      ensures mem == 0 ==> Live() == old(Live()) && data == old(data) && Refused(old(Supply_()), bytes, granted)
      ensures mem != 0 ==> mem != oldmem && Resized(old(Live()), Live(), oldmem, mem, RequestSize(bytes))
      ensures mem != 0 ==> Moved(old(Live()), old(data), data, oldmem, mem, bytes)
      ensures footprint == old(footprint) + Growth(old(Supply_()), bytes, granted)
    {
      hide Filing, NoFreeNeighbours, VictimOk, NothingLoose, NothingFits, Tiles.Aligned, PadRequest, LiveOf, Resized,
           Moved, Growth, Refused, FreedTo, MergeStart, Placed, VictimAfter;
      PaddedSize(bytes);
      ghost var live := Live();
      var oldp, nb := oldmem - 8, RequestSize(bytes);
      mem := Malloc(bytes, granted);
      if mem != 0 {
        ghost var between := Live();
        LiveApart(oldp, mem - 8);
        forall a | a in live && a != mem - 8
          ensures a + live[a] <= mem - 8 || mem - 8 + between[mem - 8] <= a
        {
          LiveApart(a, mem - 8);
        }
        var oc := oldsize - CHUNK_OVERHEAD;
        CopyBytes(mem, oldmem, if oc < bytes then oc else bytes);
        MovedAway(live, between, old(data), data, oldmem, mem, bytes);
        Free(oldmem);
        ResizedElsewhere(live, between, Live(), oldmem, mem, nb);
      }
    }

    /** `internal_realloc` for an allocated block: in place where it can, else a new block, a copy and a free. */
    method Realloc(oldmem: int, bytes: int, granted: bool) returns (mem: int)
      requires Valid() && oldmem - 8 in Live() && 0 <= bytes < WORD
      modifies this`links, this`smallmap, this`small, this`treemap, this`treebins, this`trees, this`chunks, this`data,
               this`head, this`prevFoot, this`dv, this`dvsize, this`top, this`topsize, this`last, this`footprint, this`brk
      ensures Valid()
      ensures mem == 0 ==> Live() == old(Live()) && data == old(data) && Refused(old(Supply_()), bytes, granted)
      ensures mem == 0 && bytes < MAX_REQUEST ==> Live()[oldmem - 8] < RequestSize(bytes)
      ensures mem != 0 ==> bytes < MAX_REQUEST && Resized(old(Live()), Live(), oldmem, mem, RequestSize(bytes))
      ensures mem != 0 ==> Moved(old(Live()), old(data), data, oldmem, mem, bytes)
      ensures footprint == old(footprint) || footprint == old(footprint) + Growth(old(Supply_()), bytes, granted)
      ensures mem != 0 ==>
        (mem == oldmem <==> StaysInPlace(old(Live())[oldmem - 8], oldmem, RequestSize(bytes), old(top), old(topsize)))
    {
      hide Filing, NoFreeNeighbours, VictimOk, NothingLoose, NothingFits, Tiles.Aligned, PadRequest, LiveOf, Resized,
           Moved, Growth, Refused, FreedTo, MergeStart;
      mem := 0;
      if bytes >= MAX_REQUEST {
        TooLarge(Supply_(), bytes, granted);
        return;
      }
      PaddedSize(bytes);
      var oldp := oldmem - 8;
      ghost var live := Live();
      var oldsize := ChunkSizeOf(oldp);
      var nb := RequestSize(bytes);
      if oldsize >= nb {
        var rsize := oldsize - nb;
        if rsize >= MIN_CHUNK {
          SplitInUse(oldp, nb, false);
          Free(oldp + nb + 8);
        }
        ResizedInPlace(live, Live(), oldmem, nb);
        MovedInPlace(live, data, oldmem, bytes);
        mem := oldmem;
      } else if oldp + oldsize == top && oldsize + topsize > nb {
        GrowIntoTop(oldp, nb);
        ResizedInPlace(live, Live(), oldmem, nb);
        MovedInPlace(live, data, oldmem, bytes);
        mem := oldmem;
      } else {
        mem := MoveBlock(oldmem, bytes, oldsize, granted);
      }
    }

    /** `internal_memalign`: over-allocate, give back the leader and the spare room at the end. */
    method Memalign(alignment: int, bytes: int, granted: bool) returns (mem: int)
      requires Valid() && 0 <= bytes < WORD && 0 <= alignment <= MAX_ALIGNMENT
      modifies this`links, this`smallmap, this`small, this`treemap, this`treebins, this`trees, this`chunks,
               this`head, this`prevFoot, this`dv, this`dvsize, this`top, this`topsize, this`last, this`footprint, this`brk
      ensures Valid()
      ensures mem == 0 ==> Live() == old(Live()) && RefusedAligned(old(Supply_()), alignment, bytes, granted)
      ensures mem != 0 ==> AlignedAt(mem, alignment)
      ensures mem != 0 ==> bytes < MAX_REQUEST && AllocatedUpTo(old(Live()), Live(), mem, RequestSize(bytes))
      ensures footprint == old(footprint) || exists req {:trigger Growth(old(Supply_()), req, granted)} ::
                footprint == old(footprint) + Growth(old(Supply_()), req, granted)
    {
      hide Filing, NoFreeNeighbours, VictimOk, NothingLoose, NothingFits, Tiles.Aligned, PadRequest, LiveOf, AlignedAt;
      if alignment <= 8 {
        mem := Malloc(bytes, granted);
        if mem != 0 {
          EightAligned(mem, alignment);
        }
        return;
      }
      var a := NormalAlignment(alignment);
      mem := 0;
      if bytes < MAX_REQUEST - a {
        PaddedSize(bytes);
        var nb := RequestSize(bytes);
        var req := nb + a + MIN_CHUNK - CHUNK_OVERHEAD;
        OverAllocated(bytes, nb, a);
        ghost var live0 := Live();
        mem := Malloc(req, granted);
        if mem != 0 {
          PaddedSize(req);
          mem := TrimToAlignment(mem, a, nb, live0);
          NormalAligned(mem, a, alignment);
        }
      }
    }

    /** The chunk at `mem0` is cut in two if that is needed to have an aligned one. */
    method CutLeader(mem0: int, a: int) returns (p: int, leader: int)
      requires Valid() && PowerOfTwo(a) && 16 <= a && Tiles.Aligned(a)
      requires mem0 - 8 in Live() && a + MIN_CHUNK + MIN_CHUNK <= Live()[mem0 - 8]
      modifies this`head, this`chunks, this`last
      ensures Valid() && mem0 > 8 && (p + 8) % a == 0 && mem0 - 8 <= p <= mem0 + a && leader == if p == mem0 - 8 then 0 else mem0
      ensures if p == mem0 - 8 then Live() == old(Live()) else
        p !in old(Live()) && Live() == old(Live())[mem0 - 8 := p - (mem0 - 8)][p := old(Live())[mem0 - 8] - (p - (mem0 - 8))]
    {
      hide Filing, NoFreeNeighbours, VictimOk, NothingLoose, Tiles.Aligned, LiveOf, PowerOfTwo;
      p, leader := mem0 - 8, 0;
      var size := ChunkSizeOf(p);
      LiveBelowWord(p);
      var aligned, br := AlignUp(mem0, a);
      if !aligned {
        AlignedSpot(p, a);
        var pos := if br - p >= MIN_CHUNK then br else br + a;
        SplitInUse(p, pos - p, true);
        leader := p + 8;
        p := pos;
      }
    }

    /** The part of `internal_memalign` after the allocation: an aligned block inside the block at `mem0`. */
    method TrimToAlignment(mem0: int, a: int, nb: int, ghost live0: map<int, int>) returns (mem: int)
      requires Valid() && PowerOfTwo(a) && 16 <= a && Tiles.Aligned(a) && MIN_CHUNK <= nb && Tiles.Aligned(nb)
      requires mem0 - 8 in Live() && mem0 - 8 !in live0 && Live() == live0[mem0 - 8 := Live()[mem0 - 8]]
      requires nb + a + MIN_CHUNK <= Live()[mem0 - 8]
      modifies this`links, this`smallmap, this`small, this`treemap, this`treebins, this`trees, this`chunks,
               this`head, this`prevFoot, this`dv, this`dvsize, this`top, this`topsize, this`last
      ensures Valid() && AllocatedUpTo(live0, Live(), mem, nb) && mem % a == 0
      ensures mem0 <= mem && mem + Live()[mem - 8] <= mem0 + old(Live())[mem0 - 8]
    {
      hide Filing, NoFreeNeighbours, VictimOk, NothingLoose, Tiles.Aligned, LiveOf, AllocatedUpTo, FreedTo, MergeStart;
      ghost var l0 := Live();
      var p0 := mem0 - 8;
      var p, leader := CutLeader(mem0, a);
      var trailer := 0;
      var size := ChunkSizeOf(p);
      if size > nb + MIN_CHUNK {
        AlignedSum(p, nb);
        SplitInUse(p, nb, false);
        trailer := p + nb + 8;
      }
      if leader != 0 {
        Free(leader);
      }
      if trailer != 0 {
        Free(trailer);
      }
      mem := p + 8;
      assert Live() == TrimmedTo(l0, p0, p, nb);
      Trimmed(live0, l0, p0, p, nb);
    }

    /** The power of two that serves as the alignment. */
    method NormalAlignment(alignment: int) returns (a: int)
      requires 8 < alignment <= MAX_ALIGNMENT
      ensures PowerOfTwo(a) && 16 <= a <= MAX_ALIGNMENT && Tiles.Aligned(a)
      ensures alignment <= a && (a == 16 || a < 2 * alignment)
      ensures PowerOfTwo(alignment) ==> a == alignment
    {
      hide SeemsPower, PowerOfTwo, Tiles.Aligned;
      a := if alignment < MIN_CHUNK then MIN_CHUNK else alignment;
      PowerTest(a);
      if !SeemsPower(a) {
        var wanted := a;
        a := 16;
        Sixteen();
        while a < wanted
          invariant PowerOfTwo(a) && 16 <= a <= MAX_ALIGNMENT && (a == 16 || a < 2 * wanted)
          decreases wanted - a
        {
          NextPower(a);
          a := a * 2 % WORD;
        }
      }
      SmallPowers(alignment);
      PowerAligned(a);
    }
  }

  lemma NothingYet(t: Tree, nb: int)
    requires 0 < nb < WORD
    ensures (-nb) % WORD == WORD - nb && Candidate(t, nb, 0, WORD - nb)
  {
    ModWord(WORD - nb, -nb);
  }

  lemma CandidateSize(t: Tree, nb: int, v: int, rsize: int)
    requires Candidate(t, nb, v, rsize) && 0 < nb < WORD
    ensures 0 <= rsize <= WORD - nb && (v == 0 ==> rsize == WORD - nb)
  {}

  /** What the shifted small map says about the bins from `idx` on. */
  lemma SmallMapBits(m: bv32, idx: int)
    requires 2 <= idx < NBINS
    ensures var bits := ShiftDown(m, Index(idx));
      && (bits & 3 != 0 ==> Marked(m, idx) || (idx + 1 < NBINS && Marked(m, idx + 1)))
      && (bits & 3 != 0 ==> (!bits & 1 == 1 <==> !Marked(m, idx)))
      && (bits & 3 == 0 ==> !Marked(m, idx) && (idx + 1 < NBINS ==> !Marked(m, idx + 1)))
      && (bits == 0 ==> forall j :: idx <= j < NBINS ==> !Marked(m, j))
  {
    hide Index, Marked;
    if idx < NBINS - 1 {
      forall j | idx <= j < NBINS
        ensures ShiftDown(m, Index(idx)) == 0 ==> !Marked(m, j)
      {
        SmallBits(m, idx, j);
      }
      SmallBits(m, idx, idx);
    } else {
      SmallBitsLast(m);
    }
  }

  lemma RoundedDown(x: int, g: int, h: int)
    requires g > 0 && g == 8 * h && x >= 0
    ensures x - x % g == 8 * (h * (x / g))
    ensures 0 <= x - x % g && x - g < x - x % g
  {
    var q, r := x / g, x % g;
    assert x == g * q + r && 0 <= r < g;
    Regroup(h, q);
  }

  lemma Regroup(h: int, q: int)
    ensures (8 * h) * q == 8 * (h * q)
  {}

  lemma GranularityKeeps(s: int, granularity: int)
    requires granularity > 0 && granularity % 8 == 0 && 0 <= s < WORD
    ensures var a := GranularityAlign(s, granularity);
            a >= 0 && Tiles.Aligned(a) && (s + granularity < WORD ==> a >= s)
  {
    hide Tiles.Aligned;
    var x := (s + granularity) % WORD;
    RoundedDown(x, granularity, granularity / 8);
    EightTimes(granularity / 8 * (x / granularity));
    if s + granularity < WORD {
      ModWord(s + granularity, s + granularity);
    }
  }

  lemma EightTimes(n: int)
    ensures Tiles.Aligned(8 * n)
  {}

  /** Unsigned subtraction of a larger number wraps around. */
  lemma WrapDifference(x: int, y: int)
    requires 0 <= x < WORD && 0 < y < WORD
    ensures (x - y) % WORD == if x < y then x - y + WORD else x - y
  {
    ModWord(if x < y then x - y + WORD else x - y, x - y);
  }

  lemma PositiveAddress(g: Tags, s: Segment, a: int)
    requires Tiling(g, s) && a in s.chunks
    ensures 0 < s.base <= a
  {
    assert TileAt(g, s, a);
  }

  lemma SmallIndex(s: int)
    requires Aligned(s) && MIN_CHUNK <= s && IsSmall(s)
    ensures 2 <= s / 8 < NBINS && s == 8 * (s / 8)
  {}

  // ---------------------------------------------------------------- realloc

  /** The block at `oldmem` is replaced by one at `mem`, of the padded size `nb` or up to less than a chunk
      more; all other blocks stay. */
  ghost predicate Resized(before: map<int, int>, after: map<int, int>, oldmem: int, mem: int, nb: int) {
    var p, q := oldmem - 8, mem - 8;
    && p in before && q in after && q > 0 && Tiles.Aligned(q) && nb <= after[q] < nb + MIN_CHUNK
    && after == (before - {p})[q := after[q]] && (q != p ==> q !in before)
  }

  /** The payload is kept up to the smaller of the old and the new request; other payloads are untouched. */
  ghost predicate Moved(live: map<int, int>, was: map<int, int>, now: map<int, int>, oldmem: int, mem: int, bytes: int) {
    && oldmem - 8 in live
    && (forall x {:trigger At(now, x)} :: mem <= x < mem + bytes && x < mem + live[oldmem - 8] - CHUNK_OVERHEAD ==>
          At(now, x) == At(was, oldmem + (x - mem)))
    && (forall a, x {:trigger a in live, At(now, x)} :: a in live && a != oldmem - 8 && a + 8 <= x < a + live[a] + 4 ==>
          At(now, x) == At(was, x))
  }

  ghost predicate Copied(was: map<int, int>, now: map<int, int>, dst: int, src: int, len: int) {
    forall x {:trigger At(now, x)} :: At(now, x) == At(was, if dst <= x < dst + len then src + (x - dst) else x)
  }

  lemma NextByte(was: map<int, int>, now: map<int, int>, dst: int, src: int, i: int)
    requires Copied(was, now, dst, src, i) && i >= 0 && (dst + i < src || src + i < dst)
    ensures Copied(was, now[dst + i := At(now, src + i)], dst, src, i + 1)
  {
    var next := now[dst + i := At(now, src + i)];
    forall x
      ensures At(next, x) == At(was, if dst <= x < dst + (i + 1) then src + (x - dst) else x)
    {
      assert At(now, x) == At(was, if dst <= x < dst + i then src + (x - dst) else x);
    }
  }

  lemma ResizedInPlace(before: map<int, int>, after: map<int, int>, oldmem: int, nb: int)
    requires oldmem - 8 in before && oldmem - 8 > 0 && Tiles.Aligned(oldmem - 8)
    requires oldmem - 8 in after && after == before[oldmem - 8 := after[oldmem - 8]]
    requires nb <= after[oldmem - 8] < nb + MIN_CHUNK
    ensures Resized(before, after, oldmem, oldmem, nb)
  {}

  lemma MovedInPlace(live: map<int, int>, data: map<int, int>, mem: int, bytes: int)
    requires mem - 8 in live
    ensures Moved(live, data, data, mem, mem, bytes)
  {}

  lemma MovedAway(live: map<int, int>, between: map<int, int>, was: map<int, int>, now: map<int, int>,
                  oldmem: int, mem: int, bytes: int)
    requires oldmem - 8 in live && mem - 8 !in live && 0 <= bytes && mem - 8 in between
    requires live[oldmem - 8] >= MIN_CHUNK && bytes + CHUNK_OVERHEAD <= between[mem - 8]
    requires forall a :: a in live ==> a + live[a] <= mem - 8 || mem - 8 + between[mem - 8] <= a
    requires var oc := live[oldmem - 8] - CHUNK_OVERHEAD;
      Copied(was, now, mem, oldmem, if oc < bytes then oc else bytes)
    ensures Moved(live, was, now, oldmem, mem, bytes)
  {
    forall a, x | a in live && a != oldmem - 8 && a + 8 <= x < a + live[a] + 4
      ensures At(now, x) == At(was, x)
    {
      assert a + live[a] <= mem - 8 || mem - 8 + between[mem - 8] <= a;
    }
  }

  lemma ResizedElsewhere(before: map<int, int>, between: map<int, int>, after: map<int, int>,
                         oldmem: int, mem: int, nb: int)
    requires oldmem - 8 in before && Allocated(before, between, mem, nb) && after == between - {oldmem - 8}
    ensures Resized(before, after, oldmem, mem, nb)
  {}

  // ---------------------------------------------------------------- memalign

  const MAX_ALIGNMENT := 0x8000_0000

  /** Whether an address is aligned, and the chunk of the next aligned one, by masking. */
  method AlignUp(mem: int, a: int) returns (aligned: bool, br: int)
    requires PowerOfTwo(a) && a < WORD && 0 <= mem && mem + a <= WORD
    ensures aligned <==> mem % a == 0
    ensures br == (mem + a - 1) - (mem + a - 1) % a - 8
  {
    hide MaskedDown;
    Masks(mem + a - 1, a);
    aligned := mem % a == 0;
    br := MaskedDown(mem + a - 1, a) - 8;
  }

  ghost predicate AlignedAt(mem: int, alignment: int) {
    && (PowerOfTwo(alignment) ==> mem % alignment == 0)
    && exists a {:trigger PowerOfTwo(a)} ::
         PowerOfTwo(a) && alignment <= a && (a <= 16 || a < 2 * alignment) && mem % a == 0
  }

  /** As `Allocated`, with up to one minimal chunk of slack. */
  ghost predicate AllocatedUpTo(before: map<int, int>, after: map<int, int>, mem: int, nb: int) {
    var p := mem - 8;
    p !in before && p in after && after == before[p := after[p]] && nb <= after[p] <= nb + MIN_CHUNK
  }

  /** The blocks after the block at `p0` was cut down to one of about `nb` bytes at `p`. */
  ghost function TrimmedTo(l0: map<int, int>, p0: int, p: int, nb: int): map<int, int>
    requires p0 in l0
  {
    var size := l0[p0] - (p - p0);
    var l1 := if p != p0 then l0[p0 := p - p0][p := size] else l0;
    var l2 := if size > nb + MIN_CHUNK then l1[p := nb][p + nb := size - nb] else l1;
    var l3 := if p != p0 then l2 - {p0} else l2;
    if size > nb + MIN_CHUNK then l3 - {p + nb} else l3
  }

  lemma Trimmed(live0: map<int, int>, l0: map<int, int>, p0: int, p: int, nb: int)
    requires p0 in l0 && p0 !in live0 && l0 == live0[p0 := l0[p0]]
    requires p !in live0 && p0 <= p && nb > 0
    requires var size := l0[p0] - (p - p0); nb <= size && (size > nb + MIN_CHUNK ==> p + nb !in live0)
    ensures AllocatedUpTo(live0, TrimmedTo(l0, p0, p, nb), p + 8, nb)
    ensures p in TrimmedTo(l0, p0, p, nb) && p + TrimmedTo(l0, p0, p, nb)[p] <= p0 + l0[p0]
  {}

  lemma EightAligned(mem: int, alignment: int)
    requires 0 <= alignment <= 8 && Tiles.Aligned(mem - 8)
    ensures AlignedAt(mem, alignment)
  {
    assert PowerOfTwo(8);
    assert mem % 8 == 0;
    if PowerOfTwo(alignment) {
      PowersUpToEight(alignment);
      DividesEight(mem, alignment);
    }
  }

  lemma DividesEight(mem: int, alignment: int)
    requires mem % 8 == 0 && (alignment == 1 || alignment == 2 || alignment == 4 || alignment == 8)
    ensures mem % alignment == 0
  {
    if alignment == 1 {
      assert mem % 1 == 0;
    } else if alignment == 2 {
      assert mem % 2 == 0;
    } else if alignment == 4 {
      assert mem % 4 == 0;
    }
  }

  lemma PowersUpToEight(x: int)
    requires 0 < x <= 8 && PowerOfTwo(x)
    ensures x == 1 || x == 2 || x == 4 || x == 8
  {
    assert x == 3 || x == 5 || x == 6 || x == 7 ==> !PowerOfTwo(x);
  }

  lemma NormalAligned(mem: int, a: int, alignment: int)
    requires 8 < alignment <= a && PowerOfTwo(a) && (a == 16 || a < 2 * alignment) && mem % a == 0
    requires PowerOfTwo(alignment) ==> a == alignment
    ensures AlignedAt(mem, alignment)
  {}

  lemma SmallPowers(x: int)
    requires 8 < x
    ensures x < 16 ==> !PowerOfTwo(x)
  {
    if x < 16 {
      assert !PowerOfTwo(5) && !PowerOfTwo(6) && !PowerOfTwo(7) && !PowerOfTwo(3);
    }
  }

  /** A power of two below 2^k is at most half of it. */
  lemma {:induction false} PowerBelow(x: int, k: nat, m: int)
    requires PowerOfTwo(x) && m == Pow2(k) && x < m
    ensures 2 * x <= m && PowerOfTwo(2 * x)
    decreases k
  {
    if x > 1 {
      assert m == 2 * Pow2(k - 1) && x == 2 * (x / 2);
      PowerBelow(x / 2, k - 1, Pow2(k - 1));
    }
    assert PowerOfTwo(2 * x) by {
      assert 2 * x % 2 == 0 && 2 * x / 2 == x;
    }
  }

  lemma Sixteen()
    ensures PowerOfTwo(16)
  {}

  lemma NextPower(a: int)
    requires PowerOfTwo(a) && 16 <= a < MAX_ALIGNMENT
    ensures a * 2 % WORD == 2 * a <= MAX_ALIGNMENT && PowerOfTwo(2 * a)
  {
    hide PowerOfTwo, Pow2;
    Pow2Word();
    PowerBelow(a, 31, MAX_ALIGNMENT);
    ModWord(2 * a, a * 2);
  }

  function Twice(a: int): int { a * 2 % WORD }

  /** What `a <<= 1` makes of 16 in `n` steps. */
  function Doubled(n: nat): int {
    if n == 0 then 16 else Twice(Doubled(n - 1))
  }

  lemma {:induction false} DoubledIs(n: nat)
    ensures n <= 27 ==> Doubled(n) == Pow2(n + 4)
    ensures n > 27 ==> Doubled(n) == 0
  {
    if n == 0 {
      assert Pow2(4) == 16;
    } else {
      DoubledIs(n - 1);
      hide Pow2, Twice;
      if n <= 27 {
        DoubledStep(n);
        Shifted(Doubled(n - 1));
      } else if n == 28 {
        Pow2Word();
        Shifted(Doubled(n - 1));
      }
    }
  }

  lemma Shifted(x: int)
    requires 0 <= x < WORD
    ensures Twice(x) == if x < 0x8000_0000 then 2 * x else 2 * x - WORD
  {}

  lemma DoubledStep(n: nat)
    requires 0 < n <= 27
    ensures Pow2(n + 4) == 2 * Pow2(n + 3) && Pow2(n + 4) <= MAX_ALIGNMENT
  {
    assert Pow2(n + 4) == 2 * Pow2(n + 3);
    hide Pow2;
    Pow2Word();
    Pow2Sum(n + 4, 27 - n);
    Pow2Positive(27 - n);
    Widens(Pow2(n + 4), Pow2(27 - n));
  }

  lemma Widens(x: nat, y: nat)
    requires y >= 1
    ensures x <= x * y
  {}

  lemma Pow2Positive(n: nat)
    ensures Pow2(n) >= 1
  {}

  lemma DoubledBound(n: nat)
    ensures Doubled(n) <= MAX_ALIGNMENT
  {
    DoubledIs(n);
    if 0 < n <= 27 {
      DoubledStep(n);
    }
  }

  /** The loop that rounds an alignment up to a power of two ends exactly up to 2^31: beyond, the doubled
      word overflows to zero and stays there. */
  lemma RoundingEnds(alignment: int)
    requires 8 < alignment < WORD
    ensures (exists n: nat :: Doubled(n) >= alignment) <==> alignment <= MAX_ALIGNMENT
  {
    DoubledIs(27);
    Pow2Word();
    hide Pow2, Doubled;
    assert Doubled(27) == MAX_ALIGNMENT;
    forall n: nat
      ensures Doubled(n) <= MAX_ALIGNMENT
    {
      DoubledBound(n);
    }
  }

  lemma PowerAligned(x: int)
    requires PowerOfTwo(x) && x >= 16
    ensures Tiles.Aligned(x)
  {
    assert x / 2 > 1 && x / 2 / 2 > 1 && PowerOfTwo(x / 2) && PowerOfTwo(x / 2 / 2) && PowerOfTwo(x / 2 / 2 / 2);
  }

  lemma OverAllocated(bytes: int, nb: int, a: int)
    requires 0 <= bytes < MAX_REQUEST - a && nb == RequestSize(bytes) && 16 <= a <= MAX_ALIGNMENT
    requires Tiles.Aligned(a) && Tiles.Aligned(nb)
    ensures var req := nb + a + MIN_CHUNK - CHUNK_OVERHEAD;
            0 <= req < WORD && RequestSize(req) == nb + a + MIN_CHUNK
  {}

  lemma AlignedSpot(p: int, a: int)
    requires Tiles.Aligned(p) && Tiles.Aligned(a) && a >= 16 && (p + 8) % a != 0 && p > 0
    ensures var br := (p + 8 + a - 1) - (p + 8 + a - 1) % a - 8;
      var pos := if br - p >= MIN_CHUNK then br else br + a;
      && MIN_CHUNK <= pos - p <= a + 8 && Tiles.Aligned(pos - p) && (pos + 8) % a == 0
  {
    var top := (p + 8 + a - 1) - (p + 8 + a - 1) % a;
    RoundUp(p + 8, a);
    SpotAbove(p, a, top);
  }

  lemma RoundUp(m: int, a: int)
    requires Tiles.Aligned(a) && a >= 16 && m % a != 0 && m > 0
    ensures var top := (m + a - 1) - (m + a - 1) % a;
            m < top < m + a && Tiles.Aligned(top) && top % a == 0 && (top + a) % a == 0
  {
    var x := m + a - 1;
    var q := x / a;
    assert x == a * q + x % a && a * (q + 1) == a * q + a;
    Multiple(a, q);
    Multiple(a, q + 1);
    RoundedDown(x, a, a / 8);
    EightTimes(a / 8 * q);
  }

  lemma Multiple(a: int, q: int)
    requires a > 0
    ensures (a * q) % a == 0
  {
    var d, r := a * q / a, (a * q) % a;
    assert r == a * q - a * d == a * (q - d);
    Apart(a, q - d);
  }

  lemma Apart(a: int, d: int)
    requires a > 0
    ensures d >= 1 ==> a * d >= a
    ensures d <= -1 ==> a * d <= -a
  {}

  lemma SpotAbove(p: int, a: int, top: int)
    requires Tiles.Aligned(p) && Tiles.Aligned(a) && Tiles.Aligned(top) && a >= 16
    requires p + 8 < top < p + 8 + a
    ensures var br := top - 8;
      var pos := if br - p >= MIN_CHUNK then br else br + a;
      MIN_CHUNK <= pos - p <= a + 8 && Tiles.Aligned(pos - p)
  {}
}
