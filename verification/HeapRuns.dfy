/** Programs that use the allocator: over every sequence of calls, each live block holds exactly what the
    program last stored in it, whatever the allocator does around it. */
module HeapRuns {
  import opened Rings
  import opened BinIndex
  import opened Tries
  import opened Tiles
  import opened BinFiling
  import opened ChunkMaps
  import opened Layout
  import opened Malloc

  /** A block as the program sees it: the size it asked for and the bytes it stored. */
  datatype Block = Block(size: int, bytes: map<int, int>)

  datatype Op =
    | Alloc(h: int, size: int)
    | AllocAligned(h: int, alignment: int, size: int)
    | Resize(h: int, size: int)
    | Store(h: int, offset: int, byte: int)
    | Release(h: int)

  type Heap = map<int, Block>

  /** The calls a correct program may make. */
  predicate Allowed(blocks: Heap, op: Op) {
    match op
    case Alloc(h, size) => h !in blocks && 0 <= size < WORD
    case AllocAligned(h, alignment, size) => h !in blocks && 0 <= size < WORD && 0 <= alignment <= MAX_ALIGNMENT
    case Resize(h, size) => h in blocks && 0 <= size < WORD
    case Store(h, offset, byte) => h in blocks && 0 <= offset < blocks[h].size
    case Release(h) => h in blocks
  }

  /** What is left of a block when its size changes. */
  function Shrunk(b: Block, size: int): Block {
    Block(size, map i | i in b.bytes && i < size :: b.bytes[i])
  }

  /** What a call means, given whether it succeeded. */
  function Step(blocks: Heap, op: Op, ok: bool): Heap
    requires Allowed(blocks, op)
  {
    if !ok then blocks else
    match op
    case Alloc(h, size) => blocks[h := Block(size, map[])]
    case AllocAligned(h, alignment, size) => blocks[h := Block(size, map[])]
    case Resize(h, size) => blocks[h := Shrunk(blocks[h], size)]
    case Store(h, offset, byte) => blocks[h := blocks[h].(bytes := blocks[h].bytes[offset := byte])]
    case Release(h) => blocks - {h}
  }

  /** Why a call may fail. */
  ghost predicate TurnedDown(s: Supply, op: Op, granted: bool) {
    match op
    case Alloc(h, size) => Refused(s, size, granted)
    case AllocAligned(h, alignment, size) => RefusedAligned(s, alignment, size, granted)
    case Resize(h, size) => Refused(s, size, granted)
    case Store(h, offset, byte) => false
    case Release(h) => false
  }

  /** The block behind one handle. */
  ghost predicate Holds(live: map<int, int>, data: map<int, int>, mem: int, b: Block) {
    && mem - 8 in live && b.size + CHUNK_OVERHEAD <= live[mem - 8]
    && forall i :: i in b.bytes ==> 0 <= i < b.size && At(data, mem + i) == b.bytes[i]
  }

  ghost predicate Owned(addr: map<int, int>, a: int) {
    exists h {:trigger addr[h]} :: h in addr && addr[h] == a + 8
  }

  /** Every handle has a block of its own, and nothing else is allocated. */
  ghost predicate Represents(live: map<int, int>, data: map<int, int>, addr: map<int, int>, blocks: Heap) {
    && addr.Keys == blocks.Keys
    && (forall h {:trigger Holds(live, data, addr[h], blocks[h])} :: h in addr ==> Holds(live, data, addr[h], blocks[h]))
    && (forall h, h' {:trigger addr[h], addr[h']} :: h in addr && h' in addr && h != h' ==> addr[h] != addr[h'])
    && (forall a {:trigger Owned(addr, a)} :: a in live ==> Owned(addr, a))
  }

  // ---------------------------------------------------------------- single calls

  /** Blocks of distinct handles have disjoint payloads. */
  ghost predicate AllApart(live: map<int, int>) {
    forall a, b {:trigger live[a], live[b]} :: a in live && b in live && a < b ==> a + live[a] <= b
  }

  lemma Added(live: map<int, int>, live': map<int, int>, data: map<int, int>, addr: map<int, int>, blocks: Heap,
              h: int, mem: int, size: int)
    requires Represents(live, data, addr, blocks) && h !in blocks
    requires mem - 8 !in live && mem - 8 in live' && live' == live[mem - 8 := live'[mem - 8]]
    requires size + CHUNK_OVERHEAD <= live'[mem - 8]
    ensures Represents(live', data, addr[h := mem], blocks[h := Block(size, map[])])
  {
    var addr', blocks' := addr[h := mem], blocks[h := Block(size, map[])];
    forall g | g in addr'
      ensures Holds(live', data, addr'[g], blocks'[g]) && (g != h ==> addr'[g] != mem)
    {
      assert g in addr ==> Holds(live, data, addr[g], blocks[g]);
    }
    OwnedStill(live, addr, addr', h);
    assert addr'[h] == mem;
  }

  /** What was owned by another handle than `h` still is. */
  lemma OwnedStill(live: map<int, int>, addr: map<int, int>, addr': map<int, int>, h: int)
    requires forall a {:trigger Owned(addr, a)} :: a in live ==> Owned(addr, a)
    requires forall g :: g in addr && g != h ==> g in addr' && addr'[g] == addr[g]
    ensures forall a {:trigger Owned(addr', a)} :: a in live && !(h in addr && addr[h] == a + 8) ==> Owned(addr', a)
  {
    forall a | a in live && !(h in addr && addr[h] == a + 8)
      ensures Owned(addr', a)
    {
      assert Owned(addr, a);
      var g :| g in addr && addr[g] == a + 8;
      assert addr'[g] == a + 8;
    }
  }

  lemma KnownBlock(live: map<int, int>, data: map<int, int>, addr: map<int, int>, blocks: Heap, h: int)
    requires Represents(live, data, addr, blocks) && h in blocks
    ensures h in addr && addr[h] - 8 in live && Holds(live, data, addr[h], blocks[h])
  {
    assert Holds(live, data, addr[h], blocks[h]);
  }

  lemma Released(live: map<int, int>, data: map<int, int>, addr: map<int, int>, blocks: Heap, h: int)
    requires Represents(live, data, addr, blocks) && h in blocks
    ensures addr[h] - 8 in live && Represents(live - {addr[h] - 8}, data, addr - {h}, blocks - {h})
  {
    var addr', live' := addr - {h}, live - {addr[h] - 8};
    assert Holds(live, data, addr[h], blocks[h]);
    forall g | g in addr'
      ensures Holds(live', data, addr'[g], blocks[g])
    {
      assert Holds(live, data, addr[g], blocks[g]) && addr[g] != addr[h];
    }
    OwnedStill(live, addr, addr', h);
  }

  lemma Stored(live: map<int, int>, data: map<int, int>, addr: map<int, int>, blocks: Heap, h: int, offset: int, byte: int)
    requires Represents(live, data, addr, blocks) && AllApart(live) && h in blocks && 0 <= offset < blocks[h].size
    ensures Represents(live, data[addr[h] + offset := byte], addr,
                       blocks[h := blocks[h].(bytes := blocks[h].bytes[offset := byte])])
  {
    var data' := data[addr[h] + offset := byte];
    var blocks' := blocks[h := blocks[h].(bytes := blocks[h].bytes[offset := byte])];
    assert Holds(live, data, addr[h], blocks[h]);
    forall g | g in addr
      ensures Holds(live, data', addr[g], blocks'[g])
    {
      assert Holds(live, data, addr[g], blocks[g]);
      if g != h {
        StoredElsewhere(live, data, addr[g], blocks[g], addr[h], offset, byte, blocks[h].size);
      } else {
        StoredHere(live, data, addr[h], blocks[h], offset, byte);
      }
    }
  }

  lemma StoredHere(live: map<int, int>, data: map<int, int>, mem: int, b: Block, offset: int, byte: int)
    requires Holds(live, data, mem, b) && 0 <= offset < b.size
    ensures Holds(live, data[mem + offset := byte], mem, b.(bytes := b.bytes[offset := byte]))
  {}

  lemma StoredElsewhere(live: map<int, int>, data: map<int, int>, mem: int, b: Block,
                        other: int, offset: int, byte: int, size: int)
    requires Holds(live, data, mem, b) && AllApart(live) && mem != other
    requires other - 8 in live && 0 <= offset < size && size + CHUNK_OVERHEAD <= live[other - 8]
    ensures Holds(live, data[other + offset := byte], mem, b)
  {
    assert if mem < other then mem - 8 + live[mem - 8] <= other - 8 else other - 8 + live[other - 8] <= mem - 8;
  }

  lemma Moves(live: map<int, int>, live': map<int, int>, data: map<int, int>, data': map<int, int>,
              addr: map<int, int>, blocks: Heap, h: int, mem: int, size: int, nb: int)
    requires Represents(live, data, addr, blocks) && h in blocks && 0 <= size && size + CHUNK_OVERHEAD <= nb
    requires Resized(live, live', addr[h], mem, nb) && Moved(live, data, data', addr[h], mem, size)
    ensures Represents(live', data', addr[h := mem], blocks[h := Shrunk(blocks[h], size)])
  {
    var addr', blocks' := addr[h := mem], blocks[h := Shrunk(blocks[h], size)];
    assert Holds(live, data, addr[h], blocks[h]);
    forall g | g in addr'
      ensures Holds(live', data', addr'[g], blocks'[g]) && (g != h ==> addr'[g] != mem)
    {
      assert Holds(live, data, addr[g], blocks[g]) && (g != h ==> addr[g] != addr[h]);
      if g != h {
        KeptElsewhere(live, live', data, data', addr[g], blocks[g], addr[h], mem, size, nb);
      } else {
        KeptMoved(live, live', data, data', blocks[h], addr[h], mem, size, nb);
      }
    }
    OwnedStill(live, addr, addr', h);
    assert addr'[h] == mem;
  }

  lemma KeptElsewhere(live: map<int, int>, live': map<int, int>, data: map<int, int>, data': map<int, int>,
                      at: int, b: Block, oldmem: int, mem: int, size: int, nb: int)
    requires Holds(live, data, at, b) && at != oldmem
    requires Resized(live, live', oldmem, mem, nb) && Moved(live, data, data', oldmem, mem, size)
    ensures Holds(live', data', at, b)
  {
    forall i | i in b.bytes
      ensures At(data', at + i) == b.bytes[i]
    {
      var a, x := at - 8, at + i;
      assert a in live && a + 8 <= x < a + live[a] + 4;
    }
  }

  lemma KeptMoved(live: map<int, int>, live': map<int, int>, data: map<int, int>, data': map<int, int>,
                  b: Block, oldmem: int, mem: int, size: int, nb: int)
    requires Holds(live, data, oldmem, b) && 0 <= size && size + CHUNK_OVERHEAD <= nb
    requires Resized(live, live', oldmem, mem, nb) && Moved(live, data, data', oldmem, mem, size)
    ensures Holds(live', data', mem, Shrunk(b, size))
  {
    forall i | i in Shrunk(b, size).bytes
      ensures At(data', mem + i) == b.bytes[i]
    {
      var x := mem + i;
      assert At(data', x) == At(data, oldmem + (x - mem));
    }
  }

  // ---------------------------------------------------------------- what a store may overwrite

  /** The words that hold byte `x` may read anything afterwards. */
  function Smudged(m: map<int, int>, junk: map<int, int>, x: int): map<int, int> {
    m[x - 3 := At(junk, x - 3)][x - 2 := At(junk, x - 2)][x - 1 := At(junk, x - 1)][x := At(junk, x)]
  }

  lemma SmudgedAt(m: map<int, int>, junk: map<int, int>, x: int, a: int)
    requires a < x - 3 || x < a
    ensures At(Smudged(m, junk, x), a) == At(m, a)
  {}

  /** The same for all words of free chunks; each field lies at its own distance behind the chunk's address. */
  function SmudgedLinks(k: Links, junk: Links, x: int): Links {
    Links(Smudged(k.fd, junk.fd, x - 8), Smudged(k.bk, junk.bk, x - 12),
          Smudged(k.child0, junk.child0, x - 16), Smudged(k.child1, junk.child1, x - 20),
          Smudged(k.parent, junk.parent, x - 24), Smudged(k.index, junk.index, x - 28))
  }

  /** Of the words that the allocator relies on, none holds a byte of an allocated block. */
  lemma StoreSpares(g: Tags, s: Segment, k: Links, junk: Links, feet: map<int, int>, p: int, x: int)
    requires Tiling(g, s) && Payload(s.chunks, p, x) && p > 0 && Tiles.Aligned(p)
    ensures SameLinks(s.chunks, k, SmudgedLinks(k, junk, x)) && SameFeet(s.chunks, g.foot, Smudged(g.foot, feet, x))
  {
    var k' := SmudgedLinks(k, junk, x);
    hide Tiling, Smudged;
    forall a | a < 0
      ensures SameRing(k, k', a)
    {
      SmudgedAt(k.fd, junk.fd, x - 8, a);
      SmudgedAt(k.bk, junk.bk, x - 12, a);
    }
    forall a | a in s.chunks
      ensures s.chunks[a].kind.Binned? ==> SameRing(k, k', a)
      ensures s.chunks[a].kind.Binned? && !IsSmall(s.chunks[a].size) ==> SameWords(k, k', a)
      ensures !s.chunks[a].kind.InUse? ==> At(Smudged(g.foot, feet, x), a + s.chunks[a].size) == At(g.foot, a + s.chunks[a].size)
    {
      PayloadApart(g, s, p, x, a);
      assert forall f :: HasField(s.chunks[a], f) ==> Spared(s.chunks[a], a, f, x);
      ChunkSpared(s.chunks, k, junk, g.foot, feet, a, x);
    }
  }

  lemma ChunkSpared(chunks: map<int, Chunk>, k: Links, junk: Links, foot: map<int, int>, feet: map<int, int>, a: int, x: int)
    requires a in chunks
    requires forall f :: HasField(chunks[a], f) ==> Spared(chunks[a], a, f, x)
    ensures var k' := SmudgedLinks(k, junk, x);
      && (chunks[a].kind.Binned? ==> SameRing(k, k', a))
      && (chunks[a].kind.Binned? && !IsSmall(chunks[a].size) ==> SameWords(k, k', a))
    ensures !chunks[a].kind.InUse? ==> At(Smudged(foot, feet, x), a + chunks[a].size) == At(foot, a + chunks[a].size)
  {
    hide Smudged;
    var c := chunks[a];
    if c.kind.Binned? {
      assert Spared(c, a, Fd, x) && Spared(c, a, Bk, x);
      RingSpared(k, junk, a, x);
      if !IsSmall(c.size) {
        assert Spared(c, a, Child0, x) && Spared(c, a, Child1, x) && Spared(c, a, Parent, x) && Spared(c, a, Index, x);
        TreeSpared(k, junk, a, x);
      }
    }
    if !c.kind.InUse? {
      assert Spared(c, a, Foot, x);
      SmudgedAt(foot, feet, x, a + c.size);
    }
  }

  /** The word of field `f` does not hold byte `x`. */
  predicate Spared(c: Chunk, a: int, f: Field, x: int) {
    var y := WordAt(a, c.size, f); x < y || y + 4 <= x
  }

  lemma RingSpared(k: Links, junk: Links, a: int, x: int)
    requires (x < a + 8 || a + 12 <= x) && (x < a + 12 || a + 16 <= x)
    ensures SameRing(k, SmudgedLinks(k, junk, x), a)
  {
    hide Smudged;
    SmudgedAt(k.fd, junk.fd, x - 8, a);
    SmudgedAt(k.bk, junk.bk, x - 12, a);
  }

  lemma TreeSpared(k: Links, junk: Links, a: int, x: int)
    requires (x < a + 16 || a + 20 <= x) && (x < a + 20 || a + 24 <= x)
    requires (x < a + 24 || a + 28 <= x) && (x < a + 28 || a + 32 <= x)
    ensures SameTree(k, SmudgedLinks(k, junk, x), a)
  {
    hide Smudged;
    SmudgedAt(k.child0, junk.child0, x - 16, a);
    SmudgedAt(k.child1, junk.child1, x - 20, a);
    SmudgedAt(k.parent, junk.parent, x - 24, a);
    SmudgedAt(k.index, junk.index, x - 28, a);
  }

  // ---------------------------------------------------------------- runs

  /** The heap between two calls, and the program's pointers into it. */
  datatype Moment = Moment(tags: Tags, segment: Segment, bins: Bins, dv: int, dvsize: int, supply: Supply, brk: int,
                           data: map<int, int>, addr: map<int, int>)

  /** The tag words describe a tiling of the segment whose allocated chunks hold the program's blocks, and whose free
      chunks are coalesced and filed in the bins, but for the victim. */
  ghost predicate MomentOk(m: Moment, blocks: Heap) {
    && Tiling(m.tags, m.segment) && NoFreeNeighbours(m.segment.chunks)
    && |m.bins.small| == |m.bins.trees| == |m.bins.treebins| == NBINS
    && BinsOk(m.bins) && Filed(m.bins, m.segment.chunks) && VictimOk(m.segment.chunks, m.dv, m.dvsize)
    && NothingLoose(m.segment.chunks)
    && m.supply.chunks == m.segment.chunks && m.supply.topsize == m.segment.topsize && m.supply.base == m.segment.base
    && m.supply.base + m.supply.footprint == m.segment.top + m.segment.topsize + TOP_FOOT_SIZE == m.brk
    && Represents(LiveOf(m.segment.chunks), m.data, m.addr, blocks)
  }

  /** How far a call moves the system's break: by what MORECORE was asked for and granted, and only when neither a free
      chunk nor the top held the request. */
  ghost predicate BreakMoves(s: Supply, op: Op, granted: bool, step: int) {
    match op
    case Alloc(h, size) => step == Growth(s, size, granted)
    case AllocAligned(h, alignment, size) =>
      step == 0 || exists req {:trigger Growth(s, req, granted)} :: step == Growth(s, req, granted)
    case Resize(h, size) => step == 0 || step == Growth(s, size, granted)
    case Store(h, offset, byte) => step == 0
    case Release(h) => step == 0
  }

  /** One call, or none when it is not allowed: it does what it means, fails only for want of memory, and moves no
      block but its own. */
  ghost predicate CallOk(m: Moment, m': Moment, blocks: Heap, blocks': Heap, op: Op, granted: bool, ok: bool) {
    if Allowed(blocks, op) then
      && blocks' == Step(blocks, op, ok) && (!ok ==> TurnedDown(m.supply, op, granted))
      && (op.AllocAligned? && ok ==> op.h in m'.addr && AlignedAt(m'.addr[op.h], op.alignment))
      && (op.Alloc? && ok ==>
            && op.h in m'.addr
            && Placed(m.bins, m.segment.chunks, m.dv, m.dvsize, m.segment.top, RequestSize(op.size), m'.addr[op.h] - 8))
      && (op.Release? ==>
            && op.h in m.addr && m.addr[op.h] - 8 in m.segment.chunks
            && var p := m.addr[op.h] - 8;
               FreedTo(m.segment, m.dv, m.dvsize, p, MergeStart(m.segment.chunks, p), m'.segment, m'.dv, m'.dvsize))
      && BreakMoves(m.supply, op, granted, m'.brk - m.brk)
      && forall g :: g in m.addr && g != op.h ==> g in m'.addr && m'.addr[g] == m.addr[g]
    else !ok && blocks' == blocks && m' == m
  }

  /** Every moment of a run, and every call in it. */
  ghost predicate RunOk(ops: seq<Op>, grants: seq<bool>, oks: seq<bool>, trace: seq<Heap>, moments: seq<Moment>, n: int) {
    && 0 <= n <= |ops| == |grants| && |oks| == n && |trace| == |moments| == n + 1
    && (forall i :: 0 <= i <= n ==> MomentOk(moments[i], trace[i]))
    && forall i :: 0 <= i < n ==> CallOk(moments[i], moments[i + 1], trace[i], trace[i + 1], ops[i], grants[i], oks[i])
  }

  class Client {
    const heap: MallocState
    var addr: map<int, int>
    var blocks: Heap

    ghost predicate Valid()
      reads this, heap
    {
      heap.Valid() && Represents(heap.Live(), heap.data, addr, blocks)
    }

    constructor (state: MallocState)
      requires state.Valid() && state.Live() == map[]
      ensures Valid() && heap == state && blocks == map[]
    {
      heap := state;
      addr := map[];
      blocks := map[];
    }

    /** One call of the program; `granted` is what MORECORE would answer. */
    method Call(op: Op, granted: bool) returns (ok: bool)
      requires Valid() && Allowed(blocks, op)
      modifies this, heap
      ensures Valid() && blocks == Step(old(blocks), op, ok)
      ensures !ok ==> TurnedDown(old(heap.Supply_()), op, granted)
      ensures op.AllocAligned? && ok ==> op.h in addr && AlignedAt(addr[op.h], op.alignment)
      ensures forall g :: g in old(addr) && g != op.h ==> g in addr && addr[g] == old(addr[g])
      ensures op.Alloc? && ok ==>
        && op.h in addr
        && Placed(old(heap.Bins_()), old(heap.chunks), old(heap.dv), old(heap.dvsize), old(heap.top), RequestSize(op.size),
                  addr[op.h] - 8)
      ensures op.Release? ==>
        && op.h in old(addr) && old(addr)[op.h] - 8 in old(heap.chunks)
        && var p := old(addr)[op.h] - 8;
           FreedTo(old(heap.Segment_()), old(heap.dv), old(heap.dvsize), p, MergeStart(old(heap.chunks), p),
                   heap.Segment_(), heap.dv, heap.dvsize)
      ensures BreakMoves(old(heap.Supply_()), op, granted, heap.brk - old(heap.brk))
    {
      hide MallocState.Valid, MallocState.Live, Represents, Holds, Resized, Moved, Shrunk, PadRequest, AlignedAt,
           Refused, RefusedAligned, Growth, Placed, VictimAfter, FreedTo, MergeStart, StaysInPlace, SmudgedLinks,
           Smudged, SameLinks, SameFeet;
      Break();
      match op {
      case Alloc(h, size) =>
        var mem := heap.Malloc(size, granted);
        ok := mem != 0;
        if ok {
          PaddedSize(size);
          Added(old(heap.Live()), heap.Live(), heap.data, addr, blocks, h, mem, size);
          addr := addr[h := mem];
        }
      case AllocAligned(h, alignment, size) =>
        var mem := heap.Memalign(alignment, size, granted);
        ok := mem != 0;
        if ok {
          PaddedSize(size);
          Added(old(heap.Live()), heap.Live(), heap.data, addr, blocks, h, mem, size);
          addr := addr[h := mem];
        }
      case Resize(h, size) =>
        KnownBlock(heap.Live(), heap.data, addr, blocks, h);
        var mem := heap.Realloc(addr[h], size, granted);
        ok := mem != 0;
        if ok {
          PaddedSize(size);
          Moves(old(heap.Live()), heap.Live(), old(heap.data), heap.data, addr, blocks, h, mem, size, RequestSize(size));
          addr := addr[h := mem];
        }
      case Store(h, offset, byte) =>
        BlocksApart();
        KnownBlock(heap.Live(), heap.data, addr, blocks, h);
        Stored(heap.Live(), heap.data, addr, blocks, h, offset, byte);
        var x := addr[h] + offset;
        var junk: Links := *;
        var feet: map<int, int> := *;
        WordsSpared(addr[h] - 8, x, junk, feet);
        heap.UserWrites(heap.data[x := byte], SmudgedLinks(heap.links, junk, x), Smudged(heap.prevFoot, feet, x));
        ok := true;
      case Release(h) =>
        KnownBlock(heap.Live(), heap.data, addr, blocks, h);
        heap.LivePositive(addr[h] - 8);
        Released(heap.Live(), heap.data, addr, blocks, h);
        heap.Free(addr[h]);
        addr := addr - {h};
        ok := true;
      }
      blocks := Step(blocks, op, ok);
      Break();
    }

    lemma Break()
      requires heap.Valid()
      ensures heap.brk == heap.base + heap.footprint
    {
      hide Filed, BinsOk, Tiling;
    }

    lemma WordsSpared(p: int, x: int, junk: Links, feet: map<int, int>)
      requires heap.Valid() && p in heap.Live() && p + 8 <= x < p + heap.Live()[p] + 4
      ensures SameLinks(heap.chunks, heap.links, SmudgedLinks(heap.links, junk, x))
      ensures SameFeet(heap.chunks, heap.prevFoot, Smudged(heap.prevFoot, feet, x))
    {
      hide Filed, BinsOk, TileAt, Tiling;
      heap.LiveChunk(p);
      ChunkBounds(heap.Tags_(), heap.Segment_(), p);
      StoreSpares(heap.Tags_(), heap.Segment_(), heap.links, junk, feet, p, x);
    }

    ghost function Now(): Moment
      reads this, heap
    {
      Moment(heap.Tags_(), heap.Segment_(), heap.Bins_(), heap.dv, heap.dvsize, heap.Supply_(), heap.brk, heap.data,
             addr)
    }

    lemma NowOk()
      requires Valid()
      ensures MomentOk(Now(), blocks)
    {
      hide Filed, BinsOk, Tiling, Represents, NoFreeNeighbours, VictimOk, NothingLoose;
    }

    lemma BlocksApart()
      requires Valid()
      ensures AllApart(heap.Live())
    {
      forall a, b | a in heap.Live() && b in heap.Live() && a < b
        ensures a + heap.Live()[a] <= b
      {
        heap.LiveApart(a, b);
      }
    }

    /** A run of calls: from call to call the live blocks hold what the calls make of them, and calls that are not
        allowed are not made. */
    method Calls(ops: seq<Op>, grants: seq<bool>) returns (oks: seq<bool>, ghost trace: seq<Heap>, ghost moments: seq<Moment>)
      requires Valid() && |grants| == |ops|
      modifies this, heap
      ensures RunOk(ops, grants, oks, trace, moments, |ops|)
      ensures trace[0] == old(blocks) && moments[0] == old(Now())
      ensures Valid() && blocks == trace[|ops|] && Now() == moments[|ops|]
      ensures forall i :: 0 <= i <= |ops| ==>
        moments[i].supply.base == heap.base && moments[i].supply.granularity == heap.granularity
    {
      hide MallocState.Valid, MallocState.Live, Represents, MomentOk, Step, TurnedDown, Allowed, BreakMoves,
           Placed, FreedTo, MergeStart;
      oks, trace, moments := [], [blocks], [Now()];
      NowOk();
      for i := 0 to |ops|
        invariant Valid() && RunOk(ops, grants, oks, trace, moments, i)
        invariant trace[0] == old(blocks) && moments[0] == old(Now()) && blocks == trace[i] && Now() == moments[i]
        invariant forall j :: 0 <= j <= i ==>
          moments[j].supply.base == heap.base && moments[j].supply.granularity == heap.granularity
      {
        var ok := false;
        if Allowed(blocks, ops[i]) {
          ok := Call(ops[i], grants[i]);
        }
        NowOk();
        oks, trace, moments := oks + [ok], trace + [blocks], moments + [Now()];
      }
    }
  }
}
