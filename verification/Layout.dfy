/** Where the words of the allocator lie in memory.  The allocator's state keeps one map per field,
    under the address of the chunk; this is sound because the words it relies on never share a byte
    with each other or with the payload of an allocated chunk. */
module Layout {
  import opened Tiles

  datatype Field = Head | Fd | Bk | Child0 | Child1 | Parent | Index | Foot

  /** The fields of a chunk that hold allocator words, by what the chunk is used for. */
  ghost predicate HasField(c: Chunk, f: Field) {
    match f
    case Head => true
    case Foot => !c.kind.InUse?
    case Fd | Bk => c.kind.Binned?
    case Child0 | Child1 | Parent | Index => c.kind.Binned? && c.size >= 256
  }

  /** The address of a 4-byte word; the foot is the `prev_foot` word of the chunk behind. */
  function WordAt(a: int, size: int, f: Field): int {
    match f
    case Head => a + 4
    case Fd => a + 8
    case Bk => a + 12
    case Child0 => a + 16
    case Child1 => a + 20
    case Parent => a + 24
    case Index => a + 28
    case Foot => a + size
  }

  /** What `malloc` hands out: everything from behind the head word to the head word of the next chunk. */
  ghost predicate Payload(chunks: map<int, Chunk>, p: int, x: int)
  {
    p in chunks && chunks[p].kind.InUse? && p + 8 <= x < p + chunks[p].size + 4
  }

  /** No two words of the allocator overlap. */
  lemma WordsApart(g: Tags, s: Segment, a: int, f: Field, b: int, f': Field)
    requires Tiling(g, s) && a in s.chunks && b in s.chunks && (a != b || f != f')
    requires HasField(s.chunks[a], f) && HasField(s.chunks[b], f')
    ensures var x, y := WordAt(a, s.chunks[a].size, f), WordAt(b, s.chunks[b].size, f'); x + 4 <= y || y + 4 <= x
    ensures WordAt(a, s.chunks[a].size, f) + 4 <= s.top + 4
  {
    hide Tiling, Aligned;
    ChunkBounds(g, s, a);
    ChunkBounds(g, s, b);
    if a < b {
      NoOverlap(g, s, a, b);
    } else if b < a {
      NoOverlap(g, s, b, a);
    }
  }

  /** The payload of a chunk shares no byte with a word of the allocator, nor with another payload. */
  lemma PayloadApart(g: Tags, s: Segment, p: int, x: int, b: int)
    requires Tiling(g, s) && Payload(s.chunks, p, x) && b in s.chunks
    ensures forall f :: HasField(s.chunks[b], f) ==>
      var y := WordAt(b, s.chunks[b].size, f); x < y || y + 4 <= x
    ensures b != p ==> !Payload(s.chunks, b, x)
    ensures x < s.top + 4
  {
    hide Tiling, Aligned;
    ChunkBounds(g, s, p);
    ChunkBounds(g, s, b);
    if p < b {
      NoOverlap(g, s, p, b);
    } else if b < p {
      NoOverlap(g, s, b, p);
    }
  }
}
