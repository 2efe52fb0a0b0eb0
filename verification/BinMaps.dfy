/** The 32-bit bin maps and the shift-and-mask tricks that compute indices from them.  The bit-level
    statements come first, on bit-vectors alone; the integer forms used by the allocator follow. */
module BinMaps {
  import opened BinIndex

  // ---------------------------------------------------------------- on bit-vectors

  predicate BitAt(m: bv32, b: bv32)
    requires b < 32
  {
    (m >> b) & 1 == 1
  }

  function Bit(b: bv32): bv32
    requires b < 32
  {
    (1 as bv32) << b
  }

  function LeastBit(x: bv32): bv32 { x & (0 - x) }

  function LeftBits(x: bv32): bv32 { (x << 1) | (0 - (x << 1)) }

  /** The unrolled binary search for the position of an isolated bit. */
  function ComputeBit2Idx(x: bv32): bv32 {
    var y0 := x - 1;
    var k0 := (y0 >> 12) & 16;
    var y1 := y0 >> k0;
    var k1 := (y1 >> 5) & 8;
    var y2 := y1 >> k1;
    var k2 := (y2 >> 2) & 4;
    var y3 := y2 >> k2;
    var k3 := (y3 >> 1) & 2;
    var y4 := y3 >> k3;
    var k4 := y4 & 1;
    var y5 := y4 >> k4;
    k0 + k1 + k2 + k3 + k4 + y5
  }

  function ComputeTreeIndex(s: bv32): bv32 {
    var x := s >> 8;
    if x == 0 then 0
    else if x > 0xFFFF then 31
    else
      var n0 := ((x - 0x100) >> 16) & 8;
      var y1 := x << n0;
      var k1 := ((y1 - 0x1000) >> 16) & 4;
      var n1 := n0 + k1;
      var y2 := y1 << k1;
      var k2 := ((y2 - 0x4000) >> 16) & 2;
      var n2 := n1 + k2;
      var y3 := y2 << k2;
      var k := 14 - n2 + (y3 >> 15);
      assert k <= 16;
      (k << 1) + ((s >> (k + 7)) & 1)
  }

  function MinSizeForTreeIndex(i: bv32): bv32
    requires i < 32
  {
    ((1 as bv32) << ((i >> 1) + 8)) | ((i & 1) << ((i >> 1) + 7))
  }

  function MarkBit(m: bv32, b: bv32): bv32
    requires b < 32
  {
    m | Bit(b)
  }

  function ClearBit(m: bv32, b: bv32): bv32
    requires b < 32
  {
    m & !Bit(b)
  }

  /** The bits of a map above position `b`, masked out with `left_bits`. */
  function BitsAbove(m: bv32, b: bv32): bv32
    requires b < 32
  {
    LeftBits(Bit(b)) & m
  }

  function ShiftDown(m: bv32, b: bv32): bv32
    requires b < 32
  {
    m >> b
  }

  /** The same for a map whose low bits were shifted out and back. */
  function BitsFrom(m: bv32, b: bv32): bv32
    requires b < 32
  {
    (m >> b) << b
  }

  lemma MarkedBit(m: bv32, a: bv32, b: bv32)
    requires a < 32 && b < 32
    ensures BitAt(MarkBit(m, a), b) <==> a == b || BitAt(m, b)
  {}

  lemma ClearedBit(m: bv32, a: bv32, b: bv32)
    requires a < 32 && b < 32
    ensures a != b && BitAt(m, b) ==> BitAt(ClearBit(m, a), b)
    ensures BitAt(ClearBit(m, a), b) ==> a != b
    ensures BitAt(ClearBit(m, a), b) ==> BitAt(m, b)
  {}

  lemma LeastBitIndex(m: bv32, b: bv32)
    requires m != 0 && b < 32
    ensures var i := ComputeBit2Idx(LeastBit(m));
            i < 32 && BitAt(m, i) && (b < i ==> !BitAt(m, b))
  {}

  lemma LeftBitsAbove(m: bv32, a: bv32, b: bv32)
    requires a < 32 && b < 32
    ensures BitAt(BitsAbove(m, a), b) ==> a < b
    ensures BitAt(BitsAbove(m, a), b) ==> BitAt(m, b)
  {}

  lemma AboveLeftBits(m: bv32, a: bv32, b: bv32)
    requires a < 32 && b < 32
    ensures a < b && BitAt(m, b) ==> BitAt(BitsAbove(m, a), b)
  {}

  lemma ShiftedBack(m: bv32, a: bv32, b: bv32)
    requires a < 32 && b < 32
    ensures BitAt(BitsFrom(m, a), b) ==> BitAt(m, b)
  {}

  lemma ShiftedKept(m: bv32, a: bv32, b: bv32)
    requires a <= b < 32
    ensures BitAt(m, b) ==> BitAt(BitsFrom(m, a), b)
  {}

  lemma ShiftedMap(m: bv32, a: bv32)
    requires a < 31
    ensures (m >> a) & 3 != 0 <==> BitAt(m, a) || BitAt(m, a + 1)
    ensures !(m >> a) & 1 == if BitAt(m, a) then 0 else 1
    ensures m >> a == 0 ==> forall b: bv32 :: a <= b < 32 ==> !BitAt(m, b)
  {}

  lemma NonZeroMap(m: bv32, b: bv32)
    requires b < 32 && BitAt(m, b)
    ensures m != 0
  {}

  lemma TreeIndexBits(s: bv32)
    requires s >= 256
    ensures var i := ComputeTreeIndex(s);
            i < 32 && MinSizeForTreeIndex(i) <= s && (i < 31 ==> s < MinSizeForTreeIndex(i + 1))
  {}

  // ---------------------------------------------------------------- on integers

  predicate Marked(m: bv32, i: int)
    requires 0 <= i < NBINS
  {
    BitAt(m, Index(i))
  }

  /** `mark_smallmap` and `mark_treemap` */
  function Mark(m: bv32, i: int): bv32
    requires 0 <= i < NBINS
  {
    MarkBit(m, Index(i))
  }

  /** `clear_smallmap` and `clear_treemap` */
  function Clear(m: bv32, i: int): bv32
    requires 0 <= i < NBINS
  {
    ClearBit(m, Index(i))
  }

  /** Bin numbers as bit positions, digit by digit. */
  function Index(i: int): (b: bv32)
    requires 0 <= i < NBINS
    ensures b < 32
  {
    (if i >= 16 then 16 else 0) | (if i % 16 >= 8 then 8 else 0) | (if i % 8 >= 4 then 4 else 0) |
    (if i % 4 >= 2 then 2 else 0) | (if i % 2 >= 1 then 1 else 0)
  }

  function IndexOf(b: bv32): (i: int)
    requires b < 32
    ensures 0 <= i < NBINS
  {
    (if b & 16 != 0 then 16 else 0) + (if b & 8 != 0 then 8 else 0) + (if b & 4 != 0 then 4 else 0) +
    (if b & 2 != 0 then 2 else 0) + (if b & 1 != 0 then 1 else 0)
  }

  lemma IndexInverse(i: int)
    requires 0 <= i < NBINS
    ensures IndexOf(Index(i)) == i
  {}

  lemma IndexOfInverse(b: bv32)
    requires b < 32
    ensures Index(IndexOf(b)) == b
  {}

  lemma IndexOfOrder(a: bv32, b: bv32)
    requires a < 32 && b < 32
    ensures a < b <==> IndexOf(a) < IndexOf(b)
    ensures a == b + 1 <==> IndexOf(a) == IndexOf(b) + 1
  {}

  lemma IndexOrder(i: int, j: int)
    requires 0 <= i < NBINS && 0 <= j < NBINS
    ensures Index(i) < Index(j) <==> i < j
    ensures Index(i) == Index(j) <==> i == j
  {
    IndexInverse(i);
    IndexInverse(j);
    IndexOfOrder(Index(i), Index(j));
  }

  lemma IndexNext(i: int)
    requires 0 <= i < NBINS - 1
    ensures Index(i + 1) == Index(i) + 1
  {
    IndexInverse(i);
    IndexInverse(i + 1);
    IndexOfOrder(Index(i + 1), Index(i));
  }

  lemma MarkedAfter(m: bv32, i: int, j: int)
    requires 0 <= i < NBINS && 0 <= j < NBINS
    ensures Marked(Mark(m, i), j) <==> i == j || Marked(m, j)
    ensures Marked(Clear(m, i), j) <==> i != j && Marked(m, j)
  {
    hide Index, MarkBit, ClearBit, BitAt;
    MarkedBit(m, Index(i), Index(j));
    ClearedBit(m, Index(i), Index(j));
    IndexOrder(i, j);
  }

  lemma MarkedNonZero(m: bv32, i: int)
    requires 0 <= i < NBINS && Marked(m, i)
    ensures m != 0
  {
    NonZeroMap(m, Index(i));
  }

  /** The least bin marked in a map that is not empty. */
  function LeastMarked(m: bv32): (i: int)
    requires m != 0
    ensures 0 <= i < NBINS && Marked(m, i)
    ensures forall j :: 0 <= j < i ==> !Marked(m, j)
  {
    LeastBitIndex(m, 0);
    LeastMarkedIs(m);
    IndexOf(ComputeBit2Idx(LeastBit(m)))
  }

  lemma LeastMarkedIs(m: bv32)
    requires m != 0
    ensures var b := ComputeBit2Idx(LeastBit(m));
            b < 32 && Marked(m, IndexOf(b)) && forall j :: 0 <= j < IndexOf(b) ==> !Marked(m, j)
  {
    var b := ComputeBit2Idx(LeastBit(m));
    LeastBitIndex(m, 0);
    IndexOfInverse(b);
    forall j | 0 <= j < IndexOf(b)
      ensures !Marked(m, j)
    {
      IndexInverse(j);
      IndexOfOrder(Index(j), b);
      LeastBitIndex(m, Index(j));
    }
  }

  /** The bins above `i` of a map. */
  lemma MarkedAbove(m: bv32, i: int, j: int)
    requires 0 <= i < NBINS && 0 <= j < NBINS
    ensures Marked(BitsAbove(m, Index(i)), j) <==> i < j && Marked(m, j)
    ensures Marked(BitsAbove(BitsFrom(m, Index(i)), Index(i)), j) <==> i < j && Marked(m, j)
  {
    hide Index, BitsAbove, BitsFrom, BitAt;
    LeftBitsAbove(m, Index(i), Index(j));
    AboveLeftBits(m, Index(i), Index(j));
    LeftBitsAbove(BitsFrom(m, Index(i)), Index(i), Index(j));
    AboveLeftBits(BitsFrom(m, Index(i)), Index(i), Index(j));
    ShiftedBack(m, Index(i), Index(j));
    IndexOrder(i, j);
    if i < j {
      ShiftedKept(m, Index(i), Index(j));
    }
  }

  lemma SmallBits(m: bv32, i: int, j: int)
    requires 0 <= i < NBINS - 1 && i <= j < NBINS
    ensures ShiftDown(m, Index(i)) & 3 != 0 <==> Marked(m, i) || Marked(m, i + 1)
    ensures !ShiftDown(m, Index(i)) & 1 == if Marked(m, i) then 0 else 1
    ensures ShiftDown(m, Index(i)) == 0 ==> !Marked(m, j)
  {
    IndexOrder(j, i);
    IndexNext(i);
    IndexBelowLast(i);
    hide Index, BitAt, ShiftDown;
    ShiftedBits(m, Index(i), Index(i + 1), Index(j));
  }

  lemma IndexBelowLast(i: int)
    requires 0 <= i < NBINS - 1
    ensures Index(i) < 31
  {
    IndexOrder(i, 31);
  }

  lemma ShiftedBits(m: bv32, a: bv32, next: bv32, b: bv32)
    requires a < 31 && next == a + 1 && b < 32 && !(b < a)
    ensures ShiftDown(m, a) & 3 != 0 <==> BitAt(m, a) || BitAt(m, next)
    ensures !ShiftDown(m, a) & 1 == if BitAt(m, a) then 0 else 1
    ensures ShiftDown(m, a) == 0 ==> !BitAt(m, b)
  {
    ShiftedMap(m, a);
  }

  /** A shifted map that is not zero has a marked bin. */
  lemma ShiftedSome(m: bv32, i: int) returns (j: int)
    requires 0 <= i < NBINS && ShiftDown(m, Index(i)) != 0
    ensures i <= j < NBINS && Marked(m, j)
  {
    hide *;
    j := SomeMarked(m, Index(i));
    IndexOrder(j, i);
  }

  lemma SomeMarked(m: bv32, a: bv32) returns (j: int)
    requires a < 32 && ShiftDown(m, a) != 0
    ensures 0 <= j < NBINS && !(Index(j) < a) && Marked(m, j)
  {
    var b := SomeBit(m, a);
    hide IndexOf, Index, BitAt, ShiftDown;
    IndexOfInverse(b);
    j := IndexOf(b);
  }

  lemma SomeBit(m: bv32, a: bv32) returns (b: bv32)
    requires a < 32 && ShiftDown(m, a) != 0
    ensures b < 32 && !(b < a) && BitAt(m, b)
  {
    b := a + ComputeBit2Idx(LeastBit(m >> a));
  }

  /** `SmallBits` at the last bin, which has no bin above. */
  lemma SmallBitsLast(m: bv32)
    ensures ShiftDown(m, Index(31)) & 3 != 0 <==> Marked(m, 31)
    ensures Marked(m, 31) ==> !ShiftDown(m, Index(31)) & 1 == 0
    ensures ShiftDown(m, Index(31)) == 0 ==> !Marked(m, 31)
  {
    assert Index(31) == 31;
    hide Index;
    LastBit(m);
  }

  lemma LastBit(m: bv32)
    ensures (m >> 31) & 3 != 0 ==> (m >> 31) & 1 == 1
    ensures (m >> 31) & 1 == 1 ==> (m >> 31) & 3 != 0
    ensures (m >> 31) & 1 == 1 ==> !(m >> 31) & 1 == 0
    ensures m >> 31 == 0 ==> (m >> 31) & 1 == 0
  {}

  /** Marking a marked bin changes nothing. */
  lemma MarkedAgain(m: bv32, i: int)
    requires 0 <= i < NBINS && Marked(m, i)
    ensures Mark(m, i) == m
  {
    hide Index;
    MarkBitAgain(m, Index(i));
  }

  lemma MarkBitAgain(m: bv32, b: bv32)
    requires b < 32 && BitAt(m, b)
    ensures MarkBit(m, b) == m
  {}

  // ---------------------------------------------------------------- bit-vectors as numbers

  function Value(x: bv32): (n: nat) { x as int }

  function Halved(x: bv32): bv32 { x >> 1 }

  predicate OddWord(x: bv32) { x & 1 != 0 }

  predicate Below(x: bv32, y: bv32) { x < y }

  /** The word with half the value and this last bit */
  function Appended(y: bv32, one: bool): bv32 { if one then (y << 1) | 1 else y << 1 }

  lemma AppendedValue(y: bv32, one: bool)
    requires y < 0x8000_0000
    ensures Value(Appended(y, one)) == 2 * Value(y) + if one then 1 else 0
  {
    DoubleWord(y);
  }

  lemma DoubleWord(y: bv32)
    requires y < 0x8000_0000
    ensures (y << 1) as int == 2 * (y as int) && ((y << 1) | 1) as int == 2 * (y as int) + 1
  {}

  lemma Split(x: bv32)
    ensures Value(x) == 2 * Value(Halved(x)) + if OddWord(x) then 1 else 0
  {
    HalfAndBit(x);
    hide Value;
    AppendedValue(x >> 1, x & 1 != 0);
  }

  lemma HalfAndBit(x: bv32)
    ensures x >> 1 < 0x8000_0000
    ensures x & 1 == 0 ==> x == (x >> 1) << 1
    ensures x & 1 != 0 ==> x == ((x >> 1) << 1) | 1
  {}

  lemma BelowHalf(y: bv32)
    requires Value(y) < 0x8000_0000
    ensures y < 0x8000_0000
  {}

  lemma SameWord(b: bv32)
    ensures Value(b) as bv32 == b && Value(b) < WORD
  {}

  /** The word with value `s`, bit by bit */
  function WordOf(s: nat): bv32 {
    if s == 0 then 0 else Appended(WordOf(s / 2), s % 2 == 1)
  }

  lemma {:induction false} WordOfIs(s: nat)
    requires s < WORD
    ensures Value(WordOf(s)) == s
  {
    if s == 0 {
      ZeroValue();
    } else {
      hide Value, Appended;
      WordOfIs(s / 2);
      BelowHalf(WordOf(s / 2));
      AppendedValue(WordOf(s / 2), s % 2 == 1);
    }
  }

  lemma ZeroValue()
    ensures Value(0) == 0
  {}

  /** A number that fits is not changed by the conversion to a word. */
  lemma WordValue(s: nat)
    requires s < WORD
    ensures Value(s as bv32) == s
  {
    hide Value;
    WordOfIs(s);
    SameWord(WordOf(s));
  }

  lemma LessHalf(x: bv32, y: bv32)
    requires Below(Halved(x), Halved(y))
    ensures Below(x, y)
  {}

  lemma LessBit(x: bv32, y: bv32)
    requires Halved(x) == Halved(y) && !OddWord(x) && OddWord(y)
    ensures Below(x, y)
  {}

  lemma NotBoth(x: bv32, y: bv32)
    ensures !(Below(x, y) && Below(y, x)) && !(Below(x, y) && y <= x) && !Below(x, x)
  {}

  /** Words are ordered as their values. */
  lemma {:induction false} WordOrder(x: bv32, y: bv32)
    requires Value(x) < Value(y)
    ensures Below(x, y)
    decreases Value(y)
  {
    hide Value, Halved, OddWord, Below;
    Split(x);
    Split(y);
    SameWord(Halved(x));
    SameWord(Halved(y));
    if Value(Halved(x)) < Value(Halved(y)) {
      WordOrder(Halved(x), Halved(y));
      LessHalf(x, y);
    } else {
      LessBit(x, y);
    }
  }

  lemma MinWordNext(b: bv32)
    requires b < 30
    ensures MinSizeForTreeIndex(b + 2) == MinSizeForTreeIndex(b) << 1 && MinSizeForTreeIndex(b) < 0x8000_0000
  {}

  lemma MinWordFirst()
    ensures MinSizeForTreeIndex(0) == 0x100 && MinSizeForTreeIndex(1) == 0x180
    ensures Value(0x100) == 0x100 && Value(0x180) == 0x180
  {}

  lemma MinSizeDoubles(i: nat)
    ensures MinSize(i + 2) == 2 * MinSize(i) && MinSize(0) == 0x100 && MinSize(1) == 0x180
  {
    assert (i + 2) / 2 == i / 2 + 1 && (i + 2) % 2 == i % 2;
    assert Pow2(i / 2 + 8) == 2 * Pow2(i / 2 + 7);
    assert Pow2(4) == 16 && Pow2(7) == 128;
  }

  /** The macro's least sizes are those of the bins. */
  lemma {:induction false} MinSizes(i: int)
    requires 0 <= i < NBINS
    ensures Value(MinSizeForTreeIndex(Index(i))) == MinSize(i)
  {
    hide Value, MinSizeForTreeIndex, MinSize, Index;
    MinWordFirst();
    if i < 2 {
      FirstIndices();
      MinSizeDoubles(0);
    } else {
      MinSizes(i - 2);
      MinSizeDoubles(i - 2);
      IndexNext(i - 2);
      IndexNext(i - 1);
      TwoMore(Index(i - 2), Index(i - 1), Index(i));
      MinWordNext(Index(i - 2));
      AppendedValue(MinSizeForTreeIndex(Index(i - 2)), false);
    }
  }

  lemma FirstIndices()
    ensures Index(0) == 0 && Index(1) == 1
  {}

  lemma TwoMore(a: bv32, b: bv32, c: bv32)
    requires b == a + 1 && c == b + 1 && a < 32 && b < 32 && c < 32
    ensures a < 30 && c == a + 2
  {}

  /** `compute_tree_index` on the word of a size gives its bin. */
  lemma TreeIndexIs(s: int)
    requires MIN_LARGE_SIZE <= s < WORD
    ensures ComputeTreeIndex(s as bv32) < 32 && IndexOf(ComputeTreeIndex(s as bv32)) == TreeIndex(s)
  {
    var b := s as bv32;
    hide *;
    var c := ComputeTreeIndex(b);
    WordValue(s);
    LargeTreeIndex(b);
    LowerBound(b, c);
    if IndexOf(c) < NBINS - 1 {
      UpperBound(b, c);
    }
    TreeIndexUnique(s, IndexOf(c));
  }

  /** The bounds of bin `c`, as the macro has them */
  ghost predicate InBounds(b: bv32, c: bv32) {
    c < 32 && MinSizeForTreeIndex(c) <= b && (c < 31 ==> b < MinSizeForTreeIndex(c + 1))
  }

  lemma LargeTreeIndex(b: bv32)
    requires Value(b) >= MIN_LARGE_SIZE
    ensures InBounds(b, ComputeTreeIndex(b))
  {
    LargeWord(b);
    hide Value, ComputeTreeIndex, MinSizeForTreeIndex;
    TreeIndexBits(b);
  }

  lemma LowerBound(b: bv32, c: bv32)
    requires InBounds(b, c)
    ensures c < 32 && MinSize(IndexOf(c)) <= Value(b)
  {
    NotBelowIs(MinSizeForTreeIndex(c), b);
    IndexOfInverse(c);
    hide *;
    MinSizes(IndexOf(c));
  }

  lemma NextBound(b: bv32, c: bv32)
    requires c < 31 && b < MinSizeForTreeIndex(c + 1)
    ensures IndexOf(c) < NBINS - 1 && Value(b) < MinSize(IndexOf(c) + 1)
  {
    BelowIs(b, MinSizeForTreeIndex(c + 1));
    IndexOfOrder(c + 1, c);
    IndexOfInverse(c + 1);
    hide *;
    MinSizes(IndexOf(c + 1));
  }

  lemma UpperBound(b: bv32, c: bv32)
    requires InBounds(b, c) && c < 32 && IndexOf(c) < NBINS - 1
    ensures Value(b) < MinSize(IndexOf(c) + 1)
  {
    LastIndex(c);
    hide Value, MinSizeForTreeIndex, MinSize, IndexOf;
    NextBound(b, c);
  }

  lemma LargeWord(b: bv32)
    requires Value(b) >= MIN_LARGE_SIZE
    ensures b >= 256
  {}

  lemma LastIndex(b: bv32)
    requires b < 32 && IndexOf(b) < NBINS - 1
    ensures b < 31
  {}

  lemma NotBelowIs(x: bv32, y: bv32)
    requires x <= y
    ensures Value(x) <= Value(y)
  {
    hide Value, Below;
    NotBoth(y, x);
    if Value(y) < Value(x) {
      WordOrder(y, x);
    }
  }

  lemma BelowIs(x: bv32, y: bv32)
    requires x < y
    ensures Value(x) < Value(y)
  {
    IsBelow(x, y);
    hide Value, Below;
    NotBoth(x, y);
    SameWord(x);
    SameWord(y);
    if Value(y) < Value(x) {
      WordOrder(y, x);
    }
  }

  lemma IsBelow(x: bv32, y: bv32)
    ensures Below(x, y) == (x < y)
  {}

  /** `compute_tree_index` */
  function TreeIndexOf(s: int): (i: int)
    requires MIN_LARGE_SIZE <= s < WORD
    ensures i == TreeIndex(s)
  {
    TreeIndexIs(s);
    IndexOf(ComputeTreeIndex(s as bv32))
  }
}
