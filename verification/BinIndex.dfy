/** Bin numbers of the allocator: which small or tree bin a chunk size belongs to, and the bit tricks
    that compute it (and that pick the next non-empty bin out of a bin map). */
module BinIndex {

  const WORD := 0x1_0000_0000 // size_t is 32 bits wide
  const MIN_LARGE_SIZE := 256
  const NBINS := 32

  function Pow2(n: nat): (r: int)
    ensures r >= 1
  {
    if n == 0 then 1 else 2 * Pow2(n - 1)
  }

  lemma {:induction false} Pow2Sum(a: nat, b: nat)
    ensures Pow2(a) * Pow2(b) == Pow2(a + b)
  {
    if a > 0 {
      Pow2Sum(a - 1, b);
      assert Pow2(a) * Pow2(b) == 2 * (Pow2(a - 1) * Pow2(b));
    }
  }

  lemma Pow2Word()
    ensures Pow2(31) == 0x8000_0000
    ensures Pow2(32) == WORD
  {
    assert Pow2(8) == 256;
    Pow2Sum(8, 8);
    Pow2Sum(16, 16);
    assert Pow2(32) == 2 * Pow2(31);
  }

  /** The smallest size held by tree bin `i`. */
  function MinSize(i: nat): int {
    (2 + i % 2) * Pow2(i / 2 + 7)
  }

  lemma MinSizeStep(i: nat)
    ensures MinSize(i + 1) == MinSize(i) + Pow2(i / 2 + 7)
  {
    if i % 2 == 1 {
      assert (i + 1) / 2 == i / 2 + 1;
      assert Pow2(i / 2 + 8) == 2 * Pow2(i / 2 + 7);
    } else {
      assert (i + 1) / 2 == i / 2;
    }
  }

  function TreeIndexFrom(s: int, i: nat): (r: nat)
    requires i < NBINS && MinSize(i) <= s
    ensures i <= r < NBINS
    decreases NBINS - i
  {
    if i == NBINS - 1 || s < MinSize(i + 1) then i else TreeIndexFrom(s, i + 1)
  }

  lemma {:induction false} TreeIndexFromIs(s: int, i: nat)
    requires i < NBINS && MinSize(i) <= s
    ensures var r := TreeIndexFrom(s, i); MinSize(r) <= s && (r < NBINS - 1 ==> s < MinSize(r + 1))
    decreases NBINS - i
  {
    hide MinSize;
    if i < NBINS - 1 && MinSize(i + 1) <= s {
      TreeIndexFromIs(s, i + 1);
    }
  }

  lemma FirstMinSize()
    ensures MinSize(0) == 256
  {
    assert Pow2(4) == 16 && Pow2(7) == 128;
  }

  /** The tree bin of a chunk of `s` bytes; sizes too small for a tree bin all go to bin 0. */
  function TreeIndex(s: int): (r: nat)
    ensures r < NBINS
    ensures s >= MIN_LARGE_SIZE ==> MinSize(r) <= s && (r < NBINS - 1 ==> s < MinSize(r + 1))
  {
    if s < MIN_LARGE_SIZE then 0 else
      FirstMinSize();
      TreeIndexFromIs(s, 0);
      TreeIndexFrom(s, 0)
  }

  lemma {:induction false} MinSizeMonotone(i: nat, j: nat)
    requires i <= j
    ensures MinSize(i) <= MinSize(j)
  {
    if i < j {
      MinSizeMonotone(i, j - 1);
      MinSizeStep(j - 1);
    }
  }

  /** The bin is determined by the size range alone. */
  lemma TreeIndexUnique(s: int, i: nat)
    requires s >= MIN_LARGE_SIZE && i < NBINS
    requires MinSize(i) <= s && (i < NBINS - 1 ==> s < MinSize(i + 1))
    ensures TreeIndex(s) == i
  {
    hide MinSize, TreeIndex, Pow2;
    var r := TreeIndex(s);
    if r < i {
      MinSizeMonotone(r + 1, i);
    } else if i < r {
      MinSizeMonotone(i + 1, r);
    }
  }

  /** Every size in a higher bin is larger than every size in a lower one. */
  lemma HigherBinLargerSize(s: int, s': int)
    requires s >= MIN_LARGE_SIZE && s' >= MIN_LARGE_SIZE && TreeIndex(s) < TreeIndex(s')
    ensures s < s'
  {
    MinSizeMonotone(TreeIndex(s) + 1, TreeIndex(s'));
  }

  /** The sizes of bin `i` lie in `[BinLow(i), BinLow(i) + 2^BinWidth(i))`; the last bin is open ended. */
  function BinLow(i: nat): int {
    if i == NBINS - 1 then 0 else MinSize(i)
  }

  function BinWidth(i: nat): nat {
    if i == NBINS - 1 then 32 else i / 2 + 7
  }

  lemma BinInterval(s: int)
    requires MIN_LARGE_SIZE <= s < WORD
    ensures var i := TreeIndex(s); BinLow(i) <= s < BinLow(i) + Pow2(BinWidth(i))
  {
    hide Pow2, MinSize, TreeIndex;
    Pow2Word();
    MinSizeStep(TreeIndex(s));
  }

  /** The shift that puts the bit deciding the root's children into the sign bit. */
  function LeftShift(i: nat): nat
    requires i < NBINS
  {
    if i == NBINS - 1 then 0 else 25 - i / 2
  }

  /** After the shift, modulo the word size, a size of bin `i` is its scaled offset into the bin. */
  lemma ShiftedSize(i: nat, s: int)
    requires i < NBINS && BinLow(i) <= s < BinLow(i) + Pow2(BinWidth(i))
    ensures BinWidth(i) <= 32 && LeftShift(i) == 32 - BinWidth(i)
    ensures s * Pow2(LeftShift(i)) % WORD == (s - BinLow(i)) * Pow2(32 - BinWidth(i))
  {
    hide Pow2;
    var w, l := BinWidth(i), LeftShift(i);
    Pow2Sum(w, l);
    Pow2Word();
    ShiftedOffset(BinLow(i), Pow2(w), Pow2(l), if i == NBINS - 1 then 0 else 2 + i % 2, s);
  }

  lemma ShiftedOffset(low: int, width: int, m: int, q: int, s: int)
    requires low == q * width && width * m == WORD && low <= s < low + width && width > 0 && m > 0
    ensures s * m % WORD == (s - low) * m
  {
    Reassociate(q, width, m);
    assert low * m == q * WORD;
    Scale(s - low, width, m);
    Distribute(s, low, m);
    ModOffset(s * m, q, (s - low) * m);
  }

  lemma Reassociate(a: int, b: int, c: int)
    ensures a * b * c == a * (b * c)
  {}

  lemma Distribute(a: int, b: int, m: int)
    ensures a * m == b * m + (a - b) * m
  {}

  lemma Scale(a: int, b: int, m: int)
    requires 0 <= a < b && m > 0
    ensures 0 <= a * m < b * m
  {}

  lemma ModOffset(x: int, q: int, r: int)
    requires x == q * WORD + r && 0 <= r < WORD
    ensures x % WORD == r
  {}

  /** Doubling a scaled offset modulo the word size drops the half it lies in. */
  lemma Halves(d: int, h: int, m: int)
    requires m > 0 && h * m == 0x8000_0000 && 0 <= d < h + h
    ensures 0 <= d * m < WORD
    ensures d * m >= 0x8000_0000 <==> d >= h
    ensures d * m * 2 % WORD == (if d >= h then d - h else d) * (m + m)
  {
    var r := if d >= h then d - h else d;
    Scale(r, h, m);
    Distribute(d, h, m);
    assert r * (m + m) == 2 * (r * m);
    ModOffset(d * m * 2, if d >= h then 1 else 0, r * (m + m));
  }

  /** One step of the bit walk: the sign bit of the shifted size tells which half of the interval the
      size is in, and shifting left once more rescales it to that half. */
  lemma BitWalkStep(k: int, d: int, e: nat)
    requires 1 <= e <= 32 && 0 <= d < Pow2(e) && k == d * Pow2(32 - e)
    ensures 0 <= k < WORD
    ensures k >= 0x8000_0000 <==> d >= Pow2(e - 1)
    ensures k * 2 % WORD == (if d >= Pow2(e - 1) then d - Pow2(e - 1) else d) * Pow2(32 - (e - 1))
  {
    var m := Pow2(32 - e);
    Pow2Sum(e - 1, 32 - e);
    Pow2Word();
    assert Pow2(32 - (e - 1)) == 2 * m;
    Halves(d, Pow2(e - 1), m);
  }
}
