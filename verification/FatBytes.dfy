/** The volume as one string of bytes: where in it the data area, the clusters of a file, the entries of the table and
    the fields of directory entries lie, and that numbers are little-endian. */
module FatBytes {
  import opened FatDisk
  import opened FatChains
  import opened FatData

  /** The bytes of the sectors, one behind the other */
  ghost function Flat(d: Disk): seq<int> {
    if d == [] then [] else d[0] + Flat(d[1..])
  }

  ghost predicate SectorsOf(d: Disk, b: nat) {
    forall l {:trigger d[l]} :: 0 <= l < |d| ==> |d[l]| == b
  }

  lemma {:induction false} FlatAt(d: Disk, b: nat, l: nat, i: nat)
    requires SectorsOf(d, b)
    ensures |Flat(d)| == |d| * b
    ensures l < |d| && i < b ==> 0 <= l * b && l * b + i < |Flat(d)| && Flat(d)[l * b + i] == d[l][i]
  {
    if d != [] {
      var rest := d[1..];
      assert SectorsOf(rest, b) by {
        assert forall k :: 0 <= k < |rest| ==> rest[k] == d[k + 1];
      }
      FlatAt(rest, b, if l == 0 then 0 else l - 1, i);
      MulNext(|rest|, b);
      if l > 0 {
        MulNext(l - 1, b);
        MulOrder(0, l - 1, b);
      }
    }
  }

  lemma FlatOfDisk(g: Geometry, d: Disk)
    requires GeometryOk(g) && DiskOk(g, d)
    ensures SectorsOf(d, g.bytesPerSector) && |Flat(d)| == |d| * g.bytesPerSector
  {
    forall l | 0 <= l < |d|
      ensures |d[l]| == g.bytesPerSector
    {
      assert SectorOk(g, d[l]);
    }
    FlatAt(d, g.bytesPerSector, 0, 0);
  }

  lemma FlatOfSector(g: Geometry, d: Disk, l: nat, i: nat)
    requires GeometryOk(g) && DiskOk(g, d) && l < |d| && i < g.bytesPerSector
    ensures |d[l]| == g.bytesPerSector && 0 <= l * g.bytesPerSector
    ensures l * g.bytesPerSector + i < |Flat(d)| && Flat(d)[l * g.bytesPerSector + i] == d[l][i]
  {
    FlatOfDisk(g, d);
    FlatAt(d, g.bytesPerSector, l, i);
  }

  /** The number in `n` bytes from `p` on, the least significant byte first */
  function Number(s: seq<int>, p: nat, n: nat): int
    requires p + n <= |s|
    decreases n
  {
    if n == 0 then 0 else s[p] + 256 * Number(s, p + 1, n - 1)
  }

  lemma {:induction false} SameNumber(s: seq<int>, p: nat, t: seq<int>, q: nat, n: nat)
    requires p + n <= |s| && q + n <= |t| && s[p..p + n] == t[q..q + n]
    ensures Number(s, p, n) == Number(t, q, n)
    decreases n
  {
    if n > 0 {
      var x, y := s[p..p + n], t[q..q + n];
      assert x[0] == s[p] && y[0] == t[q];
      assert s[p + 1..p + n] == x[1..] && t[q + 1..q + n] == y[1..];
      SameNumber(s, p + 1, t, q + 1, n - 1);
    }
  }

  lemma WordIsNumber(s: Sector, p: nat)
    requires p + 4 <= |s|
    ensures Word(s, p) == Number(s, p, 4)
  {
    assert Number(s, p + 3, 1) == s[p + 3] + 256 * Number(s, p + 4, 0);
    assert Number(s, p + 2, 2) == s[p + 2] + 256 * s[p + 3];
    assert Number(s, p + 1, 3) == s[p + 1] + 256 * (s[p + 2] + 256 * s[p + 3]);
  }

  lemma HalfIsNumber(s: Sector, p: nat)
    requires p + 2 <= |s|
    ensures Half(s, p) == Number(s, p, 2)
  {
    assert Number(s, p + 1, 1) == s[p + 1] + 256 * Number(s, p + 2, 0);
  }

  lemma FlatSector(g: Geometry, d: Disk, l: nat)
    requires GeometryOk(g) && DiskOk(g, d) && l < |d|
    ensures var at := l * g.bytesPerSector;
      0 <= at && at + g.bytesPerSector <= |Flat(d)| && Flat(d)[at..at + g.bytesPerSector] == d[l]
  {
    var b, at := g.bytesPerSector, l * g.bytesPerSector;
    FlatOfSector(g, d, l, b - 1);
    forall i | 0 <= i < b
      ensures Flat(d)[at..at + b][i] == d[l][i]
    {
      FlatOfSector(g, d, l, i);
    }
  }

  /** A number inside a sector is one of the volume. */
  lemma NumberOfSector(g: Geometry, d: Disk, l: nat, p: nat, n: nat)
    requires GeometryOk(g) && DiskOk(g, d) && l < |d| && p + n <= g.bytesPerSector && 0 < n
    ensures |d[l]| == g.bytesPerSector && 0 <= l * g.bytesPerSector && l * g.bytesPerSector + p + n <= |Flat(d)|
    ensures Number(Flat(d), l * g.bytesPerSector + p, n) == Number(d[l], p, n)
  {
    hide Number;
    FlatOfSector(g, d, l, p);
    FlatSector(g, d, l);
    InSlice(Flat(d), l * g.bytesPerSector, g.bytesPerSector, p, n);
    SameNumber(Flat(d), l * g.bytesPerSector + p, d[l], p, n);
  }

  lemma InSlice(s: seq<int>, at: nat, b: nat, p: nat, n: nat)
    requires at + b <= |s| && p + n <= b
    ensures s[at + p..at + p + n] == s[at..at + b][p..p + n]
  {
    var x := s[at..at + b];
    assert forall i :: p <= i < p + n ==> x[i] == s[at + i];
  }

  // ---------------------------------------------------------------- the table

  /** Where the entry of cluster `c` in copy `k` lies */
  function EntryByte(g: Geometry, k: int, c: int): int {
    (g.fatStart + k * g.fatSize) * g.bytesPerSector + 4 * c
  }

  lemma EntryPlaceFlat(g: Geometry, k: int, c: int)
    requires GeometryOk(g) && 0 <= k < g.fatCount && 0 <= c < g.totalClusters
    ensures 0 <= EntryLba(g, k, c) < DiskSize(g)
    ensures EntryLba(g, k, c) * g.bytesPerSector + EntryPos(g, c) == EntryByte(g, k, c)
  {
    EntryIn(g, k, c);
    var b, first := g.bytesPerSector, g.fatStart + k * g.fatSize;
    DivMod(4 * c, b);
    SumTimes(first, 4 * c / b, b);
  }

  lemma SumTimes(x: int, y: int, z: int)
    ensures (x + y) * z == x * z + y * z && y * z == z * y
  {}

  /** An entry of the table is the lower 28 bits of its 32-bit number. */
  lemma EntryIsNumber(g: Geometry, d: Disk, k: int, c: int)
    requires GeometryOk(g) && DiskOk(g, d) && 0 <= k < g.fatCount && 0 <= c < g.totalClusters
    ensures 0 <= EntryByte(g, k, c) && EntryByte(g, k, c) + 4 <= |Flat(d)|
    ensures Entry(g, d, k, c) == Number(Flat(d), EntryByte(g, k, c), 4) % 0x1000_0000
  {
    EntryPlace(g, k, c);
    EntryPlaceFlat(g, k, c);
    NumberOfSector(g, d, EntryLba(g, k, c), EntryPos(g, c), 4);
    WordIsNumber(d[EntryLba(g, k, c)], EntryPos(g, c));
  }

  /** Writing it changes those 28 bits, and no other bits of the volume. */
  lemma EntryStoredFlat(g: Geometry, d: Disk, k: int, c: int, v: int)
    requires GeometryOk(g) && DiskOk(g, d) && 0 <= k < g.fatCount && 0 <= c < g.totalClusters && 0 <= v < 0x1000_0000
    ensures var d', at := WithEntry(g, d, k, c, v), EntryByte(g, k, c);
      && |Flat(d')| == |Flat(d)| && 0 <= at && at + 4 <= |Flat(d)|
      && Number(Flat(d'), at, 4) / 0x1000_0000 == Number(Flat(d), at, 4) / 0x1000_0000
      && Number(Flat(d'), at, 4) % 0x1000_0000 == v
      && forall i :: 0 <= i < |Flat(d)| && !(at <= i < at + 4) ==> Flat(d')[i] == Flat(d)[i]
  {
    var l, p := EntryLba(g, k, c), EntryPos(g, c);
    EntryIn(g, k, c);
    EntryPlaceFlat(g, k, c);
    WordPut(g, d, l, p, v);
    hide Word, PutWord, NewWord, Number, EntryLba, EntryPos, EntryByte, Flat, GeometryOk, DiskSize;
  }

  /** The same for any word of the volume */
  lemma WordPut(g: Geometry, d: Disk, l: nat, p: nat, v: int)
    requires GeometryOk(g) && DiskOk(g, d) && l < |d| && p + 4 <= g.bytesPerSector && 0 <= v < 0x1000_0000
    ensures |d[l]| == g.bytesPerSector && 0 <= l * g.bytesPerSector
    ensures var d', at := d[l := PutWord(d[l], p, NewWord(Word(d[l], p), v))], l * g.bytesPerSector + p;
      && |Flat(d')| == |Flat(d)| && at + 4 <= |Flat(d)|
      && Number(Flat(d'), at, 4) / 0x1000_0000 == Number(Flat(d), at, 4) / 0x1000_0000
      && Number(Flat(d'), at, 4) % 0x1000_0000 == v
      && forall i :: 0 <= i < |Flat(d)| && !(at <= i < at + 4) ==> Flat(d')[i] == Flat(d)[i]
  {
    assert SectorOk(g, d[l]);
    var w := Word(d[l], p);
    var s' := PutWord(d[l], p, NewWord(w, v));
    WordRange(g, d[l], p);
    NewWordEntry(w, v);
    WordStored(g, d[l], p, NewWord(w, v));
    WordBytes(d[l], p, NewWord(w, v));
    WordIsNumber(d[l], p);
    WordIsNumber(s', p);
    hide Word, PutWord, NewWord, Number, Flat;
    var d' := d[l := s'];
    assert DiskOk(g, d');
    NumberOfSector(g, d, l, p, 4);
    NumberOfSector(g, d', l, p, 4);
    hide GeometryOk, DiskOk;
    FlatChanged(g, d, d', l, p, 4);
  }

  /** When some bytes of one sector change, the same bytes of the volume do. */
  lemma FlatChanged(g: Geometry, d: Disk, d': Disk, l: nat, p: nat, n: nat)
    requires GeometryOk(g) && DiskOk(g, d) && DiskOk(g, d') && |d'| == |d| && l < |d| && p + n <= g.bytesPerSector
    requires forall k :: 0 <= k < |d| && k != l ==> d'[k] == d[k]
    requires |d[l]| == |d'[l]| && forall i :: 0 <= i < |d[l]| && !(p <= i < p + n) ==> d'[l][i] == d[l][i]
    ensures var at := l * g.bytesPerSector + p;
      |Flat(d')| == |Flat(d)| && forall i :: 0 <= i < |Flat(d)| && !(at <= i < at + n) ==> Flat(d')[i] == Flat(d)[i]
  {
    var b, at := g.bytesPerSector, l * g.bytesPerSector + p;
    FlatOfDisk(g, d);
    FlatOfDisk(g, d');
    hide GeometryOk, DiskOk, Flat, SectorsOf;
    forall i | 0 <= i < |Flat(d)| && !(at <= i < at + n)
      ensures Flat(d')[i] == Flat(d)[i]
    {
      var k, r := PlaceOf(i, b, |d|);
      FlatOfSector(g, d, k, r);
      FlatOfSector(g, d', k, r);
    }
  }

  lemma PlaceOf(i: int, b: nat, n: nat) returns (k: nat, r: nat)
    requires 0 <= i < n * b && b > 0
    ensures k < n && r < b && k * b + r == i
  {
    k, r := i / b, i % b;
    DivMod(i, b);
    QuotientBelow(i, b, n);
  }

  // ---------------------------------------------------------------- the data area

  /** The clusters of the volume, in the order of their numbers */
  function AllClusters(g: Geometry): seq<int>
    requires g.totalClusters >= 2
  {
    seq(g.totalClusters - 2, i => i + 2)
  }

  /** They are the data area. */
  lemma DataArea(g: Geometry, d: Disk)
    requires GeometryOk(g) && DiskOk(g, d)
    ensures 0 <= g.dataStart <= DiskSize(g) <= |d| && ClustersOk(g, AllClusters(g))
    ensures Blocks(g, d, AllClusters(g)) == d[g.dataStart..DiskSize(g)]
  {
    var cs := AllClusters(g);
    EntryOnDisk(g);
    MulOrder(0, g.fatCount, g.fatSize);
    forall j | 0 <= j < Sectors(g, cs)
      ensures Blocks(g, d, cs)[j] == d[g.dataStart + j]
    {
      SectorInside(g, cs, j);
      DivMod(j, g.sectorsPerCluster);
      SumTimes(0, j / g.sectorsPerCluster, g.sectorsPerCluster);
    }
  }

  /** Where the `i`-th byte of a chain lies on the volume: clusters are numbered from two on, and lie one behind the
      other in the data area. */
  function ByteAt(g: Geometry, cs: seq<int>, i: int): int
    requires ClusterBytes(g) > 0 && 0 <= i && 0 <= i / ClusterBytes(g) < |cs|
  {
    g.dataStart * g.bytesPerSector + (cs[i / ClusterBytes(g)] - 2) * ClusterBytes(g) + i % ClusterBytes(g)
  }

  /** There it is. */
  lemma ContentFlat(g: Geometry, d: Disk, cs: seq<int>, i: int)
    requires GeometryOk(g) && DiskOk(g, d) && ClustersOk(g, cs) && 0 <= i < Capacity(g, cs)
    ensures ClusterBytes(g) > 0 && 0 <= i / ClusterBytes(g) < |cs| && 0 <= ByteAt(g, cs, i) < |Flat(d)|
    ensures Content(g, d, cs)[i] == Flat(d)[ByteAt(g, cs, i)]
  {
    var b, s, j := g.bytesPerSector, g.sectorsPerCluster, i / g.bytesPerSector;
    PositiveCluster(g);
    CapacityInSectors(g, cs);
    QuotientBelow(i, b, Sectors(g, cs));
    DivMod(i, b);
    SectorInside(g, cs, j);
    EntryOnDisk(g);
    MulOrder(0, g.fatCount, g.fatSize);
    ByteInSector(g, i);
    var lba, c := SectorLba(g, cs, j), cs[j / s];
    FlatOfSector(g, d, lba, i % b);
    DivMod(i % ClusterBytes(g), b);
    SumTimes(g.dataStart + (c - 2) * s, j % s, b);
    SumTimes(g.dataStart, (c - 2) * s, b);
    Grouped(c - 2, s, b);
  }

  /** Byte `x` is where the clusters of `cs` have their `i`-th. */
  ghost predicate ByteOnVolume(g: Geometry, d: Disk, cs: seq<int>, i: int, x: int) {
    && ClusterBytes(g) > 0 && 0 <= i && 0 <= i / ClusterBytes(g) < |cs|
    && 0 <= ByteAt(g, cs, i) < |Flat(d)| && x == Flat(d)[ByteAt(g, cs, i)]
  }

  /** The bytes `s` are where the clusters have those from `p` on. */
  ghost predicate OnVolume(g: Geometry, d: Disk, cs: seq<int>, p: int, s: seq<int>) {
    forall i {:trigger s[i]} :: 0 <= i < |s| ==> ByteOnVolume(g, d, cs, p + i, s[i])
  }

  lemma ContentOnVolume(g: Geometry, d: Disk, cs: seq<int>, p: int, s: seq<int>)
    requires GeometryOk(g) && DiskOk(g, d) && ClustersOk(g, cs) && 0 <= p && p + |s| <= Capacity(g, cs)
    requires forall i {:trigger s[i]} :: 0 <= i < |s| ==> s[i] == Content(g, d, cs)[p + i]
    ensures OnVolume(g, d, cs, p, s)
  {
    hide GeometryOk, DiskOk, ClustersOk, Flat, Content, Capacity, ByteOnVolume;
    forall i | 0 <= i < |s|
      ensures ByteOnVolume(g, d, cs, p + i, s[i])
    {
      ByteFound(g, d, cs, p + i, s[i]);
    }
  }

  lemma ByteFound(g: Geometry, d: Disk, cs: seq<int>, i: int, x: int)
    requires GeometryOk(g) && DiskOk(g, d) && ClustersOk(g, cs) && 0 <= i < Capacity(g, cs) && x == Content(g, d, cs)[i]
    ensures ByteOnVolume(g, d, cs, i, x)
  {
    hide Flat, Content, ByteAt, DiskOk, ClustersOk, GeometryOk;
    ContentFlat(g, d, cs, i);
  }

  lemma Grouped(x: int, y: int, z: int)
    ensures x * y * z == x * (y * z)
  {}

  // ---------------------------------------------------------------- directory entries

  /** The fields of the entry at sector `l`, offset `off`, as numbers on the volume: the upper and lower half of the
      first cluster at 20 and 26, and the size at 28. */
  lemma DirentIsNumbers(g: Geometry, d: Disk, l: int, off: int)
    requires GeometryOk(g) && DiskOk(g, d) && 0 <= l < |d| && 0 <= off && off + 32 <= g.bytesPerSector
    ensures |d[l]| == g.bytesPerSector && 0 <= l * g.bytesPerSector
    ensures var at := l * g.bytesPerSector + off;
      && at + 32 <= |Flat(d)|
      && DirentFirst(d[l], off) == 0x1_0000 * Number(Flat(d), at + 20, 2) + Number(Flat(d), at + 26, 2)
      && DirentSize(d[l], off) == Number(Flat(d), at + 28, 4)
  {
    hide Number, Flat, Half, Word, GeometryOk, DiskOk;
    NumberOfSector(g, d, l, off + 20, 2);
    NumberOfSector(g, d, l, off + 26, 2);
    NumberOfSector(g, d, l, off + 28, 4);
    HalfIsNumber(d[l], off + 20);
    HalfIsNumber(d[l], off + 26);
    WordIsNumber(d[l], off + 28);
  }

  /** Updating an entry changes those eight bytes only. */
  lemma DirentStoredFlat(g: Geometry, d: Disk, l: int, off: int, size: int, first: int)
    requires GeometryOk(g) && DiskOk(g, d) && 0 <= l < |d| && 0 <= off && off + 32 <= g.bytesPerSector
    requires 0 <= size < 0x1_0000_0000 && 0 <= first < 0x1_0000_0000
    ensures |d[l]| == g.bytesPerSector && 0 <= l * g.bytesPerSector
    ensures var d', at := d[l := WithDirent(d[l], off, size, first)], l * g.bytesPerSector + off;
      && |Flat(d')| == |Flat(d)| && at + 32 <= |Flat(d)|
      && 0x1_0000 * Number(Flat(d'), at + 20, 2) + Number(Flat(d'), at + 26, 2) == first
      && Number(Flat(d'), at + 28, 4) == size
      && forall i :: 0 <= i < |Flat(d)| && !(at + 20 <= i < at + 22) && !(at + 26 <= i < at + 32) ==> Flat(d')[i] == Flat(d)[i]
  {
    hide Half, Word, Number, DirentFirst, DirentSize, Flat, WithDirent;
    FlatOfSector(g, d, l, off);
    var s := d[l];
    var s' := WithDirent(s, off, size, first);
    var d' := d[l := s'];
    assert SectorOk(g, s);
    DirentWritten(g, s, off, size, first);
    assert DiskOk(g, d');
    DirentIsNumbers(g, d', l, off);
    DatesKept(g, s, off, size, first);
    var at := l * g.bytesPerSector;
    FlatChanged(g, d, d', l, off + 20, 12);
    FlatSector(g, d, l);
    FlatSector(g, d', l);
    SliceKept(Flat(d), Flat(d'), s, s', at, off + 22, off + 26);
  }

  lemma SliceKept(s: seq<int>, t: seq<int>, x: seq<int>, y: seq<int>, at: nat, lo: nat, hi: nat)
    requires at + |x| <= |s| == |t| && |x| == |y| && s[at..at + |x|] == x && t[at..at + |y|] == y && hi <= |x|
    requires forall i :: lo <= i < hi ==> y[i] == x[i]
    ensures forall i :: at + lo <= i < at + hi ==> t[i] == s[i]
  {
    forall i | at + lo <= i < at + hi
      ensures t[i] == s[i]
    {
      assert x[i - at] == y[i - at];
    }
  }

  lemma DatesKept(g: Geometry, s: Sector, off: int, size: int, first: int)
    requires SectorOk(g, s) && 0 <= off && off + 32 <= |s| && 0 <= size < 0x1_0000_0000 && 0 <= first < 0x1_0000_0000
    ensures |WithDirent(s, off, size, first)| == |s|
    ensures forall i :: off + 22 <= i < off + 26 ==> WithDirent(s, off, size, first)[i] == s[i]
  {
    WordStored(g, s, off + 28, size);
    WordBytes(s, off + 28, size);
    var s1 := PutWord(s, off + 28, size);
    HalfStored(g, s1, off + 20, first / 0x1_0000);
    var s2 := PutHalf(s1, off + 20, first / 0x1_0000);
    HalfStored(g, s2, off + 26, first % 0x1_0000);
    hide PutWord, PutHalf;
    assert forall i :: off + 22 <= i < off + 26 ==> s1[i] == s[i] && s2[i] == s1[i];
  }
}
