/** The volume as bytes: sectors, the copies of the file allocation table, and where clusters and
    directory entries lie. */
module FatDisk {
  const EOC := 0x0fff_fff8
  const ENTRY_LIMIT := 0x1000_0000

  type Sector = seq<int>
  type Disk = seq<Sector>

  /** What `mount` reads from the boot sector.  Sizes are powers of two in the original, which shifts and
      masks; here they are divided by. */
  datatype Geometry = Geometry(
    fatStart: int, fatSize: int, fatCount: int, dataStart: int,
    bytesPerSector: int, sectorsPerCluster: int, totalClusters: int)

  predicate GeometryOk(g: Geometry) {
    && 0 < g.fatStart && 0 < g.fatSize && 0 < g.fatCount && g.dataStart == g.fatStart + g.fatCount * g.fatSize
    && 32 <= g.bytesPerSector && g.bytesPerSector % 32 == 0 && 0 < g.sectorsPerCluster
    && 2 <= g.totalClusters <= EOC && 4 * g.totalClusters <= g.fatSize * g.bytesPerSector
  }

  /** One past the last sector of the clusters in use. */
  function DiskSize(g: Geometry): int {
    g.dataStart + (g.totalClusters - 2) * g.sectorsPerCluster
  }

  /** `cluster_size` */
  function ClusterBytes(g: Geometry): int { g.sectorsPerCluster * g.bytesPerSector }

  lemma PositiveCluster(g: Geometry)
    requires GeometryOk(g)
    ensures ClusterBytes(g) >= g.bytesPerSector > 0
  {
    MulOrder(1, g.sectorsPerCluster, g.bytesPerSector);
  }

  /** `bytes_to_sectors` and `bytes_to_clusters`; masking with the sector and the cluster size minus one. */
  function BytesToSectors(g: Geometry, bytes: int): int
    requires g.bytesPerSector > 0
  {
    bytes / g.bytesPerSector
  }

  function BytesToClusters(g: Geometry, bytes: int): int
    requires ClusterBytes(g) > 0
  {
    bytes / ClusterBytes(g)
  }

  function InSector(g: Geometry, bytes: int): int
    requires g.bytesPerSector > 0
  {
    bytes % g.bytesPerSector
  }

  function InCluster(g: Geometry, bytes: int): int
    requires ClusterBytes(g) > 0
  {
    bytes % ClusterBytes(g)
  }

  predicate DiskOk(g: Geometry, d: Disk) {
    DiskSize(g) <= |d| && forall l {:trigger d[l]} :: 0 <= l < |d| ==> SectorOk(g, d[l])
  }

  predicate SectorOk(g: Geometry, s: Sector) {
    |s| == g.bytesPerSector && forall i :: 0 <= i < |s| ==> 0 <= s[i] < 256
  }

  lemma SectorLength(g: Geometry, s: Sector)
    requires SectorOk(g, s)
    ensures |s| == g.bytesPerSector
  {}

  // ---------------------------------------------------------------- 32-bit words in little-endian bytes

  function Word(s: Sector, p: int): int
    requires 0 <= p && p + 4 <= |s|
  {
    s[p] + 0x100 * s[p + 1] + 0x1_0000 * s[p + 2] + 0x100_0000 * s[p + 3]
  }

  function PutWord(s: Sector, p: int, w: int): Sector
    requires 0 <= p && p + 4 <= |s|
  {
    s[p := w % 0x100][p + 1 := w / 0x100 % 0x100][p + 2 := w / 0x1_0000 % 0x100][p + 3 := w / 0x100_0000 % 0x100]
  }

  lemma WordDigits(w: int)
    requires 0 <= w < 0x1_0000_0000
    ensures w == w % 0x100 + 0x100 * (w / 0x100 % 0x100) + 0x1_0000 * (w / 0x1_0000 % 0x100)
                 + 0x100_0000 * (w / 0x100_0000 % 0x100)
  {
    assert w / 0x1_0000 == w / 0x100 / 0x100;
    assert w / 0x100_0000 == w / 0x1_0000 / 0x100;
  }

  lemma WordStored(g: Geometry, s: Sector, p: int, w: int)
    requires SectorOk(g, s) && 0 <= p && p + 4 <= |s| && 0 <= w < 0x1_0000_0000
    ensures SectorOk(g, PutWord(s, p, w)) && Word(PutWord(s, p, w), p) == w
    ensures forall q :: 0 <= q && q + 4 <= |s| && (q + 4 <= p || p + 4 <= q) ==> Word(PutWord(s, p, w), q) == Word(s, q)
  {
    WordDigits(w);
  }

  lemma WordRange(g: Geometry, s: Sector, p: int)
    requires SectorOk(g, s) && 0 <= p && p + 4 <= |s|
    ensures 0 <= Word(s, p) < 0x1_0000_0000
  {}

  // ---------------------------------------------------------------- the copies of the table

  function EntryLba(g: Geometry, k: int, c: int): int
    requires g.bytesPerSector > 0
  {
    g.fatStart + k * g.fatSize + 4 * c / g.bytesPerSector
  }

  function EntryPos(g: Geometry, c: int): int
    requires g.bytesPerSector > 0
  {
    4 * c % g.bytesPerSector
  }

  lemma EntryPlace(g: Geometry, k: int, c: int)
    requires GeometryOk(g) && 0 <= k < g.fatCount && 0 <= c < g.totalClusters
    ensures g.fatStart + k * g.fatSize <= EntryLba(g, k, c) < g.fatStart + (k + 1) * g.fatSize <= g.dataStart
    ensures 0 <= EntryPos(g, c) && EntryPos(g, c) % 4 == 0 && EntryPos(g, c) + 4 <= g.bytesPerSector
  {
    var b := g.bytesPerSector;
    DivMod(4 * c, b);
    Positions(4 * c / b, 4 * c % b, b, c);
    QuotientBelow(4 * c, b, g.fatSize);
    MulOrder(k + 1, g.fatCount, g.fatSize);
    assert (k + 1) * g.fatSize == k * g.fatSize + g.fatSize;
  }

  lemma DivMod(x: int, b: int)
    requires b > 0 && x >= 0
    ensures x == b * (x / b) + x % b && 0 <= x % b < b && x / b >= 0
  {}

  lemma Positions(q: int, r: int, b: int, c: int)
    requires b % 32 == 0 && 0 <= r < b && 4 * c == b * q + r
    ensures r % 4 == 0 && r + 4 <= b
  {
    var b' := b / 4;
    assert b == 4 * b' && b * q == 4 * (b' * q);
    assert r == 4 * (c - b' * q);
  }

  lemma QuotientBelow(x: int, b: int, n: int)
    requires b > 0 && 0 <= x < n * b
    ensures x / b < n
  {
    DivMod(x, b);
    if n <= x / b {
      MulOrder(n, x / b, b);
    }
  }

  lemma MulOrder(x: int, y: int, z: int)
    requires x <= y && 0 <= z
    ensures x * z <= y * z
  {}

  /** The entry of cluster `c` in copy `k`. */
  function Entry(g: Geometry, d: Disk, k: int, c: int): int
    requires GeometryOk(g) && DiskOk(g, d) && 0 <= k < g.fatCount && 0 <= c < g.totalClusters
  {
    EntryPlace(g, k, c);
    EntryOnDisk(g);
    Word(d[EntryLba(g, k, c)], EntryPos(g, c)) % ENTRY_LIMIT
  }

  lemma EntryOnDisk(g: Geometry)
    requires GeometryOk(g)
    ensures g.dataStart <= DiskSize(g)
  {
    MulOrder(0, g.totalClusters - 2, g.sectorsPerCluster);
  }

  ghost function Copy(g: Geometry, d: Disk, k: int): (fat: seq<int>)
    requires GeometryOk(g) && DiskOk(g, d) && 0 <= k < g.fatCount
    ensures |fat| == g.totalClusters
  {
    seq(g.totalClusters, c requires 0 <= c < g.totalClusters => Entry(g, d, k, c))
  }

  /** Distinct entries have distinct places. */
  lemma EntriesApart(g: Geometry, k: int, c: int, k': int, c': int)
    requires GeometryOk(g) && 0 <= k < g.fatCount && 0 <= c < g.totalClusters
    requires 0 <= k' < g.fatCount && 0 <= c' < g.totalClusters
    requires EntryLba(g, k, c) == EntryLba(g, k', c') && (k != k' || c != c')
    ensures k == k'
    ensures EntryPos(g, c) + 4 <= EntryPos(g, c') || EntryPos(g, c') + 4 <= EntryPos(g, c)
  {
    EntryPlace(g, k, c);
    EntryPlace(g, k', c');
    if k < k' {
      MulOrder(k + 1, k', g.fatSize);
    } else if k' < k {
      MulOrder(k' + 1, k, g.fatSize);
    } else {
      DivMod(4 * c, g.bytesPerSector);
      DivMod(4 * c', g.bytesPerSector);
    }
  }

  /** The word `fat_set_single` writes: the top four bits stay. */
  function NewWord(w: int, v: int): int {
    w - w % ENTRY_LIMIT + v % ENTRY_LIMIT
  }

  lemma NewWordEntry(w: int, v: int)
    requires 0 <= w < 0x1_0000_0000 && 0 <= v < ENTRY_LIMIT
    ensures 0 <= NewWord(w, v) < 0x1_0000_0000 && NewWord(w, v) % ENTRY_LIMIT == v
    ensures NewWord(w, v) / ENTRY_LIMIT == w / ENTRY_LIMIT
  {
    var q := w / ENTRY_LIMIT;
    assert w == ENTRY_LIMIT * q + w % ENTRY_LIMIT && NewWord(w, v) == ENTRY_LIMIT * q + v;
  }

  function WithEntry(g: Geometry, d: Disk, k: int, c: int, v: int): Disk
    requires GeometryOk(g) && DiskOk(g, d) && 0 <= k < g.fatCount && 0 <= c < g.totalClusters
  {
    EntryPlace(g, k, c);
    EntryOnDisk(g);
    var l, p := EntryLba(g, k, c), EntryPos(g, c);
    d[l := PutWord(d[l], p, NewWord(Word(d[l], p), v))]
  }

  lemma SectorWritten(g: Geometry, d: Disk, k: int, c: int, v: int)
    requires GeometryOk(g) && DiskOk(g, d) && 0 <= k < g.fatCount && 0 <= c < g.totalClusters && 0 <= v < ENTRY_LIMIT
    ensures var d' := WithEntry(g, d, k, c, v);
      && DiskOk(g, d') && Entry(g, d', k, c) == v && |d'| == |d|
      && (forall l :: 0 <= l < |d| && (l < g.fatStart || g.dataStart <= l) ==> d'[l] == d[l])
  {
    var l, p := EntryLba(g, k, c), EntryPos(g, c);
    EntryPlace(g, k, c);
    EntryOnDisk(g);
    MulOrder(0, k, g.fatSize);
    var w := Word(d[l], p);
    WordRange(g, d[l], p);
    NewWordEntry(w, v);
    WordStored(g, d[l], p, NewWord(w, v));
  }

  lemma OtherEntry(g: Geometry, d: Disk, k: int, c: int, v: int, j: int, b: int)
    requires GeometryOk(g) && DiskOk(g, d) && 0 <= k < g.fatCount && 0 <= c < g.totalClusters && 0 <= v < ENTRY_LIMIT
    requires 0 <= j < g.fatCount && 0 <= b < g.totalClusters && (j != k || b != c)
    requires DiskOk(g, WithEntry(g, d, k, c, v))
    ensures Entry(g, WithEntry(g, d, k, c, v), j, b) == Entry(g, d, j, b)
  {
    hide GeometryOk, EntryLba, EntryPos, DiskSize, Word, PutWord, NewWord;
    EntryIn(g, k, c);
    EntryIn(g, j, b);
    if EntryLba(g, j, b) == EntryLba(g, k, c) {
      EntriesApart(g, k, c, j, b);
      OtherWord(g, d[EntryLba(g, k, c)], EntryPos(g, c), v, EntryPos(g, b));
    }
  }

  lemma EntryIn(g: Geometry, k: int, c: int)
    requires GeometryOk(g) && 0 <= k < g.fatCount && 0 <= c < g.totalClusters
    ensures g.bytesPerSector > 0 && 0 <= EntryLba(g, k, c) < DiskSize(g)
    ensures 0 <= EntryPos(g, c) && EntryPos(g, c) + 4 <= g.bytesPerSector
  {
    EntryPlace(g, k, c);
    EntryOnDisk(g);
    MulOrder(0, k, g.fatSize);
  }

  lemma OtherWord(g: Geometry, s: Sector, p: int, v: int, q: int)
    requires SectorOk(g, s) && 0 <= p && p + 4 <= |s| && 0 <= v < ENTRY_LIMIT
    requires 0 <= q && q + 4 <= |s| && (q + 4 <= p || p + 4 <= q)
    ensures Word(PutWord(s, p, NewWord(Word(s, p), v)), q) == Word(s, q)
  {
    WordRange(g, s, p);
    NewWordEntry(Word(s, p), v);
    WordStored(g, s, p, NewWord(Word(s, p), v));
  }

  /** Writing one entry of one copy changes exactly that. */
  lemma EntryWritten(g: Geometry, d: Disk, k: int, c: int, v: int)
    requires GeometryOk(g) && DiskOk(g, d) && 0 <= k < g.fatCount && 0 <= c < g.totalClusters && 0 <= v < ENTRY_LIMIT
    ensures var d' := WithEntry(g, d, k, c, v);
      && DiskOk(g, d') && Copy(g, d', k) == Copy(g, d, k)[c := v]
      && (forall j :: 0 <= j < g.fatCount && j != k ==> Copy(g, d', j) == Copy(g, d, j))
      && |d'| == |d| && (forall l :: 0 <= l < |d| && (l < g.fatStart || g.dataStart <= l) ==> d'[l] == d[l])
  {
    hide DiskOk, GeometryOk, Entry, WithEntry;
    SectorWritten(g, d, k, c, v);
    forall j, b | 0 <= j < g.fatCount && 0 <= b < g.totalClusters && (j != k || b != c)
      ensures Entry(g, WithEntry(g, d, k, c, v), j, b) == Entry(g, d, j, b)
    {
      OtherEntry(g, d, k, c, v, j, b);
    }
  }
}
