/** Where the bytes of a file lie: the sectors of the clusters of its chain, in order; and its directory
    entry, which lies in a sector of a directory's chain. */
module FatData {
  import opened FatDisk
  import opened FatChains

  // ---------------------------------------------------------------- sectors of chains

  /** `cluster_to_lba` */
  function ClusterLba(g: Geometry, c: int): int {
    g.dataStart + (c - 2) * g.sectorsPerCluster
  }

  /** The `j`-th sector of a chain. */
  function SectorLba(g: Geometry, cs: seq<int>, j: int): int
    requires g.sectorsPerCluster > 0 && 0 <= j && j / g.sectorsPerCluster < |cs|
  {
    ClusterLba(g, cs[j / g.sectorsPerCluster]) + j % g.sectorsPerCluster
  }

  ghost predicate ClustersOk(g: Geometry, cs: seq<int>) {
    forall i :: 0 <= i < |cs| ==> 2 <= cs[i] < g.totalClusters
  }

  lemma ClusterInside(g: Geometry, c: int, r: int)
    requires GeometryOk(g) && 2 <= c < g.totalClusters && 0 <= r < g.sectorsPerCluster
    ensures g.dataStart <= ClusterLba(g, c) + r < DiskSize(g)
  {
    MulOrder(0, c - 2, g.sectorsPerCluster);
    MulOrder(c - 1, g.totalClusters - 2 + 1, g.sectorsPerCluster);
    MulOrder(c - 2 + 1, g.totalClusters - 2, g.sectorsPerCluster);
    assert (c - 2 + 1) * g.sectorsPerCluster == (c - 2) * g.sectorsPerCluster + g.sectorsPerCluster;
  }

  lemma MulNext(x: int, y: int)
    ensures (x + 1) * y == x * y + y
  {}

  /** `cluster_to_lba` keeps clusters apart. */
  lemma ClusterSectorsApart(g: Geometry, c: int, r: int, c': int, r': int)
    requires GeometryOk(g) && 0 <= r < g.sectorsPerCluster && 0 <= r' < g.sectorsPerCluster
    requires ClusterLba(g, c) + r == ClusterLba(g, c') + r'
    ensures c == c' && r == r'
  {
    var s := g.sectorsPerCluster;
    MulNext(c - 2, s);
    MulNext(c' - 2, s);
    if c < c' {
      MulOrder(c - 2 + 1, c' - 2, s);
    } else if c' < c {
      MulOrder(c' - 2 + 1, c - 2, s);
    }
  }

  ghost predicate Distinct(cs: seq<int>) {
    forall i, j :: 0 <= i < j < |cs| ==> cs[i] != cs[j]
  }

  /** The number of sectors of a chain. */
  function Sectors(g: Geometry, cs: seq<int>): int { |cs| * g.sectorsPerCluster }

  lemma SectorInside(g: Geometry, cs: seq<int>, j: int)
    requires GeometryOk(g) && ClustersOk(g, cs) && 0 <= j < Sectors(g, cs)
    ensures 0 <= j / g.sectorsPerCluster < |cs| && g.dataStart <= SectorLba(g, cs, j) < DiskSize(g)
  {
    QuotientBelow(j, g.sectorsPerCluster, |cs|);
    DivMod(j, g.sectorsPerCluster);
    ClusterInside(g, cs[j / g.sectorsPerCluster], j % g.sectorsPerCluster);
  }

  ghost function BlockAt(g: Geometry, d: Disk, cs: seq<int>, j: int): (b: Sector)
    requires GeometryOk(g) && DiskOk(g, d) && ClustersOk(g, cs) && 0 <= j < Sectors(g, cs)
    ensures SectorOk(g, b)
  {
    SectorInside(g, cs, j);
    EntryOnDisk(g);
    d[SectorLba(g, cs, j)]
  }

  /** The sectors of a chain, as the device holds them. */
  ghost function Blocks(g: Geometry, d: Disk, cs: seq<int>): (b: seq<Sector>)
    requires GeometryOk(g) && DiskOk(g, d) && ClustersOk(g, cs)
    ensures |b| == Sectors(g, cs) && forall j :: 0 <= j < |b| ==> SectorOk(g, b[j])
  {
    MulOrder(0, |cs|, g.sectorsPerCluster);
    seq(Sectors(g, cs), j requires 0 <= j < Sectors(g, cs) => BlockAt(g, d, cs, j))
  }

  lemma BlocksFrame(g: Geometry, d: Disk, d': Disk, cs: seq<int>)
    requires GeometryOk(g) && DiskOk(g, d) && DiskOk(g, d') && ClustersOk(g, cs) && |d'| == |d|
    requires forall l :: 0 <= l < |d| && (l < g.fatStart || g.dataStart <= l) ==> d'[l] == d[l]
    ensures Blocks(g, d', cs) == Blocks(g, d, cs)
  {
    forall j | 0 <= j < Sectors(g, cs)
      ensures Blocks(g, d', cs)[j] == Blocks(g, d, cs)[j]
    {
      SectorInside(g, cs, j);
    }
  }

  /** Storing the `j`-th sector of a chain changes that block of it, */
  lemma BlockStored(g: Geometry, d: Disk, cs: seq<int>, j: int, s: Sector)
    requires GeometryOk(g) && DiskOk(g, d) && ClustersOk(g, cs) && 0 <= j < Sectors(g, cs) && SectorOk(g, s)
    requires Distinct(cs)
    ensures 0 <= j / g.sectorsPerCluster < |cs| && 0 <= SectorLba(g, cs, j) < |d|
    ensures var d' := d[SectorLba(g, cs, j) := s]; DiskOk(g, d') && Blocks(g, d', cs) == Blocks(g, d, cs)[j := s]
  {
    SectorInside(g, cs, j);
    EntryOnDisk(g);
    var l := SectorLba(g, cs, j);
    var d' := d[l := s];
    forall i | 0 <= i < Sectors(g, cs)
      ensures Blocks(g, d', cs)[i] == Blocks(g, d, cs)[j := s][i]
    {
      SectorInside(g, cs, i);
      if SectorLba(g, cs, i) == l {
        SamePlace(g, cs, cs, i, j);
      }
    }
  }

  lemma SamePlace(g: Geometry, cs: seq<int>, cs': seq<int>, i: int, j: int)
    requires GeometryOk(g) && ClustersOk(g, cs) && ClustersOk(g, cs') && 0 <= i < Sectors(g, cs) && 0 <= j < Sectors(g, cs')
    requires i / g.sectorsPerCluster < |cs| && j / g.sectorsPerCluster < |cs'|
    requires SectorLba(g, cs, i) == SectorLba(g, cs', j)
    ensures 0 <= i / g.sectorsPerCluster && 0 <= j / g.sectorsPerCluster
    ensures cs[i / g.sectorsPerCluster] == cs'[j / g.sectorsPerCluster] && i % g.sectorsPerCluster == j % g.sectorsPerCluster
    ensures i / g.sectorsPerCluster == j / g.sectorsPerCluster ==> i == j
  {
    DivMod(i, g.sectorsPerCluster);
    DivMod(j, g.sectorsPerCluster);
    ClusterSectorsApart(g, cs[i / g.sectorsPerCluster], i % g.sectorsPerCluster,
                        cs'[j / g.sectorsPerCluster], j % g.sectorsPerCluster);
  }

  /** and nothing of a chain that shares no cluster with it. */
  lemma BlockElsewhere(g: Geometry, d: Disk, cs: seq<int>, j: int, s: Sector, other: seq<int>)
    requires GeometryOk(g) && DiskOk(g, d) && ClustersOk(g, cs) && 0 <= j < Sectors(g, cs) && SectorOk(g, s)
    requires ClustersOk(g, other) && Apart(cs, other)
    ensures 0 <= j / g.sectorsPerCluster < |cs| && 0 <= SectorLba(g, cs, j) < |d|
    ensures var d' := d[SectorLba(g, cs, j) := s]; DiskOk(g, d') && Blocks(g, d', other) == Blocks(g, d, other)
  {
    SectorInside(g, cs, j);
    EntryOnDisk(g);
    var l := SectorLba(g, cs, j);
    var d' := d[l := s];
    assert cs[j / g.sectorsPerCluster] in cs;
    forall i | 0 <= i < Sectors(g, other)
      ensures Blocks(g, d', other)[i] == Blocks(g, d, other)[i]
    {
      SectorInside(g, other, i);
      if SectorLba(g, other, i) == l {
        SamePlace(g, other, cs, i, j);
      }
    }
  }

  /** Sectors of clusters are not sectors of the tables. */
  lemma BlockOutsideTables(g: Geometry, d: Disk, cs: seq<int>, j: int, s: Sector)
    requires GeometryOk(g) && DiskOk(g, d) && ClustersOk(g, cs) && 0 <= j < Sectors(g, cs) && SectorOk(g, s)
    ensures 0 <= j / g.sectorsPerCluster < |cs| && 0 <= SectorLba(g, cs, j) < |d|
    ensures var d' := d[SectorLba(g, cs, j) := s];
      DiskOk(g, d') && forall k :: 0 <= k < g.fatCount ==> Copy(g, d', k) == Copy(g, d, k)
  {
    SectorInside(g, cs, j);
    EntryOnDisk(g);
    var d' := d[SectorLba(g, cs, j) := s];
    hide SectorLba, Sectors, DiskSize, GeometryOk, SectorOk, ClustersOk, Entry;
    forall k, c | 0 <= k < g.fatCount && 0 <= c < g.totalClusters
      ensures Entry(g, d', k, c) == Entry(g, d, k, c)
    {
      EntryElsewhere(g, d, SectorLba(g, cs, j), s, k, c);
    }
  }

  lemma EntryElsewhere(g: Geometry, d: Disk, l: int, s: Sector, k: int, c: int)
    requires GeometryOk(g) && DiskOk(g, d) && 0 <= k < g.fatCount && 0 <= c < g.totalClusters
    requires g.dataStart <= l < |d| && DiskOk(g, d[l := s])
    ensures Entry(g, d[l := s], k, c) == Entry(g, d, k, c)
  {
    EntryPlace(g, k, c);
  }

  /** More clusters behind a chain do not change its first blocks. */
  lemma BlocksPrefix(g: Geometry, d: Disk, cs: seq<int>, cs': seq<int>)
    requires GeometryOk(g) && DiskOk(g, d) && ClustersOk(g, cs') && cs <= cs'
    ensures ClustersOk(g, cs) && Sectors(g, cs) <= Sectors(g, cs') && Blocks(g, d, cs) == Blocks(g, d, cs')[..Sectors(g, cs)]
  {
    assert forall i :: 0 <= i < |cs| ==> cs[i] == cs'[i];
    MulOrder(|cs|, |cs'|, g.sectorsPerCluster);
    forall j | 0 <= j < Sectors(g, cs)
      ensures Blocks(g, d, cs)[j] == Blocks(g, d, cs')[j]
    {
      SectorInside(g, cs, j);
    }
  }

  // ---------------------------------------------------------------- bytes of chains

  /** A byte position in terms of clusters is the same position in terms of sectors. */
  lemma ByteInSector(g: Geometry, i: int)
    requires GeometryOk(g) && i >= 0
    ensures ClusterBytes(g) > 0 && i / g.bytesPerSector >= 0
    ensures i / g.bytesPerSector / g.sectorsPerCluster == i / ClusterBytes(g)
    ensures i / g.bytesPerSector % g.sectorsPerCluster == i % ClusterBytes(g) / g.bytesPerSector
    ensures i % ClusterBytes(g) % g.bytesPerSector == i % g.bytesPerSector
  {
    var b, s := g.bytesPerSector, g.sectorsPerCluster;
    PositiveCluster(g);
    DivMod(i, b);
    DivMod(i / b, s);
    Nested(b, s, i, i / b, i % b, i / b / s, i / b % s);
  }

  lemma Nested(b: int, s: int, i: int, k: int, t: int, q: int, r: int)
    requires 0 < b && 0 < s && 0 < s * b && i == b * k + t && 0 <= t < b && k == s * q + r && 0 <= r < s
    ensures i / (s * b) == q && i % (s * b) / b == r && i % (s * b) % b == t
  {
    MulOrder(r + 1, s, b);
    MulNext(r, b);
    Splits(b, s, q, r, t);
    DivUnique(i, s * b, q, b * r + t);
    DivUnique(b * r + t, b, r, t);
  }

  lemma Splits(b: int, s: int, q: int, r: int, t: int)
    ensures b * (s * q + r) + t == s * b * q + (b * r + t)
  {
    calc {
      b * (s * q + r) + t;
      b * (s * q) + b * r + t;
      { assert b * (s * q) == s * b * q; }
      s * b * q + (b * r + t);
    }
  }

  lemma DivUnique(x: int, n: int, q: int, r: int)
    requires n > 0 && x == n * q + r && 0 <= r < n
    ensures x / n == q && x % n == r
  {
    DivModAny(x, n);
    MulNext(x / n, n);
    MulNext(q, n);
    if x / n < q {
      MulOrder(x / n + 1, q, n);
    } else if q < x / n {
      MulOrder(q + 1, x / n, n);
    }
  }

  lemma DivModAny(x: int, n: int)
    requires n > 0
    ensures x == n * (x / n) + x % n && 0 <= x % n < n
  {}

  /** The `i`-th byte of a run of blocks. */
  function Byte(g: Geometry, blocks: seq<Sector>, i: int): int
    requires g.bytesPerSector > 0 && 0 <= i && i / g.bytesPerSector < |blocks|
    requires forall j :: 0 <= j < |blocks| ==> SectorOk(g, blocks[j])
  {
    DivMod(i, g.bytesPerSector);
    assert SectorOk(g, blocks[i / g.bytesPerSector]);
    blocks[i / g.bytesPerSector][i % g.bytesPerSector]
  }

  /** The number of bytes of a chain. */
  function Capacity(g: Geometry, cs: seq<int>): int { |cs| * ClusterBytes(g) }

  /** The bytes of a chain. */
  ghost function Content(g: Geometry, d: Disk, cs: seq<int>): (bytes: seq<int>)
    requires GeometryOk(g) && DiskOk(g, d) && ClustersOk(g, cs)
    ensures |bytes| == Capacity(g, cs)
  {
    CapacityInSectors(g, cs);
    seq(Capacity(g, cs), i requires 0 <= i < Capacity(g, cs) =>
      QuotientBelow(i, g.bytesPerSector, Sectors(g, cs)); Byte(g, Blocks(g, d, cs), i))
  }

  lemma CapacityInSectors(g: Geometry, cs: seq<int>)
    requires GeometryOk(g)
    ensures Capacity(g, cs) == Sectors(g, cs) * g.bytesPerSector && Capacity(g, cs) >= 0 && Sectors(g, cs) >= 0
  {
    MulOrder(0, |cs|, g.sectorsPerCluster);
    MulOrder(0, |cs| * g.sectorsPerCluster, g.bytesPerSector);
    assert |cs| * (g.sectorsPerCluster * g.bytesPerSector) == |cs| * g.sectorsPerCluster * g.bytesPerSector;
  }

  /** A sector is written into the `j`-th block: its bytes change, no others. */
  lemma ContentStored(g: Geometry, d: Disk, cs: seq<int>, j: int, s: Sector)
    requires GeometryOk(g) && DiskOk(g, d) && ClustersOk(g, cs) && 0 <= j < Sectors(g, cs) && SectorOk(g, s)
    requires Distinct(cs)
    ensures 0 <= j / g.sectorsPerCluster < |cs| && 0 <= SectorLba(g, cs, j) < |d|
    ensures var d' := d[SectorLba(g, cs, j) := s];
      && DiskOk(g, d')
      && forall i :: 0 <= i < Capacity(g, cs) ==>
           Content(g, d', cs)[i] ==
             if i / g.bytesPerSector == j then s[i % g.bytesPerSector] else Content(g, d, cs)[i]
  {
    BlockStored(g, d, cs, j, s);
    CapacityInSectors(g, cs);
    var d' := d[SectorLba(g, cs, j) := s];
    forall i | 0 <= i < Capacity(g, cs)
      ensures Content(g, d', cs)[i] == if i / g.bytesPerSector == j then s[i % g.bytesPerSector] else Content(g, d, cs)[i]
    {
      QuotientBelow(i, g.bytesPerSector, Sectors(g, cs));
      DivMod(i, g.bytesPerSector);
    }
  }

  // ---------------------------------------------------------------- directory entries

  /** A 16-bit little-endian field. */
  function Half(s: Sector, p: int): int
    requires 0 <= p && p + 2 <= |s|
  {
    s[p] + 0x100 * s[p + 1]
  }

  function PutHalf(s: Sector, p: int, w: int): Sector
    requires 0 <= p && p + 2 <= |s|
  {
    s[p := w % 0x100][p + 1 := w / 0x100 % 0x100]
  }

  /** `dirent_t::first_cluster` of the entry at `off`. */
  function DirentFirst(s: Sector, off: int): int
    requires 0 <= off && off + 32 <= |s|
  {
    0x1_0000 * Half(s, off + 20) + Half(s, off + 26)
  }

  function DirentSize(s: Sector, off: int): int
    requires 0 <= off && off + 32 <= |s|
  {
    Word(s, off + 28)
  }

  /** The fields `update_dirent` writes. */
  function WithDirent(s: Sector, off: int, size: int, first: int): Sector
    requires 0 <= off && off + 32 <= |s|
  {
    PutHalf(PutHalf(PutWord(s, off + 28, size), off + 20, first / 0x1_0000), off + 26, first % 0x1_0000)
  }

  lemma HalfStored(g: Geometry, s: Sector, p: int, w: int)
    requires SectorOk(g, s) && 0 <= p && p + 2 <= |s| && 0 <= w < 0x1_0000
    ensures SectorOk(g, PutHalf(s, p, w)) && Half(PutHalf(s, p, w), p) == w
    ensures forall i :: 0 <= i < |s| && !(p <= i < p + 2) ==> PutHalf(s, p, w)[i] == s[i]
  {}

  lemma WordBytes(s: Sector, p: int, w: int)
    requires 0 <= p && p + 4 <= |s|
    ensures |PutWord(s, p, w)| == |s|
    ensures forall i :: 0 <= i < |s| && !(p <= i < p + 4) ==> PutWord(s, p, w)[i] == s[i]
  {}

  lemma DirentWritten(g: Geometry, s: Sector, off: int, size: int, first: int)
    requires SectorOk(g, s) && 0 <= off && off + 32 <= |s| && 0 <= size < 0x1_0000_0000 && 0 <= first < 0x1_0000_0000
    ensures var s' := WithDirent(s, off, size, first);
      && SectorOk(g, s') && DirentFirst(s', off) == first && DirentSize(s', off) == size
      && forall i :: 0 <= i < |s| && !(off + FIELDS <= i < off + 32) ==> s'[i] == s[i]
  {
    var s1 := PutWord(s, off + 28, size);
    WordStored(g, s, off + 28, size);
    WordBytes(s, off + 28, size);
    var s2 := PutHalf(s1, off + 20, first / 0x1_0000);
    HalfStored(g, s1, off + 20, first / 0x1_0000);
    var s3 := PutHalf(s2, off + 26, first % 0x1_0000);
    HalfStored(g, s2, off + 26, first % 0x1_0000);
    hide PutHalf, PutWord;
    assert s3[off + 20] == s2[off + 20] && s3[off + 21] == s2[off + 21];
    assert forall i :: off + 28 <= i < off + 32 ==> s3[i] == s1[i];
  }

  // ---------------------------------------------------------------- what operations on one file leave alone

  ghost function ChainOf(chains: Chains, f: int): seq<int> { if f in chains then chains[f] else [] }

  ghost predicate AllClustersOk(g: Geometry, chains: Chains) {
    forall f {:trigger ClustersOk(g, chains[f])} :: f in chains ==> ClustersOk(g, chains[f])
  }

  lemma ChainsClustersOk(g: Geometry, fat: seq<int>, chains: Chains)
    requires NoCrossLinks(fat, chains) && |fat| == g.totalClusters
    ensures AllClustersOk(g, chains)
  {
    forall f | f in chains
      ensures ClustersOk(g, chains[f])
    {
      assert IsChain(fat, chains[f]);
    }
  }

  /** Chains of other files than `f` are the same; so are their bytes, except those of the directory `dir`. */
  ghost predicate OthersKept(g: Geometry, d: Disk, d': Disk, chains: Chains, chains': Chains, f: int, dir: int)
    requires GeometryOk(g) && DiskOk(g, d) && AllClustersOk(g, chains)
  {
    && DiskOk(g, d') && |d'| == |d|
    && (forall h :: h in chains && h != f ==> h in chains' && chains'[h] == chains[h])
    && (forall h :: h in chains' && h != f ==> h in chains)
    && (forall h {:trigger Blocks(g, d', chains[h])} :: h in chains && h != f && h != dir ==>
          ClustersOk(g, chains[h]) && Blocks(g, d', chains[h]) == Blocks(g, d, chains[h]))
  }

  lemma OthersTrans(g: Geometry, d0: Disk, d1: Disk, d2: Disk, c0: Chains, c1: Chains, c2: Chains, f: int, dir: int)
    requires GeometryOk(g) && DiskOk(g, d0) && AllClustersOk(g, c0) && DiskOk(g, d1) && AllClustersOk(g, c1)
    requires OthersKept(g, d0, d1, c0, c1, f, dir) && OthersKept(g, d1, d2, c1, c2, f, dir)
    ensures OthersKept(g, d0, d2, c0, c2, f, dir)
  {
    forall h | h in c0 && h != f && h != dir
      ensures ClustersOk(g, c0[h]) && Blocks(g, d2, c0[h]) == Blocks(g, d0, c0[h])
    {
      assert Blocks(g, d1, c0[h]) == Blocks(g, d0, c0[h]);
      assert Blocks(g, d2, c1[h]) == Blocks(g, d1, c1[h]);
    }
  }

  /** Changes of the tables alone keep all bytes. */
  lemma OthersUnderTables(g: Geometry, d: Disk, d': Disk, chains: Chains, chains': Chains, f: int, dir: int)
    requires GeometryOk(g) && DiskOk(g, d) && DiskOk(g, d') && AllClustersOk(g, chains) && |d'| == |d|
    requires forall l :: 0 <= l < |d| && (l < g.fatStart || g.dataStart <= l) ==> d'[l] == d[l]
    requires chains' == chains || (f in chains' && chains' == chains[f := chains'[f]]) || chains' == chains - {f}
    ensures OthersKept(g, d, d', chains, chains', f, dir)
  {
    forall h | h in chains && h != f && h != dir
      ensures ClustersOk(g, chains[h]) && Blocks(g, d', chains[h]) == Blocks(g, d, chains[h])
    {
      BlocksFrame(g, d, d', chains[h]);
    }
  }

  /** A block of the chain of `e` is stored: all other chains keep their blocks. */
  lemma OthersUnderBlock(g: Geometry, fat: seq<int>, d: Disk, chains: Chains, e: int, j: int, s: Sector)
    requires GeometryOk(g) && DiskOk(g, d) && NoCrossLinks(fat, chains) && |fat| == g.totalClusters && e in chains
    requires AllClustersOk(g, chains) && 0 <= j < Sectors(g, chains[e]) && SectorOk(g, s)
    ensures 0 <= j / g.sectorsPerCluster < |chains[e]| && 0 <= SectorLba(g, chains[e], j) < |d|
    ensures var d' := d[SectorLba(g, chains[e], j) := s];
      && DiskOk(g, d') && (forall k :: 0 <= k < g.fatCount ==> Copy(g, d', k) == Copy(g, d, k))
      && forall f, dir :: e == f || e == dir ==> OthersKept(g, d, d', chains, chains, f, dir)
  {
    assert ClustersOk(g, chains[e]);
    BlockOutsideTables(g, d, chains[e], j, s);
    var d' := d[SectorLba(g, chains[e], j) := s];
    forall h | h in chains && h != e
      ensures ClustersOk(g, chains[h]) && Blocks(g, d', chains[h]) == Blocks(g, d, chains[h])
    {
      assert Apart(chains[e], chains[h]);
      assert ClustersOk(g, chains[h]);
      BlockElsewhere(g, d, chains[e], j, s, chains[h]);
    }
  }

  /** Where in an entry the fields begin that `update_dirent` writes; the name and the attributes are before. */
  const FIELDS := 20
  const WHOLE := 0

  /** Of the directory's bytes only those of the entry at `off` in block `slot` differ, from its byte `lo` on. */
  ghost predicate DirKept(g: Geometry, d: Disk, d': Disk, cs: seq<int>, slot: int, off: int, lo: int)
    requires GeometryOk(g) && DiskOk(g, d) && DiskOk(g, d') && ClustersOk(g, cs)
  {
    forall j {:trigger Blocks(g, d', cs)[j]} :: 0 <= j < Sectors(g, cs) ==>
      forall i :: 0 <= i < g.bytesPerSector && !(j == slot && off + lo <= i < off + 32) ==>
        Blocks(g, d', cs)[j][i] == Blocks(g, d, cs)[j][i]
  }

  lemma DirTrans(g: Geometry, d0: Disk, d1: Disk, d2: Disk, cs: seq<int>, slot: int, off: int, lo: int)
    requires GeometryOk(g) && DiskOk(g, d0) && DiskOk(g, d1) && DiskOk(g, d2) && ClustersOk(g, cs)
    requires DirKept(g, d0, d1, cs, slot, off, lo) && DirKept(g, d1, d2, cs, slot, off, lo)
    ensures DirKept(g, d0, d2, cs, slot, off, lo)
  {
    forall j, i | 0 <= j < Sectors(g, cs) && 0 <= i < g.bytesPerSector && !(j == slot && off + lo <= i < off + 32)
      ensures Blocks(g, d2, cs)[j][i] == Blocks(g, d0, cs)[j][i]
    {
      assert Blocks(g, d1, cs)[j][i] == Blocks(g, d0, cs)[j][i];
      assert Blocks(g, d2, cs)[j][i] == Blocks(g, d1, cs)[j][i];
    }
  }

  lemma DirSame(g: Geometry, d: Disk, d': Disk, cs: seq<int>, slot: int, off: int, lo: int)
    requires GeometryOk(g) && DiskOk(g, d) && DiskOk(g, d') && ClustersOk(g, cs) && Blocks(g, d', cs) == Blocks(g, d, cs)
    ensures DirKept(g, d, d', cs, slot, off, lo)
  {}

  lemma DirEntryStored(g: Geometry, d: Disk, cs: seq<int>, slot: int, off: int, s: Sector, lo: int)
    requires GeometryOk(g) && DiskOk(g, d) && ClustersOk(g, cs) && 0 <= slot < Sectors(g, cs) && SectorOk(g, s)
    requires Distinct(cs)
    requires forall i :: 0 <= i < g.bytesPerSector && !(off + lo <= i < off + 32) ==> s[i] == Blocks(g, d, cs)[slot][i]
    ensures 0 <= slot / g.sectorsPerCluster < |cs| && 0 <= SectorLba(g, cs, slot) < |d|
    ensures var d' := d[SectorLba(g, cs, slot) := s]; DiskOk(g, d') && DirKept(g, d, d', cs, slot, off, lo)
  {
    BlockStored(g, d, cs, slot, s);
  }

  /** What a write of `data` at byte `p` does to a file, whose chain may grow from `cs` to `cs'`. */
  ghost predicate Written(g: Geometry, d: Disk, d': Disk, cs: seq<int>, cs': seq<int>, p: int, data: seq<int>)
    requires GeometryOk(g) && DiskOk(g, d) && DiskOk(g, d') && ClustersOk(g, cs) && ClustersOk(g, cs')
  {
    && cs <= cs' && 0 <= p && (data != [] ==> p + |data| <= Capacity(g, cs'))
    && (forall i {:trigger Content(g, d', cs')[i]} :: 0 <= i < Capacity(g, cs') ==>
          && (p <= i < p + |data| ==> Content(g, d', cs')[i] == data[i - p])
          && (i < Capacity(g, cs) && !(p <= i < p + |data|) ==> Content(g, d', cs')[i] == Content(g, d, cs)[i]))
  }

  lemma WrittenTrans(g: Geometry, d0: Disk, d1: Disk, d2: Disk, cs0: seq<int>, cs1: seq<int>, cs2: seq<int>,
                     p: int, a: seq<int>, b: seq<int>)
    requires GeometryOk(g) && DiskOk(g, d0) && DiskOk(g, d1) && DiskOk(g, d2)
    requires ClustersOk(g, cs0) && ClustersOk(g, cs1) && ClustersOk(g, cs2)
    requires Written(g, d0, d1, cs0, cs1, p, a) && Written(g, d1, d2, cs1, cs2, p + |a|, b)
    ensures Written(g, d0, d2, cs0, cs2, p, a + b)
  {
    hide Content;
    CapacityOrder(g, cs0, cs1);
    CapacityOrder(g, cs1, cs2);
    forall i | 0 <= i < Capacity(g, cs2)
      ensures p <= i < p + |a + b| ==> Content(g, d2, cs2)[i] == (a + b)[i - p]
      ensures i < Capacity(g, cs0) && !(p <= i < p + |a + b|) ==> Content(g, d2, cs2)[i] == Content(g, d0, cs0)[i]
    {
      if i < Capacity(g, cs1) {
        assert p <= i < p + |a| ==> Content(g, d1, cs1)[i] == a[i - p];
        assert i < Capacity(g, cs0) && !(p <= i < p + |a|) ==> Content(g, d1, cs1)[i] == Content(g, d0, cs0)[i];
      }
    }
  }

  lemma CapacityOrder(g: Geometry, cs: seq<int>, cs': seq<int>)
    requires GeometryOk(g) && cs <= cs'
    ensures 0 <= Capacity(g, cs) <= Capacity(g, cs')
  {
    PositiveCluster(g);
    MulOrder(|cs|, |cs'|, ClusterBytes(g));
    MulOrder(0, |cs|, ClusterBytes(g));
  }

  /** Only tables changed, and the chain grew: nothing is written. */
  lemma WrittenNothing(g: Geometry, d: Disk, d': Disk, cs: seq<int>, cs': seq<int>, p: int)
    requires GeometryOk(g) && DiskOk(g, d) && DiskOk(g, d') && |d'| == |d| && ClustersOk(g, cs') && cs <= cs' && 0 <= p
    requires forall l :: 0 <= l < |d| && (l < g.fatStart || g.dataStart <= l) ==> d'[l] == d[l]
    ensures ClustersOk(g, cs) && Written(g, d, d', cs, cs', p, [])
  {
    BlocksPrefix(g, d', cs, cs');
    BlocksFrame(g, d, d', cs);
    CapacityInSectors(g, cs);
    CapacityInSectors(g, cs');
    CapacityOrder(g, cs, cs');
    forall i | 0 <= i < Capacity(g, cs)
      ensures Content(g, d', cs')[i] == Content(g, d, cs)[i]
    {
      QuotientBelow(i, g.bytesPerSector, Sectors(g, cs));
      DivMod(i, g.bytesPerSector);
      assert Blocks(g, d', cs')[i / g.bytesPerSector] == Blocks(g, d', cs)[i / g.bytesPerSector];
    }
  }

  lemma ContentAt(g: Geometry, d: Disk, cs: seq<int>, i: int)
    requires GeometryOk(g) && DiskOk(g, d) && ClustersOk(g, cs) && 0 <= i < Capacity(g, cs)
    ensures 0 <= i / g.bytesPerSector < Sectors(g, cs) && 0 <= i % g.bytesPerSector < g.bytesPerSector
    ensures Content(g, d, cs)[i] == Blocks(g, d, cs)[i / g.bytesPerSector][i % g.bytesPerSector]
  {
    CapacityInSectors(g, cs);
    QuotientBelow(i, g.bytesPerSector, Sectors(g, cs));
    DivMod(i, g.bytesPerSector);
  }

  /** `data` is spliced in at byte `o` of a sector. */
  ghost predicate Spliced(old_: Sector, s: Sector, o: int, data: seq<int>)
  {
    && |s| == |old_| && 0 <= o && o + |data| <= |s|
    && forall i {:trigger s[i]} :: 0 <= i < |s| ==> s[i] == if o <= i < o + |data| then data[i - o] else old_[i]
  }

  /** A sector is stored with `data` spliced in at byte `p` of the file. */
  lemma WrittenInSector(g: Geometry, d: Disk, cs: seq<int>, p: int, data: seq<int>, s: Sector)
    requires GeometryOk(g) && DiskOk(g, d) && ClustersOk(g, cs) && 0 <= p < Capacity(g, cs) && SectorOk(g, s)
    requires Distinct(cs)
    requires 0 <= BytesToSectors(g, p) < Sectors(g, cs)
    requires Spliced(Blocks(g, d, cs)[BytesToSectors(g, p)], s, InSector(g, p), data)
    ensures 0 <= BytesToSectors(g, p) / g.sectorsPerCluster < |cs|
    ensures 0 <= SectorLba(g, cs, BytesToSectors(g, p)) < |d|
    ensures var d' := d[SectorLba(g, cs, BytesToSectors(g, p)) := s];
            DiskOk(g, d') && Written(g, d, d', cs, cs, p, data)
  {
    var j := BytesToSectors(g, p);
    ContentStored(g, d, cs, j, s);
    CapacityInSectors(g, cs);
    MulOrder(j + 1, Sectors(g, cs), g.bytesPerSector);
    MulNext(j, g.bytesPerSector);
    DivMod(p, g.bytesPerSector);
    var d' := d[SectorLba(g, cs, j) := s];
    hide Content, Blocks, Spliced;
    forall i | 0 <= i < Capacity(g, cs)
      ensures p <= i < p + |data| ==> Content(g, d', cs)[i] == data[i - p]
      ensures !(p <= i < p + |data|) ==> Content(g, d', cs)[i] == Content(g, d, cs)[i]
    {
      ContentAt(g, d, cs, i);
      SplicedByte(g, Blocks(g, d, cs)[j], s, p, data, i);
    }
  }

  /** Byte `i` of the file, if it lies in the sector that `data` is spliced into. */
  lemma SplicedByte(g: Geometry, old_: Sector, s: Sector, p: int, data: seq<int>, i: int)
    requires g.bytesPerSector > 0 && 0 <= p && 0 <= i && |s| == g.bytesPerSector
    requires Spliced(old_, s, p % g.bytesPerSector, data)
    ensures 0 <= i % g.bytesPerSector < |s| == |old_|
    ensures p <= i < p + |data| ==>
      i / g.bytesPerSector == p / g.bytesPerSector && s[i % g.bytesPerSector] == data[i - p]
    ensures !(p <= i < p + |data|) && i / g.bytesPerSector == p / g.bytesPerSector ==>
      s[i % g.bytesPerSector] == old_[i % g.bytesPerSector]
  {
    DivMod(i, g.bytesPerSector);
    SameBlock(g, p, i, |data|);
  }

  lemma SameBlock(g: Geometry, p: int, i: int, n: int)
    requires g.bytesPerSector > 0 && 0 <= p && 0 <= i && p % g.bytesPerSector + n <= g.bytesPerSector
    ensures p <= i < p + n ==> i / g.bytesPerSector == p / g.bytesPerSector
    ensures i / g.bytesPerSector == p / g.bytesPerSector ==> i - p == i % g.bytesPerSector - p % g.bytesPerSector
  {
    var b := g.bytesPerSector;
    DivMod(p, b);
    DivMod(i, b);
    if p <= i < p + n {
      DivUnique(i, b, p / b, p % b + (i - p));
    }
  }

  // ---------------------------------------------------------------- volumes and entries

  /** The chains in the table are in range, complete and not cross-linked.  Other entries may be anything. */
  ghost predicate VolumeSafe(g: Geometry, d: Disk, chains: Chains) {
    && GeometryOk(g) && DiskOk(g, d) && NoCrossLinks(Copy(g, d, 0), chains)
  }

  /** A directory entry: the number of the file it is for, that of the directory, the block of the
      directory that holds it, its sector and its place in there. */
  datatype Dirent = Dirent(id: int, dir: int, slot: int, lba: int, offset: int)

  /** The entry lies in the chain of its directory. */
  ghost predicate EntryPlaced(g: Geometry, d: Disk, chains: Chains, e: Dirent) {
    && GeometryOk(g) && DiskOk(g, d) && e.dir in chains && e.dir != e.id
    && 0 <= e.slot < Sectors(g, chains[e.dir]) && 0 <= e.slot / g.sectorsPerCluster < |chains[e.dir]|
    && e.lba == SectorLba(g, chains[e.dir], e.slot) && 0 <= e.lba < |d|
    && 0 <= e.offset && e.offset % 32 == 0 && e.offset + 32 <= g.bytesPerSector
  }

  /** The first cluster in the entry on the device. */
  ghost function FirstOnDisk(g: Geometry, d: Disk, chains: Chains, e: Dirent): int
    requires EntryPlaced(g, d, chains, e)
  {
    assert SectorOk(g, d[e.lba]);
    DirentFirst(d[e.lba], e.offset)
  }

  ghost function SizeOnDisk(g: Geometry, d: Disk, chains: Chains, e: Dirent): int
    requires EntryPlaced(g, d, chains, e)
  {
    assert SectorOk(g, d[e.lba]);
    DirentSize(d[e.lba], e.offset)
  }

  /** The entry has no cluster or starts its file's chain. */
  ghost predicate EntrySafe(g: Geometry, d: Disk, chains: Chains, e: Dirent) {
    && EntryPlaced(g, d, chains, e)
    && var first := FirstOnDisk(g, d, chains, e);
       first == 0 || (e.id in chains && |chains[e.id]| > 0 && chains[e.id][0] == first)
  }

  /** An open file agrees with its chain. */
  ghost predicate HandleOk(g: Geometry, chains: Chains, f: int, first: int, size: int) {
    && GeometryOk(g) && 0 <= size < 0x1_0000_0000 && size <= Capacity(g, ChainOf(chains, f))
    && (first == 0 <==> f !in chains)
    && (f in chains ==> |chains[f]| > 0 && chains[f][0] == first)
  }

  lemma ChainFacts(g: Geometry, d: Disk, chains: Chains, f: int)
    requires VolumeSafe(g, d, chains)
    ensures ClustersOk(g, ChainOf(chains, f)) && AllClustersOk(g, chains)
    ensures Distinct(ChainOf(chains, f))
    ensures f in chains ==> IsChain(Copy(g, d, 0), chains[f]) && ChainOf(chains, f) == chains[f]
  {
    hide Copy, DiskOk;
    var fat := Copy(g, d, 0);
    ChainsClustersOk(g, fat, chains);
    if f in chains {
      assert ClustersOk(g, chains[f]) && IsChain(fat, chains[f]);
      forall i, j | 0 <= i < j < |chains[f]|
        ensures chains[f][i] != chains[f][j]
      {
        ChainDistinct(fat, chains[f], i, j);
      }
    }
  }

  // ---------------------------------------------------------------- byte positions

  lemma WithinCapacity(g: Geometry, cs: seq<int>, p: int)
    requires GeometryOk(g) && 0 <= p
    ensures ClusterBytes(g) > 0 && BytesToClusters(g, p) >= 0
    ensures p < Capacity(g, cs) <==> BytesToClusters(g, p) < |cs|
  {
    PositiveCluster(g);
    DivMod(p, ClusterBytes(g));
    if p / ClusterBytes(g) < |cs| {
      MulOrder(p / ClusterBytes(g) + 1, |cs|, ClusterBytes(g));
      MulNext(p / ClusterBytes(g), ClusterBytes(g));
    } else {
      MulOrder(|cs|, p / ClusterBytes(g), ClusterBytes(g));
    }
  }

  /** The sector that the code computes for byte `p` is the one that holds it. */
  lemma LbaOfByte(g: Geometry, d: Disk, cs: seq<int>, p: int)
    requires GeometryOk(g) && DiskOk(g, d) && ClustersOk(g, cs) && 0 <= p < Capacity(g, cs)
    ensures ClusterBytes(g) > 0 && 0 <= BytesToClusters(g, p) < |cs|
    ensures 0 <= BytesToSectors(g, p) < Sectors(g, cs) && 0 <= BytesToSectors(g, p) / g.sectorsPerCluster < |cs|
    ensures InSector(g, InCluster(g, p)) == InSector(g, p) && 0 <= InSector(g, p) < g.bytesPerSector
    ensures var lba := ClusterLba(g, cs[BytesToClusters(g, p)]) + BytesToSectors(g, InCluster(g, p));
      && lba == SectorLba(g, cs, BytesToSectors(g, p)) && 0 <= lba < |d|
      && d[lba] == Blocks(g, d, cs)[BytesToSectors(g, p)]
  {
    ByteInSector(g, p);
    WithinCapacity(g, cs, p);
    ContentAt(g, d, cs, p);
    SectorInside(g, cs, p / g.bytesPerSector);
    EntryOnDisk(g);
  }

  /** The bytes of a file that lie in one sector. */
  lemma BytesOfSector(g: Geometry, d: Disk, cs: seq<int>, p: int, n: int)
    requires GeometryOk(g) && DiskOk(g, d) && ClustersOk(g, cs) && 0 <= p && 0 < n && p + n <= Capacity(g, cs)
    requires InSector(g, p) + n <= g.bytesPerSector && 0 <= BytesToSectors(g, p) < Sectors(g, cs)
    ensures 0 <= InSector(g, p)
    ensures Content(g, d, cs)[p..p + n] ==
      Blocks(g, d, cs)[BytesToSectors(g, p)][InSector(g, p)..InSector(g, p) + n]
  {
    DivMod(p, g.bytesPerSector);
    hide Content, Blocks;
    forall i | p <= i < p + n
      ensures Content(g, d, cs)[i] == Blocks(g, d, cs)[p / g.bytesPerSector][p % g.bytesPerSector + (i - p)]
    {
      ContentAt(g, d, cs, i);
      SameBlock(g, p, i, n);
    }
  }
}
