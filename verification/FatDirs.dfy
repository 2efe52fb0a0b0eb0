/** Finding a free slot in a directory, which grows by a cleared cluster when all slots are taken. */
module FatDirs {
  import opened FatDisk
  import opened FatChains
  import opened FatData
  import opened FatSystem

  /** A slot is free when its name starts with 0x00 or 0xe5. */
  predicate SlotFree(s: Sector, o: int)
    requires 0 <= o < |s|
  {
    s[o] == 0x00 || s[o] == 0xe5
  }

  /** No slot of a block before byte `o` is free. */
  ghost predicate NoneFree(s: Sector, o: int) {
    forall i {:trigger SlotFree(s, i)} :: 0 <= i < o && i < |s| && i % 32 == 0 ==> !SlotFree(s, i)
  }

  ghost predicate NoneFreeIn(blocks: seq<Sector>, n: int) {
    forall j {:trigger blocks[j]} :: 0 <= j < n && j < |blocks| ==> NoneFree(blocks[j], |blocks[j]|)
  }

  function Zeros(n: int): (s: Sector)
    requires n >= 0
    ensures |s| == n
  {
    seq(n, _ => 0)
  }

  /** The search in one sector. */
  method ScanSector(s: Sector) returns (found: bool, offset: int)
    requires |s| % 32 == 0
    ensures found ==> 0 <= offset && offset + 32 <= |s| && offset % 32 == 0 && SlotFree(s, offset) && NoneFree(s, offset)
    ensures !found ==> NoneFree(s, |s|)
  {
    for i := 0 to |s| / 32
      invariant NoneFree(s, 32 * i)
    {
      if s[32 * i] == 0x00 || s[32 * i] == 0xe5 {
        return true, 32 * i;
      }
    }
    return false, 0;
  }

  /** The sector of a chain that is the `s`-th of its `i`-th cluster. */
  lemma SectorOfCluster(g: Geometry, cs: seq<int>, i: int, s: int)
    requires g.sectorsPerCluster > 0 && 0 <= i < |cs| && 0 <= s < g.sectorsPerCluster
    ensures var j := i * g.sectorsPerCluster + s;
      && 0 <= j < Sectors(g, cs) && 0 <= j / g.sectorsPerCluster < |cs| && SectorLba(g, cs, j) == ClusterLba(g, cs[i]) + s
  {
    MulOrder(0, i, g.sectorsPerCluster);
    MulOrder(i + 1, |cs|, g.sectorsPerCluster);
    MulNext(i, g.sectorsPerCluster);
    DivUnique(i * g.sectorsPerCluster + s, g.sectorsPerCluster, i, s);
  }

  /** The search in one cluster of the directory. */
  method ScanCluster(fs: FileSys, cluster: int, ghost cs: seq<int>, ghost i: int)
    returns (ok: bool, found: bool, lba: int, offset: int, ghost j: int)
    requires fs.Ready() && ClustersOk(fs.g, cs) && 0 <= i < |cs| && cluster == cs[i]
    requires NoneFreeIn(Blocks(fs.g, fs.disk, cs), i * fs.g.sectorsPerCluster)
    modifies fs`sector, fs`secLba
    ensures ok ==> fs.Ready()
    ensures ok && found ==> FirstFree(fs.g, fs.disk, cs, lba, offset, j)
    ensures ok && !found ==> NoneFreeIn(Blocks(fs.g, fs.disk, cs), (i + 1) * fs.g.sectorsPerCluster)
    ensures fs.reliable ==> ok
  {
    hide DiskOk, SectorOk, Copy, Mirrored, Blocks, ClustersOk, Sectors, SectorLba, ClusterLba;
    ok, found, lba, offset, j := true, false, 0, 0, 0;
    MulNext(i, fs.g.sectorsPerCluster);
    for s := 0 to fs.g.sectorsPerCluster
      invariant fs.Ready() && fs.disk == old(fs.disk)
      invariant NoneFreeIn(Blocks(fs.g, fs.disk, cs), i * fs.g.sectorsPerCluster + s)
    {
      j := i * fs.g.sectorsPerCluster + s;
      SectorOfCluster(fs.g, cs, i, s);
      BlockOnDisk(fs.g, fs.disk, cs, j);
      lba := ClusterLba(fs.g, cluster) + s;
      ok := fs.LoadSector(lba);
      if !ok {
        return;
      }
      found, offset := ScanSector(fs.sector);
      if found {
        return;
      }
    }
  }

  lemma BlockOnDisk(g: Geometry, d: Disk, cs: seq<int>, j: int)
    requires GeometryOk(g) && DiskOk(g, d) && ClustersOk(g, cs) && 0 <= j < Sectors(g, cs)
    ensures 0 <= j / g.sectorsPerCluster < |cs| && 0 <= SectorLba(g, cs, j) < |d|
    ensures Blocks(g, d, cs)[j] == d[SectorLba(g, cs, j)] && |d[SectorLba(g, cs, j)]| == g.bytesPerSector
  {
    SectorInside(g, cs, j);
    EntryOnDisk(g);
    assert SectorOk(g, d[SectorLba(g, cs, j)]);
  }

  /** The first free slot of a directory: in block `j`, which is sector `lba`, at byte `offset`. */
  ghost predicate FirstFree(g: Geometry, d: Disk, cs: seq<int>, lba: int, offset: int, j: int)
    requires GeometryOk(g) && DiskOk(g, d) && ClustersOk(g, cs)
  {
    && 0 <= j < Sectors(g, cs) && 0 <= j / g.sectorsPerCluster < |cs| && lba == SectorLba(g, cs, j)
    && 0 <= offset && offset + 32 <= |Blocks(g, d, cs)[j]| && offset % 32 == 0
    && SlotFree(Blocks(g, d, cs)[j], offset) && NoneFree(Blocks(g, d, cs)[j], offset)
    && NoneFreeIn(Blocks(g, d, cs), j)
  }

  /** The directory grew by a cluster of zeros; everything else is as before. */
  ghost predicate GrewCleared(g: Geometry, d: Disk, d': Disk, chains: Chains, chains': Chains, f: int, c: int) {
    && VolumeSafe(g, d, chains) && VolumeSafe(g, d', chains') && AllClustersOk(g, chains) && f in chains
    && chains' == chains[f := chains[f] + [c]] && ClustersOk(g, chains[f]) && ClustersOk(g, chains[f] + [c])
    && OthersKept(g, d, d', chains, chains', f, f)
    && Blocks(g, d', chains[f] + [c]) == Blocks(g, d, chains[f]) + seq(g.sectorsPerCluster, _ => Zeros(g.bytesPerSector))
  }

  /** Wherever growing stops: the directory has its old bytes, and perhaps a cluster behind them; all other files and
      directories are untouched. */
  ghost predicate DirExtended(g: Geometry, d: Disk, d': Disk, chains: Chains, chains': Chains, f: int) {
    && VolumeSafe(g, d, chains) && VolumeSafe(g, d', chains') && AllClustersOk(g, chains) && f in chains && f in chains'
    && chains[f] <= chains'[f] && ClustersOk(g, chains[f]) && ClustersOk(g, chains'[f])
    && Sectors(g, chains[f]) <= Sectors(g, chains'[f])
    && OthersKept(g, d, d', chains, chains', f, f)
    && Blocks(g, d', chains'[f])[..Sectors(g, chains[f])] == Blocks(g, d, chains[f])
  }

  lemma TablesExtend(g: Geometry, d: Disk, d': Disk, chains: Chains, chains': Chains, f: int)
    requires VolumeSafe(g, d, chains) && VolumeSafe(g, d', chains') && SameData(g, d, d') && f in chains && f in chains'
    requires chains' == chains[f := chains'[f]] && chains[f] <= chains'[f]
    ensures DirExtended(g, d, d', chains, chains', f)
  {
    hide Copy, DiskOk;
    ChainFacts(g, d, chains, f);
    ChainFacts(g, d', chains', f);
    OthersUnderTables(g, d, d', chains, chains', f, f);
    BlocksFrame(g, d, d', chains[f]);
    BlocksPrefix(g, d', chains[f], chains'[f]);
  }

  lemma NotExtended(g: Geometry, d: Disk, chains: Chains, f: int)
    requires VolumeSafe(g, d, chains) && f in chains
    ensures DirExtended(g, d, d, chains, chains, f)
  {
    SameDisk(g, d);
    assert chains == chains[f := chains[f]];
    TablesExtend(g, d, d, chains, chains, f);
  }

  lemma ClearedExtends(g: Geometry, d: Disk, d': Disk, chains: Chains, chains': Chains, f: int, c: int, n: int)
    requires ClearedUpTo(g, d, d', chains, chains', f, c, n)
    ensures DirExtended(g, d, d', chains, chains', f)
  {}

  lemma GrewExtends(g: Geometry, d: Disk, d': Disk, chains: Chains, chains': Chains, f: int, c: int)
    requires GrewCleared(g, d, d', chains, chains', f, c)
    ensures DirExtended(g, d, d', chains, chains', f)
  {
    BlocksPrefix(g, d', chains[f], chains'[f]);
  }

  /** The directory `f` grows: a cluster is allocated, linked, and cleared. */
  method GrowDirectory(fs: FileSys, last: int, ghost f: int) returns (st: Status, c: int)
    requires fs.Linked() && f in fs.chains && |fs.chains[f]| > 0 && last == fs.chains[f][|fs.chains[f]| - 1]
    modifies fs`disk, fs`sector, fs`secLba, fs`freeCount, fs`nextFree, fs`fsinfoDirty, fs`chains
    ensures st.Done? ==> fs.Linked() && 2 <= c < fs.g.totalClusters && fs.Fat()[c] == EOC
    ensures st.Done? ==> GrewCleared(fs.g, old(fs.disk), fs.disk, old(fs.chains), fs.chains, f, c)
    ensures st.Full? ==> fs.Linked() && fs.disk == old(fs.disk) && fs.chains == old(fs.chains)
    ensures fs.Safe() && !st.Failed?
    ensures DirExtended(fs.g, old(fs.disk), fs.disk, old(fs.chains), fs.chains, f)
    ensures st.Full? ==> fs.Exhausted()
    ensures !st.DeviceFailed? && old(fs.HintOk()) ==> fs.HintOk()
    ensures !st.DeviceFailed? && old(fs.MarksExact()) ==> fs.MarksExact()
    ensures !st.DeviceFailed? ==> fs.GapKept(old(fs.freeCount), old(fs.Fat()), 0)
    ensures !st.DeviceFailed? ==> f in fs.chains && TableStep(old(fs.Fat()), fs.Fat(), old(fs.chains[f]), fs.chains[f])
    ensures fs.reliable ==> !st.DeviceFailed?
  {
    hide TableStep, DiskOk, SectorOk, Copy, Mirrored, VolumeSafe, SameData, Torn, GrewCleared, DirExtended, IsChain,
         NoneFreeBelow, Gap;
    ghost var d0, chains0 := fs.disk, fs.chains;
    ChainFacts(fs.g, d0, chains0, f);
    LastEntry(fs.Fat(), chains0[f]);
    NotExtended(fs.g, d0, chains0, f);
    StepSame(fs.Fat(), chains0[f]);
    ghost var fat0 := fs.Fat();
    st, c := fs.FatAllocate();
    if st.DeviceFailed? {
      TornSafe(fs.g, d0, fs.disk, chains0, f);
    }
    if !st.Done? {
      return;
    }
    TakenSafe(fs.g, d0, fs.disk, chains0, c);
    ghost var d1 := fs.disk;
    var ok := fs.FatLink(last, c);
    if ok {
      fs.chains := fs.chains[f := fs.chains[f] + [c]];
      LinkedSafe(fs.g, d0, d1, fs.disk, chains0, f, c);
      LinkedStep(fat0, chains0[f], last, c);
      ok := ClearCluster(fs, c, f, d0, chains0);
    } else {
      fs.chains := LinkTornSafe(fs.g, d0, d1, fs.disk, chains0, f, c);
    }
    st := if ok then Done else DeviceFailed;
  }

  lemma LinkedStep(fat: seq<int>, cs: seq<int>, last: int, c: int)
    requires 0 <= last < |fat| && 0 <= c < |fat| && fat[c] == 0 && last in cs
    ensures TableStep(fat, fat[c := EOC][last := c], cs, cs + [c])
  {
    StepAppended(fat, fat[c := EOC][last := c], cs, c);
  }

  lemma LastEntry(fat: seq<int>, cs: seq<int>)
    requires IsChain(fat, cs)
    ensures 2 <= cs[|cs| - 1] < |fat| && fat[cs[|cs| - 1]] >= EOC
  {}

  lemma TornSafe(g: Geometry, d: Disk, d': Disk, chains: Chains, f: int)
    requires VolumeSafe(g, d, chains) && f in chains
    requires d' == d || exists c :: 2 <= c < g.totalClusters && Copy(g, d, 0)[c] == 0 && Torn(g, d, d', c, EOC)
    ensures VolumeSafe(g, d', chains) && DirExtended(g, d, d', chains, chains, f)
  {
    SameDisk(g, d);
    if d' != d {
      var c :| 2 <= c < g.totalClusters && Copy(g, d, 0)[c] == 0 && Torn(g, d, d', c, EOC);
      if Copy(g, d', 0) != Copy(g, d, 0) {
        TakenSafe(g, d, d', chains, c);
      }
    }
    assert chains == chains[f := chains[f]];
    TablesExtend(g, d, d', chains, chains, f);
  }

  lemma LinkedSafe(g: Geometry, d0: Disk, d1: Disk, d2: Disk, chains: Chains, f: int, c: int)
    requires VolumeSafe(g, d0, chains) && VolumeSafe(g, d1, chains) && DiskOk(g, d2) && SameData(g, d0, d1) && SameData(g, d1, d2)
    requires f in chains && 2 <= c < g.totalClusters && Copy(g, d1, 0)[c] >= EOC
    requires forall h :: h in chains ==> c !in chains[h]
    requires |chains[f]| > 0 && 0 <= chains[f][|chains[f]| - 1] < g.totalClusters
    requires Copy(g, d2, 0) == Copy(g, d1, 0)[chains[f][|chains[f]| - 1] := c]
    ensures var chains' := chains[f := chains[f] + [c]];
      VolumeSafe(g, d2, chains') && ClearedUpTo(g, d0, d2, chains, chains', f, c, 0)
    ensures chains[f][|chains[f]| - 1] != c && Copy(g, d2, 0)[c] == Copy(g, d1, 0)[c]
  {
    hide Copy, DiskOk;
    var chains' := chains[f := chains[f] + [c]];
    Extended(Copy(g, d1, 0), chains, f, c);
    SameDataTrans(g, d0, d1, d2);
    ChainFacts(g, d0, chains, f);
    ChainFacts(g, d2, chains', f);
    OthersUnderTables(g, d0, d2, chains, chains', f, f);
    BlocksFrame(g, d0, d2, chains[f]);
    BlocksPrefix(g, d2, chains[f], chains'[f]);
    assert chains[f][|chains[f]| - 1] in chains[f];
  }

  lemma LinkTornSafe(g: Geometry, d0: Disk, d: Disk, d': Disk, chains: Chains, f: int, c: int) returns (chains': Chains)
    requires VolumeSafe(g, d, chains) && f in chains
    requires 2 <= c < g.totalClusters && Copy(g, d, 0)[c] >= EOC && forall h :: h in chains ==> c !in chains[h]
    requires |chains[f]| > 0 && 0 <= chains[f][|chains[f]| - 1] < g.totalClusters
    requires Torn(g, d, d', chains[f][|chains[f]| - 1], c)
    requires VolumeSafe(g, d0, chains) && SameData(g, d0, d)
    ensures VolumeSafe(g, d', chains') && DirExtended(g, d0, d', chains, chains', f)
  {
    hide Copy, DiskOk;
    if Copy(g, d', 0) == Copy(g, d, 0) {
      chains' := chains;
    } else {
      chains' := chains[f := chains[f] + [c]];
      Extended(Copy(g, d, 0), chains, f, c);
    }
    SameDataTrans(g, d0, d, d');
    assert chains' == chains[f := chains'[f]];
    TablesExtend(g, d0, d', chains, chains', f);
  }

  /** As `GrewCleared`, with only the first `n` sectors of the new cluster cleared. */
  ghost predicate ClearedUpTo(g: Geometry, d: Disk, d': Disk, chains: Chains, chains': Chains, f: int, c: int, n: int) {
    && VolumeSafe(g, d, chains) && VolumeSafe(g, d', chains') && AllClustersOk(g, chains) && f in chains
    && chains' == chains[f := chains[f] + [c]] && ClustersOk(g, chains[f]) && ClustersOk(g, chains[f] + [c])
    && OthersKept(g, d, d', chains, chains', f, f)
    && Sectors(g, chains[f]) <= Sectors(g, chains[f] + [c])
    && Blocks(g, d', chains[f] + [c])[..Sectors(g, chains[f])] == Blocks(g, d, chains[f])
    && forall s {:trigger Blocks(g, d', chains[f] + [c])[s]} ::
         Sectors(g, chains[f]) <= s < Sectors(g, chains[f]) + n && s < Sectors(g, chains[f] + [c]) ==>
           Blocks(g, d', chains[f] + [c])[s] == Zeros(g.bytesPerSector)
  }

  /** The loop of `dir_find_free_slot` that clears the new cluster. */
  method ClearCluster(fs: FileSys, c: int, ghost f: int, ghost d0: Disk, ghost chains0: Chains) returns (ok: bool)
    requires fs.Linked() && f in chains0 && ClearedUpTo(fs.g, d0, fs.disk, chains0, fs.chains, f, c, 0)
    modifies fs`disk, fs`sector, fs`secLba
    ensures fs.Safe() && fs.Fat() == old(fs.Fat()) && DirExtended(fs.g, d0, fs.disk, chains0, fs.chains, f)
    ensures ok ==> fs.Linked() && GrewCleared(fs.g, d0, fs.disk, chains0, fs.chains, f, c)
    ensures fs.reliable ==> ok
  {
    hide DiskOk, SectorOk, Copy, Mirrored, VolumeSafe, ClearedUpTo, GrewCleared, DirExtended;
    ok := true;
    for s := 0 to fs.g.sectorsPerCluster
      invariant ok && fs.Linked() && ClearedUpTo(fs.g, d0, fs.disk, chains0, fs.chains, f, c, s) && fs.Fat() == old(fs.Fat())
    {
      ClearedExtends(fs.g, d0, fs.disk, chains0, fs.chains, f, c, s);
      ClearedNext(fs.g, d0, fs.disk, chains0, fs.chains, f, c, s);
      fs.sector := Zeros(fs.g.bytesPerSector);
      ok := fs.StoreSector(ClusterLba(fs.g, c) + s);
      if !ok {
        return;
      }
    }
    AllCleared(fs.g, d0, fs.disk, chains0, fs.chains, f, c);
    GrewExtends(fs.g, d0, fs.disk, chains0, fs.chains, f, c);
  }

  lemma ClearedNext(g: Geometry, d0: Disk, d: Disk, chains: Chains, chains': Chains, f: int, c: int, s: int)
    requires ClearedUpTo(g, d0, d, chains, chains', f, c, s) && 0 <= s < g.sectorsPerCluster
    ensures SectorOk(g, Zeros(g.bytesPerSector)) && 0 <= ClusterLba(g, c) + s < |d|
    ensures var d' := d[ClusterLba(g, c) + s := Zeros(g.bytesPerSector)];
      && ClearedUpTo(g, d0, d', chains, chains', f, c, s + 1) && VolumeSafe(g, d', chains')
      && Copy(g, d', 0) == Copy(g, d, 0) && (Mirrored(g, d) ==> Mirrored(g, d'))
  {
    var cs, cs' := chains[f], chains[f] + [c];
    var z := Zeros(g.bytesPerSector);
    ChainFacts(g, d, chains', f);
    SectorOfCluster(g, cs', |cs|, s);
    var j := |cs| * g.sectorsPerCluster + s;
    OthersUnderBlock(g, Copy(g, d, 0), d, chains', f, j, z);
    BlockStored(g, d, cs', j, z);
    var d' := d[ClusterLba(g, c) + s := z];
    OthersTrans(g, d0, d, d', chains, chains', chains', f, f);
  }

  lemma AllCleared(g: Geometry, d0: Disk, d: Disk, chains: Chains, chains': Chains, f: int, c: int)
    requires ClearedUpTo(g, d0, d, chains, chains', f, c, g.sectorsPerCluster)
    ensures GrewCleared(g, d0, d, chains, chains', f, c)
  {
    var cs' := chains[f] + [c];
    MulNext(|chains[f]|, g.sectorsPerCluster);
    var b := Blocks(g, d, cs');
    var zeros := seq(g.sectorsPerCluster, _ => Zeros(g.bytesPerSector));
    assert |b| == Sectors(g, chains[f]) + g.sectorsPerCluster;
    assert b == b[..Sectors(g, chains[f])] + zeros;
  }

  /** `dir_find_free_slot` on a directory whose chain ends with the mark that `fat_allocate` writes: the first
      free slot, or the first slot of a cleared new cluster when there is none. */
  method DirFindFreeSlot(fs: FileSys, dirCluster: int, ghost f: int)
    returns (st: Status, lba: int, offset: int, ghost j: int, ghost grown: bool)
    requires fs.Linked() && f in fs.chains && |fs.chains[f]| > 0 && fs.chains[f][0] == dirCluster
    requires EndsExactly(fs.Fat(), fs.chains[f])
    modifies fs`disk, fs`sector, fs`secLba, fs`freeCount, fs`nextFree, fs`fsinfoDirty, fs`chains
    ensures fs.Safe() && !st.Failed?
    ensures DirExtended(fs.g, old(fs.disk), fs.disk, old(fs.chains), fs.chains, f)
    ensures st.Done? ==> fs.Linked() && f in fs.chains && ClustersOk(fs.g, fs.chains[f])
    ensures st.Done? ==> FirstFree(fs.g, fs.disk, fs.chains[f], lba, offset, j)
    ensures st.Done? && !grown ==> fs.chains == old(fs.chains) && fs.disk == old(fs.disk)
    ensures st.Done? && grown ==>
      exists c :: GrewCleared(fs.g, old(fs.disk), fs.disk, old(fs.chains), fs.chains, f, c)
    ensures st.Done? && grown ==> j == Sectors(fs.g, old(fs.chains[f])) && offset == 0
    ensures st.Full? ==> fs.Linked() && fs.disk == old(fs.disk) && fs.chains == old(fs.chains)
    ensures st.Full? ==> fs.Exhausted()
    ensures st.Full? ==> ClustersOk(fs.g, fs.chains[f]) && NoneFreeIn(Blocks(fs.g, fs.disk, fs.chains[f]), Sectors(fs.g, fs.chains[f]))
    ensures !st.DeviceFailed? && old(fs.HintOk()) ==> fs.HintOk()
    ensures !st.DeviceFailed? && old(fs.MarksExact()) ==> fs.MarksExact()
    ensures !st.DeviceFailed? ==> fs.GapKept(old(fs.freeCount), old(fs.Fat()), 0)
    ensures !st.DeviceFailed? ==> f in fs.chains && TableStep(old(fs.Fat()), fs.Fat(), old(fs.chains[f]), fs.chains[f])
    ensures fs.reliable ==> !st.DeviceFailed?
  {
    hide TableStep, DiskOk, SectorOk, Copy, Mirrored, VolumeSafe, GrewCleared, DirExtended, FirstFree, NoneFreeIn,
         IsChain, Blocks, NoneFreeBelow, Gap;
    ghost var cs, fat := fs.chains[f], fs.Fat();
    ChainFacts(fs.g, fs.disk, fs.chains, f);
    NotExtended(fs.g, fs.disk, fs.chains, f);
    StepSame(fs.Fat(), cs);
    NoneFreeYet(Blocks(fs.g, fs.disk, cs));
    lba, offset, j, grown := 0, 0, 0, false;
    var cluster := dirCluster;
    ghost var i := 0;
    while true
      invariant fs.Linked() && fs.disk == old(fs.disk) && fs.chains == old(fs.chains) && 0 <= i < |cs| && cluster == cs[i]
      invariant fs.freeCount == old(fs.freeCount) && fs.nextFree == old(fs.nextFree)
      invariant NoneFreeIn(Blocks(fs.g, fs.disk, cs), i * fs.g.sectorsPerCluster)
      decreases |cs| - i
    {
      var ok, found;
      ok, found, lba, offset, j := ScanCluster(fs, cluster, cs, i);
      if !ok {
        st := DeviceFailed;
        return;
      }
      if found {
        st := Done;
        return;
      }
      NextOrEnd(fat, cs, i, fs.g.totalClusters);
      var next;
      ok, next := fs.FatGet(cluster);
      if !ok {
        st := DeviceFailed;
        return;
      }
      if next == EOC {
        grown := true;
        st, lba, offset, j := GrowAndScan(fs, cluster, f);
        return;
      }
      cluster := next;
      i := i + 1;
    }
  }

  /** The last entry of the chain is the mark that `fat_allocate` writes, of the eight that end a chain. */
  ghost predicate EndsExactly(fat: seq<int>, cs: seq<int>) {
    cs != [] && 0 <= cs[|cs| - 1] < |fat| && fat[cs[|cs| - 1]] == EOC
  }

  lemma NoneFreeYet(blocks: seq<Sector>)
    ensures NoneFreeIn(blocks, 0)
  {}

  lemma NextOrEnd(fat: seq<int>, cs: seq<int>, i: int, n: int)
    requires IsChain(fat, cs) && EndsExactly(fat, cs) && 0 <= i < |cs| && |fat| == n <= EOC
    ensures 2 <= cs[i] < n && (fat[cs[i]] == EOC <==> i == |cs| - 1)
    ensures i < |cs| - 1 ==> fat[cs[i]] == cs[i + 1]
  {}

  /** All slots are taken: the directory grows, and the search goes on in the new cluster. */
  method GrowAndScan(fs: FileSys, last: int, ghost f: int) returns (st: Status, lba: int, offset: int, ghost j: int)
    requires fs.Linked() && f in fs.chains && |fs.chains[f]| > 0 && last == fs.chains[f][|fs.chains[f]| - 1]
    requires ClustersOk(fs.g, fs.chains[f]) && NoneFreeIn(Blocks(fs.g, fs.disk, fs.chains[f]), Sectors(fs.g, fs.chains[f]))
    modifies fs`disk, fs`sector, fs`secLba, fs`freeCount, fs`nextFree, fs`fsinfoDirty, fs`chains
    ensures fs.Safe() && !st.Failed?
    ensures DirExtended(fs.g, old(fs.disk), fs.disk, old(fs.chains), fs.chains, f)
    ensures st.Done? ==> fs.Linked() && f in fs.chains && ClustersOk(fs.g, fs.chains[f])
    ensures st.Done? ==> FirstFree(fs.g, fs.disk, fs.chains[f], lba, offset, j)
    ensures st.Done? ==> exists c :: GrewCleared(fs.g, old(fs.disk), fs.disk, old(fs.chains), fs.chains, f, c)
    ensures st.Done? ==> j == Sectors(fs.g, old(fs.chains[f])) && offset == 0
    ensures st.Full? ==> fs.Linked() && fs.disk == old(fs.disk) && fs.chains == old(fs.chains)
    ensures st.Full? ==> fs.Exhausted()
    ensures st.Full? ==> ClustersOk(fs.g, fs.chains[f]) && NoneFreeIn(Blocks(fs.g, fs.disk, fs.chains[f]), Sectors(fs.g, fs.chains[f]))
    ensures !st.DeviceFailed? && old(fs.HintOk()) ==> fs.HintOk()
    ensures !st.DeviceFailed? && old(fs.MarksExact()) ==> fs.MarksExact()
    ensures !st.DeviceFailed? ==> fs.GapKept(old(fs.freeCount), old(fs.Fat()), 0)
    ensures !st.DeviceFailed? ==> f in fs.chains && TableStep(old(fs.Fat()), fs.Fat(), old(fs.chains[f]), fs.chains[f])
    ensures fs.reliable ==> !st.DeviceFailed?
  {
    hide TableStep, DiskOk, SectorOk, Copy, Mirrored, VolumeSafe, GrewCleared, DirExtended, FirstFree, NoneFreeIn,
         IsChain, Blocks, NoneFreeBelow, Gap, Sectors, ClustersOk;
    ghost var d0, chains0, cs := fs.disk, fs.chains, fs.chains[f];
    lba, offset, j := 0, 0, 0;
    var c;
    st, c := GrowDirectory(fs, last, f);
    if st.Done? {
      ghost var cs' := cs + [c];
      StillNoneFree(fs.g, d0, fs.disk, chains0, fs.chains, f, c);
      var ok, found;
      ok, found, lba, offset, j := ScanCluster(fs, c, cs', |cs|);
      if ok {
        FreshSlot(fs.g, d0, fs.disk, chains0, fs.chains, f, c, found, lba, offset, j);
      } else {
        st := DeviceFailed;
      }
    }
  }

  lemma StillNoneFree(g: Geometry, d0: Disk, d: Disk, chains: Chains, chains': Chains, f: int, c: int)
    requires GrewCleared(g, d0, d, chains, chains', f, c)
    requires NoneFreeIn(Blocks(g, d0, chains[f]), Sectors(g, chains[f]))
    ensures f in chains && ClustersOk(g, chains[f] + [c]) && chains'[f] == chains[f] + [c] && f in chains'
    ensures NoneFreeIn(Blocks(g, d, chains[f] + [c]), |chains[f]| * g.sectorsPerCluster)
  {
    hide Blocks;
    var b, b' := Blocks(g, d0, chains[f]), Blocks(g, d, chains[f] + [c]);
    forall j | 0 <= j < |b|
      ensures NoneFree(b'[j], |b'[j]|)
    {
      assert b'[j] == b[j];
    }
  }

  /** The search in a cleared cluster stops at its first slot. */
  lemma FreshSlot(g: Geometry, d0: Disk, d: Disk, chains: Chains, chains': Chains, f: int, c: int,
                  found: bool, lba: int, offset: int, j: int)
    requires GrewCleared(g, d0, d, chains, chains', f, c) && 0 < g.sectorsPerCluster && 32 <= g.bytesPerSector
    requires NoneFreeIn(Blocks(g, d0, chains[f]), Sectors(g, chains[f]))
    requires found ==> FirstFree(g, d, chains[f] + [c], lba, offset, j)
    requires !found ==> NoneFreeIn(Blocks(g, d, chains[f] + [c]), (|chains[f]| + 1) * g.sectorsPerCluster)
    ensures found && j == Sectors(g, chains[f]) && offset == 0
  {
    var b' := Blocks(g, d, chains[f] + [c]);
    var n := Sectors(g, chains[f]);
    MulNext(|chains[f]|, g.sectorsPerCluster);
    hide Blocks;
    assert b'[n] == Zeros(g.bytesPerSector);
    assert SlotFree(b'[n], 0);
    var b := Blocks(g, d0, chains[f]);
    assert forall k {:trigger b'[k]} :: 0 <= k < n ==> b'[k] == b[k] && NoneFree(b[k], |b[k]|);
  }
}
