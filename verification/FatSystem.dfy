/** The file system object: one sector buffer over the device, and the allocation table kept in it. */
module FatSystem {
  import opened FatDisk
  import opened FatChains
  import opened FatData

  const NO_SECTOR := 0xffff_ffff
  const UNKNOWN := 0xffff_ffff
  const U32 := 0x1_0000_0000

  /** How an operation ends.  After `DeviceFailed` the buffer may not match the device. */
  datatype Status = Done | DeviceFailed | Full | Failed

  /** Nothing outside the tables differs. */
  ghost predicate SameData(g: Geometry, d: Disk, d': Disk) {
    |d'| == |d| && forall l {:trigger d'[l]} :: 0 <= l < |d| && (l < g.fatStart || g.dataStart <= l) ==> d'[l] == d[l]
  }

  /** All copies of the table are equal. */
  ghost predicate Mirrored(g: Geometry, d: Disk)
    requires GeometryOk(g) && DiskOk(g, d)
  {
    forall k :: 0 <= k < g.fatCount ==> Copy(g, d, k) == Copy(g, d, 0)
  }

  /** The first `n` copies have `v` at `c`; all else is as before. */
  ghost predicate PartlySet(g: Geometry, d: Disk, d': Disk, n: int, c: int, v: int)
    requires GeometryOk(g) && DiskOk(g, d) && 0 <= c < g.totalClusters
  {
    && DiskOk(g, d') && SameData(g, d, d')
    && forall k :: 0 <= k < g.fatCount ==> Copy(g, d', k) == if k < n then Copy(g, d, k)[c := v] else Copy(g, d, k)
  }

  lemma SetNext(g: Geometry, d: Disk, d': Disk, n: int, c: int, v: int)
    requires GeometryOk(g) && DiskOk(g, d) && 0 <= c < g.totalClusters && 0 <= n < g.fatCount && 0 <= v < ENTRY_LIMIT
    requires PartlySet(g, d, d', n, c, v)
    ensures PartlySet(g, d, WithEntry(g, d', n, c, v), n + 1, c, v)
  {
    hide GeometryOk, DiskOk, Copy, WithEntry;
    EntryWritten(g, d', n, c, v);
  }

  /** What a failed `fat_set` may leave: the first copy has the old entry or the new one. */
  ghost predicate Torn(g: Geometry, d: Disk, d': Disk, c: int, v: int)
    requires GeometryOk(g) && DiskOk(g, d) && 0 <= c < g.totalClusters
  {
    && DiskOk(g, d') && SameData(g, d, d')
    && (Copy(g, d', 0) == Copy(g, d, 0) || Copy(g, d', 0) == Copy(g, d, 0)[c := v])
  }

  class FileSys {
    const g: Geometry
    const mirrorDisabled: bool

    /** The device; a reliable one never fails. */
    var disk: Disk
    const reliable: bool

    /** The buffered sector. */
    var sector: Sector
    var secLba: int

    var fsinfoValid: bool
    var fsinfoDirty: bool
    var freeCount: int
    var nextFree: int

    /** The chains of the files and directories that have clusters. */
    ghost var chains: Chains

    ghost predicate Sound()
      reads this
    {
      GeometryOk(g) && DiskOk(g, disk)
    }

    /** The buffer matches the device. */
    ghost predicate Buffered()
      reads this
    {
      && Sound() && SectorOk(g, sector) && |disk| <= NO_SECTOR
      && (0 <= secLba < |disk| ==> sector == disk[secLba])
    }

    /** Between operations. */
    ghost predicate Ready()
      reads this
    {
      && Buffered() && 2 <= nextFree <= g.totalClusters && 0 <= freeCount < U32
      && (!mirrorDisabled ==> Mirrored(g, disk))
    }

    /** The table as `fat_get` reads it. */
    ghost function Fat(): (fat: seq<int>)
      requires Sound()
      reads this
      ensures |fat| == g.totalClusters
    {
      Copy(g, disk, 0)
    }

    /** The chains in the table are not cross-linked. */
    ghost predicate Safe()
      reads this
    {
      VolumeSafe(g, disk, chains)
    }

    ghost predicate Linked()
      reads this
    {
      Ready() && Safe()
    }

    /** No cluster is free. */
    ghost predicate Exhausted()
      reads this
    {
      Sound() && NoneFreeBelow(Fat(), g.totalClusters)
    }

    /** The hint of the file system information sector: no free cluster lies below it. */
    ghost predicate HintOk()
      requires Sound()
      reads this
    {
      fsinfoValid ==> NoneFreeBelow(Fat(), nextFree)
    }

    /** The table ends its chains with one mark only. */
    ghost predicate MarksExact()
      requires Sound()
      reads this
    {
      ExactMarks(Fat())
    }

    /** The count of free clusters, unless it is unknown, is as far off the number of free entries as the count
        `count` was off those of the table `fat`, give or take `extra`. */
    ghost predicate GapKept(count: int, fat: seq<int>, extra: int)
      requires Sound() && |fat| >= 2
      reads this
    {
      fsinfoValid && freeCount != UNKNOWN ==> count != UNKNOWN && Gap(freeCount, Fat()) == (Gap(count, fat) + extra) % U32
    }

    // -------------------------------------------------------------- the sector buffer

    method LoadSector(lba: int) returns (ok: bool)
      requires Buffered() && 0 <= lba < |disk|
      modifies this`sector, this`secLba
      ensures ok ==> Buffered() && secLba == lba && sector == disk[lba]
      ensures reliable ==> ok
    {
      if lba == secLba {
        return true;
      }
      ok := *;
      ok := ok || reliable;
      if !ok {
        sector := *;
        return;
      }
      sector := disk[lba];
      secLba := lba;
    }

    method StoreSector(lba: int) returns (ok: bool)
      requires Sound() && SectorOk(g, sector) && |disk| <= NO_SECTOR && 0 <= lba < |disk|
      modifies this`disk, this`secLba
      ensures if ok then Buffered() && disk == old(disk)[lba := sector] && secLba == lba else disk == old(disk)
      ensures reliable ==> ok
    {
      ok := *;
      ok := ok || reliable;
      if ok {
        disk := disk[lba := sector];
        secLba := lba;
      }
    }

    // -------------------------------------------------------------- table entries

    lemma EntryInside(k: int, c: int)
      requires Sound() && 0 <= k < g.fatCount && 0 <= c < g.totalClusters
      ensures 0 <= EntryLba(g, k, c) < |disk| && EntryLba(g, k, c) < g.dataStart
      ensures 0 <= EntryPos(g, c) && EntryPos(g, c) + 4 <= g.bytesPerSector
      ensures Word(disk[EntryLba(g, k, c)], EntryPos(g, c)) % ENTRY_LIMIT == Copy(g, disk, k)[c]
    {
      EntryPlace(g, k, c);
      EntryOnDisk(g);
      MulOrder(0, k, g.fatSize);
    }

    method FatGet(cluster: int) returns (ok: bool, val: int)
      requires Ready() && 0 <= cluster < g.totalClusters
      modifies this`sector, this`secLba
      ensures ok ==> Ready() && val == Fat()[cluster] && 0 <= val < ENTRY_LIMIT
      ensures reliable ==> ok
    {
      hide DiskOk, Copy, Word, EntryLba, EntryPos, Mirrored;
      EntryInside(0, cluster);
      var lba := EntryLba(g, 0, cluster);
      var pos := EntryPos(g, cluster);
      val := 0;
      ok := LoadSector(lba);
      if ok {
        val := Word(sector, pos) % ENTRY_LIMIT;
      }
    }

    method FatSetSingle(cluster: int, val: int, k: int) returns (ok: bool)
      requires Buffered() && 0 <= cluster < g.totalClusters && 0 <= val < ENTRY_LIMIT && 0 <= k < g.fatCount
      modifies this`disk, this`sector, this`secLba
      ensures if ok then Buffered() && disk == WithEntry(g, old(disk), k, cluster, val) else disk == old(disk)
      ensures reliable ==> ok
    {
      hide GeometryOk, DiskOk, Copy, Word, PutWord, EntryLba, EntryPos, NewWord;
      EntryInside(k, cluster);
      EntryWritten(g, disk, k, cluster, val);
      var lba := EntryLba(g, k, cluster);
      var pos := EntryPos(g, cluster);
      ok := LoadSector(lba);
      if ok {
        sector := PutWord(sector, pos, NewWord(Word(sector, pos), val));
        assert sector == WithEntry(g, disk, k, cluster, val)[lba];
        SectorOfDisk(g, WithEntry(g, disk, k, cluster, val), lba);
        ok := StoreSector(lba);
      }
    }

    /** Sets an entry in all copies, or in the active one. */
    method FatSet(cluster: int, val: int) returns (ok: bool)
      requires Ready() && 0 <= cluster < g.totalClusters && 0 <= val < ENTRY_LIMIT
      modifies this`disk, this`sector, this`secLba
      ensures ok ==> Ready() && Fat() == old(Fat())[cluster := val] && SameData(g, old(disk), disk)
      ensures !ok ==> Torn(g, old(disk), disk, cluster, val)
      ensures reliable ==> ok
    {
      hide DiskOk, SectorOk, Copy, WithEntry, SameData;
      var endFat := if mirrorDisabled then 1 else g.fatCount;
      SameDisk(g, disk);
      for k := 0 to endFat
        invariant Buffered() && PartlySet(g, old(disk), disk, k, cluster, val)
      {
        SetNext(g, old(disk), disk, k, cluster, val);
        ok := FatSetSingle(cluster, val, k);
        if !ok {
          return;
        }
      }
      ok := true;
    }

    /** `fat_set` of a cluster in use to another mark or link: free space stays as it was. */
    method FatLink(cluster: int, val: int) returns (ok: bool)
      requires Ready() && 2 <= cluster < g.totalClusters && 0 < val < ENTRY_LIMIT && Fat()[cluster] != 0
      modifies this`disk, this`sector, this`secLba
      ensures ok ==> Ready() && Fat() == old(Fat())[cluster := val] && SameData(g, old(disk), disk)
      ensures ok && old(HintOk()) ==> HintOk()
      ensures ok && val <= EOC && old(MarksExact()) ==> MarksExact()
      ensures ok ==> GapKept(old(freeCount), old(Fat()), 0)
      ensures !ok ==> Torn(g, old(disk), disk, cluster, val)
      ensures reliable ==> ok
    {
      hide DiskOk, SectorOk, Copy, Mirrored, SameData, CountFree, Torn;
      CountUpdated(Fat(), g.totalClusters, cluster, val);
      ok := FatSet(cluster, val);
    }

    // -------------------------------------------------------------- allocation

    /** `fat_allocate` */
    method FatAllocate() returns (st: Status, out: int)
      requires Ready()
      modifies this`disk, this`sector, this`secLba, this`freeCount, this`nextFree, this`fsinfoDirty
      ensures st.Done? ==>
        && Ready() && 2 <= out < g.totalClusters && old(Fat())[out] == 0
        && Fat() == old(Fat())[out := EOC] && SameData(g, old(disk), disk)
      ensures st.Done? && old(HintOk()) ==>
        HintOk() && NoneFreeBelow(old(Fat()), out)
      ensures st.Done? && old(MarksExact()) ==> MarksExact()
      ensures st.Done? ==> GapKept(old(freeCount), old(Fat()), 0)
      ensures st.Full? ==> Ready() && disk == old(disk) && NoneFreeBelow(Fat(), g.totalClusters)
      ensures st.Full? ==> freeCount == old(freeCount) && nextFree == old(nextFree)
      ensures st.DeviceFailed? ==>
        disk == old(disk) || exists c :: 2 <= c < g.totalClusters && old(Fat())[c] == 0 && Torn(g, old(disk), disk, c, EOC)
      ensures !st.Failed?
      ensures reliable ==> !st.DeviceFailed?
    {
      hide DiskOk, SectorOk, Copy, SameData, Mirrored, CountFree, Torn;
      ghost var fat := Fat();
      out := 0;
      var start := if fsinfoValid then nextFree else 2;
      ghost var start0 := start;
      for pass := 0 to 2
        invariant Ready() && disk == old(disk) && Fat() == fat && 2 <= start <= g.totalClusters
        invariant freeCount == old(freeCount) && nextFree == old(nextFree)
        invariant start == if pass == 0 then start0 else 2
        invariant forall c :: (if pass == 0 then g.totalClusters else if pass == 1 then start0 else 2) <= c < g.totalClusters ==>
          fat[c] != 0
      {
        for c := start to g.totalClusters
          invariant Ready() && disk == old(disk) && Fat() == fat && freeCount == old(freeCount) && nextFree == old(nextFree)
          invariant forall b :: start <= b < c ==> fat[b] != 0
        {
          var ok, val := FatGet(c);
          if !ok {
            return DeviceFailed, 0;
          }
          if val == 0 {
            out := c;
            st := TakeCluster(c);
            return;
          }
        }
        start := 2;
      }
      st := Full;
    }

    /** What `fat_allocate` does with the free cluster it found. */
    method TakeCluster(c: int) returns (st: Status)
      requires Ready() && 2 <= c < g.totalClusters && Fat()[c] == 0
      modifies this`disk, this`sector, this`secLba, this`freeCount, this`nextFree, this`fsinfoDirty
      ensures st.Done? || st.DeviceFailed?
      ensures st.Done? ==> Ready() && Fat() == old(Fat())[c := EOC] && SameData(g, old(disk), disk)
      ensures st.Done? ==> nextFree == if fsinfoValid then c + 1 else old(nextFree)
      ensures st.Done? ==> GapKept(old(freeCount), old(Fat()), 0)
      ensures st.DeviceFailed? ==> Torn(g, old(disk), disk, c, EOC)
      ensures reliable ==> !st.DeviceFailed?
    {
      hide GeometryOk, DiskOk, SectorOk, Copy, SameData, Mirrored, Torn, CountFree;
      if fsinfoValid {
        if freeCount != UNKNOWN {
          freeCount := (freeCount - 1) % U32;
        }
        nextFree := c + 1;
        fsinfoDirty := true;
      }
      var ok := FatSet(c, EOC);
      st := if ok then Done else DeviceFailed;
      if ok {
        CountUpdated(old(Fat()), g.totalClusters, c, EOC);
        SameGap(old(freeCount), old(Fat()), Fat(), -1);
      }
    }

    /** One round of `fat_free_chain`. */
    method FreeCluster(cluster: int) returns (ok: bool, next: int)
      requires Ready() && 2 <= cluster < g.totalClusters
      modifies this`disk, this`sector, this`secLba, this`freeCount, this`nextFree, this`fsinfoDirty
      ensures ok ==> Ready() && Fat() == old(Fat())[cluster := 0] && next == old(Fat())[cluster]
      ensures ok ==> SameData(g, old(disk), disk)
      ensures ok && fsinfoValid && freeCount != UNKNOWN ==>
        old(freeCount) != UNKNOWN && freeCount == (old(freeCount) + 1) % U32
      ensures ok && old(HintOk()) ==> HintOk()
      ensures ok && old(MarksExact()) ==> MarksExact()
      ensures !ok ==> disk == old(disk) || Torn(g, old(disk), disk, cluster, 0)
      ensures reliable ==> ok
    {
      hide DiskOk, SectorOk, Copy, SameData, Mirrored, Torn;
      ok, next := FatGet(cluster);
      if ok {
        if fsinfoValid {
          if freeCount != UNKNOWN {
            freeCount := (freeCount + 1) % U32;
          }
          if cluster < nextFree {
            nextFree := cluster;
          }
          fsinfoDirty := true;
        }
        ok := FatSet(cluster, 0);
      }
    }

    /** `fat_free_chain`: it ends wherever it does not leave the table, for it frees as it walks.  `reach` is whatever
        the start leads to. */
    method FatFreeChain(start: int, ghost reach: set<int>) returns (ok: bool)
      requires Ready() && (IsLink(start) ==> start < g.totalClusters && start in reach) && Closed(Fat(), reach)
      modifies this`disk, this`sector, this`secLba, this`freeCount, this`nextFree, this`fsinfoDirty
      ensures ok ==> Ready() && Fat() == FreeRun(old(Fat()), start).0 && SameData(g, old(disk), disk)
      ensures ok && old(HintOk()) ==> HintOk()
      ensures ok && old(MarksExact()) ==> MarksExact()
      ensures ok ==>
        GapKept(old(freeCount), old(Fat()), if InTable(old(Fat()), start) && EndsFree(old(Fat()), start) then 1 else 0)
      ensures !ok ==> DiskOk(g, disk) && SameData(g, old(disk), disk) && FreedWithin(old(Fat()), Fat(), reach)
      ensures reliable ==> ok
    {
      hide DiskOk, SectorOk, Copy, SameData, Mirrored, CountFree, FreeRun, EndsFree, Torn, NoneFreeBelow, FreedWithin,
           Closed;
      ghost var fat0, n, d0 := Fat(), 0, disk;
      FreeRunAny(fat0, start);
      SameDisk(g, disk);
      NothingFreed(fat0, reach);
      var cluster := start;
      while IsLink(cluster)
        invariant Ready() && (IsLink(cluster) ==> cluster < g.totalClusters)
        invariant SameData(g, d0, disk) && FreedWithin(fat0, Fat(), reach) && Closed(Fat(), reach)
        invariant IsLink(cluster) ==> cluster in reach
        invariant FreeRun(Fat(), cluster).0 == FreeRun(fat0, start).0
        invariant FreeRun(Fat(), cluster).1 + n == FreeRun(fat0, start).1
        invariant fsinfoValid && freeCount != UNKNOWN ==>
          old(freeCount) != UNKNOWN && freeCount == (old(freeCount) + n) % U32
        invariant old(HintOk()) ==> HintOk()
        invariant old(MarksExact()) ==> MarksExact()
        decreases FreeRun(Fat(), cluster).1
      {
        ghost var fat, before := Fat(), disk;
        FreeRunStep(fat, cluster);
        OneFreed(fat0, fat, reach, cluster);
        NextCount(freeCount, old(freeCount), n);
        ghost var freed := cluster;
        ok, cluster := FreeCluster(cluster);
        if !ok {
          FreeTorn(g, d0, before, disk, reach, freed);
          return;
        }
        SameDataTrans(g, d0, before, disk);
        n := n + 1;
      }
      ok := true;
      FreeRunDone(Fat(), cluster);
      CountGap(old(freeCount), fat0, Fat(), n, if InTable(fat0, start) && EndsFree(fat0, start) then 1 else 0);
    }

    /** `fat_free_chain` on a complete chain: exactly its clusters become free, and are counted. */
    method FreeWholeChain(start: int, ghost cs: seq<int>) returns (ok: bool)
      requires Ready() && IsChain(Fat(), cs) && cs[0] == start && g.totalClusters <= EOC
      modifies this`disk, this`sector, this`secLba, this`freeCount, this`nextFree, this`fsinfoDirty
      ensures ok ==> Ready() && Freed(old(Fat()), Fat(), cs) && SameData(g, old(disk), disk)
      ensures ok && old(HintOk()) ==> HintOk()
      ensures ok && old(MarksExact()) ==> MarksExact()
      ensures ok ==> GapKept(old(freeCount), old(Fat()), 0)
      ensures !ok ==> DiskOk(g, disk) && SameData(g, old(disk), disk) && FreedWithin(old(Fat()), Fat(), ClustersOf(cs))
      ensures reliable ==> ok
    {
      hide DiskOk, SectorOk, Copy, SameData, Mirrored, CountFree, FreeRun, EndsFree, NoneFreeBelow, FreedWithin,
           Closed, IsChain, Freed, ClustersOf;
      WholeChain(Fat(), cs);
      ok := FatFreeChain(start, ClustersOf(cs));
    }

    /** `fat_recompute_free_clusters`: the count comes out two too high. */
    method FatRecomputeFreeClusters() returns (ok: bool, free: int, next: int)
      requires Ready()
      modifies this`sector, this`secLba
      ensures ok ==> Ready() && free == CountFree(Fat(), g.totalClusters) + 2
      ensures ok ==> NoneFreeBelow(Fat(), next)
      ensures ok ==> 2 <= next < g.totalClusters || next == 2
      ensures ok && free > 2 ==> next < g.totalClusters && Fat()[next] == 0
      ensures reliable ==> ok
    {
      hide DiskOk, SectorOk, Copy, Mirrored;
      ghost var fat := Fat();
      free, next := 0, 0;
      var first := 0;
      for c := 2 to g.totalClusters
        invariant Ready() && disk == old(disk) && Fat() == fat && free == CountFree(fat, c)
        invariant first == 0 ==> free == 0 && forall b :: 2 <= b < c ==> fat[b] != 0
        invariant first != 0 ==> 2 <= first < c && fat[first] == 0 && forall b :: 2 <= b < first ==> fat[b] != 0
      {
        var val;
        ok, val := FatGet(c);
        if !ok {
          return;
        }
        if val == 0 {
          free := free + 1;
          if first == 0 {
            first := c;
          }
        }
      }
      ok := true;
      free := free + 2;
      next := if first != 0 then first else 2;
    }

    /** The part of `mount` that rebuilds the free space information. */
    method RebuildFreeInfo() returns (ok: bool)
      requires Ready() && g.totalClusters < U32 - 2
      modifies this`sector, this`secLba, this`fsinfoValid, this`freeCount, this`nextFree
      ensures ok ==> Ready() && fsinfoValid && HintOk() && disk == old(disk) && Gap(freeCount, Fat()) == 2
      ensures reliable ==> ok
    {
      hide DiskOk, SectorOk, Copy, Mirrored, CountFree;
      var count, next;
      ok, count, next := FatRecomputeFreeClusters();
      if ok {
        freeCount := count;
        nextFree := next;
        fsinfoValid := true;
      }
    }

    /** `fat_cluster_at`, wherever it does not leave the table; `reach` is whatever the start leads to. */
    method FatClusterAt(start: int, index: int, ghost reach: set<int>) returns (ok: bool, cluster: int)
      requires Ready() && (IsLink(start) ==> start < g.totalClusters && start in reach) && Closed(Fat(), reach) && index >= 0
      modifies this`sector, this`secLba
      ensures ok ==> Ready() && cluster == WalkTo(Fat(), start, index)
      ensures reliable ==> ok
    {
      hide DiskOk, SectorOk, Copy, Mirrored;
      ghost var fat := Fat();
      cluster := start;
      var left := index;
      while left > 0 && IsLink(cluster)
        invariant Ready() && disk == old(disk) && Fat() == fat && 0 <= left <= index
        invariant IsLink(cluster) ==> cluster < g.totalClusters && cluster in reach
        invariant WalkTo(fat, cluster, left) == WalkTo(fat, start, index)
        decreases left
      {
        left := left - 1;
        ok, cluster := FatGet(cluster);
        if !ok {
          return;
        }
      }
      ok := true;
    }

    /** `cluster_for_offset` on a complete chain: it fails exactly past the end of the chain. */
    method ClusterForOffset(first: int, offset: int, ghost cs: seq<int>) returns (st: Status, cluster: int)
      requires Ready() && IsChain(Fat(), cs) && cs[0] == first && offset >= 0 && ClusterBytes(g) > 0
      modifies this`sector, this`secLba
      ensures st.Done? ==>
        Ready() && 0 <= BytesToClusters(g, offset) < |cs| && cluster == cs[BytesToClusters(g, offset)]
      ensures st.Failed? ==> Ready() && BytesToClusters(g, offset) >= |cs|
      ensures !st.Full?
      ensures reliable ==> !st.DeviceFailed?
    {
      hide DiskOk, SectorOk, Copy, Mirrored, ClusterBytes;
      DivMod(offset, ClusterBytes(g));
      ghost var fat := Fat();
      var index := BytesToClusters(g, offset);
      cluster := first;
      for i := 0 to index
        invariant Ready() && disk == old(disk) && Fat() == fat && i < |cs| && cluster == cs[i]
      {
        assert i < |cs| - 1 ==> fat[cs[i]] == cs[i + 1];
        var ok;
        ok, cluster := FatGet(cluster);
        if !ok {
          return DeviceFailed, 0;
        }
        if cluster >= EOC {
          return Failed, 0;
        }
      }
      st := Done;
    }

    /** `fsck_chain_length`, and the loop of `truncate` that counts clusters, on a chain that ends. */
    method ChainLength(start: int, ghost cs: seq<int>) returns (ok: bool, n: int)
      requires Ready() && IsWalk(Fat(), cs) && cs[0] == start && g.totalClusters <= EOC
      modifies this`sector, this`secLba
      ensures ok ==> Ready() && n == |cs|
      ensures reliable ==> ok
    {
      hide DiskOk, SectorOk, Copy, Mirrored;
      ghost var fat := Fat();
      n := 0;
      var c := start;
      while IsLink(c)
        invariant Ready() && disk == old(disk) && Fat() == fat && 0 <= n <= |cs|
        invariant if n < |cs| then c == cs[n] else !IsLink(c)
        decreases |cs| - n
      {
        assert n < |cs| - 1 ==> fat[cs[n]] == cs[n + 1];
        n := n + 1;
        ok, c := FatGet(c);
        if !ok {
          return;
        }
      }
      ok := true;
    }
  }

  /** A free cluster was end-marked: the chains are as before, and do not use it. */
  lemma TakenSafe(g: Geometry, d: Disk, d': Disk, chains: Chains, c: int)
    requires VolumeSafe(g, d, chains) && DiskOk(g, d')
    requires 2 <= c < g.totalClusters && Copy(g, d, 0)[c] == 0 && Copy(g, d', 0) == Copy(g, d, 0)[c := EOC]
    ensures VolumeSafe(g, d', chains) && forall h :: h in chains ==> c !in chains[h]
  {
    hide Copy, DiskOk;
    var fat := Copy(g, d, 0);
    FatChains.Allocated(fat, chains, c, EOC);
    forall h | h in chains
      ensures c !in chains[h]
    {
      assert IsChain(fat, chains[h]);
      FreeOutside(fat, chains[h], c);
    }
  }

  lemma SectorOfDisk(g: Geometry, d: Disk, l: int)
    requires DiskOk(g, d) && 0 <= l < |d|
    ensures SectorOk(g, d[l])
  {}

  lemma SameDisk(g: Geometry, d: Disk)
    ensures SameData(g, d, d)
  {}

  /** How far a 32-bit count is off the number of free entries. */
  ghost function Gap(count: int, fat: seq<int>): (r: int)
    requires |fat| >= 2
    ensures 0 <= r < U32
  {
    (count - CountFree(fat, |fat|)) % U32
  }

  lemma ModStep(x: int, y: int)
    ensures (x % U32 + y) % U32 == (x + y) % U32
  {
    assert x == U32 * (x / U32) + x % U32;
  }

  /** The count moves by `step` along with the number of free entries. */
  lemma SameGap(count: int, fat: seq<int>, fat': seq<int>, step: int)
    requires |fat| == |fat'| >= 2 && CountFree(fat', |fat'|) == CountFree(fat, |fat|) + step
    ensures Gap((count + step) % U32, fat') == (Gap(count, fat) + 0) % U32
  {
    CountGap(count, fat, fat', step, 0);
  }

  lemma CountGap(count: int, fat: seq<int>, fat': seq<int>, n: int, extra: int)
    requires |fat| == |fat'| >= 2 && n == CountFree(fat', |fat'|) - CountFree(fat, |fat|) + extra
    ensures Gap((count + n) % U32, fat') == (Gap(count, fat) + extra) % U32
  {
    var a, b := CountFree(fat, |fat|), CountFree(fat', |fat'|);
    hide CountFree;
    ModStep(count + n, -b);
    ModStep(count - a, extra);
  }

  lemma SameDataTrans(g: Geometry, a: Disk, b: Disk, c: Disk)
    requires SameData(g, a, b) && SameData(g, b, c)
    ensures SameData(g, a, c)
  {}

  lemma NextCount(x: int, x0: int, n: int)
    ensures x == (x0 + n) % U32 ==> (x + 1) % U32 == (x0 + (n + 1)) % U32
  {
    ModStep(x0 + n, 1);
  }

  lemma NothingFreed(fat: seq<int>, reach: set<int>)
    ensures FreedWithin(fat, fat, reach)
  {}

  lemma OneFreed(fat0: seq<int>, fat: seq<int>, reach: set<int>, c: int)
    requires FreedWithin(fat0, fat, reach) && Closed(fat, reach) && c in reach && 2 <= c < |fat|
    ensures FreedWithin(fat0, fat[c := 0], reach) && Closed(fat[c := 0], reach)
    ensures IsLink(fat[c]) ==> fat[c] < |fat| && fat[c] in reach
  {}

  lemma FreeTorn(g: Geometry, d0: Disk, d: Disk, d': Disk, reach: set<int>, c: int)
    requires GeometryOk(g) && DiskOk(g, d0) && DiskOk(g, d) && SameData(g, d0, d) && 2 <= c < g.totalClusters
    requires FreedWithin(Copy(g, d0, 0), Copy(g, d, 0), reach)
    requires FreedWithin(Copy(g, d0, 0), Copy(g, d, 0)[c := 0], reach)
    requires d' == d || Torn(g, d, d', c, 0)
    ensures DiskOk(g, d') && SameData(g, d0, d') && FreedWithin(Copy(g, d0, 0), Copy(g, d', 0), reach)
  {}

  lemma FreeRunStep(fat: seq<int>, c: int)
    requires InTable(fat, c) && |fat| >= 2
    ensures FreeRun(fat, c).0 == FreeRun(fat[c := 0], fat[c]).0 && FreeRun(fat, c).1 == FreeRun(fat[c := 0], fat[c]).1 + 1
  {}

  lemma FreeRunDone(fat: seq<int>, c: int)
    requires !IsLink(c) && |fat| >= 2
    ensures FreeRun(fat, c) == (fat, 0)
  {}

  /** Freeing a whole chain: what the walk frees, and that it is counted right. */
  lemma WholeChain(fat: seq<int>, cs: seq<int>)
    requires IsChain(fat, cs) && |fat| <= EOC
    ensures 2 <= cs[0] < |fat| && IsLink(cs[0]) && Freed(fat, FreeRun(fat, cs[0]).0, cs) && !EndsFree(fat, cs[0])
    ensures Closed(fat, ClustersOf(cs)) && cs[0] in ClustersOf(cs)
  {
    FreeRunChain(fat, cs);
    ChainEndsMarked(fat, cs);
    ChainClosed(fat, cs);
  }
}
