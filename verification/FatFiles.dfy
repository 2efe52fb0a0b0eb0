/** Files: reading, writing, growing and shrinking them, over the table and the sector buffer. */
module FatFiles {
  import opened FatDisk
  import opened FatChains
  import opened FatData
  import opened FatBytes
  import opened FatSystem

  datatype SeekOp = SET | CUR | END

  class File {
    const fs: FileSys
    const dirLba: int
    const dirOffset: int
    const isDirectory: bool
    var fileSize: int
    var filePos: int
    var firstCluster: int

    /** Which directory entry it is. */
    ghost const entry: Dirent

    /** What `open` fills in from the directory entry that it found. */
    constructor (system: FileSys, lba: int, offset: int, directory: bool, first: int, size: int, ghost found: Dirent)
      ensures fs == system && dirLba == lba && dirOffset == offset && isDirectory == directory && entry == found
      ensures firstCluster == first && fileSize == size && filePos == 0
    {
      fs, dirLba, dirOffset, isDirectory := system, lba, offset, directory;
      firstCluster, fileSize, filePos := first, size, 0;
      entry := found;
    }

    /** What a crash leaves is in order. */
    ghost predicate CrashSafe()
      reads fs
    {
      fs.Safe() && EntrySafe(fs.g, fs.disk, fs.chains, entry)
    }

    /** Between operations. */
    ghost predicate Valid()
      reads this, fs
    {
      && fs.Linked() && EntrySafe(fs.g, fs.disk, fs.chains, entry) && entry.lba == dirLba && entry.offset == dirOffset
      && HandleOk(fs.g, fs.chains, entry.id, firstCluster, fileSize) && 0 <= filePos < U32
    }

    /** As `Valid`, but the chain may be too short for the size. */
    ghost predicate ValidButSize()
      reads this, fs
    {
      && fs.Linked() && EntrySafe(fs.g, fs.disk, fs.chains, entry) && entry.lba == dirLba && entry.offset == dirOffset
      && HandleOk(fs.g, fs.chains, entry.id, firstCluster, 0) && 0 <= fileSize < U32 && 0 <= filePos < U32
    }

    /** The size fits into the chain. */
    ghost predicate SizeFits()
      reads this, fs
    {
      fileSize <= Capacity(fs.g, Chain())
    }

    lemma ValidWhenFits()
      ensures Valid() <==> ValidButSize() && SizeFits()
    {
      if ValidButSize() {
        CapacityOrder(fs.g, [], Chain());
      }
    }

    /** Shortening to `newSize` bytes gives clusters back that the entry on the device leads to. */
    ghost predicate Cuts(newSize: int)
      requires fs.Sound() && ClusterBytes(fs.g) > 0
      reads this, fs
    {
      && newSize < fileSize && ClustersKept(fs.g, newSize) < |Chain()|
      && EntryPlaced(fs.g, fs.disk, fs.chains, entry) && FirstOnDisk(fs.g, fs.disk, fs.chains, entry) != 0
    }

    ghost function Chain(): seq<int>
      reads fs
    {
      ChainOf(fs.chains, entry.id)
    }

    /** The table changed from `fat` on, and the chain of this file from `cs` on, and nothing else in the table. */
    ghost predicate Stepped(fat: seq<int>, cs: seq<int>)
      requires fs.Sound()
      reads fs
    {
      TableStep(fat, fs.Fat(), cs, Chain())
    }

    /** The bytes of all clusters of the file. */
    ghost function AllBytes(): seq<int>
      requires fs.Safe()
      reads fs
    {
      ChainFacts(fs.g, fs.disk, fs.chains, entry.id);
      Content(fs.g, fs.disk, Chain())
    }

    /** The bytes of the file. */
    ghost function Bytes(): seq<int>
      requires Valid()
      reads this, fs
    {
      AllBytes()[..fileSize]
    }

    lemma BytesLength()
      requires Valid()
      ensures 0 <= fileSize <= |AllBytes()| == Capacity(fs.g, Chain()) && |Bytes()| == fileSize
    {}

    // -------------------------------------------------------------- reading

    /** The sector that holds the next byte. */
    method FindSector() returns (ok: bool, lba: int)
      requires Valid() && filePos < fileSize
      modifies fs`sector, fs`secLba
      ensures ok ==> Valid() && 0 <= BytesToSectors(fs.g, filePos)
      ensures ok ==> BytesToSectors(fs.g, filePos) / fs.g.sectorsPerCluster < |Chain()|
      ensures ok ==> lba == SectorLba(fs.g, Chain(), BytesToSectors(fs.g, filePos))
      ensures fs.reliable ==> ok
    {
      hide TableStep, DiskOk, SectorOk, Copy, Mirrored, VolumeSafe, EntrySafe, BytesToClusters, BytesToSectors,
           InCluster, InSector, Capacity, ClusterBytes, Sectors, SectorLba, ClusterLba, ClustersOk, AllClustersOk,
           Distinct;
      ghost var cs := Chain();
      ChainFacts(fs.g, fs.disk, fs.chains, entry.id);
      WithinCapacity(fs.g, cs, filePos);
      LbaOfByte(fs.g, fs.disk, cs, filePos);
      lba := 0;
      var st, cluster := fs.ClusterForOffset(firstCluster, filePos, cs);
      ok := st.Done?;
      if ok {
        var clusterOffset := InCluster(fs.g, filePos);
        lba := ClusterLba(fs.g, cluster) + BytesToSectors(fs.g, clusterOffset);
      }
    }

    /** One round of the loop of `File::read`: up to the end of the sector. */
    method ReadPiece(remaining: int) returns (ok: bool, piece: seq<int>)
      requires Valid() && filePos < fileSize && 0 < remaining <= fileSize - filePos
      modifies this`filePos, fs`sector, fs`secLba
      ensures ok ==> Valid() && 0 < |piece| <= remaining && filePos == old(filePos) + |piece|
      ensures ok ==> AllBytes() == old(AllBytes()) && filePos <= |AllBytes()| && piece == AllBytes()[old(filePos)..filePos]
      ensures fs.reliable ==> ok
    {
      hide TableStep, DiskOk, SectorOk, Copy, Mirrored, VolumeSafe, EntrySafe, Content, Blocks, BytesToSectors,
           InCluster, InSector, Capacity, ClusterBytes, Sectors, SectorLba, ClustersOk, AllClustersOk, Distinct;
      ghost var cs := Chain();
      ChainFacts(fs.g, fs.disk, fs.chains, entry.id);
      LbaOfByte(fs.g, fs.disk, cs, filePos);
      piece := [];
      var lba;
      ok, lba := FindSector();
      if !ok {
        return;
      }
      ok := fs.LoadSector(lba);
      if !ok {
        return;
      }
      var sectorOffset := InSector(fs.g, InCluster(fs.g, filePos));
      var toCopy := if fs.g.bytesPerSector - sectorOffset < remaining then fs.g.bytesPerSector - sectorOffset else remaining;
      BytesOfSector(fs.g, fs.disk, cs, filePos, toCopy);
      SectorLength(fs.g, fs.sector);
      piece := fs.sector[sectorOffset..sectorOffset + toCopy];
      filePos := if filePos + toCopy < fileSize then filePos + toCopy else fileSize;
    }

    /** The loop of `File::read`. */
    method ReadAll(len: int) returns (ok: bool, buffer: seq<int>)
      requires Valid() && 0 <= len <= fileSize - filePos
      modifies this`filePos, fs`sector, fs`secLba
      ensures ok ==> Valid() && filePos == old(filePos) + len && fileSize <= |AllBytes()|
      ensures ok ==> buffer == AllBytes()[old(filePos)..filePos] && AllBytes() == old(AllBytes())
      ensures fs.reliable ==> ok
    {
      BytesLength();
      hide TableStep, DiskOk, SectorOk, Copy, Mirrored, VolumeSafe, EntrySafe, HandleOk, File.AllBytes, File.Chain;
      ghost var all, start := AllBytes(), filePos;
      buffer := [];
      ok := true;
      var remaining := len;
      while remaining > 0
        invariant Valid() && ok && AllBytes() == all && remaining >= 0 && start <= filePos && filePos + remaining <= fileSize <= |all|
        invariant filePos + remaining == start + len && buffer == all[start..filePos]
        decreases remaining
      {
        var piece;
        ok, piece := ReadPiece(remaining);
        if !ok {
          return;
        }
        buffer := buffer + piece;
        remaining := remaining - |piece|;
      }
    }

    /** `File::read`: the bytes from the file position on, up to the end of the file. */
    method Read(len: int) returns (ok: bool, buffer: seq<int>)
      requires Valid() && 0 <= len && filePos + len < U32
      modifies this`filePos, fs`sector, fs`secLba
      ensures ok ==> Valid() && filePos == old(filePos) + |buffer|
      ensures ok ==>
        |buffer| == if old(filePos) >= fileSize then 0 else if len < fileSize - old(filePos) then len else fileSize - old(filePos)
      ensures ok && buffer != [] ==> filePos <= fileSize && buffer == Bytes()[old(filePos)..filePos]
      ensures ok ==> OnVolume(fs.g, fs.disk, Chain(), old(filePos), buffer)
      ensures fs.reliable ==> ok
    {
      hide TableStep, DiskOk, SectorOk, Copy, Mirrored, VolumeSafe, EntrySafe, HandleOk, File.AllBytes, File.Chain,
           OnVolume;
      NothingOnVolume(fs.g, fs.disk, Chain(), filePos);
      if filePos >= fileSize {
        return true, [];
      }
      ghost var start := filePos;
      ok, buffer := ReadAll(if filePos + len > fileSize then fileSize - filePos else len);
      if ok {
        SliceOfPrefix(AllBytes(), fileSize, start, filePos);
        BytesOnVolume(start, buffer);
      }
    }

    lemma BytesOnVolume(p: int, s: seq<int>)
      requires Valid() && 0 <= p && p + |s| <= fileSize && fileSize <= |AllBytes()| && s == AllBytes()[p..p + |s|]
      ensures OnVolume(fs.g, fs.disk, Chain(), p, s)
    {
      ChainFacts(fs.g, fs.disk, fs.chains, entry.id);
      hide Content, OnVolume;
      ContentOnVolume(fs.g, fs.disk, Chain(), p, s);
    }

    /** `File::lseek`: positions from 2^31 on are taken for negative. */
    method Lseek(offset: int, whence: SeekOp) returns (ok: bool)
      requires Valid() && -0x8000_0000 <= offset < 0x8000_0000
      modifies this`filePos
      ensures Valid() && fileSize == old(fileSize)
      ensures var wanted := offset + (match whence case SET => 0 case CUR => old(filePos) case END => fileSize);
        && (ok <==> wanted % U32 < 0x8000_0000)
        && filePos == if ok then wanted % U32 else old(filePos)
    {
      hide TableStep, EntrySafe, VolumeSafe, HandleOk, Mirrored, DiskOk;
      var newPos := match whence
        case SET => offset % U32
        case CUR => (filePos + offset) % U32
        case END => (fileSize + offset) % U32;
      ok := newPos < 0x8000_0000;
      if ok {
        filePos := newPos;
      }
    }

    // -------------------------------------------------------------- the directory entry

    /** `update_dirent`: only the bytes of this entry change on the device. */
    method UpdateDirent() returns (ok: bool)
      requires fs.Linked() && EntryPlaced(fs.g, fs.disk, fs.chains, entry) && entry.lba == dirLba && entry.offset == dirOffset
      requires 0 <= fileSize < U32 && 0 <= firstCluster < U32
      modifies fs`disk, fs`sector, fs`secLba
      ensures ok ==> fs.Linked() && fs.Fat() == old(fs.Fat()) && EntryPlaced(fs.g, fs.disk, fs.chains, entry)
      ensures ok ==> FirstOnDisk(fs.g, fs.disk, fs.chains, entry) == firstCluster
      ensures ok ==> SizeOnDisk(fs.g, fs.disk, fs.chains, entry) == fileSize
      ensures ok ==> DirentUpdated(fs.g, old(fs.disk), fs.disk, fs.chains, entry, FIELDS)
      ensures ok && old(fs.HintOk()) ==> fs.HintOk()
      ensures ok && old(fs.MarksExact()) ==> fs.MarksExact()
      ensures ok ==> fs.GapKept(old(fs.freeCount), old(fs.Fat()), 0)
      ensures !ok ==> fs.disk == old(fs.disk)
      ensures fs.reliable ==> ok
    {
      hide TableStep, DiskOk, SectorOk, Copy, Mirrored, VolumeSafe, EntryPlaced, DirentUpdated, FirstOnDisk, SizeOnDisk;
      PlacedInside(fs.g, fs.disk, fs.chains, entry);
      ok := fs.LoadSector(dirLba);
      if ok {
        EntryStored(fs.g, fs.disk, fs.chains, entry, fileSize, firstCluster);
        SectorLength(fs.g, fs.sector);
        fs.sector := WithDirent(fs.sector, dirOffset, fileSize, firstCluster);
        ok := fs.StoreSector(dirLba);
      }
    }

    // -------------------------------------------------------------- growing the chain

    /** What `write` and `ensure_cluster_index` do for a file without clusters. */
    method StartChain() returns (st: Status)
      requires Valid() && firstCluster == 0
      modifies this`firstCluster, fs`disk, fs`sector, fs`secLba, fs`freeCount, fs`nextFree, fs`fsinfoDirty, fs`chains
      ensures st.Done? ==> Valid() && firstCluster != 0
      ensures st.Full? ==> Valid() && fs.disk == old(fs.disk) && fs.chains == old(fs.chains)
      ensures st.Full? ==> fs.Exhausted()
      ensures st.Full? ==> |Chain()| == 0
      ensures st.DeviceFailed? ==> CrashSafe()
      ensures !st.Failed? && Grown(old(fs.chains), fs.chains, entry.id)
      ensures FileGrew(fs.g, old(fs.disk), fs.disk, old(fs.chains), fs.chains, entry)
      ensures !st.DeviceFailed? && old(fs.HintOk()) ==> fs.HintOk()
      ensures !st.DeviceFailed? && old(fs.MarksExact()) ==> fs.MarksExact()
      ensures !st.DeviceFailed? ==> fs.GapKept(old(fs.freeCount), old(fs.Fat()), 0)
      ensures !st.DeviceFailed? ==> Stepped(old(fs.Fat()), old(Chain()))
      ensures fs.reliable ==> !st.DeviceFailed?
    {
      hide TableStep, DiskOk, SectorOk, Copy, Mirrored, VolumeSafe, EntryPlaced, EntrySafe, Torn, SameData,
           DirentUpdated, FirstOnDisk, SizeOnDisk, FileGrew, Gap;
      ghost var d0, chains0 := fs.disk, fs.chains;
      SafeIsPlaced(fs.g, d0, chains0, entry);
      NothingGrew(fs.g, d0, chains0, entry);
      StepSame(fs.Fat(), Chain());
      ghost var fat0 := fs.Fat();
      var c;
      st, c := fs.FatAllocate();
      if st.DeviceFailed? {
        AllocationTorn(fs.g, d0, fs.disk, chains0, entry);
      }
      if !st.Done? {
        return;
      }
      ClusterTaken(fs.g, d0, fs.disk, chains0, entry, c);
      firstCluster := c;
      fs.chains := fs.chains[entry.id := [c]];
      ghost var d1 := fs.disk;
      ChainStarted(fs.g, d0, d1, chains0, entry, c, fileSize);
      StepStarted(fat0, c);
      var ok := UpdateDirent();
      if ok {
        EntryNowSafe(fs.g, fs.disk, fs.chains, entry);
        GrewAndUpdated(fs.g, d0, d1, fs.disk, chains0, fs.chains, entry);
      } else {
        st := DeviceFailed;
      }
    }

    /** The growing step of `ensure_cluster_index`: a new cluster is allocated, then linked. */
    method AppendCluster(last: int) returns (st: Status, added: int)
      requires Valid() && firstCluster != 0 && last == Chain()[|Chain()| - 1]
      modifies fs`disk, fs`sector, fs`secLba, fs`freeCount, fs`nextFree, fs`fsinfoDirty, fs`chains
      ensures st.Done? ==> Valid() && Chain() == old(Chain()) + [added]
      ensures st.Full? ==> Valid() && fs.disk == old(fs.disk) && fs.chains == old(fs.chains)
      ensures st.Full? ==> fs.Exhausted()
      ensures st.DeviceFailed? ==> CrashSafe()
      ensures !st.Failed? && Grown(old(fs.chains), fs.chains, entry.id)
      ensures FileGrew(fs.g, old(fs.disk), fs.disk, old(fs.chains), fs.chains, entry)
      ensures !st.DeviceFailed? && old(fs.HintOk()) ==> fs.HintOk()
      ensures !st.DeviceFailed? && old(fs.MarksExact()) ==> fs.MarksExact()
      ensures !st.DeviceFailed? ==> fs.GapKept(old(fs.freeCount), old(fs.Fat()), 0)
      ensures !st.DeviceFailed? ==> Stepped(old(fs.Fat()), old(Chain()))
      ensures fs.reliable ==> !st.DeviceFailed?
    {
      hide TableStep, DiskOk, SectorOk, Copy, Mirrored, VolumeSafe, EntryPlaced, EntrySafe, Torn, SameData, FileGrew, Gap,
           NoneFreeBelow, NoCrossLinks;
      ghost var d0, chains0 := fs.disk, fs.chains;
      SafeIsPlaced(fs.g, d0, chains0, entry);
      NothingGrew(fs.g, d0, chains0, entry);
      StepSame(fs.Fat(), Chain());
      ghost var fat0, cs0 := fs.Fat(), Chain();
      st, added := fs.FatAllocate();
      if st.DeviceFailed? {
        AllocationTorn(fs.g, d0, fs.disk, chains0, entry);
      }
      if !st.Done? {
        return;
      }
      ClusterTaken(fs.g, d0, fs.disk, chains0, entry, added);
      var ok := LinkLast(last, added, d0);
      if ok {
        StepAppended(fat0, fs.Fat(), cs0, added);
      }
      st := if ok then Done else DeviceFailed;
    }

    /** An allocated cluster is linked behind the last one of the chain; `d0` is the device before the allocation. */
    method LinkLast(last: int, added: int, ghost d0: Disk) returns (ok: bool)
      requires Valid() && firstCluster != 0 && last == Chain()[|Chain()| - 1]
      requires 2 <= added < fs.g.totalClusters && fs.Fat()[added] == EOC
      requires forall h :: h in fs.chains ==> added !in fs.chains[h]
      requires VolumeSafe(fs.g, d0, fs.chains) && EntryPlaced(fs.g, d0, fs.chains, entry) && SameData(fs.g, d0, fs.disk)
      modifies fs`disk, fs`sector, fs`secLba, fs`chains
      ensures ok ==> Valid() && Chain() == old(Chain()) + [added]
      ensures !ok ==> CrashSafe()
      ensures ok ==> KeptBut(old(fs.Fat()), fs.Fat(), old(Chain()), added)
      ensures Grown(old(fs.chains), fs.chains, entry.id) && FileGrew(fs.g, d0, fs.disk, old(fs.chains), fs.chains, entry)
      ensures ok && old(fs.HintOk()) ==> fs.HintOk()
      ensures ok && old(fs.MarksExact()) ==> fs.MarksExact()
      ensures ok ==> fs.GapKept(old(fs.freeCount), old(fs.Fat()), 0)
      ensures fs.reliable ==> ok
    {
      hide TableStep, DiskOk, SectorOk, Copy, Mirrored, VolumeSafe, EntryPlaced, EntrySafe, Torn, SameData, FileGrew, Gap,
           NoneFreeBelow, NoCrossLinks, IsChain;
      ghost var d1, chains0 := fs.disk, fs.chains;
      ChainFacts(fs.g, d1, chains0, entry.id);
      LastCluster(fs.Fat(), Chain());
      ok := fs.FatLink(last, added);
      if ok {
        fs.chains := fs.chains[entry.id := Chain() + [added]];
        ChainExtended(fs.g, d0, d1, fs.disk, chains0, entry, added, firstCluster, fileSize);
      } else {
        fs.chains := LinkTorn(fs.g, d0, d1, fs.disk, chains0, entry, added);
      }
    }

    /** One round of `ensure_cluster_index`: follow the link, or grow the chain. */
    method NextCluster(cluster: int, ghost index: int) returns (st: Status, next: int)
      requires Valid() && firstCluster != 0 && 0 <= index < |Chain()| && cluster == Chain()[index]
      modifies fs`disk, fs`sector, fs`secLba, fs`freeCount, fs`nextFree, fs`fsinfoDirty, fs`chains
      ensures st.Done? ==> Valid() && index + 1 < |Chain()| && next == Chain()[index + 1]
      ensures st.Full? ==> Valid()
      ensures st.Full? ==> fs.Exhausted()
      ensures st.Full? ==> |Chain()| == index + 1
      ensures st.DeviceFailed? ==> CrashSafe()
      ensures !st.Failed? && Grown(old(fs.chains), fs.chains, entry.id)
      ensures FileGrew(fs.g, old(fs.disk), fs.disk, old(fs.chains), fs.chains, entry)
      ensures !st.DeviceFailed? && old(fs.HintOk()) ==> fs.HintOk()
      ensures !st.DeviceFailed? && old(fs.MarksExact()) ==> fs.MarksExact()
      ensures !st.DeviceFailed? ==> fs.GapKept(old(fs.freeCount), old(fs.Fat()), 0)
      ensures !st.DeviceFailed? ==> Stepped(old(fs.Fat()), old(Chain()))
      ensures fs.reliable ==> !st.DeviceFailed?
    {
      hide TableStep, DiskOk, SectorOk, Copy, Mirrored, VolumeSafe, EntryPlaced, EntrySafe, FileGrew, Gap, IsChain;
      ChainFacts(fs.g, fs.disk, fs.chains, entry.id);
      NextInChain(fs.Fat(), Chain(), index);
      SafeIsPlaced(fs.g, fs.disk, fs.chains, entry);
      NothingGrew(fs.g, fs.disk, fs.chains, entry);
      StepSame(fs.Fat(), Chain());
      var ok;
      ok, next := fs.FatGet(cluster);
      st := if ok then Done else DeviceFailed;
      if ok && next >= EOC {
        st, next := AppendCluster(cluster);
      }
    }

    /** The loop of `ensure_cluster_index` */
    method FollowChain(needed: int) returns (st: Status, cluster: int)
      requires Valid() && needed >= 0 && firstCluster != 0
      modifies fs`disk, fs`sector, fs`secLba, fs`freeCount, fs`nextFree, fs`fsinfoDirty, fs`chains
      ensures st.Done? ==> Valid() && needed < |Chain()| && cluster == Chain()[needed]
      ensures st.Full? ==> Valid()
      ensures st.Full? ==> fs.Exhausted()
      ensures st.Full? ==> |Chain()| <= needed
      ensures st.DeviceFailed? ==> CrashSafe()
      ensures !st.Failed? && Grown(old(fs.chains), fs.chains, entry.id)
      ensures FileGrew(fs.g, old(fs.disk), fs.disk, old(fs.chains), fs.chains, entry)
      ensures !st.DeviceFailed? && old(fs.HintOk()) ==> fs.HintOk()
      ensures !st.DeviceFailed? && old(fs.MarksExact()) ==> fs.MarksExact()
      ensures !st.DeviceFailed? ==> fs.GapKept(old(fs.freeCount), old(fs.Fat()), 0)
      ensures !st.DeviceFailed? ==> Stepped(old(fs.Fat()), old(Chain()))
      ensures fs.reliable ==> !st.DeviceFailed?
    {
      hide TableStep, DiskOk, SectorOk, Copy, Mirrored, VolumeSafe, EntryPlaced, EntrySafe, FileGrew, Gap, IsChain, Grown;
      ghost var d0, chains0 := fs.disk, fs.chains;
      SafeIsPlaced(fs.g, d0, chains0, entry);
      NothingGrew(fs.g, d0, chains0, entry);
      GrownSame(chains0, entry.id);
      StepSame(fs.Fat(), Chain());
      ghost var fat0, cs0 := fs.Fat(), Chain();
      cluster := firstCluster;
      for index := 0 to needed
        invariant Valid() && index < |Chain()| && cluster == Chain()[index]
        invariant Grown(chains0, fs.chains, entry.id) && FileGrew(fs.g, d0, fs.disk, chains0, fs.chains, entry)
        invariant old(fs.HintOk()) ==> fs.HintOk()
        invariant old(fs.MarksExact()) ==> fs.MarksExact()
        invariant fs.GapKept(old(fs.freeCount), old(fs.Fat()), 0)
        invariant Stepped(old(fs.Fat()), old(Chain()))
      {
        ghost var d1, chains1 := fs.disk, fs.chains;
        ghost var fat1, cs1 := fs.Fat(), Chain();
        st, cluster := NextCluster(cluster, index);
        GrownTrans(chains0, chains1, fs.chains, entry.id);
        GrewTrans(fs.g, d0, d1, fs.disk, chains0, chains1, fs.chains, entry);
        if !st.DeviceFailed? {
          StepTrans(fat0, fat1, fs.Fat(), cs0, cs1, Chain());
        }
        if !st.Done? {
          return;
        }
      }
      st := Done;
    }

    /** `ensure_cluster_index` */
    method EnsureClusterIndex(needed: int) returns (st: Status, cluster: int)
      requires Valid() && needed >= 0
      modifies this`firstCluster, fs`disk, fs`sector, fs`secLba, fs`freeCount, fs`nextFree, fs`fsinfoDirty, fs`chains
      ensures st.Done? ==> Valid() && needed < |Chain()| && cluster == Chain()[needed]
      ensures st.Full? ==> Valid()
      ensures st.Full? ==> fs.Exhausted()
      ensures st.Full? ==> |Chain()| <= needed
      ensures st.DeviceFailed? ==> CrashSafe()
      ensures !st.Failed? && Grown(old(fs.chains), fs.chains, entry.id)
      ensures FileGrew(fs.g, old(fs.disk), fs.disk, old(fs.chains), fs.chains, entry)
      ensures !st.DeviceFailed? && old(fs.HintOk()) ==> fs.HintOk()
      ensures !st.DeviceFailed? && old(fs.MarksExact()) ==> fs.MarksExact()
      ensures !st.DeviceFailed? ==> fs.GapKept(old(fs.freeCount), old(fs.Fat()), 0)
      ensures !st.DeviceFailed? ==> Stepped(old(fs.Fat()), old(Chain()))
      ensures fs.reliable ==> !st.DeviceFailed?
    {
      hide TableStep, DiskOk, SectorOk, Copy, Mirrored, VolumeSafe, EntryPlaced, EntrySafe, FileGrew, Gap, IsChain, Grown;
      cluster := 0;
      ghost var d0, chains0 := fs.disk, fs.chains;
      SafeIsPlaced(fs.g, d0, chains0, entry);
      NothingGrew(fs.g, d0, chains0, entry);
      GrownSame(chains0, entry.id);
      StepSame(fs.Fat(), Chain());
      ghost var fat0, cs0 := fs.Fat(), Chain();
      if firstCluster == 0 {
        st := StartChain();
        if !st.Done? {
          return;
        }
      }
      ghost var d1, chains1 := fs.disk, fs.chains;
      ghost var fat1, cs1 := fs.Fat(), Chain();
      st, cluster := FollowChain(needed);
      GrownTrans(chains0, chains1, fs.chains, entry.id);
      GrewTrans(fs.g, d0, d1, fs.disk, chains0, chains1, fs.chains, entry);
      if !st.DeviceFailed? {
        StepTrans(fat0, fat1, fs.Fat(), cs0, cs1, Chain());
      }
    }

    // -------------------------------------------------------------- writing

    /** Puts the first bytes of `data` into the sector that holds the file position: as many as fit. */
    method StorePiece(cluster: int, data: seq<int>, ghost d0: Disk, ghost chains0: Chains) returns (ok: bool, n: int)
      requires Valid() && data != [] && AllBytesOk(data) && ClusterBytes(fs.g) > 0
      requires 0 <= BytesToClusters(fs.g, filePos) < |Chain()| && cluster == Chain()[BytesToClusters(fs.g, filePos)]
      requires FileGrew(fs.g, d0, fs.disk, chains0, fs.chains, entry)
      modifies fs`disk, fs`sector, fs`secLba
      ensures 0 < n <= |data|
      ensures ok ==> fs.Linked() && EntrySafe(fs.g, fs.disk, fs.chains, entry) && fs.Fat() == old(fs.Fat())
      ensures ok ==> FileWrote(fs.g, d0, fs.disk, chains0, fs.chains, entry, filePos, data[..n])
      ensures ok ==> filePos + n <= Capacity(fs.g, Chain())
      ensures !ok ==> fs.disk == old(fs.disk)
      ensures fs.reliable ==> ok
    {
      hide TableStep, DiskOk, SectorOk, Copy, Mirrored, VolumeSafe, EntryPlaced, EntrySafe, FileGrew, FileWrote,
           IsChain, BytesToClusters, BytesToSectors, InCluster, InSector, ClusterBytes, Capacity, ClustersOk,
           AllClustersOk, Distinct, Sectors, SectorLba, ClusterLba, Spliced, AllBytesOk, Splice;
      ghost var d1, cs := fs.disk, Chain();
      ChainFacts(fs.g, d1, fs.chains, entry.id);
      WithinCapacity(fs.g, cs, filePos);
      LbaOfByte(fs.g, d1, cs, filePos);
      var clusterOffset := InCluster(fs.g, filePos);
      var lba := ClusterLba(fs.g, cluster) + BytesToSectors(fs.g, clusterOffset);
      var sectorOffset := InSector(fs.g, clusterOffset);
      var bytesPerSector := fs.g.bytesPerSector;
      n := if bytesPerSector - sectorOffset < |data| then bytesPerSector - sectorOffset else |data|;
      SectorAt(fs.g, d1, lba);
      SpliceData(fs.g, d1[lba], sectorOffset, data, n);
      if sectorOffset != 0 || n < bytesPerSector {
        ok := fs.LoadSector(lba);
        if !ok {
          return;
        }
        fs.sector := Splice(fs.g, fs.sector, sectorOffset, data[..n]);
      } else {
        WholeSector(fs.g, d1[lba], data[..n], data);
        fs.sector := data[..n];
      }
      PieceStored(fs.g, d0, d1, chains0, fs.chains, entry, filePos, data[..n], fs.sector);
      ok := fs.StoreSector(lba);
    }

    /** One round of the loop of `File::write`: up to the end of the sector. */
    method WritePiece(data: seq<int>) returns (st: Status, n: int)
      requires Valid() && data != [] && AllBytesOk(data) && filePos + |data| < U32
      modifies this`firstCluster, this`filePos, this`fileSize,
               fs`disk, fs`sector, fs`secLba, fs`freeCount, fs`nextFree, fs`fsinfoDirty, fs`chains
      ensures 0 <= n <= |data| && (st.Done? ==> n > 0) && (st.Full? ==> n == 0)
      ensures st.Full? ==> fs.Exhausted()
      ensures st.Full? ==> Capacity(fs.g, Chain()) <= filePos
      ensures (!st.DeviceFailed? ==> Valid()) && filePos == old(filePos) + n
      ensures fileSize == if n > 0 && filePos > old(fileSize) then filePos else old(fileSize)
      ensures st.DeviceFailed? ==> CrashSafe()
      ensures !st.Failed? && Grown(old(fs.chains), fs.chains, entry.id)
      ensures FileWrote(fs.g, old(fs.disk), fs.disk, old(fs.chains), fs.chains, entry, old(filePos), data[..n])
      ensures !st.DeviceFailed? && old(fs.HintOk()) ==> fs.HintOk()
      ensures !st.DeviceFailed? && old(fs.MarksExact()) ==> fs.MarksExact()
      ensures !st.DeviceFailed? ==> fs.GapKept(old(fs.freeCount), old(fs.Fat()), 0)
      ensures !st.DeviceFailed? ==> Stepped(old(fs.Fat()), old(Chain()))
      ensures fs.reliable ==> !st.DeviceFailed?
    {
      hide TableStep, DiskOk, SectorOk, Copy, Mirrored, VolumeSafe, EntryPlaced, EntrySafe, FileGrew, FileWrote, Gap,
           IsChain, Grown, BytesToClusters, ClusterBytes, Capacity, AllBytesOk;
      n := 0;
      ghost var d0, chains0 := fs.disk, fs.chains;
      PositiveBytes(fs.g, filePos);
      var neededIndex := BytesToClusters(fs.g, filePos);
      var cluster;
      st, cluster := EnsureClusterIndex(neededIndex);
      GrewIsWrote(fs.g, d0, fs.disk, chains0, fs.chains, entry, filePos);
      WithinCapacity(fs.g, Chain(), filePos);
      if !st.Done? {
        return;
      }
      var ok, stored := StorePiece(cluster, data, d0, chains0);
      if !ok {
        st := DeviceFailed;
        return;
      }
      n := stored;
      filePos := filePos + n;
      if filePos > fileSize {
        fileSize := filePos;
      }
    }

    /** The loop of `File::write` */
    method WriteAll(data: seq<int>) returns (st: Status)
      requires Valid() && AllBytesOk(data) && filePos + |data| < U32
      modifies this`firstCluster, this`filePos, this`fileSize,
               fs`disk, fs`sector, fs`secLba, fs`freeCount, fs`nextFree, fs`fsinfoDirty, fs`chains
      ensures (!st.DeviceFailed? ==> Valid()) && old(filePos) <= filePos <= old(filePos) + |data|
      ensures if st.Done? then filePos == old(filePos) + |data| else st.Full? ==> filePos < old(filePos) + |data|
      ensures fileSize == if filePos > old(filePos) && filePos > old(fileSize) then filePos else old(fileSize)
      ensures FileWrote(fs.g, old(fs.disk), fs.disk, old(fs.chains), fs.chains, entry, old(filePos), data[..filePos - old(filePos)])
      ensures st.Full? ==> fs.Exhausted()
      ensures st.Full? ==> Capacity(fs.g, Chain()) <= filePos
      ensures st.DeviceFailed? ==> CrashSafe()
      ensures !st.Failed? && Grown(old(fs.chains), fs.chains, entry.id)
      ensures !st.DeviceFailed? && old(fs.HintOk()) ==> fs.HintOk()
      ensures !st.DeviceFailed? && old(fs.MarksExact()) ==> fs.MarksExact()
      ensures !st.DeviceFailed? ==> fs.GapKept(old(fs.freeCount), old(fs.Fat()), 0)
      ensures !st.DeviceFailed? ==> Stepped(old(fs.Fat()), old(Chain()))
      ensures fs.reliable ==> !st.DeviceFailed?
    {
      hide TableStep, DiskOk, SectorOk, Copy, Mirrored, VolumeSafe, EntryPlaced, EntrySafe, FileGrew, FileWrote, Gap,
           IsChain, Grown, NoneFreeBelow, HandleOk, ChainOf;
      ghost var d0, chains0, start := fs.disk, fs.chains, filePos;
      SafeIsPlaced(fs.g, d0, chains0, entry);
      NothingGrew(fs.g, d0, chains0, entry);
      GrewIsWrote(fs.g, d0, d0, chains0, chains0, entry, start);
      GrownSame(chains0, entry.id);
      StepSame(fs.Fat(), Chain());
      ghost var fat0, cs0 := fs.Fat(), Chain();
      var written := 0;
      while written < |data|
        invariant 0 <= written <= |data| && Valid() && filePos == start + written
        invariant fileSize == if filePos > start && filePos > old(fileSize) then filePos else old(fileSize)
        invariant Grown(chains0, fs.chains, entry.id)
        invariant FileWrote(fs.g, d0, fs.disk, chains0, fs.chains, entry, start, data[..written])
        invariant old(fs.HintOk()) ==> fs.HintOk()
        invariant old(fs.MarksExact()) ==> fs.MarksExact()
        invariant fs.GapKept(old(fs.freeCount), old(fs.Fat()), 0)
        invariant Stepped(old(fs.Fat()), old(Chain()))
        decreases |data| - written
      {
        ghost var d1, chains1 := fs.disk, fs.chains;
        ghost var fat1, cs1 := fs.Fat(), Chain();
        TailBytes(data, written);
        var n;
        st, n := WritePiece(data[written..]);
        GrownTrans(chains0, chains1, fs.chains, entry.id);
        if !st.DeviceFailed? {
          StepTrans(fat0, fat1, fs.Fat(), cs0, cs1, Chain());
        }
        WroteTrans(fs.g, d0, d1, fs.disk, chains0, chains1, fs.chains, entry, start, data[..written], data[written..][..n]);
        assert data[..written] + data[written..][..n] == data[..written + n];
        written := written + n;
        if !st.Done? {
          return;
        }
      }
      st := Done;
    }

    /** `File::write`.  When the volume is full, the pieces written before stay, and the position is behind
        them; when the device fails, what is on it is in order. */
    method Write(data: seq<int>) returns (st: Status)
      requires Valid() && AllBytesOk(data) && filePos + |data| < U32
      modifies this`firstCluster, this`filePos, this`fileSize,
               fs`disk, fs`sector, fs`secLba, fs`freeCount, fs`nextFree, fs`fsinfoDirty, fs`chains
      ensures (!st.DeviceFailed? ==> Valid()) && old(filePos) <= filePos <= old(filePos) + |data|
      ensures if st.Done? then filePos == old(filePos) + |data| else st.Full? ==> filePos < old(filePos) + |data|
      ensures fileSize == if filePos > old(filePos) && filePos > old(fileSize) then filePos else old(fileSize)
      ensures FileWrote(fs.g, old(fs.disk), fs.disk, old(fs.chains), fs.chains, entry, old(filePos), data[..filePos - old(filePos)])
      ensures st.Full? ==> fs.Exhausted()
      ensures st.Full? ==> Capacity(fs.g, Chain()) <= filePos
      ensures st.DeviceFailed? ==> CrashSafe()
      ensures !st.Failed? && Grown(old(fs.chains), fs.chains, entry.id)
      ensures !st.DeviceFailed? && old(fs.HintOk()) ==> fs.HintOk()
      ensures !st.DeviceFailed? && old(fs.MarksExact()) ==> fs.MarksExact()
      ensures !st.DeviceFailed? ==> fs.GapKept(old(fs.freeCount), old(fs.Fat()), 0)
      ensures !st.DeviceFailed? ==> Stepped(old(fs.Fat()), old(Chain()))
      ensures fs.reliable ==> !st.DeviceFailed?
    {
      hide TableStep, DiskOk, SectorOk, Copy, Mirrored, VolumeSafe, EntryPlaced, EntrySafe, FileGrew, FileWrote, Gap,
           IsChain, Grown, NoneFreeBelow, HandleOk, ChainOf;
      ghost var d0, chains0, start := fs.disk, fs.chains, filePos;
      SafeIsPlaced(fs.g, d0, chains0, entry);
      NothingGrew(fs.g, d0, chains0, entry);
      GrewIsWrote(fs.g, d0, d0, chains0, chains0, entry, start);
      GrownSame(chains0, entry.id);
      StepSame(fs.Fat(), Chain());
      ghost var fat0, cs0 := fs.Fat(), Chain();
      if data == [] {
        return Done;
      }
      if firstCluster == 0 {
        st := StartChain();
        GrewIsWrote(fs.g, d0, fs.disk, chains0, fs.chains, entry, start);
        if !st.Done? {
          return;
        }
      }
      ghost var d1, chains1 := fs.disk, fs.chains;
      ghost var fat1, cs1 := fs.Fat(), Chain();
      st := WriteAll(data);
      ghost var written := data[..filePos - start];
      GrownTrans(chains0, chains1, fs.chains, entry.id);
      if !st.DeviceFailed? {
        StepTrans(fat0, fat1, fs.Fat(), cs0, cs1, Chain());
      }
      WroteTrans(fs.g, d0, d1, fs.disk, chains0, chains1, fs.chains, entry, start, [], written);
      assert [] + written == written;
    }

    // -------------------------------------------------------------- truncating

    /** Frees the whole chain, as `truncate(0)` and `close` do.  The original goes on when freeing fails;
        this stops. */
    method DropChain() returns (ok: bool)
      requires Valid()
      modifies this`firstCluster, fs`disk, fs`sector, fs`secLba, fs`freeCount, fs`nextFree, fs`fsinfoDirty, fs`chains
      ensures ok ==> fs.Linked() && EntryPlaced(fs.g, fs.disk, fs.chains, entry) && firstCluster == 0
      ensures ok ==> fs.chains == old(fs.chains) - {entry.id}
      ensures FileKeptOthers(fs.g, old(fs.disk), fs.disk, old(fs.chains), fs.chains, entry, FIELDS)
      ensures ok && old(fs.HintOk()) ==> fs.HintOk()
      ensures ok && old(fs.MarksExact()) ==> fs.MarksExact()
      ensures ok ==> fs.GapKept(old(fs.freeCount), old(fs.Fat()), 0)
      ensures ok ==> Stepped(old(fs.Fat()), old(Chain()))
      ensures ok ==> FirstOnDisk(fs.g, fs.disk, fs.chains, entry) == old(FirstOnDisk(fs.g, fs.disk, fs.chains, entry))
      ensures !ok && old(FirstOnDisk(fs.g, fs.disk, fs.chains, entry)) == 0 ==> CrashSafe()
      ensures fs.reliable ==> ok
    {
      hide TableStep, DiskOk, SectorOk, Copy, Mirrored, VolumeSafe, EntryPlaced, EntrySafe, FileKeptOthers, Gap, SameData,
           IsChain, NoneFreeBelow, FreedWithin, FirstOnDisk;
      ghost var d0, chains0, cs := fs.disk, fs.chains, Chain();
      SafeIsPlaced(fs.g, d0, chains0, entry);
      ChainFacts(fs.g, d0, chains0, entry.id);
      TableLimit(fs.g, d0, chains0);
      SameDisk(fs.g, d0);
      StepSame(fs.Fat(), Chain());
      ghost var fat0 := fs.Fat();
      ok := true;
      if firstCluster >= 2 {
        ok := fs.FreeWholeChain(firstCluster, cs);
        if !ok {
          fs.chains := Unreached(fs.g, d0, fs.disk, chains0, entry);
          return;
        }
        StepFreed(fat0, fs.Fat(), cs);
      } else {
        NoChainBelow(fs.g, d0, chains0, entry.id);
      }
      firstCluster := 0;
      fs.chains := fs.chains - {entry.id};
      ChainCleared(fs.g, d0, fs.disk, chains0, entry, FIELDS);
    }

    /** `truncate(0)` */
    method Clear() returns (ok: bool)
      requires Valid()
      modifies this`firstCluster, this`filePos, this`fileSize,
               fs`disk, fs`sector, fs`secLba, fs`freeCount, fs`nextFree, fs`fsinfoDirty, fs`chains
      ensures ok ==> Valid() && fileSize == 0 && filePos == 0 && fs.chains == old(fs.chains) - {entry.id}
      ensures FileKeptOthers(fs.g, old(fs.disk), fs.disk, old(fs.chains), fs.chains, entry, FIELDS)
      ensures ok && old(fs.HintOk()) ==> fs.HintOk()
      ensures ok && old(fs.MarksExact()) ==> fs.MarksExact()
      ensures ok ==> fs.GapKept(old(fs.freeCount), old(fs.Fat()), 0)
      ensures ok ==> Stepped(old(fs.Fat()), old(Chain()))
      ensures !ok && old(FirstOnDisk(fs.g, fs.disk, fs.chains, entry)) == 0 ==> CrashSafe()
      ensures fs.reliable ==> ok
    {
      hide TableStep, DiskOk, SectorOk, Copy, Mirrored, VolumeSafe, EntryPlaced, EntrySafe, FileKeptOthers, Gap,
           DirentUpdated, FirstOnDisk, SizeOnDisk, NoneFreeBelow;
      ghost var d0, chains0 := fs.disk, fs.chains;
      SafeIsPlaced(fs.g, d0, chains0, entry);
      ok := DropChain();
      if !ok {
        return;
      }
      ghost var d1 := fs.disk;
      fileSize := 0;
      filePos := 0;
      if FirstOnDisk(fs.g, d1, fs.chains, entry) == 0 {
        EntryNowSafe(fs.g, d1, fs.chains, entry);
      }
      ok := UpdateDirent();
      if ok {
        EntryNowSafe(fs.g, fs.disk, fs.chains, entry);
        KeptAndUpdated(fs.g, d0, d1, fs.disk, chains0, fs.chains, entry, FIELDS);
        NoClusters(fs.g, fs.chains, entry.id);
      }
    }

    /** `truncate` to fewer bytes, but not to none. */
    method Shrink(newSize: int) returns (ok: bool)
      requires Valid() && 0 < newSize < fileSize
      modifies this`filePos, this`fileSize,
               fs`disk, fs`sector, fs`secLba, fs`freeCount, fs`nextFree, fs`fsinfoDirty, fs`chains
      ensures !ok && !old(Cuts(newSize)) ==> CrashSafe()
      ensures ok ==> Valid() && fileSize == newSize && filePos == if old(filePos) < newSize then old(filePos) else newSize
      ensures ok && old(fs.HintOk()) ==> fs.HintOk()
      ensures ok && old(fs.MarksExact()) ==> fs.MarksExact()
      ensures ok ==> fs.GapKept(old(fs.freeCount), old(fs.Fat()), 0)
      ensures ok ==> Stepped(old(fs.Fat()), old(Chain()))
      ensures ok ==> Shortened(fs.g, old(fs.chains), fs.chains, entry.id, newSize)
      ensures FileKeptOthers(fs.g, old(fs.disk), fs.disk, old(fs.chains), fs.chains, entry, FIELDS)
      ensures ok ==> StartKept(fs.g, old(fs.disk), fs.disk, old(fs.chains), fs.chains, entry.id, newSize)
      ensures fs.reliable ==> ok
    {
      hide TableStep, DiskOk, SectorOk, Copy, Mirrored, VolumeSafe, EntryPlaced, EntrySafe, FileKeptOthers, Gap,
           SameData, FreeRun, EndsFree, DirentUpdated, FirstOnDisk, SizeOnDisk, IsChain, NoneFreeBelow,
           BytesToClusters, ClusterBytes, Shortened, StartKept;
      ghost var d0, chains0, cs := fs.disk, fs.chains, Chain();
      SafeIsPlaced(fs.g, d0, chains0, entry);
      PositiveBytes(fs.g, newSize - 1);
      var lastIndex := BytesToClusters(fs.g, newSize - 1);
      KeptClusters(fs.g, d0, chains0, entry.id, newSize, fileSize);
      KeptSame(fs.g, d0, chains0, entry, FIELDS);
      ghost var n := lastIndex + 1;
      var last;
      ok, last := fs.FatClusterAt(firstCluster, lastIndex, ClustersOf(cs));
      if !ok {
        return;
      }
      ok := CutBehind(last, n);
      if !ok {
        return;
      }
      ghost var d1 := fs.disk;
      ChainShortened(fs.g, d0, d1, chains0, fs.chains, entry, n, newSize, firstCluster);
      ShortenedSafe(fs.g, d0, d1, chains0, fs.chains, entry, n);
      fileSize := newSize;
      filePos := if filePos < newSize then filePos else newSize;
      ok := UpdateDirent();
      if ok {
        StartStillKept(fs.g, d0, d1, fs.disk, chains0, fs.chains, entry, newSize);
        EntryNowSafe(fs.g, fs.disk, fs.chains, entry);
        KeptAndUpdated(fs.g, d0, d1, fs.disk, chains0, fs.chains, entry, FIELDS);
      }
    }

    /** Frees what is behind the `n`-th cluster, and end-marks that cluster. */
    method CutBehind(last: int, ghost n: int) returns (ok: bool)
      requires Valid() && 0 < n <= |Chain()| && last == Chain()[n - 1]
      modifies fs`disk, fs`sector, fs`secLba, fs`freeCount, fs`nextFree, fs`fsinfoDirty, fs`chains
      ensures !ok ==> FileKeptOthers(fs.g, old(fs.disk), fs.disk, old(fs.chains), fs.chains, entry, FIELDS)
      ensures ok ==> fs.Linked() && SameData(fs.g, old(fs.disk), fs.disk)
      ensures ok ==> fs.chains == old(fs.chains)[entry.id := old(Chain())[..n]]
      ensures ok && old(fs.HintOk()) ==> fs.HintOk()
      ensures ok && old(fs.MarksExact()) ==> fs.MarksExact()
      ensures ok ==> fs.GapKept(old(fs.freeCount), old(fs.Fat()), 0)
      ensures ok ==> Stepped(old(fs.Fat()), old(Chain()))
      ensures !ok && (n == old(|Chain()|) || old(FirstOnDisk(fs.g, fs.disk, fs.chains, entry)) == 0) ==> CrashSafe()
      ensures fs.reliable ==> ok
    {
      hide TableStep, DiskOk, SectorOk, Copy, Mirrored, VolumeSafe, EntryPlaced, EntrySafe, Gap, SameData, FreeRun,
           EndsFree, IsChain, NoneFreeBelow, Closed, FreedWithin, Freed, FirstOnDisk, Torn;
      ghost var d0, chains0, cs, fat := fs.disk, fs.chains, Chain(), fs.Fat();
      SafeIsPlaced(fs.g, d0, chains0, entry);
      ChainFacts(fs.g, d0, chains0, entry.id);
      TableLimit(fs.g, d0, chains0);
      NextInChain(fat, cs, n - 1);
      ok := FreeBehind(last, n);
      if !ok {
        if n < |cs| {
          fs.chains := Unreached(fs.g, d0, fs.disk, chains0, entry);
        } else {
          KeptSame(fs.g, d0, chains0, entry, FIELDS);
        }
        return;
      }
      LastKept(fat, fs.Fat(), cs, n);
      ghost var d1 := fs.disk;
      ok := fs.FatLink(last, EOC);
      if ok {
        fs.chains := fs.chains[entry.id := cs[..n]];
        ChainCut(fs.g, d0, d1, fs.disk, chains0, entry.id, n);
        StepCut(fat, Copy(fs.g, d1, 0), cs, n);
      } else {
        fs.chains := CutTorn(fs.g, d0, d1, fs.disk, chains0, entry, n);
      }
    }

    /** `truncate` and `close`, which keep the first `n` clusters, up to the freeing of the next one: when the
        device fails now, the entry leads into a chain that has no end, however one looks at the table. */
    method FreeFirst(ghost n: int, last: int) returns (ok: bool)
      requires Valid() && 0 <= n < |Chain()| && last == (if n == 0 then 0 else Chain()[n - 1])
      requires FirstOnDisk(fs.g, fs.disk, fs.chains, entry) != 0
      modifies fs`disk, fs`sector, fs`secLba, fs`freeCount, fs`nextFree, fs`fsinfoDirty
      ensures 0 <= old(Chain())[n] < |old(fs.Fat())|
      ensures ok ==> fs.Ready() && SameData(fs.g, old(fs.disk), fs.disk) && fs.Fat() == old(fs.Fat())[old(Chain())[n] := 0]
      ensures ok ==> forall chains: Chains :: !(VolumeSafe(fs.g, fs.disk, chains) && EntrySafe(fs.g, fs.disk, chains, entry))
      ensures fs.reliable ==> ok
    {
      hide TableStep, DiskOk, SectorOk, Copy, Mirrored, VolumeSafe, EntryPlaced, EntrySafe, Gap, SameData, IsChain,
           NoneFreeBelow, FirstOnDisk;
      ghost var d0, chains0, cs, fat := fs.disk, fs.chains, Chain(), fs.Fat();
      ChainFacts(fs.g, d0, chains0, entry.id);
      TableLimit(fs.g, d0, chains0);
      NextInChain(fat, cs, n);
      var cluster, next := firstCluster, 0;
      if last != 0 {
        NextInChain(fat, cs, n - 1);
        ok, cluster := fs.FatGet(last);
        if !ok {
          return;
        }
      }
      ok, next := fs.FreeCluster(cluster);
      if ok {
        TornForAll(fs.g, d0, fs.disk, chains0, entry, n);
      }
    }

    /** `truncate` to a size that cuts clusters off, up to the freeing of the first of them. */
    method TruncateCutOff(newSize: int) returns (ok: bool)
      requires Valid() && 0 <= newSize && ClusterBytes(fs.g) > 0 && Cuts(newSize)
      modifies fs`disk, fs`sector, fs`secLba, fs`freeCount, fs`nextFree, fs`fsinfoDirty
      ensures ok ==> forall chains: Chains :: !(VolumeSafe(fs.g, fs.disk, chains) && EntrySafe(fs.g, fs.disk, chains, entry))
      ensures fs.reliable ==> ok
    {
      hide TableStep, DiskOk, SectorOk, Copy, Mirrored, VolumeSafe, EntryPlaced, EntrySafe, FirstOnDisk,
           BytesToClusters, ClusterBytes;
      var last := 0;
      if newSize > 0 {
        PositiveBytes(fs.g, newSize - 1);
        KeptClusters(fs.g, fs.disk, fs.chains, entry.id, newSize, fileSize);
        ok, last := fs.FatClusterAt(firstCluster, BytesToClusters(fs.g, newSize - 1), ClustersOf(Chain()));
        if !ok {
          return;
        }
      }
      ok := FreeFirst(ClustersKept(fs.g, newSize), last);
    }

    /** Frees the clusters behind the `n`-th. */
    method FreeBehind(last: int, ghost n: int) returns (ok: bool)
      requires Valid() && 0 < n <= |Chain()| && last == Chain()[n - 1]
      modifies fs`disk, fs`sector, fs`secLba, fs`freeCount, fs`nextFree, fs`fsinfoDirty
      ensures ok ==> fs.Ready() && SameData(fs.g, old(fs.disk), fs.disk)
      ensures ok ==> Freed(old(fs.Fat()), fs.Fat(), old(Chain())[n..])
      ensures !ok ==> DiskOk(fs.g, fs.disk) && SameData(fs.g, old(fs.disk), fs.disk)
      ensures !ok ==> FreedWithin(old(fs.Fat()), fs.Fat(), ClustersOf(old(Chain())))
      ensures !ok && n == |old(Chain())| ==> fs.disk == old(fs.disk)
      ensures ok && old(fs.HintOk()) ==> fs.HintOk()
      ensures ok && old(fs.MarksExact()) ==> fs.MarksExact()
      ensures ok ==> fs.GapKept(old(fs.freeCount), old(fs.Fat()), 0)
      ensures fs.reliable ==> ok
    {
      hide TableStep, DiskOk, SectorOk, Copy, Mirrored, VolumeSafe, EntryPlaced, EntrySafe, Gap, SameData, FreeRun,
           EndsFree, IsChain, NoneFreeBelow, Closed, FreedWithin, Freed, HandleOk;
      ghost var cs, fat := Chain(), fs.Fat();
      ChainFacts(fs.g, fs.disk, fs.chains, entry.id);
      TableLimit(fs.g, fs.disk, fs.chains);
      NextInChain(fat, cs, n - 1);
      SameDisk(fs.g, fs.disk);
      FreedNothing(fat, ClustersOf(cs));
      ghost var rest: seq<int> := cs[n..];
      var next;
      ok, next := fs.FatGet(last);
      if !ok {
        return;
      }
      if IsLink(next) {
        ChainTail(fat, cs, n);
        ok := fs.FreeWholeChain(next, rest);
        if !ok {
          FreedAmong(fat, fs.Fat(), cs, n);
        }
      } else {
        FreedNone(fat);
      }
    }

    /** The first cluster of a file that `truncate` grows; the directory entry is written later. */
    method StartBare() returns (st: Status)
      requires Valid() && firstCluster == 0
      modifies this`firstCluster, fs`disk, fs`sector, fs`secLba, fs`freeCount, fs`nextFree, fs`fsinfoDirty, fs`chains
      ensures st.Done? ==> Valid() && firstCluster != 0
      ensures st.Done? ==> |Chain()| == 1 && |old(Chain())| == 0
      ensures st.Full? ==> Valid() && fs.disk == old(fs.disk) && fs.chains == old(fs.chains)
      ensures st.Full? ==> fs.Exhausted()
      ensures st.Full? ==> |Chain()| == 0
      ensures st.DeviceFailed? ==> CrashSafe()
      ensures !st.Failed? && Grown(old(fs.chains), fs.chains, entry.id)
      ensures FileGrew(fs.g, old(fs.disk), fs.disk, old(fs.chains), fs.chains, entry)
      ensures !st.DeviceFailed? && old(fs.HintOk()) ==> fs.HintOk()
      ensures !st.DeviceFailed? && old(fs.MarksExact()) ==> fs.MarksExact()
      ensures !st.DeviceFailed? ==> fs.GapKept(old(fs.freeCount), old(fs.Fat()), 0)
      ensures !st.DeviceFailed? ==> Stepped(old(fs.Fat()), old(Chain()))
      ensures fs.reliable ==> !st.DeviceFailed?
    {
      hide TableStep, DiskOk, SectorOk, Copy, Mirrored, VolumeSafe, EntryPlaced, EntrySafe, Torn, SameData, FileGrew, Gap;
      ghost var d0, chains0 := fs.disk, fs.chains;
      SafeIsPlaced(fs.g, d0, chains0, entry);
      NothingGrew(fs.g, d0, chains0, entry);
      StepSame(fs.Fat(), Chain());
      ghost var fat0 := fs.Fat();
      var c;
      st, c := fs.FatAllocate();
      if st.DeviceFailed? {
        AllocationTorn(fs.g, d0, fs.disk, chains0, entry);
      }
      if st.Done? {
        ClusterTaken(fs.g, d0, fs.disk, chains0, entry, c);
        firstCluster := c;
        fs.chains := fs.chains[entry.id := [c]];
        ChainStarted(fs.g, d0, fs.disk, chains0, entry, c, fileSize);
        StepStarted(fat0, c);
      }
    }

    /** The growing step of `truncate`: a new cluster is allocated, then linked behind the last one. */
    method GrowByCluster(current: int) returns (st: Status)
      requires Valid() && firstCluster != 0 && current == |Chain()|
      modifies fs`disk, fs`sector, fs`secLba, fs`freeCount, fs`nextFree, fs`fsinfoDirty, fs`chains
      ensures st.Done? ==> Valid() && |Chain()| == current + 1
      ensures st.Full? ==> Valid() && fs.disk == old(fs.disk) && fs.chains == old(fs.chains)
      ensures st.Full? ==> fs.Exhausted()
      ensures st.DeviceFailed? ==> CrashSafe()
      ensures !st.Failed? && Grown(old(fs.chains), fs.chains, entry.id)
      ensures FileGrew(fs.g, old(fs.disk), fs.disk, old(fs.chains), fs.chains, entry)
      ensures !st.DeviceFailed? && old(fs.HintOk()) ==> fs.HintOk()
      ensures !st.DeviceFailed? && old(fs.MarksExact()) ==> fs.MarksExact()
      ensures !st.DeviceFailed? ==> fs.GapKept(old(fs.freeCount), old(fs.Fat()), 0)
      ensures !st.DeviceFailed? ==> Stepped(old(fs.Fat()), old(Chain()))
      ensures fs.reliable ==> !st.DeviceFailed?
    {
      hide TableStep, DiskOk, SectorOk, Copy, Mirrored, VolumeSafe, EntryPlaced, EntrySafe, Torn, SameData, FileGrew, Gap,
           NoneFreeBelow, IsChain, NoCrossLinks;
      ghost var d0, chains0 := fs.disk, fs.chains;
      SafeIsPlaced(fs.g, d0, chains0, entry);
      NothingGrew(fs.g, d0, chains0, entry);
      StepSame(fs.Fat(), Chain());
      ghost var fat0, cs0 := fs.Fat(), Chain();
      var added;
      st, added := fs.FatAllocate();
      if st.DeviceFailed? {
        AllocationTorn(fs.g, d0, fs.disk, chains0, entry);
      }
      if !st.Done? {
        return;
      }
      ClusterTaken(fs.g, d0, fs.disk, chains0, entry, added);
      ghost var d1 := fs.disk;
      SafeIsPlaced(fs.g, d1, chains0, entry);
      GrownSame(chains0, entry.id);
      TablesGrew(fs.g, d0, d1, chains0, chains0, entry);
      st := LinkAdded(current, added);
      if st.Done? {
        StepAppended(fat0, fs.Fat(), cs0, added);
      }
      GrewTrans(fs.g, d0, d1, fs.disk, chains0, chains0, fs.chains, entry);
    }

    /** Links an allocated cluster behind the last one of the chain. */
    method LinkAdded(current: int, added: int) returns (st: Status)
      requires Valid() && firstCluster != 0 && current == |Chain()|
      requires 2 <= added < fs.g.totalClusters && fs.Fat()[added] == EOC
      requires forall h :: h in fs.chains ==> added !in fs.chains[h]
      modifies fs`disk, fs`sector, fs`secLba, fs`chains
      ensures st.Done? ==> Valid() && |Chain()| == current + 1
      ensures st.Done? ==> Chain() == old(Chain()) + [added] && KeptBut(old(fs.Fat()), fs.Fat(), old(Chain()), added)
      ensures FileGrew(fs.g, old(fs.disk), fs.disk, old(fs.chains), fs.chains, entry)
      ensures st.Done? && old(fs.HintOk()) ==> fs.HintOk()
      ensures st.Done? && old(fs.MarksExact()) ==> fs.MarksExact()
      ensures st.Done? ==> fs.GapKept(old(fs.freeCount), old(fs.Fat()), 0)
      ensures !st.Done? ==> st.DeviceFailed? && CrashSafe()
      ensures Grown(old(fs.chains), fs.chains, entry.id)
      ensures fs.reliable ==> !st.DeviceFailed?
    {
      hide TableStep, DiskOk, SectorOk, Copy, Mirrored, VolumeSafe, EntryPlaced, EntrySafe, Torn, SameData, FileGrew, Gap,
           NoneFreeBelow, IsChain, NoCrossLinks;
      ghost var d1, chains0 := fs.disk, fs.chains;
      st := DeviceFailed;
      SafeIsPlaced(fs.g, d1, chains0, entry);
      SameDisk(fs.g, d1);
      NothingGrew(fs.g, d1, chains0, entry);
      EndOfChain(fs.g, d1, chains0, entry.id);
      var ok, last := fs.FatClusterAt(firstCluster, current - 1, ClustersOf(Chain()));
      if !ok {
        return;
      }
      ok := fs.FatLink(last, added);
      if !ok {
        fs.chains := LinkTorn(fs.g, d1, d1, fs.disk, chains0, entry, added);
        return;
      }
      fs.chains := fs.chains[entry.id := Chain() + [added]];
      ChainExtended(fs.g, d1, d1, fs.disk, chains0, entry, added, firstCluster, fileSize);
      LastOther(Chain()[..current], last, added);
      ghost var d2 := fs.disk;
      ok := fs.FatLink(added, EOC);
      EndMarkedTwice(fs.g, d1, d2, fs.disk, chains0, fs.chains, entry, added);
      if ok {
        st := Done;
      }
    }

    /** The part of `truncate` that makes sure of a first cluster and counts the clusters. */
    method StartAndCount() returns (st: Status, current: int)
      requires Valid()
      modifies this`firstCluster, fs`disk, fs`sector, fs`secLba, fs`freeCount, fs`nextFree, fs`fsinfoDirty, fs`chains
      ensures st.Done? ==> Valid() && firstCluster != 0 && current == |Chain()| == Most(|old(Chain())|, 1)
      ensures st.Full? ==> Valid()
      ensures st.Full? ==> fs.Exhausted()
      ensures st.Full? ==> |Chain()| == 0
      ensures st.DeviceFailed? ==> CrashSafe()
      ensures !st.Failed? && Grown(old(fs.chains), fs.chains, entry.id)
      ensures FileGrew(fs.g, old(fs.disk), fs.disk, old(fs.chains), fs.chains, entry)
      ensures !st.DeviceFailed? && old(fs.HintOk()) ==> fs.HintOk()
      ensures !st.DeviceFailed? && old(fs.MarksExact()) ==> fs.MarksExact()
      ensures !st.DeviceFailed? ==> fs.GapKept(old(fs.freeCount), old(fs.Fat()), 0)
      ensures !st.DeviceFailed? ==> Stepped(old(fs.Fat()), old(Chain()))
      ensures fs.reliable ==> !st.DeviceFailed?
    {
      hide TableStep, DiskOk, SectorOk, Copy, Mirrored, VolumeSafe, EntryPlaced, EntrySafe, FileGrew, Gap, IsChain,
           IsWalk, Grown, NoneFreeBelow, Capacity, HandleOk;
      SafeIsPlaced(fs.g, fs.disk, fs.chains, entry);
      NothingGrew(fs.g, fs.disk, fs.chains, entry);
      GrownSame(fs.chains, entry.id);
      StepSame(fs.Fat(), Chain());
      current := 0;
      if firstCluster == 0 {
        st := StartBare();
        if !st.Done? {
          return;
        }
      } else {
        HasCluster(fs.g, fs.chains, entry.id, firstCluster, fileSize);
      }
      ghost var n := |Chain()|;
      assert n == Most(|old(Chain())|, 1);
      var ok;
      ok, current := CountClusters();
      st := if ok then Done else DeviceFailed;
    }

    /** The loop of `truncate` that counts the clusters of the file. */
    method CountClusters() returns (ok: bool, current: int)
      requires Valid() && firstCluster != 0
      modifies fs`sector, fs`secLba
      ensures ok ==> Valid() && current == |Chain()|
      ensures fs.reliable ==> ok
    {
      hide TableStep, DiskOk, SectorOk, Copy, Mirrored, VolumeSafe, EntrySafe, IsChain, IsWalk, Capacity, HandleOk;
      ChainFacts(fs.g, fs.disk, fs.chains, entry.id);
      TableLimit(fs.g, fs.disk, fs.chains);
      HasCluster(fs.g, fs.chains, entry.id, firstCluster, fileSize);
      ChainIsWalk(fs.Fat(), Chain());
      ok, current := fs.ChainLength(firstCluster, Chain());
    }

    /** `truncate` to more bytes.  The bytes behind the old end of the file are whatever the clusters hold.
        The size does not fit when rounding it up to clusters wraps around and the chain was not long enough. */
    method Extend(newSize: int) returns (st: Status)
      requires Valid() && fileSize < newSize < U32
      modifies this`firstCluster, this`fileSize,
               fs`disk, fs`sector, fs`secLba, fs`freeCount, fs`nextFree, fs`fsinfoDirty, fs`chains
      ensures st.Done? ==> ValidButSize() && fileSize == newSize
      ensures st.Done? ==>
        ClusterBytes(fs.g) > 0 && |Chain()| == Most(Most(|old(Chain())|, 1), ClustersWanted(fs.g, newSize))
      ensures st.Full? ==> Valid() && fileSize == old(fileSize)
      ensures st.Full? ==> fs.Exhausted()
      ensures st.Full? ==> ClusterBytes(fs.g) > 0 && |Chain()| < Most(1, ClustersWanted(fs.g, newSize))
      ensures st.DeviceFailed? ==> CrashSafe()
      ensures !st.Failed? && Grown(old(fs.chains), fs.chains, entry.id)
      ensures FileGrew(fs.g, old(fs.disk), fs.disk, old(fs.chains), fs.chains, entry)
      ensures !st.DeviceFailed? && old(fs.HintOk()) ==> fs.HintOk()
      ensures !st.DeviceFailed? && old(fs.MarksExact()) ==> fs.MarksExact()
      ensures !st.DeviceFailed? ==> fs.GapKept(old(fs.freeCount), old(fs.Fat()), 0)
      ensures !st.DeviceFailed? ==> Stepped(old(fs.Fat()), old(Chain()))
      ensures fs.reliable ==> !st.DeviceFailed?
    {
      hide TableStep, DiskOk, SectorOk, Copy, Mirrored, VolumeSafe, EntryPlaced, EntrySafe, FileGrew, Gap, Grown,
           BytesToClusters, ClusterBytes, NoneFreeBelow, Capacity, NoCrossLinks, ClustersWanted;
      ghost var d0, chains0 := fs.disk, fs.chains;
      ghost var fat0, cs0 := fs.Fat(), Chain();
      PositiveBytes(fs.g, 0);
      var neededClusters := ClustersWanted(fs.g, newSize);
      var currentClusters;
      st, currentClusters := StartAndCount();
      if !st.Done? {
        return;
      }
      ghost var d1, chains1 := fs.disk, fs.chains;
      ghost var fat1, cs1 := fs.Fat(), Chain();
      st := GrowChain(currentClusters, neededClusters);
      GrownTrans(chains0, chains1, fs.chains, entry.id);
      GrewTrans(fs.g, d0, d1, fs.disk, chains0, chains1, fs.chains, entry);
      if !st.DeviceFailed? {
        StepTrans(fat0, fat1, fs.Fat(), cs0, cs1, Chain());
      }
      if !st.Done? {
        return;
      }
      fileSize := newSize;
      FitsWithoutSize(fs.g, fs.chains, entry.id, firstCluster, 0);
      st := FinishGrowth(d0, chains0);
    }

    /** The loop of `truncate` that adds clusters. */
    method GrowChain(current: int, needed: int) returns (st: Status)
      requires Valid() && firstCluster != 0 && current == |Chain()|
      modifies fs`disk, fs`sector, fs`secLba, fs`freeCount, fs`nextFree, fs`fsinfoDirty, fs`chains
      ensures st.Done? ==> Valid() && |Chain()| == Most(current, needed)
      ensures st.Full? ==> Valid()
      ensures st.Full? ==> fs.Exhausted()
      ensures st.Full? ==> |Chain()| < needed
      ensures st.DeviceFailed? ==> CrashSafe()
      ensures !st.Failed? && Grown(old(fs.chains), fs.chains, entry.id)
      ensures FileGrew(fs.g, old(fs.disk), fs.disk, old(fs.chains), fs.chains, entry)
      ensures !st.DeviceFailed? && old(fs.HintOk()) ==> fs.HintOk()
      ensures !st.DeviceFailed? && old(fs.MarksExact()) ==> fs.MarksExact()
      ensures !st.DeviceFailed? ==> fs.GapKept(old(fs.freeCount), old(fs.Fat()), 0)
      ensures !st.DeviceFailed? ==> Stepped(old(fs.Fat()), old(Chain()))
      ensures fs.reliable ==> !st.DeviceFailed?
    {
      hide TableStep, DiskOk, SectorOk, Copy, Mirrored, VolumeSafe, EntryPlaced, EntrySafe, FileGrew, Gap, IsChain, Grown,
           NoneFreeBelow;
      ghost var d0, chains0 := fs.disk, fs.chains;
      SafeIsPlaced(fs.g, d0, chains0, entry);
      NothingGrew(fs.g, d0, chains0, entry);
      GrownSame(chains0, entry.id);
      StepSame(fs.Fat(), Chain());
      ghost var fat0, cs0 := fs.Fat(), Chain();
      var clusters := current;
      while clusters < needed
        invariant Valid() && firstCluster != 0 && current <= clusters == |Chain()| <= Most(current, needed)
        invariant Grown(chains0, fs.chains, entry.id) && FileGrew(fs.g, d0, fs.disk, chains0, fs.chains, entry)
        invariant old(fs.HintOk()) ==> fs.HintOk()
        invariant old(fs.MarksExact()) ==> fs.MarksExact()
        invariant fs.GapKept(old(fs.freeCount), old(fs.Fat()), 0)
        invariant Stepped(old(fs.Fat()), old(Chain()))
      {
        ghost var d1, chains1 := fs.disk, fs.chains;
        ghost var fat1, cs1 := fs.Fat(), Chain();
        st := GrowByCluster(clusters);
        GrownTrans(chains0, chains1, fs.chains, entry.id);
        GrewTrans(fs.g, d0, d1, fs.disk, chains0, chains1, fs.chains, entry);
        if !st.DeviceFailed? {
          StepTrans(fat0, fat1, fs.Fat(), cs0, cs1, Chain());
        }
        if !st.Done? {
          return;
        }
        clusters := clusters + 1;
      }
      st := Done;
    }

    /** Writes the directory entry of a file that grew. */
    method FinishGrowth(ghost d0: Disk, ghost chains0: Chains) returns (st: Status)
      requires ValidButSize() && FileGrew(fs.g, d0, fs.disk, chains0, fs.chains, entry)
      modifies fs`disk, fs`sector, fs`secLba
      ensures (st.Done? ==> ValidButSize()) && FileGrew(fs.g, d0, fs.disk, chains0, fs.chains, entry)
      ensures st.Done? ==> fs.Fat() == old(fs.Fat())
      ensures st.Done? && old(fs.HintOk()) ==> fs.HintOk()
      ensures st.Done? && old(fs.MarksExact()) ==> fs.MarksExact()
      ensures st.Done? ==> fs.GapKept(old(fs.freeCount), old(fs.Fat()), 0)
      ensures if st.Done? then true else st.DeviceFailed? && CrashSafe()
      ensures fs.reliable ==> !st.DeviceFailed?
    {
      hide TableStep, DiskOk, SectorOk, Copy, Mirrored, VolumeSafe, EntryPlaced, EntrySafe, FileGrew, Gap, NoneFreeBelow,
           DirentUpdated, FirstOnDisk, SizeOnDisk, IsChain, NoCrossLinks, Capacity;
      ghost var d1 := fs.disk;
      SafeIsPlaced(fs.g, d1, fs.chains, entry);
      FirstFits(fs.g, d1, fs.chains, entry.id);
      var ok := UpdateDirent();
      if ok {
        EntryNowSafe(fs.g, fs.disk, fs.chains, entry);
        GrewAndUpdated(fs.g, d0, d1, fs.disk, chains0, fs.chains, entry);
      }
      st := if ok then Done else DeviceFailed;
    }

    /** `File::truncate`.  Afterwards the file is in order exactly when the size fits into the chain, which it
        does unless the rounding wraps around; and a failure of the device leaves the file safe unless clusters
        are being given back that its entry leads to, where `FreeFirst` shows a state that is not. */
    method Truncate(newSize: int) returns (st: Status)
      requires Valid() && 0 <= newSize < U32
      modifies this`firstCluster, this`filePos, this`fileSize,
               fs`disk, fs`sector, fs`secLba, fs`freeCount, fs`nextFree, fs`fsinfoDirty, fs`chains
      ensures ClusterBytes(fs.g) > 0
      ensures st.Done? ==> ValidButSize() && fileSize == newSize
      ensures st.Done? ==> (Valid() <==> SizeFits())
      ensures st.Done? && newSize > old(fileSize) ==>
        |Chain()| == Most(Most(|old(Chain())|, 1), ClustersWanted(fs.g, newSize))
      ensures st.Done? && (newSize <= old(fileSize) || newSize + ClusterBytes(fs.g) - 1 < U32) ==> Valid()
      ensures st.Done? ==> filePos == if newSize < old(fileSize) && newSize < old(filePos) then newSize else old(filePos)
      ensures st.Full? ==> Valid() && fileSize == old(fileSize) && filePos == old(filePos) && newSize > old(fileSize)
      ensures st.Full? ==> fs.Exhausted()
      ensures st.Full? ==> |Chain()| < Most(1, ClustersWanted(fs.g, newSize))
      ensures st.DeviceFailed? && !old(Cuts(newSize)) ==> CrashSafe()
      ensures !st.Failed?
      ensures FileKeptOthers(fs.g, old(fs.disk), fs.disk, old(fs.chains), fs.chains, entry, FIELDS)
      ensures !st.DeviceFailed? ==> StartKept(fs.g, old(fs.disk), fs.disk, old(fs.chains), fs.chains, entry.id,
                if newSize < old(fileSize) then newSize else old(fileSize))
      ensures !st.DeviceFailed? && old(fs.HintOk()) ==> fs.HintOk()
      ensures !st.DeviceFailed? && old(fs.MarksExact()) ==> fs.MarksExact()
      ensures !st.DeviceFailed? ==> fs.GapKept(old(fs.freeCount), old(fs.Fat()), 0)
      ensures !st.DeviceFailed? ==> Stepped(old(fs.Fat()), old(Chain()))
      ensures fs.reliable ==> !st.DeviceFailed?
    {
      hide TableStep, DiskOk, SectorOk, Copy, Mirrored, VolumeSafe, EntryPlaced, EntrySafe, FileKeptOthers, Gap,
           NoneFreeBelow, FileGrew, StartKept, Shortened, Grown, ClusterBytes, Capacity;
      ghost var d0, chains0 := fs.disk, fs.chains;
      PositiveBytes(fs.g, 0);
      SafeIsPlaced(fs.g, d0, chains0, entry);
      StepSame(fs.Fat(), Chain());
      ValidWhenFits();
      if newSize == fileSize {
        NothingGrew(fs.g, d0, chains0, entry);
        GrewKept(fs.g, d0, fs.disk, chains0, fs.chains, entry, fileSize);
        return Done;
      }
      if newSize < fileSize {
        var ok;
        SomeCluster(fs.g, chains0, entry.id, firstCluster, fileSize);
        if newSize == 0 {
          ok := Clear();
          if ok {
            NothingKept(fs.g, d0, fs.disk, chains0, fs.chains, entry.id);
          }
        } else {
          ok := Shrink(newSize);
        }
        ValidWhenFits();
        return if ok then Done else DeviceFailed;
      }
      ghost var size0 := fileSize;
      st := Extend(newSize);
      GrewKept(fs.g, d0, fs.disk, chains0, fs.chains, entry, size0);
      if !st.DeviceFailed? {
        ValidWhenFits();
        if st.Done? && newSize + ClusterBytes(fs.g) - 1 < U32 {
          EnoughClusters(fs.g, newSize, Chain());
        }
      }
    }

    // -------------------------------------------------------------- closing and deleting

    /** `File::sync` */
    method Sync() returns (ok: bool)
      requires Valid()
      modifies fs`disk, fs`sector, fs`secLba
      ensures ok ==> Valid() && EntryCurrent() && DirentUpdated(fs.g, old(fs.disk), fs.disk, fs.chains, entry, FIELDS)
      ensures ok && old(fs.HintOk()) ==> fs.HintOk()
      ensures ok && old(fs.MarksExact()) ==> fs.MarksExact()
      ensures ok ==> fs.GapKept(old(fs.freeCount), old(fs.Fat()), 0)
      ensures ok ==> Stepped(old(fs.Fat()), old(Chain()))
      ensures ok ==> StartKept(fs.g, old(fs.disk), fs.disk, fs.chains, fs.chains, entry.id, fileSize)
      ensures FileKeptOthers(fs.g, old(fs.disk), fs.disk, fs.chains, fs.chains, entry, FIELDS)
      ensures !ok ==> CrashSafe()
      ensures fs.reliable ==> ok
    {
      hide TableStep, DiskOk, SectorOk, Copy, Mirrored, VolumeSafe, EntryPlaced, EntrySafe, DirentUpdated,
           FirstOnDisk, SizeOnDisk, Gap, NoneFreeBelow, StartKept, FileKeptOthers, FileGrew;
      SafeIsPlaced(fs.g, fs.disk, fs.chains, entry);
      FirstFits(fs.g, fs.disk, fs.chains, entry.id);
      ghost var d0 := fs.disk;
      NothingGrew(fs.g, d0, fs.chains, entry);
      GrewKept(fs.g, d0, d0, fs.chains, fs.chains, entry, fileSize);
      StepSame(fs.Fat(), Chain());
      ok := UpdateDirent();
      if ok {
        EntryNowSafe(fs.g, fs.disk, fs.chains, entry);
        StartStillKept(fs.g, d0, d0, fs.disk, fs.chains, fs.chains, entry, fileSize);
        KeptAndUpdated(fs.g, d0, d0, fs.disk, fs.chains, fs.chains, entry, FIELDS);
      }
    }

    /** The directory entry has the file's size and first cluster. */
    ghost predicate EntryCurrent()
      reads this, fs
    {
      && EntryPlaced(fs.g, fs.disk, fs.chains, entry)
      && FirstOnDisk(fs.g, fs.disk, fs.chains, entry) == firstCluster
      && SizeOnDisk(fs.g, fs.disk, fs.chains, entry) == fileSize
    }

    /** `File::close`: an empty file gives its clusters back. */
    method Close() returns (ok: bool)
      requires Valid()
      modifies this`firstCluster, fs`disk, fs`sector, fs`secLba, fs`freeCount, fs`nextFree, fs`fsinfoDirty, fs`chains
      ensures ok ==> Valid() && EntryCurrent()
      ensures ok ==> StartKept(fs.g, old(fs.disk), fs.disk, old(fs.chains), fs.chains, entry.id, fileSize)
      ensures FileKeptOthers(fs.g, old(fs.disk), fs.disk, old(fs.chains), fs.chains, entry, FIELDS)
      ensures ok && fileSize == 0 && !isDirectory ==> fs.chains == old(fs.chains) - {entry.id}
      ensures ok && (fileSize != 0 || isDirectory) ==> fs.chains == old(fs.chains)
      ensures !ok && (fileSize != 0 || isDirectory || old(firstCluster) == 0) ==> CrashSafe()
      ensures !ok && old(FirstOnDisk(fs.g, fs.disk, fs.chains, entry)) == 0 ==> CrashSafe()
      ensures ok && old(fs.HintOk()) ==> fs.HintOk()
      ensures ok && old(fs.MarksExact()) ==> fs.MarksExact()
      ensures ok ==> fs.GapKept(old(fs.freeCount), old(fs.Fat()), 0)
      ensures ok ==> Stepped(old(fs.Fat()), old(Chain()))
      ensures fs.reliable ==> ok
    {
      hide TableStep, DiskOk, SectorOk, Copy, Mirrored, VolumeSafe, EntryPlaced, EntrySafe, DirentUpdated,
           FirstOnDisk, SizeOnDisk, FileKeptOthers, Gap, NoneFreeBelow, StartKept;
      ghost var d0, chains0 := fs.disk, fs.chains;
      SafeIsPlaced(fs.g, d0, chains0, entry);
      FirstFits(fs.g, d0, chains0, entry.id);
      StepSame(fs.Fat(), Chain());
      NothingGrew(fs.g, d0, chains0, entry);
      GrewKept(fs.g, d0, d0, chains0, chains0, entry, fileSize);
      if fileSize == 0 && firstCluster != 0 && !isDirectory {
        ok := DropChain();
        if !ok {
          return;
        }
        NoClusters(fs.g, fs.chains, entry.id);
        NothingKept(fs.g, d0, fs.disk, chains0, fs.chains, entry.id);
        if FirstOnDisk(fs.g, fs.disk, fs.chains, entry) == 0 {
          EntryNowSafe(fs.g, fs.disk, fs.chains, entry);
        }
      }
      ghost var d1 := fs.disk;
      ok := UpdateDirent();
      if ok {
        EntryNowSafe(fs.g, fs.disk, fs.chains, entry);
        StartStillKept(fs.g, d0, d1, fs.disk, chains0, fs.chains, entry, fileSize);
        KeptAndUpdated(fs.g, d0, d1, fs.disk, chains0, fs.chains, entry, FIELDS);
      }
    }

    /** The entry is marked deleted on the device. */
    ghost predicate Deleted()
      reads fs
    {
      && EntryPlaced(fs.g, fs.disk, fs.chains, entry) && SectorOk(fs.g, fs.disk[entry.lba])
      && fs.disk[entry.lba][entry.offset] == 0xe5
    }

    /** The part of `unlink` that marks the entry deleted. */
    method MarkDeleted() returns (ok: bool)
      requires Valid()
      modifies fs`disk, fs`sector, fs`secLba
      ensures ok ==> fs.Linked() && Deleted() && fs.Fat() == old(fs.Fat())
      ensures FileKeptOthers(fs.g, old(fs.disk), fs.disk, fs.chains, fs.chains, entry, WHOLE)
      ensures ok && old(fs.HintOk()) ==> fs.HintOk()
      ensures ok && old(fs.MarksExact()) ==> fs.MarksExact()
      ensures ok ==> fs.GapKept(old(fs.freeCount), old(fs.Fat()), 0)
      ensures !ok ==> fs.disk == old(fs.disk)
      ensures fs.reliable ==> ok
    {
      hide TableStep, DiskOk, SectorOk, Copy, Mirrored, VolumeSafe, EntryPlaced, EntrySafe, FileKeptOthers, Gap,
           NoneFreeBelow, DirentUpdated;
      ghost var d0, chains0 := fs.disk, fs.chains;
      SafeIsPlaced(fs.g, d0, chains0, entry);
      PlacedInside(fs.g, d0, chains0, entry);
      KeptSame(fs.g, d0, chains0, entry, WHOLE);
      ok := fs.LoadSector(dirLba);
      if ok {
        EntryMarked(fs.g, d0, chains0, entry, 0xe5);
        fs.sector := fs.sector[dirOffset := 0xe5];
        ok := fs.StoreSector(dirLba);
      }
      if ok {
        KeptAndUpdated(fs.g, d0, d0, fs.disk, chains0, chains0, entry, WHOLE);
      }
    }

    /** The part of `unlink` that frees the chain of the deleted file. */
    method FreeDeleted() returns (ok: bool)
      requires fs.Linked() && Deleted() && HandleOk(fs.g, fs.chains, entry.id, firstCluster, fileSize)
      modifies fs`disk, fs`sector, fs`secLba, fs`freeCount, fs`nextFree, fs`fsinfoDirty, fs`chains
      ensures fs.Safe() && Deleted() && fs.chains == old(fs.chains) - {entry.id}
      ensures (ok ==> fs.Linked()) && FileKeptOthers(fs.g, old(fs.disk), fs.disk, old(fs.chains), fs.chains, entry, WHOLE)
      ensures ok && old(fs.HintOk()) ==> fs.HintOk()
      ensures ok && old(fs.MarksExact()) ==> fs.MarksExact()
      ensures ok ==> fs.GapKept(old(fs.freeCount), old(fs.Fat()), 0)
      ensures ok ==> Stepped(old(fs.Fat()), old(Chain()))
      ensures fs.reliable ==> ok
    {
      hide TableStep, DiskOk, SectorOk, Copy, Mirrored, VolumeSafe, EntryPlaced, FileKeptOthers, Gap, SameData,
           IsChain, NoneFreeBelow, FreedWithin, ClustersOf;
      ghost var d0, chains0, cs := fs.disk, fs.chains, Chain();
      ChainFacts(fs.g, d0, chains0, entry.id);
      TableLimit(fs.g, d0, chains0);
      SameDisk(fs.g, d0);
      StepSame(fs.Fat(), Chain());
      ghost var fat0 := fs.Fat();
      ok := true;
      if firstCluster >= 2 {
        ok := fs.FreeWholeChain(firstCluster, cs);
        if ok {
          StepFreed(fat0, fs.Fat(), cs);
        }
      } else {
        NoChainBelow(fs.g, d0, chains0, entry.id);
      }
      fs.chains := fs.chains - {entry.id};
      if ok {
        ChainCleared(fs.g, d0, fs.disk, chains0, entry, WHOLE);
        MarkKept(fs.g, d0, fs.disk, chains0, fs.chains, entry, 0xe5);
      } else {
        PartlyCleared(fs.g, d0, fs.disk, chains0, entry, 0xe5);
      }
    }

    /** The part of `unlink` after the file is found: first the entry is marked deleted, then its chain is
        freed.  Wherever that stops, either the file is still whole, or no entry leads to its clusters. */
    method Unlink() returns (ok: bool)
      requires Valid()
      modifies fs`disk, fs`sector, fs`secLba, fs`freeCount, fs`nextFree, fs`fsinfoDirty, fs`chains
      ensures ok ==> fs.Linked() && Deleted() && fs.chains == old(fs.chains) - {entry.id}
      ensures FileKeptOthers(fs.g, old(fs.disk), fs.disk, old(fs.chains), fs.chains, entry, WHOLE)
      ensures ok && old(fs.HintOk()) ==> fs.HintOk()
      ensures ok && old(fs.MarksExact()) ==> fs.MarksExact()
      ensures ok ==> fs.GapKept(old(fs.freeCount), old(fs.Fat()), 0)
      ensures ok ==> Stepped(old(fs.Fat()), old(Chain()))
      ensures !ok ==>
        (CrashSafe() && fs.chains == old(fs.chains)) ||
        (fs.Safe() && Deleted() && fs.chains == old(fs.chains) - {entry.id})
      ensures fs.reliable ==> ok
    {
      hide TableStep, DiskOk, SectorOk, Copy, Mirrored, VolumeSafe, EntryPlaced, EntrySafe, FileKeptOthers, Gap,
           NoneFreeBelow;
      ghost var d0, chains0 := fs.disk, fs.chains;
      ok := MarkDeleted();
      if ok {
        ghost var d1 := fs.disk;
        ok := FreeDeleted();
        KeptTrans(fs.g, d0, d1, fs.disk, chains0, chains0, fs.chains, entry, WHOLE);
      }
    }
  }

  lemma PlacedInside(g: Geometry, d: Disk, chains: Chains, e: Dirent)
    requires EntryPlaced(g, d, chains, e)
    ensures 0 <= e.lba < |d| && 0 <= e.offset && e.offset + 32 <= g.bytesPerSector && SectorOk(g, d[e.lba])
  {}

  /** A directory entry was rewritten: the tables and all bytes outside the entry are as before. */
  ghost predicate DirentUpdated(g: Geometry, d: Disk, d': Disk, chains: Chains, e: Dirent, lo: int) {
    && VolumeSafe(g, d, chains) && DiskOk(g, d') && AllClustersOk(g, chains)
    && (forall k :: 0 <= k < g.fatCount ==> Copy(g, d', k) == Copy(g, d, k))
    && OthersKept(g, d, d', chains, chains, e.dir, e.dir)
    && (e.dir in chains ==> ClustersOk(g, chains[e.dir]) && DirKept(g, d, d', chains[e.dir], e.slot, e.offset, lo))
  }

  /** The sector with the rewritten entry, on the device. */
  lemma EntryStored(g: Geometry, d: Disk, chains: Chains, e: Dirent, size: int, first: int)
    requires VolumeSafe(g, d, chains) && EntryPlaced(g, d, chains, e) && 0 <= size < U32 && 0 <= first < U32
    ensures 0 <= e.lba < |d| && |d[e.lba]| == g.bytesPerSector && 0 <= e.offset && e.offset + 32 <= g.bytesPerSector
    ensures var s' := WithDirent(d[e.lba], e.offset, size, first);
      var d' := d[e.lba := s'];
      && SectorOk(g, s') && EntryPlaced(g, d', chains, e) && VolumeSafe(g, d', chains)
      && FirstOnDisk(g, d', chains, e) == first && SizeOnDisk(g, d', chains, e) == size
      && DirentUpdated(g, d, d', chains, e, FIELDS) && Copy(g, d', 0) == Copy(g, d, 0)
      && (Mirrored(g, d) ==> Mirrored(g, d'))
  {
    PlacedInside(g, d, chains, e);
    DirentWritten(g, d[e.lba], e.offset, size, first);
    ChainFacts(g, d, chains, e.dir);
    var s' := WithDirent(d[e.lba], e.offset, size, first);
    OthersUnderBlock(g, Copy(g, d, 0), d, chains, e.dir, e.slot, s');
    DirEntryStored(g, d, chains[e.dir], e.slot, e.offset, s', FIELDS);
  }

  // ---------------------------------------------------------------- growing a chain

  /** Only the chain of `f` changed, and only at its end. */
  ghost predicate Grown(chains: Chains, chains': Chains, f: int) {
    chains' == chains || (f in chains' && chains' == chains[f := chains'[f]] && ChainOf(chains, f) <= chains'[f])
  }

  /** `data` was written at byte `p` of the file of entry `e`, whose chain may have grown; other files are
      untouched, and of the directory only the entry. */
  ghost predicate FileWrote(g: Geometry, d: Disk, d': Disk, chains: Chains, chains': Chains, e: Dirent, p: int, data: seq<int>) {
    && VolumeSafe(g, d, chains) && VolumeSafe(g, d', chains') && Grown(chains, chains', e.id)
    && AllClustersOk(g, chains) && ClustersOk(g, ChainOf(chains, e.id)) && ClustersOk(g, ChainOf(chains', e.id))
    && OthersKept(g, d, d', chains, chains', e.id, e.dir)
    && e.dir in chains && e.dir != e.id && ClustersOk(g, chains[e.dir])
    && DirKept(g, d, d', chains[e.dir], e.slot, e.offset, FIELDS)
    && Written(g, d, d', ChainOf(chains, e.id), ChainOf(chains', e.id), p, data)
  }

  /** What was written is on the volume in the file's clusters. */
  lemma WroteOnVolume(g: Geometry, d: Disk, d': Disk, chains: Chains, chains': Chains, e: Dirent, p: int, data: seq<int>)
    requires FileWrote(g, d, d', chains, chains', e, p, data) && 0 <= p
    ensures OnVolume(g, d', ChainOf(chains', e.id), p, data)
  {
    hide Content, OnVolume;
    if data != [] {
      ContentOnVolume(g, d', ChainOf(chains', e.id), p, data);
    } else {
      NothingOnVolume(g, d', ChainOf(chains', e.id), p);
    }
  }

  lemma NothingOnVolume(g: Geometry, d: Disk, cs: seq<int>, p: int)
    ensures OnVolume(g, d, cs, p, [])
  {}

  ghost predicate FileGrew(g: Geometry, d: Disk, d': Disk, chains: Chains, chains': Chains, e: Dirent) {
    FileWrote(g, d, d', chains, chains', e, 0, [])
  }

  lemma NothingGrew(g: Geometry, d: Disk, chains: Chains, e: Dirent)
    requires VolumeSafe(g, d, chains) && EntryPlaced(g, d, chains, e)
    ensures FileGrew(g, d, d, chains, chains, e)
  {
    ChainFacts(g, d, chains, e.id);
    assert ClustersOk(g, chains[e.dir]);
    OthersUnderTables(g, d, d, chains, chains, e.id, e.dir);
    WrittenNothing(g, d, d, ChainOf(chains, e.id), ChainOf(chains, e.id), 0);
  }

  lemma SafeIsPlaced(g: Geometry, d: Disk, chains: Chains, e: Dirent)
    requires EntrySafe(g, d, chains, e)
    ensures EntryPlaced(g, d, chains, e)
  {}

  /** Changes of the tables alone keep an entry on the device. */
  lemma EntryUnderTables(g: Geometry, d: Disk, d': Disk, chains: Chains, chains': Chains, e: Dirent)
    requires EntryPlaced(g, d, chains, e) && VolumeSafe(g, d, chains) && DiskOk(g, d') && SameData(g, d, d')
    requires e.dir in chains' && chains'[e.dir] == chains[e.dir]
    ensures EntryPlaced(g, d', chains', e)
    ensures FirstOnDisk(g, d', chains', e) == FirstOnDisk(g, d, chains, e)
    ensures SizeOnDisk(g, d', chains', e) == SizeOnDisk(g, d, chains, e)
  {
    ChainFacts(g, d, chains, e.dir);
    SectorInside(g, chains[e.dir], e.slot);
  }

  lemma ClusterTaken(g: Geometry, d: Disk, d': Disk, chains: Chains, e: Dirent, c: int)
    requires VolumeSafe(g, d, chains) && EntrySafe(g, d, chains, e) && DiskOk(g, d') && SameData(g, d, d')
    requires 2 <= c < g.totalClusters && Copy(g, d, 0)[c] == 0 && Copy(g, d', 0) == Copy(g, d, 0)[c := EOC]
    ensures VolumeSafe(g, d', chains) && EntrySafe(g, d', chains, e)
    ensures forall h :: h in chains ==> c !in chains[h]
  {
    TakenSafe(g, d, d', chains, c);
    EntryUnderTables(g, d, d', chains, chains, e);
  }

  lemma AllocationTorn(g: Geometry, d: Disk, d': Disk, chains: Chains, e: Dirent)
    requires VolumeSafe(g, d, chains) && EntrySafe(g, d, chains, e)
    requires d' == d || exists c :: 2 <= c < g.totalClusters && Copy(g, d, 0)[c] == 0 && Torn(g, d, d', c, EOC)
    ensures VolumeSafe(g, d', chains) && EntrySafe(g, d', chains, e) && FileGrew(g, d, d', chains, chains, e)
  {
    SameDisk(g, d);
    GrownSame(chains, e.id);
    if d' != d {
      var c :| 2 <= c < g.totalClusters && Copy(g, d, 0)[c] == 0 && Torn(g, d, d', c, EOC);
      if Copy(g, d', 0) == Copy(g, d, 0) {
        EntryUnderTables(g, d, d', chains, chains, e);
      } else {
        ClusterTaken(g, d, d', chains, e, c);
      }
    }
    TablesGrew(g, d, d', chains, chains, e);
  }

  lemma ChainStarted(g: Geometry, d: Disk, d': Disk, chains: Chains, e: Dirent, c: int, size: int)
    requires VolumeSafe(g, d, chains) && EntrySafe(g, d, chains, e) && VolumeSafe(g, d', chains) && SameData(g, d, d')
    requires e.id !in chains && 2 <= c < g.totalClusters && Copy(g, d', 0)[c] >= EOC
    requires forall h :: h in chains ==> c !in chains[h]
    requires HandleOk(g, chains, e.id, 0, size)
    ensures var chains' := chains[e.id := [c]];
      && VolumeSafe(g, d', chains') && EntrySafe(g, d', chains', e) && EntryPlaced(g, d', chains', e) && HandleOk(g, chains', e.id, c, size)
      && Grown(chains, chains', e.id) && FileGrew(g, d, d', chains, chains', e)
  {
    hide Copy, DiskOk;
    var chains' := chains[e.id := [c]];
    Started(Copy(g, d', 0), chains, e.id, c);
    EntryUnderTables(g, d, d', chains, chains', e);
    ChainFacts(g, d, chains, e.id);
    ChainFacts(g, d', chains', e.id);
    assert ClustersOk(g, chains[e.dir]);
    OthersUnderTables(g, d, d', chains, chains', e.id, e.dir);
    BlocksFrame(g, d, d', chains[e.dir]);
    DirSame(g, d, d', chains[e.dir], e.slot, e.offset, FIELDS);
    WrittenNothing(g, d, d', ChainOf(chains, e.id), [c], 0);
    CapacityOrder(g, [], [c]);
  }

  lemma EntryNowSafe(g: Geometry, d: Disk, chains: Chains, e: Dirent)
    requires EntryPlaced(g, d, chains, e)
    requires FirstOnDisk(g, d, chains, e) == 0 ||
      (e.id in chains && |chains[e.id]| > 0 && chains[e.id][0] == FirstOnDisk(g, d, chains, e))
    ensures EntrySafe(g, d, chains, e)
  {}

  /** First the chain grew, then its directory entry was rewritten. */
  lemma GrewAndUpdated(g: Geometry, d0: Disk, d1: Disk, d2: Disk, chains: Chains, chains': Chains, e: Dirent)
    requires FileGrew(g, d0, d1, chains, chains', e) && DirentUpdated(g, d1, d2, chains', e, FIELDS) && VolumeSafe(g, d2, chains')
    requires e.id in chains' ==> e.id != e.dir
    ensures FileGrew(g, d0, d2, chains, chains', e)
  {
    ChainFacts(g, d1, chains', e.id);
    OthersFromEntry(g, d1, d2, chains', e, FIELDS);
    OthersTrans(g, d0, d1, d2, chains, chains', chains', e.id, e.dir);
    DirTrans(g, d0, d1, d2, chains[e.dir], e.slot, e.offset, FIELDS);
    WrittenUnchanged(g, d0, d1, d2, ChainOf(chains, e.id), ChainOf(chains', e.id), e, chains', FIELDS);
  }

  lemma OthersFromEntry(g: Geometry, d: Disk, d': Disk, chains: Chains, e: Dirent, lo: int)
    requires DirentUpdated(g, d, d', chains, e, lo)
    ensures OthersKept(g, d, d', chains, chains, e.id, e.dir)
  {}

  lemma WrittenUnchanged(g: Geometry, d0: Disk, d1: Disk, d2: Disk, cs: seq<int>, cs': seq<int>, e: Dirent, chains: Chains, lo: int)
    requires GeometryOk(g) && DiskOk(g, d0) && DiskOk(g, d1) && DiskOk(g, d2) && ClustersOk(g, cs) && ClustersOk(g, cs')
    requires Written(g, d0, d1, cs, cs', 0, []) && DirentUpdated(g, d1, d2, chains, e, lo) && e.id != e.dir
    requires cs' == ChainOf(chains, e.id)
    ensures Written(g, d0, d2, cs, cs', 0, [])
  {
    assert Blocks(g, d2, cs') == Blocks(g, d1, cs') by {
      if e.id in chains {
        assert Blocks(g, d2, chains[e.id]) == Blocks(g, d1, chains[e.id]);
      }
    }
    assert Content(g, d2, cs') == Content(g, d1, cs');
  }

  lemma LastCluster(fat: seq<int>, cs: seq<int>)
    requires IsChain(fat, cs)
    ensures 2 <= cs[|cs| - 1] < |fat| && fat[cs[|cs| - 1]] >= EOC
  {}

  lemma NextInChain(fat: seq<int>, cs: seq<int>, i: int)
    requires IsChain(fat, cs) && 0 <= i < |cs| && |fat| <= EOC
    ensures 2 <= cs[i] < |fat| && (fat[cs[i]] >= EOC <==> i == |cs| - 1)
    ensures i < |cs| - 1 ==> fat[cs[i]] == cs[i + 1]
  {}

  lemma ChainExtended(g: Geometry, d0: Disk, d1: Disk, d2: Disk, chains: Chains, e: Dirent, c: int, first: int, size: int)
    requires VolumeSafe(g, d0, chains) && VolumeSafe(g, d1, chains) && EntrySafe(g, d1, chains, e) && DiskOk(g, d2)
    requires SameData(g, d0, d1) && SameData(g, d1, d2) && HandleOk(g, chains, e.id, first, size)
    requires e.id in chains && 2 <= c < g.totalClusters && Copy(g, d1, 0)[c] >= EOC
    requires forall h :: h in chains ==> c !in chains[h]
    requires |chains[e.id]| > 0 && 0 <= chains[e.id][|chains[e.id]| - 1] < g.totalClusters
    requires Copy(g, d2, 0) == Copy(g, d1, 0)[chains[e.id][|chains[e.id]| - 1] := c]
    requires EntryPlaced(g, d0, chains, e)
    ensures var chains' := chains[e.id := chains[e.id] + [c]];
      && VolumeSafe(g, d2, chains') && EntrySafe(g, d2, chains', e) && HandleOk(g, chains', e.id, first, size)
      && FileGrew(g, d0, d2, chains, chains', e)
  {
    hide Copy, DiskOk;
    var chains' := chains[e.id := chains[e.id] + [c]];
    Extended(Copy(g, d1, 0), chains, e.id, c);
    EntryUnderTables(g, d1, d2, chains, chains', e);
    SameDataTrans(g, d0, d1, d2);
    TablesGrew(g, d0, d2, chains, chains', e);
    CapacityOrder(g, chains[e.id], chains'[e.id]);
  }

  /** Growth by changes of the tables alone. */
  lemma TablesGrew(g: Geometry, d: Disk, d': Disk, chains: Chains, chains': Chains, e: Dirent)
    requires VolumeSafe(g, d, chains) && VolumeSafe(g, d', chains') && SameData(g, d, d')
    requires Grown(chains, chains', e.id) && EntryPlaced(g, d, chains, e)
    ensures FileGrew(g, d, d', chains, chains', e)
  {
    ChainFacts(g, d, chains, e.id);
    ChainFacts(g, d', chains', e.id);
    assert ClustersOk(g, chains[e.dir]);
    OthersUnderTables(g, d, d', chains, chains', e.id, e.dir);
    BlocksFrame(g, d, d', chains[e.dir]);
    DirSame(g, d, d', chains[e.dir], e.slot, e.offset, FIELDS);
    WrittenNothing(g, d, d', ChainOf(chains, e.id), ChainOf(chains', e.id), 0);
  }

  /** A failed link: the chain on the device has the new cluster, or not. */
  lemma LinkTorn(g: Geometry, d0: Disk, d: Disk, d': Disk, chains: Chains, e: Dirent, c: int) returns (chains': Chains)
    requires VolumeSafe(g, d, chains) && EntrySafe(g, d, chains, e) && e.id in chains
    requires 2 <= c < g.totalClusters && Copy(g, d, 0)[c] >= EOC && forall h :: h in chains ==> c !in chains[h]
    requires |chains[e.id]| > 0 && 0 <= chains[e.id][|chains[e.id]| - 1] < g.totalClusters
    requires Torn(g, d, d', chains[e.id][|chains[e.id]| - 1], c)
    requires VolumeSafe(g, d0, chains) && EntryPlaced(g, d0, chains, e) && SameData(g, d0, d)
    ensures VolumeSafe(g, d', chains') && EntrySafe(g, d', chains', e) && Grown(chains, chains', e.id)
    ensures FileGrew(g, d0, d', chains, chains', e)
  {
    hide Copy, DiskOk;
    if Copy(g, d', 0) == Copy(g, d, 0) {
      chains' := chains;
    } else {
      chains' := chains[e.id := chains[e.id] + [c]];
      Extended(Copy(g, d, 0), chains, e.id, c);
    }
    EntryUnderTables(g, d, d', chains, chains', e);
    SameDataTrans(g, d0, d, d');
    TablesGrew(g, d0, d', chains, chains', e);
  }

  lemma GrownSame(chains: Chains, f: int)
    ensures Grown(chains, chains, f)
  {}

  lemma GrownTrans(a: Chains, b: Chains, c: Chains, f: int)
    requires Grown(a, b, f) && Grown(b, c, f)
    ensures Grown(a, c, f)
  {}

  lemma GrewTrans(g: Geometry, d0: Disk, d1: Disk, d2: Disk, c0: Chains, c1: Chains, c2: Chains, e: Dirent)
    requires FileGrew(g, d0, d1, c0, c1, e) && FileGrew(g, d1, d2, c1, c2, e)
    ensures FileGrew(g, d0, d2, c0, c2, e)
  {
    GrownTrans(c0, c1, c2, e.id);
    OthersTrans(g, d0, d1, d2, c0, c1, c2, e.id, e.dir);
    DirTrans(g, d0, d1, d2, c0[e.dir], e.slot, e.offset, FIELDS);
    WrittenTrans(g, d0, d1, d2, ChainOf(c0, e.id), ChainOf(c1, e.id), ChainOf(c2, e.id), 0, [], []);
  }

  // ---------------------------------------------------------------- writing

  predicate AllBytesOk(data: seq<int>) { forall i :: 0 <= i < |data| ==> 0 <= data[i] < 256 }

  lemma TailBytes(data: seq<int>, n: int)
    requires AllBytesOk(data) && 0 <= n <= |data|
    ensures AllBytesOk(data[n..])
  {}

  lemma WroteTrans(g: Geometry, d0: Disk, d1: Disk, d2: Disk, c0: Chains, c1: Chains, c2: Chains, e: Dirent,
                   p: int, a: seq<int>, b: seq<int>)
    requires FileWrote(g, d0, d1, c0, c1, e, p, a) && FileWrote(g, d1, d2, c1, c2, e, p + |a|, b)
    ensures FileWrote(g, d0, d2, c0, c2, e, p, a + b)
  {
    GrownTrans(c0, c1, c2, e.id);
    OthersTrans(g, d0, d1, d2, c0, c1, c2, e.id, e.dir);
    DirTrans(g, d0, d1, d2, c0[e.dir], e.slot, e.offset, FIELDS);
    WrittenTrans(g, d0, d1, d2, ChainOf(c0, e.id), ChainOf(c1, e.id), ChainOf(c2, e.id), p, a, b);
  }

  lemma PositiveBytes(g: Geometry, p: int)
    requires GeometryOk(g) && p >= 0
    ensures ClusterBytes(g) > 0 && BytesToClusters(g, p) >= 0
  {
    WithinCapacity(g, [], p);
  }

  lemma GrewIsWrote(g: Geometry, d: Disk, d': Disk, chains: Chains, chains': Chains, e: Dirent, p: int)
    requires FileGrew(g, d, d', chains, chains', e) && p >= 0
    ensures FileWrote(g, d, d', chains, chains', e, p, [])
  {}

  lemma SectorAt(g: Geometry, d: Disk, l: int)
    requires DiskOk(g, d) && 0 <= l < |d|
    ensures SectorOk(g, d[l]) && |d[l]| == g.bytesPerSector
  {}

  /** `memcpy` into the sector buffer. */
  function Splice(g: Geometry, s: Sector, o: int, data: seq<int>): Sector
    requires 0 <= o && o + |data| <= g.bytesPerSector && SectorOk(g, s)
  {
    s[..o] + data + s[o + |data|..]
  }

  lemma SpliceData(g: Geometry, s: Sector, o: int, data: seq<int>, n: int)
    requires SectorOk(g, s) && 0 <= o && 0 <= n <= |data| && o + n <= g.bytesPerSector && AllBytesOk(data)
    ensures SectorOk(g, Splice(g, s, o, data[..n])) && Spliced(s, Splice(g, s, o, data[..n]), o, data[..n])
  {}

  lemma WholeSector(g: Geometry, s: Sector, piece: seq<int>, data: seq<int>)
    requires SectorOk(g, s) && |piece| == g.bytesPerSector && piece <= data && AllBytesOk(data)
    ensures Splice(g, s, 0, piece) == piece && SectorOk(g, piece)
  {}

  /** The sector with the piece is stored, after the chain grew to hold it. */
  lemma PieceStored(g: Geometry, d0: Disk, d1: Disk, chains: Chains, chains': Chains, e: Dirent, p: int, piece: seq<int>, s: Sector)
    requires FileGrew(g, d0, d1, chains, chains', e) && EntrySafe(g, d1, chains', e) && e.id in chains' && 0 <= p
    requires p < Capacity(g, chains'[e.id]) && piece != [] && ClusterBytes(g) > 0
    requires 0 <= BytesToSectors(g, p) < Sectors(g, chains'[e.id]) && ClustersOk(g, chains'[e.id]) && SectorOk(g, s)
    requires Spliced(Blocks(g, d1, chains'[e.id])[BytesToSectors(g, p)], s, InSector(g, p), piece)
    ensures 0 <= BytesToSectors(g, p) / g.sectorsPerCluster < |chains'[e.id]|
    ensures 0 <= SectorLba(g, chains'[e.id], BytesToSectors(g, p)) < |d1|
    ensures var d2 := d1[SectorLba(g, chains'[e.id], BytesToSectors(g, p)) := s];
      && FileWrote(g, d0, d2, chains, chains', e, p, piece) && EntrySafe(g, d2, chains', e) && VolumeSafe(g, d2, chains')
      && (Mirrored(g, d1) ==> Mirrored(g, d2)) && p + |piece| <= Capacity(g, chains'[e.id])
      && Copy(g, d2, 0) == Copy(g, d1, 0)
  {
    var cs := chains'[e.id];
    ChainFacts(g, d1, chains', e.id);
    WrittenInSector(g, d1, cs, p, piece, s);
    OthersUnderBlock(g, Copy(g, d1, 0), d1, chains', e.id, BytesToSectors(g, p), s);
    var d2 := d1[SectorLba(g, cs, BytesToSectors(g, p)) := s];
    EntryUnderBlock(g, d1, chains', e, BytesToSectors(g, p), s);
    GrewIsWrote(g, d0, d1, chains, chains', e, p);
    OthersTrans(g, d0, d1, d2, chains, chains', chains', e.id, e.dir);
    DirTrans(g, d0, d1, d2, chains[e.dir], e.slot, e.offset, FIELDS);
    WrittenTrans(g, d0, d1, d2, ChainOf(chains, e.id), cs, cs, p, [], piece);
    assert [] + piece == piece;
  }

  /** Storing a block of the file keeps the entry and the directory. */
  lemma EntryUnderBlock(g: Geometry, d: Disk, chains: Chains, e: Dirent, j: int, s: Sector)
    requires VolumeSafe(g, d, chains) && EntrySafe(g, d, chains, e) && e.id in chains && SectorOk(g, s)
    requires ClustersOk(g, chains[e.id]) && 0 <= j < Sectors(g, chains[e.id])
    ensures 0 <= j / g.sectorsPerCluster < |chains[e.id]| && 0 <= SectorLba(g, chains[e.id], j) < |d|
    ensures var d' := d[SectorLba(g, chains[e.id], j) := s];
      && EntrySafe(g, d', chains, e) && ClustersOk(g, chains[e.dir]) && DirKept(g, d, d', chains[e.dir], e.slot, e.offset, FIELDS)
  {
    ChainFacts(g, d, chains, e.dir);
    assert Apart(chains[e.id], chains[e.dir]);
    BlockElsewhere(g, d, chains[e.id], j, s, chains[e.dir]);
    var d' := d[SectorLba(g, chains[e.id], j) := s];
    SectorInside(g, chains[e.dir], e.slot);
    assert Blocks(g, d', chains[e.dir])[e.slot] == d'[e.lba] && Blocks(g, d, chains[e.dir])[e.slot] == d[e.lba];
    DirSame(g, d, d', chains[e.dir], e.slot, e.offset, FIELDS);
  }

  // ---------------------------------------------------------------- truncating

  /** Other files are untouched, and of the directory only the entry changed. */
  ghost predicate FileKeptOthers(g: Geometry, d: Disk, d': Disk, chains: Chains, chains': Chains, e: Dirent, lo: int) {
    && VolumeSafe(g, d, chains) && VolumeSafe(g, d', chains') && AllClustersOk(g, chains)
    && OthersKept(g, d, d', chains, chains', e.id, e.dir)
    && e.dir in chains && e.dir != e.id && ClustersOk(g, chains[e.dir])
    && DirKept(g, d, d', chains[e.dir], e.slot, e.offset, lo)
  }

  lemma KeptWhole(g: Geometry, d: Disk, d': Disk, chains: Chains, chains': Chains, e: Dirent)
    requires FileKeptOthers(g, d, d', chains, chains', e, FIELDS)
    ensures FileKeptOthers(g, d, d', chains, chains', e, WHOLE)
  {}

  lemma TableLimit(g: Geometry, d: Disk, chains: Chains)
    requires VolumeSafe(g, d, chains)
    ensures g.totalClusters <= EOC
  {}

  lemma NoChainBelow(g: Geometry, d: Disk, chains: Chains, f: int)
    requires VolumeSafe(g, d, chains) && (f in chains ==> |chains[f]| > 0 && chains[f][0] < 2)
    ensures f !in chains && Freed(Copy(g, d, 0), Copy(g, d, 0), ChainOf(chains, f))
  {
    if f in chains {
      ChainStarts(g, d, chains, f);
    }
  }

  lemma ChainStarts(g: Geometry, d: Disk, chains: Chains, f: int)
    requires VolumeSafe(g, d, chains) && f in chains
    ensures |chains[f]| > 0 && 2 <= chains[f][0] < g.totalClusters
  {
    assert IsChain(Copy(g, d, 0), chains[f]);
  }

  lemma NoClusters(g: Geometry, chains: Chains, f: int)
    requires GeometryOk(g) && f !in chains
    ensures HandleOk(g, chains, f, 0, 0)
  {}

  lemma ChainCleared(g: Geometry, d: Disk, d': Disk, chains: Chains, e: Dirent, lo: int)
    requires VolumeSafe(g, d, chains) && EntryPlaced(g, d, chains, e) && DiskOk(g, d') && SameData(g, d, d')
    requires Freed(Copy(g, d, 0), Copy(g, d', 0), ChainOf(chains, e.id))
    ensures var chains' := chains - {e.id};
      && VolumeSafe(g, d', chains') && EntryPlaced(g, d', chains', e) && FileKeptOthers(g, d, d', chains, chains', e, lo)
      && FirstOnDisk(g, d', chains', e) == FirstOnDisk(g, d, chains, e)
  {
    hide Copy, DiskOk;
    var chains' := chains - {e.id};
    if e.id in chains {
      FreedChain(Copy(g, d, 0), Copy(g, d', 0), chains, e.id);
    } else {
      assert chains' == chains && Copy(g, d', 0) == Copy(g, d, 0);
    }
    TablesKeptOthers(g, d, d', chains, chains', e, lo);
  }

  lemma TablesKeptOthers(g: Geometry, d: Disk, d': Disk, chains: Chains, chains': Chains, e: Dirent, lo: int)
    requires VolumeSafe(g, d, chains) && EntryPlaced(g, d, chains, e) && DiskOk(g, d') && SameData(g, d, d')
    requires VolumeSafe(g, d', chains')
    requires chains' == chains - {e.id} || (e.id in chains' && chains' == chains[e.id := chains'[e.id]])
    ensures EntryPlaced(g, d', chains', e) && FileKeptOthers(g, d, d', chains, chains', e, lo)
    ensures FirstOnDisk(g, d', chains', e) == FirstOnDisk(g, d, chains, e)
  {
    ChainFacts(g, d, chains, e.dir);
    OthersUnderTables(g, d, d', chains, chains', e.id, e.dir);
    BlocksFrame(g, d, d', chains[e.dir]);
    DirSame(g, d, d', chains[e.dir], e.slot, e.offset, lo);
    EntryUnderTables(g, d, d', chains, chains', e);
  }

  lemma KeptAndUpdated(g: Geometry, d0: Disk, d1: Disk, d2: Disk, chains: Chains, chains': Chains, e: Dirent, lo: int)
    requires FileKeptOthers(g, d0, d1, chains, chains', e, lo) && DirentUpdated(g, d1, d2, chains', e, lo) && VolumeSafe(g, d2, chains')
    ensures FileKeptOthers(g, d0, d2, chains, chains', e, lo)
  {
    OthersFromEntry(g, d1, d2, chains', e, lo);
    OthersTrans(g, d0, d1, d2, chains, chains', chains', e.id, e.dir);
    DirTrans(g, d0, d1, d2, chains[e.dir], e.slot, e.offset, lo);
  }

  /** The clusters up to that of byte `newSize - 1` hold `newSize` bytes. */
  lemma ClustersHold(g: Geometry, newSize: int)
    requires ClusterBytes(g) > 0 && newSize > 0
    ensures newSize <= (BytesToClusters(g, newSize - 1) + 1) * ClusterBytes(g)
  {
    var b := ClusterBytes(g);
    hide ClusterBytes;
    DivMod(newSize - 1, b);
    MulNext((newSize - 1) / b, b);
  }

  lemma KeptClusters(g: Geometry, d: Disk, chains: Chains, f: int, newSize: int, size: int)
    requires VolumeSafe(g, d, chains) && 0 < newSize < size <= Capacity(g, ChainOf(chains, f)) && ClusterBytes(g) > 0
    ensures f in chains && g.totalClusters <= EOC
    ensures |chains[f]| > 0 && chains[f][0] in ClustersOf(ChainOf(chains, f)) && Closed(Copy(g, d, 0), ClustersOf(ChainOf(chains, f)))
    ensures var n := BytesToClusters(g, newSize - 1) + 1;
      && 0 < n <= |chains[f]| && newSize <= n * ClusterBytes(g)
      && 2 <= chains[f][0] < g.totalClusters && WalkTo(Copy(g, d, 0), chains[f][0], n - 1) == chains[f][n - 1]
  {
    ChainFacts(g, d, chains, f);
    WithinCapacity(g, ChainOf(chains, f), newSize - 1);
    TableLimit(g, d, chains);
    ClustersHold(g, newSize);
    var fat := Copy(g, d, 0);
    assert |fat| == g.totalClusters;
    assert f in chains;
    hide Copy, DiskOk, VolumeSafe, BytesToClusters, ClusterBytes, ClustersOk, Distinct;
    WalkToChain(fat, chains[f], BytesToClusters(g, newSize - 1));
    ChainClosed(fat, chains[f]);
  }

  /** The chain of `f` was cut to the clusters that `size` bytes take. */
  ghost predicate Shortened(g: Geometry, chains: Chains, chains': Chains, f: int, size: int)
  {
    && ClusterBytes(g) > 0 && f in chains && 0 <= BytesToClusters(g, size - 1) < |chains[f]|
    && chains' == chains[f := chains[f][..BytesToClusters(g, size - 1) + 1]]
  }

  /** That keeps the least number of clusters that holds the size. */
  lemma ShortenedIsLeast(g: Geometry, chains: Chains, chains': Chains, f: int, size: int)
    requires Shortened(g, chains, chains', f, size) && size > 0
    ensures f in chains' && (|chains'[f]| - 1) * ClusterBytes(g) < size <= |chains'[f]| * ClusterBytes(g)
  {
    var b, n := ClusterBytes(g), BytesToClusters(g, size - 1);
    assert |chains'[f]| == n + 1;
    DivMod(size - 1, b);
    MulNext(n, b);
  }

  /** The first `size` bytes of the file are as before. */
  ghost predicate StartKept(g: Geometry, d: Disk, d': Disk, chains: Chains, chains': Chains, f: int, size: int)
  {
    && GeometryOk(g) && DiskOk(g, d) && DiskOk(g, d')
    && ClustersOk(g, ChainOf(chains, f)) && ClustersOk(g, ChainOf(chains', f))
    && 0 <= size <= Capacity(g, ChainOf(chains, f)) && size <= Capacity(g, ChainOf(chains', f))
    && Content(g, d', ChainOf(chains', f))[..size] == Content(g, d, ChainOf(chains, f))[..size]
  }

  /** How many clusters `truncate` keeps. */
  function ClustersKept(g: Geometry, newSize: int): int
    requires ClusterBytes(g) > 0
  {
    if newSize <= 0 then 0 else BytesToClusters(g, newSize - 1) + 1
  }

  /** Whatever becomes of the clusters of a file, the others are as before; and when its entry does not lead to
      them, it is safe too. */
  lemma ChainDropped(g: Geometry, d: Disk, d': Disk, chains: Chains, e: Dirent)
    requires VolumeSafe(g, d, chains) && EntrySafe(g, d, chains, e)
    requires DiskOk(g, d') && SameData(g, d, d')
    requires forall c :: 0 <= c < g.totalClusters && c !in ChainOf(chains, e.id) ==> Copy(g, d', 0)[c] == Copy(g, d, 0)[c]
    ensures FileKeptOthers(g, d, d', chains, chains - {e.id}, e, FIELDS)
    ensures FirstOnDisk(g, d, chains, e) == 0 ==> EntrySafe(g, d', chains - {e.id}, e)
  {
    hide Copy, DiskOk;
    var chains' := chains - {e.id};
    forall h | h in chains'
      ensures IsChain(Copy(g, d', 0), chains'[h])
    {
      assert IsChain(Copy(g, d, 0), chains[h]);
      assert e.id in chains ==> Apart(chains[h], chains[e.id]);
      ChainFrame(Copy(g, d, 0), Copy(g, d', 0), chains[h]);
    }
    forall h, k | h in chains' && k in chains' && h != k
      ensures Apart(chains'[h], chains'[k])
    {
      assert Apart(chains[h], chains[k]);
    }
    EntryUnderTables(g, d, d', chains, chains', e);
    TablesKeptOthers(g, d, d', chains, chains', e, FIELDS);
  }

  /** Freeing the clusters of a file stopped half way. */
  lemma Unreached(g: Geometry, d: Disk, d': Disk, chains: Chains, e: Dirent) returns (chains': Chains)
    requires VolumeSafe(g, d, chains) && EntrySafe(g, d, chains, e) && DiskOk(g, d') && SameData(g, d, d')
    requires FreedWithin(Copy(g, d, 0), Copy(g, d', 0), ClustersOf(ChainOf(chains, e.id)))
    ensures FileKeptOthers(g, d, d', chains, chains', e, FIELDS)
    ensures FirstOnDisk(g, d, chains, e) == 0 ==> EntrySafe(g, d', chains', e)
  {
    chains' := chains - {e.id};
    ChainDropped(g, d, d', chains, e);
  }

  /** End-marking the last cluster kept failed. */
  lemma CutTorn(g: Geometry, d0: Disk, d1: Disk, d2: Disk, chains: Chains, e: Dirent, n: int) returns (chains': Chains)
    requires VolumeSafe(g, d0, chains) && EntrySafe(g, d0, chains, e) && e.id in chains && 0 < n <= |chains[e.id]|
    requires DiskOk(g, d1) && SameData(g, d0, d1) && Freed(Copy(g, d0, 0), Copy(g, d1, 0), chains[e.id][n..])
    requires 0 <= chains[e.id][n - 1] < g.totalClusters && Torn(g, d1, d2, chains[e.id][n - 1], EOC)
    ensures FileKeptOthers(g, d0, d2, chains, chains', e, FIELDS)
    ensures n == |chains[e.id]| || FirstOnDisk(g, d0, chains, e) == 0 ==> EntrySafe(g, d2, chains', e)
  {
    hide Copy, DiskOk;
    var cs := chains[e.id];
    SameDataTrans(g, d0, d1, d2);
    chains' := chains;
    if n == |cs| {
      assert Copy(g, d1, 0) == Copy(g, d0, 0);
      if Copy(g, d2, 0) != Copy(g, d1, 0) {
        ChainCut(g, d0, d1, d2, chains, e.id, n);
        assert cs[..n] == cs && chains[e.id := cs[..n]] == chains;
      }
      EntryUnderTables(g, d0, d2, chains, chains, e);
      TablesKeptOthers(g, d0, d2, chains, chains, e, FIELDS);
    } else {
      chains' := chains - {e.id};
      assert cs[n - 1] in cs;
      ChainDropped(g, d0, d2, chains, e);
    }
  }

  lemma FreedAmong(fat: seq<int>, fat': seq<int>, cs: seq<int>, n: int)
    requires 0 <= n <= |cs| && FreedWithin(fat, fat', ClustersOf(cs[n..]))
    ensures FreedWithin(fat, fat', ClustersOf(cs))
  {}

  lemma FreedNothing(fat: seq<int>, reach: set<int>)
    ensures FreedWithin(fat, fat, reach)
  {}

  /** A shortened chain is one on the device before the entry has the new size. */
  lemma ShortenedSafe(g: Geometry, d: Disk, d': Disk, chains: Chains, chains': Chains, e: Dirent, n: int)
    requires VolumeSafe(g, d, chains) && EntrySafe(g, d, chains, e) && VolumeSafe(g, d', chains') && SameData(g, d, d')
    requires e.id in chains && 0 < n <= |chains[e.id]| && chains' == chains[e.id := chains[e.id][..n]]
    ensures EntrySafe(g, d', chains', e)
  {
    EntryUnderTables(g, d, d', chains, chains', e);
  }

  /** When `truncate` is cut off after it freed the first cluster behind the new end, no chain starts at the
      file's first cluster any more, ... */
  lemma {:induction false} ShrinkTornChain(fat: seq<int>, cs: seq<int>, n: int, cs': seq<int>)
    requires IsChain(fat, cs) && 0 <= n < |cs| && |fat| <= EOC
    requires |cs'| > 0 && cs'[0] == cs[0]
    ensures 2 <= cs[n] < |fat| && !IsChain(fat[cs[n] := 0], cs')
    decreases n
  {
    var fat' := fat[cs[n] := 0];
    if n > 0 {
      ChainDistinct(fat, cs, 0, n);
      assert fat[cs[0]] == cs[1];
      assert |cs'| > 1 && IsChain(fat', cs') ==> fat'[cs'[0]] == cs'[1];
      if |cs'| > 1 && cs'[1] == cs[1] {
        ChainTail(fat, cs, 1);
        ShrinkTornChain(fat, cs[1..], n - 1, cs'[1..]);
        if IsChain(fat', cs') {
          ChainTail(fat', cs', 1);
        }
      }
    }
  }

  /** When the table has a free cluster on the chain that an entry leads to, no chain starts where it points. */
  lemma TornForAll(g: Geometry, d: Disk, d': Disk, chains: Chains, e: Dirent, n: int)
    requires VolumeSafe(g, d, chains) && EntrySafe(g, d, chains, e) && FirstOnDisk(g, d, chains, e) != 0
    requires 0 <= n < |ChainOf(chains, e.id)| && DiskOk(g, d') && SameData(g, d, d')
    requires 0 <= ChainOf(chains, e.id)[n] < g.totalClusters && Copy(g, d', 0) == Copy(g, d, 0)[ChainOf(chains, e.id)[n] := 0]
    ensures forall chains': Chains :: !(VolumeSafe(g, d', chains') && EntrySafe(g, d', chains', e))
  {
    hide Copy, DiskOk;
    var cs := chains[e.id];
    ChainFacts(g, d, chains, e.dir);
    SectorInside(g, chains[e.dir], e.slot);
    forall chains': Chains | VolumeSafe(g, d', chains') && EntrySafe(g, d', chains', e)
      ensures false
    {
      assert IsChain(Copy(g, d, 0), cs) && IsChain(Copy(g, d', 0), chains'[e.id]);
      ShrinkTornChain(Copy(g, d, 0), cs, n, chains'[e.id]);
    }
  }

  lemma FreedNone(fat: seq<int>)
    ensures Freed(fat, fat, [])
  {}

  /** The last cluster kept is not among those freed. */
  lemma LastKept(fat: seq<int>, fat': seq<int>, cs: seq<int>, n: int)
    requires IsChain(fat, cs) && 0 < n <= |cs| && |fat| <= EOC && Freed(fat, fat', cs[n..])
    ensures 2 <= cs[n - 1] < |fat'| && fat'[cs[n - 1]] != 0
  {
    forall j | n <= j < |cs|
      ensures cs[j] != cs[n - 1]
    {
      ChainDistinct(fat, cs, n - 1, j);
    }
    assert n < |cs| ==> fat[cs[n - 1]] == cs[n];
  }

  lemma ChainCut(g: Geometry, d0: Disk, d1: Disk, d2: Disk, chains: Chains, f: int, n: int)
    requires VolumeSafe(g, d0, chains) && f in chains && 0 < n <= |chains[f]| && DiskOk(g, d1) && DiskOk(g, d2)
    requires SameData(g, d0, d1) && SameData(g, d1, d2) && Freed(Copy(g, d0, 0), Copy(g, d1, 0), chains[f][n..])
    requires 0 <= chains[f][n - 1] < g.totalClusters && Copy(g, d2, 0) == Copy(g, d1, 0)[chains[f][n - 1] := EOC]
    ensures VolumeSafe(g, d2, chains[f := chains[f][..n]]) && SameData(g, d0, d2)
  {
    hide Copy, DiskOk;
    ShortenedChain(Copy(g, d0, 0), Copy(g, d1, 0), chains, f, n, EOC);
    SameDataTrans(g, d0, d1, d2);
  }

  lemma ChainShortened(g: Geometry, d: Disk, d': Disk, chains: Chains, chains': Chains, e: Dirent, n: int, newSize: int, first: int)
    requires VolumeSafe(g, d, chains) && EntryPlaced(g, d, chains, e) && VolumeSafe(g, d', chains') && SameData(g, d, d')
    requires e.id in chains && 0 < n <= |chains[e.id]| && chains' == chains[e.id := chains[e.id][..n]]
    requires ClusterBytes(g) > 0 && n == BytesToClusters(g, newSize - 1) + 1 && 0 < newSize <= n * ClusterBytes(g)
    requires newSize < U32 && first == chains[e.id][0] && first != 0
    ensures FileKeptOthers(g, d, d', chains, chains', e, FIELDS) && Shortened(g, chains, chains', e.id, newSize)
    ensures HandleOk(g, chains', e.id, first, newSize) && EntryPlaced(g, d', chains', e)
    ensures StartKept(g, d, d', chains, chains', e.id, newSize)
  {
    TablesKeptOthers(g, d, d', chains, chains', e, FIELDS);
    ChainFacts(g, d, chains, e.id);
    ChainFacts(g, d', chains', e.id);
    var cs, cs' := chains[e.id], chains'[e.id];
    CapacityOrder(g, cs', cs);
    BlocksFrame(g, d, d', cs);
    BlocksPrefix(g, d', cs', cs);
    hide Blocks;
    forall i | 0 <= i < newSize
      ensures Content(g, d', cs')[i] == Content(g, d, cs)[i]
    {
      ContentAt(g, d', cs', i);
      ContentAt(g, d, cs, i);
    }
  }

  lemma StartStillKept(g: Geometry, d0: Disk, d1: Disk, d2: Disk, chains: Chains, chains': Chains, e: Dirent, size: int)
    requires StartKept(g, d0, d1, chains, chains', e.id, size) && DirentUpdated(g, d1, d2, chains', e, FIELDS)
    requires EntryPlaced(g, d1, chains', e)
    ensures StartKept(g, d0, d2, chains, chains', e.id, size)
  {
    assert Blocks(g, d2, ChainOf(chains', e.id)) == Blocks(g, d1, ChainOf(chains', e.id)) by {
      if e.id in chains' {
        assert Blocks(g, d2, chains'[e.id]) == Blocks(g, d1, chains'[e.id]);
      }
    }
    assert Content(g, d2, ChainOf(chains', e.id)) == Content(g, d1, ChainOf(chains', e.id));
  }

  /** The last cluster of a chain, as a walk finds it. */
  lemma EndOfChain(g: Geometry, d: Disk, chains: Chains, f: int)
    requires VolumeSafe(g, d, chains) && f in chains
    ensures g.totalClusters <= EOC
    ensures |chains[f]| > 0 && chains[f][0] in ClustersOf(ChainOf(chains, f)) && Closed(Copy(g, d, 0), ClustersOf(ChainOf(chains, f)))
    ensures var cs := ChainOf(chains, f); var fat := Copy(g, d, 0);
      && |cs| > 0 && 2 <= cs[0] < g.totalClusters && WalkTo(fat, cs[0], |cs| - 1) == cs[|cs| - 1]
      && 2 <= cs[|cs| - 1] < g.totalClusters && fat[cs[|cs| - 1]] >= EOC
  {
    hide Copy, DiskOk;
    assert IsChain(Copy(g, d, 0), chains[f]);
    WalkToChain(Copy(g, d, 0), chains[f], |chains[f]| - 1);
    ChainClosed(Copy(g, d, 0), chains[f]);
  }

  lemma LastOther(cs: seq<int>, last: int, added: int)
    requires added !in cs && cs != [] && last == cs[|cs| - 1]
    ensures last != added
  {}

  /** End-marking it once more changes nothing. */
  lemma EndMarkedTwice(g: Geometry, d0: Disk, d2: Disk, d3: Disk, chains: Chains, chains': Chains, e: Dirent, c: int)
    requires FileGrew(g, d0, d2, chains, chains', e) && EntrySafe(g, d2, chains', e) && 0 <= c < g.totalClusters
    requires Copy(g, d2, 0)[c] == EOC
    requires Torn(g, d2, d3, c, EOC) || (DiskOk(g, d3) && SameData(g, d2, d3) && Copy(g, d3, 0) == Copy(g, d2, 0)[c := EOC])
    ensures FileGrew(g, d0, d3, chains, chains', e) && EntrySafe(g, d3, chains', e) && VolumeSafe(g, d3, chains')
  {
    assert Copy(g, d3, 0) == Copy(g, d2, 0);
    EntryUnderTables(g, d2, d3, chains', chains', e);
    GrownSame(chains', e.id);
    TablesGrew(g, d2, d3, chains', chains', e);
    GrewTrans(g, d0, d2, d3, chains, chains', chains', e);
  }

  function Most(x: int, y: int): int { if x < y then y else x }

  /** How many clusters `truncate` wants for a larger size: the 32-bit sum wraps around. */
  function ClustersWanted(g: Geometry, newSize: int): int
    requires ClusterBytes(g) > 0
  {
    BytesToClusters(g, (newSize + ClusterBytes(g) - 1) % U32)
  }

  lemma EnoughClusters(g: Geometry, size: int, cs: seq<int>)
    requires ClusterBytes(g) > 0 && 0 <= size && size + ClusterBytes(g) - 1 < U32
    requires |cs| >= ClustersWanted(g, size)
    ensures size <= Capacity(g, cs)
  {
    var b := ClusterBytes(g);
    hide ClusterBytes;
    assert (size + b - 1) % U32 == size + b - 1;
    DivMod(size + b - 1, b);
    MulOrder((size + b - 1) / b, |cs|, b);
  }

  /** Without wrapping around, no cluster more than needed is asked for; with it, none at all. */
  lemma WantedIsLeast(g: Geometry, newSize: int)
    requires 0 < ClusterBytes(g) <= U32 && 0 < newSize < U32
    ensures newSize + ClusterBytes(g) - 1 < U32 ==>
      (ClustersWanted(g, newSize) - 1) * ClusterBytes(g) < newSize <= ClustersWanted(g, newSize) * ClusterBytes(g)
    ensures newSize + ClusterBytes(g) - 1 >= U32 ==> ClustersWanted(g, newSize) == 0
  {
    var b := ClusterBytes(g);
    hide ClusterBytes;
    if newSize + b - 1 < U32 {
      assert (newSize + b - 1) % U32 == newSize + b - 1;
      DivMod(newSize + b - 1, b);
      MulNext((newSize + b - 1) / b - 1, b);
    } else {
      assert (newSize + b - 1) % U32 == newSize + b - 1 - U32;
      DivUnique(newSize + b - 1 - U32, b, 0, newSize + b - 1 - U32);
    }
  }

  lemma FitsWithoutSize(g: Geometry, chains: Chains, f: int, first: int, size: int)
    requires GeometryOk(g) && (exists n :: HandleOk(g, chains, f, first, n)) && size == 0
    ensures HandleOk(g, chains, f, first, size)
  {
    CapacityOrder(g, [], ChainOf(chains, f));
  }

  lemma SomeCluster(g: Geometry, chains: Chains, f: int, first: int, size: int)
    requires HandleOk(g, chains, f, first, size) && size > 0
    ensures |ChainOf(chains, f)| > 0
  {}

  lemma HasCluster(g: Geometry, chains: Chains, f: int, first: int, size: int)
    requires HandleOk(g, chains, f, first, size) && first != 0
    ensures f in chains && |chains[f]| > 0 && chains[f][0] == first
  {}

  lemma FirstFits(g: Geometry, d: Disk, chains: Chains, f: int)
    requires VolumeSafe(g, d, chains)
    ensures f in chains ==> |chains[f]| > 0 && 0 <= chains[f][0] < U32
  {
    if f in chains {
      ChainStarts(g, d, chains, f);
    }
  }

  lemma GrewKept(g: Geometry, d: Disk, d': Disk, chains: Chains, chains': Chains, e: Dirent, size: int)
    requires FileGrew(g, d, d', chains, chains', e) && 0 <= size <= Capacity(g, ChainOf(chains, e.id))
    ensures FileKeptOthers(g, d, d', chains, chains', e, FIELDS) && StartKept(g, d, d', chains, chains', e.id, size)
  {
    CapacityOrder(g, ChainOf(chains, e.id), ChainOf(chains', e.id));
    hide Content;
    var cs, cs' := ChainOf(chains, e.id), ChainOf(chains', e.id);
    forall i | 0 <= i < size
      ensures Content(g, d', cs')[i] == Content(g, d, cs)[i]
    {}
  }

  lemma KeptSame(g: Geometry, d: Disk, chains: Chains, e: Dirent, lo: int)
    requires VolumeSafe(g, d, chains) && EntryPlaced(g, d, chains, e)
    ensures FileKeptOthers(g, d, d, chains, chains, e, lo)
  {
    NothingGrew(g, d, chains, e);
  }

  lemma NothingKept(g: Geometry, d: Disk, d': Disk, chains: Chains, chains': Chains, f: int)
    requires VolumeSafe(g, d, chains) && VolumeSafe(g, d', chains') && f !in chains'
    ensures StartKept(g, d, d', chains, chains', f, 0)
  {
    ChainFacts(g, d, chains, f);
    ChainFacts(g, d', chains', f);
    CapacityOrder(g, [], ChainOf(chains, f));
  }

  lemma KeptTrans(g: Geometry, d0: Disk, d1: Disk, d2: Disk, c0: Chains, c1: Chains, c2: Chains, e: Dirent, lo: int)
    requires FileKeptOthers(g, d0, d1, c0, c1, e, lo) && FileKeptOthers(g, d1, d2, c1, c2, e, lo)
    ensures FileKeptOthers(g, d0, d2, c0, c2, e, lo)
  {
    OthersTrans(g, d0, d1, d2, c0, c1, c2, e.id, e.dir);
    DirTrans(g, d0, d1, d2, c0[e.dir], e.slot, e.offset, lo);
  }

  /** The first byte of the entry is overwritten. */
  lemma EntryMarked(g: Geometry, d: Disk, chains: Chains, e: Dirent, mark: int)
    requires VolumeSafe(g, d, chains) && EntryPlaced(g, d, chains, e) && 0 <= mark < 256
    ensures 0 <= e.lba < |d| && |d[e.lba]| == g.bytesPerSector && 0 <= e.offset < g.bytesPerSector
    ensures var s' := d[e.lba][e.offset := mark];
      var d' := d[e.lba := s'];
      && SectorOk(g, s') && EntryPlaced(g, d', chains, e) && VolumeSafe(g, d', chains)
      && DirentUpdated(g, d, d', chains, e, WHOLE) && Copy(g, d', 0) == Copy(g, d, 0) && (Mirrored(g, d) ==> Mirrored(g, d'))
      && DiskOk(g, d') && SectorOk(g, d'[e.lba]) && d'[e.lba][e.offset] == mark
  {
    PlacedInside(g, d, chains, e);
    ChainFacts(g, d, chains, e.dir);
    var s' := d[e.lba][e.offset := mark];
    OthersUnderBlock(g, Copy(g, d, 0), d, chains, e.dir, e.slot, s');
    DirEntryStored(g, d, chains[e.dir], e.slot, e.offset, s', WHOLE);
  }

  /** Changes of the tables keep the mark. */
  lemma MarkKept(g: Geometry, d: Disk, d': Disk, chains: Chains, chains': Chains, e: Dirent, mark: int)
    requires EntryPlaced(g, d, chains, e) && EntryPlaced(g, d', chains', e) && SameData(g, d, d')
    requires VolumeSafe(g, d, chains) && SectorOk(g, d[e.lba]) && d[e.lba][e.offset] == mark
    ensures SectorOk(g, d'[e.lba]) && d'[e.lba][e.offset] == mark
  {
    ChainFacts(g, d, chains, e.dir);
    SectorInside(g, chains[e.dir], e.slot);
  }

  /** Freeing a deleted file's chain stopped half way: all other chains are whole. */
  lemma PartlyCleared(g: Geometry, d: Disk, d': Disk, chains: Chains, e: Dirent, mark: int)
    requires VolumeSafe(g, d, chains) && EntryPlaced(g, d, chains, e) && e.id in chains && DiskOk(g, d') && SameData(g, d, d')
    requires FreedWithin(Copy(g, d, 0), Copy(g, d', 0), ClustersOf(chains[e.id]))
    requires SectorOk(g, d[e.lba]) && d[e.lba][e.offset] == mark
    ensures var chains' := chains - {e.id};
      && VolumeSafe(g, d', chains') && EntryPlaced(g, d', chains', e) && FileKeptOthers(g, d, d', chains, chains', e, WHOLE)
      && SectorOk(g, d'[e.lba]) && d'[e.lba][e.offset] == mark
  {
    hide Copy, DiskOk;
    var chains' := chains - {e.id};
    forall h | h in chains'
      ensures IsChain(Copy(g, d', 0), chains'[h])
    {
      assert IsChain(Copy(g, d, 0), chains[h]) && Apart(chains[h], chains[e.id]);
      ChainFrame(Copy(g, d, 0), Copy(g, d', 0), chains[h]);
    }
    forall h, k | h in chains' && k in chains' && h != k
      ensures Apart(chains'[h], chains'[k])
    {
      assert Apart(chains[h], chains[k]);
    }
    EntryUnderTables(g, d, d', chains, chains', e);
    TablesKeptOthers(g, d, d', chains, chains', e, WHOLE);
    MarkKept(g, d, d', chains, chains', e, mark);
  }

  lemma SliceOfPrefix(s: seq<int>, n: int, lo: int, hi: int)
    requires 0 <= lo <= hi <= n <= |s|
    ensures s[..n][lo..hi] == s[lo..hi]
  {}
}
