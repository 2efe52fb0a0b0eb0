/** Many files on one volume: what calls on one of them do to its bytes, that all others keep theirs, and
    that this holds over every run of calls. */
module FatRuns {
  import opened FatDisk
  import opened FatChains
  import opened FatData
  import opened FatSystem
  import opened FatFiles
  import opened FatDirs

  /** `data` is in place from `p` on; the string gets longer if need be.  What is between its old end and `p`, if
      that is behind it, may be anything. */
  predicate Overwritten(s: seq<int>, p: int, data: seq<int>, s': seq<int>) {
    && |s'| == (if data != [] && p + |data| > |s| then p + |data| else |s|)
    && forall i {:trigger s'[i]} :: 0 <= i < |s'| ==>
         if p <= i < p + |data| then s'[i] == data[i - p] else i < |s| ==> s'[i] == s[i]
  }

  /** At or before the end nothing is left open. */
  lemma OverwrittenIs(s: seq<int>, p: int, data: seq<int>, s': seq<int>)
    requires 0 <= p <= |s|
    ensures Overwritten(s, p, data, s') <==> s' == s[..p] + data + if p + |data| < |s| then s[p + |data|..] else []
  {
    var r := s[..p] + data + if p + |data| < |s| then s[p + |data|..] else [];
    if Overwritten(s, p, data, s') {
      assert forall i :: 0 <= i < |r| ==> r[i] == s'[i];
    }
  }

  /** `write` is overwriting the file's byte string. */
  lemma WriteIsOverwrite(g: Geometry, d: Disk, d': Disk, chains: Chains, chains': Chains, e: Dirent,
                         p: int, data: seq<int>, size: int)
    requires FileWrote(g, d, d', chains, chains', e, p, data)
    requires 0 <= p && 0 <= size <= Capacity(g, ChainOf(chains, e.id))
    ensures var size' := if data != [] && p + |data| > size then p + |data| else size;
      && size' <= Capacity(g, ChainOf(chains', e.id))
      && Overwritten(Content(g, d, ChainOf(chains, e.id))[..size], p, data, Content(g, d', ChainOf(chains', e.id))[..size'])
  {
    var cs, cs' := ChainOf(chains, e.id), ChainOf(chains', e.id);
    CapacityOrder(g, cs, cs');
    var size' := if data != [] && p + |data| > size then p + |data| else size;
    hide Content;
    forall i | 0 <= i < size'
      ensures p <= i < p + |data| ==> Content(g, d', cs')[i] == data[i - p]
      ensures !(p <= i < p + |data|) && i < size ==> Content(g, d', cs')[i] == Content(g, d, cs)[i]
    {}
  }

  /** The bytes of a file that is not `e`'s, nor its directory, are untouched. */
  lemma OtherBytesKept(g: Geometry, d: Disk, d': Disk, chains: Chains, chains': Chains, e: Dirent, h: int)
    requires FileKeptOthers(g, d, d', chains, chains', e, WHOLE) && h != e.id && h != e.dir
    ensures h in chains <==> h in chains'
    ensures ChainOf(chains', h) == ChainOf(chains, h) && ClustersOk(g, ChainOf(chains, h))
    ensures Content(g, d', ChainOf(chains', h)) == Content(g, d, ChainOf(chains, h))
  {
    ChainFacts(g, d, chains, h);
    assert Blocks(g, d', ChainOf(chains, h)) == Blocks(g, d, ChainOf(chains, h)) by {
      if h in chains {
        assert Blocks(g, d', chains[h]) == Blocks(g, d, chains[h]);
      }
    }
  }

  /** Two entries are different places of the volume. */
  predicate EntriesDiffer(e: Dirent, h: Dirent) {
    e.dir != h.dir || e.slot != h.slot || e.offset != h.offset
  }

  lemma DirentSame(s: Sector, s': Sector, off: int)
    requires 0 <= off && off + 32 <= |s| == |s'| && forall i :: off <= i < off + 32 ==> s'[i] == s[i]
    ensures DirentFirst(s', off) == DirentFirst(s, off) && DirentSize(s', off) == DirentSize(s, off)
  {}

  /** The bytes of an entry other than `e` are untouched. */
  lemma OtherEntryBytes(g: Geometry, d: Disk, d': Disk, chains: Chains, chains': Chains, e: Dirent, h: Dirent)
    requires FileKeptOthers(g, d, d', chains, chains', e, WHOLE) && EntryPlaced(g, d, chains, h) && EntriesDiffer(e, h)
    requires h.dir != e.id && e.offset % 32 == 0
    ensures 0 <= h.lba < |d'| == |d| && SectorOk(g, d[h.lba]) && SectorOk(g, d'[h.lba])
    ensures h.dir in chains' && chains'[h.dir] == chains[h.dir]
    ensures forall i :: h.offset <= i < h.offset + 32 ==> d'[h.lba][i] == d[h.lba][i]
  {
    ChainFacts(g, d, chains, h.dir);
    var cs := chains[h.dir];
    BlockAtLba(g, d, cs, h.slot);
    BlockAtLba(g, d', cs, h.slot);
    SectorAt(g, d, h.lba);
    SectorAt(g, d', h.lba);
    hide SectorLba, Sectors, ClustersOk, Copy, Distinct, Blocks, VolumeSafe, AllClustersOk, DiskOk, SectorOk;
    if h.dir != e.dir {
      assert Blocks(g, d', chains[h.dir]) == Blocks(g, d, chains[h.dir]);
    } else {
      DirEntryKept(g, d, d', cs, e.slot, e.offset, h.slot, h.offset);
    }
  }

  /** The name of a file stays under the calls on it, */
  lemma OwnNameKept(g: Geometry, d: Disk, d': Disk, chains: Chains, chains': Chains, e: Dirent)
    requires FileKeptOthers(g, d, d', chains, chains', e, FIELDS) && EntryPlaced(g, d, chains, e) && Live(g, d, e)
    ensures Live(g, d', e)
  {
    var cs := chains[e.dir];
    BlockAtLba(g, d, cs, e.slot);
    BlockAtLba(g, d', cs, e.slot);
    SectorAt(g, d, e.lba);
    SectorAt(g, d', e.lba);
    hide Blocks;
    assert Blocks(g, d', cs)[e.slot][e.offset] == Blocks(g, d, cs)[e.slot][e.offset];
  }

  lemma BlockAtLba(g: Geometry, d: Disk, cs: seq<int>, j: int)
    requires GeometryOk(g) && DiskOk(g, d) && ClustersOk(g, cs) && 0 <= j < Sectors(g, cs)
    ensures 0 <= j / g.sectorsPerCluster < |cs| && 0 <= SectorLba(g, cs, j) < |d|
    ensures Blocks(g, d, cs)[j] == d[SectorLba(g, cs, j)]
  {
    SectorInside(g, cs, j);
    EntryOnDisk(g);
  }

  lemma DirEntryKept(g: Geometry, d: Disk, d': Disk, cs: seq<int>, slot: int, off: int, j: int, o: int)
    requires GeometryOk(g) && DiskOk(g, d) && DiskOk(g, d') && ClustersOk(g, cs) && 0 <= j < Sectors(g, cs)
    requires DirKept(g, d, d', cs, slot, off, WHOLE) && 0 <= o && o + 32 <= g.bytesPerSector
    requires off % 32 == 0 && o % 32 == 0 && (j != slot || o != off)
    ensures |Blocks(g, d, cs)[j]| == g.bytesPerSector == |Blocks(g, d', cs)[j]|
    ensures forall i :: o <= i < o + 32 ==> Blocks(g, d', cs)[j][i] == Blocks(g, d, cs)[j][i]
  {
    hide Blocks;
    SectorLength(g, Blocks(g, d, cs)[j]);
    SectorLength(g, Blocks(g, d', cs)[j]);
    assert o + 32 <= off || off + 32 <= o || j != slot;
  }

  /** The entries of other files are untouched. */
  lemma OtherEntryKept(g: Geometry, d: Disk, d': Disk, chains: Chains, chains': Chains, e: Dirent, h: Dirent)
    requires FileKeptOthers(g, d, d', chains, chains', e, WHOLE) && EntrySafe(g, d, chains, h) && EntriesDiffer(e, h)
    requires h.id != e.id && h.dir != e.id && e.offset % 32 == 0
    ensures Live(g, d, h) ==> Live(g, d', h)
    ensures EntrySafe(g, d', chains', h) && SizeOnDisk(g, d', chains', h) == SizeOnDisk(g, d, chains, h)
    ensures FirstOnDisk(g, d', chains', h) == FirstOnDisk(g, d, chains, h)
  {
    OtherEntryBytes(g, d, d', chains, chains', e, h);
    DirentSame(d[h.lba], d'[h.lba], h.offset);
    hide DirentFirst, DirentSize, DirKept, Blocks, Copy, SectorLba, ClustersOk, AllClustersOk;
  }

  // ---------------------------------------------------------------- what a crash in `truncate` leaves

  /** `truncate` and `close`, cut off after they freed a cluster behind the `n` that they keep, leave an entry that
      leads to it; and as soon as another file is given that cluster, the two share it. */
  lemma ShrinkTornCrossLinks(fat: seq<int>, cs: seq<int>, n: int)
    requires IsChain(fat, cs) && 0 <= n < |cs| && |fat| <= EOC
    ensures 2 <= cs[n] < |fat|
    ensures var fat' := fat[cs[n] := 0][cs[n] := EOC];
      IsChain(fat', cs[..n + 1]) && cs[..n + 1][0] == cs[0] && IsChain(fat', [cs[n]]) && cs[n] in cs[..n + 1]
  {
    CutChain(fat, cs, n + 1, EOC);
    assert fat[cs[n] := 0][cs[n] := EOC] == fat[cs[n] := EOC];
  }

  // ---------------------------------------------------------------- new files

  /** A name that `create` writes, which does not look like that of a free slot. */
  predicate NameOk(name: seq<int>) {
    |name| == 11 && AllBytesOk(name) && name[0] != 0x00 && name[0] != 0xe5
  }

  /** The entry of a new file: its name and zeros. */
  function NewEntry(s: Sector, off: int, name: seq<int>): Sector
    requires |name| == 11 && 0 <= off && off + 32 <= |s|
  {
    s[..off] + name + seq(21, _ => 0) + s[off + 32..]
  }

  lemma NewEntryBytes(g: Geometry, s: Sector, off: int, name: seq<int>)
    requires SectorOk(g, s) && NameOk(name) && 0 <= off && off + 32 <= |s|
    ensures var s' := NewEntry(s, off, name);
      && SectorOk(g, s') && DirentFirst(s', off) == 0 && DirentSize(s', off) == 0 && !SlotFree(s', off)
      && forall i :: 0 <= i < |s| && !(off <= i < off + 32) ==> s'[i] == s[i]
  {}

  /** The entry is that of a new file: its name and zeros. */
  ghost predicate NewOnDisk(d: Disk, e: Dirent, name: seq<int>) {
    && 0 <= e.lba < |d| && 0 <= e.offset && e.offset + 32 <= |d[e.lba]| && |name| == 11
    && d[e.lba][e.offset..e.offset + 32] == name + seq(21, _ => 0)
  }

  /** The entry is marked deleted. */
  ghost predicate DeletedOnDisk(d: Disk, e: Dirent) {
    0 <= e.lba < |d| && 0 <= e.offset < |d[e.lba]| && d[e.lba][e.offset] == 0xe5
  }

  /** The slot of the entry holds a name. */
  ghost predicate Live(g: Geometry, d: Disk, e: Dirent) {
    0 <= e.lba < |d| && 0 <= e.offset < |d[e.lba]| && !SlotFree(d[e.lba], e.offset)
  }

  /** The directory `dir` may have grown; of its old bytes only those of one slot changed, and other files and
      directories are untouched. */
  ghost predicate EntryAdded(g: Geometry, d: Disk, d': Disk, chains: Chains, chains': Chains, dir: int, slot: int, off: int) {
    && VolumeSafe(g, d, chains) && VolumeSafe(g, d', chains') && AllClustersOk(g, chains)
    && dir in chains && dir in chains' && chains[dir] <= chains'[dir]
    && ClustersOk(g, chains[dir]) && ClustersOk(g, chains'[dir]) && Sectors(g, chains[dir]) <= Sectors(g, chains'[dir])
    && OthersKept(g, d, d', chains, chains', dir, dir)
    && forall j {:trigger Blocks(g, d', chains'[dir])[j]} :: 0 <= j < Sectors(g, chains[dir]) ==>
         forall i :: 0 <= i < g.bytesPerSector && !(j == slot && off <= i < off + 32) ==>
           Blocks(g, d', chains'[dir])[j][i] == Blocks(g, d, chains[dir])[j][i]
  }

  lemma GrowthAdds(g: Geometry, d: Disk, d': Disk, chains: Chains, chains': Chains, dir: int)
    requires DirExtended(g, d, d', chains, chains', dir)
    ensures forall slot, off :: EntryAdded(g, d, d', chains, chains', dir, slot, off)
  {
    hide Blocks;
    var b, b' := Blocks(g, d, chains[dir]), Blocks(g, d', chains'[dir]);
    forall j | 0 <= j < Sectors(g, chains[dir])
      ensures b'[j] == b[j]
    {}
  }

  /** The entry is written into its sector. */
  lemma EntryPut(g: Geometry, d0: Disk, d: Disk, chains: Chains, chains': Chains, e: Dirent, name: seq<int>)
    requires EntryAdded(g, d0, d, chains, chains', e.dir, e.slot, e.offset) && NameOk(name)
    requires FirstFree(g, d, chains'[e.dir], e.lba, e.offset, e.slot) && e.id !in chains'
    ensures 0 <= e.lba < |d| && SectorOk(g, d[e.lba]) && e.offset + 32 <= |d[e.lba]| && 0 <= e.offset
    ensures var s' := NewEntry(d[e.lba], e.offset, name);
      var d' := d[e.lba := s'];
      && SectorOk(g, s') && VolumeSafe(g, d', chains') && Copy(g, d', 0) == Copy(g, d, 0)
      && (Mirrored(g, d) ==> Mirrored(g, d'))
      && EntryAdded(g, d0, d', chains, chains', e.dir, e.slot, e.offset)
      && EntrySafe(g, d', chains', e) && Live(g, d', e) && NewOnDisk(d', e, name)
      && DirentFirst(s', e.offset) == 0 && DirentSize(s', e.offset) == 0
  {
    var cs := chains'[e.dir];
    BlockAtLba(g, d, cs, e.slot);
    SectorAt(g, d, e.lba);
    ChainFacts(g, d, chains', e.dir);
    NewEntryBytes(g, d[e.lba], e.offset, name);
    var s' := NewEntry(d[e.lba], e.offset, name);
    OthersUnderBlock(g, Copy(g, d, 0), d, chains', e.dir, e.slot, s');
    BlockStored(g, d, cs, e.slot, s');
    var d' := d[e.lba := s'];
    assert NewOnDisk(d', e, name) by {
      assert s'[e.offset..e.offset + 32] == name + seq(21, _ => 0);
    }
    OthersTrans(g, d0, d, d', chains, chains', chains', e.dir, e.dir);
    hide Blocks, NewEntry, SlotFree, DirentFirst, DirentSize;
    forall j, i | 0 <= j < Sectors(g, chains[e.dir]) && 0 <= i < g.bytesPerSector && !(j == e.slot && e.offset <= i < e.offset + 32)
      ensures Blocks(g, d', cs)[j][i] == Blocks(g, d0, chains[e.dir])[j][i]
    {
      assert Blocks(g, d, cs)[j][i] == Blocks(g, d0, chains[e.dir])[j][i];
    }
  }

  /** Where the entry of another file lies, when an entry is added, */
  lemma OtherSlotUnderAdding(g: Geometry, d: Disk, d': Disk, chains: Chains, chains': Chains, e: Dirent, h: Dirent)
    requires EntryAdded(g, d, d', chains, chains', e.dir, e.slot, e.offset) && EntryPlaced(g, d, chains, h)
    ensures EntryPlaced(g, d', chains', h) && ClustersOk(g, chains[h.dir]) && ClustersOk(g, chains'[h.dir])
    ensures h.slot < Sectors(g, chains[h.dir]) == |Blocks(g, d, chains[h.dir])|
    ensures h.slot < Sectors(g, chains'[h.dir]) == |Blocks(g, d', chains'[h.dir])|
    ensures Blocks(g, d, chains[h.dir])[h.slot] == d[h.lba] && Blocks(g, d', chains'[h.dir])[h.slot] == d'[h.lba]
  {
    var cs, cs' := chains[h.dir], chains'[h.dir];
    ChainFacts(g, d, chains, h.dir);
    ChainFacts(g, d', chains', h.dir);
    BlockAtLba(g, d, cs, h.slot);
    hide Copy, Distinct, VolumeSafe, AllClustersOk, DiskOk;
    assert h.slot / g.sectorsPerCluster < |cs'| && cs'[h.slot / g.sectorsPerCluster] == cs[h.slot / g.sectorsPerCluster];
    BlockAtLba(g, d', cs', h.slot);
  }

  /** and what is in it. */
  lemma OtherEntryUnderAdding(g: Geometry, d: Disk, d': Disk, chains: Chains, chains': Chains, e: Dirent, h: Dirent)
    requires EntryAdded(g, d, d', chains, chains', e.dir, e.slot, e.offset) && EntriesDiffer(e, h) && e.offset % 32 == 0
    requires EntrySafe(g, d, chains, h) && h.id != e.dir && Live(g, d, h)
    ensures EntrySafe(g, d', chains', h) && Live(g, d', h)
    ensures FirstOnDisk(g, d', chains', h) == FirstOnDisk(g, d, chains, h)
    ensures SizeOnDisk(g, d', chains', h) == SizeOnDisk(g, d, chains, h)
  {
    hide DirentFirst, DirentSize, Copy, Distinct, VolumeSafe, AllClustersOk, Blocks, ClustersOk, Sectors, SectorLba;
    OtherSlotUnderAdding(g, d, d', chains, chains', e, h);
    OtherSlotBytes(g, d, d', chains, chains', e, h);
    hide EntryAdded;
    SectorAt(g, d, h.lba);
    SectorAt(g, d', h.lba);
    DirentSame(d[h.lba], d'[h.lba], h.offset);
  }

  lemma SlotsApart(o: int, p: int)
    requires o % 32 == 0 && p % 32 == 0
    ensures o == p || o + 32 <= p || p + 32 <= o
  {}

  lemma OtherSlotBytes(g: Geometry, d: Disk, d': Disk, chains: Chains, chains': Chains, e: Dirent, h: Dirent)
    requires EntryAdded(g, d, d', chains, chains', e.dir, e.slot, e.offset) && EntriesDiffer(e, h) && e.offset % 32 == 0
    requires EntryPlaced(g, d, chains, h) && h.id != e.dir && 0 <= h.lba < |d'|
    ensures |d[h.lba]| == |d'[h.lba]| == g.bytesPerSector
    ensures forall i :: h.offset <= i < h.offset + 32 ==> d'[h.lba][i] == d[h.lba][i]
  {
    hide Copy, Distinct, VolumeSafe, AllClustersOk, Blocks, ClustersOk, Sectors, SectorLba;
    OtherSlotUnderAdding(g, d, d', chains, chains', e, h);
    SectorAt(g, d, h.lba);
    SectorAt(g, d', h.lba);
    SlotsApart(h.offset, e.offset);
    hide DiskOk, SectorOk, EntryPlaced;
    forall i | h.offset <= i < h.offset + 32
      ensures d'[h.lba][i] == d[h.lba][i]
    {
      if h.dir != e.dir {
        assert Blocks(g, d', chains[h.dir]) == Blocks(g, d, chains[h.dir]);
      } else {
        assert Blocks(g, d', chains'[h.dir])[h.slot][i] == Blocks(g, d, chains[h.dir])[h.slot][i];
      }
    }
  }

  lemma OtherBytesUnderAdding(g: Geometry, d: Disk, d': Disk, chains: Chains, chains': Chains, e: Dirent, h: int)
    requires EntryAdded(g, d, d', chains, chains', e.dir, e.slot, e.offset) && h != e.dir
    ensures h in chains <==> h in chains'
    ensures ChainOf(chains', h) == ChainOf(chains, h) && ClustersOk(g, ChainOf(chains, h))
    ensures Content(g, d', ChainOf(chains', h)) == Content(g, d, ChainOf(chains, h))
  {
    ChainFacts(g, d, chains, h);
    assert Blocks(g, d', ChainOf(chains, h)) == Blocks(g, d, ChainOf(chains, h)) by {
      if h in chains {
        assert Blocks(g, d', chains[h]) == Blocks(g, d, chains[h]);
      }
    }
  }

  /** A slot that is free is not that of a live entry. */
  lemma FreeIsNotLive(g: Geometry, d0: Disk, d: Disk, chains: Chains, chains': Chains, e: Dirent, h: Dirent)
    requires EntryAdded(g, d0, d, chains, chains', e.dir, e.slot, e.offset) && EntryPlaced(g, d0, chains, h) && Live(g, d0, h)
    requires e.slot < Sectors(g, chains[e.dir]) ==> SlotWasFree(g, d0, chains[e.dir], e.slot, e.offset)
    ensures EntriesDiffer(e, h)
  {
    ChainFacts(g, d0, chains, h.dir);
    BlockAtLba(g, d0, chains[h.dir], h.slot);
  }

  ghost predicate SlotWasFree(g: Geometry, d: Disk, cs: seq<int>, slot: int, off: int) {
    && GeometryOk(g) && DiskOk(g, d) && ClustersOk(g, cs) && 0 <= slot < Sectors(g, cs)
    && 0 <= off < |Blocks(g, d, cs)[slot]| && SlotFree(Blocks(g, d, cs)[slot], off)
  }

  /** The part of `create` behind the look-up of the directory: a free slot is taken, or the directory grows,
      and the entry that was written is opened.  Wherever it stops, at most the bytes of that slot changed. */
  method CreateFile(fs: FileSys, dirCluster: int, name: seq<int>, ghost dir: int, ghost f: int)
    returns (st: Status, file: File?, ghost e: Dirent)
    requires fs.Linked() && dir in fs.chains && |fs.chains[dir]| > 0 && fs.chains[dir][0] == dirCluster
    requires EndsExactly(fs.Fat(), fs.chains[dir]) && NameOk(name) && f !in fs.chains
    modifies fs`disk, fs`sector, fs`secLba, fs`freeCount, fs`nextFree, fs`fsinfoDirty, fs`chains
    ensures !st.Failed? && fs.Safe() && (fs.reliable ==> !st.DeviceFailed?) && f !in fs.chains
    ensures e.id == f && e.dir == dir && e.offset % 32 == 0
    ensures EntryAdded(fs.g, old(fs.disk), fs.disk, old(fs.chains), fs.chains, dir, e.slot, e.offset)
    ensures e.slot < Sectors(fs.g, old(fs.chains[dir])) ==>
      SlotWasFree(fs.g, old(fs.disk), old(fs.chains[dir]), e.slot, e.offset)
    ensures st.Done? ==> file != null && fresh(file) && file.fs == fs && file.Valid() && file.fileSize == 0 && !file.isDirectory
    ensures st.Done? ==> file.entry == e && Live(fs.g, fs.disk, e) && NewOnDisk(fs.disk, e, name)
    ensures st.Full? ==> fs.Linked() && fs.disk == old(fs.disk) && fs.chains == old(fs.chains) && fs.Exhausted()
    ensures st.Full? ==> ClustersOk(fs.g, fs.chains[dir])
    ensures st.Full? ==> NoneFreeIn(Blocks(fs.g, fs.disk, fs.chains[dir]), Sectors(fs.g, fs.chains[dir]))
    ensures !st.DeviceFailed? && old(fs.HintOk()) ==> fs.HintOk()
    ensures !st.DeviceFailed? && old(fs.MarksExact()) ==> fs.MarksExact()
    ensures !st.DeviceFailed? ==> fs.GapKept(old(fs.freeCount), old(fs.Fat()), 0)
    ensures !st.DeviceFailed? ==> dir in fs.chains && TableStep(old(fs.Fat()), fs.Fat(), old(fs.chains[dir]), fs.chains[dir])
  {
    hide TableStep, NewOnDisk, DiskOk, SectorOk, Copy, Mirrored, VolumeSafe, GrewCleared, DirExtended, FirstFree,
         EntryAdded, EndsExactly, NoneFreeBelow, NoneFreeIn, Gap, NewEntry, EntrySafe, DirentFirst, DirentSize,
         SlotWasFree, AllBytesOk, Sectors;
    ghost var d0, chains0 := fs.disk, fs.chains;
    file := null;
    var lba, off;
    ghost var slot, grown;
    st, lba, off, slot, grown := DirFindFreeSlot(fs, dirCluster, dir);
    GrowthAdds(fs.g, d0, fs.disk, chains0, fs.chains, dir);
    OthersNumbers(fs.g, d0, fs.disk, chains0, fs.chains, dir, f);
    e := Dirent(f, dir, Sectors(fs.g, chains0[dir]), 0, 0);
    if !st.Done? {
      return;
    }
    e := Dirent(f, dir, slot, lba, off);
    SlotFound(fs.g, d0, fs.disk, chains0, fs.chains, e, grown);
    var ok, first, size := PutEntry(fs, lba, off, name, e, d0, chains0);
    st := if ok then Done else DeviceFailed;
    if ok {
      file := new File(fs, lba, off, false, first, size, e);
      NoClusters(fs.g, fs.chains, f);
    }
  }

  /** The entry is written, and read back. */
  method PutEntry(fs: FileSys, lba: int, off: int, name: seq<int>, ghost e: Dirent, ghost d0: Disk, ghost chains0: Chains)
    returns (ok: bool, first: int, size: int)
    requires fs.Linked() && EntryAdded(fs.g, d0, fs.disk, chains0, fs.chains, e.dir, e.slot, e.offset) && NameOk(name)
    requires e.dir in fs.chains && ClustersOk(fs.g, fs.chains[e.dir]) && e.id !in fs.chains && lba == e.lba && off == e.offset
    requires FirstFree(fs.g, fs.disk, fs.chains[e.dir], e.lba, e.offset, e.slot)
    modifies fs`disk, fs`sector, fs`secLba
    ensures fs.Safe() && EntryAdded(fs.g, d0, fs.disk, chains0, fs.chains, e.dir, e.slot, e.offset) && fs.Fat() == old(fs.Fat())
    ensures ok ==> fs.Linked() && EntrySafe(fs.g, fs.disk, fs.chains, e) && Live(fs.g, fs.disk, e) && first == 0 && size == 0
    ensures ok ==> NewOnDisk(fs.disk, e, name)
    ensures fs.reliable ==> ok
  {
    hide DiskOk, SectorOk, Copy, Mirrored, VolumeSafe, FirstFree, EntryAdded, NewEntry, EntrySafe, DirentFirst,
         DirentSize, AllBytesOk, Sectors, Live, NewOnDisk;
    ghost var d1 := fs.disk;
    first, size := 0, 0;
    EntryPut(fs.g, d0, d1, chains0, fs.chains, e, name);
    SectorLength(fs.g, d1[lba]);
    ok := fs.LoadSector(lba);
    if !ok {
      return;
    }
    fs.sector := NewEntry(fs.sector, off, name);
    ok := fs.StoreSector(lba);
    if !ok {
      return;
    }
    ok := fs.LoadSector(lba);
    if ok {
      SectorLength(fs.g, fs.sector);
      first, size := DirentFirst(fs.sector, off), DirentSize(fs.sector, off);
    }
  }

  lemma OthersNumbers(g: Geometry, d: Disk, d': Disk, chains: Chains, chains': Chains, dir: int, f: int)
    requires DirExtended(g, d, d', chains, chains', dir) && f !in chains
    ensures f !in chains'
  {}

  lemma SlotFound(g: Geometry, d0: Disk, d: Disk, chains: Chains, chains': Chains, e: Dirent, grown: bool)
    requires e.dir in chains && e.dir in chains' && ClustersOk(g, chains'[e.dir])
    requires GeometryOk(g) && DiskOk(g, d) && FirstFree(g, d, chains'[e.dir], e.lba, e.offset, e.slot)
    requires if grown then e.slot == Sectors(g, chains[e.dir]) else chains' == chains && d == d0
    ensures e.offset % 32 == 0
    ensures e.slot < Sectors(g, chains[e.dir]) ==> SlotWasFree(g, d0, chains[e.dir], e.slot, e.offset)
  {}

  // ---------------------------------------------------------------- runs

  /** The files of a volume, open and closed, by number, and their byte strings. */
  type Contents = map<int, seq<int>>

  datatype Op =
    | ReadAt(f: int, p: int, len: int)
    | WriteAt(f: int, p: int, data: seq<int>)
    | Resize(f: int, size: int)
    | SyncOf(f: int)
    | CloseOf(f: int)
    | Reopen(f: int)
    | Remove(f: int)
    | Create(f: int, dir: int, name: seq<int>)

  /** How a call ends, and what a read returns. */
  datatype Answer = Answer(st: Status, bytes: seq<int>)

  /** What a call makes of the byte strings.  A file that gets longer keeps its bytes. */
  ghost predicate Step(c: Contents, op: Op, bytes: seq<int>, c': Contents) {
    match op
    case ReadAt(f, p, len) => f in c && 0 <= p && 0 <= len && c' == c && bytes == ReadFrom(c[f], p, len)
    case WriteAt(f, p, data) => f in c && f in c' && c' == c[f := c'[f]] && Overwritten(c[f], p, data, c'[f])
    case Resize(f, size) =>
      && f in c && f in c' && c' == c[f := c'[f]] && |c'[f]| == size
      && if size < |c[f]| then c'[f] == c[f][..size] else c[f] <= c'[f]
    case SyncOf(_) => c' == c
    case CloseOf(_) => c' == c
    case Reopen(_) => c' == c
    case Remove(f) => c' == c - {f}
    case Create(f, dir, name) => c' == c[f := []]
  }

  /** The bytes from `p` on, up to the end. */
  function ReadFrom(s: seq<int>, p: int, len: int): seq<int>
    requires 0 <= p && 0 <= len
  {
    if p >= |s| then [] else s[p..if p + len < |s| then p + len else |s|]
  }

  /** What a program holds of an open file; of a closed one, what it last held. */
  datatype Handle = Handle(entry: Dirent, first: int, size: int, open: bool)

  /** The volume between two calls: what is on the device and in the table, the free space information, and the
      handles of the files. */
  datatype Moment = Moment(disk: Disk, chains: Chains, infoValid: bool, count: int, next: int, files: map<int, Handle>)

  class Volume {
    const fs: FileSys

    /** The first cluster of each directory. */
    const dirs: map<int, int>

    /** The numbers of other files that have clusters. */
    const others: set<int>

    /** The table uses one mark only; otherwise no slots are looked for. */
    const exact: bool

    /** The files, and which of them are open.  Of a closed file the directory entry is current. */
    var files: map<int, File>
    var open: set<int>
    ghost var contents: Contents

    /** Calls on open files, below the limits of positions; sizes that do not wrap around; names and numbers that are
        free.  A file that is removed while it is open must be known on the device by its first cluster. */
    ghost predicate Allowed(m: Moment, c: Contents, op: Op) {
      match op
      case ReadAt(f, p, len) => IsOpen(m, f) && f in c && 0 <= p < 0x8000_0000 && 0 <= len && p + len < U32
      case WriteAt(f, p, data) => IsOpen(m, f) && f in c && 0 <= p < 0x8000_0000 && p + |data| < U32 && AllBytesOk(data)
      case Resize(f, size) =>
        IsOpen(m, f) && f in c && 0 <= size < U32 && (size <= |c[f]| || size + ClusterBytes(fs.g) - 1 < U32)
      case SyncOf(f) => IsOpen(m, f)
      case CloseOf(f) => IsOpen(m, f)
      case Reopen(f) => f in m.files && !m.files[f].open
      case Remove(f) =>
        f in m.files && EntryPlaced(fs.g, m.disk, m.chains, m.files[f].entry) &&
        FirstOnDisk(fs.g, m.disk, m.chains, m.files[f].entry) == m.files[f].first
      case Create(f, dir, name) => exact && dir in dirs && f !in c && f !in dirs && f !in others && NameOk(name)
    }

    ghost predicate IsOpen(m: Moment, f: int) { f in m.files && m.files[f].open }

    ghost predicate FileOk(f: int)
      requires f in files
      reads this, fs, files[f]
    {
      && files[f].fs == fs && files[f].entry.id == f && f !in dirs && files[f].entry.dir in dirs
      && files[f].Valid() && Live(fs.g, fs.disk, files[f].entry) && !files[f].isDirectory
      && (f in open || files[f].EntryCurrent())
    }

    ghost predicate Separate()
      reads this
    {
      Distinguished(files)
    }

    ghost predicate Distinguished(all: map<int, File>) {
      forall f, h {:trigger all[f], all[h]} :: f in all && h in all && f != h ==>
        all[f] != all[h] && EntriesDiffer(all[f].entry, all[h].entry)
    }

    /** The directories are in the table, and no chain has a number that is not accounted for. */
    ghost predicate DirsOk(chains: Chains) {
      && (forall h :: h in dirs ==> h in chains && |chains[h]| > 0 && chains[h][0] == dirs[h])
    }

    ghost predicate Numbered(chains: Chains, known: set<int>) {
      forall h :: h in chains ==> h in known || h in dirs || h in others
    }

    /** What holds at every moment: chains in range and apart, all copies of the table equal, directories and numbers
        in order, and each file of `c` known, with its bytes on the device. */
    ghost predicate MomentOk(m: Moment, c: Contents) {
      && VolumeSafe(fs.g, m.disk, m.chains) && (!fs.mirrorDisabled ==> Mirrored(fs.g, m.disk))
      && DirsOk(m.chains) && Numbered(m.chains, c.Keys) && (exact ==> ExactMarks(Copy(fs.g, m.disk, 0)))
      && m.files.Keys == c.Keys
      && (forall f {:trigger m.files[f]} :: f in c ==> HandleIntact(m.files[f], f, m.disk, m.chains, c[f]))
      && forall f, h {:trigger m.files[f], m.files[h]} :: f in m.files && h in m.files && f != h ==>
           EntriesDiffer(m.files[f].entry, m.files[h].entry)
    }

    /** No free cluster lies below the hint. */
    ghost predicate HintTrue(m: Moment) {
      && GeometryOk(fs.g) && DiskOk(fs.g, m.disk)
      && (m.infoValid ==> NoneFreeBelow(Copy(fs.g, m.disk, 0), m.next))
    }

    /** The free space information is as true as it was: the hint, and how far the count is off. */
    ghost predicate SpaceKept(m: Moment, m': Moment) {
      && GeometryOk(fs.g) && DiskOk(fs.g, m.disk) && DiskOk(fs.g, m'.disk) && m'.infoValid == m.infoValid
      && (HintTrue(m) ==> HintTrue(m'))
      && (m'.infoValid && m'.count != UNKNOWN ==>
            m.count != UNKNOWN && Gap(m'.count, Copy(fs.g, m'.disk, 0)) == Gap(m.count, Copy(fs.g, m.disk, 0)))
    }

    /** A call that ends because the volume is full: no cluster is free then, and it had need of one.  What a write
        wrote fills the file's clusters. */
    ghost predicate Stopped(m: Moment, c: Contents, op: Op, c': Contents) {
      && VolumeSafe(fs.g, m.disk, m.chains) && NoneFreeBelow(Copy(fs.g, m.disk, 0), fs.g.totalClusters)
      && match op
         case WriteAt(f, p, data) =>
           && f in c && f in c' && c' == c[f := c'[f]]
           && exists n :: 0 <= n < |data| && Overwritten(c[f], p, data[..n], c'[f]) && Capacity(fs.g, ChainOf(m.chains, f)) <= p + n
         case Resize(f, size) =>
           && c' == c && f in c && |c[f]| < size && ClusterBytes(fs.g) > 0
           && |ChainOf(m.chains, f)| < Most(1, ClustersWanted(fs.g, size))
         case Create(f, dir, name) =>
           && c' == c && dir in m.chains && ClustersOk(fs.g, m.chains[dir])
           && NoneFreeIn(Blocks(fs.g, m.disk, m.chains[dir]), Sectors(fs.g, m.chains[dir]))
         case ReadAt(_, _, _) => false
         case SyncOf(_) => false
         case CloseOf(_) => false
         case Reopen(_) => false
         case Remove(_) => false
    }

    /** What a call on file `f` does outside the file: other chains, the bytes of other files, open or not, and other
        entries are kept, and so are the table entries of clusters that are in the file's chain neither before nor
        after; what the chain lost is free. */
    ghost predicate FileTouched(m: Moment, m': Moment, f: int, lo: int) {
      && f in m.files && FileKeptOthers(fs.g, m.disk, m'.disk, m.chains, m'.chains, m.files[f].entry, lo)
      && TableStep(Copy(fs.g, m.disk, 0), Copy(fs.g, m'.disk, 0), ChainOf(m.chains, f), ChainOf(m'.chains, f))
    }

    /** The same for a new file in the directory `dir`, whose chain may grow; the slot was free. */
    ghost predicate DirTouched(m: Moment, m': Moment, e: Dirent) {
      && EntryAdded(fs.g, m.disk, m'.disk, m.chains, m'.chains, e.dir, e.slot, e.offset)
      && (e.slot < Sectors(fs.g, m.chains[e.dir]) ==> SlotWasFree(fs.g, m.disk, m.chains[e.dir], e.slot, e.offset))
      && TableStep(Copy(fs.g, m.disk, 0), Copy(fs.g, m'.disk, 0), m.chains[e.dir], m'.chains[e.dir])
    }

    /** What a call does on the device and to the handles. */
    ghost predicate Touched(m: Moment, op: Op, done: bool, m': Moment) {
      && (forall h :: h in m.files && h != op.f ==> h in m'.files && m'.files[h] == m.files[h])
      && (forall h :: h in m'.files && h != op.f ==> h in m.files)
      && match op
         case ReadAt(f, _, _) => m'.disk == m.disk && m'.chains == m.chains && m'.files == m.files
         case WriteAt(f, _, _) => FileTouched(m, m', f, FIELDS) && IsOpen(m', f) && m'.files[f].entry == m.files[f].entry
         case Resize(f, _) => FileTouched(m, m', f, FIELDS) && IsOpen(m', f) && m'.files[f].entry == m.files[f].entry
         case SyncOf(f) =>
           && FileTouched(m, m', f, FIELDS) && m'.chains == m.chains && m'.files == m.files
           && Settled(m'.files[f], m'.disk, m'.chains)
         case CloseOf(f) =>
           && FileTouched(m, m', f, FIELDS) && f in m'.files && !m'.files[f].open && m'.files[f].entry == m.files[f].entry
           && Settled(m'.files[f], m'.disk, m'.chains)
           && m'.chains == if m.files[f].size == 0 then m.chains - {f} else m.chains
         case Reopen(f) =>
           && m'.disk == m.disk && m'.chains == m.chains && f in m.files && f in m'.files
           && m'.files[f] == m.files[f].(open := true)
         case Remove(f) =>
           && FileTouched(m, m', f, WHOLE) && f !in m'.files && f !in m'.chains
           && DeletedOnDisk(m'.disk, m.files[f].entry) && !Live(fs.g, m'.disk, m.files[f].entry)
         case Create(f, dir, name) =>
           if done then
             && IsOpen(m', f) && m'.files[f].entry.dir == dir && NewOnDisk(m'.disk, m'.files[f].entry, name)
             && DirTouched(m, m', m'.files[f].entry)
           else m'.disk == m.disk && m'.chains == m.chains && m'.files == m.files
    }

    /** What a call did, given its answer. */
    ghost predicate Did(m: Moment, m': Moment, c: Contents, op: Op, a: Answer, c': Contents) {
      && Touched(m, op, a.st.Done?, m')
      && ((a.st.Done? && Step(c, op, a.bytes, c')) || (a.st.Full? && Stopped(m', c, op, c')))
    }

    ghost function Now(): Moment
      reads this, Objects()
    {
      Moment(fs.disk, fs.chains, fs.fsinfoValid, fs.freeCount, fs.nextFree, map f | f in files :: HandleOf(files[f], f in open))
    }

    ghost function Objects(): set<object>
      reads this
    {
      {this, fs} + set f | f in files :: files[f]
    }

    /** The volume itself. */
    ghost predicate Sound()
      reads this, fs
    {
      && fs.Linked() && DirsOk(fs.chains) && Numbered(fs.chains, contents.Keys) && (exact ==> fs.MarksExact())
    }

    ghost predicate Valid()
      reads this, Objects()
    {
      && Sound() && Separate() && files.Keys == contents.Keys && open <= files.Keys
      && forall f {:trigger files[f]} :: f in files ==> FileOk(f) && files[f].Bytes() == contents[f]
    }

    constructor (system: FileSys, directories: map<int, int>, known: set<int>, oneMark: bool)
      requires system.Linked() && (oneMark ==> system.MarksExact())
      requires forall h :: h in directories ==>
        h in system.chains && |system.chains[h]| > 0 && system.chains[h][0] == directories[h]
      requires forall h :: h in system.chains ==> h in directories || h in known
      ensures Valid() && fs == system && dirs == directories && others == known && exact == oneMark && contents == map[]
    {
      fs, dirs, others, exact := system, directories, known, oneMark;
      files, contents, open := map[], map[], {};
    }

    /** A file that was opened joins the volume. */
    method Open(f: int, file: File)
      requires Valid() && f !in files && f !in dirs && file.fs == fs && file.entry.id == f && file.Valid()
      requires file.entry.dir in dirs && Live(fs.g, fs.disk, file.entry) && !file.isDirectory
      requires forall h :: h in files ==> files[h] != file && EntriesDiffer(files[h].entry, file.entry)
      modifies this
      ensures Valid() && files == old(files)[f := file] && contents == old(contents)[f := file.Bytes()]
      ensures open == old(open) + {f}
    {
      hide Content, DiskOk, Copy, HandleOk, EntrySafe, VolumeSafe, Capacity, Mirrored, ClustersOk, Live, EntriesDiffer,
           Volume.Intact, Volume.DirsOk, Volume.Numbered;
      ghost var bytes, all, held, was := file.Bytes(), files, open, contents;
      Before(f);
      assert AllKnown(all, held, fs.disk, fs.chains, was);
      hide Volume.AllKnown;
      contents := contents[f := bytes];
      files := files[f := file];
      open := open + {f};
      AfterOpen(f, file, all, held, was, bytes);
    }

    lemma AfterOpen(f: int, file: File, all: map<int, File>, held: set<int>, was: Contents, bytes: seq<int>)
      requires files == all[f := file] && open == held + {f} && held <= all.Keys && forall h :: h in all ==> all[h] != file
      requires f !in was && contents == was[f := bytes]
      requires file.fs == fs && file.entry.id == f && f !in dirs && file.entry.dir in dirs && file.Valid() && file.Bytes() == bytes
      requires !file.isDirectory && Live(fs.g, fs.disk, file.entry)
      requires forall h :: h in all ==> EntriesDiffer(all[h].entry, file.entry)
      requires fs.Linked() && Distinguished(all) && AllKnown(all, held, fs.disk, fs.chains, was)
      requires DirsOk(fs.chains) && Numbered(fs.chains, was.Keys) && (exact ==> fs.MarksExact())
      ensures Valid()
    {
      hide Content, DiskOk, Copy, HandleOk, EntrySafe, VolumeSafe, Capacity, Mirrored, ClustersOk, Live, Volume.Intact,
           Volume.DirsOk, Volume.Numbered, File.Valid, Volume.Distinguished;
      forall h | h in files && h != f
        ensures FileOk(h) && files[h].Bytes() == was[h]
      {
        assert files[h] == all[h] && Intact(all[h], h, h in held, fs.disk, fs.chains, was[h]);
        StillBefore(h, was[h]);
      }
      assert contents.Keys == was.Keys + {f};
      assert FileOk(f);
      MoreNumbers(fs.chains, was.Keys, f);
      StillApart(all, f, file);
    }

    // -------------------------------------------------------------- what a call on one file leaves of the others

    /** The file of a handle: its entry, its chain and its bytes. */
    ghost predicate HandleIntact(x: Handle, h: int, d: Disk, chains: Chains, bytes: seq<int>) {
      && x.entry.id == h && h !in dirs && x.entry.dir in dirs && Live(fs.g, d, x.entry) && EntrySafe(fs.g, d, chains, x.entry)
      && HandleOk(fs.g, chains, h, x.first, x.size)
      && GeometryOk(fs.g) && DiskOk(fs.g, d) && ClustersOk(fs.g, ChainOf(chains, h))
      && 0 <= x.size <= Capacity(fs.g, ChainOf(chains, h))
      && bytes == Content(fs.g, d, ChainOf(chains, h))[..x.size]
      && (x.open || Settled(x, d, chains))
    }

    /** The directory entry has the size and the first cluster. */
    ghost predicate Settled(x: Handle, d: Disk, chains: Chains) {
      && EntryPlaced(fs.g, d, chains, x.entry)
      && FirstOnDisk(fs.g, d, chains, x.entry) == x.first && SizeOnDisk(fs.g, d, chains, x.entry) == x.size
    }

    ghost function HandleOf(file: File, isOpen: bool): Handle
      reads file
    {
      Handle(file.entry, file.firstCluster, file.fileSize, isOpen)
    }

    ghost predicate Intact(file: File, h: int, isOpen: bool, d: Disk, chains: Chains, bytes: seq<int>)
      reads file
    {
      && file.fs == fs && file.entry.lba == file.dirLba && file.entry.offset == file.dirOffset && 0 <= file.filePos < U32
      && !file.isDirectory && HandleIntact(HandleOf(file, isOpen), h, d, chains, bytes)
    }

    ghost predicate AllIntact(d: Disk, chains: Chains, was: Contents, but: int)
      reads this, Objects()
    {
      forall h {:trigger files[h]} :: h in files && h != but ==> h in was && Intact(files[h], h, h in open, d, chains, was[h])
    }

    /** What a failure of the device leaves, wherever it happens in a call on file `f`: the chains are apart, and all
        other open files have their chains, their entries and their bytes on it. */
    ghost predicate Survived(was: Contents, f: int)
      reads this, Objects()
    {
      fs.Safe() && files.Keys == was.Keys && AllIntact(fs.disk, fs.chains, was, f)
    }

    lemma Facts()
      requires Valid()
      ensures Sound() && Separate() && files.Keys == contents.Keys && open <= files.Keys
      ensures AllKnown(files, open, fs.disk, fs.chains, contents)
    {
      hide Volume.Intact, File.Valid, Volume.DirsOk, Volume.Numbered;
      forall h | h in files
        ensures Intact(files[h], h, h in open, fs.disk, fs.chains, contents[h])
      {
        IntactNow(h);
      }
    }

    lemma KnownFile(f: int)
      requires Valid() && f in files
      ensures FileOk(f) && f in contents && files[f].Bytes() == contents[f]
    {}

    lemma IntactNow(f: int)
      requires Valid() && f in files
      ensures f in contents && Intact(files[f], f, f in open, fs.disk, fs.chains, contents[f])
      ensures EntryPlaced(fs.g, fs.disk, fs.chains, files[f].entry)
    {
      hide Content, DiskOk, Copy, HandleOk;
      assert FileOk(f) && files[f].Bytes() == contents[f];
      HandleFits(fs.g, fs.disk, fs.chains, f, files[f].firstCluster, files[f].fileSize);
    }

    lemma Before(but: int)
      requires Valid()
      ensures AllIntact(fs.disk, fs.chains, contents, but)
      ensures but in files ==> EntryPlaced(fs.g, fs.disk, fs.chains, files[but].entry)
    {
      hide Volume.Intact, EntryPlaced;
      forall h | h in files
        ensures Intact(files[h], h, h in open, fs.disk, fs.chains, contents[h])
        ensures EntryPlaced(fs.g, fs.disk, fs.chains, files[h].entry)
      {
        IntactNow(h);
      }
    }

    /** What is known before a call, of what the device holds now. */
    lemma StillBefore(h: int, bytes: seq<int>)
      requires h in files && fs.Linked() && Intact(files[h], h, h in open, fs.disk, fs.chains, bytes)
      ensures FileOk(h) && files[h].Bytes() == bytes
    {
      hide Content, DiskOk, Copy, HandleOk, EntrySafe, Live;
    }

    /** File `h` under a call on the file of entry `e`. */
    lemma OtherFile(e: Dirent, h: int, d: Disk, chains: Chains, bytes: seq<int>)
      requires h in files && e.id != h && EntriesDiffer(e, files[h].entry) && e.id !in dirs && e.dir in dirs && e.offset % 32 == 0
      requires FileKeptOthers(fs.g, d, fs.disk, chains, fs.chains, e, WHOLE)
      requires Intact(files[h], h, h in open, d, chains, bytes)
      ensures Intact(files[h], h, h in open, fs.disk, fs.chains, bytes)
    {
      OtherBytesKept(fs.g, d, fs.disk, chains, fs.chains, e, h);
      OtherEntryKept(fs.g, d, fs.disk, chains, fs.chains, e, files[h].entry);
      hide Content, DiskOk, Copy, EntrySafe, FileKeptOthers, Live, SlotFree;
      assert HandleOk(fs.g, fs.chains, h, files[h].firstCluster, files[h].fileSize);
    }

    lemma OtherFiles(e: Dirent, d: Disk, chains: Chains, was: Contents)
      requires forall h :: h in files && h != e.id ==> EntriesDiffer(e, files[h].entry)
      requires e.id !in dirs && e.dir in dirs && e.offset % 32 == 0
      requires FileKeptOthers(fs.g, d, fs.disk, chains, fs.chains, e, WHOLE)
      requires AllIntact(d, chains, was, e.id)
      ensures AllIntact(fs.disk, fs.chains, was, e.id)
    {
      hide FileKeptOthers, Volume.Intact, EntriesDiffer;
      forall h | h in files && h != e.id
        ensures Intact(files[h], h, h in open, fs.disk, fs.chains, was[h])
      {
        assert Intact(files[h], h, h in open, d, chains, was[h]);
        OtherFile(e, h, d, chains, was[h]);
      }
    }

    lemma Recovered(was: Contents, but: int)
      requires fs.Linked() && AllIntact(fs.disk, fs.chains, was, but)
      ensures forall h {:trigger files[h]} :: h in files && h != but ==> FileOk(h) && files[h].Bytes() == was[h]
    {
      hide File.Valid, FileSys.Linked, Volume.Intact, Live;
      forall h | h in files && h != but
        ensures FileOk(h) && files[h].Bytes() == was[h]
      {
        assert Intact(files[h], h, h in open, fs.disk, fs.chains, was[h]);
        StillBefore(h, was[h]);
      }
    }

    /** The device failed in a call on the file of entry `e`. */
    lemma AfterFailure(e: Dirent, d: Disk, chains: Chains, was: Contents)
      requires forall h :: h in files && h != e.id ==> EntriesDiffer(e, files[h].entry)
      requires e.id !in dirs && e.dir in dirs && files.Keys == was.Keys && EntryPlaced(fs.g, d, chains, e)
      requires FileKeptOthers(fs.g, d, fs.disk, chains, fs.chains, e, WHOLE)
      requires AllIntact(d, chains, was, e.id)
      ensures Survived(was, e.id)
    {
      assert e.offset % 32 == 0 && fs.Safe();
      hide EntryPlaced, FileKeptOthers, Volume.Intact, EntriesDiffer;
      OtherFiles(e, d, chains, was);
    }

    /** The directories and the numbers under a call on a file. */
    lemma DirsKept(e: Dirent, d: Disk, d': Disk, chains: Chains, chains': Chains, known: set<int>)
      requires FileKeptOthers(fs.g, d, d', chains, chains', e, WHOLE) && e.id !in dirs
      requires DirsOk(chains) && Numbered(chains, known)
      ensures DirsOk(chains') && (e.id in known || e.id !in chains' ==> Numbered(chains', known))
    {
      hide VolumeSafe, ClustersOk, AllClustersOk, DirKept, Blocks;
    }

    /** A call on `f` is over. */
    lemma AfterCall(f: int, d: Disk, chains: Chains, was: Contents)
      requires f in files && Separate() && files[f].fs == fs && files[f].entry.id == f && f !in dirs
      requires files[f].entry.dir in dirs && files[f].Valid() && Live(fs.g, d, files[f].entry) && !files[f].isDirectory
      requires open <= files.Keys && (f in open || files[f].EntryCurrent())
      requires f in was && f in contents && files[f].Bytes() == contents[f]
      requires contents == was[f := contents[f]] && files.Keys == was.Keys
      requires FileKeptOthers(fs.g, d, fs.disk, chains, fs.chains, files[f].entry, FIELDS)
      requires EntryPlaced(fs.g, d, chains, files[f].entry)
      requires AllIntact(d, chains, was, f) && DirsOk(chains) && Numbered(chains, was.Keys)
      requires exact ==> fs.MarksExact()
      ensures Valid()
    {
      ghost var e := files[f].entry;
      KeptWhole(fs.g, d, fs.disk, chains, fs.chains, e);
      OwnNameKept(fs.g, d, fs.disk, chains, fs.chains, e);
      hide Content, DiskOk, Copy, HandleOk, EntrySafe, VolumeSafe, FileKeptOthers, Capacity, Mirrored, ClustersOk, Live,
           Volume.Intact;
      assert e.offset % 32 == 0;
      hide EntryPlaced;
      OtherFiles(e, d, chains, was);
      Recovered(was, f);
      DirsKept(e, d, fs.disk, chains, fs.chains, was.Keys);
      assert was.Keys == contents.Keys;
      assert FileOk(f);
    }

    // -------------------------------------------------------------- the calls

    /** A write into a file, or behind its end. */
    method Write(f: int, p: int, data: seq<int>) returns (st: Status)
      requires Valid() && Allowed(Now(), contents, WriteAt(f, p, data))
      modifies Objects()
      ensures files == old(files) && open == old(open) && f in open && f in files && !st.Failed?
      ensures !st.DeviceFailed? ==> Valid() && Did(old(Now()), Now(), old(contents), WriteAt(f, p, data), Answer(st, []), contents)
      ensures st.DeviceFailed? ==> files[f].CrashSafe() && Survived(old(contents), f)
      ensures !st.DeviceFailed? ==> SpaceKept(old(Now()), Now())
      ensures fs.reliable ==> !st.DeviceFailed?
    {
      hide Volume.Valid, Volume.SpaceKept, TableStep, Volume.FileTouched, Volume.DirTouched, NewOnDisk, Content,
           DiskOk, Copy, HandleOk, EntrySafe, VolumeSafe, FileKeptOthers, EntryPlaced, Capacity, Mirrored, ClustersOk,
           Live, Volume.Intact, Volume.DirsOk, Volume.Numbered, Volume.Survived, NoneFreeBelow, Gap, Overwritten,
           Volume.Did;
      Before(f);
      Facts();
      KnownFile(f);
      var file := files[f];
      ghost var d0, chains0, was, m := fs.disk, fs.chains, contents, Now();
      ghost var n;
      st, n := WriteFile(file, p, data);
      if !st.DeviceFailed? {
        contents := contents[f := file.Bytes()];
        AfterCall(f, d0, chains0, was);
        TouchedNow(m, f, file.entry, FIELDS);
        assert st.Done? ==> data[..n] == data;
        WriteDid(m, st, was, f, p, data, n);
        SpaceNow(m);
      } else {
        KeptWhole(fs.g, d0, fs.disk, chains0, fs.chains, file.entry);
        AfterFailure(file.entry, d0, chains0, was);
      }
    }

    /** A read returns the bytes of the file from `p` on. */
    method Read(f: int, p: int, len: int) returns (st: Status, buffer: seq<int>)
      requires Valid() && Allowed(Now(), contents, ReadAt(f, p, len))
      modifies Objects()
      ensures files == old(files) && open == old(open) && f in open && f in files && (st.Done? || st.DeviceFailed?)
      ensures st.Done? ==> Valid() && Did(old(Now()), Now(), old(contents), ReadAt(f, p, len), Answer(st, buffer), contents)
      ensures st.DeviceFailed? ==> fs.disk == old(fs.disk) && files[f].CrashSafe() && Survived(old(contents), f)
      ensures !st.DeviceFailed? ==> SpaceKept(old(Now()), Now())
      ensures fs.reliable ==> !st.DeviceFailed?
    {
      hide Volume.Valid, Volume.SpaceKept, Volume.Did, TableStep, Volume.FileTouched, Volume.DirTouched, NewOnDisk,
           Content, DiskOk, Copy, HandleOk, EntrySafe, VolumeSafe, FileKeptOthers, EntryPlaced, Capacity, Mirrored,
           ClustersOk, Live, Volume.Intact, Volume.DirsOk, Volume.Numbered, Volume.Survived, NoneFreeBelow, Gap;
      Before(f);
      Facts();
      KnownFile(f);
      var file := files[f];
      ghost var d0, chains0, was, m := fs.disk, fs.chains, contents, Now();
      KeptSame(fs.g, d0, chains0, file.entry, FIELDS);
      KnownSize(f);
      var ok;
      ok, buffer := ReadFile(file, p, len);
      st := if ok then Done else DeviceFailed;
      if ok {
        AfterCall(f, d0, chains0, was);
        ReadDid(m, was, f, p, len, buffer);
        SpaceNow(m);
      } else {
        KeptWhole(fs.g, d0, fs.disk, chains0, fs.chains, file.entry);
        AfterFailure(file.entry, d0, chains0, was);
      }
    }

    /** A file gets shorter or longer. */
    method Truncate(f: int, size: int) returns (st: Status)
      requires Valid() && Allowed(Now(), contents, Resize(f, size))
      modifies Objects()
      ensures files == old(files) && open == old(open) && f in open && f in files && !st.Failed? && ClusterBytes(fs.g) > 0
      ensures !st.DeviceFailed? ==> Valid() && Did(old(Now()), Now(), old(contents), Resize(f, size), Answer(st, []), contents)
      ensures st.DeviceFailed? ==> Survived(old(contents), f) && (!old(files[f].Cuts(size)) ==> files[f].CrashSafe())
      ensures !st.DeviceFailed? ==> SpaceKept(old(Now()), Now())
      ensures fs.reliable ==> !st.DeviceFailed?
    {
      hide Volume.Valid, Volume.SpaceKept, TableStep, Volume.FileTouched, Volume.DirTouched, NewOnDisk, Content,
           DiskOk, Copy, HandleOk, EntrySafe, VolumeSafe, FileKeptOthers, EntryPlaced, Capacity, Mirrored, ClustersOk,
           Live, Volume.Intact, Volume.DirsOk, Volume.Numbered, Volume.Survived, NoneFreeBelow, Gap, ClusterBytes,
           ClustersWanted, File.Cuts, File.AllBytes, Most, Volume.Did;
      Before(f);
      Facts();
      KnownFile(f);
      var file := files[f];
      ghost var d0, chains0, was, m := fs.disk, fs.chains, contents, Now();
      KnownSize(f);
      st := TruncateFile(file, size);
      if !st.DeviceFailed? {
        contents := contents[f := file.Bytes()];
        AfterCall(f, d0, chains0, was);
        TouchedNow(m, f, file.entry, FIELDS);
        TruncateDid(m, st, was, f, size);
        SpaceNow(m);
      } else {
        KeptWhole(fs.g, d0, fs.disk, chains0, fs.chains, file.entry);
        AfterFailure(file.entry, d0, chains0, was);
      }
    }

    /** The handles of other files than `f` are those of the moment `m`. */
    ghost predicate HandlesKept(m: Moment, f: int)
      reads this, Objects()
    {
      && m.files.Keys == files.Keys
      && forall h {:trigger files[h]} :: h in files && h != f ==> m.files[h] == HandleOf(files[h], h in open)
    }

    lemma SameHandles(m: Moment, f: int)
      requires HandlesKept(m, f) && f in files && m.files[f] == HandleOf(files[f], f in open)
      ensures m.files == Now().files
    {
      forall h | h in files
        ensures m.files[h] == Now().files[h]
      {
        assert m.files[h] == HandleOf(files[h], h in open);
      }
    }

    lemma ReadDid(m: Moment, was: Contents, f: int, p: int, len: int, buffer: seq<int>)
      requires HandlesKept(m, f) && f in files && m.files[f] == HandleOf(files[f], f in open)
      requires m.disk == fs.disk && m.chains == fs.chains && contents == was && f in was && 0 <= p && 0 <= len
      requires buffer == ReadFrom(was[f], p, len)
      ensures Did(m, Now(), was, ReadAt(f, p, len), Answer(Done, buffer), contents)
    {
      SameHandles(m, f);
    }

    /** What a call on file `f` left, in terms of moments. */
    lemma TouchedNow(m: Moment, f: int, e: Dirent, lo: int)
      requires f in m.files && m.files[f].entry == e && fs.Safe() && e.id == f
      requires FileKeptOthers(fs.g, m.disk, fs.disk, m.chains, fs.chains, e, lo)
      requires GeometryOk(fs.g) && DiskOk(fs.g, m.disk)
      requires TableStep(Copy(fs.g, m.disk, 0), fs.Fat(), ChainOf(m.chains, f), ChainOf(fs.chains, f))
      ensures FileTouched(m, Now(), f, lo)
    {}

    lemma TruncateDid(m: Moment, st: Status, was: Contents, f: int, size: int)
      requires fs.Safe() && f in was && f in contents && contents == was[f := contents[f]] && (st.Done? || st.Full?)
      requires st.Done? ==> |contents[f]| == size
      requires st.Done? ==> if size < |was[f]| then contents[f] == was[f][..size] else was[f] <= contents[f]
      requires st.Full? ==> contents[f] == was[f] && |was[f]| < size && fs.Exhausted() && ClusterBytes(fs.g) > 0
      requires st.Full? ==> |ChainOf(fs.chains, f)| < Most(1, ClustersWanted(fs.g, size))
      requires f in files && f in open && HandlesKept(m, f) && FileTouched(m, Now(), f, FIELDS) && m.files[f].entry == files[f].entry
      ensures Did(m, Now(), was, Resize(f, size), Answer(st, []), contents)
    {
      hide Volume.FileTouched, Copy, DiskOk, VolumeSafe;
      assert st.Full? ==> contents == was;
    }

    lemma WriteDid(m: Moment, st: Status, was: Contents, f: int, p: int, data: seq<int>, n: int)
      requires fs.Safe() && f in was && f in contents && contents == was[f := contents[f]] && (st.Done? || st.Full?)
      requires 0 <= n <= |data| && Overwritten(was[f], p, data[..n], contents[f]) && (st.Done? ==> data[..n] == data)
      requires st.Full? ==> n < |data| && fs.Exhausted() && Capacity(fs.g, ChainOf(fs.chains, f)) <= p + n
      requires f in files && f in open && HandlesKept(m, f) && FileTouched(m, Now(), f, FIELDS) && m.files[f].entry == files[f].entry
      ensures Did(m, Now(), was, WriteAt(f, p, data), Answer(st, []), contents)
    {
      hide Volume.FileTouched, Copy, DiskOk, VolumeSafe, Overwritten, Capacity;
    }

    /** The size and the first cluster of an open file reach the device. */
    method Sync(f: int) returns (st: Status)
      requires Valid() && Allowed(Now(), contents, SyncOf(f))
      modifies Objects()
      ensures files == old(files) && f in files && (st.Done? || st.DeviceFailed?) && open == old(open)
      ensures st.Done? ==> Valid() && Did(old(Now()), Now(), old(contents), SyncOf(f), Answer(st, []), contents)
      ensures st.DeviceFailed? ==> files[f].CrashSafe() && Survived(old(contents), f)
      ensures !st.DeviceFailed? ==> SpaceKept(old(Now()), Now())
      ensures fs.reliable ==> !st.DeviceFailed?
    {
      hide Volume.Valid, Volume.SpaceKept, TableStep, Volume.FileTouched, Volume.DirTouched, NewOnDisk, Content,
           DiskOk, Copy, HandleOk, EntrySafe, VolumeSafe, FileKeptOthers, EntryPlaced, Capacity, Mirrored, ClustersOk,
           Live, Volume.Intact, Volume.DirsOk, Volume.Numbered, Volume.Survived, NoneFreeBelow, Gap, FirstOnDisk,
           SizeOnDisk, Volume.Did;
      Before(f);
      Facts();
      KnownFile(f);
      var file := files[f];
      ghost var d0, chains0, was, m := fs.disk, fs.chains, contents, Now();
      var ok := SyncFile(file);
      st := if ok then Done else DeviceFailed;
      KeptWhole(fs.g, d0, fs.disk, chains0, fs.chains, file.entry);
      if ok {
        AfterCall(f, d0, chains0, was);
        TouchedNow(m, f, file.entry, FIELDS);
        SyncDid(m, was, f);
        SpaceNow(m);
      } else {
        AfterFailure(file.entry, d0, chains0, was);
      }
    }

    /** A file is closed; an empty one gives its clusters back. */
    method Close(f: int) returns (st: Status)
      requires Valid() && Allowed(Now(), contents, CloseOf(f))
      modifies Objects()
      ensures files == old(files) && f in files && (st.Done? || st.DeviceFailed?)
      ensures st.Done? ==> Valid() && Did(old(Now()), Now(), old(contents), CloseOf(f), Answer(st, []), contents)
      ensures st.DeviceFailed? ==> Survived(old(contents), f)
      ensures !st.DeviceFailed? ==> SpaceKept(old(Now()), Now())
      ensures fs.reliable ==> !st.DeviceFailed?
    {
      hide Volume.Valid, Volume.SpaceKept, TableStep, Volume.FileTouched, Volume.DirTouched, NewOnDisk, Content,
           DiskOk, Copy, HandleOk, EntrySafe, VolumeSafe, FileKeptOthers, EntryPlaced, Capacity, Mirrored, ClustersOk,
           Live, Volume.Intact, Volume.DirsOk, Volume.Numbered, Volume.Survived, NoneFreeBelow, Gap, FirstOnDisk,
           SizeOnDisk, Volume.Did;
      Before(f);
      Facts();
      KnownFile(f);
      var file := files[f];
      ghost var d0, chains0, was, m := fs.disk, fs.chains, contents, Now();
      var ok := CloseFile(file);
      st := if ok then Done else DeviceFailed;
      KeptWhole(fs.g, d0, fs.disk, chains0, fs.chains, file.entry);
      if ok {
        open := open - {f};
        AfterCall(f, d0, chains0, was);
        TouchedNow(m, f, file.entry, FIELDS);
        CloseDid(m, was, f);
        SpaceNow(m);
      } else {
        AfterFailure(file.entry, d0, chains0, was);
      }
    }

    lemma SyncDid(m: Moment, was: Contents, f: int)
      requires f in files && f in open && HandlesKept(m, f) && FileTouched(m, Now(), f, FIELDS)
      requires m.files[f] == HandleOf(files[f], true) && m.chains == fs.chains && contents == was
      requires files[f].fs == fs && files[f].EntryCurrent()
      ensures Did(m, Now(), was, SyncOf(f), Answer(Done, []), contents)
    {
      hide Volume.FileTouched, EntryPlaced, FirstOnDisk, SizeOnDisk;
      SameHandles(m, f);
    }

    lemma CloseDid(m: Moment, was: Contents, f: int)
      requires f in files && f !in open && HandlesKept(m, f) && FileTouched(m, Now(), f, FIELDS)
      requires m.files[f].entry == files[f].entry && m.files[f].size == files[f].fileSize && contents == was
      requires fs.chains == if files[f].fileSize == 0 then m.chains - {f} else m.chains
      requires files[f].fs == fs && files[f].EntryCurrent()
      ensures Did(m, Now(), was, CloseOf(f), Answer(Done, []), contents)
    {
      hide Volume.FileTouched, EntryPlaced, FirstOnDisk, SizeOnDisk;
    }

    /** A closed file is opened again: its handle is what its directory entry says. */
    method OpenAgain(f: int) returns (st: Status)
      requires Valid() && Allowed(Now(), contents, Reopen(f))
      modifies Objects()
      ensures st.Done? || st.DeviceFailed?
      ensures st.Done? ==> Valid() && Did(old(Now()), Now(), old(contents), Reopen(f), Answer(st, []), contents)
      ensures st.Done? ==> fresh(Objects() - old(Objects()))
      ensures st.DeviceFailed? ==> fs.disk == old(fs.disk) && Survived(old(contents), f)
      ensures !st.DeviceFailed? ==> SpaceKept(old(Now()), Now())
      ensures fs.reliable ==> !st.DeviceFailed?
    {
      hide Volume.Valid, Volume.SpaceKept, TableStep, Volume.FileTouched, Volume.DirTouched, NewOnDisk, Content,
           DiskOk, Copy, HandleOk, EntrySafe, VolumeSafe, FileKeptOthers, EntryPlaced, Capacity, Mirrored, ClustersOk,
           Live, Volume.Intact, Volume.DirsOk, Volume.Numbered, Volume.Survived, NoneFreeBelow, Gap, FirstOnDisk,
           SizeOnDisk, Volume.Did, DirentFirst, DirentSize;
      Facts();
      KnownFile(f);
      KnownPlace(f);
      var last := files[f];
      ghost var d0, chains0, was, m, all, held := fs.disk, fs.chains, contents, Now(), files, open;
      assert FileOk(f) && last.Bytes() == was[f] && last.EntryCurrent();
      IntactNow(f);
      assert AllKnown(all, held, d0, chains0, was);
      KeptSame(fs.g, d0, chains0, last.entry, WHOLE);
      assert HandlesAre(m);
      hide Volume.AllKnown, Volume.Distinguished, Volume.HandlesAre, Volume.Now;
      var ok, file := OpenFile(last);
      st := if ok then Done else DeviceFailed;
      if ok {
        SpaceNow(m);
        JoinAgain(f, file, m);
      } else {
        AfterFailure(last.entry, d0, chains0, was);
      }
    }

    /** The new handle takes the place of the last one. */
    method JoinAgain(f: int, file: File, ghost m: Moment)
      requires fs.Linked() && fs.disk == m.disk && fs.chains == m.chains && AllKnown(files, open, m.disk, m.chains, contents)
      requires HandlesAre(m) && Distinguished(files) && open <= files.Keys && f in files && f !in open && file !in files.Values
      requires file.fs == fs && file.entry == files[f].entry && file.dirLba == files[f].dirLba && file.dirOffset == files[f].dirOffset
      requires file.firstCluster == files[f].firstCluster && file.fileSize == files[f].fileSize
      requires file.filePos == 0 && !file.isDirectory
      requires DirsOk(m.chains) && Numbered(m.chains, contents.Keys) && (exact ==> fs.MarksExact()) && SpaceKept(m, Now())
      modifies this`files, this`open
      ensures Valid() && files == old(files)[f := file]
      ensures Did(m, Now(), contents, Reopen(f), Answer(Done, []), contents) && SpaceKept(m, Now())
    {
      hide Volume.Did, Content, DiskOk, Copy, HandleOk, EntrySafe, VolumeSafe, Capacity, Mirrored, ClustersOk, Live,
           Volume.Intact, Volume.DirsOk, Volume.Numbered, EntriesDiffer, Volume.FileOk, Volume.AllKnown,
           Volume.Distinguished, Volume.Valid, Volume.SpaceKept;
      ghost var all, held, before := files, open, Now();
      files := files[f := file];
      open := open + {f};
      AfterReopen(f, file, all, held, m.disk, m.chains, contents);
      ReopenDid(m, contents, f);
      SpaceAlike(m, before, Now());
    }

    lemma AfterReopen(f: int, file: File, all: map<int, File>, held: set<int>, d: Disk, chains: Chains, was: Contents)
      requires f in all && files == all[f := file] && open == held + {f} && f !in held && held <= all.Keys && contents == was
      requires fs.Linked() && fs.disk == d && fs.chains == chains && Distinguished(all) && file !in all.Values
      requires AllKnown(all, held, d, chains, was)
      requires file.fs == fs && file.entry == all[f].entry && file.dirLba == all[f].dirLba && file.dirOffset == all[f].dirOffset
      requires file.firstCluster == all[f].firstCluster && file.fileSize == all[f].fileSize && file.filePos == 0 && !file.isDirectory
      requires DirsOk(chains) && Numbered(chains, was.Keys) && (exact ==> fs.MarksExact())
      ensures Valid()
    {
      hide Content, DiskOk, Copy, HandleOk, EntrySafe, VolumeSafe, Capacity, Mirrored, ClustersOk, Live,
           Volume.Intact, EntryPlaced, FirstOnDisk, SizeOnDisk;
      ReopenedIntact(f, file, all[f], d, chains, was[f]);
      forall h | h in files
        ensures FileOk(h) && files[h].Bytes() == was[h]
      {
        assert Intact(all[h], h, h in held, d, chains, was[h]);
        assert h != f ==> files[h] == all[h];
        StillBefore(h, was[h]);
      }
    }

    lemma ReopenedIntact(f: int, file: File, last: File, d: Disk, chains: Chains, bytes: seq<int>)
      requires Intact(last, f, false, d, chains, bytes) && file.fs == fs && file.entry == last.entry && file.dirLba == last.dirLba
      requires file.dirOffset == last.dirOffset && file.firstCluster == last.firstCluster && file.fileSize == last.fileSize
      requires file.filePos == 0 && !file.isDirectory
      ensures Intact(file, f, true, d, chains, bytes)
    {}

    lemma ReopenDid(m: Moment, was: Contents, f: int)
      requires f in files && f in open && HandlesKept(m, f) && m.disk == fs.disk && m.chains == fs.chains && contents == was
      requires m.files[f].(open := true) == HandleOf(files[f], true)
      ensures Did(m, Now(), was, Reopen(f), Answer(Done, []), contents)
    {}

    /** A file is deleted; its handle is dropped. */
    method Delete(f: int) returns (st: Status)
      requires Valid() && Allowed(Now(), contents, Remove(f))
      modifies Objects()
      ensures (st.Done? || st.DeviceFailed?) && f in old(files)
      ensures st.Done? ==> Valid() && Did(old(Now()), Now(), old(contents), Remove(f), Answer(st, []), contents)
      ensures st.Done? ==> files == old(files) - {f}
      ensures st.DeviceFailed? ==> Survived(old(contents), f) && (old(files)[f].CrashSafe() || old(files)[f].Deleted())
      ensures !st.DeviceFailed? ==> SpaceKept(old(Now()), Now())
      ensures fs.reliable ==> !st.DeviceFailed?
    {
      hide Volume.Valid, Volume.SpaceKept, DeletedOnDisk, Volume.Did, TableStep, Volume.FileTouched,
           Volume.DirTouched, NewOnDisk, Content, DiskOk, Copy, HandleOk, EntrySafe, VolumeSafe, FileKeptOthers,
           EntryPlaced, Capacity, Mirrored, ClustersOk, Live, Volume.Intact, Volume.DirsOk, Volume.Numbered,
           Volume.Survived, NoneFreeBelow, Gap;
      Before(f);
      Facts();
      KnownFile(f);
      var file := files[f];
      ghost var d0, chains0, was, m := fs.disk, fs.chains, contents, Now();
      var ok := file.Unlink();
      st := if ok then Done else DeviceFailed;
      if ok {
        SpaceNow(m);
        Leave(f, file, m);
      } else {
        AfterFailure(file.entry, d0, chains0, was);
      }
    }

    /** The handle of a deleted file is dropped. */
    method Leave(f: int, file: File, ghost m: Moment)
      requires fs.Linked() && Separate() && f in contents && f in files && file == files[f] && files.Keys == contents.Keys
      requires open <= files.Keys && HandlesKept(m, f) && m.files[f].entry == file.entry
      requires file.fs == fs && file.Deleted()
      requires f !in dirs && file.entry.id == f && file.entry.dir in dirs && EntryPlaced(fs.g, m.disk, m.chains, file.entry)
      requires AllIntact(m.disk, m.chains, contents, f) && DirsOk(m.chains) && Numbered(m.chains, contents.Keys)
      requires GeometryOk(fs.g) && DiskOk(fs.g, m.disk)
      requires f !in fs.chains && (exact ==> fs.MarksExact()) && SpaceKept(m, Now())
      requires FileKeptOthers(fs.g, m.disk, fs.disk, m.chains, fs.chains, file.entry, WHOLE)
      requires TableStep(Copy(fs.g, m.disk, 0), fs.Fat(), ChainOf(m.chains, f), ChainOf(fs.chains, f))
      modifies this`files, this`open, this`contents
      ensures Valid() && files == old(files) - {f}
      ensures Did(m, Now(), old(contents), Remove(f), Answer(Done, []), contents)
      ensures SpaceKept(m, Now())
    {
      hide Volume.Valid, Volume.SpaceKept, DeletedOnDisk, Volume.Did, TableStep, Volume.FileTouched, Content, DiskOk,
           Copy, HandleOk, EntrySafe, VolumeSafe, FileKeptOthers, EntryPlaced, Mirrored, ClustersOk, Live,
           Volume.Intact, Volume.DirsOk, Volume.Numbered;
      ghost var was, before := contents, Now();
      files := files - {f};
      open := open - {f};
      contents := contents - {f};
      AfterDelete(f, file, m.disk, m.chains, was);
      TouchedNow(m, f, file.entry, WHOLE);
      DeletedNow(file);
      DeleteDid(m, was, f, file);
      SpaceAlike(m, before, Now());
    }

    lemma DeletedNow(file: File)
      requires file.fs == fs && file.Deleted()
      ensures DeletedOnDisk(fs.disk, file.entry) && !Live(fs.g, fs.disk, file.entry)
    {}

    lemma DeleteDid(m: Moment, was: Contents, f: int, file: File)
      requires f !in files && m.files.Keys == files.Keys + {f} && m.files[f].entry == file.entry && f !in fs.chains
      requires forall h {:trigger files[h]} :: h in files ==> m.files[h] == HandleOf(files[h], h in open)
      requires FileTouched(m, Now(), f, WHOLE) && contents == was - {f}
      requires DeletedOnDisk(fs.disk, file.entry) && !Live(fs.g, fs.disk, file.entry)
      ensures Did(m, Now(), was, Remove(f), Answer(Done, []), contents)
    {
      hide Volume.FileTouched, DeletedOnDisk, Live;
    }

    lemma CreateDid(m: Moment, was: Contents, f: int, file: File, dir: int, name: seq<int>)
      requires f in files && f in open && files[f] == file && files.Keys == m.files.Keys + {f} && f !in m.files
      requires forall h {:trigger files[h]} :: h in m.files ==> m.files[h] == HandleOf(files[h], h in open)
      requires file.entry.dir == dir && NewOnDisk(fs.disk, file.entry, name) && DirTouched(m, Now(), file.entry)
      requires contents == was[f := []]
      ensures Did(m, Now(), was, Create(f, dir, name), Answer(Done, []), contents)
    {
      hide Volume.DirTouched, NewOnDisk;
    }

    lemma CreateStopped(m: Moment, was: Contents, f: int, dir: int, name: seq<int>)
      requires m.disk == fs.disk && m.chains == fs.chains && contents == was && m.files.Keys == files.Keys
      requires forall h {:trigger files[h]} :: h in files ==> m.files[h] == HandleOf(files[h], h in open)
      requires fs.Safe() && fs.Exhausted() && dir in fs.chains && ClustersOk(fs.g, fs.chains[dir])
      requires NoneFreeIn(Blocks(fs.g, fs.disk, fs.chains[dir]), Sectors(fs.g, fs.chains[dir]))
      ensures Did(m, Now(), was, Create(f, dir, name), Answer(Full, []), contents)
    {
      hide VolumeSafe, Copy, DiskOk, ClustersOk, Sectors, Blocks, NoneFreeIn;
      forall h | h in files
        ensures m.files[h] == Now().files[h]
      {
        assert m.files[h] == HandleOf(files[h], h in open);
      }
      assert m.files == Now().files;
    }

    lemma DirTouchedNow(m: Moment, e: Dirent)
      requires EntryAdded(fs.g, m.disk, fs.disk, m.chains, fs.chains, e.dir, e.slot, e.offset)
      requires e.slot < Sectors(fs.g, m.chains[e.dir]) ==> SlotWasFree(fs.g, m.disk, m.chains[e.dir], e.slot, e.offset)
      requires GeometryOk(fs.g) && DiskOk(fs.g, m.disk) && fs.Sound()
      requires TableStep(Copy(fs.g, m.disk, 0), fs.Fat(), m.chains[e.dir], fs.chains[e.dir])
      ensures DirTouched(m, Now(), e)
    {}

    lemma AfterDelete(f: int, file: File, d: Disk, chains: Chains, was: Contents)
      requires fs.Linked() && f !in files && Separate() && f in was && contents == was - {f} && files.Keys == was.Keys - {f}
      requires open <= files.Keys
      requires f !in dirs && file.entry.id == f && file.entry.dir in dirs && EntryPlaced(fs.g, d, chains, file.entry)
      requires forall h :: h in files ==> EntriesDiffer(file.entry, files[h].entry)
      requires AllIntact(d, chains, was, f) && DirsOk(chains) && Numbered(chains, was.Keys) && f !in fs.chains
      requires FileKeptOthers(fs.g, d, fs.disk, chains, fs.chains, file.entry, WHOLE)
      requires exact ==> fs.MarksExact()
      ensures Valid()
    {
      hide Content, DiskOk, Copy, HandleOk, EntrySafe, VolumeSafe, FileKeptOthers, Capacity, Mirrored, ClustersOk, Live,
           Volume.Intact, Volume.FileOk;
      assert file.entry.offset % 32 == 0;
      hide EntryPlaced;
      OtherFiles(file.entry, d, chains, was);
      Recovered(was, f);
      DirsKept(file.entry, d, fs.disk, chains, fs.chains, was.Keys);
      assert contents.Keys == was.Keys - {f};
    }

    /** A new file in the directory `dir`, which may grow for it. */
    method CreateIn(f: int, dir: int, name: seq<int>) returns (st: Status)
      requires Valid() && Allowed(Now(), contents, Create(f, dir, name))
      modifies Objects()
      ensures !st.Failed?
      ensures !st.DeviceFailed? ==> Valid() && Did(old(Now()), Now(), old(contents), Create(f, dir, name), Answer(st, []), contents)
      ensures !st.DeviceFailed? ==> fresh(Objects() - old(Objects()))
      ensures st.DeviceFailed? ==> Survived(old(contents), f)
      ensures !st.DeviceFailed? ==> SpaceKept(old(Now()), Now())
      ensures fs.reliable ==> !st.DeviceFailed?
    {
      hide Volume.Valid, Volume.SpaceKept, Volume.Did, TableStep, Volume.FileTouched, Volume.DirTouched, NewOnDisk,
           Content, DiskOk, Copy, HandleOk, EntrySafe, VolumeSafe, FileKeptOthers, EntryPlaced, Capacity, Mirrored,
           ClustersOk, Live, Volume.Intact, Volume.DirsOk, Volume.Numbered, Volume.Survived, NoneFreeBelow, Gap;
      hide EntryAdded, SlotWasFree, EndsExactly, AllBytesOk, Sectors, EntriesDiffer, Volume.FileOk, ClusterBytes;
      Facts();
      DirReady(dir);
      ghost var d0, chains0, was, m := fs.disk, fs.chains, contents, Now();
      assert HandlesAre(m);
      NumberFree(f);
      ghost var all, held := files, open;
      assert AllKnown(all, held, d0, chains0, was);
      hide Volume.AllKnown, Volume.Distinguished, Volume.HandlesAre, Volume.Now;
      var file;
      ghost var e;
      st, file, e := CreateFile(fs, dirs[dir], name, dir, f);
      if st.Done? {
        SpaceNow(m);
        Join(f, file, name, m);
      } else if st.Full? {
        NothingChanged(d0, chains0, was);
        CreateStopped(m, was, f, dir, name);
        SpaceNow(m);
      } else {
        AfterFailedCreate(e, d0, chains0, was);
      }
    }

    /** The file that `create` opened joins the volume. */
    method Join(f: int, file: File, name: seq<int>, ghost m: Moment)
      requires fs.Linked() && DiskOk(fs.g, m.disk) && AllKnown(files, open, m.disk, m.chains, contents) && HandlesAre(m)
      requires Distinguished(files) && open <= files.Keys && f !in files && file !in files.Values
      requires file.fs == fs && file.entry.id == f && f !in dirs && file.entry.dir in dirs && f !in fs.chains && !file.isDirectory
      requires file.Valid() && file.fileSize == 0 && Live(fs.g, fs.disk, file.entry) && file.entry.offset % 32 == 0
      requires EntryAdded(fs.g, m.disk, fs.disk, m.chains, fs.chains, file.entry.dir, file.entry.slot, file.entry.offset)
      requires file.entry.slot < Sectors(fs.g, m.chains[file.entry.dir]) ==>
        SlotWasFree(fs.g, m.disk, m.chains[file.entry.dir], file.entry.slot, file.entry.offset)
      requires TableStep(Copy(fs.g, m.disk, 0), fs.Fat(), m.chains[file.entry.dir], fs.chains[file.entry.dir])
      requires NewOnDisk(fs.disk, file.entry, name) && SpaceKept(m, Now())
      requires DirsOk(m.chains) && Numbered(m.chains, contents.Keys) && (exact ==> fs.MarksExact())
      modifies this`files, this`open, this`contents
      ensures Valid() && files == old(files)[f := file]
      ensures Did(m, Now(), old(contents), Create(f, file.entry.dir, name), Answer(Done, []), contents)
      ensures SpaceKept(m, Now())
    {
      hide Volume.Did, TableStep, Volume.FileTouched, Volume.DirTouched, NewOnDisk, Content, DiskOk, Copy, HandleOk,
           EntrySafe, VolumeSafe, Capacity, Mirrored, ClustersOk, Live, Volume.Intact, Volume.DirsOk, Volume.Numbered,
           EntryAdded, SlotWasFree, Sectors, EntriesDiffer, Volume.FileOk, Volume.AllKnown, Volume.Distinguished,
           Volume.Valid, Volume.SpaceKept;
      ghost var all, held, was, before := files, open, contents, Now();
      assert f !in was by {
        KnownKeys(all, held, m.disk, m.chains, was);
      }
      files := files[f := file];
      open := open + {f};
      contents := contents[f := []];
      AfterCreate(f, file, all, held, m.disk, m.chains, was);
      DirTouchedNow(m, file.entry);
      CreateDid(m, was, f, file, file.entry.dir, name);
      SpaceAlike(m, before, Now());
    }

    lemma KnownKeys(all: map<int, File>, held: set<int>, d: Disk, chains: Chains, was: Contents)
      requires AllKnown(all, held, d, chains, was)
      ensures all.Keys == was.Keys
    {}

    /** The handles of all files are those of the moment `m`. */
    ghost predicate HandlesAre(m: Moment)
      reads this, Objects()
    {
      m.files.Keys == files.Keys && forall h {:trigger files[h]} :: h in files ==> m.files[h] == HandleOf(files[h], h in open)
    }

    lemma DirReady(dir: int)
      requires Valid() && dir in dirs && exact
      ensures dir in fs.chains && |fs.chains[dir]| > 0 && fs.chains[dir][0] == dirs[dir] && EndsExactly(fs.Fat(), fs.chains[dir])
    {
      hide Copy, DiskOk;
      assert IsChain(fs.Fat(), fs.chains[dir]);
    }

    lemma NumberFree(f: int)
      requires Valid() && f !in contents && f !in dirs && f !in others
      ensures f !in fs.chains && f !in files
    {}

    /** What is known of all files before a call, as long as none of them is worked on. */
    ghost predicate AllKnown(all: map<int, File>, held: set<int>, d: Disk, chains: Chains, was: Contents)
      reads all.Values
    {
      all.Keys == was.Keys && forall h {:trigger all[h]} :: h in all ==> Intact(all[h], h, h in held, d, chains, was[h])
    }

    lemma NothingChanged(d: Disk, chains: Chains, was: Contents)
      requires fs.Linked() && fs.disk == d && fs.chains == chains && contents == was && Separate()
      requires open <= files.Keys
      requires AllKnown(files, open, d, chains, was) && DirsOk(chains) && Numbered(chains, was.Keys) && (exact ==> fs.MarksExact())
      ensures Valid()
    {
      hide File.Valid, Volume.Intact, Volume.DirsOk, Volume.Numbered, Live, Volume.Distinguished;
      forall h | h in files
        ensures FileOk(h) && files[h].Bytes() == was[h]
      {
        assert Intact(files[h], h, h in open, d, chains, was[h]);
        StillBefore(h, was[h]);
      }
    }

    lemma AfterFailedCreate(e: Dirent, d: Disk, chains: Chains, was: Contents)
      requires e.dir in dirs && e.offset % 32 == 0 && e.id !in was && AllKnown(files, open, d, chains, was)
      requires EntryAdded(fs.g, d, fs.disk, chains, fs.chains, e.dir, e.slot, e.offset)
      requires e.slot < Sectors(fs.g, chains[e.dir]) ==> SlotWasFree(fs.g, d, chains[e.dir], e.slot, e.offset)
      ensures Survived(was, e.id)
    {
      assert fs.Safe();
      hide EntryAdded, SlotWasFree, Volume.Intact, Sectors, EntriesDiffer;
      forall h | h in files
        ensures Intact(files[h], h, h in open, fs.disk, fs.chains, was[h])
      {
        assert Intact(files[h], h, h in open, d, chains, was[h]);
        FileUnderAdding(e, h, d, chains, was[h]);
      }
    }

    lemma AfterCreate(f: int, file: File, all: map<int, File>, held: set<int>, d: Disk, chains: Chains, was: Contents)
      requires files == all[f := file] && open == held + {f} && held <= all.Keys && f !in was && contents == was[f := []]
      requires !file.isDirectory
      requires fs.Linked() && file.fs == fs && file.entry.id == f && f !in dirs && file.entry.dir in dirs && f !in fs.chains
      requires file.Valid() && file.fileSize == 0 && Live(fs.g, fs.disk, file.entry) && file.entry.offset % 32 == 0
      requires EntryAdded(fs.g, d, fs.disk, chains, fs.chains, file.entry.dir, file.entry.slot, file.entry.offset)
      requires file.entry.slot < Sectors(fs.g, chains[file.entry.dir]) ==>
        SlotWasFree(fs.g, d, chains[file.entry.dir], file.entry.slot, file.entry.offset)
      requires Distinguished(all) && AllKnown(all, held, d, chains, was) && file !in all.Values
      requires DirsOk(chains) && Numbered(chains, was.Keys) && (exact ==> fs.MarksExact())
      ensures Valid()
    {
      hide Content, DiskOk, Copy, HandleOk, EntrySafe, VolumeSafe, EntryAdded, Capacity, Mirrored, ClustersOk, Live,
           SlotWasFree, Volume.Intact, Volume.DirsOk, Volume.Numbered, File.Valid, Sectors, Volume.Distinguished;
      forall h | h in files && h != f
        ensures FileOk(h) && files[h].Bytes() == was[h] && EntriesDiffer(file.entry, files[h].entry)
      {
        assert files[h] == all[h] && Intact(all[h], h, h in held, d, chains, was[h]);
        FileUnderAdding(file.entry, h, d, chains, was[h]);
        StillBefore(h, was[h]);
      }
      DirsUnderAdding(file.entry, d, fs.disk, chains, fs.chains, was.Keys);
      assert contents.Keys == was.Keys + {f};
      EmptyBytes(file);
      assert FileOk(f);
      forall h | h in all
        ensures all[h] != file && EntriesDiffer(all[h].entry, file.entry)
      {
        assert files[h] == all[h];
      }
      StillApart(all, f, file);
    }

    lemma MoreNumbers(chains: Chains, known: set<int>, f: int)
      requires Numbered(chains, known)
      ensures Numbered(chains, known + {f})
    {}

    lemma StillApart(all: map<int, File>, f: int, file: File)
      requires Distinguished(all) && forall h :: h in all ==> all[h] != file && EntriesDiffer(all[h].entry, file.entry)
      ensures Distinguished(all[f := file])
    {}

    lemma EmptyBytes(file: File)
      requires file.Valid() && file.fileSize == 0
      ensures file.Bytes() == []
    {
      file.BytesLength();
    }

    lemma FileUnderAdding(e: Dirent, h: int, d: Disk, chains: Chains, bytes: seq<int>)
      requires h in files && Intact(files[h], h, h in open, d, chains, bytes) && e.offset % 32 == 0 && e.dir in dirs
      requires EntryAdded(fs.g, d, fs.disk, chains, fs.chains, e.dir, e.slot, e.offset)
      requires e.slot < Sectors(fs.g, chains[e.dir]) ==> SlotWasFree(fs.g, d, chains[e.dir], e.slot, e.offset)
      ensures Intact(files[h], h, h in open, fs.disk, fs.chains, bytes) && EntriesDiffer(e, files[h].entry)
    {
      FreeIsNotLive(fs.g, d, fs.disk, chains, fs.chains, e, files[h].entry);
      OtherEntryUnderAdding(fs.g, d, fs.disk, chains, fs.chains, e, files[h].entry);
      OtherBytesUnderAdding(fs.g, d, fs.disk, chains, fs.chains, e, h);
      hide Content, DiskOk, Copy, EntrySafe, EntryAdded, Live, SlotFree;
      assert HandleOk(fs.g, fs.chains, h, files[h].firstCluster, files[h].fileSize);
    }

    lemma DirsUnderAdding(e: Dirent, d: Disk, d': Disk, chains: Chains, chains': Chains, known: set<int>)
      requires EntryAdded(fs.g, d, d', chains, chains', e.dir, e.slot, e.offset) && e.dir in dirs
      requires DirsOk(chains) && Numbered(chains, known)
      ensures DirsOk(chains') && forall k :: known <= k ==> Numbered(chains', k)
    {
      hide VolumeSafe, ClustersOk, AllClustersOk, Blocks;
    }

    // -------------------------------------------------------------- runs of calls

    /** May the program make this call now? */
    method Permitted(op: Op) returns (yes: bool)
      requires Valid()
      ensures yes <==> Allowed(Now(), contents, op)
    {
      hide Volume.Valid, Volume.Sound, Volume.AllKnown, Volume.Separate, EntryPlaced, FirstOnDisk, DirentFirst,
           AllBytesOk, ClusterBytes, NameOk;
      Facts();
      match op {
      case ReadAt(f, p, len) =>
        yes := f in open && 0 <= p < 0x8000_0000 && 0 <= len && p + len < U32;
      case WriteAt(f, p, data) =>
        yes := f in open && 0 <= p < 0x8000_0000 && p + |data| < U32 && AllBytesOk(data);
      case Resize(f, size) =>
        yes := false;
        if f in open {
          KnownSize(f);
          yes := 0 <= size < U32 && (size <= files[f].fileSize || size + ClusterBytes(fs.g) - 1 < U32);
        }
      case SyncOf(f) =>
        yes := f in open;
      case CloseOf(f) =>
        yes := f in open;
      case Reopen(f) =>
        yes := f in files && f !in open;
      case Remove(f) =>
        yes := false;
        if f in files {
          KnownPlace(f);
          yes := DirentFirst(fs.disk[files[f].dirLba], files[f].dirOffset) == files[f].firstCluster;
        }
      case Create(f, dir, name) =>
        yes := exact && dir in dirs && f !in files && f !in dirs && f !in others && NameOk(name);
      }
    }

    lemma KnownPlace(f: int)
      requires Valid() && f in files
      ensures EntryPlaced(fs.g, fs.disk, fs.chains, files[f].entry) && 0 <= files[f].dirLba < |fs.disk|
      ensures 0 <= files[f].dirOffset && files[f].dirOffset + 32 <= |fs.disk[files[f].dirLba]|
      ensures DirentFirst(fs.disk[files[f].dirLba], files[f].dirOffset) == FirstOnDisk(fs.g, fs.disk, fs.chains, files[f].entry)
      ensures DirentSize(fs.disk[files[f].dirLba], files[f].dirOffset) == SizeOnDisk(fs.g, fs.disk, fs.chains, files[f].entry)
    {
      IntactNow(f);
      assert FileOk(f);
      PlacedInside(fs.g, fs.disk, fs.chains, files[f].entry);
    }

    lemma KnownSize(f: int)
      requires Valid() && f in files
      ensures f in contents && |contents[f]| == files[f].fileSize
    {
      hide Content, DiskOk, Copy, HandleOk, EntrySafe, VolumeSafe, Capacity, Mirrored, ClustersOk, Live;
      assert FileOk(f) && files[f].Bytes() == contents[f];
      files[f].BytesLength();
    }

    /** One call. */
    method Call(op: Op) returns (st: Status, bytes: seq<int>)
      requires Valid() && Allowed(Now(), contents, op)
      modifies Objects()
      ensures !st.DeviceFailed? ==> Valid() && Did(old(Now()), Now(), old(contents), op, Answer(st, bytes), contents)
      ensures !st.DeviceFailed? ==> fresh(Objects() - old(Objects()))
      ensures st.DeviceFailed? ==> Survived(old(contents), op.f)
      ensures !st.DeviceFailed? ==> SpaceKept(old(Now()), Now())
      ensures fs.reliable ==> !st.DeviceFailed?
    {
      hide Volume.Valid, Volume.Allowed, Volume.Did, Volume.Now, Volume.Survived, Volume.SpaceKept;
      assert Allowed(Now(), contents, op);
      bytes := [];
      match op {
      case ReadAt(f, p, len) =>
        st, bytes := Read(f, p, len);
      case WriteAt(f, p, data) =>
        st := Write(f, p, data);
      case Resize(f, size) =>
        st := Truncate(f, size);
      case SyncOf(f) =>
        st := Sync(f);
      case CloseOf(f) =>
        st := Close(f);
      case Reopen(f) =>
        st := OpenAgain(f);
      case Remove(f) =>
        st := Delete(f);
      case Create(f, dir, name) =>
        st := CreateIn(f, dir, name);
      }
    }

    /** One call of a run, or none when it is not allowed. */
    ghost predicate CallOk(m: Moment, m': Moment, c: Contents, c': Contents, op: Op, a: Answer) {
      if Allowed(m, c, op) then Did(m, m', c, op, a, c') else m' == m && c' == c
    }

    /** Every moment of a run, and every call in it. */
    ghost predicate RunOk(ops: seq<Op>, n: int, trace: seq<Contents>, moments: seq<Moment>, answers: seq<Answer>) {
      && 0 <= n <= |ops| && |trace| == |moments| == n + 1 && |answers| == n
      && (forall i :: 0 <= i <= n ==> MomentOk(moments[i], trace[i]) && SpaceKept(moments[0], moments[i]))
      && (forall i :: 0 <= i < n ==> CallOk(moments[i], moments[i + 1], trace[i], trace[i + 1], ops[i], answers[i]))
    }

    /** A run of calls, up to a failure of the device, which the files that the failed call is not on survive. */
    method Calls(ops: seq<Op>) returns (n: int, answers: seq<Answer>, ghost trace: seq<Contents>, ghost moments: seq<Moment>)
      requires Valid()
      modifies Objects()
      ensures RunOk(ops, n, trace, moments, answers) && trace[0] == old(contents) && moments[0] == old(Now())
      ensures n == |ops| ==> Valid() && contents == trace[n] && Now() == moments[n]
      ensures n < |ops| ==> Allowed(moments[n], trace[n], ops[n]) && Survived(trace[n], ops[n].f)
      ensures fs.reliable ==> n == |ops|
    {
      hide Volume.Valid, Volume.Did, Volume.MomentOk, Volume.SpaceKept, Volume.Survived, Volume.Allowed,
           NoneFreeBelow, Gap, Copy, DiskOk;
      n, answers := 0, [];
      trace, moments := [contents], [Now()];
      NowOk();
      SpaceSame(Now());
      while n < |ops|
        invariant RunOk(ops, n, trace, moments, answers) && Valid() && fs.Sound()
        invariant trace[0] == old(contents) && moments[0] == old(Now()) && contents == trace[n] && Now() == moments[n]
        invariant fresh(Objects() - old(Objects()))
      {
        var yes := Permitted(ops[n]);
        var st, bytes := Done, [];
        if yes {
          st, bytes := Call(ops[n]);
          if st.DeviceFailed? {
            return;
          }
        }
        NowOk();
        SpaceSame(Now());
        SpaceTrans(moments[0], moments[n], Now());
        answers, trace, moments := answers + [Answer(st, bytes)], trace + [contents], moments + [Now()];
        n := n + 1;
      }
    }

    lemma NowOk()
      requires Valid()
      ensures MomentOk(Now(), contents) && fs.Sound()
    {
      hide Volume.HandleIntact, VolumeSafe, Mirrored, Volume.DirsOk, Volume.Numbered, EntriesDiffer, File.Valid;
      forall f | f in contents
        ensures HandleIntact(Now().files[f], f, fs.disk, fs.chains, contents[f])
      {
        IntactNow(f);
      }
    }

    lemma SpaceSame(m: Moment)
      requires GeometryOk(fs.g) && DiskOk(fs.g, m.disk)
      ensures SpaceKept(m, m)
    {}

    lemma SpaceAlike(m: Moment, m1: Moment, m2: Moment)
      requires SpaceKept(m, m1) && m2.disk == m1.disk && m2.infoValid == m1.infoValid && m2.count == m1.count && m2.next == m1.next
      ensures SpaceKept(m, m2)
    {}

    lemma SpaceTrans(m0: Moment, m1: Moment, m2: Moment)
      requires SpaceKept(m0, m1) && SpaceKept(m1, m2)
      ensures SpaceKept(m0, m2)
    {}

    /** The free space information of now, seen from the moment `m`. */
    lemma SpaceNow(m: Moment)
      requires fs.Sound() && DiskOk(fs.g, m.disk) && fs.fsinfoValid == m.infoValid
      requires HintTrue(m) ==> fs.HintOk()
      requires fs.GapKept(m.count, Copy(fs.g, m.disk, 0), 0)
      ensures SpaceKept(m, Now())
    {
      hide Copy, NoneFreeBelow;
    }
  }

  /** Seeks to `p` and writes. */
  method WriteFile(file: File, p: int, data: seq<int>) returns (st: Status, ghost n: int)
    requires file.Valid() && 0 <= p < 0x8000_0000 && p + |data| < U32 && AllBytesOk(data)
    modifies file`firstCluster, file`filePos, file`fileSize,
             file.fs`disk, file.fs`sector, file.fs`secLba, file.fs`freeCount, file.fs`nextFree, file.fs`fsinfoDirty,
             file.fs`chains
    ensures 0 <= n <= |data| && (st.Done? ==> n == |data|) && (st.Full? ==> n < |data|) && !st.Failed?
    ensures !st.DeviceFailed? ==> file.Valid() && Overwritten(old(file.Bytes()), p, data[..n], file.Bytes())
    ensures FileKeptOthers(file.fs.g, old(file.fs.disk), file.fs.disk, old(file.fs.chains), file.fs.chains, file.entry, FIELDS)
    ensures st.DeviceFailed? ==> file.CrashSafe()
    ensures st.Full? ==> file.fs.Exhausted() && Capacity(file.fs.g, file.Chain()) <= p + n
    ensures !st.DeviceFailed? && old(file.fs.HintOk()) ==> file.fs.HintOk()
    ensures !st.DeviceFailed? && old(file.fs.MarksExact()) ==> file.fs.MarksExact()
    ensures !st.DeviceFailed? ==> file.fs.GapKept(old(file.fs.freeCount), old(file.fs.Fat()), 0)
    ensures !st.DeviceFailed? ==> TableStep(old(file.fs.Fat()), file.fs.Fat(), old(file.Chain()), file.Chain())
    ensures file.fs.reliable ==> !st.DeviceFailed?
  {
    hide TableStep, Content, DiskOk, Copy, EntrySafe, VolumeSafe, FileWrote, FileKeptOthers, Grown, EntryPlaced,
         Capacity, Mirrored, ClustersOk, Overwritten, NoneFreeBelow, Gap;
    ghost var g, d0, chains0, size0 := file.fs.g, file.fs.disk, file.fs.chains, file.fileSize;
    var sought := file.Lseek(p, SET);
    st := file.Write(data);
    n := file.filePos - p;
    WroteKept(g, d0, file.fs.disk, chains0, file.fs.chains, file.entry, p, data[..n]);
    if !st.DeviceFailed? {
      WriteIsOverwrite(g, d0, file.fs.disk, chains0, file.fs.chains, file.entry, p, data[..n], size0);
    }
  }

  /** Seeks to `p` and reads. */
  method ReadFile(file: File, p: int, len: int) returns (ok: bool, buffer: seq<int>)
    requires file.Valid() && 0 <= p < 0x8000_0000 && 0 <= len && p + len < U32
    modifies file`filePos, file.fs`sector, file.fs`secLba
    ensures ok ==> file.Valid() && file.Bytes() == old(file.Bytes()) && |file.Bytes()| == file.fileSize
    ensures ok ==> buffer == ReadFrom(file.Bytes(), p, len)
    ensures file.CrashSafe()
    ensures file.fs.reliable ==> ok
  {
    hide Content, DiskOk, Copy, EntrySafe, VolumeSafe, Mirrored, ClustersOk, HandleOk;
    var sought := file.Lseek(p, SET);
    ok, buffer := file.Read(len);
    if ok {
      file.BytesLength();
    }
  }

  /** A new handle from the directory entry of a closed file. */
  method OpenFile(last: File) returns (ok: bool, file: File)
    requires last.Valid() && last.EntryCurrent()
    modifies last.fs`sector, last.fs`secLba
    ensures ok ==> fresh(file) && last.fs.Linked() && file.fs == last.fs && file.entry == last.entry
    ensures ok ==> file.dirLba == last.dirLba && file.dirOffset == last.dirOffset && !file.isDirectory && file.filePos == 0
    ensures ok ==> file.firstCluster == last.firstCluster && file.fileSize == last.fileSize
    ensures last.fs.Safe() && (last.fs.reliable ==> ok)
  {
    hide DiskOk, Copy, VolumeSafe, Mirrored, HandleOk, DirentFirst, DirentSize;
    var fs := last.fs;
    file := last;
    ok := fs.LoadSector(last.dirLba);
    if ok {
      var first, size := DirentFirst(fs.sector, last.dirOffset), DirentSize(fs.sector, last.dirOffset);
      file := new File(fs, last.dirLba, last.dirOffset, false, first, size, last.entry);
    }
  }

  /** `sync`, in terms of the file's bytes. */
  method SyncFile(file: File) returns (ok: bool)
    requires file.Valid()
    modifies file.fs`disk, file.fs`sector, file.fs`secLba
    ensures ok ==> file.Valid() && file.Bytes() == old(file.Bytes()) && file.EntryCurrent()
    ensures FileKeptOthers(file.fs.g, old(file.fs.disk), file.fs.disk, file.fs.chains, file.fs.chains, file.entry, FIELDS)
    ensures !ok ==> file.CrashSafe()
    ensures ok && old(file.fs.HintOk()) ==> file.fs.HintOk()
    ensures ok && old(file.fs.MarksExact()) ==> file.fs.MarksExact()
    ensures ok ==> file.fs.GapKept(old(file.fs.freeCount), old(file.fs.Fat()), 0)
    ensures ok ==> TableStep(old(file.fs.Fat()), file.fs.Fat(), file.Chain(), file.Chain())
    ensures file.fs.reliable ==> ok
  {
    hide TableStep, DiskOk, Copy, EntrySafe, VolumeSafe, FileKeptOthers, EntryPlaced, Mirrored, ClustersOk, StartKept,
         Content, NoneFreeBelow, Gap, FirstOnDisk, SizeOnDisk, DirentUpdated;
    ghost var g, d0, chains0 := file.fs.g, file.fs.disk, file.fs.chains;
    file.BytesLength();
    ok := file.Sync();
    if ok {
      file.BytesLength();
      PrefixKept(g, d0, file.fs.disk, chains0, file.fs.chains, file.entry.id, file.fileSize);
    }
  }

  /** `close`, in terms of the file's bytes. */
  method CloseFile(file: File) returns (ok: bool)
    requires file.Valid() && !file.isDirectory
    modifies file`firstCluster, file.fs`disk, file.fs`sector, file.fs`secLba, file.fs`freeCount, file.fs`nextFree,
             file.fs`fsinfoDirty, file.fs`chains
    ensures ok ==> file.Valid() && file.Bytes() == old(file.Bytes()) && file.EntryCurrent()
    ensures ok ==> file.fs.chains == if file.fileSize == 0 then old(file.fs.chains) - {file.entry.id} else old(file.fs.chains)
    ensures FileKeptOthers(file.fs.g, old(file.fs.disk), file.fs.disk, old(file.fs.chains), file.fs.chains, file.entry, FIELDS)
    ensures ok && old(file.fs.HintOk()) ==> file.fs.HintOk()
    ensures ok && old(file.fs.MarksExact()) ==> file.fs.MarksExact()
    ensures ok ==> file.fs.GapKept(old(file.fs.freeCount), old(file.fs.Fat()), 0)
    ensures ok ==> TableStep(old(file.fs.Fat()), file.fs.Fat(), old(file.Chain()), file.Chain())
    ensures file.fs.reliable ==> ok
  {
    hide TableStep, DiskOk, Copy, EntrySafe, VolumeSafe, FileKeptOthers, EntryPlaced, Mirrored, ClustersOk, StartKept,
         Content, NoneFreeBelow, Gap, FirstOnDisk, SizeOnDisk;
    ghost var g, d0, chains0 := file.fs.g, file.fs.disk, file.fs.chains;
    file.BytesLength();
    ok := file.Close();
    if ok {
      file.BytesLength();
      PrefixKept(g, d0, file.fs.disk, chains0, file.fs.chains, file.entry.id, file.fileSize);
    }
  }

  /** `truncate`, in terms of the file's bytes. */
  method TruncateFile(file: File, size: int) returns (st: Status)
    requires file.Valid() && 0 <= size < U32 && (size <= file.fileSize || size + ClusterBytes(file.fs.g) - 1 < U32)
    modifies file`firstCluster, file`filePos, file`fileSize,
             file.fs`disk, file.fs`sector, file.fs`secLba, file.fs`freeCount, file.fs`nextFree, file.fs`fsinfoDirty,
             file.fs`chains
    ensures !st.DeviceFailed? ==> file.Valid() && |old(file.Bytes())| == old(file.fileSize)
    ensures st.Done? ==> |file.Bytes()| == size
    ensures st.Done? ==>
      if size < old(file.fileSize) then file.Bytes() == old(file.Bytes())[..size] else old(file.Bytes()) <= file.Bytes()
    ensures st.Full? ==> file.Bytes() == old(file.Bytes()) && size > old(file.fileSize)
    ensures FileKeptOthers(file.fs.g, old(file.fs.disk), file.fs.disk, old(file.fs.chains), file.fs.chains, file.entry, FIELDS)
    ensures ClusterBytes(file.fs.g) > 0 && !st.Failed?
    ensures st.DeviceFailed? && !old(file.Cuts(size)) ==> file.CrashSafe()
    ensures st.Full? ==> file.fs.Exhausted() && |file.Chain()| < Most(1, ClustersWanted(file.fs.g, size))
    ensures !st.DeviceFailed? && old(file.fs.HintOk()) ==> file.fs.HintOk()
    ensures !st.DeviceFailed? && old(file.fs.MarksExact()) ==> file.fs.MarksExact()
    ensures !st.DeviceFailed? ==> file.fs.GapKept(old(file.fs.freeCount), old(file.fs.Fat()), 0)
    ensures !st.DeviceFailed? ==> TableStep(old(file.fs.Fat()), file.fs.Fat(), old(file.Chain()), file.Chain())
    ensures file.fs.reliable ==> !st.DeviceFailed?
  {
    hide TableStep, DiskOk, Copy, EntrySafe, VolumeSafe, FileKeptOthers, EntryPlaced, Mirrored, ClustersOk, StartKept,
         Content, ClusterBytes, NoneFreeBelow, Gap;
    ghost var g, d0, chains0, size0 := file.fs.g, file.fs.disk, file.fs.chains, file.fileSize;
    file.BytesLength();
    st := file.Truncate(size);
    if !st.DeviceFailed? {
      file.BytesLength();
      PrefixKept(g, d0, file.fs.disk, chains0, file.fs.chains, file.entry.id, if size < size0 then size else size0);
    }
  }

  lemma PrefixKept(g: Geometry, d: Disk, d': Disk, chains: Chains, chains': Chains, f: int, n: int)
    requires StartKept(g, d, d', chains, chains', f, n)
    ensures GeometryOk(g) && DiskOk(g, d) && DiskOk(g, d') && ClustersOk(g, ChainOf(chains, f)) && ClustersOk(g, ChainOf(chains', f))
    ensures var a, b := Content(g, d, ChainOf(chains, f)), Content(g, d', ChainOf(chains', f));
      && 0 <= n <= |a| && n <= |b| && b[..n] == a[..n]
      && forall m, k :: 0 <= n <= m <= |a| && n <= k <= |b| ==> b[..k][..n] == a[..m][..n]
  {}

  lemma HandleFits(g: Geometry, d: Disk, chains: Chains, f: int, first: int, size: int)
    requires HandleOk(g, chains, f, first, size) && VolumeSafe(g, d, chains)
    ensures 0 <= size <= Capacity(g, ChainOf(chains, f)) && ClustersOk(g, ChainOf(chains, f)) && DiskOk(g, d)
  {
    ChainFacts(g, d, chains, f);
  }

  lemma WroteKept(g: Geometry, d: Disk, d': Disk, chains: Chains, chains': Chains, e: Dirent, p: int, data: seq<int>)
    requires FileWrote(g, d, d', chains, chains', e, p, data)
    ensures FileKeptOthers(g, d, d', chains, chains', e, FIELDS)
    ensures ClustersOk(g, ChainOf(chains, e.id)) && ClustersOk(g, ChainOf(chains', e.id))
    ensures DiskOk(g, d) && DiskOk(g, d') && GeometryOk(g)
  {}
}
