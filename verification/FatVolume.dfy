/** The mounted FAT32 volume: chain operations on a byte device, entry by entry. */
module FatVolume {
  import opened Bytes
  import opened FatChains
  import opened FatContents
  import opened FatGeometry
  import opened FatSlots

  class Volume {
    const g: Geometry
    /** The backing device, whose transfers succeed. */
    const disk: array<u8>
    /** The reserved bytes of the FSInfo sector as they were read at mount. */
    const fsInfoReserved: seq<u8>
    /** The FSInfo fields the driver keeps up to date. */
    var freeClusterCount: nat
    var nextFreeCluster: nat

    /** The abstract volume on the device. */
    ghost var view: Vol
    /** The tables agreed when the volume was mounted. */
    ghost const mirrored: bool

    /** In particular tables that agreed at mount agree now. */
    ghost predicate Valid()
      reads this, disk
    {
      && Represents(g, disk[..], view.fat, view.data)
      && WellFormed(view)
      && view.clusterSize == g.ClusterSize()
      && view.freeCount == freeClusterCount
      && view.nextFree == nextFreeCluster < U32_LIMIT
      && |fsInfoReserved| == 492
      && (mirrored ==> CopiesAgree(g, disk[..]))
    }

    constructor (g: Geometry, disk: array<u8>, fsInfoReserved: seq<u8>, freeClusterCount: nat, nextFreeCluster: nat,
                 ghost fat: seq<nat>, ghost data: seq<seq<u8>>)
      requires Represents(g, disk[..], fat, data)
      requires |fsInfoReserved| == 492
      requires freeClusterCount < U32_LIMIT && nextFreeCluster < U32_LIMIT
      ensures Valid()
      ensures this.g == g && this.disk == disk
      ensures view == Vol(g.ClusterSize(), fat, data, nextFreeCluster, freeClusterCount)
      ensures mirrored == CopiesAgree(g, disk[..])
    {
      this.g := g;
      this.disk := disk;
      this.fsInfoReserved := fsInfoReserved;
      this.freeClusterCount := freeClusterCount;
      this.nextFreeCluster := nextFreeCluster;
      this.view := Vol(g.ClusterSize(), fat, data, nextFreeCluster, freeClusterCount);
      this.mirrored := CopiesAgree(g, disk[..]);
      ClustersSized(g, disk[..], fat, data);
    }

    method ReadSectors(sector: nat, count: nat) returns (buffer: seq<u8>)
      requires 512 * (sector + count) <= disk.Length
      ensures buffer == disk[512 * sector..512 * (sector + count)]
    {
      buffer := disk[512 * sector..512 * (sector + count)];
    }

    method WriteSectors(sector: nat, buffer: seq<u8>)
      requires 512 * sector + |buffer| <= disk.Length
      modifies disk
      ensures disk[..] == Overlay(old(disk[..]), 512 * sector, buffer)
    {
      forall i | 0 <= i < |buffer| {
        disk[512 * sector + i] := buffer[i];
      }
    }

    // ------------------------------------------------------------ FAT entries

    /** Sector and offset of a FAT entry, by the driver's 32-bit formulas. */
    method LocateEntry(table: nat, cluster: nat) returns (fatSector: nat, at: nat)
      requires Fits(g, disk[..]) && table < g.tableCount && cluster < g.totalClusters + 2
      ensures at + 4 <= 512 && 512 * fatSector + at == g.EntryAt(table, cluster)
      ensures 512 * fatSector + 512 <= disk.Length
    {
      hide Geometry.Sound, Geometry.FatSector, Geometry.FatEntryOffset, Geometry.EntryAt;
      EntryAddressed(g, table, cluster);
      ClusterBelowBad(g, cluster);
      EntryInSector(g, cluster);
      fatSector := g.FatSector(table, cluster);
      at := g.FatEntryOffset(cluster);
    }

    method ReadFatEntry(cluster: nat) returns (next: nat)
      requires Valid() && cluster < g.totalClusters + 2
      ensures next == view.fat[cluster]
    {
      var fatSector, at := LocateEntry(0, cluster);
      var sector := ReadSectors(fatSector, 1);
      EntryRead(disk[..], fatSector, at, g.EntryAt(0, cluster));
      assert Holds(g, disk[..], view.fat, view.data, cluster);
      next := Low28(Le32(sector, at));
    }

    method EncodeWord(v: nat) returns (w: seq<u8>)
      requires v < U32_LIMIT
      ensures w == Enc32(v)
    {
      EncIsToLE(v, 4);
      w := ToLE(v, 4);
    }

    /** One round of the update: read the copy's sector, merge, write it back. */
    method WriteEntryOfTable(table: nat, cluster: nat, value: nat)
      requires Fits(g, disk[..]) && table < g.tableCount && cluster < g.totalClusters + 2
      modifies disk
      ensures Fits(g, disk[..]) && g.EntryAt(table, cluster) + 4 <= disk.Length
      ensures Merged(RawEntry(g, old(disk[..]), table, cluster), value) < U32_LIMIT
      ensures disk[..] == Overlay(old(disk[..]), g.EntryAt(table, cluster),
                                  Enc32(Merged(RawEntry(g, old(disk[..]), table, cluster), value)))
    {
      var fatSector, at := LocateEntry(table, cluster);
      var sector := ReadSectors(fatSector, 1);
      EntryRead(disk[..], fatSector, at, g.EntryAt(table, cluster));
      EntryBound(g, disk[..], table, cluster);
      MergedIsMask(RawEntry(g, disk[..], table, cluster), value);
      var raw := EncodeWord(Merged(Le32(sector, at), value));
      EntryStore(disk[..], fatSector, at, g.EntryAt(table, cluster), raw);
      WriteSectors(fatSector, Overlay(sector, at, raw));
    }

    /** Every copy is read, merged under its own top four bits and written back. */
    method PatchTables(cluster: nat, value: nat)
      requires Fits(g, disk[..]) && cluster < g.totalClusters + 2
      modifies disk
      ensures disk[..] == Patched(g, old(disk[..]), cluster, value, g.tableCount)
    {
      hide RawEntry, Merged, Overlay, Geometry.Sound;
      for table := 0 to g.tableCount
        invariant Fits(g, disk[..])
        invariant disk[..] == Patched(g, old(disk[..]), cluster, value, table)
      {
        WriteEntryOfTable(table, cluster, value);
      }
    }

    /** One entry of the FAT changes, in all copies; nothing else does. */
    method WriteFatEntry(cluster: nat, value: nat)
      requires Valid() && cluster < g.totalClusters + 2
      modifies `view, disk
      ensures Valid()
      ensures view == old(view).(fat := old(view).fat[cluster := Low28(value)])
      ensures CopiesAgree(g, old(disk[..])) ==> CopiesAgree(g, disk[..])
    {
      PatchTables(cluster, value);
      PatchedMeaning(g, old(disk[..]), view.fat, view.data, cluster, value);
      view := view.(fat := view.fat[cluster := Low28(value)]);
    }

    // ------------------------------------------------------------ clusters

    /** First sector of a cluster, by the driver's 32-bit formula. */
    method LocateCluster(cluster: nat) returns (sector: nat)
      requires Valid() && 2 <= cluster < g.totalClusters + 2
      ensures 512 * sector == g.ClusterAt(cluster)
      ensures 512 * sector + g.ClusterSize() <= disk.Length
    {
      ClusterAddressed(g, cluster);
      sector := g.ClusterToSector(cluster);
    }

    method ReadCluster(cluster: nat) returns (buffer: seq<u8>)
      requires Valid() && 2 <= cluster < g.totalClusters + 2
      ensures buffer == view.data[cluster]
    {
      var sector := LocateCluster(cluster);
      assert Holds(g, disk[..], view.fat, view.data, cluster);
      buffer := ReadSectors(sector, g.sectorsPerCluster);
    }

    method WriteCluster(cluster: nat, buffer: seq<u8>)
      requires Valid() && 2 <= cluster < g.totalClusters + 2 && |buffer| == g.ClusterSize()
      modifies `view, disk
      ensures Valid()
      ensures view == old(view).(data := old(view).data[cluster := buffer])
      ensures CopiesAgree(g, old(disk[..])) ==> CopiesAgree(g, disk[..])
    {
      var sector := LocateCluster(cluster);
      ClusterWriteMeaning(g, disk[..], view.fat, view.data, cluster, buffer);
      WriteSectors(sector, buffer);
      view := view.(data := view.data[cluster := buffer]);
    }

    method ZeroCluster(cluster: nat)
      requires Valid() && 2 <= cluster < g.totalClusters + 2
      modifies `view, disk
      ensures Valid()
      ensures view == old(view).(data := old(view).data[cluster := Zeros(view.clusterSize)])
      ensures CopiesAgree(g, old(disk[..])) ==> CopiesAgree(g, disk[..])
    {
      WriteCluster(cluster, Zeros(g.ClusterSize()));
    }

    /** Stores the hints in the FSInfo sector, which is neither table nor cluster: reading
        them back at the next mount gives the same two. */
    method SyncFsInfo()
      requires Valid()
      modifies disk
      ensures Valid() && view == old(view)
      ensures CopiesAgree(g, old(disk[..])) ==> CopiesAgree(g, disk[..])
      ensures g.fsInfoSector != 0 && freeClusterCount < U32_LIMIT ==>
                StoredHints(g, disk[..]) == Hints(freeClusterCount, nextFreeCluster)
    {
      hide FsInfoSector, HintsOf, Overlay, CopiesAgree;
      if g.fsInfoSector == 0 {
        return;
      }
      var sector := FsInfoSector(fsInfoReserved, freeClusterCount, nextFreeCluster);
      WriteReserved(g.fsInfoSector, sector);
      StoredSector(old(disk[..]), 512 * g.fsInfoSector, sector);
      if freeClusterCount < 0x1_0000_0000 {
        FsInfoRoundTrip(fsInfoReserved, freeClusterCount, nextFreeCluster);
      }
    }

    method WriteReserved(sector: nat, buffer: seq<u8>)
      requires Valid() && sector < g.reservedSectorCount && |buffer| == 512
      modifies disk
      ensures Valid() && view == old(view)
      ensures CopiesAgree(g, old(disk[..])) ==> CopiesAgree(g, disk[..])
      ensures 512 * sector + 512 <= disk.Length
      ensures disk[..] == Overlay(old(disk[..]), 512 * sector, buffer)
    {
      ReservedWriteMeaning(g, disk[..], view.fat, view.data, 512 * sector, buffer);
      WriteSectors(sector, buffer);
    }

    // ------------------------------------------------------------ chains

    /** What follows a successful search: mark the cluster, zero it, move the hints. */
    method TakeCluster(cluster: nat)
      requires Valid() && 2 <= cluster < g.totalClusters + 2
      modifies this, disk
      ensures Valid()
      ensures view == Allocated(old(view), cluster)
    {
      WriteFatEntry(cluster, END_MARK);
      ZeroCluster(cluster);
      nextFreeCluster := cluster + 1;
      if nextFreeCluster >= g.totalClusters + 2 {
        nextFreeCluster := 2;
      }
      if freeClusterCount != COUNT_UNKNOWN && freeClusterCount > 0 {
        freeClusterCount := freeClusterCount - 1;
      }
      view := view.(nextFree := nextFreeCluster, freeCount := freeClusterCount);
      SyncFsInfo();
    }

    method AllocateCluster() returns (ok: bool, outCluster: nat)
      requires Valid()
      modifies this, disk
      ensures Valid()
      ensures AllocateStep(old(view), view, ok, outCluster)
      ensures ok ==> FirstFreeFrom(old(view).fat, old(view).nextFree, outCluster)
      ensures ok ==> view.nextFree == if outCluster + 1 < |view.fat| then outCluster + 1 else 2
      ensures ok ==> view.freeCount ==
                     if old(view).freeCount in {0, 0xFFFF_FFFF} then old(view).freeCount else old(view).freeCount - 1
    {
      var n := g.totalClusters;
      ghost var v := view;
      outCluster := 0;
      var start := if 2 <= nextFreeCluster < n + 2 then nextFreeCluster else 2;
      for i := 0 to n
        invariant Valid() && view == v
        invariant forall j: nat :: j < i ==> v.fat[Candidate(v, j)] != FREE_CLUSTER
      {
        var cluster := 2 + (start - 2 + i) % n;
        CandidateIsFormula(v, i);
        var value := ReadFatEntry(cluster);
        if value != FREE_CLUSTER {
          continue;
        }
        FirstFreeAt(v, i, cluster);
        SearchFollowsHint(v, cluster);
        TakeCluster(cluster);
        outCluster := cluster;
        ok := true;
        return;
      }
      SearchIsExhaustive(v);
      ok := false;
    }

    /** One round of the freeing loop: read the link, release the cluster, count it. */
    method ReleaseCluster(current: nat) returns (next: nat)
      requires Valid() && 2 <= current < g.totalClusters + 2
      modifies this, disk
      ensures Valid()
      ensures next == old(view).fat[current]
      ensures view == old(view).(fat := old(view).fat[current := FREE_CLUSTER],
                                     freeCount := ReturnOne(old(view).freeCount))
    {
      next := ReadFatEntry(current);
      WriteFatEntry(current, FREE_CLUSTER);
      if freeClusterCount != COUNT_UNKNOWN {
        freeClusterCount := (freeClusterCount + 1) % 0x1_0000_0000;
      }
      view := view.(freeCount := freeClusterCount);
    }

    method FreeClusterChain(firstCluster: nat)
      requires Valid() && LinksStay(view.fat)
      requires firstCluster < |view.fat| || END_OF_CHAIN <= firstCluster
      modifies this, disk
      ensures Valid()
      ensures view == FreeWalk(old(view), firstCluster)
    {
      if firstCluster < 2 {
        return;
      }
      var current: nat := firstCluster;
      ghost var v := view;
      while 2 <= current && current < END_OF_CHAIN
        invariant Valid() && LinksStay(view.fat)
        invariant current < |view.fat| || END_OF_CHAIN <= current
        invariant FreeWalk(view, current) == FreeWalk(v, firstCluster)
        decreases TakenEntries(view.fat), if current < |view.fat| then 1 else 0
      {
        ghost var before := view;
        var next := ReleaseCluster(current);
        if next == BAD_CLUSTER || next == FREE_CLUSTER {
          assert view == FreeWalk(before, current);
          break;
        }
        ReleaseShrinks(before.fat, current);
        current := next;
      }
      SyncFsInfo();
    }

    /** `chain` is the chain at `startCluster`; nil stands for a file without clusters. */
    ghost predicate StartsAt(startCluster: nat, chain: seq<nat>)
      requires Valid()
      reads this, disk
    {
      && IsChainOrNil(view.fat, chain)
      && (if chain == [] then startCluster < 2 else startCluster == chain[0])
    }

    /** Follows the chain to its last cluster. */
    method FindLastCluster(startCluster: nat, ghost chain: seq<nat>) returns (ok: bool, current: nat)
      requires Valid() && IsChain(view.fat, chain) && startCluster == chain[0]
      ensures ok && current == chain[|chain| - 1]
    {
      current := startCluster;
      ghost var fat := view.fat;
      ghost var k := 0;
      while true
        invariant 0 <= k < |chain| && current == chain[k]
        decreases |chain| - k
      {
        ChainAt(fat, chain, k);
        var next := ReadFatEntry(current);
        if next >= END_OF_CHAIN {
          break;
        }
        if next == FREE_CLUSTER || next == BAD_CLUSTER {
          return false, current;
        }
        current := next;
        k := k + 1;
      }
      ok := true;
    }

    method AllocateAndLink(current: nat, ghost chain: seq<nat>) returns (ok: bool, newCluster: nat)
      requires Valid() && chain != [] && current == chain[|chain| - 1] < g.totalClusters + 2
      modifies this, disk
      ensures Valid()
      ensures ok ==> 2 <= newCluster < |old(view).fat| && IsFirstFree(old(view), newCluster)
      ensures ok ==> view == Linked(old(view), chain, newCluster)
      ensures !ok ==> view == old(view) && FreeEntries(view.fat) == 0
    {
      ok, newCluster := AllocateCluster();
      if ok {
        WriteFatEntry(current, newCluster);
      }
    }

    /** On success the first free cluster in circular order is linked behind the
        chain; the only failure is a volume with nothing free. */
    method ExtendClusterChain(startCluster: nat, ghost chain: seq<nat>) returns (ok: bool, newCluster: nat)
      requires Valid() && StartsAt(startCluster, chain)
      modifies this, disk
      ensures Valid()
      ensures ok ==> 2 <= newCluster < |old(view).fat| && IsFirstFree(old(view), newCluster)
      ensures chain != [] ==> chain[|chain| - 1] < |old(view).fat|
      ensures ok ==> view == Linked(old(view), chain, newCluster)
      ensures !ok ==> view == old(view) && FreeEntries(view.fat) == 0
    {
      ChainInRange(view.fat, chain);
      if startCluster < 2 {
        ok, newCluster := AllocateCluster();
        return;
      }
      newCluster := 0;
      var current: nat;
      ok, current := FindLastCluster(startCluster, chain);
      if !ok {
        return;
      }
      ok, newCluster := AllocateAndLink(current, chain);
    }

    /** One round of a lookup: from the k-th cluster of the chain to the next one,
        linking a fresh cluster behind the chain when it ends here. */
    method NextCluster(firstCluster: nat, cluster: nat, allocateIfMissing: bool, ghost chain: seq<nat>, ghost k: nat)
      returns (ok: bool, next: nat, ghost chain': seq<nat>)
      requires Valid() && StartsAt(firstCluster, chain)
      requires k < |chain| && cluster == chain[k]
      modifies this, disk
      ensures Valid() && StartsAt(firstCluster, chain')
      ensures Grown(old(view), chain, view, chain')
      ensures ok ==> |chain'| == Max(|chain|, k + 2) && next == chain'[k + 1]
      ensures !ok ==> view == old(view) && chain' == chain
      ensures !allocateIfMissing ==> unchanged(this) && unchanged(disk) && chain' == chain
      ensures !ok ==> |chain| == k + 1
      ensures !ok && allocateIfMissing ==> FreeEntries(view.fat) == 0
    {
      ghost var v := view;
      chain' := chain;
      GrownRefl(v, chain);
      ChainAt(v.fat, chain, k);
      next := ReadFatEntry(cluster);
      if next >= END_OF_CHAIN {
        if !allocateIfMissing {
          ok := false;
          return;
        }
        ok, next := ExtendClusterChain(firstCluster, chain);
        if !ok {
          return;
        }
        LinkedIsGrown(v, chain, next);
        chain' := chain + [next];
      }
      if next == FREE_CLUSTER || next == BAD_CLUSTER {
        ok := false;
        return;
      }
      ok := true;
    }

    /** Walks `steps` links from the first cluster, linking fresh clusters as needed. */
    method FollowChain(firstCluster: nat, steps: nat, allocateIfMissing: bool, ghost chain: seq<nat>)
      returns (ok: bool, cluster: nat, ghost chain': seq<nat>)
      requires Valid() && StartsAt(firstCluster, chain) && chain != []
      modifies this, disk
      ensures Valid() && StartsAt(firstCluster, chain')
      ensures Grown(old(view), chain, view, chain')
      ensures ok ==> |chain'| == Max(|chain|, steps + 1) && cluster == chain'[steps]
      ensures !allocateIfMissing ==> unchanged(this) && unchanged(disk) && chain' == chain
      ensures !ok ==> |chain'| <= steps && (allocateIfMissing ==> FreeEntries(view.fat) == 0)
    {
      ghost var v := view;
      chain' := chain;
      GrownRefl(v, chain);
      ok := true;
      cluster := firstCluster;
      for k := 0 to steps
        invariant Valid() && StartsAt(firstCluster, chain') && Grown(v, chain, view, chain')
        invariant |chain'| == Max(|chain|, k + 1) && cluster == chain'[k]
        invariant !allocateIfMissing ==> unchanged(this) && unchanged(disk) && chain' == chain
        invariant ok
      {
        ghost var w, s := view, chain';
        ok, cluster, chain' := NextCluster(firstCluster, cluster, allocateIfMissing, s, k);
        GrownTrans(v, chain, w, s, view, chain');
        if !ok {
          return;
        }
      }
    }

    /** The cluster that holds byte `offset` of the chain. In allocating mode the
        chain grows by as many zeroed clusters as it takes, and the call fails only
        when the volume is full, keeping what was already linked. */
    method GetClusterForOffset(firstCluster: nat, offset: nat, allocateIfMissing: bool, ghost chain: seq<nat>)
      returns (ok: bool, outCluster: nat, ghost chain': seq<nat>)
      requires Valid() && StartsAt(firstCluster, chain)
      modifies this, disk
      ensures Valid() && StartsAt(firstCluster, chain')
      ensures Grown(old(view), chain, view, chain')
      ensures ok ==>
                IndexOf(offset, g.ClusterSize()) < |chain'| && outCluster == chain'[IndexOf(offset, g.ClusterSize())]
      ensures ok ==> |chain'| == Max(|chain|, IndexOf(offset, g.ClusterSize()) + 1)
      ensures !allocateIfMissing ==> unchanged(this) && unchanged(disk) && chain' == chain
      ensures !ok ==> |chain'| <= IndexOf(offset, g.ClusterSize())
      ensures !ok && allocateIfMissing && chain != [] ==> FreeEntries(view.fat) == 0
    {
      ChainInRange(view.fat, chain);
      if firstCluster < 2 {
        GrownRefl(view, chain);
        ok, outCluster, chain' := false, 0, chain;
        return;
      }
      IndexIsQuotient(offset, g.ClusterSize());
      var index: nat := offset / g.ClusterSize();
      ok, outCluster, chain' := FollowChain(firstCluster, index, allocateIfMissing, chain);
    }

    // ------------------------------------------------------------ directory slots

    /** Rewrites attributes, first cluster and size of one slot in place. */
    method UpdateDirectoryEntry(entryCluster: nat, entryOffset: nat, attributes: u8, firstCluster: nat, size: nat)
      requires Valid()
      requires 2 <= entryCluster ==> entryCluster < g.totalClusters + 2 && entryOffset + 32 <= g.ClusterSize()
      requires firstCluster < U32_LIMIT && size < U32_LIMIT
      modifies `view, disk
      ensures Valid()
      ensures view == EntryUpdated(old(view), entryCluster, entryOffset, attributes, firstCluster, size)
    {
      if entryCluster < 2 {
        return;
      }
      var clusterData := ReadCluster(entryCluster);
      var hi := EncodeHalf(firstCluster / 0x1_0000);
      var lo := EncodeHalf(firstCluster % 0x1_0000);
      var recorded := EncodeWord(RecordedSize(attributes, size));
      clusterData := Overlay(clusterData, entryOffset + 11, [attributes]);
      clusterData := Overlay(clusterData, entryOffset + 20, hi);
      clusterData := Overlay(clusterData, entryOffset + 26, lo);
      clusterData := Overlay(clusterData, entryOffset + 28, recorded);
      WriteCluster(entryCluster, clusterData);
    }

    method EncodeHalf(v: nat) returns (w: seq<u8>)
      requires v < 0x1_0000
      ensures w == Enc16(v)
    {
      EncIsToLE(v, 2);
      w := ToLE(v, 2);
    }
  }

  /** The volume with one directory slot rewritten. */
  ghost function EntryUpdated(v: Vol, entryCluster: nat, entryOffset: nat, attributes: u8, firstCluster: nat,
                              size: nat): Vol
    requires WellFormed(v) && firstCluster < U32_LIMIT && size < U32_LIMIT
    requires 2 <= entryCluster ==> entryCluster < |v.fat| && entryOffset + 32 <= v.clusterSize
  {
    if entryCluster < 2 then v
    else
      v.(data := v.data[entryCluster :=
           SlotUpdated(v.data[entryCluster], entryOffset, attributes, firstCluster, RecordedSize(attributes, size))])
  }

  lemma {:induction false} EntryRead(d: seq<u8>, fatSector: nat, at: nat, pos: nat)
    requires 512 * fatSector + 512 <= |d| && at + 4 <= 512
    requires 512 * fatSector + at == pos
    ensures Le32(d[512 * fatSector..512 * fatSector + 512], at) == Le32(d, pos)
  {
    hide FromLE;
    SliceOfSlice(d, 512 * fatSector, 512 * fatSector + 512, at, at + 4);
  }

  lemma {:induction false} EntryStore(d: seq<u8>, fatSector: nat, at: nat, pos: nat, w: seq<u8>)
    requires 512 * fatSector + 512 <= |d| && at + |w| <= 512
    requires 512 * fatSector + at == pos
    ensures Overlay(d, 512 * fatSector, Overlay(d[512 * fatSector..512 * fatSector + 512], at, w)) == Overlay(d, pos, w)
  {
    OverlayWindow(d, 512 * fatSector, 512 * fatSector + 512, at, w);
  }

  /** The FSInfo sector the driver writes: three signatures and the two hints
      between the reserved bytes. */
  function FsInfoSector(reserved: seq<u8>, freeCount: nat, nextFree: nat): (s: seq<u8>)
    requires |reserved| == 492
    ensures |s| == 512
  {
    ToLE(0x4161_5252, 4) + reserved[..480] + ToLE(0x6141_7272, 4) + ToLE(freeCount, 4) + ToLE(nextFree, 4) +
    reserved[480..] +
    ToLE(0xAA55_0000, 4)
  }

  datatype Hints = Hints(freeCount: nat, nextFree: nat)

  const NO_HINTS: Hints := Hints(0xFFFF_FFFF, 2)

  /** The hints of an FSInfo sector; without its three signatures nothing is known. */
  function HintsOf(sector: seq<u8>): Hints
    requires |sector| == 512
  {
    if Le32(sector, 0) != 0x4161_5252 || Le32(sector, 484) != 0x6141_7272 || Le32(sector, 508) != 0xAA55_0000
    then NO_HINTS
    else Hints(Le32(sector, 488), Le32(sector, 492))
  }

  /** The hints mounting would find on the device. */
  ghost function StoredHints(g: Geometry, d: seq<u8>): Hints {
    if g.fsInfoSector == 0 || |d| < 512 * g.fsInfoSector + 512 then NO_HINTS
    else HintsOf(d[512 * g.fsInfoSector..512 * g.fsInfoSector + 512])
  }

  method ReadFsInfo(g: Geometry, disk: array<u8>) returns (hints: Hints)
    requires 512 * g.fsInfoSector + 512 <= disk.Length
    ensures hints == StoredHints(g, disk[..])
  {
    if g.fsInfoSector == 0 {
      return NO_HINTS;
    }
    hints := HintsOf(disk[512 * g.fsInfoSector..512 * g.fsInfoSector + 512]);
  }

  /** Where the sector's fields lie. */
  lemma {:induction false} FsInfoLayout(reserved: seq<u8>, freeCount: nat, nextFree: nat)
    requires |reserved| == 492 && freeCount < U32_LIMIT && nextFree < U32_LIMIT
    ensures var s := FsInfoSector(reserved, freeCount, nextFree);
            && Le32(s, 0) == 0x4161_5252 && Le32(s, 484) == 0x6141_7272 && Le32(s, 508) == 0xAA55_0000
            && Le32(s, 488) == freeCount && Le32(s, 492) == nextFree
            && s[4..484] == reserved[..480] && s[496..508] == reserved[480..]
  {
    hide FromLE, ToLE;
    var s := FsInfoSector(reserved, freeCount, nextFree);
    WordBytes(0x4161_5252);
    WordBytes(0x6141_7272);
    WordBytes(freeCount);
    WordBytes(nextFree);
    WordBytes(0xAA55_0000);
    assert s[0..4] == ToLE(0x4161_5252, 4);
    assert s[484..488] == ToLE(0x6141_7272, 4);
    assert s[488..492] == ToLE(freeCount, 4);
    assert s[492..496] == ToLE(nextFree, 4);
    assert s[508..512] == ToLE(0xAA55_0000, 4);
  }

  /** The hints written are the hints read. */
  lemma {:induction false} FsInfoRoundTrip(reserved: seq<u8>, freeCount: nat, nextFree: nat)
    requires |reserved| == 492 && freeCount < U32_LIMIT && nextFree < U32_LIMIT
    ensures HintsOf(FsInfoSector(reserved, freeCount, nextFree)) == Hints(freeCount, nextFree)
  {
    hide FromLE, FsInfoSector;
    FsInfoLayout(reserved, freeCount, nextFree);
  }

  lemma {:induction false} WordBytes(v: nat)
    requires v < U32_LIMIT
    ensures FromLE(ToLE(v, 4)) == v
  {
    assert Pow256(4) == U32_LIMIT;
    FromLEOfToLE(v, 4);
  }

  lemma {:induction false} StoredSector(d: seq<u8>, at: nat, sector: seq<u8>)
    requires at + |sector| <= |d|
    ensures Overlay(d, at, sector)[at..at + |sector|] == sector
  {
  }
}
