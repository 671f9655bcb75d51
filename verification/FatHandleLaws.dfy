/** What recording an open file in its slot means for the listing of its directory. */
module FatHandleLaws {
  import opened Bytes
  import opened FatChains
  import opened FatContents
  import opened FatVolume
  import opened FatFiles
  import opened FatSlots
  import opened FatListing
  import opened FatDirectory
  import opened FatDirectoryLaws
  import opened FatRuns

  /** Slot `idx` of the directory, at that place, is the slot of a listed entry. */
  ghost predicate ListedAt(v: Vol, dir: seq<nat>, idx: nat, cluster: nat, offset: nat)
    requires InTable(v.data, dir) && 0 < v.clusterSize
  {
    && SlotPlace(dir, v.clusterSize, idx, cluster, offset)
    && idx < |DirRoles(v, dir)| && DirRoles(v, dir)[idx].Item?
    && forall j :: 0 <= j < idx ==> !DirRoles(v, dir)[j].End?
  }

  /** How many entries are listed before slot `idx`. */
  ghost function Rank(v: Vol, dir: seq<nat>, idx: nat): nat
    requires InTable(v.data, dir) && idx <= |DirRoles(v, dir)|
  {
    |Listing(DirRoles(v, dir)[..idx], 0, [])|
  }

  /** The size the directory shows for an open file: 32 bits of it, and none for a directory. */
  function KnownSize(h: FileHandle): nat
    reads h
  {
    if IsDirectory(h.attributes) then 0 else h.size % 0x1_0000_0000
  }

  // ---------------------------------------------------------------- one slot

  /** A cluster with one slot rewritten, as a store of 32 bytes. */
  lemma {:induction false} SlotUpdateIsStore(d: seq<u8>, at: nat, attributes: u8, firstCluster: nat, size: nat)
    requires at + 32 <= |d| && firstCluster < U32_LIMIT && size < U32_LIMIT
    ensures var r := SlotUpdated(d, at, attributes, firstCluster, size);
            r == Overlay(d, at, r[at..at + 32])
  {
    hide SlotUpdated;
    SlotUpdatedReads(d, at, attributes, firstCluster, size);
    var r := SlotUpdated(d, at, attributes, firstCluster, size);
    assert r[..at] == r[..at + 11][..at] == d[..at + 11][..at] == d[..at];
    assert r == r[..at] + r[at..at + 32] + r[at + 32..];
  }

  /** A slot's fields, read in its cluster or in the slot. */
  lemma {:induction false} FieldsOfSlot(d: seq<u8>, at: nat)
    requires at + 32 <= |d|
    ensures var slot := d[at..at + 32];
            && SlotAttributes(slot, 0) == SlotAttributes(d, at)
            && SlotFirstCluster(slot, 0) == SlotFirstCluster(d, at)
            && SlotSize(slot, 0) == SlotSize(d, at)
  {
    hide FromLE;
    SliceOfSlice(d, at, at + 32, 20, 22);
    SliceOfSlice(d, at, at + 32, 26, 28);
    SliceOfSlice(d, at, at + 32, 28, 32);
  }

  /** A rewritten slot of an entry is that entry's slot still, under its name. */
  lemma {:induction false} RewrittenRole(d: seq<u8>, at: nat, attributes: u8, firstCluster: nat, size: nat, idx: nat)
    requires at + 32 <= |d| && firstCluster < U32_LIMIT && size < U32_LIMIT
    requires RoleOf(d[at..at + 32], idx).Item? && !IsVolumeLabel(attributes)
    ensures RoleOf(d[at..at + 32], idx).entry.index == idx
    ensures RoleOf(SlotUpdated(d, at, attributes, firstCluster, size)[at..at + 32], idx) ==
            Item(Entry(RoleOf(d[at..at + 32], idx).entry.name, attributes, firstCluster, size, idx))
  {
    hide SlotUpdated, FatNames.Decoded;
    var r := SlotUpdated(d, at, attributes, firstCluster, size);
    SlotUpdatedReads(d, at, attributes, firstCluster, size);
    FieldsOfSlot(r, at);
    assert r[at..at + 32][..11] == r[..at + 11][at..] == d[..at + 11][at..] == d[at..at + 32][..11];
    assert r[at..at + 32][0] == r[at..at + 32][..11][0] && d[at..at + 32][0] == d[at..at + 32][..11][0];
  }

  // ---------------------------------------------------------------- the directory

  /** The role of a directory's slot, read in the cluster that holds it. */
  lemma {:induction false} RoleInCluster(v: Vol, dir: seq<nat>, idx: nat, cluster: nat, offset: nat)
    requires WellFormed(v) && IsChain(v.fat, dir) && v.clusterSize % 32 == 0
    requires SlotPlace(dir, v.clusterSize, idx, cluster, offset)
    ensures InTable(v.data, dir) && idx < |DirRoles(v, dir)| && cluster < |v.data|
    ensures offset + 32 <= |v.data[cluster]|
    ensures DirRoles(v, dir)[idx] == RoleOf(v.data[cluster][offset..offset + 32], idx)
  {
    hide RoleOf, Roles, ChainBytes, IsChain, IndexOf, Within, Span;
    var size, k := v.clusterSize, IndexOf(32 * idx, v.clusterSize);
    SlotPlaced(v, dir, idx, cluster, offset);
    SlotIndexSplits(idx, size);
    ClusterHoldsRoles(v, dir, k);
    assert SlotHere(DirRoles(v, dir), v.data[cluster], k, SlotBase(k, size / 32), offset / 32);
  }

  /** A slot stored in a directory changes the role of that slot only. */
  lemma {:induction false} StoredRoles(v: Vol, dir: seq<nat>, idx: nat, v': Vol, slot: seq<u8>)
    requires WellFormed(v) && IsChainOrNil(v.fat, dir) && v.clusterSize % 32 == 0 && |slot| == 32
    requires WriteStep(v, dir, v', dir, 32 * idx, slot)
    ensures InTable(v.data, dir) && InTable(v'.data, dir)
    ensures |DirRoles(v', dir)| == |DirRoles(v, dir)|
    ensures forall j :: 0 <= j < |DirRoles(v, dir)| && j != idx ==> DirRoles(v', dir)[j] == DirRoles(v, dir)[j]
  {
    hide RoleOf, ChainBytes, FileStep, IsChain;
    var b, b' := ChainBytes(v.data, dir), ChainBytes(v'.data, dir);
    assert WellFormed(v') && v'.clusterSize == v.clusterSize && IsChainOrNil(v'.fat, dir) by {
      StepIsWellFormed(v, dir, v', dir);
    }
    DirectoryAligned(v, dir);
    ChainIsSized(v, dir);
    ChainIsSized(v', dir);
    ChainBytesLength(v.data, dir, v.clusterSize);
    ChainBytesLength(v'.data, dir, v.clusterSize);
    forall j | 0 <= j < |b| / 32 && j != idx
      ensures Roles(b')[j] == Roles(b)[j]
    {
      OtherSlot(b, b', idx, slot, j);
    }
  }

  lemma {:induction false} StepIsWellFormed(v: Vol, s: seq<nat>, v': Vol, s': seq<nat>)
    requires FileStep(v, s, v', s')
    ensures WellFormed(v') && v'.clusterSize == v.clusterSize && IsChainOrNil(v'.fat, s')
  {
  }

  /** Rewriting the slot of a listed entry changes exactly that entry of the listing, which
      then has what was recorded; a directory is recorded without a size. */
  lemma {:induction false} UpdatedListing(v: Vol, dir: seq<nat>, idx: nat, cluster: nat, offset: nat, attributes: u8,
                                          firstCluster: nat, size: nat, v': Vol)
    requires WellFormed(v) && IsChain(v.fat, dir) && v.clusterSize % 32 == 0 && InTable(v.data, dir)
    requires ListedAt(v, dir, idx, cluster, offset)
    requires 2 <= cluster < |v.fat| && offset + 32 <= v.clusterSize
    requires firstCluster < U32_LIMIT && size < U32_LIMIT && !IsVolumeLabel(attributes)
    requires v' == EntryUpdated(v, cluster, offset, attributes, firstCluster, size)
    ensures InTable(v'.data, dir) && Rank(v, dir, idx) < |DirListing(v, dir)|
    ensures var k, es := Rank(v, dir, idx), DirListing(v, dir);
            && es[k].index == idx
            && DirListing(v', dir) ==
               es[k := Entry(es[k].name, attributes, firstCluster, if IsDirectory(attributes) then 0 else size, idx)]
  {
    hide RoleOf, Roles, Listing, SlotUpdated, WriteStep, IsChain, ChainBytes, SlotPlace;
    var recorded := if IsDirectory(attributes) then 0 else size;
    var x := SlotUpdated(v.data[cluster], offset, attributes, firstCluster, recorded);
    var slot := x[offset..offset + 32];
    SlotUpdateIsStore(v.data[cluster], offset, attributes, firstCluster, recorded);
    SlotStored(v, dir, idx, cluster, offset, slot);
    RoleInCluster(v, dir, idx, cluster, offset);
    StoredRoles(v, dir, idx, v', slot);
    RewrittenRole(v.data[cluster], offset, attributes, firstCluster, recorded, idx);
    RoleInCluster(v', dir, idx, cluster, offset);
    ItemReplaced(DirRoles(v, dir), DirRoles(v', dir), idx, attributes, firstCluster, recorded);
  }

  /** What flushing a handle records is 32 bytes stored in one cluster, an event of the volume. */
  lemma {:induction false} RecordedIsEvent(h: FileHandle, w: World) returns (e: Event)
    requires WellFormed(w.vol) && h.hasEntry && h.firstCluster < U32_LIMIT
    requires 2 <= h.entryCluster < |w.vol.fat| && h.entryOffset + 32 <= w.vol.clusterSize
    ensures e.Record? && e.cluster == h.entryCluster && e.offset == h.entryOffset && |e.slot| == 32
    ensures Next(w, e, World(h.Recorded(w.vol), w.files))
  {
    hide SlotUpdated;
    var d, size := w.vol.data[h.entryCluster], KnownSize(h);
    SlotUpdateIsStore(d, h.entryOffset, h.attributes, h.firstCluster, size);
    var r := SlotUpdated(d, h.entryOffset, h.attributes, h.firstCluster, size);
    e := Record(h.entryCluster, h.entryOffset, r[h.entryOffset..h.entryOffset + 32]);
  }

  /** The same for what flushing a handle records. */
  lemma {:induction false} RecordedListing(h: FileHandle, v: Vol, dir: seq<nat>, idx: nat)
    requires WellFormed(v) && IsChain(v.fat, dir) && v.clusterSize % 32 == 0 && InTable(v.data, dir)
    requires h.hasEntry && h.firstCluster < U32_LIMIT && !IsVolumeLabel(h.attributes)
    requires h.entryCluster < |v.fat| && h.entryOffset + 32 <= v.clusterSize
    requires ListedAt(v, dir, idx, h.entryCluster, h.entryOffset)
    ensures InTable(h.Recorded(v).data, dir) && Rank(v, dir, idx) < |DirListing(v, dir)|
    ensures var k, es := Rank(v, dir, idx), DirListing(v, dir);
            && es[k].index == idx
            && DirListing(h.Recorded(v), dir) ==
               es[k := Entry(es[k].name, h.attributes, h.firstCluster, KnownSize(h), idx)]
  {
    ChainInRange(v.fat, dir);
    UpdatedListing(v, dir, idx, h.entryCluster, h.entryOffset, h.attributes, h.firstCluster,
                   h.size % 0x1_0000_0000, h.Recorded(v));
  }

  /** A listed entry shows the fields of its slot, read in the cluster that holds it. */
  lemma {:induction false} EntryInCluster(v: Vol, dir: seq<nat>, idx: nat, cluster: nat, offset: nat)
    requires WellFormed(v) && IsChain(v.fat, dir) && v.clusterSize % 32 == 0 && InTable(v.data, dir)
    requires ListedAt(v, dir, idx, cluster, offset)
    ensures Rank(v, dir, idx) < |DirListing(v, dir)|
    ensures cluster < |v.data| && offset + 32 <= |v.data[cluster]|
    ensures var e, d := DirListing(v, dir)[Rank(v, dir, idx)], v.data[cluster];
            e == Entry(e.name, SlotAttributes(d, offset), SlotFirstCluster(d, offset), SlotSize(d, offset), idx)
  {
    hide Roles, Listing, IsChain, ChainBytes, SlotPlace, Pending, FatNames.Decoded;
    RoleInCluster(v, dir, idx, cluster, offset);
    FieldsOfSlot(v.data[cluster], offset);
    ListingAround(DirRoles(v, dir), idx);
  }

  /** A slot that records what the handle knows is listed so. */
  lemma {:induction false} SyncedListing(h: FileHandle, dir: seq<nat>, idx: nat)
    requires h.Valid() && h.Synced() && h.hasEntry && !h.dirty
    requires IsChain(h.fs.view.fat, dir) && InTable(h.fs.view.data, dir)
    requires ListedAt(h.fs.view, dir, idx, h.entryCluster, h.entryOffset)
    ensures Rank(h.fs.view, dir, idx) < |DirListing(h.fs.view, dir)|
    ensures var e := DirListing(h.fs.view, dir)[Rank(h.fs.view, dir, idx)];
            e == Entry(e.name, h.attributes, h.firstCluster, KnownSize(h), idx)
  {
    hide Roles, Listing, IsChain, ChainBytes, ListedAt, Rank, SlotFirstCluster, SlotSize;
    EntryInCluster(h.fs.view, dir, idx, h.entryCluster, h.entryOffset);
  }

  /** Closes a handle and lists the directory of its file: exactly the file's entry has
      changed, and it shows what the handle knew. */
  method CloseThenList(h: FileHandle, dirCluster: nat, ghost dir: seq<nat>, ghost idx: nat)
    returns (entries: seq<DirectoryEntryInfo>)
    requires h.Valid() && h.Synced() && !h.closed && h.hasEntry && !IsVolumeLabel(h.attributes)
    requires h.fs.StartsAt(dirCluster, dir) && dir != [] && InTable(h.fs.view.data, dir)
    requires ListedAt(h.fs.view, dir, idx, h.entryCluster, h.entryOffset)
    modifies h, h.fs, h.fs.disk
    ensures InTable(old(h.fs.view).data, dir)
    ensures var k, es := Rank(old(h.fs.view), dir, idx), DirListing(old(h.fs.view), dir);
            && k < |es| && es[k].index == idx
            && AllLocated(entries, es[k := Entry(es[k].name, h.attributes, h.firstCluster, KnownSize(h), idx)], dir,
                          old(h.fs.view).clusterSize)
    ensures h.size == old(h.size) && h.firstCluster == old(h.firstCluster)
  {
    hide Roles, Listing, IsChain, ChainBytes, AllLocated, SlotPlace;
    ghost var v := h.fs.view;
    StartInRange(v.fat, dir);
    ChainInRange(v.fat, h.chain);
    if h.dirty {
      RecordedListing(h, v, dir, idx);
    } else {
      SyncedListing(h, dir, idx);
    }
    ghost var k, es, recorded := Rank(v, dir, idx), DirListing(v, dir), h.Recorded(v);
    ghost var shown := es[k := Entry(es[k].name, h.attributes, h.firstCluster, KnownSize(h), idx)];
    assert h.dirty ==> DirListing(recorded, dir) == shown;
    assert !h.dirty ==> es == shown;
    var _ := h.Close();
    assert h.fs.view == v || h.fs.view == recorded;
    assert InTable(h.fs.view.data, dir) && DirListing(h.fs.view, dir) == shown;
    var ok;
    ok, entries := ReadDirectory(h.fs, dirCluster, dir);
  }
}
