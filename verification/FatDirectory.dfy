/** Directories on the volume: listing one, finding a free slot, creating an entry with the
    cluster of a new directory, and removing an entry, each proved against the directory's bytes
    and the listing these stand for. */
module FatDirectory {
  import opened Bytes
  import opened Options
  import opened FatChains
  import opened FatContents
  import opened FatGeometry
  import opened FatVolume
  import opened FatFiles
  import opened FatSlots
  import opened FatNames
  import opened FatListing

  /** What the driver keeps about a directory entry. */
  datatype DirectoryEntryInfo = Info(
    name: seq<u8>,
    attributes: u8,
    firstCluster: nat,
    size: nat,
    parentDirectoryCluster: nat,
    directoryEntryCluster: nat,
    directoryEntryOffset: nat,
    directoryEntryIndex: nat)

  /** `info` is the listed entry `e`, with the place of its slot in the chain. */
  ghost predicate Located(info: DirectoryEntryInfo, e: Entry, chain: seq<nat>, size: nat)
    requires 0 < size && chain != []
  {
    && info.name == e.name && info.attributes == e.attributes
    && info.firstCluster == e.firstCluster && info.size == e.size
    && info.directoryEntryIndex == e.index
    && info.parentDirectoryCluster == chain[0]
    && IndexOf(32 * e.index, size) < |chain|
    && info.directoryEntryCluster == chain[IndexOf(32 * e.index, size)]
    && info.directoryEntryOffset == Within(32 * e.index, size)
  }

  ghost predicate AllLocated(infos: seq<DirectoryEntryInfo>, es: seq<Entry>, chain: seq<nat>, size: nat)
    requires 0 < size && chain != []
  {
    |infos| == |es| && forall k :: 0 <= k < |infos| ==> Located(infos[k], es[k], chain, size)
  }

  // ---------------------------------------------------------------- one slot

  method AppendLongChars(part: seq<u8>, chars: seq<nat>) returns (out: seq<u8>)
    ensures out == part + LongChars(chars)
  {
    out := part;
    for i := 0 to |chars|
      invariant out + LongChars(chars[i..]) == part + LongChars(chars)
    {
      var c := chars[i];
      assert chars[i..][1..] == chars[i + 1..];
      if c == 0 {
        return;
      }
      if c == 0xFFFF {
        continue;
      }
      out := out + [c % 0x100];
    }
  }

  method ReadLongPart(slot: seq<u8>) returns (part: seq<u8>)
    requires |slot| == 32
    ensures part == LongPart(slot)
  {
    part := AppendLongChars([], LongField(slot, 0, 5));
    assert part == LongChars(LongField(slot, 0, 5));
    part := AppendLongChars(part, LongField(slot, 5, 11));
    part := AppendLongChars(part, LongField(slot, 11, 13));
    part := CString(part);
  }

  method ReadShortEntry(slot: seq<u8>, index: nat) returns (e: Entry)
    requires |slot| == 32
    ensures e == EntryOf(slot, index)
  {
    var name := ShortNameToString(slot[..11]);
    e := Entry(name, SlotAttributes(slot, 0), SlotFirstCluster(slot, 0), SlotSize(slot, 0), index);
  }

  /** The tests a listing makes on one slot, in order. */
  method ClassifySlot(slot: seq<u8>, index: nat) returns (role: Role)
    requires |slot| == 32
    ensures role == RoleOf(slot, index)
  {
    if slot[0] == 0 {
      return End;
    }
    if slot[0] == ENTRY_DELETED {
      return Deleted;
    }
    if slot[11] == ATTRIBUTE_LONG_NAME {
      var part := ReadLongPart(slot);
      return LongName(part);
    }
    if IsVolumeLabel(slot[11]) {
      return VolumeLabel;
    }
    var e := ReadShortEntry(slot, index);
    role := Item(e);
  }

  // ---------------------------------------------------------------- positions

  /** Slot `j` of the k-th cluster, `clusterData`, is slot `index + j` of the directory. */
  ghost predicate SlotHere(roles: seq<Role>, clusterData: seq<u8>, k: nat, index: nat, j: nat)
    requires 32 * j + 32 <= |clusterData| && 0 < |clusterData|
  {
    && index + j < |roles|
    && roles[index + j] == RoleOf(clusterData[32 * j..32 * j + 32], index + j)
    && IndexOf(32 * (index + j), |clusterData|) == k
    && Within(32 * (index + j), |clusterData|) == 32 * j
  }

  ghost predicate SlotsHere(roles: seq<Role>, clusterData: seq<u8>, k: nat, index: nat)
    requires 0 < |clusterData|
  {
    forall j :: 0 <= j < |clusterData| / 32 ==> SlotHere(roles, clusterData, k, index, j)
  }

  lemma {:induction false} AppendLocated(infos: seq<DirectoryEntryInfo>, es: seq<Entry>, info: DirectoryEntryInfo,
                                         e: Entry, chain: seq<nat>, size: nat)
    requires 0 < size && chain != []
    requires AllLocated(infos, es, chain, size) && Located(info, e, chain, size)
    ensures AllLocated(infos + [info], es + [e], chain, size)
  {
  }

  /** The k-th cluster of a directory's chain holds its slots from `index` on. */
  lemma {:induction false} ClusterSlots(b: seq<u8>, clusterData: seq<u8>, k: nat, index: nat)
    requires 0 < |clusterData| && |clusterData| % 32 == 0
    requires 32 * index == Span(k, |clusterData|)
    requires 32 * index + |clusterData| <= |b|
    requires clusterData == b[32 * index..32 * index + |clusterData|]
    ensures SlotsHere(Roles(b), clusterData, k, index)
  {
    forall j | 0 <= j < |clusterData| / 32
      ensures SlotHere(Roles(b), clusterData, k, index, j)
    {
      ClusterSlot(b, clusterData, k, index, j);
    }
  }

  lemma {:induction false} ClusterSlot(b: seq<u8>, clusterData: seq<u8>, k: nat, index: nat, j: nat)
    requires 0 < |clusterData| && |clusterData| % 32 == 0 && 32 * j + 32 <= |clusterData|
    requires 32 * index == Span(k, |clusterData|)
    requires 32 * index + |clusterData| <= |b|
    requires clusterData == b[32 * index..32 * index + |clusterData|]
    ensures SlotHere(Roles(b), clusterData, k, index, j)
  {
    hide RoleOf, Span;
    PositionInCluster(|clusterData|, k, 32 * j);
    SliceOfSlice(b, 32 * index, 32 * index + |clusterData|, 32 * j, 32 * j + 32);
    RoleAtSlot(b, index + j, clusterData[32 * j..32 * j + 32]);
    assert 32 * (index + j) == Span(k, |clusterData|) + 32 * j;
  }

  lemma {:induction false} RoleAtSlot(b: seq<u8>, i: nat, slot: seq<u8>)
    requires 32 * i + 32 <= |b| && slot == b[32 * i..32 * i + 32]
    ensures i < |Roles(b)| && Roles(b)[i] == RoleOf(slot, i)
  {
  }

  // ---------------------------------------------------------------- listing

  /** What one slot does to the entries and to the long name collected so far. */
  method TakeSlot(role: Role, found: seq<DirectoryEntryInfo>, pending: seq<u8>, firstCluster: nat, currentCluster: nat,
                  offset: nat, index: nat, ghost acc: seq<Entry>, ghost chain: seq<nat>, ghost size: nat)
    returns (entries: seq<DirectoryEntryInfo>, lfn: seq<u8>, ghost acc': seq<Entry>)
    requires 0 < size && chain != [] && firstCluster == chain[0]
    requires !role.End? && (role.Item? ==> role.entry.index == index)
    requires IndexOf(32 * index, size) < |chain| && currentCluster == chain[IndexOf(32 * index, size)]
    requires offset == Within(32 * index, size)
    requires AllLocated(found, acc, chain, size)
    ensures AllLocated(entries, acc', chain, size)
    ensures acc' == acc + Collected(role, pending) && lfn == PendingAfter(role, pending)
  {
    entries, lfn, acc' := found, [], acc;
    match role {
      case Deleted =>
      case LongName(part) =>
        lfn := part + pending;
      case VolumeLabel =>
      case Item(e) =>
        var info := Info(if pending == [] then e.name else pending, e.attributes, e.firstCluster, e.size, firstCluster,
                         currentCluster, offset, index);
        ghost var listed := Named(e, pending);
        AppendLocated(found, acc, info, listed, chain, size);
        entries := entries + [info];
        acc' := acc + [listed];
    }
  }

  method ReadRole(clusterData: seq<u8>, j: nat, index: nat, ghost roles: seq<Role>, ghost k: nat) returns (role: Role)
    requires 32 * j + 32 <= |clusterData| && SlotHere(roles, clusterData, k, index, j)
    ensures index + j < |roles| && role == roles[index + j]
    ensures role.Item? ==> role.entry.index == index + j
    ensures IndexOf(32 * (index + j), |clusterData|) == k && Within(32 * (index + j), |clusterData|) == 32 * j
  {
    role := ClassifySlot(clusterData[32 * j..32 * j + 32], index + j);
  }

  /** The listing loop over one cluster. `acc` are the entries found so far, in the
      terms of the specification. */
  method ScanCluster(clusterData: seq<u8>, currentCluster: nat, firstCluster: nat, index: nat,
                     found: seq<DirectoryEntryInfo>, pending: seq<u8>,
                     ghost roles: seq<Role>, ghost chain: seq<nat>, ghost k: nat, ghost acc: seq<Entry>)
    returns (ended: bool, entries: seq<DirectoryEntryInfo>, lfn: seq<u8>, ghost acc': seq<Entry>)
    requires 0 < |clusterData|
    requires k < |chain| && currentCluster == chain[k] && firstCluster == chain[0]
    requires SlotsHere(roles, clusterData, k, index)
    requires AllLocated(found, acc, chain, |clusterData|)
    ensures AllLocated(entries, acc', chain, |clusterData|)
    ensures acc' + (if ended then [] else Listing(roles, index + |clusterData| / 32, lfn)) ==
            acc + Listing(roles, index, pending)
  {
    entries, lfn, acc' := found, pending, acc;
    for i := 0 to |clusterData| / 32
      invariant AllLocated(entries, acc', chain, |clusterData|)
      invariant acc' + Listing(roles, index + i, lfn) == acc + Listing(roles, index, pending)
    {
      var role := ReadRole(clusterData, i, index, roles, k);
      if role.End? {
        ended := true;
        return;
      }
      ListingStep(acc', roles, index + i, lfn);
      entries, lfn, acc' := TakeSlot(role, entries, lfn, firstCluster, currentCluster, 32 * i, index + i, acc', chain,
                                     |clusterData|);
    }
    ended := false;
  }

  /** First slot of a directory's k-th cluster. */
  ghost function SlotBase(k: nat, perCluster: nat): nat {
    if k == 0 then 0 else SlotBase(k - 1, perCluster) + perCluster
  }

  /** The k-th cluster of the chain holds its share of `roles`. */
  ghost predicate ClusterHolds(v: Vol, chain: seq<nat>, roles: seq<Role>, k: nat)
    requires WellFormed(v) && k < |chain| && 2 <= chain[k] < |v.fat|
  {
    SlotsHere(roles, v.data[chain[k]], k, SlotBase(k, v.clusterSize / 32))
  }

  /** The chain's clusters hold the roles of the directory's slots, cluster by cluster. */
  ghost predicate HoldsRoles(v: Vol, chain: seq<nat>, roles: seq<Role>) {
    && WellFormed(v) && IsChain(v.fat, chain)
    && (forall k :: 0 <= k < |chain| ==> 2 <= chain[k] < |v.fat|)
    && (forall k :: 0 <= k < |chain| ==> ClusterHolds(v, chain, roles, k))
    && |roles| == SlotBase(|chain|, v.clusterSize / 32)
  }

  lemma {:induction false} SlotBaseScaled(k: nat, size: nat)
    requires size % 32 == 0
    ensures 32 * SlotBase(k, size / 32) == Span(k, size)
  {
    if k > 0 {
      SlotBaseScaled(k - 1, size);
    }
  }

  lemma {:induction false} DirectoryHoldsRoles(v: Vol, chain: seq<nat>)
    requires WellFormed(v) && IsChain(v.fat, chain) && v.clusterSize % 32 == 0
    ensures InTable(v.data, chain)
    ensures HoldsRoles(v, chain, Roles(ChainBytes(v.data, chain)))
  {
    var size := v.clusterSize;
    ChainIsSized(v, chain);
    ChainInRange(v.fat, chain);
    forall k | 0 <= k < |chain|
      ensures ClusterHolds(v, chain, Roles(ChainBytes(v.data, chain)), k)
    {
      ClusterHoldsRoles(v, chain, k);
    }
    SlotBaseScaled(|chain|, size);
    ChainBytesLength(v.data, chain, size);
  }

  lemma {:induction false} ClusterHoldsRoles(v: Vol, chain: seq<nat>, k: nat)
    requires WellFormed(v) && IsChain(v.fat, chain) && v.clusterSize % 32 == 0 && k < |chain|
    ensures InTable(v.data, chain) && 2 <= chain[k] < |v.fat|
    ensures ClusterHolds(v, chain, Roles(ChainBytes(v.data, chain)), k)
  {
    ChainIsSized(v, chain);
    ChainInRange(v.fat, chain);
    ClusterSlice(v.data, chain, k, v.clusterSize);
    ClusterSlots(ChainBytes(v.data, chain), v.data[chain[k]], k, SlotBase(k, v.clusterSize / 32));
  }

  lemma {:induction false} ClusterSlice(data: seq<seq<u8>>, chain: seq<nat>, k: nat, size: nat)
    requires Sized(data, chain, size) && k < |chain| && size % 32 == 0
    ensures InTable(data, chain)
    ensures 32 * SlotBase(k, size / 32) == Span(k, |data[chain[k]]|)
    ensures 32 * SlotBase(k, size / 32) + size <= |ChainBytes(data, chain)|
    ensures ChainBytes(data, chain)[32 * SlotBase(k, size / 32)..32 * SlotBase(k, size / 32) + size] == data[chain[k]]
  {
    SlotBaseScaled(k, size);
    ChainBytesCluster(data, chain, k, size);
  }

  lemma {:induction false} StartInRange(fat: seq<nat>, s: seq<nat>)
    requires IsChainOrNil(fat, s)
    ensures s != [] ==> 2 <= s[0] && IsChain(fat, s)
  {
    ChainInRange(fat, s);
  }

  /** Lists a directory: on a well-formed chain the entries are exactly those its
      bytes stand for, each with the place of its slot. */
  method ReadDirectory(fs: Volume, firstCluster: nat, ghost chain: seq<nat>)
    returns (ok: bool, entries: seq<DirectoryEntryInfo>)
    requires fs.Valid() && fs.StartsAt(firstCluster, chain)
    ensures ok == (chain != [])
    ensures ok ==> InTable(fs.view.data, chain) &&
                   AllLocated(entries, Listing(Roles(ChainBytes(fs.view.data, chain)), 0, []), chain,
                              fs.view.clusterSize)
    ensures ok ==> AllMatchSlots(entries, ChainBytes(fs.view.data, chain))
    ensures ok ==> forall i: nat :: Shown(entries, i) <==> SlotListed(ChainBytes(fs.view.data, chain), i)
    ensures ok ==> InSlotOrder(entries)
  {
    hide HoldsRoles, Listing, Roles, ChainBytes, AllLocated, InTable, IsChain, Represents;
    StartInRange(fs.view.fat, chain);
    if firstCluster < 2 {
      return false, [];
    }
    DirectoryHoldsRoles(fs.view, chain);
    ok, entries := ScanChain(fs, firstCluster, chain, Roles(ChainBytes(fs.view.data, chain)));
    LocatedIsRecorded(entries, ChainBytes(fs.view.data, chain), chain, fs.view.clusterSize);
  }

  /** The entry has the attributes, first cluster and size in the bytes of its slot. */
  ghost predicate MatchesSlot(info: DirectoryEntryInfo, b: seq<u8>) {
    SlotRecords(b, info.directoryEntryIndex, info.attributes, info.firstCluster, info.size)
  }

  /** Some entry is the one of slot `i`. */
  ghost predicate Shown(infos: seq<DirectoryEntryInfo>, i: nat) {
    exists k :: 0 <= k < |infos| && infos[k].directoryEntryIndex == i
  }

  ghost predicate InSlotOrder(infos: seq<DirectoryEntryInfo>) {
    forall j, k :: 0 <= j < k < |infos| ==> infos[j].directoryEntryIndex < infos[k].directoryEntryIndex
  }

  ghost predicate AllMatchSlots(infos: seq<DirectoryEntryInfo>, b: seq<u8>) {
    forall k :: 0 <= k < |infos| ==> MatchesSlot(infos[k], b)
  }

  lemma {:induction false} LocatedIsRecorded(infos: seq<DirectoryEntryInfo>, b: seq<u8>, chain: seq<nat>, size: nat)
    requires 0 < size && chain != []
    requires AllLocated(infos, Listing(Roles(b), 0, []), chain, size)
    ensures AllMatchSlots(infos, b) && InSlotOrder(infos)
    ensures forall i: nat :: Shown(infos, i) <==> SlotListed(b, i)
  {
    hide Listing, Roles, SlotRecords, SlotListed;
    var es := Listing(Roles(b), 0, []);
    RolesAreIndexed(b);
    forall k | 0 <= k < |infos|
      ensures MatchesSlot(infos[k], b)
    {
      ListedIsRecorded(b, k);
    }
    forall j, k | 0 <= j < k < |infos|
      ensures infos[j].directoryEntryIndex < infos[k].directoryEntryIndex
    {
      ListedInOrder(Roles(b), j, k);
      assert Located(infos[j], es[j], chain, size) && Located(infos[k], es[k], chain, size);
    }
    forall i: nat
      ensures Shown(infos, i) <==> SlotListed(b, i)
    {
      ListedIff(b, i);
      ShownIff(infos, es, chain, size, i);
    }
  }

  lemma {:induction false} ShownIff(infos: seq<DirectoryEntryInfo>, es: seq<Entry>, chain: seq<nat>, size: nat, i: nat)
    requires 0 < size && chain != [] && AllLocated(infos, es, chain, size)
    ensures Shown(infos, i) <==> exists k :: 0 <= k < |es| && es[k].index == i
  {
    if k :| 0 <= k < |infos| && infos[k].directoryEntryIndex == i {
      assert es[k].index == i;
    }
    if k :| 0 <= k < |es| && es[k].index == i {
      assert infos[k].directoryEntryIndex == i;
    }
  }

  method ScanChain(fs: Volume, firstCluster: nat, ghost chain: seq<nat>, ghost roles: seq<Role>)
    returns (ok: bool, entries: seq<DirectoryEntryInfo>)
    requires fs.Valid() && HoldsRoles(fs.view, chain, roles) && firstCluster == chain[0]
    ensures ok && AllLocated(entries, Listing(roles, 0, []), chain, fs.view.clusterSize)
  {
    ghost var v := fs.view;
    entries := [];
    var currentCluster, globalIndex, lfn := firstCluster, 0, [];
    ghost var k: nat, acc := 0, [];
    while true
      invariant k < |chain| && currentCluster == chain[k]
      invariant globalIndex == SlotBase(k, v.clusterSize / 32)
      invariant AllLocated(entries, acc, chain, v.clusterSize)
      invariant acc + Listing(roles, globalIndex, lfn) == Listing(roles, 0, [])
      decreases |chain| - k
    {
      ChainAt(v.fat, chain, k);
      var clusterData := fs.ReadCluster(currentCluster);
      assert ClusterHolds(v, chain, roles, k);
      var ended;
      ended, entries, lfn, acc := ScanCluster(clusterData, currentCluster, firstCluster, globalIndex, entries, lfn,
                                              roles, chain, k, acc);
      if ended {
        return true, entries;
      }
      globalIndex := globalIndex + |clusterData| / 32;
      var nextCluster := fs.ReadFatEntry(currentCluster);
      if nextCluster >= END_OF_CHAIN {
        return true, entries;
      }
      if nextCluster == FREE_CLUSTER || nextCluster == BAD_CLUSTER {
        return false, entries;
      }
      currentCluster := nextCluster;
      k := k + 1;
    }
  }

  // ---------------------------------------------------------------- a free slot

  predicate FreeRole(role: Role) { role.End? || role.Deleted? }

  lemma {:induction false} FreeByFirstByte(slot: seq<u8>, index: nat)
    requires |slot| == 32
    ensures FreeRole(RoleOf(slot, index)) <==> slot[0] == 0 || slot[0] == ENTRY_DELETED
  {
  }

  method FindFreeInCluster(clusterData: seq<u8>, ghost roles: seq<Role>, ghost k: nat,
                           ghost index: nat) returns (found: bool, at: nat)
    requires 0 < |clusterData| && SlotsHere(roles, clusterData, k, index)
    ensures index + at <= |roles| || |clusterData| < 32
    ensures forall j :: index <= j < index + at && j < |roles| ==> !FreeRole(roles[j])
    ensures if found then at < |clusterData| / 32 && index + at < |roles| && FreeRole(roles[index + at])
            else at == |clusterData| / 32
  {
    hide IndexOf, Within, RoleOf;
    at := 0;
    while at < |clusterData| / 32
      invariant at <= |clusterData| / 32
      invariant forall j :: index <= j < index + at ==> j < |roles| && !FreeRole(roles[j])
    {
      assert SlotHere(roles, clusterData, k, index, at);
      FreeByFirstByte(clusterData[32 * at..32 * at + 32], index + at);
      var first := clusterData[32 * at];
      if first == 0 || first == ENTRY_DELETED {
        found := true;
        return;
      }
      at := at + 1;
    }
    found := false;
    if at > 0 {
      assert SlotHere(roles, clusterData, k, index, at - 1);
    }
  }

  /** The cluster and offset of slot `idx` of a directory. */
  ghost predicate SlotPlace(chain: seq<nat>, size: nat, idx: nat, cluster: nat, offset: nat)
    requires 0 < size
  {
    && IndexOf(32 * idx, size) < |chain|
    && cluster == chain[IndexOf(32 * idx, size)]
    && offset == Within(32 * idx, size)
  }

  /** Looks for a slot never used or deleted; on a full directory `found` is false
      and `last` is its last cluster. */
  method FindFreeInChain(fs: Volume, directoryCluster: nat, ghost chain: seq<nat>, ghost roles: seq<Role>)
    returns (found: bool, outCluster: nat, outOffset: nat, ghost idx: nat)
    requires fs.Valid() && HoldsRoles(fs.view, chain, roles) && directoryCluster == chain[0]
    ensures FirstFreeSlot(roles, idx) && (found <==> idx < |roles|)
    ensures found ==> SlotPlace(chain, fs.view.clusterSize, idx, outCluster, outOffset)
  {
    ghost var v := fs.view;
    var currentCluster := directoryCluster;
    outCluster, outOffset := 0, 0;
    ghost var k: nat, index := 0, 0;
    while true
      invariant k < |chain| && currentCluster == chain[k]
      invariant index == SlotBase(k, v.clusterSize / 32)
      invariant index <= |roles| && forall j :: 0 <= j < index ==> !FreeRole(roles[j])
      decreases |chain| - k
    {
      ChainAt(v.fat, chain, k);
      SlotBaseMono(k + 1, |chain|, v.clusterSize / 32);
      var clusterData := fs.ReadCluster(currentCluster);
      assert ClusterHolds(v, chain, roles, k);
      var at;
      found, at := FindFreeInCluster(clusterData, roles, k, index);
      idx := index + at;
      if found {
        assert SlotHere(roles, clusterData, k, index, at);
        outCluster := currentCluster;
        outOffset := 32 * at;
        return;
      }
      index := index + at;
      var next := fs.ReadFatEntry(currentCluster);
      if next >= END_OF_CHAIN {
        return;
      }
      currentCluster := next;
      k := k + 1;
    }
  }

  lemma {:induction false} SlotBaseMono(a: nat, b: nat, perCluster: nat)
    requires a <= b
    ensures SlotBase(a, perCluster) <= SlotBase(b, perCluster)
    decreases b
  {
    if a < b {
      SlotBaseMono(a, b - 1, perCluster);
    }
  }

  /** Finds a slot to use, adding a zeroed cluster to a full directory. */
  method FindFreeDirectoryEntry(fs: Volume, directoryCluster: nat, ghost chain: seq<nat>)
    returns (ok: bool, outCluster: nat, outOffset: nat, ghost idx: nat, ghost chain': seq<nat>)
    requires fs.Valid() && fs.StartsAt(directoryCluster, chain) && chain != []
    modifies fs, fs.disk
    ensures fs.Valid() && fs.StartsAt(directoryCluster, chain')
    ensures Grown(old(fs.view), chain, fs.view, chain')
    ensures InTable(old(fs.view).data, chain)
    ensures FirstFreeSlot(Roles(ChainBytes(old(fs.view).data, chain)), idx)
    ensures idx < |Roles(ChainBytes(old(fs.view).data, chain))| ==> ok && chain' == chain
    ensures ok && idx == |Roles(ChainBytes(old(fs.view).data, chain))| ==> |chain'| == |chain| + 1
    ensures ok ==> SlotPlace(chain', fs.view.clusterSize, idx, outCluster, outOffset)
    ensures !ok ==> fs.view == old(fs.view) && FreeEntries(fs.view.fat) == 0
  {
    ghost var v := fs.view;
    ChainInRange(v.fat, chain);
    DirectoryHoldsRoles(v, chain);
    GrownRefl(v, chain);
    chain' := chain;
    ok, outCluster, outOffset, idx := FindFreeInChain(fs, directoryCluster, chain, Roles(ChainBytes(v.data, chain)));
    if ok {
      return;
    }
    ok, outCluster := fs.ExtendClusterChain(directoryCluster, chain);
    outOffset := 0;
    if ok {
      LinkedIsGrown(v, chain, outCluster);
      FullDirectoryEnd(v, chain);
      chain' := chain + [outCluster];
    }
  }

  lemma {:induction false} FullDirectoryEnd(v: Vol, chain: seq<nat>)
    requires WellFormed(v) && IsChain(v.fat, chain) && v.clusterSize % 32 == 0
    ensures InTable(v.data, chain)
    ensures IndexOf(32 * |Roles(ChainBytes(v.data, chain))|, v.clusterSize) == |chain|
    ensures Within(32 * |Roles(ChainBytes(v.data, chain))|, v.clusterSize) == 0
  {
    ChainIsSized(v, chain);
    var n, size, len := |chain|, v.clusterSize, |ChainBytes(v.data, chain)|;
    ChainBytesLength(v.data, chain, size);
    SlotBaseScaled(n, size);
    assert len == 32 * SlotBase(n, size / 32);
    assert 32 * (len / 32) == len;
    PositionInCluster(size, n, 0);
  }

  // ---------------------------------------------------------------- a new slot's bytes

  /** A slot holding the 11 name bytes, the attributes and a first cluster; all else zero. */
  ghost function EntrySlot(name: seq<u8>, attributes: u8, firstCluster: nat): (r: seq<u8>)
    requires |name| == 11 && firstCluster < U32_LIMIT
    ensures |r| == 32
  {
    name + [attributes] + Zeros(8) + Enc16(firstCluster / 0x1_0000) + Zeros(4) + Enc16(firstCluster % 0x1_0000)
        + Zeros(4)
  }

  method EncodeSlot(fs: Volume, name: seq<u8>, attributes: u8, firstCluster: nat) returns (raw: seq<u8>)
    requires |name| == 11 && firstCluster < U32_LIMIT
    ensures raw == EntrySlot(name, attributes, firstCluster)
  {
    var hi := fs.EncodeHalf(firstCluster / 0x1_0000);
    var lo := fs.EncodeHalf(firstCluster % 0x1_0000);
    raw := name + [attributes] + Zeros(8) + hi + Zeros(4) + lo + Zeros(4);
  }

  lemma {:induction false} ZerosAreZero()
    ensures FromLE(Zeros(4)) == 0
  {
    var z := Zeros(4);
    assert z[1..][1..] == z[2..] && z[2..][1..] == z[3..] && z[3..][1..] == [];
    assert FromLE(z[3..]) == 0;
    assert FromLE(z[2..]) == 0;
    assert FromLE(z[1..]) == 0;
  }

  lemma {:induction false} EntrySlotFields(name: seq<u8>, attributes: u8, firstCluster: nat)
    requires |name| == 11 && firstCluster < U32_LIMIT
    ensures var slot := EntrySlot(name, attributes, firstCluster);
            && slot[..11] == name && slot[11] == attributes
            && SlotFirstCluster(slot, 0) == firstCluster && SlotSize(slot, 0) == 0
            && slot[12..20] == Zeros(8) && slot[22..26] == Zeros(4)
  {
    var slot := EntrySlot(name, attributes, firstCluster);
    assert slot[..11] == name;
    assert slot[20..22] == Enc16(firstCluster / 0x1_0000);
    assert slot[26..28] == Enc16(firstCluster % 0x1_0000);
    TailOf(name + [attributes] + Zeros(8) + Enc16(firstCluster / 0x1_0000) + Zeros(4) + Enc16(firstCluster % 0x1_0000),
           Zeros(4));
    ZerosAreZero();
  }

  lemma {:induction false} TailOf(a: seq<u8>, b: seq<u8>)
    ensures (a + b)[|a|..|a| + |b|] == b
  {
  }

  /** Read back, the slot stands for an entry of that name, with no bytes yet. */
  lemma {:induction false} EntrySlotRole(slot: seq<u8>, name: seq<u8>, attributes: u8, firstCluster: nat, index: nat)
    requires |name| == 11 && firstCluster < U32_LIMIT
    requires slot == EntrySlot(name, attributes, firstCluster)
    requires name[0] != 0 && name[0] != ENTRY_DELETED
    requires attributes != ATTRIBUTE_LONG_NAME && !IsVolumeLabel(attributes)
    ensures RoleOf(slot, index) == Item(Entry(Decoded(name), attributes, firstCluster, 0, index))
  {
    EntrySlotFields(name, attributes, firstCluster);
    assert slot[0] == slot[..11][0];
  }

  /** Storing a slot over a directory grown by zeros gives that slot its role and
      changes no other. */
  lemma {:induction false} StoredIsPlaced(b: seq<u8>, b': seq<u8>, idx: nat, slot: seq<u8>)
    requires |slot| == 32 && |b| % 32 == 0 && |b'| % 32 == 0
    requires BytesAfter(b, b', 32 * idx, slot)
    requires FirstFreeSlot(Roles(b), idx) && (idx < |Roles(b)| ==> |b'| == |b|)
    ensures Placed(Roles(b), Roles(b'), idx, RoleOf(slot, idx))
  {
    assert SlotOf(b', idx) == slot by {
      forall i | 0 <= i < 32
        ensures SlotOf(b', idx)[i] == slot[i]
      {
        assert ByteAfter(b, b', 32 * idx, slot, 32 * idx + i);
      }
    }
    forall j | 0 <= j < |b'| / 32 && j != idx
      ensures Roles(b')[j] == if j < |b| / 32 then Roles(b)[j] else End
    {
      OtherSlot(b, b', idx, slot, j);
    }
  }

  lemma {:induction false} OtherSlot(b: seq<u8>, b': seq<u8>, idx: nat, slot: seq<u8>, j: nat)
    requires |slot| == 32 && |b| % 32 == 0
    requires BytesAfter(b, b', 32 * idx, slot)
    requires j < |b'| / 32 && j != idx
    ensures Roles(b')[j] == if j < |b| / 32 then Roles(b)[j] else End
  {
    if j < |b| / 32 {
      forall i | 0 <= i < 32
        ensures SlotOf(b', j)[i] == SlotOf(b, j)[i]
      {
        assert ByteAfter(b, b', 32 * idx, slot, 32 * j + i);
      }
      assert SlotOf(b', j) == SlotOf(b, j);
    } else {
      assert ByteAfter(b, b', 32 * idx, slot, 32 * j);
      assert SlotOf(b', j)[0] == 0;
    }
  }

  // ---------------------------------------------------------------- creating

  /** The bytes of "." or "..", space-padded. */
  function DotName(parent: bool): (r: seq<u8>)
    ensures |r| == 11
  {
    (if parent then [DOT, DOT] else [DOT, SPACE]) + Spaces(9)
  }

  /** A new directory's cluster: itself, its parent, and nothing else. */
  ghost function DotCluster(size: nat, self: nat, parent: nat): (r: seq<u8>)
    requires 64 <= size && self < U32_LIMIT && parent < U32_LIMIT
    ensures |r| == size
  {
    Overlay(Overlay(Zeros(size), 0, EntrySlot(DotName(false), ATTRIBUTE_DIRECTORY, self)), 32,
            EntrySlot(DotName(true), ATTRIBUTE_DIRECTORY, parent))
  }

  /** `c` was the first free cluster and now is a directory of its own below `parent`. */
  ghost predicate NewDirectory(v: Vol, v': Vol, c: nat, parent: nat)
    requires 2 < |v.fat| == |v.data|
  {
    && 2 <= c < |v.fat| < U32_LIMIT && parent < U32_LIMIT && 64 <= v.clusterSize
    && IsFirstFree(v, c)
    && v' == Allocated(v, c).(data := v.data[c := DotCluster(v.clusterSize, c, parent)])
  }

  lemma {:induction false} NewDirectoryIsFileStep(v: Vol, v': Vol, c: nat, parent: nat)
    requires WellFormed(v) && NewDirectory(v, v', c, parent)
    ensures FileStep(v, [], v', [c])
    ensures ChainBytes(v'.data, [c]) == DotCluster(v.clusterSize, c, parent)
  {
    LinkedIsFileStep(v, [], c);
    var a := Allocated(v, c);
    forall x | 0 <= x < |v.fat|
      ensures Kept(v, [], v', [c], x)
    {
      assert Kept(v, [], a, [c], x);
    }
    assert [c][..0] == [];
  }

  /** Allocates and fills the first cluster of a new directory. */
  method MakeDirectoryCluster(fs: Volume, parent: nat) returns (ok: bool, c: nat)
    requires fs.Valid() && parent < U32_LIMIT
    modifies fs, fs.disk
    ensures fs.Valid()
    ensures ok ==> NewDirectory(old(fs.view), fs.view, c, parent)
    ensures !ok ==> fs.view == old(fs.view) && FreeEntries(fs.view.fat) == 0
  {
    ok, c := fs.AllocateCluster();
    if !ok {
      return;
    }
    var dot := EncodeSlot(fs, DotName(false), ATTRIBUTE_DIRECTORY, c);
    var dotDot := EncodeSlot(fs, DotName(true), ATTRIBUTE_DIRECTORY, parent);
    var directoryData := Zeros(fs.g.ClusterSize());
    directoryData := Overlay(directoryData, 0, dot);
    directoryData := Overlay(directoryData, 32, dotDot);
    fs.WriteCluster(c, directoryData);
  }

  method WriteDirectoryEntry(fs: Volume, directoryCluster: nat, entryOffset: nat, raw: seq<u8>)
    requires fs.Valid() && 2 <= directoryCluster < |fs.view.fat|
    requires entryOffset + |raw| <= fs.view.clusterSize
    modifies fs, fs.disk
    ensures fs.Valid()
    ensures fs.view == old(fs.view).(data := old(fs.view).data[directoryCluster :=
                         Overlay(old(fs.view).data[directoryCluster], entryOffset, raw)])
  {
    var clusterData := fs.ReadCluster(directoryCluster);
    clusterData := Overlay(clusterData, entryOffset, raw);
    fs.WriteCluster(directoryCluster, clusterData);
  }

  /** Stores a slot in a directory's chain. */
  method StoreSlot(fs: Volume, cluster: nat, offset: nat, raw: seq<u8>, ghost chain: seq<nat>, ghost idx: nat)
    requires fs.Valid() && IsChain(fs.view.fat, chain) && |raw| == 32
    requires SlotPlace(chain, fs.view.clusterSize, idx, cluster, offset)
    modifies fs, fs.disk
    ensures fs.Valid() && IsChain(fs.view.fat, chain)
    ensures WriteStep(old(fs.view), chain, fs.view, chain, 32 * idx, raw)
  {
    hide WriteStep, IsChain, ChainBytes, SlotPlace;
    SlotPlaced(fs.view, chain, idx, cluster, offset);
    SlotStored(fs.view, chain, idx, cluster, offset, raw);
    WriteDirectoryEntry(fs, cluster, offset, raw);
  }

  lemma {:induction false} SlotPlaced(v: Vol, chain: seq<nat>, idx: nat, cluster: nat, offset: nat)
    requires WellFormed(v) && IsChain(v.fat, chain) && v.clusterSize % 32 == 0
    requires SlotPlace(chain, v.clusterSize, idx, cluster, offset)
    ensures 2 <= cluster < |v.fat| && cluster < |v.data| && |v.data[cluster]| == v.clusterSize
    ensures offset + 32 <= v.clusterSize
  {
    ChainInRange(v.fat, chain);
    SlotFits(idx, v.clusterSize);
  }

  /** A slot stored in its cluster is a write of its 32 bytes into the directory. */
  lemma {:induction false} SlotStored(v: Vol, chain: seq<nat>, idx: nat, cluster: nat, offset: nat, raw: seq<u8>)
    requires WellFormed(v) && IsChain(v.fat, chain) && v.clusterSize % 32 == 0 && |raw| == 32
    requires SlotPlace(chain, v.clusterSize, idx, cluster, offset)
    requires cluster < |v.data| && offset + 32 <= |v.data[cluster]|
    ensures WriteStep(v, chain, v.(data := v.data[cluster := Overlay(v.data[cluster], offset, raw)]), chain, 32 * idx,
                      raw)
  {
    hide WriteStep, IsChain, ChainBytes, FileStep, Overlay;
    SlotPlaced(v, chain, idx, cluster, offset);
    ChunkStored(v, chain, 32 * idx, raw, Overlay(v.data[cluster], offset, raw));
    StoreIsWriteStep(v, v.(data := v.data[cluster := Overlay(v.data[cluster], offset, raw)]), chain, 32 * idx, raw);
  }

  /** A slot lies inside one cluster. */
  lemma {:induction false} SlotFits(idx: nat, size: nat)
    requires 0 < size && size % 32 == 0
    ensures Within(32 * idx, size) + 32 <= size
  {
    WithinMultiple(idx, size / 32);
  }

  lemma {:induction false} WithinMultiple(idx: nat, per: nat)
    requires 0 < per
    ensures Within(32 * idx, 32 * per) % 32 == 0 && Within(32 * idx, 32 * per) + 32 <= 32 * per
    decreases idx
  {
    if per <= idx {
      WithinMultiple(idx - per, per);
    }
  }

  /** What creating an entry did: the number of its slot, the directory's chain, and the volume
      once the directory had grown and once a new directory's cluster was filled. */
  datatype Creation = Creation(idx: nat, chain: seq<nat>, grown: Vol, filled: Vol)

  /** The steps of a creation that got as far as storing the slot. */
  ghost predicate Created(v: Vol, chain: seq<nat>, w: Creation, v': Vol, name: seq<u8>, attributes: u8,
                          info: DirectoryEntryInfo)
    requires WellFormed(v) && Storable(name)
  {
    && chain != [] && info.firstCluster < U32_LIMIT
    && InTable(v.data, chain)
    && FirstFreeSlot(Roles(ChainBytes(v.data, chain)), w.idx)
    && (w.idx < |Roles(ChainBytes(v.data, chain))| ==> w.chain == chain)
    && Grown(v, chain, w.grown, w.chain)
    && (if IsDirectory(attributes) then NewDirectory(w.grown, w.filled, info.firstCluster, chain[0])
        else w.filled == w.grown && info.firstCluster == 0)
    && WriteStep(w.filled, w.chain, v', w.chain, 32 * w.idx, EntrySlot(ShortName(name), attributes, info.firstCluster))
    && SlotPlace(w.chain, v.clusterSize, w.idx, info.directoryEntryCluster, info.directoryEntryOffset)
    && info.name == name && info.attributes == attributes && info.size == 0 && info.parentDirectoryCluster == chain[0]
  }

  /** No slot of the directory can be used. */
  ghost predicate Full(roles: seq<Role>) {
    forall i :: 0 <= i < |roles| ==> !FreeRole(roles[i])
  }

  lemma {:induction false} FullIff(roles: seq<Role>, idx: nat)
    requires FirstFreeSlot(roles, idx)
    ensures Full(roles) <==> idx == |roles|
  {
    assert idx < |roles| ==> FreeRole(roles[idx]);
  }

  /** Clusters a creation takes: one for a full directory, one for a new directory's slots. */
  ghost function Needed(roles: seq<Role>, attributes: u8): nat {
    (if Full(roles) then 1 else 0) + if IsDirectory(attributes) then 1 else 0
  }

  /** Creates a file or directory entry: exactly when the name can be stored and the
      clusters it takes are free. On failure at most the directory has grown. */
  method CreateDirectoryEntry(fs: Volume, parent: nat, name: seq<u8>, attributes: u8, ghost chain: seq<nat>)
    returns (created: Option<DirectoryEntryInfo>, ghost w: Creation)
    requires fs.Valid() && fs.StartsAt(parent, chain) && chain != []
    modifies fs, fs.disk
    ensures fs.Valid() && fs.StartsAt(parent, w.chain)
    ensures !Storable(name) ==> created == None && fs.view == old(fs.view) && w.chain == chain
    ensures InTable(old(fs.view).data, chain)
    ensures Storable(name) ==>
              (created.Some? <==>
               Needed(Roles(ChainBytes(old(fs.view).data, chain)), attributes) <= FreeEntries(old(fs.view).fat))
    ensures Storable(name) && created == None ==>
              FreeEntries(fs.view.fat) == 0 && Grown(old(fs.view), chain, fs.view, w.chain)
    ensures created.Some? ==>
              Storable(name) && Created(old(fs.view), chain, w, fs.view, name, attributes, created.value)
  {
    hide Roles, ChainBytes, EntrySlot, FirstFreeSlot, Full, IsChain, InTable;
    ghost var v := fs.view;
    w := Creation(0, chain, v, v);
    created := None;
    ChainIsSized(v, chain);
    var shortName := MakeShortName(name);
    if shortName == None {
      return;
    }
    ChainInRange(v.fat, chain);
    ghost var idx, chain';
    var ok, entryCluster, entryOffset;
    ok, entryCluster, entryOffset, idx, chain' := FindFreeDirectoryEntry(fs, parent, chain);
    FullIff(Roles(ChainBytes(v.data, chain)), idx);
    if !ok {
      GrownRefl(v, chain);
      return;
    }
    w := Creation(idx, chain', fs.view, fs.view);
    var firstCluster := 0;
    if IsDirectory(attributes) {
      ok, firstCluster := MakeDirectoryCluster(fs, parent);
      if !ok {
        return;
      }
      NewDirectoryIsFileStep(w.grown, fs.view, firstCluster, parent);
      OutsideUntouched(w.grown, [], fs.view, [firstCluster], chain');
      w := w.(filled := fs.view);
    }
    var raw := EncodeSlot(fs, shortName.value, attributes, firstCluster);
    StoreSlot(fs, entryCluster, entryOffset, raw, chain', idx);
    created := Some(Info(name, attributes, firstCluster, 0, parent, entryCluster, entryOffset, entryOffset / 32));
  }

  // ---------------------------------------------------------------- removing

  /** The cluster with the long-name slots right before slot `i` marked deleted. */
  function MarkBack(d: seq<u8>, i: nat): (r: seq<u8>)
    requires 32 * i <= |d|
    ensures |r| == |d|
    decreases i
  {
    if i == 0 || d[32 * (i - 1) + 11] != ATTRIBUTE_LONG_NAME then d
    else MarkBack(d[32 * (i - 1) := ENTRY_DELETED], i - 1)
  }

  method MarkEntryAndLongNameDeleted(clusterData: seq<u8>, entryOffset: nat) returns (marked: seq<u8>)
    requires entryOffset % 32 == 0 && entryOffset + 32 <= |clusterData|
    ensures marked == MarkBack(clusterData[entryOffset := ENTRY_DELETED], entryOffset / 32)
  {
    var index := entryOffset / 32;
    marked := clusterData[32 * index := ENTRY_DELETED];
    ghost var start := marked;
    while index > 0
      invariant 0 <= index && 32 * index <= |marked| == |start|
      invariant MarkBack(marked, index) == MarkBack(start, entryOffset / 32)
    {
      if marked[32 * (index - 1) + 11] != ATTRIBUTE_LONG_NAME {
        break;
      }
      index := index - 1;
      marked := marked[32 * index := ENTRY_DELETED];
    }
  }

  /** The attributes of slot `j` are those of a long name. */
  predicate LongAt(d: seq<u8>, j: nat)
    requires 32 * j + 32 <= |d|
  {
    d[32 * j + 11] == ATTRIBUTE_LONG_NAME
  }

  /** First slot of the unbroken run of long-name slots that ends right before slot `i`. */
  function LongRun(d: seq<u8>, i: nat): (s: nat)
    requires 32 * i <= |d|
    ensures s <= i && (s > 0 ==> !LongAt(d, s - 1))
    ensures forall j :: s <= j < i ==> LongAt(d, j)
  {
    if i == 0 || !LongAt(d, i - 1) then i else LongRun(d, i - 1)
  }

  /** Exactly the slots of that run get the deletion mark, and no other byte changes. */
  lemma {:induction false} MarkBackMarksRun(d: seq<u8>, i: nat, x: nat)
    requires 32 * i <= |d| && x < |d|
    ensures MarkBack(d, i)[x] == if x % 32 == 0 && LongRun(d, i) <= x / 32 < i then ENTRY_DELETED else d[x]
    decreases i
  {
    if i > 0 && d[32 * (i - 1) + 11] == ATTRIBUTE_LONG_NAME {
      var d' := d[32 * (i - 1) := ENTRY_DELETED];
      MarkBackMarksRun(d', i - 1, x);
      SameLongRun(d, d', i - 1);
    }
  }

  lemma {:induction false} SameLongRun(d: seq<u8>, d': seq<u8>, i: nat)
    requires 32 * i <= |d| == |d'| && forall j :: 0 <= j < i ==> (LongAt(d', j) <==> LongAt(d, j))
    ensures LongRun(d', i) == LongRun(d, i)
  {
    if i > 0 {
      SameLongRun(d, d', i - 1);
    }
  }

  /** First slot of the run of long-name slots right before slot `idx` that lies in the same
      cluster of `size` bytes; `idx` when there is none. */
  ghost function RunStart(b: seq<u8>, idx: nat, size: nat): (first: nat)
    requires 0 < size && 32 * idx <= |b|
    ensures first <= idx && forall j :: first <= j < idx ==> LongAt(b, j)
  {
    if idx == 0 || Within(32 * idx, size) == 0 || !LongAt(b, idx - 1) then idx
    else RunStart(b, idx - 1, size)
  }

  /** Byte `x` after slots `first` to `idx` were marked deleted. */
  ghost predicate ByteMarked(b: seq<u8>, b': seq<u8>, first: nat, idx: nat, x: nat)
    requires x < |b| == |b'|
  {
    b'[x] == if x % 32 == 0 && first <= x / 32 <= idx then ENTRY_DELETED else b[x]
  }

  /** Slots `first` to `idx` got the deletion mark and no other byte changed. */
  ghost predicate RunMarked(b: seq<u8>, b': seq<u8>, first: nat, idx: nat) {
    |b'| == |b| && forall x :: 0 <= x < |b| ==> ByteMarked(b, b', first, idx, x)
  }

  lemma {:induction false} ByteOfSlice(b: seq<u8>, at: nat, d: seq<u8>, i: nat)
    requires at + |d| <= |b| && d == b[at..at + |d|] && i < |d|
    ensures b[at + i] == d[i]
  {
  }

  /** In its cluster the run is what the driver's walk finds. */
  lemma {:induction false} RunStartInCluster(b: seq<u8>, d: seq<u8>, k: nat, base: nat, i: nat)
    requires 32 * i < |d| && 32 * base == Span(k, |d|) && 32 * base + |d| <= |b|
    requires d == b[32 * base..32 * base + |d|]
    ensures RunStart(b, base + i, |d|) == base + LongRun(d, i)
  {
    hide Within, IndexOf, Span;
    PositionInCluster(|d|, k, 32 * i);
    assert 32 * (base + i) == Span(k, |d|) + 32 * i;
    if i > 0 {
      ByteOfSlice(b, 32 * base, d, 32 * (i - 1) + 11);
      RunStartInCluster(b, d, k, base, i - 1);
    }
  }

  /** Marking a run in one cluster marks it in the directory's bytes. */
  lemma {:induction false} ClusterRunMarked(b: seq<u8>, d: seq<u8>, marked: seq<u8>, base: nat, first: nat, i: nat)
    requires 32 * base + |d| <= |b| && d == b[32 * base..32 * base + |d|] && RunMarked(d, marked, first, i)
    requires 32 * i + 32 <= |d|
    ensures RunMarked(b, Overlay(b, 32 * base, marked), base + first, base + i)
  {
    var b', lo, hi := Overlay(b, 32 * base, marked), base + first, base + i;
    forall x | 0 <= x < |b|
      ensures ByteMarked(b, b', lo, hi, x)
    {
      if 32 * base <= x < 32 * base + |d| {
        var y := x - 32 * base;
        assert ByteMarked(d, marked, first, i, y);
        assert x % 32 == y % 32 && x / 32 == base + y / 32;
      }
    }
  }

  /** The driver's marking of one cluster is the marking of a run. */
  lemma {:induction false} MarkBackIsRun(d: seq<u8>, i: nat)
    requires 32 * i + 32 <= |d|
    ensures RunMarked(d, MarkBack(d[32 * i := ENTRY_DELETED], i), LongRun(d, i), i)
  {
    var e := d[32 * i := ENTRY_DELETED];
    SameLongRun(d, e, i);
    var marked, first := MarkBack(e, i), LongRun(d, i);
    forall x | 0 <= x < |d|
      ensures ByteMarked(d, marked, first, i, x)
    {
      MarkBackMarksRun(e, i, x);
    }
  }

  /** Slots marked deleted are a write from the first of them on. */
  lemma {:induction false} RunMarkedIsWrite(v: Vol, v': Vol, s: seq<nat>, first: nat, idx: nat)
    requires FileStep(v, s, v', s) && InTable(v.data, s) && InTable(v'.data, s)
    requires RunMarked(ChainBytes(v.data, s), ChainBytes(v'.data, s), first, idx)
    requires first <= idx && 32 * idx + 32 <= |ChainBytes(v.data, s)|
    ensures 32 * idx + 1 <= |ChainBytes(v'.data, s)|
    ensures WriteStep(v, s, v', s, 32 * first, ChainBytes(v'.data, s)[32 * first..32 * idx + 1])
  {
    var b, b' := ChainBytes(v.data, s), ChainBytes(v'.data, s);
    var w := b'[32 * first..32 * idx + 1];
    forall x | 0 <= x < |b'|
      ensures ByteAfter(b, b', 32 * first, w, x)
    {
      assert ByteMarked(b, b', first, idx, x);
    }
  }

  datatype RemoveResult = Removed | NotFound | InvalidPath | PermissionDenied | IOError

  predicate IsDotEntry(name: seq<u8>) { name == [DOT] || name == [DOT, DOT] }

  method HasOtherEntries(entries: seq<DirectoryEntryInfo>) returns (r: bool)
    ensures r <==> exists k :: 0 <= k < |entries| && !IsDotEntry(entries[k].name)
  {
    for i := 0 to |entries|
      invariant forall k :: 0 <= k < i ==> IsDotEntry(entries[k].name)
    {
      if !IsDotEntry(entries[i].name) {
        return true;
      }
    }
    r := false;
  }

  /** Slot `idx` and the long-name slots before it in its cluster were marked deleted. */
  ghost predicate SlotDeleted(v: Vol, chain: seq<nat>, idx: nat, v': Vol) {
    && FileStep(v, chain, v', chain) && InTable(v.data, chain) && InTable(v'.data, chain)
    && 32 * idx + 32 <= |ChainBytes(v.data, chain)|
    && RunMarked(ChainBytes(v.data, chain), ChainBytes(v'.data, chain),
                 RunStart(ChainBytes(v.data, chain), idx, v.clusterSize), idx)
  }

  /** Marks the slot of an entry and its long name deleted. */
  method DeleteSlot(fs: Volume, cluster: nat, offset: nat, ghost chain: seq<nat>, ghost idx: nat)
    requires fs.Valid() && IsChain(fs.view.fat, chain)
    requires SlotPlace(chain, fs.view.clusterSize, idx, cluster, offset)
    modifies fs, fs.disk
    ensures fs.Valid() && IsChain(fs.view.fat, chain)
    ensures SlotDeleted(old(fs.view), chain, idx, fs.view)
  {
    hide SlotDeleted, MarkBack, IsChain, ChainBytes, IndexOf, Within;
    ghost var v := fs.view;
    SlotPlaced(v, chain, idx, cluster, offset);
    SlotIndexSplits(idx, v.clusterSize);
    var clusterData := fs.ReadCluster(cluster);
    var marked := MarkEntryAndLongNameDeleted(clusterData, offset);
    ClusterMarked(v, chain, idx, cluster, offset, marked);
    fs.WriteCluster(cluster, marked);
  }

  /** Slot `idx` is that many slots behind the first slot of its cluster. */
  lemma {:induction false} SlotIndexSplits(idx: nat, size: nat)
    requires 0 < size && size % 32 == 0
    ensures Within(32 * idx, size) % 32 == 0 && Within(32 * idx, size) + 32 <= size
    ensures SlotBase(IndexOf(32 * idx, size), size / 32) + Within(32 * idx, size) / 32 == idx
    ensures 32 * SlotBase(IndexOf(32 * idx, size), size / 32) == Span(IndexOf(32 * idx, size), size)
  {
    WithinMultiple(idx, size / 32);
    SlotBaseScaled(IndexOf(32 * idx, size), size);
    IndexSplits(32 * idx, size);
  }

  /** Writing back the marked cluster marks the run in the directory. */
  lemma {:induction false} ClusterMarked(v: Vol, chain: seq<nat>, idx: nat, cluster: nat, offset: nat, marked: seq<u8>)
    requires WellFormed(v) && IsChain(v.fat, chain) && v.clusterSize % 32 == 0
    requires SlotPlace(chain, v.clusterSize, idx, cluster, offset)
    requires cluster < |v.data| && offset % 32 == 0 && offset + 32 <= |v.data[cluster]| == v.clusterSize
    requires marked == MarkBack(v.data[cluster][offset := ENTRY_DELETED], offset / 32)
    ensures var v' := v.(data := v.data[cluster := marked]);
            SlotDeleted(v, chain, idx, v') && IsChain(v'.fat, chain)
  {
    hide MarkBack, IsChain, FileStep, ChainBytes, RunStart, RunMarked, LongRun, IndexOf, Within, Overlay;
    var size, k, i := v.clusterSize, IndexOf(32 * idx, v.clusterSize), offset / 32;
    var d, base := v.data[cluster], SlotBase(IndexOf(32 * idx, v.clusterSize), v.clusterSize / 32);
    SlotIndexSplits(idx, size);
    assert 32 * i == offset;
    MarkBackIsRun(d, i);
    ChainIsSized(v, chain);
    ClusterSlice(v.data, chain, k, size);
    var b := ChainBytes(v.data, chain);
    RunStartInCluster(b, d, k, base, i);
    ClusterRunMarked(b, d, marked, base, LongRun(d, i), i);
    ClusterStored(v, chain, k, marked);
  }

  /** Replacing a whole cluster of a chain. */
  lemma {:induction false} ClusterStored(v: Vol, chain: seq<nat>, k: nat, x: seq<u8>)
    requires WellFormed(v) && IsChain(v.fat, chain) && k < |chain| && chain[k] < |v.data| && |x| == v.clusterSize
    ensures var v' := v.(data := v.data[chain[k] := x]);
            && FileStep(v, chain, v', chain) && InTable(v.data, chain) && InTable(v'.data, chain)
            && Span(k, |x|) + |x| <= |ChainBytes(v.data, chain)|
            && ChainBytes(v'.data, chain) == Overlay(ChainBytes(v.data, chain), Span(k, |x|), x)
  {
    hide IsChain, FileStep, ChainBytes, IndexOf, Within, Overlay, Span;
    ChainInRange(v.fat, chain);
    PositionInCluster(v.clusterSize, k, 0);
    WholeOverlay(v.data[chain[k]], x);
    ChunkStored(v, chain, Span(k, v.clusterSize), x, x);
  }

  lemma {:induction false} WholeOverlay(d: seq<u8>, x: seq<u8>)
    requires |d| == |x|
    ensures Overlay(d, 0, x) == x
  {
  }

  /** `entry` has its slot, number `idx`, in the directory `dir`, and `file` is its chain,
      apart from the directory's. */
  ghost predicate RemovableFrom(fs: Volume, entry: DirectoryEntryInfo, dir: seq<nat>, idx: nat, file: seq<nat>)
    requires fs.Valid()
    reads fs, fs.disk
  {
    && IsChain(fs.view.fat, dir)
    && SlotPlace(dir, fs.view.clusterSize, idx, entry.directoryEntryCluster, entry.directoryEntryOffset)
    && fs.StartsAt(entry.firstCluster, file)
    && forall c :: c in file ==> c !in dir
  }

  /** Slot `idx` of the directory and its long name were marked deleted, which gave `mid`,
      and then the clusters of the file were released. */
  ghost predicate Erased(v: Vol, dir: seq<nat>, idx: nat, file: seq<nat>, mid: Vol, v': Vol) {
    && SlotDeleted(v, dir, idx, mid)
    && LinksStay(mid.fat)
    && (file == [] ==> v' == mid)
    && (file != [] ==> IsChain(mid.fat, file) && file[0] < |mid.fat| && v' == FreeWalk(mid, file[0]))
  }

  /** Removes an entry: its slot is marked deleted, then its clusters are freed. The
      root, "." and ".." and directories with other entries are refused. */
  method RemoveEntry(fs: Volume, entry: DirectoryEntryInfo, ghost dir: seq<nat>, ghost idx: nat,
                     ghost file: seq<nat>)
    returns (r: RemoveResult, ghost mid: Vol)
    requires fs.Valid() && LinksStay(fs.view.fat)
    requires 2 <= entry.directoryEntryCluster && !IsDotEntry(entry.name) ==> RemovableFrom(fs, entry, dir, idx, file)
    modifies fs, fs.disk
    ensures fs.Valid() && r != NotFound
    ensures r == Removed ==> Erased(old(fs.view), dir, idx, file, mid, fs.view)
    ensures r != Removed ==> fs.view == old(fs.view)
    ensures r == InvalidPath <==> entry.directoryEntryCluster < 2 || IsDotEntry(entry.name)
    ensures r == IOError <==> r != InvalidPath && IsDirectory(entry.attributes) && file == []
    ensures r == PermissionDenied <==>
              r != InvalidPath && IsDirectory(entry.attributes) && file != [] && !OnlyDots(old(fs.view), file)
  {
    mid := fs.view;
    if entry.directoryEntryCluster < 2 || IsDotEntry(entry.name) {
      return InvalidPath, mid;
    }
    if IsDirectory(entry.attributes) {
      var ok, entries := ReadDirectory(fs, entry.firstCluster, file);
      if !ok {
        return IOError, mid;
      }
      var other := HasOtherEntries(entries);
      ListedDots(fs.view, file, entries);
      if other {
        return PermissionDenied, mid;
      }
    }
    ghost var v := fs.view;
    DeleteSlot(fs, entry.directoryEntryCluster, entry.directoryEntryOffset, dir, idx);
    mid := fs.view;
    ChainInRange(v.fat, file);
    OutsideUntouched(v, dir, mid, dir, file);
    FileStepKeepsLinks(v, dir, mid, dir);
    if entry.firstCluster >= 2 {
      fs.FreeClusterChain(entry.firstCluster);
    }
    r := Removed;
  }

  /** The directory at `chain` lists nothing but "." and "..". */
  ghost predicate OnlyDots(v: Vol, chain: seq<nat>)
    requires WellFormed(v)
  {
    && InTable(v.data, chain)
    && var es := Listing(Roles(ChainBytes(v.data, chain)), 0, []);
       forall k :: 0 <= k < |es| ==> IsDotEntry(es[k].name)
  }

  lemma {:induction false} ListedDots(v: Vol, chain: seq<nat>, entries: seq<DirectoryEntryInfo>)
    requires WellFormed(v) && chain != [] && InTable(v.data, chain)
    requires AllLocated(entries, Listing(Roles(ChainBytes(v.data, chain)), 0, []), chain, v.clusterSize)
    ensures OnlyDots(v, chain) <==> forall k :: 0 <= k < |entries| ==> IsDotEntry(entries[k].name)
  {
    var es := Listing(Roles(ChainBytes(v.data, chain)), 0, []);
    forall k | 0 <= k < |entries|
      ensures entries[k].name == es[k].name
    {
      assert Located(entries[k], es[k], chain, v.clusterSize);
    }
  }
}
