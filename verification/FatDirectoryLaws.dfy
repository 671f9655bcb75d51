/** What creating and removing entries means for listings and other files. */
module FatDirectoryLaws {
  import opened Bytes
  import opened FatChains
  import opened FatContents
  import opened FatSlots
  import opened FatNames
  import opened FatListing
  import opened FatDirectory
  import opened FatRuns

  /** The roles of a directory's slots on the abstract volume. */
  ghost function DirRoles(v: Vol, chain: seq<nat>): seq<Role>
    requires InTable(v.data, chain)
  {
    Roles(ChainBytes(v.data, chain))
  }

  ghost function DirListing(v: Vol, chain: seq<nat>): seq<Entry>
    requires InTable(v.data, chain)
  {
    Listing(DirRoles(v, chain), 0, [])
  }

  lemma {:induction false} DirectoryAligned(v: Vol, chain: seq<nat>)
    requires WellFormed(v) && IsChainOrNil(v.fat, chain) && v.clusterSize % 32 == 0
    ensures InTable(v.data, chain) && |ChainBytes(v.data, chain)| % 32 == 0
  {
    ChainIsSized(v, chain);
    ChainBytesLength(v.data, chain, v.clusterSize);
    SlotBaseScaled(|chain|, v.clusterSize);
  }

  /** What the created entry looks like in the listing. */
  function NewEntry(name: seq<u8>, attributes: u8, firstCluster: nat, idx: nat): Entry
    requires Storable(name)
  {
    Entry(Decoded(ShortName(name)), attributes, firstCluster, 0, idx)
  }

  lemma {:induction false} ShortNameStart(name: seq<u8>)
    requires Storable(name)
    ensures ShortName(name)[0] == ToUpper(name[0])
  {
  }

  /** The bytes of the directory before and after a creation, in one step. */
  lemma {:induction false} CreatedBytes(v: Vol, chain: seq<nat>, w: Creation, v': Vol, name: seq<u8>, attributes: u8,
                                        info: DirectoryEntryInfo)
    requires WellFormed(v) && Storable(name) && IsChain(v.fat, chain)
    requires Created(v, chain, w, v', name, attributes, info)
    ensures InTable(v.data, chain) && InTable(v'.data, w.chain) && WellFormed(v') && IsChain(v'.fat, w.chain)
    ensures BytesAfter(ChainBytes(v.data, chain), ChainBytes(v'.data, w.chain), 32 * w.idx,
                       EntrySlot(ShortName(name), attributes, info.firstCluster))
  {
    hide EntrySlot, DotCluster, ChainBytes, BytesAfter, Roles, FreeEntries;
    if IsDirectory(attributes) {
      NewDirectoryIsFileStep(w.grown, w.filled, info.firstCluster, chain[0]);
      OutsideUntouched(w.grown, [], w.filled, [info.firstCluster], w.chain);
    }
    GrownIsWriteStep(v, chain, w.grown, w.chain, 32 * w.idx);
    var slot, none: seq<u8> := EntrySlot(ShortName(name), attributes, info.firstCluster), [];
    BytesAfterTrans(ChainBytes(v.data, chain), ChainBytes(w.grown.data, w.chain), ChainBytes(v'.data, w.chain),
                    32 * w.idx, none, slot);
    assert none + slot == slot;
  }

  /** The stored slot takes its role at the first free place and no other slot changes
      its role, across cluster boundaries and when the directory had to grow. */
  lemma {:induction false} CreatedRoles(v: Vol, chain: seq<nat>, w: Creation, v': Vol, name: seq<u8>, attributes: u8,
                                        info: DirectoryEntryInfo)
    requires WellFormed(v) && v.clusterSize % 32 == 0 && Storable(name) && IsChain(v.fat, chain)
    requires Created(v, chain, w, v', name, attributes, info)
    ensures InTable(v'.data, w.chain)
    ensures Placed(DirRoles(v, chain), DirRoles(v', w.chain), w.idx,
                   RoleOf(EntrySlot(ShortName(name), attributes, info.firstCluster), w.idx))
  {
    hide EntrySlot, RoleOf;
    CreatedBytes(v, chain, w, v', name, attributes, info);
    DirectoryAligned(v, chain);
    DirectoryAligned(v', w.chain);
    SameLengthUnlessFull(v, chain, w, v');
    StoredIsPlaced(ChainBytes(v.data, chain), ChainBytes(v'.data, w.chain), w.idx,
                   EntrySlot(ShortName(name), attributes, info.firstCluster));
  }

  /** The name a created entry is listed under: what an unfinished long name right before
      its slot left over or, as a rule, what its 11 bytes stand for. */
  ghost function ListedName(roles: seq<Role>, idx: nat, name: seq<u8>): seq<u8>
    requires idx <= |roles| && Storable(name)
  {
    if Pending(roles[..idx]) == [] then Decoded(ShortName(name)) else Pending(roles[..idx])
  }

  /** What was stored is an item with the new entry. */
  lemma {:induction false} CreatedItem(v: Vol, chain: seq<nat>, w: Creation, v': Vol, name: seq<u8>, attributes: u8,
                                       info: DirectoryEntryInfo)
    requires WellFormed(v) && v.clusterSize % 32 == 0 && Storable(name) && IsChain(v.fat, chain)
    requires Created(v, chain, w, v', name, attributes, info)
    requires name[0] != 0 && name[0] != ENTRY_DELETED
    requires attributes == ATTRIBUTE_ARCHIVE || attributes == ATTRIBUTE_DIRECTORY
    ensures InTable(v.data, chain) && InTable(v'.data, w.chain)
    ensures Placed(DirRoles(v, chain), DirRoles(v', w.chain), w.idx,
                   Item(NewEntry(name, attributes, info.firstCluster, w.idx)))
  {
    hide EntrySlot, RoleOf, Decoded, Grown, WriteStep, NewDirectory, Roles, Placed;
    CreatedRoles(v, chain, w, v', name, attributes, info);
    ShortNameStart(name);
    var slot := EntrySlot(ShortName(name), attributes, info.firstCluster);
    EntrySlotRole(slot, ShortName(name), attributes, info.firstCluster, w.idx);
  }

  /** A creation inserts exactly one entry into the directory's listing and changes no
      other, across cluster boundaries and when the directory had to grow. */
  lemma {:induction false} CreateInsertsOne(v: Vol, chain: seq<nat>, w: Creation, v': Vol, name: seq<u8>,
                                          attributes: u8, info: DirectoryEntryInfo)
    requires WellFormed(v) && v.clusterSize % 32 == 0 && Storable(name) && IsChain(v.fat, chain)
    requires Created(v, chain, w, v', name, attributes, info)
    requires Tidy(DirRoles(v, chain))
    requires name[0] != 0 && name[0] != ENTRY_DELETED
    requires attributes == ATTRIBUTE_ARCHIVE || attributes == ATTRIBUTE_DIRECTORY
    ensures InTable(v'.data, w.chain)
    ensures Placed(DirRoles(v, chain), DirRoles(v', w.chain), w.idx,
                   Item(NewEntry(name, attributes, info.firstCluster, w.idx)))
    ensures Tidy(DirRoles(v', w.chain))
    ensures var roles, roles' := DirRoles(v, chain), DirRoles(v', w.chain);
            var e := NewEntry(name, attributes, info.firstCluster, w.idx).(name := ListedName(roles, w.idx, name));
            && DirListing(v, chain) == Listing(roles[..w.idx], 0, []) + Listing(roles', w.idx + 1, [])
            && DirListing(v', w.chain) == Listing(roles[..w.idx], 0, []) + [e] + Listing(roles', w.idx + 1, [])
  {
    hide Created, Decoded, ShortName, Storable, Roles, ChainBytes, Tidy, Listing, Pending, WellFormed, IsChain;
    CreatedItem(v, chain, w, v', name, attributes, info);
    PlacedListing(DirRoles(v, chain), DirRoles(v', w.chain), w.idx,
                  Item(NewEntry(name, attributes, info.firstCluster, w.idx)));
  }

  lemma {:induction false} DeletedMarkRole(name: seq<u8>, attributes: u8, firstCluster: nat, idx: nat)
    requires Storable(name) && firstCluster < U32_LIMIT && name[0] == ENTRY_DELETED
    ensures RoleOf(EntrySlot(ShortName(name), attributes, firstCluster), idx) == Deleted
  {
    hide ShortName, EntrySlot;
    ShortNameStart(name);
    EntrySlotFields(ShortName(name), attributes, firstCluster);
    var slot := EntrySlot(ShortName(name), attributes, firstCluster);
    assert slot[0] == slot[..11][0];
  }

  /** A name whose first byte is the deletion mark is stored and lost: exactly then
      the listing does not change. */
  lemma {:induction false} DeletedMarkNameIsLost(v: Vol, chain: seq<nat>, w: Creation, v': Vol, name: seq<u8>,
                                          attributes: u8, info: DirectoryEntryInfo)
    requires WellFormed(v) && v.clusterSize % 32 == 0 && Storable(name) && IsChain(v.fat, chain)
    requires Created(v, chain, w, v', name, attributes, info)
    requires Tidy(DirRoles(v, chain)) && name[0] != 0
    requires attributes == ATTRIBUTE_ARCHIVE || attributes == ATTRIBUTE_DIRECTORY
    ensures InTable(v'.data, w.chain)
    ensures DirListing(v', w.chain) == DirListing(v, chain) <==> name[0] == ENTRY_DELETED
  {
    hide Grown, WriteStep, NewDirectory, EntrySlot, Tidy, Placed, Decoded, Listing, RoleOf, Roles, ChainBytes;
    hide ShortName, Pending;
    if name[0] == ENTRY_DELETED {
      CreatedRoles(v, chain, w, v', name, attributes, info);
      DeletedMarkRole(name, attributes, info.firstCluster, w.idx);
      PlacedListing(DirRoles(v, chain), DirRoles(v', w.chain), w.idx, Deleted);
    } else {
      CreateInsertsOne(v, chain, w, v', name, attributes, info);
    }
  }

  lemma {:induction false} SameLengthUnlessFull(v: Vol, chain: seq<nat>, w: Creation, v': Vol)
    requires WellFormed(v) && IsChain(v.fat, chain) && WellFormed(v') && IsChain(v'.fat, w.chain)
    requires v.clusterSize == v'.clusterSize
    ensures InTable(v.data, chain) && InTable(v'.data, w.chain)
    ensures w.chain == chain ==> |ChainBytes(v.data, chain)| == |ChainBytes(v'.data, w.chain)|
  {
    ChainIsSized(v, chain);
    ChainIsSized(v', w.chain);
    ChainBytesLength(v.data, chain, v.clusterSize);
    ChainBytesLength(v'.data, w.chain, v'.clusterSize);
  }

  /** `es` has an entry of that name, up to case. */
  predicate HasName(es: seq<Entry>, name: seq<u8>) {
    exists i :: 0 <= i < |es| && NamesEqual(es[i].name, name)
  }

  /** Names stay unique up to case exactly when no entry has the name the new one is
      listed under, or when the new one is lost. */
  lemma {:induction false} CreateUniqueIff(v: Vol, chain: seq<nat>, w: Creation, v': Vol, name: seq<u8>,
                                          attributes: u8, info: DirectoryEntryInfo)
    requires WellFormed(v) && v.clusterSize % 32 == 0 && Storable(name) && IsChain(v.fat, chain)
    requires Created(v, chain, w, v', name, attributes, info)
    requires Tidy(DirRoles(v, chain)) && name[0] != 0
    requires attributes == ATTRIBUTE_ARCHIVE || attributes == ATTRIBUTE_DIRECTORY
    requires NamesDistinct(DirListing(v, chain))
    ensures InTable(v'.data, w.chain)
    ensures NamesDistinct(DirListing(v', w.chain)) <==>
            name[0] == ENTRY_DELETED || !HasName(DirListing(v, chain), ListedName(DirRoles(v, chain), w.idx, name))
  {
    hide Grown, WriteStep, NewDirectory, Decoded, ShortName, Tidy, NamesDistinct;
    if name[0] == ENTRY_DELETED {
      DeletedMarkNameIsLost(v, chain, w, v', name, attributes, info);
    } else {
      CreateInsertsOne(v, chain, w, v', name, attributes, info);
      var roles, roles' := DirRoles(v, chain), DirRoles(v', w.chain);
      var e := NewEntry(name, attributes, info.firstCluster, w.idx).(name := ListedName(roles, w.idx, name));
      InsertDistinctIff(Listing(roles[..w.idx], 0, []), Listing(roles', w.idx + 1, []), e);
    }
  }

  lemma {:induction false} InsertDistinctIff(front: seq<Entry>, back: seq<Entry>, e: Entry)
    requires NamesDistinct(front + back)
    ensures NamesDistinct(front + [e] + back) <==> !HasName(front + back, e.name)
  {
    if HasName(front + back, e.name) {
      var k :| 0 <= k < |front + back| && NamesEqual((front + back)[k].name, e.name);
      InsertDuplicates(front, back, e, k);
    } else {
      InsertKeepsDistinct(front, back, e, e.name);
    }
  }

  /** Behind the search, which refuses a name some entry has: a faithful name keeps names
      unique unless a long name was left over before its slot; any other name exactly when
      nothing has the name it is listed under. */
  lemma {:induction false} CreateKeepsUnique(v: Vol, chain: seq<nat>, w: Creation, v': Vol, name: seq<u8>,
                                          attributes: u8, info: DirectoryEntryInfo)
    requires WellFormed(v) && v.clusterSize % 32 == 0 && Storable(name) && IsChain(v.fat, chain)
    requires Created(v, chain, w, v', name, attributes, info)
    requires Tidy(DirRoles(v, chain)) && 0 !in name
    requires attributes == ATTRIBUTE_ARCHIVE || attributes == ATTRIBUTE_DIRECTORY
    requires NamesDistinct(DirListing(v, chain)) && !HasName(DirListing(v, chain), name)
    ensures InTable(v'.data, w.chain)
    ensures NamesDistinct(DirListing(v', w.chain)) <==>
            || name[0] == ENTRY_DELETED
            || (Pending(DirRoles(v, chain)[..w.idx]) == [] && Faithful(name))
            || !HasName(DirListing(v, chain), ListedName(DirRoles(v, chain), w.idx, name))
  {
    hide Grown, WriteStep, NewDirectory, Tidy, NamesDistinct;
    assert name[0] in name;
    CreateUniqueIff(v, chain, w, v', name, attributes, info);
    if Faithful(name) {
      FaithfulDecodes(name);
    }
  }

  lemma {:induction false} InsertDuplicates(front: seq<Entry>, back: seq<Entry>, e: Entry, k: nat)
    requires k < |front + back| && NamesEqual((front + back)[k].name, e.name)
    ensures !NamesDistinct(front + [e] + back)
  {
    var es, n := front + [e] + back, |front|;
    assert es[n] == e;
    if k < n {
      assert es[k] == (front + back)[k];
    } else {
      assert es[k + 1] == (front + back)[k];
    }
  }

  /** A name of one small letter comes back from its 11 bytes. */
  lemma {:induction false} LetterStored(c: u8)
    requires 0x61 <= c <= 0x7A
    ensures Storable([c]) && Decoded(ShortName([c])) == [c] && ShortName([c])[0] == c - 0x20
  {
    var name: seq<u8> := [c];
    assert Dots(name) == 0;
    assert Base(name) == name && Extension(name) == [];
    FaithfulDecodes(name);
    assert Lower(name) == name;
  }

  /** "a." gets the bytes of "a". */
  lemma {:induction false} LoneNameStored()
    ensures Storable([0x61]) && Storable([0x61, DOT]) && ShortName([0x61, DOT]) == ShortName([0x61])
    ensures Decoded(ShortName([0x61])) == [0x61] && ShortName([0x61])[0] == 0x41
    ensures !NamesEqual([0x61], [0x61, DOT])
  {
    hide Decoded;
    var a, name: seq<u8> := [0x61], [0x61, DOT];
    DotWithoutExtensionIsLost();
    LetterStored(0x61);
    assert Base(a) == a && Extension(a) == [];
    assert LastDot(name) == 1 && Base(name) == a && Extension(name) == [];
    assert |Lower(a)| != |Lower(name)|;
  }

  /** The roles of a directory of one cluster with two slots, the second never used. */
  lemma {:induction false} OneSlotDirectory(v: Vol, slot: seq<u8>)
    requires |v.data| == 3 && |slot| == 32 && v.data[2] == slot + Zeros(32)
    ensures InTable(v.data, [2]) && ChainBytes(v.data, [2]) == v.data[2]
    ensures DirRoles(v, [2]) == [RoleOf(slot, 0), End]
  {
    var b := v.data[2];
    assert [2][..0] == [];
    assert ChainBytes(v.data, []) == [];
    assert SlotOf(b, 0) == slot;
    assert SlotOf(b, 1)[0] == b[32] == 0;
  }

  /** A volume whose only cluster is a directory that lists "a". */
  lemma {:induction false} LoneDirectory()
    returns (v: Vol)
    ensures WellFormed(v) && v.clusterSize == 64 && v.fat == [0, 0, END_MARK]
    ensures IsChain(v.fat, [2]) && InTable(v.data, [2]) && |v.data| == 3 && |v.data[2]| == 64
    ensures DirListing(v, [2]) == [Entry([0x61], ATTRIBUTE_ARCHIVE, 0, 0, 0)]
    ensures Tidy(DirRoles(v, [2])) && FirstFreeSlot(DirRoles(v, [2]), 1) && |DirRoles(v, [2])| == 2
    ensures Pending(DirRoles(v, [2])[..1]) == []
  {
    hide EntrySlot, RoleOf, Decoded, ShortName, Roles, ChainBytes;
    LoneNameStored();
    var slot := EntrySlot(ShortName([0x61]), ATTRIBUTE_ARCHIVE, 0);
    EntrySlotRole(slot, ShortName([0x61]), ATTRIBUTE_ARCHIVE, 0, 0);
    var none: seq<u8> := [];
    v := Vol(64, [0, 0, END_MARK], [none, none, slot + Zeros(32)], 2, 0);
    assert Link(v.fat, [2], 0);
    OneSlotDirectory(v, slot);
    ItemFirst(DirRoles(v, [2]), 0);
    NothingLeft(DirRoles(v, [2]), 1);
  }

  /** Storing a file's slot in the second slot of that directory is a creation. */
  lemma {:induction false} SecondSlotStored(v: Vol, name: seq<u8>, w: Creation, v': Vol, info: DirectoryEntryInfo)
    requires WellFormed(v) && v.clusterSize == 64 && |v.fat| == 3 && IsChain(v.fat, [2]) && InTable(v.data, [2])
    requires FirstFreeSlot(DirRoles(v, [2]), 1) && Storable(name)
    requires w == Creation(1, [2], v, v) && info == Info(name, ATTRIBUTE_ARCHIVE, 0, 0, 2, 2, 32, 1)
    requires |v.data[2]| == 64
    requires v' == v.(data := v.data[2 := Overlay(v.data[2], 32, EntrySlot(ShortName(name), ATTRIBUTE_ARCHIVE, 0))])
    ensures Created(v, [2], w, v', name, ATTRIBUTE_ARCHIVE, info)
  {
    hide EntrySlot, ShortName, Storable, Overlay, Roles, ChainBytes, WriteStep, IsChain, FirstFreeSlot;
    GrownRefl(v, [2]);
    SlotStored(v, [2], 1, 2, 32, EntrySlot(ShortName(name), ATTRIBUTE_ARCHIVE, 0));
  }

  /** A directory that lists "a", and the same after "a." was created in it. */
  lemma {:induction false} DotNameDuplicates()
    returns (v: Vol, w: Creation, v': Vol, info: DirectoryEntryInfo)
    ensures WellFormed(v) && IsChain(v.fat, [2]) && Storable([0x61, DOT]) && InTable(v.data, [2])
    ensures Tidy(DirRoles(v, [2])) && NamesDistinct(DirListing(v, [2])) && !HasName(DirListing(v, [2]), [0x61, DOT])
    ensures Created(v, [2], w, v', [0x61, DOT], ATTRIBUTE_ARCHIVE, info)
    ensures InTable(v'.data, w.chain) && !NamesDistinct(DirListing(v', w.chain))
  {
    hide EntrySlot, Decoded, ShortName, Storable, Roles, Listing, Created, WellFormed, IsChain, Tidy;
    var name: seq<u8> := [0x61, DOT];
    LoneNameStored();
    v := LoneDirectory();
    w := Creation(1, [2], v, v);
    info := Info(name, ATTRIBUTE_ARCHIVE, 0, 0, 2, 2, 32, 1);
    v' := v.(data := v.data[2 := Overlay(v.data[2], 32, EntrySlot(ShortName(name), ATTRIBUTE_ARCHIVE, 0))]);
    SecondSlotStored(v, name, w, v', info);
    CreateUniqueIff(v, [2], w, v', name, ATTRIBUTE_ARCHIVE, info);
    assert DirListing(v, [2])[0].name == [0x61] == Decoded(ShortName(name));
  }

  // ---------------------------------------------------------------- a new directory

  /** The new directory itself, on the volume the creation leaves: one cluster outside the
      parent's chain, with the bytes it was filled with. */
  lemma {:induction false} NewDirectoryBytes(v: Vol, chain: seq<nat>, w: Creation, v': Vol, name: seq<u8>,
                                             attributes: u8, info: DirectoryEntryInfo)
    requires WellFormed(v) && Storable(name) && IsChain(v.fat, chain)
    requires Created(v, chain, w, v', name, attributes, info) && IsDirectory(attributes)
    ensures var c := info.firstCluster;
            && IsChain(v'.fat, [c]) && InTable(v'.data, [c]) && c !in w.chain
            && 64 <= v.clusterSize && chain[0] < U32_LIMIT
            && ChainBytes(v'.data, [c]) == DotCluster(v.clusterSize, c, chain[0])
  {
    hide ChainBytes, DotCluster, IsChain;
    var c := info.firstCluster;
    NewDirectoryIsFileStep(w.grown, w.filled, c, chain[0]);
    FreeIsOutside(w.grown.fat, w.chain, c);
    OutsideUntouched(w.filled, w.chain, v', w.chain, [c]);
  }

  /** A new directory lists exactly "." and "..", itself and its parent, and hides nothing. */
  lemma {:induction false} NewDirectoryListsDots(v: Vol, chain: seq<nat>, w: Creation, v': Vol, name: seq<u8>,
                                                 attributes: u8, info: DirectoryEntryInfo)
    requires WellFormed(v) && v.clusterSize % 32 == 0 && Storable(name) && IsChain(v.fat, chain)
    requires Created(v, chain, w, v', name, attributes, info) && IsDirectory(attributes)
    ensures InTable(v'.data, [info.firstCluster])
    ensures DirListing(v', [info.firstCluster]) ==
            [Entry([DOT], ATTRIBUTE_DIRECTORY, info.firstCluster, 0, 0),
             Entry([DOT, DOT], ATTRIBUTE_DIRECTORY, chain[0], 0, 1)]
    ensures Tidy(DirRoles(v', [info.firstCluster]))
  {
    hide Grown, WriteStep, NewDirectory, DotCluster, Roles, Listing;
    NewDirectoryBytes(v, chain, w, v', name, attributes, info);
    DotClusterLists(v.clusterSize, info.firstCluster, chain[0]);
  }

  /** A new directory can be removed: it holds nothing but its dot entries and is none itself. */
  lemma {:induction false} NewDirectoryIsRemovable(v: Vol, chain: seq<nat>, w: Creation, v': Vol, name: seq<u8>,
                                                   attributes: u8, info: DirectoryEntryInfo)
    requires WellFormed(v) && v.clusterSize % 32 == 0 && Storable(name) && IsChain(v.fat, chain)
    requires Created(v, chain, w, v', name, attributes, info) && IsDirectory(attributes) && 0 !in name
    ensures WellFormed(v') && IsChain(v'.fat, [info.firstCluster]) && OnlyDots(v', [info.firstCluster])
    ensures !IsDotEntry(Decoded(ShortName(name)))
  {
    hide Grown, NewDirectory, Roles, Listing, Decoded, ShortName, Storable;
    NewDirectoryBytes(v, chain, w, v', name, attributes, info);
    NewDirectoryListsDots(v, chain, w, v', name, attributes, info);
    DecodedIsNoDotEntry(name);
  }

  lemma {:induction false} DecodedIsNoDotEntry(name: seq<u8>)
    requires Storable(name) && 0 !in name
    ensures !IsDotEntry(Decoded(ShortName(name)))
  {
    hide Storable, ShortName, Decoded, Trim, IsDotEntry;
    PartsHaveNoDot(name);
    var base, ext := PadTo(Upper(Base(name)), 8), PadTo(Upper(Extension(name)), 3);
    DecodedParts(name);
    JoinedIsNoDotEntry(Lower(Trim(base)), Lower(Trim(ext)));
  }

  lemma {:induction false} JoinedIsNoDotEntry(base: seq<u8>, ext: seq<u8>)
    requires DOT !in base && DOT !in ext && 0 !in base && 0 !in ext
    ensures !IsDotEntry(CString(Joined(base, ext)))
  {
    var r := Joined(base, ext);
    assert CString(r) == r;
    assert base != [] ==> r[0] == base[0];
    assert ext != [] ==> r[|r| - 1] == ext[|ext| - 1];
  }

  lemma {:induction false} PartsHaveNoDot(name: seq<u8>)
    requires Storable(name) && 0 !in name
    ensures |Base(name)| <= 8 && |Extension(name)| <= 3
    ensures var base, ext := Lower(Trim(PadTo(Upper(Base(name)), 8))), Lower(Trim(PadTo(Upper(Extension(name)), 3)));
            DOT !in base && DOT !in ext && 0 !in base && 0 !in ext
  {
    BaseHasNoDot(name);
    assert forall x :: x in Base(name) || x in Extension(name) ==> x in name;
    PaddedHasNoDot(Base(name), 8);
    PaddedHasNoDot(Extension(name), 3);
  }

  lemma {:induction false} PaddedHasNoDot(s: seq<u8>, n: nat)
    requires |s| <= n && DOT !in s && 0 !in s
    ensures DOT !in Lower(Trim(PadTo(Upper(s), n))) && 0 !in Lower(Trim(PadTo(Upper(s), n)))
  {
    var p := PadTo(Upper(s), n);
    var t := Trim(p);
    forall i | 0 <= i < |t|
      ensures ToLower(t[i]) != DOT && ToLower(t[i]) != 0
    {
      assert t[i] == p[i];
      assert i < |s| ==> s[i] in s;
    }
  }

  lemma {:induction false} DotClusterLists(size: nat, self: nat, parent: nat)
    requires 64 <= size && size % 32 == 0 && self < U32_LIMIT && parent < U32_LIMIT
    ensures Listing(Roles(DotCluster(size, self, parent)), 0, []) ==
            [Entry([DOT], ATTRIBUTE_DIRECTORY, self, 0, 0), Entry([DOT, DOT], ATTRIBUTE_DIRECTORY, parent, 0, 1)]
    ensures Tidy(Roles(DotCluster(size, self, parent)))
  {
    var dot := EntrySlot(DotName(false), ATTRIBUTE_DIRECTORY, self);
    var dotDot := EntrySlot(DotName(true), ATTRIBUTE_DIRECTORY, parent);
    DotRoles(dot, dotDot, self, parent);
    DotSlots(DotCluster(size, self, parent), dot, dotDot);
    TwoItems(Roles(DotCluster(size, self, parent)),
             Entry([DOT], ATTRIBUTE_DIRECTORY, self, 0, 0), Entry([DOT, DOT], ATTRIBUTE_DIRECTORY, parent, 0, 1));
  }

  lemma {:induction false} DotRoles(dot: seq<u8>, dotDot: seq<u8>, self: nat, parent: nat)
    requires self < U32_LIMIT && parent < U32_LIMIT
    requires dot == EntrySlot(DotName(false), ATTRIBUTE_DIRECTORY, self)
    requires dotDot == EntrySlot(DotName(true), ATTRIBUTE_DIRECTORY, parent)
    ensures RoleOf(dot, 0) == Item(Entry([DOT], ATTRIBUTE_DIRECTORY, self, 0, 0))
    ensures RoleOf(dotDot, 1) == Item(Entry([DOT, DOT], ATTRIBUTE_DIRECTORY, parent, 0, 1))
  {
    hide EntrySlot, RoleOf, Decoded, DotName;
    DotNamesDecode();
    EntrySlotRole(dot, DotName(false), ATTRIBUTE_DIRECTORY, self, 0);
    EntrySlotRole(dotDot, DotName(true), ATTRIBUTE_DIRECTORY, parent, 1);
  }

  lemma {:induction false} DotSlots(d: seq<u8>, dot: seq<u8>, dotDot: seq<u8>)
    requires 64 <= |d| && |dot| == 32 && |dotDot| == 32
    requires d == Overlay(Overlay(Zeros(|d|), 0, dot), 32, dotDot)
    ensures 2 <= |Roles(d)|
    ensures Roles(d)[0] == RoleOf(dot, 0) && Roles(d)[1] == RoleOf(dotDot, 1)
    ensures forall j :: 2 <= j < |Roles(d)| ==> Roles(d)[j] == End
  {
    var inner := Overlay(Zeros(|d|), 0, dot);
    assert SlotOf(d, 0) == dot by {
      OverlayElsewhere(inner, 32, dotDot, 0, 32);
    }
    assert SlotOf(d, 1) == dotDot;
    forall j | 2 <= j < |Roles(d)|
      ensures Roles(d)[j] == End
    {
      assert d[32 * j] == inner[32 * j] == Zeros(|d|)[32 * j];
      assert SlotOf(d, j)[0] == d[32 * j];
    }
  }

  lemma {:induction false} TwoItems(roles: seq<Role>, e0: Entry, e1: Entry)
    requires 2 <= |roles| && roles[0] == Item(e0) && roles[1] == Item(e1)
    requires 2 < |roles| ==> roles[2] == End
    ensures Listing(roles, 0, []) == [e0, e1]
  {
    ItemFirst(roles, 0);
    ItemFirst(roles, 1);
    NothingLeft(roles, 2);
  }

  lemma {:induction false} ItemFirst(roles: seq<Role>, i: nat)
    requires i < |roles| && roles[i].Item?
    ensures Listing(roles, i, []) == [roles[i].entry] + Listing(roles, i + 1, [])
  {
  }

  lemma {:induction false} NothingLeft(roles: seq<Role>, i: nat)
    requires i < |roles| ==> roles[i] == End
    ensures Listing(roles, i, []) == []
  {
  }

  lemma {:induction false} DotNamesDecode()
    ensures Decoded(DotName(false)) == [DOT] && Decoded(DotName(true)) == [DOT, DOT]
    ensures DotName(false)[0] == DOT && DotName(true)[0] == DOT
  {
    DotDecodes([DOT], DotName(false));
    DotDecodes([DOT, DOT], DotName(true));
  }

  lemma {:induction false} DotDecodes(dots: seq<u8>, raw: seq<u8>)
    requires 0 < |dots| <= 2 && (forall i :: 0 <= i < |dots| ==> dots[i] == DOT)
    requires raw == dots + Spaces(11 - |dots|)
    ensures Decoded(raw) == dots
  {
    assert raw[..8] == dots + Spaces(8 - |dots|);
    TrimPad(dots, 8 - |dots|);
    var none: seq<u8> := [];
    assert raw[8..] == none + Spaces(3);
    TrimPad(none, 3);
    assert Lower(dots) == dots && 0 !in dots;
  }

  // ---------------------------------------------------------------- removing

  /** Marking a slot and its long name deletes those slots in the directory's roles. */
  lemma {:induction false} MarkedIsDeleted(v: Vol, v': Vol, chain: seq<nat>, idx: nat)
    requires SlotDeleted(v, chain, idx, v') && v.clusterSize % 32 == 0
    requires idx < |DirRoles(v, chain)| && DirRoles(v, chain)[idx].Item?
    ensures RunDeleted(DirRoles(v, chain), DirRoles(v', chain),
                       RunStart(ChainBytes(v.data, chain), idx, v.clusterSize), idx)
  {
    hide Kept, FreeEntries, Roles, ChainBytes, RunStart;
    var b, b' := ChainBytes(v.data, chain), ChainBytes(v'.data, chain);
    var first := RunStart(b, idx, v.clusterSize);
    RolesAreOfSlots(b);
    RolesAreOfSlots(b');
    forall j | 0 <= j < |b| / 32
      ensures Roles(b')[j] == if first <= j <= idx then Deleted else Roles(b)[j]
      ensures first <= j < idx ==> !Roles(b)[j].Item?
    {
      MarkedSlot(b, b', first, idx, j);
    }
  }

  lemma {:induction false} RolesAreOfSlots(b: seq<u8>)
    ensures |Roles(b)| == |b| / 32
  {
  }

  lemma {:induction false} MarkedSlot(b: seq<u8>, b': seq<u8>, first: nat, idx: nat, j: nat)
    requires RunMarked(b, b', first, idx) && j < |b| / 32
    requires first <= j < idx ==> LongAt(b, j)
    ensures Roles(b')[j] == if first <= j <= idx then Deleted else Roles(b)[j]
    ensures first <= j < idx ==> !Roles(b)[j].Item?
  {
    if first <= j <= idx {
      assert ByteMarked(b, b', first, idx, 32 * j);
      assert SlotOf(b', j)[0] == ENTRY_DELETED;
      assert SlotOf(b, j)[11] == b[32 * j + 11];
    } else {
      forall i | 0 <= i < 32
        ensures SlotOf(b', j)[i] == SlotOf(b, j)[i]
      {
        assert ByteMarked(b, b', first, idx, 32 * j + i);
      }
      assert SlotOf(b', j) == SlotOf(b, j);
    }
  }

  /** Removing is a step of the directory and then one of the file. */
  lemma {:induction false} ErasedSteps(v: Vol, dir: seq<nat>, idx: nat, file: seq<nat>, mid: Vol, v': Vol)
    requires Erased(v, dir, idx, file, mid, v')
    ensures SlotDeleted(v, dir, idx, mid)
    ensures FileStep(mid, file, v', [])
  {
    if file == [] {
      FileStepRefl(mid, file);
    } else {
      ReleaseIsFileStep(mid, file);
    }
  }

  /** The roles of the directory on the volume a removal leaves. */
  lemma {:induction false} ErasedRoles(v: Vol, dir: seq<nat>, idx: nat, file: seq<nat>, mid: Vol, v': Vol)
    requires IsChain(v.fat, dir) && v.clusterSize % 32 == 0
    requires Erased(v, dir, idx, file, mid, v') && forall c :: c in dir ==> c !in file
    requires idx < |DirRoles(v, dir)| && DirRoles(v, dir)[idx].Item?
    ensures IsChain(v'.fat, dir) && InTable(v'.data, dir)
    ensures RunDeleted(DirRoles(v, dir), DirRoles(v', dir), RunStart(ChainBytes(v.data, dir), idx, v.clusterSize), idx)
  {
    hide Erased, IsChain, Roles, RunMarked, RunDeleted, RunStart;
    ErasedSteps(v, dir, idx, file, mid, v');
    MarkedIsDeleted(v, mid, dir, idx);
    OutsideUntouched(mid, file, v', [], dir);
  }

  /** Removing a listed entry takes exactly that entry out of the listing, its long name
      included, wherever the slots lie. */
  lemma {:induction false} RemoveTakesOne(v: Vol, dir: seq<nat>, idx: nat, file: seq<nat>, mid: Vol, v': Vol)
    requires IsChain(v.fat, dir) && v.clusterSize % 32 == 0
    requires Erased(v, dir, idx, file, mid, v') && forall c :: c in dir ==> c !in file
    requires idx < |DirRoles(v, dir)| && DirRoles(v, dir)[idx].Item?
    requires forall j :: 0 <= j < idx ==> !DirRoles(v, dir)[j].End?
    ensures IsChain(v'.fat, dir) && InTable(v'.data, dir) && (Tidy(DirRoles(v, dir)) ==> Tidy(DirRoles(v', dir)))
    ensures var roles := DirRoles(v, dir);
            && DirListing(v, dir) ==
               Listing(roles[..idx], 0, []) + [Named(roles[idx].entry, Pending(roles[..idx]))]
                   + Listing(roles, idx + 1, [])
            && DirListing(v', dir) == Listing(roles[..idx], 0, []) + Listing(roles, idx + 1, [])
  {
    hide Kept, FreeEntries, RunMarked, FreeWalk, IsChain, Tidy, Roles, Listing, RunDeleted;
    ErasedRoles(v, dir, idx, file, mid, v');
    var first := RunStart(ChainBytes(v.data, dir), idx, v.clusterSize);
    DeletedListing(DirRoles(v, dir), DirRoles(v', dir), first, idx);
    if Tidy(DirRoles(v, dir)) {
      DeletedStaysTidy(DirRoles(v, dir), DirRoles(v', dir), first, idx);
    }
  }

  /** The clusters a creation gave to the new entry itself. */
  function NewChain(attributes: u8, firstCluster: nat): seq<nat> {
    if IsDirectory(attributes) then [firstCluster] else []
  }

  /** What a creation takes: clusters for the directory and for the new entry. */
  lemma {:induction false} CreatedCount(v: Vol, chain: seq<nat>, w: Creation, v': Vol, name: seq<u8>, attributes: u8,
                                        info: DirectoryEntryInfo)
    requires WellFormed(v) && Storable(name) && Created(v, chain, w, v', name, attributes, info)
    ensures WellFormed(v')
    ensures FreeEntries(v'.fat) + |w.chain| + |NewChain(attributes, info.firstCluster)| == FreeEntries(v.fat) + |chain|
  {
    hide Kept, FreeEntries, BytesAfter, DotCluster, EntrySlot, Roles, ChainBytes;
    if IsDirectory(attributes) {
      NewDirectoryIsFileStep(w.grown, w.filled, info.firstCluster, chain[0]);
    }
  }

  lemma {:induction false} ErasedCount(v: Vol, dir: seq<nat>, idx: nat, file: seq<nat>, mid: Vol, v': Vol)
    requires Erased(v, dir, idx, file, mid, v')
    ensures WellFormed(v) && WellFormed(v') && FreeEntries(v'.fat) == FreeEntries(v.fat) + |file|
  {
    hide Erased, RunMarked, ChainBytes, Kept, FreeEntries;
    ErasedSteps(v, dir, idx, file, mid, v');
    DeletedKeepsCount(v, dir, idx, mid);
  }

  /** Creating an entry and removing it again restores the listing and gives back every
      cluster, except those a full directory had to grow by. */
  lemma {:induction false} CreateThenRemoveRestores(v: Vol, chain: seq<nat>, w: Creation, v1: Vol, mid: Vol, v2: Vol,
                                          name: seq<u8>, attributes: u8, info: DirectoryEntryInfo)
    requires WellFormed(v) && v.clusterSize % 32 == 0 && Storable(name) && IsChain(v.fat, chain)
    requires Created(v, chain, w, v1, name, attributes, info)
    requires Tidy(DirRoles(v, chain))
    requires name[0] != 0 && name[0] != ENTRY_DELETED
    requires attributes == ATTRIBUTE_ARCHIVE || attributes == ATTRIBUTE_DIRECTORY
    requires Erased(v1, w.chain, w.idx, NewChain(attributes, info.firstCluster), mid, v2)
    ensures InTable(v2.data, w.chain) && DirListing(v2, w.chain) == DirListing(v, chain)
    ensures WellFormed(v2) && FreeEntries(v2.fat) + |w.chain| == FreeEntries(v.fat) + |chain|
  {
    hide Created, Erased, IsChain, Tidy, Roles, Listing, FreeEntries, ChainBytes, Placed, Decoded, Storable, Pending;
    var file := NewChain(attributes, info.firstCluster);
    CreatedCount(v, chain, w, v1, name, attributes, info);
    ErasedCount(v1, w.chain, w.idx, file, mid, v2);
    CreatedBytes(v, chain, w, v1, name, attributes, info);
    CreatedSize(v, chain, w, v1, name, attributes, info);
    CreateInsertsOne(v, chain, w, v1, name, attributes, info);
    var e := NewEntry(name, attributes, info.firstCluster, w.idx);
    PlacedAt(DirRoles(v, chain), DirRoles(v1, w.chain), w.idx, Item(e));
    RemoveTakesOne(v1, w.chain, w.idx, file, mid, v2);
  }

  lemma {:induction false} CreatedSize(v: Vol, chain: seq<nat>, w: Creation, v': Vol, name: seq<u8>, attributes: u8,
                                       info: DirectoryEntryInfo)
    requires WellFormed(v) && Storable(name) && IsChain(v.fat, chain)
    requires Created(v, chain, w, v', name, attributes, info)
    ensures v'.clusterSize == v.clusterSize
    ensures forall c :: c in w.chain ==> c !in NewChain(attributes, info.firstCluster)
  {
    hide Kept, FreeEntries, BytesAfter, DotCluster, EntrySlot, Roles, ChainBytes;
    if IsDirectory(attributes) {
      NewDirectoryBytes(v, chain, w, v', name, attributes, info);
    }
  }

  lemma {:induction false} DeletedKeepsCount(v: Vol, chain: seq<nat>, idx: nat, v': Vol)
    requires SlotDeleted(v, chain, idx, v')
    ensures WellFormed(v) && WellFormed(v') && FreeEntries(v'.fat) == FreeEntries(v.fat)
  {
  }

  lemma {:induction false} PlacedAt(roles: seq<Role>, roles': seq<Role>, idx: nat, r: Role)
    requires Placed(roles, roles', idx, r)
    ensures idx <= |roles| && idx < |roles'| && roles'[idx] == r && roles'[..idx] == roles[..idx]
    ensures forall j :: 0 <= j < idx ==> !roles'[j].End?
  {
  }

  /** The driver deletes long-name slots in the entry's own cluster only. When a long name
      reaches back over the start of the cluster, its first slots stay behind. When nothing
      before is free, the next entry created is listed under what they hold: under its own
      name exactly when they hold nothing, or just that name. */
  lemma {:induction false} CutLongNameSticks(v: Vol, dir: seq<nat>, idx: nat, file: seq<nat>, mid: Vol, v1: Vol,
                                             w: Creation, v2: Vol, name: seq<u8>, info: DirectoryEntryInfo)
    requires IsChain(v.fat, dir) && v.clusterSize % 32 == 0 && Storable(name)
    requires Erased(v, dir, idx, file, mid, v1) && forall c :: c in dir ==> c !in file
    requires idx < |DirRoles(v, dir)| && DirRoles(v, dir)[idx].Item?
    requires WellFormed(v1) && Created(v1, dir, w, v2, name, ATTRIBUTE_ARCHIVE, info)
    requires Tidy(DirRoles(v, dir)) && name[0] != 0 && name[0] != ENTRY_DELETED
    requires forall j :: 0 <= j < idx ==> !FreeRole(DirRoles(v, dir)[j])
    ensures var first := RunStart(ChainBytes(v.data, dir), idx, v.clusterSize);
            var left, es := Pending(DirRoles(v, dir)[..first]), Listing(DirRoles(v, dir)[..first], 0, []);
            && w.idx == first && InTable(v2.data, w.chain) && |es| < |DirListing(v2, w.chain)|
            && (left != [] ==> DirListing(v2, w.chain)[|es|].name == left)
            && (DirListing(v2, w.chain)[|es|].name == Decoded(ShortName(name)) <==>
                left == [] || left == Decoded(ShortName(name)))
  {
    hide Created, Kept, FreeEntries, RunMarked, FreeWalk, IsChain, Tidy, Roles, Listing, ChainBytes, Decoded;
    hide RunStart, Pending;
    var first := RunStart(ChainBytes(v.data, dir), idx, v.clusterSize);
    var roles := DirRoles(v, dir);
    RemoveTakesOne(v, dir, idx, file, mid, v1);
    ErasedRoles(v, dir, idx, file, mid, v1);
    ErasedSize(v, dir, idx, file, mid, v1);
    CreatedInFirst(v1, dir, w, v2, name, ATTRIBUTE_ARCHIVE, info);
    FirstFreed(roles, DirRoles(v1, dir), first, idx, w.idx);
    CreateInsertsOne(v1, dir, w, v2, name, ATTRIBUTE_ARCHIVE, info);
  }

  /** The slots of a directory of two clusters: "a" and the one part "x" of a long name, then
      the entry "b" it belongs to and an unused slot. */
  lemma {:induction false} CutDirectory(v: Vol, a: seq<u8>, x: seq<u8>, b: seq<u8>)
    requires v.clusterSize == 64 && |v.data| == 4 && |a| == 32 && |x| == 32 && |b| == 32
    requires v.data[2] == a + x && v.data[3] == b + Zeros(32)
    ensures InTable(v.data, [2, 3]) && DirRoles(v, [2, 3]) == [RoleOf(a, 0), RoleOf(x, 1), RoleOf(b, 2), End]
    ensures RunStart(ChainBytes(v.data, [2, 3]), 2, 64) == 2
  {
    hide RoleOf;
    var d := ChainBytes(v.data, [2, 3]);
    assert [2, 3][..1] == [2] && [2][..0] == [];
    assert ChainBytes(v.data, []) == [];
    assert ChainBytes(v.data, [2]) == a + x;
    assert d == a + x + (b + Zeros(32));
    assert SlotOf(d, 0) == a && SlotOf(d, 1) == x && SlotOf(d, 2) == b;
    assert SlotOf(d, 3) == Zeros(32);
    EndOfZeros(3);
    assert Within(64, 64) == 0;
  }

  lemma {:induction false} EndOfZeros(i: nat)
    ensures RoleOf(Zeros(32), i) == End
  {
  }

  /** The volume with that directory. */
  lemma {:induction false} CutVolume() returns (v: Vol, roles: seq<Role>)
    ensures WellFormed(v) && v.clusterSize == 64 && v.fat == [0, 0, 3, END_MARK] && |v.data| == 4
    ensures |v.data[3]| == 64 && IsChain(v.fat, [2, 3]) && InTable(v.data, [2, 3])
    ensures roles == [Item(Entry([0x61], ATTRIBUTE_ARCHIVE, 0, 0, 0)), LongName([0x78]),
                      Item(Entry([0x62], ATTRIBUTE_ARCHIVE, 0, 0, 2)), End]
    ensures DirRoles(v, [2, 3]) == roles && RunStart(ChainBytes(v.data, [2, 3]), 2, 64) == 2
  {
    hide EntrySlot, RoleOf, Decoded, ShortName, Storable, Roles, ChainBytes, LongSlot, RunStart;
    LetterStored(0x61);
    LetterStored(0x62);
    var a := EntrySlot(ShortName([0x61]), ATTRIBUTE_ARCHIVE, 0);
    var b := EntrySlot(ShortName([0x62]), ATTRIBUTE_ARCHIVE, 0);
    EntrySlotRole(a, ShortName([0x61]), ATTRIBUTE_ARCHIVE, 0, 0);
    EntrySlotRole(b, ShortName([0x62]), ATTRIBUTE_ARCHIVE, 0, 2);
    LetterPart(0x78);
    var x := LongSlot([0x78], 0, 0);
    var none: seq<u8> := [];
    v := Vol(64, [0, 0, 3, END_MARK], [none, none, a + x, b + Zeros(32)], 2, 0);
    assert Link(v.fat, [2, 3], 0) && Link(v.fat, [2, 3], 1);
    CutDirectory(v, a, x, b);
    roles := DirRoles(v, [2, 3]);
  }

  /** The long-name slot that holds one letter. */
  lemma {:induction false} LetterPart(c: u8)
    requires c != 0
    ensures PartCount([c]) == 1 && RoleOf(LongSlot([c], 0, 0), 1) == LongName([c])
  {
    hide LongSlot, LongPart, CarriesPart, UnitBytes;
    LongSlotFields([c], 0, 0);
    LongSlotCarries([c], 0, 0);
    PartIsSlice(LongSlot([c], 0, 0), [c], 0);
  }

  /** "b", whose long name "x" starts in the cluster before, is removed and "c" is created:
      the directory lists "a" and then the new file as "x". */
  lemma {:induction false} CutLongNameInput()
    returns (v: Vol, v1: Vol, w: Creation, v2: Vol, info: DirectoryEntryInfo)
    ensures WellFormed(v) && IsChain(v.fat, [2, 3]) && v.clusterSize % 32 == 0 && InTable(v.data, [2, 3])
    ensures Erased(v, [2, 3], 2, [], v1, v1) && Tidy(DirRoles(v, [2, 3]))
    ensures |DirRoles(v, [2, 3])| == 4 && DirRoles(v, [2, 3])[2].Item?
    ensures forall j :: 0 <= j < 2 ==> !FreeRole(DirRoles(v, [2, 3])[j])
    ensures DirListing(v, [2, 3])
            == [Entry([0x61], ATTRIBUTE_ARCHIVE, 0, 0, 0), Entry([0x78], ATTRIBUTE_ARCHIVE, 0, 0, 2)]
    ensures WellFormed(v1) && Storable([0x63]) && Created(v1, [2, 3], w, v2, [0x63], ATTRIBUTE_ARCHIVE, info)
    ensures InTable(v1.data, [2, 3]) && DirListing(v1, [2, 3]) == [Entry([0x61], ATTRIBUTE_ARCHIVE, 0, 0, 0)]
    ensures InTable(v2.data, w.chain) && 1 < |DirListing(v2, w.chain)|
    ensures DirListing(v2, w.chain)[1].name == [0x78] != Decoded(ShortName([0x63])) == [0x63]
  {
    hide EntrySlot, Decoded, ShortName, Storable, Roles, ChainBytes, RunStart, WellFormed, IsChain, Created, Listing;
    hide Pending;
    var dir: seq<nat> := [2, 3];
    var name: seq<u8> := [0x63];
    LetterStored(0x63);
    var roles;
    v, roles := CutVolume();
    CutListings(roles);
    v1 := CutRemoved(v, roles);
    w, v2, info := CutCreated(v1, roles, name);
    CutLongNameSticks(v, dir, 2, [], v1, v1, w, v2, name, info);
  }

  /** What those roles list, before and after the removal of slot 2. */
  lemma {:induction false} CutListings(roles: seq<Role>)
    requires roles == [Item(Entry([0x61], ATTRIBUTE_ARCHIVE, 0, 0, 0)), LongName([0x78]),
                       Item(Entry([0x62], ATTRIBUTE_ARCHIVE, 0, 0, 2)), End]
    ensures Tidy(roles) && (forall j :: 0 <= j < 2 ==> !FreeRole(roles[j]))
    ensures Pending(roles[..2]) == [0x78]
    ensures Listing(roles[..2], 0, []) == [Entry([0x61], ATTRIBUTE_ARCHIVE, 0, 0, 0)]
    ensures Listing(roles, 0, [])
            == [Entry([0x61], ATTRIBUTE_ARCHIVE, 0, 0, 0), Entry([0x78], ATTRIBUTE_ARCHIVE, 0, 0, 2)]
    ensures Listing(roles[2 := Deleted], 0, []) == [Entry([0x61], ATTRIBUTE_ARCHIVE, 0, 0, 0)]
  {
    var none: seq<u8> := [];
    var front, gone := roles[..2], roles[2 := Deleted];
    assert front[..1] == roles[..1] && roles[..1][..0] == [];
    assert Pending(roles[..1]) == [];
    ItemFirst(front, 0);
    NoItems(front, 1, none);
    ItemFirst(roles, 0);
    ListingAround(roles, 2);
    NothingLeft(roles, 3);
    ItemFirst(gone, 0);
    NoItems(gone, 1, none);
  }

  lemma {:induction false} CutRemoved(v: Vol, roles: seq<Role>) returns (v1: Vol)
    requires WellFormed(v) && v.clusterSize == 64 && v.fat == [0, 0, 3, END_MARK] && |v.data| == 4
    requires |v.data[3]| == 64 && IsChain(v.fat, [2, 3]) && InTable(v.data, [2, 3])
    requires |roles| == 4 && DirRoles(v, [2, 3]) == roles && roles[2].Item?
    requires RunStart(ChainBytes(v.data, [2, 3]), 2, 64) == 2
    ensures Erased(v, [2, 3], 2, [], v1, v1) && IsChain(v1.fat, [2, 3]) && WellFormed(v1) && v1.clusterSize == 64
    ensures v1.fat == v.fat && |v1.data| == 4 && |v1.data[3]| == 64 && InTable(v1.data, [2, 3])
    ensures DirRoles(v1, [2, 3]) == roles[2 := Deleted]
  {
    hide Roles, ChainBytes, RunStart, IsChain, RunMarked;
    var marked := MarkBack(v.data[3][0 := ENTRY_DELETED], 0);
    assert IndexOf(64, 64) == 1 && Within(64, 64) == 0;
    ClusterMarked(v, [2, 3], 2, 3, 0, marked);
    v1 := v.(data := v.data[3 := marked]);
    MarkedIsDeleted(v, v1, [2, 3], 2);
  }

  lemma {:induction false} CutCreated(v: Vol, roles: seq<Role>, name: seq<u8>)
    returns (w: Creation, v': Vol, info: DirectoryEntryInfo)
    requires WellFormed(v) && v.clusterSize == 64 && v.fat == [0, 0, 3, END_MARK] && |v.data| == 4
    requires |v.data[3]| == 64 && IsChain(v.fat, [2, 3]) && InTable(v.data, [2, 3]) && Storable(name)
    requires |roles| == 4 && (forall j :: 0 <= j < 2 ==> !FreeRole(roles[j]))
             && DirRoles(v, [2, 3]) == roles[2 := Deleted]
    ensures Created(v, [2, 3], w, v', name, ATTRIBUTE_ARCHIVE, info)
  {
    hide EntrySlot, ShortName, Storable, Overlay, Roles, ChainBytes, WriteStep, IsChain;
    var slot := EntrySlot(ShortName(name), ATTRIBUTE_ARCHIVE, 0);
    assert IndexOf(64, 64) == 1 && Within(64, 64) == 0;
    GrownRefl(v, [2, 3]);
    SlotStored(v, [2, 3], 2, 3, 0, slot);
    w := Creation(2, [2, 3], v, v);
    v' := v.(data := v.data[3 := Overlay(v.data[3], 0, slot)]);
    info := Info(name, ATTRIBUTE_ARCHIVE, 0, 0, 2, 3, 0, 0);
  }

  lemma {:induction false} FirstFreed(roles: seq<Role>, roles': seq<Role>, first: nat, idx: nat, i: nat)
    requires RunDeleted(roles, roles', first, idx) && FirstFreeSlot(roles', i)
    requires forall j :: 0 <= j < idx ==> !FreeRole(roles[j])
    ensures i == first && roles'[..first] == roles[..first]
  {
    assert roles'[first] == Deleted;
  }

  lemma {:induction false} CreatedInFirst(v: Vol, chain: seq<nat>, w: Creation, v': Vol, name: seq<u8>, attributes: u8,
                                          info: DirectoryEntryInfo)
    requires WellFormed(v) && Storable(name) && Created(v, chain, w, v', name, attributes, info)
    ensures InTable(v.data, chain) && FirstFreeSlot(DirRoles(v, chain), w.idx)
  {
  }

  lemma {:induction false} ErasedSize(v: Vol, dir: seq<nat>, idx: nat, file: seq<nat>, mid: Vol, v': Vol)
    requires Erased(v, dir, idx, file, mid, v')
    ensures v'.clusterSize == v.clusterSize
  {
    ErasedSteps(v, dir, idx, file, mid, v');
  }

  /** A removal, seen as a run of the volume: bytes of the directory are written, then the
      file is freed. */
  lemma {:induction false} RemoveIsRun(w0: World, d: nat, idx: nat, f: nat, mid: Vol, v': Vol)
    returns (ws: seq<World>, es: seq<Event>)
    requires d < |w0.files| && f < |w0.files| && d != f
    requires Erased(w0.vol, w0.files[d], idx, w0.files[f], mid, v')
    ensures Run(ws, es) && ws == [w0, World(mid, w0.files), World(v', w0.files[f := []])]
    ensures |es| == 2 && es[0].Write? && es[0].file == d && es[1] == Free(f)
  {
    hide WriteStep, IsChain, LinksStay, RunMarked, ChainBytes, RunStart, Kept, FreeEntries;
    var dir := w0.files[d];
    var w1 := World(mid, w0.files);
    var w2 := World(v', w0.files[f := []]);
    var first := RunStart(ChainBytes(w0.vol.data, dir), idx, w0.vol.clusterSize);
    RunMarkedIsWrite(w0.vol, mid, dir, first, idx);
    var mark := Event.Write(d, 32 * first, ChainBytes(mid.data, dir)[32 * first..32 * idx + 1]);
    StoreStep(w0, d, w1, mark);
    FreeStep(w0, d, idx, f, w1, w2);
    ws, es := [w0, w1, w2], [mark, Free(f)];
    assert NextAt(ws, es, 0) && NextAt(ws, es, 1);
  }

  lemma {:induction false} FreeStep(w0: World, d: nat, idx: nat, f: nat, w1: World, w2: World)
    requires d < |w0.files| && f < |w0.files|
    requires Erased(w0.vol, w0.files[d], idx, w0.files[f], w1.vol, w2.vol)
    requires w1.files == w0.files && w2.files == w0.files[f := []]
    ensures Next(w1, Free(f), w2)
  {
    assert w2.files == w1.files[f := w2.files[f]];
  }

  /** A removal keeps every other file's chain and bytes, keeps all chains apart, and
      accounts for every cluster. */
  lemma {:induction false} RemoveSparesOthers(w0: World, d: nat, idx: nat, f: nat, mid: Vol, v': Vol, i: nat)
    requires Sound(w0) && d < |w0.files| && f < |w0.files| && d != f
    requires Erased(w0.vol, w0.files[d], idx, w0.files[f], mid, v')
    requires i < |w0.files| && i != d && i != f
    ensures var w' := World(v', w0.files[f := []]);
            Sound(w') && Accounted(w') == Accounted(w0) && (CountExact(w0.vol) ==> CountExact(v'))
    ensures InTable(w0.vol.data, w0.files[i]) && InTable(v'.data, w0.files[i])
    ensures ChainBytes(v'.data, w0.files[i]) == ChainBytes(w0.vol.data, w0.files[i])
  {
    var ws, es := RemoveIsRun(w0, d, idx, f, mid, v');
    hide Erased, Sound, ChainBytes, Next, Run, FreeEntries;
    RunKeepsSound(ws, es, 2);
    RunSparesFile(ws, es, i, 2);
  }

  // ---------------------------------------------------------------- the rest of the volume

  /** A creation, seen as a run of the volume: the directory grows, the new file gets
      its cluster when it is a directory, and the slot is stored. */
  lemma {:induction false} CreateIsRun(w0: World, d: nat, w: Creation, v': Vol, name: seq<u8>, attributes: u8,
                                       info: DirectoryEntryInfo)
    returns (ws: seq<World>, es: seq<Event>)
    requires Sound(w0) && d < |w0.files| && w0.files[d] != []
    requires w0.vol.clusterSize % 32 == 0 && Storable(name)
    requires Created(w0.vol, w0.files[d], w, v', name, attributes, info)
    ensures Run(ws, es) && ws[0] == w0
    ensures ws[|es|] == World(v', w0.files[d := w.chain] + [NewChain(attributes, info.firstCluster)])
    ensures RunSparesAllBut(ws, es, d, |w0.files|)
  {
    hide Sound, EntrySlot, DotCluster, IsChain, Run, Next, RunSparesAllBut, WellFormed;
    var n, chain := |w0.files|, w0.files[d];
    var slot := EntrySlot(ShortName(name), attributes, info.firstCluster);
    var w1 := World(w.grown, w0.files[d := w.chain]);
    var w2 := World(w.grown, w1.files + [[]]);
    LookupStep(w0, d, w1);
    CreateStep(w1);
    var store := Event.Write(d, 32 * w.idx, slot);
    if IsDirectory(attributes) {
      var c := info.firstCluster;
      var fill := Event.Write(n, 0, DotCluster(w.grown.clusterSize, c, chain[0]));
      var w3 := World(w.filled, w1.files + [[c]]);
      var w4 := World(v', w3.files);
      NewDirectoryIsWrite(w.grown, w.filled, c, chain[0]);
      FillStep(w2, n, w3, fill);
      StoreStep(w3, d, w4, store);
      RunOfFour(w0, w1, w2, w3, w4, Lookup(d), Create, fill, store, d, n);
      ws, es := [w0, w1, w2, w3, w4], [Lookup(d), Create, fill, store];
    } else {
      var w3 := World(v', w2.files);
      StoreStep(w2, d, w3, store);
      RunOfThree(w0, w1, w2, w3, Lookup(d), Create, store, d, n);
      ws, es := [w0, w1, w2, w3], [Lookup(d), Create, store];
    }
  }

  /** The event is about file `d` or a file that did not exist before. */
  ghost predicate SparesAllBut(e: Event, w: World, d: nat, n: nat) {
    forall i: nat :: i < n && i != d ==> Spares(e, w, i)
  }

  ghost predicate RunSparesAllBut(ws: seq<World>, es: seq<Event>, d: nat, n: nat) {
    forall k :: 0 <= k < |es| && k < |ws| ==> SparesAllBut(es[k], ws[k], d, n)
  }

  /** The event is about file `d`, about a file from number `n` on, or about none. */
  predicate Aims(e: Event, d: nat, n: nat) {
    e.Create? || (!e.Record? && (e.file == d || n <= e.file))
  }

  lemma {:induction false} AimsSpares(e: Event, w: World, d: nat, n: nat)
    requires Aims(e, d, n)
    ensures SparesAllBut(e, w, d, n)
  {
  }

  lemma {:induction false} RunOfThree(w0: World, w1: World, w2: World, w3: World, e0: Event, e1: Event, e2: Event,
                                      d: nat, n: nat)
    requires Next(w0, e0, w1) && Next(w1, e1, w2) && Next(w2, e2, w3)
    requires Aims(e0, d, n) && Aims(e1, d, n) && Aims(e2, d, n)
    ensures Run([w0, w1, w2, w3], [e0, e1, e2]) && RunSparesAllBut([w0, w1, w2, w3], [e0, e1, e2], d, n)
  {
    hide Next, Aims, SparesAllBut;
    AimsSpares(e0, w0, d, n);
    AimsSpares(e1, w1, d, n);
    AimsSpares(e2, w2, d, n);
  }

  lemma {:induction false} RunOfFour(w0: World, w1: World, w2: World, w3: World, w4: World,
                                     e0: Event, e1: Event, e2: Event, e3: Event, d: nat, n: nat)
    requires Next(w0, e0, w1) && Next(w1, e1, w2) && Next(w2, e2, w3) && Next(w3, e3, w4)
    requires Aims(e0, d, n) && Aims(e1, d, n) && Aims(e2, d, n) && Aims(e3, d, n)
    ensures Run([w0, w1, w2, w3, w4], [e0, e1, e2, e3])
    ensures RunSparesAllBut([w0, w1, w2, w3, w4], [e0, e1, e2, e3], d, n)
  {
    hide Next, Aims, SparesAllBut;
    AimsSpares(e0, w0, d, n);
    AimsSpares(e1, w1, d, n);
    AimsSpares(e2, w2, d, n);
    AimsSpares(e3, w3, d, n);
  }

  lemma {:induction false} CreateStep(w: World)
    ensures Next(w, Create, World(w.vol, w.files + [[]]))
  {
  }

  lemma {:induction false} LookupStep(w0: World, d: nat, w1: World)
    requires d < |w0.files| && |w1.files| == |w0.files| && w1.files == w0.files[d := w1.files[d]]
    requires Grown(w0.vol, w0.files[d], w1.vol, w1.files[d])
    ensures Next(w0, Lookup(d), w1)
  {
  }

  lemma {:induction false} FillStep(w0: World, n: nat, w1: World, e: Event)
    requires |w0.files| == n + 1 == |w1.files| && w0.files[..n] == w1.files[..n]
    requires e.Write? && e.file == n && WriteStep(w0.vol, w0.files[n], w1.vol, w1.files[n], e.offset, e.bytes)
    ensures Next(w0, e, w1)
  {
    assert forall i :: 0 <= i < n ==> w0.files[i] == w0.files[..n][i] == w1.files[..n][i];
    assert w1.files == w0.files[n := w1.files[n]];
  }

  lemma {:induction false} StoreStep(w0: World, d: nat, w1: World, e: Event)
    requires d < |w0.files| && w1.files == w0.files
    requires e.Write? && e.file == d && WriteStep(w0.vol, w0.files[d], w1.vol, w0.files[d], e.offset, e.bytes)
    ensures Next(w0, e, w1)
  {
    assert w1.files == w0.files[d := w1.files[d]];
  }

  /** Filling a new directory's cluster is a write to a file that had none. */
  lemma {:induction false} NewDirectoryIsWrite(v: Vol, v': Vol, c: nat, parent: nat)
    requires WellFormed(v) && NewDirectory(v, v', c, parent)
    ensures WriteStep(v, [], v', [c], 0, DotCluster(v.clusterSize, c, parent))
  {
    NewDirectoryIsFileStep(v, v', c, parent);
    var b' := ChainBytes(v'.data, [c]);
    var none: seq<u8> := [];
    assert ChainBytes(v.data, []) == none;
    assert forall i :: 0 <= i < |b'| ==> ByteAfter(none, b', 0, b', i);
  }

  /** A creation keeps every other file's chain and bytes, keeps all chains apart, and
      accounts for every cluster. */
  lemma {:induction false} CreateSparesOthers(w0: World, d: nat, w: Creation, v': Vol, name: seq<u8>, attributes: u8,
                                          info: DirectoryEntryInfo, i: nat)
    requires Sound(w0) && d < |w0.files| && w0.files[d] != []
    requires w0.vol.clusterSize % 32 == 0 && Storable(name)
    requires Created(w0.vol, w0.files[d], w, v', name, attributes, info)
    requires i < |w0.files| && i != d
    ensures var w' := World(v', w0.files[d := w.chain] + [NewChain(attributes, info.firstCluster)]);
            Sound(w') && Accounted(w') == Accounted(w0) && (CountExact(w0.vol) ==> CountExact(v'))
    ensures InTable(w0.vol.data, w0.files[i]) && InTable(v'.data, w0.files[i])
    ensures ChainBytes(v'.data, w0.files[i]) == ChainBytes(w0.vol.data, w0.files[i])
  {
    var ws, es := CreateIsRun(w0, d, w, v', name, attributes, info);
    hide Created, WellFormed, Sound, ChainBytes, Next, Run, FreeEntries;
    RunKeepsSound(ws, es, |es|);
    assert forall k :: 0 <= k < |es| ==> SparesAllBut(es[k], ws[k], d, |w0.files|);
    RunSparesFile(ws, es, i, |es|);
  }
}
