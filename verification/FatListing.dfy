/** What the bytes of a directory mean: roles of slots, and listings. */
module FatListing {
  import opened Bytes
  import opened FatSlots
  import opened FatNames

  /** One listed entry: its name, what its slot records and the slot's position. */
  datatype Entry = Entry(name: seq<u8>, attributes: u8, firstCluster: nat, size: nat, index: nat)

  /** The role a slot plays in a listing. */
  datatype Role =
    | End                       // never used, and nothing behind it is
    | Deleted
    | LongName(part: seq<u8>)   // a piece of the next entry's long name
    | VolumeLabel
    | Item(entry: Entry)        // a file or directory, under its short name

  // ---------------------------------------------------------------- the listing

  /** An entry under the long name collected before its slot, if there is one. */
  function Named(e: Entry, lfn: seq<u8>): Entry {
    if lfn == [] then e else e.(name := lfn)
  }

  /** The entries from slot `i` on, with `lfn` collected so far: the first unused slot
      ends the directory, deleted slots and volume labels drop a pending long name,
      and a long name's parts come last part first. */
  function Listing(roles: seq<Role>, i: nat, lfn: seq<u8>): seq<Entry>
    decreases |roles| - i
  {
    if i >= |roles| then []
    else
      match roles[i]
      case End => []
      case Deleted => Listing(roles, i + 1, [])
      case LongName(part) => Listing(roles, i + 1, part + lfn)
      case VolumeLabel => Listing(roles, i + 1, [])
      case Item(e) => [Named(e, lfn)] + Listing(roles, i + 1, [])
  }

  /** What a used or deleted slot adds to the listing, given the long name collected so far. */
  function Collected(role: Role, lfn: seq<u8>): seq<Entry> {
    if role.Item? then [Named(role.entry, lfn)] else []
  }

  /** The long name collected after the slot. */
  function PendingAfter(role: Role, lfn: seq<u8>): seq<u8> {
    if role.LongName? then role.part + lfn else []
  }

  /** One step of a listing that has yielded `acc` so far. */
  lemma {:induction false} ListingStep(acc: seq<Entry>, roles: seq<Role>, i: nat, lfn: seq<u8>)
    requires i < |roles| && !roles[i].End?
    ensures acc + Listing(roles, i, lfn) ==
            (acc + Collected(roles[i], lfn)) + Listing(roles, i + 1, PendingAfter(roles[i], lfn))
  {
  }

  /** The long name collected from the slots up to here. */
  function Pending(roles: seq<Role>): seq<u8> {
    if roles == [] then [] else PendingAfter(roles[|roles| - 1], Pending(roles[..|roles| - 1]))
  }

  /** A listing that does not end before slot `i` is what the slots before it list, then
      what is listed from there with the long name collected so far. */
  lemma {:induction false} ListingSplits(roles: seq<Role>, i: nat)
    requires i <= |roles| && forall j :: 0 <= j < i ==> !roles[j].End?
    ensures Listing(roles, 0, []) == Listing(roles[..i], 0, []) + Listing(roles, i, Pending(roles[..i]))
    decreases i
  {
    if i > 0 {
      var front := roles[..i];
      assert front[..i - 1] == roles[..i - 1];
      ListingSplits(roles, i - 1);
      ListingSplits(front, i - 1);
      var none: seq<Entry> := [];
      ListingStep(none, roles, i - 1, Pending(roles[..i - 1]));
      ListingStep(none, front, i - 1, Pending(roles[..i - 1]));
    }
  }

  // ---------------------------------------------------------------- where entries come from

  lemma {:induction false} SameSuffix(roles: seq<Role>, roles': seq<Role>, i: nat, lfn: seq<u8>)
    requires |roles'| == |roles| && forall j :: i <= j < |roles| ==> roles'[j] == roles[j]
    ensures Listing(roles', i, lfn) == Listing(roles, i, lfn)
    decreases |roles| - i
  {
    if i < |roles| && !roles[i].End? {
      SameSuffix(roles, roles', i + 1, PendingAfter(roles[i], lfn));
    }
  }

  /** Slots without an item list nothing. */
  lemma {:induction false} NoItems(roles: seq<Role>, i: nat, lfn: seq<u8>)
    requires forall j :: i <= j < |roles| ==> !roles[j].Item?
    ensures Listing(roles, i, lfn) == []
    decreases |roles| - i
  {
    if i < |roles| && !roles[i].End? {
      NoItems(roles, i + 1, PendingAfter(roles[i], lfn));
    }
  }

  /** The listing around the slot of an item that is listed. */
  lemma {:induction false} ListingAround(roles: seq<Role>, i: nat)
    requires i < |roles| && roles[i].Item? && forall j :: 0 <= j < i ==> !roles[j].End?
    ensures Listing(roles, 0, []) ==
            Listing(roles[..i], 0, []) + [Named(roles[i].entry, Pending(roles[..i]))] + Listing(roles, i + 1, [])
  {
    ListingSplits(roles, i);
    var front := Listing(roles[..i], 0, []);
    ListingStep(front, roles, i, Pending(roles[..i]));
  }

  /** Each item knows the position of its slot. */
  ghost predicate ItemsIndexed(roles: seq<Role>) {
    forall i :: 0 <= i < |roles| && roles[i].Item? ==> roles[i].entry.index == i
  }

  /** The slot behind the k-th entry of a listing from slot `i` on. */
  lemma {:induction false} ListedFrom(roles: seq<Role>, i: nat, lfn: seq<u8>, k: nat) returns (p: nat)
    requires ItemsIndexed(roles) && k < |Listing(roles, i, lfn)|
    ensures i <= p < |roles| && roles[p].Item? && Listing(roles, i, lfn)[k].index == p
    ensures forall j :: i <= j < p ==> !roles[j].End?
    ensures |Listing(roles[..p], i, lfn)| == k
    decreases |roles| - i
  {
    if roles[i].Item? && k == 0 {
      return i;
    }
    var none: seq<Entry> := [];
    ListingStep(none, roles, i, lfn);
    p := ListedFrom(roles, i + 1, PendingAfter(roles[i], lfn), k - |Collected(roles[i], lfn)|);
    ListingStep(none, roles[..p], i, lfn);
  }

  /** The k-th entry comes from the slot it names: a listed item, with k entries before it. */
  lemma {:induction false} ListedSlot(roles: seq<Role>, k: nat)
    requires ItemsIndexed(roles) && k < |Listing(roles, 0, [])|
    ensures var es := Listing(roles, 0, []);
            var i := es[k].index;
            && i < |roles| && roles[i].Item? && (forall j :: 0 <= j < i ==> !roles[j].End?)
            && es[k] == Named(roles[i].entry, Pending(roles[..i]))
            && es[..k] == Listing(roles[..i], 0, []) && es[k + 1..] == Listing(roles, i + 1, [])
  {
    var none: seq<u8> := [];
    var i := ListedFrom(roles, 0, none, k);
    ListingAround(roles, i);
  }

  /** Slot `i` holds another entry of the same name: the listing changes in that entry only,
      which keeps the name it is listed under. */
  lemma {:induction false} ItemReplaced(roles: seq<Role>, roles': seq<Role>, i: nat, attributes: u8,
                                        firstCluster: nat, size: nat)
    requires i < |roles| == |roles'| && roles[i].Item? && (forall j :: 0 <= j < i ==> !roles[j].End?)
    requires roles[i].entry.index == i
    requires roles'[i] == Item(Entry(roles[i].entry.name, attributes, firstCluster, size, i))
    requires forall j :: 0 <= j < |roles| && j != i ==> roles'[j] == roles[j]
    ensures var es := Listing(roles, 0, []);
            var k := |Listing(roles[..i], 0, [])|;
            && k < |es| && es[k] == Named(roles[i].entry, Pending(roles[..i]))
            && Listing(roles', 0, []) == es[k := Entry(es[k].name, attributes, firstCluster, size, i)]
  {
    hide Listing, Pending;
    assert roles'[..i] == roles[..i];
    ListingAround(roles, i);
    ListingAround(roles', i);
    SameSuffix(roles, roles', i + 1, []);
  }

  // ---------------------------------------------------------------- inserting and deleting

  /** If slot `i` is the end mark, so is the next one. */
  ghost predicate TidyAt(roles: seq<Role>, i: nat)
    requires i < |roles|
  {
    roles[i].End? && i + 1 < |roles| ==> roles[i + 1].End?
  }

  /** Nothing hides behind an end mark; so are the directories the driver makes. */
  ghost predicate Tidy(roles: seq<Role>) {
    forall i :: 0 <= i < |roles| ==> TidyAt(roles, i)
  }

  /** Slot `idx` is the first one free for use; past the last slot when none is. */
  ghost predicate FirstFreeSlot(roles: seq<Role>, idx: nat) {
    && idx <= |roles|
    && (forall i :: 0 <= i < idx ==> !roles[i].End? && !roles[i].Deleted?)
    && (idx < |roles| ==> roles[idx].End? || roles[idx].Deleted?)
  }

  /** The first free slot `idx` now has the role `r`; the directory grew only if it
      was full, and then by unused slots. */
  ghost predicate Placed(roles: seq<Role>, roles': seq<Role>, idx: nat, r: Role) {
    && FirstFreeSlot(roles, idx)
    && |roles| <= |roles'| && idx < |roles'|
    && (idx < |roles| ==> |roles'| == |roles|)
    && roles'[idx] == r
    && (forall i :: 0 <= i < |roles| && i != idx ==> roles'[i] == roles[i])
    && (forall i :: |roles| <= i < |roles'| && i != idx ==> roles'[i] == End)
  }

  lemma {:induction false} PlacedStaysTidy(roles: seq<Role>, roles': seq<Role>, idx: nat, r: Role)
    requires Tidy(roles) && Placed(roles, roles', idx, r) && !r.End?
    ensures Tidy(roles')
  {
    forall i | 0 <= i < |roles'|
      ensures TidyAt(roles', i)
    {
      if i < |roles| {
        assert TidyAt(roles, i);
      }
    }
  }

  /** In a tidy directory a slot that takes the role `r` adds what that role lists, under
      the long name left over from the slots before it, and changes nothing else. */
  lemma {:induction false} PlacedListing(roles: seq<Role>, roles': seq<Role>, idx: nat, r: Role)
    requires Tidy(roles) && Placed(roles, roles', idx, r) && !r.LongName? && !r.End?
    ensures Tidy(roles')
    ensures Listing(roles, 0, []) == Listing(roles[..idx], 0, []) + Listing(roles', idx + 1, [])
    ensures Listing(roles', 0, []) ==
            Listing(roles[..idx], 0, []) + Collected(r, Pending(roles[..idx])) + Listing(roles', idx + 1, [])
  {
    PlacedStaysTidy(roles, roles', idx, r);
    assert roles'[..idx] == roles[..idx];
    var front, left := Listing(roles[..idx], 0, []), Pending(roles[..idx]);
    ListingSplits(roles, idx);
    ListingSplits(roles', idx);
    ListingStep(front, roles', idx, left);
    PlacedTail(roles, roles', idx, r, left);
  }

  /** Behind the placed slot both listings go on alike. */
  lemma {:induction false} PlacedTail(roles: seq<Role>, roles': seq<Role>, idx: nat, r: Role, left: seq<u8>)
    requires Tidy(roles) && Placed(roles, roles', idx, r)
    ensures Listing(roles', idx + 1, []) == Listing(roles, idx, left)
  {
    if idx == |roles| {
      NoItems(roles', idx + 1, []);
    } else if roles[idx].Deleted? {
      SameSuffix(roles, roles', idx + 1, []);
    } else {
      assert TidyAt(roles, idx);
    }
  }

  /** Slots `first` to `idx` now are deleted; the last of them was an item, the others not. */
  ghost predicate RunDeleted(roles: seq<Role>, roles': seq<Role>, first: nat, idx: nat) {
    && first <= idx < |roles| == |roles'| && roles[idx].Item?
    && (forall j :: first <= j < idx ==> !roles[j].Item?)
    && (forall j :: 0 <= j < |roles| ==> roles'[j] == if first <= j <= idx then Deleted else roles[j])
  }

  /** Deleting a listed item with slots before it that are none removes exactly its entry. */
  lemma {:induction false} DeletedListing(roles: seq<Role>, roles': seq<Role>, first: nat, idx: nat)
    requires RunDeleted(roles, roles', first, idx) && forall j :: 0 <= j < idx ==> !roles[j].End?
    ensures Listing(roles, 0, []) ==
            Listing(roles[..idx], 0, []) + [Named(roles[idx].entry, Pending(roles[..idx]))]
                + Listing(roles, idx + 1, [])
    ensures Listing(roles', 0, []) == Listing(roles[..idx], 0, []) + Listing(roles, idx + 1, [])
  {
    hide Listing;
    ListingAround(roles, idx);
    FrontUnchanged(roles, roles', first, idx);
    ListingSplits(roles', idx);
    ListingStep(Listing(roles'[..idx], 0, []), roles', idx, Pending(roles'[..idx]));
    SameSuffix(roles, roles', idx + 1, []);
  }

  lemma {:induction false} FrontUnchanged(roles: seq<Role>, roles': seq<Role>, first: nat, idx: nat)
    requires RunDeleted(roles, roles', first, idx) && forall j :: 0 <= j < idx ==> !roles[j].End?
    ensures Listing(roles'[..idx], 0, []) == Listing(roles[..idx], 0, [])
  {
    hide Listing;
    var front, front' := roles[..idx], roles'[..idx];
    assert front[..first] == front'[..first];
    ListingSplits(front, first);
    ListingSplits(front', first);
    NoItems(front, first, Pending(front[..first]));
    NoItems(front', first, Pending(front[..first]));
  }

  lemma {:induction false} DeletedStaysTidy(roles: seq<Role>, roles': seq<Role>, first: nat, idx: nat)
    requires Tidy(roles) && RunDeleted(roles, roles', first, idx) && forall j :: 0 <= j < idx ==> !roles[j].End?
    ensures Tidy(roles')
  {
    forall i | 0 <= i < |roles'|
      ensures TidyAt(roles', i)
    {
      assert TidyAt(roles, i);
    }
  }

  // ---------------------------------------------------------------- names stay unique

  ghost predicate NamesDistinct(es: seq<Entry>) {
    forall i, j :: 0 <= i < j < |es| ==> !NamesEqual(es[i].name, es[j].name)
  }

  /** Adding an entry whose name equals no listed one keeps names unique up to case. */
  lemma {:induction false} InsertKeepsDistinct(front: seq<Entry>, back: seq<Entry>, e: Entry, name: seq<u8>)
    requires NamesDistinct(front + back)
    requires NamesEqual(e.name, name)
    requires forall i :: 0 <= i < |front + back| ==> !NamesEqual((front + back)[i].name, name)
    ensures NamesDistinct(front + [e] + back)
  {
    var es, es' := front + back, front + [e] + back;
    forall i, j | 0 <= i < j < |es'|
      ensures !NamesEqual(es'[i].name, es'[j].name)
    {
      var a := if i <= |front| then i else i - 1;
      var b := if j <= |front| then j else j - 1;
      assert i != |front| ==> es'[i] == es[a];
      assert j != |front| ==> es'[j] == es[b];
    }
  }

  // ---------------------------------------------------------------- from bytes to roles

  /** The t-th of the 13 code units of a long-name slot. */
  function LongUnit(slot: seq<u8>, t: nat): nat
    requires |slot| == 32 && t < 13
  {
    if t < 5 then Le16(slot, 1 + 2 * t)
    else if t < 11 then Le16(slot, 14 + 2 * (t - 5))
    else Le16(slot, 28 + 2 * (t - 11))
  }

  /** Units `lo` up to `hi` of a slot. */
  function LongField(slot: seq<u8>, lo: nat, hi: nat): (r: seq<nat>)
    requires |slot| == 32 && lo <= hi <= 13
    ensures |r| == hi - lo
  {
    seq<nat>(hi - lo, (t: nat) requires t < hi - lo => LongUnit(slot, lo + t))
  }

  /** Units as characters: a NUL ends the field, padding is skipped. */
  function LongChars(units: seq<nat>): seq<u8> {
    if units == [] || units[0] == 0 then []
    else if units[0] == 0xFFFF then LongChars(units[1..])
    else [units[0] % 0x100] + LongChars(units[1..])
  }

  /** What one long-name slot contributes: its three fields, as a C string. */
  function LongPart(slot: seq<u8>): seq<u8>
    requires |slot| == 32
  {
    CString(LongChars(LongField(slot, 0, 5)) + LongChars(LongField(slot, 5, 11)) + LongChars(LongField(slot, 11, 13)))
  }

  function EntryOf(slot: seq<u8>, index: nat): Entry
    requires |slot| == 32
  {
    Entry(Decoded(slot[..11]), SlotAttributes(slot, 0), SlotFirstCluster(slot, 0), SlotSize(slot, 0), index)
  }

  function RoleOf(slot: seq<u8>, index: nat): Role
    requires |slot| == 32
  {
    if slot[0] == 0 then End
    else if slot[0] == ENTRY_DELETED then Deleted
    else if slot[11] == ATTRIBUTE_LONG_NAME then LongName(LongPart(slot))
    else if IsVolumeLabel(slot[11]) then VolumeLabel
    else Item(EntryOf(slot, index))
  }

  function SlotOf(b: seq<u8>, i: nat): (r: seq<u8>)
    requires 32 * i + 32 <= |b|
    ensures |r| == 32
  {
    b[32 * i..32 * i + 32]
  }

  /** The roles of a directory's slots. */
  function Roles(b: seq<u8>): (r: seq<Role>)
    ensures |r| == |b| / 32
  {
    seq(|b| / 32, i requires 0 <= i < |b| / 32 => RoleOf(SlotOf(b, i), i))
  }

  /** Slot `i` of a directory's bytes records these fields: the attributes in its byte 11, the
      first cluster in bytes 26 and 27 below bytes 20 and 21, the size in bytes 28 to 31. */
  ghost predicate SlotRecords(b: seq<u8>, i: nat, attributes: u8, firstCluster: nat, size: nat) {
    && 32 * i + 32 <= |b|
    && attributes == b[32 * i + 11]
    && firstCluster == b[32 * i + 26] as int + 0x100 * b[32 * i + 27] as int
                       + 0x1_0000 * b[32 * i + 20] as int + 0x100_0000 * b[32 * i + 21] as int
    && size == b[32 * i + 28] as int + 0x100 * b[32 * i + 29] as int
               + 0x1_0000 * b[32 * i + 30] as int + 0x100_0000 * b[32 * i + 31] as int
  }

  lemma {:induction false} EntryRecorded(b: seq<u8>, i: nat)
    requires 32 * i + 32 <= |b|
    ensures var e := EntryOf(SlotOf(b, i), i); SlotRecords(b, i, e.attributes, e.firstCluster, e.size)
  {
    hide Le16, Le32, Decoded;
    var slot := SlotOf(b, i);
    Le16IsSum(slot, 20);
    Le16IsSum(slot, 26);
    Le32IsSum(slot, 28);
  }

  /** Every listed entry has the attributes, first cluster and size its slot records. */
  lemma {:induction false} ListedIsRecorded(b: seq<u8>, k: nat)
    requires k < |Listing(Roles(b), 0, [])|
    ensures var e := Listing(Roles(b), 0, [])[k]; SlotRecords(b, e.index, e.attributes, e.firstCluster, e.size)
  {
    hide Listing, Pending, SlotRecords;
    var roles := Roles(b);
    assert ItemsIndexed(roles);
    ListedSlot(roles, k);
    EntryRecorded(b, Listing(roles, 0, [])[k].index);
  }

  lemma {:induction false} RolesAreIndexed(b: seq<u8>)
    ensures ItemsIndexed(Roles(b))
  {
  }

  /** In a directory's bytes: slot `i` is in use, is no label and no part of a long name (whose
      attributes have the label's bit too), and no slot before it was never used. */
  ghost predicate SlotListed(b: seq<u8>, i: nat) {
    && 32 * i + 32 <= |b|
    && b[32 * i] != 0 && b[32 * i] != 0xE5 && b[32 * i + 11] / 8 % 2 == 0
    && forall j :: 0 <= j < i ==> SlotOf(b, j)[0] != 0
  }

  lemma {:induction false} SlotListedRole(b: seq<u8>, i: nat)
    ensures SlotListed(b, i) <==>
            i < |Roles(b)| && Roles(b)[i].Item? && forall j :: 0 <= j < i ==> !Roles(b)[j].End?
  {
    hide LongPart, EntryOf;
    if 32 * i + 32 <= |b| {
      assert SlotOf(b, i)[0] == b[32 * i] && SlotOf(b, i)[11] == b[32 * i + 11];
      forall j | 0 <= j < i
        ensures Roles(b)[j].End? <==> SlotOf(b, j)[0] == 0
      {
      }
    }
  }

  /** Listed are exactly those slots. */
  lemma {:induction false} ListedIff(b: seq<u8>, i: nat)
    ensures (exists k :: 0 <= k < |Listing(Roles(b), 0, [])| && Listing(Roles(b), 0, [])[k].index == i)
            <==> SlotListed(b, i)
  {
    hide Listing, Pending, SlotListed, LongPart;
    var roles := Roles(b);
    var es := Listing(roles, 0, []);
    RolesAreIndexed(b);
    SlotListedRole(b, i);
    if SlotListed(b, i) {
      ListingAround(roles, i);
      var front := Listing(roles[..i], 0, []);
      assert es[|front|] == Named(roles[i].entry, Pending(roles[..i]));
    }
    if k :| 0 <= k < |es| && es[k].index == i {
      ListedSlot(roles, k);
    }
  }

  /** They are listed in the order of their slots. */
  lemma {:induction false} ListedInOrder(roles: seq<Role>, j: nat, k: nat)
    requires ItemsIndexed(roles) && j < k < |Listing(roles, 0, [])|
    ensures Listing(roles, 0, [])[j].index < Listing(roles, 0, [])[k].index
  {
    hide Listing, Pending;
    var es := Listing(roles, 0, []);
    ListedSlot(roles, k);
    var front := roles[..es[k].index];
    assert es[..k][j] == es[j];
    ListedSlot(front, j);
  }

  /** A listed slot without a part of a long name right before it is listed under the name its
      11 bytes stand for. */
  lemma {:induction false} PlainNameListed(b: seq<u8>, i: nat)
    requires SlotListed(b, i)
    requires i > 0 ==> SlotOf(b, i - 1)[0] == 0xE5 || SlotOf(b, i - 1)[11] != 0x0F
    ensures var k := |Listing(Roles(b)[..i], 0, [])|;
            && k < |Listing(Roles(b), 0, [])| && Listing(Roles(b), 0, [])[k].index == i
            && Listing(Roles(b), 0, [])[k].name == Decoded(b[32 * i..32 * i + 11])
  {
    hide Listing, LongPart, Decoded;
    var roles := Roles(b);
    SlotListedRole(b, i);
    ListingAround(roles, i);
    if i > 0 {
      assert roles[..i][i - 1] == roles[i - 1] && !roles[i - 1].LongName?;
    }
    assert SlotOf(b, i)[..11] == b[32 * i..32 * i + 11];
  }

  // ---------------------------------------------------------------- long names

  /** Unit `p` of the padded form of `name`: its characters, one NUL, then padding. */
  function PaddedUnit(name: seq<u8>, p: nat): nat {
    if p < |name| then name[p] else if p == |name| then 0 else 0xFFFF
  }

  /** The slot carries part `k` of `name`: units 13k to 13k + 12. */
  ghost predicate CarriesPart(slot: seq<u8>, name: seq<u8>, k: nat)
    requires |slot| == 32
  {
    && slot[0] != 0 && slot[0] != ENTRY_DELETED && slot[11] == ATTRIBUTE_LONG_NAME
    && forall t :: 0 <= t < 13 ==> LongUnit(slot, t) == PaddedUnit(name, 13 * k + t)
  }

  /** The j-th of the `m` slots from `i` on carries the j-th part from the end. */
  ghost predicate PartAt(b: seq<u8>, i: nat, m: nat, name: seq<u8>, j: nat)
    requires j < m && 32 * (i + m) <= |b|
  {
    CarriesPart(SlotOf(b, i + j), name, m - 1 - j)
  }

  /** Slots `i` to `i + m - 1` hold `name` as the standard lays it out: the last
      part first, the first part right before the short entry. */
  ghost predicate HoldsLongName(b: seq<u8>, i: nat, m: nat, name: seq<u8>) {
    && 32 * (i + m) <= |b|
    && 0 < m && 13 * (m - 1) < |name| <= 13 * m
    && 0 !in name
    && forall j :: 0 <= j < m ==> PartAt(b, i, m, name, j)
  }

  lemma {:induction false} CharsOfUnits(units: seq<nat>, name: seq<u8>, p: nat)
    requires forall t :: 0 <= t < |units| ==> units[t] == PaddedUnit(name, p + t)
    requires 0 !in name
    ensures LongChars(units) == name[Min(p, |name|)..Min(p + |units|, |name|)]
    decreases |units|
  {
    if units != [] {
      assert units[0] == PaddedUnit(name, p + 0);
      if p < |name| {
        assert name[p] in name;
      }
      if p != |name| {
        CharsOfUnits(units[1..], name, p + 1);
      }
    }
  }

  lemma {:induction false} CharsOfPart(slot: seq<u8>, name: seq<u8>, k: nat, lo: nat, hi: nat)
    requires |slot| == 32 && CarriesPart(slot, name, k) && 0 !in name
    requires lo <= hi <= 13
    ensures LongChars(LongField(slot, lo, hi)) == name[Min(13 * k + lo, |name|)..Min(13 * k + hi, |name|)]
  {
    CharsOfUnits(LongField(slot, lo, hi), name, 13 * k + lo);
  }

  lemma {:induction false} JoinSlices(name: seq<u8>, a: nat, b: nat, c: nat, d: nat)
    requires a <= b <= c <= d <= |name| && 0 !in name
    ensures CString(name[a..b] + name[b..c] + name[c..d]) == name[a..d]
  {
    assert name[a..b] + name[b..c] + name[c..d] == name[a..d];
    assert forall x :: x in name[a..d] ==> x in name;
  }

  lemma {:induction false} PartIsSlice(slot: seq<u8>, name: seq<u8>, k: nat)
    requires |slot| == 32 && CarriesPart(slot, name, k) && 0 !in name && 13 * k <= |name|
    ensures LongPart(slot) == name[13 * k..Min(13 * k + 13, |name|)]
  {
    hide CarriesPart, LongChars, LongField, CString;
    CharsOfPart(slot, name, k, 0, 5);
    CharsOfPart(slot, name, k, 5, 11);
    CharsOfPart(slot, name, k, 11, 13);
    JoinSlices(name, 13 * k, Min(13 * k + 5, |name|), Min(13 * k + 11, |name|), Min(13 * k + 13, |name|));
  }

  lemma {:induction false} PartRole(b: seq<u8>, i: nat, m: nat, name: seq<u8>, j: nat)
    requires HoldsLongName(b, i, m, name) && j < m
    ensures i + j < |b| / 32
    ensures Roles(b)[i + j] == LongName(name[13 * (m - 1 - j)..Min(13 * (m - 1 - j) + 13, |name|)])
  {
    assert PartAt(b, i, m, name, j);
    PartIsSlice(SlotOf(b, i + j), name, m - 1 - j);
  }

  /** Having read the first `j` slots, the reader holds the name's last `j` parts in front
      of what it held before. */
  lemma {:induction false} LongNameCollects(b: seq<u8>, i: nat, m: nat, name: seq<u8>, j: nat, lfn: seq<u8>)
    requires HoldsLongName(b, i, m, name) && j <= m
    ensures Listing(Roles(b), i, lfn) == Listing(Roles(b), i + j, name[Min(13 * (m - j), |name|)..] + lfn)
  {
    hide PartAt, Listing, Roles;
    assert name[Min(13 * m, |name|)..] + lfn == lfn;
    if j > 0 {
      LongNameCollects(b, i, m, name, j - 1, lfn);
      PartRole(b, i, m, name, j - 1);
      PrependPart(name, m - j, Roles(b), i + j - 1, lfn);
    }
  }

  lemma {:induction false} PrependPart(name: seq<u8>, k: nat, roles: seq<Role>, i: nat, lfn: seq<u8>)
    requires 13 * k <= |name| && i < |roles|
    requires roles[i] == LongName(name[13 * k..Min(13 * k + 13, |name|)])
    ensures Listing(roles, i, name[Min(13 * (k + 1), |name|)..] + lfn) ==
            Listing(roles, i + 1, name[Min(13 * k, |name|)..] + lfn)
  {
    assert name[13 * k..Min(13 * k + 13, |name|)] + (name[Min(13 * (k + 1), |name|)..] + lfn) == name[13 * k..] + lfn;
  }

  /** A long name anywhere in a directory is listed as the name of the entry behind its
      slots, followed by what an unfinished long name right before them left over: it
      comes back whole exactly when nothing was left over. */
  lemma {:induction false} LongNameIsListed(b: seq<u8>, i: nat, m: nat, name: seq<u8>)
    requires HoldsLongName(b, i, m, name)
    requires i + m < |b| / 32 && Roles(b)[i + m].Item?
    requires forall j :: 0 <= j < i ==> !Roles(b)[j].End?
    ensures var roles := Roles(b);
            var left := Pending(roles[..i]);
            && Listing(roles, 0, []) ==
               Listing(roles[..i], 0, []) + [roles[i + m].entry.(name := name + left)] + Listing(roles, i + m + 1, [])
            && (name + left == name <==> left == [])
  {
    hide HoldsLongName, Roles, Pending;
    var roles := Roles(b);
    var left := Pending(roles[..i]);
    ListingSplits(roles, i);
    assert 0 < m <= |name| + 1 && name != [] by {
      PartCounts(b, i, m, name);
    }
    LongNameCollects(b, i, m, name, m, left);
    assert name[0..] == name;
    assert |name + left| == |name| + |left|;
  }

  lemma {:induction false} PartCounts(b: seq<u8>, i: nat, m: nat, name: seq<u8>)
    requires HoldsLongName(b, i, m, name)
    ensures 0 < m <= |name| && 13 * (m - 1) < |name| <= 13 * m
  {
  }

  // ---------------------------------------------------------------- laying out a long name

  /** `n` units of the padded form of `name` from unit `p` on, low byte first. */
  function UnitBytes(name: seq<u8>, p: nat, n: nat): (r: seq<u8>)
    ensures |r| == 2 * n
  {
    if n == 0 then [] else UnitBytes(name, p, n - 1) + ToLE(PaddedUnit(name, p + n - 1), 2)
  }

  /** How many slots a long name takes. */
  function PartCount(name: seq<u8>): nat { (|name| + 12) / 13 }

  /** The slot of part `k`: order byte, 5 units, attributes, type, checksum, 6 units, no
      cluster, 2 units. The order counts from 1; the last part is marked with 0x40. */
  function LongSlot(name: seq<u8>, k: nat, checksum: u8): (r: seq<u8>)
    requires k < PartCount(name) <= 20
    ensures |r| == 32
  {
    [k + 1 + if k + 1 == PartCount(name) then 0x40 else 0] + UnitBytes(name, 13 * k, 5)
    + [ATTRIBUTE_LONG_NAME, 0, checksum] + UnitBytes(name, 13 * k + 5, 6) + [0, 0] + UnitBytes(name, 13 * k + 11, 2)
  }

  /** The slots of the first `n` parts, last part first. */
  function LongSlots(name: seq<u8>, n: nat, checksum: u8): (r: seq<u8>)
    requires n <= PartCount(name) <= 20
    ensures |r| == 32 * n
  {
    if n == 0 then [] else LongSlot(name, n - 1, checksum) + LongSlots(name, n - 1, checksum)
  }

  lemma {:induction false} UnitFromLE(name: seq<u8>, p: nat)
    ensures |ToLE(PaddedUnit(name, p), 2)| == 2 && FromLE(ToLE(PaddedUnit(name, p), 2)) == PaddedUnit(name, p)
  {
    hide FromLE, ToLE;
    assert Pow256(2) == 0x1_0000;
    FromLEOfToLE(PaddedUnit(name, p), 2);
  }

  lemma {:induction false} UnitRead(name: seq<u8>, p: nat, n: nat, i: nat)
    requires i < n
    ensures FromLE(UnitBytes(name, p, n)[2 * i..2 * i + 2]) == PaddedUnit(name, p + i)
  {
    hide FromLE, ToLE, PaddedUnit;
    var front, last := UnitBytes(name, p, n - 1), ToLE(PaddedUnit(name, p + n - 1), 2);
    if i == n - 1 {
      assert (front + last)[2 * i..2 * i + 2] == last;
      UnitFromLE(name, p + i);
    } else {
      UnitRead(name, p, n - 1, i);
      assert (front + last)[2 * i..2 * i + 2] == front[2 * i..2 * i + 2];
    }
  }

  /** A field of a slot that holds `n` units from unit `p` on. */
  lemma {:induction false} FieldRead(slot: seq<u8>, at: nat, name: seq<u8>, p: nat, n: nat, i: nat)
    requires at + 2 * n <= |slot| && slot[at..at + 2 * n] == UnitBytes(name, p, n) && i < n
    ensures Le16(slot, at + 2 * i) == PaddedUnit(name, p + i)
  {
    hide UnitBytes, PaddedUnit, FromLE;
    UnitRead(name, p, n, i);
    SliceOfSlice(slot, at, at + 2 * n, 2 * i, 2 * i + 2);
  }

  lemma {:induction false} LongSlotFields(name: seq<u8>, k: nat, checksum: u8)
    requires k < PartCount(name) <= 20
    ensures var slot := LongSlot(name, k, checksum);
            && slot[0] != 0 && slot[0] != ENTRY_DELETED && slot[11] == ATTRIBUTE_LONG_NAME
            && slot[1..11] == UnitBytes(name, 13 * k, 5)
            && slot[14..26] == UnitBytes(name, 13 * k + 5, 6)
            && slot[28..32] == UnitBytes(name, 13 * k + 11, 2)
  {
    hide UnitBytes, PartCount;
  }

  lemma {:induction false} LongSlotCarries(name: seq<u8>, k: nat, checksum: u8)
    requires k < PartCount(name) <= 20
    ensures CarriesPart(LongSlot(name, k, checksum), name, k)
  {
    hide LongSlot, UnitBytes, PaddedUnit, PartCount, Le16;
    var slot := LongSlot(name, k, checksum);
    LongSlotFields(name, k, checksum);
    forall t | 0 <= t < 13
      ensures LongUnit(slot, t) == PaddedUnit(name, 13 * k + t)
    {
      if t < 5 {
        FieldRead(slot, 1, name, 13 * k, 5, t);
      } else if t < 11 {
        FieldRead(slot, 14, name, 13 * k + 5, 6, t - 5);
      } else {
        FieldRead(slot, 28, name, 13 * k + 11, 2, t - 11);
      }
    }
  }

  lemma {:induction false} LongSlotsAt(name: seq<u8>, n: nat, checksum: u8, j: nat)
    requires j < n <= PartCount(name) <= 20
    ensures LongSlots(name, n, checksum)[32 * j..32 * j + 32] == LongSlot(name, n - 1 - j, checksum)
  {
    hide LongSlot, PartCount;
    var first, rest := LongSlot(name, n - 1, checksum), LongSlots(name, n - 1, checksum);
    if j == 0 {
      assert (first + rest)[..32] == first;
    } else {
      LongSlotsAt(name, n - 1, checksum, j - 1);
      assert (first + rest)[32 * j..32 * j + 32] == rest[32 * (j - 1)..32 * (j - 1) + 32];
    }
  }

  /** Every name of 1 to 255 bytes can be laid out, anywhere in a directory. */
  lemma {:induction false} LongNameLaidOut(front: seq<u8>, name: seq<u8>, checksum: u8, back: seq<u8>)
    requires |front| % 32 == 0 && 0 < |name| <= 255 && 0 !in name
    ensures PartCount(name) <= 20
    ensures HoldsLongName(front + LongSlots(name, PartCount(name), checksum) + back, |front| / 32, PartCount(name),
                          name)
  {
    hide CarriesPart, LongSlot, LongSlots;
    var m, i := PartCount(name), |front| / 32;
    var slots := LongSlots(name, m, checksum);
    var b := front + slots + back;
    forall j | 0 <= j < m
      ensures PartAt(b, i, m, name, j)
    {
      LongSlotsAt(name, m, checksum, j);
      LongSlotCarries(name, m - 1 - j, checksum);
      assert b[32 * (i + j)..32 * (i + j) + 32] == slots[32 * j..32 * j + 32];
    }
  }
}
