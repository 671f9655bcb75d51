/** The 32-byte directory slot: where its fields lie, how a first cluster and a size are cut
    into them, and what rewriting them changes and keeps. */
module FatSlots {
  import opened Bytes

  const ATTRIBUTE_DIRECTORY: u8 := 0x10
  const ATTRIBUTE_ARCHIVE: u8 := 0x20
  const ATTRIBUTE_LONG_NAME: u8 := 0x0F
  const ENTRY_DELETED: u8 := 0xE5

  predicate IsDirectory(attributes: u8) { attributes / 0x10 % 2 == 1 }

  predicate IsVolumeLabel(attributes: u8) { attributes / 0x08 % 2 == 1 }

  function SlotAttributes(b: seq<u8>, at: nat): u8
    requires at + 32 <= |b|
  {
    b[at + 11]
  }

  function SlotFirstCluster(b: seq<u8>, at: nat): nat
    requires at + 32 <= |b|
  {
    0x1_0000 * Le16(b, at + 20) + Le16(b, at + 26)
  }

  function SlotSize(b: seq<u8>, at: nat): nat
    requires at + 32 <= |b|
  {
    Le32(b, at + 28)
  }

  ghost function Enc16(v: nat): (r: seq<u8>)
    requires v < 0x1_0000
    ensures |r| == 2 && FromLE(r) == v
  {
    Enc(v, 2)
  }

  /** The size a directory entry records: none for a directory. */
  function RecordedSize(attributes: u8, size: nat): nat {
    if IsDirectory(attributes) then 0 else size
  }

  /** The cluster `b` with attributes, first cluster and size of the slot at `at` rewritten. */
  ghost function SlotUpdated(b: seq<u8>, at: nat, attributes: u8, firstCluster: nat, size: nat): (r: seq<u8>)
    requires at + 32 <= |b| && firstCluster < U32_LIMIT && size < U32_LIMIT
    ensures |r| == |b|
  {
    var b1 := Overlay(b, at + 11, [attributes]);
    var b2 := Overlay(b1, at + 20, Enc16(firstCluster / 0x1_0000));
    var b3 := Overlay(b2, at + 26, Enc16(firstCluster % 0x1_0000));
    Overlay(b3, at + 28, Enc32(size))
  }

  /** Reading the slot back gives what was stored; every byte of none of the three fields
      is as before. */
  lemma {:induction false} SlotUpdatedReads(b: seq<u8>, at: nat, attributes: u8, firstCluster: nat, size: nat)
    requires at + 32 <= |b| && firstCluster < U32_LIMIT && size < U32_LIMIT
    ensures var r := SlotUpdated(b, at, attributes, firstCluster, size);
            && SlotAttributes(r, at) == attributes
            && SlotFirstCluster(r, at) == firstCluster
            && SlotSize(r, at) == size
            && r[..at + 11] == b[..at + 11]
            && r[at + 12..at + 20] == b[at + 12..at + 20]
            && r[at + 22..at + 26] == b[at + 22..at + 26]
            && r[at + 32..] == b[at + 32..]
  {
    var b1 := Overlay(b, at + 11, [attributes]);
    var hi, lo := Enc16(firstCluster / 0x1_0000), Enc16(firstCluster % 0x1_0000);
    var b2 := Overlay(b1, at + 20, hi);
    var b3 := Overlay(b2, at + 26, lo);
    var r := Overlay(b3, at + 28, Enc32(size));
    OverlayElsewhere(b, at + 11, [attributes], at + 12, at + 20);
    OverlayElsewhere(b1, at + 20, hi, at + 12, at + 20);
    OverlayElsewhere(b2, at + 26, lo, at + 12, at + 20);
    OverlayElsewhere(b3, at + 28, Enc32(size), at + 12, at + 20);
    OverlayElsewhere(b, at + 11, [attributes], at + 22, at + 26);
    OverlayElsewhere(b1, at + 20, hi, at + 22, at + 26);
    OverlayElsewhere(b2, at + 26, lo, at + 22, at + 26);
    OverlayElsewhere(b3, at + 28, Enc32(size), at + 22, at + 26);
    OverlayElsewhere(b, at + 11, [attributes], at + 32, |b|);
    OverlayElsewhere(b1, at + 20, hi, at + 32, |b|);
    OverlayElsewhere(b2, at + 26, lo, at + 32, |b|);
    OverlayElsewhere(b3, at + 28, Enc32(size), at + 32, |b|);
    assert r[at + 20..at + 22] == hi;
    assert r[at + 26..at + 28] == lo;
    assert r[at + 28..at + 32] == Enc32(size);
  }
}
