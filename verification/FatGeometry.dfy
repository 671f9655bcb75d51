/** Where a FAT32 volume keeps tables and clusters on the device, byte by byte. */
module FatGeometry {
  import opened Arithmetic
  import opened Bytes
  import opened FatChains

  /** The fields of the BIOS parameter block the driver computes with, and the two
      it derives from them when mounting. */
  datatype Geometry = Geometry(
    reservedSectorCount: nat,
    tableCount: nat,
    tableSize32: nat,
    sectorsPerCluster: nat,
    totalSectors: nat,
    fsInfoSector: nat,
    firstDataSector: nat,
    totalClusters: nat)
  {
    function ClusterSize(): nat { 512 * sectorsPerCluster }

    /** The sum as the driver computes it, in 32 bits. */
    function ClusterToSector(cluster: nat): (r: nat)
      requires 2 <= cluster
    {
      (firstDataSector + (cluster - 2) * sectorsPerCluster) % 0x1_0000_0000
    }

    /** The sector of a FAT copy that holds the entry of `cluster`, in 32 bits. */
    function FatSector(table: nat, cluster: nat): (r: nat) {
      (reservedSectorCount + table * tableSize32 + cluster * 4 % 0x1_0000_0000 / 512) % 0x1_0000_0000
    }

    function FatEntryOffset(cluster: nat): (r: nat)
      ensures r < 512
    {
      cluster * 4 % 0x1_0000_0000 % 512
    }

    // -------------------------------------------------------------- the layout, copy by copy and cluster by cluster

    /** First sector of the t-th FAT copy: copies follow each other behind the reserved area. */
    ghost function TableStart(t: nat): nat {
      if t == 0 then reservedSectorCount else TableStart(t - 1) + tableSize32
    }

    /** First sector of a cluster: clusters follow each other from the first data sector. */
    ghost function ClusterStart(c: nat): nat {
      if c <= 2 then firstDataSector else ClusterStart(c - 1) + sectorsPerCluster
    }

    /** What mounting establishes, and what the driver assumes beyond it: the tables
        cover every cluster, cluster numbers stay clear of the reserved link
        values, sector numbers fit 32 bits and FSInfo lies before the tables. */
    ghost predicate Sound() {
      && 0 < sectorsPerCluster
      && 0 < reservedSectorCount && 0 < tableCount
      && firstDataSector == TableStart(tableCount)
      && 0 < totalClusters && totalClusters + 2 < BAD_CLUSTER
      && ClusterStart(totalClusters + 2) <= totalSectors < U32_LIMIT
      && 4 * (totalClusters + 2) <= 512 * tableSize32
      && fsInfoSector < reservedSectorCount
    }

    /** First byte of a cluster's entry in a FAT copy. */
    ghost function EntryAt(table: nat, cluster: nat): nat {
      512 * TableStart(table) + 4 * cluster
    }

    /** First byte of a data cluster. */
    ghost function ClusterAt(cluster: nat): nat {
      512 * ClusterStart(cluster)
    }
  }

  /** The two fields mounting derives, from the formulas it uses. */
  function Mounted(g: Geometry): Geometry
    requires 0 < g.sectorsPerCluster
  {
    var first := g.reservedSectorCount + g.tableCount * g.tableSize32;
    g.(firstDataSector := first,
       totalClusters := if g.totalSectors <= first then 0 else (g.totalSectors - first) / g.sectorsPerCluster)
  }

  lemma {:induction false} TableStartIsProduct(g: Geometry, t: nat)
    ensures g.TableStart(t) == g.reservedSectorCount + t * g.tableSize32
  {
    if t > 0 {
      TableStartIsProduct(g, t - 1);
      assert t * g.tableSize32 == (t - 1) * g.tableSize32 + g.tableSize32;
    }
  }

  lemma {:induction false} ClusterStartIsProduct(g: Geometry, c: nat)
    requires 2 <= c
    ensures g.ClusterStart(c) == g.firstDataSector + (c - 2) * g.sectorsPerCluster
  {
    if c > 2 {
      ClusterStartIsProduct(g, c - 1);
      assert (c - 2) * g.sectorsPerCluster == (c - 3) * g.sectorsPerCluster + g.sectorsPerCluster;
    }
  }

  lemma {:induction false} DivTimes(n: nat, k: nat)
    requires 0 < k
    ensures n / k * k <= n < n / k * k + k
  {
  }

  /** What the mount formulas compute is a sound layout, given the checks mounting
      makes and the four things it takes for granted; no further cluster fits the volume. */
  lemma {:induction false} MountedIsSound(b: Geometry)
    requires 0 < b.sectorsPerCluster && 0 < b.reservedSectorCount && 0 < b.tableCount
    requires 0 < Mounted(b).totalClusters
    requires b.totalSectors < U32_LIMIT
    requires Mounted(b).totalClusters + 2 < BAD_CLUSTER
    requires 4 * (Mounted(b).totalClusters + 2) <= 512 * b.tableSize32
    requires b.fsInfoSector < b.reservedSectorCount
    ensures Mounted(b).Sound()
    ensures b.totalSectors < Mounted(b).ClusterStart(Mounted(b).totalClusters + 2) + b.sectorsPerCluster
  {
    var g := Mounted(b);
    TableStartIsProduct(g, g.tableCount);
    ClusterStartIsProduct(g, g.totalClusters + 2);
    DivTimes(g.totalSectors - g.firstDataSector, g.sectorsPerCluster);
  }

  lemma {:induction false} TablesOrdered(g: Geometry, t: nat, t': nat)
    requires t < t'
    ensures g.TableStart(t) + g.tableSize32 <= g.TableStart(t')
    ensures g.reservedSectorCount <= g.TableStart(t)
    decreases t'
  {
    if t + 1 < t' {
      TablesOrdered(g, t, t' - 1);
    } else if t > 0 {
      TablesOrdered(g, t - 1, t);
    }
  }

  lemma {:induction false} ClustersOrdered(g: Geometry, c: nat, c': nat)
    requires 2 <= c < c'
    ensures g.firstDataSector <= g.ClusterStart(c)
    ensures g.ClusterStart(c) + g.sectorsPerCluster <= g.ClusterStart(c')
    decreases c'
  {
    if c + 1 < c' {
      ClustersOrdered(g, c, c' - 1);
    } else if c > 2 {
      ClustersOrdered(g, c - 1, c);
    }
  }

  /** Every entry the driver addresses lies inside its own FAT copy, before the data
      area and behind FSInfo. */
  lemma {:induction false} EntryInside(g: Geometry, table: nat, cluster: nat)
    requires g.Sound() && table < g.tableCount && cluster < g.totalClusters + 2
    ensures 512 * (g.fsInfoSector + 1) <= 512 * g.reservedSectorCount <= g.EntryAt(table, cluster)
    ensures g.EntryAt(table, cluster) + 4 <= 512 * (g.TableStart(table) + g.tableSize32) <= 512 * g.firstDataSector
    ensures 512 * g.firstDataSector <= 512 * g.totalSectors
  {
    TablesOrdered(g, table, g.tableCount);
    ClustersOrdered(g, 2, g.totalClusters + 2);
  }

  /** The sector and offset the driver computes address exactly that entry, and the
      32-bit sums do not wrap. */
  lemma {:induction false} EntryAddressed(g: Geometry, table: nat, cluster: nat)
    requires g.Sound() && table < g.tableCount && cluster < g.totalClusters + 2
    ensures 512 * g.FatSector(table, cluster) + g.FatEntryOffset(cluster) == g.EntryAt(table, cluster)
    ensures g.FatSector(table, cluster) < g.firstDataSector <= g.totalSectors
    ensures g.EntryAt(table, cluster) + 4 <= 512 * g.totalSectors
    ensures g.EntryAt(table, cluster) == 512 * (g.reservedSectorCount + table * g.tableSize32) + 4 * cluster
  {
    EntryInside(g, table, cluster);
    TableStartIsProduct(g, table);
    EntrySplit(g.TableStart(table), cluster);
  }

  /** An entry does not cross a sector. */
  lemma {:induction false} EntryInSector(g: Geometry, cluster: nat)
    requires cluster < BAD_CLUSTER
    ensures g.FatEntryOffset(cluster) + 4 <= 512
  {
    assert cluster * 4 % 0x1_0000_0000 == 4 * cluster;
    QuotientOf(4 * cluster, 512, cluster / 128, 4 * (cluster % 128));
  }

  lemma {:induction false} ClusterBelowBad(g: Geometry, cluster: nat)
    requires g.Sound() && cluster < g.totalClusters + 2
    ensures cluster < BAD_CLUSTER
  {
  }

  lemma {:induction false} EntrySplit(start: nat, cluster: nat)
    requires cluster < BAD_CLUSTER && start < U32_LIMIT && start + cluster * 4 / 512 < U32_LIMIT
    ensures 512 * ((start + cluster * 4 % 0x1_0000_0000 / 512) % 0x1_0000_0000) + cluster * 4 % 0x1_0000_0000 % 512 ==
            512 * start + 4 * cluster
    ensures (start + cluster * 4 % 0x1_0000_0000 / 512) % 0x1_0000_0000 == start + cluster * 4 / 512
  {
  }

  /** Entries of different tables or clusters do not overlap. */
  lemma {:induction false} EntriesApart(g: Geometry, t: nat, c: nat, t': nat, c': nat)
    requires g.Sound()
    requires t < g.tableCount && t' < g.tableCount
    requires c < g.totalClusters + 2 && c' < g.totalClusters + 2
    requires t != t' || c != c'
    ensures g.EntryAt(t, c) + 4 <= g.EntryAt(t', c') || g.EntryAt(t', c') + 4 <= g.EntryAt(t, c)
  {
    if t < t' {
      TablesOrdered(g, t, t');
    } else if t' < t {
      TablesOrdered(g, t', t);
    }
  }

  /** Valid clusters lie inside the device, behind the tables. */
  lemma {:induction false} ClusterInside(g: Geometry, c: nat)
    requires g.Sound() && 2 <= c < g.totalClusters + 2
    ensures 512 * g.firstDataSector <= g.ClusterAt(c)
    ensures g.ClusterAt(c) + g.ClusterSize() <= 512 * g.totalSectors
  {
    ClustersOrdered(g, c, g.totalClusters + 2);
  }

  /** The 32-bit cluster address does not wrap and names exactly that cluster. */
  lemma {:induction false} ClusterAddressed(g: Geometry, c: nat)
    requires g.Sound() && 2 <= c < g.totalClusters + 2
    ensures 512 * g.ClusterToSector(c) == g.ClusterAt(c)
    ensures g.firstDataSector <= g.ClusterToSector(c)
    ensures g.ClusterToSector(c) + g.sectorsPerCluster <= g.totalSectors
    ensures g.ClusterToSector(c) ==
            g.reservedSectorCount + g.tableCount * g.tableSize32 + (c - 2) * g.sectorsPerCluster
  {
    TableStartIsProduct(g, g.tableCount);
    ClustersOrdered(g, c, g.totalClusters + 2);
    ClusterStartIsProduct(g, c);
    FitsWord(g.firstDataSector + (c - 2) * g.sectorsPerCluster);
  }

  lemma {:induction false} FitsWord(x: nat)
    requires x < U32_LIMIT
    ensures x % 0x1_0000_0000 == x
  {
  }

  lemma {:induction false} ClustersApart(g: Geometry, c: nat, c': nat)
    requires g.Sound() && 2 <= c < c' < g.totalClusters + 2
    ensures g.ClusterAt(c) + g.ClusterSize() <= g.ClusterAt(c')
  {
    ClustersOrdered(g, c, c');
  }

  /** A cluster number survives being stored as a 28-bit link, and is then not
      mistaken for a reserved value, exactly when it is below the bad-cluster mark. */
  lemma {:induction false} LinkIsFaithfulIff(c: nat)
    requires 2 <= c < U32_LIMIT
    ensures Low28(c) == c && Low28(c) != BAD_CLUSTER && Low28(c) < END_OF_CHAIN <==> c < BAD_CLUSTER
  {
  }

  // ---------------------------------------------------------------- reading the bytes

  ghost predicate Fits(g: Geometry, d: seq<u8>) {
    g.Sound() && |d| == 512 * g.totalSectors
  }

  /** The raw 32-bit entry of a FAT copy. */
  ghost function RawEntry(g: Geometry, d: seq<u8>, table: nat, cluster: nat): nat
    requires Fits(g, d) && table < g.tableCount && cluster < g.totalClusters + 2
  {
    EntryInside(g, table, cluster);
    Le32(d, g.EntryAt(table, cluster))
  }

  lemma {:induction false} EntryBound(g: Geometry, d: seq<u8>, table: nat, cluster: nat)
    requires Fits(g, d) && table < g.tableCount && cluster < g.totalClusters + 2
    ensures RawEntry(g, d, table, cluster) < U32_LIMIT
  {
    EntryInside(g, table, cluster);
    Le32IsSum(d, g.EntryAt(table, cluster));
  }

  ghost function ClusterOf(g: Geometry, d: seq<u8>, c: nat): (r: seq<u8>)
    requires Fits(g, d) && c < g.totalClusters + 2
    ensures 2 <= c ==> |r| == g.ClusterSize()
  {
    if c < 2 then []
    else
      ClusterInside(g, c);
      d[g.ClusterAt(c)..g.ClusterAt(c) + g.ClusterSize()]
  }

  /** The abstract FAT and contents are what the device holds for cluster `c`: the
      first copy's entry masked to 28 bits, and the cluster's bytes. */
  ghost predicate Holds(g: Geometry, d: seq<u8>, fat: seq<nat>, data: seq<seq<u8>>, c: nat)
    requires Fits(g, d) && c < g.totalClusters + 2 == |fat| == |data|
  {
    fat[c] == Low28(RawEntry(g, d, 0, c)) && data[c] == ClusterOf(g, d, c)
  }

  ghost predicate Represents(g: Geometry, d: seq<u8>, fat: seq<nat>, data: seq<seq<u8>>) {
    && Fits(g, d)
    && |fat| == |data| == g.totalClusters + 2
    && forall c :: 0 <= c < g.totalClusters + 2 ==> Holds(g, d, fat, data, c)
  }

  /** A device represents one abstract volume only. */
  lemma {:induction false} RepresentsIsFunctional(g: Geometry, d: seq<u8>, fat: seq<nat>, data: seq<seq<u8>>,
                                          fat': seq<nat>, data': seq<seq<u8>>)
    requires Represents(g, d, fat, data) && Represents(g, d, fat', data')
    ensures fat == fat' && data == data'
  {
    forall c | 0 <= c < g.totalClusters + 2
      ensures fat[c] == fat'[c] && data[c] == data'[c]
    {
      assert Holds(g, d, fat, data, c) && Holds(g, d, fat', data', c);
    }
  }

  lemma {:induction false} ClustersSized(g: Geometry, d: seq<u8>, fat: seq<nat>, data: seq<seq<u8>>)
    requires Represents(g, d, fat, data)
    ensures forall c :: 2 <= c < |data| ==> |data[c]| == g.ClusterSize()
  {
    forall c | 2 <= c < |data|
      ensures |data[c]| == g.ClusterSize()
    {
      assert Holds(g, d, fat, data, c);
    }
  }

  /** The copies of one entry agree on its 28-bit value. */
  ghost predicate EntryAgrees(g: Geometry, d: seq<u8>, t: nat, c: nat)
    requires Fits(g, d) && t < g.tableCount && c < g.totalClusters + 2
  {
    Low28(RawEntry(g, d, t, c)) == Low28(RawEntry(g, d, 0, c))
  }

  /** All copies agree on every 28-bit value. */
  ghost predicate CopiesAgree(g: Geometry, d: seq<u8>)
    requires Fits(g, d)
  {
    forall t, c :: 0 <= t < g.tableCount && 0 <= c < g.totalClusters + 2 ==> EntryAgrees(g, d, t, c)
  }

  // ---------------------------------------------------------------- writes

  /** The new raw entry: 28 bits of `value` under the top four bits already there. */
  function Merged(old_: nat, value: nat): (r: nat)
    ensures Low28(r) == Low28(value)
  {
    if old_ < 0x1000_0000 then Low28(value) else 0x1000_0000 + Merged(old_ - 0x1000_0000, value)
  }

  /** As the driver computes it, and the top four bits are those of the old entry. */
  lemma {:induction false} MergedIsMask(old_: nat, value: nat)
    ensures Merged(old_, value) == old_ / 0x1000_0000 * 0x1000_0000 + value % 0x1000_0000
    ensures Merged(old_, value) / 0x1000_0000 == old_ / 0x1000_0000
    ensures old_ < U32_LIMIT ==> Merged(old_, value) < U32_LIMIT
  {
    Low28IsMask(value);
    if old_ >= 0x1000_0000 {
      MergedIsMask(old_ - 0x1000_0000, value);
    }
  }

  /** The device after the first `n` FAT copies had the entry of `c` set to `value`. */
  ghost function Patched(g: Geometry, d: seq<u8>, c: nat, value: nat, n: nat): (r: seq<u8>)
    requires Fits(g, d) && c < g.totalClusters + 2 && n <= g.tableCount
    ensures Fits(g, r)
  {
    if n == 0 then d
    else
      EntryInside(g, n - 1, c);
      var p := Patched(g, d, c, value, n - 1);
      EntryBound(g, p, n - 1, c);
      MergedIsMask(RawEntry(g, p, n - 1, c), value);
      Overlay(p, g.EntryAt(n - 1, c), Enc32(Merged(RawEntry(g, p, n - 1, c), value)))
  }

  /** Storing one entry of one copy changes that entry alone. */
  lemma {:induction false} EntryStored(g: Geometry, p: seq<u8>, t0: nat, c: nat, x: nat, t: nat, e: nat)
    requires Fits(g, p) && t0 < g.tableCount && t < g.tableCount
    requires c < g.totalClusters + 2 && e < g.totalClusters + 2
    requires x < U32_LIMIT
    ensures g.EntryAt(t0, c) + 4 <= |p|
    ensures RawEntry(g, Overlay(p, g.EntryAt(t0, c), Enc32(x)), t, e) == if t == t0 && e == c then x
            else RawEntry(g, p, t, e)
  {
    EntryInside(g, t0, c);
    EntryInside(g, t, e);
    var w := Enc32(x);
    var q := Overlay(p, g.EntryAt(t0, c), w);
    var at := g.EntryAt(t, e);
    if t == t0 && e == c {
      assert q[at..at + 4] == w;
    } else {
      EntriesApart(g, t0, c, t, e);
      OverlayElsewhere(p, g.EntryAt(t0, c), w, at, at + 4);
    }
  }

  /** Byte-level meaning of a FAT update: in each updated copy the entry of `c` now
      holds `value`'s 28 bits under its old top four, and every other entry of every
      copy is as before. */
  lemma {:induction false} PatchedEntries(g: Geometry, d: seq<u8>, c: nat, value: nat, n: nat, t: nat, e: nat)
    requires Fits(g, d) && c < g.totalClusters + 2 && n <= g.tableCount
    requires t < g.tableCount && e < g.totalClusters + 2
    ensures RawEntry(g, Patched(g, d, c, value, n), t, e) ==
            if t < n && e == c then Merged(RawEntry(g, d, t, c), value) else RawEntry(g, d, t, e)
  {
    if n > 0 {
      LastPatch(g, d, c, value, n, t, e);
      PatchedEntries(g, d, c, value, n - 1, t, e);
    }
  }

  /** The last copy's update, seen from any entry. */
  lemma {:induction false} LastPatch(g: Geometry, d: seq<u8>, c: nat, value: nat, n: nat, t: nat, e: nat)
    requires Fits(g, d) && c < g.totalClusters + 2 && 0 < n <= g.tableCount
    requires t < g.tableCount && e < g.totalClusters + 2
    ensures var p := Patched(g, d, c, value, n - 1);
            RawEntry(g, Patched(g, d, c, value, n), t, e) ==
            if t == n - 1 && e == c then Merged(RawEntry(g, p, n - 1, c), value) else RawEntry(g, p, t, e)
  {
    var p := Patched(g, d, c, value, n - 1);
    EntryBound(g, p, n - 1, c);
    MergedIsMask(RawEntry(g, p, n - 1, c), value);
    EntryStored(g, p, n - 1, c, Merged(RawEntry(g, p, n - 1, c), value), t, e);
  }

  /** A FAT update touches nothing outside the tables. */
  lemma {:induction false} PatchedElsewhere(g: Geometry, d: seq<u8>, c: nat, value: nat, n: nat, lo: nat, hi: nat)
    requires Fits(g, d) && c < g.totalClusters + 2 && n <= g.tableCount
    requires lo <= hi <= |d|
    requires hi <= 512 * g.reservedSectorCount || 512 * g.firstDataSector <= lo
    ensures Patched(g, d, c, value, n)[lo..hi] == d[lo..hi]
  {
    if n > 0 {
      PatchedElsewhere(g, d, c, value, n - 1, lo, hi);
      LastPatchElsewhere(g, d, c, value, n, lo, hi);
    }
  }

  lemma {:induction false} LastPatchElsewhere(g: Geometry, d: seq<u8>, c: nat, value: nat, n: nat, lo: nat, hi: nat)
    requires Fits(g, d) && c < g.totalClusters + 2 && 0 < n <= g.tableCount
    requires lo <= hi <= |d|
    requires hi <= 512 * g.reservedSectorCount || 512 * g.firstDataSector <= lo
    ensures Patched(g, d, c, value, n)[lo..hi] == Patched(g, d, c, value, n - 1)[lo..hi]
  {
    EntryInside(g, n - 1, c);
    var p := Patched(g, d, c, value, n - 1);
    EntryBound(g, p, n - 1, c);
    MergedIsMask(RawEntry(g, p, n - 1, c), value);
    OverlayElsewhere(p, g.EntryAt(n - 1, c), Enc32(Merged(RawEntry(g, p, n - 1, c), value)), lo, hi);
  }

  /** A FAT update lifted to the abstract volume: one entry of the map changes, no
      cluster does, and copies that agreed still agree. */
  lemma {:induction false} PatchedMeaning(g: Geometry, d: seq<u8>, fat: seq<nat>, data: seq<seq<u8>>, c: nat,
                                          value: nat)
    requires Represents(g, d, fat, data) && c < g.totalClusters + 2
    ensures Represents(g, Patched(g, d, c, value, g.tableCount), fat[c := Low28(value)], data)
    ensures CopiesAgree(g, d) ==> CopiesAgree(g, Patched(g, d, c, value, g.tableCount))
  {
    var p := Patched(g, d, c, value, g.tableCount);
    var fat' := fat[c := Low28(value)];
    forall e | 0 <= e < g.totalClusters + 2
      ensures Holds(g, p, fat', data, e)
    {
      assert Holds(g, d, fat, data, e);
      PatchedEntries(g, d, c, value, g.tableCount, 0, e);
      PatchedCluster(g, d, c, value, e);
    }
    if CopiesAgree(g, d) {
      forall t, e | 0 <= t < g.tableCount && 0 <= e < g.totalClusters + 2
        ensures EntryAgrees(g, p, t, e)
      {
        assert EntryAgrees(g, d, t, e);
        PatchedEntries(g, d, c, value, g.tableCount, t, e);
        PatchedEntries(g, d, c, value, g.tableCount, 0, e);
      }
    }
  }

  lemma {:induction false} PatchedCluster(g: Geometry, d: seq<u8>, c: nat, value: nat, e: nat)
    requires Fits(g, d) && c < g.totalClusters + 2 && e < g.totalClusters + 2
    ensures ClusterOf(g, Patched(g, d, c, value, g.tableCount), e) == ClusterOf(g, d, e)
  {
    if 2 <= e {
      ClusterInside(g, e);
      PatchedElsewhere(g, d, c, value, g.tableCount, g.ClusterAt(e), g.ClusterAt(e) + g.ClusterSize());
    }
  }

  /** A write that stays clear of the tables keeps every entry of every copy. */
  lemma {:induction false} EntriesOutsideWrite(g: Geometry, d: seq<u8>, at: nat, w: seq<u8>)
    requires Fits(g, d) && at + |w| <= |d|
    requires at + |w| <= 512 * g.reservedSectorCount || 512 * g.firstDataSector <= at
    ensures forall t, e :: 0 <= t < g.tableCount && 0 <= e < g.totalClusters + 2 ==>
              RawEntry(g, Overlay(d, at, w), t, e) == RawEntry(g, d, t, e)
    ensures CopiesAgree(g, d) ==> CopiesAgree(g, Overlay(d, at, w))
  {
    var p := Overlay(d, at, w);
    forall t, e | 0 <= t < g.tableCount && 0 <= e < g.totalClusters + 2
      ensures RawEntry(g, p, t, e) == RawEntry(g, d, t, e)
    {
      EntryInside(g, t, e);
      OverlayElsewhere(d, at, w, g.EntryAt(t, e), g.EntryAt(t, e) + 4);
    }
    if CopiesAgree(g, d) {
      forall t, e | 0 <= t < g.tableCount && 0 <= e < g.totalClusters + 2
        ensures EntryAgrees(g, p, t, e)
      {
        assert EntryAgrees(g, d, t, e);
      }
    }
  }

  /** Overwriting a cluster changes that cluster only, and no FAT entry. */
  lemma {:induction false} ClusterWriteMeaning(g: Geometry, d: seq<u8>, fat: seq<nat>, data: seq<seq<u8>>, c: nat,
                                          x: seq<u8>)
    requires Represents(g, d, fat, data) && 2 <= c < g.totalClusters + 2 && |x| == g.ClusterSize()
    ensures g.ClusterAt(c) + |x| <= |d|
    ensures Represents(g, Overlay(d, g.ClusterAt(c), x), fat, data[c := x])
    ensures CopiesAgree(g, d) ==> CopiesAgree(g, Overlay(d, g.ClusterAt(c), x))
  {
    ClusterInside(g, c);
    var p := Overlay(d, g.ClusterAt(c), x);
    var data' := data[c := x];
    EntriesOutsideWrite(g, d, g.ClusterAt(c), x);
    forall e | 0 <= e < g.totalClusters + 2
      ensures Holds(g, p, fat, data', e)
    {
      assert Holds(g, d, fat, data, e);
      ClusterAfterWrite(g, d, c, x, e);
    }
  }

  lemma {:induction false} ClusterAfterWrite(g: Geometry, d: seq<u8>, c: nat, x: seq<u8>, e: nat)
    requires Fits(g, d) && 2 <= c < g.totalClusters + 2 && |x| == g.ClusterSize()
    requires e < g.totalClusters + 2
    ensures g.ClusterAt(c) + |x| <= |d|
    ensures ClusterOf(g, Overlay(d, g.ClusterAt(c), x), e) == if e == c then x else ClusterOf(g, d, e)
  {
    ClusterInside(g, c);
    if 2 <= e && e != c {
      ClusterInside(g, e);
      ClustersApart(g, if e < c then e else c, if e < c then c else e);
      OverlayElsewhere(d, g.ClusterAt(c), x, g.ClusterAt(e), g.ClusterAt(e) + g.ClusterSize());
    }
  }

  /** Writing in the reserved area changes neither the FAT nor any cluster. */
  lemma {:induction false} ReservedWriteMeaning(g: Geometry, d: seq<u8>, fat: seq<nat>, data: seq<seq<u8>>, at: nat,
                                          w: seq<u8>)
    requires Represents(g, d, fat, data) && at + |w| <= 512 * g.reservedSectorCount
    ensures at + |w| <= |d|
    ensures Represents(g, Overlay(d, at, w), fat, data)
    ensures CopiesAgree(g, d) ==> CopiesAgree(g, Overlay(d, at, w))
  {
    EntryInside(g, 0, 0);
    var p := Overlay(d, at, w);
    EntriesOutsideWrite(g, d, at, w);
    forall e | 0 <= e < g.totalClusters + 2
      ensures Holds(g, p, fat, data, e)
    {
      assert Holds(g, d, fat, data, e);
      if 2 <= e {
        ClusterInside(g, e);
        OverlayElsewhere(d, at, w, g.ClusterAt(e), g.ClusterAt(e) + g.ClusterSize());
      }
    }
  }
}
