/** File handles: a cluster chain read, written and cut as one flat byte sequence. */
module FatFiles {
  import opened Bytes
  import opened FatChains
  import opened FatContents
  import opened FatGeometry
  import opened FatVolume
  import opened FatSlots

  // ---------------------------------------------------------------- one chunk

  /** A chunk that stays inside one cluster is a slice of the chain's bytes. */
  lemma {:induction false} ChunkInChain(v: Vol, s: seq<nat>, offset: nat, n: nat)
    requires WellFormed(v) && IsChain(v.fat, s)
    requires IndexOf(offset, v.clusterSize) < |s|
    requires Within(offset, v.clusterSize) + n <= v.clusterSize
    ensures InTable(v.data, s)
    ensures s[IndexOf(offset, v.clusterSize)] < |v.data|
    ensures |v.data[s[IndexOf(offset, v.clusterSize)]]| == v.clusterSize
    ensures offset + n <= |ChainBytes(v.data, s)|
    ensures ChainBytes(v.data, s)[offset..offset + n] ==
            v.data[s[IndexOf(offset, v.clusterSize)]][Within(offset, v.clusterSize)..Within(offset, v.clusterSize) + n]
  {
    var cs := v.clusterSize;
    var i, w := IndexOf(offset, cs), Within(offset, cs);
    ChainIsSized(v, s);
    ChainBytesCluster(v.data, s, i, cs);
    IndexSplits(offset, cs);
    SliceOfSlice(ChainBytes(v.data, s), Span(i, cs), Span(i, cs) + cs, w, w + n);
  }

  /** A chain that ends before the cluster of `offset` holds no byte there. */
  lemma {:induction false} BeyondChain(v: Vol, s: seq<nat>, offset: nat)
    requires WellFormed(v) && IsChainOrNil(v.fat, s)
    requires |s| <= IndexOf(offset, v.clusterSize)
    ensures InTable(v.data, s) && |ChainBytes(v.data, s)| <= offset
  {
    ChainIsSized(v, s);
    ChainBytesLength(v.data, s, v.clusterSize);
    IndexSplits(offset, v.clusterSize);
    SpanMono(|s|, IndexOf(offset, v.clusterSize), v.clusterSize);
  }

  /** Rewriting part of one cluster overwrites exactly that part of the chain's bytes. */
  lemma {:induction false} ChunkStored(v: Vol, s: seq<nat>, offset: nat, chunk: seq<u8>, x: seq<u8>)
    requires WellFormed(v) && IsChain(v.fat, s)
    requires IndexOf(offset, v.clusterSize) < |s|
    requires Within(offset, v.clusterSize) + |chunk| <= v.clusterSize
    requires var c := s[IndexOf(offset, v.clusterSize)];
             c < |v.data| && |v.data[c]| == v.clusterSize
                 && x == Overlay(v.data[c], Within(offset, v.clusterSize), chunk)
    ensures var w := v.(data := v.data[s[IndexOf(offset, v.clusterSize)] := x]);
            && FileStep(v, s, w, s)
            && InTable(v.data, s) && InTable(w.data, s)
            && offset + |chunk| <= |ChainBytes(v.data, s)|
            && ChainBytes(w.data, s) == Overlay(ChainBytes(v.data, s), offset, chunk)
  {
    var i := IndexOf(offset, v.clusterSize);
    ChainIsSized(v, s);
    ChainDistinct(v.fat, s);
    IndexSplits(offset, v.clusterSize);
    StoredBytes(v.data, s, v.clusterSize, i, Within(offset, v.clusterSize), offset, chunk, x);
    ChunkIsFileStep(v, s, i, x);
  }

  lemma {:induction false} StoredBytes(data: seq<seq<u8>>, s: seq<nat>, size: nat, i: nat, at: nat, offset: nat,
                                       chunk: seq<u8>, x: seq<u8>)
    requires Sized(data, s, size) && i < |s| && at + |chunk| <= size
    requires forall a, b :: 0 <= a < b < |s| ==> s[a] != s[b]
    requires offset == Span(i, size) + at
    requires x == Overlay(data[s[i]], at, chunk)
    ensures InTable(data, s) && InTable(data[s[i] := x], s)
    ensures offset + |chunk| <= |ChainBytes(data, s)|
    ensures ChainBytes(data[s[i] := x], s) == Overlay(ChainBytes(data, s), offset, chunk)
  {
    ChainBytesUpdate(data, s, i, x);
    ChainBytesCluster(data, s, i, size);
    OverlayWindow(ChainBytes(data, s), Span(i, size), Span(i, size) + size, at, chunk);
  }

  lemma {:induction false} ChunkIsFileStep(v: Vol, s: seq<nat>, i: nat, x: seq<u8>)
    requires WellFormed(v) && IsChain(v.fat, s) && i < |s| && s[i] < |v.data| && |x| == v.clusterSize
    ensures FileStep(v, s, v.(data := v.data[s[i] := x]), s)
  {
    var w := v.(data := v.data[s[i] := x]);
    forall c | 0 <= c < |v.fat|
      ensures Kept(v, s, w, s, c)
    {
    }
  }

  // ---------------------------------------------------------------- when a write completes

  /** A write stores everything exactly when the old chain and the free clusters
      together reach its end. */
  lemma {:induction false} WriteCompletesIff(v: Vol, s: seq<nat>, v': Vol, s': seq<nat>, offset: nat,
                                          buffer: seq<u8>, k: nat)
    requires buffer != [] && k <= |buffer|
    requires WriteStep(v, s, v', s', offset, buffer[..k])
    requires k < |buffer| ==> FreeEntries(v'.fat) == 0 && |ChainBytes(v'.data, s')| <= offset + k
    ensures k == |buffer| <==> offset + |buffer| <= Span(|s| + FreeEntries(v.fat), v.clusterSize)
  {
    ChainIsSized(v', s');
    ChainBytesLength(v'.data, s', v.clusterSize);
    SpanMono(|s'|, |s| + FreeEntries(v.fat), v.clusterSize);
    if k == |buffer| {
      assert buffer[..k] == buffer;
    }
  }

  // ---------------------------------------------------------------- what a truncation does

  /** The volume after everything behind the k-th cluster of `s` was freed and the
      k-th cluster marked as the last. */
  ghost function Cut(v: Vol, s: seq<nat>, k: nat): Vol
    requires LinksStay(v.fat) && 2 < |v.fat| < BAD_CLUSTER
    requires 0 < k <= |s| && (forall i :: 0 <= i < |s| ==> s[i] < |v.fat|)
  {
    var w := if k < |s| then FreeWalk(v, s[k]) else v;
    if s[k - 1] < |w.fat| then w.(fat := w.fat[s[k - 1] := END_MARK]) else w
  }

  lemma {:induction false} CutIsFileStep(v: Vol, s: seq<nat>, k: nat)
    requires WellFormed(v) && LinksStay(v.fat) && IsChain(v.fat, s) && 0 < k <= |s|
    ensures forall i :: 0 <= i < |s| ==> s[i] < |v.fat|
    ensures FileStep(v, s, Cut(v, s, k), s[..k])
    ensures Cut(v, s, k).data == v.data
  {
    ChainInRange(v.fat, s);
    ChainDistinct(v.fat, s);
    var last := s[k - 1];
    ChainAt(v.fat, s, k - 1);
    ChainCut(v.fat, s, k);
    if k == |s| {
      FreeFromUpdate(v.fat, 2, last, END_MARK);
      assert s[..k] == s;
    } else {
      var t := s[k..];
      ChainSuffix(v.fat, s, k);
      FreeWalkReleasesChain(v, t);
      var w := FreeWalk(v, t[0]);
      FreeFromUpdate(w.fat, 2, last, END_MARK);
      CutKeeps(v, s, k, w);
    }
  }

  lemma {:induction false} CutKeeps(v: Vol, s: seq<nat>, k: nat, w: Vol)
    requires WellFormed(v) && IsChain(v.fat, s) && 0 < k < |s| && s[k - 1] < |v.fat|
    requires w == v.(fat := Released(v.fat, s[k..]), freeCount := w.freeCount)
    requires forall i, j :: 0 <= i < j < |s| ==> s[i] != s[j]
    requires IsChain(v.fat[s[k - 1] := END_MARK], s[..k])
    ensures w.fat[s[k - 1]] == v.fat[s[k - 1]]
    ensures var w' := w.(fat := w.fat[s[k - 1] := END_MARK]);
            IsChain(w'.fat, s[..k]) && forall c :: 0 <= c < |v.fat| ==> Kept(v, s, w', s[..k], c)
  {
    var h, t := s[..k], s[k..];
    assert s == h + t;
    var last := s[k - 1];
    var w' := w.(fat := w.fat[last := END_MARK]);
    assert forall i :: 0 <= i < |h| ==> h[i] !in t;
    ChainInRange(v.fat[last := END_MARK], h);
    ChainFrame(v.fat[last := END_MARK], w'.fat, h);
    forall c | 0 <= c < |v.fat|
      ensures Kept(v, s, w', h, c)
    {
      assert c in s <==> c in h || c in t;
      assert c == last ==> c in h;
    }
  }

  lemma {:induction false} SlicesJoin(b: seq<u8>, lo: nat, mid: nat, hi: nat)
    requires lo <= mid <= hi <= |b|
    ensures b[lo..mid] + b[mid..hi] == b[lo..hi]
  {
  }

  lemma {:induction false} JoinPrefix(b: seq<u8>, k: nat, n: nat)
    requires k <= |b| && n <= |b| - k
    ensures b[..k] + b[k..][..n] == b[..k + n]
  {
  }

  /** A taken cluster outside the file's chain stays outside it, taken and unchanged. */
  lemma {:induction false} StaysApart(v: Vol, s: seq<nat>, v': Vol, s': seq<nat>, c: nat)
    requires FileStep(v, s, v', s')
    requires c < |v.fat| && c !in s && v.fat[c] != FREE_CLUSTER
    ensures c !in s' && c < |v'.fat| && v'.fat[c] != FREE_CLUSTER && v'.data[c] == v.data[c]
  {
    assert Kept(v, s, v', s', c);
  }

  /** `b'` starts like `b` and is zero wherever it is longer. */
  ghost predicate Resized(b: seq<u8>, b': seq<u8>) {
    forall i :: 0 <= i < |b'| ==> ByteAfter(b, b', 0, [], i)
  }

  lemma {:induction false} CutIsResized(b: seq<u8>, b1: seq<u8>, b2: seq<u8>)
    requires Resized(b, b1) && |b| <= |b1|
    requires |b2| <= |b1| && b2 == b1[..|b2|]
    ensures Resized(b, b2)
  {
    forall i | 0 <= i < |b2|
      ensures ByteAfter(b, b2, 0, [], i)
    {
      assert ByteAfter(b, b1, 0, [], i);
    }
  }

  lemma {:induction false} GrownIsResized(v: Vol, s: seq<nat>, v': Vol, s': seq<nat>)
    requires Grown(v, s, v', s')
    ensures Resized(ChainBytes(v.data, s), ChainBytes(v'.data, s'))
  {
  }

  lemma {:induction false} NothingLeft(b: seq<u8>, data: seq<seq<u8>>, size: nat)
    requires 0 < size
    ensures QuotientUp(0, size) == 0
    ensures ChainBytes(data, []) == [] && Resized(b, ChainBytes(data, []))
  {
  }

  /** A file resized to `n` bytes keeps those it had up to there. */
  lemma {:induction false} ResizedKeeps(b: seq<u8>, b': seq<u8>, n: nat)
    requires Resized(b, b') && n <= |b'|
    ensures b'[..Min(n, |b|)] == b[..Min(n, |b|)]
  {
    forall i | 0 <= i < Min(n, |b|)
      ensures b'[i] == b[i]
    {
      assert ByteAfter(b, b', 0, [], i);
    }
  }

  lemma {:induction false} CutBytes(v: Vol, s: seq<nat>, k: nat)
    requires WellFormed(v) && LinksStay(v.fat) && IsChain(v.fat, s) && 0 < k <= |s|
    ensures forall i :: 0 <= i < |s| ==> s[i] < |v.fat|
    ensures InTable(v.data, s) && InTable(Cut(v, s, k).data, s[..k])
    ensures var b, b' := ChainBytes(v.data, s), ChainBytes(Cut(v, s, k).data, s[..k]); |b'| <= |b| && b' == b[..|b'|]
  {
    CutIsFileStep(v, s, k);
    ChainIsSized(v, s);
    ChainBytesPrefix(v.data, s, k, v.clusterSize);
  }

  // ---------------------------------------------------------------- the handle

  /** An open file: the node's first cluster and size, and the handle's position. */
  class FileHandle {
    const fs: Volume
    const canRead: bool
    const canWrite: bool
    /** Where the file's directory slot is, if the node has one. */
    const hasEntry: bool
    const attributes: u8
    const entryCluster: nat
    const entryOffset: nat

    var firstCluster: nat
    var size: nat
    var offset: nat
    var dirty: bool
    var closed: bool
    ghost var chain: seq<nat>

    ghost predicate Valid()
      reads this, fs, fs.disk
    {
      && fs.Valid()
      && LinksStay(fs.view.fat)
      && fs.StartsAt(firstCluster, chain)
      && (hasEntry ==> 2 <= entryCluster < |fs.view.fat| && entryOffset + 32 <= fs.view.clusterSize)
      && (hasEntry ==> entryCluster !in chain && fs.view.fat[entryCluster] != FREE_CLUSTER)
    }

    /** A handle on the file whose slot was found at `entryOffset` of `entryCluster`. */
    constructor (fs: Volume, entryCluster: nat, entryOffset: nat, attributes: u8, firstCluster: nat, size: nat,
                 canRead: bool, canWrite: bool, append: bool, ghost chain: seq<nat>)
      requires fs.Valid() && LinksStay(fs.view.fat) && fs.StartsAt(firstCluster, chain)
      requires 2 <= entryCluster < |fs.view.fat| && entryOffset + 32 <= fs.view.clusterSize
      requires entryCluster !in chain && fs.view.fat[entryCluster] != FREE_CLUSTER
      ensures Valid() && !closed && !dirty && hasEntry
      ensures this.fs == fs && this.chain == chain && this.firstCluster == firstCluster && this.size == size
      ensures this.entryCluster == entryCluster && this.entryOffset == entryOffset && this.attributes == attributes
      ensures this.canRead == canRead && this.canWrite == canWrite
      ensures offset == if append then size else 0
    {
      this.fs := fs;
      this.canRead, this.canWrite := canRead, canWrite;
      this.hasEntry, this.attributes := true, attributes;
      this.entryCluster, this.entryOffset := entryCluster, entryOffset;
      this.firstCluster, this.size, this.chain := firstCluster, size, chain;
      this.offset := if append then size else 0;
      this.dirty, this.closed := false, false;
    }

    /** The file's clusters as one byte sequence. */
    ghost function Bytes(): seq<u8>
      requires Valid()
      reads this, fs, fs.disk
    {
      ChainIsSized(fs.view, chain);
      ChainBytes(fs.view.data, chain)
    }

    method Read(n: nat) returns (out: seq<u8>)
      requires Valid()
      modifies `offset, fs, fs.disk
      ensures Valid() && unchanged(fs) && unchanged(fs.disk)
      ensures closed || !canRead || Min(size, |Bytes()|) <= old(offset) ==> out == []
      ensures !closed && canRead && old(offset) < Min(size, |Bytes()|) ==>
                && |out| == Min(n, Min(size, |Bytes()|) - old(offset))
                && out == Bytes()[old(offset)..old(offset) + |out|]
      ensures offset == old(offset) + |out|
    {
      hide ChainBytes, IsChain, WellFormed;
      out := [];
      if closed || !canRead || offset >= size {
        return;
      }
      var remaining: nat := Min(n, size - offset);
      ghost var start, want, b := offset, remaining, Bytes();
      while remaining > 0
        invariant Valid() && unchanged(fs) && unchanged(fs.disk)
        invariant Bytes() == b
        invariant offset == start + |out| && |out| + remaining == want
        invariant |out| > 0 ==> offset <= |b|
        invariant |out| > 0 ==> out == b[start..offset]
      {
        var chunk := ReadChunk(remaining);
        if chunk == [] {
          break;
        }
        if out != [] {
          SlicesJoin(b, start, offset, offset + |chunk|);
        }
        out := out + chunk;
        offset := offset + |chunk|;
        remaining := remaining - |chunk|;
      }
      assert Bytes() == b;
      assert remaining == 0 || |b| <= offset;
    }

    /** One round of the read loop: the part of the current cluster that is wanted. */
    method ReadChunk(remaining: nat) returns (chunk: seq<u8>)
      requires Valid() && 0 < remaining
      modifies fs, fs.disk
      ensures Valid() && unchanged(fs) && unchanged(fs.disk)
      ensures chunk == [] ==> |Bytes()| <= offset
      ensures chunk != [] ==> |chunk| <= remaining && offset + |chunk| <= |Bytes()|
      ensures chunk != [] ==> chunk == Bytes()[offset..offset + |chunk|]
    {
      var ok, cluster, _ := fs.GetClusterForOffset(firstCluster, offset, false, chain);
      if !ok {
        BeyondChain(fs.view, chain, offset);
        return [];
      }
      ChainInRange(fs.view.fat, chain);
      var clusterData := fs.ReadCluster(cluster);
      var clusterOffset, length := ChunkAt(remaining);
      ChunkInChain(fs.view, chain, offset, length);
      chunk := clusterData[clusterOffset..clusterOffset + length];
    }

    /** How much of the current cluster a transfer of `remaining` bytes touches. */
    method ChunkAt(remaining: nat) returns (clusterOffset: nat, chunk: nat)
      requires fs.Valid() && 0 < remaining
      ensures clusterOffset == Within(offset, fs.view.clusterSize)
      ensures 0 < chunk <= remaining && clusterOffset + chunk <= fs.view.clusterSize
      ensures chunk == Min(fs.view.clusterSize - clusterOffset, remaining)
    {
      IndexIsQuotient(offset, fs.g.ClusterSize());
      clusterOffset := offset % fs.g.ClusterSize();
      chunk := Min(fs.g.ClusterSize() - clusterOffset, remaining);
    }

    method Write(buffer: seq<u8>) returns (k: nat)
      requires Valid()
      modifies `firstCluster, `size, `offset, `dirty, `chain, fs, fs.disk
      ensures Valid()
      ensures k <= |buffer|
      ensures closed || !canWrite ==> k == 0 && unchanged(this) && unchanged(fs) && unchanged(fs.disk)
      ensures !closed && canWrite ==>
                WriteStep(old(fs.view), old(chain), fs.view, chain, old(offset), buffer[..k])
      ensures !closed && canWrite && k < |buffer| ==>
                FreeEntries(fs.view.fat) == 0 && |ChainBytes(fs.view.data, chain)| <= offset
      ensures offset == old(offset) + k
      ensures size == if k > 0 then Max(old(size), offset) else old(size)
      ensures !dirty ==> firstCluster == old(firstCluster) && size == old(size)
      ensures old(Synced()) ==> Synced()
    {
      k := 0;
      assert buffer[..0] == [];
      if closed || !canWrite {
        return;
      }
      ghost var v, s, start := fs.view, chain, offset;
      GrownRefl(v, s);
      GrownIsWriteStep(v, s, v, s, start);
      ChainInRange(v.fat, s);
      if firstCluster < 2 {
        var ok := AllocateFirst();
        if !ok {
          return;
        }
        GrownIsWriteStep(v, s, fs.view, chain, start);
        dirty := true;
      }
      k := WriteChunks(buffer, v, s);
      KeepSlot(v, s, chain);
    }

    /** The write loop, from a chain `s` of the volume `v` that has only grown so far. */
    method WriteChunks(buffer: seq<u8>, ghost v: Vol, ghost s: seq<nat>) returns (k: nat)
      requires Valid() && chain != []
      requires WriteStep(v, s, fs.view, chain, offset, [])
      modifies `size, `offset, `dirty, `chain, fs, fs.disk
      ensures Valid()
      ensures k <= |buffer|
      ensures WriteStep(v, s, fs.view, chain, old(offset), buffer[..k])
      ensures k < |buffer| ==> FreeEntries(fs.view.fat) == 0 && |ChainBytes(fs.view.data, chain)| <= offset
      ensures offset == old(offset) + k
      ensures size == if k > 0 then Max(old(size), offset) else old(size)
      ensures dirty == (old(dirty) || k > 0)
    {
      hide WriteStep, ChainBytes;
      k := 0;
      ghost var start := offset;
      assert buffer[..0] == [];
      while k < |buffer|
        invariant Valid() && chain != []
        invariant k <= |buffer| && offset == start + k
        invariant WriteStep(v, s, fs.view, chain, start, buffer[..k])
        invariant size == if k > 0 then Max(old(size), offset) else old(size)
        invariant dirty == (old(dirty) || k > 0)
      {
        ghost var v1, s1 := fs.view, chain;
        var ok, n := WriteRound(buffer[k..]);
        JoinPrefix(buffer, k, n);
        WriteStepTrans(v, s, v1, s1, fs.view, chain, start, buffer[..k], buffer[k..][..n]);
        k := k + n;
        if !ok {
          break;
        }
      }
    }

    /** One round of the write loop: a chunk is stored and the position and size follow it. */
    method WriteRound(rest: seq<u8>) returns (ok: bool, n: nat)
      requires Valid() && rest != [] && chain != []
      modifies `size, `offset, `dirty, `chain, fs, fs.disk
      ensures Valid() && chain != []
      ensures n <= |rest| && (ok <==> n > 0)
      ensures WriteStep(old(fs.view), old(chain), fs.view, chain, old(offset), rest[..n])
      ensures offset == old(offset) + n
      ensures size == if n > 0 then Max(old(size), offset) else old(size)
      ensures dirty == (old(dirty) || n > 0)
      ensures !ok ==> FreeEntries(fs.view.fat) == 0 && |ChainBytes(fs.view.data, chain)| <= offset
    {
      var chunk;
      ok, chunk := WriteChunk(rest);
      n := |chunk|;
      assert rest[..n] == chunk;
      if !ok {
        return;
      }
      offset := offset + n;
      if offset > size {
        size := offset;
      }
      dirty := true;
    }

    /** A file without clusters gets its first one. */
    method AllocateFirst() returns (ok: bool)
      requires Valid() && firstCluster < 2
      modifies `firstCluster, `chain, fs, fs.disk
      ensures Valid()
      ensures ok ==> |chain| == 1 && Grown(old(fs.view), old(chain), fs.view, chain)
      ensures !ok ==> unchanged(`firstCluster) && chain == old(chain) && fs.view == old(fs.view)
      ensures !ok ==> FreeEntries(fs.view.fat) == 0
    {
      ghost var v := fs.view;
      ChainInRange(v.fat, chain);
      var c: nat;
      ok, c := fs.AllocateCluster();
      if ok {
        LinkedIsGrown(v, [], c);
        FileStepKeepsLinks(v, [], fs.view, [c]);
        KeepSlot(v, chain, [c]);
        firstCluster := c;
        chain := [c];
      }
    }

    /** One round of the write loop: as much of `rest` as the current cluster takes. */
    method WriteChunk(rest: seq<u8>) returns (ok: bool, chunk: seq<u8>)
      requires Valid() && rest != [] && chain != []
      modifies `chain, fs, fs.disk
      ensures Valid() && chain != []
      ensures WriteStep(old(fs.view), old(chain), fs.view, chain, offset, chunk)
      ensures ok ==> chunk != [] && chunk <= rest
      ensures !ok ==> chunk == [] && FreeEntries(fs.view.fat) == 0 && |ChainBytes(fs.view.data, chain)| <= offset
    {
      ghost var v, s := fs.view, chain;
      var cluster;
      chunk := [];
      ok, cluster, chain := fs.GetClusterForOffset(firstCluster, offset, true, chain);
      ghost var v1 := fs.view;
      GrownIsWriteStep(v, s, v1, chain, offset);
      FileStepKeepsLinks(v, s, v1, chain);
      KeepSlot(v, s, chain);
      if !ok {
        BeyondChain(v1, chain, offset);
        return;
      }
      chunk := StoreChunk(cluster, rest);
      WriteStepTrans(v, s, v1, chain, fs.view, chain, offset, [], chunk);
      assert [] + chunk == chunk;
    }

    /** Puts as much of `rest` into the current cluster as it takes. */
    method StoreChunk(cluster: nat, rest: seq<u8>) returns (chunk: seq<u8>)
      requires Valid() && rest != [] && chain != []
      requires IndexOf(offset, fs.view.clusterSize) < |chain| && cluster == chain[IndexOf(offset, fs.view.clusterSize)]
      modifies fs, fs.disk
      ensures Valid() && chunk != [] && chunk <= rest
      ensures WriteStep(old(fs.view), chain, fs.view, chain, offset, chunk)
    {
      ghost var v := fs.view;
      ChainInRange(v.fat, chain);
      var clusterOffset, length := ChunkAt(|rest|);
      chunk := rest[..length];
      var clusterData := ClusterForChunk(cluster, clusterOffset, chunk);
      ChunkStored(v, chain, offset, chunk, clusterData);
      fs.WriteCluster(cluster, clusterData);
      FileStepKeepsLinks(v, chain, fs.view, chain);
      KeepSlot(v, chain, chain);
      StoreIsWriteStep(v, fs.view, chain, offset, chunk);
    }

    /** The cluster's new contents: read and patched, or built from zeros when the
        chunk covers all of it. */
    method ClusterForChunk(cluster: nat, clusterOffset: nat, chunk: seq<u8>) returns (clusterData: seq<u8>)
      requires fs.Valid() && 2 <= cluster < |fs.view.fat| && clusterOffset + |chunk| <= fs.view.clusterSize
      ensures clusterData == Overlay(fs.view.data[cluster], clusterOffset, chunk)
    {
      if |chunk| != fs.g.ClusterSize() {
        clusterData := fs.ReadCluster(cluster);
      } else {
        clusterData := Zeros(fs.g.ClusterSize());
      }
      clusterData := Overlay(clusterData, clusterOffset, chunk);
    }

    /** An operation on the file leaves its slot's cluster alone. */
    lemma {:induction false} KeepSlot(v: Vol, s: seq<nat>, s': seq<nat>)
      requires FileStep(v, s, fs.view, s')
      requires hasEntry ==> entryCluster < |v.fat| && entryCluster !in s && v.fat[entryCluster] != FREE_CLUSTER
      ensures hasEntry ==>
                entryCluster !in s' && entryCluster < |fs.view.fat| && fs.view.fat[entryCluster] != FREE_CLUSTER
      ensures hasEntry ==> fs.view.data[entryCluster] == v.data[entryCluster]
    {
      if hasEntry {
        StaysApart(v, s, fs.view, s', entryCluster);
      }
    }

    /** Grows the chain to hold byte `n - 1`. */
    method GrowTo(n: nat) returns (ok: bool, lastCluster: nat)
      requires Valid() && 0 < n
      modifies `firstCluster, `chain, fs, fs.disk
      ensures Valid() && Grown(old(fs.view), old(chain), fs.view, chain)
      ensures ok ==> IndexOf(n - 1, fs.g.ClusterSize()) < |chain|
      ensures ok ==> lastCluster == chain[IndexOf(n - 1, fs.g.ClusterSize())]
      ensures !ok ==> |chain| <= IndexOf(n - 1, fs.g.ClusterSize()) && FreeEntries(fs.view.fat) == 0
      ensures firstCluster != old(firstCluster) ==> old(chain) == [] && chain != []
    {
      ghost var v, s := fs.view, chain;
      GrownRefl(v, s);
      ChainInRange(v.fat, s);
      lastCluster := 0;
      if firstCluster < 2 {
        ok := AllocateFirst();
        if !ok {
          return;
        }
      }
      ghost var v1, s1 := fs.view, chain;
      ok, lastCluster, chain := fs.GetClusterForOffset(firstCluster, n - 1, true, chain);
      GrownTrans(v, s, v1, s1, fs.view, chain);
      FileStepKeepsLinks(v, s, fs.view, chain);
      KeepSlot(v, s, chain);
    }

    /** Frees everything behind the k-th cluster and marks that one as the last. */
    method CutTail(lastCluster: nat, ghost k: nat)
      requires Valid() && 0 < k <= |chain| && lastCluster == chain[k - 1]
      modifies `chain, fs, fs.disk
      ensures Valid() && chain == old(chain)[..k]
      ensures forall i :: 0 <= i < |old(chain)| ==> old(chain)[i] < |old(fs.view).fat|
      ensures fs.view == Cut(old(fs.view), old(chain), k)
      ensures FileStep(old(fs.view), old(chain), fs.view, chain)
    {
      ghost var v, s := fs.view, chain;
      ChainInRange(v.fat, s);
      ChainAt(v.fat, s, k - 1);
      var next := fs.ReadFatEntry(lastCluster);
      if next < END_OF_CHAIN && next >= 2 {
        fs.FreeClusterChain(next);
      }
      fs.WriteFatEntry(lastCluster, END_MARK);
      CutIsFileStep(v, s, k);
      chain := s[..k];
      FileStepKeepsLinks(v, s, fs.view, chain);
      KeepSlot(v, s, chain);
    }

    /** Sets the file's length. On success the chain has exactly the clusters `n`
        bytes need and the volume is then flushed; `mid` is the volume before that. */
    method Truncate(n: nat) returns (ok: bool, ghost mid: Vol)
      requires Valid()
      modifies `firstCluster, `size, `offset, `dirty, `chain, fs, fs.disk
      ensures Valid()
      ensures closed || !canWrite ==> !ok && unchanged(this) && unchanged(fs) && unchanged(fs.disk)
      ensures !closed && canWrite ==>
                && FileStep(old(fs.view), old(chain), mid, chain)
                && InTable(old(fs.view).data, old(chain)) && InTable(mid.data, chain)
                && Resized(ChainBytes(old(fs.view).data, old(chain)), ChainBytes(mid.data, chain))
                && (old(chain) <= chain || chain <= old(chain))
      ensures ok ==> |chain| == QuotientUp(n, fs.g.ClusterSize())
      ensures ok ==> n <= |ChainBytes(mid.data, chain)| < n + fs.g.ClusterSize()
      ensures ok ==> var b := ChainBytes(old(fs.view).data, old(chain));
                     ChainBytes(mid.data, chain)[..Min(n, |b|)] == b[..Min(n, |b|)]
      ensures ok ==> size == n && offset == Min(old(offset), n)
      ensures ok ==> fs.view == Recorded(mid) && !dirty
      ensures !closed && canWrite && !ok ==>
                && fs.view == mid && FreeEntries(mid.fat) == 0
                && |chain| < QuotientUp(n, fs.g.ClusterSize())
                && size == old(size) && offset == old(offset) && dirty == old(dirty)
                && (firstCluster == old(firstCluster) || (old(chain) == [] && chain != []))
      ensures !closed && canWrite ==>
                (ok <==> QuotientUp(n, fs.g.ClusterSize()) <= |old(chain)| + FreeEntries(old(fs.view).fat))
      ensures ok ==> Synced()
      ensures old(Synced()) && !closed && canWrite && !ok ==>
                (Synced() <==> !hasEntry || old(dirty) || old(chain) != [] || FreeEntries(old(fs.view).fat) == 0)
    {
      hide QuotientUp, Resized, ChainBytes, IndexOf, Span;
      mid := fs.view;
      if closed || !canWrite {
        return false, mid;
      }
      ghost var v, s := fs.view, chain;
      ChainInRange(v.fat, s);
      if n == 0 {
        ReleaseAll();
        mid := fs.view;
        NothingLeft(ChainBytes(v.data, s), mid.data, fs.g.ClusterSize());
        size, offset, dirty := 0, 0, true;
        ok := Flush();
        return;
      }
      ok := ResizeChain(n);
      mid := fs.view;
      KeepSlot(v, s, chain);
      LastIndexRoundsUp(n, fs.g.ClusterSize());
      if !ok {
        ChainInRange(fs.view.fat, chain);
        return;
      }
      ChainIsSized(mid, chain);
      ChainBytesLength(mid.data, chain, fs.g.ClusterSize());
      ResizedKeeps(ChainBytes(v.data, s), ChainBytes(mid.data, chain), n);
      size := n;
      if offset > n {
        offset := n;
      }
      dirty := true;
      ok := Flush();
    }

    /** What truncating to `n > 0` bytes does to the volume: grow the chain to the
        last byte's cluster, free what is behind it, mark it as the last. */
    method ResizeChain(n: nat) returns (ok: bool)
      requires Valid() && 0 < n
      modifies `firstCluster, `chain, fs, fs.disk
      ensures Valid()
      ensures FileStep(old(fs.view), old(chain), fs.view, chain)
      ensures InTable(old(fs.view).data, old(chain)) && InTable(fs.view.data, chain)
      ensures Resized(ChainBytes(old(fs.view).data, old(chain)), ChainBytes(fs.view.data, chain))
      ensures old(chain) <= chain || chain <= old(chain)
      ensures ok ==> |chain| == IndexOf(n - 1, fs.g.ClusterSize()) + 1
      ensures !ok ==> |chain| <= IndexOf(n - 1, fs.g.ClusterSize()) && FreeEntries(fs.view.fat) == 0
      ensures firstCluster != old(firstCluster) ==> old(chain) == [] && chain != []
    {
      ghost var v, s := fs.view, chain;
      var lastCluster;
      ok, lastCluster := GrowTo(n);
      ghost var w, s1 := fs.view, chain;
      GrownIsResized(v, s, w, s1);
      if !ok {
        return;
      }
      ghost var k := IndexOf(n - 1, fs.g.ClusterSize()) + 1;
      CutTail(lastCluster, k);
      CutBytes(w, s1, k);
      FileStepTrans(v, s, w, s1, fs.view, chain);
      CutIsResized(ChainBytes(v.data, s), ChainBytes(w.data, s1), ChainBytes(fs.view.data, chain));
    }

    /** Truncation to nothing gives every cluster back. */
    method ReleaseAll()
      requires Valid()
      modifies `firstCluster, `chain, fs, fs.disk
      ensures Valid() && chain == [] && firstCluster == 0
      ensures FileStep(old(fs.view), old(chain), fs.view, [])
    {
      ghost var v, s := fs.view, chain;
      ChainInRange(v.fat, s);
      FileStepRefl(v, s);
      if firstCluster >= 2 {
        fs.FreeClusterChain(firstCluster);
        ReleaseIsFileStep(v, s);
      }
      FileStepKeepsLinks(v, s, fs.view, []);
      KeepSlot(v, s, []);
      firstCluster, chain := 0, [];
    }

    // ------------------------------------------------------------ the directory slot

    /** The volume with this node's first cluster and size in its slot. */
    ghost function Recorded(v: Vol): Vol
      requires WellFormed(v) && firstCluster < U32_LIMIT
      requires hasEntry ==> entryCluster < |v.fat| && entryOffset + 32 <= v.clusterSize
      reads this
    {
      if hasEntry then EntryUpdated(v, entryCluster, entryOffset, attributes, firstCluster, size % 0x1_0000_0000) else v
    }

    /** Unless the handle is dirty, the slot records what the handle knows. */
    ghost predicate Synced()
      requires Valid()
      reads this, fs, fs.disk
    {
      hasEntry && !dirty ==>
        && SlotAttributes(fs.view.data[entryCluster], entryOffset) == attributes
        && SlotFirstCluster(fs.view.data[entryCluster], entryOffset) == firstCluster
        && SlotSize(fs.view.data[entryCluster], entryOffset) == RecordedSize(attributes, size % 0x1_0000_0000)
    }

    method Flush() returns (ok: bool)
      requires Valid()
      modifies `dirty, fs, fs.disk
      ensures Valid()
      ensures firstCluster < U32_LIMIT
      ensures ok == !closed
      ensures fs.view == if !closed && old(dirty) then Recorded(old(fs.view)) else old(fs.view)
      ensures dirty == (closed && old(dirty))
      ensures !closed && old(dirty) ==> Synced()
    {
      ChainInRange(fs.view.fat, chain);
      if closed {
        return false;
      }
      if !dirty {
        return true;
      }
      if !hasEntry {
        dirty := false;
        return true;
      }
      SlotUpdatedReads(fs.view.data[entryCluster], entryOffset, attributes, firstCluster,
                       RecordedSize(attributes, size % 0x1_0000_0000));
      fs.UpdateDirectoryEntry(entryCluster, entryOffset, attributes, firstCluster, size % 0x1_0000_0000);
      dirty := false;
      ok := true;
    }

    method Close() returns (ok: bool)
      requires Valid()
      modifies `dirty, `closed, fs, fs.disk
      ensures Valid() && ok && closed
      ensures firstCluster < U32_LIMIT
      ensures !old(closed) && old(Synced()) ==> Synced() && !dirty
      ensures fs.view == if !old(closed) && old(dirty) then Recorded(old(fs.view)) else old(fs.view)
    {
      ChainInRange(fs.view.fat, chain);
      if closed {
        return true;
      }
      ok := Flush();
      closed := true;
    }
  }

  /** Opens a handle for reading on the file recorded in a slot. */
  method OpenSlot(fs: Volume, entryCluster: nat, entryOffset: nat, ghost chain: seq<nat>) returns (h: FileHandle)
    requires fs.Valid() && LinksStay(fs.view.fat)
    requires 2 <= entryCluster < |fs.view.fat| && entryOffset + 32 <= fs.view.clusterSize
    requires entryCluster !in chain && fs.view.fat[entryCluster] != FREE_CLUSTER
    requires fs.StartsAt(SlotFirstCluster(fs.view.data[entryCluster], entryOffset), chain)
    ensures fresh(h) && h.Valid() && h.fs == fs && h.chain == chain
    ensures h.canRead && !h.closed && h.offset == 0
    ensures h.size == SlotSize(fs.view.data[entryCluster], entryOffset)
    ensures h.firstCluster == SlotFirstCluster(fs.view.data[entryCluster], entryOffset)
    ensures h.attributes == SlotAttributes(fs.view.data[entryCluster], entryOffset)
    ensures h.Synced() <==> IsDirectory(h.attributes) ==> h.size == 0
  {
    Le32IsSum(fs.view.data[entryCluster], entryOffset + 28);
    var slot := fs.ReadCluster(entryCluster);
    h := new FileHandle(fs, entryCluster, entryOffset, SlotAttributes(slot, entryOffset),
                        SlotFirstCluster(slot, entryOffset), SlotSize(slot, entryOffset), true, false, false, chain);
  }

  /** Closing a handle leaves its bytes on the volume and its size and first cluster
      in the slot. */
  method CloseHandle(h: FileHandle)
    requires h.Valid() && h.Synced() && !h.closed && h.hasEntry
    modifies h, h.fs, h.fs.disk
    ensures h.Valid() && h.Bytes() == old(h.Bytes()) && h.size == old(h.size) && h.chain == old(h.chain)
    ensures SlotFirstCluster(h.fs.view.data[h.entryCluster], h.entryOffset) == h.firstCluster
    ensures SlotSize(h.fs.view.data[h.entryCluster], h.entryOffset)
            == RecordedSize(h.attributes, h.size % 0x1_0000_0000)
  {
    ghost var v := h.fs.view;
    var _ := h.Close();
    RecordedBytes(h, v);
  }

  /** After closing a handle, opening the slot again and reading gives the bytes the
      handle had, for sizes that fit the slot's 32-bit field. */
  method CloseReopenRead(h: FileHandle, n: nat) returns (out: seq<u8>)
    requires h.Valid() && h.Synced() && !h.closed && h.hasEntry
    requires !IsDirectory(h.attributes) && h.size < U32_LIMIT
    modifies h, h.fs, h.fs.disk
    ensures out == old(h.Bytes())[..Min(n, Min(old(h.size), |old(h.Bytes())|))]
  {
    hide ChainBytes, WellFormed, IsChainOrNil;
    CloseHandle(h);
    var again := OpenSlot(h.fs, h.entryCluster, h.entryOffset, h.chain);
    assert again.Bytes() == h.Bytes();
    out := again.Read(n);
  }

  /** Recording a node in its slot leaves the node's own bytes alone. */
  lemma {:induction false} RecordedBytes(h: FileHandle, v: Vol)
    requires h.Valid() && h.firstCluster < U32_LIMIT
    requires WellFormed(v) && IsChainOrNil(v.fat, h.chain) && h.entryCluster < |v.fat|
             && h.entryOffset + 32 <= v.clusterSize
    requires h.hasEntry && (h.fs.view == v || h.fs.view == h.Recorded(v))
    ensures InTable(v.data, h.chain)
    ensures h.Bytes() == ChainBytes(v.data, h.chain)
  {
    ChainIsSized(v, h.chain);
    ChainBytesFrame(v.data, h.fs.view.data, h.chain);
  }

  // ---------------------------------------------------------------- a file that loses its cluster

  /** A device of four sectors with one table, one sector a cluster and two clusters. */
  const SMALL: Geometry := Geometry(1, 1, 1, 1, 4, 0, 2, 2)

  lemma {:induction false} SmallIsBlank(d: seq<u8>)
    requires d == Zeros(2048)
    ensures SMALL.Sound() && SMALL.ClusterSize() == 512
    ensures Represents(SMALL, d, [0, 0, 0, 0], [[], [], Zeros(512), Zeros(512)])
  {
    var none: seq<u8> := [];
    var fat: seq<nat>, data: seq<seq<u8>> := [0, 0, 0, 0], [none, none, Zeros(512), Zeros(512)];
    assert SMALL.TableStart(0) == 1 && SMALL.TableStart(1) == 2;
    assert SMALL.ClusterStart(2) == 2 && SMALL.ClusterStart(3) == 3 && SMALL.ClusterStart(4) == 4;
    forall c | 0 <= c < 4
      ensures Holds(SMALL, d, fat, data, c)
    {
      EntryInside(SMALL, 0, c);
      Le32IsSum(d, SMALL.EntryAt(0, c));
      assert c >= 2 ==> ClusterOf(SMALL, d, c) == Zeros(512);
    }
  }

  /** The cluster with the slot of an empty file. */
  function EmptyFileCluster(): (b: seq<u8>)
    ensures |b| == 512
  {
    [0x41] + Zeros(10) + [ATTRIBUTE_ARCHIVE] + Zeros(500)
  }

  lemma {:induction false} EmptyFileSlot()
    ensures SlotAttributes(EmptyFileCluster(), 0) == ATTRIBUTE_ARCHIVE
    ensures SlotFirstCluster(EmptyFileCluster(), 0) == 0 && SlotSize(EmptyFileCluster(), 0) == 0
  {
    var b := EmptyFileCluster();
    Le32IsSum(b, 28);
    Le16IsSum(b, 20);
    Le16IsSum(b, 26);
  }

  lemma {:induction false} MarkIsLow()
    ensures Low28(0x0FFF_FFFF) == 0x0FFF_FFFF
  {
  }

  method BlankDisk() returns (disk: array<u8>)
    ensures fresh(disk) && disk[..] == Zeros(2048)
  {
    disk := new u8[2048](i => 0);
  }

  /** The device with one cluster in use, for that slot, and one free. */
  method SmallVolume() returns (fs: Volume)
    ensures fresh(fs) && fresh(fs.disk) && fs.Valid() && fs.g == SMALL && fs.view.clusterSize == 512
    ensures fs.view.fat == [0, 0, END_MARK, 0] && |fs.view.data| == 4 && fs.view.data[2] == EmptyFileCluster()
  {
    hide Represents, CopiesAgree, EmptyFileCluster, Geometry.Sound, Low28, FsInfoSector, HintsOf, Overlay;
    MarkIsLow();
    var disk := BlankDisk();
    SmallIsBlank(disk[..]);
    var none: seq<u8> := [];
    fs := new Volume(SMALL, disk, Zeros(492), 1, 2, [0, 0, 0, 0], [none, none, Zeros(512), Zeros(512)]);
    fs.WriteFatEntry(2, 0x0FFF_FFFF);
    fs.WriteCluster(2, EmptyFileCluster());
  }

  lemma {:induction false} SmallCounts()
    ensures QuotientUp(1024, 512) == 2 && FreeEntries([0, 0, END_MARK, 0]) == 1
  {
    var fat: seq<nat> := [0, 0, END_MARK, 0];
    assert FreeFrom(fat, 4) == 0;
    assert FreeFrom(fat, 3) == 1;
  }

  /** A clean empty file on a volume with one free cluster: asked for 1024 bytes it takes that
      cluster, fails, and its slot does not say so. */
  method TruncateLosesCluster() returns (h: FileHandle, ok: bool)
    ensures !ok && h.Valid() && h.hasEntry && !h.closed && !h.dirty
    ensures h.chain != [] && SlotFirstCluster(h.fs.view.data[h.entryCluster], h.entryOffset) == 0
  {
    hide Represents, CopiesAgree, EmptyFileCluster, Geometry.Sound, FreeEntries, FileStep, Resized;
    hide ChainBytes, SlotFirstCluster, SlotSize, FileHandle.Recorded;
    var fs := SmallVolume();
    EmptyFileSlot();
    SmallCounts();
    h := new FileHandle(fs, 2, 0, ATTRIBUTE_ARCHIVE, 0, 0, true, true, false, []);
    ghost var v := fs.view;
    ghost var mid;
    ok, mid := h.Truncate(1024);
    EntryStays(v, mid, h.chain, 2);
  }

  /** What an operation on an empty file leaves of a cluster in use elsewhere. */
  lemma {:induction false} EntryStays(v: Vol, v': Vol, s': seq<nat>, c: nat)
    requires FileStep(v, [], v', s') && c < |v.fat| && v.fat[c] != FREE_CLUSTER && c !in s'
    ensures c < |v'.data| && v'.data[c] == v.data[c]
  {
    assert Kept(v, [], v', s', c);
  }
}
