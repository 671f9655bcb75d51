/** The bytes a chain holds, and what keeps the files of a volume apart. */
module FatContents {
  import opened Arithmetic
  import opened Bytes
  import opened FatChains

  /** All clusters of `s`, concatenated. */
  ghost function ChainBytes(data: seq<seq<u8>>, s: seq<nat>): seq<u8>
    requires InTable(data, s)
  {
    if s == [] then []
    else ChainBytes(data, s[..|s| - 1]) + data[s[|s| - 1]]
  }

  ghost predicate InTable(data: seq<seq<u8>>, s: seq<nat>) {
    forall i :: 0 <= i < |s| ==> s[i] < |data|
  }

  ghost predicate Sized(data: seq<seq<u8>>, s: seq<nat>, size: nat) {
    forall i :: 0 <= i < |s| ==> s[i] < |data| && |data[s[i]]| == size
  }

  lemma {:induction false} ChainIsSized(v: Vol, s: seq<nat>)
    requires WellFormed(v) && IsChainOrNil(v.fat, s)
    ensures Sized(v.data, s, v.clusterSize) && InTable(v.data, s)
  {
    ChainInRange(v.fat, s);
  }

  /** How many bytes `n` clusters hold. */
  ghost function Span(n: nat, size: nat): nat {
    if n == 0 then 0 else Span(n - 1, size) + size
  }

  lemma {:induction false} SpanIsProduct(n: nat, size: nat)
    ensures Span(n, size) == n * size
  {
    if n > 0 {
      SpanIsProduct(n - 1, size);
      assert n * size == (n - 1) * size + size;
    }
  }

  lemma {:induction false} SpanMono(a: nat, b: nat, size: nat)
    requires a <= b
    ensures Span(a, size) <= Span(b, size)
    ensures a < b ==> Span(a, size) + size <= Span(b, size)
    decreases b
  {
    if a < b {
      SpanMono(a, b - 1, size);
    }
  }

  lemma {:induction false} ChainBytesLength(data: seq<seq<u8>>, s: seq<nat>, size: nat)
    requires Sized(data, s, size)
    ensures |ChainBytes(data, s)| == Span(|s|, size)
  {
    if s != [] {
      var t := s[..|s| - 1];
      ChainBytesLength(data, t, size);
    }
  }

  lemma {:induction false} ChainBytesFrame(data: seq<seq<u8>>, data': seq<seq<u8>>, s: seq<nat>)
    requires forall i :: 0 <= i < |s| ==> s[i] < |data| && s[i] < |data'| && data[s[i]] == data'[s[i]]
    ensures ChainBytes(data, s) == ChainBytes(data', s)
  {
    if s != [] {
      ChainBytesFrame(data, data', s[..|s| - 1]);
    }
  }

  lemma {:induction false} ChainBytesAppend(data: seq<seq<u8>>, s: seq<nat>, c: nat)
    requires InTable(data, s) && c < |data|
    ensures InTable(data, s + [c])
    ensures ChainBytes(data, s + [c]) == ChainBytes(data, s) + data[c]
  {
    assert (s + [c])[..|s|] == s;
  }

  /** A shorter chain holds a prefix of the bytes. */
  lemma {:induction false} ChainBytesPrefix(data: seq<seq<u8>>, s: seq<nat>, k: nat, size: nat)
    requires Sized(data, s, size) && k <= |s|
    ensures Sized(data, s[..k], size)
    ensures Span(k, size) <= Span(|s|, size) == |ChainBytes(data, s)|
    ensures ChainBytes(data, s[..k]) == ChainBytes(data, s)[..Span(k, size)]
    decreases |s|
  {
    ChainBytesLength(data, s, size);
    if k == |s| {
      assert s[..k] == s;
    } else {
      var t := s[..|s| - 1];
      ChainBytesPrefix(data, t, k, size);
      assert t[..k] == s[..k];
    }
  }

  /** The i-th cluster of a chain is the i-th cluster-sized slice of its bytes. */
  lemma {:induction false} ChainBytesCluster(data: seq<seq<u8>>, s: seq<nat>, i: nat, size: nat)
    requires Sized(data, s, size) && i < |s|
    ensures Span(i, size) + size <= Span(|s|, size) == |ChainBytes(data, s)|
    ensures ChainBytes(data, s)[Span(i, size)..Span(i, size) + size] == data[s[i]]
  {
    ChainBytesPrefix(data, s, i, size);
    ChainBytesPrefix(data, s, i + 1, size);
    assert s[..i + 1][..i] == s[..i];
    var b := ChainBytes(data, s);
    assert b[..Span(i + 1, size)] == b[..Span(i, size)] + data[s[i]];
    assert b[Span(i, size)..Span(i, size) + size] == b[..Span(i + 1, size)][Span(i, size)..];
  }

  /** Replacing the i-th cluster of a chain overwrites the i-th slice and nothing else. */
  lemma {:induction false} ChainBytesUpdate(data: seq<seq<u8>>, s: seq<nat>, i: nat, x: seq<u8>)
    requires Sized(data, s, |x|) && i < |s|
    requires forall a, b :: 0 <= a < b < |s| ==> s[a] != s[b]
    ensures Sized(data[s[i] := x], s, |x|)
    ensures Span(i, |x|) + |x| <= Span(|s|, |x|) == |ChainBytes(data, s)|
    ensures ChainBytes(data[s[i] := x], s) == Overlay(ChainBytes(data, s), Span(i, |x|), x)
    decreases |s|
  {
    var t := s[..|s| - 1];
    var last := s[|s| - 1];
    var size := |x|;
    ChainBytesCluster(data, s, i, size);
    ChainBytesLength(data, t, size);
    var data' := data[s[i] := x];
    if i == |s| - 1 {
      ChainBytesFrame(data, data', t);
    } else {
      ChainBytesUpdate(data, t, i, x);
      assert data'[last] == data[last];
      OverlayGrow(ChainBytes(data, t), Span(i, size), x, data[last]);
    }
  }

  // ---------------------------------------------------------------- positions

  /** Which cluster of a chain holds byte `offset`: whole clusters before it. */
  ghost function IndexOf(offset: nat, size: nat): nat
    requires 0 < size
  {
    if offset < size then 0 else 1 + IndexOf(offset - size, size)
  }

  /** Where in that cluster the byte is. */
  ghost function Within(offset: nat, size: nat): (r: nat)
    requires 0 < size
    ensures r < size
  {
    if offset < size then offset else Within(offset - size, size)
  }

  lemma {:induction false} IndexSplits(offset: nat, size: nat)
    requires 0 < size
    ensures Span(IndexOf(offset, size), size) + Within(offset, size) == offset
  {
    if size <= offset {
      IndexSplits(offset - size, size);
    }
  }

  /** Both are what dividing computes. */
  lemma {:induction false} IndexIsQuotient(offset: nat, size: nat)
    requires 0 < size
    ensures IndexOf(offset, size) == offset / size && Within(offset, size) == offset % size
  {
    IndexSplits(offset, size);
    SpanIsProduct(IndexOf(offset, size), size);
    QuotientUnique(size, offset / size, offset % size, IndexOf(offset, size), Within(offset, size));
  }

  /** Byte `at` of the k-th cluster. */
  lemma {:induction false} PositionInCluster(size: nat, k: nat, at: nat)
    requires at < size
    ensures IndexOf(Span(k, size) + at, size) == k && Within(Span(k, size) + at, size) == at
  {
    if k > 0 {
      PositionInCluster(size, k - 1, at);
      assert Span(k, size) + at - size == Span(k - 1, size) + at;
    }
  }

  /** How many groups of `size` hold `n` things. */
  ghost function QuotientUp(n: nat, size: nat): nat
    requires 0 < size
  {
    (n + size - 1) / size
  }

  /** The clusters up to the last byte's are as many as `n` bytes need, rounded up. */
  lemma {:induction false} LastIndexRoundsUp(n: nat, size: nat)
    requires 0 < size && 0 < n
    ensures IndexOf(n - 1, size) + 1 == QuotientUp(n, size)
    ensures n <= Span(IndexOf(n - 1, size) + 1, size) < n + size
  {
    var q, r := IndexOf(n - 1, size), Within(n - 1, size);
    IndexSplits(n - 1, size);
    SpanIsProduct(q, size);
    Distribute(q, 1, size);
    QuotientOf(n + size - 1, size, q + 1, r);
  }

  // ---------------------------------------------------------------- growing and writing a chain

  /** Byte `i` after `w` was written at `offset` over bytes `b` extended by zeros. */
  ghost predicate ByteAfter(b: seq<u8>, b': seq<u8>, offset: nat, w: seq<u8>, i: nat)
    requires i < |b'|
  {
    b'[i] == if offset <= i < offset + |w| then w[i - offset] else if i < |b| then b[i] else 0
  }

  ghost predicate BytesAfter(b: seq<u8>, b': seq<u8>, offset: nat, w: seq<u8>) {
    && |b| <= |b'|
    && (w != [] ==> offset + |w| <= |b'|)
    && forall i :: 0 <= i < |b'| ==> ByteAfter(b, b', offset, w, i)
  }

  /** The chain `s` became `s'` by appending zeroed clusters and writing `w` at `offset`. */
  ghost predicate WriteStep(v: Vol, s: seq<nat>, v': Vol, s': seq<nat>, offset: nat, w: seq<u8>) {
    && FileStep(v, s, v', s')
    && s <= s'
    && InTable(v.data, s) && InTable(v'.data, s')
    && BytesAfter(ChainBytes(v.data, s), ChainBytes(v'.data, s'), offset, w)
  }

  /** The chain only got longer: the old bytes are a prefix, the new clusters are zero. */
  ghost predicate Grown(v: Vol, s: seq<nat>, v': Vol, s': seq<nat>) {
    WriteStep(v, s, v', s', 0, [])
  }

  lemma {:induction false} GrownRefl(v: Vol, s: seq<nat>)
    requires WellFormed(v) && IsChainOrNil(v.fat, s)
    ensures Grown(v, s, v, s)
  {
    FileStepRefl(v, s);
    ChainIsSized(v, s);
    var b := ChainBytes(v.data, s);
    assert forall i :: 0 <= i < |b| ==> ByteAfter(b, b, 0, [], i);
  }

  lemma {:induction false} GrownIsWriteStep(v: Vol, s: seq<nat>, v': Vol, s': seq<nat>, offset: nat)
    requires Grown(v, s, v', s')
    ensures WriteStep(v, s, v', s', offset, [])
  {
    var b, b' := ChainBytes(v.data, s), ChainBytes(v'.data, s');
    forall i | 0 <= i < |b'|
      ensures ByteAfter(b, b', offset, [], i)
    {
      assert ByteAfter(b, b', 0, [], i);
    }
  }

  lemma {:induction false} GrownTrans(v: Vol, s: seq<nat>, v1: Vol, s1: seq<nat>, v2: Vol, s2: seq<nat>)
    requires Grown(v, s, v1, s1) && Grown(v1, s1, v2, s2)
    ensures Grown(v, s, v2, s2)
  {
    var none: seq<u8> := [];
    WriteStepTrans(v, s, v1, s1, v2, s2, 0, none, none);
    assert none + none == none;
  }

  /** Two writes, the second right behind the first, are one. */
  lemma {:induction false} WriteStepTrans(v: Vol, s: seq<nat>, v1: Vol, s1: seq<nat>, v2: Vol, s2: seq<nat>,
                                          offset: nat, w: seq<u8>, x: seq<u8>)
    requires WriteStep(v, s, v1, s1, offset, w) && WriteStep(v1, s1, v2, s2, offset + |w|, x)
    ensures WriteStep(v, s, v2, s2, offset, w + x)
  {
    FileStepTrans(v, s, v1, s1, v2, s2);
    BytesAfterTrans(ChainBytes(v.data, s), ChainBytes(v1.data, s1), ChainBytes(v2.data, s2), offset, w, x);
  }

  lemma {:induction false} BytesAfterTrans(b: seq<u8>, b1: seq<u8>, b2: seq<u8>, offset: nat, w: seq<u8>, x: seq<u8>)
    requires BytesAfter(b, b1, offset, w) && BytesAfter(b1, b2, offset + |w|, x)
    ensures BytesAfter(b, b2, offset, w + x)
  {
    forall i | 0 <= i < |b2|
      ensures ByteAfter(b, b2, offset, w + x, i)
    {
      assert ByteAfter(b1, b2, offset + |w|, x, i);
      if i < |b1| {
        assert ByteAfter(b, b1, offset, w, i);
      }
    }
  }

  /** A write inside the chain's bytes, as one overlay of them. */
  lemma {:induction false} StoreIsWriteStep(v: Vol, v': Vol, s: seq<nat>, offset: nat, chunk: seq<u8>)
    requires FileStep(v, s, v', s) && InTable(v.data, s) && InTable(v'.data, s)
    requires offset + |chunk| <= |ChainBytes(v.data, s)|
    requires ChainBytes(v'.data, s) == Overlay(ChainBytes(v.data, s), offset, chunk)
    ensures WriteStep(v, s, v', s, offset, chunk)
  {
    var b, b' := ChainBytes(v.data, s), ChainBytes(v'.data, s);
    assert forall i :: 0 <= i < |b'| ==> ByteAfter(b, b', offset, chunk, i);
  }

  lemma {:induction false} LinkedIsGrown(v: Vol, s: seq<nat>, c: nat)
    requires WellFormed(v) && IsChainOrNil(v.fat, s)
    requires 2 <= c < |v.fat| && v.fat[c] == FREE_CLUSTER
    ensures s != [] ==> s[|s| - 1] < |v.fat|
    ensures Grown(v, s, Linked(v, s, c), s + [c])
  {
    FreeIsOutside(v.fat, s, c);
    LinkedIsFileStep(v, s, c);
    ChainIsSized(v, s);
    var w := Linked(v, s, c);
    ChainBytesFrame(v.data, w.data, s);
    ChainBytesAppend(w.data, s, c);
    var b, b' := ChainBytes(v.data, s), ChainBytes(w.data, s + [c]);
    assert forall i :: 0 <= i < |b'| ==> ByteAfter(b, b', 0, [], i);
  }

  // ---------------------------------------------------------------- files kept apart

  ghost predicate Owns(files: seq<seq<nat>>, i: nat, c: nat) {
    i < |files| && c in files[i]
  }

  /** The chains of a volume's files: each is one, no two share a cluster, and every
      cluster that is neither free nor bad belongs to a file. */
  ghost predicate Separated(fat: seq<nat>, files: seq<seq<nat>>) {
    && (forall i :: 0 <= i < |files| ==> IsChainOrNil(fat, files[i]))
    && (forall i, j, c :: Owns(files, i, c) && Owns(files, j, c) ==> i == j)
    && (forall c :: 2 <= c < |fat| && fat[c] != FREE_CLUSTER && fat[c] != BAD_CLUSTER ==> exists i :: Owns(files, i, c))
  }

  /** A chain that shares no cluster with the one an operation is about stays a chain,
      shares none with what that one becomes, and holds the same bytes. */
  lemma {:induction false} OutsideUntouched(v: Vol, s: seq<nat>, v': Vol, s': seq<nat>, t: seq<nat>)
    requires FileStep(v, s, v', s') && IsChainOrNil(v.fat, t)
    requires forall c :: c in t ==> c !in s
    ensures IsChainOrNil(v'.fat, t)
    ensures forall c :: c in t ==> c !in s'
    ensures InTable(v.data, t) && InTable(v'.data, t)
    ensures ChainBytes(v'.data, t) == ChainBytes(v.data, t)
  {
    forall c | c in t
      ensures 2 <= c < |v.fat| && c !in s' && v'.fat[c] == v.fat[c] && v'.data[c] == v.data[c]
    {
      ChainMember(v.fat, t, c);
      assert Kept(v, s, v', s', c);
    }
    assert forall a :: 0 <= a < |t| ==> t[a] in t;
    ChainFrame(v.fat, v'.fat, t);
    ChainBytesFrame(v.data, v'.data, t);
  }

  /** The chain and the bytes of every other file are what they were. */
  lemma {:induction false} OtherFileUntouched(v: Vol, files: seq<seq<nat>>, k: nat, v': Vol, s': seq<nat>, i: nat)
    requires k < |files| && Separated(v.fat, files)
    requires FileStep(v, files[k], v', s')
    requires i < |files| && i != k
    ensures IsChainOrNil(v'.fat, files[i])
    ensures forall c :: c in files[i] ==> c !in s'
    ensures InTable(v.data, files[i]) && InTable(v'.data, files[i])
    ensures ChainBytes(v'.data, files[i]) == ChainBytes(v.data, files[i])
  {
    forall c | c in files[i]
      ensures c !in files[k]
    {
      assert Owns(files, i, c) && !Owns(files, k, c);
    }
    OutsideUntouched(v, files[k], v', s', files[i]);
  }

  /** An operation that keeps its own bargain keeps all files apart and leaks nothing. */
  lemma {:induction false} StepKeepsSeparation(v: Vol, files: seq<seq<nat>>, k: nat, v': Vol, s': seq<nat>)
    requires k < |files| && Separated(v.fat, files)
    requires FileStep(v, files[k], v', s')
    ensures Separated(v'.fat, files[k := s'])
  {
    var files' := files[k := s'];
    forall i | 0 <= i < |files'|
      ensures IsChainOrNil(v'.fat, files'[i])
      ensures i != k ==> forall c :: c in files'[i] ==> c !in s'
    {
      if i != k {
        OtherFileUntouched(v, files, k, v', s', i);
      }
    }
    forall i, j, c | Owns(files', i, c) && Owns(files', j, c)
      ensures i == j
    {
      assert i != k && j != k ==> Owns(files, i, c) && Owns(files, j, c);
    }
    forall c | 2 <= c < |v'.fat| && v'.fat[c] != FREE_CLUSTER && v'.fat[c] != BAD_CLUSTER
      ensures exists i :: Owns(files', i, c)
    {
      NothingLeaks(v, files, k, v', s', files', c);
    }
  }

  lemma {:induction false} NothingLeaks(v: Vol, files: seq<seq<nat>>, k: nat, v': Vol, s': seq<nat>,
                     files': seq<seq<nat>>, c: nat)
    requires k < |files| && Separated(v.fat, files)
    requires FileStep(v, files[k], v', s')
    requires files' == files[k := s']
    requires 2 <= c < |v'.fat| && v'.fat[c] != FREE_CLUSTER && v'.fat[c] != BAD_CLUSTER
    ensures exists i :: Owns(files', i, c)
  {
    if c in s' {
      assert Owns(files', k, c);
    } else {
      assert Kept(v, files[k], v', s', c);
      var i :| Owns(files, i, c);
      assert Owns(files', i, c);
    }
  }
}
