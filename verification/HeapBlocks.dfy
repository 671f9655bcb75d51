/** The heap as a list of blocks: splitting, merging, growing, and what they keep. */
module HeapBlocks {
  const HEAP_LIMIT: nat := 0x400_0000

  /** A block whose header starts `at` bytes into the heap and whose payload, of `size`
      bytes, follows it. */
  datatype Block = Block(at: nat, size: nat, free: bool)

  function Payload(b: Block): nat { b.at + 48 }

  function End(b: Block): nat { b.at + 48 + b.size }

  // ---------------------------------------------------------------- shape

  ghost predicate Aligned(b: Block) { b.at % 16 == 0 && b.size % 16 == 0 && 16 <= b.size }

  ghost predicate Adjoins(bs: seq<Block>, k: nat)
    requires k + 1 < |bs|
  {
    bs[k + 1].at == End(bs[k])
  }

  ghost predicate NotBothFree(bs: seq<Block>, k: nat)
    requires k + 1 < |bs|
  {
    !bs[k].free || !bs[k + 1].free
  }

  /** The blocks tile `[0, end)` in address order, without gaps. */
  ghost predicate Tiled(bs: seq<Block>, end: nat) {
    && (bs == [] ==> end == 0)
    && (bs != [] ==> bs[0].at == 0 && End(bs[|bs| - 1]) == end)
    && (forall k :: 0 <= k < |bs| ==> Aligned(bs[k]))
    && (forall k :: 0 <= k < |bs| - 1 ==> Adjoins(bs, k))
  }

  ghost predicate Coalesced(bs: seq<Block>) {
    forall k :: 0 <= k < |bs| - 1 ==> NotBothFree(bs, k)
  }

  /** What holds between any two heap operations. */
  ghost predicate Shape(bs: seq<Block>, end: nat) { Tiled(bs, end) && Coalesced(bs) }

  /** Blocks follow each other: an earlier block ends where a later one starts, or before. */
  lemma {:induction false} Ordered(bs: seq<Block>, end: nat, i: nat, j: nat)
    requires Tiled(bs, end) && i < j < |bs|
    ensures End(bs[i]) <= bs[j].at
    decreases j - i
  {
    assert Adjoins(bs, i);
    if i + 1 < j {
      Ordered(bs, end, i + 1, j);
    }
  }

  lemma {:induction false} InsideHeap(bs: seq<Block>, end: nat, i: nat)
    requires Tiled(bs, end) && i < |bs|
    ensures End(bs[i]) <= end
  {
    if i < |bs| - 1 {
      Ordered(bs, end, i, |bs| - 1);
    }
  }

  /** Payloads are 16-aligned, inside the heap and behind its first header. */
  lemma {:induction false} PayloadPlaced(bs: seq<Block>, end: nat, i: nat)
    requires Tiled(bs, end) && i < |bs|
    ensures Payload(bs[i]) % 16 == 0 && 48 <= Payload(bs[i]) && Payload(bs[i]) + bs[i].size <= end
  {
    assert Aligned(bs[i]);
    InsideHeap(bs, end, i);
  }

  /** Byte `x` belongs to the header of one of the blocks. */
  ghost predicate InHeader(b: Block, x: int) { b.at <= x < b.at + 48 }

  ghost predicate InPayload(b: Block, x: int) { Payload(b) <= x < End(b) }

  /** No byte is in two payloads, and none is in a payload and a header. */
  lemma {:induction false} PayloadsDisjoint(bs: seq<Block>, end: nat, i: nat, j: nat, x: int)
    requires Tiled(bs, end) && i < |bs| && j < |bs| && InPayload(bs[i], x)
    ensures !InHeader(bs[j], x) && (InPayload(bs[j], x) ==> i == j)
  {
    if i < j {
      Ordered(bs, end, i, j);
    } else if j < i {
      Ordered(bs, end, j, i);
    }
  }

  lemma {:induction false} PayloadsDistinct(bs: seq<Block>, end: nat, i: nat, j: nat)
    requires Tiled(bs, end) && i < |bs| && j < |bs| && bs[i].at == bs[j].at
    ensures i == j
  {
    if i < j {
      Ordered(bs, end, i, j);
    } else if j < i {
      Ordered(bs, end, j, i);
    }
  }

  // ---------------------------------------------------------------- operations

  function SetFree(bs: seq<Block>, k: nat, free: bool): seq<Block>
    requires k < |bs|
  {
    bs[k := bs[k].(free := free)]
  }

  /** Cuts block `k` down to `size` when more than a header and 16 bytes remain. */
  function Split(bs: seq<Block>, k: nat, size: nat): seq<Block>
    requires k < |bs| && size <= bs[k].size
  {
    var b := bs[k];
    if b.size - size <= 64 then bs
    else bs[..k] + [Block(b.at, size, b.free), Block(b.at + 48 + size, b.size - size - 48, true)] + bs[k + 1..]
  }

  /** Block `k` swallows its successor when that is free. */
  function Merge(bs: seq<Block>, k: nat): seq<Block>
    requires k < |bs|
  {
    if k + 1 == |bs| || !bs[k + 1].free then bs
    else bs[..k] + [Block(bs[k].at, bs[k].size + 48 + bs[k + 1].size, bs[k].free)] + bs[k + 2..]
  }

  /** Block `k` handed out for a request of `size`. */
  function Taken(bs: seq<Block>, k: nat, size: nat): seq<Block>
    requires k < |bs| && size <= bs[k].size
  {
    SetFree(Split(bs, k, size), k, false)
  }

  /** Block `k` given back: merged with its successor, then with its predecessor. */
  function Released(bs: seq<Block>, k: nat): seq<Block>
    requires k < |bs|
  {
    var marked := Merge(SetFree(bs, k, true), k);
    if k > 0 && marked[k - 1].free then Merge(marked, k - 1) else marked
  }

  /** A new block of `size` bytes, header included, behind the last one. */
  function Extended(bs: seq<Block>, end: nat, size: nat): seq<Block>
    requires 48 <= size
  {
    var longer := bs + [Block(end, size - 48, true)];
    if bs != [] && bs[|bs| - 1].free then Merge(longer, |bs| - 1) else longer
  }

  predicate Fits(b: Block, size: nat) { b.free && b.size >= size }

  ghost predicate TooSmall(bs: seq<Block>, size: nat, j: nat)
    requires j < |bs|
  {
    !Fits(bs[j], size)
  }

  ghost predicate NoFitBefore(bs: seq<Block>, size: nat, k: nat) {
    k <= |bs| && forall j :: 0 <= j < k ==> TooSmall(bs, size, j)
  }

  /** The first block from `k` on that fits, or the number of blocks. */
  function FirstFit(bs: seq<Block>, size: nat, k: nat): (r: nat)
    requires k <= |bs|
    ensures k <= r <= |bs| && (r < |bs| ==> Fits(bs[r], size))
    decreases |bs| - k
  {
    if k == |bs| || Fits(bs[k], size) then k else FirstFit(bs, size, k + 1)
  }

  lemma {:induction false} FirstFitIs(bs: seq<Block>, size: nat, k: nat, i: nat)
    requires IsFirstFit(bs, size, k) && i <= k
    ensures FirstFit(bs, size, i) == k
    decreases k - i
  {
    if i < k {
      assert TooSmall(bs, size, i);
      FirstFitIs(bs, size, k, i + 1);
    }
  }

  /** The block from `k` on whose payload starts at `p`, or the number of blocks. */
  function AtPayload(bs: seq<Block>, p: int, k: nat): (r: nat)
    requires k <= |bs|
    ensures k <= r <= |bs| && (r < |bs| ==> Payload(bs[r]) == p)
    decreases |bs| - k
  {
    if k == |bs| || Payload(bs[k]) == p then k else AtPayload(bs, p, k + 1)
  }

  lemma {:induction false} AtPayloadIs(bs: seq<Block>, end: nat, k: nat, i: nat)
    requires Tiled(bs, end) && i <= k < |bs|
    ensures AtPayload(bs, Payload(bs[k]), i) == k
    decreases k - i
  {
    if i < k {
      Ordered(bs, end, i, k);
      AtPayloadIs(bs, end, k, i + 1);
    }
  }

  lemma {:induction false} NoFitStep(bs: seq<Block>, size: nat, k: nat)
    requires k < |bs| && NoFitBefore(bs, size, k) && !Fits(bs[k], size)
    ensures NoFitBefore(bs, size, k + 1)
  {
  }

  /** `k` is the first block that fits, or the number of blocks when none does. */
  ghost predicate IsFirstFit(bs: seq<Block>, size: nat, k: nat) {
    NoFitBefore(bs, size, k) && (k < |bs| ==> Fits(bs[k], size))
  }

  // ---------------------------------------------------------------- tiling is kept

  lemma {:induction false} SplitTiled(bs: seq<Block>, end: nat, k: nat, size: nat)
    requires Tiled(bs, end) && k < |bs| && 16 <= size <= bs[k].size && size % 16 == 0
    ensures Tiled(Split(bs, k, size), end)
  {
    var bs' := Split(bs, k, size);
    assert Aligned(bs[k]);
    if bs' != bs {
      forall j | 0 <= j < |bs'|
        ensures Aligned(bs'[j])
      {
        assert j < k ==> bs'[j] == bs[j];
        assert j > k + 1 ==> bs'[j] == bs[j - 1];
      }
      forall j | 0 <= j < |bs'| - 1
        ensures Adjoins(bs', j)
      {
        if j < k {
          assert Adjoins(bs, j);
        } else if j > k {
          assert Adjoins(bs, j - 1);
        }
      }
    }
  }

  lemma {:induction false} MergeTiled(bs: seq<Block>, end: nat, k: nat)
    requires Tiled(bs, end) && k < |bs|
    ensures Tiled(Merge(bs, k), end)
  {
    var bs' := Merge(bs, k);
    if bs' != bs {
      assert Aligned(bs[k]) && Aligned(bs[k + 1]) && Adjoins(bs, k);
      forall j | 0 <= j < |bs'|
        ensures Aligned(bs'[j])
      {
        assert j < k ==> bs'[j] == bs[j];
        assert j > k ==> bs'[j] == bs[j + 1];
      }
      forall j | 0 <= j < |bs'| - 1
        ensures Adjoins(bs', j)
      {
        if j < k {
          assert Adjoins(bs, j);
        } else {
          assert Adjoins(bs, j + 1);
        }
      }
    }
  }

  lemma {:induction false} SetFreeTiled(bs: seq<Block>, end: nat, k: nat, free: bool)
    requires Tiled(bs, end) && k < |bs|
    ensures Tiled(SetFree(bs, k, free), end)
  {
    var bs' := SetFree(bs, k, free);
    forall j | 0 <= j < |bs'|
      ensures Aligned(bs'[j])
    {
      assert Aligned(bs[j]);
    }
    forall j | 0 <= j < |bs'| - 1
      ensures Adjoins(bs', j)
    {
      assert Adjoins(bs, j);
    }
  }

  lemma {:induction false} AppendTiled(bs: seq<Block>, end: nat, size: nat)
    requires Tiled(bs, end) && end % 16 == 0 && 64 <= size && size % 16 == 0
    ensures Tiled(bs + [Block(end, size - 48, true)], end + size)
  {
    var bs' := bs + [Block(end, size - 48, true)];
    forall j | 0 <= j < |bs'|
      ensures Aligned(bs'[j])
    {
      assert j < |bs| ==> Aligned(bs[j]);
    }
    forall j | 0 <= j < |bs'| - 1
      ensures Adjoins(bs', j)
    {
      assert j < |bs| - 1 ==> Adjoins(bs, j);
    }
  }

  // ---------------------------------------------------------------- no two free neighbours

  /** Taking a free block keeps the heap tiled and coalesced. */
  lemma {:induction false} TakenShape(bs: seq<Block>, end: nat, k: nat, size: nat)
    requires Shape(bs, end) && k < |bs| && bs[k].free && 16 <= size <= bs[k].size && size % 16 == 0
    ensures Shape(Taken(bs, k, size), end)
    ensures Taken(bs, k, size)[k].at == bs[k].at && !Taken(bs, k, size)[k].free
    ensures size <= Taken(bs, k, size)[k].size <= size + 64
    ensures Taken(bs, k, size)[k].size == if bs[k].size > size + 64 then size else bs[k].size
  {
    var bs', s := Taken(bs, k, size), Split(bs, k, size);
    SplitTiled(bs, end, k, size);
    SetFreeTiled(s, end, k, false);
    forall j | 0 <= j < |bs'| - 1
      ensures NotBothFree(bs', j)
    {
      if j + 1 < k {
        assert NotBothFree(bs, j);
      } else if s == bs {
        assert NotBothFree(bs, j);
      } else if j == k + 1 {
        assert NotBothFree(bs, k);
        assert bs'[j + 1] == bs[k + 1];
      } else if j > k + 1 {
        assert NotBothFree(bs, j - 1);
        assert bs'[j] == bs[j - 1] && bs'[j + 1] == bs[j];
      }
    }
  }

  /** All neighbours but those at `gap` and `gap'` are coalesced. */
  ghost predicate CoalescedBut(bs: seq<Block>, gap: int, gap': int) {
    forall k :: 0 <= k < |bs| - 1 && k != gap && k != gap' ==> NotBothFree(bs, k)
  }

  /** Merging a free block with its successor closes the gap between them. */
  lemma {:induction false} MergeCloses(bs: seq<Block>, k: nat, gap: int)
    requires k < |bs| && gap < k && CoalescedBut(bs, gap, k)
    ensures CoalescedBut(Merge(bs, k), gap, gap)
  {
    var bs' := Merge(bs, k);
    forall j | 0 <= j < |bs'| - 1 && j != gap
      ensures NotBothFree(bs', j)
    {
      assert j != k ==> NotBothFree(bs, j);
      assert j >= k && j + 2 < |bs| ==> NotBothFree(bs, j + 1);
    }
  }

  /** Releasing a used block keeps the heap tiled and coalesced. */
  lemma {:induction false} ReleasedShape(bs: seq<Block>, end: nat, k: nat)
    requires Shape(bs, end) && k < |bs| && !bs[k].free
    ensures Shape(Released(bs, k), end)
  {
    var marked := SetFree(bs, k, true);
    SetFreeTiled(bs, end, k, true);
    MergeTiled(marked, end, k);
    assert CoalescedBut(marked, k - 1, k) by {
      forall j | 0 <= j < |marked| - 1 && j != k - 1 && j != k
        ensures NotBothFree(marked, j)
      {
        assert NotBothFree(bs, j);
      }
    }
    MergeCloses(marked, k, k - 1);
    var one := Merge(marked, k);
    if k > 0 && one[k - 1].free {
      MergeTiled(one, end, k - 1);
      MergeCloses(one, k - 1, -1);
      LastGap(Merge(one, k - 1), -1);
    } else {
      LastGap(one, k - 1);
    }
  }

  lemma {:induction false} LastGap(bs: seq<Block>, gap: int)
    requires CoalescedBut(bs, gap, gap) && (0 <= gap < |bs| - 1 ==> NotBothFree(bs, gap))
    ensures Coalesced(bs)
  {
    forall j | 0 <= j < |bs| - 1
      ensures NotBothFree(bs, j)
    {
    }
  }

  /** Growing keeps the heap tiled and coalesced, and ends it `size` bytes further. */
  lemma {:induction false} ExtendedShape(bs: seq<Block>, end: nat, size: nat)
    requires Shape(bs, end) && end % 16 == 0 && 64 <= size && size % 16 == 0
    ensures Shape(Extended(bs, end, size), end + size)
  {
    var longer := bs + [Block(end, size - 48, true)];
    AppendTiled(bs, end, size);
    var n := |bs|;
    assert CoalescedBut(longer, n - 1, n - 1) by {
      forall j | 0 <= j < |longer| - 1 && j != n - 1
        ensures NotBothFree(longer, j)
      {
        assert NotBothFree(bs, j);
      }
    }
    if bs != [] && bs[n - 1].free {
      MergeTiled(longer, end + size, n - 1);
      MergeCloses(longer, n - 1, -1);
      LastGap(Merge(longer, n - 1), -1);
    } else {
      LastGap(longer, n - 1);
    }
  }

  /** After growing by enough for a request, some block fits it. */
  lemma {:induction false} ExtendedFits(bs: seq<Block>, end: nat, size: nat, request: nat)
    requires 48 + request <= size
    ensures var bs' := Extended(bs, end, size); |bs'| > 0 && Fits(bs'[|bs'| - 1], request)
  {
  }

  // ---------------------------------------------------------------- who survives

  /** Splitting a free block concerns no used block. */
  lemma {:induction false} SplitMembers(bs: seq<Block>, k: nat, size: nat, b: Block)
    requires k < |bs| && size <= bs[k].size && bs[k].free
    ensures !b.free ==> (b in Split(bs, k, size) <==> b in bs)
  {
    var bs' := Split(bs, k, size);
    if bs' != bs {
      assert bs == bs[..k] + [bs[k]] + bs[k + 1..];
    }
  }

  lemma {:induction false} MergeMembers(bs: seq<Block>, k: nat, b: Block)
    requires k < |bs| && (k + 1 < |bs| && bs[k + 1].free ==> bs[k].free)
    ensures !b.free ==> (b in Merge(bs, k) <==> b in bs)
  {
    var bs' := Merge(bs, k);
    if bs' != bs {
      assert bs == bs[..k] + [bs[k], bs[k + 1]] + bs[k + 2..];
    }
  }

  /** Taking a block adds exactly one used block. */
  lemma {:induction false} TakenMembers(bs: seq<Block>, end: nat, k: nat, size: nat, b: Block)
    requires Shape(bs, end) && k < |bs| && bs[k].free && 16 <= size <= bs[k].size && size % 16 == 0
    ensures !b.free ==> (b in Taken(bs, k, size) <==> b in bs || b == Taken(bs, k, size)[k])
  {
    var s, bs' := Split(bs, k, size), Taken(bs, k, size);
    SplitMembers(bs, k, size, b);
    assert s == s[..k] + [s[k]] + s[k + 1..] && bs' == s[..k] + [bs'[k]] + s[k + 1..];
  }

  lemma {:induction false} MarkedMembers(bs: seq<Block>, end: nat, k: nat, b: Block)
    requires Tiled(bs, end) && k < |bs| && !bs[k].free && !b.free
    ensures b in SetFree(bs, k, true) <==> b in bs && b != bs[k]
  {
    var marked := SetFree(bs, k, true);
    if b in bs && b != bs[k] {
      var j :| 0 <= j < |bs| && bs[j] == b;
      assert marked[j] == b;
    }
    if b in marked {
      var j :| 0 <= j < |marked| && marked[j] == b;
      assert j != k && bs[j] == b;
      if b == bs[k] {
        PayloadsDistinct(bs, end, j, k);
      }
    }
  }

  /** Releasing a block removes exactly that used block. */
  lemma {:induction false} ReleasedMembers(bs: seq<Block>, end: nat, k: nat, b: Block)
    requires Tiled(bs, end) && k < |bs| && !bs[k].free
    ensures !b.free ==> (b in Released(bs, k) <==> b in bs && b != bs[k])
  {
    var marked := SetFree(bs, k, true);
    if !b.free {
      MarkedMembers(bs, end, k, b);
      MergeMembers(marked, k, b);
      var one := Merge(marked, k);
      if k > 0 && one[k - 1].free {
        MergeMembers(one, k - 1, b);
      }
    }
  }

  lemma {:induction false} ExtendedMembers(bs: seq<Block>, end: nat, size: nat, b: Block)
    requires 48 <= size
    ensures !b.free ==> (b in Extended(bs, end, size) <==> b in bs)
  {
    var longer := bs + [Block(end, size - 48, true)];
    if bs != [] && bs[|bs| - 1].free {
      MergeMembers(longer, |bs| - 1, b);
    }
  }

  // ---------------------------------------------------------------- sums

  function UsedSize(b: Block): nat { if b.free then 0 else b.size }

  /** Bytes in used payloads. */
  function Used(bs: seq<Block>): nat {
    if bs == [] then 0 else UsedSize(bs[0]) + Used(bs[1..])
  }

  /** Bytes in free payloads. */
  function Free(bs: seq<Block>): nat {
    if bs == [] then 0 else bs[0].size - UsedSize(bs[0]) + Free(bs[1..])
  }

  lemma {:induction false} UsedAppend(a: seq<Block>, b: seq<Block>)
    ensures Used(a + b) == Used(a) + Used(b)
  {
    if a == [] {
      assert a + b == b;
    } else {
      assert (a + b)[1..] == a[1..] + b;
      UsedAppend(a[1..], b);
    }
  }

  lemma {:induction false} UsedAround(a: seq<Block>, m: seq<Block>, c: seq<Block>)
    ensures Used(a + m + c) == Used(a) + Used(m) + Used(c)
  {
    UsedAppend(a + m, c);
    UsedAppend(a, m);
  }

  lemma {:induction false} UsedPair(b: Block, c: Block)
    ensures Used([b]) == UsedSize(b) && Used([b, c]) == UsedSize(b) + UsedSize(c)
  {
    assert [b][1..] == [] && [b, c][1..] == [c];
    assert [c][1..] == [];
  }

  lemma {:induction false} UsedSetFree(bs: seq<Block>, k: nat, free: bool)
    requires k < |bs|
    ensures Used(SetFree(bs, k, free)) == Used(bs) - UsedSize(bs[k]) + (if free then 0 else bs[k].size)
  {
    var bs' := SetFree(bs, k, free);
    assert bs == bs[..k] + [bs[k]] + bs[k + 1..] && bs' == bs[..k] + [bs'[k]] + bs[k + 1..];
    UsedAround(bs[..k], [bs[k]], bs[k + 1..]);
    UsedAround(bs[..k], [bs'[k]], bs[k + 1..]);
    UsedPair(bs[k], bs[k]);
    UsedPair(bs'[k], bs'[k]);
  }

  lemma {:induction false} UsedSplit(bs: seq<Block>, k: nat, size: nat)
    requires k < |bs| && size <= bs[k].size && bs[k].free
    ensures Used(Split(bs, k, size)) == Used(bs)
  {
    var bs' := Split(bs, k, size);
    if bs' != bs {
      assert bs == bs[..k] + [bs[k]] + bs[k + 1..];
      assert bs' == bs[..k] + [bs'[k], bs'[k + 1]] + bs[k + 1..];
      UsedAround(bs[..k], [bs[k]], bs[k + 1..]);
      UsedAround(bs[..k], [bs'[k], bs'[k + 1]], bs[k + 1..]);
      UsedPair(bs[k], bs[k]);
      UsedPair(bs'[k], bs'[k + 1]);
    }
  }

  lemma {:induction false} UsedMerge(bs: seq<Block>, k: nat)
    requires k < |bs| && (k + 1 < |bs| && bs[k + 1].free ==> bs[k].free)
    ensures Used(Merge(bs, k)) == Used(bs)
  {
    var bs' := Merge(bs, k);
    if bs' != bs {
      assert bs == bs[..k] + [bs[k], bs[k + 1]] + bs[k + 2..];
      assert bs' == bs[..k] + [bs'[k]] + bs[k + 2..];
      UsedAround(bs[..k], [bs[k], bs[k + 1]], bs[k + 2..]);
      UsedAround(bs[..k], [bs'[k]], bs[k + 2..]);
      UsedPair(bs[k], bs[k + 1]);
      UsedPair(bs'[k], bs'[k]);
    }
  }

  /** A taken block is used for its whole size; nothing else changes use. */
  lemma {:induction false} UsedTaken(bs: seq<Block>, k: nat, size: nat)
    requires k < |bs| && size <= bs[k].size && bs[k].free
    ensures Used(Taken(bs, k, size)) == Used(bs) + Taken(bs, k, size)[k].size
  {
    UsedSplit(bs, k, size);
    UsedSetFree(Split(bs, k, size), k, false);
  }

  lemma {:induction false} UsedReleased(bs: seq<Block>, k: nat)
    requires k < |bs| && !bs[k].free
    ensures Used(Released(bs, k)) == Used(bs) - bs[k].size
  {
    var marked := SetFree(bs, k, true);
    UsedSetFree(bs, k, true);
    UsedMerge(marked, k);
    var one := Merge(marked, k);
    if k > 0 && one[k - 1].free {
      UsedMerge(one, k - 1);
    }
  }

  lemma {:induction false} UsedExtended(bs: seq<Block>, end: nat, size: nat)
    requires 48 <= size
    ensures Used(Extended(bs, end, size)) == Used(bs)
  {
    var last := Block(end, size - 48, true);
    UsedAppend(bs, [last]);
    UsedPair(last, last);
    if bs != [] && bs[|bs| - 1].free {
      UsedMerge(bs + [last], |bs| - 1);
    }
  }

  /** Headers, used payloads and free payloads make up the whole heap. */
  lemma {:induction false} SumsTile(bs: seq<Block>, end: nat)
    requires Tiled(bs, end)
    ensures Used(bs) + Free(bs) + 48 * |bs| == end
  {
    if bs != [] {
      SumsFrom(bs, end, 0);
      assert bs[0..] == bs;
    }
  }

  lemma {:induction false} SumsFrom(bs: seq<Block>, end: nat, k: nat)
    requires Tiled(bs, end) && k < |bs|
    ensures Used(bs[k..]) + Free(bs[k..]) + 48 * (|bs| - k) == end - bs[k].at
    decreases |bs| - k
  {
    assert bs[k..][1..] == bs[k + 1..];
    if k + 1 < |bs| {
      assert Adjoins(bs, k);
      SumsFrom(bs, end, k + 1);
    }
  }

  // ---------------------------------------------------------------- undoing

  /** Giving back a block that was just taken restores the list. */
  lemma {:induction false} ReleaseUndoesTake(bs: seq<Block>, end: nat, k: nat, size: nat)
    requires Shape(bs, end) && k < |bs| && bs[k].free && 16 <= size <= bs[k].size
    ensures Released(Taken(bs, k, size), k) == bs
  {
    hide Tiled;
    var t := Taken(bs, k, size);
    var marked := SetFree(t, k, true);
    assert marked == Split(bs, k, size);
    assert k > 0 ==> NotBothFree(bs, k - 1);
    if Split(bs, k, size) == bs {
      assert k + 1 < |bs| ==> NotBothFree(bs, k);
      assert Merge(marked, k) == bs;
    } else {
      assert Merge(marked, k) == bs[..k] + [bs[k]] + bs[k + 1..] == bs;
    }
  }

  lemma {:induction false} TwoBlocks(bs: seq<Block>)
    requires Coalesced(bs) && |bs| > 1
    ensures !bs[0].free || !bs[1].free
  {
    assert NotBothFree(bs, 0);
  }

  /** Once everything is given back, one free block spans the heap. */
  lemma {:induction false} AllFreeIsOne(bs: seq<Block>, end: nat)
    requires Shape(bs, end) && end > 0
    requires forall b :: b in bs ==> b.free
    ensures bs == [Block(0, end - 48, true)]
  {
    if |bs| > 1 {
      TwoBlocks(bs);
    }
    assert bs[0] in bs;
  }

  /** The heap has no used byte exactly when no block is used. */
  lemma {:induction false} NothingUsedIff(bs: seq<Block>)
    requires forall k :: 0 <= k < |bs| ==> Aligned(bs[k])
    ensures Used(bs) == 0 <==> forall b :: b in bs ==> b.free
  {
    if bs != [] {
      assert Aligned(bs[0]);
      NothingUsedIff(bs[1..]);
      assert bs == [bs[0]] + bs[1..];
    }
  }
}
