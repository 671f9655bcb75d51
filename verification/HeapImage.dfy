/** The heap as bytes: block headers inside the managed memory, linked into a list by the
    addresses they hold; what the header writes of a split, a merge and an expansion make of that
    list; and the payloads that must survive every one of those writes. */
module HeapImage {
  import opened Bytes
  import opened HeapBlocks

  const HEAP_MAGIC: nat := 0xC0FF_EE12_3456_7890

  type Image = seq<u8>

  /** The address of heap byte `x`. */
  function Addr(x: nat): nat { 0xFFFF_A000_0000_0000 + x }

  // ---------------------------------------------------------------- headers

  datatype Header = Header(magic: nat, size: nat, free: bool, next: nat, prev: nat)

  /** The header stored at byte `at`: five fields, the last two of them pointers. */
  function HeaderOf(m: Image, at: nat): Header
    requires at + 48 <= |m|
  {
    Header(Le64(m, at), Le64(m, at + 8), m[at + 16] != 0, Le64(m, at + 24), Le64(m, at + 32))
  }

  datatype Field = Magic | Size | FreeFlag | Next | Prev

  ghost predicate FieldIs(m: Image, at: nat, h: Header, f: Field)
    requires at + 48 <= |m|
  {
    match f
    case Magic => Le64(m, at) == h.magic
    case Size => Le64(m, at + 8) == h.size
    case FreeFlag => (m[at + 16] != 0) == h.free
    case Next => Le64(m, at + 24) == h.next
    case Prev => Le64(m, at + 32) == h.prev
  }

  /** The header `h` is stored at byte `at`. */
  ghost predicate HeaderIs(m: Image, at: nat, h: Header) {
    at + 48 <= |m| && forall f: Field :: FieldIs(m, at, h, f)
  }

  lemma {:induction false} HeaderRead(m: Image, at: nat, h: Header)
    requires at + 48 <= |m|
    ensures HeaderIs(m, at, h) <==> HeaderOf(m, at) == h
  {
    if HeaderIs(m, at, h) {
      assert FieldIs(m, at, h, Magic) && FieldIs(m, at, h, Size) && FieldIs(m, at, h, FreeFlag);
      assert FieldIs(m, at, h, Next) && FieldIs(m, at, h, Prev);
    }
  }

  ghost predicate Kept(m: Image, m': Image, x: int) {
    0 <= x < |m| && x < |m'| ==> m'[x] == m[x]
  }

  /** Only bytes of the header at `at` changed. */
  ghost predicate Outside(m: Image, m': Image, at: nat) {
    |m'| == |m| && forall x :: at <= x < at + 48 || Kept(m, m', x)
  }

  lemma {:induction false} OutsideTrans(m: Image, m1: Image, m2: Image, at: nat)
    requires Outside(m, m1, at) && Outside(m1, m2, at)
    ensures Outside(m, m2, at)
  {
    forall x | !(at <= x < at + 48)
      ensures Kept(m, m2, x)
    {
      assert Kept(m, m1, x) && Kept(m1, m2, x);
    }
  }

  /** The header at `at` was rewritten to `h`, and nothing else changed. */
  ghost predicate Wrote(m: Image, m': Image, at: nat, h: Header) {
    Outside(m, m', at) && HeaderIs(m', at, h)
  }

  lemma {:induction false} WroteTwice(m: Image, m1: Image, m2: Image, at: nat, h: Header, h': Header)
    requires Wrote(m, m1, at, h) && Wrote(m1, m2, at, h')
    ensures Wrote(m, m2, at, h')
  {
    OutsideTrans(m, m1, m2, at);
  }

  /** A header elsewhere is not affected. */
  lemma {:induction false} HeaderElsewhere(m: Image, m': Image, at: nat, a: nat, h: Header)
    requires Outside(m, m', at) && HeaderIs(m, a, h) && (a + 48 <= at || at + 48 <= a)
    ensures HeaderIs(m', a, h)
  {
    HeaderRead(m, a, h);
    HeaderRead(m', a, h);
    SliceElsewhere(m, m', at, a, a + 8);
    SliceElsewhere(m, m', at, a + 8, a + 16);
    SliceElsewhere(m, m', at, a + 24, a + 32);
    SliceElsewhere(m, m', at, a + 32, a + 40);
    assert Kept(m, m', a + 16);
  }

  lemma {:induction false} SliceElsewhere(m: Image, m': Image, at: nat, lo: nat, hi: nat)
    requires Outside(m, m', at) && lo <= hi <= |m| && (hi <= at || at + 48 <= lo)
    ensures m'[lo..hi] == m[lo..hi]
  {
    forall x | lo <= x < hi
      ensures m'[x] == m[x]
    {
      assert Kept(m, m', x);
    }
  }

  // ---------------------------------------------------------------- the list in memory

  function NextPtr(bs: seq<Block>, k: nat): nat {
    if k + 1 < |bs| then Addr(bs[k + 1].at) else 0
  }

  function PrevPtr(bs: seq<Block>, k: nat): nat {
    if 0 < k <= |bs| then Addr(bs[k - 1].at) else 0
  }

  function HeaderFor(bs: seq<Block>, k: nat): Header
    requires k < |bs|
  {
    Header(HEAP_MAGIC, bs[k].size, bs[k].free, NextPtr(bs, k), PrevPtr(bs, k))
  }

  /** The headers of the first `n` blocks. */
  function HeadersTo(bs: seq<Block>, n: nat): (hs: seq<Header>)
    requires n <= |bs|
    ensures |hs| == n
  {
    if n == 0 then [] else HeadersTo(bs, n - 1) + [HeaderFor(bs, n - 1)]
  }

  function HeadersOf(bs: seq<Block>): (hs: seq<Header>)
    ensures |hs| == |bs|
  {
    HeadersTo(bs, |bs|)
  }

  lemma {:induction false} HeaderAt(bs: seq<Block>, n: nat, k: nat)
    requires k < n <= |bs|
    ensures HeadersTo(bs, n)[k] == HeaderFor(bs, k)
  {
    if k < n - 1 {
      HeaderAt(bs, n - 1, k);
    }
  }

  /** Memory holds the headers `hs` where the blocks start. */
  ghost predicate Heads(m: Image, bs: seq<Block>, hs: seq<Header>) {
    |hs| == |bs| && forall k :: 0 <= k < |bs| ==> Headed(m, bs, hs, k)
  }

  ghost predicate Headed(m: Image, bs: seq<Block>, hs: seq<Header>, k: nat)
    requires k < |bs| && k < |hs|
  {
    HeaderIs(m, bs[k].at, hs[k])
  }

  /** Memory holds the blocks as a doubly linked list of headers. */
  ghost predicate ListIs(m: Image, bs: seq<Block>) {
    Heads(m, bs, HeadersOf(bs))
  }

  /** Byte `x` is part of a block header. */
  ghost predicate Heading(bs: seq<Block>, x: int) {
    exists k :: 0 <= k < |bs| && InHeader(bs[k], x)
  }

  /** Only header bytes changed. */
  ghost predicate OnlyHeaders(m: Image, m': Image, bs: seq<Block>) {
    |m'| == |m| && forall x :: Heading(bs, x) || Kept(m, m', x)
  }

  lemma {:induction false} OneHeader(m: Image, m': Image, bs: seq<Block>, k: nat)
    requires k < |bs| && Outside(m, m', bs[k].at)
    ensures OnlyHeaders(m, m', bs)
  {
    forall x | !Heading(bs, x)
      ensures Kept(m, m', x)
    {
      assert !InHeader(bs[k], x);
    }
  }

  lemma {:induction false} OnlyHeadersTrans(m: Image, m1: Image, m2: Image, bs: seq<Block>)
    requires OnlyHeaders(m, m1, bs) && OnlyHeaders(m1, m2, bs)
    ensures OnlyHeaders(m, m2, bs)
  {
    forall x | !Heading(bs, x)
      ensures Kept(m, m2, x)
    {
      assert Kept(m, m1, x) && Kept(m1, m2, x);
    }
  }

  // ---------------------------------------------------------------- header writes, list by list

  lemma {:induction false} Apart(bs: seq<Block>, end: nat, j: nat, k: nat)
    requires Tiled(bs, end) && j < |bs| && k < |bs| && j != k
    ensures bs[j].at + 48 <= bs[k].at || bs[k].at + 48 <= bs[j].at
  {
    if j < k {
      Ordered(bs, end, j, k);
    } else {
      Ordered(bs, end, k, j);
    }
  }

  /** Rewriting one header leaves all others. */
  lemma {:induction false} Rewrite(m: Image, m': Image, bs: seq<Block>, end: nat, hs: seq<Header>, k: nat, h: Header)
    requires Heads(m, bs, hs) && Tiled(bs, end) && k < |bs| && Wrote(m, m', bs[k].at, h)
    ensures Heads(m', bs, hs[k := h]) && OnlyHeaders(m, m', bs)
  {
    var hs' := hs[k := h];
    forall j | 0 <= j < |bs|
      ensures Headed(m', bs, hs', j)
    {
      assert Headed(m, bs, hs, j);
      if j != k {
        Apart(bs, end, j, k);
        HeaderElsewhere(m, m', bs[k].at, bs[j].at, hs[j]);
      }
    }
    OneHeader(m, m', bs, k);
  }

  /** Block `j` of `bs` starts where block `j`, or the next one, of `bs'` does. */
  ghost predicate SameAt(bs: seq<Block>, bs': seq<Block>, j: nat)
    requires j < |bs| && j < |bs'|
  {
    bs[j].at == bs'[j].at
  }

  ghost predicate NextAt(bs: seq<Block>, bs': seq<Block>, j: nat)
    requires j < |bs| && j + 1 < |bs'|
  {
    bs[j].at == bs'[j + 1].at
  }

  /** `bs'` has the blocks of `bs`, possibly with other sizes, and one more at `i`. */
  ghost predicate OneMore(bs: seq<Block>, bs': seq<Block>, i: nat) {
    && |bs'| == |bs| + 1 && i < |bs'|
    && (forall j :: 0 <= j < i ==> SameAt(bs, bs', j))
    && (forall j :: i <= j < |bs| ==> NextAt(bs, bs', j))
  }

  /** Writing a header for an additional block. */
  lemma {:induction false} Insert(m: Image, m': Image, bs: seq<Block>, bs': seq<Block>, end: nat, hs: seq<Header>,
                                  i: nat, h: Header)
    requires Heads(m, bs, hs) && Tiled(bs', end) && OneMore(bs, bs', i) && Wrote(m, m', bs'[i].at, h)
    ensures Heads(m', bs', hs[..i] + [h] + hs[i..]) && OnlyHeaders(m, m', bs')
  {
    var hs' := hs[..i] + [h] + hs[i..];
    forall j | 0 <= j < |bs'|
      ensures Headed(m', bs', hs', j)
    {
      if j < i {
        assert Headed(m, bs, hs, j) && SameAt(bs, bs', j);
        Apart(bs', end, j, i);
        HeaderElsewhere(m, m', bs'[i].at, bs'[j].at, hs'[j]);
      } else if j > i {
        assert Headed(m, bs, hs, j - 1) && NextAt(bs, bs', j - 1);
        Apart(bs', end, j, i);
        HeaderElsewhere(m, m', bs'[i].at, bs'[j].at, hs'[j]);
      }
    }
    OneHeader(m, m', bs', i);
  }

  /** Forgetting a header. */
  lemma {:induction false} Drop(m: Image, bs: seq<Block>, bs': seq<Block>, hs: seq<Header>, i: nat)
    requires Heads(m, bs, hs) && OneMore(bs', bs, i)
    ensures Heads(m, bs', hs[..i] + hs[i + 1..])
  {
    var hs' := hs[..i] + hs[i + 1..];
    forall j | 0 <= j < |bs'|
      ensures Headed(m, bs', hs', j)
    {
      if j < i {
        assert Headed(m, bs, hs, j) && SameAt(bs', bs, j);
      } else {
        assert Headed(m, bs, hs, j + 1) && NextAt(bs', bs, j);
      }
    }
  }

  /** Header `k` rewritten, if there is one. */
  ghost predicate MaybeWrote(m: Image, m': Image, bs: seq<Block>, k: nat, h: Header) {
    if k < |bs| then Wrote(m, m', bs[k].at, h) else m' == m
  }

  function Put(hs: seq<Header>, k: nat, h: Header): seq<Header> {
    if k < |hs| then hs[k := h] else hs
  }

  lemma {:induction false} RewriteTwo(m: Image, m1: Image, m2: Image, bs: seq<Block>, end: nat, hs: seq<Header>,
                                      j: nat, h: Header, k: nat, h': Header)
    requires Heads(m, bs, hs) && Tiled(bs, end) && MaybeWrote(m, m1, bs, j, h) && MaybeWrote(m1, m2, bs, k, h')
    ensures Heads(m2, bs, Put(Put(hs, j, h), k, h')) && OnlyHeaders(m, m2, bs)
  {
    if j < |bs| {
      Rewrite(m, m1, bs, end, hs, j, h);
    }
    if k < |bs| {
      Rewrite(m1, m2, bs, end, Put(hs, j, h), k, h');
    }
    OnlyHeadersTrans(m, m1, m2, bs);
  }

  /** The headers written by a split: the new block's, its successor's, its own. */
  function NewHeader(bs: seq<Block>, k: nat, size: nat): Header
    requires k < |bs| && size + 64 < bs[k].size
  {
    Header(HEAP_MAGIC, bs[k].size - size - 48, true, NextPtr(bs, k), Addr(bs[k].at))
  }

  function BackLinked(bs: seq<Block>, k: nat, at: nat): Header {
    if k < |bs| then HeaderFor(bs, k).(prev := Addr(at)) else Header(0, 0, false, 0, 0)
  }

  function SplitHeader(bs: seq<Block>, k: nat, size: nat): Header
    requires k < |bs|
  {
    HeaderFor(bs, k).(next := Addr(bs[k].at + 48 + size), size := size)
  }

  /** Splitting: the new header behind the request, the successor's back link, and the
      block's own size and link. */
  lemma {:induction false} SplitListed(m: Image, m1: Image, m2: Image, m3: Image, bs: seq<Block>, end: nat, k: nat,
                                       size: nat)
    requires ListIs(m, bs) && Tiled(bs, end) && k < |bs| && bs[k].free
    requires 16 <= size && size % 16 == 0 && size + 64 < bs[k].size
    requires Wrote(m, m1, bs[k].at + 48 + size, NewHeader(bs, k, size))
    requires MaybeWrote(m1, m2, bs, k + 1, BackLinked(bs, k + 1, bs[k].at + 48 + size))
    requires Wrote(m2, m3, bs[k].at, SplitHeader(bs, k, size))
    ensures ListIs(m3, Split(bs, k, size)) && OnlyHeaders(m, m3, Split(bs, k, size))
  {
    SplitHeads(m, m1, m2, m3, bs, end, k, size, HeadersOf(bs), NewHeader(bs, k, size),
               BackLinked(bs, k + 1, bs[k].at + 48 + size), SplitHeader(bs, k, size));
    SplitHeaders(bs, k, size);
  }

  lemma {:induction false} SplitHeads(m: Image, m1: Image, m2: Image, m3: Image, bs: seq<Block>, end: nat, k: nat,
                                      size: nat,
                                      hs: seq<Header>, h: Header, h': Header, h'': Header)
    requires Heads(m, bs, hs) && Tiled(bs, end) && k < |bs|
    requires 16 <= size && size % 16 == 0 && size + 64 < bs[k].size
    requires Wrote(m, m1, bs[k].at + 48 + size, h) && MaybeWrote(m1, m2, bs, k + 1, h') && Wrote(m2, m3, bs[k].at, h'')
    ensures Heads(m3, Split(bs, k, size), Put(Put(hs[..k + 1] + [h] + hs[k + 1..], k + 2, h'), k, h''))
    ensures OnlyHeaders(m, m3, Split(bs, k, size))
  {
    var bs' := Split(bs, k, size);
    SplitTiled(bs, end, k, size);
    SplitOneMore(bs, k, size);
    Insert(m, m1, bs, bs', end, hs, k + 1, h);
    RewriteTwo(m1, m2, m3, bs', end, hs[..k + 1] + [h] + hs[k + 1..], k + 2, h', k, h'');
    OnlyHeadersTrans(m, m1, m3, bs');
  }

  lemma {:induction false} SplitOneMore(bs: seq<Block>, k: nat, size: nat)
    requires k < |bs| && size + 64 < bs[k].size
    ensures OneMore(bs, Split(bs, k, size), k + 1)
  {
  }

  /** The headers of the split list are the old ones with those three changed. */
  lemma {:induction false} SplitHeaders(bs: seq<Block>, k: nat, size: nat)
    requires k < |bs| && size + 64 < bs[k].size && bs[k].free
    ensures var hs := HeadersOf(bs)[..k + 1] + [NewHeader(bs, k, size)] + HeadersOf(bs)[k + 1..];
            HeadersOf(Split(bs, k, size)) ==
            Put(Put(hs, k + 2, BackLinked(bs, k + 1, bs[k].at + 48 + size)), k, SplitHeader(bs, k, size))
  {
    var bs', was := Split(bs, k, size), HeadersOf(bs);
    var hs := was[..k + 1] + [NewHeader(bs, k, size)] + was[k + 1..];
    var hs' := Put(Put(hs, k + 2, BackLinked(bs, k + 1, bs[k].at + 48 + size)), k, SplitHeader(bs, k, size));
    forall j | 0 <= j < |bs'|
      ensures HeadersOf(bs')[j] == hs'[j]
    {
      HeaderAt(bs', |bs'|, j);
      if j <= k {
        HeaderAt(bs, |bs|, j);
      } else if j > k + 1 {
        HeaderAt(bs, |bs|, j - 1);
      }
    }
  }

  function MergedHeader(bs: seq<Block>, k: nat): Header
    requires k + 1 < |bs|
  {
    HeaderFor(bs, k).(size := bs[k].size + 48 + bs[k + 1].size, next := NextPtr(bs, k + 1))
  }

  /** Merging: the block's own size and link, then the next successor's back link. */
  lemma {:induction false} MergeListed(m: Image, m1: Image, m2: Image, bs: seq<Block>, end: nat, k: nat)
    requires ListIs(m, bs) && Tiled(bs, end) && k + 1 < |bs| && bs[k + 1].free
    requires Wrote(m, m1, bs[k].at, MergedHeader(bs, k))
    requires MaybeWrote(m1, m2, bs, k + 2, BackLinked(bs, k + 2, bs[k].at))
    ensures ListIs(m2, Merge(bs, k)) && OnlyHeaders(m, m2, Merge(bs, k))
  {
    MergeHeads(m, m1, m2, bs, end, k, HeadersOf(bs), MergedHeader(bs, k), BackLinked(bs, k + 2, bs[k].at));
    MergeHeaders(bs, k);
  }

  lemma {:induction false} MergeHeads(m: Image, m1: Image, m2: Image, bs: seq<Block>, end: nat, k: nat, hs: seq<Header>,
                                      h: Header, h': Header)
    requires Heads(m, bs, hs) && Tiled(bs, end) && k + 1 < |bs| && bs[k + 1].free
    requires Wrote(m, m1, bs[k].at, h) && MaybeWrote(m1, m2, bs, k + 2, h')
    ensures Heads(m2, Merge(bs, k), Put(Put(hs[..k + 1] + hs[k + 2..], k, h), k + 1, h'))
    ensures OnlyHeaders(m, m2, Merge(bs, k))
  {
    MergeTiled(bs, end, k);
    MergeOneMore(bs, k);
    Drop(m, bs, Merge(bs, k), hs, k + 1);
    RewriteTwo(m, m1, m2, Merge(bs, k), end, hs[..k + 1] + hs[k + 2..], k, h, k + 1, h');
  }

  lemma {:induction false} MergeOneMore(bs: seq<Block>, k: nat)
    requires k + 1 < |bs| && bs[k + 1].free
    ensures OneMore(Merge(bs, k), bs, k + 1)
  {
  }

  lemma {:induction false} MergeHeaders(bs: seq<Block>, k: nat)
    requires k + 1 < |bs| && bs[k + 1].free
    ensures var hs := HeadersOf(bs)[..k + 1] + HeadersOf(bs)[k + 2..];
            HeadersOf(Merge(bs, k)) ==
            Put(Put(hs, k, MergedHeader(bs, k)), k + 1, BackLinked(bs, k + 2, bs[k].at))
  {
    var bs', was := Merge(bs, k), HeadersOf(bs);
    var hs' := Put(Put(was[..k + 1] + was[k + 2..], k, MergedHeader(bs, k)), k + 1, BackLinked(bs, k + 2, bs[k].at));
    forall j | 0 <= j < |bs'|
      ensures HeadersOf(bs')[j] == hs'[j]
    {
      HeaderAt(bs', |bs'|, j);
      if j <= k {
        HeaderAt(bs, |bs|, j);
      } else {
        HeaderAt(bs, |bs|, j + 1);
      }
    }
  }

  /** Marking: one flag. */
  lemma {:induction false} MarkListed(m: Image, m': Image, bs: seq<Block>, end: nat, k: nat, free: bool)
    requires ListIs(m, bs) && Tiled(bs, end) && k < |bs| && Wrote(m, m', bs[k].at, HeaderFor(bs, k).(free := free))
    ensures ListIs(m', SetFree(bs, k, free)) && OnlyHeaders(m, m', SetFree(bs, k, free))
  {
    var bs' := SetFree(bs, k, free);
    Rewrite(m, m', bs, end, HeadersOf(bs), k, HeaderFor(bs, k).(free := free));
    MarkHeaders(bs, k, free);
    SameHeads(m', bs, bs', HeadersOf(bs'));
    OneHeader(m, m', bs', k);
  }

  lemma {:induction false} MarkHeaders(bs: seq<Block>, k: nat, free: bool)
    requires k < |bs|
    ensures HeadersOf(SetFree(bs, k, free)) == HeadersOf(bs)[k := HeaderFor(bs, k).(free := free)]
    ensures forall j :: 0 <= j < |bs| ==> SameAt(bs, SetFree(bs, k, free), j)
  {
    var bs' := SetFree(bs, k, free);
    forall j | 0 <= j < |bs|
      ensures HeadersOf(bs')[j] == HeadersOf(bs)[k := HeaderFor(bs, k).(free := free)][j]
    {
      HeaderAt(bs, |bs|, j);
      HeaderAt(bs', |bs'|, j);
    }
  }

  lemma {:induction false} SameHeads(m: Image, bs: seq<Block>, bs': seq<Block>, hs: seq<Header>)
    requires Heads(m, bs, hs) && |bs'| == |bs| && forall j :: 0 <= j < |bs| ==> SameAt(bs, bs', j)
    ensures Heads(m, bs', hs)
  {
    forall j | 0 <= j < |bs'|
      ensures Headed(m, bs', hs, j)
    {
      assert SameAt(bs, bs', j) && Headed(m, bs, hs, j);
    }
  }

  /** The header a new last block starts with, and the one it gets behind a predecessor. */
  function FreshHeader(size: nat): Header { Header(HEAP_MAGIC, size, true, 0, 0) }

  function LinkedTo(bs: seq<Block>, at: nat): Header {
    if bs == [] then Header(0, 0, false, 0, 0) else HeaderFor(bs, |bs| - 1).(next := Addr(at))
  }

  /** Appending: the new header, the old last block's link, the new block's back link. */
  lemma {:induction false} AppendListed(m: Image, m1: Image, m2: Image, m3: Image, bs: seq<Block>, end: nat, b: Block)
    requires ListIs(m, bs) && Tiled(bs + [b], end) && b.free && Wrote(m, m1, b.at, FreshHeader(b.size))
    requires |bs| == 0 ==> m3 == m1
    requires |bs| > 0 ==>
               && Wrote(m1, m2, bs[|bs| - 1].at, LinkedTo(bs, b.at))
               && Wrote(m2, m3, b.at, FreshHeader(b.size).(prev := Addr(bs[|bs| - 1].at)))
    ensures ListIs(m3, bs + [b]) && OnlyHeaders(m, m3, bs + [b])
  {
    AppendHeaders(bs, b);
    if bs == [] {
      AppendOneMore(bs, b);
      Insert(m, m1, bs, bs + [b], end, HeadersOf(bs), 0, FreshHeader(b.size));
    } else {
      AppendHeads(m, m1, m2, m3, bs, end, b, HeadersOf(bs), FreshHeader(b.size), LinkedTo(bs, b.at),
                  FreshHeader(b.size).(prev := Addr(bs[|bs| - 1].at)));
    }
  }

  lemma {:induction false} AppendHeads(m: Image, m1: Image, m2: Image, m3: Image, bs: seq<Block>, end: nat, b: Block,
                                       hs: seq<Header>, h: Header, h': Header, h'': Header)
    requires Heads(m, bs, hs) && Tiled(bs + [b], end) && |bs| > 0
    requires Wrote(m, m1, b.at, h) && Wrote(m1, m2, bs[|bs| - 1].at, h') && Wrote(m2, m3, b.at, h'')
    ensures Heads(m3, bs + [b], Put(Put(hs[..|bs|] + [h] + hs[|bs|..], |bs| - 1, h'), |bs|, h''))
    ensures OnlyHeaders(m, m3, bs + [b])
  {
    AppendOneMore(bs, b);
    Insert(m, m1, bs, bs + [b], end, hs, |bs|, h);
    RewriteTwo(m1, m2, m3, bs + [b], end, hs[..|bs|] + [h] + hs[|bs|..], |bs| - 1, h', |bs|, h'');
    OnlyHeadersTrans(m, m1, m3, bs + [b]);
  }

  lemma {:induction false} AppendOneMore(bs: seq<Block>, b: Block)
    ensures OneMore(bs, bs + [b], |bs|)
  {
  }

  lemma {:induction false} AppendHeaders(bs: seq<Block>, b: Block)
    requires b.free
    ensures var n, h := |bs|, FreshHeader(b.size);
            var hs := HeadersOf(bs)[..n] + [h] + HeadersOf(bs)[n..];
            HeadersOf(bs + [b]) ==
            if n == 0 then hs
            else Put(Put(hs, n - 1, LinkedTo(bs, b.at)), n, h.(prev := Addr(bs[n - 1].at)))
  {
    var n, h, bs' := |bs|, FreshHeader(b.size), bs + [b];
    var hs := HeadersOf(bs)[..n] + [h] + HeadersOf(bs)[n..];
    var hs' := if n == 0 then hs else Put(Put(hs, n - 1, LinkedTo(bs, b.at)), n, h.(prev := Addr(bs[n - 1].at)));
    forall j | 0 <= j < |bs'|
      ensures HeadersOf(bs')[j] == hs'[j]
    {
      HeaderAt(bs', |bs'|, j);
      if j < n {
        HeaderAt(bs, |bs|, j);
      }
    }
  }

  // ---------------------------------------------------------------- live payloads

  function PayloadBytes(m: Image, b: Block): seq<u8>
    requires End(b) <= |m|
  {
    m[Payload(b)..End(b)]
  }

  /** The pointer handed out for a block. */
  function Ptr(b: Block): nat { Addr(Payload(b)) }

  /** Header writes do not reach the payload of a listed block. */
  lemma {:induction false} PayloadKept(m: Image, m': Image, bs: seq<Block>, end: nat, b: Block)
    requires Tiled(bs, end) && end <= |m| && b in bs && OnlyHeaders(m, m', bs)
    ensures End(b) <= |m'| == |m| && PayloadBytes(m', b) == PayloadBytes(m, b)
  {
    var i :| 0 <= i < |bs| && bs[i] == b;
    InsideHeap(bs, end, i);
    forall x | Payload(b) <= x < End(b)
      ensures m'[x] == m[x]
    {
      forall k | 0 <= k < |bs|
        ensures !InHeader(bs[k], x)
      {
        PayloadsDisjoint(bs, end, i, k, x);
      }
      assert Kept(m, m', x);
    }
  }

  ghost predicate Owned(m: Image, live: map<nat, seq<u8>>, b: Block) {
    End(b) <= |m| && Ptr(b) in live && live[Ptr(b)] == PayloadBytes(m, b)
  }

  ghost predicate OwnerIs(bs: seq<Block>, p: nat, b: Block) {
    b in bs && !b.free && Ptr(b) == p
  }

  /** `live` maps exactly the pointers of the used blocks to the bytes of their payloads. */
  ghost predicate LiveIs(m: Image, bs: seq<Block>, live: map<nat, seq<u8>>) {
    && (forall b :: b in bs && !b.free ==> Owned(m, live, b))
    && (forall p :: p in live ==> exists b :: OwnerIs(bs, p, b))
  }

  lemma {:induction false} SamePtr(bs: seq<Block>, end: nat, b: Block, c: Block)
    requires Tiled(bs, end) && b in bs && c in bs && Ptr(b) == Ptr(c)
    ensures b == c
  {
    var i :| 0 <= i < |bs| && bs[i] == b;
    var j :| 0 <= j < |bs| && bs[j] == c;
    PayloadsDistinct(bs, end, i, j);
  }

  /** Header writes that keep the used blocks keep every live payload. */
  lemma {:induction false} LiveKept(m: Image, m': Image, bs: seq<Block>, bs': seq<Block>, end: nat, live: map<nat,
                                    seq<u8>>)
    requires LiveIs(m, bs, live) && Tiled(bs', end) && end <= |m| && OnlyHeaders(m, m', bs')
    requires forall b: Block :: !b.free ==> (b in bs' <==> b in bs)
    ensures LiveIs(m', bs', live)
  {
    forall b | b in bs' && !b.free
      ensures Owned(m', live, b)
    {
      assert Owned(m, live, b);
      PayloadKept(m, m', bs', end, b);
    }
    forall p | p in live
      ensures exists b :: OwnerIs(bs', p, b)
    {
      var b :| OwnerIs(bs, p, b);
      assert OwnerIs(bs', p, b);
    }
  }

  /** Taking a block adds its pointer and nothing else. */
  lemma {:induction false} LiveTaken(m: Image, m': Image, bs: seq<Block>, bs': seq<Block>, end: nat,
                                     live: map<nat, seq<u8>>, t: Block)
    requires LiveIs(m, bs, live) && Tiled(bs', end) && end <= |m| && OnlyHeaders(m, m', bs')
    requires t in bs' && !t.free && Ptr(t) !in live
    requires forall b: Block :: !b.free ==> (b in bs' <==> b in bs || b == t)
    ensures End(t) <= |m'| && LiveIs(m', bs', live[Ptr(t) := PayloadBytes(m', t)])
  {
    PayloadKept(m, m', bs', end, t);
    var live' := live[Ptr(t) := PayloadBytes(m', t)];
    forall b | b in bs' && !b.free
      ensures Owned(m', live', b)
    {
      if b != t {
        assert Owned(m, live, b);
        PayloadKept(m, m', bs', end, b);
      }
    }
    forall p | p in live'
      ensures exists b :: OwnerIs(bs', p, b)
    {
      if p == Ptr(t) {
        assert OwnerIs(bs', p, t);
      } else {
        var b :| OwnerIs(bs, p, b);
        assert OwnerIs(bs', p, b);
      }
    }
  }

  /** Releasing a block removes its pointer and nothing else. */
  lemma {:induction false} LiveReleased(m: Image, m': Image, bs: seq<Block>, bs': seq<Block>, end: nat,
                                        live: map<nat, seq<u8>>, t: Block)
    requires LiveIs(m, bs, live) && Tiled(bs, end) && Tiled(bs', end) && end <= |m| && OnlyHeaders(m, m', bs')
    requires t in bs && !t.free
    requires forall b: Block :: !b.free ==> (b in bs' <==> b in bs && b != t)
    ensures LiveIs(m', bs', live - {Ptr(t)})
  {
    forall b | b in bs' && !b.free
      ensures Owned(m', live - {Ptr(t)}, b)
    {
      assert Owned(m, live, b);
      PayloadKept(m, m', bs', end, b);
      if Ptr(b) == Ptr(t) {
        SamePtr(bs, end, b, t);
      }
    }
    forall p | p in live - {Ptr(t)}
      ensures exists b :: OwnerIs(bs', p, b)
    {
      var b :| OwnerIs(bs, p, b);
      assert OwnerIs(bs', p, b);
    }
  }

  /** Byte `x` after writing `w` from byte `from` on. */
  ghost predicate WrittenAt(m: Image, m': Image, from: nat, w: seq<u8>, x: int) {
    0 <= x < |m| && x < |m'| ==> m'[x] == if from <= x < from + |w| then w[x - from] else m[x]
  }

  ghost predicate Written(m: Image, m': Image, from: nat, w: seq<u8>) {
    |m'| == |m| && forall x :: WrittenAt(m, m', from, w, x)
  }

  lemma {:induction false} OverlayWritten(m: Image, from: nat, w: seq<u8>)
    requires from + |w| <= |m|
    ensures Written(m, Overlay(m, from, w), from, w)
  {
  }

  lemma {:induction false} SliceUnwritten(m: Image, m': Image, from: nat, w: seq<u8>, lo: nat, hi: nat)
    requires Written(m, m', from, w) && lo <= hi <= |m| && (hi <= from || from + |w| <= lo)
    ensures m'[lo..hi] == m[lo..hi]
  {
    forall x | lo <= x < hi
      ensures m'[x] == m[x]
    {
      assert WrittenAt(m, m', from, w, x);
    }
  }

  lemma {:induction false} HeaderUnwritten(m: Image, m': Image, from: nat, w: seq<u8>, a: nat, h: Header)
    requires Written(m, m', from, w) && HeaderIs(m, a, h) && (from + |w| <= a || a + 48 <= from)
    ensures HeaderIs(m', a, h)
  {
    HeaderRead(m, a, h);
    HeaderRead(m', a, h);
    SliceUnwritten(m, m', from, w, a, a + 8);
    SliceUnwritten(m, m', from, w, a + 8, a + 16);
    SliceUnwritten(m, m', from, w, a + 24, a + 32);
    SliceUnwritten(m, m', from, w, a + 32, a + 40);
    assert WrittenAt(m, m', from, w, a + 16);
  }

  /** A write inside one payload keeps every header. */
  lemma {:induction false} HeadsUnwritten(m: Image, m': Image, bs: seq<Block>, end: nat, hs: seq<Header>, i: nat,
                                          at: nat, w: seq<u8>)
    requires Heads(m, bs, hs) && Tiled(bs, end) && i < |bs| && at + |w| <= bs[i].size
    requires Written(m, m', Payload(bs[i]) + at, w)
    ensures Heads(m', bs, hs)
  {
    forall k | 0 <= k < |bs|
      ensures Headed(m', bs, hs, k)
    {
      assert Headed(m, bs, hs, k);
      if k < i {
        Ordered(bs, end, k, i);
      } else if i < k {
        Ordered(bs, end, i, k);
      }
      HeaderUnwritten(m, m', Payload(bs[i]) + at, w, bs[k].at, hs[k]);
    }
  }

  lemma {:induction false} PayloadWritten(m: Image, m': Image, b: Block, at: nat, w: seq<u8>)
    requires End(b) <= |m| && at + |w| <= b.size && Written(m, m', Payload(b) + at, w)
    ensures PayloadBytes(m', b) == Overlay(PayloadBytes(m, b), at, w)
  {
    forall x | 0 <= x < b.size
      ensures PayloadBytes(m', b)[x] == Overlay(PayloadBytes(m, b), at, w)[x]
    {
      assert WrittenAt(m, m', Payload(b) + at, w, Payload(b) + x);
    }
  }

  /** A write inside one live payload changes that payload and no other. */
  lemma {:induction false} OwnedWritten(m: Image, m': Image, bs: seq<Block>, end: nat, live: map<nat, seq<u8>>,
                                        i: nat, j: nat, at: nat, w: seq<u8>)
    requires Tiled(bs, end) && end <= |m| && i < |bs| && j < |bs| && at + |w| <= bs[i].size
    requires Written(m, m', Payload(bs[i]) + at, w) && Owned(m, live, bs[i]) && Owned(m, live, bs[j])
    ensures Owned(m', live[Ptr(bs[i]) := Overlay(live[Ptr(bs[i])], at, w)], bs[j])
  {
    if i == j {
      PayloadWritten(m, m', bs[i], at, w);
    } else {
      if i < j {
        Ordered(bs, end, i, j);
      } else {
        Ordered(bs, end, j, i);
      }
      SliceUnwritten(m, m', Payload(bs[i]) + at, w, Payload(bs[j]), End(bs[j]));
    }
  }

  lemma {:induction false} LiveWritten(m: Image, m': Image, bs: seq<Block>, end: nat, live: map<nat, seq<u8>>,
                                       i: nat, at: nat, w: seq<u8>)
    requires LiveIs(m, bs, live) && Tiled(bs, end) && end <= |m|
    requires i < |bs| && !bs[i].free && at + |w| <= bs[i].size && Written(m, m', Payload(bs[i]) + at, w)
    ensures Owned(m, live, bs[i])
    ensures LiveIs(m', bs, live[Ptr(bs[i]) := Overlay(live[Ptr(bs[i])], at, w)])
  {
    assert bs[i] in bs;
    var live' := live[Ptr(bs[i]) := Overlay(live[Ptr(bs[i])], at, w)];
    forall b | b in bs && !b.free
      ensures Owned(m', live', b)
    {
      var j :| 0 <= j < |bs| && bs[j] == b;
      OwnedWritten(m, m', bs, end, live, i, j, at, w);
    }
    assert OwnerIs(bs, Ptr(bs[i]), bs[i]);
  }

  lemma {:induction false} LivePlaced(m: Image, bs: seq<Block>, end: nat, live: map<nat, seq<u8>>,
                                      p: nat) returns (i: nat)
    requires LiveIs(m, bs, live) && Tiled(bs, end) && p in live
    ensures i < |bs| && p == Ptr(bs[i]) && |live[p]| == bs[i].size
    ensures Addr(48) <= p && p + |live[p]| <= Addr(end)
  {
    var b :| OwnerIs(bs, p, b);
    assert Owned(m, live, b);
    i :| 0 <= i < |bs| && bs[i] == b;
    InsideHeap(bs, end, i);
  }

  lemma {:induction false} AddrAligned(x: nat)
    requires x % 16 == 0
    ensures Addr(x) % 16 == 0
  {
  }

  /** A live pointer is 16-aligned and inside the heap, and two of them reach no common byte. */
  lemma {:induction false} LiveApart(m: Image, bs: seq<Block>, end: nat, live: map<nat, seq<u8>>, p: nat, q: nat)
    requires LiveIs(m, bs, live) && Tiled(bs, end) && p in live && q in live
    ensures p % 16 == 0 && Addr(48) <= p && p + |live[p]| <= Addr(end)
    ensures p != q ==> p + |live[p]| <= q || q + |live[q]| <= p
  {
    var i := LivePlaced(m, bs, end, live, p);
    var j := LivePlaced(m, bs, end, live, q);
    PayloadPlaced(bs, end, i);
    AddrAligned(Payload(bs[i]));
    if i < j {
      Ordered(bs, end, i, j);
    } else if j < i {
      Ordered(bs, end, j, i);
    }
  }
}
