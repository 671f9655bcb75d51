/** Loads and stores of the fields of block headers in the managed memory: each store rewrites
    one field of one header and no other byte, and the header writes the allocator is made of are
    sequences of such stores, with the back link of a following block where there is one. */
module HeapMemory {
  import opened Bytes
  import opened HeapBlocks
  import opened HeapImage

  /** The three word fields a header write may replace, and the flag. */
  lemma {:induction false} MagicWritten(m: Image, at: nat, w: seq<u8>, h: Header)
    requires HeaderIs(m, at, h) && |w| == 8
    ensures Wrote(m, Overlay(m, at, w), at, h.(magic := FromLE(w)))
  {
    HeaderRead(m, at, h);
    HeaderRead(Overlay(m, at, w), at, h.(magic := FromLE(w)));
    OverlayElsewhere(m, at, w, at + 8, at + 16);
    OverlayElsewhere(m, at, w, at + 24, at + 32);
    OverlayElsewhere(m, at, w, at + 32, at + 40);
    OverlayHere(m, at, w);
    OverlayOutside(m, at, w, at);
  }

  lemma {:induction false} SizeWritten(m: Image, at: nat, w: seq<u8>, h: Header)
    requires HeaderIs(m, at, h) && |w| == 8
    ensures Wrote(m, Overlay(m, at + 8, w), at, h.(size := FromLE(w)))
  {
    HeaderRead(m, at, h);
    HeaderRead(Overlay(m, at + 8, w), at, h.(size := FromLE(w)));
    OverlayElsewhere(m, at + 8, w, at, at + 8);
    OverlayElsewhere(m, at + 8, w, at + 24, at + 32);
    OverlayElsewhere(m, at + 8, w, at + 32, at + 40);
    OverlayHere(m, at + 8, w);
    OverlayOutside(m, at + 8, w, at);
  }

  lemma {:induction false} NextWritten(m: Image, at: nat, w: seq<u8>, h: Header)
    requires HeaderIs(m, at, h) && |w| == 8
    ensures Wrote(m, Overlay(m, at + 24, w), at, h.(next := FromLE(w)))
  {
    HeaderRead(m, at, h);
    HeaderRead(Overlay(m, at + 24, w), at, h.(next := FromLE(w)));
    OverlayElsewhere(m, at + 24, w, at, at + 8);
    OverlayElsewhere(m, at + 24, w, at + 8, at + 16);
    OverlayElsewhere(m, at + 24, w, at + 32, at + 40);
    OverlayHere(m, at + 24, w);
    OverlayOutside(m, at + 24, w, at);
  }

  lemma {:induction false} PrevWritten(m: Image, at: nat, w: seq<u8>, h: Header)
    requires HeaderIs(m, at, h) && |w| == 8
    ensures Wrote(m, Overlay(m, at + 32, w), at, h.(prev := FromLE(w)))
  {
    HeaderRead(m, at, h);
    HeaderRead(Overlay(m, at + 32, w), at, h.(prev := FromLE(w)));
    OverlayElsewhere(m, at + 32, w, at, at + 8);
    OverlayElsewhere(m, at + 32, w, at + 8, at + 16);
    OverlayElsewhere(m, at + 32, w, at + 24, at + 32);
    OverlayHere(m, at + 32, w);
    OverlayOutside(m, at + 32, w, at);
  }

  lemma {:induction false} FlagWritten(m: Image, at: nat, free: bool, h: Header)
    requires HeaderIs(m, at, h)
    ensures Wrote(m, Overlay(m, at + 16, [if free then 1 else 0]), at, h.(free := free))
  {
    HeaderRead(m, at, h);
    HeaderRead(Overlay(m, at + 16, [if free then 1 else 0]), at, h.(free := free));
    var w := [if free then 1 else 0 as u8];
    OverlayElsewhere(m, at + 16, w, at, at + 8);
    OverlayElsewhere(m, at + 16, w, at + 8, at + 16);
    OverlayElsewhere(m, at + 16, w, at + 24, at + 32);
    OverlayElsewhere(m, at + 16, w, at + 32, at + 40);
    OverlayOutside(m, at + 16, w, at);
  }

  lemma {:induction false} OverlayHere(m: Image, at: nat, w: seq<u8>)
    requires at + |w| <= |m|
    ensures Overlay(m, at, w)[at..at + |w|] == w
  {
  }

  lemma {:induction false} OverlayOutside(m: Image, from: nat, w: seq<u8>, at: nat)
    requires at + 48 <= |m| && at <= from && from + |w| <= at + 48
    ensures Outside(m, Overlay(m, from, w), at)
  {
  }

  lemma {:induction false} OverlayReached(m: Image, m': Image, at: nat, w: seq<u8>)
    requires |m'| == |m| && at + |w| <= |m|
    requires forall j :: 0 <= j < |w| ==> m'[at + j] == w[j]
    requires forall x :: 0 <= x < |m| && !(at <= x < at + |w|) ==> m'[x] == m[x]
    ensures m' == Overlay(m, at, w)
  {
    forall x | 0 <= x < |m|
      ensures m'[x] == Overlay(m, at, w)[x]
    {
      if at <= x < at + |w| {
        assert m'[at + (x - at)] == w[x - at];
      }
    }
  }

  /** The bytes of a 64-bit word. */
  method EncodeWord(v: nat) returns (w: seq<u8>)
    requires v < U64_LIMIT
    ensures |w| == 8 && FromLE(w) == v
  {
    assert Pow256(8) == U64_LIMIT;
    FromLEOfToLE(v, 8);
    w := ToLE(v, 8);
  }

  /** The virtual memory set aside for the heap, from `HEAP_START` on. */
  class Ram {
    const bytes: array<u8>

    constructor (size: nat)
      ensures bytes.Length == size && fresh(bytes)
    {
      bytes := new u8[size];
    }

    /** Whether the whole header at `p` lies in the managed memory. */
    ghost predicate HasHeader(p: nat) { Addr(0) <= p && p + 48 <= Addr(bytes.Length) }

    ghost function Image(): Image
      reads bytes
    {
      bytes[..]
    }

    method StoreBytes(at: nat, w: seq<u8>)
      requires at + |w| <= bytes.Length
      modifies bytes
      ensures Image() == Overlay(old(Image()), at, w)
    {
      for i := 0 to |w|
        invariant forall j :: 0 <= j < i ==> bytes[at + j] == w[j]
        invariant forall x :: 0 <= x < bytes.Length && !(at <= x < at + i) ==> bytes[x] == old(bytes[x])
      {
        bytes[at + i] := w[i];
      }
      OverlayReached(old(bytes[..]), bytes[..], at, w);
    }

    method SetMagic(p: nat, v: nat, ghost h: Header)
      requires HasHeader(p) && v < U64_LIMIT && HeaderIs(Image(), p - Addr(0), h)
      modifies bytes
      ensures Wrote(old(Image()), Image(), p - Addr(0), h.(magic := v))
    {
      var w := EncodeWord(v);
      MagicWritten(Image(), p - Addr(0), w, h);
      StoreBytes(p - 0xFFFF_A000_0000_0000, w);
    }

    method SetSize(p: nat, v: nat, ghost h: Header)
      requires HasHeader(p) && v < U64_LIMIT && HeaderIs(Image(), p - Addr(0), h)
      modifies bytes
      ensures Wrote(old(Image()), Image(), p - Addr(0), h.(size := v))
    {
      var w := EncodeWord(v);
      SizeWritten(Image(), p - Addr(0), w, h);
      StoreBytes(p - 0xFFFF_A000_0000_0000 + 8, w);
    }

    method SetFree(p: nat, free: bool, ghost h: Header)
      requires HasHeader(p) && HeaderIs(Image(), p - Addr(0), h)
      modifies bytes
      ensures Wrote(old(Image()), Image(), p - Addr(0), h.(free := free))
    {
      FlagWritten(Image(), p - Addr(0), free, h);
      StoreBytes(p - 0xFFFF_A000_0000_0000 + 16, [if free then 1 else 0]);
    }

    method SetNext(p: nat, v: nat, ghost h: Header)
      requires HasHeader(p) && v < U64_LIMIT && HeaderIs(Image(), p - Addr(0), h)
      modifies bytes
      ensures Wrote(old(Image()), Image(), p - Addr(0), h.(next := v))
    {
      var w := EncodeWord(v);
      NextWritten(Image(), p - Addr(0), w, h);
      StoreBytes(p - 0xFFFF_A000_0000_0000 + 24, w);
    }

    method SetPrev(p: nat, v: nat, ghost h: Header)
      requires HasHeader(p) && v < U64_LIMIT && HeaderIs(Image(), p - Addr(0), h)
      modifies bytes
      ensures Wrote(old(Image()), Image(), p - Addr(0), h.(prev := v))
    {
      var w := EncodeWord(v);
      PrevWritten(Image(), p - Addr(0), w, h);
      StoreBytes(p - 0xFFFF_A000_0000_0000 + 32, w);
    }

    method SetNextAndSize(p: nat, next: nat, size: nat, ghost h: Header)
      requires HasHeader(p) && next < U64_LIMIT && size < U64_LIMIT && HeaderIs(Image(), p - Addr(0), h)
      modifies bytes
      ensures Wrote(old(Image()), Image(), p - Addr(0), h.(next := next, size := size))
    {
      ghost var m, h1 := Image(), h.(next := next);
      SetNext(p, next, h);
      ghost var m1 := Image();
      SetSize(p, size, h1);
      WroteTwice(m, m1, Image(), p - Addr(0), h1, h1.(size := size));
    }

    method SetSizeAndNext(p: nat, size: nat, next: nat, ghost h: Header)
      requires HasHeader(p) && next < U64_LIMIT && size < U64_LIMIT && HeaderIs(Image(), p - Addr(0), h)
      modifies bytes
      ensures Wrote(old(Image()), Image(), p - Addr(0), h.(size := size, next := next))
    {
      ghost var m, h1 := Image(), h.(size := size);
      SetSize(p, size, h);
      ghost var m1 := Image();
      SetNext(p, next, h1);
      WroteTwice(m, m1, Image(), p - Addr(0), h1, h1.(next := next));
    }

    /** The back link of block `k`, when there is one: `next` is its address or 0. */
    method LinkBack(next: nat, p: nat, ghost bs: seq<Block>, ghost k: nat)
      requires Addr(0) <= p < U64_LIMIT
      requires if k < |bs| then next == Addr(bs[k].at) && HeaderIs(Image(), bs[k].at, HeaderFor(bs, k)) else next == 0
      modifies bytes
      ensures MaybeWrote(old(Image()), Image(), bs, k, BackLinked(bs, k, p - Addr(0)))
    {
      if next != 0 {
        SetPrev(next, p, HeaderFor(bs, k));
      }
    }

    /** Writes all fields of a new block's header. */
    method WriteHeader(p: nat, size: nat, free: bool, next: nat, prev: nat)
      requires HasHeader(p) && size < U64_LIMIT && next < U64_LIMIT && prev < U64_LIMIT
      modifies bytes
      ensures Wrote(old(Image()), Image(), p - Addr(0), Header(HEAP_MAGIC, size, free, next, prev))
    {
      ghost var at, m := p - Addr(0), Image();
      ghost var h := HeaderOf(m, at);
      HeaderRead(m, at, h);
      SetMagic(p, HEAP_MAGIC, h);
      ghost var m1, h1 := Image(), h.(magic := HEAP_MAGIC);
      SetSize(p, size, h1);
      ghost var m2, h2 := Image(), h1.(size := size);
      WroteTwice(m, m1, m2, at, h1, h2);
      SetFree(p, free, h2);
      ghost var m3, h3 := Image(), h2.(free := free);
      WroteTwice(m, m2, m3, at, h2, h3);
      SetNext(p, next, h3);
      ghost var m4, h4 := Image(), h3.(next := next);
      WroteTwice(m, m3, m4, at, h3, h4);
      SetPrev(p, prev, h4);
      WroteTwice(m, m4, Image(), at, h4, h4.(prev := prev));
    }

    /** Reads a header back. */
    method ReadHeader(p: nat) returns (h: Header)
      requires HasHeader(p)
      ensures HeaderIs(Image(), p - Addr(0), h)
    {
      var at := p - 0xFFFF_A000_0000_0000;
      h := HeaderOf(bytes[..], at);
      HeaderRead(Image(), at, h);
    }
  }
}
