/** The physical page allocator: one bit per page, two counters and a search hint. */
module Pmm {
  import opened Arithmetic

  // ---------------------------------------------------------------- bits of a byte

  /** 1 << i */
  function Mask(i: nat): (m: bv8)
    requires i < 8
    ensures m != 0
  {
    if i == 0 then 0x01 else if i == 1 then 0x02 else if i == 2 then 0x04 else if i == 3 then 0x08
    else if i == 4 then 0x10 else if i == 5 then 0x20 else if i == 6 then 0x40 else 0x80
  }

  predicate TestBit(b: bv8, i: nat)
    requires i < 8
  {
    b & Mask(i) != 0
  }

  function SetBit(b: bv8, i: nat): bv8
    requires i < 8
  {
    b | Mask(i)
  }

  function ClearBit(b: bv8, i: nat): bv8
    requires i < 8
  {
    b & !Mask(i)
  }

  /** Setting or clearing a bit changes that bit and no other. */
  lemma {:induction false} BitUpdate(b: bv8, i: nat, j: nat)
    requires i < 8 && j < 8
    ensures TestBit(SetBit(b, i), j) == (i == j || TestBit(b, j))
    ensures TestBit(ClearBit(b, i), j) == (i != j && TestBit(b, j))
  {
    var m, n := Mask(i), Mask(j);
    if i == j {
      SameBit(b, m);
    } else {
      MasksApart(i, j);
      OtherBit(b, m, n);
    }
  }

  lemma {:induction false} SameBit(b: bv8, m: bv8)
    requires m != 0
    ensures (b | m) & m != 0
    ensures (b & !m) & m == 0
  {
  }

  lemma {:induction false} OtherBit(b: bv8, m: bv8, n: bv8)
    requires m & n == 0
    ensures (b | m) & n == b & n
    ensures (b & !m) & n == b & n
  {
  }

  lemma {:induction false} MasksApart(i: nat, j: nat)
    requires i < 8 && j < 8 && i != j
    ensures Mask(i) & Mask(j) == 0
  {
  }

  // ---------------------------------------------------------------- the abstract bitmap

  /** Bit `p` of the bitmap says whether page `p` is used. */
  ghost predicate BitHolds(bits: seq<bv8>, used: seq<bool>, p: nat)
    requires p < |used| <= 8 * |bits|
  {
    TestBit(bits[p / 8], p % 8) == used[p]
  }

  ghost predicate Represents(bits: seq<bv8>, used: seq<bool>) {
    && |used| <= 8 * |bits|
    && forall p :: 0 <= p < |used| ==> BitHolds(bits, used, p)
  }

  lemma {:induction false} BitWritten(bits: seq<bv8>, used: seq<bool>, p: nat, value: bool)
    requires Represents(bits, used) && p < |used|
    ensures var b := bits[p / 8];
            Represents(bits[p / 8 := if value then SetBit(b, p % 8) else ClearBit(b, p % 8)], used[p := value])
  {
    var b := bits[p / 8];
    var bits' := bits[p / 8 := if value then SetBit(b, p % 8) else ClearBit(b, p % 8)];
    var used' := used[p := value];
    forall q | 0 <= q < |used'|
      ensures BitHolds(bits', used', q)
    {
      assert BitHolds(bits, used, q);
      BitUpdate(b, p % 8, q % 8);
    }
  }

  /** Free pages from page `n` on. */
  ghost function FreeCount(used: seq<bool>, n: nat): nat
    requires n <= |used|
    decreases |used| - n
  {
    if n == |used| then 0 else (if used[n] then 0 else 1) + FreeCount(used, n + 1)
  }

  lemma {:induction false} FreeCountUpdate(used: seq<bool>, n: nat, p: nat, value: bool)
    requires n <= |used| && p < |used|
    ensures FreeCount(used[p := value], n) ==
            FreeCount(used, n) + (if n <= p && !value then 1 else 0) - (if n <= p && !used[p] then 1 else 0)
    decreases |used| - n
  {
    if n < |used| {
      FreeCountUpdate(used, n + 1, p, value);
    }
  }

  lemma {:induction false} FreeCountBound(used: seq<bool>, n: nat)
    requires n <= |used|
    ensures FreeCount(used, n) <= |used| - n
    ensures FreeCount(used, n) == 0 <==> forall p :: n <= p < |used| ==> used[p]
    decreases |used| - n
  {
    if n < |used| {
      FreeCountBound(used, n + 1);
    }
  }

  /** The pages of `[at, at + n)` marked used or free. */
  ghost function Marked(used: seq<bool>, at: nat, n: nat, value: bool): (r: seq<bool>)
    requires at + n <= |used|
    ensures |r| == |used|
    ensures forall p :: 0 <= p < |r| ==> r[p] == if at <= p < at + n then value else used[p]
    decreases n
  {
    if n == 0 then used else Marked(used, at, n - 1, value)[at + n - 1 := value]
  }

  /** The first free page from `n` on, or the number of pages. */
  ghost function FirstFree(used: seq<bool>, n: nat): (p: nat)
    requires n <= |used|
    ensures n <= p <= |used|
    ensures p < |used| ==> !used[p]
    ensures forall q :: n <= q < p ==> used[q]
    decreases |used| - n
  {
    if n == |used| || !used[n] then n else FirstFree(used, n + 1)
  }

  lemma {:induction false} FirstFreeIs(used: seq<bool>, n: nat, p: nat)
    requires n <= p < |used| && !used[p] && forall q :: n <= q < p ==> used[q]
    ensures FirstFree(used, n) == p
  {
    var f := FirstFree(used, n);
    assert f <= p;
    assert !used[f];
  }

  /** The page the next single allocation takes: the first free one from the hint on,
      else the first free one; the number of pages when none is free. */
  ghost function NextPage(used: seq<bool>, hint: nat): (p: nat)
    requires hint <= |used|
    ensures p <= |used| && (p < |used| ==> !used[p])
    ensures forall q :: hint <= q < |used| && (q < p || p < hint) ==> used[q]
    ensures p < hint || p == |used| ==> forall q :: 0 <= q < p ==> used[q]
  {
    if FirstFree(used, hint) < |used| then FirstFree(used, hint) else FirstFree(used, 0)
  }

  /** Pages `at` to `at + n - 1` are all free. */
  ghost predicate FreeRun(used: seq<bool>, at: nat, n: nat) {
    at + n <= |used| && forall p :: at <= p < at + n ==> !used[p]
  }

  lemma {:induction false} UsedBreaksRun(used: seq<bool>, at: nat, n: nat, p: nat)
    requires at <= p < at + n && p < |used| && used[p]
    ensures !FreeRun(used, at, n)
  {
  }

  lemma {:induction false} MarkedCount(used: seq<bool>, at: nat, n: nat)
    requires FreeRun(used, at, n)
    ensures FreeCount(Marked(used, at, n, true), 0) == FreeCount(used, 0) - n
    decreases n
  {
    if n > 0 {
      MarkedCount(used, at, n - 1);
      FreeCountUpdate(Marked(used, at, n - 1, true), 0, at + n - 1, true);
    }
  }

  // ---------------------------------------------------------------- the memory map

  datatype Region = Region(base: nat, length: nat, usable: bool)

  function AlignDown(x: nat): (r: nat)
    ensures r % 4096 == 0 && r <= x < r + 4096
  {
    x / 4096 * 4096
  }

  /** Page `p` lies wholly inside the usable region. */
  predicate Inside(r: Region, p: nat) {
    r.usable && r.base <= 4096 * p && 4096 * p + 4096 <= r.base + r.length
  }

  /** Page `p` lies wholly in a usable region among the first `n`. */
  ghost predicate Usable(memmap: seq<Region>, n: nat, p: nat)
    requires n <= |memmap|
  {
    exists i :: 0 <= i < n && Inside(memmap[i], p)
  }

  /** No sum or rounding over the map wraps 64 bits. */
  ghost predicate MapFits(memmap: seq<Region>) {
    forall i :: 0 <= i < |memmap| ==> memmap[i].base + memmap[i].length + 4096 <= 0x1_0000_0000_0000_0000
  }

  /** End of the highest region of the first `n`. */
  function Highest(memmap: seq<Region>, n: nat): (h: nat)
    requires n <= |memmap|
    ensures forall i :: 0 <= i < n ==> memmap[i].base + memmap[i].length <= h
    ensures h > 0 ==> exists i :: 0 <= i < n && memmap[i].base + memmap[i].length == h
  {
    if n == 0 then 0
    else
      var h, end := Highest(memmap, n - 1), memmap[n - 1].base + memmap[n - 1].length;
      if end > h then end else h
  }

  function TotalPages(memmap: seq<Region>): nat {
    AlignUp(Highest(memmap, |memmap|)) / 4096
  }

  /** Bytes the bitmap takes, in whole pages. */
  function BitmapSize(memmap: seq<Region>): nat {
    AlignUp((TotalPages(memmap) + 7) / 8)
  }

  /** Whether the region can hold the bitmap. */
  predicate Holds(r: Region, size: nat) {
    r.usable && AlignUp(r.base) < AlignDown(r.base + r.length) && AlignDown(r.base + r.length) - AlignUp(r.base) >= size
  }

  /** Where the bitmap goes: the start of the first region that can hold it; 0 when none can. */
  function BitmapAddress(memmap: seq<Region>, n: nat): nat
    requires n <= |memmap|
    decreases |memmap| - n
  {
    if n == |memmap| then 0
    else if Holds(memmap[n], BitmapSize(memmap)) then AlignUp(memmap[n].base)
    else BitmapAddress(memmap, n + 1)
  }

  /** Page `p` is where the bitmap lies. */
  predicate InBitmap(memmap: seq<Region>, p: nat) {
    BitmapAddress(memmap, 0) <= 4096 * p < BitmapAddress(memmap, 0) + BitmapSize(memmap)
  }

  /** The page count is the least that covers every region, and the bitmap has a bit for each
      page, with less than a page to spare. */
  lemma {:induction false} SizesFit(memmap: seq<Region>)
    ensures forall i :: 0 <= i < |memmap| ==> memmap[i].base + memmap[i].length <= 4096 * TotalPages(memmap)
    ensures TotalPages(memmap) > 0 ==>
              exists i :: 0 <= i < |memmap| && memmap[i].base + memmap[i].length > 4096 * (TotalPages(memmap) - 1)
    ensures BitmapSize(memmap) % 4096 == 0
    ensures TotalPages(memmap) <= 8 * BitmapSize(memmap) < TotalPages(memmap) + 8 * 4096 + 7
  {
    var h := Highest(memmap, |memmap|);
    assert 4096 * TotalPages(memmap) == AlignUp(h);
  }

  /** There is room for `size` bytes at page address `addr` of the usable region. */
  predicate Room(r: Region, addr: nat, size: nat) {
    r.usable && addr % 4096 == 0 && r.base <= addr && addr + size <= r.base + r.length
  }

  lemma {:induction false} HoldsIff(r: Region, size: nat)
    requires 0 < size && size % 4096 == 0
    ensures Holds(r, size) <==> exists addr: nat :: Room(r, addr, size)
    ensures Holds(r, size) ==> Room(r, AlignUp(r.base), size)
  {
    assert Holds(r, size) ==> Room(r, AlignUp(r.base), size);
    if addr: nat :| Room(r, addr, size) {
      RoomHolds(r, addr, size);
    }
  }

  lemma {:induction false} RoomHolds(r: Region, addr: nat, size: nat)
    requires 0 < size && size % 4096 == 0 && Room(r, addr, size)
    ensures Holds(r, size)
  {
    hide AlignUp, AlignDown;
    WholePages(r.base, addr);
    WholePages(addr + size, r.base + r.length);
    assert (addr + size) % 4096 == 0;
  }

  lemma {:induction false} WholePages(x: nat, y: nat)
    requires x <= y
    ensures y % 4096 == 0 ==> AlignUp(x) <= y
    ensures x % 4096 == 0 ==> x <= AlignDown(y)
  {
  }

  /** The bitmap goes to the first page of the first usable region with room for it. */
  lemma {:induction false} BitmapIsFirst(memmap: seq<Region>, n: nat) returns (i: nat)
    requires n <= |memmap| && 0 < BitmapSize(memmap) && BitmapAddress(memmap, n) != 0
    ensures n <= i < |memmap| && Room(memmap[i], BitmapAddress(memmap, n), BitmapSize(memmap))
    ensures BitmapAddress(memmap, n) < memmap[i].base + 4096
    ensures forall j, addr: nat :: n <= j < i ==> !Room(memmap[j], addr, BitmapSize(memmap))
    decreases |memmap| - n
  {
    SizesFit(memmap);
    HoldsIff(memmap[n], BitmapSize(memmap));
    i := n;
    if !Holds(memmap[n], BitmapSize(memmap)) {
      i := BitmapIsFirst(memmap, n + 1);
    }
  }

  lemma {:induction false} InsideAligned(r: Region, p: nat)
    ensures Inside(r, p) <==> r.usable && AlignUp(r.base) <= 4096 * p && 4096 * p + 4096 <= AlignDown(r.base + r.length)
  {
  }

  method HighestAddress(memmap: seq<Region>) returns (highest: nat)
    requires MapFits(memmap)
    ensures highest == Highest(memmap, |memmap|)
  {
    highest := 0;
    for i := 0 to |memmap|
      invariant highest == Highest(memmap, i)
    {
      var end := memmap[i].base + memmap[i].length;
      if end > highest {
        highest := end;
      }
    }
  }

  method FindBitmap(memmap: seq<Region>) returns (addr: nat)
    requires MapFits(memmap)
    ensures addr == BitmapAddress(memmap, 0) && addr % 4096 == 0
  {
    for i := 0 to |memmap|
      invariant BitmapAddress(memmap, i) == BitmapAddress(memmap, 0)
    {
      if !memmap[i].usable {
        continue;
      }
      var start, end := AlignUp(memmap[i].base), AlignDown(memmap[i].base + memmap[i].length);
      if end <= start {
        continue;
      }
      if end - start >= BitmapSize(memmap) {
        return start;
      }
    }
    addr := 0;
  }

  lemma {:induction false} AllUsed(bits: seq<bv8>, used: seq<bool>)
    requires |used| <= 8 * |bits|
    requires forall i :: 0 <= i < |bits| ==> bits[i] == 0xFF
    requires forall p :: 0 <= p < |used| ==> used[p]
    ensures Represents(bits, used) && FreeCount(used, 0) == 0
  {
    forall p | 0 <= p < |used|
      ensures BitHolds(bits, used, p)
    {
      AllSet(p % 8);
    }
    FreeCountBound(used, 0);
  }

  lemma {:induction false} AllSet(i: nat)
    requires i < 8
    ensures TestBit(0xFF, i)
  {
  }

  // ---------------------------------------------------------------- the allocator

  class PhysicalMemory {
    const bitmap: array<bv8>
    const totalPages: nat
    var usedPages: nat
    var freePages: nat
    var lastAllocIndex: nat
    ghost var used: seq<bool>

    /** The bitmap says what `used` says, the counters count it and the hint is in range. */
    ghost predicate Consistent()
      reads this, bitmap
    {
      && |used| == totalPages
      && Represents(bitmap[..], used)
      && freePages == FreeCount(used, 0)
      && usedPages + freePages == totalPages
      && lastAllocIndex <= totalPages
    }

    /** Page 0 is never handed out, so address 0 can mean failure. */
    ghost predicate Valid()
      reads this, bitmap
    {
      Consistent() && (0 < totalPages ==> used[0])
    }

    /** Builds the bitmap over the regions of the memory map: everything used, then the
        usable regions free, then the bitmap itself and page 0 used. */
    constructor (memmap: seq<Region>)
      requires MapFits(memmap) && BitmapAddress(memmap, 0) != 0 && BitmapSize(memmap) < 0x8000_0000
      ensures Valid() && fresh(bitmap) && lastAllocIndex == 0
      ensures totalPages == TotalPages(memmap)
      ensures forall p :: 0 <= p < totalPages ==>
                (!used[p] <==> p != 0 && Usable(memmap, |memmap|, p) && !InBitmap(memmap, p))
    {
      var highest := HighestAddress(memmap);
      var total := AlignUp(highest) / 4096;
      var size := AlignUp((total + 7) / 8);
      totalPages := total;
      bitmap := new bv8[size](_ => 0xFF);
      usedPages, freePages, lastAllocIndex := total, 0, 0;
      used := seq(total, _ => true);
      new;
      AllUsed(bitmap[..], used);
      var bitmapPhysicalAddress := FindBitmap(memmap);
      for i := 0 to |memmap|
        invariant Consistent() && lastAllocIndex == 0
        invariant forall p :: 0 <= p < totalPages ==> (!used[p] <==> Usable(memmap, i, p))
      {
        FreeRegion(memmap[i]);
      }
      MarkUsed(bitmapPhysicalAddress, size / 4096);
      MarkUsed(0, 1);
    }

    /** Frees the whole pages of a usable region. */
    method FreeRegion(r: Region)
      requires Consistent()
      modifies `used, `usedPages, `freePages, bitmap
      ensures Consistent()
      ensures forall p :: 0 <= p < totalPages ==> (!used[p] <==> !old(used[p]) || Inside(r, p))
    {
      forall p: nat
        ensures Inside(r, p) <==>
                  r.usable && AlignUp(r.base) <= 4096 * p && 4096 * p + 4096 <= AlignDown(r.base + r.length)
      {
        InsideAligned(r, p);
      }
      if !r.usable {
        return;
      }
      var start, end := AlignUp(r.base), AlignDown(r.base + r.length);
      if end <= start {
        return;
      }
      MarkFree(start, (end - start) / 4096);
    }

    method MarkUsed(addr: nat, pageCount: nat)
      requires Consistent() && addr % 4096 == 0
      modifies `used, `usedPages, `freePages, bitmap
      ensures Consistent()
      ensures forall p :: 0 <= p < totalPages ==>
                used[p] == (old(used[p]) || addr / 4096 <= p < addr / 4096 + pageCount)
    {
      var startPage := addr / 4096;
      ghost var before := used;
      for i := 0 to pageCount
        invariant Consistent()
        invariant forall p :: 0 <= p < totalPages ==> used[p] == (before[p] || startPage <= p < startPage + i)
      {
        var page := startPage + i;
        if page >= totalPages {
          return;
        }
        var taken := BitmapTest(page);
        if !taken {
          CountPage(page, true);
          BitmapSet(page);
          freePages := freePages - 1;
          usedPages := usedPages + 1;
        }
      }
    }

    method MarkFree(addr: nat, pageCount: nat)
      requires Consistent() && addr % 4096 == 0
      modifies `used, `usedPages, `freePages, bitmap
      ensures Consistent()
      ensures forall p :: 0 <= p < totalPages ==>
                used[p] == (old(used[p]) && !(addr / 4096 <= p < addr / 4096 + pageCount))
    {
      var startPage := addr / 4096;
      ghost var before := used;
      for i := 0 to pageCount
        invariant Consistent()
        invariant forall p :: 0 <= p < totalPages ==> used[p] == (before[p] && !(startPage <= p < startPage + i))
      {
        var page := startPage + i;
        if page >= totalPages {
          return;
        }
        var taken := BitmapTest(page);
        if taken {
          CountPage(page, false);
          BitmapClear(page);
          freePages := freePages + 1;
          usedPages := usedPages - 1;
        }
      }
    }

    /** The counters stay counts when a page changes sides. */
    lemma {:induction false} CountPage(page: nat, value: bool)
      requires page < |used| && used[page] != value
      ensures FreeCount(used[page := value], 0) == if value then FreeCount(used, 0) - 1 else FreeCount(used, 0) + 1
      ensures FreeCount(used[page := value], 0) <= |used|
    {
      FreeCountUpdate(used, 0, page, value);
      FreeCountBound(used[page := value], 0);
    }

    method BitmapTest(page: nat) returns (r: bool)
      requires Represents(bitmap[..], used) && page < |used|
      ensures r == used[page]
    {
      assert BitHolds(bitmap[..], used, page);
      r := TestBit(bitmap[page / 8], page % 8);
    }

    method BitmapSet(page: nat)
      requires Represents(bitmap[..], used) && page < |used|
      modifies `used, bitmap
      ensures Represents(bitmap[..], used) && used == old(used)[page := true]
    {
      BitWritten(bitmap[..], used, page, true);
      bitmap[page / 8] := SetBit(bitmap[page / 8], page % 8);
      used := used[page := true];
    }

    method BitmapClear(page: nat)
      requires Represents(bitmap[..], used) && page < |used|
      modifies `used, bitmap
      ensures Represents(bitmap[..], used) && used == old(used)[page := false]
    {
      BitWritten(bitmap[..], used, page, false);
      bitmap[page / 8] := ClearBit(bitmap[page / 8], page % 8);
      used := used[page := false];
    }

    /** Takes one page: the first free one from the hint on, wrapping once. */
    method AllocPage() returns (addr: nat)
      requires Valid()
      modifies this, bitmap
      ensures Valid()
      ensures old(freePages) == 0 ==> addr == 0 && unchanged(this) && unchanged(bitmap)
      ensures old(freePages) > 0 ==>
                var p := NextPage(old(used), old(lastAllocIndex));
                && 0 < p < totalPages && addr == 4096 * p && used == old(used)[p := true] && lastAllocIndex == p + 1
                && !old(used)[p]
                && freePages == old(freePages) - 1
    {
      FreeCountBound(used, 0);
      for i := lastAllocIndex to totalPages
        invariant Valid() && unchanged(this) && unchanged(bitmap)
        invariant forall q :: lastAllocIndex <= q < i ==> used[q]
      {
        var taken := BitmapTest(i);
        if !taken {
          FirstFreeIs(used, lastAllocIndex, i);
          addr := TakePage(i);
          return;
        }
      }
      assert FirstFree(used, lastAllocIndex) == totalPages;
      for i := 0 to lastAllocIndex
        invariant Valid() && unchanged(this) && unchanged(bitmap)
        invariant forall q :: 0 <= q < i ==> used[q]
      {
        var taken := BitmapTest(i);
        if !taken {
          FirstFreeIs(used, 0, i);
          addr := TakePage(i);
          return;
        }
      }
      addr := 0;
    }

    method TakePage(i: nat) returns (addr: nat)
      requires Valid() && i < totalPages && !used[i]
      modifies this, bitmap
      ensures Valid() && addr == 4096 * i && used == old(used)[i := true] && lastAllocIndex == i + 1
      ensures freePages == old(freePages) - 1
    {
      FreeCountUpdate(used, 0, i, true);
      FreeCountBound(used[i := true], 0);
      BitmapSet(i);
      usedPages := usedPages + 1;
      freePages := freePages - 1;
      lastAllocIndex := i + 1;
      addr := i * 4096;
    }

    /** Gives one page back; a page below the hint becomes the hint. */
    method FreePage(addr: nat)
      requires Valid() && addr % 4096 == 0
      requires 0 < addr / 4096 < totalPages && used[addr / 4096]
      modifies this, bitmap
      ensures Valid() && used == old(used)[addr / 4096 := false] && freePages == old(freePages) + 1
      ensures lastAllocIndex == if addr / 4096 < old(lastAllocIndex) then addr / 4096 else old(lastAllocIndex)
    {
      var page := addr / 4096;
      FreeCountUpdate(used, 0, page, false);
      FreeCountBound(used[page := false], 0);
      BitmapClear(page);
      freePages := freePages + 1;
      usedPages := usedPages - 1;
      if page < lastAllocIndex {
        lastAllocIndex := page;
      }
    }

    /** Takes the lowest run of `count` free pages; 0 exactly when there is none. */
    method AllocPages(count: nat) returns (addr: nat)
      requires Valid()
      modifies this, bitmap
      ensures Valid()
      ensures addr == 0 <==> count == 0 || forall s :: !FreeRun(old(used), s, count)
      ensures addr == 0 ==> unchanged(this) && unchanged(bitmap)
      ensures addr != 0 ==>
                && addr % 4096 == 0 && FreeRun(old(used), addr / 4096, count)
                && (forall s :: 0 <= s < addr / 4096 ==> !FreeRun(old(used), s, count))
                && used == Marked(old(used), addr / 4096, count, true)
                && lastAllocIndex == addr / 4096 + count
    {
      if count == 0 {
        return 0;
      }
      var runStart, runLength := 0, 0;
      for i := 0 to totalPages
        invariant Valid() && unchanged(this) && unchanged(bitmap)
        invariant runLength < count && runLength <= i
        invariant runLength > 0 ==> runStart == i - runLength
        invariant FreeRun(used, i - runLength, runLength)
        invariant forall s :: 0 <= s < i - runLength ==> !FreeRun(used, s, count)
      {
        var taken := BitmapTest(i);
        if !taken {
          if runLength == 0 {
            runStart := i;
          }
          runLength := runLength + 1;
          if runLength == count {
            assert FreeRun(used, runStart, count);
            addr := TakeRun(runStart, count);
            return;
          }
        } else {
          forall s | i - runLength <= s <= i
            ensures !FreeRun(used, s, count)
          {
            UsedBreaksRun(used, s, count, i);
          }
          runLength := 0;
        }
      }
      addr := 0;
    }

    method TakeRun(start: nat, count: nat) returns (addr: nat)
      requires Valid() && 0 < count && FreeRun(used, start, count)
      modifies this, bitmap
      ensures Valid() && addr == 4096 * start && 0 < start
      ensures used == Marked(old(used), start, count, true) && lastAllocIndex == start + count
    {
      ghost var before := used;
      assert used[0] && !used[start];
      MarkedCount(used, start, count);
      for j := 0 to count
        invariant |used| == totalPages && Represents(bitmap[..], used)
        invariant used == Marked(before, start, j, true)
        invariant usedPages == old(usedPages) && freePages == old(freePages)
      {
        BitmapSet(start + j);
      }
      freePages := freePages - count;
      usedPages := usedPages + count;
      lastAllocIndex := start + count;
      addr := start * 4096;
    }

    /** Gives `count` pages back, one by one. */
    method FreePages(addr: nat, count: nat)
      requires Valid() && addr % 4096 == 0
      requires 0 < addr / 4096 && addr / 4096 + count <= totalPages
      requires forall p :: addr / 4096 <= p < addr / 4096 + count ==> used[p]
      modifies this, bitmap
      ensures Valid() && used == Marked(old(used), addr / 4096, count, false)
    {
      ghost var before := used;
      for i := 0 to count
        invariant Valid() && used == Marked(before, addr / 4096, i, false)
      {
        assert (addr + i * 4096) / 4096 == addr / 4096 + i;
        FreePage(addr + i * 4096);
      }
    }
  }

  /** A page freed below the hint is the next one handed out. */
  method FreeThenAlloc(pm: PhysicalMemory, addr: nat) returns (again: nat)
    requires pm.Valid() && addr % 4096 == 0
    requires 0 < addr / 4096 < pm.totalPages && pm.used[addr / 4096]
    requires addr / 4096 < pm.lastAllocIndex
    modifies pm, pm.bitmap
    ensures pm.Valid() && again == addr && pm.used == old(pm.used)
  {
    ghost var p, before := addr / 4096, pm.used;
    pm.FreePage(addr);
    FreeCountBound(pm.used, 0);
    assert !pm.used[p];
    assert NextPage(pm.used, pm.lastAllocIndex) == p;
    again := pm.AllocPage();
    assert pm.used == before;
  }
}
