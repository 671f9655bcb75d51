/** The kernel heap: a first-fit allocator whose block list lives in the memory it gives. */
module Heap {
  import opened Arithmetic
  import opened Bytes
  import opened HeapBlocks
  import opened HeapImage
  import opened HeapMemory
  import opened HeapPages
  import Vmm

  function AlignUp16(x: nat): (r: nat)
    ensures r % 16 == 0 && x <= r < x + 16
  {
    (x + 15) / 16 * 16
  }

  /** A counter that would be `d` if it were unbounded: the 64-bit value. */
  function Wrapped(d: int): int {
    if d >= 0 then d else d + 0x1_0000_0000_0000_0000
  }

  function Add64(a: int, b: int): int {
    if a + b < 0x1_0000_0000_0000_0000 then a + b else a + b - 0x1_0000_0000_0000_0000
  }

  function Sub64(a: int, b: int): int {
    if b <= a then a - b else a - b + 0x1_0000_0000_0000_0000
  }

  // ---------------------------------------------------------------- the abstract heap

  /** What the heap's variables and headers amount to: the blocks, the bytes they tile,
      how often the heap grew, its two counters, and the pages mapped for it. */
  datatype HeapState = HeapState(blocks: seq<Block>, end: nat, grown: nat, used: int, free: int, mapped: nat)

  /** Bytes a heap that has no room for `size` asks for. */
  function GrowthFor(size: nat): (r: nat)
    ensures r % 4096 == 0 && 4096 <= r && size + 48 <= r && (r == 4096 || r < size + 48 + 4096)
  {
    AlignUp(if size + 48 < 4096 then 4096 else size + 48)
  }

  /** Growing by `size` bytes works when the limit allows it, no page behind the heap is
      mapped already and the page allocator has enough pages, those for page tables
      included. */
  ghost predicate CanGrow(s: HeapState, size: nat, env: Env) {
    s.end + size <= HEAP_LIMIT && 4096 * s.mapped <= s.end && Cost(env, s.mapped, size / 4096) <= env.pool
  }

  /** Growing by `size` bytes halts the kernel. */
  ghost predicate GrowingHalts(s: HeapState, size: nat, env: Env) {
    s.end + size <= HEAP_LIMIT && 4096 * s.mapped <= s.end && Halts(env, s.mapped, size / 4096)
  }

  /** Pages mapped after a failed attempt: those that could still be had. */
  ghost function MappedAfterFailure(s: HeapState, size: nat, env: Env): nat {
    if s.end + size > HEAP_LIMIT || 4096 * s.mapped > s.end then s.mapped else s.mapped + Supply(env, s.mapped)
  }

  ghost function GrownBy(s: HeapState, size: nat): HeapState
    requires 48 <= size
  {
    HeapState(Extended(s.blocks, s.end, size), s.end + size, s.grown + 1, s.used, Add64(s.free, size - 48),
              s.mapped + size / 4096)
  }

  /** Block `k` taken for a request. */
  ghost function TakenBy(s: HeapState, k: nat, size: nat): HeapState
    requires k < |s.blocks| && size <= s.blocks[k].size
  {
    var bs := Taken(s.blocks, k, size);
    s.(blocks := bs, used := Add64(s.used, bs[k].size), free := Sub64(s.free, bs[k].size))
  }

  ghost function ReleasedBy(s: HeapState, k: nat): HeapState
    requires k < |s.blocks|
  {
    s.(blocks := Released(s.blocks, k), used := Sub64(s.used, s.blocks[k].size),
       free := Add64(s.free, s.blocks[k].size))
  }

  /** A state and the pointer a call returned with it. */
  datatype Outcome = Outcome(state: HeapState, ptr: nat)

  /** The first block that fits a rounded request is taken, if there is one. */
  ghost function TakeFirst(s: HeapState, size: nat): Outcome {
    var k := FirstFit(s.blocks, size, 0);
    if k < |s.blocks| then Outcome(TakenBy(s, k, size), Ptr(s.blocks[k])) else Outcome(s, 0)
  }

  /** A request: rounded up, served from the first block that fits, if need be after
      growing the heap once. */
  ghost function Allocated(s: HeapState, size: nat, env: Env): Outcome {
    var r := AlignUp16(size);
    if size == 0 then Outcome(s, 0)
    else if FirstFit(s.blocks, r, 0) < |s.blocks| then TakeFirst(s, r)
    else if CanGrow(s, GrowthFor(r), env) then TakeFirst(GrownBy(s, GrowthFor(r)), r)
    else Outcome(s.(mapped := MappedAfterFailure(s, GrowthFor(r), env)), 0)
  }

  /** The request needs a growth that halts the kernel. */
  ghost predicate RequestHalts(s: HeapState, size: nat, env: Env) {
    && size > 0 && FirstFit(s.blocks, AlignUp16(size), 0) == |s.blocks|
    && GrowingHalts(s, GrowthFor(AlignUp16(size)), env)
  }

  /** A pointer given back. */
  ghost function Freed(s: HeapState, p: nat): HeapState {
    var k := AtPayload(s.blocks, p - Addr(0), 0);
    if p == 0 || k == |s.blocks| then s else ReleasedBy(s, k)
  }

  /** What holds of every heap between two calls. */
  ghost predicate Sound(s: HeapState) {
    && Shape(s.blocks, s.end) && s.end % 4096 == 0 && s.end <= HEAP_LIMIT
    && s.used == Used(s.blocks)
    && 4096 * s.grown <= s.end <= 4096 * s.mapped
    && s.free == Wrapped(s.end - 48 * s.grown - Used(s.blocks))
  }

  /** A growing step keeps the heap sound. */
  lemma {:induction false} GrownSound(s: HeapState, size: nat)
    requires Sound(s) && 4096 <= size && size % 4096 == 0 && s.end + size <= HEAP_LIMIT && 4096 * s.mapped <= s.end
    ensures Sound(GrownBy(s, size))
  {
    hide Tiled, Coalesced, Used, Extended;
    PagesAre16(s.end);
    PagesAre16(size);
    ExtendedShape(s.blocks, s.end, size);
    UsedExtended(s.blocks, s.end, size);
    UsedBound(s.blocks, s.end);
  }

  lemma {:induction false} MoreMapped(s: HeapState, mapped: nat)
    requires Sound(s) && s.mapped <= mapped
    ensures Sound(s.(mapped := mapped))
  {
  }

  /** A heap is whole pages, all of them mapped. */
  lemma {:induction false} SoundPages(s: HeapState)
    requires Sound(s)
    ensures s.end % 16 == 0 && s.end <= 4096 * s.mapped
  {
    PagesAre16(s.end);
  }

  lemma {:induction false} PagesAre16(x: nat)
    requires x % 4096 == 0
    ensures x % 16 == 0
  {
    assert x == 16 * (256 * (x / 4096));
  }

  lemma {:induction false} UsedBound(bs: seq<Block>, end: nat)
    requires Tiled(bs, end)
    ensures Used(bs) <= end
  {
    SumsTile(bs, end);
  }

  /** The counters of a sound heap are 64-bit words. */
  lemma {:induction false} CountersFit(s: HeapState)
    requires Sound(s)
    ensures 0 <= s.used < U64_LIMIT && 0 <= s.free < U64_LIMIT
  {
    UsedBound(s.blocks, s.end);
  }

  lemma {:induction false} TakenSound(s: HeapState, k: nat, size: nat)
    requires Sound(s) && k < |s.blocks| && s.blocks[k].free && 16 <= size <= s.blocks[k].size && size % 16 == 0
    ensures Sound(TakenBy(s, k, size))
  {
    InsideHeap(s.blocks, s.end, k);
    TakenShape(s.blocks, s.end, k, size);
    UsedTaken(s.blocks, k, size);
    UsedBound(s.blocks, s.end);
    UsedBound(Taken(s.blocks, k, size), s.end);
  }

  lemma {:induction false} ReleasedSound(s: HeapState, k: nat)
    requires Sound(s) && k < |s.blocks| && !s.blocks[k].free
    ensures Sound(ReleasedBy(s, k))
  {
    InsideHeap(s.blocks, s.end, k);
    ReleasedShape(s.blocks, s.end, k);
    UsedReleased(s.blocks, k);
    UsedBound(s.blocks, s.end);
  }

  // ---------------------------------------------------------------- the allocator

  class KernelHeap {
    const ram: Ram
    /** The kernel's page tables, over the page allocator. */
    const space: Vmm.AddressSpace
    var head: nat
    var heapEnd: nat
    var usedMemory: nat
    var freeMemory: nat
    /** Pages mapped from the start of the heap on. */
    ghost var mapped: nat
    ghost var blocks: seq<Block>
    ghost var grown: nat
    /** The bytes behind every pointer handed out and not yet given back. */
    ghost var live: map<nat, seq<u8>>

    ghost function End(): int
      reads this
    {
      heapEnd - Addr(0)
    }

    /** The block list is in memory and tiles the heap; live payloads hold `live`. */
    ghost predicate Laid()
      reads this, ram.bytes
    {
      && ram.bytes.Length == HEAP_LIMIT && Addr(0) <= heapEnd && End() <= HEAP_LIMIT
      && Tiled(blocks, End()) && ListIs(ram.Image(), blocks) && LiveIs(ram.Image(), blocks, live)
      && head == if blocks == [] then 0 else Addr(0)
    }

    ghost function State(): HeapState
      reads this
      requires Addr(0) <= heapEnd
    {
      HeapState(blocks, End(), grown, usedMemory, freeMemory, mapped)
    }

    /** The bytes the heap manages are no part of the page allocator or of a page table. */
    ghost predicate Apart() {
      ram.bytes as object != space.pm.bitmap as object && ram.bytes as object != space.memory as object
    }

    /** Of the pages the heap may grow to, exactly the first `mapped` are mapped, each
        writable and to a physical page of its own. */
    ghost predicate Paged()
      reads this`mapped, space, space.pm, space.pm.bitmap, space.memory
    {
      && space.Valid() && HeapMapped(space.flat, mapped)
      && AllBacked(space.flat, space.pm.used, space.path, mapped)
    }

    ghost predicate Valid()
      reads this, ram.bytes, space, space.pm, space.pm.bitmap, space.memory
    {
      Laid() && Sound(State()) && Apart() && Paged()
    }

    /** The free pages and the page tables there are. */
    ghost function Resources(): Env
      reads space, space.pm
    {
      Env(space.pm.freePages, Vmm.Tables(space.path))
    }

    /** An empty heap, before it is given its first pages. */
    constructor (ram: Ram, space: Vmm.AddressSpace)
      requires ram.bytes.Length == HEAP_LIMIT && space.Valid() && HeapMapped(space.flat, 0)
      requires ram.bytes as object != space.pm.bitmap as object && ram.bytes as object != space.memory as object
      ensures Valid() && this.ram == ram && this.space == space
      ensures State() == HeapState([], 0, 0, 0, 0, 0) && live == map[]
    {
      this.ram, this.space := ram, space;
      head, heapEnd, usedMemory, freeMemory, mapped := 0, 0xFFFF_A000_0000_0000, 0, 0, 0;
      blocks, grown, live := [], 0, map[];
    }

    /** The block whose payload is at `p`. */
    ghost predicate IsBlock(p: nat, k: nat)
      reads this
    {
      k < |blocks| && p == Addr(blocks[k].at)
    }

    lemma {:induction false} HeaderHere(k: nat)
      requires Laid() && k < |blocks|
      ensures HeaderIs(ram.Image(), blocks[k].at, HeaderFor(blocks, k))
      ensures ram.HasHeader(Addr(blocks[k].at)) && HeapBlocks.End(blocks[k]) <= End() && blocks[k].size <= HEAP_LIMIT
    {
      HeaderOfBlock(ram.Image(), blocks, k);
      InsideHeap(blocks, End(), k);
    }

    /** Reads the header of block `k`. */
    method ReadBlock(p: nat, ghost k: nat) returns (h: Header)
      requires Laid() && IsBlock(p, k)
      ensures h == HeaderFor(blocks, k)
    {
      HeaderHere(k);
      h := ram.ReadHeader(p);
      HeaderRead(ram.Image(), p - Addr(0), h);
      HeaderRead(ram.Image(), p - Addr(0), HeaderFor(blocks, k));
    }

    /** The pointer a list walk holds at block `k`. */
    ghost function PtrTo(k: nat): nat
      reads this
    {
      if k < |blocks| then Addr(blocks[k].at) else 0
    }

    lemma {:induction false} HeadIsFirst()
      requires Laid()
      ensures head == PtrTo(0)
    {
    }

    /** The first block that is free and large enough; 0 when there is none. */
    method FindFreeBlock(size: nat) returns (p: nat, ghost k: nat)
      requires Laid()
      ensures IsFirstFit(blocks, size, k) && p == PtrTo(k)
    {
      HeadIsFirst();
      p, k := head, 0;
      while p != 0
        invariant k <= |blocks| && p == PtrTo(k)
        invariant NoFitBefore(blocks, size, k)
        decreases |blocks| - k
      {
        var fits, next := Probe(p, k, size);
        if fits {
          return;
        }
        NoFitStep(blocks, size, k);
        p := next;
        k := k + 1;
      }
    }

    /** One step of the search: whether block `k` fits, and the next block. */
    method Probe(p: nat, ghost k: nat, size: nat) returns (fits: bool, next: nat)
      requires Laid() && IsBlock(p, k)
      ensures fits == Fits(blocks[k], size) && next == PtrTo(k + 1)
    {
      var h := ReadBlock(p, k);
      fits, next := h.free && h.size >= size, h.next;
    }

    /** Cuts block `k` down to the request when enough remains for another block. */
    method SplitBlock(p: nat, size: nat, ghost k: nat)
      requires Laid() && IsBlock(p, k) && blocks[k].free
      requires 16 <= size <= blocks[k].size && size % 16 == 0
      modifies this`blocks, ram.bytes
      ensures Laid() && blocks == Split(old(blocks), k, size)
    {
      hide OnlyHeaders, ListIs, LiveIs, Tiled, Wrote;
      var h := ReadBlock(p, k);
      var remaining := h.size - size;
      if remaining <= 64 {
        return;
      }
      ghost var m := ram.Image();
      CutBlock(ram, p, size, remaining, h.next, blocks, End(), k);
      SplitLive(m, ram.Image(), blocks, End(), k, size, live);
      blocks := Split(blocks, k, size);
    }

    /** Block `k` swallows its successor when there is a free one. */
    method MergeWithNext(p: nat, ghost k: nat)
      requires Laid() && IsBlock(p, k)
      requires k + 1 < |blocks| && blocks[k + 1].free ==> blocks[k].free
      modifies this`blocks, ram.bytes
      ensures Laid() && blocks == Merge(old(blocks), k)
    {
      hide OnlyHeaders, ListIs, LiveIs, Tiled, Wrote;
      var h := ReadBlock(p, k);
      if h.next == 0 {
        return;
      }
      var n := ReadBlock(h.next, k + 1);
      if !n.free {
        return;
      }
      ghost var m := ram.Image();
      JoinBlocks(ram, p, h.size + 48 + n.size, n.next, blocks, End(), k);
      MergeLive(m, ram.Image(), blocks, End(), k, live);
      blocks := Merge(blocks, k);
    }

    /** Marks block `k` as handed out. */
    method MarkTaken(p: nat, ghost k: nat)
      requires Laid() && IsBlock(p, k) && blocks[k].free
      modifies this`blocks, this`live, ram.bytes
      ensures Laid() && blocks == SetFree(old(blocks), k, false)
      ensures Ptr(blocks[k]) !in old(live) && Ptr(blocks[k]) in live && |live[Ptr(blocks[k])]| == blocks[k].size
      ensures live == old(live)[Ptr(blocks[k]) := live[Ptr(blocks[k])]]
    {
      hide OnlyHeaders, ListIs, LiveIs, Tiled, Wrote;
      HeaderHere(k);
      ghost var m, bs := ram.Image(), blocks;
      ram.SetFree(p, false, HeaderFor(bs, k));
      MarkListed(m, ram.Image(), bs, End(), k, false);
      TakenLive(m, ram.Image(), bs, End(), k, live);
      blocks := SetFree(bs, k, false);
      live := live[Ptr(bs[k]) := PayloadBytes(ram.Image(), bs[k])];
    }

    /** Marks block `k` as free again. */
    method MarkReleased(p: nat, ghost k: nat)
      requires Laid() && IsBlock(p, k) && !blocks[k].free
      modifies this`blocks, this`live, ram.bytes
      ensures Laid() && blocks == SetFree(old(blocks), k, true)
      ensures live == old(live) - {Ptr(old(blocks)[k])}
    {
      hide OnlyHeaders, ListIs, LiveIs, Tiled, Wrote;
      HeaderHere(k);
      ghost var m, bs := ram.Image(), blocks;
      ram.SetFree(p, true, HeaderFor(bs, k));
      MarkListed(m, ram.Image(), bs, End(), k, true);
      ReleasedLive(m, ram.Image(), bs, End(), k, live);
      blocks := SetFree(bs, k, true);
      live := live - {Ptr(bs[k])};
    }

    /** The last block of the list; 0 when there is none. */
    method FindLast() returns (p: nat)
      requires Laid()
      ensures p == if blocks == [] then 0 else Addr(blocks[|blocks| - 1].at)
    {
      HeadIsFirst();
      p := head;
      if p == 0 {
        return;
      }
      ghost var k: nat := 0;
      var next := NextOf(p, k);
      while next != 0
        invariant k < |blocks| && p == PtrTo(k) && next == PtrTo(k + 1)
        decreases |blocks| - k
      {
        p := next;
        k := k + 1;
        next := NextOf(p, k);
      }
    }

    method NextOf(p: nat, ghost k: nat) returns (next: nat)
      requires Laid() && IsBlock(p, k)
      ensures next == PtrTo(k + 1)
    {
      var h := ReadBlock(p, k);
      next := h.next;
    }

    /** Maps the pages behind the heap. */
    method MapPages(size: nat) returns (ok: bool, halted: bool)
      requires Valid() && size % 4096 == 0 && End() + size <= HEAP_LIMIT
      modifies this`mapped, space`path, space`flat, space.pm, space.pm.bitmap, space.memory
      ensures Paged() && mapped >= old(mapped) && (halted ==> !ok)
      ensures halted <==> 4096 * old(mapped) <= End() && Halts(old(Resources()), old(mapped), size / 4096)
      ensures !halted ==>
                (ok <==> size == 0 || (4096 * old(mapped) <= End() && Cost(old(Resources()), old(mapped), size / 4096)
                                                                       <= old(space.pm.freePages)))
      ensures ok ==> mapped == old(mapped) + size / 4096
      ensures !ok && !halted ==>
                mapped == if 4096 * old(mapped) > End() then old(mapped)
                          else old(mapped) + Supply(old(Resources()), old(mapped))
      ensures !halted ==>
                old(space.pm.freePages) ==
                space.pm.freePages + Cost(old(Resources()), old(mapped), mapped - old(mapped))
      ensures PagesBehind(old(space.flat), space.flat, old(mapped), mapped)
      ensures forall i :: old(mapped) <= i < mapped ==> FromFree(space.flat, old(space.pm.used), i)
    {
      hide Cost, Supply, Halts, Vmm.Tables, Vmm.Tree, Vmm.Refines, HeapMapped, Laid, Vmm.PageOf;
      var first := (heapEnd - 0xFFFF_A000_0000_0000) / 4096;
      EndIsPage(State(), first);
      ghost var mapped';
      ok, halted, mapped' := MapHeapPages(space, first, size / 4096, mapped);
      mapped := mapped';
    }

    /** Puts a new free block behind the last one. */
    method AppendLast(size: nat) returns (last: nat)
      requires Laid() && End() % 16 == 0 && 64 <= size && size % 16 == 0 && End() + size <= HEAP_LIMIT
      modifies this`head, this`heapEnd, this`blocks, ram.bytes
      ensures Laid() && End() == old(End()) + size
      ensures blocks == old(blocks) + [Block(old(End()), size - 48, true)]
      ensures last == if old(blocks) == [] then 0 else Addr(old(blocks)[|old(blocks)| - 1].at)
    {
      hide OnlyHeaders, ListIs, LiveIs, Wrote;
      last := FindLast();
      ghost var m, b := ram.Image(), Block(End(), size - 48, true);
      AppendTiled(blocks, End(), size);
      AppendBlock(ram, heapEnd, size, last, blocks, End(), b);
      if head == 0 {
        head := heapEnd;
      }
      AppendLive(m, ram.Image(), blocks, End() + size, b, live);
      heapEnd := heapEnd + size;
      blocks := blocks + [b];
    }

    /** Puts a new free block behind the last one and merges it with that if it is free. */
    method InstallBlock(size: nat)
      requires Laid() && End() % 16 == 0 && 64 <= size && size % 16 == 0 && End() + size <= HEAP_LIMIT
      modifies this`head, this`heapEnd, this`blocks, ram.bytes
      ensures Laid() && End() == old(End()) + size && blocks == Extended(old(blocks), old(End()), size)
    {
      hide OnlyHeaders, ListIs, LiveIs, Tiled, Wrote;
      var last := AppendLast(size);
      if last != 0 {
        ghost var n := |blocks| - 2;
        var h := ReadBlock(last, n);
        if h.free {
          MergeWithNext(last, n);
        }
      }
    }

    /** Grows the heap by whole pages, as far as the limit, the page allocator and the
        page tables allow; a heap that could not grow keeps its blocks and payloads. */
    method ExpandHeap(request: nat) returns (ok: bool, halted: bool)
      requires Valid() && 0 < request
      modifies this`head, this`heapEnd, this`blocks, this`freeMemory, this`mapped, this`grown, ram.bytes
      modifies space`path, space`flat, space.pm, space.pm.bitmap, space.memory
      ensures Valid()
      ensures halted <==> GrowingHalts(old(State()), AlignUp(request), old(Resources()))
      ensures halted ==> !ok
      ensures !halted ==> ok == CanGrow(old(State()), AlignUp(request), old(Resources()))
      ensures !halted ==>
                State() == if ok then GrownBy(old(State()), AlignUp(request))
                           else old(State()).(mapped :=
                                  MappedAfterFailure(old(State()), AlignUp(request), old(Resources())))
      ensures !halted ==>
                old(space.pm.freePages) ==
                space.pm.freePages + Cost(old(Resources()), old(mapped), mapped - old(mapped))
      ensures PagesBehind(old(space.flat), space.flat, old(mapped), mapped)
      ensures forall i :: old(mapped) <= i < mapped ==> FromFree(space.flat, old(space.pm.used), i)
    {
      hide OnlyHeaders, ListIs, LiveIs, Tiled, AlignUp, Extended, Sound, Cost, Supply, Halts, Paged, PagesBehind;
      SamePages(space.flat, mapped);
      NothingToMap(Resources(), mapped);
      SoundPages(State());
      var size := AlignUp(request);
      if heapEnd + size > 0xFFFF_A000_0400_0000 {
        return false, false;
      }
      ok, halted := MapPages(size);
      if !ok {
        MoreMapped(old(State()), mapped);
        return;
      }
      GrownSound(old(State()), size);
      CountersFit(GrownBy(old(State()), size));
      PagesAre16(size);
      InstallBlock(size);
      freeMemory := Add64(freeMemory, size - 48);
      grown := grown + 1;
    }

    /** Gives block `k`, found for a rounded request, to the caller. */
    method TakeBlock(p: nat, size: nat, ghost k: nat) returns (ptr: nat)
      requires Valid() && IsBlock(p, k) && blocks[k].free && 16 <= size <= blocks[k].size && size % 16 == 0
      modifies this`blocks, this`live, this`usedMemory, this`freeMemory, ram.bytes
      ensures Valid() && State() == TakenBy(old(State()), k, size) && ptr == Ptr(old(blocks)[k])
      ensures ptr !in old(live) && ptr in live && live == old(live)[ptr := live[ptr]]
      ensures size <= |live[ptr]| <= size + 64
    {
      hide OnlyHeaders, ListIs, LiveIs, Tiled, Shape, Used, Paged;
      TakenSound(State(), k, size);
      CountersFit(TakenBy(State(), k, size));
      TakenShape(blocks, End(), k, size);
      SplitBlock(p, size, k);
      MarkTaken(p, k);
      var h := ReadBlock(p, k);
      usedMemory := Add64(usedMemory, h.size);
      freeMemory := Sub64(freeMemory, h.size);
      ptr := p + 48;
    }

    /** Hands out at least `size` bytes: a pointer not live before, or 0 for an empty
        request and when the heap can neither serve it nor grow for it. */
    method Allocate(size: nat) returns (ptr: nat, halted: bool)
      requires Valid() && size <= HEAP_LIMIT
      modifies this, ram.bytes, space`path, space`flat, space.pm, space.pm.bitmap, space.memory
      ensures Valid() && (halted <==> RequestHalts(old(State()), size, old(Resources()))) && (halted ==> ptr == 0)
      ensures !halted ==> Outcome(State(), ptr) == Allocated(old(State()), size, old(Resources()))
      ensures ptr == 0 ==> live == old(live)
      ensures ptr != 0 ==> ptr !in old(live) && ptr in live && live == old(live)[ptr := live[ptr]]
      ensures ptr != 0 ==> size <= |live[ptr]| < size + 80
    {
      hide OnlyHeaders, ListIs, LiveIs, Tiled, Shape, Used, AlignUp16, GrowthFor, Cost, Supply, Halts, Paged;
      halted := false;
      if size == 0 {
        return 0, false;
      }
      var r := AlignUp16(size);
      var p, k := FindFreeBlock(r);
      FirstFitIs(blocks, r, k, 0);
      if p == 0 {
        var growth := if r + 48 < 4096 then 4096 else r + 48;
        GrowthIs(r);
        var ok;
        ok, halted := ExpandHeap(growth);
        if !ok {
          return 0, halted;
        }
        p, k := FindFreeBlock(r);
        GrowthServes(old(State()), r, k);
        FirstFitIs(blocks, r, k, 0);
      }
      ptr := TakeBlock(p, r, k);
    }

    /** Takes a live pointer back; 0 is ignored. */
    method Free(ptr: nat)
      requires Valid() && (ptr == 0 || ptr in live)
      modifies this`blocks, this`live, this`usedMemory, this`freeMemory, ram.bytes
      ensures Valid() && State() == Freed(old(State()), ptr)
      ensures live == old(live) - {ptr}
    {
      hide OnlyHeaders, ListIs, LiveIs, Tiled, Shape, Used, Released, Paged;
      if ptr == 0 {
        NullNotLive(ram.Image(), blocks, live);
        return;
      }
      ghost var k := LiveBlock(ram.Image(), blocks, End(), live, ptr);
      ReleasedSound(State(), k);
      CountersFit(ReleasedBy(State(), k));
      var p := ptr - 48;
      var h := ReadBlock(p, k);
      ReleaseBlock(p, k);
      usedMemory := Sub64(usedMemory, h.size);
      freeMemory := Add64(freeMemory, h.size);
    }

    /** Marks block `k` free and merges it with its free neighbours. */
    method ReleaseBlock(p: nat, ghost k: nat)
      requires Laid() && IsBlock(p, k) && !blocks[k].free
      modifies this`blocks, this`live, ram.bytes
      ensures Laid() && blocks == Released(old(blocks), k)
      ensures live == old(live) - {Ptr(old(blocks)[k])}
    {
      hide OnlyHeaders, ListIs, LiveIs, Tiled;
      MarkReleased(p, k);
      MergeWithNext(p, k);
      var h := ReadBlock(p, k);
      if h.prev != 0 {
        var before := ReadBlock(h.prev, k - 1);
        if before.free {
          MergeWithNext(h.prev, k - 1);
        }
      }
    }

    /** The first pages of the heap: one free block over all of them. */
    method Init() returns (ok: bool, halted: bool)
      requires Valid() && State() == HeapState([], 0, 0, 0, 0, 0)
      modifies this`head, this`heapEnd, this`blocks, this`freeMemory, this`mapped, this`grown, ram.bytes
      modifies space`path, space`flat, space.pm, space.pm.bitmap, space.memory
      ensures Valid()
      ensures var lacking := Vmm.Missing(old(Vmm.Tables(space.path)), Vmm.TablePath(PageAddr(0)));
              (ok <==> 16 + lacking <= old(space.pm.freePages))
                  && (halted <==> 0 < old(space.pm.freePages) < 1 + lacking)
      ensures ok ==> State() == HeapState([Block(0, 65488, true)], 65536, 1, 0, 65488, 16)
      ensures forall i :: 0 <= i < mapped ==> FromFree(space.flat, old(space.pm.used), i)
    {
      hide CanGrow, GrowingHalts, GrownBy, AlignUp, Sound, Paged;
      FirstGrowth(Resources());
      ok, halted := ExpandHeap(0x1_0000);
    }

    /** A client reads byte `at` behind a live pointer. */
    method PeekByte(ptr: nat, at: nat) returns (v: u8)
      requires Laid() && ptr in live && at < |live[ptr]|
      ensures v == live[ptr][at]
    {
      ghost var k := LiveBlock(ram.Image(), blocks, End(), live, ptr);
      assert Owned(ram.Image(), live, blocks[k]);
      v := ram.bytes[ptr - 0xFFFF_A000_0000_0000 + at];
    }

    /** A client writes byte `at` behind a live pointer. */
    method PokeByte(ptr: nat, at: nat, v: u8)
      requires Laid() && ptr in live && at < |live[ptr]|
      modifies this`live, ram.bytes
      ensures Laid() && live == old(live)[ptr := Overlay(old(live)[ptr], at, [v])]
    {
      hide LiveIs, Tiled, Heads;
      ghost var m := ram.Image();
      ghost var k := LiveBlock(m, blocks, End(), live, ptr);
      InsideHeap(blocks, End(), k);
      ram.StoreBytes(ptr - 0xFFFF_A000_0000_0000 + at, [v]);
      OverlayWritten(m, Payload(blocks[k]) + at, [v]);
      HeadsUnwritten(m, ram.Image(), blocks, End(), HeadersOf(blocks), k, at, [v]);
      LiveWritten(m, ram.Image(), blocks, End(), live, k, at, [v]);
      live := live[ptr := Overlay(live[ptr], at, [v])];
    }

    /** Copies the bytes behind one live pointer to the start of another. */
    method CopyPayload(dest: nat, src: nat, count: nat)
      requires Laid() && dest in live && src in live && dest != src && count == |live[src]| <= |live[dest]|
      modifies this`live, ram.bytes
      ensures Laid() && live == old(live)[dest := Overlay(old(live)[dest], 0, old(live)[src])]
    {
      hide Laid;
      assert Overlay(live[dest], 0, live[src][..0]) == live[dest];
      for i := 0 to count
        invariant Laid() && live == old(live)[dest := Overlay(old(live)[dest], 0, old(live)[src][..i])]
      {
        var v := PeekByte(src, i);
        PokeByte(dest, i, v);
        CopyStep(old(live)[dest], old(live)[src], i);
      }
      assert old(live)[src][..count] == old(live)[src];
    }

    /** Keeps a pointer whose payload is large enough already; otherwise moves the payload
        into a new block, byte for byte, and gives the old one back. When no block can be
        had the result is 0 and the old pointer stays live. */
    method Realloc(ptr: nat, newSize: nat) returns (r: nat, halted: bool)
      requires Valid() && newSize <= HEAP_LIMIT && (ptr == 0 || (ptr in live && 0 < newSize))
      modifies this, ram.bytes, space`path, space`flat, space.pm, space.pm.bitmap, space.memory
      ensures Valid()
      ensures halted <==>
                (ptr == 0 || |old(live)[ptr]| < newSize) && RequestHalts(old(State()), newSize, old(Resources()))
      ensures halted ==> r == 0
      ensures ptr == 0 && !halted ==> Outcome(State(), r) == Allocated(old(State()), newSize, old(Resources()))
      ensures ptr != 0 && newSize <= |old(live)[ptr]| ==> r == ptr && live == old(live) && State() == old(State())
      ensures ptr != 0 && |old(live)[ptr]| < newSize && !halted ==>
                var o := Allocated(old(State()), newSize, old(Resources()));
                r == o.ptr && State() == if r == 0 then o.state else Freed(o.state, ptr)
      ensures r == 0 ==> live == old(live)
      ensures r != 0 ==> r in live && newSize <= |live[r]|
      ensures r != 0 && r != ptr ==> r !in old(live) && live == (old(live) - {ptr})[r := live[r]]
      ensures r != 0 && r != ptr && ptr != 0 ==> live[r][..|old(live)[ptr]|] == old(live)[ptr]
    {
      hide ListIs, LiveIs, Tiled, Shape, Used, Released, Allocated, Freed, RequestHalts, Paged;
      halted := false;
      if ptr == 0 {
        NullNotLive(ram.Image(), blocks, live);
        r, halted := Allocate(newSize);
        return;
      }
      ghost var k := LiveBlock(ram.Image(), blocks, End(), live, ptr);
      var h := ReadBlock(ptr - 48, k);
      if h.size >= newSize {
        return ptr, false;
      }
      r, halted := Allocate(newSize);
      if r == 0 {
        return;
      }
      ghost var moved := live;
      CopyPayload(r, ptr, h.size);
      Free(ptr);
    }
  }

  /** The address space gained exactly the heap's pages `m` to `n - 1`; every other page is as before. */
  ghost predicate PagesBehind(flat: map<nat, nat>, flat': map<nat, nat>, m: nat, n: nat) {
    && (forall w :: w in flat ==> w in flat' && flat'[w] == flat[w])
    && (forall w :: w in flat' ==> w in flat || exists i :: m <= i < n && w == Vmm.PageOf(PageAddr(i)))
  }

  lemma {:induction false} SamePages(flat: map<nat, nat>, m: nat)
    ensures PagesBehind(flat, flat, m, m)
  {
  }

  lemma {:induction false} NothingToMap(env: Env, m: nat)
    ensures Cost(env, m, 0) == 0
  {
  }

  /** A sound heap ends at a page, which is the first unmapped one unless more are mapped. */
  lemma {:induction false} EndIsPage(s: HeapState, first: nat)
    requires Sound(s) && first == s.end / 4096
    ensures s.end == 4096 * first && first <= s.mapped && (4096 * s.mapped <= s.end <==> first == s.mapped)
  {
  }

  /** Within the reach of one table only the first page of the heap lacks tables. */
  lemma {:induction false} CostInTable(env: Env, m: nat, n: nat)
    requires 0 < n && m % 512 + n <= 512 && m + n <= 0x4000
    ensures Vmm.TablesAfter(env.tables, PageAddr(m), n) == Vmm.WithPath(env.tables, Vmm.TablePath(PageAddr(m)))
    ensures Cost(env, m, n) == n + Vmm.Missing(env.tables, Vmm.TablePath(PageAddr(m)))
  {
    hide Vmm.Missing, Vmm.TablePath, Vmm.WithPath;
    CostNext(env, m, n - 1);
    SameTable(m, m + n - 1);
    assert PageAddr(m) + 4096 * (n - 1) == PageAddr(m + (n - 1));
    var ix := Vmm.TablePath(PageAddr(m));
    PathTwice(env.tables, ix);
    if n == 1 {
      assert Vmm.TablesAfter(env.tables, PageAddr(m), 0) == env.tables;
    } else {
      CostInTable(env, m, n - 1);
    }
  }

  lemma {:induction false} PathTwice(tables: set<seq<nat>>, ix: seq<nat>)
    requires |ix| == 3
    ensures Vmm.WithPath(Vmm.WithPath(tables, ix), ix) == Vmm.WithPath(tables, ix)
    ensures Vmm.Missing(Vmm.WithPath(tables, ix), ix) == 0
  {
  }

  lemma {:induction false} SameTable(i: nat, j: nat)
    requires i < 0x4000 && j < 0x4000 && i / 512 == j / 512
    ensures Vmm.TablePath(PageAddr(i)) == Vmm.TablePath(PageAddr(j))
  {
    hide Vmm.PageOf, Vmm.Digits;
    HeapPageOf(i);
    HeapPageOf(j);
    assert (0xA_0000_0000 + i) / 512 == (0xA_0000_0000 + j) / 512;
  }

  /** The first 16 pages of the heap take the tables the first of them lacks. */
  lemma {:induction false} FirstCost(env: Env)
    ensures var lacking := Vmm.Missing(env.tables, Vmm.TablePath(PageAddr(0)));
            Cost(env, 0, 16) == 16 + lacking && (Halts(env, 0, 16) <==> 0 < env.pool < 1 + lacking)
  {
    hide Vmm.Missing, Vmm.TablePath, Supply, Cost;
    CostInTable(env, 0, 16);
    CostInTable(env, 0, 1);
    NothingToMap(env, 0);
    var k := Supply(env, 0);
    SupplyIff(env, 0, 16);
    SupplyIff(env, 0, 1);
    SupplyIff(env, 0, k);
    SupplyIff(env, 0, k + 1);
    if 0 < k < 16 {
      CostInTable(env, 0, k);
      CostInTable(env, 0, k + 1);
    }
  }

  lemma {:induction false} FirstGrowth(env: Env)
    ensures var s, lacking := HeapState([], 0, 0, 0, 0, 0), Vmm.Missing(env.tables, Vmm.TablePath(PageAddr(0)));
            && (CanGrow(s, AlignUp(0x1_0000), env) <==> 16 + lacking <= env.pool)
            && (GrowingHalts(s, AlignUp(0x1_0000), env) <==> 0 < env.pool < 1 + lacking)
            && GrownBy(s, AlignUp(0x1_0000)) == HeapState([Block(0, 65488, true)], 65536, 1, 0, 65488, 16)
  {
    hide Cost, Supply, Halts;
    assert AlignUp(0x1_0000) == 0x1_0000;
    FirstCost(env);
  }

  lemma {:induction false} CopyStep(d: seq<u8>, s: seq<u8>, i: nat)
    requires i < |s| <= |d|
    ensures Overlay(Overlay(d, 0, s[..i]), i, [s[i]]) == Overlay(d, 0, s[..i + 1])
  {
    assert s[..i + 1] == s[..i] + [s[i]];
  }

  lemma {:induction false} GrowthIs(size: nat)
    ensures GrowthFor(size) == AlignUp(if size + 48 < 4096 then 4096 else size + 48)
  {
  }

  /** After growing for a request there is a block for it. */
  lemma {:induction false} GrowthServes(s: HeapState, size: nat, k: nat)
    requires IsFirstFit(GrownBy(s, GrowthFor(size)).blocks, size, k)
    ensures k < |GrownBy(s, GrowthFor(size)).blocks|
  {
    var bs := GrownBy(s, GrowthFor(size)).blocks;
    ExtendedFits(s.blocks, s.end, GrowthFor(size), size);
    assert k == |bs| ==> TooSmall(bs, size, |bs| - 1);
  }

  lemma {:induction false} NullNotLive(m: Image, bs: seq<Block>, live: map<nat, seq<u8>>)
    requires LiveIs(m, bs, live)
    ensures 0 !in live
  {
    forall b: Block
      ensures !OwnerIs(bs, 0, b)
    {
    }
  }

  /** The used block behind a live pointer. */
  lemma {:induction false} LiveBlock(m: Image, bs: seq<Block>, end: nat, live: map<nat, seq<u8>>,
                                     p: nat) returns (k: nat)
    requires LiveIs(m, bs, live) && Tiled(bs, end) && p in live
    ensures k < |bs| && !bs[k].free && p == Ptr(bs[k]) && |live[p]| == bs[k].size
    ensures AtPayload(bs, p - Addr(0), 0) == k
  {
    var b :| OwnerIs(bs, p, b);
    assert Owned(m, live, b);
    k :| 0 <= k < |bs| && bs[k] == b;
    AtPayloadIs(bs, end, k, 0);
  }

  lemma {:induction false} AppendLive(m: Image, m': Image, bs: seq<Block>, end: nat, b: Block, live: map<nat, seq<u8>>)
    requires LiveIs(m, bs, live) && Tiled(bs + [b], end) && end <= |m| && b.free && OnlyHeaders(m, m', bs + [b])
    ensures LiveIs(m', bs + [b], live)
  {
    hide OnlyHeaders, LiveIs, Tiled;
    forall c: Block | !c.free
      ensures c in bs + [b] <==> c in bs
    {
    }
    LiveKept(m, m', bs, bs + [b], end, live);
  }

  /** The header writes of an expansion. */
  method AppendBlock(ram: Ram, p: nat, size: nat, last: nat, ghost bs: seq<Block>, ghost end: nat, ghost b: Block)
    requires ListIs(ram.Image(), bs) && Tiled(bs, end) && Tiled(bs + [b], end + size)
    requires 48 <= size && end + size <= ram.bytes.Length <= HEAP_LIMIT && b == Block(end, size - 48, true)
             && p == Addr(end)
    requires last == if bs == [] then 0 else Addr(bs[|bs| - 1].at)
    modifies ram.bytes
    ensures ListIs(ram.Image(), bs + [b]) && OnlyHeaders(old(ram.Image()), ram.Image(), bs + [b])
  {
    hide OnlyHeaders, ListIs, LiveIs, Tiled, Wrote;
    ghost var m := ram.Image();
    ram.WriteHeader(p, size - 48, true, 0, 0);
    ghost var m1 := ram.Image();
    if last == 0 {
      AppendListed(m, m1, m1, m1, bs, end + size, b);
      return;
    }
    HeaderBefore(m, m1, bs, end, FreshHeader(size - 48));
    LinksInHeap(bs, end, |bs| - 1);
    ram.SetNext(last, p, HeaderFor(bs, |bs| - 1));
    ghost var m2 := ram.Image();
    FreshKept(m1, m2, bs, end, FreshHeader(size - 48), LinkedTo(bs, end));
    ram.SetPrev(p, last, FreshHeader(size - 48));
    AppendListed(m, m1, m2, ram.Image(), bs, end + size, b);
  }

  lemma {:induction false} HeaderBefore(m: Image, m1: Image, bs: seq<Block>, end: nat, h: Header)
    requires ListIs(m, bs) && Tiled(bs, end) && bs != [] && Wrote(m, m1, end, h)
    ensures HeaderIs(m1, bs[|bs| - 1].at, HeaderFor(bs, |bs| - 1))
  {
    HeaderOfBlock(m, bs, |bs| - 1);
    HeaderElsewhere(m, m1, end, bs[|bs| - 1].at, HeaderFor(bs, |bs| - 1));
  }

  lemma {:induction false} FreshKept(m1: Image, m2: Image, bs: seq<Block>, end: nat, h: Header, h': Header)
    requires Tiled(bs, end) && bs != [] && HeaderIs(m1, end, h) && Wrote(m1, m2, bs[|bs| - 1].at, h')
    ensures HeaderIs(m2, end, h)
  {
    HeaderElsewhere(m1, m2, bs[|bs| - 1].at, end, h);
  }

  lemma {:induction false} MergeLive(m: Image, m': Image, bs: seq<Block>, end: nat, k: nat, live: map<nat, seq<u8>>)
    requires LiveIs(m, bs, live) && Tiled(bs, end) && end <= |m| && k < |bs| && OnlyHeaders(m, m', Merge(bs, k))
    requires k + 1 < |bs| && bs[k + 1].free ==> bs[k].free
    ensures Tiled(Merge(bs, k), end) && Merge(bs, k) != [] && LiveIs(m', Merge(bs, k), live)
  {
    hide OnlyHeaders, LiveIs, Tiled;
    MergeTiled(bs, end, k);
    forall b: Block | !b.free
      ensures b in Merge(bs, k) <==> b in bs
    {
      MergeMembers(bs, k, b);
    }
    LiveKept(m, m', bs, Merge(bs, k), end, live);
  }

  lemma {:induction false} FreePtrNotLive(m: Image, bs: seq<Block>, end: nat, k: nat, live: map<nat, seq<u8>>)
    requires LiveIs(m, bs, live) && Tiled(bs, end) && k < |bs| && bs[k].free
    ensures Ptr(bs[k]) !in live
  {
    if Ptr(bs[k]) in live {
      var b :| OwnerIs(bs, Ptr(bs[k]), b);
      SamePtr(bs, end, b, bs[k]);
    }
  }

  lemma {:induction false} TakenLive(m: Image, m': Image, bs: seq<Block>, end: nat, k: nat, live: map<nat, seq<u8>>)
    requires LiveIs(m, bs, live) && Tiled(bs, end) && end <= |m| && k < |bs| && bs[k].free
    requires OnlyHeaders(m, m', SetFree(bs, k, false))
    ensures Tiled(SetFree(bs, k, false), end) && Ptr(bs[k]) !in live && HeapBlocks.End(bs[k]) <= |m'|
    ensures LiveIs(m', SetFree(bs, k, false), live[Ptr(bs[k]) := PayloadBytes(m', bs[k])])
  {
    hide OnlyHeaders, LiveIs, Tiled;
    var bs', t := SetFree(bs, k, false), bs[k].(free := false);
    SetFreeTiled(bs, end, k, false);
    FreePtrNotLive(m, bs, end, k, live);
    assert bs'[k] == t && t in bs';
    forall b: Block | !b.free
      ensures b in bs' <==> b in bs || b == t
    {
      MarkedTaken(bs, k, b);
    }
    LiveTaken(m, m', bs, bs', end, live, t);
  }

  lemma {:induction false} MarkedTaken(bs: seq<Block>, k: nat, b: Block)
    requires k < |bs| && bs[k].free && !b.free
    ensures b in SetFree(bs, k, false) <==> b in bs || b == bs[k].(free := false)
  {
    var bs' := SetFree(bs, k, false);
    if b in bs {
      var j :| 0 <= j < |bs| && bs[j] == b;
      assert bs'[j] == b;
    }
    assert bs'[k] == bs[k].(free := false);
    forall j | 0 <= j < |bs|
      ensures bs'[j] in bs || bs'[j] == bs[k].(free := false)
    {
    }
  }

  lemma {:induction false} ReleasedLive(m: Image, m': Image, bs: seq<Block>, end: nat, k: nat, live: map<nat, seq<u8>>)
    requires LiveIs(m, bs, live) && Tiled(bs, end) && end <= |m| && k < |bs| && !bs[k].free
    requires OnlyHeaders(m, m', SetFree(bs, k, true))
    ensures Tiled(SetFree(bs, k, true), end) && LiveIs(m', SetFree(bs, k, true), live - {Ptr(bs[k])})
  {
    hide OnlyHeaders, LiveIs, Tiled;
    SetFreeTiled(bs, end, k, true);
    forall b: Block | !b.free
      ensures b in SetFree(bs, k, true) <==> b in bs && b != bs[k]
    {
      MarkedMembers(bs, end, k, b);
    }
    LiveReleased(m, m', bs, SetFree(bs, k, true), end, live, bs[k]);
  }

  /** The header writes of a merge. */
  method JoinBlocks(ram: Ram, p: nat, size: nat, next: nat, ghost bs: seq<Block>, ghost end: nat, ghost k: nat)
    requires ListIs(ram.Image(), bs) && Tiled(bs, end) && end <= ram.bytes.Length <= HEAP_LIMIT
    requires k + 1 < |bs| && p == Addr(bs[k].at) && bs[k + 1].free
    requires size == bs[k].size + 48 + bs[k + 1].size && next == NextPtr(bs, k + 1)
    modifies ram.bytes
    ensures ListIs(ram.Image(), Merge(bs, k)) && OnlyHeaders(old(ram.Image()), ram.Image(), Merge(bs, k))
  {
    hide OnlyHeaders, ListIs, LiveIs, Tiled, Wrote;
    ghost var m := ram.Image();
    HeaderOfBlock(m, bs, k);
    LinksInHeap(bs, end, k);
    LinksInHeap(bs, end, k + 1);
    ram.SetSizeAndNext(p, size, next, HeaderFor(bs, k));
    ghost var m1 := ram.Image();
    HeaderBeyond(m, m1, bs, end, k, k + 2);
    ram.LinkBack(next, p, bs, k + 2);
    MergeListed(m, m1, ram.Image(), bs, end, k);
  }

  lemma {:induction false} HeaderOfBlock(m: Image, bs: seq<Block>, k: nat)
    requires ListIs(m, bs) && k < |bs|
    ensures HeaderIs(m, bs[k].at, HeaderFor(bs, k))
  {
    HeaderAt(bs, |bs|, k);
    assert Headed(m, bs, HeadersOf(bs), k);
  }

  /** A rewritten header leaves a later one alone. */
  lemma {:induction false} HeaderBeyond(m: Image, m1: Image, bs: seq<Block>, end: nat, k: nat, j: nat)
    requires ListIs(m, bs) && Tiled(bs, end) && k < j && k < |bs| && Outside(m, m1, bs[k].at)
    ensures j < |bs| ==> HeaderIs(m1, bs[j].at, HeaderFor(bs, j))
  {
    if j < |bs| {
      HeaderOfBlock(m, bs, j);
      Ordered(bs, end, k, j);
      HeaderElsewhere(m, m1, bs[k].at, bs[j].at, HeaderFor(bs, j));
    }
  }

  lemma {:induction false} LinksInHeap(bs: seq<Block>, end: nat, k: nat)
    requires Tiled(bs, end) && k < |bs|
    ensures NextPtr(bs, k) <= Addr(end) && PrevPtr(bs, k) <= Addr(end) && HeapBlocks.End(bs[k]) <= end
  {
    InsideHeap(bs, end, k);
    if k + 1 < |bs| {
      InsideHeap(bs, end, k + 1);
    }
    if k > 0 {
      InsideHeap(bs, end, k - 1);
    }
  }

  /** The header writes of a split. */
  method CutBlock(ram: Ram, p: nat, size: nat, remaining: nat, next: nat, ghost bs: seq<Block>, ghost end: nat,
                  ghost k: nat)
    requires ListIs(ram.Image(), bs) && Tiled(bs, end) && end <= ram.bytes.Length <= HEAP_LIMIT
    requires k < |bs| && p == Addr(bs[k].at) && bs[k].free && next == NextPtr(bs, k)
    requires 16 <= size && size % 16 == 0 && size + 64 < bs[k].size && remaining == bs[k].size - size
    modifies ram.bytes
    ensures ListIs(ram.Image(), Split(bs, k, size)) && OnlyHeaders(old(ram.Image()), ram.Image(), Split(bs, k, size))
  {
    hide OnlyHeaders, ListIs, LiveIs, Tiled, Wrote;
    ghost var m := ram.Image();
    ghost var m1 := PlaceBehind(ram, p, size, remaining, next, bs, end, k);
    ghost var m2 := ram.Image();
    SplitReaches2(m, m1, m2, bs, end, k, size);
    LinksInHeap(bs, end, k);
    ram.SetNextAndSize(p, p + 48 + size, size, HeaderFor(bs, k));
    SplitListed(m, m1, m2, ram.Image(), bs, end, k, size);
  }

  /** Writes the header behind the request and links the next block back to it. */
  method PlaceBehind(ram: Ram, p: nat, size: nat, remaining: nat, next: nat,
                     ghost bs: seq<Block>, ghost end: nat, ghost k: nat) returns (ghost m1: Image)
    requires ListIs(ram.Image(), bs) && Tiled(bs, end) && end <= ram.bytes.Length <= HEAP_LIMIT
    requires k < |bs| && p == Addr(bs[k].at) && next == NextPtr(bs, k)
    requires size + 64 < bs[k].size && remaining == bs[k].size - size
    modifies ram.bytes
    ensures Wrote(old(ram.Image()), m1, bs[k].at + 48 + size, NewHeader(bs, k, size))
    ensures MaybeWrote(m1, ram.Image(), bs, k + 1, BackLinked(bs, k + 1, bs[k].at + 48 + size))
  {
    ghost var m := ram.Image();
    LinksInHeap(bs, end, k);
    var newBlock := p + 48 + size;
    ram.WriteHeader(newBlock, remaining - 48, true, next, p);
    m1 := ram.Image();
    SplitReachesNext(m, m1, bs, end, k, size);
    ram.LinkBack(next, newBlock, bs, k + 1);
  }

  /** After the new header is written, the old headers are still there. */
  lemma {:induction false} SplitReaches(m: Image, m1: Image, bs: seq<Block>, end: nat, k: nat, size: nat, j: nat)
    requires ListIs(m, bs) && Tiled(bs, end) && k < |bs| && size + 64 < bs[k].size && j < |bs|
    requires Outside(m, m1, bs[k].at + 48 + size)
    ensures HeaderIs(m1, bs[j].at, HeaderFor(bs, j))
  {
    HeaderOfBlock(m, bs, j);
    if j < k {
      Ordered(bs, end, j, k);
    } else if k < j {
      Ordered(bs, end, k, j);
    }
    HeaderElsewhere(m, m1, bs[k].at + 48 + size, bs[j].at, HeaderFor(bs, j));
  }

  lemma {:induction false} SplitReachesNext(m: Image, m1: Image, bs: seq<Block>, end: nat, k: nat, size: nat)
    requires ListIs(m, bs) && Tiled(bs, end) && k < |bs| && size + 64 < bs[k].size
    requires Outside(m, m1, bs[k].at + 48 + size)
    ensures k + 1 < |bs| ==> HeaderIs(m1, bs[k + 1].at, HeaderFor(bs, k + 1))
  {
    if k + 1 < |bs| {
      SplitReaches(m, m1, bs, end, k, size, k + 1);
    }
  }

  lemma {:induction false} SplitReaches2(m: Image, m1: Image, m2: Image, bs: seq<Block>, end: nat, k: nat, size: nat)
    requires ListIs(m, bs) && Tiled(bs, end) && k < |bs| && size + 64 < bs[k].size
    requires Outside(m, m1, bs[k].at + 48 + size)
    requires MaybeWrote(m1, m2, bs, k + 1, BackLinked(bs, k + 1, bs[k].at + 48 + size))
    ensures HeaderIs(m2, bs[k].at, HeaderFor(bs, k))
  {
    SplitReaches(m, m1, bs, end, k, size, k);
    if k + 1 < |bs| {
      Ordered(bs, end, k, k + 1);
      HeaderElsewhere(m1, m2, bs[k + 1].at, bs[k].at, HeaderFor(bs, k));
    }
  }

  lemma {:induction false} SplitLive(m: Image, m': Image, bs: seq<Block>, end: nat, k: nat, size: nat,
                                     live: map<nat, seq<u8>>)
    requires LiveIs(m, bs, live) && Tiled(bs, end) && end <= |m| && k < |bs| && bs[k].free
    requires 16 <= size <= bs[k].size && size % 16 == 0 && OnlyHeaders(m, m', Split(bs, k, size))
    ensures Tiled(Split(bs, k, size), end) && Split(bs, k, size) != [] && LiveIs(m', Split(bs, k, size), live)
  {
    hide OnlyHeaders, LiveIs, Tiled;
    SplitTiled(bs, end, k, size);
    forall b: Block | !b.free
      ensures b in Split(bs, k, size) <==> b in bs
    {
      SplitMembers(bs, k, size, b);
    }
    LiveKept(m, m', bs, Split(bs, k, size), end, live);
  }
}
