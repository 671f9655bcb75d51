/** What the heap keeps over every run of requests and releases. */
module HeapLaws {
  import opened Bytes
  import opened HeapBlocks
  import opened HeapImage
  import opened HeapPages
  import opened Heap
  import Vmm

  // ---------------------------------------------------------------- single calls

  /** No block before the one taken fits the request. */
  lemma {:induction false} FirstFitIsLowest(bs: seq<Block>, size: nat, i: nat, j: nat)
    requires i <= j < |bs| && j < FirstFit(bs, size, i)
    ensures !Fits(bs[j], size)
    decreases j - i
  {
    if i < j {
      FirstFitIsLowest(bs, size, i + 1, j);
    }
  }

  /** A growth for a request is enough for it. */
  lemma {:induction false} GrownFits(s: HeapState, size: nat)
    ensures FirstFit(GrownBy(s, GrowthFor(size)).blocks, size, 0) < |GrownBy(s, GrowthFor(size)).blocks|
  {
    var bs := GrownBy(s, GrowthFor(size)).blocks;
    ExtendedFits(s.blocks, s.end, GrowthFor(size), size);
    if FirstFit(bs, size, 0) == |bs| {
      FirstFitIsLowest(bs, size, 0, |bs| - 1);
    }
  }

  /** A request is served exactly when it is not empty and some block fits it or the heap
      can grow for it. */
  lemma {:induction false} ServedIff(s: HeapState, size: nat, env: Env)
    ensures Allocated(s, size, env).ptr != 0 <==>
            && size > 0
            && (FirstFit(s.blocks, AlignUp16(size), 0) < |s.blocks| || CanGrow(s, GrowthFor(AlignUp16(size)), env))
  {
    GrownFits(s, AlignUp16(size));
  }

  lemma {:induction false} TakeFirstSound(s: HeapState, size: nat)
    requires Sound(s) && 16 <= size && size % 16 == 0
    ensures Sound(TakeFirst(s, size).state) && TakeFirst(s, size).state.end == s.end
  {
    var k := FirstFit(s.blocks, size, 0);
    if k < |s.blocks| {
      TakenSound(s, k, size);
    }
  }

  lemma {:induction false} AllocatedSound(s: HeapState, size: nat, env: Env)
    requires Sound(s)
    ensures Sound(Allocated(s, size, env).state)
  {
    hide Sound, TakeFirst;
    var r := AlignUp16(size);
    if size > 0 {
      if FirstFit(s.blocks, r, 0) < |s.blocks| {
        TakeFirstSound(s, r);
      } else if CanGrow(s, GrowthFor(r), env) {
        GrownSound(s, GrowthFor(r));
        TakeFirstSound(GrownBy(s, GrowthFor(r)), r);
      } else {
        MoreMapped(s, MappedAfterFailure(s, GrowthFor(r), env));
      }
    }
  }

  /** Giving back what a request returned undoes everything but a growth of the heap:
      blocks, bytes in use and both counters. */
  lemma {:induction false} FreeUndoesAllocate(s: HeapState, size: nat, env: Env)
    requires Sound(s) && Allocated(s, size, env).ptr != 0
    ensures var o := Allocated(s, size, env);
            Freed(o.state, o.ptr) ==
            if FirstFit(s.blocks, AlignUp16(size), 0) < |s.blocks| then s else GrownBy(s, GrowthFor(AlignUp16(size)))
  {
    hide Sound, TakeFirst, Freed;
    var r := AlignUp16(size);
    if FirstFit(s.blocks, r, 0) < |s.blocks| {
      TakeFirstUndone(s, r);
    } else {
      GrownSound(s, GrowthFor(r));
      GrownFits(s, r);
      TakeFirstUndone(GrownBy(s, GrowthFor(r)), r);
    }
  }

  lemma {:induction false} TakeFirstUndone(s: HeapState, size: nat)
    requires Sound(s) && 16 <= size && size % 16 == 0 && FirstFit(s.blocks, size, 0) < |s.blocks|
    ensures Freed(TakeFirst(s, size).state, TakeFirst(s, size).ptr) == s
  {
    hide Tiled, Coalesced, Used, Released;
    var k := FirstFit(s.blocks, size, 0);
    var t := Taken(s.blocks, k, size);
    TakenSound(s, k, size);
    TakenShape(s.blocks, s.end, k, size);
    assert t[k].at == s.blocks[k].at;
    AtPayloadIs(t, s.end, k, 0);
    ReleaseUndoesTake(s.blocks, s.end, k, size);
    CountersFit(s);
    InsideHeap(t, s.end, k);
  }

  /** Once everything is given back, one free block spans the whole heap. */
  lemma {:induction false} EmptyHeapIsOneBlock(s: HeapState)
    requires Sound(s) && s.end > 0
    ensures s.used == 0 <==> s.blocks == [Block(0, s.end - 48, true)]
  {
    NothingUsedIff(s.blocks);
    if s.used == 0 {
      AllFreeIsOne(s.blocks, s.end);
    }
  }

  /** The free counter is the number of bytes in free payloads exactly when the heap has
      as many blocks as it has grown times: splits and merges move headers into and out of
      the free space without being counted. */
  lemma {:induction false} FreeCounterExactIff(s: HeapState)
    requires Sound(s)
    ensures s.free == Free(s.blocks) <==> |s.blocks| == s.grown
  {
    SumsTile(s.blocks, s.end);
  }

  /** It has wrapped below zero exactly when headers and used payloads, counting one
      header for each growth, exceed the heap. */
  lemma {:induction false} FreeCounterWrapsIff(s: HeapState)
    requires Sound(s)
    ensures s.free > HEAP_LIMIT <==> s.used + 48 * s.grown > s.end
  {
    UsedBound(s.blocks, s.end);
  }

  // ---------------------------------------------------------------- runs

  datatype Event = Request(size: nat, env: Env) | Release(ptr: nat)

  /** A client gives back only live pointers, or none; a run ends before a request that
      halts the kernel. */
  ghost predicate Allowed(s: HeapState, e: Event) {
    match e
    case Request(size, env) => !RequestHalts(s, size, env)
    case Release(ptr) =>
      ptr != 0 ==>
        var k := AtPayload(s.blocks, ptr - Addr(0), 0);
        k < |s.blocks| && !s.blocks[k].free
  }

  ghost function Step(s: HeapState, e: Event): HeapState {
    match e
    case Request(size, env) => Allocated(s, size, env).state
    case Release(ptr) => Freed(s, ptr)
  }

  ghost predicate StepAt(ss: seq<HeapState>, es: seq<Event>, i: nat)
    requires i < |es| && i + 1 < |ss|
  {
    Allowed(ss[i], es[i]) && ss[i + 1] == Step(ss[i], es[i])
  }

  /** A run: the states a sequence of calls goes through. */
  ghost predicate Run(ss: seq<HeapState>, es: seq<Event>) {
    |ss| == |es| + 1 && forall i :: 0 <= i < |es| ==> StepAt(ss, es, i)
  }

  lemma {:induction false} StepSound(s: HeapState, e: Event)
    requires Sound(s) && Allowed(s, e)
    ensures Sound(Step(s, e))
  {
    hide Sound, Released, Allocated;
    match e
    case Request(size, env) => AllocatedSound(s, size, env);
    case Release(ptr) =>
      var k := AtPayload(s.blocks, ptr - Addr(0), 0);
      if ptr != 0 && k < |s.blocks| {
        ReleasedSound(s, k);
      }
  }

  /** Every heap a run reaches is sound: blocks tile it and no two neighbours are free. */
  lemma {:induction false} RunSound(ss: seq<HeapState>, es: seq<Event>, n: nat)
    requires Run(ss, es) && Sound(ss[0]) && n <= |es|
    ensures Sound(ss[n])
  {
    hide Sound, Step, Allowed;
    if n > 0 {
      RunSound(ss, es, n - 1);
      StepHere(ss, es, n - 1);
      StepSound(ss[n - 1], es[n - 1]);
    }
  }

  lemma {:induction false} StepHere(ss: seq<HeapState>, es: seq<Event>, i: nat)
    requires Run(ss, es) && i < |es|
    ensures Allowed(ss[i], es[i]) && ss[i + 1] == Step(ss[i], es[i])
  {
    assert StepAt(ss, es, i);
  }

  /** Over every run the two counters and a header for each growth add up to the heap,
      modulo 2^64, and the used counter is the sum of the used payloads. */
  lemma {:induction false} RunConserves(ss: seq<HeapState>, es: seq<Event>)
    requires Run(ss, es) && Sound(ss[0])
    ensures var s := ss[|es|];
            && s.used == Used(s.blocks)
            && (s.used + s.free + 48 * s.grown - s.end) % U64_LIMIT == 0
            && s.used + Free(s.blocks) + 48 * |s.blocks| == s.end
  {
    RunSound(ss, es, |es|);
    CountersModulo(ss[|es|]);
    SumsTile(ss[|es|].blocks, ss[|es|].end);
  }

  lemma {:induction false} CountersModulo(s: HeapState)
    requires Sound(s)
    ensures (s.used + s.free + 48 * s.grown - s.end) % U64_LIMIT == 0
  {
    var d := s.used + s.free + 48 * s.grown - s.end;
    assert d == 0 || d == 0x1_0000_0000_0000_0000;
  }

  /** A used block that is not given back stays where it is, with its size. */
  lemma {:induction false} RunKeepsBlock(ss: seq<HeapState>, es: seq<Event>, b: Block)
    requires Run(ss, es) && Sound(ss[0]) && b in ss[0].blocks && !b.free
    requires forall i :: 0 <= i < |es| ==> es[i] != Release(Ptr(b))
    ensures b in ss[|es|].blocks
  {
    KeepsBlockTo(ss, es, b, |es|);
  }

  lemma {:induction false} KeepsBlockTo(ss: seq<HeapState>, es: seq<Event>, b: Block, n: nat)
    requires Run(ss, es) && Sound(ss[0]) && b in ss[0].blocks && !b.free && n <= |es|
    requires forall i :: 0 <= i < |es| ==> es[i] != Release(Ptr(b))
    ensures b in ss[n].blocks
  {
    hide Sound, Step, Allowed;
    if n > 0 {
      KeepsBlockTo(ss, es, b, n - 1);
      RunSound(ss, es, n - 1);
      StepHere(ss, es, n - 1);
      StepKeepsBlock(ss[n - 1], es[n - 1], b);
    }
  }

  lemma {:induction false} StepKeepsBlock(s: HeapState, e: Event, b: Block)
    requires Sound(s) && Allowed(s, e) && b in s.blocks && !b.free && e != Release(Ptr(b))
    ensures b in Step(s, e).blocks
  {
    hide Tiled, Coalesced, Used, Released, Split, Taken, Extended, FirstFit;
    match e
    case Request(size, env) =>
      var r := AlignUp16(size);
      if size > 0 {
        if FirstFit(s.blocks, r, 0) < |s.blocks| {
          TakeKeepsBlock(s, r, b);
        } else if CanGrow(s, GrowthFor(r), env) {
          GrownSound(s, GrowthFor(r));
          ExtendedMembers(s.blocks, s.end, GrowthFor(r), b);
          TakeKeepsBlock(GrownBy(s, GrowthFor(r)), r, b);
        }
      }
    case Release(ptr) =>
      var k := AtPayload(s.blocks, ptr - Addr(0), 0);
      if ptr != 0 && k < |s.blocks| {
        ReleasedMembers(s.blocks, s.end, k, b);
      }
  }

  lemma {:induction false} TakeKeepsBlock(s: HeapState, size: nat, b: Block)
    requires Sound(s) && 16 <= size && size % 16 == 0 && b in s.blocks && !b.free
    ensures b in TakeFirst(s, size).state.blocks
  {
    var k := FirstFit(s.blocks, size, 0);
    if k < |s.blocks| {
      TakenMembers(s.blocks, s.end, k, size, b);
    }
  }

  // ---------------------------------------------------------------- a failed growth

  /** Pages are mapped behind the end of the heap: what a growth that ran out of pages
      leaves behind. */
  ghost predicate Stuck(s: HeapState) { 4096 * s.mapped > s.end }

  /** A request leaves pages mapped behind the heap exactly when it needs to grow, the
      limit allows that, and the page allocator has some but not enough pages for the
      growth and its tables. */
  lemma {:induction false} GetsStuckIff(s: HeapState, size: nat, env: Env)
    requires Sound(s) && !Stuck(s) && !RequestHalts(s, size, env)
    ensures Stuck(Allocated(s, size, env).state) <==>
            && size > 0 && FirstFit(s.blocks, AlignUp16(size), 0) == |s.blocks|
            && s.end + GrowthFor(AlignUp16(size)) <= HEAP_LIMIT
            && 0 < env.pool < Cost(env, s.mapped, GrowthFor(AlignUp16(size)) / 4096)
  {
    hide FirstFit, Taken, Extended, Cost, Supply, AlignUp16, GrowthFor;
    var r := AlignUp16(size);
    var n := GrowthFor(r) / 4096;
    WholePages(GrowthFor(r));
    WholePages(s.end);
    SupplyIff(env, s.mapped, n);
    SupplyIff(env, s.mapped, Supply(env, s.mapped));
    NothingToMap(env, s.mapped);
    CostMono(env, s.mapped, 0, Supply(env, s.mapped));
  }

  /** What it means for the address space: the page at the end of the heap is mapped. */
  lemma {:induction false} StuckIsMapped(s: HeapState, flat: map<nat, nat>)
    requires Sound(s) && s.end < HEAP_LIMIT && HeapMapped(flat, s.mapped)
    ensures Stuck(s) <==> Vmm.PageOf(Addr(s.end)) in flat
  {
    EndIsPage(s, s.end / 4096);
    assert HeapPageAt(flat, s.mapped, s.end / 4096);
    assert Addr(s.end) == PageAddr(s.end / 4096);
  }

  /** The first heap, asked for 65536 bytes with five free pages: five of the 17 it would need
      are mapped, and it never grows again. */
  lemma {:induction false} GetsStuck()
    ensures var s := HeapState([Block(0, 65488, true)], 65536, 1, 0, 65488, 16);
            var env := Env(5, Vmm.WithPath({}, Vmm.TablePath(PageAddr(0))));
            && Sound(s) && !Stuck(s) && !RequestHalts(s, 65536, env)
            && Allocated(s, 65536, env) == Outcome(s.(mapped := 21), 0) && Stuck(s.(mapped := 21))
  {
    hide Cost, Supply, Vmm.WithPath, Vmm.TablePath, Vmm.Missing;
    var s := HeapState([Block(0, 65488, true)], 65536, 1, 0, 65488, 16);
    var ix := Vmm.TablePath(PageAddr(0));
    var env := Env(5, Vmm.WithPath({}, ix));
    StartSound(s);
    assert FirstFit(s.blocks, 65536, 0) == 1;
    assert GrowthFor(65536) == 69632;
    PathTwice({}, ix);
    SameTable(0, 16);
    CostInTable(env, 16, 5);
    CostInTable(env, 16, 6);
    CostInTable(env, 16, 17);
    SupplyIff(env, 16, 5);
    SupplyIff(env, 16, 6);
  }

  lemma {:induction false} WholePages(x: nat)
    requires x % 4096 == 0
    ensures 4096 * (x / 4096) == x
  {
  }

  /** From then on the heap never grows again, in any run. */
  lemma {:induction false} StuckForever(ss: seq<HeapState>, es: seq<Event>, n: nat)
    requires Run(ss, es) && Stuck(ss[0]) && n <= |es|
    ensures Stuck(ss[n]) && ss[n].end == ss[0].end && ss[n].mapped == ss[0].mapped && ss[n].grown == ss[0].grown
  {
    hide Allowed, Taken, Released, FirstFit;
    if n > 0 {
      StuckForever(ss, es, n - 1);
      StepHere(ss, es, n - 1);
    }
  }

  // ---------------------------------------------------------------- a counter that wraps

  /** A heap that grew, was emptied and is then taken whole reports 2^64 - 48 free bytes:
      one header for each of its two growths was charged, but only one is left. */
  lemma {:induction false} FreeCounterWraps()
    ensures var s0 := HeapState([Block(0, 65488, true)], 65536, 1, 0, 65488, 16);
            var env := Env(17, Vmm.WithPath({}, Vmm.TablePath(PageAddr(0))));
            var s1 := Allocated(s0, 65536, env);
            var s2 := Freed(s1.state, s1.ptr);
            var s3 := Allocated(s2, 135120, env);
            Sound(s0) && s1.ptr != 0 && s3.ptr != 0 && s3.state.free == U64_LIMIT - 48
  {
    hide Cost, Vmm.WithPath, Vmm.TablePath, Vmm.Missing;
    var s0 := HeapState([Block(0, 65488, true)], 65536, 1, 0, 65488, 16);
    StartSound(s0);
    assert FirstFit(s0.blocks, 65536, 0) == 1;
    assert GrowthFor(65536) == 69632;
    var g := GrownBy(s0, 69632);
    assert g.blocks == [Block(0, 135120, true)];
    assert g == HeapState([Block(0, 135120, true)], 135168, 2, 0, 135072, 33);
    var ix := Vmm.TablePath(PageAddr(0));
    var env := Env(17, Vmm.WithPath({}, ix));
    PathTwice({}, ix);
    SameTable(0, 16);
    CostInTable(env, 16, 17);
    FreeUndoesAllocate(s0, 65536, env);
    ServedIff(s0, 65536, env);
    assert FirstFit(g.blocks, 135120, 0) == 0;
  }

  lemma {:induction false} StartSound(s: HeapState)
    requires s == HeapState([Block(0, 65488, true)], 65536, 1, 0, 65488, 16)
    ensures Sound(s)
  {
    assert s.blocks[1..] == [];
  }
}
