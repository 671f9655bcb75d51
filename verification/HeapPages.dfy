/** The pages behind the heap: taken from the page allocator and mapped one by one. */
module HeapPages {
  import opened Vmm

  /** Address of the i-th page of the heap. */
  function PageAddr(i: nat): nat { 0xFFFF_A000_0000_0000 + 4096 * i }

  ghost predicate HeapPageAt(flat: map<nat, nat>, mapped: nat, i: nat) {
    PageOf(PageAddr(i)) in flat <==> i < mapped
  }

  /** Of the pages the heap may grow to, exactly the first `mapped` are mapped. */
  ghost predicate HeapMapped(flat: map<nat, nat>, mapped: nat) {
    mapped <= 0x4000 && forall i: nat :: i < 0x4000 ==> HeapPageAt(flat, mapped, i)
  }

  lemma {:induction false} HeapPageOf(i: nat)
    requires i < 0x4000
    ensures PageOf(PageAddr(i)) == 0xA_0000_0000 + i
  {
    PageOfHigh(PageAddr(i));
    assert PageAddr(i) / 4096 == 0xF_FFFA_0000_0000 + i;
  }

  /** Mapping the next page of the heap. */
  lemma {:induction false} HeapMappedNext(flat: map<nat, nat>, mapped: nat, e: nat)
    requires HeapMapped(flat, mapped) && mapped < 0x4000
    ensures HeapMapped(flat[PageOf(PageAddr(mapped)) := e], mapped + 1)
  {
    var flat', more := flat[PageOf(PageAddr(mapped)) := e], mapped + 1;
    forall i: nat | i < 0x4000
      ensures HeapPageAt(flat', more, i)
    {
      HeapPageOf(i);
      HeapPageOf(mapped);
      assert HeapPageAt(flat, mapped, i);
    }
  }

  /** The entry of the i-th page of the heap. */
  function HeapEntry(flat: map<nat, nat>, i: nat): nat
    requires PageOf(PageAddr(i)) in flat
  {
    flat[PageOf(PageAddr(i))]
  }

  /** The i-th page of the heap is mapped, writable, to a used physical page that is no table. */
  ghost predicate Backed(flat: map<nat, nat>, used: seq<bool>, path: map<nat, seq<nat>>, i: nat) {
    && PageOf(PageAddr(i)) in flat && Writable(HeapEntry(flat, i))
    && var f := FrameOf(HeapEntry(flat, i)); f < |used| && used[f] && f !in path
  }

  /** Two pages of the heap are mapped to different physical pages. */
  ghost predicate FramesDiffer(flat: map<nat, nat>, i: nat, j: nat) {
    && PageOf(PageAddr(i)) in flat && PageOf(PageAddr(j)) in flat
    && FrameOf(HeapEntry(flat, i)) != FrameOf(HeapEntry(flat, j))
  }

  /** Each of the first `n` pages of the heap has a physical page of its own. */
  ghost predicate AllBacked(flat: map<nat, nat>, used: seq<bool>, path: map<nat, seq<nat>>, n: nat) {
    && (forall i :: 0 <= i < n ==> Backed(flat, used, path, i))
    && forall i, j :: 0 <= i < j < n ==> FramesDiffer(flat, i, j)
  }

  /** The i-th page of the heap is mapped to a physical page that was free. */
  ghost predicate FromFree(flat: map<nat, nat>, used: seq<bool>, i: nat) {
    PageOf(PageAddr(i)) in flat && FrameOf(HeapEntry(flat, i)) < |used| && !used[FrameOf(HeapEntry(flat, i))]
  }

  /** A page of the heap stays backed while entries stay and only free pages become tables. */
  lemma {:induction false} BackedStays(flat: map<nat, nat>, used: seq<bool>, path: map<nat, seq<nat>>,
                                       flat': map<nat, nat>, used': seq<bool>, path': map<nat, seq<nat>>, i: nat)
    requires Backed(flat, used, path, i) && TablesTaken(used, path, used', path')
    requires PageOf(PageAddr(i)) in flat' && HeapEntry(flat', i) == HeapEntry(flat, i)
    ensures Backed(flat', used', path', i)
  {
    hide PageOf, FrameOf, Writable;
    assert TableTaken(used, path, used', path', FrameOf(HeapEntry(flat, i)));
  }

  /** No page was given back. */
  ghost predicate StaysUsed(used: seq<bool>, used': seq<bool>) {
    |used'| == |used| && forall p :: 0 <= p < |used| ==> used[p] ==> used'[p]
  }

  /** Page `p` was taken, then free pages for tables: pages backed before stay so. */
  lemma {:induction false} BackedWithout(flat: map<nat, nat>, used: seq<bool>, path: map<nat, seq<nat>>,
                                         used': seq<bool>, path': map<nat, seq<nat>>, n: nat, p: nat)
    requires AllBacked(flat, used, path, n) && p < |used|
    requires TablesTaken(used[p := true], path, used', path')
    ensures AllBacked(flat, used', path', n) && StaysUsed(used, used')
  {
    hide PageOf, FrameOf, Writable, HeapEntry;
    var used1 := used[p := true];
    forall i | 0 <= i < n
      ensures Backed(flat, used', path', i)
    {
      assert Backed(flat, used, path, i);
      BackedStays(flat, used1, path, flat, used', path', i);
    }
    forall q | 0 <= q < |used|
      ensures used[q] ==> used'[q]
    {
      assert TableTaken(used1, path, used', path', q);
    }
  }

  /** The page taken now backs the next page of the heap. */
  lemma {:induction false} BackedNext(flat: map<nat, nat>, used: seq<bool>, path: map<nat, seq<nat>>,
                                      flat': map<nat, nat>, used': seq<bool>, path': map<nat, seq<nat>>, n: nat, p: nat)
    requires AllBacked(flat, used, path, n) && p < |used| && !used[p] && p !in path
    requires TablesTaken(used[p := true], path, used', path')
    requires PageOf(PageAddr(n)) !in flat && flat'.Keys == flat.Keys + {PageOf(PageAddr(n))}
    requires forall w :: w in flat ==> w in flat' && flat'[w] == flat[w]
    requires FrameOf(HeapEntry(flat', n)) == p && Writable(HeapEntry(flat', n))
    ensures AllBacked(flat', used', path', n + 1) && FromFree(flat', used, n)
  {
    hide PageOf, FrameOf, Writable;
    var used1, more := used[p := true], n + 1;
    assert TableTaken(used1, path, used', path', p);
    BackedWithout(flat, used, path, used', path', n, p);
    forall i | 0 <= i < more
      ensures Backed(flat', used', path', i)
    {
      assert i < n ==> Backed(flat, used', path', i);
    }
    forall i, j | 0 <= i < j < more
      ensures FramesDiffer(flat', i, j)
    {
      assert Backed(flat, used, path, i);
      assert j < n ==> FramesDiffer(flat, i, j);
    }
  }

  /** What was free later was free before, and entries stay. */
  lemma {:induction false} FromFreeStays(flat: map<nat, nat>, used: seq<bool>, flat': map<nat, nat>,
                                         used': seq<bool>, i: nat)
    requires StaysUsed(used, used') && (FromFree(flat, used, i) || FromFree(flat, used', i))
    requires forall w :: w in flat ==> w in flat' && flat'[w] == flat[w]
    ensures FromFree(flat', used, i)
  {
    hide PageOf, FrameOf;
  }

  /** The entry of a heap page names the page taken for it. */
  lemma {:induction false} HeapPte(p: nat)
    requires p < 0x100_0000_0000
    ensures FrameOf(Pte(4096 * p, PTE_WRITABLE)) == p && Writable(Pte(4096 * p, PTE_WRITABLE))
  {
    hide Pte, FrameOf;
    FrameOfPage(p);
    FrameOfIsField(PTE_WRITABLE);
    PteFrameIff(4096 * p, PTE_WRITABLE);
    PteFields(4096 * p, PTE_WRITABLE);
  }

  // ---------------------------------------------------------------- what pages cost

  /** What a growth draws on: the free physical pages, and the page tables there are. */
  datatype Env = Env(pool: nat, tables: set<seq<nat>>)

  /** Physical pages that mapping `n` heap pages from page `m` on takes, tables included. */
  ghost function Cost(env: Env, m: nat, n: nat): nat {
    n + RangeCost(env.tables, PageAddr(m), n)
  }

  lemma {:induction false} CostMono(env: Env, m: nat, k: nat, n: nat)
    requires k <= n
    ensures Cost(env, m, k) + (n - k) <= Cost(env, m, n)
  {
    RangeCostMono(env.tables, PageAddr(m), k, n);
  }

  /** How many pages from page `m` on can be mapped, `k` being possible. */
  ghost function SupplyFrom(env: Env, m: nat, k: nat): nat
    requires Cost(env, m, k) <= env.pool
    decreases env.pool - k
  {
    if Cost(env, m, k + 1) <= env.pool then SupplyFrom(env, m, k + 1) else k
  }

  ghost function Supply(env: Env, m: nat): nat {
    SupplyFrom(env, m, 0)
  }

  lemma {:induction false} SupplyFromIff(env: Env, m: nat, k: nat, n: nat)
    requires Cost(env, m, k) <= env.pool
    ensures n <= SupplyFrom(env, m, k) <==> Cost(env, m, n) <= env.pool
    decreases env.pool - k
  {
    hide Cost;
    if Cost(env, m, k + 1) <= env.pool {
      CostMono(env, m, 0, k + 1);
      SupplyFromIff(env, m, k + 1, n);
    } else if n <= k {
      CostMono(env, m, n, k);
    } else {
      CostMono(env, m, k + 1, n);
    }
  }

  /** `n` pages can be mapped exactly when the pages and the tables they lack are free. */
  lemma {:induction false} SupplyIff(env: Env, m: nat, n: nat)
    ensures n <= Supply(env, m) <==> Cost(env, m, n) <= env.pool
  {
    SupplyFromIff(env, m, 0, n);
  }

  /** The last free page goes to a page whose table cannot be had any more: the kernel halts. */
  ghost predicate Halts(env: Env, m: nat, n: nat) {
    Supply(env, m) < n && Cost(env, m, Supply(env, m)) < env.pool
  }

  /** A growth that stops at page `k`: with no page left it fails, with a page but too few
      for its tables it halts. */
  lemma {:induction false} StopsAt(env: Env, m: nat, n: nat, k: nat)
    requires k < n && Cost(env, m, k) <= env.pool < Cost(env, m, k + 1)
    ensures Supply(env, m) == k && env.pool < Cost(env, m, n)
    ensures Halts(env, m, n) <==> Cost(env, m, k) < env.pool
  {
    hide Cost, Supply;
    SupplyIff(env, m, k);
    SupplyIff(env, m, k + 1);
    SupplyIff(env, m, n);
  }

  lemma {:induction false} AllMapped(env: Env, m: nat, n: nat)
    requires Cost(env, m, n) <= env.pool
    ensures !Halts(env, m, n)
  {
    SupplyIff(env, m, n);
  }

  lemma {:induction false} CostNext(env: Env, m: nat, n: nat)
    ensures Cost(env, m, 0) == 0
    ensures Cost(env, m, n + 1) ==
            Cost(env, m, n) + 1 + Missing(TablesAfter(env.tables, PageAddr(m), n), TablePath(PageAddr(m + n)))
  {
    assert PageAddr(m) + 4096 * n == PageAddr(m + n);
  }

  // ---------------------------------------------------------------- mapping them

  /** Takes a page from the allocator and maps it as page `i` of the heap. A page mapped
      already is refused and the physical page given back. */
  method MapHeapPage(space: AddressSpace, i: nat, ghost mapped: nat) returns (r: MapResult)
    requires space.Valid() && HeapMapped(space.flat, mapped) && i <= mapped && i < 0x4000
    requires AllBacked(space.flat, space.pm.used, space.path, mapped)
    modifies space`path, space`flat, space.pm, space.pm.bitmap, space.memory
    ensures space.Valid()
    ensures AllBacked(space.flat, space.pm.used, space.path, if r == Mapped then mapped + 1 else mapped)
    ensures StaysUsed(old(space.pm.used), space.pm.used)
    ensures r == Mapped ==> FromFree(space.flat, old(space.pm.used), i)
    ensures i < mapped ==> r == Refused
    ensures i == mapped ==>
              var lacking := Missing(old(Tables(space.path)), TablePath(PageAddr(i)));
              && (r == Mapped <==> 1 + lacking <= old(space.pm.freePages))
              && (r == Refused <==> old(space.pm.freePages) == 0)
    ensures r == Mapped ==>
              && i == mapped && HeapMapped(space.flat, mapped + 1)
              && space.flat.Keys == old(space.flat.Keys) + {PageOf(PageAddr(i))}
              && (forall w :: w in old(space.flat) ==> w in space.flat && space.flat[w] == old(space.flat)[w])
              && Tables(space.path) == WithPath(old(Tables(space.path)), TablePath(PageAddr(i)))
              && space.pm.freePages ==
                 old(space.pm.freePages) - 1 - Missing(old(Tables(space.path)), TablePath(PageAddr(i)))
    ensures r != Mapped ==> space.flat == old(space.flat)
    ensures r == Refused ==>
              Tables(space.path) == old(Tables(space.path)) && space.pm.freePages == old(space.pm.freePages)
  {
    hide Tables, Missing, WithPath, TablePath, PageOf, Pte, Tree, Refines, FrameOf, Writable, AllBacked, TablesTaken;
    hide EntryFields, WritableAlong, Digits;
    ghost var mem, used, path, flat := space.memory[..], space.pm.used, space.path, space.flat;
    var phys := space.pm.AllocPage();
    assert HeapPageAt(space.flat, mapped, i);
    if phys == 0 {
      return Refused;
    }
    ghost var p := phys / 4096;
    assert space.memory[..] == mem;
    MoreUsed(mem, used, space.root, space.path, p);
    FreshPage(mem, used, space.root, space.path, p);
    r := space.MapPage(0xFFFF_A000_0000_0000 + 4096 * i, phys, PTE_WRITABLE);
    if r == Refused {
      space.pm.FreePage(phys);
      assert space.pm.used == used && space.memory[..] == mem;
    } else if r == Mapped {
      HeapMappedNext(old(space.flat), mapped, Pte(phys, PTE_WRITABLE));
      HeapPte(p);
      BackedWithout(flat, used, path, space.pm.used, space.path, mapped, p);
      BackedNext(flat, used, path, space.flat, space.pm.used, space.path, mapped, p);
    } else {
      BackedWithout(flat, used, path, space.pm.used, space.path, mapped, p);
    }
  }

  /** Maps `n` pages of the heap from page `first` on, one by one, until one cannot be had.
      Only pages of the heap are mapped, and the physical pages taken are those and their
      tables. */
  method MapHeapPages(space: AddressSpace, first: nat, n: nat, ghost mapped: nat)
    returns (ok: bool, halted: bool, ghost mapped': nat)
    requires space.Valid() && HeapMapped(space.flat, mapped) && first <= mapped && first + n <= 0x4000
    requires AllBacked(space.flat, space.pm.used, space.path, mapped)
    modifies space`path, space`flat, space.pm, space.pm.bitmap, space.memory
    ensures space.Valid() && HeapMapped(space.flat, mapped') && mapped <= mapped'
    ensures AllBacked(space.flat, space.pm.used, space.path, mapped')
    ensures forall i :: mapped <= i < mapped' ==> FromFree(space.flat, old(space.pm.used), i)
    ensures var env := Env(old(space.pm.freePages), old(Tables(space.path)));
            && (halted <==> first == mapped && Halts(env, mapped, n))
            && (ok <==> n == 0 || (first == mapped && Cost(env, mapped, n) <= env.pool))
            && (ok ==> !halted && mapped' == mapped + n)
            && (!ok && !halted ==> mapped' == if mapped > first then mapped else mapped + Supply(env, mapped))
            && (!halted ==> space.pm.freePages == env.pool - Cost(env, mapped, mapped' - mapped))
    ensures forall w :: w in old(space.flat) ==> w in space.flat && space.flat[w] == old(space.flat)[w]
    ensures forall w :: w in space.flat ==>
              w in old(space.flat) || exists i :: mapped <= i < mapped' && w == PageOf(PageAddr(i))
  {
    hide Cost, Supply, Halts, Tables, Missing, WithPath, TablePath, PageOf, Tree, Refines, HeapMapped;
    ghost var env := Env(space.pm.freePages, Tables(space.path));
    ok, halted, mapped' := false, false, mapped;
    CostNext(env, mapped, 0);
    var done: nat := 0;
    while done < n
      invariant done <= n && mapped' == mapped + done && (done == 0 || first == mapped)
      invariant space.Valid() && HeapMapped(space.flat, mapped')
      invariant AllBacked(space.flat, space.pm.used, space.path, mapped')
      invariant StaysUsed(old(space.pm.used), space.pm.used)
      invariant forall i :: mapped <= i < mapped' ==> FromFree(space.flat, old(space.pm.used), i)
      invariant Tables(space.path) == TablesAfter(env.tables, PageAddr(mapped), done)
      invariant space.pm.freePages + Cost(env, mapped, done) == env.pool
      invariant forall w :: w in old(space.flat) ==> w in space.flat && space.flat[w] == old(space.flat)[w]
      invariant forall w :: w in space.flat ==>
                  w in old(space.flat) || exists i :: mapped <= i < mapped' && w == PageOf(PageAddr(i))
    {
      CostNext(env, mapped, done);
      ghost var flat, used := space.flat, space.pm.used;
      var r := MapHeapPage(space, first + done, mapped');
      if r != Mapped {
        halted := r == Halted;
        if first == mapped {
          StopsAt(env, mapped, n, done);
        }
        return;
      }
      FromFreeStays(space.flat, old(space.pm.used), space.flat, used, mapped');
      forall i | mapped <= i < mapped'
        ensures FromFree(space.flat, old(space.pm.used), i)
      {
        FromFreeStays(flat, old(space.pm.used), space.flat, used, i);
      }
      mapped' := mapped' + 1;
      done := done + 1;
    }
    AllMapped(env, mapped, n);
    ok := true;
  }
}
